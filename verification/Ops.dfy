/**
 The op vocabulary as its gates read it: the tables an op names, its verb, and the legs of a
 `dialect` wrapper. Ops that carry one table and differ only in verb share a constructor.
 */
module Ops {
  import opened Wrappers
  import opened Exprs

  datatype AlterPrimaryKeyAction = AddKey | ReplaceKey | DropKey

  /** Ops on one existing table. */
  datatype TableVerb =
    | SetTableOptions | DropTable | RenameTable | AddColumn | DropColumn | CreateIndex | SetColumnType
    | SetColumnNotNull | DropColumnNotNull | SetColumnDefault | DropColumnDefault | RenameColumn
    | AlterPrimaryKey(action: AlterPrimaryKeyAction) | SynchronizeIdentity
    | AddConstraint | ValidateConstraint | DropConstraint
    | Insert | Update | Delete | Backfill
    | SetRls | CreatePolicy | DropPolicy | CreateTrigger | DropTrigger

  datatype PartitionVerb = CreatePartition | AttachPartition | DetachPartition | DropPartition

  /** Ops that touch no table. */
  datatype ObjectVerb =
    | DropView | CreateEnum | DropEnum | CreateDomain | DropDomain
    | CreateSequence | AlterSequence | DropSequence
    | CreateExtension | CreateFunction | DropFunction
    | CreateSchema | DropSchema | DropExtension | CreateRole | AlterRole | DropRole | DropOwnedBy
    | Grant | Revoke | PgRaw

  /** The table a comment is about, if it is about a table, one of its columns or its constraints. */
  datatype CommentTarget =
    | OfTable(table: string, schema: Option<string>)
    | OfColumn(table: string, schema: Option<string>)
    | OfConstraint(table: string, schema: Option<string>)
    | OfOther(schema: Option<string>)

  /** A structured view reads from one table and the joined ones; a raw body is opaque. */
  datatype ViewQuery = Structured(from: string, joins: seq<string>) | Raw

  datatype Op =
    | CreateTable(name: string, schema: Option<string>)
    | Partition(partitionVerb: PartitionVerb, parent: string, name: string, schema: Option<string>)
    | OnTable(verb: TableVerb, table: string, schema: Option<string>)
    | DropIndex(hint: Option<string>, schema: Option<string>)
    | Comment(target: CommentTarget)
    | CreateView(query: ViewQuery, schema: Option<string>)
    | OnObject(objectVerb: ObjectVerb, schema: Option<string>)
    | Dialectal(default: OpLeg, pg: OpLeg, sqlite: OpLeg, mysql: OpLeg)

  /** A leg may be absent, or present and empty. */
  datatype OpLeg = Absent | Present(ops: seq<Op>)

  // ---- per-op readings ----------------------------------------------------------------------

  function CommentTable(t: CommentTarget): Option<string> {
    match t
    case OfTable(table, _) => Some(table)
    case OfColumn(table, _) => Some(table)
    case OfConstraint(table, _) => Some(table)
    case OfOther(_) => None
  }

  function TouchedTable(op: Op): Option<string> {
    match op
    case CreateTable(name, _) => Some(name)
    case Partition(_, _, name, _) => Some(name)
    case OnTable(_, table, _) => Some(table)
    case DropIndex(hint, _) => hint
    case Comment(target) => CommentTable(target)
    case CreateView(_, _) => None
    case OnObject(_, _) => None
    case Dialectal(_, _, _, _) => None
  }

  /** The schema qualifier; namespace-level verbs have none. */
  function OpSchema(op: Op): Option<string> {
    match op
    case Comment(target) => target.schema
    case OnObject(v, schema) =>
      if v in {CreateSchema, DropSchema, DropExtension, CreateRole, AlterRole, DropRole, DropOwnedBy, Grant,
               Revoke, PgRaw}
      then None else schema
    case Dialectal(_, _, _, _) => None
    case CreateTable(_, schema) => schema
    case Partition(_, _, _, schema) => schema
    case OnTable(_, _, schema) => schema
    case DropIndex(_, schema) => schema
    case CreateView(_, schema) => schema
  }

  /** Verbs that lose data: durable drops, lossy rewrites, row-affecting DML, opaque SQL. */
  predicate IsDestructiveLeaf(op: Op) {
    match op
    case OnTable(v, _, _) =>
      v in {DropTable, DropColumn, DropConstraint, SetColumnType, Update, Delete, Backfill,
            AlterPrimaryKey(ReplaceKey), AlterPrimaryKey(DropKey)}
    case Partition(v, _, _, _) => v in {DropPartition, DetachPartition}
    case OnObject(v, _) =>
      v in {DropSchema, DropView, DropSequence, DropEnum, DropDomain, DropFunction, DropOwnedBy, PgRaw}
    case _ => false
  }

  predicate IsDmlLeaf(op: Op) {
    op.OnTable? && op.verb in {Insert, Update, Delete, Backfill}
  }

  // ---- legs -----------------------------------------------------------------------------------

  function Leg(leg: OpLeg): seq<Op> {
    match leg case Present(ops) => ops case Absent => []
  }

  /** Everything inside a wrapper, present legs in declaration order. */
  function AllLegs(op: Op): seq<Op>
    requires op.Dialectal?
  {
    Leg(op.default) + Leg(op.pg) + Leg(op.sqlite) + Leg(op.mysql)
  }

  lemma InnerSmaller(op: Op, inner: Op)
    requires op.Dialectal? && inner in AllLegs(op)
    ensures inner < op
  {
    assert inner in Leg(op.default) || inner in Leg(op.pg) || inner in Leg(op.sqlite) || inner in Leg(op.mysql);
  }

  /** The ops that are not wrappers, through every leg of every nesting. */
  function Leaves(op: Op): seq<Op>
    decreases op, 0
  {
    if op.Dialectal? then LeavesOfInner(op, AllLegs(op)) else [op]
  }

  function LeavesOfInner(op: Op, inner: seq<Op>): seq<Op>
    requires op.Dialectal? && forall o | o in inner :: o in AllLegs(op)
    decreases op, 0, |inner|
  {
    if inner == [] then []
    else
      InnerSmaller(op, inner[0]);
      Leaves(inner[0]) + LeavesOfInner(op, inner[1..])
  }

  function LeavesOf(ops: seq<Op>): seq<Op> {
    if ops == [] then [] else Leaves(ops[0]) + LeavesOf(ops[1..])
  }

  lemma {:induction false} LeavesOfInnerIs(op: Op, inner: seq<Op>)
    requires op.Dialectal? && forall o | o in inner :: o in AllLegs(op)
    ensures LeavesOfInner(op, inner) == LeavesOf(inner)
  {
    if inner == [] {
    } else {
      LeavesOfInnerIs(op, inner[1..]);
    }
  }

  lemma {:induction false} LeavesOfConcat(a: seq<Op>, b: seq<Op>)
    ensures LeavesOf(a + b) == LeavesOf(a) + LeavesOf(b)
  {
    if a == [] {
      assert a + b == b;
    } else {
      assert (a + b)[1..] == a[1..] + b;
      LeavesOfConcat(a[1..], b);
    }
  }

  lemma LeavesOfPrefix(ops: seq<Op>, i: nat)
    requires i < |ops|
    ensures LeavesOf(ops[..i + 1]) == LeavesOf(ops[..i]) + Leaves(ops[i])
  {
    assert ops[..i + 1] == ops[..i] + [ops[i]];
    LeavesOfConcat(ops[..i], [ops[i]]);
    assert LeavesOf([ops[i]]) == Leaves(ops[i]) + [];
  }

  lemma {:induction false} LeavesOfMembers(ops: seq<Op>, x: Op)
    ensures x in LeavesOf(ops) <==> exists o | o in ops :: x in Leaves(o)
  {
    if ops == [] {
    } else {
      LeavesOfMembers(ops[1..], x);
      assert ops[0] in ops && forall o :: o in ops <==> o == ops[0] || o in ops[1..];
    }
  }

  /** The leg a target runs: its own, else the default, else nothing. */
  function SelectedLeg(target: Dialect, op: Op): seq<Op>
    requires op.Dialectal?
  {
    var own := match target case Postgres => op.pg case Sqlite => op.sqlite case Mysql => op.mysql;
    if own.Present? then own.ops else Leg(op.default)
  }

  /** The ops a target runs, through every nesting. */
  function Selected(target: Dialect, op: Op): seq<Op>
    decreases op, 0
  {
    if op.Dialectal? then
      assert forall o | o in SelectedLeg(target, op) :: o in AllLegs(op);
      SelectedOfInner(target, op, SelectedLeg(target, op))
    else [op]
  }

  function SelectedOfInner(target: Dialect, op: Op, inner: seq<Op>): seq<Op>
    requires op.Dialectal? && forall o | o in inner :: o in AllLegs(op)
    decreases op, 0, |inner|
  {
    if inner == [] then []
    else
      InnerSmaller(op, inner[0]);
      Selected(target, inner[0]) + SelectedOfInner(target, op, inner[1..])
  }

  function SelectedOf(target: Dialect, ops: seq<Op>): seq<Op> {
    if ops == [] then [] else Selected(target, ops[0]) + SelectedOf(target, ops[1..])
  }

  /** Whatever a target runs is a leaf of the authored list, and no wrapper is left. */
  lemma {:induction false} SelectedAreLeaves(target: Dialect, op: Op, x: Op)
    requires x in Selected(target, op)
    ensures x in Leaves(op) && !x.Dialectal?
    decreases op, 0
  {
    if op.Dialectal? {
      var inner := SelectedLeg(target, op);
      assert forall o | o in inner :: o in AllLegs(op);
      SelectedInnerAreLeaves(target, op, inner, x);
      LeavesOfInnerIs(op, AllLegs(op));
      var o :| o in inner && x in Leaves(o);
      LeavesOfMembers(AllLegs(op), x);
    }
  }

  lemma {:induction false} SelectedInnerAreLeaves(target: Dialect, op: Op, inner: seq<Op>, x: Op)
    requires op.Dialectal? && forall o | o in inner :: o in AllLegs(op)
    requires x in SelectedOfInner(target, op, inner)
    ensures !x.Dialectal? && exists o | o in inner :: x in Leaves(o)
    decreases op, 0, |inner|
  {
    InnerSmaller(op, inner[0]);
    if x in Selected(target, inner[0]) {
      SelectedAreLeaves(target, inner[0], x);
      assert inner[0] in inner;
    } else {
      SelectedInnerAreLeaves(target, op, inner[1..], x);
    }
  }

  lemma {:induction false} SelectedOfAreLeaves(target: Dialect, ops: seq<Op>, x: Op)
    requires x in SelectedOf(target, ops)
    ensures x in LeavesOf(ops) && !x.Dialectal?
  {
    if x in Selected(target, ops[0]) {
      SelectedAreLeaves(target, ops[0], x);
    } else {
      SelectedOfAreLeaves(target, ops[1..], x);
    }
  }

  lemma {:induction false} LeavesAreLeaves(op: Op, x: Op)
    requires x in Leaves(op)
    ensures !x.Dialectal? && Leaves(x) == [x]
    decreases op
  {
    if op.Dialectal? {
      LeavesOfInnerIs(op, AllLegs(op));
      LeavesOfMembers(AllLegs(op), x);
      var o :| o in AllLegs(op) && x in Leaves(o);
      InnerSmaller(op, o);
      LeavesAreLeaves(o, x);
    }
  }

  /** Over a list without wrappers, leaves are the list. */
  lemma {:induction false} LeavesOfPlain(ops: seq<Op>)
    requires forall o | o in ops :: !o.Dialectal?
    ensures LeavesOf(ops) == ops
  {
    if ops == [] {
    } else {
      LeavesOfPlain(ops[1..]);
      assert ops == [ops[0]] + ops[1..];
    }
  }

  // ---- laws of the two readings -----------------------------------------------------------------

  lemma {:induction false} SelectedOfConcat(target: Dialect, a: seq<Op>, b: seq<Op>)
    ensures SelectedOf(target, a + b) == SelectedOf(target, a) + SelectedOf(target, b)
  {
    if a == [] {
      assert a + b == b;
    } else {
      assert (a + b)[1..] == a[1..] + b;
      SelectedOfConcat(target, a[1..], b);
    }
  }

  lemma {:induction false} SelectedOfInnerIs(target: Dialect, op: Op, inner: seq<Op>)
    requires op.Dialectal? && forall o | o in inner :: o in AllLegs(op)
    ensures SelectedOfInner(target, op, inner) == SelectedOf(target, inner)
  {
    if inner == [] {
    } else {
      SelectedOfInnerIs(target, op, inner[1..]);
    }
  }

  lemma SelectedOne(target: Dialect, op: Op)
    ensures SelectedOf(target, [op]) == if op.Dialectal? then SelectedOf(target, SelectedLeg(target, op)) else [op]
  {
    assert [op][1..] == [] && Selected(target, op) + [] == Selected(target, op);
    if op.Dialectal? {
      assert forall o | o in SelectedLeg(target, op) :: o in AllLegs(op);
      SelectedOfInnerIs(target, op, SelectedLeg(target, op));
    }
  }

  /**
   A target runs its own leg whenever that leg is present, empty or not, whatever the other legs
   hold; without one it runs the default; without either, nothing.
   */
  lemma WrapperRuns(default: OpLeg, pg: OpLeg, sqlite: OpLeg, mysql: OpLeg)
    ensures var op := Op.Dialectal(default, pg, sqlite, mysql);
            && (pg.Present? ==> SelectedOf(Postgres, [op]) == SelectedOf(Postgres, pg.ops))
            && (sqlite.Present? ==> SelectedOf(Sqlite, [op]) == SelectedOf(Sqlite, sqlite.ops))
            && (mysql.Present? ==> SelectedOf(Mysql, [op]) == SelectedOf(Mysql, mysql.ops))
            && (pg.Absent? && default.Present? ==> SelectedOf(Postgres, [op]) == SelectedOf(Postgres, default.ops))
            && (sqlite.Absent? && default.Present? ==> SelectedOf(Sqlite, [op]) == SelectedOf(Sqlite, default.ops))
            && (mysql.Absent? && default.Present? ==> SelectedOf(Mysql, [op]) == SelectedOf(Mysql, default.ops))
            && (pg.Absent? && default.Absent? ==> SelectedOf(Postgres, [op]) == [])
            && (sqlite.Absent? && default.Absent? ==> SelectedOf(Sqlite, [op]) == [])
            && (mysql.Absent? && default.Absent? ==> SelectedOf(Mysql, [op]) == [])
  {
    var op := Op.Dialectal(default, pg, sqlite, mysql);
    forall target ensures SelectedOf(target, [op]) == SelectedOf(target, SelectedLeg(target, op)) {
      SelectedOne(target, op);
    }
  }

  /** The leaves of a wrapper are those of its four legs in declaration order; any other op is its own leaf. */
  lemma WrapperLeaves(op: Op)
    ensures LeavesOf([op]) == Leaves(op)
    ensures !op.Dialectal? ==> Leaves(op) == [op]
    ensures op.Dialectal? ==> Leaves(op) == LeavesOf((if op.default.Present? then op.default.ops else [])
                                                   + (if op.pg.Present? then op.pg.ops else [])
                                                   + (if op.sqlite.Present? then op.sqlite.ops else [])
                                                   + (if op.mysql.Present? then op.mysql.ops else []))
  {
    assert [op][1..] == [] && Leaves(op) + [] == Leaves(op);
    if op.Dialectal? { LeavesOfInnerIs(op, AllLegs(op)); }
  }

  // ---- verbs --------------------------------------------------------------------------------------

  /** The verbs that write rows are four, and all but inserting lose data. */
  lemma RowWriters(verb: TableVerb, table: string, schema: Option<string>)
    ensures var op := OnTable(verb, table, schema);
            && (IsDmlLeaf(op) <==> verb == Insert || verb == Update || verb == Delete || verb == Backfill)
            && (IsDmlLeaf(op) ==> (IsDestructiveLeaf(op) <==> verb != Insert))
  {}

  /** The schema verbs that lose data are the durable drops and the lossy rewrites, partition detaching included. */
  lemma SchemaVerbs(op: Op)
    requires !op.Dialectal? && !IsDmlLeaf(op)
    ensures op.OnTable? ==>
            (IsDestructiveLeaf(op) <==>
             || op.verb.DropTable? || op.verb.DropColumn? || op.verb.DropConstraint? || op.verb.SetColumnType?
             || (op.verb.AlterPrimaryKey? && !op.verb.action.AddKey?))
    ensures op.Partition? ==>
            (IsDestructiveLeaf(op) <==> op.partitionVerb.DropPartition? || op.partitionVerb.DetachPartition?)
    ensures op.OnObject? ==>
            (IsDestructiveLeaf(op) <==>
             || op.objectVerb.DropView? || op.objectVerb.DropEnum? || op.objectVerb.DropDomain?
             || op.objectVerb.DropSequence? || op.objectVerb.DropFunction? || op.objectVerb.DropSchema?
             || op.objectVerb.DropOwnedBy? || op.objectVerb.PgRaw?)
    ensures op.CreateTable? || op.DropIndex? || op.Comment? || op.CreateView? ==> !IsDestructiveLeaf(op)
  {}

  // ---- names --------------------------------------------------------------------------------------

  /** The tables an op names: its own, a partition and its parent, the sources of a structured view. */
  ghost predicate NamesTable(l: Op, t: string) {
    || (l.CreateTable? && t == l.name)
    || (l.Partition? && (t == l.parent || t == l.name))
    || (l.OnTable? && t == l.table)
    || (l.DropIndex? && l.hint == Some(t))
    || (l.Comment? && (l.target.OfTable? || l.target.OfColumn? || l.target.OfConstraint?) && t == l.target.table)
    || (l.CreateView? && l.query.Structured? && (t == l.query.from || t in l.query.joins))
  }

  /** Of those, a partition op touches the partition alone, and a view touches none of its sources. */
  ghost predicate Touches(l: Op, t: string) {
    NamesTable(l, t) && !l.CreateView? && (l.Partition? ==> t == l.name)
  }

  lemma TouchedExactly(l: Op)
    ensures forall t :: TouchedTable(l) == Some(t) <==> Touches(l, t)
  {}
}
