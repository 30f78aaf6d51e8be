/** Questions asked of a migration's op tree before any target is known, and why every-leg answers are safe. */
module OpGates {
  import opened Wrappers
  import opened Unicode
  import opened Exprs
  import opened Envelope
  import opened Ops

  // ---- destructiveness ------------------------------------------------------------------------

  /** `Op::is_destructive`: a wrapper is destructive when any present leg holds a destructive op. */
  predicate IsDestructive(op: Op)
    decreases op, 0
  {
    if op.Dialectal? then AnyDestructive(op, AllLegs(op)) else IsDestructiveLeaf(op)
  }

  predicate AnyDestructive(op: Op, inner: seq<Op>)
    requires op.Dialectal? && forall o | o in inner :: o in AllLegs(op)
    decreases op, 0, |inner|
  {
    inner != [] && (InnerSmaller(op, inner[0]); IsDestructive(inner[0]) || AnyDestructive(op, inner[1..]))
  }

  lemma {:induction false} DestructiveExactly(op: Op)
    ensures IsDestructive(op) <==> exists l | l in Leaves(op) :: IsDestructiveLeaf(l)
    decreases op, 0
  {
    if op.Dialectal? {
      AnyDestructiveExactly(op, AllLegs(op));
    } else {
      assert op in Leaves(op);
    }
  }

  lemma {:induction false} AnyDestructiveExactly(op: Op, inner: seq<Op>)
    requires op.Dialectal? && forall o | o in inner :: o in AllLegs(op)
    ensures AnyDestructive(op, inner) <==> exists l | l in LeavesOfInner(op, inner) :: IsDestructiveLeaf(l)
    decreases op, 0, |inner|
  {
    if inner == [] {
    } else {
      InnerSmaller(op, inner[0]);
      DestructiveExactly(inner[0]);
      AnyDestructiveExactly(op, inner[1..]);
      var here, there := Leaves(inner[0]), LeavesOfInner(op, inner[1..]);
      assert forall l :: l in here + there <==> l in here || l in there;
    }
  }

  // ---- touched tables ---------------------------------------------------------------------------

  function TablesTouched(leaves: seq<Op>): set<string> {
    set l | l in leaves && TouchedTable(l).Some? :: TouchedTable(l).value
  }

  class TableSet {
    var tables: set<string>

    constructor ()
      ensures tables == {}
    {
      tables := {};
    }

    method Insert(t: string)
      modifies this
      ensures tables == old(tables) + {t}
    {
      tables := tables + {t};
    }
  }

  /** `Op::collect_touched_tables`. */
  method CollectTouchedTables(op: Op, out: TableSet)
    modifies out
    ensures out.tables == old(out.tables) + TablesTouched(Leaves(op))
    decreases op
  {
    if op.Dialectal? {
      var inner := AllLegs(op);
      var i := 0;
      while i < |inner|
        invariant 0 <= i <= |inner|
        invariant out.tables == old(out.tables) + TablesTouched(LeavesOf(inner[..i]))
      {
        InnerSmaller(op, inner[i]);
        CollectTouchedTables(inner[i], out);
        TouchedOfPrefix(inner, i);
        i := i + 1;
      }
      assert inner[..i] == inner;
      LeavesOfInnerIs(op, inner);
    } else if TouchedTable(op).Some? {
      out.Insert(TouchedTable(op).value);
      assert Leaves(op) == [op];
    }
  }

  lemma TouchedOfPrefix(ops: seq<Op>, i: nat)
    requires i < |ops|
    ensures TablesTouched(LeavesOf(ops[..i + 1])) == TablesTouched(LeavesOf(ops[..i])) + TablesTouched(Leaves(ops[i]))
  {
    LeavesOfPrefix(ops, i);
  }

  /** Strictly ascending in text order, with exactly the members of the set. */
  ghost predicate ListsInOrder(names: seq<string>, tables: set<string>) {
    && (forall i, j | 0 <= i < j < |names| :: TextLess(names[i], names[j]))
    && forall t :: t in names <==> t in tables
  }

  /** Iterating a `BTreeSet`: its members in text order. */
  method InOrder(tables: set<string>) returns (names: seq<string>)
    ensures ListsInOrder(names, tables)
  {
    names := [];
    var left := tables;
    while left != {}
      invariant left <= tables && ListsInOrder(names, tables - left)
      decreases left
    {
      var t :| t in left;
      names := InsertName(names, tables - left, t);
      left := left - {t};
      assert tables - left == tables - (left + {t}) + {t};
    }
  }

  method InsertName(names: seq<string>, ghost tables: set<string>, t: string) returns (r: seq<string>)
    requires ListsInOrder(names, tables) && t !in tables
    ensures ListsInOrder(r, tables + {t})
  {
    var i := 0;
    while i < |names| && TextLess(names[i], t)
      invariant 0 <= i <= |names|
      invariant forall j | 0 <= j < i :: TextLess(names[j], t)
    {
      i := i + 1;
    }
    forall j | i <= j < |names| ensures TextLess(t, names[j]) {
      assert names[i] in names && names[j] in names;
      TextOrderIsStrictTotal(t, names[i], names[j]);
    }
    r := names[..i] + [t] + names[i..];
    InsertedInOrder(names, t, i);
  }

  lemma InsertedInOrder(names: seq<string>, t: string, i: nat)
    requires i <= |names|
    requires forall j, k | 0 <= j < k < |names| :: TextLess(names[j], names[k])
    requires forall j | 0 <= j < i :: TextLess(names[j], t)
    requires forall j | i <= j < |names| :: TextLess(t, names[j])
    ensures var r := names[..i] + [t] + names[i..];
            && (forall j, k | 0 <= j < k < |r| :: TextLess(r[j], r[k]))
            && forall u :: u in r <==> u in names || u == t
  {
    assert names == names[..i] + names[i..];
  }

  /** `MigrationIr::touched_tables`. */
  method TouchedTables(ir: MigrationIr<Op>) returns (names: seq<string>)
    ensures ListsInOrder(names, TablesTouched(LeavesOf(ir.ops)))
    ensures forall t :: t in names <==> exists l | l in LeavesOf(ir.ops) :: Touches(l, t)
  {
    var out := new TableSet();
    var i := 0;
    while i < |ir.ops|
      invariant 0 <= i <= |ir.ops|
      invariant out.tables == TablesTouched(LeavesOf(ir.ops[..i]))
    {
      CollectTouchedTables(ir.ops[i], out);
      TouchedOfPrefix(ir.ops, i);
      i := i + 1;
    }
    assert ir.ops[..i] == ir.ops;
    names := InOrder(out.tables);
    TouchedComplete(LeavesOf(ir.ops));
  }

  /** A table is touched exactly when some leaf names it in a way that touches it. */
  lemma TouchedComplete(leaves: seq<Op>)
    ensures forall t :: t in TablesTouched(leaves) <==> exists l | l in leaves :: Touches(l, t)
  {
    forall l | l in leaves ensures forall t :: TouchedTable(l) == Some(t) <==> Touches(l, t) { TouchedExactly(l); }
  }

  // ---- phases -------------------------------------------------------------------------------------

  /** The two facts `classify_forward_op` accumulates. */
  class ForwardOpKinds {
    var dml: bool
    var ddlOrVendor: bool

    constructor ()
      ensures !dml && !ddlOrVendor
    {
      dml, ddlOrVendor := false, false;
    }
  }

  ghost predicate HasDml(leaves: seq<Op>) { exists l | l in leaves :: IsDmlLeaf(l) }

  ghost predicate HasDdl(leaves: seq<Op>) { exists l | l in leaves :: !IsDmlLeaf(l) }

  method ClassifyForwardOp(op: Op, kinds: ForwardOpKinds)
    modifies kinds
    ensures kinds.dml <==> old(kinds.dml) || HasDml(Leaves(op))
    ensures kinds.ddlOrVendor <==> old(kinds.ddlOrVendor) || HasDdl(Leaves(op))
    decreases op
  {
    if op.Dialectal? {
      var inner := AllLegs(op);
      var i := 0;
      while i < |inner|
        invariant 0 <= i <= |inner|
        invariant kinds.dml <==> old(kinds.dml) || HasDml(LeavesOf(inner[..i]))
        invariant kinds.ddlOrVendor <==> old(kinds.ddlOrVendor) || HasDdl(LeavesOf(inner[..i]))
      {
        InnerSmaller(op, inner[i]);
        ClassifyForwardOp(inner[i], kinds);
        KindsOfPrefix(inner, i);
        i := i + 1;
      }
      assert inner[..i] == inner;
      LeavesOfInnerIs(op, inner);
    } else {
      assert op in Leaves(op);
      if IsDmlLeaf(op) { kinds.dml := true; } else { kinds.ddlOrVendor := true; }
    }
  }

  lemma KindsOfPrefix(ops: seq<Op>, i: nat)
    requires i < |ops|
    ensures HasDml(LeavesOf(ops[..i + 1])) <==> HasDml(LeavesOf(ops[..i])) || HasDml(Leaves(ops[i]))
    ensures HasDdl(LeavesOf(ops[..i + 1])) <==> HasDdl(LeavesOf(ops[..i])) || HasDdl(Leaves(ops[i]))
  {
    LeavesOfPrefix(ops, i);
    var a, b := LeavesOf(ops[..i]), Leaves(ops[i]);
    assert forall l :: l in a + b <==> l in a || l in b;
  }

  datatype ProtocolError = MixedDdlAndDml | DmlMissingReverse

  /** The verdict of the phase gate, from what the leaves are. */
  ghost function ForwardVerdict(ir: MigrationIr<Op>): Result<(), ProtocolError> {
    var leaves := LeavesOf(ir.ops);
    if HasDml(leaves) && HasDdl(leaves) then Err(MixedDdlAndDml)
    else if HasDml(leaves) && ir.inverseOps.None? && ir.irreversible.None? then Err(DmlMissingReverse)
    else Ok(())
  }

  method EnforceIrForwardDataProtocol(ir: MigrationIr<Op>) returns (r: Result<(), ProtocolError>)
    ensures r == ForwardVerdict(ir)
  {
    var kinds := new ForwardOpKinds();
    var i := 0;
    while i < |ir.ops|
      invariant 0 <= i <= |ir.ops|
      invariant kinds.dml <==> HasDml(LeavesOf(ir.ops[..i]))
      invariant kinds.ddlOrVendor <==> HasDdl(LeavesOf(ir.ops[..i]))
    {
      ClassifyForwardOp(ir.ops[i], kinds);
      KindsOfPrefix(ir.ops, i);
      i := i + 1;
    }
    assert ir.ops[..i] == ir.ops;
    if kinds.dml && kinds.ddlOrVendor { return Err(MixedDdlAndDml); }
    if kinds.dml && ir.inverseOps.None? && ir.irreversible.None? { return Err(DmlMissingReverse); }
    r := Ok(());
  }

  // ---- main results ----------------------------------------------------------------------------------

  /** What a target runs touches no table, destroys nothing and writes no row unannounced. */
  lemma EveryLegAnswersCover(ir: MigrationIr<Op>, target: Dialect)
    ensures TablesTouched(SelectedOf(target, ir.ops)) <= TablesTouched(LeavesOf(ir.ops))
    ensures (exists x | x in SelectedOf(target, ir.ops) :: IsDestructive(x)) ==>
            exists o | o in ir.ops :: IsDestructive(o)
    ensures HasDml(SelectedOf(target, ir.ops)) ==> HasDml(LeavesOf(ir.ops))
    ensures HasDdl(SelectedOf(target, ir.ops)) ==> HasDdl(LeavesOf(ir.ops))
  {
    forall x | x in SelectedOf(target, ir.ops) ensures x in LeavesOf(ir.ops) && !x.Dialectal? {
      SelectedOfAreLeaves(target, ir.ops, x);
    }
    if x :| x in SelectedOf(target, ir.ops) && IsDestructive(x) {
      LeavesOfMembers(ir.ops, x);
      var o :| o in ir.ops && x in Leaves(o);
      DestructiveExactly(o);
    }
  }

  /**
   The two reverse gates pass exactly when at most one reverse is declared and a migration
   that writes rows in any leg writes rows in every leaf and declares one.
   */
  lemma ReverseGatesExactly(ir: MigrationIr<Op>)
    ensures EnforceIrSingleReverse(ir).Ok? && ForwardVerdict(ir).Ok? <==>
            && (ir.inverseOps.None? || ir.irreversible.None?)
            && (HasDml(LeavesOf(ir.ops)) ==>
                  && (forall l | l in LeavesOf(ir.ops) :: IsDmlLeaf(l))
                  && (ir.inverseOps.Some? || ir.irreversible.Some?))
  {
    var leaves := LeavesOf(ir.ops);
    if forall l | l in leaves :: IsDmlLeaf(l) { assert !HasDdl(leaves); }
    if l :| l in leaves && !IsDmlLeaf(l) { assert HasDdl(leaves); }
  }

  /** One op on a table alone: the four row writers need a reverse, and every other verb does not. */
  lemma RowWritersNeedAReverse(ir: MigrationIr<Op>, verb: TableVerb, table: string, schema: Option<string>)
    requires ir.ops == [OnTable(verb, table, schema)] && ir.inverseOps.None? && ir.irreversible.None?
    ensures verb in {Insert, Update, Delete, Backfill} ==> ForwardVerdict(ir) == Err(DmlMissingReverse)
    ensures verb !in {Insert, Update, Delete, Backfill} ==> ForwardVerdict(ir) == Ok(())
  {
    RowWriters(verb, table, schema);
    WrapperLeaves(ir.ops[0]);
    assert LeavesOf(ir.ops) == ir.ops && ir.ops[0] in ir.ops;
  }

  /** Mixing is reported before a missing reverse. */
  lemma MixingIsReportedFirst(ir: MigrationIr<Op>)
    ensures ForwardVerdict(ir) == Err(MixedDdlAndDml) <==>
            exists l, k | l in LeavesOf(ir.ops) && k in LeavesOf(ir.ops) :: IsDmlLeaf(l) && !IsDmlLeaf(k)
  {
    var leaves := LeavesOf(ir.ops);
    if l, k :| l in leaves && k in leaves && IsDmlLeaf(l) && !IsDmlLeaf(k) {
      assert HasDml(leaves) && HasDdl(leaves);
    }
  }

  /** Past both gates, no target of a migration that writes rows under any nesting can mix phases. */
  lemma DataMigrationsAreSinglePhase(ir: MigrationIr<Op>)
    requires EnforceIrSingleReverse(ir).Ok? && ForwardVerdict(ir).Ok?
    requires HasDml(LeavesOf(ir.ops))
    ensures forall target, x | x in SelectedOf(target, ir.ops) :: IsDmlLeaf(x)
    ensures ir.inverseOps.Some? <==> ir.irreversible.None?
  {
    ReverseGatesExactly(ir);
    forall target, x | x in SelectedOf(target, ir.ops) ensures IsDmlLeaf(x) {
      SelectedOfAreLeaves(target, ir.ops, x);
    }
  }
}
