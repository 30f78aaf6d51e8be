/** Whether a migration needs an operator's approval, under obligations scoped to the objects it targets. */
module Approval {
  import opened Wrappers
  import opened Exprs
  import opened Ops
  import opened OpGates

  const KEY_REQUIRE_APPROVAL := "safety.require_approval"

  type ObjectName = string

  datatype KnobValue = KnobStr(text: string) | KnobOther

  /** The obligations covering an object, and how identifiers become object names. */
  datatype EffectivePolicy = EffectivePolicy(
    obligations: ObjectName -> seq<(string, KnobValue)>,
    normalize: string -> Option<ObjectName>,
    schemaObject: string -> ObjectName)

  datatype ApprovalLevel = Never | OnDestructive | Always

  /** An unknown variant is read as the strictest obligation. */
  function FromVariant(v: string): ApprovalLevel {
    if v == "never" then Never
    else if v == "on_destructive" then OnDestructive
    else if v == "always" then Always
    else Always
  }

  function Rank(l: ApprovalLevel): nat {
    match l case Never => 0 case OnDestructive => 1 case Always => 2
  }

  function Loosest(a: ApprovalLevel, b: ApprovalLevel): ApprovalLevel {
    if Rank(a) >= Rank(b) then a else b
  }

  /** The level an obligation asks for, if it is an approval obligation. */
  function LevelAsked(o: (string, KnobValue)): Option<ApprovalLevel> {
    if o.0 == KEY_REQUIRE_APPROVAL && o.1.KnobStr? then Some(FromVariant(o.1.text)) else None
  }

  /** The strongest level asked for, or `Never` when nothing is asked. */
  ghost predicate IsLevelOf(l: ApprovalLevel, obligations: seq<(string, KnobValue)>) {
    && (forall o | o in obligations :: LevelAsked(o).Some? ==> Rank(LevelAsked(o).value) <= Rank(l))
    && (l == Never || exists o | o in obligations :: LevelAsked(o) == Some(l))
  }

  lemma LevelUnique(a: ApprovalLevel, b: ApprovalLevel, obligations: seq<(string, KnobValue)>)
    requires IsLevelOf(a, obligations) && IsLevelOf(b, obligations)
    ensures a == b
  {}

  lemma {:induction false} LevelExists(obligations: seq<(string, KnobValue)>) returns (l: ApprovalLevel)
    ensures IsLevelOf(l, obligations)
  {
    if obligations == [] {
      l := Never;
    } else {
      var rest := LevelExists(obligations[1..]);
      var asked := LevelAsked(obligations[0]);
      l := if asked.Some? then Loosest(rest, asked.value) else rest;
      assert obligations[0] in obligations;
      assert forall o :: o in obligations <==> o == obligations[0] || o in obligations[1..];
    }
  }

  ghost function LevelOf(obligations: seq<(string, KnobValue)>): (l: ApprovalLevel)
    ensures IsLevelOf(l, obligations)
  {
    assert exists l :: IsLevelOf(l, obligations) by { var l := LevelExists(obligations); }
    var l :| IsLevelOf(l, obligations);
    l
  }

  /** `require_approval_level`: a fold over the covering obligations. */
  method RequireApprovalLevel(p: EffectivePolicy, obj: ObjectName) returns (level: ApprovalLevel)
    ensures level == LevelOf(p.obligations(obj))
  {
    var obligations := p.obligations(obj);
    level := Never;
    var i := 0;
    while i < |obligations|
      invariant 0 <= i <= |obligations|
      invariant IsLevelOf(level, obligations[..i])
    {
      var (k, v) := obligations[i];
      assert obligations[..i + 1] == obligations[..i] + [obligations[i]];
      assert obligations[i] in obligations[..i + 1];
      if k == KEY_REQUIRE_APPROVAL {
        match v
        case KnobStr(variant) => level := Loosest(level, FromVariant(variant));
        case KnobOther =>
      }
      i := i + 1;
    }
    assert obligations[..i] == obligations;
    LevelUnique(level, LevelOf(obligations), obligations);
  }

  /** The object an op targets: its table, else its schema, else the default schema. */
  function ObjectForOp(p: EffectivePolicy, op: Op, defaultSchema: string): ObjectName {
    var schema := if OpSchema(op).Some? then OpSchema(op).value else defaultSchema;
    var concrete := if TouchedTable(op).Some? then p.normalize(schema + "." + TouchedTable(op).value)
                    else p.normalize(schema);
    if concrete.Some? then concrete.value
    else if p.normalize(defaultSchema).Some? then p.normalize(defaultSchema).value
    else p.schemaObject(defaultSchema)
  }

  ghost predicate LeafRequiresApproval(p: EffectivePolicy, op: Op, defaultSchema: string) {
    match LevelOf(p.obligations(ObjectForOp(p, op, defaultSchema)))
    case Never => false
    case Always => true
    case OnDestructive => IsDestructive(op)
  }

  /** `op_requires_approval`: a wrapper requires it when any op of any leg does. */
  method OpRequiresApproval(p: EffectivePolicy, op: Op, defaultSchema: string) returns (r: bool)
    ensures r <==> exists l | l in Leaves(op) :: LeafRequiresApproval(p, l, defaultSchema)
    decreases op
  {
    if op.Dialectal? {
      var inner := AllLegs(op);
      var i := 0;
      while i < |inner|
        invariant 0 <= i <= |inner|
        invariant forall l | l in LeavesOf(inner[..i]) :: !LeafRequiresApproval(p, l, defaultSchema)
      {
        InnerSmaller(op, inner[i]);
        var needed := OpRequiresApproval(p, inner[i], defaultSchema);
        LeavesOfInnerIs(op, inner);
        if needed {
          ghost var l :| l in Leaves(inner[i]) && LeafRequiresApproval(p, l, defaultSchema);
          LeavesOfMembers(inner, l);
          assert inner[i] in inner;
          return true;
        }
        LeavesSplit(inner, i);
        i := i + 1;
      }
      assert inner[..i] == inner;
      LeavesOfInnerIs(op, inner);
      r := false;
    } else {
      var level := RequireApprovalLevel(p, ObjectForOp(p, op, defaultSchema));
      r := match level case Never => false case Always => true case OnDestructive => IsDestructive(op);
      assert Leaves(op) == [op] && op in Leaves(op);
    }
  }

  lemma LeavesSplit(ops: seq<Op>, i: nat)
    requires i < |ops|
    ensures forall l :: l in LeavesOf(ops[..i + 1]) <==> l in LeavesOf(ops[..i]) || l in Leaves(ops[i])
  {
    LeavesOfPrefix(ops, i);
  }

  ghost predicate RequiresApproval(p: EffectivePolicy, ops: seq<Op>, defaultSchema: string) {
    exists l | l in LeavesOf(ops) :: LeafRequiresApproval(p, l, defaultSchema)
  }

  method MigrationRequiresApproval(p: EffectivePolicy, ops: seq<Op>, defaultSchema: string) returns (r: bool)
    ensures r <==> RequiresApproval(p, ops, defaultSchema)
  {
    var i := 0;
    while i < |ops|
      invariant 0 <= i <= |ops|
      invariant !RequiresApproval(p, ops[..i], defaultSchema)
    {
      var needed := OpRequiresApproval(p, ops[i], defaultSchema);
      if needed {
        ghost var l :| l in Leaves(ops[i]) && LeafRequiresApproval(p, l, defaultSchema);
        LeavesOfMembers(ops, l);
        assert ops[i] in ops;
        return true;
      }
      LeavesSplit(ops, i);
      i := i + 1;
    }
    assert ops[..i] == ops;
    r := false;
  }

  // ---- main results -------------------------------------------------------------------------------

  /** An approval obligation that by itself gates an op: any variant but `never` and `on_destructive` always does. */
  predicate Gates(o: (string, KnobValue), op: Op) {
    && o.0 == "safety.require_approval" && o.1.KnobStr? && o.1.text != "never"
    && (o.1.text == "on_destructive" ==> IsDestructive(op))
  }

  lemma LeafRequiresExactly(p: EffectivePolicy, op: Op, defaultSchema: string)
    ensures LeafRequiresApproval(p, op, defaultSchema) <==>
            exists o | o in p.obligations(ObjectForOp(p, op, defaultSchema)) :: Gates(o, op)
  {
    var obligations := p.obligations(ObjectForOp(p, op, defaultSchema));
    if o :| o in obligations && Gates(o, op) {
      assert Rank(LevelAsked(o).value) <= Rank(LevelOf(obligations));
    }
    if LeafRequiresApproval(p, op, defaultSchema) {
      var o :| o in obligations && LevelAsked(o) == Some(LevelOf(obligations));
      assert Gates(o, op);
    }
  }

  /**
   A migration requires approval exactly when some obligation covering the object of some op,
   in any leg, asks for it always, or asks for it on destruction and the op destroys.
   */
  lemma RequiresApprovalExactly(p: EffectivePolicy, ops: seq<Op>, defaultSchema: string)
    ensures RequiresApproval(p, ops, defaultSchema) <==>
            exists l, o | l in LeavesOf(ops) && o in p.obligations(ObjectForOp(p, l, defaultSchema)) :: Gates(o, l)
  {
    forall l | l in LeavesOf(ops)
      ensures LeafRequiresApproval(p, l, defaultSchema) <==>
              exists o | o in p.obligations(ObjectForOp(p, l, defaultSchema)) :: Gates(o, l)
    {
      LeafRequiresExactly(p, l, defaultSchema);
    }
  }

  /** One obligation on one op in one leg is enough. */
  lemma GatedByOne(p: EffectivePolicy, ops: seq<Op>, l: Op, o: (string, KnobValue), defaultSchema: string)
    requires l in LeavesOf(ops) && o in p.obligations(ObjectForOp(p, l, defaultSchema)) && Gates(o, l)
    ensures RequiresApproval(p, ops, defaultSchema)
  {
    RequiresApprovalExactly(p, ops, defaultSchema);
  }

  /** If what some target runs would require approval on its own, the migration requires it. */
  lemma ApprovalCoversEveryRun(p: EffectivePolicy, ops: seq<Op>, target: Dialect, defaultSchema: string)
    requires RequiresApproval(p, SelectedOf(target, ops), defaultSchema)
    ensures RequiresApproval(p, ops, defaultSchema)
  {
    var run := SelectedOf(target, ops);
    forall x | x in run ensures x in LeavesOf(ops) && !x.Dialectal? { SelectedOfAreLeaves(target, ops, x); }
    LeavesOfPlain(run);
  }

  ghost predicate MoreObligations(p: EffectivePolicy, q: EffectivePolicy) {
    && (forall obj, o | o in p.obligations(obj) :: o in q.obligations(obj))
    && (forall name :: p.normalize(name) == q.normalize(name))
    && (forall name :: p.schemaObject(name) == q.schemaObject(name))
  }

  /** Adding, repeating or reordering obligations never turns required approval off. */
  lemma ObligationsOnlyTighten(p: EffectivePolicy, q: EffectivePolicy, ops: seq<Op>, defaultSchema: string)
    requires MoreObligations(p, q) && RequiresApproval(p, ops, defaultSchema)
    ensures RequiresApproval(q, ops, defaultSchema)
  {
    RequiresApprovalExactly(p, ops, defaultSchema);
    var l, o :| l in LeavesOf(ops) && o in p.obligations(ObjectForOp(p, l, defaultSchema)) && Gates(o, l);
    assert ObjectForOp(p, l, defaultSchema) == ObjectForOp(q, l, defaultSchema);
    GatedByOne(q, ops, l, o, defaultSchema);
  }

  /** Under an `on_destructive` obligation everywhere, no target runs a destructive op unapproved. */
  lemma DestructiveRunsAreApproved(p: EffectivePolicy, ops: seq<Op>, target: Dialect, defaultSchema: string, x: Op)
    requires forall obj :: (KEY_REQUIRE_APPROVAL, KnobStr("on_destructive")) in p.obligations(obj)
    requires x in SelectedOf(target, ops) && IsDestructive(x)
    ensures RequiresApproval(p, ops, defaultSchema)
  {
    SelectedOfAreLeaves(target, ops, x);
    var o := (KEY_REQUIRE_APPROVAL, KnobStr("on_destructive"));
    assert o in p.obligations(ObjectForOp(p, x, defaultSchema));
    GatedByOne(p, ops, x, o, defaultSchema);
  }

  /** Wrapping ops in `dialect` legs neither adds nor removes an approval requirement. */
  lemma WrappingChangesNothing(p: EffectivePolicy, op: Op, defaultSchema: string)
    requires op.Dialectal?
    ensures RequiresApproval(p, [op], defaultSchema) <==> RequiresApproval(p, AllLegs(op), defaultSchema)
  {
    LeavesOfInnerIs(op, AllLegs(op));
    assert LeavesOf([op]) == Leaves(op) + [];
  }

  /** However deep its leg, an op answers for the table it touches, not for the default schema. */
  lemma ScopedAtTheTouchedTable(p: EffectivePolicy, ops: seq<Op>, x: Op, schema: string, table: string,
                                obj: ObjectName, defaultSchema: string)
    requires x in LeavesOf(ops) && OpSchema(x) == Some(schema) && TouchedTable(x) == Some(table)
    requires p.normalize(schema + "." + table) == Some(obj)
    ensures LeafRequiresApproval(p, x, defaultSchema) <==> exists o | o in p.obligations(obj) :: Gates(o, x)
    ensures LevelOf(p.obligations(obj)) == Always ==> RequiresApproval(p, ops, defaultSchema)
    ensures LevelOf(p.obligations(obj)) == OnDestructive && IsDestructive(x) ==> RequiresApproval(p, ops, defaultSchema)
    ensures LevelOf(p.obligations(obj)) == Never ==> !LeafRequiresApproval(p, x, defaultSchema)
  {
    assert ObjectForOp(p, x, defaultSchema) == obj;
    LeafRequiresExactly(p, x, defaultSchema);
  }

  /** An approval obligation the program cannot read gates every op it covers. */
  lemma UnreadableObligationsGate(p: EffectivePolicy, ops: seq<Op>, x: Op, text: string, defaultSchema: string)
    requires x in LeavesOf(ops) && text != "never" && text != "on_destructive"
    requires (KEY_REQUIRE_APPROVAL, KnobStr(text)) in p.obligations(ObjectForOp(p, x, defaultSchema))
    ensures RequiresApproval(p, ops, defaultSchema)
  {
    var o := (KEY_REQUIRE_APPROVAL, KnobStr(text));
    GatedByOne(p, ops, x, o, defaultSchema);
  }

  // ---- the object an op answers at ---------------------------------------------------------------

  /** The schema an op carries; comments carry their target's, namespace-level verbs none. */
  ghost predicate CarriesSchema(op: Op, s: string) {
    || (op.CreateTable? && op.schema == Some(s)) || (op.Partition? && op.schema == Some(s))
    || (op.OnTable? && op.schema == Some(s)) || (op.DropIndex? && op.schema == Some(s))
    || (op.CreateView? && op.schema == Some(s)) || (op.Comment? && op.target.schema == Some(s))
    || (op.OnObject? && op.schema == Some(s)
        && op.objectVerb in {DropView, CreateEnum, DropEnum, CreateDomain, DropDomain, CreateSequence, AlterSequence,
                             DropSequence, CreateExtension, CreateFunction, DropFunction})
  }

  /** A name as an object; one that does not normalize stands for the default schema. */
  function Named(p: EffectivePolicy, name: string, defaultSchema: string): ObjectName {
    if p.normalize(name).Some? then p.normalize(name).value
    else if p.normalize(defaultSchema).Some? then p.normalize(defaultSchema).value
    else p.schemaObject(defaultSchema)
  }

  /** An op answers at its table in its own schema, or else the default one, and without a table at that schema. */
  lemma ObjectExactly(p: EffectivePolicy, op: Op, defaultSchema: string)
    requires !op.Dialectal?
    ensures forall s, t | CarriesSchema(op, s) && Touches(op, t) ::
              ObjectForOp(p, op, defaultSchema) == Named(p, s + "." + t, defaultSchema)
    ensures forall t | Touches(op, t) && (forall s :: !CarriesSchema(op, s)) ::
              ObjectForOp(p, op, defaultSchema) == Named(p, defaultSchema + "." + t, defaultSchema)
    ensures forall s | CarriesSchema(op, s) && (forall t :: !Touches(op, t)) ::
              ObjectForOp(p, op, defaultSchema) == Named(p, s, defaultSchema)
    ensures (forall s :: !CarriesSchema(op, s)) && (forall t :: !Touches(op, t)) ==>
              ObjectForOp(p, op, defaultSchema) == Named(p, defaultSchema, defaultSchema)
  {
    TouchedExactly(op);
    SchemaExactly(op);
  }

  lemma SchemaExactly(op: Op)
    ensures forall s :: OpSchema(op) == Some(s) <==> CarriesSchema(op, s)
  {
    if op.OnObject? { VerbSchema(op.objectVerb, op.schema); }
  }

  lemma VerbSchema(verb: ObjectVerb, schema: Option<string>)
    ensures forall s :: OpSchema(OnObject(verb, schema)) == Some(s) <==> CarriesSchema(OnObject(verb, schema), s)
  {
    match verb
    case DropView => case CreateEnum => case DropEnum => case CreateDomain => case DropDomain =>
    case CreateSequence => case AlterSequence => case DropSequence =>
    case CreateExtension => case CreateFunction => case DropFunction =>
    case CreateSchema => case DropSchema => case DropExtension => case CreateRole => case AlterRole =>
    case DropRole => case DropOwnedBy => case Grant => case Revoke => case PgRaw =>
  }
}
