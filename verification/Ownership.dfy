/** Per-table ownership of everything a migration targets, in any leg. */
module Ownership {
  import opened Wrappers
  import opened Sequences
  import opened Exprs
  import opened Envelope
  import opened Ops
  import opened OpGates

  const UNKNOWN_OWNER := "<unregistered>"

  function CreatedByLeaf(op: Op): seq<string> {
    match op
    case CreateTable(name, _) => [name]
    case Partition(v, _, name, _) => if v.CreatePartition? then [name] else []
    case _ => []
  }

  /** Partition ops answer for their parent first and then the child; a view for what it reads. */
  function TargetsOfLeaf(op: Op): seq<string> {
    match op
    case CreateTable(name, _) => [name]
    case Partition(_, parent, name, _) => [parent, name]
    case CreateView(Structured(from, joins), _) => [from] + joins
    case OnTable(_, table, _) => [table]
    case DropIndex(Some(table), _) => [table]
    case Comment(target) => if CommentTable(target).Some? then [CommentTable(target).value] else []
    case _ => []
  }

  function Created(leaves: seq<Op>): seq<string> {
    if leaves == [] then [] else CreatedByLeaf(leaves[0]) + Created(leaves[1..])
  }

  function Targets(leaves: seq<Op>): seq<string> {
    if leaves == [] then [] else TargetsOfLeaf(leaves[0]) + Targets(leaves[1..])
  }

  lemma {:induction false} CreatedConcat(a: seq<Op>, b: seq<Op>)
    ensures Created(a + b) == Created(a) + Created(b)
  {
    if a == [] {
      assert a + b == b;
    } else {
      assert (a + b)[1..] == a[1..] + b;
      CreatedConcat(a[1..], b);
    }
  }

  lemma {:induction false} TargetsConcat(a: seq<Op>, b: seq<Op>)
    ensures Targets(a + b) == Targets(a) + Targets(b)
  {
    if a == [] {
      assert a + b == b;
    } else {
      assert (a + b)[1..] == a[1..] + b;
      TargetsConcat(a[1..], b);
    }
  }

  lemma {:induction false} TargetsMembers(leaves: seq<Op>, t: string)
    ensures t in Targets(leaves) <==> exists l | l in leaves :: t in TargetsOfLeaf(l)
  {
    if leaves == [] {
    } else {
      TargetsMembers(leaves[1..], t);
      assert leaves[0] in leaves && forall l :: l in leaves <==> l == leaves[0] || l in leaves[1..];
    }
  }

  lemma {:induction false} CreatedMembers(leaves: seq<Op>, t: string)
    ensures t in Created(leaves) <==> exists l | l in leaves :: t in CreatedByLeaf(l)
  {
    if leaves == [] {
    } else {
      CreatedMembers(leaves[1..], t);
      assert leaves[0] in leaves && forall l :: l in leaves <==> l == leaves[0] || l in leaves[1..];
    }
  }

  lemma CreatedOfPrefix(ops: seq<Op>, i: nat)
    requires i < |ops|
    ensures Created(LeavesOf(ops[..i + 1])) == Created(LeavesOf(ops[..i])) + Created(Leaves(ops[i]))
  {
    LeavesOfPrefix(ops, i);
    CreatedConcat(LeavesOf(ops[..i]), Leaves(ops[i]));
  }

  lemma TargetsOfPrefix(ops: seq<Op>, i: nat)
    requires i < |ops|
    ensures Targets(LeavesOf(ops[..i + 1])) == Targets(LeavesOf(ops[..i])) + Targets(Leaves(ops[i]))
  {
    LeavesOfPrefix(ops, i);
    TargetsConcat(LeavesOf(ops[..i]), Leaves(ops[i]));
  }

  // ---- the collecting walks ---------------------------------------------------------------------

  class NameList {
    var names: seq<string>

    constructor ()
      ensures names == []
    {
      names := [];
    }

    method Push(name: string)
      modifies this
      ensures names == old(names) + [name]
    {
      names := names + [name];
    }
  }

  method CollectCreatedTables(op: Op, out: NameList)
    modifies out
    ensures out.names == old(out.names) + Created(Leaves(op))
    decreases op
  {
    if op.Dialectal? {
      var inner := AllLegs(op);
      ghost var found: seq<string> := [];
      var i := 0;
      while i < |inner|
        invariant 0 <= i <= |inner|
        invariant found == Created(LeavesOf(inner[..i])) && out.names == old(out.names) + found
      {
        InnerSmaller(op, inner[i]);
        CollectCreatedTables(inner[i], out);
        CreatedOfPrefix(inner, i);
        Associate(old(out.names), found, Created(Leaves(inner[i])));
        found := found + Created(Leaves(inner[i]));
        i := i + 1;
      }
      assert inner[..i] == inner;
      LeavesOfInnerIs(op, inner);
    } else {
      CollectLeafCreated(op, out);
      assert Created([op]) == CreatedByLeaf(op) + [];
    }
  }

  /** `op_created_table`. */
  method CollectLeafCreated(op: Op, out: NameList)
    requires !op.Dialectal?
    modifies out
    ensures out.names == old(out.names) + CreatedByLeaf(op)
  {
    if op.CreateTable? {
      out.Push(op.name);
    } else if op.Partition? && op.partitionVerb.CreatePartition? {
      out.Push(op.name);
    }
  }

  /** `op_target_table`: the single target of an op that is not collected specially. */
  function OpTargetTable(op: Op): Option<string> {
    match op
    case CreateTable(name, _) => Some(name)
    case Partition(_, parent, _, _) => Some(parent)
    case OnTable(_, table, _) => Some(table)
    case DropIndex(hint, _) => hint
    case Comment(target) => CommentTable(target)
    case _ => None
  }

  method CollectTargetTables(op: Op, out: NameList)
    modifies out
    ensures out.names == old(out.names) + Targets(Leaves(op))
    decreases op
  {
    if op.Dialectal? {
      var inner := AllLegs(op);
      ghost var found: seq<string> := [];
      var i := 0;
      while i < |inner|
        invariant 0 <= i <= |inner|
        invariant found == Targets(LeavesOf(inner[..i])) && out.names == old(out.names) + found
      {
        InnerSmaller(op, inner[i]);
        CollectTargetTables(inner[i], out);
        TargetsOfPrefix(inner, i);
        Associate(old(out.names), found, Targets(Leaves(inner[i])));
        found := found + Targets(Leaves(inner[i]));
        i := i + 1;
      }
      assert inner[..i] == inner;
      LeavesOfInnerIs(op, inner);
    } else {
      CollectLeafTargets(op, out);
      assert Targets([op]) == TargetsOfLeaf(op) + [];
    }
  }

  method CollectLeafTargets(op: Op, out: NameList)
    requires !op.Dialectal?
    modifies out
    ensures out.names == old(out.names) + TargetsOfLeaf(op)
  {
    if op.Partition? {
      out.Push(op.parent);
      out.Push(op.name);
    } else if op.CreateView? && op.query.Structured? {
      out.Push(op.query.from);
      var joins := op.query.joins;
      var i := 0;
      while i < |joins|
        invariant 0 <= i <= |joins|
        invariant out.names == old(out.names) + [op.query.from] + joins[..i]
      {
        out.Push(joins[i]);
        i := i + 1;
      }
      assert joins[..i] == joins;
    } else if OpTargetTable(op).Some? {
      out.Push(OpTargetTable(op).value);
    }
  }

  // ---- the gate ------------------------------------------------------------------------------------

  /** A registered owner stands; an unregistered table created here is the deploying app's. */
  function OwnerOf(t: string, created: seq<string>, app: string, registry: map<string, string>): string {
    if t in registry then registry[t] else if t in created then app else UNKNOWN_OWNER
  }

  datatype OwnershipError = NotTableOwner(opIndex: nat, table: string, owner: string)

  ghost predicate OpAllowed(op: Op, created: seq<string>, app: string, registry: map<string, string>) {
    forall t | t in Targets(Leaves(op)) :: OwnerOf(t, created, app, registry) == app
  }

  ghost predicate AllAllowed(ops: seq<Op>, app: string, registry: map<string, string>) {
    forall op | op in ops :: OpAllowed(op, Created(LeavesOf(ops)), app, registry)
  }

  /** `t` is the first target of `op` someone else owns, and `owner` is that owner. */
  ghost predicate IsFirstForeign(t: string, owner: string, op: Op, created: seq<string>,
                                 app: string, registry: map<string, string>)
  {
    && owner == OwnerOf(t, created, app, registry) != app
    && var targets := Targets(Leaves(op));
       exists k | 0 <= k < |targets| :: targets[k] == t
         && forall j | 0 <= j < k :: OwnerOf(targets[j], created, app, registry) == app
  }

  /** The error is the first offending target of the first offending op. */
  ghost predicate IsFirstViolation(e: OwnershipError, ops: seq<Op>, app: string, registry: map<string, string>) {
    var created := Created(LeavesOf(ops));
    && e.opIndex < |ops|
    && (forall i | 0 <= i < e.opIndex :: OpAllowed(ops[i], created, app, registry))
    && IsFirstForeign(e.table, e.owner, ops[e.opIndex], created, app, registry)
  }

  /** The working registry: the given one and the created tables, each with its owner. */
  ghost predicate Registers(owners: map<string, string>, created: seq<string>, app: string,
                            registry: map<string, string>)
  {
    && (forall t :: t in owners <==> t in registry || t in created)
    && forall t | t in owners :: owners[t] == OwnerOf(t, created, app, registry)
  }

  /** The pre-pass: every created table not already registered is entered for the deploying app. */
  method RegisterCreated(ops: seq<Op>, app: string, registry: map<string, string>)
    returns (owners: map<string, string>)
    ensures Registers(owners, Created(LeavesOf(ops)), app, registry)
  {
    owners := registry;
    var i := 0;
    while i < |ops|
      invariant 0 <= i <= |ops|
      invariant forall t :: t in owners <==> t in registry || t in Created(LeavesOf(ops[..i]))
      invariant forall t | t in owners :: owners[t] == if t in registry then registry[t] else app
    {
      var created := new NameList();
      CollectCreatedTables(ops[i], created);
      owners := InsertAbsent(owners, created.names, app);
      LeavesOfPrefix(ops, i);
      CreatedConcat(LeavesOf(ops[..i]), Leaves(ops[i]));
      i := i + 1;
    }
    assert ops[..i] == ops;
  }

  /** `entry(table).or_insert(app)` for each name. */
  method InsertAbsent(owners: map<string, string>, names: seq<string>, app: string)
    returns (r: map<string, string>)
    ensures forall t :: t in r <==> t in owners || t in names
    ensures forall t | t in r :: r[t] == if t in owners then owners[t] else app
  {
    r := owners;
    var i := 0;
    while i < |names|
      invariant 0 <= i <= |names|
      invariant forall t :: t in r <==> t in owners || t in names[..i]
      invariant forall t | t in r :: r[t] == if t in owners then owners[t] else app
    {
      if names[i] !in r { r := r[names[i] := app]; }
      assert names[..i + 1] == names[..i] + [names[i]];
      i := i + 1;
    }
    assert names[..i] == names;
  }

  method EnforceIrOwnership(ir: MigrationIr<Op>, app: string, registry: map<string, string>)
    returns (r: Result<(), OwnershipError>)
    ensures r.Ok? <==> AllAllowed(ir.ops, app, registry)
    ensures r.Err? ==> IsFirstViolation(r.error, ir.ops, app, registry)
  {
    var owners := RegisterCreated(ir.ops, app, registry);
    r := CheckOps(ir.ops, owners, Created(LeavesOf(ir.ops)), app, registry);
    if r.Ok? {
      AllAllowedByIndex(ir.ops, app, registry);
    } else {
      ViolationFound(r.error, ir.ops, app, registry);
    }
  }

  /** The outer loop of the check. */
  method CheckOps(ops: seq<Op>, owners: map<string, string>, ghost created: seq<string>,
                  app: string, ghost registry: map<string, string>)
    returns (r: Result<(), OwnershipError>)
    requires Registers(owners, created, app, registry)
    ensures r.Ok? ==> forall j | 0 <= j < |ops| :: OpAllowed(ops[j], created, app, registry)
    ensures r.Err? ==> r.error.opIndex < |ops| && !OpAllowed(ops[r.error.opIndex], created, app, registry)
    ensures r.Err? ==> forall j | 0 <= j < r.error.opIndex :: OpAllowed(ops[j], created, app, registry)
    ensures r.Err? ==> IsFirstForeign(r.error.table, r.error.owner, ops[r.error.opIndex], created, app, registry)
  {
    var i := 0;
    while i < |ops|
      invariant 0 <= i <= |ops|
      invariant forall j | 0 <= j < i :: OpAllowed(ops[j], created, app, registry)
    {
      var foreign := FirstForeign(ops[i], owners, created, app, registry);
      if foreign.Some? { return Err(NotTableOwner(i, foreign.value.0, foreign.value.1)); }
      i := i + 1;
    }
    r := Ok(());
  }

  lemma ViolationFound(e: OwnershipError, ops: seq<Op>, app: string, registry: map<string, string>)
    requires e.opIndex < |ops| && !OpAllowed(ops[e.opIndex], Created(LeavesOf(ops)), app, registry)
    requires forall i | 0 <= i < e.opIndex :: OpAllowed(ops[i], Created(LeavesOf(ops)), app, registry)
    requires IsFirstForeign(e.table, e.owner, ops[e.opIndex], Created(LeavesOf(ops)), app, registry)
    ensures IsFirstViolation(e, ops, app, registry) && !AllAllowed(ops, app, registry)
  {
    AllAllowedByIndex(ops, app, registry);
  }

  lemma AllAllowedByIndex(ops: seq<Op>, app: string, registry: map<string, string>)
    ensures AllAllowed(ops, app, registry) <==>
            forall j | 0 <= j < |ops| :: OpAllowed(ops[j], Created(LeavesOf(ops)), app, registry)
  {
    assert forall j | 0 <= j < |ops| :: ops[j] in ops;
  }

  lemma ForeignFound(op: Op, k: nat, owner: string, created: seq<string>, app: string, registry: map<string, string>)
    requires k < |Targets(Leaves(op))| && owner == OwnerOf(Targets(Leaves(op))[k], created, app, registry) != app
    requires forall j | 0 <= j < k :: OwnerOf(Targets(Leaves(op))[j], created, app, registry) == app
    ensures IsFirstForeign(Targets(Leaves(op))[k], owner, op, created, app, registry)
    ensures !OpAllowed(op, created, app, registry)
  {
    assert Targets(Leaves(op))[k] in Targets(Leaves(op));
  }

  /** The first target of an op that someone else owns, with its owner. */
  method FirstForeign(op: Op, owners: map<string, string>, ghost created: seq<string>,
                      app: string, ghost registry: map<string, string>)
    returns (foreign: Option<(string, string)>)
    requires Registers(owners, created, app, registry)
    ensures foreign.None? <==> OpAllowed(op, created, app, registry)
    ensures foreign.Some? ==> IsFirstForeign(foreign.value.0, foreign.value.1, op, created, app, registry)
  {
    var targets := new NameList();
    CollectTargetTables(op, targets);
    assert targets.names == Targets(Leaves(op));
    var k, owner := FirstForeignName(targets.names, owners, created, app, registry);
    if k.None? { return None; }
    ForeignFound(op, k.value, owner, created, app, registry);
    return Some((targets.names[k.value], owner));
  }

  /** The inner loop of the check. */
  method FirstForeignName(targets: seq<string>, owners: map<string, string>, ghost created: seq<string>,
                          app: string, ghost registry: map<string, string>)
    returns (k: Option<nat>, owner: string)
    requires Registers(owners, created, app, registry)
    ensures k.None? ==> forall t | t in targets :: OwnerOf(t, created, app, registry) == app
    ensures k.Some? ==> k.value < |targets| && owner == OwnerOf(targets[k.value], created, app, registry) != app
    ensures k.Some? ==> forall j | 0 <= j < k.value :: OwnerOf(targets[j], created, app, registry) == app
  {
    for i := 0 to |targets|
      invariant forall j | 0 <= j < i :: OwnerOf(targets[j], created, app, registry) == app
    {
      owner := if targets[i] in owners then owners[targets[i]] else UNKNOWN_OWNER;
      LookedUp(targets[i], owners, created, app, registry);
      if owner != app { return Some(i), owner; }
    }
    return None, app;
  }

  /** Looking a name up in the working registry, with the sentinel for a miss, gives its owner. */
  lemma LookedUp(t: string, owners: map<string, string>, created: seq<string>, app: string,
                 registry: map<string, string>)
    requires Registers(owners, created, app, registry)
    ensures OwnerOf(t, created, app, registry) == if t in owners then owners[t] else UNKNOWN_OWNER
  {}

  // ---- main results -----------------------------------------------------------------------------------

  ghost predicate Owned(t: string, ops: seq<Op>, app: string, registry: map<string, string>) {
    if t in registry then registry[t] == app else t in Created(LeavesOf(ops))
  }

  lemma AllowedTargets(ops: seq<Op>, app: string, registry: map<string, string>)
    ensures AllAllowed(ops, app, registry) <==>
            forall t | t in Targets(LeavesOf(ops)) :: OwnerOf(t, Created(LeavesOf(ops)), app, registry) == app
  {
    if AllAllowed(ops, app, registry) {
      AllowedEverywhere(ops, app, registry);
    } else {
      var op :| op in ops && !OpAllowed(op, Created(LeavesOf(ops)), app, registry);
      var t :| t in Targets(Leaves(op)) && OwnerOf(t, Created(LeavesOf(ops)), app, registry) != app;
      TargetsMembers(Leaves(op), t);
      var l :| l in Leaves(op) && t in TargetsOfLeaf(l);
      LeavesOfMembers(ops, l);
      TargetsMembers(LeavesOf(ops), t);
    }
  }

  lemma AllowedEverywhere(ops: seq<Op>, app: string, registry: map<string, string>)
    requires AllAllowed(ops, app, registry)
    ensures forall t | t in Targets(LeavesOf(ops)) :: OwnerOf(t, Created(LeavesOf(ops)), app, registry) == app
  {
    var created := Created(LeavesOf(ops));
    forall t | t in Targets(LeavesOf(ops)) ensures OwnerOf(t, created, app, registry) == app {
      TargetsMembers(LeavesOf(ops), t);
      var l :| l in LeavesOf(ops) && t in TargetsOfLeaf(l);
      LeavesOfMembers(ops, l);
      var op :| op in ops && l in Leaves(op);
      TargetsMembers(Leaves(op), t);
      assert OpAllowed(op, created, app, registry);
    }
  }

  /**
   The gate passes exactly when every target of every leg is registered to the deploying
   app, or unregistered and created by this migration - provided the app is not named like
   the unknown-owner sentinel.
   */
  lemma OwnershipExactly(ops: seq<Op>, app: string, registry: map<string, string>)
    requires app != UNKNOWN_OWNER
    ensures AllAllowed(ops, app, registry) <==>
            forall t | t in Targets(LeavesOf(ops)) :: Owned(t, ops, app, registry)
  {
    AllowedTargets(ops, app, registry);
  }

  /** An app so named passes on every unregistered table: the sentinel equals its name. */
  lemma SentinelOwnsTheUnregistered(ops: seq<Op>, registry: map<string, string>)
    ensures AllAllowed(ops, UNKNOWN_OWNER, registry) <==>
            forall t | t in Targets(LeavesOf(ops)) :: t in registry ==> registry[t] == UNKNOWN_OWNER
    ensures var drop := OnTable(DropTable, "orders", None);
            AllAllowed([drop], UNKNOWN_OWNER, map[]) && !Owned("orders", [drop], UNKNOWN_OWNER, map[])
  {
    AllowedTargets(ops, UNKNOWN_OWNER, registry);
    var drop := OnTable(DropTable, "orders", None);
    AllowedTargets([drop], UNKNOWN_OWNER, map[]);
    assert LeavesOf([drop]) == [drop] by { assert Leaves(drop) == [drop]; }
    assert Created([drop]) == [];
  }

  /** Ownership is a question about the set of ops, not their order. */
  lemma OwnershipIgnoresOrder(a: seq<Op>, b: seq<Op>, app: string, registry: map<string, string>)
    requires multiset(a) == multiset(b)
    ensures AllAllowed(a, app, registry) <==> AllAllowed(b, app, registry)
  {
    assert forall o :: o in a <==> o in multiset(a);
    assert forall o :: o in b <==> o in multiset(b);
    var ca, cb := Created(LeavesOf(a)), Created(LeavesOf(b));
    forall t ensures t in ca <==> t in cb { SameOpsCreateAlike(a, b, t); }
    forall op | op in a ensures OpAllowed(op, ca, app, registry) <==> OpAllowed(op, cb, app, registry) {
      SameCreatedAllowAlike(op, ca, cb, app, registry);
    }
  }

  lemma SameOpsCreateAlike(a: seq<Op>, b: seq<Op>, t: string)
    requires forall o :: o in a <==> o in b
    ensures t in Created(LeavesOf(a)) <==> t in Created(LeavesOf(b))
  {
    CreatedMembers(LeavesOf(a), t);
    CreatedMembers(LeavesOf(b), t);
    forall l ensures l in LeavesOf(a) <==> l in LeavesOf(b) {
      LeavesOfMembers(a, l);
      LeavesOfMembers(b, l);
    }
  }

  lemma SameCreatedAllowAlike(op: Op, ca: seq<string>, cb: seq<string>, app: string, registry: map<string, string>)
    requires forall t :: t in ca <==> t in cb
    ensures OpAllowed(op, ca, app, registry) <==> OpAllowed(op, cb, app, registry)
  {
    assert forall t :: OwnerOf(t, ca, app, registry) == OwnerOf(t, cb, app, registry);
  }

  /** A create cannot take over a registered table: its name is a target like any other. */
  lemma CreateDoesNotOverride(ops: seq<Op>, app: string, registry: map<string, string>, t: string)
    requires t in registry && registry[t] != app && t in Created(LeavesOf(ops))
    ensures !AllAllowed(ops, app, registry)
  {
    AllowedTargets(ops, app, registry);
    CreatedMembers(LeavesOf(ops), t);
    var l :| l in LeavesOf(ops) && t in CreatedByLeaf(l);
    TargetsMembers(LeavesOf(ops), t);
    assert t in TargetsOfLeaf(l);
  }

  /** Past the gate, every table the migration reports touching is owned. */
  lemma TouchedTablesAreOwned(ops: seq<Op>, app: string, registry: map<string, string>)
    requires app != UNKNOWN_OWNER && AllAllowed(ops, app, registry)
    ensures forall t | t in TablesTouched(LeavesOf(ops)) :: Owned(t, ops, app, registry)
  {
    OwnershipExactly(ops, app, registry);
    forall t | t in TablesTouched(LeavesOf(ops)) ensures Owned(t, ops, app, registry) {
      var l :| l in LeavesOf(ops) && TouchedTable(l) == Some(t);
      TargetsMembers(LeavesOf(ops), t);
      TouchedIsTarget(l, t);
    }
  }

  lemma TouchedIsTarget(l: Op, t: string)
    requires TouchedTable(l) == Some(t)
    ensures t in TargetsOfLeaf(l)
  {}

  /**
   Past the gate, what a target runs is itself owned by what it creates exactly when every
   unregistered table it targets is created in a leg it runs: creations are pooled over legs.
   */
  lemma SelectedRunOwnership(ops: seq<Op>, target: Dialect, app: string, registry: map<string, string>)
    requires app != UNKNOWN_OWNER && AllAllowed(ops, app, registry)
    ensures var run := SelectedOf(target, ops);
            AllAllowed(run, app, registry) <==>
            forall t | t in Targets(run) && t !in registry :: t in Created(run)
  {
    var run := SelectedOf(target, ops);
    SelectedRunIsPlain(ops, target);
    OwnershipExactly(ops, app, registry);
    OwnershipExactly(run, app, registry);
    forall t | t in Targets(run) ensures t in registry ==> registry[t] == app {
      SelectedTargets(ops, target, t);
      assert Owned(t, ops, app, registry);
    }
  }

  lemma SelectedRunIsPlain(ops: seq<Op>, target: Dialect)
    ensures LeavesOf(SelectedOf(target, ops)) == SelectedOf(target, ops)
  {
    var run := SelectedOf(target, ops);
    forall x | x in run ensures !x.Dialectal? { SelectedOfAreLeaves(target, ops, x); }
    LeavesOfPlain(run);
  }

  lemma SelectedTargets(ops: seq<Op>, target: Dialect, t: string)
    requires t in Targets(SelectedOf(target, ops))
    ensures t in Targets(LeavesOf(ops))
  {
    var run := SelectedOf(target, ops);
    TargetsMembers(run, t);
    var l :| l in run && t in TargetsOfLeaf(l);
    SelectedOfAreLeaves(target, ops, l);
    TargetsMembers(LeavesOf(ops), t);
  }

  /**
   Pooling cannot reach row writes: past the ownership and the reverse gates, a migration that
   writes rows creates no table, so whatever a target runs of it is owned on its own.
   */
  lemma DataRunsAreOwned(ir: MigrationIr<Op>, target: Dialect, app: string, registry: map<string, string>)
    requires app != UNKNOWN_OWNER && AllAllowed(ir.ops, app, registry)
    requires EnforceIrSingleReverse(ir).Ok? && ForwardVerdict(ir).Ok? && HasDml(LeavesOf(ir.ops))
    ensures Created(LeavesOf(ir.ops)) == []
    ensures forall t | t in Targets(LeavesOf(ir.ops)) :: t in registry && registry[t] == app
    ensures AllAllowed(SelectedOf(target, ir.ops), app, registry)
  {
    ReverseGatesExactly(ir);
    NothingCreated(LeavesOf(ir.ops));
    OwnershipExactly(ir.ops, app, registry);
    SelectedRunOwnership(ir.ops, target, app, registry);
    forall t | t in Targets(SelectedOf(target, ir.ops)) ensures t in registry {
      SelectedTargets(ir.ops, target, t);
      assert Owned(t, ir.ops, app, registry);
    }
  }

  lemma {:induction false} NothingCreated(leaves: seq<Op>)
    requires forall l | l in leaves :: IsDmlLeaf(l)
    ensures Created(leaves) == []
  {
    if leaves == [] {
    } else {
      assert IsDmlLeaf(leaves[0]);
      NothingCreated(leaves[1..]);
    }
  }

  lemma MixesNothing(create: Op, drop: Op)
    requires !IsDmlLeaf(create) && !IsDmlLeaf(drop)
    ensures !HasDml([create, drop])
  {
    assert forall l | l in [create, drop] :: l == create || l == drop;
  }

  /** Schema changes it does reach: here the SQLite run drops a table only the Postgres leg creates. */
  lemma PooledCreationExample(base: MigrationIr<Op>)
    ensures var op := Ops.Dialectal(Absent, Present([CreateTable("t", None)]),
                                    Present([OnTable(DropTable, "t", None)]), Absent);
            && AllAllowed([op], "app", map[]) && ForwardVerdict(base.(ops := [op])) == Ok(())
            && !AllAllowed(SelectedOf(Sqlite, [op]), "app", map[])
  {
    var create, drop := CreateTable("t", None), OnTable(DropTable, "t", None);
    var op := Ops.Dialectal(Absent, Present([create]), Present([drop]), Absent);
    assert AllLegs(op) == [create, drop];
    LeavesOfInnerIs(op, AllLegs(op));
    LeavesOfPlain([create, drop]);
    assert [create, drop][1..] == [drop] && [drop][1..] == [] && [op][1..] == [];
    assert LeavesOf([op]) == [create, drop];
    MixesNothing(create, drop);
    assert Created([drop]) == [] && Targets([drop]) == ["t"];
    assert Created([create, drop]) == ["t"];
    assert Targets([create, drop]) == ["t", "t"];
    AllowedTargets([op], "app", map[]);
    assert SelectedLeg(Sqlite, op) == [drop];
    assert Selected(Sqlite, drop) == [drop];
    assert SelectedOfInner(Sqlite, op, [drop]) == [drop];
    assert SelectedOf(Sqlite, [op]) == [drop];
    LeavesOfPlain([drop]);
    AllowedTargets([drop], "app", map[]);
    assert "t" in Targets([drop]) && OwnerOf("t", [], "app", map[]) == UNKNOWN_OWNER;
    assert |UNKNOWN_OWNER| == 14 && |"app"| == 3;
  }

  // ---- the verdict, op by op ---------------------------------------------------------------------

  ghost predicate Creates(l: Op, t: string) {
    (l.CreateTable? && t == l.name) || (l.Partition? && l.partitionVerb.CreatePartition? && t == l.name)
  }

  /** Registered to the app, or registered to no one and created by some op of the migration. */
  ghost predicate OwnedOrCreated(t: string, ops: seq<Op>, app: string, registry: map<string, string>) {
    if t in registry then registry[t] == app else exists c | c in LeavesOf(ops) :: Creates(c, t)
  }

  lemma TargetsExactly(l: Op)
    ensures forall t :: t in TargetsOfLeaf(l) <==> NamesTable(l, t)
    ensures forall t :: t in CreatedByLeaf(l) <==> Creates(l, t)
  {}

  lemma OwnedExactly(t: string, ops: seq<Op>, app: string, registry: map<string, string>)
    ensures Owned(t, ops, app, registry) <==> OwnedOrCreated(t, ops, app, registry)
  {
    CreatedMembers(LeavesOf(ops), t);
    forall l | l in LeavesOf(ops) ensures t in CreatedByLeaf(l) <==> Creates(l, t) { TargetsExactly(l); }
  }

  /**
   The gate passes exactly when every table any op of any leg names - its own, both names of a
   partition op, every source of a structured view - is the app's or is created here.
   */
  lemma OwnershipByName(ops: seq<Op>, app: string, registry: map<string, string>)
    requires app != UNKNOWN_OWNER
    ensures AllAllowed(ops, app, registry) <==>
            forall l, t | l in LeavesOf(ops) && NamesTable(l, t) :: OwnedOrCreated(t, ops, app, registry)
  {
    OwnershipExactly(ops, app, registry);
    forall t ensures Owned(t, ops, app, registry) <==> OwnedOrCreated(t, ops, app, registry) {
      OwnedExactly(t, ops, app, registry);
    }
    forall t ensures t in Targets(LeavesOf(ops)) <==> exists l | l in LeavesOf(ops) :: NamesTable(l, t) {
      TargetsMembers(LeavesOf(ops), t);
      forall l | l in LeavesOf(ops) ensures t in TargetsOfLeaf(l) <==> NamesTable(l, t) { TargetsExactly(l); }
    }
    if AllAllowed(ops, app, registry) {
      forall l, t | l in LeavesOf(ops) && NamesTable(l, t) ensures OwnedOrCreated(t, ops, app, registry) {
        assert t in Targets(LeavesOf(ops));
      }
    }
  }

  /** The refusal names a table the op names, not owned by the app, and its owner or the sentinel. */
  lemma RefusalIsReal(e: OwnershipError, ops: seq<Op>, app: string, registry: map<string, string>)
    requires app != UNKNOWN_OWNER && IsFirstViolation(e, ops, app, registry)
    ensures !OwnedOrCreated(e.table, ops, app, registry)
    ensures e.owner == if e.table in registry then registry[e.table] else "<unregistered>"
    ensures exists l | l in Leaves(ops[e.opIndex]) :: NamesTable(l, e.table)
  {
    OwnedExactly(e.table, ops, app, registry);
    var targets := Targets(Leaves(ops[e.opIndex]));
    assert e.table in targets;
    TargetsMembers(Leaves(ops[e.opIndex]), e.table);
    var l :| l in Leaves(ops[e.opIndex]) && e.table in TargetsOfLeaf(l);
    TargetsExactly(l);
  }

  /** Of a partition op the parent is reported first, of a view the source it selects from. */
  lemma ParentIsReportedFirst(e: OwnershipError, ops: seq<Op>, app: string, registry: map<string, string>)
    requires app != UNKNOWN_OWNER && IsFirstViolation(e, ops, app, registry)
    ensures var op := ops[e.opIndex];
            && (op.Partition? && !OwnedOrCreated(op.parent, ops, app, registry) ==> e.table == op.parent)
            && (op.CreateView? && op.query.Structured? && !OwnedOrCreated(op.query.from, ops, app, registry) ==>
                  e.table == op.query.from)
  {
    var op := ops[e.opIndex];
    if (op.Partition? || op.CreateView?) && TargetsOfLeaf(op) != [] {
      WrapperLeaves(op);
      assert [op][1..] == [] && Targets([op]) == TargetsOfLeaf(op) + [];
      var targets := TargetsOfLeaf(op);
      assert Targets(Leaves(op)) == targets;
      OwnedExactly(targets[0], ops, app, registry);
      var k :| 0 <= k < |targets| && targets[k] == e.table
               && forall j | 0 <= j < k :: OwnerOf(targets[j], Created(LeavesOf(ops)), app, registry) == app;
      assert k > 0 ==> OwnerOf(targets[0], Created(LeavesOf(ops)), app, registry) == app;
    }
  }
}
