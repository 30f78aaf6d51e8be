/**
 What acceptance means, and what it guarantees: an accepted expression can be resolved for
 its target, leg by leg, into an accepted expression without legs.
 */
module Resolve {
  import opened Wrappers
  import opened Exprs
  import opened Validate

  // ---- acceptance, declaratively ------------------------------------------------------------

  /** The requirement a node meets by itself under a target. */
  ghost predicate Local(ctx: Ctx, e: Expr) {
    match e
    case ColRef(name, Some(qualifier)) => ctx.scope.onlyTargetQualifier ==> qualifier == ctx.scope.table
    case ColRef(name, None) => ctx.scope.columns.Some? ==> name in ctx.scope.columns.value
    case UuidV7 => ctx.target.Postgres?
    case FnCall(f, _) => f.CurrentSetting? || f.CurrentUser? ==> ctx.target.Postgres?
    case FnSynth(SplitPart, args) => SplitPartAdmissible(ctx.target, args)
    case FnSynth(Now, args) => args == []
    case FnSynth(ConcatWs, args) => |args| >= 2 && (ctx.target.Sqlite? ==> args[0].Literal?)
    case Agg(f, arg, delimiter, _) =>
      && (f.StringAgg? || f.ArrayAgg? || f.BoolAnd? || f.BoolOr? ==> ctx.target.Postgres?)
      && (arg.None? ==> f.Count?)
      && (delimiter.Some? <==> f.StringAgg?)
    case InList(_, elems, _) => IsUniformList(elems)
    case PgRegexMatch(_, regex) => !ctx.target.Sqlite? && regex != "" && 0 as char !in regex
    case PgColumnSize(_) => ctx.target.Postgres?
    case PgExtract(_, _) => ctx.target.Postgres?
    case PgInterval(duration) => ctx.target.Postgres? && duration != Duration(None, None, None, None, None, None)
    case Dialectal(_, _, _, _) => OwnLeg(ctx.target, e).Some? || e.default.Some?
    case _ => true
  }

  /** Which children are judged under which target: legs under their own, the default under any. */
  ghost predicate Judges(ctx: Ctx, e: Expr, c: Ctx, k: Expr) {
    if e.Dialectal? then c.scope == ctx.scope && (e.default == Some(k) || OwnLeg(c.target, e) == Some(k))
    else c == ctx && k in Kids(e)
  }

  lemma {:induction false} WalkAllAccepted(ctx: Ctx, es: seq<Expr>, depth: nat)
    ensures WalkAll(ctx, es, depth).Accepted? <==> forall k | k in es :: Walk(ctx, k, depth).Accepted?
  {
    if es == [] {
    } else {
      WalkAllAccepted(ctx, es[1..], depth);
      assert es[0] in es && forall k :: k in es <==> k == es[0] || k in es[1..];
    }
  }

  lemma {:induction false} WalkBranchesAccepted(ctx: Ctx, branches: seq<CaseBranch>, depth: nat)
    ensures WalkBranches(ctx, branches, depth).Accepted? <==>
            forall k | k in BranchKids(branches) :: Walk(ctx, k, depth).Accepted?
  {
    if branches == [] {
    } else {
      WalkBranchesAccepted(ctx, branches[1..], depth);
      var b := branches[0];
      assert b.when in BranchKids(branches) && b.then_ in BranchKids(branches);
      assert forall k :: k in BranchKids(branches) <==> k == b.when || k == b.then_ || k in BranchKids(branches[1..]);
    }
  }

  ghost predicate KidsAccepted(ctx: Ctx, e: Expr, depth: nat) {
    forall c, k | Judges(ctx, e, c, k) :: Walk(c, k, depth).Accepted?
  }

  lemma KidsAcceptedPlain(ctx: Ctx, e: Expr, depth: nat)
    requires !e.Dialectal?
    ensures KidsAccepted(ctx, e, depth) <==> forall k | k in Kids(e) :: Walk(ctx, k, depth).Accepted?
  {
    if KidsAccepted(ctx, e, depth) {
      forall k | k in Kids(e) ensures Walk(ctx, k, depth).Accepted? { assert Judges(ctx, e, ctx, k); }
    }
  }

  lemma WalkOptionalAccepted(ctx: Ctx, o: Option<Expr>, depth: nat)
    ensures WalkOptional(ctx, o, depth).Accepted? <==> forall k | k in Maybe(o) :: Walk(ctx, k, depth).Accepted?
  {
    if o.Some? { assert Maybe(o)[0] == o.value && o.value in Maybe(o); }
  }

  ghost predicate PlainStep(ctx: Ctx, e: Expr, depth: nat) {
    Walk(ctx, e, depth).Accepted? <==>
      depth < MAX_EXPR_DEPTH && Local(ctx, e) && forall k | k in Kids(e) :: Walk(ctx, k, depth + 1).Accepted?
  }

  lemma CaseNodeStep(ctx: Ctx, e: Expr, depth: nat)
    requires e.Case?
    ensures PlainStep(ctx, e, depth)
  {
    var d := depth + 1;
    WalkBranchesAccepted(ctx, e.branches, d);
    assert forall k :: k in Kids(e) <==> k in BranchKids(e.branches) || e.otherwise == Some(k);
    WalkOptionalAccepted(ctx, e.otherwise, d);
  }

  lemma FnCallNodeStep(ctx: Ctx, e: Expr, depth: nat)
    requires e.FnCall?
    ensures PlainStep(ctx, e, depth)
  {
    WalkAllAccepted(ctx, e.args, depth + 1);
    assert Local(ctx, e) <==> (e.scalarFn.CurrentSetting? || e.scalarFn.CurrentUser? ==> ctx.target.Postgres?);
    assert Kids(e) == e.args;
  }

  lemma FnSynthNodeStep(ctx: Ctx, e: Expr, depth: nat)
    requires e.FnSynth?
    ensures PlainStep(ctx, e, depth)
  {
    WalkAllAccepted(ctx, e.args, depth + 1);
    assert Kids(e) == e.args;
    if e.synthFn.SplitPart? && |e.args| == 3 { SplitPartExactly(ctx, e.args); }
  }

  lemma AggNodeStep(ctx: Ctx, e: Expr, depth: nat)
    requires e.Agg?
    ensures PlainStep(ctx, e, depth)
  {
    var d := depth + 1;
    assert forall k :: k in Kids(e) <==> e.arg == Some(k) || e.delimiter == Some(k);
    WalkOptionalAccepted(ctx, e.arg, d);
    WalkOptionalAccepted(ctx, e.delimiter, d);
  }

  lemma TupleNodeStep(ctx: Ctx, e: Expr, depth: nat)
    requires e.BinOp? || e.Between? || e.Like? || e.DistinctFrom?
    ensures PlainStep(ctx, e, depth)
  {
    var ks := Kids(e);
    assert ks[0] in ks && ks[1] in ks;
    if e.Between? { assert ks[2] in ks; }
  }

  lemma InListNodeStep(ctx: Ctx, e: Expr, depth: nat)
    requires e.InList?
    ensures PlainStep(ctx, e, depth)
  {
    UniformListExactly(e.elems);
    assert Kids(e)[0] in Kids(e);
  }

  lemma UnaryNodeStep(ctx: Ctx, e: Expr, depth: nat)
    requires |Kids(e)| == 1
    requires !e.Case? && !e.FnCall? && !e.FnSynth? && !e.Agg? && !e.InList? && !e.Dialectal?
    ensures PlainStep(ctx, e, depth)
  {
    assert Kids(e)[0] in Kids(e);
  }

  lemma LeafNodeStep(ctx: Ctx, e: Expr, depth: nat)
    requires e.ColRef? || e.Literal? || e.UuidV4? || e.UuidV7? || e.PgInterval?
    ensures PlainStep(ctx, e, depth)
  {}

  /** One level of the walk: the bound, the node itself, and everything it judges. */
  lemma WalkStep(ctx: Ctx, e: Expr, depth: nat)
    ensures Walk(ctx, e, depth).Accepted? <==>
            depth < MAX_EXPR_DEPTH && Local(ctx, e) && KidsAccepted(ctx, e, depth + 1)
  {
    if e.Dialectal? {
      WalkStepLegs(ctx, e, depth);
    } else {
      KidsAcceptedPlain(ctx, e, depth + 1);
      match e
      case Case(_, _) => CaseNodeStep(ctx, e, depth);
      case FnCall(_, _) => FnCallNodeStep(ctx, e, depth);
      case FnSynth(_, _) => FnSynthNodeStep(ctx, e, depth);
      case Agg(_, _, _, _) => AggNodeStep(ctx, e, depth);
      case BinOp(_, _, _) => TupleNodeStep(ctx, e, depth);
      case Between(_, _, _) => TupleNodeStep(ctx, e, depth);
      case Like(_, _) => TupleNodeStep(ctx, e, depth);
      case DistinctFrom(_, _) => TupleNodeStep(ctx, e, depth);
      case InList(_, _, _) => InListNodeStep(ctx, e, depth);
      case ColRef(_, _) => LeafNodeStep(ctx, e, depth);
      case Literal(_) => LeafNodeStep(ctx, e, depth);
      case UuidV4 => LeafNodeStep(ctx, e, depth);
      case UuidV7 => LeafNodeStep(ctx, e, depth);
      case PgInterval(_) => LeafNodeStep(ctx, e, depth);
      case _ => UnaryNodeStep(ctx, e, depth);
    }
  }

  lemma WalkStepLegs(ctx: Ctx, e: Expr, depth: nat)
    requires e.Dialectal?
    ensures Walk(ctx, e, depth).Accepted? <==>
            depth < MAX_EXPR_DEPTH && Local(ctx, e) && KidsAccepted(ctx, e, depth + 1)
  {
    var d := depth + 1;
    if KidsAccepted(ctx, e, d) {
      LegAccepted(ctx, e, Postgres, d);
      LegAccepted(ctx, e, Sqlite, d);
      LegAccepted(ctx, e, Mysql, d);
    }
    if Walk(ctx, e, depth).Accepted? {
      forall c, k | Judges(ctx, e, c, k) ensures Walk(c, k, d).Accepted? {
        assert c == ctx.(target := c.target);
        LegWalked(ctx, e, c.target, d);
      }
    }
  }

  lemma LegWalked(ctx: Ctx, e: Expr, t: Dialect, d: nat)
    requires e.Dialectal? && CheckDialectal(ctx, e, d).Accepted?
    ensures WalkOptional(ctx.(target := t), e.default, d).Accepted?
    ensures WalkOptional(ctx.(target := t), OwnLeg(t, e), d).Accepted?
  {}

  lemma LegAccepted(ctx: Ctx, e: Expr, t: Dialect, depth: nat)
    requires e.Dialectal? && KidsAccepted(ctx, e, depth)
    ensures WalkOptional(ctx.(target := t), e.default, depth).Accepted?
    ensures WalkOptional(ctx.(target := t), OwnLeg(t, e), depth).Accepted?
  {
    var c := ctx.(target := t);
    if e.default.Some? { assert Judges(ctx, e, c, e.default.value); }
    if OwnLeg(t, e).Some? { assert Judges(ctx, e, c, OwnLeg(t, e).value); }
  }

  datatype Judgement = Judgement(ctx: Ctx, e: Expr)

  /** A descent from a judgement to one it depends on. */
  ghost predicate Trail(from: Judgement, steps: seq<Judgement>)
    decreases |steps|
  {
    steps == [] || (Judges(from.ctx, from.e, steps[0].ctx, steps[0].e) && Trail(steps[0], steps[1..]))
  }

  ghost function End(from: Judgement, steps: seq<Judgement>): Judgement {
    if steps == [] then from else steps[|steps| - 1]
  }

  /** Every descent stays within the bound and ends at a node that meets its requirement. */
  ghost predicate WellJudged(from: Judgement, depth: nat) {
    forall steps | Trail(from, steps) ::
      depth + |steps| < MAX_EXPR_DEPTH && Local(End(from, steps).ctx, End(from, steps).e)
  }

  lemma {:induction false} TrailHolds(from: Judgement, depth: nat, steps: seq<Judgement>)
    requires Walk(from.ctx, from.e, depth).Accepted? && Trail(from, steps)
    ensures depth + |steps| < MAX_EXPR_DEPTH && Local(End(from, steps).ctx, End(from, steps).e)
    decreases steps
  {
    WalkStep(from.ctx, from.e, depth);
    if steps == [] {
    } else {
      TrailHolds(steps[0], depth + 1, steps[1..]);
    }
  }

  /** The walk accepts exactly the well-judged expressions. */
  lemma {:induction false} WalkExactly(ctx: Ctx, e: Expr, depth: nat)
    ensures Walk(ctx, e, depth).Accepted? <==> WellJudged(Judgement(ctx, e), depth)
    decreases e
  {
    var from := Judgement(ctx, e);
    if Walk(ctx, e, depth).Accepted? {
      forall steps | Trail(from, steps)
        ensures depth + |steps| < MAX_EXPR_DEPTH && Local(End(from, steps).ctx, End(from, steps).e)
      {
        TrailHolds(from, depth, steps);
      }
    }
    if WellJudged(from, depth) {
      assert Trail(from, []) && End(from, []) == from;
      forall c, k | Judges(ctx, e, c, k) ensures Walk(c, k, depth + 1).Accepted? {
        JudgedSmaller(ctx, e, c, k);
        WellJudgedKid(from, depth, Judgement(c, k));
        WalkExactly(c, k, depth + 1);
      }
      WalkStep(ctx, e, depth);
    }
  }

  lemma WellJudgedKid(from: Judgement, depth: nat, kid: Judgement)
    requires WellJudged(from, depth) && Judges(from.ctx, from.e, kid.ctx, kid.e)
    ensures WellJudged(kid, depth + 1)
  {
    forall steps | Trail(kid, steps)
      ensures depth + 1 + |steps| < MAX_EXPR_DEPTH && Local(End(kid, steps).ctx, End(kid, steps).e)
    {
      assert ([kid] + steps)[1..] == steps;
      assert Trail(from, [kid] + steps);
      assert End(from, [kid] + steps) == End(kid, steps);
    }
  }

  lemma JudgedSmaller(ctx: Ctx, e: Expr, c: Ctx, k: Expr)
    requires Judges(ctx, e, c, k)
    ensures k < e
  {
    if !e.Dialectal? { KidSmaller(e, k); }
  }

  /** What is accepted deep down is accepted higher up. */
  lemma {:induction false} AcceptedHigher(ctx: Ctx, e: Expr, depth: nat, higher: nat)
    requires Walk(ctx, e, depth).Accepted? && higher <= depth
    ensures Walk(ctx, e, higher).Accepted?
    decreases e
  {
    WalkStep(ctx, e, depth);
    forall c, k | Judges(ctx, e, c, k) ensures Walk(c, k, higher + 1).Accepted? {
      JudgedSmaller(ctx, e, c, k);
      AcceptedHigher(c, k, depth + 1, higher + 1);
    }
    WalkStep(ctx, e, higher);
  }

  // ---- leg resolution ------------------------------------------------------------------------

  /** `select_dialect_leg`: the target's own leg, else the default, else a miss. */
  function SelectLeg(target: Dialect, e: Expr): Option<Expr>
    requires e.Dialectal?
  {
    if OwnLeg(target, e).Some? then OwnLeg(target, e) else e.default
  }

  lemma SelectLegSmaller(target: Dialect, e: Expr)
    requires e.Dialectal? && SelectLeg(target, e).Some?
    ensures SelectLeg(target, e).value < e
  {}

  /** The expression rendered for a target: every `dialect` node replaced by its selected leg. */
  function ResolveExpr(target: Dialect, e: Expr): Option<Expr>
    decreases e, 0
  {
    if e.Dialectal? then
      var leg :- SelectLeg(target, e);
      SelectLegSmaller(target, e);
      ResolveExpr(target, leg)
    else
      var kids :- ResolveKids(target, e, Kids(e));
      Some(Rebuild(e, kids))
  }

  function ResolveKids(target: Dialect, e: Expr, ks: seq<Expr>): (r: Option<seq<Expr>>)
    requires forall k | k in ks :: k in Kids(e)
    ensures r.Some? ==> |r.value| == |ks|
    decreases e, 0, |ks|
  {
    if ks == [] then Some([])
    else
      KidSmaller(e, ks[0]);
      var k :- ResolveExpr(target, ks[0]);
      var rest :- ResolveKids(target, e, ks[1..]);
      Some([k] + rest)
  }

  /** No `dialect` node anywhere. */
  ghost predicate LegFree(e: Expr)
    decreases e
  {
    !e.Dialectal? && forall k | k in Kids(e) && k < e :: LegFree(k)
  }

  ghost predicate ResolvedTo(ctx: Ctx, e: Expr, r: Expr, depth: nat) {
    && ResolveExpr(ctx.target, e) == Some(r)
    && LegFree(r)
    && Walk(ctx, r, depth).Accepted?
    && (e.Literal? ==> r == e)
  }

  lemma {:induction false} ResolveKidsAccepted(ctx: Ctx, e: Expr, ks: seq<Expr>, depth: nat)
    requires forall k | k in ks :: k in Kids(e)
    requires forall k | k in ks :: Walk(ctx, k, depth).Accepted?
    ensures ResolveKids(ctx.target, e, ks).Some?
    ensures forall i | 0 <= i < |ks| :: ResolvedTo(ctx, ks[i], ResolveKids(ctx.target, e, ks).value[i], depth)
    decreases e, 0, |ks|
  {
    if ks == [] {
    } else {
      KidSmaller(e, ks[0]);
      ResolveAccepted(ctx, ks[0], depth);
      ResolveKidsAccepted(ctx, e, ks[1..], depth);
      var r := ResolveKids(ctx.target, e, ks).value;
      forall i | 0 <= i < |ks| ensures ResolvedTo(ctx, ks[i], r[i], depth) {
        if i > 0 { assert r[i] == ResolveKids(ctx.target, e, ks[1..]).value[i - 1]; }
      }
    }
  }

  /** A node keeps its requirement when its children are resolved: literals stay literals. */
  lemma LocalRebuild(ctx: Ctx, e: Expr, ks: seq<Expr>)
    requires !e.Dialectal? && Local(ctx, e) && |ks| == |Kids(e)|
    requires forall i | 0 <= i < |ks| :: Kids(e)[i].Literal? ==> ks[i] == Kids(e)[i]
    ensures Local(ctx, Rebuild(e, ks))
  {
    if e.FnSynth? && e.synthFn.SplitPart? {
      assert ks[1] == e.args[1] && ks[2] == e.args[2];
    }
  }

  lemma LegFreeRebuild(e: Expr, ks: seq<Expr>)
    requires !e.Dialectal? && |ks| == |Kids(e)|
    requires forall i | 0 <= i < |ks| :: LegFree(ks[i])
    ensures LegFree(Rebuild(e, ks))
  {
    KidsRebuild(e, ks);
  }

  /**
   Acceptance for a target survives resolution for it: no leg is missing, none remains,
   and the result is accepted in its place.
   */
  lemma {:induction false} ResolveAccepted(ctx: Ctx, e: Expr, depth: nat)
    requires Walk(ctx, e, depth).Accepted?
    ensures ResolveExpr(ctx.target, e).Some?
    ensures ResolvedTo(ctx, e, ResolveExpr(ctx.target, e).value, depth)
    decreases e, 1
  {
    WalkStep(ctx, e, depth);
    if e.Dialectal? {
      var leg := SelectLeg(ctx.target, e).value;
      SelectLegSmaller(ctx.target, e);
      assert Judges(ctx, e, ctx, leg);
      ResolveAccepted(ctx, leg, depth + 1);
      AcceptedHigher(ctx, ResolveExpr(ctx.target, leg).value, depth + 1, depth);
    } else {
      KidsAcceptedPlain(ctx, e, depth + 1);
      ResolveKidsAccepted(ctx, e, Kids(e), depth + 1);
      var ks := ResolveKids(ctx.target, e, Kids(e)).value;
      RebuiltAccepted(ctx, e, ks, depth);
    }
  }

  lemma RebuiltAccepted(ctx: Ctx, e: Expr, ks: seq<Expr>, depth: nat)
    requires !e.Dialectal? && |ks| == |Kids(e)| && depth < MAX_EXPR_DEPTH && Local(ctx, e)
    requires forall i | 0 <= i < |ks| :: ResolvedTo(ctx, Kids(e)[i], ks[i], depth + 1)
    ensures Walk(ctx, Rebuild(e, ks), depth).Accepted? && LegFree(Rebuild(e, ks))
    ensures e.Literal? ==> Rebuild(e, ks) == e
  {
    var r := Rebuild(e, ks);
    KidsRebuild(e, ks);
    LocalRebuild(ctx, e, ks);
    LegFreeRebuild(e, ks);
    KidsAcceptedPlain(ctx, r, depth + 1);
    WalkStep(ctx, r, depth);
  }

  /** The same, as seen by a caller of the validator. */
  lemma ValidatedResolves(e: Expr, target: Dialect, scope: TargetScope)
    requires ValidateExpr(e, target, scope).Accepted?
    ensures ResolveExpr(target, e).Some?
    ensures LegFree(ResolveExpr(target, e).value)
    ensures ValidateExpr(ResolveExpr(target, e).value, target, scope).Accepted?
  {
    ResolveAccepted(Ctx(target, scope), e, 0);
  }

  // ---- what resolution computes --------------------------------------------------------------

  /** A target's own leg decides, whatever the others hold; without one the default does; else nothing does. */
  lemma DialectNodeResolves(default: Option<Expr>, pg: Option<Expr>, sqlite: Option<Expr>, mysql: Option<Expr>)
    ensures var e := Dialectal(default, pg, sqlite, mysql);
            && (pg.Some? ==> ResolveExpr(Postgres, e) == ResolveExpr(Postgres, pg.value))
            && (sqlite.Some? ==> ResolveExpr(Sqlite, e) == ResolveExpr(Sqlite, sqlite.value))
            && (mysql.Some? ==> ResolveExpr(Mysql, e) == ResolveExpr(Mysql, mysql.value))
            && (pg.None? && default.Some? ==> ResolveExpr(Postgres, e) == ResolveExpr(Postgres, default.value))
            && (sqlite.None? && default.Some? ==> ResolveExpr(Sqlite, e) == ResolveExpr(Sqlite, default.value))
            && (mysql.None? && default.Some? ==> ResolveExpr(Mysql, e) == ResolveExpr(Mysql, default.value))
            && (default.None? && pg.None? ==> ResolveExpr(Postgres, e).None?)
            && (default.None? && sqlite.None? ==> ResolveExpr(Sqlite, e).None?)
            && (default.None? && mysql.None? ==> ResolveExpr(Mysql, e).None?)
  {}

  lemma {:induction false} ResolveKidsExactly(target: Dialect, e: Expr, ks: seq<Expr>)
    requires forall k | k in ks :: k in Kids(e)
    ensures ResolveKids(target, e, ks).Some? <==> forall k | k in ks :: ResolveExpr(target, k).Some?
    ensures ResolveKids(target, e, ks).Some? ==>
            forall i | 0 <= i < |ks| :: Some(ResolveKids(target, e, ks).value[i]) == ResolveExpr(target, ks[i])
  {
    if ks == [] {
    } else {
      ResolveKidsExactly(target, e, ks[1..]);
      assert ks[0] in ks && forall k :: k in ks <==> k == ks[0] || k in ks[1..];
    }
  }

  /** Any other node keeps all but its children, and each child is resolved in its place. */
  lemma PlainNodeResolves(target: Dialect, e: Expr)
    requires !e.Dialectal?
    ensures ResolveExpr(target, e).Some? <==> forall k | k in Kids(e) :: ResolveExpr(target, k).Some?
    ensures ResolveExpr(target, e).Some? ==>
            var r := ResolveExpr(target, e).value;
            && !r.Dialectal? && |Kids(r)| == |Kids(e)| && Rebuild(r, Kids(e)) == e
            && forall i | 0 <= i < |Kids(e)| :: Some(Kids(r)[i]) == ResolveExpr(target, Kids(e)[i])
  {
    ResolveKidsExactly(target, e, Kids(e));
    if ResolveExpr(target, e).Some? {
      var ks := ResolveKids(target, e, Kids(e)).value;
      KidsRebuild(e, ks);
      RebuildTwice(e, ks, Kids(e));
      RebuildOwnKids(e);
    }
  }

  /** An expression without `dialect` nodes resolves to itself, for every target. */
  lemma {:induction false} LegFreeResolvesToItself(target: Dialect, e: Expr)
    requires LegFree(e)
    ensures ResolveExpr(target, e) == Some(e)
    decreases e
  {
    forall k | k in Kids(e) ensures ResolveExpr(target, k) == Some(k) {
      KidSmaller(e, k);
      LegFreeResolvesToItself(target, k);
    }
    PlainNodeResolves(target, e);
    assert Kids(ResolveExpr(target, e).value) == Kids(e);
    RebuildOwnKids(ResolveExpr(target, e).value);
  }

  // ---- resolution preserves meaning -----------------------------------------------------------

  /** A node with its children blotted out. */
  function Head(e: Expr): Expr
    requires !e.Dialectal?
  {
    Rebuild(e, seq(|Kids(e)|, _ => UuidV4))
  }

  /**
   What an expression means on a target, for any meaning of the nodes themselves: a plain node
   from its head and the meanings of its children, a `dialect` node what the target's own leg
   means, or else the default, or else `missing`.
   */
  ghost function Meaning<V>(node: (Expr, seq<V>) -> V, missing: V, target: Dialect, e: Expr): V
    decreases e, 1
  {
    match e
    case Dialectal(default, pg, sqlite, mysql) =>
      if target == Postgres && pg.Some? then Meaning(node, missing, target, pg.value)
      else if target == Sqlite && sqlite.Some? then Meaning(node, missing, target, sqlite.value)
      else if target == Mysql && mysql.Some? then Meaning(node, missing, target, mysql.value)
      else if default.Some? then Meaning(node, missing, target, default.value)
      else missing
    case _ => node(Head(e), Meanings(node, missing, target, e, Kids(e)))
  }

  ghost function Meanings<V>(node: (Expr, seq<V>) -> V, missing: V, target: Dialect, e: Expr, ks: seq<Expr>)
    : (r: seq<V>)
    requires forall k | k in ks :: k in Kids(e)
    ensures |r| == |ks|
    decreases e, 0, |ks|
  {
    if ks == [] then []
    else
      KidSmaller(e, ks[0]);
      [Meaning(node, missing, target, ks[0])] + Meanings(node, missing, target, e, ks[1..])
  }

  lemma {:induction false} MeaningsAt<V>(node: (Expr, seq<V>) -> V, missing: V, target: Dialect, e: Expr, ks: seq<Expr>)
    requires forall k | k in ks :: k in Kids(e)
    ensures forall i | 0 <= i < |ks| ::
              Meanings(node, missing, target, e, ks)[i] == Meaning(node, missing, target, ks[i])
  {
    if ks == [] {
    } else {
      MeaningsAt(node, missing, target, e, ks[1..]);
    }
  }

  /** Whatever the nodes mean, the resolved expression means on its target what the authored one does. */
  lemma {:induction false} ResolutionPreservesMeaning<V>(node: (Expr, seq<V>) -> V, missing: V,
                                                        target: Dialect, e: Expr)
    requires ResolveExpr(target, e).Some?
    ensures Meaning(node, missing, target, ResolveExpr(target, e).value) == Meaning(node, missing, target, e)
    decreases e
  {
    if e.Dialectal? {
      LegMeans(node, missing, target, e);
      SelectLegSmaller(target, e);
      ResolutionPreservesMeaning(node, missing, target, SelectLeg(target, e).value);
    } else {
      PlainNodeResolves(target, e);
      var r := ResolveExpr(target, e).value;
      forall i | 0 <= i < |Kids(e)|
        ensures Meaning(node, missing, target, Kids(r)[i]) == Meaning(node, missing, target, Kids(e)[i])
      {
        KidSmaller(e, Kids(e)[i]);
        ResolutionPreservesMeaning(node, missing, target, Kids(e)[i]);
      }
      MeaningsAt(node, missing, target, e, Kids(e));
      MeaningsAt(node, missing, target, r, Kids(r));
      assert Meanings(node, missing, target, r, Kids(r)) == Meanings(node, missing, target, e, Kids(e));
      SameHead(r, e);
    }
  }

  lemma LegMeans<V>(node: (Expr, seq<V>) -> V, missing: V, target: Dialect, e: Expr)
    requires e.Dialectal? && SelectLeg(target, e).Some?
    ensures Meaning(node, missing, target, e) == Meaning(node, missing, target, SelectLeg(target, e).value)
    ensures ResolveExpr(target, e) == ResolveExpr(target, SelectLeg(target, e).value)
  {}

  lemma SameHead(r: Expr, e: Expr)
    requires !r.Dialectal? && !e.Dialectal? && |Kids(r)| == |Kids(e)| && Rebuild(r, Kids(e)) == e
    ensures Head(r) == Head(e)
  {
    RebuildTwice(r, Kids(e), seq(|Kids(e)|, _ => UuidV4));
  }
}
