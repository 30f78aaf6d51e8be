/** Which refusal a walk reports: the fault of some node it judges, under the target it judges it for. */
module Refusals {
  import opened Wrappers
  import opened Exprs
  import opened Validate
  import opened Resolve

  function Fail(code: Code, exprKind: bool, dialect: Dialect): Option<AuthoringError> {
    Some(AuthoringError(code, exprKind, dialect))
  }

  /** The refusal a node earns by itself, children aside: the depth bound, then its own requirement. */
  ghost function Fault(ctx: Ctx, e: Expr, depth: nat): Option<AuthoringError> {
    if depth >= 128 || (Local(ctx, e) && !IsLegless(e)) then
      if depth >= 128 then Fail(Unsupported, true, ctx.target) else None
    else
      match e
      case UuidV7 => Fail(ExprNotPortable, false, ctx.target)
      case FnSynth(SplitPart, args) =>
        if |args| != 3 then Fail(Unsupported, true, ctx.target)
        else if !SplitPartAdmissible(Postgres, args) then Fail(ExprNotPortable, false, ctx.target)
        else Fail(ExprNotPortable, false, Sqlite)
      case FnSynth(ConcatWs, args) =>
        if |args| < 2 then Fail(Unsupported, true, ctx.target) else Fail(ExprNotPortable, false, Sqlite)
      case Agg(f, _, _, _) =>
        if (f.StringAgg? || f.ArrayAgg? || f.BoolAnd? || f.BoolOr?) && !ctx.target.Postgres? then
          Fail(DialectUnsupported, true, ctx.target)
        else Fail(Unsupported, true, ctx.target)
      case PgRegexMatch(_, _) =>
        if ctx.target.Sqlite? then Fail(DialectUnsupported, true, Sqlite) else Fail(Unsupported, true, ctx.target)
      case Dialectal(_, _, _, _) =>
        if IsLegless(e) then Fail(Unsupported, true, ctx.target) else Fail(ExprNotPortable, true, ctx.target)
      case _ => Fail(Unsupported, true, ctx.target)
  }

  predicate IsLegless(e: Expr) { e == Dialectal(None, None, None, None) }

  /** A node without a fault is one the walk does not stop at. */
  lemma FaultlessExactly(ctx: Ctx, e: Expr, depth: nat)
    ensures Fault(ctx, e, depth).None? <==> depth < MAX_EXPR_DEPTH && Local(ctx, e)
  {}

  ghost predicate BlamesKid(ctx: Ctx, e: Expr, depth: nat, err: AuthoringError) {
    exists c, k | Judges(ctx, e, c, k) :: Walk(c, k, depth) == Refused(err)
  }

  /** A refusal is the node's own fault or comes from something it judges. */
  ghost predicate BlameStep(ctx: Ctx, e: Expr, depth: nat) {
    Walk(ctx, e, depth).Refused? ==>
      || Fault(ctx, e, depth) == Some(Walk(ctx, e, depth).error)
      || BlamesKid(ctx, e, depth + 1, Walk(ctx, e, depth).error)
  }

  lemma {:induction false} WalkAllRefused(ctx: Ctx, es: seq<Expr>, depth: nat)
    requires WalkAll(ctx, es, depth).Refused?
    ensures exists k | k in es :: Walk(ctx, k, depth) == WalkAll(ctx, es, depth)
  {
    assert es[0] in es && forall k | k in es[1..] :: k in es;
    if Walk(ctx, es[0], depth).Accepted? {
      WalkAllRefused(ctx, es[1..], depth);
    } else {
      assert Walk(ctx, es[0], depth) == WalkAll(ctx, es, depth);
    }
  }

  lemma {:induction false} WalkBranchesRefused(ctx: Ctx, branches: seq<CaseBranch>, depth: nat)
    requires WalkBranches(ctx, branches, depth).Refused?
    ensures exists k | k in BranchKids(branches) :: Walk(ctx, k, depth) == WalkBranches(ctx, branches, depth)
  {
    var b, ks := branches[0], BranchKids(branches);
    assert ks == [b.when, b.then_] + BranchKids(branches[1..]);
    assert b.when in ks && b.then_ in ks && forall k | k in BranchKids(branches[1..]) :: k in ks;
    if WalkBranch(ctx, b, depth).Accepted? {
      WalkBranchesRefused(ctx, branches[1..], depth);
    } else {
      assert Walk(ctx, b.when, depth) == WalkBranches(ctx, branches, depth)
          || Walk(ctx, b.then_, depth) == WalkBranches(ctx, branches, depth);
    }
  }

  lemma KidBlamed(ctx: Ctx, e: Expr, k: Expr, depth: nat)
    requires !e.Dialectal? && k in Kids(e) && Walk(ctx, k, depth).Refused?
    ensures BlamesKid(ctx, e, depth, Walk(ctx, k, depth).error)
  {
    assert Judges(ctx, e, ctx, k);
  }

  lemma LegBlamed(ctx: Ctx, e: Expr, t: Dialect, k: Expr, depth: nat)
    requires e.Dialectal? && (e.default == Some(k) || OwnLeg(t, e) == Some(k))
    requires Walk(ctx.(target := t), k, depth).Refused?
    ensures BlamesKid(ctx, e, depth, Walk(ctx.(target := t), k, depth).error)
  {
    assert Judges(ctx, e, ctx.(target := t), k);
  }

  lemma BlameCase(ctx: Ctx, e: Expr, depth: nat)
    requires e.Case?
    ensures BlameStep(ctx, e, depth)
  {
    var d := depth + 1;
    if depth >= MAX_EXPR_DEPTH {
    } else if WalkBranches(ctx, e.branches, d).Refused? {
      WalkBranchesRefused(ctx, e.branches, d);
      var k :| k in BranchKids(e.branches) && Walk(ctx, k, d) == WalkBranches(ctx, e.branches, d);
      KidBlamed(ctx, e, k, d);
    } else if WalkOptional(ctx, e.otherwise, d).Refused? {
      assert e.otherwise.value in Kids(e);
      KidBlamed(ctx, e, e.otherwise.value, d);
    }
  }

  lemma BlameCall(ctx: Ctx, e: Expr, depth: nat)
    requires e.FnCall? || e.FnSynth?
    ensures BlameStep(ctx, e, depth)
  {
    var d := depth + 1;
    assert Kids(e) == e.args;
    if WalkAll(ctx, e.args, d).Refused? {
      WalkAllRefused(ctx, e.args, d);
      var k :| k in e.args && Walk(ctx, k, d) == WalkAll(ctx, e.args, d);
      KidBlamed(ctx, e, k, d);
    }
    if e.FnSynth? { BlameSynth(ctx, e, depth); }
  }

  lemma BlameSynth(ctx: Ctx, e: Expr, depth: nat)
    requires e.FnSynth?
    ensures var v := CheckSynth(ctx, e.synthFn, e.args, depth + 1);
            v.Refused? && depth < MAX_EXPR_DEPTH ==>
              v == WalkAll(ctx, e.args, depth + 1) || Fault(ctx, e, depth) == Some(v.error)
  {
    if e.synthFn.SplitPart? && |e.args| == 3 { SplitPartBlame(ctx, e.args); }
  }

  lemma SplitPartBlame(ctx: Ctx, args: seq<Expr>)
    requires |args| == 3
    ensures CheckSplitPart(ctx, args).Accepted? <==> SplitPartAdmissible(ctx.target, args)
    ensures CheckSplitPart(ctx, args).Refused? ==>
            CheckSplitPart(ctx, args).error ==
            AuthoringError(ExprNotPortable, false, if SplitPartAdmissible(Postgres, args) then Sqlite else ctx.target)
  {
    SplitPartExactly(ctx, args);
  }

  lemma AggVerdict(ctx: Ctx, e: Expr, d: nat)
    requires e.Agg? && CheckAgg(ctx, e, d).Refused?
    ensures var v := CheckAgg(ctx, e, d);
            || (e.arg.Some? && v == Walk(ctx, e.arg.value, d))
            || (e.delimiter.Some? && v == Walk(ctx, e.delimiter.value, d))
            || (!Local(ctx, e)
                && v.error == AuthoringError(if IsPgFirst(e.func) && !ctx.target.Postgres? then DialectUnsupported
                                             else Unsupported, true, ctx.target))
  {
    if IsPgFirst(e.func) && !ctx.target.Postgres? {
    } else if WalkOptional(ctx, e.arg, d).Refused? {
    } else if e.func.StringAgg? && WalkOptional(ctx, e.delimiter, d).Refused? {
    }
  }

  lemma BlameAgg(ctx: Ctx, e: Expr, depth: nat)
    requires e.Agg?
    ensures BlameStep(ctx, e, depth)
  {
    var d := depth + 1;
    if CheckAgg(ctx, e, d).Refused? {
      AggVerdict(ctx, e, d);
      if e.arg.Some? && CheckAgg(ctx, e, d) == Walk(ctx, e.arg.value, d) {
        assert e.arg.value in Kids(e);
        KidBlamed(ctx, e, e.arg.value, d);
      } else if e.delimiter.Some? && CheckAgg(ctx, e, d) == Walk(ctx, e.delimiter.value, d) {
        assert e.delimiter.value in Kids(e);
        KidBlamed(ctx, e, e.delimiter.value, d);
      }
    }
  }

  lemma BlameFixed(ctx: Ctx, e: Expr, depth: nat)
    requires !e.Case? && !e.FnCall? && !e.FnSynth? && !e.Agg? && !e.Dialectal? && 1 <= |Kids(e)| <= 3
    ensures BlameStep(ctx, e, depth)
  {
    var d, ks := depth + 1, Kids(e);
    forall i | 0 <= i < |ks| && Walk(ctx, ks[i], d).Refused?
      ensures BlamesKid(ctx, e, d, Walk(ctx, ks[i], d).error)
    {
      KidBlamed(ctx, e, ks[i], d);
    }
    if e.InList? { UniformListExactly(e.elems); }
  }

  lemma LegMayBlame(ctx: Ctx, e: Expr, t: Dialect, leg: Option<Expr>, d: nat)
    requires e.Dialectal? && (leg == e.default || leg == OwnLeg(t, e))
    ensures var v := WalkOptional(ctx.(target := t), leg, d); v.Refused? ==> BlamesKid(ctx, e, d, v.error)
  {
    if WalkOptional(ctx.(target := t), leg, d).Refused? { LegBlamed(ctx, e, t, leg.value, d); }
  }

  lemma BlameLegs(ctx: Ctx, e: Expr, depth: nat)
    requires e.Dialectal?
    ensures BlameStep(ctx, e, depth)
  {
    var d := depth + 1;
    LegMayBlame(ctx, e, Postgres, e.default, d);
    LegMayBlame(ctx, e, Sqlite, e.default, d);
    LegMayBlame(ctx, e, Mysql, e.default, d);
    LegMayBlame(ctx, e, Postgres, e.pg, d);
    LegMayBlame(ctx, e, Sqlite, e.sqlite, d);
    LegMayBlame(ctx, e, Mysql, e.mysql, d);
  }

  lemma BlameNode(ctx: Ctx, e: Expr, depth: nat)
    ensures BlameStep(ctx, e, depth)
  {
    if e.Case? {
      BlameCase(ctx, e, depth);
    } else if e.FnCall? || e.FnSynth? {
      BlameCall(ctx, e, depth);
    } else if e.Agg? {
      BlameAgg(ctx, e, depth);
    } else if e.Dialectal? {
      BlameLegs(ctx, e, depth);
    } else if Kids(e) != [] {
      BlameFixed(ctx, e, depth);
    }
  }

  /** The descent `steps` reaches a node whose own fault is `err`. */
  ghost predicate Blames(from: Judgement, depth: nat, steps: seq<Judgement>, err: AuthoringError) {
    Trail(from, steps) && Fault(End(from, steps).ctx, End(from, steps).e, depth + |steps|) == Some(err)
  }

  /** Whatever the walk reports is the fault of a node some descent reaches, under the target it is judged for. */
  lemma {:induction false} RefusalBlamesANode(ctx: Ctx, e: Expr, depth: nat)
    requires Walk(ctx, e, depth).Refused?
    ensures exists steps :: Blames(Judgement(ctx, e), depth, steps, Walk(ctx, e, depth).error)
    decreases e
  {
    var from, err := Judgement(ctx, e), Walk(ctx, e, depth).error;
    BlameNode(ctx, e, depth);
    if Fault(ctx, e, depth) == Some(err) {
      assert Blames(from, depth, [], err);
    } else {
      var c, k :| Judges(ctx, e, c, k) && Walk(c, k, depth + 1) == Refused(err);
      JudgedSmaller(ctx, e, c, k);
      RefusalBlamesANode(c, k, depth + 1);
      var steps :| Blames(Judgement(c, k), depth + 1, steps, err);
      BlamePassesUp(from, depth, Judgement(c, k), steps, err);
    }
  }

  lemma BlamePassesUp(from: Judgement, depth: nat, kid: Judgement, steps: seq<Judgement>, err: AuthoringError)
    requires Judges(from.ctx, from.e, kid.ctx, kid.e) && Blames(kid, depth + 1, steps, err)
    ensures Blames(from, depth, [kid] + steps, err)
  {
    assert ([kid] + steps)[1..] == steps;
    assert End(from, [kid] + steps) == End(kid, steps);
  }
}
