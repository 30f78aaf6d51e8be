/** Which scalar contexts an expression may enter: no aggregates, and for immutable contexts nothing volatile. */
module Volatility {
  import opened Wrappers
  import opened Exprs
  import opened Resolve

  datatype Culprit = Aggregate(func: AggFunc) | UuidV4Call | UuidV7Call | NowCall

  function OrElse(a: Option<Culprit>, b: Option<Culprit>): Option<Culprit> {
    if a.Some? then a else b
  }

  // ---- the searches, as the program runs them ------------------------------------------------

  function FirstAggregate(e: Expr): Option<Culprit>
    decreases e, 1
  {
    match e
    case ColRef(_, _) => None
    case Literal(_) => None
    case UuidV4 => None
    case UuidV7 => None
    case PgInterval(_) => None
    case BinOp(_, l, r) => OrElse(FirstAggregate(l), FirstAggregate(r))
    case UnaryOp(_, x) => FirstAggregate(x)
    case Cast(x, _) => FirstAggregate(x)
    case PgRegexMatch(x, _) => FirstAggregate(x)
    case PgColumnSize(x) => FirstAggregate(x)
    case Extract(_, x) => FirstAggregate(x)
    case PgExtract(_, x) => FirstAggregate(x)
    case Case(branches, otherwise) => OrElse(FirstAggregateOfBranches(branches), FirstAggregateOf(otherwise))
    case FnCall(_, args) => FirstAggregateOfAll(args)
    case FnSynth(_, args) => FirstAggregateOfAll(args)
    case Between(x, lo, hi) => OrElse(OrElse(FirstAggregate(x), FirstAggregate(lo)), FirstAggregate(hi))
    case Like(x, p) => OrElse(FirstAggregate(x), FirstAggregate(p))
    case DistinctFrom(l, r) => OrElse(FirstAggregate(l), FirstAggregate(r))
    case Agg(f, arg, delimiter, _) =>
      OrElse(OrElse(FirstAggregateOf(arg), FirstAggregateOf(delimiter)), Some(Aggregate(f)))
    case InList(x, _, _) => FirstAggregate(x)
    case Dialectal(default, pg, sqlite, mysql) =>
      OrElse(OrElse(FirstAggregateOf(default), FirstAggregateOf(pg)),
             OrElse(FirstAggregateOf(sqlite), FirstAggregateOf(mysql)))
  }

  function FirstAggregateOf(e: Option<Expr>): Option<Culprit>
    decreases e
  {
    match e case Some(x) => FirstAggregate(x) case None => None
  }

  function FirstAggregateOfAll(es: seq<Expr>): Option<Culprit>
    decreases es
  {
    if es == [] then None else OrElse(FirstAggregate(es[0]), FirstAggregateOfAll(es[1..]))
  }

  function FirstAggregateOfBranch(b: CaseBranch): Option<Culprit>
    decreases b
  {
    OrElse(FirstAggregate(b.when), FirstAggregate(b.then_))
  }

  function FirstAggregateOfBranches(branches: seq<CaseBranch>): Option<Culprit>
    decreases branches
  {
    if branches == [] then None
    else OrElse(FirstAggregateOfBranch(branches[0]), FirstAggregateOfBranches(branches[1..]))
  }

  function FirstVolatile(e: Expr): Option<Culprit>
    decreases e, 1
  {
    match e
    case ColRef(_, _) => None
    case Literal(_) => None
    case PgInterval(_) => None
    case UuidV4 => Some(UuidV4Call)
    case UuidV7 => Some(UuidV7Call)
    case BinOp(_, l, r) => OrElse(FirstVolatile(l), FirstVolatile(r))
    case UnaryOp(_, x) => FirstVolatile(x)
    case Cast(x, _) => FirstVolatile(x)
    case PgRegexMatch(x, _) => FirstVolatile(x)
    case PgColumnSize(x) => FirstVolatile(x)
    case Extract(_, x) => FirstVolatile(x)
    case PgExtract(_, x) => FirstVolatile(x)
    case Case(branches, otherwise) => OrElse(FirstVolatileOfBranches(branches), FirstVolatileOf(otherwise))
    case FnCall(_, args) => FirstVolatileOfAll(args)
    case FnSynth(f, args) => if f.Now? then Some(NowCall) else FirstVolatileOfAll(args)
    case Between(x, lo, hi) => OrElse(OrElse(FirstVolatile(x), FirstVolatile(lo)), FirstVolatile(hi))
    case Like(x, p) => OrElse(FirstVolatile(x), FirstVolatile(p))
    case DistinctFrom(l, r) => OrElse(FirstVolatile(l), FirstVolatile(r))
    case Agg(_, arg, delimiter, _) => OrElse(FirstVolatileOf(arg), FirstVolatileOf(delimiter))
    case InList(x, _, _) => FirstVolatile(x)
    case Dialectal(default, pg, sqlite, mysql) =>
      OrElse(OrElse(FirstVolatileOf(default), FirstVolatileOf(pg)),
             OrElse(FirstVolatileOf(sqlite), FirstVolatileOf(mysql)))
  }

  function FirstVolatileOf(e: Option<Expr>): Option<Culprit>
    decreases e
  {
    match e case Some(x) => FirstVolatile(x) case None => None
  }

  function FirstVolatileOfAll(es: seq<Expr>): Option<Culprit>
    decreases es
  {
    if es == [] then None else OrElse(FirstVolatile(es[0]), FirstVolatileOfAll(es[1..]))
  }

  function FirstVolatileOfBranch(b: CaseBranch): Option<Culprit>
    decreases b
  {
    OrElse(FirstVolatile(b.when), FirstVolatile(b.then_))
  }

  function FirstVolatileOfBranches(branches: seq<CaseBranch>): Option<Culprit>
    decreases branches
  {
    if branches == [] then None
    else OrElse(FirstVolatileOfBranch(branches[0]), FirstVolatileOfBranches(branches[1..]))
  }

  datatype ContextError = AggregateInScalarContext(c: Culprit) | ImmutableContextVolatile(c: Culprit)

  /** `validate_immutable_expr_context`: the aggregate check first, then the volatility check. */
  function ValidateImmutable(e: Expr): Result<(), ContextError> {
    if FirstAggregate(e).Some? then Err(AggregateInScalarContext(FirstAggregate(e).value))
    else if FirstVolatile(e).Some? then Err(ImmutableContextVolatile(FirstVolatile(e).value))
    else Ok(())
  }

  // ---- what they find ------------------------------------------------------------------------

  /** What a node is, disregarding its children. */
  function AggregateAt(e: Expr): Option<Culprit> {
    if e.Agg? then Some(Aggregate(e.func)) else None
  }

  function VolatileAt(e: Expr): Option<Culprit> {
    if e.UuidV4? then Some(UuidV4Call)
    else if e.UuidV7? then Some(UuidV7Call)
    else if e.FnSynth? && e.synthFn.Now? then Some(NowCall)
    else None
  }

  /** `x` is `e` or lies below it, in any argument, branch or leg. */
  ghost predicate Within(x: Expr, e: Expr)
    decreases e
  {
    x == e || exists k | k in Kids(e) && k < e :: Within(x, k)
  }

  ghost predicate FoundWithin(at: Expr -> Option<Culprit>, c: Culprit, e: Expr) {
    exists x | Within(x, e) :: at(x) == Some(c)
  }

  ghost predicate AggregateWithin(c: Culprit, e: Expr) { FoundWithin(AggregateAt, c, e) }

  ghost predicate VolatileWithin(c: Culprit, e: Expr) { FoundWithin(VolatileAt, c, e) }

  // ---- both searches are one traversal ---------------------------------------------------------

  /** The first find among several expressions. */
  function FindMap(find: Expr -> Option<Culprit>, es: seq<Expr>): Option<Culprit> {
    if es == [] then None else OrElse(find(es[0]), FindMap(find, es[1..]))
  }

  lemma {:induction false} FindMapConcat(find: Expr -> Option<Culprit>, a: seq<Expr>, b: seq<Expr>)
    ensures FindMap(find, a + b) == OrElse(FindMap(find, a), FindMap(find, b))
  {
    if a == [] {
      assert a + b == b;
    } else {
      assert (a + b)[1..] == a[1..] + b;
      FindMapConcat(find, a[1..], b);
    }
  }

  lemma FindMapMaybe(find: Expr -> Option<Culprit>, o: Option<Expr>)
    ensures FindMap(find, Maybe(o)) == if o.Some? then find(o.value) else None
  {
    if o.Some? { FindMapOne(find, o.value); }
  }

  lemma FindMapOne(find: Expr -> Option<Culprit>, x: Expr)
    ensures FindMap(find, [x]) == find(x)
  {
    assert [x][1..] == [];
  }

  lemma FindMapTwo(find: Expr -> Option<Culprit>, x: Expr, y: Expr)
    ensures FindMap(find, [x, y]) == OrElse(find(x), find(y))
  {
    assert [x, y][1..] == [y];
    FindMapOne(find, y);
  }

  lemma FindMapThree(find: Expr -> Option<Culprit>, x: Expr, y: Expr, z: Expr)
    ensures FindMap(find, [x, y, z]) == OrElse(OrElse(find(x), find(y)), find(z))
  {
    assert [x, y, z][1..] == [y, z];
    FindMapTwo(find, y, z);
  }

  lemma FindMapLegs(find: Expr -> Option<Culprit>, a: Option<Expr>, b: Option<Expr>, c: Option<Expr>, d: Option<Expr>)
    ensures FindMap(find, Maybe(a) + Maybe(b) + Maybe(c) + Maybe(d))
         == OrElse(OrElse(FindMap(find, Maybe(a)), FindMap(find, Maybe(b))),
                   OrElse(FindMap(find, Maybe(c)), FindMap(find, Maybe(d))))
  {
    FindMapConcat(find, Maybe(a), Maybe(b));
    FindMapConcat(find, Maybe(a) + Maybe(b), Maybe(c));
    FindMapConcat(find, Maybe(a) + Maybe(b) + Maybe(c), Maybe(d));
  }

  /** The children of a single-operand node, a pair, or a triple. */
  lemma FindMapKids(find: Expr -> Option<Culprit>, e: Expr)
    ensures var ks := Kids(e);
            && (|ks| == 0 ==> FindMap(find, ks) == None)
            && (|ks| == 1 ==> FindMap(find, ks) == find(ks[0]))
            && (|ks| == 2 ==> FindMap(find, ks) == OrElse(find(ks[0]), find(ks[1])))
            && (|ks| == 3 ==> FindMap(find, ks) == OrElse(OrElse(find(ks[0]), find(ks[1])), find(ks[2])))
  {
    var ks := Kids(e);
    if |ks| == 1 {
      assert ks == [ks[0]];
      FindMapOne(find, ks[0]);
    } else if |ks| == 2 {
      assert ks == [ks[0], ks[1]];
      FindMapTwo(find, ks[0], ks[1]);
    } else if |ks| == 3 {
      assert ks == [ks[0], ks[1], ks[2]];
      FindMapThree(find, ks[0], ks[1], ks[2]);
    }
  }

  /** A find among several is a find of one of them, and none is found only when none has one. */
  lemma {:induction false} FindMapFrom(find: Expr -> Option<Culprit>, es: seq<Expr>)
    ensures FindMap(find, es).None? <==> forall k | k in es :: find(k).None?
    ensures FindMap(find, es).Some? ==> exists k | k in es :: find(k) == FindMap(find, es)
  {
    if es == [] {
    } else {
      FindMapFrom(find, es[1..]);
      assert es[0] in es && forall k :: k in es <==> k == es[0] || k in es[1..];
    }
  }

  lemma {:induction false} AggregateOfAll(es: seq<Expr>)
    ensures FirstAggregateOfAll(es) == FindMap(FirstAggregate, es)
  {
    if es == [] {
    } else {
      AggregateOfAll(es[1..]);
    }
  }

  lemma {:induction false} VolatileOfAll(es: seq<Expr>)
    ensures FirstVolatileOfAll(es) == FindMap(FirstVolatile, es)
  {
    if es == [] {
    } else {
      VolatileOfAll(es[1..]);
    }
  }

  lemma {:induction false} AggregateOfBranches(branches: seq<CaseBranch>)
    ensures FirstAggregateOfBranches(branches) == FindMap(FirstAggregate, BranchKids(branches))
  {
    if branches == [] {
    } else {
      var b := branches[0];
      AggregateOfBranches(branches[1..]);
      FindMapTwo(FirstAggregate, b.when, b.then_);
      assert FirstAggregateOfBranch(b) == OrElse(FirstAggregate(b.when), FirstAggregate(b.then_));
      FindMapConcat(FirstAggregate, [b.when, b.then_], BranchKids(branches[1..]));
    }
  }

  lemma {:induction false} VolatileOfBranches(branches: seq<CaseBranch>)
    ensures FirstVolatileOfBranches(branches) == FindMap(FirstVolatile, BranchKids(branches))
  {
    if branches == [] {
    } else {
      var b := branches[0];
      VolatileOfBranches(branches[1..]);
      FindMapTwo(FirstVolatile, b.when, b.then_);
      assert FirstVolatileOfBranch(b) == OrElse(FirstVolatile(b.when), FirstVolatile(b.then_));
      FindMapConcat(FirstVolatile, [b.when, b.then_], BranchKids(branches[1..]));
    }
  }

  /** Nodes whose children are a list, or optional. */
  predicate IsVariadic(e: Expr) { e.Case? || e.FnCall? || e.FnSynth? || e.Agg? || e.Dialectal? }

  /** The aggregate search visits children in order and the node itself last. */
  lemma AggregateStep(e: Expr)
    ensures FirstAggregate(e) == OrElse(FindMap(FirstAggregate, Kids(e)), AggregateAt(e))
  {
    if IsVariadic(e) { AggregateVariadicStep(e); } else { AggregateFixedStep(e); }
  }

  lemma AggregateFixedStep(e: Expr)
    requires !IsVariadic(e)
    ensures FirstAggregate(e) == FindMap(FirstAggregate, Kids(e))
  {
    FindMapKids(FirstAggregate, e);
  }

  lemma AggregateVariadicStep(e: Expr)
    requires IsVariadic(e)
    ensures FirstAggregate(e) == OrElse(FindMap(FirstAggregate, Kids(e)), AggregateAt(e))
  {
    if e.FnCall? || e.FnSynth? {
      AggregateOfAll(e.args);
    } else if e.Case? {
      AggregateOfBranches(e.branches);
      FindMapMaybe(FirstAggregate, e.otherwise);
      FindMapConcat(FirstAggregate, BranchKids(e.branches), Maybe(e.otherwise));
    } else if e.Agg? {
      FindMapMaybe(FirstAggregate, e.arg);
      FindMapMaybe(FirstAggregate, e.delimiter);
      FindMapConcat(FirstAggregate, Maybe(e.arg), Maybe(e.delimiter));
    } else {
      forall o ensures FindMap(FirstAggregate, Maybe(o)) == FirstAggregateOf(o) { FindMapMaybe(FirstAggregate, o); }
      FindMapLegs(FirstAggregate, e.default, e.pg, e.sqlite, e.mysql);
    }
  }

  /** The volatility search looks at the node first and then at its children in order. */
  lemma VolatileStep(e: Expr)
    ensures FirstVolatile(e) == OrElse(VolatileAt(e), FindMap(FirstVolatile, Kids(e)))
  {
    if IsVariadic(e) { VolatileVariadicStep(e); } else { VolatileFixedStep(e); }
  }

  lemma VolatileFixedStep(e: Expr)
    requires !IsVariadic(e)
    ensures FirstVolatile(e) == OrElse(VolatileAt(e), FindMap(FirstVolatile, Kids(e)))
  {
    FindMapKids(FirstVolatile, e);
  }

  lemma VolatileVariadicStep(e: Expr)
    requires IsVariadic(e)
    ensures FirstVolatile(e) == OrElse(VolatileAt(e), FindMap(FirstVolatile, Kids(e)))
  {
    if e.FnCall? || e.FnSynth? {
      VolatileOfAll(e.args);
    } else if e.Case? {
      VolatileOfBranches(e.branches);
      FindMapMaybe(FirstVolatile, e.otherwise);
      FindMapConcat(FirstVolatile, BranchKids(e.branches), Maybe(e.otherwise));
    } else if e.Agg? {
      FindMapMaybe(FirstVolatile, e.arg);
      FindMapMaybe(FirstVolatile, e.delimiter);
      FindMapConcat(FirstVolatile, Maybe(e.arg), Maybe(e.delimiter));
    } else {
      forall o ensures FindMap(FirstVolatile, Maybe(o)) == FirstVolatileOf(o) { FindMapMaybe(FirstVolatile, o); }
      FindMapLegs(FirstVolatile, e.default, e.pg, e.sqlite, e.mysql);
    }
  }

  /** A search for `at`: at every node it finds what the node is or what its children yield. */
  ghost predicate Searches(find: Expr -> Option<Culprit>, at: Expr -> Option<Culprit>) {
    forall e :: find(e) == OrElse(at(e), FindMap(find, Kids(e))) || find(e) == OrElse(FindMap(find, Kids(e)), at(e))
  }

  lemma BothSearch()
    ensures Searches(FirstAggregate, AggregateAt) && Searches(FirstVolatile, VolatileAt)
  {
    forall e ensures FirstAggregate(e) == OrElse(FindMap(FirstAggregate, Kids(e)), AggregateAt(e)) { AggregateStep(e); }
    forall e ensures FirstVolatile(e) == OrElse(VolatileAt(e), FindMap(FirstVolatile, Kids(e))) { VolatileStep(e); }
  }

  /** Nothing is found exactly when the node is nothing and nothing is found in its children. */
  lemma FindsNothing(find: Expr -> Option<Culprit>, at: Expr -> Option<Culprit>, e: Expr)
    requires Searches(find, at)
    ensures find(e).None? <==> at(e).None? && forall k | k in Kids(e) :: find(k).None?
    ensures find(e).Some? ==> find(e) == at(e) || exists k | k in Kids(e) :: find(k) == find(e)
  {
    FindMapFrom(find, Kids(e));
    assert find(e) == OrElse(at(e), FindMap(find, Kids(e))) || find(e) == OrElse(FindMap(find, Kids(e)), at(e));
  }

  lemma {:induction false} FoundExactly(find: Expr -> Option<Culprit>, at: Expr -> Option<Culprit>, e: Expr)
    requires Searches(find, at)
    ensures find(e).Some? ==> FoundWithin(at, find(e).value, e)
    ensures find(e).None? ==> forall x | Within(x, e) :: at(x).None?
    decreases e
  {
    FindsNothing(find, at, e);
    forall k | k in Kids(e)
      ensures k < e
      ensures find(k).Some? ==> FoundWithin(at, find(k).value, k)
      ensures find(k).None? ==> forall x | Within(x, k) :: at(x).None?
    {
      KidSmaller(e, k);
      FoundExactly(find, at, k);
    }
    assert Within(e, e);
    if find(e).Some? && find(e) != at(e) {
      var k :| k in Kids(e) && find(k) == find(e);
      var x :| Within(x, k) && at(x) == find(k);
      assert Within(x, e);
    }
  }

  /** The aggregate search names an aggregate of the tree, and finds nothing only when there is none. */
  lemma AggregateFoundExactly(e: Expr)
    ensures FirstAggregate(e).Some? ==> AggregateWithin(FirstAggregate(e).value, e)
    ensures FirstAggregate(e).None? ==> forall c :: !AggregateWithin(c, e)
  {
    BothSearch();
    FoundExactly(FirstAggregate, AggregateAt, e);
  }

  /** Likewise for uuid generators and `now`, through arguments, branches and every leg. */
  lemma VolatileFoundExactly(e: Expr)
    ensures FirstVolatile(e).Some? ==> VolatileWithin(FirstVolatile(e).value, e)
    ensures FirstVolatile(e).None? ==> forall c :: !VolatileWithin(c, e)
  {
    BothSearch();
    FoundExactly(FirstVolatile, VolatileAt, e);
  }

  /** An immutable context accepts an expression exactly when neither occurs in it. */
  lemma ImmutableExactly(e: Expr)
    ensures ValidateImmutable(e).Ok? <==> forall c :: !AggregateWithin(c, e) && !VolatileWithin(c, e)
    ensures ValidateImmutable(e).Ok? <==>
            forall x | Within(x, e) :: !x.Agg? && !x.UuidV4? && !x.UuidV7? && !(x.FnSynth? && x.synthFn.Now?)
    ensures (exists x | Within(x, e) :: x.Agg?) <==>
            ValidateImmutable(e).Err? && ValidateImmutable(e).error.AggregateInScalarContext?
  {
    AggregateFoundExactly(e);
    VolatileFoundExactly(e);
    forall x | Within(x, e)
      ensures x.Agg? ==> AggregateWithin(Aggregate(x.func), e)
      ensures x.UuidV4? ==> VolatileWithin(UuidV4Call, e)
      ensures x.UuidV7? ==> VolatileWithin(UuidV7Call, e)
      ensures x.FnSynth? && x.synthFn.Now? ==> VolatileWithin(NowCall, e)
    {
      assert AggregateAt(x).Some? ==> FoundWithin(AggregateAt, AggregateAt(x).value, e);
      assert VolatileAt(x).Some? ==> FoundWithin(VolatileAt, VolatileAt(x).value, e);
    }
  }

  /** A reported name is the name of a node of that kind in the tree. */
  lemma CulpritsAreNodes(e: Expr)
    ensures forall f :: AggregateWithin(Aggregate(f), e) <==> exists x | Within(x, e) :: x.Agg? && x.func == f
    ensures VolatileWithin(UuidV4Call, e) <==> exists x | Within(x, e) :: x.UuidV4?
    ensures VolatileWithin(UuidV7Call, e) <==> exists x | Within(x, e) :: x.UuidV7?
    ensures VolatileWithin(NowCall, e) <==> exists x | Within(x, e) :: x.FnSynth? && x.synthFn.Now?
  {
    forall x | Within(x, e)
      ensures forall f :: AggregateAt(x) == Some(Aggregate(f)) <==> x.Agg? && x.func == f
      ensures VolatileAt(x) == Some(UuidV4Call) <==> x.UuidV4?
      ensures VolatileAt(x) == Some(UuidV7Call) <==> x.UuidV7?
      ensures VolatileAt(x) == Some(NowCall) <==> x.FnSynth? && x.synthFn.Now?
    {}
  }

  /** Resolving legs adds no aggregate and nothing volatile. */
  lemma {:induction false} ResolutionStaysImmutable(target: Dialect, e: Expr)
    requires ValidateImmutable(e).Ok? && ResolveExpr(target, e).Some?
    ensures ValidateImmutable(ResolveExpr(target, e).value).Ok?
    decreases e, 1
  {
    BothSearch();
    FindsNothing(FirstAggregate, AggregateAt, e);
    FindsNothing(FirstVolatile, VolatileAt, e);
    if e.Dialectal? {
      var leg := SelectLeg(target, e).value;
      SelectLegSmaller(target, e);
      assert leg in Maybe(e.default) || leg in Maybe(e.pg) || leg in Maybe(e.sqlite) || leg in Maybe(e.mysql);
      assert leg in Kids(e);
      ResolutionStaysImmutable(target, leg);
    } else {
      var ks := ResolveKids(target, e, Kids(e)).value;
      ResolvedKidsImmutable(target, e, Kids(e));
      KidsRebuild(e, ks);
      FindsNothing(FirstAggregate, AggregateAt, Rebuild(e, ks));
      FindsNothing(FirstVolatile, VolatileAt, Rebuild(e, ks));
    }
  }

  lemma {:induction false} ResolvedKidsImmutable(target: Dialect, e: Expr, ks: seq<Expr>)
    requires forall k | k in ks :: k in Kids(e) && ValidateImmutable(k).Ok?
    requires ResolveKids(target, e, ks).Some?
    ensures forall k | k in ResolveKids(target, e, ks).value :: ValidateImmutable(k).Ok?
    decreases e, 0, |ks|
  {
    if ks == [] {
    } else {
      KidSmaller(e, ks[0]);
      ResolutionStaysImmutable(target, ks[0]);
      ResolvedKidsImmutable(target, e, ks[1..]);
    }
  }
}
