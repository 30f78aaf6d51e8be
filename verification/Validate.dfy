/** The structural expression validator: a recursive walk under a target dialect and a depth bound. */
module Validate {
  import opened Wrappers
  import opened Unicode
  import opened IrScalars
  import opened Exprs

  const MAX_EXPR_DEPTH: nat := 128
  const SPLIT_PART_MAX_N: int := 8

  /** `columns` is absent when the caller cannot resolve the table's columns. */
  datatype TargetScope = TargetScope(table: string, columns: Option<seq<string>>, onlyTargetQualifier: bool)

  datatype Ctx = Ctx(target: Dialect, scope: TargetScope)

  datatype Code = Unsupported | ExprNotPortable | DialectUnsupported

  /** The identifying fields of a refusal; `exprKind` tells whether it carries the `expr` kind. */
  datatype AuthoringError = AuthoringError(code: Code, exprKind: bool, dialect: Dialect)

  datatype Verdict = Accepted | Refused(error: AuthoringError) {
    predicate IsFailure() { Refused? }

    function PropagateFailure(): Verdict
      requires Refused?
    {
      this
    }
  }

  function Refuse(code: Code, exprKind: bool, dialect: Dialect): Verdict {
    Refused(AuthoringError(code, exprKind, dialect))
  }

  function AcceptIf(ok: bool, otherwise: Verdict): Verdict {
    if ok then Accepted else otherwise
  }

  // ---- local checks ------------------------------------------------------------------------

  function CheckColumn(ctx: Ctx, name: string, table: Option<string>): Verdict {
    match table
    case Some(qualifier) =>
      AcceptIf(!(ctx.scope.onlyTargetQualifier && qualifier != ctx.scope.table), Refuse(Unsupported, true, ctx.target))
    case None =>
      AcceptIf(ctx.scope.columns.Some? ==> name in ctx.scope.columns.value, Refuse(Unsupported, true, ctx.target))
  }

  function CheckPgOnly(ctx: Ctx): Verdict {
    AcceptIf(ctx.target.Postgres?, Refuse(Unsupported, true, ctx.target))
  }

  function CheckUuidV7(ctx: Ctx): Verdict {
    AcceptIf(ctx.target.Postgres?, Refuse(ExprNotPortable, false, ctx.target))
  }

  function CheckPgOrMysql(ctx: Ctx): Verdict {
    AcceptIf(!ctx.target.Sqlite?, Refuse(DialectUnsupported, true, ctx.target))
  }

  function CheckPgFirstAggregate(ctx: Ctx): Verdict {
    AcceptIf(ctx.target.Postgres?, Refuse(DialectUnsupported, true, ctx.target))
  }

  predicate IsPgFirst(f: AggFunc) {
    f.StringAgg? || f.ArrayAgg? || f.BoolAnd? || f.BoolOr?
  }

  /** Non-empty and free of NUL. */
  predicate IsPgText(s: string) {
    s != "" && 0 as char !in s
  }

  function CheckDuration(ctx: Ctx, d: Duration): Verdict {
    AcceptIf(!d.IsEmpty(), Refuse(Unsupported, true, ctx.target))
  }

  /** Grammar on every target, then the single-ASCII-delimiter, `n <= 8` envelope on all but Postgres. */
  function CheckSplitPart(ctx: Ctx, args: seq<Expr>): Verdict
    requires |args| == 3
  {
    if !(args[1].Literal? && args[1].value.Str?) then Refuse(ExprNotPortable, false, ctx.target)
    else if !(args[2].Literal? && args[2].value.Int? && args[2].value.i >= 1) then
      Refuse(ExprNotPortable, false, ctx.target)
    else if ctx.target.Postgres? then Accepted
    else
      var delim := Utf8(args[1].value.s);
      if |delim| != 1 || delim[0] >= 0x80 then Refuse(ExprNotPortable, false, Sqlite)
      else AcceptIf(args[2].value.i <= SPLIT_PART_MAX_N, Refuse(ExprNotPortable, false, Sqlite))
  }

  /** The documented call shape, and off Postgres one ASCII character and at most eight parts. */
  predicate SplitPartAdmissible(target: Dialect, args: seq<Expr>) {
    && |args| == 3
    && args[1].Literal? && args[1].value.Str?
    && args[2].Literal? && args[2].value.Int? && args[2].value.i >= 1
    && (!target.Postgres? ==> |args[1].value.s| == 1 && IsAscii(args[1].value.s) && args[2].value.i <= 8)
  }

  /**
   The byte test is the character test; the envelope binds MySQL as it binds SQLite, and a
   call refused only by the envelope is reported against SQLite whichever of them is targeted.
   */
  lemma SplitPartExactly(ctx: Ctx, args: seq<Expr>)
    requires |args| == 3
    ensures CheckSplitPart(ctx, args).Accepted? <==> SplitPartAdmissible(ctx.target, args)
    ensures CheckSplitPart(ctx, args).Refused? && SplitPartAdmissible(Postgres, args) ==>
            !ctx.target.Postgres? && CheckSplitPart(ctx, args).error.dialect == Sqlite
  {
    if args[1].Literal? && args[1].value.Str? { OneByteIsOneAsciiChar(args[1].value.s); }
  }

  /** A two-character delimiter: accepted for Postgres, refused for MySQL in SQLite's name. */
  lemma EnvelopeBindsMysql(scope: TargetScope)
    ensures var e := FnSynth(SplitPart, [Literal(IrScalar.Str("x")), Literal(IrScalar.Str("--")), Literal(Int(1))]);
            && ValidateExpr(e, Postgres, scope).Accepted?
            && ValidateExpr(e, Mysql, scope) == Refuse(ExprNotPortable, false, Sqlite)
  {
    var args := [Literal(IrScalar.Str("x")), Literal(IrScalar.Str("--")), Literal(Int(1))];
    forall ctx: Ctx ensures WalkAll(ctx, args, 1).Accepted? { LiteralsAccepted(ctx, args, 1); }
    SplitPartExactly(Ctx(Postgres, scope), args);
    SplitPartExactly(Ctx(Mysql, scope), args);
    OneByteIsOneAsciiChar("--");
  }

  lemma {:induction false} LiteralsAccepted(ctx: Ctx, es: seq<Expr>, depth: nat)
    requires depth < MAX_EXPR_DEPTH && forall e | e in es :: e.Literal?
    ensures WalkAll(ctx, es, depth).Accepted?
  {
    if es == [] {
    } else {
      LiteralsAccepted(ctx, es[1..], depth);
    }
  }

  lemma OneByteIsOneAsciiChar(s: string)
    ensures |Utf8(s)| == 1 && Utf8(s)[0] < 0x80 <==> |s| == 1 && IsAscii(s)
  {
    Utf8Size(s);
    if |s| == 1 { assert Utf8(s) == Utf8Char(s[0]) + Utf8(s[1..]) && s[1..] == ""; }
  }

  // ---- list membership elements --------------------------------------------------------------

  datatype ElemKind = TextKind | NumberKind | BoolKind | NullKind

  function KindOf(v: IrScalar): Option<ElemKind> {
    match v
    case Str(_) => Some(TextKind)
    case Int(_) => Some(NumberKind)
    case Int64(_) => Some(NumberKind)
    case Decimal(_) => Some(NumberKind)
    case Bool(_) => Some(BoolKind)
    case Null => Some(NullKind)
    case Bytes(_) => None
  }

  /** Admissible elements are homogeneous, and texts among them are renderable. */
  predicate AreListElems(elems: seq<IrScalar>) {
    && (forall i | 0 <= i < |elems| :: KindOf(elems[i]).Some? && KindOf(elems[i]) == KindOf(elems[0]))
    && (forall i | 0 <= i < |elems| :: elems[i].Str? ==> IsPgText(elems[i].s))
  }

  /** What a list may hold: renderable texts, numbers of any carrier, booleans or nulls, but one kind only. */
  predicate IsUniformList(elems: seq<IrScalar>) {
    || (forall e | e in elems :: e.Str? && e.s != "" && 0 as char !in e.s)
    || (forall e | e in elems :: e.Int? || e.Int64? || e.Decimal?)
    || (forall e | e in elems :: e.Bool?)
    || (forall e | e in elems :: e.Null?)
  }

  lemma UniformListExactly(elems: seq<IrScalar>)
    ensures AreListElems(elems) <==> IsUniformList(elems)
  {
    if elems == [] {
    } else {
      assert elems[0] in elems;
      assert forall i | 0 <= i < |elems| :: elems[i] in elems;
      if AreListElems(elems) {
        forall e | e in elems ensures KindOf(e) == KindOf(elems[0]) && (e.Str? ==> IsPgText(e.s)) {}
      }
    }
  }

  function CheckElems(ctx: Ctx, elems: seq<IrScalar>): Verdict {
    AcceptIf(AreListElems(elems), Refuse(Unsupported, true, ctx.target))
  }

  /** The element loop of `check_in_list`, tracking the kind first seen. */
  method CheckInListElems(ctx: Ctx, elems: seq<IrScalar>) returns (v: Verdict)
    ensures v == CheckElems(ctx, elems)
    ensures v.Accepted? <==> IsUniformList(elems)
  {
    UniformListExactly(elems);
    var firstKind: Option<ElemKind> := None;
    var i := 0;
    while i < |elems|
      invariant 0 <= i <= |elems|
      invariant AreListElems(elems[..i])
      invariant firstKind == if i == 0 then None else KindOf(elems[0])
    {
      var elem := elems[i];
      if elem.Str? && !IsPgText(elem.s) { return Refuse(Unsupported, true, ctx.target); }
      var kind := KindOf(elem);
      if kind.None? { return Refuse(Unsupported, true, ctx.target); }
      if firstKind.Some? {
        if kind != firstKind { return Refuse(Unsupported, true, ctx.target); }
      } else {
        firstKind := kind;
      }
      assert elems[..i + 1] == elems[..i] + [elem];
      i := i + 1;
    }
    assert elems[..i] == elems;
    v := Accepted;
  }

  // ---- the walk ------------------------------------------------------------------------------

  function Walk(ctx: Ctx, e: Expr, depth: nat): Verdict
    decreases e, 1
  {
    if depth >= MAX_EXPR_DEPTH then Refuse(Unsupported, true, ctx.target)
    else
      var d := depth + 1;
      match e
      case ColRef(name, table) => CheckColumn(ctx, name, table)
      case Literal(_) => Accepted
      case UuidV4 => Accepted
      case UuidV7 => CheckUuidV7(ctx)
      case BinOp(_, lhs, rhs) => :- Walk(ctx, lhs, d); Walk(ctx, rhs, d)
      case UnaryOp(_, x) => Walk(ctx, x, d)
      case Case(branches, otherwise) => :- WalkBranches(ctx, branches, d); WalkOptional(ctx, otherwise, d)
      case FnCall(f, args) =>
        :- if f.CurrentSetting? || f.CurrentUser? then CheckPgOnly(ctx) else Accepted;
        WalkAll(ctx, args, d)
      case FnSynth(f, args) => CheckSynth(ctx, f, args, d)
      case Cast(x, _) => Walk(ctx, x, d)
      case Between(x, low, high) => :- Walk(ctx, x, d); :- Walk(ctx, low, d); Walk(ctx, high, d)
      case Like(x, p) => :- Walk(ctx, x, d); Walk(ctx, p, d)
      case DistinctFrom(l, r) => :- Walk(ctx, l, d); Walk(ctx, r, d)
      case Agg(_, _, _, _) => CheckAgg(ctx, e, d)
      case InList(x, elems, _) => :- Walk(ctx, x, d); CheckElems(ctx, elems)
      case PgRegexMatch(x, regex) =>
        :- CheckPgOrMysql(ctx);
        :- Walk(ctx, x, d);
        AcceptIf(IsPgText(regex), Refuse(Unsupported, true, ctx.target))
      case PgColumnSize(x) => :- CheckPgOnly(ctx); Walk(ctx, x, d)
      case Extract(_, x) => Walk(ctx, x, d)
      case PgExtract(_, x) => :- CheckPgOnly(ctx); Walk(ctx, x, d)
      case PgInterval(duration) => :- CheckPgOnly(ctx); CheckDuration(ctx, duration)
      case Dialectal(_, _, _, _) => CheckDialectal(ctx, e, d)
  }

  function WalkAll(ctx: Ctx, es: seq<Expr>, depth: nat): Verdict
    decreases es, 0
  {
    if es == [] then Accepted
    else
      :- Walk(ctx, es[0], depth);
      WalkAll(ctx, es[1..], depth)
  }

  function WalkBranches(ctx: Ctx, branches: seq<CaseBranch>, depth: nat): Verdict
    decreases branches
  {
    if branches == [] then Accepted
    else
      :- WalkBranch(ctx, branches[0], depth);
      WalkBranches(ctx, branches[1..], depth)
  }

  function WalkBranch(ctx: Ctx, b: CaseBranch, depth: nat): Verdict
    decreases b
  {
    var when := Walk(ctx, b.when, depth);
    if when.Refused? then when else Walk(ctx, b.then_, depth)
  }

  function WalkOptional(ctx: Ctx, e: Option<Expr>, depth: nat): Verdict
    decreases e
  {
    match e case Some(x) => Walk(ctx, x, depth) case None => Accepted
  }

  function CheckSynth(ctx: Ctx, f: SynthFn, args: seq<Expr>, depth: nat): Verdict
    decreases args, 1
  {
    match f
    case SplitPart =>
      if |args| != 3 then Refuse(Unsupported, true, ctx.target)
      else
        :- WalkAll(ctx, args, depth);
        CheckSplitPart(ctx, args)
    case Now => AcceptIf(args == [], Refuse(Unsupported, true, ctx.target))
    case ConcatWs =>
      if |args| < 2 then Refuse(Unsupported, true, ctx.target)
      else if ctx.target.Sqlite? && !args[0].Literal? then Refuse(ExprNotPortable, false, Sqlite)
      else WalkAll(ctx, args, depth)
  }

  function CheckAgg(ctx: Ctx, e: Expr, depth: nat): Verdict
    requires e.Agg?
    decreases e, 0
  {
    var portable := if IsPgFirst(e.func) then CheckPgFirstAggregate(ctx) else Accepted;
    :- portable;
    :- if e.arg.None? && !e.func.Count? then Refuse(Unsupported, true, ctx.target)
       else WalkOptional(ctx, e.arg, depth);
    if e.func.StringAgg? then
      if e.delimiter.None? then Refuse(Unsupported, true, ctx.target) else WalkOptional(ctx, e.delimiter, depth)
    else AcceptIf(e.delimiter.None?, Refuse(Unsupported, true, ctx.target))
  }

  /** The leg a target renders, if the node has one of its own. */
  function OwnLeg(target: Dialect, e: Expr): Option<Expr>
    requires e.Dialectal?
  {
    match target case Postgres => e.pg case Sqlite => e.sqlite case Mysql => e.mysql
  }

  /** Every present leg under the dialect that would render it, the default under all; then coverage. */
  function CheckDialectal(ctx: Ctx, e: Expr, depth: nat): Verdict
    requires e.Dialectal?
    decreases e, 0
  {
    if e.default.None? && e.pg.None? && e.sqlite.None? && e.mysql.None? then Refuse(Unsupported, true, ctx.target)
    else
      :- WalkOptional(ctx.(target := Postgres), e.default, depth);
      :- WalkOptional(ctx.(target := Sqlite), e.default, depth);
      :- WalkOptional(ctx.(target := Mysql), e.default, depth);
      :- WalkOptional(ctx.(target := Postgres), e.pg, depth);
      :- WalkOptional(ctx.(target := Sqlite), e.sqlite, depth);
      :- WalkOptional(ctx.(target := Mysql), e.mysql, depth);
      AcceptIf(OwnLeg(ctx.target, e).Some? || e.default.Some?, Refuse(ExprNotPortable, true, ctx.target))
  }

  function ValidateExpr(e: Expr, target: Dialect, scope: TargetScope): Verdict {
    Walk(Ctx(target, scope), e, 0)
  }
}
