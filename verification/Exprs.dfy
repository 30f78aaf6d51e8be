/** The closed expression AST, with a uniform view of the children of a node. */
module Exprs {
  import opened Wrappers
  import opened IrScalars

  datatype Dialect = Postgres | Sqlite | Mysql

  datatype BinaryOp = Eq | Ne | Lt | Le | Gt | Ge | And | Or | Add | Sub | Mul | Div | Concat
  datatype UnaryOperator = Not | IsNull | IsNotNull | IsTrue | IsFalse
  datatype ScalarFn =
    | Coalesce | Nullif | Lower | Upper | Trim | Length | Abs | Mod | Round | Floor | Ceil | Substr | Replace
    | CurrentSetting | CurrentUser
  datatype SynthFn = ConcatWs | SplitPart | Now
  datatype CastTarget = CastText | CastInt | CastReal | CastBoolean | CastBytes | CastUuid
  datatype ExtractField = Year | Month | Day | Hour | Minute | Dow
  datatype PgExtractField =
    | Second | Doy | Epoch | Quarter | Week | Isodow | Isoyear | Century | Decade | Millennium
    | Microseconds | Milliseconds | Timezone | TimezoneHour | TimezoneMinute
  datatype AggFunc = Count | Sum | Avg | Min | Max | StringAgg | ArrayAgg | BoolAnd | BoolOr

  datatype Duration = Duration(
    years: Option<int>, months: Option<int>, days: Option<int>,
    hours: Option<int>, minutes: Option<int>, seconds: Option<int>)
  {
    predicate IsEmpty() {
      years.None? && months.None? && days.None? && hours.None? && minutes.None? && seconds.None?
    }
  }

  datatype CaseBranch = CaseBranch(when: Expr, then_: Expr)

  datatype Expr =
    | ColRef(name: string, table: Option<string>)
    | Literal(value: IrScalar)
    | BinOp(op: BinaryOp, lhs: Expr, rhs: Expr)
    | UnaryOp(unary: UnaryOperator, operand: Expr)
    | Case(branches: seq<CaseBranch>, otherwise: Option<Expr>)
    | FnCall(scalarFn: ScalarFn, args: seq<Expr>)
    | FnSynth(synthFn: SynthFn, args: seq<Expr>)
    | UuidV4
    | UuidV7
    | Cast(operand: Expr, target: CastTarget)
    | Between(operand: Expr, low: Expr, high: Expr)
    | Like(operand: Expr, pattern: Expr)
    | DistinctFrom(left: Expr, right: Expr)
    | Agg(func: AggFunc, arg: Option<Expr>, delimiter: Option<Expr>, distinct: bool)
    | InList(expr: Expr, elems: seq<IrScalar>, negated: bool)
    | PgRegexMatch(expr: Expr, regex: string)
    | PgColumnSize(expr: Expr)
    | Extract(field: ExtractField, from: Expr)
    | PgExtract(pgField: PgExtractField, from: Expr)
    | PgInterval(duration: Duration)
    | Dialectal(default: Option<Expr>, pg: Option<Expr>, sqlite: Option<Expr>, mysql: Option<Expr>)

  // ---- children ------------------------------------------------------------------------

  function Maybe(e: Option<Expr>): seq<Expr> {
    match e case Some(x) => [x] case None => []
  }

  function BranchKids(branches: seq<CaseBranch>): (r: seq<Expr>)
    ensures |r| == 2 * |branches|
  {
    if branches == [] then [] else [branches[0].when, branches[0].then_] + BranchKids(branches[1..])
  }

  /** The children of a node, in the order the walkers visit them. */
  function Kids(e: Expr): seq<Expr> {
    match e
    case ColRef(_, _) => []
    case Literal(_) => []
    case BinOp(_, l, r) => [l, r]
    case UnaryOp(_, x) => [x]
    case Case(branches, otherwise) => BranchKids(branches) + Maybe(otherwise)
    case FnCall(_, args) => args
    case FnSynth(_, args) => args
    case UuidV4 => []
    case UuidV7 => []
    case Cast(x, _) => [x]
    case Between(x, lo, hi) => [x, lo, hi]
    case Like(x, p) => [x, p]
    case DistinctFrom(l, r) => [l, r]
    case Agg(_, arg, delimiter, _) => Maybe(arg) + Maybe(delimiter)
    case InList(x, _, _) => [x]
    case PgRegexMatch(x, _) => [x]
    case PgColumnSize(x) => [x]
    case Extract(_, x) => [x]
    case PgExtract(_, x) => [x]
    case PgInterval(_) => []
    case Dialectal(default, pg, sqlite, mysql) => Maybe(default) + Maybe(pg) + Maybe(sqlite) + Maybe(mysql)
  }

  lemma {:induction false} BranchKidSmaller(branches: seq<CaseBranch>, k: Expr)
    requires k in BranchKids(branches)
    ensures exists i | 0 <= i < |branches| :: k == branches[i].when || k == branches[i].then_
  {
    if k == branches[0].when || k == branches[0].then_ {
    } else {
      BranchKidSmaller(branches[1..], k);
      var i :| 0 <= i < |branches[1..]| && (k == branches[1..][i].when || k == branches[1..][i].then_);
      assert branches[1..][i] == branches[i + 1];
    }
  }

  lemma KidSmaller(e: Expr, k: Expr)
    requires k in Kids(e)
    ensures k < e
  {
    if e.Case? && k in BranchKids(e.branches) {
      BranchKidSmaller(e.branches, k);
    }
  }

  function Pairs(ks: seq<Expr>): seq<CaseBranch>
    requires |ks| % 2 == 0
  {
    if ks == [] then [] else [CaseBranch(ks[0], ks[1])] + Pairs(ks[2..])
  }

  /** The same node over other children. */
  function Rebuild(e: Expr, ks: seq<Expr>): Expr
    requires |ks| == |Kids(e)| && !e.Dialectal?
  {
    match e
    case BinOp(op, _, _) => BinOp(op, ks[0], ks[1])
    case UnaryOp(op, _) => UnaryOp(op, ks[0])
    case Case(branches, otherwise) =>
      Case(Pairs(ks[..2 * |branches|]), if otherwise.Some? then Some(ks[|ks| - 1]) else None)
    case FnCall(f, _) => FnCall(f, ks)
    case FnSynth(f, _) => FnSynth(f, ks)
    case Cast(_, target) => Cast(ks[0], target)
    case Between(_, _, _) => Between(ks[0], ks[1], ks[2])
    case Like(_, _) => Like(ks[0], ks[1])
    case DistinctFrom(_, _) => DistinctFrom(ks[0], ks[1])
    case Agg(func, arg, delimiter, distinct) =>
      Agg(func, if arg.Some? then Some(ks[0]) else None, if delimiter.Some? then Some(ks[|ks| - 1]) else None, distinct)
    case InList(_, elems, negated) => InList(ks[0], elems, negated)
    case PgRegexMatch(_, regex) => PgRegexMatch(ks[0], regex)
    case PgColumnSize(_) => PgColumnSize(ks[0])
    case Extract(field, _) => Extract(field, ks[0])
    case PgExtract(field, _) => PgExtract(field, ks[0])
    case ColRef(_, _) => e
    case Literal(_) => e
    case UuidV4 => e
    case UuidV7 => e
    case PgInterval(_) => e
  }

  lemma {:induction false} PairsKids(ks: seq<Expr>)
    requires |ks| % 2 == 0
    ensures |Pairs(ks)| == |ks| / 2 && BranchKids(Pairs(ks)) == ks
  {
    if ks == [] {
    } else {
      PairsKids(ks[2..]);
      assert Pairs(ks)[1..] == Pairs(ks[2..]);
      assert ks == [ks[0], ks[1]] + ks[2..];
    }
  }

  lemma KidsRebuild(e: Expr, ks: seq<Expr>)
    requires |ks| == |Kids(e)| && !e.Dialectal?
    ensures Kids(Rebuild(e, ks)) == ks && !Rebuild(e, ks).Dialectal?
  {
    if e.Case? { CaseKidsRebuild(e, ks); } else if e.Agg? { AggKidsRebuild(e, ks); }
  }

  lemma CaseKidsRebuild(e: Expr, ks: seq<Expr>)
    requires e.Case? && |ks| == |Kids(e)|
    ensures Kids(Rebuild(e, ks)) == ks
  {
    PairsKids(ks[..2 * |e.branches|]);
  }

  lemma AggKidsRebuild(e: Expr, ks: seq<Expr>)
    requires e.Agg? && |ks| == |Kids(e)|
    ensures Kids(Rebuild(e, ks)) == ks
  {}

  /** Rebuilding over the node's own children changes nothing. */
  lemma RebuildOwnKids(e: Expr)
    requires !e.Dialectal?
    ensures Rebuild(e, Kids(e)) == e
  {
    if e.Case? {
      var ks := Kids(e);
      assert ks[..2 * |e.branches|] == BranchKids(e.branches);
      PairsOfBranches(e.branches);
    } else if e.Agg? {
      assert e.arg.Some? ==> Kids(e)[0] == e.arg.value;
      assert e.delimiter.Some? ==> Kids(e)[|Kids(e)| - 1] == e.delimiter.value;
    }
  }

  lemma {:induction false} PairsOfBranches(branches: seq<CaseBranch>)
    ensures Pairs(BranchKids(branches)) == branches
  {
    if branches == [] {
    } else {
      var ks := BranchKids(branches);
      assert ks[2..] == BranchKids(branches[1..]);
      PairsOfBranches(branches[1..]);
      assert branches == [branches[0]] + branches[1..];
    }
  }

  /** The second rebuilding is the one that counts: no trace of the first children is left. */
  lemma RebuildTwice(e: Expr, ks: seq<Expr>, ls: seq<Expr>)
    requires !e.Dialectal? && |ks| == |ls| == |Kids(e)|
    ensures Kids(Rebuild(e, ks)) == ks && Rebuild(Rebuild(e, ks), ls) == Rebuild(e, ls)
  {
    KidsRebuild(e, ks);
    if e.Case? { CaseRebuiltTwice(e, ks, ls); } else if e.Agg? { AggRebuiltTwice(e, ks, ls); }
  }

  lemma CaseRebuiltTwice(e: Expr, ks: seq<Expr>, ls: seq<Expr>)
    requires e.Case? && |ks| == |ls| == |Kids(e)|
    ensures |Kids(Rebuild(e, ks))| == |ls| && Rebuild(Rebuild(e, ks), ls) == Rebuild(e, ls)
  {
    KidsRebuild(e, ks);
    PairsKids(ks[..2 * |e.branches|]);
  }

  lemma AggRebuiltTwice(e: Expr, ks: seq<Expr>, ls: seq<Expr>)
    requires e.Agg? && |ks| == |ls| == |Kids(e)|
    ensures |Kids(Rebuild(e, ks))| == |ls| && Rebuild(Rebuild(e, ks), ls) == Rebuild(e, ls)
  {
    KidsRebuild(e, ks);
  }
}
