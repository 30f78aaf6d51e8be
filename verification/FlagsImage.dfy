/** The serialized flags record the checksum folds, field by field in declaration order. */
module FlagsImage {
  import opened Wrappers
  import opened Sequences
  import opened Numerals
  import opened Json
  import opened JcsDecoder
  import opened JcsReadsBack
  import opened JcsCanonical
  import opened Envelope

  const FIELD_NAMES: seq<string> := [
    "transactional", "destructive", "online", "requires_approval",
    "timeout_ms", "lock_timeout_ms", "phase", "repeatable", "engine_goodie_ddl"
  ]

  datatype FieldValue = Flag(on: bool) | Budget(ms: Option<nat>) | Phase(phase: Option<OnlinePhase>)

  function FieldAt(f: MigrationFlags, i: nat): FieldValue {
    if i == 0 then Flag(f.transactional)
    else if i == 1 then Flag(f.destructive)
    else if i == 2 then Flag(f.online)
    else if i == 3 then Flag(f.requiresApproval)
    else if i == 4 then Budget(f.timeoutMs)
    else if i == 5 then Budget(f.lockTimeoutMs)
    else if i == 6 then Phase(f.phase)
    else if i == 7 then Flag(f.repeatable)
    else Flag(f.engineGoodieDdl)
  }

  function FieldValues(f: MigrationFlags): seq<FieldValue> { seq(9, i requires 0 <= i => FieldAt(f, i)) }

  function ValueText(v: FieldValue): string {
    match v
    case Flag(on) => if on then "true" else "false"
    case Budget(Some(ms)) => NatText(ms)
    case Phase(Some(Expand)) => "\"Expand\""
    case Phase(Some(Contract)) => "\"Contract\""
    case Budget(None) => "null"
    case Phase(None) => "null"
  }

  /** Named values from one on, each behind a separator. */
  function Record(separator: string, names: seq<string>, values: seq<FieldValue>): string
    requires |names| == |values|
    decreases names
  {
    if names == [] then "}"
    else (separator + ("\"" + (names[0] + "\":"))) + (ValueText(values[0]) + Record(",", names[1..], values[1..]))
  }

  function FlagsJson(f: MigrationFlags): string { Record("{", FIELD_NAMES, FieldValues(f)) }

  // ---- a record determines its values --------------------------------------------------------

  predicate Ends(s: string) { s != "" && (s[0] == ',' || s[0] == '}') }

  predicate Solid(s: string) { forall i | 0 <= i < |s| :: s[i] != ',' && s[i] != '}' }

  /** How far a value runs: to the first separator. */
  function StopAt(s: string): nat {
    if s == "" || Ends(s) then 0 else 1 + StopAt(s[1..])
  }

  lemma {:induction false} StopsAfter(a: string, x: string)
    requires Solid(a) && Ends(x)
    ensures StopAt(a + x) == |a|
  {
    if a == "" {
      assert a + x == x;
    } else {
      assert (a + x)[1..] == a[1..] + x;
      StopsAfter(a[1..], x);
    }
  }

  lemma ValueCancel(key: string, a: string, b: string, x: string, y: string)
    requires key + (a + x) == key + (b + y)
    requires Solid(a) && Solid(b) && Ends(x) && Ends(y)
    ensures a == b && x == y
  {
    SplitEqual(key, key, a + x, b + y);
    StopsAfter(a, x);
    StopsAfter(b, y);
    SplitEqual(a, b, x, y);
  }

  lemma ValueTextSolid(v: FieldValue)
    ensures Solid(ValueText(v))
  {
    if v.Budget? && v.ms.Some? { NatTextDigits(v.ms.value); }
  }

  predicate SameKind(v: FieldValue, w: FieldValue) {
    (v.Flag? <==> w.Flag?) && (v.Budget? <==> w.Budget?)
  }

  lemma ValueTextInjective(v: FieldValue, w: FieldValue)
    requires SameKind(v, w) && ValueText(v) == ValueText(w)
    ensures v == w
  {
    match v
    case Flag(_) => assert "true"[0] == 't' && "false"[0] == 'f';
    case Budget(_) => BudgetTextInjective(v.ms, w.ms);
    case Phase(_) => assert "\"Expand\""[1] == 'E' && "\"Contract\""[1] == 'C' && "null"[1] == 'u';
  }

  lemma BudgetTextInjective(m: Option<nat>, n: Option<nat>)
    requires ValueText(Budget(m)) == ValueText(Budget(n))
    ensures m == n
  {
    if m.Some? { NatTextDigits(m.value); NumeralDenotes(10, m.value); }
    if n.Some? { NatTextDigits(n.value); NumeralDenotes(10, n.value); }
    assert !IsDigit("null"[0]);
  }

  lemma {:induction false} RecordInjective(separator: string, names: seq<string>,
                                          vs: seq<FieldValue>, ws: seq<FieldValue>)
    requires |names| == |vs| == |ws| && forall i | 0 <= i < |vs| :: SameKind(vs[i], ws[i])
    requires Record(separator, names, vs) == Record(separator, names, ws)
    ensures vs == ws
    decreases names
  {
    if names == [] {
    } else {
      ValueTextSolid(vs[0]);
      ValueTextSolid(ws[0]);
      ValueCancel(separator + ("\"" + (names[0] + "\":")), ValueText(vs[0]), ValueText(ws[0]),
                  Record(",", names[1..], vs[1..]), Record(",", names[1..], ws[1..]));
      ValueTextInjective(vs[0], ws[0]);
      RecordInjective(",", names[1..], vs[1..], ws[1..]);
      assert vs == [vs[0]] + vs[1..] && ws == [ws[0]] + ws[1..];
    }
  }

  lemma FieldValuesInjective(f: MigrationFlags, g: MigrationFlags)
    requires FieldValues(f) == FieldValues(g)
    ensures f == g
  {
    assert forall i | 0 <= i < 9 :: FieldAt(f, i) == FieldValues(f)[i] == FieldValues(g)[i] == FieldAt(g, i);
    assert FieldAt(f, 0) == FieldAt(g, 0) && FieldAt(f, 1) == FieldAt(g, 1) && FieldAt(f, 2) == FieldAt(g, 2);
    assert FieldAt(f, 3) == FieldAt(g, 3) && FieldAt(f, 4) == FieldAt(g, 4) && FieldAt(f, 5) == FieldAt(g, 5);
    assert FieldAt(f, 6) == FieldAt(g, 6) && FieldAt(f, 7) == FieldAt(g, 7) && FieldAt(f, 8) == FieldAt(g, 8);
  }

  /** Any flipped flag, budget or phase changes the serialized record. */
  lemma FlagsJsonInjective(f: MigrationFlags, g: MigrationFlags)
    requires FlagsJson(f) == FlagsJson(g)
    ensures f == g
  {
    assert |FIELD_NAMES| == 9;
    FlagsRecordInjective("{", FIELD_NAMES, f, g);
  }

  lemma FlagsRecordInjective(separator: string, names: seq<string>, f: MigrationFlags, g: MigrationFlags)
    requires |names| == 9 && Record(separator, names, FieldValues(f)) == Record(separator, names, FieldValues(g))
    ensures f == g
  {
    FieldValuesAlike(f, g);
    RecordInjective(separator, names, FieldValues(f), FieldValues(g));
    FieldValuesInjective(f, g);
  }

  lemma FieldValuesAlike(f: MigrationFlags, g: MigrationFlags)
    ensures forall i | 0 <= i < 9 :: SameKind(FieldAt(f, i), FieldAt(g, i))
  {}

  // ---- size ----------------------------------------------------------------------------------

  /** The budgets are 64-bit. */
  predicate FlagsInRange(f: MigrationFlags) {
    && (f.timeoutMs.Some? ==> f.timeoutMs.value <= U64_MAX)
    && (f.lockTimeoutMs.Some? ==> f.lockTimeoutMs.value <= U64_MAX)
  }

  lemma ValueTextSize(v: FieldValue)
    requires v.Budget? && v.ms.Some? ==> v.ms.value <= U64_MAX
    ensures |ValueText(v)| <= 20
  {
    if v.Budget? && v.ms.Some? {
      MachineWidths();
      NumeralFits(10, 20, v.ms.value);
      NumeralDenotes(10, v.ms.value);
    }
  }

  lemma {:induction false} RecordSize(separator: string, names: seq<string>, values: seq<FieldValue>)
    requires |separator| == 1 && |names| == |values| && forall n | n in names :: |n| <= 20
    requires forall v | v in values :: v.Budget? && v.ms.Some? ==> v.ms.value <= U64_MAX
    ensures |Record(separator, names, values)| <= 1 + 50 * |names|
    decreases names
  {
    if names == [] {
    } else {
      ValueTextSize(values[0]);
      RecordSize(",", names[1..], values[1..]);
    }
  }

  lemma FieldNamesShape()
    ensures |FIELD_NAMES| == 9
    ensures forall i | 0 <= i < |FIELD_NAMES| :: |FIELD_NAMES[i]| <= 20
  {}

  lemma FlagsJsonSize(f: MigrationFlags)
    requires FlagsInRange(f)
    ensures |FlagsJson(f)| <= 500
  {
    FieldNamesShape();
    RecordSize("{", FIELD_NAMES, FieldValues(f));
  }

  // ---- the record as JSON ----------------------------------------------------------------------

  /** The members of the record, as its declaration lists them. */
  function FlagEntries(f: MigrationFlags): seq<Entry> {
    [Entry("transactional", Json.Bool(f.transactional)),
     Entry("destructive", Json.Bool(f.destructive)),
     Entry("online", Json.Bool(f.online)),
     Entry("requires_approval", Json.Bool(f.requiresApproval)),
     Entry("timeout_ms", BudgetJson(f.timeoutMs)),
     Entry("lock_timeout_ms", BudgetJson(f.lockTimeoutMs)),
     Entry("phase", PhaseJson(f.phase)),
     Entry("repeatable", Json.Bool(f.repeatable)),
     Entry("engine_goodie_ddl", Json.Bool(f.engineGoodieDdl))]
  }

  function BudgetJson(ms: Option<nat>): Json { if ms.Some? then Number(ms.value) else Null }

  function PhaseJson(phase: Option<OnlinePhase>): Json {
    match phase case Some(Expand) => Str("Expand") case Some(Contract) => Str("Contract") case None => Null
  }

  /** The serialized flags read as a JSON object with those members, in that order, and nothing more. */
  lemma FlagsJsonReads(f: MigrationFlags)
    ensures FlagsJson(f) != "" && FlagsJson(f)[0] == '{'
    ensures ReadMembers(FlagsJson(f)[1..]) == Some(Read(FlagEntries(f), ""))
  {
    FieldsMatch(f);
    RecordReads(FIELD_NAMES, FieldValues(f), FlagEntries(f));
  }

  lemma RecordReads(names: seq<string>, values: seq<FieldValue>, es: seq<Entry>)
    requires |names| == |values| == |es| > 0
    requires forall i | 0 <= i < |es| :: Matches(names[i], values[i], es[i])
    ensures var s := Record("{", names, values); s != "" && s[0] == '{' && ReadMembers(s[1..]) == Some(Read(es, ""))
  {
    RecordIsEntries("{", names, values, es);
    assert ("{" + EntriesText(es))[1..] == EntriesText(es);
    EntriesReadBack(es, "");
    assert EntriesText(es) + "" == EntriesText(es);
  }

  ghost predicate Matches(name: string, v: FieldValue, e: Entry) {
    e.key == name && IsPlain(name) && ValueText(v) == Jcs(e.value)
  }

  lemma FlagMatches(name: string, on: bool)
    requires IsPlain(name)
    ensures Matches(name, Flag(on), Entry(name, Json.Bool(on)))
  {}

  lemma BudgetMatches(name: string, ms: Option<nat>)
    requires IsPlain(name)
    ensures Matches(name, Budget(ms), Entry(name, BudgetJson(ms)))
  {}

  lemma PhaseMatches(name: string, phase: Option<OnlinePhase>)
    requires IsPlain(name)
    ensures Matches(name, Phase(phase), Entry(name, PhaseJson(phase)))
  {
    match phase
    case None =>
    case Some(Expand) => WordMatches(name, Phase(phase), "Expand");
    case Some(Contract) => WordMatches(name, Phase(phase), "Contract");
  }

  lemma WordMatches(name: string, v: FieldValue, word: string)
    requires IsPlain(name) && IsPlain(word) && ValueText(v) == "\"" + word + "\""
    ensures Matches(name, v, Entry(name, Str(word)))
  {
    PlainIsVerbatim(word);
  }

  lemma FieldsMatch(f: MigrationFlags)
    ensures forall i | 0 <= i < 9 :: Matches(FIELD_NAMES[i], FieldAt(f, i), FlagEntries(f)[i])
  {
    NamesPlain();
    FlagMatches(FIELD_NAMES[0], f.transactional);
    FlagMatches(FIELD_NAMES[1], f.destructive);
    FlagMatches(FIELD_NAMES[2], f.online);
    FlagMatches(FIELD_NAMES[3], f.requiresApproval);
    BudgetMatches(FIELD_NAMES[4], f.timeoutMs);
    BudgetMatches(FIELD_NAMES[5], f.lockTimeoutMs);
    PhaseMatches(FIELD_NAMES[6], f.phase);
    FlagMatches(FIELD_NAMES[7], f.repeatable);
    FlagMatches(FIELD_NAMES[8], f.engineGoodieDdl);
  }

  lemma NamesPlain()
    ensures |FIELD_NAMES| == 9 && forall i | 0 <= i < 9 :: IsPlain(FIELD_NAMES[i])
  {}

  lemma {:induction false} RecordIsEntries(separator: string, names: seq<string>,
                                          values: seq<FieldValue>, es: seq<Entry>)
    requires |names| == |values| == |es|
    requires forall i | 0 <= i < |es| :: Matches(names[i], values[i], es[i])
    ensures es != [] ==> Record(separator, names, values) == separator + EntriesText(es)
    ensures separator == "," ==> Record(separator, names, values) == MoreEntriesText(es)
    decreases es
  {
    if es == [] {
    } else {
      RecordIsEntries(",", names[1..], values[1..], es[1..]);
      PlainIsVerbatim(names[0]);
      NamedValue(separator, names[0], ValueText(values[0]), MoreEntriesText(es[1..]));
    }
  }

  lemma NamedValue(separator: string, name: string, value: string, rest: string)
    requires Escaped(name) == name
    ensures (separator + ("\"" + (name + "\":"))) + (value + rest) == separator + ((Quote(name) + (":" + value)) + rest)
  {
    Associate(separator, "\"" + (name + "\":"), value + rest);
    assert ("\"" + (name + "\":")) + (value + rest) == (Quote(name) + (":" + value)) + rest;
  }

  lemma EntryReadsBack(e: Entry, rest: string)
    requires !StartsWithDigit(rest)
    ensures ReadMember(EntryText(e) + rest) == Some(Read(e, rest))
  {
    ReadsBackMember(Object(map[e.key := e.value]), e.key, rest);
  }

  lemma {:induction false} MoreEntriesReadBack(es: seq<Entry>, rest: string)
    ensures ReadMoreMembers(MoreEntriesText(es) + rest) == Some(Read(es, rest))
    decreases es, 1
  {
    if es == [] {
      Split("}", rest);
    } else {
      MemberThenMoreReadsBack(es, rest);
      Associate(",", EntryText(es[0]) + MoreEntriesText(es[1..]), rest);
      Associate(EntryText(es[0]), MoreEntriesText(es[1..]), rest);
      Split(",", EntryText(es[0]) + (MoreEntriesText(es[1..]) + rest));
    }
  }

  lemma {:induction false} MemberThenMoreReadsBack(es: seq<Entry>, rest: string)
    requires es != []
    ensures ReadMemberThenMore(EntryText(es[0]) + (MoreEntriesText(es[1..]) + rest)) == Some(Read(es, rest))
    decreases es, 0
  {
    EntryReadsBack(es[0], MoreEntriesText(es[1..]) + rest);
    MoreEntriesReadBack(es[1..], rest);
    assert [es[0]] + es[1..] == es;
  }

  lemma EntriesReadBack(es: seq<Entry>, rest: string)
    requires es != []
    ensures ReadMembers(EntriesText(es) + rest) == Some(Read(es, rest))
  {
    MemberThenMoreReadsBack(es, rest);
    Associate(EntryText(es[0]), MoreEntriesText(es[1..]), rest);
  }
}
