/**
 The wire form of typed scalars. Exact integers outside the JavaScript-safe range, decimals
 and bytes travel as tagged strings; a number on the wire is always a safe integer.
 */
module ScalarWire {
  import opened Wrappers
  import opened Numerals
  import opened Unicode
  import opened IrScalars
  import Json
  import JcsDecoder
  import JcsReadsBack

  const MAX_EXACT_INT: int := 0x20_0000_0000_0000
  const I64_MIN: int := -0x8000_0000_0000_0000
  const I64_MAX: int := 0x7FFF_FFFF_FFFF_FFFF

  /** The base64 library: an encoder and its strict decoder. */
  datatype Base64 = Base64(encode: Bytes -> string, decode: string -> Option<Bytes>)

  function Tagged(tag: string, text: string): Json.Json { Json.Object(map[tag := Json.Str(text)]) }

  function Serialize(v: IrScalar, codec: Base64): Json.Json {
    match v
    case Null => Json.Null
    case Bool(b) => Json.Bool(b)
    case Int(i) => Json.Number(i)
    case Str(s) => Json.Str(s)
    case Int64(i) => Tagged("int64", Json.IntText(i))
    case Decimal(text) => Tagged("decimal", text)
    case Bytes(payload) => Tagged("bytes", codec.encode(payload))
  }

  // ---- decimal texts ------------------------------------------------------------------------

  predicate AllDigits(s: string) { forall i | 0 <= i < |s| :: JcsDecoder.IsDigit(s[i]) }

  function WithoutSign(s: string): string {
    if s != "" && (s[0] == '-' || s[0] == '+') then s[1..] else s
  }

  /** Digits with at most one point among them, and at least one digit. */
  predicate IsPlainDecimal(body: string) {
    || (AllDigits(body) && body != "")
    || exists k | 0 <= k < |body| :: body[k] == '.' && AllDigits(body[..k]) && AllDigits(body[k + 1..]) && |body| >= 2
  }

  predicate IsDecimal(s: string) { IsPlainDecimal(WithoutSign(s)) }

  /** `is_decimal_string`: one pass with two flags. */
  method IsDecimalString(s: string) returns (r: bool)
    ensures r <==> IsDecimal(s)
  {
    var body := WithoutSign(s);
    if body == "" { return false; }
    var seenDot, seenDigit := false, false;
    ghost var dot: nat := |body|;
    var i := 0;
    while i < |body|
      invariant 0 <= i <= |body|
      invariant seenDot ==> dot < i && body[dot] == '.'
      invariant forall j | 0 <= j < i && !(seenDot && j == dot) :: JcsDecoder.IsDigit(body[j])
      invariant seenDigit <==> i > (if seenDot then 1 else 0)
    {
      if JcsDecoder.IsDigit(body[i]) {
        seenDigit := true;
      } else if body[i] == '.' && !seenDot {
        seenDot := true;
        dot := i;
      } else {
        NotPlain(body, i, seenDot, dot);
        return false;
      }
      i := i + 1;
    }
    r := seenDigit;
    if seenDot { PlainAt(body, dot); } else { assert AllDigits(body); }
  }

  lemma NotPlain(body: string, i: nat, seenDot: bool, dot: nat)
    requires i < |body| && !JcsDecoder.IsDigit(body[i]) && (body[i] == '.' ==> seenDot)
    requires seenDot ==> dot < i && body[dot] == '.'
    ensures !IsPlainDecimal(body)
  {
    forall k | 0 <= k < |body| && body[k] == '.'
      ensures !(AllDigits(body[..k]) && AllDigits(body[k + 1..]))
    {
      if i < k {
        assert body[..k][i] == body[i];
      } else if i > k {
        assert body[k + 1..][i - k - 1] == body[i];
      } else {
        assert body[..k][dot] == body[dot];
      }
    }
  }

  lemma PlainAt(body: string, dot: nat)
    requires dot < |body| && body[dot] == '.'
    requires forall j | 0 <= j < |body| && j != dot :: JcsDecoder.IsDigit(body[j])
    ensures IsPlainDecimal(body) <==> |body| >= 2
  {
    assert AllDigits(body[..dot]) && AllDigits(body[dot + 1..]);
    assert !JcsDecoder.IsDigit(body[dot]);
  }

  // ---- int64 texts --------------------------------------------------------------------------

  /** The standard integer parser: an optional sign, digits with any leading zeros, in range. */
  function ParseI64(s: string): Option<int> {
    var body := WithoutSign(s);
    if body == "" || !AllDigits(body) then None
    else
      var n := Value(10, JcsDecoder.DigitsOf(body));
      var v := if s[0] == '-' then -(n as int) else n;
      if I64_MIN <= v <= I64_MAX then Some(v) else None
  }

  /** The published pattern `^(0|-?[1-9][0-9]*)$`. */
  predicate MatchesInt64Pattern(s: string) {
    s == "0" || (var body := if s != "" && s[0] == '-' then s[1..] else s;
                 body != "" && AllDigits(body) && body[0] != '0')
  }

  /** The carrier accepts a text when it parses and prints back to itself. */
  function ReadInt64(s: string): Option<int> {
    match ParseI64(s)
    case Some(v) => if Json.IntText(v) == s then Some(v) else None
    case None => None
  }

  lemma ParseI64OfText(v: int)
    requires I64_MIN <= v <= I64_MAX
    ensures ParseI64(Json.IntText(v)) == Some(v) && ReadInt64(Json.IntText(v)) == Some(v)
  {
    var m: nat := if v < 0 then -v else v;
    JcsReadsBack.NatTextDigits(m);
    NumeralDenotes(10, m);
    assert AllDigits(Json.NatText(m)) && Value(10, JcsDecoder.DigitsOf(Json.NatText(m))) == m;
    var s := Json.IntText(v);
    if v < 0 { assert s[1..] == Json.NatText(m); }
    assert WithoutSign(s) == Json.NatText(m);
  }

  /** Texts the carrier accepts are exactly the matches of the published pattern in i64 range. */
  lemma Int64TextsExactly(s: string)
    ensures ReadInt64(s).Some? <==> MatchesInt64Pattern(s) && ParseI64(s).Some?
    ensures forall v :: ReadInt64(s) == Some(v) <==> Json.IntText(v) == s && I64_MIN <= v <= I64_MAX
    ensures MatchesInt64Pattern(s) <==> exists v :: Json.IntText(v) == s
  {
    forall v ensures ReadInt64(s) == Some(v) <==> Json.IntText(v) == s && I64_MIN <= v <= I64_MAX {
      if Json.IntText(v) == s && I64_MIN <= v <= I64_MAX { ParseI64OfText(v); }
    }
    if v :| Json.IntText(v) == s { TextMatchesPattern(v); }
    if MatchesInt64Pattern(s) { PatternIsText(s); }
  }

  lemma TextMatchesPattern(v: int)
    ensures MatchesInt64Pattern(Json.IntText(v))
  {
    var m: nat := if v < 0 then -v else v;
    JcsReadsBack.NatTextDigits(m);
    NumeralDenotes(10, m);
    var t := Json.NatText(m);
    if m == 0 {
      assert t == "0";
    } else {
      assert JcsDecoder.DigitsOf(t)[0] == JcsDecoder.DigitValue(t[0]);
      if v < 0 { assert ("-" + t)[1..] == t; }
    }
  }

  lemma PatternIsText(s: string)
    requires MatchesInt64Pattern(s)
    ensures exists v :: Json.IntText(v) == s && (ParseI64(s).Some? ==> ParseI64(s) == Some(v))
  {
    if s[0] == '-' {
      var n := PatternDigits(s[1..]);
      NegativePattern(s, n);
    } else {
      var n := PatternDigits(s);
      assert WithoutSign(s) == s && Json.IntText(n) == s;
    }
  }

  lemma NegativePattern(s: string, n: nat)
    requires s != "" && s[0] == '-' && AllDigits(s[1..]) && n > 0
    requires n == Value(10, JcsDecoder.DigitsOf(s[1..])) && Json.NatText(n) == s[1..]
    ensures Json.IntText(0 - n as int) == s && (ParseI64(s).Some? ==> ParseI64(s) == Some(0 - n as int))
  {
    assert s == "-" + s[1..];
  }

  /** Digits without a leading zero are the text of the number they denote. */
  lemma PatternDigits(body: string) returns (n: nat)
    requires AllDigits(body) && (body == "0" || (body != "" && body[0] != '0'))
    ensures n == Value(10, JcsDecoder.DigitsOf(body)) && Json.NatText(n) == body
    ensures body[0] != '0' ==> n > 0
  {
    var ds := JcsDecoder.DigitsOf(body);
    NumeralUnique(10, ds);
    assert Json.DigitText(ds) == body;
    n := Value(10, ds);
    if body[0] != '0' {
      LeadingDigitBound(10, ds);
      PowPositive(10, |ds| - 1);
    }
  }

  // ---- reading ------------------------------------------------------------------------------

  datatype WireError = InvalidNumeric | InvalidShape

  function Deserialize(j: Json.Json, codec: Base64): Result<IrScalar, WireError> {
    match j
    case Null => Ok(Null)
    case Bool(b) => Ok(Bool(b))
    case Str(s) => Ok(Str(s))
    case Number(n) => if -MAX_EXACT_INT < n < MAX_EXACT_INT then Ok(Int(n)) else Err(InvalidNumeric)
    case Object(fields) =>
      if |fields| != 1 then Err(InvalidShape)
      else if "int64" in fields then
        if !fields["int64"].Str? then Err(InvalidShape)
        else (match ReadInt64(fields["int64"].s) case Some(v) => Ok(Int64(v)) case None => Err(InvalidNumeric))
      else if "decimal" in fields then DeserializeDecimal(fields["decimal"])
      else if "bytes" in fields then
        if !fields["bytes"].Str? then Err(InvalidShape)
        else (match codec.decode(fields["bytes"].s) case Some(b) => Ok(Bytes(b)) case None => Err(InvalidShape))
      else Err(InvalidShape)
    case Array(_) => Err(InvalidShape)
  }

  function DeserializeDecimal(j: Json.Json): Result<IrScalar, WireError> {
    if !j.Str? then Err(InvalidShape)
    else if IsDecimal(j.s) then Ok(Decimal(j.s))
    else Err(InvalidNumeric)
  }

  /** The scalars the wire can carry. */
  ghost predicate Legal(v: IrScalar, codec: Base64) {
    match v
    case Int(i) => -MAX_EXACT_INT < i < MAX_EXACT_INT
    case Int64(i) => I64_MIN <= i <= I64_MAX
    case Decimal(text) => IsDecimal(text)
    case Bytes(payload) => codec.decode(codec.encode(payload)) == Some(payload)
    case _ => true
  }

  /** Reading back what was written returns the scalar. */
  lemma WireRoundTrip(v: IrScalar, codec: Base64)
    requires Legal(v, codec)
    ensures Deserialize(Serialize(v, codec), codec) == Ok(v)
  {
    match v
    case Int64(i) =>
      ParseI64OfText(i);
      TagSize("int64", Json.IntText(i));
    case Decimal(text) => TagSize("decimal", text);
    case Bytes(payload) => TagSize("bytes", codec.encode(payload));
    case _ =>
  }

  lemma TagSize(tag: string, text: string)
    ensures |map[tag := Json.Str(text)]| == 1
    ensures tag in map[tag := Json.Str(text)] && forall t | t != tag :: t !in map[tag := Json.Str(text)]
  {}

  /** Distinct scalars have distinct images. */
  lemma WireInjective(v: IrScalar, w: IrScalar, codec: Base64)
    requires Legal(v, codec) && Legal(w, codec) && Serialize(v, codec) == Serialize(w, codec)
    ensures v == w
  {
    WireRoundTrip(v, codec);
    WireRoundTrip(w, codec);
  }

  /** Whatever is accepted is legal, and apart from bytes it has a single spelling. */
  lemma AcceptedIsCanonical(j: Json.Json, codec: Base64)
    requires Deserialize(j, codec).Ok? && !Deserialize(j, codec).value.Bytes?
    ensures Legal(Deserialize(j, codec).value, codec)
    ensures Serialize(Deserialize(j, codec).value, codec) == j
  {
    if j.Object? {
      var tag := if "int64" in j.fields then "int64" else "decimal";
      SingleField(j.fields, tag);
    }
  }

  lemma SingleField(fields: map<string, Json.Json>, tag: string)
    requires |fields| == 1 && tag in fields
    ensures fields == map[tag := fields[tag]]
  {
    assert |fields.Keys - {tag}| == 0;
    forall k | k in fields ensures k == tag {
      assert k != tag ==> k in fields.Keys - {tag};
    }
  }

  // ---- the wire forms, spelled out ---------------------------------------------------------------

  function OneField(name: string, text: string): string {
    "{" + (("\"" + name + "\"") + (":" + Json.Quote(text)) + "}")
  }

  /** The canonical text of a one-field object. */
  lemma TaggedText(tag: string, text: string)
    requires Json.IsPlain(tag)
    ensures Json.Jcs(Tagged(tag, text)) == OneField(tag, text)
  {
    var fields := map[tag := Json.Str(text)];
    var v := Json.Object(fields);
    assert Json.Lists([tag], fields.Keys) && Json.Ascending([tag]);
    Json.AscendingUnique(Json.SortedKeys(fields.Keys), [tag]);
    Json.PlainIsVerbatim(tag);
    assert [tag][1..] == [];
    assert Json.Members(v, [tag]) == Json.Member(v, tag) + Json.MoreMembers(v, []);
  }

  /** What reaches the wire for the carriers that are not plain JSON: one tag each, integers in digits. */
  lemma WireTexts(v: IrScalar, codec: Base64)
    ensures v.Int64? ==> Json.Jcs(Serialize(v, codec)) == OneField("int64", Json.IntText(v.i))
    ensures v.Decimal? ==> Json.Jcs(Serialize(v, codec)) == OneField("decimal", v.text)
    ensures v.Bytes? ==> Json.Jcs(Serialize(v, codec)) == OneField("bytes", codec.encode(v.payload))
  {
    match v
    case Int64(i) => TaggedText("int64", Json.IntText(i));
    case Decimal(text) => TaggedText("decimal", text);
    case Bytes(payload) => TaggedText("bytes", codec.encode(payload));
    case _ =>
  }

  /** The numeric domains: magnitudes below 2^53 as numbers, the 64-bit range under the tag. */
  lemma WireDomain(codec: Base64, n: int)
    ensures Deserialize(Json.Number(n), codec) ==
            if -9_007_199_254_740_992 < n < 9_007_199_254_740_992 then Ok(Int(n)) else Err(InvalidNumeric)
    ensures Deserialize(Json.Object(map["int64" := Json.Str(Json.IntText(n))]), codec) ==
            if -9_223_372_036_854_775_808 <= n <= 9_223_372_036_854_775_807 then Ok(Int64(n)) else Err(InvalidNumeric)
  {
    var text := Json.IntText(n);
    TagSize("int64", text);
    InRangeExactly(n);
  }

  lemma InRangeExactly(n: int)
    ensures ReadInt64(Json.IntText(n)) == if I64_MIN <= n <= I64_MAX then Some(n) else None
  {
    Int64TextsExactly(Json.IntText(n));
    if ReadInt64(Json.IntText(n)).Some? { IntTextInjective(n, ReadInt64(Json.IntText(n)).value); }
  }

  lemma IntTextInjective(m: int, n: int)
    requires Json.IntText(m) == Json.IntText(n)
    ensures m == n
  {
    JcsReadsBack.ReadIntOfText(m, "");
    JcsReadsBack.ReadIntOfText(n, "");
  }

  ghost predicate SpellsDecimal(s: string, sign: string, whole: string, fraction: string) {
    && IsSign(sign) && AllDigits(whole) && AllDigits(fraction) && (whole != "" || fraction != "")
    && ((s == sign + whole && fraction == "") || s == sign + (whole + ("." + fraction)))
  }

  /** A decimal text is an optional sign, digits, and at most one point with digits on one side at least. */
  lemma DecimalsExactly(s: string)
    ensures IsDecimal(s) <==> exists sign, whole, fraction :: SpellsDecimal(s, sign, whole, fraction)
  {
    if IsDecimal(s) {
      var sign, whole, fraction := DecimalSpelled(s);
    }
    if sign, whole, fraction :| SpellsDecimal(s, sign, whole, fraction) {
      if s == sign + whole && fraction == "" {
        SignRemoved(sign, whole);
      } else {
        SignRemoved(sign, whole + ("." + fraction));
        PointFound(whole, fraction);
      }
    }
  }

  lemma DecimalSpelled(s: string) returns (sign: string, whole: string, fraction: string)
    requires IsDecimal(s)
    ensures SpellsDecimal(s, sign, whole, fraction)
  {
    sign := SignOf(s);
    var body := WithoutSign(s);
    if AllDigits(body) {
      whole, fraction := body, "";
    } else {
      var k :| 0 <= k < |body| && body[k] == '.' && AllDigits(body[..k]) && AllDigits(body[k + 1..]) && |body| >= 2;
      whole, fraction := body[..k], body[k + 1..];
      SplitAtPoint(body, k);
    }
  }

  lemma SignOf(s: string) returns (sign: string)
    ensures IsSign(sign) && s == sign + WithoutSign(s)
  {
    sign := s[..|s| - |WithoutSign(s)|];
  }

  lemma SplitAtPoint(body: string, k: nat)
    requires k < |body| && body[k] == '.'
    ensures body == body[..k] + ("." + body[k + 1..])
  {}

  predicate IsSign(s: string) { s == "" || s == "-" || s == "+" }

  lemma SignRemoved(sign: string, body: string)
    requires IsSign(sign) && body != "" && (JcsDecoder.IsDigit(body[0]) || body[0] == '.')
    ensures WithoutSign(sign + body) == body
  {}

  lemma PointFound(whole: string, fraction: string)
    requires AllDigits(whole) && AllDigits(fraction) && (whole != "" || fraction != "")
    ensures IsPlainDecimal(whole + ("." + fraction))
  {
    var body, k := whole + ("." + fraction), |whole|;
    assert body[k] == '.' && body[..k] == whole && body[k + 1..] == fraction;
  }
}
