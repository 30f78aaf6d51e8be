/** The PostgreSQL type references admitted in function signatures. */
module TypeRefs {
  import opened Wrappers
  import opened Sequences
  import opened Unicode

  predicate IsDigitByte(b: Byte) { 48 <= b < 58 }

  predicate IsIdentStart(b: Byte) { 65 <= b < 91 || 97 <= b < 123 || b == 95 }

  predicate IsIdentContinue(b: Byte) { IsIdentStart(b) || IsDigitByte(b) }

  const DOT: Byte := 46
  const COMMA: Byte := 44
  const OPEN: Byte := 40
  const CLOSE: Byte := 41
  const LEFT: Byte := 91
  const RIGHT: Byte := 93

  // ---- the language -------------------------------------------------------------------------

  /** A reference: an optional qualifier, a name, up to two size arguments, and array dimensions. */
  datatype TypeRef = TypeRef(qualifier: Option<Bytes>, name: Bytes, args: TypeArgs, dimensions: nat)

  datatype TypeArgs = NoArgs | OneArg(digits: Bytes) | TwoArgs(first: Bytes, second: Bytes)

  predicate InRange(b: Byte, low: char, high: char) { low as int <= b <= high as int }

  predicate IsNameByte(b: Byte) { InRange(b, 'A', 'Z') || InRange(b, 'a', 'z') || b == '_' as int }

  /** A letter or underscore, then letters, digits and underscores. */
  predicate IsIdent(s: Bytes) {
    s != [] && IsNameByte(s[0]) && forall i | 0 <= i < |s| :: IsNameByte(s[i]) || InRange(s[i], '0', '9')
  }

  predicate IsDigits(s: Bytes) { s != [] && forall i | 0 <= i < |s| :: InRange(s[i], '0', '9') }

  predicate WellFormed(t: TypeRef) {
    && (t.qualifier.Some? ==> IsIdent(t.qualifier.value)) && IsIdent(t.name)
    && (match t.args
        case NoArgs => true
        case OneArg(d) => IsDigits(d)
        case TwoArgs(d, e) => IsDigits(d) && IsDigits(e))
  }

  function NameText(t: TypeRef): Bytes {
    match t.qualifier case Some(q) => q + (['.' as int] + t.name) case None => t.name
  }

  function ArgsText(a: TypeArgs): Bytes {
    match a
    case NoArgs => []
    case OneArg(d) => ['(' as int] + (d + [')' as int])
    case TwoArgs(d, e) => ['(' as int] + (d + ([',' as int] + (e + [')' as int])))
  }

  function DimensionsText(n: nat): Bytes {
    if n == 0 then [] else ['[' as int, ']' as int] + DimensionsText(n - 1)
  }

  function Render(t: TypeRef): Bytes { NameText(t) + (ArgsText(t.args) + DimensionsText(t.dimensions)) }

  ghost predicate IsTypeRef(s: Bytes) { exists t :: WellFormed(t) && Render(t) == s }

  // ---- scanning ------------------------------------------------------------------------------

  function IdentRun(s: Bytes): (k: nat)
    ensures k <= |s| && (forall i | 0 <= i < k :: IsIdentContinue(s[i])) && (k < |s| ==> !IsIdentContinue(s[k]))
  {
    if s != [] && IsIdentContinue(s[0]) then 1 + IdentRun(s[1..]) else 0
  }

  function DigitRun(s: Bytes): (k: nat)
    ensures k <= |s| && (forall i | 0 <= i < k :: IsDigitByte(s[i])) && (k < |s| ==> !IsDigitByte(s[k]))
  {
    if s != [] && IsDigitByte(s[0]) then 1 + DigitRun(s[1..]) else 0
  }

  predicate Starts(s: Bytes, b: Byte) { s != [] && s[0] == b }

  /** What is left after an identifier, if there is one. */
  function AfterIdent(s: Bytes): Option<Bytes> {
    if s != [] && IsIdentStart(s[0]) then Some(s[IdentRun(s)..]) else None
  }

  function AfterName(s: Bytes): Option<Bytes> {
    var rest :- AfterIdent(s);
    if !Starts(rest, DOT) then Some(rest)
    else
      var last :- AfterIdent(rest[1..]);
      if Starts(last, DOT) then None else Some(last)
  }

  function AfterDigits(s: Bytes): Option<Bytes> {
    if DigitRun(s) > 0 then Some(s[DigitRun(s)..]) else None
  }

  function AfterClose(s: Bytes): Option<Bytes> {
    if Starts(s, CLOSE) then Some(s[1..]) else None
  }

  function AfterSecond(s: Bytes): Option<Bytes> {
    if !Starts(s, COMMA) then AfterClose(s)
    else
      var rest :- AfterDigits(s[1..]);
      AfterClose(rest)
  }

  function AfterArgs(s: Bytes): Option<Bytes> {
    if !Starts(s, OPEN) then Some(s)
    else
      var rest :- AfterDigits(s[1..]);
      AfterSecond(rest)
  }

  predicate OnlyDimensions(s: Bytes) {
    s == [] || (|s| >= 2 && s[0] == LEFT && s[1] == RIGHT && OnlyDimensions(s[2..]))
  }

  predicate Scans(s: Bytes) {
    match AfterName(s)
    case None => false
    case Some(rest) => (match AfterArgs(rest) case None => false case Some(tail) => OnlyDimensions(tail))
  }

  // ---- the scanner accepts every reference ------------------------------------------------------

  lemma AfterIdentText(p: Bytes, rest: Bytes)
    requires IsIdent(p) && (rest != [] ==> !IsIdentContinue(rest[0]))
    ensures AfterIdent(p + rest) == Some(rest)
  {
    var s := p + rest;
    Split(p, rest);
    assert forall i | 0 <= i < |p| :: s[i] == p[i];
    assert rest != [] ==> s[|p|] == rest[0];
  }

  lemma AfterDigitsText(p: Bytes, rest: Bytes)
    requires IsDigits(p) && (rest != [] ==> !IsDigitByte(rest[0]))
    ensures AfterDigits(p + rest) == Some(rest)
  {
    var s := p + rest;
    Split(p, rest);
    assert forall i | 0 <= i < |p| :: s[i] == p[i];
    assert rest != [] ==> s[|p|] == rest[0];
  }

  lemma AfterNameText(t: TypeRef, rest: Bytes)
    requires WellFormed(t) && (rest != [] ==> rest[0] == OPEN || rest[0] == LEFT)
    ensures AfterName(NameText(t) + rest) == Some(rest)
  {
    match t.qualifier
    case None => AfterIdentText(t.name, rest);
    case Some(q) =>
      var after := [DOT] + (t.name + rest);
      Associate(q, [DOT] + t.name, rest);
      Associate([DOT], t.name, rest);
      AfterIdentText(q, after);
      AfterIdentText(t.name, rest);
      Split([DOT], t.name + rest);
  }

  lemma AfterArgsText(a: TypeArgs, rest: Bytes)
    requires a.OneArg? ==> IsDigits(a.digits)
    requires a.TwoArgs? ==> IsDigits(a.first) && IsDigits(a.second)
    requires !Starts(rest, OPEN)
    ensures AfterArgs(ArgsText(a) + rest) == Some(rest)
  {
    match a
    case NoArgs => assert [] + rest == rest;
    case OneArg(d) =>
      Associate([OPEN], d + [CLOSE], rest);
      Associate(d, [CLOSE], rest);
      Split([OPEN], d + ([CLOSE] + rest));
      Split([CLOSE], rest);
      AfterDigitsText(d, [CLOSE] + rest);
    case TwoArgs(d, e) =>
      var tail := [COMMA] + (e + ([CLOSE] + rest));
      assert ArgsText(a) + rest == [OPEN] + (d + tail);
      Split([OPEN], d + tail);
      AfterDigitsText(d, tail);
      Split([COMMA], e + ([CLOSE] + rest));
      AfterDigitsText(e, [CLOSE] + rest);
      Split([CLOSE], rest);
  }

  lemma {:induction false} DimensionsScan(n: nat)
    ensures OnlyDimensions(DimensionsText(n))
  {
    if n == 0 {
    } else {
      DimensionsScan(n - 1);
      assert DimensionsText(n)[2..] == DimensionsText(n - 1);
    }
  }

  lemma EveryReferenceScans(t: TypeRef)
    requires WellFormed(t)
    ensures Scans(Render(t))
  {
    AfterNameText(t, ArgsText(t.args) + DimensionsText(t.dimensions));
    AfterArgsText(t.args, DimensionsText(t.dimensions));
    DimensionsScan(t.dimensions);
  }

  // ---- and nothing else ---------------------------------------------------------------------------

  lemma IdentOf(s: Bytes)
    requires AfterIdent(s).Some?
    ensures IsIdent(s[..IdentRun(s)]) && s == s[..IdentRun(s)] + AfterIdent(s).value
  {}

  lemma NameOf(s: Bytes) returns (qualifier: Option<Bytes>, name: Bytes)
    requires AfterName(s).Some?
    ensures (qualifier.Some? ==> IsIdent(qualifier.value)) && IsIdent(name)
    ensures s == NameText(TypeRef(qualifier, name, NoArgs, 0)) + AfterName(s).value
  {
    IdentOf(s);
    var first, rest := s[..IdentRun(s)], AfterIdent(s).value;
    if Starts(rest, DOT) {
      IdentOf(rest[1..]);
      qualifier, name := Some(first), rest[1..][..IdentRun(rest[1..])];
      assert rest == [DOT] + rest[1..];
      var tail := AfterName(s).value;
      Associate([DOT], name, tail);
      Associate(first, [DOT] + name, tail);
    } else {
      qualifier, name := None, first;
    }
  }

  lemma DigitsOf(s: Bytes) returns (d: Bytes)
    requires AfterDigits(s).Some?
    ensures IsDigits(d) && s == d + AfterDigits(s).value
  {
    d := s[..DigitRun(s)];
  }

  lemma HeadTail(s: Bytes, b: Byte)
    requires Starts(s, b)
    ensures s == [b] + s[1..]
  {}

  lemma ArgsOf(s: Bytes) returns (a: TypeArgs)
    requires AfterArgs(s).Some?
    ensures WellFormed(TypeRef(None, [65], a, 0))
    ensures s == ArgsText(a) + AfterArgs(s).value
  {
    var tail := AfterArgs(s).value;
    if !Starts(s, OPEN) {
      a := NoArgs;
    } else {
      HeadTail(s, OPEN);
      var d := DigitsOf(s[1..]);
      var one := AfterDigits(s[1..]).value;
      if Starts(one, COMMA) {
        HeadTail(one, COMMA);
        var e := DigitsOf(one[1..]);
        HeadTail(AfterDigits(one[1..]).value, CLOSE);
        a := TwoArgs(d, e);
        TwoArgsText(d, e, tail);
      } else {
        HeadTail(one, CLOSE);
        a := OneArg(d);
        Associate([OPEN], d + [CLOSE], tail);
        Associate(d, [CLOSE], tail);
      }
    }
  }

  lemma TwoArgsText(d: Bytes, e: Bytes, tail: Bytes)
    ensures ArgsText(TwoArgs(d, e)) + tail == [OPEN] + (d + ([COMMA] + (e + ([CLOSE] + tail))))
  {
    Associate([OPEN], d + ([COMMA] + (e + [CLOSE])), tail);
    Associate(d, [COMMA] + (e + [CLOSE]), tail);
    Associate([COMMA], e + [CLOSE], tail);
    Associate(e, [CLOSE], tail);
  }

  lemma {:induction false} DimensionsOf(s: Bytes) returns (n: nat)
    requires OnlyDimensions(s)
    ensures s == DimensionsText(n)
  {
    if s == [] {
      n := 0;
    } else {
      var m := DimensionsOf(s[2..]);
      n := m + 1;
      assert s == [LEFT, RIGHT] + s[2..];
    }
  }

  /** The scanner accepts exactly the renderings of well-formed references. */
  lemma ScansExactly(s: Bytes)
    ensures Scans(s) <==> IsTypeRef(s)
  {
    if Scans(s) {
      var qualifier, name := NameOf(s);
      var rest := AfterName(s).value;
      var a := ArgsOf(rest);
      var n := DimensionsOf(AfterArgs(rest).value);
      var t := TypeRef(qualifier, name, a, n);
      assert WellFormed(t) && NameText(t) == NameText(TypeRef(qualifier, name, NoArgs, 0));
      assert Render(t) == s;
    }
    if t :| WellFormed(t) && Render(t) == s { EveryReferenceScans(t); }
  }

  // ---- white space ----------------------------------------------------------------------------------

  /** The Unicode White_Space characters. */
  predicate IsWhitespace(c: char) {
    var n := c as int;
    9 <= n <= 13 || n == 0x20 || n == 0x85 || n == 0xA0 || n == 0x1680 || 0x2000 <= n <= 0x200A
    || n == 0x2028 || n == 0x2029 || n == 0x202F || n == 0x205F || n == 0x3000
  }

  /** `trim` changes a text exactly when it begins or ends with white space. */
  predicate IsTrimmed(s: string) {
    s != "" ==> !IsWhitespace(s[0]) && !IsWhitespace(s[|s| - 1])
  }

  predicate HasWhitespace(s: string) { exists i | 0 <= i < |s| :: IsWhitespace(s[i]) }

  predicate IsVisible(b: Byte) { 0x20 < b < 0x7F }

  lemma {:induction false} DimensionsVisible(n: nat)
    ensures forall i | 0 <= i < |DimensionsText(n)| :: IsVisible(DimensionsText(n)[i])
  {
    if n == 0 {
    } else {
      DimensionsVisible(n - 1);
    }
  }

  lemma RenderVisible(t: TypeRef)
    requires WellFormed(t)
    ensures Render(t) != [] && forall i | 0 <= i < |Render(t)| :: IsVisible(Render(t)[i])
  {
    DimensionsVisible(t.dimensions);
    var name, args, dims := NameText(t), ArgsText(t.args), DimensionsText(t.dimensions);
    assert forall i | 0 <= i < |name| :: IsVisible(name[i]);
    assert forall i | 0 <= i < |args| :: IsVisible(args[i]);
    assert forall i | 0 <= i < |args + dims| :: IsVisible((args + dims)[i]);
  }

  /** No reference holds white space, so the check made before scanning refuses nothing more. */
  lemma ReferencesHaveNoWhitespace(input: string)
    requires IsTypeRef(Utf8(input))
    ensures input != "" && IsTrimmed(input) && !HasWhitespace(input)
  {
    var t :| WellFormed(t) && Render(t) == Utf8(input);
    RenderVisible(t);
    AsciiBytesAreAsciiText(input);
    Utf8OfAscii(input);
    forall i | 0 <= i < |input| ensures !IsWhitespace(input[i]) {
      assert IsVisible(Utf8(input)[i]);
    }
  }

  // ---- the loops --------------------------------------------------------------------------------------

  /** `consume_digits`: advance over digits, report whether any were there. */
  method ConsumeDigits(bytes: Bytes, pos: nat) returns (next: nat, any: bool)
    requires pos <= |bytes|
    ensures next == pos + DigitRun(bytes[pos..]) <= |bytes|
    ensures any <==> DigitRun(bytes[pos..]) > 0
  {
    next := pos;
    while next < |bytes| && IsDigitByte(bytes[next])
      invariant pos <= next <= |bytes|
      invariant pos + DigitRun(bytes[pos..]) == next + DigitRun(bytes[next..])
    {
      assert bytes[next..][1..] == bytes[next + 1..];
      next := next + 1;
    }
    any := next > pos;
  }

  method ConsumeIdent(bytes: Bytes, pos: nat) returns (next: nat, ok: bool)
    requires pos <= |bytes|
    ensures ok <==> AfterIdent(bytes[pos..]).Some?
    ensures ok ==> pos <= next <= |bytes| && AfterIdent(bytes[pos..]) == Some(bytes[next..])
  {
    next := pos;
    if pos == |bytes| || !IsIdentStart(bytes[pos]) { return pos, false; }
    while next < |bytes| && IsIdentContinue(bytes[next])
      invariant pos <= next <= |bytes|
      invariant pos + IdentRun(bytes[pos..]) == next + IdentRun(bytes[next..])
    {
      assert bytes[next..][1..] == bytes[next + 1..];
      next := next + 1;
    }
    ok := true;
    assert bytes[pos..][next - pos..] == bytes[next..];
  }

  /** The segment loop: one identifier, and a second after a dot. */
  method ConsumeName(bytes: Bytes) returns (pos: nat, ok: bool)
    ensures ok <==> AfterName(bytes).Some?
    ensures ok ==> pos <= |bytes| && AfterName(bytes) == Some(bytes[pos..])
  {
    assert bytes[0..] == bytes;
    pos, ok := ConsumeIdent(bytes, 0);
    if !ok { return; }
    var segments := 1;
    ghost var mid := pos;
    while pos < |bytes| && bytes[pos] == DOT
      invariant mid <= pos <= |bytes| && 1 <= segments <= 2 && ok
      invariant AfterIdent(bytes) == Some(bytes[mid..]) && (segments == 1 ==> pos == mid)
      invariant segments == 2 ==>
                  mid < |bytes| && bytes[mid] == DOT && AfterIdent(bytes[mid + 1..]) == Some(bytes[pos..])
      decreases 2 - segments
    {
      DropDrop(bytes, mid, 1);
      if segments >= 2 { return pos, false; }
      pos, ok := ConsumeIdent(bytes, pos + 1);
      if !ok { return; }
      segments := segments + 1;
    }
    DropDrop(bytes, mid, 1);
  }

  lemma DropDrop(s: Bytes, i: nat, j: nat)
    requires i <= |s|
    ensures i + j <= |s| ==> s[i..][j..] == s[i + j..]
  {}

  method ConsumeArgs(bytes: Bytes, start: nat) returns (pos: nat, ok: bool)
    requires start <= |bytes|
    ensures ok <==> AfterArgs(bytes[start..]).Some?
    ensures ok ==> pos <= |bytes| && AfterArgs(bytes[start..]) == Some(bytes[pos..])
  {
    pos, ok := start, true;
    DropDrop(bytes, start, 1);
    if pos == |bytes| || bytes[pos] != OPEN { return; }
    pos, ok := ConsumeSize(bytes, pos + 1);
    if !ok { return; }
    pos, ok := ConsumeSecond(bytes, pos);
  }

  method ConsumeSecond(bytes: Bytes, start: nat) returns (pos: nat, ok: bool)
    requires start <= |bytes|
    ensures ok <==> AfterSecond(bytes[start..]).Some?
    ensures ok ==> pos <= |bytes| && AfterSecond(bytes[start..]) == Some(bytes[pos..])
  {
    pos, ok := start, true;
    DropDrop(bytes, pos, 1);
    if pos < |bytes| && bytes[pos] == COMMA {
      pos, ok := ConsumeSize(bytes, pos + 1);
      if !ok { return; }
    }
    DropDrop(bytes, pos, 1);
    if pos == |bytes| || bytes[pos] != CLOSE { return pos, false; }
    pos := pos + 1;
  }

  method ConsumeSize(bytes: Bytes, start: nat) returns (pos: nat, ok: bool)
    requires start <= |bytes|
    ensures ok <==> AfterDigits(bytes[start..]).Some?
    ensures ok ==> pos <= |bytes| && AfterDigits(bytes[start..]) == Some(bytes[pos..])
  {
    pos, ok := ConsumeDigits(bytes, start);
    DropDrop(bytes, start, DigitRun(bytes[start..]));
  }

  method ConsumeDimensions(bytes: Bytes, start: nat) returns (ok: bool)
    requires start <= |bytes|
    ensures ok <==> OnlyDimensions(bytes[start..])
  {
    var pos := start;
    while pos < |bytes| && bytes[pos] == LEFT
      invariant start <= pos <= |bytes|
      invariant OnlyDimensions(bytes[start..]) <==> OnlyDimensions(bytes[pos..])
    {
      if pos + 1 == |bytes| || bytes[pos + 1] != RIGHT { return false; }
      assert bytes[pos..][2..] == bytes[pos + 2..];
      pos := pos + 2;
    }
    ok := pos == |bytes|;
  }

  /** `is_valid_pg_type_ref`. */
  method IsValidPgTypeRef(input: string) returns (r: bool)
    ensures r <==> IsTypeRef(Utf8(input))
  {
    ghost var language := IsTypeRef(Utf8(input));
    if language { ReferencesHaveNoWhitespace(input); }
    if input == "" || !IsTrimmed(input) || HasWhitespace(input) { return false; }
    var bytes := Utf8(input);
    ScansExactly(bytes);
    var pos, ok := ConsumeName(bytes);
    if !ok { return false; }
    pos, ok := ConsumeArgs(bytes, pos);
    if !ok { return false; }
    r := ConsumeDimensions(bytes, pos);
  }
}
