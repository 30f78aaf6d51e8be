/**
 A strict reader of canonical JSON text, the specification the encoder is proved against.

 It accepts one spelling of each value: no white space, minimal escapes with lower-case
 hex, integers without leading zeros or a negative zero, object keys strictly ascending in
 UTF-16 order. Each reader returns what it recognised and the unread rest of the text.
 */
module JcsDecoder {
  import opened Wrappers
  import opened Numerals
  import opened Json

  datatype Read<+T> = Read(value: T, rest: string)
  datatype Entry = Entry(key: string, value: Json)

  // ---- integers ------------------------------------------------------------------

  predicate IsDigit(c: char) { '0' <= c <= '9' }

  predicate StartsWithDigit(s: string) { s != "" && IsDigit(s[0]) }

  function DigitRun(s: string): (k: nat)
    ensures k <= |s| && forall i | 0 <= i < k :: IsDigit(s[i])
    ensures k < |s| ==> !IsDigit(s[k])
  {
    if StartsWithDigit(s) then 1 + DigitRun(s[1..]) else 0
  }

  function DigitValue(c: char): nat
    requires IsDigit(c)
    ensures DigitValue(c) < 10
  {
    c as int - '0' as int
  }

  function DigitsOf(t: string): seq<nat>
    requires forall i | 0 <= i < |t| :: IsDigit(t[i])
  {
    seq(|t|, i requires 0 <= i < |t| => DigitValue(t[i]))
  }

  function ReadNat(s: string): Option<Read<nat>> {
    var k := DigitRun(s);
    if k == 0 || (k > 1 && s[0] == '0') then None
    else Some(Read(Value(10, DigitsOf(s[..k])), s[k..]))
  }

  function ReadInt(s: string): Option<Read<int>> {
    if s != "" && s[0] == '-' then
      match ReadNat(s[1..])
      case Some(Read(n, rest)) => if n == 0 then None else Some(Read(0 - n, rest))
      case None => None
    else
      match ReadNat(s)
      case Some(Read(n, rest)) => Some(Read(n, rest))
      case None => None
  }

  // ---- strings -------------------------------------------------------------------

  predicate IsHexDigit(c: char) { IsDigit(c) || 'a' <= c <= 'f' }

  function HexValue(c: char): nat
    requires IsHexDigit(c)
    ensures HexValue(c) < 16
  {
    if IsDigit(c) then c as int - '0' as int else c as int - 'a' as int + 10
  }

  /** The control characters that have a two-character escape. */
  predicate HasShortEscape(n: nat) { n == 8 || n == 9 || n == 10 || n == 12 || n == 13 }

  /** The character denoted by the escape that follows a backslash. */
  function ReadEscape(s: string): (r: Option<Read<char>>)
    ensures r.Some? ==> |r.value.rest| < |s|
  {
    if s == "" then None
    else if s[0] == '"' then Some(Read('"', s[1..]))
    else if s[0] == '\\' then Some(Read('\\', s[1..]))
    else if s[0] == 'b' then Some(Read(8 as char, s[1..]))
    else if s[0] == 'f' then Some(Read(12 as char, s[1..]))
    else if s[0] == 'n' then Some(Read('\n', s[1..]))
    else if s[0] == 'r' then Some(Read('\r', s[1..]))
    else if s[0] == 't' then Some(Read('\t', s[1..]))
    else if s[0] == 'u' && |s| >= 5 && s[1] == '0' && s[2] == '0' && IsHexDigit(s[3]) && IsHexDigit(s[4]) then
      var n := 16 * HexValue(s[3]) + HexValue(s[4]);
      if n < 0x20 && !HasShortEscape(n) then Some(Read(n as char, s[5..])) else None
    else None
  }

  /** The characters up to the closing quote. */
  function ReadChars(s: string): (r: Option<Read<string>>)
    ensures r.Some? ==> |r.value.rest| < |s|
    decreases |s|
  {
    if s == "" then None
    else if s[0] == '"' then Some(Read("", s[1..]))
    else if s[0] == '\\' then
      match ReadEscape(s[1..])
      case Some(Read(c, rest)) => Prepend(c, ReadChars(rest))
      case None => None
    else if s[0] as int < 0x20 then None
    else Prepend(s[0], ReadChars(s[1..]))
  }

  function Prepend(c: char, r: Option<Read<string>>): Option<Read<string>> {
    match r
    case Some(Read(t, rest)) => Some(Read([c] + t, rest))
    case None => None
  }

  // ---- values --------------------------------------------------------------------

  ghost function ReadValue(s: string): (r: Option<Read<Json>>)
    ensures r.Some? ==> |r.value.rest| < |s|
    decreases |s|, 1
  {
    if s == "" then None
    else if s[0] == '"' then
      match ReadChars(s[1..])
      case Some(Read(t, rest)) => Some(Read(Str(t), rest))
      case None => None
    else if s[0] == '[' then
      match ReadElements(s[1..])
      case Some(Read(items, rest)) => Some(Read(Array(items), rest))
      case None => None
    else if s[0] == '{' then
      match ReadMembers(s[1..])
      case Some(Read(es, rest)) =>
        if Ascending(Keys(es)) then Some(Read(Object(FieldsOf(es)), rest)) else None
      case None => None
    else if "null" <= s then Some(Read(Null, s[4..]))
    else if "true" <= s then Some(Read(Bool(true), s[4..]))
    else if "false" <= s then Some(Read(Bool(false), s[5..]))
    else
      match ReadInt(s)
      case Some(Read(n, rest)) => Some(Read(Number(n), rest))
      case None => None
  }

  ghost function ReadElements(s: string): (r: Option<Read<seq<Json>>>)
    ensures r.Some? ==> |r.value.rest| < |s|
    decreases |s|, 3
  {
    if s != "" && s[0] == ']' then Some(Read([], s[1..])) else ReadElementThenMore(s)
  }

  ghost function ReadElementThenMore(s: string): (r: Option<Read<seq<Json>>>)
    ensures r.Some? ==> |r.value.rest| < |s|
    decreases |s|, 2
  {
    match ReadValue(s)
    case Some(Read(v, rest)) =>
      (match ReadMoreElements(rest)
       case Some(Read(items, rest')) => Some(Read([v] + items, rest'))
       case None => None)
    case None => None
  }

  ghost function ReadMoreElements(s: string): (r: Option<Read<seq<Json>>>)
    ensures r.Some? ==> |r.value.rest| < |s|
    decreases |s|, 0
  {
    if s == "" then None
    else if s[0] == ']' then Some(Read([], s[1..]))
    else if s[0] == ',' then ReadElementThenMore(s[1..])
    else None
  }

  ghost function ReadMember(s: string): (r: Option<Read<Entry>>)
    ensures r.Some? ==> |r.value.rest| < |s|
    decreases |s|, 0
  {
    if s == "" || s[0] != '"' then None
    else
      match ReadChars(s[1..])
      case Some(Read(k, rest)) =>
        if rest == "" || rest[0] != ':' then None
        else
          (match ReadValue(rest[1..])
           case Some(Read(v, rest')) => Some(Read(Entry(k, v), rest'))
           case None => None)
      case None => None
  }

  ghost function ReadMembers(s: string): (r: Option<Read<seq<Entry>>>)
    ensures r.Some? ==> |r.value.rest| < |s|
    decreases |s|, 3
  {
    if s != "" && s[0] == '}' then Some(Read([], s[1..])) else ReadMemberThenMore(s)
  }

  ghost function ReadMemberThenMore(s: string): (r: Option<Read<seq<Entry>>>)
    ensures r.Some? ==> |r.value.rest| < |s|
    decreases |s|, 2
  {
    match ReadMember(s)
    case Some(Read(e, rest)) =>
      (match ReadMoreMembers(rest)
       case Some(Read(es, rest')) => Some(Read([e] + es, rest'))
       case None => None)
    case None => None
  }

  ghost function ReadMoreMembers(s: string): (r: Option<Read<seq<Entry>>>)
    ensures r.Some? ==> |r.value.rest| < |s|
    decreases |s|, 0
  {
    if s == "" then None
    else if s[0] == '}' then Some(Read([], s[1..]))
    else if s[0] == ',' then ReadMemberThenMore(s[1..])
    else None
  }

  ghost function Keys(es: seq<Entry>): seq<string> {
    seq(|es|, i requires 0 <= i < |es| => es[i].key)
  }

  ghost function FieldsOf(es: seq<Entry>): map<string, Json> {
    if es == [] then map[] else FieldsOf(es[1..])[es[0].key := es[0].value]
  }

  /** A whole text: one value and nothing after it. */
  ghost function Decode(s: string): Option<Json> {
    match ReadValue(s)
    case Some(Read(v, rest)) => if rest == "" then Some(v) else None
    case None => None
  }
}
