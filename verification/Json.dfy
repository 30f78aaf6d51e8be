/**
 JSON values and their canonical text (RFC 8785, JCS), as the checksum encodes an op.

 Numbers are integers: the op schema admits no others. Objects are maps, so a
 value carries no insertion order.
 */
module Json {
  import opened Numerals
  import opened Unicode

  datatype Json =
    | Null
    | Bool(b: bool)
    | Number(n: int)
    | Str(s: string)
    | Array(items: seq<Json>)
    | Object(fields: map<string, Json>)

  // ---- sorted keys ---------------------------------------------------------------

  ghost predicate Ascending(ks: seq<string>) {
    forall i, j | 0 <= i < j < |ks| :: KeyLess(ks[i], ks[j])
  }

  ghost predicate Lists(ks: seq<string>, keys: set<string>) {
    forall k :: k in ks <==> k in keys
  }

  ghost predicate IsLeast(k: string, keys: set<string>) {
    k in keys && forall j | j in keys && j != k :: KeyLess(k, j)
  }

  lemma {:induction false} LeastExists(keys: set<string>) returns (k: string)
    requires keys != {}
    ensures IsLeast(k, keys)
    decreases |keys|
  {
    var x :| x in keys;
    k := x;
    if keys != {x} {
      assert keys - {x} == {} ==> keys <= {x};
      var y := LeastExists(keys - {x});
      KeyOrderIsStrictTotal(x, y, x);
      k := if KeyLess(x, y) then x else y;
      forall j | j in keys && j != k ensures KeyLess(k, j) {
        KeyOrderIsStrictTotal(k, y, j);
        if j != x && j != y { assert j in keys - {x}; }
      }
    }
  }

  /** The keys of an object in ascending UTF-16 order. */
  ghost function SortedKeys(keys: set<string>): (ks: seq<string>)
    ensures Ascending(ks) && Lists(ks, keys)
    decreases |keys|
  {
    if keys == {} then []
    else
      assert exists k :: IsLeast(k, keys) by { var k := LeastExists(keys); }
      var k :| IsLeast(k, keys);
      var rest := SortedKeys(keys - {k});
      assert forall j | j in rest :: j in keys - {k};
      assert forall i | 0 <= i < |rest| :: rest[i] in rest && KeyLess(k, rest[i]);
      [k] + rest
  }

  /** An ascending listing of a key set is the only one. */
  lemma {:induction false} AscendingUnique(a: seq<string>, b: seq<string>)
    requires Ascending(a) && Ascending(b)
    requires forall k :: k in a <==> k in b
    ensures a == b
  {
    assert |b| > 0 ==> b[0] in a;
    assert |a| > 0 ==> a[0] in b;
    if a == [] {
    } else {
      HeadIsLeast(a, b[0]);
      HeadIsLeast(b, a[0]);
      KeyOrderIsStrictTotal(a[0], b[0], a[0]);
      forall k ensures k in a[1..] <==> k in b[1..] {
        TailMembers(a, k);
        TailMembers(b, k);
      }
      AscendingUnique(a[1..], b[1..]);
      assert a == [a[0]] + a[1..] && b == [b[0]] + b[1..];
    }
  }

  lemma HeadIsLeast(a: seq<string>, k: string)
    requires Ascending(a) && k in a
    ensures k == a[0] || KeyLess(a[0], k)
  {}

  lemma TailMembers(a: seq<string>, k: string)
    requires Ascending(a) && a != []
    ensures k in a[1..] <==> k in a && k != a[0]
  {
    KeyOrderIsStrictTotal(a[0], a[0], a[0]);
    if k in a[1..] {
      var i :| 0 <= i < |a[1..]| && a[1..][i] == k;
      assert KeyLess(a[0], a[i + 1]);
    }
  }

  // ---- canonical text --------------------------------------------------------------

  function DigitChar(d: nat): char
    requires d < 16
  {
    if d < 10 then '0' + d as char else 'a' + (d - 10) as char
  }

  function DigitText(ds: seq<nat>): string
    requires AreDigits(10, ds)
  {
    seq(|ds|, i requires 0 <= i < |ds| => DigitChar(ds[i]))
  }

  function NatText(n: nat): string {
    NumeralDenotes(10, n);
    DigitText(Numeral(10, n))
  }

  /** The display form of an integer: no plus sign, no leading zeros, no exponent. */
  function IntText(n: int): string {
    if n < 0 then "-" + NatText(-n) else NatText(n)
  }

  /** The minimal escape of one character (section 3.2.2.2 of RFC 8785). */
  function EscapeChar(c: char): string {
    if c == '"' then "\\\""
    else if c == '\\' then "\\\\"
    else if c == 8 as char then "\\b"
    else if c == 12 as char then "\\f"
    else if c == '\n' then "\\n"
    else if c == '\r' then "\\r"
    else if c == '\t' then "\\t"
    else if c as int < 0x20 then "\\u00" + [DigitChar(c as int / 16), DigitChar(c as int % 16)]
    else [c]
  }

  function Escaped(s: string): string {
    if s == "" then "" else EscapeChar(s[0]) + Escaped(s[1..])
  }

  function Quote(s: string): string {
    "\"" + Escaped(s) + "\""
  }

  /** The canonical text of a value. */
  ghost function Jcs(v: Json): string
    decreases v, 0
  {
    match v
    case Null => "null"
    case Bool(b) => if b then "true" else "false"
    case Number(n) => IntText(n)
    case Str(s) => Quote(s)
    case Array(items) => "[" + Elements(items)
    case Object(fields) => "{" + Members(v, SortedKeys(fields.Keys))
  }

  /** What follows an opening bracket. */
  ghost function Elements(items: seq<Json>): string
    decreases items, 1
  {
    if items == [] then "]" else Jcs(items[0]) + MoreElements(items[1..])
  }

  /** What follows a complete element. */
  ghost function MoreElements(items: seq<Json>): string
    decreases items, 0
  {
    if items == [] then "]" else "," + (Jcs(items[0]) + MoreElements(items[1..]))
  }

  /** What follows an opening brace. */
  ghost function Members(v: Json, ks: seq<string>): string
    requires v.Object? && forall k | k in ks :: k in v.fields
    decreases v, 0, |ks|, 1
  {
    if ks == [] then "}" else Member(v, ks[0]) + MoreMembers(v, ks[1..])
  }

  ghost function MoreMembers(v: Json, ks: seq<string>): string
    requires v.Object? && forall k | k in ks :: k in v.fields
    decreases v, 0, |ks|, 0
  {
    if ks == [] then "}" else "," + (Member(v, ks[0]) + MoreMembers(v, ks[1..]))
  }

  ghost function Member(v: Json, k: string): string
    requires v.Object? && k in v.fields
    decreases v, 0, 0
  {
    Quote(k) + (":" + Jcs(v.fields[k]))
  }

  // ---- plain text ------------------------------------------------------------------------------

  /** Text without anything to escape. */
  predicate IsPlain(s: string) { forall i | 0 <= i < |s| :: ' ' <= s[i] && s[i] != '"' && s[i] != '\\' }

  lemma {:induction false} PlainIsVerbatim(s: string)
    requires IsPlain(s)
    ensures Escaped(s) == s
  {
    if s == "" {
    } else {
      PlainIsVerbatim(s[1..]);
      assert s == [s[0]] + s[1..];
    }
  }
}
