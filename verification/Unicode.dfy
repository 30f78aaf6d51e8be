/**
 Strings of Unicode scalar values (Rust `str`) and their two encoding forms:
 UTF-8, which the checksum hashes, and UTF-16, which orders object keys.
 */
module Unicode {
  import opened Orders
  import opened Sequences

  type Byte = n: nat | n < 256
  type Bytes = seq<Byte>

  // ---- UTF-8 -------------------------------------------------------------------

  function Utf8Char(c: char): Bytes {
    var n := c as int;
    if n < 0x80 then [n]
    else if n < 0x800 then [0xC0 + n / 0x40, 0x80 + n % 0x40]
    else if n < 0x10000 then [0xE0 + n / 0x1000, 0x80 + n / 0x40 % 0x40, 0x80 + n % 0x40]
    else [0xF0 + n / 0x40000, 0x80 + n / 0x1000 % 0x40, 0x80 + n / 0x40 % 0x40, 0x80 + n % 0x40]
  }

  function Utf8(s: string): Bytes {
    if s == "" then [] else Utf8Char(s[0]) + Utf8(s[1..])
  }

  function CharLength(lead: Byte): nat {
    if lead < 0x80 then 1 else if lead < 0xE0 then 2 else if lead < 0xF0 then 3 else 4
  }

  function Payload(e: seq<int>): int
    requires 1 <= |e| <= 4
  {
    if |e| == 1 then e[0]
    else if |e| == 2 then (e[0] - 0xC0) * 0x40 + (e[1] - 0x80)
    else if |e| == 3 then (e[0] - 0xE0) * 0x1000 + (e[1] - 0x80) * 0x40 + (e[2] - 0x80)
    else (e[0] - 0xF0) * 0x40000 + (e[1] - 0x80) * 0x1000 + (e[2] - 0x80) * 0x40 + (e[3] - 0x80)
  }

  /** The first byte tells how long a character is, and the payload bits identify it. */
  lemma Utf8CharDecodes(c: char)
    ensures 1 <= |Utf8Char(c)| <= 4
    ensures |Utf8Char(c)| == CharLength(Utf8Char(c)[0])
    ensures Payload(Utf8Char(c)) == c as int
  {
    var n := c as int;
    if 0x800 <= n < 0x10000 {
      SixBits(n / 0x40, n / 0x1000);
    } else if 0x10000 <= n {
      SixBits(n / 0x1000, n / 0x40000);
      SixBits(n / 0x40, n / 0x1000);
    }
  }

  lemma SixBits(n: nat, m: nat)
    requires m == n / 0x40
    ensures n == m * 0x40 + n % 0x40
  {}

  lemma Utf8CharPrefixFree(c: char, d: char, x: Bytes, y: Bytes)
    requires Utf8Char(c) + x == Utf8Char(d) + y
    ensures c == d && x == y
  {
    var e, f := Utf8Char(c), Utf8Char(d);
    Utf8CharDecodes(c);
    Utf8CharDecodes(d);
    assert e[0] == (e + x)[0] == (f + y)[0] == f[0];
    SplitEqual(e, f, x, y);
  }

  lemma {:induction false} Utf8Injective(s: string, t: string)
    requires Utf8(s) == Utf8(t)
    ensures s == t
  {
    if s == "" || t == "" {
    } else {
      Utf8CharPrefixFree(s[0], t[0], Utf8(s[1..]), Utf8(t[1..]));
      Utf8Injective(s[1..], t[1..]);
      assert s == [s[0]] + s[1..] && t == [t[0]] + t[1..];
    }
  }

  lemma {:induction false} Utf8Size(s: string)
    ensures |s| <= |Utf8(s)| <= 4 * |s|
  {
    if s == "" {
    } else {
      Utf8Size(s[1..]);
    }
  }

  predicate IsAscii(s: string) {
    forall i | 0 <= i < |s| :: s[i] as int < 0x80
  }

  lemma {:induction false} Utf8OfAscii(s: string)
    requires IsAscii(s)
    ensures |Utf8(s)| == |s| && forall i | 0 <= i < |s| :: Utf8(s)[i] == s[i] as int
  {
    if s == "" {
    } else {
      Utf8OfAscii(s[1..]);
    }
  }

  /** Bytes below 0x80 never occur inside a longer character. */
  lemma {:induction false} AsciiBytesAreAsciiText(s: string)
    requires forall i | 0 <= i < |Utf8(s)| :: Utf8(s)[i] < 0x80
    ensures IsAscii(s)
  {
    if s == "" {
    } else {
      assert Utf8(s)[0] == Utf8Char(s[0])[0];
      forall i | 0 <= i < |Utf8(s[1..])| ensures Utf8(s[1..])[i] < 0x80 {
        assert Utf8(s)[|Utf8Char(s[0])| + i] == Utf8(s[1..])[i];
      }
      AsciiBytesAreAsciiText(s[1..]);
    }
  }

  // ---- UTF-16 ------------------------------------------------------------------

  function Utf16Char(c: char): seq<nat> {
    var n := c as int;
    if n < 0x10000 then [n]
    else [0xD800 + (n - 0x10000) / 0x400, 0xDC00 + (n - 0x10000) % 0x400]
  }

  function Utf16(s: string): seq<nat> {
    if s == "" then [] else Utf16Char(s[0]) + Utf16(s[1..])
  }

  /** A lead surrogate is never a scalar value, so code units parse uniquely (section 2.1 of RFC 2781). */
  lemma {:induction false} Utf16Injective(s: string, t: string)
    requires Utf16(s) == Utf16(t)
    ensures s == t
  {
    if s == "" || t == "" {
    } else {
      var c, d := Utf16Char(s[0]), Utf16Char(t[0]);
      assert Utf16(s)[0] == Utf16(t)[0];
      assert |c| == |d|;
      if |c| == 2 { assert Utf16(s)[1] == Utf16(t)[1]; }
      assert s[0] as int == t[0] as int;
      assert Utf16(s[1..]) == Utf16(s)[|c|..] && Utf16(t[1..]) == Utf16(t)[|d|..];
      Utf16Injective(s[1..], t[1..]);
      assert s == [s[0]] + s[1..] && t == [t[0]] + t[1..];
    }
  }

  /** The object-key comparison: `encode_utf16` streams compared unit by unit. */
  function Utf16CodeUnitCmp(a: string, b: string): Ordering {
    Compare(Utf16(a), Utf16(b))
  }

  predicate KeyLess(a: string, b: string) {
    Utf16CodeUnitCmp(a, b) == Less
  }

  /** The comparison is a strict total order whose `Equal` is string equality. */
  lemma KeyOrderIsStrictTotal(a: string, b: string, c: string)
    ensures Utf16CodeUnitCmp(a, b) == Equal <==> a == b
    ensures Utf16CodeUnitCmp(b, a) == Orders.Reverse(Utf16CodeUnitCmp(a, b))
    ensures !KeyLess(a, a)
    ensures KeyLess(a, b) ==> !KeyLess(b, a)
    ensures a != b ==> KeyLess(a, b) || KeyLess(b, a)
    ensures KeyLess(a, b) && KeyLess(b, c) ==> KeyLess(a, c)
  {
    CompareEqual(Utf16(a), Utf16(b));
    CompareEqual(Utf16(a), Utf16(a));
    CompareReverse(Utf16(a), Utf16(b));
    if Utf16(a) == Utf16(b) { Utf16Injective(a, b); }
    if KeyLess(a, b) && KeyLess(b, c) { CompareTransitive(Utf16(a), Utf16(b), Utf16(c)); }
  }

  /** `str` order: the order of the UTF-8 bytes. */
  predicate TextLess(a: string, b: string) { Compare(Utf8(a), Utf8(b)).Less? }

  lemma TextOrderIsStrictTotal(a: string, b: string, c: string)
    ensures !TextLess(a, a)
    ensures TextLess(a, b) || a == b || TextLess(b, a)
    ensures TextLess(a, b) && TextLess(b, c) ==> TextLess(a, c)
  {
    CompareEqual(Utf8(a), Utf8(a));
    CompareEqual(Utf8(a), Utf8(b));
    CompareReverse(Utf8(a), Utf8(b));
    if Utf8(a) == Utf8(b) { Utf8Injective(a, b); }
    if TextLess(a, b) && TextLess(b, c) { CompareTransitive(Utf8(a), Utf8(b), Utf8(c)); }
  }

  function Scalars(s: string): seq<nat> {
    seq(|s|, i requires 0 <= i < |s| => s[i] as int)
  }

  /** Without supplementary characters the key order is the scalar order. */
  lemma {:induction false} BmpKeyOrderIsScalarOrder(a: string, b: string)
    requires forall i | 0 <= i < |a| :: a[i] as int < 0x10000
    requires forall i | 0 <= i < |b| :: b[i] as int < 0x10000
    ensures Utf16CodeUnitCmp(a, b) == Compare(Scalars(a), Scalars(b))
  {
    BmpUnits(a);
    BmpUnits(b);
  }

  lemma {:induction false} BmpUnits(s: string)
    requires forall i | 0 <= i < |s| :: s[i] as int < 0x10000
    ensures Utf16(s) == Scalars(s)
  {
    if s == "" {
    } else {
      BmpUnits(s[1..]);
      assert Scalars(s) == [s[0] as int] + Scalars(s[1..]);
    }
  }

  /** With them the two orders disagree: U+10000 sorts before U+FFFF. */
  lemma SupplementaryKeysSortEarly()
    ensures KeyLess("\U{10000}", "\U{FFFF}")
    ensures Compare(Scalars("\U{10000}"), Scalars("\U{FFFF}")) == Greater
  {}

  // ---- what the encodings are, and the orders they induce ---------------------------------------

  /** Every encoding is the shortest (section 3 of RFC 3629), a lead byte and then continuation bytes. */
  lemma Utf8CharShortest(c: char)
    ensures var n, e := c as int, Utf8Char(c);
            && |e| == (if n < 0x80 then 1 else if n < 0x800 then 2 else if n < 0x10000 then 3 else 4)
            && (|e| > 1 ==> 0xC0 <= e[0] < 0xF8) && forall i | 1 <= i < |e| :: 0x80 <= e[i] < 0xC0
  {}

  /** A supplementary character is a high and then a low surrogate, ten bits each (section 2.1 of RFC 2781). */
  lemma Utf16CharDecodes(c: char)
    ensures c as int < 0x10000 ==> Utf16Char(c) == [c as int]
    ensures c as int >= 0x10000 ==>
            var u := Utf16Char(c);
            && |u| == 2 && 0xD800 <= u[0] < 0xDC00 && 0xDC00 <= u[1] < 0xE000
            && (u[0] - 0xD800) * 0x400 + (u[1] - 0xDC00) + 0x10000 == c as int
  {}

  lemma FirstDifference(p: seq<nat>, a: seq<nat>, b: seq<nat>)
    requires a != [] && b != [] && a[0] < b[0]
    ensures Compare(p + a, p + b) == Less
  {
    ComparePrefix(p, a, b);
  }

  lemma BytesInOrder(e: Bytes, f: Bytes, x: Bytes, y: Bytes, i: nat)
    requires i < |e| && i < |f| && e[..i] == f[..i] && e[i] < f[i]
    ensures Compare(e + x, f + y) == Less
  {
    assert e + x == e[..i] + (e[i..] + x) && f + y == f[..i] + (f[i..] + y);
    FirstDifference(e[..i], e[i..] + x, f[i..] + y);
  }

  /** Of two encodings the one of the smaller character comes first, whatever follows. */
  lemma Utf8CharsInOrder(c: char, d: char, x: Bytes, y: Bytes)
    requires c < d
    ensures Compare(Utf8Char(c) + x, Utf8Char(d) + y) == Less
  {
    var e, f := Utf8Char(c), Utf8Char(d);
    if e[0] < f[0] {
      BytesInOrder(e, f, x, y, 0);
    } else {
      SameLead(c, d);
      BytesInOrder(e, f, x, y, DifferAt(c as int, d as int, |e|));
    }
  }

  /** Where the encodings of two characters of one length first differ. */
  function DifferAt(m: nat, n: nat, size: nat): int {
    if size == 4 && m / 0x1000 < n / 0x1000 then 1 else if m / 0x40 < n / 0x40 then size - 2 else size - 1
  }

  /** Characters with one lead byte have encodings of one length, in order where they first differ. */
  lemma SameLead(c: char, d: char)
    requires c < d && Utf8Char(c)[0] >= Utf8Char(d)[0]
    ensures var e, f := Utf8Char(c), Utf8Char(d);
            var i := DifferAt(c as int, d as int, |e|);
            |e| == |f| && 0 < i < |e| && e[..i] == f[..i] && e[i] < f[i]
  {
    if d as int < 0x800 {
      SixBits(c as int, c as int / 0x40);
      SixBits(d as int, d as int / 0x40);
    } else if d as int < 0x10000 {
      SameLeadOfThree(c, d);
    } else {
      SameLeadOfFour(c, d);
    }
  }

  lemma SameLeadOfThree(c: char, d: char)
    requires c < d && 0x800 <= d as int < 0x10000 && Utf8Char(c)[0] >= Utf8Char(d)[0]
    ensures var e, f := Utf8Char(c), Utf8Char(d);
            var i := DifferAt(c as int, d as int, |e|);
            |e| == |f| == 3 && 0 < i < 3 && e[..i] == f[..i] && e[i] < f[i]
  {
    var m, n := c as int, d as int;
    SixBits(m, m / 0x40);
    SixBits(n, n / 0x40);
    SixBits(m / 0x40, m / 0x1000);
    SixBits(n / 0x40, n / 0x1000);
  }

  lemma SameLeadOfFour(c: char, d: char)
    requires c < d && 0x10000 <= d as int && Utf8Char(c)[0] >= Utf8Char(d)[0]
    ensures var e, f := Utf8Char(c), Utf8Char(d);
            var i := DifferAt(c as int, d as int, |e|);
            |e| == |f| == 4 && 0 < i < 4 && e[..i] == f[..i] && e[i] < f[i]
  {
    var m, n := c as int, d as int;
    SixBits(m, m / 0x40);
    SixBits(n, n / 0x40);
    SixBits(m / 0x40, m / 0x1000);
    SixBits(n / 0x40, n / 0x1000);
    SixBits(m / 0x1000, m / 0x40000);
    SixBits(n / 0x1000, n / 0x40000);
  }

  /** Texts order by their bytes exactly as by their scalar values. */
  lemma {:induction false} TextOrderIsScalarOrder(a: string, b: string)
    ensures Compare(Utf8(a), Utf8(b)) == Compare(Scalars(a), Scalars(b))
  {
    if a == "" || b == "" {
    } else if a[0] == b[0] {
      ComparePrefix(Utf8Char(a[0]), Utf8(a[1..]), Utf8(b[1..]));
      assert Scalars(a)[1..] == Scalars(a[1..]) && Scalars(b)[1..] == Scalars(b[1..]);
      TextOrderIsScalarOrder(a[1..], b[1..]);
    } else if a[0] < b[0] {
      Utf8CharsInOrder(a[0], b[0], Utf8(a[1..]), Utf8(b[1..]));
    } else {
      Utf8CharsInOrder(b[0], a[0], Utf8(b[1..]), Utf8(a[1..]));
      CompareReverse(Utf8(b), Utf8(a));
    }
  }

  lemma {:induction false} Utf16Concat(a: string, b: string)
    ensures Utf16(a + b) == Utf16(a) + Utf16(b)
  {
    if a == "" {
      assert a + b == b;
    } else {
      assert (a + b)[1..] == a[1..] + b;
      Utf16Concat(a[1..], b);
    }
  }

  /**
   Keys order by the scalars that first differ, except that a supplementary character comes
   before the characters from U+E000 to U+FFFF.
   */
  lemma KeyOrderExactly(p: string, c: char, d: char, x: string, y: string)
    requires c != d
    ensures KeyLess(p + [c] + x, p + [d] + y) <==>
            if c as int >= 0x10000 && 0xE000 <= d as int < 0x10000 then true
            else if d as int >= 0x10000 && 0xE000 <= c as int < 0x10000 then false
            else c < d
  {
    Utf16Concat(p, [c] + x);
    Utf16Concat(p, [d] + y);
    assert p + [c] + x == p + ([c] + x) && p + [d] + y == p + ([d] + y);
    ComparePrefix(Utf16(p), Utf16([c] + x), Utf16([d] + y));
    assert ([c] + x)[1..] == x && ([d] + y)[1..] == y;
    UnitsInOrder(c, d, Utf16(x), Utf16(y));
  }

  lemma UnitsInOrder(c: char, d: char, x: seq<nat>, y: seq<nat>)
    requires c != d
    ensures Compare(Utf16Char(c) + x, Utf16Char(d) + y) == Less <==>
            if c as int >= 0x10000 && 0xE000 <= d as int < 0x10000 then true
            else if d as int >= 0x10000 && 0xE000 <= c as int < 0x10000 then false
            else c < d
  {
    var e, f := Utf16Char(c), Utf16Char(d);
    Utf16CharDecodes(c);
    Utf16CharDecodes(d);
    if e[0] == f[0] {
      assert e == [e[0], e[1]] && f == [f[0], f[1]];
      assert (e + x)[1..] == [e[1]] + x && (f + y)[1..] == [f[1]] + y;
    }
  }
}
