/**
 Positional numerals, most significant digit first, in any base.

 Four encodings of the program are instances: big-endian integers (base 256),
 base62 ids (base 62), decimal texts (base 10) and the `\u00xx` escape (base 16).
 */
module Numerals {

  const U64_MAX: nat := 0xFFFF_FFFF_FFFF_FFFF

  function Pow(b: nat, e: nat): nat {
    if e == 0 then 1 else b * Pow(b, e - 1)
  }

  /** The number a digit sequence denotes. */
  function Value(b: nat, ds: seq<nat>): nat {
    if ds == [] then 0 else Value(b, ds[..|ds| - 1]) * b + ds[|ds| - 1]
  }

  predicate AreDigits(b: nat, ds: seq<nat>) {
    forall i | 0 <= i < |ds| :: ds[i] < b
  }

  /** The shortest numeral of `n`; zero is the single digit 0. */
  function Numeral(b: nat, n: nat): seq<nat>
    requires b >= 2
    decreases n
  {
    if n < b then [n] else QuotientShrinks(b, n); Numeral(b, n / b) + [n % b]
  }

  /** The `w` low digits of `n`: higher digits are dropped. */
  function Fixed(b: nat, w: nat, n: nat): seq<nat>
    requires b >= 2
  {
    if w == 0 then [] else Fixed(b, w - 1, n / b) + [n % b]
  }

  predicate NoLeadingZero(ds: seq<nat>) {
    |ds| >= 1 && (|ds| > 1 ==> ds[0] != 0)
  }

  // ---- arithmetic ----------------------------------------------------------

  lemma QuotientShrinks(b: nat, n: nat)
    requires b >= 2 && n > 0
    ensures n / b < n
  {}

  lemma ScaleUp(x: nat, y: nat, b: nat)
    requires x <= y
    ensures x * b <= y * b
  {}

  lemma MulDistribute(x: int, y: int, b: int)
    ensures (x + y) * b == x * b + y * b
  {}

  lemma MulAssociate(x: int, y: int, z: int)
    ensures (x * y) * z == x * (z * y)
  {}

  lemma DivModOf(b: nat, q: nat, r: nat)
    requires r < b
    ensures (q * b + r) / b == q && (q * b + r) % b == r
  {
    var n := q * b + r;
    NoMultipleBetween(b, n / b - q, r - n % b);
  }

  lemma NoMultipleBetween(b: nat, d: int, e: int)
    requires d * b == e && 0 - b < e < b
    ensures d == 0
  {}

  lemma QuotientPositive(b: nat, n: nat)
    requires 0 < b <= n
    ensures n / b > 0
  {}

  lemma DivideBack(b: nat, n: nat)
    requires b > 0
    ensures (n / b) * b + n % b == n
  {}

  lemma ModSplit(n: nat, b: nat, p: nat)
    requires b > 0 && p > 0
    ensures b * p > 0 && n % (b * p) == ((n / b) % p) * b + n % b
  {
    var k, m, r := (n / b) / p, (n / b) % p, n % b;
    assert n / b == k * p + m;
    MulDistribute(k * p, m, b);
    MulAssociate(k, p, b);
    assert n == k * (p * b) + (m * b + r);
    ScaleUp(m + 1, p, b);
    MulDistribute(m, 1, b);
    DivModOf(p * b, k, m * b + r);
  }

  lemma PowPositive(b: nat, e: nat)
    requires b >= 1
    ensures Pow(b, e) >= 1
  {
    if e == 0 {
    } else {
      PowPositive(b, e - 1);
    }
  }

  lemma PowAdd(b: nat, d: nat, e: nat)
    ensures Pow(b, d + e) == Pow(b, d) * Pow(b, e)
  {
    if d == 0 {
    } else {
      PowAdd(b, d - 1, e);
      assert b * (Pow(b, d - 1) * Pow(b, e)) == (b * Pow(b, d - 1)) * Pow(b, e);
    }
  }

  lemma PowMonotone(b: nat, d: nat, e: nat)
    requires b >= 1 && d <= e
    ensures Pow(b, d) <= Pow(b, e)
  {
    var p, q := Pow(b, d), Pow(b, e - d);
    PowAdd(b, d, e - d);
    PowPositive(b, e - d);
    ScaleUp(1, q, p);
    assert Pow(b, e) == p * q == q * p;
  }

  // ---- values ----------------------------------------------------------------

  lemma ValueAppend(b: nat, ds: seq<nat>, d: nat)
    ensures Value(b, ds + [d]) == Value(b, ds) * b + d
  {
    assert (ds + [d])[..|ds|] == ds;
  }

  lemma SingleDigit(b: nat, d: nat)
    ensures Value(b, [d]) == d
  {
    assert [d][..0] == [];
  }

  lemma ValueConcat(b: nat, xs: seq<nat>, ys: seq<nat>)
    ensures Value(b, xs + ys) == Value(b, xs) * Pow(b, |ys|) + Value(b, ys)
  {
    if ys == [] {
      assert xs + ys == xs;
    } else {
      var init, d := ys[..|ys| - 1], ys[|ys| - 1];
      ValueConcat(b, xs, init);
      assert xs + ys == (xs + init) + [d];
      ValueAppend(b, xs + init, d);
      MulDistribute(Value(b, xs) * Pow(b, |init|), Value(b, init), b);
      MulAssociate(Value(b, xs), Pow(b, |init|), b);
      assert Value(b, ys) == Value(b, init) * b + d;
    }
  }

  lemma ValueBound(b: nat, ds: seq<nat>)
    requires AreDigits(b, ds)
    ensures Value(b, ds) < Pow(b, |ds|)
  {
    if ds == [] {
    } else {
      var init := ds[..|ds| - 1];
      ValueBound(b, init);
      ScaleUp(Value(b, init) + 1, Pow(b, |init|), b);
      MulDistribute(Value(b, init), 1, b);
    }
  }

  lemma LeadingDigitBound(b: nat, ds: seq<nat>)
    requires |ds| >= 1 && ds[0] != 0
    ensures Value(b, ds) >= Pow(b, |ds| - 1)
  {
    assert ds == ds[..1] + ds[1..];
    ValueConcat(b, ds[..1], ds[1..]);
    assert ds[..1] == [ds[0]];
    SingleDigit(b, ds[0]);
    ScaleUp(1, ds[0], Pow(b, |ds| - 1));
  }

  // ---- numerals denote, and denote uniquely ------------------------------------

  lemma {:induction false} NumeralDenotes(b: nat, n: nat)
    requires b >= 2
    ensures AreDigits(b, Numeral(b, n)) && NoLeadingZero(Numeral(b, n))
    ensures Value(b, Numeral(b, n)) == n
    ensures n > 0 ==> Numeral(b, n)[0] != 0
    decreases n
  {
    if n < b {
      SingleDigit(b, n);
    } else {
      var q, r := n / b, n % b;
      QuotientShrinks(b, n);
      QuotientPositive(b, n);
      DivideBack(b, n);
      NumeralDenotes(b, q);
      ValueAppend(b, Numeral(b, q), r);
    }
  }

  lemma AtLeastBase(b: nat, ds: seq<nat>)
    requires b >= 1 && |ds| >= 2 && ds[0] != 0
    ensures Value(b, ds) >= b
  {
    LeadingDigitBound(b, ds);
    PowMonotone(b, 1, |ds| - 1);
    assert Pow(b, 1) == b * Pow(b, 0);
  }

  lemma {:induction false} NumeralUnique(b: nat, ds: seq<nat>)
    requires b >= 2 && AreDigits(b, ds) && NoLeadingZero(ds)
    ensures Numeral(b, Value(b, ds)) == ds
  {
    var init, d := ds[..|ds| - 1], ds[|ds| - 1];
    var n := Value(b, ds);
    if |ds| == 1 {
      assert init == [];
    } else {
      NumeralUnique(b, init);
      AtLeastBase(b, ds);
      DivModOf(b, Value(b, init), d);
      assert n / b == Value(b, init) && n % b == d;
    }
  }

  lemma {:induction false} FixedDenotes(b: nat, w: nat, n: nat)
    requires b >= 2
    ensures |Fixed(b, w, n)| == w && AreDigits(b, Fixed(b, w, n))
    ensures Pow(b, w) > 0 && Value(b, Fixed(b, w, n)) == n % Pow(b, w)
  {
    PowPositive(b, w);
    if w == 0 {
    } else {
      FixedDenotes(b, w - 1, n / b);
      ValueAppend(b, Fixed(b, w - 1, n / b), n % b);
      ModSplit(n, b, Pow(b, w - 1));
    }
  }

  lemma {:induction false} FixedUnique(b: nat, ds: seq<nat>)
    requires b >= 2 && AreDigits(b, ds)
    ensures Fixed(b, |ds|, Value(b, ds)) == ds
  {
    if ds == [] {
    } else {
      FixedUnique(b, ds[..|ds| - 1]);
      DivModOf(b, Value(b, ds[..|ds| - 1]), ds[|ds| - 1]);
    }
  }

  /** Below the capacity of the field, a fixed-width numeral identifies its number. */
  lemma FixedInjective(b: nat, w: nat, m: nat, n: nat)
    requires b >= 2 && m < Pow(b, w) && n < Pow(b, w)
    requires Fixed(b, w, m) == Fixed(b, w, n)
    ensures m == n
  {
    FixedDenotes(b, w, m);
    FixedDenotes(b, w, n);
    ModSmall(m, Pow(b, w));
    ModSmall(n, Pow(b, w));
  }

  lemma ModSmall(n: nat, m: nat)
    requires n < m
    ensures n % m == n && n / m == 0
  {
    DivModOf(m, 0, n);
  }

  lemma NumeralFits(b: nat, w: nat, n: nat)
    requires b >= 2 && w >= 1 && n < Pow(b, w)
    ensures |Numeral(b, n)| <= w
  {
    NumeralDenotes(b, n);
    var ds := Numeral(b, n);
    if |ds| > w {
      LeadingDigitBound(b, ds);
      PowMonotone(b, w, |ds| - 1);
    }
  }

  /** A fixed-width numeral is the shortest one padded on the left with zeros. */
  lemma {:induction false} FixedIsPadded(b: nat, w: nat, n: nat)
    requires b >= 2 && w >= 1 && n < Pow(b, w)
    ensures |Numeral(b, n)| <= w
    ensures Fixed(b, w, n) == seq(w - |Numeral(b, n)|, _ => 0) + Numeral(b, n)
  {
    NumeralFits(b, w, n);
    NumeralDenotes(b, n);
    var ds := Numeral(b, n);
    var pad: seq<nat> := seq(w - |ds|, _ => 0);
    ValueZeros(b, w - |ds|);
    ZerosInFront(b, pad, ds);
  }

  lemma ZerosInFront(b: nat, pad: seq<nat>, ds: seq<nat>)
    requires b >= 2 && AreDigits(b, pad) && AreDigits(b, ds) && Value(b, pad) == 0
    ensures Fixed(b, |pad| + |ds|, Value(b, ds)) == pad + ds
  {
    ValueConcat(b, pad, ds);
    assert 0 * Pow(b, |ds|) == 0;
    FixedUnique(b, pad + ds);
  }

  lemma ValueZeros(b: nat, k: nat)
    ensures Value(b, seq(k, _ => 0)) == 0
  {
    if k == 0 {
    } else {
      var zs: seq<nat> := seq(k, _ => 0);
      assert zs[..k - 1] == seq(k - 1, _ => 0);
      ValueZeros(b, k - 1);
    }
  }

  /** Capacities of the machine integers the program uses. */
  lemma MachineWidths()
    ensures Pow(256, 6) == 0x1_0000_0000_0000
    ensures Pow(256, 8) == 0x1_0000_0000_0000_0000
    ensures Pow(256, 10) == 0x1_0000_0000_0000_0000_0000
    ensures Pow(256, 16) == 0x1_0000_0000_0000_0000_0000_0000_0000_0000
    ensures Pow(10, 20) > U64_MAX
  {
    assert Pow(256, 2) == 0x1_0000 by { assert Pow(256, 1) == 256; }
    PowAdd(256, 2, 2);
    PowAdd(256, 4, 2);
    PowAdd(256, 4, 4);
    PowAdd(256, 8, 2);
    PowAdd(256, 8, 8);
    assert Pow(10, 4) == 10_000 by { PowAdd(10, 2, 2); assert Pow(10, 2) == 10 * Pow(10, 1); }
    PowAdd(10, 4, 4);
    PowAdd(10, 8, 8);
    PowAdd(10, 16, 4);
  }
}
