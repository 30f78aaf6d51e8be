/** Lexicographic comparison, as the standard library orders strings and code-unit streams. */
module Orders {
  import opened Numerals

  datatype Ordering = Less | Equal | Greater

  function Compare(a: seq<nat>, b: seq<nat>): Ordering {
    if a == [] then (if b == [] then Equal else Less)
    else if b == [] then Greater
    else if a[0] < b[0] then Less
    else if a[0] > b[0] then Greater
    else Compare(a[1..], b[1..])
  }

  function Reverse(o: Ordering): Ordering {
    match o case Less => Greater case Equal => Equal case Greater => Less
  }

  lemma {:induction false} CompareEqual(a: seq<nat>, b: seq<nat>)
    ensures Compare(a, b) == Equal <==> a == b
  {
    if a == [] || b == [] || a[0] != b[0] {
    } else {
      CompareEqual(a[1..], b[1..]);
      assert a == [a[0]] + a[1..] && b == [b[0]] + b[1..];
    }
  }

  lemma {:induction false} CompareReverse(a: seq<nat>, b: seq<nat>)
    ensures Compare(b, a) == Reverse(Compare(a, b))
  {
    if a == [] || b == [] || a[0] != b[0] {
    } else {
      CompareReverse(a[1..], b[1..]);
    }
  }

  lemma {:induction false} CompareTransitive(a: seq<nat>, b: seq<nat>, c: seq<nat>)
    requires Compare(a, b) == Less && Compare(b, c) == Less
    ensures Compare(a, c) == Less
  {
    if a == [] || a[0] != b[0] || b[0] != c[0] {
    } else {
      CompareTransitive(a[1..], b[1..], c[1..]);
    }
  }

  lemma {:induction false} ComparePrefix(p: seq<nat>, a: seq<nat>, b: seq<nat>)
    ensures Compare(p + a, p + b) == Compare(a, b)
  {
    if p == [] {
      assert p + a == a && p + b == b;
    } else {
      assert (p + a)[1..] == p[1..] + a && (p + b)[1..] == p[1..] + b;
      ComparePrefix(p[1..], a, b);
    }
  }

  function CompareInts(m: int, n: int): Ordering {
    if m < n then Less else if m == n then Equal else Greater
  }

  /** On numerals of one width, lexicographic order is numeric order. */
  lemma {:induction false} CompareIsNumeric(b: nat, x: seq<nat>, y: seq<nat>)
    requires AreDigits(b, x) && AreDigits(b, y) && |x| == |y|
    ensures Compare(x, y) == CompareInts(Value(b, x), Value(b, y))
  {
    if x == [] {
    } else {
      CompareIsNumeric(b, x[1..], y[1..]);
      HeadSplit(b, x);
      HeadSplit(b, y);
      if x[0] < y[0] {
        HeadDominates(b, x, y);
      } else if y[0] < x[0] {
        HeadDominates(b, y, x);
      }
    }
  }

  lemma HeadSplit(b: nat, x: seq<nat>)
    requires |x| >= 1
    ensures Value(b, x) == x[0] * Pow(b, |x| - 1) + Value(b, x[1..])
  {
    assert x == [x[0]] + x[1..];
    SingleDigit(b, x[0]);
    ValueConcat(b, [x[0]], x[1..]);
  }

  lemma HeadDominates(b: nat, x: seq<nat>, y: seq<nat>)
    requires AreDigits(b, x) && AreDigits(b, y) && |x| == |y| >= 1 && x[0] < y[0]
    ensures Value(b, x) < Value(b, y)
  {
    HeadSplit(b, x);
    HeadSplit(b, y);
    ValueBound(b, x[1..]);
    ScaleUp(x[0] + 1, y[0], Pow(b, |x| - 1));
    MulDistribute(x[0], 1, Pow(b, |x| - 1));
  }
}
