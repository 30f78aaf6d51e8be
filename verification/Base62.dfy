/**
 Base62 texts of 128-bit ids and of arbitrary byte strings.

 Texts are their ASCII bytes. The alphabet lists digits, upper case and lower case in
 ASCII order, which is what makes texts sort like the numbers they spell.
 */
module Base62 {
  import opened Wrappers
  import opened Numerals
  import opened Orders
  import opened Unicode

  const DECIMALS := "0123456789"
  const UPPER := "ABCDEFGHIJKLMNOPQRSTUVWXYZ"
  const LOWER := "abcdefghijklmnopqrstuvwxyz"
  const BASE62 := DECIMALS + UPPER + LOWER
  const INVALID: Byte := 255
  const TWO_128: nat := 0x1_0000_0000_0000_0000_0000_0000_0000_0000

  function Symbol(d: nat): Byte
    requires d < 62
  {
    if d < 10 then 48 + d else if d < 36 then 55 + d else 61 + d
  }

  predicate IsSymbol(b: Byte) {
    48 <= b < 58 || 65 <= b < 91 || 97 <= b < 123
  }

  function DigitOf(b: Byte): nat
    requires IsSymbol(b)
    ensures DigitOf(b) < 62 && Symbol(DigitOf(b)) == b
  {
    if b < 58 then b - 48 else if b < 91 then b - 55 else b - 61
  }

  lemma AlphabetIsSpelled(d: nat)
    requires d < 62
    ensures |BASE62| == 62 && BASE62[d] as int == Symbol(d)
  {
    assert |DECIMALS| == 10 && |UPPER| == 26 && |LOWER| == 26;
    if d < 10 {
      assert BASE62[d] == DECIMALS[d];
    } else if d < 36 {
      assert BASE62[d] == UPPER[d - 10];
      UpperSymbol(d - 10);
    } else {
      assert BASE62[d] == LOWER[d - 36];
      LowerSymbol(d - 36);
    }
  }

  lemma UpperSymbol(d: nat)
    requires d < 26
    ensures |UPPER| == 26 && UPPER[d] as int == 65 + d
  {}

  lemma LowerSymbol(d: nat)
    requires d < 26
    ensures |LOWER| == 26 && LOWER[d] as int == 97 + d
  {}

  predicate AllSymbols(s: Bytes) {
    forall i | 0 <= i < |s| :: IsSymbol(s[i])
  }

  function Spell(ds: seq<nat>): Bytes
    requires AreDigits(62, ds)
  {
    seq(|ds|, i requires 0 <= i < |ds| => Symbol(ds[i]))
  }

  function Digits(s: Bytes): seq<nat>
    requires AllSymbols(s)
  {
    seq(|s|, i requires 0 <= i < |s| => DigitOf(s[i]))
  }

  /** Spelling is a bijection between digit sequences and symbol texts, and keeps their order. */
  lemma SpellDigits(s: Bytes)
    requires AllSymbols(s)
    ensures AreDigits(62, Digits(s)) && Spell(Digits(s)) == s
  {}

  lemma DigitsSpell(ds: seq<nat>)
    requires AreDigits(62, ds)
    ensures AllSymbols(Spell(ds)) && Digits(Spell(ds)) == ds
  {}

  lemma {:induction false} SpellKeepsOrder(a: seq<nat>, b: seq<nat>)
    requires AreDigits(62, a) && AreDigits(62, b)
    ensures Compare(Spell(a), Spell(b)) == Compare(a, b)
  {
    if a == [] || b == [] {
    } else {
      assert Spell(a)[1..] == Spell(a[1..]) && Spell(b)[1..] == Spell(b[1..]);
      SpellKeepsOrder(a[1..], b[1..]);
    }
  }

  /** 22 symbols have room for every 128-bit number. */
  lemma IdCapacity()
    ensures Pow(62, 22) > TWO_128 == Pow(256, 16)
  {
    MachineWidths();
    assert Pow(62, 2) == 3844 by { assert Pow(62, 1) == 62; }
    PowAdd(62, 2, 2);
    PowAdd(62, 4, 4);
    PowAdd(62, 8, 8);
    PowAdd(62, 16, 4);
    PowAdd(62, 20, 2);
  }

  // ---- specifications --------------------------------------------------------------------

  function U128Be(n: nat): (r: Bytes)
    ensures |r| == 16
  {
    FixedDenotes(256, 16, n);
    var ds := Fixed(256, 16, n);
    assert forall i | 0 <= i < |ds| :: ds[i] < 256;
    ds
  }

  /** The 22 symbols of a 16-byte id. */
  function UuidText(uuid: Bytes): (r: Bytes)
    ensures |r| == 22
  {
    FixedDenotes(62, 22, Value(256, uuid));
    Spell(Fixed(62, 22, Value(256, uuid)))
  }

  datatype DecodeError = WrongLength(len: nat) | InvalidCharacter(b: Byte) | Overflow

  /** Length of the longest prefix made of symbols. */
  function SymbolRun(s: Bytes): (k: nat)
    ensures k <= |s| && AllSymbols(s[..k]) && (k < |s| ==> !IsSymbol(s[k]))
  {
    if s == [] || !IsSymbol(s[0]) then 0
    else
      var k := SymbolRun(s[1..]);
      assert forall i | 0 <= i < k + 1 :: IsSymbol(s[i]) by {
        assert forall i | 1 <= i < k + 1 :: s[i] == s[1..][..k][i - 1];
      }
      k + 1
  }

  /**
   The outcome of decoding, as a reader would state it: the value of the leading symbols
   must fit in 128 bits, and then every byte must be a symbol.
   */
  function Decoded(s: Bytes): Result<Bytes, DecodeError> {
    if |s| != 22 then Err(WrongLength(|s|))
    else
      var k := SymbolRun(s);
      var n := Value(62, Digits(s[..k]));
      if n >= TWO_128 then Err(Overflow)
      else if k < 22 then Err(InvalidCharacter(s[k]))
      else Ok(U128Be(n))
  }

  // ---- the loops ---------------------------------------------------------------------------

  /** The digit a byte stands for, or 255. */
  function DecodeEntry(b: Byte): Byte {
    if IsSymbol(b) then DigitOf(b) else INVALID
  }

  method BuildDecodeTable() returns (table: array<Byte>)
    ensures fresh(table) && table.Length == 128
    ensures forall b | 0 <= b < 128 :: table[b] == DecodeEntry(b)
  {
    table := new Byte[128](_ => INVALID);
    var i := 0;
    while i < 62
      invariant 0 <= i <= 62
      invariant forall b | 0 <= b < 128 ::
                  table[b] == if DecodeEntry(b) < i then DecodeEntry(b) else INVALID
    {
      AlphabetIsSpelled(i);
      table[BASE62[i] as int] := i;
      i := i + 1;
    }
  }

  method UuidToBase62(uuid: Bytes) returns (text: Bytes)
    requires |uuid| == 16
    ensures text == UuidText(uuid)
  {
    var n := Value(256, uuid);
    var buf := new Byte[22](_ => 0);
    var i := 22;
    ghost var written: seq<nat> := [];
    while i > 0
      invariant 0 <= i <= 22 && |written| == 22 - i && AreDigits(62, written)
      invariant Fixed(62, 22, Value(256, uuid)) == Fixed(62, i, n) + written
      invariant forall j | i <= j < 22 :: buf[j] == Symbol(written[j - i])
    {
      i := i - 1;
      AlphabetIsSpelled(n % 62);
      buf[i] := BASE62[n % 62] as int;
      written := [n % 62] + written;
      n := n / 62;
    }
    text := buf[..];
  }

  /** `u8::try_from(q).unwrap_or(0)`; the division below never needs the 0. */
  function TryU8(q: nat): Byte {
    if q < 256 then q else 0
  }

  /** Bringing down one byte: `q` is the next quotient byte and `r` the next remainder. */
  lemma OneByteDivided(done: Bytes, read: Bytes, b: Byte, rem: nat, q: nat, r: nat)
    requires Value(256, done) * 62 + rem == Value(256, read) && q * 62 + r == rem * 256 + b
    ensures Value(256, done + [q]) * 62 + r == Value(256, read + [b])
    ensures Value(256, done + [q]) == 0 <==> Value(256, done) == 0 && q == 0
  {
    ValueAppend(256, done, q);
    ValueAppend(256, read, b);
  }

  /** One pass of long division: the array becomes its quotient by 62. */
  method DivideBy62(digits: array<Byte>) returns (rem: nat, allZero: bool)
    modifies digits
    ensures rem == Value(256, old(digits[..])) % 62
    ensures Value(256, digits[..]) == Value(256, old(digits[..])) / 62
    ensures allZero <==> Value(256, digits[..]) == 0
  {
    rem, allZero := 0, true;
    ghost var before := digits[..];
    var i := 0;
    while i < digits.Length
      invariant 0 <= i <= digits.Length && rem < 62
      invariant digits[i..] == before[i..]
      invariant Value(256, digits[..i]) * 62 + rem == Value(256, before[..i])
      invariant allZero <==> Value(256, digits[..i]) == 0
    {
      ghost var done := digits[..i];
      var cur := rem * 256 + digits[i];
      var q := cur / 62;
      OneByteDivided(done, before[..i], before[i], rem, q, cur % 62);
      rem := cur % 62;
      digits[i] := TryU8(q);
      assert digits[i] == q;
      if digits[i] != 0 { allZero := false; }
      i := i + 1;
      assert digits[..i] == done + [q] && before[..i] == before[..i - 1] + [before[i - 1]];
    }
    assert digits[..i] == digits[..] && before[..i] == before;
    DivModOf(62, Value(256, digits[..]), rem);
  }

  method Base62EncodeBytes(bytes: Bytes) returns (text: Bytes)
    ensures AreDigits(62, Numeral(62, Value(256, bytes)))
    ensures text == if bytes == [] then [] else Spell(Numeral(62, Value(256, bytes)))
  {
    ghost var n := Value(256, bytes);
    NumeralDenotes(62, n);
    if bytes == [] { return []; }
    var digits := new Byte[|bytes|](i requires 0 <= i < |bytes| => bytes[i]);
    assert digits[..] == bytes;
    var out: Bytes := [];
    ghost var tail: seq<nat> := [];
    var going := true;
    while going
      invariant AreDigits(62, tail) && Reversed(Spell(tail)) == out
      invariant Numeral(62, n) == (if going then Numeral(62, Value(256, digits[..])) else []) + tail
      decreases if going then Value(256, digits[..]) + 1 else 0
    {
      ghost var v := Value(256, digits[..]);
      var rem, allZero := DivideBy62(digits);
      DigitFound(n, v, tail, out);
      out := out + [BASE62[rem] as int];
      tail := [rem] + tail;
      going := !allZero;
    }
    text := Reversed(out);
    assert [] + tail == tail;
    ReversedTwice(Spell(tail));
  }

  lemma ReversedTwice(s: Bytes)
    ensures Reversed(Reversed(s)) == s
  {}

  /** What one pass of division adds to the digits found so far. */
  lemma DigitFound(n: nat, v: nat, tail: seq<nat>, out: Bytes)
    requires Numeral(62, n) == Numeral(62, v) + tail
    requires AreDigits(62, tail) && Reversed(Spell(tail)) == out
    ensures AreDigits(62, [v % 62] + tail) && |BASE62| == 62
    ensures Reversed(Spell([v % 62] + tail)) == out + [BASE62[v % 62] as int]
    ensures Numeral(62, n) == (if v / 62 == 0 then [] else Numeral(62, v / 62)) + ([v % 62] + tail)
    ensures v / 62 != 0 ==> v / 62 < v
  {
    AlphabetIsSpelled(v % 62);
    NumeralStep(v, tail);
    SpellCons(v % 62, tail);
  }

  function Reversed(s: Bytes): Bytes {
    seq(|s|, i requires 0 <= i < |s| => s[|s| - 1 - i])
  }

  lemma SpellCons(d: nat, tail: seq<nat>)
    requires d < 62 && AreDigits(62, tail)
    ensures Reversed(Spell([d] + tail)) == Reversed(Spell(tail)) + [Symbol(d)]
  {
    assert Spell([d] + tail) == [Symbol(d)] + Spell(tail);
  }

  /** Dividing moves the last digit of the numeral to the front of the digits already found. */
  lemma NumeralStep(v: nat, tail: seq<nat>)
    ensures Numeral(62, v) + tail == (if v / 62 == 0 then [] else Numeral(62, v / 62)) + ([v % 62] + tail)
    ensures v / 62 != 0 ==> v / 62 < v
  {
    if v < 62 {
      assert Numeral(62, v) == [v];
    } else {
      assert Numeral(62, v) + tail == Numeral(62, v / 62) + ([v % 62] + tail);
    }
  }

  method Base62ToUuid(s: Bytes) returns (r: Result<Bytes, DecodeError>)
    ensures r == Decoded(s)
  {
    if |s| != 22 { return Err(WrongLength(|s|)); }
    var table := BuildDecodeTable();
    var decode := table[..];
    var n := 0;
    var i := 0;
    while i < 22
      invariant 0 <= i <= 22 && n < TWO_128
      invariant AllSymbols(s[..i]) && n == Value(62, Digits(s[..i]))
    {
      var b := s[i];
      StopsAt(s, i);
      if b >= 128 { return Err(InvalidCharacter(b)); }
      var digit := decode[b];
      if digit == INVALID { return Err(InvalidCharacter(b)); }
      NextDigit(s, i);
      OverflowsAt(s, i + 1);
      if n * 62 >= TWO_128 { return Err(Overflow); }
      if n * 62 + digit >= TWO_128 { return Err(Overflow); }
      n := n * 62 + digit;
      i := i + 1;
    }
    StopsAt(s, i);
    r := Ok(U128Be(n));
  }

  lemma RunCovers(s: Bytes, i: nat)
    requires i <= |s| && AllSymbols(s[..i])
    ensures i <= SymbolRun(s)
  {
    var k := SymbolRun(s);
    assert forall j | 0 <= j < i :: s[..i][j] == s[j];
  }

  /** Where the leading symbols end within 128 bits, the outcome is settled. */
  lemma StopsAt(s: Bytes, i: nat)
    requires |s| == 22 && i <= 22 && AllSymbols(s[..i]) && Value(62, Digits(s[..i])) < TWO_128
    ensures i < 22 && !IsSymbol(s[i]) ==> Decoded(s) == Err(InvalidCharacter(s[i]))
    ensures i == 22 ==> Decoded(s) == Ok(U128Be(Value(62, Digits(s[..i]))))
  {
    RunCovers(s, i);
    if i < 22 && !IsSymbol(s[i]) {
      assert forall j | 0 <= j < SymbolRun(s) :: s[..SymbolRun(s)][j] == s[j];
    }
  }

  lemma OverflowsAt(s: Bytes, i: nat)
    requires |s| == 22 && i <= 22 && AllSymbols(s[..i])
    ensures Value(62, Digits(s[..i])) >= TWO_128 ==> Decoded(s) == Err(Overflow)
  {
    RunCovers(s, i);
    PrefixValue(s, i, SymbolRun(s));
  }

  lemma NextDigit(s: Bytes, i: nat)
    requires i < |s| && AllSymbols(s[..i]) && IsSymbol(s[i])
    ensures AllSymbols(s[..i + 1])
    ensures Value(62, Digits(s[..i + 1])) == Value(62, Digits(s[..i])) * 62 + DigitOf(s[i])
  {
    assert s[..i + 1] == s[..i] + [s[i]];
    assert Digits(s[..i + 1]) == Digits(s[..i]) + [DigitOf(s[i])];
    ValueAppend(62, Digits(s[..i]), DigitOf(s[i]));
  }

  /** Reading more symbols never lowers the value, so an early overflow is a final one. */
  lemma {:induction false} PrefixValue(s: Bytes, i: nat, k: nat)
    requires i <= |s| && k <= |s| && AllSymbols(s[..k])
    ensures i <= k ==> AllSymbols(s[..i]) && Value(62, Digits(s[..i])) <= Value(62, Digits(s[..k]))
    decreases k - i
  {
    if i <= k {
      assert forall j | 0 <= j < i :: s[..i][j] == s[..k][j];
      if i < k {
        assert s[i] == s[..k][i];
        NextDigit(s, i);
        PrefixValue(s, i + 1, k);
      }
    }
  }

  // ---- round trips and order ---------------------------------------------------------------

  /** Encoding then decoding returns the id. */
  lemma DecodeEncode(uuid: Bytes)
    requires |uuid| == 16
    ensures Decoded(UuidText(uuid)) == Ok(uuid)
  {
    var n, s := Value(256, uuid), UuidText(uuid);
    IdCapacity();
    ValueBound(256, uuid);
    FixedDenotes(62, 22, n);
    ModSmall(n, Pow(62, 22));
    DigitsSpell(Fixed(62, 22, n));
    AllSymbolsRun(s);
    FixedUnique(256, uuid);
  }

  lemma AllSymbolsRun(s: Bytes)
    ensures AllSymbols(s) <==> SymbolRun(s) == |s|
    ensures s[..|s|] == s
  {}

  /** Decoding succeeds exactly on 22 symbols spelling less than 2^128, and re-encodes to its input. */
  lemma EncodeDecode(s: Bytes)
    ensures Decoded(s).Ok? <==> |s| == 22 && AllSymbols(s) && Value(62, Digits(s)) < TWO_128
    ensures Decoded(s).Ok? ==> |Decoded(s).value| == 16 && UuidText(Decoded(s).value) == s
  {
    AllSymbolsRun(s);
    if Decoded(s).Ok? {
      var n := Value(62, Digits(s));
      IdCapacity();
      FixedDenotes(256, 16, n);
      ModSmall(n, TWO_128);
      SpellDigits(s);
      FixedUnique(62, Digits(s));
    }
  }

  /** Id texts sort like the ids, as byte strings and as 128-bit numbers. */
  lemma TextOrderIsIdOrder(u: Bytes, v: Bytes)
    requires |u| == 16 && |v| == 16
    ensures Compare(UuidText(u), UuidText(v)) == Compare(u, v) == CompareInts(Value(256, u), Value(256, v))
  {
    CompareIsNumeric(256, u, v);
    FixedOfId(u);
    FixedOfId(v);
    var x, y := Fixed(62, 22, Value(256, u)), Fixed(62, 22, Value(256, v));
    CompareIsNumeric(62, x, y);
    SpellKeepsOrder(x, y);
  }

  lemma FixedOfId(u: Bytes)
    requires |u| == 16
    ensures |Fixed(62, 22, Value(256, u))| == 22 && AreDigits(62, Fixed(62, 22, Value(256, u)))
    ensures Value(62, Fixed(62, 22, Value(256, u))) == Value(256, u) < TWO_128
  {
    IdCapacity();
    ValueBound(256, u);
    FixedDenotes(62, 22, Value(256, u));
    ModSmall(Value(256, u), Pow(62, 22));
  }

  /** The variable-width encoder of 16 bytes, left-padded with '0', is the fixed-width one. */
  lemma PaddedEncodingIsUuidText(u: Bytes)
    requires |u| == 16
    ensures AreDigits(62, Numeral(62, Value(256, u))) && |Numeral(62, Value(256, u))| <= 22
    ensures UuidText(u) == seq(22 - |Numeral(62, Value(256, u))|, _ => 48) + Spell(Numeral(62, Value(256, u)))
  {
    var n := Value(256, u);
    FixedOfId(u);
    IdCapacity();
    NumeralDenotes(62, n);
    FixedIsPadded(62, 22, n);
  }

  /** A text of the wrong length is refused for that; otherwise the first overflow or foreign byte decides. */
  lemma DecodeErrorsExactly(s: Bytes, b: Byte)
    ensures |s| != 22 ==> Decoded(s) == Err(WrongLength(|s|))
    ensures |s| == 22 ==>
            (Decoded(s) == Err(Overflow) <==>
             exists i | 0 <= i <= 22 :: AllSymbols(s[..i]) && Value(62, Digits(s[..i])) >= TWO_128)
    ensures |s| == 22 ==>
            (Decoded(s) == Err(InvalidCharacter(b)) <==>
             exists i | 0 <= i < 22 ::
               AllSymbols(s[..i]) && Value(62, Digits(s[..i])) < TWO_128 && !IsSymbol(s[i]) && s[i] == b)
  {
    if |s| == 22 {
      var k := SymbolRun(s);
      forall i | 0 <= i <= 22 && AllSymbols(s[..i])
        ensures Value(62, Digits(s[..i])) >= TWO_128 ==> Decoded(s) == Err(Overflow)
      {
        OverflowsAt(s, i);
      }
      forall i | 0 <= i < 22 && AllSymbols(s[..i]) && Value(62, Digits(s[..i])) < TWO_128 && !IsSymbol(s[i])
        ensures Decoded(s) == Err(InvalidCharacter(s[i]))
      {
        StopsAt(s, i);
      }
    }
  }
}
