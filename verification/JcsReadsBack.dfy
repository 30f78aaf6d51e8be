/** What the encoder writes, the decoder reads, whatever text follows. */
module JcsReadsBack {
  import opened Wrappers
  import opened Sequences
  import opened Numerals
  import opened Json
  import opened JcsDecoder

  // ---- what the encoder writes, the decoder reads -------------------------------------

  lemma NatTextDigits(n: nat)
    ensures NatText(n) != "" && forall i | 0 <= i < |NatText(n)| :: IsDigit(NatText(n)[i])
    ensures DigitsOf(NatText(n)) == Numeral(10, n)
  {
    NumeralDenotes(10, n);
  }

  lemma ReadNatOfText(n: nat, rest: string)
    requires !StartsWithDigit(rest)
    ensures ReadNat(NatText(n) + rest) == Some(Read(n, rest))
  {
    NatTextDigits(n);
    NumeralDenotes(10, n);
    var t := NatText(n);
    var s := t + rest;
    var k := DigitRun(s);
    assert s[..|t|] == t && s[|t|..] == rest;
    assert forall i | 0 <= i < |t| :: s[i] == t[i];
    assert rest != "" ==> s[|t|] == rest[0];
    assert |t| > 1 ==> t[0] != '0' by { assert DigitsOf(t)[0] == DigitValue(t[0]); }
  }

  lemma ReadIntOfText(n: int, rest: string)
    requires !StartsWithDigit(rest)
    ensures ReadInt(IntText(n) + rest) == Some(Read(n, rest))
  {
    var t := NatText(if n < 0 then -n else n);
    ReadNatOfText(if n < 0 then -n else n, rest);
    if n < 0 {
      assert ("-" + t) + rest == "-" + (t + rest);
      Split("-", t + rest);
    } else {
      NatTextDigits(n);
      assert (t + rest)[0] == t[0];
    }
  }

  lemma ReadEscapedChar(c: char, x: string)
    ensures ReadChars(EscapeChar(c) + x) == Prepend(c, ReadChars(x))
  {
    var s := EscapeChar(c) + x;
    if |EscapeChar(c)| == 1 {
      assert s[1..] == x;
    } else {
      ReadEscapeOfChar(c, x);
    }
  }

  lemma ReadEscapeOfChar(c: char, x: string)
    requires |EscapeChar(c)| > 1
    ensures var s := EscapeChar(c) + x; s[0] == '\\' && ReadEscape(s[1..]) == Some(Read(c, x))
  {
    var s := EscapeChar(c) + x;
    if |EscapeChar(c)| == 2 {
      assert s[1..][1..] == x;
    } else {
      assert s[1..][5..] == x;
    }
  }

  lemma {:induction false} ReadEscaped(t: string, rest: string)
    ensures ReadChars(Escaped(t) + ("\"" + rest)) == Some(Read(t, rest))
  {
    if t == "" {
      assert Escaped(t) + ("\"" + rest) == "\"" + rest;
    } else {
      ReadEscaped(t[1..], rest);
      var x := Escaped(t[1..]) + ("\"" + rest);
      ReadEscapedChar(t[0], x);
      Associate(EscapeChar(t[0]), Escaped(t[1..]), "\"" + rest);
      assert Escaped(t) + ("\"" + rest) == EscapeChar(t[0]) + x;
      assert [t[0]] + t[1..] == t;
    }
  }

  lemma QuoteConcat(t: string, rest: string)
    ensures Quote(t) + rest == "\"" + (Escaped(t) + ("\"" + rest))
  {
    Associate("\"" + Escaped(t), "\"", rest);
    Associate("\"", Escaped(t), "\"" + rest);
  }

  lemma ReadQuoted(t: string, rest: string)
    ensures (Quote(t) + rest) != "" && (Quote(t) + rest)[0] == '"'
    ensures ReadChars((Quote(t) + rest)[1..]) == Some(Read(t, rest))
  {
    ReadEscaped(t, rest);
    QuoteConcat(t, rest);
    Split("\"", Escaped(t) + ("\"" + rest));
  }

  lemma ReadsBackNumber(n: int, rest: string)
    requires !StartsWithDigit(rest)
    ensures ReadValue(IntText(n) + rest) == Some(Read(Number(n), rest))
  {
    ReadIntOfText(n, rest);
    FirstOfInt(n, rest);
    NotKeyword(IntText(n) + rest);
  }

  lemma NotKeyword(s: string)
    requires s != "" && (s[0] == '-' || IsDigit(s[0]))
    ensures !("null" <= s) && !("true" <= s) && !("false" <= s)
  {
    assert "null"[0] == 'n' && "true"[0] == 't' && "false"[0] == 'f';
  }

  /**
   The decoder recovers exactly the encoded value and leaves the following text, whatever
   it is, unless a digit there would extend a number.
   */
  lemma {:induction false} ReadsBack(v: Json, rest: string)
    requires !StartsWithDigit(rest)
    ensures ReadValue(Jcs(v) + rest) == Some(Read(v, rest))
    decreases v, 1
  {
    match v
    case Null => Split("null", rest);
    case Bool(b) => Split(if b then "true" else "false", rest);
    case Number(n) => ReadsBackNumber(n, rest);
    case Str(t) => ReadQuoted(t, rest);
    case Array(_) => ReadsBackArray(v, rest);
    case Object(_) => ReadsBackObject(v, rest);
  }

  lemma {:induction false} ReadsBackArray(v: Json, rest: string)
    requires v.Array?
    ensures ReadValue(Jcs(v) + rest) == Some(Read(v, rest))
    decreases v, 0, 0, 4
  {
    ReadsBackElements(v.items, rest);
    Associate("[", Elements(v.items), rest);
    Split("[", Elements(v.items) + rest);
  }

  lemma {:induction false} ReadsBackObject(v: Json, rest: string)
    requires v.Object?
    ensures ReadValue(Jcs(v) + rest) == Some(Read(v, rest))
    decreases v, 0, |SortedKeys(v.fields.Keys)|, 4
  {
    var ks := SortedKeys(v.fields.Keys);
    ReadsBackMembers(v, ks, rest);
    EntriesRecover(v, ks);
    Associate("{", Members(v, ks), rest);
    Split("{", Members(v, ks) + rest);
  }

  lemma FirstOfInt(n: int, rest: string)
    ensures IntText(n) + rest != ""
    ensures (IntText(n) + rest)[0] == '-' || IsDigit((IntText(n) + rest)[0])
  {
    if n >= 0 { NatTextDigits(n); }
  }

  lemma {:induction false} ReadsBackElements(items: seq<Json>, rest: string)
    ensures ReadElements(Elements(items) + rest) == Some(Read(items, rest))
    decreases items, 2
  {
    var s := Elements(items) + rest;
    if items == [] {
      assert s[1..] == rest;
    } else {
      ReadsBackElementThenMore(items, rest);
      Associate(Jcs(items[0]), MoreElements(items[1..]), rest);
      FirstOfValue(items[0], MoreElements(items[1..]) + rest);
    }
  }

  lemma {:induction false} ReadsBackElementThenMore(items: seq<Json>, rest: string)
    requires items != []
    ensures ReadElementThenMore(Jcs(items[0]) + (MoreElements(items[1..]) + rest)) == Some(Read(items, rest))
    decreases items, 0
  {
    ReadsBack(items[0], MoreElements(items[1..]) + rest);
    ReadsBackMoreElements(items[1..], rest);
    assert [items[0]] + items[1..] == items;
  }

  lemma {:induction false} ReadsBackMoreElements(items: seq<Json>, rest: string)
    ensures ReadMoreElements(MoreElements(items) + rest) == Some(Read(items, rest))
    decreases items, 1
  {
    if items == [] {
      Split("]", rest);
    } else {
      ReadsBackElementThenMore(items, rest);
      Associate(Jcs(items[0]), MoreElements(items[1..]), rest);
      Associate(",", Jcs(items[0]) + MoreElements(items[1..]), rest);
      Split(",", Jcs(items[0]) + (MoreElements(items[1..]) + rest));
    }
  }

  lemma FirstOfValue(v: Json, rest: string)
    ensures Jcs(v) + rest != "" && (Jcs(v) + rest)[0] != ']'
  {
    match v
    case Number(n) => FirstOfInt(n, rest);
    case _ =>
  }

  ghost function EntriesOf(v: Json, ks: seq<string>): seq<Entry>
    requires v.Object? && forall k | k in ks :: k in v.fields
  {
    if ks == [] then [] else [Entry(ks[0], v.fields[ks[0]])] + EntriesOf(v, ks[1..])
  }

  lemma {:induction false} ReadsBackMembers(v: Json, ks: seq<string>, rest: string)
    requires v.Object? && forall k | k in ks :: k in v.fields
    ensures ReadMembers(Members(v, ks) + rest) == Some(Read(EntriesOf(v, ks), rest))
    decreases v, 0, |ks|, 3
  {
    var s := Members(v, ks) + rest;
    if ks == [] {
      assert s[1..] == rest;
    } else {
      ReadsBackMemberThenMore(v, ks, rest);
      assert s == Member(v, ks[0]) + (MoreMembers(v, ks[1..]) + rest);
      assert s[0] == '"';
    }
  }

  lemma {:induction false} ReadsBackMemberThenMore(v: Json, ks: seq<string>, rest: string)
    requires v.Object? && ks != [] && forall k | k in ks :: k in v.fields
    ensures ReadMemberThenMore(Member(v, ks[0]) + (MoreMembers(v, ks[1..]) + rest))
         == Some(Read(EntriesOf(v, ks), rest))
    decreases v, 0, |ks|, 1
  {
    ReadsBackMember(v, ks[0], MoreMembers(v, ks[1..]) + rest);
    ReadsBackMoreMembers(v, ks[1..], rest);
  }

  lemma {:induction false} ReadsBackMoreMembers(v: Json, ks: seq<string>, rest: string)
    requires v.Object? && forall k | k in ks :: k in v.fields
    ensures ReadMoreMembers(MoreMembers(v, ks) + rest) == Some(Read(EntriesOf(v, ks), rest))
    decreases v, 0, |ks|, 2
  {
    if ks == [] {
      Split("}", rest);
    } else {
      ReadsBackMemberThenMore(v, ks, rest);
      Associate(Member(v, ks[0]), MoreMembers(v, ks[1..]), rest);
      Associate(",", Member(v, ks[0]) + MoreMembers(v, ks[1..]), rest);
      Split(",", Member(v, ks[0]) + (MoreMembers(v, ks[1..]) + rest));
    }
  }

  lemma {:induction false} ReadsBackMember(v: Json, k: string, rest: string)
    requires v.Object? && k in v.fields && !StartsWithDigit(rest)
    ensures ReadMember(Member(v, k) + rest) == Some(Read(Entry(k, v.fields[k]), rest))
    decreases v, 0, 0
  {
    var text := Jcs(v.fields[k]);
    var after := ":" + (text + rest);
    Associate(Quote(k), ":" + text, rest);
    Associate(":", text, rest);
    ReadQuoted(k, after);
    ReadsBack(v.fields[k], rest);
    Split(":", text + rest);
  }

  lemma {:induction false} EntriesFields(v: Json, ks: seq<string>)
    requires v.Object? && forall k | k in ks :: k in v.fields
    ensures Keys(EntriesOf(v, ks)) == ks
    ensures forall k :: k in FieldsOf(EntriesOf(v, ks)) <==> k in ks
    ensures forall k | k in ks :: FieldsOf(EntriesOf(v, ks))[k] == v.fields[k]
  {
    if ks == [] {
    } else {
      EntriesFields(v, ks[1..]);
      var es := EntriesOf(v, ks);
      assert es[1..] == EntriesOf(v, ks[1..]);
      assert Keys(es) == [ks[0]] + Keys(es[1..]);
    }
  }

  lemma EntriesRecover(v: Json, ks: seq<string>)
    requires v.Object? && Lists(ks, v.fields.Keys)
    ensures Keys(EntriesOf(v, ks)) == ks && FieldsOf(EntriesOf(v, ks)) == v.fields
  {
    EntriesFields(v, ks);
  }
}
