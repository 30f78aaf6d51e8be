/** The decoder accepts canonical text and nothing else: what it reads is what the encoder writes. */
module JcsCanonical {
  import opened Wrappers
  import opened Sequences
  import opened Numerals
  import opened Json
  import opened JcsDecoder
  import opened JcsReadsBack

  // ---- what the decoder reads is what the encoder writes --------------------------------

  lemma TextOfNat(s: string)
    requires ReadNat(s).Some?
    ensures s == NatText(ReadNat(s).value.value) + ReadNat(s).value.rest
  {
    var k := DigitRun(s);
    var ds := DigitsOf(s[..k]);
    assert NoLeadingZero(ds);
    NumeralUnique(10, ds);
    assert DigitText(ds) == s[..k];
  }

  lemma TextOfInt(s: string)
    requires ReadInt(s).Some?
    ensures s == IntText(ReadInt(s).value.value) + ReadInt(s).value.rest
  {
    if s[0] == '-' {
      TextOfNat(s[1..]);
      assert s == "-" + s[1..];
      TextOfNegative(ReadNat(s[1..]).value.value, ReadNat(s[1..]).value.rest);
    } else {
      TextOfNat(s);
    }
  }

  lemma TextOfNegative(n: nat, rest: string)
    requires n > 0
    ensures "-" + (NatText(n) + rest) == IntText(0 - n as int) + rest
  {
    Associate("-", NatText(n), rest);
  }

  lemma TextOfEscape(s: string)
    requires s != "" && s[0] == '\\' && ReadEscape(s[1..]).Some?
    ensures s == EscapeChar(ReadEscape(s[1..]).value.value) + ReadEscape(s[1..]).value.rest
  {
    var e := EscapeChar(ReadEscape(s[1..]).value.value);
    assert |e| <= |s| && s[..|e|] == e;
  }

  lemma {:induction false} TextOfChars(s: string)
    requires ReadChars(s).Some?
    ensures s == Escaped(ReadChars(s).value.value) + ("\"" + ReadChars(s).value.rest)
    decreases |s|
  {
    if s[0] == '"' {
      assert s == "\"" + s[1..];
    } else if s[0] == '\\' {
      TextOfEscape(s);
      var r := ReadEscape(s[1..]).value;
      TextOfChars(r.rest);
      assert ReadChars(s) == Prepend(r.value, ReadChars(r.rest));
      EscapedCons(r.value, ReadChars(r.rest).value.value, "\"" + ReadChars(r.rest).value.rest);
    } else {
      TextOfChars(s[1..]);
      assert s == [s[0]] + s[1..] && EscapeChar(s[0]) == [s[0]];
      assert ReadChars(s) == Prepend(s[0], ReadChars(s[1..]));
      EscapedCons(s[0], ReadChars(s[1..]).value.value, "\"" + ReadChars(s[1..]).value.rest);
    }
  }

  lemma EscapedCons(c: char, t: string, x: string)
    ensures Escaped([c] + t) + x == EscapeChar(c) + (Escaped(t) + x)
  {
    assert ([c] + t)[1..] == t;
    Associate(EscapeChar(c), Escaped(t), x);
  }

  lemma Strip(p: string, s: string)
    requires p <= s
    ensures s == p + s[|p|..]
  {}

  lemma WritesBackString(s: string)
    requires s != "" && s[0] == '"' && ReadValue(s).Some?
    ensures s == Jcs(ReadValue(s).value.value) + ReadValue(s).value.rest
  {
    TextOfChars(s[1..]);
    var r := ReadChars(s[1..]).value;
    assert s == "\"" + s[1..];
    QuoteConcat(r.value, r.rest);
  }

  /** Every accepted text is the canonical text of the value it denotes. */
  lemma {:induction false} WritesBack(s: string)
    requires ReadValue(s).Some?
    ensures s == Jcs(ReadValue(s).value.value) + ReadValue(s).value.rest
    decreases |s|, 1
  {
    if s[0] == '"' {
      WritesBackString(s);
    } else if s[0] == '[' {
      WritesBackElements(s[1..]);
      var r := ReadElements(s[1..]).value;
      Associate("[", Elements(r.value), r.rest);
      assert s == "[" + s[1..];
    } else if s[0] == '{' {
      WritesBackObject(s);
    } else if "null" <= s {
      Strip("null", s);
    } else if "true" <= s {
      Strip("true", s);
    } else if "false" <= s {
      Strip("false", s);
    } else {
      TextOfInt(s);
    }
  }

  lemma {:induction false} WritesBackObject(s: string)
    requires s != "" && s[0] == '{' && ReadValue(s).Some?
    ensures s == Jcs(ReadValue(s).value.value) + ReadValue(s).value.rest
    decreases |s|, 0
  {
    WritesBackMembers(s[1..]);
    var es := ReadMembers(s[1..]).value.value;
    FieldsOfEntries(es, FieldsOf(es));
    Associate("{", EntriesText(es), ReadMembers(s[1..]).value.rest);
    assert s == "{" + s[1..];
  }

  lemma {:induction false} WritesBackElements(s: string)
    requires ReadElements(s).Some?
    ensures s == Elements(ReadElements(s).value.value) + ReadElements(s).value.rest
    decreases |s|, 3
  {
    if s[0] == ']' {
      assert s == "]" + s[1..];
    } else {
      WritesBackElementThenMore(s);
    }
  }

  lemma {:induction false} WritesBackElementThenMore(s: string)
    requires ReadElementThenMore(s).Some?
    ensures ReadElementThenMore(s).value.value != []
    ensures s == Elements(ReadElementThenMore(s).value.value) + ReadElementThenMore(s).value.rest
    decreases |s|, 2
  {
    WritesBack(s);
    var v, mid := ReadValue(s).value.value, ReadValue(s).value.rest;
    var more := ReadMoreElements(mid).value;
    WritesBackMoreElements(mid);
    assert ([v] + more.value)[1..] == more.value;
    Associate(Jcs(v), MoreElements(more.value), more.rest);
  }

  lemma {:induction false} WritesBackMoreElements(s: string)
    requires ReadMoreElements(s).Some?
    ensures s == MoreElements(ReadMoreElements(s).value.value) + ReadMoreElements(s).value.rest
    decreases |s|, 0
  {
    if s[0] == ']' {
      assert s == "]" + s[1..];
    } else {
      WritesBackElementThenMore(s[1..]);
      var r := ReadElementThenMore(s[1..]).value;
      Associate(",", Elements(r.value), r.rest);
      assert s == "," + s[1..];
    }
  }

  /** The text of a list of members, in the order listed. */
  ghost function EntriesText(es: seq<Entry>): string {
    if es == [] then "}" else EntryText(es[0]) + MoreEntriesText(es[1..])
  }

  ghost function MoreEntriesText(es: seq<Entry>): string {
    if es == [] then "}" else "," + (EntryText(es[0]) + MoreEntriesText(es[1..]))
  }

  ghost function EntryText(e: Entry): string {
    Quote(e.key) + (":" + Jcs(e.value))
  }

  lemma {:induction false} WritesBackMembers(s: string)
    requires ReadMembers(s).Some?
    ensures s == EntriesText(ReadMembers(s).value.value) + ReadMembers(s).value.rest
    decreases |s|, 3
  {
    if s[0] == '}' {
      assert s == "}" + s[1..];
    } else {
      WritesBackMemberThenMore(s);
    }
  }

  lemma {:induction false} WritesBackMemberThenMore(s: string)
    requires ReadMemberThenMore(s).Some?
    ensures ReadMemberThenMore(s).value.value != []
    ensures s == EntriesText(ReadMemberThenMore(s).value.value) + ReadMemberThenMore(s).value.rest
    decreases |s|, 2
  {
    WritesBackMember(s);
    var e, mid := ReadMember(s).value.value, ReadMember(s).value.rest;
    var more := ReadMoreMembers(mid).value;
    WritesBackMoreMembers(mid);
    assert ([e] + more.value)[1..] == more.value;
    Associate(EntryText(e), MoreEntriesText(more.value), more.rest);
  }

  lemma {:induction false} WritesBackMoreMembers(s: string)
    requires ReadMoreMembers(s).Some?
    ensures s == MoreEntriesText(ReadMoreMembers(s).value.value) + ReadMoreMembers(s).value.rest
    decreases |s|, 0
  {
    if s[0] == '}' {
      assert s == "}" + s[1..];
    } else {
      WritesBackMemberThenMore(s[1..]);
      var r := ReadMemberThenMore(s[1..]).value;
      Associate(",", EntriesText(r.value), r.rest);
      assert s == "," + s[1..];
    }
  }

  lemma {:induction false} WritesBackMember(s: string)
    requires ReadMember(s).Some?
    ensures s == EntryText(ReadMember(s).value.value) + ReadMember(s).value.rest
    decreases |s|, 0
  {
    TextOfChars(s[1..]);
    var k := ReadChars(s[1..]).value;
    WritesBack(k.rest[1..]);
    var v := ReadValue(k.rest[1..]).value;
    EntryConcat(s, k.value, k.rest, Jcs(v.value), v.rest);
  }

  lemma EntryConcat(s: string, k: string, t: string, value: string, rest: string)
    requires s != "" && s[0] == '"' && s[1..] == Escaped(k) + ("\"" + t)
    requires t != "" && t[0] == ':' && t[1..] == value + rest
    ensures s == (Quote(k) + (":" + value)) + rest
  {
    assert s == "\"" + s[1..] && t == ":" + t[1..];
    QuoteConcat(k, t);
    Associate(":", value, rest);
    Associate(Quote(k), ":" + value, rest);
  }

  lemma {:induction false} FieldsOfAscending(es: seq<Entry>)
    requires Ascending(Keys(es))
    ensures forall k :: k in FieldsOf(es) <==> k in Keys(es)
    ensures forall i | 0 <= i < |es| :: es[i].key in FieldsOf(es) && FieldsOf(es)[es[i].key] == es[i].value
  {
    if es == [] {
    } else {
      var ks := Keys(es);
      assert Keys(es[1..]) == ks[1..];
      FieldsOfAscending(es[1..]);
      forall k ensures k in FieldsOf(es) <==> k in ks {
        TailMembers(ks, k);
        assert k in FieldsOf(es[1..]) <==> k in ks[1..];
        assert es[0].key == ks[0];
      }
      forall i | 0 <= i < |es|
        ensures es[i].key in FieldsOf(es) && FieldsOf(es)[es[i].key] == es[i].value
      {
        if i > 0 {
          assert es[i] == es[1..][i - 1] && ks[i] == ks[1..][i - 1];
          TailMembers(ks, ks[i]);
        }
      }
    }
  }

  lemma {:induction false} EntriesTextIsMembers(es: seq<Entry>, v: Json)
    requires v.Object?
    requires forall i | 0 <= i < |es| :: es[i].key in v.fields && v.fields[es[i].key] == es[i].value
    ensures forall k | k in Keys(es) :: k in v.fields
    ensures EntriesText(es) == Members(v, Keys(es)) && MoreEntriesText(es) == MoreMembers(v, Keys(es))
  {
    if es == [] {
    } else {
      EntriesTextIsMembers(es[1..], v);
      assert Keys(es[1..]) == Keys(es)[1..];
    }
  }

  lemma FieldsOfEntries(es: seq<Entry>, fields: map<string, Json>)
    requires Ascending(Keys(es)) && fields == FieldsOf(es)
    ensures EntriesText(es) == Members(Object(fields), SortedKeys(fields.Keys))
  {
    FieldsOfAscending(es);
    EntriesTextIsMembers(es, Object(fields));
    AscendingUnique(Keys(es), SortedKeys(fields.Keys));
  }

  // ---- main results ----------------------------------------------------------------------

  /** The decoder accepts a text as `v` exactly when it is the canonical text of `v`. */
  lemma DecodeExactlyCanonical(s: string, v: Json)
    ensures Decode(s) == Some(v) <==> s == Jcs(v)
  {
    ReadsBack(v, "");
    assert Jcs(v) + "" == Jcs(v);
    if Decode(s) == Some(v) {
      WritesBack(s);
      assert s == Jcs(v) + "";
    }
  }

  /** Two values with the same canonical text are the same value. */
  lemma JcsInjective(v: Json, w: Json)
    requires Jcs(v) == Jcs(w)
    ensures v == w
  {
    DecodeExactlyCanonical(Jcs(v), v);
    DecodeExactlyCanonical(Jcs(w), w);
  }
}
