/** The canonical encoder as the program runs it: a recursive writer appending to one text buffer. */
module JcsWriter {
  import opened Sequences
  import opened Unicode
  import opened Json
  import opened JcsDecoder
  import opened JcsCanonical

  class TextBuffer {
    var text: string

    constructor ()
      ensures text == ""
    {
      text := "";
    }

    method PushStr(s: string)
      modifies this
      ensures text == old(text) + s
    {
      text := text + s;
    }
  }

  /** The keys of a map in whatever order its iterator yields them. */
  method CollectKeys(keys: set<string>) returns (ks: seq<string>)
    ensures Lists(ks, keys) && |ks| == |keys|
  {
    ks := [];
    var left := keys;
    while left != {}
      invariant left <= keys && |ks| + |left| == |keys|
      invariant forall k :: k in ks <==> k in keys && k !in left
      decreases left
    {
      var k :| k in left;
      ks := ks + [k];
      left := left - {k};
    }
  }

  /** Put `k` at its place in an ascending listing that does not contain it. */
  method InsertKey(ks: seq<string>, k: string) returns (r: seq<string>)
    requires Ascending(ks) && k !in ks
    ensures Ascending(r) && forall j :: j in r <==> j in ks || j == k
  {
    var i := 0;
    while i < |ks| && Utf16CodeUnitCmp(ks[i], k).Less?
      invariant 0 <= i <= |ks|
      invariant forall j | 0 <= j < i :: KeyLess(ks[j], k)
    {
      i := i + 1;
    }
    forall j | i <= j < |ks| ensures KeyLess(k, ks[j]) {
      assert ks[i] in ks && ks[j] in ks;
      KeyOrderIsStrictTotal(k, ks[i], ks[j]);
    }
    r := ks[..i] + [k] + ks[i..];
    InsertedAscending(ks, k, i);
  }

  lemma InsertedAscending(ks: seq<string>, k: string, i: nat)
    requires Ascending(ks) && i <= |ks|
    requires forall j | 0 <= j < i :: KeyLess(ks[j], k)
    requires forall j | i <= j < |ks| :: KeyLess(k, ks[j])
    ensures Ascending(ks[..i] + [k] + ks[i..])
    ensures forall j :: j in ks[..i] + [k] + ks[i..] <==> j in ks || j == k
  {
    assert ks == ks[..i] + ks[i..];
  }

  /** `sort_unstable_by(utf16_code_unit_cmp)` on distinct keys: only one result is sorted. */
  method SortKeys(ks: seq<string>, ghost keys: set<string>) returns (r: seq<string>)
    requires Lists(ks, keys) && |ks| == |keys|
    ensures r == SortedKeys(keys)
  {
    r := [];
    var i := 0;
    while i < |ks|
      invariant 0 <= i <= |ks|
      invariant Ascending(r) && forall k :: k in r <==> k in ks[..i]
    {
      KeysDistinct(ks, keys, i);
      r := InsertKey(r, ks[i]);
      assert ks[..i + 1] == ks[..i] + [ks[i]];
      i := i + 1;
    }
    assert ks[..|ks|] == ks;
    AscendingUnique(r, SortedKeys(keys));
  }

  function ToSet(ks: seq<string>): set<string> { set k | k in ks }

  lemma {:induction false} ToSetSize(ks: seq<string>)
    ensures |ToSet(ks)| <= |ks|
  {
    if ks == [] {
    } else {
      ToSetSize(ks[1..]);
      assert ToSet(ks) == ToSet(ks[1..]) + {ks[0]};
    }
  }

  /** A listing as long as the set it lists repeats nothing. */
  lemma KeysDistinct(ks: seq<string>, keys: set<string>, i: nat)
    requires Lists(ks, keys) && |ks| == |keys| && i < |ks|
    ensures ks[i] !in ks[..i]
  {
    if ks[i] in ks[..i] {
      var others := ks[..i] + ks[i + 1..];
      assert forall k | k in ks :: k in others by {
        assert ks == ks[..i] + [ks[i]] + ks[i + 1..];
      }
      assert keys == ToSet(others);
      ToSetSize(others);
    }
  }

  method JcsWriteString(s: string, out: TextBuffer)
    modifies out
    ensures out.text == old(out.text) + Quote(s)
  {
    out.PushStr("\"");
    var i := 0;
    while i < |s|
      invariant 0 <= i <= |s|
      invariant out.text + (Escaped(s[i..]) + "\"") == old(out.text) + Quote(s)
    {
      Associate(out.text, EscapeChar(s[i]), Escaped(s[i + 1..]) + "\"");
      Associate(EscapeChar(s[i]), Escaped(s[i + 1..]), "\"");
      assert s[i..][1..] == s[i + 1..];
      out.PushStr(EscapeChar(s[i]));
      i := i + 1;
    }
    assert s[i..] == "";
    out.PushStr("\"");
  }

  /** The text an array still owes when `i` elements have been written. */
  ghost function RemainingElements(items: seq<Json>, i: nat): string
    requires i <= |items|
  {
    if i == 0 then Elements(items) else MoreElements(items[i..])
  }

  ghost function RemainingMembers(v: Json, ks: seq<string>, i: nat): string
    requires v.Object? && (forall k | k in ks :: k in v.fields) && i <= |ks|
  {
    if i == 0 then Members(v, ks) else MoreMembers(v, ks[i..])
  }

  method JcsWrite(v: Json, out: TextBuffer)
    modifies out
    ensures out.text == old(out.text) + Jcs(v)
    decreases v, 1
  {
    match v
    case Null => out.PushStr("null");
    case Bool(b) => if b { out.PushStr("true"); } else { out.PushStr("false"); }
    case Number(n) => out.PushStr(IntText(n));
    case Str(s) => JcsWriteString(s, out);
    case Array(items) => JcsWriteArray(v, out);
    case Object(fields) => JcsWriteObject(v, out);
  }

  method JcsWriteArray(v: Json, out: TextBuffer)
    requires v.Array?
    modifies out
    ensures out.text == old(out.text) + Jcs(v)
    decreases v, 0
  {
    var items := v.items;
    out.PushStr("[");
    Associate(old(out.text), "[", Elements(items));
    var i := 0;
    while i < |items|
      invariant 0 <= i <= |items|
      invariant out.text + RemainingElements(items, i) == old(out.text) + Jcs(v)
    {
      ghost var before := out.text;
      if i > 0 { out.PushStr(","); }
      JcsWrite(items[i], out);
      ElementStep(items, i, before, out.text);
      i := i + 1;
    }
    out.PushStr("]");
  }

  method JcsWriteObject(v: Json, out: TextBuffer)
    requires v.Object?
    modifies out
    ensures out.text == old(out.text) + Jcs(v)
    decreases v, 0, 2
  {
    var collected := CollectKeys(v.fields.Keys);
    var ks := SortKeys(collected, v.fields.Keys);
    out.PushStr("{");
    JcsWriteMembers(v, ks, out);
    Associate(old(out.text), "{", Members(v, ks));
  }

  method JcsWriteMembers(v: Json, ks: seq<string>, out: TextBuffer)
    requires v.Object? && forall k | k in ks :: k in v.fields
    modifies out
    ensures out.text == old(out.text) + Members(v, ks)
    decreases v, 0, 1
  {
    var i := 0;
    while i < |ks|
      invariant 0 <= i <= |ks|
      invariant out.text + RemainingMembers(v, ks, i) == old(out.text) + Members(v, ks)
    {
      ghost var before := out.text;
      if i > 0 { out.PushStr(","); }
      JcsWriteMember(v, ks[i], out);
      MemberStep(v, ks, i, before, out.text);
      i := i + 1;
    }
    out.PushStr("}");
  }

  method JcsWriteMember(v: Json, k: string, out: TextBuffer)
    requires v.Object? && k in v.fields
    modifies out
    ensures out.text == old(out.text) + Member(v, k)
    decreases v, 0, 0
  {
    JcsWriteString(k, out);
    out.PushStr(":");
    JcsWrite(v.fields[k], out);
    assert out.text == old(out.text) + Member(v, k) by {
      Associate(old(out.text), Quote(k), ":");
      Associate(old(out.text), Quote(k) + ":", Jcs(v.fields[k]));
      Associate(Quote(k), ":", Jcs(v.fields[k]));
    }
  }

  lemma ElementStep(items: seq<Json>, i: nat, before: string, after: string)
    requires i < |items|
    requires after == before + (if i > 0 then "," else "") + Jcs(items[i])
    ensures after + RemainingElements(items, i + 1) == before + RemainingElements(items, i)
  {
    assert items[i..][0] == items[i] && items[i..][1..] == items[i + 1..];
    var rest := MoreElements(items[i + 1..]);
    if i > 0 {
      assert before + "," + Jcs(items[i]) + rest == before + ("," + (Jcs(items[i]) + rest));
    } else {
      assert before + "" + Jcs(items[i]) + rest == before + (Jcs(items[i]) + rest);
    }
  }

  lemma MemberStep(v: Json, ks: seq<string>, i: nat, before: string, after: string)
    requires v.Object? && (forall k | k in ks :: k in v.fields) && i < |ks|
    requires after == before + (if i > 0 then "," else "") + Member(v, ks[i])
    ensures after + RemainingMembers(v, ks, i + 1) == before + RemainingMembers(v, ks, i)
  {
    assert ks[i..][0] == ks[i] && ks[i..][1..] == ks[i + 1..];
    var rest := MoreMembers(v, ks[i + 1..]);
    var start := before + (if i > 0 then "," else "");
    Associate(start, Member(v, ks[i]), rest);
    if i > 0 {
      Associate(before, ",", Member(v, ks[i]) + rest);
    } else {
      assert start == before;
    }
  }

  /** `jcs_encode`: a fresh buffer, filled. */
  method JcsEncode(v: Json) returns (s: string)
    ensures s == Jcs(v)
    ensures Decode(s).Some? && Decode(s).value == v
  {
    var out := new TextBuffer();
    JcsWrite(v, out);
    s := out.text;
    DecodeExactlyCanonical(s, v);
  }
}
