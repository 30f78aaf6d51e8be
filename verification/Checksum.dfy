/**
 The checksum folds as the program runs them: successive updates of one hash state.

 SHA-256 itself is opaque. A state is what it has absorbed, and `digest` stands for
 finalizing and hex-encoding; every result says which stream is digested.
 */
module Checksum {
  import opened Wrappers
  import opened Sequences
  import opened Numerals
  import opened Unicode
  import opened Json
  import opened JcsWriter
  import opened FlagsImage
  import opened Preimage
  import opened StreamReader

  class Sha256 {
    var absorbed: Bytes

    constructor ()
      ensures absorbed == []
    {
      absorbed := [];
    }

    method Update(b: Bytes)
      modifies this
      ensures absorbed == old(absorbed) + b
    {
      absorbed := absorbed + b;
    }
  }

  /** A length word and the bytes it announces, in two updates. */
  method UpdateFramed(hasher: Sha256, b: Bytes)
    modifies hasher
    ensures hasher.absorbed == old(hasher.absorbed) + Framed(b)
  {
    hasher.Update(U64Be(|b|));
    hasher.Update(b);
    Associate(old(hasher.absorbed), U64Be(|b|), b);
  }

  /** `fold_version_list`; preconditions are folded by the same loop. */
  method FoldVersionList(hasher: Sha256, versions: seq<string>)
    modifies hasher
    ensures hasher.absorbed == old(hasher.absorbed) + CountedTexts(versions)
  {
    hasher.Update(U64Be(|versions|));
    Associate(old(hasher.absorbed), U64Be(|versions|), Frames(versions));
    var i := 0;
    while i < |versions|
      invariant 0 <= i <= |versions|
      invariant hasher.absorbed + Frames(versions[i..]) == old(hasher.absorbed) + CountedTexts(versions)
    {
      assert versions[i..][0] == versions[i] && versions[i..][1..] == versions[i + 1..];
      Associate(hasher.absorbed, FramedText(versions[i]), Frames(versions[i + 1..]));
      UpdateFramed(hasher, Utf8(versions[i]));
      i := i + 1;
    }
    assert versions[i..] == [];
  }

  method FoldCommonStrings(hasher: Sha256, c: Common)
    modifies hasher
    ensures hasher.absorbed == old(hasher.absorbed) + CommonImage(c, [])
    ensures CommonHeld(c) ==> ReadTail(hasher.absorbed[|old(hasher.absorbed)|..]) == Some(Parsed(TailOf(c), []))
  {
    UpdateFramed(hasher, Utf8(FlagsJson(c.flags)));
    UpdateFramed(hasher, Utf8(c.owner));
    FoldVersionList(hasher, c.dependsOn);
    FoldVersionList(hasher, c.supersedes);
    FoldVersionList(hasher, c.preconditions);
    var s, f, o := old(hasher.absorbed), FramedText(FlagsJson(c.flags)), FramedText(c.owner);
    var d, p, q := CountedTexts(c.dependsOn), CountedTexts(c.supersedes), CountedTexts(c.preconditions);
    FiveUpdates(s, f, o, d, p, q);
    Split(s, CommonImage(c, []));
    if CommonHeld(c) { TailReadsBack(c, []); }
  }

  lemma FiveUpdates(s: Bytes, a: Bytes, b: Bytes, c: Bytes, d: Bytes, e: Bytes)
    ensures s + a + b + c + d + e == s + (a + (b + (c + (d + (e + [])))))
  {
    Associate(s, a, b);
    Associate(s, a + b, c);
    Associate(a, b, c);
    Associate(s, a + (b + c), d);
    Associate(a, b + c, d);
    Associate(b, c, d);
    Associate(s, a + (b + (c + d)), e);
    Associate(a, b + (c + d), e);
    Associate(b, c + d, e);
    Associate(c, d, e);
    assert e + [] == e;
  }

  /** `CanonicalOpList::canonical_bytes`: a growing byte vector. */
  method CanonicalBytes(ops: seq<Json>) returns (out: Bytes)
    ensures out == OpRegion(ops)
  {
    out := U64Be(|ops|);
    var i := 0;
    while i < |ops|
      invariant 0 <= i <= |ops|
      invariant out + Frames(JcsTexts(ops)[i..]) == OpRegion(ops)
    {
      var jcs := JcsEncode(ops[i]);
      ghost var left := JcsTexts(ops)[i..];
      assert left[0] == jcs && left[1..] == JcsTexts(ops)[i + 1..];
      Associate(out + U64Be(|Utf8(jcs)|), Utf8(jcs), Frames(left[1..]));
      Associate(out, FramedText(jcs), Frames(left[1..]));
      Associate(out, U64Be(|Utf8(jcs)|), Utf8(jcs));
      out := out + U64Be(|Utf8(jcs)|);
      out := out + Utf8(jcs);
      i := i + 1;
    }
    assert JcsTexts(ops)[i..] == [];
  }

  /** `Checksum::of`, the rendered-SQL front door. */
  method Of(input: ChecksumInput, digest: Bytes -> string) returns (checksum: string)
    ensures checksum == digest(OfPreimage(input))
    ensures InputHeld(input) ==> ReadSqlStream(OfPreimage(input)) == Some(SqlStreamOf(input))
  {
    var hasher := new Sha256();
    UpdateFramed(hasher, Utf8(input.up));
    FoldDown(hasher, input.down);
    FoldCommonStrings(hasher, input.common);
    ThreeUpdates(FramedText(input.up), DownImage(input.down), CommonImage(input.common, []));
    if InputHeld(input) { SqlStreamReadsBack(input); }
    checksum := digest(hasher.absorbed);
  }

  /** An absent reverse is the all-ones word, which no length equals. */
  method FoldDown(hasher: Sha256, down: Option<string>)
    modifies hasher
    ensures hasher.absorbed == old(hasher.absorbed) + DownImage(down)
  {
    match down {
      case Some(d) => UpdateFramed(hasher, Utf8(d));
      case None =>
        hasher.Update(U64Be(U64_MAX));
        assert U64Be(U64_MAX) + [] == U64Be(U64_MAX);
    }
  }

  lemma ThreeUpdates(a: Bytes, b: Bytes, c: Bytes)
    ensures [] + a + b + c == a + (b + c)
  {
    assert [] + a == a;
    Associate(a, b, c);
  }

  lemma CommonImageSplit(c: Common, rest: Bytes)
    ensures CommonImage(c, rest) == CommonImage(c, []) + rest
  {
    FiveParts(FramedText(FlagsJson(c.flags)), FramedText(c.owner), CountedTexts(c.dependsOn),
              CountedTexts(c.supersedes), CountedTexts(c.preconditions), rest);
  }

  lemma FiveParts(a: Bytes, b: Bytes, c: Bytes, d: Bytes, e: Bytes, rest: Bytes)
    ensures a + (b + (c + (d + (e + rest)))) == (a + (b + (c + (d + (e + []))))) + rest
  {
    FiveUpdates([], a, b, c, d, e + rest);
    FiveUpdates([], a, b, c, d, e);
    Associate([] + a + b + c + d, e, rest);
  }

  /** `of_ir_version_strings`, the op-list front door; an absent reverse updates nothing. */
  method OfIrVersionStrings(ops: seq<Json>, c: Common, reverse: ReverseDomain, digest: Bytes -> string)
    returns (checksum: string)
    ensures checksum == digest(IrPreimage(ops, c, reverse))
    ensures IrHeld(ops, c, reverse) ==> ReadIrStream(IrPreimage(ops, c, reverse)) == Some(IrStreamOf(ops, c, reverse))
  {
    var hasher := new Sha256();
    UpdateFramed(hasher, Utf8(IR_DOMAIN_TAG));
    var region := CanonicalBytes(ops);
    UpdateFramed(hasher, region);
    FoldCommonStrings(hasher, c);
    FoldReverse(hasher, reverse);
    IrLayout(ops, c, reverse);
    if IrHeld(ops, c, reverse) { IrStreamReadsBack(ops, c, reverse); }
    checksum := digest(hasher.absorbed);
  }

  method FoldReverse(hasher: Sha256, reverse: ReverseDomain)
    modifies hasher
    ensures hasher.absorbed == old(hasher.absorbed) + ReverseImage(reverse)
  {
    match reverse {
      case NoReverse =>
      case Inverse(inverseOps) =>
        var region := CanonicalBytes(inverseOps);
        FoldTagged(hasher, INVERSE_TAG, region);
      case Irreversible(reason) => FoldTagged(hasher, IRREVERSIBLE_TAG, Utf8(reason));
    }
  }

  method FoldTagged(hasher: Sha256, tag: string, payload: Bytes)
    modifies hasher
    ensures hasher.absorbed == old(hasher.absorbed) + (FramedText(tag) + Framed(payload))
  {
    UpdateFramed(hasher, Utf8(tag));
    UpdateFramed(hasher, payload);
    Associate(old(hasher.absorbed), FramedText(tag), Framed(payload));
  }

  lemma IrLayout(ops: seq<Json>, c: Common, r: ReverseDomain)
    ensures [] + FramedText(IR_DOMAIN_TAG) + Framed(OpRegion(ops)) + CommonImage(c, []) + ReverseImage(r)
         == IrPreimage(ops, c, r)
  {
    var t, region, m, v := FramedText(IR_DOMAIN_TAG), Framed(OpRegion(ops)), CommonImage(c, []), ReverseImage(r);
    CommonImageSplit(c, v);
    FourUpdates(t, region, m, v);
  }

  lemma FourUpdates(a: Bytes, b: Bytes, c: Bytes, d: Bytes)
    ensures [] + a + b + c + d == a + (b + (c + d))
  {
    assert [] + a == a;
    Associate(a + b, c, d);
    Associate(a, b, c + d);
  }
}
