/**
 The byte streams fed to SHA-256, as functions of what they fold, and the proof that a
 stream determines every field folded into it.

 Images are written with an explicit continuation `rest`, so that each field can be
 cancelled from the front of two equal streams.
 */
module Preimage {
  import opened Wrappers
  import opened Sequences
  import opened Numerals
  import opened Unicode
  import opened Json
  import opened JcsCanonical
  import opened Envelope
  import opened FlagsImage

  const ISIZE_MAX: nat := 0x7FFF_FFFF_FFFF_FFFF

  /** `(n as u64).to_be_bytes()`. */
  function U64Be(n: nat): (r: Bytes)
    ensures |r| == 8
  {
    FixedDenotes(256, 8, n);
    var ds := Fixed(256, 8, n);
    assert forall i | 0 <= i < |ds| :: ds[i] < 256;
    ds
  }

  lemma U64BeInjective(m: nat, n: nat)
    requires m <= U64_MAX && n <= U64_MAX && U64Be(m) == U64Be(n)
    ensures m == n
  {
    MachineWidths();
    FixedInjective(256, 8, m, n);
  }

  /** No allocation exceeds `isize::MAX` bytes. */
  predicate Held(b: Bytes) { |b| <= ISIZE_MAX }

  predicate AllHeld(ss: seq<string>) {
    |ss| <= ISIZE_MAX && forall s | s in ss :: Held(Utf8(s))
  }

  function Framed(b: Bytes): Bytes { U64Be(|b|) + b }

  function FramedText(s: string): Bytes { Framed(Utf8(s)) }

  /** Texts, each behind its length. */
  function Frames(ss: seq<string>): Bytes {
    if ss == [] then [] else FramedText(ss[0]) + Frames(ss[1..])
  }

  /** A count, then the texts in the given order. */
  function CountedTexts(ss: seq<string>): Bytes { U64Be(|ss|) + Frames(ss) }

  // ---- cancellation ------------------------------------------------------------------

  lemma FramedCancel(a: Bytes, b: Bytes, x: Bytes, y: Bytes)
    requires Held(a) && Held(b) && Framed(a) + x == Framed(b) + y
    ensures a == b && x == y
  {
    Associate(U64Be(|a|), a, x);
    Associate(U64Be(|b|), b, y);
    SplitEqual(U64Be(|a|), U64Be(|b|), a + x, b + y);
    U64BeInjective(|a|, |b|);
    SplitEqual(a, b, x, y);
  }

  lemma FramedTextCancel(s: string, t: string, x: Bytes, y: Bytes)
    requires Held(Utf8(s)) && Held(Utf8(t)) && FramedText(s) + x == FramedText(t) + y
    ensures s == t && x == y
  {
    FramedCancel(Utf8(s), Utf8(t), x, y);
    Utf8Injective(s, t);
  }

  lemma {:induction false} FramesCancel(a: seq<string>, b: seq<string>, x: Bytes, y: Bytes)
    requires AllHeld(a) && AllHeld(b) && |a| == |b| && Frames(a) + x == Frames(b) + y
    ensures a == b && x == y
  {
    if a == [] {
      assert Frames(a) + x == x && Frames(b) + y == y;
    } else {
      Associate(FramedText(a[0]), Frames(a[1..]), x);
      Associate(FramedText(b[0]), Frames(b[1..]), y);
      FramedTextCancel(a[0], b[0], Frames(a[1..]) + x, Frames(b[1..]) + y);
      FramesCancel(a[1..], b[1..], x, y);
      assert a == [a[0]] + a[1..] && b == [b[0]] + b[1..];
    }
  }

  lemma CountedTextsCancel(a: seq<string>, b: seq<string>, x: Bytes, y: Bytes)
    requires AllHeld(a) && AllHeld(b) && CountedTexts(a) + x == CountedTexts(b) + y
    ensures a == b && x == y
  {
    Associate(U64Be(|a|), Frames(a), x);
    Associate(U64Be(|b|), Frames(b), y);
    SplitEqual(U64Be(|a|), U64Be(|b|), Frames(a) + x, Frames(b) + y);
    U64BeInjective(|a|, |b|);
    FramesCancel(a, b, x, y);
  }

  // ---- op region -----------------------------------------------------------------------

  ghost function JcsTexts(ops: seq<Json>): seq<string> {
    seq(|ops|, i requires 0 <= i < |ops| => Jcs(ops[i]))
  }

  /** The canonical byte image of an op list. */
  ghost function OpRegion(ops: seq<Json>): Bytes { CountedTexts(JcsTexts(ops)) }

  lemma {:induction false} FramesSize(ss: seq<string>)
    ensures |Frames(ss)| >= |ss| && forall s | s in ss :: |Utf8(s)| <= |Frames(ss)|
  {
    if ss == [] {
    } else {
      FramesSize(ss[1..]);
      assert ss == [ss[0]] + ss[1..];
    }
  }

  /** The op region decodes uniquely into the op values, in order. */
  lemma OpRegionInjective(a: seq<Json>, b: seq<Json>)
    requires Held(OpRegion(a)) && Held(OpRegion(b)) && OpRegion(a) == OpRegion(b)
    ensures a == b
  {
    var s, t := JcsTexts(a), JcsTexts(b);
    FramesSize(s);
    FramesSize(t);
    assert CountedTexts(s) + [] == CountedTexts(s) && CountedTexts(t) + [] == CountedTexts(t);
    CountedTextsCancel(s, t, [], []);
    forall i | 0 <= i < |a| ensures a[i] == b[i] {
      assert s[i] == t[i];
      JcsInjective(a[i], b[i]);
    }
  }

  // ---- the two front doors -----------------------------------------------------------------

  /** The fields both front doors fold alike, after their own region. */
  datatype Common = Common(
    flags: MigrationFlags,
    owner: string,
    dependsOn: seq<string>,
    supersedes: seq<string>,
    preconditions: seq<string>)

  predicate CommonHeld(c: Common) {
    && FlagsInRange(c.flags) && Held(Utf8(c.owner))
    && AllHeld(c.dependsOn) && AllHeld(c.supersedes) && AllHeld(c.preconditions)
  }

  function CommonImage(c: Common, rest: Bytes): Bytes {
    FramedText(FlagsJson(c.flags)) + (FramedText(c.owner) + (CountedTexts(c.dependsOn)
      + (CountedTexts(c.supersedes) + (CountedTexts(c.preconditions) + rest))))
  }

  lemma FlagsHeld(f: MigrationFlags)
    requires FlagsInRange(f)
    ensures Held(Utf8(FlagsJson(f)))
  {
    FlagsJsonSize(f);
    Utf8Size(FlagsJson(f));
  }

  /** The common tail cannot run into what follows it, nor its lists into one another. */
  lemma CommonCancel(c: Common, d: Common, x: Bytes, y: Bytes)
    requires CommonHeld(c) && CommonHeld(d) && CommonImage(c, x) == CommonImage(d, y)
    ensures c == d && x == y
  {
    var cp, dp := CountedTexts(c.preconditions) + x, CountedTexts(d.preconditions) + y;
    var cs, ds := CountedTexts(c.supersedes) + cp, CountedTexts(d.supersedes) + dp;
    var cd, dd := CountedTexts(c.dependsOn) + cs, CountedTexts(d.dependsOn) + ds;
    FlagsHeld(c.flags);
    FlagsHeld(d.flags);
    FramedTextCancel(FlagsJson(c.flags), FlagsJson(d.flags), FramedText(c.owner) + cd, FramedText(d.owner) + dd);
    FlagsJsonInjective(c.flags, d.flags);
    FramedTextCancel(c.owner, d.owner, cd, dd);
    CountedTextsCancel(c.dependsOn, d.dependsOn, cs, ds);
    CountedTextsCancel(c.supersedes, d.supersedes, cp, dp);
    CountedTextsCancel(c.preconditions, d.preconditions, x, y);
  }

  /** The rendered-SQL front door. */
  datatype ChecksumInput = ChecksumInput(up: string, down: Option<string>, common: Common)

  predicate InputHeld(i: ChecksumInput) {
    Held(Utf8(i.up)) && (i.down.Some? ==> Held(Utf8(i.down.value))) && CommonHeld(i.common)
  }

  /** An absent reverse writes the all-ones word where a present one writes its length. */
  function LengthWord(down: Option<string>): nat {
    match down case Some(d) => |Utf8(d)| case None => U64_MAX
  }

  function DownBytes(down: Option<string>): Bytes {
    match down case Some(d) => Utf8(d) case None => []
  }

  function DownImage(down: Option<string>): Bytes { U64Be(LengthWord(down)) + DownBytes(down) }

  function OfPreimage(i: ChecksumInput): Bytes {
    FramedText(i.up) + (DownImage(i.down) + CommonImage(i.common, []))
  }

  /** The sentinel of an absent reverse is not the length of any reverse. */
  lemma DownCancel(a: Option<string>, b: Option<string>, x: Bytes, y: Bytes)
    requires (a.Some? ==> Held(Utf8(a.value))) && (b.Some? ==> Held(Utf8(b.value)))
    requires DownImage(a) + x == DownImage(b) + y
    ensures a == b && x == y
  {
    Associate(U64Be(LengthWord(a)), DownBytes(a), x);
    Associate(U64Be(LengthWord(b)), DownBytes(b), y);
    SplitEqual(U64Be(LengthWord(a)), U64Be(LengthWord(b)), DownBytes(a) + x, DownBytes(b) + y);
    U64BeInjective(LengthWord(a), LengthWord(b));
    SplitEqual(DownBytes(a), DownBytes(b), x, y);
    if a.Some? { Utf8Injective(a.value, b.value); }
  }

  /** The rendered-SQL preimage determines every folded field. */
  lemma OfPreimageInjective(i: ChecksumInput, j: ChecksumInput)
    requires InputHeld(i) && InputHeld(j) && OfPreimage(i) == OfPreimage(j)
    ensures i == j
  {
    FramedTextCancel(i.up, j.up, DownImage(i.down) + CommonImage(i.common, []),
                     DownImage(j.down) + CommonImage(j.common, []));
    DownCancel(i.down, j.down, CommonImage(i.common, []), CommonImage(j.common, []));
    CommonCancel(i.common, j.common, [], []);
  }

  const IR_DOMAIN_TAG := "zero-migrate/of_ir/v1"
  const INVERSE_TAG := "zero-migrate/of_ir/inverse/v1"
  const IRREVERSIBLE_TAG := "zero-migrate/of_ir/irreversible/v1"

  /** What a migration declares about reversing itself. */
  datatype ReverseDomain = NoReverse | Inverse(ops: seq<Json>) | Irreversible(reason: string)

  ghost predicate ReverseHeld(r: ReverseDomain) {
    match r
    case NoReverse => true
    case Inverse(ops) => Held(OpRegion(ops))
    case Irreversible(reason) => Held(Utf8(reason))
  }

  ghost function ReverseImage(r: ReverseDomain): Bytes {
    match r
    case NoReverse => []
    case Inverse(ops) => FramedText(INVERSE_TAG) + Framed(OpRegion(ops))
    case Irreversible(reason) => FramedText(IRREVERSIBLE_TAG) + FramedText(reason)
  }

  ghost function IrPreimage(ops: seq<Json>, c: Common, r: ReverseDomain): Bytes {
    FramedText(IR_DOMAIN_TAG) + (Framed(OpRegion(ops)) + CommonImage(c, ReverseImage(r)))
  }

  ghost predicate IrHeld(ops: seq<Json>, c: Common, r: ReverseDomain) {
    Held(OpRegion(ops)) && CommonHeld(c) && ReverseHeld(r)
  }

  lemma TagsHeld()
    ensures Held(Utf8(INVERSE_TAG)) && Held(Utf8(IRREVERSIBLE_TAG))
    ensures INVERSE_TAG != IRREVERSIBLE_TAG
  {
    TagTexts();
    ShortTextHeld(INVERSE_TAG);
    ShortTextHeld(IRREVERSIBLE_TAG);
  }

  lemma TagTexts()
    ensures IR_DOMAIN_TAG == "zero-migrate/of_ir/v1"
    ensures INVERSE_TAG == "zero-migrate/of_ir/inverse/v1" && |INVERSE_TAG| == 29
    ensures IRREVERSIBLE_TAG == "zero-migrate/of_ir/irreversible/v1" && |IRREVERSIBLE_TAG| == 34
  {}

  lemma ShortTextHeld(s: string)
    requires |s| <= 40
    ensures Held(Utf8(s))
  {
    Utf8Size(s);
  }

  lemma TaggedCancel(s: string, t: string, x: Bytes, y: Bytes)
    requires Held(Utf8(s)) && Held(Utf8(t)) && Held(x) && Held(y)
    requires FramedText(s) + Framed(x) == FramedText(t) + Framed(y)
    ensures s == t && x == y
  {
    FramedTextCancel(s, t, Framed(x), Framed(y));
    assert Framed(x) + [] == Framed(x) && Framed(y) + [] == Framed(y);
    FramedCancel(x, y, [], []);
  }

  /** The three reverse cases never share an image; an empty inverse is not an absent one. */
  lemma ReverseImageInjective(r: ReverseDomain, q: ReverseDomain)
    requires ReverseHeld(r) && ReverseHeld(q) && ReverseImage(r) == ReverseImage(q)
    ensures r == q
  {
    TagsHeld();
    if r.NoReverse? || q.NoReverse? {
      assert |FramedText(INVERSE_TAG)| >= 8 && |FramedText(IRREVERSIBLE_TAG)| >= 8;
    } else {
      var s := if r.Inverse? then INVERSE_TAG else IRREVERSIBLE_TAG;
      var t := if q.Inverse? then INVERSE_TAG else IRREVERSIBLE_TAG;
      var x := if r.Inverse? then OpRegion(r.ops) else Utf8(r.reason);
      var y := if q.Inverse? then OpRegion(q.ops) else Utf8(q.reason);
      TaggedCancel(s, t, x, y);
      if r.Inverse? { OpRegionInjective(r.ops, q.ops); } else { Utf8Injective(r.reason, q.reason); }
    }
  }

  /** The IR preimage determines the op list, the common fields and the declared reverse. */
  lemma IrPreimageInjective(ops: seq<Json>, c: Common, r: ReverseDomain,
                            ops': seq<Json>, c': Common, r': ReverseDomain)
    requires IrHeld(ops, c, r) && IrHeld(ops', c', r')
    requires IrPreimage(ops, c, r) == IrPreimage(ops', c', r')
    ensures ops == ops' && c == c' && r == r'
  {
    ShortTextHeld(IR_DOMAIN_TAG);
    var x, y := CommonImage(c, ReverseImage(r)), CommonImage(c', ReverseImage(r'));
    FramedTextCancel(IR_DOMAIN_TAG, IR_DOMAIN_TAG, Framed(OpRegion(ops)) + x, Framed(OpRegion(ops')) + y);
    FramedCancel(OpRegion(ops), OpRegion(ops'), x, y);
    OpRegionInjective(ops, ops');
    CommonCancel(c, c', ReverseImage(r), ReverseImage(r'));
    ReverseImageInjective(r, r');
  }

  /**
   The two front doors meet exactly when rendered SQL imitates the IR layout: `up` spells
   the domain tag, `down` spells the op region, the common fields agree and no reverse is
   declared. Any other `up` keeps them apart.
   */
  lemma FrontDoorsMeet(i: ChecksumInput, ops: seq<Json>, c: Common, r: ReverseDomain)
    requires InputHeld(i) && IrHeld(ops, c, r)
    ensures OfPreimage(i) == IrPreimage(ops, c, r) <==>
            && i.up == IR_DOMAIN_TAG
            && i.down.Some? && Utf8(i.down.value) == OpRegion(ops)
            && i.common == c && r.NoReverse?
  {
    if OfPreimage(i) == IrPreimage(ops, c, r) {
      FrontDoorsMeetOnly(i, ops, c, r);
    }
  }

  lemma FrontDoorsMeetOnly(i: ChecksumInput, ops: seq<Json>, c: Common, r: ReverseDomain)
    requires InputHeld(i) && IrHeld(ops, c, r) && OfPreimage(i) == IrPreimage(ops, c, r)
    ensures i.up == IR_DOMAIN_TAG
    ensures i.down.Some? && Utf8(i.down.value) == OpRegion(ops)
    ensures i.common == c && r.NoReverse?
  {
    var region, y := OpRegion(ops), CommonImage(c, ReverseImage(r));
    ShortTextHeld(IR_DOMAIN_TAG);
    UpAndDownCancel(i, IR_DOMAIN_TAG, region, y);
    TailsMeet(i.common, c, r);
  }

  lemma TailsMeet(c: Common, d: Common, r: ReverseDomain)
    requires CommonHeld(c) && CommonHeld(d) && ReverseHeld(r) && CommonImage(c, []) == CommonImage(d, ReverseImage(r))
    ensures c == d && r.NoReverse?
  {
    CommonCancel(c, d, [], ReverseImage(r));
    ReverseImageInjective(NoReverse, r);
  }

  lemma UpAndDownCancel(i: ChecksumInput, tag: string, region: Bytes, y: Bytes)
    requires InputHeld(i) && Held(Utf8(tag)) && Held(region)
    requires OfPreimage(i) == FramedText(tag) + (Framed(region) + y)
    ensures i.up == tag && i.down.Some? && Utf8(i.down.value) == region && CommonImage(i.common, []) == y
  {
    var x := CommonImage(i.common, []);
    FramedTextCancel(i.up, tag, DownImage(i.down) + x, Framed(region) + y);
    FirstWord(i.down, region, x, y);
    FramedCancel(Utf8(i.down.value), region, x, y);
  }

  lemma FirstWord(down: Option<string>, region: Bytes, x: Bytes, y: Bytes)
    requires Held(region) && DownImage(down) + x == Framed(region) + y
    ensures down.Some?
  {
    var w := LengthWord(down);
    if w == U64_MAX {
      Associate(U64Be(|region|), region, y);
      Associate(U64Be(w), DownBytes(down), x);
      SplitEqual(U64Be(w), U64Be(|region|), DownBytes(down) + x, region + y);
      U64BeInjective(w, |region|);
    }
  }

  /**
   The documented claim that the tag keeps the front doors apart unconditionally is not
   met: SQL `up` equal to the tag with a `down` of eight NUL characters has the preimage
   of an empty IR migration.
   */
  lemma FrontDoorsCollide(c: Common)
    ensures OfPreimage(ChecksumInput(IR_DOMAIN_TAG, Some(seq(8, _ => 0 as char)), c))
         == IrPreimage([], c, NoReverse)
  {
    var nuls := seq(8, _ => 0 as char);
    Utf8OfAscii(nuls);
    var zeros: seq<nat> := seq(8, _ => 0);
    ValueZeros(256, 8);
    FixedUnique(256, zeros);
    assert U64Be(0) == zeros;
    assert JcsTexts([]) == [];
    assert OpRegion([]) == U64Be(0);
    assert Utf8(nuls) == OpRegion([]);
  }
}
