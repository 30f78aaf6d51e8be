/**
 A strict reader of the two hashed streams, the specification their layout is proved against.

 A word is eight bytes, most significant first; a frame is a word and as many bytes; a list is
 a word and as many frames. The fields come in one order, and nothing may follow the last.
 */
module StreamReader {
  import opened Wrappers
  import opened Sequences
  import opened Numerals
  import opened Unicode
  import opened Json
  import opened FlagsImage
  import opened Preimage

  datatype Parsed<+T> = Parsed(value: T, rest: Bytes)

  function ReadWord(s: Bytes): Option<Parsed<nat>> {
    if |s| < 8 then None else Some(Parsed(Value(256, s[..8]), s[8..]))
  }

  function ReadFrame(s: Bytes): Option<Parsed<Bytes>> {
    var size :- ReadWord(s);
    if |size.rest| < size.value then None else Some(Parsed(size.rest[..size.value], size.rest[size.value..]))
  }

  function ReadFrames(n: nat, s: Bytes): Option<Parsed<seq<Bytes>>> {
    if n == 0 then Some(Parsed([], s))
    else
      var first :- ReadFrame(s);
      var more :- ReadFrames(n - 1, first.rest);
      Some(Parsed([first.value] + more.value, more.rest))
  }

  function ReadList(s: Bytes): Option<Parsed<seq<Bytes>>> {
    var count :- ReadWord(s);
    ReadFrames(count.value, count.rest)
  }

  /** The fields both streams share, in stream order. */
  datatype Tail = Tail(
    flags: Bytes,
    owner: Bytes,
    dependsOn: seq<Bytes>,
    supersedes: seq<Bytes>,
    preconditions: seq<Bytes>)

  function ReadTail(s: Bytes): Option<Parsed<Tail>> {
    var flags :- ReadFrame(s);
    var owner :- ReadFrame(flags.rest);
    var dependsOn :- ReadList(owner.rest);
    var supersedes :- ReadList(dependsOn.rest);
    var preconditions :- ReadList(supersedes.rest);
    Some(Parsed(Tail(flags.value, owner.value, dependsOn.value, supersedes.value, preconditions.value),
                preconditions.rest))
  }

  /** The all-ones word stands for no reverse SQL; any other word is the size of one. */
  function ReadDown(s: Bytes): Option<Parsed<Option<Bytes>>> {
    var size :- ReadWord(s);
    if size.value == 0xFFFF_FFFF_FFFF_FFFF then Some(Parsed(None, size.rest))
    else
      var down :- ReadFrame(s);
      Some(Parsed(Some(down.value), down.rest))
  }

  datatype SqlStream = SqlStream(up: Bytes, down: Option<Bytes>, tail: Tail)

  function ReadSqlStream(s: Bytes): Option<SqlStream> {
    var up :- ReadFrame(s);
    var down :- ReadDown(up.rest);
    var tail :- ReadTail(down.rest);
    if tail.rest == [] then Some(SqlStream(up.value, down.value, tail.value)) else None
  }

  datatype ReverseRegion = Undeclared | Declared(tag: Bytes, payload: Bytes)

  function ReadReverse(s: Bytes): Option<ReverseRegion> {
    if s == [] then Some(Undeclared)
    else
      var tag :- ReadFrame(s);
      var payload :- ReadFrame(tag.rest);
      if payload.rest == [] then Some(Declared(tag.value, payload.value)) else None
  }

  datatype IrStream = IrStream(tag: Bytes, region: Bytes, tail: Tail, reverse: ReverseRegion)

  function ReadIrStream(s: Bytes): Option<IrStream> {
    var tag :- ReadFrame(s);
    var region :- ReadFrame(tag.rest);
    var tail :- ReadTail(region.rest);
    var reverse :- ReadReverse(tail.rest);
    Some(IrStream(tag.value, region.value, tail.value, reverse))
  }

  // ---- what is folded is read back --------------------------------------------------------------

  lemma WordReadsBack(n: nat, rest: Bytes)
    requires n <= U64_MAX
    ensures ReadWord(U64Be(n) + rest) == Some(Parsed(n, rest))
  {
    Split(U64Be(n), rest);
    FixedDenotes(256, 8, n);
    MachineWidths();
    ModSmall(n, Pow(256, 8));
  }

  lemma FrameReadsBack(b: Bytes, rest: Bytes)
    requires Held(b)
    ensures ReadFrame(Framed(b) + rest) == Some(Parsed(b, rest))
  {
    Associate(U64Be(|b|), b, rest);
    WordReadsBack(|b|, b + rest);
    Split(b, rest);
  }

  /** The UTF-8 images of texts. */
  function Utf8s(ss: seq<string>): seq<Bytes> {
    if ss == [] then [] else [Utf8(ss[0])] + Utf8s(ss[1..])
  }

  lemma {:induction false} FramesReadBack(ss: seq<string>, rest: Bytes)
    requires AllHeld(ss)
    ensures ReadFrames(|ss|, Frames(ss) + rest) == Some(Parsed(Utf8s(ss), rest))
  {
    if ss == [] {
      assert Frames(ss) + rest == rest;
    } else {
      Associate(FramedText(ss[0]), Frames(ss[1..]), rest);
      FrameReadsBack(Utf8(ss[0]), Frames(ss[1..]) + rest);
      FramesReadBack(ss[1..], rest);
    }
  }

  lemma ListReadsBack(ss: seq<string>, rest: Bytes)
    requires AllHeld(ss)
    ensures ReadList(CountedTexts(ss) + rest) == Some(Parsed(Utf8s(ss), rest))
  {
    Associate(U64Be(|ss|), Frames(ss), rest);
    WordReadsBack(|ss|, Frames(ss) + rest);
    FramesReadBack(ss, rest);
  }

  function TailOf(c: Common): Tail {
    Tail(Utf8(FlagsJson(c.flags)), Utf8(c.owner), Utf8s(c.dependsOn), Utf8s(c.supersedes), Utf8s(c.preconditions))
  }

  lemma TailReadsBack(c: Common, rest: Bytes)
    requires CommonHeld(c)
    ensures ReadTail(CommonImage(c, rest)) == Some(Parsed(TailOf(c), rest))
  {
    var p := CountedTexts(c.preconditions) + rest;
    var s := CountedTexts(c.supersedes) + p;
    var d := CountedTexts(c.dependsOn) + s;
    FlagsHeld(c.flags);
    FrameReadsBack(Utf8(FlagsJson(c.flags)), FramedText(c.owner) + d);
    FrameReadsBack(Utf8(c.owner), d);
    ListReadsBack(c.dependsOn, s);
    ListReadsBack(c.supersedes, p);
    ListReadsBack(c.preconditions, rest);
  }

  function Utf8Maybe(o: Option<string>): Option<Bytes> {
    match o case Some(t) => Some(Utf8(t)) case None => None
  }

  lemma DownReadsBack(down: Option<string>, rest: Bytes)
    requires down.Some? ==> Held(Utf8(down.value))
    ensures ReadDown(DownImage(down) + rest) == Some(Parsed(Utf8Maybe(down), rest))
  {
    match down
    case None =>
      WordReadsBack(U64_MAX, rest);
      assert DownImage(down) == U64Be(U64_MAX);
    case Some(d) =>
      assert DownImage(down) == Framed(Utf8(d));
      Associate(U64Be(|Utf8(d)|), Utf8(d), rest);
      WordReadsBack(|Utf8(d)|, Utf8(d) + rest);
      FrameReadsBack(Utf8(d), rest);
  }

  function SqlStreamOf(i: ChecksumInput): SqlStream {
    SqlStream(Utf8(i.up), Utf8Maybe(i.down), TailOf(i.common))
  }

  lemma SqlStreamReadsBack(i: ChecksumInput)
    requires InputHeld(i)
    ensures ReadSqlStream(OfPreimage(i)) == Some(SqlStreamOf(i))
  {
    var tail := CommonImage(i.common, []);
    FrameReadsBack(Utf8(i.up), DownImage(i.down) + tail);
    DownReadsBack(i.down, tail);
    TailReadsBack(i.common, []);
  }

  ghost function ReverseRegionOf(r: ReverseDomain): ReverseRegion {
    match r
    case NoReverse => Undeclared
    case Inverse(ops) => Declared(Utf8(INVERSE_TAG), OpRegion(ops))
    case Irreversible(reason) => Declared(Utf8(IRREVERSIBLE_TAG), Utf8(reason))
  }

  lemma TaggedReadsBack(tag: string, payload: Bytes)
    requires Held(Utf8(tag)) && Held(payload)
    ensures ReadReverse(FramedText(tag) + Framed(payload)) == Some(Declared(Utf8(tag), payload))
  {
    FrameReadsBack(Utf8(tag), Framed(payload));
    FrameReadsBack(payload, []);
    assert Framed(payload) + [] == Framed(payload);
  }

  lemma ReverseReadsBack(r: ReverseDomain)
    requires ReverseHeld(r)
    ensures ReadReverse(ReverseImage(r)) == Some(ReverseRegionOf(r))
  {
    match r
    case NoReverse =>
    case Inverse(ops) =>
      ShortTextHeld(INVERSE_TAG);
      TaggedReadsBack(INVERSE_TAG, OpRegion(ops));
    case Irreversible(reason) =>
      ShortTextHeld(IRREVERSIBLE_TAG);
      TaggedReadsBack(IRREVERSIBLE_TAG, Utf8(reason));
  }

  ghost function IrStreamOf(ops: seq<Json>, c: Common, r: ReverseDomain): IrStream {
    IrStream(Utf8(IR_DOMAIN_TAG), OpRegion(ops), TailOf(c), ReverseRegionOf(r))
  }

  lemma IrStreamReadsBack(ops: seq<Json>, c: Common, r: ReverseDomain)
    requires IrHeld(ops, c, r)
    ensures ReadIrStream(IrPreimage(ops, c, r)) == Some(IrStreamOf(ops, c, r))
  {
    ShortTextHeld(IR_DOMAIN_TAG);
    IrStreamUnder(IR_DOMAIN_TAG, OpRegion(ops), c, ReverseImage(r));
    ReverseReadsBack(r);
  }

  lemma IrStreamUnder(tag: string, region: Bytes, c: Common, reverse: Bytes)
    requires Held(Utf8(tag)) && Held(region) && CommonHeld(c)
    ensures var s := FramedText(tag) + (Framed(region) + CommonImage(c, reverse));
            ReadIrStream(s) == if ReadReverse(reverse).None? then None
                               else Some(IrStream(Utf8(tag), region, TailOf(c), ReadReverse(reverse).value))
  {
    FrameReadsBack(Utf8(tag), Framed(region) + CommonImage(c, reverse));
    FrameReadsBack(region, CommonImage(c, reverse));
    TailReadsBack(c, reverse);
  }

  /** The op region is the list of canonical texts, one per op, in order. */
  lemma OpRegionReadsBack(ops: seq<Json>)
    requires Held(OpRegion(ops))
    ensures ReadList(OpRegion(ops)) == Some(Parsed(Utf8s(JcsTexts(ops)), []))
  {
    FramesSize(JcsTexts(ops));
    assert CountedTexts(JcsTexts(ops)) + [] == OpRegion(ops);
    ListReadsBack(JcsTexts(ops), []);
  }

  // ---- a stream is read in one way only -----------------------------------------------------------

  lemma WordExactly(s: Bytes)
    requires ReadWord(s).Some?
    ensures ReadWord(s).value.value <= U64_MAX && s == U64Be(ReadWord(s).value.value) + ReadWord(s).value.rest
  {
    ValueBound(256, s[..8]);
    MachineWidths();
    FixedUnique(256, s[..8]);
  }

  lemma FrameExactly(s: Bytes)
    requires ReadFrame(s).Some?
    ensures s == Framed(ReadFrame(s).value.value) + ReadFrame(s).value.rest
  {
    WordExactly(s);
    var b, rest := ReadFrame(s).value.value, ReadFrame(s).value.rest;
    Associate(U64Be(|b|), b, rest);
  }

  lemma FrameDetermines(s: Bytes, t: Bytes)
    requires ReadFrame(s).Some? && ReadFrame(s) == ReadFrame(t)
    ensures s == t
  {
    FrameExactly(s);
    FrameExactly(t);
  }

  lemma {:induction false} FramesDetermine(n: nat, s: Bytes, t: Bytes)
    requires ReadFrames(n, s).Some? && ReadFrames(n, s) == ReadFrames(n, t)
    ensures |ReadFrames(n, s).value.value| == n && s == t
  {
    if n == 0 {
    } else {
      var f, g := ReadFrame(s).value, ReadFrame(t).value;
      var x, y := ReadFrames(n - 1, f.rest).value, ReadFrames(n - 1, g.rest).value;
      assert ([f.value] + x.value)[1..] == x.value && ([g.value] + y.value)[1..] == y.value;
      assert f.value == ([f.value] + x.value)[0] == ([g.value] + y.value)[0] == g.value;
      FramesDetermine(n - 1, f.rest, g.rest);
      FrameDetermines(s, t);
    }
  }

  lemma {:induction false} FramesCounted(n: nat, s: Bytes)
    requires ReadFrames(n, s).Some?
    ensures |ReadFrames(n, s).value.value| == n
  {
    if n == 0 {
    } else {
      FramesCounted(n - 1, ReadFrame(s).value.rest);
    }
  }

  lemma ListDetermines(s: Bytes, t: Bytes)
    requires ReadList(s).Some? && ReadList(s) == ReadList(t)
    ensures s == t
  {
    WordExactly(s);
    WordExactly(t);
    var m, n := ReadWord(s).value, ReadWord(t).value;
    FramesCounted(m.value, m.rest);
    FramesCounted(n.value, n.rest);
    FramesDetermine(m.value, m.rest, n.rest);
  }

  lemma TailDetermines(s: Bytes, t: Bytes)
    requires ReadTail(s).Some? && ReadTail(s) == ReadTail(t)
    ensures s == t
  {
    var f, g := ReadFrame(s).value.rest, ReadFrame(t).value.rest;
    var d, e := ReadFrame(f).value.rest, ReadFrame(g).value.rest;
    var x, y := ReadList(d).value.rest, ReadList(e).value.rest;
    var p, q := ReadList(x).value.rest, ReadList(y).value.rest;
    ListDetermines(p, q);
    ListDetermines(x, y);
    ListDetermines(d, e);
    FrameDetermines(f, g);
    FrameDetermines(s, t);
  }

  lemma DownDetermines(s: Bytes, t: Bytes)
    requires ReadDown(s).Some? && ReadDown(s) == ReadDown(t)
    ensures s == t
  {
    if ReadDown(s).value.value.None? {
      WordExactly(s);
      WordExactly(t);
    } else {
      FrameDetermines(s, t);
    }
  }

  /** A stream reads as the fields of an input exactly when it is that input's preimage. */
  lemma SqlStreamExactly(s: Bytes, i: ChecksumInput)
    requires InputHeld(i)
    ensures ReadSqlStream(s) == Some(SqlStreamOf(i)) <==> s == OfPreimage(i)
  {
    SqlStreamReadsBack(i);
    if ReadSqlStream(s) == Some(SqlStreamOf(i)) { SqlStreamDetermines(s, OfPreimage(i)); }
  }

  lemma SqlStreamDetermines(s: Bytes, t: Bytes)
    requires ReadSqlStream(s).Some? && ReadSqlStream(s) == ReadSqlStream(t)
    ensures s == t
  {
    var u, v := ReadFrame(s).value.rest, ReadFrame(t).value.rest;
    TailDetermines(ReadDown(u).value.rest, ReadDown(v).value.rest);
    DownDetermines(u, v);
    FrameDetermines(s, t);
  }

  lemma ReverseDetermines(s: Bytes, t: Bytes)
    requires ReadReverse(s).Some? && ReadReverse(s) == ReadReverse(t)
    ensures s == t
  {
    if s == [] || t == [] {
    } else {
      FrameDetermines(ReadFrame(s).value.rest, ReadFrame(t).value.rest);
      FrameDetermines(s, t);
    }
  }

  lemma IrStreamDetermines(s: Bytes, t: Bytes)
    requires ReadIrStream(s).Some? && ReadIrStream(s) == ReadIrStream(t)
    ensures s == t
  {
    var u, v := ReadFrame(s).value.rest, ReadFrame(t).value.rest;
    var x, y := ReadFrame(u).value.rest, ReadFrame(v).value.rest;
    ReverseDetermines(ReadTail(x).value.rest, ReadTail(y).value.rest);
    TailDetermines(x, y);
    FrameDetermines(u, v);
    FrameDetermines(s, t);
  }

  /** A stream reads as the fields of an IR migration exactly when it is that migration's preimage. */
  lemma IrStreamExactly(s: Bytes, ops: seq<Json>, c: Common, r: ReverseDomain)
    requires IrHeld(ops, c, r)
    ensures ReadIrStream(s) == Some(IrStreamOf(ops, c, r)) <==> s == IrPreimage(ops, c, r)
  {
    IrStreamReadsBack(ops, c, r);
    if ReadIrStream(s) == Some(IrStreamOf(ops, c, r)) { IrStreamDetermines(s, IrPreimage(ops, c, r)); }
  }
}
