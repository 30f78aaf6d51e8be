/**
 Migration ids: `mig_` followed by 22 base62 symbols of a 16-byte image whose high 48 bits
 order it. File versions sit in those bits; derived ids carry an all-ones marker there.
 */
module MigrationIds {
  import opened Wrappers
  import opened Sequences
  import opened Numerals
  import opened Orders
  import opened Unicode
  import opened Base62
  import opened Preimage

  const UNDERSCORE: Byte := 95
  const MIG: Bytes := [109, 105, 103]
  const VERSION_CEILING: nat := 0x1_0000_0000_0000

  // ---- parsing -----------------------------------------------------------------------------

  /** Where a byte first occurs, or the length when it does not. */
  function IndexOf(b: Byte, s: Bytes): (k: nat)
    ensures k <= |s| && (k < |s| ==> s[k] == b)
    ensures forall i | 0 <= i < k :: s[i] != b
  {
    if s == [] || s[0] == b then 0 else 1 + IndexOf(b, s[1..])
  }

  datatype MalformedCause = NoPrefix | BadBase62(error: DecodeError)
  datatype IdError = WrongPrefix(got: Bytes) | Malformed(cause: MalformedCause)

  datatype TypedId = TypedId(prefix: Bytes, uuid: Bytes)

  /** `typed_id::parse`: split at the first underscore, decode what follows. */
  function ParseTyped(s: Bytes): Result<TypedId, MalformedCause> {
    var k := IndexOf(UNDERSCORE, s);
    if k == |s| then Err(NoPrefix)
    else
      match Decoded(s[k + 1..])
      case Ok(uuid) => Ok(TypedId(s[..k], uuid))
      case Err(e) => Err(BadBase62(e))
  }

  /** `parse_with_prefix` for the migration prefix: a malformed id is reported before a wrong prefix. */
  function ParseMigrationId(s: Bytes): Result<Bytes, IdError> {
    match ParseTyped(s)
    case Err(cause) => Err(Malformed(cause))
    case Ok(t) => if t.prefix != MIG then Err(WrongPrefix(t.prefix)) else Ok(t.uuid)
  }

  function IdText(uuid: Bytes): Bytes { MIG + [UNDERSCORE] + UuidText(uuid) }

  lemma IndexOfSeparator(b: Byte, p: Bytes, rest: Bytes)
    requires b !in p
    ensures IndexOf(b, p + [b] + rest) == |p|
  {
    var s := p + [b] + rest;
    assert s[|p|] == b && forall i | 0 <= i < |p| :: s[i] == p[i];
  }

  lemma ParseTypedText(p: Bytes, rest: Bytes)
    requires UNDERSCORE !in p
    ensures ParseTyped(p + [UNDERSCORE] + rest)
         == (match Decoded(rest) case Ok(u) => Ok(TypedId(p, u)) case Err(e) => Err(BadBase62(e)))
  {
    IndexOfSeparator(UNDERSCORE, p, rest);
    var s := p + [UNDERSCORE] + rest;
    assert s[..|p|] == p && s[|p| + 1..] == rest;
  }

  /** Parsing accepts exactly the texts of 16-byte images, and recovers the image. */
  lemma ParseExactlyIdTexts(s: Bytes, uuid: Bytes)
    ensures ParseMigrationId(s) == Ok(uuid) <==> |uuid| == 16 && s == IdText(uuid)
  {
    if ParseMigrationId(s) == Ok(uuid) {
      var k := IndexOf(UNDERSCORE, s);
      EncodeDecode(s[k + 1..]);
      assert s == s[..k] + [s[k]] + s[k + 1..];
    }
    if |uuid| == 16 && s == IdText(uuid) {
      ParseTypedText(MIG, UuidText(uuid));
      DecodeEncode(uuid);
    }
  }

  // ---- minting -----------------------------------------------------------------------------

  /** The wire form, spelled out. */
  lemma IdTextSpelled(uuid: Bytes)
    ensures |IdText(uuid)| == 26 && IdText(uuid)[4..] == UuidText(uuid)
    ensures IdText(uuid)[..4] == ['m' as int, 'i' as int, 'g' as int, '_' as int]
  {
    assert IdText(uuid) == (MIG + [UNDERSCORE]) + UuidText(uuid);
  }

  /** A foreign prefix is reported only once what follows the first underscore decodes. */
  lemma ForeignPrefixes(prefix: Bytes, rest: Bytes)
    requires '_' as int !in prefix
    ensures Decoded(rest).Err? ==>
            ParseMigrationId(prefix + ['_' as int] + rest) == Err(Malformed(BadBase62(Decoded(rest).error)))
    ensures Decoded(rest).Ok? && prefix != ['m' as int, 'i' as int, 'g' as int] ==>
            ParseMigrationId(prefix + ['_' as int] + rest) == Err(WrongPrefix(prefix))
    ensures ParseMigrationId(prefix) == Err(Malformed(NoPrefix))
  {
    ParseTypedText(prefix, rest);
  }

  const MARKER: Bytes := [255, 255, 255, 255, 255, 255]
  const NO_BYTES: Bytes := [0, 0, 0, 0, 0, 0, 0, 0, 0, 0]

  /** The low six bytes of the version, then ten zero bytes. */
  function VersionImage(version: nat): (r: Bytes)
    ensures |r| == 16
  {
    U64Be(version)[2..8] + NO_BYTES
  }

  function DerivedImage(digest: Bytes): (r: Bytes)
    requires |digest| == 32
    ensures |r| == 16
  {
    MARKER + digest[..10]
  }

  /** `migration_id_for_version`: a zeroed array, the version copied over its head. */
  method MigrationIdForVersion(version: nat) returns (id: Bytes)
    requires version <= U64_MAX
    ensures id == IdText(VersionImage(version)) && ParseMigrationId(id).Ok?
  {
    var bytes := new Byte[16](_ => 0);
    var be := U64Be(version);
    var i := 0;
    while i < 6
      invariant 0 <= i <= 6
      invariant forall j | 0 <= j < 16 :: bytes[j] == if j < i then be[j + 2] else 0
    {
      bytes[i] := be[i + 2];
      i := i + 1;
    }
    assert bytes[..] == VersionImage(version);
    var text := UuidToBase62(bytes[..]);
    id := MIG + [UNDERSCORE] + text;
    ParseExactlyIdTexts(id, VersionImage(version));
  }

  /** `MigrationId::derive`: marker bytes, then the head of SHA-256 of tag, zero byte and seed. */
  method Derive(tag: Bytes, seed: Bytes, sha256: Bytes -> Bytes) returns (id: Bytes)
    requires |sha256(tag + [0] + seed)| == 32
    ensures id == IdText(DerivedImage(sha256(tag + [0] + seed))) && ParseMigrationId(id).Ok?
    ensures var u := ParseMigrationId(id).value;
            && |u| == 16 && (forall j | 0 <= j < 6 :: u[j] == 0xFF)
            && forall j | 0 <= j < 10 :: u[6 + j] == sha256(tag + [0] + seed)[j]
  {
    var digest := sha256(tag + [0] + seed);
    var bytes := new Byte[16](_ => 0);
    var i := 0;
    while i < 6
      invariant 0 <= i <= 6
      invariant forall j | 0 <= j < i :: bytes[j] == 0xFF
    {
      bytes[i] := 0xFF;
      i := i + 1;
    }
    while i < 16
      invariant 6 <= i <= 16
      invariant forall j | 0 <= j < i :: bytes[j] == if j < 6 then 0xFF else digest[j - 6]
    {
      bytes[i] := digest[i - 6];
      i := i + 1;
    }
    assert bytes[..] == DerivedImage(digest);
    var text := UuidToBase62(bytes[..]);
    id := MIG + [UNDERSCORE] + text;
    ParseExactlyIdTexts(id, DerivedImage(digest));
  }

  /** The number in the high six bytes. */
  function Timestamp(uuid: Bytes): nat
    requires |uuid| == 16
  {
    Value(256, uuid[..6])
  }

  /** `timestamp_ms` of a valid id: shift and or, byte by byte. */
  method TimestampMs(id: Bytes) returns (ms: nat)
    requires ParseMigrationId(id).Ok?
    ensures ParseMigrationId(id).Ok? && |ParseMigrationId(id).value| == 16
    ensures ms == Timestamp(ParseMigrationId(id).value) < VERSION_CEILING
  {
    var uuid := ParseTyped(id).value.uuid;
    ParseExactlyIdTexts(id, uuid);
    ms := 0;
    var i := 0;
    while i < 6
      invariant 0 <= i <= 6 && ms == Value(256, uuid[..i])
    {
      assert uuid[..i + 1] == uuid[..i] + [uuid[i]];
      ValueAppend(256, uuid[..i], uuid[i]);
      ms := ms * 256 + uuid[i];
      i := i + 1;
    }
    MachineWidths();
    ValueBound(256, uuid[..6]);
  }

  // ---- order ---------------------------------------------------------------------------------

  /** Id strings sort like their 128-bit images. */
  lemma IdOrderIsNumeric(u: Bytes, v: Bytes)
    requires |u| == 16 && |v| == 16
    ensures Compare(IdText(u), IdText(v)) == CompareInts(Value(256, u), Value(256, v)) == Compare(u, v)
  {
    TextOrderIsIdOrder(u, v);
    ComparePrefix(MIG + [UNDERSCORE], UuidText(u), UuidText(v));
  }

  /** The time order is never contradicted by the string order. */
  lemma IdOrderRefinesTimestamps(u: Bytes, v: Bytes)
    requires |u| == 16 && |v| == 16 && Timestamp(u) < Timestamp(v)
    ensures Compare(IdText(u), IdText(v)) == Less
  {
    IdOrderIsNumeric(u, v);
    HighBits(u);
    HighBits(v);
    ScaleUp(Timestamp(u) + 1, Timestamp(v), Pow(256, 10));
    MulDistribute(Timestamp(u), 1, Pow(256, 10));
  }

  lemma HighBits(u: Bytes)
    requires |u| == 16
    ensures Value(256, u) == Timestamp(u) * Pow(256, 10) + Value(256, u[6..])
    ensures Value(256, u[6..]) < Pow(256, 10)
  {
    assert u == u[..6] + u[6..];
    ValueConcat(256, u[..6], u[6..]);
    ValueBound(256, u[6..]);
  }

  /** `U64Be(n)[2..8]` is the six-byte field, so higher bits of the version are dropped. */
  lemma VersionField(version: nat)
    ensures U64Be(version)[2..8] == Fixed(256, 6, version)
    ensures Value(256, U64Be(version)[2..8]) == version % VERSION_CEILING
  {
    FixedDenotes(256, 6, version);
    MachineWidths();
    FixedTail(version);
  }

  lemma FixedTail(n: nat)
    ensures |Fixed(256, 8, n)| == 8 && Fixed(256, 8, n)[2..8] == Fixed(256, 6, n)
  {
    FixedDenotes(256, 6, n);
    FixedDenotes(256, 8, n);
    FixedSuffix(2, 6, n);
  }

  lemma {:induction false} FixedSuffix(k: nat, w: nat, n: nat)
    ensures |Fixed(256, k + w, n)| == k + w && Fixed(256, k + w, n)[k..] == Fixed(256, w, n)
  {
    FixedDenotes(256, k + w, n);
    if w == 0 {
    } else {
      FixedSuffix(k, w - 1, n / 256);
      FixedDenotes(256, k + w - 1, n / 256);
    }
  }

  /** The file version is recovered from its id, modulo the 48-bit field. */
  lemma TimestampOfVersion(version: nat)
    ensures Timestamp(VersionImage(version)) == version % VERSION_CEILING
    ensures version < VERSION_CEILING ==> Timestamp(VersionImage(version)) == version
  {
    VersionField(version);
    assert VersionImage(version)[..6] == U64Be(version)[2..8];
  }

  lemma VersionNumber(version: nat)
    ensures Value(256, VersionImage(version)) == (version % VERSION_CEILING) * Pow(256, 10)
  {
    var u := VersionImage(version);
    HighBits(u);
    TimestampOfVersion(version);
    assert u[6..] == NO_BYTES;
    ZeroBytes();
  }

  lemma ZeroBytes()
    ensures Value(256, NO_BYTES) == 0
  {
    var zs: seq<nat> := seq(10, _ => 0);
    ValueZeros(256, 10);
    assert zs == NO_BYTES;
  }

  /** Ids of file versions sort like the low 48 bits of the versions. */
  lemma VersionIdOrder(v: nat, w: nat)
    ensures Compare(IdText(VersionImage(v)), IdText(VersionImage(w)))
         == CompareInts(v % VERSION_CEILING, w % VERSION_CEILING)
  {
    IdOrderIsNumeric(VersionImage(v), VersionImage(w));
    VersionNumber(v);
    VersionNumber(w);
    PowPositive(256, 10);
    ScaledOrder(v % VERSION_CEILING, w % VERSION_CEILING, Pow(256, 10));
  }

  /** Versions share an id exactly when their low 48 bits agree. */
  lemma VersionIdsCoincide(v: nat, w: nat)
    ensures IdText(VersionImage(v)) == IdText(VersionImage(w)) <==> v % VERSION_CEILING == w % VERSION_CEILING
  {
    VersionIdOrder(v, w);
    CompareEqual(IdText(VersionImage(v)), IdText(VersionImage(w)));
  }

  /** Within one block of 2^48 versions, such as the one below the ceiling, ids sort like the versions. */
  lemma VersionIdsAscend(v: nat, w: nat)
    ensures v / VERSION_CEILING == w / VERSION_CEILING ==>
            Compare(IdText(VersionImage(v)), IdText(VersionImage(w))) == CompareInts(v, w)
    ensures v < VERSION_CEILING && w < VERSION_CEILING ==>
            Compare(IdText(VersionImage(v)), IdText(VersionImage(w))) == CompareInts(v, w)
  {
    VersionIdOrder(v, w);
    DivideBack(VERSION_CEILING, v);
    DivideBack(VERSION_CEILING, w);
    if v < VERSION_CEILING { ModSmall(v, VERSION_CEILING); }
    if w < VERSION_CEILING { ModSmall(w, VERSION_CEILING); }
  }

  lemma ScaledOrder(v: nat, w: nat, p: nat)
    requires p > 0
    ensures CompareInts(v * p, w * p) == CompareInts(v, w)
  {
    if v < w { ScaleUp(v + 1, w, p); MulDistribute(v, 1, p); }
    if w < v { ScaleUp(w + 1, v, p); MulDistribute(w, 1, p); }
  }

  /**
   Every version at or past the ceiling takes the id of one below it, and so does not sort
   after the last version below it: the bound is needed.
   */
  lemma CeilingWraps(version: nat)
    requires version >= VERSION_CEILING
    ensures version % VERSION_CEILING < version
    ensures IdText(VersionImage(version)) == IdText(VersionImage(version % VERSION_CEILING))
    ensures Compare(IdText(VersionImage(version)), IdText(VersionImage(VERSION_CEILING - 1))) != Greater
  {
    var low := version % VERSION_CEILING;
    ModSmall(low, VERSION_CEILING);
    ModSmall(VERSION_CEILING - 1, VERSION_CEILING);
    VersionIdsCoincide(version, low);
    VersionIdOrder(version, VERSION_CEILING - 1);
  }

  /**
   A version id sorts strictly before a derived id unless the version fills the whole
   field and the derived tail is zero, in which case the two ids are one.
   */
  lemma VersionsPrecedeDerived(version: nat, digest: Bytes)
    requires |digest| == 32
    ensures Compare(IdText(VersionImage(version)), IdText(DerivedImage(digest))) == Less <==>
            version % VERSION_CEILING < VERSION_CEILING - 1 || digest[..10] != NO_BYTES
    ensures version % VERSION_CEILING == VERSION_CEILING - 1 && digest[..10] == NO_BYTES ==>
            IdText(VersionImage(version)) == IdText(DerivedImage(digest))
  {
    var u, d := VersionImage(version), DerivedImage(digest);
    IdOrderIsNumeric(u, d);
    VersionNumber(version);
    HighBits(d);
    MarkerValue();
    assert d[..6] == MARKER && d[6..] == digest[..10];
    ZeroBytes();
    var x, top, p, t := version % VERSION_CEILING, VERSION_CEILING - 1, Pow(256, 10), Value(256, digest[..10]);
    if x < top {
      ScaleUp(x + 1, top, p);
      MulDistribute(x, 1, p);
      PowPositive(256, 10);
    } else {
      assert x == top;
      ZeroTail(digest[..10]);
      if t == 0 {
        FixedUnique(256, u);
        FixedUnique(256, d);
      }
    }
  }

  lemma ZeroTail(b: Bytes)
    requires |b| == 10
    ensures Value(256, b) == 0 <==> b == NO_BYTES
  {
    ZeroBytes();
    FixedUnique(256, b);
    FixedUnique(256, NO_BYTES);
  }

  lemma MarkerValue()
    ensures Value(256, MARKER) == VERSION_CEILING - 1
  {
    assert Value(256, MARKER[..0]) == 0;
    assert MARKER[..1] == MARKER[..0] + [255]; ValueAppend(256, MARKER[..0], 255);
    assert MARKER[..2] == MARKER[..1] + [255]; ValueAppend(256, MARKER[..1], 255);
    assert MARKER[..3] == MARKER[..2] + [255]; ValueAppend(256, MARKER[..2], 255);
    assert MARKER[..4] == MARKER[..3] + [255]; ValueAppend(256, MARKER[..3], 255);
    assert MARKER[..5] == MARKER[..4] + [255]; ValueAppend(256, MARKER[..4], 255);
    assert MARKER == MARKER[..5] + [255]; ValueAppend(256, MARKER[..5], 255);
  }

  // ---- derived ids ---------------------------------------------------------------------------

  /** Derived ids coincide exactly when the ten kept digest bytes do. */
  lemma DerivedIdsSeparate(d: Bytes, e: Bytes)
    requires |d| == 32 && |e| == 32
    ensures IdText(DerivedImage(d)) == IdText(DerivedImage(e)) <==> d[..10] == e[..10]
  {
    var u, v := DerivedImage(d), DerivedImage(e);
    assert u[6..] == d[..10] && v[6..] == e[..10];
    if IdText(u) == IdText(v) {
      ParseExactlyIdTexts(IdText(u), u);
      ParseExactlyIdTexts(IdText(u), v);
    }
    if d[..10] == e[..10] { assert u == v; }
  }

  /** What is hashed determines tag and seed, when no tag holds a zero byte. */
  lemma DeriveInputsSeparate(tag: Bytes, seed: Bytes, tag': Bytes, seed': Bytes)
    requires 0 !in tag && 0 !in tag'
    ensures tag + [0] + seed == tag' + [0] + seed' <==> tag == tag' && seed == seed'
  {
    if tag + [0] + seed == tag' + [0] + seed' {
      IndexOfSeparator(0, tag, seed);
      IndexOfSeparator(0, tag', seed');
      SplitEqual(tag + [0], tag' + [0], seed, seed');
      SplitEqual(tag, tag', [0], [0]);
    }
  }
}
