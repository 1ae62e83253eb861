/**
  One V3C unit, written and mapped: what `create_v3c_unit` writes is a unit of the sample-stream
  grammar, and the mapper reads back its header and its NAL units.
 */
module V3cCodec {
  import opened Bytes
  import opened V3cTypes
  import opened V3cMapper
  import opened V3cWriter
  import opened SampleStream
  import V3cHeader

  // ---------------------------------------------------------------- one unit

  /** What the mapper reads back from a header. */
  function HeaderBack(h: UnitHeader): UnitHeader {
    V3cHeader.Unpack(V3cHeader.Pack(h))
  }

  /** The six unit types that hold NAL units. */
  predicate HoldsNals(h: UnitHeader) {
    !h.Vps? && !h.Other?
  }

  lemma ByteOfBits(x: u8)
    ensures (x as byte) as u8 == x
  {
  }

  lemma HeadBytesRead(h: UnitHeader)
    ensures HeaderOf(HeadBytes(h)) == HeaderBack(h)
  {
    var p := V3cHeader.Pack(h);
    ByteOfBits(p.b0);
    ByteOfBits(p.b1);
    ByteOfBits(p.b2);
    ByteOfBits(p.b3);
    hide V3cHeader.Pack, V3cHeader.Unpack;
  }

  lemma TypeBack(h: UnitHeader)
    requires HoldsNals(h)
    ensures HeaderBack(h) != Vps && HeaderBack(h).Type() == h.Type() && HeaderBack(h).IsAtlas() == h.IsAtlas()
  {
  }

  function Bufs(nals: seq<NalInfo>): (r: seq<seq<byte>>)
    ensures |r| == |nals|
  {
    seq(|nals|, i requires 0 <= i < |nals| => nals[i].buf)
  }

  /** Sizes as the receiver keeps them, and a precision that the unit type allows. */
  predicate Consistent(u: UnitInfo, nalPrecision: nat) {
    && HoldsNals(u.header)
    && (if u.header.IsAtlas() then NalPrecisionOk(nalPrecision) else nalPrecision == 4)
    && (forall n <- u.nalInfos :: n.size == |n.buf|)
    && u.ptr == SumSizes(u.nalInfos)
  }

  /** Bytes of a unit behind its size field: header, precision byte, NAL sizes and NAL units. */
  function UnitLength(u: UnitInfo, nalPrecision: nat): nat {
    V3C_HDR_LEN + (if u.header.IsAtlas() then 1 else 0) + u.ptr + |u.nalInfos| * nalPrecision
  }

  /** The NAL units of a unit fit their size fields, and the unit fits its own. */
  predicate Fits(u: UnitInfo, nalPrecision: nat) {
    && (forall n <- u.nalInfos :: n.size < Pow256(nalPrecision))
    && UnitLength(u, nalPrecision) < Pow256(V3C_SIZE_PRECISION)
  }

  predicate Writable(u: UnitInfo, nalPrecision: nat) {
    Consistent(u, nalPrecision) && Fits(u, nalPrecision)
  }

  function AsSample(u: UnitInfo, nalPrecision: nat): SampleUnit
    requires nalPrecision > 0
  {
    NalUnits(HeadBytes(u.header), PrecisionByte(nalPrecision), Bufs(u.nalInfos))
  }

  lemma {:induction false} WrittenIsNalStream(nals: seq<NalInfo>, k: nat)
    requires NalPrecisionOk(k) && forall n <- nals :: n.size == |n.buf| < Pow256(k)
    ensures BytesThere(nals) && WrittenNals(nals, k) == NalStream(Bufs(nals), k)
  {
    if nals != [] {
      var n := nals[0];
      assert n in nals;
      assert Bufs(nals)[1..] == Bufs(nals[1..]);
      assert n.buf[..n.size] == n.buf;
      SmallPowers();
      assert Low32(n.size) == n.size;
      WrittenIsNalStream(nals[1..], k);
    }
  }

  lemma SmallPowers()
    ensures Pow256(2) == 0x1_0000 && Pow256(3) == 0x100_0000 && Pow256(4) == 0x1_0000_0000
    ensures Pow256(V3C_SIZE_PRECISION) == 0x100_0000
  {
    assert Pow256(1) == 256 && Pow256(2) == 256 * Pow256(1);
    assert Pow256(3) == 256 * Pow256(2) && Pow256(4) == 256 * Pow256(3);
  }

  lemma AsSampleHead(u: UnitInfo, nalPrecision: nat)
    requires HoldsNals(u.header)
    requires if u.header.IsAtlas() then NalPrecisionOk(nalPrecision) else nalPrecision == 4
    ensures var w := AsSample(u, nalPrecision);
            && HeadOk(w) && HeaderOf(w.head) == HeaderBack(u.header)
            && Precision(w) == nalPrecision
            && Prefix(w) == WrittenHead(u.header, nalPrecision)
            && |Prefix(w)| == V3C_HDR_LEN + if u.header.IsAtlas() then 1 else 0
  {
    HeadBytesRead(u.header);
    TypeBack(u.header);
    hide HeadBytes, HeaderOf, HeaderBack, Bufs, UnitHeader.Type;
  }

  /** The bytes of a unit behind its size field, and that they are a payload of the format. */
  lemma WrittenPayload(u: UnitInfo, nalPrecision: nat)
    requires Writable(u, nalPrecision)
    ensures BytesThere(u.nalInfos) && HeadOk(AsSample(u, nalPrecision))
    ensures Payload(AsSample(u, nalPrecision))
         == WrittenHead(u.header, nalPrecision) + WrittenNals(u.nalInfos, nalPrecision)
  {
    hide NalStream, HeaderOf, HeadBytes, WrittenHead, Precision, Prefix, SumSizes, WrittenNals, Pow256, Bufs,
      UnitHeader.Type;
    AsSampleHead(u, nalPrecision);
    WrittenIsNalStream(u.nalInfos, nalPrecision);
  }

  lemma UnitLengthIs(u: UnitInfo, nalPrecision: nat)
    requires BytesThere(u.nalInfos) && nalPrecision > 0 && u.ptr == SumSizes(u.nalInfos)
    ensures |WrittenHead(u.header, nalPrecision) + WrittenNals(u.nalInfos, nalPrecision)| == UnitLength(u, nalPrecision)
    ensures |WrittenUnit(u, V3C_SIZE_PRECISION, nalPrecision)| == V3C_SIZE_PRECISION + UnitLength(u, nalPrecision)
    ensures SizeField(u, nalPrecision) == Low32(UnitLength(u, nalPrecision))
  {
    hide WrittenNals, SumSizes, HeadBytes, BytesThere, Low32;
    WrittenLength(u.nalInfos, nalPrecision);
  }

  lemma FitsIs(u: UnitInfo, nalPrecision: nat)
    requires Writable(u, nalPrecision)
    ensures HoldsNals(u.header) && nalPrecision > 0 && u.ptr == SumSizes(u.nalInfos)
    ensures if u.header.IsAtlas() then NalPrecisionOk(nalPrecision) else nalPrecision == 4
    ensures UnitLength(u, nalPrecision) < Pow256(V3C_SIZE_PRECISION)
    ensures Low32(UnitLength(u, nalPrecision)) == UnitLength(u, nalPrecision)
    ensures forall n <- Bufs(u.nalInfos) :: |n| < Pow256(nalPrecision)
  {
    hide UnitLength, SumSizes, Pow256, Bufs, UnitHeader.Type, HoldsNals;
    SmallPowers();
    forall n | n in Bufs(u.nalInfos)
      ensures |n| < Pow256(nalPrecision)
    {
      BufIn(u.nalInfos, n);
    }
  }

  /** What `create_v3c_unit` writes is a unit of the grammar, and one that the mapper supports. */
  lemma WrittenIsSample(u: UnitInfo, nalPrecision: nat)
    requires Writable(u, nalPrecision)
    ensures BytesThere(u.nalInfos)
    ensures UnitOk(AsSample(u, nalPrecision), V3C_SIZE_PRECISION) && Supported(AsSample(u, nalPrecision))
    ensures WrittenUnit(u, V3C_SIZE_PRECISION, nalPrecision) == UnitBytes(AsSample(u, nalPrecision), V3C_SIZE_PRECISION)
  {
    hide *;
    FitsIs(u, nalPrecision);
    TypeBack(u.header);
    var w := AsSample(u, nalPrecision);
    WrittenPayload(u, nalPrecision);
    UnitLengthIs(u, nalPrecision);
    AsSampleHead(u, nalPrecision);
    UnitParts(u, V3C_SIZE_PRECISION, nalPrecision);
    AsSampleParts(u, nalPrecision);
    var head, nals := WrittenHead(u.header, nalPrecision), WrittenNals(u.nalInfos, nalPrecision);
    Assoc(BigEndian(|Payload(w)|, V3C_SIZE_PRECISION), head, nals);
    UnitOkIs(w, V3C_SIZE_PRECISION);
  }

  lemma AsSampleParts(u: UnitInfo, nalPrecision: nat)
    requires nalPrecision > 0
    ensures AsSample(u, nalPrecision).NalUnits? && AsSample(u, nalPrecision).nals == Bufs(u.nalInfos)
  {
    hide Bufs, HeadBytes;
  }

  lemma UnitOkIs(w: SampleUnit, k: nat)
    requires w.NalUnits? && HeadOk(w) && |Payload(w)| < Pow256(k)
    requires forall n <- w.nals :: |n| < Pow256(Precision(w))
    ensures UnitOk(w, k) && UnitBytes(w, k) == BigEndian(|Payload(w)|, k) + Payload(w)
    ensures (HeaderOf(w.head).IsAtlas() ==> NalPrecisionOk(Precision(w))) ==> Supported(w)
  {
    hide Pow256, Payload, HeaderOf, BigEndian, UnitHeader.IsAtlas;
  }

  lemma BufIn(nals: seq<NalInfo>, b: seq<byte>)
    requires b in Bufs(nals)
    ensures exists n :: n in nals && n.buf == b
  {
    var i :| 0 <= i < |nals| && Bufs(nals)[i] == b;
    assert nals[i] in nals && nals[i].buf == b;
  }

  // ---------------------------------------------------------------- one unit, read back

  /** A mapped NAL unit shows exactly these bytes. */
  predicate Shows(m: Mem, n: NalInfo, nal: seq<byte>) {
    n.size == |nal| && Holds(m, n.location, nal)
  }

  /** A mapped unit shows a written one: its header as it reads back, and its NAL units in order. */
  predicate Mirrors(m: Mem, got: UnitInfo, u: UnitInfo) {
    && got.header == HeaderBack(u.header)
    && |got.nalInfos| == |u.nalInfos|
    && forall i :: 0 <= i < |u.nalInfos| ==> Shows(m, got.nalInfos[i], u.nalInfos[i].buf)
  }

  lemma {:induction false} LocatedShows(m: Mem, at: nat, nals: seq<seq<byte>>, k: nat, i: nat)
    requires i < |nals| && Holds(m, at, NalStream(nals, k))
    ensures Shows(m, LocatedNals(at, nals, k)[i], nals[i])
    decreases |nals|
  {
    NalStreamParts(m, at, nals, k);
    LocatedNalsStep(at, nals, k);
    if i > 0 {
      LocatedShows(m, at + k + |nals[0]|, nals[1..], k, i - 1);
    }
  }

  lemma LocatedMirrors(m: Mem, start: nat, u: UnitInfo, nalPrecision: nat)
    requires Writable(u, nalPrecision)
    requires UnitOk(AsSample(u, nalPrecision), V3C_SIZE_PRECISION)
    requires Holds(m, start, Payload(AsSample(u, nalPrecision)))
    ensures Mirrors(m, Located(AsSample(u, nalPrecision), start), u)
  {
    hide *;
    FitsIs(u, nalPrecision);
    var w := AsSample(u, nalPrecision);
    AsSampleHead(u, nalPrecision);
    AsSampleParts(u, nalPrecision);
    NalUnitParts(m, start, w, V3C_SIZE_PRECISION);
    NalUnitFacts(w, V3C_SIZE_PRECISION, start);
    var at := start + |Prefix(w)|;
    forall i | 0 <= i < |u.nalInfos|
      ensures Shows(m, LocatedNals(at, w.nals, nalPrecision)[i], w.nals[i])
    {
      LocatedShows(m, at, w.nals, nalPrecision, i);
    }
    MirrorsIs(m, Located(w, start), u);
  }

  lemma MirrorsIs(m: Mem, got: UnitInfo, u: UnitInfo)
    requires got.header == HeaderBack(u.header) && |got.nalInfos| == |u.nalInfos|
    requires forall i :: 0 <= i < |u.nalInfos| ==> Shows(m, got.nalInfos[i], Bufs(u.nalInfos)[i])
    ensures Mirrors(m, got, u)
  {
    hide HeaderBack, Shows;
  }

  /** The size field that is read back is the length of the unit modulo 2^24. */
  lemma UnitSizeReads(m: Mem, ptr: nat, u: UnitInfo, nalPrecision: nat)
    requires Consistent(u, nalPrecision) && BytesThere(u.nalInfos) && nalPrecision > 0
    requires Holds(m, ptr, WrittenUnit(u, V3C_SIZE_PRECISION, nalPrecision))
    ensures Size(m, ptr, V3C_SIZE_PRECISION) == UnitLength(u, nalPrecision) % 0x100_0000
    ensures Holds(m, ptr + V3C_SIZE_PRECISION, WrittenHead(u.header, nalPrecision))
  {
    hide *;
    var k := V3C_SIZE_PRECISION;
    var n := SizeField(u, nalPrecision);
    var head, nals := WrittenHead(u.header, nalPrecision), WrittenNals(u.nalInfos, nalPrecision);
    ConsistentIs(u, nalPrecision);
    UnitLengthIs(u, nalPrecision);
    UnitParts(u, k, nalPrecision);
    Assoc(BigEndian(n, k), head, nals);
    HoldsParts(m, ptr, BigEndian(n, k), head + nals);
    HoldsParts(m, ptr + k, head, nals);
    SizeTruncates(m, ptr, n, k);
    SmallPowers();
    Low32Mod(UnitLength(u, nalPrecision));
  }

  lemma ConsistentIs(u: UnitInfo, nalPrecision: nat)
    requires Consistent(u, nalPrecision)
    ensures HoldsNals(u.header) && nalPrecision > 0 && u.ptr == SumSizes(u.nalInfos)
    ensures NalPrecisionOk(nalPrecision) && (!u.header.IsAtlas() ==> nalPrecision == 4)
    ensures forall i :: 0 <= i < |u.nalInfos| ==> u.nalInfos[i].size == |u.nalInfos[i].buf|
  {
    hide SumSizes, HoldsNals, UnitHeader.IsAtlas;
  }

  lemma Low32Mod(n: nat)
    ensures Low32(n) % 0x100_0000 == n % 0x100_0000
  {
  }

  lemma SizeTruncates(m: Mem, at: nat, n: nat, k: nat)
    requires Holds(m, at, BigEndian(n, k))
    ensures Size(m, at, k) == n % Pow256(k)
  {
    hide BigEndian, FromBigEndian, Pow256, Slice;
    SliceIs(m, at, k);
    BigEndianTruncates(n, k);
  }

  lemma {:induction false} ReadsBelow(s: seq<byte>)
    ensures FromBigEndian(s) < Pow256(|s|)
  {
    if s != [] {
      ReadsBelow(s[..|s| - 1]);
    }
  }

  lemma SizeBelow(m: Mem, at: nat, k: nat)
    ensures Size(m, at, k) < Pow256(k)
  {
    hide FromBigEndian, Pow256, Slice;
    ReadsBelow(Slice(m, at, k));
  }

  /** No size that the mapper reads reaches what its field can hold. */
  lemma {:induction false} MappedSizesBelow(m: Mem, at: nat, stop: nat, k: nat)
    requires NalPrecisionOk(k)
    ensures forall n <- MapNals(m, at, stop, k) :: n.size < Pow256(k)
    decreases stop - at
  {
    hide Size, Pow256;
    if at < stop {
      SizeBelow(m, at, k);
      MappedSizesBelow(m, at + k + Size(m, at, k), stop, k);
    }
  }

  /** The precision byte of an atlas unit, as the mapper reads it. */
  lemma PrecisionReads(m: Mem, start: nat, h: UnitHeader, nalPrecision: nat)
    requires h.IsAtlas() && NalPrecisionOk(nalPrecision) && Holds(m, start, WrittenHead(h, nalPrecision))
    ensures At(m, start + V3C_HDR_LEN) / 32 + 1 == nalPrecision
  {
    hide HeadBytes, UnitHeader.IsAtlas;
    HoldsParts(m, start, HeadBytes(h), [PrecisionByte(nalPrecision)]);
    HoldsAt(m, start + V3C_HDR_LEN, [PrecisionByte(nalPrecision)], 0);
  }

  /** A mapped unit that mirrors a written one had sizes that fit their fields. */
  lemma MirroredFits(m: Mem, start: nat, size: nat, u: UnitInfo, nalPrecision: nat)
    requires Consistent(u, nalPrecision)
    requires nalPrecision > 0 && Holds(m, start, WrittenHead(u.header, nalPrecision))
    requires MapUnit(m, start, size).Some? && Mirrors(m, MapUnit(m, start, size).value, u)
    ensures forall n <- u.nalInfos :: n.size < Pow256(nalPrecision)
  {
    hide *;
    var got := MapUnit(m, start, size).value;
    ConsistentIs(u, nalPrecision);
    TypeBack(u.header);
    MirrorSizes(m, got, u);
    MappedAs(m, start, size);
    if u.header.IsAtlas() {
      PrecisionReads(m, start, u.header, nalPrecision);
    }
    var body := if u.header.IsAtlas() then start + V3C_HDR_LEN + 1 else start + V3C_HDR_LEN;
    if got.nalInfos != [] {
      MappedSizesBelow(m, body, start + size, nalPrecision);
    }
    forall n | n in u.nalInfos
      ensures n.size < Pow256(nalPrecision)
    {
      var i :| 0 <= i < |u.nalInfos| && u.nalInfos[i] == n;
      assert got.nalInfos[i] in got.nalInfos && got.nalInfos[i].size == n.size;
    }
  }

  lemma MirrorSizes(m: Mem, got: UnitInfo, u: UnitInfo)
    requires Mirrors(m, got, u)
    ensures got.header == HeaderBack(u.header) && |got.nalInfos| == |u.nalInfos|
    ensures forall i :: 0 <= i < |u.nalInfos| ==> got.nalInfos[i].size == |u.nalInfos[i].buf|
  {
    hide HeaderBack, Holds;
  }

  /** A unit that was found and is no parameter set, in terms of its header. */
  lemma MappedAs(m: Mem, start: nat, size: nat)
    ensures var got := MapUnit(m, start, size);
            got.Some? && got.value.header != Vps ==>
              var h := got.value.header;
              var body := if h.IsAtlas() then start + V3C_HDR_LEN + 1 else start + V3C_HDR_LEN;
              var precision := if h.IsAtlas() then At(m, start + V3C_HDR_LEN) / 32 + 1 else 4;
              || got.value.nalInfos == []
              || (NalPrecisionOk(precision) && got.value.nalInfos == MapNals(m, body, start + size, precision))
  {
    hide ParseHeader, MapNals, At;
  }

  /**
    The unit codec round trip, at any position of any buffer: mapping what `create_v3c_unit`
    wrote ends at the end of the unit and gives back the header and the NAL units exactly when
    the unit is shorter than 2^24 bytes and every NAL unit fits its size field; and the header is
    then the very one that was written exactly when its fields are representable.
   */
  lemma {:induction false} UnitRoundTrip(m: Mem, ptr: nat, u: UnitInfo, nalPrecision: nat)
    requires Consistent(u, nalPrecision) && BytesThere(u.nalInfos) && nalPrecision > 0
    requires Holds(m, ptr, WrittenUnit(u, V3C_SIZE_PRECISION, nalPrecision))
    ensures var start := ptr + V3C_SIZE_PRECISION;
            var size := Size(m, ptr, V3C_SIZE_PRECISION);
            var got := MapUnit(m, start, size);
            && (Fits(u, nalPrecision) <==>
                 && start + size == ptr + |WrittenUnit(u, V3C_SIZE_PRECISION, nalPrecision)|
                 && got.Some? && Mirrors(m, got.value, u))
            && (Fits(u, nalPrecision) ==> (got.value.header == u.header <==> V3cHeader.Representable(u.header)))
  {
    hide *;
    var start, size := ptr + V3C_SIZE_PRECISION, Size(m, ptr, V3C_SIZE_PRECISION);
    var got := MapUnit(m, start, size);
    ConsistentIs(u, nalPrecision);
    UnitLengthIs(u, nalPrecision);
    UnitSizeReads(m, ptr, u, nalPrecision);
    SmallPowers();
    if Fits(u, nalPrecision) {
      WrittenComesBack(m, ptr, u, nalPrecision);
    }
    if && start + size == ptr + |WrittenUnit(u, V3C_SIZE_PRECISION, nalPrecision)|
       && got.Some? && Mirrors(m, got.value, u)
    {
      MirroredFits(m, start, size, u, nalPrecision);
      FitsWhen(u, nalPrecision);
    }
  }

  lemma FitsWhen(u: UnitInfo, nalPrecision: nat)
    requires forall n <- u.nalInfos :: n.size < Pow256(nalPrecision)
    requires UnitLength(u, nalPrecision) < Pow256(V3C_SIZE_PRECISION)
    ensures Fits(u, nalPrecision)
  {
    hide Pow256, UnitLength;
  }

  lemma WritableWhen(u: UnitInfo, nalPrecision: nat)
    requires Consistent(u, nalPrecision) && Fits(u, nalPrecision)
    ensures Writable(u, nalPrecision)
  {
    hide Consistent, Fits;
  }

  /** The direction in which everything fits. */
  lemma WrittenComesBack(m: Mem, ptr: nat, u: UnitInfo, nalPrecision: nat)
    requires Consistent(u, nalPrecision) && Fits(u, nalPrecision) && BytesThere(u.nalInfos) && nalPrecision > 0
    requires Holds(m, ptr, WrittenUnit(u, V3C_SIZE_PRECISION, nalPrecision))
    ensures var start := ptr + V3C_SIZE_PRECISION;
            var size := Size(m, ptr, V3C_SIZE_PRECISION);
            var got := MapUnit(m, start, size);
            && start + size == ptr + |WrittenUnit(u, V3C_SIZE_PRECISION, nalPrecision)|
            && got.Some? && Mirrors(m, got.value, u)
            && (got.value.header == u.header <==> V3cHeader.Representable(u.header))
  {
    hide *;
    var k := V3C_SIZE_PRECISION;
    var w := AsSample(u, nalPrecision);
    WritableWhen(u, nalPrecision);
    WrittenIsSample(u, nalPrecision);
    UnitFits(w, k);
    UnitBytesIs(w, k);
    HoldsParts(m, ptr, BigEndian(|Payload(w)|, k), Payload(w));
    SizeReads(m, ptr, |Payload(w)|, k);
    MapsUnit(m, ptr + k, w, k);
    LocatedMirrors(m, ptr + k, u, nalPrecision);
    MirrorSizes(m, Located(w, ptr + k), u);
    HeaderIsBack(u.header);
  }

  lemma UnitBytesIs(w: SampleUnit, k: nat)
    requires HeadOk(w)
    ensures UnitBytes(w, k) == BigEndian(|Payload(w)|, k) + Payload(w)
  {
    hide Payload, BigEndian, HeadOk;
  }

  lemma HeaderIsBack(h: UnitHeader)
    ensures HeaderBack(h) == h <==> V3cHeader.Representable(h)
  {
    hide V3cHeader.Pack, V3cHeader.Unpack, V3cHeader.Representable;
    V3cHeader.HeaderRoundTrip(h);
  }
}
