/**
  Whole files, written and mapped: GoPs that `reconstruct_v3c_gop` writes one after the other
  are a well-formed sample stream, and `mmap_v3c_file` finds in it, list by list, the units that
  were written.
 */
module V3cFile {
  import opened Bytes
  import opened V3cTypes
  import opened V3cMapper
  import opened V3cWriter
  import opened SampleStream
  import opened V3cCodec

  // ---------------------------------------------------------------- GoPs as sample units

  /** A VPS unit that the mapper takes for one: a single payload whose first byte has type zero. */
  predicate VpsOk(u: UnitInfo) {
    && |u.nalInfos| == 1
    && var n := u.nalInfos[0];
       n.size == |n.buf| && 0 < |n.buf| < Pow256(V3C_SIZE_PRECISION) && n.buf[0] < 8
  }

  predicate GopOk(l: UnitLists, i: nat) {
    && Addressable(l, i) && GopTypes(l, i) && VpsOk(l.vps[i])
    && Writable(l.ad[i], ATLAS_NAL_SIZE_PRECISION)
    && Writable(l.ovd[i], VIDEO_NAL_SIZE_PRECISION)
    && Writable(l.gvd[i], VIDEO_NAL_SIZE_PRECISION)
    && Writable(l.avd[i], VIDEO_NAL_SIZE_PRECISION)
  }

  function VpsSample(u: UnitInfo): SampleUnit
    requires VpsOk(u)
  {
    ParameterSet(u.nalInfos[0].buf)
  }

  lemma LowByteIsVps(b: byte)
    requires b < 8
    ensures (b as u8) & 0xF8 == 0
  {
  }

  lemma VpsIsSample(u: UnitInfo)
    requires VpsOk(u)
    ensures UnitOk(VpsSample(u), V3C_SIZE_PRECISION) && Supported(VpsSample(u))
    ensures Low32(u.nalInfos[0].size) <= |u.nalInfos[|u.nalInfos| - 1].buf|
    ensures WrittenVps(u) == UnitBytes(VpsSample(u), V3C_SIZE_PRECISION)
  {
    var n := u.nalInfos[0];
    LowByteIsVps(n.buf[0]);
    SmallPowers();
    assert Low32(n.size) == n.size && n.buf[..n.size] == n.buf;
  }

  const GOP_UNITS: nat := 5

  /** Unit `c` of GoP `i`, in the order in which a GoP is written. */
  function SampleAt(l: UnitLists, i: nat, c: nat): SampleUnit
    requires GopOk(l, i)
  {
    if c == 0 then VpsSample(l.vps[i])
    else if c == 1 then AsSample(l.ad[i], ATLAS_NAL_SIZE_PRECISION)
    else if c == 2 then AsSample(l.ovd[i], VIDEO_NAL_SIZE_PRECISION)
    else if c == 3 then AsSample(l.gvd[i], VIDEO_NAL_SIZE_PRECISION)
    else AsSample(l.avd[i], VIDEO_NAL_SIZE_PRECISION)
  }

  /** The parts of a GoP that can be printed and mapped. */
  lemma GopOkParts(l: UnitLists, i: nat)
    requires GopOk(l, i)
    ensures Addressable(l, i) && GopTypes(l, i)
    ensures i < |l.vps| && i < |l.ad| && i < |l.ovd| && i < |l.gvd| && i < |l.avd|
    ensures VpsOk(l.vps[i]) && Writable(l.ad[i], ATLAS_NAL_SIZE_PRECISION)
    ensures Writable(l.ovd[i], VIDEO_NAL_SIZE_PRECISION) && Writable(l.gvd[i], VIDEO_NAL_SIZE_PRECISION)
    ensures Writable(l.avd[i], VIDEO_NAL_SIZE_PRECISION)
    ensures ATLAS_NAL_SIZE_PRECISION > 0 && VIDEO_NAL_SIZE_PRECISION > 0
  {
    hide VpsOk, Writable;
  }

  lemma SampleAtIs(l: UnitLists, i: nat)
    requires GopOk(l, i)
    ensures VpsOk(l.vps[i]) && SampleAt(l, i, 0) == VpsSample(l.vps[i])
    ensures SampleAt(l, i, 1) == AsSample(l.ad[i], ATLAS_NAL_SIZE_PRECISION)
    ensures SampleAt(l, i, 2) == AsSample(l.ovd[i], VIDEO_NAL_SIZE_PRECISION)
    ensures SampleAt(l, i, 3) == AsSample(l.gvd[i], VIDEO_NAL_SIZE_PRECISION)
    ensures SampleAt(l, i, 4) == AsSample(l.avd[i], VIDEO_NAL_SIZE_PRECISION)
    ensures GOP_UNITS == 5
  {
    hide VpsOk, Writable, VpsSample, AsSample;
  }

  lemma SampleAtOk(l: UnitLists, i: nat, c: nat)
    requires GopOk(l, i)
    ensures UnitOk(SampleAt(l, i, c), V3C_SIZE_PRECISION) && Supported(SampleAt(l, i, c))
  {
    hide UnitOk, Supported, AsSample, Writable, WrittenUnit, UnitBytes, VpsOk, VpsSample, WrittenVps;
    if c == 0 {
      VpsIsSample(l.vps[i]);
    } else if c == 1 {
      WrittenIsSample(l.ad[i], ATLAS_NAL_SIZE_PRECISION);
    } else if c == 2 {
      WrittenIsSample(l.ovd[i], VIDEO_NAL_SIZE_PRECISION);
    } else if c == 3 {
      WrittenIsSample(l.gvd[i], VIDEO_NAL_SIZE_PRECISION);
    } else {
      WrittenIsSample(l.avd[i], VIDEO_NAL_SIZE_PRECISION);
    }
  }

  ghost predicate GopsOk(l: UnitLists, g: nat) {
    forall i :: 0 <= i < g ==> GopOk(l, i)
  }

  function GopSamples(l: UnitLists, i: nat): (us: seq<SampleUnit>)
    requires GopOk(l, i)
    ensures |us| == GOP_UNITS
    ensures forall c :: 0 <= c < GOP_UNITS ==> us[c] == SampleAt(l, i, c)
  {
    seq(GOP_UNITS, c requires 0 <= c < GOP_UNITS => SampleAt(l, i, c))
  }

  /** The units of the first `g` GoPs, five to a GoP. */
  function Samples(l: UnitLists, g: nat): (us: seq<SampleUnit>)
    requires GopsOk(l, g)
    ensures |us| == GOP_UNITS * g
  {
    if g == 0 then [] else Samples(l, g - 1) + GopSamples(l, g - 1)
  }

  lemma {:induction false} SamplesAt(l: UnitLists, g: nat, i: nat, c: nat)
    requires GopsOk(l, g) && i < g && c < GOP_UNITS
    ensures Samples(l, g)[GOP_UNITS * i + c] == SampleAt(l, i, c)
  {
    hide GopOk, SampleAt;
    if i < g - 1 {
      SamplesAt(l, g - 1, i, c);
    }
  }

  lemma GopSamplesOk(l: UnitLists, i: nat)
    requires GopOk(l, i)
    ensures UnitsOk(GopSamples(l, i), V3C_SIZE_PRECISION) && AllSupported(GopSamples(l, i))
  {
    hide GopOk, SampleAt, UnitOk, Supported;
    forall c: nat | c < GOP_UNITS
      ensures UnitOk(SampleAt(l, i, c), V3C_SIZE_PRECISION) && Supported(SampleAt(l, i, c))
    {
      SampleAtOk(l, i, c);
    }
  }

  // ---------------------------------------------------------------- the bytes of whole GoPs

  lemma {:induction false} StreamSplit(xs: seq<SampleUnit>, ys: seq<SampleUnit>, k: nat)
    requires UnitsOk(xs, k) && UnitsOk(ys, k)
    ensures UnitsOk(xs + ys, k)
    ensures StreamBytes(xs + ys, k) == StreamBytes(xs, k) + StreamBytes(ys, k)
  {
    hide UnitOk, UnitBytes;
    if xs == [] {
      assert xs + ys == ys;
    } else {
      OkHead(xs, k);
      assert (xs + ys)[1..] == xs[1..] + ys;
      StreamSplit(xs[1..], ys, k);
      UnitFits(xs[0], k);
      Assoc(UnitBytes(xs[0], k), StreamBytes(xs[1..], k), StreamBytes(ys, k));
    }
  }

  lemma SamplesStep(l: UnitLists, g: nat)
    requires GopsOk(l, g) && g > 0
    ensures GopsOk(l, g - 1) && GopOk(l, g - 1)
    ensures Samples(l, g) == Samples(l, g - 1) + GopSamples(l, g - 1)
  {
    hide GopOk, GopSamples;
  }

  lemma NoSamples(l: UnitLists)
    ensures GopsOk(l, 0) && UnitsOk(Samples(l, 0), V3C_SIZE_PRECISION) && AllSupported(Samples(l, 0))
  {
  }

  lemma SupportedSplit(xs: seq<SampleUnit>, ys: seq<SampleUnit>)
    requires AllSupported(xs) && AllSupported(ys)
    ensures AllSupported(xs + ys)
  {
    hide Supported;
  }

  lemma {:induction false} SamplesOk(l: UnitLists, g: nat)
    requires GopsOk(l, g)
    ensures UnitsOk(Samples(l, g), V3C_SIZE_PRECISION) && AllSupported(Samples(l, g))
  {
    hide *;
    if g == 0 {
      NoSamples(l);
    } else {
      SamplesStep(l, g);
      SamplesOk(l, g - 1);
      GopSamplesOk(l, g - 1);
      StreamSplit(Samples(l, g - 1), GopSamples(l, g - 1), V3C_SIZE_PRECISION);
      SupportedSplit(Samples(l, g - 1), GopSamples(l, g - 1));
    }
  }

  lemma StreamOfOne(u: SampleUnit, k: nat)
    requires UnitOk(u, k)
    ensures UnitsOk([u], k) && StreamBytes([u], k) == UnitBytes(u, k)
  {
    hide UnitOk, UnitBytes;
    UnitFits(u, k);
    assert StreamBytes([u], k) == UnitBytes(u, k) + StreamBytes([], k);
  }

  lemma StreamSnoc(xs: seq<SampleUnit>, u: SampleUnit, k: nat)
    requires UnitsOk(xs, k) && UnitOk(u, k)
    ensures UnitsOk(xs + [u], k) && HeadOk(u)
    ensures StreamBytes(xs + [u], k) == StreamBytes(xs, k) + UnitBytes(u, k)
  {
    hide *;
    UnitFits(u, k);
    StreamOfOne(u, k);
    StreamSplit(xs, [u], k);
  }

  lemma GopSamplesAre(l: UnitLists, i: nat)
    requires GopOk(l, i)
    ensures GopSamples(l, i)
         == [SampleAt(l, i, 0), SampleAt(l, i, 1), SampleAt(l, i, 2), SampleAt(l, i, 3), SampleAt(l, i, 4)]
  {
    hide SampleAt, GopOk;
  }

  lemma GopBytesAre(hdrByte: bool, l: UnitLists, i: nat)
    requires Addressable(l, i)
    requires var nals := l.vps[i].nalInfos; Low32(nals[0].size) <= |nals[|nals| - 1].buf|
    requires BytesThere(l.ad[i].nalInfos) && BytesThere(l.ovd[i].nalInfos)
    requires BytesThere(l.gvd[i].nalInfos) && BytesThere(l.avd[i].nalInfos)
    ensures GopBytesThere(l, i)
    ensures WrittenGop(hdrByte, l, i)
         == StreamHeader(hdrByte) + WrittenVps(l.vps[i])
            + WrittenUnit(l.ad[i], V3C_SIZE_PRECISION, ATLAS_NAL_SIZE_PRECISION)
            + WrittenUnit(l.ovd[i], V3C_SIZE_PRECISION, VIDEO_NAL_SIZE_PRECISION)
            + WrittenUnit(l.gvd[i], V3C_SIZE_PRECISION, VIDEO_NAL_SIZE_PRECISION)
            + WrittenUnit(l.avd[i], V3C_SIZE_PRECISION, VIDEO_NAL_SIZE_PRECISION)
  {
    hide WrittenUnit, WrittenVps, BytesThere, StreamHeader, Low32;
  }

  /** A written GoP is its five units, behind the stream header when that was asked for. */
  lemma {:induction false} WrittenGopIsStream(hdrByte: bool, l: UnitLists, i: nat)
    requires GopOk(l, i)
    ensures Addressable(l, i) && GopBytesThere(l, i) && UnitsOk(GopSamples(l, i), V3C_SIZE_PRECISION)
    ensures WrittenGop(hdrByte, l, i)
         == StreamHeader(hdrByte) + StreamBytes(GopSamples(l, i), V3C_SIZE_PRECISION)
  {
    hide *;
    var k := V3C_SIZE_PRECISION;
    GopOkParts(l, i);
    VpsHasNal(l.vps[i]);
    VpsIsSample(l.vps[i]);
    WrittenIsSample(l.ad[i], ATLAS_NAL_SIZE_PRECISION);
    WrittenIsSample(l.ovd[i], VIDEO_NAL_SIZE_PRECISION);
    WrittenIsSample(l.gvd[i], VIDEO_NAL_SIZE_PRECISION);
    WrittenIsSample(l.avd[i], VIDEO_NAL_SIZE_PRECISION);
    GopBytesAre(hdrByte, l, i);
    SampleAtIs(l, i);
    GopSamplesAre(l, i);
    FiveUnits(SampleAt(l, i, 0), SampleAt(l, i, 1), SampleAt(l, i, 2), SampleAt(l, i, 3), SampleAt(l, i, 4), k);
    AssocFive(StreamHeader(hdrByte), UnitBytes(SampleAt(l, i, 0), k), UnitBytes(SampleAt(l, i, 1), k),
              UnitBytes(SampleAt(l, i, 2), k), UnitBytes(SampleAt(l, i, 3), k), UnitBytes(SampleAt(l, i, 4), k));
  }

  lemma VpsHasNal(u: UnitInfo)
    requires VpsOk(u)
    ensures u.nalInfos != []
  {
  }

  lemma AssocFive(h: seq<byte>, a: seq<byte>, b: seq<byte>, c: seq<byte>, d: seq<byte>, e: seq<byte>)
    ensures h + a + b + c + d + e == h + (a + b + c + d + e)
  {
  }

  lemma FiveUnits(a: SampleUnit, b: SampleUnit, c: SampleUnit, d: SampleUnit, e: SampleUnit, k: nat)
    requires UnitOk(a, k) && UnitOk(b, k) && UnitOk(c, k) && UnitOk(d, k) && UnitOk(e, k)
    ensures UnitsOk([a, b, c, d, e], k) && HeadOk(a) && HeadOk(b) && HeadOk(c) && HeadOk(d) && HeadOk(e)
    ensures StreamBytes([a, b, c, d, e], k)
         == UnitBytes(a, k) + UnitBytes(b, k) + UnitBytes(c, k) + UnitBytes(d, k) + UnitBytes(e, k)
  {
    hide *;
    UnitFits(a, k);
    StreamOfOne(a, k);
    StreamSnoc([a], b, k);
    assert [a] + [b] == [a, b];
    StreamSnoc([a, b], c, k);
    assert [a, b] + [c] == [a, b, c];
    StreamSnoc([a, b, c], d, k);
    assert [a, b, c] + [d] == [a, b, c, d];
    StreamSnoc([a, b, c, d], e, k);
    assert [a, b, c, d] + [e] == [a, b, c, d, e];
  }

  // ---------------------------------------------------------------- a whole file

  /** GoPs 0 to g - 1, written one after the other; only the first has the stream header. */
  function WrittenFile(l: UnitLists, g: nat): seq<byte>
    requires GopsOk(l, g)
  {
    if g == 0 then []
    else
      WrittenGopIsStream(g == 1, l, g - 1);
      WrittenFile(l, g - 1) + WrittenGop(g == 1, l, g - 1)
  }

  /** A file with the stream header that the writer uses: unit sizes of three bytes. */
  function StreamFile(us: seq<SampleUnit>): (file: seq<byte>)
    requires UnitsOk(us, V3C_SIZE_PRECISION)
  {
    [SAMPLE_STREAM_HEADER] + StreamBytes(us, V3C_SIZE_PRECISION)
  }

  lemma StreamFileIs(us: seq<SampleUnit>)
    requires UnitsOk(us, V3C_SIZE_PRECISION)
    ensures UnitPrecision(SAMPLE_STREAM_HEADER) == V3C_SIZE_PRECISION
    ensures UnitPrecisionOk(V3C_SIZE_PRECISION)
    ensures StreamFile(us) == FileBytes(SAMPLE_STREAM_HEADER, us)
  {
    hide UnitsOk, StreamBytes;
  }

  lemma StreamFileParts(us: seq<SampleUnit>)
    requires UnitsOk(us, V3C_SIZE_PRECISION)
    ensures StreamFile(us) == [SAMPLE_STREAM_HEADER] + StreamBytes(us, V3C_SIZE_PRECISION)
  {
  }

  lemma FileBytesSplit(xs: seq<SampleUnit>, ys: seq<SampleUnit>)
    requires UnitsOk(xs, V3C_SIZE_PRECISION) && UnitsOk(ys, V3C_SIZE_PRECISION)
    ensures UnitsOk(xs + ys, V3C_SIZE_PRECISION)
    ensures StreamFile(xs + ys)
         == StreamFile(xs) + StreamBytes(ys, V3C_SIZE_PRECISION)
  {
    hide *;
    StreamSplit(xs, ys, V3C_SIZE_PRECISION);
    StreamFileParts(xs);
    StreamFileParts(xs + ys);
    Assoc([SAMPLE_STREAM_HEADER], StreamBytes(xs, V3C_SIZE_PRECISION), StreamBytes(ys, V3C_SIZE_PRECISION));
  }

  /** The stream header in front of the first GoP is the header of the file. */
  lemma FirstGop(ys: seq<SampleUnit>)
    requires UnitsOk(ys, V3C_SIZE_PRECISION)
    ensures StreamHeader(true) + StreamBytes(ys, V3C_SIZE_PRECISION) == StreamFile(ys)
  {
    hide UnitsOk, StreamBytes;
  }

  lemma WrittenFileUnfolds(l: UnitLists, g: nat)
    requires GopsOk(l, g) && g > 0
    ensures GopOk(l, g - 1) && GopsOk(l, g - 1) && Addressable(l, g - 1) && GopBytesThere(l, g - 1)
    ensures WrittenFile(l, g) == WrittenFile(l, g - 1) + WrittenGop(g == 1, l, g - 1)
    ensures Samples(l, g) == Samples(l, g - 1) + GopSamples(l, g - 1)
    ensures g == 1 ==> WrittenFile(l, 0) == [] && Samples(l, 0) == []
  {
    hide GopOk, GopBytesThere, GopSamples, UnitsOk, WrittenGop, StreamBytes, StreamHeader, Addressable;
    WrittenGopIsStream(g == 1, l, g - 1);
  }

  lemma NothingBefore(bytes: seq<byte>, samples: seq<SampleUnit>)
    ensures [] + bytes == bytes && [] + samples == samples && StreamHeader(false) == []
  {
  }

  lemma WrittenFileStep(l: UnitLists, g: nat)
    requires GopsOk(l, g) && g > 0
    ensures UnitsOk(GopSamples(l, g - 1), V3C_SIZE_PRECISION)
    ensures var gop := StreamBytes(GopSamples(l, g - 1), V3C_SIZE_PRECISION);
            WrittenFile(l, g) == if g == 1 then StreamHeader(true) + gop else WrittenFile(l, g - 1) + gop
    ensures Samples(l, g) == if g == 1 then GopSamples(l, 0) else Samples(l, g - 1) + GopSamples(l, g - 1)
  {
    hide *;
    WrittenFileUnfolds(l, g);
    WrittenGopIsStream(g == 1, l, g - 1);
    if g == 1 {
      NothingBefore(WrittenGop(true, l, 0), GopSamples(l, 0));
    } else {
      NothingBefore(StreamBytes(GopSamples(l, g - 1), V3C_SIZE_PRECISION), []);
    }
  }

  lemma {:induction false} WrittenFileIsStream(l: UnitLists, g: nat)
    requires GopsOk(l, g) && g > 0
    ensures UnitsOk(Samples(l, g), V3C_SIZE_PRECISION)
    ensures WrittenFile(l, g) == StreamFile(Samples(l, g))
  {
    hide *;
    WrittenFileStep(l, g);
    SamplesOk(l, g);
    FewerGops(l, g);
    var ys := GopSamples(l, g - 1);
    if g == 1 {
      FirstGop(ys);
    } else {
      WrittenFileIsStream(l, g - 1);
      FileBytesSplit(Samples(l, g - 1), ys);
    }
  }

  lemma FewerGops(l: UnitLists, g: nat)
    requires GopsOk(l, g) && g > 0
    ensures GopsOk(l, g - 1) && GopOk(l, g - 1)
  {
  }

  /** The unit found for unit `n` of a stream, at a place where its payload lies. */
  lemma {:induction false} LocatedAt(m: Mem, us: seq<SampleUnit>, ptr: nat, k: nat, n: nat) returns (start: nat)
    requires UnitsOk(us, k) && n < |us| && Holds(m, ptr, StreamBytes(us, k))
    ensures UnitOk(us[n], k)
    ensures LocatedAll(us, ptr, k)[n] == Located(us[n], start) && Holds(m, start, Payload(us[n]))
    decreases n
  {
    hide *;
    StreamParts(m, ptr, us, k);
    if n == 0 {
      start := ptr + k;
    } else {
      UnitFits(us[0], k);
      start := LocatedAt(m, us[1..], ptr + k + |Payload(us[0])|, k, n - 1);
    }
  }

  /** The units come in the order of a GoP: VPS, atlas, occupancy, geometry, attribute. */
  predicate InGopOrder(r: seq<UnitInfo>, g: nat) {
    && |r| == GOP_UNITS * g
    && forall i :: 0 <= i < g ==>
         && r[GOP_UNITS * i].header.Vps? && r[GOP_UNITS * i + 1].header.Ad? && r[GOP_UNITS * i + 2].header.Ovd?
         && r[GOP_UNITS * i + 3].header.Gvd? && r[GOP_UNITS * i + 4].header.Avd?
  }

  /** Every fifth unit, from unit `c` on. */
  function Every(r: seq<UnitInfo>, c: nat, g: nat): (s: seq<UnitInfo>)
    requires c < GOP_UNITS && GOP_UNITS * g <= |r|
    ensures |s| == g
  {
    seq(g, i requires 0 <= i < g => r[GOP_UNITS * i + c])
  }

  function Dealt(r: seq<UnitInfo>, g: nat): UnitLists
    requires GOP_UNITS * g <= |r|
  {
    UnitLists(Every(r, 0, g), Every(r, 1, g), Every(r, 2, g), Every(r, 3, g), Every(r, 4, g), [], [])
  }

  lemma {:induction false} StoreSplit(l: UnitLists, xs: seq<UnitInfo>, ys: seq<UnitInfo>)
    ensures l.StoreAll(xs + ys) == l.StoreAll(xs).StoreAll(ys)
    decreases xs
  {
    hide UnitLists.Store;
    if xs == [] {
      assert xs + ys == ys;
    } else {
      assert (xs + ys)[1..] == xs[1..] + ys;
      StoreSplit(l.Store(xs[0]), xs[1..], ys);
    }
  }

  lemma StoreCons(l: UnitLists, u: UnitInfo, rest: seq<UnitInfo>)
    ensures l.StoreAll([u] + rest) == l.Store(u).StoreAll(rest)
  {
    hide UnitLists.Store;
    assert ([u] + rest)[1..] == rest;
  }

  lemma StoreKinds(l: UnitLists, a: UnitInfo, b: UnitInfo, c: UnitInfo, d: UnitInfo, e: UnitInfo)
    requires a.header.Vps? && b.header.Ad? && c.header.Ovd? && d.header.Gvd? && e.header.Avd?
    ensures l.Store(a).Store(b).Store(c).Store(d).Store(e)
         == UnitLists(l.vps + [a], l.ad + [b], l.ovd + [c], l.gvd + [d], l.avd + [e], l.pvd, l.cad)
  {
  }

  lemma StoreNone(l: UnitLists)
    ensures l.StoreAll([]) == l
  {
  }

  lemma StoreFive(l: UnitLists, a: UnitInfo, b: UnitInfo, c: UnitInfo, d: UnitInfo, e: UnitInfo)
    requires a.header.Vps? && b.header.Ad? && c.header.Ovd? && d.header.Gvd? && e.header.Avd?
    ensures l.StoreAll([a, b, c, d, e])
         == UnitLists(l.vps + [a], l.ad + [b], l.ovd + [c], l.gvd + [d], l.avd + [e], l.pvd, l.cad)
  {
    hide *;
    var l1 := l.Store(a);
    var l2 := l1.Store(b);
    var l3 := l2.Store(c);
    var l4 := l3.Store(d);
    assert [a, b, c, d, e] == [a] + [b, c, d, e] && [b, c, d, e] == [b] + [c, d, e];
    assert [c, d, e] == [c] + [d, e] && [d, e] == [d] + [e] && [e] == [e] + [];
    StoreCons(l, a, [b, c, d, e]);
    StoreCons(l1, b, [c, d, e]);
    StoreCons(l2, c, [d, e]);
    StoreCons(l3, d, [e]);
    StoreCons(l4, e, []);
    StoreNone(l4.Store(e));
    StoreKinds(l, a, b, c, d, e);
  }

  /** The last GoP of a list of units, and the ones before it. */
  lemma LastGop(r: seq<UnitInfo>, g: nat)
    requires InGopOrder(r, g) && g > 0
    ensures var n := GOP_UNITS * (g - 1);
            && n + 4 < |r| && n + GOP_UNITS == |r|
            && InGopOrder(r[..n], g - 1)
            && r == r[..n] + [r[n], r[n + 1], r[n + 2], r[n + 3], r[n + 4]]
            && r[n].header.Vps? && r[n + 1].header.Ad? && r[n + 2].header.Ovd? && r[n + 3].header.Gvd?
            && r[n + 4].header.Avd?
  {
  }

  lemma NoGopDealt(r: seq<UnitInfo>)
    requires InGopOrder(r, 0)
    ensures NO_UNITS.StoreAll(r) == Dealt(r, 0)
  {
    assert r == [];
  }

  lemma OrderedLength(r: seq<UnitInfo>, g: nat)
    requires InGopOrder(r, g)
    ensures |r| == GOP_UNITS * g
  {
  }

  /** Storing units in GoP order deals them out to the lists. */
  lemma {:induction false} StoreDeals(r: seq<UnitInfo>, g: nat)
    requires InGopOrder(r, g)
    ensures NO_UNITS.StoreAll(r) == Dealt(r, g)
    decreases g
  {
    hide *;
    if g == 0 {
      NoGopDealt(r);
    } else {
      LastGop(r, g);
      OrderedLength(r, g);
      var n := GOP_UNITS * (g - 1);
      var xs, ys := r[..n], [r[n], r[n + 1], r[n + 2], r[n + 3], r[n + 4]];
      OrderedLength(xs, g - 1);
      StoreSplit(NO_UNITS, xs, ys);
      StoreDeals(xs, g - 1);
      DealtStep(r, xs, g);
      DealOne(Dealt(xs, g - 1), r, n);
    }
  }

  lemma DealOne(l: UnitLists, r: seq<UnitInfo>, n: nat)
    requires n + 4 < |r|
    requires r[n].header.Vps? && r[n + 1].header.Ad? && r[n + 2].header.Ovd? && r[n + 3].header.Gvd?
    requires r[n + 4].header.Avd?
    ensures l.StoreAll([r[n], r[n + 1], r[n + 2], r[n + 3], r[n + 4]])
         == UnitLists(l.vps + [r[n]], l.ad + [r[n + 1]], l.ovd + [r[n + 2]], l.gvd + [r[n + 3]], l.avd + [r[n + 4]],
                      l.pvd, l.cad)
  {
    hide UnitLists.StoreAll;
    StoreFive(l, r[n], r[n + 1], r[n + 2], r[n + 3], r[n + 4]);
  }

  lemma EveryStep(r: seq<UnitInfo>, xs: seq<UnitInfo>, c: nat, g: nat)
    requires g > 0 && c < GOP_UNITS && |r| == GOP_UNITS * g && xs == r[..GOP_UNITS * (g - 1)]
    ensures Every(r, c, g) == Every(xs, c, g - 1) + [r[GOP_UNITS * (g - 1) + c]]
  {
  }

  lemma DealtStep(r: seq<UnitInfo>, xs: seq<UnitInfo>, g: nat)
    requires g > 0 && |r| == GOP_UNITS * g && xs == r[..GOP_UNITS * (g - 1)]
    ensures var n := GOP_UNITS * (g - 1);
            var l := Dealt(xs, g - 1);
            Dealt(r, g)
            == UnitLists(l.vps + [r[n]], l.ad + [r[n + 1]], l.ovd + [r[n + 2]], l.gvd + [r[n + 3]], l.avd + [r[n + 4]],
                         l.pvd, l.cad)
  {
    hide Every;
    EveryStep(r, xs, 0, g);
    EveryStep(r, xs, 1, g);
    EveryStep(r, xs, 2, g);
    EveryStep(r, xs, 3, g);
    EveryStep(r, xs, 4, g);
  }

  // ---------------------------------------------------------------- the file round trip

  /** A mapped VPS unit shows a written one. */
  predicate ShowsVps(m: Mem, got: UnitInfo, u: UnitInfo) {
    && got.header == Vps && |got.nalInfos| == 1 && |u.nalInfos| == 1
    && Shows(m, got.nalInfos[0], u.nalInfos[0].buf)
  }

  lemma ConstructorBack(h: UnitHeader)
    ensures h.Ad? ==> HeaderBack(h).Ad?
    ensures h.Ovd? ==> HeaderBack(h).Ovd?
    ensures h.Gvd? ==> HeaderBack(h).Gvd?
    ensures h.Avd? ==> HeaderBack(h).Avd?
  {
  }

  /** The units that the mapper finds in a file of `g` GoPs. */
  ghost predicate FoundIn(m: Mem, r: seq<UnitInfo>, l: UnitLists, g: nat) {
    && GopsOk(l, g) && UnitsOk(Samples(l, g), V3C_SIZE_PRECISION)
    && Holds(m, 1, StreamBytes(Samples(l, g), V3C_SIZE_PRECISION))
    && r == LocatedAll(Samples(l, g), 1, V3C_SIZE_PRECISION)
    && |r| == GOP_UNITS * g
  }

  /** The unit found for unit `c` of GoP `i`, at a place where its payload lies. */
  lemma SampleFound(m: Mem, r: seq<UnitInfo>, l: UnitLists, g: nat, i: nat, c: nat) returns (start: nat)
    requires FoundIn(m, r, l, g) && i < g && c < GOP_UNITS
    ensures GopOk(l, i) && UnitOk(SampleAt(l, i, c), V3C_SIZE_PRECISION)
    ensures GOP_UNITS * i + c < |r| && r[GOP_UNITS * i + c] == Located(SampleAt(l, i, c), start)
    ensures Holds(m, start, Payload(SampleAt(l, i, c)))
  {
    hide *;
    FoundParts(m, r, l, g, i, c);
    SamplesAt(l, g, i, c);
    SampleAtOk(l, i, c);
    start := LocatedAt(m, Samples(l, g), 1, V3C_SIZE_PRECISION, GOP_UNITS * i + c);
  }

  lemma FoundParts(m: Mem, r: seq<UnitInfo>, l: UnitLists, g: nat, i: nat, c: nat)
    requires FoundIn(m, r, l, g) && i < g && c < GOP_UNITS
    ensures GopsOk(l, g) && GopOk(l, i) && UnitsOk(Samples(l, g), V3C_SIZE_PRECISION)
    ensures Holds(m, 1, StreamBytes(Samples(l, g), V3C_SIZE_PRECISION))
    ensures r == LocatedAll(Samples(l, g), 1, V3C_SIZE_PRECISION)
    ensures GOP_UNITS * i + c < |r| == |Samples(l, g)|
  {
    hide GopOk, UnitsOk, Holds, StreamBytes, LocatedAll, Samples;
  }

  lemma EveryAt(r: seq<UnitInfo>, c: nat, g: nat, i: nat)
    requires c < GOP_UNITS && |r| == GOP_UNITS * g && i < g
    ensures GOP_UNITS * i + c < |r| && Every(r, c, g)[i] == r[GOP_UNITS * i + c]
  {
  }

  lemma VpsFound(m: Mem, r: seq<UnitInfo>, l: UnitLists, g: nat, i: nat)
    requires FoundIn(m, r, l, g) && |r| == GOP_UNITS * g && i < g
    ensures Addressable(l, i)
    ensures ShowsVps(m, Every(r, 0, g)[i], l.vps[i])
  {
    hide FoundIn, Holds, UnitOk, Writable;
    var start := SampleFound(m, r, l, g, i, 0);
    EveryAt(r, 0, g, i);
  }

  lemma NalUnitFound(m: Mem, r: seq<UnitInfo>, l: UnitLists, g: nat, i: nat, c: nat, u: UnitInfo, nalPrecision: nat)
    requires FoundIn(m, r, l, g) && |r| == GOP_UNITS * g && i < g && c < GOP_UNITS && GopOk(l, i)
    requires Writable(u, nalPrecision) && nalPrecision > 0 && SampleAt(l, i, c) == AsSample(u, nalPrecision)
    ensures Mirrors(m, Every(r, c, g)[i], u)
  {
    hide *;
    var start := SampleFound(m, r, l, g, i, c);
    EveryAt(r, c, g, i);
    LocatedMirrors(m, start, u, nalPrecision);
  }

  /** A list of mapped units shows a list of written ones. */
  predicate ListShown(m: Mem, got: seq<UnitInfo>, src: seq<UnitInfo>, g: nat) {
    |got| == g <= |src| && forall i :: 0 <= i < g ==> Mirrors(m, got[i], src[i])
  }

  predicate VpsShown(m: Mem, got: seq<UnitInfo>, src: seq<UnitInfo>, g: nat) {
    |got| == g <= |src| && forall i :: 0 <= i < g ==> ShowsVps(m, got[i], src[i])
  }

  /** The lists of a mapped file show the first `g` GoPs of `l`, and hold nothing else. */
  predicate Recovered(m: Mem, r: UnitLists, l: UnitLists, g: nat) {
    && VpsShown(m, r.vps, l.vps, g) && ListShown(m, r.ad, l.ad, g) && ListShown(m, r.ovd, l.ovd, g)
    && ListShown(m, r.gvd, l.gvd, g) && ListShown(m, r.avd, l.avd, g)
    && r.pvd == [] && r.cad == []
  }

  lemma GopsAddressable(l: UnitLists, g: nat)
    requires GopsOk(l, g)
    ensures g <= |l.vps| && g <= |l.ad| && g <= |l.ovd| && g <= |l.gvd| && g <= |l.avd|
  {
    if g > 0 {
      assert GopOk(l, g - 1);
    }
  }

  /** What one GoP gives the mapper, list by list. */
  lemma GopFound(m: Mem, r: seq<UnitInfo>, l: UnitLists, g: nat, i: nat)
    requires FoundIn(m, r, l, g) && |r| == GOP_UNITS * g && GopOk(l, i) && i < g
    ensures i < |l.vps| && i < |l.ad| && i < |l.ovd| && i < |l.gvd| && i < |l.avd|
    ensures ShowsVps(m, Every(r, 0, g)[i], l.vps[i])
    ensures Mirrors(m, Every(r, 1, g)[i], l.ad[i]) && Mirrors(m, Every(r, 2, g)[i], l.ovd[i])
    ensures Mirrors(m, Every(r, 3, g)[i], l.gvd[i]) && Mirrors(m, Every(r, 4, g)[i], l.avd[i])
  {
    hide *;
    GopOkParts(l, i);
    SampleAtIs(l, i);
    VpsFound(m, r, l, g, i);
    NalUnitFound(m, r, l, g, i, 1, l.ad[i], ATLAS_NAL_SIZE_PRECISION);
    NalUnitFound(m, r, l, g, i, 2, l.ovd[i], VIDEO_NAL_SIZE_PRECISION);
    NalUnitFound(m, r, l, g, i, 3, l.gvd[i], VIDEO_NAL_SIZE_PRECISION);
    NalUnitFound(m, r, l, g, i, 4, l.avd[i], VIDEO_NAL_SIZE_PRECISION);
  }

  /** What every GoP gives the mapper, list by list. */
  lemma ListsFound(m: Mem, r: seq<UnitInfo>, l: UnitLists, g: nat)
    requires FoundIn(m, r, l, g) && |r| == GOP_UNITS * g && GopsOk(l, g)
    ensures Recovered(m, Dealt(r, g), l, g)
  {
    hide FoundIn, Mirrors, ShowsVps, Every, GopOk;
    GopsAddressable(l, g);
    forall i | 0 <= i < g
      ensures && ShowsVps(m, Every(r, 0, g)[i], l.vps[i])
              && Mirrors(m, Every(r, 1, g)[i], l.ad[i]) && Mirrors(m, Every(r, 2, g)[i], l.ovd[i])
              && Mirrors(m, Every(r, 3, g)[i], l.gvd[i]) && Mirrors(m, Every(r, 4, g)[i], l.avd[i])
    {
      GopFound(m, r, l, g, i);
    }
  }

  lemma GopKinds(l: UnitLists, i: nat)
    requires GopOk(l, i)
    ensures i < |l.ad| && i < |l.ovd| && i < |l.gvd| && i < |l.avd|
    ensures l.ad[i].header.Ad? && l.ovd[i].header.Ovd? && l.gvd[i].header.Gvd? && l.avd[i].header.Avd?
  {
    hide Writable, VpsOk;
  }

  lemma ShownAt(m: Mem, r: UnitLists, l: UnitLists, g: nat, i: nat)
    requires Recovered(m, r, l, g) && GopOk(l, i) && i < g
    ensures i < |r.vps| && i < |r.ad| && i < |r.ovd| && i < |r.gvd| && i < |r.avd|
    ensures r.vps[i].header.Vps? && r.ad[i].header.Ad? && r.ovd[i].header.Ovd?
    ensures r.gvd[i].header.Gvd? && r.avd[i].header.Avd?
  {
    hide GopOk, Shows, HeaderBack;
    GopKinds(l, i);
    ConstructorBack(l.ad[i].header);
    ConstructorBack(l.ovd[i].header);
    ConstructorBack(l.gvd[i].header);
    ConstructorBack(l.avd[i].header);
  }

  lemma ShownInOrder(m: Mem, r: seq<UnitInfo>, l: UnitLists, g: nat)
    requires GopsOk(l, g) && |r| == GOP_UNITS * g
    requires Recovered(m, Dealt(r, g), l, g)
    ensures InGopOrder(r, g)
  {
    hide GopOk, Recovered, Every;
    forall i | 0 <= i < g
      ensures && r[GOP_UNITS * i].header.Vps? && r[GOP_UNITS * i + 1].header.Ad? && r[GOP_UNITS * i + 2].header.Ovd?
              && r[GOP_UNITS * i + 3].header.Gvd? && r[GOP_UNITS * i + 4].header.Avd?
    {
      assert GopOk(l, i);
      ShownAt(m, Dealt(r, g), l, g, i);
      EveryAt(r, 0, g, i);
      EveryAt(r, 1, g, i);
      EveryAt(r, 2, g, i);
      EveryAt(r, 3, g, i);
      EveryAt(r, 4, g, i);
    }
  }

  /** Mapping a written file finds the units of its GoPs. */
  lemma FileFound(l: UnitLists, g: nat, beyond: seq<byte>)
    requires GopsOk(l, g) && g > 0
    ensures var file := WrittenFile(l, g);
            FoundIn(file + beyond, MapFile(file + beyond, |file|), l, g)
  {
    hide *;
    var us := Samples(l, g);
    WrittenFileIsStream(l, g);
    SamplesOk(l, g);
    StreamFileIs(us);
    MapsWellFormedFile(SAMPLE_STREAM_HEADER, us, beyond);
    FileInMemory(SAMPLE_STREAM_HEADER, us, beyond);
    FoundWhen(WrittenFile(l, g) + beyond, MapFile(WrittenFile(l, g) + beyond, |WrittenFile(l, g)|), l, g);
  }

  lemma FoundWhen(m: Mem, r: seq<UnitInfo>, l: UnitLists, g: nat)
    requires GopsOk(l, g) && UnitsOk(Samples(l, g), V3C_SIZE_PRECISION)
    requires Holds(m, 1, StreamBytes(Samples(l, g), V3C_SIZE_PRECISION))
    requires r == LocatedAll(Samples(l, g), 1, V3C_SIZE_PRECISION)
    ensures FoundIn(m, r, l, g)
  {
    hide GopOk, UnitsOk, Holds, StreamBytes, LocatedAll, Samples;
  }

  /**
    The file round trip: mapping a file of rebuilt GoPs gives back, list by list, the units that
    were written, with their headers as they read back and their NAL units in order.
   */
  lemma {:induction false} FileRoundTrip(l: UnitLists, g: nat, beyond: seq<byte>)
    requires GopsOk(l, g) && g > 0
    ensures var file := WrittenFile(l, g);
            Recovered(file + beyond, NO_UNITS.StoreAll(MapFile(file + beyond, |file|)), l, g)
  {
    hide *;
    var file := WrittenFile(l, g);
    var m := file + beyond;
    var r := MapFile(m, |file|);
    FileFound(l, g, beyond);
    FoundLength(m, r, l, g);
    ListsFound(m, r, l, g);
    ShownInOrder(m, r, l, g);
    StoreDeals(r, g);
  }

  /** A printed file starts with the byte 64. */
  lemma FileStart(l: UnitLists, g: nat)
    requires GopsOk(l, g) && g > 0
    ensures |WrittenFile(l, g)| > 0 && WrittenFile(l, g)[0] == 64
  {
    hide StreamBytes, UnitsOk, Samples, WrittenFile, GopOk;
    WrittenFileIsStream(l, g);
    StreamFileParts(Samples(l, g));
  }

  /** The units of a printed file, in file order: GoP by GoP a VPS, an AD, an OVD, a GVD and an AVD unit. */
  lemma {:induction false} MappedInOrder(l: UnitLists, g: nat, beyond: seq<byte>)
    requires GopsOk(l, g) && g > 0
    ensures var r := MapFile(WrittenFile(l, g) + beyond, |WrittenFile(l, g)|);
            && |r| == 5 * g
            && forall i :: 0 <= i < g ==>
                 && r[5 * i].header.Vps? && r[5 * i + 1].header.Ad? && r[5 * i + 2].header.Ovd?
                 && r[5 * i + 3].header.Gvd? && r[5 * i + 4].header.Avd?
  {
    hide *;
    var m := WrittenFile(l, g) + beyond;
    var r := MapFile(m, |WrittenFile(l, g)|);
    FileFound(l, g, beyond);
    FoundLength(m, r, l, g);
    ListsFound(m, r, l, g);
    ShownInOrder(m, r, l, g);
    OrderIs(r, g);
  }

  lemma OrderIs(r: seq<UnitInfo>, g: nat)
    requires InGopOrder(r, g)
    ensures |r| == 5 * g
    ensures forall i :: 0 <= i < g ==>
              && r[5 * i].header.Vps? && r[5 * i + 1].header.Ad? && r[5 * i + 2].header.Ovd?
              && r[5 * i + 3].header.Gvd? && r[5 * i + 4].header.Avd?
  {
  }

  lemma FoundLength(m: Mem, r: seq<UnitInfo>, l: UnitLists, g: nat)
    requires FoundIn(m, r, l, g)
    ensures |r| == GOP_UNITS * g
  {
  }

  // ---------------------------------------------------------------- a buffer of the right size

  predicate AllAddressable(l: UnitLists, g: nat) {
    forall i :: 0 <= i < g ==> Addressable(l, i)
  }

  /** The sum of the sizes that `get_gop_size` reports. */
  function TotalSize(l: UnitLists, g: nat): nat
    requires AllAddressable(l, g)
  {
    if g == 0 then 0 else TotalSize(l, g - 1) + GopSize(g == 1, l, g - 1)
  }

  /** The first `g` GoPs can be printed: no access throws, and every byte is there. */
  predicate Printable(l: UnitLists, g: nat) {
    AllAddressable(l, g) && forall i :: 0 <= i < g ==> GopBytesThere(l, i)
  }

  /** GoPs 0 to g - 1 as they are printed, whether or not they fit their size fields. */
  function PrintedFile(l: UnitLists, g: nat): seq<byte>
    requires Printable(l, g)
  {
    if g == 0 then [] else PrintedFile(l, g - 1) + WrittenGop(g == 1, l, g - 1)
  }

  lemma GopIsExact(hdrByte: bool, l: UnitLists, i: nat)
    requires GopOk(l, i)
    ensures Addressable(l, i) && GopBytesThere(l, i) && |WrittenGop(hdrByte, l, i)| == GopSize(hdrByte, l, i)
  {
    hide *;
    WrittenGopIsStream(hdrByte, l, i);
    GopOkParts(l, i);
    VpsSizeFits(l.vps[i]);
    ConsistentIs(l.ad[i], ATLAS_NAL_SIZE_PRECISION) by { WritableIs(l.ad[i], ATLAS_NAL_SIZE_PRECISION); }
    ConsistentIs(l.ovd[i], VIDEO_NAL_SIZE_PRECISION) by { WritableIs(l.ovd[i], VIDEO_NAL_SIZE_PRECISION); }
    ConsistentIs(l.gvd[i], VIDEO_NAL_SIZE_PRECISION) by { WritableIs(l.gvd[i], VIDEO_NAL_SIZE_PRECISION); }
    ConsistentIs(l.avd[i], VIDEO_NAL_SIZE_PRECISION) by { WritableIs(l.avd[i], VIDEO_NAL_SIZE_PRECISION); }
    ExactSize(hdrByte, l, i);
  }

  lemma WritableIs(u: UnitInfo, nalPrecision: nat)
    requires Writable(u, nalPrecision)
    ensures Consistent(u, nalPrecision) && Fits(u, nalPrecision)
  {
    hide Consistent, Fits;
  }

  lemma VpsSizeFits(u: UnitInfo)
    requires VpsOk(u)
    ensures u.nalInfos != [] && Low32(u.nalInfos[0].size) == u.nalInfos[0].size
  {
    SmallPowers();
  }

  lemma NothingPrinted(l: UnitLists)
    ensures GopsOk(l, 0) && Printable(l, 0) && PrintedFile(l, 0) == [] && WrittenFile(l, 0) == []
    ensures AllAddressable(l, 0) && TotalSize(l, 0) == 0
  {
  }

  lemma PrintableStep(l: UnitLists, i: nat)
    requires Printable(l, i) && Addressable(l, i) && GopBytesThere(l, i)
    ensures Printable(l, i + 1) && AllAddressable(l, i) && AllAddressable(l, i + 1)
    ensures PrintedFile(l, i + 1) == PrintedFile(l, i) + WrittenGop(i == 0, l, i)
    ensures TotalSize(l, i + 1) == TotalSize(l, i) + GopSize(i == 0, l, i)
  {
    hide Addressable, GopBytesThere, WrittenGop, GopSize;
  }

  lemma WrittenStep(l: UnitLists, g: nat)
    requires GopsOk(l, g) && g > 0
    ensures GopOk(l, g - 1) && GopsOk(l, g - 1) && Addressable(l, g - 1) && GopBytesThere(l, g - 1)
    ensures WrittenFile(l, g) == WrittenFile(l, g - 1) + WrittenGop(g == 1, l, g - 1)
  {
    hide *;
    WrittenFileUnfolds(l, g);
  }

  /** Within the size bounds the reported sizes say exactly how long the file becomes. */
  lemma {:induction false} FileIsExact(l: UnitLists, g: nat)
    requires GopsOk(l, g)
    ensures Printable(l, g) && AllAddressable(l, g)
    ensures PrintedFile(l, g) == WrittenFile(l, g) && |WrittenFile(l, g)| == TotalSize(l, g)
  {
    hide *;
    NothingPrinted(l);
    if g > 0 {
      WrittenStep(l, g);
      FileIsExact(l, g - 1);
      PrintableStep(l, g - 1);
      GopIsExact(g == 1, l, g - 1);
    }
  }

  lemma PrintedParts(l: UnitLists, g: nat, i: nat)
    requires Printable(l, g) && i < g
    ensures Printable(l, i) && Addressable(l, i) && GopBytesThere(l, i)
  {
    hide Addressable, GopBytesThere;
  }

  lemma {:induction false} PrintedGrows(l: UnitLists, i: nat, g: nat)
    requires i <= g && Printable(l, g)
    ensures Printable(l, i) && |PrintedFile(l, i)| <= |PrintedFile(l, g)|
    decreases g
  {
    hide *;
    if i < g {
      PrintedParts(l, g, g - 1);
      PrintableStep(l, g - 1);
      PrintedGrows(l, i, g - 1);
    }
  }

  lemma PatchAppends(b: seq<byte>, at: nat, x: seq<byte>)
    requires at + |x| <= |b|
    ensures Patch(b, at, x)[..at + |x|] == b[..at] + x
  {
  }

  method AddGopSizes(mmap: FileMap, g: nat) returns (total: nat)
    requires AllAddressable(mmap.Lists(), g)
    ensures total == TotalSize(mmap.Lists(), g)
  {
    hide Addressable, GopSize, FileMap.Lists;
    total := 0;
    for i := 0 to g
      invariant total == TotalSize(mmap.Lists(), i)
    {
      var size := GetGopSize(i == 0, i, mmap);
      total := total + size.value;
    }
  }

  /** Prints GoP `i` behind the GoPs before it. */
  method AppendGop(mmap: FileMap, buf: array<byte>, ptr: nat, i: nat) returns (next: nat)
    requires Printable(mmap.Lists(), i + 1)
    requires Printable(mmap.Lists(), i) && ptr == |PrintedFile(mmap.Lists(), i)|
    requires |PrintedFile(mmap.Lists(), i + 1)| <= buf.Length && ptr <= buf.Length
    requires buf[..ptr] == PrintedFile(mmap.Lists(), i)
    modifies buf
    ensures mmap.Lists() == old(mmap.Lists())
    ensures next == |PrintedFile(mmap.Lists(), i + 1)| && buf[..next] == PrintedFile(mmap.Lists(), i + 1)
  {
    hide *;
    ghost var l := mmap.Lists();
    PrintedParts(l, i + 1, i);
    PrintableStep(l, i);
    ghost var before := buf[..];
    var size;
    size, next := ReconstructV3cGop(i == 0, buf, ptr, mmap, i);
    PatchAppends(before, ptr, WrittenGop(i == 0, l, i));
  }

  /**
    Prints the first `g` GoPs into one buffer whose size is the sum of the reported GoP sizes.
    The program relies on their fitting it; within the size bounds they fill it exactly.
   */
  method RebuildFile(mmap: FileMap, g: nat) returns (buf: array<byte>)
    requires Printable(mmap.Lists(), g) && AllAddressable(mmap.Lists(), g)
    requires |PrintedFile(mmap.Lists(), g)| <= TotalSize(mmap.Lists(), g)
    ensures fresh(buf) && mmap.Lists() == old(mmap.Lists()) && buf.Length == TotalSize(mmap.Lists(), g)
    ensures buf[..|PrintedFile(mmap.Lists(), g)|] == PrintedFile(mmap.Lists(), g)
    ensures GopsOk(mmap.Lists(), g) ==> buf[..] == WrittenFile(mmap.Lists(), g)
  {
    hide *;
    ghost var l := mmap.Lists();
    var total := AddGopSizes(mmap, g);
    buf := new byte[total];
    var ptr: nat := 0;
    NothingPrinted(l);
    for i := 0 to g
      invariant mmap.Lists() == l && buf.Length == TotalSize(l, g)
      invariant Printable(l, i) && ptr == |PrintedFile(l, i)| <= buf.Length
      invariant buf[..ptr] == PrintedFile(l, i)
    {
      PrintedParts(l, g, i);
      PrintableStep(l, i);
      PrintedGrows(l, i + 1, g);
      ptr := AppendGop(mmap, buf, ptr, i);
    }
    if GopsOk(l, g) {
      FileIsExact(l, g);
      assert buf[..] == buf[..ptr];
    }
  }
}
