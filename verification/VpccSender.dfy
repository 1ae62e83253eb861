/**
  The V-PCC sender of uvgrtp/vpcc_sender.cc: one `sender_func` a stream walks the mapped NAL
  units, pushes them, and counts bytes and frames. Together with the mapper it accounts for
  every byte of the file.
 */
module VpccSender {
  import opened Bytes
  import opened V3cTypes
  import opened V3cMapper
  import opened V3cWriter
  import opened SampleStream
  import opened V3cReceiver

  // ---------------------------------------------------------------- what one stream sends

  function AllNals(units: seq<UnitInfo>): seq<NalInfo> {
    if units == [] then [] else units[0].nalInfos + AllNals(units[1..])
  }

  function NalType(m: Mem, n: NalInfo): nat {
    At(m, n.location) / 2 % 64
  }

  /** Parameter sets: beyond type 35 on the atlas stream, types 32 to 34 on any. */
  predicate IsParameterSet(s: Stream, nalType: nat) {
    (s == AdStream && nalType > 35) || 32 <= nalType <= 34
  }

  /** The NAL units that make up frames. */
  function FrameNals(m: Mem, s: Stream, nals: seq<NalInfo>): nat {
    if nals == [] then 0
    else FrameNals(m, s, nals[..|nals| - 1]) + if IsParameterSet(s, NalType(m, nals[|nals| - 1])) then 0 else 1
  }

  /** Geometry and attribute frames take four NAL units each. */
  function NalsInFrame(s: Stream): nat {
    if s == GvdStream || s == AvdStream then 4 else 1
  }

  function Pushed(m: Mem, nals: seq<NalInfo>): (r: seq<seq<byte>>)
    ensures |r| == |nals|
  {
    seq(|nals|, i requires 0 <= i < |nals| => Slice(m, nals[i].location, nals[i].size))
  }

  /** The sums that a stream keeps, after some of its NAL units. */
  predicate Counted(m: Mem, s: Stream, nals: seq<NalInfo>,
                    sent: seq<seq<byte>>, bytesSent: nat, currentFrame: nat, tempNalu: nat)
  {
    && sent == Pushed(m, nals)
    && bytesSent == SumSizes(nals)
    && currentFrame == FrameNals(m, s, nals) / NalsInFrame(s)
    && tempNalu == FrameNals(m, s, nals) % NalsInFrame(s)
  }

  lemma {:induction false} SumSizesSnoc(nals: seq<NalInfo>, n: NalInfo)
    ensures SumSizes(nals + [n]) == SumSizes(nals) + n.size
  {
    if nals == [] {
      assert nals + [n] == [n];
      assert SumSizes([n]) == n.size + SumSizes([]);
    } else {
      assert (nals + [n])[1..] == nals[1..] + [n];
      SumSizesSnoc(nals[1..], n);
    }
  }

  lemma CountedSnoc(m: Mem, s: Stream, nals: seq<NalInfo>, n: NalInfo)
    ensures Pushed(m, nals + [n]) == Pushed(m, nals) + [Slice(m, n.location, n.size)]
    ensures SumSizes(nals + [n]) == SumSizes(nals) + n.size
    ensures FrameNals(m, s, nals + [n]) == FrameNals(m, s, nals) + if IsParameterSet(s, NalType(m, n)) then 0 else 1
  {
    SumSizesSnoc(nals, n);
    assert (nals + [n])[..|nals|] == nals;
  }

  /** The body of the inner loop, for one NAL unit. */
  method SendNal(m: Mem, s: Stream, ghost before: seq<NalInfo>, i: NalInfo,
                 sentIn: seq<seq<byte>>, bytesIn: nat, frameIn: nat, tempIn: nat)
    returns (sent: seq<seq<byte>>, bytesSent: nat, currentFrame: nat, tempNalu: nat)
    requires Counted(m, s, before, sentIn, bytesIn, frameIn, tempIn)
    ensures Counted(m, s, before + [i], sent, bytesSent, currentFrame, tempNalu)
    ensures currentFrame
         == FrameUnits(m, s == AdStream, before + [i]) / if s == GvdStream || s == AvdStream then 4 else 1
  {
    hide Pushed, SumSizes, FrameNals, Slice;
    FrameNalsAre(m, s, before + [i]);
    CountedSnoc(m, s, before, i);
    hide FrameUnits;
    sent, bytesSent, currentFrame, tempNalu := sentIn, bytesIn, frameIn, tempIn;
    var paramSet := false;
    var naluT := At(m, i.location) / 2 % 64;
    if s == AdStream && naluT > 35 {
      paramSet := true;
    } else if naluT >= 32 && naluT <= 34 {
      paramSet := true;
    }
    sent := sent + [Slice(m, i.location, i.size)];
    bytesSent := bytesSent + i.size;
    if paramSet {
      return;
    }
    tempNalu := tempNalu + 1;
    if s == GvdStream || s == AvdStream {
      if tempNalu < 4 {
        return;
      }
      tempNalu := 0;
      currentFrame := currentFrame + 1;
    } else {
      tempNalu := 0;
      currentFrame := currentFrame + 1;
    }
  }

  /**
    NAL units that are no parameter sets, by their first bytes: 64 to 69, apart from the high bit,
    starts a video parameter set, and on the atlas stream so does 72 and above.
   */
  function FrameUnits(m: Mem, atlas: bool, nals: seq<NalInfo>): nat {
    if nals == [] then 0
    else
      var b := At(m, nals[0].location) % 128;
      (if 64 <= b < 70 || (atlas && b >= 72) then 0 else 1) + FrameUnits(m, atlas, nals[1..])
  }

  lemma {:induction false} FrameUnitsSnoc(m: Mem, atlas: bool, nals: seq<NalInfo>, n: NalInfo)
    ensures var b := At(m, n.location) % 128;
            FrameUnits(m, atlas, nals + [n])
            == FrameUnits(m, atlas, nals) + if 64 <= b < 70 || (atlas && b >= 72) then 0 else 1
  {
    if nals == [] {
      assert nals + [n] == [n];
      assert FrameUnits(m, atlas, [n][1..]) == 0;
    } else {
      assert (nals + [n])[1..] == nals[1..] + [n];
      FrameUnitsSnoc(m, atlas, nals[1..], n);
    }
  }

  lemma TypeFromByte(m: Mem, s: Stream, n: NalInfo)
    ensures var b := At(m, n.location) % 128;
            IsParameterSet(s, NalType(m, n)) <==> 64 <= b < 70 || (s == AdStream && b >= 72)
  {
    hide At;
  }

  /** The sender's count, from the first bytes of the NAL units. */
  lemma {:induction false} FrameNalsAre(m: Mem, s: Stream, nals: seq<NalInfo>)
    ensures FrameNals(m, s, nals) == FrameUnits(m, s == AdStream, nals)
    decreases |nals|
  {
    hide IsParameterSet, NalType, At;
    if nals != [] {
      var before, n := nals[..|nals| - 1], nals[|nals| - 1];
      assert nals == before + [n];
      FrameNalsAre(m, s, before);
      FrameUnitsSnoc(m, s == AdStream, before, n);
      TypeFromByte(m, s, n);
    }
  }

  lemma {:induction false} AllNalsSnoc(units: seq<UnitInfo>, u: UnitInfo)
    ensures AllNals(units + [u]) == AllNals(units) + u.nalInfos
  {
    if units == [] {
      assert units + [u] == [u];
      assert AllNals([u]) == u.nalInfos + AllNals([]);
    } else {
      assert (units + [u])[1..] == units[1..] + [u];
      AllNalsSnoc(units[1..], u);
    }
  }

  /**
    `sender_func`, with a network that accepts everything: every NAL unit is pushed once, in
    order; the byte total is the sum of their sizes; and at every step the frame counter is the
    number of NAL units that are not parameter sets, divided by the units in a frame.
   */
  method SenderFunc(m: Mem, s: Stream, units: seq<UnitInfo>)
    returns (sent: seq<seq<byte>>, bytesSent: nat, currentFrame: nat)
    ensures sent == Pushed(m, AllNals(units))
    ensures bytesSent == SumSizes(AllNals(units))
    ensures currentFrame == FrameNals(m, s, AllNals(units)) / NalsInFrame(s)
    ensures currentFrame
         == FrameUnits(m, s == AdStream, AllNals(units)) / if s == GvdStream || s == AvdStream then 4 else 1
  {
    hide *;
    var tempNalu: nat := 0;
    sent, bytesSent, currentFrame := [], 0, 0;
    NothingCounted(m, s);
    assert units[..0] == [];
    for j := 0 to |units|
      invariant Counted(m, s, AllNals(units[..j]), sent, bytesSent, currentFrame, tempNalu)
    {
      var p := units[j];
      ghost var done := AllNals(units[..j]);
      assert done + p.nalInfos[..0] == done;
      for k := 0 to |p.nalInfos|
        invariant Counted(m, s, done + p.nalInfos[..k], sent, bytesSent, currentFrame, tempNalu)
      {
        sent, bytesSent, currentFrame, tempNalu :=
          SendNal(m, s, done + p.nalInfos[..k], p.nalInfos[k], sent, bytesSent, currentFrame, tempNalu);
        assert done + p.nalInfos[..k + 1] == done + p.nalInfos[..k] + [p.nalInfos[k]];
      }
      assert p.nalInfos[..|p.nalInfos|] == p.nalInfos;
      assert units[..j + 1] == units[..j] + [p];
      AllNalsSnoc(units[..j], p);
    }
    assert units[..|units|] == units;
    Count(m, s, units, sent, bytesSent, currentFrame, tempNalu);
  }

  lemma Count(m: Mem, s: Stream, units: seq<UnitInfo>,
              sent: seq<seq<byte>>, bytesSent: nat, currentFrame: nat, tempNalu: nat)
    requires Counted(m, s, AllNals(units), sent, bytesSent, currentFrame, tempNalu)
    ensures sent == Pushed(m, AllNals(units))
    ensures bytesSent == SumSizes(AllNals(units))
    ensures currentFrame == FrameNals(m, s, AllNals(units)) / NalsInFrame(s)
    ensures currentFrame
         == FrameUnits(m, s == AdStream, AllNals(units)) / if s == GvdStream || s == AvdStream then 4 else 1
  {
    hide AllNals, Pushed, SumSizes, FrameNals, FrameUnits;
    FrameNalsAre(m, s, AllNals(units));
  }

  lemma NothingCounted(m: Mem, s: Stream)
    ensures Counted(m, s, AllNals([]), [], 0, 0, 0)
  {
  }

  // ---------------------------------------------------------------- conservation

  function NalBytes(units: seq<UnitInfo>): nat {
    SumSizes(AllNals(units))
  }

  lemma {:induction false} SumSizesSplit(xs: seq<NalInfo>, ys: seq<NalInfo>)
    ensures SumSizes(xs + ys) == SumSizes(xs) + SumSizes(ys)
  {
    if xs == [] {
      assert xs + ys == ys;
    } else {
      assert (xs + ys)[1..] == xs[1..] + ys;
      SumSizesSplit(xs[1..], ys);
    }
  }

  lemma NalBytesSnoc(units: seq<UnitInfo>, u: UnitInfo)
    ensures NalBytes(units + [u]) == NalBytes(units) + SumSizes(u.nalInfos)
  {
    AllNalsSnoc(units, u);
    SumSizesSplit(AllNals(units), u.nalInfos);
  }

  /** NAL bytes in all seven lists. */
  function ListedBytes(l: UnitLists): nat {
    NalBytes(l.vps) + NalBytes(l.ad) + NalBytes(l.ovd) + NalBytes(l.gvd)
    + NalBytes(l.avd) + NalBytes(l.pvd) + NalBytes(l.cad)
  }

  /** Bytes of units whose type the mapper does not store. */
  function DroppedBytes(us: seq<UnitInfo>): nat {
    if us == [] then 0
    else (if us[0].header.Other? then SumSizes(us[0].nalInfos) else 0) + DroppedBytes(us[1..])
  }

  lemma StoreConserves(l: UnitLists, u: UnitInfo)
    ensures ListedBytes(l.Store(u)) == ListedBytes(l) + if u.header.Other? then 0 else SumSizes(u.nalInfos)
  {
    match u.header
    case Vps => NalBytesSnoc(l.vps, u);
    case Ad(_, _) => NalBytesSnoc(l.ad, u);
    case Ovd(_, _) => NalBytesSnoc(l.ovd, u);
    case Gvd(_, _, _, _) => NalBytesSnoc(l.gvd, u);
    case Avd(_, _, _, _, _, _) => NalBytesSnoc(l.avd, u);
    case Pvd(_, _) => NalBytesSnoc(l.pvd, u);
    case Cad(_) => NalBytesSnoc(l.cad, u);
    case Other(_) =>
  }

  lemma NoneFound(l: UnitLists)
    ensures l.StoreAll([]) == l && DroppedBytes([]) == 0 && NalBytes([]) == 0 && ListedBytes(NO_UNITS) == 0
  {
  }

  lemma FoundStep(l: UnitLists, us: seq<UnitInfo>)
    requires us != []
    ensures l.StoreAll(us) == l.Store(us[0]).StoreAll(us[1..])
    ensures DroppedBytes(us) == (if us[0].header.Other? then SumSizes(us[0].nalInfos) else 0) + DroppedBytes(us[1..])
    ensures NalBytes(us) == SumSizes(us[0].nalInfos) + NalBytes(us[1..])
  {
    hide UnitLists.Store, SumSizes;
    SumSizesSplit(us[0].nalInfos, AllNals(us[1..]));
  }

  lemma {:induction false} StoreAllConserves(l: UnitLists, us: seq<UnitInfo>)
    ensures ListedBytes(l.StoreAll(us)) + DroppedBytes(us) == ListedBytes(l) + NalBytes(us)
    decreases |us|
  {
    hide *;
    if us == [] {
      NoneFound(l);
    } else {
      FoundStep(l, us);
      StoreConserves(l, us[0]);
      StoreAllConserves(l.Store(us[0]), us[1..]);
    }
  }

  /** Bytes of a unit that belong to no NAL unit: size field, header, precision byte, NAL sizes. */
  function Overhead(u: SampleUnit, k: nat): nat
    requires HeadOk(u)
  {
    match u
    case ParameterSet(_) => k
    case NalUnits(_, _, nals) => k + |Prefix(u)| + |nals| * Precision(u)
  }

  function TotalOverhead(us: seq<SampleUnit>, k: nat): nat
    requires UnitsOk(us, k)
  {
    if us == [] then 0
    else
      OkHead(us, k);
      Overhead(us[0], k) + TotalOverhead(us[1..], k)
  }

  lemma {:induction false} NalStreamBytes(at: nat, nals: seq<seq<byte>>, k: nat)
    ensures |NalStream(nals, k)| == |nals| * k + SumSizes(LocatedNals(at, nals, k))
    decreases |nals|
  {
    if nals != [] {
      NalStreamBytes(at + k + |nals[0]|, nals[1..], k);
      MulOneMore(|nals| - 1, k);
    }
  }

  lemma ParameterSetConserves(u: SampleUnit, ptr: nat, k: nat)
    requires u.ParameterSet? && HeadOk(u)
    ensures k + |Payload(u)| == Overhead(u, k) + SumSizes(Located(u, ptr + k).nalInfos)
  {
    var n := NalInfo(ptr + k, |u.payload|, []);
    assert SumSizes([n]) == n.size + SumSizes([]);
  }

  lemma NalUnitsConserve(u: SampleUnit, ptr: nat, k: nat)
    requires u.NalUnits? && HeadOk(u)
    ensures k + |Payload(u)| == Overhead(u, k) + SumSizes(Located(u, ptr + k).nalInfos)
  {
    hide NalStream, LocatedNals, SumSizes, Prefix, Precision, HeaderOf;
    NalStreamBytes(ptr + k + |Prefix(u)|, u.nals, Precision(u));
  }

  lemma UnitConserves(u: SampleUnit, ptr: nat, k: nat)
    requires UnitOk(u, k)
    ensures HeadOk(u) && k + |Payload(u)| == Overhead(u, k) + SumSizes(Located(u, ptr + k).nalInfos)
  {
    hide *;
    UnitFits(u, k);
    if u.ParameterSet? {
      ParameterSetConserves(u, ptr, k);
    } else {
      NalUnitsConserve(u, ptr, k);
    }
  }

  lemma {:induction false} StreamConserves(us: seq<SampleUnit>, ptr: nat, k: nat)
    requires UnitsOk(us, k)
    ensures |StreamBytes(us, k)| == TotalOverhead(us, k) + NalBytes(LocatedAll(us, ptr, k))
    decreases |us|
  {
    hide *;
    if us == [] {
      NothingToConserve(us, ptr, k);
    } else {
      StreamStep(us, ptr, k);
      OverheadStep(us, k);
      UnitConserves(us[0], ptr, k);
      var next := ptr + k + |Payload(us[0])|;
      NalBytesCons(Located(us[0], ptr + k), LocatedAll(us[1..], next, k));
      StreamConserves(us[1..], next, k);
    }
  }

  lemma NothingToConserve(us: seq<SampleUnit>, ptr: nat, k: nat)
    requires us == [] && UnitsOk(us, k)
    ensures |StreamBytes(us, k)| == 0 && TotalOverhead(us, k) == 0 && NalBytes(LocatedAll(us, ptr, k)) == 0
  {
  }

  lemma OverheadStep(us: seq<SampleUnit>, k: nat)
    requires UnitsOk(us, k) && us != []
    ensures UnitsOk(us[1..], k) && HeadOk(us[0])
    ensures TotalOverhead(us, k) == Overhead(us[0], k) + TotalOverhead(us[1..], k)
  {
    hide Overhead, Payload, UnitOk, HeadOk;
    OkHead(us, k);
    UnitFits(us[0], k);
  }

  lemma NalBytesCons(u: UnitInfo, rest: seq<UnitInfo>)
    ensures NalBytes([u] + rest) == SumSizes(u.nalInfos) + NalBytes(rest)
  {
    assert ([u] + rest)[1..] == rest;
    SumSizesSplit(u.nalInfos, AllNals(rest));
  }

  /**
    Every byte of a well-formed file is accounted for: the leading byte, the overhead of the
    units, the NAL units in the seven lists, and those of units of unknown type.
   */
  lemma {:induction false} MappingConserves(first: byte, us: seq<SampleUnit>, beyond: seq<byte>)
    requires UnitPrecisionOk(UnitPrecision(first)) && UnitsOk(us, UnitPrecision(first)) && AllSupported(us)
    ensures var file := FileBytes(first, us);
            var found := MapFile(file + beyond, |file|);
            |file| == 1 + TotalOverhead(us, UnitPrecision(first))
                      + ListedBytes(NO_UNITS.StoreAll(found)) + DroppedBytes(found)
  {
    hide *;
    FileInMemory(first, us, beyond);
    MapsWellFormedFile(first, us, beyond);
    StreamConserves(us, 1, UnitPrecision(first));
    StoreAllConserves(NO_UNITS, LocatedAll(us, 1, UnitPrecision(first)));
    NoneFound(NO_UNITS);
  }

  /** Units of the types that the V-PCC sender sends, and parameter sets. */
  predicate Sendable(u: SampleUnit) {
    u.NalUnits? && |u.head| == V3C_HDR_LEN ==>
      var h := HeaderOf(u.head);
      h.Ad? || h.Ovd? || h.Gvd? || h.Avd?
  }

  /** Units whose types have a list that is sent, or the parameter-set list. */
  predicate SentTypes(us: seq<UnitInfo>) {
    forall u <- us :: u.header.Vps? || u.header.Ad? || u.header.Ovd? || u.header.Gvd? || u.header.Avd?
  }

  lemma LocatedType(u: SampleUnit, start: nat)
    requires Sendable(u) && HeadOk(u)
    ensures SentTypes([Located(u, start)])
  {
    hide HeaderOf, LocatedNals, Prefix, Precision;
  }

  lemma SentTypesCons(u: UnitInfo, rest: seq<UnitInfo>)
    requires SentTypes([u]) && SentTypes(rest)
    ensures SentTypes([u] + rest)
  {
    assert u in [u];
  }

  lemma {:induction false} LocatedTypes(us: seq<SampleUnit>, ptr: nat, k: nat)
    requires UnitsOk(us, k) && forall u <- us :: Sendable(u)
    ensures SentTypes(LocatedAll(us, ptr, k))
    decreases |us|
  {
    hide Sendable, UnitOk, Located, Payload;
    if us != [] {
      StreamStep(us, ptr, k);
      assert us[0] in us;
      LocatedType(us[0], ptr + k);
      LocatedTypes(us[1..], ptr + k + |Payload(us[0])|, k);
      SentTypesCons(Located(us[0], ptr + k), LocatedAll(us[1..], ptr + k + |Payload(us[0])|, k));
    }
  }

  lemma {:induction false} SentTypesStored(l: UnitLists, us: seq<UnitInfo>)
    requires SentTypes(us)
    ensures DroppedBytes(us) == 0
    ensures l.StoreAll(us).pvd == l.pvd && l.StoreAll(us).cad == l.cad
    decreases us
  {
    if us != [] {
      assert us[0] in us;
      SentTypesStored(l.Store(us[0]), us[1..]);
    }
  }

  /** The bytes in the lists of a map, when nothing was dropped or put into the other two lists. */
  lemma SentBytes(first: byte, us: seq<SampleUnit>)
    requires UnitPrecisionOk(UnitPrecision(first)) && UnitsOk(us, UnitPrecision(first)) && AllSupported(us)
    requires forall u <- us :: Sendable(u)
    ensures var file := FileBytes(first, us);
            var l := NO_UNITS.StoreAll(MapFile(file, |file|));
            |file| == 1 + TotalOverhead(us, UnitPrecision(first))
                      + NalBytes(l.vps) + NalBytes(l.ad) + NalBytes(l.ovd) + NalBytes(l.gvd) + NalBytes(l.avd)
  {
    hide *;
    var file := FileBytes(first, us);
    assert file + [] == file;
    MappingConserves(first, us, []);
    MapsWellFormedFile(first, us, []);
    LocatedTypes(us, 1, UnitPrecision(first));
    SentTypesStored(NO_UNITS, MapFile(file, |file|));
    FiveLists(NO_UNITS.StoreAll(MapFile(file, |file|)));
  }

  lemma FiveLists(l: UnitLists)
    ensures NO_UNITS.pvd == [] && NO_UNITS.cad == []
    ensures l.pvd == [] && l.cad == [] ==>
              ListedBytes(l) == NalBytes(l.vps) + NalBytes(l.ad) + NalBytes(l.ovd) + NalBytes(l.gvd) + NalBytes(l.avd)
  {
    assert NalBytes([]) == 0;
  }

  /**
    Conservation across mapping and sending: in a well-formed file of parameter sets and atlas,
    occupancy, geometry and attribute units, the four byte totals, the parameter-set bytes, the
    overhead and the leading byte are the file.
   */
  method SendFile(first: byte, ghost us: seq<SampleUnit>, file: seq<byte>)
    returns (adBytes: nat, ovdBytes: nat, gvdBytes: nat, avdBytes: nat, ghost vpsBytes: nat)
    requires UnitPrecisionOk(UnitPrecision(first)) && UnitsOk(us, UnitPrecision(first)) && AllSupported(us)
    requires file == FileBytes(first, us) && forall u <- us :: Sendable(u)
    ensures |file| == 1 + TotalOverhead(us, UnitPrecision(first)) + vpsBytes + adBytes + ovdBytes + gvdBytes + avdBytes
    ensures vpsBytes == NalBytes(NO_UNITS.StoreAll(MapFile(file, |file|)).vps)
    ensures adBytes == NalBytes(NO_UNITS.StoreAll(MapFile(file, |file|)).ad)
    ensures ovdBytes == NalBytes(NO_UNITS.StoreAll(MapFile(file, |file|)).ovd)
    ensures gvdBytes == NalBytes(NO_UNITS.StoreAll(MapFile(file, |file|)).gvd)
    ensures avdBytes == NalBytes(NO_UNITS.StoreAll(MapFile(file, |file|)).avd)
  {
    hide MapFile, UnitLists.StoreAll, FileMap.Lists, TotalOverhead, UnitsOk, AllNals, SumSizes, FrameNals, Pushed,
      Sendable, Supported, FileBytes;
    SentBytes(first, us);
    var mmap := new FileMap();
    var ok := MmapV3cFile(file, |file|, mmap);
    var l := mmap.Lists();
    var sent, frames;
    sent, adBytes, frames := SenderFunc(file, AdStream, l.ad);
    sent, ovdBytes, frames := SenderFunc(file, OvdStream, l.ovd);
    sent, gvdBytes, frames := SenderFunc(file, GvdStream, l.gvd);
    sent, avdBytes, frames := SenderFunc(file, AvdStream, l.avd);
    vpsBytes := NalBytes(l.vps);
  }
}
