/**
  Around the loop: a file is mapped, its streams are sent, the frames arrive at a receiver in any
  interleaving, and the receiver's GoPs are rebuilt. What comes out is the file that went in.
 */
module V3cLoop {
  import opened Bytes
  import opened V3cTypes
  import opened V3cMapper
  import opened V3cWriter
  import opened V3cReceiver
  import opened SampleStream
  import opened V3cCodec
  import opened V3cFile
  import opened V3cDelivery
  import opened VpccSender

  /** The stream of unit `c` of a GoP. */
  function StreamOf(c: nat): Stream {
    if c == 1 then AdStream else if c == 2 then OvdStream else if c == 3 then GvdStream else AvdStream
  }

  /**
    Unit `c` of GoP `i`: a parameter set, or `maxSize` NAL units behind the header that the receiver
    gives unit `i` of the stream. The precision byte is written for atlas units only.
   */
  predicate LoopUnit(u: SampleUnit, maxSize: nat, i: nat, c: nat) {
    if c == 0 then u.ParameterSet?
    else
      && u.NalUnits? && |u.nals| == maxSize
      && u.head == HeadBytes(HeaderAt(StreamOf(c), i))
      && u.precisionByte == PrecisionByte(NalPrecisionOf(StreamOf(c)))
  }

  /** A file of `g` GoPs that a receiver with units of `maxSize` NAL units could have written. */
  ghost predicate LoopFile(us: seq<SampleUnit>, maxSize: nat, g: nat) {
    && |us| == GOP_UNITS * g && UnitsOk(us, V3C_SIZE_PRECISION)
    && forall i, c :: 0 <= i < g && 0 <= c < GOP_UNITS ==> LoopPlace(us, maxSize, i, c)
  }

  predicate LoopPlace(us: seq<SampleUnit>, maxSize: nat, i: nat, c: nat) {
    GOP_UNITS * i + c < |us| && LoopUnit(us[GOP_UNITS * i + c], maxSize, i, c)
  }

  lemma LoopUnitAt(us: seq<SampleUnit>, maxSize: nat, g: nat, i: nat, c: nat)
    requires LoopFile(us, maxSize, g) && i < g && c < GOP_UNITS
    ensures GOP_UNITS * i + c < |us| && UnitsOk(us, V3C_SIZE_PRECISION)
    ensures LoopUnit(us[GOP_UNITS * i + c], maxSize, i, c)
    ensures UnitOk(us[GOP_UNITS * i + c], V3C_SIZE_PRECISION)
  {
    hide LoopUnit, UnitOk;
    assert LoopPlace(us, maxSize, i, c);
    assert us[GOP_UNITS * i + c] in us;
  }

  /** The NAL units of one stream, unit by unit. */
  function Grouped(us: seq<SampleUnit>, c: nat, maxSize: nat, g: nat): (r: seq<seq<seq<byte>>>)
    requires LoopFile(us, maxSize, g) && 0 < c < GOP_UNITS
    ensures |r| == g
  {
    seq(g, i requires 0 <= i < g => LoopUnitAt(us, maxSize, g, i, c); us[GOP_UNITS * i + c].nals)
  }

  lemma GroupedAt(us: seq<SampleUnit>, c: nat, maxSize: nat, g: nat, i: nat)
    requires LoopFile(us, maxSize, g) && 0 < c < GOP_UNITS && i < g
    ensures GOP_UNITS * i + c < |us| && us[GOP_UNITS * i + c].NalUnits?
    ensures Grouped(us, c, maxSize, g)[i] == us[GOP_UNITS * i + c].nals
    ensures |Grouped(us, c, maxSize, g)[i]| == maxSize
  {
    hide LoopFile, UnitOk;
    LoopUnitAt(us, maxSize, g, i, c);
  }

  // ---------------------------------------------------------------- groups of equal size

  function Flat(gs: seq<seq<seq<byte>>>): seq<seq<byte>> {
    if gs == [] then [] else gs[0] + Flat(gs[1..])
  }

  /** Cutting full groups into groups of their size gives them back. */
  lemma {:induction false} GroupsOfFlat(gs: seq<seq<seq<byte>>>, maxSize: nat)
    requires maxSize > 0 && gs != [] && forall x <- gs :: |x| == maxSize
    ensures Groups(Flat(gs), maxSize) == gs
  {
    var first, rest := gs[0], gs[1..];
    assert first in gs;
    if rest == [] {
      assert Flat(gs) == first + [] == first;
    } else {
      assert rest[0] in gs;
      GroupsOfFlat(rest, maxSize);
      FlatLength(rest, maxSize);
      var all := Flat(gs);
      assert all[..maxSize] == first && all[maxSize..] == Flat(rest);
    }
  }

  lemma FlatLength(gs: seq<seq<seq<byte>>>, maxSize: nat)
    requires maxSize > 0 && gs != [] && |gs[0]| == maxSize
    ensures |Flat(gs)| >= maxSize
  {
  }

  lemma {:induction false} FlatSnoc(gs: seq<seq<seq<byte>>>, x: seq<seq<byte>>)
    ensures Flat(gs + [x]) == Flat(gs) + x
  {
    if gs == [] {
      assert gs + [x] == [x];
      assert Flat([x]) == x + Flat([]) == x;
    } else {
      assert (gs + [x])[1..] == gs[1..] + [x];
      FlatSnoc(gs[1..], x);
      Assoc(gs[0], Flat(gs[1..]), x);
    }
  }

  // ---------------------------------------------------------------- what the sender pushes

  lemma PushedSplit(m: Mem, xs: seq<NalInfo>, ys: seq<NalInfo>)
    ensures Pushed(m, xs + ys) == Pushed(m, xs) + Pushed(m, ys)
  {
    hide Slice;
  }

  /** The NAL units of one mapped unit are pushed as they stand in the file. */
  lemma PushedNals(m: Mem, at: nat, nals: seq<seq<byte>>, k: nat)
    requires Holds(m, at, NalStream(nals, k))
    ensures Pushed(m, LocatedNals(at, nals, k)) == nals
  {
    hide NalStream, LocatedNals, Slice;
    forall i | 0 <= i < |nals|
      ensures Slice(m, LocatedNals(at, nals, k)[i].location, LocatedNals(at, nals, k)[i].size) == nals[i]
    {
      LocatedShows(m, at, nals, k, i);
      SliceIs(m, LocatedNals(at, nals, k)[i].location, |nals[i]|);
    }
  }

  lemma PushedUnit(m: Mem, start: nat, u: SampleUnit, k: nat)
    requires u.NalUnits? && UnitOk(u, k) && Holds(m, start, Payload(u))
    ensures Pushed(m, Located(u, start).nalInfos) == u.nals
  {
    hide *;
    NalUnitFacts(u, k, start);
    NalUnitParts(m, start, u, k);
    PushedNals(m, start + |Prefix(u)|, u.nals, Precision(u));
  }

  /** The units found in the file, and the unit of a stream in a GoP. */
  ghost predicate FoundLoop(m: Mem, r: seq<UnitInfo>, us: seq<SampleUnit>, maxSize: nat, g: nat) {
    && LoopFile(us, maxSize, g)
    && Holds(m, 1, StreamBytes(us, V3C_SIZE_PRECISION))
    && r == LocatedAll(us, 1, V3C_SIZE_PRECISION)
  }

  lemma FoundLoopParts(m: Mem, r: seq<UnitInfo>, us: seq<SampleUnit>, maxSize: nat, g: nat)
    requires FoundLoop(m, r, us, maxSize, g)
    ensures LoopFile(us, maxSize, g) && UnitsOk(us, V3C_SIZE_PRECISION) && |r| == |us| == GOP_UNITS * g
    ensures Holds(m, 1, StreamBytes(us, V3C_SIZE_PRECISION))
    ensures r == LocatedAll(us, 1, V3C_SIZE_PRECISION)
  {
    hide UnitsOk, StreamBytes, Holds, LocatedAll, LoopPlace;
  }

  lemma LoopUnitFound(m: Mem, r: seq<UnitInfo>, us: seq<SampleUnit>, maxSize: nat, g: nat, i: nat, c: nat)
    returns (start: nat)
    requires FoundLoop(m, r, us, maxSize, g) && i < g && c < GOP_UNITS
    ensures GOP_UNITS * i + c < |r| == |us| && UnitOk(us[GOP_UNITS * i + c], V3C_SIZE_PRECISION)
    ensures HeadOk(us[GOP_UNITS * i + c])
    ensures r[GOP_UNITS * i + c] == Located(us[GOP_UNITS * i + c], start)
    ensures Holds(m, start, Payload(us[GOP_UNITS * i + c]))
  {
    hide *;
    FoundLoopParts(m, r, us, maxSize, g);
    LoopUnitAt(us, maxSize, g, i, c);
    start := LocatedAt(m, us, 1, V3C_SIZE_PRECISION, GOP_UNITS * i + c);
    UnitFits(us[GOP_UNITS * i + c], V3C_SIZE_PRECISION);
  }

  lemma EveryPrefix(r: seq<UnitInfo>, c: nat, g: nat, j: nat)
    requires c < GOP_UNITS && GOP_UNITS * g <= |r| && j < g
    ensures GOP_UNITS * j + c < |r|
    ensures Every(r, c, g)[..j + 1] == Every(r, c, g)[..j] + [r[GOP_UNITS * j + c]]
  {
  }

  /** What `sender_func` pushes for the first `j` units of a stream. */
  lemma {:induction false} PushedStream(m: Mem, r: seq<UnitInfo>, us: seq<SampleUnit>, maxSize: nat, g: nat,
                                        c: nat, j: nat)
    requires FoundLoop(m, r, us, maxSize, g) && LoopFile(us, maxSize, g)
    requires GOP_UNITS * g <= |r| && 0 < c < GOP_UNITS && j <= g
    ensures Pushed(m, AllNals(Every(r, c, g)[..j])) == Flat(Grouped(us, c, maxSize, g)[..j])
  {
    hide *;
    var list, groups := Every(r, c, g), Grouped(us, c, maxSize, g);
    if j == 0 {
      NothingPushed(m, list, groups);
    } else {
      PushedStream(m, r, us, maxSize, g, c, j - 1);
      var start := LoopUnitFound(m, r, us, maxSize, g, j - 1, c);
      GroupedAt(us, c, maxSize, g, j - 1);
      var u := us[GOP_UNITS * (j - 1) + c];
      PushedUnit(m, start, u, V3C_SIZE_PRECISION);
      EveryPrefix(r, c, g, j - 1);
      AllNalsSnoc(list[..j - 1], Located(u, start));
      PushedSplit(m, AllNals(list[..j - 1]), Located(u, start).nalInfos);
      assert groups[..j] == groups[..j - 1] + [u.nals];
      FlatSnoc(groups[..j - 1], u.nals);
    }
  }

  lemma NothingPushed(m: Mem, list: seq<UnitInfo>, groups: seq<seq<seq<byte>>>)
    ensures Pushed(m, AllNals(list[..0])) == Flat(groups[..0])
  {
  }

  // ---------------------------------------------------------------- what the mapper finds

  lemma LocatedHeader(u: SampleUnit, start: nat)
    requires HeadOk(u)
    ensures Located(u, start).header == if u.ParameterSet? then Vps else HeaderOf(u.head)
  {
    hide HeaderOf, LocatedNals, Prefix, Precision;
  }

  lemma LoopHeader(u: SampleUnit, maxSize: nat, i: nat, c: nat, start: nat)
    requires LoopUnit(u, maxSize, i, c) && HeadOk(u) && c < GOP_UNITS
    ensures var h := Located(u, start).header;
            if c == 0 then h.Vps? else if c == 1 then h.Ad? else if c == 2 then h.Ovd?
            else if c == 3 then h.Gvd? else h.Avd?
  {
    hide Located, HeaderOf, HeadBytes, HeaderBack, HeadOk;
    LocatedHeader(u, start);
    if c > 0 {
      HeadBytesRead(HeaderAt(StreamOf(c), i));
      ConstructorBack(HeaderAt(StreamOf(c), i));
    }
  }

  lemma LoopInOrder(m: Mem, r: seq<UnitInfo>, us: seq<SampleUnit>, maxSize: nat, g: nat)
    requires FoundLoop(m, r, us, maxSize, g)
    ensures InGopOrder(r, g)
  {
    hide FoundLoop, LoopFile, LoopUnit, UnitOk, HeadOk, Located, Payload;
    FoundLoopParts(m, r, us, maxSize, g);
    forall i | 0 <= i < g
      ensures && r[GOP_UNITS * i].header.Vps? && r[GOP_UNITS * i + 1].header.Ad? && r[GOP_UNITS * i + 2].header.Ovd?
              && r[GOP_UNITS * i + 3].header.Gvd? && r[GOP_UNITS * i + 4].header.Avd?
    {
      LoopKind(m, r, us, maxSize, g, i, 0);
      LoopKind(m, r, us, maxSize, g, i, 1);
      LoopKind(m, r, us, maxSize, g, i, 2);
      LoopKind(m, r, us, maxSize, g, i, 3);
      LoopKind(m, r, us, maxSize, g, i, 4);
    }
  }

  lemma LoopKind(m: Mem, r: seq<UnitInfo>, us: seq<SampleUnit>, maxSize: nat, g: nat, i: nat, c: nat)
    requires FoundLoop(m, r, us, maxSize, g) && i < g && c < GOP_UNITS
    ensures GOP_UNITS * i + c < |r|
    ensures var h := r[GOP_UNITS * i + c].header;
            if c == 0 then h.Vps? else if c == 1 then h.Ad? else if c == 2 then h.Ovd?
            else if c == 3 then h.Gvd? else h.Avd?
  {
    hide *;
    var start := LoopUnitFound(m, r, us, maxSize, g, i, c);
    FoundLoopParts(m, r, us, maxSize, g);
    LoopUnitAt(us, maxSize, g, i, c);
    LoopHeader(us[GOP_UNITS * i + c], maxSize, i, c, start);
  }

  lemma ListOfStream(r: seq<UnitInfo>, g: nat, c: nat)
    requires GOP_UNITS * g <= |r| && 0 < c < GOP_UNITS
    ensures UnitsOf(Dealt(r, g), StreamOf(c)) == Every(r, c, g)
  {
    hide Every;
  }

  // ---------------------------------------------------------------- what the receiver holds

  lemma {:induction false} NalStreamLength(nals: seq<seq<byte>>, k: nat)
    ensures |NalStream(nals, k)| == Sum(Lengths(nals)) + |nals| * k
  {
    hide BigEndian;
    if nals != [] {
      assert Lengths(nals)[1..] == Lengths(nals[1..]);
      NalStreamLength(nals[1..], k);
      MulOneMore(|nals| - 1, k);
    }
  }

  lemma LoopPrecision(u: SampleUnit, maxSize: nat, i: nat, c: nat)
    requires 0 < c < GOP_UNITS && LoopUnit(u, maxSize, i, c) && HeadOk(u)
    ensures u.NalUnits? && Precision(u) == NalPrecisionOf(StreamOf(c))
    ensures |Prefix(u)| == V3C_HDR_LEN + if StreamOf(c) == AdStream then 1 else 0
    ensures Supported(u)
  {
    hide HeaderOf, HeadBytes, HeaderBack;
    HeadBytesRead(HeaderAt(StreamOf(c), i));
    ConstructorBack(HeaderAt(StreamOf(c), i));
  }

  lemma LoopGroupFits(u: SampleUnit, maxSize: nat, i: nat, c: nat)
    requires 0 < c < GOP_UNITS && LoopUnit(u, maxSize, i, c) && UnitOk(u, V3C_SIZE_PRECISION)
    ensures u.NalUnits? && GroupFits(StreamOf(c), u.nals)
  {
    hide LoopUnit, HeaderOf, Precision, Prefix, NalStream, Pow256, Sum, Lengths, NalPrecisionOf, StreamOf;
    LoopPrecision(u, maxSize, i, c);
    NalStreamLength(u.nals, Precision(u));
  }

  lemma {:induction false} SlotBufs(at: nat, group: seq<seq<byte>>)
    ensures Bufs(Slots(at, group)) == group
  {
    hide Slots;
    SlotsHoldFrames(at, group);
  }

  /** The receiver's unit, as a unit of the format, is the unit of the file. */
  lemma SameUnitBytes(u: SampleUnit, maxSize: nat, i: nat, c: nat)
    requires 0 < c < GOP_UNITS && LoopUnit(u, maxSize, i, c)
    ensures u.NalUnits? && NalPrecisionOf(StreamOf(c)) > 0
    ensures AsSample(UnitFrom(StreamOf(c), i, u.nals, maxSize), NalPrecisionOf(StreamOf(c))) == u
  {
    hide HeadBytes, HeaderAt, Slots, Bufs, UnitFrom, Sum, Lengths, PrecisionByte;
    UnitFromParts(StreamOf(c), i, u.nals, maxSize);
    SlotBufs(0, u.nals);
  }

  /** The frames that arrived on a stream are the ones that were pushed for it. */
  ghost predicate Delivered(us: seq<SampleUnit>, maxSize: nat, g: nat, run: seq<Arrival>)
    requires LoopFile(us, maxSize, g)
  {
    forall c :: 0 < c < GOP_UNITS ==> FramesOf(run, StreamOf(c)) == Flat(Grouped(us, c, maxSize, g))
  }

  lemma DeliveredOn(us: seq<SampleUnit>, maxSize: nat, g: nat, run: seq<Arrival>, c: nat)
    requires LoopFile(us, maxSize, g) && Delivered(us, maxSize, g, run) && 0 < c < GOP_UNITS
    ensures FramesOf(run, StreamOf(c)) == Flat(Grouped(us, c, maxSize, g))
  {
    hide FramesOf, Flat, Grouped, LoopFile, StreamOf;
  }

  /** Unit `i` of a stream at the receiver. */
  lemma ReceivedUnit(us: seq<SampleUnit>, maxSize: nat, g: nat, vps: seq<UnitInfo>, run: seq<Arrival>, i: nat, c: nat)
    requires maxSize > 0 && LoopFile(us, maxSize, g) && Delivered(us, maxSize, g, run)
    requires i < g && 0 < c < GOP_UNITS
    ensures GOP_UNITS * i + c < |us| && us[GOP_UNITS * i + c].NalUnits?
    ensures var units := UnitsOf(Received(Initial(vps), maxSize, run), StreamOf(c));
            i < |units| && units[i] == UnitFrom(StreamOf(c), i, us[GOP_UNITS * i + c].nals, maxSize)
  {
    hide *;
    var s, groups := StreamOf(c), Grouped(us, c, maxSize, g);
    DeliveredOn(us, maxSize, g, run, c);
    forall x | x in groups ensures |x| == maxSize {
      var j :| 0 <= j < g && groups[j] == x;
      GroupedAt(us, c, maxSize, g, j);
    }
    GroupsOfFlat(groups, maxSize);
    RunIsCollected(vps, maxSize, run, s);
    CollectedIs(s, Flat(groups), maxSize);
    GroupedAt(us, c, maxSize, g, i);
  }

  /** The parameter sets that the receiver was given are those of the file. */
  ghost predicate SameVps(us: seq<SampleUnit>, g: nat, vps: seq<UnitInfo>)
    requires |us| == GOP_UNITS * g
  {
    g <= |vps| && forall i :: 0 <= i < g ==> VpsOk(vps[i]) && VpsSample(vps[i]) == us[GOP_UNITS * i]
  }

  lemma VpsAt(us: seq<SampleUnit>, g: nat, vps: seq<UnitInfo>, i: nat)
    requires |us| == GOP_UNITS * g && SameVps(us, g, vps) && i < g
    ensures i < |vps| && VpsOk(vps[i]) && GOP_UNITS * i < |us| && VpsSample(vps[i]) == us[GOP_UNITS * i]
  {
    hide VpsOk, VpsSample;
  }

  lemma LoopLength(us: seq<SampleUnit>, maxSize: nat, g: nat)
    requires LoopFile(us, maxSize, g)
    ensures |us| == GOP_UNITS * g && UnitsOk(us, V3C_SIZE_PRECISION)
  {
    hide UnitsOk, LoopPlace;
  }

  /** Unit `i` of a stream at the receiver can be printed, and is the unit of the file. */
  lemma ReceivedWritable(us: seq<SampleUnit>, maxSize: nat, g: nat, vps: seq<UnitInfo>, run: seq<Arrival>,
                         i: nat, c: nat)
    requires maxSize > 0 && LoopFile(us, maxSize, g) && Delivered(us, maxSize, g, run)
    requires i < g && 0 < c < GOP_UNITS
    ensures var units := UnitsOf(Received(Initial(vps), maxSize, run), StreamOf(c));
            && i < |units| && GOP_UNITS * i + c < |us| && NalPrecisionOf(StreamOf(c)) > 0
            && units[i].header == HeaderAt(StreamOf(c), i)
            && Writable(units[i], NalPrecisionOf(StreamOf(c)))
            && AsSample(units[i], NalPrecisionOf(StreamOf(c))) == us[GOP_UNITS * i + c]
  {
    hide *;
    ReceivedUnit(us, maxSize, g, vps, run, i, c);
    LoopUnitAt(us, maxSize, g, i, c);
    var u := us[GOP_UNITS * i + c];
    LoopGroupFits(u, maxSize, i, c);
    UnitFromWritable(StreamOf(c), i, u.nals, maxSize);
    UnitFromParts(StreamOf(c), i, u.nals, maxSize);
    SameUnitBytes(u, maxSize, i, c);
  }

  lemma StreamsOfGop()
    ensures StreamOf(1) == AdStream && StreamOf(2) == OvdStream && StreamOf(3) == GvdStream && StreamOf(4) == AvdStream
    ensures NalPrecisionOf(AdStream) == ATLAS_NAL_SIZE_PRECISION
    ensures NalPrecisionOf(OvdStream) == NalPrecisionOf(GvdStream) == VIDEO_NAL_SIZE_PRECISION
    ensures NalPrecisionOf(AvdStream) == VIDEO_NAL_SIZE_PRECISION
    ensures GOP_UNITS == 5
  {
  }

  lemma GopOkWhen(l: UnitLists, i: nat)
    requires i < |l.vps| && VpsOk(l.vps[i])
    requires i < |UnitsOf(l, AdStream)| && UnitsOf(l, AdStream)[i].header.Ad?
    requires i < |UnitsOf(l, OvdStream)| && UnitsOf(l, OvdStream)[i].header.Ovd?
    requires i < |UnitsOf(l, GvdStream)| && UnitsOf(l, GvdStream)[i].header.Gvd?
    requires i < |UnitsOf(l, AvdStream)| && UnitsOf(l, AvdStream)[i].header.Avd?
    requires Writable(UnitsOf(l, AdStream)[i], ATLAS_NAL_SIZE_PRECISION)
    requires Writable(UnitsOf(l, OvdStream)[i], VIDEO_NAL_SIZE_PRECISION)
    requires Writable(UnitsOf(l, GvdStream)[i], VIDEO_NAL_SIZE_PRECISION)
    requires Writable(UnitsOf(l, AvdStream)[i], VIDEO_NAL_SIZE_PRECISION)
    ensures GopOk(l, i)
    ensures SampleAt(l, i, 0) == VpsSample(l.vps[i])
    ensures SampleAt(l, i, 1) == AsSample(UnitsOf(l, AdStream)[i], ATLAS_NAL_SIZE_PRECISION)
    ensures SampleAt(l, i, 2) == AsSample(UnitsOf(l, OvdStream)[i], VIDEO_NAL_SIZE_PRECISION)
    ensures SampleAt(l, i, 3) == AsSample(UnitsOf(l, GvdStream)[i], VIDEO_NAL_SIZE_PRECISION)
    ensures SampleAt(l, i, 4) == AsSample(UnitsOf(l, AvdStream)[i], VIDEO_NAL_SIZE_PRECISION)
  {
    hide Writable, AsSample, VpsSample;
  }

  lemma HeaderKinds(i: nat)
    ensures HeaderAt(AdStream, i).Ad? && HeaderAt(OvdStream, i).Ovd?
    ensures HeaderAt(GvdStream, i).Gvd? && HeaderAt(AvdStream, i).Avd?
  {
  }

  /** GoP `i` at the receiver is GoP `i` of the file. */
  lemma SameGopUnits(us: seq<SampleUnit>, maxSize: nat, g: nat, vps: seq<UnitInfo>, run: seq<Arrival>, i: nat, c: nat)
    requires maxSize > 0 && LoopFile(us, maxSize, g) && |us| == GOP_UNITS * g && SameVps(us, g, vps)
    requires Delivered(us, maxSize, g, run) && i < g && c < GOP_UNITS
    ensures GopOk(Received(Initial(vps), maxSize, run), i) && GOP_UNITS * i + c < |us|
    ensures SampleAt(Received(Initial(vps), maxSize, run), i, c) == us[GOP_UNITS * i + c]
  {
    hide *;
    StreamsOfGop();
    HeaderKinds(i);
    VpsAt(us, g, vps, i);
    ReceivedWritable(us, maxSize, g, vps, run, i, 1);
    ReceivedWritable(us, maxSize, g, vps, run, i, 2);
    ReceivedWritable(us, maxSize, g, vps, run, i, 3);
    ReceivedWritable(us, maxSize, g, vps, run, i, 4);
    GopOkWhen(Received(Initial(vps), maxSize, run), i);
  }

  lemma GopsOkWhen(l: UnitLists, g: nat)
    requires forall i :: 0 <= i < g ==> GopOk(l, i)
    ensures GopsOk(l, g)
  {
    hide GopOk;
  }

  lemma Position(n: nat, g: nat)
    requires n < GOP_UNITS * g
    ensures n / GOP_UNITS < g && n % GOP_UNITS < GOP_UNITS && GOP_UNITS * (n / GOP_UNITS) + n % GOP_UNITS == n
  {
  }

  /** The receiver holds the units of the file, all of them and in order. */
  lemma SameSamples(us: seq<SampleUnit>, maxSize: nat, g: nat, vps: seq<UnitInfo>, run: seq<Arrival>)
    requires maxSize > 0 && LoopFile(us, maxSize, g) && |us| == GOP_UNITS * g && SameVps(us, g, vps)
    requires Delivered(us, maxSize, g, run)
    ensures GopsOk(Received(Initial(vps), maxSize, run), g)
    ensures Samples(Received(Initial(vps), maxSize, run), g) == us
  {
    hide *;
    var l := Received(Initial(vps), maxSize, run);
    StreamsOfGop();
    forall i | 0 <= i < g ensures GopOk(l, i) {
      SameGopUnits(us, maxSize, g, vps, run, i, 0);
    }
    GopsOkWhen(l, g);
    forall n | 0 <= n < |us| ensures Samples(l, g)[n] == us[n] {
      Position(n, g);
      var i, c := n / GOP_UNITS, n % GOP_UNITS;
      SameGopUnits(us, maxSize, g, vps, run, i, c);
      SamplesAt(l, g, i, c);
    }
  }

  // ---------------------------------------------------------------- around the loop

  lemma {:induction false} AllLoopSupported(us: seq<SampleUnit>, maxSize: nat, g: nat)
    requires LoopFile(us, maxSize, g)
    ensures AllSupported(us)
  {
    hide LoopFile, LoopUnit, UnitOk, Supported;
    LoopLength(us, maxSize, g);
    forall u | u in us ensures Supported(u) {
      var n :| 0 <= n < |us| && us[n] == u;
      Position(n, g);
      var i, c := n / GOP_UNITS, n % GOP_UNITS;
      LoopUnitAt(us, maxSize, g, i, c);
      UnitFits(u, V3C_SIZE_PRECISION);
      if c > 0 {
        LoopPrecision(u, maxSize, i, c);
      } else {
        VpsSupported(u, maxSize, i);
      }
    }
  }

  lemma VpsSupported(u: SampleUnit, maxSize: nat, i: nat)
    requires LoopUnit(u, maxSize, i, 0)
    ensures Supported(u)
  {
  }

  /** The mapper finds the units of the file, and deals them to their lists. */
  lemma LoopMapped(us: seq<SampleUnit>, maxSize: nat, g: nat)
    requires LoopFile(us, maxSize, g) && UnitsOk(us, V3C_SIZE_PRECISION)
    ensures var file := StreamFile(us);
            var r := MapFile(file, |file|);
            && FoundLoop(file, r, us, maxSize, g) && GOP_UNITS * g <= |r|
            && NO_UNITS.StoreAll(r) == Dealt(r, g)
  {
    hide *;
    var file := StreamFile(us);
    AllLoopSupported(us, maxSize, g);
    StreamFileIs(us);
    MapsWellFormedFile(SAMPLE_STREAM_HEADER, us, []);
    FileInMemory(SAMPLE_STREAM_HEADER, us, []);
    assert file + [] == file;
    var r := MapFile(file, |file|);
    FoundLoopWhen(file, r, us, maxSize, g);
    FoundLoopParts(file, r, us, maxSize, g);
    LoopInOrder(file, r, us, maxSize, g);
    StoreDeals(r, g);
  }

  lemma FoundLoopWhen(m: Mem, r: seq<UnitInfo>, us: seq<SampleUnit>, maxSize: nat, g: nat)
    requires LoopFile(us, maxSize, g) && UnitsOk(us, V3C_SIZE_PRECISION)
    requires Holds(m, 1, StreamBytes(us, V3C_SIZE_PRECISION)) && r == LocatedAll(us, 1, V3C_SIZE_PRECISION)
    ensures FoundLoop(m, r, us, maxSize, g)
  {
    hide UnitsOk, StreamBytes, Holds, LocatedAll, LoopFile;
  }

  /** What is pushed for a stream of the mapped file. */
  lemma PushedAll(us: seq<SampleUnit>, maxSize: nat, g: nat, c: nat)
    requires LoopFile(us, maxSize, g) && UnitsOk(us, V3C_SIZE_PRECISION) && 0 < c < GOP_UNITS
    ensures var file := StreamFile(us);
            Pushed(file, AllNals(UnitsOf(NO_UNITS.StoreAll(MapFile(file, |file|)), StreamOf(c))))
            == Flat(Grouped(us, c, maxSize, g))
  {
    hide *;
    var file := StreamFile(us);
    var r := MapFile(file, |file|);
    LoopMapped(us, maxSize, g);
    ListOfStream(r, g, c);
    PushedStream(file, r, us, maxSize, g, c, g);
    var list, groups := Every(r, c, g), Grouped(us, c, maxSize, g);
    assert list[..g] == list && groups[..g] == groups;
  }

  lemma DeliveredWhen(us: seq<SampleUnit>, maxSize: nat, g: nat, run: seq<Arrival>)
    requires LoopFile(us, maxSize, g)
    requires forall c :: 0 < c < GOP_UNITS ==> FramesOf(run, StreamOf(c)) == Flat(Grouped(us, c, maxSize, g))
    ensures Delivered(us, maxSize, g, run)
  {
    hide FramesOf, Flat, Grouped, LoopFile, StreamOf;
  }

  /** A unit of the receiver whose frames fill it. */
  lemma FullUnitReady(s: Stream, i: nat, group: seq<seq<byte>>, maxSize: nat)
    requires |group| == maxSize
    ensures UnitFrom(s, i, group, maxSize).ready
  {
    hide HeaderAt, Slots, Sum, Lengths;
  }

  lemma LoopUnitSize(us: seq<SampleUnit>, maxSize: nat, g: nat, i: nat, c: nat)
    requires LoopFile(us, maxSize, g) && i < g && 0 < c < GOP_UNITS
    ensures GOP_UNITS * i + c < |us| && us[GOP_UNITS * i + c].NalUnits? && |us[GOP_UNITS * i + c].nals| == maxSize
  {
    hide LoopFile, UnitOk, UnitsOk;
    LoopUnitAt(us, maxSize, g, i, c);
  }

  lemma ReceivedReady(us: seq<SampleUnit>, maxSize: nat, g: nat, vps: seq<UnitInfo>, run: seq<Arrival>, i: nat, c: nat)
    requires maxSize > 0 && LoopFile(us, maxSize, g) && Delivered(us, maxSize, g, run)
    requires i < g && 0 < c < GOP_UNITS
    ensures var units := UnitsOf(Received(Initial(vps), maxSize, run), StreamOf(c));
            i < |units| && units[i].ready
  {
    hide *;
    ReceivedUnit(us, maxSize, g, vps, run, i, c);
    LoopUnitSize(us, maxSize, g, i, c);
    FullUnitReady(StreamOf(c), i, us[GOP_UNITS * i + c].nals, maxSize);
  }

  lemma ReadyWhen(l: UnitLists, i: nat)
    requires i < |l.vps|
    requires i < |UnitsOf(l, AdStream)| && UnitsOf(l, AdStream)[i].ready
    requires i < |UnitsOf(l, OvdStream)| && UnitsOf(l, OvdStream)[i].ready
    requires i < |UnitsOf(l, GvdStream)| && UnitsOf(l, GvdStream)[i].ready
    requires i < |UnitsOf(l, AvdStream)| && UnitsOf(l, AvdStream)[i].ready
    ensures IsGopReady(i, l)
  {
  }

  /** A file in the receiver's form comes back. */
  lemma LoopComesBack(us: seq<SampleUnit>, maxSize: nat, g: nat, vps: seq<UnitInfo>, run: seq<Arrival>)
    requires maxSize > 0 && g > 0 && LoopFile(us, maxSize, g)
    requires |us| == GOP_UNITS * g && UnitsOk(us, V3C_SIZE_PRECISION) && SameVps(us, g, vps)
    requires SentAndReceived(us, run)
    ensures var l := Received(Initial(vps), maxSize, run);
            && (forall i :: 0 <= i < g ==> IsGopReady(i, l))
            && GopsOk(l, g) && WrittenFile(l, g) == StreamFile(us)
  {
    hide *;
    var l := Received(Initial(vps), maxSize, run);
    StreamsOfGop();
    forall c | 0 < c < GOP_UNITS ensures FramesOf(run, StreamOf(c)) == Flat(Grouped(us, c, maxSize, g)) {
      ReceivedFrames(us, run, StreamOf(c));
      PushedAll(us, maxSize, g, c);
    }
    DeliveredWhen(us, maxSize, g, run);
    forall i | 0 <= i < g ensures IsGopReady(i, l) {
      VpsAt(us, g, vps, i);
      ReceivedReady(us, maxSize, g, vps, run, i, 1);
      ReceivedReady(us, maxSize, g, vps, run, i, 2);
      ReceivedReady(us, maxSize, g, vps, run, i, 3);
      ReceivedReady(us, maxSize, g, vps, run, i, 4);
      ReadyWhen(l, i);
    }
    SameSamples(us, maxSize, g, vps, run);
    WrittenFileIsStream(l, g);
  }

  // ---------------------------------------------------------------- bytes determine units

  /** Size fields that their values fit: the same bytes, the same value, and the same rest. */
  lemma SameField(m: nat, n: nat, k: nat, xs: seq<byte>, ys: seq<byte>)
    requires m < Pow256(k) && n < Pow256(k)
    requires BigEndian(m, k) + xs == BigEndian(n, k) + ys
    ensures m == n && xs == ys
  {
    hide BigEndian, FromBigEndian, Pow256;
    BigEndianRoundTrip(m, k);
    BigEndianRoundTrip(n, k);
    assert (BigEndian(m, k) + xs)[..k] == BigEndian(m, k) && (BigEndian(n, k) + ys)[..k] == BigEndian(n, k);
    assert (BigEndian(m, k) + xs)[k..] == xs && (BigEndian(n, k) + ys)[k..] == ys;
  }

  lemma SameParts(a: seq<byte>, xs: seq<byte>, b: seq<byte>, ys: seq<byte>)
    requires |a| == |b| && a + xs == b + ys
    ensures a == b && xs == ys
  {
    assert (a + xs)[..|a|] == a && (b + ys)[..|a|] == b;
    assert (a + xs)[|a|..] == xs && (b + ys)[|a|..] == ys;
  }

  lemma {:induction false} SameNals(xs: seq<seq<byte>>, ys: seq<seq<byte>>, k: nat)
    requires k > 0 && NalStream(xs, k) == NalStream(ys, k)
    requires forall n <- xs :: |n| < Pow256(k)
    requires forall n <- ys :: |n| < Pow256(k)
    ensures xs == ys
    decreases |xs|
  {
    hide *;
    EmptyStream(xs, k);
    EmptyStream(ys, k);
    if xs != [] && ys != [] {
      FirstFits(xs, k);
      FirstFits(ys, k);
      NalStreamStep(xs, k);
      NalStreamStep(ys, k);
      var x, y := NalStream(xs[1..], k), NalStream(ys[1..], k);
      Assoc(BigEndian(|xs[0]|, k), xs[0], x);
      Assoc(BigEndian(|ys[0]|, k), ys[0], y);
      SameField(|xs[0]|, |ys[0]|, k, xs[0] + x, ys[0] + y);
      SameParts(xs[0], x, ys[0], y);
      SameNals(xs[1..], ys[1..], k);
      assert xs == [xs[0]] + xs[1..] && ys == [ys[0]] + ys[1..];
    }
  }

  /** Two streams of as many units with the same bytes hold the same payloads. */
  lemma {:induction false} SamePayload(xs: seq<SampleUnit>, ys: seq<SampleUnit>, k: nat, n: nat)
    requires UnitsOk(xs, k) && UnitsOk(ys, k) && n < |xs| && n < |ys|
    requires StreamBytes(xs, k) == StreamBytes(ys, k)
    ensures UnitOk(xs[n], k) && UnitOk(ys[n], k) && HeadOk(xs[n]) && HeadOk(ys[n])
    ensures Payload(xs[n]) == Payload(ys[n])
    decreases n
  {
    hide *;
    StreamUnfolds(xs, k);
    StreamUnfolds(ys, k);
    UnitFits(xs[0], k);
    UnitFits(ys[0], k);
    var p, q := Payload(xs[0]), Payload(ys[0]);
    var x, y := StreamBytes(xs[1..], k), StreamBytes(ys[1..], k);
    Assoc(BigEndian(|p|, k), p, x);
    Assoc(BigEndian(|q|, k), q, y);
    SameField(|p|, |q|, k, p + x, q + y);
    SameParts(p, x, q, y);
    if n > 0 {
      SamePayload(xs[1..], ys[1..], k, n - 1);
    }
  }

  lemma NalUnitPayload(u: SampleUnit, k: nat)
    requires u.NalUnits? && UnitOk(u, k)
    ensures HeadOk(u) && |u.head| == V3C_HDR_LEN && HeaderOf(u.head) != Vps && Precision(u) > 0
    ensures Payload(u) == u.head + (if HeaderOf(u.head).IsAtlas() then [u.precisionByte] else [])
                          + NalStream(u.nals, Precision(u))
    ensures Precision(u) == if HeaderOf(u.head).IsAtlas() then u.precisionByte / 32 + 1 else 4
    ensures forall n <- u.nals :: |n| < Pow256(Precision(u))
  {
    hide HeaderOf, NalStream, Pow256;
  }

  /** A parameter set does not start like the header of a unit with NAL units. */
  lemma NoParameterSet(u: SampleUnit, w: SampleUnit, k: nat)
    requires UnitOk(u, k) && UnitOk(w, k) && HeadOk(u) && HeadOk(w) && w.NalUnits? && Payload(u) == Payload(w)
    ensures u.NalUnits?
  {
    hide NalStream, Pow256, Precision;
    NalUnitPayload(w, k);
    assert Payload(w)[0] == w.head[0];
  }

  /** Two units with NAL units and the same payload are the same, but for an unused precision byte. */
  lemma SameUnit(u: SampleUnit, w: SampleUnit, k: nat)
    requires UnitOk(u, k) && UnitOk(w, k) && HeadOk(u) && HeadOk(w) && w.NalUnits? && Payload(u) == Payload(w)
    ensures u.NalUnits? && u.head == w.head && u.nals == w.nals && |u.head| == V3C_HDR_LEN
    ensures HeaderOf(u.head).IsAtlas() ==> u.precisionByte == w.precisionByte
  {
    hide *;
    NoParameterSet(u, w, k);
    NalUnitPayload(u, k);
    NalUnitPayload(w, k);
    var a := if HeaderOf(u.head).IsAtlas() then [u.precisionByte] else [];
    var b := if HeaderOf(w.head).IsAtlas() then [w.precisionByte] else [];
    Assoc(u.head, a, NalStream(u.nals, Precision(u)));
    Assoc(w.head, b, NalStream(w.nals, Precision(w)));
    SameParts(u.head, a + NalStream(u.nals, Precision(u)), w.head, b + NalStream(w.nals, Precision(w)));
    SameParts(a, NalStream(u.nals, Precision(u)), b, NalStream(w.nals, Precision(w)));
    assert HeaderOf(u.head).IsAtlas() ==> a[0] == b[0];
    SameNals(u.nals, w.nals, Precision(u));
  }

  // ---------------------------------------------------------------- which files come back

  /** Video units carry no precision byte; their field for it is fixed, as the printer fixes it. */
  predicate VideoField(u: SampleUnit) {
    u.NalUnits? && |u.head| == V3C_HDR_LEN && !HeaderOf(u.head).IsAtlas() ==>
      u.precisionByte == PrecisionByte(VIDEO_NAL_SIZE_PRECISION)
  }

  lemma ReadyStream(l: UnitLists, i: nat, c: nat)
    requires IsGopReady(i, l) && 0 < c < GOP_UNITS
    ensures i < |UnitsOf(l, StreamOf(c))| && UnitsOf(l, StreamOf(c))[i].ready
  {
  }

  lemma ReadyGroup(s: Stream, i: nat, group: seq<seq<byte>>, maxSize: nat)
    requires UnitFrom(s, i, group, maxSize).ready
    ensures |group| == maxSize
  {
    hide HeaderAt, Slots, Sum, Lengths;
  }

  lemma GopUnitIs(l: UnitLists, i: nat, c: nat)
    requires GopOk(l, i) && 0 < c < GOP_UNITS
    ensures i < |UnitsOf(l, StreamOf(c))| && NalPrecisionOf(StreamOf(c)) > 0
    ensures SampleAt(l, i, c) == AsSample(UnitsOf(l, StreamOf(c))[i], NalPrecisionOf(StreamOf(c)))
  {
    hide Writable, AsSample, VpsOk, VpsSample;
  }

  /** What the receiver prints for unit `c` of a ready GoP has the receiver's form. */
  lemma PrintedForm(vps: seq<UnitInfo>, maxSize: nat, run: seq<Arrival>, i: nat, c: nat)
    requires maxSize > 0 && 0 < c < GOP_UNITS
    requires IsGopReady(i, Received(Initial(vps), maxSize, run)) && GopOk(Received(Initial(vps), maxSize, run), i)
    ensures LoopUnit(SampleAt(Received(Initial(vps), maxSize, run), i, c), maxSize, i, c)
  {
    hide *;
    var l, s := Received(Initial(vps), maxSize, run), StreamOf(c);
    var groups := Groups(FramesOf(run, s), maxSize);
    ReadyStream(l, i, c);
    GopUnitIs(l, i, c);
    RunIsCollected(vps, maxSize, run, s);
    CollectedIs(s, FramesOf(run, s), maxSize);
    ReadyGroup(s, i, groups[i], maxSize);
    FormOf(i, c, groups[i], maxSize);
  }

  lemma FormOf(i: nat, c: nat, group: seq<seq<byte>>, maxSize: nat)
    requires 0 < c < GOP_UNITS && |group| == maxSize && NalPrecisionOf(StreamOf(c)) > 0
    ensures LoopUnit(AsSample(UnitFrom(StreamOf(c), i, group, maxSize), NalPrecisionOf(StreamOf(c))), maxSize, i, c)
  {
    hide HeadBytes, HeaderAt, Slots, UnitFrom, Sum, Lengths, PrecisionByte;
    UnitFromParts(StreamOf(c), i, group, maxSize);
  }

  lemma SameForm(u: SampleUnit, w: SampleUnit, maxSize: nat, i: nat, c: nat)
    requires 0 < c < GOP_UNITS && LoopUnit(w, maxSize, i, c) && VideoField(u)
    requires u.NalUnits? && u.head == w.head && u.nals == w.nals && |u.head| == V3C_HDR_LEN
    requires HeaderOf(u.head).IsAtlas() ==> u.precisionByte == w.precisionByte
    ensures LoopUnit(u, maxSize, i, c)
  {
    hide HeaderOf, HeadBytes, HeaderBack, PrecisionByte;
    HeadBytesRead(HeaderAt(StreamOf(c), i));
    ConstructorBack(HeaderAt(StreamOf(c), i));
  }

  lemma SameStreams(xs: seq<SampleUnit>, ys: seq<SampleUnit>)
    requires UnitsOk(xs, V3C_SIZE_PRECISION) && UnitsOk(ys, V3C_SIZE_PRECISION) && StreamFile(xs) == StreamFile(ys)
    ensures StreamBytes(xs, V3C_SIZE_PRECISION) == StreamBytes(ys, V3C_SIZE_PRECISION)
  {
    hide *;
    StreamFileParts(xs);
    StreamFileParts(ys);
    SameParts([SAMPLE_STREAM_HEADER], StreamBytes(xs, V3C_SIZE_PRECISION),
              [SAMPLE_STREAM_HEADER], StreamBytes(ys, V3C_SIZE_PRECISION));
  }

  lemma LoopFileWhen(us: seq<SampleUnit>, maxSize: nat, g: nat)
    requires |us| == GOP_UNITS * g && UnitsOk(us, V3C_SIZE_PRECISION)
    requires forall i: nat, c: nat :: i < g && c < GOP_UNITS ==> LoopPlace(us, maxSize, i, c)
    ensures LoopFile(us, maxSize, g)
  {
    hide UnitsOk, LoopPlace;
  }

  lemma LoopPlaceWhen(us: seq<SampleUnit>, maxSize: nat, i: nat, c: nat)
    requires GOP_UNITS * i + c < |us| && LoopUnit(us[GOP_UNITS * i + c], maxSize, i, c)
    ensures LoopPlace(us, maxSize, i, c)
  {
    hide LoopUnit;
  }

  lemma VpsForm(u: SampleUnit, v: UnitInfo, maxSize: nat, i: nat)
    requires VpsOk(v) && VpsSample(v) == u
    ensures LoopUnit(u, maxSize, i, 0)
  {
  }

  /** Only a file in the receiver's form comes back, whatever arrived. */
  lemma OnlyLoopComesBack(us: seq<SampleUnit>, maxSize: nat, g: nat, vps: seq<UnitInfo>, run: seq<Arrival>)
    requires maxSize > 0 && g > 0 && |us| == GOP_UNITS * g && UnitsOk(us, V3C_SIZE_PRECISION)
    requires SameVps(us, g, vps) && forall u <- us :: VideoField(u)
    requires forall i :: 0 <= i < g ==> IsGopReady(i, Received(Initial(vps), maxSize, run))
    requires GopsOk(Received(Initial(vps), maxSize, run), g)
    requires WrittenFile(Received(Initial(vps), maxSize, run), g) == StreamFile(us)
    ensures LoopFile(us, maxSize, g)
  {
    hide *;
    var l, k := Received(Initial(vps), maxSize, run), V3C_SIZE_PRECISION;
    WrittenFileIsStream(l, g);
    var xs := Samples(l, g);
    SameStreams(xs, us);
    forall i: nat, c: nat | i < g && c < GOP_UNITS ensures LoopPlace(us, maxSize, i, c) {
      var n := GOP_UNITS * i + c;
      PlaceInGop(g, i, c);
      VpsAt(us, g, vps, i);
      if c == 0 {
        VpsForm(us[n], vps[i], maxSize, i);
      } else {
        SamplesAt(l, g, i, c);
        GopAt(l, g, i);
        PrintedForm(vps, maxSize, run, i, c);
        SamePayload(xs, us, k, n);
        LoopUnitHasNals(xs[n], maxSize, i, c);
        SameUnit(us[n], xs[n], k);
        assert us[n] in us;
        SameForm(us[n], xs[n], maxSize, i, c);
      }
      LoopPlaceWhen(us, maxSize, i, c);
    }
    LoopFileWhen(us, maxSize, g);
  }

  lemma PlaceInGop(g: nat, i: nat, c: nat)
    requires i < g && c < GOP_UNITS
    ensures GOP_UNITS * i + c < GOP_UNITS * g
  {
  }

  lemma GopAt(l: UnitLists, g: nat, i: nat)
    requires GopsOk(l, g) && i < g
    ensures GopOk(l, i)
  {
    hide GopOk;
  }

  lemma LoopUnitHasNals(u: SampleUnit, maxSize: nat, i: nat, c: nat)
    requires c > 0 && LoopUnit(u, maxSize, i, c)
    ensures u.NalUnits?
  {
  }

  /** Each stream delivers, in order, what `sender_func` pushes for it from the mapped file. */
  ghost predicate SentAndReceived(us: seq<SampleUnit>, run: seq<Arrival>)
    requires UnitsOk(us, V3C_SIZE_PRECISION)
  {
    var file := StreamFile(us);
    forall s :: FramesOf(run, s) == Pushed(file, AllNals(UnitsOf(NO_UNITS.StoreAll(MapFile(file, |file|)), s)))
  }

  lemma ReceivedFrames(us: seq<SampleUnit>, run: seq<Arrival>, s: Stream)
    requires UnitsOk(us, V3C_SIZE_PRECISION) && SentAndReceived(us, run)
    ensures var file := StreamFile(us);
            FramesOf(run, s) == Pushed(file, AllNals(UnitsOf(NO_UNITS.StoreAll(MapFile(file, |file|)), s)))
  {
    hide StreamFile, FramesOf, Pushed, AllNals, UnitsOf, MapFile, UnitLists.StoreAll;
  }

  /**
    Around the loop. A well-formed file of `g` times five units is mapped, and the NAL units that
    `sender_func` pushes for each stream arrive in any interleaving at a receiver with the same
    parameter sets. Its GoPs 0 to g - 1 are ready and, rebuilt in order, that very file exactly when
    each unit behind a parameter set holds `maxSize` NAL units and has the header, and the atlas
    units the precision, that the receiver writes for its place.
   */
  lemma {:induction false} AroundTheLoop(us: seq<SampleUnit>, maxSize: nat, g: nat, vps: seq<UnitInfo>,
                                         run: seq<Arrival>)
    requires maxSize > 0 && g > 0 && |us| == GOP_UNITS * g && UnitsOk(us, V3C_SIZE_PRECISION)
    requires SameVps(us, g, vps) && forall u <- us :: VideoField(u)
    requires SentAndReceived(us, run)
    ensures var l := Received(Initial(vps), maxSize, run);
            (&& (forall i :: 0 <= i < g ==> IsGopReady(i, l))
             && GopsOk(l, g) && WrittenFile(l, g) == StreamFile(us))
            <==> LoopFile(us, maxSize, g)
  {
    hide *;
    var l := Received(Initial(vps), maxSize, run);
    if LoopFile(us, maxSize, g) {
      LoopComesBack(us, maxSize, g, vps, run);
    }
    if (forall i :: 0 <= i < g ==> IsGopReady(i, l)) && GopsOk(l, g) && WrittenFile(l, g) == StreamFile(us) {
      OnlyLoopComesBack(us, maxSize, g, vps, run);
    }
  }
}
