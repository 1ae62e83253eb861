/**
  The receiving side of uvgrtp/v3c_util.cc: RTP payloads arrive on four streams, in any
  interleaving, and are collected into V3C units of `maxSize` NAL units each.
 */
module V3cReceiver {
  import opened Bytes
  import opened V3cTypes
  import V3cHeader
  import opened V3cWriter

  /** The streams that the receiver opens, one for each list it fills. */
  datatype Stream = AdStream | OvdStream | GvdStream | AvdStream

  function UnitsOf(l: UnitLists, s: Stream): seq<UnitInfo> {
    match s
    case AdStream => l.ad
    case OvdStream => l.ovd
    case GvdStream => l.gvd
    case AvdStream => l.avd
  }

  function WithUnits(l: UnitLists, s: Stream, units: seq<UnitInfo>): UnitLists {
    match s
    case AdStream => l.(ad := units)
    case OvdStream => l.(ovd := units)
    case GvdStream => l.(gvd := units)
    case AvdStream => l.(avd := units)
  }

  /** The header of unit `n` of a stream: the low 8 bits of `n` as parameter-set id, and zeros. */
  function HeaderAt(s: Stream, n: nat): UnitHeader {
    var id := (n % 256) as u8;
    match s
    case AdStream => Ad(id, 0)
    case OvdStream => Ovd(id, 0)
    case GvdStream => Gvd(id, 0, 0, false)
    case AvdStream => Avd(id, 0, 0, 0, 0, false)
  }

  /** `init_mmap`: one empty unit on each stream. The VPS units come from elsewhere. */
  function Initial(vps: seq<UnitInfo>): (l: UnitLists)
    ensures Started(l) && l.vps == vps
  {
    UnitLists(vps, [UnitInfo(HeaderAt(AdStream, 0), [], 0, false)], [UnitInfo(HeaderAt(OvdStream, 0), [], 0, false)],
              [UnitInfo(HeaderAt(GvdStream, 0), [], 0, false)], [UnitInfo(HeaderAt(AvdStream, 0), [], 0, false)],
              [], [])
  }

  method InitMmap() returns (mmap: FileMap)
    ensures fresh(mmap) && mmap.Lists() == Initial([])
  {
    mmap := new FileMap();
    mmap.Store(UnitInfo(Ad(0, 0), [], 0, false));
    mmap.Store(UnitInfo(Ovd(0, 0), [], 0, false));
    mmap.Store(UnitInfo(Gvd(0, 0, 0, false), [], 0, false));
    mmap.Store(UnitInfo(Avd(0, 0, 0, 0, 0, false), [], 0, false));
  }

  // ---------------------------------------------------------------- one arrival

  /** The header of the unit that follows `n` units: same type, a new id, the rest zero. */
  function NextHeader(h: UnitHeader, n: nat): UnitHeader {
    var id := (n % 256) as u8;
    match h
    case Ad(_, _) => Ad(id, 0)
    case Ovd(_, _) => Ovd(id, 0)
    case Gvd(_, _, _, _) => Gvd(id, 0, 0, false)
    case Avd(_, _, _, _, _, _) => Avd(id, 0, 0, 0, 0, false)
    case Pvd(_, _) => Pvd(0, 0)
    case Cad(_) => Cad(0)
    case _ => h
  }

  /** A unit after a payload was stored, if it has room, and `ready` updated. */
  function AddNal(back: UnitInfo, maxSize: nat, payload: seq<byte>): UnitInfo {
    var stored :=
      if |back.nalInfos| <= maxSize then
        back.(nalInfos := back.nalInfos + [NalInfo(back.ptr, |payload|, payload)], ptr := back.ptr + |payload|)
      else back;
    if |stored.nalInfos| == maxSize then stored.(ready := true) else stored
  }

  /** A stream's list after an arrival: when the last unit is full, a new one takes the payload. */
  function Arrive(units: seq<UnitInfo>, maxSize: nat, payload: seq<byte>): (r: seq<UnitInfo>)
    requires units != []
    ensures |units| <= |r| <= |units| + 1
  {
    var n := |units| - 1;
    if |units[n].nalInfos| == maxSize then
      units + [AddNal(UnitInfo(NextHeader(units[n].header, |units|), [], 0, false), maxSize, payload)]
    else units[n := AddNal(units[n], maxSize, payload)]
  }

  /** `copy_rtp_payload`, on the list that the stream's receive hook points at. */
  method CopyRtpPayload(mmap: FileMap, s: Stream, maxSize: nat, payload: seq<byte>)
    requires UnitsOf(mmap.Lists(), s) != []
    modifies mmap
    ensures mmap.Lists() == WithUnits(old(mmap.Lists()), s, Arrive(UnitsOf(old(mmap.Lists()), s), maxSize, payload))
  {
    var units := UnitsOf(mmap.Lists(), s);
    var back := units[|units| - 1];
    if |back.nalInfos| == maxSize {
      back := UnitInfo(NextHeader(back.header, |units|), [], 0, false);
      units := units + [back];
    }
    if |back.nalInfos| <= maxSize {
      var nalu := NalInfo(back.ptr, |payload|, payload);
      back := back.(nalInfos := back.nalInfos + [nalu]);
      back := back.(ptr := back.ptr + |payload|);
    }
    if |back.nalInfos| == maxSize {
      back := back.(ready := true);
    }
    units := units[|units| - 1 := back];
    match s
    case AdStream => mmap.adUnits := units;
    case OvdStream => mmap.ovdUnits := units;
    case GvdStream => mmap.gvdUnits := units;
    case AvdStream => mmap.avdUnits := units;
  }

  // ---------------------------------------------------------------- runs

  datatype Arrival = Arrival(stream: Stream, payload: seq<byte>)

  /** All the frames that one stream delivered, in order. */
  function FramesOf(run: seq<Arrival>, s: Stream): seq<seq<byte>> {
    if run == [] then []
    else
      var before := FramesOf(run[..|run| - 1], s);
      if run[|run| - 1].stream == s then before + [run[|run| - 1].payload] else before
  }

  predicate Started(l: UnitLists) {
    l.ad != [] && l.ovd != [] && l.gvd != [] && l.avd != []
  }

  function Receive(l: UnitLists, maxSize: nat, a: Arrival): (r: UnitLists)
    requires Started(l)
    ensures Started(r) && (r.vps, r.pvd, r.cad) == (l.vps, l.pvd, l.cad)
  {
    WithUnits(l, a.stream, Arrive(UnitsOf(l, a.stream), maxSize, a.payload))
  }

  /** The map after a run of arrivals. */
  function Received(l: UnitLists, maxSize: nat, run: seq<Arrival>): (r: UnitLists)
    requires Started(l)
    ensures Started(r) && (r.vps, r.pvd, r.cad) == (l.vps, l.pvd, l.cad)
    decreases |run|
  {
    if run == [] then l
    else Receive(Received(l, maxSize, run[..|run| - 1]), maxSize, run[|run| - 1])
  }

  predicate IsGopReady(index: nat, l: UnitLists) {
    && index < |l.vps|
    && (index < |l.ad| && l.ad[index].ready)
    && (index < |l.ovd| && l.ovd[index].ready)
    && (index < |l.gvd| && l.gvd[index].ready)
    && (index < |l.avd| && l.avd[index].ready)
  }

  // ---------------------------------------------------------------- the closed form

  /** Frames in groups of `maxSize`; the last group may be smaller, and there is always one. */
  function Groups(frames: seq<seq<byte>>, maxSize: nat): (r: seq<seq<seq<byte>>>)
    requires maxSize > 0
    ensures r != []
    decreases |frames|
  {
    if |frames| <= maxSize then [frames] else [frames[..maxSize]] + Groups(frames[maxSize..], maxSize)
  }

  /** Descriptors of frames that lie one after the other from `at` on. */
  function Slots(at: nat, frames: seq<seq<byte>>): (r: seq<NalInfo>)
    ensures |r| == |frames|
    decreases |frames|
  {
    if frames == [] then []
    else [NalInfo(at, |frames[0]|, frames[0])] + Slots(at + |frames[0]|, frames[1..])
  }

  function UnitFrom(s: Stream, n: nat, group: seq<seq<byte>>, maxSize: nat): UnitInfo {
    UnitInfo(HeaderAt(s, n), Slots(0, group), Sum(Lengths(group)), |group| == maxSize)
  }

  function UnitsFrom(s: Stream, groups: seq<seq<seq<byte>>>, maxSize: nat): (r: seq<UnitInfo>)
    ensures |r| == |groups|
    ensures forall i :: 0 <= i < |groups| ==> r[i] == UnitFrom(s, i, groups[i], maxSize)
  {
    seq(|groups|, i requires 0 <= i < |groups| => UnitFrom(s, i, groups[i], maxSize))
  }

  /** What a stream's list is after `frames` arrived. */
  function Collected(s: Stream, frames: seq<seq<byte>>, maxSize: nat): seq<UnitInfo>
    requires maxSize > 0
  {
    UnitsFrom(s, Groups(frames, maxSize), maxSize)
  }

  lemma SlotsCons(at: nat, f: seq<byte>, rest: seq<seq<byte>>)
    ensures Slots(at, []) == [] && Sum(Lengths([])) == 0
    ensures Slots(at, [f] + rest) == [NalInfo(at, |f|, f)] + Slots(at + |f|, rest)
    ensures Sum(Lengths([f] + rest)) == |f| + Sum(Lengths(rest))
  {
    assert ([f] + rest)[1..] == rest;
    LengthsCons(f, rest);
    assert ([|f|] + Lengths(rest))[1..] == Lengths(rest);
  }

  lemma {:induction false} SlotsSnoc(at: nat, frames: seq<seq<byte>>, f: seq<byte>)
    ensures Slots(at, frames + [f])
         == Slots(at, frames) + [NalInfo(at + Sum(Lengths(frames)), |f|, f)]
    decreases |frames|
  {
    hide *;
    if frames == [] {
      assert frames + [f] == [f] + [];
      SlotsCons(at, f, []);
      SlotsCons(at + |f|, f, []);
    } else {
      var x, rest := frames[0], frames[1..];
      assert frames == [x] + rest && frames + [f] == [x] + (rest + [f]);
      SlotsCons(at, x, rest);
      SlotsCons(at, x, rest + [f]);
      SlotsSnoc(at + |x|, rest, f);
    }
  }

  /** One more frame starts a group when the last one is full, and extends it otherwise. */
  lemma {:induction false} GroupsSnoc(frames: seq<seq<byte>>, f: seq<byte>, maxSize: nat)
    requires maxSize > 0
    ensures var g := Groups(frames, maxSize);
            var n := |g| - 1;
            && |g[n]| <= maxSize
            && Groups(frames + [f], maxSize) == if |g[n]| == maxSize then g + [[f]] else g[n := g[n] + [f]]
    decreases |frames|
  {
    if |frames| < maxSize {
    } else if |frames| == maxSize {
      assert (frames + [f])[..maxSize] == frames;
      assert (frames + [f])[maxSize..] == [f];
      assert Groups([f], maxSize) == [[f]];
    } else {
      assert (frames + [f])[..maxSize] == frames[..maxSize];
      assert (frames + [f])[maxSize..] == frames[maxSize..] + [f];
      GroupsSnoc(frames[maxSize..], f, maxSize);
    }
  }

  /** Storing a frame in a unit that is not full extends its group. */
  lemma AddNalStep(s: Stream, n: nat, group: seq<seq<byte>>, f: seq<byte>, maxSize: nat)
    requires |group| < maxSize
    ensures AddNal(UnitFrom(s, n, group, maxSize), maxSize, f) == UnitFrom(s, n, group + [f], maxSize)
  {
    SlotsSnoc(0, group, f);
    LengthsSnoc(group, f);
  }

  lemma EmptyUnit(s: Stream, n: nat, maxSize: nat)
    requires maxSize > 0
    ensures UnitFrom(s, n, [], maxSize) == UnitInfo(HeaderAt(s, n), [], 0, false)
  {
  }

  lemma ArriveIs(units: seq<UnitInfo>, maxSize: nat, payload: seq<byte>)
    requires units != []
    ensures var n := |units| - 1;
            Arrive(units, maxSize, payload) ==
            if |units[n].nalInfos| == maxSize then
              units + [AddNal(UnitInfo(NextHeader(units[n].header, |units|), [], 0, false), maxSize, payload)]
            else units[n := AddNal(units[n], maxSize, payload)]
  {
    hide AddNal, NextHeader;
  }

  lemma UnitFromShape(s: Stream, n: nat, group: seq<seq<byte>>, maxSize: nat)
    ensures var u := UnitFrom(s, n, group, maxSize);
            u.header == HeaderAt(s, n) && |u.nalInfos| == |group|
  {
    hide HeaderAt, Slots, Sum, Lengths;
  }

  lemma NextHeaderAt(s: Stream, n: nat, k: nat)
    ensures NextHeader(HeaderAt(s, n), k) == HeaderAt(s, k)
  {
  }

  lemma UnitsFromSnoc(s: Stream, g: seq<seq<seq<byte>>>, x: seq<seq<byte>>, maxSize: nat)
    ensures UnitsFrom(s, g + [x], maxSize) == UnitsFrom(s, g, maxSize) + [UnitFrom(s, |g|, x, maxSize)]
  {
    hide UnitFrom;
  }

  lemma ArriveOnFull(s: Stream, g: seq<seq<seq<byte>>>, f: seq<byte>, maxSize: nat)
    requires maxSize > 0 && g != [] && |g[|g| - 1]| == maxSize
    ensures Arrive(UnitsFrom(s, g, maxSize), maxSize, f) == UnitsFrom(s, g + [[f]], maxSize)
  {
    hide *;
    var n := |g| - 1;
    ArriveIs(UnitsFrom(s, g, maxSize), maxSize, f);
    UnitFromShape(s, n, g[n], maxSize);
    NextHeaderAt(s, n, |g|);
    EmptyUnit(s, |g|, maxSize);
    AddNalStep(s, |g|, [], f, maxSize);
    assert [] + [f] == [f];
    UnitsFromSnoc(s, g, [f], maxSize);
  }

  lemma ArriveOnRoom(s: Stream, g: seq<seq<seq<byte>>>, f: seq<byte>, maxSize: nat)
    requires g != [] && |g[|g| - 1]| < maxSize
    ensures var n := |g| - 1;
            Arrive(UnitsFrom(s, g, maxSize), maxSize, f) == UnitsFrom(s, g[n := g[n] + [f]], maxSize)
  {
    hide *;
    var n := |g| - 1;
    var before, after := UnitsFrom(s, g, maxSize), UnitsFrom(s, g[n := g[n] + [f]], maxSize);
    ArriveIs(before, maxSize, f);
    UnitFromShape(s, n, g[n], maxSize);
    AddNalStep(s, n, g[n], f, maxSize);
    assert before[n := after[n]] == after;
  }

  /** The arrival of one frame takes the closed form to the closed form. */
  lemma CollectedStep(s: Stream, frames: seq<seq<byte>>, f: seq<byte>, maxSize: nat)
    requires maxSize > 0
    ensures Collected(s, frames, maxSize) != []
    ensures Arrive(Collected(s, frames, maxSize), maxSize, f) == Collected(s, frames + [f], maxSize)
  {
    hide Arrive;
    var g := Groups(frames, maxSize);
    GroupsSnoc(frames, f, maxSize);
    if |g[|g| - 1]| == maxSize {
      ArriveOnFull(s, g, f, maxSize);
    } else {
      ArriveOnRoom(s, g, f, maxSize);
    }
  }

  /**
    After any run of arrivals every list is the closed form of the frames of its own stream:
    the interleaving of the streams has no influence.
   */
  lemma {:induction false} RunIsCollected(vps: seq<UnitInfo>, maxSize: nat, run: seq<Arrival>, s: Stream)
    requires maxSize > 0
    ensures UnitsOf(Received(Initial(vps), maxSize, run), s) == Collected(s, FramesOf(run, s), maxSize)
    decreases |run|
  {
    if run == [] {
      EmptyUnit(s, 0, maxSize);
    } else {
      var before, a := run[..|run| - 1], run[|run| - 1];
      RunIsCollected(vps, maxSize, before, s);
      CollectedStep(s, FramesOf(before, s), a.payload, maxSize);
      ReceiveOne(Received(Initial(vps), maxSize, before), maxSize, a, s);
    }
  }

  lemma ReceiveOne(l: UnitLists, maxSize: nat, a: Arrival, s: Stream)
    requires Started(l)
    ensures UnitsOf(l, s) != []
    ensures UnitsOf(Receive(l, maxSize, a), s)
         == if a.stream == s then Arrive(UnitsOf(l, s), maxSize, a.payload) else UnitsOf(l, s)
  {
    hide Arrive;
  }

  /** Two runs that deliver the same frames on each stream leave the same map. */
  lemma {:induction false} InterleavingIsIrrelevant(vps: seq<UnitInfo>, maxSize: nat,
                                                    run: seq<Arrival>, run': seq<Arrival>)
    requires maxSize > 0
    requires forall s :: FramesOf(run, s) == FramesOf(run', s)
    ensures Received(Initial(vps), maxSize, run) == Received(Initial(vps), maxSize, run')
  {
    hide Received, Collected, FramesOf;
    var l, l' := Received(Initial(vps), maxSize, run), Received(Initial(vps), maxSize, run');
    forall s
      ensures UnitsOf(l, s) == UnitsOf(l', s)
    {
      RunIsCollected(vps, maxSize, run, s);
      RunIsCollected(vps, maxSize, run', s);
    }
    assert l.ad == UnitsOf(l, AdStream) && l.ovd == UnitsOf(l, OvdStream);
    assert l.gvd == UnitsOf(l, GvdStream) && l.avd == UnitsOf(l, AvdStream);
  }

  // ---------------------------------------------------------------- where a frame is

  /** Position `k` of group `j` holds frame `j * maxSize + k`. */
  lemma {:induction false} GroupAt(frames: seq<seq<byte>>, maxSize: nat, j: nat, k: nat)
    requires k < maxSize && j * maxSize + k < |frames|
    ensures j < |Groups(frames, maxSize)| && k < |Groups(frames, maxSize)[j]|
    ensures Groups(frames, maxSize)[j][k] == frames[j * maxSize + k]
    decreases j
  {
    if j > 0 {
      MulOneMore(j - 1, maxSize);
      NonNegative(j - 1, maxSize);
      GroupAt(frames[maxSize..], maxSize, j - 1, k);
    }
  }

  lemma NonNegative(j: nat, k: nat)
    ensures j * k >= 0
  {
  }

  lemma {:induction false} SlotAt(at: nat, frames: seq<seq<byte>>, k: nat)
    requires k < |frames|
    ensures Slots(at, frames)[k] == NalInfo(at + Sum(Lengths(frames[..k])), |frames[k]|, frames[k])
    decreases |frames|
  {
    if k == 0 {
      assert Sum(Lengths(frames[..0])) == 0;
    } else {
      SlotAt(at + |frames[0]|, frames[1..], k - 1);
      assert frames[..k] == [frames[0]] + frames[1..][..k - 1];
      assert Lengths(frames[..k])[1..] == Lengths(frames[1..][..k - 1]);
    }
  }

  lemma IdAt(s: Stream, j: nat)
    ensures V3cHeader.PsId(HeaderAt(s, j)) as int == j % 256
  {
    V3cHeader.BitsOfByte(j % 256);
  }

  /**
    Frame `m` of a stream sits in unit m / maxSize at slot m % maxSize, behind the frames of
    its unit that came before it; and unit j carries parameter-set id j mod 256.
   */
  lemma FrameSlot(s: Stream, frames: seq<seq<byte>>, maxSize: nat, m: nat)
    requires maxSize > 0 && m < |frames|
    ensures var j, k := m / maxSize, m % maxSize;
            var units := Collected(s, frames, maxSize);
            && j < |units| && k < |units[j].nalInfos|
            && units[j].header == HeaderAt(s, j)
            && V3cHeader.PsId(units[j].header) as int == j % 256
            && k <= m
            && units[j].nalInfos[k] == NalInfo(Sum(Lengths(frames[m - k..m])), |frames[m]|, frames[m])
  {
    hide *;
    var j, k := m / maxSize, m % maxSize;
    QuotientIs(m, maxSize);
    IdAt(s, j);
    CollectedIs(s, frames, maxSize);
    GroupAt(frames, maxSize, j, k);
    var g := Groups(frames, maxSize)[j];
    UnitSlots(s, j, g, maxSize);
    SlotAt(0, g, k);
    forall i | 0 <= i < k
      ensures g[i] == frames[m - k + i]
    {
      GroupAt(frames, maxSize, j, i);
    }
    assert g[..k] == frames[m - k..m];
  }

  lemma QuotientIs(m: nat, maxSize: nat)
    requires maxSize > 0
    ensures m / maxSize * maxSize + m % maxSize == m && m % maxSize <= m
  {
  }

  lemma UnitSlots(s: Stream, n: nat, group: seq<seq<byte>>, maxSize: nat)
    ensures var u := UnitFrom(s, n, group, maxSize);
            u.header == HeaderAt(s, n) && u.nalInfos == Slots(0, group)
  {
    hide HeaderAt, Slots, Sum, Lengths;
  }

  // ---------------------------------------------------------------- readiness

  lemma {:induction false} FullGroup(frames: seq<seq<byte>>, maxSize: nat, j: nat)
    requires maxSize > 0
    ensures j < |Groups(frames, maxSize)| && |Groups(frames, maxSize)[j]| == maxSize
       <==> |frames| >= (j + 1) * maxSize
    decreases j
  {
    MulOneMore(j, maxSize);
    NonNegative(j, maxSize);
    if j > 0 {
      MulOneMore(j - 1, maxSize);
      NonNegative(j - 1, maxSize);
      if |frames| > maxSize {
        FullGroup(frames[maxSize..], maxSize, j - 1);
      }
    }
  }

  lemma {:induction false} GroupsFull(frames: seq<seq<byte>>, maxSize: nat)
    requires maxSize > 0
    ensures var g := Groups(frames, maxSize);
            (forall j :: 0 <= j < |g| - 1 ==> |g[j]| == maxSize) && |g[|g| - 1]| <= maxSize
    decreases |frames|
  {
    if |frames| > maxSize {
      GroupsFull(frames[maxSize..], maxSize);
    }
  }

  lemma UnitsFromIs(s: Stream, g: seq<seq<seq<byte>>>, maxSize: nat)
    ensures forall i :: 0 <= i < |g| ==>
              && |UnitsFrom(s, g, maxSize)[i].nalInfos| == |g[i]|
              && (UnitsFrom(s, g, maxSize)[i].ready <==> |g[i]| == maxSize)
  {
    hide HeaderAt, Slots, Sum, Lengths;
  }

  /** After any run, every unit but the last is full, none is overfull, and `ready` says which are full. */
  lemma {:induction false} AllButLastFull(vps: seq<UnitInfo>, maxSize: nat, run: seq<Arrival>, s: Stream)
    requires maxSize > 0
    ensures var units := UnitsOf(Received(Initial(vps), maxSize, run), s);
            && units != []
            && (forall j :: 0 <= j < |units| - 1 ==> |units[j].nalInfos| == maxSize)
            && |units[|units| - 1].nalInfos| <= maxSize
            && (forall j :: 0 <= j < |units| ==> (units[j].ready <==> |units[j].nalInfos| == maxSize))
  {
    hide *;
    var groups := Groups(FramesOf(run, s), maxSize);
    RunIsCollected(vps, maxSize, run, s);
    CollectedIs(s, FramesOf(run, s), maxSize);
    GroupsFull(FramesOf(run, s), maxSize);
    UnitsFromIs(s, groups, maxSize);
  }

  lemma CollectedIs(s: Stream, frames: seq<seq<byte>>, maxSize: nat)
    requires maxSize > 0
    ensures Collected(s, frames, maxSize) == UnitsFrom(s, Groups(frames, maxSize), maxSize)
  {
    hide Groups, UnitsFrom;
  }

  lemma UnitReady(vps: seq<UnitInfo>, maxSize: nat, run: seq<Arrival>, s: Stream, i: nat)
    requires maxSize > 0
    ensures var units := UnitsOf(Received(Initial(vps), maxSize, run), s);
            i < |units| && units[i].ready <==> |FramesOf(run, s)| >= (i + 1) * maxSize
  {
    RunIsCollected(vps, maxSize, run, s);
    hide Received, FramesOf, Groups;
    FullGroup(FramesOf(run, s), maxSize, i);
  }

  /** GoP `i` is ready exactly when its VPS unit is there and each stream has delivered i + 1 full units. */
  lemma ReadyExactly(vps: seq<UnitInfo>, maxSize: nat, run: seq<Arrival>, i: nat)
    requires maxSize > 0
    ensures IsGopReady(i, Received(Initial(vps), maxSize, run)) <==>
              i < |vps| && forall s :: |FramesOf(run, s)| >= (i + 1) * maxSize
  {
    UnitReady(vps, maxSize, run, AdStream, i);
    UnitReady(vps, maxSize, run, OvdStream, i);
    UnitReady(vps, maxSize, run, GvdStream, i);
    UnitReady(vps, maxSize, run, AvdStream, i);
    hide Received, FramesOf;
    if IsGopReady(i, Received(Initial(vps), maxSize, run)) {
      forall s: Stream
        ensures |FramesOf(run, s)| >= (i + 1) * maxSize
      {
        match s
        case AdStream =>
        case OvdStream =>
        case GvdStream =>
        case AvdStream =>
      }
    }
  }

  predicate NoneReady(units: seq<UnitInfo>) {
    forall u <- units :: !u.ready
  }

  /** One arrival at a unit size of zero: a unit is never empty again, so it is never full. */
  lemma NeverFull(units: seq<UnitInfo>, payload: seq<byte>)
    requires units != [] && NoneReady(units)
    ensures NoneReady(Arrive(units, 0, payload))
  {
  }

  /** With a unit size of zero no run of arrivals makes any unit, or any GoP, ready. */
  lemma {:induction false} ZeroSizeNeverReady(vps: seq<UnitInfo>, run: seq<Arrival>, s: Stream, i: nat)
    ensures NoneReady(UnitsOf(Received(Initial(vps), 0, run), s))
    ensures !IsGopReady(i, Received(Initial(vps), 0, run))
    decreases |run|
  {
    hide Arrive;
    if run != [] {
      var before, a := run[..|run| - 1], run[|run| - 1];
      ZeroSizeNeverReady(vps, before, s, i);
      ZeroSizeNeverReady(vps, before, AdStream, i);
      NeverFull(UnitsOf(Received(Initial(vps), 0, before), s), a.payload);
      NeverFull(UnitsOf(Received(Initial(vps), 0, before), AdStream), a.payload);
      ReceiveOne(Received(Initial(vps), 0, before), 0, a, s);
      ReceiveOne(Received(Initial(vps), 0, before), 0, a, AdStream);
    }
    NotReady(i, Received(Initial(vps), 0, run));
  }

  /** What a stream holds when units have room for nothing. */
  function HeldAtZero(s: Stream, frames: seq<seq<byte>>): seq<UnitInfo> {
    if frames == [] then [UnitInfo(HeaderAt(s, 0), [], 0, false)]
    else [UnitInfo(HeaderAt(s, 0), [], 0, false),
          UnitInfo(HeaderAt(s, 1), [NalInfo(0, |frames[0]|, frames[0])], |frames[0]|, false)]
  }

  lemma ArriveAtZero(s: Stream, frames: seq<seq<byte>>, f: seq<byte>)
    ensures HeldAtZero(s, frames) != []
    ensures Arrive(HeldAtZero(s, frames), 0, f) == HeldAtZero(s, frames + [f])
  {
    hide HeaderAt, NextHeader, Arrive;
    ArriveIs(HeldAtZero(s, frames), 0, f);
    NextHeaderAt(s, 0, 1);
    var u0, u1 := UnitInfo(HeaderAt(s, 0), [], 0, false), UnitInfo(HeaderAt(s, 1), [], 0, false);
    if frames == [] {
      assert [] + [NalInfo(0, |f|, f)] == [NalInfo(0, |f|, f)];
      assert AddNal(u1, 0, f) == UnitInfo(HeaderAt(s, 1), [NalInfo(0, |f|, f)], |f|, false);
      assert [u0] + [AddNal(u1, 0, f)] == [u0, AddNal(u1, 0, f)];
      assert (frames + [f])[0] == f;
    } else {
      var held := HeldAtZero(s, frames);
      assert AddNal(held[1], 0, f) == held[1];
      assert held[1 := held[1]] == held;
      assert (frames + [f])[0] == frames[0];
    }
  }

  /** With a unit size of zero a stream keeps its first frame, in a second unit, and drops all others. */
  lemma {:induction false} ZeroSizeKeepsOne(vps: seq<UnitInfo>, run: seq<Arrival>, s: Stream)
    ensures UnitsOf(Received(Initial(vps), 0, run), s) == HeldAtZero(s, FramesOf(run, s))
    decreases |run|
  {
    hide Arrive, HeldAtZero;
    if run == [] {
      HeldAtStart(vps, s);
    } else {
      var before, a := run[..|run| - 1], run[|run| - 1];
      ZeroSizeKeepsOne(vps, before, s);
      ArriveAtZero(s, FramesOf(before, s), a.payload);
      ReceiveOne(Received(Initial(vps), 0, before), 0, a, s);
    }
  }

  lemma HeldAtStart(vps: seq<UnitInfo>, s: Stream)
    ensures UnitsOf(Initial(vps), s) == HeldAtZero(s, [])
  {
  }

  lemma NotReady(i: nat, l: UnitLists)
    requires NoneReady(UnitsOf(l, AdStream))
    ensures !IsGopReady(i, l)
  {
  }

  // ---------------------------------------------------------------- stability

  lemma {:induction false} FramesOfSplit(run: seq<Arrival>, more: seq<Arrival>, s: Stream)
    ensures FramesOf(run + more, s) == FramesOf(run, s) + FramesOf(more, s)
    decreases |more|
  {
    if more == [] {
      assert run + more == run;
    } else {
      var n := |more| - 1;
      assert (run + more)[..|run| + n] == run + more[..n];
      FramesOfSplit(run, more[..n], s);
    }
  }

  /** A full group stays as it is, whatever arrives later. */
  lemma {:induction false} FullGroupStays(frames: seq<seq<byte>>, more: seq<seq<byte>>, maxSize: nat, j: nat)
    requires maxSize > 0 && j < |Groups(frames, maxSize)| && |Groups(frames, maxSize)[j]| == maxSize
    ensures j < |Groups(frames + more, maxSize)|
    ensures Groups(frames + more, maxSize)[j] == Groups(frames, maxSize)[j]
    decreases j
  {
    var all := frames + more;
    assert all[..maxSize] == frames[..maxSize];
    if j == 0 {
      assert frames[..maxSize] == Groups(frames, maxSize)[0];
    } else {
      assert all[maxSize..] == frames[maxSize..] + more;
      FullGroupStays(frames[maxSize..], more, maxSize, j - 1);
    }
  }

  /** Once unit `i` of a stream is ready, no later arrival changes anything in it. */
  lemma {:induction false} ReadyUnitStays(vps: seq<UnitInfo>, maxSize: nat, run: seq<Arrival>, more: seq<Arrival>,
                                          s: Stream, i: nat)
    requires maxSize > 0
    requires i < |UnitsOf(Received(Initial(vps), maxSize, run), s)|
    requires UnitsOf(Received(Initial(vps), maxSize, run), s)[i].ready
    ensures SameUnit(Received(Initial(vps), maxSize, run), Received(Initial(vps), maxSize, run + more), s, i)
  {
    hide Received, Groups, Slots, FramesOf;
    RunIsCollected(vps, maxSize, run, s);
    RunIsCollected(vps, maxSize, run + more, s);
    FramesOfSplit(run, more, s);
    FullGroupStays(FramesOf(run, s), FramesOf(more, s), maxSize, i);
  }

  predicate SameUnit(l: UnitLists, l': UnitLists, s: Stream, i: nat) {
    i < |UnitsOf(l, s)| && i < |UnitsOf(l', s)| && UnitsOf(l, s)[i] == UnitsOf(l', s)[i]
  }

  /** The five units of a GoP are the same in two maps. */
  predicate SameGop(l: UnitLists, l': UnitLists, i: nat) {
    && i < |l.vps| && i < |l'.vps| && l.vps[i] == l'.vps[i]
    && i < |l.ad| && i < |l'.ad| && l.ad[i] == l'.ad[i]
    && i < |l.ovd| && i < |l'.ovd| && l.ovd[i] == l'.ovd[i]
    && i < |l.gvd| && i < |l'.gvd| && l.gvd[i] == l'.gvd[i]
    && i < |l.avd| && i < |l'.avd| && l.avd[i] == l'.avd[i]
  }

  lemma SameGopSameBytes(l: UnitLists, l': UnitLists, i: nat, hdr: bool)
    requires SameGop(l, l', i)
    ensures Addressable(l, i) <==> Addressable(l', i)
    ensures Addressable(l, i) ==> (GopBytesThere(l, i) <==> GopBytesThere(l', i))
    ensures Addressable(l, i) ==> GopSize(hdr, l, i) == GopSize(hdr, l', i)
    ensures Addressable(l, i) && GopBytesThere(l, i) ==> WrittenGop(hdr, l, i) == WrittenGop(hdr, l', i)
  {
    hide WrittenUnit, BytesThere, WrittenVps, UnitShare, Low32, StreamHeader;
  }

  /**
    Once GoP `i` is ready it stays ready, and no later arrival changes a unit of it, its size, or
    the bytes that are printed for it.
   */
  lemma {:induction false} ReadyGopStays(vps: seq<UnitInfo>, maxSize: nat, run: seq<Arrival>, more: seq<Arrival>,
                                         i: nat, hdr: bool)
    requires maxSize > 0 && IsGopReady(i, Received(Initial(vps), maxSize, run))
    ensures var l, l' := Received(Initial(vps), maxSize, run), Received(Initial(vps), maxSize, run + more);
            && IsGopReady(i, l') && SameGop(l, l', i)
            && (Addressable(l, i) ==>
                 Addressable(l', i) && GopSize(hdr, l, i) == GopSize(hdr, l', i)
                 && (GopBytesThere(l, i) ==>
                      GopBytesThere(l', i) && WrittenGop(hdr, l, i) == WrittenGop(hdr, l', i)))
  {
    hide *;
    var l, l' := Received(Initial(vps), maxSize, run), Received(Initial(vps), maxSize, run + more);
    ReadyUnits(i, l);
    ReadyUnitStays(vps, maxSize, run, more, AdStream, i);
    ReadyUnitStays(vps, maxSize, run, more, OvdStream, i);
    ReadyUnitStays(vps, maxSize, run, more, GvdStream, i);
    ReadyUnitStays(vps, maxSize, run, more, AvdStream, i);
    SameWhen(l, l', i);
    SameGopSameBytes(l, l', i, hdr);
  }

  lemma ReadyUnits(i: nat, l: UnitLists)
    requires IsGopReady(i, l)
    ensures i < |l.vps|
    ensures i < |UnitsOf(l, AdStream)| && UnitsOf(l, AdStream)[i].ready
    ensures i < |UnitsOf(l, OvdStream)| && UnitsOf(l, OvdStream)[i].ready
    ensures i < |UnitsOf(l, GvdStream)| && UnitsOf(l, GvdStream)[i].ready
    ensures i < |UnitsOf(l, AvdStream)| && UnitsOf(l, AvdStream)[i].ready
  {
  }

  lemma SameWhen(l: UnitLists, l': UnitLists, i: nat)
    requires IsGopReady(i, l) && l.vps == l'.vps && i < |l.vps|
    requires SameUnit(l, l', AdStream, i) && SameUnit(l, l', OvdStream, i)
    requires SameUnit(l, l', GvdStream, i) && SameUnit(l, l', AvdStream, i)
    ensures SameGop(l, l', i) && IsGopReady(i, l')
  {
  }
}
