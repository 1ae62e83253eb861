/**
  End to end: frames arrive on four streams, GoPs are rebuilt into a file, and the file is
  mapped again. What is found are the frames that arrived, unit by unit and in order.
 */
module V3cDelivery {
  import opened Bytes
  import opened V3cTypes
  import opened V3cMapper
  import opened V3cWriter
  import opened V3cReceiver
  import opened V3cCodec
  import opened V3cFile
  import V3cHeader

  // ---------------------------------------------------------------- what a receiver holds is writable

  lemma {:induction false} SlotsSum(at: nat, frames: seq<seq<byte>>)
    ensures SumSizes(Slots(at, frames)) == Sum(Lengths(frames))
    decreases |frames|
  {
    if frames != [] {
      assert Lengths(frames)[1..] == Lengths(frames[1..]);
      SlotsSum(at + |frames[0]|, frames[1..]);
    }
  }

  lemma {:induction false} SlotsHoldFrames(at: nat, frames: seq<seq<byte>>)
    ensures forall i :: 0 <= i < |frames| ==>
              Slots(at, frames)[i].buf == frames[i] && Slots(at, frames)[i].size == |frames[i]|
    decreases |frames|
  {
    if frames != [] {
      SlotsHoldFrames(at + |frames[0]|, frames[1..]);
    }
  }

  function NalPrecisionOf(s: Stream): nat {
    if s == AdStream then ATLAS_NAL_SIZE_PRECISION else VIDEO_NAL_SIZE_PRECISION
  }

  /** The frames of a unit fit their size fields, and the unit fits its own. */
  predicate GroupFits(s: Stream, group: seq<seq<byte>>) {
    && V3C_HDR_LEN + (if s == AdStream then 1 else 0) + Sum(Lengths(group)) + |group| * NalPrecisionOf(s)
       < Pow256(V3C_SIZE_PRECISION)
    && forall f <- group :: |f| < Pow256(NalPrecisionOf(s))
  }

  lemma UnitFromParts(s: Stream, n: nat, group: seq<seq<byte>>, maxSize: nat)
    ensures var u := UnitFrom(s, n, group, maxSize);
            && u.header == HeaderAt(s, n) && u.nalInfos == Slots(0, group) && u.ptr == Sum(Lengths(group))
  {
    hide HeaderAt, Slots, Sum, Lengths;
  }

  lemma StreamHeaderKind(s: Stream, n: nat)
    ensures HoldsNals(HeaderAt(s, n)) && (HeaderAt(s, n).IsAtlas() <==> s == AdStream)
    ensures if s == AdStream then NalPrecisionOk(NalPrecisionOf(s)) else NalPrecisionOf(s) == 4
  {
  }

  lemma UnitFromWritable(s: Stream, n: nat, group: seq<seq<byte>>, maxSize: nat)
    requires GroupFits(s, group)
    ensures Writable(UnitFrom(s, n, group, maxSize), NalPrecisionOf(s))
  {
    hide HeaderAt, UnitFrom, Slots, SumSizes, Sum, Lengths, Pow256, NalPrecisionOf, UnitHeader.IsAtlas, HoldsNals;
    var u := UnitFrom(s, n, group, maxSize);
    UnitFromParts(s, n, group, maxSize);
    StreamHeaderKind(s, n);
    SlotsSum(0, group);
    SlotsHoldFrames(0, group);
    forall x | x in u.nalInfos
      ensures x.size == |x.buf| < Pow256(NalPrecisionOf(s))
    {
      var i :| 0 <= i < |group| && u.nalInfos[i] == x;
      assert group[i] in group;
    }
  }

  /** GoP `i` of a run is ready, and everything in it fits its size field. */
  ghost predicate ReadyAndFits(vps: seq<UnitInfo>, maxSize: nat, run: seq<Arrival>, i: nat)
    requires maxSize > 0
  {
    && i < |vps| && VpsOk(vps[i])
    && IsGopReady(i, Received(Initial(vps), maxSize, run))
    && forall s :: i < |Groups(FramesOf(run, s), maxSize)| ==> GroupFits(s, Groups(FramesOf(run, s), maxSize)[i])
  }

  /** The first `g` GoPs of a run can be rebuilt. */
  ghost predicate RunOk(vps: seq<UnitInfo>, maxSize: nat, run: seq<Arrival>, g: nat) {
    maxSize > 0 && forall i :: 0 <= i < g ==> ReadyAndFits(vps, maxSize, run, i)
  }

  lemma UnitIsReady(l: UnitLists, i: nat, s: Stream)
    requires IsGopReady(i, l)
    ensures i < |UnitsOf(l, s)| && UnitsOf(l, s)[i].ready
  {
  }

  /** A ready GoP of a run, stream by stream. */
  lemma ReadyUnit(vps: seq<UnitInfo>, maxSize: nat, run: seq<Arrival>, i: nat, s: Stream)
    requires maxSize > 0 && ReadyAndFits(vps, maxSize, run, i)
    ensures var units := UnitsOf(Received(Initial(vps), maxSize, run), s);
            var groups := Groups(FramesOf(run, s), maxSize);
            && i < |units| && i < |groups| && units[i] == UnitFrom(s, i, groups[i], maxSize)
            && GroupFits(s, groups[i]) && |groups[i]| == maxSize
  {
    hide Received, FramesOf, Groups, GroupFits, VpsOk, Slots, IsGopReady;
    RunIsCollected(vps, maxSize, run, s);
    UnitIsReady(Received(Initial(vps), maxSize, run), i, s);
  }

  lemma StreamWritable(vps: seq<UnitInfo>, maxSize: nat, run: seq<Arrival>, i: nat, s: Stream)
    requires maxSize > 0 && ReadyAndFits(vps, maxSize, run, i)
    ensures var units := UnitsOf(Received(Initial(vps), maxSize, run), s);
            i < |units| && Writable(units[i], NalPrecisionOf(s)) && units[i].header == HeaderAt(s, i)
  {
    hide Received, Groups, FramesOf, Writable, GroupFits, Slots, ReadyAndFits;
    ReadyUnit(vps, maxSize, run, i, s);
    var group := Groups(FramesOf(run, s), maxSize)[i];
    UnitFromWritable(s, i, group, maxSize);
  }

  lemma GopIsWritable(vps: seq<UnitInfo>, maxSize: nat, run: seq<Arrival>, i: nat)
    requires maxSize > 0 && ReadyAndFits(vps, maxSize, run, i)
    ensures GopOk(Received(Initial(vps), maxSize, run), i)
  {
    hide Received, Writable, IsGopReady;
    StreamWritable(vps, maxSize, run, i, AdStream);
    StreamWritable(vps, maxSize, run, i, OvdStream);
    StreamWritable(vps, maxSize, run, i, GvdStream);
    StreamWritable(vps, maxSize, run, i, AvdStream);
  }

  lemma RunIsWritable(vps: seq<UnitInfo>, maxSize: nat, run: seq<Arrival>, g: nat)
    requires RunOk(vps, maxSize, run, g)
    ensures GopsOk(Received(Initial(vps), maxSize, run), g)
  {
    hide Received, ReadyAndFits, GopOk;
    var l := Received(Initial(vps), maxSize, run);
    forall i | 0 <= i < g
      ensures GopOk(l, i)
    {
      GopIsWritable(vps, maxSize, run, i);
    }
  }

  // ---------------------------------------------------------------- end to end

  /** The header that comes back for unit `i`: the low four bits of its number as id. */
  function HeaderRead(s: Stream, i: nat): UnitHeader {
    var id := (i % 16) as u8;
    match s
    case AdStream => Ad(id, 0)
    case OvdStream => Ovd(id, 0)
    case GvdStream => Gvd(id, 0, 0, false)
    case AvdStream => Avd(id, 0, 0, 0, 0, false)
  }

  lemma RemainderIs(n: nat, q: nat, r: nat)
    requires n == 16 * q + r && r < 16
    ensures n % 16 == r
  {
    hide *;
  }

  lemma ModOfMod(n: nat)
    ensures n % 256 % 16 == n % 16
  {
    hide *;
    var q, r := n / 256, n % 256;
    RemainderIs(n, 16 * q + r / 16, r % 16);
  }

  lemma LowNibble(n: nat)
    ensures ((n % 256) as u8) & 0x0F == (n % 16) as u8
  {
    ModOfMod(n);
    LowNibbleOfByte(n % 256);
  }

  lemma LowNibbleOfByte(b: byte)
    ensures (b as u8) & 0x0F == (b % 16) as u8
  {
    V3cHeader.MaskIsMod(b as u8);
    V3cHeader.ModOfBits(b as u8);
    V3cHeader.BitsOfByte(b);
  }

  lemma IdBack(id: u8)
    ensures HeaderBack(Ad(id, 0)) == Ad(id & 0x0F, 0)
    ensures HeaderBack(Ovd(id, 0)) == Ovd(id & 0x0F, 0)
    ensures HeaderBack(Gvd(id, 0, 0, false)) == Gvd(id & 0x0F, 0, 0, false)
    ensures HeaderBack(Avd(id, 0, 0, 0, 0, false)) == Avd(id & 0x0F, 0, 0, 0, 0, false)
  {
  }

  lemma {:induction false} HeaderComesBack(s: Stream, i: nat)
    ensures HeaderBack(HeaderAt(s, i)) == HeaderRead(s, i)
  {
    hide HeaderBack;
    LowNibble(i);
    IdBack((i % 256) as u8);
  }

  /** The number of the frame at slot `k` of unit `i`. */
  function FrameIndex(i: nat, maxSize: nat, k: nat): nat {
    NonNegative(i, maxSize);
    i * maxSize + k
  }

  /** A mapped unit shows unit `i` of a stream: its header, and its frames in order. */
  predicate UnitIsFrames(m: Mem, got: UnitInfo, s: Stream, frames: seq<seq<byte>>, maxSize: nat, i: nat) {
    && got.header == HeaderRead(s, i)
    && |got.nalInfos| == maxSize
    && forall k :: 0 <= k < maxSize ==>
         FrameIndex(i, maxSize, k) < |frames| && Shows(m, got.nalInfos[k], frames[FrameIndex(i, maxSize, k)])
  }

  /** A list of a mapped file shows the first `g` units of a stream. */
  predicate StreamShown(m: Mem, got: seq<UnitInfo>, s: Stream, frames: seq<seq<byte>>, maxSize: nat, g: nat) {
    |got| == g && forall i :: 0 <= i < g ==> UnitIsFrames(m, got[i], s, frames, maxSize, i)
  }

  /** In a full group, slot `k` holds frame i * maxSize + k. */
  lemma FullGroupFrames(frames: seq<seq<byte>>, maxSize: nat, i: nat, k: nat)
    requires maxSize > 0 && k < maxSize
    requires i < |Groups(frames, maxSize)| && |Groups(frames, maxSize)[i]| == maxSize
    ensures FrameIndex(i, maxSize, k) < |frames|
    ensures Groups(frames, maxSize)[i][k] == frames[FrameIndex(i, maxSize, k)]
  {
    FullGroup(frames, maxSize, i);
    MulOneMore(i, maxSize);
    NonNegative(i, maxSize);
    GroupAt(frames, maxSize, i, k);
  }

  lemma UnitShown(m: Mem, got: UnitInfo, s: Stream, i: nat, frames: seq<seq<byte>>, maxSize: nat)
    requires maxSize > 0 && i < |Groups(frames, maxSize)|
    requires |Groups(frames, maxSize)[i]| == maxSize
    requires Mirrors(m, got, UnitFrom(s, i, Groups(frames, maxSize)[i], maxSize))
    ensures UnitIsFrames(m, got, s, frames, maxSize, i)
  {
    hide HeaderBack, Groups, Slots, Shows, HeaderRead, HeaderAt, FrameIndex;
    var group := Groups(frames, maxSize)[i];
    HeaderComesBack(s, i);
    SlotsHoldFrames(0, group);
    forall k | 0 <= k < maxSize
      ensures FrameIndex(i, maxSize, k) < |frames| && Shows(m, got.nalInfos[k], frames[FrameIndex(i, maxSize, k)])
    {
      FullGroupFrames(frames, maxSize, i, k);
      assert Shows(m, got.nalInfos[k], group[k]);
    }
  }

  lemma ListIsStream(m: Mem, got: seq<UnitInfo>, vps: seq<UnitInfo>, maxSize: nat, run: seq<Arrival>, g: nat, s: Stream)
    requires RunOk(vps, maxSize, run, g)
    requires ListShown(m, got, UnitsOf(Received(Initial(vps), maxSize, run), s), g)
    ensures StreamShown(m, got, s, FramesOf(run, s), maxSize, g)
  {
    hide Received, FramesOf, Groups, Mirrors, GroupFits, UnitIsFrames, ReadyAndFits, UnitFrom;
    forall i | 0 <= i < g
      ensures UnitIsFrames(m, got[i], s, FramesOf(run, s), maxSize, i)
    {
      ReadyUnit(vps, maxSize, run, i, s);
      UnitShown(m, got[i], s, i, FramesOf(run, s), maxSize);
    }
  }

  /**
    The end-to-end round trip. Frames arrive in any interleaving; the first `g` GoPs are ready
    and fit their size fields; their file is rebuilt and mapped. Then the slices found for unit i
    of each stream are frames i * maxSize to (i + 1) * maxSize - 1 of that stream, in order, with
    parameter-set id i mod 16, the VPS units are those that were given, and no other unit is found.
   */
  lemma {:induction false} EndToEnd(vps: seq<UnitInfo>, maxSize: nat, run: seq<Arrival>, g: nat, beyond: seq<byte>)
    requires RunOk(vps, maxSize, run, g) && g > 0
    ensures GopsOk(Received(Initial(vps), maxSize, run), g)
    ensures var file := WrittenFile(Received(Initial(vps), maxSize, run), g);
            var m := file + beyond;
            var r := NO_UNITS.StoreAll(MapFile(m, |file|));
            && VpsShown(m, r.vps, vps, g)
            && StreamShown(m, r.ad, AdStream, FramesOf(run, AdStream), maxSize, g)
            && StreamShown(m, r.ovd, OvdStream, FramesOf(run, OvdStream), maxSize, g)
            && StreamShown(m, r.gvd, GvdStream, FramesOf(run, GvdStream), maxSize, g)
            && StreamShown(m, r.avd, AvdStream, FramesOf(run, AvdStream), maxSize, g)
            && r.pvd == [] && r.cad == []
  {
    hide *;
    var l := Received(Initial(vps), maxSize, run);
    RunIsWritable(vps, maxSize, run, g);
    FileRoundTrip(l, g, beyond);
    var file := WrittenFile(l, g);
    var m := file + beyond;
    var r := NO_UNITS.StoreAll(MapFile(m, |file|));
    RecoveredLists(m, r, vps, maxSize, run, g);
    ListIsStream(m, r.ad, vps, maxSize, run, g, AdStream);
    ListIsStream(m, r.ovd, vps, maxSize, run, g, OvdStream);
    ListIsStream(m, r.gvd, vps, maxSize, run, g, GvdStream);
    ListIsStream(m, r.avd, vps, maxSize, run, g, AvdStream);
  }

  lemma RecoveredLists(m: Mem, r: UnitLists, vps: seq<UnitInfo>, maxSize: nat, run: seq<Arrival>, g: nat)
    requires Recovered(m, r, Received(Initial(vps), maxSize, run), g)
    ensures var l := Received(Initial(vps), maxSize, run);
            && VpsShown(m, r.vps, vps, g) && r.pvd == [] && r.cad == []
            && ListShown(m, r.ad, UnitsOf(l, AdStream), g) && ListShown(m, r.ovd, UnitsOf(l, OvdStream), g)
            && ListShown(m, r.gvd, UnitsOf(l, GvdStream), g) && ListShown(m, r.avd, UnitsOf(l, AvdStream), g)
  {
    hide Received, ListShown, VpsShown;
  }
}
