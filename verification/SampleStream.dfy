/**
  V3C sample streams (annexes C and D of ISO/IEC 23090-5) as a grammar: what a well-formed file
  is, independently of the code that maps it. The mapper finds everything where the grammar put it.
 */
module SampleStream {
  import opened Bytes
  import opened V3cTypes
  import opened V3cMapper
  import V3cHeader

  /** A parameter-set unit is one opaque payload; any other unit is a header and NAL units. */
  datatype SampleUnit =
    | ParameterSet(payload: seq<byte>)
    | NalUnits(head: seq<byte>, precisionByte: byte, nals: seq<seq<byte>>)

  function HeaderOf(head: seq<byte>): UnitHeader
    requires |head| == V3C_HDR_LEN
  {
    V3cHeader.Unpack(V3cHeader.Packed(head[0] as u8, head[1] as u8, head[2] as u8, head[3] as u8))
  }

  /** Each NAL unit behind its size, a big-endian integer of `k` bytes. */
  function NalStream(nals: seq<seq<byte>>, k: nat): seq<byte> {
    if nals == [] then [] else BigEndian(|nals[0]|, k) + nals[0] + NalStream(nals[1..], k)
  }

  predicate HeadOk(u: SampleUnit) {
    u.NalUnits? ==> |u.head| == V3C_HDR_LEN && HeaderOf(u.head) != Vps
  }

  function Precision(u: SampleUnit): nat
    requires u.NalUnits? && HeadOk(u)
  {
    if HeaderOf(u.head).IsAtlas() then u.precisionByte / 32 + 1 else 4
  }

  /** What stands between a unit's size and its NAL units. */
  function Prefix(u: SampleUnit): seq<byte>
    requires u.NalUnits? && HeadOk(u)
  {
    if HeaderOf(u.head).IsAtlas() then u.head + [u.precisionByte] else u.head
  }

  function Payload(u: SampleUnit): seq<byte>
    requires HeadOk(u)
  {
    match u
    case ParameterSet(p) => p
    case NalUnits(_, _, nals) => Prefix(u) + NalStream(nals, Precision(u))
  }

  /** A unit of the format, when unit sizes take `k` bytes: everything fits its size field. */
  predicate UnitOk(u: SampleUnit, k: nat) {
    && HeadOk(u)
    && |Payload(u)| < Pow256(k)
    && match u
       case ParameterSet(p) => p != [] && (p[0] as u8) & 0xF8 == 0
       case NalUnits(_, _, nals) => forall n <- nals :: |n| < Pow256(Precision(u))
  }

  /**
    The format allows precisions of one to eight bytes. The mapper gives up on an atlas unit
    with NAL units in it unless the precision is two, three or four.
   */
  predicate Supported(u: SampleUnit) {
    u.NalUnits? && |u.head| == V3C_HDR_LEN && HeaderOf(u.head).IsAtlas() && u.nals != [] ==>
      32 <= u.precisionByte < 128
  }

  predicate AllSupported(us: seq<SampleUnit>) {
    forall u <- us :: Supported(u)
  }

  predicate UnitsOk(us: seq<SampleUnit>, k: nat) {
    forall u <- us :: UnitOk(u, k)
  }

  function UnitBytes(u: SampleUnit, k: nat): seq<byte>
    requires HeadOk(u)
  {
    BigEndian(|Payload(u)|, k) + Payload(u)
  }

  function StreamBytes(us: seq<SampleUnit>, k: nat): seq<byte>
    requires UnitsOk(us, k)
  {
    if us == [] then []
    else
      OkHead(us, k);
      UnitBytes(us[0], k) + StreamBytes(us[1..], k)
  }

  lemma OkHead(us: seq<SampleUnit>, k: nat)
    requires UnitsOk(us, k) && us != []
    ensures UnitOk(us[0], k) && UnitsOk(us[1..], k)
  {
    assert us[0] in us;
  }

  /** Unit size precision, in the three high bits of the first byte. */
  function UnitPrecision(first: byte): nat {
    first / 32 + 1
  }

  function FileBytes(first: byte, us: seq<SampleUnit>): seq<byte>
    requires UnitsOk(us, UnitPrecision(first))
  {
    [first] + StreamBytes(us, UnitPrecision(first))
  }

  // ---------------------------------------------------------------- where everything lies

  function LocatedNals(at: nat, nals: seq<seq<byte>>, k: nat): (r: seq<NalInfo>)
    ensures |r| == |nals|
    decreases |nals|
  {
    if nals == [] then []
    else [NalInfo(at + k, |nals[0]|, [])] + LocatedNals(at + k + |nals[0]|, nals[1..], k)
  }

  function Located(u: SampleUnit, start: nat): UnitInfo
    requires HeadOk(u)
  {
    match u
    case ParameterSet(p) => UnitInfo(Vps, [NalInfo(start, |p|, [])], 0, false)
    case NalUnits(head, _, nals) =>
      UnitInfo(HeaderOf(head), LocatedNals(start + |Prefix(u)|, nals, Precision(u)), 0, false)
  }

  function LocatedAll(us: seq<SampleUnit>, ptr: nat, k: nat): (r: seq<UnitInfo>)
    requires UnitsOk(us, k)
    ensures |r| == |us|
    decreases |us|
  {
    if us == [] then []
    else
      OkHead(us, k);
      [Located(us[0], ptr + k)] + LocatedAll(us[1..], ptr + k + |Payload(us[0])|, k)
  }

  // ---------------------------------------------------------------- the mapper reads the grammar

  lemma {:induction false} SliceIs(m: Mem, at: nat, k: nat)
    requires at + k <= |m|
    ensures Slice(m, at, k) == m[at..at + k]
  {
    if k > 0 {
      SliceIs(m, at, k - 1);
      assert m[at..at + k] == m[at..at + k - 1] + [m[at + k - 1]];
    } else {
      assert m[at..at] == [];
    }
  }

  lemma SizeReads(m: Mem, at: nat, n: nat, k: nat)
    requires Holds(m, at, BigEndian(n, k)) && n < Pow256(k)
    ensures Size(m, at, k) == n
  {
    SliceIs(m, at, k);
    BigEndianRoundTrip(n, k);
  }

  lemma NalStreamParts(m: Mem, at: nat, nals: seq<seq<byte>>, k: nat)
    requires nals != [] && Holds(m, at, NalStream(nals, k))
    ensures Holds(m, at, BigEndian(|nals[0]|, k))
    ensures Holds(m, at + k, nals[0])
    ensures Holds(m, at + k + |nals[0]|, NalStream(nals[1..], k))
    ensures |NalStream(nals, k)| == k + |nals[0]| + |NalStream(nals[1..], k)|
  {
    hide *;
    NalStreamStep(nals, k);
    var n, rest := nals[0], NalStream(nals[1..], k);
    var head := BigEndian(|n|, k);
    Assoc(head, n, rest);
    HoldsParts(m, at, head, n + rest);
    HoldsParts(m, at + k, n, rest);
  }

  lemma NalStreamStep(nals: seq<seq<byte>>, k: nat)
    requires nals != []
    ensures NalStream(nals, k) == BigEndian(|nals[0]|, k) + nals[0] + NalStream(nals[1..], k)
  {
    hide BigEndian;
  }

  lemma LocatedNalsStep(at: nat, nals: seq<seq<byte>>, k: nat)
    ensures LocatedNals(at, nals, k)
         == if nals == [] then []
            else [NalInfo(at + k, |nals[0]|, [])] + LocatedNals(at + k + |nals[0]|, nals[1..], k)
  {
  }

  lemma FirstFits(nals: seq<seq<byte>>, k: nat)
    requires nals != [] && forall n <- nals :: |n| < Pow256(k)
    ensures |nals[0]| < Pow256(k) && forall n <- nals[1..] :: |n| < Pow256(k)
  {
    assert nals[0] in nals;
  }

  lemma PrecisionPositive(k: nat)
    ensures UnitPrecisionOk(k) || NalPrecisionOk(k) ==> k > 0
  {
  }

  lemma EmptyStream(nals: seq<seq<byte>>, k: nat)
    requires k > 0
    ensures NalStream(nals, k) == [] <==> nals == []
  {
  }

  lemma {:induction false} MapsNals(m: Mem, at: nat, nals: seq<seq<byte>>, k: nat)
    requires NalPrecisionOk(k) && forall n <- nals :: |n| < Pow256(k)
    requires Holds(m, at, NalStream(nals, k))
    ensures MapNals(m, at, at + |NalStream(nals, k)|, k) == LocatedNals(at, nals, k)
    decreases |nals|
  {
    hide *;
    PrecisionPositive(k);
    LocatedNalsStep(at, nals, k);
    EmptyStream(nals, k);
    var stop := at + |NalStream(nals, k)|;
    if nals == [] {
      MapNalsEnd(m, at, stop, k);
    } else {
      NalStreamParts(m, at, nals, k);
      FirstFits(nals, k);
      SizeReads(m, at, |nals[0]|, k);
      MapsNals(m, at + k + |nals[0]|, nals[1..], k);
      MapNalsStep(m, at, stop, k);
    }
  }

  lemma HeaderReads(m: Mem, start: nat, head: seq<byte>)
    requires |head| == V3C_HDR_LEN && Holds(m, start, head)
    ensures ParseHeader(m, start) == HeaderOf(head)
  {
    HoldsAt(m, start, head, 0);
    HoldsAt(m, start, head, 1);
    HoldsAt(m, start, head, 2);
    HoldsAt(m, start, head, 3);
  }

  lemma MapsParameterSet(m: Mem, start: nat, p: seq<byte>)
    requires p != [] && (p[0] as u8) & 0xF8 == 0 && Holds(m, start, p)
    ensures ParseHeader(m, start) == Vps
  {
    HoldsAt(m, start, p, 0);
  }

  /** What the mapper reads in front of the NAL units of a unit. */
  lemma NalUnitParts(m: Mem, start: nat, u: SampleUnit, k: nat)
    requires u.NalUnits? && UnitOk(u, k) && Holds(m, start, Payload(u))
    ensures var h := HeaderOf(u.head);
            && ParseHeader(m, start) == h != Vps
            && |Prefix(u)| == (if h.IsAtlas() then V3C_HDR_LEN + 1 else V3C_HDR_LEN)
            && (h.IsAtlas() ==> At(m, start + V3C_HDR_LEN) == u.precisionByte)
            && |Payload(u)| == |Prefix(u)| + |NalStream(u.nals, Precision(u))|
            && Holds(m, start + |Prefix(u)|, NalStream(u.nals, Precision(u)))
  {
    hide NalStream, HeaderOf, ParseHeader;
    HoldsParts(m, start, Prefix(u), NalStream(u.nals, Precision(u)));
    if HeaderOf(u.head).IsAtlas() {
      HoldsParts(m, start, u.head, [u.precisionByte]);
      HoldsAt(m, start + V3C_HDR_LEN, [u.precisionByte], 0);
    }
    HeaderReads(m, start, u.head);
  }

  /** A unit with NAL units: everything is found, or nothing when its precision is not supported. */
  lemma MapsNalUnits(m: Mem, start: nat, u: SampleUnit, k: nat)
    requires u.NalUnits? && UnitOk(u, k) && Holds(m, start, Payload(u))
    ensures MapUnit(m, start, |Payload(u)|) == if Supported(u) then Some(Located(u, start)) else None
  {
    hide *;
    NalUnitFacts(u, k, start);
    NalUnitParts(m, start, u, k);
    MapUnitNals(m, start, |Payload(u)|);
    SupportedPrecision(u);
    EmptyStream(u.nals, Precision(u));
    LocatedNalsStep(start + |Prefix(u)|, u.nals, Precision(u));
    if u.nals != [] && NalPrecisionOk(Precision(u)) {
      MapsNals(m, start + |Prefix(u)|, u.nals, Precision(u));
    }
  }

  lemma SupportedPrecision(u: SampleUnit)
    requires u.NalUnits? && HeadOk(u)
    ensures Precision(u) > 0
    ensures Supported(u) <==> u.nals == [] || NalPrecisionOk(Precision(u))
  {
    hide HeaderOf;
  }

  lemma NalUnitFacts(u: SampleUnit, k: nat, start: nat)
    requires u.NalUnits? && UnitOk(u, k)
    ensures HeadOk(u) && forall n <- u.nals :: |n| < Pow256(Precision(u))
    ensures Precision(u) == if HeaderOf(u.head).IsAtlas() then u.precisionByte / 32 + 1 else 4
    ensures Located(u, start)
         == UnitInfo(HeaderOf(u.head), LocatedNals(start + |Prefix(u)|, u.nals, Precision(u)), 0, false)
  {
    hide HeaderOf, LocatedNals, Prefix, Pow256, Payload;
  }

  lemma MapsUnit(m: Mem, start: nat, u: SampleUnit, k: nat)
    requires UnitOk(u, k) && Holds(m, start, Payload(u))
    ensures MapUnit(m, start, |Payload(u)|) == if Supported(u) then Some(Located(u, start)) else None
  {
    match u
    case ParameterSet(p) =>
      MapsParameterSet(m, start, p);
      MapUnitVps(m, start, |p|);
    case NalUnits(_, _, _) =>
      MapsNalUnits(m, start, u, k);
  }

  lemma StreamUnfolds(us: seq<SampleUnit>, k: nat)
    requires UnitsOk(us, k) && us != []
    ensures UnitOk(us[0], k) && UnitsOk(us[1..], k) && HeadOk(us[0])
    ensures StreamBytes(us, k)
         == BigEndian(|Payload(us[0])|, k) + Payload(us[0]) + StreamBytes(us[1..], k)
  {
    hide Payload, BigEndian, UnitOk;
    OkHead(us, k);
    UnitFits(us[0], k);
  }

  lemma StreamParts(m: Mem, ptr: nat, us: seq<SampleUnit>, k: nat)
    requires UnitsOk(us, k) && us != [] && Holds(m, ptr, StreamBytes(us, k))
    ensures UnitOk(us[0], k) && UnitsOk(us[1..], k)
    ensures var size := |Payload(us[0])|;
            && Holds(m, ptr, BigEndian(size, k))
            && Holds(m, ptr + k, Payload(us[0]))
            && Holds(m, ptr + k + size, StreamBytes(us[1..], k))
            && |StreamBytes(us, k)| == k + size + |StreamBytes(us[1..], k)|
            && LocatedAll(us, ptr, k) == [Located(us[0], ptr + k)] + LocatedAll(us[1..], ptr + k + size, k)
  {
    hide *;
    StreamUnfolds(us, k);
    StreamStep(us, ptr, k);
    var u, rest := us[0], StreamBytes(us[1..], k);
    var head := BigEndian(|Payload(u)|, k);
    Assoc(head, Payload(u), rest);
    HoldsParts(m, ptr, head, Payload(u) + rest);
    HoldsParts(m, ptr + k, Payload(u), rest);
  }

  lemma StreamStep(us: seq<SampleUnit>, ptr: nat, k: nat)
    requires UnitsOk(us, k) && us != []
    ensures UnitOk(us[0], k) && UnitsOk(us[1..], k) && HeadOk(us[0])
    ensures |StreamBytes(us, k)| == k + |Payload(us[0])| + |StreamBytes(us[1..], k)|
    ensures LocatedAll(us, ptr, k)
         == [Located(us[0], ptr + k)] + LocatedAll(us[1..], ptr + k + |Payload(us[0])|, k)
  {
    hide Located, Payload, BigEndian, UnitOk;
    OkHead(us, k);
    UnitFits(us[0], k);
  }

  lemma NoUnitsLeft(m: Mem, ptr: nat, us: seq<SampleUnit>, k: nat)
    requires us == []
    ensures StreamBytes(us, k) == [] && LocatedAll(us, ptr, k) == [] && MapUnits(m, ptr, ptr, k) == []
  {
  }

  lemma MapUnitsHead(m: Mem, len: nat, ptr: nat, k: nat, size: nat, u: UnitInfo)
    requires ptr < len && UnitPrecisionOk(k) && size == Size(m, ptr, k)
    requires MapUnit(m, ptr + k, size) == Some(u)
    ensures MapUnits(m, len, ptr, k) == [u] + MapUnits(m, len, ptr + k + size, k)
  {
    hide Size, MapUnit;
  }

  lemma MapUnitsStop(m: Mem, len: nat, ptr: nat, k: nat)
    requires UnitPrecisionOk(k) ==> MapUnit(m, ptr + k, Size(m, ptr, k)) == None
    ensures MapUnits(m, len, ptr, k) == []
  {
    hide Size, MapUnit;
  }

  lemma UnitFits(u: SampleUnit, k: nat)
    requires UnitOk(u, k)
    ensures HeadOk(u) && |Payload(u)| < Pow256(k)
  {
  }

  /** The units up to the first one that the mapper does not support. */
  function Readable(us: seq<SampleUnit>): (r: seq<SampleUnit>)
    ensures |r| <= |us|
    ensures |r| == |us| <==> AllSupported(us)
  {
    if us == [] then []
    else if !Supported(us[0]) then
      assert us[0] in us;
      []
    else [us[0]] + Readable(us[1..])
  }

  lemma ReadableStep(us: seq<SampleUnit>, k: nat)
    requires us != [] && UnitsOk(us, k)
    ensures UnitsOk(Readable(us), k)
    ensures Readable(us) == if Supported(us[0]) then [us[0]] + Readable(us[1..]) else []
  {
    hide Supported, UnitOk;
    ReadableFrom(us);
  }

  lemma {:induction false} ReadableFrom(us: seq<SampleUnit>)
    ensures forall u <- Readable(us) :: u in us
  {
    hide Supported;
    if us != [] && Supported(us[0]) {
      ReadableFrom(us[1..]);
    }
  }

  lemma LocatedCons(u: SampleUnit, rest: seq<SampleUnit>, ptr: nat, k: nat)
    requires UnitsOk([u] + rest, k)
    ensures UnitOk(u, k) && UnitsOk(rest, k) && HeadOk(u)
    ensures LocatedAll([u] + rest, ptr, k)
         == [Located(u, ptr + k)] + LocatedAll(rest, ptr + k + |Payload(u)|, k)
  {
    hide *;
    var us := [u] + rest;
    assert us[0] == u && us[1..] == rest;
    StreamStep(us, ptr, k);
  }

  /** Nothing to read: an empty stream, or a first unit that the mapper does not support. */
  lemma NothingLocated(ptr: nat, k: nat)
    ensures Readable([]) == [] && UnitsOk([], k) && LocatedAll([], ptr, k) == []
  {
  }

  /** One round on a supported unit: it is found, and the rest of the units are to be found behind it. */
  lemma ReadsOne(m: Mem, ptr: nat, us: seq<SampleUnit>, k: nat) returns (next: nat)
    requires UnitPrecisionOk(k) && UnitsOk(us, k) && us != [] && Supported(us[0])
    requires Holds(m, ptr, StreamBytes(us, k))
    ensures UnitOk(us[0], k) && UnitsOk(us[1..], k) && HeadOk(us[0])
    ensures next == ptr + k + |Payload(us[0])|
    ensures Holds(m, next, StreamBytes(us[1..], k))
    ensures ptr + |StreamBytes(us, k)| == next + |StreamBytes(us[1..], k)|
    ensures MapUnits(m, ptr + |StreamBytes(us, k)|, ptr, k)
         == [Located(us[0], ptr + k)] + MapUnits(m, ptr + |StreamBytes(us, k)|, next, k)
  {
    hide *;
    PrecisionPositive(k);
    StreamParts(m, ptr, us, k);
    UnitFits(us[0], k);
    var size := |Payload(us[0])|;
    next := ptr + k + size;
    SizeReads(m, ptr, size, k);
    MapsUnit(m, ptr + k, us[0], k);
    MapUnitsHead(m, ptr + |StreamBytes(us, k)|, ptr, k, size, Located(us[0], ptr + k));
  }

  lemma StopsAtUnsupported(m: Mem, ptr: nat, us: seq<SampleUnit>, k: nat)
    requires UnitPrecisionOk(k) && UnitsOk(us, k) && us != [] && !Supported(us[0])
    requires Holds(m, ptr, StreamBytes(us, k))
    ensures MapUnits(m, ptr + |StreamBytes(us, k)|, ptr, k) == []
  {
    hide *;
    StreamParts(m, ptr, us, k);
    UnitFits(us[0], k);
    SizeReads(m, ptr, |Payload(us[0])|, k);
    MapsUnit(m, ptr + k, us[0], k);
    MapUnitsStop(m, ptr + |StreamBytes(us, k)|, ptr, k);
  }

  /** On any run of units the mapper finds those up to the first one that it does not support. */
  lemma {:induction false} MapsReadable(m: Mem, ptr: nat, us: seq<SampleUnit>, k: nat)
    requires UnitPrecisionOk(k) && UnitsOk(us, k)
    requires Holds(m, ptr, StreamBytes(us, k))
    ensures UnitsOk(Readable(us), k)
    ensures MapUnits(m, ptr + |StreamBytes(us, k)|, ptr, k) == LocatedAll(Readable(us), ptr, k)
    decreases |us|
  {
    hide *;
    if us == [] {
      NothingLocated(ptr, k);
      NoUnitsLeft(m, ptr, us, k);
    } else {
      ReadableStep(us, k);
      if Supported(us[0]) {
        var next := ReadsOne(m, ptr, us, k);
        MapsReadable(m, next, us[1..], k);
        LocatedCons(us[0], Readable(us[1..]), ptr, k);
      } else {
        NothingLocated(ptr, k);
        StopsAtUnsupported(m, ptr, us, k);
      }
    }
  }

  lemma {:induction false} ReadableIsAll(us: seq<SampleUnit>)
    requires AllSupported(us)
    ensures Readable(us) == us
  {
    if us != [] {
      assert us[0] in us;
      ReadableIsAll(us[1..]);
    }
  }

  /** The file in memory: its first byte, and its units from the second byte on. */
  lemma FileInMemory(first: byte, us: seq<SampleUnit>, beyond: seq<byte>)
    requires UnitsOk(us, UnitPrecision(first))
    ensures var k := UnitPrecision(first);
            var m := FileBytes(first, us) + beyond;
            && |FileBytes(first, us)| == 1 + |StreamBytes(us, k)|
            && Holds(m, 1, StreamBytes(us, k))
            && MapFile(m, |FileBytes(first, us)|) == MapUnits(m, 1 + |StreamBytes(us, k)|, 1, k)
  {
    hide StreamBytes, MapUnits;
    var stream := StreamBytes(us, UnitPrecision(first));
    var m := FileBytes(first, us) + beyond;
    assert At(m, 0) == first;
    assert m[1..1 + |stream|] == stream;
  }

  /**
    On any well-formed sample stream whose precisions the mapper supports it finds every unit and
    every NAL unit, in file order, where the format put it, and nothing behind the file has any
    influence.
   */
  lemma MapsWellFormedFile(first: byte, us: seq<SampleUnit>, beyond: seq<byte>)
    requires UnitPrecisionOk(UnitPrecision(first)) && UnitsOk(us, UnitPrecision(first)) && AllSupported(us)
    ensures var file := FileBytes(first, us);
            MapFile(file + beyond, |file|) == LocatedAll(us, 1, UnitPrecision(first))
  {
    hide *;
    FileInMemory(first, us, beyond);
    MapsReadable(FileBytes(first, us) + beyond, 1, us, UnitPrecision(first));
    ReadableIsAll(us);
  }

  lemma UnsupportedSizes(first: byte)
    ensures UnitPrecisionOk(UnitPrecision(first)) <==> 32 <= first < 96
  {
  }

  /** The map of a file, with nothing found when the precision of unit sizes is not supported. */
  lemma {:induction false} MapsFile(first: byte, us: seq<SampleUnit>, beyond: seq<byte>)
    requires UnitsOk(us, UnitPrecision(first))
    ensures var file := FileBytes(first, us);
            var read := if 32 <= first < 96 then Readable(us) else [];
            && UnitsOk(read, UnitPrecision(first))
            && MapFile(file + beyond, |file|) == LocatedAll(read, 1, UnitPrecision(first))
  {
    hide *;
    FileInMemory(first, us, beyond);
    UnsupportedSizes(first);
    var k := UnitPrecision(first);
    var m := FileBytes(first, us) + beyond;
    if UnitPrecisionOk(k) {
      MapsReadable(m, 1, us, k);
    } else {
      NothingLocated(1, k);
      MapUnitsStop(m, 1 + |StreamBytes(us, k)|, 1, k);
    }
  }
}
