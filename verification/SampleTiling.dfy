/**
  How the mapper's result covers a sample stream (Annexes C and D of ISO/IEC 23090-5): the
  units tile the file, the NAL units tile each unit, and the list of each unit type is the
  file-order subsequence of that type.
 */
module SampleTiling {
  import opened Bytes
  import opened V3cTypes
  import opened V3cMapper
  import opened SampleStream
  import V3cHeader

  /** Size fields of `k` bytes and NAL units alternate from `at` to `stop`, with nothing between. */
  predicate NalsTile(m: Mem, at: nat, stop: nat, nals: seq<NalInfo>, k: nat)
    decreases |nals|
  {
    if nals == [] then at == stop
    else
      && nals[0].location == at + k
      && nals[0].size == Size(m, at, k)
      && NalsTile(m, at + k + nals[0].size, stop, nals[1..], k)
  }

  /** The payload of `size` bytes at `start` is one NAL unit, or a header and sized NAL units. */
  predicate UnitTiled(m: Mem, start: nat, size: nat, u: UnitInfo) {
    && u.header == ParseHeader(m, start)
    && if u.header == Vps then u.nalInfos == [NalInfo(start, size, [])]
       else NalsTile(m, NalStart(m, start), start + size, u.nalInfos, NalPrecision(m, start))
  }

  /** Size fields of `k` bytes and payloads alternate from `ptr` to `stop`, with nothing between. */
  predicate UnitsTile(m: Mem, ptr: nat, stop: nat, us: seq<UnitInfo>, k: nat)
    decreases |us|
  {
    if us == [] then ptr == stop
    else
      && UnitTiled(m, ptr + k, Size(m, ptr, k), us[0])
      && UnitsTile(m, ptr + k + Size(m, ptr, k), stop, us[1..], k)
  }

  lemma NalsTileCons(m: Mem, at: nat, stop: nat, n: NalInfo, rest: seq<NalInfo>, k: nat)
    requires n.location == at + k && n.size == Size(m, at, k)
    requires NalsTile(m, at + k + n.size, stop, rest, k)
    ensures NalsTile(m, at, stop, [n] + rest, k)
  {
    hide Size;
    assert ([n] + rest)[1..] == rest;
  }

  lemma UnitsTileCons(m: Mem, ptr: nat, stop: nat, u: UnitInfo, rest: seq<UnitInfo>, k: nat)
    requires UnitTiled(m, ptr + k, Size(m, ptr, k), u)
    requires UnitsTile(m, ptr + k + Size(m, ptr, k), stop, rest, k)
    ensures UnitsTile(m, ptr, stop, [u] + rest, k)
  {
    hide UnitTiled, Size;
    assert ([u] + rest)[1..] == rest;
  }

  lemma NothingToTile(m: Mem, at: nat, k: nat)
    ensures NalsTile(m, at, at, [], k) && UnitsTile(m, at, at, [], k)
    ensures NalStream([], k) == [] && LocatedNals(at, [], k) == []
  {
  }

  lemma {:induction false} LocatedNalsTile(m: Mem, at: nat, nals: seq<seq<byte>>, k: nat)
    requires forall n <- nals :: |n| < Pow256(k)
    requires Holds(m, at, NalStream(nals, k))
    ensures NalsTile(m, at, at + |NalStream(nals, k)|, LocatedNals(at, nals, k), k)
    decreases |nals|
  {
    hide *;
    if nals == [] {
      NothingToTile(m, at, k);
    } else {
      NalStreamParts(m, at, nals, k);
      FirstFits(nals, k);
      SizeReads(m, at, |nals[0]|, k);
      LocatedNalsStep(at, nals, k);
      var next := at + k + |nals[0]|;
      LocatedNalsTile(m, next, nals[1..], k);
      NalsTileCons(m, at, at + |NalStream(nals, k)|, NalInfo(at + k, |nals[0]|, []),
                   LocatedNals(next, nals[1..], k), k);
    }
  }

  lemma NalUnitTiled(m: Mem, start: nat, size: nat, u: UnitInfo)
    requires u.header == ParseHeader(m, start) != Vps
    requires NalsTile(m, NalStart(m, start), start + size, u.nalInfos, NalPrecision(m, start))
    ensures UnitTiled(m, start, size, u)
  {
  }

  lemma NalArea(m: Mem, start: nat)
    ensures var h := ParseHeader(m, start);
            && NalStart(m, start) == start + (if h.IsAtlas() then V3C_HDR_LEN + 1 else V3C_HDR_LEN)
            && NalPrecision(m, start) == if h.IsAtlas() then At(m, start + V3C_HDR_LEN) / 32 + 1 else 4
  {
    hide ParseHeader, At;
  }

  lemma LocatedNalUnitTiled(m: Mem, start: nat, u: SampleUnit, k: nat)
    requires u.NalUnits? && UnitOk(u, k) && Holds(m, start, Payload(u))
    ensures UnitTiled(m, start, |Payload(u)|, Located(u, start))
  {
    hide *;
    NalUnitFacts(u, k, start);
    NalUnitParts(m, start, u, k);
    NalArea(m, start);
    LocatedNalsTile(m, start + |Prefix(u)|, u.nals, Precision(u));
    NalUnitTiled(m, start, |Payload(u)|, Located(u, start));
  }

  lemma LocatedUnitTiled(m: Mem, start: nat, u: SampleUnit, k: nat)
    requires UnitOk(u, k) && Holds(m, start, Payload(u))
    ensures UnitTiled(m, start, |Payload(u)|, Located(u, start))
  {
    if u.ParameterSet? {
      MapsParameterSet(m, start, u.payload);
      hide ParseHeader;
    } else {
      LocatedNalUnitTiled(m, start, u, k);
    }
  }

  lemma {:induction false} LocatedAllTile(m: Mem, ptr: nat, us: seq<SampleUnit>, k: nat)
    requires UnitsOk(us, k) && Holds(m, ptr, StreamBytes(us, k))
    ensures UnitsTile(m, ptr, ptr + |StreamBytes(us, k)|, LocatedAll(us, ptr, k), k)
    decreases |us|
  {
    hide *;
    if us == [] {
      NoUnitsLeft(m, ptr, us, k);
      NothingToTile(m, ptr, k);
    } else {
      StreamParts(m, ptr, us, k);
      UnitFits(us[0], k);
      var size := |Payload(us[0])|;
      SizeReads(m, ptr, size, k);
      LocatedUnitTiled(m, ptr + k, us[0], k);
      LocatedAllTile(m, ptr + k + size, us[1..], k);
      UnitsTileCons(m, ptr, ptr + |StreamBytes(us, k)|, Located(us[0], ptr + k),
                    LocatedAll(us[1..], ptr + k + size, k), k);
    }
  }

  /** The units found in a well-formed file tile it from its second byte to its end. */
  lemma {:induction false} FileTiled(first: byte, us: seq<SampleUnit>, beyond: seq<byte>)
    requires UnitPrecisionOk(UnitPrecision(first)) && UnitsOk(us, UnitPrecision(first)) && AllSupported(us)
    ensures var file := FileBytes(first, us);
            var m := file + beyond;
            UnitsTile(m, 1, |file|, MapFile(m, |file|), UnitPrecision(first))
  {
    hide *;
    FileInMemory(first, us, beyond);
    MapsWellFormedFile(first, us, beyond);
    LocatedAllTile(FileBytes(first, us) + beyond, 1, us, UnitPrecision(first));
  }

  // ---------------------------------------------------------------- the lists

  /** The units of one type, in file order. */
  function OfType(us: seq<UnitInfo>, t: u8): seq<UnitInfo> {
    if us == [] then []
    else (if us[0].header.Type() == t then [us[0]] else []) + OfType(us[1..], t)
  }

  /** The list in which the map keeps units of a type that the programs know. */
  function ListOf(l: UnitLists, t: u8): seq<UnitInfo>
    requires t < 7
  {
    if t == 0 then l.vps else if t == 1 then l.ad else if t == 2 then l.ovd else if t == 3 then l.gvd
    else if t == 4 then l.avd else if t == 5 then l.pvd else l.cad
  }

  lemma StoreOne(l: UnitLists, u: UnitInfo, t: u8)
    requires t < 7 && (u.header.Other? ==> u.header.unitType >= 7)
    ensures ListOf(l.Store(u), t) == ListOf(l, t) + if u.header.Type() == t then [u] else []
  {
  }

  /** The headers that the parser makes: unknown types are 7 and above. */
  predicate Parsed(us: seq<UnitInfo>) {
    forall u <- us :: u.header.Other? ==> u.header.unitType >= 7
  }

  /** After storing units, each list has grown by exactly the units of its type, in order. */
  lemma {:induction false} ListsByType(l: UnitLists, us: seq<UnitInfo>, t: u8)
    requires t < 7 && Parsed(us)
    ensures ListOf(l.StoreAll(us), t) == ListOf(l, t) + OfType(us, t)
    decreases us
  {
    hide ListOf, UnitLists.Store;
    if us != [] {
      assert us[0] in us;
      StoreOne(l, us[0], t);
      ListsByType(l.Store(us[0]), us[1..], t);
    }
  }

  lemma UnpackKnows(p: V3cHeader.Packed)
    ensures V3cHeader.Unpack(p).Other? ==> V3cHeader.Unpack(p).unitType >= 7
  {
  }

  lemma MappedHeader(m: Mem, start: nat, size: nat)
    ensures MapUnit(m, start, size).Some? ==> MapUnit(m, start, size).value.header == ParseHeader(m, start)
    ensures ParseHeader(m, start).Other? ==> ParseHeader(m, start).unitType >= 7
  {
    UnpackKnows(V3cHeader.Packed(At(m, start) as u8, At(m, start + 1) as u8,
                                 At(m, start + 2) as u8, At(m, start + 3) as u8));
    hide V3cHeader.Unpack, MapNals, NalStart, NalPrecision, At;
  }

  lemma MapUnitsShape(m: Mem, len: nat, ptr: nat, k: nat)
    ensures var next := MapUnit(m, ptr + k, Size(m, ptr, k));
            MapUnits(m, len, ptr, k) ==
            if ptr >= len || !UnitPrecisionOk(k) || next.None? then []
            else [next.value] + MapUnits(m, len, ptr + k + Size(m, ptr, k), k)
    ensures Parsed([])
  {
    hide MapUnit, Size;
  }

  lemma ParsedCons(u: UnitInfo, rest: seq<UnitInfo>)
    requires Parsed(rest) && (u.header.Other? ==> u.header.unitType >= 7)
    ensures Parsed([u] + rest)
  {
  }

  lemma {:induction false} MappedParsed(m: Mem, len: nat, ptr: nat, k: nat)
    ensures Parsed(MapUnits(m, len, ptr, k))
    decreases len - ptr
  {
    hide MapUnit, MapUnits, ParseHeader, Size, Parsed;
    MapUnitsShape(m, len, ptr, k);
    if ptr < len && UnitPrecisionOk(k) && MapUnit(m, ptr + k, Size(m, ptr, k)).Some? {
      MappedHeader(m, ptr + k, Size(m, ptr, k));
      MappedParsed(m, len, ptr + k + Size(m, ptr, k), k);
      ParsedCons(MapUnit(m, ptr + k, Size(m, ptr, k)).value, MapUnits(m, len, ptr + k + Size(m, ptr, k), k));
    }
  }

  /** On any input at all, each list of the map is the subsequence of its type of the units found. */
  lemma MapByType(m: Mem, len: nat, t: u8)
    requires t < 7
    ensures ListOf(NO_UNITS.StoreAll(MapFile(m, len)), t) == OfType(MapFile(m, len), t)
  {
    hide MapUnits, UnitLists.StoreAll, OfType, Parsed, At;
    var found := MapFile(m, len);
    MappedParsed(m, len, 1, At(m, 0) / 32 + 1);
    ListsByType(NO_UNITS, found, t);
    assert ListOf(NO_UNITS, t) == [];
  }

  /** List by list. */
  lemma MapLists(m: Mem, len: nat)
    ensures var found := MapFile(m, len);
            var l := NO_UNITS.StoreAll(found);
            && l.vps == OfType(found, 0) && l.ad == OfType(found, 1) && l.ovd == OfType(found, 2)
            && l.gvd == OfType(found, 3) && l.avd == OfType(found, 4) && l.pvd == OfType(found, 5)
            && l.cad == OfType(found, 6)
  {
    hide MapFile, UnitLists.StoreAll, OfType;
    MapByType(m, len, 0);
    MapByType(m, len, 1);
    MapByType(m, len, 2);
    MapByType(m, len, 3);
    MapByType(m, len, 4);
    MapByType(m, len, 5);
    MapByType(m, len, 6);
  }

  // ---------------------------------------------------------------- when the map is complete

  /** A unit of a type that has a list; types 7 to 31 are reserved and have none. */
  predicate HasList(u: SampleUnit) {
    u.NalUnits? && |u.head| == V3C_HDR_LEN ==> !HeaderOf(u.head).Other?
  }

  /** Number of units whose type has a list. */
  function Listed(us: seq<UnitInfo>): nat {
    if us == [] then 0 else (if us[0].header.Other? then 0 else 1) + Listed(us[1..])
  }

  lemma StoreCounts(l: UnitLists, u: UnitInfo)
    ensures l.Store(u).Count() == l.Count() + if u.header.Other? then 0 else 1
  {
  }

  /** Every unit whose type has a list is stored once, and no other unit. */
  lemma {:induction false} StoreAllCounts(l: UnitLists, us: seq<UnitInfo>)
    ensures l.StoreAll(us).Count() == l.Count() + Listed(us)
    decreases |us|
  {
    hide UnitLists.Store, UnitLists.Count;
    if us != [] {
      StoreCounts(l, us[0]);
      StoreAllCounts(l.Store(us[0]), us[1..]);
    }
  }

  lemma LocatedHasList(u: SampleUnit, start: nat)
    requires HeadOk(u)
    ensures Located(u, start).header.Other? <==> !HasList(u)
  {
    hide HeaderOf, LocatedNals, Prefix, Precision;
  }

  lemma ListedStep(u: UnitInfo, rest: seq<UnitInfo>)
    ensures Listed([]) == 0
    ensures Listed([u] + rest) == (if u.header.Other? then 0 else 1) + Listed(rest)
  {
    assert ([u] + rest)[1..] == rest;
  }

  predicate AllHaveLists(us: seq<SampleUnit>) {
    forall u <- us :: HasList(u)
  }

  lemma AllHaveListsStep(us: seq<SampleUnit>)
    ensures us == [] ==> AllHaveLists(us)
    ensures us != [] ==> (AllHaveLists(us) <==> HasList(us[0]) && AllHaveLists(us[1..]))
  {
    hide HasList;
    assert us != [] ==> us[0] in us && forall u <- us :: u == us[0] || u in us[1..];
  }

  lemma {:induction false} LocatedListed(us: seq<SampleUnit>, ptr: nat, k: nat)
    requires UnitsOk(us, k)
    ensures Listed(LocatedAll(us, ptr, k)) <= |us|
    ensures Listed(LocatedAll(us, ptr, k)) == |us| <==> AllHaveLists(us)
    decreases |us|
  {
    hide *;
    AllHaveListsStep(us);
    if us == [] {
      NothingLocated(ptr, k);
      ListedStep(UnitInfo(Vps, [], 0, false), []);
    } else {
      StreamStep(us, ptr, k);
      var next := ptr + k + |Payload(us[0])|;
      LocatedHasList(us[0], ptr + k);
      LocatedListed(us[1..], next, k);
      ListedStep(Located(us[0], ptr + k), LocatedAll(us[1..], next, k));
    }
  }

  lemma CountOfNone()
    ensures NO_UNITS.Count() == 0 && AllSupported([]) && AllHaveLists([])
  {
  }

  lemma CompletenessIs(us: seq<SampleUnit>, k: nat)
    requires UnitsOk(us, k)
    ensures forall u <- us :: HeadOk(u)
    ensures AllHaveLists(us) <==> forall u <- us :: u.NalUnits? ==> !HeaderOf(u.head).Other?
  {
    hide HeaderOf, UnitOk;
    forall u | u in us ensures HeadOk(u) && (u.NalUnits? ==> |u.head| == V3C_HDR_LEN) {
      UnitFits(u, k);
    }
  }

  /**
    When the map of a file is complete, all its units standing in the seven lists: exactly when
    there is no unit, or the first byte asks for unit sizes of two or three bytes, every atlas unit
    with NAL units for NAL sizes of two to four, and no unit has a reserved type. Otherwise units
    are missing, and the program's result does not tell.
   */
  lemma {:induction false} MapIsComplete(first: byte, us: seq<SampleUnit>, beyond: seq<byte>)
    requires UnitsOk(us, UnitPrecision(first))
    ensures forall u <- us :: HeadOk(u)
    ensures var file := FileBytes(first, us);
            (NO_UNITS.StoreAll(MapFile(file + beyond, |file|)).Count() == |us|
             <==> us == [] || (&& 32 <= first < 96 && AllSupported(us)
                               && forall u <- us :: u.NalUnits? ==> !HeaderOf(u.head).Other?))
  {
    hide *;
    var k := UnitPrecision(first);
    var read := if 32 <= first < 96 then Readable(us) else [];
    CountOfNone();
    CompletenessIs(us, k);
    MapsFile(first, us, beyond);
    StoreAllCounts(NO_UNITS, LocatedAll(read, 1, k));
    LocatedListed(read, 1, k);
    if AllSupported(us) {
      ReadableIsAll(us);
    }
  }

  /** A parameter set behind a size of one byte: a well-formed file of which nothing is mapped. */
  lemma SilentFailure()
    ensures var us := [ParameterSet([0, 0, 0, 0])];
            && UnitsOk(us, UnitPrecision(0))
            && FileBytes(0, us) == [0, 4, 0, 0, 0, 0]
            && MapFile(FileBytes(0, us), 6) == []
  {
    var u := ParameterSet([0, 0, 0, 0]);
    assert UnitOk(u, 1) by { assert Pow256(1) == 256 * Pow256(0); }
    assert StreamBytes([u], 1) == UnitBytes(u, 1) + StreamBytes([], 1);
    assert BigEndian(4, 1) == BigEndian(0, 0) + [4];
  }

  lemma BigEndianOfFour()
    ensures BigEndian(4, 3) == [0, 0, 4] && Pow256(3) > 4
  {
    assert BigEndian(0, 1) == BigEndian(0, 0) + [0] == [0];
    assert BigEndian(0, 2) == BigEndian(0, 1) + [0];
    assert BigEndian(4, 3) == BigEndian(0, 2) + [4];
    assert Pow256(3) == 256 * Pow256(2) && Pow256(2) == 256 * Pow256(1);
  }

  const RESERVED := NalUnits([0x38, 0, 0, 0], 0, [])

  lemma ReservedUnit()
    ensures HeadOk(RESERVED) && HeaderOf(RESERVED.head).Other? && Supported(RESERVED)
    ensures Payload(RESERVED) == [0x38, 0, 0, 0]
    ensures Located(RESERVED, 4).nalInfos == [] && Located(RESERVED, 4).header.Other?
  {
    assert HeaderOf(RESERVED.head) == Other(7);
  }

  /** A unit of reserved type 7, with supported precisions: it is found, and stored in no list. */
  lemma ReservedTypeIsDropped()
    ensures UnitsOk([RESERVED], UnitPrecision(64)) && AllSupported([RESERVED])
    ensures var file := FileBytes(64, [RESERVED]);
            && file == [64, 0, 0, 4, 0x38, 0, 0, 0]
            && |MapFile(file, |file|)| == 1 && NO_UNITS.StoreAll(MapFile(file, |file|)) == NO_UNITS
  {
    hide Payload, HeaderOf, BigEndian, Pow256, MapFile, Located, Supported, Readable;
    ReservedUnit();
    BigEndianOfFour();
    UnitsOk64();
    var us := [RESERVED];
    assert AllSupported(us) by { assert Supported(RESERVED); }
    assert StreamBytes(us, 3) == UnitBytes(RESERVED, 3) + StreamBytes([], 3);
    var file := FileBytes(64, us);
    assert file + [] == file;
    MapsFile(64, us, []);
    ReadableIsAll(us);
    assert LocatedAll(us, 1, 3) == [Located(RESERVED, 4)] + LocatedAll([], 8, 3) == [Located(RESERVED, 4)];
    var found := MapFile(file, |file|);
    assert NO_UNITS.StoreAll(found) == NO_UNITS.Store(found[0]).StoreAll([]);
  }

  lemma UnitsOk64()
    ensures UnitPrecision(64) == 3 && UnitsOk([RESERVED], 3)
  {
    hide HeaderOf, BigEndian, Pow256;
    ReservedUnit();
    BigEndianOfFour();
  }
}
