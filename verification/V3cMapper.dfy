/**
  The sample-stream mapper of uvgrtp/v3c_util.cc: it walks a V3C file, unit by unit and NAL
  unit by NAL unit, and records where everything lies.
 */
module V3cMapper {
  import opened Bytes
  import opened V3cTypes
  import V3cHeader

  /**
    Memory from the start of a mapped file on: the file, and whatever lies behind it. Reads are
    not checked against the file's length; past the known memory they yield zero.
   */
  type Mem = seq<byte>

  function At(m: Mem, i: nat): byte {
    if i < |m| then m[i] else 0
  }

  function Slice(m: Mem, at: nat, k: nat): (s: seq<byte>)
    ensures |s| == k
  {
    if k == 0 then [] else Slice(m, at, k - 1) + [At(m, at + k - 1)]
  }

  /** A big-endian size of `k` bytes. */
  function Size(m: Mem, at: nat, k: nat): nat {
    FromBigEndian(Slice(m, at, k))
  }

  // ---------------------------------------------------------------- combineBytes

  function CombineBytes2(b1: byte, b2: byte): (r: nat)
    ensures r == FromBigEndian([b1, b2])
  {
    assert [b1, b2][..1] == [b1] && [b1][..0] == [];
    assert FromBigEndian([b1]) == b1;
    b1 * 0x100 + b2
  }

  function CombineBytes3(b1: byte, b2: byte, b3: byte): (r: nat)
    ensures r == FromBigEndian([b1, b2, b3])
  {
    assert [b1, b2, b3][..2] == [b1, b2];
    CombineBytes2(b1, b2) * 0x100 + b3
  }

  function CombineBytes4(b1: byte, b2: byte, b3: byte, b4: byte): (r: nat)
    ensures r == FromBigEndian([b1, b2, b3, b4])
  {
    assert [b1, b2, b3, b4][..3] == [b1, b2, b3];
    CombineBytes3(b1, b2, b3) * 0x100 + b4
  }

  // ---------------------------------------------------------------- what is mapped

  function ParseHeader(m: Mem, ptr: nat): UnitHeader {
    V3cHeader.Unpack(V3cHeader.Packed(
      At(m, ptr) as u8, At(m, ptr + 1) as u8, At(m, ptr + 2) as u8, At(m, ptr + 3) as u8))
  }

  /** Precisions, in bytes, that the mapper can read. */
  predicate UnitPrecisionOk(k: nat) {
    k == 2 || k == 3
  }

  predicate NalPrecisionOk(k: nat) {
    k == 2 || k == 3 || k == 4
  }

  /** The NAL units from `at` up to the end of the V3C unit. */
  function MapNals(m: Mem, at: nat, stop: nat, precision: nat): seq<NalInfo>
    requires NalPrecisionOk(precision)
    decreases stop - at
  {
    if at >= stop then []
    else
      var size := Size(m, at, precision);
      [NalInfo(at + precision, size, [])] + MapNals(m, at + precision + size, stop, precision)
  }

  /** Where the NAL units of a unit that starts at `start` begin, and the precision of their sizes. */
  function NalStart(m: Mem, start: nat): nat {
    if ParseHeader(m, start).IsAtlas() then start + V3C_HDR_LEN + 1 else start + V3C_HDR_LEN
  }

  function NalPrecision(m: Mem, start: nat): nat {
    if ParseHeader(m, start).IsAtlas() then At(m, start + V3C_HDR_LEN) / 32 + 1 else 4
  }

  /** The unit at `start`, or None when its NAL size precision makes the mapper give up. */
  function MapUnit(m: Mem, start: nat, size: nat): Option<UnitInfo> {
    var header := ParseHeader(m, start);
    if header == Vps then Some(UnitInfo(header, [NalInfo(start, size, [])], 0, false))
    else if NalStart(m, start) >= start + size then Some(UnitInfo(header, [], 0, false))
    else if !NalPrecisionOk(NalPrecision(m, start)) then None
    else Some(UnitInfo(header, MapNals(m, NalStart(m, start), start + size, NalPrecision(m, start)), 0, false))
  }

  /** The units from `ptr` on, in file order, up to the first one that cannot be read. */
  function MapUnits(m: Mem, len: nat, ptr: nat, precision: nat): seq<UnitInfo>
    decreases len - ptr
  {
    if ptr >= len || !UnitPrecisionOk(precision) then []
    else
      var start := ptr + precision;
      var size := Size(m, ptr, precision);
      var unit := MapUnit(m, start, size);
      if unit.None? then []
      else [unit.value] + MapUnits(m, len, start + size, precision)
  }

  function MapFile(m: Mem, len: nat): seq<UnitInfo> {
    MapUnits(m, len, 1, At(m, 0) / 32 + 1)
  }

  // ---------------------------------------------------------------- the mapper

  lemma SizeBytes(m: Mem, at: nat)
    ensures Slice(m, at, 2) == [At(m, at), At(m, at + 1)]
    ensures Slice(m, at, 3) == [At(m, at), At(m, at + 1), At(m, at + 2)]
    ensures Slice(m, at, 4) == [At(m, at), At(m, at + 1), At(m, at + 2), At(m, at + 3)]
  {
    assert Slice(m, at, 0) == [] && Slice(m, at, 1) == [At(m, at)];
    assert Slice(m, at, 2) == Slice(m, at, 1) + [At(m, at + 1)];
    assert Slice(m, at, 3) == Slice(m, at, 2) + [At(m, at + 2)];
    assert Slice(m, at, 4) == Slice(m, at, 3) + [At(m, at + 3)];
  }

  /** Sizes of two, three and four bytes, from the bytes. */
  lemma SizeIs(m: Mem, at: nat)
    ensures Size(m, at, 2) == At(m, at) * 0x100 + At(m, at + 1)
    ensures Size(m, at, 3) == At(m, at) * 0x1_0000 + At(m, at + 1) * 0x100 + At(m, at + 2)
    ensures Size(m, at, 4)
         == At(m, at) * 0x100_0000 + At(m, at + 1) * 0x1_0000 + At(m, at + 2) * 0x100 + At(m, at + 3)
  {
    hide FromBigEndian, Slice, At;
    SizeBytes(m, at);
    var r2 := CombineBytes2(At(m, at), At(m, at + 1));
    var r3 := CombineBytes3(At(m, at), At(m, at + 1), At(m, at + 2));
    var r4 := CombineBytes4(At(m, at), At(m, at + 1), At(m, at + 2), At(m, at + 3));
  }

  /** The unit type stands in the five high bits of the first byte; types 1 and 6 are atlas units. */
  lemma TypeIs(m: Mem, start: nat)
    ensures ParseHeader(m, start) == Vps <==> At(m, start) / 8 == 0
    ensures ParseHeader(m, start).IsAtlas() <==> At(m, start) / 8 == 1 || At(m, start) / 8 == 6
  {
    hide V3cHeader.Unpack, UnitHeader.IsAtlas, At;
    var p := V3cHeader.Packed(At(m, start) as u8, At(m, start + 1) as u8,
                              At(m, start + 2) as u8, At(m, start + 3) as u8);
    V3cHeader.VpsFields(p);
    V3cHeader.AtlasTypes(p);
    V3cHeader.TypeOfByte(At(m, start), 0);
    V3cHeader.TypeOfByte(At(m, start), 1);
    V3cHeader.TypeOfByte(At(m, start), 6);
  }

  /** Where the NAL units of a unit start, and how wide their sizes are, from the type bits. */
  lemma NalAreaIs(m: Mem, start: nat)
    ensures var atlas := At(m, start) / 8 == 1 || At(m, start) / 8 == 6;
            && NalStart(m, start) == start + (if atlas then 5 else 4)
            && NalPrecision(m, start) == if atlas then At(m, start + 4) / 32 + 1 else 4
  {
    hide ParseHeader, UnitHeader.IsAtlas, At;
    TypeIs(m, start);
  }

  /** One unit, from the bytes: a parameter set, no NAL unit, a precision that is not supported, or NAL units. */
  lemma UnitFromBytes(m: Mem, start: nat, size: nat)
    ensures var header, unitType := ParseHeader(m, start), At(m, start) / 8;
            var body := if unitType == 1 || unitType == 6 then start + 5 else start + 4;
            var precision := if unitType == 1 || unitType == 6 then At(m, start + 4) / 32 + 1 else 4;
            MapUnit(m, start, size) ==
            if unitType == 0 then Some(UnitInfo(Vps, [NalInfo(start, size, [])], 0, false))
            else if body >= start + size then Some(UnitInfo(header, [], 0, false))
            else if precision < 2 || precision > 4 then None
            else Some(UnitInfo(header, MapNals(m, body, start + size, precision), 0, false))
  {
    hide ParseHeader, UnitHeader.IsAtlas, At, MapNals, NalStart, NalPrecision;
    TypeIs(m, start);
    NalAreaIs(m, start);
  }

  method ReadUnitSize(m: Mem, ptr: nat, precision: nat) returns (size: nat)
    requires UnitPrecisionOk(precision)
    ensures size == Size(m, ptr, precision)
    ensures precision == 2 ==> size == At(m, ptr) * 0x100 + At(m, ptr + 1)
    ensures precision == 3 ==> size == At(m, ptr) * 0x1_0000 + At(m, ptr + 1) * 0x100 + At(m, ptr + 2)
  {
    hide FromBigEndian, Slice, At;
    SizeBytes(m, ptr);
    SizeIs(m, ptr);
    if precision == 2 {
      size := CombineBytes2(At(m, ptr), At(m, ptr + 1));
    } else {
      size := CombineBytes3(At(m, ptr), At(m, ptr + 1), At(m, ptr + 2));
    }
  }

  method ReadNalSize(m: Mem, ptr: nat, precision: nat) returns (size: nat)
    requires NalPrecisionOk(precision)
    ensures size == Size(m, ptr, precision)
    ensures precision == 2 ==> size == At(m, ptr) * 0x100 + At(m, ptr + 1)
    ensures precision == 3 ==> size == At(m, ptr) * 0x1_0000 + At(m, ptr + 1) * 0x100 + At(m, ptr + 2)
    ensures precision == 4 ==>
              size == At(m, ptr) * 0x100_0000 + At(m, ptr + 1) * 0x1_0000 + At(m, ptr + 2) * 0x100 + At(m, ptr + 3)
  {
    hide FromBigEndian, Slice, At;
    SizeBytes(m, ptr);
    SizeIs(m, ptr);
    if precision == 2 {
      size := CombineBytes2(At(m, ptr), At(m, ptr + 1));
    } else if precision == 3 {
      size := CombineBytes3(At(m, ptr), At(m, ptr + 1), At(m, ptr + 2));
    } else {
      size := CombineBytes4(At(m, ptr), At(m, ptr + 1), At(m, ptr + 2), At(m, ptr + 3));
    }
  }

  /** The inner loop: the NAL sample stream of one unit. */
  method MapNalLoop(m: Mem, start: nat, stop: nat, precision: nat) returns (ok: bool, nalInfos: seq<NalInfo>)
    ensures ok <==> start >= stop || NalPrecisionOk(precision)
    ensures ok && start >= stop ==> nalInfos == []
    ensures ok && start < stop ==> nalInfos == MapNals(m, start, stop, precision)
  {
    hide MapNals, Size;
    var v3cPtr := start;
    nalInfos := [];
    while true
      invariant start <= v3cPtr
      invariant !NalPrecisionOk(precision) || start >= stop ==> v3cPtr == start && nalInfos == []
      invariant NalPrecisionOk(precision) ==>
                  nalInfos + MapNals(m, v3cPtr, stop, precision) == MapNals(m, start, stop, precision)
      decreases stop - v3cPtr
    {
      MapNalsEnd(m, v3cPtr, stop, precision);
      if v3cPtr >= stop {
        break;
      }
      if !NalPrecisionOk(precision) {
        return false, nalInfos;
      }
      var combinedNalSize := ReadNalSize(m, v3cPtr, precision);
      MapNalsStep(m, v3cPtr, stop, precision);
      v3cPtr := v3cPtr + precision;
      nalInfos := nalInfos + [NalInfo(v3cPtr, combinedNalSize, [])];
      v3cPtr := v3cPtr + combinedNalSize;
    }
    ok := true;
  }

  lemma MapNalsEnd(m: Mem, at: nat, stop: nat, precision: nat)
    ensures NalPrecisionOk(precision) && at >= stop ==> MapNals(m, at, stop, precision) == []
  {
  }

  lemma MapNalsStep(m: Mem, at: nat, stop: nat, precision: nat)
    requires NalPrecisionOk(precision) && at < stop
    ensures MapNals(m, at, stop, precision)
         == [NalInfo(at + precision, Size(m, at, precision), [])]
            + MapNals(m, at + precision + Size(m, at, precision), stop, precision)
  {
  }

  /** Storing the units `us` on top of `l` gives `all`. */
  ghost predicate Leads(l: UnitLists, us: seq<UnitInfo>, all: UnitLists) {
    l.StoreAll(us) == all
  }

  lemma MapUnitsEnd(m: Mem, len: nat, ptr: nat, precision: nat, l: UnitLists, all: UnitLists)
    requires Leads(l, MapUnits(m, len, ptr, precision), all)
    ensures ptr >= len || !UnitPrecisionOk(precision) ==> l == all
  {
  }

  lemma MapUnitsStep(m: Mem, len: nat, ptr: nat, precision: nat, l: UnitLists, all: UnitLists)
    requires Leads(l, MapUnits(m, len, ptr, precision), all)
    requires ptr < len && UnitPrecisionOk(precision)
    ensures precision > 0
    ensures var start, size := ptr + precision, Size(m, ptr, precision);
            var unit := MapUnit(m, start, size);
            if unit.None? then l == all
            else Leads(l.Store(unit.value), MapUnits(m, len, start + size, precision), all)
  {
    hide MapUnit, Size;
  }

  lemma MapUnitVps(m: Mem, start: nat, size: nat)
    requires ParseHeader(m, start) == Vps
    ensures MapUnit(m, start, size) == Some(UnitInfo(Vps, [NalInfo(start, size, [])], 0, false))
  {
    hide ParseHeader;
  }

  lemma MapUnitNals(m: Mem, start: nat, size: nat)
    requires ParseHeader(m, start) != Vps
    ensures var header := ParseHeader(m, start);
            var body := if header.IsAtlas() then start + V3C_HDR_LEN + 1 else start + V3C_HDR_LEN;
            var precision := if header.IsAtlas() then At(m, start + V3C_HDR_LEN) / 32 + 1 else 4;
            MapUnit(m, start, size) ==
            if body >= start + size then Some(UnitInfo(header, [], 0, false))
            else if !NalPrecisionOk(precision) then None
            else Some(UnitInfo(header, MapNals(m, body, start + size, precision), 0, false))
  {
    hide ParseHeader, MapNals;
  }

  /** The body of the outer loop: maps the unit at `ptr`, unless its NAL size precision is bad. */
  method MapOneUnit(m: Mem, ptr: nat, combinedV3cSize: nat, mmap: FileMap) returns (ok: bool)
    modifies mmap
    ensures ok == MapUnit(m, ptr, combinedV3cSize).Some?
    ensures mmap.Lists() == if ok then old(mmap.Lists()).Store(MapUnit(m, ptr, combinedV3cSize).value)
                            else old(mmap.Lists())
  {
    hide V3cHeader.Unpack, UnitLists.Store, MapNals;
    var unit := UnitInfo(ParseHeader(m, ptr), [], 0, false);
    if unit.header == Vps {
      MapUnitVps(m, ptr, combinedV3cSize);
      unit := unit.(nalInfos := [NalInfo(ptr, combinedV3cSize, [])]);
      mmap.Store(unit);
      return true;
    }

    var v3cPtr := ptr + V3C_HDR_LEN;
    var nalSizePrecision;
    if unit.header.IsAtlas() {
      nalSizePrecision := At(m, v3cPtr) / 32 + 1;
      v3cPtr := v3cPtr + 1;
    } else {
      nalSizePrecision := 4;
    }
    var nalInfos;
    ok, nalInfos := MapNalLoop(m, v3cPtr, ptr + combinedV3cSize, nalSizePrecision);
    MapUnitNals(m, ptr, combinedV3cSize);
    if ok {
      unit := unit.(nalInfos := nalInfos);
      mmap.Store(unit);
    }
  }

  /** One pass of the outer loop. It reads at least the two or three bytes of a unit size. */
  method MapNext(m: Mem, len: nat, ptr: nat, precision: nat, mmap: FileMap, ghost all: UnitLists)
    returns (ok: bool, next: nat)
    requires ptr < len && UnitPrecisionOk(precision)
    requires Leads(mmap.Lists(), MapUnits(m, len, ptr, precision), all)
    modifies mmap
    ensures ok ==> next >= ptr + 2 && Leads(mmap.Lists(), MapUnits(m, len, next, precision), all)
    ensures !ok ==> mmap.Lists() == all
  {
    hide MapUnits, MapUnit, Size, Leads, FileMap.Lists, UnitLists.Store;
    MapUnitsStep(m, len, ptr, precision, mmap.Lists(), all);
    var combinedV3cSize := ReadUnitSize(m, ptr, precision);
    ok := MapOneUnit(m, ptr + precision, combinedV3cSize, mmap);
    next := ptr + precision + combinedV3cSize;
  }

  /**
    `mmap_v3c_file`. It stops without a sign of it when a precision is not supported: both
    exits return true, the error constant of the program being a non-zero integer.
   */
  method MmapV3cFile(m: Mem, len: nat, mmap: FileMap) returns (result: bool)
    modifies mmap
    ensures mmap.Lists() == old(mmap.Lists()).StoreAll(MapFile(m, len))
    ensures result
  {
    var ptr: nat := 0;
    var firstByte := At(m, ptr);
    var v3cSizePrecision := firstByte / 32 + 1;
    ptr := ptr + 1;
    ghost var all := mmap.Lists().StoreAll(MapFile(m, len));
    assert Leads(mmap.Lists(), MapUnits(m, len, ptr, v3cSizePrecision), all);
    hide MapUnits, Leads, FileMap.Lists;

    while true
      invariant Leads(mmap.Lists(), MapUnits(m, len, ptr, v3cSizePrecision), all)
      decreases len - ptr
    {
      MapUnitsEnd(m, len, ptr, v3cSizePrecision, mmap.Lists(), all);
      if ptr >= len {
        break;
      }
      if !UnitPrecisionOk(v3cSizePrecision) {
        return true;
      }
      var ok;
      ok, ptr := MapNext(m, len, ptr, v3cSizePrecision, mmap, all);
      if !ok {
        return true;
      }
    }
    result := true;
  }
}
