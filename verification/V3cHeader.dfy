/**
  The 32-bit V3C unit header (section 8.3.2.2 of ISO/IEC 23090-5): the parser
  `parse_v3c_header`, the bit packing of `create_v3c_unit`, and when one undoes the other.
 */
module V3cHeader {
  import opened Bytes
  import opened V3cTypes

  /** The four bytes of a header, as bit vectors. */
  datatype Packed = Packed(b0: u8, b1: u8, b2: u8, b3: u8)

  /** What the parser makes of four header bytes. */
  function Unpack(p: Packed): UnitHeader {
    var unitType := (p.b0 & 0xF8) >> 3;
    var psId := ((p.b0 & 0x07) << 1) | ((p.b1 & 0x80) >> 7);
    var atlasId := (p.b1 & 0x7E) >> 1;
    if unitType == 0 then Vps
    else if unitType == 1 then Ad(psId, atlasId)
    else if unitType == 2 then Ovd(psId, atlasId)
    else if unitType == 3 then
      Gvd(psId, atlasId, ((p.b1 & 0x01) << 3) | ((p.b2 & 0xE0) >> 5), (p.b2 & 0x10) >> 4 != 0)
    else if unitType == 4 then
      Avd(psId, atlasId,
          ((p.b1 & 0x01) << 6) | ((p.b2 & 0xFC) >> 2),
          // the two high bits are not shifted into place
          (p.b2 & 0x03) | ((p.b3 & 0xE0) >> 5),
          (p.b3 & 0x1E) >> 1,
          p.b3 & 0x01 != 0)
    else if unitType == 5 then Pvd(psId, atlasId)
    else if unitType == 6 then Cad(psId)
    else Other(unitType)
  }

  function Bit(f: bool): u8 {
    if f then 1 else 0
  }

  /** The parameter-set id that the writer finds in the union. */
  function PsId(h: UnitHeader): u8 {
    if h.Vps? || h.Other? then 0 else h.psId
  }

  function AtlasId(h: UnitHeader): u8 {
    if h.Vps? || h.Other? || h.Cad? then 0 else h.atlasId
  }

  /** What the writer makes of a header. */
  function Pack(h: UnitHeader): Packed {
    var b0 := (h.Type() << 3) | ((PsId(h) & 0x0E) >> 1);
    var b1 := (PsId(h) & 0x01) << 7;
    var b1' := if h.Cad? then b1 else b1 | ((AtlasId(h) & 0x3F) << 1);
    match h
    case Gvd(_, _, mapIndex, aux) =>
      Packed(b0, b1' | ((mapIndex & 0x08) >> 3), ((mapIndex & 0x07) << 5) | (Bit(aux) << 4), 0)
    case Avd(_, _, attributeIndex, partitionIndex, mapIndex, aux) =>
      Packed(b0,
             // bit 6 of the attribute index is shifted out
             b1' | ((attributeIndex & 0x40) >> 7),
             ((attributeIndex & 0x3F) << 2) | ((partitionIndex & 0x18) >> 3),
             ((partitionIndex & 0x07) << 5) | (mapIndex << 1) | Bit(aux))
    case _ => Packed(b0, b1', 0, 0)
  }

  /** The field values that a written header can carry back. */
  predicate Representable(h: UnitHeader) {
    match h
    case Vps => true
    case Ad(ps, atlas) => ps < 16 && atlas < 64
    case Ovd(ps, atlas) => ps < 16 && atlas < 64
    case Gvd(ps, atlas, index, _) => ps < 16 && atlas < 64 && index < 16
    case Avd(ps, atlas, attribute, partition, index, _) =>
      ps < 16 && atlas < 64 && attribute < 64 && partition < 8 && index < 16
    case Pvd(ps, atlas) => ps < 16 && atlas < 64
    case Cad(ps) => ps < 16
    case Other(t) => 7 <= t < 32
  }

  /** Reading back a written header gives the same header exactly when its fields are representable. */
  lemma HeaderRoundTrip(h: UnitHeader)
    ensures Unpack(Pack(h)) == h <==> Representable(h)
  {
  }

  /** Header bytes whose bits a parsed header can carry: reserved bits zero, and no lost index bit. */
  predicate Rewritable(p: Packed) {
    match Unpack(p)
    case Vps => p.b0 == 0 && p.b1 == 0 && p.b2 == 0 && p.b3 == 0
    case Ad(_, _) => p.b1 & 0x01 == 0 && p.b2 == 0 && p.b3 == 0
    case Ovd(_, _) => p.b1 & 0x01 == 0 && p.b2 == 0 && p.b3 == 0
    case Gvd(_, _, _, _) => p.b2 & 0x0F == 0 && p.b3 == 0
    // the high bit of the attribute index, and the two high bits of the partition index
    case Avd(_, _, _, _, _, _) => p.b1 & 0x01 == 0 && p.b2 & 0x03 == 0
    case Pvd(_, _) => p.b1 & 0x01 == 0 && p.b2 == 0 && p.b3 == 0
    case Cad(_) => p.b1 & 0x7F == 0 && p.b2 == 0 && p.b3 == 0
    case Other(_) => p.b0 & 0x07 == 0 && p.b1 == 0 && p.b2 == 0 && p.b3 == 0
  }

  function UnitType(p: Packed): u8 {
    (p.b0 & 0xF8) >> 3
  }

  lemma RewrittenVps(p: Packed)
    requires UnitType(p) == 0
    ensures Pack(Unpack(p)) == p <==> Rewritable(p)
  {
  }

  lemma RewrittenAd(p: Packed)
    requires UnitType(p) == 1
    ensures Pack(Unpack(p)) == p <==> Rewritable(p)
  {
  }

  lemma RewrittenOvd(p: Packed)
    requires UnitType(p) == 2
    ensures Pack(Unpack(p)) == p <==> Rewritable(p)
  {
  }

  lemma RewrittenGvd(p: Packed)
    requires UnitType(p) == 3
    ensures Pack(Unpack(p)) == p <==> Rewritable(p)
  {
  }

  lemma RewrittenAvd(p: Packed)
    requires UnitType(p) == 4
    ensures Pack(Unpack(p)) == p <==> Rewritable(p)
  {
  }

  lemma RewrittenPvd(p: Packed)
    requires UnitType(p) == 5
    ensures Pack(Unpack(p)) == p <==> Rewritable(p)
  {
  }

  lemma RewrittenCad(p: Packed)
    requires UnitType(p) == 6
    ensures Pack(Unpack(p)) == p <==> Rewritable(p)
  {
  }

  lemma RewrittenOther(p: Packed)
    requires UnitType(p) > 6
    ensures Pack(Unpack(p)) == p <==> Rewritable(p)
  {
  }

  /** Writing a parsed header again gives the same bytes exactly when they are rewritable. */
  lemma {:induction false} HeaderRewritten(p: Packed)
    ensures Pack(Unpack(p)) == p <==> Rewritable(p)
  {
    hide *;
    var t := UnitType(p);
    if t == 0 {
      RewrittenVps(p);
    } else if t == 1 {
      RewrittenAd(p);
    } else if t == 2 {
      RewrittenOvd(p);
    } else if t == 3 {
      RewrittenGvd(p);
    } else if t == 4 {
      RewrittenAvd(p);
    } else if t == 5 {
      RewrittenPvd(p);
    } else if t == 6 {
      RewrittenCad(p);
    } else {
      RewrittenOther(p);
    }
  }

  // ---------------------------------------------------------------- every field, as arithmetic on the bytes

  lemma VpsFields(p: Packed)
    ensures Unpack(p).Vps? <==> p.b0 / 8 == 0
  {
  }

  lemma AdFields(p: Packed)
    requires p.b0 / 8 == 1
    ensures Unpack(p) == Ad(p.b0 % 8 * 2 + p.b1 / 128, p.b1 / 2 % 64)
  {
  }

  lemma OvdFields(p: Packed)
    requires p.b0 / 8 == 2
    ensures Unpack(p) == Ovd(p.b0 % 8 * 2 + p.b1 / 128, p.b1 / 2 % 64)
  {
  }

  lemma GvdFields(p: Packed)
    requires p.b0 / 8 == 3
    ensures Unpack(p) == Gvd(p.b0 % 8 * 2 + p.b1 / 128, p.b1 / 2 % 64, p.b1 % 2 * 8 + p.b2 / 32, p.b2 / 16 % 2 == 1)
  {
  }

  /** The partition index takes its low three bits and, in the same place, two bits that are not shifted. */
  lemma AvdFields(p: Packed)
    requires p.b0 / 8 == 4
    ensures var h := Unpack(p);
            && h.Avd? && h.psId == p.b0 % 8 * 2 + p.b1 / 128 && h.atlasId == p.b1 / 2 % 64
            && h.attributeIndex == p.b1 % 2 * 64 + p.b2 / 4
            && h.partitionIndex == (p.b2 % 4) | (p.b3 / 32)
            && h.mapIndex == p.b3 / 2 % 16 && (h.auxiliaryVideo <==> p.b3 % 2 == 1)
  {
  }

  lemma PvdFields(p: Packed)
    requires p.b0 / 8 == 5
    ensures Unpack(p) == Pvd(p.b0 % 8 * 2 + p.b1 / 128, p.b1 / 2 % 64)
  {
  }

  lemma CadFields(p: Packed)
    requires p.b0 / 8 == 6
    ensures Unpack(p) == Cad(p.b0 % 8 * 2 + p.b1 / 128)
  {
  }

  lemma OtherFields(p: Packed)
    requires p.b0 / 8 > 6
    ensures Unpack(p) == Other(p.b0 / 8)
  {
  }

  /** Atlas units are those of types 1 and 6. */
  lemma AtlasTypes(p: Packed)
    ensures Unpack(p).IsAtlas() <==> p.b0 / 8 == 1 || p.b0 / 8 == 6
  {
    hide Unpack;
    var t := p.b0 / 8;
    if t == 0 {
      VpsFields(p);
    } else if t == 1 {
      AdFields(p);
    } else if t == 2 {
      OvdFields(p);
    } else if t == 3 {
      GvdFields(p);
    } else if t == 4 {
      AvdFields(p);
    } else if t == 5 {
      PvdFields(p);
    } else if t == 6 {
      CadFields(p);
    } else {
      OtherFields(p);
    }
  }

  /** What is written for a header without further fields: unit type, and the ids where there are any. */
  lemma WrittenIds(h: UnitHeader)
    ensures h.Vps? ==> Pack(h) == Packed(0, 0, 0, 0)
    ensures h.Ad? ==> Pack(h) == Packed(8 + h.psId / 2 % 8, h.psId % 2 * 128 + h.atlasId % 64 * 2, 0, 0)
    ensures h.Ovd? ==> Pack(h) == Packed(16 + h.psId / 2 % 8, h.psId % 2 * 128 + h.atlasId % 64 * 2, 0, 0)
    ensures h.Pvd? ==> Pack(h) == Packed(40 + h.psId / 2 % 8, h.psId % 2 * 128 + h.atlasId % 64 * 2, 0, 0)
    ensures h.Cad? ==> Pack(h) == Packed(48 + h.psId / 2 % 8, h.psId % 2 * 128, 0, 0)
  {
  }

  lemma WrittenGvd(h: UnitHeader)
    requires h.Gvd?
    ensures Pack(h).b0 == 24 + h.psId / 2 % 8
    ensures Pack(h).b1 == h.psId % 2 * 128 + h.atlasId % 64 * 2 + h.mapIndex / 8 % 2
    ensures Pack(h).b2 == h.mapIndex % 8 * 32 + (if h.auxiliaryVideo then 16 else 0)
    ensures Pack(h).b3 == 0
  {
  }

  /** Bit 6 of the attribute index is written nowhere; a map index of 16 or more runs into the other fields. */
  lemma WrittenAvd(h: UnitHeader)
    requires h.Avd?
    ensures Pack(h).b0 == 32 + h.psId / 2 % 8
    ensures Pack(h).b1 == h.psId % 2 * 128 + h.atlasId % 64 * 2
    ensures Pack(h).b2 == h.attributeIndex % 64 * 4 + h.partitionIndex / 8 % 4
    ensures h.mapIndex < 16 ==>
              Pack(h).b3 == h.partitionIndex % 8 * 32 + h.mapIndex * 2 + (if h.auxiliaryVideo then 1 else 0)
  {
  }

  // ---------------------------------------------------------------- bit vectors and integers

  lemma MaskIsMod(x: u8)
    ensures x & 0x0F == x % 16
  {
  }

  lemma ModOfBits(x: u8)
    ensures (x % 16) as int == (x as int) % 16
  {
  }

  lemma NextBits(x: u8)
    requires x < 255
    ensures (x + 1) as int == x as int + 1
  {
    hide *;
  }

  /** A byte as a bit vector, counted up from zero. */
  ghost function BitsUpTo(b: byte): (x: u8)
    ensures x as int == b
  {
    if b == 0 then 0
    else
      NextBits(BitsUpTo(b - 1));
      BitsUpTo(b - 1) + 1
  }

  lemma BitsOfByte(b: byte)
    ensures (b as u8) as int == b
  {
    hide *;
    var x := BitsUpTo(b);
    assert b as u8 == x;
  }

  lemma EighthOfBits(x: u8)
    ensures (x / 8) as int == (x as int) / 8
  {
  }

  lemma SmallBits(x: u8, n: int)
    requires 0 <= n < 8
    ensures x as int == n <==> x == n as u8
  {
  }

  /** The unit type of a header byte, as an integer. */
  lemma TypeOfByte(b: byte, n: int)
    requires 0 <= n < 8
    ensures (b as u8) / 8 == n as u8 <==> b / 8 == n
  {
    BitsOfByte(b);
    EighthOfBits(b as u8);
    SmallBits((b as u8) / 8, n);
  }
}
