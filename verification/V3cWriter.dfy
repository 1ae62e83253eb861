/**
  The writer of uvgrtp/v3c_util.cc: V3C units and whole GoPs, rebuilt from received NAL units
  into a buffer at a moving position.
 */
module V3cWriter {
  import opened Bytes
  import opened V3cTypes
  import V3cHeader

  /** A value as a `uint32_t`. */
  function Low32(n: nat): (r: nat)
    ensures n < 0x1_0000_0000 ==> r == n
  {
    n % 0x1_0000_0000
  }

  // ---------------------------------------------------------------- writes into a buffer

  /** A buffer after `x` was copied to position `at`. */
  function Patch(b: seq<byte>, at: nat, x: seq<byte>): (r: seq<byte>)
    requires at + |x| <= |b|
    ensures |r| == |b|
  {
    b[..at] + x + b[at + |x|..]
  }

  lemma PatchTwice(b: seq<byte>, at: nat, x: seq<byte>, y: seq<byte>)
    requires at + |x| + |y| <= |b|
    ensures Patch(Patch(b, at, x), at + |x|, y) == Patch(b, at, x + y)
  {
  }

  lemma PatchNothing(b: seq<byte>, at: nat)
    requires at <= |b|
    ensures Patch(b, at, []) == b
  {
  }

  method Memcpy(buf: array<byte>, at: nat, src: seq<byte>)
    requires at + |src| <= buf.Length
    modifies buf
    ensures buf[..] == Patch(old(buf[..]), at, src)
  {
    forall i | 0 <= i < |src| {
      buf[at + i] := src[i];
    }
  }

  /** The low `outputSize` bytes of a 32-bit integer; a shift by 32 bits or more is not defined. */
  method ConvertSizeBigEndian(in_: nat, out: array<byte>, outputSize: nat)
    requires outputSize == out.Length <= 4
    modifies out
    ensures out[..] == BigEndian(in_, outputSize)
  {
    for i := 0 to outputSize
      invariant forall k :: outputSize - i <= k < outputSize ==> out[k] == BigEndian(in_, outputSize)[k]
    {
      BigEndianAt(in_, outputSize, i);
      out[outputSize - i - 1] := ShiftRightBytes(in_, i) % 256;
    }
  }

  /** Converts a size and copies it to the buffer. */
  method WriteSize(n: nat, k: nat, buf: array<byte>, ptr: nat) returns (next: nat)
    requires k <= 4 && ptr + k <= buf.Length
    modifies buf
    ensures next == ptr + k
    ensures buf[..] == Patch(old(buf[..]), ptr, BigEndian(n, k))
  {
    var sizeArr := new byte[k];
    ConvertSizeBigEndian(n, sizeArr, k);
    Memcpy(buf, ptr, sizeArr[..]);
    next := ptr + k;
  }

  // ---------------------------------------------------------------- what is written

  function SumSizes(nals: seq<NalInfo>): nat {
    if nals == [] then 0 else nals[0].size + SumSizes(nals[1..])
  }

  /** Every NAL unit has at least as many bytes as its size says. */
  predicate BytesThere(nals: seq<NalInfo>) {
    forall n <- nals :: n.size <= |n.buf|
  }

  /** The unit size, in 32-bit arithmetic. */
  function SizeField(u: UnitInfo, nalPrecision: nat): nat {
    Low32(V3C_HDR_LEN + u.ptr + |u.nalInfos| * nalPrecision + (if u.header.IsAtlas() then 1 else 0))
  }

  function HeadBytes(h: UnitHeader): (r: seq<byte>)
    ensures |r| == V3C_HDR_LEN
  {
    var p := V3cHeader.Pack(h);
    [p.b0 as byte, p.b1 as byte, p.b2 as byte, p.b3 as byte]
  }

  function PrecisionByte(nalPrecision: nat): byte
    requires nalPrecision > 0
  {
    (nalPrecision - 1) * 32 % 256
  }

  /** The header, and the NAL size precision of an atlas unit. */
  function WrittenHead(h: UnitHeader, nalPrecision: nat): seq<byte>
    requires nalPrecision > 0
  {
    if h.IsAtlas() then HeadBytes(h) + [PrecisionByte(nalPrecision)] else HeadBytes(h)
  }

  /**
    The four header bytes, and behind them, for the unit types 1 and 6 only, the byte whose three
    high bits hold the NAL size precision less one.
   */
  lemma WrittenHeadIs(h: UnitHeader, nalPrecision: nat)
    requires 0 < nalPrecision <= 8
    ensures var p := V3cHeader.Pack(h);
            WrittenHead(h, nalPrecision)
            == [p.b0 as byte, p.b1 as byte, p.b2 as byte, p.b3 as byte]
               + if h.Ad? || h.Cad? then [32 * (nalPrecision - 1)] else []
  {
    hide V3cHeader.Pack;
  }

  function WrittenNal(n: NalInfo, k: nat): (r: seq<byte>)
    requires n.size <= |n.buf|
    ensures |r| == k + n.size
  {
    BigEndian(Low32(n.size), k) + n.buf[..n.size]
  }

  function WrittenNals(nals: seq<NalInfo>, k: nat): (r: seq<byte>)
    requires BytesThere(nals)
  {
    if nals == [] then []
    else
      assert nals[0] in nals;
      WrittenNal(nals[0], k) + WrittenNals(nals[1..], k)
  }

  function WrittenUnit(u: UnitInfo, v3cPrecision: nat, nalPrecision: nat): seq<byte>
    requires BytesThere(u.nalInfos) && nalPrecision > 0
  {
    BigEndian(SizeField(u, nalPrecision), v3cPrecision)
    + WrittenHead(u.header, nalPrecision)
    + WrittenNals(u.nalInfos, nalPrecision)
  }

  lemma {:induction false} WrittenLength(nals: seq<NalInfo>, k: nat)
    requires BytesThere(nals)
    ensures |WrittenNals(nals, k)| == SumSizes(nals) + |nals| * k
  {
    if nals != [] {
      assert nals[0] in nals;
      WrittenLength(nals[1..], k);
      MulOneMore(|nals| - 1, k);
    }
  }

  lemma MulOneMore(n: nat, k: nat)
    ensures (n + 1) * k == n * k + k
  {
  }

  lemma {:induction false} WrittenNalsSplit(xs: seq<NalInfo>, ys: seq<NalInfo>, k: nat)
    requires BytesThere(xs + ys)
    ensures BytesThere(xs) && BytesThere(ys)
    ensures WrittenNals(xs + ys, k) == WrittenNals(xs, k) + WrittenNals(ys, k)
  {
    BytesThereParts(xs, ys);
    if xs == [] {
      assert xs + ys == ys;
    } else {
      assert (xs + ys)[1..] == xs[1..] + ys;
      WrittenNalsSplit(xs[1..], ys, k);
      Assoc(WrittenNal(xs[0], k), WrittenNals(xs[1..], k), WrittenNals(ys, k));
    }
  }

  lemma BytesThereParts(xs: seq<NalInfo>, ys: seq<NalInfo>)
    requires BytesThere(xs + ys)
    ensures BytesThere(xs) && BytesThere(ys)
    ensures xs != [] ==> xs[0].size <= |xs[0].buf| && BytesThere(xs[1..] + ys)
  {
    forall n | n in xs || n in ys
      ensures n.size <= |n.buf|
    {
      assert n in xs + ys;
    }
  }

  lemma WrittenPrefix(nals: seq<NalInfo>, i: nat, k: nat)
    requires BytesThere(nals) && i < |nals|
    ensures BytesThere(nals[..i]) && BytesThere(nals[..i + 1]) && nals[i].size <= |nals[i].buf|
    ensures WrittenNals(nals[..i + 1], k)
         == WrittenNals(nals[..i], k) + BigEndian(Low32(nals[i].size), k) + nals[i].buf[..nals[i].size]
    ensures |WrittenNals(nals[..i], k)| + k + nals[i].size <= |WrittenNals(nals, k)|
  {
    var xs, n, ys := nals[..i], nals[i], nals[i + 1..];
    assert n in nals;
    assert nals == (xs + [n]) + ys && nals[..i + 1] == xs + [n];
    WrittenNalsSplit(xs + [n], ys, k);
    WrittenNalsSplit(xs, [n], k);
    assert WrittenNals([n], k) == WrittenNal(n, k) + WrittenNals([], k) == WrittenNal(n, k);
    Assoc(WrittenNals(xs, k), BigEndian(Low32(n.size), k), n.buf[..n.size]);
  }

  // ---------------------------------------------------------------- create_v3c_unit

  /** The loop over the NAL units: a size, and the bytes. */
  method WriteNals(nals: seq<NalInfo>, k: nat, buf: array<byte>, ptr: nat) returns (next: nat)
    requires BytesThere(nals) && k <= 4
    requires ptr + |WrittenNals(nals, k)| <= buf.Length
    modifies buf
    ensures next == ptr + |WrittenNals(nals, k)|
    ensures buf[..] == Patch(old(buf[..]), ptr, WrittenNals(nals, k))
  {
    hide *;
    ghost var b := buf[..];
    next := ptr;
    NothingWritten(b, ptr, nals, k);
    for i := 0 to |nals|
      invariant BytesThere(nals[..i]) && next == ptr + |WrittenNals(nals[..i], k)|
      invariant next <= |b| == buf.Length
      invariant buf[..] == Patch(b, ptr, WrittenNals(nals[..i], k))
    {
      var p := nals[i];
      WrittenPrefix(nals, i, k);
      ghost var done := WrittenNals(nals[..i], k);
      var size := Low32(p.size);
      next := WriteSize(size, k, buf, next);
      PatchTwice(b, ptr, done, BigEndian(size, k));
      Memcpy(buf, next, p.buf[..p.size]);
      PatchTwice(b, ptr, done + BigEndian(size, k), p.buf[..p.size]);
      next := next + p.size;
    }
    assert nals[..|nals|] == nals;
  }

  lemma NothingWritten(b: seq<byte>, ptr: nat, nals: seq<NalInfo>, k: nat)
    requires ptr <= |b|
    ensures BytesThere(nals[..0]) && WrittenNals(nals[..0], k) == [] && Patch(b, ptr, []) == b
  {
  }

  /** The size of a unit, added up in 32-bit steps. */
  method UnitSize(u: UnitInfo, nalPrecision: nat) returns (v3cSizeInt: nat)
    ensures v3cSizeInt == SizeField(u, nalPrecision)
    ensures v3cSizeInt
         == (4 + u.ptr + |u.nalInfos| * nalPrecision + if u.header.Ad? || u.header.Cad? then 1 else 0) % 0x1_0000_0000
  {
    v3cSizeInt := Low32(V3C_HDR_LEN + Low32(u.ptr) + Low32(Low32(|u.nalInfos|) * nalPrecision));
    if u.header.IsAtlas() {
      v3cSizeInt := Low32(v3cSizeInt + 1);
    }
    SizeFieldWraps(u, nalPrecision);
  }

  /** `create_v3c_unit`: size, header, NAL size precision of an atlas unit, and the NAL units. */
  method CreateV3cUnit(u: UnitInfo, buf: array<byte>, ptr: nat, v3cPrecision: nat, nalPrecision: nat)
    returns (next: nat)
    requires BytesThere(u.nalInfos) && v3cPrecision <= 4 && 0 < nalPrecision <= 4
    requires ptr + |WrittenUnit(u, v3cPrecision, nalPrecision)| <= buf.Length
    modifies buf
    ensures next == ptr + |WrittenUnit(u, v3cPrecision, nalPrecision)|
    ensures buf[..] == Patch(old(buf[..]), ptr, WrittenUnit(u, v3cPrecision, nalPrecision))
  {
    hide *;
    var v3cSizeInt := UnitSize(u, nalPrecision);
    UnitParts(u, v3cPrecision, nalPrecision);
    ghost var sizeBytes := BigEndian(v3cSizeInt, v3cPrecision);
    ghost var head, nals := WrittenHead(u.header, nalPrecision), WrittenNals(u.nalInfos, nalPrecision);
    ghost var b := buf[..];
    next := WriteSize(v3cSizeInt, v3cPrecision, buf, ptr);
    next := WriteHead(u.header, nalPrecision, buf, next);
    PatchTwice(b, ptr, sizeBytes, head);
    next := WriteNals(u.nalInfos, nalPrecision, buf, next);
    PatchTwice(b, ptr, sizeBytes + head, nals);
  }

  lemma UnitParts(u: UnitInfo, v3cPrecision: nat, nalPrecision: nat)
    requires BytesThere(u.nalInfos) && nalPrecision > 0
    ensures WrittenUnit(u, v3cPrecision, nalPrecision)
         == BigEndian(SizeField(u, nalPrecision), v3cPrecision)
            + WrittenHead(u.header, nalPrecision)
            + WrittenNals(u.nalInfos, nalPrecision)
  {
  }

  method WriteHead(h: UnitHeader, nalPrecision: nat, buf: array<byte>, ptr: nat) returns (next: nat)
    requires nalPrecision > 0 && ptr + |WrittenHead(h, nalPrecision)| <= buf.Length
    modifies buf
    ensures next == ptr + |WrittenHead(h, nalPrecision)|
    ensures buf[..] == Patch(old(buf[..]), ptr, WrittenHead(h, nalPrecision))
  {
    hide HeadBytes, Patch;
    ghost var b := buf[..];
    Memcpy(buf, ptr, HeadBytes(h));
    next := ptr + V3C_HDR_LEN;
    if h.IsAtlas() {
      Memcpy(buf, next, [PrecisionByte(nalPrecision)]);
      PatchTwice(b, ptr, HeadBytes(h), [PrecisionByte(nalPrecision)]);
      next := next + 1;
    }
  }

  /** The steps of the 32-bit sum may wrap; the sum is the same. */
  lemma SizeFieldWraps(u: UnitInfo, nalPrecision: nat)
    ensures var n := Low32(V3C_HDR_LEN + Low32(u.ptr) + Low32(Low32(|u.nalInfos|) * nalPrecision));
            SizeField(u, nalPrecision) == if u.header.IsAtlas() then Low32(n + 1) else n
  {
    MulWraps(|u.nalInfos|, nalPrecision);
    SumWraps(u.ptr, |u.nalInfos| * nalPrecision);
    IncrementWraps(V3C_HDR_LEN + u.ptr + |u.nalInfos| * nalPrecision);
  }

  lemma MulWraps(n: nat, k: nat)
    ensures Low32(Low32(n) * k) == Low32(n * k)
  {
    var q := n / 0x1_0000_0000;
    assert n == 0x1_0000_0000 * q + Low32(n);
    assert n * k == 0x1_0000_0000 * (q * k) + Low32(n) * k by {
      MulDistributes(0x1_0000_0000, q, Low32(n), k);
    }
    SumMultiple(q * k, Low32(n) * k);
  }

  lemma MulDistributes(d: nat, q: nat, r: nat, k: nat)
    ensures (d * q + r) * k == d * (q * k) + r * k
  {
  }

  lemma SumMultiple(q: nat, r: nat)
    ensures Low32(0x1_0000_0000 * q + r) == Low32(r)
  {
  }

  lemma SumWraps(x: nat, y: nat)
    ensures Low32(V3C_HDR_LEN + Low32(x) + Low32(y)) == Low32(V3C_HDR_LEN + x + y)
  {
  }

  lemma IncrementWraps(n: nat)
    ensures Low32(Low32(n) + 1) == Low32(n + 1)
  {
  }

  // ---------------------------------------------------------------- whole GoPs

  /** The five `at(index)` calls, and the one into the VPS unit, do not throw. */
  predicate Addressable(l: UnitLists, index: nat) {
    && index < |l.vps| && l.vps[index].nalInfos != []
    && index < |l.ad| && index < |l.ovd| && index < |l.gvd| && index < |l.avd|
  }

  /** Size of a unit as the GoP size counts it: size field, `fixed` bytes, NAL sizes and NAL units. */
  function UnitShare(u: UnitInfo, fixed: nat, nalPrecision: nat): nat {
    V3C_SIZE_PRECISION + fixed + u.ptr + |u.nalInfos| * nalPrecision
  }

  function GopSize(hdrByte: bool, l: UnitLists, index: nat): nat
    requires Addressable(l, index)
  {
    (if hdrByte then 1 else 0)
    + V3C_SIZE_PRECISION + l.vps[index].nalInfos[0].size
    + UnitShare(l.ad[index], V3C_HDR_LEN + 1, ATLAS_NAL_SIZE_PRECISION)
    + UnitShare(l.ovd[index], V3C_HDR_LEN, VIDEO_NAL_SIZE_PRECISION)
    + UnitShare(l.gvd[index], V3C_HDR_LEN, VIDEO_NAL_SIZE_PRECISION)
    + UnitShare(l.avd[index], V3C_HDR_LEN, VIDEO_NAL_SIZE_PRECISION)
  }

  /** `get_gop_size`; None where the program throws. */
  method GetGopSize(hdrByte: bool, index: nat, mmap: FileMap) returns (r: Option<nat>)
    ensures r == if Addressable(mmap.Lists(), index) then Some(GopSize(hdrByte, mmap.Lists(), index)) else None
    ensures var l := mmap.Lists();
            r.Some? <==> && index < |l.vps| && |l.vps[index].nalInfos| > 0 && index < |l.ad|
                         && index < |l.ovd| && index < |l.gvd| && index < |l.avd|
  {
    var l := mmap.Lists();
    if !Addressable(l, index) {
      return None;
    }
    var gopSize := 0;
    if hdrByte {
      gopSize := gopSize + 1;
    }
    var vpsSize := V3C_SIZE_PRECISION + l.vps[index].nalInfos[0].size;
    var adSize := UnitShare(l.ad[index], V3C_HDR_LEN + 1, ATLAS_NAL_SIZE_PRECISION);
    var ovdSize := UnitShare(l.ovd[index], V3C_HDR_LEN, VIDEO_NAL_SIZE_PRECISION);
    var gvdSize := UnitShare(l.gvd[index], V3C_HDR_LEN, VIDEO_NAL_SIZE_PRECISION);
    var avdSize := UnitShare(l.avd[index], V3C_HDR_LEN, VIDEO_NAL_SIZE_PRECISION);
    gopSize := gopSize + (vpsSize + adSize + ovdSize + gvdSize + avdSize);
    r := Some(gopSize);
  }

  /** Everything that is copied lies in the received payloads. */
  predicate GopBytesThere(l: UnitLists, index: nat)
    requires Addressable(l, index)
  {
    var vps := l.vps[index].nalInfos;
    && Low32(vps[0].size) <= |vps[|vps| - 1].buf|
    && BytesThere(l.ad[index].nalInfos) && BytesThere(l.ovd[index].nalInfos)
    && BytesThere(l.gvd[index].nalInfos) && BytesThere(l.avd[index].nalInfos)
  }

  /** The VPS unit: the size of its first entry, and that many bytes of its last one. */
  function WrittenVps(u: UnitInfo): seq<byte>
    requires u.nalInfos != [] && Low32(u.nalInfos[0].size) <= |u.nalInfos[|u.nalInfos| - 1].buf|
  {
    var size := Low32(u.nalInfos[0].size);
    BigEndian(size, V3C_SIZE_PRECISION) + u.nalInfos[|u.nalInfos| - 1].buf[..size]
  }

  const SAMPLE_STREAM_HEADER: byte := 64

  function StreamHeader(hdrByte: bool): seq<byte> {
    if hdrByte then [SAMPLE_STREAM_HEADER] else []
  }

  /** Bytes `done`, and behind them the four units with NAL units. */
  function WithUnitBytes(done: seq<byte>, l: UnitLists, index: nat): seq<byte>
    requires Addressable(l, index) && GopBytesThere(l, index)
  {
    done
    + WrittenUnit(l.ad[index], V3C_SIZE_PRECISION, ATLAS_NAL_SIZE_PRECISION)
    + WrittenUnit(l.ovd[index], V3C_SIZE_PRECISION, VIDEO_NAL_SIZE_PRECISION)
    + WrittenUnit(l.gvd[index], V3C_SIZE_PRECISION, VIDEO_NAL_SIZE_PRECISION)
    + WrittenUnit(l.avd[index], V3C_SIZE_PRECISION, VIDEO_NAL_SIZE_PRECISION)
  }

  function WrittenGop(hdrByte: bool, l: UnitLists, index: nat): seq<byte>
    requires Addressable(l, index) && GopBytesThere(l, index)
  {
    WithUnitBytes(StreamHeader(hdrByte) + WrittenVps(l.vps[index]), l, index)
  }

  /** The stream header, when there is one, is the byte 64: unit sizes of three bytes. */
  lemma GopStart(l: UnitLists, index: nat)
    requires Addressable(l, index) && GopBytesThere(l, index)
    ensures |WrittenGop(true, l, index)| > 0 && WrittenGop(true, l, index)[0] == 64
    ensures WrittenGop(true, l, index) == [64] + WrittenGop(false, l, index)
  {
    hide WrittenUnit, WrittenVps, BytesThere, Low32;
  }

  lemma PatchedAt(b: seq<byte>, at: nat, x: seq<byte>)
    requires at + |x| <= |b| && x != []
    ensures Patch(b, at, x)[at] == x[0]
  {
  }

  /** The GoP size in numbers: size fields of 3 bytes, headers of 4, NAL sizes of 2 and 4. */
  lemma GopSizeIs(hdrByte: bool, l: UnitLists, index: nat)
    requires Addressable(l, index)
    ensures var ad, ovd, gvd, avd := l.ad[index], l.ovd[index], l.gvd[index], l.avd[index];
            GopSize(hdrByte, l, index)
            == (if hdrByte then 1 else 0) + 3 + l.vps[index].nalInfos[0].size
               + (8 + ad.ptr + 2 * |ad.nalInfos|) + (7 + ovd.ptr + 4 * |ovd.nalInfos|)
               + (7 + gvd.ptr + 4 * |gvd.nalInfos|) + (7 + avd.ptr + 4 * |avd.nalInfos|)
  {
  }

  lemma WrittenVpsIs(u: UnitInfo)
    requires u.nalInfos != [] && Low32(u.nalInfos[0].size) <= |u.nalInfos[|u.nalInfos| - 1].buf|
    ensures var size := u.nalInfos[0].size % 0x1_0000_0000;
            && size <= |u.nalInfos[|u.nalInfos| - 1].buf|
            && WrittenVps(u) == BigEndian(size, 3) + u.nalInfos[|u.nalInfos| - 1].buf[..size]
  {
    hide BigEndian;
  }

  method WriteVps(u: UnitInfo, buf: array<byte>, ptr: nat) returns (next: nat)
    requires u.nalInfos != [] && Low32(u.nalInfos[0].size) <= |u.nalInfos[|u.nalInfos| - 1].buf|
    requires ptr + |WrittenVps(u)| <= buf.Length
    modifies buf
    ensures next == ptr + |WrittenVps(u)|
    ensures buf[..] == Patch(old(buf[..]), ptr, WrittenVps(u))
    ensures var size := u.nalInfos[0].size % 0x1_0000_0000;
            WrittenVps(u) == BigEndian(size, 3) + u.nalInfos[|u.nalInfos| - 1].buf[..size]
  {
    hide BigEndian, Patch, Low32;
    WrittenVpsIs(u);
    ghost var b := buf[..];
    var v3cSizeInt := Low32(u.nalInfos[0].size);
    var payload := u.nalInfos[|u.nalInfos| - 1].buf[..v3cSizeInt];
    next := WriteSize(v3cSizeInt, V3C_SIZE_PRECISION, buf, ptr);
    Memcpy(buf, next, payload);
    PatchTwice(b, ptr, BigEndian(v3cSizeInt, V3C_SIZE_PRECISION), payload);
    next := next + v3cSizeInt;
  }

  /**
    `reconstruct_v3c_gop`: writes one GoP at `ptr`; returns its size and the advanced position.
    Where the program throws, nothing was written yet.
   */
  method ReconstructV3cGop(hdrByte: bool, buf: array<byte>, ptr: nat, mmap: FileMap, index: nat)
    returns (r: Option<nat>, next: nat)
    requires Addressable(mmap.Lists(), index) ==> GopBytesThere(mmap.Lists(), index)
    requires Addressable(mmap.Lists(), index) ==> ptr + |WrittenGop(hdrByte, mmap.Lists(), index)| <= buf.Length
    modifies buf
    ensures mmap.Lists() == old(mmap.Lists())
    ensures !Addressable(mmap.Lists(), index) ==> r == None && next == ptr && buf[..] == old(buf[..])
    ensures Addressable(mmap.Lists(), index) ==>
              && r == Some(GopSize(hdrByte, mmap.Lists(), index))
              && next == ptr + |WrittenGop(hdrByte, mmap.Lists(), index)|
              && buf[..] == Patch(old(buf[..]), ptr, WrittenGop(hdrByte, mmap.Lists(), index))
    ensures hdrByte && r.Some? ==> ptr < buf.Length && buf[ptr] == 64
  {
    hide WrittenGop, GopSize, Patch, Addressable, GopBytesThere, FileMap.Lists;
    var l := mmap.Lists();
    r := GetGopSize(hdrByte, index, mmap);
    next := ptr;
    if r.Some? {
      ghost var b := buf[..];
      next := WriteGop(hdrByte, buf, ptr, l, index);
      if hdrByte {
        GopStart(l, index);
        PatchedAt(b, ptr, WrittenGop(true, l, index));
        assert buf[ptr] == buf[..][ptr];
      }
    }
  }

  method WriteGop(hdrByte: bool, buf: array<byte>, ptr: nat, l: UnitLists, index: nat) returns (next: nat)
    requires Addressable(l, index) && GopBytesThere(l, index)
    requires ptr + |WrittenGop(hdrByte, l, index)| <= buf.Length
    modifies buf
    ensures next == ptr + |WrittenGop(hdrByte, l, index)|
    ensures buf[..] == Patch(old(buf[..]), ptr, WrittenGop(hdrByte, l, index))
  {
    hide *;
    GopParts(hdrByte, l, index);
    ghost var b := buf[..];
    next := WriteStreamHeader(hdrByte, buf, ptr);
    ghost var vps := WrittenVps(l.vps[index]);
    next := WriteVps(l.vps[index], buf, next);
    PatchTwice(b, ptr, StreamHeader(hdrByte), vps);
    next := WriteUnits(l, index, buf, next, b, ptr, StreamHeader(hdrByte) + vps);
  }

  /** The four units with NAL units, behind `done`, which was written from `start` on. */
  method WriteUnits(l: UnitLists, index: nat, buf: array<byte>, ptr: nat,
                    ghost b: seq<byte>, ghost start: nat, ghost done: seq<byte>)
    returns (next: nat)
    requires Addressable(l, index) && GopBytesThere(l, index)
    requires |b| == buf.Length && ptr == start + |done|
    requires start + |WithUnitBytes(done, l, index)| <= buf.Length
    requires buf[..] == Patch(b, start, done)
    modifies buf
    ensures next == start + |WithUnitBytes(done, l, index)|
    ensures buf[..] == Patch(b, start, WithUnitBytes(done, l, index))
  {
    hide *;
    ghost var d1, d2, d3 := UnitsSoFar(done, l, index);
    next := AppendUnit(l.ad[index], ATLAS_NAL_SIZE_PRECISION, buf, ptr, b, start, done);
    next := AppendUnit(l.ovd[index], VIDEO_NAL_SIZE_PRECISION, buf, next, b, start, d1);
    next := AppendUnit(l.gvd[index], VIDEO_NAL_SIZE_PRECISION, buf, next, b, start, d2);
    next := AppendUnit(l.avd[index], VIDEO_NAL_SIZE_PRECISION, buf, next, b, start, d3);
  }

  /** What stands in the buffer after each of the first three units. */
  lemma UnitsSoFar(done: seq<byte>, l: UnitLists, index: nat) returns (d1: seq<byte>, d2: seq<byte>, d3: seq<byte>)
    requires Addressable(l, index) && GopBytesThere(l, index)
    ensures index < |l.ad| && index < |l.ovd| && index < |l.gvd| && index < |l.avd|
    ensures BytesThere(l.ad[index].nalInfos) && BytesThere(l.ovd[index].nalInfos)
    ensures BytesThere(l.gvd[index].nalInfos) && BytesThere(l.avd[index].nalInfos)
    ensures V3C_SIZE_PRECISION <= 4 && 0 < ATLAS_NAL_SIZE_PRECISION <= 4 && 0 < VIDEO_NAL_SIZE_PRECISION <= 4
    ensures d1 == done + WrittenUnit(l.ad[index], V3C_SIZE_PRECISION, ATLAS_NAL_SIZE_PRECISION)
    ensures d2 == d1 + WrittenUnit(l.ovd[index], V3C_SIZE_PRECISION, VIDEO_NAL_SIZE_PRECISION)
    ensures d3 == d2 + WrittenUnit(l.gvd[index], V3C_SIZE_PRECISION, VIDEO_NAL_SIZE_PRECISION)
    ensures WithUnitBytes(done, l, index)
         == d3 + WrittenUnit(l.avd[index], V3C_SIZE_PRECISION, VIDEO_NAL_SIZE_PRECISION)
  {
    hide WrittenUnit, BytesThere;
    d1 := done + WrittenUnit(l.ad[index], V3C_SIZE_PRECISION, ATLAS_NAL_SIZE_PRECISION);
    d2 := d1 + WrittenUnit(l.ovd[index], V3C_SIZE_PRECISION, VIDEO_NAL_SIZE_PRECISION);
    d3 := d2 + WrittenUnit(l.gvd[index], V3C_SIZE_PRECISION, VIDEO_NAL_SIZE_PRECISION);
  }

  method WriteStreamHeader(hdrByte: bool, buf: array<byte>, ptr: nat) returns (next: nat)
    requires ptr + |StreamHeader(hdrByte)| <= buf.Length
    modifies buf
    ensures next == ptr + |StreamHeader(hdrByte)|
    ensures buf[..] == Patch(old(buf[..]), ptr, StreamHeader(hdrByte))
  {
    next := ptr;
    PatchNothing(buf[..], ptr);
    if hdrByte {
      Memcpy(buf, ptr, [SAMPLE_STREAM_HEADER]);
      next := ptr + 1;
    }
  }

  /** One more unit behind `done`, which was written from `start` on. */
  method AppendUnit(u: UnitInfo, nalPrecision: nat, buf: array<byte>, ptr: nat,
                    ghost b: seq<byte>, ghost start: nat, ghost done: seq<byte>)
    returns (next: nat)
    requires BytesThere(u.nalInfos) && 0 < nalPrecision <= 4
    requires |b| == buf.Length && ptr == start + |done|
    requires ptr + |WrittenUnit(u, V3C_SIZE_PRECISION, nalPrecision)| <= buf.Length
    requires buf[..] == Patch(b, start, done)
    modifies buf
    ensures next == start + |done + WrittenUnit(u, V3C_SIZE_PRECISION, nalPrecision)|
    ensures buf[..] == Patch(b, start, done + WrittenUnit(u, V3C_SIZE_PRECISION, nalPrecision))
  {
    hide Patch, WrittenUnit, BytesThere;
    next := CreateV3cUnit(u, buf, ptr, V3C_SIZE_PRECISION, nalPrecision);
    PatchTwice(b, start, done, WrittenUnit(u, V3C_SIZE_PRECISION, nalPrecision));
  }

  lemma GopParts(hdrByte: bool, l: UnitLists, index: nat)
    requires Addressable(l, index) && GopBytesThere(l, index)
    ensures index < |l.vps| && l.vps[index].nalInfos != []
    ensures var nals := l.vps[index].nalInfos; Low32(nals[0].size) <= |nals[|nals| - 1].buf|
    ensures WrittenGop(hdrByte, l, index)
         == WithUnitBytes(StreamHeader(hdrByte) + WrittenVps(l.vps[index]), l, index)
    ensures |StreamHeader(hdrByte)| + |WrittenVps(l.vps[index])| <= |WrittenGop(hdrByte, l, index)|
  {
    hide WrittenVps, WrittenUnit, BytesThere, Low32, StreamHeader;
  }

  // ---------------------------------------------------------------- exact size

  lemma WrittenUnitLength(u: UnitInfo, nalPrecision: nat)
    requires BytesThere(u.nalInfos) && nalPrecision > 0
    ensures |WrittenUnit(u, V3C_SIZE_PRECISION, nalPrecision)|
         == UnitShare(u, V3C_HDR_LEN + (if u.header.IsAtlas() then 1 else 0), nalPrecision)
            - u.ptr + SumSizes(u.nalInfos)
  {
    WrittenLength(u.nalInfos, nalPrecision);
  }

  /** The units of a GoP are of the types that their lists are for. */
  predicate GopTypes(l: UnitLists, index: nat)
    requires Addressable(l, index)
  {
    l.ad[index].header.Ad? && l.ovd[index].header.Ovd? && l.gvd[index].header.Gvd? && l.avd[index].header.Avd?
  }

  /**
    The reported GoP size is the number of bytes written exactly when the byte counters of the
    four units and the size of the VPS unit add up to what is copied: the sizes of the NAL units,
    and the VPS size as a 32-bit integer.
   */
  lemma {:induction false} ExactSize(hdrByte: bool, l: UnitLists, index: nat)
    requires Addressable(l, index) && GopBytesThere(l, index) && GopTypes(l, index)
    ensures var vpsSize := l.vps[index].nalInfos[0].size;
            (|WrittenGop(hdrByte, l, index)| == GopSize(hdrByte, l, index)
             <==> vpsSize + l.ad[index].ptr + l.ovd[index].ptr + l.gvd[index].ptr + l.avd[index].ptr
                  == Low32(vpsSize) + SumSizes(l.ad[index].nalInfos) + SumSizes(l.ovd[index].nalInfos)
                     + SumSizes(l.gvd[index].nalInfos) + SumSizes(l.avd[index].nalInfos))
  {
    hide WrittenUnit, SumSizes, BytesThere, UnitShare, Low32, BigEndian;
    WrittenUnitLength(l.ad[index], ATLAS_NAL_SIZE_PRECISION);
    WrittenUnitLength(l.ovd[index], VIDEO_NAL_SIZE_PRECISION);
    WrittenUnitLength(l.gvd[index], VIDEO_NAL_SIZE_PRECISION);
    WrittenUnitLength(l.avd[index], VIDEO_NAL_SIZE_PRECISION);
  }
}
