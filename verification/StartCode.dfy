/**
  The Annex B start-code search of live555/source.cc: a byte-by-byte definition of what
  is looked for, and the word-at-a-time search that has to agree with it.
 */
module StartCode {
  import opened Bytes

  /** The three bytes 00 00 01 stand at `q`. */
  predicate IsStartCode(b: seq<byte>, q: nat) {
    q + 2 < |b| && b[q] == 0 && b[q + 1] == 0 && b[q + 2] == 1
  }

  /** `q` is the answer to a search of [p, end - 3): the least start code, or `end`. */
  ghost predicate IsFirst(b: seq<byte>, p: nat, end: nat, q: nat) {
    && (q == end || (p <= q && q + 3 < end && IsStartCode(b, q)))
    && forall j: nat :: p <= j < q && j + 3 < end ==> !IsStartCode(b, j)
  }

  /** The naive search, one position at a time. */
  function FirstStartCode(b: seq<byte>, p: nat, end: nat): (q: nat)
    ensures IsFirst(b, p, end, q)
    decreases end - p
  {
    if p + 3 >= end then end
    else if IsStartCode(b, p) then p
    else FirstStartCode(b, p + 1, end)
  }

  lemma FirstIsUnique(b: seq<byte>, p: nat, end: nat, q: nat, r: nat)
    requires IsFirst(b, p, end, q) && IsFirst(b, p, end, r)
    ensures q == r
  {
  }

  // ---------------------------------------------------------------- the zero-byte test

  /** A 32-bit word loaded from four consecutive bytes. */
  function Word(b0: byte, b1: byte, b2: byte, b3: byte): bv32 {
    (b0 as bv32) | ((b1 as bv32) << 8) | ((b2 as bv32) << 16) | ((b3 as bv32) << 24)
  }

  /** The test that guards the four comparisons of the word loop. */
  predicate MayHoldZero(x: bv32) {
    ((x - 0x01010101) & !x & 0x80808080) != 0
  }

  /** Each byte of a word, as a bit vector. */
  predicate HasZeroByte(x: bv32) {
    || x & 0x000000FF == 0
    || x & 0x0000FF00 == 0
    || x & 0x00FF0000 == 0
    || x & 0xFF000000 == 0
  }

  /** The test is exact: it passes when, and only when, one of the four bytes is zero. */
  lemma ZeroTestExact(x: bv32)
    ensures MayHoldZero(x) <==> HasZeroByte(x)
  {
  }

  lemma WordZeroByte(b0: byte, b1: byte, b2: byte, b3: byte)
    requires b1 == 0 || b3 == 0
    ensures MayHoldZero(Word(b0, b1, b2, b3))
  {
    var x0, x1, x2, x3 := b0 as bv32, b1 as bv32, b2 as bv32, b3 as bv32;
    LowByte(b0);
    LowByte(b1);
    LowByte(b2);
    LowByte(b3);
    ZeroByteKept(x0, x1, x2, x3);
    ZeroTestExact(Word(b0, b1, b2, b3));
  }

  lemma LowByte(b: byte)
    ensures (b as bv32) < 256
    ensures b == 0 ==> (b as bv32) == 0
  {
  }

  lemma ZeroByteKept(x0: bv32, x1: bv32, x2: bv32, x3: bv32)
    requires x0 < 256 && x1 < 256 && x2 < 256 && x3 < 256
    requires x1 == 0 || x3 == 0
    ensures HasZeroByte(x0 | (x1 << 8) | (x2 << 16) | (x3 << 24))
  {
  }

  // ---------------------------------------------------------------- the search itself

  /**
    Loads the word at `p` and applies the zero-byte test. When it fails, the four positions
    of the word hold no start code: each of them needs a zero at offset 1 or 3.
   */
  method TestWord(buf: array<byte>, p: nat) returns (found: bool)
    requires p + 3 < buf.Length
    ensures found <==> MayHoldZero(Word(buf[p], buf[p + 1], buf[p + 2], buf[p + 3]))
    ensures !found ==> buf[p + 1] != 0 && buf[p + 3] != 0
  {
    var x := Word(buf[p], buf[p + 1], buf[p + 2], buf[p + 3]);
    found := MayHoldZero(x);
    if buf[p + 1] == 0 || buf[p + 3] == 0 {
      WordZeroByte(buf[p], buf[p + 1], buf[p + 2], buf[p + 3]);
    }
  }

  /** No start code at the positions from `lo` up to `hi`. */
  ghost predicate NoneIn(b: seq<byte>, lo: nat, hi: nat) {
    forall j: nat :: lo <= j < hi ==> !IsStartCode(b, j)
  }

  lemma Found(b: seq<byte>, start: nat, limit: nat, q: nat)
    requires start <= q && NoneIn(b, start, q)
    requires q + 3 < limit && IsStartCode(b, q)
    ensures IsFirst(b, start, limit, q)
  {
  }

  lemma NotFound(b: seq<byte>, start: nat, limit: nat, p: nat)
    requires NoneIn(b, start, p) && limit <= p + 3
    ensures IsFirst(b, start, limit, limit)
  {
  }

  lemma NoneInWord(b: seq<byte>, lo: nat, p: nat)
    requires lo <= p && NoneIn(b, lo, p) && p + 5 < |b|
    requires b[p + 1] != 0 || (!IsStartCode(b, p) && !IsStartCode(b, p + 1))
    requires b[p + 3] != 0 || (!IsStartCode(b, p + 2) && !IsStartCode(b, p + 3))
    ensures NoneIn(b, lo, p + 4)
  {
  }

  lemma NextAligned(base: nat, p: nat) returns (a: nat)
    ensures a == p + 4 - (base + p) % 4
    ensures p < a && (base + a) % 4 == 0
  {
    a := p + 4 - (base + p) % 4;
  }

  /** The byte loop of the first and the last phase: one position at a time, up to `stop`. */
  method ScanBytes(buf: array<byte>, start: nat, limit: nat, from: nat, stop: int) returns (hit: bool, p: nat)
    requires stop <= limit - 3 && limit <= buf.Length
    requires start <= from && NoneIn(buf[..], start, from)
    ensures start <= p
    ensures hit ==> IsFirst(buf[..], start, limit, p)
    ensures !hit ==> NoneIn(buf[..], start, p) && p == if from < stop then stop else from
  {
    hide IsFirst;
    ghost var b := buf[..];
    p := from;
    while p < stop
      invariant start <= p && (p <= stop || p == from)
      invariant from <= p && NoneIn(b, start, p)
    {
      if buf[p] == 0 && buf[p + 1] == 0 && buf[p + 2] == 1 {
        Found(b, start, limit, p);
        return true, p;
      }
      p := p + 1;
    }
    hit := false;
  }

  /** The four positions of one word. */
  method ScanWord(buf: array<byte>, start: nat, limit: nat, p: nat) returns (hit: bool, q: nat)
    requires p + 6 < limit <= buf.Length
    requires start <= p && NoneIn(buf[..], start, p)
    ensures hit ==> IsFirst(buf[..], start, limit, q)
    ensures !hit ==> NoneIn(buf[..], start, p + 4)
  {
    hide IsFirst;
    ghost var b := buf[..];
    var mayHold := TestWord(buf, p);
    if mayHold {
      if buf[p + 1] == 0 {
        if buf[p] == 0 && buf[p + 2] == 1 {
          Found(b, start, limit, p);
          return true, p;
        }
        if buf[p + 2] == 0 && buf[p + 3] == 1 {
          Found(b, start, limit, p + 1);
          return true, p + 1;
        }
      }
      if buf[p + 3] == 0 {
        if buf[p + 2] == 0 && buf[p + 4] == 1 {
          Found(b, start, limit, p + 2);
          return true, p + 2;
        }
        if buf[p + 4] == 0 && buf[p + 5] == 1 {
          Found(b, start, limit, p + 3);
          return true, p + 3;
        }
      }
    }
    NoneInWord(b, start, p);
    hit, q := false, p;
  }

  /** The word loop: aligned four-byte loads, all inside the buffer. */
  method ScanWords(buf: array<byte>, base: nat, start: nat, limit: nat, from: nat, end: int)
    returns (hit: bool, p: nat)
    requires end <= limit - 6 && limit <= buf.Length
    requires start <= from && NoneIn(buf[..], start, from)
    requires from < end ==> (base + from) % 4 == 0
    ensures start <= p
    ensures hit ==> IsFirst(buf[..], start, limit, p)
    ensures !hit ==> NoneIn(buf[..], start, p) && end <= p && (p <= end + 3 || p == from)
  {
    hide *;
    p := from;
    while p < end
      invariant start <= p && (p <= end + 3 || p == from)
      invariant p < end ==> (base + p) % 4 == 0
      invariant NoneIn(buf[..], start, p)
    {
      assert (base + p) % 4 == 0;
      var q;
      hit, q := ScanWord(buf, start, limit, p);
      if hit {
        IsFirstAfter(buf[..], start, limit, q);
        return true, q;
      }
      p := p + 4;
    }
    hit := false;
  }

  lemma IsFirstAfter(b: seq<byte>, start: nat, limit: nat, q: nat)
    requires IsFirst(b, start, limit, q) && start < limit
    ensures start <= q
  {
  }

  /**
    The search in its three phases: single bytes up to an aligned address, then whole words,
    then single bytes again, while the bound moves by -3, -3 and +3. `base` is the address of
    the buffer, so `base + p` is the pointer whose alignment the code tests.
   */
  method FindStartCodeInternal(buf: array<byte>, base: nat, start: nat, limit: nat) returns (q: nat)
    requires limit <= buf.Length
    ensures IsFirst(buf[..], start, limit, q)
  {
    hide IsFirst, IsStartCode, FirstStartCode;
    var p: nat, end: int := start, limit;
    var a := p + 4 - (base + p) % 4;
    ghost var a' := NextAligned(base, p);
    var hit;

    end := end - 3;
    hit, p := ScanBytes(buf, start, limit, p, if a < end then a else end);
    if hit {
      return p;
    }

    end := end - 3;
    hit, p := ScanWords(buf, base, start, limit, p, end);
    if hit {
      return p;
    }

    end := end + 3;
    hit, p := ScanBytes(buf, start, limit, p, end);
    if hit {
      return p;
    }
    NotFound(buf[..], start, limit, p);
    return end + 3;
  }

  /** Where a NAL unit ends: one byte before the start code when a zero precedes it. */
  function NalBoundary(b: seq<byte>, p: nat, end: nat): (q: nat)
    requires end <= |b|
    ensures p <= end ==> p <= q <= end
  {
    var out := FirstStartCode(b, p, end);
    if p < out < end && b[out - 1] == 0 then out - 1 else out
  }

  method FindStartCode(buf: array<byte>, base: nat, p: nat, end: nat) returns (out: nat)
    requires end <= buf.Length
    ensures out == NalBoundary(buf[..], p, end)
  {
    out := FindStartCodeInternal(buf, base, p, end);
    FirstIsUnique(buf[..], p, end, out, FirstStartCode(buf[..], p, end));
    if p < out && out < end && buf[out - 1] == 0 {
      out := out - 1;
    }
  }
}
