/**
  The second start-code scanner, `get_next_frame_start` of util/util.cc, and the splitter
  `splitIntoNals` of util/live555_util.cc that is built on it. The scanner counts zeros in an
  8-bit counter that wraps; the lemmas say exactly when that matters, and that on well-formed
  byte streams the splitter agrees with the iterator of live555/source.cc.
 */
module FrameStart {
  import opened Bytes
  import opened StartCode
  import NalIterator

  /** Number of zeros right before `i`, not looking before `from`. */
  function ZeroRun(b: seq<byte>, from: nat, i: nat): (n: nat)
    requires from <= i <= |b|
    ensures n <= i - from
    decreases i
  {
    if i == from || b[i - 1] != 0 then 0 else 1 + ZeroRun(b, from, i - 1)
  }

  /** The scanner stops here: a one, after at least two zeros by the count of a wrapping byte. */
  predicate Hit(b: seq<byte>, from: nat, i: nat)
    requires from <= i < |b|
  {
    b[i] == 1 && ZeroRun(b, from, i) % 256 >= 2
  }

  /** The first hit at or after `i`, or |b|, when counting starts at `from`. */
  function HitFrom(b: seq<byte>, from: nat, i: nat): (h: nat)
    requires from <= i <= |b|
    ensures i <= h <= |b|
    ensures h < |b| ==> Hit(b, from, h)
    ensures forall j :: i <= j < h ==> !Hit(b, from, j)
    decreases |b| - i
  {
    if i == |b| || Hit(b, from, i) then i else HitFrom(b, from, i + 1)
  }

  /** The start-code length that the scanner reports, an 8-bit value. */
  function ReportedLength(b: seq<byte>, from: nat, h: nat): (n: nat)
    requires from <= h < |b| && Hit(b, from, h)
    ensures n <= h + 1 - from
  {
    (ZeroRun(b, from, h) % 256 + 1) % 256
  }

  lemma HitStep(b: seq<byte>, from: nat, i: nat)
    requires from <= i < |b|
    ensures HitFrom(b, from, i) == if Hit(b, from, i) then i else HitFrom(b, from, i + 1)
    ensures ZeroRun(b, from, i + 1) == if b[i] == 0 then ZeroRun(b, from, i) + 1 else 0
  {
  }

  /** Counting one more zero in a byte that wraps. */
  lemma ZeroCount(n: nat)
    ensures (n % 256 + 1) % 256 == (n + 1) % 256
  {
  }

  /**
    The scanner itself. `startLen` is an in-out parameter of the program: it keeps its value
    when no start code is found.
   */
  method GetNextFrameStart(data: seq<byte>, offset: nat, startLenIn: byte) returns (r: int, startLen: byte)
    ensures if offset <= |data| && HitFrom(data, offset, offset) < |data|
            then var h := HitFrom(data, offset, offset);
                 r == h + 1 && startLen == ReportedLength(data, offset, h)
            else r == -1 && startLen == startLenIn
  {
    hide HitFrom, ZeroRun;
    startLen := startLenIn;
    var zeros: byte := 0;
    assert offset <= |data| ==> ZeroRun(data, offset, offset) == 0;
    var pos := 0;
    while offset + pos < |data|
      invariant offset + pos <= |data| || pos == 0
      invariant offset + pos <= |data| ==> zeros == ZeroRun(data, offset, offset + pos) % 256
      invariant offset + pos <= |data| ==> HitFrom(data, offset, offset) == HitFrom(data, offset, offset + pos)
    {
      HitStep(data, offset, offset + pos);
      ZeroCount(ZeroRun(data, offset, offset + pos));
      if zeros >= 2 && data[offset + pos] == 1 {
        startLen := (zeros + 1) % 256;
        return offset + pos + 1, startLen;
      }
      if data[offset + pos] == 0 {
        zeros := (zeros + 1) % 256;
      } else {
        zeros := 0;
      }
      pos := pos + 1;
    }
    return -1, startLen;
  }

  // ---------------------------------------------------------------- what a hit means

  /** The true first start code at or after `from`, also one at the very end of the buffer. */
  function TrueStart(b: seq<byte>, from: nat): nat {
    FirstStartCode(b, from, |b| + 1)
  }

  lemma RunOfTwo(b: seq<byte>, from: nat, i: nat)
    requires from <= i < |b| && b[i] == 1
    ensures ZeroRun(b, from, i) >= 2 <==> i >= from + 2 && IsStartCode(b, i - 2)
  {
  }

  /**
    The scanner stops at the first start code exactly when the zeros counted before its one,
    modulo 256, are at least two; with no start code it finds nothing.
   */
  lemma FindsTrueStart(b: seq<byte>, from: nat)
    requires from <= |b|
    ensures var q := TrueStart(b, from);
            if q + 2 < |b|
            then HitFrom(b, from, from) == q + 2 <==> ZeroRun(b, from, q + 2) % 256 >= 2
            else HitFrom(b, from, from) == |b|
  {
    var q, h := TrueStart(b, from), HitFrom(b, from, from);
    assert IsFirst(b, from, |b| + 1, q);
    if h < |b| {
      RunOfTwo(b, from, h);
      assert IsStartCode(b, h - 2) && q <= h - 2;
    }
    if q + 2 < |b| {
      assert IsStartCode(b, q);
      assert Hit(b, from, q + 2) <==> ZeroRun(b, from, q + 2) % 256 >= 2;
    }
  }

  function Zeros(n: nat): (s: seq<byte>)
    ensures |s| == n && forall i :: 0 <= i < n ==> s[i] == 0
  {
    seq(n, i => 0)
  }

  lemma {:induction false} RunOfZeros(b: seq<byte>, i: nat)
    requires i <= |b| && forall j :: 0 <= j < i ==> b[j] == 0
    ensures ZeroRun(b, 0, i) == i
    decreases i
  {
    if i > 0 {
      RunOfZeros(b, i - 1);
    }
  }

  /** With 256 zeros the counter is back at zero and the start code is missed. */
  lemma WrapMissesStartCode()
    ensures var b := Zeros(256) + [1];
            TrueStart(b, 0) == 254 && HitFrom(b, 0, 0) == |b|
  {
    var b := Zeros(256) + [1];
    assert IsStartCode(b, 254);
    assert forall j: nat :: j < 254 ==> !IsStartCode(b, j);
    FirstIsUnique(b, 0, |b| + 1, 254, TrueStart(b, 0));
    RunOfZeros(b, 256);
    assert forall j :: 0 <= j < 256 ==> b[j] == 0;
    assert !Hit(b, 0, 256);
  }

  // ---------------------------------------------------------------- the splitter

  /** The NAL units that the splitter pushes once it stands behind a start code, at `prev`. */
  function SplitFrom(b: seq<byte>, prev: nat): seq<Span>
    requires prev <= |b|
    decreases |b| - prev
  {
    var h := HitFrom(b, prev, prev);
    if h == |b| then [Span(prev, |b| - prev)]
    else [Span(prev, h + 1 - prev - ReportedLength(b, prev, h))] + SplitFrom(b, h + 1)
  }

  function SplitOf(b: seq<byte>): seq<Span> {
    var h := HitFrom(b, 0, 0);
    if h == |b| then [Span(0, |b|)] else SplitFrom(b, h + 1)
  }

  lemma SplitStep(b: seq<byte>, prev: nat, h: nat)
    requires prev <= |b| && h == HitFrom(b, prev, prev) < |b|
    ensures prev + 2 <= h
    ensures SplitFrom(b, prev)
         == [Span(prev, h + 1 - prev - ReportedLength(b, prev, h))] + SplitFrom(b, h + 1)
  {
  }

  lemma SplitLast(b: seq<byte>, prev: nat)
    requires prev <= |b| && HitFrom(b, prev, prev) == |b|
    ensures SplitFrom(b, prev) == [Span(prev, |b| - prev)]
  {
  }

  lemma SplitFirst(b: seq<byte>, h: nat)
    requires h == HitFrom(b, 0, 0)
    ensures SplitOf(b) == if h == |b| then [Span(0, |b|)] else SplitFrom(b, h + 1)
    ensures 2 <= h || h == |b|
  {
    hide SplitFrom, HitFrom;
  }

  /**
    `splitIntoNals`, on the bytes of one chunk that lies at address `base`: pushes a pointer
    and a length for each NAL unit onto the queue `nals`.
   */
  method SplitIntoNals(chunk: seq<byte>, base: nat, nals: seq<Span>) returns (pushed: seq<Span>)
    ensures pushed == nals + Shift(base, SplitOf(chunk))
  {
    hide *;
    pushed := nals;
    var startLen: byte := 0;
    var prevOffset: int := 0;
    var offset: int;
    SplitFirst(chunk, HitFrom(chunk, 0, 0));
    offset, startLen := GetNextFrameStart(chunk, 0, startLen);
    prevOffset := offset;

    while offset != -1
      invariant -1 <= offset <= |chunk| && -1 <= prevOffset <= |chunk|
      invariant prevOffset == -1 ==> offset == -1 && pushed == nals && SplitOf(chunk) == [Span(0, |chunk|)]
      invariant prevOffset != -1 ==>
                  && prevOffset >= 3
                  && offset in {-1, prevOffset}
                  && nals + Shift(base, SplitOf(chunk)) == pushed + Shift(base, SplitFrom(chunk, prevOffset))
      invariant prevOffset != -1 && offset == -1 ==>
                  SplitFrom(chunk, prevOffset) == [Span(prevOffset, |chunk| - prevOffset)]
      decreases if offset == -1 then 0 else |chunk| - prevOffset + 1
    {
      ghost var h := HitFrom(chunk, prevOffset, prevOffset);
      offset, startLen := GetNextFrameStart(chunk, offset, startLen);
      if offset > 4 && offset != -1 {
        SplitStep(chunk, prevOffset, h);
        ShiftCons(base, Span(prevOffset, offset - prevOffset - startLen), SplitFrom(chunk, offset));
        pushed := pushed + [Span(base + prevOffset, offset - prevOffset - startLen)];
        prevOffset := offset;
      } else if h < |chunk| {
        // the guard `offset > 4` never turns a start code away
        SplitStep(chunk, prevOffset, h);
        assert false;
      } else {
        SplitLast(chunk, prevOffset);
      }
    }

    if prevOffset == -1 {
      prevOffset := 0;
    }
    pushed := pushed + [Span(base + prevOffset, |chunk| - prevOffset)];
  }

  // ---------------------------------------------------------------- exact tiling

  /** From `from` on, at most 254 zeros before any one: count and start-code length do not wrap. */
  ghost predicate ShortRuns(b: seq<byte>, from: nat)
    requires from <= |b|
  {
    forall i :: from <= i < |b| && b[i] == 1 ==> ZeroRun(b, from, i) <= 254
  }

  /** A run of zeros does not reach back over a byte that is not zero. */
  lemma {:induction false} RunRestarts(b: seq<byte>, from: nat, mid: nat, i: nat)
    requires from < mid <= i <= |b| && b[mid - 1] != 0
    ensures ZeroRun(b, from, i) == ZeroRun(b, mid, i)
    decreases i
  {
    if i > mid {
      RunRestarts(b, from, mid, i - 1);
    }
  }

  lemma {:induction false} RunIsZeros(b: seq<byte>, from: nat, i: nat)
    requires from <= i <= |b|
    ensures forall j :: i - ZeroRun(b, from, i) <= j < i ==> b[j] == 0
    ensures i - ZeroRun(b, from, i) > from ==> b[i - ZeroRun(b, from, i) - 1] != 0
    decreases i
  {
    if i > from && b[i - 1] == 0 {
      RunIsZeros(b, from, i - 1);
    }
  }

  /** All the zeros before a one, at least two of them, and the one. */
  predicate IsSeparator(s: seq<byte>) {
    |s| >= 3 && s[|s| - 1] == 1 && forall j :: 0 <= j < |s| - 1 ==> s[j] == 0
  }

  /** Spans in order, a separator after each but the last, up to the end of the buffer. */
  ghost predicate Separated(b: seq<byte>, from: nat, spans: seq<Span>)
    decreases |spans|
  {
    && spans != []
    && spans[0].start == from
    && spans[0].Within(b)
    && (forall q: nat :: from <= q && q + 2 < spans[0].End() ==> !IsStartCode(b, q))
    && if |spans| == 1 then spans[0].End() == |b|
       else
         && spans[0].End() <= spans[1].start <= |b|
         && IsSeparator(b[spans[0].End()..spans[1].start])
         && (spans[0].size > 0 ==> b[spans[0].End() - 1] != 0)
         && Separated(b, spans[1].start, spans[1..])
  }

  /** Short runs up to a hit, at the hit, and behind it. */
  ghost predicate ShortUpTo(b: seq<byte>, from: nat, h: nat)
    requires from <= h <= |b|
  {
    forall i :: from <= i < h && b[i] == 1 ==> ZeroRun(b, from, i) <= 254
  }

  lemma ShortRunsSplit(b: seq<byte>, from: nat, h: nat)
    requires from <= h < |b| && b[h] == 1
    ensures ShortRuns(b, from)
       <==> ShortUpTo(b, from, h) && ZeroRun(b, from, h) <= 254 && ShortRuns(b, h + 1)
  {
    forall i | h + 1 <= i < |b| ensures ZeroRun(b, from, i) == ZeroRun(b, h + 1, i) {
      RunRestarts(b, from, h + 1, i);
    }
    hide ZeroRun;
    assert ShortRuns(b, from) ==> ZeroRun(b, from, h) <= 254;
  }

  ghost predicate NoCodeUpTo(b: seq<byte>, from: nat, end: nat) {
    forall q: nat :: from <= q && q + 2 < end ==> !IsStartCode(b, q)
  }

  /** Before the first hit, short runs mean no start code, as far as the last run of zeros. */
  lemma MissedCodes(b: seq<byte>, prev: nat, end: nat, h: nat)
    requires prev <= end <= h <= |b| && h == HitFrom(b, prev, prev)
    requires forall j :: end <= j < h ==> b[j] == 0
    ensures NoCodeUpTo(b, prev, end) <==> ShortUpTo(b, prev, h)
  {
    hide HitFrom, ZeroRun, IsStartCode;
    forall i | prev <= i < h && b[i] == 1
      ensures ZeroRun(b, prev, i) % 256 < 2
      ensures ZeroRun(b, prev, i) >= 2 <==> i >= prev + 2 && IsStartCode(b, i - 2)
    {
      RunOfTwo(b, prev, i);
      assert !Hit(b, prev, i);
    }
    if NoCodeUpTo(b, prev, end) {
      forall i | prev <= i < h && b[i] == 1 ensures ZeroRun(b, prev, i) <= 254 {
        assert i < end;
        if i >= prev + 2 {
          assert !IsStartCode(b, i - 2);
        }
      }
    }
    if ShortUpTo(b, prev, h) {
      forall q: nat | prev <= q && q + 2 < end ensures !IsStartCode(b, q) {
        CodeEndsInOne(b, q);
        if b[q + 2] == 1 {
          assert ZeroRun(b, prev, q + 2) <= 254;
        }
      }
    }
  }

  lemma CodeEndsInOne(b: seq<byte>, q: nat)
    ensures IsStartCode(b, q) ==> q + 2 < |b| && b[q + 2] == 1
  {
  }

  /** What stands between two spans: all the zeros before a one, and the one. */
  predicate GoodSeparator(b: seq<byte>, prev: nat, end: nat, h: nat)
    requires prev <= end <= h + 1 <= |b|
  {
    IsSeparator(b[end..h + 1]) && (end > prev ==> b[end - 1] != 0)
  }

  /** The reported length cuts off exactly the separator if and only if the count did not wrap. */
  lemma SeparatorExact(b: seq<byte>, prev: nat, h: nat)
    requires prev <= h < |b| && Hit(b, prev, h)
    ensures GoodSeparator(b, prev, h + 1 - ReportedLength(b, prev, h), h) <==> ZeroRun(b, prev, h) <= 254
    ensures ZeroRun(b, prev, h) <= 254 ==> ReportedLength(b, prev, h) == ZeroRun(b, prev, h) + 1
  {
    RunIsZeros(b, prev, h);
    var r := ZeroRun(b, prev, h);
    hide ZeroRun;
    var end := h + 1 - ReportedLength(b, prev, h);
    if r <= 254 {
      assert end == h - r;
      var s := b[end..h + 1];
      assert |s| >= 3 && s[|s| - 1] == 1;
      forall j | 0 <= j < |s| - 1 ensures s[j] == 0 {
        assert s[j] == b[end + j];
      }
    } else if r % 256 == 255 {
      assert end == h + 1;
    } else {
      assert end == h - r % 256 && h - r <= end - 1 < h;
      assert b[end - 1] == 0;
    }
  }

  lemma SeparatedCons(b: seq<byte>, prev: nat, end: nat, h: nat, rest: seq<Span>)
    requires prev <= end <= h + 1 <= |b|
    requires rest != [] && rest[0].start == h + 1
    ensures Separated(b, prev, [Span(prev, end - prev)] + rest)
       <==> NoCodeUpTo(b, prev, end) && GoodSeparator(b, prev, end, h) && Separated(b, h + 1, rest)
  {
    var spans := [Span(prev, end - prev)] + rest;
    assert spans[1..] == rest && spans[1] == rest[0];
    hide IsSeparator, IsStartCode;
  }

  lemma SeparatedOne(b: seq<byte>, prev: nat)
    requires prev <= |b|
    ensures Separated(b, prev, [Span(prev, |b| - prev)]) <==> NoCodeUpTo(b, prev, |b|)
  {
    hide IsSeparator, IsStartCode;
  }

  lemma StartsAt(b: seq<byte>, prev: nat)
    requires prev <= |b|
    ensures SplitFrom(b, prev) != [] && SplitFrom(b, prev)[0].start == prev
  {
    var h := HitFrom(b, prev, prev);
    if h == |b| {
      SplitLast(b, prev);
    } else {
      SplitStep(b, prev, h);
    }
    hide SplitFrom;
  }

  lemma HitHasOne(b: seq<byte>, from: nat, h: nat)
    requires from <= h < |b| && Hit(b, from, h)
    ensures b[h] == 1
  {
  }

  lemma ExactAtHit(b: seq<byte>, prev: nat, h: nat)
    requires prev <= |b| && h == HitFrom(b, prev, prev) < |b|
    requires Separated(b, h + 1, SplitFrom(b, h + 1)) <==> ShortRuns(b, h + 1)
    ensures Separated(b, prev, SplitFrom(b, prev)) <==> ShortRuns(b, prev)
  {
    hide *;
    SplitStep(b, prev, h);
    StartsAt(b, h + 1);
    HitHasOne(b, prev, h);
    ShortRunsSplit(b, prev, h);
    SeparatorExact(b, prev, h);
    var end := h + 1 - ReportedLength(b, prev, h);
    SeparatedCons(b, prev, end, h, SplitFrom(b, h + 1));
    if ZeroRun(b, prev, h) <= 254 {
      RunIsZeros(b, prev, h);
      MissedCodes(b, prev, end, h);
    }
  }

  lemma ShortRunsIs(b: seq<byte>, prev: nat)
    requires prev <= |b|
    ensures ShortRuns(b, prev) <==> ShortUpTo(b, prev, |b|)
  {
    hide ZeroRun;
  }

  lemma ExactAtEnd(b: seq<byte>, prev: nat)
    requires prev <= |b| && HitFrom(b, prev, prev) == |b|
    ensures Separated(b, prev, SplitFrom(b, prev)) <==> ShortRuns(b, prev)
  {
    hide *;
    SplitLast(b, prev);
    SeparatedOne(b, prev);
    MissedCodes(b, prev, |b|, |b|);
    ShortRunsIs(b, prev);
  }

  /** Behind a hit the splitter separates units from start codes exactly when no run is too long. */
  lemma {:induction false} SplitFromExact(b: seq<byte>, prev: nat)
    requires prev <= |b|
    ensures Separated(b, prev, SplitFrom(b, prev)) <==> ShortRuns(b, prev)
    decreases |b| - prev
  {
    hide *;
    var h := HitFrom(b, prev, prev);
    if h == |b| {
      ExactAtEnd(b, prev);
    } else {
      SplitFromExact(b, h + 1);
      ExactAtHit(b, prev, h);
    }
  }

  /**
    `splitIntoNals`, on any chunk. Without a start code the chunk is one NAL unit. Otherwise the
    units and the separators between them cover the chunk from the first start code on, every
    separator takes all the zeros before its one, and no unit holds a start code, if and only if
    the zeros before the first start code's one are at least two modulo 256 and every later one
    has at most 254 zeros before it.
   */
  lemma {:induction false} SplitCovers(b: seq<byte>)
    ensures var q := TrueStart(b, 0);
            if q + 2 < |b|
            then Separated(b, q + 3, SplitOf(b))
                 <==> ZeroRun(b, 0, q + 2) % 256 >= 2 && ShortRuns(b, q + 3)
            else SplitOf(b) == [Span(0, |b|)]
  {
    hide *;
    var q := TrueStart(b, 0);
    FindsTrueStart(b, 0);
    var h := HitFrom(b, 0, 0);
    SplitFirst(b, h);
    if q + 2 < |b| {
      if h == q + 2 {
        SplitFromExact(b, q + 3);
      } else {
        if h < |b| {
          StartsAt(b, h + 1);
        }
        WrongStart(b, q + 3, SplitOf(b));
      }
    }
  }

  lemma WrongStart(b: seq<byte>, from: nat, spans: seq<Span>)
    requires spans != [] && spans[0].start != from
    ensures !Separated(b, from, spans)
  {
  }

  // ---------------------------------------------------------------- the last NAL unit of a chunk

  /** The chunk ends in a start code that the scanner sees. */
  predicate EndsInCode(c: seq<byte>) {
    c != [] && c[|c| - 1] == 1 && ZeroRun(c, 0, |c| - 1) % 256 >= 2
  }

  lemma HitAtEnd(b: seq<byte>, prev: nat)
    requires 0 < prev < |b| && b[prev - 1] == 1
    ensures Hit(b, prev, |b| - 1) <==> EndsInCode(b)
  {
    RunRestarts(b, 0, prev, |b| - 1);
    hide ZeroRun;
  }

  lemma {:induction false} LastSpanFrom(b: seq<byte>, prev: nat)
    requires 0 < prev <= |b| && b[prev - 1] == 1 && ZeroRun(b, 0, prev - 1) % 256 >= 2
    ensures SplitFrom(b, prev) != []
    ensures SplitFrom(b, prev)[|SplitFrom(b, prev)| - 1].size == 0 <==> EndsInCode(b)
    decreases |b| - prev
  {
    var h := HitFrom(b, prev, prev);
    if h == |b| {
      SplitLast(b, prev);
      if prev < |b| {
        HitAtEnd(b, prev);
      }
      hide ZeroRun, SplitFrom;
    } else {
      SplitStep(b, prev, h);
      RunRestarts(b, 0, prev, h);
      hide ZeroRun, SplitFrom, HitFrom, EndsInCode;
      LastSpanFrom(b, h + 1);
    }
  }

  /** The last NAL unit of a chunk is empty exactly when the chunk is, or ends in a start code. */
  lemma LastOfSplit(b: seq<byte>)
    ensures SplitOf(b) != []
    ensures SplitOf(b)[|SplitOf(b)| - 1].size == 0 <==> b == [] || EndsInCode(b)
  {
    var h := HitFrom(b, 0, 0);
    SplitFirst(b, h);
    hide ZeroRun, SplitFrom, HitFrom, SplitOf;
    if h < |b| {
      LastSpanFrom(b, h + 1);
    } else if b != [] {
      assert !Hit(b, 0, |b| - 1);
    }
  }

  // ---------------------------------------------------------------- the two splitters agree

  /** The splitter's spans lie inside the chunk. */
  lemma {:induction false} SplitFromWithin(b: seq<byte>, prev: nat)
    requires prev <= |b|
    ensures SplitFrom(b, prev) != []
    ensures forall s <- SplitFrom(b, prev) :: s.Within(b)
    decreases |b| - prev
  {
    var h := HitFrom(b, prev, prev);
    if h < |b| {
      SplitFromWithin(b, h + 1);
    }
  }

  lemma SplitWithin(b: seq<byte>)
    ensures SplitOf(b) != []
    ensures forall s <- SplitOf(b) :: s.Within(b)
  {
    var h := HitFrom(b, 0, 0);
    if h < |b| {
      SplitFromWithin(b, h + 1);
    }
  }

  /** Behind a NAL unit the scanner finds the next start code, and counts just its zeros. */
  lemma HitAfterNal(b: seq<byte>, at: nat, nal: seq<byte>, long: bool)
    requires NalIterator.IsNal(nal) && Holds(b, at, nal)
    requires Holds(b, at + |nal|, NalIterator.Code(long))
    ensures var h := at + |nal| + NalIterator.CodeLength(long) - 1;
            HitFrom(b, at, at) == h && ReportedLength(b, at, h) == NalIterator.CodeLength(long)
  {
    var e := at + |nal|;
    HoldsAt(b, at, nal, |nal| - 1);
    HitAtCode(b, at, e, long) by {
      forall q: nat | at <= q < e
        ensures !IsStartCode(b, q)
      {
        NalIterator.NoCodeInNal(b, at, nal, q);
      }
    }
  }

  /** A start code of either form: where its three-byte form is, and the zeros before its one. */
  lemma CodeAt(b: seq<byte>, from: nat, e: nat, long: bool)
    requires from <= e <= |b| && (e > from ==> b[e - 1] != 0)
    requires Holds(b, e, NalIterator.Code(long))
    ensures var h := e + NalIterator.CodeLength(long) - 1;
            && h < |b| && IsStartCode(b, h - 2) && ZeroRun(b, from, h) == h - e
            && (long ==> !IsStartCode(b, e))
  {
    var code := NalIterator.Code(long);
    HoldsAt(b, e, code, 0);
    HoldsAt(b, e, code, 1);
    HoldsAt(b, e, code, 2);
    assert ZeroRun(b, from, e) == 0;
    assert ZeroRun(b, from, e + 1) == 1 && ZeroRun(b, from, e + 2) == 2;
    if long {
      HoldsAt(b, e, code, 3);
      assert ZeroRun(b, from, e + 3) == 3;
    }
  }

  /** The scanner finds a start code at `e`, when nothing before it is one or ends in zero. */
  lemma HitAtCode(b: seq<byte>, from: nat, e: nat, long: bool)
    requires from <= e <= |b| && (e > from ==> b[e - 1] != 0)
    requires forall q: nat :: from <= q < e ==> !IsStartCode(b, q)
    requires Holds(b, e, NalIterator.Code(long))
    ensures var h := e + NalIterator.CodeLength(long) - 1;
            HitFrom(b, from, from) == h && ReportedLength(b, from, h) == NalIterator.CodeLength(long)
  {
    CodeAt(b, from, e, long);
    hide Holds, ZeroRun, IsStartCode, HitFrom, NalIterator.Code;
    FirstIsUnique(b, from, |b| + 1, e + NalIterator.CodeLength(long) - 3, TrueStart(b, from));
    FindsTrueStart(b, from);
  }

  lemma NoHitInLastNal(b: seq<byte>, at: nat, nal: seq<byte>)
    requires NalIterator.IsNal(nal) && Holds(b, at, nal) && at + |nal| == |b|
    ensures HitFrom(b, at, at) == |b|
  {
    forall q: nat | at <= q < |b|
      ensures !IsStartCode(b, q)
    {
      NalIterator.NoCodeInNal(b, at, nal, q);
    }
    FirstIsUnique(b, at, |b| + 1, |b| + 1, TrueStart(b, at));
    FindsTrueStart(b, at);
  }

  lemma {:induction false} SplitsWhatWasWritten(b: seq<byte>, at: nat, units: seq<NalIterator.Unit>)
    requires NalIterator.WellFormed(units) && units != []
    requires at <= |b| && b[at..] == NalIterator.ByteStream(units)
    ensures at + NalIterator.CodeLength(units[0].long) <= |b|
    ensures SplitFrom(b, at + NalIterator.CodeLength(units[0].long)) == NalIterator.SpansAt(at, units)
    decreases |units|
  {
    hide *;
    var u := units[0];
    var start := at + NalIterator.CodeLength(u.long);
    NalIterator.HeadIsNal(units);
    NalIterator.SpansStep(at, units);
    var next := NalIterator.StreamParts(b, at, units);
    if |units| == 1 {
      NalIterator.EmptyStream(b, next, units[1..]);
      NoHitInLastNal(b, start, u.nal);
      SplitLast(b, start);
    } else {
      var v := units[1];
      var afterNext := NalIterator.StreamParts(b, next, units[1..]);
      HitAfterNal(b, start, u.nal, v.long);
      SplitStep(b, start, next + NalIterator.CodeLength(v.long) - 1);
      SplitsWhatWasWritten(b, next, units[1..]);
    }
  }

  lemma SplitsWholeStream(units: seq<NalIterator.Unit>)
    requires NalIterator.WellFormed(units) && units != []
    ensures SplitOf(NalIterator.ByteStream(units)) == NalIterator.SpansAt(0, units)
  {
    hide *;
    var b := NalIterator.ByteStream(units);
    assert b[0..] == b;
    var next := NalIterator.StreamParts(b, 0, units);
    HitAtCode(b, 0, 0, units[0].long);
    SplitFirst(b, HitFrom(b, 0, 0));
    SplitsWhatWasWritten(b, 0, units);
  }

  /**
    The two splitters agree: on every well-formed byte stream the chunk splitter pushes the
    very spans that the file iterator returns, with no bound on the zero runs inside NAL units.
   */
  lemma {:induction false} SplittersAgree(units: seq<NalIterator.Unit>)
    requires NalIterator.WellFormed(units)
    ensures var b := NalIterator.ByteStream(units);
            SplitOf(b) == NalIterator.NalsOf(b) <==> units != []
  {
    var b := NalIterator.ByteStream(units);
    NalIterator.RoundTrip(units);
    if units != [] {
      hide *;
      SplitsWholeStream(units);
    } else {
      assert b == [];
      assert SplitOf(b) == [Span(0, 0)];
    }
  }
}
