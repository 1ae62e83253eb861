/**
  The NAL unit iterator of live555/source.cc: repeated calls of `find_next_nal` walk a whole
  Annex B file. What the calls return is a list of spans; that list tiles the file, and on a
  well-formed byte stream it is the list of NAL units that was written.
 */
module NalIterator {
  import opened Bytes
  import opened StartCode

  /** The cursor after skipping zeros and the one byte that ends the run. */
  function SkipZeros(b: seq<byte>, cursor: nat): (r: nat)
    ensures cursor <= |b| ==> cursor <= r <= |b|
    ensures cursor < |b| ==> cursor < r
    decreases |b| - cursor
  {
    if cursor >= |b| then cursor
    else if b[cursor] == 0 then SkipZeros(b, cursor + 1)
    else cursor + 1
  }

  /** What successive calls return from a given cursor on. */
  function NalsFrom(b: seq<byte>, cursor: nat): seq<Span>
    requires cursor <= |b|
    decreases |b| - cursor
  {
    var start := SkipZeros(b, cursor);
    if start == |b| then []
    else
      var end := NalBoundary(b, start, |b|);
      [Span(start, end - start)] + NalsFrom(b, end)
  }

  /** What successive calls return on a file that is not open yet. */
  function NalsOf(b: seq<byte>): seq<Span> {
    NalsFrom(b, NalBoundary(b, 0, |b|))
  }

  function Sizes(spans: seq<Span>): nat {
    if spans == [] then 0 else spans[0].size + Sizes(spans[1..])
  }

  /** What the delivery loop sends: it takes an empty NAL unit for the end of the file. */
  function UntilEmpty(spans: seq<Span>): seq<Span> {
    if spans == [] || spans[0].size == 0 then [] else [spans[0]] + UntilEmpty(spans[1..])
  }

  class NalReader {
    const file: array<byte>
    const base: nat
    var isOpen: bool
    var nalStart: nat
    var nalEnd: nat
    var len: nat

    ghost predicate Valid()
      reads this, file
    {
      nalStart <= file.Length && (!isOpen ==> len == 0)
    }

    /** The NAL units that the calls still to come will return. */
    ghost function Remaining(): seq<Span>
      requires Valid()
      reads this, file
    {
      if isOpen then NalsFrom(file[..], nalStart) else NalsOf(file[..])
    }

    constructor (file: array<byte>, base: nat)
      ensures Valid() && this.file == file
      ensures len == 0 && Remaining() == NalsOf(file[..])
    {
      this.file := file;
      this.base := base;
      isOpen, nalStart, nalEnd, len := false, 0, 0, 0;
    }

    /** The loop that moves the cursor over zeros and the byte that ends them. */
    method SkipCode()
      requires nalStart <= file.Length
      modifies `nalStart
      ensures nalStart == SkipZeros(file[..], old(nalStart)) <= file.Length
    {
      ghost var cursor := nalStart;
      var atZero := true;
      while nalStart < file.Length && atZero
        invariant nalStart <= file.Length
        invariant SkipZeros(file[..], cursor) == if atZero then SkipZeros(file[..], nalStart) else nalStart
        decreases file.Length - nalStart
      {
        atZero := file[nalStart] == 0;
        nalStart := nalStart + 1;
      }
    }

    /** Returns the next NAL unit, or (0, None) when there is none, now and on every later call. */
    method FindNextNal() returns (size: nat, nal: Option<nat>)
      requires Valid()
      modifies this
      ensures Valid() && isOpen
      ensures old(Remaining()) == [] ==>
                (size, nal) == (0, None) && Remaining() == [] && len == old(len)
      ensures old(Remaining()) != [] ==>
                && (size, nal) == (old(Remaining())[0].size, Some(old(Remaining())[0].start))
                && Remaining() == old(Remaining())[1..]
                && len == old(len) + size
    {
      ghost var b := file[..];
      var end := file.Length;
      if !isOpen {
        isOpen := true;
        len := 0;
        nalStart := FindStartCode(file, base, 0, end);
      }
      ghost var cursor := nalStart;
      hide NalsFrom, NalBoundary, SkipZeros;
      assert old(Remaining()) == NalsFrom(b, cursor);

      SkipCode();

      if nalStart == end {
        NalsEnd(b, cursor);
        NalsEnd(b, nalStart);
        return 0, None;
      }

      nalEnd := FindStartCode(file, base, nalStart, end);
      NalsStep(b, cursor, nalStart, nalEnd);
      size, nal := nalEnd - nalStart, Some(nalStart);
      len := len + (nalEnd - nalStart);
      nalStart := nalEnd;
    }

    /** Calls until the first null result: every NAL unit in order, and `len` is their total. */
    method ReadAll() returns (spans: seq<Span>)
      requires Valid() && !isOpen
      modifies this
      ensures Valid()
      ensures spans == NalsOf(file[..])
      ensures len == Sizes(spans)
      ensures Remaining() == []
    {
      hide NalsFrom, NalBoundary, NalsOf;
      spans := [];
      ghost var all := NalsOf(file[..]);
      ghost var left := all;
      var size, nal := FindNextNal();
      while nal.Some?
        invariant Valid()
        invariant left == [] ==> spans == all
        invariant all == spans + left
        invariant left == [] ==> nal.None? && Remaining() == []
        invariant left != [] ==> nal.Some? && Span(nal.value, size) == left[0] && Remaining() == left[1..]
        invariant len == Sizes(spans) + if left == [] then 0 else size
        decreases |left|
      {
        SizesSnoc(spans, left[0]);
        SplitHead(spans, left);
        spans := spans + [Span(nal.value, size)];
        left := left[1..];
        size, nal := FindNextNal();
      }
    }

    /** The delivery loop: stops at the first result without a size or without a pointer. */
    method DeliverAll() returns (sent: seq<Span>, bytes: nat)
      requires Valid() && !isOpen
      modifies this
      ensures Valid()
      ensures sent == UntilEmpty(NalsOf(file[..]))
      ensures bytes == Sizes(sent)
    {
      hide NalsFrom, NalBoundary, NalsOf;
      sent, bytes := [], 0;
      ghost var all := UntilEmpty(NalsOf(file[..]));
      ghost var left := NalsOf(file[..]);
      var size, nal := FindNextNal();
      while !(size == 0 || nal == None)
        invariant Valid()
        invariant all == sent + UntilEmpty(left)
        invariant left == [] ==> size == 0
        invariant left != [] ==> nal.Some? && Span(nal.value, size) == left[0] && Remaining() == left[1..]
        invariant bytes == Sizes(sent)
        decreases |left|
      {
        SizesSnoc(sent, left[0]);
        SplitHead(sent, UntilEmpty(left));
        sent, bytes := sent + [Span(nal.value, size)], bytes + size;
        left := left[1..];
        size, nal := FindNextNal();
      }
    }
  }

  lemma SplitHead<T>(xs: seq<T>, ys: seq<T>)
    requires ys != []
    ensures xs + ys == (xs + [ys[0]]) + ys[1..]
  {
  }

  lemma {:induction false} SizesSnoc(spans: seq<Span>, s: Span)
    ensures Sizes(spans + [s]) == Sizes(spans) + s.size
  {
    if spans == [] {
      assert spans + [s] == [s];
      assert Sizes([s]) == s.size + Sizes([]);
    } else {
      assert (spans + [s])[1..] == spans[1..] + [s];
      SizesSnoc(spans[1..], s);
    }
  }

  // ---------------------------------------------------------------- tiling, on every buffer

  predicate IsCode(s: seq<byte>) {
    s == [0, 0, 1] || s == [0, 0, 0, 1]
  }

  /** The spans and the start codes before them cover the buffer from `from` to its end. */
  ghost predicate Tiled(b: seq<byte>, from: nat, spans: seq<Span>)
    decreases |spans|
  {
    if spans == [] then from == |b|
    else
      && from <= spans[0].start
      && spans[0].Within(b)
      && IsCode(b[from..spans[0].start])
      && (forall q: nat :: spans[0].start <= q < spans[0].End() && q + 3 < |b| ==> !IsStartCode(b, q))
      && Tiled(b, spans[0].End(), spans[1..])
  }

  /** The cursor stands at a start code with at least one byte behind it. */
  ghost predicate AtCode(b: seq<byte>, s: nat) {
    || (IsStartCode(b, s) && s + 3 < |b|)
    || (s + 4 < |b| && b[s] == 0 && IsStartCode(b, s + 1))
  }

  lemma BoundaryAtCode(b: seq<byte>, p: nat)
    requires p <= |b|
    ensures NalBoundary(b, p, |b|) == |b| || AtCode(b, NalBoundary(b, p, |b|))
  {
  }

  lemma SkipCode(b: seq<byte>, s: nat)
    requires AtCode(b, s)
    ensures SkipZeros(b, s) < |b|
    ensures IsCode(b[s..SkipZeros(b, s)])
  {
    if IsStartCode(b, s) {
      assert SkipZeros(b, s) == SkipZeros(b, s + 1) == SkipZeros(b, s + 2) == s + 3;
    } else {
      assert SkipZeros(b, s) == SkipZeros(b, s + 1) == SkipZeros(b, s + 2) == SkipZeros(b, s + 3) == s + 4;
    }
  }

  lemma {:induction false} TilingFrom(b: seq<byte>, cursor: nat)
    requires cursor == |b| || AtCode(b, cursor)
    ensures cursor <= |b| && Tiled(b, cursor, NalsFrom(b, cursor))
    decreases |b| - cursor
  {
    if cursor < |b| {
      SkipCode(b, cursor);
      var start := SkipZeros(b, cursor);
      var end := NalBoundary(b, start, |b|);
      BoundaryAtCode(b, start);
      TilingFrom(b, end);
      var spans := NalsFrom(b, cursor);
      assert spans[0] == Span(start, end - start);
      assert spans[1..] == NalsFrom(b, end);
    }
  }

  /**
    From the first start code on, any file is start code, NAL unit, start code, NAL unit, ...
    to its last byte, each start code is 00 00 01 or 00 00 00 01, and no NAL unit holds a
    start code that the search reports. Before that point there is no start code to report.
   */
  lemma {:induction false} Tiling(b: seq<byte>)
    ensures Tiled(b, NalBoundary(b, 0, |b|), NalsOf(b))
    ensures forall q: nat :: q < NalBoundary(b, 0, |b|) && q + 3 < |b| ==> !IsStartCode(b, q)
  {
    BoundaryAtCode(b, 0);
    TilingFrom(b, NalBoundary(b, 0, |b|));
  }

  /** Number of start-code bytes that a tiling accounts for. */
  function CodeBytes(from: nat, spans: seq<Span>): int
    decreases |spans|
  {
    if spans == [] then 0 else spans[0].start - from + CodeBytes(spans[0].End(), spans[1..])
  }

  /** Byte conservation: NAL units and start codes add up, and every unit costs at least 3 bytes. */
  lemma {:induction false} TiledConserves(b: seq<byte>, from: nat, spans: seq<Span>)
    requires Tiled(b, from, spans)
    ensures from + CodeBytes(from, spans) + Sizes(spans) == |b|
    ensures 3 * |spans| <= CodeBytes(from, spans) <= 4 * |spans|
    decreases |spans|
  {
    if spans != [] {
      assert |b[from..spans[0].start]| == spans[0].start - from;
      TiledConserves(b, spans[0].End(), spans[1..]);
    }
  }

  // ---------------------------------------------------------------- well-formed byte streams

  /** A NAL unit that a byte stream can carry: no start code inside, no trailing zero. */
  predicate IsNal(n: seq<byte>) {
    && n != []
    && n[|n| - 1] != 0
    && forall q :: 0 <= q < |n| ==> !IsStartCode(n, q)
  }

  function CodeLength(long: bool): nat {
    if long then 4 else 3
  }

  function Code(long: bool): (s: seq<byte>)
    ensures |s| == CodeLength(long)
  {
    if long then [0, 0, 0, 1] else [0, 0, 1]
  }

  /** A NAL unit together with the choice of the start code in front of it. */
  datatype Unit = Unit(long: bool, nal: seq<byte>) {
    function Bytes(): seq<byte> {
      Code(long) + nal
    }
  }

  predicate WellFormed(units: seq<Unit>) {
    forall u <- units :: IsNal(u.nal)
  }

  /** The byte stream of Annex B, section B.2, of Rec. ITU-T H.265. */
  function ByteStream(units: seq<Unit>): seq<byte> {
    if units == [] then [] else units[0].Bytes() + ByteStream(units[1..])
  }

  /** Where the NAL units of a stream lie when it is written at position `at`. */
  function SpansAt(at: nat, units: seq<Unit>): (r: seq<Span>)
    ensures |r| == |units|
    decreases |units|
  {
    if units == [] then []
    else
      var start := at + CodeLength(units[0].long);
      [Span(start, |units[0].nal|)] + SpansAt(start + |units[0].nal|, units[1..])
  }

  /** Nothing follows a NAL unit, or a start code and at least one more byte do. */
  predicate Continues(rest: seq<byte>) {
    || rest == []
    || (|rest| > 3 && rest[..3] == [0, 0, 1])
    || (|rest| > 4 && rest[..4] == [0, 0, 0, 1])
  }

  lemma StreamContinues(units: seq<Unit>)
    requires WellFormed(units)
    ensures Continues(ByteStream(units))
  {
    hide IsStartCode;
    if units != [] {
      assert units[0] in units;
      var s := ByteStream(units);
      assert s == Code(units[0].long) + (units[0].nal + ByteStream(units[1..]));
      assert s[..CodeLength(units[0].long)] == Code(units[0].long);
    }
  }

  /** No start code begins inside a NAL unit, not even one that reaches into what follows. */
  lemma NoCodeInNal(b: seq<byte>, at: nat, nal: seq<byte>, q: nat)
    requires IsNal(nal) && Holds(b, at, nal)
    requires at <= q < at + |nal|
    ensures !IsStartCode(b, q)
  {
    HoldsAt(b, at, nal, |nal| - 1);
    if q + 2 < at + |nal| {
      HoldsAt(b, at, nal, q - at);
      HoldsAt(b, at, nal, q + 1 - at);
      HoldsAt(b, at, nal, q + 2 - at);
      assert !IsStartCode(nal, q - at);
    }
  }

  lemma BoundaryOfNal(b: seq<byte>, at: nat, nal: seq<byte>)
    requires IsNal(nal) && Holds(b, at, nal) && Continues(b[at + |nal|..])
    ensures NalBoundary(b, at, |b|) == at + |nal|
  {
    var e := at + |nal|;
    forall q: nat | at <= q < e
      ensures !IsStartCode(b, q)
    {
      NoCodeInNal(b, at, nal, q);
    }
    HoldsAt(b, at, nal, |nal| - 1);
    CodeAfter(b, e);
    var q := if e == |b| || IsStartCode(b, e) then e else e + 1;
    FirstIsUnique(b, at, |b|, q, FirstStartCode(b, at, |b|));
  }

  lemma CodeAfter(b: seq<byte>, e: nat)
    requires e <= |b| && Continues(b[e..])
    ensures || e == |b|
            || (e + 3 < |b| && IsStartCode(b, e))
            || (e + 4 < |b| && b[e] == 0 && !IsStartCode(b, e) && IsStartCode(b, e + 1))
  {
    var rest := b[e..];
    if |rest| > 3 && rest[..3] == [0, 0, 1] {
      assert rest[0] == rest[..3][0] && rest[1] == rest[..3][1] && rest[2] == rest[..3][2];
    } else if |rest| > 4 {
      assert rest[0] == rest[..4][0] && rest[1] == rest[..4][1];
      assert rest[2] == rest[..4][2] && rest[3] == rest[..4][3];
    }
  }

  lemma SkipWrittenCode(b: seq<byte>, at: nat, long: bool)
    requires Holds(b, at, Code(long))
    ensures SkipZeros(b, at) == at + CodeLength(long)
  {
    HoldsAt(b, at, Code(long), 0);
    HoldsAt(b, at, Code(long), 1);
    HoldsAt(b, at, Code(long), 2);
    assert SkipZeros(b, at) == SkipZeros(b, at + 1) == SkipZeros(b, at + 2);
    if long {
      HoldsAt(b, at, Code(long), 3);
      assert SkipZeros(b, at + 2) == SkipZeros(b, at + 3) == at + 4;
    }
  }

  lemma ByteStreamStep(units: seq<Unit>)
    requires units != []
    ensures ByteStream(units) == Code(units[0].long) + units[0].nal + ByteStream(units[1..])
  {
  }

  lemma StreamParts(b: seq<byte>, at: nat, units: seq<Unit>) returns (next: nat)
    requires units != []
    requires at <= |b| && b[at..] == ByteStream(units)
    ensures next == at + CodeLength(units[0].long) + |units[0].nal| <= |b|
    ensures Holds(b, at, Code(units[0].long))
    ensures Holds(b, at + CodeLength(units[0].long), units[0].nal)
    ensures b[next..] == ByteStream(units[1..])
  {
    hide *;
    ByteStreamStep(units);
    var u, rest := units[0], ByteStream(units[1..]);
    Assoc(Code(u.long), u.nal, rest);
    SuffixParts(b, at, Code(u.long), u.nal + rest);
    SuffixParts(b, at + CodeLength(u.long), u.nal, rest);
    next := at + CodeLength(u.long) + |u.nal|;
  }

  lemma NalsStep(b: seq<byte>, cursor: nat, start: nat, end: nat)
    requires cursor <= |b| && start == SkipZeros(b, cursor) < |b|
    requires end == NalBoundary(b, start, |b|)
    ensures start <= end <= |b|
    ensures NalsFrom(b, cursor) == [Span(start, end - start)] + NalsFrom(b, end)
  {
  }

  lemma NalsEnd(b: seq<byte>, cursor: nat)
    requires cursor <= |b| == SkipZeros(b, cursor)
    ensures NalsFrom(b, cursor) == []
  {
  }

  lemma HeadIsNal(units: seq<Unit>)
    requires WellFormed(units) && units != []
    ensures IsNal(units[0].nal) && |units[0].nal| > 0 && WellFormed(units[1..])
  {
    assert units[0] in units;
  }

  lemma ReadsOneUnit(b: seq<byte>, at: nat, units: seq<Unit>) returns (next: nat)
    requires WellFormed(units) && units != []
    requires at <= |b| && b[at..] == ByteStream(units)
    ensures next == at + CodeLength(units[0].long) + |units[0].nal| <= |b|
    ensures WellFormed(units[1..]) && b[next..] == ByteStream(units[1..])
    ensures NalsFrom(b, at)
         == [Span(at + CodeLength(units[0].long), |units[0].nal|)] + NalsFrom(b, next)
  {
    hide *;
    var u := units[0];
    var start := at + CodeLength(u.long);
    HeadIsNal(units);
    next := StreamParts(b, at, units);
    StreamContinues(units[1..]);
    SkipWrittenCode(b, at, u.long);
    BoundaryOfNal(b, start, u.nal);
    NalsStep(b, at, start, next);
  }

  lemma SpansStep(at: nat, units: seq<Unit>)
    requires units != []
    ensures SpansAt(at, units)
         == [Span(at + CodeLength(units[0].long), |units[0].nal|)]
            + SpansAt(at + CodeLength(units[0].long) + |units[0].nal|, units[1..])
  {
  }

  lemma EmptyStream(b: seq<byte>, at: nat, units: seq<Unit>)
    requires units == []
    requires at <= |b| && b[at..] == ByteStream(units)
    ensures at == |b| && SpansAt(at, units) == []
  {
  }

  lemma ReadsNothing(b: seq<byte>, at: nat)
    requires at <= |b| && b[at..] == ByteStream([])
    ensures NalsFrom(b, at) == SpansAt(at, [])
  {
  }

  lemma {:induction false} ReadsWhatWasWritten(b: seq<byte>, at: nat, units: seq<Unit>)
    requires WellFormed(units)
    requires at <= |b| && b[at..] == ByteStream(units)
    ensures NalsFrom(b, at) == SpansAt(at, units)
    decreases |units|
  {
    hide *;
    if units == [] {
      ReadsNothing(b, at);
    } else {
      var next := ReadsOneUnit(b, at, units);
      ReadsWhatWasWritten(b, next, units[1..]);
      SpansStep(at, units);
    }
  }

  lemma {:induction false} SpansHoldNals(b: seq<byte>, at: nat, units: seq<Unit>, i: nat)
    requires i < |units|
    requires at <= |b| && b[at..] == ByteStream(units)
    ensures SpansAt(at, units)[i].Within(b)
    ensures SpansAt(at, units)[i].Of(b) == units[i].nal
    decreases |units|
  {
    var next := StreamParts(b, at, units);
    SpansStep(at, units);
    if i > 0 {
      SpansHoldNals(b, next, units[1..], i - 1);
    }
  }

  lemma FirstBoundary(b: seq<byte>)
    requires Continues(b)
    ensures NalBoundary(b, 0, |b|) == 0
  {
    assert b[0..] == b;
    CodeAfter(b, 0);
    var q := if b == [] || IsStartCode(b, 0) then 0 else 1;
    FirstIsUnique(b, 0, |b|, q, FirstStartCode(b, 0, |b|));
  }

  /**
    The Annex B round trip: on a well-formed stream the iterator returns exactly the NAL units
    that were written, whatever mix of start codes stands between them.
   */
  lemma {:induction false} RoundTrip(units: seq<Unit>)
    requires WellFormed(units)
    ensures var b := ByteStream(units);
            && NalsOf(b) == SpansAt(0, units)
            && (forall i :: 0 <= i < |units| ==> NalsOf(b)[i].Within(b) && NalsOf(b)[i].Of(b) == units[i].nal)
  {
    var b := ByteStream(units);
    assert b[0..] == b;
    StreamContinues(units);
    FirstBoundary(b);
    ReadsWhatWasWritten(b, 0, units);
    forall i | 0 <= i < |units|
      ensures SpansAt(0, units)[i].Within(b) && SpansAt(0, units)[i].Of(b) == units[i].nal
    {
      SpansHoldNals(b, 0, units, i);
    }
  }

  // ---------------------------------------------------------------- which files are delivered whole

  /** From `from` on, no start code stands right behind another, both with a byte to follow. */
  ghost predicate NoneDoubled(b: seq<byte>, from: nat) {
    forall q: nat :: from <= q && IsStartCode(b, q) ==> !AtCode(b, q + 3)
  }

  /** The iterator stops where it stands exactly when it stands at a start code. */
  lemma BoundaryHere(b: seq<byte>, s: nat)
    requires s < |b|
    ensures NalBoundary(b, s, |b|) == s <==> AtCode(b, s)
  {
    if AtCode(b, s) {
      FirstIsUnique(b, s, |b|, if IsStartCode(b, s) then s else s + 1, FirstStartCode(b, s, |b|));
    }
  }

  /** One iterator step: where the code before the unit ends, and that the unit holds no code. */
  lemma StepShape(b: seq<byte>, cursor: nat, start: nat, end: nat)
    requires AtCode(b, cursor) && start == SkipZeros(b, cursor) && end == NalBoundary(b, start, |b|)
    ensures cursor + 3 <= start <= end <= |b| && start < |b|
    ensures IsStartCode(b, start - 3)
    ensures forall q: nat :: cursor <= q < start && IsStartCode(b, q) ==> q == start - 3
    ensures forall q: nat :: start <= q < end && q + 3 < |b| ==> !IsStartCode(b, q)
    ensures end == |b| || AtCode(b, end)
  {
    SkipCode(b, cursor);
    BoundaryAtCode(b, start);
    var code := b[cursor..start];
    assert forall i :: 0 <= i < |code| ==> code[i] == b[cursor + i];
    hide SkipZeros;
  }

  lemma DoubledStep(b: seq<byte>, cursor: nat, start: nat, end: nat)
    requires AtCode(b, cursor) && start == SkipZeros(b, cursor) && end == NalBoundary(b, start, |b|)
    ensures start <= end <= |b|
    ensures NoneDoubled(b, cursor) <==> start < end && NoneDoubled(b, end)
  {
    StepShape(b, cursor, start, end);
    BoundaryHere(b, start);
    hide SkipZeros, NalBoundary;
    if start < end && NoneDoubled(b, end) {
      forall q: nat | cursor <= q && IsStartCode(b, q) ensures !AtCode(b, q + 3) {
        assert q < end ==> q == start - 3 || q + 3 >= |b|;
      }
    }
    assert IsStartCode(b, start - 3) && start - 3 + 3 == start;
  }

  lemma UntilEmptyCons(s: Span, rest: seq<Span>)
    ensures UntilEmpty([s] + rest) == [s] + rest <==> s.size > 0 && UntilEmpty(rest) == rest
  {
    var all := [s] + rest;
    assert all[1..] == rest;
    if s.size > 0 {
      assert UntilEmpty(all) == [s] + UntilEmpty(rest);
      assert UntilEmpty(all)[1..] == UntilEmpty(rest);
    }
  }

  lemma NothingBehind(b: seq<byte>)
    ensures NalsFrom(b, |b|) == [] && UntilEmpty([]) == [] && NoneDoubled(b, |b|)
  {
  }

  lemma {:induction false} DeliveredFrom(b: seq<byte>, cursor: nat)
    requires cursor == |b| || AtCode(b, cursor)
    ensures cursor <= |b|
    ensures UntilEmpty(NalsFrom(b, cursor)) == NalsFrom(b, cursor) <==> NoneDoubled(b, cursor)
    decreases |b| - cursor
  {
    if cursor == |b| {
      NothingBehind(b);
    } else {
      var start := SkipZeros(b, cursor);
      var end := NalBoundary(b, start, |b|);
      StepShape(b, cursor, start, end);
      hide *;
      DoubledStep(b, cursor, start, end);
      NalsStep(b, cursor, start, end);
      UntilEmptyCons(Span(start, end - start), NalsFrom(b, end));
      DeliveredFrom(b, end);
    }
  }

  /**
    The delivery loop sends every NAL unit of a file exactly when no start code of the file has
    another one, with at least one more byte, right behind it.
   */
  lemma {:induction false} DeliveredWhole(b: seq<byte>)
    ensures UntilEmpty(NalsOf(b)) == NalsOf(b)
       <==> forall q: nat :: !(IsStartCode(b, q) && q + 3 < |b| && AtCode(b, q + 3))
  {
    var first := NalBoundary(b, 0, |b|);
    BoundaryAtCode(b, 0);
    Tiling(b);
    DeliveredFrom(b, first);
    hide NalBoundary, NalsFrom, UntilEmpty;
    assert NoneDoubled(b, 0) <==> NoneDoubled(b, first);
  }

  /** A well-formed stream is delivered in full. */
  lemma WellFormedIsDelivered(units: seq<Unit>)
    requires WellFormed(units)
    ensures UntilEmpty(NalsOf(ByteStream(units))) == NalsOf(ByteStream(units))
  {
    RoundTrip(units);
    AllSent(NalsOf(ByteStream(units))) by {
      forall i | 0 <= i < |units| ensures NalsOf(ByteStream(units))[i].size > 0 {
        assert units[i] in units;
        assert |NalsOf(ByteStream(units))[i].Of(ByteStream(units))| > 0;
      }
    }
  }

  lemma {:induction false} AllSent(spans: seq<Span>)
    requires forall i :: 0 <= i < |spans| ==> spans[i].size > 0
    ensures UntilEmpty(spans) == spans
  {
    if spans != [] {
      AllSent(spans[1..]);
    }
  }

  /** What is sent in any case: the spans before the first empty one. */
  lemma {:induction false} SentPrefix(spans: seq<Span>)
    ensures var sent := UntilEmpty(spans);
            && |sent| <= |spans| && sent == spans[..|sent|]
            && (forall i :: 0 <= i < |sent| ==> sent[i].size > 0)
            && (|sent| < |spans| ==> spans[|sent|].size == 0)
  {
    if spans != [] && spans[0].size > 0 {
      SentPrefix(spans[1..]);
      var rest := UntilEmpty(spans[1..]);
      assert UntilEmpty(spans) == [spans[0]] + rest;
      assert spans[..|rest| + 1] == [spans[0]] + spans[1..][..|rest|];
    }
  }

  /** Two start codes in a row: the second NAL unit of this file is never sent. */
  lemma EmptyNalStopsDelivery()
    ensures var b := [0, 0, 1, 0, 0, 1, 5];
            NalsOf(b) == [Span(3, 0), Span(6, 1)] && UntilEmpty(NalsOf(b)) == []
  {
    var b: seq<byte> := [0, 0, 1, 0, 0, 1, 5];
    FirstIsUnique(b, 0, 7, 0, FirstStartCode(b, 0, 7));
    assert SkipZeros(b, 0) == SkipZeros(b, 1) == SkipZeros(b, 2) == 3;
    assert IsStartCode(b, 3);
    FirstIsUnique(b, 3, 7, 3, FirstStartCode(b, 3, 7));
    NalsStep(b, 0, 3, 3);
    assert SkipZeros(b, 3) == SkipZeros(b, 4) == SkipZeros(b, 5) == 6;
    FirstIsUnique(b, 6, 7, 7, FirstStartCode(b, 6, 7));
    NalsStep(b, 3, 6, 7);
    NalsEnd(b, 7);
  }
}
