/**
  The chunk source of util/live555_util.cc: a queue of chunks, each split into NAL units, each
  sent in segments of at most MAX_WRITE_SIZE bytes, one segment per `sendFrame` call.
 */
module FramedSource {
  import opened Bytes
  import NalIterator
  import FrameStart

  const MAX_WRITE_SIZE := 1444

  // ---------------------------------------------------------------- segments

  /** The segments of a NAL unit from `off` on: full ones, then what is left. */
  function SegmentsFrom(n: seq<byte>, off: nat): (r: seq<seq<byte>>)
    requires off <= |n|
    ensures r != []
    decreases |n| - off
  {
    if |n| - off <= MAX_WRITE_SIZE then [n[off..]]
    else [n[off..off + MAX_WRITE_SIZE]] + SegmentsFrom(n, off + MAX_WRITE_SIZE)
  }

  function SegmentsOf(nals: seq<seq<byte>>): (r: seq<seq<byte>>)
    ensures nals != [] ==> r != []
  {
    if nals == [] then [] else SegmentsFrom(nals[0], 0) + SegmentsOf(nals[1..])
  }

  function Last<T>(s: seq<T>): T
    requires s != []
  {
    s[|s| - 1]
  }

  /** Number of calls that a NAL unit of `n` bytes takes. */
  function Calls(n: nat): nat {
    if n == 0 then 1 else (n + MAX_WRITE_SIZE - 1) / MAX_WRITE_SIZE
  }

  /** Segments are in order and complete. */
  lemma {:induction false} SegmentsConcat(n: seq<byte>, off: nat)
    requires off <= |n|
    ensures Concat(SegmentsFrom(n, off)) == n[off..]
    decreases |n| - off
  {
    if |n| - off <= MAX_WRITE_SIZE {
      ConcatOne(n[off..]);
    } else {
      var next := off + MAX_WRITE_SIZE;
      SegmentsConcat(n, next);
      assert n[off..] == n[off..next] + n[next..];
    }
  }

  /** As many segments as needed, none too long, all full except for the last one. */
  lemma {:induction false} SegmentsShape(n: seq<byte>, off: nat)
    requires off <= |n|
    ensures |SegmentsFrom(n, off)| == Calls(|n| - off) == if off == |n| then 1 else (|n| - off + 1443) / 1444
    ensures forall i :: 0 <= i < |SegmentsFrom(n, off)| - 1 ==> |SegmentsFrom(n, off)[i]| == 1444
    ensures |Last(SegmentsFrom(n, off))| <= 1444
    decreases |n| - off
  {
    if |n| - off > MAX_WRITE_SIZE {
      SegmentsShape(n, off + MAX_WRITE_SIZE);
    }
  }

  lemma {:induction false} SegmentsOfConcat(nals: seq<seq<byte>>)
    ensures Concat(SegmentsOf(nals)) == Concat(nals)
  {
    if nals != [] {
      SegmentsConcat(nals[0], 0);
      SegmentsOfConcat(nals[1..]);
      ConcatSplit(SegmentsFrom(nals[0], 0), SegmentsOf(nals[1..]));
    }
  }

  // ---------------------------------------------------------------- chunks

  function NalsOfChunk(c: seq<byte>): (r: seq<seq<byte>>)
    ensures r != []
  {
    FrameStart.SplitWithin(c);
    Contents(c, FrameStart.SplitOf(c))
  }

  function ChunkSegments(c: seq<byte>): (r: seq<seq<byte>>)
    ensures r != []
  {
    SegmentsOf(NalsOfChunk(c))
  }

  /**
    What is still to be sent when a chunk has just ended with segment `stale`. The source keeps
    its pointer to the last NAL unit, so `stale` goes out again at the head of the next chunk.
   */
  function AfterChunk(stale: seq<byte>, chunks: seq<seq<byte>>): seq<seq<byte>>
    decreases |chunks|, 0
  {
    if chunks == [] then []
    else [stale] + Then(ChunkSegments(chunks[0]), chunks[1..])
  }

  /** The segments pending for the current chunk, and then the other chunks. */
  function Then(pending: seq<seq<byte>>, chunks: seq<seq<byte>>): seq<seq<byte>>
    requires pending != []
    decreases |chunks|, 1
  {
    pending + AfterChunk(Last(pending), chunks)
  }

  /** Everything that a source without a NAL unit in hand sends. */
  function Run(chunks: seq<seq<byte>>): seq<seq<byte>> {
    if chunks == [] then [] else Then(ChunkSegments(chunks[0]), chunks[1..])
  }

  lemma ThenStep(first: seq<byte>, pending: seq<seq<byte>>, chunks: seq<seq<byte>>)
    requires pending != []
    ensures Then([first] + pending, chunks) == [first] + Then(pending, chunks)
  {
    var all := [first] + pending;
    assert Last(all) == Last(pending);
    hide AfterChunk;
    var tail := AfterChunk(Last(pending), chunks);
    Assoc([first], pending, tail);
  }

  // ---------------------------------------------------------------- the future of a source

  /** A NAL unit that the source points at, and how much of it was sent. */
  datatype InHand = InHand(nal: seq<byte>, off: nat) {
    /** What one more call would send, and whether that is all. */
    predicate LastSegment() {
      |nal| <= off + MAX_WRITE_SIZE
    }
  }

  function Pending(hand: Option<InHand>, queue: seq<seq<byte>>): (r: seq<seq<byte>>)
    requires hand.Some? ==> hand.value.off <= |hand.value.nal|
    ensures hand.Some? || queue != [] ==> r != []
  {
    (if hand.Some? then SegmentsFrom(hand.value.nal, hand.value.off) else []) + SegmentsOf(queue)
  }

  /** All the segments that a source sends from a given state on. */
  function Future(active: bool, hand: Option<InHand>, queue: seq<seq<byte>>, chunks: seq<seq<byte>>): seq<seq<byte>>
    requires hand.Some? ==> hand.value.off <= |hand.value.nal|
    requires active ==> hand.Some? || queue != []
  {
    if active then Then(Pending(hand, queue), chunks)
    else if hand.Some? then AfterChunk(hand.value.nal[hand.value.off..], chunks)
    else Run(chunks)
  }

  lemma LoadKeepsFuture(hand: Option<InHand>, chunks: seq<seq<byte>>)
    requires hand.Some? ==> hand.value.off <= |hand.value.nal| && hand.value.LastSegment()
    requires chunks != []
    ensures Future(false, hand, [], chunks) == Future(true, hand, NalsOfChunk(chunks[0]), chunks[1..])
  {
    var segs := ChunkSegments(chunks[0]);
    if hand.Some? {
      var stale := hand.value.nal[hand.value.off..];
      ThenStep(stale, segs, chunks[1..]);
    } else {
      assert Pending(hand, NalsOfChunk(chunks[0])) == segs;
    }
  }

  lemma TakeKeepsFuture(queue: seq<seq<byte>>, chunks: seq<seq<byte>>)
    requires queue != []
    ensures Future(true, None, queue, chunks) == Future(true, Some(InHand(queue[0], 0)), queue[1..], chunks)
  {
    assert Pending(None, queue) == Pending(Some(InHand(queue[0], 0)), queue[1..]);
  }

  /** What a call leaves pending: it sends the head of `Pending`. */
  lemma PendingStep(hand: InHand, queue: seq<seq<byte>>)
    requires hand.off <= |hand.nal|
    ensures var InHand(n, off) := hand;
            Pending(Some(hand), queue) ==
            if !hand.LastSegment() then
              [n[off..off + MAX_WRITE_SIZE]] + Pending(Some(InHand(n, off + MAX_WRITE_SIZE)), queue)
            else [n[off..]] + Pending(None, queue)
  {
    var InHand(n, off) := hand;
    if !hand.LastSegment() {
      var first, rest := n[off..off + MAX_WRITE_SIZE], SegmentsFrom(n, off + MAX_WRITE_SIZE);
      assert SegmentsFrom(n, off) == [first] + rest;
      Assoc([first], rest, SegmentsOf(queue));
    }
  }

  /** One segment: the middle of a NAL unit, its end, or its end and that of the chunk. */
  lemma SendTakesFirst(hand: InHand, queue: seq<seq<byte>>, chunks: seq<seq<byte>>)
    requires hand.off <= |hand.nal|
    ensures var InHand(n, off) := hand;
            Future(true, Some(hand), queue, chunks) ==
            if !hand.LastSegment() then
              [n[off..off + MAX_WRITE_SIZE]]
              + Future(true, Some(InHand(n, off + MAX_WRITE_SIZE)), queue, chunks)
            else if queue != [] then [n[off..]] + Future(true, None, queue, chunks)
            else [n[off..]] + Future(false, Some(hand), [], chunks)
  {
    var InHand(n, off) := hand;
    PendingStep(hand, queue);
    EndOfChunk(n[off..], chunks);
    hide Pending, Then, AfterChunk;
    if !hand.LastSegment() {
      ThenStep(n[off..off + MAX_WRITE_SIZE], Pending(Some(InHand(n, off + MAX_WRITE_SIZE)), queue), chunks);
    } else if queue != [] {
      ThenStep(n[off..], Pending(None, queue), chunks);
    }
  }

  lemma EndOfChunk(x: seq<byte>, chunks: seq<seq<byte>>)
    ensures [x] + Pending(None, []) == [x]
    ensures Then([x], chunks) == [x] + AfterChunk(x, chunks)
  {
    hide AfterChunk;
  }

  /** The state after a chunk was taken: its NAL units are queued, and the future is the same. */
  lemma ChunkTaken(mem: seq<byte>, chunks: seq<Span>, nals: seq<Span>, hand: Option<InHand>)
    requires chunks != [] && forall s <- chunks :: s.Within(mem)
    requires chunks[0].Within(mem)
    requires nals == [] + Shift(chunks[0].start, FrameStart.SplitOf(chunks[0].Of(mem)))
    requires hand.Some? ==> hand.value.off <= |hand.value.nal| && hand.value.LastSegment()
    ensures nals != [] && forall s <- nals :: s.Within(mem)
    ensures forall s <- chunks[1..] :: s.Within(mem)
    ensures Future(false, hand, Contents(mem, []), Contents(mem, chunks))
         == Future(true, hand, Contents(mem, nals), Contents(mem, chunks[1..]))
  {
    var chunk := chunks[0];
    var split := FrameStart.SplitOf(chunk.Of(mem));
    assert nals == Shift(chunk.start, split);
    FrameStart.SplitWithin(chunk.Of(mem));
    ShiftedContents(mem, chunk, split);
    ContentsSplit(mem, chunks);
    LoadKeepsFuture(hand, Contents(mem, chunks));
    hide Future;
    assert Contents(mem, nals) == NalsOfChunk(chunk.Of(mem));
  }

  // ---------------------------------------------------------------- record files

  const MAX_CHUNKS := 3000

  /** The input file: for each chunk its size, a 64-bit integer of the host, and its bytes. */
  function RecordFile(records: seq<seq<byte>>): seq<byte> {
    if records == [] then [] else LittleEndian(|records[0]|, 8) + records[0] + RecordFile(records[1..])
  }

  function Queued(records: seq<seq<byte>>): seq<seq<byte>> {
    if |records| <= MAX_CHUNKS then records else records[..MAX_CHUNKS]
  }

  lemma QueuedIs(records: seq<seq<byte>>)
    ensures Queued(records) == if |records| <= 3000 then records else records[..3000]
  {
  }

  /** A record is eight bytes of size, low byte first, and the chunk. */
  lemma RecordBytes(record: seq<byte>, rest: seq<seq<byte>>)
    ensures var n := |record|;
            RecordFile([record] + rest)
            == [n % 0x100, n / 0x100 % 0x100, n / 0x1_0000 % 0x100, n / 0x100_0000 % 0x100,
                n / 0x1_0000_0000 % 0x100, n / 0x100_0000_0000 % 0x100,
                n / 0x1_0000_0000_0000 % 0x100, n / 0x100_0000_0000_0000 % 0x100]
               + record + RecordFile(rest)
  {
    hide LittleEndian;
    assert ([record] + rest)[1..] == rest;
    LittleEndianBytes(|record|);
  }

  lemma RecordParts(m: seq<byte>, i: nat, records: seq<seq<byte>>) returns (record: seq<byte>)
    requires i < |m| && m[i..] == RecordFile(records)
    requires forall r <- records :: |r| < Pow256(8)
    ensures records != [] && record == records[0]
    ensures i + 8 + |record| <= |m|
    ensures FromLittleEndian(m[i..i + 8]) == |record|
    ensures m[i + 8..i + 8 + |record|] == record
    ensures m[i + 8 + |record|..] == RecordFile(records[1..])
  {
    record := records[0];
    var head, rest := LittleEndian(|record|, 8), RecordFile(records[1..]);
    Assoc(head, record, rest);
    SuffixParts(m, i, head, record + rest);
    SuffixParts(m, i + 8, record, rest);
    assert record in records;
    LittleEndianRoundTrip(|record|, 8);
  }

  /** The first `k` records are queued, and the rest of the file starts at `i`. */
  ghost predicate QueuedSoFar(m: seq<byte>, records: seq<seq<byte>>, i: nat, k: nat, chunks: seq<Span>, total: nat) {
    && i <= |m| && k <= |records|
    && m[i..] == RecordFile(records[k..])
    && (forall s <- chunks :: s.Within(m))
    && Contents(m, chunks) == records[..k]
    && total == Sum(Lengths(records[..k]))
  }

  lemma NothingQueued(m: seq<byte>, records: seq<seq<byte>>)
    requires m == RecordFile(records)
    ensures QueuedSoFar(m, records, 0, 0, [], 0)
  {
    assert m[0..] == m && records[0..] == records && records[..0] == [];
  }

  lemma TakeOneMore<T>(xs: seq<T>, k: nat)
    requires k < |xs|
    ensures xs[k..][0] == xs[k] && xs[k..][1..] == xs[k + 1..]
    ensures xs[..k + 1] == xs[..k] + [xs[k]]
  {
  }

  /** Reads a size and pushes a chunk. */
  method RecordQueued(m: seq<byte>, ghost records: seq<seq<byte>>, i: nat, ghost k: nat,
                      ghost chunks: seq<Span>, ghost total: nat)
    returns (size: nat)
    requires QueuedSoFar(m, records, i, k, chunks, total) && i < |m|
    requires forall r <- records :: |r| < Pow256(8)
    ensures QueuedSoFar(m, records, i + 8 + size, k + 1, chunks + [Span(i + 8, size)], total + size)
  {
    hide RecordFile, FromLittleEndian, LittleEndian, Contents, Sum, Lengths, Concat, Pow256;
    ghost var record := RecordParts(m, i, records[k..]);
    size := FromLittleEndian(m[i..i + 8]);
    TakeOneMore(records, k);
    LengthsSnoc(records[..k], record);
    ContentsSnoc(m, chunks, Span(i + 8, size));
  }

  lemma AllQueued(m: seq<byte>, records: seq<seq<byte>>, i: nat, k: nat, chunks: seq<Span>, total: nat)
    requires QueuedSoFar(m, records, i, k, chunks, total)
    requires k <= MAX_CHUNKS && (k == MAX_CHUNKS || i >= |m|)
    ensures (forall s <- chunks :: s.Within(m)) && Contents(m, chunks) == Queued(records)
    ensures total == Sum(Lengths(Queued(records)))
  {
    assert k < |records| ==> |m[i..]| >= 8;
    assert records[..|records|] == records;
  }

  // ---------------------------------------------------------------- the source

  /** Part of a NAL unit, read from memory. */
  lemma PartOfPart(m: seq<byte>, start: nat, size: nat, off: nat, k: nat)
    requires start + size <= |m| && off + k <= size
    ensures m[start + off..start + off + k] == m[start..start + size][off..off + k]
  {
    hide *;
    var part := m[start..start + size];
    var here, there := part[off..off + k], m[start + off..start + off + k];
    forall i | 0 <= i < k
      ensures here[i] == there[i]
    {
      assert here[i] == part[off + i];
    }
    assert here == there;
  }

  class FramedSourceCustom {
    var mem: seq<byte>
    var len: nat
    var off: nat
    var chunks: seq<Span>
    var nals: seq<Span>
    var cChunk: Option<Span>
    var cNal: Option<nat>
    var cNalLen: nat
    var cNalOff: nat
    var nCalls: nat
    var totalSize: nat
    /** Everything copied to the library's buffer so far, one element a call. */
    var sent: seq<seq<byte>>

    ghost predicate Valid()
      reads this
    {
      && (forall s <- chunks :: s.Within(mem))
      && (forall s <- nals :: s.Within(mem))
      && (cChunk.Some? ==> cChunk.value.Within(mem) && (cNal.Some? || nals != []))
      && (cChunk.None? ==> nals == [])
      && (cNal.Some? ==> NalInHand())
    }

    /** The NAL unit in hand lies in memory; its offset moves only in full segments. */
    ghost predicate NalInHand()
      requires cNal.Some?
      reads this
    {
      && cNal.value + cNalLen <= |mem|
      && (cNalOff == 0 || (cNalOff < cNalLen && cNalLen >= MAX_WRITE_SIZE))
      && (cChunk.None? ==> cNalLen <= cNalOff + MAX_WRITE_SIZE)
    }

    ghost function Hand(): (h: Option<InHand>)
      requires Valid()
      reads this
      ensures h.Some? <==> cNal.Some?
      ensures h.Some? ==> h.value.off <= |h.value.nal|
    {
      if cNal.None? then None else Some(InHand(mem[cNal.value..cNal.value + cNalLen], cNalOff))
    }

    /** Everything that the calls still to come will send. */
    ghost function ToSend(): seq<seq<byte>>
      requires Valid()
      reads this
    {
      Future(cChunk.Some?, Hand(), Contents(mem, nals), Contents(mem, chunks))
    }

    /** Modelled with no NAL unit in hand; the program leaves that pointer uninitialised. */
    constructor ()
      ensures Valid()
      ensures (len, off, sent) == (0, 0, []) && cChunk == None && cNal == None && chunks == []
    {
      mem, len, off, chunks, nals, sent := [], 0, 0, [], [], [];
      cChunk, cNal, cNalLen, cNalOff, nCalls, totalSize := None, None, 0, 0, 0, 0;
    }

    /** Takes the next chunk and pushes its NAL units onto the queue. */
    method NextChunk()
      requires Valid() && cChunk == None && chunks != []
      modifies `cChunk, `chunks, `nals
      ensures Valid() && cChunk.Some?
      ensures |chunks| == |old(chunks)| - 1
      ensures ToSend() == old(ToSend())
    {
      hide Future, Contents, Shift, FrameStart.SplitOf;
      var chunk := chunks[0];
      assert chunk in chunks && chunk.Within(mem);
      ghost var hand := Hand();
      assert hand.Some? ==> hand.value.LastSegment();
      var split := FrameStart.SplitIntoNals(chunk.Of(mem), chunk.start, nals);
      ChunkTaken(mem, chunks, split, hand);
      hide Span.Of;
      nals := split;
      chunks := chunks[1..];
      cChunk := Some(chunk);
    }

    /** Takes the next NAL unit from the queue. */
    method NextNal()
      requires Valid() && cChunk.Some? && cNal == None
      modifies `cNal, `cNalLen, `cNalOff, `nals
      ensures Valid() && cNal.Some?
      ensures ToSend() == old(ToSend())
    {
      hide Future;
      var ninfo := nals[0];
      ContentsSplit(mem, nals);
      TakeKeepsFuture(Contents(mem, nals), Contents(mem, chunks));
      nals := nals[1..];
      cNal, cNalLen, cNalOff := Some(ninfo.start), ninfo.size, 0;
    }

    /**
      Copies the next segment of the NAL unit in hand to the library's buffer, then drops the
      unit, or the chunk when nothing is left of it. With the chunk the unit stays in hand.
     */
    method SendSegment() returns (fFrameSize: nat, fTo: seq<byte>)
      requires Valid() && cChunk.Some? && cNal.Some?
      modifies `sent, `cChunk, `nCalls, `cNal, `cNalOff
      ensures Valid()
      ensures sent == old(sent) + [fTo] && fFrameSize == |fTo| <= 1444
      ensures old(ToSend()) == [fTo] + ToSend()
    {
      hide Future, Contents;
      ghost var hand := Hand().value;
      SendTakesFirst(hand, Contents(mem, nals), Contents(mem, chunks));

      var sendLen, sendOff := 0, 0;
      if cNalLen < MAX_WRITE_SIZE {
        sendLen := cNalLen;
        sendOff := 0;
      } else {
        var left := cNalLen - cNalOff;
        if left < MAX_WRITE_SIZE {
          sendLen := left;
        } else {
          sendLen := MAX_WRITE_SIZE;
        }
        sendOff := cNalOff;
      }

      fTo := mem[cNal.value + sendOff..cNal.value + sendOff + sendLen];
      PartOfPart(mem, cNal.value, cNalLen, hand.off, sendLen);
      fFrameSize := sendLen;
      sent := sent + [fTo];

      var nalWrittenFully := cNalLen <= cNalOff + sendLen;
      if nalWrittenFully && nals == [] {
        cChunk := None;
        nCalls := nCalls + 1;
      } else {
        if !nalWrittenFully {
          cNalOff := cNalOff + sendLen;
        } else {
          cNal := None;
        }
      }
    }

    /** `sendFrame`: one segment a call. Until the source is started it sends an empty frame. */
    method SendFrame() returns (fFrameSize: nat, fTo: seq<byte>)
      requires Valid()
      requires (len == 0 && off == 0) || cChunk.Some? || chunks != []
      modifies this
      ensures Valid() && (mem, len, off) == old((mem, len, off))
      ensures old(len == 0 && off == 0) ==> fFrameSize == 0 && unchanged(this)
      ensures !old(len == 0 && off == 0) ==>
                && sent == old(sent) + [fTo] && fFrameSize == |fTo| <= 1444
                && old(ToSend()) == [fTo] + ToSend()
    {
      hide *;
      if len == 0 && off == 0 {
        return 0, [];
      }
      if cChunk == None {
        NextChunk();
      }
      if cNal == None {
        NextNal();
      }
      fFrameSize, fTo := SendSegment();
    }

    /**
      `startFramedSource`: queues the chunks of a record file, at most MAX_CHUNKS of them.
      `records` names what the file was written from.
     */
    method StartFramedSource(m: seq<byte>, ghost records: seq<seq<byte>>)
      requires Valid() && (cChunk, cNal) == (None, None) && chunks == []
      requires m == RecordFile(records) && forall r <- records :: |r| < Pow256(8)
      modifies this
      ensures Valid() && (mem, len, off) == (m, |m|, 0) && sent == old(sent)
      ensures ToSend() == Run(Queued(records)) == Run(if |records| <= 3000 then records else records[..3000])
      ensures totalSize == Sum(Lengths(Queued(records)))
    {
      hide Run, RecordFile, QueuedSoFar, Future, Contents, Queued;
      mem, len, off := m, |m|, 0;
      nCalls, cChunk, totalSize := 0, None, 0;
      var i: nat, k: nat := 0, 0;
      NothingQueued(m, records);
      while i < len && k < MAX_CHUNKS
        invariant len == |m| && k <= MAX_CHUNKS
        invariant mem == m && off == 0 && sent == old(sent) && cChunk == None && cNal == None && nals == []
        invariant QueuedSoFar(m, records, i, k, chunks, totalSize)
        decreases MAX_CHUNKS - k
      {
        var chunkSize := RecordQueued(m, records, i, k, chunks, totalSize);
        i := i + 8;
        chunks := chunks + [Span(i, chunkSize)];
        i := i + chunkSize;
        totalSize := totalSize + chunkSize;
        k := k + 1;
      }
      AllQueued(m, records, i, k, chunks, totalSize);
      QueuedIs(records);
      StartedFuture();
    }

    lemma StartedFuture()
      requires (forall s <- chunks :: s.Within(mem)) && nals == [] && cChunk == None && cNal == None
      ensures Valid() && ToSend() == Run(Contents(mem, chunks))
    {
    }

    /** The scheduler's loop: calls `sendFrame` until no chunk is left. */
    method PlayAll()
      requires Valid() && len != 0
      modifies this
      ensures Valid() && cChunk == None && chunks == []
      ensures sent == old(sent) + old(ToSend())
    {
      hide Future;
      while cChunk.Some? || chunks != []
        invariant Valid() && len != 0
        invariant sent + ToSend() == old(sent) + old(ToSend())
        decreases |ToSend()|
      {
        ghost var before, left := sent, ToSend();
        var size, segment := SendFrame();
        Assoc(before, [segment], ToSend());
      }
      NothingLeft();
    }

    lemma NothingLeft()
      requires Valid() && cChunk == None && chunks == []
      ensures ToSend() == []
    {
    }
  }

  // ---------------------------------------------------------------- what the peer gets

  /** The NAL units of all the chunks, one after the other. */
  function AllNals(chunks: seq<seq<byte>>): seq<byte> {
    if chunks == [] then [] else Concat(NalsOfChunk(chunks[0])) + AllNals(chunks[1..])
  }

  /** Bytes that go out twice: the last segment of each chunk but the last. */
  function ResentBytes(chunks: seq<seq<byte>>): nat {
    if |chunks| <= 1 then 0 else |Last(ChunkSegments(chunks[0]))| + ResentBytes(chunks[1..])
  }

  lemma ConcatThen(pending: seq<seq<byte>>, chunks: seq<seq<byte>>)
    requires pending != []
    ensures Concat(Then(pending, chunks)) == Concat(pending) + Concat(AfterChunk(Last(pending), chunks))
  {
    ConcatSplit(pending, AfterChunk(Last(pending), chunks));
  }

  lemma ConcatAfter(stale: seq<byte>, chunks: seq<seq<byte>>)
    requires chunks != []
    ensures Concat(AfterChunk(stale, chunks)) == stale + Concat(Run(chunks))
  {
    var segs := Then(ChunkSegments(chunks[0]), chunks[1..]);
    ConcatSplit([stale], segs);
    ConcatOne(stale);
  }

  /** A run sends a chunk, and then, when more chunks follow, its last segment and their run. */
  lemma RunStep(chunks: seq<seq<byte>>)
    requires chunks != []
    ensures Concat(Run(chunks))
         == if |chunks| == 1 then Concat(NalsOfChunk(chunks[0]))
            else Concat(NalsOfChunk(chunks[0])) + (Last(ChunkSegments(chunks[0])) + Concat(Run(chunks[1..])))
  {
    var segs := ChunkSegments(chunks[0]);
    ConcatThen(segs, chunks[1..]);
    SegmentsOfConcat(NalsOfChunk(chunks[0]));
    if |chunks| > 1 {
      ConcatAfter(Last(segs), chunks[1..]);
    }
  }

  lemma {:induction false} RunBytes(chunks: seq<seq<byte>>)
    ensures |Concat(Run(chunks))| == |AllNals(chunks)| + ResentBytes(chunks)
  {
    if chunks != [] {
      RunStep(chunks);
      RunBytes(chunks[1..]);
    }
  }

  lemma {:induction false} NothingResent(chunks: seq<seq<byte>>)
    ensures Concat(Run(chunks)) == AllNals(chunks) <==> ResentBytes(chunks) == 0
  {
    RunBytes(chunks);
    if chunks != [] && ResentBytes(chunks) == 0 {
      RunStep(chunks);
      NothingResent(chunks[1..]);
      assert Concat(NalsOfChunk(chunks[0])) + [] == Concat(NalsOfChunk(chunks[0]));
    }
  }

  function TotalCalls(nals: seq<seq<byte>>): nat {
    if nals == [] then 0 else Calls(|nals[0]|) + TotalCalls(nals[1..])
  }

  /** The number of calls that serve a chunk: max(1, ceil(size / 1444)) for each of its NAL units. */
  lemma {:induction false} CallCount(nals: seq<seq<byte>>)
    ensures |SegmentsOf(nals)| == TotalCalls(nals)
  {
    if nals != [] {
      SegmentsShape(nals[0], 0);
      CallCount(nals[1..]);
    }
  }

  lemma {:induction false} LastSegmentNonEmpty(n: seq<byte>, off: nat)
    requires off < |n|
    ensures Last(SegmentsFrom(n, off)) != []
    decreases |n| - off
  {
    if |n| - off > MAX_WRITE_SIZE {
      LastSegmentNonEmpty(n, off + MAX_WRITE_SIZE);
    }
  }

  lemma {:induction false} LastOfSegments(nals: seq<seq<byte>>)
    requires nals != []
    ensures Last(SegmentsOf(nals)) == Last(SegmentsFrom(Last(nals), 0))
  {
    if |nals| == 1 {
      assert SegmentsOf(nals) == SegmentsFrom(nals[0], 0) + [];
    } else {
      LastOfSegments(nals[1..]);
      assert SegmentsOf(nals[1..]) != [];
    }
  }

  /** A chunk whose last segment is empty, seen from its bytes. */
  predicate QuietEnd(c: seq<byte>) {
    c == [] || FrameStart.EndsInCode(c)
  }

  lemma LastContents(b: seq<byte>, spans: seq<Span>)
    requires spans != [] && forall s <- spans :: s.Within(b)
    ensures Last(Contents(b, spans)) == [] <==> Last(spans).size == 0
  {
    var contents := Contents(b, spans);
    var n := |spans| - 1;
    assert contents[n] == spans[n].Of(b) && spans[n] in spans;
  }

  lemma UnitsOfChunk(c: seq<byte>)
    ensures forall s <- FrameStart.SplitOf(c) :: s.Within(c)
    ensures NalsOfChunk(c) == Contents(c, FrameStart.SplitOf(c))
  {
    FrameStart.SplitWithin(c);
  }

  lemma LastUnit(c: seq<byte>)
    ensures Last(NalsOfChunk(c)) == [] <==> QuietEnd(c)
  {
    hide *;
    FrameStart.LastOfSplit(c);
    UnitsOfChunk(c);
    LastContents(c, FrameStart.SplitOf(c));
    QuietEndIs(c);
    LastIs(FrameStart.SplitOf(c));
  }

  lemma QuietEndIs(c: seq<byte>)
    ensures QuietEnd(c) <==> c == [] || FrameStart.EndsInCode(c)
  {
    hide FrameStart.EndsInCode;
  }

  lemma LastIs<T>(s: seq<T>)
    requires s != []
    ensures Last(s) == s[|s| - 1]
  {
  }

  lemma NoSegment()
    ensures Last(SegmentsFrom([], 0)) == []
  {
  }

  lemma LastSegment(c: seq<byte>)
    ensures Last(ChunkSegments(c)) == [] <==> QuietEnd(c)
  {
    LastUnit(c);
    LastSegmentOfChunk(c);
    var n := Last(NalsOfChunk(c));
    hide NalsOfChunk, QuietEnd, ChunkSegments, Last;
    if n != [] {
      LastSegmentNonEmpty(n, 0);
    } else {
      NoSegment();
    }
  }

  lemma {:induction false} QuietChunks(chunks: seq<seq<byte>>)
    ensures ResentBytes(chunks) == 0 <==> forall i :: 0 <= i < |chunks| - 1 ==> QuietEnd(chunks[i])
  {
    if |chunks| > 1 {
      LastSegment(chunks[0]);
      QuietChunks(chunks[1..]);
      hide QuietEnd, ChunkSegments;
      var rest := chunks[1..];
      assert forall i :: 0 <= i < |rest| ==> rest[i] == chunks[i + 1];
      if forall i :: 0 <= i < |rest| - 1 ==> QuietEnd(rest[i]) {
        assert forall i :: 0 < i < |chunks| - 1 ==> chunks[i] == rest[i - 1];
      }
    }
  }

  /**
    The bytes that reach the peer are the NAL units of all the chunks in order exactly when
    every chunk but the last is empty or ends in a start code that the scanner sees: the last
    segment of any other chunk arrives twice.
   */
  lemma {:induction false} DeliveredExactly(chunks: seq<seq<byte>>)
    ensures Concat(Run(chunks)) == AllNals(chunks)
       <==> forall i :: 0 <= i < |chunks| - 1 ==>
              || chunks[i] == []
              || (chunks[i][|chunks[i]| - 1] == 1
                  && FrameStart.ZeroRun(chunks[i], 0, |chunks[i]| - 1) % 256 >= 2)
  {
    NothingResent(chunks);
    QuietChunks(chunks);
    hide Concat, Run, AllNals, ResentBytes, FrameStart.ZeroRun;
    assert forall i :: 0 <= i < |chunks| - 1 ==>
             (QuietEnd(chunks[i]) <==>
               || chunks[i] == []
               || (chunks[i][|chunks[i]| - 1] == 1
                   && FrameStart.ZeroRun(chunks[i], 0, |chunks[i]| - 1) % 256 >= 2));
  }

  function NalsIn(units: seq<NalIterator.Unit>): (r: seq<seq<byte>>)
    ensures |r| == |units|
  {
    seq(|units|, i requires 0 <= i < |units| => units[i].nal)
  }

  /** A chunk that is a well-formed byte stream: the source queues the NAL units written into it. */
  lemma StreamChunk(units: seq<NalIterator.Unit>)
    requires NalIterator.WellFormed(units) && units != []
    ensures NalsOfChunk(NalIterator.ByteStream(units)) == NalsIn(units)
  {
    var b := NalIterator.ByteStream(units);
    NalIterator.RoundTrip(units);
    FrameStart.SplittersAgree(units);
    FrameStart.SplitWithin(b);
    hide *;
    assert FrameStart.SplitOf(b) == NalIterator.NalsOf(b);
  }

  lemma RunOfOne(c: seq<byte>)
    ensures Run([c]) == ChunkSegments(c)
  {
    hide ChunkSegments;
    var segs := ChunkSegments(c);
    assert [c][1..] == [];
    assert AfterChunk(Last(segs), []) == [];
    assert Then(segs, []) == segs + [] == segs;
  }

  /** One chunk from a clean state: its NAL units in order, and the exact number of calls. */
  lemma OneChunk(units: seq<NalIterator.Unit>)
    requires NalIterator.WellFormed(units) && units != []
    ensures var sent := Run([NalIterator.ByteStream(units)]);
            Concat(sent) == Concat(NalsIn(units)) && |sent| == TotalCalls(NalsIn(units))
  {
    var b := NalIterator.ByteStream(units);
    StreamChunk(units);
    RunStep([b]);
    CallCount(NalsIn(units));
    RunOfOne(b);
    hide Run, Concat, SegmentsOf, TotalCalls;
  }

  function Streams(parts: seq<seq<NalIterator.Unit>>): seq<seq<byte>> {
    if parts == [] then [] else [NalIterator.ByteStream(parts[0])] + Streams(parts[1..])
  }

  /** A well-formed chunk ends in a segment with something in it. */
  lemma StreamEndsLoud(units: seq<NalIterator.Unit>)
    requires NalIterator.WellFormed(units) && units != []
    ensures Last(ChunkSegments(NalIterator.ByteStream(units))) != []
  {
    hide *;
    LastNal(units);
    StreamChunk(units);
    LastSegmentOfChunk(NalIterator.ByteStream(units));
    LastSegmentNonEmpty(Last(NalsIn(units)), 0);
  }

  lemma LastNal(units: seq<NalIterator.Unit>)
    requires NalIterator.WellFormed(units) && units != []
    ensures NalsIn(units) != [] && |Last(NalsIn(units))| > 0
  {
    var n := |units| - 1;
    assert units[n] in units && NalsIn(units)[n] == units[n].nal;
  }

  lemma LastSegmentOfChunk(c: seq<byte>)
    ensures Last(ChunkSegments(c)) == Last(SegmentsFrom(Last(NalsOfChunk(c)), 0))
  {
    hide NalsOfChunk, SegmentsFrom, SegmentsOf;
    LastOfSegments(NalsOfChunk(c));
  }

  lemma {:induction false} StreamsResend(parts: seq<seq<NalIterator.Unit>>)
    requires forall p <- parts :: NalIterator.WellFormed(p) && p != []
    ensures ResentBytes(Streams(parts)) == 0 <==> |parts| <= 1
  {
    if |parts| > 1 {
      assert parts[0] in parts;
      StreamEndsLoud(parts[0]);
      hide NalIterator.ByteStream, ChunkSegments, NalIterator.WellFormed;
      assert Streams(parts)[1..] == Streams(parts[1..]);
      assert |Streams(parts[1..])| >= 1;
    }
  }

  /** On well-formed chunks the delivery is exact for a single chunk and for no longer queue. */
  lemma {:induction false} OnlyOneChunkIsExact(parts: seq<seq<NalIterator.Unit>>)
    requires forall p <- parts :: NalIterator.WellFormed(p) && p != []
    ensures Concat(Run(Streams(parts))) == AllNals(Streams(parts)) <==> |parts| <= 1
  {
    StreamsResend(parts);
    NothingResent(Streams(parts));
  }
}
