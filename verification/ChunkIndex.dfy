/**
  The stream file and its index of frame sizes: `encode_frame` and the loops of
  `kvazaar_encode` in util/test_file_creation.cc write both files, `get_chunk_sizes` in
  util/util.cc reads the index back.
 */
module ChunkIndex {
  import opened Bytes

  /** The encoder's linked list of data chunks; `Null` is the null pointer at its end. */
  datatype DataChunk = Null | Chunk(data: seq<byte>, next: DataChunk)

  /** What one call of the encoder gives. */
  datatype Encoded = Failed | Output(chunks: DataChunk)

  const EXIT_SUCCESS := 0
  const EXIT_FAILURE := 1

  /** An index record is a `uint64_t`. */
  const RECORD_SIZE: nat := 8
  const TWO_TO_THE_64: nat := 0x1_0000_0000_0000_0000

  function Payload(c: DataChunk): seq<byte> {
    match c
    case Null => []
    case Chunk(data, next) => data + Payload(next)
  }

  /** The frames that a call adds to the files: one, or none when the encoder gives no chunk. */
  function FramesOf(e: Encoded): seq<seq<byte>> {
    if e.Failed? || e.chunks.Null? then [] else [Payload(e.chunks)]
  }

  function Records(sizes: seq<nat>): (r: seq<seq<byte>>)
    ensures |r| == |sizes|
  {
    seq(|sizes|, i requires 0 <= i < |sizes| => LittleEndian(sizes[i], RECORD_SIZE))
  }

  /** The index file of a list of frames. */
  function Index(frames: seq<seq<byte>>): seq<byte> {
    Concat(Records(Lengths(frames)))
  }

  lemma IndexSplit(xs: seq<seq<byte>>, ys: seq<seq<byte>>)
    ensures Index(xs + ys) == Index(xs) + Index(ys)
  {
    hide Concat, LittleEndian;
    assert Records(Lengths(xs + ys)) == Records(Lengths(xs)) + Records(Lengths(ys));
    ConcatSplit(Records(Lengths(xs)), Records(Lengths(ys)));
  }

  lemma IndexOne(f: seq<byte>)
    ensures Index([f]) == LittleEndian(|f|, RECORD_SIZE)
  {
    hide Concat, LittleEndian;
    assert Records(Lengths([f])) == [LittleEndian(|f|, RECORD_SIZE)];
    ConcatOne(LittleEndian(|f|, RECORD_SIZE));
  }

  /** The 64-bit counter may wrap: the record only ever holds the low eight bytes. */
  lemma {:induction false} LowBytesOnly(n: nat, k: nat)
    ensures LittleEndian(n % Pow256(k), k) == LittleEndian(n, k)
  {
    if k > 0 {
      var m := Pow256(k - 1);
      ModStep(n, m);
      var low := n % (256 * m);
      assert low == (n / 256) % m * 256 + n % 256;
      assert low / 256 == (n / 256) % m && low % 256 == n % 256;
      LowBytesOnly(n / 256, k - 1);
    }
  }

  lemma Pow256Of8()
    ensures Pow256(RECORD_SIZE) == TWO_TO_THE_64
  {
    assert Pow256(4) == 0x1_0000_0000;
    assert Pow256(8) == 0x1_0000_0000 * Pow256(4);
  }

  lemma {:induction false} WrappedRecord(n: nat)
    ensures LittleEndian(n % TWO_TO_THE_64, RECORD_SIZE) == LittleEndian(n, RECORD_SIZE)
  {
    Pow256Of8();
    LowBytesOnly(n, RECORD_SIZE);
  }

  /** A list of data chunks, from the data. */
  function ListOf(ds: seq<seq<byte>>): DataChunk {
    if ds == [] then Null else Chunk(ds[0], ListOf(ds[1..]))
  }

  lemma {:induction false} PayloadIs(ds: seq<seq<byte>>)
    ensures Payload(ListOf(ds)) == Concat(ds)
  {
    if ds != [] {
      PayloadIs(ds[1..]);
    }
  }

  /** A call that gives data chunks adds one frame, all their bytes in order; one that gives none adds none. */
  lemma FramesAre(ds: seq<seq<byte>>)
    ensures FramesOf(Output(ListOf(ds))) == if ds == [] then [] else [Concat(ds)]
    ensures FramesOf(Failed) == []
  {
    hide Concat, Payload;
    PayloadIs(ds);
  }

  lemma RecordOf(n: nat)
    ensures LittleEndian(n, RECORD_SIZE)
         == [n % 0x100, n / 0x100 % 0x100, n / 0x1_0000 % 0x100, n / 0x100_0000 % 0x100,
             n / 0x1_0000_0000 % 0x100, n / 0x100_0000_0000 % 0x100,
             n / 0x1_0000_0000_0000 % 0x100, n / 0x100_0000_0000_0000 % 0x100]
  {
    hide LittleEndian;
    LittleEndianBytes(n);
  }

  /** What a call leaves in the two files: the bytes of its data chunks, and their number in eight bytes. */
  lemma FilesOfCall(ds: seq<seq<byte>>)
    ensures Concat(FramesOf(Output(ListOf(ds)))) == Concat(ds)
    ensures Index(FramesOf(Output(ListOf(ds)))) == if ds == [] then [] else LittleEndian(|Concat(ds)|, 8)
  {
    hide ListOf, FramesOf, LittleEndian;
    FramesAre(ds);
    if ds != [] {
      hide Concat, Index;
      ConcatOne(Concat(ds));
      IndexOne(Concat(ds));
    }
  }

  // ---------------------------------------------------------------- writing

  /** The frames of the calls with a picture: up to the first failure. */
  function InputFrames(calls: seq<Encoded>): seq<seq<byte>> {
    if calls == [] || calls[0].Failed? then [] else FramesOf(calls[0]) + InputFrames(calls[1..])
  }

  predicate NoFailure(calls: seq<Encoded>) {
    forall e <- calls :: e.Output?
  }

  /** The encoder has nothing more to give. */
  predicate Dry(e: Encoded) {
    e.Failed? || e.chunks.Null?
  }

  /** The frames of the calls without a picture: up to the first call that gives nothing. */
  function FlushedFrames(calls: seq<Encoded>): seq<seq<byte>> {
    if calls == [] || Dry(calls[0]) then [] else FramesOf(calls[0]) + FlushedFrames(calls[1..])
  }

  /** The call that ends the flushing loop. */
  function Ending(calls: seq<Encoded>): Encoded
    requires calls != [] && Dry(calls[|calls| - 1])
  {
    if Dry(calls[0]) then calls[0] else Ending(calls[1..])
  }

  /** All the frames that an encoding run leaves in the files. */
  function RunFrames(inputs: seq<Encoded>, flush: seq<Encoded>): seq<seq<byte>> {
    InputFrames(inputs) + if NoFailure(inputs) then FlushedFrames(flush) else []
  }

  /** The two output files. */
  class StreamFiles {
    var outputFile: seq<byte>
    var memoryFile: seq<byte>

    constructor ()
      ensures Holding([])
    {
      outputFile, memoryFile := [], [];
    }

    /** The stream file is the frames one after the other, and the other file is their index. */
    ghost predicate Holding(frames: seq<seq<byte>>)
      reads this
    {
      outputFile == Concat(frames) && memoryFile == Index(frames)
    }

    method EncodeFrame(hasInput: bool, result: Encoded, rvalueIn: int) returns (more: bool, rvalue: int)
      modifies this
      ensures outputFile == old(outputFile) + Concat(FramesOf(result))
      ensures memoryFile == old(memoryFile) + Index(FramesOf(result))
      ensures forall ds :: result == Output(ListOf(ds)) ==>
                && outputFile == old(outputFile) + Concat(ds)
                && memoryFile == old(memoryFile) + if ds == [] then [] else LittleEndian(|Concat(ds)|, 8)
      ensures more <==> result.Output? && (hasInput || !result.chunks.Null?)
      ensures rvalue == if result.Failed? then 1 else if !more then 0 else rvalueIn
    {
      forall ds | result == Output(ListOf(ds))
        ensures Concat(FramesOf(result)) == Concat(ds)
        ensures Index(FramesOf(result)) == if ds == [] then [] else LittleEndian(|Concat(ds)|, 8)
      {
        FilesOfCall(ds);
      }
      rvalue := rvalueIn;
      assert Concat([]) == [] && Index([]) == [];
      hide Concat, Index;
      if result.Failed? {
        return false, EXIT_FAILURE;
      }
      var chunksOut := result.chunks;
      if chunksOut.Null? && !hasInput {
        return false, EXIT_SUCCESS;
      }
      if !chunksOut.Null? {
        var written := WriteSize(chunksOut);
        memoryFile := memoryFile + LittleEndian(written, RECORD_SIZE);
        WriteData(chunksOut);
        WrappedRecord(|Payload(chunksOut)|);
        IndexOne(Payload(chunksOut));
        ConcatOne(Payload(chunksOut));
      }
      more := true;
    }

    /** The first walk over the list: the size, in a 64-bit counter. */
    method WriteSize(chunksOut: DataChunk) returns (written: nat)
      ensures written == |Payload(chunksOut)| % TWO_TO_THE_64
    {
      written := 0;
      var chunk := chunksOut;
      ghost var n: nat := 0;
      while !chunk.Null?
        invariant written == n % TWO_TO_THE_64 && n + |Payload(chunk)| == |Payload(chunksOut)|
        decreases chunk
      {
        written := (written + |chunk.data|) % TWO_TO_THE_64;
        n := n + |chunk.data|;
        chunk := chunk.next;
      }
    }

    /** The second walk: the bytes. */
    method WriteData(chunksOut: DataChunk)
      modifies this`outputFile
      ensures outputFile == old(outputFile) + Payload(chunksOut)
    {
      var chunk := chunksOut;
      while !chunk.Null?
        invariant outputFile + Payload(chunk) == old(outputFile) + Payload(chunksOut)
        decreases chunk
      {
        Assoc(outputFile, chunk.data, Payload(chunk.next));
        outputFile := outputFile + chunk.data;
        chunk := chunk.next;
      }
    }

    /**
      The loops of `kvazaar_encode`: one call for each picture of the input, then calls without
      a picture until the encoder has nothing left. A failure in the first loop ends the run.
     */
    method KvazaarEncode(inputs: seq<Encoded>, flush: seq<Encoded>) returns (rvalue: int)
      requires Holding([])
      requires flush != [] && Dry(flush[|flush| - 1])
      modifies this
      ensures Holding(RunFrames(inputs, flush))
      ensures rvalue == if NoFailure(inputs) && Ending(flush).Output? then 0 else 1
    {
      hide FramesOf, Index, Concat;
      ghost var frames: seq<seq<byte>> := [];
      var i := 0;
      while i < |inputs|
        invariant i <= |inputs| && Holding(frames) && NoFailure(inputs[..i])
        invariant frames + InputFrames(inputs[i..]) == InputFrames(inputs)
      {
        InputStep(inputs, i, frames);
        var more;
        more, rvalue := EncodeFrame(true, inputs[i], EXIT_FAILURE);
        ConcatSplit(frames, FramesOf(inputs[i]));
        IndexSplit(frames, FramesOf(inputs[i]));
        frames := frames + FramesOf(inputs[i]);
        if !more {
          assert inputs[i] in inputs;
          assert frames == frames + [] == RunFrames(inputs, flush);
          return;
        }
        i := i + 1;
      }
      assert inputs[..i] == inputs;
      assert frames == frames + [] == InputFrames(inputs);
      rvalue := EXIT_FAILURE;
      var j := 0;
      var more := true;
      while more
        invariant Holding(frames)
        invariant more ==> j < |flush| && Ending(flush) == Ending(flush[j..])
        invariant more ==> frames + FlushedFrames(flush[j..]) == RunFrames(inputs, flush)
        invariant !more ==> frames == RunFrames(inputs, flush)
        invariant !more ==> rvalue == if Ending(flush).Output? then 0 else 1
        decreases |flush| - j, more
      {
        FlushStep(flush, j, frames);
        more, rvalue := EncodeFrame(false, flush[j], rvalue);
        ConcatSplit(frames, FramesOf(flush[j]));
        IndexSplit(frames, FramesOf(flush[j]));
        frames := frames + FramesOf(flush[j]);
        j := j + 1;
      }
    }
  }

  /** One round of the first loop. */
  lemma InputStep(inputs: seq<Encoded>, i: nat, frames: seq<seq<byte>>)
    requires i < |inputs|
    ensures inputs[..i + 1] == inputs[..i] + [inputs[i]]
    ensures inputs[i].Output?
        ==> (frames + FramesOf(inputs[i])) + InputFrames(inputs[i + 1..]) == frames + InputFrames(inputs[i..])
    ensures inputs[i].Failed? ==> FramesOf(inputs[i]) == [] && InputFrames(inputs[i..]) == []
  {
    assert inputs[i..][1..] == inputs[i + 1..];
    Assoc(frames, FramesOf(inputs[i]), InputFrames(inputs[i + 1..]));
  }

  /** One round of the second loop. */
  lemma FlushStep(flush: seq<Encoded>, j: nat, frames: seq<seq<byte>>)
    requires j < |flush| && Dry(flush[|flush| - 1])
    ensures Dry(flush[j])
        ==> && FramesOf(flush[j]) == [] && frames + [] == frames
            && FlushedFrames(flush[j..]) == [] && Ending(flush[j..]) == flush[j]
    ensures !Dry(flush[j])
        ==> && j + 1 < |flush| && Ending(flush[j..]) == Ending(flush[j + 1..])
            && (frames + FramesOf(flush[j])) + FlushedFrames(flush[j + 1..]) == frames + FlushedFrames(flush[j..])
  {
    assert flush[j..][1..] == flush[j + 1..];
    Assoc(frames, FramesOf(flush[j]), FlushedFrames(flush[j + 1..]));
  }

  // ---------------------------------------------------------------- whole runs, from their data

  /** The calls of a run, from the data chunks that each of them gives. */
  function Calls(xs: seq<seq<seq<byte>>>): (r: seq<Encoded>)
    ensures |r| == |xs|
  {
    seq(|xs|, i requires 0 <= i < |xs| => Output(ListOf(xs[i])))
  }

  /** The frames of some calls: for each call that gives data, the data. */
  function FramesFrom(xs: seq<seq<seq<byte>>>): seq<seq<byte>> {
    if xs == [] then [] else (if xs[0] == [] then [] else [Concat(xs[0])]) + FramesFrom(xs[1..])
  }

  lemma {:induction false} FramesFromSplit(xs: seq<seq<seq<byte>>>, ys: seq<seq<seq<byte>>>)
    ensures FramesFrom(xs + ys) == FramesFrom(xs) + FramesFrom(ys)
  {
    hide Concat;
    if xs == [] {
      assert xs + ys == ys;
    } else {
      assert (xs + ys)[1..] == xs[1..] + ys;
      FramesFromSplit(xs[1..], ys);
    }
  }

  /** Nothing that the encoder gave is lost, chunk by chunk. */
  lemma {:induction false} EveryChunk(xs: seq<seq<seq<byte>>>)
    ensures Concat(FramesFrom(xs)) == if xs == [] then [] else Concat(xs[0]) + Concat(FramesFrom(xs[1..]))
  {
    if xs != [] {
      var head := if xs[0] == [] then [] else [Concat(xs[0])];
      ConcatSplit(head, FramesFrom(xs[1..]));
      ConcatOne(Concat(xs[0]));
    }
  }

  lemma CallsCons(x: seq<seq<byte>>, xs: seq<seq<seq<byte>>>)
    ensures Calls([x] + xs) == [Output(ListOf(x))] + Calls(xs)
  {
    hide ListOf;
  }

  /** The first loop: everything up to a failure, or all of it. */
  lemma {:induction false} InputFramesAre(xs: seq<seq<seq<byte>>>, rest: seq<Encoded>)
    requires rest == [] || rest[0].Failed?
    ensures InputFrames(Calls(xs) + rest) == FramesFrom(xs)
  {
    hide ListOf, Concat, Calls, FramesOf;
    if xs == [] {
      assert Calls(xs) + rest == rest;
    } else {
      var e := Output(ListOf(xs[0]));
      assert [xs[0]] + xs[1..] == xs;
      CallsCons(xs[0], xs[1..]);
      assert Calls(xs) + rest == [e] + (Calls(xs[1..]) + rest);
      assert (Calls(xs) + rest)[1..] == Calls(xs[1..]) + rest;
      FramesAre(xs[0]);
      InputFramesAre(xs[1..], rest);
    }
  }

  lemma DryIs(x: seq<seq<byte>>)
    ensures Dry(Output(ListOf(x))) <==> x == []
  {
  }

  /** The second loop: everything up to the first call that gives nothing. */
  lemma {:induction false} FlushedFramesAre(ys: seq<seq<seq<byte>>>, rest: seq<Encoded>)
    requires (forall y <- ys :: y != []) && rest != [] && Dry(rest[0])
    ensures FlushedFrames(Calls(ys) + rest) == FramesFrom(ys)
  {
    hide ListOf, Concat, Calls, FramesOf, Dry;
    if ys == [] {
      assert Calls(ys) + rest == rest;
    } else {
      var e := Output(ListOf(ys[0]));
      assert ys[0] in ys;
      assert [ys[0]] + ys[1..] == ys;
      CallsCons(ys[0], ys[1..]);
      assert Calls(ys) + rest == [e] + (Calls(ys[1..]) + rest);
      assert (Calls(ys) + rest)[1..] == Calls(ys[1..]) + rest;
      FramesAre(ys[0]);
      DryIs(ys[0]);
      assert forall y <- ys[1..] :: y in ys;
      FlushedFramesAre(ys[1..], rest);
    }
  }

  lemma {:induction false} CallsSucceed(xs: seq<seq<seq<byte>>>)
    ensures NoFailure(Calls(xs))
  {
    hide ListOf;
  }

  /**
    A run whose inputs do not fail: every chunk given for an input, and every chunk given before
    the flush runs dry, is in the files, one frame for each call that gave any.
   */
  lemma {:induction false} RunFramesAre(xs: seq<seq<seq<byte>>>, ys: seq<seq<seq<byte>>>, rest: seq<Encoded>)
    requires (forall y <- ys :: y != []) && rest != [] && Dry(rest[0])
    ensures RunFrames(Calls(xs), Calls(ys) + rest) == FramesFrom(xs + ys)
  {
    hide InputFrames, FlushedFrames, FramesFrom, Calls, Dry, NoFailure;
    assert Calls(xs) + [] == Calls(xs);
    InputFramesAre(xs, []);
    CallsSucceed(xs);
    FlushedFramesAre(ys, rest);
    FramesFromSplit(xs, ys);
  }

  /** A run with a failing input: what was given before it is in the files, and nothing is flushed. */
  lemma {:induction false} FailedRunFramesAre(xs: seq<seq<seq<byte>>>, rest: seq<Encoded>, flush: seq<Encoded>)
    ensures RunFrames(Calls(xs) + [Failed] + rest, flush) == FramesFrom(xs)
  {
    hide InputFrames, FlushedFrames, FramesFrom, Calls;
    var all := Calls(xs) + [Failed] + rest;
    assert all == Calls(xs) + ([Failed] + rest);
    InputFramesAre(xs, [Failed] + rest);
    assert all[|xs|] == Failed && Failed in all;
  }

  // ---------------------------------------------------------------- reading

  /** The whole records of an index file from `pos` on; a partial record at the end is no record. */
  function SizesFrom(file: seq<byte>, pos: nat): seq<nat>
    requires pos <= |file|
    decreases |file| - pos
  {
    if |file| - pos < RECORD_SIZE then []
    else [FromLittleEndian(file[pos..pos + RECORD_SIZE])] + SizesFrom(file, pos + RECORD_SIZE)
  }

  lemma SizesStep(file: seq<byte>, pos: nat)
    requires pos <= |file|
    ensures SizesFrom(file, pos)
         == if |file| - pos < RECORD_SIZE then []
            else [FromLittleEndian(file[pos..pos + RECORD_SIZE])] + SizesFrom(file, pos + RECORD_SIZE)
  {
    hide FromLittleEndian;
  }

  /** `None` is a file that cannot be opened: the vector stays as it is. */
  method GetChunkSizes(inputFile: Option<seq<byte>>, chunkSizesIn: seq<nat>) returns (chunkSizes: seq<nat>)
    ensures chunkSizes == chunkSizesIn + if inputFile.Some? then SizesFrom(inputFile.value, 0) else []
  {
    chunkSizes := chunkSizesIn;
    if inputFile.None? {
      return;
    }
    hide SizesFrom, FromLittleEndian;
    var file := inputFile.value;
    var pos, eof := 0, false;
    while !eof
      invariant pos <= |file|
      invariant chunkSizes + (if eof then [] else SizesFrom(file, pos)) == chunkSizesIn + SizesFrom(file, 0)
      decreases |file| - pos, !eof
    {
      SizesStep(file, pos);
      if |file| - pos < RECORD_SIZE {
        eof := true;
        break;
      } else {
        var chunkSize := FromLittleEndian(file[pos..pos + RECORD_SIZE]);
        Assoc(chunkSizes, [chunkSize], SizesFrom(file, pos + RECORD_SIZE));
        chunkSizes := chunkSizes + [chunkSize];
        pos := pos + RECORD_SIZE;
      }
    }
  }

  lemma {:induction false} SizesOfRecords(file: seq<byte>, pos: nat, sizes: seq<nat>, tail: seq<byte>)
    requires pos <= |file| && file[pos..] == Concat(Records(sizes)) + tail && |tail| < RECORD_SIZE
    ensures |SizesFrom(file, pos)| == |sizes|
    ensures forall i :: 0 <= i < |sizes| ==> SizesFrom(file, pos)[i] == sizes[i] % TWO_TO_THE_64
    decreases |sizes|
  {
    if sizes != [] {
      var r := LittleEndian(sizes[0], RECORD_SIZE);
      assert Records(sizes)[1..] == Records(sizes[1..]);
      Assoc(r, Concat(Records(sizes[1..])), tail);
      SuffixParts(file, pos, r, Concat(Records(sizes[1..])) + tail);
      SizesOfRecords(file, pos + RECORD_SIZE, sizes[1..], tail);
      LittleEndianTruncates(sizes[0], RECORD_SIZE);
      Pow256Of8();
    }
  }

  /** Reading an index back: every size, in order, as far as 64 bits can hold it. */
  lemma IndexReadsBack(frames: seq<seq<byte>>, tail: seq<byte>)
    requires |tail| < RECORD_SIZE
    ensures var sizes := SizesFrom(Index(frames) + tail, 0);
            && |sizes| == |frames|
            && forall i :: 0 <= i < |frames| ==> sizes[i] == |frames[i]| % TWO_TO_THE_64
  {
    var file := Index(frames) + tail;
    assert file[0..] == file;
    SizesOfRecords(file, 0, Lengths(frames), tail);
  }
}
