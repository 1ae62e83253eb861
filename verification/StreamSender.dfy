/**
  `sender_thread` of uvgrtp/sender.cc: it cuts the stream file by the index, and it paces the
  frames. Time is counted in microseconds from the start; a push takes a given time, and a
  sleep takes exactly as long as asked.
 */
module StreamSender {
  import opened Bytes
  import opened ChunkIndex

  // ---------------------------------------------------------------- cutting the stream file

  function SlicesFrom(mem: seq<byte>, at: nat, sizes: seq<nat>): (r: seq<seq<byte>>)
    requires at + Sum(sizes) <= |mem|
    ensures |r| == |sizes|
    decreases |sizes|
  {
    if sizes == [] then []
    else [mem[at..at + sizes[0]]] + SlicesFrom(mem, at + sizes[0], sizes[1..])
  }

  /** The slices lie one after the other and leave nothing out. */
  lemma {:induction false} SlicesTile(mem: seq<byte>, at: nat, sizes: seq<nat>)
    requires at + Sum(sizes) <= |mem|
    ensures Concat(SlicesFrom(mem, at, sizes)) == mem[at..at + Sum(sizes)]
    ensures Lengths(SlicesFrom(mem, at, sizes)) == sizes
    decreases |sizes|
  {
    if sizes != [] {
      var head, rest := mem[at..at + sizes[0]], SlicesFrom(mem, at + sizes[0], sizes[1..]);
      SlicesTile(mem, at + sizes[0], sizes[1..]);
      assert SlicesFrom(mem, at, sizes) == [head] + rest;
      hide SlicesFrom;
      LengthsCons(head, rest);
      assert ([head] + rest)[1..] == rest;
      hide Lengths;
      assert [sizes[0]] + sizes[1..] == sizes;
      assert head + mem[at + sizes[0]..at + Sum(sizes)] == mem[at..at + Sum(sizes)];
    }
  }

  lemma {:induction false} SlicesOfConcat(mem: seq<byte>, at: nat, frames: seq<seq<byte>>, tail: seq<byte>)
    requires at <= |mem| && mem[at..] == Concat(frames) + tail
    ensures at + Sum(Lengths(frames)) <= |mem|
    ensures SlicesFrom(mem, at, Lengths(frames)) == frames
    decreases |frames|
  {
    if frames != [] {
      Assoc(frames[0], Concat(frames[1..]), tail);
      SuffixParts(mem, at, frames[0], Concat(frames[1..]) + tail);
      assert Lengths(frames)[1..] == Lengths(frames[1..]);
      SlicesOfConcat(mem, at + |frames[0]|, frames[1..], tail);
    }
  }

  lemma {:induction false} SumSmaller(xs: seq<nat>, ys: seq<nat>)
    requires |xs| == |ys| && forall i :: 0 <= i < |xs| ==> xs[i] <= ys[i]
    ensures Sum(xs) <= Sum(ys)
  {
    if xs != [] {
      SumSmaller(xs[1..], ys[1..]);
    }
  }

  /** What an index leads the sender to push, for the files of some frames. */
  function Recovered(frames: seq<seq<byte>>, tail: seq<byte>): seq<seq<byte>>
    requires |tail| < RECORD_SIZE
  {
    IndexFits(frames, tail);
    SlicesFrom(Concat(frames), 0, SizesFrom(Index(frames) + tail, 0))
  }

  lemma IndexFits(frames: seq<seq<byte>>, tail: seq<byte>)
    requires |tail| < RECORD_SIZE
    ensures Sum(SizesFrom(Index(frames) + tail, 0)) <= |Concat(frames)|
  {
    hide Concat, Index, SizesFrom, Sum;
    IndexReadsBack(frames, tail);
    ConcatLength(frames);
    SumSmaller(SizesFrom(Index(frames) + tail, 0), Lengths(frames));
  }

  /**
    The round trip of the index file: the slices that the index gives are the encoder's frames,
    in order, exactly when every frame's size fits 64 bits. Up to seven bytes of a partial
    record after the index change nothing.
   */
  lemma IndexRoundTrip(frames: seq<seq<byte>>, tail: seq<byte>)
    requires |tail| < RECORD_SIZE
    ensures Recovered(frames, tail) == frames <==> forall f <- frames :: |f| < TWO_TO_THE_64
  {
    hide Concat, Index, SizesFrom, SlicesFrom, Sum;
    var sizes := SizesFrom(Index(frames) + tail, 0);
    IndexReadsBack(frames, tail);
    IndexFits(frames, tail);
    if forall f <- frames :: |f| < TWO_TO_THE_64 {
      forall i | 0 <= i < |frames| ensures sizes[i] == |frames[i]| {
        assert frames[i] in frames;
      }
      assert sizes == Lengths(frames);
      assert Concat(frames)[0..] == Concat(frames) + [];
      SlicesOfConcat(Concat(frames), 0, frames, []);
    } else {
      var i :| 0 <= i < |frames| && |frames[i]| >= TWO_TO_THE_64;
      SlicesTile(Concat(frames), 0, sizes);
      assert |Recovered(frames, tail)[i]| == Lengths(Recovered(frames, tail))[i] == sizes[i];
    }
  }

  // ---------------------------------------------------------------- pacing

  function Max(x: nat, y: nat): nat {
    if x < y then y else x
  }

  /** When the sender is through with `n` frames, sleep included. */
  function Completion(costs: seq<nat>, period: nat, n: nat): nat
    requires n <= |costs|
  {
    if n == 0 then 0 else Max(Completion(costs, period, n - 1) + costs[n - 1], n * period)
  }

  /** The time of `n` frames if the sender is on time after frame `j` and never sleeps from then on. */
  function BusySince(costs: seq<nat>, period: nat, j: nat, n: nat): nat
    requires j <= n <= |costs|
  {
    j * period + Sum(costs[j..n])
  }

  lemma BusyStep(costs: seq<nat>, period: nat, j: nat, n: nat)
    requires j <= n < |costs|
    ensures BusySince(costs, period, j, n + 1) == BusySince(costs, period, j, n) + costs[n]
  {
    assert costs[j..n + 1] == costs[j..n] + [costs[n]];
    SumSplit(costs[j..n], [costs[n]]);
    assert Sum([costs[n]]) == costs[n] + Sum([]);
  }

  lemma BusyNow(costs: seq<nat>, period: nat, n: nat)
    requires n <= |costs|
    ensures BusySince(costs, period, n, n) == n * period
  {
  }

  /** Closed form, first half: no busy stretch ends later than the schedule says. */
  lemma {:induction false} CompletionAtLeast(costs: seq<nat>, period: nat, j: nat, n: nat)
    requires j <= n <= |costs|
    ensures BusySince(costs, period, j, n) <= Completion(costs, period, n)
  {
    if j == n {
      BusyNow(costs, period, n);
    } else {
      CompletionAtLeast(costs, period, j, n - 1);
      BusyStep(costs, period, j, n - 1);
    }
  }

  /** Closed form, second half: some busy stretch ends exactly then. */
  lemma {:induction false} CompletionAttained(costs: seq<nat>, period: nat, n: nat) returns (j: nat)
    requires n <= |costs|
    ensures j <= n && BusySince(costs, period, j, n) == Completion(costs, period, n)
  {
    j := n;
    BusyNow(costs, period, n);
    if n > 0 && Completion(costs, period, n) != n * period {
      j := CompletionAttained(costs, period, n - 1);
      BusyStep(costs, period, j, n - 1);
    }
  }

  /** The completion time is the greatest of the busy times, and nothing else is. */
  lemma {:induction false} ClosedForm(costs: seq<nat>, period: nat, n: nat, t: nat)
    requires n <= |costs|
    ensures t == Completion(costs, period, n)
       <==> && (forall j :: 0 <= j <= n ==> BusySince(costs, period, j, n) <= t)
            && (exists j :: 0 <= j <= n && BusySince(costs, period, j, n) == t)
  {
    hide Completion, BusySince;
    forall j | 0 <= j <= n ensures BusySince(costs, period, j, n) <= Completion(costs, period, n) {
      CompletionAtLeast(costs, period, j, n);
    }
    var j := CompletionAttained(costs, period, n);
  }

  /** How far the sender is behind its schedule after `n` frames. */
  function Lateness(costs: seq<nat>, period: nat, n: nat): (l: nat)
    requires n <= |costs|
  {
    NeverEarly(costs, period, n);
    Completion(costs, period, n) - n * period
  }

  /** Frame `n` (counted from 0) is never pushed before its time. */
  lemma NeverEarly(costs: seq<nat>, period: nat, n: nat)
    requires n <= |costs|
    ensures n * period <= Completion(costs, period, n)
  {
  }

  /** On time after `n` frames exactly when every stretch of pushes up to there fits its periods. */
  lemma OnTime(costs: seq<nat>, period: nat, n: nat)
    requires n <= |costs|
    ensures Lateness(costs, period, n) == 0
       <==> forall j :: 0 <= j <= n ==> Sum(costs[j..n]) <= (n - j) * period
  {
    ClosedForm(costs, period, n, n * period);
    forall j | 0 <= j <= n
      ensures BusySince(costs, period, j, n) <= n * period <==> Sum(costs[j..n]) <= (n - j) * period
    {
      assert j * period + (n - j) * period == n * period;
    }
    BusyNow(costs, period, n);
    NeverEarly(costs, period, n);
    hide Completion;
  }

  /** Lateness moves by the push cost less one period, and stops at zero. */
  lemma LatenessStep(costs: seq<nat>, period: nat, n: nat)
    requires n < |costs|
    ensures var next := Lateness(costs, period, n) + costs[n] - period;
            Lateness(costs, period, n + 1) == if next < 0 then 0 else next
  {
    assert (n + 1) * period == n * period + period;
  }

  /**
    Catching up: while every push takes at most `period - slack`, each frame takes `slack` off
    the lateness, until there is none.
   */
  lemma {:induction false} CatchesUp(costs: seq<nat>, period: nat, slack: nat, n: nat, m: nat)
    requires n + m <= |costs|
    requires forall i :: n <= i < n + m ==> costs[i] + slack <= period
    ensures var left := Lateness(costs, period, n) - m * slack;
            Lateness(costs, period, n + m) <= if left < 0 then 0 else left
  {
    if m > 0 {
      CatchesUp(costs, period, slack, n, m - 1);
      LatenessStep(costs, period, n + m - 1);
      assert m * slack == (m - 1) * slack + slack;
    } else {
      assert m * slack == 0;
    }
  }

  // ---------------------------------------------------------------- the loop

  /** One call of `push_frame`: how long it takes, and whether it returns RTP_OK. */
  datatype Push = Push(cost: nat, ok: bool)

  function Costs(pushes: seq<Push>): (r: seq<nat>)
    ensures |r| == |pushes| && forall i :: 0 <= i < |r| ==> r[i] == pushes[i].cost
  {
    seq(|pushes|, i requires 0 <= i < |pushes| => pushes[i].cost)
  }

  /**
    The sending loop. `pushed` and `starts` record the frames that were accepted and when each
    push was started; a failing push ends the run. The index must not lead past the mapped file.
   */
  method SenderThread(mem: seq<byte>, chunkSizes: seq<nat>, period: nat, pushes: seq<Push>)
    returns (ok: bool, pushed: seq<seq<byte>>, starts: seq<nat>, bytesSent: nat, diff: nat)
    requires Sum(chunkSizes) <= |mem| && |pushes| == |chunkSizes|
    ensures |pushed| <= |chunkSizes| && pushed == SlicesFrom(mem, 0, chunkSizes)[..|pushed|]
    ensures bytesSent == Sum(chunkSizes[..|pushed|])
    ensures forall k :: 0 <= k < |pushed| ==> pushes[k].ok
    ensures ok <==> |pushed| == |chunkSizes|
    ensures ok ==> diff == Completion(Costs(pushes), period, |pushes|) / 1000
    ensures !ok ==> !pushes[|pushed|].ok
    ensures |starts| == if ok then |pushed| else |pushed| + 1
    ensures forall k :: 0 <= k < |starts| ==> starts[k] == Completion(Costs(pushes), period, k)
  {
    hide *;
    ghost var costs := Costs(pushes);
    var now: nat := 0;
    var currentFrame: nat := 0;
    ok, pushed, starts, bytesSent, diff := true, [], [], 0, 0;
    CutStart(mem, chunkSizes);
    PacedStart(costs, period);
    while currentFrame < |chunkSizes|
      invariant currentFrame <= |chunkSizes| && |pushed| == |starts| == currentFrame
      invariant Cut(mem, chunkSizes, currentFrame, bytesSent, pushed)
      invariant Paced(costs, period, currentFrame, starts, now)
      invariant forall k :: 0 <= k < currentFrame ==> pushes[k].ok
    {
      var chunkSize := chunkSizes[currentFrame];
      CutStep(mem, chunkSizes, currentFrame, bytesSent, pushed);
      PacedStep(costs, period, currentFrame, starts, now);
      starts := starts + [now];
      var push := pushes[currentFrame];
      now := now + push.cost;
      if !push.ok {
        CutShows(mem, chunkSizes, currentFrame, bytesSent, pushed);
        ok := false;
        return;
      }
      pushed := pushed + [mem[bytesSent..bytesSent + chunkSize]];
      bytesSent := bytesSent + chunkSize;
      currentFrame := currentFrame + 1;
      var runtime := now;
      if runtime < currentFrame * period {
        now := now + (currentFrame * period - runtime);
      }
    }
    CutShows(mem, chunkSizes, currentFrame, bytesSent, pushed);
    PacedShows(costs, period, currentFrame, starts, now);
    diff := now / 1000;
  }

  /** The first `k` frames have been cut, and `at` is where the next one starts. */
  ghost predicate Cut(mem: seq<byte>, sizes: seq<nat>, k: nat, at: nat, pushed: seq<seq<byte>>) {
    && k <= |sizes| && |pushed| == k
    && at == Sum(sizes[..k]) && at + Sum(sizes[k..]) <= |mem| && Sum(sizes) <= |mem|
    && pushed + SlicesFrom(mem, at, sizes[k..]) == SlicesFrom(mem, 0, sizes)
  }

  lemma CutStart(mem: seq<byte>, sizes: seq<nat>)
    requires Sum(sizes) <= |mem|
    ensures Cut(mem, sizes, 0, 0, [])
  {
    assert sizes[..0] == [] && sizes[0..] == sizes;
  }

  /** One round of the loop, as far as the stream file is concerned. */
  lemma CutStep(mem: seq<byte>, sizes: seq<nat>, k: nat, at: nat, pushed: seq<seq<byte>>)
    requires k < |sizes| && Cut(mem, sizes, k, at, pushed)
    ensures at + sizes[k] <= |mem|
    ensures Cut(mem, sizes, k + 1, at + sizes[k], pushed + [mem[at..at + sizes[k]]])
  {
    assert sizes[k..][1..] == sizes[k + 1..];
    assert sizes[..k + 1] == sizes[..k] + [sizes[k]];
    SumSplit(sizes[..k], [sizes[k]]);
    assert Sum([sizes[k]]) == sizes[k] + Sum([]);
    Assoc(pushed, [mem[at..at + sizes[k]]], SlicesFrom(mem, at + sizes[k], sizes[k + 1..]));
  }

  lemma CutShows(mem: seq<byte>, sizes: seq<nat>, k: nat, at: nat, pushed: seq<seq<byte>>)
    requires Cut(mem, sizes, k, at, pushed)
    ensures Sum(sizes) <= |mem| && k <= |sizes| && pushed == SlicesFrom(mem, 0, sizes)[..k] && at == Sum(sizes[..k])
  {
    hide Sum, SlicesFrom;
    var rest := SlicesFrom(mem, at, sizes[k..]);
    assert (pushed + rest)[..k] == pushed;
  }

  /** The first `k` frames were pushed on the schedule, and the clock shows when they were done. */
  ghost predicate Paced(costs: seq<nat>, period: nat, k: nat, starts: seq<nat>, now: nat) {
    && k <= |costs| && |starts| == k
    && now == Completion(costs, period, k)
    && forall i :: 0 <= i < k ==> starts[i] == Completion(costs, period, i)
  }

  lemma PacedStart(costs: seq<nat>, period: nat)
    ensures Paced(costs, period, 0, [], 0)
  {
  }

  /** One round of the loop: the sleep brings the clock to the schedule, and a late clock stays. */
  lemma PacedStep(costs: seq<nat>, period: nat, k: nat, starts: seq<nat>, now: nat)
    requires k < |costs| && Paced(costs, period, k, starts, now)
    ensures forall i :: 0 <= i <= k ==> (starts + [now])[i] == Completion(costs, period, i)
    ensures var pushedAt := now + costs[k];
            Paced(costs, period, k + 1, starts + [now],
                  if pushedAt < (k + 1) * period then (k + 1) * period else pushedAt)
  {
  }

  lemma PacedShows(costs: seq<nat>, period: nat, k: nat, starts: seq<nat>, now: nat)
    requires Paced(costs, period, k, starts, now)
    ensures k <= |costs| && |starts| == k && now == Completion(costs, period, k)
    ensures forall i :: 0 <= i < k ==> starts[i] == Completion(costs, period, i)
  {
  }

  /**
    Recording and sending: whatever the encoder gives, the frames that are sent are the encoder's
    frames, all of them exactly when no push fails, and none before its time.
   */
  method RecordAndSend(inputs: seq<Encoded>, flush: seq<Encoded>, period: nat, pushes: seq<Push>)
    returns (pushed: seq<seq<byte>>, starts: seq<nat>)
    requires flush != [] && Dry(flush[|flush| - 1])
    requires |pushes| == |RunFrames(inputs, flush)|
    requires forall f <- RunFrames(inputs, flush) :: |f| < TWO_TO_THE_64
    ensures |pushed| <= |pushes| && pushed == RunFrames(inputs, flush)[..|pushed|]
    ensures |pushed| == |pushes| <==> forall p <- pushes :: p.ok
    ensures |starts| >= |pushed| && forall k :: 0 <= k < |starts| ==> k * period <= starts[k]
  {
    hide Concat, Index, SizesFrom, SlicesFrom, RunFrames, Completion, Sum;
    ghost var frames := RunFrames(inputs, flush);
    var files := new StreamFiles();
    var rvalue := files.KvazaarEncode(inputs, flush);
    var chunkSizes := GetChunkSizes(Some(files.memoryFile), []);
    assert files.memoryFile + [] == files.memoryFile && [] + chunkSizes == chunkSizes;
    IndexReadsBack(frames, []);
    IndexFits(frames, []);
    IndexRoundTrip(frames, []);
    assert chunkSizes == SizesFrom(Index(frames) + [], 0);
    assert |chunkSizes| == |frames|;
    assert Sum(chunkSizes) <= |files.outputFile|;
    var ok, bytesSent, diff;
    ok, pushed, starts, bytesSent, diff := SenderThread(files.outputFile, chunkSizes, period, pushes);
    assert SlicesFrom(files.outputFile, 0, chunkSizes) == Recovered(frames, []) == frames;
    forall k | 0 <= k < |starts| ensures k * period <= starts[k] {
      NeverEarly(Costs(pushes), period, k);
    }
  }
}
