/**
 * The orchestrator's two loops, `HistoricProcess` and `LiveProcess`, in uint64 arithmetic: which chunks
 * of block heights they hand to `processChunk`.
 */
module Scheduler {
  import opened Results

  const LAST_HEIGHT: Uint64 := TWO_TO_THE_64 - 1

  datatype Chunk = Chunk(start: Uint64, end: Uint64)

  /** The chunks leave no gap and no overlap between `from` and `to`. */
  predicate Tiles(chunks: seq<Chunk>, from: nat, to: nat) {
    if chunks == [] then from > to
    else chunks[0].start == from && from <= chunks[0].end <= to && Tiles(chunks[1..], chunks[0].end + 1, to)
  }

  // ----- Historic mode -----

  /** `min(startHeight + MaxBlockChunkSize - 1, toHeight)`. */
  function HistoricEnd(start: Uint64, to: Uint64, size: Uint64): Uint64 {
    Min(Sub64(Add64(start, size), 1), to)
  }

  /** The chunks of the first `n` iterations, fewer if the loop ends before. */
  function Historic(start: Uint64, to: Uint64, size: Uint64, n: nat): seq<Chunk>
    decreases n
  {
    if n == 0 || start > to then []
    else
      var end := HistoricEnd(start, to, size);
      [Chunk(start, end)] + Historic(Add64(end, 1), to, size, n - 1)
  }

  /** Whether the loop condition is false after at most `n` iterations. */
  predicate HistoricEnds(start: Uint64, to: Uint64, size: Uint64, n: nat)
    decreases n
  {
    start > to || (n > 0 && HistoricEnds(Add64(HistoricEnd(start, to, size), 1), to, size, n - 1))
  }

  /** A chunk size of zero acts as 2^64 in `start + size - 1`. */
  function Stride(size: Uint64): nat {
    if size == 0 then TWO_TO_THE_64 else size
  }

  /**
   * What a caller can check: there is a height after `to`, and the end of the last chunk, before it is
   * cut to `to`, does not wrap around. The last chunk starts at `to - (to - from) % stride`.
   */
  predicate NoWrap(from: Uint64, to: Uint64, size: Uint64)
    requires from <= to
  {
    to < LAST_HEIGHT && to - (to - from) % Stride(size) + Stride(size) - 1 <= LAST_HEIGHT
  }

  /** The loop ends within `n` iterations, and its chunks tile the range. */
  predicate Covers(from: Uint64, to: Uint64, size: Uint64, n: nat) {
    HistoricEnds(from, to, size, n) && Tiles(Historic(from, to, size, n), from, to)
  }

  lemma MultipleGrows(k: int, d: nat)
    ensures k >= 1 ==> k * d >= d
    ensures k <= -1 ==> k * d <= 0 - d
  {
  }

  lemma ModuloIs(n: int, d: nat, q: int, r: nat)
    requires d > 0 && r < d && n == q * d + r
    ensures n % d == r
  {
    MultipleGrows(n / d - q, d);
    assert n == (n / d) * d + n % d;
    assert (n / d - q) * d == r - n % d;
  }

  lemma ModuloStep(a: nat, d: nat)
    requires a >= d > 0
    ensures (a - d) % d == a % d
  {
    assert a == (a / d) * d + a % d;
    assert a - d == (a / d - 1) * d + a % d;
    ModuloIs(a - d, d, a / d - 1, a % d);
  }

  /** The last chunk: cut to `to`, or sent backwards by the wrap-around. */
  lemma LastChunk(from: Uint64, to: Uint64, size: Uint64)
    requires from <= to < from + Stride(size)
    ensures NoWrap(from, to, size) <==> to < LAST_HEIGHT && from + Stride(size) - 1 <= LAST_HEIGHT
    ensures if from + Stride(size) - 1 <= LAST_HEIGHT then HistoricEnd(from, to, size) == to
            else HistoricEnd(from, to, size) < from
  {
    ModuloIs(to - from, Stride(size), 0, to - from);
  }

  lemma FullChunk(from: Uint64, to: Uint64, size: Uint64)
    requires from + Stride(size) <= to
    ensures HistoricEnd(from, to, size) == from + Stride(size) - 1
    ensures NoWrap(from, to, size) <==> NoWrap(from + Stride(size), to, size)
  {
    ModuloStep(to - from, Stride(size));
    assert (to - from) - Stride(size) == to - (from + Stride(size));
    Wrap64(from, size);
    Wrap64(from + size, 1);
    hide Add64, Sub64;
  }

  lemma FullChunkCovers(from: Uint64, to: Uint64, size: Uint64, n: nat)
    requires from + Stride(size) <= to && n > 0
    requires HistoricEnd(from, to, size) == from + Stride(size) - 1
    ensures Covers(from, to, size, n) <==> Covers(from + Stride(size), to, size, n - 1)
  {
    Wrap64(from + Stride(size) - 1, 1);
    hide Add64, Sub64, HistoricEnd;
    var chunk := Chunk(from, from + Stride(size) - 1);
    var rest := Historic(from + Stride(size), to, size, n - 1);
    assert Historic(from, to, size, n) == [chunk] + rest;
    assert ([chunk] + rest)[1..] == rest;
  }

  lemma {:induction false} TilesWhenNoWrap(from: Uint64, to: Uint64, size: Uint64) returns (n: nat)
    requires from <= to && NoWrap(from, to, size)
    ensures Covers(from, to, size, n)
    decreases LAST_HEIGHT - from
  {
    if from + Stride(size) > to {
      LastChunk(from, to, size);
      n := 1;
      assert HistoricEnds(to + 1, to, size, 0) && Tiles([], to + 1, to);
      assert Historic(from, to, size, 1) == [Chunk(from, to)];
    } else {
      FullChunk(from, to, size);
      n := TilesWhenNoWrap(from + Stride(size), to, size);
      n := n + 1;
      FullChunkCovers(from, to, size, n);
    }
  }

  lemma {:induction false} NoWrapWhenTiles(from: Uint64, to: Uint64, size: Uint64, n: nat)
    requires from <= to && Covers(from, to, size, n)
    ensures NoWrap(from, to, size)
    decreases n
  {
    assert n > 0;
    if from + Stride(size) > to {
      LastChunk(from, to, size);
      assert Historic(from, to, size, n)[0].end == HistoricEnd(from, to, size);
      if to == LAST_HEIGHT {
        LastHeightNeverEnds(from, size, n);
      }
    } else {
      FullChunk(from, to, size);
      FullChunkCovers(from, to, size, n);
      NoWrapWhenTiles(from + Stride(size), to, size, n - 1);
    }
  }

  /**
   * The historic loop ends with chunks that tile [from, to] exactly when `to` is not the last uint64 and the
   * last chunk's end does not wrap. Otherwise it runs for ever or hands out a chunk that goes backwards.
   */
  lemma HistoricTilesIff(from: Uint64, to: Uint64, size: Uint64)
    requires from <= to
    ensures NoWrap(from, to, size) <==> exists n :: Covers(from, to, size, n)
  {
    if NoWrap(from, to, size) {
      var n := TilesWhenNoWrap(from, to, size);
    }
    if n :| Covers(from, to, size, n) {
      NoWrapWhenTiles(from, to, size, n);
    }
  }

  /** The documented bounds are enough: a size of at least one and room for one more chunk above `to`. */
  lemma HistoricTiles(from: Uint64, to: Uint64, size: Uint64)
    requires from <= to < LAST_HEIGHT && size >= 1 && to + size - 1 <= LAST_HEIGHT
    ensures exists n :: Covers(from, to, size, n)
  {
    HistoricTilesIff(from, to, size);
  }

  /** Up to the last height the loop never ends, whatever the chunk size. */
  lemma {:induction false} LastHeightNeverEnds(from: Uint64, size: Uint64, n: nat)
    ensures !HistoricEnds(from, LAST_HEIGHT, size, n)
    decreases n
  {
    if n > 0 {
      LastHeightNeverEnds(Add64(HistoricEnd(from, LAST_HEIGHT, size), 1), size, n - 1);
    }
  }

  /** No chunk is longer than the configured size. */
  lemma {:induction false} HistoricChunksFit(from: Uint64, to: Uint64, size: Uint64, n: nat, i: nat)
    requires size >= 1 && i < |Historic(from, to, size, n)|
    ensures Historic(from, to, size, n)[i].end < Historic(from, to, size, n)[i].start + size
    decreases n
  {
    if i > 0 {
      HistoricChunksFit(Add64(HistoricEnd(from, to, size), 1), to, size, n - 1, i - 1);
    }
  }

  // ----- Live mode -----

  /** The chunk of one live iteration; None when the height query failed or nothing is new. */
  function LiveChunk(last: Uint64, report: Option<Uint64>, size: Uint64): Option<Chunk> {
    if report.None? then None
    else
      var behind := Sub64(report.value, last);
      if behind <= 0 then None
      else
        var chunkSize := Min(behind, size);
        var start := Add64(last, 1);
        Some(Chunk(start, Min(Sub64(Add64(start, chunkSize), 1), report.value)))
  }

  function LiveNext(last: Uint64, report: Option<Uint64>, size: Uint64): Uint64 {
    var c := LiveChunk(last, report, size);
    if c.Some? then c.value.end else last
  }

  function Live(last: Uint64, reports: seq<Option<Uint64>>, size: Uint64): seq<Chunk>
    decreases |reports|
  {
    if reports == [] then []
    else
      var c := LiveChunk(last, reports[0], size);
      (if c.Some? then [c.value] else []) + Live(LiveNext(last, reports[0], size), reports[1..], size)
  }

  function LiveLast(last: Uint64, reports: seq<Option<Uint64>>, size: Uint64): Uint64
    decreases |reports|
  {
    if reports == [] then last else LiveLast(LiveNext(last, reports[0], size), reports[1..], size)
  }

  /** The chunk starts one past the last processed height, is not empty, and stays within the reported height. */
  predicate StepSound(last: Uint64, report: Option<Uint64>, size: Uint64) {
    var c := LiveChunk(last, report, size);
    c.Some? ==>
      && c.value.start == last + 1
      && c.value.start <= c.value.end <= report.value
      && c.value.end < c.value.start + size
  }

  predicate LiveSound(last: Uint64, reports: seq<Option<Uint64>>, size: Uint64)
    decreases |reports|
  {
    reports == [] ||
    (StepSound(last, reports[0], size) && LiveSound(LiveNext(last, reports[0], size), reports[1..], size))
  }

  /** With the tip ahead: one chunk, up to the tip or the size. With it below: a chunk that goes backwards. */
  lemma LiveChunkIs(last: Uint64, h: Uint64, size: Uint64)
    requires size >= 1
    ensures h == last ==> LiveChunk(last, Some(h), size).None?
    ensures h > last ==> LiveChunk(last, Some(h), size) == Some(Chunk(last + 1, Min(last + size, h)))
    ensures h < last ==> LiveChunk(last, Some(h), size).Some? && LiveNext(last, Some(h), size) <= h
  {
    Wrap64(h, last);
    Wrap64(last, 1);
    if h > last {
      var chunkSize := Min(h - last, size);
      Wrap64(last + 1, chunkSize);
      Wrap64(Add64(last + 1, chunkSize), 1);
    }
  }

  lemma LiveStep(last: Uint64, report: Option<Uint64>, size: Uint64)
    requires size >= 1
    ensures StepSound(last, report, size) <==> (report.Some? ==> last <= report.value)
    ensures StepSound(last, report, size) ==> last <= LiveNext(last, report, size)
  {
    if report.Some? {
      LiveChunkIs(last, report.value, size);
    }
  }

  /** What the unsigned `blocksBehind` needs: no reported height is below the one processed last. */
  predicate NeverBehind(last: Uint64, reports: seq<Option<Uint64>>, size: Uint64)
    decreases |reports|
  {
    reports == [] ||
    ((reports[0].Some? ==> last <= reports[0].value)
     && NeverBehind(LiveNext(last, reports[0], size), reports[1..], size))
  }

  /** A live run is sound exactly when no report falls behind; one that does sends the loop backwards. */
  lemma {:induction false} LiveSoundIff(last: Uint64, reports: seq<Option<Uint64>>, size: Uint64)
    requires size >= 1
    ensures LiveSound(last, reports, size) <==> NeverBehind(last, reports, size)
    decreases |reports|
  {
    if reports != [] {
      LiveStep(last, reports[0], size);
      LiveSoundIff(LiveNext(last, reports[0], size), reports[1..], size);
    }
  }

  /** A chain tip that only grows, with failed queries in between, never falls behind. */
  predicate Nondecreasing(floor: Uint64, reports: seq<Option<Uint64>>)
    decreases |reports|
  {
    reports == [] ||
    match reports[0]
    case None => Nondecreasing(floor, reports[1..])
    case Some(h) => floor <= h && Nondecreasing(h, reports[1..])
  }

  lemma {:induction false} GrowingTipNeverBehind(
    last: Uint64, floor: Uint64, reports: seq<Option<Uint64>>, size: Uint64)
    requires last <= floor && Nondecreasing(floor, reports)
    ensures NeverBehind(last, reports, size)
    decreases |reports|
  {
    if reports != [] {
      GrowingTipNeverBehind(LiveNext(last, reports[0], size),
                            if reports[0].Some? then reports[0].value else floor, reports[1..], size);
    }
  }

  /** The chunks of a sound run tile the heights above the first one processed, up to the last. */
  lemma {:induction false} LiveTiles(last: Uint64, reports: seq<Option<Uint64>>, size: Uint64)
    requires size >= 1 && NeverBehind(last, reports, size)
    ensures last <= LiveLast(last, reports, size)
    ensures Tiles(Live(last, reports, size), last + 1, LiveLast(last, reports, size))
    decreases |reports|
  {
    if reports != [] {
      LiveStep(last, reports[0], size);
      var c, next := LiveChunk(last, reports[0], size), LiveNext(last, reports[0], size);
      LiveTiles(next, reports[1..], size);
      var rest := Live(next, reports[1..], size);
      if c.Some? {
        assert Live(last, reports, size) == [c.value] + rest;
        assert ([c.value] + rest)[1..] == rest;
      } else {
        assert Live(last, reports, size) == [] + rest == rest;
      }
    }
  }

  lemma OneMore(k: nat, size: nat)
    ensures (k + 1) * size == k * size + size
    ensures k * size >= 0
  {
  }

  /** With a tip at or above `tip` for k iterations, the loop reaches it or gains k full chunks. */
  lemma {:induction false} LiveCatchesUp(last: Uint64, reports: seq<Option<Uint64>>, size: Uint64, tip: Uint64)
    requires size >= 1 && NeverBehind(last, reports, size)
    requires forall i :: 0 <= i < |reports| ==> reports[i].Some? && reports[i].value >= tip
    ensures LiveLast(last, reports, size) >= Min(tip, last + |reports| * size)
    decreases |reports|
  {
    if reports != [] {
      LiveStep(last, reports[0], size);
      LiveChunkIs(last, reports[0].value, size);
      var next := LiveNext(last, reports[0], size);
      LiveCatchesUp(next, reports[1..], size, tip);
      LiveTiles(next, reports[1..], size);
      assert next >= Min(tip, last + size);
      OneMore(|reports[1..]|, size);
    }
  }

  // ----- The loops themselves -----

  lemma HistoricUnfolds(start: Uint64, to: Uint64, size: Uint64, n: nat)
    ensures n == 0 || start > to ==>
              Historic(start, to, size, n) == [] && (HistoricEnds(start, to, size, n) <==> start > to)
    ensures n > 0 && start <= to ==>
              var end := HistoricEnd(start, to, size);
              && (HistoricEnds(start, to, size, n) <==> HistoricEnds(Add64(end, 1), to, size, n - 1))
              && forall done: seq<Chunk> :: done + Historic(start, to, size, n)
                                         == (done + [Chunk(start, end)]) + Historic(Add64(end, 1), to, size, n - 1)
  {
    if n > 0 && start <= to {
      var end := HistoricEnd(start, to, size);
      var rest := Historic(Add64(end, 1), to, size, n - 1);
      assert Historic(start, to, size, n) == [Chunk(start, end)] + rest;
      forall done: seq<Chunk>
        ensures done + Historic(start, to, size, n) == (done + [Chunk(start, end)]) + rest
      {
        assert done + ([Chunk(start, end)] + rest) == (done + [Chunk(start, end)]) + rest;
      }
    }
  }

  lemma LiveUnfolds(last: Uint64, reports: seq<Option<Uint64>>, i: nat, size: Uint64)
    requires i < |reports|
    ensures var c, next := LiveChunk(last, reports[i], size), LiveNext(last, reports[i], size);
            && LiveLast(last, reports[i..], size) == LiveLast(next, reports[i + 1..], size)
            && (c.None? ==> next == last && Live(last, reports[i..], size) == Live(next, reports[i + 1..], size))
            && (c.Some? ==> next == c.value.end)
            && (c.Some? ==> forall done: seq<Chunk> :: done + Live(last, reports[i..], size)
                                                    == (done + [c.value]) + Live(next, reports[i + 1..], size))
  {
    hide LiveChunk;
    assert reports[i..][1..] == reports[i + 1..];
    var c, next := LiveChunk(last, reports[i], size), LiveNext(last, reports[i], size);
    var rest := Live(next, reports[i + 1..], size);
    assert Live(last, reports[i..], size) == (if c.Some? then [c.value] else []) + rest;
    forall done: seq<Chunk> | c.Some?
      ensures done + Live(last, reports[i..], size) == (done + [c.value]) + rest
    {
      assert done + ([c.value] + rest) == (done + [c.value]) + rest;
    }
  }

  lemma LiveEnds(last: Uint64, reports: seq<Option<Uint64>>, size: Uint64)
    ensures Live(last, reports[|reports|..], size) == [] && LiveLast(last, reports[|reports|..], size) == last
  {
  }

  class Orchestrator {
    const maxBlockChunkSize: Uint64
    var isProcessing: bool
    var currentProcessingHeight: Uint64

    constructor (size: Uint64)
      ensures maxBlockChunkSize == size && !isProcessing && currentProcessingHeight == 0
    {
      maxBlockChunkSize, isProcessing, currentProcessingHeight := size, false, 0;
    }

    /**
     * `chunks` are the arguments of the `processChunk` calls; the context is cancelled at check number
     * `checks`, so a run without cancellation is the limit over `checks`.
     */
    method HistoricProcess(from: Uint64, to: Uint64, checks: nat) returns (chunks: seq<Chunk>, completed: bool)
      modifies this
      ensures chunks == Historic(from, to, maxBlockChunkSize, checks)
      ensures completed <==> HistoricEnds(from, to, maxBlockChunkSize, checks)
      ensures !isProcessing
      ensures currentProcessingHeight == if chunks == [] then from else chunks[|chunks| - 1].end
    {
      hide Historic, HistoricEnds;
      isProcessing, currentProcessingHeight := true, from;
      chunks := [];
      var startHeight: Uint64, left: nat := from, checks;
      while startHeight <= to
        invariant chunks + Historic(startHeight, to, maxBlockChunkSize, left)
                  == Historic(from, to, maxBlockChunkSize, checks)
        invariant HistoricEnds(startHeight, to, maxBlockChunkSize, left)
                  <==> HistoricEnds(from, to, maxBlockChunkSize, checks)
        invariant currentProcessingHeight == if chunks == [] then from else chunks[|chunks| - 1].end
        decreases left
      {
        HistoricUnfolds(startHeight, to, maxBlockChunkSize, left);
        if left == 0 {
          isProcessing := false;
          return chunks, false;
        }
        left := left - 1;
        var chunkEndHeight := Min(Sub64(Add64(startHeight, maxBlockChunkSize), 1), to);
        currentProcessingHeight := startHeight;
        chunks := chunks + [Chunk(startHeight, chunkEndHeight)];
        currentProcessingHeight := chunkEndHeight;
        startHeight := Add64(chunkEndHeight, 1);
      }
      HistoricUnfolds(startHeight, to, maxBlockChunkSize, left);
      isProcessing := false;
      completed := true;
    }

    /** `reports[i]` is the answer to the i-th height query; the context is cancelled after the last one. */
    method LiveProcess(first: Uint64, reports: seq<Option<Uint64>>) returns (chunks: seq<Chunk>)
      modifies this
      ensures chunks == Live(first, reports, maxBlockChunkSize)
      ensures !isProcessing
      ensures currentProcessingHeight == LiveLast(first, reports, maxBlockChunkSize)
    {
      hide Live, LiveLast;
      isProcessing, currentProcessingHeight := true, first;
      chunks := [];
      assert reports[0..] == reports;
      var lastProcessedHeight: Uint64, i := first, 0;
      while i < |reports|
        invariant 0 <= i <= |reports|
        invariant chunks + Live(lastProcessedHeight, reports[i..], maxBlockChunkSize)
                  == Live(first, reports, maxBlockChunkSize)
        invariant LiveLast(lastProcessedHeight, reports[i..], maxBlockChunkSize)
                  == LiveLast(first, reports, maxBlockChunkSize)
        invariant currentProcessingHeight == lastProcessedHeight
      {
        var report := reports[i];
        LiveUnfolds(lastProcessedHeight, reports, i, maxBlockChunkSize);
        i := i + 1;
        if report.None? {
          continue;
        }
        var blocksBehind := Sub64(report.value, lastProcessedHeight);
        if blocksBehind <= 0 {
          continue;
        }
        var currentChunkSize := Min(blocksBehind, maxBlockChunkSize);
        var chunkStart := Add64(lastProcessedHeight, 1);
        var chunkEnd := Min(Sub64(Add64(chunkStart, currentChunkSize), 1), report.value);
        currentProcessingHeight := chunkStart;
        chunks := chunks + [Chunk(chunkStart, chunkEnd)];
        lastProcessedHeight := chunkEnd;
        currentProcessingHeight := chunkEnd;
      }
      LiveEnds(lastProcessedHeight, reports, maxBlockChunkSize);
      isProcessing := false;
    }
  }
}
