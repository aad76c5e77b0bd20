/** The retained chunks of a stream, and what the contracts of stage2_experiment.py demand of one chunk
    and of all of them together. */
module WireChunks {
  import opened Prelude
  import opened Sse

  /** A retained chunk: its bytes, its clock and the clocks of the frames it completed. */
  datatype WireChunk = WireChunk(data: Bytes, at: Nanos, frameOffsets: seq<Nanos>)

  /** The contract of one retained chunk. */
  predicate ChunkIsValid(c: WireChunk) {
    && c.data != []
    && (c.frameOffsets != [] ==> c.frameOffsets[0] == c.at)
    && forall i, j :: 0 <= i < j < |c.frameOffsets| ==> c.frameOffsets[i] <= c.frameOffsets[j]
  }

  function Later(a: Nanos, b: Nanos): Nanos {
    if a >= b then a else b
  }

  function LatestOf(offsets: seq<Nanos>): Nanos {
    if offsets == [] then 0 else Later(offsets[0], LatestOf(offsets[1..]))
  }

  /** The latest clock of any chunk or frame: when the body was complete. */
  function BodyCompleteAt(chunks: seq<WireChunk>): Nanos {
    if chunks == [] then 0
      else Later(Later(chunks[0].at, LatestOf(chunks[0].frameOffsets)), BodyCompleteAt(chunks[1..]))
  }

  predicate ChunksSorted(chunks: seq<WireChunk>) {
    forall i :: 0 < i < |chunks| ==> chunks[i - 1].at <= chunks[i].at
  }

  /** No chunk comes before the last frame of the chunks before it. */
  predicate FramesDoNotOverlap(previous: Option<Nanos>, chunks: seq<WireChunk>)
    decreases |chunks|
  {
    if chunks == [] then true
    else
      var offsets := chunks[0].frameOffsets;
      && (previous.Some? ==> previous.value <= chunks[0].at)
      && FramesDoNotOverlap(if offsets != [] then Some(offsets[|offsets| - 1]) else previous, chunks[1..])
  }

  lemma {:induction false} LatestIsBounded(offsets: seq<Nanos>, high: Nanos)
    requires forall i :: 0 <= i < |offsets| ==> offsets[i] <= high
    ensures LatestOf(offsets) <= high
  {
    if offsets != [] {
      LatestIsBounded(offsets[1..], high);
    }
  }

  /** The chunks of a run follow each other in order, between its first and its last clock. */
  ghost predicate InOrderBetween(low: Nanos, chunks: seq<WireChunk>, high: Nanos) {
    && low <= high && ChunksSorted(chunks) && BodyCompleteAt(chunks) <= high
    && (forall i :: 0 <= i < |chunks| ==> low <= chunks[i].at)
    && forall previous: Option<Nanos> :: (previous.Some? ==> previous.value <= low) ==>
       FramesDoNotOverlap(previous, chunks)
  }

  lemma InOrderCons(low: Nanos, c: WireChunk, middle: Nanos, rest: seq<WireChunk>, high: Nanos)
    requires InOrderBetween(middle, rest, high) && low <= c.at <= middle
    requires forall i :: 0 <= i < |c.frameOffsets| ==> c.frameOffsets[i] <= middle
    ensures InOrderBetween(low, [c] + rest, high)
  {
    var all := [c] + rest;
    assert all[0] == c && all[1..] == rest;
    LatestIsBounded(c.frameOffsets, high);
    forall previous: Option<Nanos> | previous.Some? ==> previous.value <= low
      ensures FramesDoNotOverlap(previous, all)
    {
      var next := if c.frameOffsets != [] then Some(c.frameOffsets[|c.frameOffsets| - 1]) else previous;
      assert FramesDoNotOverlap(next, rest);
    }
  }

  lemma InOrderFrom(low: Nanos, middle: Nanos, chunks: seq<WireChunk>, high: Nanos)
    requires InOrderBetween(middle, chunks, high) && low <= middle
    ensures InOrderBetween(low, chunks, high)
  {
  }

  lemma BodyCompleteBehindFirst(chunks: seq<WireChunk>)
    ensures chunks != [] ==> chunks[0].at <= BodyCompleteAt(chunks)
  {
  }

  // ---------------------------------------------------------------- the contract, clock by clock

  /** A chunk as retained: bytes, the clock of its first frame, and frame clocks that do not go back. */
  predicate IsRetained(c: WireChunk) {
    && |c.data| > 0 && (|c.frameOffsets| > 0 ==> c.frameOffsets[0] == c.at)
    && forall m, n :: 0 <= m < n < |c.frameOffsets| ==> c.frameOffsets[m] <= c.frameOffsets[n]
  }

  /** Neither the chunk nor a frame of it lies behind this clock. */
  predicate NotBehind(c: WireChunk, at: Nanos) {
    c.at <= at && forall m :: 0 <= m < |c.frameOffsets| ==> c.frameOffsets[m] <= at
  }

  /** Every chunk is retained like that, and none comes before a chunk or a frame in front of it. */
  predicate Follow(chunks: seq<WireChunk>) {
    && (forall i :: 0 <= i < |chunks| ==> IsRetained(chunks[i]))
    && forall i, j :: 0 <= i < j < |chunks| ==> NotBehind(chunks[i], chunks[j].at)
  }

  lemma {:induction false} OverlapExactly(previous: Option<Nanos>, chunks: seq<WireChunk>)
    requires forall i :: 0 <= i < |chunks| ==> IsRetained(chunks[i])
    ensures FramesDoNotOverlap(previous, chunks)
            <==> AllBehind(previous, chunks) && FramesApart(chunks)
    decreases |chunks|
  {
    if chunks != [] {
      var c, rest := chunks[0], chunks[1..];
      var next := if c.frameOffsets != [] then Some(c.frameOffsets[|c.frameOffsets| - 1]) else previous;
      OverlapExactly(next, rest);
      assert forall j :: 0 < j < |chunks| ==> chunks[j] == rest[j - 1];
      assert chunks == [c] + rest;
      ApartCons(c, rest);
      BehindCons(previous, c, rest);
    }
  }

  predicate FramesNotBehind(c: WireChunk, at: Nanos) {
    forall m :: 0 <= m < |c.frameOffsets| ==> c.frameOffsets[m] <= at
  }

  predicate AllBehind(previous: Option<Nanos>, chunks: seq<WireChunk>) {
    previous.Some? ==> forall j :: 0 <= j < |chunks| ==> previous.value <= chunks[j].at
  }

  predicate FramesApart(chunks: seq<WireChunk>) {
    forall i, j :: 0 <= i < j < |chunks| ==> FramesNotBehind(chunks[i], chunks[j].at)
  }

  lemma ApartCons(c: WireChunk, rest: seq<WireChunk>)
    ensures FramesApart([c] + rest)
            <==> FramesApart(rest) && forall j :: 0 <= j < |rest| ==> FramesNotBehind(c, rest[j].at)
  {
    var chunks := [c] + rest;
    assert chunks[0] == c && forall j :: 0 <= j < |rest| ==> chunks[j + 1] == rest[j];
    if FramesApart(chunks) {
      forall i, j | 0 <= i < j < |rest| ensures FramesNotBehind(rest[i], rest[j].at) {
        assert FramesNotBehind(chunks[i + 1], chunks[j + 1].at);
      }
      forall j | 0 <= j < |rest| ensures FramesNotBehind(c, rest[j].at) {
        assert FramesNotBehind(chunks[0], chunks[j + 1].at);
      }
    }
  }

  lemma BehindCons(previous: Option<Nanos>, c: WireChunk, rest: seq<WireChunk>)
    requires IsRetained(c)
    ensures var next := if c.frameOffsets != [] then Some(c.frameOffsets[|c.frameOffsets| - 1]) else previous;
            (previous.Some? ==> previous.value <= c.at) && AllBehind(next, rest)
            <==> AllBehind(previous, [c] + rest) && forall j :: 0 <= j < |rest| ==> FramesNotBehind(c, rest[j].at)
  {
    var chunks := [c] + rest;
    assert chunks[0] == c && forall j :: 0 <= j < |rest| ==> chunks[j + 1] == rest[j];
    if c.frameOffsets != [] {
      var last := c.frameOffsets[|c.frameOffsets| - 1];
      assert c.at <= last;
      forall j | 0 <= j < |rest| ensures FramesNotBehind(c, rest[j].at) <==> last <= rest[j].at {
      }
    }
  }

  lemma {:induction false} SortedThroughout(chunks: seq<WireChunk>, i: nat, j: nat)
    requires ChunksSorted(chunks) && i <= j < |chunks|
    ensures chunks[i].at <= chunks[j].at
    decreases j - i
  {
    if i < j {
      SortedThroughout(chunks, i, j - 1);
    }
  }

  /** The three demands on retained chunks, exactly: they are in order, chunk and frame clocks alike. */
  lemma ChunksFollowExactly(chunks: seq<WireChunk>)
    ensures (forall i :: 0 <= i < |chunks| ==> ChunkIsValid(chunks[i])) && ChunksSorted(chunks)
            && FramesDoNotOverlap(None, chunks)
            <==> Follow(chunks)
  {
    assert forall i :: 0 <= i < |chunks| ==> (ChunkIsValid(chunks[i]) <==> IsRetained(chunks[i]));
    if forall i :: 0 <= i < |chunks| ==> IsRetained(chunks[i]) {
      OverlapExactly(None, chunks);
      if ChunksSorted(chunks) && FramesDoNotOverlap(None, chunks) {
        forall i, j | 0 <= i < j < |chunks| ensures NotBehind(chunks[i], chunks[j].at) {
          SortedThroughout(chunks, i, j);
          assert FramesNotBehind(chunks[i], chunks[j].at);
        }
      }
      if Follow(chunks) {
        forall i, j | 0 <= i < j < |chunks| ensures FramesNotBehind(chunks[i], chunks[j].at) {
          assert NotBehind(chunks[i], chunks[j].at);
        }
        forall i | 0 < i < |chunks| ensures chunks[i - 1].at <= chunks[i].at {
          assert NotBehind(chunks[i - 1], chunks[i].at);
        }
      }
    }
  }

  lemma {:induction false} LatestExactly(offsets: seq<Nanos>, x: Nanos)
    ensures LatestOf(offsets) <= x <==> forall m :: 0 <= m < |offsets| ==> offsets[m] <= x
  {
    if offsets != [] {
      LatestExactly(offsets[1..], x);
      assert forall m :: 0 < m < |offsets| ==> offsets[m] == offsets[1..][m - 1];
    }
  }

  /** The body is complete at the latest clock of all. */
  lemma {:induction false} BodyCompleteExactly(chunks: seq<WireChunk>, x: Nanos)
    ensures BodyCompleteAt(chunks) <= x <==> forall i :: 0 <= i < |chunks| ==> NotBehind(chunks[i], x)
  {
    if chunks != [] {
      LatestExactly(chunks[0].frameOffsets, x);
      BodyCompleteExactly(chunks[1..], x);
      assert forall i :: 0 < i < |chunks| ==> chunks[i] == chunks[1..][i - 1];
    }
  }
}
