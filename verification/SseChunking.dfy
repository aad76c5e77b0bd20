/** When the transport's chunking can and cannot be observed through the incremental parser, and
    when the regular expression over the raw bytes agrees with the parser's own buffer. */
module SseChunking {
  import opened Prelude
  import opened Sse

  // ---------------------------------------------------------------- whole runs of reads

  datatype Fault = NoFault | LimitFault | ProtocolFault

  /** Everything observable after a run of reads; a parser that raised stays as it is. */
  datatype ParserRun = ParserRun(frames: seq<SSEFrame>, buffer: Bytes, done: bool, fault: Fault)

  const FRESH := ParserRun([], [], false, NoFault)

  function Read(decode: Decoder, run: ParserRun, chunk: Bytes): ParserRun {
    if run.fault != NoFault then run
    else
      var effect := FeedOf(decode, run.buffer, run.done, chunk);
      match effect.status
      case Accepted(frames) => ParserRun(run.frames + frames, effect.buffer, effect.done, NoFault)
      case LimitExceeded => ParserRun(run.frames, effect.buffer, effect.done, LimitFault)
      case ProtocolError => ParserRun(run.frames, effect.buffer, effect.done, ProtocolFault)
  }

  function ReadAll(decode: Decoder, chunks: seq<Bytes>): ParserRun {
    if chunks == [] then FRESH
    else Read(decode, ReadAll(decode, chunks[..|chunks| - 1]), chunks[|chunks| - 1])
  }

  /** Two runs agree: the same frames, flag and buffer, or both were refused. */
  predicate Agree(one: ParserRun, other: ParserRun) {
    one == other || (one.fault == ProtocolFault && other.fault == ProtocolFault)
  }

  /** CR CR LF with at least one more byte behind it. */
  ghost predicate HasInnerCrCrLf(b: Bytes) {
    exists i :: CrCrLfAt(b, i) && i + 3 < |b|
  }

  predicate CrCrLfAt(b: Bytes, i: int) {
    0 <= i && i + 3 <= |b| && b[i] == CR && b[i + 1] == CR && b[i + 2] == LF
  }

  ghost predicate HasCrCrLf(b: Bytes) {
    exists i :: CrCrLfAt(b, i)
  }

  // ---------------------------------------------------------------- normalisation and splitting

  /** No CR LF pair is left. */
  predicate CrLfFree(b: Bytes) {
    forall i :: 0 <= i && i + 1 < |b| ==> !(b[i] == CR && b[i + 1] == LF)
  }

  lemma TailHasNoCrCrLf(b: Bytes, cut: nat)
    requires cut <= |b| && !HasCrCrLf(b)
    ensures !HasCrCrLf(b[cut..]) && !HasCrCrLf(b[..cut])
  {
    forall i | CrCrLfAt(b[cut..], i) ensures CrCrLfAt(b, cut + i) {}
    forall i | CrCrLfAt(b[..cut], i) ensures CrCrLfAt(b, i) {}
  }

  lemma NormaliseCons(head: Byte, tail: Bytes)
    requires head != CR || tail == [] || tail[0] != LF
    ensures Normalise([head] + tail) == [head] + Normalise(tail)
  {
    assert ([head] + tail)[1..] == tail;
  }

  lemma NormalisePair(tail: Bytes)
    ensures Normalise([CR, LF] + tail) == [LF] + Normalise(tail)
  {
    assert ([CR, LF] + tail)[2..] == tail;
  }

  /** Normalising twice, with bytes arriving in between, is normalising once. */
  lemma {:induction false} NormaliseResumes(p: Bytes, c: Bytes)
    requires !HasCrCrLf(p)
    ensures Normalise(Normalise(p) + c) == Normalise(p + c)
    decreases |p|, 1
  {
    if p == [] {
      assert p + c == c;
    } else if p[0] == CR && |p| >= 2 && p[1] == LF {
      TailHasNoCrCrLf(p, 2);
      NormaliseResumes(p[2..], c);
      NormaliseResumesBehindPair(p[2..], c);
      assert p == [CR, LF] + p[2..];
    } else {
      assert p == [p[0]] + p[1..];
      NormaliseResumesAfter(p[0], p[1..], c);
    }
  }

  lemma NormaliseResumesBehindPair(tail: Bytes, c: Bytes)
    requires Normalise(Normalise(tail) + c) == Normalise(tail + c)
    ensures Normalise(Normalise([CR, LF] + tail) + c) == Normalise([CR, LF] + tail + c)
  {
    NormalisePair(tail);
    NormalisePair(tail + c);
    NormaliseCons(LF, Normalise(tail) + c);
    ConcatAssociates([CR, LF], tail, c);
    ConcatAssociates([LF], Normalise(tail), c);
  }

  lemma {:induction false} NormaliseResumesAfter(head: Byte, tail: Bytes, c: Bytes)
    requires !HasCrCrLf([head] + tail)
    requires head == CR && tail != [] ==> tail[0] != LF
    ensures Normalise(Normalise([head] + tail) + c) == Normalise([head] + tail + c)
    decreases 1 + |tail|, 0
  {
    var p := [head] + tail;
    assert p[1..] == tail;
    TailHasNoCrCrLf(p, 1);
    NormaliseResumes(tail, c);
    NormaliseCons(head, tail);
    var n := Normalise(tail);
    ConcatAssociates([head], n, c);
    ConcatAssociates([head], tail, c);
    if tail != [] {
      assert head == CR ==> n[0] != LF by {
        assert !CrCrLfAt(p, 0);
      }
      NormaliseCons(head, n + c);
      NormaliseCons(head, tail + c);
    }
  }

  lemma {:induction false} NormaliseIsCrLfFree(p: Bytes)
    requires !HasCrCrLf(p)
    ensures CrLfFree(Normalise(p))
  {
    if p != [] {
      var step := if p[0] == CR && |p| >= 2 && p[1] == LF then 2 else 1;
      TailHasNoCrCrLf(p, step);
      NormaliseIsCrLfFree(p[step..]);
      assert !CrCrLfAt(p, 0);
    }
  }

  lemma {:induction false} NormaliseFixes(b: Bytes)
    requires CrLfFree(b)
    ensures Normalise(b) == b
  {
    if b != [] {
      NormaliseFixes(b[1..]);
      assert b == [b[0]] + b[1..];
    }
  }

  /** Two pieces normalise apart when the first cannot end inside a CR LF pair. */
  lemma {:induction false} NormaliseSplits(head: Bytes, c: Bytes)
    requires head == [] || head[|head| - 1] == LF
    ensures Normalise(head + c) == Normalise(head) + Normalise(c)
  {
    if head == [] {
      ConcatNothing(c);
    } else {
      var step := if head[0] == CR && head[1] == LF then 2 else 1;
      assert (head + c)[step..] == head[step..] + c;
      NormaliseSplits(head[step..], c);
      ConcatAssociates([head[step - 1]], Normalise(head[step..]), Normalise(c));
    }
  }

  lemma {:induction false} FirstBlankStays(b: Bytes, at: nat, x: Bytes)
    requires FirstBlank(b) == Some(at)
    ensures FirstBlank(b[..at + 2] + x) == Some(at)
  {
    if at > 0 {
      assert (b[..at + 2] + x)[1..] == b[1..][..at + 1] + x;
      FirstBlankStays(b[1..], at - 1, x);
    }
  }

  /** One frame (or empty frame) taken off the front, whatever follows. */
  lemma DrainStep(decode: Decoder, b: Bytes, done: bool, at: nat, x: Bytes)
    requires FirstBlank(b) == Some(at)
    ensures at == 0 ==> Drain(decode, b[..2] + x, done) == Drain(decode, x, done).After([])
    ensures at > 0 ==> var parsed := FrameOf(decode, b[..at], done);
                       Drain(decode, b[..at + 2] + x, done)
                       == if parsed.Raised? then Drained([], x, done, true)
                          else Drain(decode, x, parsed.value.1).After([parsed.value.0])
  {
    FirstBlankStays(b, at, x);
    var whole := b[..at + 2] + x;
    assert whole[..at] == b[..at] && whole[at + 2..] == x;
    Drain(decode, x, done).AfterNothing();
  }

  /** The result of draining `head + x` when `d` is the result of draining `head` and a leftover. */
  function Resumed(decode: Decoder, d: Drained, x: Bytes): Drained {
    if d.raised then Drained(d.frames, x, d.done, true) else Drain(decode, x, d.done).After(d.frames)
  }

  lemma ResumedAfter(decode: Decoder, d: Drained, x: Bytes, first: seq<SSEFrame>)
    ensures Resumed(decode, d.After(first), x) == Resumed(decode, d, x).After(first)
  {
    Drain(decode, x, d.done).AfterBoth(first, d.frames);
  }

  /** The part of a buffer that draining consumes. */
  ghost function Head(decode: Decoder, b: Bytes, done: bool): (head: Bytes)
    ensures head == [] || head[|head| - 1] == LF
    decreases |b|
  {
    match FirstBlank(b)
    case None => []
    case Some(at) =>
      var parsed := if at == 0 then Raised else FrameOf(decode, b[..at], done);
      if at > 0 && parsed.Raised? then b[..at + 2]
      else b[..at + 2] + Head(decode, b[at + 2..], if at == 0 then done else parsed.value.1)
  }

  lemma {:induction false} HeadThenBuffer(decode: Decoder, b: Bytes, done: bool)
    ensures b == Head(decode, b, done) + Drain(decode, b, done).buffer
    decreases |b|
  {
    match FirstBlank(b)
    case None => ConcatNothing(b);
    case Some(at) =>
      var front, rest := b[..at + 2], b[at + 2..];
      SplitAt(b, at + 2);
      if at == 0 || FrameOf(decode, b[..at], done).Returned? {
        var done' := if at == 0 then done else FrameOf(decode, b[..at], done).value.1;
        HeadThenBuffer(decode, rest, done');
        ConcatAssociates(front, Head(decode, rest, done'), Drain(decode, rest, done').buffer);
      }
  }

  /** Draining depends on what follows the consumed part only through what follows it. */
  lemma {:induction false} DrainCut(decode: Decoder, b: Bytes, done: bool, x: Bytes)
    ensures Drain(decode, Head(decode, b, done) + x, done) == Resumed(decode, Drain(decode, b, done), x)
    decreases |b|
  {
    match FirstBlank(b)
    case None =>
      ConcatNothing(x);
      Drain(decode, x, done).AfterNothing();
    case Some(at) =>
      var front, rest := b[..at + 2], b[at + 2..];
      SplitAt(b, at + 2);
      DrainStep(decode, b, done, at, rest);
      if at > 0 && FrameOf(decode, b[..at], done).Raised? {
        DrainStep(decode, b, done, at, x);
      } else {
        var done' := if at == 0 then done else FrameOf(decode, b[..at], done).value.1;
        var first := if at == 0 then [] else [FrameOf(decode, b[..at], done).value.0];
        var head' := Head(decode, rest, done');
        DrainCut(decode, rest, done', x);
        DrainStep(decode, b, done, at, head' + x);
        ResumedAfter(decode, Drain(decode, rest, done'), x, first);
        ConcatAssociates(front, head', x);
      }
  }

  // ---------------------------------------------------------------- chunk invariance

  /** What the parser makes of a stream, read without regard to its chunks or to the size limit. */
  function Canonical(decode: Decoder, stream: Bytes): ParserRun {
    RunOf(Drain(decode, Normalise(stream), false))
  }

  function RunOf(d: Drained): ParserRun {
    ParserRun(d.frames, d.buffer, d.done, if d.raised then ProtocolFault else NoFault)
  }

  lemma ReadIsResumed(decode: Decoder, d: Drained, c: Bytes)
    requires !d.raised && c != [] && Read(decode, RunOf(d), c).fault != LimitFault
    ensures Agree(Read(decode, RunOf(d), c), RunOf(Resumed(decode, d, Normalise(d.buffer + c))))
  {
  }

  /** One more read carries the canonical run of a stream to the canonical run of the longer one. */
  lemma ReadExtends(decode: Decoder, p: Bytes, run: ParserRun, c: Bytes)
    requires !HasCrCrLf(p) && c != []
    requires Agree(run, Canonical(decode, p))
    requires Read(decode, run, c).fault != LimitFault
    ensures Agree(Read(decode, run, c), Canonical(decode, p + c))
  {
    CanonicalExtends(decode, p, c);
    var d := Drain(decode, Normalise(p), false);
    if run.fault == NoFault {
      ReadIsResumed(decode, d, c);
    }
  }

  lemma CanonicalExtends(decode: Decoder, p: Bytes, c: Bytes)
    requires !HasCrCrLf(p)
    ensures var d := Drain(decode, Normalise(p), false);
            Drain(decode, Normalise(p + c), false)
            == Resumed(decode, d, Normalise(d.buffer + c))
  {
    var n := Normalise(p);
    var head, rest := Head(decode, n, false), Drain(decode, n, false).buffer;
    HeadThenBuffer(decode, n, false);
    NormaliseIsCrLfFree(p);
    NormaliseResumes(p, c);
    ConcatAssociates(head, rest, c);
    assert CrLfFree(head) by {
      assert forall i :: 0 <= i < |head| ==> head[i] == n[i];
    }
    NormaliseSplits(head, rest + c);
    NormaliseFixes(head);
    DrainCut(decode, n, false, Normalise(rest + c));
  }

  /** The main result, one way: with no CR CR LF before the last byte, every chunking that stays
      within the size limit gives the frames, flag and pending bytes of the stream as a whole. */
  lemma {:induction false} ChunkingIsInvisible(decode: Decoder, chunks: seq<Bytes>)
    requires !HasInnerCrCrLf(Flatten(chunks))
    requires ReadAll(decode, chunks).fault != LimitFault
    ensures Agree(ReadAll(decode, chunks), Canonical(decode, Flatten(chunks)))
    decreases |chunks|
  {
    if chunks == [] {
      assert Normalise([]) == [];
    } else {
      var init, last := chunks[..|chunks| - 1], chunks[|chunks| - 1];
      var p := Flatten(init);
      assert chunks == init + [last];
      FlattenSnoc(init, last);
      forall i | CrCrLfAt(p, i) && (i + 3 < |p| || last != []) ensures false {
        assert CrCrLfAt(Flatten(chunks), i);
      }
      ChunkingIsInvisible(decode, init);
      if last == [] {
        assert p + last == p;
        var run := ReadAll(decode, init);
        assert run.frames + [] == run.frames;
      } else {
        ReadExtends(decode, p, ReadAll(decode, init), last);
      }
    }
  }

  /** Chunk invariance for any two chunkings of one stream. */
  lemma ChunkInvariance(decode: Decoder, one: seq<Bytes>, other: seq<Bytes>)
    requires Flatten(one) == Flatten(other) && !HasInnerCrCrLf(Flatten(one))
    requires ReadAll(decode, one).fault != LimitFault && ReadAll(decode, other).fault != LimitFault
    ensures Agree(ReadAll(decode, one), ReadAll(decode, other))
    ensures var a, b := ReadAll(decode, one), ReadAll(decode, other);
            a.fault == NoFault && b.fault == NoFault
            ==> FinalizeAccepts(a.buffer, a.done) == FinalizeAccepts(b.buffer, b.done)
  {
    ChunkingIsInvisible(decode, one);
    ChunkingIsInvisible(decode, other);
  }

  lemma FaultsStay(decode: Decoder, one: seq<Bytes>, other: seq<Bytes>, after: seq<Bytes>)
    requires Agree(ReadAll(decode, one), ReadAll(decode, other))
    ensures Agree(ReadAll(decode, one + after), ReadAll(decode, other + after))
    decreases |after|
  {
    if after == [] {
      ConcatNothing(one);
      ConcatNothing(other);
    } else {
      var init, last := after[..|after| - 1], after[|after| - 1];
      FaultsStay(decode, one, other, init);
      InitOfConcat(one, after);
      InitOfConcat(other, after);
    }
  }

  lemma LimitFaultStays(decode: Decoder, chunks: seq<Bytes>, after: seq<Bytes>)
    requires ReadAll(decode, chunks).fault == LimitFault
    ensures ReadAll(decode, chunks + after).fault == LimitFault
    decreases |after|
  {
    if after == [] {
      ConcatNothing(chunks);
    } else {
      LimitFaultStays(decode, chunks, after[..|after| - 1]);
      InitOfConcat(chunks, after);
    }
  }

  lemma ReadAllSnoc(decode: Decoder, chunks: seq<Bytes>, c: Bytes)
    ensures ReadAll(decode, chunks + [c]) == Read(decode, ReadAll(decode, chunks), c)
  {
    assert (chunks + [c])[..|chunks|] == chunks;
  }

  lemma LimitOfFirst(decode: Decoder, run: ParserRun, c1: Bytes, c2: Bytes)
    requires Read(decode, run, c1 + c2).fault != LimitFault
    ensures var first := Read(decode, run, c1);
            && first.fault != LimitFault
            && (first.fault == NoFault && c2 != [] ==> |first.buffer + c2| <= MAX_SSE_BUFFER_BYTES)
  {
    if run.fault == NoFault && c2 != [] {
      assert |run.buffer + (c1 + c2)| <= MAX_SSE_BUFFER_BYTES;
      assert |Normalise(run.buffer + c1)| <= |run.buffer + c1|;
    }
  }

  /** One read, and the same bytes in two. */
  lemma TwoReadsWithinLimit(decode: Decoder, run: ParserRun, c1: Bytes, c2: Bytes)
    requires Read(decode, run, c1 + c2).fault != LimitFault
    ensures Read(decode, Read(decode, run, c1), c2).fault != LimitFault
  {
    LimitOfFirst(decode, run, c1, c2);
  }

  lemma OneReadOrTwo(decode: Decoder, before: seq<Bytes>, c1: Bytes, c2: Bytes)
    requires ReadAll(decode, before + [c1 + c2]).fault != LimitFault
    ensures ReadAll(decode, before + [c1] + [c2]).fault != LimitFault
    ensures Flatten(before + [c1 + c2]) == Flatten(before + [c1] + [c2])
  {
    ReadAllSnoc(decode, before, c1 + c2);
    ReadAllSnoc(decode, before, c1);
    ReadAllSnoc(decode, before + [c1], c2);
    TwoReadsWithinLimit(decode, ReadAll(decode, before), c1, c2);
    FlattenSnoc(before, c1 + c2);
    FlattenSnoc(before, c1);
    FlattenSnoc(before + [c1], c2);
    ConcatAssociates(Flatten(before), c1, c2);
  }

  /** Cutting one read in two never trips the size limit when the single read did not. */
  lemma SplittingNeverTrips(decode: Decoder, before: seq<Bytes>, c1: Bytes, c2: Bytes, after: seq<Bytes>)
    requires !HasInnerCrCrLf(Flatten(before + [c1 + c2]))
    requires ReadAll(decode, before + [c1 + c2] + after).fault != LimitFault
    ensures ReadAll(decode, before + [c1] + [c2] + after).fault != LimitFault
  {
    if ReadAll(decode, before + [c1 + c2]).fault == LimitFault {
      LimitFaultStays(decode, before + [c1 + c2], after);
    }
    OneReadOrTwo(decode, before, c1, c2);
    ChunkInvariance(decode, before + [c1 + c2], before + [c1] + [c2]);
    FaultsStay(decode, before + [c1 + c2], before + [c1] + [c2], after);
  }

  /** Reading on from a run. */
  function ReadOn(decode: Decoder, run: ParserRun, chunks: seq<Bytes>): ParserRun
    decreases |chunks|
  {
    if chunks == [] then run else ReadOn(decode, Read(decode, run, chunks[0]), chunks[1..])
  }

  lemma {:induction false} ReadAllThenOn(decode: Decoder, before: seq<Bytes>, after: seq<Bytes>)
    ensures ReadAll(decode, before + after) == ReadOn(decode, ReadAll(decode, before), after)
    decreases |after|
  {
    if after == [] {
      ConcatNothing(before);
    } else {
      assert before + after == before + [after[0]] + after[1..];
      ReadAllSnoc(decode, before, after[0]);
      ReadAllThenOn(decode, before + [after[0]], after[1..]);
    }
  }

  /** The pieces of one read never trip the limit when the read itself does not. */
  lemma {:induction false} PiecesNeverTrip(decode: Decoder, run: ParserRun, pieces: seq<Bytes>)
    requires run.fault != LimitFault && Read(decode, run, Flatten(pieces)).fault != LimitFault
    ensures ReadOn(decode, run, pieces).fault != LimitFault
    decreases |pieces|
  {
    if pieces != [] {
      LimitOfFirst(decode, run, pieces[0], Flatten(pieces[1..]));
      TwoReadsWithinLimit(decode, run, pieces[0], Flatten(pieces[1..]));
      PiecesNeverTrip(decode, Read(decode, run, pieces[0]), pieces[1..]);
    }
  }

  /** The reads that the groups of pieces make up. */
  function Joined(groups: seq<seq<Bytes>>): seq<Bytes> {
    if groups == [] then [] else Joined(groups[..|groups| - 1]) + [Flatten(groups[|groups| - 1])]
  }

  lemma {:induction false} JoinedIsFlat(groups: seq<seq<Bytes>>)
    ensures Flatten(Joined(groups)) == Flatten(Flatten(groups))
  {
    if groups == [] {
      assert Flatten<Bytes>([]) == [];
    } else {
      var init, last := groups[..|groups| - 1], groups[|groups| - 1];
      JoinedIsFlat(init);
      assert groups == init + [last];
      FlattenSnoc(init, last);
      FlattenSnoc(Joined(init), Flatten(last));
      FlattenAppend(Flatten(init), last);
    }
  }

  lemma InnerCrCrLfStays(p: Bytes, c: Bytes)
    requires HasInnerCrCrLf(p)
    ensures HasInnerCrCrLf(p + c)
  {
    var i :| CrCrLfAt(p, i) && i + 3 < |p|;
    assert CrCrLfAt(p + c, i);
  }

  /** Refining a chunking, each read into any number of pieces, never newly trips the size limit. */
  lemma {:induction false} RefiningNeverTrips(decode: Decoder, groups: seq<seq<Bytes>>)
    requires !HasInnerCrCrLf(Flatten(Joined(groups)))
    requires ReadAll(decode, Joined(groups)).fault != LimitFault
    ensures ReadAll(decode, Flatten(groups)).fault != LimitFault
    decreases |groups|
  {
    if groups != [] {
      var init, last := groups[..|groups| - 1], groups[|groups| - 1];
      assert groups == init + [last];
      FlattenSnoc(init, last);
      FlattenSnoc(Joined(init), Flatten(last));
      if HasInnerCrCrLf(Flatten(Joined(init))) {
        InnerCrCrLfStays(Flatten(Joined(init)), Flatten(last));
      }
      ReadAllSnoc(decode, Joined(init), Flatten(last));
      RefiningNeverTrips(decode, init);
      JoinedIsFlat(init);
      ChunkInvariance(decode, Flatten(init), Joined(init));
      ReadAllThenOn(decode, Flatten(init), last);
      RefinedReadNeverTrips(decode, ReadAll(decode, Flatten(init)), ReadAll(decode, Joined(init)), last);
    }
  }

  lemma RefinedReadNeverTrips(decode: Decoder, one: ParserRun, other: ParserRun, pieces: seq<Bytes>)
    requires Agree(one, other) && one.fault != LimitFault && Read(decode, other, Flatten(pieces)).fault != LimitFault
    ensures ReadOn(decode, one, pieces).fault != LimitFault
  {
    if one == other {
      PiecesNeverTrip(decode, one, pieces);
    } else {
      FaultIsKept(decode, one, pieces);
    }
  }

  lemma {:induction false} FaultIsKept(decode: Decoder, run: ParserRun, chunks: seq<Bytes>)
    requires run.fault != NoFault
    ensures ReadOn(decode, run, chunks) == run
  {
    if chunks != [] {
      FaultIsKept(decode, run, chunks[1..]);
    }
  }

  // ---------------------------------------------------------------- the exclusion is exact

  function CountCr(b: Bytes): nat {
    if b == [] then 0 else (if b[0] == CR then 1 else 0) + CountCr(b[1..])
  }

  lemma {:induction false} CountCrConcat(a: Bytes, b: Bytes)
    ensures CountCr(a + b) == CountCr(a) + CountCr(b)
  {
    if a == [] {
      ConcatNothing(b);
    } else {
      assert (a + b)[1..] == a[1..] + b;
      CountCrConcat(a[1..], b);
    }
  }

  lemma {:induction false} NoCrCountsZero(b: Bytes)
    requires CR !in b
    ensures CountCr(b) == 0
  {
    if b != [] {
      NoCrCountsZero(b[1..]);
    }
  }

  /** Normalising a second time can only lose carriage returns, and loses one at every CR CR LF. */
  ghost predicate LosesCr(p: Bytes, c: Bytes) {
    var twice, once := CountCr(Normalise(Normalise(p) + c)), CountCr(Normalise(p + c));
    if HasCrCrLf(p) then twice < once else twice <= once
  }

  lemma {:induction false} SecondNormaliseLosesCr(p: Bytes, c: Bytes)
    ensures LosesCr(p, c)
    decreases |p|
  {
    if p == [] {
      ConcatNothing(c);
    } else if p[0] == CR && |p| >= 2 && p[1] == LF {
      assert p == [CR, LF] + p[2..];
      SecondNormaliseLosesCr(p[2..], c);
      LosesCrPair(p[2..], c);
    } else if CrCrLfAt(p, 0) {
      assert p == [CR] + ([CR, LF] + p[3..]);
      SecondNormaliseLosesCr(p[3..], c);
      LosesCrTriple(p[3..], c);
    } else {
      assert p == [p[0]] + p[1..];
      SecondNormaliseLosesCr(p[1..], c);
      LosesCrAfter(p[0], p[1..], c);
    }
  }

  lemma LosesCrPair(tail: Bytes, c: Bytes)
    requires LosesCr(tail, c)
    ensures LosesCr([CR, LF] + tail, c)
  {
    forall i | CrCrLfAt([CR, LF] + tail, i) ensures CrCrLfAt(tail, i - 2) {}
    NormalisePair(tail);
    NormalisePair(tail + c);
    NormaliseCons(LF, Normalise(tail) + c);
    ConcatAssociates([CR, LF], tail, c);
    ConcatAssociates([LF], Normalise(tail), c);
    CountCrConcat([LF], Normalise(Normalise(tail) + c));
    CountCrConcat([LF], Normalise(tail + c));
  }

  lemma LosesCrTriple(tail: Bytes, c: Bytes)
    requires LosesCr(tail, c)
    ensures LosesCr([CR] + ([CR, LF] + tail), c)
  {
    TripleOnce(tail, c);
    TripleTwice(tail, c);
    var twice, once := Normalise(Normalise(tail) + c), Normalise(tail + c);
    CountCrConcat([LF], twice);
    CountCrConcat([LF], once);
    CountCrConcat([CR], [LF] + once);
  }

  /** Normalised once, CR CR LF keeps its first CR. */
  lemma TripleOnce(tail: Bytes, c: Bytes)
    ensures Normalise([CR] + ([CR, LF] + tail) + c) == [CR] + ([LF] + Normalise(tail + c))
  {
    ConcatAssociates([CR], [CR, LF] + tail, c);
    ConcatAssociates([CR, LF], tail, c);
    NormalisePair(tail + c);
    NormaliseCons(CR, [CR, LF] + (tail + c));
  }

  /** Normalised twice, it keeps none. */
  lemma TripleTwice(tail: Bytes, c: Bytes)
    ensures Normalise(Normalise([CR] + ([CR, LF] + tail)) + c) == [LF] + Normalise(Normalise(tail) + c)
  {
    NormalisePair(tail);
    NormaliseCons(CR, [CR, LF] + tail);
    ConcatAssociates([CR], [LF] + Normalise(tail), c);
    ConcatAssociates([LF], Normalise(tail), c);
    PairSplits(Normalise(tail) + c);
    NormalisePair(Normalise(tail) + c);
  }

  lemma PairSplits(b: Bytes)
    ensures [CR] + ([LF] + b) == [CR, LF] + b
  {
  }

  lemma LosesCrAfter(head: Byte, tail: Bytes, c: Bytes)
    requires head == CR && tail != [] ==> tail[0] != LF
    requires !CrCrLfAt([head] + tail, 0)
    requires LosesCr(tail, c)
    ensures LosesCr([head] + tail, c)
  {
    var p, n := [head] + tail, Normalise(tail);
    forall i | CrCrLfAt(p, i) ensures CrCrLfAt(tail, i - 1) {}
    NormaliseCons(head, tail);
    ConcatAssociates([head], n, c);
    ConcatAssociates([head], tail, c);
    if tail != [] {
      assert head == CR ==> n[0] != LF by {
        assert tail[0] == CR && |tail| >= 2 ==> p[2] == tail[1];
      }
      NormaliseCons(head, n + c);
      NormaliseCons(head, tail + c);
      CountCrConcat([head], Normalise(n + c));
      CountCrConcat([head], Normalise(tail + c));
    }
  }

  /** Accepted frames hold no carriage return, so all of them stay pending. */
  lemma {:induction false} DrainKeepsCr(decode: Decoder, b: Bytes, done: bool)
    requires KeepsCarriageReturns(decode)
    ensures CountCr(Drain(decode, b, done).buffer) <= CountCr(b)
    ensures !Drain(decode, b, done).raised ==> CountCr(Drain(decode, b, done).buffer) == CountCr(b)
    decreases |b|
  {
    if FirstBlank(b).Some? {
      var at := FirstBlank(b).value;
      CountAroundBlank(b, at);
      if at == 0 {
        DrainKeepsCr(decode, b[2..], done);
        DrainEmptyFrame(decode, b, done);
      } else if FrameOf(decode, b[..at], done).Returned? {
        FrameCountsNoCr(decode, b[..at], done);
        DrainKeepsCr(decode, b[at + 2..], FrameOf(decode, b[..at], done).value.1);
      }
    }
  }

  lemma FrameCountsNoCr(decode: Decoder, raw: Bytes, done: bool)
    requires KeepsCarriageReturns(decode) && FrameOf(decode, raw, done).Returned?
    ensures CountCr(raw) == 0
  {
    AcceptedFrameHasNoCr(decode, raw, done);
    NoCrCountsZero(raw);
  }

  lemma CountAroundBlank(b: Bytes, at: nat)
    requires FirstBlank(b) == Some(at)
    ensures CountCr(b) == CountCr(b[..at]) + CountCr(b[at + 2..])
  {
    SplitAt(b, at);
    SplitAt(b[at..], 2);
    assert b[at..][..2] == [LF, LF];
    SliceOfSlice(b, at, 2);
    CountCrConcat(b[..at], b[at..]);
    CountCrConcat([LF, LF], b[at + 2..]);
    NoCrCountsZero([LF, LF]);
  }

  lemma DrainEmptyFrame(decode: Decoder, b: Bytes, done: bool)
    requires FirstBlank(b) == Some(0)
    ensures Drain(decode, b, done) == Drain(decode, b[2..], done)
  {
  }

  lemma SingleRead(decode: Decoder, c: Bytes)
    requires ReadAll(decode, [c]).fault != LimitFault
    ensures Agree(ReadAll(decode, [c]), Canonical(decode, c))
    ensures ReadAll(decode, [c]) == Read(decode, FRESH, c)
  {
    ReadAllSnoc(decode, [], c);
    ConcatNothing([c]);
    ConcatNothing(c);
    ConcatNothing(Canonical(decode, c).frames);
    assert Normalise([]) == [];
  }

  /** One sequence is the other with some carriage returns left out. */
  predicate Thinned(a: Bytes, b: Bytes)
    decreases |b|
  {
    if b == [] then a == []
    else (a != [] && a[0] == b[0] && Thinned(a[1..], b[1..])) || (b[0] == CR && Thinned(a, b[1..]))
  }

  lemma ThinnedMatch(head: Byte, a: Bytes, b: Bytes)
    requires Thinned(a, b)
    ensures Thinned([head] + a, [head] + b)
  {
    assert ([head] + a)[1..] == a && ([head] + b)[1..] == b;
  }

  lemma ThinnedDrop(a: Bytes, b: Bytes)
    requires Thinned(a, b)
    ensures Thinned(a, [CR] + b)
  {
    assert ([CR] + b)[1..] == b;
  }

  /** A first byte that is no carriage return is in both. */
  lemma ThinnedHead(a: Bytes, b: Bytes)
    requires Thinned(a, b) && b != [] && b[0] != CR
    ensures a != [] && a[0] == b[0] && Thinned(a[1..], b[1..])
  {
  }

  lemma {:induction false} ThinnedSelf(a: Bytes)
    ensures Thinned(a, a)
  {
    if a != [] {
      ThinnedSelf(a[1..]);
    }
  }

  lemma {:induction false} ThinnedThrough(a: Bytes, b: Bytes, c: Bytes)
    requires Thinned(a, b) && Thinned(b, c)
    ensures Thinned(a, c)
    decreases |b| + |c|
  {
    if c != [] {
      if b != [] && b[0] == c[0] && Thinned(b[1..], c[1..]) {
        if a != [] && a[0] == b[0] && Thinned(a[1..], b[1..]) {
          ThinnedThrough(a[1..], b[1..], c[1..]);
        } else {
          ThinnedThrough(a, b[1..], c[1..]);
        }
      } else {
        ThinnedThrough(a, b, c[1..]);
      }
    }
  }

  lemma {:induction false} ThinnedAppend(a: Bytes, b: Bytes, c: Bytes)
    requires Thinned(a, b)
    ensures Thinned(a + c, b + c)
    decreases |b|
  {
    if b == [] {
      ConcatNothing(c);
      ThinnedSelf(c);
    } else {
      assert (b + c)[1..] == b[1..] + c;
      if a != [] && a[0] == b[0] && Thinned(a[1..], b[1..]) {
        assert (a + c)[1..] == a[1..] + c;
        ThinnedAppend(a[1..], b[1..], c);
      } else {
        ThinnedAppend(a, b[1..], c);
      }
    }
  }

  lemma {:induction false} ThinnedCount(a: Bytes, b: Bytes)
    requires Thinned(a, b)
    ensures CountCr(a) <= CountCr(b)
    decreases |b|
  {
    if b != [] {
      if a != [] && a[0] == b[0] && Thinned(a[1..], b[1..]) {
        ThinnedCount(a[1..], b[1..]);
      } else {
        ThinnedCount(a, b[1..]);
      }
    }
  }

  lemma {:induction false} NormaliseThins(b: Bytes)
    ensures Thinned(Normalise(b), b)
    decreases |b|
  {
    if b != [] {
      if b[0] == CR && |b| >= 2 && b[1] == LF {
        NormaliseThins(b[2..]);
        ThinnedMatch(LF, Normalise(b[2..]), b[2..]);
        ThinnedDrop(Normalise(b), [LF] + b[2..]);
        assert b == [CR] + ([LF] + b[2..]);
      } else {
        NormaliseThins(b[1..]);
        ThinnedMatch(b[0], Normalise(b[1..]), b[1..]);
        assert b == [b[0]] + b[1..];
      }
    }
  }

  /** Normalising keeps one sequence a thinned form of the other. */
  lemma {:induction false} NormaliseKeepsThinned(a: Bytes, b: Bytes)
    requires Thinned(a, b)
    ensures Thinned(Normalise(a), Normalise(b))
    decreases |b|
  {
    if b != [] {
      if b[0] == CR && |b| >= 2 && b[1] == LF {
        PairKeepsThinned(a, b);
        var a' := if a[0] == CR then a[2..] else a[1..];
        NormaliseKeepsThinned(a', b[2..]);
        ThinnedMatch(LF, Normalise(a'), Normalise(b[2..]));
      } else if a != [] && a[0] == b[0] && Thinned(a[1..], b[1..]) {
        NormaliseKeepsThinned(a[1..], b[1..]);
        HeadKeepsThinned(b[0], a[1..], b[1..]);
        assert a == [b[0]] + a[1..] && b == [b[0]] + b[1..];
      } else {
        NormaliseKeepsThinned(a, b[1..]);
        ThinnedDrop(Normalise(a), Normalise(b[1..]));
      }
    }
  }

  /** Where one holds CR LF, the other holds it too, or LF alone. */
  lemma PairKeepsThinned(a: Bytes, b: Bytes)
    requires Thinned(a, b) && |b| >= 2 && b[0] == CR && b[1] == LF
    ensures a != [] && if a[0] == CR then |a| >= 2 && a[1] == LF && Thinned(a[2..], b[2..])
                       else a[0] == LF && Thinned(a[1..], b[2..])
    ensures Normalise(a) == [LF] + Normalise(if a[0] == CR then a[2..] else a[1..])
  {
    assert b[1..][1..] == b[2..];
    if a != [] && a[0] == CR && Thinned(a[1..], b[1..]) {
      ThinnedHead(a[1..], b[1..]);
      assert a[1..][1..] == a[2..];
    } else {
      ThinnedHead(a, b[1..]);
    }
  }

  lemma HeadKeepsThinned(head: Byte, a: Bytes, b: Bytes)
    requires Thinned(Normalise(a), Normalise(b))
    requires head == CR && b != [] ==> b[0] != LF
    ensures Thinned(Normalise([head] + a), Normalise([head] + b))
  {
    NormaliseCons(head, b);
    if head == CR && a != [] && a[0] == LF {
      PairKeepsNormalised(a);
      ThinnedDrop(Normalise(a), Normalise(b));
    } else {
      NormaliseCons(head, a);
      ThinnedMatch(head, Normalise(a), Normalise(b));
    }
  }

  /** A line ending normalises alike with or without the CR before it. */
  lemma PairKeepsNormalised(tail: Bytes)
    requires tail != [] && tail[0] == LF
    ensures Normalise([CR] + tail) == Normalise(tail)
  {
    assert [CR] + tail == [CR, LF] + tail[1..] && tail == [LF] + tail[1..];
    NormalisePair(tail[1..]);
    NormaliseCons(LF, tail[1..]);
  }

  /** What the bytes of a stream become when every read normalises all that came before it again. */
  function Renormalised(chunks: seq<Bytes>): Bytes {
    if chunks == [] then []
    else
      var before, last := Renormalised(chunks[..|chunks| - 1]), chunks[|chunks| - 1];
      if last == [] then before else Normalise(before + last)
  }

  lemma {:induction false} RenormalisedIsThinned(chunks: seq<Bytes>)
    ensures Thinned(Renormalised(chunks), Normalise(Flatten(chunks)))
    decreases |chunks|
  {
    if chunks != [] {
      var init, last := chunks[..|chunks| - 1], chunks[|chunks| - 1];
      var p := Flatten(init);
      assert chunks == init + [last];
      FlattenSnoc(init, last);
      RenormalisedIsThinned(init);
      ConcatNothing(p);
      NormaliseThins(p);
      ThinnedThrough(Renormalised(init), Normalise(p), p);
      ThinnedAppend(Renormalised(init), p, last);
      NormaliseKeepsThinned(Renormalised(init) + last, p + last);
    }
  }

  /** Behind a CR CR LF, reading in chunks leaves fewer carriage returns. */
  lemma RenormalisedLosesCr(init: seq<Bytes>, last: Bytes)
    requires HasCrCrLf(Flatten(init)) && last != []
    ensures CountCr(Renormalised(init + [last])) < CountCr(Normalise(Flatten(init + [last])))
  {
    var p := Flatten(init);
    assert (init + [last])[..|init|] == init;
    FlattenSnoc(init, last);
    RenormalisedIsThinned(init);
    ThinnedAppend(Renormalised(init), Normalise(p), last);
    NormaliseKeepsThinned(Renormalised(init) + last, Normalise(p) + last);
    ThinnedCount(Normalise(Renormalised(init) + last), Normalise(Normalise(p) + last));
    SecondNormaliseLosesCr(p, last);
  }

  /** What an accepted buffer consumed holds no carriage return. */
  lemma {:induction false} NoCrInHead(decode: Decoder, b: Bytes, done: bool)
    requires KeepsCarriageReturns(decode) && !Drain(decode, b, done).raised
    ensures CR !in Head(decode, b, done)
    decreases |b|
  {
    if FirstBlank(b).Some? {
      var front, rest, done' := HeadOnce(decode, b, done);
      NoCrInHead(decode, rest, done');
    }
  }

  /** The front of the consumed part, up to the first blank line. */
  lemma HeadOnce(decode: Decoder, b: Bytes, done: bool) returns (front: Bytes, rest: Bytes, done': bool)
    requires KeepsCarriageReturns(decode) && FirstBlank(b).Some? && !Drain(decode, b, done).raised
    ensures |rest| < |b| && CR !in front && !Drain(decode, rest, done').raised
    ensures Head(decode, b, done) == front + Head(decode, rest, done')
  {
    var at := FirstBlank(b).value;
    front, rest, done' := b[..at + 2], b[at + 2..], done;
    FrontEndsInBlank(b, at);
    if at > 0 {
      DrainFrame(decode, b, done, at);
      AcceptedFrameHasNoCr(decode, b[..at], done);
      done' := FrameOf(decode, b[..at], done).value.1;
    }
  }

  lemma AcceptedFrameHasNoCr(decode: Decoder, raw: Bytes, done: bool)
    requires KeepsCarriageReturns(decode) && FrameOf(decode, raw, done).Returned?
    ensures CR !in raw
  {
  }

  lemma FrontEndsInBlank(b: Bytes, at: nat)
    requires FirstBlank(b) == Some(at)
    ensures CR in b[..at + 2] ==> CR in b[..at]
  {
    assert b[..at + 2] == b[..at] + [LF, LF];
  }

  lemma {:induction false} CrFreeIsCrLfFree(b: Bytes)
    requires CR !in b
    ensures CrLfFree(b)
  {
  }

  /** Draining resumes: more bytes behind an accepted buffer only meet what it left pending. */
  lemma DrainResumes(decode: Decoder, b: Bytes, c: Bytes)
    requires KeepsCarriageReturns(decode) && !Drain(decode, b, false).raised
    ensures var d := Drain(decode, b, false);
            Drain(decode, Normalise(b + c), false) == Resumed(decode, d, Normalise(d.buffer + c))
  {
    var head, rest := Head(decode, b, false), Drain(decode, b, false).buffer;
    HeadThenBuffer(decode, b, false);
    ConcatAssociates(head, rest, c);
    NoCrInHead(decode, b, false);
    CrFreeIsCrLfFree(head);
    NormaliseSplits(head, rest + c);
    NormaliseFixes(head);
    DrainCut(decode, b, false, Normalise(rest + c));
  }

  lemma EmptyReadIsNothing(decode: Decoder, run: ParserRun)
    ensures Read(decode, run, []) == run
  {
    ConcatNothing(run.frames);
  }

  /** An accepted run of reads has drained exactly the bytes as its reads normalised them. */
  lemma {:induction false} AcceptedRunDrains(decode: Decoder, chunks: seq<Bytes>)
    requires KeepsCarriageReturns(decode) && ReadAll(decode, chunks).fault == NoFault
    ensures ReadAll(decode, chunks) == RunOf(Drain(decode, Renormalised(chunks), false))
    decreases |chunks|
  {
    if chunks == [] {
      DrainNothing(decode, false);
    } else {
      var init, last := chunks[..|chunks| - 1], chunks[|chunks| - 1];
      AcceptedRunDrains(decode, init);
      if last == [] {
        EmptyReadIsNothing(decode, ReadAll(decode, init));
      } else {
        ReadIsResumed(decode, Drain(decode, Renormalised(init), false), last);
        DrainResumes(decode, Renormalised(init), last);
      }
    }
  }

  /** Behind a CR CR LF, an accepted run leaves fewer carriage returns pending than the stream read whole. */
  lemma AcceptedRunLosesCr(decode: Decoder, init: seq<Bytes>, last: Bytes)
    requires KeepsCarriageReturns(decode) && last != [] && HasCrCrLf(Flatten(init))
    requires ReadAll(decode, init + [last]).fault == NoFault
             && Canonical(decode, Flatten(init + [last])).fault == NoFault
    ensures CountCr(ReadAll(decode, init + [last]).buffer) < CountCr(Canonical(decode, Flatten(init + [last])).buffer)
  {
    AcceptedRunDrains(decode, init + [last]);
    DrainKeepsCr(decode, Renormalised(init + [last]), false);
    DrainKeepsCr(decode, Normalise(Flatten(init + [last])), false);
    RenormalisedLosesCr(init, last);
  }

  /** While no CR CR LF lies wholly before the last read, the run is the run of the stream as a whole. */
  lemma ReadsAgree(decode: Decoder, init: seq<Bytes>, last: Bytes)
    requires last != [] && !HasCrCrLf(Flatten(init)) && ReadAll(decode, init + [last]).fault != LimitFault
    ensures Agree(ReadAll(decode, init + [last]), Canonical(decode, Flatten(init + [last])))
  {
    ReadAllSnoc(decode, init, last);
    FlattenSnoc(init, last);
    ChunkingIsInvisible(decode, init);
    ReadExtends(decode, Flatten(init), ReadAll(decode, init), last);
  }

  /** The main result, exactly, for every stream, accepted or refused, and every number of reads: a run
      agrees with the stream as a whole if and only if no CR CR LF lies wholly before its last read, or
      both are refused. */
  lemma ReadsAgreeExactly(decode: Decoder, init: seq<Bytes>, last: Bytes)
    requires KeepsCarriageReturns(decode) && last != []
    requires ReadAll(decode, init + [last]).fault != LimitFault
    ensures var run, whole := ReadAll(decode, init + [last]), Canonical(decode, Flatten(init + [last]));
            Agree(run, whole)
            <==> !HasCrCrLf(Flatten(init)) || (run.fault == ProtocolFault && whole.fault == ProtocolFault)
  {
    if !HasCrCrLf(Flatten(init)) {
      ReadsAgree(decode, init, last);
    } else if ReadAll(decode, init + [last]).fault == NoFault
      && Canonical(decode, Flatten(init + [last])).fault == NoFault {
      AcceptedRunLosesCr(decode, init, last);
    }
  }

  /** A stream read whole without a fault is read differently when cut right behind a CR CR LF. */
  lemma CutBehindCrCrLf(decode: Decoder, p: Bytes, c: Bytes)
    requires KeepsCarriageReturns(decode)
    requires ReadAll(decode, [p + c]).fault == NoFault
    requires HasCrCrLf(p) && c != []
    ensures ReadAll(decode, [p] + [c]).fault != LimitFault
            && !Agree(ReadAll(decode, [p] + [c]), ReadAll(decode, [p + c]))
  {
    CutInTwo(decode, p, c);
    SingleRead(decode, p + c);
    ReadsAgreeExactly(decode, [p], c);
  }

  /** For a stream that is accepted whole: every chunking within the limit agrees with it if and only if
      it has no CR CR LF before its last byte. */
  lemma ChunkingInvisibleExactly(decode: Decoder, stream: Bytes)
    requires KeepsCarriageReturns(decode)
    requires ReadAll(decode, [stream]).fault == NoFault
    ensures (forall chunks :: Flatten(chunks) == stream && ReadAll(decode, chunks).fault != LimitFault
                              ==> Agree(ReadAll(decode, chunks), ReadAll(decode, [stream])))
            <==> !HasInnerCrCrLf(stream)
  {
    FlattenFew(stream, []);
    SingleRead(decode, stream);
    if HasInnerCrCrLf(stream) {
      var i :| CrCrLfAt(stream, i) && i + 3 < |stream|;
      var p, c := stream[..i + 3], stream[i + 3..];
      SplitAt(stream, i + 3);
      assert CrCrLfAt(p, i);
      CutBehindCrCrLf(decode, p, c);
      CutInTwo(decode, p, c);
    } else {
      forall chunks | Flatten(chunks) == stream && ReadAll(decode, chunks).fault != LimitFault
        ensures Agree(ReadAll(decode, chunks), ReadAll(decode, [stream]))
      {
        ChunkInvariance(decode, chunks, [stream]);
      }
    }
  }

  lemma CutInTwo(decode: Decoder, p: Bytes, c: Bytes)
    requires ReadAll(decode, [p + c]).fault != LimitFault
    ensures ReadAll(decode, [p] + [c]).fault != LimitFault
    ensures Flatten([p] + [c]) == p + c && Flatten([p]) == p
  {
    OneReadOrTwo(decode, [], p, c);
    ConcatNothing([p + c]);
    ConcatNothing([p]);
    FlattenFew(p, c);
    FlattenSnoc([p], c);
  }

  // ---------------------------------------------------------------- pending bytes by regular expression

  /** The length of a line ending (`\r\n|\n`) at the front, or 0. */
  function NewlineLength(b: Bytes): (n: nat)
    ensures n <= |b|
  {
    if |b| >= 2 && b[0] == CR && b[1] == LF then 2 else if |b| >= 1 && b[0] == LF then 1 else 0
  }

  /** The length of two line endings in a row at the front, or 0. */
  function BlankLineLength(b: Bytes): (n: nat)
    ensures n <= |b|
  {
    var first := NewlineLength(b);
    var second := NewlineLength(b[first..]);
    if first == 0 || second == 0 then 0 else first + second
  }

  /** Where the leftmost match of the blank-line expression ends. */
  function FirstMatchEnd(b: Bytes): (end: Option<nat>)
    ensures end.Some? ==> 2 <= end.value <= |b|
  {
    if b == [] then None
    else if BlankLineLength(b) > 0 then Some(BlankLineLength(b))
    else
      match FirstMatchEnd(b[1..])
      case None => None
      case Some(end) => Some(end + 1)
  }

  /** What stands behind the last of the non-overlapping matches, taken left to right. */
  function PendingOf(b: Bytes): (pending: Bytes)
    decreases |b|
  {
    match FirstMatchEnd(b)
    case None => b
    case Some(end) => PendingOf(b[end..])
  }

  /** The outcome of a scan that stands at `at` and last matched up to `boundaryEnd`. */
  function ScanOutcome(raw: Bytes, at: nat, boundaryEnd: nat): Bytes
    requires boundaryEnd <= at <= |raw|
  {
    match FirstMatchEnd(raw[at..])
    case None => raw[boundaryEnd..]
    case Some(end) => PendingOf(raw[at + end..])
  }

  lemma PendingStep(b: Bytes)
    ensures FirstMatchEnd(b).None? ==> PendingOf(b) == b
    ensures FirstMatchEnd(b).Some? ==> PendingOf(b) == PendingOf(b[FirstMatchEnd(b).value..])
  {
  }

  lemma ScanFromMatch(raw: Bytes, at: nat)
    requires at <= |raw|
    ensures ScanOutcome(raw, at, at) == PendingOf(raw[at..])
  {
    PendingStep(raw[at..]);
    if FirstMatchEnd(raw[at..]).Some? {
      SliceOfSlice(raw, at, FirstMatchEnd(raw[at..]).value);
    }
  }

  lemma ScanMiss(raw: Bytes, at: nat, boundaryEnd: nat)
    requires boundaryEnd <= at < |raw| && BlankLineLength(raw[at..]) == 0
    ensures ScanOutcome(raw, at, boundaryEnd) == ScanOutcome(raw, at + 1, boundaryEnd)
  {
    assert raw[at..][1..] == raw[at + 1..];
    var end := FirstMatchEnd(raw[at + 1..]);
    assert end.Some? ==> FirstMatchEnd(raw[at..]) == Some(end.value + 1);
  }

  lemma ScanMatch(raw: Bytes, at: nat, boundaryEnd: nat)
    requires boundaryEnd <= at < |raw| && BlankLineLength(raw[at..]) > 0
    ensures ScanOutcome(raw, at, boundaryEnd) == PendingOf(raw[at + BlankLineLength(raw[at..])..])
  {
  }

  lemma ScanStep(raw: Bytes, at: nat, boundaryEnd: nat)
    requires boundaryEnd <= at < |raw|
    ensures var matched := BlankLineLength(raw[at..]);
            && at + matched <= |raw|
            && ScanOutcome(raw, at, boundaryEnd)
               == if matched > 0 then ScanOutcome(raw, at + matched, at + matched)
                 else ScanOutcome(raw, at + 1, boundaryEnd)
  {
    var matched := BlankLineLength(raw[at..]);
    if matched > 0 {
      ScanMatch(raw, at, boundaryEnd);
      ScanFromMatch(raw, at + matched);
    } else {
      ScanMiss(raw, at, boundaryEnd);
    }
  }

  lemma ScanEnd(raw: Bytes, boundaryEnd: nat)
    requires boundaryEnd <= |raw|
    ensures ScanOutcome(raw, |raw|, boundaryEnd) == raw[boundaryEnd..]
  {
    assert raw[|raw|..] == [];
  }

  /** The scan moves behind a match, or by one byte. */
  method ScanOn(raw: Bytes, at: nat, boundaryEnd: nat) returns (at': nat, boundaryEnd': nat)
    requires boundaryEnd <= at < |raw|
    ensures at < at' <= |raw| && boundaryEnd' <= at'
    ensures ScanOutcome(raw, at', boundaryEnd') == ScanOutcome(raw, at, boundaryEnd)
  {
    var matched := BlankLineLength(raw[at..]);
    ScanStep(raw, at, boundaryEnd);
    if matched > 0 {
      at', boundaryEnd' := at + matched, at + matched;
    } else {
      at', boundaryEnd' := at + 1, boundaryEnd;
    }
  }

  /** `_pending_sse_bytes`: one scan over the matches. */
  method PendingSseBytes(raw: Bytes) returns (pending: Bytes)
    ensures pending == PendingOf(raw)
  {
    var boundaryEnd: nat, at: nat := 0, 0;
    ghost var whole := PendingOf(raw);
    assert raw[0..] == raw;
    ScanFromMatch(raw, 0);
    while at < |raw|
      invariant boundaryEnd <= at <= |raw|
      invariant whole == ScanOutcome(raw, at, boundaryEnd)
    {
      at, boundaryEnd := ScanOn(raw, at, boundaryEnd);
    }
    ScanEnd(raw, boundaryEnd);
    return raw[boundaryEnd..];
  }

  /** What is left of a buffer once every `b"\n\n"` has been split off. */
  function SplitRest(b: Bytes): Bytes
    decreases |b|
  {
    match FirstBlank(b)
    case None => b
    case Some(at) => SplitRest(b[at + 2..])
  }

  /** Draining leaves nothing but what splitting leaves. */
  predicate LeavesSplitRest(d: Drained, b: Bytes) {
    !d.raised ==> d.buffer == SplitRest(b)
  }

  lemma {:induction false} DrainLeavesRest(decode: Decoder, b: Bytes, done: bool)
    ensures LeavesSplitRest(Drain(decode, b, done), b)
    decreases |b|, 1
  {
    if FirstBlank(b).None? {
      NothingToDrain(decode, b, done);
    } else if FirstBlank(b).value == 0 {
      DrainLeavesRest(decode, b[2..], done);
      DrainEmptyFrame(decode, b, done);
      LeavesRestBehindEmpty(Drain(decode, b[2..], done), b, b[2..]);
    } else {
      FrameLeavesRest(decode, b, done, FirstBlank(b).value);
    }
  }

  lemma LeavesRestBehindEmpty(d: Drained, b: Bytes, rest: Bytes)
    requires FirstBlank(b) == Some(0) && rest == b[2..] && LeavesSplitRest(d, rest)
    ensures LeavesSplitRest(d, b)
  {
    assert b[0 + 2..] == rest;
    LeavesRestOf(d, b, 0);
  }

  lemma {:induction false} FrameLeavesRest(decode: Decoder, b: Bytes, done: bool, at: nat)
    requires FirstBlank(b) == Some(at) && at > 0
    ensures LeavesSplitRest(Drain(decode, b, done), b)
    decreases |b|, 0
  {
    if !Drain(decode, b, done).raised {
      DrainFrame(decode, b, done, at);
      var done' := FrameOf(decode, b[..at], done).value.1;
      DrainLeavesRest(decode, b[at + 2..], done');
      LeavesRestOf(Drain(decode, b[at + 2..], done'), b, at);
    }
  }

  lemma LeavesRestOf(d: Drained, b: Bytes, at: nat)
    requires FirstBlank(b) == Some(at) && LeavesSplitRest(d, b[at + 2..])
    ensures LeavesSplitRest(d, b)
  {
    SplitRestStep(b);
  }

  lemma NothingToDrain(decode: Decoder, b: Bytes, done: bool)
    requires FirstBlank(b).None?
    ensures LeavesSplitRest(Drain(decode, b, done), b)
  {
    SplitRestStep(b);
  }

  lemma DrainLeavesSplitRest(decode: Decoder, b: Bytes, done: bool)
    requires !Drain(decode, b, done).raised
    ensures Drain(decode, b, done).buffer == SplitRest(b)
  {
    DrainLeavesRest(decode, b, done);
  }

  lemma DrainFrame(decode: Decoder, b: Bytes, done: bool, at: nat)
    requires FirstBlank(b) == Some(at) && at > 0 && !Drain(decode, b, done).raised
    ensures FrameOf(decode, b[..at], done).Returned?
    ensures var parsed := FrameOf(decode, b[..at], done).value;
            Drain(decode, b, done) == Drain(decode, b[at + 2..], parsed.1).After([parsed.0])
  {
  }

  /** A blank line of the raw bytes is the first blank line of the normalised bytes. */
  ghost predicate SameFirstBlank(raw: Bytes) {
    var n := Normalise(raw);
    match FirstMatchEnd(raw)
    case None => FirstBlank(n).None?
    case Some(end) => FirstBlank(n).Some? && Normalise(raw[end..]) == n[FirstBlank(n).value + 2..]
  }

  lemma {:induction false} FirstMatchIsFirstBlank(raw: Bytes)
    ensures SameFirstBlank(raw)
  {
    if raw == [] {
    } else if BlankLineLength(raw) > 0 {
      BlankLineNormalises(raw);
      assert Normalise(raw)[2..] == Normalise(raw[BlankLineLength(raw)..]);
    } else {
      assert raw == [raw[0]] + raw[1..];
      FirstMatchIsFirstBlank(raw[1..]);
      SameFirstBlankBehind(raw[0], raw[1..]);
    }
  }

  lemma SameFirstBlankBehind(head: Byte, tail: Bytes)
    requires BlankLineLength([head] + tail) == 0 && SameFirstBlank(tail)
    ensures SameFirstBlank([head] + tail)
  {
    MatchBehind(head, tail);
    if head == CR && tail != [] && tail[0] == LF {
      PairKeepsNormalised(tail);
    } else {
      SameFirstBlankBehindOne(head, tail);
    }
  }

  lemma SameFirstBlankBehindOne(head: Byte, tail: Bytes)
    requires BlankLineLength([head] + tail) == 0 && SameFirstBlank(tail)
    requires head != CR || tail == [] || tail[0] != LF
    ensures SameFirstBlank([head] + tail)
  {
    MatchBehind(head, tail);
    NormaliseCons(head, tail);
    NoSecondLf(head, tail);
    BlankBehind(head, Normalise(tail));
    SameFirstBlankAdded([head] + tail, tail, head, Normalise(tail));
  }

  /** One byte in front moves the match and the blank line by one. */
  lemma SameFirstBlankAdded(raw: Bytes, tail: Bytes, head: Byte, n: Bytes)
    requires Normalise(raw) == [head] + n && n == Normalise(tail) && SameFirstBlank(tail)
    requires FirstMatchEnd(raw).Some? <==> FirstMatchEnd(tail).Some?
    requires FirstMatchEnd(tail).Some? ==> FirstMatchEnd(raw).value == FirstMatchEnd(tail).value + 1
                                           && raw[FirstMatchEnd(raw).value..] == tail[FirstMatchEnd(tail).value..]
    requires FirstBlank([head] + n).None? <==> FirstBlank(n).None?
    requires FirstBlank(n).Some? ==> FirstBlank([head] + n) == Some(FirstBlank(n).value + 1)
    ensures SameFirstBlank(raw)
  {
    if FirstMatchEnd(tail).Some? {
      RestBehind(head, n, FirstBlank(n).value + 2);
    }
  }

  lemma RestBehind(head: Byte, n: Bytes, k: nat)
    requires k <= |n|
    ensures ([head] + n)[k + 1..] == n[k..]
  {
  }

  lemma MatchBehind(head: Byte, tail: Bytes)
    requires BlankLineLength([head] + tail) == 0
    ensures FirstMatchEnd([head] + tail).Some? <==> FirstMatchEnd(tail).Some?
    ensures FirstMatchEnd(tail).Some?
            ==> FirstMatchEnd([head] + tail).value == FirstMatchEnd(tail).value + 1
                && ([head] + tail)[FirstMatchEnd(tail).value + 1..] == tail[FirstMatchEnd(tail).value..]
  {
    assert ([head] + tail)[1..] == tail;
  }

  lemma NoSecondLf(head: Byte, tail: Bytes)
    requires BlankLineLength([head] + tail) == 0
    ensures head == LF && Normalise(tail) != [] ==> Normalise(tail)[0] != LF
  {
    assert ([head] + tail)[1..] == tail;
    assert tail != [] && tail[0] != LF && !(tail[0] == CR && |tail| >= 2 && tail[1] == LF)
           ==> Normalise(tail)[0] == tail[0];
  }

  lemma BlankBehind(head: Byte, n: Bytes)
    requires head == LF && n != [] ==> n[0] != LF
    ensures FirstBlank([head] + n).None? <==> FirstBlank(n).None?
    ensures FirstBlank(n).Some? ==> FirstBlank([head] + n) == Some(FirstBlank(n).value + 1)
  {
    assert ([head] + n)[1..] == n;
  }

  lemma BlankLineNormalises(raw: Bytes)
    requires BlankLineLength(raw) > 0
    ensures Normalise(raw) == [LF, LF] + Normalise(raw[BlankLineLength(raw)..])
    ensures FirstBlank(Normalise(raw)) == Some(0)
  {
    var first := NewlineLength(raw);
    var second := NewlineLength(raw[first..]);
    assert Normalise(raw) == [LF] + Normalise(raw[first..]);
    assert Normalise(raw[first..]) == [LF] + Normalise(raw[first..][second..]);
    assert raw[first..][second..] == raw[first + second..];
  }

  /** The expression over raw bytes and the splitting of normalised bytes leave the same rest. */
  lemma {:induction false} PendingIsSplitRest(raw: Bytes)
    ensures Normalise(PendingOf(raw)) == SplitRest(Normalise(raw))
    decreases |raw|
  {
    FirstMatchIsFirstBlank(raw);
    PendingStep(raw);
    SplitRestStep(Normalise(raw));
    if FirstMatchEnd(raw).Some? {
      PendingIsSplitRest(raw[FirstMatchEnd(raw).value..]);
    }
  }

  lemma SplitRestStep(b: Bytes)
    ensures FirstBlank(b).None? ==> SplitRest(b) == b
    ensures FirstBlank(b).Some? ==> SplitRest(b) == SplitRest(b[FirstBlank(b).value + 2..])
  {
  }

  /** The parser's buffer is the normalised pending part of the raw bytes it was fed, while no CR CR LF
      lies wholly before the last read. */
  lemma PendingMatchesBehind(decode: Decoder, init: seq<Bytes>, last: Bytes)
    requires last != [] && !HasCrCrLf(Flatten(init)) && ReadAll(decode, init + [last]).fault == NoFault
    ensures ReadAll(decode, init + [last]).buffer == Normalise(PendingOf(Flatten(init + [last])))
  {
    ReadsAgree(decode, init, last);
    DrainLeavesSplitRest(decode, Normalise(Flatten(init + [last])), false);
    PendingIsSplitRest(Flatten(init + [last]));
  }

  /** In particular for every accepted run with no CR CR LF before the last byte of the stream. */
  lemma PendingMatchesParser(decode: Decoder, chunks: seq<Bytes>)
    requires !HasInnerCrCrLf(Flatten(chunks)) && ReadAll(decode, chunks).fault == NoFault
    ensures ReadAll(decode, chunks).buffer == Normalise(PendingOf(Flatten(chunks)))
  {
    ChunkingIsInvisible(decode, chunks);
    DrainLeavesSplitRest(decode, Normalise(Flatten(chunks)), false);
    PendingIsSplitRest(Flatten(chunks));
  }

  /** The pending part, exactly, where run and stream are both accepted: the parser's buffer is what the
      expression predicts if and only if no CR CR LF lies wholly before the last read. Of streams refused
      when read whole only the one way of `PendingMatchesBehind` holds, see `PendingDisagreesOnRefused`
      and `PendingAgreesOnRefused`. */
  lemma PendingMatchesExactly(decode: Decoder, init: seq<Bytes>, last: Bytes)
    requires KeepsCarriageReturns(decode) && last != []
    requires ReadAll(decode, init + [last]).fault == NoFault
             && Canonical(decode, Flatten(init + [last])).fault == NoFault
    ensures ReadAll(decode, init + [last]).buffer == Normalise(PendingOf(Flatten(init + [last])))
            <==> !HasCrCrLf(Flatten(init))
  {
    if HasCrCrLf(Flatten(init)) {
      DrainLeavesSplitRest(decode, Normalise(Flatten(init + [last])), false);
      PendingIsSplitRest(Flatten(init + [last]));
      AcceptedRunLosesCr(decode, init, last);
    } else {
      PendingMatchesBehind(decode, init, last);
    }
  }

  // ---------------------------------------------------------------- what the exclusion is for

  const COLON: Byte := 58

  lemma NormaliseExamples()
    ensures Normalise([COLON, CR, CR, LF]) == [COLON, CR, LF]
    ensures Normalise([COLON, CR, LF, LF]) == [COLON, LF, LF]
    ensures Normalise([COLON, CR, CR, LF, LF]) == [COLON, CR, LF, LF]
    ensures Normalise([CR, CR, LF]) == [CR, LF]
    ensures Normalise([CR, LF, COLON]) == [LF, COLON]
    ensures Normalise([CR, CR, LF, COLON]) == [CR, LF, COLON]
  {
    var none: Bytes := [];
    NormalisePair(none);
    NormalisePair([LF]);
    NormalisePair([COLON]);
    NormaliseCons(LF, none);
    NormaliseCons(COLON, none);
    assert [CR, LF] + none == [CR, LF] && [LF] + none == [LF] && [COLON] + none == [COLON];
    assert [CR, LF] + [LF] == [CR, LF, LF] && [CR, LF] + [COLON] == [CR, LF, COLON];
    NormaliseCons(CR, [CR, LF]);
    NormaliseCons(CR, [CR, LF, LF]);
    NormaliseCons(CR, [CR, LF, COLON]);
    NormaliseCons(COLON, [CR, CR, LF]);
    NormaliseCons(COLON, [CR, LF, LF]);
    NormaliseCons(COLON, [CR, CR, LF, LF]);
  }

  lemma DrainOneFrame(decode: Decoder, raw: Bytes, done: bool)
    requires raw != [] && FirstBlank(raw + [LF, LF]) == Some(|raw|)
    ensures var parsed := FrameOf(decode, raw, done);
            Drain(decode, raw + [LF, LF], done)
            == if parsed.Raised? then Drained([], [], done, true)
              else Drained([parsed.value.0], [], parsed.value.1, false)
  {
    FrontOfFrame(raw);
    ConcatNothing(raw + [LF, LF]);
    DrainStep(decode, raw + [LF, LF], done, |raw|, []);
    var parsed := FrameOf(decode, raw, done);
    if parsed.Returned? {
      DrainNothing(decode, parsed.value.1);
      ConcatNothing([parsed.value.0]);
    }
  }

  lemma FrontOfFrame(raw: Bytes)
    ensures (raw + [LF, LF])[..|raw|] == raw && (raw + [LF, LF])[..|raw| + 2] == raw + [LF, LF]
  {
  }

  lemma DrainNothing(decode: Decoder, done: bool)
    ensures Drain(decode, [], done) == Drained([], [], done, false)
  {
  }

  /** A read that completes exactly one frame. */
  lemma ReadOneFrame(decode: Decoder, run: ParserRun, chunk: Bytes, raw: Bytes)
    requires run.fault == NoFault && chunk != [] && |run.buffer + chunk| <= MAX_SSE_BUFFER_BYTES
    requires raw != [] && Normalise(run.buffer + chunk) == raw + [LF, LF]
    requires FirstBlank(raw + [LF, LF]) == Some(|raw|)
    ensures var parsed := FrameOf(decode, raw, run.done);
            Read(decode, run, chunk)
            == if parsed.Raised? then ParserRun(run.frames, [], run.done, ProtocolFault)
               else ParserRun(run.frames + [parsed.value.0], [], parsed.value.1, NoFault)
  {
    DrainOneFrame(decode, raw, run.done);
  }

  /** A comment with CR CR LF LF behind it is refused whole and accepted when cut before the last LF. */
  lemma RefusedWholeAcceptedCut(decode: Decoder)
    requires KeepsCarriageReturns(decode) && decode([COLON]) == Some(":")
    ensures Read(decode, FRESH, [COLON, CR, CR, LF, LF]).fault == ProtocolFault
    ensures Read(decode, Read(decode, FRESH, [COLON, CR, CR, LF]), [LF])
            == ParserRun([SSEFrame(Comment, None, [""])], [], false, NoFault)
  {
    RefusedWhole(decode);
    HalfRead(decode);
    AcceptedCut(decode);
  }

  lemma RefusedWhole(decode: Decoder)
    requires KeepsCarriageReturns(decode)
    ensures Read(decode, FRESH, [COLON, CR, CR, LF, LF]).fault == ProtocolFault
  {
    RefusedBytes();
    ConcatNothing([COLON, CR, CR, LF, LF]);
    ReadOneFrame(decode, FRESH, [COLON, CR, CR, LF, LF], [COLON, CR]);
  }

  lemma RefusedBytes()
    ensures Normalise([COLON, CR, CR, LF, LF]) == [COLON, CR] + [LF, LF]
    ensures FirstBlank([COLON, CR] + [LF, LF]) == Some(2)
  {
    NormaliseExamples();
    BlankBehind(CR, [LF, LF]);
    BlankBehind(COLON, [CR] + [LF, LF]);
    ConcatAssociates([COLON], [CR], [LF, LF]);
  }

  lemma AcceptedCut(decode: Decoder)
    requires decode([COLON]) == Some(":")
    ensures Read(decode, ParserRun([], [COLON, CR, LF], false, NoFault), [LF])
            == ParserRun([SSEFrame(Comment, None, [""])], [], false, NoFault)
  {
    AcceptedBytes();
    CommentFrame(decode);
    ReadOneFrame(decode, ParserRun([], [COLON, CR, LF], false, NoFault), [LF], [COLON]);
    ConcatNothing([SSEFrame(Comment, None, [""])]);
  }

  lemma AcceptedBytes()
    ensures Normalise([COLON, CR, LF] + [LF]) == [COLON] + [LF, LF]
    ensures FirstBlank([COLON] + [LF, LF]) == Some(1)
  {
    NormaliseExamples();
    assert [COLON, CR, LF] + [LF] == [COLON, CR, LF, LF];
    BlankBehind(COLON, [LF, LF]);
  }

  lemma HalfRead(decode: Decoder)
    ensures Read(decode, FRESH, [COLON, CR, CR, LF]) == ParserRun([], [COLON, CR, LF], false, NoFault)
  {
    NormaliseExamples();
    ConcatNothing([COLON, CR, CR, LF]);
    assert [COLON, CR, LF][1..] == [CR, LF] && [CR, LF][1..] == [LF];
  }

  lemma CommentFrame(decode: Decoder)
    requires decode([COLON]) == Some(":")
    ensures FrameOf(decode, [COLON], false) == Returned((SSEFrame(Comment, None, [""]), false))
  {
    assert ":"[1..] == "" && [':'] + "" == ":" && SplitLines("") == [""];
    assert SplitLines(":") == [":"];
    assert [":"][..0] == [] && ReadLine(":") == CommentLine("");
    assert CommentsOf([]) == [] && DataOf([]) == [];
    assert [] + [""] == [""];
  }

  /** With a CR CR LF inside, an accepted run can leave a buffer the expression does not predict. */
  lemma PendingDisagreesOnCrCrLf(decode: Decoder)
    ensures var second := Read(decode, Read(decode, FRESH, [CR, CR, LF]), [COLON]);
            second.fault == NoFault && second.buffer == [LF, COLON]
    ensures Normalise(PendingOf([CR, CR, LF] + [COLON])) == [CR, LF, COLON]
  {
    DisagreeingReads(decode);
    NormaliseExamples();
    NoMatchInExample();
    assert [CR, CR, LF] + [COLON] == [CR, CR, LF, COLON];
  }

  lemma DisagreeingReads(decode: Decoder)
    ensures var second := Read(decode, Read(decode, FRESH, [CR, CR, LF]), [COLON]);
            second.fault == NoFault && second.buffer == [LF, COLON]
  {
    FirstDisagreeing(decode);
    SecondDisagreeing(decode);
  }

  lemma FirstDisagreeing(decode: Decoder)
    ensures Read(decode, FRESH, [CR, CR, LF]) == ParserRun([], [CR, LF], false, NoFault)
  {
    NormaliseExamples();
    assert [] + [CR, CR, LF] == [CR, CR, LF];
    ShortRest(decode, [CR, LF]);
  }

  lemma SecondDisagreeing(decode: Decoder)
    ensures Read(decode, ParserRun([], [CR, LF], false, NoFault), [COLON])
            == ParserRun([], [LF, COLON], false, NoFault)
  {
    NormaliseExamples();
    assert [CR, LF] + [COLON] == [CR, LF, COLON];
    ShortRest(decode, [LF, COLON]);
  }

  // ---------------------------------------------------------------- a stream refused when read whole

  const X: Byte := 120
  const FIRST_READ: Bytes := [COLON, CR, CR, LF]
  const SECOND_READ: Bytes := [LF, CR, CR, LF]

  /** Where the stream is refused when read whole, buffer and expression can differ behind an accepted
      run: the three reads here leave LF and a letter, the expression predicts CR LF and the letter. */
  lemma PendingDisagreesOnRefused(decode: Decoder)
    requires KeepsCarriageReturns(decode) && decode([COLON]) == Some(":")
    ensures var third := Read(decode, Read(decode, Read(decode, FRESH, FIRST_READ), SECOND_READ), [X]);
            third.fault == NoFault && third.buffer == [LF, X]
    ensures Canonical(decode, FIRST_READ + SECOND_READ + [X]).fault == ProtocolFault
    ensures Normalise(PendingOf(FIRST_READ + SECOND_READ + [X])) == [CR, LF, X]
  {
    HalfRead(decode);
    SecondReadLeaves(decode);
    ThirdReadLeaves(decode);
    RefusedNormalised();
    RefusedWithRest(decode);
    PendingIsSplitRest(FIRST_READ + SECOND_READ + [X]);
    RefusedSplitRest();
  }

  lemma SecondNormalised()
    ensures Normalise([COLON, CR, LF] + SECOND_READ) == [COLON, LF, LF] + [CR, LF]
  {
    SecondAlone();
    BehindPair(COLON, SECOND_READ);
    assert [COLON] + ([LF] + ([LF] + [CR, LF])) == [COLON, LF, LF] + [CR, LF];
  }

  lemma BehindPair(head: Byte, rest: Bytes)
    requires head != CR
    ensures Normalise([head, CR, LF] + rest) == [head] + ([LF] + Normalise(rest))
  {
    NormalisePair(rest);
    NormaliseCons(head, [CR, LF] + rest);
    assert [head, CR, LF] + rest == [head] + ([CR, LF] + rest);
  }

  lemma SecondAlone()
    ensures Normalise(SECOND_READ) == [LF] + [CR, LF]
  {
    var none: Bytes := [];
    NormalisePair(none);
    ConcatNothing([CR, LF]);
    ConcatNothing([LF]);
    NormaliseCons(CR, [CR, LF]);
    NormaliseCons(LF, [CR, CR, LF]);
    assert [LF] + [CR, CR, LF] == SECOND_READ && [CR] + [CR, LF] == [CR, CR, LF] && [CR] + [LF] == [CR, LF];
  }

  lemma SecondReadLeaves(decode: Decoder)
    requires decode([COLON]) == Some(":")
    ensures Read(decode, ParserRun([], [COLON, CR, LF], false, NoFault), SECOND_READ)
            == ParserRun([SSEFrame(Comment, None, [""])], [CR, LF], false, NoFault)
  {
    SecondNormalised();
    SecondDrains(decode);
    ConcatNothing([SSEFrame(Comment, None, [""])]);
  }

  lemma SecondDrains(decode: Decoder)
    requires decode([COLON]) == Some(":")
    ensures Drain(decode, [COLON, LF, LF] + [CR, LF], false)
            == Drained([SSEFrame(Comment, None, [""])], [CR, LF], false, false)
  {
    var n := [COLON, LF, LF];
    AcceptedBytes();
    CommentFrame(decode);
    assert n == [COLON] + [LF, LF];
    DrainStep(decode, n, false, 1, [CR, LF]);
    assert n[..1] == [COLON] && n[..3] == n;
    ShortRest(decode, [CR, LF]);
    ConcatNothing([SSEFrame(Comment, None, [""])]);
  }

  lemma ShortRest(decode: Decoder, b: Bytes)
    requires |b| == 2 && !(b[0] == LF && b[1] == LF)
    ensures FirstBlank(b).None? && Drain(decode, b, false) == Drained([], b, false, false)
  {
    assert |b[1..]| == 1;
  }

  lemma ThirdReadLeaves(decode: Decoder)
    ensures Read(decode, ParserRun([SSEFrame(Comment, None, [""])], [CR, LF], false, NoFault), [X])
            == ParserRun([SSEFrame(Comment, None, [""])], [LF, X], false, NoFault)
  {
    NormalisePair([X]);
    ConcatNothing([X]);
    NormaliseFixes([X]);
    assert [CR, LF] + [X] == [CR, LF, X] && [LF] + [X] == [LF, X];
    ShortRest(decode, [LF, X]);
    ConcatNothing([SSEFrame(Comment, None, [""])]);
  }

  lemma RefusedNormalised()
    ensures Normalise(FIRST_READ + SECOND_READ + [X]) == [COLON, CR] + [LF, LF] + [CR, LF, X]
  {
    RestNormalised();
    FirstNormalised([LF, CR, CR, LF, X]);
    assert FIRST_READ + SECOND_READ + [X] == FIRST_READ + [LF, CR, CR, LF, X];
    assert [COLON, CR, LF] + [LF, CR, LF, X] == [COLON, CR] + [LF, LF] + [CR, LF, X];
  }

  lemma FirstNormalised(rest: Bytes)
    ensures Normalise(FIRST_READ + rest) == [COLON, CR, LF] + Normalise(rest)
  {
    NormalisePair(rest);
    NormaliseCons(CR, [CR, LF] + rest);
    NormaliseCons(COLON, [CR] + ([CR, LF] + rest));
    assert FIRST_READ + rest == [COLON] + ([CR] + ([CR, LF] + rest));
    assert [COLON] + ([CR] + ([LF] + Normalise(rest))) == [COLON, CR, LF] + Normalise(rest);
  }

  lemma RestNormalised()
    ensures Normalise([LF, CR, CR, LF, X]) == [LF, CR, LF, X]
  {
    NormaliseFixes([X]);
    NormalisePair([X]);
    NormaliseCons(CR, [CR, LF, X]);
    NormaliseCons(LF, [CR, CR, LF, X]);
    assert [CR, LF] + [X] == [CR, LF, X] && [CR] + [CR, LF, X] == [CR, CR, LF, X];
    assert [LF] + [CR, CR, LF, X] == [LF, CR, CR, LF, X];
    assert [LF] + ([CR] + ([LF] + [X])) == [LF, CR, LF, X];
  }

  lemma RefusedFirstBlank()
    ensures FirstBlank([COLON, CR] + [LF, LF] + [CR, LF, X]) == Some(2)
    ensures FirstBlank([CR, LF, X]).None?
  {
    RefusedBytes();
    FirstBlankStays([COLON, CR] + [LF, LF], 2, [CR, LF, X]);
    assert ([COLON, CR] + [LF, LF])[..4] == [COLON, CR] + [LF, LF];
    assert [CR, LF, X][1..] == [LF, X] && [LF, X][1..] == [X];
  }

  lemma RefusedWithRest(decode: Decoder)
    requires KeepsCarriageReturns(decode)
    ensures Canonical(decode, FIRST_READ + SECOND_READ + [X]).fault == ProtocolFault
  {
    var n := [COLON, CR] + [LF, LF];
    RefusedNormalised();
    RefusedBytes();
    assert n[..2] == [COLON, CR] && n[..4] == n;
    DrainStep(decode, n, false, 2, [CR, LF, X]);
    assert [COLON, CR][1] == CR;
  }

  lemma RefusedSplitRest()
    ensures SplitRest(Normalise(FIRST_READ + SECOND_READ + [X])) == [CR, LF, X]
  {
    var n := [COLON, CR] + [LF, LF] + [CR, LF, X];
    RefusedNormalised();
    RefusedFirstBlank();
    SplitRestStep(n);
    SplitRestStep([CR, LF, X]);
    assert n[4..] == [CR, LF, X];
  }

  /** They can also agree there: of the same comment, cut before its last LF, nothing is left either way. */
  lemma PendingAgreesOnRefused(decode: Decoder)
    requires KeepsCarriageReturns(decode) && decode([COLON]) == Some(":")
    ensures var second := Read(decode, Read(decode, FRESH, FIRST_READ), [LF]);
            second.fault == NoFault && second.buffer == []
    ensures Canonical(decode, FIRST_READ + [LF]).fault == ProtocolFault && HasCrCrLf(FIRST_READ)
    ensures Normalise(PendingOf(FIRST_READ + [LF])) == []
  {
    var stream := FIRST_READ + [LF];
    var n := [COLON, CR] + [LF, LF];
    assert stream == [COLON, CR, CR, LF, LF] && CrCrLfAt(FIRST_READ, 1);
    RefusedWholeAcceptedCut(decode);
    RefusedBytes();
    DrainOneFrame(decode, [COLON, CR], false);
    assert [COLON, CR][1] == CR;
    PendingIsSplitRest(stream);
    SplitRestStep(n);
    assert n[4..] == [];
    SplitRestStep([]);
  }

  /** Without excluding CR CR LF, splitting can newly trip the limit: the comment is refused in one read,
      so that nothing behind it is read; cut, it is accepted, and a later read is too large. */
  lemma SplittingTripsOnCrCrLf(decode: Decoder, large: Bytes)
    requires KeepsCarriageReturns(decode) && decode([COLON]) == Some(":") && |large| > MAX_SSE_BUFFER_BYTES
    ensures ReadAll(decode, [] + [FIRST_READ + [LF]] + [large]).fault == ProtocolFault
    ensures ReadAll(decode, [] + [FIRST_READ] + [[LF]] + [large]).fault == LimitFault
  {
    assert FIRST_READ + [LF] == [COLON, CR, CR, LF, LF];
    RefusedWholeAcceptedCut(decode);
    ReadsOfTwo(decode, FIRST_READ + [LF], large);
    ReadsOfTwo(decode, FIRST_READ, [LF]);
    ReadAllSnoc(decode, [] + [FIRST_READ] + [[LF]], large);
    TooLarge(decode, ReadAll(decode, [] + [FIRST_READ] + [[LF]]), large);
  }

  lemma ReadsOfTwo(decode: Decoder, a: Bytes, b: Bytes)
    ensures ReadAll(decode, [] + [a] + [b]) == Read(decode, Read(decode, FRESH, a), b)
  {
    ReadAllSnoc(decode, [], a);
    ReadAllSnoc(decode, [] + [a], b);
  }

  lemma TooLarge(decode: Decoder, run: ParserRun, large: Bytes)
    requires run.fault == NoFault && |large| > MAX_SSE_BUFFER_BYTES
    ensures Read(decode, run, large).fault == LimitFault
  {
  }

  lemma NoMatchInExample()
    ensures FirstMatchEnd([CR, CR, LF, COLON]) == None
  {
    var b := [CR, CR, LF, COLON];
    assert b[1..] == [CR, LF, COLON] && b[1..][1..] == [LF, COLON] && b[1..][1..][1..] == [COLON];
    assert [COLON][1..] == [] && [CR, LF, COLON][2..] == [COLON];
    assert FirstMatchEnd([COLON]) == None;
    assert FirstMatchEnd([LF, COLON]) == None;
    assert FirstMatchEnd([CR, LF, COLON]) == None;
  }
}
