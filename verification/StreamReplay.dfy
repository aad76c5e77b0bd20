/** Recording a live stream and replaying the record: `replay_stage2_wire_capture` must reproduce the
    live run from the retained chunks, their clocks and the clocks of the frames they completed. */
module StreamReplay {
  import opened Prelude
  import opened Sse
  import opened Payload
  import opened StreamContract
  import opened StreamProtocol
  import opened WireChunks
  import StreamValidator

  // ---------------------------------------------------------------- live runs and their records

  /** One body read of the live transport; the bytes may be empty. */
  datatype BodyRead = BodyRead(data: Bytes, at: Nanos)

  datatype WireCapture = WireCapture(
    xRequestId: string, headersAt: Nanos, chunks: seq<WireChunk>, closeAt: Nanos, chain: IdentityChain)

  datatype Outcome = Outcome(evidence: RequestEvidence, events: seq<RetainedEvent>)

  function Clocks(events: seq<RetainedEvent>): (offsets: seq<Nanos>)
    ensures |offsets| == |events|
  {
    if events == [] then [] else [events[0].at] + Clocks(events[1..])
  }

  /** The clocks of the events a call added (`parsed_sse_events[event_start:]`). */
  function NewOffsets(before: Stream, after: Stream): seq<Nanos> {
    if |before.events| <= |after.events| then Clocks(after.events[|before.events|..]) else []
  }

  /** The readings a frame clock has to give for a chunk: all but the first, which is the chunk's. */
  function Behind(offsets: seq<Nanos>): seq<Nanos> {
    if offsets == [] then [] else offsets[1..]
  }

  /** An empty read is not retained. */
  function Retained(read: BodyRead, before: Stream, after: Stream): seq<WireChunk> {
    if read.data == [] then [] else [WireChunk(read.data, read.at, NewOffsets(before, after))]
  }

  datatype ReadsRun = ReadsRun(s: Stream, clock: FrameClock, wire: seq<WireChunk>)

  function RunReads(config: Config, s: Stream, bodyReads: seq<BodyRead>, clock: FrameClock): Result<ReadsRun>
    decreases |bodyReads|
  {
    if bodyReads == [] then Returned(ReadsRun(s, clock, []))
    else
      var fed := Feed(config, s, bodyReads[0].data, bodyReads[0].at, clock);
      if fed.Raised? then Raised
      else
        var rest := RunReads(config, fed.value.0, bodyReads[1..], fed.value.1);
        if rest.Raised? then Raised
        else
          Returned(rest.value.(wire := Retained(bodyReads[0], s, fed.value.0) + rest.value.wire))
  }

  datatype LiveInput = LiveInput(
    xRequestId: string, headersAt: Nanos, bodyReads: seq<BodyRead>, clock: FrameClock, closeAt: Nanos,
    chain: IdentityChain)

  /** A whole live run and the capture retained from it. */
  function LiveRun(config: Config, live: LiveInput): Result<(Outcome, WireCapture)> {
    var headed := AcceptHeaders(config, Opened(config), live.xRequestId, live.headersAt);
    if headed.Raised? then Raised
    else
      var run := RunReads(config, headed.value, live.bodyReads, live.clock);
      if run.Raised? then Raised
      else
        var closed := Close(config, run.value.s, live.closeAt, live.chain);
        if closed.Raised? then Raised
        else Returned((Outcome(closed.value, run.value.s.events),
                       WireCapture(live.xRequestId, live.headersAt, run.value.wire, live.closeAt, live.chain)))
  }

  // ---------------------------------------------------------------- replay

  /** One chunk of a replay: the stored readings are the frame clock, all of them must be consumed, and
      the frames must come out at exactly the stored clocks. */
  function ReplayChunk(config: Config, s: Stream, c: WireChunk): Result<Stream> {
    var fed := Feed(config, s, c.data, c.at, Some(Behind(c.frameOffsets)));
    if fed.Raised? then Raised
    else if NewOffsets(s, fed.value.0) != c.frameOffsets || fed.value.1 != Some([]) then Raised
    else Returned(fed.value.0)
  }

  function ReplayChunks(config: Config, s: Stream, chunks: seq<WireChunk>): Result<Stream>
    decreases |chunks|
  {
    if chunks == [] then Returned(s)
    else
      var next := ReplayChunk(config, s, chunks[0]);
      if next.Raised? then Raised else ReplayChunks(config, next.value, chunks[1..])
  }

  function Replay(config: Config, capture: WireCapture, chain: IdentityChain): Result<Outcome> {
    var headed := AcceptHeaders(config, Opened(config), capture.xRequestId, capture.headersAt);
    if headed.Raised? then Raised
    else
      var replayed := ReplayChunks(config, headed.value, capture.chunks);
      if replayed.Raised? then Raised
      else
        var closed := Close(config, replayed.value, capture.closeAt, chain);
        if closed.Raised? || capture.chain != chain then Raised
        else Returned(Outcome(closed.value, replayed.value.events))
  }

  /** The replay as the program does it: a fresh validator whose frame clock reads the stored offsets. */
  method ReplayStage2WireCapture(config: Config, capture: WireCapture, chain: IdentityChain)
    returns (r: Result<Outcome>)
    ensures r == Replay(config, capture, chain)
  {
    var validator := new StreamValidator.Stage2StreamValidator(config, Some([]));
    var headed := validator.AcceptResponseHeaders(capture.xRequestId, capture.headersAt);
    if headed.Raised? {
      return Raised;
    }
    ghost var whole := ReplayChunks(config, validator.View(), capture.chunks);
    for i := 0 to |capture.chunks|
      invariant validator.Valid() && validator.config == config && fresh(validator) && fresh(validator.parser)
      invariant whole == ReplayChunks(config, validator.View(), capture.chunks[i..])
    {
      var c := capture.chunks[i];
      assert capture.chunks[i..][0] == c && capture.chunks[i..][1..] == capture.chunks[i + 1..];
      var ok := ReplayOne(validator, c);
      if !ok {
        return Raised;
      }
    }
    assert capture.chunks[|capture.chunks|..] == [];
    var events := validator.events;
    var closed := validator.CloseTransport(capture.closeAt, chain);
    if closed.Raised? || capture.chain != chain {
      return Raised;
    }
    return Returned(Outcome(closed.value, events));
  }

  /** One chunk through the validator. */
  method ReplayOne(validator: StreamValidator.Stage2StreamValidator, c: WireChunk) returns (ok: bool)
    requires validator.Valid()
    modifies validator, validator.parser
    ensures validator.Valid()
    ensures ReplayChunk(validator.config, old(validator.View()), c) == if ok then Returned(validator.View()) else Raised
  {
    validator.frameClock := Some(Behind(c.frameOffsets));
    var eventStart := |validator.events|;
    var fed := validator.Feed(c.data, c.at);
    if fed.Raised? {
      return false;
    }
    var observed := if eventStart <= |validator.events| then Clocks(validator.events[eventStart..]) else [];
    return observed == c.frameOffsets && validator.frameClock == Some([]);
  }

  // ---------------------------------------------------------------- frames

  lemma FrameAppends(config: Config, s: Stream, frame: SSEFrame, at: Nanos)
    requires AcceptFrame(config, s, frame, at).Returned?
    ensures var s' := AcceptFrame(config, s, frame, at).value;
            s'.events == s.events + [RetainedEvent(at, frame)] && s'.lastAt == s.lastAt
  {
  }

  lemma {:induction false} AcceptedFramesAppend(config: Config, s: Stream, frames: seq<SSEFrame>, clock: FrameClock)
    requires AcceptFrames(config, s, frames, clock).Returned?
    ensures s.events <= AcceptFrames(config, s, frames, clock).value.0.events
    decreases |frames|
  {
    if frames != [] {
      var at := if clock.None? then s.lastAt else clock.value[0];
      FrameAppends(config, s.(lastAt := at), frames[0], at);
      var next := AcceptTimedFrame(config, s, frames[0], clock).value;
      AcceptedFramesAppend(config, next.0, frames[1..], next.1);
    }
  }

  /** The clocks of the events behind one more event. */
  lemma NewOffsetsStep(s0: Stream, event: RetainedEvent, s1: Stream, s2: Stream)
    requires s1.events == s0.events + [event] && s1.events <= s2.events
    ensures NewOffsets(s0, s2) == [event.at] + NewOffsets(s1, s2)
  {
    var behind := s2.events[|s0.events|..];
    assert behind[0] == event && behind[1..] == s2.events[|s1.events|..];
  }

  /** Replaying the recorded clocks of frames reproduces them and consumes exactly those readings. */
  lemma {:induction false} FramesReplay(
    config: Config, s: Stream, frames: seq<SSEFrame>, clock: FrameClock, more: seq<Nanos>)
    requires AcceptFrames(config, s, frames, clock).Returned?
    ensures var s' := AcceptFrames(config, s, frames, clock).value.0;
            AcceptFrames(config, s, frames, Some(NewOffsets(s, s') + more)) == Returned((s', Some(more)))
    decreases |frames|
  {
    var s' := AcceptFrames(config, s, frames, clock).value.0;
    if frames == [] {
      ConcatNothing(more);
    } else {
      var at := if clock.None? then s.lastAt else clock.value[0];
      FrameAppends(config, s.(lastAt := at), frames[0], at);
      var next := AcceptTimedFrame(config, s, frames[0], clock).value;
      FramesReplay(config, next.0, frames[1..], next.1, more);
      AcceptedFramesAppend(config, next.0, frames[1..], next.1);
      NewOffsetsStep(s, RetainedEvent(at, frames[0]), next.0, s');
      var rest := NewOffsets(next.0, s') + more;
      ConcatAssociates([at], NewOffsets(next.0, s'), more);
      TimedFrameReplays(config, s, frames[0], clock, rest);
      assert ([at] + rest)[1..] == rest;
    }
  }

  lemma TimedFrameReplays(config: Config, s: Stream, frame: SSEFrame, clock: FrameClock, rest: seq<Nanos>)
    requires AcceptTimedFrame(config, s, frame, clock).Returned?
    ensures var at := if clock.None? then s.lastAt else clock.value[0];
            AcceptTimedFrame(config, s, frame, Some([at] + rest))
            == Returned((AcceptTimedFrame(config, s, frame, clock).value.0, Some(rest)))
  {
    var at := if clock.None? then s.lastAt else clock.value[0];
    assert ([at] + rest)[1..] == rest && s.(lastAt := s.lastAt) == s;
  }

  predicate Sorted(offsets: seq<Nanos>) {
    forall i, j :: 0 <= i < j < |offsets| ==> offsets[i] <= offsets[j]
  }

  /** Frames are stamped with clocks that do not go back. */
  lemma {:induction false} OffsetsSorted(config: Config, s: Stream, frames: seq<SSEFrame>, clock: FrameClock)
    requires AcceptFrames(config, s, frames, clock).Returned?
    ensures var offsets := NewOffsets(s, AcceptFrames(config, s, frames, clock).value.0);
            Sorted(offsets) && forall i :: 0 <= i < |offsets| ==> s.lastAt <= offsets[i]
    decreases |frames|
  {
    if frames != [] {
      var at := if clock.None? then s.lastAt else clock.value[0];
      FrameAppends(config, s.(lastAt := at), frames[0], at);
      var next := AcceptTimedFrame(config, s, frames[0], clock).value;
      OffsetsSorted(config, next.0, frames[1..], next.1);
      AcceptedFramesAppend(config, next.0, frames[1..], next.1);
      NewOffsetsStep(s, RetainedEvent(at, frames[0]), next.0, AcceptFrames(config, s, frames, clock).value.0);
    }
  }

  /** A read from a state whose last clock lies further back starts the same way. */
  lemma StartIgnoresLastClock(config: Config, s: Stream, back: Nanos, data: Bytes, at: Nanos)
    requires StartRead(config, s, data, at).Returned? && back <= s.lastAt
    ensures StartRead(config, s.(lastAt := back), data, at) == StartRead(config, s, data, at)
  {
  }

  /** Replaying one read from its recorded clocks reproduces it. */
  lemma ReadReplays(config: Config, s: Stream, back: Nanos, data: Bytes, at: Nanos, clock: FrameClock, more: seq<Nanos>)
    requires Feed(config, s, data, at, clock).Returned? && back <= s.lastAt
    ensures var s' := Feed(config, s, data, at, clock).value.0; var offsets := NewOffsets(s, s');
            && Feed(config, s.(lastAt := back), data, at, Some(Behind(offsets) + more)) == Returned((s', Some(more)))
            && (offsets != [] ==> offsets[0] == at) && Sorted(offsets)
  {
    StartIgnoresLastClock(config, s, back, data, at);
    var start := StartRead(config, s, data, at).value;
    var s' := Feed(config, s, data, at, clock).value.0;
    if start.1 == [] {
      assert s'.events[|s.events|..] == [];
      ConcatNothing(more);
    } else {
      FirstFrameReplays(config, start.0, start.1, at, clock, more);
    }
  }

  lemma FirstFrameReplays(
    config: Config, s: Stream, frames: seq<SSEFrame>, at: Nanos, clock: FrameClock, more: seq<Nanos>)
    requires frames != [] && s.lastAt == at && AcceptFrame(config, s, frames[0], at).Returned?
    requires AcceptFrames(config, AcceptFrame(config, s, frames[0], at).value, frames[1..], clock).Returned?
    ensures var s1 := AcceptFrame(config, s, frames[0], at).value;
            var s' := AcceptFrames(config, s1, frames[1..], clock).value.0; var offsets := NewOffsets(s, s');
            && AcceptFrames(config, s1, frames[1..], Some(Behind(offsets) + more)) == Returned((s', Some(more)))
            && offsets != [] && offsets[0] == at && Sorted(offsets)
  {
    var s1 := AcceptFrame(config, s, frames[0], at).value;
    FirstFrameOffsets(config, s, s1, frames, at, clock);
    FramesReplay(config, s1, frames[1..], clock, more);
    BehindFirst(at, NewOffsets(s1, AcceptFrames(config, s1, frames[1..], clock).value.0));
  }

  lemma FirstFrameOffsets(config: Config, s: Stream, s1: Stream, frames: seq<SSEFrame>, at: Nanos, clock: FrameClock)
    requires frames != [] && s.lastAt == at && AcceptFrame(config, s, frames[0], at) == Returned(s1)
    requires AcceptFrames(config, s1, frames[1..], clock).Returned?
    ensures var s' := AcceptFrames(config, s1, frames[1..], clock).value.0;
            NewOffsets(s, s') == [at] + NewOffsets(s1, s') && Sorted(NewOffsets(s, s'))
  {
    FrameAppends(config, s, frames[0], at);
    AcceptedFramesAppend(config, s1, frames[1..], clock);
    NewOffsetsStep(s, RetainedEvent(at, frames[0]), s1, AcceptFrames(config, s1, frames[1..], clock).value.0);
    OffsetsSorted(config, s1, frames[1..], clock);
  }

  lemma BehindFirst(at: Nanos, rest: seq<Nanos>)
    ensures Behind([at] + rest) == rest
  {
  }

  lemma EmptyReadOnlyMovesClock(config: Config, s: Stream, at: Nanos, clock: FrameClock)
    requires Feed(config, s, [], at, clock).Returned?
    ensures Feed(config, s, [], at, clock).value == (s.(lastAt := at), clock) && s.lastAt <= at
  {
  }

  /** The retained form of a read replays as one chunk. */
  lemma RetainedReadReplays(config: Config, s: Stream, back: Nanos, read: BodyRead, clock: FrameClock)
    requires read.data != [] && back <= s.lastAt && Feed(config, s, read.data, read.at, clock).Returned?
    ensures var s' := Feed(config, s, read.data, read.at, clock).value.0;
            var c := WireChunk(read.data, read.at, NewOffsets(s, s'));
            ReplayChunk(config, s.(lastAt := back), c) == Returned(s') && ChunkIsValid(c)
  {
    ReadReplays(config, s, back, read.data, read.at, clock, []);
    var s' := Feed(config, s, read.data, read.at, clock).value.0;
    ConcatNothing(Behind(NewOffsets(s, s')));
    assert NewOffsets(s.(lastAt := back), s') == NewOffsets(s, s');
  }

  // ---------------------------------------------------------------- record, then replay

  lemma {:induction false} RecordedReadsReplay(
    config: Config, s: Stream, back: Nanos, bodyReads: seq<BodyRead>, clock: FrameClock)
    returns (back': Nanos)
    requires RunReads(config, s, bodyReads, clock).Returned? && back <= s.lastAt
    ensures var run := RunReads(config, s, bodyReads, clock).value;
            && back' <= run.s.lastAt
            && ReplayChunks(config, s.(lastAt := back), run.wire) == Returned(run.s.(lastAt := back'))
            && forall i :: 0 <= i < |run.wire| ==> ChunkIsValid(run.wire[i])
    decreases |bodyReads|
  {
    if bodyReads == [] {
      return back;
    }
    var read := bodyReads[0];
    var fed := Feed(config, s, read.data, read.at, clock).value;
    var rest := RunReads(config, fed.0, bodyReads[1..], fed.1).value;
    if read.data == [] {
      EmptyReadOnlyMovesClock(config, s, read.at, clock);
      back' := RecordedReadsReplay(config, fed.0, back, bodyReads[1..], fed.1);
      ConcatNothing(rest.wire);
    } else {
      RetainedReadReplays(config, s, back, read, clock);
      assert fed.0.(lastAt := fed.0.lastAt) == fed.0;
      back' := RecordedReadsReplay(config, fed.0, fed.0.lastAt, bodyReads[1..], fed.1);
      ReplayOneMore(config, s.(lastAt := back), WireChunk(read.data, read.at, NewOffsets(s, fed.0)), rest.wire);
    }
  }

  lemma ReplayOneMore(config: Config, s: Stream, c: WireChunk, rest: seq<WireChunk>)
    requires ReplayChunk(config, s, c).Returned?
    ensures ReplayChunks(config, s, [c] + rest) == ReplayChunks(config, ReplayChunk(config, s, c).value, rest)
  {
    assert ([c] + rest)[1..] == rest;
  }

  /** Record then replay is the identity: the capture of a successful live run replays to the same
      evidence and the same events. */
  lemma RecordThenReplay(config: Config, live: LiveInput)
    requires LiveRun(config, live).Returned?
    ensures var (outcome, capture) := LiveRun(config, live).value;
            && Replay(config, capture, live.chain) == Returned(outcome)
            && forall i :: 0 <= i < |capture.chunks| ==> ChunkIsValid(capture.chunks[i])
  {
    var s := AcceptHeaders(config, Opened(config), live.xRequestId, live.headersAt).value;
    var back := RecordedReadsReplay(config, s, s.lastAt, live.bodyReads, live.clock);
    assert s.(lastAt := s.lastAt) == s;
    var last := RunReads(config, s, live.bodyReads, live.clock).value.s;
    CloseIgnoresLastClock(config, last, back, live.closeAt, live.chain);
  }

  lemma CloseIgnoresLastClock(config: Config, s: Stream, back: Nanos, at: Nanos, chain: IdentityChain)
    requires Close(config, s, at, chain).Returned? && back <= s.lastAt
    ensures Close(config, s.(lastAt := back), at, chain) == Close(config, s, at, chain)
  {
    var s' := s.(lastAt := back);
    assert MayClose(config, s', at, chain);
    assert Evidence(config, s', at, chain) == Evidence(config, s, at, chain);
  }

  // ---------------------------------------------------------------- the contract of a capture

  /** What the contracts of the capture and of its HTTP exchange demand of the clocks and chunks. */
  predicate CaptureIsValid(config: Config, c: WireCapture) {
    && c.xRequestId == config.externalId
    && c.chunks != [] && (forall i :: 0 <= i < |c.chunks| ==> ChunkIsValid(c.chunks[i]))
    && ChunksSorted(c.chunks) && FramesDoNotOverlap(None, c.chunks)
    && config.dispatchAt < c.headersAt <= BodyCompleteAt(c.chunks) <= c.closeAt
    && c.chunks[|c.chunks| - 1].at < c.closeAt
  }

  /** The capture's contract, clock by clock: chunks and frames in order, the headers behind the dispatch and
      not behind all of the body, nothing of the body behind the close, and the last chunk before it. */
  lemma CaptureIsValidExactly(config: Config, c: WireCapture)
    ensures CaptureIsValid(config, c)
            <==> && c.xRequestId == config.externalId && |c.chunks| > 0 && Follow(c.chunks)
                 && config.dispatchAt < c.headersAt
                 && (c.headersAt > 0 ==> exists i :: 0 <= i < |c.chunks| && !NotBehind(c.chunks[i], c.headersAt - 1))
                 && (forall i :: 0 <= i < |c.chunks| ==> NotBehind(c.chunks[i], c.closeAt))
                 && c.chunks[|c.chunks| - 1].at < c.closeAt
  {
    ChunksFollowExactly(c.chunks);
    BodyCompleteExactly(c.chunks, c.closeAt);
    if c.headersAt > 0 {
      BodyCompleteExactly(c.chunks, c.headersAt - 1);
    }
  }

  /** Frames are stamped no later than the last clock. */
  lemma {:induction false} OffsetsBounded(config: Config, s: Stream, frames: seq<SSEFrame>, clock: FrameClock)
    requires AcceptFrames(config, s, frames, clock).Returned?
    ensures var s' := AcceptFrames(config, s, frames, clock).value.0;
            s.lastAt <= s'.lastAt && forall i :: 0 <= i < |NewOffsets(s, s')| ==> NewOffsets(s, s')[i] <= s'.lastAt
    decreases |frames|
  {
    var s' := AcceptFrames(config, s, frames, clock).value.0;
    if frames == [] {
      assert s.events[|s.events|..] == [];
    } else {
      var at := if clock.None? then s.lastAt else clock.value[0];
      FrameAppends(config, s.(lastAt := at), frames[0], at);
      var next := AcceptTimedFrame(config, s, frames[0], clock).value;
      OffsetsBounded(config, next.0, frames[1..], next.1);
      AcceptedFramesAppend(config, next.0, frames[1..], next.1);
      NewOffsetsStep(s, RetainedEvent(at, frames[0]), next.0, s');
    }
  }

  /** A read and its frames lie between the last clock before and the last clock after. */
  lemma ReadIsBounded(config: Config, s: Stream, data: Bytes, at: Nanos, clock: FrameClock)
    requires Feed(config, s, data, at, clock).Returned?
    ensures var s' := Feed(config, s, data, at, clock).value.0;
            s.lastAt <= at <= s'.lastAt
              && forall i :: 0 <= i < |NewOffsets(s, s')| ==> NewOffsets(s, s')[i] <= s'.lastAt
  {
    var start := StartRead(config, s, data, at).value;
    var s' := Feed(config, s, data, at, clock).value.0;
    if start.1 == [] {
      assert s'.events[|s.events|..] == [];
    } else {
      FirstFrameIsBounded(config, start.0, start.1, at, clock);
      assert NewOffsets(s, s') == NewOffsets(start.0, s');
    }
  }

  lemma FirstFrameIsBounded(config: Config, s: Stream, frames: seq<SSEFrame>, at: Nanos, clock: FrameClock)
    requires frames != [] && s.lastAt == at && AcceptFrame(config, s, frames[0], at).Returned?
    requires AcceptFrames(config, AcceptFrame(config, s, frames[0], at).value, frames[1..], clock).Returned?
    ensures var s' := AcceptFrames(config, AcceptFrame(config, s, frames[0], at).value, frames[1..], clock).value.0;
            at <= s'.lastAt && forall i :: 0 <= i < |NewOffsets(s, s')| ==> NewOffsets(s, s')[i] <= s'.lastAt
  {
    var s1 := AcceptFrame(config, s, frames[0], at).value;
    FrameAppends(config, s, frames[0], at);
    OffsetsBounded(config, s1, frames[1..], clock);
    AcceptedFramesAppend(config, s1, frames[1..], clock);
    NewOffsetsStep(s, RetainedEvent(at, frames[0]), s1, AcceptFrames(config, s1, frames[1..], clock).value.0);
  }

  lemma {:induction false} RecordedChunksInOrder(config: Config, s: Stream, bodyReads: seq<BodyRead>, clock: FrameClock)
    requires RunReads(config, s, bodyReads, clock).Returned?
    ensures var run := RunReads(config, s, bodyReads, clock).value;
            InOrderBetween(s.lastAt, run.wire, run.s.lastAt) && (run.wire == [] ==> run.s.firstBodyAt == s.firstBodyAt)
    decreases |bodyReads|
  {
    if bodyReads != [] {
      var read := bodyReads[0];
      var fed := Feed(config, s, read.data, read.at, clock).value;
      ReadIsBounded(config, s, read.data, read.at, clock);
      RecordedChunksInOrder(config, fed.0, bodyReads[1..], fed.1);
      var rest := RunReads(config, fed.0, bodyReads[1..], fed.1).value;
      if read.data == [] {
        EmptyReadOnlyMovesClock(config, s, read.at, clock);
        ConcatNothing(rest.wire);
        InOrderFrom(s.lastAt, fed.0.lastAt, rest.wire, rest.s.lastAt);
      } else {
        InOrderCons(s.lastAt, WireChunk(read.data, read.at, NewOffsets(s, fed.0)), fed.0.lastAt, rest.wire,
          rest.s.lastAt);
      }
    }
  }

  /** The record of a successful live run meets the capture's contract if and only if the headers came
      strictly behind the dispatch and the close strictly behind the last retained chunk; otherwise the
      capture is refused before it could be replayed. */
  lemma RecordMeetsContractExactly(config: Config, live: LiveInput)
    requires LiveRun(config, live).Returned?
    ensures var capture := LiveRun(config, live).value.1;
            && capture.chunks != []
            && (CaptureIsValid(config, capture)
                <==> config.dispatchAt < live.headersAt && capture.chunks[|capture.chunks| - 1].at < live.closeAt)
  {
    var s := AcceptHeaders(config, Opened(config), live.xRequestId, live.headersAt).value;
    var run := RunReads(config, s, live.bodyReads, live.clock).value;
    RecordThenReplay(config, live);
    RecordedChunksInOrder(config, s, live.bodyReads, live.clock);
    BodyCompleteBehindFirst(run.wire);
    assert FramesDoNotOverlap(None, run.wire);
  }

  // ---------------------------------------------------------------- replay, then record

  function Reads(chunks: seq<WireChunk>): seq<BodyRead> {
    if chunks == [] then [] else [BodyRead(chunks[0].data, chunks[0].at)] + Reads(chunks[1..])
  }

  /** The readings of all chunks, one after the other. */
  function Tape(chunks: seq<WireChunk>): seq<Nanos> {
    if chunks == [] then [] else Behind(chunks[0].frameOffsets) + Tape(chunks[1..])
  }

  lemma {:induction false} ReplayedReadsRecord(config: Config, s: Stream, chunks: seq<WireChunk>)
    requires ReplayChunks(config, s, chunks).Returned?
    requires forall i :: 0 <= i < |chunks| ==> chunks[i].data != []
    ensures RunReads(config, s, Reads(chunks), Some(Tape(chunks)))
            == Returned(ReadsRun(ReplayChunks(config, s, chunks).value, Some([]), chunks))
    decreases |chunks|
  {
    if chunks != [] {
      var c := chunks[0];
      var next := ReplayChunk(config, s, c).value;
      assert s.(lastAt := s.lastAt) == s;
      ReadReplays(config, s, s.lastAt, c.data, c.at, Some(Behind(c.frameOffsets)), Tape(chunks[1..]));
      ReplayedReadsRecord(config, next, chunks[1..]);
      RunOneMore(config, s, c, chunks[1..], next);
      assert [c] + chunks[1..] == chunks;
    }
  }

  /** A chunk's read behind which the rest runs as recorded. */
  lemma RunOneMore(config: Config, s: Stream, c: WireChunk, rest: seq<WireChunk>, next: Stream)
    requires c.data != [] && NewOffsets(s, next) == c.frameOffsets
    requires Feed(config, s, c.data, c.at, Some(Behind(c.frameOffsets) + Tape(rest)))
             == Returned((next, Some(Tape(rest))))
    requires RunReads(config, next, Reads(rest), Some(Tape(rest))).Returned?
    requires RunReads(config, next, Reads(rest), Some(Tape(rest))).value.wire == rest
    ensures RunReads(config, s, Reads([c] + rest), Some(Tape([c] + rest)))
            == Returned(RunReads(config, next, Reads(rest), Some(Tape(rest))).value.(wire := [c] + rest))
  {
    assert ([c] + rest)[1..] == rest;
    var read := BodyRead(c.data, c.at);
    assert ([read] + Reads(rest))[1..] == Reads(rest);
  }

  /** A capture is accepted by replay exactly when it is the record of some successful live run, and
      then that run had the same outcome. */
  lemma ReplayAcceptsExactlyRecords(config: Config, capture: WireCapture)
    requires forall i :: 0 <= i < |capture.chunks| ==> capture.chunks[i].data != []
    ensures Replay(config, capture, capture.chain).Returned?
            <==> exists live :: IsRecordOf(config, live, capture)
    ensures forall live :: (IsRecordOf(config, live, capture)
                            ==> Replay(config, capture, capture.chain) == Returned(LiveRun(config, live).value.0))
  {
    forall live | IsRecordOf(config, live, capture)
      ensures Replay(config, capture, capture.chain) == Returned(LiveRun(config, live).value.0)
    {
      RecordThenReplay(config, live);
    }
    if Replay(config, capture, capture.chain).Returned? {
      var s := AcceptHeaders(config, Opened(config), capture.xRequestId, capture.headersAt).value;
      ReplayedReadsRecord(config, s, capture.chunks);
      var live := LiveInput(capture.xRequestId, capture.headersAt, Reads(capture.chunks), Some(Tape(capture.chunks)),
                            capture.closeAt, capture.chain);
      assert IsRecordOf(config, live, capture);
    }
  }

  /** A capture that meets its contract is accepted by replay exactly when it is the record of a
      successful live run, one with its headers behind the dispatch and its close behind the last chunk. */
  lemma ValidCapturesReplayExactly(config: Config, capture: WireCapture)
    requires CaptureIsValid(config, capture)
    ensures Replay(config, capture, capture.chain).Returned?
            <==> exists live :: && IsRecordOf(config, live, capture)
                                && config.dispatchAt < live.headersAt
                                && capture.chunks[|capture.chunks| - 1].at < live.closeAt
  {
    assert forall i :: 0 <= i < |capture.chunks| ==> ChunkIsValid(capture.chunks[i]);
    ReplayAcceptsExactlyRecords(config, capture);
    forall live | IsRecordOf(config, live, capture)
      ensures config.dispatchAt < live.headersAt && capture.chunks[|capture.chunks| - 1].at < live.closeAt
    {
      RecordMeetsContractExactly(config, live);
    }
  }

  ghost predicate IsRecordOf(config: Config, live: LiveInput, capture: WireCapture) {
    LiveRun(config, live).Returned? && LiveRun(config, live).value.1 == capture
  }

  // ---------------------------------------------------------------- whole runs and the contract

  lemma {:induction false} RunsStayConsistent(config: Config, s: Stream, bodyReads: seq<BodyRead>, clock: FrameClock)
    requires Consistent(config, s) && RunReads(config, s, bodyReads, clock).Returned?
    ensures Consistent(config, RunReads(config, s, bodyReads, clock).value.s)
    decreases |bodyReads|
  {
    if bodyReads != [] {
      var fed := Feed(config, s, bodyReads[0].data, bodyReads[0].at, clock).value;
      FeedKeepsConsistent(config, s, bodyReads[0].data, bodyReads[0].at, clock);
      RunsStayConsistent(config, fed.0, bodyReads[1..], fed.1);
    }
  }

  /** Of the live runs that reach the evidence record, exactly those succeed whose prompt ids came on the
      first generation event; and what they return meets the whole contract. */
  lemma LiveRunSucceedsExactly(config: Config, live: LiveInput)
    requires |config.sentPrompt| == PROMPT_TOKEN_COUNT && ChainIsValid(live.chain)
    requires AcceptHeaders(config, Opened(config), live.xRequestId, live.headersAt).Returned?
    requires RunReads(config, AcceptHeaders(config, Opened(config), live.xRequestId, live.headersAt).value,
             live.bodyReads, live.clock).Returned?
    requires var run := RunReads(config, AcceptHeaders(config, Opened(config), live.xRequestId, live.headersAt).value,
             live.bodyReads, live.clock);
             MayClose(config, run.value.s, live.closeAt, live.chain)
    ensures var run := RunReads(config, AcceptHeaders(config, Opened(config), live.xRequestId, live.headersAt).value,
            live.bodyReads, live.clock);
            && run.value.s.tokenEvents != []
            && (LiveRun(config, live).Returned? <==> run.value.s.tokenEvents[0].prompt.Some?)
    ensures LiveRun(config, live).Returned? ==> EvidenceIsValid(LiveRun(config, live).value.0.evidence)
  {
    var headed := AcceptHeaders(config, Opened(config), live.xRequestId, live.headersAt).value;
    OpenedIsConsistent(config);
    HeadersKeepConsistent(config, Opened(config), live.xRequestId, live.headersAt);
    RunsStayConsistent(config, headed, live.bodyReads, live.clock);
    ProducerMeetsContract(config, RunReads(config, headed, live.bodyReads, live.clock).value.s, live.closeAt,
      live.chain);
  }
}
