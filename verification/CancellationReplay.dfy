/** Replaying a retained cancellation stream: `replay_stage2_cancellation_wire_capture` against the
    live capture it must reproduce, and the contract of the record it builds. */
module CancellationReplay {
  import opened Prelude
  import opened Sse
  import opened Payload
  import opened SseChunking
  import opened Ascii
  import opened SseFrames
  import opened CancellationCapture
  import opened WireChunks

  datatype BodyRead = BodyRead(data: Bytes, at: Nanos)
  datatype WireCapture = WireCapture(xRequestId: string, headersAt: Nanos, chunks: seq<WireChunk>, closeAt: Nanos,
    closedAt: Nanos)

  datatype ParserState = AtFrameBoundary | IncompleteTrailingBytes

  /** The parser-replay record. */
  datatype ParserReplay = ParserReplay(
    externalId: string, responseId: string,
    events: seq<Event>, generations: seq<Generation>, allIds: TokenIds,
    deliveryExternalId: string, deliveryResponseId: string, delivery: Delivery,
    pending: Bytes, parserPending: Bytes, stateAtClose: ParserState)

  function AllIds(generations: seq<Generation>): TokenIds {
    if generations == [] then [] else generations[0].ids + AllIds(generations[1..])
  }

  /** `validate_replay`, with the minimum lengths of its fields. */
  predicate ParserReplayIsValid(r: ParserReplay) {
    && r.events != [] && r.generations != [] && r.allIds != [] && r.delivery.ids != []
    && (forall i :: 0 <= i < |r.events| ==> r.events[i].ordinal == i)
    && (forall j, k :: 0 <= j < k < |r.generations| ==> r.generations[j].ordinal < r.generations[k].ordinal)
    && (forall k :: 0 <= k < |r.generations| ==>
          r.generations[k].ordinal < |r.events| && r.events[r.generations[k].ordinal].frame.kind.Data?
            && r.generations[k].ids != [])
    && r.allIds == AllIds(r.generations)
    && r.deliveryExternalId == r.externalId && r.deliveryResponseId == r.responseId
    && r.delivery.eventOrdinal == r.generations[0].ordinal
    && r.delivery.at <= r.generations[0].at
    && r.delivery.ids == r.generations[0].ids
    && r.parserPending == Normalise(r.pending)
    && r.stateAtClose == if r.parserPending != [] then IncompleteTrailingBytes else AtFrameBoundary
  }

  /** `split(b"\n\n")`: the frames between blank lines, empty ones included, and the rest. */
  function Segments(b: Bytes): (segments: seq<Bytes>)
    ensures segments != []
    decreases |b|
  {
    match FirstBlank(b)
    case None => [b]
    case Some(at) => [b[..at]] + Segments(b[at + 2..])
  }

  predicate HasEmptyFrame(body: Bytes) {
    var segments := Segments(Normalise(body));
    exists i :: 0 <= i < |segments| - 1 && segments[i] == []
  }

  /** Nothing of a valid record is free but its ids, events, generation events and pending bytes, and chunk and
      clock of the delivery: two valid records that share these are the same. */
  lemma ValidReplaysAreDetermined(a: ParserReplay, b: ParserReplay)
    requires ParserReplayIsValid(a) && ParserReplayIsValid(b)
    requires a.externalId == b.externalId && a.responseId == b.responseId && a.events == b.events
    requires a.generations == b.generations && a.pending == b.pending
    requires a.delivery.chunkOrdinal == b.delivery.chunkOrdinal && a.delivery.at == b.delivery.at
    ensures a == b
  {
    assert a.delivery == b.delivery;
  }

  /** And its events are in order: numbered, the generation events on data frames one behind the other, each
      with ids, the delivery not later than the first. */
  lemma ValidReplayIsInOrder(r: ParserReplay)
    requires ParserReplayIsValid(r)
    ensures |r.events| > 0 && |r.generations| > 0 && |r.delivery.ids| > 0
    ensures forall i :: 0 <= i < |r.events| ==> r.events[i].ordinal == i
    ensures forall k :: 0 < k < |r.generations| ==> r.generations[k - 1].ordinal < r.generations[k].ordinal
    ensures forall k :: 0 <= k < |r.generations| ==>
              && r.generations[k].ordinal < |r.events| && r.events[r.generations[k].ordinal].frame.kind == Data
              && |r.generations[k].ids| > 0
    ensures r.delivery.at <= r.generations[0].at
  {
  }

  // ---------------------------------------------------------------- empty frames

  /** A blank line at this place. */
  predicate IsBlankAt(b: Bytes, i: nat) {
    i + 2 <= |b| && b[i] == LF && b[i + 1] == LF
  }

  lemma {:induction false} FirstBlankIsFirst(b: Bytes, i: nat)
    ensures FirstBlank(b).None? ==> !IsBlankAt(b, i)
    ensures FirstBlank(b).Some? && i < FirstBlank(b).value ==> !IsBlankAt(b, i)
    decreases |b|
  {
    if |b| >= 2 && !IsBlankAt(b, 0) && i > 0 {
      FirstBlankIsFirst(b[1..], i - 1);
      assert IsBlankAt(b, i) ==> IsBlankAt(b[1..], i - 1);
    }
  }

  predicate HasEmptySegment(segments: seq<Bytes>) {
    exists i :: 0 <= i < |segments| - 1 && segments[i] == []
  }

  /** Two newlines at the start, or four in a row. */
  ghost predicate HasDoubleBlank(b: Bytes) {
    IsBlankAt(b, 0) || exists i: nat :: IsBlankAt(b, i) && IsBlankAt(b, i + 2)
  }

  lemma {:induction false} EmptySegmentsExactly(b: Bytes)
    ensures HasEmptySegment(Segments(b)) <==> HasDoubleBlank(b)
    decreases |b|
  {
    if FirstBlank(b).None? {
      forall i: nat ensures !IsBlankAt(b, i) {
        FirstBlankIsFirst(b, i);
      }
    } else {
      var at := FirstBlank(b).value;
      var rest := b[at + 2..];
      EmptySegmentsExactly(rest);
      FirstSegment(b[..at], Segments(rest));
      if at > 0 {
        FirstBlankIsFirst(b, 0);
        DoubleBlankBehind(b, at, rest);
      }
    }
  }

  lemma FirstSegment(first: Bytes, rest: seq<Bytes>)
    requires rest != []
    ensures HasEmptySegment([first] + rest) <==> first == [] || HasEmptySegment(rest)
  {
    var all := [first] + rest;
    assert all[0] == first && forall i :: 0 <= i < |rest| ==> all[i + 1] == rest[i];
    if HasEmptySegment(all) && first != [] {
      var i :| 0 <= i < |all| - 1 && all[i] == [];
      assert rest[i - 1] == [];
    }
  }

  lemma DoubleBlankBehind(b: Bytes, at: nat, rest: Bytes)
    requires FirstBlank(b) == Some(at) && at > 0 && rest == b[at + 2..] && !IsBlankAt(b, 0)
    ensures HasDoubleBlank(b) <==> HasDoubleBlank(rest)
  {
    forall i: nat ensures IsBlankAt(rest, i) <==> IsBlankAt(b, i + (at + 2)) {
    }
    if HasDoubleBlank(b) {
      var i: nat :| IsBlankAt(b, i) && IsBlankAt(b, i + 2);
      FirstBlankIsFirst(b, i);
      assert i >= at;
      if i >= at + 2 {
        assert IsBlankAt(rest, i - (at + 2)) && IsBlankAt(rest, i - (at + 2) + 2);
      } else {
        assert IsBlankAt(b, 0 + (at + 2));
      }
    }
    if HasDoubleBlank(rest) {
      if IsBlankAt(rest, 0) {
        assert IsBlankAt(b, at) && IsBlankAt(b, at + 2);
      } else {
        var i: nat :| IsBlankAt(rest, i) && IsBlankAt(rest, i + 2);
        assert IsBlankAt(b, i + (at + 2)) && IsBlankAt(b, i + (at + 2) + 2);
      }
    }
  }

  /** A body holds an empty frame exactly when, its line ends normalised, it opens with a blank line or has
      four newlines in a row. */
  lemma EmptyFrameExactly(body: Bytes)
    ensures HasEmptyFrame(body) <==> HasDoubleBlank(Normalise(body))
  {
    EmptySegmentsExactly(Normalise(body));
  }

  function RecordOf(config: Config, s: Capture): ParserReplay
    requires s.delivery.Some?
  {
    var parserPending := Normalise(PendingBytes(s));
    ParserReplay(config.externalId, ResponseId(config.externalId), s.events, s.generations, AllIds(s.generations),
                 config.externalId, ResponseId(config.externalId), s.delivery.value,
                 PendingBytes(s), parserPending,
                 if parserPending != [] then IncompleteTrailingBytes else AtFrameBoundary)
  }

  // ---------------------------------------------------------------- live runs and replay

  function Clocks(events: seq<Event>): seq<Nanos> {
    if events == [] then [] else [events[0].at] + Clocks(events[1..])
  }

  function NewOffsets(before: Capture, after: Capture): seq<Nanos> {
    if |before.events| <= |after.events| then Clocks(after.events[|before.events|..]) else []
  }

  function RunReads(config: Config, s: Capture, input: seq<BodyRead>): Result<(Capture, seq<WireChunk>)>
    decreases |input|
  {
    if input == [] then Returned((s, []))
    else
      var fed := Feed(config, s, input[0].data, input[0].at);
      if fed.Raised? then Raised
      else
        var rest := RunReads(config, fed.value, input[1..]);
        if rest.Raised? then Raised
        else Returned((rest.value.0, [WireChunk(input[0].data, input[0].at, NewOffsets(s, fed.value))] + rest.value.1))
  }

  function CloseBoth(s: Capture, closeAt: Nanos, closedAt: Nanos): Result<Capture> {
    var closed := Close(s, closeAt);
    if closed.Raised? then Raised else CompleteTransportClose(closed.value, closedAt)
  }

  datatype LiveInput = LiveInput(xRequestId: string, headersAt: Nanos, input: seq<BodyRead>, closeAt: Nanos,
    closedAt: Nanos)

  /** A whole live run: its final state and the capture retained from it. */
  function LiveRun(config: Config, live: LiveInput): Result<(Capture, WireCapture)> {
    var headed := AcceptHeaders(config, Opened(config), live.xRequestId, live.headersAt);
    if headed.Raised? then Raised
    else
      var run := RunReads(config, headed.value, live.input);
      if run.Raised? then Raised
      else
        var closed := CloseBoth(run.value.0, live.closeAt, live.closedAt);
        if closed.Raised? then Raised
        else Returned((closed.value,
          WireCapture(live.xRequestId, live.headersAt, run.value.1, live.closeAt, live.closedAt)))
  }

  function ReplayChunks(config: Config, s: Capture, chunks: seq<WireChunk>): Result<Capture>
    decreases |chunks|
  {
    if chunks == [] then Returned(s)
    else
      var fed := Feed(config, s, chunks[0].data, chunks[0].at);
      if fed.Raised? || NewOffsets(s, fed.value) != chunks[0].frameOffsets then Raised
      else ReplayChunks(config, fed.value, chunks[1..])
  }

  function Replay(config: Config, capture: WireCapture): Result<ParserReplay> {
    var headed := AcceptHeaders(config, Opened(config), capture.xRequestId, capture.headersAt);
    if headed.Raised? then Raised
    else
      var replayed := ReplayChunks(config, headed.value, capture.chunks);
      if replayed.Raised? then Raised
      else
        var closed := CloseBoth(replayed.value, capture.closeAt, capture.closedAt);
        if closed.Raised? || HasEmptyFrame(RawBody(closed.value.chunks)) || closed.value.delivery.None? then Raised
        else
          var record := RecordOf(config, closed.value);
          if ParserReplayIsValid(record) then Returned(record) else Raised
  }

  method ReplayStage2CancellationWireCapture(config: Config, capture: WireCapture) returns (r: Result<ParserReplay>)
    ensures r == Replay(config, capture)
  {
    var validator := new Stage2CancellationStreamCapture(config);
    var headed := validator.AcceptResponseHeaders(capture.xRequestId, capture.headersAt);
    if headed.Raised? {
      return Raised;
    }
    ghost var whole := ReplayChunks(config, validator.View(), capture.chunks);
    for i := 0 to |capture.chunks|
      invariant validator.Valid() && validator.config == config && fresh(validator) && fresh(validator.parser)
      invariant whole == ReplayChunks(config, validator.View(), capture.chunks[i..])
    {
      var c := capture.chunks[i];
      assert capture.chunks[i..][0] == c && capture.chunks[i..][1..] == capture.chunks[i + 1..];
      var eventStart := |validator.events|;
      ghost var before := validator.View();
      var fed := validator.FeedChunk(c.data, c.at);
      if fed.Raised? {
        return Raised;
      }
      var observed := if eventStart <= |validator.events| then Clocks(validator.events[eventStart..]) else [];
      assert observed == NewOffsets(before, validator.View());
      if observed != c.frameOffsets {
        return Raised;
      }
    }
    assert capture.chunks[|capture.chunks|..] == [];
    var closed := validator.CloseByClient(capture.closeAt);
    if closed.Raised? {
      return Raised;
    }
    closed := validator.CompleteClose(capture.closedAt);
    if closed.Raised? {
      return Raised;
    }
    var rawBody := RawBody(validator.chunks);
    if HasEmptyFrame(rawBody) || validator.delivery.None? {
      return Raised;
    }
    var pending := PendingSseBytes(rawBody);
    var parserPending := Normalise(pending);
    var record := ParserReplay(config.externalId, ResponseId(config.externalId), validator.events,
      validator.generations,
                               AllIds(validator.generations), config.externalId, ResponseId(config.externalId),
                               validator.delivery.value, pending, parserPending,
                               if parserPending != [] then IncompleteTrailingBytes else AtFrameBoundary);
    assert record == RecordOf(config, validator.View());
    if !ParserReplayIsValid(record) {
      return Raised;
    }
    return Returned(record);
  }

  // ---------------------------------------------------------------- every run

  ghost predicate Delivered(s: Capture) {
    exists from: nat, at: Nanos :: Fits(s, from, at) && AllComments(s.events[..from])
  }

  lemma NothingAfterDelivery(config: Config, s: Capture, input: seq<BodyRead>)
    requires RunReads(config, s, input).Returned? && s.delivery.Some?
    ensures input == []
  {
  }

  /** Over a whole run of reads: still waiting, or delivered by the last chunk and by it alone. */
  lemma {:induction false} RunsDeliverOnce(config: Config, s: Capture, input: seq<BodyRead>)
    requires Waiting(s) && RunReads(config, s, input).Returned?
    ensures var s' := RunReads(config, s, input).value.0;
            && (s'.delivery.None? ==> Waiting(s'))
            && (s'.delivery.Some? ==> Delivered(s'))
    decreases |input|
  {
    if input != [] {
      OneDelivery(config, s, input[0].data, input[0].at);
      var next := Feed(config, s, input[0].data, input[0].at).value;
      if next.delivery.None? {
        RunsDeliverOnce(config, next, input[1..]);
      } else {
        NothingAfterDelivery(config, next, input[1..]);
        assert next.events[..|s.events|] == s.events;
        assert Delivered(next);
      }
    }
  }

  /** The record of a delivered stream always meets the replay contract. */
  lemma DeliveredRecordIsValid(config: Config, s: Capture, from: nat, at: Nanos)
    requires Fits(s, from, at) && s.delivery.Some?
    ensures ParserReplayIsValid(RecordOf(config, s))
  {
    assert StandsOn(s.generations[0], s.events, from, at);
    assert AllIds(s.generations)[0] == s.generations[0].ids[0];
  }

  // ---------------------------------------------------------------- record, then replay

  lemma {:induction false} RecordedReadsReplay(config: Config, s: Capture, input: seq<BodyRead>)
    requires RunReads(config, s, input).Returned?
    ensures ReplayChunks(config, s, RunReads(config, s, input).value.1) == Returned(RunReads(config, s, input).value.0)
    decreases |input|
  {
    if input != [] {
      var next := Feed(config, s, input[0].data, input[0].at).value;
      RecordedReadsReplay(config, next, input[1..]);
      var rest := RunReads(config, next, input[1..]).value.1;
      assert RunReads(config, s, input).value.1[1..] == rest;
    }
  }

  /** Record then replay, exactly: the capture of a completed live run replays to the record of that run
      if and only if its bytes hold no empty frame; the live side skips empty frames, the replay does not. */
  lemma RecordThenReplayExactly(config: Config, live: LiveInput)
    requires LiveRun(config, live).Returned?
    ensures var (s, capture) := LiveRun(config, live).value;
            && s.delivery.Some?
            && Replay(config, capture)
               == if HasEmptyFrame(RawBody(s.chunks)) then Raised else Returned(RecordOf(config, s))
  {
    var headed := AcceptHeaders(config, Opened(config), live.xRequestId, live.headersAt).value;
    RecordedReadsReplay(config, headed, live.input);
    RunsDeliverOnce(config, headed, live.input);
    var run := RunReads(config, headed, live.input).value.0;
    var from: nat, at: Nanos :| Fits(run, from, at) && AllComments(run.events[..from]);
    DeliveredRecordIsValid(config, run, from, at);
    CloseKeepsRecord(config, run, live.closeAt, live.closedAt);
  }

  /** The bytes of one frame that reads as a plain generation event with the prompt that was sent. */
  predicate IsPlainGeneration(config: Config, raw: Bytes, text: string) {
    && IsFrameBytes(raw) && |raw| + 4 <= MAX_SSE_BUFFER_BYTES
    && FrameOf(config.decode, raw, false) == Returned((SSEFrame(Data, Some(text), []), false))
    && IsGeneration(config, config.decodeJson(text))
    && config.decodeJson(text).choices.items[0].prompt == Ids(config.sentPrompt)
  }

  /** For example the ASCII bytes of a data line, under any decoder that reads ASCII. */
  lemma DataLineIsPlainGeneration(config: Config, text: string)
    requires ReadsAscii(config.decode) && IsDataText(text) && |text| <= 32_000 && text != "[DONE]"
    requires IsGeneration(config, config.decodeJson(text))
    requires config.decodeJson(text).choices.items[0].prompt == Ids(config.sentPrompt)
    ensures IsPlainGeneration(config, DataFrame(text), text)
  {
    DataFrameReadsBack(config.decode, text);
  }

  /** A stream that opens with a blank line: an empty frame, then that one. */
  function LeadingBlank(raw: Bytes): Bytes {
    [LF, LF] + (raw + [LF, LF])
  }

  /** It comes in one chunk, at clocks that only grow. */
  function OneChunk(config: Config, raw: Bytes): LiveInput {
    var sent := config.dispatchAt;
    LiveInput(config.externalId, sent + 1, [BodyRead(LeadingBlank(raw), sent + 2)], sent + 3, sent + 4)
  }

  /** Replay is not always the identity: the live capture of such a stream completes
      and meets its contract, but its replay fails. */
  lemma LeadingBlankIsNotReplayed(config: Config, raw: Bytes, text: string)
    requires IsPlainGeneration(config, raw, text)
    ensures LiveRun(config, OneChunk(config, raw)).Returned?
    ensures var (s, capture) := LiveRun(config, OneChunk(config, raw)).value;
            && s.delivery.Some? && CaptureIsValid(config, capture, RecordOf(config, s))
            && Replay(config, capture).Raised?
  {
    OneChunkRuns(config, raw, text);
    RecordThenReplayExactly(config, OneChunk(config, raw));
    RecordMeetsContractExactly(config, OneChunk(config, raw));
    LeadingBlankIsEmptyFrame(raw);
    DatasOfOne(BodyChunk(config.dispatchAt + 2, LeadingBlank(raw)));
  }

  lemma OneChunkRuns(config: Config, raw: Bytes, text: string)
    requires IsPlainGeneration(config, raw, text)
    ensures var run, at := LiveRun(config, OneChunk(config, raw)), config.dispatchAt + 2;
            && run.Returned? && run.value.0.chunks == [BodyChunk(at, LeadingBlank(raw))]
            && |run.value.1.chunks| == 1 && run.value.1.chunks[0].at == at
  {
    var headed := AcceptHeaders(config, Opened(config), config.externalId, config.dispatchAt + 1);
    LeadingBlankIsDelivered(config, headed.value, config.dispatchAt + 2, raw, text);
    OneReadRuns(config, OneChunk(config, raw), headed.value, LeadingBlank(raw), config.dispatchAt + 2);
  }

  /** A run of one read that delivers, closed behind it. */
  lemma OneReadRuns(config: Config, live: LiveInput, headed: Capture, data: Bytes, at: Nanos)
    requires live.input == [BodyRead(data, at)]
             && AcceptHeaders(config, Opened(config), live.xRequestId, live.headersAt) == Returned(headed)
    requires Feed(config, headed, data, at).Returned?
    requires CloseBoth(Feed(config, headed, data, at).value, live.closeAt, live.closedAt).Returned?
    ensures var run := LiveRun(config, live);
            && run.Returned? && run.value.0
               == CloseBoth(Feed(config, headed, data, at).value, live.closeAt, live.closedAt).value
            && |run.value.1.chunks| == 1 && run.value.1.chunks[0].at == at
  {
    RunOfOne(config, headed, data, at);
  }

  lemma LeadingBlankIsDelivered(config: Config, s: Capture, at: Nanos, raw: Bytes, text: string)
    requires IsPlainGeneration(config, raw, text)
    requires s == Opened(config).(lastAt := s.lastAt, headersAt := s.headersAt) && s.headersAt.Some? && s.lastAt <= at
    ensures var fed := Feed(config, s, LeadingBlank(raw), at);
            && fed.Returned? && fed.value.lastAt == at && fed.value.chunks == [BodyChunk(at, LeadingBlank(raw))]
            && CloseBoth(fed.value, at + 1, at + 2).Returned?
            && CloseBoth(fed.value, at + 1, at + 2).value.chunks == [BodyChunk(at, LeadingBlank(raw))]
  {
    var frame := SSEFrame(Data, Some(text), []);
    var started := LeadingBlankStarts(config, s, at, raw, frame);
    var accepted := AcceptFrame(config, started, frame, at, 0);
    FirstGenerationDelivers(config, started, text, at);
    OneFrameIsFed(config, s, LeadingBlank(raw), at, started, frame, accepted.value);
    ClosesBehind(accepted.value, at);
  }

  lemma OneFrameIsFed(
    config: Config, s: Capture, chunk: Bytes, at: Nanos, started: Capture, frame: SSEFrame, next: Capture)
    requires StartRead(config, s, chunk, at) == Returned((started, [frame]))
    requires AcceptFrame(config, started, frame, at, |s.chunks|) == Returned(next)
    ensures Feed(config, s, chunk, at) == Returned(next)
  {
    assert [frame][1..] == [];
    assert AcceptFrames(config, next, [], at, |s.chunks|) == Returned(next);
  }

  lemma LeadingBlankStarts(config: Config, s: Capture, at: Nanos, raw: Bytes, frame: SSEFrame)
    returns (started: Capture)
    requires IsFrameBytes(raw) && |raw| + 4 <= MAX_SSE_BUFFER_BYTES
    requires FrameOf(config.decode, raw, false) == Returned((frame, false))
    requires s == Opened(config).(lastAt := s.lastAt, headersAt := s.headersAt) && s.headersAt.Some? && s.lastAt <= at
    ensures StartRead(config, s, LeadingBlank(raw), at) == Returned((started, [frame]))
    ensures started == s.(lastAt := at, chunks := [BodyChunk(at, LeadingBlank(raw))])
  {
    LeadingBlankIsRead(config.decode, raw, frame);
    ConcatNothing([BodyChunk(at, LeadingBlank(raw))]);
    started := s.(lastAt := at, chunks := [BodyChunk(at, LeadingBlank(raw))]);
  }

  /** The first generation event of a stream is its delivery. */
  lemma FirstGenerationDelivers(config: Config, s: Capture, text: string, at: Nanos)
    requires s.generations == [] && s.delivery.None?
    requires IsGeneration(config, config.decodeJson(text))
    requires config.decodeJson(text).choices.items[0].prompt == Ids(config.sentPrompt)
    ensures var accepted := AcceptFrame(config, s, SSEFrame(Data, Some(text), []), at, 0);
            && accepted.Returned? && SameOutside(s, accepted.value)
            && accepted.value.delivery.Some? && accepted.value.delivery.value.at == at
  {
  }

  lemma ClosesBehind(s: Capture, at: Nanos)
    requires s.closeAt.None? && s.closedAt.None? && s.lastAt == at && s.delivery.Some? && s.delivery.value.at == at
    ensures CloseBoth(s, at + 1, at + 2).Returned? && CloseBoth(s, at + 1, at + 2).value.chunks == s.chunks
  {
  }

  lemma RunOfOne(config: Config, s: Capture, data: Bytes, at: Nanos)
    requires Feed(config, s, data, at).Returned?
    ensures RunReads(config, s, [BodyRead(data, at)]).Returned?
    ensures var (s', wire) := RunReads(config, s, [BodyRead(data, at)]).value;
            s' == Feed(config, s, data, at).value && |wire| == 1 && wire[0].at == at
  {
    assert [BodyRead(data, at)][1..] == [];
  }

  lemma DatasOfOne(c: BodyChunk)
    ensures RawBody([c]) == c.data
  {
    assert [c][..0] == [];
    assert Datas([c]) == [c.data];
    FlattenFew(c.data, []);
  }

  lemma LeadingBlankIsNormal(raw: Bytes)
    requires CR !in raw
    ensures Normalise(LeadingBlank(raw)) == LeadingBlank(raw)
  {
    assert CR !in LeadingBlank(raw);
    NormaliseFixes(LeadingBlank(raw));
  }

  lemma LeadingBlankFrames(raw: Bytes)
    ensures FirstBlank(LeadingBlank(raw)) == Some(0) && LeadingBlank(raw)[2..] == raw + [LF, LF]
  {
  }

  lemma LeadingBlankIsEmptyFrame(raw: Bytes)
    requires CR !in raw
    ensures HasEmptyFrame(LeadingBlank(raw))
  {
    LeadingBlankIsNormal(raw);
    LeadingBlankFrames(raw);
    var segments := Segments(LeadingBlank(raw));
    assert segments[0] == [] && |segments| >= 2;
  }

  lemma LeadingBlankIsRead(decode: Decoder, raw: Bytes, frame: SSEFrame)
    requires IsFrameBytes(raw) && |raw| + 4 <= MAX_SSE_BUFFER_BYTES
    requires FrameOf(decode, raw, false) == Returned((frame, false))
    ensures FeedOf(decode, [], false, LeadingBlank(raw)) == FeedEffect([], false, Accepted([frame]))
  {
    LeadingBlankIsNormal(raw);
    LeadingBlankFrames(raw);
    DrainOneFrame(decode, raw, false);
    DrainEmptyFrame(decode, LeadingBlank(raw), false);
    FreshFeed(decode, LeadingBlank(raw));
  }
  lemma CloseKeepsRecord(config: Config, s: Capture, closeAt: Nanos, closedAt: Nanos)
    requires CloseBoth(s, closeAt, closedAt).Returned?
    ensures var s' := CloseBoth(s, closeAt, closedAt).value;
            s.delivery.Some? && s'.delivery == s.delivery && s'.chunks == s.chunks && s'.buffer == s.buffer
            && RecordOf(config, s') == RecordOf(config, s)
  {
  }

  // ---------------------------------------------------------------- replay, then record

  function ReadsOf(chunks: seq<WireChunk>): seq<BodyRead> {
    if chunks == [] then [] else [BodyRead(chunks[0].data, chunks[0].at)] + ReadsOf(chunks[1..])
  }

  lemma {:induction false} ReplayedReadsRecord(config: Config, s: Capture, chunks: seq<WireChunk>)
    requires ReplayChunks(config, s, chunks).Returned?
    ensures RunReads(config, s, ReadsOf(chunks)) == Returned((ReplayChunks(config, s, chunks).value, chunks))
    decreases |chunks|
  {
    if chunks != [] {
      var c := chunks[0];
      var next := Feed(config, s, c.data, c.at).value;
      ReplayedReadsRecord(config, next, chunks[1..]);
      assert ReadsOf(chunks)[1..] == ReadsOf(chunks[1..]);
      assert [c] + chunks[1..] == chunks;
    }
  }

  /** A completed live run whose bytes hold no empty frame, and its record. */
  ghost predicate IsRecordOf(config: Config, live: LiveInput, capture: WireCapture) {
    && LiveRun(config, live).Returned? && LiveRun(config, live).value.1 == capture
    && !HasEmptyFrame(RawBody(LiveRun(config, live).value.0.chunks))
  }

  /** A capture is accepted by replay exactly when it is the record of a completed live run whose bytes
      hold no empty frame, and then the replay gives that run's parser record. */
  lemma ReplayAcceptsExactlyRecords(config: Config, capture: WireCapture)
    ensures Replay(config, capture).Returned? <==> exists live :: IsRecordOf(config, live, capture)
    ensures forall live :: (IsRecordOf(config, live, capture)
                            ==> && LiveRun(config, live).value.0.delivery.Some?
                                && Replay(config, capture) == Returned(RecordOf(config, LiveRun(config, live).value.0)))
  {
    forall live | IsRecordOf(config, live, capture)
      ensures LiveRun(config, live).value.0.delivery.Some?
      ensures Replay(config, capture) == Returned(RecordOf(config, LiveRun(config, live).value.0))
    {
      RecordThenReplayExactly(config, live);
    }
    if Replay(config, capture).Returned? {
      var headed := AcceptHeaders(config, Opened(config), capture.xRequestId, capture.headersAt).value;
      var input := ReadsOf(capture.chunks);
      ReplayedReadsRecord(config, headed, capture.chunks);
      var live := LiveInput(capture.xRequestId, capture.headersAt, input, capture.closeAt, capture.closedAt);
      assert IsRecordOf(config, live, capture);
    }
  }

  // ---------------------------------------------------------------- the contract of a capture

  /** What the contracts of the capture and of its HTTP exchange demand of the clocks and chunks, given
      the parser replay retained with it; the clocks of the abort records are not part of it. */
  predicate CaptureIsValid(config: Config, c: WireCapture, r: ParserReplay) {
    && c.xRequestId == config.externalId
    && c.chunks != [] && (forall i :: 0 <= i < |c.chunks| ==> ChunkIsValid(c.chunks[i]))
    && ChunksSorted(c.chunks) && FramesDoNotOverlap(None, c.chunks)
    && config.dispatchAt < c.headersAt < c.chunks[0].at <= r.delivery.at <= c.closeAt <= c.closedAt
    && c.headersAt <= BodyCompleteAt(c.chunks) <= c.closeAt
    && r.delivery.chunkOrdinal < |c.chunks| && c.chunks[r.delivery.chunkOrdinal].at == r.delivery.at
  }

  /** The contract, clock by clock: dispatch, headers and first chunk strictly in order, chunks and frames in
      order behind them, the delivery at the clock of the chunk it names, nothing behind the close. */
  lemma CaptureIsValidExactly(config: Config, c: WireCapture, r: ParserReplay)
    ensures CaptureIsValid(config, c, r)
            <==> && c.xRequestId == config.externalId && |c.chunks| > 0 && Follow(c.chunks)
                 && config.dispatchAt < c.headersAt < c.chunks[0].at <= r.delivery.at
                 && r.delivery.at <= c.closeAt <= c.closedAt
                 && (forall i :: 0 <= i < |c.chunks| ==> NotBehind(c.chunks[i], c.closeAt))
                 && r.delivery.chunkOrdinal < |c.chunks| && c.chunks[r.delivery.chunkOrdinal].at == r.delivery.at
  {
    ChunksFollowExactly(c.chunks);
    BodyCompleteExactly(c.chunks, c.closeAt);
    BodyCompleteBehindFirst(c.chunks);
  }

  /** Chunk for chunk what a run read. */
  predicate Matches(wire: seq<WireChunk>, chunks: seq<BodyChunk>) {
    |wire| == |chunks| && forall i :: 0 <= i < |wire| ==> wire[i].data == chunks[i].data && wire[i].at == chunks[i].at
  }

  lemma {:induction false} ClocksAre(events: seq<Event>, at: Nanos)
    requires forall i :: 0 <= i < |events| ==> events[i].at == at
    ensures forall i :: 0 <= i < |Clocks(events)| ==> Clocks(events)[i] == at
  {
    if events != [] {
      ClocksAre(events[1..], at);
    }
  }

  /** A retained chunk meets its contract: all the frames it completes bear its own clock. */
  lemma RetainedChunkIsValid(config: Config, s: Capture, data: Bytes, at: Nanos)
    requires Waiting(s) && Feed(config, s, data, at).Returned?
    ensures var s' := Feed(config, s, data, at).value; var c := WireChunk(data, at, NewOffsets(s, s'));
            && ChunkIsValid(c) && s.lastAt <= at == s'.lastAt
            && forall i :: 0 <= i < |c.frameOffsets| ==> c.frameOffsets[i] == at
  {
    OneDelivery(config, s, data, at);
    var s' := Feed(config, s, data, at).value;
    var behind := s'.events[|s.events|..];
    assert forall i :: 0 <= i < |behind| ==> behind[i] == s'.events[|s.events| + i];
    ClocksAre(behind, at);
  }

  lemma {:induction false} RecordedChunksInOrder(config: Config, s: Capture, input: seq<BodyRead>)
    requires Waiting(s) && RunReads(config, s, input).Returned?
    ensures var (s', wire) := RunReads(config, s, input).value;
            && InOrderBetween(s.lastAt, wire, s'.lastAt)
            && (forall i :: 0 <= i < |wire| ==> ChunkIsValid(wire[i]))
            && |s.chunks| <= |s'.chunks| && Matches(wire, s'.chunks[|s.chunks|..])
            && (forall i :: 0 <= i < |s.chunks| ==> s'.chunks[i] == s.chunks[i])
    decreases |input|
  {
    if input != [] {
      var next := Feed(config, s, input[0].data, input[0].at).value;
      OneDelivery(config, s, input[0].data, input[0].at);
      RetainedChunkIsValid(config, s, input[0].data, input[0].at);
      if next.delivery.None? {
        RecordedChunksInOrder(config, next, input[1..]);
      } else {
        NothingAfterDelivery(config, next, input[1..]);
      }
      var c := WireChunk(input[0].data, input[0].at, NewOffsets(s, next));
      var rest := RunReads(config, next, input[1..]).value;
      InOrderCons(s.lastAt, c, next.lastAt, rest.1, rest.0.lastAt);
      MatchesCons(s.chunks, c, rest.1, rest.0.chunks);
    }
  }

  /** One more retained chunk in front of those that match. */
  lemma MatchesCons(before: seq<BodyChunk>, c: WireChunk, rest: seq<WireChunk>, after: seq<BodyChunk>)
    requires |before| + 1 <= |after| && Matches(rest, after[|before| + 1..])
    requires forall i :: 0 <= i < |before| + 1 ==> after[i] == (before + [BodyChunk(c.at, c.data)])[i]
    ensures Matches([c] + rest, after[|before|..])
    ensures forall i :: 0 <= i < |before| ==> after[i] == before[i]
  {
    assert after[|before|..] == [after[|before|]] + after[|before| + 1..];
  }

  /** The record of a completed live run meets the capture's contract if and only if the headers came
      strictly behind the dispatch and the first chunk strictly behind the headers; otherwise the capture
      is refused before it could be replayed. */
  lemma RecordMeetsContractExactly(config: Config, live: LiveInput)
    requires LiveRun(config, live).Returned?
    ensures var (s, capture) := LiveRun(config, live).value;
            && s.delivery.Some? && capture.chunks != []
            && (CaptureIsValid(config, capture, RecordOf(config, s))
                <==> config.dispatchAt < live.headersAt < capture.chunks[0].at)
  {
    var headed := AcceptHeaders(config, Opened(config), live.xRequestId, live.headersAt).value;
    var run := RunReads(config, headed, live.input).value;
    RunsDeliverOnce(config, headed, live.input);
    RecordedChunksInOrder(config, headed, live.input);
    CloseKeepsRecord(config, run.0, live.closeAt, live.closedAt);
    assert run.0.chunks[0..] == run.0.chunks;
    assert FramesDoNotOverlap(None, run.1);
    SortedFromFirst(run.1, |run.1| - 1);
    BodyCompleteBehindFirst(run.1);
  }

  lemma {:induction false} SortedFromFirst(chunks: seq<WireChunk>, k: int)
    requires ChunksSorted(chunks) && k < |chunks|
    ensures k >= 0 ==> chunks[0].at <= chunks[k].at
    decreases k
  {
    if k > 0 {
      SortedFromFirst(chunks, k - 1);
    }
  }

  // ---------------------------------------------------------------- pending bytes

  /** A read moves the parser's buffer and flag as the parser alone would. */
  lemma FeedMovesParser(config: Config, s: Capture, chunk: Bytes, at: Nanos)
    requires Feed(config, s, chunk, at).Returned? && Waiting(s)
    ensures var s' := Feed(config, s, chunk, at).value; var effect := FeedOf(config.decode, s.buffer, s.done, chunk);
            effect.status.Accepted? && s'.buffer == effect.buffer && s'.done == effect.done
            && s'.chunks == s.chunks + [BodyChunk(at, chunk)]
  {
    var start := StartRead(config, s, chunk, at).value;
    assert Fits(start.0, |s.events|, at);
    FramesFit(config, start.0, start.1, at, |s.events|);
  }

  ghost predicate InStep(config: Config, s: Capture) {
    var run := ReadAll(config.decode, Datas(s.chunks));
    run.fault == NoFault && run.buffer == s.buffer && run.done == s.done
      && forall i :: 0 <= i < |s.chunks| ==> s.chunks[i].data != []
  }

  lemma FeedStaysInStep(config: Config, s: Capture, chunk: Bytes, at: Nanos)
    requires Feed(config, s, chunk, at).Returned? && Waiting(s) && InStep(config, s)
    ensures InStep(config, Feed(config, s, chunk, at).value)
  {
    FeedMovesParser(config, s, chunk, at);
    var chunks := s.chunks + [BodyChunk(at, chunk)];
    assert chunks[..|s.chunks|] == s.chunks;
    ReadAllSnoc(config.decode, Datas(s.chunks), chunk);
  }

  lemma {:induction false} RunsStayInStep(config: Config, s: Capture, input: seq<BodyRead>)
    requires RunReads(config, s, input).Returned? && Waiting(s) && InStep(config, s)
    ensures InStep(config, RunReads(config, s, input).value.0)
    decreases |input|
  {
    if input != [] {
      var next := Feed(config, s, input[0].data, input[0].at).value;
      FeedStaysInStep(config, s, input[0].data, input[0].at);
      OneDelivery(config, s, input[0].data, input[0].at);
      if next.delivery.None? {
        RunsStayInStep(config, next, input[1..]);
      } else {
        NothingAfterDelivery(config, next, input[1..]);
      }
    }
  }

  lemma DatasInit(chunks: seq<BodyChunk>)
    requires chunks != []
    ensures Datas(chunks) == Datas(chunks[..|chunks| - 1]) + [chunks[|chunks| - 1].data]
  {
  }

  /** A completed live run stands where the parser stands behind its chunks, the last of them not empty. */
  lemma LiveRunIsInStep(config: Config, live: LiveInput)
    requires LiveRun(config, live).Returned?
    ensures var s := LiveRun(config, live).value.0; s.delivery.Some? && s.chunks != [] && InStep(config, s)
  {
    RecordThenReplayExactly(config, live);
    var headed := AcceptHeaders(config, Opened(config), live.xRequestId, live.headersAt).value;
    RunsStayInStep(config, headed, live.input);
    RunsDeliverOnce(config, headed, live.input);
    CloseKeepsRecord(config, RunReads(config, headed, live.input).value.0, live.closeAt, live.closedAt);
  }

  /** What the record calls the parser's pending bytes is the parser's own buffer, provided no CR CR LF
      lies wholly before the last chunk; and where the bytes read whole are accepted too, only then. */
  lemma RecordedPendingIsParserBuffer(config: Config, live: LiveInput)
    requires LiveRun(config, live).Returned?
    ensures var s := LiveRun(config, live).value.0;
            && s.delivery.Some? && s.chunks != []
            && (!HasCrCrLf(RawBody(s.chunks[..|s.chunks| - 1])) ==> RecordOf(config, s).parserPending == s.buffer)
            && (KeepsCarriageReturns(config.decode) && Canonical(config.decode, RawBody(s.chunks)).fault == NoFault
                ==> (RecordOf(config, s).parserPending == s.buffer
                  <==> !HasCrCrLf(RawBody(s.chunks[..|s.chunks| - 1]))))
  {
    var s := LiveRun(config, live).value.0;
    LiveRunIsInStep(config, live);
    var init, last := s.chunks[..|s.chunks| - 1], s.chunks[|s.chunks| - 1].data;
    DatasInit(s.chunks);
    if !HasCrCrLf(RawBody(init)) {
      PendingMatchesBehind(config.decode, Datas(init), last);
    } else if KeepsCarriageReturns(config.decode) && Canonical(config.decode, RawBody(s.chunks)).fault == NoFault {
      PendingMatchesExactly(config.decode, Datas(init), last);
    }
  }
}
