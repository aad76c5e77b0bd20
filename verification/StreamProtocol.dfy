/** The four-terminal completion stream of `stage2_protocol.py`: headers, body reads, frames,
    generation terminal, usage terminal, `[DONE]`, and the close that produces the evidence. */
module StreamProtocol {
  import opened Prelude
  import opened Sse
  import opened Payload
  import opened StreamContract

  datatype Config = Config(externalId: string, sentPrompt: TokenIds, dispatchAt: Nanos, decode: Decoder,
    decodeJson: JsonDecoder)

  datatype BodyChunk = BodyChunk(at: Nanos, data: Bytes)
  datatype RetainedEvent = RetainedEvent(at: Nanos, frame: SSEFrame)

  /** The fields of the validator. */
  datatype Stream = Stream(
    buffer: Bytes,
    done: bool,
    headersAt: Option<Nanos>,
    firstBodyAt: Option<Nanos>,
    generationAt: Option<Nanos>,
    usageAt: Option<Nanos>,
    protocolAt: Option<Nanos>,
    transportAt: Option<Nanos>,
    tokenEvents: seq<TokenEvent>,
    returnedPrompt: Option<TokenIds>,
    outputIds: TokenIds,
    textParts: seq<string>,
    metrics: Option<ServerMetrics>,
    terminalCarriedTokens: Option<bool>,
    lastAt: Nanos,
    chunks: seq<BodyChunk>,
    events: seq<RetainedEvent>)

  function Opened(config: Config): Stream {
    Stream([], false, None, None, None, None, None, None, [], None, [], [], None, None, config.dispatchAt, [], [])
  }

  /** The readings a frame clock still has to give; `None` when the validator has no frame clock. */
  type FrameClock = Option<seq<Nanos>>

  // ---------------------------------------------------------------- the steps, as functions

  function AcceptHeaders(config: Config, s: Stream, xRequestId: string, at: Nanos): Result<Stream> {
    if s.headersAt.Some? || xRequestId != config.externalId || at < s.lastAt then Raised
    else Returned(s.(lastAt := at, headersAt := Some(at)))
  }

  function IdsOf(choice: Choice): TokenIds
    requires choice.Choice?
  {
    if choice.tokenIds.Ids? then choice.tokenIds.ids else []
  }

  /** A generation event is refused for its shape or for its place in the stream. */
  predicate RefusesGeneration(s: Stream, choice: Choice) {
    || s.usageAt.Some? || s.generationAt.Some?
    || choice.NotAnObject? || !choice.indexIsZero || choice.text.None?
    || choice.tokenIds.Null? || choice.tokenIds.BadIds? || choice.finish.OtherReason?
    || choice.prompt.BadIds? || (choice.prompt.Ids? && s.returnedPrompt.Some?)
    || |s.outputIds + IdsOf(choice)| > OUTPUT_TOKEN_COUNT
    || (choice.finish.Length? && |s.outputIds + IdsOf(choice)| != OUTPUT_TOKEN_COUNT)
  }

  function AcceptGeneration(s: Stream, choice: Choice, at: Nanos): Result<Stream> {
    if RefusesGeneration(s, choice) then Raised
    else
      var returned := if choice.prompt.Ids? then Some(choice.prompt.ids) else s.returnedPrompt;
      Returned(KeepGeneration(s.(returnedPrompt := returned, outputIds := s.outputIds + IdsOf(choice)), choice, at))
  }

  /** The token event of a generation event; the first one bears the prompt returned so far. */
  function EventOf(s: Stream, choice: Choice, at: Nanos): TokenEvent
    requires choice.Choice? && choice.text.Some?
  {
    TokenEvent(at, IdsOf(choice), choice.text.value, choice.finish.Length?,
      if s.tokenEvents == [] then s.returnedPrompt else None)
  }

  /** Text, event and terminal of a generation event whose prompt and ids have been taken. */
  function KeepGeneration(s: Stream, choice: Choice, at: Nanos): Stream
    requires choice.Choice? && choice.text.Some?
  {
    s.(textParts := s.textParts + [choice.text.value],
       tokenEvents := s.tokenEvents + [EventOf(s, choice, at)],
       generationAt := if choice.finish.Length? then Some(at) else s.generationAt,
       terminalCarriedTokens := if choice.finish.Length? then Some(IdsOf(choice) != []) else s.terminalCarriedTokens)
  }

  function AcceptUsage(s: Stream, usage: Checked<()>, metrics: Checked<ServerMetrics>, at: Nanos): Result<Stream> {
    if s.generationAt.None? || s.usageAt.Some? || at <= s.generationAt.value then Raised
    else if !usage.Good? || !metrics.Good? then Raised
    else Returned(s.(metrics := Some(metrics.value), usageAt := Some(at)))
  }

  function AcceptResponse(config: Config, s: Stream, response: Response, at: Nanos): Result<Stream> {
    if response.Malformed? || response.id != ResponseId(config.externalId) || response.choices.NotAList? then Raised
    else if response.choices.items == [] then AcceptUsage(s, response.usage, response.metrics, at)
    else if |response.choices.items| != 1 then Raised
    else AcceptGeneration(s, response.choices.items[0], at)
  }

  function AcceptFrame(config: Config, s: Stream, frame: SSEFrame, at: Nanos): Result<Stream> {
    var kept := s.(events := s.events + [RetainedEvent(at, frame)]);
    if s.protocolAt.Some? then Raised
    else if frame.kind.Comment? then Returned(kept)
    else if frame.kind.Done? then
      if s.usageAt.None? || at <= s.usageAt.value then Raised else Returned(kept.(protocolAt := Some(at)))
    else if frame.data.None? then Raised
    else AcceptResponse(config, kept, config.decodeJson(frame.data.value), at)
  }

  /** One frame and what the frame clock has left. */
  function AcceptTimedFrame(
    config: Config, s: Stream, frame: SSEFrame, clock: FrameClock): Result<(Stream, FrameClock)> {
    if clock.None? then
      match AcceptFrame(config, s, frame, s.lastAt)
      case Raised => Raised
      case Returned(s') => Returned((s', None))
    else if clock.value == [] || clock.value[0] < s.lastAt then Raised
    else
      match AcceptFrame(config, s.(lastAt := clock.value[0]), frame, clock.value[0])
      case Raised => Raised
      case Returned(s') => Returned((s', Some(clock.value[1..])))
  }

  /** Frames behind the first of a read: each takes a reading of the frame clock, if there is one. */
  function AcceptFrames(
    config: Config, s: Stream, frames: seq<SSEFrame>, clock: FrameClock): Result<(Stream, FrameClock)>
    decreases |frames|
  {
    if frames == [] then Returned((s, clock))
    else
      match AcceptTimedFrame(config, s, frames[0], clock)
      case Raised => Raised
      case Returned(next) => AcceptFrames(config, next.0, frames[1..], next.1)
  }

  /** The state in which a read starts on its frames, or a refusal. */
  function StartRead(config: Config, s: Stream, chunk: Bytes, at: Nanos): Result<(Stream, seq<SSEFrame>)> {
    if s.transportAt.Some? || s.headersAt.None? || at < s.lastAt then Raised
    else
      var effect := FeedOf(config.decode, s.buffer, s.done, chunk);
      if !effect.status.Accepted? then Raised
      else Returned((s.(chunks := if chunk == [] then s.chunks else s.chunks + [BodyChunk(at, chunk)],
                        lastAt := at,
                        firstBodyAt := if chunk != [] && s.firstBodyAt.None? then Some(at) else s.firstBodyAt,
                        buffer := effect.buffer,
                        done := effect.done),
                     effect.status.frames))
  }

  function Feed(config: Config, s: Stream, chunk: Bytes, at: Nanos, clock: FrameClock): Result<(Stream, FrameClock)> {
    match StartRead(config, s, chunk, at)
    case Raised => Raised
    case Returned(start) =>
      if start.1 == [] then Returned((start.0, clock))
      else
        match AcceptFrame(config, start.0, start.1[0], at)
        case Raised => Raised
        case Returned(s') => AcceptFrames(config, s', start.1[1..], clock)
  }

  /** What `close_transport` checks before it turns to the evidence. */
  predicate TransportEnds(config: Config, s: Stream, at: Nanos, chain: IdentityChain) {
    && s.transportAt.None?
    && s.lastAt <= at
    && FinalizeAccepts(s.buffer, s.done)
    && s.protocolAt.Some? && s.protocolAt.value < at
    && chain.externalId == config.externalId
    && chain.responseId == ResponseId(config.externalId)
    && chain.servingItemId == ServingItemId(config.externalId)
    && !chain.aborted
  }

  /** What `_evidence` checks before it builds a record. */
  predicate IsComplete(config: Config, s: Stream) {
    && s.headersAt.Some? && s.firstBodyAt.Some? && s.generationAt.Some? && s.usageAt.Some? && s.protocolAt.Some?
    && s.returnedPrompt == Some(config.sentPrompt)
    && s.metrics.Some? && s.terminalCarriedTokens.Some?
    && Bearing(s.tokenEvents) != []
  }

  predicate MayClose(config: Config, s: Stream, at: Nanos, chain: IdentityChain) {
    TransportEnds(config, s, at, chain) && IsComplete(config, s)
  }

  function Closing(s: Stream, at: Nanos): Stream {
    s.(lastAt := at, transportAt := Some(at))
  }

  /** The record that `_evidence` builds. */
  function Evidence(config: Config, s: Stream, at: Nanos, chain: IdentityChain): RequestEvidence
    requires MayClose(config, s, at, chain)
    requires !Grouped(s.tokenEvents) ==> |Bearing(s.tokenEvents)| > 1
  {
    var bearing := Bearing(s.tokenEvents);
    var firstToken := bearing[0].at;
    RequestEvidence(
      config.externalId, ResponseId(config.externalId), ServingItemId(config.externalId), chain.internalId,
      config.sentPrompt, s.returnedPrompt.value, s.tokenEvents, s.outputIds, s.terminalCarriedTokens.value,
      s.metrics.value, Concat(s.textParts),
      Timing(config.dispatchAt, s.headersAt.value, s.firstBodyAt.value, firstToken,
             s.generationAt.value, s.usageAt.value, s.protocolAt.value, at),
      if Grouped(s.tokenEvents) then GroupedTokens else Value((s.generationAt.value - firstToken) as real / 31.0),
      if Grouped(s.tokenEvents) then GroupedTokens else Value(Mean(Gaps(bearing))),
      Gaps(bearing))
  }

  /** `close_transport`: the evidence record, or a refusal, its own contract included. */
  function Close(config: Config, s: Stream, at: Nanos, chain: IdentityChain): Result<RequestEvidence> {
    if !MayClose(config, s, at, chain) || (!Grouped(s.tokenEvents) && |Bearing(s.tokenEvents)| == 1) then Raised
    else
      var e := Evidence(config, s, at, chain);
      if EvidenceIsValid(e) then Returned(e) else Raised
  }

  // ---------------------------------------------------------------- what every run keeps

  predicate InOrder(earlier: Option<Nanos>, later: Option<Nanos>) {
    later.Some? ==> earlier.Some? && earlier.value <= later.value
  }

  predicate StrictlyInOrder(earlier: Option<Nanos>, later: Option<Nanos>) {
    later.Some? ==> earlier.Some? && earlier.value < later.value
  }

  predicate ClocksInOrder(config: Config, s: Stream) {
    && InOrder(Some(config.dispatchAt), s.headersAt)
    && InOrder(s.headersAt, s.firstBodyAt)
    && InOrder(s.firstBodyAt, s.generationAt)
    && StrictlyInOrder(s.generationAt, s.usageAt)
    && StrictlyInOrder(s.usageAt, s.protocolAt)
    && config.dispatchAt <= s.lastAt
    && (s.headersAt.Some? ==> s.headersAt.value <= s.lastAt)
    && (s.firstBodyAt.Some? ==> s.firstBodyAt.value <= s.lastAt)
    && (s.generationAt.Some? ==> s.generationAt.value <= s.lastAt)
    && (s.usageAt.Some? ==> s.usageAt.value <= s.lastAt)
    && (s.protocolAt.Some? ==> s.protocolAt.value <= s.lastAt)
  }

  predicate EventsInOrder(s: Stream) {
    && (s.tokenEvents != [] ==> s.firstBodyAt.Some?)
    && (forall i :: 0 <= i < |s.tokenEvents| ==> s.firstBodyAt.value <= s.tokenEvents[i].at <= s.lastAt)
    && (forall i, j :: 0 <= i < j < |s.tokenEvents| ==> s.tokenEvents[i].at <= s.tokenEvents[j].at)
  }

  /** Token ids and text are what the events carried, and only the last event can be the terminal. */
  predicate EventsReconcile(s: Stream) {
    && s.outputIds == AllIds(s.tokenEvents)
    && |s.outputIds| <= OUTPUT_TOKEN_COUNT
    && s.textParts == Texts(s.tokenEvents)
    && (forall i :: 0 <= i < |s.tokenEvents| - 1 ==> !s.tokenEvents[i].finished)
    && (s.generationAt.None?
        ==> s.terminalCarriedTokens.None? && forall i :: 0 <= i < |s.tokenEvents| ==> !s.tokenEvents[i].finished)
    && (s.generationAt.Some? ==>
          && s.tokenEvents != [] && |s.outputIds| == OUTPUT_TOKEN_COUNT
          && var last := s.tokenEvents[|s.tokenEvents| - 1];
             last.finished && last.at == s.generationAt.value && s.terminalCarriedTokens == Some(last.ids != []))
  }

  /** Prompt ids are kept on the first generation event or on none. */
  predicate PromptReconciles(s: Stream) {
    && (forall i :: 1 <= i < |s.tokenEvents| ==> s.tokenEvents[i].prompt.None?)
    && (s.tokenEvents != [] && s.tokenEvents[0].prompt.Some? ==> s.tokenEvents[0].prompt == s.returnedPrompt)
    && (s.tokenEvents == [] ==> s.returnedPrompt.None?)
  }

  predicate Consistent(config: Config, s: Stream) {
    && ClocksInOrder(config, s)
    && EventsInOrder(s)
    && EventsReconcile(s)
    && PromptReconciles(s)
    && (s.usageAt.Some? ==> s.metrics.Some?)
    && (s.firstBodyAt.None? ==> s.buffer == [])
  }

  lemma OpenedIsConsistent(config: Config)
    ensures Consistent(config, Opened(config))
  {
  }

  lemma HeadersKeepConsistent(config: Config, s: Stream, xRequestId: string, at: Nanos)
    requires Consistent(config, s) && AcceptHeaders(config, s, xRequestId, at).Returned?
    ensures Consistent(config, AcceptHeaders(config, s, xRequestId, at).value)
  {
  }

  lemma GenerationKeepsOrder(config: Config, s: Stream, choice: Choice, at: Nanos)
    requires Consistent(config, s) && s.firstBodyAt.Some? && at == s.lastAt
    requires AcceptGeneration(s, choice, at).Returned?
    ensures ClocksInOrder(config, AcceptGeneration(s, choice, at).value)
            && EventsInOrder(AcceptGeneration(s, choice, at).value)
  {
  }

  lemma GenerationKeepsEvents(config: Config, s: Stream, choice: Choice, at: Nanos)
    requires Consistent(config, s) && AcceptGeneration(s, choice, at).Returned?
    ensures EventsReconcile(AcceptGeneration(s, choice, at).value)
  {
    var s' := AcceptGeneration(s, choice, at).value;
    var event := s'.tokenEvents[|s.tokenEvents|];
    assert s'.tokenEvents[..|s.tokenEvents|] == s.tokenEvents;
    AllIdsSnoc(s.tokenEvents, event);
    TextsSnoc(s.tokenEvents, event);
  }

  lemma TextsSnoc(events: seq<TokenEvent>, event: TokenEvent)
    ensures Texts(events + [event]) == Texts(events) + [event.text]
  {
  }

  lemma GenerationKeepsPrompt(config: Config, s: Stream, choice: Choice, at: Nanos)
    requires Consistent(config, s) && AcceptGeneration(s, choice, at).Returned?
    ensures PromptReconciles(AcceptGeneration(s, choice, at).value)
  {
  }

  lemma GenerationKeepsConsistent(config: Config, s: Stream, choice: Choice, at: Nanos)
    requires Consistent(config, s) && s.firstBodyAt.Some? && at == s.lastAt
    requires AcceptGeneration(s, choice, at).Returned?
    ensures Consistent(config, AcceptGeneration(s, choice, at).value)
  {
    GenerationKeepsOrder(config, s, choice, at);
    GenerationKeepsEvents(config, s, choice, at);
    GenerationKeepsPrompt(config, s, choice, at);
  }

  lemma UsageKeepsConsistent(config: Config, s: Stream, usage: Checked<()>, metrics: Checked<ServerMetrics>, at: Nanos)
    requires Consistent(config, s) && at == s.lastAt && AcceptUsage(s, usage, metrics, at).Returned?
             && s.protocolAt.None?
    ensures Consistent(config, AcceptUsage(s, usage, metrics, at).value)
  {
  }

  lemma ResponseKeepsConsistent(config: Config, s: Stream, response: Response, at: Nanos)
    requires Consistent(config, s) && s.firstBodyAt.Some? && at == s.lastAt && s.protocolAt.None?
    requires AcceptResponse(config, s, response, at).Returned?
    ensures var s' := AcceptResponse(config, s, response, at).value;
            Consistent(config, s') && s'.firstBodyAt == s.firstBodyAt && s'.lastAt == at && s'.events == s.events
  {
    if response.choices.items == [] {
      UsageKeepsConsistent(config, s, response.usage, response.metrics, at);
    } else {
      GenerationKeepsConsistent(config, s, response.choices.items[0], at);
    }
  }

  lemma DoneKeepsConsistent(config: Config, s: Stream, at: Nanos)
    requires Consistent(config, s) && at == s.lastAt && s.usageAt.Some? && s.usageAt.value < at
    ensures Consistent(config, s.(protocolAt := Some(at)))
  {
  }

  lemma FrameKeepsConsistent(config: Config, s: Stream, frame: SSEFrame, at: Nanos)
    requires Consistent(config, s) && s.firstBodyAt.Some? && at == s.lastAt
    requires AcceptFrame(config, s, frame, at).Returned?
    ensures var s' := AcceptFrame(config, s, frame, at).value;
            Consistent(config, s') && s'.firstBodyAt == s.firstBodyAt && s'.lastAt == at
            && s'.events == s.events + [RetainedEvent(at, frame)]
  {
    var kept := s.(events := s.events + [RetainedEvent(at, frame)]);
    EventsDoNotMatter(config, s, kept.events);
    if frame.kind.Done? {
      DoneKeepsConsistent(config, kept, at);
    } else if frame.kind.Data? {
      ResponseKeepsConsistent(config, kept, config.decodeJson(frame.data.value), at);
    }
  }

  lemma EventsDoNotMatter(config: Config, s: Stream, events: seq<RetainedEvent>)
    requires Consistent(config, s)
    ensures Consistent(config, s.(events := events))
  {
  }

  lemma {:induction false} FramesKeepConsistent(config: Config, s: Stream, frames: seq<SSEFrame>, clock: FrameClock)
    requires Consistent(config, s) && s.firstBodyAt.Some?
    requires AcceptFrames(config, s, frames, clock).Returned?
    ensures Consistent(config, AcceptFrames(config, s, frames, clock).value.0)
    decreases |frames|
  {
    if frames != [] {
      var s1 := if clock.None? then s else s.(lastAt := clock.value[0]);
      FrameKeepsConsistent(config, s1, frames[0], s1.lastAt);
      var next := AcceptTimedFrame(config, s, frames[0], clock).value;
      FramesKeepConsistent(config, next.0, frames[1..], next.1);
    }
  }

  /** Every accepted read keeps the invariant, whatever the bytes and the clock. */
  lemma FeedKeepsConsistent(config: Config, s: Stream, chunk: Bytes, at: Nanos, clock: FrameClock)
    requires Consistent(config, s) && Feed(config, s, chunk, at, clock).Returned?
    ensures Consistent(config, Feed(config, s, chunk, at, clock).value.0)
  {
    var start := StartRead(config, s, chunk, at).value;
    assert Consistent(config, start.0);
    if start.1 != [] {
      FrameKeepsConsistent(config, start.0, start.1[0], at);
      FramesKeepConsistent(config, AcceptFrame(config, start.0, start.1[0], at).value, start.1[1..], clock);
    }
  }

  // ---------------------------------------------------------------- the producer meets the contract

  /** Without grouping, 32 ids mean 32 token-bearing events, hence 31 gaps. */
  lemma UngroupedHas32(config: Config, s: Stream)
    requires Consistent(config, s) && s.generationAt.Some? && !Grouped(s.tokenEvents)
    ensures |Bearing(s.tokenEvents)| == OUTPUT_TOKEN_COUNT && |Gaps(Bearing(s.tokenEvents))| == OUTPUT_TOKEN_COUNT - 1
  {
    UngroupedCounts(s.tokenEvents);
  }

  /** The main result: in every run that reaches the evidence record, the record satisfies the whole
      contract exactly when the prompt ids arrived on the first generation event; the timing part and
      the 32 ids hold regardless. */
  lemma ProducerMeetsContract(config: Config, s: Stream, at: Nanos, chain: IdentityChain)
    requires |config.sentPrompt| == PROMPT_TOKEN_COUNT && ChainIsValid(chain)
    requires Consistent(config, s) && MayClose(config, s, at, chain)
    ensures !Grouped(s.tokenEvents) ==> |Bearing(s.tokenEvents)| > 1
    ensures var e := Evidence(config, s, at, chain);
            && TimingIsValid(e.timing)
            && |e.finalIds| == OUTPUT_TOKEN_COUNT
            && (EvidenceIsValid(e) <==> s.tokenEvents[0].prompt.Some?)
  {
    if !Grouped(s.tokenEvents) {
      UngroupedHas32(config, s);
    }
    var e := Evidence(config, s, at, chain);
    TimingHolds(config, s, at, chain);
    LatenciesHold(config, s, at, chain);
    assert TerminalReconciles(e);
    if s.tokenEvents[0].prompt.Some? {
      PromptOnFirst(s.tokenEvents);
    }
  }

  lemma TimingHolds(config: Config, s: Stream, at: Nanos, chain: IdentityChain)
    requires Consistent(config, s) && MayClose(config, s, at, chain)
    requires !Grouped(s.tokenEvents) ==> |Bearing(s.tokenEvents)| > 1
    ensures TimingIsValid(Evidence(config, s, at, chain).timing)
  {
    BearingFacts(s.tokenEvents, s.firstBodyAt.value, s.generationAt.value);
  }

  lemma LatenciesHold(config: Config, s: Stream, at: Nanos, chain: IdentityChain)
    requires Consistent(config, s) && MayClose(config, s, at, chain)
    requires !Grouped(s.tokenEvents) ==> |Bearing(s.tokenEvents)| > 1
    ensures LatenciesReconcile(Evidence(config, s, at, chain))
  {
    var bearing := Bearing(s.tokenEvents);
    BearingFacts(s.tokenEvents, s.firstBodyAt.value, s.generationAt.value);
    GapsNonNegative(bearing);
    if !Grouped(s.tokenEvents) {
      MeanNonNegative(Gaps(bearing));
    }
  }
}
