/** Concrete completion streams at the two places where a run that went well is refused all the same:
    prompt ids on a later generation event, and a close at the clock of the last retained chunk. The bytes
    are those of ASCII data lines, under any decoder that reads ASCII; only the JSON decoder and the texts
    it reads as the three responses are left open. */
module StreamExamples {
  import opened Prelude
  import opened Sse
  import opened Ascii
  import opened SseChunking
  import opened SseFrames
  import opened Payload
  import opened StreamContract
  import opened StreamProtocol
  import opened StreamReplay
  import opened WireChunks

  // ---------------------------------------------------------------- the server's side

  const END := "[DONE]"
  const SENT: TokenIds := SomeIds(PROMPT_TOKEN_COUNT)
  const IDS: TokenIds := SomeIds(OUTPUT_TOKEN_COUNT)
  const METRICS := ServerMetrics([Some(1.5), None])

  function SomeIds(n: nat): (ids: TokenIds)
    ensures |ids| == n
  {
    if n == 0 then [] else SomeIds(n - 1) + [n]
  }

  /** The decoders of a client, and the JSON texts of the three responses it is served. */
  datatype Served = Served(
    decode: Decoder, decodeJson: JsonDecoder, tokens: string, terminal: string, usage: string)

  function PromptField(here: bool): IdsField {
    if here then Ids(SENT) else Missing
  }

  /** All 32 ids on one generation event. */
  function TokensResponse(prompt: bool): Response {
    var choice := Choice(true, Some("t"), Ids(IDS), NotFinished, PromptField(prompt));
    Response(ResponseId("req"), Items([choice]), Absent, Absent)
  }

  /** The finish on another. */
  function TerminalResponse(prompt: bool): Response {
    var choice := Choice(true, Some(""), Ids([]), Length, PromptField(prompt));
    Response(ResponseId("req"), Items([choice]), Absent, Absent)
  }

  function UsageResponse(): Response {
    Response(ResponseId("req"), Items([]), Good(()), Good(METRICS))
  }

  /** One line of ASCII that fits the buffer. */
  predicate IsLine(text: string) {
    IsDataText(text) && |text| <= 32_000
  }

  /** The three texts are lines that read as the three responses, the prompt on the first event or on the
      second. */
  ghost predicate Serves(served: Served, promptFirst: bool) {
    && ReadsAscii(served.decode)
    && IsLine(served.tokens) && IsLine(served.terminal) && IsLine(served.usage)
    && served.tokens != END && served.terminal != END && served.usage != END
    && served.decodeJson(served.tokens) == TokensResponse(promptFirst)
    && served.decodeJson(served.terminal) == TerminalResponse(!promptFirst)
    && served.decodeJson(served.usage) == UsageResponse()
  }

  /** There are such decoders and texts. */
  lemma SomeServed(promptFirst: bool) returns (served: Served)
    ensures Serves(served, promptFirst)
  {
    AsciiDecodeReadsAscii();
    var json: JsonDecoder := text =>
      if text == "1" then TokensResponse(promptFirst)
      else if text == "2" then TerminalResponse(!promptFirst) else UsageResponse();
    served := Served(AsciiDecode, json, "1", "2", "3");
    assert "1"[0] != "2"[0] && "3"[0] != "1"[0] && "3"[0] != "2"[0];
  }

  function Asked(served: Served): Config {
    Config("req", SENT, 0, served.decode, served.decodeJson)
  }

  const CHAIN := IdentityChain(
    "req", ResponseId("req"), ServingItemId("req"), ServingItemId("req") + "-01234567", false)

  function OnWire(text: string): Bytes {
    DataFrame(text) + [LF, LF]
  }

  /** The four frames at clocks two to five, and a last read of a bare newline at six. */
  function Reads(served: Served): seq<BodyRead> {
    [BodyRead(OnWire(served.tokens), 2)]
    + ([BodyRead(OnWire(served.terminal), 3)]
       + ([BodyRead(OnWire(served.usage), 4)] + ([BodyRead(OnWire(END), 5)] + [BodyRead([LF], 6)])))
  }

  function Live(served: Served, closeAt: Nanos): LiveInput {
    LiveInput("req", 1, Reads(served), None, closeAt, CHAIN)
  }

  // ---------------------------------------------------------------- frame by frame

  lemma LineIsRead(decode: Decoder, text: string)
    requires ReadsAscii(decode) && IsLine(text)
    ensures FeedOf(decode, [], false, OnWire(text)) == FeedEffect([], text == END, Accepted([DataOnly(text)]))
  {
    DataFrameReadsBack(decode, text);
    FrameIsRead(decode, DataFrame(text), DataOnly(text), text == END);
  }

  /** The state in which a frame's read starts. */
  function Arrived(s: Stream, text: string, at: Nanos): Stream {
    s.(chunks := s.chunks + [BodyChunk(at, OnWire(text))], lastAt := at,
       firstBodyAt := if s.firstBodyAt.None? then Some(at) else s.firstBodyAt, done := text == END)
  }

  /** A read leads from state to state. */
  ghost predicate Leads(served: Served, s: Stream, data: Bytes, at: Nanos, next: Stream) {
    Feed(Asked(served), s, data, at, None) == Returned((next, None))
  }

  predicate IsOpen(s: Stream, at: Nanos) {
    s.transportAt.None? && s.headersAt.Some? && s.lastAt <= at && s.buffer == [] && !s.done
  }

  lemma LineLeads(served: Served, s: Stream, text: string, at: Nanos, next: Stream)
    requires ReadsAscii(served.decode) && IsLine(text) && IsOpen(s, at)
    requires AcceptFrame(Asked(served), Arrived(s, text, at), DataOnly(text), at) == Returned(next)
    ensures Leads(served, s, OnWire(text), at, next)
  {
    LineIsRead(served.decode, text);
    assert StartRead(Asked(served), s, OnWire(text), at) == Returned((Arrived(s, text, at), [DataOnly(text)]));
    assert [DataOnly(text)][1..] == [];
  }

  // ---------------------------------------------------------------- the run, state by state

  function GotPrompt(here: bool): Option<TokenIds> {
    if here then Some(SENT) else None
  }

  function FirstEvent(promptFirst: bool): TokenEvent {
    TokenEvent(2, IDS, "t", false, GotPrompt(promptFirst))
  }

  const LAST_EVENT := TokenEvent(3, [], "", true, None)

  function Headed(served: Served): Stream {
    Opened(Asked(served)).(lastAt := 1, headersAt := Some(1))
  }

  lemma HeadersLead(served: Served)
    ensures AcceptHeaders(Asked(served), Opened(Asked(served)), "req", 1) == Returned(Headed(served))
  {
  }

  predicate IsGenerated(s: Stream, promptFirst: bool) {
    && IsOpen(s, 2) && s.firstBodyAt.Some?
    && s.generationAt.None? && s.usageAt.None? && s.protocolAt.None?
    && s.returnedPrompt == GotPrompt(promptFirst) && s.outputIds == IDS && s.tokenEvents == [FirstEvent(promptFirst)]
  }

  predicate IsFinished(s: Stream, promptFirst: bool) {
    && IsOpen(s, 3) && s.firstBodyAt.Some?
    && s.generationAt == Some(3) && s.usageAt.None? && s.protocolAt.None? && s.terminalCarriedTokens.Some?
    && s.returnedPrompt == Some(SENT) && s.tokenEvents == [FirstEvent(promptFirst), LAST_EVENT]
  }

  predicate IsUsed(s: Stream, promptFirst: bool) {
    && IsOpen(s, 4) && s.firstBodyAt.Some?
    && s.generationAt == Some(3) && s.usageAt == Some(4) && s.protocolAt.None? && s.terminalCarriedTokens.Some?
    && s.returnedPrompt == Some(SENT) && s.tokenEvents == [FirstEvent(promptFirst), LAST_EVENT] && s.metrics.Some?
  }

  predicate IsEnded(s: Stream, promptFirst: bool) {
    && s.transportAt.None? && s.headersAt.Some? && s.firstBodyAt.Some? && s.done
    && s.generationAt == Some(3) && s.usageAt == Some(4) && s.protocolAt == Some(5) && s.terminalCarriedTokens.Some?
    && s.returnedPrompt == Some(SENT) && s.tokenEvents == [FirstEvent(promptFirst), LAST_EVENT] && s.metrics.Some?
  }

  lemma TokensAreAccepted(served: Served, promptFirst: bool) returns (next: Stream)
    requires Serves(served, promptFirst)
    ensures AcceptFrame(Asked(served), Arrived(Headed(served), served.tokens, 2), DataOnly(served.tokens), 2)
            == Returned(next)
    ensures IsGenerated(next, promptFirst)
  {
    ConcatNothing(IDS);
    ConcatNothing([FirstEvent(promptFirst)]);
    next := AcceptFrame(Asked(served), Arrived(Headed(served), served.tokens, 2), DataOnly(served.tokens), 2).value;
  }

  lemma TokensLead(served: Served, promptFirst: bool) returns (next: Stream)
    requires Serves(served, promptFirst)
    ensures Leads(served, Headed(served), OnWire(served.tokens), 2, next) && IsGenerated(next, promptFirst)
  {
    next := TokensAreAccepted(served, promptFirst);
    LineLeads(served, Headed(served), served.tokens, 2, next);
  }

  lemma TerminalLeads(served: Served, promptFirst: bool, s: Stream) returns (next: Stream)
    requires Serves(served, promptFirst) && IsGenerated(s, promptFirst)
    ensures Leads(served, s, OnWire(served.terminal), 3, next) && IsFinished(next, promptFirst)
  {
    var accepted := AcceptFrame(Asked(served), Arrived(s, served.terminal, 3), DataOnly(served.terminal), 3);
    ConcatNothing(IDS);
    assert [FirstEvent(promptFirst)] + [LAST_EVENT] == [FirstEvent(promptFirst), LAST_EVENT];
    next := accepted.value;
    LineLeads(served, s, served.terminal, 3, next);
  }

  lemma UsageIsAccepted(served: Served, promptFirst: bool, s: Stream) returns (next: Stream)
    requires Serves(served, promptFirst) && IsFinished(s, promptFirst)
    ensures AcceptFrame(Asked(served), Arrived(s, served.usage, 4), DataOnly(served.usage), 4) == Returned(next)
    ensures IsUsed(next, promptFirst)
  {
    next := AcceptFrame(Asked(served), Arrived(s, served.usage, 4), DataOnly(served.usage), 4).value;
  }

  lemma UsageLeads(served: Served, promptFirst: bool, s: Stream) returns (next: Stream)
    requires Serves(served, promptFirst) && IsFinished(s, promptFirst)
    ensures Leads(served, s, OnWire(served.usage), 4, next) && IsUsed(next, promptFirst)
  {
    next := UsageIsAccepted(served, promptFirst, s);
    LineLeads(served, s, served.usage, 4, next);
  }

  lemma EndLeads(served: Served, promptFirst: bool, s: Stream) returns (next: Stream)
    requires Serves(served, promptFirst) && IsUsed(s, promptFirst)
    ensures Leads(served, s, OnWire(END), 5, next) && IsEnded(next, promptFirst) && next.lastAt == 5
            && next.buffer == []
  {
    var accepted := AcceptFrame(Asked(served), Arrived(s, END, 5), DataOnly(END), 5);
    next := accepted.value;
    EndIsLine();
    LineLeads(served, s, END, 5, next);
  }

  lemma EndIsLine()
    ensures IsLine(END) && DataOnly(END) == SSEFrame(FrameKind.Done, Some(END), [])
  {
  }

  lemma NewlineLeads(served: Served, promptFirst: bool, s: Stream) returns (next: Stream)
    requires IsEnded(s, promptFirst) && s.lastAt <= 6 && s.buffer == []
    ensures Leads(served, s, [LF], 6, next) && IsEnded(next, promptFirst) && next.lastAt == 6 && next.buffer == [LF]
  {
    NewlineIsKept(served.decode);
    next := s.(chunks := s.chunks + [BodyChunk(6, [LF])], lastAt := 6, buffer := [LF]);
  }

  lemma NewlineIsKept(decode: Decoder)
    ensures FeedOf(decode, [], true, [LF]) == FeedEffect([LF], true, Accepted([]))
  {
    NormaliseFixes([LF]);
    assert [] + [LF] == [LF] && [LF][1..] == [];
  }

  /** Reads that are all accepted lead to `end`, the last chunk retained at clock `at`. */
  predicate Reaches(config: Config, s: Stream, bodyReads: seq<BodyRead>, end: Stream, at: Nanos) {
    var run := RunReads(config, s, bodyReads, None);
    run.Returned? && run.value.s == end && run.value.wire != [] && run.value.wire[|run.value.wire| - 1].at == at
  }

  lemma LastRead(config: Config, s: Stream, read: BodyRead, end: Stream)
    requires Feed(config, s, read.data, read.at, None) == Returned((end, None)) && read.data != []
    ensures Reaches(config, s, [read], end, read.at)
  {
    assert [read][1..] == [];
  }

  lemma OneRead(config: Config, s: Stream, read: BodyRead, next: Stream, rest: seq<BodyRead>, end: Stream, at: Nanos)
    requires Feed(config, s, read.data, read.at, None) == Returned((next, None)) && read.data != []
    requires Reaches(config, next, rest, end, at)
    ensures Reaches(config, s, [read] + rest, end, at)
  {
    var all := [read] + rest;
    assert all[0] == read && all[1..] == rest;
    FirstOfReads(config, s, all, next);
    LastBehind(WireChunk(read.data, read.at, NewOffsets(s, next)), RunReads(config, next, rest, None).value.wire);
  }

  lemma FirstOfReads(config: Config, s: Stream, all: seq<BodyRead>, next: Stream)
    requires all != [] && all[0].data != []
    requires Feed(config, s, all[0].data, all[0].at, None) == Returned((next, None))
    requires RunReads(config, next, all[1..], None).Returned?
    ensures var run, later := RunReads(config, s, all, None), RunReads(config, next, all[1..], None).value;
            && run.Returned? && run.value.s == later.s
            && run.value.wire == [WireChunk(all[0].data, all[0].at, NewOffsets(s, next))] + later.wire
  {
  }

  lemma LastBehind(first: WireChunk, wire: seq<WireChunk>)
    ensures wire != [] ==> ([first] + wire)[|[first] + wire| - 1] == wire[|wire| - 1]
  {
  }

  /** All reads together lead behind `[DONE]`; the last chunk retained is the newline. */
  lemma ReadsAreRun(served: Served, promptFirst: bool) returns (end: Stream)
    requires Serves(served, promptFirst)
    ensures Reaches(Asked(served), Headed(served), Reads(served), end, 6)
    ensures IsEnded(end, promptFirst) && end.lastAt == 6 && end.buffer == [LF]
  {
    var s1 := TokensLead(served, promptFirst);
    var s2 := TerminalLeads(served, promptFirst, s1);
    var s3 := UsageLeads(served, promptFirst, s2);
    end := TailIsRun(served, promptFirst, s3);
    var tail := [BodyRead(OnWire(END), 5)] + [BodyRead([LF], 6)];
    var config, usage := Asked(served), BodyRead(OnWire(served.usage), 4);
    OneRead(config, s2, usage, s3, tail, end, 6);
    var terminal := BodyRead(OnWire(served.terminal), 3);
    OneRead(config, s1, terminal, s2, [usage] + tail, end, 6);
    OneRead(config, Headed(served), BodyRead(OnWire(served.tokens), 2), s1, [terminal] + ([usage] + tail), end, 6);
  }

  lemma TailIsRun(served: Served, promptFirst: bool, s: Stream) returns (end: Stream)
    requires Serves(served, promptFirst) && IsUsed(s, promptFirst)
    ensures Reaches(Asked(served), s, [BodyRead(OnWire(END), 5)] + [BodyRead([LF], 6)], end, 6)
    ensures IsEnded(end, promptFirst) && end.lastAt == 6 && end.buffer == [LF]
  {
    var next := EndLeads(served, promptFirst, s);
    end := NewlineLeads(served, promptFirst, next);
    LastRead(Asked(served), next, BodyRead([LF], 6), end);
    OneRead(Asked(served), s, BodyRead(OnWire(END), 5), next, [BodyRead([LF], 6)], end, 6);
  }

  lemma ChainIsGood()
    ensures ChainIsValid(CHAIN)
  {
    var prefix := ServingItemId("req") + "-";
    assert CHAIN.internalId == prefix + "01234567";
    assert forall i :: |prefix| <= i < |CHAIN.internalId| ==> CHAIN.internalId[i] == "01234567"[i - |prefix|];
  }

  lemma EndedMayClose(served: Served, promptFirst: bool, s: Stream, closeAt: Nanos)
    requires IsEnded(s, promptFirst) && s.buffer == [LF] && s.lastAt <= closeAt && closeAt > 5
    ensures MayClose(Asked(served), s, closeAt, CHAIN)
  {
    NormaliseFixes([LF]);
    assert Bearing(s.tokenEvents) != [] by {
      assert s.tokenEvents[0] == FirstEvent(promptFirst) && |IDS| == OUTPUT_TOKEN_COUNT;
    }
  }

  // ---------------------------------------------------------------- what becomes of it

  /** A run with the prompt ids on its second generation event reaches the evidence record, and is
      refused there. */
  lemma LatePromptIsRefused(served: Served, closeAt: Nanos)
    requires Serves(served, false) && closeAt >= 6
    ensures var run := RunReads(Asked(served), Headed(served), Reads(served), None);
            run.Returned? && MayClose(Asked(served), run.value.s, closeAt, CHAIN)
    ensures LiveRun(Asked(served), Live(served, closeAt)).Raised?
  {
    var end := ReadsAreRun(served, false);
    EndedMayClose(served, false, end, closeAt);
    RunSucceeds(served, false, closeAt);
  }

  /** With the prompt on the first event the same run succeeds. */
  lemma RunSucceeds(served: Served, promptFirst: bool, closeAt: Nanos)
    requires Serves(served, promptFirst) && closeAt >= 6
    ensures LiveRun(Asked(served), Live(served, closeAt)).Returned? == promptFirst
    ensures promptFirst ==> EndsAt(LiveRun(Asked(served), Live(served, closeAt)).value.1, 6)
  {
    ChainIsGood();
    var end := ReadsAreRun(served, promptFirst);
    EndedMayClose(served, promptFirst, end, closeAt);
    HeadersLead(served);
    RunEnds(Asked(served), Live(served, closeAt), Headed(served), end, promptFirst);
  }

  /** The live run from its headers on: its first event decides, and its chunks are kept. */
  lemma RunEnds(config: Config, live: LiveInput, headed: Stream, end: Stream, promptFirst: bool)
    requires |config.sentPrompt| == PROMPT_TOKEN_COUNT && ChainIsValid(live.chain)
    requires AcceptHeaders(config, Opened(config), live.xRequestId, live.headersAt) == Returned(headed)
    requires Reaches(config, headed, live.bodyReads, end, 6) && live.clock.None?
    requires MayClose(config, end, live.closeAt, live.chain) && IsEnded(end, promptFirst)
    ensures LiveRun(config, live).Returned? == promptFirst
    ensures promptFirst ==> EndsAt(LiveRun(config, live).value.1, 6)
  {
    LiveRunSucceedsExactly(config, live);
  }

  /** The clock of the last retained chunk. */
  predicate EndsAt(capture: WireCapture, at: Nanos) {
    capture.chunks != [] && capture.chunks[|capture.chunks| - 1].at == at
  }

  /** A successful run whose last read, a bare newline, comes at the clock of the close: its capture is
      refused by its own contract; closed any later it meets it. */
  lemma CloseAtTheLastChunkIsRefused(served: Served, closeAt: Nanos)
    requires Serves(served, true) && closeAt >= 6
    ensures LiveRun(Asked(served), Live(served, closeAt)).Returned?
    ensures CaptureIsValid(Asked(served), LiveRun(Asked(served), Live(served, closeAt)).value.1) <==> closeAt > 6
  {
    RunSucceeds(served, true, closeAt);
    ValidIfLater(Asked(served), Live(served, closeAt), 6);
  }

  lemma ValidIfLater(config: Config, live: LiveInput, last: Nanos)
    requires LiveRun(config, live).Returned? && EndsAt(LiveRun(config, live).value.1, last)
    requires config.dispatchAt < live.headersAt
    ensures CaptureIsValid(config, LiveRun(config, live).value.1) <==> last < live.closeAt
  {
    RecordMeetsContractExactly(config, live);
  }
}
