/** The evidence contract of `stage2_contracts.py`: what a request's evidence record must satisfy,
    stated on the record alone, without regard to how it was produced. */
module StreamContract {
  import opened Prelude
  import opened Payload

  datatype TokenEvent = TokenEvent(at: Nanos, ids: TokenIds, text: string, finished: bool, prompt: Option<TokenIds>)

  datatype Timing = Timing(
    dispatch: Nanos, headers: Nanos, firstBody: Nanos, firstToken: Nanos,
    generation: Nanos, usage: Nanos, protocol: Nanos, transport: Nanos)

  /** A derived latency, or the reason it is not available. */
  datatype Metric = GroupedTokens | Value(ns: real)

  datatype IdentityChain = IdentityChain(externalId: string, responseId: string, servingItemId: string,
    internalId: string, aborted: bool)

  datatype RequestEvidence = RequestEvidence(
    externalId: string, responseId: string, servingItemId: string, internalId: string,
    sentPrompt: TokenIds, returnedPrompt: TokenIds,
    tokenEvents: seq<TokenEvent>, finalIds: TokenIds, terminalCarriedTokens: bool,
    metrics: ServerMetrics, outputText: string, timing: Timing,
    tpot: Metric, itl: Metric, gaps: seq<int>)

  // ---------------------------------------------------------------- views of the token events

  /** The events that carry output tokens. */
  function Bearing(events: seq<TokenEvent>): seq<TokenEvent> {
    if events == [] then []
    else (if events[0].ids == [] then [] else [events[0]]) + Bearing(events[1..])
  }

  function AllIds(events: seq<TokenEvent>): TokenIds {
    if events == [] then [] else events[0].ids + AllIds(events[1..])
  }

  function Texts(events: seq<TokenEvent>): (texts: seq<string>)
    ensures |texts| == |events|
  {
    seq(|events|, i requires 0 <= i < |events| => events[i].text)
  }

  function Concat(texts: seq<string>): string {
    Flatten(texts)
  }

  predicate Grouped(events: seq<TokenEvent>) {
    exists i :: 0 <= i < |events| && |events[i].ids| > 1
  }

  /** Differences between neighbouring observations. */
  function Gaps(events: seq<TokenEvent>): (gaps: seq<int>)
    ensures |gaps| == if events == [] then 0 else |events| - 1
  {
    if |events| <= 1 then [] else [events[1].at - events[0].at] + Gaps(events[1..])
  }

  function Sum(values: seq<int>): int {
    if values == [] then 0 else values[0] + Sum(values[1..])
  }

  function Mean(values: seq<int>): real
    requires values != []
  {
    Sum(values) as real / |values| as real
  }

  /** The events that carry prompt ids. */
  function PromptEvents(events: seq<TokenEvent>): seq<TokenEvent> {
    if events == [] then []
    else (if events[0].prompt.None? then [] else [events[0]]) + PromptEvents(events[1..])
  }

  // ---------------------------------------------------------------- the contract

  predicate HexSuffix(id: string, prefix: string) {
    && prefix <= id
    && |id| == |prefix| + 8
    && forall i :: |prefix| <= i < |id| ==> '0' <= id[i] <= '9' || 'a' <= id[i] <= 'f'
  }

  predicate ChainIsValid(chain: IdentityChain) {
    && chain.responseId == ResponseId(chain.externalId)
    && chain.servingItemId == ServingItemId(chain.externalId)
    && HexSuffix(chain.internalId, chain.servingItemId + "-")
  }

  predicate TimingIsValid(t: Timing) {
    && t.dispatch <= t.headers <= t.firstBody <= t.firstToken <= t.generation
    && t.generation < t.usage < t.protocol < t.transport
  }

  predicate MetricIsValid(m: Metric) {
    m.Value? ==> m.ns >= 0.0
  }

  predicate IdentitiesReconcile(e: RequestEvidence) {
    && e.responseId == ResponseId(e.externalId)
    && e.servingItemId == ServingItemId(e.externalId)
    && HexSuffix(e.internalId, ServingItemId(e.externalId) + "-")
  }

  predicate TokensReconcile(e: RequestEvidence) {
    && |e.sentPrompt| == PROMPT_TOKEN_COUNT && |e.finalIds| == OUTPUT_TOKEN_COUNT
    && e.sentPrompt == e.returnedPrompt
    && e.tokenEvents != []
    && |PromptEvents(e.tokenEvents)| == 1 && e.tokenEvents[0].prompt == Some(e.returnedPrompt)
    && AllIds(e.tokenEvents) == e.finalIds
    && e.outputText == Concat(Texts(e.tokenEvents))
  }

  predicate TerminalReconciles(e: RequestEvidence)
    requires e.tokenEvents != []
  {
    var last := e.tokenEvents[|e.tokenEvents| - 1];
    && (forall i, j :: 0 <= i < j < |e.tokenEvents| ==> e.tokenEvents[i].at <= e.tokenEvents[j].at)
    && (forall i :: 0 <= i < |e.tokenEvents| ==> (e.tokenEvents[i].finished <==> i == |e.tokenEvents| - 1))
    && e.terminalCarriedTokens == (last.ids != [])
    && Bearing(e.tokenEvents) != []
    && e.timing.firstToken == Bearing(e.tokenEvents)[0].at
    && e.timing.generation == last.at
  }

  predicate LatenciesReconcile(e: RequestEvidence) {
    && MetricIsValid(e.tpot) && MetricIsValid(e.itl) && (forall i :: 0 <= i < |e.gaps| ==> e.gaps[i] >= 0)
    && e.gaps == Gaps(Bearing(e.tokenEvents))
    && if Grouped(e.tokenEvents) then e.tpot == GroupedTokens && e.itl == GroupedTokens
       else && e.gaps != []
            && e.tpot == Value((e.timing.generation - e.timing.firstToken) as real / 31.0)
            && e.itl == Value(Mean(e.gaps))
  }

  /** The field constraints, the timing record and `validate_reconciliation` together. */
  predicate EvidenceIsValid(e: RequestEvidence) {
    && IdentitiesReconcile(e)
    && TokensReconcile(e)
    && TerminalReconciles(e)
    && LatenciesReconcile(e)
    && TimingIsValid(e.timing)
  }

  // ---------------------------------------------------------------- facts about the views

  lemma {:induction false} AllIdsSnoc(events: seq<TokenEvent>, event: TokenEvent)
    ensures AllIds(events + [event]) == AllIds(events) + event.ids
  {
    if events == [] {
      assert [event][1..] == [];
    } else {
      assert (events + [event])[1..] == events[1..] + [event];
      AllIdsSnoc(events[1..], event);
      ConcatAssociates(events[0].ids, AllIds(events[1..]), event.ids);
    }
  }

  lemma {:induction false} UngroupedCounts(events: seq<TokenEvent>)
    requires !Grouped(events)
    ensures |Bearing(events)| == |AllIds(events)|
  {
    if events != [] {
      assert |events[0].ids| <= 1;
      assert !Grouped(events[1..]) by {
        assert forall i :: 0 <= i < |events[1..]| ==> events[1..][i] == events[i + 1];
      }
      UngroupedCounts(events[1..]);
    }
  }

  /** Token-bearing events inherit the order and the bounds of all events. */
  lemma {:induction false} BearingFacts(events: seq<TokenEvent>, low: Nanos, high: Nanos)
    requires forall i :: 0 <= i < |events| ==> low <= events[i].at <= high
    requires forall i, j :: 0 <= i < j < |events| ==> events[i].at <= events[j].at
    ensures forall i :: 0 <= i < |Bearing(events)| ==> low <= Bearing(events)[i].at <= high
    ensures forall i, j :: 0 <= i < j < |Bearing(events)| ==> Bearing(events)[i].at <= Bearing(events)[j].at
  {
    if events != [] {
      BearingFacts(events[1..], events[0].at, high);
    }
  }

  lemma {:induction false} GapsNonNegative(events: seq<TokenEvent>)
    requires forall i, j :: 0 <= i < j < |events| ==> events[i].at <= events[j].at
    ensures forall i :: 0 <= i < |Gaps(events)| ==> Gaps(events)[i] >= 0
  {
    if |events| > 1 {
      GapsNonNegative(events[1..]);
    }
  }

  /** Gaps telescope. */
  lemma {:induction false} GapsTelescope(events: seq<TokenEvent>)
    requires events != []
    ensures Sum(Gaps(events)) == events[|events| - 1].at - events[0].at
  {
    if |events| > 1 {
      GapsTelescope(events[1..]);
      assert Gaps(events)[1..] == Gaps(events[1..]);
    }
  }

  lemma {:induction false} SumNonNegative(values: seq<int>)
    requires forall i :: 0 <= i < |values| ==> values[i] >= 0
    ensures Sum(values) >= 0
  {
    if values != [] {
      SumNonNegative(values[1..]);
    }
  }

  lemma MeanNonNegative(values: seq<int>)
    requires values != [] && forall i :: 0 <= i < |values| ==> values[i] >= 0
    ensures Mean(values) >= 0.0
  {
    SumNonNegative(values);
  }

  lemma {:induction false} NoPromptEvents(events: seq<TokenEvent>)
    requires forall i :: 0 <= i < |events| ==> events[i].prompt.None?
    ensures PromptEvents(events) == []
  {
    if events != [] {
      NoPromptEvents(events[1..]);
    }
  }

  lemma PromptOnFirst(events: seq<TokenEvent>)
    requires events != [] && events[0].prompt.Some?
    requires forall i :: 1 <= i < |events| ==> events[i].prompt.None?
    ensures |PromptEvents(events)| == 1
  {
    NoPromptEvents(events[1..]);
  }

  lemma {:induction false} LastBearing(events: seq<TokenEvent>, high: Nanos)
    requires Bearing(events) != [] && forall i :: 0 <= i < |events| ==> events[i].at <= high
    ensures Bearing(events)[|Bearing(events)| - 1].at <= high
  {
    if Bearing(events[1..]) != [] {
      LastBearing(events[1..], high);
    }
  }

  /** In a valid record with ungrouped tokens there are 31 gaps, mean inter-token latency times 31 is
      last minus first token, and time per output token is at least that mean, equal to it exactly
      when the last token was observed at the generation terminal. */
  lemma LatenciesTelescope(e: RequestEvidence)
    requires EvidenceIsValid(e) && !Grouped(e.tokenEvents)
    ensures |e.gaps| == 31
    ensures var tokens := Bearing(e.tokenEvents); var last := tokens[|tokens| - 1];
            && e.itl.ns * 31.0 == (last.at - e.timing.firstToken) as real
            && e.tpot.ns >= e.itl.ns
            && (e.tpot.ns == e.itl.ns <==> last.at == e.timing.generation)
  {
    var tokens := Bearing(e.tokenEvents);
    UngroupedCounts(e.tokenEvents);
    GapsTelescope(tokens);
    assert forall i :: 0 <= i < |e.tokenEvents| ==> e.tokenEvents[i].at <= e.timing.generation;
    LastBearing(e.tokenEvents, e.timing.generation);
    var last := tokens[|tokens| - 1];
    assert e.itl.ns == (last.at - e.timing.firstToken) as real / 31.0;
  }

  // ---------------------------------------------------------------- what the contract refuses

  lemma {:induction false} OnePromptIsFirst(events: seq<TokenEvent>)
    requires |PromptEvents(events)| == 1 && events != [] && events[0].prompt.Some?
    ensures forall i :: 1 <= i < |events| ==> events[i].prompt.None?
  {
    NoPromptsBehind(events[1..]);
    assert forall i :: 1 <= i < |events| ==> events[i] == events[1..][i - 1];
  }

  lemma {:induction false} NoPromptsBehind(events: seq<TokenEvent>)
    ensures PromptEvents(events) == [] ==> forall i :: 0 <= i < |events| ==> events[i].prompt.None?
  {
    if events != [] {
      NoPromptsBehind(events[1..]);
      assert forall i :: 1 <= i < |events| ==> events[i] == events[1..][i - 1];
    }
  }

  /** A valid record is in order: eight clocks, four of them strictly, events that do not go back and only the
      last of which is finished, 64 prompt ids on the first of them alone, 32 ids in all. */
  lemma ValidEvidenceIsInOrder(e: RequestEvidence)
    requires EvidenceIsValid(e)
    ensures var t := e.timing;
            && t.dispatch <= t.headers <= t.firstBody <= t.firstToken <= t.generation < t.usage < t.protocol
            && t.protocol < t.transport
    ensures e.tokenEvents != [] && |e.sentPrompt| == 64 && |e.finalIds| == 32
    ensures forall i, j :: 0 <= i < j < |e.tokenEvents| ==> e.tokenEvents[i].at <= e.tokenEvents[j].at
    ensures forall i :: 0 <= i < |e.tokenEvents| ==> (e.tokenEvents[i].finished <==> i == |e.tokenEvents| - 1)
    ensures forall i :: 0 <= i < |e.tokenEvents| ==>
              e.tokenEvents[i].prompt == if i == 0 then Some(e.sentPrompt) else None
    ensures |e.internalId| == |e.externalId| + 16
            && e.internalId[..|e.externalId| + 8] == "cmpl-" + e.externalId + "-0-"
    ensures forall i :: |e.externalId| + 8 <= i < |e.internalId| ==>
              '0' <= e.internalId[i] <= '9' || 'a' <= e.internalId[i] <= 'f'
  {
    OnePromptIsFirst(e.tokenEvents);
    assert "cmpl-" + e.externalId + "-0" + "-" == "cmpl-" + e.externalId + "-0-";
  }

  /** Nothing of a valid record is free but its two ids, its events, the server's metrics and the clocks of
      dispatch, headers, body, usage, `[DONE]` and close: two valid records that share these are the same, so a
      record altered anywhere else is refused. */
  lemma ValidEvidenceIsDetermined(a: RequestEvidence, b: RequestEvidence)
    requires EvidenceIsValid(a) && EvidenceIsValid(b)
    requires a.externalId == b.externalId && a.internalId == b.internalId
    requires a.tokenEvents == b.tokenEvents && a.metrics == b.metrics
    requires a.timing.dispatch == b.timing.dispatch && a.timing.headers == b.timing.headers
    requires a.timing.firstBody == b.timing.firstBody && a.timing.usage == b.timing.usage
    requires a.timing.protocol == b.timing.protocol && a.timing.transport == b.timing.transport
    ensures a == b
  {
    assert a.timing == b.timing;
  }
}
