/** The cancellation verdict of `stage2_control.py`: a decision procedure over chains of counter
    snapshots, and the contract of its result. */
module Cancellation {
  import opened Prelude
  import opened Prometheus
  import opened RawLog
  import opened Sse

  datatype Classification =
    | AbortAcknowledgedAndDrained | UnknownAcknowledgement | LaterCompletion
    | ResidualWorkTimeout | TerminalUnknown | IdCorrelationFailure

  datatype Chain = Chain(
    externalId: string, responseId: string, servingItemId: string, internalId: string,
    received: RawLogRecord, added: RawLogRecord, externalAbort: Option<RawLogRecord>,
      internalAbort: Option<RawLogRecord>)

  /** `correlate_request_logs`: `None` when it raises. */
  type Correlator = (string, seq<RawLogRecord>) -> Option<Chain>

  datatype FirstDelivery = FirstDelivery(externalId: string, responseId: string, at: Nanos)

  datatype ResidualState = ResidualState(at: Nanos, inventory: string, hashedInventory: string, activeIds: seq<string>,
    processIds: seq<nat>)

  datatype ScrapePhase = PreDispatch | Drain | StableGeneration | Cooldown | Later

  /** Identities are contents, so the scraped snapshot stands for its digest. */
  datatype Observation = Observation(phase: ScrapePhase, ordinal: nat, scheduled: Nanos, dispatched: Nanos,
    completed: Nanos, identity: Snapshot)

  datatype Probe = Probe(
    serverProcess: string, chain: Chain, capture: RawLogCapture, captureDigest: Bytes, logStart: nat,
    dispatchAt: Nanos, delivery: FirstDelivery, closeAt: Nanos,
    pre: seq<Snapshot>, drain: seq<Snapshot>, stable: seq<Snapshot>, cooldown: seq<Snapshot>, later: seq<Snapshot>,
    observations: seq<Observation>, residual: ResidualState)

  /** What the fields of `CancellationProbe` demand. */
  predicate ProbeIsValid(p: Probe) {
    |p.pre| == 10 && |p.drain| == 10 && |p.stable| >= 2 && |p.cooldown| >= 2 && |p.observations| >= 52
  }

  datatype CancellationResult = CancellationResult(
    classification: Classification, accepted: bool, prompt: Option<CounterDelta>, generation: Option<CounterDelta>,
    reasons: seq<CounterDelta>, auxiliary: seq<CounterDelta>, abort: Option<Value>)

  // ---------------------------------------------------------------- the contract of a result

  /** The dictionary from finish reason to delta; a later entry wins. */
  function ReasonValue(deltas: seq<CounterDelta>, reason: string): Option<Value>
    decreases |deltas|
  {
    if deltas == [] then None
    else
      var last := deltas[|deltas| - 1];
      if REASON in last.labels && last.labels[REASON] == reason then Some(last.delta)
      else ReasonValue(deltas[..|deltas| - 1], reason)
  }

  const OTHER_REASONS: seq<string> := ["length", "stop", "error", "repetition"]
  const AUXILIARY: seq<Metric> := [Preemptions, CacheQueries, CacheHits]

  predicate CountersMeetContract(r: CancellationResult) {
    && r.prompt.Some? && r.generation.Some? && r.abort.Some?
    && |r.reasons| == 5 && |r.auxiliary| == 3
    && r.prompt.value.metric.PromptTokens? && r.prompt.value.delta == 64.0
    && r.generation.value.metric.GenerationTokens? && r.generation.value.delta >= 1.0
    && ReasonValue(r.reasons, "abort") == r.abort
    && (forall k :: 0 <= k < 4 ==> ReasonValue(r.reasons, OTHER_REASONS[k]) == Some(0.0))
    && (forall k :: 0 <= k < 3 ==> r.auxiliary[k].metric == AUXILIARY[k] && r.auxiliary[k].delta == 0.0)
  }

  /** `validate_result`. */
  predicate ResultIsValid(r: CancellationResult) {
    && r.accepted == r.classification.AbortAcknowledgedAndDrained?
    && (r.abort.Some? ==> r.abort.value == 0.0 || r.abort.value == 1.0)
    && (r.accepted ==> CountersMeetContract(r))
    && (!r.accepted ==> r.prompt.None? && r.generation.None? && r.abort.None? && r.reasons == [] && r.auxiliary == [])
  }

  function Invalid(classification: Classification): CancellationResult {
    CancellationResult(classification, false, None, None, [], [], None)
  }

  // ---------------------------------------------------------------- identity and chronology

  predicate IdsAgree(p: Probe) {
    p.chain.responseId == "cmpl-" + p.chain.externalId && p.chain.servingItemId == "cmpl-" + p.chain.externalId + "-0"
  }

  predicate LogsCorrelate(p: Probe, correlate: Correlator) {
    && correlate(p.chain.externalId, p.capture.records) == Some(p.chain)
    && p.captureDigest == p.capture.exact
    && p.capture.stream == p.serverProcess + "-raw-log"
    && p.chain.received.byteStart >= p.logStart
    && p.delivery.externalId == p.chain.externalId && p.delivery.responseId == p.chain.responseId
  }

  predicate ClosedAfterDelivery(p: Probe) {
    p.dispatchAt < p.delivery.at <= p.closeAt
  }

  predicate LogsInOrder(p: Probe)
    requires p.chain.externalAbort.Some? && p.chain.internalAbort.Some?
  {
    && p.dispatchAt <= p.chain.received.at <= p.chain.added.at <= p.delivery.at
    && p.delivery.at <= p.closeAt <= p.chain.internalAbort.value.at <= p.chain.externalAbort.value.at
  }

  // ---------------------------------------------------------------- scrapes and their clocks

  function AllSnapshots(p: Probe): seq<Snapshot> {
    p.pre + p.drain + p.stable + p.cooldown + p.later
  }

  predicate SameProcess(p: Probe) {
    forall i :: 0 <= i < |AllSnapshots(p)| ==> AllSnapshots(p)[i].process == p.serverProcess
  }

  /** Phase, ordinal and content of every scrape, in order. */
  datatype Key = Key(phase: ScrapePhase, ordinal: nat, identity: Snapshot)

  function Keys(phase: ScrapePhase, snapshots: seq<Snapshot>): seq<Key> {
    seq(|snapshots|, i requires 0 <= i < |snapshots| => Key(phase, i, snapshots[i]))
  }

  function ExpectedKeys(p: Probe): seq<Key> {
    Keys(PreDispatch, p.pre) + Keys(Drain, p.drain) + Keys(StableGeneration, p.stable) + Keys(Cooldown, p.cooldown)
      + Keys(Later, p.later)
  }

  function ActualKeys(observations: seq<Observation>): seq<Key> {
    seq(|observations|, i requires 0 <= i < |observations| =>
      Key(observations[i].phase, observations[i].ordinal, observations[i].identity))
  }

  predicate ScrapesAreObserved(p: Probe) {
    var all := AllSnapshots(p);
    && ActualKeys(p.observations) == ExpectedKeys(p)
    && (forall i :: 0 <= i < |p.observations| && i < |all| ==> p.observations[i].completed == all[i].at)
    && (forall i :: 0 <= i < |p.observations| ==>
        p.observations[i].scheduled <= p.observations[i].dispatched <= p.observations[i].completed)
    && forall i :: 0 < i < |all| ==> all[i - 1].at <= all[i].at
  }

  predicate SpacedAtLeast(snapshots: seq<Snapshot>, spacing: nat) {
    forall i :: 0 < i < |snapshots| ==> snapshots[i].at - snapshots[i - 1].at >= spacing
  }

  /** Neighbouring scrapes from `from` up to `to` are scheduled at least, or exactly, 100 ms apart. */
  predicate ScheduledApart(observations: seq<Observation>, first: nat, end: nat, exactly: bool) {
    forall i :: first < i < end && i < |observations| ==>
      var gap := observations[i].scheduled - observations[i - 1].scheduled;
      if exactly then gap == 100_000_000 else gap >= 100_000_000
  }

  function Clocks(o: Observation): (Nanos, Nanos, Nanos) {
    (o.scheduled, o.dispatched, o.completed)
  }

  predicate PreIsSpaced(p: Probe)
    requires ProbeIsValid(p)
  {
    && ScheduledApart(p.observations, 0, 10, false)
    && SpacedAtLeast(p.pre, 100_000_000)
    && p.pre[9].at < p.dispatchAt
  }

  predicate AllQuiescent(p: Probe) {
    forall i :: 0 <= i < |AllSnapshots(p)| ==> RequireQuiescent(AllSnapshots(p)[i])
  }

  function Last<T>(s: seq<T>): T
    requires s != []
  {
    s[|s| - 1]
  }

  /** The drain follows the close, the stable window starts at its end and lasts a second, the cooldown
      starts at the end of that and lasts two, within ten seconds of the close. */
  predicate WindowsConnect(p: Probe)
    requires ProbeIsValid(p) && p.chain.externalAbort.Some?
  {
    var toStable, toCooldown, toLater := 20, 20 + |p.stable|, 20 + |p.stable| + |p.cooldown|;
    && |p.observations| >= toLater
    && p.drain[0].at >= p.closeAt
    && p.chain.externalAbort.value.at <= p.drain[0].at
    && ScheduledApart(p.observations, 10, 20, false)
    && SpacedAtLeast(p.drain, 100_000_000)
    && p.stable[0] == p.drain[9]
    && Clocks(p.observations[toStable]) == Clocks(p.observations[19])
    && Last(p.stable).at - p.stable[0].at >= 1_000_000_000
    && ScheduledApart(p.observations, toStable, toCooldown, true)
    && p.cooldown[0].at == Last(p.stable).at
    && Clocks(p.observations[toCooldown]) == Clocks(p.observations[toCooldown - 1])
    && Last(p.cooldown).at - p.cooldown[0].at >= 2_000_000_000
    && ScheduledApart(p.observations, toCooldown, toLater, true)
    && Last(p.cooldown).at - p.closeAt <= 10_000_000_000
    && p.chain.externalAbort.value.at <= Last(p.cooldown).at
    && (forall i :: 0 <= i < |p.later| ==> p.later[i].at > Last(p.cooldown).at)
    && forall i :: 0 < i < |p.later| ==> p.later[i - 1].at <= p.later[i].at
  }

  // ---------------------------------------------------------------- counters

  /** Every scrape once, in order; the first of a window repeats the last of the one before. */
  function Chronological(p: Probe): seq<Snapshot>
    requires ProbeIsValid(p)
  {
    p.pre + p.drain + p.stable[1..] + p.cooldown[1..] + p.later
  }

  function StableAndLater(p: Probe): seq<Snapshot>
    requires ProbeIsValid(p)
  {
    p.stable + p.cooldown[1..] + p.later
  }

  predicate AllProgress(chain: seq<Snapshot>) {
    forall k :: 0 <= k < |MEASURED_SERIES| ==> Progresses(chain, MEASURED_SERIES[k])
  }

  predicate AllStandStill(chain: seq<Snapshot>) {
    forall k :: 0 <= k < |MEASURED_SERIES| ==> StandsStill(chain, MEASURED_SERIES[k])
  }

  const PROMPT := Selector(PromptTokens, None)
  const GENERATION := Selector(GenerationTokens, None)
  const REASONS: seq<string> := ["abort", "length", "stop", "error", "repetition"]
  const REASON_SERIES: seq<Selector> :=
    [Selector(RequestSuccess, Some("abort")), Selector(RequestSuccess, Some("length")),
      Selector(RequestSuccess, Some("stop")),
     Selector(RequestSuccess, Some("error")), Selector(RequestSuccess, Some("repetition"))]
  const AUXILIARY_SERIES: seq<Selector> :=
    [Selector(Preemptions, None), Selector(CacheQueries, None), Selector(CacheHits, None)]

  /** At most one abort and no other end of a request. */
  predicate OneAbortAtMost(reasons: seq<CounterDelta>)
    requires |reasons| == 5
  {
    && (reasons[0].delta == 0.0 || reasons[0].delta == 1.0)
    && forall k :: 0 < k < 5 ==> reasons[k].delta == 0.0
  }

  /** The same, read through the dictionary of labels. */
  predicate ObservedOneAbortAtMost(reasons: seq<CounterDelta>) {
    OnlyAbort(ReasonValue(reasons, "abort"), OtherValues(reasons))
  }

  function OtherValues(reasons: seq<CounterDelta>): seq<Option<Value>> {
    seq(4, k requires 0 <= k < 4 => ReasonValue(reasons, OTHER_REASONS[k]))
  }

  predicate OnlyAbort(abort: Option<Value>, others: seq<Option<Value>>) {
    && (abort == Some(0.0) || abort == Some(1.0))
    && forall k :: 0 <= k < |others| ==> others[k] == Some(0.0)
  }

  function LastRetained(p: Probe): Snapshot
    requires ProbeIsValid(p)
  {
    if p.later != [] then Last(p.later) else Last(p.cooldown)
  }

  predicate GenerationStays(p: Probe)
    requires ProbeIsValid(p)
  {
    var all := p.stable + p.cooldown + p.later;
    && SelectExactSeries(p.stable[0], GENERATION).Returned?
    && forall i :: 0 <= i < |all| ==>
         && SelectExactSeries(all[i], GENERATION).Returned?
         && SelectExactSeries(all[i], GENERATION).value.value == SelectExactSeries(p.stable[0], GENERATION).value.value
  }

  predicate ResidueIsClear(p: Probe)
    requires ProbeIsValid(p)
  {
    && p.residual.hashedInventory == p.residual.inventory
    && p.residual.at >= LastRetained(p).at
    && p.residual.activeIds == [] && p.residual.processIds == []
  }

  // ---------------------------------------------------------------- the decision

  /** The refusals of `evaluate_cancellation` before it looks at counter values, in its order. */
  function Refusal(p: Probe, correlate: Correlator): (r: Option<Classification>)
    requires ProbeIsValid(p)
    ensures r.Some? ==> !r.value.AbortAcknowledgedAndDrained? && !r.value.LaterCompletion?
    ensures r.None? ==> p.stable[0] == p.drain[9] && AllProgress(Chronological(p)) && AllStandStill(p.pre)
  {
    if !IdsAgree(p) then Some(IdCorrelationFailure)
    else if p.chain.externalAbort.None? || p.chain.internalAbort.None? then Some(UnknownAcknowledgement)
    else if !LogsCorrelate(p, correlate) then Some(IdCorrelationFailure)
    else if !ClosedAfterDelivery(p) then Some(TerminalUnknown)
    else if !LogsInOrder(p) then Some(TerminalUnknown)
    else if !SameProcess(p) || !ScrapesAreObserved(p) || !PreIsSpaced(p) || !AllQuiescent(p) || !WindowsConnect(p)
            || !AllProgress(Chronological(p)) || !AllStandStill(p.pre) then Some(ResidualWorkTimeout)
    else None
  }

  /** `evaluate_cancellation`. */
  function Evaluate(p: Probe, correlate: Correlator): CancellationResult
    requires ProbeIsValid(p)
  {
    var refusal := Refusal(p, correlate);
    if refusal.Some? then Invalid(refusal.value) else EvaluateCounters(p)
  }

  /** Its counter checks. */
  function EvaluateCounters(p: Probe): CancellationResult
    requires ProbeIsValid(p)
  {
    var retained := DeriveAll(p.pre[9], LastRetained(p), REASON_SERIES);
    if retained.Raised? then Invalid(ResidualWorkTimeout)
    else if !OneAbortAtMost(retained.value) then Invalid(LaterCompletion)
    else if !AllStandStill(StableAndLater(p)) then Invalid(ResidualWorkTimeout)
    else if !GenerationStays(p) then Invalid(ResidualWorkTimeout)
    else EvaluateMoves(p, p.pre[9], Last(p.cooldown))
  }

  /** Its last part, from the last scrape before dispatch to the last of the cooldown. */
  function EvaluateMoves(p: Probe, baseline: Snapshot, final: Snapshot): CancellationResult
    requires ProbeIsValid(p)
  {
    var prompt := DeriveCounterDelta(baseline, final, PROMPT);
    var generation := DeriveCounterDelta(baseline, final, GENERATION);
    var reasons := DeriveAll(baseline, final, REASON_SERIES);
    var auxiliary := DeriveAll(baseline, final, AUXILIARY_SERIES);
    if prompt.Raised? || generation.Raised? || reasons.Raised? || auxiliary.Raised? then Invalid(ResidualWorkTimeout)
    else if !ObservedOneAbortAtMost(reasons.value) then Invalid(LaterCompletion)
    else if prompt.value.delta != 64.0 || generation.value.delta < 1.0 || !AllZero(auxiliary.value) then
      Invalid(ResidualWorkTimeout)
    else if !ResidueIsClear(p) then Invalid(ResidualWorkTimeout)
    else CancellationResult(AbortAcknowledgedAndDrained, true, Some(prompt.value), Some(generation.value),
                            reasons.value, auxiliary.value, ReasonValue(reasons.value, "abort"))
  }

  predicate AllZero(deltas: seq<CounterDelta>) {
    forall k :: 0 <= k < |deltas| ==> deltas[k].delta == 0.0
  }

  // ---------------------------------------------------------------- reading the deltas back

  lemma ReasonSeriesAre(k: nat)
    requires k < 5
    ensures REASON_SERIES[k] == Selector(RequestSuccess, Some(REASONS[k]))
    ensures exists m :: 0 <= m < |MEASURED_SERIES| && MEASURED_SERIES[m] == REASON_SERIES[k]
  {
    var m := [3, 2, 4, 5, 6][k];
    assert MEASURED_SERIES[m] == REASON_SERIES[k];
  }

  lemma ReasonsAreDistinct()
    ensures forall j, k :: 0 <= j < k < 5 ==> REASONS[j] != REASONS[k]
    ensures REASONS[0] == "abort" && forall k :: 0 <= k < 4 ==> OTHER_REASONS[k] == REASONS[k + 1]
  {
    assert "length"[0] == 'l' && "abort"[0] == 'a' && "stop"[0] == 's' && "error"[0] == 'e' && "repetition"[0] == 'r';
  }

  lemma {:induction false} ReasonValueAt(deltas: seq<CounterDelta>, k: nat)
    requires k < |deltas| <= 5
    requires forall j :: 0 <= j < |deltas| ==> REASON in deltas[j].labels && deltas[j].labels[REASON] == REASONS[j]
    ensures ReasonValue(deltas, REASONS[k]) == Some(deltas[k].delta)
    decreases |deltas|
  {
    ReasonsAreDistinct();
    if k < |deltas| - 1 {
      ReasonValueAt(deltas[..|deltas| - 1], k);
    }
  }

  /** The dictionary built from derived reason deltas holds each of them under its reason. */
  lemma DerivedReasons(before: Snapshot, after: Snapshot)
    requires DeriveAll(before, after, REASON_SERIES).Returned?
    ensures var reasons := DeriveAll(before, after, REASON_SERIES).value;
            && (forall k :: 0 <= k < 5 ==> ReasonValue(reasons, REASONS[k]) == Some(reasons[k].delta))
            && (ObservedOneAbortAtMost(reasons) <==> OneAbortAtMost(reasons))
  {
    var reasons := DeriveAll(before, after, REASON_SERIES).value;
    forall k | 0 <= k < 5 ensures REASON in reasons[k].labels && reasons[k].labels[REASON] == REASONS[k] {
      DerivedReasonAt(before, after, k);
    }
    forall k | 0 <= k < 5 ensures ReasonValue(reasons, REASONS[k]) == Some(reasons[k].delta) {
      ReasonValueAt(reasons, k);
    }
    ObservedByIndex(reasons);
  }

  lemma DerivedReasonAt(before: Snapshot, after: Snapshot, k: nat)
    requires DeriveAll(before, after, REASON_SERIES).Returned? && k < 5
    ensures var d := DeriveAll(before, after, REASON_SERIES).value[k];
            REASON in d.labels && d.labels[REASON] == REASONS[k]
  {
    ReasonSeriesAre(k);
    SelectedFits(before, REASON_SERIES[k]);
    assert DeriveCounterDelta(before, after, REASON_SERIES[k])
           == Returned(DeriveAll(before, after, REASON_SERIES).value[k]);
  }

  lemma ObservedByIndex(reasons: seq<CounterDelta>)
    requires |reasons| == 5 && forall k :: 0 <= k < 5 ==> ReasonValue(reasons, REASONS[k]) == Some(reasons[k].delta)
    ensures ObservedOneAbortAtMost(reasons) <==> OneAbortAtMost(reasons)
  {
    AbortComesFirst();
    forall k | 0 <= k < 4 ensures OtherValues(reasons)[k] == Some(reasons[k + 1].delta) {
      OtherReasonAt(reasons, k);
    }
    OnlyAbortByIndex(ReasonValue(reasons, REASONS[0]), OtherValues(reasons), reasons);
  }

  lemma OnlyAbortByIndex(abort: Option<Value>, others: seq<Option<Value>>, reasons: seq<CounterDelta>)
    requires |reasons| == 5 && |others| == 4 && abort == Some(reasons[0].delta)
    requires forall k :: 0 <= k < 4 ==> others[k] == Some(reasons[k + 1].delta)
    ensures OnlyAbort(abort, others) <==> OneAbortAtMost(reasons)
  {
    assert forall k :: 0 < k < 5 ==> others[k - 1] == Some(reasons[k].delta);
  }

  lemma AbortComesFirst()
    ensures REASONS[0] == "abort"
  {
  }

  lemma OtherReasonAt(reasons: seq<CounterDelta>, k: nat)
    requires |reasons| == 5 && forall j :: 0 <= j < 5 ==> ReasonValue(reasons, REASONS[j]) == Some(reasons[j].delta)
    requires k < 4
    ensures ReasonValue(reasons, OTHER_REASONS[k]) == Some(reasons[k + 1].delta)
  {
    OtherReasonsShift(k);
  }

  lemma OtherReasonsShift(k: nat)
    requires k < 4
    ensures OTHER_REASONS[k] == REASONS[k + 1]
  {
  }

  // ---------------------------------------------------------------- every result meets its contract

  /** Whatever the probe, the result returned is one that `validate_result` lets through. */
  lemma EveryResultIsValid(p: Probe, correlate: Correlator)
    requires ProbeIsValid(p)
    ensures ResultIsValid(Evaluate(p, correlate))
  {
    CounterResultIsValid(p);
  }

  lemma CounterResultIsValid(p: Probe)
    requires ProbeIsValid(p)
    ensures ResultIsValid(EvaluateCounters(p))
  {
    if EvaluateCounters(p).accepted {
      AcceptedResultIs(p);
      AcceptedReasons(p);
      AcceptedAuxiliary(p);
    }
  }

  lemma AcceptedReasons(p: Probe)
    requires ProbeIsValid(p) && EvaluateCounters(p).accepted
    ensures var r := EvaluateCounters(p);
            && |r.reasons| == 5 && r.abort.Some? && (r.abort.value == 0.0 || r.abort.value == 1.0)
            && ReasonValue(r.reasons, "abort") == r.abort
            && forall k :: 0 <= k < 4 ==> ReasonValue(r.reasons, OTHER_REASONS[k]) == Some(0.0)
  {
    AcceptedResultIs(p);
    var reasons := EvaluateCounters(p).reasons;
    forall k | 0 <= k < 4 ensures ReasonValue(reasons, OTHER_REASONS[k]) == Some(0.0) {
      assert OtherValues(reasons)[k] == Some(0.0);
    }
  }

  lemma AcceptedAuxiliary(p: Probe)
    requires ProbeIsValid(p) && EvaluateCounters(p).accepted
    ensures var r := EvaluateCounters(p);
            |r.auxiliary| == 3 && forall k :: 0 <= k < 3 ==>
              r.auxiliary[k].metric == AUXILIARY[k] && r.auxiliary[k].delta == 0.0
  {
    AcceptedResultIs(p);
    forall k | 0 <= k < 3 ensures EvaluateCounters(p).auxiliary[k].metric == AUXILIARY[k] {
      assert DeriveCounterDelta(p.pre[9], Last(p.cooldown), AUXILIARY_SERIES[k])
             == Returned(EvaluateCounters(p).auxiliary[k]);
    }
  }

  /** What the reported fields of an accepted result are. */
  lemma AcceptedResultIs(p: Probe)
    requires ProbeIsValid(p) && EvaluateCounters(p).accepted
    ensures var r, baseline, final := EvaluateCounters(p), p.pre[9], Last(p.cooldown);
            && |r.reasons| == 5 && |r.auxiliary| == 3
            && r.classification.AbortAcknowledgedAndDrained?
            && r.prompt.Some? && r.prompt.value.delta == 64.0
               && Returned(r.prompt.value) == DeriveCounterDelta(baseline, final, PROMPT)
            && r.generation.Some? && r.generation.value.delta >= 1.0
            && Returned(r.generation.value) == DeriveCounterDelta(baseline, final, GENERATION)
            && Returned(r.reasons) == DeriveAll(baseline, final, REASON_SERIES)
            && Returned(r.auxiliary) == DeriveAll(baseline, final, AUXILIARY_SERIES)
            && ObservedOneAbortAtMost(r.reasons)
            && (forall k :: 0 <= k < 3 ==> r.auxiliary[k].delta == 0.0)
            && r.abort == ReasonValue(r.reasons, "abort")
  {
  }

  // ---------------------------------------------------------------- counters along the chain

  /** From the drain's end on, the chronological chain is the stable and later one. */
  lemma ChainsMeet(p: Probe)
    requires ProbeIsValid(p) && p.stable[0] == p.drain[9]
    ensures |Chronological(p)| == 19 + |StableAndLater(p)|
    ensures forall i :: 0 <= i < 10 ==> Chronological(p)[i] == p.pre[i]
    ensures forall j :: 0 <= j < |StableAndLater(p)| ==> Chronological(p)[19 + j] == StableAndLater(p)[j]
  {
    var rest := p.cooldown[1..] + p.later;
    assert StableAndLater(p) == p.stable + rest;
    assert Chronological(p) == p.pre + p.drain + p.stable[1..] + rest;
    forall j | 0 <= j < |StableAndLater(p)| ensures Chronological(p)[19 + j] == StableAndLater(p)[j] {
    }
  }

  /** Where the two snapshots the verdict derives from stand in the stable and later chain. */
  lemma FinalInChain(p: Probe)
    requires ProbeIsValid(p)
    ensures var post := StableAndLater(p);
            && |post| == |p.stable| + |p.cooldown| - 1 + |p.later|
            && post[0] == p.stable[0]
            && post[|p.stable| + |p.cooldown| - 2] == Last(p.cooldown)
            && post[|post| - 1] == LastRetained(p)
  {
    assert p.cooldown[1..][|p.cooldown| - 2] == Last(p.cooldown);
  }

  /** By how much a series moved from the last scrape before dispatch to the end of the drain. */
  function Move(p: Probe, s: Selector): Result<CounterDelta>
    requires ProbeIsValid(p)
  {
    DeriveCounterDelta(p.pre[9], p.stable[0], s)
  }

  /** Over scrapes that pass the progress checks, every one of the ten series moves by the same amount
      from any scrape before the dispatch to any scrape from the end of the drain on. */
  lemma CountersTelescope(p: Probe, s: Selector, i: nat, j: nat)
    requires ProbeIsValid(p) && p.stable[0] == p.drain[9] && i < 10 && j < |StableAndLater(p)|
    requires Progresses(Chronological(p), s) && StandsStill(p.pre, s)
    ensures Move(p, s).Returned? && DeriveCounterDelta(p.pre[i], StableAndLater(p)[j], s).Returned?
    ensures StandsStill(StableAndLater(p), s)
            ==> DeriveCounterDelta(p.pre[i], StableAndLater(p)[j], s).value.delta == Move(p, s).value.delta
  {
    var chain, post := Chronological(p), StableAndLater(p);
    ChainsMeet(p);
    ChainDelta(chain, s, 9, 19);
    ChainDelta(chain, s, i, 19 + j);
    FinalInChain(p);
    if StandsStill(post, s) {
      if j > 0 {
        ChainDelta(post, s, 0, j);
        DeltasTelescope(p.pre[9], post[0], post[j], s);
      }
      if i < 9 {
        ChainDelta(p.pre, s, i, 9);
        ChainDelta(chain, s, 9, 19 + j);
        DeltasTelescope(p.pre[i], p.pre[9], post[j], s);
      }
    }
  }

  // ---------------------------------------------------------------- the verdict, exactly

  /** The moves an accepted probe may show. */
  predicate MovesAreAllowed(p: Probe)
    requires ProbeIsValid(p)
  {
    && Move(p, PROMPT).Returned? && Move(p, PROMPT).value.delta == 64.0
    && Move(p, GENERATION).Returned? && Move(p, GENERATION).value.delta >= 1.0
    && AbortMoves(p)
    && forall k :: 0 <= k < 3 ==>
       Move(p, AUXILIARY_SERIES[k]).Returned? && Move(p, AUXILIARY_SERIES[k]).value.delta == 0.0
  }

  predicate AbortMoves(p: Probe)
    requires ProbeIsValid(p)
  {
    && (forall k :: 0 <= k < 5 ==> Move(p, REASON_SERIES[k]).Returned?)
    && (Move(p, REASON_SERIES[0]).value.delta == 0.0 || Move(p, REASON_SERIES[0]).value.delta == 1.0)
    && forall k :: 0 < k < 5 ==> Move(p, REASON_SERIES[k]).value.delta == 0.0
  }

  /** All that the verdict asks of the counters in the scrape that opens the cooldown. */
  predicate HeadKeepsGeneration(p: Probe)
    requires ProbeIsValid(p)
  {
    var first, head := SelectExactSeries(p.stable[0], GENERATION), SelectExactSeries(p.cooldown[0], GENERATION);
    first.Returned? && head.Returned? && head.value.value == first.value.value
  }

  predicate PassesSoFar(p: Probe)
    requires ProbeIsValid(p)
  {
    p.stable[0] == p.drain[9] && AllProgress(Chronological(p)) && AllStandStill(p.pre)
  }

  lemma SeriesAreMeasured(s: Selector)
    requires s == PROMPT || s == GENERATION || s in REASON_SERIES || s in AUXILIARY_SERIES
    ensures exists k :: 0 <= k < |MEASURED_SERIES| && MEASURED_SERIES[k] == s
  {
    assert MEASURED_SERIES[0] == PROMPT && MEASURED_SERIES[1] == GENERATION;
    assert MEASURED_SERIES[2] == REASON_SERIES[1] && MEASURED_SERIES[3] == REASON_SERIES[0]
           && MEASURED_SERIES[4] == REASON_SERIES[2];
    assert MEASURED_SERIES[5] == REASON_SERIES[3] && MEASURED_SERIES[6] == REASON_SERIES[4];
    assert MEASURED_SERIES[7] == AUXILIARY_SERIES[0] && MEASURED_SERIES[8] == AUXILIARY_SERIES[1]
           && MEASURED_SERIES[9] == AUXILIARY_SERIES[2];
  }

  /** No derivation from the last scrape before dispatch raises, and while the counters stand still it
      gives the move to the end of the drain. */
  lemma MoveTo(p: Probe, s: Selector, j: nat)
    requires ProbeIsValid(p) && PassesSoFar(p) && j < |StableAndLater(p)|
    requires s == PROMPT || s == GENERATION || s in REASON_SERIES || s in AUXILIARY_SERIES
    ensures Move(p, s).Returned? && DeriveCounterDelta(p.pre[9], StableAndLater(p)[j], s).Returned?
    ensures AllStandStill(StableAndLater(p))
            ==> DeriveCounterDelta(p.pre[9], StableAndLater(p)[j], s).value.delta == Move(p, s).value.delta
  {
    SeriesAreMeasured(s);
    var k :| 0 <= k < |MEASURED_SERIES| && MEASURED_SERIES[k] == s;
    assert Progresses(Chronological(p), MEASURED_SERIES[k]) && StandsStill(p.pre, MEASURED_SERIES[k]);
    CountersTelescope(p, s, 9, j);
    assert AllStandStill(StableAndLater(p)) ==> StandsStill(StableAndLater(p), MEASURED_SERIES[k]);
  }

  lemma MovesTo(p: Probe, series: seq<Selector>, j: nat)
    requires ProbeIsValid(p) && PassesSoFar(p) && j < |StableAndLater(p)|
    requires series == REASON_SERIES || series == AUXILIARY_SERIES
    ensures DeriveAll(p.pre[9], StableAndLater(p)[j], series).Returned?
    ensures forall k :: 0 <= k < |series| ==>
              && Move(p, series[k]).Returned?
              && (AllStandStill(StableAndLater(p)) ==>
                    DeriveAll(p.pre[9], StableAndLater(p)[j], series).value[k].delta == Move(p, series[k]).value.delta)
  {
    forall k | 0 <= k < |series|
      ensures Move(p, series[k]).Returned? && DeriveCounterDelta(p.pre[9], StableAndLater(p)[j], series[k]).Returned?
      ensures AllStandStill(StableAndLater(p)) ==>
                DeriveCounterDelta(p.pre[9], StableAndLater(p)[j], series[k]).value.delta
                == Move(p, series[k]).value.delta
    {
      assert series[k] in series;
      MoveTo(p, series[k], j);
    }
  }

  lemma {:induction false} GenerationStandsStill(p: Probe, j: nat)
    requires ProbeIsValid(p) && AllStandStill(StableAndLater(p)) && j < |StableAndLater(p)|
    ensures SelectExactSeries(p.stable[0], GENERATION).Returned?
            && SelectExactSeries(StableAndLater(p)[j], GENERATION).Returned?
    ensures SelectExactSeries(StableAndLater(p)[j], GENERATION).value.value
            == SelectExactSeries(p.stable[0], GENERATION).value.value
  {
    FinalInChain(p);
    assert StandsStill(StableAndLater(p), MEASURED_SERIES[1]);
    ChainDelta(StableAndLater(p), GENERATION, 0, if j == 0 then 1 else j);
  }

  /** Once the counters stand still, the generation test looks at the cooldown's first scrape only. */
  lemma GenerationTestIsOfHead(p: Probe)
    requires ProbeIsValid(p) && AllStandStill(StableAndLater(p))
    ensures GenerationStays(p) <==> HeadKeepsGeneration(p)
  {
    var all, post, n := p.stable + p.cooldown + p.later, StableAndLater(p), |p.stable|;
    GenerationStandsStill(p, 0);
    assert all[n] == p.cooldown[0];
    forall i | 0 <= i < |all| && i != n ensures i < n ==> all[i] == post[i] ensures i > n ==> all[i] == post[i - 1] {
    }
    forall i | 0 <= i < |all| && i != n
      ensures SelectExactSeries(all[i], GENERATION).Returned?
      ensures SelectExactSeries(all[i], GENERATION).value.value
              == SelectExactSeries(p.stable[0], GENERATION).value.value
    {
      GenerationStandsStill(p, if i < n then i else i - 1);
    }
  }

  /** The verdict as a condition: which probes are accepted. The derivations behind the retained counters
      never raise, and the second test for a later completion never fires. */
  predicate Acceptable(p: Probe, correlate: Correlator)
    requires ProbeIsValid(p)
  {
    && Refusal(p, correlate).None?
    && AllStandStill(StableAndLater(p))
    && MovesAreAllowed(p)
    && HeadKeepsGeneration(p)
    && ResidueIsClear(p)
  }

  lemma AcceptedExactly(p: Probe, correlate: Correlator)
    requires ProbeIsValid(p)
    ensures Evaluate(p, correlate).accepted <==> Acceptable(p, correlate)
  {
    if Refusal(p, correlate).None? {
      CountersDecide(p);
    }
  }

  lemma ReasonsByMoves(p: Probe, j: nat)
    requires ProbeIsValid(p) && PassesSoFar(p) && j < |StableAndLater(p)|
    ensures DeriveAll(p.pre[9], StableAndLater(p)[j], REASON_SERIES).Returned?
    ensures AllStandStill(StableAndLater(p))
            ==> (OneAbortAtMost(DeriveAll(p.pre[9], StableAndLater(p)[j], REASON_SERIES).value) <==> AbortMoves(p))
  {
    MovesTo(p, REASON_SERIES, j);
    var reasons := DeriveAll(p.pre[9], StableAndLater(p)[j], REASON_SERIES).value;
    assert |reasons| == 5;
    if AllStandStill(StableAndLater(p)) {
      assert forall k :: 0 <= k < 5 ==> reasons[k].delta == Move(p, REASON_SERIES[k]).value.delta;
    }
  }

  lemma ReasonsByMovesTo(p: Probe, j: nat, after: Snapshot)
    requires ProbeIsValid(p) && PassesSoFar(p) && j < |StableAndLater(p)| && StableAndLater(p)[j] == after
    ensures DeriveAll(p.pre[9], after, REASON_SERIES).Returned?
    ensures AllStandStill(StableAndLater(p))
            ==> (OneAbortAtMost(DeriveAll(p.pre[9], after, REASON_SERIES).value) <==> AbortMoves(p))
  {
    ReasonsByMoves(p, j);
  }

  lemma AuxiliaryByMoves(p: Probe, j: nat)
    requires ProbeIsValid(p) && PassesSoFar(p) && j < |StableAndLater(p)| && AllStandStill(StableAndLater(p))
    ensures DeriveAll(p.pre[9], StableAndLater(p)[j], AUXILIARY_SERIES).Returned?
    ensures AllZero(DeriveAll(p.pre[9], StableAndLater(p)[j], AUXILIARY_SERIES).value)
            <==> forall k :: 0 <= k < 3 ==>
              Move(p, AUXILIARY_SERIES[k]).Returned? && Move(p, AUXILIARY_SERIES[k]).value.delta == 0.0
  {
    MovesTo(p, AUXILIARY_SERIES, j);
    var deltas := DeriveAll(p.pre[9], StableAndLater(p)[j], AUXILIARY_SERIES).value;
    assert |deltas| == 3;
    assert forall k :: 0 <= k < 3 ==> deltas[k].delta == Move(p, AUXILIARY_SERIES[k]).value.delta;
  }

  /** The last part of the verdict: it accepts the allowed moves, and finds no later completion that the
      retained scrapes did not show. */
  lemma MovesDecide(p: Probe, j: nat, final: Snapshot)
    requires ProbeIsValid(p) && PassesSoFar(p) && AllStandStill(StableAndLater(p)) && AbortMoves(p)
    requires j < |StableAndLater(p)| && StableAndLater(p)[j] == final
    ensures var r := EvaluateMoves(p, p.pre[9], final);
            && (r.accepted <==> MovesAreAllowed(p) && ResidueIsClear(p))
            && !r.classification.LaterCompletion?
  {
    MoveTo(p, PROMPT, j);
    MoveTo(p, GENERATION, j);
    ReasonsByMoves(p, j);
    AuxiliaryByMoves(p, j);
    DerivedReasons(p.pre[9], final);
  }

  lemma CountersDecide(p: Probe)
    requires ProbeIsValid(p) && PassesSoFar(p)
    ensures EvaluateCounters(p).accepted
            <==> AllStandStill(StableAndLater(p)) && MovesAreAllowed(p) && HeadKeepsGeneration(p) && ResidueIsClear(p)
    ensures DeriveAll(p.pre[9], LastRetained(p), REASON_SERIES).Returned?
    ensures EvaluateCounters(p).classification.LaterCompletion?
            <==> !OneAbortAtMost(DeriveAll(p.pre[9], LastRetained(p), REASON_SERIES).value)
  {
    RetainedReasons(p);
    if AllStandStill(StableAndLater(p)) {
      StillCountersDecide(p);
    }
  }

  /** What the retained scrapes say of the reasons. */
  lemma RetainedReasons(p: Probe)
    requires ProbeIsValid(p) && PassesSoFar(p)
    ensures DeriveAll(p.pre[9], LastRetained(p), REASON_SERIES).Returned?
    ensures AllStandStill(StableAndLater(p))
            ==> (OneAbortAtMost(DeriveAll(p.pre[9], LastRetained(p), REASON_SERIES).value) <==> AbortMoves(p))
  {
    FinalInChain(p);
    ReasonsByMovesTo(p, |StableAndLater(p)| - 1, LastRetained(p));
  }

  lemma StillCountersDecide(p: Probe)
    requires ProbeIsValid(p) && PassesSoFar(p) && AllStandStill(StableAndLater(p))
    ensures EvaluateCounters(p).accepted <==> MovesAreAllowed(p) && HeadKeepsGeneration(p) && ResidueIsClear(p)
    ensures EvaluateCounters(p).classification.LaterCompletion? <==> !AbortMoves(p)
  {
    RetainedReasons(p);
    GenerationTestIsOfHead(p);
    if AbortMoves(p) {
      FinalMovesDecide(p);
    }
  }

  lemma FinalMovesDecide(p: Probe)
    requires ProbeIsValid(p) && PassesSoFar(p) && AllStandStill(StableAndLater(p)) && AbortMoves(p)
    ensures var r := EvaluateMoves(p, p.pre[9], Last(p.cooldown));
            && (r.accepted <==> MovesAreAllowed(p) && ResidueIsClear(p))
            && !r.classification.LaterCompletion?
  {
    FinalInChain(p);
    MovesDecide(p, |p.stable| + |p.cooldown| - 2, Last(p.cooldown));
  }

  /** A later completion is only ever found in the retained scrapes: the second test for it never fires. */
  lemma LaterCompletionExactly(p: Probe, correlate: Correlator)
    requires ProbeIsValid(p)
    ensures Refusal(p, correlate).None? ==> DeriveAll(p.pre[9], LastRetained(p), REASON_SERIES).Returned?
    ensures Evaluate(p, correlate).classification.LaterCompletion?
            <==> Refusal(p, correlate).None?
                 && !OneAbortAtMost(DeriveAll(p.pre[9], LastRetained(p), REASON_SERIES).value)
  {
    if Refusal(p, correlate).None? {
      CountersDecide(p);
    }
  }

  /** For an accepted probe every counter is constant before the dispatch and from the end of the drain
      on, so any two scrapes on either side give the reported deltas again. */
  lemma AcceptedCountersTelescope(p: Probe, correlate: Correlator, i: nat, j: nat)
    requires ProbeIsValid(p) && Evaluate(p, correlate).accepted && i < 10 && j < |StableAndLater(p)|
    ensures AllStandStill(p.pre) && AllStandStill(StableAndLater(p))
    ensures SameMove(p.pre[i], StableAndLater(p)[j], PROMPT, Evaluate(p, correlate).prompt)
    ensures SameMove(p.pre[i], StableAndLater(p)[j], GENERATION, Evaluate(p, correlate).generation)
    ensures |Evaluate(p, correlate).reasons| == 5 && |Evaluate(p, correlate).auxiliary| == 3
    ensures forall k :: 0 <= k < 5 ==>
              SameMove(p.pre[i], StableAndLater(p)[j], REASON_SERIES[k], Some(Evaluate(p, correlate).reasons[k]))
    ensures forall k :: 0 <= k < 3 ==>
              SameMove(p.pre[i], StableAndLater(p)[j], AUXILIARY_SERIES[k], Some(Evaluate(p, correlate).auxiliary[k]))
  {
    AcceptedExactly(p, correlate);
    AcceptedResultIs(p);
    var r := Evaluate(p, correlate);
    MovesAlike(p, PROMPT, i, j);
    MovesAlike(p, GENERATION, i, j);
    forall k | 0 <= k < 5 ensures SameMove(p.pre[i], StableAndLater(p)[j], REASON_SERIES[k], Some(r.reasons[k])) {
      MovesAlike(p, REASON_SERIES[k], i, j);
    }
    forall k | 0 <= k < 3 ensures SameMove(p.pre[i], StableAndLater(p)[j], AUXILIARY_SERIES[k], Some(r.auxiliary[k])) {
      MovesAlike(p, AUXILIARY_SERIES[k], i, j);
    }
  }

  /** Deriving the series between these scrapes gives the reported delta. */
  predicate SameMove(before: Snapshot, after: Snapshot, s: Selector, reported: Option<CounterDelta>) {
    && reported.Some? && DeriveCounterDelta(before, after, s).Returned?
    && DeriveCounterDelta(before, after, s).value.delta == reported.value.delta
  }

  lemma MovesAlike(p: Probe, s: Selector, i: nat, j: nat)
    requires ProbeIsValid(p) && PassesSoFar(p) && AllStandStill(StableAndLater(p)) && i < 10 && j < |StableAndLater(p)|
    requires s == PROMPT || s == GENERATION || s in REASON_SERIES || s in AUXILIARY_SERIES
    ensures DeriveCounterDelta(p.pre[i], StableAndLater(p)[j], s).Returned?
            && DeriveCounterDelta(p.pre[9], Last(p.cooldown), s).Returned?
    ensures DeriveCounterDelta(p.pre[i], StableAndLater(p)[j], s).value.delta
            == DeriveCounterDelta(p.pre[9], Last(p.cooldown), s).value.delta
  {
    SeriesAreMeasured(s);
    var k :| 0 <= k < |MEASURED_SERIES| && MEASURED_SERIES[k] == s;
    MeasuredMovesAlike(p, k, i, j);
  }

  lemma MeasuredMovesAlike(p: Probe, k: nat, i: nat, j: nat)
    requires ProbeIsValid(p) && PassesSoFar(p) && AllStandStill(StableAndLater(p)) && i < 10 && j < |StableAndLater(p)|
    requires k < |MEASURED_SERIES|
    ensures var s := MEASURED_SERIES[k];
            && DeriveCounterDelta(p.pre[i], StableAndLater(p)[j], s).Returned?
               && DeriveCounterDelta(p.pre[9], Last(p.cooldown), s).Returned?
            && DeriveCounterDelta(p.pre[i], StableAndLater(p)[j], s).value.delta
               == DeriveCounterDelta(p.pre[9], Last(p.cooldown), s).value.delta
  {
    var s := MEASURED_SERIES[k];
    assert Progresses(Chronological(p), s) && StandsStill(p.pre, s) && StandsStill(StableAndLater(p), s);
    FinalInChain(p);
    CountersTelescope(p, s, i, j);
    CountersTelescope(p, s, 9, |p.stable| + |p.cooldown| - 2);
  }

  // ---------------------------------------------------------------- the clocks of an accepted probe

  lemma {:induction false} ClocksGrow(all: seq<Snapshot>, i: nat, j: nat)
    requires i <= j < |all| && forall k :: 0 < k < |all| ==> all[k - 1].at <= all[k].at
    ensures all[i].at <= all[j].at
    decreases j - i
  {
    if i < j {
      ClocksGrow(all, i, j - 1);
    }
  }

  /** Where the scrapes stand among all scrapes; the chain leaves out the cooldown's first. */
  lemma PlacesInAll(p: Probe, j: nat)
    requires ProbeIsValid(p) && j < |StableAndLater(p)|
    ensures forall i :: 0 <= i < 10 ==> AllSnapshots(p)[i] == p.pre[i] && AllSnapshots(p)[10 + i] == p.drain[i]
    ensures var at := 20 + j + if j < |p.stable| then 0 else 1;
            at < |AllSnapshots(p)| && AllSnapshots(p)[at] == StableAndLater(p)[j]
    ensures AllSnapshots(p)[19 + |p.stable| + |p.cooldown|] == Last(p.cooldown)
  {
  }

  lemma ClocksStraddle(p: Probe, i: nat, j: nat)
    requires ProbeIsValid(p) && i < 10 && j < |StableAndLater(p)|
    requires forall k :: 0 < k < |AllSnapshots(p)| ==> AllSnapshots(p)[k - 1].at <= AllSnapshots(p)[k].at
    ensures p.pre[i].at <= p.pre[9].at && p.drain[0].at <= StableAndLater(p)[j].at
    ensures j < |p.stable| + |p.cooldown| - 1 ==> StableAndLater(p)[j].at <= Last(p.cooldown).at
  {
    var at := 20 + j + if j < |p.stable| then 0 else 1;
    PlacesInAll(p, j);
    ClocksGrow(AllSnapshots(p), i, 9);
    ClocksGrow(AllSnapshots(p), 10, at);
    if j < |p.stable| + |p.cooldown| - 1 {
      ClocksGrow(AllSnapshots(p), at, 19 + |p.stable| + |p.cooldown|);
    }
  }

  /** The scrapes whose counters an accepted verdict compares lie on either side of the whole request:
      every one of the first kind before its dispatch, every one of the second behind its close and both
      of its abort records, and those up to the end of the cooldown within ten seconds of the close; the
      server was watched at rest for three seconds or more. */
  lemma AcceptedScrapesStraddle(p: Probe, correlate: Correlator, i: nat, j: nat)
    requires ProbeIsValid(p) && Evaluate(p, correlate).accepted && i < 10 && j < |StableAndLater(p)|
    ensures p.chain.internalAbort.Some? && p.chain.externalAbort.Some?
    ensures p.pre[i].at < p.dispatchAt <= p.chain.received.at <= p.chain.added.at <= p.delivery.at
    ensures p.dispatchAt < p.delivery.at <= p.closeAt <= p.chain.internalAbort.value.at
    ensures p.chain.internalAbort.value.at <= p.chain.externalAbort.value.at <= StableAndLater(p)[j].at
    ensures j < |p.stable| + |p.cooldown| - 1 ==> StableAndLater(p)[j].at <= p.closeAt + 10_000_000_000
    ensures Last(p.cooldown).at - p.drain[9].at >= 3_000_000_000
  {
    AcceptedPassesGates(p, correlate);
    ClocksStraddle(p, i, j);
  }

  lemma AcceptedPassesGates(p: Probe, correlate: Correlator)
    requires ProbeIsValid(p) && Evaluate(p, correlate).accepted
    ensures p.chain.internalAbort.Some? && p.chain.externalAbort.Some?
    ensures ClosedAfterDelivery(p) && LogsInOrder(p) && ScrapesAreObserved(p) && PreIsSpaced(p) && WindowsConnect(p)
  {
  }

  // ---------------------------------------------------------------- the scrape that opens the cooldown

  /** Where the cooldown's first scrape stands among all scrapes. */
  function HeadAt(p: Probe): nat {
    |p.pre| + |p.drain| + |p.stable|
  }

  /** The probe with another scrape at the head of its cooldown, observed at the same clocks. */
  function WithHead(p: Probe, head: Snapshot): Probe
    requires ProbeIsValid(p) && HeadAt(p) < |p.observations|
  {
    p.(cooldown := p.cooldown[0 := head],
       observations := p.observations[HeadAt(p) := p.observations[HeadAt(p)].(identity := head)])
  }

  lemma HeadInSnapshots(p: Probe, head: Snapshot)
    requires ProbeIsValid(p) && HeadAt(p) < |p.observations|
    ensures |AllSnapshots(p)| > HeadAt(p) && AllSnapshots(p)[HeadAt(p)] == p.cooldown[0]
    ensures AllSnapshots(WithHead(p, head)) == AllSnapshots(p)[HeadAt(p) := head]
  {
    var before, after := p.pre + p.drain + p.stable, p.cooldown + p.later;
    assert AllSnapshots(p) == before + after;
    assert AllSnapshots(WithHead(p, head)) == before + (p.cooldown[0 := head] + p.later);
    assert p.cooldown[0 := head] + p.later == after[0 := head];
  }

  lemma HeadInKeys(p: Probe, head: Snapshot)
    requires ProbeIsValid(p) && HeadAt(p) < |p.observations| && ActualKeys(p.observations) == ExpectedKeys(p)
    ensures ActualKeys(WithHead(p, head).observations) == ExpectedKeys(WithHead(p, head))
  {
    var h, key := HeadAt(p), Key(Cooldown, 0, head);
    var before := Keys(PreDispatch, p.pre) + Keys(Drain, p.drain) + Keys(StableGeneration, p.stable);
    var cooldown, later := Keys(Cooldown, p.cooldown), Keys(Later, p.later);
    assert ExpectedKeys(p) == before + cooldown + later && |before| == h;
    assert ExpectedKeys(p)[h] == cooldown[0];
    assert Keys(Cooldown, p.cooldown[0 := head]) == cooldown[0 := key];
    assert ExpectedKeys(WithHead(p, head)) == before + cooldown[0 := key] + later;
    assert before + cooldown[0 := key] + later == (before + cooldown + later)[h := key];
    assert ActualKeys(WithHead(p, head).observations) == ActualKeys(p.observations)[h := key];
  }

  lemma HeadKeepsObserved(p: Probe, head: Snapshot)
    requires ProbeIsValid(p) && HeadAt(p) < |p.observations| && ScrapesAreObserved(p) && head.at == p.cooldown[0].at
    ensures ScrapesAreObserved(WithHead(p, head))
  {
    HeadInKeys(p, head);
    HeadInSnapshots(p, head);
    var all, all' := AllSnapshots(p), AllSnapshots(WithHead(p, head));
    assert |all'| == |all| && forall i :: 0 <= i < |all| ==> all'[i].at == all[i].at;
    var o, o' := p.observations, WithHead(p, head).observations;
    assert forall i :: 0 <= i < |o| ==> Clocks(o'[i]) == Clocks(o[i]);
  }

  lemma HeadKeepsScrapes(p: Probe, head: Snapshot)
    requires ProbeIsValid(p) && HeadAt(p) < |p.observations| && SameProcess(p) && AllQuiescent(p)
    requires head.process == p.serverProcess && RequireQuiescent(head)
    ensures SameProcess(WithHead(p, head)) && AllQuiescent(WithHead(p, head))
  {
    HeadInSnapshots(p, head);
  }

  lemma HeadKeepsSchedule(p: Probe, head: Snapshot, first: nat, end: nat, exactly: bool)
    requires ProbeIsValid(p) && HeadAt(p) < |p.observations| && ScheduledApart(p.observations, first, end, exactly)
    ensures ScheduledApart(WithHead(p, head).observations, first, end, exactly)
  {
    var o, o' := p.observations, WithHead(p, head).observations;
    assert forall i :: 0 <= i < |o| ==> o'[i].scheduled == o[i].scheduled;
  }

  lemma HeadKeepsWindows(p: Probe, head: Snapshot)
    requires ProbeIsValid(p) && p.chain.externalAbort.Some? && PreIsSpaced(p) && WindowsConnect(p)
             && head.at == p.cooldown[0].at
    ensures HeadAt(p) < |p.observations| && PreIsSpaced(WithHead(p, head)) && WindowsConnect(WithHead(p, head))
  {
    var toStable, toCooldown := 20, 20 + |p.stable|;
    assert HeadAt(p) == toCooldown;
    HeadKeepsSchedule(p, head, 0, 10, false);
    HeadKeepsSchedule(p, head, 10, 20, false);
    HeadKeepsSchedule(p, head, toStable, toCooldown, true);
    HeadKeepsSchedule(p, head, toCooldown, toCooldown + |p.cooldown|, true);
  }

  lemma HeadIsNotInChains(p: Probe, head: Snapshot)
    requires ProbeIsValid(p) && HeadAt(p) < |p.observations|
    ensures Chronological(WithHead(p, head)) == Chronological(p)
            && StableAndLater(WithHead(p, head)) == StableAndLater(p)
    ensures LastRetained(WithHead(p, head)) == LastRetained(p) && Last(WithHead(p, head).cooldown) == Last(p.cooldown)
  {
    assert p.cooldown[0 := head][1..] == p.cooldown[1..];
  }

  lemma HeadKeepsPassing(p: Probe, head: Snapshot, correlate: Correlator)
    requires ProbeIsValid(p) && Refusal(p, correlate).None?
    requires head.at == p.cooldown[0].at && head.process == p.serverProcess && RequireQuiescent(head)
    ensures HeadAt(p) < |p.observations| && Refusal(WithHead(p, head), correlate).None?
  {
    HeadKeepsWindows(p, head);
    HeadKeepsObserved(p, head);
    HeadKeepsScrapes(p, head);
    HeadIsNotInChains(p, head);
  }

  /** The cooldown's first scrape is tied to the end of the stable window by its clock only: another
      quiescent scrape of the process at the same clock with the same generation count, whatever its
      other nine counters say, leaves an accepted verdict as it is. */
  lemma CooldownHeadIsUnchecked(p: Probe, head: Snapshot, correlate: Correlator)
    requires ProbeIsValid(p) && Evaluate(p, correlate).accepted
    requires head.at == p.cooldown[0].at && head.process == p.serverProcess && RequireQuiescent(head)
    requires SelectExactSeries(head, GENERATION).Returned?
             && SelectExactSeries(p.stable[0], GENERATION).Returned?
             && SelectExactSeries(head, GENERATION).value.value
                == SelectExactSeries(p.stable[0], GENERATION).value.value
    ensures HeadAt(p) < |p.observations| && Evaluate(WithHead(p, head), correlate) == Evaluate(p, correlate)
  {
    AcceptedExactly(p, correlate);
    HeadKeepsAcceptable(p, head, correlate);
    AcceptedExactly(WithHead(p, head), correlate);
    HeadIsNotInChains(p, head);
    AcceptedAlike(p, WithHead(p, head));
  }

  lemma HeadKeepsAcceptable(p: Probe, head: Snapshot, correlate: Correlator)
    requires ProbeIsValid(p) && Acceptable(p, correlate)
    requires head.at == p.cooldown[0].at && head.process == p.serverProcess && RequireQuiescent(head)
    requires SelectExactSeries(head, GENERATION).Returned?
             && SelectExactSeries(head, GENERATION).value.value
                == SelectExactSeries(p.stable[0], GENERATION).value.value
    ensures HeadAt(p) < |p.observations| && Acceptable(WithHead(p, head), correlate)
  {
    HeadKeepsPassing(p, head, correlate);
    HeadIsNotInChains(p, head);
    var q := WithHead(p, head);
    assert q.pre == p.pre && q.stable == p.stable && q.residual == p.residual;
  }

  lemma AcceptedAlike(p: Probe, q: Probe)
    requires ProbeIsValid(p) && ProbeIsValid(q) && EvaluateCounters(p).accepted && EvaluateCounters(q).accepted
    requires p.pre == q.pre && Last(p.cooldown) == Last(q.cooldown)
    ensures EvaluateCounters(p) == EvaluateCounters(q)
  {
    AcceptedResultIs(p);
    AcceptedResultIs(q);
  }
}
