/** The cancellation verdict told from the fields of a probe: which gate a probe fails first, and what its
    scrapes must show sample by sample to be accepted. No step of the decision procedure occurs here. */
module CancellationVerdict {
  import opened Prelude
  import opened Prometheus
  import opened RawLog
  import opened Sse
  import opened Cancellation

  // ---------------------------------------------------------------- identity and clocks

  /** The ids of the response follow from the request's. */
  predicate NamesFollow(p: Probe) {
    && p.chain.responseId == "cmpl-" + p.chain.externalId
    && p.chain.servingItemId == "cmpl-" + (p.chain.externalId + "-0")
  }

  predicate BothAbortsLogged(p: Probe) {
    p.chain.externalAbort.Some? && p.chain.internalAbort.Some?
  }

  /** The log, and no other, tells this chain of this request, behind the given offset; and the delivery is
      the same request's. */
  predicate LogTellsChain(p: Probe, correlate: Correlator) {
    && correlate(p.chain.externalId, p.capture.records).Some?
    && correlate(p.chain.externalId, p.capture.records).value == p.chain
    && p.capture.exact == p.captureDigest && p.capture.stream == p.serverProcess + "-raw-log"
    && p.logStart <= p.chain.received.byteStart
    && p.delivery.externalId == p.chain.externalId && p.delivery.responseId == p.chain.responseId
  }

  /** Dispatch, both log records of the request, delivery, close and both abort records, in this order. */
  predicate ClocksFollow(p: Probe)
    requires BothAbortsLogged(p)
  {
    && p.dispatchAt <= p.chain.received.at <= p.chain.added.at <= p.delivery.at <= p.closeAt
    && p.closeAt <= p.chain.internalAbort.value.at <= p.chain.externalAbort.value.at
    && p.dispatchAt < p.delivery.at
  }

  // ---------------------------------------------------------------- scrapes

  function AllScrapes(p: Probe): seq<Snapshot> {
    p.pre + (p.drain + (p.stable + (p.cooldown + p.later)))
  }

  /** Phase and number of the scrape at `i`. */
  function PlaceAt(p: Probe, i: nat): (ScrapePhase, int) {
    if i < 10 then (PreDispatch, i)
    else if i < 20 then (Drain, i - 10)
    else if i < 20 + |p.stable| then (StableGeneration, i - 20)
    else if i < 20 + |p.stable| + |p.cooldown| then (Cooldown, i - 20 - |p.stable|)
    else (Later, i - 20 - |p.stable| - |p.cooldown|)
  }

  /** One scrape and its observation: in its place, at clocks in order, of the server's process, at rest. */
  ghost predicate IsScraped(p: Probe, o: Observation, x: Snapshot, i: nat) {
    && (o.phase, o.ordinal) == PlaceAt(p, i) && o.identity == x
    && o.scheduled <= o.dispatched <= o.completed == x.at
    && x.process == p.serverProcess
    && Shows(x, RequestsRunning, None, 0.0) && Shows(x, RequestsWaiting, None, 0.0)
  }

  ghost predicate AllScraped(p: Probe) {
    var all := AllScrapes(p);
    && |p.observations| == |all|
    && (forall i :: 0 <= i < |all| ==> IsScraped(p, p.observations[i], all[i], i))
    && forall i :: 0 < i < |all| ==> all[i - 1].at <= all[i].at
  }

  predicate IsObserved(p: Probe) {
    |p.observations| >= 20 + |p.stable| + |p.cooldown|
  }

  /** Ten scrapes before the dispatch, scheduled and taken a tenth of a second apart or more. */
  predicate WatchedBefore(p: Probe)
    requires ProbeIsValid(p)
  {
    && (forall i :: 1 <= i < 10 ==> p.observations[i].scheduled >= p.observations[i - 1].scheduled + 100_000_000)
    && (forall i :: 1 <= i < 10 ==> p.pre[i].at >= p.pre[i - 1].at + 100_000_000)
    && p.pre[9].at < p.dispatchAt
  }

  /** Ten scrapes behind the close and the abort, likewise. */
  predicate WatchedDraining(p: Probe)
    requires ProbeIsValid(p) && BothAbortsLogged(p)
  {
    && p.drain[0].at >= p.closeAt && p.drain[0].at >= p.chain.externalAbort.value.at
    && (forall i :: 11 <= i < 20 ==> p.observations[i].scheduled >= p.observations[i - 1].scheduled + 100_000_000)
    && forall i :: 1 <= i < 10 ==> p.drain[i].at >= p.drain[i - 1].at + 100_000_000
  }

  /** From the last of them on a second or more, scheduled at exact tenths. */
  predicate WatchedStable(p: Probe)
    requires ProbeIsValid(p) && IsObserved(p)
  {
    var o := p.observations;
    && p.stable[0] == p.drain[9]
    && o[20].scheduled == o[19].scheduled && o[20].dispatched == o[19].dispatched && o[20].completed == o[19].completed
    && (forall i :: 20 < i < 20 + |p.stable| ==> o[i].scheduled == o[i - 1].scheduled + 100_000_000)
    && p.stable[|p.stable| - 1].at >= p.stable[0].at + 1_000_000_000
  }

  /** From the last of those on two seconds or more, likewise, and within ten seconds of the close; what is
      retained later lies behind. */
  predicate WatchedCooling(p: Probe)
    requires ProbeIsValid(p) && IsObserved(p) && BothAbortsLogged(p)
  {
    var o, s, last := p.observations, 20 + |p.stable|, p.cooldown[|p.cooldown| - 1].at;
    && p.cooldown[0].at == p.stable[|p.stable| - 1].at
    && o[s].scheduled == o[s - 1].scheduled && o[s].dispatched == o[s - 1].dispatched
    && o[s].completed == o[s - 1].completed
    && (forall i :: s < i < s + |p.cooldown| ==> o[i].scheduled == o[i - 1].scheduled + 100_000_000)
    && p.cooldown[0].at + 2_000_000_000 <= last <= p.closeAt + 10_000_000_000
    && p.chain.externalAbort.value.at <= last
    && (forall i :: 0 <= i < |p.later| ==> p.later[i].at > last)
    && forall i :: 1 <= i < |p.later| ==> p.later[i].at >= p.later[i - 1].at
  }

  predicate InWindows(p: Probe)
    requires ProbeIsValid(p) && BothAbortsLogged(p)
  {
    IsObserved(p) && WatchedBefore(p) && WatchedDraining(p) && WatchedStable(p) && WatchedCooling(p)
  }

  // ---------------------------------------------------------------- counters

  /** The ten series: prompt, generation, five ends of a request, three others. */
  function SeriesAt(k: nat): Selector {
    if k == 0 then Selector(PromptTokens, None)
    else if k == 1 then Selector(GenerationTokens, None)
    else if k == 2 then Selector(RequestSuccess, Some("abort"))
    else if k == 3 then Selector(RequestSuccess, Some("length"))
    else if k == 4 then Selector(RequestSuccess, Some("stop"))
    else if k == 5 then Selector(RequestSuccess, Some("error"))
    else if k == 6 then Selector(RequestSuccess, Some("repetition"))
    else if k == 7 then Selector(Preemptions, None)
    else if k == 8 then Selector(CacheQueries, None)
    else Selector(CacheHits, None)
  }

  ghost predicate ShowsAt(x: Snapshot, k: nat, v: real) {
    Shows(x, SeriesAt(k).metric, SeriesAt(k).reason, v)
  }

  /** From one scrape to the next of the same process, which is later and shows the same labels, a series
      does not fall; and it stands still if so asked. */
  ghost predicate Steps(x: Snapshot, y: Snapshot, k: nat, still: bool) {
    && x.process == y.process && x.at < y.at && SameFamily(x, y, SeriesAt(k).metric)
    && exists v: real, w: real :: ShowsAt(x, k, v) && ShowsAt(y, k, w) && v <= w && (still ==> v == w)
  }

  /** By how much a series may move over the request. */
  predicate MayMove(k: nat, d: real) {
    if k == 0 then d == 64.0 else if k == 1 then d >= 1.0 else if k == 2 then d == 0.0 || d == 1.0 else d == 0.0
  }

  ghost predicate MovesAsMeant(x: Snapshot, y: Snapshot, k: nat) {
    forall v: real, w: real :: ShowsAt(x, k, v) && ShowsAt(y, k, w) ==> MayMove(k, w - v)
  }

  /** Every scrape once; the windows share their ends. */
  function Chain(p: Probe): seq<Snapshot>
    requires ProbeIsValid(p)
  {
    p.pre + (p.drain + (p.stable[1..] + (p.cooldown[1..] + p.later)))
  }

  /** No series falls anywhere, and none moves before the dispatch. */
  ghost predicate NeverFall(p: Probe)
    requires ProbeIsValid(p)
  {
    && (forall k: nat, i: nat :: k < 10 && 0 < i < |Chain(p)| ==> StepsAt(p, k, i, false))
    && forall k: nat, i: nat :: k < 10 && 0 < i < 10 ==> StepsAt(p, k, i, true)
  }

  ghost predicate StepsAt(p: Probe, k: nat, i: nat, still: bool)
    requires ProbeIsValid(p) && 0 < i < |Chain(p)|
  {
    Steps(Chain(p)[i - 1], Chain(p)[i], k, still)
  }

  function LastScrape(p: Probe): Snapshot
    requires ProbeIsValid(p)
  {
    if p.later == [] then p.cooldown[|p.cooldown| - 1] else p.later[|p.later| - 1]
  }

  /** What the last scrape of all says of ended requests: at most one abort, and no other end. */
  ghost predicate EndsAsAborted(p: Probe)
    requires ProbeIsValid(p)
  {
    forall k: nat :: 2 <= k < 7 ==> MovesAsMeant(p.pre[9], LastScrape(p), k)
  }

  /** From the drain's end on nothing moves, up to there everything moved as it may, the scrape at the head of
      the cooldown shows the same generation count, and nothing of the request is left. */
  ghost predicate ComesToRest(p: Probe)
    requires ProbeIsValid(p)
  {
    && (forall k: nat, i: nat :: k < 10 && 20 <= i < |Chain(p)| ==> StepsAt(p, k, i, true))
    && (forall k: nat :: k < 10 ==> MovesAsMeant(p.pre[9], p.stable[0], k))
    && (exists v: real :: ShowsAt(p.stable[0], 1, v) && ShowsAt(p.cooldown[0], 1, v))
    && p.residual.inventory == p.residual.hashedInventory && p.residual.at >= LastScrape(p).at
    && p.residual.activeIds == [] && p.residual.processIds == []
  }

  /** All that is asked of the scrapes before their counters are compared. */
  ghost predicate ScrapesAreSound(p: Probe)
    requires ProbeIsValid(p) && BothAbortsLogged(p)
  {
    AllScraped(p) && InWindows(p) && NeverFall(p)
  }

  // ---------------------------------------------------------------- the gates, one by one

  lemma PlaceIsKey(p: Probe, i: nat)
    requires ProbeIsValid(p) && i < |AllSnapshots(p)|
    ensures |ExpectedKeys(p)| == |AllSnapshots(p)|
    ensures ExpectedKeys(p)[i].identity == AllSnapshots(p)[i]
    ensures (ExpectedKeys(p)[i].phase, ExpectedKeys(p)[i].ordinal) == PlaceAt(p, i)
  {
  }

  lemma SameScrapes(p: Probe)
    ensures AllScrapes(p) == AllSnapshots(p)
  {
  }

  lemma KeysByPlace(p: Probe)
    requires ProbeIsValid(p)
    ensures ActualKeys(p.observations) == ExpectedKeys(p)
            <==> && |p.observations| == |AllSnapshots(p)|
                 && forall i :: 0 <= i < |p.observations| ==>
                      (p.observations[i].phase, p.observations[i].ordinal) == PlaceAt(p, i)
                      && p.observations[i].identity == AllSnapshots(p)[i]
  {
    var actual, expected := ActualKeys(p.observations), ExpectedKeys(p);
    forall i: nat | i < |AllSnapshots(p)|
      ensures |expected| == |AllSnapshots(p)| && expected[i].identity == AllSnapshots(p)[i]
      ensures (expected[i].phase, expected[i].ordinal) == PlaceAt(p, i)
    {
      PlaceIsKey(p, i);
    }
    PlaceIsKey(p, 0);
    if |p.observations| == |AllSnapshots(p)| {
      forall i | 0 <= i < |actual|
        ensures actual[i] == expected[i]
                <==> (p.observations[i].phase, p.observations[i].ordinal) == PlaceAt(p, i)
                     && p.observations[i].identity == AllSnapshots(p)[i]
      {
      }
    }
  }

  lemma ScrapedExactly(p: Probe)
    requires ProbeIsValid(p)
    ensures AllScraped(p) <==> SameProcess(p) && ScrapesAreObserved(p) && AllQuiescent(p)
  {
    SameScrapes(p);
    KeysByPlace(p);
    var all := AllSnapshots(p);
    forall i | 0 <= i < |all|
      ensures RequireQuiescent(all[i])
              <==> Shows(all[i], RequestsRunning, None, 0.0) && Shows(all[i], RequestsWaiting, None, 0.0)
    {
      RestsExactly(all[i]);
    }
  }

  lemma WindowsExactly(p: Probe)
    requires ProbeIsValid(p) && BothAbortsLogged(p)
    ensures InWindows(p) <==> PreIsSpaced(p) && WindowsConnect(p)
  {
    if IsObserved(p) {
      BeforeExactly(p);
      BehindExactly(p);
    }
  }

  lemma BeforeExactly(p: Probe)
    requires ProbeIsValid(p)
    ensures WatchedBefore(p) <==> PreIsSpaced(p)
  {
    ScheduleExactly(p.observations, 0, 10, false);
    SpacingExactly(p.pre);
  }

  lemma BehindExactly(p: Probe)
    requires ProbeIsValid(p) && BothAbortsLogged(p) && IsObserved(p)
    ensures WatchedDraining(p) && WatchedStable(p) && WatchedCooling(p) <==> WindowsConnect(p)
  {
    var o, s, c := p.observations, 20 + |p.stable|, 20 + |p.stable| + |p.cooldown|;
    ScheduleExactly(o, 10, 20, false);
    ScheduleExactly(o, 20, s, true);
    ScheduleExactly(o, s, c, true);
    SpacingExactly(p.drain);
    LaterExactly(p.later);
  }

  lemma ScheduleExactly(o: seq<Observation>, first: nat, end: nat, exactly: bool)
    requires end <= |o|
    ensures ScheduledApart(o, first, end, exactly)
            <==> forall i :: first < i < end ==>
                   if exactly then o[i].scheduled == o[i - 1].scheduled + 100_000_000
                   else o[i].scheduled >= o[i - 1].scheduled + 100_000_000
  {
  }

  lemma SpacingExactly(scrapes: seq<Snapshot>)
    ensures SpacedAtLeast(scrapes, 100_000_000)
            <==> forall i :: 1 <= i < |scrapes| ==> scrapes[i].at >= scrapes[i - 1].at + 100_000_000
  {
  }

  lemma LaterExactly(later: seq<Snapshot>)
    ensures (forall i :: 1 <= i < |later| ==> later[i].at >= later[i - 1].at)
            <==> forall i :: 0 < i < |later| ==> later[i - 1].at <= later[i].at
  {
  }

  // ---------------------------------------------------------------- counters, by their samples

  lemma StepsExactly(x: Snapshot, y: Snapshot, k: nat)
    requires k < 10
    ensures Steps(x, y, k, false) <==> DeriveCounterDelta(x, y, SeriesAt(k)).Returned?
    ensures Steps(x, y, k, true)
            <==> DeriveCounterDelta(x, y, SeriesAt(k)).Returned?
                 && DeriveCounterDelta(x, y, SeriesAt(k)).value.delta == 0.0
  {
    var s := SeriesAt(k);
    DerivesExactly(x, y, s);
    if DeriveCounterDelta(x, y, s).Returned? {
      var v: real, w: real :| v <= w && Shows(x, s.metric, s.reason, v) && Shows(y, s.metric, s.reason, w);
      assert ShowsAt(x, k, v) && ShowsAt(y, k, w);
      assert DeriveCounterDelta(x, y, s).value.delta == w - v;
    }
    if Steps(x, y, k, false) {
      var v: real, w: real :| ShowsAt(x, k, v) && ShowsAt(y, k, w) && v <= w;
      assert Shows(x, s.metric, s.reason, v) && Shows(y, s.metric, s.reason, w);
    }
    if Steps(x, y, k, true) {
      var v: real, w: real :| ShowsAt(x, k, v) && ShowsAt(y, k, w) && v <= w && v == w;
      assert Shows(x, s.metric, s.reason, v) && Shows(y, s.metric, s.reason, w);
    }
  }

  lemma MovesExactly(x: Snapshot, y: Snapshot, k: nat)
    requires k < 10 && DeriveCounterDelta(x, y, SeriesAt(k)).Returned?
    ensures MovesAsMeant(x, y, k) <==> MayMove(k, DeriveCounterDelta(x, y, SeriesAt(k)).value.delta)
  {
    var s := SeriesAt(k);
    DerivesExactly(x, y, s);
    var v: real, w: real :| v <= w && Shows(x, s.metric, s.reason, v) && Shows(y, s.metric, s.reason, w);
    assert ShowsAt(x, k, v) && ShowsAt(y, k, w);
    assert DeriveCounterDelta(x, y, s).value.delta == w - v;
    forall v': real, w': real | ShowsAt(x, k, v') && ShowsAt(y, k, w')
      ensures w' - v' == DeriveCounterDelta(x, y, s).value.delta
    {
      assert Shows(x, s.metric, s.reason, v') && Shows(y, s.metric, s.reason, w');
    }
  }

  /** The ten series are those that the procedure measures, in another order. */
  lemma SeriesAreMeasuredAt(k: nat) returns (m: nat)
    requires k < 10
    ensures m < |MEASURED_SERIES| && MEASURED_SERIES[m] == SeriesAt(k)
  {
    m := if k == 0 then 0 else if k == 1 then 1 else if k == 2 then 3 else if k == 3 then 2 else k;
  }

  lemma MeasuredAreSeriesAt(m: nat) returns (k: nat)
    requires m < |MEASURED_SERIES|
    ensures k < 10 && MEASURED_SERIES[m] == SeriesAt(k)
  {
    k := if m == 2 then 3 else if m == 3 then 2 else m;
  }

  ghost predicate AllStep(chain: seq<Snapshot>, still: bool) {
    forall k: nat, i: nat :: k < 10 && 0 < i < |chain| ==> StepsIn(chain, k, i, still)
  }

  ghost predicate StepsIn(chain: seq<Snapshot>, k: nat, i: nat, still: bool)
    requires 0 < i < |chain|
  {
    Steps(chain[i - 1], chain[i], k, still)
  }

  lemma ProgressExactly(chain: seq<Snapshot>)
    ensures AllProgress(chain) <==> AllStep(chain, false)
  {
    if AllProgress(chain) {
      forall k: nat, i: nat | k < 10 && 0 < i < |chain| ensures StepsIn(chain, k, i, false) {
        var m := SeriesAreMeasuredAt(k);
        StepsExactly(chain[i - 1], chain[i], k);
        assert Progresses(chain, MEASURED_SERIES[m]);
      }
    }
    if AllStep(chain, false) {
      forall m | 0 <= m < |MEASURED_SERIES| ensures Progresses(chain, MEASURED_SERIES[m]) {
        var k := MeasuredAreSeriesAt(m);
        forall i: nat | 0 < i < |chain|
          ensures DeriveCounterDelta(chain[i - 1], chain[i], MEASURED_SERIES[m]).Returned?
        {
          assert StepsIn(chain, k, i, false);
          StepsExactly(chain[i - 1], chain[i], k);
        }
      }
    }
  }

  lemma StandStillExactly(chain: seq<Snapshot>)
    ensures AllStandStill(chain) <==> AllStep(chain, true)
  {
    if AllStandStill(chain) {
      forall k: nat, i: nat | k < 10 && 0 < i < |chain| ensures StepsIn(chain, k, i, true) {
        var m := SeriesAreMeasuredAt(k);
        StepsExactly(chain[i - 1], chain[i], k);
        assert StandsStill(chain, MEASURED_SERIES[m]);
      }
    }
    if AllStep(chain, true) {
      forall m | 0 <= m < |MEASURED_SERIES| ensures StandsStill(chain, MEASURED_SERIES[m]) {
        var k := MeasuredAreSeriesAt(m);
        forall i: nat | 0 < i < |chain|
          ensures var d := DeriveCounterDelta(chain[i - 1], chain[i], MEASURED_SERIES[m]);
                  d.Returned? && d.value.delta == 0.0
        {
          assert StepsIn(chain, k, i, true);
          StepsExactly(chain[i - 1], chain[i], k);
        }
      }
    }
  }

  lemma SameChain(p: Probe)
    requires ProbeIsValid(p)
    ensures Chain(p) == Chronological(p) && |Chain(p)| == 18 + |p.stable| + |p.cooldown| + |p.later|
    ensures forall i :: 0 <= i < 10 ==> Chain(p)[i] == p.pre[i]
  {
  }

  lemma NeverFallExactly(p: Probe)
    requires ProbeIsValid(p)
    ensures NeverFall(p) <==> AllProgress(Chronological(p)) && AllStandStill(p.pre)
  {
    SameChain(p);
    ProgressExactly(Chain(p));
    StandStillExactly(p.pre);
    forall k: nat, i: nat | k < 10 && 0 < i < |Chain(p)|
      ensures StepsAt(p, k, i, false) <==> StepsIn(Chain(p), k, i, false)
      ensures i < 10 ==> (StepsAt(p, k, i, true) <==> StepsIn(p.pre, k, i, true))
    {
    }
  }

  /** The part of the chain from the drain's end on. */
  lemma RestExactly(p: Probe)
    requires ProbeIsValid(p) && p.stable[0] == p.drain[9]
    ensures (forall k: nat, i: nat :: k < 10 && 20 <= i < |Chain(p)| ==> StepsAt(p, k, i, true))
            <==> AllStandStill(StableAndLater(p))
  {
    var post := StableAndLater(p);
    SameChain(p);
    ChainsMeet(p);
    StandStillExactly(post);
    forall k: nat, i: nat | k < 10 && 20 <= i < |Chain(p)|
      ensures StepsAt(p, k, i, true) <==> StepsIn(post, k, i - 19, true)
    {
      assert Chain(p)[19 + (i - 19)] == post[i - 19] && Chain(p)[19 + (i - 20)] == post[i - 20];
    }
    if forall k: nat, i: nat :: k < 10 && 20 <= i < |Chain(p)| ==> StepsAt(p, k, i, true) {
      forall k: nat, i: nat | k < 10 && 0 < i < |post| ensures StepsIn(post, k, i, true) {
        assert StepsAt(p, k, i + 19, true);
      }
    }
  }

  lemma HeadExactly(p: Probe)
    requires ProbeIsValid(p)
    ensures (exists v: real :: ShowsAt(p.stable[0], 1, v) && ShowsAt(p.cooldown[0], 1, v)) <==> HeadKeepsGeneration(p)
  {
    forall v: real
      ensures ShowsAt(p.stable[0], 1, v)
              <==> SelectExactSeries(p.stable[0], GENERATION).Returned?
                   && SelectExactSeries(p.stable[0], GENERATION).value.value == v
      ensures ShowsAt(p.cooldown[0], 1, v)
              <==> SelectExactSeries(p.cooldown[0], GENERATION).Returned?
                   && SelectExactSeries(p.cooldown[0], GENERATION).value.value == v
    {
      ShowsExactly(p.stable[0], GENERATION, v);
      ShowsExactly(p.cooldown[0], GENERATION, v);
    }
    if HeadKeepsGeneration(p) {
      assert ShowsAt(p.stable[0], 1, SelectExactSeries(p.stable[0], GENERATION).value.value);
    }
  }

  lemma SeriesOfVerdict(k: nat)
    requires k < 10
    ensures SeriesAt(k) == if k == 0 then PROMPT else if k == 1 then GENERATION
                           else if k < 7 then REASON_SERIES[k - 2] else AUXILIARY_SERIES[k - 7]
  {
  }

  /** What the move of one series is for the procedure. */
  lemma MoveExactly(p: Probe, k: nat)
    requires ProbeIsValid(p) && PassesSoFar(p) && k < 10
    ensures Move(p, SeriesAt(k)).Returned?
    ensures MovesAsMeant(p.pre[9], p.stable[0], k) <==> MayMove(k, Move(p, SeriesAt(k)).value.delta)
  {
    SeriesOfVerdict(k);
    FinalInChain(p);
    MoveTo(p, SeriesAt(k), 0);
    MovesExactly(p.pre[9], p.stable[0], k);
  }

  lemma AbortMovesExactly(p: Probe)
    requires ProbeIsValid(p) && PassesSoFar(p)
    ensures AbortMoves(p) <==> forall k: nat :: 2 <= k < 7 ==> MovesAsMeant(p.pre[9], p.stable[0], k)
  {
    var x, y := p.pre[9], p.stable[0];
    forall k: nat | 2 <= k < 7
      ensures Move(p, SeriesAt(k)).Returned?
              && (MovesAsMeant(x, y, k) <==> MayMove(k, Move(p, SeriesAt(k)).value.delta))
      ensures SeriesAt(k) == REASON_SERIES[k - 2]
    {
      MoveExactly(p, k);
      SeriesOfVerdict(k);
    }
    FiveOf(p);
  }

  lemma FiveOf(p: Probe)
    requires ProbeIsValid(p)
    requires forall k: nat :: 2 <= k < 7 ==>
               && Move(p, SeriesAt(k)).Returned?
               && (MovesAsMeant(p.pre[9], p.stable[0], k) <==> MayMove(k, Move(p, SeriesAt(k)).value.delta))
    requires forall k: nat :: 2 <= k < 7 ==> SeriesAt(k) == REASON_SERIES[k - 2]
    ensures AbortMoves(p) <==> forall k: nat :: 2 <= k < 7 ==> MovesAsMeant(p.pre[9], p.stable[0], k)
  {
    var x, y := p.pre[9], p.stable[0];
    assert SeriesAt(2) == REASON_SERIES[0] && SeriesAt(3) == REASON_SERIES[1] && SeriesAt(4) == REASON_SERIES[2]
           && SeriesAt(5) == REASON_SERIES[3] && SeriesAt(6) == REASON_SERIES[4];
    assert (forall k: nat :: 2 <= k < 7 ==> MovesAsMeant(x, y, k))
           <==> && MovesAsMeant(x, y, 2) && MovesAsMeant(x, y, 3) && MovesAsMeant(x, y, 4) && MovesAsMeant(x, y, 5)
                && MovesAsMeant(x, y, 6);
  }

  /** All ten series move as they may exactly when the procedure's tests of the moves pass. */
  lemma AllMovesExactly(p: Probe)
    requires ProbeIsValid(p) && PassesSoFar(p)
    ensures (forall k: nat :: k < 10 ==> MovesAsMeant(p.pre[9], p.stable[0], k)) <==> MovesAreAllowed(p)
  {
    var x, y := p.pre[9], p.stable[0];
    AbortMovesExactly(p);
    forall k: nat | k == 0 || k == 1 || 7 <= k < 10
      ensures Move(p, SeriesAt(k)).Returned?
              && (MovesAsMeant(x, y, k) <==> MayMove(k, Move(p, SeriesAt(k)).value.delta))
      ensures SeriesAt(k) == if k == 0 then PROMPT else if k == 1 then GENERATION else AUXILIARY_SERIES[k - 7]
    {
      MoveExactly(p, k);
      SeriesOfVerdict(k);
    }
    AllOf(p);
  }

  lemma AllOf(p: Probe)
    requires ProbeIsValid(p)
    requires AbortMoves(p) <==> forall k: nat :: 2 <= k < 7 ==> MovesAsMeant(p.pre[9], p.stable[0], k)
    requires forall k: nat :: k == 0 || k == 1 || 7 <= k < 10 ==>
               && Move(p, SeriesAt(k)).Returned?
               && (MovesAsMeant(p.pre[9], p.stable[0], k) <==> MayMove(k, Move(p, SeriesAt(k)).value.delta))
    requires forall k: nat :: k == 0 || k == 1 || 7 <= k < 10 ==>
               SeriesAt(k) == if k == 0 then PROMPT else if k == 1 then GENERATION else AUXILIARY_SERIES[k - 7]
    ensures (forall k: nat :: k < 10 ==> MovesAsMeant(p.pre[9], p.stable[0], k)) <==> MovesAreAllowed(p)
  {
    var x, y := p.pre[9], p.stable[0];
    assert SeriesAt(0) == PROMPT && SeriesAt(1) == GENERATION;
    assert SeriesAt(7) == AUXILIARY_SERIES[0] && SeriesAt(8) == AUXILIARY_SERIES[1]
           && SeriesAt(9) == AUXILIARY_SERIES[2];
    assert (forall k: nat :: k < 10 ==> MovesAsMeant(x, y, k))
           <==> && MovesAsMeant(x, y, 0) && MovesAsMeant(x, y, 1)
                && (forall k: nat :: 2 <= k < 7 ==> MovesAsMeant(x, y, k))
                && MovesAsMeant(x, y, 7) && MovesAsMeant(x, y, 8) && MovesAsMeant(x, y, 9);
  }

  lemma EndsExactly(p: Probe)
    requires ProbeIsValid(p) && PassesSoFar(p)
    ensures DeriveAll(p.pre[9], LastRetained(p), REASON_SERIES).Returned?
    ensures EndsAsAborted(p) <==> OneAbortAtMost(DeriveAll(p.pre[9], LastRetained(p), REASON_SERIES).value)
  {
    RetainedReasons(p);
    var reasons := DeriveAll(p.pre[9], LastRetained(p), REASON_SERIES).value;
    assert |reasons| == 5;
    forall k: nat | 2 <= k < 7
      ensures MovesAsMeant(p.pre[9], LastRetained(p), k) <==> MayMove(k, reasons[k - 2].delta)
    {
      SeriesOfVerdict(k);
      assert DeriveCounterDelta(p.pre[9], LastRetained(p), SeriesAt(k)) == Returned(reasons[k - 2]);
      MovesExactly(p.pre[9], LastRetained(p), k);
    }
    EndsByIndex(p, reasons);
  }

  lemma EndsByIndex(p: Probe, reasons: seq<CounterDelta>)
    requires ProbeIsValid(p) && |reasons| == 5
    requires forall k: nat :: 2 <= k < 7 ==>
               (MovesAsMeant(p.pre[9], LastRetained(p), k) <==> MayMove(k, reasons[k - 2].delta))
    ensures EndsAsAborted(p) <==> OneAbortAtMost(reasons)
  {
    var x, y := p.pre[9], LastRetained(p);
    assert LastScrape(p) == y;
    if EndsAsAborted(p) {
      assert MovesAsMeant(x, y, 2) && MovesAsMeant(x, y, 3) && MovesAsMeant(x, y, 4) && MovesAsMeant(x, y, 5)
             && MovesAsMeant(x, y, 6);
    }
  }

  // ---------------------------------------------------------------- the verdict, exactly

  /** The gates of identity and clocks are the procedure's. */
  lemma GatesExactly(p: Probe, correlate: Correlator)
    requires ProbeIsValid(p)
    ensures NamesFollow(p) <==> IdsAgree(p)
    ensures LogTellsChain(p, correlate) <==> LogsCorrelate(p, correlate)
    ensures BothAbortsLogged(p) ==> (ClocksFollow(p) <==> ClosedAfterDelivery(p) && LogsInOrder(p))
  {
    assert "cmpl-" + (p.chain.externalId + "-0") == "cmpl-" + p.chain.externalId + "-0";
  }

  lemma SoundExactly(p: Probe)
    requires ProbeIsValid(p) && BothAbortsLogged(p)
    ensures ScrapesAreSound(p)
            <==> && SameProcess(p) && ScrapesAreObserved(p) && PreIsSpaced(p) && AllQuiescent(p) && WindowsConnect(p)
                 && AllProgress(Chronological(p)) && AllStandStill(p.pre)
    ensures ScrapesAreSound(p) ==> PassesSoFar(p)
  {
    ScrapedExactly(p);
    WindowsExactly(p);
    NeverFallExactly(p);
  }

  lemma RestsAsAsked(p: Probe)
    requires ProbeIsValid(p) && PassesSoFar(p)
    ensures ComesToRest(p)
            <==> AllStandStill(StableAndLater(p)) && MovesAreAllowed(p) && HeadKeepsGeneration(p) && ResidueIsClear(p)
  {
    RestExactly(p);
    AllMovesExactly(p);
    HeadExactly(p);
  }

  /** Behind the gates: rest and moves decide, but other ends of requests are told first. */
  lemma CountersExactly(p: Probe)
    requires ProbeIsValid(p) && PassesSoFar(p)
    ensures var c := EvaluateCounters(p).classification;
            && (c == LaterCompletion <==> !EndsAsAborted(p))
            && (c == AbortAcknowledgedAndDrained <==> EndsAsAborted(p) && ComesToRest(p))
            && (c == ResidualWorkTimeout <==> EndsAsAborted(p) && !ComesToRest(p))
    ensures EvaluateCounters(p).accepted <==> EvaluateCounters(p).classification == AbortAcknowledgedAndDrained
    ensures ComesToRest(p) ==> EndsAsAborted(p)
  {
    CountersDecide(p);
    EndsExactly(p);
    RestsAsAsked(p);
    RetainedReasons(p);
    CounterKinds(p);
  }

  lemma CounterKinds(p: Probe)
    requires ProbeIsValid(p)
    ensures var r := EvaluateCounters(p);
            && r.classification in {LaterCompletion, AbortAcknowledgedAndDrained, ResidualWorkTimeout}
            && (r.accepted <==> r.classification == AbortAcknowledgedAndDrained)
  {
  }

  /** The verdict, exactly: the first gate that fails gives the classification, in the order names, abort
      records, log, clocks, scrapes, ends of requests, rest; a probe that fails none is accepted, and no other. */
  lemma VerdictExactly(p: Probe, correlate: Correlator)
    requires ProbeIsValid(p)
    ensures var r := Evaluate(p, correlate);
            var names, aborts, log := NamesFollow(p), BothAbortsLogged(p), LogTellsChain(p, correlate);
            && (r.classification == IdCorrelationFailure <==> !names || (aborts && !log))
            && (r.classification == UnknownAcknowledgement <==> names && !aborts)
            && (r.classification == TerminalUnknown <==> names && aborts && log && !ClocksFollow(p))
            && (r.classification == LaterCompletion
                <==> names && aborts && log && ClocksFollow(p) && ScrapesAreSound(p) && !EndsAsAborted(p))
            && (r.classification == ResidualWorkTimeout
                <==> names && aborts && log && ClocksFollow(p)
                     && (!ScrapesAreSound(p) || (EndsAsAborted(p) && !ComesToRest(p))))
            && (r.accepted
                <==> names && aborts && log && ClocksFollow(p) && ScrapesAreSound(p) && ComesToRest(p))
            && (r.accepted <==> r.classification == AbortAcknowledgedAndDrained)
  {
    GatesExactly(p, correlate);
    if BothAbortsLogged(p) {
      SoundExactly(p);
    }
    if Refusal(p, correlate).None? {
      CountersExactly(p);
    }
  }

  /** An accepted verdict reports what the scrapes show: for each of the ten series the difference between
      the last scrape before the dispatch and the last of the cooldown, the aborts once more by themselves. */
  lemma ReportsWhatScrapesShow(p: Probe, correlate: Correlator, r: CancellationResult, k: nat, v: real, w: real)
    requires ProbeIsValid(p) && r == Evaluate(p, correlate) && r.accepted && k < 10
    requires ShowsAt(p.pre[9], k, v) && ShowsAt(p.cooldown[|p.cooldown| - 1], k, w)
    ensures Reported(r, k).Some?
    ensures var d := Reported(r, k).value;
            d.metric == SeriesAt(k).metric && d.before == v && d.after == w && d.delta == w - v
    ensures k == 2 ==> r.abort.Some? && r.abort.value == w - v
  {
    AcceptedIsCounted(p, correlate);
    CountersShow(p, r, k, v, w);
  }

  lemma CountersShow(p: Probe, r: CancellationResult, k: nat, v: real, w: real)
    requires ProbeIsValid(p) && r == EvaluateCounters(p) && r.accepted && k < 10
    requires ShowsAt(p.pre[9], k, v) && ShowsAt(p.cooldown[|p.cooldown| - 1], k, w)
    ensures Reported(r, k).Some?
    ensures var d := Reported(r, k).value;
            d.metric == SeriesAt(k).metric && d.before == v && d.after == w && d.delta == w - v
    ensures k == 2 ==> r.abort.Some? && r.abort.value == w - v
  {
    CountersReport(p, r, Last(p.cooldown), k);
    ReportIsDifference(p.pre[9], Last(p.cooldown), r, k, v, w);
  }

  lemma ReportIsDifference(x: Snapshot, final: Snapshot, r: CancellationResult, k: nat, v: real, w: real)
    requires k < 10 && ShowsAt(x, k, v) && ShowsAt(final, k, w)
    requires Reported(r, k).Some? && DeriveCounterDelta(x, final, SeriesAt(k)) == Returned(Reported(r, k).value)
    ensures var d := Reported(r, k).value;
            d.metric == SeriesAt(k).metric && d.before == v && d.after == w && d.delta == w - v
  {
    var s := SeriesAt(k);
    DerivesExactly(x, final, s);
    assert Shows(x, s.metric, s.reason, v) && Shows(final, s.metric, s.reason, w);
  }

  lemma AcceptedIsCounted(p: Probe, correlate: Correlator)
    requires ProbeIsValid(p) && Evaluate(p, correlate).accepted
    ensures Evaluate(p, correlate) == EvaluateCounters(p) && EvaluateCounters(p).accepted
  {
  }

  lemma CountersReport(p: Probe, r: CancellationResult, final: Snapshot, k: nat)
    requires ProbeIsValid(p) && r == EvaluateCounters(p) && r.accepted && k < 10 && final == Last(p.cooldown)
    ensures Reported(r, k).Some? && DeriveCounterDelta(p.pre[9], final, SeriesAt(k)) == Returned(Reported(r, k).value)
    ensures k == 2 ==> r.abort == Some(Reported(r, k).value.delta)
  {
    AcceptedResultIs(p);
    ReportsDerived(p.pre[9], final, r, k);
  }

  lemma ReportsDerived(x: Snapshot, final: Snapshot, r: CancellationResult, k: nat)
    requires k < 10 && |r.reasons| == 5 && |r.auxiliary| == 3 && r.prompt.Some? && r.generation.Some?
    requires Returned(r.prompt.value) == DeriveCounterDelta(x, final, PROMPT)
    requires Returned(r.generation.value) == DeriveCounterDelta(x, final, GENERATION)
    requires DeriveAll(x, final, REASON_SERIES) == Returned(r.reasons)
    requires DeriveAll(x, final, AUXILIARY_SERIES) == Returned(r.auxiliary)
    requires r.abort == ReasonValue(r.reasons, "abort")
    ensures Reported(r, k).Some? && DeriveCounterDelta(x, final, SeriesAt(k)) == Returned(Reported(r, k).value)
    ensures k == 2 ==> r.abort == Some(Reported(r, k).value.delta)
  {
    SeriesOfVerdict(k);
    if 2 <= k < 7 {
      ReportedReason(x, final, r, k);
    } else if 7 <= k {
      ReportedOther(x, final, r, k);
    }
  }

  lemma ReportedReason(x: Snapshot, final: Snapshot, r: CancellationResult, k: nat)
    requires 2 <= k < 7 && |r.reasons| == 5 && DeriveAll(x, final, REASON_SERIES) == Returned(r.reasons)
    requires r.abort == ReasonValue(r.reasons, "abort")
    ensures DeriveCounterDelta(x, final, REASON_SERIES[k - 2]) == Returned(r.reasons[k - 2])
    ensures k == 2 ==> r.abort == Some(r.reasons[k - 2].delta)
  {
    if k == 2 {
      DerivedReasons(x, final);
      AbortComesFirst();
    }
  }

  lemma ReportedOther(x: Snapshot, final: Snapshot, r: CancellationResult, k: nat)
    requires 7 <= k < 10 && |r.auxiliary| == 3 && DeriveAll(x, final, AUXILIARY_SERIES) == Returned(r.auxiliary)
    ensures DeriveCounterDelta(x, final, AUXILIARY_SERIES[k - 7]) == Returned(r.auxiliary[k - 7])
  {
  }

  /** The delta that a result reports for a series. */
  function Reported(r: CancellationResult, k: nat): Option<CounterDelta> {
    if k == 0 then r.prompt
    else if k == 1 then r.generation
    else if k < 7 then if |r.reasons| == 5 then Some(r.reasons[k - 2]) else None
    else if k < 10 && |r.auxiliary| == 3 then Some(r.auxiliary[k - 7]) else None
  }
}
