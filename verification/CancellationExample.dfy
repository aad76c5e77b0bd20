/** A cancellation probe that the verdict accepts: one cancelled request on the fixture server, scraped
    every tenth of a second, with the shortest windows the verdict allows. */
module CancellationExample {
  import opened Prelude
  import opened Sse
  import opened Prometheus
  import opened RawLog
  import opened Cancellation
  import opened Ascii
  import F = FixtureServer

  const MS: nat := 1_000_000

  /** A server's scrape at some clock, before or after the cancelled request. */
  type Scraper = (bool, Nanos) -> Snapshot

  // ---------------------------------------------------------------- the probe

  /** `n` scrapes a tenth of a second apart. */
  function Scrapes(snap: Scraper, cancelled: bool, first: nat, n: nat): (snapshots: seq<Snapshot>)
    ensures |snapshots| == n && forall i :: 0 <= i < n ==> snapshots[i] == snap(cancelled, (first + i) * 100 * MS)
  {
    if n == 0 then [] else Scrapes(snap, cancelled, first, n - 1) + [snap(cancelled, (first + n - 1) * 100 * MS)]
  }

  /** Each scrape is taken the moment it is due. */
  function Observed(phase: ScrapePhase, snapshots: seq<Snapshot>): (observations: seq<Observation>)
    ensures |observations| == |snapshots|
    ensures forall i :: 0 <= i < |snapshots| ==>
              observations[i] == Observation(phase, i, snapshots[i].at, snapshots[i].at, snapshots[i].at, snapshots[i])
  {
    if snapshots == [] then []
    else
      var last := |snapshots| - 1;
      var s := snapshots[last];
      Observed(phase, snapshots[..last]) + [Observation(phase, last, s.at, s.at, s.at, s)]
  }

  function ChainOf(records: seq<RawLogRecord>): Chain
    requires |records| == 4
  {
    Chain("probe", "cmpl-probe", "cmpl-probe-0", "cmpl-probe-0-deadbeef", records[0], records[1], Some(records[3]),
      Some(records[2]))
  }

  function Correlate(id: string, records: seq<RawLogRecord>): Option<Chain> {
    if |records| == 4 && id == "probe" then Some(ChainOf(records)) else None
  }

  function ProbeOf(capture: RawLogCapture, snap: Scraper): Probe
    requires |capture.records| == 4
  {
    var pre, drain := Scrapes(snap, false, 0, 10), Scrapes(snap, true, 10, 10);
    var stable, cooldown := Scrapes(snap, true, 19, 11), Scrapes(snap, true, 29, 21);
    Probe("server-1", ChainOf(capture.records), capture, capture.exact, 0,
          950 * MS, FirstDelivery("probe", "cmpl-probe", 960 * MS), 970 * MS, pre, drain, stable, cooldown, [],
          Observed(PreDispatch, pre) + Observed(Drain, drain) + Observed(StableGeneration, stable)
            + Observed(Cooldown, cooldown),
          ResidualState(5_000 * MS, "", "", [], []))
  }

  predicate LoggedInTime(capture: RawLogCapture) {
    && |capture.records| == 4 && capture.stream == "server-1-raw-log"
    && capture.records[0].at == 951 * MS && capture.records[1].at == 952 * MS
    && capture.records[2].at == 980 * MS && capture.records[3].at == 990 * MS
  }

  lemma IdentityHolds(capture: RawLogCapture, snap: Scraper)
    requires LoggedInTime(capture)
    ensures var p := ProbeOf(capture, snap);
            && ProbeIsValid(p) && IdsAgree(p) && LogsCorrelate(p, Correlate) && ClosedAfterDelivery(p)
            && p.chain.externalAbort.Some? && p.chain.internalAbort.Some? && LogsInOrder(p)
  {
    assert "cmpl-" + "probe" == "cmpl-probe" && "cmpl-probe" + "-0" == "cmpl-probe-0"
           && "server-1" + "-raw-log" == "server-1-raw-log";
  }

  // ---------------------------------------------------------------- its scrapes and their clocks

  /** Scrapes of one process, at rest, each at its clock. */
  ghost predicate IsSteady(snap: Scraper) {
    forall c: bool, t: Nanos ::
      snap(c, t).at == t && snap(c, t).process == "server-1" && RequireQuiescent(snap(c, t))
  }

  /** Which scrape stands where among all of them: the windows share their ends. */
  function Due(i: nat): nat {
    if i < 20 then i else if i < 31 then i - 1 else i - 2
  }

  /** The clocks of the probe, window by window and observation by observation. */
  ghost predicate IsTimely(p: Probe, snap: Scraper) {
    && |p.pre| == 10 && |p.drain| == 10 && |p.stable| == 11 && |p.cooldown| == 21 && p.later == []
       && |p.observations| == 52
    && (forall i :: 0 <= i < 10 ==> p.pre[i] == snap(false, i * 100 * MS))
    && (forall i :: 0 <= i < 10 ==> p.drain[i] == snap(true, (10 + i) * 100 * MS))
    && (forall i :: 0 <= i < 11 ==> p.stable[i] == snap(true, (19 + i) * 100 * MS))
    && (forall i :: 0 <= i < 21 ==> p.cooldown[i] == snap(true, (29 + i) * 100 * MS))
    && (forall i :: 0 <= i < 52 ==>
        Clocks(p.observations[i]) == (Due(i) * 100 * MS, Due(i) * 100 * MS, Due(i) * 100 * MS))
  }

  lemma ObservationAt(a: seq<Observation>, b: seq<Observation>, c: seq<Observation>, d: seq<Observation>, i: nat)
    requires |a| == 10 && |b| == 10 && |c| == 11 && |d| == 21 && i < 52
    ensures |a + b + c + d| == 52
    ensures (a + b + c + d)[i]
            == if i < 10 then a[i] else if i < 20 then b[i - 10] else if i < 31 then c[i - 20] else d[i - 31]
  {
  }

  lemma ObservationsAreTimely(
    snap: Scraper, pre: seq<Snapshot>, drain: seq<Snapshot>, stable: seq<Snapshot>, cooldown: seq<Snapshot>)
    requires IsSteady(snap)
    requires |pre| == 10 && |drain| == 10 && |stable| == 11 && |cooldown| == 21
    requires forall i :: 0 <= i < 10 ==> pre[i].at == i * 100 * MS && drain[i].at == (10 + i) * 100 * MS
    requires forall i :: 0 <= i < 11 ==> stable[i].at == (19 + i) * 100 * MS
    requires forall i :: 0 <= i < 21 ==> cooldown[i].at == (29 + i) * 100 * MS
    ensures var all := Observed(PreDispatch, pre) + Observed(Drain, drain) + Observed(StableGeneration, stable)
            + Observed(Cooldown, cooldown);
            |all| == 52 && forall i :: 0 <= i < 52 ==>
              Clocks(all[i]) == (Due(i) * 100 * MS, Due(i) * 100 * MS, Due(i) * 100 * MS)
  {
    var a, b, c, d := Observed(PreDispatch, pre), Observed(Drain, drain), Observed(StableGeneration, stable),
      Observed(Cooldown, cooldown);
    forall i | 0 <= i < 52
      ensures |a + b + c + d| == 52
              && Clocks((a + b + c + d)[i]) == (Due(i) * 100 * MS, Due(i) * 100 * MS, Due(i) * 100 * MS)
    {
      ObservationAt(a, b, c, d, i);
    }
  }

  lemma SampleIsTimely(capture: RawLogCapture, snap: Scraper)
    requires |capture.records| == 4 && IsSteady(snap)
    ensures IsTimely(ProbeOf(capture, snap), snap)
  {
    var p := ProbeOf(capture, snap);
    ObservationsAreTimely(snap, p.pre, p.drain, p.stable, p.cooldown);
  }

  lemma ScrapeAt(p: Probe, snap: Scraper, i: nat)
    requires IsTimely(p, snap) && i < 52
    ensures |AllSnapshots(p)| == 52 && AllSnapshots(p)[i] == snap(i >= 10, Due(i) * 100 * MS)
  {
    assert AllSnapshots(p) == p.pre + p.drain + p.stable + p.cooldown;
  }

  lemma KeysOfObserved(phase: ScrapePhase, snapshots: seq<Snapshot>)
    ensures ActualKeys(Observed(phase, snapshots)) == Keys(phase, snapshots)
  {
  }

  lemma KeysOfBoth(a: seq<Observation>, b: seq<Observation>)
    ensures ActualKeys(a + b) == ActualKeys(a) + ActualKeys(b)
  {
  }

  lemma KeysOfAll(pre: seq<Snapshot>, drain: seq<Snapshot>, stable: seq<Snapshot>, cooldown: seq<Snapshot>)
    ensures ActualKeys(Observed(PreDispatch, pre) + Observed(Drain, drain) + Observed(StableGeneration, stable)
            + Observed(Cooldown, cooldown))
            == Keys(PreDispatch, pre) + Keys(Drain, drain) + Keys(StableGeneration, stable) + Keys(Cooldown, cooldown)
              + Keys(Later, [])
  {
    KeysOfObserved(PreDispatch, pre);
    KeysOfObserved(Drain, drain);
    KeysOfObserved(StableGeneration, stable);
    KeysOfObserved(Cooldown, cooldown);
    var a, b, c, d := Observed(PreDispatch, pre), Observed(Drain, drain), Observed(StableGeneration, stable),
      Observed(Cooldown, cooldown);
    KeysOfBoth(a, b);
    KeysOfBoth(a + b, c);
    KeysOfBoth(a + b + c, d);
    ConcatNothing(ActualKeys(a + b + c + d));
  }

  lemma KeysHold(capture: RawLogCapture, snap: Scraper)
    requires |capture.records| == 4
    ensures ActualKeys(ProbeOf(capture, snap).observations) == ExpectedKeys(ProbeOf(capture, snap))
  {
    var p := ProbeOf(capture, snap);
    KeysOfAll(p.pre, p.drain, p.stable, p.cooldown);
  }

  lemma ScrapesHold(p: Probe, snap: Scraper)
    requires IsTimely(p, snap) && IsSteady(snap) && p.serverProcess == "server-1"
             && ActualKeys(p.observations) == ExpectedKeys(p)
    ensures SameProcess(p) && ScrapesAreObserved(p) && AllQuiescent(p)
  {
    forall i | 0 <= i < 52
      ensures |AllSnapshots(p)| == 52 && AllSnapshots(p)[i] == snap(i >= 10, Due(i) * 100 * MS)
    {
      ScrapeAt(p, snap, i);
    }
    SnapshotsInOrder(AllSnapshots(p), snap);
  }

  lemma SnapshotsInOrder(all: seq<Snapshot>, snap: Scraper)
    requires IsSteady(snap) && |all| == 52 && forall i :: 0 <= i < 52 ==> all[i] == snap(i >= 10, Due(i) * 100 * MS)
    ensures forall i :: 0 < i < 52 ==> all[i - 1].at <= all[i].at
    ensures forall i :: 0 <= i < 52 ==>
            all[i].at == Due(i) * 100 * MS && RequireQuiescent(all[i]) && all[i].process == "server-1"
  {
  }

  lemma ScheduleHolds(p: Probe, snap: Scraper)
    requires IsTimely(p, snap)
    ensures ScheduledApart(p.observations, 0, 10, false) && ScheduledApart(p.observations, 10, 20, false)
    ensures ScheduledApart(p.observations, 20, 31, true) && ScheduledApart(p.observations, 31, 52, true)
    ensures Clocks(p.observations[20]) == Clocks(p.observations[19])
            && Clocks(p.observations[31]) == Clocks(p.observations[30])
  {
    forall i | 0 <= i < 52 ensures p.observations[i].scheduled == Due(i) * 100 * MS {
      assert Clocks(p.observations[i]).0 == Due(i) * 100 * MS;
    }
  }

  lemma PreHolds(p: Probe, snap: Scraper)
    requires IsTimely(p, snap) && IsSteady(snap) && ProbeIsValid(p) && p.dispatchAt == 950 * MS
    ensures PreIsSpaced(p)
  {
    ScheduleHolds(p, snap);
    assert forall i :: 0 <= i < 10 ==> p.pre[i].at == i * 100 * MS;
  }

  lemma WindowsHold(p: Probe, snap: Scraper)
    requires IsTimely(p, snap) && IsSteady(snap) && ProbeIsValid(p) && p.closeAt == 970 * MS
    requires p.chain.externalAbort.Some? && p.chain.externalAbort.value.at == 990 * MS
    ensures WindowsConnect(p)
  {
    ScheduleHolds(p, snap);
    assert forall i :: 0 <= i < 10 ==> p.drain[i].at == (10 + i) * 100 * MS;
    assert p.stable[0] == p.drain[9];
    assert p.stable[0].at == 1900 * MS && Last(p.stable).at == 2900 * MS;
    assert p.cooldown[0].at == 2900 * MS && Last(p.cooldown).at == 4900 * MS;
  }

  // ---------------------------------------------------------------- its counters

  /** By how much the ten series move over the cancelled request. */
  function MoveOf(k: nat): real {
    if k == 0 then 64.0 else if k == 1 || k == 3 then 1.0 else 0.0
  }

  /** Between any two scrapes each of the ten series has a delta: its move, from before to after. */
  ghost predicate MovesAsMeant(snap: Scraper) {
    forall a: bool, b: bool, t: Nanos, t': Nanos, k: nat :: MoveFits(snap, a, b, t, t', k)
  }

  predicate MoveFits(snap: Scraper, a: bool, b: bool, t: Nanos, t': Nanos, k: nat) {
    (a ==> b) && t < t' && k < |MEASURED_SERIES| ==>
      Moved(snap(a, t), snap(b, t'), k, if a == b then 0.0 else MoveOf(k))
  }

  lemma MoveBetween(snap: Scraper, a: bool, b: bool, t: Nanos, t': Nanos, k: nat)
    requires MovesAsMeant(snap) && (a ==> b) && t < t' && k < |MEASURED_SERIES|
    ensures Moved(snap(a, t), snap(b, t'), k, if a == b then 0.0 else MoveOf(k))
  {
    assert MoveFits(snap, a, b, t, t', k);
  }

  predicate Moved(before: Snapshot, after: Snapshot, k: nat, delta: real)
    requires k < |MEASURED_SERIES|
  {
    var d := DeriveCounterDelta(before, after, MEASURED_SERIES[k]);
    d.Returned? && d.value.delta == delta
  }

  /** A scrape of the chronological chain: ten before the request, and forty behind it. */
  lemma ChainIs(p: Probe, snap: Scraper, i: nat)
    requires IsTimely(p, snap) && ProbeIsValid(p)
    ensures |Chronological(p)| == 50 && |StableAndLater(p)| == 31
    ensures i < 50 ==> Chronological(p)[i] == snap(i >= 10, i * 100 * MS)
    ensures i < 31 ==> StableAndLater(p)[i] == snap(true, (19 + i) * 100 * MS)
  {
    var stable, cooldown := p.stable[1..], p.cooldown[1..];
    assert Chronological(p) == p.pre + p.drain + stable + cooldown;
    assert StableAndLater(p) == p.stable + cooldown;
    assert forall j :: 0 <= j < 20 ==> cooldown[j] == snap(true, (30 + j) * 100 * MS);
    assert forall j :: 0 <= j < 10 ==> stable[j] == snap(true, (20 + j) * 100 * MS);
  }

  lemma ChainMoves(p: Probe, snap: Scraper, i: nat, k: nat)
    requires IsTimely(p, snap) && MovesAsMeant(snap) && ProbeIsValid(p) && 0 < i < 50 && k < |MEASURED_SERIES|
    ensures |Chronological(p)| == 50
            && Moved(Chronological(p)[i - 1], Chronological(p)[i], k, if i == 10 then MoveOf(k) else 0.0)
  {
    ChainIs(p, snap, i - 1);
    ChainIs(p, snap, i);
    MoveBetween(snap, i - 1 >= 10, i >= 10, (i - 1) * 100 * MS, i * 100 * MS, k);
  }

  lemma StableMoves(p: Probe, snap: Scraper, i: nat, k: nat)
    requires IsTimely(p, snap) && MovesAsMeant(snap) && ProbeIsValid(p) && 0 < i < 31 && k < |MEASURED_SERIES|
    ensures |StableAndLater(p)| == 31 && Moved(StableAndLater(p)[i - 1], StableAndLater(p)[i], k, 0.0)
  {
    ChainIs(p, snap, i - 1);
    ChainIs(p, snap, i);
    MoveBetween(snap, true, true, (19 + (i - 1)) * 100 * MS, (19 + i) * 100 * MS, k);
  }

  lemma ChainProgresses(p: Probe, snap: Scraper)
    requires IsTimely(p, snap) && MovesAsMeant(snap) && ProbeIsValid(p)
    ensures AllProgress(Chronological(p))
  {
    ChainIs(p, snap, 0);
    forall k: nat, i: nat | k < |MEASURED_SERIES| && 0 < i < 50
      ensures DeriveCounterDelta(Chronological(p)[i - 1], Chronological(p)[i], MEASURED_SERIES[k]).Returned?
    {
      ChainMoves(p, snap, i, k);
    }
  }

  lemma StableStandsStill(p: Probe, snap: Scraper)
    requires IsTimely(p, snap) && MovesAsMeant(snap) && ProbeIsValid(p)
    ensures AllStandStill(StableAndLater(p))
  {
    ChainIs(p, snap, 0);
    forall k | 0 <= k < |MEASURED_SERIES| ensures StandsStill(StableAndLater(p), MEASURED_SERIES[k]) {
      forall i | 0 < i < 31
        ensures var d := DeriveCounterDelta(StableAndLater(p)[i - 1], StableAndLater(p)[i], MEASURED_SERIES[k]);
                d.Returned? && d.value.delta == 0.0
      {
        StableMoves(p, snap, i, k);
      }
    }
  }

  lemma PreStandsStill(p: Probe, snap: Scraper)
    requires IsTimely(p, snap) && MovesAsMeant(snap) && ProbeIsValid(p)
    ensures AllStandStill(p.pre)
  {
    forall k | 0 <= k < |MEASURED_SERIES| ensures StandsStill(p.pre, MEASURED_SERIES[k]) {
      forall i | 0 < i < 10
        ensures var d := DeriveCounterDelta(p.pre[i - 1], p.pre[i], MEASURED_SERIES[k]);
                d.Returned? && d.value.delta == 0.0
      {
        MoveBetween(snap, false, false, (i - 1) * 100 * MS, i * 100 * MS, k);
      }
    }
  }

  lemma MovesHold(p: Probe, snap: Scraper)
    requires IsTimely(p, snap) && MovesAsMeant(snap) && ProbeIsValid(p)
    ensures MovesAreAllowed(p)
  {
    forall k: nat | k < |MEASURED_SERIES| ensures Moved(p.pre[9], p.stable[0], k, MoveOf(k)) {
      MoveBetween(snap, false, true, 9 * 100 * MS, 19 * 100 * MS, k);
    }
    ReasonMoves(p);
    OtherMoves(p);
  }

  lemma OtherMoves(p: Probe)
    requires ProbeIsValid(p) && forall k: nat :: k < |MEASURED_SERIES| ==> Moved(p.pre[9], p.stable[0], k, MoveOf(k))
    ensures Cancellation.Move(p, PROMPT).Returned? && Cancellation.Move(p, PROMPT).value.delta == 64.0
    ensures Cancellation.Move(p, GENERATION).Returned? && Cancellation.Move(p, GENERATION).value.delta == 1.0
    ensures forall k :: 0 <= k < 3 ==>
              Cancellation.Move(p, AUXILIARY_SERIES[k]).Returned?
                && Cancellation.Move(p, AUXILIARY_SERIES[k]).value.delta == 0.0
  {
    assert MEASURED_SERIES[0] == PROMPT && Moved(p.pre[9], p.stable[0], 0, MoveOf(0));
    assert MEASURED_SERIES[1] == GENERATION && Moved(p.pre[9], p.stable[0], 1, MoveOf(1));
    forall k: nat | k < 3
      ensures Cancellation.Move(p, AUXILIARY_SERIES[k]).Returned?
              && Cancellation.Move(p, AUXILIARY_SERIES[k]).value.delta == 0.0
    {
      assert MEASURED_SERIES[7 + k] == AUXILIARY_SERIES[k] && Moved(p.pre[9], p.stable[0], 7 + k, MoveOf(7 + k));
    }
  }

  lemma ReasonMoves(p: Probe)
    requires ProbeIsValid(p) && forall k: nat :: k < |MEASURED_SERIES| ==> Moved(p.pre[9], p.stable[0], k, MoveOf(k))
    ensures AbortMoves(p)
  {
    forall k | 0 <= k < 5
      ensures Cancellation.Move(p, REASON_SERIES[k]).Returned?
      ensures Cancellation.Move(p, REASON_SERIES[k]).value.delta == if k == 0 then 1.0 else 0.0
    {
      var m := if k == 0 then 3 else if k == 1 then 2 else k + 2;
      assert MEASURED_SERIES[m] == REASON_SERIES[k];
      assert Moved(p.pre[9], p.stable[0], m, MoveOf(m));
    }
  }

  lemma HeadHolds(p: Probe, snap: Scraper)
    requires IsTimely(p, snap) && MovesAsMeant(snap) && ProbeIsValid(p)
    ensures HeadKeepsGeneration(p)
  {
    MoveBetween(snap, true, true, 19 * 100 * MS, 29 * 100 * MS, 1);
    assert MEASURED_SERIES[1] == GENERATION;
    assert p.stable[0] == snap(true, 19 * 100 * MS) && p.cooldown[0] == snap(true, 29 * 100 * MS);
  }

  lemma NothingRefuses(capture: RawLogCapture, snap: Scraper)
    requires LoggedInTime(capture) && IsSteady(snap) && MovesAsMeant(snap) && IsTimely(ProbeOf(capture, snap), snap)
    ensures ProbeIsValid(ProbeOf(capture, snap)) && Refusal(ProbeOf(capture, snap), Correlate).None?
  {
    var p := ProbeOf(capture, snap);
    IdentityHolds(capture, snap);
    KeysHold(capture, snap);
    ScrapesHold(p, snap);
    PreHolds(p, snap);
    WindowsHold(p, snap);
    ChainProgresses(p, snap);
    PreStandsStill(p, snap);
    GatesPass(p);
  }

  lemma GatesPass(p: Probe)
    requires ProbeIsValid(p) && IdsAgree(p) && LogsCorrelate(p, Correlate) && ClosedAfterDelivery(p)
    requires p.chain.externalAbort.Some? && p.chain.internalAbort.Some? && LogsInOrder(p)
    requires SameProcess(p) && ScrapesAreObserved(p) && PreIsSpaced(p) && AllQuiescent(p) && WindowsConnect(p)
    requires AllProgress(Chronological(p)) && AllStandStill(p.pre)
    ensures Refusal(p, Correlate).None?
  {
  }

  lemma ResidueHolds(p: Probe, snap: Scraper)
    requires ProbeIsValid(p) && IsTimely(p, snap) && IsSteady(snap)
             && p.residual == ResidualState(5_000 * MS, "", "", [], [])
    ensures ResidueIsClear(p)
  {
    assert LastRetained(p) == p.cooldown[20] && p.cooldown[20].at == 49 * 100 * MS;
  }

  /** A probe scraped from a server at rest, whose counters move as one cancelled request moves them. */
  lemma SampleIsAccepted(capture: RawLogCapture, snap: Scraper)
    requires LoggedInTime(capture) && IsSteady(snap) && MovesAsMeant(snap)
    ensures ProbeIsValid(ProbeOf(capture, snap)) && Evaluate(ProbeOf(capture, snap), Correlate).accepted
  {
    SampleIsTimely(capture, snap);
    NothingRefuses(capture, snap);
    TimelyIsAccepted(ProbeOf(capture, snap), snap);
  }

  lemma TimelyIsAccepted(p: Probe, snap: Scraper)
    requires ProbeIsValid(p) && Refusal(p, Correlate).None? && IsTimely(p, snap) && IsSteady(snap) && MovesAsMeant(snap)
    requires p.residual == ResidualState(5_000 * MS, "", "", [], [])
    ensures Evaluate(p, Correlate).accepted
  {
    StableStandsStill(p, snap);
    MovesHold(p, snap);
    HeadHolds(p, snap);
    ResidueHolds(p, snap);
    AcceptedExactly(p, Correlate);
  }

  // ---------------------------------------------------------------- the fixture server's scrapes

  const IDLE: F.Counters := F.Started(F.SingleToken).counters

  /** One token generated for one request, then the client's close. */
  function AfterCancellation(): (c: F.Counters)
    ensures F.HasReasons(c) && c.running == 0 && c.waiting == 0
    ensures c.prompt == 64 && c.generation == 1 && c.preemptions == 0 && c.queries == 0 && c.hits == 0
    ensures c.success == F.ZERO_SUCCESS["abort" := 1]
  {
    F.LeftRunning(F.RecordedAbort(F.CountedGeneration(F.Accepted(IDLE, "probe"), F.SingleToken), "probe"))
  }

  function CountersAt(cancelled: bool): (c: F.Counters)
    ensures F.HasReasons(c)
  {
    if cancelled then AfterCancellation() else IDLE
  }

  /** The request comes in, one token goes out, and the client closes. */
  function ScheduleOf(cancelled: bool): seq<F.Action> {
    if cancelled then [F.Accept("probe", true), F.Generate(0), F.Disconnect(0)] else []
  }

  /** The fixture server before the request, and when its handler is through. */
  function ServerAt(cancelled: bool): (s: F.Server)
    ensures F.Run(F.Started(F.SingleToken), ScheduleOf(cancelled)) == Some(s) && s.counters == CountersAt(cancelled)
  {
    SchedulesRun(cancelled);
    F.Run(F.Started(F.SingleToken), ScheduleOf(cancelled)).value
  }

  lemma SchedulesRun(cancelled: bool)
    ensures var end := F.Run(F.Started(F.SingleToken), ScheduleOf(cancelled));
            end.Some? && end.value.counters == CountersAt(cancelled)
  {
    if cancelled {
      var s := F.Started(F.SingleToken);
      var accept, generate, leave := F.Accept("probe", true), F.Generate(0), F.Disconnect(0);
      assert ScheduleOf(true) == [accept, generate, leave];
      assert ScheduleOf(true)[1..] == [generate, leave] && [generate, leave][1..] == [leave];
      var taken := F.Step(s, accept);
      assert F.Run(s, ScheduleOf(true)) == F.Run(taken, [generate, leave]);
      var served := F.Step(taken, generate);
      assert F.Run(taken, [generate, leave]) == F.Run(served, [leave]);
    }
  }

  function Snap(cancelled: bool, at: Nanos): Snapshot {
    F.Scrape(ServerAt(cancelled), "server-1", 0, at)
  }

  lemma SnapIsSteady()
    ensures IsSteady(Snap)
  {
    forall c: bool, t: Nanos
      ensures Snap(c, t).at == t && Snap(c, t).process == "server-1" && RequireQuiescent(Snap(c, t))
    {
      F.ScrapeSelects(ServerAt(c), "server-1", 0, t, 0);
      F.ScrapeSelects(ServerAt(c), "server-1", 0, t, 1);
      assert F.EXPOSED_SERIES[0] == Selector(RequestsRunning, None)
             && F.EXPOSED_SERIES[1] == Selector(RequestsWaiting, None);
    }
  }

  /** Where the fixture server exposes the measured series `k`. */
  function ExposedAt(k: nat): nat
    requires k < 10
  {
    if k == 0 then 3 else if k == 1 then 4 else if k == 2 then 10 else if k == 3 then 8 else if k == 4 then 12
    else if k == 5 then 9 else if k == 6 then 11 else if k == 7 then 5 else if k == 8 then 6 else 7
  }

  lemma ExposedAtIs(k: nat)
    requires k < |MEASURED_SERIES|
    ensures 3 <= ExposedAt(k) < |F.EXPOSED_SERIES| && F.EXPOSED_SERIES[ExposedAt(k)] == MEASURED_SERIES[k]
  {
  }

  lemma ReadingsAre(k: nat)
    requires k < 10
    ensures F.Reading(CountersAt(false), ExposedAt(k)) == 0
    ensures F.Reading(CountersAt(true), ExposedAt(k)) as real == MoveOf(k)
  {
    assert "length"[0] == 'l' && "abort"[0] == 'a' && "stop"[0] == 's' && "error"[0] == 'e' && "repetition"[0] == 'r';
  }

  lemma SnapMoves()
    ensures MovesAsMeant(Snap)
  {
    forall a: bool, b: bool, t: Nanos, t': Nanos, k: nat ensures MoveFits(Snap, a, b, t, t', k) {
      if (a ==> b) && t < t' && k < |MEASURED_SERIES| {
        ExposedAtIs(k);
        ReadingsAre(k);
        F.ScrapesDiffer(ServerAt(a), ServerAt(b), "server-1", 0, 0, t, t', ExposedAt(k));
      }
    }
  }

  // ---------------------------------------------------------------- the server's log

  const LINES: seq<string> :=
    ["Received request cmpl-probe-0: params", "Added request cmpl-probe-0-deadbeef.",
     "Aborted request(s) cmpl-probe-0-deadbeef.", "Request cmpl-probe-0 aborted."]
  const OFFSETS: seq<Nanos> := [951 * MS, 952 * MS, 980 * MS, 990 * MS]

  lemma CaptureFor(lines: seq<string>, offsets: seq<Nanos>) returns (capture: RawLogCapture)
    requires |lines| == 4 && |offsets| == 4 && offsets[0] <= offsets[1] <= offsets[2] <= offsets[3]
    requires forall i :: 0 <= i < 4 ==> lines[i] != []
    ensures RawLog.CaptureIsValid(Encode, capture) && LinesOf(capture.records) == lines
            && capture.stream == "server-1-raw-log"
    ensures |capture.records| == 4 && forall i :: 0 <= i < 4 ==> capture.records[i].at == offsets[i]
  {
    var stream := "server-1-raw-log";
    assert OffsetsFit(lines, Some(offsets));
    var records := seq(4, i requires 0 <= i < 4 => RecordAt(Encode, lines, stream, 0, Some(offsets), i));
    capture := RawLogCapture(stream, Join(Encode, lines), |Join(Encode, lines)|, records);
    assert Retainable(Encode, lines, stream);
    RetainedIsValid(Encode, lines, stream, 0, Some(offsets), capture);
  }

  /** There is an accepted probe: scraped from the fixture server before and after one cancelled request,
      with a valid capture of the four lines of its log. */
  lemma AnAcceptedProbe() returns (p: Probe)
    ensures ProbeIsValid(p) && Evaluate(p, Correlate).accepted
    ensures RawLog.CaptureIsValid(Encode, p.capture) && LinesOf(p.capture.records) == LINES
  {
    var capture := CaptureFor(LINES, OFFSETS);
    SnapIsSteady();
    SnapMoves();
    p := ProbeOf(capture, Snap);
    SampleIsAccepted(capture, Snap);
  }
}
