/** Typed Prometheus snapshots and same-process counter deltas, after `stage2_prometheus.py`. */
module Prometheus {
  import opened Prelude

  datatype Metric =
    | RequestsRunning | RequestsWaiting | CacheUsage
    | PromptTokens | GenerationTokens | RequestSuccess | Preemptions | CacheQueries | CacheHits
    | OtherMetric(name: string)

  predicate IsGauge(m: Metric) {
    m.RequestsRunning? || m.RequestsWaiting? || m.CacheUsage?
  }

  predicate IsCounter(m: Metric) {
    m.PromptTokens? || m.GenerationTokens? || m.RequestSuccess? || m.Preemptions? || m.CacheQueries? || m.CacheHits?
  }

  /** Label names are unique in a sample, and their order is fixed by sorting. */
  type Labels = map<string, string>

  const REASON := "finished_reason"
  const MODEL_LABELS: Labels := map["model_name" := "qwen2.5-0.5b-instruct-stage2", "engine" := "0"]
  const FINISH_REASONS: seq<string> := ["length", "abort", "stop", "error", "repetition"]

  type Value = v: real | v >= 0.0 witness 0.0

  datatype Sample = Sample(metric: Metric, labels: Labels, value: Value)
  datatype Snapshot = Snapshot(process: string, wallClock: nat, at: Nanos, samples: seq<Sample>)

  /** One exact series: a metric and, for the request-success family only, a finish reason. */
  datatype Selector = Selector(metric: Metric, reason: Option<string>)

  predicate IsSeries(s: Selector) {
    (IsGauge(s.metric) || IsCounter(s.metric)) && (s.metric.RequestSuccess? <==> s.reason.Some?)
  }

  function LabelsOf(s: Selector): Labels {
    if s.reason.Some? then MODEL_LABELS[REASON := s.reason.value] else MODEL_LABELS
  }

  predicate Fits(sample: Sample, s: Selector) {
    sample.metric == s.metric && sample.labels == LabelsOf(s)
  }

  function Matches(samples: seq<Sample>, s: Selector): seq<Sample> {
    if samples == [] then []
    else (if Fits(samples[0], s) then [samples[0]] else []) + Matches(samples[1..], s)
  }

  /** The sample at `i` and no other is of the series. */
  predicate OnlyFit(samples: seq<Sample>, s: Selector, i: nat) {
    && i < |samples| && Fits(samples[i], s)
    && forall j :: 0 <= j < |samples| && Fits(samples[j], s) ==> j == i
  }

  function SelectExactSeries(snapshot: Snapshot, s: Selector): Result<Sample> {
    if !IsSeries(s) then Raised
    else
      var matches := Matches(snapshot.samples, s);
      if |matches| != 1 then Raised else Returned(matches[0])
  }

  lemma {:induction false} NoMatches(samples: seq<Sample>, s: Selector)
    ensures Matches(samples, s) == [] <==> forall j :: 0 <= j < |samples| ==> !Fits(samples[j], s)
  {
    if samples != [] {
      NoMatches(samples[1..], s);
      assert forall j :: 0 < j < |samples| ==> samples[j] == samples[1..][j - 1];
    }
  }

  lemma {:induction false} OneMatch(samples: seq<Sample>, s: Selector)
    ensures |Matches(samples, s)| == 1 <==> exists i: nat :: OnlyFit(samples, s, i)
    ensures forall i: nat :: OnlyFit(samples, s, i) ==> Matches(samples, s) == [samples[i]]
  {
    if samples != [] {
      var rest := samples[1..];
      OneMatch(rest, s);
      NoMatches(rest, s);
      assert forall j :: 0 < j < |samples| ==> samples[j] == rest[j - 1];
      if Fits(samples[0], s) {
        assert Matches(rest, s) == [] ==> OnlyFit(samples, s, 0);
      } else {
        forall i: nat | OnlyFit(rest, s, i) ensures OnlyFit(samples, s, i + 1) {
        }
        forall i: nat | OnlyFit(samples, s, i) ensures i > 0 && OnlyFit(rest, s, i - 1) {
          assert i > 0;
          forall j | 0 <= j < |rest| && Fits(rest[j], s) ensures j == i - 1 {
            assert Fits(samples[j + 1], s);
          }
        }
      }
    }
  }

  /** Selection returns a sample exactly when one and only one sample is of the series. */
  lemma SelectsExactly(snapshot: Snapshot, s: Selector)
    ensures SelectExactSeries(snapshot, s).Returned?
            <==> IsSeries(s) && exists i: nat :: OnlyFit(snapshot.samples, s, i)
    ensures forall i: nat :: IsSeries(s) && OnlyFit(snapshot.samples, s, i)
              ==> SelectExactSeries(snapshot, s) == Returned(snapshot.samples[i])
  {
    OneMatch(snapshot.samples, s);
  }

  lemma SelectedFits(snapshot: Snapshot, s: Selector)
    requires SelectExactSeries(snapshot, s).Returned?
    ensures Fits(SelectExactSeries(snapshot, s).value, s)
  {
    SelectsExactly(snapshot, s);
  }

  // ---------------------------------------------------------------- deltas

  datatype CounterDelta = CounterDelta(metric: Metric, labels: Labels, before: Value, after: Value, delta: Value)

  /** The label sets under which a metric appears, sorted: `label_inventory`. */
  function Inventory(samples: seq<Sample>, metric: Metric): multiset<Labels> {
    if samples == [] then multiset{}
    else
      var here := if samples[0].metric == metric then multiset{samples[0].labels} else multiset{};
      here + Inventory(samples[1..], metric)
  }

  function DeriveCounterDelta(before: Snapshot, after: Snapshot, s: Selector): Result<CounterDelta> {
    if !IsCounter(s.metric) || before.process != after.process || after.at <= before.at
       || Inventory(before.samples, s.metric) != Inventory(after.samples, s.metric) then Raised
    else
      var first := SelectExactSeries(before, s);
      var second := SelectExactSeries(after, s);
      if first.Raised? || second.Raised? || second.value.value < first.value.value then Raised
      else Returned(CounterDelta(s.metric, first.value.labels, first.value.value, second.value.value,
                                 second.value.value - first.value.value))
  }

  // ---------------------------------------------------------------- deltas by their samples

  /** A sample of the series, label by label. */
  predicate IsOf(sample: Sample, metric: Metric, reason: Option<string>) {
    && sample.metric == metric
    && sample.labels == if reason.None? then map["model_name" := "qwen2.5-0.5b-instruct-stage2", "engine" := "0"]
                        else map["model_name" := "qwen2.5-0.5b-instruct-stage2", "engine" := "0",
                                 "finished_reason" := reason.value]
  }

  /** The snapshot holds one sample of the series and no other, and its value is `v`. */
  ghost predicate Shows(x: Snapshot, metric: Metric, reason: Option<string>, v: real) {
    exists i: nat :: i < |x.samples| && IsOf(x.samples[i], metric, reason) && x.samples[i].value == v
                     && forall j: nat :: j < |x.samples| && IsOf(x.samples[j], metric, reason) ==> j == i
  }

  function CountOf(samples: seq<Sample>, metric: Metric, labels: Labels): nat {
    if samples == [] then 0
    else CountOf(samples[..|samples| - 1], metric, labels)
         + if samples[|samples| - 1].metric == metric && samples[|samples| - 1].labels == labels then 1 else 0
  }

  /** The metric appears under the same labels, each as often. */
  ghost predicate SameFamily(x: Snapshot, y: Snapshot, metric: Metric) {
    forall labels: Labels :: CountOf(x.samples, metric, labels) == CountOf(y.samples, metric, labels)
  }

  lemma ShowsExactly(x: Snapshot, s: Selector, v: real)
    requires IsSeries(s)
    ensures Shows(x, s.metric, s.reason, v)
            <==> SelectExactSeries(x, s).Returned? && SelectExactSeries(x, s).value.value == v
  {
    SelectsExactly(x, s);
    forall sample: Sample ensures IsOf(sample, s.metric, s.reason) <==> Fits(sample, s) {
    }
    if Shows(x, s.metric, s.reason, v) {
      var i: nat :| i < |x.samples| && IsOf(x.samples[i], s.metric, s.reason) && x.samples[i].value == v
                    && forall j: nat :: j < |x.samples| && IsOf(x.samples[j], s.metric, s.reason) ==> j == i;
      assert OnlyFit(x.samples, s, i);
    }
    if SelectExactSeries(x, s).Returned? && SelectExactSeries(x, s).value.value == v {
      var i: nat :| OnlyFit(x.samples, s, i);
      assert IsOf(x.samples[i], s.metric, s.reason) && x.samples[i].value == v;
    }
  }

  lemma {:induction false} InventoryCounts(samples: seq<Sample>, metric: Metric, labels: Labels)
    ensures Inventory(samples, metric)[labels] == CountOf(samples, metric, labels)
  {
    if samples != [] {
      var init, last := samples[..|samples| - 1], samples[|samples| - 1];
      InventoryCounts(init, metric, labels);
      assert samples == init + [last];
      InventorySnoc(init, last, metric);
    }
  }

  lemma {:induction false} InventorySnoc(samples: seq<Sample>, last: Sample, metric: Metric)
    ensures Inventory(samples + [last], metric)
            == Inventory(samples, metric) + if last.metric == metric then multiset{last.labels} else multiset{}
  {
    if samples == [] {
      assert [last][1..] == [];
    } else {
      assert (samples + [last])[1..] == samples[1..] + [last];
      InventorySnoc(samples[1..], last, metric);
    }
  }

  lemma SameFamilyExactly(x: Snapshot, y: Snapshot, metric: Metric)
    ensures SameFamily(x, y, metric) <==> Inventory(x.samples, metric) == Inventory(y.samples, metric)
  {
    forall labels: Labels
      ensures Inventory(x.samples, metric)[labels] == CountOf(x.samples, metric, labels)
      ensures Inventory(y.samples, metric)[labels] == CountOf(y.samples, metric, labels)
    {
      InventoryCounts(x.samples, metric, labels);
      InventoryCounts(y.samples, metric, labels);
    }
    if SameFamily(x, y, metric) {
      forall labels: Labels ensures Inventory(x.samples, metric)[labels] == Inventory(y.samples, metric)[labels] {
        assert CountOf(x.samples, metric, labels) == CountOf(y.samples, metric, labels);
      }
    }
  }

  /** A delta is derived exactly between a scrape and a later one of the same process that show the same
      labels and one sample of the series each, the later no smaller; and it is the difference. */
  lemma DerivesExactly(before: Snapshot, after: Snapshot, s: Selector)
    requires IsSeries(s) && IsCounter(s.metric)
    ensures DeriveCounterDelta(before, after, s).Returned?
            <==> && before.process == after.process && before.at < after.at && SameFamily(before, after, s.metric)
                 && exists v: real, w: real :: v <= w && Shows(before, s.metric, s.reason, v)
                                               && Shows(after, s.metric, s.reason, w)
    ensures forall v: real, w: real ::
              DeriveCounterDelta(before, after, s).Returned? && Shows(before, s.metric, s.reason, v)
              && Shows(after, s.metric, s.reason, w) ==>
                var d := DeriveCounterDelta(before, after, s).value;
                d.metric == s.metric && d.before == v && d.after == w && d.delta == w - v
  {
    SameFamilyExactly(before, after, s.metric);
    forall v: real
      ensures Shows(before, s.metric, s.reason, v)
              <==> SelectExactSeries(before, s).Returned? && SelectExactSeries(before, s).value.value == v
      ensures Shows(after, s.metric, s.reason, v)
              <==> SelectExactSeries(after, s).Returned? && SelectExactSeries(after, s).value.value == v
    {
      ShowsExactly(before, s, v);
      ShowsExactly(after, s, v);
    }
    if DeriveCounterDelta(before, after, s).Returned? {
      var d := DeriveCounterDelta(before, after, s).value;
      assert Shows(before, s.metric, s.reason, d.before) && Shows(after, s.metric, s.reason, d.after);
    }
  }

  /** Deltas telescope: where two neighbouring deltas can be taken, so can the one across both, and it
      is their sum. */
  lemma DeltasTelescope(a: Snapshot, b: Snapshot, c: Snapshot, s: Selector)
    requires DeriveCounterDelta(a, b, s).Returned? && DeriveCounterDelta(b, c, s).Returned?
    ensures DeriveCounterDelta(a, c, s).Returned?
    ensures DeriveCounterDelta(a, c, s).value.delta
            == DeriveCounterDelta(a, b, s).value.delta + DeriveCounterDelta(b, c, s).value.delta
    ensures DeriveCounterDelta(a, c, s).value.labels == LabelsOf(s)
  {
    SelectedFits(a, s);
  }

  /** Every neighbouring pair of the chain has a delta for the series. */
  predicate Progresses(chain: seq<Snapshot>, s: Selector) {
    forall i :: 0 < i < |chain| ==> DeriveCounterDelta(chain[i - 1], chain[i], s).Returned?
  }

  /** ... and it is zero. */
  predicate StandsStill(chain: seq<Snapshot>, s: Selector) {
    forall i :: 0 < i < |chain| ==> DeriveCounterDelta(chain[i - 1], chain[i], s).Returned?
                                    && DeriveCounterDelta(chain[i - 1], chain[i], s).value.delta == 0.0
  }

  lemma {:induction false} ChainDelta(chain: seq<Snapshot>, s: Selector, i: nat, j: nat)
    requires Progresses(chain, s) && i < j < |chain|
    ensures DeriveCounterDelta(chain[i], chain[j], s).Returned?
    ensures StandsStill(chain, s) ==> DeriveCounterDelta(chain[i], chain[j], s).value.delta == 0.0
    decreases j - i
  {
    assert DeriveCounterDelta(chain[j - 1], chain[j], s).Returned?;
    if i + 1 < j {
      ChainDelta(chain, s, i, j - 1);
      DeltasTelescope(chain[i], chain[j - 1], chain[j], s);
    }
  }

  // ---------------------------------------------------------------- the measured window

  const EXPECTED_DELTAS: map<Selector, Value> :=
    map[Selector(PromptTokens, None) := 1024.0,
        Selector(GenerationTokens, None) := 512.0,
        Selector(RequestSuccess, Some("length")) := 16.0,
        Selector(RequestSuccess, Some("abort")) := 0.0,
        Selector(RequestSuccess, Some("stop")) := 0.0,
        Selector(RequestSuccess, Some("error")) := 0.0,
        Selector(RequestSuccess, Some("repetition")) := 0.0,
        Selector(Preemptions, None) := 0.0,
        Selector(CacheQueries, None) := 0.0,
        Selector(CacheHits, None) := 0.0]

  const MEASURED_SERIES: seq<Selector> :=
    [Selector(PromptTokens, None), Selector(GenerationTokens, None),
     Selector(RequestSuccess, Some("length")), Selector(RequestSuccess, Some("abort")),
       Selector(RequestSuccess, Some("stop")),
     Selector(RequestSuccess, Some("error")), Selector(RequestSuccess, Some("repetition")),
     Selector(Preemptions, None), Selector(CacheQueries, None), Selector(CacheHits, None)]

  /** The series a delta speaks for, by its metric and its finish-reason label. */
  function SeriesOf(d: CounterDelta): Selector {
    Selector(d.metric, if d.metric.RequestSuccess? && REASON in d.labels then Some(d.labels[REASON]) else None)
  }

  predicate WellLabelled(d: CounterDelta) {
    && (d.metric.RequestSuccess? ==> REASON in d.labels && d.labels[REASON] in FINISH_REASONS)
    && d.labels == LabelsOf(SeriesOf(d))
  }

  /** The list holds one delta for each expected series, with the expected value, and nothing else. */
  ghost predicate MeetsWindow(deltas: seq<CounterDelta>) {
    && (forall i :: 0 <= i < |deltas| ==> WellLabelled(deltas[i]))
    && (forall i, j :: 0 <= i < j < |deltas| ==> SeriesOf(deltas[i]) != SeriesOf(deltas[j]))
    && (forall i :: 0 <= i < |deltas| ==>
        SeriesOf(deltas[i]) in EXPECTED_DELTAS && deltas[i].delta == EXPECTED_DELTAS[SeriesOf(deltas[i])])
    && forall s :: s in EXPECTED_DELTAS ==> exists i :: 0 <= i < |deltas| && SeriesOf(deltas[i]) == s
  }

  method ValidateMeasuredWindowDeltas(deltas: seq<CounterDelta>) returns (accepted: bool)
    ensures accepted <==> MeetsWindow(deltas)
  {
    var observed := ObserveDeltas(deltas);
    if observed.None? {
      return false;
    }
    ObservedIsExpected(deltas, observed.value);
    accepted := observed.value == EXPECTED_DELTAS;
  }

  /** Each delta well labelled, and each series once. */
  predicate OnceEach(deltas: seq<CounterDelta>) {
    && (forall i :: 0 <= i < |deltas| ==> WellLabelled(deltas[i]))
    && forall i, j :: 0 <= i < j < |deltas| ==> SeriesOf(deltas[i]) != SeriesOf(deltas[j])
  }

  /** The loop of `validate_measured_window_deltas`, which fills its dictionary. */
  method ObserveDeltas(deltas: seq<CounterDelta>) returns (r: Option<map<Selector, Value>>)
    ensures r.Some? <==> OnceEach(deltas)
    ensures r.Some? ==>
              forall j :: 0 <= j < |deltas| ==>
                SeriesOf(deltas[j]) in r.value && r.value[SeriesOf(deltas[j])] == deltas[j].delta
    ensures r.Some? ==> forall s :: s in r.value ==> exists j :: 0 <= j < |deltas| && SeriesOf(deltas[j]) == s
  {
    var observed: map<Selector, Value> := map[];
    for i := 0 to |deltas|
      invariant forall j :: 0 <= j < i ==> WellLabelled(deltas[j])
      invariant IsDictionary(deltas[..i], observed)
    {
      var d := deltas[i];
      assert deltas[..i + 1] == deltas[..i] + [d];
      if !WellLabelled(d) {
        return None;
      }
      var key := SeriesOf(d);
      if key in observed {
        TwiceSeen(deltas, observed, i);
        return None;
      }
      OneMoreDelta(deltas[..i], observed, d);
      observed := observed[key := d.delta];
    }
    assert deltas[..|deltas|] == deltas;
    return Some(observed);
  }

  /** The series of the deltas are all different, and the dictionary lists exactly them with their values. */
  ghost predicate IsDictionary(deltas: seq<CounterDelta>, observed: map<Selector, Value>) {
    && (forall j, k :: 0 <= j < k < |deltas| ==> SeriesOf(deltas[j]) != SeriesOf(deltas[k]))
    && (forall j :: 0 <= j < |deltas| ==>
          SeriesOf(deltas[j]) in observed && observed[SeriesOf(deltas[j])] == deltas[j].delta)
    && forall s :: s in observed ==> exists j :: 0 <= j < |deltas| && SeriesOf(deltas[j]) == s
  }

  lemma OneMoreDelta(deltas: seq<CounterDelta>, observed: map<Selector, Value>, d: CounterDelta)
    requires IsDictionary(deltas, observed) && SeriesOf(d) !in observed
    ensures IsDictionary(deltas + [d], observed[SeriesOf(d) := d.delta])
  {
    var all, more := deltas + [d], observed[SeriesOf(d) := d.delta];
    forall s | s in more ensures exists j :: 0 <= j < |all| && SeriesOf(all[j]) == s {
      if s == SeriesOf(d) {
        assert all[|deltas|] == d;
      } else {
        var j :| 0 <= j < |deltas| && SeriesOf(deltas[j]) == s;
        assert all[j] == deltas[j];
      }
    }
  }

  lemma TwiceSeen(deltas: seq<CounterDelta>, observed: map<Selector, Value>, i: nat)
    requires i < |deltas| && IsDictionary(deltas[..i], observed) && SeriesOf(deltas[i]) in observed
    ensures !OnceEach(deltas)
  {
    var j :| 0 <= j < i && SeriesOf(deltas[..i][j]) == SeriesOf(deltas[i]);
    assert deltas[..i][j] == deltas[j];
  }

  lemma ObservedIsExpected(deltas: seq<CounterDelta>, observed: map<Selector, Value>)
    requires forall j :: 0 <= j < |deltas| ==> WellLabelled(deltas[j])
    requires forall j, k :: 0 <= j < k < |deltas| ==> SeriesOf(deltas[j]) != SeriesOf(deltas[k])
    requires forall j :: 0 <= j < |deltas| ==>
             SeriesOf(deltas[j]) in observed && observed[SeriesOf(deltas[j])] == deltas[j].delta
    requires forall s :: s in observed ==> exists j :: 0 <= j < |deltas| && SeriesOf(deltas[j]) == s
    ensures observed == EXPECTED_DELTAS <==> MeetsWindow(deltas)
  {
    SameMap(deltas, observed, EXPECTED_DELTAS);
  }

  /** A dictionary filled from the deltas equals another exactly when that one lists the same. */
  lemma SameMap(deltas: seq<CounterDelta>, observed: map<Selector, Value>, expected: map<Selector, Value>)
    requires forall j :: 0 <= j < |deltas| ==>
             SeriesOf(deltas[j]) in observed && observed[SeriesOf(deltas[j])] == deltas[j].delta
    requires forall s :: s in observed ==> exists j :: 0 <= j < |deltas| && SeriesOf(deltas[j]) == s
    ensures observed == expected
            <==> && (forall i :: 0 <= i < |deltas| ==>
              SeriesOf(deltas[i]) in expected && deltas[i].delta == expected[SeriesOf(deltas[i])])
                 && forall s :: s in expected ==> exists i :: 0 <= i < |deltas| && SeriesOf(deltas[i]) == s
  {
  }

  /** Exactly the five expected finish reasons are exposed for the model. */
  predicate ReasonFamilyIsExact(snapshot: Snapshot) {
    (set i | 0 <= i < |snapshot.samples| && snapshot.samples[i].metric.RequestSuccess?
      && CarriesModel(snapshot.samples[i].labels)
         :: snapshot.samples[i].labels)
    == set i | 0 <= i < |FINISH_REASONS| :: LabelsOf(Selector(RequestSuccess, Some(FINISH_REASONS[i])))
  }

  predicate CarriesModel(labels: Labels) {
    forall name :: name in MODEL_LABELS ==> name in labels && labels[name] == MODEL_LABELS[name]
  }

  /** One of the five finish reasons. */
  predicate IsReason(reason: string) {
    reason == "length" || reason == "abort" || reason == "stop" || reason == "error" || reason == "repetition"
  }

  predicate ShowsReason(snapshot: Snapshot, reason: string) {
    exists i :: 0 <= i < |snapshot.samples| && IsOf(snapshot.samples[i], RequestSuccess, Some(reason))
  }

  /** The model's samples of the metric bear one of the five reasons. */
  predicate BearsReason(sample: Sample) {
    exists k :: 0 <= k < |FINISH_REASONS| && IsOf(sample, RequestSuccess, Some(FINISH_REASONS[k]))
  }

  predicate IsOfFamily(sample: Sample) {
    && sample.metric.RequestSuccess?
    && "model_name" in sample.labels && sample.labels["model_name"] == "qwen2.5-0.5b-instruct-stage2"
    && "engine" in sample.labels && sample.labels["engine"] == "0"
  }

  /** The family is exact if and only if each of the five reasons has a sample, and no sample of the metric
      bears the model's labels with anything but one of them. */
  lemma FamilyExactly(snapshot: Snapshot)
    ensures ReasonFamilyIsExact(snapshot)
            <==> && (forall reason: string :: IsReason(reason) ==> ShowsReason(snapshot, reason))
                 && forall i :: 0 <= i < |snapshot.samples| && IsOfFamily(snapshot.samples[i]) ==>
                      BearsReason(snapshot.samples[i])
    ensures forall k :: 0 <= k < |FINISH_REASONS| ==> IsReason(FINISH_REASONS[k])
  {
    var samples := snapshot.samples;
    var family := set i | 0 <= i < |samples| && samples[i].metric.RequestSuccess? && CarriesModel(samples[i].labels)
                        :: samples[i].labels;
    var expected := set i | 0 <= i < |FINISH_REASONS| :: LabelsOf(Selector(RequestSuccess, Some(FINISH_REASONS[i])));
    assert forall i :: 0 <= i < |samples| && samples[i].metric.RequestSuccess? ==>
                         (CarriesModel(samples[i].labels) <==> IsOfFamily(samples[i]));
    FamilyHolds(snapshot, family, expected);
    FamilyIsHeld(snapshot, family, expected);
  }

  lemma ReasonIndex(reason: string) returns (k: nat)
    requires IsReason(reason)
    ensures k < |FINISH_REASONS| && FINISH_REASONS[k] == reason
  {
    k := if reason == "length" then 0 else if reason == "abort" then 1 else if reason == "stop" then 2
         else if reason == "error" then 3 else 4;
  }

  lemma IsOfBears(sample: Sample, k: nat)
    requires k < |FINISH_REASONS| && sample.metric.RequestSuccess?
    ensures IsOf(sample, RequestSuccess, Some(FINISH_REASONS[k]))
            <==> sample.labels == LabelsOf(Selector(RequestSuccess, Some(FINISH_REASONS[k])))
    ensures IsOf(sample, RequestSuccess, Some(FINISH_REASONS[k])) ==> IsOfFamily(sample)
  {
    assert "finished_reason"[0] != "model_name"[0] && "finished_reason"[0] != "engine"[0];
  }

  lemma FamilyHolds(snapshot: Snapshot, family: set<Labels>, expected: set<Labels>)
    requires forall labels :: labels in family <==>
               exists i :: 0 <= i < |snapshot.samples| && IsOfFamily(snapshot.samples[i])
                           && snapshot.samples[i].labels == labels
    requires forall labels :: labels in expected <==>
               exists k :: 0 <= k < |FINISH_REASONS|
                           && labels == LabelsOf(Selector(RequestSuccess, Some(FINISH_REASONS[k])))
    ensures expected <= family <==> forall reason: string :: IsReason(reason) ==> ShowsReason(snapshot, reason)
  {
    if expected <= family {
      forall reason: string | IsReason(reason) ensures ShowsReason(snapshot, reason) {
        var k := ReasonIndex(reason);
        var labels := LabelsOf(Selector(RequestSuccess, Some(FINISH_REASONS[k])));
        assert labels in family;
        var i :| 0 <= i < |snapshot.samples| && IsOfFamily(snapshot.samples[i]) && snapshot.samples[i].labels == labels;
        IsOfBears(snapshot.samples[i], k);
      }
    }
    if forall reason: string :: IsReason(reason) ==> ShowsReason(snapshot, reason) {
      forall labels | labels in expected ensures labels in family {
        var k :| 0 <= k < |FINISH_REASONS| && labels == LabelsOf(Selector(RequestSuccess, Some(FINISH_REASONS[k])));
        assert IsReason(FINISH_REASONS[k]) && ShowsReason(snapshot, FINISH_REASONS[k]);
        var i :| 0 <= i < |snapshot.samples| && IsOf(snapshot.samples[i], RequestSuccess, Some(FINISH_REASONS[k]));
        IsOfBears(snapshot.samples[i], k);
      }
    }
  }

  lemma FamilyIsHeld(snapshot: Snapshot, family: set<Labels>, expected: set<Labels>)
    requires forall labels :: labels in family <==>
               exists i :: 0 <= i < |snapshot.samples| && IsOfFamily(snapshot.samples[i])
                           && snapshot.samples[i].labels == labels
    requires forall labels :: labels in expected <==>
               exists k :: 0 <= k < |FINISH_REASONS|
                           && labels == LabelsOf(Selector(RequestSuccess, Some(FINISH_REASONS[k])))
    ensures family <= expected
            <==> forall i :: 0 <= i < |snapshot.samples| && IsOfFamily(snapshot.samples[i]) ==>
                   BearsReason(snapshot.samples[i])
  {
    forall i | 0 <= i < |snapshot.samples| && IsOfFamily(snapshot.samples[i])
      ensures BearsReason(snapshot.samples[i]) <==> snapshot.samples[i].labels in expected
    {
      forall k: nat | k < |FINISH_REASONS|
        ensures IsOf(snapshot.samples[i], RequestSuccess, Some(FINISH_REASONS[k]))
                <==> snapshot.samples[i].labels == LabelsOf(Selector(RequestSuccess, Some(FINISH_REASONS[k])))
      {
        IsOfBears(snapshot.samples[i], k);
      }
    }
  }

  /** The measured window is accepted exactly when each of the ten series moved by its expected amount. */
  predicate WindowIsExact(before: Snapshot, after: Snapshot) {
    && ReasonFamilyIsExact(before) && ReasonFamilyIsExact(after)
    && forall s :: s in EXPECTED_DELTAS ==>
        && DeriveCounterDelta(before, after, s).Returned?
        && DeriveCounterDelta(before, after, s).value.delta == EXPECTED_DELTAS[s]
  }

  /** The deltas of the listed series, in order, unless one of them cannot be derived. */
  function DeriveAll(before: Snapshot, after: Snapshot, series: seq<Selector>): (r: Result<seq<CounterDelta>>)
    ensures r.Returned? <==> forall i :: 0 <= i < |series| ==> DeriveCounterDelta(before, after, series[i]).Returned?
    ensures r.Returned? ==> |r.value| == |series|
    ensures r.Returned? ==>
              forall i :: 0 <= i < |series| ==> DeriveCounterDelta(before, after, series[i]) == Returned(r.value[i])
  {
    if series == [] then Returned([])
    else
      var first := DeriveCounterDelta(before, after, series[0]);
      var others := DeriveAll(before, after, series[1..]);
      AddDelta(before, after, series, first, others);
      if first.Raised? || others.Raised? then Raised else Returned([first.value] + others.value)
  }

  lemma AddDelta(
    before: Snapshot, after: Snapshot, series: seq<Selector>, first: Result<CounterDelta>,
    others: Result<seq<CounterDelta>>)
    requires series != [] && first == DeriveCounterDelta(before, after, series[0])
    requires others.Returned? <==>
             forall i :: 0 <= i < |series| - 1 ==> DeriveCounterDelta(before, after, series[1..][i]).Returned?
    requires others.Returned? ==> |others.value| == |series| - 1
    requires others.Returned? ==>
               forall i :: 0 <= i < |series| - 1 ==>
                 DeriveCounterDelta(before, after, series[1..][i]) == Returned(others.value[i])
    ensures first.Returned? && others.Returned? <==>
            forall i :: 0 <= i < |series| ==> DeriveCounterDelta(before, after, series[i]).Returned?
    ensures first.Returned? && others.Returned? ==>
              forall i :: 0 <= i < |series| ==>
                DeriveCounterDelta(before, after, series[i]) == Returned(([first.value] + others.value)[i])
  {
    assert forall i :: 0 <= i < |series| - 1 ==> series[1..][i] == series[i + 1];
    if first.Returned? && others.Returned? {
      forall i | 0 <= i < |series|
        ensures DeriveCounterDelta(before, after, series[i]) == Returned(([first.value] + others.value)[i])
      {
        assert i > 0 ==> series[i] == series[1..][i - 1];
      }
    } else if first.Returned? {
      var i :| 0 <= i < |series| - 1 && DeriveCounterDelta(before, after, series[1..][i]).Raised?;
      assert series[i + 1] == series[1..][i];
    }
  }

  method DeriveMeasuredWindowDeltas(before: Snapshot, after: Snapshot) returns (r: Result<seq<CounterDelta>>)
    ensures r.Returned? <==> WindowIsExact(before, after)
    ensures r.Returned? ==> r == DeriveAll(before, after, MEASURED_SERIES)
  {
    if !ReasonFamilyIsExact(before) || !ReasonFamilyIsExact(after) {
      return Raised;
    }
    r := DeriveAll(before, after, MEASURED_SERIES);
    WindowNeedsAll(before, after);
    if r.Raised? {
      return;
    }
    DerivedDeltasSpeakForTheirSeries(before, after, r.value);
    WindowByDeltas(before, after, r.value);
    var accepted := ValidateMeasuredWindowDeltas(r.value);
    if !accepted {
      r := Raised;
    }
  }

  lemma WindowNeedsAll(before: Snapshot, after: Snapshot)
    ensures WindowIsExact(before, after) ==> DeriveAll(before, after, MEASURED_SERIES).Returned?
  {
    SeriesAreTheExpected();
    assert forall i :: 0 <= i < |MEASURED_SERIES| ==> MEASURED_SERIES[i] in EXPECTED_DELTAS;
  }

  lemma ReasonsDiffer()
    ensures forall i, j :: 0 <= i < j < |FINISH_REASONS| ==> FINISH_REASONS[i] != FINISH_REASONS[j]
  {
    assert "length"[0] == 'l' && "abort"[0] == 'a' && "stop"[0] == 's' && "error"[0] == 'e' && "repetition"[0] == 'r';
  }

  lemma SeriesAreTheExpected()
    ensures forall s :: s in EXPECTED_DELTAS <==> s in MEASURED_SERIES
    ensures forall i, j :: 0 <= i < j < |MEASURED_SERIES| ==> MEASURED_SERIES[i] != MEASURED_SERIES[j]
  {
    ReasonsDiffer();
    assert FINISH_REASONS == ["length", "abort", "stop", "error", "repetition"];
    assert forall i :: 2 <= i < 7 ==> MEASURED_SERIES[i] == Selector(RequestSuccess, Some(FINISH_REASONS[i - 2]));
  }

  lemma DerivedDeltasSpeakForTheirSeries(before: Snapshot, after: Snapshot, deltas: seq<CounterDelta>)
    requires |deltas| == |MEASURED_SERIES|
    requires forall j :: 0 <= j < |deltas| ==>
             DeriveCounterDelta(before, after, MEASURED_SERIES[j]) == Returned(deltas[j])
    ensures forall j :: 0 <= j < |deltas| ==> SeriesOf(deltas[j]) == MEASURED_SERIES[j] && WellLabelled(deltas[j])
  {
    forall j | 0 <= j < |deltas| ensures SeriesOf(deltas[j]) == MEASURED_SERIES[j] && WellLabelled(deltas[j]) {
      SelectedFits(before, MEASURED_SERIES[j]);
      assert deltas[j].metric == MEASURED_SERIES[j].metric && deltas[j].labels == LabelsOf(MEASURED_SERIES[j]);
      SeriesReadsBack(j);
    }
  }

  lemma SeriesReadsBack(j: nat)
    requires j < |MEASURED_SERIES|
    ensures var s := MEASURED_SERIES[j];
            && s.metric.RequestSuccess? == s.reason.Some?
            && (s.reason.Some? ==> s.reason.value in FINISH_REASONS && LabelsOf(s)[REASON] == s.reason.value)
  {
    var s := MEASURED_SERIES[j];
    if s.reason.Some? {
      assert 2 <= j < 7;
      assert s.reason.value == FINISH_REASONS[j - 2];
    }
  }

  lemma WindowByDeltas(before: Snapshot, after: Snapshot, deltas: seq<CounterDelta>)
    requires ReasonFamilyIsExact(before) && ReasonFamilyIsExact(after)
    requires |deltas| == |MEASURED_SERIES|
    requires forall j :: 0 <= j < |deltas| ==>
             DeriveCounterDelta(before, after, MEASURED_SERIES[j]) == Returned(deltas[j])
    requires forall j :: 0 <= j < |deltas| ==> SeriesOf(deltas[j]) == MEASURED_SERIES[j] && WellLabelled(deltas[j])
    ensures MeetsWindow(deltas) <==> WindowIsExact(before, after)
  {
    SeriesAreTheExpected();
    if WindowIsExact(before, after) {
      forall i | 0 <= i < |deltas|
        ensures SeriesOf(deltas[i]) in EXPECTED_DELTAS && deltas[i].delta == EXPECTED_DELTAS[SeriesOf(deltas[i])]
      {
        assert MEASURED_SERIES[i] in EXPECTED_DELTAS;
      }
      forall s | s in EXPECTED_DELTAS ensures exists i :: 0 <= i < |deltas| && SeriesOf(deltas[i]) == s {
        var i :| 0 <= i < |MEASURED_SERIES| && MEASURED_SERIES[i] == s;
        assert SeriesOf(deltas[i]) == s;
      }
    }
  }

  // ---------------------------------------------------------------- the quiescence gate

  predicate RequireQuiescent(snapshot: Snapshot) {
    forall m :: m in {RequestsRunning, RequestsWaiting} ==>
      && SelectExactSeries(snapshot, Selector(m, None)).Returned?
      && SelectExactSeries(snapshot, Selector(m, None)).value.value == 0.0
  }

  /** The gate passes exactly when the scrape shows no request running and none waiting. */
  lemma RestsExactly(snapshot: Snapshot)
    ensures RequireQuiescent(snapshot)
            <==> Shows(snapshot, RequestsRunning, None, 0.0) && Shows(snapshot, RequestsWaiting, None, 0.0)
  {
    ShowsExactly(snapshot, Selector(RequestsRunning, None), 0.0);
    ShowsExactly(snapshot, Selector(RequestsWaiting, None), 0.0);
    assert RequestsRunning in {RequestsRunning, RequestsWaiting}
           && RequestsWaiting in {RequestsRunning, RequestsWaiting};
  }
}
