/** The sweep line of `_derive_observed_concurrency` against the plain definition of overlap. */
module Overlap {
  import opened Prelude
  import opened Sorting

  /** One measured request: active from its dispatch up to, but not at, its terminal. */
  datatype Interval = Interval(dispatch: nat, terminal: nat)

  datatype Event = Event(time: nat, delta: int)

  predicate Positive(requests: seq<Interval>) {
    forall i :: 0 <= i < |requests| ==> requests[i].dispatch < requests[i].terminal
  }

  // ---------------------------------------------------------------- the definition

  predicate Active(r: Interval, x: int) {
    r.dispatch <= x < r.terminal
  }

  /** How many requests are active at instant `x`. */
  function ActiveAt(requests: seq<Interval>, x: int): nat {
    if requests == [] then 0 else (if Active(requests[0], x) then 1 else 0) + ActiveAt(requests[1..], x)
  }

  // ---------------------------------------------------------------- the events, sorted

  function Starts(requests: seq<Interval>): seq<Event> {
    if requests == [] then [] else [Event(requests[0].dispatch, 1)] + Starts(requests[1..])
  }

  function Ends(requests: seq<Interval>): seq<Event> {
    if requests == [] then [] else [Event(requests[0].terminal, -1)] + Ends(requests[1..])
  }

  /** The sort key, by time and at one time the ends first, folded into one number. */
  function Key(e: Event): int {
    2 * e.time + if e.delta == -1 then 0 else 1
  }

  /** How many requests have started but not ended once all events up to key `y` are through. */
  function OpenAfter(requests: seq<Interval>, y: int): nat {
    if requests == [] then 0
    else (if 2 * requests[0].dispatch + 1 <= y < 2 * requests[0].terminal then 1 else 0) + OpenAfter(requests[1..], y)
  }

  function SortKey(e: Event): real {
    Key(e) as real
  }

  function Events(requests: seq<Interval>): seq<Event> {
    Sorted(SortKey, Starts(requests) + Ends(requests))
  }

  // ---------------------------------------------------------------- levels and sums over events

  /** How many requests the sweep has open after its first `k` events. */
  function Level(events: seq<Event>, k: nat): int
    requires k <= |events|
  {
    if k == 0 then 0 else Level(events, k - 1) + events[k - 1].delta
  }

  /** The sum of all events up to key `x`. */
  function SumUpTo(events: seq<Event>, x: int): int {
    if events == [] then 0 else (if Key(events[0]) <= x then events[0].delta else 0) + SumUpTo(events[1..], x)
  }

  lemma {:induction false} SumUpToConcat(a: seq<Event>, b: seq<Event>, x: int)
    ensures SumUpTo(a + b, x) == SumUpTo(a, x) + SumUpTo(b, x)
  {
    if a == [] {
      assert a + b == b;
    } else {
      assert (a + b)[1..] == a[1..] + b;
      SumUpToConcat(a[1..], b, x);
    }
  }

  lemma {:induction false} InsertKeepsSum(e: Event, sorted: seq<Event>, x: int)
    ensures SumUpTo(Insert(SortKey, e, sorted), x) == SumUpTo([e] + sorted, x)
  {
    if sorted != [] && SortKey(e) > SortKey(sorted[0]) {
      InsertKeepsSum(e, sorted[1..], x);
      assert ([e] + sorted[1..])[1..] == sorted[1..];
    }
  }

  lemma {:induction false} SortingKeepsSum(events: seq<Event>, x: int)
    ensures SumUpTo(Sorted(SortKey, events), x) == SumUpTo(events, x)
  {
    if events != [] {
      SortingKeepsSum(events[1..], x);
      InsertKeepsSum(events[0], Sorted(SortKey, events[1..]), x);
    }
  }

  lemma {:induction false} StartsMinusEnds(requests: seq<Interval>, x: int)
    requires Positive(requests)
    ensures SumUpTo(Starts(requests), x) + SumUpTo(Ends(requests), x) == OpenAfter(requests, x)
    ensures forall e :: e in Starts(requests) ==> e.delta == 1
    ensures forall e :: e in Ends(requests) ==> e.delta == -1
  {
    if requests != [] {
      StartsMinusEnds(requests[1..], x);
      assert Starts(requests)[1..] == Starts(requests[1..]) && Ends(requests)[1..] == Ends(requests[1..]);
    }
  }

  ghost predicate InOrder(events: seq<Event>) {
    forall i, j :: 0 <= i < j < |events| ==> Key(events[i]) <= Key(events[j])
  }

  /** What the sorted events add up to at a key is how many requests are open behind it. */
  lemma EventsCount(requests: seq<Interval>, x: int)
    requires Positive(requests)
    ensures SumUpTo(Events(requests), x) == OpenAfter(requests, x)
  {
    StartsMinusEnds(requests, x);
    SumUpToConcat(Starts(requests), Ends(requests), x);
    SortingKeepsSum(Starts(requests) + Ends(requests), x);
  }

  lemma EventsAreInOrder(requests: seq<Interval>)
    requires Positive(requests)
    ensures InOrder(Events(requests))
    ensures forall i :: 0 <= i < |Events(requests)| ==>
            Events(requests)[i].delta == 1 || Events(requests)[i].delta == -1
  {
    var all := Starts(requests) + Ends(requests);
    StartsMinusEnds(requests, 0);
    SortedIsOrdered(SortKey, all);
    var events := Events(requests);
    forall i, j | 0 <= i < j < |events| ensures Key(events[i]) <= Key(events[j]) {
      assert SortKey(events[i]) <= SortKey(events[j]);
    }
    forall i | 0 <= i < |events| ensures events[i].delta == 1 || events[i].delta == -1 {
      assert events[i] in multiset(all);
    }
  }

  // ---------------------------------------------------------------- prefixes of the sweep

  lemma {:induction false} SumUpToNone(events: seq<Event>, x: int)
    requires forall i :: 0 <= i < |events| ==> Key(events[i]) > x
    ensures SumUpTo(events, x) == 0
  {
    if events != [] {
      SumUpToNone(events[1..], x);
    }
  }

  lemma {:induction false} SumUpToAll(events: seq<Event>, k: nat, x: int)
    requires k <= |events| && forall i :: 0 <= i < k ==> Key(events[i]) <= x
    ensures SumUpTo(events[..k], x) == Level(events, k)
  {
    if k > 0 {
      SumUpToAll(events, k - 1, x);
      assert events[..k] == events[..k - 1] + [events[k - 1]];
      SumUpToConcat(events[..k - 1], [events[k - 1]], x);
    }
  }

  /** A prefix of the sorted events holds exactly the events up to key `x`. */
  predicate CutsAt(events: seq<Event>, k: nat, x: int)
    requires k <= |events|
  {
    (forall i :: 0 <= i < k ==> Key(events[i]) <= x) && forall i :: k <= i < |events| ==> Key(events[i]) > x
  }

  lemma PrefixCounts(requests: seq<Interval>, k: nat, x: int)
    requires Positive(requests) && k <= |Events(requests)| && CutsAt(Events(requests), k, x)
    ensures Level(Events(requests), k) == OpenAfter(requests, x)
  {
    var events := Events(requests);
    SplitAt(events, k);
    SumUpToConcat(events[..k], events[k..], x);
    SumUpToAll(events, k, x);
    SumUpToNone(events[k..], x);
    EventsCount(requests, x);
  }

  lemma {:induction false} CutFor(events: seq<Event>, x: int) returns (k: nat)
    requires InOrder(events)
    ensures k <= |events| && CutsAt(events, k, x)
  {
    k := 0;
    while k < |events| && Key(events[k]) <= x
      invariant k <= |events| && forall i :: 0 <= i < k ==> Key(events[i]) <= x
    {
      k := k + 1;
    }
    assert k < |events| ==> forall i :: k < i < |events| ==> Key(events[k]) <= Key(events[i]);
  }

  /** Over events that all start, or all end, the level moves one way. */
  lemma {:induction false} LevelMoves(events: seq<Event>, k: nat, m: nat, delta: int)
    requires k <= m <= |events| && forall i :: k <= i < m ==> events[i].delta == delta
    ensures delta == 1 ==> Level(events, k) <= Level(events, m)
    ensures delta == -1 ==> Level(events, k) >= Level(events, m)
    decreases m - k
  {
    if k < m {
      LevelMoves(events, k, m - 1, delta);
    }
  }

  lemma {:induction false} OpenIsActive(requests: seq<Interval>, x: int)
    ensures OpenAfter(requests, 2 * x + 1) == ActiveAt(requests, x)
    ensures OpenAfter(requests, 2 * x) <= ActiveAt(requests, x)
  {
    if requests != [] {
      OpenIsActive(requests[1..], x);
    }
  }

  lemma OpenIsActiveSomewhere(requests: seq<Interval>, y: int) returns (x: int)
    ensures 0 <= OpenAfter(requests, y) <= ActiveAt(requests, x)
  {
    x := y / 2;
    assert y == 2 * x || y == 2 * x + 1;
    OpenIsActive(requests, x);
  }

  /** Every level lies between the levels before and after all events of one key. */
  lemma LevelIsBetween(requests: seq<Interval>, k: nat)
    requires Positive(requests) && 0 < k <= |Events(requests)|
    ensures var y := Key(Events(requests)[k - 1]);
            || OpenAfter(requests, y - 1) <= Level(Events(requests), k) <= OpenAfter(requests, y)
            || OpenAfter(requests, y) <= Level(Events(requests), k) <= OpenAfter(requests, y - 1)
  {
    var events := Events(requests);
    EventsAreInOrder(requests);
    var y := Key(events[k - 1]);
    var low := CutFor(events, y - 1);
    var high := CutFor(events, y);
    assert low <= k - 1 < high;
    forall i | low <= i < high ensures events[i].delta == events[k - 1].delta {
      assert Key(events[i]) == y;
    }
    LevelMoves(events, low, k, events[k - 1].delta);
    LevelMoves(events, k, high, events[k - 1].delta);
    PrefixCounts(requests, low, y - 1);
    PrefixCounts(requests, high, y);
  }

  /** Every level lies between zero and the number active at some instant: the sweep never goes
      negative and never reports more than is active somewhere. */
  lemma LevelIsBounded(requests: seq<Interval>, k: nat) returns (x: int)
    requires Positive(requests) && k <= |Events(requests)|
    ensures 0 <= Level(Events(requests), k) <= ActiveAt(requests, x)
  {
    if k == 0 {
      return 0;
    }
    LevelIsBetween(requests, k);
    var y := Key(Events(requests)[k - 1]);
    var before := OpenIsActiveSomewhere(requests, y - 1);
    x := OpenIsActiveSomewhere(requests, y);
    if ActiveAt(requests, before) >= ActiveAt(requests, x) {
      x := before;
    }
  }

  /** The number active at an instant is the level behind all events up to that instant. */
  lemma ActiveIsPrefix(requests: seq<Interval>, x: int) returns (k: nat)
    requires Positive(requests)
    ensures k <= |Events(requests)| && Level(Events(requests), k) == ActiveAt(requests, x)
    ensures forall i :: 0 <= i < k ==> Events(requests)[i].time <= x
    ensures forall i :: k <= i < |Events(requests)| ==> Events(requests)[i].time > x
  {
    var events := Events(requests);
    EventsAreInOrder(requests);
    k := CutFor(events, 2 * x + 1);
    PrefixCounts(requests, k, 2 * x + 1);
    OpenIsActive(requests, x);
  }

  lemma {:induction false} NothingOpenAtTheEnd(requests: seq<Interval>, y: int)
    requires forall i :: 0 <= i < |requests| ==> 2 * requests[i].terminal <= y
    ensures OpenAfter(requests, y) == 0
  {
    if requests != [] {
      NothingOpenAtTheEnd(requests[1..], y);
    }
  }

  lemma {:induction false} LatestKey(events: seq<Event>) returns (y: int)
    ensures forall i :: 0 <= i < |events| ==> Key(events[i]) <= y
  {
    y := 0;
    for i := 0 to |events|
      invariant forall j :: 0 <= j < i ==> Key(events[j]) <= y
    {
      y := if Key(events[i]) > y then Key(events[i]) else y;
    }
  }

  lemma {:induction false} LatestTerminal(requests: seq<Interval>) returns (y: int)
    ensures forall i :: 0 <= i < |requests| ==> 2 * requests[i].terminal <= y
  {
    y := 0;
    for i := 0 to |requests|
      invariant forall j :: 0 <= j < i ==> 2 * requests[j].terminal <= y
    {
      y := if 2 * requests[i].terminal > y then 2 * requests[i].terminal else y;
    }
  }

  lemma SweepCloses(requests: seq<Interval>)
    requires Positive(requests)
    ensures Level(Events(requests), |Events(requests)|) == 0
  {
    var events := Events(requests);
    var y1 := LatestKey(events);
    var y2 := LatestTerminal(requests);
    var y := if y1 > y2 then y1 else y2;
    PrefixCounts(requests, |events|, y);
    NothingOpenAtTheEnd(requests, y);
  }

  // ---------------------------------------------------------------- the sweep

  /** A stretch of positive length between two neighbouring events during which two or more are open. */
  ghost predicate OverlapsBefore(events: seq<Event>, k: int) {
    exists p :: 0 < p < k <= |events| && events[p].time > events[p - 1].time && Level(events, p) >= 2
  }

  ghost predicate IsMaximumActive(requests: seq<Interval>, maximum: int) {
    && (forall x :: ActiveAt(requests, x) <= maximum)
    && exists x :: ActiveAt(requests, x) == maximum
  }

  /** The sweep never raises; it returns the largest number of requests active at any instant, and
      reports positive-duration overlap exactly when that number is at least two. */
  method DeriveObservedConcurrency(requests: seq<Interval>) returns (r: Result<(int, bool)>)
    requires Positive(requests)
    ensures r.Returned?
    ensures IsMaximumActive(requests, r.value.0)
    ensures r.value.1 <==> r.value.0 >= 2
  {
    var events := Events(requests);
    var active, maximum, overlap := 0, 0, false;
    var previousTime: Option<nat> := None;
    ghost var peak := 0;
    for i := 0 to |events|
      invariant active == Level(events, i)
      invariant previousTime == if i == 0 then None else Some(events[i - 1].time)
      invariant overlap <==> OverlapsBefore(events, i)
      invariant 0 <= peak <= i && maximum == Level(events, peak)
      invariant forall p :: 0 <= p <= i ==> Level(events, p) <= maximum
    {
      var e := events[i];
      if previousTime.Some? && e.time > previousTime.value && active >= 2 {
        overlap := true;
      }
      active := active + e.delta;
      ghost var x := LevelIsBounded(requests, i + 1);
      if active < 0 {
        return Raised;
      }
      if active > maximum {
        maximum, peak := active, i + 1;
      }
      previousTime := Some(e.time);
      OverlapExtends(events, i);
    }
    SweepCloses(requests);
    if active != 0 {
      return Raised;
    }
    PeakIsMaximum(requests, peak);
    OverlapMeansTwo(requests, maximum);
    return Returned((maximum, overlap));
  }

  lemma OverlapExtends(events: seq<Event>, i: nat)
    requires i < |events|
    ensures OverlapsBefore(events, i + 1)
            <==> OverlapsBefore(events, i) || (i > 0 && events[i].time > events[i - 1].time && Level(events, i) >= 2)
  {
    if i > 0 && events[i].time > events[i - 1].time && Level(events, i) >= 2 {
      assert 0 < i < i + 1 <= |events|;
    }
  }

  lemma PeakIsMaximum(requests: seq<Interval>, peak: nat)
    requires Positive(requests) && peak <= |Events(requests)|
    requires forall p :: 0 <= p <= |Events(requests)| ==> Level(Events(requests), p) <= Level(Events(requests), peak)
    ensures IsMaximumActive(requests, Level(Events(requests), peak))
  {
    forall x ensures ActiveAt(requests, x) <= Level(Events(requests), peak) {
      var k := ActiveIsPrefix(requests, x);
    }
    var x := LevelIsBounded(requests, peak);
  }

  lemma OverlapMeansTwo(requests: seq<Interval>, maximum: int)
    requires Positive(requests) && IsMaximumActive(requests, maximum)
    ensures OverlapsBefore(Events(requests), |Events(requests)|) <==> maximum >= 2
  {
    var events := Events(requests);
    if OverlapsBefore(events, |events|) {
      var p :| 0 < p < |events| && events[p].time > events[p - 1].time && Level(events, p) >= 2;
      var x := LevelIsBounded(requests, p);
    }
    if maximum >= 2 {
      var x :| ActiveAt(requests, x) == maximum;
      var k := ActiveIsPrefix(requests, x);
      SweepCloses(requests);
      assert 0 < k < |events|;
    }
  }
}
