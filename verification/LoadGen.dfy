/** The semaphore-bounded load generator of `loadgen.py`, the sequence-numbered log it writes through
    `EvidenceCollector`, and the checker of `stage1_metrics.py` that reads the log back. */
module LoadGen {
  import opened Prelude

  datatype RequestId = Warmup | Measured(index: nat)
  datatype Kind = RequestStarted | RequestEnded | OtherKind
  datatype Evidence = Evidence(sequence: nat, id: RequestId, kind: Kind)
  type Log = seq<Evidence>

  function Recorded(log: Log, id: RequestId, kind: Kind): Log {
    log + [Evidence(|log|, id, kind)]
  }

  class EvidenceCollector {
    var streamEvents: Log

    constructor ()
      ensures streamEvents == []
    {
      streamEvents := [];
    }

    method RecordStreamEvent(id: RequestId, kind: Kind) returns (event: Evidence)
      modifies this
      ensures streamEvents == Recorded(old(streamEvents), id, kind)
      ensures event == streamEvents[|old(streamEvents)|]
    {
      event := Evidence(|streamEvents|, id, kind);
      streamEvents := streamEvents + [event];
    }
  }

  // ---------------------------------------------------------------- what a log says

  /** The requests with an event of this kind among the first `k`. */
  function Seen(log: Log, k: nat, kind: Kind): set<RequestId>
    requires k <= |log|
  {
    if k == 0 then {}
    else Seen(log, k - 1, kind) + if log[k - 1].kind == kind then {log[k - 1].id} else {}
  }

  /** Starts minus ends among the first `k` events. */
  function Level(log: Log, k: nat): int
    requires k <= |log|
  {
    if k == 0 then 0
    else Level(log, k - 1) + match log[k - 1].kind
                             case RequestStarted => 1
                             case RequestEnded => -1
                             case OtherKind => 0
  }

  predicate FitsAt(log: Log, i: nat)
    requires i < |log|
  {
    && log[i].sequence == i
    && (log[i].kind.RequestStarted? ==> log[i].id !in Seen(log, i, RequestStarted))
    && (log[i].kind.RequestEnded?
        ==> log[i].id in Seen(log, i, RequestStarted) && log[i].id !in Seen(log, i, RequestEnded))
  }

  /** Numbered without gaps; no request starts twice, ends twice, or ends before it starts. */
  predicate Bracketed(log: Log) {
    forall i :: 0 <= i < |log| ==> FitsAt(log, i)
  }

  /** ... and whatever has started has ended. */
  predicate Complete(log: Log) {
    Bracketed(log) && Seen(log, |log|, RequestStarted) == Seen(log, |log|, RequestEnded)
  }

  predicate IsMaximumLevel(log: Log, maximum: int) {
    && (forall k :: 0 <= k <= |log| ==> Level(log, k) <= maximum)
    && exists k :: 0 <= k <= |log| && Level(log, k) == maximum
  }

  predicate CountsOpen(log: Log, k: nat)
    requires k <= |log|
  {
    var started, ended := Seen(log, k, RequestStarted), Seen(log, k, RequestEnded);
    ended <= started && Level(log, k) == |started - ended|
  }

  /** Up to the first misfit, the level is the number of requests started and not yet ended. */
  lemma {:induction false} LevelCountsOpen(log: Log, k: nat)
    requires k <= |log| && forall i :: 0 <= i < k ==> FitsAt(log, i)
    ensures CountsOpen(log, k)
  {
    for i := 0 to k
      invariant CountsOpen(log, i)
    {
      LevelStep(log, i);
    }
  }

  lemma LevelStep(log: Log, k: nat)
    requires k < |log| && FitsAt(log, k) && CountsOpen(log, k)
    ensures CountsOpen(log, k + 1)
  {
    OpenSetMoves(Seen(log, k, RequestStarted), Seen(log, k, RequestEnded), log[k].id);
  }

  lemma LevelIsNeverNegative(log: Log, k: nat)
    requires k <= |log| && forall i :: 0 <= i < k ==> FitsAt(log, i)
    ensures Level(log, k) >= 0
  {
    LevelCountsOpen(log, k);
  }

  lemma ClosedAtZero(log: Log)
    requires Bracketed(log)
    ensures Level(log, |log|) == 0 <==> Seen(log, |log|, RequestStarted) == Seen(log, |log|, RequestEnded)
  {
    LevelCountsOpen(log, |log|);
    var open := Seen(log, |log|, RequestStarted) - Seen(log, |log|, RequestEnded);
    assert |open| == 0 <==> open == {};
  }

  lemma OpenSetMoves(started: set<RequestId>, ended: set<RequestId>, id: RequestId)
    requires ended <= started
    ensures id !in started ==> |started + {id} - ended| == |started - ended| + 1
    ensures id in started && id !in ended ==> |started - (ended + {id})| == |started - ended| - 1
  {
    if id !in started {
      assert started + {id} - ended == started - ended + {id};
    } else {
      assert started - (ended + {id}) == (started - ended) - {id};
    }
  }

  /** `derive_observed_max_client_concurrency`: it accepts exactly the complete logs, and returns the
      largest number of starts minus ends over all prefixes. Its check for a negative number of active
      clients never fires. */
  method DeriveObservedMaxClientConcurrency(events: Log) returns (r: Result<int>)
    ensures r.Returned? <==> Complete(events)
    ensures r.Returned? ==> IsMaximumLevel(events, r.value)
  {
    var active, maximum := 0, 0;
    var started: set<RequestId>, ended: set<RequestId> := {}, {};
    for i := 0 to |events|
      invariant forall j :: 0 <= j < i ==> FitsAt(events, j)
      invariant started == Seen(events, i, RequestStarted) && ended == Seen(events, i, RequestEnded)
      invariant active == Level(events, i)
      invariant forall k :: 0 <= k <= i ==> Level(events, k) <= maximum
      invariant exists k :: 0 <= k <= i && Level(events, k) == maximum
    {
      var event := events[i];
      if event.sequence != i {
        assert !FitsAt(events, i);
        return Raised;
      }
      if event.kind.RequestStarted? {
        if event.id in started {
          assert !FitsAt(events, i);
          return Raised;
        }
        started := started + {event.id};
        active := active + 1;
        if active > maximum {
          maximum := active;
        }
      } else if event.kind.RequestEnded? {
        if event.id !in started || event.id in ended {
          assert !FitsAt(events, i);
          return Raised;
        }
        ended := ended + {event.id};
        active := active - 1;
        LevelIsNeverNegative(events, i + 1);
        if active < 0 {
          return Raised;
        }
      }
    }
    ClosedAtZero(events);
    if active != 0 || started != ended {
      return Raised;
    }
    return Returned(maximum);
  }

  // ---------------------------------------------------------------- the tasks

  /** Where a request is: waiting for the semaphore, holding it, started in the log, ended in the log,
      or out of the semaphore's scope, by returning or by an exception out of the request itself. */
  datatype Phase = Waiting | Holding | Running | Ended | Released | Abandoned

  datatype State = State(permits: nat, warmup: Phase, tasks: seq<Phase>, log: Log)

  datatype Action =
    | Acquire(index: nat)
    | Start(id: RequestId)
    | Observe(id: RequestId)
    | End(id: RequestId)
    | Release(index: nat)
    | Abandon(id: RequestId)

  /** The warmup is about to start; it takes no permit. */
  function Init(n: nat, k: nat): State {
    State(k, Holding, seq(n, i => Waiting), [])
  }

  predicate Exists(s: State, id: RequestId) {
    id.Warmup? || id.index < |s.tasks|
  }

  function PhaseOf(s: State, id: RequestId): Phase
    requires Exists(s, id)
  {
    if id.Warmup? then s.warmup else s.tasks[id.index]
  }

  function Move(s: State, id: RequestId, phase: Phase): State
    requires Exists(s, id)
  {
    if id.Warmup? then s.(warmup := phase) else s.(tasks := s.tasks[id.index := phase])
  }

  predicate Enabled(s: State, a: Action) {
    match a
    // the measured tasks are created once the warmup has returned
    case Acquire(i) => s.warmup.Released? && i < |s.tasks| && s.tasks[i].Waiting? && s.permits > 0
    case Start(id) => Exists(s, id) && PhaseOf(s, id).Holding?
    case Observe(id) => Exists(s, id) && PhaseOf(s, id).Running?
    case End(id) => Exists(s, id) && PhaseOf(s, id).Running?
    case Release(i) => i < |s.tasks| && s.tasks[i].Ended?
    case Abandon(id) => Exists(s, id) && PhaseOf(s, id).Running?
  }

  function Step(s: State, a: Action): State
    requires Enabled(s, a)
  {
    match a
    case Acquire(i) => Move(s, Measured(i), Holding).(permits := s.permits - 1)
    case Start(id) => Move(s, id, Running).(log := Recorded(s.log, id, RequestStarted))
    case Observe(id) => s.(log := Recorded(s.log, id, OtherKind))
    case End(id) => Move(s, id, if id.Warmup? then Released else Ended).(log := Recorded(s.log, id, RequestEnded))
    case Release(i) => Move(s, Measured(i), Released).(permits := s.permits + 1)
    case Abandon(id) => Move(s, id, Abandoned).(permits := if id.Warmup? then s.permits else s.permits + 1)
  }

  /** Where a schedule leads; `None` when it takes a step that is not possible. */
  function Run(s: State, schedule: seq<Action>): Option<State>
    decreases |schedule|
  {
    if schedule == [] then Some(s)
    else if !Enabled(s, schedule[0]) then None
    else Run(Step(s, schedule[0]), schedule[1..])
  }

  // ---------------------------------------------------------------- counting tasks

  function Count(tasks: seq<Phase>, these: set<Phase>): nat {
    if tasks == [] then 0 else (if tasks[0] in these then 1 else 0) + Count(tasks[1..], these)
  }

  lemma {:induction false} CountMove(tasks: seq<Phase>, i: nat, phase: Phase, these: set<Phase>)
    requires i < |tasks|
    ensures Count(tasks[i := phase], these)
            == Count(tasks, these) - (if tasks[i] in these then 1 else 0) + if phase in these then 1 else 0
  {
    if i > 0 {
      assert tasks[i := phase][1..] == tasks[1..][i - 1 := phase];
      CountMove(tasks[1..], i - 1, phase, these);
    }
  }

  lemma {:induction false} CountZero(tasks: seq<Phase>, these: set<Phase>)
    ensures Count(tasks, these) == 0 <==> forall i :: 0 <= i < |tasks| ==> tasks[i] !in these
  {
    if tasks != [] {
      CountZero(tasks[1..], these);
      assert forall i :: 0 < i < |tasks| ==> tasks[i] == tasks[1..][i - 1];
    }
  }

  // ---------------------------------------------------------------- the invariant

  const HOLDERS := {Holding, Running, Ended}
  const STARTED := {Running, Ended, Released, Abandoned}
  const FINISHED := {Ended, Released}

  ghost predicate LogMatches(s: State) {
    && Bracketed(s.log)
    && (forall id :: id in Seen(s.log, |s.log|, RequestStarted) <==> Exists(s, id) && PhaseOf(s, id) in STARTED)
    && (forall id :: id in Seen(s.log, |s.log|, RequestEnded) <==> Exists(s, id) && PhaseOf(s, id) in FINISHED)
  }

  predicate PermitsAddUp(s: State, k: nat) {
    && s.permits + Count(s.tasks, HOLDERS) == k
    && (!s.warmup.Released? ==> forall i :: 0 <= i < |s.tasks| ==> s.tasks[i].Waiting?)
    && s.warmup in {Holding, Running, Released, Abandoned}
  }

  function Open(s: State): nat {
    Count(s.tasks, {Running, Abandoned}) + if s.warmup in {Running, Abandoned} then 1 else 0
  }

  predicate LevelsBounded(s: State, k: nat) {
    && Level(s.log, |s.log|) == Open(s)
    && forall p :: 0 <= p <= |s.log| ==> Level(s.log, p) <= k + Count(s.tasks, {Abandoned})
  }

  ghost predicate Inv(s: State, k: nat) {
    LogMatches(s) && PermitsAddUp(s, k) && LevelsBounded(s, k)
  }

  lemma {:induction false} SeenOfPrefix(log: Log, more: Log, k: nat, kind: Kind)
    requires k <= |log|
    ensures Seen(log + more, k, kind) == Seen(log, k, kind) && Level(log + more, k) == Level(log, k)
  {
    if k > 0 {
      SeenOfPrefix(log, more, k - 1, kind);
    }
  }

  /** Recording an event that fits keeps the log bracketed. */
  lemma RecordingKeepsBracketed(log: Log, id: RequestId, kind: Kind)
    requires Bracketed(log)
    requires kind.RequestStarted? ==> id !in Seen(log, |log|, RequestStarted)
    requires kind.RequestEnded? ==> id in Seen(log, |log|, RequestStarted) && id !in Seen(log, |log|, RequestEnded)
    ensures Bracketed(Recorded(log, id, kind))
  {
    var after := Recorded(log, id, kind);
    forall i | 0 <= i < |after| ensures FitsAt(after, i) {
      SeenOfPrefix(log, [Evidence(|log|, id, kind)], i, RequestStarted);
      SeenOfPrefix(log, [Evidence(|log|, id, kind)], i, RequestEnded);
      assert i < |log| ==> FitsAt(log, i);
    }
  }

  lemma RecordingSeen(log: Log, id: RequestId, kind: Kind, of: Kind)
    ensures var after := Recorded(log, id, kind);
            Seen(after, |after|, of) == Seen(log, |log|, of) + if of == kind then {id} else {}
  {
    SeenOfPrefix(log, [Evidence(|log|, id, kind)], |log|, of);
  }

  lemma RecordingLevel(log: Log, id: RequestId, kind: Kind)
    ensures var after := Recorded(log, id, kind);
            && Level(after, |after|)
               == Level(log, |log|) + (match kind case RequestStarted => 1 case RequestEnded => -1 case OtherKind => 0)
            && forall p :: 0 <= p <= |log| ==> Level(after, p) == Level(log, p)
  {
    forall p | 0 <= p <= |log| ensures Level(Recorded(log, id, kind), p) == Level(log, p) {
      SeenOfPrefix(log, [Evidence(|log|, id, kind)], p, kind);
    }
  }

  lemma LogStaysMatched(s: State, a: Action)
    requires LogMatches(s) && Enabled(s, a)
    ensures LogMatches(Step(s, a))
  {
    if a.Start? {
      StartStaysMatched(s, a.id);
    } else if a.Observe? {
      RecordingMatches(s, a.id, OtherKind);
    } else if a.End? {
      EndStaysMatched(s, a.id);
    }
  }

  lemma StartStaysMatched(s: State, id: RequestId)
    requires LogMatches(s) && Enabled(s, Start(id))
    ensures LogMatches(Step(s, Start(id)))
  {
    RecordingMatches(s, id, RequestStarted);
  }

  lemma EndStaysMatched(s: State, id: RequestId)
    requires LogMatches(s) && Enabled(s, End(id))
    ensures LogMatches(Step(s, End(id)))
  {
    RecordingMatches(s, id, RequestEnded);
  }

  /** A request records its start while it has none, its end while it has only a start. */
  lemma RecordingMatches(s: State, id: RequestId, kind: Kind)
    requires LogMatches(s) && Exists(s, id)
    requires if kind.RequestStarted? then PhaseOf(s, id).Holding? else PhaseOf(s, id).Running?
    ensures var log := Recorded(s.log, id, kind);
            && Bracketed(log)
            && Seen(log, |log|, RequestStarted)
               == Seen(s.log, |s.log|, RequestStarted) + (if kind.RequestStarted? then {id} else {})
            && Seen(log, |log|, RequestEnded)
               == Seen(s.log, |s.log|, RequestEnded) + (if kind.RequestEnded? then {id} else {})
  {
    RecordingKeepsBracketed(s.log, id, kind);
    RecordingSeen(s.log, id, kind, RequestStarted);
    RecordingSeen(s.log, id, kind, RequestEnded);
  }

  lemma PermitsStayAddedUp(s: State, a: Action, k: nat)
    requires PermitsAddUp(s, k) && Enabled(s, a)
    ensures PermitsAddUp(Step(s, a), k)
  {
    var id := match a
      case Acquire(i) => Measured(i)
      case Release(i) => Measured(i)
      case Start(id) => id case Observe(id) => id case End(id) => id case Abandon(id) => id;
    if id.Measured? && !a.Observe? {
      CountMove(s.tasks, id.index, Step(s, a).tasks[id.index], HOLDERS);
      assert s.tasks[id.index] == PhaseOf(s, id);
    }
  }

  lemma LevelsStayBounded(s: State, a: Action, k: nat)
    requires k >= 1 && PermitsAddUp(s, k) && LevelsBounded(s, k) && Enabled(s, a)
    ensures LevelsBounded(Step(s, a), k)
  {
    var after := Step(s, a);
    PermitsStayAddedUp(s, a, k);
    match a {
      case Acquire(i) => OpenMoves(s, Measured(i), Holding);
      case Release(i) => OpenMoves(s, Measured(i), Released);
      case Abandon(id) => OpenMoves(s, id, Abandoned);
      case Start(id) => OpenMoves(s, id, Running); RecordingLevel(s.log, id, RequestStarted);
      case Observe(id) => RecordingLevel(s.log, id, OtherKind);
      case End(id) => OpenMoves(s, id, if id.Warmup? then Released else Ended); RecordingLevel(s.log, id, RequestEnded);
    }
    OpenIsBounded(after, k);
  }

  lemma OpenMoves(s: State, id: RequestId, phase: Phase)
    requires Exists(s, id)
    ensures var open := {Running, Abandoned};
            Open(Move(s, id, phase))
              == Open(s) - (if PhaseOf(s, id) in open then 1 else 0) + (if phase in open then 1 else 0)
    ensures Count(Move(s, id, phase).tasks, {Abandoned})
            == Count(s.tasks, {Abandoned}) - (if id.Measured? && PhaseOf(s, id).Abandoned? then 1 else 0)
               + (if id.Measured? && phase.Abandoned? then 1 else 0)
  {
    if id.Measured? {
      CountMove(s.tasks, id.index, phase, {Running, Abandoned});
      CountMove(s.tasks, id.index, phase, {Abandoned});
    }
  }

  lemma {:induction false} CountSplits(tasks: seq<Phase>)
    ensures Count(tasks, {Running, Abandoned}) <= Count(tasks, HOLDERS) + Count(tasks, {Abandoned})
  {
    if tasks != [] {
      CountSplits(tasks[1..]);
    }
  }

  /** No more requests are open than there are permits, but for those that left by an exception. */
  lemma OpenIsBounded(s: State, k: nat)
    requires k >= 1 && PermitsAddUp(s, k)
    ensures Open(s) <= k + Count(s.tasks, {Abandoned})
  {
    CountSplits(s.tasks);
    if !s.warmup.Released? {
      CountZero(s.tasks, {Running, Abandoned});
    }
  }

  lemma {:induction false} InitHolds(n: nat, k: nat)
    ensures Inv(Init(n, k), k)
  {
    CountZero(Init(n, k).tasks, HOLDERS);
    CountZero(Init(n, k).tasks, {Running, Abandoned});
  }

  lemma {:induction false} RunsKeepInv(s: State, schedule: seq<Action>, k: nat)
    requires k >= 1 && Inv(s, k) && Run(s, schedule).Some?
    ensures Inv(Run(s, schedule).value, k)
    decreases |schedule|
  {
    if schedule != [] {
      LogStaysMatched(s, schedule[0]);
      PermitsStayAddedUp(s, schedule[0], k);
      LevelsStayBounded(s, schedule[0], k);
      RunsKeepInv(Step(s, schedule[0]), schedule[1..], k);
    }
  }

  // ---------------------------------------------------------------- theorems over all interleavings

  predicate NothingOpen(s: State) {
    s.warmup !in {Running, Abandoned} && forall i :: 0 <= i < |s.tasks| ==> s.tasks[i] !in {Running, Abandoned}
  }

  /** At any moment of any interleaving the checker accepts the log so far exactly when whatever has
      started has ended. */
  lemma AcceptedExactlyWhenNothingOpen(n: nat, k: nat, schedule: seq<Action>)
    requires k >= 1 && Run(Init(n, k), schedule).Some?
    ensures var s := Run(Init(n, k), schedule).value; Complete(s.log) <==> NothingOpen(s)
  {
    InitHolds(n, k);
    RunsKeepInv(Init(n, k), schedule, k);
    var s := Run(Init(n, k), schedule).value;
    var started, ended := Seen(s.log, |s.log|, RequestStarted), Seen(s.log, |s.log|, RequestEnded);
    assert Exists(s, Warmup) && PhaseOf(s, Warmup) == s.warmup;
    forall i | 0 <= i < |s.tasks|
      ensures s.tasks[i] in {Running, Abandoned} <==> Measured(i) in started && Measured(i) !in ended
    {
      assert Exists(s, Measured(i)) && PhaseOf(s, Measured(i)) == s.tasks[i];
    }
    if NothingOpen(s) {
      assert started == ended;
    }
  }

  /** Whenever the checker accepts, the maximum it finds is at most the number of permits; and at least
      one, once anything has started. */
  lemma ConcurrencyIsBounded(n: nat, k: nat, schedule: seq<Action>, maximum: int)
    requires k >= 1 && Run(Init(n, k), schedule).Some?
    requires var log := Run(Init(n, k), schedule).value.log; Complete(log) && IsMaximumLevel(log, maximum)
    ensures maximum <= k
    ensures Run(Init(n, k), schedule).value.warmup.Released? ==> maximum >= 1
  {
    AcceptedExactlyWhenNothingOpen(n, k, schedule);
    InitHolds(n, k);
    RunsKeepInv(Init(n, k), schedule, k);
    var s := Run(Init(n, k), schedule).value;
    CountZero(s.tasks, {Abandoned});
    if s.warmup.Released? {
      assert PhaseOf(s, Warmup) in STARTED;
      var p := SomeStartRaisesLevel(s.log, |s.log|);
    }
  }

  lemma {:induction false} SomeStartRaisesLevel(log: Log, k: nat) returns (p: nat)
    requires Bracketed(log) && k <= |log| && Seen(log, k, RequestStarted) != {}
    ensures p <= k && Level(log, p) >= 1
  {
    assert forall i :: 0 <= i < k ==> FitsAt(log, i);
    if log[k - 1].kind.RequestStarted? {
      LevelIsNeverNegative(log, k - 1);
      p := k;
    } else {
      p := SomeStartRaisesLevel(log, k - 1);
    }
  }

  predicate Completed(s: State) {
    s.warmup.Released? && forall i :: 0 <= i < |s.tasks| ==> s.tasks[i].Released?
  }

  /** The log of every completed run is accepted, and holds each request from start to end. */
  lemma CompletedRunsAreAccepted(n: nat, k: nat, schedule: seq<Action>)
    requires k >= 1 && Run(Init(n, k), schedule).Some? && Completed(Run(Init(n, k), schedule).value)
    ensures var s := Run(Init(n, k), schedule).value;
            && Complete(s.log) && s.permits == k
            && Warmup in Seen(s.log, |s.log|, RequestEnded)
            && forall i :: 0 <= i < n ==> Measured(i) in Seen(s.log, |s.log|, RequestEnded)
  {
    AcceptedExactlyWhenNothingOpen(n, k, schedule);
    InitHolds(n, k);
    RunsKeepInv(Init(n, k), schedule, k);
    RunsKeepTasks(Init(n, k), schedule);
    var s := Run(Init(n, k), schedule).value;
    CountZero(s.tasks, HOLDERS);
    assert PhaseOf(s, Warmup) in FINISHED;
    forall i | 0 <= i < n ensures Measured(i) in Seen(s.log, |s.log|, RequestEnded) {
      assert PhaseOf(s, Measured(i)) in FINISHED;
    }
  }

  lemma {:induction false} RunsKeepTasks(s: State, schedule: seq<Action>)
    requires Run(s, schedule).Some?
    ensures |Run(s, schedule).value.tasks| == |s.tasks|
    decreases |schedule|
  {
    if schedule != [] {
      RunsKeepTasks(Step(s, schedule[0]), schedule[1..]);
    }
  }

  /** The semaphore never locks up: unless the warmup left by an exception or everything has been
      released, some step that makes progress is possible. */
  lemma NeverStuck(n: nat, k: nat, schedule: seq<Action>) returns (a: Action)
    requires k >= 1 && Run(Init(n, k), schedule).Some?
    requires var s := Run(Init(n, k), schedule).value;
             !s.warmup.Abandoned?
               && (!s.warmup.Released? || exists i :: 0 <= i < |s.tasks| && s.tasks[i] !in {Released, Abandoned})
    ensures Enabled(Run(Init(n, k), schedule).value, a) && !a.Observe? && !a.Abandon?
  {
    InitHolds(n, k);
    RunsKeepInv(Init(n, k), schedule, k);
    var s := Run(Init(n, k), schedule).value;
    if s.warmup.Holding? {
      return Start(Warmup);
    }
    if s.warmup.Running? {
      return End(Warmup);
    }
    CountZero(s.tasks, HOLDERS);
    if i :| 0 <= i < |s.tasks| && s.tasks[i] in HOLDERS {
      a := if s.tasks[i].Holding? then Start(Measured(i))
        else if s.tasks[i].Running? then End(Measured(i)) else Release(i);
    } else {
      var i :| 0 <= i < |s.tasks| && s.tasks[i] !in {Released, Abandoned};
      a := Acquire(i);
    }
  }
}
