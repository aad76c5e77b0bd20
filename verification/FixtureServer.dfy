/** The counters of `stage2_fixture_server.py` under every interleaving of its handlers, and what the
    measured-window check makes of two scrapes of them. */
module FixtureServer {
  import opened Prelude
  import opened Prometheus

  datatype Scenario =
    | SingleToken | CleanEof | GroupedTokens | CoalescedFrames | TrailingFragment
    | GenerationTerminal | UsageTerminal | DoneTerminal | PostCloseData

  /** Tokens counted for one cancellation request before its payloads go out. */
  function CountedTokens(scenario: Scenario): nat {
    if scenario.CleanEof? then 0
    else if scenario.GroupedTokens? || scenario.CoalescedFrames? || scenario.GenerationTerminal? then 2
    else 1
  }

  datatype LogLine = Received(id: string) | Added(id: string) | InternalAbort(id: string) | ExternalAbort(id: string)

  /** Where one handler is, between two of its suspension points. */
  datatype Stage = Serving | Generated | Completed | Aborted | EndedClean | Failed
  datatype Handler = Handler(id: string, cancellation: bool, stage: Stage)

  datatype Counters = Counters(
    prompt: nat, generation: nat, success: map<string, nat>, preemptions: nat, queries: nat, hits: nat,
    running: nat, waiting: nat, aborted: set<string>, logs: seq<LogLine>)

  datatype Server = Server(scenario: Scenario, counters: Counters, handlers: seq<Handler>)

  const ZERO_SUCCESS: map<string, nat> := map["length" := 0, "abort" := 0, "stop" := 0, "error" := 0, "repetition" := 0]

  function Started(scenario: Scenario): Server {
    Server(scenario, Counters(0, 0, ZERO_SUCCESS, 0, 0, 0, 0, 0, {}, []), [])
  }

  // ---------------------------------------------------------------- what handlers do to the counters

  predicate HasReasons(c: Counters) {
    c.success.Keys == ZERO_SUCCESS.Keys
  }

  function Accepted(c: Counters, id: string): Counters {
    c.(logs := c.logs + [Received(id), Added(id)], running := c.running + 1)
  }

  function CountedGeneration(c: Counters, scenario: Scenario): Counters {
    if scenario.CleanEof? then c
    else c.(prompt := c.prompt + 64, generation := c.generation + CountedTokens(scenario))
  }

  function RecordedAbort(c: Counters, id: string): Counters
    requires HasReasons(c)
  {
    if id in c.aborted then c
    else c.(aborted := c.aborted + {id}, logs := c.logs + [InternalAbort(id), ExternalAbort(id)],
            success := c.success["abort" := c.success["abort"] + 1])
  }

  /** `max(0, running - 1)`. */
  function LeftRunning(c: Counters): Counters {
    c.(running := if c.running > 0 then c.running - 1 else 0)
  }

  function CountedCompletion(c: Counters): Counters
    requires HasReasons(c)
  {
    c.(prompt := c.prompt + 64, generation := c.generation + 32,
       success := c.success["length" := c.success["length"] + 1])
  }

  class Stage2FixtureServer {
    const scenario: Scenario
    var counters: Counters

    ghost predicate Valid() reads this {
      HasReasons(counters)
    }

    constructor (scenario: Scenario)
      ensures Valid() && this.scenario == scenario && counters == Started(scenario).counters
    {
      this.scenario := scenario;
      counters := Counters(0, 0, ZERO_SUCCESS, 0, 0, 0, 0, 0, {}, []);
    }

    /** A validated request is logged and counted as running. */
    method AcceptRequest(id: string)
      requires Valid()
      modifies this
      ensures Valid() && counters == Accepted(old(counters), id)
    {
      counters := counters.(logs := counters.logs + [Received(id)]);
      counters := counters.(logs := counters.logs + [Added(id)]);
      counters := counters.(running := counters.running + 1);
      assert counters.logs == old(counters).logs + [Received(id), Added(id)];
    }

    /** The counting part of `_send_cancellation`, behind the response head. */
    method CountCancellation()
      requires Valid()
      modifies this
      ensures Valid() && counters == CountedGeneration(old(counters), scenario)
    {
      if !scenario.CleanEof? {
        counters := counters.(prompt := counters.prompt + 64);
        counters := counters.(generation := counters.generation + CountedTokens(scenario));
      }
    }

    method RecordAbort(id: string)
      requires Valid()
      modifies this
      ensures Valid() && counters == RecordedAbort(old(counters), id)
    {
      if id in counters.aborted {
        return;
      }
      counters := counters.(aborted := counters.aborted + {id});
      counters := counters.(logs := counters.logs + [InternalAbort(id)]);
      counters := counters.(logs := counters.logs + [ExternalAbort(id)]);
      counters := counters.(success := counters.success["abort" := counters.success["abort"] + 1]);
      assert counters.logs == old(counters).logs + [InternalAbort(id), ExternalAbort(id)];
    }

    /** The end of `_handle_client`: what the request counts, then the `finally` block. */
    method Finish(id: string, completed: bool, abort: bool)
      requires Valid()
      modifies this
      ensures Valid()
      ensures counters == var c := old(counters);
                          LeftRunning(if completed then CountedCompletion(c)
                            else if abort then RecordedAbort(c, id) else c)
    {
      if completed {
        counters := counters.(prompt := counters.prompt + 64);
        counters := counters.(generation := counters.generation + 32);
        counters := counters.(success := counters.success["length" := counters.success["length"] + 1]);
      } else if abort {
        RecordAbort(id);
      }
      counters := counters.(running := if counters.running > 0 then counters.running - 1 else 0);
    }
  }

  // ---------------------------------------------------------------- all interleavings

  datatype Action =
    | Accept(id: string, cancellation: bool)
    | Generate(handler: nat)
    | Complete(handler: nat)
    | EndCancellation(handler: nat)
    | Disconnect(handler: nat)
    | Fail(handler: nat)

  predicate Unfinished(h: Handler) {
    h.stage.Serving? || h.stage.Generated?
  }

  predicate Enabled(s: Server, a: Action) {
    match a
    case Accept(_, _) => true
    case Generate(h) => h < |s.handlers| && s.handlers[h].cancellation && s.handlers[h].stage.Serving?
    case Complete(h) => h < |s.handlers| && !s.handlers[h].cancellation && s.handlers[h].stage.Serving?
    case EndCancellation(h) => h < |s.handlers| && s.handlers[h].cancellation && s.handlers[h].stage.Generated?
    // the client goes away, or the server cancels the handler, at any suspension point
    case Disconnect(h) => h < |s.handlers| && Unfinished(s.handlers[h])
    // any other exception out of a suspension point: no abort is recorded
    case Fail(h) => h < |s.handlers| && Unfinished(s.handlers[h])
  }

  function MoveTo(s: Server, h: nat, stage: Stage, c: Counters): Server
    requires h < |s.handlers|
  {
    s.(handlers := s.handlers[h := s.handlers[h].(stage := stage)], counters := c)
  }

  function Step(s: Server, a: Action): Server
    requires Enabled(s, a) && HasReasons(s.counters)
  {
    var c := s.counters;
    match a
    case Accept(id, cancellation) =>
      s.(handlers := s.handlers + [Handler(id, cancellation, Serving)], counters := Accepted(c, id))
    case Generate(h) => MoveTo(s, h, Generated, CountedGeneration(c, s.scenario))
    case Complete(h) => MoveTo(s, h, Completed, LeftRunning(CountedCompletion(c)))
    case EndCancellation(h) =>
      if s.scenario.CleanEof? then MoveTo(s, h, EndedClean, LeftRunning(c))
      else MoveTo(s, h, Aborted, LeftRunning(RecordedAbort(c, s.handlers[h].id)))
    case Disconnect(h) => MoveTo(s, h, Aborted, LeftRunning(RecordedAbort(c, s.handlers[h].id)))
    case Fail(h) => MoveTo(s, h, Failed, LeftRunning(c))
  }

  function Run(s: Server, schedule: seq<Action>): (end: Option<Server>)
    requires HasReasons(s.counters)
    ensures end.Some? ==> HasReasons(end.value.counters)
    decreases |schedule|
  {
    if schedule == [] then Some(s)
    else if !Enabled(s, schedule[0]) then None
    else Run(Step(s, schedule[0]), schedule[1..])
  }

  // ---------------------------------------------------------------- tallies of a schedule

  datatype Tally = Tally(accepted: nat, completions: nat, generations: nat, tokens: nat)

  /** How many requests a schedule accepts and completes, and how many cancellation requests generate
      how many tokens; a scenario with a clean end of stream generates nothing. */
  function Tallied(schedule: seq<Action>, scenario: Scenario): Tally {
    if schedule == [] then Tally(0, 0, 0, 0) else TallyOne(schedule[0], scenario, Tallied(schedule[1..], scenario))
  }

  function TallyOne(a: Action, scenario: Scenario, t: Tally): Tally {
    match a
    case Accept(_, _) => t.(accepted := t.accepted + 1)
    case Generate(_) =>
      if scenario.CleanEof? then t
      else
        var two := scenario == GroupedTokens || scenario == CoalescedFrames || scenario == GenerationTerminal;
        t.(generations := t.generations + 1, tokens := t.tokens + if two then 2 else 1)
    case Complete(_) => t.(completions := t.completions + 1)
    case EndCancellation(_) => t
    case Disconnect(_) => t
    case Fail(_) => t
  }

  lemma {:induction false} OneOrTwoTokensEach(schedule: seq<Action>, scenario: Scenario)
    ensures var t := Tallied(schedule, scenario); t.generations <= t.tokens <= 2 * t.generations
  {
    if schedule != [] {
      OneOrTwoTokensEach(schedule[1..], scenario);
    }
  }

  function CountUnfinished(handlers: seq<Handler>): nat {
    if handlers == [] then 0
      else CountUnfinished(handlers[..|handlers| - 1]) + if Unfinished(handlers[|handlers| - 1]) then 1 else 0
  }

  lemma {:induction false} UnfinishedMove(handlers: seq<Handler>, h: nat, stage: Stage)
    requires h < |handlers|
    ensures var after := handlers[h := handlers[h].(stage := stage)];
            CountUnfinished(after) == CountUnfinished(handlers)
                                      - (if Unfinished(handlers[h]) then 1 else 0)
                                        + (if Unfinished(after[h]) then 1 else 0)
  {
    var last := |handlers| - 1;
    var after := handlers[h := handlers[h].(stage := stage)];
    if h < last {
      assert after[..last] == handlers[..last][h := handlers[h].(stage := stage)];
      UnfinishedMove(handlers[..last], h, stage);
    } else {
      assert after[..last] == handlers[..last];
    }
  }

  // ---------------------------------------------------------------- conservation

  ghost predicate AbortsAreRecorded(s: Server) {
    && HasReasons(s.counters)
    && s.counters.success["abort"] == |s.counters.aborted|
    && forall id :: id in s.counters.aborted <==>
       exists h :: 0 <= h < |s.handlers| && s.handlers[h].id == id && s.handlers[h].stage.Aborted?
  }

  /** Running requests are the accepted unfinished ones; the abort counter is the number of aborted
      ids; every accepted request and every aborted id has its two log lines; and what nothing counts
      stays zero. */
  ghost predicate Conserved(s: Server) {
    && s.counters.running == CountUnfinished(s.handlers)
    && AbortsAreRecorded(s)
    && |s.counters.logs| == 2 * |s.handlers| + 2 * |s.counters.aborted|
    && s.counters.waiting == 0 && s.counters.preemptions == 0 && s.counters.queries == 0 && s.counters.hits == 0
    && s.counters.success["stop"] == 0 && s.counters.success["error"] == 0 && s.counters.success["repetition"] == 0
  }

  lemma StartIsConserved(scenario: Scenario)
    ensures Conserved(Started(scenario))
  {
  }

  lemma {:induction false} SomeoneIsRunning(handlers: seq<Handler>, h: nat)
    requires h < |handlers| && Unfinished(handlers[h])
    ensures CountUnfinished(handlers) > 0
  {
    if h < |handlers| - 1 {
      SomeoneIsRunning(handlers[..|handlers| - 1], h);
    }
  }

  /** The log comes in pairs: received and added, or the internal and then the external abort, of one id. */
  ghost predicate InPairs(logs: seq<LogLine>) {
    && |logs| % 2 == 0
    && forall i: nat :: 2 * i + 1 < |logs| ==> IsPair(logs, i)
  }

  predicate IsPair(logs: seq<LogLine>, i: nat)
    requires 2 * i + 1 < |logs|
  {
    || (logs[2 * i].Received? && logs[2 * i + 1] == Added(logs[2 * i].id))
    || (logs[2 * i].InternalAbort? && logs[2 * i + 1] == ExternalAbort(logs[2 * i].id))
  }

  /** Exactly the accepted ids are logged as received and exactly the aborted ones as aborted, in pairs. */
  ghost predicate LogsFollow(s: Server) {
    && InPairs(s.counters.logs)
    && (forall id :: Received(id) in s.counters.logs <==> IsAccepted(s.handlers, id))
    && forall id :: InternalAbort(id) in s.counters.logs <==> id in s.counters.aborted
  }

  predicate IsAccepted(handlers: seq<Handler>, id: string) {
    exists h :: 0 <= h < |handlers| && handlers[h].id == id
  }

  lemma PairsGrow(logs: seq<LogLine>, first: LogLine, second: LogLine)
    requires InPairs(logs)
    requires (first.Received? && second == Added(first.id))
             || (first.InternalAbort? && second == ExternalAbort(first.id))
    ensures InPairs(logs + [first, second])
  {
    var all := logs + [first, second];
    forall i: nat | 2 * i + 1 < |all| ensures IsPair(all, i) {
      if 2 * i + 1 < |logs| {
        assert IsPair(logs, i);
      }
    }
  }

  lemma StepKeepsLogs(s: Server, a: Action)
    requires LogsFollow(s) && HasReasons(s.counters) && Enabled(s, a)
    ensures LogsFollow(Step(s, a))
  {
    var s', logs := Step(s, a), s.counters.logs;
    if a.Accept? {
      PairsGrow(logs, Received(a.id), Added(a.id));
      var more := [Received(a.id), Added(a.id)];
      forall id
        ensures Received(id) in logs + more <==> Received(id) in logs || id == a.id
        ensures InternalAbort(id) in logs + more <==> InternalAbort(id) in logs
      {
      }
      forall id ensures IsAccepted(s'.handlers, id) <==> id == a.id || IsAccepted(s.handlers, id) {
        assert s'.handlers[|s.handlers|].id == a.id;
        assert forall h :: 0 <= h < |s.handlers| ==> s'.handlers[h] == s.handlers[h];
      }
    } else {
      assert forall h :: 0 <= h < |s.handlers| ==> s'.handlers[h].id == s.handlers[h].id;
      assert forall id :: IsAccepted(s'.handlers, id) <==> IsAccepted(s.handlers, id);
      if s'.counters.logs != logs {
        AbortIsLogged(s, s', s.handlers[a.handler].id);
      }
    }
  }

  lemma AbortIsLogged(s: Server, s': Server, id: string)
    requires LogsFollow(s) && |s'.handlers| == |s.handlers|
    requires forall h :: 0 <= h < |s.handlers| ==> s'.handlers[h].id == s.handlers[h].id
    requires s'.counters.logs == s.counters.logs + [InternalAbort(id), ExternalAbort(id)]
    requires s'.counters.aborted == s.counters.aborted + {id}
    ensures LogsFollow(s')
  {
    var logs, more := s.counters.logs, [InternalAbort(id), ExternalAbort(id)];
    PairsGrow(logs, InternalAbort(id), ExternalAbort(id));
    assert forall other :: IsAccepted(s'.handlers, other) <==> IsAccepted(s.handlers, other);
    forall other
      ensures Received(other) in logs + more <==> Received(other) in logs
      ensures InternalAbort(other) in logs + more <==> InternalAbort(other) in logs || other == id
    {
    }
  }

  /** Whatever the interleaving, the log holds two lines for each accepted id and for each aborted one, in
      order and side by side. */
  lemma {:induction false} RunKeepsLogs(s: Server, schedule: seq<Action>)
    requires LogsFollow(s) && HasReasons(s.counters) && Run(s, schedule).Some?
    ensures LogsFollow(Run(s, schedule).value)
    decreases |schedule|
  {
    if schedule != [] {
      StepKeepsLogs(s, schedule[0]);
      RunKeepsLogs(Step(s, schedule[0]), schedule[1..]);
    }
  }

  lemma LogOfRun(scenario: Scenario, schedule: seq<Action>)
    requires Run(Started(scenario), schedule).Some?
    ensures LogsFollow(Run(Started(scenario), schedule).value)
  {
    RunKeepsLogs(Started(scenario), schedule);
  }

  /** The handler whose request an action aborts: the client went away, or its cancellation came to its end
      in any scenario but the one with a clean end of stream. */
  function AbortedBy(a: Action, scenario: Scenario): Option<nat> {
    if a.Disconnect? || (a.EndCancellation? && scenario != CleanEof) then Some(a.handler) else None
  }

  ghost predicate AbortsOne(s: Server, schedule: seq<Action>, id: string) {
    exists k :: 0 <= k < |schedule| && AbortsAt(s, schedule[k], id)
  }

  predicate AbortsAt(s: Server, a: Action, id: string) {
    var h := AbortedBy(a, s.scenario);
    h.Some? && h.value < |s.handlers| && s.handlers[h.value].id == id
  }

  predicate KeepsHandlers(s: Server, s': Server) {
    && s'.scenario == s.scenario && |s.handlers| <= |s'.handlers|
    && forall h :: 0 <= h < |s.handlers| ==> s'.handlers[h].id == s.handlers[h].id
  }

  lemma StepAborts(s: Server, a: Action)
    requires Enabled(s, a) && HasReasons(s.counters)
    ensures KeepsHandlers(s, Step(s, a))
    ensures forall id :: id in Step(s, a).counters.aborted <==> id in s.counters.aborted || AbortsAt(s, a, id)
  {
  }

  /** Exactly those ids are aborted whose handler's client went away or whose cancellation came to its end. */
  lemma {:induction false} RunAbortsExactly(s: Server, schedule: seq<Action>)
    requires HasReasons(s.counters) && Run(s, schedule).Some?
    ensures var s' := Run(s, schedule).value;
            && KeepsHandlers(s, s')
            && forall id :: id in s'.counters.aborted <==> id in s.counters.aborted || AbortsOne(s', schedule, id)
    decreases |schedule|
  {
    if schedule != [] {
      var a, next, s' := schedule[0], Step(s, schedule[0]), Run(s, schedule).value;
      StepAborts(s, a);
      RunAbortsExactly(next, schedule[1..]);
      forall id ensures AbortsOne(s', schedule, id) <==> AbortsAt(s, a, id) || AbortsOne(s', schedule[1..], id) {
        FirstAborts(s, s', schedule, id);
      }
    }
  }

  lemma FirstAborts(s: Server, s': Server, schedule: seq<Action>, id: string)
    requires schedule != [] && KeepsHandlers(s, s') && Enabled(s, schedule[0])
    ensures AbortsOne(s', schedule, id) <==> AbortsAt(s, schedule[0], id) || AbortsOne(s', schedule[1..], id)
  {
    var rest := schedule[1..];
    assert AbortsAt(s', schedule[0], id) <==> AbortsAt(s, schedule[0], id);
    if AbortsOne(s', schedule, id) && !AbortsAt(s', schedule[0], id) {
      var k :| 0 <= k < |schedule| && AbortsAt(s', schedule[k], id);
      assert rest[k - 1] == schedule[k];
    }
    if AbortsOne(s', rest, id) {
      var k :| 0 <= k < |rest| && AbortsAt(s', rest[k], id);
      assert schedule[k + 1] == rest[k];
    }
  }

  /** A handler that finishes was counted as running: the clamp at zero never bites. */
  lemma ClampNeverBites(s: Server, a: Action)
    requires Conserved(s) && Enabled(s, a) && (a.Complete? || a.EndCancellation? || a.Disconnect? || a.Fail?)
    ensures s.counters.running > 0 && Step(s, a).counters.running == s.counters.running - 1
  {
    SomeoneIsRunning(s.handlers, a.handler);
  }

  lemma AbortKeepsRecords(s: Server, h: nat)
    requires AbortsAreRecorded(s) && h < |s.handlers| && Unfinished(s.handlers[h])
    ensures var c := RecordedAbort(s.counters, s.handlers[h].id);
            AbortsAreRecorded(MoveTo(s, h, Aborted, c))
  {
    var c := RecordedAbort(s.counters, s.handlers[h].id);
    var s' := MoveTo(s, h, Aborted, c);
    forall id
      ensures id in c.aborted
              <==> exists k :: 0 <= k < |s'.handlers| && s'.handlers[k].id == id && s'.handlers[k].stage.Aborted?
    {
      if id == s.handlers[h].id {
        assert s'.handlers[h].id == id && s'.handlers[h].stage.Aborted?;
      } else {
        if k :| 0 <= k < |s.handlers| && s.handlers[k].id == id && s.handlers[k].stage.Aborted? {
          assert s'.handlers[k] == s.handlers[k];
        }
        if k :| 0 <= k < |s'.handlers| && s'.handlers[k].id == id && s'.handlers[k].stage.Aborted? {
          assert s'.handlers[k] == s.handlers[k];
        }
      }
    }
  }

  lemma OthersKeepRecords(s: Server, h: nat, stage: Stage, c: Counters)
    requires AbortsAreRecorded(s) && h < |s.handlers| && Unfinished(s.handlers[h]) && !stage.Aborted?
    requires c.aborted == s.counters.aborted && HasReasons(c) && c.success["abort"] == s.counters.success["abort"]
    ensures AbortsAreRecorded(MoveTo(s, h, stage, c))
  {
    var s' := MoveTo(s, h, stage, c);
    assert forall k :: 0 <= k < |s.handlers| ==>
      s'.handlers[k].id == s.handlers[k].id && s'.handlers[k].stage.Aborted? == s.handlers[k].stage.Aborted?;
  }

  lemma AcceptKeepsRecords(s: Server, h: Handler, c: Counters)
    requires AbortsAreRecorded(s) && h.stage.Serving? && c.aborted == s.counters.aborted
             && c.success == s.counters.success
    ensures AbortsAreRecorded(s.(handlers := s.handlers + [h], counters := c))
  {
    var s' := s.(handlers := s.handlers + [h], counters := c);
    forall id | id in c.aborted
      ensures exists k :: 0 <= k < |s'.handlers| && s'.handlers[k].id == id && s'.handlers[k].stage.Aborted?
    {
      var k :| 0 <= k < |s.handlers| && s.handlers[k].id == id && s.handlers[k].stage.Aborted?;
      assert s'.handlers[k] == s.handlers[k];
    }
  }

  lemma RecordsStay(s: Server, a: Action)
    requires AbortsAreRecorded(s) && Enabled(s, a)
    ensures AbortsAreRecorded(Step(s, a))
  {
    var c := Step(s, a).counters;
    match a
    case Accept(id, cancellation) => AcceptKeepsRecords(s, Handler(id, cancellation, Serving), c);
    case Generate(h) => OthersKeepRecords(s, h, Generated, c);
    case Complete(h) => OthersKeepRecords(s, h, Completed, c);
    case EndCancellation(h) =>
      if s.scenario.CleanEof? { OthersKeepRecords(s, h, EndedClean, c); } else { AbortKeepsRecords(s, h); }
    case Disconnect(h) => AbortKeepsRecords(s, h);
    case Fail(h) => OthersKeepRecords(s, h, Failed, c);
  }

  lemma AcceptConserves(s: Server, a: Action)
    requires Conserved(s) && a.Accept?
    ensures Conserved(Step(s, a))
  {
    RecordsStay(s, a);
    assert Step(s, a).handlers[..|s.handlers|] == s.handlers;
  }

  lemma GenerateConserves(s: Server, a: Action)
    requires Conserved(s) && Enabled(s, a) && a.Generate?
    ensures Conserved(Step(s, a))
  {
    RecordsStay(s, a);
    UnfinishedMove(s.handlers, a.handler, Generated);
  }

  lemma FinishConserves(s: Server, a: Action)
    requires Conserved(s) && Enabled(s, a) && !a.Accept? && !a.Generate?
    ensures Conserved(Step(s, a))
  {
    RecordsStay(s, a);
    ClampNeverBites(s, a);
    FinishLeavesOne(s, a);
    FinishKeepsRest(s, a);
  }

  lemma FinishLeavesOne(s: Server, a: Action)
    requires Conserved(s) && Enabled(s, a) && !a.Accept? && !a.Generate?
    ensures CountUnfinished(Step(s, a).handlers) == CountUnfinished(s.handlers) - 1
  {
    UnfinishedMove(s.handlers, a.handler, Step(s, a).handlers[a.handler].stage);
  }

  /** The log grows with the aborts, and what nothing counts stays zero. */
  lemma FinishKeepsRest(s: Server, a: Action)
    requires Conserved(s) && Enabled(s, a) && !a.Accept? && !a.Generate?
    ensures var c := Step(s, a).counters;
            && HasReasons(c) && |c.logs| == 2 * |Step(s, a).handlers| + 2 * |c.aborted|
            && c.waiting == 0 && c.preemptions == 0 && c.queries == 0 && c.hits == 0
            && c.success["stop"] == 0 && c.success["error"] == 0 && c.success["repetition"] == 0
  {
  }

  lemma StepConserves(s: Server, a: Action)
    requires Conserved(s) && Enabled(s, a)
    ensures Conserved(Step(s, a))
  {
    if a.Accept? {
      AcceptConserves(s, a);
    } else if a.Generate? {
      GenerateConserves(s, a);
    } else {
      FinishConserves(s, a);
    }
  }

  /** What one run adds to the counters, in terms of the steps it took. */
  predicate Moved(s: Server, s': Server, t: Tally) {
    && HasReasons(s.counters) && HasReasons(s'.counters) && s'.scenario == s.scenario
    && s'.counters.prompt == s.counters.prompt + 64 * (t.completions + t.generations)
    && s'.counters.generation == s.counters.generation + 32 * t.completions + t.tokens
    && s'.counters.success["length"] == s.counters.success["length"] + t.completions
    && s.counters.aborted <= s'.counters.aborted
    && |s'.handlers| == |s.handlers| + t.accepted
  }

  lemma StepMoves(s: Server, a: Action)
    requires Conserved(s) && Enabled(s, a)
    ensures Moved(s, Step(s, a), TallyOne(a, s.scenario, Tally(0, 0, 0, 0)))
  {
  }

  lemma MovesAdd(s: Server, next: Server, end: Server, a: Action, t: Tally)
    requires Moved(s, next, TallyOne(a, s.scenario, Tally(0, 0, 0, 0))) && Moved(next, end, t)
    ensures Moved(s, end, TallyOne(a, s.scenario, t))
  {
  }

  /** Every interleaving keeps the counters conserved, and moves them by its tally. */
  lemma {:induction false} RunConserves(s: Server, schedule: seq<Action>)
    requires Conserved(s) && Run(s, schedule).Some?
    ensures Conserved(Run(s, schedule).value)
    ensures Moved(s, Run(s, schedule).value, Tallied(schedule, s.scenario))
    decreases |schedule|
  {
    if schedule != [] {
      var next := Step(s, schedule[0]);
      StepConserves(s, schedule[0]);
      RunConserves(next, schedule[1..]);
      StepMoves(s, schedule[0]);
      MovesAdd(s, next, Run(s, schedule).value, schedule[0], Tallied(schedule[1..], s.scenario));
    }
  }

  // ---------------------------------------------------------------- scrapes

  function ReasonSample(c: Counters, reason: string): Sample
    requires reason in c.success
  {
    Sample(RequestSuccess, LabelsOf(Selector(RequestSuccess, Some(reason))), c.success[reason] as real)
  }

  /** `metrics_exposition`, as typed samples in its order. */
  function Exposed(c: Counters): seq<Sample>
    requires HasReasons(c)
  {
    [Sample(RequestsRunning, MODEL_LABELS, c.running as real),
     Sample(RequestsWaiting, MODEL_LABELS, c.waiting as real),
     Sample(CacheUsage, MODEL_LABELS, 0.0),
     Sample(PromptTokens, MODEL_LABELS, c.prompt as real),
     Sample(GenerationTokens, MODEL_LABELS, c.generation as real),
     Sample(Preemptions, MODEL_LABELS, c.preemptions as real),
     Sample(CacheQueries, MODEL_LABELS, c.queries as real),
     Sample(CacheHits, MODEL_LABELS, c.hits as real),
     ReasonSample(c, "abort"), ReasonSample(c, "error"), ReasonSample(c, "length"),
     ReasonSample(c, "repetition"), ReasonSample(c, "stop")]
  }

  function Scrape(s: Server, process: string, wallClock: nat, at: Nanos): Snapshot
    requires HasReasons(s.counters)
  {
    Snapshot(process, wallClock, at, Exposed(s.counters))
  }

  /** The series each exposed sample is of. */
  const EXPOSED_SERIES: seq<Selector> :=
    [Selector(RequestsRunning, None), Selector(RequestsWaiting, None), Selector(CacheUsage, None),
     Selector(PromptTokens, None), Selector(GenerationTokens, None), Selector(Preemptions, None),
     Selector(CacheQueries, None), Selector(CacheHits, None),
     Selector(RequestSuccess, Some("abort")), Selector(RequestSuccess, Some("error")),
       Selector(RequestSuccess, Some("length")),
     Selector(RequestSuccess, Some("repetition")), Selector(RequestSuccess, Some("stop"))]

  lemma ReasonLabelsDiffer(a: string, b: string)
    ensures LabelsOf(Selector(RequestSuccess, Some(a))) == LabelsOf(Selector(RequestSuccess, Some(b))) ==> a == b
  {
    assert LabelsOf(Selector(RequestSuccess, Some(a)))[REASON] == a;
    assert LabelsOf(Selector(RequestSuccess, Some(b)))[REASON] == b;
  }

  lemma ExposedSeriesAreExact(c: Counters, i: nat)
    requires HasReasons(c) && i < |EXPOSED_SERIES|
    ensures IsSeries(EXPOSED_SERIES[i]) && OnlyFit(Exposed(c), EXPOSED_SERIES[i], i)
  {
    var samples, s := Exposed(c), EXPOSED_SERIES[i];
    assert "length"[0] == 'l' && "abort"[0] == 'a' && "stop"[0] == 's' && "error"[0] == 'e' && "repetition"[0] == 'r';
    forall j | 0 <= j < |samples| && Fits(samples[j], s) ensures j == i {
      if i >= 8 {
        assert j >= 8;
        ReasonLabelsDiffer(EXPOSED_SERIES[i].reason.value, EXPOSED_SERIES[j].reason.value);
      }
    }
  }

  lemma ScrapeSelects(s: Server, process: string, wallClock: nat, at: Nanos, i: nat)
    requires HasReasons(s.counters) && i < |EXPOSED_SERIES|
    ensures SelectExactSeries(Scrape(s, process, wallClock, at), EXPOSED_SERIES[i]) == Returned(Exposed(s.counters)[i])
  {
    ExposedSeriesAreExact(s.counters, i);
    SelectsExactly(Scrape(s, process, wallClock, at), EXPOSED_SERIES[i]);
  }

  /** The quiescence gate passes exactly when no accepted request is unfinished. */
  lemma QuiescentExactly(s: Server, process: string, wallClock: nat, at: Nanos)
    requires Conserved(s)
    ensures RequireQuiescent(Scrape(s, process, wallClock, at)) <==> CountUnfinished(s.handlers) == 0
  {
    ScrapeSelects(s, process, wallClock, at, 0);
    ScrapeSelects(s, process, wallClock, at, 1);
    assert EXPOSED_SERIES[0] == Selector(RequestsRunning, None) && EXPOSED_SERIES[1] == Selector(RequestsWaiting, None);
  }

  lemma {:induction false} InventoryIgnoresValues(a: seq<Sample>, b: seq<Sample>, metric: Metric)
    requires |a| == |b| && forall i :: 0 <= i < |a| ==> a[i].metric == b[i].metric && a[i].labels == b[i].labels
    ensures Inventory(a, metric) == Inventory(b, metric)
  {
    if a != [] {
      InventoryIgnoresValues(a[1..], b[1..], metric);
    }
  }

  /** Where the finish reasons stand among the exposed samples. */
  const REASON_PLACES: seq<nat> := [10, 8, 12, 9, 11]

  lemma ReasonPlaces(c: Counters, k: nat)
    requires HasReasons(c) && k < |FINISH_REASONS|
    ensures FINISH_REASONS[k] in c.success && Exposed(c)[REASON_PLACES[k]] == ReasonSample(c, FINISH_REASONS[k])
  {
  }

  lemma OnlyReasonPlaces(c: Counters, i: nat) returns (k: nat)
    requires HasReasons(c) && i < |Exposed(c)| && Exposed(c)[i].metric.RequestSuccess?
    ensures k < |FINISH_REASONS| && REASON_PLACES[k] == i
  {
    k := if i == 10 then 0 else if i == 8 then 1 else if i == 12 then 2 else if i == 9 then 3 else 4;
  }

  lemma ReasonLabelsCarryModel(reason: string)
    ensures CarriesModel(LabelsOf(Selector(RequestSuccess, Some(reason))))
  {
    assert REASON[0] == 'f' && "model_name"[0] == 'm' && "engine"[0] == 'e';
  }

  lemma ExposedFamilyIsExact(s: Server, process: string, wallClock: nat, at: Nanos)
    requires HasReasons(s.counters)
    ensures ReasonFamilyIsExact(Scrape(s, process, wallClock, at))
  {
    var samples := Scrape(s, process, wallClock, at).samples;
    var exposed := set i | 0 <= i < |samples| && samples[i].metric.RequestSuccess?
      && CarriesModel(samples[i].labels) :: samples[i].labels;
    var expected := set k | 0 <= k < |FINISH_REASONS| :: LabelsOf(Selector(RequestSuccess, Some(FINISH_REASONS[k])));
    forall labels | labels in expected ensures labels in exposed {
      var k :| 0 <= k < |FINISH_REASONS| && labels == LabelsOf(Selector(RequestSuccess, Some(FINISH_REASONS[k])));
      ReasonPlaces(s.counters, k);
      ReasonLabelsCarryModel(FINISH_REASONS[k]);
      assert samples[REASON_PLACES[k]].labels == labels;
    }
    forall labels | labels in exposed ensures labels in expected {
      var i :| 0 <= i < |samples| && samples[i].metric.RequestSuccess? && labels == samples[i].labels;
      var k := OnlyReasonPlaces(s.counters, i);
      ReasonPlaces(s.counters, k);
    }
    assert exposed == expected;
  }

  /** Between two snapshots of one shape, a series that does not fall moves by the difference of its
      samples. */
  lemma SamplesDiffer(before: Snapshot, after: Snapshot, s: Selector, i: nat)
    requires before.process == after.process && before.at < after.at && |before.samples| == |after.samples|
    requires forall j :: 0 <= j < |before.samples| ==>
               before.samples[j].metric == after.samples[j].metric
                 && before.samples[j].labels == after.samples[j].labels
    requires IsCounter(s.metric) && IsSeries(s) && OnlyFit(before.samples, s, i) && OnlyFit(after.samples, s, i)
    requires before.samples[i].value <= after.samples[i].value
    ensures var d := DeriveCounterDelta(before, after, s);
            d.Returned? && d.value.delta == after.samples[i].value - before.samples[i].value
  {
    SelectsExactly(before, s);
    SelectsExactly(after, s);
    InventoryIgnoresValues(before.samples, after.samples, s.metric);
  }

  lemma SameShape(c: Counters, c': Counters)
    requires HasReasons(c) && HasReasons(c')
    ensures |Exposed(c)| == |Exposed(c')|
    ensures forall j :: 0 <= j < |Exposed(c)| ==>
              Exposed(c)[j].metric == Exposed(c')[j].metric && Exposed(c)[j].labels == Exposed(c')[j].labels
  {
  }

  /** The counter behind the exposed series `i`. */
  function Reading(c: Counters, i: nat): nat
    requires HasReasons(c) && 3 <= i < |EXPOSED_SERIES|
  {
    if i == 3 then c.prompt
    else if i == 4 then c.generation
    else if i == 5 then c.preemptions
    else if i == 6 then c.queries
    else if i == 7 then c.hits
    else if i == 8 then c.success["abort"]
    else if i == 9 then c.success["error"]
    else if i == 10 then c.success["length"]
    else if i == 11 then c.success["repetition"]
    else c.success["stop"]
  }

  /** By how much the measured window expects it to move. */
  function ExpectedMove(i: nat): nat {
    if i == 3 then 1024 else if i == 4 then 512 else if i == 10 then 16 else 0
  }

  lemma ReadingIsExposed(c: Counters, i: nat)
    requires HasReasons(c) && 3 <= i < |EXPOSED_SERIES|
    ensures Exposed(c)[i].value == Reading(c, i) as real
  {
  }

  lemma CountersFrom(i: nat)
    requires 3 <= i < |EXPOSED_SERIES|
    ensures IsCounter(EXPOSED_SERIES[i].metric)
  {
  }

  lemma ScrapesDiffer(s: Server, s': Server, process: string, wall: nat, wall': nat, at: Nanos, at': Nanos, i: nat)
    requires HasReasons(s.counters) && HasReasons(s'.counters) && at < at'
    requires 3 <= i < |EXPOSED_SERIES| && Reading(s.counters, i) <= Reading(s'.counters, i)
    ensures var d := DeriveCounterDelta(Scrape(s, process, wall, at), Scrape(s', process, wall', at'),
            EXPOSED_SERIES[i]);
            d.Returned? && d.value.delta == (Reading(s'.counters, i) - Reading(s.counters, i)) as real
  {
    ReadingIsExposed(s.counters, i);
    ReadingIsExposed(s'.counters, i);
    ExposedSeriesAreExact(s.counters, i);
    ExposedSeriesAreExact(s'.counters, i);
    SameShape(s.counters, s'.counters);
    CountersFrom(i);
    SamplesDiffer(Scrape(s, process, wall, at), Scrape(s', process, wall', at'), EXPOSED_SERIES[i], i);
  }

  lemma ExpectedInExposedOrder()
    ensures forall i :: 3 <= i < |EXPOSED_SERIES| ==>
              EXPOSED_SERIES[i] in EXPECTED_DELTAS && EXPECTED_DELTAS[EXPOSED_SERIES[i]] == ExpectedMove(i) as real
  {
    assert "length"[0] == 'l' && "abort"[0] == 'a' && "stop"[0] == 's' && "error"[0] == 'e' && "repetition"[0] == 'r';
  }

  lemma ExpectedIsExposed(s: Selector) returns (i: int)
    requires s in EXPECTED_DELTAS
    ensures 3 <= i < |EXPOSED_SERIES| && EXPOSED_SERIES[i] == s
  {
    i := if s.metric.PromptTokens? then 3
         else if s.metric.GenerationTokens? then 4
         else if s.metric.Preemptions? then 5
         else if s.metric.CacheQueries? then 6
         else if s.metric.CacheHits? then 7
         else if s.reason == Some("abort") then 8
         else if s.reason == Some("error") then 9
         else if s.reason == Some("length") then 10
         else if s.reason == Some("repetition") then 11
         else 12;
  }

  /** The ten counters that the window looks at, none of them falling. */
  predicate NoneFalls(c: Counters, c': Counters) {
    && HasReasons(c) && HasReasons(c')
    && forall i :: 3 <= i < |EXPOSED_SERIES| ==> Reading(c, i) <= Reading(c', i)
  }

  predicate MovedAsExpected(c: Counters, c': Counters)
    requires HasReasons(c) && HasReasons(c')
  {
    forall i :: 3 <= i < |EXPOSED_SERIES| ==> Reading(c', i) - Reading(c, i) == ExpectedMove(i)
  }

  lemma WindowByReadings(s: Server, s': Server, process: string, wall: nat, wall': nat, at: Nanos, at': Nanos)
    requires NoneFalls(s.counters, s'.counters) && at < at'
    ensures WindowIsExact(Scrape(s, process, wall, at), Scrape(s', process, wall', at'))
            <==> MovedAsExpected(s.counters, s'.counters)
  {
    ExposedFamilyIsExact(s, process, wall, at);
    ExposedFamilyIsExact(s', process, wall', at');
    ExpectedInExposedOrder();
    var before, after := Scrape(s, process, wall, at), Scrape(s', process, wall', at');
    forall i | 3 <= i < |EXPOSED_SERIES|
      ensures var d := DeriveCounterDelta(before, after, EXPOSED_SERIES[i]);
              d.Returned? && d.value.delta == (Reading(s'.counters, i) - Reading(s.counters, i)) as real
    {
      ScrapesDiffer(s, s', process, wall, wall', at, at', i);
    }
    WindowByIndex(s.counters, s'.counters, before, after);
  }

  lemma WindowByIndex(c: Counters, c': Counters, before: Snapshot, after: Snapshot)
    requires HasReasons(c) && HasReasons(c') && ReasonFamilyIsExact(before) && ReasonFamilyIsExact(after)
    requires forall i :: 3 <= i < |EXPOSED_SERIES| ==>
               && DeriveCounterDelta(before, after, EXPOSED_SERIES[i]).Returned?
               && DeriveCounterDelta(before, after, EXPOSED_SERIES[i]).value.delta
                  == (Reading(c', i) - Reading(c, i)) as real
    requires forall i :: 3 <= i < |EXPOSED_SERIES| ==>
               EXPOSED_SERIES[i] in EXPECTED_DELTAS && EXPECTED_DELTAS[EXPOSED_SERIES[i]] == ExpectedMove(i) as real
    ensures WindowIsExact(before, after) <==> MovedAsExpected(c, c')
  {
    if MovedAsExpected(c, c') {
      forall s | s in EXPECTED_DELTAS
        ensures DeriveCounterDelta(before, after, s).Returned?
                && DeriveCounterDelta(before, after, s).value.delta == EXPECTED_DELTAS[s]
      {
        var i := ExpectedIsExposed(s);
      }
    }
  }

  lemma AbortsGrow(s: Server, s': Server)
    requires Conserved(s) && Conserved(s') && s.counters.aborted <= s'.counters.aborted
    ensures s.counters.success["abort"] <= s'.counters.success["abort"]
    ensures s.counters.success["abort"] == s'.counters.success["abort"] <==> s.counters.aborted == s'.counters.aborted
  {
    var more := s'.counters.aborted - s.counters.aborted;
    assert s'.counters.aborted == s.counters.aborted + more;
  }

  /** The tally the measured window accepts. */
  predicate IsSixteenCompletions(s: Server, s': Server, t: Tally) {
    t.completions == 16 && t.generations == 0 && s'.counters.aborted == s.counters.aborted
  }

  lemma MovedBySixteen(s: Server, s': Server, t: Tally)
    requires Conserved(s) && Conserved(s') && Moved(s, s', t) && t.generations <= t.tokens <= 2 * t.generations
    ensures NoneFalls(s.counters, s'.counters)
    ensures MovedAsExpected(s.counters, s'.counters) <==> IsSixteenCompletions(s, s', t)
  {
    AbortsGrow(s, s');
    var c, c' := s.counters, s'.counters;
    if MovedAsExpected(c, c') {
      assert Reading(c', 10) - Reading(c, 10) == 16;
      assert Reading(c', 3) - Reading(c, 3) == 1024;
      assert Reading(c', 8) - Reading(c, 8) == 0;
    }
  }

  /** Between two scrapes of a conserved server. */
  lemma ConservedWindow(s: Server, schedule: seq<Action>, process: string, wall: nat, wall': nat, at: Nanos, at': Nanos)
    requires Conserved(s) && Run(s, schedule).Some? && at < at'
    ensures var s' := Run(s, schedule).value;
            && HasReasons(s'.counters)
            && (WindowIsExact(Scrape(s, process, wall, at), Scrape(s', process, wall', at'))
                <==> IsSixteenCompletions(s, s', Tallied(schedule, s.scenario)))
  {
    var s' := Run(s, schedule).value;
    RunConserves(s, schedule);
    OneOrTwoTokensEach(schedule, s.scenario);
    MovedBySixteen(s, s', Tallied(schedule, s.scenario));
    WindowByReadings(s, s', process, wall, wall', at, at');
  }

  /** The measured window between two scrapes of a server, the first after any schedule from its start and
      the second after any further one, is accepted if and only if the second schedule completed exactly
      sixteen requests, generated for no cancellation request and aborted no new id. */
  lemma WindowAcceptsExactlySixteen(
    scenario: Scenario, first: seq<Action>, second: seq<Action>, process: string, wall: nat, wall': nat, at: Nanos,
      at': Nanos)
    requires Run(Started(scenario), first).Some?
    requires Run(Run(Started(scenario), first).value, second).Some? && at < at'
    ensures var s := Run(Started(scenario), first).value; var s' := Run(s, second).value;
            && HasReasons(s'.counters)
            && (WindowIsExact(Scrape(s, process, wall, at), Scrape(s', process, wall', at'))
                <==> IsSixteenCompletions(s, s', Tallied(second, scenario)))
  {
    StartIsConserved(scenario);
    RunConserves(Started(scenario), first);
    ConservedWindow(Run(Started(scenario), first).value, second, process, wall, wall', at, at');
  }
}
