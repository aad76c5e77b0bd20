/** What a completion stream means, told from its events alone: which event may follow which, what the
    evidence takes from them, and which live runs succeed. The state of the validator does not occur here. */
module StreamMeaning {
  import opened Prelude
  import opened Sse
  import opened SseChunking
  import opened SseFrames
  import opened Payload
  import opened StreamContract
  import opened StreamProtocol
  import opened StreamReplay

  // ---------------------------------------------------------------- what one event says

  /** The response that an event carries; only data events carry one. */
  function ResponseOf(config: Config, e: RetainedEvent): Response {
    if e.frame.kind.Data? && e.frame.data.Some? then config.decodeJson(e.frame.data.value) else Malformed
  }

  predicate SaysUsage(config: Config, e: RetainedEvent) {
    var r := ResponseOf(config, e);
    r.Response? && r.choices.Items? && r.choices.items == []
  }

  /** One choice, with a text and with token ids or none. */
  predicate SaysTokens(config: Config, e: RetainedEvent) {
    var r := ResponseOf(config, e);
    r.Response? && r.choices.Items? && |r.choices.items| == 1 && r.choices.items[0].Choice?
    && r.choices.items[0].text.Some?
  }

  function ChoiceOf(config: Config, e: RetainedEvent): Choice
    requires SaysTokens(config, e)
  {
    ResponseOf(config, e).choices.items[0]
  }

  predicate SaysFinish(config: Config, e: RetainedEvent) {
    SaysTokens(config, e) && ChoiceOf(config, e).finish.Length?
  }

  predicate SaysPrompt(config: Config, e: RetainedEvent) {
    SaysTokens(config, e) && ChoiceOf(config, e).prompt.Ids?
  }

  function IdsSaid(choice: Choice): TokenIds {
    if choice.Choice? && choice.tokenIds.Ids? then choice.tokenIds.ids else []
  }

  /** A generation event: when it was observed, and its choice. */
  datatype Saying = Saying(at: Nanos, choice: Choice)

  function Sayings(config: Config, events: seq<RetainedEvent>): (said: seq<Saying>)
    ensures forall k :: 0 <= k < |said| ==> said[k].choice.Choice? && said[k].choice.text.Some?
  {
    if events == [] then []
    else
      var earlier, e := Sayings(config, events[..|events| - 1]), events[|events| - 1];
      if SaysTokens(config, e) then earlier + [Saying(e.at, ChoiceOf(config, e))] else earlier
  }

  function IdsOfAll(said: seq<Saying>): TokenIds {
    if said == [] then [] else IdsOfAll(said[..|said| - 1]) + IdsSaid(said[|said| - 1].choice)
  }

  // ---------------------------------------------------------------- which event may follow which

  /** A choice that can stand in a generation event at all. */
  predicate IsReadable(choice: Choice) {
    && choice.Choice? && choice.indexIsZero && choice.text.Some?
    && (choice.tokenIds.Missing? || choice.tokenIds.Ids?)
    && (choice.finish.NotFinished? || choice.finish.Length?)
    && !choice.prompt.BadIds?
  }

  /** A generation event comes before the finish and the usage; it brings the prompt ids at most once, and
      with it there are at most 32 token ids, exactly 32 if it is the finish. */
  predicate MayBeSaid(config: Config, earlier: seq<RetainedEvent>, choice: Choice) {
    && IsReadable(choice)
    && (forall j :: 0 <= j < |earlier| ==> !SaysUsage(config, earlier[j]) && !SaysFinish(config, earlier[j]))
    && (choice.prompt.Ids? ==> forall j :: 0 <= j < |earlier| ==> !SaysPrompt(config, earlier[j]))
    && var n := |IdsOfAll(Sayings(config, earlier))| + |IdsSaid(choice)|;
       if choice.finish.Length? then n == 32 else n <= 32
  }

  /** The usage comes once, later than the finish. */
  predicate MayBeUsed(config: Config, earlier: seq<RetainedEvent>, r: Response, at: Nanos)
    requires r.Response?
  {
    && r.usage.Good? && r.metrics.Good?
    && (exists j :: 0 <= j < |earlier| && SaysFinish(config, earlier[j]) && earlier[j].at < at)
    && forall j :: 0 <= j < |earlier| ==> !SaysUsage(config, earlier[j])
  }

  /** What may stand behind the events so far: nothing behind `[DONE]`, comments anywhere else, `[DONE]`
      later than the usage, and data in a response of this request with one choice or none. */
  predicate FitsBehind(config: Config, earlier: seq<RetainedEvent>, e: RetainedEvent) {
    && (forall j :: 0 <= j < |earlier| ==> !earlier[j].frame.kind.Done?)
    && match e.frame.kind
       case Comment => true
       case Done => exists j :: 0 <= j < |earlier| && SaysUsage(config, earlier[j]) && earlier[j].at < e.at
       case Data =>
         var r := ResponseOf(config, e);
         && r.Response? && r.id == "cmpl-" + config.externalId && r.choices.Items? && |r.choices.items| <= 1
         && if r.choices.items == [] then MayBeUsed(config, earlier, r, e.at)
            else MayBeSaid(config, earlier, r.choices.items[0])
  }

  /** Every event fits behind the ones before it. */
  predicate Fits(config: Config, events: seq<RetainedEvent>) {
    forall i :: 0 <= i < |events| ==> FitsBehind(config, events[..i], events[i])
  }

  lemma FitsSnoc(config: Config, events: seq<RetainedEvent>, e: RetainedEvent)
    ensures Fits(config, events + [e]) <==> Fits(config, events) && FitsBehind(config, events, e)
  {
    var all := events + [e];
    assert all[..|events|] == events && all[|events|] == e;
    forall i | 0 <= i < |events| ensures all[..i] == events[..i] && all[i] == events[i] {
    }
    if Fits(config, all) {
      forall i | 0 <= i < |events| ensures FitsBehind(config, events[..i], events[i]) {
        assert FitsBehind(config, all[..i], all[i]);
      }
    }
  }

  // ---------------------------------------------------------------- the validator says the same

  /** The token event of a generation event; the first one bears its prompt ids. */
  function Told(said: Saying, isFirst: bool): TokenEvent
    requires said.choice.Choice? && said.choice.text.Some?
  {
    var prompt := if isFirst && said.choice.prompt.Ids? then Some(said.choice.prompt.ids) else None;
    TokenEvent(said.at, IdsSaid(said.choice), said.choice.text.value, said.choice.finish.Length?, prompt)
  }

  /** Token events and texts are those of the generation events, one to one and in order. */
  predicate TellsAll(tokenEvents: seq<TokenEvent>, texts: seq<string>, said: seq<Saying>)
    requires forall k :: 0 <= k < |said| ==> said[k].choice.Choice? && said[k].choice.text.Some?
  {
    && |tokenEvents| == |texts| == |said|
    && forall k :: 0 <= k < |said| ==> tokenEvents[k] == Told(said[k], k == 0) && texts[k] == said[k].choice.text.value
  }

  predicate TellsFinish(config: Config, s: Stream) {
    && (s.generationAt.Some? <==> exists j :: 0 <= j < |s.events| && SaysFinish(config, s.events[j]))
    && forall j :: 0 <= j < |s.events| && SaysFinish(config, s.events[j]) ==>
         && s.generationAt == Some(s.events[j].at)
         && s.terminalCarriedTokens == Some(IdsSaid(ChoiceOf(config, s.events[j])) != [])
  }

  predicate TellsUsage(config: Config, s: Stream) {
    && (s.usageAt.Some? <==> exists j :: 0 <= j < |s.events| && SaysUsage(config, s.events[j]))
    && forall j :: 0 <= j < |s.events| && SaysUsage(config, s.events[j]) ==>
         && s.usageAt == Some(s.events[j].at)
         && ResponseOf(config, s.events[j]).metrics.Good?
         && s.metrics == Some(ResponseOf(config, s.events[j]).metrics.value)
  }

  predicate TellsDone(s: Stream) {
    && (s.protocolAt.Some? <==> exists j :: 0 <= j < |s.events| && s.events[j].frame.kind.Done?)
    && forall j :: 0 <= j < |s.events| && s.events[j].frame.kind.Done? ==> s.protocolAt == Some(s.events[j].at)
  }

  predicate TellsPrompt(config: Config, s: Stream) {
    && (s.returnedPrompt.Some? <==> exists j :: 0 <= j < |s.events| && SaysPrompt(config, s.events[j]))
    && forall j :: 0 <= j < |s.events| && SaysPrompt(config, s.events[j]) ==>
         s.returnedPrompt == Some(ChoiceOf(config, s.events[j]).prompt.ids)
  }

  /** The protocol fields of the validator are what its retained events say. */
  predicate Tells(config: Config, s: Stream) {
    && TellsAll(s.tokenEvents, s.textParts, Sayings(config, s.events))
    && s.outputIds == IdsOfAll(Sayings(config, s.events))
    && TellsFinish(config, s) && TellsUsage(config, s) && TellsDone(s) && TellsPrompt(config, s)
  }

  lemma NothingSaidYet(config: Config)
    ensures Tells(config, Opened(config))
  {
  }

  /** One more event that says nothing of a kind changes nothing of that kind. */
  lemma SayingsSnoc(config: Config, events: seq<RetainedEvent>, e: RetainedEvent)
    ensures Sayings(config, events + [e])
            == if SaysTokens(config, e) then Sayings(config, events) + [Saying(e.at, ChoiceOf(config, e))]
               else Sayings(config, events)
  {
    assert (events + [e])[..|events|] == events;
  }

  /** Some generation event said the prompt only if there is a generation event. */
  lemma {:induction false} PromptNeedsSaying(config: Config, events: seq<RetainedEvent>)
    ensures Sayings(config, events) == [] ==> forall j :: 0 <= j < |events| ==> !SaysTokens(config, events[j])
  {
    if events != [] {
      PromptNeedsSaying(config, events[..|events| - 1]);
    }
  }

  /** Whether a frame is accepted depends on what the events before it said, in the declared way. */
  lemma FrameIsAcceptedExactly(config: Config, s: Stream, frame: SSEFrame, at: Nanos)
    requires Tells(config, s)
    ensures AcceptFrame(config, s, frame, at).Returned?
            <==> FitsBehind(config, s.events, RetainedEvent(at, frame))
  {
    var e := RetainedEvent(at, frame);
    if frame.kind.Data? && frame.data.Some? {
      var r := config.decodeJson(frame.data.value);
      assert ResponseOf(config, e) == r;
    }
  }

  /** After an accepted frame the fields are again what the events say. */
  lemma FrameIsTold(config: Config, s: Stream, frame: SSEFrame, at: Nanos)
    requires Tells(config, s) && AcceptFrame(config, s, frame, at).Returned?
    ensures Tells(config, AcceptFrame(config, s, frame, at).value)
    ensures AcceptFrame(config, s, frame, at).value.events == s.events + [RetainedEvent(at, frame)]
  {
    var e := RetainedEvent(at, frame);
    SayingsSnoc(config, s.events, e);
    FrameIsAcceptedExactly(config, s, frame, at);
    if SaysTokens(config, e) {
      GenerationIsTold(config, s, e);
    } else {
      OtherIsTold(config, s, e);
    }
  }

  lemma OtherIsTold(config: Config, s: Stream, e: RetainedEvent)
    requires Tells(config, s) && AcceptFrame(config, s, e.frame, e.at).Returned? && !SaysTokens(config, e)
    requires Sayings(config, s.events + [e]) == Sayings(config, s.events)
    ensures Tells(config, AcceptFrame(config, s, e.frame, e.at).value)
  {
    var s' := AcceptFrame(config, s, e.frame, e.at).value;
    OtherKeeps(config, s, s', e);
    FinishStays(config, s, s', e);
    PromptStays(config, s, s', e);
    UsageIsTold(config, s, s', e);
    DoneIsTold(config, s, s', e);
  }

  lemma OtherKeeps(config: Config, s: Stream, s': Stream, e: RetainedEvent)
    requires AcceptFrame(config, s, e.frame, e.at) == Returned(s') && !SaysTokens(config, e)
    ensures s'.events == s.events + [e]
    ensures s'.generationAt == s.generationAt && s'.terminalCarriedTokens == s.terminalCarriedTokens
    ensures s'.returnedPrompt == s.returnedPrompt && s'.tokenEvents == s.tokenEvents
    ensures s'.textParts == s.textParts && s'.outputIds == s.outputIds
    ensures if SaysUsage(config, e)
            then && s.usageAt.None? && s'.usageAt == Some(e.at) && ResponseOf(config, e).metrics.Good?
                 && s'.metrics == Some(ResponseOf(config, e).metrics.value)
            else s'.usageAt == s.usageAt && s'.metrics == s.metrics
    ensures if e.frame.kind.Done? then s.protocolAt.None? && s'.protocolAt == Some(e.at)
            else s'.protocolAt == s.protocolAt
  {
    if e.frame.kind.Data? && e.frame.data.Some? {
      assert ResponseOf(config, e) == config.decodeJson(e.frame.data.value);
    }
  }

  lemma FinishStays(config: Config, s: Stream, s': Stream, e: RetainedEvent)
    requires TellsFinish(config, s) && s'.events == s.events + [e] && !SaysFinish(config, e)
    requires s'.generationAt == s.generationAt && s'.terminalCarriedTokens == s.terminalCarriedTokens
    ensures TellsFinish(config, s')
  {
    assert forall j :: 0 <= j < |s.events| ==> s'.events[j] == s.events[j];
  }

  lemma PromptStays(config: Config, s: Stream, s': Stream, e: RetainedEvent)
    requires TellsPrompt(config, s) && s'.events == s.events + [e] && !SaysPrompt(config, e)
    requires s'.returnedPrompt == s.returnedPrompt
    ensures TellsPrompt(config, s')
  {
    assert forall j :: 0 <= j < |s.events| ==> s'.events[j] == s.events[j];
  }

  lemma UsageIsTold(config: Config, s: Stream, s': Stream, e: RetainedEvent)
    requires TellsUsage(config, s) && s'.events == s.events + [e]
    requires if SaysUsage(config, e)
             then && s.usageAt.None? && s'.usageAt == Some(e.at) && ResponseOf(config, e).metrics.Good?
                  && s'.metrics == Some(ResponseOf(config, e).metrics.value)
             else s'.usageAt == s.usageAt && s'.metrics == s.metrics
    ensures TellsUsage(config, s')
  {
    assert forall j :: 0 <= j < |s.events| ==> s'.events[j] == s.events[j];
    assert s'.events[|s.events|] == e;
  }

  lemma DoneIsTold(config: Config, s: Stream, s': Stream, e: RetainedEvent)
    requires TellsDone(s) && s'.events == s.events + [e]
    requires if e.frame.kind.Done? then s.protocolAt.None? && s'.protocolAt == Some(e.at)
             else s'.protocolAt == s.protocolAt
    ensures TellsDone(s')
  {
    assert forall j :: 0 <= j < |s.events| ==> s'.events[j] == s.events[j];
    assert s'.events[|s.events|] == e;
  }

  lemma GenerationIsTold(config: Config, s: Stream, e: RetainedEvent)
    requires Tells(config, s) && AcceptFrame(config, s, e.frame, e.at).Returned? && SaysTokens(config, e)
    requires Sayings(config, s.events + [e]) == Sayings(config, s.events) + [Saying(e.at, ChoiceOf(config, e))]
    ensures Tells(config, AcceptFrame(config, s, e.frame, e.at).value)
  {
    var s' := AcceptFrame(config, s, e.frame, e.at).value;
    var choice := ChoiceOf(config, e);
    assert s'.events == s.events + [e] && !SaysUsage(config, e);
    UsageIsTold(config, s, s', e);
    DoneIsTold(config, s, s', e);
    FinishIsTold(config, s, s', e);
    PromptIsTold(config, s, s', e);
    TokensAreTold(config, s, s', e);
  }

  lemma FinishIsTold(config: Config, s: Stream, s': Stream, e: RetainedEvent)
    requires TellsFinish(config, s) && s'.events == s.events + [e] && SaysTokens(config, e) && s.generationAt.None?
    requires var choice := ChoiceOf(config, e);
             if choice.finish.Length?
             then s'.generationAt == Some(e.at) && s'.terminalCarriedTokens == Some(IdsSaid(choice) != [])
             else s'.generationAt == s.generationAt && s'.terminalCarriedTokens == s.terminalCarriedTokens
    ensures TellsFinish(config, s')
  {
    assert forall j :: 0 <= j < |s.events| ==> s'.events[j] == s.events[j];
    assert s'.events[|s.events|] == e;
  }

  lemma PromptIsTold(config: Config, s: Stream, s': Stream, e: RetainedEvent)
    requires TellsPrompt(config, s) && s'.events == s.events + [e] && SaysTokens(config, e)
    requires var choice := ChoiceOf(config, e);
             if choice.prompt.Ids? then s.returnedPrompt.None? && s'.returnedPrompt == Some(choice.prompt.ids)
             else s'.returnedPrompt == s.returnedPrompt
    ensures TellsPrompt(config, s')
  {
    assert forall j :: 0 <= j < |s.events| ==> s'.events[j] == s.events[j];
    assert s'.events[|s.events|] == e;
  }

  lemma TokensAreTold(config: Config, s: Stream, s': Stream, e: RetainedEvent)
    requires Tells(config, s) && SaysTokens(config, e)
    requires AcceptFrame(config, s, e.frame, e.at) == Returned(s')
    requires Sayings(config, s'.events) == Sayings(config, s.events) + [Saying(e.at, ChoiceOf(config, e))]
    ensures TellsAll(s'.tokenEvents, s'.textParts, Sayings(config, s'.events))
    ensures s'.outputIds == IdsOfAll(Sayings(config, s'.events))
  {
    var said, choice := Sayings(config, s.events), ChoiceOf(config, e);
    var told := Told(Saying(e.at, choice), said == []);
    PromptNeedsSaying(config, s.events);
    assert said == [] ==> s.returnedPrompt.None?;
    assert s'.tokenEvents == s.tokenEvents + [told] && s'.textParts == s.textParts + [choice.text.value];
    assert Sayings(config, s'.events)[..|said|] == said;
    assert s'.outputIds == s.outputIds + IdsSaid(choice);
  }

  // ---------------------------------------------------------------- which frames a run observes, and when

  /** Enough readings for `n` frames, none of which goes back; without a frame clock none are needed. */
  predicate Enough(clock: FrameClock, last: Nanos, n: nat) {
    clock.Some? ==> n <= |clock.value| && InSequence([last] + clock.value[..n])
  }

  function Taken(clock: FrameClock, last: Nanos, n: nat): (clocks: seq<Nanos>)
    requires Enough(clock, last, n)
    ensures |clocks| == n
  {
    if clock.None? then seq(n, i requires 0 <= i < n => last) else clock.value[..n]
  }

  function Left(clock: FrameClock, n: nat): FrameClock
    requires clock.Some? ==> n <= |clock.value|
  {
    if clock.None? then None else Some(clock.value[n..])
  }

  /** The frames of one read with their clocks: the first has the clock of the read, and so have the others
      without a frame clock; with one, each other frame takes the next reading. */
  function Stamped(frames: seq<SSEFrame>, at: Nanos, clock: FrameClock): Option<(seq<RetainedEvent>, FrameClock)> {
    if frames == [] then Some(([], clock))
    else
      var behind := |frames| - 1;
      if !Enough(clock, at, behind) then None
      else Some((Events(frames, [at] + Taken(clock, at, behind)), Left(clock, behind)))
  }

  predicate InSequence(clocks: seq<Nanos>) {
    forall i :: 0 < i < |clocks| ==> clocks[i - 1] <= clocks[i]
  }

  function Events(frames: seq<SSEFrame>, clocks: seq<Nanos>): (events: seq<RetainedEvent>)
    requires |clocks| == |frames|
    ensures |events| == |frames|
  {
    seq(|frames|, i requires 0 <= i < |frames| => RetainedEvent(clocks[i], frames[i]))
  }

  datatype Observed = Observed(events: seq<RetainedEvent>, buffer: Bytes, done: bool, lastAt: Nanos, clock: FrameClock)

  /** What one read brings. */
  function ObserveOne(decode: Decoder, buffer: Bytes, done: bool, lastAt: Nanos, read: BodyRead, clock: FrameClock)
    : Option<Observed>
  {
    var effect := FeedOf(decode, buffer, done, read.data);
    if read.at < lastAt || !effect.status.Accepted? then None
    else
      var stamped := Stamped(effect.status.frames, read.at, clock);
      if stamped.None? then None
      else
        var events := stamped.value.0;
        var last := if events == [] then read.at else events[|events| - 1].at;
        Some(Observed(events, effect.buffer, effect.done, last, stamped.value.1))
  }

  /** What reads bring, whatever it says: the parser's frames, stamped, while no clock goes back. */
  function Observe(
    decode: Decoder, buffer: Bytes, done: bool, lastAt: Nanos, bodyReads: seq<BodyRead>, clock: FrameClock)
    : Option<Observed>
    decreases |bodyReads|
  {
    if bodyReads == [] then Some(Observed([], buffer, done, lastAt, clock))
    else
      var first := ObserveOne(decode, buffer, done, lastAt, bodyReads[0], clock);
      if first.None? then None
      else
        var o := first.value;
        var rest := Observe(decode, o.buffer, o.done, o.lastAt, bodyReads[1..], o.clock);
        if rest.None? then None else Some(rest.value.(events := o.events + rest.value.events))
  }

  // ---------------------------------------------------------------- runs, exactly

  lemma FitsPrefix(config: Config, a: seq<RetainedEvent>, b: seq<RetainedEvent>)
    requires Fits(config, a + b)
    ensures Fits(config, a)
  {
    forall i | 0 <= i < |a| ensures FitsBehind(config, a[..i], a[i]) {
      assert (a + b)[..i] == a[..i] && (a + b)[i] == a[i];
      assert FitsBehind(config, (a + b)[..i], (a + b)[i]);
    }
  }

  lemma EnoughStep(clock: FrameClock, last: Nanos, n: nat)
    requires n > 0
    ensures clock.None? ==> Taken(clock, last, n) == [last] + Taken(clock, last, n - 1)
    ensures clock.Some? ==>
              (Enough(clock, last, n)
               <==> clock.value != [] && last <= clock.value[0]
                    && Enough(Some(clock.value[1..]), clock.value[0], n - 1))
    ensures clock.Some? && Enough(clock, last, n) ==>
              && Taken(clock, last, n) == [clock.value[0]] + Taken(Some(clock.value[1..]), clock.value[0], n - 1)
              && Left(clock, n) == Left(Some(clock.value[1..]), n - 1)
  {
    if clock.Some? && clock.value != [] && n <= |clock.value| {
      var first, rest := clock.value[0], clock.value[1..];
      assert clock.value[..n] == [first] + rest[..n - 1];
      SequenceCons(last, first, rest[..n - 1]);
      assert clock.value[n..] == rest[n - 1..];
    }
  }

  lemma SequenceCons(last: Nanos, first: Nanos, rest: seq<Nanos>)
    ensures InSequence([last] + ([first] + rest)) <==> last <= first && InSequence([first] + rest)
  {
    var all, tail := [last] + ([first] + rest), [first] + rest;
    assert forall i :: 0 < i < |all| ==> all[i] == tail[i - 1];
    if InSequence(all) {
      assert all[0] <= all[1];
      forall i | 0 < i < |tail| ensures tail[i - 1] <= tail[i] {
        assert all[i] <= all[i + 1];
      }
    }
  }

  /** The state behind frames that were accepted: only the last clock and what the events say have changed. */
  predicate MovedOn(before: Stream, after: Stream, events: seq<RetainedEvent>, last: Nanos) {
    && after.events == before.events + events && after.lastAt == last
    && after.buffer == before.buffer && after.done == before.done && after.chunks == before.chunks
    && after.headersAt == before.headersAt && after.firstBodyAt == before.firstBodyAt
    && after.transportAt == before.transportAt
  }

  lemma FrameMovesOn(config: Config, s: Stream, frame: SSEFrame, at: Nanos)
    requires AcceptFrame(config, s, frame, at).Returned?
    ensures MovedOn(s, AcceptFrame(config, s, frame, at).value, [RetainedEvent(at, frame)], s.lastAt)
  {
  }

  function LastOf(clocks: seq<Nanos>, otherwise: Nanos): Nanos {
    if clocks == [] then otherwise else clocks[|clocks| - 1]
  }

  /** `r` is what becomes of frames behind the first of a read: they are accepted exactly when there are
      readings for them and the events they make fit. */
  ghost predicate IsRun(
    config: Config, s: Stream, frames: seq<SSEFrame>, clock: FrameClock, r: Result<(Stream, FrameClock)>) {
    var n := |frames|;
    && (r.Returned?
        <==> Enough(clock, s.lastAt, n) && Fits(config, s.events + Events(frames, Taken(clock, s.lastAt, n))))
    && (r.Returned? ==>
          && r.value.1 == Left(clock, n) && Tells(config, r.value.0)
          && var taken := Taken(clock, s.lastAt, n);
             MovedOn(s, r.value.0, Events(frames, taken), LastOf(taken, s.lastAt)))
  }

  lemma {:induction false} FramesAreAcceptedExactly(config: Config, s: Stream, frames: seq<SSEFrame>, clock: FrameClock)
    requires Tells(config, s) && Fits(config, s.events)
    ensures IsRun(config, s, frames, clock, AcceptFrames(config, s, frames, clock))
    decreases |frames|
  {
    if frames == [] {
      NoFrames(config, s, clock);
    } else if clock.Some? && (clock.value == [] || clock.value[0] < s.lastAt) {
      EnoughStep(clock, s.lastAt, |frames|);
    } else {
      var at := if clock.None? then s.lastAt else clock.value[0];
      var timed := s.(lastAt := at);
      var e := RetainedEvent(at, frames[0]);
      FrameIsAcceptedExactly(config, timed, frames[0], at);
      FitsSnoc(config, s.events, e);
      if FitsBehind(config, s.events, e) {
        FrameIsTold(config, timed, frames[0], at);
        var next := AcceptFrame(config, timed, frames[0], at).value;
        FrameMovesOn(config, timed, frames[0], at);
        var clock' := Left(clock, 1);
        FramesAreAcceptedExactly(config, next, frames[1..], clock');
        RunCons(config, s, frames, clock, at, next, AcceptFrames(config, next, frames[1..], clock'));
        assert s.(lastAt := s.lastAt) == s;
      } else {
        NoRun(config, s, frames, clock, e);
      }
    }
  }

  lemma NoFrames(config: Config, s: Stream, clock: FrameClock)
    requires Tells(config, s) && Fits(config, s.events)
    ensures IsRun(config, s, [], clock, Returned((s, clock)))
  {
    assert s.events + Events([], Taken(clock, s.lastAt, 0)) == s.events;
  }

  /** The clocks of frames: the first, and those behind it. */
  lemma ClocksSplit(s: Stream, frames: seq<SSEFrame>, clock: FrameClock, at: Nanos)
    requires frames != []
             && if clock.None? then at == s.lastAt else clock.value != [] && s.lastAt <= clock.value[0] == at
    ensures Enough(clock, s.lastAt, |frames|) <==> Enough(Left(clock, 1), at, |frames| - 1)
    ensures Enough(clock, s.lastAt, |frames|) ==>
              var more := Taken(Left(clock, 1), at, |frames| - 1);
              && Taken(clock, s.lastAt, |frames|) == [at] + more
              && Events(frames, [at] + more) == [RetainedEvent(at, frames[0])] + Events(frames[1..], more)
              && LastOf([at] + more, s.lastAt) == LastOf(more, at)
              && Left(clock, |frames|) == Left(Left(clock, 1), |frames| - 1)
  {
    EnoughStep(clock, s.lastAt, |frames|);
  }

  lemma RunCons(
    config: Config, s: Stream, frames: seq<SSEFrame>, clock: FrameClock, at: Nanos, next: Stream,
    r: Result<(Stream, FrameClock)>)
    requires frames != []
             && if clock.None? then at == s.lastAt else clock.value != [] && s.lastAt <= clock.value[0] == at
    requires MovedOn(s.(lastAt := at), next, [RetainedEvent(at, frames[0])], at)
    requires IsRun(config, next, frames[1..], Left(clock, 1), r)
    ensures IsRun(config, s, frames, clock, r)
  {
    ClocksSplit(s, frames, clock, at);
    if Enough(clock, s.lastAt, |frames|) {
      var more := Events(frames[1..], Taken(Left(clock, 1), at, |frames| - 1));
      ConcatAssociates(s.events, [RetainedEvent(at, frames[0])], more);
    }
  }

  lemma NoRun(config: Config, s: Stream, frames: seq<SSEFrame>, clock: FrameClock, e: RetainedEvent)
    requires frames != [] && e.frame == frames[0] && !Fits(config, s.events + [e])
    requires if clock.None? then e.at == s.lastAt else clock.value != [] && s.lastAt <= clock.value[0] == e.at
    ensures IsRun(config, s, frames, clock, Raised)
  {
    ClocksSplit(s, frames, clock, e.at);
    if Enough(clock, s.lastAt, |frames|) {
      var more := Events(frames[1..], Taken(Left(clock, 1), e.at, |frames| - 1));
      ConcatAssociates(s.events, [e], more);
      if Fits(config, s.events + [e] + more) {
        FitsPrefix(config, s.events + [e], more);
      }
    }
  }

  /** When the first byte of the body came. */
  function FirstBodyAt(bodyReads: seq<BodyRead>): Option<Nanos> {
    if bodyReads == [] then None
    else if bodyReads[0].data != [] then Some(bodyReads[0].at) else FirstBodyAt(bodyReads[1..])
  }

  function OrElse(first: Option<Nanos>, second: Option<Nanos>): Option<Nanos> {
    if first.Some? then first else second
  }

  /** `r` is what becomes of reads that bring `o`, if they bring anything: they are accepted exactly when what
      they bring fits. */
  ghost predicate IsReading(
    config: Config, s: Stream, firstBody: Option<Nanos>, o: Option<Observed>, r: Result<(Stream, FrameClock)>) {
    && (r.Returned? <==> o.Some? && Fits(config, s.events + o.value.events))
    && (r.Returned? ==>
          var s' := r.value.0;
          && Tells(config, s') && s'.events == s.events + o.value.events
          && s'.buffer == o.value.buffer && s'.done == o.value.done && s'.lastAt == o.value.lastAt
          && r.value.1 == o.value.clock
          && s'.headersAt == s.headersAt && s'.transportAt == s.transportAt
          && s'.firstBodyAt == OrElse(s.firstBodyAt, firstBody))
  }

  ghost predicate IsReady(config: Config, s: Stream) {
    Tells(config, s) && Fits(config, s.events) && s.headersAt.Some? && s.transportAt.None?
  }

  lemma ReadIsAcceptedExactly(config: Config, s: Stream, read: BodyRead, clock: FrameClock)
    requires IsReady(config, s)
    ensures IsReading(config, s, FirstBodyAt([read]),
            ObserveOne(config.decode, s.buffer, s.done, s.lastAt, read, clock),
              Feed(config, s, read.data, read.at, clock))
  {
    var started := StartRead(config, s, read.data, read.at);
    if started.Returned? {
      var (s0, frames) := started.value;
      StartTells(config, s, s0);
      if frames == [] {
        ReadWithoutFrames(config, s, read, clock, s0);
      } else {
        FirstFrame(config, s0, frames, read.at, clock);
        var first := AcceptFrame(config, s0, frames[0], read.at);
        var r := if first.Raised? then Raised else AcceptFrames(config, first.value, frames[1..], clock);
        ReadWithFrames(config, s, read, clock, s0, frames, r);
      }
    }
  }

  lemma ReadWithoutFrames(config: Config, s: Stream, read: BodyRead, clock: FrameClock, s0: Stream)
    requires IsReady(config, s) && Tells(config, s0)
    requires StartRead(config, s, read.data, read.at) == Returned((s0, []))
    ensures IsReading(config, s, FirstBodyAt([read]),
            ObserveOne(config.decode, s.buffer, s.done, s.lastAt, read, clock),
              Returned((s0, clock)))
  {
    assert [read][1..] == [] && s.events + [] == s.events;
  }

  lemma ReadWithFrames(
    config: Config, s: Stream, read: BodyRead, clock: FrameClock, s0: Stream, frames: seq<SSEFrame>,
    r: Result<(Stream, FrameClock)>)
    requires IsReady(config, s) && frames != []
    requires StartRead(config, s, read.data, read.at) == Returned((s0, frames))
    requires IsFullRun(config, s0, frames, read.at, clock, r)
    ensures IsReading(config, s, FirstBodyAt([read]),
            ObserveOne(config.decode, s.buffer, s.done, s.lastAt, read, clock), r)
  {
    assert [read][1..] == [];
  }

  lemma StartTells(config: Config, s: Stream, s0: Stream)
    requires Tells(config, s)
    requires s0 == s.(chunks := s0.chunks, lastAt := s0.lastAt, firstBodyAt := s0.firstBodyAt, buffer := s0.buffer,
                      done := s0.done)
    ensures Tells(config, s0)
  {
  }

  /** `r` is what becomes of all frames of a read, the first at its clock. */
  ghost predicate IsFullRun(
    config: Config, s: Stream, frames: seq<SSEFrame>, at: Nanos, clock: FrameClock, r: Result<(Stream, FrameClock)>)
    requires frames != []
  {
    var stamped := Stamped(frames, at, clock);
    && (r.Returned? <==> stamped.Some? && Fits(config, s.events + stamped.value.0))
    && (r.Returned? ==>
          && r.value.1 == stamped.value.1 && Tells(config, r.value.0) && stamped.value.0 != []
          && MovedOn(s, r.value.0, stamped.value.0, stamped.value.0[|stamped.value.0| - 1].at))
  }

  lemma FirstFrame(config: Config, s: Stream, frames: seq<SSEFrame>, at: Nanos, clock: FrameClock)
    requires Tells(config, s) && Fits(config, s.events) && frames != [] && s.lastAt == at
    ensures var first := AcceptFrame(config, s, frames[0], at);
            var r := if first.Raised? then Raised else AcceptFrames(config, first.value, frames[1..], clock);
            IsFullRun(config, s, frames, at, clock, r)
  {
    var e := RetainedEvent(at, frames[0]);
    FrameIsAcceptedExactly(config, s, frames[0], at);
    FitsSnoc(config, s.events, e);
    StampedSplit(config, s, frames, at, clock);
    if FitsBehind(config, s.events, e) {
      FrameIsTold(config, s, frames[0], at);
      FrameMovesOn(config, s, frames[0], at);
      var next := AcceptFrame(config, s, frames[0], at).value;
      FramesAreAcceptedExactly(config, next, frames[1..], clock);
      FirstOfRun(config, s, frames, at, clock, next, AcceptFrames(config, next, frames[1..], clock));
    }
  }

  lemma FirstOfRun(
    config: Config, s: Stream, frames: seq<SSEFrame>, at: Nanos, clock: FrameClock, next: Stream,
    r: Result<(Stream, FrameClock)>)
    requires frames != [] && s.lastAt == at && MovedOn(s, next, [RetainedEvent(at, frames[0])], at)
    requires IsRun(config, next, frames[1..], clock, r)
    ensures IsFullRun(config, s, frames, at, clock, r)
  {
    StampedSplit(config, s, frames, at, clock);
  }

  lemma StampedSplit(config: Config, s: Stream, frames: seq<SSEFrame>, at: Nanos, clock: FrameClock)
    requires frames != []
    ensures Stamped(frames, at, clock).Some? <==> Enough(clock, at, |frames| - 1)
    ensures Stamped(frames, at, clock).Some? ==>
              var taken := Taken(clock, at, |frames| - 1);
              var events := Stamped(frames, at, clock).value.0;
              && |events| == |frames| && events[|frames| - 1].at == LastOf(taken, at)
              && events == [RetainedEvent(at, frames[0])] + Events(frames[1..], taken)
              && s.events + events == s.events + [RetainedEvent(at, frames[0])] + Events(frames[1..], taken)
              && (Fits(config, s.events + events) ==> Fits(config, s.events + [RetainedEvent(at, frames[0])]))
  {
    if Enough(clock, at, |frames| - 1) {
      var more := Events(frames[1..], Taken(clock, at, |frames| - 1));
      var first := [RetainedEvent(at, frames[0])];
      ConcatAssociates(s.events, first, more);
      if Fits(config, s.events + first + more) {
        FitsPrefix(config, s.events + first, more);
      }
    }
  }

  /** Whole runs of reads, exactly. */
  lemma {:induction false} ReadsAreAcceptedExactly(
    config: Config, s: Stream, bodyReads: seq<BodyRead>, clock: FrameClock)
    requires IsReady(config, s)
    ensures IsReading(config, s, FirstBodyAt(bodyReads),
              Observe(config.decode, s.buffer, s.done, s.lastAt, bodyReads, clock),
              EndOf(RunReads(config, s, bodyReads, clock)))
    decreases |bodyReads|
  {
    if bodyReads == [] {
      assert s.events + [] == s.events;
    } else {
      var first := Feed(config, s, bodyReads[0].data, bodyReads[0].at, clock);
      ReadIsAcceptedExactly(config, s, bodyReads[0], clock);
      if first.Returned? {
        var (next, left) := first.value;
        ReadsAreAcceptedExactly(config, next, bodyReads[1..], left);
        ReadingCons(config, s, bodyReads, clock, next, left, EndOf(RunReads(config, next, bodyReads[1..], left)));
      } else {
        NoReading(config, s, bodyReads, clock);
      }
    }
  }

  /** The state and the clock behind a run of reads. */
  function EndOf(r: Result<ReadsRun>): Result<(Stream, FrameClock)> {
    if r.Raised? then Raised else Returned((r.value.s, r.value.clock))
  }

  lemma ReadingCons(
    config: Config, s: Stream, bodyReads: seq<BodyRead>, clock: FrameClock, next: Stream, left: FrameClock,
    r: Result<(Stream, FrameClock)>)
    requires bodyReads != []
    requires IsReading(config, s, FirstBodyAt([bodyReads[0]]),
               ObserveOne(config.decode, s.buffer, s.done, s.lastAt, bodyReads[0], clock), Returned((next, left)))
    requires IsReading(config, next, FirstBodyAt(bodyReads[1..]),
               Observe(config.decode, next.buffer, next.done, next.lastAt, bodyReads[1..], left), r)
    ensures IsReading(config, s, FirstBodyAt(bodyReads),
              Observe(config.decode, s.buffer, s.done, s.lastAt, bodyReads, clock), r)
  {
    var first := ObserveOne(config.decode, s.buffer, s.done, s.lastAt, bodyReads[0], clock).value;
    var o := Observe(config.decode, next.buffer, next.done, next.lastAt, bodyReads[1..], left);
    var whole := if o.None? then None else Some(o.value.(events := first.events + o.value.events));
    assert Observe(config.decode, s.buffer, s.done, s.lastAt, bodyReads, clock) == whole;
    FirstBodySplits(bodyReads, s.firstBodyAt);
    ReadingsAdd(config, s, FirstBodyAt([bodyReads[0]]), first, next, left, FirstBodyAt(bodyReads[1..]), o, r);
  }

  lemma FirstBodySplits(bodyReads: seq<BodyRead>, earlier: Option<Nanos>)
    requires bodyReads != []
    ensures OrElse(earlier, FirstBodyAt(bodyReads))
            == OrElse(OrElse(earlier, FirstBodyAt([bodyReads[0]])), FirstBodyAt(bodyReads[1..]))
  {
    assert [bodyReads[0]][1..] == [];
  }

  lemma ReadingsAdd(
    config: Config, s: Stream, firstBody: Option<Nanos>, first: Observed, next: Stream, left: FrameClock,
    laterBody: Option<Nanos>, o: Option<Observed>, r: Result<(Stream, FrameClock)>)
    requires IsReading(config, s, firstBody, Some(first), Returned((next, left)))
    requires IsReading(config, next, laterBody, o, r)
    ensures var whole := if o.None? then None else Some(o.value.(events := first.events + o.value.events));
            forall body :: OrElse(s.firstBodyAt, body) == OrElse(OrElse(s.firstBodyAt, firstBody), laterBody) ==>
                             IsReading(config, s, body, whole, r)
  {
    if o.Some? {
      ConcatAssociates(s.events, first.events, o.value.events);
    }
  }

  lemma NoReading(config: Config, s: Stream, bodyReads: seq<BodyRead>, clock: FrameClock)
    requires bodyReads != []
    requires IsReading(config, s, FirstBodyAt([bodyReads[0]]),
               ObserveOne(config.decode, s.buffer, s.done, s.lastAt, bodyReads[0], clock), Raised)
    ensures IsReading(config, s, FirstBodyAt(bodyReads),
              Observe(config.decode, s.buffer, s.done, s.lastAt, bodyReads, clock), Raised)
  {
    var first := ObserveOne(config.decode, s.buffer, s.done, s.lastAt, bodyReads[0], clock);
    var o := Observe(config.decode, s.buffer, s.done, s.lastAt, bodyReads, clock);
    if o.Some? && Fits(config, s.events + o.value.events) {
      var rest := o.value.events[|first.value.events|..];
      assert o.value.events == first.value.events + rest;
      ConcatAssociates(s.events, first.value.events, rest);
      FitsPrefix(config, s.events + first.value.events, rest);
    }
  }

  // ---------------------------------------------------------------- which live runs succeed

  predicate HasDone(frames: seq<SSEFrame>) {
    exists j :: 0 <= j < |frames| && frames[j].kind.Done?
  }

  lemma {:induction false} DrainDone(decode: Decoder, b: Bytes, done: bool)
    ensures var d := Drain(decode, b, done); !d.raised ==> (d.done <==> done || HasDone(d.frames))
    decreases |b|
  {
    if FirstBlank(b).Some? && !Drain(decode, b, done).raised {
      var at := FirstBlank(b).value;
      if at == 0 {
        DrainEmptyFrame(decode, b, done);
        DrainDone(decode, b[2..], done);
      } else {
        DrainFrame(decode, b, done, at);
        FrameDone(decode, b[..at], done);
        var parsed := FrameOf(decode, b[..at], done).value;
        DrainDone(decode, b[at + 2..], parsed.1);
        HasDoneCons(parsed.0, Drain(decode, b[at + 2..], parsed.1).frames);
      }
    }
  }

  /** `[DONE]` sets the flag, and no other frame moves it. */
  lemma FrameDone(decode: Decoder, raw: Bytes, done: bool)
    requires FrameOf(decode, raw, done).Returned?
    ensures var (frame, done') := FrameOf(decode, raw, done).value; done' <==> done || frame.kind.Done?
  {
  }

  lemma HasDoneCons(frame: SSEFrame, frames: seq<SSEFrame>)
    ensures HasDone([frame] + frames) <==> frame.kind.Done? || HasDone(frames)
  {
    var all := [frame] + frames;
    assert all[0] == frame && forall j :: 0 <= j < |frames| ==> all[j + 1] == frames[j];
    if HasDone(all) && !frame.kind.Done? {
      var j :| 0 <= j < |all| && all[j].kind.Done?;
      assert frames[j - 1].kind.Done?;
    }
  }

  predicate HasDoneEvent(events: seq<RetainedEvent>) {
    exists j :: 0 <= j < |events| && events[j].frame.kind.Done?
  }

  lemma HasDoneConcat(a: seq<RetainedEvent>, b: seq<RetainedEvent>)
    ensures HasDoneEvent(a + b) <==> HasDoneEvent(a) || HasDoneEvent(b)
  {
    var all := a + b;
    assert forall j :: 0 <= j < |a| ==> all[j] == a[j];
    assert forall j :: 0 <= j < |b| ==> all[j + |a|] == b[j];
    if HasDoneEvent(all) {
      var j :| 0 <= j < |all| && all[j].frame.kind.Done?;
      assert j >= |a| ==> b[j - |a|].frame.kind.Done?;
    }
  }

  lemma OneReadDone(decode: Decoder, buffer: Bytes, done: bool, lastAt: Nanos, read: BodyRead, clock: FrameClock)
    requires ObserveOne(decode, buffer, done, lastAt, read, clock).Some?
    ensures var o := ObserveOne(decode, buffer, done, lastAt, read, clock).value;
            o.done <==> done || HasDoneEvent(o.events)
  {
    DrainDone(decode, Normalise(buffer + read.data), done);
    var frames := FeedOf(decode, buffer, done, read.data).status.frames;
    var events := ObserveOne(decode, buffer, done, lastAt, read, clock).value.events;
    assert |events| == |frames| && forall j :: 0 <= j < |events| ==> events[j].frame == frames[j];
    assert HasDone(frames) <==> HasDoneEvent(events);
  }

  lemma {:induction false} ObservedDone(
    decode: Decoder, buffer: Bytes, done: bool, lastAt: Nanos, bodyReads: seq<BodyRead>, clock: FrameClock)
    requires Observe(decode, buffer, done, lastAt, bodyReads, clock).Some?
    ensures var o := Observe(decode, buffer, done, lastAt, bodyReads, clock).value;
            o.done <==> done || HasDoneEvent(o.events)
    decreases |bodyReads|
  {
    if bodyReads != [] {
      var o := ObserveOne(decode, buffer, done, lastAt, bodyReads[0], clock).value;
      OneReadDone(decode, buffer, done, lastAt, bodyReads[0], clock);
      ObservedDone(decode, o.buffer, o.done, o.lastAt, bodyReads[1..], o.clock);
      HasDoneConcat(o.events, Observe(decode, o.buffer, o.done, o.lastAt, bodyReads[1..], o.clock).value.events);
    }
  }

  /** What was observed of a live run. */
  function Seen(config: Config, live: LiveInput): Option<Observed> {
    Observe(config.decode, [], false, live.headersAt, live.bodyReads, live.clock)
  }

  /** A stream that ends well: its events fit, `[DONE]` is among them and lies before the close, only newlines
      are left, and its first generation event brings the prompt that was sent. */
  predicate EndsWell(config: Config, live: LiveInput, seen: Observed) {
    && Fits(config, seen.events)
    && (exists d :: 0 <= d < |seen.events| && seen.events[d].frame.kind.Done? && seen.events[d].at < live.closeAt)
    && seen.lastAt <= live.closeAt && OnlyNewlines(seen.buffer)
    && var said := Sayings(config, seen.events); said != [] && said[0].choice.prompt == Ids(config.sentPrompt)
  }

  /** Behind the headers the validator stands ready for the reads. */
  lemma HeadersMakeReady(config: Config, live: LiveInput)
    requires live.xRequestId == config.externalId && config.dispatchAt <= live.headersAt
    ensures var headed := AcceptHeaders(config, Opened(config), live.xRequestId, live.headersAt);
            && headed.Returned? && IsReady(config, headed.value) && headed.value.events == []
            && headed.value.buffer == [] && !headed.value.done && headed.value.lastAt == live.headersAt
            && headed.value.headersAt == Some(live.headersAt) && headed.value.firstBodyAt.None?
  {
    NothingSaidYet(config);
  }

  /** What the validator holds when all reads are in. */
  ghost predicate HoldsSeen(config: Config, live: LiveInput, seen: Observed, s: Stream) {
    && Tells(config, s) && Consistent(config, s) && s.events == seen.events
    && s.buffer == seen.buffer && s.done == seen.done && s.lastAt == seen.lastAt && s.transportAt.None?
    && s.headersAt == Some(live.headersAt) && s.firstBodyAt == FirstBodyAt(live.bodyReads)
    && (seen.done <==> HasDoneEvent(seen.events))
  }

  lemma RunHoldsSeen(config: Config, live: LiveInput)
    requires live.xRequestId == config.externalId && config.dispatchAt <= live.headersAt
    ensures var headed := AcceptHeaders(config, Opened(config), live.xRequestId, live.headersAt).value;
            var run := RunReads(config, headed, live.bodyReads, live.clock);
            && (run.Returned? <==> Seen(config, live).Some? && Fits(config, Seen(config, live).value.events))
            && (run.Returned? ==> HoldsSeen(config, live, Seen(config, live).value, run.value.s))
  {
    HeadersMakeReady(config, live);
    var headed := AcceptHeaders(config, Opened(config), live.xRequestId, live.headersAt).value;
    ReadsAreAcceptedExactly(config, headed, live.bodyReads, live.clock);
    if Seen(config, live).Some? {
      var seen := Seen(config, live).value;
      assert headed.events + seen.events == seen.events;
      ObservedDone(config.decode, [], false, live.headersAt, live.bodyReads, live.clock);
    }
    if RunReads(config, headed, live.bodyReads, live.clock).Returned? {
      OpenedIsConsistent(config);
      HeadersKeepConsistent(config, Opened(config), live.xRequestId, live.headersAt);
      RunsStayConsistent(config, headed, live.bodyReads, live.clock);
    }
  }

  /** Which live runs succeed, exactly, told from what the transport brought: the request's own headers not
      before the dispatch, bytes that parse into frames at clocks that do not go back, and events that fit and
      end well. */
  lemma LiveRunExactly(config: Config, live: LiveInput)
    requires |config.sentPrompt| == PROMPT_TOKEN_COUNT && ChainIsValid(live.chain)
    ensures LiveRun(config, live).Returned?
            <==> && live.xRequestId == config.externalId && config.dispatchAt <= live.headersAt
                 && Seen(config, live).Some? && EndsWell(config, live, Seen(config, live).value)
                 && live.chain.externalId == config.externalId && !live.chain.aborted
  {
    if live.xRequestId == config.externalId && config.dispatchAt <= live.headersAt {
      RunHoldsSeen(config, live);
      var headed := AcceptHeaders(config, Opened(config), live.xRequestId, live.headersAt).value;
      var run := RunReads(config, headed, live.bodyReads, live.clock);
      if run.Returned? {
        CloseExactly(config, live, Seen(config, live).value, run.value.s);
        if MayClose(config, run.value.s, live.closeAt, live.chain) {
          LiveRunSucceedsExactly(config, live);
        }
      }
    }
  }

  lemma CloseExactly(config: Config, live: LiveInput, seen: Observed, s: Stream)
    requires ChainIsValid(live.chain) && HoldsSeen(config, live, seen, s) && Fits(config, seen.events)
    ensures MayClose(config, s, live.closeAt, live.chain) && s.tokenEvents != [] && s.tokenEvents[0].prompt.Some?
            <==> EndsWell(config, live, seen) && live.chain.externalId == config.externalId && !live.chain.aborted
  {
    FinalizeAcceptsExactly(s.buffer, s.done);
    if MayClose(config, s, live.closeAt, live.chain) && s.tokenEvents != [] && s.tokenEvents[0].prompt.Some? {
      ClosedEndsWell(config, live, seen, s);
    }
    if EndsWell(config, live, seen) && live.chain.externalId == config.externalId && !live.chain.aborted {
      EndedMayClose(config, live, seen, s);
    }
  }

  lemma ClosedEndsWell(config: Config, live: LiveInput, seen: Observed, s: Stream)
    requires HoldsSeen(config, live, seen, s) && Fits(config, seen.events) && OnlyNewlines(s.buffer)
    requires MayClose(config, s, live.closeAt, live.chain) && s.tokenEvents != [] && s.tokenEvents[0].prompt.Some?
    ensures EndsWell(config, live, seen)
  {
    var said := Sayings(config, seen.events);
    assert s.tokenEvents[0] == Told(said[0], true);
    assert s.tokenEvents[0].prompt == s.returnedPrompt;
  }

  /** The three terminals, in order: the finish, the usage and, behind everything, `[DONE]`. */
  ghost predicate AreTerminals(config: Config, events: seq<RetainedEvent>, g: nat, u: nat, d: nat) {
    && g < u < d == |events| - 1
    && SaysFinish(config, events[g]) && SaysUsage(config, events[u]) && events[d].frame.kind.Done?
    && events[g].at < events[u].at < events[d].at
  }

  lemma FitsAt(config: Config, events: seq<RetainedEvent>, i: nat)
    requires Fits(config, events) && i < |events|
    ensures FitsBehind(config, events[..i], events[i])
  {
  }

  lemma NothingBehindDone(config: Config, events: seq<RetainedEvent>, d: nat)
    requires Fits(config, events) && d < |events| && events[d].frame.kind.Done?
    ensures d == |events| - 1
  {
    if d + 1 < |events| {
      FitsAt(config, events, d + 1);
    }
  }

  lemma TerminalsOf(config: Config, events: seq<RetainedEvent>, d: nat) returns (g: nat, u: nat)
    requires Fits(config, events) && d < |events| && events[d].frame.kind.Done?
    ensures AreTerminals(config, events, g, u, d)
  {
    assert FitsBehind(config, events[..d], events[d]);
    u :| 0 <= u < d && SaysUsage(config, events[..d][u]) && events[..d][u].at < events[d].at;
    assert events[..d][u] == events[u];
    assert FitsBehind(config, events[..u], events[u]);
    assert MayBeUsed(config, events[..u], ResponseOf(config, events[u]), events[u].at);
    g :| 0 <= g < u && SaysFinish(config, events[..u][g]) && events[..u][g].at < events[u].at;
    assert events[..u][g] == events[g];
    NothingBehindDone(config, events, d);
  }

  lemma {:induction false} NoBearingNoIds(events: seq<TokenEvent>)
    requires Bearing(events) == []
    ensures AllIds(events) == []
  {
    if events != [] {
      NoBearingNoIds(events[1..]);
    }
  }

  lemma EndedMayClose(config: Config, live: LiveInput, seen: Observed, s: Stream)
    requires ChainIsValid(live.chain) && HoldsSeen(config, live, seen, s) && EndsWell(config, live, seen)
    requires FinalizeAccepts(s.buffer, s.done) <==> s.done && OnlyNewlines(s.buffer)
    requires live.chain.externalId == config.externalId && !live.chain.aborted
    ensures MayClose(config, s, live.closeAt, live.chain) && s.tokenEvents != [] && s.tokenEvents[0].prompt.Some?
  {
    var d :| 0 <= d < |seen.events| && seen.events[d].frame.kind.Done? && seen.events[d].at < live.closeAt;
    var g, u := TerminalsOf(config, seen.events, d);
    assert s.protocolAt == Some(seen.events[d].at);
    TerminalsAreHeld(config, s, g, u, d);
    var said := Sayings(config, seen.events);
    assert s.tokenEvents[0] == Told(said[0], true);
    if Bearing(s.tokenEvents) == [] {
      NoBearingNoIds(s.tokenEvents);
    }
  }

  lemma TerminalsAreHeld(config: Config, s: Stream, g: nat, u: nat, d: nat)
    requires Tells(config, s) && AreTerminals(config, s.events, g, u, d)
    ensures s.generationAt == Some(s.events[g].at) && s.usageAt == Some(s.events[u].at)
    ensures s.protocolAt == Some(s.events[d].at)
    ensures s.metrics.Some? && s.terminalCarriedTokens.Some?
    ensures ResponseOf(config, s.events[u]).metrics == Good(s.metrics.value)
  {
  }

  // ---------------------------------------------------------------- what the evidence says

  /** The texts of the generation events, in order. */
  function TextsOf(said: seq<Saying>): (texts: seq<string>)
    requires forall k :: 0 <= k < |said| ==> said[k].choice.Choice? && said[k].choice.text.Some?
    ensures |texts| == |said| && forall k :: 0 <= k < |said| ==> texts[k] == said[k].choice.text.value
  {
    seq(|said|, k requires 0 <= k < |said| => said[k].choice.text.value)
  }

  /** Token events, ids and text of the evidence are those of the generation events, one to one and in order;
      the prompt that was sent came back on the first of them and only there. */
  predicate BearsTokens(config: Config, events: seq<RetainedEvent>, e: RequestEvidence) {
    var said := Sayings(config, events);
    && TellsAll(e.tokenEvents, TextsOf(said), said)
    && e.finalIds == IdsOfAll(said) && e.outputText == Flatten(TextsOf(said))
    && said != [] && said[0].choice.prompt == Ids(e.returnedPrompt)
    && e.returnedPrompt == e.sentPrompt == config.sentPrompt
    && forall k :: 1 <= k < |said| ==> !said[k].choice.prompt.Ids?
  }

  /** Its clocks are those at which all this was observed, and its metrics those of the usage event. */
  predicate BearsTerminals(
    config: Config, live: LiveInput, events: seq<RetainedEvent>, e: RequestEvidence, g: nat, u: nat)
    requires g < |events| && u < |events| && SaysFinish(config, events[g])
  {
    && ResponseOf(config, events[u]).Response? && ResponseOf(config, events[u]).metrics == Good(e.metrics)
    && e.terminalCarriedTokens == (IdsSaid(ChoiceOf(config, events[g])) != [])
    && FirstBodyAt(live.bodyReads) == Some(e.timing.firstBody)
    && e.timing.dispatch == config.dispatchAt && e.timing.headers == live.headersAt
    && e.timing.generation == events[g].at && e.timing.usage == events[u].at
    && e.timing.protocol == events[|events| - 1].at && e.timing.transport == live.closeAt
  }

  /** The evidence of a successful run is what the server sent: of its events one is the finish, a later one
      the usage, the last one `[DONE]`, and tokens, prompt, metrics and clocks are those of the events. */
  lemma EvidenceSaysWhatWasSent(config: Config, live: LiveInput) returns (g: nat, u: nat, d: nat)
    requires LiveRun(config, live).Returned?
    ensures Seen(config, live).Some?
    ensures var (outcome, capture) := LiveRun(config, live).value;
            && outcome.events == Seen(config, live).value.events && Fits(config, outcome.events)
            && AreTerminals(config, outcome.events, g, u, d)
            && BearsTokens(config, outcome.events, outcome.evidence)
            && BearsTerminals(config, live, outcome.events, outcome.evidence, g, u)
            && outcome.evidence.externalId == live.xRequestId == config.externalId
            && outcome.evidence.internalId == live.chain.internalId
  {
    RunHoldsSeen(config, live);
    var headed := AcceptHeaders(config, Opened(config), live.xRequestId, live.headersAt).value;
    var s := RunReads(config, headed, live.bodyReads, live.clock).value.s;
    d :| d < |s.events| && s.events[d].frame.kind.Done?;
    g, u := TerminalsOf(config, s.events, d);
    ClosedHoldsFields(config, s, live.closeAt, live.chain);
    var e := Close(config, s, live.closeAt, live.chain).value;
    EvidenceBears(config, live, Seen(config, live).value, s, e, g, u, d);
  }

  /** The evidence holds the fields of the validator. */
  predicate HoldsFields(config: Config, s: Stream, at: Nanos, chain: IdentityChain, e: RequestEvidence) {
    && e.externalId == config.externalId && e.internalId == chain.internalId
    && e.sentPrompt == config.sentPrompt && s.returnedPrompt == Some(e.returnedPrompt)
    && e.tokenEvents == s.tokenEvents && e.finalIds == s.outputIds && e.outputText == Concat(s.textParts)
    && s.terminalCarriedTokens == Some(e.terminalCarriedTokens) && s.metrics == Some(e.metrics)
    && e.timing.dispatch == config.dispatchAt && s.headersAt == Some(e.timing.headers)
    && s.firstBodyAt == Some(e.timing.firstBody) && s.generationAt == Some(e.timing.generation)
    && s.usageAt == Some(e.timing.usage) && s.protocolAt == Some(e.timing.protocol) && e.timing.transport == at
  }

  lemma ClosedHoldsFields(config: Config, s: Stream, at: Nanos, chain: IdentityChain)
    requires Close(config, s, at, chain).Returned?
    ensures var e := Close(config, s, at, chain).value; HoldsFields(config, s, at, chain, e) && EvidenceIsValid(e)
  {
  }

  lemma EvidenceBears(
    config: Config, live: LiveInput, seen: Observed, s: Stream, e: RequestEvidence, g: nat, u: nat, d: nat)
    requires HoldsSeen(config, live, seen, s) && HoldsFields(config, s, live.closeAt, live.chain, e)
    requires EvidenceIsValid(e) && Fits(config, s.events) && AreTerminals(config, s.events, g, u, d)
    ensures BearsTokens(config, s.events, e) && BearsTerminals(config, live, s.events, e, g, u)
  {
    TerminalsAreHeld(config, s, g, u, d);
    assert s.terminalCarriedTokens == Some(IdsSaid(ChoiceOf(config, s.events[g])) != []);
    EvidenceBearsTerminals(config, live, s, e, g, u, d);
    EvidenceBearsTokens(config, s, e);
  }

  lemma EvidenceBearsTerminals(
    config: Config, live: LiveInput, s: Stream, e: RequestEvidence, g: nat, u: nat, d: nat)
    requires HoldsFields(config, s, live.closeAt, live.chain, e) && AreTerminals(config, s.events, g, u, d)
    requires s.generationAt == Some(s.events[g].at) && s.usageAt == Some(s.events[u].at)
    requires s.protocolAt == Some(s.events[d].at)
    requires s.metrics.Some? && ResponseOf(config, s.events[u]).metrics == Good(s.metrics.value)
    requires s.terminalCarriedTokens == Some(IdsSaid(ChoiceOf(config, s.events[g])) != [])
    requires s.headersAt == Some(live.headersAt) && s.firstBodyAt == FirstBodyAt(live.bodyReads)
    ensures BearsTerminals(config, live, s.events, e, g, u)
  {
  }

  /** Each generation event was one of the events. */
  lemma {:induction false} SayingIsEvent(config: Config, events: seq<RetainedEvent>, k: nat) returns (j: nat)
    requires k < |Sayings(config, events)|
    ensures j < |events| && SaysTokens(config, events[j])
    ensures Sayings(config, events)[k] == Saying(events[j].at, ChoiceOf(config, events[j]))
  {
    var earlier := events[..|events| - 1];
    if k < |Sayings(config, earlier)| {
      j := SayingIsEvent(config, earlier, k);
    } else {
      j := |events| - 1;
    }
  }

  /** The prompt comes at most once. */
  lemma {:induction false} OnePromptAtMost(config: Config, events: seq<RetainedEvent>, i: nat, k: nat)
    requires Fits(config, events) && i < k < |Sayings(config, events)|
    ensures !(Sayings(config, events)[i].choice.prompt.Ids? && Sayings(config, events)[k].choice.prompt.Ids?)
  {
    var n := |events| - 1;
    var earlier, e := events[..n], events[n];
    assert events == earlier + [e];
    FitsSnoc(config, earlier, e);
    SayingsSnoc(config, earlier, e);
    if k < |Sayings(config, earlier)| {
      OnePromptAtMost(config, earlier, i, k);
    } else if Sayings(config, events)[i].choice.prompt.Ids? {
      var j := SayingIsEvent(config, earlier, i);
      assert SaysPrompt(config, earlier[j]);
    }
  }

  lemma EvidenceBearsTokens(config: Config, s: Stream, e: RequestEvidence)
    requires Tells(config, s) && Fits(config, s.events) && PromptReconciles(s) && EvidenceIsValid(e)
    requires e.tokenEvents == s.tokenEvents && e.finalIds == s.outputIds && e.outputText == Concat(s.textParts)
    requires s.returnedPrompt == Some(e.returnedPrompt) && e.sentPrompt == config.sentPrompt
    ensures BearsTokens(config, s.events, e)
  {
    var said := Sayings(config, s.events);
    assert TextsOf(said) == s.textParts;
    assert e.tokenEvents[0] == Told(said[0], true);
    forall k | 1 <= k < |said| ensures !said[k].choice.prompt.Ids? {
      OnePromptAtMost(config, s.events, 0, k);
    }
  }

  // ---------------------------------------------------------------- what is observed is what was parsed

  function Datas(bodyReads: seq<BodyRead>): seq<Bytes> {
    if bodyReads == [] then [] else [bodyReads[0].data] + Datas(bodyReads[1..])
  }

  function FramesIn(events: seq<RetainedEvent>): (frames: seq<SSEFrame>)
    ensures |frames| == |events|
  {
    seq(|events|, i requires 0 <= i < |events| => events[i].frame)
  }

  lemma OneReadIsParsed(decode: Decoder, run: ParserRun, lastAt: Nanos, read: BodyRead, clock: FrameClock)
    requires run.fault == NoFault && ObserveOne(decode, run.buffer, run.done, lastAt, read, clock).Some?
    ensures var o := ObserveOne(decode, run.buffer, run.done, lastAt, read, clock).value;
            Read(decode, run, read.data) == ParserRun(run.frames + FramesIn(o.events), o.buffer, o.done, NoFault)
  {
    var frames := FeedOf(decode, run.buffer, run.done, read.data).status.frames;
    var o := ObserveOne(decode, run.buffer, run.done, lastAt, read, clock).value;
    assert FramesIn(o.events) == frames;
  }

  lemma {:induction false} ReadsAreParsed(
    decode: Decoder, earlier: seq<Bytes>, lastAt: Nanos, bodyReads: seq<BodyRead>, clock: FrameClock)
    requires var run := ReadAll(decode, earlier);
             run.fault == NoFault && Observe(decode, run.buffer, run.done, lastAt, bodyReads, clock).Some?
    ensures var run := ReadAll(decode, earlier);
            var o := Observe(decode, run.buffer, run.done, lastAt, bodyReads, clock).value;
            ReadAll(decode, earlier + Datas(bodyReads))
            == ParserRun(run.frames + FramesIn(o.events), o.buffer, o.done, NoFault)
    decreases |bodyReads|
  {
    var run := ReadAll(decode, earlier);
    if bodyReads == [] {
      ConcatNothing(earlier);
      ConcatNothing(run.frames);
    } else {
      var data := bodyReads[0].data;
      OneReadIsParsed(decode, run, lastAt, bodyReads[0], clock);
      ReadAllSnoc(decode, earlier, data);
      var first := ObserveOne(decode, run.buffer, run.done, lastAt, bodyReads[0], clock).value;
      ReadsAreParsed(decode, earlier + [data], first.lastAt, bodyReads[1..], first.clock);
      var rest := Observe(decode, first.buffer, first.done, first.lastAt, bodyReads[1..], first.clock).value;
      ParsedAdd(decode, earlier, data, Datas(bodyReads[1..]), run.frames, first.events, rest);
    }
  }

  lemma ParsedAdd(
    decode: Decoder, earlier: seq<Bytes>, data: Bytes, more: seq<Bytes>, frames: seq<SSEFrame>,
    events: seq<RetainedEvent>, rest: Observed)
    requires ReadAll(decode, earlier + [data] + more)
             == ParserRun(frames + FramesIn(events) + FramesIn(rest.events), rest.buffer, rest.done, NoFault)
    ensures ReadAll(decode, earlier + ([data] + more))
            == ParserRun(frames + FramesIn(events + rest.events), rest.buffer, rest.done, NoFault)
  {
    ConcatAssociates(earlier, [data], more);
    assert FramesIn(events + rest.events) == FramesIn(events) + FramesIn(rest.events);
    ConcatAssociates(frames, FramesIn(events), FramesIn(rest.events));
  }

  /** The events of a run are the frames that the parser reads from its chunks, in order. */
  lemma SeenIsParsed(config: Config, live: LiveInput)
    requires Seen(config, live).Some?
    ensures var seen := Seen(config, live).value;
            ReadAll(config.decode, Datas(live.bodyReads))
            == ParserRun(FramesIn(seen.events), seen.buffer, seen.done, NoFault)
  {
    ReadsAreParsed(config.decode, [], live.headersAt, live.bodyReads, live.clock);
    ConcatNothing(FramesIn(Seen(config, live).value.events));
    assert [] + Datas(live.bodyReads) == Datas(live.bodyReads);
  }

  /** They are the frames that the server sent, however its bytes came in. */
  lemma SeenIsSent(config: Config, live: LiveInput, raws: seq<Bytes>)
    requires Seen(config, live).Some? && Flatten(Datas(live.bodyReads)) == Wire(raws)
    requires forall i :: 0 <= i < |raws| ==> IsFrameBytes(raws[i])
    ensures var seen, sent := Seen(config, live).value, FramesOf(config.decode, raws, false);
            sent.Returned? && FramesIn(seen.events) == sent.value.0 && seen.buffer == []
  {
    SeenIsParsed(config, live);
    AnyChunkingDeliversTheFrames(config.decode, raws, Datas(live.bodyReads));
  }
}
