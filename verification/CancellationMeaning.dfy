/** What a cancellation stream means, told from its frames alone: which frames may follow which, what the
    record takes from them, and which live runs complete. The state of the capture does not occur here. */
module CancellationMeaning {
  import opened Prelude
  import opened Sse
  import opened Payload
  import opened CancellationCapture
  import opened CancellationReplay

  // ---------------------------------------------------------------- frames

  /** A response that brings tokens and nothing else, to this request. */
  predicate BringsTokens(config: Config, r: Response) {
    && r.Response? && r.id == "cmpl-" + config.externalId && r.usage.Absent? && r.metrics.Absent?
    && r.choices.Items? && |r.choices.items| == 1
    && var choice := r.choices.items[0];
       && choice.Choice? && choice.indexIsZero && choice.text.Some? && choice.finish.NotFinished?
       && choice.tokenIds.Ids? && |choice.tokenIds.ids| >= 1
  }

  /** Comments, and data that brings tokens: the first with the prompt that was sent, others without. */
  predicate FrameMayFollow(config: Config, isFirst: bool, frame: SSEFrame) {
    match frame.kind
    case Comment => true
    case Done => false
    case Data =>
      && frame.data.Some? && BringsTokens(config, config.decodeJson(frame.data.value))
      && var prompt := config.decodeJson(frame.data.value).choices.items[0].prompt;
         if isFirst then prompt == Ids(config.sentPrompt) else prompt == Missing || prompt == Null
  }

  predicate HasData(frames: seq<SSEFrame>) {
    exists i :: 0 <= i < |frames| && frames[i].kind.Data?
  }

  predicate FramesMayFollow(config: Config, noneYet: bool, frames: seq<SSEFrame>) {
    forall i :: 0 <= i < |frames| ==> FrameMayFollow(config, noneYet && !HasData(frames[..i]), frames[i])
  }

  /** Frames as events, numbered and stamped. */
  function EventsFrom(ordinal: nat, frames: seq<SSEFrame>, at: Nanos): (events: seq<Event>)
    ensures |events| == |frames|
  {
    seq(|frames|, i requires 0 <= i < |frames| => Event(ordinal + i, at, frames[i]))
  }

  /** The generation events among them. */
  function GenerationsFrom(config: Config, ordinal: nat, frames: seq<SSEFrame>, at: Nanos): seq<Generation>
    decreases |frames|
  {
    if frames == [] then []
    else
      var others := GenerationsFrom(config, ordinal + 1, frames[1..], at);
      if !frames[0].kind.Data? || frames[0].data.None? then others
      else
        var r := config.decodeJson(frames[0].data.value);
        if BringsTokens(config, r) then [GenerationOf(r.choices.items[0], ordinal, at)] + others else others
  }

  function GenerationOf(choice: Choice, ordinal: nat, at: Nanos): Generation
    requires choice.Choice? && choice.text.Some? && choice.tokenIds.Ids?
  {
    Generation(ordinal, at, choice.tokenIds.ids, choice.text.value,
               if choice.prompt.Ids? then Some(choice.prompt.ids) else None)
  }

  lemma HasDataCons(frames: seq<SSEFrame>, i: nat)
    requires 0 < i <= |frames|
    ensures HasData(frames[..i]) <==> frames[0].kind.Data? || HasData(frames[1..][..i - 1])
  {
    assert frames[..i] == [frames[0]] + frames[1..][..i - 1];
    var front, more := frames[..i], frames[1..][..i - 1];
    assert front[0] == frames[0] && forall j :: 0 <= j < |more| ==> front[j + 1] == more[j];
    if HasData(front) && !frames[0].kind.Data? {
      var j :| 0 <= j < |front| && front[j].kind.Data?;
      assert more[j - 1].kind.Data?;
    }
  }

  lemma MayFollowCons(config: Config, noneYet: bool, frames: seq<SSEFrame>)
    requires frames != []
    ensures FramesMayFollow(config, noneYet, frames)
            <==> && FrameMayFollow(config, noneYet, frames[0])
                 && FramesMayFollow(config, noneYet && !frames[0].kind.Data?, frames[1..])
  {
    var rest, later := frames[1..], noneYet && !frames[0].kind.Data?;
    assert frames[..0] == [];
    forall i | 0 <= i < |rest|
      ensures FrameMayFollow(config, later && !HasData(rest[..i]), rest[i])
              <==> FrameMayFollow(config, noneYet && !HasData(frames[..i + 1]), frames[i + 1])
    {
      HasDataCons(frames, i + 1);
    }
    if FramesMayFollow(config, noneYet, frames) {
      forall i | 0 <= i < |rest| ensures FrameMayFollow(config, later && !HasData(rest[..i]), rest[i]) {
        assert FrameMayFollow(config, noneYet && !HasData(frames[..i + 1]), frames[i + 1]);
      }
    }
    if FrameMayFollow(config, noneYet, frames[0]) && FramesMayFollow(config, later, rest) {
      forall i | 0 <= i < |frames| ensures FrameMayFollow(config, noneYet && !HasData(frames[..i]), frames[i]) {
        assert i > 0 ==> FrameMayFollow(config, later && !HasData(rest[..i - 1]), rest[i - 1]);
      }
    }
  }

  /** What frames of one read do to the capture. */
  predicate Took(config: Config, s: Capture, s': Capture, frames: seq<SSEFrame>, at: Nanos, chunkOrdinal: nat) {
    var more := GenerationsFrom(config, |s.events|, frames, at);
    && s'.events == s.events + EventsFrom(|s.events|, frames, at) && s'.generations == s.generations + more
    && s'.delivery == (if s.delivery.Some? || more == [] then s.delivery
                       else Some(Delivery(more[0].ordinal, chunkOrdinal, at, more[0].ids)))
    && SameOutside(s, s')
  }

  lemma FrameIsTakenExactly(config: Config, s: Capture, frame: SSEFrame, at: Nanos, chunkOrdinal: nat)
    requires s.delivery.None? <==> s.generations == []
    ensures AcceptFrame(config, s, frame, at, chunkOrdinal).Returned?
            <==> FrameMayFollow(config, s.generations == [], frame)
    ensures AcceptFrame(config, s, frame, at, chunkOrdinal).Returned? ==>
              var s' := AcceptFrame(config, s, frame, at, chunkOrdinal).value;
              && Took(config, s, s', [frame], at, chunkOrdinal)
              && (s'.delivery.None? <==> s'.generations == [])
              && (s'.generations == [] <==> s.generations == [] && !frame.kind.Data?)
  {
    assert [frame][1..] == [] && EventsFrom(|s.events|, [frame], at) == [Event(|s.events|, at, frame)];
  }

  lemma {:induction false} FramesAreTakenExactly(
    config: Config, s: Capture, frames: seq<SSEFrame>, at: Nanos, chunkOrdinal: nat)
    requires s.delivery.None? <==> s.generations == []
    ensures AcceptFrames(config, s, frames, at, chunkOrdinal).Returned?
            <==> FramesMayFollow(config, s.generations == [], frames)
    ensures AcceptFrames(config, s, frames, at, chunkOrdinal).Returned? ==>
              var s' := AcceptFrames(config, s, frames, at, chunkOrdinal).value;
              && Took(config, s, s', frames, at, chunkOrdinal)
              && (s'.delivery.None? <==> s'.generations == [])
              && (s'.generations == [] <==> s.generations == [] && !HasData(frames))
    decreases |frames|
  {
    if frames == [] {
      assert s.events + [] == s.events && s.generations + [] == s.generations;
    } else {
      FrameIsTakenExactly(config, s, frames[0], at, chunkOrdinal);
      MayFollowCons(config, s.generations == [], frames);
      var first := AcceptFrame(config, s, frames[0], at, chunkOrdinal);
      if first.Returned? {
        FramesAreTakenExactly(config, first.value, frames[1..], at, chunkOrdinal);
        assert frames[..|frames|] == frames && frames[1..][..|frames| - 1] == frames[1..];
        HasDataCons(frames, |frames|);
        var rest := AcceptFrames(config, first.value, frames[1..], at, chunkOrdinal);
        if rest.Returned? {
          TookBoth(config, s, first.value, rest.value, frames, at, chunkOrdinal);
        }
      }
    }
  }

  lemma OneFrameSays(config: Config, ordinal: nat, frames: seq<SSEFrame>, at: Nanos)
    requires frames != []
    ensures GenerationsFrom(config, ordinal, frames, at)
            == GenerationsFrom(config, ordinal, [frames[0]], at) + GenerationsFrom(config, ordinal + 1, frames[1..], at)
  {
    var one, rest := [frames[0]], GenerationsFrom(config, ordinal + 1, frames[1..], at);
    assert one[0] == frames[0] && GenerationsFrom(config, ordinal + 1, one[1..], at) == [];
    assert [] + rest == rest;
  }

  lemma TookBoth(
    config: Config, s: Capture, mid: Capture, s': Capture, frames: seq<SSEFrame>, at: Nanos, chunkOrdinal: nat)
    requires frames != [] && Took(config, s, mid, [frames[0]], at, chunkOrdinal)
    requires Took(config, mid, s', frames[1..], at, chunkOrdinal)
    ensures Took(config, s, s', frames, at, chunkOrdinal)
  {
    var n := |s.events|;
    var first, rest := GenerationsFrom(config, n, [frames[0]], at), GenerationsFrom(config, n + 1, frames[1..], at);
    OneFrameSays(config, n, frames, at);
    assert GenerationsFrom(config, n, frames, at) == first + rest;
    ConcatAssociates(s.generations, first, rest);
    assert EventsFrom(n, frames, at) == EventsFrom(n, [frames[0]], at) + EventsFrom(n + 1, frames[1..], at);
    ConcatAssociates(s.events, EventsFrom(n, [frames[0]], at), EventsFrom(n + 1, frames[1..], at));
  }

  // ---------------------------------------------------------------- reads

  datatype Parsed = Parsed(frames: seq<seq<SSEFrame>>, lastAt: Nanos)

  /** The frames of each read, while no read is empty and no clock goes back. */
  function Parse(decode: Decoder, buffer: Bytes, done: bool, lastAt: Nanos, input: seq<BodyRead>): Option<Parsed>
    decreases |input|
  {
    if input == [] then Some(Parsed([], lastAt))
    else
      var read := input[0];
      var effect := FeedOf(decode, buffer, done, read.data);
      if read.data == [] || read.at < lastAt || !effect.status.Accepted? then None
      else
        var rest := Parse(decode, effect.buffer, effect.done, read.at, input[1..]);
        if rest.None? then None else Some(rest.value.(frames := [effect.status.frames] + rest.value.frames))
  }

  lemma {:induction false} ParsedPerRead(
    decode: Decoder, buffer: Bytes, done: bool, lastAt: Nanos, input: seq<BodyRead>)
    requires Parse(decode, buffer, done, lastAt, input).Some?
    ensures |Parse(decode, buffer, done, lastAt, input).value.frames| == |input|
    decreases |input|
  {
    if input != [] {
      var effect := FeedOf(decode, buffer, done, input[0].data);
      ParsedPerRead(decode, effect.buffer, effect.done, input[0].at, input[1..]);
    }
  }

  /** All reads but the last bring comments only, and the last brings what may follow. */
  predicate ReadsMayFollow(config: Config, frames: seq<seq<SSEFrame>>) {
    forall i :: 0 <= i < |frames| ==>
      FramesMayFollow(config, true, frames[i]) && (i < |frames| - 1 ==> !HasData(frames[i]))
  }

  predicate Delivers(frames: seq<seq<SSEFrame>>) {
    frames != [] && HasData(frames[|frames| - 1])
  }

  function AllEvents(ordinal: nat, input: seq<BodyRead>, frames: seq<seq<SSEFrame>>): seq<Event>
    requires |input| == |frames|
    decreases |input|
  {
    if input == [] then []
    else EventsFrom(ordinal, frames[0], input[0].at) + AllEvents(ordinal + |frames[0]|, input[1..], frames[1..])
  }

  /** The generation events all come from the last read. */
  function AllGenerations(config: Config, ordinal: nat, input: seq<BodyRead>, frames: seq<seq<SSEFrame>>)
    : seq<Generation>
    requires |input| == |frames|
    decreases |input|
  {
    if input == [] then []
    else GenerationsFrom(config, ordinal, frames[0], input[0].at)
         + AllGenerations(config, ordinal + |frames[0]|, input[1..], frames[1..])
  }

  function ChunksOf(input: seq<BodyRead>): seq<BodyChunk> {
    if input == [] then [] else [BodyChunk(input[0].at, input[0].data)] + ChunksOf(input[1..])
  }

  /** The capture behind reads that were accepted. */
  ghost predicate TookReads(config: Config, s: Capture, s': Capture, input: seq<BodyRead>, p: Parsed) {
    && |p.frames| == |input| && s'.lastAt == p.lastAt && s'.chunks == s.chunks + ChunksOf(input)
    && s'.events == s.events + AllEvents(|s.events|, input, p.frames)
    && s'.headersAt == s.headersAt && s'.closeAt == s.closeAt && s'.closedAt == s.closedAt
    && var more := AllGenerations(config, |s.events|, input, p.frames);
       && s'.generations == more && (more != [] <==> Delivers(p.frames))
       && s'.delivery == DeliveryOf(more, |s'.chunks|, p.lastAt)
  }

  /** The first of the generation events, delivered with the last chunk. */
  function DeliveryOf(generations: seq<Generation>, chunks: int, at: Nanos): Option<Delivery> {
    if generations == [] || chunks <= 0 then None
    else Some(Delivery(generations[0].ordinal, chunks - 1, at, generations[0].ids))
  }

  /** A capture that has its headers, and from which nothing has been delivered. */
  predicate IsWaiting(s: Capture) {
    s.headersAt.Some? && s.closeAt.None? && s.closedAt.None? && s.delivery.None? && s.generations == []
  }

  lemma {:induction false} GenerationsNeedData(config: Config, ordinal: nat, frames: seq<SSEFrame>, at: Nanos)
    requires !HasData(frames)
    ensures GenerationsFrom(config, ordinal, frames, at) == []
    decreases |frames|
  {
    if frames != [] {
      assert forall j :: 0 <= j < |frames[1..]| ==> frames[1..][j] == frames[j + 1];
      GenerationsNeedData(config, ordinal + 1, frames[1..], at);
    }
  }

  lemma ReadIsTakenExactly(config: Config, s: Capture, read: BodyRead)
    requires IsWaiting(s)
    ensures var effect := FeedOf(config.decode, s.buffer, s.done, read.data);
            Feed(config, s, read.data, read.at).Returned?
            <==> read.data != [] && s.lastAt <= read.at && effect.status.Accepted?
                 && FramesMayFollow(config, true, effect.status.frames)
    ensures Feed(config, s, read.data, read.at).Returned? ==>
              var s', effect := Feed(config, s, read.data, read.at).value,
                                FeedOf(config.decode, s.buffer, s.done, read.data);
              && TookReads(config, s, s', [read], Parsed([effect.status.frames], read.at))
              && s'.buffer == effect.buffer && s'.done == effect.done
  {
    var started := StartRead(config, s, read.data, read.at);
    if started.Returned? {
      FramesAreTakenExactly(config, started.value.0, started.value.1, read.at, |s.chunks|);
      assert [read][1..] == [];
    }
  }

  /** `r` is what becomes of reads that parse as `p`, if they parse. */
  ghost predicate IsTaking(
    config: Config, s: Capture, input: seq<BodyRead>, p: Option<Parsed>, r: Result<Capture>) {
    && (r.Returned? <==> p.Some? && ReadsMayFollow(config, p.value.frames))
    && (r.Returned? ==> TookReads(config, s, r.value, input, p.value))
  }

  function EndOf(config: Config, s: Capture, input: seq<BodyRead>): Result<Capture> {
    var run := RunReads(config, s, input);
    if run.Raised? then Raised else Returned(run.value.0)
  }

  lemma {:induction false} ReadsAreTakenExactly(config: Config, s: Capture, input: seq<BodyRead>)
    requires IsWaiting(s)
    ensures IsTaking(config, s, input, Parse(config.decode, s.buffer, s.done, s.lastAt, input), EndOf(config, s, input))
    decreases |input|
  {
    var p := Parse(config.decode, s.buffer, s.done, s.lastAt, input);
    if input == [] {
      assert s.events + [] == s.events && s.chunks + [] == s.chunks;
    } else {
      ReadIsTakenExactly(config, s, input[0]);
      var first := Feed(config, s, input[0].data, input[0].at);
      var frames := FeedOf(config.decode, s.buffer, s.done, input[0].data).status;
      if first.Raised? {
        assert p.Some? ==> !FramesMayFollow(config, true, p.value.frames[0]);
      } else if first.value.delivery.None? {
        assert !HasData(frames.frames);
        ReadsAreTakenExactly(config, first.value, input[1..]);
        RestIsParsed(config.decode, first.value.buffer, first.value.done, input[0].at, input[1..]);
        TakingCons(config, s, first.value, input, frames.frames,
          Parse(config.decode, first.value.buffer, first.value.done, input[0].at, input[1..]),
          EndOf(config, first.value, input[1..]));
      } else {
        DeliveredAtOnce(config, s, first.value, input, p, frames.frames);
      }
    }
  }

  lemma RestIsParsed(decode: Decoder, buffer: Bytes, done: bool, lastAt: Nanos, input: seq<BodyRead>)
    ensures var p := Parse(decode, buffer, done, lastAt, input); p.Some? ==> |p.value.frames| == |input|
  {
    if Parse(decode, buffer, done, lastAt, input).Some? {
      ParsedPerRead(decode, buffer, done, lastAt, input);
    }
  }

  /** What one read adds. */
  lemma OneReadAdds(config: Config, ordinal: nat, read: BodyRead, frames: seq<SSEFrame>)
    ensures ChunksOf([read]) == [BodyChunk(read.at, read.data)]
    ensures AllEvents(ordinal, [read], [frames]) == EventsFrom(ordinal, frames, read.at)
    ensures AllGenerations(config, ordinal, [read], [frames]) == GenerationsFrom(config, ordinal, frames, read.at)
  {
    assert [read][1..] == [] && [frames][1..] == [];
    ConcatNothing(EventsFrom(ordinal, frames, read.at));
    ConcatNothing(GenerationsFrom(config, ordinal, frames, read.at));
  }

  lemma {:induction false} TakingCons(
    config: Config, s: Capture, next: Capture, input: seq<BodyRead>, frames: seq<SSEFrame>, p: Option<Parsed>,
    r: Result<Capture>)
    requires input != [] && IsWaiting(s) && FramesMayFollow(config, true, frames) && !HasData(frames)
    requires TookReads(config, s, next, [input[0]], Parsed([frames], input[0].at))
    requires IsTaking(config, next, input[1..], p, r) && (p.Some? ==> |p.value.frames| == |input| - 1)
    ensures var whole := if p.None? then None else Some(p.value.(frames := [frames] + p.value.frames));
            IsTaking(config, s, input, whole, r)
  {
    if p.Some? {
      var all := [frames] + p.value.frames;
      assert all[1..] == p.value.frames;
      assert ReadsMayFollow(config, all) <==> ReadsMayFollow(config, p.value.frames) by {
        ReadsFollowCons(config, frames, p.value.frames);
      }
      if r.Returned? {
        TookCons(config, s, next, r.value, input, frames, p.value);
      }
    }
  }

  lemma {:induction false} ReadsFollowCons(config: Config, first: seq<SSEFrame>, frames: seq<seq<SSEFrame>>)
    requires FramesMayFollow(config, true, first) && !HasData(first)
    ensures ReadsMayFollow(config, [first] + frames) <==> ReadsMayFollow(config, frames)
  {
    var all := [first] + frames;
    assert forall i :: 0 <= i < |frames| ==> all[i + 1] == frames[i];
    if ReadsMayFollow(config, all) {
      forall i | 0 <= i < |frames|
        ensures FramesMayFollow(config, true, frames[i]) && (i < |frames| - 1 ==> !HasData(frames[i]))
      {
        assert FramesMayFollow(config, true, all[i + 1]) && (i + 1 < |all| - 1 ==> !HasData(all[i + 1]));
      }
    }
  }

  lemma {:induction false} TookCons(
    config: Config, s: Capture, next: Capture, s': Capture, input: seq<BodyRead>, frames: seq<SSEFrame>, p: Parsed)
    requires input != [] && IsWaiting(s) && !HasData(frames) && |p.frames| == |input| - 1
    requires TookReads(config, s, next, [input[0]], Parsed([frames], input[0].at))
    requires TookReads(config, next, s', input[1..], p)
    ensures TookReads(config, s, s', input, p.(frames := [frames] + p.frames))
  {
    var n, all := |s.events|, [frames] + p.frames;
    OneReadAdds(config, n, input[0], frames);
    GenerationsNeedData(config, n, frames, input[0].at);
    assert all[1..] == p.frames;
    ConcatAssociates(s.events, EventsFrom(n, frames, input[0].at), AllEvents(n + |frames|, input[1..], p.frames));
    ConcatAssociates(s.chunks, ChunksOf([input[0]]), ChunksOf(input[1..]));
    assert Delivers(all) <==> Delivers(p.frames);
  }

  lemma {:induction false} DeliveredAtOnce(
    config: Config, s: Capture, next: Capture, input: seq<BodyRead>, p: Option<Parsed>, frames: seq<SSEFrame>)
    requires input != [] && IsWaiting(s) && FramesMayFollow(config, true, frames) && HasData(frames)
    requires p == Parse(config.decode, s.buffer, s.done, s.lastAt, input)
    requires Feed(config, s, input[0].data, input[0].at) == Returned(next) && next.delivery.Some?
    requires FeedOf(config.decode, s.buffer, s.done, input[0].data).status == Accepted(frames)
    requires TookReads(config, s, next, [input[0]], Parsed([frames], input[0].at))
    ensures IsTaking(config, s, input, p, EndOf(config, s, input))
  {
    if |input| == 1 {
      assert input == [input[0]] && input[1..] == [];
      assert RunReads(config, next, []) == Returned((next, []));
      assert [frames] + [] == [frames];
      assert p == Some(Parsed([frames], input[0].at));
    } else {
      NoReadBehind(config, next, input[1..]);
      if p.Some? {
        ParsedPerRead(config.decode, s.buffer, s.done, s.lastAt, input);
        assert p.value.frames[0] == frames;
      }
    }
  }

  lemma {:induction false} NoReadBehind(config: Config, s: Capture, input: seq<BodyRead>)
    requires s.delivery.Some? && input != []
    ensures RunReads(config, s, input).Raised?
  {
  }

  // ---------------------------------------------------------------- which live runs complete

  /** The record of a completed run is what its reads brought. */
  ghost predicate RecordsReads(config: Config, s: Capture, live: LiveInput, p: Parsed) {
    && |p.frames| == |live.input| && s.chunks == ChunksOf(live.input)
    && s.events == AllEvents(0, live.input, p.frames)
    && s.generations == AllGenerations(config, 0, live.input, p.frames) && s.generations != []
    && s.delivery == DeliveryOf(s.generations, |live.input|, p.lastAt)
    && s.headersAt == Some(live.headersAt) && s.closeAt == Some(live.closeAt) && s.closedAt == Some(live.closedAt)
  }

  /** Which cancellation runs complete, exactly, told from what the transport brought: the request's own
      headers not before the dispatch, reads of bytes that parse into frames at clocks that do not go back,
      comments only until one last read brings tokens, the prompt with the first of them, and then the close
      and its completion. The record holds the frames as they were read, and the tokens they brought. */
  lemma LiveRunExactly(config: Config, live: LiveInput)
    ensures var p := Parse(config.decode, [], false, live.headersAt, live.input);
            && (LiveRun(config, live).Returned?
                <==> && live.xRequestId == config.externalId && config.dispatchAt <= live.headersAt
                     && p.Some? && ReadsMayFollow(config, p.value.frames) && Delivers(p.value.frames)
                     && p.value.lastAt <= live.closeAt <= live.closedAt)
            && (LiveRun(config, live).Returned? ==> RecordsReads(config, LiveRun(config, live).value.0, live, p.value))
  {
    var headed := AcceptHeaders(config, Opened(config), live.xRequestId, live.headersAt);
    if headed.Returned? {
      ReadsAreTakenExactly(config, headed.value, live.input);
      if EndOf(config, headed.value, live.input).Returned? {
        CloseExactly(config, headed.value, EndOf(config, headed.value, live.input).value, live,
          Parse(config.decode, [], false, live.headersAt, live.input).value);
      }
    }
  }

  lemma {:induction false} CloseExactly(config: Config, headed: Capture, s: Capture, live: LiveInput, p: Parsed)
    requires TookReads(config, headed, s, live.input, p) && headed.events == [] && headed.chunks == []
    requires headed.headersAt == Some(live.headersAt) && IsWaiting(headed)
    ensures CloseBoth(s, live.closeAt, live.closedAt).Returned?
            <==> Delivers(p.frames) && p.lastAt <= live.closeAt <= live.closedAt
    ensures CloseBoth(s, live.closeAt, live.closedAt).Returned? ==>
              RecordsReads(config, CloseBoth(s, live.closeAt, live.closedAt).value, live, p)
  {
    assert headed.chunks + ChunksOf(live.input) == ChunksOf(live.input);
    ChunksPerRead(live.input);
    assert headed.events + AllEvents(0, live.input, p.frames) == AllEvents(0, live.input, p.frames);
  }

  lemma {:induction false} ChunksPerRead(input: seq<BodyRead>)
    ensures |ChunksOf(input)| == |input|
  {
    if input != [] {
      ChunksPerRead(input[1..]);
    }
  }
}
