/** The cancellation stream of `stage2_protocol.py`, retained up to its first generation delivery and
    the client's intentional close, and its replay from the retained chunks. */
module CancellationCapture {
  import opened Prelude
  import opened Sse
  import opened Payload
  import opened SseChunking

  datatype Config = Config(externalId: string, sentPrompt: TokenIds, dispatchAt: Nanos, decode: Decoder,
    decodeJson: JsonDecoder)

  datatype BodyChunk = BodyChunk(at: Nanos, data: Bytes)
  datatype Event = Event(ordinal: nat, at: Nanos, frame: SSEFrame)
  datatype Generation = Generation(ordinal: nat, at: Nanos, ids: TokenIds, text: string, prompt: Option<TokenIds>)
  datatype Delivery = Delivery(eventOrdinal: nat, chunkOrdinal: nat, at: Nanos, ids: TokenIds)

  datatype Capture = Capture(
    buffer: Bytes,
    done: bool,
    headersAt: Option<Nanos>,
    chunks: seq<BodyChunk>,
    events: seq<Event>,
    generations: seq<Generation>,
    delivery: Option<Delivery>,
    closeAt: Option<Nanos>,
    closedAt: Option<Nanos>,
    lastAt: Nanos)

  function Opened(config: Config): Capture {
    Capture([], false, None, [], [], [], None, None, None, config.dispatchAt)
  }

  function Datas(chunks: seq<BodyChunk>): seq<Bytes> {
    if chunks == [] then [] else Datas(chunks[..|chunks| - 1]) + [chunks[|chunks| - 1].data]
  }

  function RawBody(chunks: seq<BodyChunk>): Bytes {
    Flatten(Datas(chunks))
  }

  // ---------------------------------------------------------------- the steps, as functions

  function AcceptHeaders(config: Config, s: Capture, xRequestId: string, at: Nanos): Result<Capture> {
    if s.headersAt.Some? || xRequestId != config.externalId || at < s.lastAt then Raised
    else Returned(s.(lastAt := at, headersAt := Some(at)))
  }

  /** What a data frame must decode to while the stream is still open: one plain generation event. */
  predicate IsGeneration(config: Config, response: Response) {
    && response.Response? && response.id == ResponseId(config.externalId)
    && response.usage.Absent? && response.metrics.Absent?
    && response.choices.Items? && |response.choices.items| == 1
    && var choice := response.choices.items[0];
       && choice.Choice? && choice.indexIsZero && choice.finish.NotFinished? && choice.text.Some?
       && choice.tokenIds.Ids? && choice.tokenIds.ids != []
  }

  /** The prompt ids belong on the first generation event and nowhere else. */
  predicate PromptFits(config: Config, s: Capture, prompt: IdsField) {
    if s.generations == [] then prompt == Ids(config.sentPrompt) else prompt.Missing? || prompt.Null?
  }

  function AcceptFrame(config: Config, s: Capture, frame: SSEFrame, at: Nanos, chunkOrdinal: nat): Result<Capture> {
    var ordinal := |s.events|;
    var kept := s.(events := s.events + [Event(ordinal, at, frame)]);
    if frame.kind.Comment? then Returned(kept)
    else if frame.kind.Done? || frame.data.None? then Raised
    else
      var response := config.decodeJson(frame.data.value);
      if !IsGeneration(config, response) || !PromptFits(config, s, response.choices.items[0].prompt) then Raised
      else
        var choice := response.choices.items[0];
        var ids := choice.tokenIds.ids;
        var prompt := if choice.prompt.Ids? then Some(choice.prompt.ids) else None;
        Returned(kept.(generations := s.generations + [Generation(ordinal, at, ids, choice.text.value, prompt)],
                       delivery := if s.delivery.None? then Some(Delivery(ordinal, chunkOrdinal, at, ids))
                         else s.delivery))
  }

  function AcceptFrames(
    config: Config, s: Capture, frames: seq<SSEFrame>, at: Nanos, chunkOrdinal: nat): Result<Capture>
    decreases |frames|
  {
    if frames == [] then Returned(s)
    else
      var next := AcceptFrame(config, s, frames[0], at, chunkOrdinal);
      if next.Raised? then Raised else AcceptFrames(config, next.value, frames[1..], at, chunkOrdinal)
  }

  function StartRead(config: Config, s: Capture, chunk: Bytes, at: Nanos): Result<(Capture, seq<SSEFrame>)> {
    if s.closeAt.Some? || s.delivery.Some? || s.headersAt.None? || chunk == [] || at < s.lastAt then Raised
    else
      var effect := FeedOf(config.decode, s.buffer, s.done, chunk);
      if !effect.status.Accepted? then Raised
      else Returned((s.(lastAt := at, chunks := s.chunks + [BodyChunk(at, chunk)], buffer := effect.buffer,
                        done := effect.done),
                     effect.status.frames))
  }

  function Feed(config: Config, s: Capture, chunk: Bytes, at: Nanos): Result<Capture> {
    var start := StartRead(config, s, chunk, at);
    if start.Raised? then Raised else AcceptFrames(config, start.value.0, start.value.1, at, |s.chunks|)
  }

  function Close(s: Capture, at: Nanos): Result<Capture> {
    if s.closeAt.Some? || at < s.lastAt || s.delivery.None? || at < s.delivery.value.at then Raised
    else Returned(s.(lastAt := at, closeAt := Some(at)))
  }

  function CompleteTransportClose(s: Capture, at: Nanos): Result<Capture> {
    if s.closeAt.None? || s.closedAt.Some? || at < s.lastAt then Raised
    else Returned(s.(lastAt := at, closedAt := Some(at)))
  }

  function PendingBytes(s: Capture): Bytes {
    PendingOf(RawBody(s.chunks))
  }

  class Stage2CancellationStreamCapture {
    const config: Config
    const parser: IncrementalSSEParser
    var headersAt: Option<Nanos>
    var chunks: seq<BodyChunk>
    var events: seq<Event>
    var generations: seq<Generation>
    var delivery: Option<Delivery>
    var closeAt: Option<Nanos>
    var closedAt: Option<Nanos>
    var lastAt: Nanos

    ghost predicate Valid() {
      parser.decode == config.decode
    }

    ghost function View(): Capture
      reads this, parser
    {
      Capture(parser.buffer, parser.done, headersAt, chunks, events, generations, delivery, closeAt, closedAt, lastAt)
    }

    constructor (config: Config)
      ensures Valid() && fresh(parser) && this.config == config && View() == Opened(config)
    {
      this.config := config;
      parser := new IncrementalSSEParser(config.decode);
      headersAt, chunks, events, generations, delivery := None, [], [], [], None;
      closeAt, closedAt, lastAt := None, None, config.dispatchAt;
    }

    method AcceptResponseHeaders(xRequestId: string, at: Nanos) returns (r: Result<()>)
      requires Valid()
      modifies this
      ensures AcceptHeaders(config, old(View()), xRequestId, at) == if r.Returned? then Returned(View()) else Raised
    {
      if headersAt.Some? || xRequestId != config.externalId || at < lastAt {
        return Raised;
      }
      lastAt := at;
      headersAt := Some(at);
      return Returned(());
    }

    /** One body read; the result says whether a generation event has been delivered. */
    method FeedChunk(chunk: Bytes, at: Nanos) returns (r: Result<bool>)
      requires Valid()
      modifies this, parser
      ensures Feed(config, old(View()), chunk, at) == if r.Returned? then Returned(View()) else Raised
      ensures r.Returned? ==> r.value == View().delivery.Some?
    {
      if closeAt.Some? || delivery.Some? || headersAt.None? || chunk == [] || at < lastAt {
        return Raised;
      }
      lastAt := at;
      var chunkOrdinal := |chunks|;
      chunks := chunks + [BodyChunk(at, chunk)];
      var status := parser.Feed(chunk);
      if !status.Accepted? {
        return Raised;
      }
      var frames := status.frames;
      assert StartRead(config, old(View()), chunk, at) == Returned((View(), frames));
      for index := 0 to |frames|
        invariant Feed(config, old(View()), chunk, at)
                  == AcceptFrames(config, View(), frames[index..], at, chunkOrdinal)
      {
        assert frames[index..][0] == frames[index] && frames[index..][1..] == frames[index + 1..];
        var accepted := AcceptOneFrame(frames[index], at, chunkOrdinal);
        if accepted.Raised? {
          return Raised;
        }
      }
      return Returned(delivery.Some?);
    }

    method AcceptOneFrame(frame: SSEFrame, at: Nanos, chunkOrdinal: nat) returns (r: Result<()>)
      requires Valid()
      modifies this
      ensures AcceptFrame(config, old(View()), frame, at, chunkOrdinal)
              == if r.Returned? then Returned(View()) else Raised
    {
      var event := Event(|events|, at, frame);
      events := events + [event];
      if frame.kind.Comment? {
        return Returned(());
      }
      if frame.kind.Done? || frame.data.None? {
        return Raised;
      }
      var response := config.decodeJson(frame.data.value);
      if !IsGeneration(config, response) {
        return Raised;
      }
      var choice := response.choices.items[0];
      var expected := if generations == [] then Some(config.sentPrompt) else None;
      if choice.prompt.BadIds? {
        return Raised;
      }
      var prompt := if choice.prompt.Ids? then Some(choice.prompt.ids) else None;
      if prompt != expected {
        return Raised;
      }
      generations := generations + [Generation(event.ordinal, at, choice.tokenIds.ids, choice.text.value, prompt)];
      if delivery.None? {
        delivery := Some(Delivery(event.ordinal, chunkOrdinal, at, choice.tokenIds.ids));
      }
      return Returned(());
    }

    method CloseByClient(at: Nanos) returns (r: Result<()>)
      requires Valid()
      modifies this
      ensures Close(old(View()), at) == if r.Returned? then Returned(View()) else Raised
    {
      if closeAt.Some? || at < lastAt {
        return Raised;
      }
      lastAt := at;
      if delivery.None? || at < delivery.value.at {
        return Raised;
      }
      closeAt := Some(at);
      return Returned(());
    }

    method CompleteClose(at: Nanos) returns (r: Result<()>)
      requires Valid()
      modifies this
      ensures CompleteTransportClose(old(View()), at) == if r.Returned? then Returned(View()) else Raised
    {
      if closeAt.None? || closedAt.Some? || at < lastAt {
        return Raised;
      }
      lastAt := at;
      closedAt := Some(at);
      return Returned(());
    }
  }

  // ---------------------------------------------------------------- one delivery

  predicate AllComments(events: seq<Event>) {
    forall i :: 0 <= i < |events| ==> events[i].frame.kind.Comment?
  }

  predicate Numbered(events: seq<Event>) {
    forall i :: 0 <= i < |events| ==> events[i].ordinal == i && events[i].frame.kind != FrameKind.Done
  }

  /** A generation event stands on a data frame among events `from` onward, at clock `at`. */
  predicate StandsOn(g: Generation, events: seq<Event>, from: nat, at: Nanos) {
    from <= g.ordinal < |events| && events[g.ordinal].frame.kind.Data? && g.at == at && g.ids != []
  }

  predicate Increasing(generations: seq<Generation>) {
    forall j, k :: 0 <= j < k < |generations| ==> generations[j].ordinal < generations[k].ordinal
  }

  /** Only the first generation event carries the prompt. */
  predicate PromptOnFirst(generations: seq<Generation>) {
    forall k :: 0 <= k < |generations| ==> (generations[k].prompt.Some? <==> k == 0)
  }

  predicate Covers(generations: seq<Generation>, ordinal: nat) {
    exists k :: 0 <= k < |generations| && generations[k].ordinal == ordinal
  }

  /** The generation events stand, in order, on exactly the data frames, all from `from` onward. */
  predicate GenerationsFit(s: Capture, from: nat, at: Nanos) {
    && Numbered(s.events)
    && (forall k :: 0 <= k < |s.generations| ==> StandsOn(s.generations[k], s.events, from, at))
    && Increasing(s.generations)
    && PromptOnFirst(s.generations)
    && (forall i :: 0 <= i < |s.events| && s.events[i].frame.kind.Data? ==> Covers(s.generations, i))
  }

  /** Nothing has been delivered, or the first generation event was, with the last chunk fed. */
  predicate DeliveryFits(s: Capture) {
    && (s.delivery.None? <==> s.generations == [])
    && (s.delivery.Some? ==>
          && s.chunks != [] && s.delivery.value.chunkOrdinal == |s.chunks| - 1
          && s.delivery.value == Delivery(s.generations[0].ordinal, |s.chunks| - 1, s.chunks[|s.chunks| - 1].at,
             s.generations[0].ids))
  }

  predicate Waiting(s: Capture) {
    && s.delivery.None? && s.generations == [] && AllComments(s.events)
    && forall i :: 0 <= i < |s.events| ==> s.events[i].ordinal == i
  }

  ghost predicate Fits(s: Capture, from: nat, at: Nanos) {
    && s.chunks != [] && s.chunks[|s.chunks| - 1].at == at && from <= |s.events|
    && GenerationsFit(s, from, at) && DeliveryFits(s)
  }

  predicate SameOutside(s: Capture, s': Capture) {
    && s'.chunks == s.chunks && s'.closeAt == s.closeAt && s'.closedAt == s.closedAt && s'.headersAt == s.headersAt
       && s'.lastAt == s.lastAt
    && s'.buffer == s.buffer && s'.done == s.done
  }

  lemma {:induction false} FramesFit(config: Config, s: Capture, frames: seq<SSEFrame>, at: Nanos, from: nat)
    requires Fits(s, from, at)
    requires AcceptFrames(config, s, frames, at, |s.chunks| - 1).Returned?
    ensures var s' := AcceptFrames(config, s, frames, at, |s.chunks| - 1).value;
            && Fits(s', from, at) && SameOutside(s, s') && s.events <= s'.events
            && forall i :: |s.events| <= i < |s'.events| ==> s'.events[i].at == at
    decreases |frames|
  {
    if frames != [] {
      var s1 := AcceptFrame(config, s, frames[0], at, |s.chunks| - 1).value;
      OneFrameFits(config, s, frames[0], at, from);
      FramesFit(config, s1, frames[1..], at, from);
    }
  }

  lemma OneFrameFits(config: Config, s: Capture, frame: SSEFrame, at: Nanos, from: nat)
    requires Fits(s, from, at)
    requires AcceptFrame(config, s, frame, at, |s.chunks| - 1).Returned?
    ensures var s' := AcceptFrame(config, s, frame, at, |s.chunks| - 1).value;
            Fits(s', from, at) && SameOutside(s, s') && s'.events == s.events + [Event(|s.events|, at, frame)]
  {
    if frame.kind.Comment? {
      CommentFits(s, AcceptFrame(config, s, frame, at, |s.chunks| - 1).value, frame, at, from);
    } else {
      GenerationFits(config, s, frame, at, from);
    }
  }

  lemma CommentFits(s: Capture, s': Capture, frame: SSEFrame, at: Nanos, from: nat)
    requires Fits(s, from, at) && frame.kind.Comment?
    requires s' == s.(events := s.events + [Event(|s.events|, at, frame)])
    ensures Fits(s', from, at)
  {
  }

  lemma GenerationFits(config: Config, s: Capture, frame: SSEFrame, at: Nanos, from: nat)
    requires Fits(s, from, at) && !frame.kind.Comment?
    requires AcceptFrame(config, s, frame, at, |s.chunks| - 1).Returned?
    ensures var s' := AcceptFrame(config, s, frame, at, |s.chunks| - 1).value;
            Fits(s', from, at) && SameOutside(s, s') && s'.events == s.events + [Event(|s.events|, at, frame)]
  {
    var s' := AcceptFrame(config, s, frame, at, |s.chunks| - 1).value;
    var g := s'.generations[|s.generations|];
    assert frame.kind.Data? && s'.generations == s.generations + [g] && g.ordinal == |s.events|;
    assert g.prompt.Some? <==> s.generations == [];
    assert s'.events == s.events + [Event(|s.events|, at, frame)];
    GenerationAppends(s.events, s.generations, Event(|s.events|, at, frame), g, from, at);
  }

  lemma GenerationAppends(
    events: seq<Event>, generations: seq<Generation>, event: Event, g: Generation, from: nat, at: Nanos)
    requires forall k :: 0 <= k < |generations| ==> StandsOn(generations[k], events, from, at)
    requires forall i :: 0 <= i < |events| && events[i].frame.kind.Data? ==> Covers(generations, i)
    requires Increasing(generations) && from <= |events| && g.ordinal == |events|
    ensures Increasing(generations + [g])
    ensures forall k :: 0 <= k < |generations| ==> StandsOn(generations[k], events + [event], from, at)
    ensures forall i :: 0 <= i < |events + [event]| && (events + [event])[i].frame.kind.Data? ==>
            Covers(generations + [g], i)
  {
    forall i | 0 <= i < |events + [event]| && (events + [event])[i].frame.kind.Data?
      ensures Covers(generations + [g], i)
    {
      if i < |events| {
        var k :| 0 <= k < |generations| && generations[k].ordinal == i;
        assert (generations + [g])[k].ordinal == i;
      } else {
        assert (generations + [g])[|generations|].ordinal == i;
      }
    }
  }

  lemma ReadFits(config: Config, s: Capture, chunk: Bytes, at: Nanos)
    requires Waiting(s) && Feed(config, s, chunk, at).Returned?
    ensures var s' := Feed(config, s, chunk, at).value;
            && Fits(s', |s.events|, at)
            && s.events <= s'.events && s'.chunks == s.chunks + [BodyChunk(at, chunk)]
            && (forall i :: |s.events| <= i < |s'.events| ==> s'.events[i].at == at)
            && s'.lastAt == at && s'.closeAt == s.closeAt && s'.closedAt == s.closedAt && s'.closeAt.None?
  {
    var start := StartRead(config, s, chunk, at).value;
    assert Fits(start.0, |s.events|, at);
    FramesFit(config, start.0, start.1, at, |s.events|);
  }

  /** The main result: reads accept only comment frames until one read delivers; every generation
      event then comes from that read and shares its clock, the delivery is the first of them, and no
      further read is accepted. */
  lemma OneDelivery(config: Config, s: Capture, chunk: Bytes, at: Nanos)
    requires Waiting(s) && Feed(config, s, chunk, at).Returned?
    ensures var s' := Feed(config, s, chunk, at).value;
            && Fits(s', |s.events|, at)
            && s.events <= s'.events && s'.chunks == s.chunks + [BodyChunk(at, chunk)]
            && (forall i :: |s.events| <= i < |s'.events| ==> s'.events[i].at == at)
            && s'.lastAt == at && s'.closeAt == s.closeAt && s'.closedAt == s.closedAt
            && (s'.delivery.None? ==> Waiting(s'))
            && (s'.delivery.Some? ==> forall more, later :: Feed(config, s', more, later).Raised?)
  {
    var s' := Feed(config, s, chunk, at).value;
    ReadFits(config, s, chunk, at);
    if s'.delivery.None? {
      forall i | 0 <= i < |s'.events| ensures s'.events[i].frame.kind.Comment? {}
    }
  }
}
