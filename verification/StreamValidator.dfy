/** `Stage2StreamValidator` as the object it is: fields that every call rewrites, proved against the
    step functions of `StreamProtocol`. */
module StreamValidator {
  import opened Prelude
  import opened Sse
  import opened Payload
  import opened StreamContract
  import Spec = StreamProtocol

  class Stage2StreamValidator {
    const config: Spec.Config
    const parser: IncrementalSSEParser
    var frameClock: Spec.FrameClock
    var headersAt: Option<Nanos>
    var firstBodyAt: Option<Nanos>
    var generationAt: Option<Nanos>
    var usageAt: Option<Nanos>
    var protocolAt: Option<Nanos>
    var transportAt: Option<Nanos>
    var tokenEvents: seq<TokenEvent>
    var returnedPrompt: Option<TokenIds>
    var outputIds: TokenIds
    var textParts: seq<string>
    var metrics: Option<ServerMetrics>
    var terminalCarriedTokens: Option<bool>
    var lastAt: Nanos
    var chunks: seq<Spec.BodyChunk>
    var events: seq<Spec.RetainedEvent>

    ghost predicate Valid() {
      parser.decode == config.decode
    }

    ghost function View(): Spec.Stream
      reads this, parser
    {
      Spec.Stream(parser.buffer, parser.done, headersAt, firstBodyAt, generationAt, usageAt, protocolAt, transportAt,
                  tokenEvents, returnedPrompt, outputIds, textParts, metrics, terminalCarriedTokens, lastAt, chunks,
                  events)
    }

    constructor (config: Spec.Config, frameClock: Spec.FrameClock)
      ensures Valid() && fresh(parser) && this.config == config && this.frameClock == frameClock
      ensures View() == Spec.Opened(config)
    {
      this.config := config;
      this.frameClock := frameClock;
      parser := new IncrementalSSEParser(config.decode);
      headersAt, firstBodyAt, generationAt, usageAt, protocolAt, transportAt := None, None, None, None, None, None;
      tokenEvents, returnedPrompt, outputIds, textParts := [], None, [], [];
      metrics, terminalCarriedTokens := None, None;
      lastAt, chunks, events := config.dispatchAt, [], [];
    }

    method AcceptResponseHeaders(xRequestId: string, at: Nanos) returns (r: Result<()>)
      requires Valid()
      modifies this
      ensures Spec.AcceptHeaders(config, old(View()), xRequestId, at)
              == if r.Returned? then Returned(View()) else Raised
      ensures frameClock == old(frameClock)
    {
      if headersAt.Some? || xRequestId != config.externalId || at < lastAt {
        return Raised;
      }
      lastAt := at;
      headersAt := Some(at);
      return Returned(());
    }

    /** One body read; the frames behind the first are stamped by the frame clock. */
    method Feed(chunk: Bytes, at: Nanos) returns (r: Result<()>)
      requires Valid()
      modifies this, parser
      ensures Spec.Feed(config, old(View()), chunk, at, old(frameClock))
              == if r.Returned? then Returned((View(), frameClock)) else Raised
    {
      var started := StartRead(chunk, at);
      if started.Raised? {
        return Raised;
      }
      var frames := started.value;
      if frames == [] {
        return Returned(());
      }
      r := AcceptFrame(frames[0], at);
      if r.Raised? {
        return;
      }
      ghost var rest := Spec.AcceptFrames(config, View(), frames[1..], frameClock);
      for index := 1 to |frames|
        invariant rest == Spec.AcceptFrames(config, View(), frames[index..], frameClock)
      {
        assert frames[index..][0] == frames[index] && frames[index..][1..] == frames[index + 1..];
        r := AcceptTimedFrame(frames[index]);
        if r.Raised? {
          return;
        }
      }
      return Returned(());
    }

    /** The bytes and the clock of a read, up to the frames it completes. */
    method StartRead(chunk: Bytes, at: Nanos) returns (r: Result<seq<SSEFrame>>)
      requires Valid()
      modifies this, parser
      ensures Spec.StartRead(config, old(View()), chunk, at)
              == if r.Returned? then Returned((View(), r.value)) else Raised
      ensures frameClock == old(frameClock)
    {
      if chunk != [] {
        chunks := chunks + [Spec.BodyChunk(at, chunk)];
      }
      if transportAt.Some? || headersAt.None? || at < lastAt {
        return Raised;
      }
      lastAt := at;
      if chunk != [] && firstBodyAt.None? {
        firstBodyAt := Some(at);
      }
      var status := parser.Feed(chunk);
      if !status.Accepted? {
        return Raised;
      }
      return Returned(status.frames);
    }

    /** A frame behind the first of its read: the frame clock, if any, says when it was observed. */
    method AcceptTimedFrame(frame: SSEFrame) returns (r: Result<()>)
      requires Valid()
      modifies this
      ensures Spec.AcceptTimedFrame(config, old(View()), frame, old(frameClock))
              == if r.Returned? then Returned((View(), frameClock)) else Raised
    {
      if frameClock.Some? {
        if frameClock.value == [] || frameClock.value[0] < lastAt {
          return Raised;
        }
        lastAt := frameClock.value[0];
        frameClock := Some(frameClock.value[1..]);
      }
      r := AcceptFrame(frame, lastAt);
    }

    method AcceptFrame(frame: SSEFrame, at: Nanos) returns (r: Result<()>)
      requires Valid()
      modifies this
      ensures Spec.AcceptFrame(config, old(View()), frame, at) == if r.Returned? then Returned(View()) else Raised
      ensures frameClock == old(frameClock) && lastAt == old(lastAt)
    {
      events := events + [Spec.RetainedEvent(at, frame)];
      if protocolAt.Some? {
        return Raised;
      }
      if frame.kind.Comment? {
        return Returned(());
      }
      if frame.kind.Done? {
        if usageAt.None? || at <= usageAt.value {
          return Raised;
        }
        protocolAt := Some(at);
        return Returned(());
      }
      if frame.data.None? {
        return Raised;
      }
      r := AcceptResponse(config.decodeJson(frame.data.value), at);
    }

    method AcceptResponse(response: Response, at: Nanos) returns (r: Result<()>)
      requires Valid()
      modifies this
      ensures Spec.AcceptResponse(config, old(View()), response, at) == if r.Returned? then Returned(View()) else Raised
      ensures frameClock == old(frameClock) && lastAt == old(lastAt)
    {
      if response.Malformed? || response.id != ResponseId(config.externalId) || response.choices.NotAList? {
        return Raised;
      }
      var items := response.choices.items;
      if items == [] {
        r := AcceptUsage(response.usage, response.metrics, at);
        return;
      }
      if |items| != 1 {
        return Raised;
      }
      r := AcceptGeneration(items[0], at);
    }

    method AcceptGeneration(choice: Choice, at: Nanos) returns (r: Result<()>)
      requires Valid()
      modifies this
      ensures Spec.AcceptGeneration(old(View()), choice, at) == if r.Returned? then Returned(View()) else Raised
      ensures frameClock == old(frameClock) && lastAt == old(lastAt)
    {
      if usageAt.Some? || choice.NotAnObject? {
        return Raised;
      }
      if !choice.indexIsZero || choice.text.None? || choice.tokenIds.Null? || choice.tokenIds.BadIds? {
        return Raised;
      }
      var ids := Spec.IdsOf(choice);
      if choice.finish.OtherReason? || generationAt.Some? {
        return Raised;
      }
      if !choice.prompt.Missing? && !choice.prompt.Null? {
        if returnedPrompt.Some? || choice.prompt.BadIds? {
          return Raised;
        }
        returnedPrompt := Some(choice.prompt.ids);
      }
      outputIds := outputIds + ids;
      if |outputIds| > OUTPUT_TOKEN_COUNT {
        return Raised;
      }
      if choice.finish.Length? && |outputIds| != OUTPUT_TOKEN_COUNT {
        return Raised;
      }
      assert !Spec.RefusesGeneration(old(View()), choice);
      RetainGeneration(choice, at);
      return Returned(());
    }

    method RetainGeneration(choice: Choice, at: Nanos)
      requires Valid() && choice.Choice? && choice.text.Some?
      modifies this
      ensures View() == Spec.KeepGeneration(old(View()), choice, at)
      ensures frameClock == old(frameClock) && lastAt == old(lastAt)
    {
      var ids := Spec.IdsOf(choice);
      textParts := textParts + [choice.text.value];
      var prompt := if tokenEvents == [] then returnedPrompt else None;
      tokenEvents := tokenEvents + [TokenEvent(at, ids, choice.text.value, choice.finish.Length?, prompt)];
      if choice.finish.Length? {
        generationAt := Some(at);
        terminalCarriedTokens := Some(ids != []);
      }
    }

    method AcceptUsage(usage: Checked<()>, serverMetrics: Checked<ServerMetrics>, at: Nanos) returns (r: Result<()>)
      requires Valid()
      modifies this
      ensures Spec.AcceptUsage(old(View()), usage, serverMetrics, at)
              == if r.Returned? then Returned(View()) else Raised
      ensures frameClock == old(frameClock) && lastAt == old(lastAt)
    {
      if generationAt.None? || usageAt.Some? || at <= generationAt.value || !usage.Good? || !serverMetrics.Good? {
        return Raised;
      }
      metrics := Some(serverMetrics.value);
      usageAt := Some(at);
      return Returned(());
    }

    method CloseTransport(at: Nanos, chain: IdentityChain) returns (r: Result<RequestEvidence>)
      requires Valid()
      modifies this
      ensures r == Spec.Close(config, old(View()), at, chain)
      ensures r.Returned? ==> View() == Spec.Closing(old(View()), at)
    {
      ghost var before := View();
      if transportAt.Some? || at < lastAt {
        return Raised;
      }
      lastAt := at;
      var finalized := parser.Finalize();
      if finalized.Raised? || protocolAt.None? || at <= protocolAt.value {
        return Raised;
      }
      transportAt := Some(at);
      if chain.externalId != config.externalId || chain.responseId != ResponseId(config.externalId)
         || chain.servingItemId != ServingItemId(config.externalId) || chain.aborted {
        return Raised;
      }
      r := BuildEvidence(chain, before);
    }

    /** `_evidence`: every boundary must have been reached, and the record must meet its own contract. */
    method BuildEvidence(chain: IdentityChain, ghost before: Spec.Stream) returns (r: Result<RequestEvidence>)
      requires Valid() && transportAt == Some(lastAt)
      requires Spec.TransportEnds(config, before, lastAt, chain) && View() == Spec.Closing(before, lastAt)
      ensures r == Spec.Close(config, before, lastAt, chain)
    {
      if headersAt.None? || firstBodyAt.None? || generationAt.None? || usageAt.None? || protocolAt.None?
         || returnedPrompt != Some(config.sentPrompt) || metrics.None? || terminalCarriedTokens.None? {
        return Raised;
      }
      var bearing := Bearing(tokenEvents);
      if bearing == [] {
        return Raised;
      }
      assert Spec.MayClose(config, before, lastAt, chain);
      var firstToken := bearing[0].at;
      var grouped := Grouped(tokenEvents);
      var gaps := Gaps(bearing);
      if !grouped && gaps == [] {
        return Raised;
      }
      var tpot := if grouped then GroupedTokens else Value((generationAt.value - firstToken) as real / 31.0);
      var itl := if grouped then GroupedTokens else Value(Mean(gaps));
      var timing := Timing(config.dispatchAt, headersAt.value, firstBodyAt.value, firstToken,
                           generationAt.value, usageAt.value, protocolAt.value, transportAt.value);
      var e := RequestEvidence(config.externalId, ResponseId(config.externalId), ServingItemId(config.externalId),
                               chain.internalId, config.sentPrompt, returnedPrompt.value, tokenEvents, outputIds,
                               terminalCarriedTokens.value, metrics.value, Concat(textParts), timing, tpot, itl, gaps);
      assert e == Spec.Evidence(config, before, lastAt, chain);
      if !EvidenceIsValid(e) {
        return Raised;
      }
      return Returned(e);
    }
  }
}
