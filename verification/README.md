# Verified model of the LLM measurement harness

The harness captures evidence with small state machines, persists it with a manifest written last, and
derives it again by independent code that has to agree with the capture. This project models those parts in
Dafny and proves the agreement, for all inputs, runs and interleavings.

| Part | Files |
|---|---|
| Incremental event-stream parsing (WHATWG HTML Living Standard, section 9.2.5, in the subset the parser accepts) and the separate computation of its pending bytes | `Sse`, `SseChunking`, `Ascii`, `SseFrames` |
| The Stage 2 completion stream, its evidence contract and its replay | `Payload`, `StreamContract`, `StreamProtocol`, `StreamValidator`, `WireChunks`, `StreamReplay`, `StreamMeaning`, `StreamExamples` |
| The cancellation stream and its replay | `CancellationCapture`, `CancellationReplay`, `CancellationMeaning` |
| Bundle directories under failing filesystem steps and crashes | `BundleModel`, `BundleBuilder` |
| Bounded concurrency: the load generator, its log and its checker; the sweep line over request intervals | `LoadGen`, `Overlap` |
| Counters: snapshots and deltas, the fixture server, the cancellation verdict | `Prometheus`, `FixtureServer`, `Cancellation`, `CancellationVerdict`, `CancellationExample` |
| The aggregate verdict over three restarts | `Aggregate` |
| Content-Type (RFC 9110, sections 5.6.4, 5.6.6 and 8.3.1), percentiles, Stage 1 latencies, raw logs | `ContentType`, `ContentTypeSpelling`, `Percentile`, `Stage1Metrics`, `RawLog` |
| Shared vocabulary | `Prelude`, `Sorting` |

Code that changes state in place is a class or a method with a loop here too, and each such method is tied by
its contract to a function on values; the theorems are about those functions. Raising is `Raised`, and an
object that has raised is not used again. Concurrent parts are step machines over every schedule. Decoding of
UTF-8 and JSON, log correlation, reconstruction and case folding are function parameters, so the theorems hold
for any such function (for case folding: any that lowers ASCII letters, leaves the rest of ASCII alone and is
idempotent). A digest stands for the content it identifies.

What the code does that one might not expect, each with its exact condition proved:

- A run of reads agrees with the stream read whole if and only if no CR CR LF lies wholly before its last read,
  or both are refused; so a stream that is accepted whole reads the same however it is cut if and only if it has
  no CR CR LF before its last byte.
- A cancellation stream with an empty frame is captured live but refused on replay.
- Evidence whose path has more than 160 characters is durable before the state record refuses to name it.
- A completion that is closed at the clock of its last retained chunk succeeds live, and its capture is refused.
- A committed bundle fails its own validation if and only if an evidence file, in any directory, is called
  `bundle-state.json`; a nested `evidence-manifest.json` goes unnoticed.
- Completion evidence is refused at the very end if the prompt ids came on a later generation event.
- The first scrape of the cooldown is tied to the stable window by its clock and generation count only.
- In the cancellation verdict the second test for a later completion cannot fire, and in the aggregate verdict
  a mismatch cannot pass unexpectedly.

To check the proofs with Dafny 4.11: `dafny verify dfyconfig.toml`.

## Model

| member | source | states |
|---|---|---|
| `Sse.IncrementalSSEParser.Feed` | src/llm_inference_systems/sse.py:33-46 | the new buffer, flag and returned frames of one read are `FeedOf` of the old ones: nothing for an empty chunk, the limit error with the bytes kept, else every complete frame taken off the normalised buffer, and after a protocol error the rest behind the refused frame |
| `Sse.IncrementalSSEParser.ParseFrame` | src/llm_inference_systems/sse.py:48-79 | the frame is `FrameOf` the raw bytes, the flag moves with it, and a refused frame leaves the parser as it was |
| `Sse.IncrementalSSEParser.Finalize` | src/llm_inference_systems/sse.py:81-86 | succeeds exactly when the done marker was seen and only newlines are pending |
| `SseChunking.ChunkingIsInvisible` | src/llm_inference_systems/sse.py:33-46 | for every chunking of a stream with no CR CR LF before its last byte, within the size limit: same frames, flag and pending bytes as the stream read as a whole, or both refused |
| `SseChunking.ChunkInvariance` | src/llm_inference_systems/sse.py:33-79 | any two such chunkings of one stream agree, and so do their `finalize` verdicts |
| `SseChunking.ReadsAgreeExactly` | src/llm_inference_systems/sse.py:33-79 | exactly, for every stream, accepted or refused, and any number of reads within the limit: the run agrees with the stream read whole if and only if no CR CR LF lies wholly before the last read, or both are refused |
| `SseChunking.ChunkingInvisibleExactly` | src/llm_inference_systems/sse.py:33-79 | for a stream that is accepted whole: all chunkings within the limit agree with it if and only if it has no CR CR LF before its last byte |
| `SseChunking.CutBehindCrCrLf` | src/llm_inference_systems/sse.py:33-79 | for a stream accepted whole, any cut in two right behind a CR CR LF reads differently |
| `SseChunking.SplittingNeverTrips` | src/llm_inference_systems/sse.py:39-42 | cutting one read in two never newly trips the size limit, whatever follows |
| `SseChunking.RefiningNeverTrips` | src/llm_inference_systems/sse.py:39-42 | nor does any refinement, each read cut into any number of pieces |
| `SseChunking.SplittingTripsOnCrCrLf` | src/llm_inference_systems/sse.py:39-42 | with CR CR LF inside, cutting can newly trip it: a concrete read that is refused, and accepted when cut, so that a later read behind it is found too large |
| `SseChunking.RefusedWholeAcceptedCut` | src/llm_inference_systems/sse.py:33-79 | a concrete stream, a comment with CR CR LF LF behind it: refused in one chunk, accepted when cut before the last LF |
| `SseChunking.PendingSseBytes` | src/llm_inference_systems/stage2_protocol.py:87-91 | the loop over blank-line matches returns the bytes behind the last one, `PendingOf` |
| `SseChunking.PendingIsSplitRest` | src/llm_inference_systems/stage2_protocol.py:87-91 | for every byte string, its pending part normalised is what splitting the normalised bytes leaves over |
| `SseChunking.PendingMatchesParser` | src/llm_inference_systems/stage2_protocol.py:133-149 | after every non-raising run of reads with no CR CR LF before the last byte, the parser's buffer is the normalised pending part of the raw bytes |
| `SseChunking.PendingMatchesExactly` | src/llm_inference_systems/stage2_protocol.py:133-149 | exactly: where run and stream are both accepted, the two agree if and only if no CR CR LF lies wholly before the last read |
| `SseChunking.PendingDisagreesOnCrCrLf` | src/llm_inference_systems/stage2_protocol.py:133-149 | a concrete stream with CR CR LF on which the two disagree |
| `SseChunking.PendingDisagreesOnRefused` | src/llm_inference_systems/stage2_protocol.py:133-149 | three reads with CR CR LF that are all accepted, of a stream that is refused when read whole: LF and a letter are pending in the parser, CR LF and the letter by the expression |
| `SseChunking.PendingAgreesOnRefused` | src/llm_inference_systems/stage2_protocol.py:133-149 | two such reads, with CR CR LF in the first, on which the two agree all the same |
| `SseFrames.FrameReadsBack` | src/llm_inference_systems/sse.py:48-79 | for any lines of comments and data, each in any spelling (data with or without the blank or as the bare word, comments behind any number of blanks): the frame reads back as meant, data lines joined, comments in order, `[DONE]` recognised and nothing but comments accepted behind it |
| `SseFrames.OtherLinesAreRefused` | src/llm_inference_systems/sse.py:53-68 | a frame with any other line in it, or with a carriage return left in its text, is refused |
| `SseFrames.FramesAreSpelled` | src/llm_inference_systems/sse.py:48-79 | bytes are accepted as a frame if and only if they spell such fields and their frame may come |
| `SseFrames.RefusedFrameLeavesRest` | src/llm_inference_systems/sse.py:33-46 | a refused frame is taken off with all frames in front of it, and what stands behind it stays |
| `SseFrames.FinalizeAcceptsExactly` | src/llm_inference_systems/sse.py:81-86 | `finalize` accepts exactly a stream that was done and left nothing but newlines, LF or CR LF |
| `SseFrames.SplitUndoesJoin` | src/llm_inference_systems/sse.py:57-70 | splitting joined lines gives the lines back |
| `SseFrames.AnyChunkingDeliversTheFrames` | src/llm_inference_systems/sse.py:33-79 | whatever frames are sent and however the bytes are cut within the size limit, the parser returns exactly those frames and keeps nothing, or refuses the stream if a frame is to be refused |
| `StreamValidator.Stage2StreamValidator.AcceptResponseHeaders` | src/llm_inference_systems/stage2_protocol.py:548-554 | the header step on the validator's fields, or a refusal |
| `StreamValidator.Stage2StreamValidator.Feed` | src/llm_inference_systems/stage2_protocol.py:561-609 | one body read: chunk retained, frames parsed, each frame accepted at its clock, in order |
| `StreamValidator.Stage2StreamValidator.AcceptGeneration` | src/llm_inference_systems/stage2_protocol.py:611-662 | a generation event extends ids, texts and token events, at most 32 ids, terminal only at exactly 32 |
| `StreamValidator.Stage2StreamValidator.AcceptUsage` | src/llm_inference_systems/stage2_protocol.py:664-679 | one usage terminal, strictly behind the generation terminal |
| `StreamValidator.Stage2StreamValidator.CloseTransport` | src/llm_inference_systems/stage2_protocol.py:681-797 | the evidence record, or a refusal |
| `StreamProtocol.FeedKeepsConsistent` | src/llm_inference_systems/stage2_protocol.py:561-679 | every accepted read keeps the protocol invariant: ordered terminals, monotone clocks, ids and texts that add up |
| `StreamProtocol.HeadersKeepConsistent` | src/llm_inference_systems/stage2_protocol.py:548-554 | so does the header step |
| `StreamProtocol.ProducerMeetsContract` | src/llm_inference_systems/stage2_protocol.py:711-797 | a run that reaches the record has ordered timing and 32 ids, and the record meets the whole contract if and only if the prompt ids came on the first generation event |
| `StreamProtocol.UngroupedHas32` | src/llm_inference_systems/stage2_protocol.py:735-760 | without grouping there are exactly 32 token-bearing events and 31 gaps, so the division is safe |
| `StreamReplay.LiveRunSucceedsExactly` | src/llm_inference_systems/stage2_protocol.py:681-797 | over whole live runs: those that reach the record succeed exactly when the prompt ids came first, and then return evidence that meets the contract |
| `StreamMeaning.FrameIsAcceptedExactly` | src/llm_inference_systems/stage2_protocol.py:590-679 | an event is accepted exactly when it may stand behind the events so far, told from what those say: generation events before the finish, the usage once behind it, `[DONE]` behind that, at most 32 ids, the prompt once |
| `StreamMeaning.LiveRunExactly` | src/llm_inference_systems/stage2_protocol.py:548-797 | which live runs succeed, exactly, without the validator's state: headers of this request not before the dispatch, reads that parse at clocks that do not go back, events that fit, `[DONE]` before the close, newlines left, and the sent prompt on the first generation event |
| `StreamMeaning.EvidenceSaysWhatWasSent` | src/llm_inference_systems/stage2_protocol.py:711-797 | the evidence of a successful run is what the server sent: token events, ids and text of the generation events one to one and in order, the prompt of the first of them, the metrics of the one usage event, and the clocks at which finish, usage and `[DONE]` were observed |
| `StreamMeaning.SeenIsSent` | src/llm_inference_systems/stage2_protocol.py:561-609 | the events of a run are exactly the frames the server sent, however its bytes came in |
| `StreamContract.LatenciesTelescope` | src/llm_inference_systems/stage2_contracts.py:379-458 | in valid ungrouped evidence mean inter-token latency times 31 is last minus first token, and time per output token is at least that, equal only if the last token is at the terminal |
| `StreamContract.ValidEvidenceIsInOrder` | src/llm_inference_systems/stage2_contracts.py:379-458 | a valid record has its eight clocks in order, events that do not go back and only the last of them finished, 64 prompt ids on the first alone, 32 ids in all, and an internal id of the right form |
| `StreamContract.ValidEvidenceIsDetermined` | src/llm_inference_systems/stage2_contracts.py:379-458 | ids, events, metrics and six clocks determine a valid record, so that one altered anywhere else is refused |
| `StreamReplay.ReplayStage2WireCapture` | src/llm_inference_systems/stage2_experiment.py:496-567 | the replay loop over stored chunks and clocks computes `Replay` |
| `StreamReplay.RecordThenReplay` | src/llm_inference_systems/stage2_experiment.py:496-567 | the capture of every successful live run, put through the replay, gives the same evidence and events, consuming all its clock readings |
| `StreamReplay.RecordMeetsContractExactly` | src/llm_inference_systems/stage2_experiment.py:363-455 | the record of a successful live run meets the capture's contract, which comes before any replay, if and only if the headers came strictly behind the dispatch and the close strictly behind the last retained chunk |
| `StreamReplay.CaptureIsValidExactly` | src/llm_inference_systems/stage2_experiment.py:363-455 | the capture's contract clock by clock: chunks and frames in order, headers behind the dispatch, nothing of the body behind the close, the last chunk before it |
| `StreamReplay.ValidCapturesReplayExactly` | src/llm_inference_systems/stage2_experiment.py:496-567 | a capture that meets its contract is accepted by replay exactly when it is the record of such a live run |
| `StreamExamples.CloseAtTheLastChunkIsRefused` | src/llm_inference_systems/stage2_experiment.py:438-450 | a run over the bytes of four ASCII data lines and a last bare newline, under any decoder that reads ASCII, succeeds; closed at the newline's clock its capture is refused, closed any later it is not |
| `StreamExamples.LatePromptIsRefused` | src/llm_inference_systems/stage2_protocol.py:711-797 | over the same bytes, a run with its prompt ids on the second event reaches the record and is refused there |
| `StreamReplay.ReplayAcceptsExactlyRecords` | src/llm_inference_systems/stage2_experiment.py:496-567 | a capture is accepted by replay if and only if it is the record of some successful live run |
| `CancellationCapture.Stage2CancellationStreamCapture.FeedChunk` | src/llm_inference_systems/stage2_protocol.py:172-257 | one read of the cancellation stream on the object's fields, or a refusal |
| `CancellationCapture.Stage2CancellationStreamCapture.CloseByClient` | src/llm_inference_systems/stage2_protocol.py:259-268 | the intentional close is possible once, after the delivery and not before its clock |
| `CancellationCapture.Stage2CancellationStreamCapture.CompleteClose` | src/llm_inference_systems/stage2_protocol.py:270-276 | transport close once, behind the client's close |
| `CancellationCapture.OneDelivery` | src/llm_inference_systems/stage2_protocol.py:172-257 | a read either completes only comments or delivers: all generation events come from it at its clock, the delivery is the first of them, and no later read is accepted |
| `CancellationMeaning.LiveRunExactly` | src/llm_inference_systems/stage2_protocol.py:161-276 | which cancellation runs complete, exactly, told from their frames: comments only until one last read brings tokens, the sent prompt with the first and none with the others, no usage, finish or `[DONE]`, clocks in order, close and completion behind; and the record holds just those frames and tokens |
| `CancellationReplay.ValidReplaysAreDetermined` | src/llm_inference_systems/stage2_experiment.py:597-643 | ids, events, pending bytes and the place of the delivery determine a valid replay record |
| `CancellationReplay.EmptyFrameExactly` | src/llm_inference_systems/stage2_experiment.py:846-850 | a body holds an empty frame exactly when, its line ends normalised, it opens with a blank line or has four newlines in a row |
| `CancellationReplay.CaptureIsValidExactly` | src/llm_inference_systems/stage2_experiment.py:687-806 | the capture's contract clock by clock: dispatch, headers and first chunk strictly in order, the delivery at the clock of the chunk it names, nothing behind the close |
| `CancellationReplay.RunsDeliverOnce` | src/llm_inference_systems/stage2_protocol.py:172-257 | the same over whole runs |
| `CancellationReplay.DeliveredRecordIsValid` | src/llm_inference_systems/stage2_experiment.py:597-643 | the record of every delivered stream meets the shape checks of the replay record |
| `CancellationReplay.ReplayStage2CancellationWireCapture` | src/llm_inference_systems/stage2_experiment.py:816-915 | the replay loop computes `Replay` |
| `CancellationReplay.RecordThenReplayExactly` | src/llm_inference_systems/stage2_experiment.py:816-915 | the capture of a completed live run replays to the record of that run if and only if its bytes hold no empty frame |
| `CancellationReplay.ReplayAcceptsExactlyRecords` | src/llm_inference_systems/stage2_experiment.py:816-915 | a capture is accepted by replay if and only if it is the record of some completed live run whose bytes hold no empty frame, and then the replay gives that run's record |
| `CancellationReplay.RecordMeetsContractExactly` | src/llm_inference_systems/stage2_experiment.py:687-806 | the record of a completed live run meets the capture's contract if and only if the headers came strictly behind the dispatch and the first chunk strictly behind the headers |
| `CancellationReplay.LeadingBlankIsNotReplayed` | src/llm_inference_systems/stage2_experiment.py:816-915 | for any bytes that the decoder reads as one generation event, such as the ASCII bytes of a data line: with a blank line in front they are captured live, meet the capture's contract, and are refused on replay |
| `CancellationReplay.RecordedPendingIsParserBuffer` | src/llm_inference_systems/stage2_protocol.py:133-149 | the recorded pending bytes are the live parser's buffer if no CR CR LF lies wholly before the last chunk, and only then where the bytes read whole are accepted too |
| `BundleBuilder.DurableWrite` | src/llm_inference_systems/stage2_bundle.py:227-240 | after any failure, a torn write of the temporary included, the target has its old or its whole new content and nothing else but the temporary has changed; on success exactly the file was written |
| `BundleBuilder.Stage2BundleBuilder.Create` | src/llm_inference_systems/stage2_bundle.py:188-221 | a new INCOMPLETE directory that holds only its state record; refused if either directory exists |
| `BundleBuilder.Stage2BundleBuilder.WriteEvidence` | src/llm_inference_systems/stage2_bundle.py:310-331 | exactly the new file and the next state record, which names its path, are added to an INCOMPLETE bundle; refused for content that is not admissible, under the wrong top directory or where something is in the way, and then nothing is touched; a path of more than 160 characters is refused by the state record when its file is already there, and the directory differs by that file only |
| `BundleBuilder.Stage2BundleBuilder.Invalidate` | src/llm_inference_systems/stage2_bundle.py:339-348 | on success the directory says INVALID and its evidence is unchanged; words that the state record cannot hold are refused and nothing is written |
| `BundleBuilder.Stage2BundleBuilder.RecordCommitFailure` | src/llm_inference_systems/stage2_bundle.py:293-308 | on success the bundle, staged or moved, says INVALID |
| `BundleBuilder.Stage2BundleBuilder.Publish` | src/llm_inference_systems/stage2_bundle.py:432-446 | rename, state removal and manifest, in that order: every disk state in between is safe, and success leaves the staged files and the newest file, the manifest |
| `BundleBuilder.Stage2BundleBuilder.Commit` | src/llm_inference_systems/stage2_bundle.py:396-447 | success means the published directory holds the staged files, raw and derived ones among them, and a manifest of exactly them; a recovered failure means INVALID; with no failing step and sound evidence it succeeds |
| `BundleBuilder.RunLifecycle` | src/llm_inference_systems/stage2_bundle.py:185-447 | any calls, any step failures, any torn write, a crash anywhere: each call does to the disk what its outcome says, touches no file but its own, and no disk state, between calls or inside them, says COMMITTED without listing exactly its inventory |
| `BundleBuilder.EvidenceIsNeverLost` | src/llm_inference_systems/stage2_bundle.py:227-331 | over such a lifecycle, once a write has put an evidence file into the bundle, every later disk state, inside calls and after crashes too, holds it with that content, staged, moved, committed or invalid |
| `BundleBuilder.InvalidForGood` | src/llm_inference_systems/stage2_bundle.py:350-356 | a bundle that calls itself invalid is never changed again and never committed |
| `BundleBuilder.CommittedForGood` | src/llm_inference_systems/stage2_bundle.py:350-356 | over such a lifecycle, after a successful commit no call changes the disk, and validation gives that manifest back unless a reserved name is in it |
| `BundleBuilder.CommitThatFailsValidation` | src/llm_inference_systems/stage2_bundle.py:463-506 | a concrete bundle with evidence called `bundle-state.json` that commits on a healthy disk and then fails its own validation |
| `BundleBuilder.ManifestKeepsSafe` | src/llm_inference_systems/stage2_bundle.py:436-438 | writing the manifest last keeps every intermediate disk state safe |
| `BundleModel.SealedHoldsExactlyItsFiles` | src/llm_inference_systems/stage2_bundle.py:358-372 | a committed directory holds exactly the listed files and the manifest if and only if no evidence bears a reserved name |
| `BundleModel.ValidatesExactly` | src/llm_inference_systems/stage2_bundle.py:463-506 | for every directory: validation returns a manifest if and only if it is the one at the top, its listed paths are exactly the files not named like it, each with the listed content and not newer, and the raw files reconstruct to exactly the derived ones, which are the recorded reconstruction |
| `BundleModel.TamperingIsFound` | src/llm_inference_systems/stage2_bundle.py:475-487 | beside the same manifest one file changed, added, removed or touched later, under any name but the manifest's, is refused |
| `BundleModel.InspectsExactly` | src/llm_inference_systems/stage2_bundle.py:450-460 | a directory says COMMITTED exactly with a readable manifest, INVALID or INCOMPLETE as its state record says, INCOMPLETE without either |
| `BundleModel.CommitThenValidate` | src/llm_inference_systems/stage2_bundle.py:463-506 | validating what a successful commit left returns its manifest if and only if no evidence file is called `bundle-state.json` |
| `LoadGen.EvidenceCollector.RecordStreamEvent` | src/llm_inference_systems/streaming.py:50-89 | appends one event numbered by the length of the list |
| `LoadGen.DeriveObservedMaxClientConcurrency` | src/llm_inference_systems/stage1_metrics.py:78-105 | accepts exactly the gapless logs in which every request starts once and ends once, after its start; returns the largest number of starts minus ends over all prefixes; the negative count is unreachable |
| `LoadGen.AcceptedExactlyWhenNothingOpen` | src/llm_inference_systems/loadgen.py:27-86 | at every moment of every interleaving of n tasks and k permits the log so far is accepted if and only if whatever has started has ended |
| `LoadGen.ConcurrencyIsBounded` | src/llm_inference_systems/loadgen.py:52-86 | whenever the log is accepted its maximum is at most k, and at least one once the warmup has been released |
| `LoadGen.CompletedRunsAreAccepted` | src/llm_inference_systems/loadgen.py:27-86 | every completed run is accepted, holds every request from start to end, and has all permits back |
| `LoadGen.NeverStuck` | src/llm_inference_systems/loadgen.py:52-86 | no interleaving blocks for ever: some progress step is possible until all tasks are out |
| `Overlap.DeriveObservedConcurrency` | src/llm_inference_systems/stage2_experiment.py:1822-1846 | for all positive intervals it never raises, returns the largest number of requests active at any instant, and reports overlap exactly when that is at least two |
| `Overlap.LevelIsBounded` | src/llm_inference_systems/stage2_experiment.py:1836-1843 | every level of the sweep is nonnegative and at most the number active at some instant |
| `Overlap.ActiveIsPrefix` | src/llm_inference_systems/stage2_experiment.py:1825-1842 | the number active at any instant is the level behind the events up to it |
| `Prometheus.SelectsExactly` | src/llm_inference_systems/stage2_prometheus.py:213-234 | selection returns the one sample of the series and fails when there is none or a second |
| `Prometheus.DerivesExactly` | src/llm_inference_systems/stage2_prometheus.py:248-273 | a delta is derived exactly between a scrape and a later one of the same process that show the same labels and one sample of the series each, the later no smaller; and it is their difference |
| `Prometheus.RestsExactly` | src/llm_inference_systems/stage2_prometheus.py:337-340 | the quiescence gate passes exactly when the scrape shows zero running and zero waiting requests |
| `Prometheus.FamilyExactly` | src/llm_inference_systems/stage2_prometheus.py:302-316 | the finish-reason family is exact if and only if each of the five reasons has a sample and the model's labels occur with nothing else |
| `Prometheus.DeltasTelescope` | src/llm_inference_systems/stage2_prometheus.py:248-273 | where neighbouring deltas can be taken so can the one across, and it is their sum |
| `Prometheus.ValidateMeasuredWindowDeltas` | src/llm_inference_systems/stage2_prometheus.py:276-293 | accepts exactly one well-labelled delta of the expected value for each of the ten series and nothing else |
| `Prometheus.DeriveMeasuredWindowDeltas` | src/llm_inference_systems/stage2_prometheus.py:296-334 | succeeds exactly when the finish-reason family is exact on both sides and each of the ten series moved by its expected amount |
| `FixtureServer.Stage2FixtureServer.AcceptRequest` | src/llm_inference_systems/stage2_fixture_server.py:148-154 | two log lines and one more running request |
| `FixtureServer.Stage2FixtureServer.CountCancellation` | src/llm_inference_systems/stage2_fixture_server.py:407-418 | 64 prompt tokens and one or two generated, by scenario; nothing for a clean end of stream |
| `FixtureServer.Stage2FixtureServer.RecordAbort` | src/llm_inference_systems/stage2_fixture_server.py:247-254 | an id is counted and logged as aborted once |
| `FixtureServer.Stage2FixtureServer.Finish` | src/llm_inference_systems/stage2_fixture_server.py:155-174 | the completion's or the abort's counts, then one fewer running, clamped at zero |
| `FixtureServer.ClampNeverBites` | src/llm_inference_systems/stage2_fixture_server.py:172-174 | in a conserved state a finishing handler is counted as running, so the clamp has no effect |
| `FixtureServer.RunConserves` | src/llm_inference_systems/stage2_fixture_server.py:130-179 | every interleaving, handlers that end by any exception included, keeps running = accepted and unfinished, aborts = aborted ids, two log lines each; prompt tokens move by 64 per completion and counted cancellation, generated ones by 32 per completion and the counted tokens, `length` by completions |
| `FixtureServer.RunAbortsExactly` | src/llm_inference_systems/stage2_fixture_server.py:155-174 | exactly those ids are aborted whose client went away or whose cancellation came to its end in a scenario without a clean end of stream |
| `FixtureServer.LogOfRun` | src/llm_inference_systems/stage2_fixture_server.py:148-154 | whatever the interleaving, the log holds the received and added lines of each accepted id and the internal and external abort lines of each aborted one, side by side and in order |
| `FixtureServer.QuiescentExactly` | src/llm_inference_systems/stage2_prometheus.py:337-340 | the quiescence gate passes on a scrape exactly when no accepted request is unfinished |
| `FixtureServer.WindowAcceptsExactlySixteen` | src/llm_inference_systems/stage2_prometheus.py:296-334 | between two scrapes of a server, after any schedule from its start and any further one, the window is accepted if and only if the second completed exactly 16 requests, generated for no cancellation and aborted no new id |
| `Cancellation.EveryResultIsValid` | src/llm_inference_systems/stage2_control.py:190-244 | whatever the probe, the returned result meets `validate_result` |
| `CancellationVerdict.VerdictExactly` | src/llm_inference_systems/stage2_control.py:320-578 | every classification, exactly, from the fields of the probe: the first gate that fails decides, in the order names, abort records, log, clocks, scrapes, ends of requests, rest; a probe that fails none is accepted, and no other |
| `CancellationVerdict.ReportsWhatScrapesShow` | src/llm_inference_systems/stage2_control.py:503-578 | an accepted verdict reports for each of the ten series the difference of the samples in the last scrape before the dispatch and the last of the cooldown |
| `CancellationExample.AnAcceptedProbe` | src/llm_inference_systems/stage2_control.py:320-578 | there is an accepted probe: scraped from the fixture server as it is started and behind a run of accepting, generating and the client's close, with a valid capture of its log |
| `Cancellation.AcceptedExactly` | src/llm_inference_systems/stage2_control.py:320-578 | the verdict accepts exactly the probes that pass the identity and clock gates, whose ten counters stand still before dispatch and from the end of the drain on, moved by the allowed amounts, kept generation at the head of the cooldown, and left no residue |
| `Cancellation.CountersTelescope` | src/llm_inference_systems/stage2_control.py:299-317 | over a chain that passes the progress checks a series moves by one amount from any scrape before dispatch to any from the end of the drain on |
| `Cancellation.AcceptedCountersTelescope` | src/llm_inference_systems/stage2_control.py:489-578 | for an accepted probe any such pair of scrapes derives the reported deltas again, for all ten series |
| `Cancellation.LaterCompletionExactly` | src/llm_inference_systems/stage2_control.py:496-550 | a later completion is reported exactly when the retained scrapes show one; the second test never fires and the retained derivation never raises |
| `Cancellation.AcceptedScrapesStraddle` | src/llm_inference_systems/stage2_control.py:353-488 | in an accepted probe the compared scrapes lie before the dispatch and behind the close and both abort records, in the order of the whole chain, within ten seconds, with three seconds at rest |
| `Cancellation.CooldownHeadIsUnchecked` | src/llm_inference_systems/stage2_control.py:458-468 | any quiescent scrape of the process with the same clock and generation count can stand at the head of the cooldown without changing an accepted result |
| `Aggregate.ComparisonPassesExactly` | src/llm_inference_systems/stage2_control.py:837-872 | three restarts compare as COMMITTED, with no mismatches, exactly when their records agree on all nine fields |
| `Aggregate.MismatchesAreNamed` | src/llm_inference_systems/stage2_control.py:837-872 | the mismatches name, restart by restart and field by field, exactly where the second and the third differ from the first, whose case the comparison bears |
| `Aggregate.ComparisonIgnoresOrder` | src/llm_inference_systems/stage2_control.py:837-872 | the order of the records does not matter |
| `Aggregate.StructureExactly` | src/llm_inference_systems/stage2_control.py:881-920 | the commit fails for something other than the semantic comparison exactly when the structure does not hold |
| `Aggregate.SemanticsDecide` | src/llm_inference_systems/stage2_experiment.py:2140-2162 | on a sound structure the commit fails, for the semantic comparison only, exactly when a case is invalid: a mismatch never passes unexpectedly |
| `Aggregate.AggregateVerdictIsExact` | src/llm_inference_systems/stage2_experiment.py:2121-2181 | there is a result exactly when the structure holds, and it is COMMITTED exactly when every case agrees on all nine fields, else it lists the cases that do not |
| `Aggregate.CaseIdsAreSorted` | src/llm_inference_systems/stage2_experiment.py:94 | the sixteen case ids are sorted and unique, as the result's contract needs |
| `ContentType.ParseContentType` | src/llm_inference_systems/stage2_transport.py:102-168 | the loops compute `Parse` |
| `ContentType.SplitParts` | src/llm_inference_systems/stage2_transport.py:105-124 | the scan cuts at exactly the semicolons outside quotes, and refuses controls and open quotes |
| `ContentType.AcceptsQuotedBody` | src/llm_inference_systems/stage2_transport.py:136-159 | the inner loop accepts exactly the bodies of quoted strings |
| `ContentTypeSpelling.ParsesExactlySpellings` | src/llm_inference_systems/stage2_transport.py:102-168 | the parser returns a pair if and only if the text spells it: letters in any case, blanks around every piece and equals sign, names that differ once folded; every other text is refused |
| `ContentTypeSpelling.TokenCharsExactly` | src/llm_inference_systems/stage2_transport.py:58-59 | token characters are the visible ones of ASCII but the delimiters of RFC 9110 |
| `ContentTypeSpelling.QuotedBodyExactly` | src/llm_inference_systems/stage2_transport.py:136-159 | the test of a quoted body agrees with the scan that cuts at semicolons |
| `ContentType.ParsedIsNormal` | src/llm_inference_systems/stage2_transport.py:125-168 | whatever the text, a returned pair is folded, made of tokens and quoted strings, with distinct names |
| `ContentType.ReparseIsStable` | src/llm_inference_systems/stage2_transport.py:102-168 | rendering any accepted text's result with `; ` and `=` and parsing it again gives the same result |
| `ContentType.RenderRoundTripsExactly` | src/llm_inference_systems/stage2_transport.py:102-168 | rendering comes back exactly for the pairs in that normal form |
| `ContentType.QuotedValueNeverSplits` | src/llm_inference_systems/stage2_transport.py:105-124 | a quoted value stays one parameter whatever semicolons or escaped quotes it holds |
| `Percentile.BetweenMinimumAndMaximum` | src/llm_inference_systems/metrics.py:39-54 | the percentile lies between the least and the greatest sample |
| `Percentile.IgnoresSampleOrder` | src/llm_inference_systems/metrics.py:39-54 | it does not depend on the order of the sample |
| `Percentile.MonotoneInProbability` | src/llm_inference_systems/metrics.py:39-54 | a higher probability never gives a lower value |
| `Percentile.InterpolatesExactly` | src/llm_inference_systems/metrics.py:51-54 | at a probability of (k+t)/(n-1) the percentile is the k-th smallest sample plus t times the step to the next |
| `Percentile.GivenEverywhere` | src/llm_inference_systems/metrics.py:39-54 | every probability from zero to one is such a one; outside it raises, and of no sample there is no value |
| `Percentile.HitsOrderStatistics` | src/llm_inference_systems/metrics.py:51-54 | at probability k/(n-1) it is the k-th smallest sample |
| `Stage1Metrics.MetricsTelescope` | src/llm_inference_systems/stage1_metrics.py:36-75 | time per output token minus observed span is the share of the time behind the last token, and the mean per-token latency is the span |
| `Stage1Metrics.EndToEndSplits` | src/llm_inference_systems/stage1_metrics.py:36-75 | end-to-end time is the time to the first token plus the time per output token for each interval, each metric there exactly when it should be, none for a failed request |
| `Stage1Metrics.GapsLieBetweenTokens` | src/llm_inference_systems/stage1_metrics.py:54-64 | per-token latencies are there exactly where single tokens were observed, the k-th between the k-th token and the next |
| `RawLog.RetainRawLogRecords` | src/llm_inference_systems/stage2_protocol.py:400-434 | succeeds exactly when offsets match, no line is empty and, if there are lines, the stream name has 1 to 160 characters; builds record after record at its byte offset |
| `RawLog.RetainRawLogCapture` | src/llm_inference_systems/stage2_protocol.py:437-461 | succeeds exactly when there is a line and the records are retained; the capture is accepted by its own contract, and has the same lines |
| `RawLog.ValidCapturesTile` | src/llm_inference_systems/stage2_contracts.py:190-217 | in a valid capture every record's slice is its line, with one newline between neighbours and the last record ending the bytes |
| `RawLog.ValidCapturesAreDetermined` | src/llm_inference_systems/stage2_contracts.py:190-217 | a valid capture is determined by its lines, stream and clock readings |

## Left out

- JSON, UTF-8 and Base64 decoding: parameters, or typed values in their place.
- Error messages and exception classes: one `Raised`, except where the code branches on the error (parser limit against protocol error, bundle error against operating-system error, semantic against structural defect).
- SHA-256 identities: equality of content, so a digest field that only repeats content is not a field here.
- Captures: identities, headers, provenance and byte counts of the wire captures, and the clocks of the abort records in the cancellation capture; their chunks and all other clocks are modelled.
- Sockets, HTTP, asyncio scheduling, task cancellation in the load generator: a request that ends by an exception is modelled, a cancelled task is not.
- `observe_clean_eof` of the cancellation capture: it only raises.
- IEEE float rounding: ratios, percentiles and counter values are reals.
- Prometheus text parsing and log-line regular expressions: snapshots start from typed samples, and log correlation is a parameter of the cancellation verdict.
- Public-safety and suffix policy, symbolic links and path syntax of evidence files: one flag per write.
- Empty directories inside a bundle: a directory is there when a file is below it.
- The manifest's field contracts other than its file list and reconstruction: one flag of `Commit`.
- BundleBuilder.RunLifecycle: file times never go back, as the round trip of commit and validation needs.
- SseChunking.PendingMatchesExactly: for accepted reads of a stream that is refused when read whole only the sufficient half is stated; behind a CR CR LF both outcomes occur there.
- CancellationReplay.RecordedPendingIsParserBuffer: the same.
- Cancellation.Evaluate: the length test on the two ten-scrape windows is not repeated, because the probe's own field constraints already demand it.
- FixtureServer: request parsing, payload bytes and the metrics text; a handler step stands for the code between two of its awaits.
- Stage 1 summaries, distributions, comparison deltas, resource budgets, GPU tolerances, attestations and runtime phases: long conjunctions or easy arithmetic.
