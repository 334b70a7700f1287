# Dart Edge native core: a verified model

Dart Edge gives Dart programs a native runtime: an HTTP and WebTransport server, a SIP bridge, S3 and OpenAI clients,
audio tools and an authentication service, written in Rust and C behind a C interface. This project models the parts
of that runtime that decide something on their own, namely buffers, parsers, registries shared between threads, and
arithmetic, and proves what they promise for all inputs and all interleavings.

| file | models |
|---|---|
| Common.dfy | options, results, bytes, and the sequence facts every module uses |
| AudioRing.dfy | the SIP bridge's drop-oldest audio ring over a real array, and its event ring |
| Waveform.dfy | the waveform bucket accumulator, its min/max pyramid and the session around it |
| ByteStream.dfy | the native pull-stream contract, the in-memory producer, and reading to the end |
| PullReader.dfy | the blocking reader an OpenAI-compatible upload pulls its audio through |
| Operations.dfy | the operation registry of that client: cancel, discard and dispose against a running call |
| UploadBody.dfy | the S3 upload body and its exact length accounting |
| Downloads.dfy | the S3 download registry: three collections and four counters under separate locks |
| StreamTable.dfy | the WebTransport stream table shared by reader, send actor, takers and session close |
| Ingress.dfy | the bounded queues of incoming WebSocket and WebTransport messages |
| JobPool.dfy | the native job pool, one atomic operation of one thread a step, and its compare-and-swap maximum |
| Text.dfy | UTF-8, Unicode trimming, splitting and searching on the bytes of a string |
| Multipart.dfy | the multipart/form-data parser (section 5.1.1 of RFC 2046, section 4 of RFC 7578) |
| Routes.dfy | path segments, the route matcher and the native handler path |
| Base64.dfy | standard base64, strictly decoded (section 4 of RFC 4648) |
| Cookies.dfy | signed session cookies, percent-encoding (section 2.1 of RFC 3986) and the headers that carry them |
| SqlBuilder.dfy | placeholders and parameters of the statements the shared SQL adapter builds |

Code that updates things in place is modelled by classes and loops whose contracts tie them to functions on values;
the laws are lemmas about those functions. Code that several threads run is a step system: one step for each locked
section or atomic operation, in any order, with the history of what was read, taken, released or announced kept beside
the state, and laws that hold after every sequence of steps. The class beside such a system is the code as it runs
when nothing interrupts it. Text is the bytes of its UTF-8 encoding.

Where the code and its documentation, or a natural expectation, disagree, the model follows the code, and lemmas
give the input and the exact condition:

- The comment above `transcribe_native_stream` says the producer is released for every result once a descriptor
  exists. A call that is refused before its reader is built releases nothing (`Operations.RefusedCallNeverReleases`;
  the condition is in `Operations.ReleasedExactlyOnce` and `Operations.AdoptedIffAdmitted`).
- A search for users, or a `contains` filter, writes its ESCAPE literal with two backslashes, which neither database
  accepts (`SqlBuilder.PlainSearchIsRefused`, `SqlBuilder.ListingIsRefusedIffItSearches`;
  `SqlBuilder.SearchIsLiteralUpToCase` says what one backslash would give).
- A download canceled, or whose client is disposed of, between the two locked sections of a read goes on
  (`Downloads.CancelBetweenIsLost`, `Downloads.CancelStopsIffNotBetween`, `Downloads.DisposeStopsIffNotBetween`).
- A worker may subtract a job from the queue counter before its submitter added it
  (`JobPool.QueueCounterWrapsIffWorkersRanAhead`), and the observed maximum then says nothing
  (`JobPool.QueueMaximumCanBeMeaningless`, `JobPool.QueueMaximumBoundedIffNeverBelowZero`). The model wraps, as release
  builds do; a build with overflow checks would stop at the `+ 1` that follows the atomic addition.
- An update that lifts a ban and gives a reason or an end assigns a column twice, which PostgreSQL refuses
  (`SqlBuilder.LiftedBanWithReasonIsTwice`, `SqlBuilder.UserColumnsDistinctIffConsistent`).
- A request whose header is spelled `Cookie` keeps that header beside the normalized `cookie`
  (`Cookies.CapitalCookieStays`, `Cookies.OnlyLowerCaseKeysAreReplaced`).
- Polling an upload body on after a fault can end well although a chunk was lost
  (`UploadBody.PollingPastAFaultCanLoseBytes`; the conditions are in
  `UploadBody.EverythingAskedIsEmittedIffNothingTooLong` and `UploadBody.EndWithEveryByteIffDeclaredLength`).
- A route that uses a name twice loses a segment when its path is rebuilt (`Routes.RepeatedNameLosesASegment`,
  `Routes.RebuildsIffSharedNamesAgree`, `Routes.AlwaysRebuildsIffNamesDiffer`).

`dafny verify dfyconfig.toml` checks the whole project.

## Model

| member | source | states |
|---|---|---|
| `AudioRing.CopyFromRing` | packages/dart_edge_sip/rust/native/pjsip_bridge.c:1540-1556 | Copies `count` bytes from any offset of the circular buffer, in at most two block copies, and they are the bytes at that offset of the logical queue. |
| `AudioRing.CopyIntoRing` | packages/dart_edge_sip/rust/native/pjsip_bridge.c:1558-1574 | Overlays the circular buffer with the input at any offset; every other byte keeps its place. |
| `AudioRing.AudioRing.constructor` | packages/dart_edge_sip/rust/native/pjsip_bridge.c:1502-1520 | A new ring is empty, with all counters zero. |
| `AudioRing.AudioRing.Clear` | packages/dart_edge_sip/rust/native/pjsip_bridge.c:1530-1538 | Empties the queue and leaves the counters alone. |
| `AudioRing.AudioRing.Write` | packages/dart_edge_sip/rust/native/pjsip_bridge.c:1576-1612 | Keeps exactly the last `capacity` bytes of old contents followed by the input, counts one overrun and each dropped byte when it drops, and returns how many input bytes were kept. |
| `AudioRing.AudioRing.ReadExact` | packages/dart_edge_sip/rust/native/pjsip_bridge.c:1614-1634 | Delivers exactly the first `count` queued bytes or, when there are fewer or `count` is zero, nothing at all; the rest of the destination is untouched. |
| `AudioRing.AudioRing.ReadPadded` | packages/dart_edge_sip/rust/native/pjsip_bridge.c:1636-1660 | Delivers what is queued up to `count`, fills the request with zeros, and counts the underrun. |
| `AudioRing.SplitWrite` | packages/dart_edge_sip/rust/native/pjsip_bridge.c:1576-1612 | Two writes equal one write of the concatenation in contents, dropped bytes and underruns; overruns differ by at most one. |
| `AudioRing.WriteKeepsOrder` | packages/dart_edge_sip/rust/native/pjsip_bridge.c:1576-1612 | After a write, what was delivered followed by what is queued is still a subsequence of everything written. |
| `AudioRing.RunAccountsForEveryByte` | packages/dart_edge_sip/rust/native/pjsip_bridge.c:1530-1660 | Over any run of the operations, bytes written = delivered + queued + dropped + cleared, and the delivered bytes are an in-order subsequence of the written ones. |
| `AudioRing.CountersCount` | packages/dart_edge_sip/rust/native/pjsip_bridge.c:1576-1660 | Over any run the overruns are the writes there was no room for, the underruns the reads that asked for more than was queued, and an exact read delivers all or nothing, a padded one all there is: the ring's sizes and counters are those of an arithmetic of sizes alone. |
| `AudioRing.EventRing.Push` | packages/dart_edge_sip/rust/native/pjsip_bridge.c:356-374 | The ring holds exactly the last 256 events pushed and not popped. |
| `AudioRing.EventRing.Pop` | packages/dart_edge_sip/rust/native/pjsip_bridge.c:376-394 | Takes the oldest event, or reports that there is none and changes nothing. |
| `WaveformBuckets.CompletedBucketsExactly` | packages/dart_edge_audio/rust/src/lib.rs:2398-2426 | After n frames the bucket index is min(n, floor(n * 1000000 / (rate * interval))) and no other value keeps the accumulator's invariant. |
| `WaveformBuckets.BoundaryIsCeil` | packages/dart_edge_audio/rust/src/lib.rs:2408-2415 | When a bucket spans at least one frame period, bucket k starts at frame ceil(k * rate * interval / 1000000); shorter buckets hold one frame each. |
| `WaveformBuckets.AdvanceExactly` | packages/dart_edge_audio/rust/src/lib.rs:2408-2415 | The comparison made after each frame closes a bucket exactly at its boundary, and one comparison per frame always suffices. |
| `WaveformBuckets.ComparisonFitsU128` | packages/dart_edge_audio/rust/src/lib.rs:2408-2412 | For every u64 frame count, u32 rate and u64 interval neither side of the comparison, nor its partial product, overflows 128 bits. |
| `Waveform.ExtremesAreAttainedBounds` | packages/dart_edge_audio/rust/src/lib.rs:2398-2407 | The recorded minimum and maximum are values of the bucket and bound all of them. |
| `Waveform.BasePeakAt` | packages/dart_edge_audio/rust/src/lib.rs:2398-2430 | Entry k of the base level is the minimum and maximum over exactly the frames from one bucket boundary to the next, the last bucket cut at the end of the input. |
| `Waveform.CompleteBucketsStay` | packages/dart_edge_audio/rust/src/lib.rs:2398-2426 | Frames that arrive later do not change a bucket that is complete. |
| `Waveform.ObserveKeepsTrack` | packages/dart_edge_audio/rust/src/lib.rs:2398-2426 | Observing one frame keeps every field of the accumulator what the frames seen so far determine. |
| `Waveform.ProgressIsDetermined` | packages/dart_edge_audio/rust/src/lib.rs:2184-2194 | Two accumulators that saw the same frames agree, whatever chunks the frames came in. |
| `Waveform.WaveformAccumulator.Observe` | packages/dart_edge_audio/rust/src/lib.rs:2398-2416 | The in-place update is the specified one and extends the frames seen by one. |
| `Waveform.WaveformAccumulator.Finish` | packages/dart_edge_audio/rust/src/lib.rs:2428-2455 | Fails exactly when some level's interval does not fit in 64 bits, and otherwise lays out the levels of the buckets of all frames seen. |
| `Waveform.AggregateWaveform` | packages/dart_edge_audio/rust/src/lib.rs:2525-2541 | The chunked min/max loop computes the recursive aggregate, and factor 1 copies. |
| `Waveform.LevelEntry` | packages/dart_edge_audio/rust/src/lib.rs:2525-2541 | Entry k of an aggregate holds the extremes of exactly group k of its base, the last group possibly short. |
| `Waveform.AggregateTwice` | packages/dart_edge_audio/rust/src/lib.rs:2525-2541 | Aggregating by f and then by g is aggregating by f*g, for every even-length base. |
| `Waveform.LevelCoversFrames` | packages/dart_edge_audio/rust/src/lib.rs:2428-2455 | Entry k of a level with factor f holds the extremes of exactly the frames of buckets kf to kf+f. |
| `Waveform.EncodeLevels` | packages/dart_edge_audio/rust/src/lib.rs:2428-2455 | The loop over the level factors produces the specified layout, or fails exactly on interval overflow. |
| `Waveform.LayoutRanges` | packages/dart_edge_audio/rust/src/lib.rs:2434-2446 | Each level records its factor, its interval and a byte range that holds exactly its aggregate, and the ranges follow each other without gap or overlap. |
| `Waveform.ValidateWaveformSpec` | packages/dart_edge_audio/rust/src/lib.rs:2738-2758 | Accepts exactly the specifications with a positive interval and positive, increasing factors that start with 1 and whose intervals fit. |
| `Waveform.ValidSpecNeverOverflows` | packages/dart_edge_audio/rust/src/lib.rs:2738-2758 | A validated specification makes no level's interval overflow, so that finishing cannot fail. |
| `Waveform.ValidIffStepwise` | packages/dart_edge_audio/rust/src/lib.rs:2738-2758 | A specification is valid exactly if its factors begin with 1, each passes the one before it, and the last interval fits. |
| `Waveform.ByteRoundTrip` | packages/dart_edge_audio/rust/src/lib.rs:2434-2437 | The byte written for a peak gives the peak back. |
| `Waveform.PeaksSplit` | packages/dart_edge_audio/rust/src/lib.rs:2349-2362 | Splitting PCM input between frames changes no peak. |
| `Waveform.PeakOfEachFrame` | packages/dart_edge_audio/rust/src/lib.rs:2352-2358 | There is one peak for each complete frame of the input, and entry k is the peak of frame k. |
| `Waveform.WaveformSession.AddPcm16` | packages/dart_edge_audio/rust/src/lib.rs:2335-2365 | Observes exactly the input's frames behind those seen before, entry k the peak of frame k, and counts them; input that cuts a frame, or a finished session, is an error and adds nothing. |
| `Waveform.WaveformSession.Finish` | packages/dart_edge_audio/rust/src/lib.rs:2367-2382 | Ends the session once and returns the layout of everything added, whatever way it was split. |
| `ByteStream.Producer.Next` | crates/dart_edge_core/src/byte_stream.rs:43-51 | The producer's side of the contract: results come in order, each non-null one is held until freed, and none is asked for after release. |
| `ByteStream.ChunksThenEnding` | packages/dart_edge_audio/rust/src/lib.rs:1567-1619 | What a reader takes of a script: the bytes of all chunks before the first other result, that result, and leaves what is behind it; a script that runs out ends in null. |
| `ByteStream.MemoryStream.Next` | packages/dart_edge_audio/rust/src/lib.rs:1704-1728 | The locked offset advances by at most 64 KiB a call; the results are those of the specified script. |
| `ByteStream.MemoryStream.Results` | packages/dart_edge_audio/rust/src/lib.rs:1704-1728 | Calling the producer until it is done gives exactly the specified script and leaves the offset at the end. |
| `ByteStream.MemoryScriptIsTheBytes` | packages/dart_edge_audio/rust/src/lib.rs:1621-1745 | The chunks of an in-memory stream are its bytes in order, each non-empty and at most 64 KiB, followed by one end marker. |
| `ByteStream.OwnedStream.ReadToEnd` | packages/dart_edge_audio/rust/src/lib.rs:1567-1619 | Returns all chunk bytes exactly when the stream ends by DONE, frees every result once, and otherwise returns the one error that ending has, without marking completion. |
| `ByteStream.OwnedStream.Drop` | packages/dart_edge_audio/rust/src/lib.rs:160-176 | Releases unless ownership was transferred, and cancels before that only when the stream was not completed. |
| `ByteStream.OwnedStream.IntoDescriptor` | packages/dart_edge_audio/rust/src/lib.rs:155-158 | Transfers ownership: the later drop neither cancels nor releases. |
| `ByteStream.MemoryRoundTrip` | packages/dart_edge_audio/rust/src/lib.rs:1567-1745 | What the in-memory producer itself returns, read to its end by the reader, is the original bytes, and dropping the reader then releases without canceling. |
| `PullReader.ReadOnceTakesPending` | packages/dart_edge_openai_audio_client/rust/src/lib.rs:672-694 | One read returns the next pending bytes, at least one and at most the buffer's size; end of stream or an error is reported exactly when none are pending, as the stream ends. |
| `PullReader.ReadManyLosesNothing` | packages/dart_edge_openai_audio_client/rust/src/lib.rs:672-694 | For any chunking, empty chunks included, and any positive buffer sizes, the bytes returned followed by those pending are the stream's bytes. |
| `PullReader.ReadChunk.CopyInto` | packages/dart_edge_openai_audio_client/rust/src/lib.rs:724-739 | Copies the next bytes of the chunk to the front of the output and leaves the rest of the output alone. |
| `PullReader.NativeStreamReader.NextRead` | packages/dart_edge_openai_audio_client/rust/src/lib.rs:621-669 | Asks the producer once unless canceled; whatever is not a chunk is freed before returning, and only DONE or CANCELED marks completion. |
| `PullReader.NativeStreamReader.Read` | packages/dart_edge_openai_audio_client/rust/src/lib.rs:672-694 | The loop refines the one-read specification, holds at most one result, and does nothing but fail once the flag is up. |
| `PullReader.NativeStreamReader.Drop` | packages/dart_edge_openai_audio_client/rust/src/lib.rs:697-711 | What the drop does to the stream: the chunk in hand is freed, the stream canceled exactly if it was not read to its end, and released once. `DropReader` below adds the registry. |
| `UploadBody.PollsAreExact` | packages/dart_edge_s3_client/rust/src/lib.rs:318-377 | Over any run of polls, faults included, emitted + remaining = declared length, and end of stream is reported only with nothing remaining after DONE. |
| `UploadBody.EachPollAnswersItsResult` | packages/dart_edge_s3_client/rust/src/lib.rs:318-377 | Over any run poll k answers the k-th result asked for: a frame is that chunk, an end or an early end that end marker, and every other result has its own error; a poll that asks for nothing is answered by the end, one that gets nothing by a null result's error. |
| `UploadBody.EndIsTheProducers` | packages/dart_edge_s3_client/rust/src/lib.rs:318-377 | Over any run the body has seen the end exactly if DONE was asked for, and completes only then. |
| `UploadBody.EndIsIdempotent` | packages/dart_edge_s3_client/rust/src/lib.rs:320-324 | After an end every poll reports the end again and asks the producer nothing. |
| `UploadBody.FaultFreeExactlyOnDeclaredLength` | packages/dart_edge_s3_client/rust/src/lib.rs:318-377 | Chunks and then DONE are emitted without a fault exactly when their total length is the declared one. |
| `UploadBody.EverythingAskedIsEmittedIffNothingTooLong` | packages/dart_edge_s3_client/rust/src/lib.rs:318-377 | For any results of the producer and any number of polls, faults included: the emitted bytes are all the chunk bytes asked for exactly when no chunk was too long, and fewer otherwise. |
| `UploadBody.EndWithEveryByteIffDeclaredLength` | packages/dart_edge_s3_client/rust/src/lib.rs:318-377 | For chunks and then DONE a consumer that polls on past faults gets every byte and the end exactly when the chunks add up to the declared length. |
| `UploadBody.PollingPastAFaultCanLoseBytes` | packages/dart_edge_s3_client/rust/src/lib.rs:340-352 | A consumer that polls on after a fault can be told that the stream ended although a chunk was lost: the concrete run of the condition above. |
| `UploadBody.NativeUploadBody.NextFrame` | packages/dart_edge_s3_client/rust/src/lib.rs:318-377 | The in-place step is the specified one; only an emitted frame keeps a producer result, everything else is freed before returning. |
| `UploadBody.NativeUploadBody.Drop` | packages/dart_edge_s3_client/rust/src/lib.rs:400-412 | Cancels only if incomplete and then releases once. |
| `UploadBody.UploadFrame.Drop` | packages/dart_edge_s3_client/rust/src/lib.rs:450-455 | A frame frees its producer result exactly once. |
| `UploadBody.AdoptStream` | packages/dart_edge_s3_client/rust/src/lib.rs:296-316 | Gives a body exactly for a valid descriptor and a length that is not negative; every other outcome, an invalid descriptor included, cancels and releases the stream it was given. |
| `Downloads.RunKeepsInv` | packages/dart_edge_s3_client/rust/src/lib.rs:270-275 | Under every interleaving of start, next, cancel, dispose and release the classes, the in-flight subset and all four counters stay exact. |
| `Downloads.RunIsEachDownloadsLife` | packages/dart_edge_s3_client/rust/src/lib.rs:516-831 | Over every run the collections say of each handle exactly what that download's own life says, step by step, with the client it was started for: waiting, reading, marked, returning, or how it ended. |
| `Downloads.ClientNeverChanges` | packages/dart_edge_s3_client/rust/src/lib.rs:651-657 | A download stays that of the client it was started for until it ends, and the handles issued are those started. |
| `Downloads.ReadDeliversOneChunk` | packages/dart_edge_s3_client/rust/src/lib.rs:764-813 | A read of a waiting download that nothing interrupts delivers one chunk and leaves every collection and counter as it was. |
| `Downloads.SettledCountersAreExact` | packages/dart_edge_s3_client/rust/src/lib.rs:270-275 | The threads can pay all they owe, and the four counters are then the handles issued and the sizes of the classes. |
| `Downloads.ExactlyOneClass` | packages/dart_edge_s3_client/rust/src/lib.rs:517-548 | Every issued handle is available, in flight, in flight and canceled, between the two locks of next, completed, canceled or failed, and only one of them. |
| `Downloads.StartedAreAccountedFor` | packages/dart_edge_s3_client/rust/src/lib.rs:517-831 | Started = live and uncanceled + completed + canceled + failed, once pending counter increments are counted. |
| `Downloads.NoSecondRead` | packages/dart_edge_s3_client/rust/src/lib.rs:770-786 | A handle in flight or between the locks cannot begin another read. |
| `Downloads.StoppedForever` | packages/dart_edge_s3_client/rust/src/lib.rs:764-831 | A download that was stopped stays stopped and delivers no further chunk in any continuation. |
| `Downloads.CancelStopsIffNotBetween` | packages/dart_edge_s3_client/rust/src/lib.rs:815-831 | A cancel stops a download exactly when it does not fall between the two locked sections of a read. |
| `Downloads.DisposeStopsIffNotBetween` | packages/dart_edge_s3_client/rust/src/lib.rs:516-548 | Over every run, disposing of a client stops exactly the downloads started for it, except those between the two locked sections of a read, and no other client's. |
| `Downloads.CancelBetweenIsLost` | packages/dart_edge_s3_client/rust/src/lib.rs:787-801 | A cancel in that window is lost and the download goes on delivering: the concrete run. |
| `Downloads.DownloadRegistry.StartDownload` | packages/dart_edge_s3_client/rust/src/lib.rs:643-674 | A fresh handle becomes available to the client it is started for, and is counted as started. |
| `Downloads.DownloadRegistry.TakeForRead` | packages/dart_edge_s3_client/rust/src/lib.rs:770-786 | The first locked section moves an available handle to in flight. |
| `Downloads.DownloadRegistry.FinishRead` | packages/dart_edge_s3_client/rust/src/lib.rs:787-801 | The second locked section takes the handle out of both in-flight collections and says whether it was canceled. |
| `Downloads.DownloadRegistry.NextChunk` | packages/dart_edge_s3_client/rust/src/lib.rs:764-813 | An uninterrupted read leaves the handle available, completed or failed as the stream says, and moves only that counter. |
| `Downloads.DownloadRegistry.CancelDownload` | packages/dart_edge_s3_client/rust/src/lib.rs:815-831 | Removes an available handle, or marks one in flight, and counts each download as canceled at most once. |
| `Downloads.DownloadRegistry.DisposeOf` | packages/dart_edge_s3_client/rust/src/lib.rs:516-548 | Cancels every download of one client, in both collections, and no other's; the counter grows by the number newly canceled. |
| `Downloads.ActiveIsTheLiveHandles` | packages/dart_edge_s3_client/rust/src/lib.rs:551-554 | The sum that is reported as the active count counts each live handle once: handles issued, less those that ended and those between the two locked sections of a read. |
| `Downloads.DownloadRegistry.ReleaseDownload` | packages/dart_edge_s3_client/rust/src/lib.rs:732-743 | Releasing an available download forgets it and counts it as completed; any other release does nothing. |
| `StreamEntry.PushIsExactIffRepresentable` | packages/dart_edge_http_server_runtime/rust/src/lib.rs:3286-3318 | An accepted chunk is counted exactly if and only if the true byte sum is representable. |
| `StreamEntry.PushKeepsAccounted` | packages/dart_edge_http_server_runtime/rust/src/lib.rs:3286-3318 | As long as the true byte sum is a representable size, at the largest limit too, a chunk is refused exactly when a limit would be passed, and the count stays exact. |
| `StreamEntry.TakeKeepsAccounted` | packages/dart_edge_http_server_runtime/rust/src/lib.rs:1479-1497 | Taking a chunk gives the oldest one and keeps the byte count the size of the queue. |
| `StreamEntry.StreamMap.Push` | packages/dart_edge_http_server_runtime/rust/src/lib.rs:3286-3318 | The reader's locked section tells a missing entry from a refused chunk and changes only its own entry. |
| `StreamEntry.StreamMap.Take` | packages/dart_edge_http_server_runtime/rust/src/lib.rs:1479-1497 | The chunk taker's locked section. |
| `StreamEntry.StreamMap.Register` | packages/dart_edge_http_server_runtime/rust/src/lib.rs:3001-3056 | A new stream gets a fresh id and an empty entry whose closed directions are those it does not have. |
| `StreamEntry.StreamMap.TakeEnd` | packages/dart_edge_http_server_runtime/rust/src/lib.rs:1512-1529 | The terminal taker's locked section: it hands the terminal out once. |
| `StreamEntry.StreamMap.EndReceive` | packages/dart_edge_http_server_runtime/rust/src/lib.rs:3349-3357 | Posting a terminal closes the receive side of that entry and of no other. |
| `StreamEntry.StreamMap.EndSend` | packages/dart_edge_http_server_runtime/rust/src/lib.rs:3255-3266 | The send actor's last section closes the send side of that entry and of no other. |
| `StreamEntry.StreamMap.RemoveIfComplete` | packages/dart_edge_http_server_runtime/rust/src/lib.rs:3427-3438 | Removes an entry exactly when both directions are closed and neither chunk nor terminal is left to take. |
| `StreamEntry.StreamMap.CloseSession` | packages/dart_edge_http_server_runtime/rust/src/lib.rs:2821-2826 | Removes exactly the entries of the session. |
| `StreamTable.RunKeepsInv` | packages/dart_edge_http_server_runtime/rust/src/lib.rs:3001-3438 | The invariant of every stream holds under every interleaving of reader, send actor, takers, stop and session close. |
| `StreamTable.ChunkIsQueuedIffThereIsRoom` | packages/dart_edge_http_server_runtime/rust/src/lib.rs:3289-3323 | A chunk there is room for is collected and queued and the reader reads on; any other is lost, the queue stays as it is, and the reader ends with the overload terminal of the limit that was passed. |
| `StreamTable.GaveUpIffOverloaded` | packages/dart_edge_http_server_runtime/rust/src/lib.rs:3272-3323 | Over every run a reader whose entry is in the table gave up exactly if it met a chunk there was no room for. |
| `StreamTable.EntryCanAlwaysBeCompleted` | packages/dart_edge_http_server_runtime/rust/src/lib.rs:3209-3438 | No stream is stuck: from every state with its entry in the table its tasks and callers can go on so that every queued chunk and the reader's terminal are taken and the entry is removed as complete. |
| `StreamTable.TasksCanEndWithoutEntry` | packages/dart_edge_http_server_runtime/rust/src/lib.rs:3209-3323 | Once the entry is gone the reader and the send actor can both come to their end, and nothing more is handed out or accepted. |
| `StreamTable.StreamsAreAsOpened` | packages/dart_edge_http_server_runtime/rust/src/lib.rs:3001-3056 | Over every run the streams are those that were opened, numbered from one, with the session, directions and limits they were opened with. |
| `StreamTable.SessionEndRemovesItsStreams` | packages/dart_edge_http_server_runtime/rust/src/lib.rs:2821-2826 | The end of a session takes exactly its own streams out of the table and leaves every other as it is. |
| `StreamTable.RemovalLosesNothing` | packages/dart_edge_http_server_runtime/rust/src/lib.rs:3427-3438 | An entry is removed by completion only after the send side is done and, with a receive side, the terminal was taken and every chunk read too, unless the overload terminal said bytes were lost; the byte limit may be any u64 while no more bytes are read than a size can count. |
| `StreamTable.NothingLeftAtQuiescence` | packages/dart_edge_http_server_runtime/rust/src/lib.rs:3349-3357 | A complete entry still in the table has a removal call pending, so none is left once no call is under way. |
| `StreamTable.RemovedForever` | packages/dart_edge_http_server_runtime/rust/src/lib.rs:3427-3438 | An entry is freed once and never comes back. |
| `StreamTable.QueueIsExact` | packages/dart_edge_http_server_runtime/rust/src/lib.rs:3272-3363 | pending_bytes is the size of the queue, both limits hold, and bytes taken followed by bytes queued are a prefix of the bytes read, all of them unless the reader gave up on a chunk there was no room for; for any byte limit, while no more bytes are read than a size can count. |
| `StreamTable.CommandsCompleteInOrder` | packages/dart_edge_http_server_runtime/rust/src/lib.rs:3209-3270 | Completed send commands are a prefix of the accepted ones; what is dropped was behind a finish or reset, and nothing is dropped while the send side is open. |
| `StreamTable.SubmitIsAcceptedIffThereIsRoom` | packages/dart_edge_http_server_runtime/rust/src/lib.rs:3393-3410 | A command is accepted exactly while the send side is open and fewer than eight accepted ones wait. |
| `Ingress.RefusedIffOverALimit` | packages/dart_edge_http_server_runtime/rust/src/lib.rs:2961-2999 | A message is refused exactly when the two queues together are full or its bytes do not fit, whatever the limit, as long as the true sum is a representable size. |
| `Ingress.RunKeepsInv` | packages/dart_edge_http_server_runtime/rust/src/lib.rs:2945-2999 | Over any run of pushes and takes, for any byte limit up to the largest, each kind comes out in the order it was accepted, nothing lost or repeated, and both shared limits hold. |
| `Ingress.PushJoinsItsQueue` | packages/dart_edge_http_server_runtime/rust/src/lib.rs:2961-2999 | An accepted message joins the end of its own kind's queue; the other kind keeps its queue, and a refused message changes nothing. |
| `Ingress.QueuedCanBeTaken` | packages/dart_edge_http_server_runtime/rust/src/lib.rs:1404-1435 | Takes of one kind hand out exactly what is queued of it, the oldest first, and leave the other kind alone. |
| `Ingress.PendingIsExact` | packages/dart_edge_http_server_runtime/rust/src/lib.rs:2945-2999 | Over any run the byte count is the size of both queues and both limits hold; for the largest byte limit too, unless more bytes than a size can count were accepted. |
| `Ingress.SessionQueues.Push` | packages/dart_edge_http_server_runtime/rust/src/lib.rs:2961-2999 | The locked push, for either kind, in terms of true sums. |
| `Ingress.SessionQueues.TakeDatagram` | packages/dart_edge_http_server_runtime/rust/src/lib.rs:1404-1418 | Takes the oldest datagram and leaves the stream queue alone. |
| `Ingress.SessionQueues.TakeStream` | packages/dart_edge_http_server_runtime/rust/src/lib.rs:1421-1435 | Takes the oldest stream message and leaves the datagram queue alone. |
| `AtomicMax.RaisesLeaveTheMaximum` | crates/dart_edge_core/src/job_pool.rs:364-373 | Under any schedule and any spurious failures the compare-and-swap loops leave the start value or a candidate, at least every candidate whose loop is over. |
| `AtomicMax.RaisesCanEnd` | crates/dart_edge_core/src/job_pool.rs:364-373 | Every loop can come to its end, and the cell then holds the maximum of its start and all candidates. |
| `AtomicMax.UpdateAtomicMax` | crates/dart_edge_core/src/job_pool.rs:364-373 | The loop itself, against any interference: the cell ends at least at the candidate, never below what it was, and at a value somebody stored. |
| `JobPool.RunKeepsInv` | crates/dart_edge_core/src/job_pool.rs:234-363 | Every state of every interleaving of submitters, workers and result takers, one atomic operation a step, keeps the accounts and the delivery invariant. |
| `JobPool.EachJobOnce` | crates/dart_edge_core/src/job_pool.rs:234-361 | A job id is sent at most once, received by one worker, stored once, announced only after it was stored and once, and taken at most once; a stored result is what the handler returned. |
| `JobPool.HeldIsNotStored` | crates/dart_edge_core/src/job_pool.rs:324-361 | No job is in the hands of two workers, and none that is in a worker's hands has been stored. |
| `JobPool.QuiescentCountersBalance` | crates/dart_edge_core/src/job_pool.rs:234-263 | At rest submitted = accepted + rejected, accepted = started = success + error, and queued and active are zero, modulo 2^64. |
| `JobPool.DropLeavesNoJobBehind` | crates/dart_edge_core/src/job_pool.rs:301-308 | Once the pool is closed and its workers are gone every accepted job was stored and announced exactly once. |
| `JobPool.NoStateIsStuck` | crates/dart_edge_core/src/job_pool.rs:233-362 | From every reachable state, whatever the threads are in the middle of, they can go on until every call has returned, the channel is empty and each accepted job was stored and announced once. |
| `JobPool.NoCallIsRefusedAsClosed` | crates/dart_edge_core/src/job_pool.rs:233-267 | Over every run no call is refused as closed and rejected_closed_jobs stays zero: the pool can be dropped only when no call borrows it. |
| `JobPool.LeftForever` | crates/dart_edge_core/src/job_pool.rs:327-333 | A worker that left its loop does not come back. |
| `JobPool.QueueCounterWrapsIffWorkersRanAhead` | crates/dart_edge_core/src/job_pool.rs:243-246 | The queue counter is channel length plus jobs received but not yet subtracted minus sends not yet added; it wraps below zero exactly when workers subtracted more than submitters added. |
| `JobPool.ActiveStaysWithinWorkers` | crates/dart_edge_core/src/job_pool.rs:335-337 | active_jobs is the number of workers between their two updates, and neither it nor its maximum passes worker_count. |
| `JobPool.QueueMaximumBoundedIffNeverBelowZero` | crates/dart_edge_core/src/job_pool.rs:243-247 | Over every run, once no call is raising it any more, max_observed_queued_jobs is at most capacity + worker_count exactly when at no accept step workers had subtracted more than calls had added, that step's own addition included. |
| `JobPool.QueueMaximumCanBeMeaningless` | crates/dart_edge_core/src/job_pool.rs:245-247 | With two workers and a queue of two it can come to rest at 2^64 - 1: the concrete run. |
| `JobPool.SubmitUninterrupted` | crates/dart_edge_core/src/job_pool.rs:234-263 | A call left alone is a run of the atomic steps that ends in the state the sequential description gives. |
| `JobPool.TurnUninterrupted` | crates/dart_edge_core/src/job_pool.rs:324-361 | Likewise for a worker's whole turn on one job. |
| `JobPool.NativeJobPool.Submit` | crates/dart_edge_core/src/job_pool.rs:234-263 | Accepts exactly when the channel has room, under a fresh id, with every counter as specified. |
| `JobPool.NativeJobPool.Turn` | crates/dart_edge_core/src/job_pool.rs:324-361 | Runs the oldest job and stores what the handler says under its id; the active count is back where it was. |
| `JobPool.NativeJobPool.Poll` | crates/dart_edge_core/src/job_pool.rs:266-273 | A poll is pending exactly until the job was stored and again once its result was taken; otherwise it says what the handler returned for that job. |
| `JobPool.NativeJobPool.Take` | crates/dart_edge_core/src/job_pool.rs:281-283 | Hands a result out once: it was the handler's, was never taken before, and is gone afterwards. |
| `JobPool.NativeJobPool.Drain` | crates/dart_edge_core/src/job_pool.rs:324-361 | The workers take every job left in the channel and store what its handler returned. |
| `JobPool.NativeJobPool.Drop` | crates/dart_edge_core/src/job_pool.rs:301-308 | Dropping drains the channel: every accepted job has a result waiting or taken, and accepted = started = success + error. |
| `Operations.RunKeepsInv` | packages/dart_edge_openai_audio_client/rust/src/lib.rs:102-151 | Under every interleaving of create, cancel, discard, dispose and the call's own steps every operation keeps its invariant. |
| `Operations.ReleasedExactlyOnce` | packages/dart_edge_openai_audio_client/rust/src/lib.rs:584-711 | Each reader that was built or rejected releases exactly once, nothing is called on a context after that, and each result is freed once with at most one held. |
| `Operations.CancelStopsReads` | packages/dart_edge_openai_audio_client/rust/src/lib.rs:349-355 | After a cancel no read is admitted, and the producer is asked for at most one more result. |
| `Operations.CancelReachesProducer` | packages/dart_edge_openai_audio_client/rust/src/lib.rs:317-346 | While a reader can read, its producer was told to stop exactly if the operation was canceled; in the end exactly if it had not returned its end, or the flag went up before the reader left the registry, all of it read off the log. |
| `Operations.CancelFindsUnreleasedProducer` | packages/dart_edge_openai_audio_client/rust/src/lib.rs:317-324 | A cancel that finds a registered reader calls the producer there and then, before any release. |
| `Operations.AdoptedIffAdmitted` | packages/dart_edge_openai_audio_client/rust/src/lib.rs:274-314 | A call left alone builds a reader exactly when its entry exists for its client and was not canceled. |
| `Operations.CallServesTheWholeStream` | packages/dart_edge_openai_audio_client/rust/src/lib.rs:584-711 | A call on a valid stream that nothing interrupts serves every byte of any chunks, empty ones included, into any buffer, tells the producer nothing but that it is released, and leaves no entry behind. |
| `Operations.EveryByteIsServedOrInHand` | packages/dart_edge_openai_audio_client/rust/src/lib.rs:672-694 | Under every interleaving each byte pulled was served or is in the chunk in hand until the reader is dropped, and nothing else is served. |
| `Operations.ReaderIsDropped` | packages/dart_edge_openai_audio_client/rust/src/lib.rs:697-711 | A reader that is dropped gives back its chunk, leaves the registry, cancels unless it read the end, and releases, in that order and once each. |
| `Operations.RefusedCallNeverReleases` | packages/dart_edge_openai_audio_client/rust/src/lib.rs:168-190 | A call refused before the reader is built never releases the stream: the concrete run. |
| `Operations.OperationRegistry.CreateOperation` | packages/dart_edge_openai_audio_client/rust/src/lib.rs:116-135 | A fresh id gets an entry with a flag of its own, not raised. |
| `Operations.OperationRegistry.CancelOperation` | packages/dart_edge_openai_audio_client/rust/src/lib.rs:137-144 | Raises the flag and cancels the registered stream once; an unknown id changes nothing. |
| `Operations.OperationRegistry.DiscardOperation` | packages/dart_edge_openai_audio_client/rust/src/lib.rs:146-151 | Removes exactly that entry. |
| `Operations.OperationRegistry.DisposeClient` | packages/dart_edge_openai_audio_client/rust/src/lib.rs:102-114 | Cancels every operation of the client, each registered stream once, and no other operation. |
| `Operations.OperationRegistry.Admit` | packages/dart_edge_openai_audio_client/rust/src/lib.rs:274-314 | A call goes on exactly with an operation of its client that was not canceled, under the flag of that operation and of no other; a canceled operation is over, and no other is touched. |
| `Operations.OperationRegistry.RegisterStream` | packages/dart_edge_openai_audio_client/rust/src/lib.rs:326-339 | Stores the stream in an existing entry and cancels it at once if the flag is already up. |
| `Operations.OperationRegistry.UnregisterStream` | packages/dart_edge_openai_audio_client/rust/src/lib.rs:341-347 | From here on no cancel can reach the stream. |
| `Operations.OperationRegistry.DropReader` | packages/dart_edge_openai_audio_client/rust/src/lib.rs:697-711 | A dropped reader gives back its chunk, leaves the registry, and only then cancels, unless the stream was read to its end, and releases once; no registered stream is ever a released one. |
| `Text.FindIsLeast` | packages/dart_edge_http_server_runtime/rust/src/lib.rs:4602-4611 | The search finds the least occurrence from the start position, and fails only when there is none. |
| `Text.SplitConcat` | packages/dart_edge_http_server_runtime/rust/src/lib.rs:4331-4339 | Splitting at a separator distributes over text joined by it. |
| `Text.TrimIsValid` | packages/dart_edge_http_server_runtime/rust/src/lib.rs:4540-4557 | Trimming Unicode white space from UTF-8 leaves UTF-8. |
| `Text.ValidIffEncoded` | packages/dart_edge_http_server_runtime/rust/src/lib.rs:4540-4542 | Bytes are accepted as text exactly if they are the UTF-8 encoding of some sequence of Unicode scalar values. |
| `Text.TrimDropsWhiteSpace` | packages/dart_edge_http_server_runtime/rust/src/lib.rs:4540-4557 | Trimming any text drops exactly the characters with the property White_Space at its two ends, whatever their encoding. |
| `Text.EqualIffSameUpToCase` | packages/dart_edge_http_server_runtime/rust/src/lib.rs:4553-4582 | Ignoring case is ignoring that of the ASCII letters and of nothing else, and a lowered name has no upper-case letter. |
| `Multipart.ParsePartHeaders` | packages/dart_edge_http_server_runtime/rust/src/lib.rs:4540-4557 | The header loop computes the specified map: names lower-cased, values trimmed, later lines win, the first line without a colon decides the error. |
| `Multipart.ParseContentDisposition` | packages/dart_edge_http_server_runtime/rust/src/lib.rs:4559-4592 | The parameter loop computes the specified name and filename; of several the last wins. |
| `Multipart.ParseMultipartForm` | packages/dart_edge_http_server_runtime/rust/src/lib.rs:4464-4538 | The cursor loop terminates, indexes in range, and computes the recursive parse with every error case. |
| `Multipart.ParseNeverLosesAlignment` | packages/dart_edge_http_server_runtime/rust/src/lib.rs:4532-4536 | No input makes the parser report lost boundary alignment. |
| `Multipart.ParseIsTheGrammar` | packages/dart_edge_http_server_runtime/rust/src/lib.rs:4464-4538 | The parser accepts exactly the bodies rendered from well-delimited sections with meaningful headers, and returns what those sections mean. |
| `Multipart.FilesAreDisjointSlices` | packages/dart_edge_http_server_runtime/rust/src/lib.rs:4505-4518 | For arbitrary accepted bytes each file is an in-bounds slice without a delimiter and followed by one, and the slices are disjoint and increasing. |
| `Multipart.FieldsAreText` | packages/dart_edge_http_server_runtime/rust/src/lib.rs:4518-4530 | Every field of an accepted form, whatever the bytes were, is UTF-8. |
| `Multipart.DispositionIsRead` | packages/dart_edge_http_server_runtime/rust/src/lib.rs:4559-4600 | For any kind spelled form-data in any case and any list of parameters, quoted or not, known or not: the last name and the last filename or filename* are read as written, and without a name it is an error. |
| `Multipart.OtherKindsAreRefused` | packages/dart_edge_http_server_runtime/rust/src/lib.rs:4559-4566 | Any other kind is refused, whatever its parameters. |
| `Multipart.HeadersAreRead` | packages/dart_edge_http_server_runtime/rust/src/lib.rs:4540-4557 | The map of any rendered header block has, under each name in lower case, the trimmed value of the last header of that name, and nothing else. |
| `Multipart.LinesAreTheText` | packages/dart_edge_http_server_runtime/rust/src/lib.rs:4545 | For any block, lone CR and LF included: its lines joined by CRLF are the block, and no line has a CRLF in it. |
| `Multipart.HeadersAreRefusedIff` | packages/dart_edge_http_server_runtime/rust/src/lib.rs:4540-4557 | Any header block is refused exactly if it is not UTF-8, or a line of it that is not empty has no colon. |
| `Multipart.HeaderBlockIsRead` | packages/dart_edge_http_server_runtime/rust/src/lib.rs:4540-4592 | A header block with any other headers around its disposition gives back name, filename and trimmed content type. |
| `Multipart.DelimiterIsFirst` | packages/dart_edge_http_server_runtime/rust/src/lib.rs:4502-4504 | With a CR-free boundary the delimiter after content free of it is the first one found. |
| `Multipart.RoundTrip` | packages/dart_edge_http_server_runtime/rust/src/lib.rs:4464-4611 | Any fields and files, with any headers and parameters around what counts, quoted or not, that avoid CR and ';' in parameters and the delimiter in contents, sent with a CR-free boundary, are parsed back in order, file slices equal to the data sent. |
| `Routes.SegmentsConcat` | packages/dart_edge_http_server_runtime/rust/src/lib.rs:4331-4339 | A slash separates the segments before it from those after it. |
| `Routes.ReachedIsInRange` | packages/dart_edge_http_server_runtime/rust/src/lib.rs:4104-4116 | Every position the matcher reaches exists in the request, so that no slice is out of range. |
| `Routes.BoundIsUnique` | packages/dart_edge_http_server_runtime/rust/src/lib.rs:4093-4118 | A pattern and a request leave no choice of parameters. |
| `Routes.MatchPattern` | packages/dart_edge_http_server_runtime/rust/src/lib.rs:4093-4118 | The loop matches exactly when count and literals fit, and binds each name to the value of its last position. |
| `Routes.MatchRoute` | packages/dart_edge_http_server_runtime/rust/src/lib.rs:4076-4135 | Returns the first table entry of the right kind and method whose pattern fits, with its parameters, and nothing exactly when none fits. |
| `Routes.AppliesToItsKind` | packages/dart_edge_http_server_runtime/rust/src/lib.rs:4076-4163 | A request reaches a route exactly if the methods are the same, the segments match one by one with a wildcard for the rest, and the route is of its kind: plain and native HTTP routes for HTTP, each other kind its own. |
| `Routes.NativeHandlerPath` | packages/dart_edge_http_server_runtime/rust/src/lib.rs:2294-2332 | The rebuilding loop computes the specified path; the first missing parameter is the error. |
| `Routes.FirstMissingIsTheError` | packages/dart_edge_http_server_runtime/rust/src/lib.rs:2294-2332 | A path is rebuilt exactly if all its parameters are bound, and otherwise the first that is not is the error. |
| `Routes.HandlerPathIsAbsolute` | packages/dart_edge_http_server_runtime/rust/src/lib.rs:2294-2332 | The handler gets the public path as it is, or a rebuilt one that begins with a slash. |
| `Routes.RebuildsIffSharedNamesAgree` | packages/dart_edge_http_server_runtime/rust/src/lib.rs:2294-2332 | For patterns with slash-free non-empty literals and a wildcard only last: the path rebuilt from the bound parameters has the request's segments exactly when positions that share a name bound equal values. |
| `Routes.AlwaysRebuildsIffNamesDiffer` | packages/dart_edge_http_server_runtime/rust/src/lib.rs:4076-4135 | Such a pattern rebuilds every request that fits it exactly when its names are distinct. |
| `Routes.RebuiltPathHasSameSegments` | packages/dart_edge_http_server_runtime/rust/src/lib.rs:2294-2332 | With distinct names matching and rebuilding are inverse. |
| `Routes.RepeatedNameLosesASegment` | packages/dart_edge_http_server_runtime/rust/src/lib.rs:4109-4113 | With a name used twice the rebuilt path repeats the last value: the simplest such pattern. |
| `Base64.DecodeEncode` | packages/dart_edge_auth/rust/src/lib.rs:1701-1707 | Decoding undoes encoding for every byte string. |
| `Base64.EncodeDecode` | packages/dart_edge_auth/rust/src/lib.rs:1721-1721 | The strict decoder accepts nothing but encodings, so that no signature has two spellings. |
| `Cookies.VerifyIffSigned` | packages/dart_edge_auth/rust/src/lib.rs:1701-1726 | Verifying accepts exactly the signed values of non-empty text, and returns the text. |
| `Cookies.EncodeCookieValue` | packages/dart_edge_auth/rust/src/lib.rs:1755-1773 | The loop computes the percent-encoding with upper-case digits. |
| `Cookies.EncodedByteSpelling` | packages/dart_edge_auth/rust/src/lib.rs:1755-1776 | A letter, a digit or one of -_.!~*'() stands for itself; every other byte is its two upper-case digits behind a percent sign. |
| `Cookies.DecodePercent` | packages/dart_edge_auth/rust/src/lib.rs:1809-1841 | The loop computes the decoding, leaves malformed escapes alone, and reports text without a percent sign as such. |
| `Cookies.PercentRoundTrip` | packages/dart_edge_auth/rust/src/lib.rs:1755-1841 | Decoding undoes encoding for all text, escapes or none. |
| `Cookies.PercentDecodeReadsPieces` | packages/dart_edge_auth/rust/src/lib.rs:1809-1841 | Any text at all decodes to what its pieces mean: two hexadecimal digits of either case behind a percent sign are their byte, every other byte is itself. |
| `Cookies.NormalizeEncoded` | packages/dart_edge_auth/rust/src/lib.rs:1696-1699 | Normalizing encoded text removes the encoding, a right signature, and nothing else. |
| `Cookies.CookieRoundTrip` | packages/dart_edge_auth/rust/src/lib.rs:1696-1726 | For every non-empty token and every MAC, normalizing the encoded signed value returns the token. |
| `Cookies.FindCookie` | packages/dart_edge_auth/rust/src/lib.rs:1682-1694 | The loop returns the first non-empty value of the name. |
| `Cookies.SessionCookieAliases` | packages/dart_edge_auth/rust/src/lib.rs:1728-1753 | The pushes compute the specified list of names. |
| `Cookies.AliasesAreTheKnownNames` | packages/dart_edge_auth/rust/src/lib.rs:1728-1753 | The session's own name comes first, and the list has no repeats and is exactly the three known names, plain and with either prefix. |
| `Cookies.PrependedPairComesFirst` | packages/dart_edge_auth/rust/src/lib.rs:1564-1568 | A pair put in front of a header is the first hit for its name and changes the lookup of no other cookie. |
| `Cookies.NormalizeSessionCookieHeader` | packages/dart_edge_auth/rust/src/lib.rs:1548-1569 | For whichever matching key the map yields, the result is the specified map. |
| `Cookies.CookieKeyIsAnySpelling` | packages/dart_edge_auth/rust/src/lib.rs:1548-1569 | A matching key is one that spells `cookie` in any case. |
| `Cookies.NormalizedHeaderReads` | packages/dart_edge_auth/rust/src/lib.rs:1548-1569 | After normalizing, the first lookup of the session cookie is the encoded token, and every other cookie reads as before. |
| `Cookies.SignedCookieArrivesAsToken` | packages/dart_edge_auth/rust/src/lib.rs:1548-1569 | A request with the signed cookie reaches the service with the bare token, encoded. |
| `Cookies.OnlyLowerCaseKeysAreReplaced` | packages/dart_edge_auth/rust/src/lib.rs:1564-1568 | Only the lower-case header key is overwritten: all matching keys are lower-case afterwards exactly when they were before. |
| `Cookies.CapitalCookieStays` | packages/dart_edge_auth/rust/src/lib.rs:1564-1568 | A request that spells the header `Cookie` ends up with both headers: the concrete map. |
| `Cookies.RewriteTwiceIsRewriteOnce` | packages/dart_edge_auth/rust/src/lib.rs:1603-1673 | Rewriting a Set-Cookie header is idempotent, so that one signature results however often it passes through. |
| `Cookies.AttributesAreKept` | packages/dart_edge_auth/rust/src/lib.rs:1603-1673 | What stands behind the first semicolon of a Set-Cookie header is kept as it is and decides nothing. |
| `Cookies.SessionPairIsSigned` | packages/dart_edge_auth/rust/src/lib.rs:1644-1673 | A cookie of another name, or without '=', is left alone; the session cookie is sent under its own name, empty if it was empty and otherwise as the token it stood for, signed and encoded. |
| `Cookies.ResponseThenRequest` | packages/dart_edge_auth/rust/src/lib.rs:1548-1673 | What the browser sends back for a rewritten session cookie is found again and normalizes to the same token. |
| `SqlBuilder.AgreeIffNumbered` | crates/dart_edge_sql_core/src/dialect.rs:31-37 | Numbered and positional binding agree for all parameters exactly if placeholders are numbered 1 to n from the left. |
| `SqlBuilder.AlignedMeansGiven` | packages/dart_edge_auth/rust/src/shared_sql_adapter.rs:359-361 | In an aligned statement both dialects give every column, filter, limit, offset and id the same value. |
| `SqlBuilder.PlaceholdersAligned` | packages/dart_edge_auth/rust/src/shared_sql_adapter.rs:371-375 | A listed range of placeholders is aligned with its parameters exactly when it starts at 1. |
| `SqlBuilder.UpdateBuilder.PushUpdate` | packages/dart_edge_auth/rust/src/shared_sql_adapter.rs:756-763 | A pushed column gets the placeholder of the value pushed with it, and nothing before it changes. |
| `SqlBuilder.UpdateUser` | packages/dart_edge_auth/rust/src/shared_sql_adapter.rs:752-814 | For every combination of fields each given field sets its own column to its own value, a lifted ban clears reason and end, and the row is the id's. |
| `SqlBuilder.UserRowIsAsAsked` | packages/dart_edge_auth/rust/src/shared_sql_adapter.rs:752-814 | Afterwards each column of the id's row holds what the caller asked for it, the last assignment winning, and no other column is touched. |
| `SqlBuilder.UserColumnsDistinctIffConsistent` | packages/dart_edge_auth/rust/src/shared_sql_adapter.rs:790-804 | No column is assigned twice exactly when the update does not lift a ban and give it a reason or an end at once. |
| `SqlBuilder.LiftedBanWithReasonIsTwice` | packages/dart_edge_auth/rust/src/shared_sql_adapter.rs:790-804 | An update that lifts a ban and says why assigns the reason twice: the concrete update. |
| `SqlBuilder.UpdateAccount` | packages/dart_edge_auth/rust/src/shared_sql_adapter.rs:1167-1218 | For every combination of fields each given account field sets its own column to its own value, in either dialect, and the row is the id's. |
| `SqlBuilder.AccountRowIsAsAsked` | packages/dart_edge_auth/rust/src/shared_sql_adapter.rs:1167-1218 | Likewise for every account field. |
| `SqlBuilder.WhereClause` | packages/dart_edge_auth/rust/src/shared_sql_adapter.rs:831-878 | Search and filter conditions bind their own patterns and values, in the order of their placeholders. |
| `SqlBuilder.ListUsers` | packages/dart_edge_auth/rust/src/shared_sql_adapter.rs:827-922 | The counting query binds the conditions, the page query the same conditions and then limit and offset. |
| `SqlBuilder.ListingSelectsWhatIsAskedFor` | packages/dart_edge_auth/rust/src/shared_sql_adapter.rs:831-878 | Read with one backslash as the escape, the conditions select exactly the users the search and the filter ask for: the field that is the value, is not, or contains it up to case, never a NULL; and as sent, when neither searches. |
| `SqlBuilder.PageIsAsAsked` | packages/dart_edge_auth/rust/src/shared_sql_adapter.rs:827-829 | The page has the limit and offset asked for, a hundred and none by default, as long as they are below 2^63. |
| `SqlBuilder.EscapeLikeIsOnePass` | packages/dart_edge_auth/rust/src/shared_sql_adapter.rs:560-565 | The three replacements escape each special character once and none of each other's backslashes. |
| `SqlBuilder.ListingIsRefusedIffItSearches` | packages/dart_edge_auth/rust/src/shared_sql_adapter.rs:377-382 | In either dialect the counting and the page query are refused exactly when there is a search value or a `contains` filter, because the ESCAPE literal has two characters. |
| `SqlBuilder.PlainSearchIsRefused` | packages/dart_edge_auth/rust/src/shared_sql_adapter.rs:835-850 | A plain search for a name is refused: the concrete request. |
| `SqlBuilder.SearchIsLiteralUpToCase` | packages/dart_edge_auth/rust/src/shared_sql_adapter.rs:377-382 | With an ESCAPE literal of one backslash a search would find exactly the texts that start with, end with or contain the value taken literally, both sides lowered; with the literal the code writes it is refused. |

## Left out

- HMAC-SHA256: any function to 32 bytes; password hashing is not part of this model.
- Raw pointers, C strings and box ownership: bytes are sequences, handles integers, and callbacks a class whose preconditions are the producer's contract.
- Descriptors whose callbacks are missing, except for a missing `cancel` or `release` in `Operations`: the other modules take valid ones.
- UploadBody.AdoptStream: a descriptor it refuses as invalid has a cancel and a release here; the code skips whichever is missing.
- Replacing what is not UTF-8: `from_utf8_lossy` is any function that keeps valid text, returns text, and makes nothing empty.
- Float arithmetic: a frame's 8-bit peak is any function of its bytes.
- Frame counts of 2^64 and more, and their checked addition: no session lives that long.
- Job and operation ids, download handles and the S3 counters are unbounded: the 64-bit ones would repeat after 2^64 calls.
- The ring's 64-bit loss counters are unbounded, and a ring's capacity is given, not computed from durations.
- Panics: handlers and callbacks return. A poisoned lock, and the counter of failed completion posts, are not modelled.
- Weak memory: every atomic operation and locked section is one step in one order all threads see.
- Downloads.Step: a download's handle is drawn and entered in one step; in between nobody else knows the handle.
- Two readers on one operation id: each operation has one call.
- PullReader.NativeStreamReader.Read: the flag does not change during one read here; `Operations` has the interleaved reads, with the number of bytes but not the bytes.
- The network, axum, tokio, wtransport, reqwest, the AWS SDK, PJSIP and the decoders: steps of the environment where a module needs them.
- Multipart.ParseMultipartForm: the texts of the errors; the boundary is given, so reading it from the Content-Type header is left out.
- Routes.MatchRoute: schema ids, limits and handlers of a route, which are copied along with its number.
- SqlBuilder.ListUsers: table names, sorting and the rest of the text without placeholders. Statements are the placeholders in their order with what stands before each, and the ESCAPE literal.
- SqlBuilder.LowerLikeResult: string literals are standard ones, in which a backslash is a character like any other; LOWER is a map of single characters; SQLite reports a bad escape only when it tests a first row, the model at once.
- SqlBuilder.UpdateUser: `email` is normalized before; the metadata of an update is ignored, as in the code.
- Cookies.Rewrite: finding the Set-Cookie key of a response; the header value is given.
- The SIP call, bridging, recording and registration logic: PJSIP's state decides it.
- OAuth, database semantics, plugins, schema validation, CORS, Bluetooth, PGlite, the wire types and the build scripts.
