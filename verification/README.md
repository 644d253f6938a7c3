# Verified core of the video server

A Dafny model of the parts of the server whose correctness is hardest to see from the code: the set-membership
filter inside claims, the FLV stream buffer, timestamp rescaling, the background job protocol, RTMP fan-out, the
binary claim formats, the bandwidth token bucket and the HLS file names. `dafny verify dfyconfig.toml` checks
everything. Paths and lines below are relative to the repository root.

| part | files | main results |
|---|---|---|
| binary fuse filter | `Bits`, `Finite`, `Hypergraph`, `FuseHash`, `FuseSeeds`, `FuseFilter`, `FuseLookup`, `FuseBucketing`, `FuseCounting`, `FusePeeling`, `FuseBuild` | construction over any list of keys, repeated ones included, has no false negatives; exactly when an attempt completes and when it overflows; the seed taken is the first one that does not fail, and no seed is tried twice; what every lookup answers |
| FLV buffer | `FlvStream`, `FlvRing`, `FlvBuffer` | the ring refines a byte queue; tags do not depend on how the bytes are cut; written files are read back |
| rescaling | `Rescale` | the complete behaviour against exact rationals; order; inversion |
| job protocol | `StreamMap`, `JobProtocol`, `JobLimits`, `JobOutcome`, `JobTermination`, `JobHandler` | safety over all runs; exactly which step strands a job; permits, absence of deadlock, exactly six starts before a job is given up; runs are bounded exactly in local processes and when only migrations are stored; bounded runs end with everything settled |
| RTMP fan-out | `Gop`, `RtmpChannel` | what each watcher has been sent, for every order of events; no gap and no repeat |
| claim formats | `Encoding`, `Utf8`, `ClaimFormat`, `ClaimPayload`, `ClaimHeader`, `ClaimMembership` | readers accept exactly the written forms; a claim that is issued and read finds all its assets; what happens to a filter that is too large |
| token bucket | `TokenBucket` | consumption never exceeds the initial tokens plus the refill; for every rate, exactly when waiting ends; four waits are enough at fast rates |
| HLS names | `Options`, `Strings`, `HlsNames`, `HlsAcceptance` | names written by the converter are read back by both parsers, with the exact exceptions; exactly which names are accepted |

## How the model is built

- Code that updates state in place is imperative: arrays in the filter construction and the ring buffer, classes for
  the buffer, the stream map, the pending set, the handler, the frame cache, the channel and the token bucket. Each
  method is proved against functions of its inputs and of the old state. Machine integers are numbers with explicit
  bounds; every wrap-around, truncation and saturation of the code is written out.
- The job protocol is a state machine over interleaved steps. Admission by the API is there in two forms: in one step,
  and as the two steps that the code takes (check, later commit, `crates/core/src/api/routes.rs:153-157` and `217`).
  `JobHandlers.JobHandler` is the handler loop over the stream map and the pending set, and its branches are proved to be
  the protocol's steps.
- Clocks, randomness, task results, file writes and spurious compare-and-swap failures are parameters over which the
  statements quantify.

## What turned out not to hold

Each of these has a lemma with the failing inputs and the exact condition under which the code does what it should.

- A first tag request that sees 11 or 12 bytes starting with a file header drops 13 bytes: `head` passes `tail` and the
  queue seems nearly full (`FlvBuffers.HeaderGap`, `FlvBuffers.FlvBuffer.ParseFlvHeader`).
- Two requests for one id that are both checked before either is committed put it into the channel twice
  (`JobProtocol.SeparatedCheckBreaks`, `JobProtocol.CommitIsSafeIff`).
- The addition that a finished conversion spawns can run after the upload has already settled; the id then stays pending
  and is refused until the next start (`JobProtocol.StrandingRun`, `JobProtocol.OnlyLateAddStrands`).
- A payload whose filter has more than 65535 fingerprints is always accepted by the reader, as a different payload
  (`ClaimPayload.OversizedFilterIsMisread`); a lookup in it stops exactly on the keys whose last slot was cut off
  (`ClaimMembership.OversizedLookup`).
- The least 64-bit timestamp is rescaled as its neighbour (`Rescale.LeastIsClamped`), and a negative result too large
  for 64 bits overflows the final negation (`Rescale.NegationOverflows`, `Rescale.RescaleIsExact`).
- A caller that waits for tokens and always wakes on time never gets them if the refill rate is below 1000 micro-tokens
  per second and does not divide a thousand times what is missing (`TokenBuckets.SlowCallStarves`,
  `TokenBuckets.WaitingEndsIff`).
- A bucket clock that steps back can break the account, exactly if it does not already hold for the earlier time
  (`TokenBuckets.BackwardClockCreditsTwice`, `TokenBuckets.TokenBucket.TryConsumeAtomic`).
- A key that is repeated is not always recognised as a repetition: it is kept twice exactly if each of its slots is
  shared with other hashes already (`FuseCounting.EscapingRepetition`, `FuseCounting.RepetitionEscapesIff`). An attempt
  completes exactly if that happens to no hash and no different hashes block each other (`FuseBuild.Attempt`).
- In a process with S3 storage a failing upload is retried for ever (`JobTermination.UploadsRetryForever`,
  `JobTermination.OneConversionIsEnough`). The runs of a process without requests have a common bound exactly if its
  storage is local, where uploads always succeed, or all its stored jobs are migrations
  (`JobTermination.RunsAreBoundedIff`).
- A bucket named by a plus sign and digits may be written to, and the middleware takes its name for a width
  (`HlsNames.PlusBucketIsMisread`, `HlsNames.ParsersAgree`).
- A filter built from no keys stops on every lookup instead of answering (`FuseBuild.LookupInBounds`).

## Model

| member | source | states |
|---|---|---|
| `FuseHash.MixInjective` | crates/xorf/src/lib.rs:32-51 | under every seed, different 64-bit keys have different hashes |
| `FuseHash.MixIsUndone` | crates/xorf/src/lib.rs:32-51 | every key can be computed back from its hash and the seed |
| `FuseSeeds.SeedIsUndone` | crates/xorf/src/lib.rs:41-47 | the number of each of the first 2^64 attempts can be computed back from its seed |
| `FuseSeeds.SeedsDiffer` | crates/xorf/src/lib.rs:41-47 | two of the first 2^64 attempts never use the same seed |
| `FuseHash.SlotsInConsecutiveSegments` | crates/xorf/src/lib.rs:76-89 | the three slots of every hash lie in three consecutive segments, hence are distinct and inside the array, for every layout that the sizing can produce; no 32-bit addition wraps |
| `FuseLookup.SlotPlaces` | crates/xorf/src/lib.rs:76-89 | the first slot is the hash scaled to the segment cells, and the other two have its place in the next two segments, moved by the bits of the hash from 18 and from 0 on |
| `FuseLookup.OneValueFinds` | crates/xorf/src/lib.rs:129-142 | whatever the other cells hold, exactly one of the 65536 values of a slot of a key makes the lookup find the key, and under all others it answers no |
| `FuseLookup.OtherCellsDoNotMatter` | crates/xorf/src/lib.rs:129-142 | changing a cell that is no slot of the key changes no answer |
| `FuseLookup.ZeroCellsFind` | crates/xorf/src/lib.rs:129-142 | with all cells zero a key is found exactly if bits 0 to 15 of its hash are bits 32 to 47 |
| `FuseHash.SizingIsSized` | crates/xorf/src/lib.rs:186-209 | the sizing arithmetic gives such a layout, with room for the requested capacity, exactly if rounding up to whole segments stays inside 32 bits, which is capacity plus segment length at most 2^32; otherwise the array length overflows |
| `FuseBucketing.OpenCursor` | crates/xorf/src/lib.rs:245-257 | as long as a cell is free, some cursor stands on a free cell, so probing ends |
| `FuseBucketing.Probe` | crates/xorf/src/lib.rs:249-254 | the wrap-around search reaches the first bucket, counted from the one that the top bits of the hash select, whose cursor is on a free cell, inside all bounds |
| `FuseBucketing.Bucket` | crates/xorf/src/lib.rs:245-257 | afterwards the cells hold the hashes of all keys, each as often as it occurs, also when a hash is 0 |
| `FuseFilter.PackInsert` | crates/xorf/src/lib.rs:270-277 | the byte and word updates keep count, role xor and hash xor of a slot packed exactly |
| `FuseCounting.CancelledHashIsKept` | crates/xorf/src/lib.rs:279-283 | when the cancellation test fires, an equal hash was counted before: only true repetitions are rolled back |
| `FuseCounting.CountHashes` | crates/xorf/src/lib.rs:261-295 | afterwards every slot holds the summary of exactly the kept hashes that hit it, a hash is kept exactly if no slot of it holds nothing but its copy, every hash equals a kept one, kept hashes and counted duplicates add up to all hashes, distinct hashes give no duplicate, and `error` is never set; a count overflows exactly if some hash finds 63 kept ones in a slot, and then 64 hashes share that slot |
| `FuseCounting.CancelsIff` | crates/xorf/src/lib.rs:279-283 | a hash is taken for a repetition exactly if one of its slots holds nothing but a copy of it |
| `FuseCounting.RepetitionEscapesIff` | crates/xorf/src/lib.rs:279-293 | a repetition of a kept hash is kept again exactly if all three of its slots are shared already |
| `Hypergraph.OneCount` | crates/xorf/src/lib.rs:312-314 | a slot counted once holds the hash and the role of the one edge that hits it |
| `Hypergraph.PeelableHasNoCore` | crates/xorf/src/lib.rs:309-351 | if edges can be peeled one by one to the end, no set of them covers each of its slots twice |
| `Hypergraph.ResidueIsCore` | crates/xorf/src/lib.rs:309-351 | if no slot is hit exactly once, what is left is such a set |
| `FusePeeling.PeelStep` | crates/xorf/src/lib.rs:309-349 | popping the hash alone in a slot keeps the peel invariant: exact summaries outside used slots, distinct pops, every slot hit once is queued, and no slot twice |
| `FusePeeling.QueueRoom` | crates/xorf/src/lib.rs:331-343 | both queue writes of a step stay inside the queue |
| `FusePeeling.Peel` | crates/xorf/src/lib.rs:300-351 | the stack holds distinct kept hashes in a peeling order with the roles they were popped through; what is left over, if anything, is a core; the sentinel cell survives |
| `FuseCounting.EscapingRepetition` | crates/xorf/src/lib.rs:279-293 | of the hashes 8, 16 and 8, with the layout that is chosen for three keys, the third is kept again |
| `FuseCounting.NotCrowded` | crates/xorf/src/lib.rs:269-277 | if all hashes are kept and no count overflowed its byte, fewer than 64 of them share any slot |
| `FuseBuild.Fill` | crates/xorf/src/lib.rs:373-391 | filling in reverse pop order makes the equations of all popped hashes hold together |
| `FuseBuild.FilledFindsKeys` | crates/xorf/src/lib.rs:129-142 | then the lookup answers true for every key |
| `FuseBuild.CompleteIsNotBlocked` | crates/xorf/src/lib.rs:351-355 | peeling every kept hash shows that no different hashes block each other under the seed and that no repetition was kept |
| `FuseBuild.Attempt` | crates/xorf/src/lib.rs:245-351 | for every list of keys, an attempt overflows a count exactly when some hash finds a full slot, and otherwise completes exactly when no different hashes block each other and no repetition is kept; for distinct keys these are that 64 of them share a slot, and that they do not block each other; completing means that every hash was popped |
| `FuseBuild.Reset` | crates/xorf/src/lib.rs:357-364 | the clean start of every attempt is restored |
| `FuseBuild.BlockBits` | crates/xorf/src/lib.rs:229-235 | the least number of bits, at least one, that can number the segments |
| `FuseBuild.RunAttempts` | crates/xorf/src/lib.rs:244-370 | at most 1000 attempts; under the seed of every one before the last, different hashes block each other or, if a key is repeated, a repetition can be kept; a complete attempt is turned into a filter that finds all keys |
| `FuseBuild.TryFromIterator` | crates/xorf/src/lib.rs:155-402 | a built filter answers true for every key of any list, repeated keys included; its seed blocks no keys, and every seed before it blocks some or, if a key is repeated, can keep a repetition; for distinct keys the attempt that ends the search is therefore the first whose seed does not block them or puts 64 of them in one slot, and the count overflows exactly in the second case; failure means that 1000 different seeds failed so; the only other end is, exactly when the requested capacity plus one segment exceeds 2^32, an overflowing array length |
| `FuseBuild.LookupInBounds` | crates/xorf/src/lib.rs:129-142 | lookups in built filters stay in bounds, except that a filter of no keys is left by every lookup |
| `FlvRing.MaskedFormsAgree` | crates/ez-ffmpeg/src/flv/flv_buffer.rs:67-82 | with a power-of-two capacity the masked wrapping subtractions are the length of the queue and the free space beside one spare cell |
| `FlvBuffers.FlvBuffer.WriteData` | crates/ez-ffmpeg/src/flv/flv_buffer.rs:94-162 | appends exactly its argument to the byte queue, across the wrap and across growth; without need the buffer is not replaced, and a new one has the initial capacity or less than twice the cells needed |
| `FlvBuffers.FlvBuffer.ResizeBuffer` | crates/ez-ffmpeg/src/flv/flv_buffer.rs:170-215 | growth keeps the queue and gives the requested room, never less than the initial capacity and otherwise less than twice what was requested |
| `FlvBuffers.FlvBuffer.ReadData` | crates/ez-ffmpeg/src/flv/flv_buffer.rs:375-416 | reads the cells from a position on across the end of the buffer |
| `FlvBuffers.CursorRing.Read` | crates/ez-ffmpeg/src/flv/flv_buffer.rs:439-479 | a cursor read gives the next cells round the ring and moves on by as many |
| `FlvBuffers.FlvBuffer.ParseFlvHeader` | crates/ez-ffmpeg/src/flv/flv_buffer.rs:231-298 | drops 13 bytes after a file header and 4 otherwise; the queue shrinks exactly if that many bytes are there |
| `FlvBuffers.FlvBuffer.GetFlvTag` | crates/ez-ffmpeg/src/flv/flv_buffer.rs:311-368 | outside the gap it does exactly what the pure reader does on the queue; inside, the exact length the queue pretends to have |
| `FlvBuffers.HeaderGap` | crates/ez-ffmpeg/src/flv/flv_buffer.rs:231-298 | eleven bytes and one request leave a queue of fourteen |
| `FlvStream.ChunkingDoesNotMatter` | crates/ez-ffmpeg/src/flv/flv_buffer.rs:94-368 | for every split into writes and every interleaving of requests outside the gap, the tags given followed by the tags ahead are those of the whole stream |
| `FlvStream.DrainedRunGivesAllTags` | crates/ez-ffmpeg/src/flv/flv_buffer.rs:311-368 | a request that gives nothing means that all complete tags of the stream were given |
| `FlvStream.TagRoundTrip` | crates/ez-ffmpeg/src/flv/flv_tag.rs:13-27 | a written tag is the first tag of any bytes that start with it |
| `FlvStream.FirstTagFields` | crates/ez-ffmpeg/src/flv/flv_buffer.rs:311-368 | which bytes the fields of a tag are read from, in which order of bytes |
| `FlvStream.HeaderIff` | crates/ez-ffmpeg/src/flv/flv_buffer.rs:231-298 | the file headers that are recognised: audio, video or both, and nothing else set |
| `FlvStream.RewrittenTag` | crates/ez-ffmpeg/src/flv/flv_buffer.rs:311-368 | a tag that was read and is written again gives the bytes it came from, with the stream id zero and the last four bytes, highest first, the size of the tag |
| `FlvStream.RecordedFileIsReadBack` | crates/ez-ffmpeg/src/flv/flv_tag_header.rs:14-29 | a written file, cut in any way and read at any moments outside the gap, gives back its tags |
| `Rescale.RoundingIsUnique` | crates/ez-ffmpeg/src/util/ffmpeg_utils.rs:165-235 | the rational specification of each rounding mode has one solution |
| `Rescale.LargeDividend` | crates/ez-ffmpeg/src/util/ffmpeg_utils.rs:218-230 | in the divided path no intermediate overflows and the guard fires exactly when the result does not fit |
| `Rescale.PathsAgree` | crates/ez-ffmpeg/src/util/ffmpeg_utils.rs:212-259 | the three arithmetic paths compute the same quotient, none of their 64-bit intermediates overflows |
| `Rescale.RescaleIsExact` | crates/ez-ffmpeg/src/util/ffmpeg_utils.rs:165-259 | for all valid arguments the result is the exact rational rounded as the mode says, with the pass-through flag, the clamped least value, the error value and the overflowing negation all placed exactly |
| `Rescale.InvalidIsLeast` | crates/ez-ffmpeg/src/util/ffmpeg_utils.rs:165-178 | a denominator that is not positive, a negative numerator or a mode that is none of the ten valid ones gives the least integer |
| `Rescale.ValidModes` | crates/ez-ffmpeg/src/util/ffmpeg_utils.rs:165-191 | the five modes, each with the pass-through flag 8192 or without, and how the two are told apart |
| `Rescale.RescaleIsMonotone` | crates/ez-ffmpeg/src/util/ffmpeg_utils.rs:165-235 | where nothing is signalled, rescaling keeps the order of timestamps |
| `Rescale.NearestInverts` | crates/ez-ffmpeg/src/util/ffmpeg_utils.rs:135-235 | rounding to nearest onto a finer time base and back gives the value again, for both signs |
| `Rescale.RationalFactorsFit` | crates/ez-ffmpeg/src/util/ffmpeg_utils.rs:135-139 | the products of two time bases always fit 64 bits |
| `Rescale.LeastIsClamped` | crates/ez-ffmpeg/src/util/ffmpeg_utils.rs:193-198 | even the identity rescaling changes the least value |
| `Rescale.NegationOverflows` | crates/ez-ffmpeg/src/util/ffmpeg_utils.rs:193-198 | a negative argument whose result is too large overflows the negation |
| `StreamMaps.StreamMap.Push` | crates/core/src/stream_map.rs:39-47 | the future is accepted behind all others of its index; queued indices stay in progress |
| `StreamMaps.StreamMap.AddIfNotInProgress` | crates/core/src/stream_map.rs:51-59 | accepts exactly when the index is idle |
| `StreamMaps.StreamMap.PollNextEntry` | crates/core/src/stream_map.rs:63-90 | gives a completed future once, starts the next of its index in push order; with nothing in progress nothing is queued, so the assertion cannot fail; remaining work drops by one per output |
| `StreamMaps.GivenWithinAccepted` | crates/core/src/stream_map.rs:39-90 | nothing is given more often than it was accepted |
| `StreamMaps.StreamMap.IsTerminated` | crates/core/src/stream_map.rs:109-111 | terminated exactly when everything accepted has been given |
| `JobProtocol.StartIsSafe` | crates/core/src/job/manager.rs:24-60 | a process starts safely exactly from a stored set with unique ids |
| `JobProtocol.RestartIsSafe` | crates/core/src/job/manager.rs:24-60 | whatever a safe process stored, the next one starts safely from |
| `JobProtocol.CommitIsSafeIff` | crates/core/src/api/routes.rs:153-218 | committing a checked request is safe exactly when its id is neither queued nor running |
| `JobProtocol.StepIsSafe` | crates/core/src/app_state.rs:151-199 | every other step keeps safety, the late addition included |
| `JobProtocol.NeverSkipped` | crates/core/src/app_state.rs:169-172 | in a safe state a received id is never in progress: the branch that skips a job is dead |
| `JobProtocol.ProtocolIsSafe` | crates/core/src/app_state.rs:130-203 | over every clean run from a stored set with unique ids: ids pending once, queued or running ids pending, and each at most once queued or running |
| `JobProtocol.SeparatedCheckBreaks` | crates/core/src/api/routes.rs:153-218 | from every safe state with nothing queued or checked, two checks of a new id before two commits break this, and the second job is dropped after it was accepted |
| `JobProtocol.StrandedStays` | crates/core/src/job/convert.rs:311-322 | a stranded id is refused by admission, and a step frees it exactly if it commits a request for it that was checked earlier |
| `JobProtocol.OnlyLateAddStrands` | crates/core/src/job/convert.rs:311-322 | a step strands a job exactly when it is the spawned addition of an upload that is no longer queued or running |
| `JobProtocol.StrandingRun` | crates/core/src/job/convert.rs:311-322 | for every id there is a clean run of one job that ends with it stranded |
| `JobProtocol.RestartFrees` | crates/core/src/job/manager.rs:51-54 | a restart queues every stored id again |
| `JobOutcomes.AdmittedJob` | crates/core/src/api/routes.rs:153-218 | an accepted request becomes one job of its id and kind, pending and last in the channel; only a conversion chooses its permits |
| `JobOutcomes.StoredIsQueued` | crates/core/src/job/manager.rs:51-54 | every stored job is queued as it was, with all its retries ahead |
| `JobOutcomes.FailedAtSixthStart` | crates/core/src/job/convert.rs:324-332 | in every reachable state a job that is given up is a conversion or migration that has started exactly six times |
| `JobOutcomes.OutcomeIff` | crates/core/src/job/mod.rs:112-143 | in every reachable state failed work is given up exactly at the sixth start of a conversion or migration and otherwise sent on as the same job; a success is followed by an upload exactly for conversions with S3 storage |
| `JobOutcomes.FailedIsQueuedAgain` | crates/core/src/app_state.rs:188-191 | a job that fails at an earlier start, and every upload that fails, is queued again behind all others and stays pending |
| `JobOutcomes.WorkEndsIff` | crates/core/src/job/upload.rs:50-87 | running work can end well, and it can fail unless it is an upload without S3 storage |
| `JobOutcomes.RunningFitPool` | crates/core/src/job/mod.rs:112-127 | running jobs of a kind that ask for p permits or more are at most the pool divided by p; of those that ask for more than the pool at most one runs |
| `JobOutcomes.PoolsAreShared` | crates/core/src/job/mod.rs:112-127 | conversions and migrations share the permits configured for them, and uploads run one at a time |
| `JobHandlers.JobSetManager.Add` | crates/core/src/job/manager.rs:72-88 | after an addition the id is there once; the file is the new list, or after a failed write the old one or one that the next process takes as empty, and no id is twice in what it loads |
| `JobHandlers.JobSetManager.Remove` | crates/core/src/job/manager.rs:91-99 | removes the id and nothing else; the file is written as by an addition |
| `JobHandlers.JobHandler.OnJob` | crates/core/src/app_state.rs:154-175 | the receiving branch of the loop, on the stream map, is the protocol's step; in a safe state the job is accepted |
| `JobHandlers.JobHandler.OnResult` | crates/core/src/app_state.rs:176-197 | the completion branch is the protocol's step for each of the four results, in safe and unsafe states with one task for each id |
| `JobLimits.StepKeepsPermits` | crates/core/src/job/mod.rs:112-127 | permits held per kind never exceed the pool |
| `JobLimits.NoDeadlock` | crates/core/src/job/mod.rs:112-127 | a waiting job can start, or a running job of its kind can finish, for every pool size |
| `JobLimits.LimitsHold` | crates/core/src/job/convert.rs:324-332 | in every run of a process, clean or not, permits fit and no convert or migrate job starts more than six times |
| `JobTermination.StepWorks` | crates/core/src/job/mod.rs:112-143 | in every local process, and in an S3 process that has only migrations, every step that is no request takes some of the remaining work away, and a request adds a bounded amount |
| `JobTermination.RunsEnd` | crates/core/src/job/migrate.rs:219-227 | then no run is longer than 24 steps for every stored job and 26 for every request |
| `JobTermination.RunsSettle` | crates/core/src/app_state.rs:151-199 | and when a clean run can only go on by a new request, nothing is pending, queued or running |
| `JobTermination.UploadsRetryForever` | crates/core/src/app_state.rs:188-191 | from any state of an S3 process in which an upload alone is queued and all tasks wait there are runs of every length without any request |
| `JobTermination.RunsAreBoundedIff` | crates/core/src/job/upload.rs:50-87 | the runs of a process without requests have a common bound exactly if its storage is not S3 or every stored job is a migration |
| `JobTermination.OneConversionIsEnough` | crates/core/src/job/convert.rs:311-322 | one conversion requested in an idle S3 process makes runs of every length possible |
| `GopCache.FromKeyIsSuffix` | crates/ez-ffmpeg/src/rtmp/gop.rs:70-87 | the specified cache is a suffix of the history: all of it below n key frames, else from a key frame on with exactly n of them |
| `GopCache.TagFields` | crates/ez-ffmpeg/src/rtmp/rtmp_scheduler.rs:885-898 | key frames and sequence headers by the fields of their tags: frame type 1 and codec 7, sound format 10, and the packet type |
| `GopCache.LastGroupsAreSuffix` | crates/ez-ffmpeg/src/rtmp/gop.rs:70-95 | the last n groups laid end to end are that suffix |
| `GopCache.SavedFrame` | crates/ez-ffmpeg/src/rtmp/gop.rs:70-87 | popping a full deque, opening a group at a key frame and appending to the last group keeps exactly the last n groups |
| `GopCache.Gops.SaveFrameData` | crates/ez-ffmpeg/src/rtmp/gop.rs:70-87 | the deque is the cache of the history extended by the frame; with size 0 it stays empty |
| `GopCache.Gops.GetFrames` | crates/ez-ffmpeg/src/rtmp/gop.rs:93-95 | the cached frames in order are the specified suffix |
| `RtmpChannels.ServedStep` | crates/ez-ffmpeg/src/rtmp/rtmp_scheduler.rs:798-862 | the forwarding rule keeps a watcher served: what it was sent stays exactly what it should have been sent |
| `RtmpChannels.MediaChannel.HandlePlay` | crates/ez-ffmpeg/src/rtmp/rtmp_scheduler.rs:531-704 | a new watcher is sent metadata, the last sequence headers of the history and the cached suffix, and is open exactly if the suffix is not empty |
| `RtmpChannels.HeadersAhead` | crates/ez-ffmpeg/src/rtmp/rtmp_scheduler.rs:585-629 | of what is sent to a new watcher, exactly the latest sequence headers of the history stand between the metadata and the cached frames, video before audio |
| `RtmpChannels.MediaChannel.HandleData` | crates/ez-ffmpeg/src/rtmp/rtmp_scheduler.rs:753-863 | the frame joins the history and every watcher stays served |
| `RtmpChannels.MediaChannel.HandleMetadata` | crates/ez-ffmpeg/src/rtmp/rtmp_scheduler.rs:706-751 | the last metadata of every watcher is the channel's, and media are untouched |
| `RtmpChannels.MediaChannel.ConnectionClosed` | crates/ez-ffmpeg/src/rtmp/rtmp_scheduler.rs:274-289 | a closed connection is neither client nor watcher, the others are untouched |
| `RtmpChannels.ClosedPassesFromFirstKey` | crates/ez-ffmpeg/src/rtmp/rtmp_scheduler.rs:809-828 | a watcher that starts closed passes only sequence headers before the first key frame and everything after |
| `RtmpChannels.GaplessWatching` | crates/ez-ffmpeg/src/rtmp/rtmp_scheduler.rs:633-681 | with cached frames a watcher sees the history from one point on without gap or repeat: from the n-th most recent key frame, or all of it |
| `RtmpChannels.ClosedWatching` | crates/ez-ffmpeg/src/rtmp/rtmp_scheduler.rs:798-862 | with an empty cache it gets no frame but sequence headers before the first key frame, and then everything |
| `ClaimFormat.DeserializeFilter` | crates/xorf/src/lib.rs:409-476 | accepts exactly the bytes of a filter that fits, gives that filter, and each error exactly for its lengths |
| `Encoding.LeAt` | crates/xorf/src/lib.rs:483-502 | byte i of a written number counts the 256^i |
| `ClaimFormat.FilterWrittenOnce` | crates/xorf/src/lib.rs:483-502 | no bytes start with two filters |
| `ClaimFormat.FilterRoundTrip` | crates/xorf/src/lib.rs:404-502 | a stored filter is loaded again exactly if it has at most 65535 fingerprints, otherwise refused |
| `ClaimPayload.V2WrittenOnce` | crates/claim/src/payload/payload_v2.rs:67-101 | no bytes start with two payloads |
| `ClaimPayload.SerializeV2` | crates/claim/src/payload/payload_v2.rs:67-101 | writes the fields in order, or refuses more than 255 widths |
| `ClaimPayload.DeserializeV2` | crates/claim/src/payload/payload_v2.rs:104-215 | accepts exactly the bytes that begin with a payload and gives it, so writing it again gives the consumed prefix; the embedded filter is never the reason for a refusal; reads stay in bounds |
| `ClaimPayload.RoundTripV2` | crates/claim/src/payload/payload_v2.rs:67-215 | the identity exactly up to 65535 fingerprints |
| `ClaimPayload.OversizedFilterIsMisread` | crates/claim/src/payload/payload_v2.rs:127-176 | a payload with a larger filter always reads as another one, with the filter cut at the length modulo 65536 and the limits taken from the fingerprints cut off |
| `ClaimPayload.V1WrittenOnce` | crates/claim/src/payload/payload_v1.rs:68-108 | no bytes start with two payloads |
| `ClaimPayload.DeserializeV1` | crates/claim/src/payload/payload_v1.rs:111-209 | accepts exactly the bytes that begin with a payload whose id is UTF-8, with each early error exactly where it belongs |
| `Utf8.Utf8Iff` | crates/claim/src/payload/payload_v1.rs:111-209 | the bytes accepted as text are exactly the encodings of some text |
| `ClaimPayload.RoundTripV1` | crates/claim/src/payload/payload_v1.rs:68-209 | the identity for everything that can be written |
| `ClaimHeader.FromBytes` | crates/claim/src/header.rs:70-110 | accepts exactly the bytes that begin with a header of the right magic and version 1 or 2, and gives it |
| `ClaimHeader.MagicIsText` | crates/claim/src/header.rs:5 | the magic bytes spell VSC1 |
| `ClaimHeader.HeaderRoundTrip` | crates/claim/src/header.rs:58-110 | a written header is read back exactly if it has that magic and such a version |
| `ClaimHeader.BucketKey` | crates/claim/src/header.rs:51-56 | the key is the nonce and time part of the written header |
| `ClaimHeader.BucketKeysDiffer` | crates/claim/src/header.rs:51-56 | two headers share a bucket exactly if nonce and creation time agree |
| `ClaimMembership.CutFilterLookup` | crates/xorf/src/lib.rs:129-142 | a filter cut short stops on exactly the keys whose last slot was cut off and answers as the whole one on all others |
| `ClaimMembership.OversizedLookup` | crates/claim/src/payload/payload_v2.rs:127-147 | the same for the filter that is read out of a payload whose filter was too large |
| `ClaimMembership.IssueAndRead` | crates/claim/src/payload/payload_v2.rs:67-215 | a claim built for a list of assets, written and read back, finds every asset if its filter fits; otherwise it finds exactly the assets whose last slot is left |
| `TokenBuckets.RefillIsBounded` | crates/claim/src/bucket.rs:152-164 | no refill is worth more than the elapsed time |
| `TokenBuckets.RefillIsClose` | crates/claim/src/bucket.rs:152-164 | rounding loses less than one micro-token, or less than a second's worth above 1000 seconds |
| `TokenBuckets.RefillFitsIff` | crates/claim/src/bucket.rs:152-164 | a refill overflows exactly if elapsed time times rate does, after more than 1000 seconds exactly if what is credited does not fit |
| `TokenBuckets.WaitTakesTime` | crates/claim/src/bucket.rs:105-112 | the wait told to a caller is the whole milliseconds that the missing tokens take to refill, at least one |
| `TokenBuckets.FastNext` | crates/claim/src/bucket.rs:105-112 | one wait on time at a rate of 1000 or more leaves less than a millisecond's refill and one more, after more than 1000 seconds at most a second's |
| `TokenBuckets.FourWaitsAreEnough` | crates/claim/src/bucket.rs:58-79 | at such a rate four waits on time are enough, three if the first is no longer than 1000 seconds |
| `TokenBuckets.WaitMakesProgressIff` | crates/claim/src/bucket.rs:105-112 | one wait that ends on time credits nothing exactly when one micro-token is missing at a rate below 1000 that does not divide 1000 |
| `TokenBuckets.WaitingEndsIff` | crates/claim/src/bucket.rs:58-79 | with waits that end on time, some number of waits is enough exactly if the rate is at least 1000 or divides a thousand times what is missing |
| `TokenBuckets.FastRateEnds` | crates/claim/src/bucket.rs:58-79 | at a rate of 1000 or more some number of waits is enough however late they end |
| `TokenBuckets.TokenBucket.TryConsumeAtomic` | crates/claim/src/bucket.rs:85-149 | the result and the new state for every pattern of spurious failures; over calls in time order, what was ever consumed plus what is left is at most the initial tokens plus rate times elapsed time over 1000; a call whose clock is behind keeps this exactly if it already held for that earlier time; the wait told is neither longer nor, but for a millisecond, shorter than the missing tokens take |
| `TokenBuckets.TokenBucket.Consume` | crates/claim/src/bucket.rs:47-80 | without spurious failures, at rates of 1000 or more with any delays and at lower rates on time whenever the waiting ends, the call ends with exactly its amount taken, unless a 64-bit product overflows |
| `TokenBuckets.TokenBucket.ConsumeWithin` | crates/claim/src/bucket.rs:47-80 | at every rate, with any delays and for any number of waits after which it is given up, a call has its tokens exactly if nothing is missing after that many waits, unless a 64-bit product of one of its refills overflows |
| `TokenBuckets.SlowCallStarves` | crates/claim/src/bucket.rs:47-80 | on a new bucket of 300 micro-tokens at 300 a second, a call for one token that wakes on time is still waiting after any number of waits |
| `Strings.DecimalIsParsed` | crates/claim/src/middleware.rs:144-147 | a written number, padded or not, is read back exactly if it is in range |
| `HlsNames.FilePartIsRead` | crates/claim/src/middleware.rs:93-152 | every file name of the converter is read as its job and its segment |
| `HlsNames.MiddlewareReadsNames` | crates/claim/src/middleware.rs:109-152 | the same for whole paths, with or without bucket and width, and the width that is seen in each |
| `HlsNames.RouteReadsNames` | crates/core/src/api/routes.rs:300-342 | the route finds the bucket, the key and the job in every name of the converter unless the bucket is all digits |
| `HlsNames.NumericBucketIsLost` | crates/core/src/api/routes.rs:300-315 | a bucket of digits is lost, and the job id too when a width follows |
| `HlsNames.ParsersAgree` | crates/core/src/job/convert.rs:121-143 | for every bucket that may be written to, both parsers give the job, the segment and the width that the converter used, except for the width under a bucket that reads as a number with a plus sign |
| `HlsNames.PlusBucketIsMisread` | crates/claim/src/middleware.rs:113-121 | the playlist of any job at the top of the bucket "+720", which may be written to, is read as one of width 720 |
| `HlsAcceptance.FilePartIff` | crates/claim/src/middleware.rs:123-152 | a file part is read, and as what, exactly if it is the name of a playlist, an initial segment or a numbered segment of at most 32 bits, each ending any number of times |
| `HlsAcceptance.OneSuffixRemoved` | crates/claim/src/middleware.rs:93-100 | one codec suffix is removed and nothing else |
| `HlsAcceptance.PathIff` | crates/claim/src/middleware.rs:109-121 | a path is read exactly if it has at most two directories and its file part is read; the width is the number of at most 16 bits that the last directory can be read as |
| `HlsAcceptance.KeyIff` | crates/core/src/api/routes.rs:324-342 | the route accepts a key exactly if it has one dot and at most two dashes before it |
| `HlsAcceptance.BucketIff` | crates/core/src/api/routes.rs:300-315 | the first directory is the bucket unless it is all digits, and a bucket with nothing behind it is refused |
| `HlsAcceptance.JobIdIff` | crates/core/src/api/routes.rs:60-67 | the job ids that are allowed: 1 to 128 bytes of UTF-8 without slash, dash, dot or space |
| `HlsAcceptance.SegmentDigits` | crates/core/src/job/convert.rs:432 | segment numbers are padded with zeros to three digits |

## Left out

- FuseBuild.TryFromIterator: claims nothing once 64 hashes share a slot or the array length overflows 32 bits; both stop a debug build and wrap in a release build.
- FuseBuild.TryFromIterator: follows the release build for repeated keys; the debug build refuses them first. The floating-point sizing and the random initial contents are parameters, and any power-of-two segment length up to 2^18 is covered.
- FuseFilter.ContainsU64: keys are 64-bit numbers; hashing strings to them (`crates/twox-hash`) and the rate of false positives are not modelled.
- FlvBuffers.FlvBuffer.WriteData: `usize` is unbounded, up to a capacity of 2^62 bytes; the tag's stream id and the stored back pointer are not read, as in the code.
- Rescale.RescaleIsExact: the overflowing final negation is an outcome of its own and nothing is said about its wrapped value.
- JobProtocol.ProtocolIsSafe: needs commits that find their id neither queued nor running, as admission in one step guarantees; the code lets other steps in between.
- JobProtocol.CommitIsSafeIff: a commit and the settling of a result are single steps. In the code other steps fit between adding a job to the pending set and sending it to the channel (`crates/core/src/api/routes.rs:217-218`), where a pending id is not queued yet, and between taking a finished task out and removing its id from the pending set (`crates/core/src/stream_map.rs:66`, `crates/core/src/app_state.rs:180`), where a commit of the same id loses its pending entry.
- JobLimits.NoDeadlock: says that a step is possible, not that the semaphore takes waiters in turn.
- JobHandlers.JobHandler.OnResult: task bodies, timers, webhooks, clean-up actions and JSON are left out; a file of pending jobs that was written in part is taken as empty by the next process; one cut inside a character, where the code refuses to start, is not told apart from it.
- StreamMaps.StreamMap.PollNextEntry: which future completes next is the caller's choice; wakers are not modelled.
- RtmpChannels.MediaChannel.HandlePlay: one stream key and one play per connection; sending always succeeds and emits one packet. A second play, failed sends, the RTMP session and the handshake are left out, and so is the rule of one publisher per key, which the code does not enforce.
- ClaimPayload.DeserializeV1: asset ids are their UTF-8 bytes.
- ClaimHeader.FromBytes: AES-GCM, base64 and key rotation around header and payload are left out.
- TokenBuckets.TokenBucket.TryConsumeAtomic: one call at a time at a constant rate; overlapping calls can credit the same time twice.
- TokenBuckets.TokenBucket.Consume: at rates between 1 and 999 micro-tokens per second it covers callers that wake on time and whose waiting ends; late ones and those that wait for ever are covered by `TokenBuckets.TokenBucket.ConsumeWithin`.
- HlsNames.ParsersAgree: strings are sequences of Unicode characters, and paths are those of the converter's own files.
- FFmpeg bindings, the demuxer, OpenGL, S3 copying, HTTP ranges, configuration merging and idle clean-up of buckets are not part of this model: they are foreign calls, input and output, or would only add easy members.
