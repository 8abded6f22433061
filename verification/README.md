# Verified models of zagg's hard cores

zagg aggregates satellite granules into a hive of zarr leaves, one per (shard, window), with a fleet of workers it
invokes and then watches over an object store. This project models the parts of it whose correctness is hardest to see
and proves what they promise, in Dafny.

- **Status poller** (`PollerModel`, `PollerSafety`, `PollerRuns`, `PollerProgress`, `StatusPoller`, `ShardStatus`). The
  poller is a state machine whose events are the atomic steps of its own thread, of registering and stopping threads,
  and of the world (clock, status objects, the fate of each invoke). Billing, verdicts, deduplication, pacing, backoff,
  shutdown and termination are proved over all runs. The class `StatusPoller` is the code's own loops over mutable
  entries; its ghost trace is a run of the machine, so every result about runs holds of it.
- **Content hash** (`ContentHash`, `ContentHashLaws`, `Encoding`). The streaming hash of rows in any order, as a class
  whose fields are a function of the history of calls, compared with the plain hash of the assembled array; the
  self-delimiting cell encoding with its parser; the order-immune combined digest. SHA-256 is left uninterpreted:
  digests are identified with their preimages.
- **Pyramid column** (`Chunks`, `DenseFold`, `ColumnFold`, `ColumnPipeline`, `ColumnStore`, `ColumnCrash`,
  `GenerationKeys`). Which orders a column carries, the dense fold over stored values with their dtype and fill, the
  folds of digests and words filled in place, when the path from staged arrays to a column meets a raise, conservation
  and alignment; then the write, operation by operation, by workers that die anywhere.
- **Root coverage** (`DecimalIds`, `Coverage`, `RootCoverage`). The worklist walk of the hive tree, the id ranges built
  from it and the containment test on them, and the warning latch.
- **Smaller algorithms**: explicit windows and their truncation (`Windows`), NaN fills and strict JSON (`NanFills`), the
  trimming loop over reals (`FitWindow`), nesting depth and re-pin order (`Nesting`), the lazy identity classifier
  (`Dedup`), and the post-run tail with its marker (`Tail`).

`Prelude`, `Bytes` and `Sorting` hold shared vocabulary. `dafny verify dfyconfig.toml` checks the project.

## Where the code and its documentation part

Each of these is proved with the exact condition under which the code keeps the promise, most of them with an input
where it does not beside it.

- A persistent LIST fault never surfaces through the drop deadline, as the comment on the loop has it: the fault ends
  the tick before any deadline is looked at (`StatusPoller.Outage`). A GET fault does. An object that cannot be read
  ends the tick too, for all shards behind it (`StatusPoller.ResolveLanded`, `Blockade`, `SpoiltExactly`).
- The bound of two billed executions per shard fails for invokes that raise after the service took the event, when the
  retry budget is above two (`TwoBilledExactly`, `LosingRun`).
- A status object is recorded as consumed before its result is built, so one with an unusable body is passed over from
  then on (`PassedOverExactly`, `ReportLost`).
- The fill row of a streamed array skips the byte-order step that written rows get (`DigestExact`, `SwappedFill`).
- A sum that comes out as the declared fill reads as missing one level up, so folds of folds need not be the fold
  (`DenseNestsExactly`, `SumTakenForFill`).
- An exact integer field without a declared fill takes the NaN token, which no integer dtype can read
  (`PipelineTotal`, `IntegersNeedFill`).
- Admission of a packed field asks only for a composable `of`; the fold needs a digest (`PipelineTotal`,
  `ComposableLinkIsNotEnough`).
- A column's sidecar can be stale, not only absent, when its fail-open delete fails as well as the put
  (`SidecarExactly`, `StaleSidecar`); and clearing a prefix object by object is safe only if the root document goes
  first (`DeleteOrderExactly`).
- The depth gate of the coverage walk is a pure saving except for derived leaves at leaf depth (`DepthGateExactly`,
  `OverviewListed`).
- The latch is re-armed by the walk itself, before the write that a successful refresh would need
  (`OneWarningPerEpisode`, `WarnedTwice`).
- The list of windows is judged before truncation, so windows can be refused that truncation would separate
  (`RefusedThoughDisjoint`, `OverlapWithinSecond`).
- The search for NaN fills does not look into a `fill_value`, the rewriting does (`LoadedExactly`, `FillInFillRefused`).
- The trimmed range is compared with the width of the window, not with the window (`TrimmedRangeExactly`,
  `NeverSticksOutExactly`, `SticksOut`).
- A unit without granules over a leaf without a catalog hash is a hit for one deduplicator and rewritten by the other
  (`LazyIsEagerExactly`, `SkipIsHitExactly`, `EmptyUnitRewritten`).
- `results` raises what the tail recorded before the first shard failure it is documented to propagate (`Tail.Results`).
- A finalize exception with an empty message does not withhold the tail marker (`MarkerSoundExactly`, `MuteRun`).

## Preconditions

- Poller: `max_retries` at least one (the constructor clamps it), a drop timeout that is not negative, a clock that does
  not run backwards, and one registration per status key, which `StatusKeyInjective` gives for distinct units; a second
  registration under one key would take the slot of the first. `on_failed` resolves the future and does not raise.
- Liveness of the poller (`Tick`, `Drain`): an in-flight window of at least one, or none, and a clock that goes on.
  Nothing is asked of the status objects or the LIST: `Drain` allows for the ticks they end. `Blockade` is about GETs
  that answer and an object that nobody overwrites.
- Streaming hash: an array with at least one axis and a fixed-width dtype; object arrays are hashed cell by cell
  (`Encoding`) and not streamed.
- Fitting a window: centroids of positive weight, where the data are quantified over (`NeverSticksOutExactly`).
- Dense folds: an integer dtype holds at least the numbers from zero to three, as all of NumPy's do.
- Digest merge (`ColumnFold.Lawful`): of two or more non-empty digests it keeps the weight, is not empty, and gives each
  channel one word per centroid. Nothing is asked of the packed merge.
- Granule ids on the hashed side are non-empty and hold no line break; a hash is identified with its preimage.

## Model

| member | source | states |
|---|---|---|
| `PollerSafety.RunsKeep` | src/zagg/client_transport.py:609-689 | Every state reachable by any interleaving of registrations, shutdown, clock, object writes and poller steps satisfies the invariant: per-entry accounts of attempts, accepted, rejected and lost invokes, re-fires and queue flag, justified verdicts, and a consistent thread position |
| `PollerSafety.StepKeeps` | src/zagg/client_transport.py:722-800 | Each single atomic step, whatever the environment chooses, keeps that invariant |
| `PollerSafety.LookKeeps` | src/zagg/client_transport.py:850-869 | Looking at one pending shard (status object, repeated id, unusable body, failed GET, deadline) leaves its account sound |
| `PollerSafety.FireEndKeeps` | src/zagg/client_transport.py:903-923 | An invoke that returns, raises without effect, or raises after the service took the event leaves a sound account |
| `PollerSafety.NextFireRoles` | src/zagg/client_transport.py:899-901 | The dispatch loop works through its batch one shard at a time, each at most once |
| `PollerRuns.BillingBound` | src/zagg/client_transport.py:1012-1066 | In every reachable state a live shard has at most max_retries dispatches and one drop re-fire, at most two invokes that returned, and as many re-fires as returned invokes while queued; without lost replies at most two billed executions |
| `PollerRuns.TwoBilledExactly` | src/zagg/client_transport.py:653-665 | The stated bound of two billed executions holds over all runs exactly when the retry budget is at most two or the window lets nothing out |
| `PollerRuns.LosingRun` | src/zagg/client_transport.py:903-923 | For every k up to the budget there is a run in which k invokes were taken by the service although each call raised |
| `PollerRuns.VerdictsSound` | src/zagg/client_transport.py:936-1096 | A future is resolved at most once, and its verdict is justified: positive object, failed object, deadline passed with the re-fire or the budget spent, or the budget burnt by faults |
| `PollerRuns.VerdictHasObject` | src/zagg/client_transport.py:936-990 | Success and worker failure are only reported from a status object that some step of the run fetched for that very shard: its key was listed and the GET answered with it |
| `PollerRuns.ResolvedIsFinal` | src/zagg/client_transport.py:722-800 | What is resolved at any prefix of a run is untouched by the rest of it |
| `PollerRuns.PassedOverExactly` | src/zagg/client_transport.py:967-978 | On a waiting shard the ids already consumed are exactly those of objects whose body was unusable, and no other object is passed over |
| `PollerRuns.NothingConsumedWhileWaiting` | src/zagg/client_transport.py:967-990 | With usable bodies a waiting shard has an empty consumed set in every reachable state |
| `PollerRuns.RegistrationAfterShutdown` | src/zagg/client_transport.py:758-800 | After shutdown every registration is resolved as not dispatched, is never tracked and never billed, under any race |
| `PollerModel.BackoffDoubles` | src/zagg/client_transport.py:84-93 | The wait doubles from one second and stays at the cap from the fifth attempt on |
| `PollerRuns.BackoffRespected` | src/zagg/client_transport.py:1047-1066 | After a faulted invoke no dispatch of that shard starts before its capped exponential backoff has run out, whatever happens in between |
| `PollerProgress.PacingWindow` | src/zagg/client_transport.py:871-901 | In every reachable state the live shards in flight fit the window, faults, re-fires and observe-only shards included |
| `PollerProgress.SelectExact` | src/zagg/client_transport.py:882-895 | A pass picks only live unresolved shards past their backoff stamp, and leaves one behind only for want of room |
| `PollerProgress.StepRank` | src/zagg/client_transport.py:841-921 | Every selection, invoke, return, re-queue or resolution strictly lowers the rank; nothing but a registration raises it |
| `PollerProgress.ActsBounded` | src/zagg/client_transport.py:871-901 | Over a whole run the poller acts at most 4 * max_retries + 1 times per registration, however the world behaves |
| `PollerProgress.RankZero` | src/zagg/client_transport.py:837-839 | The rank is zero exactly when every future is resolved |
| `PollerProgress.NextPassPicks` | src/zagg/client_transport.py:871-901 | With every stamp reached and nothing in flight the next pass picks a shard, if the window is absent or at least one |
| `PollerSafety.BatchExact` | src/zagg/client_transport.py:881-895 | The batch has no repetition and holds only queued, unresolved shards past their stamp |
| `StatusPolling.ShardEntry.constructor` | src/zagg/client_transport.py:591-607 | A new entry is that of the machine: live ones queued, observe-only ones counted as dispatched |
| `StatusPolling.StatusPoller.constructor` | src/zagg/client_transport.py:690-718 | A new poller has no entry and looks at nothing, whatever status objects are there already |
| `StatusPolling.StatusPoller.Register` | src/zagg/client_transport.py:722-781 | Registration is the machine's step on the fields: tracked unresolved before shutdown, resolved and untracked after |
| `StatusPolling.StatusPoller.Shutdown` | src/zagg/client_transport.py:788-800 | Sets the flag and nothing else |
| `StatusPolling.StatusPoller.Consume` | src/zagg/client_transport.py:936-990 | The id is recorded before the result is built; the exception of a non-object or an unusable body leaves the call |
| `StatusPolling.StatusPoller.Dropped` | src/zagg/client_transport.py:1022-1045 | The entry becomes what the machine's drop rule says: one re-fire within the budget, or failed-unknown |
| `StatusPolling.StatusPoller.LookAt` | src/zagg/client_transport.py:859-868 | One round of the scan does to the mutable entry what the machine's step says, raises exactly at an answered GET of a non-object or a new unusable body, and otherwise settles every shard past its deadline |
| `StatusPolling.StatusPoller.ScanAll` | src/zagg/client_transport.py:858-869 | The scan looks at the pending shards in order up to the first unreadable object; of the shards past their deadline it settles exactly those looked at before that object, leaves the rest as they were, and reports progress exactly when the rank fell |
| `StatusPolling.StatusPoller.ResolveLanded` | src/zagg/client_transport.py:850-869 | It raises exactly when the LIST does, with something in flight, or a fetched object is unreadable; all late shards in flight are settled when nothing raises, none when the LIST does, and those before the unreadable object when that does |
| `StatusPolling.StatusPoller.Choose` | src/zagg/client_transport.py:881-893 | One pass over the map computes the batch of the machine |
| `StatusPolling.StatusPoller.SelectBatch` | src/zagg/client_transport.py:880-895 | Picks the machine's batch and un-queues exactly those shards |
| `StatusPolling.StatusPoller.InvokeFaulted` | src/zagg/client_transport.py:1047-1066 | Re-arms the entry behind its stamp within the budget, or resolves it |
| `StatusPolling.StatusPoller.Fire` | src/zagg/client_transport.py:903-923 | One dispatch, recorded as its two machine steps, lowers the rank |
| `StatusPolling.StatusPoller.DispatchUpToWindow` | src/zagg/client_transport.py:871-901 | The unbounded loop ends, leaves no eligible shard while there is room, and returns true exactly when it fired something |
| `StatusPolling.StatusPoller.Tick` | src/zagg/client_transport.py:841-848 | Raises exactly when its scan does, and then nothing but the scan has happened; otherwise it reports progress exactly when the rank fell, leaves nothing eligible behind, and with a window of at least one (or none) does make progress once all deadlines and backoffs have passed |
| `StatusPolling.StatusPoller.Drain` | src/zagg/client_transport.py:802-825 | For a window of at least one (or none) and time that passes: exactly the given ticks take place, no more of them are ended by a LIST fault than their LISTs fail, and once there are more than the rank and the ticks ended by a LIST fault or an unreadable object, every future is resolved |
| `StatusPolling.StatusPoller.Resolve` | src/zagg/client_transport.py:802-825 | If no more than F ticks are ended by faults, rank + F + 1 ticks resolve every future; and if every status object is readable all along, more ticks than the rank and the failing LISTs do |
| `PollerProgress.ReadableSpoilsNothing` | src/zagg/client_transport.py:936-990 | Over any stretch of a run in which every status object is a JSON object with a usable body no look ends a tick |
| `StatusPolling.StatusPoller.Outage` | src/zagg/client_transport.py:814-818 | Any number of ticks whose LIST fails, with a shard in flight: each is ended by the fault, nothing happens but the LIST, no shard is looked at, resolved or dispatched; a persistent LIST fault never reaches the drop deadline |
| `StatusPolling.StatusPoller.Blockade` | src/zagg/client_transport.py:936-990 | Any number of ticks while the object of the first shard in flight is no JSON object, or has an unusable body and no attempt id, and stays there: each looks at that shard alone and is ended by it, and nothing is resolved or dispatched |
| `PollerProgress.SpoiltExactly` | src/zagg/client_transport.py:967-990 | Over every run the looks that end a tick are those at objects that are none or have no attempt id, and one per shard and attempt id of an unusable body |
| `PollerRuns.ReportLost` | src/zagg/client_transport.py:967-990 | Under every configuration there is a run in which a worker reports success in an object with an unusable body, the look consumes it, and the shard ends failed-unknown although the object is there, mended or not |
| `ShardStatus.StatusKeyInjective` | src/zagg/client_transport.py:126-139 | Distinct (shard, window) units have distinct status objects, none of which is the manifest or the tail marker |
| `ShardStatus.TransportsAgree` | src/zagg/client_transport.py:142-193 | The status a worker records makes the poller fail a shard exactly when the synchronous transport raises for the same response |
| `ContentHash.StreamingArrayHash.constructor` | src/zagg/content_hash.py:175-187 | A new hash has seen no call |
| `ContentHash.StreamingArrayHash.Invalidate` | src/zagg/content_hash.py:189-193 | The first reason sticks and the parking is emptied |
| `ContentHash.StreamingArrayHash.Update` | src/zagg/content_hash.py:201-235 | After any update the fields are what the history of calls means: latch, next row, parked rows with their exact byte count within the budget, and the bytes fed |
| `ContentHash.StreamingArrayHash.NothingRests` | src/zagg/content_hash.py:201-235 | Between calls the next row is never parked, the byte count is that of the parked rows, and it is within the budget |
| `ContentHash.StreamingArrayHash.Drain` | src/zagg/content_hash.py:231-235 | Feeding the unblocked rows ends with the first gap as the next row, which is never left parked |
| `ContentHash.StreamingArrayHash.Accept` | src/zagg/content_hash.py:219-235 | A good row is parked within the budget, fed, or trips the budget |
| `ContentHash.StreamingArrayHash.FeedRest` | src/zagg/content_hash.py:242-262 | The closing loop feeds parked rows and fill rows in order, and fails exactly on a gap without a fill |
| `ContentHash.StreamingArrayHash.Finish` | src/zagg/content_hash.py:237-262 | A digest is returned exactly when no call of the history was at fault, and it is that of all rows in order, each as written or filled |
| `ContentHashLaws.DigestExact` | src/zagg/content_hash.py:242-262 | A returned digest is that of the assembled array exactly when no row was missing or the fill bytes read the same in little-endian order, which a little-endian dtype guarantees |
| `ContentHashLaws.UnwrittenIsWrong` | src/zagg/content_hash.py:242-262 | Every big-endian array whose fill is no palindrome, finalized before any row was written, gives no fault and a wrong digest |
| `ContentHashLaws.SwappedFill` | src/zagg/content_hash.py:242-262 | Two big-endian 16-bit elements of fill one: 00 01 00 01 is fed, 01 00 01 00 is what the assembled array hashes |
| `ContentHashLaws.FaultlessUpdates` | src/zagg/content_hash.py:204-221 | A faultless history has only fitting rows in range, no index twice, and no row after the digest was first asked for |
| `ContentHashLaws.FaultSticks` | src/zagg/content_hash.py:189-206 | Once at fault a history stays at fault, for the same reason, whatever calls follow |
| `ContentHashLaws.FinishIsIdempotent` | src/zagg/content_hash.py:237-262 | Asking again after a finalize changes neither fault nor rows |
| `ContentHashLaws.CleanIsFaultless` | src/zagg/content_hash.py:219-235 | If the whole array fits the budget, distinct fitting rows in any order are never at fault, and finalizing is not either if a fill is declared or no row is missing |
| `ContentHashLaws.OrderIsImmaterial` | src/zagg/content_hash.py:145-174 | Two clean histories of the same rows in different order feed the same bytes |
| `ContentHashLaws.NoAxisNoDigest` | src/zagg/content_hash.py:175-187 | A zero-dimensional array streams as nothing although it has one element, so at least one axis is needed |
| `Encoding.ParseInvertsEncode` | src/zagg/content_hash.py:85-91 | The length-prefixed cell stream has a parser that gives the payloads back |
| `Encoding.EncodeInvertsParse` | src/zagg/content_hash.py:85-91 | The parser accepts nothing but such streams |
| `Encoding.EncodeInjective` | src/zagg/content_hash.py:85-91 | Two lists of payloads that fit their prefixes share a stream only if they are equal |
| `Encoding.HashVlen` | src/zagg/content_hash.py:82-91 | The loop digests exactly the encoding of the payloads, and raises exactly when a cell has no byte recipe or outgrows its prefix |
| `Encoding.CombinedExact` | src/zagg/content_hash.py:265-273 | The combined preimage depends on the multiset of per-array digests and determines it |
| `ColumnPipeline.ResolutionsExact` | src/zagg/column.py:133-137 | The orders are strictly descending, exactly the declared ones that fit in the leaf plus the node order, which comes last; none without a declaration at the node |
| `Chunks.CutPartitions` | src/zagg/column.py:287 | The runs of a group, in order, are the leaf's cells, each in exactly one run |
| `Chunks.OrdersNest` | src/zagg/column.py:277-287 | The source cells of a coarse cell are, in order, those of its 4^(r-s) cells at the finer order |
| `ColumnFold.FoldCellExact` | src/zagg/sweep_overview.py:394-428 | A cell folds exactly when its rows are aligned; the result carries the cell's weight, is empty exactly when all its cells are, and gives every channel one word per centroid |
| `ColumnFold.GroupFoldsExactly` | src/zagg/column.py:343-365 | A group can be folded exactly when the leaf's rows are aligned, whatever the factor |
| `ColumnFold.GroupConservesWeight` | src/zagg/column.py:326-369 | Every group carries the leaf's total weight, for any weight-preserving merge |
| `ColumnFold.HeldRows` | src/zagg/column.py:343-349 | The loop collects exactly the non-empty rows of a run, for payload and channels alike |
| `ColumnFold.FoldApproximate` | src/zagg/column.py:326-369 | The in-place fill of payload and companion arrays is the fold of every run, and refuses exactly indivisible extents and misaligned rows |
| `ColumnFold.CollectParts` | src/zagg/column.py:316-323 | The loop collects exactly the word and count of every cell with signal |
| `ColumnFold.FoldPacked` | src/zagg/column.py:296-325 | The in-place packed fold is the merge of every run's parts, or the fill word, and refuses exactly indivisible extents |
| `ColumnFold.PackedDivisorAgrees` | src/zagg/column.py:296-325 | The counts a folded word averages over sum to the weight of the folded digest at the same cell |
| `DenseFold.FoldRunExact` | src/zagg/sweep_overview.py:143-174 | A group of missing cells folds to the fill, any other to the sum of the present ones as far as the dtype holds it, the least or the greatest; the result reads as missing exactly when none was present or the sum came out as the fill |
| `DenseFold.DenseNestsExactly` | src/zagg/sweep_overview.py:143-188 | Folding a fold gives what folding at once gives, for all slabs of the dtype, exactly when the law is min or max, the fill is NaN or zero, or a factor is one |
| `DenseFold.SumTakenForFill` | src/zagg/sweep_overview.py:113-174 | With fill -1 the cells 1, -2, 3, 0 sum to 3 by way of pairs and to 2 at once |
| `ColumnPipeline.CompanionsDistinct` | src/zagg/sweep_overview.py:310-334 | A field's payload and companion arrays have names of their own |
| `ColumnPipeline.FoldField` | src/zagg/column.py:289-369 | One field of one group folds, to exactly its arrays, exactly when its law is known and its fill reads in the dtype, its digest is there, or its words are row-aligned |
| `ColumnPipeline.FoldGroup` | src/zagg/column.py:288-370 | One group is all its fields' arrays, or nothing as soon as one raises |
| `ColumnPipeline.FoldColumn` | src/zagg/column.py:231-371 | The result holds every requested resolution, each folded from the leaf itself; it is missing exactly when a resolution is finer than the leaf, an extent is indivisible or a field cannot fold |
| `ColumnPipeline.LeafSlabs` | src/zagg/column.py:180-228 | Staged arrays are taken over and absent ones become fill; refused exactly when a staged array has another extent or the fill of an absent one cannot be read in its dtype |
| `ColumnPipeline.PipelineTotal` | src/zagg/column.py:110-371 | From staged sink to column no raise is met exactly when all exact laws are known with fills their dtypes can hold, every packed field names a digest and has a fill that reads as a word, and all companion words are row-aligned |
| `ColumnPipeline.ComposableLinkIsNotEnough` | src/zagg/column.py:140-149 | A packed field whose of is composable but exact passes every filter and still cannot be folded |
| `ColumnPipeline.IntegersNeedFill` | src/zagg/sweep_overview.py:127-131 | An exact integer field with the default NaN fill cannot be folded even when fully staged; with any fill in range it can |
| `ColumnPipeline.GroupSound` | src/zagg/column.py:326-371 | In every group a digest field keeps the leaf's weight, is empty exactly over empty cells, and each companion is aligned with it row by row |
| `ColumnPipeline.GroupReduces` | src/zagg/column.py:289-295 | In every group an exact field holds at each cell the fill where no leaf cell is present, or else their sum as far as the dtype holds it, the least or the greatest |
| `ColumnPipeline.GroupDivisorAgrees` | src/zagg/column.py:296-325 | In every group a packed word is the merge of its cells, or the fill word over cells without signal, and its divisor is the weight of the digest stored at the same cell |
| `ColumnStore.ColumnWriter.WriteColumn` | src/zagg/column.py:508-579 | A write that dies after any store operation leaves exactly the prefix of its operation list applied; a fold without the node-order member touches nothing |
| `ColumnStore.ColumnWriter.ClearColumn` | src/zagg/column.py:599-625 | A clear that dies after any operation leaves exactly the prefix of its list applied |
| `ColumnCrash.RunExact` | src/zagg/column.py:508-579 | What one interrupted run leaves: untouched, unstamped, or stamped exactly when it reached its stamp, and which sidecar stands beside it |
| `ColumnCrash.StampedExactly` | src/zagg/column.py:508-579 | After any sequence of interrupted writes and clears a stamped column is whole and unmixed the fold of the last run that touched the prefix, and stamped exactly when that run reached its stamp |
| `ColumnCrash.SidecarExactly` | src/zagg/column.py:587-596 | The sidecar of a stamped column is another fold's exactly when its delete failed, no fresh one followed and a different one was there |
| `ColumnCrash.BothStepsFail` | src/zagg/column.py:587-596 | Of any two writes with different records, both carried through, the second with neither sidecar step done, the first one's record stands beside the second one's column |
| `ColumnCrash.StaleSidecar` | src/zagg/column.py:587-596 | A shard written with no granule and again with one: the stamp counts one, the sidecar none |
| `ColumnCrash.StampedHasEveryGroup` | src/zagg/column.py:511-543 | A stamped column carries the cell words and every folded array of every group, the node-order one included, and names its finest group |
| `ColumnCrash.FoldIsWritable` | src/zagg/column.py:522-543 | Everything the fold returns has an array in the template, so a write of it can be completed |
| `ColumnCrash.DeleteOrderExactly` | src/zagg/column.py:619-625 | Deleted object by object, a stamped prefix never shows missing arrays under a stamp, wherever the crash, exactly when the root document goes first |
| `GenerationKeys.ListingExact` | src/zagg/column.py:58-85 | The recorded run ids are compared as a set, however ordered or repeated |
| `GenerationKeys.StampedKeyExact` | src/zagg/column.py:88-107 | Two readings of a child have one key exactly when count, age and the set of runs agree; a rewrite by a new run always moves the key |
| `DecimalIds.TailRankRange` | src/zagg/hive.py:935-949 | Ranks of the digit tails of one depth are below 4^depth, and the tail can be read back |
| `DecimalIds.RankTailRange` | src/zagg/hive.py:943-949 | Every number below 4^depth is the rank of its tail |
| `DecimalIds.IdFromRank` | src/zagg/hive.py:930-940 | Ids of one base and order are equal exactly when their ranks are |
| `DecimalIds.LeafNameSplitsBack` | src/zagg/windows.py:253-279 | The id a leaf was named with is read back, with or without a window |
| `Coverage.Walk` | src/zagg/coverage.py:310-417 | The worklist ends, lists every digit node below the root exactly as often as it is there, and takes in exactly the leaves to be listed, each once, with the temporal bookkeeping they imply |
| `Coverage.ScanNode` | src/zagg/coverage.py:318-416 | One LIST takes in its leaves and stacks its digit nodes, losing and doubling nothing |
| `Coverage.Visit` | src/zagg/coverage.py:322-412 | A zarr child is taken in exactly when stamped, not derived, well named and of the store's order |
| `Coverage.Book` | src/zagg/coverage.py:387-406 | A shard is failed once any of its leaves failed to read, and only shards without a failure contribute, every readable leaf of them |
| `Coverage.VisitsOnce` | src/zagg/coverage.py:317-416 | No digit node is listed twice |
| `Coverage.HarvestDetermined` | src/zagg/coverage.py:387-406 | Failed shards and contributions are the same for every order of the listings, and no failed shard contributes |
| `Coverage.DepthGateExactly` | src/zagg/coverage.py:333-345 | Over a whole tree the walk lists exactly the source leaves if and only if no derived zarr that it reaches at the leaf depth, other than a column, wears a conforming id |
| `Coverage.OverviewListed` | src/zagg/coverage.py:333-345 | A store with one shard and an overview under a leaf name: the walk lists the overview |
| `RootCoverage.BuildRanges` | src/zagg/hive.py:987-1008 | The runs cover exactly the listed ids, whatever the order of the list; empty lists and foreign orders are refused |
| `RootCoverage.RangesRoundTrip` | src/zagg/coverage.py:144-157 | Rank-space containment in the built ranges is membership in the list, for ids of any order |
| `RootCoverage.UnionExact` | src/zagg/windows.py:282-302 | The union spans all time ranges and no more |
| `RootCoverage.Stores.Refresh` | src/zagg/coverage.py:235-494 | The root object is replaced by one that contains an id exactly when the tree has a leaf to be listed for it, or deleted when there is none; without a manifest or when the walk fails nothing changes; when the write fails the latch is open all the same |
| `RootCoverage.Stores.WarnIfStale` | src/zagg/coverage.py:160-199 | Stale exactly when a root object is held that does not list the shard; it warns when the latch is open, closes it, and counts in the history as one warning |
| `RootCoverage.OneWarningPerEpisode` | src/zagg/coverage.py:160-199 | Over every history a store is warned about once per stale episode, an episode ending with a successful refresh, exactly when no refresh failed at its write between two stale checks of one episode; never less often |
| `RootCoverage.LatchExact` | src/zagg/coverage.py:417 | The latch holds a store exactly when a check was stale and no refresh has got through its walk since, successful or not |
| `RootCoverage.WarnedTwice` | src/zagg/coverage.py:417-480 | A stale check, a refresh that fails at its write and another stale check: one episode, two warnings |
| `Windows.ValidateWindows` | src/zagg/config.py:1566-1632 | A list is accepted exactly when every entry reads, labels are distinct and all pairs of declared windows are disjoint |
| `Windows.NeighboursSuffice` | src/zagg/config.py:1626-1632 | Of non-empty windows sorted by start, adjacent ones are apart exactly when all pairs are disjoint |
| `Windows.GetWindowing` | src/zagg/config.py:3586-3600 | The normalized list is the declared one truncated to whole seconds, entry by entry |
| `Windows.NormalizedApart` | src/zagg/config.py:1492-1563 | For every accepted list the normalized windows are non-empty whole seconds, pairwise disjoint and distinctly labelled, and no instant passes the filters of two of them |
| `Windows.PointKeepsInstant` | src/zagg/config.py:1514-1532 | A point window normalizes to the very second that contains its timestamp |
| `Windows.RangeShifts` | src/zagg/config.py:1545-1563 | Either edge of a range moves back by less than a second |
| `Windows.RefusedThoughDisjoint` | src/zagg/config.py:1626-1632 | Of two declared windows, the earlier first, truncation would separate what validation refuses exactly when they overlap within the second of the earlier one's end |
| `Windows.OverlapWithinSecond` | src/zagg/config.py:1626-1632 | Two readable, distinctly labelled entries a tenth of a second into each other are refused, and truncated they are apart |
| `NanFills.PathExact` | src/zagg/config.py:297-318 | The walk comes back empty exactly from trees without a non-finite float, and otherwise names a path to one |
| `NanFills.LoadedExactly` | src/zagg/config.py:189-227 | A loaded tree is free of non-finite floats exactly when its only ones are NaN fills and from every container above a NaN fill some NaN fill can be reached without crossing a fill_value key |
| `NanFills.SearchExact` | src/zagg/config.py:189-199 | The search finds a NaN fill exactly when one can be reached without crossing a fill_value key |
| `NanFills.ScalarFillsExactly` | src/zagg/config.py:189-227 | With scalar fills a tree loads into strict JSON exactly when its only non-finite floats are NaNs declared as fills |
| `NanFills.FillInFillRefused` | src/zagg/config.py:189-227 | A NaN fill inside a fill_value container is refused alone and rewritten in company |
| `NanFills.NormalizeIsFinal` | src/zagg/config.py:202-227 | Rewriting leaves no NaN fill to be seen and is idempotent |
| `FitWindow.QuantileMonotone` | notebooks/export.py:31-42 | The weighted quantile is monotone and stays between the lowest and highest point |
| `FitWindow.QuantileAtMid` | notebooks/export.py:31-42 | With positive weights interpolation passes through every point at the midpoint of its own weight |
| `FitWindow.MedianOfTwo` | notebooks/export.py:34-37 | The median of two points of equal weight is halfway between them |
| `FitWindow.Trim` | notebooks/export.py:74-89 | The loop ends with the fewest alternating cuts after which the trimmed range fits, or with none within the budget |
| `FitWindow.CutsExact` | notebooks/export.py:74-83 | The far tail has had (k+1)/2 cuts with first among them, the near one k/2 |
| `FitWindow.Fit` | notebooks/export.py:45-92 | On every exit with positive weight kept is exactly the fraction of the original weight inside the returned window; the cuts are the fewest that fit and within max_drop, or there are none |
| `FitWindow.TrimmedRangeExactly` | notebooks/export.py:84-89 | Of every result with cuts: the trimmed range lies in the returned window exactly when its width and the distance of its bottom from the whole metre below stay under the span together; always when it is a metre narrower, and it never sticks out by a metre |
| `FitWindow.NeverSticksOutExactly` | notebooks/export.py:45-92 | For all parameters: the trimmed range of every list of positive centroids that gets cut stays in its window exactly when no cut is affordable or fits (first over max_drop, negative span), or the first cut takes everything and the window is at least a metre wide; for any useful parameters some list sticks out |
| `FitWindow.SticksOut` | notebooks/export.py:45-92 | Three points whose fit cuts two in a hundred, returns a window the trimmed range sticks out of, and keeps 0.97 |
| `Nesting.NestingDepth` | tools/repin_benchmark_shardmaps.py:211-226 | Ends on every input; gives the hop count exactly when the chain ends, raises exactly when it leaves the map or returns to an entry |
| `Nesting.ClosedMapRaisesForCyclesOnly` | tools/repin_benchmark_shardmaps.py:211-226 | Over a map closed under its links only cycles raise |
| `Nesting.AncestorDepth` | tools/repin_benchmark_shardmaps.py:211-226 | An ancestor is shallower by as many hops as it is up |
| `Nesting.RepinOrder` | tools/repin_benchmark_shardmaps.py:247-252 | Nothing is re-pinned when a depth raises; otherwise the chosen entries are, every chosen ancestor before its descendants |
| `Dedup.OneIdPerGranule` | src/zagg/telemetry.py:183-193 | A granule has one id under every href form, alone or paired |
| `Dedup.HashExact` | src/zagg/telemetry.py:208-224 | Catalog hashes are equal exactly when the multisets of ids are |
| `Dedup.TornWriteIsCaught` | src/zagg/dedup.py:173-229 | If every object hashes the list it carries, the list that is loaded is the one the sidecar hashes |
| `Dedup.DiffExact` | src/zagg/dedup.py:397-414 | How recorded and planned sets lie to each other decides the classification: refuse unless the plan covers the record, contraction and expansion by strict inclusion, mixed by neither |
| `Dedup.LazyIsEagerExactly` | src/zagg/dedup.py:347-414 | Comparing hashes first gives the verdict of comparing the lists, except for the empty unit over an empty record; the list is fetched exactly when hashes do not match |
| `Dedup.RefusalsNameIds` | src/zagg/dedup.py:347-414 | Missing ids are named exactly on refusal and are the recorded ones no longer planned; nothing is fetched unless the hashes differ |
| `Dedup.SkipIsHitExactly` | src/zagg/dedup.py:79-111 | Skip and hit agree on stamped leaves, except for the empty unit over a leaf without a catalog hash |
| `Dedup.EmptyUnitRewritten` | src/zagg/dedup.py:347-414 | The unit that plans nothing over a leaf that recorded nothing is current by its lists, a hit, and rewritten |
| `Tail.MarkerSoundExactly` | src/zagg/client.py:1151-1228 | Under every interleaving of tails, reattachments, crashes and lost, late or repeated events the marker stands for a finalized store exactly when no finalize exception has an empty text (or none is needed) |
| `Tail.SkipsOnlyRecorded` | src/zagg/client.py:1062-1066 | A tail is skipped only by a reattached handle on a recorded run |
| `Tail.RecordIsFinal` | src/zagg/client_transport.py:340-354 | Once recorded a run stays recorded |
| `Tail.RunsKeep` | src/zagg/client.py:1061-1235 | Every reachable state of the tails keeps the invariant that ties markers to stats events and those to finalizes |
| `Tail.MuteRun` | src/zagg/client_transport.py:303-308 | A finalize that fails twice without a message is recorded all the same |
| `Tail.FinalizeWithRetry` | src/zagg/runner.py:3446-3470 | Of the outcomes the invokes would have, the calls made are those up to the first success, or all; the error is that of the last one made, and none exactly if one would succeed |
| `Tail.RunTail` | src/zagg/client.py:1127-1180 | Every shard gives one row; the worker goes through the attempts that the outcomes of the finalize invokes call for, is finalized exactly if one succeeds, and the stats event says what the handle will raise |
| `Tail.Status` | src/zagg/client.py:247-257 | Every future is counted once, as pending, failed or ok |
| `Tail.Results` | src/zagg/client.py:259-282 | The first failed shard in key order propagates exactly when the tail recorded no error and exceptions are not to be returned; the finalize error comes before any other |
| `Tail.StatusPrefix.WriteTailStatus` | src/zagg/client_transport.py:281-320 | Writing the marker for a stats event is the machine's delivery of that event: the marker is added exactly when named, not withheld and put |
| `Tail.StatusPrefix.HandleStats` | deployment/aws/lambda_handler.py:1272-1326 | Handling a stats event is the machine's delivery of it, failed when the record could not be read or written; the marker follows the record, or an empty one |
| `Tail.StatusPrefix.ShardsSettled` | src/zagg/client.py:1061-1066 | A tail is skipped, as in the machine, exactly when its handle is reattached and finds the marker; every other goes on to finalize or to report |
| `Tail.StatusPrefix.MarkerJustified` | src/zagg/client_transport.py:340-354 | Whoever finds the marker can rely on some tail that finalized, or had no need to, unless a finalize failed without a word |

## Left out

- Cancelling a future from outside, the exceptions that would raise in the poller thread, and the wording of results
  (`granule_count`, `first_dispatched_at`, wall times).
- The poller's sleep between ticks and its cap by the next backoff stamp: it only decides how soon the next tick comes.
- The class `StatusPoller` runs a tick without interference by registering threads; interference is covered by the
  machine, whose events interleave freely.
- A caller that changes a parked row in place before it is fed: rows are values here.
- Floating-point rounding: weights, heights, times and the values of dense fields are real numbers or NaN.
- Infinities in dense fields and fills, float fills beyond the range of an integer dtype, boolean slabs, and packed
  words of another dtype than uint64.
- The insides of the digest merge, the composition merge, morton coding, SHA-256 and the zarr layout; several objects of
  one array count as one.
- A packed field whose `of` is the name of a companion array: the model refuses it, the code would misread its bytes.
- `fold_digests` filtering empty digests once more, which the fold core has already done.
- Merging the temporal sections of a partial coverage walk with the standing ones, and the cover sibling: only the
  bookkeeping that decides them is modelled.
- Which LIST or GET of the coverage walk fails (all end it alike), and time ranges that do not parse.
- Instants at the end of the calendar, where adding a second overflows.
- The other legs of the post-run tail (root coverage, sweep), which are fail-open and do not touch the marker.
- Lambda and AWS plumbing, concurrency clamps, key-by-key configuration checks, viewers, the command line, benchmarks.
- Windows.GetWindowing: stated for a validated list, which is what dispatch hands it; on others the code raises.
- Dedup.LazyIsEagerExactly: assumes that the recorded hash is the hash of the recorded list, which leaves written before
  ids became canonical do not meet.
