# TiKV import and read paths, verified

A Dafny model of six stateful parts of TiKV, with proofs of what they promise. Measurements, clock
readings, allocation addresses and the verdicts of foreign code are inputs; engines are sorted
sequences and maps.

| module | part |
|---|---|
| `DuplicateSpec`, `DuplicateDetector`, `DuplicateStream` | the duplicate detector: a per-key specification without cursor or loops, the cursor with its four nested loops and batching, and what a consumer of the response stream can rely on |
| `RaftWriter` | the per-region throttled writer: reference-counted semaphores in a map that is collected while writes come and go |
| `IngestLatch`, `IngestProtocol`, `IngestRequest` | ingest admission: the latch, the stall check and the deadline; many requests interleaved at every access; one request alone |
| `ReadPool`, `ReadPoolController`, `TimeSlice` | the unified read pool: the rescaled task limit, the pool-size controller over whole runs, the time-slice average |
| `SpawnAdmission`, `Tracker`, `Streaming` | the life of a coprocessor request: memory quota and pool admission, time keeping with the drop fast-forward, the streaming loop and the unary path |
| `MemoryLocks`, `CheckedReads`, `StaleReads`, `UncheckedReads`, `ReadProgress`, `Transactions`, `LockCheck` | reads against committing transactions: the in-memory lock check, the resolved timestamp behind stale reads, which reads neither protects, that nothing is refused without need, whole transactions, and the check as one call |
| `Checksum` | the table checksum under a prefix-rewrite rule |
| `Prelude`, `Counting` | byte strings in key order, options and results; sums over sequences for conservation arguments |

Concurrent parts are state machines: `Enabled` and `Apply` give one step, `Legal` and `After` a whole
run, and an invariant kept by every step carries the theorems over all runs. Beside them, classes run
the same operations in place. `ThrottledTlsEngineWriter.Write` equals one step of its machine.
`ThrottledTlsEngineWriter.TryGc`, `IngestRequest.Ingest`, `Endpoint.Spawn`, `Endpoint.Complete` and
`ConcurrencyManager.CheckMemoryLocksForRanges` hand out the legal run that they are when nobody else
moves. `ReadPoolConfigRunner` and `TimeSliceInspector` refine transition functions; the detector, the
checksum and the streaming loop refine specification functions.

Some statements one might expect are not true of the code as they stand. The model keeps the code and
proves when they hold:

- CPU scale-in can grow the pool when the measured CPU exceeds one core per thread
  (`CpuScaleInCanGrow`). It does not if and only if the floor of the target is at most the current
  count (`CpuScaleInShrinks`).
- For the same reason the thread count can exceed both configured sizes, on the first reading after a
  shrink (`ShrinkThenTickExceedsBound`). A run stays within them if and only if CPU scale-in never aims
  higher (`RunBound`).
- A read can miss a commit on its keys when it is not stale and at the maximum timestamp, or at an
  isolation level that checks no locks (`MaxTsReadCanMiss`, `UncheckedReadCanMiss`). Every other read
  misses nothing (`MissesExactlyWhenUnchecked`). A commit through a lock that the snapshot already
  shows is left to the snapshot's own lock check; for a stale read there is none.
- The window average of the time slices divides by the sample count cut to 32 bits
  (`LargeWindowsGoWrong`). It is the true average if and only if the count fits (`CastIsExact`).

## Model

| member | source | states |
|---|---|---|
| `DuplicateSpec.Scan.ReportIsExact` | tikv85/src/import/duplicate_detect.rs:54-175 | over a sorted snapshot that scans without error, read off the fields of its records: a pair is reported if and only if some key has a newest version above `min_commit_ts` and an older Put, unfenced if it is at or below that timestamp, that no Delete and no Put at or below it hides; the pair names that version or, with values, the newest one, and carries the value that version stored |
| `DuplicateSpec.Scan.ScanFailsExactly` | tikv85/src/import/duplicate_detect.rs:54-198 | a scan fails if and only if some position is broken, or some imported key has a newest version that is not a Put, a version that matters and does not parse, or a pair whose value is stored nowhere |
| `DuplicateSpec.Scan.KeyReportFails` | tikv85/src/import/duplicate_detect.rs:79-144 | the same for one key |
| `DuplicateSpec.Scan.PairOfSays` | tikv85/src/import/duplicate_detect.rs:177-198 | a pair carries what its version stored: the inlined value, or the one in the default column family |
| `DuplicateSpec.Scan.ReportIsOrdered` | tikv85/src/import/duplicate_detect.rs:54-175 | the pairs of any scan, failed or not, come in strict order: keys ascending, commit timestamps descending |
| `DuplicateSpec.Scan.ReportIsSound` | tikv85/src/import/duplicate_detect.rs:54-175 | a failed scan reports nothing unjustified before it fails |
| `DuplicateSpec.Scan.KeyReportIsOrdered` | tikv85/src/import/duplicate_detect.rs:79-144 | the pairs of one key are of that key and in strict order, the newest version first |
| `DuplicateSpec.Scan.KeyReportIsExact` | tikv85/src/import/duplicate_detect.rs:79-144 | the same equivalence for one key |
| `DuplicateSpec.Scan.SurvivorsAreShadowed` | tikv85/src/import/duplicate_detect.rs:106-141 | the versions a report walks over are exactly those the import shadows, stated over all positions of the snapshot |
| `DuplicateSpec.Scan.OlderPairsDescend` | tikv85/src/import/duplicate_detect.rs:104-141 | the older pairs of a report are of one key and in strictly descending commit order |
| `DuplicateSpec.Scan.OldVersionReportsNothing` | tikv85/src/import/duplicate_detect.rs:68-77 | skipping a version at or below `min_commit_ts` changes nothing, even in the middle of a key |
| `DuplicateDetector.DuplicateDetector.constructor` | tikv85/src/import/duplicate_detect.rs:27-52 | a detector starts valid, at the first record |
| `DuplicateDetector.DuplicateDetector.MoveToNextImportKey` | tikv85/src/import/duplicate_detect.rs:68-77 | stops at the first version above `min_commit_ts`, at the end, or at a broken position, without losing any report |
| `DuplicateDetector.DuplicateDetector.SkipLockAndRollback` | tikv85/src/import/duplicate_detect.rs:146-163 | passes over exactly Locks and Rollbacks of the key and says why it stopped: a Put or Delete, another key or the end, or an error |
| `DuplicateDetector.DuplicateDetector.SkipAllVersion` | tikv85/src/import/duplicate_detect.rs:165-175 | ends just past the last version of the key; fails exactly at an unreadable position |
| `DuplicateDetector.DuplicateDetector.MakeKvPair` | tikv85/src/import/duplicate_detect.rs:177-198 | the value is empty without a write, the inlined one, or the one in the default column family at the write's start; a missing one is an error |
| `DuplicateDetector.DuplicateDetector.PushPut` | tikv85/src/import/duplicate_detect.rs:107-130 | extends the report by this Put, and by the newest version before it if that is still due |
| `DuplicateDetector.DuplicateDetector.SkipRest` | tikv85/src/import/duplicate_detect.rs:106-141 | at a terminal version the report is complete, unless the rest of the key cannot be read |
| `DuplicateDetector.DuplicateDetector.CollectCurrentKeyDuplicate` | tikv85/src/import/duplicate_detect.rs:79-144 | the nested loops refine the per-key report: the pairs gain exactly the report and the cursor ends at the next key, or both fail |
| `DuplicateDetector.DuplicateDetector.TryNext` | tikv85/src/import/duplicate_detect.rs:54-66 | returns the shortest run of whole pending reports that reaches the limit, or the rest at the end, and leaves exactly the remaining reports pending; an error discards the batch being filled |
| `DuplicateDetector.DuplicateDetector.Next` | tikv85/src/import/duplicate_detect.rs:201-223 | delivers the pending responses one by one and stays exhausted, also after an error |
| `DuplicateDetector.DuplicateDetector.Drain` | tikv85/src/import/duplicate_detect.rs:201-223 | repeated `next` delivers the whole stream of the specification and terminates; `Advance` is only ever called on a valid cursor |
| `DuplicateStream.BatchesHoldWholeKeys` | tikv85/src/import/duplicate_detect.rs:54-66 | no key is split: each batch is a run of whole reports, every batch but the last reaches the limit, and would not without its last key |
| `DuplicateStream.StreamDelivers` | tikv85/src/import/duplicate_detect.rs:54-66 | a successful scan delivers all its reports and no error; a failed one delivers a prefix ending at a key boundary, fewer than a batch short, then exactly one error |
| `DuplicateStream.StreamIsExact` | tikv85/src/import/duplicate_detect.rs:54-175 | end to end: a pair is in the delivered stream if and only if some imported key justifies it, by the fields of the records and the values they stored |
| `DuplicateStream.StreamIsOrderedAndSound` | tikv85/src/import/duplicate_detect.rs:54-175 | over any sorted snapshot, failed scans included: what is delivered is justified and in strict order, so no pair comes twice |
| `DuplicateStream.BadKeyEndsTheScan` | tikv85/src/import/duplicate_detect.rs:85-102 | the first key that cannot be reported ends the scan, with the reports of the records before it |
| `DuplicateStream.NonPutNewestStopsTheStream` | tikv85/src/import/duplicate_detect.rs:85-102 | a newest version that is not a Put: whole batches that are a prefix of what the earlier keys report, then exactly one error, then nothing |
| `DuplicateStream.AgreeOnReport` | tikv85/src/import/duplicate_detect.rs:79-144 | a report depends only on the versions of its own key |
| `DuplicateStream.KeyOnlyKeyReport` | tikv85/src/import/duplicate_detect.rs:86-130 | key by key, a key-only scan reports the value scan without values and without the newest version |
| `DuplicateStream.KeyOnlyScan` | tikv85/src/import/duplicate_detect.rs:86-130 | the same for every whole scan |
| `RaftWriter.InFlightIsBounded` | tikv85/src/import/raft_writer.rs:55-126 | in every interleaving of writes, permits, completions, dropped futures, handles and collection, also after the map is freed: at most `max_permit` writes of a region are in flight and all its live writes share one semaphore |
| `RaftWriter.StepKeepsInv` | tikv85/src/import/raft_writer.rs:55-126 | each step keeps: live writes use their region's semaphore, its strong count is theirs plus one while the map has it, and permits are conserved |
| `RaftWriter.RunKeepsInv` | tikv85/src/import/raft_writer.rs:55-126 | the same over whole runs |
| `RaftWriter.NewWriteKeepsInv` | tikv85/src/import/raft_writer.rs:60-70 | taking or making the semaphore under the mutex keeps the invariant |
| `RaftWriter.TaskStepKeepsInv` | tikv85/src/import/raft_writer.rs:71-102 | acquiring, releasing and dropping the reference outside the mutex keep it, also while a collection is under way |
| `RaftWriter.TestEntryIsExact` | tikv85/src/import/raft_writer.rs:111-126 | a region is condemned if and only if it has no live write at that moment |
| `RaftWriter.EvictKeepsInv` | tikv85/src/import/raft_writer.rs:111-126 | evicting a condemned region strands no write, although its count was read in an earlier step |
| `RaftWriter.SomeWriteCanStep` | tikv85/src/import/raft_writer.rs:55-103 | with `max_permit` at least 1, while a write lives some write of its region can take its next step |
| `RaftWriter.PermitIffRoom` | tikv85/src/import/raft_writer.rs:32-38 | a queued write gets its permit if and only if fewer than `max_permit` writes of its region are in flight; it can release or leave whenever it is that far |
| `RaftWriter.AllPermitsCanBeUsed` | tikv85/src/import/raft_writer.rs:63-76 | for every region some run has exactly `max_permit` of its writes in flight at once |
| `RaftWriter.CollectorCanStep` | tikv85/src/import/raft_writer.rs:111-126 | a collector that holds the mutex can go on until it is done |
| `RaftWriter.HandleGuards` | tikv85/src/import/raft_writer.rs:111-116 | when handles may be cloned, dropped and counted |
| `RaftWriter.AliveIffUsed` | tikv85/src/import/raft_writer.rs:152-155 | no leak and no dangling reference: a semaphore is alive if and only if the map has it or a live write holds it |
| `RaftWriter.FreeKeepsInv` | tikv85/src/import/raft_writer.rs:152-155 | the last handle frees the map: idle semaphores go, those of live writes keep their counts |
| `RaftWriter.EntryRun` | tikv85/src/import/raft_writer.rs:119-119 | one entry of a collection: its count is one exactly when the region is idle, and then entry and semaphore go; as a run of the protocol |
| `RaftWriter.ThrottledTlsEngineWriter.constructor` | tikv85/src/import/raft_writer.rs:129-164 | an empty map with one handle |
| `RaftWriter.ThrottledTlsEngineWriter.Write` | tikv85/src/import/raft_writer.rs:55-103 | refines the protocol's new-write step and keeps the invariant |
| `RaftWriter.ThrottledTlsEngineWriter.TryGc` | tikv85/src/import/raft_writer.rs:111-126 | removes exactly the regions without a live write, leaves the other semaphores alone, and stops for good when no other handle is left; it is a run of the protocol |
| `IngestLatch.TriggersGiveThreshold` | tikv85/src/import/ingest.rs:98-158 | from which count on the stall check refuses, for every environment: an unknown region always; otherwise exactly where level 0 with that count reaches both triggers, outside import mode and if the engine can tell |
| `IngestLatch.StallIsMonotone` | tikv85/src/import/ingest.rs:98-158 | what is refused stays refused, for the same reason, with more in flight |
| `IngestLatch.IngestLatch.AcquireLock` | tikv85/src/import/ingest.rs:34-38 | true exactly when the slot was free; an unparsable uuid is an error that changes nothing |
| `IngestLatch.IngestLatch.ReleaseLock` | tikv85/src/import/ingest.rs:40-44 | true exactly when the slot was held |
| `IngestLatch.IngestLatch.CountSstsInCf` | tikv85/src/import/ingest.rs:46-50 | the number of latched files of the column family |
| `IngestLatch.SuspendDeadline.CheckSuspend` | tikv85/src/import/ingest.rs:57-68 | the answer tells the future: every check before that much time has passed refuses, every later one admits |
| `IngestLatch.SuspendDeadline.SuspendRequests` | tikv85/src/import/ingest.rs:70-82 | answers what the check would have said; from then on it refuses exactly until the new deadline |
| `IngestLatch.SuspendDeadline.AllowRequests` | tikv85/src/import/ingest.rs:84-95 | answers what the check would have said; from then on it never refuses |
| `IngestRequest.Ingest` | tikv85/src/import/ingest.rs:258-320 | one request alone: which of the four answers it gets, as a condition on deadline, stall check and latch; every exit leaves the latch as it was; and it is a run of the protocol that ends with the request finished, in which the steps tell the answers apart |
| `IngestRequest.AcquireAll` | tikv85/src/import/ingest.rs:294-299 | latches exactly the files that are free and distinct, and all of them if and only if the request can be latched |
| `IngestRequest.ReleaseAll` | tikv85/src/import/ingest.rs:300-320 | releasing the acquired files restores the latch; no release finds its slot missing |
| `IngestProtocol.StepKeepsInv` | tikv85/src/import/ingest.rs:258-320 | each step of any request keeps the latch the disjoint union of what the requests hold, with one guard holder |
| `IngestProtocol.RunKeepsInv` | tikv85/src/import/ingest.rs:258-320 | the same over every interleaving |
| `IngestProtocol.HoldersAreDisjoint` | tikv85/src/import/ingest.rs:33-44 | two requests never hold the same file |
| `IngestProtocol.IngestingIsExclusive` | tikv85/src/import/ingest.rs:258-320 | files of requests in the ingest phase are latched, have a path, and belong to one place of one request |
| `IngestProtocol.BadRequestIsRejected` | tikv85/src/import/ingest.rs:294-307 | a request naming a file twice, or one without a path, never reaches the ingest phase |
| `IngestProtocol.ReleaseNeverFails` | tikv85/src/import/ingest.rs:300-318 | at every release the slot is in the latch, is the request's own, and is the only one removed |
| `IngestProtocol.SomeRequestCanStep` | tikv85/src/import/ingest.rs:258-320 | nobody is stuck: an unfinished request can step, unless it waits for the guard, and then the holder can |
| `IngestProtocol.QuiescentLatchIsEmpty` | tikv85/src/import/ingest.rs:258-320 | when all requests have finished, by whatever exit, the latch is empty |
| `IngestProtocol.WriteCfIsBounded` | tikv85/src/import/ingest.rs:277-299 | if the stall check refuses from T on and requests name at most k write-CF files, the write-CF slots never exceed T - 1 + k in any interleaving |
| `IngestProtocol.AcquireKeepsBounded` | tikv85/src/import/ingest.rs:294-299 | while a request acquires, it alone takes the count past the threshold |
| `IngestProtocol.StepKeepsBounded` | tikv85/src/import/ingest.rs:277-320 | every other step keeps the bound |
| `ReadPool.LimitFollowsPool` | tikv85/src/read_pool.rs:252-287 | over every sequence of resizes and limit changes, `max_tasks` is at most the per-worker limit times the pool size, and equal if and only if no size visited since overflowed |
| `ReadPool.ResizeKeepsTracking` | tikv85/src/read_pool.rs:252-272 | one resize keeps both |
| `ReadPool.ReadPoolHandle.constructor` | tikv85/src/read_pool.rs:519-522 | the built pool has the saturated product as its limit |
| `ReadPool.ReadPoolHandle.ScalePoolSize` | tikv85/src/read_pool.rs:252-272 | the limit is rescaled with the pool, by division and saturating product |
| `ReadPool.ReadPoolHandle.SetMaxTasksPerWorker` | tikv85/src/read_pool.rs:274-287 | the new limit at the current size |
| `ReadPool.CpuScaleInShrinks` | tikv85/src/read_pool.rs:735-767 | CPU scale-in leaves a pool no larger if and only if the floor of the target is at most its size, and shrinks one of two or more threads if and only if it is less; with at most one core per thread it is |
| `ReadPool.CpuScaleInCanGrow` | tikv85/src/read_pool.rs:735-767 | a reading within the quota but above one core per thread for which scale-in grows the pool |
| `ReadPool.TickIsExact` | tikv85/src/read_pool.rs:742-776 | any tick but CPU scale-in, in numbers: when exactly the pool grows, shrinks or stays, with the thresholds 0.9, 0.8, 0.7 and three tasks per thread, and that it grows only if one more thread at the present CPU per thread stays below what is allowed |
| `ReadPool.ScaleInIsExact` | tikv85/src/read_pool.rs:753-767 | CPU scale-in, in numbers: above 1.1 times what is allowed the pool goes to the largest count that the allowed cores cover or that would bring its CPU down to them, at least one |
| `ReadPool.NextIsPositive` | tikv85/src/read_pool.rs:720-783 | no tick takes the pool below one thread, even with a minimum of zero |
| `ReadPoolController.ThreadBranchesNeverUndo` | tikv85/src/read_pool.rs:742-750 | thread-usage scale-in and scale-out exclude each other, here and one step on |
| `ReadPoolController.CpuScaleInConverges` | tikv85/src/read_pool.rs:735-767 | under CPU pressure the count reaches max(floor(target), 1) and stays |
| `ReadPoolController.OscillationReachesCore` | tikv85/src/read_pool.rs:720-783 | when the pool bounces, a larger one first shrinks to the configured size |
| `ReadPoolController.TicksSettle` | tikv85/src/read_pool.rs:720-783 | under constant readings, from any size: a fixed count, or alternation between core - 1 and core, the latter exactly when CPU is low and thread usage asks to shrink at core |
| `ReadPoolController.EventBound` | tikv85/src/read_pool.rs:671-783 | for any reading: an event keeps handle size equal to the current count, at least 1, and equal to core when auto-adjust is off; it keeps the count within max(core, max) if and only if CPU scale-in aims no higher |
| `ReadPoolController.OneCorePerThreadIsRestrained` | tikv85/src/read_pool.rs:735-767 | a reading of at most one core per thread aims no higher |
| `ReadPoolController.RunBound` | tikv85/src/read_pool.rs:671-783 | over every run, whatever is measured: the same agreement; and the count is within bounds all along if and only if every tick is restrained |
| `ReadPoolController.ShrinkThenTickExceedsBound` | tikv85/src/read_pool.rs:575-624 | a run that leaves the bounds: the first reading after a shrink is that of the larger pool |
| `ReadPoolController.StartedRunBound` | tikv85/src/read_pool.rs:815-837 | so in particular for a runner as it is set up |
| `ReadPoolController.TicksIterate` | tikv85/src/read_pool.rs:704-783 | the runner's ticks are the iteration that the settling theorem is about |
| `ReadPoolController.LastConfigurationWins` | tikv85/src/read_pool.rs:671-697 | over every run the last configured size, auto-adjust flag and CPU threshold are the ones in force |
| `ReadPoolController.EventChangesOnly` | tikv85/src/read_pool.rs:671-734 | a task changes its own setting only; a tick without readings or without auto-adjust changes nothing |
| `ReadPoolController.RunLimitFollowsPool` | tikv85/src/read_pool.rs:671-783 | over every run the handle's limit is the per-worker limit in force times the size, unless some size since overflowed |
| `ReadPoolController.ReadPoolConfigRunner.constructor` | tikv85/src/read_pool.rs:815-837 | the runner starts at its configured size |
| `ReadPoolController.ReadPoolConfigRunner.Run` | tikv85/src/read_pool.rs:671-697 | refines the task transition; keeps the runner consistent and within bounds |
| `ReadPoolController.ReadPoolConfigRunner.AdjustPoolSize` | tikv85/src/read_pool.rs:720-783 | refines the tick; keeps the runner consistent, and within bounds if and only if the tick is restrained |
| `SpawnAdmission.QuotaAndGaugesAreExact` | tikv85/src/coprocessor/endpoint.rs:870-892 | at every atomic step of any number of spawns: quota in use is what the spawns holding it asked for, grants stay within the highest capacity set, each gauge is its number of unfinished tasks |
| `SpawnAdmission.NothingIsLeftBehind` | tikv85/src/coprocessor/endpoint.rs:870-892 | once every spawn has run, been refused or failed, quota and gauges are zero |
| `SpawnAdmission.QuotaConserved` | tikv85/components/tikv_util/src/memory.rs:272-302 | freeing gives back exactly what was taken; the repair of a negative counter never triggers |
| `SpawnAdmission.GrantsStayWithinCapacity` | tikv85/components/tikv_util/src/memory.rs:272-285 | optimistic additions that will be undone never let two grants exceed the capacity together |
| `SpawnAdmission.GrantsStayBelowTheAsked` | tikv85/components/tikv_util/src/memory.rs:226-262 | over every run, grants together never exceed the largest capacity that was asked for |
| `SpawnAdmission.CapacityIsKept` | tikv85/components/tikv_util/src/memory.rs:235-262 | a capacity is taken as it is, unless it is beyond the signed range |
| `SpawnAdmission.CastLetsThrough` | tikv85/components/tikv_util/src/memory.rs:272-285 | over capacity, the cast lets every size through the first test, to be refused by the second |
| `SpawnAdmission.EverySpawnCanStep` | tikv85/src/coprocessor/endpoint.rs:870-892 | admission never blocks: a spawn that is not done can take its next step |
| `SpawnAdmission.GaugesConserved` | tikv85/src/read_pool.rs:149-197 | each gauge changes only with a task of its priority |
| `SpawnAdmission.RunningTasksAreBounded` | tikv85/src/read_pool.rs:156-193 | with at most n spawns of a priority between check and increment, its running count never exceeds `max_tasks` + n - 1 |
| `SpawnAdmission.GaugeOvershootIsBounded` | tikv85/src/read_pool.rs:156-193 | the same from any consistent state |
| `SpawnAdmission.MemoryQuota.constructor` | tikv85/components/tikv_util/src/memory.rs:226-239 | empty, with the capacity cut to the signed range |
| `SpawnAdmission.MemoryQuota.Alloc` | tikv85/components/tikv_util/src/memory.rs:272-285 | granted exactly when it fits, also when more is in use than the capacity and the cast lets the first test pass |
| `SpawnAdmission.MemoryQuota.Release` | tikv85/components/tikv_util/src/memory.rs:287-302 | gives back what is in use and never leaves the counter negative |
| `SpawnAdmission.Endpoint.Spawn` | tikv85/src/coprocessor/endpoint.rs:870-892 | which of the three results, that a refused or failed spawn changes neither quota nor gauges, and that it is a run of the protocol |
| `SpawnAdmission.Endpoint.Complete` | tikv85/src/read_pool.rs:178-193 | completing any running task of a consistent state undoes its spawn, as a run of the protocol |
| `TimeSlice.WindowsPartitionTheHistogram` | tikv85/src/read_pool.rs:375-406 | over every run, panics included: the mirror equals the average, which is that of the accepted windows, and these partition time and samples with nothing lost or counted twice |
| `TimeSlice.UpdateTakesTheWindow` | tikv85/src/read_pool.rs:393-406 | no window is passed over: an update leaves less than 0.1 seconds or no sample behind, takes all or nothing, and panics exactly at a multiple of 2^32 samples |
| `TimeSlice.MergedIsTotal` | tikv85/src/read_pool.rs:382-392 | every level counts once |
| `TimeSlice.EwmaIsBounded` | tikv85/src/read_pool.rs:375-406 | the average stays between 0 and the largest window average |
| `TimeSlice.EqualWindowsConverge` | tikv85/src/read_pool.rs:375-406 | n windows of average a leave 0.7^n of the distance to a; from zero they give a(1 - 0.7^n) |
| `TimeSlice.CastIsExact` | tikv85/src/read_pool.rs:393-398 | a window yields its true average if and only if its count fits in 32 bits |
| `TimeSlice.LargeWindowsGoWrong` | tikv85/src/read_pool.rs:393-398 | a window of 2^32 + 1 samples with a wrong average, and one of 2^32 samples that panics and poisons the mutex for good |
| `TimeSlice.SmallHistogramsNeverPanic` | tikv85/src/read_pool.rs:393-398 | while the histogram holds fewer than 2^32 samples no update panics and every window fits |
| `TimeSlice.TimeSliceInspector.constructor` | tikv85/src/read_pool.rs:357-373 | everything starts at zero |
| `TimeSlice.TimeSliceInspector.Update` | tikv85/src/read_pool.rs:375-406 | merges the levels, judges the window, and updates average, mirror and marks together or not at all; panics as the transition does |
| `CheckedReads.CheckedReadMissesNothing` | tikv85/src/coprocessor/endpoint.rs:895-931 | a non-stale, lock-checking read below the maximum timestamp that passes its range loop: every data commit at or below its timestamp on its keys is in its snapshot, or goes through a lock the snapshot shows or one it bypasses, in every interleaving with async-commit, one-phase and ordinary transactions |
| `StaleReads.StaleReadIsComplete` | tikv85/components/raftstore/src/store/worker/read.rs:1036-1061 | a stale read that passes the gate has in its snapshot every data commit at or below its timestamp that is ever made, on any key |
| `StaleReads.StaleReadMissesNothing` | tikv85/components/raftstore/src/store/worker/read.rs:586-612 | so it misses nothing, at any isolation level |
| `StaleReads.ResolvedTsIsSafe` | tikv85/components/resolved_ts/src/resolver.rs:415-486 | in every run, whatever is committed from any moment on is above the resolved timestamp of that moment |
| `UncheckedReads.MissesExactlyWhenUnchecked` | tikv85/src/coprocessor/endpoint.rs:895-931 | a read can miss a commit if and only if it is not stale, is at the maximum timestamp or checks no locks, and has a key and an unbypassed earlier transaction to miss |
| `CheckedReads.StepKeepsInv` | tikv85/src/coprocessor/endpoint.rs:895-931 | each step keeps: on a key dealt with, what a writer has published or is about to publish is harmless to the read |
| `CheckedReads.RunKeepsInv` | tikv85/src/coprocessor/endpoint.rs:895-931 | the same over whole runs |
| `CheckedReads.TableStepKeepsInv` | tikv85/src/storage/txn/actions/prewrite.rs:814-865 | a writer that reads the maximum timestamp and publishes under the key's mutex keeps it |
| `CheckedReads.StoreStepKeepsInv` | tikv85/src/storage/txn/actions/prewrite.rs:814-865 | so do writing the lock, a one-phase commit, an ordinary write and its grant, committing and rolling back |
| `CheckedReads.VisitKeepsInv` | tikv85/components/concurrency_manager/src/lock_table.rs:69-82 | so does visiting a key of the table; the mutex makes the reader wait for a publishing writer |
| `CheckedReads.EndRangeKeepsInv` | tikv85/components/concurrency_manager/src/lock_table.rs:91-109 | so does leaving a range with no further key in the table, although writers may enter behind the cursor |
| `CheckedReads.PassingIsHarmless` | tikv85/components/txn_types/src/lock.rs:464-553 | below the maximum timestamp, a lock the read may ignore commits above it, is bypassed, or carries no data |
| `CheckedReads.PassesExactly` | tikv85/components/txn_types/src/lock.rs:464-553 | which locks a read passes over, in both directions and for each isolation level: with snapshot isolation below the maximum timestamp exactly the harmless ones, at the maximum also an ordinary lock on its primary key |
| `ReadProgress.RefusalIsNeeded` | tikv85/components/txn_types/src/lock.rs:464-513 | what snapshot isolation refuses would be missed: had the reader gone on past such a lock, some run would end with a commit it has missed |
| `ReadProgress.ReadGoesThrough` | tikv85/src/coprocessor/endpoint.rs:895-931 | a read that nothing blocks goes through and reads the store as it is |
| `ReadProgress.ReaderCanStep` | tikv85/components/concurrency_manager/src/lock_table.rs:69-109 | a reader is never stuck: it can step, or the writer of the key it must visit next can publish |
| `MemoryLocks.StampIsLeast` | tikv85/src/storage/txn/actions/prewrite.rs:826-831 | the published commit timestamp is the least that the writer may take |
| `MemoryLocks.RangeSplits` | tikv85/src/coprocessor/endpoint.rs:907-911 | a range splits at a key inside it: start included, end excluded, empty means no bound |
| `Transactions.OnePhaseRun` | tikv85/src/storage/txn/actions/prewrite.rs:814-865 | a one-phase transaction that nobody gets in the way of commits in one write, at the least timestamp it may, and leaves no lock |
| `Transactions.AsyncCommitRun` | tikv85/src/storage/txn/actions/prewrite.rs:814-865 | an async-commit transaction can commit at any timestamp from the least one on |
| `Transactions.OrdinaryCommitRun` | tikv85/components/resolved_ts/src/resolver.rs:309-409 | an ordinary transaction commits at the timestamp it is granted after its lock is written; the log tracks and untracks it |
| `Transactions.KeyGuards` | tikv85/components/concurrency_manager/src/key_handle.rs:76-96 | exactly what each step of a transaction asks of its key |
| `StaleReads.StepKeepsInv` | tikv85/components/resolved_ts/src/advance.rs:108-144 | each step keeps: written and unwritten locks commit above the resolved timestamp, and above every advance under way or queued unless they will be tracked before it is handled |
| `StaleReads.WritersStaySafe` | tikv85/components/resolved_ts/src/advance.rs:118-125 | raising the maximum timestamp first makes every later writer safe |
| `StaleReads.ScanKeepsAdvance` | tikv85/components/concurrency_manager/src/lib.rs:437-452 | the walk over the lock table covers the writers that came before, one key at a time |
| `StaleReads.TrackingStaysExact` | tikv85/components/resolved_ts/src/resolver.rs:309-409 | once its queue is handled, the resolver tracks exactly the written data locks |
| `StaleReads.QueueStaysSafe` | tikv85/components/resolved_ts/src/advance.rs:133-144 | what is written after an advance was queued does not need to be tracked by it |
| `StaleReads.ResolvedTsAdvances` | tikv85/components/resolved_ts/src/advance.rs:108-144 | an advance that nothing interrupts takes the resolved timestamp exactly to the oldest of the placement driver's latest timestamp, the published and the tracked locks, so the gate opens |
| `StaleReads.ScanAll` | tikv85/components/concurrency_manager/src/lib.rs:437-452 | the walk over the lock table finds exactly the oldest published lock, whatever the table holds |
| `StaleReads.ResolveIsSafe` | tikv85/components/resolved_ts/src/resolver.rs:415-486 | handling an advance moves the resolved timestamp only as far as is safe |
| `StaleReads.OldestExists` | tikv85/components/resolved_ts/src/resolver.rs:570-610 | the oldest of the advance and the tracked locks exists, so handling is never stuck |
| `UncheckedReads.MaxTsReadCanMiss` | tikv85/components/concurrency_manager/src/lib.rs:200-208 | a run in which a read at the maximum timestamp misses a commit |
| `UncheckedReads.UncheckedReadCanMiss` | tikv85/src/storage/mod.rs:3485-3487 | a run in which a read that checks no locks misses a commit |
| `LockCheck.ConcurrencyManager.UpdateMaxTs` | tikv85/components/concurrency_manager/src/lib.rs:200-240 | raises the maximum, except at the maximum timestamp or beyond the limit |
| `LockCheck.ConcurrencyManager.ReadRangeCheck` | tikv85/components/concurrency_manager/src/lock_table.rs:69-109 | the first blocking lock of the range in table order, or none if no lock of the range blocks; it is the reader's walk in the protocol |
| `LockCheck.ConcurrencyManager.CheckMemoryLocksForRanges` | tikv85/src/coprocessor/endpoint.rs:895-931 | the read goes ahead if and only if its timestamp is accepted and its level ignores locks or none on its keys blocks it; a reported lock is a blocking one on its keys; what it does to the maximum timestamp; and it is a run of the protocol |
| `Tracker.Tracker.constructor` | tikv85/src/coprocessor/tracker.rs:92-114 | a new tracker has no times |
| `Tracker.Tracker.OnScheduled` | tikv85/src/coprocessor/tracker.rs:126-135 | records the scheduling wait; keeps the books |
| `Tracker.Tracker.OnSnapshotFinished` | tikv85/src/coprocessor/tracker.rs:137-146 | records the snapshot wait and the total wait so far; keeps the books |
| `Tracker.Tracker.OnBeginAllItems` | tikv85/src/coprocessor/tracker.rs:148-156 | records the time to build the handler; keeps the books |
| `Tracker.Tracker.OnBeginItem` | tikv85/src/coprocessor/tracker.rs:158-174 | the first item opens after a gap, later ones add their suspension to the wait; from the request's start to now is wait + build + process + gap |
| `Tracker.Tracker.OnFinishItem` | tikv85/src/coprocessor/tracker.rs:176-191 | adds the item's process time; the same sum holds at its finish |
| `Tracker.Tracker.GetItemExecDetails` | tikv85/src/coprocessor/tracker.rs:204-210 | the process time and suspension of the item just finished, and the wait so far |
| `Tracker.Tracker.GetExecDetails` | tikv85/src/coprocessor/tracker.rs:214-221 | process and wait reported never exceed the time since the request began |
| `Tracker.Tracker.OnFinishAllItems` | tikv85/src/coprocessor/tracker.rs:261-271 | the lifetime covers all parts, and the times are reported |
| `Tracker.Tracker.Track` | tikv85/src/coprocessor/tracker.rs:273-276 | effective exactly when the items are finished and not yet reported |
| `Tracker.Tracker.Drop` | tikv85/src/coprocessor/tracker.rs:453-475 | from every stage: ends tracked, reported exactly once, sums intact, without an unexpected stage |
| `Streaming.ItemsUpToTheFirstStop` | tikv85/src/coprocessor/endpoint.rs:752-786 | the items are the handler's results up to and including the first error or finished response, none for a missing one, and the handler is not called again |
| `Streaming.SurvivingStream` | tikv85/src/coprocessor/endpoint.rs:721-789 | item by item: a shut gate gives one failure and nothing else; otherwise each response before the first stop is one reply in order, then the error, nothing, or the finished response |
| `Streaming.DroppedStreamIsAPrefix` | tikv85/src/coprocessor/endpoint.rs:752-786 | a stream dropped at any suspension point carries the replies so far |
| `Streaming.HandleStreamRequest` | tikv85/src/coprocessor/endpoint.rs:721-789 | on every path, early returns and drops included: the items and calls of the specification, and the tracker reported exactly once |
| `Streaming.ServeItems` | tikv85/src/coprocessor/endpoint.rs:752-786 | the loop refines the item specification |
| `Streaming.HandleUnaryRequest` | tikv85/src/coprocessor/endpoint.rs:431-515 | the unary path on every early return and every drop, from before its first poll on: which way it ends, and the tracker reported exactly once |
| `Checksum.HandleRequest` | tikv85/src/coprocessor/checksum.rs:58-97 | the loop over prefix-seeded digests answers the summary of the table with its old prefix; an error exactly when the algorithm is unknown, the scan fails or a key lacks the new prefix |
| `Checksum.OneRowAnswer` | tikv85/src/coprocessor/checksum.rs:74-86 | on the bytes: the digest of a row steps over the old prefix, the rest of the key and the value, and the counts are one row and those bytes |
| `Checksum.ChangedValueShows` | tikv85/src/coprocessor/checksum.rs:104-113 | changing one row's value among others changes the checksum if and only if the finished digests of the two rows differ |
| `Checksum.AnswerFailsExactly` | tikv85/src/coprocessor/checksum.rs:58-81 | a request fails if and only if the algorithm is unknown, the scan fails or some key lacks the new prefix |
| `Checksum.ChecksumSurvivesRewrite` | tikv85/src/coprocessor/checksum.rs:64-91 | a table moved to a new prefix, under the rule, answers the same as the original under none |
| `Checksum.RewriteIsUndone` | tikv85/src/coprocessor/checksum.rs:64-91 | restoring a rewritten table gives the original back |
| `Checksum.RowContribution` | tikv85/src/coprocessor/checksum.rs:104-113 | a row digested from the prefix state in two pieces contributes what the restored row digested whole would; its byte count never underflows |
| `Checksum.Digest.WriteConcat` | tikv85/src/coprocessor/checksum.rs:104-113 | writing in two pieces is writing the whole |
| `Checksum.AnswerIgnoresOrder` | tikv85/src/coprocessor/checksum.rs:58-97 | under any rule, failing scans included: the answer does not depend on the order of the rows or on where the scan fails |
| `Checksum.AnswerSplits` | tikv85/src/coprocessor/checksum.rs:58-97 | under any rule, failing scans included: a request over a table split into ranges answers what the requests over the parts answer together, by XOR and addition |
| `Checksum.SummarySplits` | tikv85/src/coprocessor/checksum.rs:64-91 | the same of the reference summaries |

## Left out

- Error kinds and messages: a failing operation answers `Err` or `KeyError`; which error it is and how
  it becomes a response is not modelled.
- Key and write-record encodings, iterator bounds and engine I/O: a scan is a sequence of decoded
  records, with `Broken` and unparsable ones among them. The batch sizes of the two modes are the
  parameter `limit`.
- DuplicateDetector.DuplicateDetector.constructor: takes the snapshot already seeked to the range's
  start; it assumes the engine's order, keys ascending and versions newest first.
- RaftWriter.SomeWriteCanStep: says that some write can step, not that a particular one eventually
  does; the semaphore's queueing order and its closing are not modelled.
- IngestRequest.Ingest: an `ingest` future that is dropped half-way is not a step; requests run to their end.
  The region checks and the Raft command inside the ingest phase are one step with any outcome.
- IngestLatch.SuspendDeadline.CheckSuspend: the clock is a parameter.
- ReadPool.ReadPoolHandle.ScalePoolSize: the worker threads follow at once. The `FuturePools` variant
  and cloned handles with limits of their own are left out, as is the notification of a new size.
- ReadPoolController.ReadPoolConfigRunner.AdjustPoolSize: readings are real numbers; floating-point
  rounding at the thresholds is not modelled. Sampling CPU and thread usage is an input.
- ReadPool.ScaleInIsExact: for fewer than 2^64 threads and cores, where the cast to an integer does not
  saturate.
- TimeSlice.TimeSliceInspector.Update: averages are real numbers; nanosecond truncation and 64-bit
  overflow of the counters are not modelled.
- SpawnAdmission.QuotaAndGaugesAreExact: counters do not wrap at 64 bits; `alloc_force` is not used by
  the endpoint and not modelled.
- CheckedReads.CheckedReadMissesNothing: the placement driver is a counter, and a read that is not stale
  is at a timestamp it has given out or at the maximum.
- StaleReads.StaleReadIsComplete: one region on its leader. A replica pairs the resolved timestamp with
  an apply index, which is not modelled; nor are region changes that stop the resolver, and the large
  transactions that it tracks by their commit timestamp. Writing a lock and queueing its log entry are
  one step; in the code both come before the writer leaves the lock table.
- LockCheck.ConcurrencyManager.UpdateMaxTs: whether the limit on new timestamps accepts one is a
  parameter; the rule behind it asks the placement driver.
- LockCheck.ConcurrencyManager.CheckMemoryLocksForRanges: the table stands still during the call; the
  interleaved form is the state machine.
- Tracker: the clock never goes back. Statistics, scan details, perf contexts, slow logs and metrics are
  not modelled; `observations` counts the reports.
- Streaming.HandleStreamRequest: the handler is a function of the call number. A stream without end is
  covered up to any number of suspension points.
- Checksum: the digest is any fold over bytes into 64 bits; the polynomial itself plays no role in the
  proofs. Row and byte totals do not wrap.
- Parsing of requests, the DAG and analyze handlers, `coprocessor_v2`, the response cache, raw storage,
  configuration plumbing and the servers are not part of this model.
