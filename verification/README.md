# A verified model of the LSM key-value store

This project models a small durable key-value store, from its byte formats up to the open
database, and proves that it behaves as a plain map across flushes, compactions, crashes
and reopenings. `dafny verify dfyconfig.toml` checks all of it.

The layers, bottom up:

* **Codecs.** `Bytes`, `Varint`, `Bloom`: byte order and fixed-width numbers, base-128
  varints (the encoding of Protocol Buffers), the key filter. `Manifest`: the binary form
  of the table list, file names, and the operations on the list.
* **Tables.** `Block`, `Table`, `TableWriter`, `TableReader`, `TableIter`: prefix-compressed
  blocks with restart points, the index, the footer; the writer as a class, lookups and
  iterators over the bytes. A table file is a searchable encoding of a sorted list. `Sizes`:
  how many entries a table can hold before a stored length or offset could overflow.
  `Formats`: every stored form, those of log and manifest too, field by field with its
  constants, apart from the functions that write and read it.
* **Memtable.** `SkipList`: towers of forward pointers changed in place, refining a sorted
  list with newest-number-wins updates (`Entries`).
* **Log.** `Wal`: frames, payloads, and recovery of arbitrary or cut files. `WalLog`: the
  open log with its sync policy.
* **Merge.** `Merge`: the binary heap and the k-way merge. `Compaction`: which tables are
  merged, and what a merge leaves for readers.
* **Engine.** `History`: what tables and log must hold to represent a history of writes.
  `Engine`: a state machine with one step per durable write, and a crash between any two.
  `Recovery`: the invariant every step keeps. `Runs`, `Reads` and `Answers`: theorems over
  whole runs; `Reads` is about the version a point read finds, `Answers` about what it shows.
  `Counterexamples`: things that are false, each with the run that shows it.
* **Database.** `Scan` and `Database`: the class behind Put, Delete, Write, Get, Flush,
  Compact, Open, Close and scans, over real log and table bytes. A ghost field follows the
  state machine: after each durable write the step made is recorded, which is possible only
  if the disk is exactly as that step leaves it, so the contracts fix the order of the
  durable writes. The bytes then on disk are kept as well. Opening takes a log file cut at
  any byte after its synced part, and can be done from the bytes of every step recorded
  (`Database.ReopenAfterCrash`).
  `Scenarios`: short programs against that class with outcomes a caller may not expect.

How the claims fit together: every state of every run satisfies the invariant
(`Recovery.StepKeeps`, `Runs.RunKeeps`); from it, a crash at any point recovers to a prefix
of the history (`Runs.CrashRefinement`); scans always show the plain map
(`Runs.ScanRefinesMap`); point reads do if and only if every key of the memtable shows what
its last record says (`Answers.ShowsRightWhen`), which every step keeps except one.

**Where the code does less than it seems to.** Three times, each with its exact condition.

*Point reads after a crash.* A flush publishes its table without syncing
the log first. If the policy is not to sync every append, a crash between the manifest
update and the log reset can cut the log below what the new table holds. The memtable is
then older than the table, and Get, which trusts the memtable, returns an old value until
the next flush; a scan returns the right one. `Counterexamples.StaleRead` is such a run,
for every policy that does not sync each append; so a policy is safe in all runs if and only
if it does (`Counterexamples.SafePolicies`).
`Answers.FlushWindow` gives the exact condition: Get shows the plain map after every crash in
that window if and only if it does now and, wherever the crash may cut the log, each key written
before the cut shows there what it shows at the end of the log (a harmless log). A log that is
not durable may thus rewrite a key to the value it has (`Counterexamples.SameValueRewrite`).
`Answers.RunShowsMap` carries this to runs: point reads are right after a crash at any point of
a run if and only if they are after a crash at its start and each flush published a harmless
log. A log that is synced throughout is harmless, so policies that sync every append are safe
(`Reads.NothingLost`). Whether Get finds the newest version itself, not only one that shows the
same, is the narrower question of `Reads`: there the condition is that no frame that is not yet
durable writes a key that an earlier frame of the log wrote (`Reads.VersionWindow`).

*Scans of a closed store.* Close closes the table readers, a scan does not ask whether the
store is closed, and it drops every table whose first block it cannot read without reporting
an error. It then shows the live entries of the memtable alone, which is the plain map if and
only if the tables add nothing to them (`Database.DB.NewIterator`, `Database.DB.MemtableAlone`).
`Scenarios.PutThenClose` puts a key, closes, and scans nothing.

*Nil keys.* Put and Delete refuse empty keys, a batch does not. The table writer refuses a nil
key, and replaying the log turns every empty key into nil. Whether the memtable holds a nil key
is therefore part of the model, and a flush fails if and only if it does
(`Database.DB.FlushLocked`): at once for a batch with a nil key (`Scenarios.NilKeyFlush`), after
the next opening for an empty one (`Scenarios.ReopenedEmptyKey`). A write that then causes a
flush reports an error although the log has it. No data is lost: the log is kept
(`Recovery.AbandonKeeps`).

Checksum and hash functions are arbitrary functions. Sequence numbers, sizes and offsets
are unbounded integers; where the source stores or computes them in a fixed width the
width is explicit.

## Model

| member | source | states |
|---|---|---|
| Runs.RunKeeps | lsmkv/open.go:51-131 | in every state of every run, between any two durable writes and after any crashes, the store is recoverable, its numbers bound everything stored, and its named files are there |
| Runs.FreshInv | internal/manifest/store.go:11-34 | a new directory satisfies the invariant |
| Reads.FreshDominated | internal/manifest/store.go:11-34 | and its point reads are right whatever a crash does |
| Runs.CrashRefinement | internal/wal/replay.go:13-39 | after any run, a crash that keeps the synced frames and any number of the others recovers to a prefix of the history, whole batches only, losing of the acknowledged frames at most what the sync policy allows; a scan shows exactly the plain map of that prefix, and the run can go on |
| Runs.ScanRefinesMap | lsmkv/iter.go:16-55 | a scan of any reachable store shows, key by key, the map obtained by applying the history in order |
| Runs.FreshNumbers | internal/wal/io.go:64-67 | across flushes, resets, compactions, crashes and reopenings a newly given number is above every number in log, tables, history and manifest |
| Runs.ManifestFiles | lsmkv/compact.go:58-77 | after every single step each file the manifest names exists, complete and sorted, under a name of its own that has been handed out |
| Runs.CountersGrow | internal/manifest/store.go:78-124 | over any stretch of any run the manifest's log number and file number never go back |
| Recovery.StepKeeps | lsmkv/write.go:124-175 | each durable step, and a crash with recovery, keeps the invariant |
| Recovery.AppendKeeps | lsmkv/write.go:13-34 | logging a frame extends what each possible crash leaves by at most that frame |
| Recovery.PublishFlushKeeps | lsmkv/write.go:151-153 | once the manifest names the flushed table, the whole history survives whatever the crash takes from the log |
| Recovery.ResetKeeps | lsmkv/write.go:163-175 | emptying the log after publication loses nothing |
| Recovery.WriteKeeps | lsmkv/write.go:147-150 | writing a table under a number not yet published disturbs no named file |
| Recovery.AbandonKeeps | lsmkv/write.go:147-150 | a flush that the table writer refuses loses nothing: the unpublished file is gone and the log kept |
| Recovery.PublishMergeKeeps | lsmkv/compact.go:58-77 | replacing merged inputs by their output keeps every crash recoverable to the same prefix |
| Recovery.RemoveKeeps | lsmkv/compact.go:73-76 | removing a merged file after publication disturbs no named file |
| Recovery.CrashKeeps | lsmkv/open.go:65-101 | recovery after a crash, with arbitrary unnamed files and under any sync policy, re-establishes the invariant |
| Recovery.RecoveredCovers | lsmkv/open.go:76-81 | the counter taken from manifest and log at open is not below any surviving number |
| Recovery.RecoveredMet | lsmkv/open.go:76-81 | and that counter is one of the numbers found, or zero when there is none |
| Recovery.MergeKeeps | internal/compact/merge.go:155-191 | a merge of tables out of one history holds nothing new and keeps the newest version of every key |
| Reads.VersionWindow | lsmkv/write.go:151-175 | point reads find the newest version after every crash between publication and log reset if and only if no frame that is not durable rewrites a key of an earlier logged frame |
| Reads.PublishDominates | lsmkv/write.go:151-160 | publication keeps the memtable dominant for every crash exactly for such logs |
| Reads.StepDominates | lsmkv/read.go:18-42 | every other step keeps the memtable dominant for every crash |
| Reads.GetRefinesMap | lsmkv/read.go:12-50 | in every run whose flushes find the log safe, and in all runs that sync every append, Get and scan show the plain map of the history |
| Reads.NothingLost | lsmkv/open.go:38-47 | under policies that sync every append a crash loses nothing acknowledged, and Get after reopening shows the plain map of every write |
| Reads.GetsRightWhen | lsmkv/read.go:18-42 | Get finds the last record of every key if and only if the memtable dominates |
| Reads.EmptyLogReads | lsmkv/write.go:160-175 | after a completed flush point reads are right, whatever happened before |
| Reads.MemtableNewest | lsmkv/read.go:18-23 | in a dominated store no table holds a newer version of a memtable key, and equal numbers mean equal entries |
| Answers.ShowsRightWhen | lsmkv/read.go:18-42 | Get shows the plain map for every key if and only if each memtable key shows what its last record says |
| Answers.ReadsAgreeWhen | lsmkv/iter.go:16-55 | exactly then Get and a scan agree on every key |
| Answers.FlushWindow | lsmkv/write.go:151-175 | point reads show the plain map after every crash between publication and log reset if and only if they do at publication and no cut a crash may make changes what is shown of a key written before it |
| Answers.StepTruthful | lsmkv/write.go:124-175 | every step keeps point reads right after every crash, publication if and only if the log is harmless |
| Answers.CrashShows | lsmkv/open.go:65-101 | point reads are right after all crashes that may happen now if and only if each memtable a crash may leave shows the last records |
| Answers.RunShowsMap | lsmkv/write.go:124-175 | point reads show the plain map after a crash at any point of a run if and only if they do after one at its start and each flush published a harmless log |
| Answers.SafeRunHarmless | lsmkv/write.go:13-34 | runs whose flushes never find an unsynced rewrite publish harmless logs only |
| Answers.DominatedTruthful | lsmkv/read.go:18-23 | a memtable that holds the newest versions after every crash shows them |
| Counterexamples.StaleRead | lsmkv/write.go:151-175 | under every policy that does not sync each append, a run with a crash in the flush window after which Get returns the older value and a scan the newer |
| Counterexamples.SafePolicies | lsmkv/open.go:38-47 | point reads show the plain map in all runs of a policy if and only if it syncs each append, and likewise find the newest version |
| Counterexamples.SameValueRewrite | lsmkv/write.go:151-175 | under every other policy a reachable log rewrites a key without being durable and is harmless all the same |
| Counterexamples.Resurrection | lsmkv/compact.go:39 | a reachable table set for which the planned merge, if it dropped tombstones, would bring a deleted key back |
| Compaction.DropTombstones | internal/compact/merge.go:174-177 | dropping tombstones changes what Get shows of a key if and only if a dropped deletion hides an older value in the tables not merged |
| Compaction.CompactionKeepsGet | lsmkv/compact.go:32-77 | publishing the merge of any tables changes no Get, whatever the memtable and although the output comes last |
| Compaction.PlanLevel0 | internal/compact/plan.go:9-23 | all tables of level 0 in order, or none below the threshold |
| Compaction.PlanInputs | internal/compact/plan.go:53-64 | the inputs a compaction takes, which PickExactly describes |
| Compaction.PickExactly | internal/compact/plan.go:9-64 | with two or more tables of level 0 the inputs are exactly these, all of them; with fewer the first two tables |
| Compaction.PickLeaves | lsmkv/compact.go:45-77 | putting one table of level 1 in their place leaves no table of level 0 and as many tables less one as were taken; with fewer than two of level 0 one table less |
| Compaction.PickShrinks | internal/compact/plan.go:53-64 | the plan picks none of fewer than two tables and otherwise at least two, so an effective compaction leaves strictly fewer tables |
| History.MapOfLatest | lsmkv/read.go:12-50 | applying records in order leaves, for each key, what the key's last record says |
| History.MemtableTop | internal/memtable/skiplist.go:67-113 | replaying any records in any order leaves the newest version of each key |
| History.ScanShowsMap | lsmkv/iter.go:16-55 | a scan over tables and log that represent a history shows that history's map |
| History.GetSeesLatest | lsmkv/read.go:18-42 | memtable-first lookup is right for all keys if and only if no table holds a newer version of a memtable key |
| History.BestIs | lsmkv/read.go:24-42 | a version no other table beats is the one found, the latest table having it on a tie |
| History.RepresentsFlush | lsmkv/write.go:124-175 | a table with the memtable's contents makes the log unnecessary |
| Database.DB.constructor | lsmkv/open.go:51-101 | opening what a crash left, with the log cut at any byte behind its synced part and other files arbitrary, gives the store the crash step describes, memtable, tables and counters included, under the durability and read-only setting that were given, or SyncFull without options |
| Database.DB.ContinueNumbers | lsmkv/open.go:76-81 | numbering goes on from the largest number in log and manifest |
| Database.DB.OpenTables | lsmkv/open.go:102-118 | the open tables are the manifest's, in its order, as written |
| Database.DB.ReplayLog | lsmkv/open.go:122-131 | the memtable is what applying the log's records in order gives; an empty key comes back as nil, and only that |
| Database.DB.Put | lsmkv/write.go:13-34 | errors in their order without effect; otherwise the map gains exactly this value, by append, due sync, and a flush if and only if the bytes of keys and values in memory and sixteen for each entry reach the threshold; that flush, and with it the call, fails if and only if the memtable holds a nil key; up to 2^28 - 30 bytes of key and value are never refused for their size, more than 2^28 always are, using up a number and nothing else; a value as large as the threshold always causes the flush; under SyncFull every frame is durable afterwards |
| Database.DB.Delete | lsmkv/write.go:35-56 | likewise the map loses exactly this key |
| Database.DB.Write | lsmkv/write.go:70-104 | the batch is one frame; the numbers reconstructed for the memtable are those in the log; the map changes as by the operations in order; size limit, flush and durability as for Put, over the sums of its items; the flush fails if and only if the memtable holds a nil key, which the first write of the empty key decides |
| Database.DB.Durable | lsmkv/open.go:38-47 | between operations every frame is durable under SyncFull, and all but fewer than N under SyncBatch |
| Database.DB.SyncDue | internal/wal/io.go:167-178 | an append is followed by a sync always under SyncFull, at each multiple of N under SyncBatch, never under SyncNone |
| Database.DB.FullWhen | internal/memtable/memtable.go:18-20 | the flush threshold is compared with all key bytes, all value bytes, and sixteen for each entry |
| Database.DB.LargeValue | internal/memtable/memtable.go:18-20 | one value as large as the threshold reaches it |
| Database.FirstDecides | internal/memtable/skiplist.go:67-113 | the first empty key of a batch decides whether the key is nil, if the memtable had none |
| Database.DB.Sync | lsmkv/write.go:105-112 | afterwards every frame is durable |
| Database.DB.Flush | lsmkv/write.go:113-123 | succeeds, with the memtable empty afterwards, if and only if no memtable key is nil, and otherwise leaves the memtable; the map is unchanged |
| Database.DB.FlushLocked | lsmkv/write.go:124-175 | number, table, manifest, log reset, in this order; nothing at all for an empty memtable; with a nil key only the number, the error and no table |
| Database.DB.WriteSnapshot | lsmkv/write.go:147-150 | the table file of the snapshot, or no file at all if and only if the memtable holds a nil key |
| Database.DB.Summarize | lsmkv/write.go:134-147 | largest number, least and greatest key of a snapshot |
| Database.DB.Close | lsmkv/open.go:132-164 | flushes unless opened read-only or empty, reports the error of that flush, syncs, and leaves the map as it was, but with every table reader closed; a second close does nothing |
| Database.DB.Get | lsmkv/read.go:12-50 | memtable first, then the newest version over the table files' bytes; the plain map's value whenever point reads are right, which they are if the log is synced on every append or each flush found it harmless |
| Database.DB.SearchTables | lsmkv/read.go:24-42 | the newest version among all tables, the later table on a tie |
| Database.DB.Has | lsmkv/read.go:66-75 | whether Get finds the key |
| Database.DB.NewIterator | lsmkv/iter.go:10-55 | the items are in strict key order and none deleted; of an open store they are exactly the plain map, and agree with Get on every key if and only if each memtable key shows the plain map; of a closed one they are the live entries of the memtable, and that is the plain map if and only if the tables add nothing to it |
| Database.DB.MemtableAlone | lsmkv/iter.go:16-55 | the memtable alone shows the plain map if and only if no table has a live key the memtable lacks, or a newer version that shows something else |
| Database.DB.ScanTables | lsmkv/iter.go:31-37 | every table in full while the store is open, and nothing from any of them once it is closed |
| Scenarios.PutThenClose | lsmkv/iter.go:10-15 | after a put and a close a scan shows nothing, though the plain map holds the key |
| Scenarios.NilKeyFlush | internal/sstable/writer.go:53-55 | a batch with a nil key is accepted and can be read, and every flush fails |
| Scenarios.ReopenedEmptyKey | internal/wal/replay.go:256 | an empty key that is not nil can be flushed, but not after the store was opened again from its log |
| Database.DB.Compact | lsmkv/compact.go:14-79 | no effect below the threshold or with one table; otherwise number, merged table, manifest, removals in this order, and every Get and the map unchanged; n >= 2 tables of level 0 become one and none is left, with fewer there is one table less |
| Database.DB.TableRefs | lsmkv/compact.go:26-36 | each open table is matched by name with its manifest record |
| Database.DB.SplitTables | lsmkv/compact.go:45-57 | the kept tables are those the manifest keeps, in order, and the removed names are exactly the inputs |
| Database.DB.MergeInputs | internal/compact/merge.go:103-203 | the output file holds the merge of the entries read from the input files |
| Database.DB.CrashAtAnyStep | lsmkv/write.go:124-175 | a crash after any recorded step, inside an operation or between two, leaves a prefix within the policy's limit, shown by a scan after reopening |
| Database.ReopenAfterCrash | lsmkv/open.go:51-131 | the bytes on disk at any recorded step, the log cut anywhere behind its synced frames and unnamed files arbitrary, can be opened; the result is a prefix of the history within the limit, with right point reads if the flushes found harmless logs |
| Database.DB.PointReads | lsmkv/read.go:12-50 | an opened store keeps finding the newest versions as long as appends are synced or each flush finds the log safe |
| Database.DB.PointReadsShow | lsmkv/read.go:12-50 | an opened store keeps answering Get by the plain map as long as appends are synced or each flush finds the log harmless |
| Database.DurabilityLimits | lsmkv/open.go:15-47 | SyncFull, and no options, allow no acknowledged frame to be lost, SyncBatch fewer than the N given or 32, SyncNone sets no limit |
| Database.OptionsKept | lsmkv/open.go:15-37 | settings given are kept; missing or non-positive ones become 4 MiB, 32 and 2; no options mean SyncFull |
| Database.WriteBatch.Put | lsmkv/write.go:58-62 | appends a put, of a nil key too |
| Database.WriteBatch.Delete | lsmkv/write.go:63-67 | appends a deletion, which carries no value |
| Scan.CollectMerged | lsmkv/iter.go:16-55 | the loop over a candidate map yields the sorted merge of memtable and tables, newest version wins, tombstones left out |
| Scan.Iterator.SeekToFirst | lsmkv/iter.go:56-62 | the first item, or nowhere when there is none |
| Scan.Iterator.Seek | lsmkv/iter.go:63-70 | the first item at or after the target, nowhere exactly when there is none |
| Scan.Iterator.Next | lsmkv/iter.go:74-82 | one item on; nowhere past the end |
| SkipList.SkipList.Set | internal/memtable/skiplist.go:67-113 | whatever tower height is drawn, the contents change by one newest-number-wins update, towers, order, size and byte count stay right, and the empty key is nil exactly if its first write was |
| SkipList.TotalBytesSums | internal/memtable/skiplist.go:114-116 | the byte estimate is the sum of the key lengths, of the value lengths, and sixteen for each entry |
| SkipList.SkipList.Accounted | internal/memtable/skiplist.go:143-147 | the count kept through all updates is that sum |
| SkipList.SkipList.Get | internal/memtable/skiplist.go:117-134 | agrees with the sorted contents |
| SkipList.SkipList.Snapshot | internal/memtable/skiplist.go:229-240 | the contents in order, with the keys that are nil marked |
| SkipList.SkipList.AscendRange | internal/memtable/skiplist.go:253-275 | visits exactly the entries from the lower bound up to the upper one, until the callback declines |
| SkipList.UntilVisits | internal/memtable/skiplist.go:253-275 | the visited entries are the range from the lower bound to the upper one, or a prefix of it that ends with the only entry the callback declined |
| SkipList.RangeBelow | internal/memtable/skiplist.go:253-275 | a range holds the entries from its lower bound on whose key is below the upper one, which is left out |
| SkipList.SkipList.MaxSeq | internal/memtable/skiplist.go:276-286 | the largest number stored |
| SkipList.SkipList.Clear | internal/memtable/skiplist.go:148-156 | empties the list |
| SkipList.Iterator.Seek | internal/memtable/skiplist.go:174-184 | stands on the first entry at or after the target |
| SkipList.Iterator.Next | internal/memtable/skiplist.go:188-195 | goes on to the entry that follows now, also after insertions |
| Entries.FindUpsert | internal/memtable/skiplist.go:67-113 | an update applies only if its number is not smaller, and touches no other key |
| Entries.FindMergeTwo | lsmkv/iter.go:24-31 | in a merge of two lists each key has its newest version |
| Merge.NewestIs | internal/compact/merge.go:205-215 | the newest version of a key is the one no other input beats, the earliest input having it on a tie |
| Merge.MergeHeap.Push | internal/compact/merge.go:217 | adds one item and keeps the heap order |
| Merge.MergeHeap.Pop | internal/compact/merge.go:218-224 | removes an item that no other item comes before |
| Merge.MergeEntries | internal/compact/merge.go:103-203 | the heap loop ends with the merge of its inputs, and its counters account for every input entry |
| Merge.TombstonesAre | internal/compact/merge.go:155-191 | the tombstone count is the number of deletions in the output |
| Merge.MergedFinds | internal/compact/merge.go:155-191 | the merge is strictly sorted and holds for each key its newest version, or nothing if that is a tombstone to be dropped |
| Wal.ScanTorn | internal/wal/replay.go:40-82 | a log cut at any byte is recovered up to the end of its last whole frame, with exactly the frames before, for any checksum function |
| Wal.ScanSound | internal/wal/replay.go:40-82 | of any file at all, the accepted prefix is exactly the encoding of the accepted frames |
| Wal.ScanStops | internal/wal/replay.go:40-82 | where it stops no frame of type 1, 2 or 3 follows, whatever its payload |
| Wal.TornPayload | internal/wal/replay.go:185-277 | a payload cut short anywhere does not decode |
| Wal.PeekAgrees | internal/wal/replay.go:83-128 | of any payload that decodes, peeking finds the largest number |
| Wal.ScanIdempotent | internal/wal/replay.go:13-39 | recovering a recovered file, whatever it was, changes nothing |
| Wal.DecodeEncoded | internal/wal/replay.go:83-128 | decoding inverts encoding for puts, deletes and batches, and the peeked number is the largest of the records |
| Formats.FrameForm | internal/wal/io.go:142-146 | length, type, checksum of type and payload, payload, at their places |
| Formats.FrameTypes | internal/wal/io.go:68-124 | types 1, 2 and 3 |
| Formats.RecordForm | internal/wal/io.go:125-133 | number, key and value behind their lengths |
| Formats.ItemForm | internal/wal/io.go:94-124 | the same with a type byte behind the number |
| Formats.BatchForm | internal/wal/io.go:94-124 | the number of entries and the entries in order |
| WalLog.ScanValidPrefix | internal/wal/replay.go:40-82 | the loop computes the recovered length and the largest number |
| WalLog.PeekSeq | internal/wal/replay.go:83-128 | the skipping loop over a batch finds the largest number |
| WalLog.DecodeBatch | internal/wal/replay.go:231-277 | the decoding loop yields the batch's records or fails |
| WalLog.ReplayWritten | internal/wal/replay.go:132-184 | replaying a written log hands on all its records in order, without error |
| WalLog.ReplayStops | internal/wal/replay.go:132-184 | replay hands on the records of the frames before the first payload that does not decode, and then reports an error; where no frame follows it ends without one |
| WalLog.Log.constructor | internal/wal/io.go:25-52 | opening a cut log keeps exactly its whole frames, all of them durable, and finds their largest number |
| WalLog.Log.RecoverTail | internal/wal/replay.go:13-39 | truncates to the encoding of the surviving frames |
| WalLog.Log.WriteFrame | internal/wal/io.go:134-166 | refuses payloads of more than 2^28 bytes without effect, otherwise appends exactly one frame's bytes |
| WalLog.SingleSize | internal/wal/io.go:125-142 | a record has from three to thirty bytes besides key and value, so it is taken up to 2^28 - 30 of those and refused above 2^28 - 3 |
| WalLog.BatchSize | internal/wal/io.go:94-142 | likewise a batch, with from four to thirty-one bytes for each item |
| WalLog.DueWhen | internal/wal/io.go:167-178 | a sync is due after every append, after every N-th, or never |
| WalLog.Log.MaybeSync | internal/wal/io.go:167-178 | syncs exactly when due, so that what is acknowledged and not durable stays within the policy |
| WalLog.Log.AppendPut | internal/wal/io.go:68-80 | one frame under the next number, then the due sync; a refused payload uses up its number |
| WalLog.Log.AppendDelete | internal/wal/io.go:81-93 | likewise for a deletion |
| WalLog.Log.AppendBatch | internal/wal/io.go:94-124 | one frame whose entries get consecutive numbers |
| WalLog.Log.Reset | internal/wal/io.go:203-219 | an empty durable file; the counter stays |
| WalLog.Log.SetNextSeq | internal/wal/io.go:220-226 | the counter never goes back |
| WalLog.NextAllowed | internal/wal/io.go:167-178 | one more append without a sync stays within the policy's allowance |
| Manifest.RoundTrip | internal/manifest/codec.go:25-133 | decoding inverts encoding if and only if every field fits its width |
| Manifest.DecodesExactly | internal/manifest/codec.go:25-99 | any file is read as a state exactly when it starts with the encoding of that state, checksum included, and every field fits |
| Formats.ManifestForm | internal/manifest/codec.go:100-133 | magic number, version, counters and count at their places, the tables, and a checksum over all of it |
| Formats.FileForm | internal/manifest/codec.go:109-127 | a table record, field by field |
| Manifest.EncodeBinary | internal/manifest/codec.go:100-133 | the appending loop builds the encoding |
| Manifest.DecodeBinary | internal/manifest/codec.go:25-99 | the cursor loop decodes or reports corruption, on any bytes |
| Manifest.FileNameInjective | internal/manifest/store.go:78-87 | different numbers give different file names, also past six digits |
| Formats.FileNameForm | internal/manifest/store.go:78-87 | the number in decimal, six digits or more, and .sst; the first is 000001.sst |
| Manifest.Manifest.AllocFileName | internal/manifest/store.go:78-87 | the name of the next number, persisted as used |
| Manifest.Manifest.AddFile | internal/manifest/store.go:88-96 | one more table, the log number not lowered, persisted once |
| Manifest.Manifest.Replace | internal/manifest/store.go:97-116 | the tables not removed in their order, then the added ones, persisted once |
| Manifest.Manifest.SetLogSeq | internal/manifest/store.go:117-124 | the log number is raised or left, and persisted |
| Manifest.Manifest.MaxSeqAmongFiles | internal/manifest/store.go:130-140 | the largest table number |
| Manifest.MaxFileSeqMet | internal/manifest/store.go:130-140 | that number is of some table, and no table has a larger one |
| TableWriter.Writer.Add | internal/sstable/writer.go:49-98 | refuses a closed writer, a nil key and a descending key, in this order, and otherwise appends the entry and keeps file, index and summary right |
| TableWriter.Writer.FlushBlock | internal/sstable/writer.go:99-137 | the open block goes to file and index with its restarts and checksum |
| TableWriter.Writer.Finish | internal/sstable/writer.go:138-213 | the file is the encoding of the entries added, and the reported summary describes them |
| TableWriter.WriteFile | internal/sstable/writer.go:222-234 | a table of the given entries, or the first refusal among them |
| TableWriter.WrittenWhen | internal/sstable/writer.go:49-98 | there is no refusal exactly when no key is nil and none descends |
| TableWriter.RefusedWhen | internal/sstable/writer.go:49-98 | the refusal is that of the first entry with a nil or descending key, a nil key first |
| Sizes.SmallTables | internal/sstable/writer.go:49-213 | with blocks below 2^31 bytes and at most 2^30 entries, of at most 2^28 bytes each, every offset, length and count of a table fits the width it is stored in |
| Sizes.FrameSmall | internal/wal/io.go:134-166 | an entry that got through the log is of that size |
| Table.BlocksKeep | internal/sstable/writer.go:49-137 | cutting into blocks loses nothing, reorders nothing and leaves no block empty |
| Formats.BlocksFull | internal/sstable/writer.go:94-97 | a block is closed by the entry with which it reaches the block size; only the last may stay below |
| Formats.FormatDefaults | internal/sstable/writer.go:16-29 | 4096 bytes and sixteen keys without options |
| Formats.TableForm | internal/sstable/writer.go:138-213 | blocks, filter, index, and the footer with their places, the largest number and the count |
| Formats.FooterForm | internal/sstable/writer.go:180-190 | two magic numbers and six numbers of eight bytes, at their places |
| Formats.IndexSection | internal/sstable/writer.go:158-174 | the number of blocks, their records, and a checksum over all of it |
| Formats.IndexForm | internal/sstable/writer.go:160-165 | last key behind its length, place and length of the block |
| Formats.BlockForm | internal/sstable/writer.go:99-116 | the entries, the places of entries 0, r, 2r and so on, their number, and a checksum over all of it |
| Formats.EntryForm | internal/sstable/writer.go:71-90 | the six parts of an entry, in order |
| Formats.SharedForm | internal/sstable/writer.go:71-77 | every r-th key is stored whole, any other without exactly what it has in common with the key before |
| TableReader.OpenWritten | internal/sstable/reader.go:14-119 | opening a written file yields its index, filter and summary |
| TableReader.OpenTable | internal/sstable/reader.go:14-119 | the cursor loop decodes index and footer or reports the error, on any bytes |
| TableReader.OpenSound | internal/sstable/reader.go:14-119 | an accepted file has both magic numbers, an index with its checksum, and the counts reported; short files and wrong magic numbers are told apart |
| TableReader.BlockSound | internal/sstable/reader.go:135-149 | in any file a block is accepted exactly when all its bytes are there and its checksum agrees |
| TableReader.SearchIndex | internal/sstable/reader.go:263-290 | binary search for the first block whose last key is not below the target |
| TableReader.PickedBlock | internal/sstable/reader.go:263-290 | looking in that block alone answers for the whole table |
| TableReader.Get | internal/sstable/reader.go:263-290 | on the bytes of a strictly sorted list, with any block size and restart interval, exactly that list's entry for the key, or missing |
| TableReader.CloseReader | internal/sstable/reader.go:127-134 | no block of a closed reader can be read |
| TableIter.Iterator.Next | internal/sstable/iter.go:17-46 | moves to the next entry across blocks, with an error exactly if it meets a block that cannot be read before one that has an entry |
| TableIter.Iterator.Seek | internal/sstable/iter.go:47-77 | lands on the first entry at or after the target, with an error exactly if the block the index picks, or the one moved on to from its end, cannot be read |
| TableIter.SeekIn | internal/sstable/iter.go:47-77 | seeking in a written table, perhaps damaged since, shows the first entry at or after the target, or an error if and only if the block that holds this entry cannot be read |
| TableIter.Drain | internal/sstable/iter.go:9-46 | iterating any table yields the entries of the blocks before the first unreadable one, without an error |
| TableIter.ReadAll | internal/sstable/iter.go:9-46 | iterating a written table yields its list in order, and nothing once its reader is closed |
| Block.StepAt | internal/sstable/reader.go:176-226 | decoding at an entry's offset with the previous key rebuilds the entry, shared prefix included |
| Block.ParseBody | internal/sstable/reader.go:150-166 | the trailer of a written block gives back its data and restart offsets |
| Block.ParsesExactly | internal/sstable/reader.go:150-166 | any block is split where its count says, and no other way |
| Block.BlockIter.Next | internal/sstable/reader.go:176-226 | moves from one entry of a written block to the next |
| Block.BlockIter.Advance | internal/sstable/reader.go:176-226 | on any bytes, decodes one entry or becomes invalid |
| Block.BlockIter.Seek | internal/sstable/reader.go:228-262 | from any position, lands on the first entry at or after the target, or becomes invalid if there is none |
| Bloom.NoFalseNegatives | internal/bloomx/filter.go:102-125 | after any adds and merges, stored and read back, every key added on either side may be contained |
| Bloom.ContainsExactly | internal/bloomx/filter.go:102-125 | a filter admits a key if and only if each of its k bits is a bit of some key added, bit i being (h1 + i*h2) mod m in 64-bit arithmetic |
| Bloom.EmptyContainsNothing | internal/bloomx/filter.go:113-125 | a filter without keys admits none |
| Bloom.ToldApart | internal/bloomx/filter.go:102-125 | a key with the first bit of the only key added and another second bit is not admitted |
| Bloom.BitPlace | internal/bloomx/filter.go:96-101 | bit p is bit p mod 8, lowest first, of byte p / 8 |
| Formats.FilterBuilt | internal/bloomx/filter.go:102-112 | the filter of a table is built from all its keys and nothing else, and counts them |
| Bloom.MarshalRoundTrip | internal/bloomx/filter.go:163-196 | reading back a stored filter gives the filter |
| Bloom.ReadsExactly | internal/bloomx/filter.go:177-196 | any file is read as a filter exactly when it starts with its stored form |
| Formats.FilterForm | internal/bloomx/filter.go:163-176 | magic number, version, sizes and bits at their places |
| Bloom.Filter.Add | internal/bloomx/filter.go:102-112 | sets exactly the key's probe bits |
| Bloom.Filter.Contains | internal/bloomx/filter.go:113-125 | the probing loop answers whether all of the key's probe bits are set |
| Bloom.Filter.Merge | internal/bloomx/filter.go:205-217 | the union of both bit sets, or a refusal without effect when the shapes differ |
| Varint.RoundTrip | internal/varintx/varint.go:76-93 | decoding an encoding followed by anything gives the number and its size, at most ten bytes |
| Varint.Shortest | internal/varintx/varint.go:41-49 | an encoding has no more bytes than its number needs, each but the last with its high bit set, and denotes the number |
| Varint.Accepted | internal/varintx/varint.go:76-93 | an input is accepted exactly when it ends within ten bytes and denotes a number below 2^64, which is the result |
| Varint.DecodeUint64 | internal/varintx/varint.go:76-93 | the shifting loop computes that |
| Varint.SizeUint64 | internal/varintx/varint.go:23-33 | the length of the encoding |
| Varint.EncodeUint64 | internal/varintx/varint.go:41-49 | appends the encoding |
| Varint.PutUint64 | internal/varintx/varint.go:55-69 | writes the encoding in place and leaves the rest, or leaves a short buffer alone |
| Varint.SkipAgrees | internal/varintx/varint.go:255-265 | skipping consumes what decoding consumes, and beyond that only ten-byte varints that overflow |
| Varint.ZigZagBijection | internal/varintx/varint.go:122-129 | ZigZag encoding and decoding undo each other on all 64-bit words |
| Varint.ZigZagMeans | internal/varintx/varint.go:122-129 | numbers from 0 up become the even ones, -1, -2 and so on the odd ones |
| Bytes.SharedPrefixLen | internal/byteutil/bytes.go:183-196 | the length of the longest common prefix |
| Bytes.LessMeans | internal/byteutil/bytes.go:18-22 | the first byte that differs decides the order, and a proper prefix comes first |
| Bytes.LowestFirst | internal/byteutil/bytes.go:82-108 | fixed-width numbers are stored lowest byte first |

## Left out

- Database.DB.Put: asks that the next number and the lengths be below 2^64 and that the memtable hold fewer than 2^30 entries; wrap-around of the counter is not modelled, and past that size the offsets of a table file are not bounded (`Sizes.SmallTables`). The same holds for Delete, Write, Flush and Close, and for the entries of all tables together in Compact.
- Database.DB.NewIterator: reads each table whole before merging, where the source interleaves; nothing can change the tables in between. The sort of the keys is the library's and is modelled by ordered insertion.
- Database.DB.MergeInputs: the heap loop runs over the entry lists that iterating the input files yields, not over the iterators themselves.
- TableReader.Get: asks that the table be representable in the widths of the format, and is stated for bytes the writer wrote. Lookups in damaged tables are not described, iteration and seeking are.
- Block.BlockIter.Advance: a shared length beyond the previous key, which makes the source panic or take up bytes behind it, ends the iteration here; lengths of 2^63 and more, which the source turns negative, do too.
- WalLog.PeekSeq: where the source slices out of range on a malformed payload and panics, it returns none.
- WalLog.DecodeBatch: lengths of 2^63 and more, and a count of items that memory cannot hold, make the source panic; here they are decoding failures like any other length past the end.
- TableReader.OpenTable: index and filter lengths and key lengths of 2^63 and more, and counts and lengths that memory cannot hold, make the source panic; here they are read errors or corruption.
- Runs.CrashRefinement: a crash drops a suffix of the log that is not synced; a crash that garbles bytes there is covered only as far as the checksum rejects them (`Wal.ScanSound`). What the log holds when it is opened counts as durable from then on, although opening does not sync it: the limits on loss are about appends since then.
- Nil and empty values are one value; nil is tracked for keys, from batch and log through the memtable to the table writer.
- Manifest.DecodeBinary: a stored file size of 2^63 and more, which the source turns negative, is read as it is stored.
- Failed reads, writes and persists, short writes, injected errors and error paths of the file system: every write succeeds whole or is cut off by a crash.
- The rename of the manifest and the truncation of the log are single steps; directory syncs are not modelled.
- The JSON form of the manifest, its update time, and the cloning of its state.
- Locks, the lock file, contexts and cancellation: operations are atomic except for crashes.
- Floating-point sizing of the filter: bit and hash counts are arbitrary positive numbers, hash values arbitrary.
- Statistics, path helpers, the record's type field, 32-bit and stream variants of the varint codec, the size-based table picker, and the buffer helpers: easy or unused.
- The web interface and packaging.
