# FalconFS metadata core: a verified model

FalconFS keeps a file-system namespace in sharded PostgreSQL nodes. One node, the
coordinator (server 0), drives the operations that touch several nodes. This project models
the logic that FalconFS adds on top of PostgreSQL and proves what that logic is for. The
command is `dafny verify dfyconfig.toml`, for Dafny 4.11.

PostgreSQL itself appears as maps, sets and atomic steps. Concurrent parts are step systems:
a state, the atomic steps of every party, and theorems about every state of every run.
Sequential parts are classes and methods with loops, proved against specifications that are
stated without them.

Two-phase commit and its clean-up
- `TwoPhase` is the step system: transactions on the coordinator, participants, a lossy
  network, coordinator crashes and the clean-up daemon. `TwoPhaseSafety` proves atomicity over
  all runs. `ReadOrder` shows that each of the three neighbouring swaps of the daemon's four
  reads loses it. `Cleanup` is the daemon's loop and what two rounds leave behind. `Outcome` is
  the loops of the callbacks: what they bring about when nothing fails, and the daemon after an
  abort or a crash.

Shared-memory allocator
- `AllocatorWords` is the level tables, the fold and the choice of a block in one page word,
  `Allocator` the sequential malloc and free, `AllocatorRace` the same under any interleaving.

Locks and the directory cache
- `RwLockWord` is the packed 64-bit lock word, `RwLockRace` the lock operations of any number
  of processes, `RwLockSafety` and `RwLockTheorems` what every run keeps. `CacheRace` adds the
  cache table, partition locks and capacity eviction. `DirCache` is the cache of one node under
  serial transactions. `Deadlock` runs ordered lock plans on the lock step system.

Metadata operations
- `CreateBatch` is the batched create with rolled-back groups, `ReadDir` the resumable
  directory listing, `InodeIds` the id generator. `Namespace` is what mkdir, create, unlink,
  rmdir and rename do to the directory table and the inode rows, `NamespaceLaws` when each of
  them is done and what every path finds afterwards, `RenameParse` how rename reads
  its two paths, `Cluster` the same operations on replicated directory tables and sharded rows.

Paths and routing
- `Paths` is the path order and the component scan, `LockOrder` the order in which a sorted
  batch locks directories, `PathTree` the transaction-level path tree and the mkdir batch,
  `ShardMap` and `OrderedMap` the shard table on both sides, `PartId` the name hash, `Router`
  the agreement of client and server.

Batch framing
- `Framing` is the length-prefixed buffer, `Batching` the growth of a buffer and the path of a
  batch of jobs through one worker.

`Bits` and `DirKeys` are shared vocabulary. Every lemma switches automatic induction off, so
each proof is the one written down.

Seven properties turned out to be false of the code as it stands. Each has an input that shows
it and the exact condition under which the code is right:
- A remote writer stays in step with the coordinator in every continuation if and only if the
  pre-commit step counts at least two writers (`TwoPhaseSafety.InStepIffCounted`, reached by
  `TwoPhaseSafety.OneWriterIsReached`).
- The outcome of an abort ends an open branch if and only if the branch is not prepared or its
  acknowledgement was taken (`Outcome.SendOutcomes`, reached by `Outcome.UnackedIsReached`); the
  daemon ends the others (`Outcome.AbortAndCleanUp`).
- A mkdir batch is the sequence of its paths if and only if no target is a file in a directory
  that is already there, or all are (`PathTree.BatchIsSequenceIff`, `PathTree.FileAbortsBatch`).
- A successful rename keeps the namespace in order if and only if its target starts with a slash
  and its source does not end in one (`Namespace.RenameKeepsIff`,
  `Namespace.RelativeTargetInput`, `Namespace.TrailingSlashInput`).
- A lock release gives back what was taken if and only if the last handle on that lock is a
  hold and not a declaration (`RwLockTheorems.ReleaseIsExactIffHold`,
  `RwLockTheorems.ReleasedDeclarationFillsWord`).
- Client and server hash the same name if and only if the path does not end in a slash
  (`Router.NamesAgreeIff`).
- A buffer of any capacity it can have grows to a size if and only if the size is at most 2^31
  (`Batching.GrowsIff`).

Two more limits are stated with the properties they bound: ids repeat once sequence numbers
pass 2^52 (`InodeIds.IdsCollideIff`), and inode keys of different directories meet once ids
pass 2^51 (`Cluster.InodeKeysMeetIff`).

## Model

| member | source | states |
|---|---|---|
| TwoPhaseSafety.InvStep | falcon/distributed_backend/remote_comm_falcon.c:340-617 | one invariant over transactions, branches, messages in flight, records and the daemon's round is kept by every step of every party, crash included |
| TwoPhaseSafety.InvRun | falcon/transaction/transaction.c:149-181 | every state of every run satisfies it |
| TwoPhaseSafety.OutcomesAreFinal | falcon/distributed_backend/remote_comm_falcon.c:427-617 | a decision of the coordinator and a resolved branch never change again |
| TwoPhaseSafety.WriterFollowsCoordinator | falcon/distributed_backend/remote_comm_falcon.c:340-617 | at any two times of any run, a resolved counted writer committed exactly when the coordinator's local transaction committed |
| TwoPhaseSafety.NoSplitOutcome | falcon/distributed_backend/remote_comm_falcon.c:354-412 | no gid is committed on one counted writer and rolled back on another, at any two times |
| TwoPhaseSafety.CleanupActsSafely | falcon/transaction/transaction_cleanup.c:327-425 | when the daemon acts, what it commits the coordinator has committed, what it rolls back the coordinator has aborted, and the participant of a deleted record has committed |
| TwoPhaseSafety.RecordOutlivesPreparedBranch | falcon/transaction/transaction_cleanup.c:164-184 | a committed gid still prepared on a server has its record there, not even marked for deletion |
| TwoPhaseSafety.RecordMeansCommitted | falcon/transaction/transaction_cleanup.c:164-184 | a record belongs to a committed transaction whose branch is prepared or committed |
| TwoPhaseSafety.OnePhaseCanDiverge | falcon/distributed_backend/remote_comm_falcon.c:354-366 | from any state that satisfies the invariant, a transaction about to commit with one remote counted writer has a continuation through its pre-commit step to a local commit and a rolled-back branch |
| TwoPhaseSafety.InStepIffCounted | falcon/distributed_backend/remote_comm_falcon.c:340-412 | in every reachable state, a writer of a transaction that goes into pre-commit stays in step with the coordinator in every continuation if and only if the step counts at least two writers |
| TwoPhaseSafety.OneWriterIsReached | falcon/distributed_backend/remote_comm_falcon.c:354-366 | for any server and transaction a run reaches a state on the other side |
| TwoPhaseSafety.ReadersAreNotCounted | falcon/distributed_backend/remote_comm_falcon.c:354-366 | over any run, a server on which a transaction only reads is never counted, never asked to prepare and never prepared |
| Outcome.PrepareAll | falcon/distributed_backend/remote_comm_falcon.c:370-423 | PREPARE sent to every counted writer and carried out, and every acknowledgement taken: all writers are prepared and the connections say so |
| Outcome.SendOutcomes | falcon/distributed_backend/remote_comm_falcon.c:427-617 | from every reachable state, the outcome sent on every connection and carried out commits every open branch of a committed transaction; it rolls back every open branch of an aborted one except exactly the prepared ones whose acknowledgement was not taken; nothing else changes |
| Outcome.UnackedIsReached | falcon/distributed_backend/remote_comm_falcon.c:533-591 | a run reaches such an exception |
| Outcome.AbortAndCleanUp | falcon/transaction/transaction_cleanup.c:316-431 | after the outcome of an abort, the end of the transaction and one round of a server no open branch of it is left there |
| Outcome.CrashAndCleanUp | falcon/transaction/transaction_cleanup.c:186-223 | after a coordinator crash two rounds leave a server no prepared branch and no record, and every prepared branch ends as decided before the crash |
| Outcome.CommitTxn | falcon/transaction/transaction.c:149-166 | from every reachable state in which all branches of a transaction are open, its callbacks lead to a finished local commit with every branch committed and no other transaction touched |
| Outcome.LoseAll | falcon/distributed_backend/remote_comm_falcon.c:448-531 | from every reachable state all messages in flight can get lost with nothing else changed |
| Outcome.Refuse | falcon/distributed_backend/remote_comm_falcon.c:396-423 | a participant can answer PREPARE or COMMIT on an open branch by rolling it back |
| ReadOrder.SwappingAandBDiverges | falcon/transaction/transaction_cleanup.c:327-351 | reading the in-progress set before the prepared set: a reachable state has a committed gid rolled back |
| ReadOrder.SwappingBandCDiverges | falcon/transaction/transaction_cleanup.c:327-351 | reading the records before the in-progress set: a reachable state has a committed gid rolled back |
| ReadOrder.SwappingCandDLosesRecord | falcon/transaction/transaction_cleanup.c:327-351 | taking the second look before the records: the record of a branch still prepared is deleted |
| Cleanup.ReadSets | falcon/transaction/transaction_cleanup.c:327-351 | the four reads with nothing in between give the prepared, in-progress and record sets of that moment |
| Cleanup.HandleRecords | falcon/transaction/transaction_cleanup.c:361-397 | the loop over the records commits exactly the prepared ones not in progress, marks exactly the finished ones for deletion and erases what it saw from set A |
| Cleanup.HandleOneRecord | falcon/transaction/transaction_cleanup.c:362-396 | one record's verdict from the three membership tests, and its effect |
| Cleanup.HandleLeftovers | falcon/transaction/transaction_cleanup.c:410-424 | the loop over what is left of set A rolls back exactly the gids not in progress |
| Cleanup.CleanupRound | falcon/transaction/transaction_cleanup.c:316-431 | after a round of a server every decided prepared gid there is resolved, as its record says, nothing else changes, and exactly the records of committed participants are gone |
| Cleanup.CleanupTwice | falcon/transaction/transaction_cleanup.c:186-223 | with nothing in progress one round leaves no prepared gid on the server and a second no record, and each gid ended as the coordinator decided |
| Cleanup.PreparedHasRecordIffCommitted | falcon/transaction/transaction_cleanup.c:164-184 | in a reachable state a prepared branch has a record exactly when its transaction committed |
| AllocatorWords.MaskDigits | falcon/utils/falcon_shmem_allocator.c:45-51 | the hexadecimal masks, digit by digit, are the words the model works with |
| AllocatorWords.OccupyDigits | falcon/utils/falcon_shmem_allocator.c:52-58 | the same for the occupy table |
| AllocatorWords.LevelTables | falcon/utils/falcon_shmem_allocator.c:45-58 | the tables are what they stand for: group starts of each level and the cells of one block |
| AllocatorWords.Fold | falcon/utils/falcon_shmem_allocator.c:104-109 | the shift-and-mask loop computes the fold of the word |
| AllocatorWords.FoldToIsFold | falcon/utils/falcon_shmem_allocator.c:104-109 | for every word and level the fold has a group's bit exactly when some bit of the group is set |
| AllocatorWords.Attempt | falcon/utils/falcon_shmem_allocator.c:92-120 | the code's choice in one word is the specified one |
| AllocatorWords.ChooseIsExact | falcon/utils/falcon_shmem_allocator.c:92-120 | a chosen block is aligned, inside the page and free, and none is chosen only when no aligned block of the level is free |
| AllocatorWords.SizeGetsLevel | falcon/utils/falcon_shmem_allocator.c:34-74 | every allowed size gets the smallest of the seven block sizes that holds it and its header |
| AllocatorWords.LevelOfCapacity | falcon/utils/falcon_shmem_allocator.c:68-74 | block size and level determine each other |
| Allocator.FreeFindsBlock | falcon/utils/falcon_shmem_allocator.c:181-211 | from an address and the capacity in its header free computes exactly the block malloc handed out there |
| Allocator.ShmemAllocator.Malloc | falcon/utils/falcon_shmem_allocator.c:60-179 | a returned address is a free aligned block large enough, now taken; 0 for an allowed size means no page has a free block of the level, whatever the hint said |
| Allocator.ShmemAllocator.Scan | falcon/utils/falcon_shmem_allocator.c:76-175 | one pass from the hint or from page 0, finding a block unless every page it covers is full |
| Allocator.ShmemAllocator.Take | falcon/utils/falcon_shmem_allocator.c:122-172 | the page word gains the block, the header is written, and the level's hint moves past a page taken for full, to the page of the block, or back |
| Allocator.ShmemAllocator.Free | falcon/utils/falcon_shmem_allocator.c:181-211 | clears exactly the cells of the block the header names and moves the level's hint back to its page, nothing when the header fails a check |
| AllocatorRace.InvStep | falcon/utils/falcon_shmem_allocator.c:60-211 | the concurrent invariant is kept by every load, swap, header write and free of every process |
| AllocatorRace.LiveBlocksAreSound | falcon/utils/falcon_shmem_allocator.c:60-211 | in every state of every run each page word is the union of its live blocks, which are disjoint, aligned, inside the arena and large enough for payload and header |
| AllocatorRace.ReleaseClearsOwn | falcon/utils/falcon_shmem_allocator.c:181-211 | freeing an owned block removes its own cells and no others |
| AllocatorRace.FreeIsExact | falcon/utils/falcon_shmem_allocator.c:181-211 | the same at any point of any run |
| AllocatorRace.SwapWinsIff | falcon/utils/falcon_shmem_allocator.c:92-131 | a swap wins exactly when the word read had a free block of the level and is unchanged, and then takes exactly that block |
| AllocatorRace.UndisturbedMalloc | falcon/utils/falcon_shmem_allocator.c:60-179 | from any state of the race, load, swap and header write undisturbed hand out a new block of a page that has one |
| CreateBatch.CreateInShard | falcon/metadb/meta_handle.c:489-619 | groups of eight with rollback and retry end, with the table and the answers of inserting one at a time |
| CreateBatch.TryGroup | falcon/metadb/meta_handle.c:500-582 | one group up to its end or its first duplicate, in terms of the one-at-a-time table |
| CreateBatch.Mark | falcon/metadb/meta_handle.c:583-617 | with the item that failed marked as existing the results stand again where the group began, and the retry has one item less to insert; its inode id is filled in by the retry |
| CreateBatch.CreateHandle | falcon/metadb/meta_handle.c:482-620 | over all shards, in any order of the shards: the tables and every item's answer are those of the whole batch one item at a time |
| CreateBatch.CreateShard | falcon/metadb/meta_handle.c:489-620 | one shard's turn finishes its own items and touches nothing else |
| CreateBatch.ShardOfBatch | falcon/metadb/meta_handle.c:465-477 | a shard's table depends only on the items sorted into it, in batch order |
| CreateBatch.SameAnswer | falcon/metadb/meta_handle.c:465-496 | an item gets the same answer in its shard's list and in the whole batch |
| CreateBatch.RefusedIffTaken | falcon/metadb/meta_handle.c:511-617 | an item is FILE_EXISTS exactly when its key existed or an earlier item took it, and then carries that row's inode id; otherwise it keeps its own row |
| CreateBatch.StoredRows | falcon/metadb/meta_handle.c:465-620 | afterwards a shard has exactly its old keys and those asked for, old rows unchanged, new ones those of the first item that asked |
| ReadDir.ResumeIsExact | falcon/metadb/meta_handle.c:1155-1209 | what is left for a cursor after the k-th entry is the listing from k on |
| ReadDir.ScanShard | falcon/metadb/meta_handle.c:1229-1246 | the scan of one shard takes a prefix of its matches and stops exactly when the page is full |
| ReadDir.ScanTurn | falcon/metadb/meta_handle.c:1178-1257 | one of the two scans of a resumed shard, or the scan of a new one |
| ReadDir.ReadFrom | falcon/metadb/meta_handle.c:1149-1272 | a page is a prefix of what is left, full or final, with the cursor of its last entry |
| ReadDir.ReadDirPage | falcon/metadb/meta_handle.c:1110-1272 | from the cursor of entry k a page is exactly the next entries of the listing |
| ReadDir.ReadAll | falcon/metadb/meta_handle.c:1110-1272 | any sequence of limits of at least one lists everything in at most one call more than there are entries |
| ReadDir.ListingIsExact | falcon/metadb/meta_handle.c:1149-1272 | the listing has every local child, nothing else, each once, in shard, part id, name order |
| ReadDir.ListingIsChildren | falcon/metadb/meta_handle.c:1167-1168 | for ids below 2^51 a local row is listed exactly when it is keyed by the id of the directory, whatever its part id |
| ReadDir.NameOrder | falcon/metadb/meta_handle.c:1178-1209 | names are compared by their first difference |
| InodeIds.IdIsPair | falcon/utils/utils.c:43-43 | an inode id is the sequence number and the node id side by side, in 64-bit arithmetic |
| InodeIds.IdsCollideIff | falcon/utils/utils.c:43-43 | two ids are equal exactly when the sequence numbers agree modulo 2^52 and the nodes modulo 4096 |
| InodeIds.IdsRepeatAtWrap | falcon/utils/utils.c:43-43 | so they repeat 2^52 sequence numbers later |
| InodeIds.SequenceCache.Next | falcon/utils/path_parse.c:381-405 | the counter asks the database only when its block of 32 is used up |
| InodeIds.InvStep | falcon/utils/path_parse.c:381-405 | blocks held by processes of a node stay apart and numbers handed out stay out of them |
| InodeIds.IdsNeverRepeat | falcon/utils/path_parse.c:381-405 | over any interleaving of processes on nodes below 4096, ids generated below 2^52 are pairwise different |
| InodeIds.EveryRequestIsServed | falcon/utils/path_parse.c:381-405 | every request gets a number of the node of its process |
| InodeIds.AloneItCounts | falcon/utils/path_parse.c:381-405 | a process alone draws 1, 2, 3 and so on across its blocks |
| InodeIds.CombineIsPair | falcon/metadb/meta_handle_helper.c:27-30 | an inode key is the directory id and the part id side by side |
| InodeIds.SmallKey | falcon/metadb/meta_handle_helper.c:27-30 | below 2^50 the key is plain concatenation and not negative as a signed 64-bit value |
| InodeIds.KeyRangesAreOrdered | falcon/metadb/meta_handle.c:1167-1168 | while sequence numbers are below 2^38 the key ranges of different directories are disjoint and ordered as their ids |
| RwLockWord.DecodeIsUnique | falcon/utils/rwlock.c:12-25 | within range a word encodes one reader count, exclusive bit, reference count and waiter flag |
| RwLockWord.BlockersMask | falcon/utils/rwlock.c:12-25 | the mask a reader tests is the exclusive bit and the waiter flag |
| RwLockWord.AttemptExclusive | falcon/utils/rwlock.c:47-78 | on any encoded word a writer is granted exactly when nobody holds the lock, clearing the waiter flag; otherwise only the flag is set |
| RwLockWord.AttemptShared | falcon/utils/rwlock.c:47-78 | a reader is granted exactly without exclusive holder and without waiter flag; otherwise the word is unchanged |
| RwLockWord.AddSubDecode | falcon/utils/rwlock.c:87-186 | each atomic addition or subtraction moves exactly the count it is meant for |
| RwLockWord.RefBits | falcon/utils/rwlock.c:122-126 | the destroyable test is true exactly when the reference count is zero |
| RwLockRace.FindHandle | falcon/utils/rwlock.c:105-174 | the backward search finds the last handle on the lock, or the last declaration |
| RwLockRace.RemoveHandle | falcon/utils/rwlock.c:105-175 | the shift removes that handle and keeps the order of the others |
| RwLockSafety.InvStep | falcon/utils/rwlock.c:87-186 | every atomic step of every process keeps, for every lock: the word decodes to the true counts, at most one exclusive hold and then no reader, and a set waiter flag has a waiting writer |
| RwLockSafety.InvRun | falcon/utils/rwlock.c:87-204 | so does every state of a run whose counts stay in their fields |
| RwLockSafety.WordsAreExact | falcon/utils/rwlock.c:87-204 | with at most 2047 processes the counts always stay in their fields, because each process holds at most 8196 handles |
| RwLockTheorems.ExclusiveIsAlone | falcon/utils/rwlock.c:47-78 | an exclusive hold is the only hold on its lock, by any process and any handle |
| RwLockTheorems.DestroyableIffUnused | falcon/utils/rwlock.c:122-126 | the destroyable test is true exactly when no process declared, holds, waits for or is releasing the lock, and then the word is zero |
| RwLockTheorems.ReadersDoNotOvertake | falcon/utils/rwlock.c:47-78 | over any run whose counts stay in their fields, from a set waiter flag until an exclusive grant, the flag stays, a writer waits and the number of readers never grows |
| RwLockTheorems.ReleaseIsExactIffHold | falcon/utils/rwlock.c:155-186 | a release keeps the words exact if and only if the last handle on the lock is a hold |
| RwLockTheorems.ReleasedDeclarationFillsWord | falcon/utils/rwlock.c:163-186 | declaring a fresh lock and releasing it leaves all 64 bits set |
| RwLockTheorems.ReleaseAll | falcon/utils/rwlock.c:193-204 | the loop from the last handle leaves the caller with nothing, every other process as it was, and every word exact, for any counts in their fields |
| RwLockTheorems.GiveStepWorks | falcon/utils/rwlock.c:193-204 | the next operation of that loop is possible in every state, whatever the others have done, and gives back exactly the last handle |
| RwLockTheorems.ReleaseAllAmongOthers | falcon/utils/rwlock.c:193-204 | over any run in which the others step in between, the caller's handles only shrink from the end, each of its steps does one piece of its work, and every word stays exact |
| RwLockTheorems.AllGivenBack | falcon/utils/rwlock.c:193-204 | after as many steps of its own as it had work the caller has nothing and adds nothing to any count |
| RwLockTheorems.ContributionGone | falcon/utils/rwlock.c:193-204 | so every count of every lock is less by exactly the caller's share |
| CacheRace.EvictionIsSafe | falcon/dir_path_shmem/dir_path_hash.c:608-622 | an entry that is evicted is one that no process has found, declared, waits for, holds or is releasing, for any counts in their fields |
| CacheRace.AddStep | falcon/dir_path_shmem/dir_path_hash.c:645-661 | a free slot has a zero lock word, so entering it is right whether or not the word is initialised |
| CacheRace.CacheInvStep | falcon/dir_path_shmem/dir_path_hash.c:370-392 | every interleaving of lookups, new entries, evictions and lock operations keeps every used slot in the table |
| CacheRace.CacheInvRun | falcon/dir_path_shmem/dir_path_hash.c:573-627 | so it holds in every state of every run whose counts stay in their fields |
| CacheRace.FewProcessesAreBounded | falcon/utils/rwlock.c:87-153 | with at most 2047 processes they always do |
| CacheRace.LockedEntryStays | falcon/dir_path_shmem/dir_path_hash.c:456-478 | over any such run, while one process has an interest in an entry the entry stays in the table in its slot |
| CacheRace.EvictsIffUnused | falcon/dir_path_shmem/dir_path_hash.c:608-622 | an entry can be evicted exactly when no process uses it, and then it alone is gone |
| CacheRace.LookupLocks | falcon/dir_path_shmem/dir_path_hash.c:456-478 | a lookup that meets nobody ends with the lock of the key's entry held in the mode asked for and nothing else changed |
| DirCache.DirCache.FindNext | falcon/dir_path_shmem/dir_path_hash.c:554-571 | one pass stops at an unlocked entry, or has lowered the usage of every unlocked one |
| DirCache.DirCache.Evict | falcon/dir_path_shmem/dir_path_hash.c:573-627 | the passes end, and remove one unlocked entry exactly when the partition is large enough and not all locked |
| DirCache.DirCache.Enter | falcon/dir_path_shmem/dir_path_hash.c:424-446 | a new entry carries the committed id or none known and an action is recorded, or the list of actions is full |
| DirCache.DirCache.Search | falcon/dir_path_shmem/dir_path_hash.c:399-480 | a lookup answers from the committed table whatever the cache held, and locks what it is asked to |
| DirCache.DirCache.Insert | falcon/dir_path_shmem/dir_path_hash.c:306-397 | locked before, locked now or not locked, cached or not, with or without room: the row is added, a cached id stays unknown or the committed one until commit, an existing row fails |
| DirCache.DirCache.Delete | falcon/dir_path_shmem/dir_path_hash.c:482-552 | the same for removing a row; an entry made for it starts with an unknown id, and a shared lock is refused |
| DirCache.DirCache.Commit | falcon/dir_path_shmem/dir_path_hash.c:629-671 | applying the recorded actions makes every cached id unknown or equal to the new committed table, evictions and updates that find no room included |
| DirCache.DirCache.Abort | falcon/dir_path_shmem/dir_path_hash.c:673-673 | throwing the actions away leaves every cached id unknown or equal to the old committed table |
| DirCache.DirCache.Handle | falcon/transaction/transaction.c:152-181 | each request, a worker's unprepared insert or delete included, obeys the laws of its operation: the exact condition of each answer on the committed table and the keys seen, and row by row what the table becomes; it fails only by overflow or on a refused row change |
| DirCache.PerformIsLawful | falcon/metadb/meta_handle.c:1616-1639 | the reference semantics obeys the laws: after a move the source row is gone, the target has its id, every other row is unchanged |
| DirCache.LawIsPerform | falcon/metadb/meta_handle.c:1616-1639 | the laws leave no choice |
| DirCache.CommittedTable | falcon/transaction/transaction.c:154-166 | a transaction whose requests go on lawfully one from the other leaves, if it commits, the table of its last request |
| DirCache.AbortedTable | falcon/transaction/transaction.c:167-181 | a transaction with a request that aborts it leaves the table as it was |
| DirCache.TxnKeepsIds | falcon/metadb/meta_handle.c:1616-1639 | transactions of the coordinator with new ids never give an id two names |
| DirCache.DirCache.RunTxn | falcon/transaction/transaction.c:152-181 | one transaction with its end: coherent, and the table changes as without a cache |
| DirCache.DirCache.RunTxns | falcon/transaction/transaction.c:152-181 | after any serial sequence of transactions mixed with evictions every cached id is unknown or the committed one, and the table is what the operations say |
| Paths.PathCmp | falcon/utils/utils_standalone.c:24-40 | the comparison loop decides the order: end of string, then slash, then characters |
| Paths.LessIsTransitive | falcon/utils/utils_standalone.c:24-40 | the order is transitive |
| Paths.LessIsTotal | falcon/utils/utils_standalone.c:24-40 | any two paths compare |
| Paths.FirstDifference | falcon/utils/utils_standalone.c:24-40 | the first difference decides: end of string, then slash, then the lesser character |
| Paths.SplitAndJoin | falcon/utils/path_parse.c:132-190 | the parts joined by slashes are the string again |
| Paths.ScanComponents | falcon/utils/path_parse.c:132-190 | the scan by start and length yields the components of the path |
| Paths.CompsAreUnique | falcon/utils/path_parse.c:132-190 | different absolute paths have different components |
| Paths.PathOrderIsCompOrder | falcon/utils/utils_standalone.c:24-40 | on absolute paths the string order is the dictionary order of the components |
| Paths.DirectoryFirst | falcon/utils/utils_standalone.c:24-40 | a directory comes before everything below it |
| Paths.SubtreeIsContiguous | falcon/utils/utils_standalone.c:24-40 | whatever lies between two members of a subtree is a member |
| Paths.PathSubtreeIsContiguous | falcon/utils/utils_standalone.c:24-40 | the same for path strings, with the directory first |
| LockOrder.LockPath | falcon/utils/path_parse.c:132-184 | the loop adds the missing directories of one path from the root down |
| LockOrder.LocksAreNeeds | falcon/utils/path_parse.c:132-238 | a batch locks exactly the directories its paths need, whatever their order |
| LockOrder.LocksIncrease | falcon/utils/path_parse.c:132-238 | a sorted batch takes its locks in strictly increasing path order, each once |
| LockOrder.LockBatch | falcon/metadb/meta_handle.c:91-113 | the loop over a batch takes those locks in that order |
| LockOrder.LockPaths | falcon/metadb/meta_handle.c:418-450 | the same from path strings in the order they are sorted |
| Deadlock.AdvanceStep | falcon/utils/rwlock.c:87-186 | processes that declare, acquire and undeclare in path order and then release keep their order under any interleaving, for fewer than 2^24 processes |
| Deadlock.PlanIsLight | falcon/utils/rwlock.c:87-153 | a process that follows an ordered plan has at most one hold and two references on any lock |
| Deadlock.CountsFit | falcon/utils/rwlock.c:12-25 | so no count leaves its field |
| Deadlock.WhyRefused | falcon/utils/rwlock.c:47-78 | an attempt is refused only because somebody holds the lock or a writer waits for it |
| Deadlock.SomebodyGoesOn | falcon/utils/path_parse.c:132-184 | no deadlock: while some process is unfinished, some unfinished process is not refused, waiter flags included |
| Deadlock.WorkGoesDown | falcon/utils/rwlock.c:87-186 | every operation but a refused attempt does one piece of a finite amount of work |
| Deadlock.CanFinish | falcon/utils/path_parse.c:132-184 | from every such state all processes can be brought to their end |
| Deadlock.StartOk | falcon/utils/rwlock.c:87-153 | processes that start with free locks and the locks of their sorted batches satisfy the invariant |
| Deadlock.BatchIsOrdered | falcon/metadb/meta_handle.c:91-113 | the locks of a batch of sorted path strings are an increasing plan |
| Deadlock.SysInvRun | falcon/utils/rwlock.c:87-186 | every state of every run that starts so satisfies the invariant |
| Deadlock.NoDeadlock | falcon/metadb/meta_handle.c:91-113 | from sorted path strings to whole runs: in every state of every run either all are finished or somebody's next operation is possible and not refused |
| Deadlock.HeldAll | falcon/metadb/meta_handle.c:91-113 | over any run, a process that no longer wants anything has held all the locks of its batch together, in their modes |
| PathTree.ResolveIsInjective | falcon/utils/path_parse.c:132-184 | two component lists that lead to the same directory are the same |
| PathTree.BaseAgrees | falcon/utils/path_parse.c:149-153 | what the tree does not know reads the same in the old table and in the current one |
| PathTree.PathTree.Descend | falcon/utils/path_parse.c:132-184 | the walk over the directories resolves them in the current table, children of directories made in the batch included |
| PathTree.PathTree.InsertTarget | falcon/utils/path_parse.c:192-238 | a mkdir target is refused exactly when it exists now, otherwise its row and node are new |
| PathTree.MkdirMeans | falcon/utils/path_parse.c:192-238 | invalid, existing and done exactly by whether the directory and the target resolve; when done the path leads to the new id, every other path to what it did, and no other row is new |
| PathTree.PathTree.InsertForMkdir | falcon/utils/path_parse.c:109-243 | one path through the tree gives the outcome, the parent id and the table of a mkdir on its own |
| PathTree.MkdirBatch | falcon/metadb/meta_handle.c:91-131 | a batch through one tree and one old table gives the outcomes, parent ids and final table of one transaction per path |
| PathTree.SameWithoutFiles | falcon/metadb/meta_handle.c:91-275 | when no row the batch creates is a file the whole batch is that sequence of transactions |
| PathTree.InsertInodes | falcon/metadb/meta_handle.c:161-275 | the inode inserts after the directory rows go through exactly when no created row is a file |
| PathTree.SingleAborts | falcon/metadb/meta_handle.c:266-273 | on its own a path is aborted exactly when its target is a file in a directory that was there before the batch |
| PathTree.BatchIsSequenceIff | falcon/metadb/meta_handle.c:91-275 | a batch, inode rows included, is the sequence of its paths if and only if no target is such a file, or all are |
| PathTree.MkdirHandle | falcon/metadb/meta_handle.c:69-275 | the handler's directory rows and inode inserts, aborting at the first duplicate, give that batch |
| PathTree.FileAbortsBatch | falcon/metadb/meta_handle.c:266-273 | an input on the other side: a file in the way of one of two targets |
| Namespace.MkdirKeeps | falcon/metadb/meta_handle.c:69-396 | directory rows and directory inode rows still match one to one with two links, files have one, every directory is reached from the root |
| Namespace.MkdirEffect | falcon/metadb/meta_handle.c:69-131 | the new path leads to the new id and every other path keeps its meaning |
| Namespace.CreateKeeps | falcon/metadb/meta_handle.c:398-482 | a created file leaves the namespace in order |
| Namespace.UnlinkKeeps | falcon/metadb/meta_handle_helper.c:129-155 | unlink removes exactly the file's row and never changes a directory row, although the link count is looked at before the kind of the row |
| Namespace.RmdirKeeps | falcon/metadb/meta_handle.c:1311-1552 | removing an empty directory removes its two rows and leaves the rest reached |
| Namespace.RmdirEffect | falcon/metadb/meta_handle.c:1311-1504 | the path is gone and every other path keeps its meaning |
| Namespace.RenameKeepsIff | falcon/metadb/meta_handle.c:1554-1778 | a successful rename keeps the namespace in order if and only if its target starts with a slash and its source does not end in one; a directory never moves into its own subtree |
| Namespace.RelativeTargetBreaks | falcon/metadb/meta_handle.c:1563-1567 | every successful rename to a target without leading slash puts a row beside the root |
| Namespace.RelativeTargetInput | falcon/metadb/meta_handle.c:1563-1567 | in a namespace with one file, renaming /a to b succeeds and breaks it |
| Namespace.TrailingSlashBreaks | falcon/utils/path_parse.c:78-91 | every successful rename from a source with trailing slash gives one id to two directories |
| Namespace.TrailingSlashInput | falcon/utils/path_parse.c:78-91 | after mkdir of /, /a and /a/, renaming /a/ to /b succeeds and breaks the namespace |
| Namespace.RenameEffect | falcon/metadb/meta_handle.c:1616-1639 | what was found under the source is found under the target, the source is gone, paths outside keep their meaning |
| Namespace.ParentIsPresent | falcon/metadb/meta_handle.c:69-396 | the parent of every row but the root is a directory |
| Namespace.NoParentCycle | falcon/metadb/meta_handle.c:1554-1778 | no chain of directories, each the parent of the next, closes |
| NamespaceLaws.MkdirLaw | falcon/metadb/meta_handle.c:69-396 | each answer exactly when, in terms of what paths find; when done the path finds a directory with the new id and two links, every other path what it found |
| NamespaceLaws.CreateLaw | falcon/metadb/meta_handle.c:398-620 | each answer exactly when; when done the path finds a file with the given id and one link, every other path what it found |
| NamespaceLaws.UnlinkLaw | falcon/metadb/meta_handle.c:996-1108 | each answer exactly when; when done the path finds nothing, every other path what it found |
| NamespaceLaws.RmdirLaw | falcon/metadb/meta_handle.c:1311-1552 | each answer exactly when, not empty by what the paths below find; when done the path finds nothing, every other path what it found |
| NamespaceLaws.RenameDoneIff | falcon/metadb/meta_handle.c:1554-1778 | a rename is done exactly when source and target directory are there, the target is not or is the same file, and a directory does not move below itself |
| NamespaceLaws.RenameLaw | falcon/metadb/meta_handle.c:1616-1639 | of a file or a directory: everything found under the target is what was found under the source, nothing is left under the source, every other path finds what it found |
| RenameParse.CheckPath | falcon/utils/path_parse.c:61-92 | rename's first look resolves the source, one trailing empty component dropped |
| RenameParse.WalkDirs | falcon/utils/path_parse.c:132-184 | a walk succeeds exactly when the directories resolve and none of them is locked exclusively |
| RenameParse.ParseRename | falcon/metadb/meta_handle.c:1583-1613 | in path order through one tree both paths parse exactly when the source exists, the target does not and does not lie below the source |
| Cluster.InodeKeysMeetIff | falcon/metadb/meta_handle_helper.c:18-30 | two rows share an inode key exactly when they have the same name and ids that agree modulo 2^51 |
| Cluster.InodeKeyIsUnique | falcon/metadb/meta_handle_helper.c:18-30 | so below 2^51 different rows have different inode keys |
| Cluster.RangeIsChildren | falcon/metadb/meta_handle.c:1467-1478 | the key range rmdir scans, compared as signed numbers, holds exactly the children of the directory |
| Cluster.NoChildIsEmpty | falcon/metadb/meta_handle.c:1459-1501 | no worker finds a child exactly when the directory is empty |
| Cluster.Cluster.Mkdir | falcon/metadb/meta_handle.c:69-396 | with every node's table and the owner's row changed, the cluster still represents one namespace and that namespace did a mkdir |
| Cluster.Cluster.Create | falcon/metadb/meta_handle.c:398-482 | a path ending in a slash is refused as not a file, a request for another worker's row exactly as the wrong worker; refusals change nothing, otherwise the worker creates the file |
| Cluster.Cluster.Unlink | falcon/metadb/meta_handle.c:996-1108 | the same for unlink |
| Cluster.Cluster.Rmdir | falcon/metadb/meta_handle.c:1311-1552 | the same for rmdir, over the scans of all workers |
| Cluster.Cluster.MoveInode | falcon/metadb/meta_handle.c:1824-1958 | the row leaves the source's worker and reaches the target's, or the target is taken and nothing changes |
| Cluster.Cluster.Rename | falcon/metadb/meta_handle.c:1554-1958 | the same for rename |
| Cluster.Cluster.Run | falcon/metadb/meta_handle.c:69-1958 | any run of the five operations with new ids keeps all directory tables equal and the namespace in order, and each operation answers and does its work on the namespace the one before left |
| PartId.ComputeHashPartId | falcon_client/src/utils.cpp:21-28 | the accumulator loop computes the 13-bit name hash both sides use |
| PartId.PartIdIsBase31 | falcon_client/src/utils.cpp:21-28 | that hash is the name's first 256 characters read in base 31, modulo 2^13 |
| ShardMap.BuildShardTable | falcon/metadb/shard_table.c:45-84 | the built points are the equal cuts of the range, strictly increasing to its top, workers take turns, and a bad count or no worker is refused |
| ShardMap.SearchShard | falcon/metadb/shard_table.c:239-263 | the bisection finds the first shard whose point is not below the hash, or reports that there is none |
| ShardMap.ExportRanges | falcon/metadb/shard_table.c:177-190 | each exported range starts after the previous point |
| ShardMap.RangesPartition | falcon/metadb/shard_table.c:177-190 | a range covers a hash exactly when its shard is the one the bisection finds |
| OrderedMap.LowerBound | falcon_client/src/router.cpp:99-102 | the client's map lookup is the smallest key not below the hash |
| Router.HashesAgree | falcon/utils/utils.c:45-56 | the server's hash of an inode key is the client's hash of the name, for every parent |
| Router.PartIdIsMixed | falcon/utils/utils.c:45-56 | for part ids that hash is the mixed value without its sign bit |
| Router.FetchShardTable | falcon_client/src/router.cpp:22-69 | any response is refused exactly when its ranges do not join up to the top; otherwise the map and the servers are those of the ranges |
| Router.CoveringServer | falcon_client/src/router.cpp:99-102 | whatever ranges a client accepts, a hash leads to the server of the range that covers it and below the first range to none |
| Router.LookupsAgree | falcon_client/src/router.cpp:96-110 | bisection and ordered map pick the same shard for every hash, the sentinel never |
| Router.GetWorkerByPath | falcon_client/src/router.cpp:77-110 | the client's server for a path, no route for a path that is not absolute, no such server for the gap below the first range |
| Router.NamesAgreeIff | falcon_client/src/router.cpp:77-98 | the name the client hashes is the name the server parses exactly when the path does not end in a slash or is the root |
| Router.SlashIsHashed | falcon_client/src/router.cpp:77-98 | with a trailing slash the client hashes the last name before it and the slash |
| Router.RoutesAgree | falcon_client/src/router.cpp:77-110 | for such paths the client's server is the owner of the key the server computes, for every parent |
| Router.RouteRequest | falcon/metadb/shard_table.c:239-269 | from the built table through export, fetch and both lookups client and server name the same worker, and the client has a connection to it |
| Framing.NextSeveralItemSize | remote_connection_def/remote_connection_utils/serialized_data.h:149-166 | the sizing loop gives the size of the next items, or an error when they do not fit |
| Framing.SizeOfEncoded | remote_connection_def/remote_connection_utils/serialized_data.h:149-166 | encoded items are sized exactly wherever they stand in a buffer |
| Framing.SizedIffEncoded | remote_connection_def/remote_connection_utils/serialized_data.h:149-166 | sizing gives a size exactly when that many encoded items of that size stand there |
| Framing.LowByteFirst | remote_connection_def/remote_connection_utils/serialized_data.h:124-137 | lengths are written low byte first |
| Framing.DecodeItems | falcon/metadb/meta_serialize_interface.c:34-42 | decoding an encoding gives back the items |
| Batching.Grow | remote_connection_def/remote_connection_utils/serialized_data.h:168-184 | for every size up to 2^31 the doubling ends with enough capacity, one of those a buffer can have |
| Batching.GrowsIff | remote_connection_def/remote_connection_utils/serialized_data.h:168-184 | from an empty buffer and from every capacity reached from it the doubling ends exactly for sizes up to 2^31 |
| Batching.SerializedData.AppendSegment | remote_connection_def/remote_connection_utils/serialized_data.h:124-137 | a padded, framed item is added at the end and the buffer has room |
| Batching.Gather | falcon/connection_pool/falcon_worker_task.cpp:218-247 | the shared buffer is the encoding of all jobs' requests in order |
| Batching.Process | falcon/metadb/meta_serialize_interface.c:34-42 | requests are served in pointer order, each from the state the one before left, and each reply is stored with its own request |
| Batching.ServeAt | falcon/metadb/meta_serialize_interface.c:34-42 | at each place of a list the handler takes the state left so far and the request to the reply and the next state |
| Batching.Respond | falcon/metadb/meta_serialize_interface.c:106-111 | the response is the encoding of the replies in request order |
| Batching.SplitReplies | falcon/connection_pool/falcon_worker_task.cpp:310-322 | cutting by item counts gives each job the encoding of its own part |
| Batching.RunBatch | falcon/connection_pool/falcon_worker_task.cpp:218-323 | whatever order the requests are processed in, the replies and the final state are those of serving the plain list in that order, and every job gets exactly the replies to its own requests in its own order |
| Batching.OwnReply | falcon/connection_pool/falcon_worker_task.cpp:310-322 | the i-th reply of a job is what the handler gave for its i-th request in the state the requests processed before it left |

## Left out

- PostgreSQL itself: heap and index access, snapshots, SPI, libpq and dynahash are maps, sets and atomic steps; a unique index is a key that may occur once.
- Memory ordering of relaxed atomics: steps are sequentially consistent.
- Connection states left behind by the early returns at falcon/distributed_backend/remote_comm_falcon.c:448-516: every transaction starts with its connections in state NONE.
- Prepared outcomes in the directory cache (falcon/transaction/transaction.c:185-188): transactions end in plain commit or abort.
- FlatBuffers encoding: an item is an opaque byte string, and the bytes that pad it are zero.
- The 32-bit mixing hash: one function given as a parameter, used by client and server.
- The sort of the batches: any order for `Batching.RunBatch`, a sorted sequence for `LockOrder.LockBatch`.
- Usage counts as 32-bit integers: `DirCache` counts without bound.
- The signedness of `char` on the compiling machine: `PartId` takes it as signed.
- An empty rename target, which the parser reads past its end: `RenameOp` takes a non-empty string.
- Lookups of the directory cache without a lock under concurrency, and clearing the whole cache.
- `PP_NONE` nodes of the path tree, and the chmod, chown and utimens handlers that make them.
- More than one clean-up round at a time: there is one daemon.
- Several partitions evicting at once in `DirCache`: `CacheRace` has any number of partitions.
- Stat, open, close, opendir, key-value and slice handlers, error texts and performance counters: they would only add easy members.
- Connection pool threads, brpc and hcom adapters, the FUSE and Python front ends and the cluster manager: input and output around the modelled logic.
- DirCache.DirCache.RunTxns: the table is the one without a cache for transactions of fewer than 1024 requests, because a longer one can overflow the list of 4096 cache actions and abort.
- RwLockSafety.WordsAreExact: a corollary for at most 2047 processes, whatever locks they take; the theorems about runs take the counts to be in their fields, and `Deadlock.CountsFit` gives that for ordered plans of fewer than 2^24 processes.
- Cluster.Cluster.Run: takes ids below 2^51, because above that `Cluster.InodeKeysMeetIff` gives two directories the same keys.
- Deadlock.NoDeadlock: a plan takes at most 8194 locks, because the list of handles has room for 8196 and two are in use while a lock is taken.
- Router.FetchShardTable: a range after one that ends at the top is refused; the source adds one to the largest 32-bit integer there.
- Batching.RunBatch: a response above 2^31 bytes is reported as too large; the growth of the source's buffer does not end there.
