# The accounts database, verified

This project models the accounts database of the validator (`src/node/accounts-db`) in Dafny and proves
what its comments, assertions and documentation promise. The database stores a version of an account for
every slot that wrote it. New versions go to a write cache; a background service flushes the cache of
rooted slots to append-only storages, cleans versions that no longer matter and shrinks storages, while
readers load accounts and scans walk over them. Two small neighbours are included: the script that orders
crates for publishing, and the printing of token amounts.

`dafny verify dfyconfig.toml` checks everything.

| file | what it covers |
|---|---|
| `ReaderProtocol.dfy`, `ReaderLoad.dfy` | one load, step by step, against every interleaving of cache writes, flush, shrink and clean |
| `CleanDependencies.dfy` | which keys and slots clean may delete together |
| `CacheFlush.dfy` | flushing roots from newest to oldest with cleaning |
| `WriteCache.dfy`, `AuthoritativeLoad.dfy`, `CacheSearch.dfy` | the write cache with its index and totals; when its answer is final, also while roots are flushed during the search |
| `WholeLoad.dfy` | a whole load, from the cache search to the retry loop, against every interleaving of all of these |
| `LoadEnds.dfy` | that a load ends: alone, under a lock, and in every interleaving |
| `IndexLookup.dfy` | the search of a slot list for the newest visible version |
| `ScanPins.dfy` | scans pin roots, cleans stay below them |
| `StartupIndex.dfy` | capitalization, lattice hash and data length at startup |
| `CacheWrites.dfy` | batches written to the cache, with invisible writes left out |
| `StorageReader.dfy`, `DeadAccounts.dfy` | archiving a storage without its obsolete accounts; alive counters, appending and reclaiming |
| `AccountLocks.dfy`, `BlockhashQueue.dfy`, `StorageOrder.dfy`, `LargestAccounts.dfy` | the self-contained algorithms of the crate |
| `PublishOrder.dfy`, `Decimals.dfy` | crate publishing order, decimal printing of token amounts |
| `Types.dfy`, `Seqs.dfy`, `Sums.dfy` | shared definitions and lemmas |

Where code and documentation disagree, the model follows the code:

- `with_small_to_large_ratio` is documented to return small and large storages in turn. It applies the
  alternating selection to the position of a storage in the input instead of its rank by size
  (`StorageOrder.RatioIgnoresCapacity`). For storages of distinct sizes the order is as documented if and
  only if ranking the input commutes with the selection (`StorageOrder.DocumentedIffCommutes`); it is for
  strictly ascending input and for a ratio without large storages. With equal sizes it also depends on how
  the unstable sort orders them (`StorageOrder.DocumentedIffPicksByRank`, `StorageOrder.TiesBreakOrder`).
- The filter for incremental snapshots is documented to keep only candidates all of whose storages are
  dead. It can drop one of two keys that share a slot and keep the other, and then that slot stays
  (`CleanDependencies.HeldBackKeyKeepsSlot`); `CleanDependencies.PurgedTogether` gives the exact condition.
- A clean is documented never to pass the root of a scan. Without a proposed root and without a scan in
  progress it has no bound, so the next scan is not protected (`ScanPins.UnboundedCleanUnprotected`), and
  removing all versions that a newer root replaces changes what it reads (`ScanPins.UnboundedFlushDisturbs`);
  otherwise the promise holds on every run. Outside tests a flush always has a requested root
  (`src/node/accounts-db/src/accounts_db.rs:4559`), so the case is that of `clean_accounts`, which passes on
  whatever bound its caller proposes.
- `AccountStorageReader` is documented to skip the obsolete accounts. It delivers exactly the other bytes if
  and only if none of them lies behind a byte that was marked obsolete twice (`StorageReader.StreamIsAlive`,
  `StorageReader.MarkedTwiceTruncates`), and `len` is their number as well if and only if no byte was marked
  twice at all (the contract of `StorageReader.AccountStorageReader.constructor`). `DeadAccounts.MarksSuitReader`
  shows that the marks made by reclaiming never cover a byte twice.

## Model

| member | source | states |
|---|---|---|
| `ReaderProtocol.StepKeepsInv` | src/node/accounts-db/src/accounts_db.rs:4707-4823 | every step of cache write, root, flush, shrink and clean keeps every index entry backed by the cache, a store or the shrink-in-progress map, store ids fresh and job bookkeeping right |
| `ReaderProtocol.StepEvolves` | src/node/accounts-db/src/accounts_db.rs:3695-3860 | what a reader may rely on between its own steps: stores that hold a version keep holding it, entries only move to later places, a store that probe order passed by does not come back |
| `ReaderProtocol.FlushAssertionsHold` | src/node/accounts-db/src/account_storage.rs:174-181 | a flush finds its slot without a store and no shrink running when it adds the store, and never leaves a cached entry behind when it gives up the slot cache |
| `ReaderProtocol.ShrinkAssertionsHold` | src/node/accounts-db/src/account_storage.rs:299-319 | a finished shrink replaces exactly the store it started from, to which no entry refers any more; what it moved is the current account of its version |
| `ReaderProtocol.TwoProbesCanMiss` | src/node/accounts-db/src/account_storage.rs:37-72 | why the lookup probes the map, the shrink map and the map again: two probes miss a store that the index names all along |
| `ReaderLoad.FailedLookupMeansIndexLeft` | src/node/accounts-db/src/account_storage.rs:52-72 | when all three probes fail, the index has left that store id for good, and no lock on the entry was held |
| `ReaderLoad.BackgroundStepKeeps` | src/node/accounts-db/src/accounts_db.rs:3695-4022 | a reader anywhere in its retry loop stays sound when any allowed background step happens |
| `ReaderLoad.ReaderStepKeeps` | src/node/accounts-db/src/accounts_db.rs:3695-4022 | each step of the retry loop (index read, probes, miss, locked last attempt) keeps the reader sound |
| `ReaderLoad.RunKeepsInvariant` | src/node/accounts-db/src/accounts_db.rs:3695-4022 | database and reader invariants hold throughout every interleaved run |
| `ReaderLoad.LoadNeverPanics` | src/node/accounts-db/src/accounts_db.rs:3695-4022 | no run reaches a panic of the retry loop, and under a fixed maximum root a cache miss is counted at most once |
| `ReaderLoad.LoadReturnsTheVersion` | src/node/accounts-db/src/accounts_db.rs:3680-3693 | a load that returns, returns the current account of exactly the version that its last index read named as the newest visible one |
| `ReaderLoad.IndexReadNamedSlot` | src/node/accounts-db/src/accounts_db.rs:3680-3693 | whatever slot a load is probing, an earlier index read of the same run named it as the newest visible one, and the slot has not changed since |
| `ReaderLoad.RetrySeesAnotherPlace` | src/node/accounts-db/src/accounts_db.rs:3955-3990 | after a failed lookup the next index read names another place, so the bad-entry check never fires |
| `CleanDependencies.BuildStoreCounts` | src/node/accounts-db/src/accounts_db.rs:1976-2034 | for each slot of a candidate, the number of alive accounts that are not candidates, and its candidates, in any order and without underflow |
| `CleanDependencies.CanDelete` | src/node/accounts-db/src/accounts_db.rs:1275-1310 | a key can be deleted if and only if its slot list is its whole history and all its slots become empty; else it names a slot that blocks it |
| `CleanDependencies.Close` | src/node/accounts-db/src/accounts_db.rs:1311-1362 | the worklist ends, and removes every slot reachable from the blocked ones |
| `CleanDependencies.CalcDeleteDependencies` | src/node/accounts-db/src/accounts_db.rs:1264-1362 | what is left is exactly the slots of connected components without a stuck slot, whatever the order of iteration |
| `CleanDependencies.FilterCandidates` | src/node/accounts-db/src/accounts_db.rs:2323-2382 | keeps exactly the keys all of whose slots go and that have no version after the last full snapshot, or all of the former if the clean does not go beyond it; remembers the others with their newest slot |
| `CleanDependencies.PurgedIsPurgeable` | src/node/accounts-db/src/accounts_db.rs:1264-1362 | the keys of the remaining slots can be purged together: every slot they touch loses all its alive accounts |
| `CleanDependencies.PurgedIsLargest` | src/node/accounts-db/src/accounts_db.rs:1264-1362 | and they include every set of keys that can be purged together |
| `CleanDependencies.KeysToPurge` | src/node/accounts-db/src/accounts_db.rs:1970-2052 | from candidates to purged keys: exactly those in some jointly purgeable set and not held back; without a full snapshot none is held back, and with one exactly those with a version after it |
| `CleanDependencies.LaterVersionHoldsBack` | src/node/accounts-db/src/accounts_db.rs:2328-2376 | since no candidate has a version above the clean bound, a key is held back if and only if it has a version above the full snapshot |
| `CleanDependencies.PurgedTogether` | src/node/accounts-db/src/accounts_db.rs:2323-2382 | the purged keys empty all slots they touch if and only if none shares a slot with a held-back key; always without incremental snapshots |
| `CleanDependencies.HeldBackKeyKeepsSlot` | src/node/accounts-db/src/accounts_db.rs:2337-2380 | two keys and three slots where a purged key leaves a slot behind |
| `CacheFlush.HidingKeepsView` | src/node/accounts-db/src/accounts_db.rs:4357-4378 | removing only versions hidden by a newer root at or below a bound changes no read from that bound on |
| `CacheFlush.AccountsDb.FlushSlotCache` | src/node/accounts-db/src/accounts_db.rs:4707-4823 | flushing one slot at or below the bound of a cleaning flush stores exactly the accounts that no newer root has written, removes exactly their older stored versions, and drops a storage if and only if it lost its last entry by that; any other slot stores everything and removes nothing; reads see the same in every state on the way |
| `CacheFlush.AccountsDb.FlushRootedAccountsCache` | src/node/accounts-db/src/accounts_db.rs:4674-4705 | of the flushed versions of a key at or below the clean bound exactly the newest is stored, and all others are stored; of the versions stored before, exactly those below such a version go, and exactly the storages that lost an entry and have none left; bounded reads see no change at any step |
| `CacheFlush.OneVersionWritten` | src/node/accounts-db/src/accounts_db.rs:4637-4667 | of the flushed versions of a key in slots at or below the clean bound exactly one is written, the newest |
| `CacheFlush.FlushStoresAt` | src/node/accounts-db/src/accounts_db.rs:4717-4726 | a slot above the bound, or any slot without cleaning, stores a key; another one if and only if no flushed slot up to the bound above it holds the key |
| `CacheFlush.SweptGrows` | src/node/accounts-db/src/accounts_db.rs:4766-4775 | over the slots flushed so far, exactly the superseded stored entries and the storages they leave empty have gone |
| `WriteCache.InsertIntoSlot` | src/node/accounts-db/src/accounts_cache.rs:121-155 | size and count of a slot cache follow an insert or an overwrite |
| `WriteCache.AccountsCache.constructor` | src/node/accounts-db/src/accounts_cache.rs:253-283 | the empty cache satisfies the invariant |
| `WriteCache.AccountsCache.Store` | src/node/accounts-db/src/accounts_cache.rs:310-335 | adds the account to its slot; reference counts, maximum slots, unique keys and totals stay right |
| `WriteCache.AccountsCache.RemoveSlot` | src/node/accounts-db/src/accounts_cache.rs:342-352 | takes the slot out; reference counts drop by one per key and entries without a holder go |
| `WriteCache.AccountsCache.DropSlotCache` | src/node/accounts-db/src/accounts_cache.rs:76-84 | the totals give up a slot cache only when its last reference goes |
| `WriteCache.AccountsCache.Load` | src/node/accounts-db/src/accounts_cache.rs:337-340 | the account of a slot, if it is there |
| `WriteCache.AccountsCache.LoadLatest` | src/node/accounts-db/src/accounts_cache.rs:354-414 | the bounded, early-exit search gives the same answer as the naive one: highest ancestor, else highest unflushed root, else highest flushing root |
| `WriteCache.AccountsCache.AddRoot` | src/node/accounts-db/src/accounts_cache.rs:420-422 | the root waits for its flush |
| `WriteCache.AccountsCache.BeginFlushRoots` | src/node/accounts-db/src/accounts_cache.rs:433-453 | claims exactly the waiting roots up to the bound |
| `WriteCache.AccountsCache.EndFlushRoots` | src/node/accounts-db/src/accounts_cache.rs:455-457 | gives the claimed roots up |
| `AuthoritativeLoad.RunKeepsInv` | src/node/accounts-db/src/accounts_cache.rs:433-457 | on every run, claimed roots lie below the waiting ones and rooted slots leave the cache only while claimed |
| `AuthoritativeLoad.AuthoritativeIsNewest` | src/node/accounts-db/src/accounts_db.rs:4024-4048 | in every state that satisfies the run invariant an answer with status Ancestor or UnflushedRoot is the newest visible version anywhere |
| `AuthoritativeLoad.LookupIsNewest` | src/node/accounts-db/src/accounts_db.rs:4050-4053 | the position that the slot-list search returns is that of the newest visible version in cache or storage |
| `AuthoritativeLoad.LoadIsNewest` | src/node/accounts-db/src/accounts_db.rs:4024-4122 | so on every run a load, stopping at the cache or going through the slot list, returns the newest visible version, and nothing if and only if there is none |
| `AuthoritativeLoad.BeingFlushedIsStale` | src/node/accounts-db/src/accounts_cache.rs:354-414 | the other statuses cannot be trusted: the answer can be older than a version just flushed, and then its status says so |
| `CacheSearch.BackgroundStepKeeps` | src/node/accounts-db/src/accounts_cache.rs:354-414 | a search anywhere in its loops stays sound when a write, also of the account by the reading bank, a new root, a claim, a slot flush or a clean happens that its locks allow |
| `CacheSearch.AncestorHit` | src/node/accounts-db/src/accounts_cache.rs:364-384 | an ancestor found that is not being flushed, and is not the reading bank itself, was the newest version before that bank wrote the account behind the search |
| `CacheSearch.RootHit` | src/node/accounts-db/src/accounts_cache.rs:397-402 | an unflushed root found was the newest version before any root above the index bound appeared, and before the reading bank wrote the account |
| `CacheSearch.RunKeepsSound` | src/node/accounts-db/src/accounts_cache.rs:354-414 | the invariant of the search holds throughout every interleaved run |
| `CacheSearch.AnswerWasNewest` | src/node/accounts-db/src/accounts_db.rs:4035-4048 | in every interleaving, an answer that the load returns without reading the index was the newest version anywhere at some time during the search |
| `CacheSearch.AloneFindsLatest` | src/node/accounts-db/src/accounts_cache.rs:354-414 | alone, the search slot by slot answers as the naive search does, except that it leaves roots being flushed to the index |
| `WholeLoad.StepSimulates` | src/node/accounts-db/src/accounts_db.rs:4707-4823 | every step of banks, flush, shrink and clean on the whole database is a step, or none, of the cache and storage that the search sees |
| `WholeLoad.FinalAnswer` | src/node/accounts-db/src/accounts_db.rs:4035-4048 | a final answer of the cache was the newest visible version of the whole database at some time during the load |
| `WholeLoad.LoadedAccount` | src/node/accounts-db/src/accounts_db.rs:4050-4075 | so was an account that the index led to: when the index was read, or, in the reading bank's own slot, when it was loaded |
| `WholeLoad.LoadReturnsNewest` | src/node/accounts-db/src/accounts_db.rs:4024-4122 | in every interleaving of a whole load, the account it returns was the content of the newest version that the reader could see at some time during the load |
| `WholeLoad.LoadReturnsNothing` | src/node/accounts-db/src/accounts_db.rs:4050-4052 | it returns nothing only if at some time during the load no visible version was indexed |
| `LoadEnds.AloneIsShort` | src/node/accounts-db/src/accounts_db.rs:3695-4022 | from every state of every run, a reader left alone makes at most seven steps |
| `LoadEnds.AloneReachesTheEnd` | src/node/accounts-db/src/accounts_db.rs:3955-3962 | and they lead to the account or to its absence: a failed lookup leads back to the index, and no state is stuck |
| `LoadEnds.LoadEnds` | src/node/accounts-db/src/accounts_db.rs:3897-3919 | on every run and from any of its states, seven steps of the reader, and four more for each change that others make to an index entry of the key, end the load, whatever the load hint |
| `LoadEnds.LockedAttemptEnds` | src/node/accounts-db/src/accounts_db.rs:4010-4017 | whatever others do, an attempt under the lock of the index entry has the account after at most three probes |
| `LoadEnds.LockedAfterLimit` | src/node/accounts-db/src/accounts_db.rs:3941-3953 | the lock is taken only after as many counted misses as the limit says |
| `LoadEnds.CountedLoadEnds` | src/node/accounts-db/src/accounts_db.rs:3921-3935 | with an unspecified hint, where every miss counts, the load ends after a number of its own steps that depends on the limit alone |
| `LoadEnds.WholeLoadEnds` | src/node/accounts-db/src/accounts_db.rs:4024-4122 | the same for the whole load: the slots of the search up to its bound, then the retry loop |
| `LoadEnds.LoadCanStep` | src/node/accounts-db/src/accounts_db.rs:4050-4053 | a load that has not ended can go on; after a search without a final answer, with the index |
| `LoadEnds.WholeLockedAttemptEnds` | src/node/accounts-db/src/accounts_db.rs:4010-4017 | the locked attempt within a whole load |
| `LoadEnds.FoundEndsLoad` | src/node/accounts-db/src/accounts_db.rs:4035-4048 | an account found at an ancestor or at an unflushed root is the result, and the index is not read |
| `IndexLookup.LatestSlot` | src/node/accounts-db/src/accounts_index.rs:475-519 | the newest ancestor in the slot list, else the newest root up to the bound, else nothing |
| `IndexLookup.LatestVisible` | src/node/accounts-db/src/accounts_index.rs:320-334 | bounded by the oldest ancestor, the two-phase search returns the newest visible slot |
| `ScanPins.ScanTracker.constructor` | src/node/accounts-db/src/accounts_scan.rs:60-78 | no scan is in progress |
| `ScanPins.ScanTracker.TryNew` | src/node/accounts-db/src/accounts_scan.rs:107-153 | pins the root unless the bank was removed; each root is counted once per scan |
| `ScanPins.ScanTracker.Drop` | src/node/accounts-db/src/accounts_scan.rs:248-260 | unpins; the root stays listed only for other scans |
| `ScanPins.ScanTracker.MinOngoingScanRoot` | src/node/accounts-db/src/accounts_scan.rs:80-86 | the lowest root of all scans in progress |
| `ScanPins.MaxCleanRoot` | src/node/accounts-db/src/accounts_db.rs:1407-1420 | the highest slot that passes neither a pinned root nor the proposed one; no bound only without both |
| `ScanPins.CleansStayBelowPins` | src/node/accounts-db/src/accounts_db.rs:1407-1420 | on every run of scans, root advances and cleans that are bounded by a scan or by a proposed root already set, a clean's bound is at or below the root of every scan alive while it runs, also of later ones |
| `ScanPins.UnboundedCleanUnprotected` | src/node/accounts-db/src/accounts_db.rs:1407-1420 | a clean without a proposed root and without scans does not protect the next scan: the condition is exact |
| `ScanPins.UnboundedFlushDisturbs` | src/node/accounts-db/src/accounts_db.rs:4637-4667 | what such a scan then sees: of a key cached at two flushed roots, a read at the older one, where the scan reads, loses the version it showed |
| `ScanPins.FlushWithClean` | src/node/accounts-db/src/accounts_db.rs:4637-4667 | the flush with the bound that the scans allow stores and removes what it should, and no scan in progress and no read at or above the bound sees a change in any state on the way |
| `ScanPins.ScansUndisturbed` | src/node/accounts-db/src/accounts_scan.rs:107-153 | on every run, a flush with the bound of a clean in progress disturbs no scan in progress, also none that started after the bound was chosen |
| `ScanPins.FlushInRun` | src/node/accounts-db/src/accounts_db.rs:4637-4667 | the flush as part of a run: its bound is that of the clean it starts, and until that ends no scan sees a change in any state the flush goes through |
| `StartupIndex.MixInMeasures` | src/node/lattice-hash/src/lt_hash.rs:37-43 | mixing in hashes of disjoint sets of versions hashes their union |
| `StartupIndex.MixOutMeasures` | src/node/lattice-hash/src/lt_hash.rs:46-52 | mixing out the hash of a part leaves the hash of the rest |
| `StartupIndex.ClosedAddNothing` | src/node/accounts-db/src/accounts_db.rs:4491-4500 | leaving out accounts without lamports changes no total |
| `StartupIndex.ScanStorage` | src/node/accounts-db/src/accounts_db.rs:6045-6116 | one storage: totals of its versions that are not obsolete, where only accounts with lamports add their data length and their hash, or a panic if and only if its lamports exceed 64 bits |
| `StartupIndex.ScanAll` | src/node/accounts-db/src/accounts_db.rs:445-462 | totals of all versions of the given storages; `PartitionsHoldTheSame` makes them independent of the partition |
| `StartupIndex.AllVersionsHold` | src/node/accounts-db/src/accounts_db.rs:6045-6121 | the versions are exactly the accounts that some storage holds and has not marked obsolete, under their key and slot |
| `StartupIndex.PartitionsHoldTheSame` | src/node/accounts-db/src/accounts_db.rs:6190-6242 | two ways to share out the same storages among threads give the same versions and the same overflows |
| `StartupIndex.PartitionsAgree` | src/node/accounts-db/src/accounts_db.rs:6190-6242 | so the result of index generation is the same for every partition |
| `StartupIndex.VisitDuplicates` | src/node/accounts-db/src/accounts_db.rs:6559-6617 | totals of the versions that are not the newest of their key |
| `StartupIndex.GenerateIndex` | src/node/accounts-db/src/accounts_db.rs:6370-6433 | capitalization of the newest versions, and data length and lane-wise hash sum, modulo 2^16, of those with lamports; no subtraction underflows; fails exactly when a checked sum overflows |
| `StartupIndex.BuildIndex` | src/node/accounts-db/src/accounts_db.rs:6118-6121 | there is an entry for a key and a slot if and only if a storage of that slot holds an account of the key that is not obsolete, and it is that account |
| `StartupIndex.TotalsFromIndex` | src/node/accounts-db/src/accounts_db.rs:4878-4968 | capitalization of the newest versions and the lane-wise hash sum of those with lamports, from walking the index; the capitalization fails if and only if the sum passes 64 bits |
| `StartupIndex.MeasuresAgree` | src/node/accounts-db/src/accounts_db.rs:4870-4968 | the two ways to compute them agree on the values, and on failing when each storage fits |
| `CacheWrites.StoreAllStoresLast` | src/node/accounts-db/src/accounts_db.rs:5684-5737 | storing a whole batch in order leaves the last write of each account |
| `CacheWrites.LoadIsNewest` | src/node/accounts-db/src/accounts_db.rs:3669-3678 | a load from a slot is the newest version on its fork, or nothing if that has zero lamports |
| `CacheWrites.CacheDb.NewestIsZero` | src/node/accounts-db/src/accounts_db.rs:5710-5717 | the index lookup tells whether a load from the slot would return the account |
| `CacheWrites.CacheDb.WriteAccountsToCache` | src/node/accounts-db/src/accounts_db.rs:5684-5737 | stores the last write of each account, unless it closes an account that is not there; flags exactly what it stored |
| `CacheWrites.CacheDb.UpdateIndexCachedAccounts` | src/node/accounts-db/src/accounts_db.rs:5027-5075 | the index agrees with the cache again |
| `CacheWrites.CacheDb.StoreAccountsUnfrozen` | src/node/accounts-db/src/accounts_db.rs:5486-5509 | both together |
| `CacheWrites.BatchIsRead` | src/node/accounts-db/src/accounts_db.rs:5684-5737 | after a batch, a load from the slot returns the last write of an account, nothing if that has zero lamports, and is as before for accounts not written |
| `CacheWrites.SkippedWritesInvisible` | src/node/accounts-db/src/accounts_db.rs:5684-5737 | over every run of batches on a tree of forks, no load from any slot can tell the database from one that stores every write in order |
| `CacheWrites.LateWriteShows` | src/node/accounts-db/src/accounts_db.rs:5684-5737 | it rests on frozen parents: a write below a slot that closed the account would show |
| `StorageReader.Align` | src/node/accounts-db/src/accounts_file.rs:24-29 | the next multiple of eight |
| `StorageReader.DroppedIffObsolete` | src/node/accounts-db/src/obsolete_accounts.rs:39-47 | a byte is left out if and only if it belongs to an account marked at a slot at or below the snapshot, and covered twice if and only if it belongs to two of them |
| `StorageReader.AliveIsKept` | src/node/accounts-db/src/obsolete_accounts.rs:39-47 | what the ranges leave over is the file without the accounts marked at or below the snapshot |
| `StorageReader.AnnouncedLength` | src/node/accounts-db/src/account_storage_entry.rs:143-154 | the announced length is the number of bytes that stay if and only if no byte is marked twice |
| `StorageReader.SortDescending` | src/node/accounts-db/src/account_storage_reader.rs:45-46 | sorted, and covering every position as often as before |
| `StorageReader.StreamIsAlive` | src/node/accounts-db/src/account_storage_reader.rs:72-122 | the delivered stream is exactly the bytes that stay if and only if none of them lies behind a byte marked twice |
| `StorageReader.MarkedTwiceTruncates` | src/node/accounts-db/src/account_storage_reader.rs:72-122 | an account marked twice hides everything behind it |
| `StorageReader.AccountStorageReader.constructor` | src/node/accounts-db/src/account_storage_reader.rs:27-60 | a new reader is going to deliver the file without the accounts marked at or below the snapshot if and only if none of these bytes lies behind a byte marked twice, and announces their number as well if and only if no byte is marked twice |
| `StorageReader.AccountStorageReader.Read` | src/node/accounts-db/src/account_storage_reader.rs:72-122 | delivers the next bytes of the stream, for any buffer and any short file reads; less than a full buffer only at its end; the rest of the buffer is untouched |
| `AccountLocks.HasDuplicates` | src/node/accounts-db/src/account_locks.rs:162-183 | finds a repeated key if and only if there is one, on both branches |
| `AccountLocks.Validate` | src/node/accounts-db/src/account_locks.rs:141-155 | accepts exactly the key lists within the limit without a repeated key, and says which of the two is wrong; too many keys come first |
| `AccountLocks.ValidateBatch` | src/node/accounts-db/src/accounts.rs:464-471 | each transaction keeps an earlier error or gets that of its own validation |
| `AccountLocks.HeldDeterminesLocks` | src/node/accounts-db/src/account_locks.rs:13-16 | the lock maps are determined by who holds locks, so unlocking a batch restores them |
| `AccountLocks.BatchExclusive` | src/node/accounts-db/src/account_locks.rs:22-41 | letting in what clashes with no holder keeps writers alone with their batch |
| `AccountLocks.Locks.constructor` | src/node/accounts-db/src/account_locks.rs:12-16 | nobody holds a lock |
| `AccountLocks.Locks.CanLock` | src/node/accounts-db/src/account_locks.rs:59-81 | true if and only if no held transaction clashes |
| `AccountLocks.Locks.LockAccounts` | src/node/accounts-db/src/account_locks.rs:73-81 | the transaction holds all its locks; counts are exact |
| `AccountLocks.Locks.UnlockAccounts` | src/node/accounts-db/src/account_locks.rs:47-55 | it gives up exactly those, and no zero entries stay |
| `AccountLocks.Locks.TryLockBatch` | src/node/accounts-db/src/account_locks.rs:22-41 | each validated transaction gets in if and only if it clashes with none outside its batch |
| `AccountLocks.Locks.LockBatch` | src/node/accounts-db/src/accounts.rs:454-476 | an earlier error stays; otherwise too many accounts, an account named twice, or a clash with a transaction outside the batch is the error, in this order, and a transaction without any gets its locks |
| `AccountLocks.Locks.UnlockBatch` | src/node/accounts-db/src/accounts.rs:478-496 | gives up the locks of the batch's transactions that got in, and no others |
| `BlockhashQueue.WindowBounds` | src/node/accounts-db/src/blockhash_queue.rs:107-109 | a window of n indices holds at most n hashes |
| `BlockhashQueue.Queue.constructor` | src/node/accounts-db/src/blockhash_queue.rs:54-63 | the empty queue |
| `BlockhashQueue.Queue.GetHashAge` | src/node/accounts-db/src/blockhash_queue.rs:88-92 | the number of registrations since the latest one of the hash; never negative |
| `BlockhashQueue.Queue.GetHashInfoIfValid` | src/node/accounts-db/src/blockhash_queue.rs:76-86 | for ages up to the smallest maximum so far, valid if and only if the latest call lies within that age |
| `BlockhashQueue.Queue.GenesisHash` | src/node/accounts-db/src/blockhash_queue.rs:94-105 | records the hash with index zero |
| `BlockhashQueue.Queue.RegisterHash` | src/node/accounts-db/src/blockhash_queue.rs:111-124 | records the hash with the next index; at most the maximum age and one more hashes stay |
| `BlockhashQueue.Queue.Purge` | src/node/accounts-db/src/blockhash_queue.rs:126-132 | drops only hashes beyond the maximum age, and enough of them |
| `BlockhashQueue.Queue.SetMaxAge` | src/node/accounts-db/src/blockhash_queue.rs:134-138 | the bound holds for the new maximum age at once |
| `StorageOrder.SelectTakesNext` | src/node/accounts-db/src/account_storage.rs:482-499 | each pick takes the next value left at its end of the range |
| `StorageOrder.SelectSplits` | src/node/accounts-db/src/account_storage.rs:482-499 | picks stay in the range; those from the start are its lowest values |
| `StorageOrder.SelectInjective` | src/node/accounts-db/src/account_storage.rs:482-499 | no value is picked twice |
| `StorageOrder.RankBySorting` | src/node/accounts-db/src/account_storage.rs:351-352 | a storage has rank r by size if and only if its size is that of number r in any sorted order |
| `StorageOrder.DocumentedIffPicksByRank` | src/node/accounts-db/src/account_storage.rs:341-359 | for any sizes, the order is the documented one if and only if the sorted order used commutes with the selection up to equal sizes |
| `StorageOrder.DocumentedIffCommutes` | src/node/accounts-db/src/account_storage.rs:341-359 | for distinct sizes, if and only if ranking the input commutes with the selection |
| `StorageOrder.DocumentedWhenAscending` | src/node/accounts-db/src/account_storage.rs:341-359 | it is the documented one for strictly ascending input |
| `StorageOrder.DocumentedWithoutLarge` | src/node/accounts-db/src/account_storage.rs:341-359 | and for any input when no large storages are asked for |
| `StorageOrder.WithSmallToLargeRatio` | src/node/accounts-db/src/account_storage.rs:345-359 | a permutation of the storages, selected from a sorted order, with the conditions above |
| `StorageOrder.RatioIgnoresCapacity` | src/node/accounts-db/src/account_storage.rs:341-359 | storages for which the order is not the documented one |
| `StorageOrder.TiesBreakOrder` | src/node/accounts-db/src/account_storage.rs:351-355 | ascending storages, two of the same size, for which it is not either |
| `StorageOrder.PermutationReaches` | src/node/accounts-db/src/account_storage.rs:345-359 | every storage has a position in the order |
| `StorageOrder.ConcurrentConsumer.constructor` | src/node/accounts-db/src/account_storage.rs:423-429 | nothing has been handed out |
| `StorageOrder.ConcurrentConsumer.Next` | src/node/accounts-db/src/account_storage.rs:433-447 | in any interleaving of callers, a storage not handed out before, or nothing once all have been |
| `DeadAccounts.AppendAccounts` | src/node/accounts-db/src/append_vec.rs:1255-1327 | appends while accounts fit, one behind the other, and reports exactly the bytes they take |
| `DeadAccounts.WriteAccounts` | src/node/accounts-db/src/accounts_db.rs:5770-5778 | alive count and bytes take in exactly what was appended; nothing else of the storage changes |
| `DeadAccounts.MarkObsolete` | src/node/accounts-db/src/obsolete_accounts.rs:20-35 | each reclaimed account is marked once, with its length and the slot |
| `DeadAccounts.RemoveDead` | src/node/accounts-db/src/accounts_db.rs:5250-5310 | the shortcut for removing everything and the summing of sizes give the same counters, neither takes more accounts or bytes than there are, and the storage is empty if and only if all alive accounts went |
| `DeadAccounts.MarksSuitReader` | src/node/accounts-db/src/account_storage_reader.rs:27-60 | marks from reclaiming never cover a byte twice, which the snapshot reader needs |
| `DeadAccounts.OpenReader` | src/node/accounts-db/src/account_storage_reader.rs:27-60 | so a reader of such a storage delivers exactly the bytes outside accounts marked at or below the snapshot, and announces their number |
| `DeadAccounts.MarkedIsGone` | src/node/accounts-db/src/obsolete_accounts.rs:39-47 | a marked account is there, byte for byte, at every snapshot before its mark and at none from the mark on |
| `DeadAccounts.AliveIsThere` | src/node/accounts-db/src/obsolete_accounts.rs:39-47 | what the index refers to is there at every snapshot |
| `DeadAccounts.BySlot` | src/node/accounts-db/src/accounts_db.rs:5228-5235 | the reclaimed offsets of each slot |
| `DeadAccounts.Storages.RemoveDeadAccounts` | src/node/accounts-db/src/accounts_db.rs:5213-5336 | every storage loses exactly its reclaimed accounts, counters stay exact, and a slot is dead if and only if all it had alive went; reclaimed accounts of other slots are gone from snapshots at or after the mark and still in earlier ones |
| `DeadAccounts.Storages.constructor` | src/node/accounts-db/src/account_storage.rs:20-36 | no storages |
| `DeadAccounts.Storages.CreateStore` | src/node/accounts-db/src/accounts_db.rs:4172-4195 | a new storage has nothing alive |
| `DeadAccounts.Storages.StoreAccounts` | src/node/accounts-db/src/accounts_db.rs:5739-5784 | all accounts, or those before the first that does not fit, are alive at fresh offsets, and the counters of every storage stay exact |
| `LargestAccounts.Offer` | src/node/accounts-db/src/accounts.rs:280-291 | the bounded heap keeps the largest accounts offered so far |
| `LargestAccounts.LoadLargestAccounts` | src/node/accounts-db/src/accounts.rs:255-302 | accounts with lamports that are in the address set to include, or not in the one to exclude, by descending balance and then address; one is missing only if `num` larger ones are there |
| `PublishOrder.StuckHasCycle` | src/node/ci/order-crates-for-publishing.py:131-137 | packages that wait for each other contain a cycle |
| `PublishOrder.CycleForbidsOrder` | src/node/ci/order-crates-for-publishing.py:3-5 | with a cycle no order exists |
| `PublishOrder.Pass` | src/node/ci/order-crates-for-publishing.py:139-149 | one pass takes exactly the packages that depend on no remaining one |
| `PublishOrder.PassUsesOne` | src/node/ci/order-crates-for-publishing.py:131-137 | a pass removes a package or shows that the rest is stuck, so the budget suffices |
| `PublishOrder.OrderPackages` | src/node/ci/order-crates-for-publishing.py:128-152 | each package once and after its dependencies, or an error if and only if there is a cycle |
| `PublishOrder.HasDirectCycle` | src/node/ci/order-crates-for-publishing.py:109-127 | finds mutual and self dependencies, which are cycles |
| `PublishOrder.GetPackages` | src/node/ci/order-crates-for-publishing.py:95-152 | the script prints an order if and only if there is no cycle of any length |
| `Decimals.ParsePadded` | src/node/account-decoder-client-types/src/token.rs:38-44 | padded digits stand for the amount |
| `Decimals.PrintedValue` | src/node/account-decoder-client-types/src/token.rs:36-47 | the printed number, read back, is the amount in units of its last decimal |
| `Decimals.TrimmedValue` | src/node/account-decoder-client-types/src/token.rs:49-56 | so is the trimmed one |
| `Decimals.TrimmedShape` | src/node/account-decoder-client-types/src/token.rs:49-56 | trimming keeps all digits before the point and leaves no zero behind it at the end |
| `Decimals.WholePart` | src/node/account-decoder-client-types/src/token.rs:36-56 | before the point stands a single zero, or a number without zeros in front |
| `Decimals.TrimmedInjective` | src/node/account-decoder-client-types/src/token.rs:49-56 | different amounts print differently |

## Left out

- File and memory-map I/O, thread pools, timing, metrics and logging; parallel loops are arbitrary orders or partitions.
- Internals of the index bins and the on-disk index, the read-only account cache and account hashing: a hash is an arbitrary vector per version, added lane by lane modulo 2^16.
- The race of a load with a slot that is removed and stored again, and the purge of slots on minor forks: they rest on bank lifetimes. The reader model assumes that a slot is not written once it is rooted.
- AuthoritativeLoad.LoadIsNewest: the cache search and the index lookup see one state, and writes reach the cache and the index together; `WholeLoad` interleaves both, access by access.
- CacheSearch.AnswerWasNewest: the search of the roots being flushed is not a step, since its answers are never final. It assumes that of the reader's ancestors only its own bank writes the account during the search, and that a new root the reader can see is one of its ancestors.
- WholeLoad.LoadReturnsNewest: the same assumptions, over the whole load. Newest is meant among the versions in the index; a version that the reading bank has put in the cache and not yet indexed may be newer. The read-only cache between the index read and the retry loop is not modelled.
- LoadEnds.LoadEnds: with a fixed maximum root, stored misses are not counted by the source, so the bound grows with the changes that others make; that these are finite, as the source assumes of pending cleans and shrinks, is not modelled. A reader with that hint starts only when its bank descends from every root.
- ReaderProtocol.FlushAssertionsHold: that no shrink runs when a flush or clean begins or a store is dropped is assumed of the serial background service.
- ReaderProtocol.ShrinkAssertionsHold: that a shrink begins on a slot with a store and no other shrink is assumed of the serial background service.
- `ScanGuard::should_use_ancestors` and `was_scan_corrupted`: membership tests; why the first is right is about the bank forks.
- Fixed widths: slots, ids, counters and offsets are unbounded, except where the source checks for overflow (64-bit sums in `StartupIndex`); the 128-bit accumulators there are unbounded.
- CleanDependencies.BuildStoreCounts: starts from slot lists after purged and reclaimed entries were taken out; bins are one map.
- Shrink selection by ratio, which depends on floating-point rounding, and the marking of shrink candidates.
- The retry that creates a second store in `write_accounts_to_storage`; `AppendAccounts` reports how many accounts fit.
- DeadAccounts.Storages.RemoveDeadAccounts: a storage entry is a value in a map field, not an object with atomic counters, so concurrent updates of its counters are not modelled.
- StorageReader.AccountStorageReader.constructor: `numAliveBytes` is an integer, where the source subtracts unsigned numbers and so relies on the marks being separate.
- The dependency filters of the publishing script that decide which edges are in the graph, and its report of wrong self dependencies.
- LargestAccounts.LoadLargestAccounts: takes the scan as a sequence with distinct keys; the heap is a set with a smallest element.
- `MaxFlushedRoot`, `AccountInfo` bit packing, account decoders, clients and benches: they would only add easy members.
