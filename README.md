# Worker bookkeeping of the MLOps cluster, in Dafny

This project models the in-memory stores that the cluster uses to keep track of
its workers, and the one routine that orchestrates them. It then proves what
those stores promise.

- **Transactional store** (`TxSpec`, `TxDict`). This is a key/value map with pessimistic per-key locks.
  - Each entry holds three things: a committed value, the transaction that owns its lock, and a pending value. The committed and pending values may also be one of the markers NO_VALUE or DELETED.
  - Snapshot reads see committed values only.
  - Writes, deletes, `get_for_update` and `search_for_update` need an open transaction. They take each key's lock the first time they touch it.
  - Leaving a transaction applies its pending writes and deletes (commit) or drops them (rollback). Either way it releases every lock the transaction held.
  - `TxSpec` gives each operation's effect as a function on the store's contents. The classes in `TxDict` are proved to do exactly what those functions say.
  - A view made by `transaction()` shares the table of entries with its store, and only the view is bound to the transaction.
- **Worker registry over the transactional store** (`WorkerStorages`).
  - `get_first_idle_by_type` is a search with limit 1.
  - `cleanup` is a search for unhealthy records, followed by one delete per record found.
- **Plain-dict worker registry** (`MemoryWorkerStorages`). This is the reference version of the same operations. The two registries are proved to pick the same worker on committed data.
- **Training status store** (`TrainingStatusStorages`). It keeps the newest report per task id.
- **Bridge factory** (`WorkerBridges`). It is a lease cache from connection info to a bridge and its remaining breath.
  - A hit renews the lease.
  - A miss creates and caches a new bridge.
  - Each sweep tick shortens every lease by one, then closes and drops the bridges whose lease has run out.
- **Cluster** (`WorkerClusters`). It models the read operations and `assign_training_task`, which looks the task up, picks an idle worker, gets that worker's bridge and sends it `start`.
  - The task repository is a map.
  - Every `start` sent is recorded.

How the code is modelled:

- **Sequential execution.** The model runs one thread of control. Another transaction holding a key stands for a wait that can only time out, so it fails at once with TimeoutError and leaves the owner unchanged.
- **Transactions are numbers.** Each transaction is a number issued by the shared entry table, standing for the object identity that the code compares with `is`.
- **Helpers.** Module `Common` holds Option, Result and the exception kinds with their messages. Module `Dicts` is an insertion-ordered dict made of a key sequence and a map. Module `Model` holds the record datatypes.

**Behaviour of the code worth knowing:**

- Only the view's transaction field is ever set. So `transaction()` on the base store can be called any number of times, and "Transaction already in progress" is raised only by a view.
- `search_for_update` collects one pair before it compares the count with the limit. With a limit of zero or less it still locks that first match, although its result, `results[:limit]`, is shorter.
- When a miss races another thread, `get_worker_bridge` does not close the bridge it discards after `setdefault`. With one thread, the new bridge is always the one stored.

## Model

| member | source | states |
|---|---|---|
| `TxSpec.GetItem` | src/mlops/cluster/storages/common_storages/transactional_dict.py:49-55 | a snapshot read returns the committed value, and raises KeyError when there is none. Pending writes are never seen. |
| `TxSpec.Acquire` | src/mlops/cluster/storages/common_storages/transactional_dict.py:63-95 | It fails with TimeoutError, changing nothing, exactly when another transaction owns the key. It returns None, changing nothing, exactly for an absent key when `create` is not set. Otherwise the caller owns the key, a created entry has no value and is appended at the end, and nothing else and no committed value changes. |
| `TxSpec.SetItem` | src/mlops/cluster/storages/common_storages/transactional_dict.py:102-106 | Outside a transaction it raises RuntimeError and changes nothing. A key owned by another transaction raises TimeoutError and changes nothing. Otherwise the key is locked with the value pending, its committed value is kept, a new key is appended, and no other entry changes. |
| `TxSpec.DelItem` | src/mlops/cluster/storages/common_storages/transactional_dict.py:108-114 | It succeeds exactly when the key has a committed value and no other transaction owns it, and then marks it pending DELETED. An absent key raises KeyError and changes nothing. A key with no committed value raises KeyError but stays locked. |
| `TxSpec.GetForUpdate` | src/mlops/cluster/storages/common_storages/transactional_dict.py:120-130 | An absent key raises KeyError even when a default is given. Otherwise the key is locked and the result is the in-transaction value. The default is returned, or else KeyError raised, only when that value is a marker. |
| `TxSpec.Prefix` | src/mlops/cluster/storages/common_storages/transactional_dict.py:177 | `results[:limit]` follows Python's slice rules, including a negative limit counting from the end |
| `TxSpec.ScanFound` | src/mlops/cluster/storages/common_storages/transactional_dict.py:138-176 | the scan only appends. Each appended pair's key matches (on the dirty value for keys already owned, on the committed value otherwise) and carries that key's committed value. |
| `TxSpec.ScanLocks` | src/mlops/cluster/storages/common_storages/transactional_dict.py:149-176 | the scan locks only keys nobody owned, and only keys it collects |
| `TxSpec.ScanTimeout` | src/mlops/cluster/storages/common_storages/transactional_dict.py:155-156 | a timeout happens only on a matching key that another transaction owns. A scan that finishes without filling up passed no such key. |
| `TxSpec.ScanLength` | src/mlops/cluster/storages/common_storages/transactional_dict.py:145-146 | the scan stops at `limit` pairs, or one past those already collected |
| `TxSpec.FirstMatch` | src/mlops/cluster/storages/common_storages/transactional_dict.py:138-152 | the position of the first key, in store order, that the scan's test accepts (dirty value for keys the transaction owns, committed value otherwise); None exactly when no key is accepted |
| `TxSpec.ScanFirstMatch` | src/mlops/cluster/storages/common_storages/transactional_dict.py:138-176 | a scan for one pair stops at the first accepted key: none accepted gives nothing; that key owned by another transaction gives a timeout with nothing found; otherwise exactly that key and its committed value |
| `TxSpec.ScanComplete` | src/mlops/cluster/storages/common_storages/transactional_dict.py:138-176 | with no limit, a scan that does not time out collects every matching key |
| `TxSpec.SearchForUpdateSound` | src/mlops/cluster/storages/common_storages/transactional_dict.py:132-177 | Outside a transaction it raises RuntimeError and changes nothing. It returns at most `limit` pairs, and every pair matches and carries the committed value, so a key with only a marker is never returned. The only entries that change are unowned matching keys, which the caller now owns. A timeout means some matching key is owned by another transaction. Committed values are unaffected. |
| `TxSpec.SearchLocksFound` | src/mlops/cluster/storages/common_storages/transactional_dict.py:132-177 | the contents after the search are the old contents with exactly the collected, previously unowned keys locked. At most `limit` pairs are collected, or one for a limit of zero or less. |
| `TxSpec.ExitTransaction` | src/mlops/cluster/storages/common_storages/transactional_dict.py:199-213 | On commit a pending DELETED removes the key, a pending value becomes the committed value, and otherwise the value is kept. Every key the transaction owned ends unowned with nothing pending. Keys owned by others are untouched. The keys that stay keep their insertion order, on commit and on rollback. A rollback changes no committed value and keeps every key in place. |
| `TxSpec.RollbackKeepsKeys` | src/mlops/cluster/storages/common_storages/transactional_dict.py:205-211 | the rollback walk keeps the key order and every committed value |
| `TxSpec.ExitReleasesAll` | src/mlops/cluster/storages/common_storages/transactional_dict.py:210-211 | after either exit the transaction owns no key |
| `TxSpec.ExitKeepsOwners` | src/mlops/cluster/storages/common_storages/transactional_dict.py:199-213 | exiting takes no lock, so every owner is still a transaction issued earlier |
| `TxSpec.ExitLiveFails` | src/mlops/cluster/storages/common_storages/transactional_dict.py:202-207 | as written, walking the live dict raises RuntimeError at the first key it pops |
| `TxSpec.ExitAsWrittenFailsOnDelete` | src/mlops/cluster/storages/common_storages/transactional_dict.py:202-207 | as written, every commit of a transaction with a pending delete raises RuntimeError |
| `TxSpec.ExitAsWrittenExample` | src/mlops/cluster/storages/common_storages/transactional_dict.py:199-213 | concrete case: as written, a later key stays locked with its write uncommitted. The corrected exit commits it. |
| `TxSpec.WriteThenCommit` | src/mlops/cluster/storages/common_storages/transactional_dict.py:102-106 | a write is invisible to snapshot reads until commit, and visible afterwards |
| `TxSpec.DeleteThenCommit` | src/mlops/cluster/storages/common_storages/transactional_dict.py:108-114 | a delete is invisible until commit, and afterwards the key is gone |
| `TxSpec.ReadYourWrite` | src/mlops/cluster/storages/common_storages/transactional_dict.py:120-130 | inside the transaction `get_for_update` returns its own pending write |
| `TxSpec.ReadYourDelete` | src/mlops/cluster/storages/common_storages/transactional_dict.py:120-130 | inside the transaction a pending delete reads as the default, or as KeyError |
| `TxSpec.Run` | src/mlops/cluster/storages/common_storages/transactional_dict.py:102-213 | any sequence of calls keeps the entry invariant. A committed value is never DELETED, and an unowned entry has nothing pending. |
| `TxSpec.ApplyKeepsCommitted` | src/mlops/cluster/storages/common_storages/transactional_dict.py:102-177 | a single call that is not a commit changes no committed value |
| `TxSpec.RollbackIsolation` | src/mlops/cluster/storages/common_storages/transactional_dict.py:49-55 | while nobody commits, every snapshot read returns what it returned before, whatever the transactions wrote, deleted, locked or rolled back |
| `TxSpec.ApplyKeepsHeld` | src/mlops/cluster/storages/common_storages/transactional_dict.py:82-95 | a call by another transaction leaves an owned key's entry alone |
| `TxSpec.LockExclusive` | src/mlops/cluster/storages/common_storages/transactional_dict.py:82-95 | Mutual exclusion: no sequence of calls by other transactions changes the entry of a key a transaction owns. |
| `TxSpec.RolledBackInsertLeavesGhost` | src/mlops/cluster/storages/common_storages/transactional_dict.py:41-55 | A rolled-back write of a new key leaves an entry with no value. Length and iteration still count it, a snapshot read raises KeyError, and search never returns it. |
| `TxDict.EntryTable.constructor` | src/mlops/cluster/storages/common_storages/transactional_dict.py:35-39 | an empty table with no transaction issued |
| `TxDict.EntryTable.Release` | src/mlops/cluster/storages/common_storages/transactional_dict.py:201-211 | the exit loop over a snapshot of the keys leaves exactly `ExitTransaction` of the old contents |
| `TxDict.EntryTable.ReleaseKey` | src/mlops/cluster/storages/common_storages/transactional_dict.py:203-211 | one round of the exit loop moves the walk one key further |
| `TxDict.TransactionalDict.constructor` | src/mlops/cluster/storages/common_storages/transactional_dict.py:35-39 | a fresh empty store outside any transaction |
| `TxDict.TransactionalDict.View` | src/mlops/cluster/storages/common_storages/transactional_dict.py:183-184 | the shallow copy shares the table and is bound to the transaction |
| `TxDict.TransactionalDict.Iter` | src/mlops/cluster/storages/common_storages/transactional_dict.py:41-43 | every key exactly once, including entries with no committed value |
| `TxDict.TransactionalDict.Len` | src/mlops/cluster/storages/common_storages/transactional_dict.py:45-47 | the number of entries, committed or not |
| `TxDict.TransactionalDict.GetItem` | src/mlops/cluster/storages/common_storages/transactional_dict.py:49-55 | the committed value, or KeyError |
| `TxDict.TransactionalDict.ValidateTx` | src/mlops/cluster/storages/common_storages/transactional_dict.py:97-100 | the bound transaction, or RuntimeError outside one |
| `TxDict.TransactionalDict.GetEntry` | src/mlops/cluster/storages/common_storages/transactional_dict.py:63-95 | the acquire loop does exactly what `Acquire` says |
| `TxDict.TransactionalDict.SetItem` | src/mlops/cluster/storages/common_storages/transactional_dict.py:102-106 | result and new contents are those of `TxSpec.SetItem` |
| `TxDict.TransactionalDict.DelItem` | src/mlops/cluster/storages/common_storages/transactional_dict.py:108-114 | result and new contents are those of `TxSpec.DelItem` |
| `TxDict.TransactionalDict.GetForUpdate` | src/mlops/cluster/storages/common_storages/transactional_dict.py:120-130 | result and new contents are those of `TxSpec.GetForUpdate` |
| `TxDict.TransactionalDict.SearchKey` | src/mlops/cluster/storages/common_storages/transactional_dict.py:139-176 | one round of the search loop advances the scan by one key, or stops it on the limit or on a timeout |
| `TxDict.TransactionalDict.SearchForUpdate` | src/mlops/cluster/storages/common_storages/transactional_dict.py:132-177 | result and new contents are those of `TxSpec.SearchForUpdate` |
| `TxDict.TransactionalDict.NewTransaction` | src/mlops/cluster/storages/common_storages/transactional_dict.py:179-185 | A bound view refuses with RuntimeError. Otherwise the result is a fresh transaction at level 0 with a fresh view bound to it, sharing the table and owning no key. |
| `TxDict.Transaction.constructor` | src/mlops/cluster/storages/common_storages/transactional_dict.py:189-191 | level 0, bound to its view |
| `TxDict.Transaction.Enter` | src/mlops/cluster/storages/common_storages/transactional_dict.py:193-197 | Entering a transaction that is already entered raises RuntimeError. Otherwise the level goes up by one and the view is returned. |
| `TxDict.Transaction.Exit` | src/mlops/cluster/storages/common_storages/transactional_dict.py:199-213 | the level goes down by one, the contents become `ExitTransaction`, and the view is unbound |
| `WorkerStorages.DeleteStep` | src/mlops/cluster/storages/worker_storage.py:59-60 | It returns True exactly when the id has a committed value, and then that record is locked and marked for deletion and nothing else changes. With no committed value it returns False and changes nothing. |
| `WorkerStorages.DeleteAllMarks` | src/mlops/cluster/storages/worker_storage.py:36-39 | deleting the found ids marks exactly those ids and changes nothing else |
| `WorkerStorages.CleanupMarksUnhealthy` | src/mlops/cluster/storages/worker_storage.py:35-39 | Cleanup marks exactly the records that are unhealthy in the transaction's view and leaves every other entry untouched. It fails only when another transaction owns an unhealthy record. |
| `WorkerStorages.CleanupIdempotent` | src/mlops/cluster/storages/worker_storage.py:35-39 | a second cleanup in the same transaction changes nothing |
| `WorkerStorages.CleanupThenCommit` | src/mlops/cluster/storages/worker_storage.py:35-39 | after a committed cleanup every committed record is healthy, unless the transaction itself inserted an unhealthy one |
| `WorkerStorages.CleanupOnHealthyNoop` | src/mlops/cluster/storages/worker_storage.py:35-39 | on all-healthy committed data, cleanup finds and changes nothing |
| `WorkerStorages.CleanupAfterCommit` | src/mlops/cluster/storages/worker_storage.py:35-39 | after a committed cleanup, a cleanup in a later transaction deletes nothing more |
| `WorkerStorages.CleanupMissesOwnInsert` | src/mlops/cluster/storages/worker_storage.py:35-39 | an unhealthy record inserted by the same transaction is skipped by the search and committed |
| `WorkerStorages.FirstIdleFirstMatch` | src/mlops/cluster/storages/worker_storage.py:21-33 | for any contents: None when no key is accepted; TimeoutError when the first accepted key is owned by another transaction; otherwise that key's committed record |
| `WorkerStorages.FirstMatchIsFirstIdle` | src/mlops/cluster/storages/worker_storage.py:21-33 | on unowned entries, the first accepted key holds the first idle record of the committed records in store order |
| `WorkerStorages.ScanFirstIdle` | src/mlops/cluster/storages/worker_storage.py:21-33 | on unowned entries, the limit-1 scan never times out and finds the first idle record of the committed records in store order |
| `WorkerStorages.FirstIdleRefines` | src/mlops/cluster/storages/worker_storage.py:21-33 | on committed data the transactional registry returns `FirstIdle` of the committed records in store order |
| `WorkerStorages.FirstIdleAgrees` | src/mlops/cluster/storages/memory_worker_storage.py:30-35 | the transactional and the plain-dict registries pick the same worker |
| `WorkerStorages.FirstIdleLocksAtMostOne` | src/mlops/cluster/storages/worker_storage.py:23-28 | It newly locks at most one record, and only one nobody owned. A returned record is the committed value of a matching key. |
| `WorkerStorages.TransactionAsWrittenFails` | src/mlops/cluster/storages/worker_storage.py:81 | as written, opening a transaction recurses until RecursionError |
| `WorkerStorages.WorkerStorage.constructor` | src/mlops/cluster/storages/worker_storage.py:15-16 | wraps the given store |
| `WorkerStorages.WorkerStorage.Save` | src/mlops/cluster/storages/worker_storage.py:18-19 | writes the record under its worker id |
| `WorkerStorages.WorkerStorage.GetFirstIdleByType` | src/mlops/cluster/storages/worker_storage.py:21-33 | result and new contents are those of `FirstIdleStep` |
| `WorkerStorages.WorkerStorage.Cleanup` | src/mlops/cluster/storages/worker_storage.py:35-39 | the search followed by the delete loop gives the result and contents of `CleanupStep` |
| `WorkerStorages.WorkerStorage.Iter` | src/mlops/cluster/storages/worker_storage.py:41-42 | every key of the store exactly once |
| `WorkerStorages.WorkerStorage.Len` | src/mlops/cluster/storages/worker_storage.py:44-45 | the number of entries of the store |
| `WorkerStorages.WorkerStorage.GetItem` | src/mlops/cluster/storages/worker_storage.py:47-48 | the committed record, or KeyError |
| `WorkerStorages.WorkerStorage.SetItem` | src/mlops/cluster/storages/worker_storage.py:50-51 | behaves as the store's `__setitem__` |
| `WorkerStorages.WorkerStorage.DelItem` | src/mlops/cluster/storages/worker_storage.py:53-54 | behaves as the store's `__delitem__` |
| `WorkerStorages.WorkerStorage.Delete` | src/mlops/cluster/storages/worker_storage.py:59-60 | result and new contents are those of `DeleteStep` |
| `WorkerStorages.WorkerStorage.SearchForUpdate` | src/mlops/cluster/storages/worker_storage.py:62-65 | behaves as the store's `search_for_update` |
| `WorkerStorages.WorkerStorage.GetForUpdate` | src/mlops/cluster/storages/worker_storage.py:73-76 | behaves as the store's `get_for_update` |
| `WorkerStorages.WorkerStorage.NewTransaction` | src/mlops/cluster/storages/worker_storage.py:56-57 | as intended: a bound view refuses with RuntimeError, otherwise a fresh transaction of the wrapped store |
| `WorkerStorages.WorkerTransaction.constructor` | src/mlops/cluster/storages/worker_storage.py:80-81 | wraps the store's transaction |
| `WorkerStorages.WorkerTransaction.Enter` | src/mlops/cluster/storages/worker_storage.py:83-84 | a nested enter raises RuntimeError, otherwise the result is a fresh WorkerStorage over the view |
| `WorkerStorages.WorkerTransaction.Exit` | src/mlops/cluster/storages/worker_storage.py:86-87 | the store's transaction exits, with `ExitTransaction` as the new contents |
| `MemoryWorkerStorages.FirstIdle` | src/mlops/cluster/storages/memory_worker_storage.py:30-35 | None exactly when no record is idle of the type. Otherwise it returns the first idle record. |
| `MemoryWorkerStorages.CleanedExactly` | src/mlops/cluster/storages/memory_worker_storage.py:37-40 | cleanup removes exactly the unhealthy records, keeps the others unchanged and in order, and leaves only healthy ones |
| `MemoryWorkerStorages.CleanedIdempotent` | src/mlops/cluster/storages/memory_worker_storage.py:37-40 | cleaning twice equals cleaning once |
| `MemoryWorkerStorages.MemoryWorkerStorage.constructor` | src/mlops/cluster/storages/memory_worker_storage.py:12-13 | an empty registry |
| `MemoryWorkerStorages.MemoryWorkerStorage.Get` | src/mlops/cluster/storages/memory_worker_storage.py:15-16 | the stored record, or None exactly when the id is absent |
| `MemoryWorkerStorages.MemoryWorkerStorage.GetAll` | src/mlops/cluster/storages/memory_worker_storage.py:18-19 | every record, in insertion order |
| `MemoryWorkerStorages.MemoryWorkerStorage.Delete` | src/mlops/cluster/storages/memory_worker_storage.py:21-22 | True exactly when the id was present. Afterwards it is absent, and the others keep their records and order. |
| `MemoryWorkerStorages.MemoryWorkerStorage.Save` | src/mlops/cluster/storages/memory_worker_storage.py:24-25 | The record is stored under its id and every other id keeps its record. A new id is appended. |
| `MemoryWorkerStorages.MemoryWorkerStorage.Clear` | src/mlops/cluster/storages/memory_worker_storage.py:27-28 | the registry is empty |
| `MemoryWorkerStorages.MemoryWorkerStorage.GetFirstIdleByType` | src/mlops/cluster/storages/memory_worker_storage.py:30-35 | the early-return loop returns `FirstIdle` of the records in insertion order, and changes nothing |
| `MemoryWorkerStorages.MemoryWorkerStorage.Cleanup` | src/mlops/cluster/storages/memory_worker_storage.py:37-40 | the loop over a snapshot of the ids leaves `Cleaned` of the old registry |
| `MemoryWorkerStorages.MemoryWorkerStorage.CleanKey` | src/mlops/cluster/storages/memory_worker_storage.py:39-40 | one round of the cleanup loop deletes the id exactly when its record is unhealthy |
| `TrainingStatusStorages.Saved` | src/mlops/cluster/storages/training_status_storage.py:14-23 | A new task or a strictly newer report is stored. An older or equally recent report leaves the store unchanged. Other tasks are untouched. |
| `TrainingStatusStorages.SaveAllKeys` | src/mlops/cluster/storages/training_status_storage.py:14-23 | after any sequence of saves, the tasks with a status are the earlier ones plus those saved |
| `TrainingStatusStorages.SaveAllNewest` | src/mlops/cluster/storages/training_status_storage.py:16-21 | the stored `updated_at` never decreases. Each task ends with a report at least as recent as every one saved for it. |
| `TrainingStatusStorages.SaveAllFrom` | src/mlops/cluster/storages/training_status_storage.py:14-23 | each stored report is the earlier one or one of those saved for that task |
| `TrainingStatusStorages.TrainingStatusStorage.constructor` | src/mlops/cluster/storages/training_status_storage.py:8-9 | an empty store |
| `TrainingStatusStorages.TrainingStatusStorage.Get` | src/mlops/cluster/storages/training_status_storage.py:11-12 | the stored report, or None exactly when absent |
| `TrainingStatusStorages.TrainingStatusStorage.Save` | src/mlops/cluster/storages/training_status_storage.py:14-23 | the store becomes `Saved` of the old one |
| `TrainingStatusStorages.TrainingStatusStorage.Delete` | src/mlops/cluster/storages/training_status_storage.py:25-29 | True exactly when the task was present, and only that entry is removed |
| `WorkerBridges.WorkerBridge.constructor` | src/mlops/cluster/worker_bridge.py:45-48 | a new bridge with its finalizer armed and its channel open |
| `WorkerBridges.WorkerBridge.Close` | src/mlops/cluster/worker_bridge.py:75-79 | closing leaves the channel closed exactly once, however often it is called |
| `WorkerBridges.Tick` | src/mlops/cluster/worker_bridge.py:104-108 | A tick keeps exactly the entries with breath above one, each one shorter by one. The others are dropped. |
| `WorkerBridges.TickNEntry` | src/mlops/cluster/worker_bridge.py:104-108 | an entry with breath b survives exactly b - 1 ticks, shortened by one each time, with the same bridge |
| `WorkerBridges.EvictedAfterInitialBreath` | src/mlops/cluster/worker_bridge.py:101-126 | an entry not requested again is still cached after 119 ticks, with the same bridge, and evicted at tick 120 |
| `WorkerBridges.TickIndependent` | src/mlops/cluster/worker_bridge.py:104-108 | what a tick does to one key does not depend on the others |
| `WorkerBridges.TouchAsWrittenFailsOnHit` | src/mlops/cluster/worker_bridge.py:122 | as written, a cache hit raises AttributeError, while the intended hit renews the lease with the same bridge |
| `WorkerBridges.SweepAsWrittenNeverEvicts` | src/mlops/cluster/worker_bridge.py:105 | as written, a tick on a non-empty cache raises AttributeError. An entry at its last breath is never evicted, where the intended tick drops it. |
| `WorkerBridges.WorkerBridgeFactory.constructor` | src/mlops/cluster/worker_bridge.py:95-99 | an empty cache |
| `WorkerBridges.WorkerBridgeFactory.CreateBridge` | src/mlops/cluster/worker_bridge.py:128-131 | a fresh open bridge to that worker, with breath 120 |
| `WorkerBridges.WorkerBridgeFactory.GetWorkerBridge` | src/mlops/cluster/worker_bridge.py:111-126 | A hit returns the cached bridge. A miss returns a fresh bridge to that worker. Either way the entry's breath becomes 120 and no other entry changes. |
| `WorkerBridges.WorkerBridgeFactory.SweepTick` | src/mlops/cluster/worker_bridge.py:103-108 | the cache becomes `Tick` of the old one. Every dropped entry's bridge is closed exactly once, and every kept entry's bridge stays open. A bridge that is no longer cached is left alone. |
| `WorkerBridges.WorkerBridgeFactory.SweepKey` | src/mlops/cluster/worker_bridge.py:105-108 | one round of the sweep loop shortens one lease and, at zero, closes and drops that bridge |
| `WorkerClusters.GetById` | src/mlops/common/repos/interfaces.py:8-15 | the task, or RepoError exactly when there is none |
| `WorkerClusters.Assignment` | src/mlops/cluster/worker_cluster.py:30-41 | The lookup error comes first. The result is None exactly when no stored worker is idle of the task's type. Otherwise it is the task and the first idle worker. |
| `WorkerClusters.WorkerCluster.constructor` | src/mlops/cluster/worker_cluster.py:11-19 | holds the given storage, factory and task repository, with nothing started |
| `WorkerClusters.WorkerCluster.GetWorkersStatus` | src/mlops/cluster/worker_cluster.py:21-22 | the status of every stored worker, in storage order |
| `WorkerClusters.WorkerCluster.GetWorkerStatus` | src/mlops/cluster/worker_cluster.py:24-28 | None exactly for an unknown id. Otherwise it returns the stored record's status. |
| `WorkerClusters.WorkerCluster.StatusesAgree` | src/mlops/cluster/worker_cluster.py:21-28 | the list and the single lookup agree, and every known worker's status is listed |
| `WorkerClusters.WorkerCluster.AssignTrainingTask` | src/mlops/cluster/worker_cluster.py:30-41 | A failed lookup, or no idle worker, requests no bridge and starts nothing. Otherwise it requests exactly one bridge for the chosen worker's connection, sends exactly one `start` with the task's input directory, and returns the worker's status. The worker records are unchanged. |
| `WorkerClusters.WorkerCluster.StartOn` | src/mlops/cluster/worker_cluster.py:36-39 | gets the worker's bridge and records one `start` on it |

## Left out

- Threads and blocking are left out: the condition variable and its timeout value, notifications, the reader-writer lock of the bridge cache, the `_clean` thread loop and `time.sleep`. One thread of control is modelled. The `_clean` thread is never started (src/mlops/cluster/worker_bridge.py:97).
- The re-check that `search_for_update` makes after taking a lock is left out. With one thread it always repeats the pre-lock test, so it never fires.
- `TxSpec.Acquire`: a wait on a key owned by another transaction is modelled as an immediate TimeoutError, since no other thread can release the key.
- gRPC and protobuf are left out: channel construction, and the `get_status`, `start` and `stop` calls. A bridge is an object with a finalizer flag and a count of channel closes. A `start` call is recorded in `WorkerCluster.starts`.
- Floats and clocks are left out: training progress and configuration, and the datetimes. `updated_at` is an integer.
- The unimplemented cluster methods are left out: `get_training_status`, `pause_training_task`, `check_in`, `report_status` and `report_training_status` (src/mlops/cluster/worker_cluster.py:43-56).
- Two pieces of the cluster code are not modelled. The broken import at training_status_storage.py:1 is left out. `WorkerRecord.current_task_id` is kept as a field, but no code maintains it and none of the model's properties relies on it.
- `WorkerClusters.WorkerCluster`: the storage is modelled as a MemoryWorkerStorage. `worker_cluster.py` (lines 2 and 13) types it as the `WorkerStorageBase` of `storages/interfaces.py`, which MemoryWorkerStorage implements (`memory_worker_storage.py` lines 2 and 6). WorkerStorage implements a different base of the same name, in `storages/worker_storage_base.py`, and has no `get_all`.
- `WorkerBridges.CachedRecord` is a datatype, so a hit replaces the map entry instead of assigning to a shared record object.
- `WorkerBridges.WorkerBridgeFactory.SweepTick` walks a snapshot of the keys instead of the live dict. The cache is a map, so dict order is not modelled. The tick's result does not depend on the order.
- `TxDict.EntryTable.Release` also walks a snapshot of the keys instead of the live dict.

## Findings

| source | as written | input that shows it | evidently intended | confidence | as-written member | corrected member |
|---|---|---|---|---|---|---|
| src/mlops/cluster/storages/common_storages/transactional_dict.py:202-207 | `__exit__` pops a deleted key from `_data` while iterating over `_data.items()`, so the next iteration raises RuntimeError and the locks after it stay held | commit of transaction 0 holding key 1 pending DELETED and key 2 pending 21 | walk a snapshot of the keys, remove key 1 and commit key 2 | high, not executed | `TxSpec.ExitAsWrittenExample` | `TxDict.EntryTable.Release` |
| src/mlops/cluster/worker_bridge.py:105 | `_clean` decrements `breath` on an immutable named tuple, which raises AttributeError, so no lease ever runs out | a cache with one entry at breath 1 | shorten the lease, then close and drop the entry | high, not executed | `WorkerBridges.SweepAsWrittenNeverEvicts` | `WorkerBridges.WorkerBridgeFactory.SweepTick` |
| src/mlops/cluster/worker_bridge.py:122 | on a cache hit `get_worker_bridge` assigns `breath` on an immutable named tuple, which raises AttributeError | a second request for the same connection | renew the lease and return the cached bridge | high, not executed | `WorkerBridges.TouchAsWrittenFailsOnHit` | `WorkerBridges.WorkerBridgeFactory.GetWorkerBridge` |
| src/mlops/cluster/storages/worker_storage.py:81 | `_Transaction.__init__` calls `transaction()` on the WorkerStorage again instead of on the wrapped store, so the calls recurse until RecursionError | any call of `WorkerStorage.transaction()` | open a transaction of the wrapped store | high, not executed | `WorkerStorages.TransactionAsWrittenFails` | `WorkerStorages.WorkerStorage.NewTransaction` |
