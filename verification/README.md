# A verified model of a small relational database

This project models the storage, transaction and query layers of a small DBMS in Dafny and
proves what they are for.

- **Pages and heaps.** A slotted page is one array of 8192 bytes: the header, the slot
  directory and the tuples are decoded from it, so that not overwriting a neighbour is part
  of every proof (`page_layout.dfy`, `slotted_page.dfy`). A chain of such pages stands for a
  map from RIDs to bytes (`heap_model.dfy`, `table_heap.dfy`), which a scan lists
  (`heap_scan.dfy`). What many threads do to the chain is a state machine over its latches
  (`chain_extension.dfy`), in which an insert that nobody disturbs does what the sequential
  one does (`solo_insert.dfy`).
- **Disk and buffer pool.** The database file is a sequence of bytes with an allocator kept
  in page 0 (`disk_manager.dfy`); the pool is a write-back cache in front of it
  (`pool_model.dfy`, `buffer_pool.dfy`) and keeps the promises of the page store that heaps
  are built on (`pooled_store.dfy`).
- **Transactions.** Row locks are a state machine with an invariant over every run
  (`lock_protocol.dfy`), from which conflict serializability follows (`schedules.dfy`,
  `serializability.dfy`) unless an upgrade that waits is raced (`lost_update.dfy`). Rolling back
  is a function on maps (`undo.dfy`). The classes that lock, log, commit and abort are proved
  against these (`transactions.dfy`), and so is any sequence of calls between begin and abort
  (`transaction_runs.dfy`, and `row_runs.dfy` for tables of rows).
- **Queries.** Names are bound to column positions (`binder.dfy`) or rejected with the first
  error there is (`binder_errors.dfy`), logical plans become physical ones (`plans.dfy`), and
  these become trees of operators (`operators.dfy`, `executor.dfy`) over three-valued
  expressions (`expressions.dfy`). What a query asks for is said without any plan, as a
  comprehension over the rows of its tables (`query_meaning.dfy`), and what is run answers
  that (`query_answers.dfy`).
- **Formats.** Rows and schemas as bytes (`tuple_codec.dfy`, `schema_codec.dfy`), and tables
  that keep rows in this form (`rows.dfy`).

Objects that the source updates in place are classes. Each method is proved against a
specification on values (a map, a chain, a stream of rows, a state of the lock protocol), and
the lemmas are about these values. An exception or assertion of the source is a result that
callers see, never an excluded input. A failed fetch or page creation is a nondeterministic
outcome; a ghost counter of failures lets a contract say what holds when there was none.

`dafny verify dfyconfig.toml` checks the whole project.

## Where the code does not do what it says

- **A rollback can fail** although the documentation promises undo: an enlarged slot
  directory can leave no room for a deleted tuple (`Undo.RollbackCanFail`, and
  `TableHeaps.RestoreFails` on the page's bytes). `Undo.RollbackRestores` gives the exact
  condition under which it succeeds.
- **What a rollback restores is not marked as changed**: restore_tuple leaves that out
  (src/table/table_heap.cpp:178-186), and so does an insert that compacts a page in vain
  (src/table/table_heap.cpp:56-62). Such a change outlives the eviction of its page if and only
  if the page was marked already (`PoolModel.UnmarkedChange`).
- **Two updates leave no undo record**: one whose new tuple is over the page limit, which
  deletes the old tuple before it throws, and one that moves the tuple to a RID somebody else
  has locked (`Transactions.Table.UpdateTuple`; `TransactionRuns.LoseMovedTuple` is a sequence
  of calls that ends so). `Transactions.LostMoveForgotten` and `Undo.RollbackForgets` say when
  a rollback forgets such a change.
- **Upgrades that wait break serializability**: the shared lock is given up before the wait.
  `LostUpdates.LostUpdate` is a run from the start to the end of two transactions whose
  accesses neither serial order explains. `Serializability.RunIsSerializable` covers every
  other run, finished or not: the order in which locks are released explains it if and only if
  it explains the reads that others overwrote before their readers ended, and there are none of
  these unless an upgrade waited (`Serializability.UnlockOrderFollowsConflicts`,
  `Serializability.RaceNeedsWaiting`).
- **A scan locks the RID under its cursor**, which is that of the row it returns exactly if
  that slot is live (`Transactions.TableScan.Next`).
- **A scan that cannot fetch the next page** has already unpinned the one it stands on, and
  unpins it again (`HeapScans.HeapScan.Close`); on the buffer pool it takes the pin of another
  client (`PooledStores.PassPage`).
- **The "freshly created page" exception** is called a bug in size accounting; with two
  threads it is reached without one (`ChainExtension.FreshPageCanBeFull`). It always takes
  another thread's insert that returns during the call
  (`ChainExtension.FreshPageFullNeedsAnother`).
- **A tuple of 65536 bytes or more** is turned away by an insert into a heap, but not by an
  update, which goes by the low 16 bits of its size and copies all of it
  (`PageLayout.SomeUpdatesOverrun`; `PageLayout.Overruns` is the exact condition, and updates
  are modelled wherever it does not hold).
- **Reopening a file of less than one page** forgets capacity and free list
  (`DiskFormat.ReopenRestores`).
- **The free list**: `README.md:27` of the repository says that a full list throws. The code
  drops the page with a warning, and the model follows the code.
- **VARBINARY limits** are checked in a branch that a VARBINARY column never enters
  (`TupleCodec.EncodeAccepts`). No row with a VARBINARY value over 65535 bytes is ever read
  back (`TupleCodec.LongBlobIsCut`).
- **A schema is cut or garbled** beyond 16 bits: of 65536 columns or more only the remainder is
  written (`SchemaCodec.ManyColumnsAreCut`), no such schema is ever read back
  (`SchemaCodec.SchemasReadAreShort`), and columns that start beyond 65535 bytes are read from
  the beginning (`SchemaCodec.OffsetsWrapAround`).
- **A schema with a CHAR(0) column** has rows that cannot be read back, the row of zeros for
  one (`TupleCodec.EmptyCharUnreadable`); one without reads back every row of less than 65536
  bytes (`TupleCodec.SchemaReadsBack`).
- **is_compacted** does not recognise the layout that compact produces
  (`PageLayout.CompactionIsNotRecognised`). The map of tuples comes out right whatever it
  answers, but the page, and so the RID, that an insert or a grown update ends on depends on
  it: a grown tuple can leave a page that has room for it (`PageLayout.RoomyPageLeft`;
  `PageLayout.GrownTupleMoves` says on which pages this can happen, and `PageLayout.KeepsRid`
  is the exact condition for staying).
- **Freeing a page twice** puts it on the free list twice
  (`DiskManagers.DiskManager.DeallocatePage`).
- **A page created without a free frame** uses up its id (`BufferPools.BufferPool.NewPage`).

## Model

| member | source | states |
|---|---|---|
| SlottedPages.SlottedPage.Init | src/table/slotted_page.cpp:20-24 | The page becomes well laid out and empty: no tuple, no slot, no next page, all space free. |
| SlottedPages.SlottedPage.InsertTuple | src/table/slotted_page.cpp:47-78 | Going by the low 16 bits of the size, succeeds exactly when the tuple fits between directory and free space (with a new slot if none is dead); then one slot that was not live holds exactly these bytes, in the preferred slot if that is dead, every other tuple and the link are untouched, and the layout holds; else no byte changes. |
| SlottedPages.SlottedPage.GetTuple | src/table/slotted_page.cpp:80-89 | The bytes of a live slot, nothing for a dead or missing one. |
| SlottedPages.SlottedPage.TryUpdateInPlace | src/table/slotted_page.cpp:91-108 | Succeeds exactly for a live slot whose tuple is at least as long as the low 16 bits of the new size; the slot then holds the new bytes and no other tuple, slot or header field changes. |
| SlottedPages.SlottedPage.DeleteTuple | src/table/slotted_page.cpp:110-119 | Removes one entry of the page map, if it is there; slot count, free space and link stay. |
| SlottedPages.SlottedPage.RestoreTuple | src/table/slotted_page.cpp:121-134 | Puts the bytes back under the same slot exactly when the slot exists, is dead and everything fits once compacted; false is an assertion of the source failing, with no tuple changed. |
| SlottedPages.SlottedPage.Compact | src/table/slotted_page.cpp:155-186 | Every live tuple, every dead slot, the slot count and the link are kept; free space begins at 8192 minus the sum of the live lengths, tuples packed downwards. |
| SlottedPages.SlottedPage.IsCompacted | src/table/slotted_page.cpp:136-152 | Answers whether live tuples lie end to end in ascending slot order up to the end of the page. |
| SlottedPages.SlottedPage.FindEmptySlot | src/table/slotted_page.cpp:31-39 | The first dead slot, or none if all are live. |
| SlottedPages.SlottedPage.SetNextPage | src/table/slotted_page.cpp:188-190 | Changes the link and nothing else. |
| SlottedPages.SlottedPage.NextOccupiedSlot | src/table/slotted_page.cpp:200-208 | The smallest live slot after the given one. |
| PageLayout.InsertWritten | src/table/slotted_page.cpp:69-77 | Writing one slot, the free offset and the bytes below it leaves all other tuples byte for byte and keeps directory and tuples apart: the layout invariant holds and the map gains one entry. |
| PageLayout.TuplePlaced | src/table/slotted_page.cpp:69-75 | Live tuples stay inside the page, disjoint, above the directory, with live lengths summing to at most 8192 minus the free offset. |
| PageLayout.TupleShrunk | src/table/slotted_page.cpp:99-105 | Overwriting a tuple in place with a shorter one touches no other tuple. |
| PageLayout.UpdateWritten | src/table/slotted_page.cpp:91-108 | The same on the encoded page: only one map entry changes. |
| PageLayout.TupleDropped | src/table/slotted_page.cpp:117-118 | Setting a slot offset to zero removes exactly that entry and keeps the layout. |
| PageLayout.PackWritten | src/table/slotted_page.cpp:178-185 | Rewriting header, directory and packed bytes gives a page with the same map and the largest free space. |
| PageLayout.CompactedTakes | src/table/slotted_page.cpp:155-186 | After compaction an insert succeeds exactly when header, directory (plus one slot if none is dead) and all tuples fit in the page. |
| PageLayout.CompactedAnswerIsRightWhen | src/table/slotted_page.cpp:140-151 | A "compacted" answer is right about reclaimable space if and only if slot 0 is the lowest tuple. |
| PageLayout.ReportsMeans | src/table/slotted_page.cpp:136-152 | A page is reported as compacted exactly if it has no slots, or its tuples lie one behind the other in slot order from the offset of slot 0 to the end of the page. |
| PageLayout.GrownTupleMoves | src/table/table_heap.cpp:139-153 | A grown tuple leaves a page that has room for it only if the page without it looks compacted and slot 0 is not its lowest tuple. |
| PageLayout.RoomyPageLeft | src/table/table_heap.cpp:139-153 | On the page that two inserts leave, growing the second tuple by 100 bytes moves it to another page although there are 884 bytes to spare. |
| PageLayout.SomeUpdatesOverrun | src/table/slotted_page.cpp:99-105 | An update to 65536 bytes or more whose low 16 bits are no longer than the tuple in place is copied past the end of its slot; one whose low 16 bits exceed a page is not. |
| PageLayout.CompactionIsNotRecognised | src/table/slotted_page.cpp:136-152 | Just after compaction of non-empty tuples the answer is "compacted" only for an empty directory or when slot 0 holds the only tuple. |
| HeapModel.RoomDecides | src/table/table_heap.cpp:47-60 | An insert visit places a tuple exactly if header, directory (with one more slot if none is free) and all tuples fit the page together, unless the page looks compacted and slot 0 is not its lowest tuple; it never places one that does not fit. |
| HeapModel.FirstFitIs | src/table/table_heap.cpp:41-103 | An insert ends on the first page of the chain that takes the tuple, and on a new page exactly if none does. |
| HeapModel.NextFitIs | src/table/table_heap.cpp:155-158 | A tuple that has to move ends on the first other page that takes it, and on a new one exactly if none does. |
| HeapModel.PageVisited | src/table/table_heap.cpp:47-60 | A visit to one page either adds one new RID with the tuple to the heap map or leaves the map as it is, compacting or not. |
| HeapModel.ChainExtended | src/table/table_heap.cpp:73-91 | Linking an initialised page behind the last one extends the chain by it and leaves the heap map and all other pages alone. |
| HeapModel.PageUpdated | src/table/table_heap.cpp:133-153 | An update on its own page rewrites one entry or removes it for want of room. |
| HeapModel.WalkVisited | src/table/table_heap.cpp:65-102 | While an insert walks the chain, the pages before it have no room and those after it are untouched; a page made by this insert takes any tuple. |
| TableHeaps.TableHeap.Create | src/table/table_heap.cpp:18-30 | A new heap is an empty map on a page that was not in use. |
| TableHeaps.TableHeap.InsertTuple | src/table/table_heap.cpp:34-106 | Adds one RID with exactly these bytes, the lowest free one of the first page that takes them; an oversize tuple, and only that, throws it away; the "freshly created page" exception never happens; without a failed fetch or page creation the insert succeeds. |
| TableHeaps.TableHeap.ExtendChain | src/table/table_heap.cpp:65-91 | The last page, compacted or not, gets an empty successor, or the creation fails; the heap map is unchanged in both cases. |
| TableHeaps.TableHeap.GetTuple | src/table/table_heap.cpp:108-124 | The bytes at the RID; an empty tuple reads back as absent. |
| TableHeaps.TableHeap.UpdateTuple | src/table/table_heap.cpp:126-159 | Replaces one entry under the same RID exactly if the tuple did not grow or its page takes it once the old one is out, is_compacted being asked about that page; else moves it to the lowest free RID of the first other page that takes it; a tuple over the page limit is taken out before the exception; all other entries are kept. |
| TableHeaps.TableHeap.DeleteTuple | src/table/table_heap.cpp:161-176 | Removes exactly the entry of the RID and reports whether it was there; no directory grows. |
| TableHeaps.TableHeap.RestoreTuple | src/table/table_heap.cpp:178-186 | Puts the entry back under its RID exactly when slot and space allow it. |
| TableHeaps.TableHeap.AllPages | src/table/table_heap.cpp:188-206 | The whole chain in order, or a strict prefix of it if a fetch failed. |
| TableHeaps.PlaceInFrame | src/table/table_heap.cpp:47-60 | Insert, compact if the heuristic allows, insert again: the tuple is placed exactly when the page takes it in that way. |
| TableHeaps.UpdateInFrame | src/table/table_heap.cpp:133-153 | In place, else delete, compact and re-insert under the same slot; evicted exactly if the tuple grew and there is no room left, counted as is_compacted says. |
| TableHeaps.PageStore.ReleaseUnmarked | src/table/table_heap.cpp:56-62 | What a visit that places nothing has written to a frame is kept or dropped as a whole. |
| TableHeaps.RestoreFails | src/table/slotted_page.cpp:121-134 | On a page of any bytes, initialised: a tuple of the largest size inserted and deleted, two of one byte inserted in its place and deleted again, and the restore of the first one fails. |
| HeapScans.ScanIsHeap | src/table/table_heap.cpp:226-259 | The full stream of a scan is the heap map: each live RID with its bytes exactly once, in chain order then slot order. |
| HeapScans.HeapScan.Next | src/table/table_heap.cpp:226-259 | Hands out the stream row by row; at its end it keeps returning nothing. |
| HeapScans.HeapScan.SkipDead | src/table/table_heap.cpp:231-237 | Moving over dead slots drops no row from what remains. |
| HeapScans.HeapScan.NextPage | src/table/table_heap.cpp:265-294 | Moving to the next page drops no row from what remains; at the last page nothing remains; a failed fetch costs the pin of the page left, and the cursor stays on it. |
| HeapScans.HeapScan.Close | src/table/table_heap.cpp:221-224 | At the end the scan has unpinned once too often for every failed page change, and not otherwise. |
| PooledStores.PassPage | src/table/table_heap.cpp:265-294 | On the buffer pool: a scan that goes on from one page to another and is closed leaves the pin counts as they were, exactly unless the other page is not cached and all frames are pinned; then one pin of another client is gone, and a page with no other pin can be evicted. |
| HeapScans.HeadUnderCursor | src/table/table_heap.cpp:228-243 | The next row is that of the RID under the cursor exactly if its slot is live. |
| ChainExtension.StepKeeps | src/table/table_heap.cpp:41-103 | Any step of any thread keeps the chain acyclic and complete, changes the heap map only as its insert or delete should, and never resets a link. |
| ChainExtension.LinkKeeps | src/table/table_heap.cpp:86-99 | Linking re-checks under the latch: either the thread's own page is appended, or the chain is as another thread left it. |
| ChainExtension.DiscardKeeps | src/table/table_heap.cpp:93-98 | A page whose link came too late is discarded without being in the chain or known to another thread. |
| ChainExtension.LinksSetOnce | src/table/table_heap.cpp:41-103 | Over any interleaving the chain only grows at its end, every next link is set at most once and no chain page is discarded. |
| ChainExtension.LiveRidNotReturnedTwice | src/table/table_heap.cpp:41-60 | Over any interleaving no RID is returned by two inserts unless it was deleted in between. |
| ChainExtension.LostRaceGoesOn | src/table/table_heap.cpp:86-99 | A thread that comes too late with its page drops it and goes on with the page linked in its place. |
| SoloInserts.AloneAsSequential | src/table/table_heap.cpp:34-106 | In any run, an insert that no other thread disturbs is over after at most three steps more than the chain has pages; the RID it returns is the one of the sequential insert, with the tuple under it; it discards no page; and it ends otherwise only for want of a frame or page, with no tuple changed. |
| ChainExtension.FreshPageCanBeFull | src/table/table_heap.cpp:65-70 | The "freshly created page" exception, unreachable with one thread, is reached by a run of two threads, given step by step. |
| ChainExtension.FreshPageFullNeedsAnother | src/table/table_heap.cpp:66-70 | In every run with tuples within the page limit: between the visit on which a thread decides to make a page and the one that throws this exception, an insert of another thread returns. |
| LockProtocol.StepKeepsInv | src/transaction/lock_manager.cpp:8-102 | Every step of the lock protocol keeps: at most one request per transaction and RID, exclusive grants exclude all others, lock sets and waits match the queues exactly. |
| LockProtocol.CallKeepsInv | src/transaction/lock_manager.cpp:8-62 | A lock call up to its wait keeps this, including an upgrade that gives up its shared lock first. |
| LockProtocol.WaitEndKeepsInv | src/transaction/lock_manager.cpp:21-30 | So do waking up with the lock and giving up after the timeout. |
| LockProtocol.UnlockKeepsInv | src/transaction/lock_manager.cpp:64-89 | So does releasing everything: no request of the transaction is left anywhere. |
| LockProtocol.ExclusiveExcludes | src/transaction/lock_manager.cpp:91-102 | In every reachable state an exclusive lock on a RID excludes every other transaction's lock on it. |
| LockProtocol.LockSetsAreGrants | src/transaction/lock_manager.cpp:28-30 | In every reachable state a transaction's lock sets are exactly its granted requests. |
| LockProtocol.NoLockAfterGrowing | src/transaction/lock_manager.cpp:11-12 | Once a transaction has left GROWING it takes no lock and never grows again. |
| LockProtocol.LocksLast | src/transaction/lock_manager.cpp:33-78 | An exclusive lock lasts until unlock_all, a shared one until that or its holder's own upgrade. |
| LockProtocol.WakesWhenFree | src/transaction/lock_manager.cpp:21-30 | In every reachable state a waiting transaction can take its lock exactly if no other one holds a lock against it: an exclusive one, or any if it wants an exclusive one; and it can time out exactly if one does. |
| LockProtocol.CallWaitsWhenHeld | src/transaction/lock_manager.cpp:8-62 | In every reachable state a lock call is refused at once exactly to a transaction that has stopped growing, and waits exactly if the transaction does not hold the lock and another one holds a lock against it. |
| Schedules.ConflictSerializable | src/table/table.cpp:38-95 | Any schedule whose conflicts all follow one order of the transactions has the effect, and shows every read the values, of running them one by one in that order. |
| Schedules.MoveToFront | src/table/table.cpp:38-95 | An access may be executed before a block of accesses it does not conflict with. |
| Serializability.ConflictSeparated | src/transaction/lock_manager.cpp:8-102 | In any run, between two conflicting accesses the first transaction released its locks, or a reader began an upgrade that had to wait. |
| Serializability.UnlockOrderFollowsConflicts | src/transaction/manager.cpp:21-41 | In any run all conflicts follow the order of the unlock_all steps, transactions still live coming last in any order, if and only if the reads that another transaction overwrote before their reader ended do. |
| Serializability.RaceNeedsWaiting | src/transaction/lock_manager.cpp:44-52 | A read is overwritten before its reader ends only after an upgrade of the reader had to wait. |
| Serializability.UnracedInOrder | src/transaction/lock_manager.cpp:44-52 | If nobody else writes a RID from the time its upgrade waits until the upgrading transaction ends, there are no such reads. |
| Serializability.RunIsSerializable | src/transaction/manager.cpp:21-41 | Any run in which these reads are in order, undo writes of aborts and live transactions included, equals the serial execution in that order, for every starting database. |
| Serializability.UpgradesRace | src/transaction/lock_manager.cpp:44-52 | From any consistent state with two readers of a RID that upgrade: the first loses its shared lock and waits, the second writes and ends, then the first overwrites what it never saw. |
| Serializability.LostUpdateFitsNoOrder | src/transaction/lock_manager.cpp:44-52 | No order of the transactions is followed by the conflicts of a read, a foreign write and an own write. |
| LostUpdates.LostUpdate | src/transaction/lock_manager.cpp:44-52 | A run of two transactions from the initial state to the end of both, with a read overwritten while the upgrade of its reader waits, whose accesses can be executed as they came but in neither serial order. |
| Undo.WriteUndone | src/transaction/undo.cpp:8-20 | Undoing one write's own records leads back to exactly the map before it. |
| Undo.RollbackRestores | src/transaction/transaction.cpp:5-9 | Rolling back any history gives exactly the starting map, and can be carried out if and only if, for each delete and update, its page as it was before fits with the directory it has by now. |
| Undo.RollbackFitsUnlessGrown | src/table/slotted_page.cpp:121-134 | Rollback always fits on pages whose directory did not grow. |
| Undo.RollbackCanFail | src/table/slotted_page.cpp:127-133 | A history whose rollback cannot be carried out: a full-size tuple deleted, two small ones inserted. |
| Undo.RollbackForgets | src/table/table.cpp:81-84 | A change no record was written for is rolled back exactly if the log names every RID that changed. |
| Undo.RestoreOnPage | src/table/slotted_page.cpp:121-134 | The condition on the map is the condition on the page's bytes. |
| Undo.HeapWellFormed | src/table/table_heap.cpp:34-159 | Every heap in memory satisfies what histories assume of their states. |
| Transactions.Transaction.Undo | src/transaction/transaction.cpp:5-9 | Undoes the log from the last record to the first; with all fetches succeeding it works exactly when the rollback fits, and the heap is then what the log leads back to. All its RIDs are still locked exclusively. |
| Transactions.UndoRecordOn | src/transaction/undo.cpp:11-20 | One record is undone exactly when it can be, with the effect of its inverse write. |
| Transactions.LockManager.CheckGrant | src/transaction/lock_manager.cpp:91-102 | True exactly if, of the granted requests of other transactions in the queue, none is exclusive, and there are none at all when the request is exclusive. |
| Transactions.LockManager.LockShared | src/transaction/lock_manager.cpp:8-31 | Uninterrupted, answers and does to lock table and transaction what LockNow says, which SharedRefused and LockNowLeaves determine. |
| Transactions.LockManager.LockExclusive | src/transaction/lock_manager.cpp:33-62 | The same for exclusive locks and upgrades. |
| Transactions.LockManager.UnlockAll | src/transaction/lock_manager.cpp:64-89 | Removes the transaction's requests from the queues of all RIDs it holds and empties its lock sets. |
| Transactions.LockNowIsSteps | src/transaction/lock_manager.cpp:8-62 | An uninterrupted lock call is one call step of the protocol, with a timeout step if it has to wait. |
| Transactions.LockedOrNot | src/transaction/lock_manager.cpp:8-62 | A granted call holds the lock in its mode; a refused one has left GROWING for good; no lock on another RID comes or goes, and exclusive locks are never lost. |
| Transactions.AbortIsSteps | src/transaction/manager.cpp:31-42 | An abort is a run of the lock protocol: every undo write is made under an exclusive lock, and unlock_all comes last. |
| Transactions.Table.GetTuple | src/table/table.cpp:38-47 | Reads only under a lock: nothing if it is refused, else what the heap holds. |
| Transactions.Table.InsertTuple | src/table/table.cpp:23-36 | One logged insert with its RID locked exclusively: the lowest free RID of the first page that takes the tuple. The lock table afterwards is that of the lock call on that RID; if the lock is refused the map is as before and nothing is logged. |
| Transactions.Table.DeleteTuple | src/table/table.cpp:49-64 | One logged delete under an exclusive lock, exactly when the lock is granted and a non-empty tuple is there; else nothing changes. |
| Transactions.Table.UpdateTuple | src/table/table.cpp:70-95 | One logged update with both RIDs locked, the lock table afterwards being that of these lock calls. The tuple changes without a record exactly over the page limit, or if it moved to a RID whose lock was refused; whether it moves is decided by the page it was on. |
| Transactions.SharedRefused | src/transaction/lock_manager.cpp:8-31 | An uninterrupted shared lock call is refused exactly to a transaction that has stopped growing, or that holds neither lock on a RID in whose queue another transaction has a granted exclusive request. |
| Transactions.ExclusiveRefused | src/transaction/lock_manager.cpp:33-56 | An uninterrupted exclusive lock call is refused exactly to a transaction that has stopped growing, or that does not hold the lock on a RID in whose queue another transaction has any granted request. |
| Transactions.LockNowLeaves | src/transaction/lock_manager.cpp:8-62 | Of an uninterrupted call: nothing changes for a transaction that has stopped growing or holds the lock; else it gets the lock, an upgrade for its shared one, or it is aborted with no request left on the RID. Requests of others and on other RIDs stay. |
| Transactions.MovedTupleLost | src/table/table.cpp:81-84 | For any tuple map and any move: a run after which the lock on the RID of the update is granted, the one on the RID the tuple moves to is refused, and a rollback of an empty log does not restore the tuple. |
| Transactions.LostMoveForgotten | src/table/table.cpp:81-84 | Such a move is forgotten by the rollback exactly if the log names both RIDs anyway. |
| Transactions.TableScan.Next | src/table/table.cpp:116-126 | Locks the RID under the cursor; under the lock the row returned is the next of the stream, its RID being the locked one exactly if the slot under the cursor is live; at the end of the stream, after a failed fetch, and without the lock there is none. |
| Transactions.TableScan.Drain | src/catalog/catalog.cpp:198 | Asking until there is no row ends; the rows are a prefix of the stream in order, and all of it if every lock is granted and every page can be had. |
| Transactions.ScanAll | src/table/table.cpp:112-126 | A whole scan of a table hands out the rows of ScanIsHeap: each live tuple once, in chain and slot order, and nothing else. |
| Transactions.TransactionManager.Begin | src/transaction/manager.cpp:11-19 | A growing transaction under an id never used before. |
| Transactions.TransactionManager.Commit | src/transaction/manager.cpp:21-30 | All locks go at once; the log and the heap stay. |
| Transactions.TransactionManager.Abort | src/transaction/manager.cpp:31-42 | Rolls back while all its RIDs are still locked, then releases everything; the heap is what the log leads back to exactly when the rollback fits. |
| TransactionRuns.RunOps | src/table/table.cpp:19-95 | Any calls of a transaction: the successes they report are, in order, a history of writes from the tuples before to those after, and the undo log is the one of this history; to a transaction that alone holds locks every read shows what its earlier writes have left. |
| TransactionRuns.RunAndAbort | src/transaction/manager.cpp:11-42 | Any calls on a table between begin and abort leave its tuples as they were, if all pages can be had and no update loses a tuple, exactly when, in the history of the writes that the calls report, each page that lost a tuple fits, as it was, with the directory it has at the end; alone, and with tuples within the page limit, no update loses one. |
| TransactionRuns.LoseMovedTuple | src/table/table.cpp:81-84 | On any two-page heap whose first page is too full for an update and whose second is empty: begin, begin, a read of the RID the tuple will move to, the update and the abort of its transaction end with the old tuple gone and the new one in place. |
| TransactionRuns.AloneLocks | src/transaction/lock_manager.cpp:91-102 | A transaction that alone holds locks is granted every lock at once, and stays alone. |
| Rows.RowTable.InsertTuple | src/table/table.cpp:19-36 | A row of another schema, or one that cannot be encoded, is rejected with heap, locks and log unchanged. Of any other, nothing failing: it is placed, as its encoding, exactly if that is within the page limit and the lock on its RID is granted, and else no tuple changes. The log grows by the delete record of a placed row and by nothing else; the locks are those of one exclusive call on its RID. |
| Rows.RowTable.UpdateTuple | src/table/table.cpp:66-95 | The schema is compared first; a row that cannot be encoded is rejected only once its RID is locked and found, with that lock kept. When any other row is placed, moved, lost or thrown away is stated for its encoding. The log grows by the undo records of an update that reports a RID and by nothing else; the locks are those of the call on the old RID and, if the row moved, of the one on the new. |
| Rows.RowTable.GetTuple | src/table/table.cpp:38-47 | The decoding of what the heap holds at the RID, and only under a granted shared lock, whose call is the one effect. |
| Rows.RejectedMeans | src/table/table.cpp:19-36 | A row is rejected exactly for another schema, or with the error of its first value that exceeds a limit. |
| RowRuns.RunRows | src/table/table.cpp:19-95 | Any calls of a transaction on a table of rows: the successes they report are, in order, a history of writes of the encodings, and the undo log is the one of this history; to a transaction that alone holds locks every read decodes what its earlier writes have left. |
| RowRuns.RunRowsAndAbort | src/transaction/manager.cpp:11-42 | Any inserts, updates, deletes and reads of rows between begin and abort leave the tuples as they were, under the condition of RunAndAbort on the writes that the calls report; rejected rows need no undoing. |
| Rows.RowComesBack | src/table/table.cpp:38-47 | A row within the page limit is read back from where it was put, CHAR values without trailing zeros, unless its schema has a CHAR(0) column. |
| DiskFormat.PageWritten | src/storage/disk_manager.cpp:94-107 | Writing a page changes what is read from that page and from no other; what was never written reads as zeros. |
| DiskFormat.ReopenRestores | src/storage/disk_manager.cpp:80-92 | Opening a file after a flush restores capacity and free list if and only if the file had a full page before the flush or there was nothing to restore. |
| DiskFormat.FlushKeepsPages | src/storage/disk_manager.cpp:80-92 | Header and list stay within page 0: no other page changes. |
| DiskManagers.DiskManager.Open | src/storage/disk_manager.cpp:23-45 | Finds exactly the metadata in the file, or rejects a wrong magic or version; a file without a full page becomes a new database. |
| DiskManagers.DiskManager.AllocatePage | src/storage/disk_manager.cpp:55-63 | Hands out a page that was not live and keeps the ids below the capacity partitioned into page 0, live, free and leaked, up to the wrap-around of 32-bit ids, which it states. |
| DiskManagers.DiskManager.DeallocatePage | src/storage/disk_manager.cpp:65-78 | A live page becomes free, or leaked when the list holds 1025; page 0 is refused; the partition of the ids is kept exactly unless a page that is not live is put on the list. |
| DiskManagers.DiskManager.FlushAll | src/storage/disk_manager.cpp:80-92 | The file becomes the one ReopenRestores speaks of. |
| DiskManagers.DiskManager.WritePage | src/storage/disk_manager.cpp:94-107 | Refused exactly for an unallocated page or a short buffer; else only this page changes. |
| DiskManagers.DiskManager.ReadPage | src/storage/disk_manager.cpp:109-127 | Reads the page, zeros beyond the end of the file, and no byte of the buffer behind it. |
| PoolModel.TableInjective | src/buffer/pool_manager.cpp:97-100 | No two cached pages share a frame. |
| PoolModel.NoFrame | src/buffer/pool_manager.cpp:124-141 | There is no frame to be had exactly when all frames of the pool are pinned. |
| PoolModel.PlaceOK | src/buffer/pool_manager.cpp:80-100 | Giving a page a frame keeps page table, frame ids, free list and frame count consistent. |
| PoolModel.PlaceSeen | src/buffer/pool_manager.cpp:87-100 | Eviction with write-back changes no page's visible bytes. |
| PoolModel.DropOK | src/buffer/pool_manager.cpp:43-50 | Dropping a page does too, and makes its frame free again. |
| PoolModel.UnmarkedChange | src/buffer/pool_manager.cpp:77-106 | A change to a cached page that is not marked dirty is seen after the page's eviction if and only if the frame was dirty before or the file had these bytes. |
| Replacers.Replacer.Record | src/buffer/replacer.cpp:9-14 | The page becomes the most recently used; the list enumerates the recorded pages in the order of their last use. |
| Replacers.Replacer.Remove | src/buffer/replacer.cpp:16-21 | The page leaves the list; the order of the others stays. |
| Replacers.Replacer.FindLru | src/buffer/replacer.cpp:23-34 | The unpinned cached page whose last fetch or creation is oldest, or none exactly if all are pinned. |
| BufferPools.BufferPool.FetchPage | src/buffer/pool_manager.cpp:25-71 | Null exactly when the page is not cached and every frame is pinned; else its visible bytes in a frame, pinned once more. No page's visible bytes change, a pinned page is never evicted and the victim is the least recently used. |
| BufferPools.BufferPool.NewPage | src/buffer/pool_manager.cpp:19-23 | A zeroed, pinned page under an id that was not live, the most recently used from now on; when there is no frame the id is used up all the same. |
| BufferPools.BufferPool.DeletePage | src/buffer/pool_manager.cpp:32-54 | Refused exactly for a pinned page; else the page is no longer cached nor live and no other page changes. |
| BufferPools.BufferPool.UsePinned | include/duck/buffer/pinned_page.hpp:9-16 | A pinned page handle, from fetch to unpin, is a plain read or write of one page: pins, other pages and pages owed by others are as before. |
| BufferPools.BufferPool.UnpinPage | src/buffer/pool_manager.cpp:108-122 | One pin less, dirty once marked dirty; no visible byte changes. |
| BufferPools.BufferPool.FlushAll | src/buffer/pool_manager.cpp:143-150 | Afterwards the file holds the visible bytes of every page nobody is changing; no visible byte changes. |
| BufferPools.BufferPool.SwapPage | src/buffer/pool_manager.cpp:77-106 | Eviction is invisible: every page keeps its visible bytes, and only the least recently used unpinned page leaves the pool. |
| BufferPools.BufferPool.FindNextFrame | src/buffer/pool_manager.cpp:124-141 | A free frame, else an unused one, else the frame of the least recently used unpinned page; none exactly if all are pinned. |
| PooledStores.PooledStore.FetchPage | src/buffer/pool_manager.cpp:25-30 | The pool is a page store: fetching pins a page of the map of pages in use and shows its bytes, or fails with nothing changed, exactly if the page is not cached and all frames are pinned. Pins held on other pages stay. |
| PooledStores.PooledStore.Release | include/duck/buffer/pinned_page.hpp:9-16 | Releasing a fetched page rewrites it in that map and gives back one pin; it cannot fail. |
| PooledStores.PooledStore.NewPage | src/buffer/pool_manager.cpp:19-23 | Creating a page adds a pinned page of zeros to that map under an id not in use, or fails, exactly if all frames are pinned, and uses up an id. |
| Plans.BlocksAreCross | src/execution/operator/join/nested_loop_join.cpp:23-71 | Joining block by block finds exactly the filtered cross product, each pair as often. |
| Plans.OptimizedAnswers | src/plan/optimizer/optimizer.cpp:22-62 | The physical plan's rows answer the logical plan under an order-free relational meaning, limits included. |
| JoinSteps.LeftLoaded | src/execution/operator/join/nested_loop_join.cpp:27-37 | Loading a left block and resetting the right side loses and repeats no pair; one more reset is counted for one block less to come. |
| JoinSteps.RightLoaded | src/execution/operator/join/nested_loop_join.cpp:39-42 | Loading a right block loses and repeats no pair. |
| JoinSteps.RightDone | src/execution/operator/join/nested_loop_join.cpp:44-49 | Dropping the left block when the right side is exhausted loses no pair. |
| JoinSteps.PairSeen | src/execution/operator/join/nested_loop_join.cpp:54-65 | Looking at one pair produces it next if and only if the predicate is TRUE for it. |
| JoinSteps.RowDone | src/execution/operator/join/nested_loop_join.cpp:67-70 | Going on to the next right row loses and repeats no pair. |
| JoinSteps.LeftDone | src/execution/operator/join/nested_loop_join.cpp:28-30 | When the left side is exhausted all rows are out and the right side was reset once per block of 24 left rows, rounded up. |
| Operators.Operator.Next | src/execution/operator/join/nested_loop_join.cpp:23-71 | Of any operator tree: the next row of its stream, then nothing, however often it is asked; an exhausted join has reset its right side ceil(left rows / 24) times. |
| Operators.Operator.NextJoined | src/execution/operator/join/nested_loop_join.cpp:23-71 | The block nested loop terminates and produces its stream row by row. |
| Operators.Operator.FetchBlock | src/execution/operator/join/nested_loop_join.cpp:73-86 | Up to 24 rows of the child, fewer only at its end. |
| Operators.Operator.NextFiltered | src/execution/operator/filter/filter.cpp:16-27 | Produces the child's rows whose predicate is TRUE; unknown and FALSE are skipped. |
| Operators.RowFiltered | src/execution/operator/filter/filter.cpp:17-25 | Reading one row of the child moves the filter's stream by one row or none. |
| Operators.Operator.Reset | src/execution/operator/join/nested_loop_join.cpp:14-21 | Of any operator tree, from any point: the full stream starts over. |
| Operators.Operator.Projection | src/execution/operator/projection/projection.cpp:26-38 | The stream is each row's chosen columns in order. |
| Operators.Operator.Limit | src/execution/operator/limit/limit.cpp:9-20 | The stream is the first rows of the child, at most the limit, although calls are counted past the child's end. |
| Operators.Operator.Scan | src/execution/operator/scan/seq_scan.cpp:9-25 | The stream is the table's rows. |
| Operators.Test | src/execution/operator/filter/filter.cpp:18-22 | A boolean predicate selects only when TRUE. |
| Executors.Build | src/execution/executor.cpp:24-62 | The operator tree built from any runnable plan has the plan's rows as its stream. |
| Expressions.NumbersCompare | src/expression/comparison.cpp:20-109 | All six comparisons of two integers yield TRUE or FALSE as the integer relation holds; of two booleans likewise, FALSE being less than TRUE. |
| Expressions.StringsCompare | src/expression/comparison.cpp:46-117 | Strings and byte strings compare by a proper prefix or the smaller code where they first differ, under all six operators. |
| Expressions.UnknownCompares | src/expression/comparison.cpp:20-119 | A comparison is unknown exactly if an operand is NULL or the types differ, and throws exactly if an operand throws. |
| Expressions.LogicTables | src/expression/logical.cpp:6-60 | The three-valued tables of AND, OR and NOT: when each is TRUE, FALSE or unknown, and exactly when each throws; two NULLs are unknown whatever their types. |
| Executors.RunQuery | src/query/query_engine.cpp:10-16 | Optimizing, building and draining any runnable plan yields its rows, which answer the logical plan. |
| Queries.Execute | src/query/query_engine.cpp:8-17 | A query is run exactly when it is bindable, else rejected with the first error there is. Its rows are an answer to the query itself: of the combinations of one row per table those for which every ON, over the tables up to its own, and WHERE are TRUE, as the values of the columns named, each as often as it comes up; under a limit, that many of them. |
| QueryAnswers.QueryAnswered | src/query/binder.cpp:18-76 | The rows of the plan of any bindable query answer the query. |
| QueryAnswers.TablesMean | src/query/binder.cpp:26-48 | The plan for FROM and any number of joins produces the matching combinations of rows, joined, each as often. |
| QueryAnswers.JoinMeans | src/query/binder.cpp:33-47 | Joining the matches of the tables before with the next table gives the matches of all of them. |
| QueryAnswers.CombinationsCounted | src/execution/operator/join/nested_loop_join.cpp:23-71 | A combination of rows is found as often as the product of how often its rows are in their tables. |
| QueryAnswers.ContextAt | src/query/binder.cpp:28-42 | Table k of a query goes by its alias if it has one, with the columns of the catalog. |
| QueryAnswers.ResolvedValue | src/query/binder.cpp:114-144 | The column at the resolved position of a joined record has the value that the reference denotes. |
| Binding.ResolveFinds | src/query/binder.cpp:114-144 | A reference is resolved exactly when it denotes one column of the one table it can mean, and then to that column's place in the joined record. |
| Binding.DenotesMeans | src/query/binder.cpp:114-144 | A reference denotes the first column of its name in the one table of its qualifier, or in the only table. |
| Binding.FirstIndexFinds | src/tuple/schema.cpp:20-28 | The first column of the name, or none exactly if no column has it. |
| Binding.ColumnIndex | src/tuple/schema.cpp:20-28 | The loop finds that column. |
| Binding.ResolveColumn | src/query/binder.cpp:114-144 | The loop over the tables computes the resolution ResolveFinds characterises, with the same error in every case. |
| Binding.ColumnAt | src/tuple/schema.cpp:146-157 | In the concatenated schema of any number of tables, a table's column is found at its offset plus its place, and the joined record holds that table's value there. |
| Binding.BoundMeansNamed | src/query/binder.cpp:79-112 | An expression can be bound exactly when every name denotes a column; on joined records it then has the value its names stand for, and its indices are in range. |
| Binder.Bind | src/query/binder.cpp:18-77 | Computes the plan or the first error that BindAccepts speaks of. |
| Binder.BindJoins | src/query/binder.cpp:26-48 | Each ON condition is bound against the tables up to its own, with offsets from the plan so far. |
| Binder.ResolveColumns | src/query/binder.cpp:61-65 | Each requested column is resolved in order; the first error is reported. |
| Binder.TablesBound | src/query/binder.cpp:33-48 | For any number of joins: binding succeeds exactly when all tables exist and all conditions denote; offsets are contiguous, and the plan's columns are the tables' columns side by side. |
| Binder.BindAccepts | src/query/binder.cpp:18-77 | A query is accepted exactly when it is bindable; all column indices of its plan are in range and its output columns are the ones asked for, by name and order. |
| BindErrors.ResolveErrs | src/query/binder.cpp:114-144 | Why a reference is rejected, in every case: among the tables it can mean, the first two decide. |
| BindErrors.ExpressionErrs | src/query/binder.cpp:78-112 | An expression fails exactly as its first leaf from the left that fails. |
| BindErrors.ErrorReported | src/query/binder.cpp:18-77 | A query is rejected exactly with the first error in the order FROM, each join's table and ON, WHERE, columns. |
| Binder.BoundRuns | src/query/binder.cpp:18-77 | An accepted plan over well-formed tables with boolean predicates runs without a column out of range. |
| NullBitmaps.SetNullMarks | src/tuple/tuple.cpp:230-235 | Marking a column NULL marks that column and no other. |
| Bytes.ToLEDigits | src/tuple/value.cpp:178-182 | Byte k of an encoded integer is its k-th digit to the base 256. |
| Schemas.IntegerBytes | src/tuple/value.cpp:176-223 | Integers are little-endian over the width of their type, negative ones in two's complement. |
| Schemas.PayloadRoundTrip | src/tuple/value.cpp:176-223 | Every value of every type is read back from its bytes, a CHAR without the zeros at its end. |
| Schemas.SignedRoundTrip | src/tuple/value.cpp:178-182 | Negative integers survive two's complement. |
| TupleCodec.Serialize | src/tuple/tuple.cpp:141-202 | Computes the encoding RoundTrip speaks of, or the first exception. |
| TupleCodec.NullBits | src/tuple/tuple.cpp:141-149 | Bit i % 8 of byte i / 8 of an encoded row says whether column i is NULL. |
| TupleCodec.TupleBytes | src/tuple/tuple.cpp:151-199 | The cells of an encoded row lie behind the bitmap without gaps: the value and zeros up to the size of a fixed column, or two bytes of length, low byte first, and the value. |
| TupleCodec.EncodeErrs | src/tuple/tuple.cpp:156-176 | A row that is not encoded fails as its first value that exceeds a limit. |
| TupleCodec.Deserialize | src/tuple/tuple.cpp:33-43 | Computes the decoding RoundTrip speaks of; none where the source would read out of bounds. |
| TupleCodec.ComputeOffsets | src/tuple/tuple.cpp:116-133 | The start of each column, cut to 16 bits. |
| TupleCodec.OffsetIsStart | src/tuple/tuple.cpp:116-133 | On encoded rows each column is found where its bytes were written, NULLs included. |
| TupleCodec.CellRoundTrip | src/tuple/tuple.cpp:45-114 | One column is read back from where it was written. |
| TupleCodec.RoundTrip | src/tuple/tuple.cpp:33-202 | Decoding an encoded row gives the row with CHAR values stripped of trailing zeros: the row itself if and only if no CHAR ends in a zero. |
| TupleCodec.SmallRepresentable | src/tuple/tuple.cpp:116-133 | Every encoded row below 65536 bytes meets the round trip's conditions, except for CHAR(0) columns. |
| TupleCodec.EmptyCharUnreadable | src/tuple/tuple.cpp:125-129 | In every schema with a CHAR(0) column the row of zeros is written in as many bytes as the schema needs at least, and read beyond them. |
| TupleCodec.SchemaReadsBack | src/tuple/tuple.cpp:116-133 | A schema reads back every row of less than 65536 bytes if and only if it has no CHAR(0) column, or no such rows. |
| TupleCodec.EncodeAccepts | src/tuple/tuple.cpp:141-202 | A row is encoded if and only if its CHAR and VARCHAR values keep to their limits; VARBINARY values are accepted under any limit. |
| TupleCodec.BlobsReadAreShort | src/tuple/tuple.cpp:54-58 | No bytes decode to a VARBINARY value of more than 65535 bytes. |
| TupleCodec.LongBlobIsCut | src/tuple/tuple.cpp:156-176 | A row with a VARBINARY value over 65535 bytes is encoded if its CHAR and VARCHAR values allow it, and never read back. |
| SchemaCodec.ColumnRoundTrip | src/tuple/column.cpp:11-61 | A column is read back with the number of bytes it took. |
| SchemaCodec.ColumnBytes | src/tuple/column.cpp:11-29 | The bytes of an encoded column: name length, name, type by rank, declared length. |
| SchemaCodec.SchemaRoundTrip | src/tuple/schema.cpp:58-99 | A schema is read back as it was written, as long as counts, names and offsets fit 16 bits. |
| SchemaCodec.ManyColumnsAreCut | src/tuple/schema.cpp:58-72 | Of a schema with any number of columns as many are read back as the low 16 bits of that number say: all of them if and only if there are fewer than 65536. |
| SchemaCodec.SchemasReadAreShort | src/tuple/schema.cpp:74-99 | No schema with 65536 columns or more, or with a name of 65536 bytes or more, is read back. |
| SchemaCodec.OffsetsWrapAround | src/tuple/schema.cpp:83-99 | After a first column of 65534 bytes the second one is read from the beginning and is not read back, unless it has the name found there. |
| SchemaCodec.Serialize | src/tuple/schema.cpp:58-72 | Writes the encoding SchemaRoundTrip speaks of. |
| SchemaCodec.Deserialize | src/tuple/schema.cpp:74-99 | Computes the decoding SchemaRoundTrip speaks of, or the first error. |

## Left out

- Transactions.LockManager.LockShared: models a call during which no other thread runs, so that a wait ends in the timeout; waking up with the lock is a step of LockProtocol.
- Transactions.LockManager.LockExclusive: likewise.
- Serializability.RunIsSerializable: leaves out inserts and moved updates, whose heap write comes before the lock, and table scans, which lock the cursor's RID and not the one returned (Transactions.TableScan.Next).
- ChainExtension.StepKeeps: a page's creation and its initialisation are one step, because nobody else knows the page; updating and restoring by other threads are not steps.
- TableHeaps.TableHeap.InsertTuple: like the other heap methods, works on a page store that hands out copies of page bytes and takes them back when the latch is released. PooledStores.PooledStore shows that the buffer pool keeps what the page store promises, pins included; there, as in the source, a page stays pinned from its fetch to its release, which cannot fail. A compaction that is not marked as changed is kept or dropped when its frame is given up; that the old bytes can come back later, at the eviction, is not modelled, nor are frames recycled between unpinning and linking.
- TableHeaps.TableHeap.UpdateTuple: leaves out the updates that write past the end of a tuple (PageLayout.Overruns), which are undefined behaviour of the source.
- TableHeaps.TableHeap.GetTuple: is for RIDs of pages of the heap's chain, as DeleteTuple and RestoreTuple are; given a RID of another table's page the source reads or writes that page.
- TableHeaps.TableHeap.DeleteTuple: likewise.
- TableHeaps.TableHeap.RestoreTuple: likewise.
- HeapScans.HeapScan.Next: says nothing of rows once a page change has failed, when the frame of the page under the cursor may hold another page.
- TransactionRuns.RunAndAbort: takes updates with tuples below 65536 bytes.
- RowRuns.RunRowsAndAbort: likewise, of encoded rows.
- Transactions.ScanAll: is a scan during which nobody writes, as HeapScans.HeapScan.Next is proved over an unchanging heap; it locks what Transactions.TableScan.Next locks.
- SoloInserts.AloneAsSequential: is about tuples within the page limit, which the source checks before it walks the chain.
- BufferPools.BufferPool.FetchPage: is one atomic step for a page that was handed out and not deleted, as DeletePage is, and pin counts are unbounded; threads interleaving between a miss and the swap are not modelled. Fetching an id that is not in use would cache it under a frame that a later allocation of the id overwrites.
- BufferPools.BufferPool.DeletePage: likewise.
- BufferPools.BufferPool.NewPage: requires a page id to be left; the pool's behaviour after the 32-bit ids have wrapped around is not modelled.
- BufferPools.BufferPool.UnpinPage: a client that unpins a page more often than it pinned it, or forgets the dirty mark, is outside the contract.
- DiskManagers.DiskManager.Open: requires a free list that lies within page 0; a foreign file with a longer one makes the source read out of bounds. File system errors, partial writes and the destructors' flush are not modelled.
- Replacers.Replacer.Remove: searches the list instead of following the stored iterator.
- Operators.Operator.Next: init, output schemas and ownership transfer are not modelled.
- Operators.Operator.Scan: takes the table's rows as a fixed list, as draining HeapScans.HeapScan over an unchanging heap yields them; the locks of the cursor are with Transactions.TableScan.
- QueryMeaning.Executable: is what Queries.Execute requires, and leaves out queries with a condition that is not boolean where it is evaluated, and tables whose rows lack columns.
- Executors.Build: requires, as RunQuery does, predicates that evaluate to a boolean or NULL on the rows they see, which the source asserts.
- Binder.Bind: looks tables up in a map from names to tables, without transactions.
- TupleCodec.Deserialize: returns nothing where the source reads out of bounds, which is undefined behaviour there.
- SchemaCodec.Deserialize: rejects an unknown type code; the source yields an enumerator without a name.
- Transactions.Transaction.Undo: is proved on the heap map; that the source does not mark the pages of restored tuples as changed, so that these can be lost when their pages are evicted, is in PoolModel.UnmarkedChange only. It covers one table: a transaction over several tables over one page store has disjoint pages, and Undo.RollbackRestores already speaks of one map over all RIDs.
- Slot reuse by another transaction between a delete and its rollback: rollback is proved for a transaction nobody else writes beside.
- Bytes.ToLEDigits: the source writes integers in the byte order of the machine, which the model takes to be little-endian.
- Floating-point values: expressions have none, and the codec treats them as bit patterns.
- Catalog bootstrapping, DROP TABLE, the database facade, printing, the SQL lexer and parser: they would only add easy members or are unfinished in the source.
