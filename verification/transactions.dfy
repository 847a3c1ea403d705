/** Transactions on one table: row locks, the undo log, commit and abort. */
module Transactions {
  import opened Bytes
  import opened Options
  import opened PageLayout
  import opened HeapModel
  import opened TableHeaps
  import opened HeapScans
  import opened LockProtocol
  import opened Undo

  class Transaction {
    const id: nat
    var phase: Phase
    var shared: set<RID>
    var exclusive: set<RID>
    var undo_log: seq<UndoRecord>

    constructor (id: nat)
      ensures this.id == id && Info() == TxInfo(Growing, {}, {}) && undo_log == []
    {
      this.id, phase, shared, exclusive, undo_log := id, Growing, {}, {}, [];
    }

    function Info(): TxInfo
      reads this
    {
      TxInfo(phase, shared, exclusive)
    }

    /** Every record is about a RID this transaction has locked exclusively. */
    ghost predicate Covered()
      reads this
    {
      forall i | 0 <= i < |undo_log| :: undo_log[i].rid in exclusive
    }

    /**
     * Undo the records from the last to the first, ignoring what the heap answers. `ok` is
     * false when a restore did not happen: its page could not be fetched, or an assertion of
     * the source stops the program there.
     */
    method Undo(heap: TableHeap) returns (ok: bool)
      requires heap.Valid() && LogInHeap(undo_log, heap.chain) && Covered()
      modifies heap.store
      ensures heap.Valid() && heap.store.failures >= old(heap.store.failures)
      ensures Kept(old(heap.store.pages), heap.store.pages, heap.chain, heap.chain)
      ensures Snapshot(heap).slots == old(Snapshot(heap).slots)
      ensures heap.store.failures == old(heap.store.failures) ==>
                && (ok <==> RollbackFits(old(Snapshot(heap).slots), old(heap.Map()), undo_log))
                && (ok ==> heap.Map() == Rollback(old(heap.Map()), undo_log))
    {
      hide ChainOf, HeapMap, Kept, SameDirectories, CanRestore, CanUndo, Rollback, RollbackFits;
      ghost var v0, chain := heap.store.pages, heap.chain;
      ghost var m0, slots := heap.Map(), Slots(v0, chain);
      var i := |undo_log|;
      ok := true;
      KeptItself(v0, chain);
      assert undo_log[..i] == undo_log;
      while i > 0
        invariant 0 <= i <= |undo_log| && heap.Valid() && Slots(heap.store.pages, chain) == slots
        invariant Kept(v0, heap.store.pages, chain, chain) && heap.store.failures >= old(heap.store.failures)
        invariant heap.store.failures == old(heap.store.failures) && ok ==>
                    && Rollback(heap.Map(), undo_log[..i]) == Rollback(m0, undo_log)
                    && (RollbackFits(slots, heap.Map(), undo_log[..i]) <==> RollbackFits(slots, m0, undo_log))
        invariant heap.store.failures == old(heap.store.failures) && !ok ==> !RollbackFits(slots, m0, undo_log)
      {
        i := i - 1;
        ghost var v, m := heap.store.pages, heap.Map();
        RollbackPrefix(slots, m, undo_log, i);
        var undone := UndoRecordOn(heap, undo_log[i]);
        ok := ok && undone;
        KeptTransitive(v0, v, heap.store.pages, chain, chain, chain);
      }
      RollbackDone(slots, heap.Map());
    }
  }

  /** A delete undoes an insert whether or not the tuple is still there. */
  method UndoRecordOn(heap: TableHeap, record: UndoRecord) returns (ok: bool)
    requires heap.Valid() && record.rid.page in heap.chain && (record.RestoreUndo? ==> |record.tuple| <= MAX_TUPLE)
    modifies heap.store
    ensures heap.Valid() && heap.store.failures >= old(heap.store.failures)
    ensures Kept(old(heap.store.pages), heap.store.pages, heap.chain, heap.chain)
    ensures Slots(heap.store.pages, heap.chain) == old(Slots(heap.store.pages, heap.chain))
    ensures heap.store.failures == old(heap.store.failures) ==>
              && (ok <==> CanUndo(old(Slots(heap.store.pages, heap.chain)), old(heap.Map()), record))
              && (ok ==> heap.Map() == UndoOne(old(heap.Map()), record))
  {
    hide ChainOf, HeapMap, Kept, SameDirectories, CanRestore;
    ghost var v, m := heap.store.pages, heap.Map();
    match record {
      case DeleteUndo(rid) =>
        var deleted := heap.DeleteTuple(rid);
        assert !deleted && heap.store.failures == old(heap.store.failures) ==> m - {rid} == m;
        ok := true;
      case RestoreUndo(rid, tuple) =>
        RestoreOnPage(v, heap.chain, rid, tuple);
        ok := heap.RestoreTuple(rid, tuple);
    }
    SameSlots(v, heap.store.pages, heap.chain);
  }

  lemma RollbackPrefix(slots: map<nat, nat>, m: TupleMap, log: seq<UndoRecord>, i: nat)
    requires i < |log|
    ensures Rollback(m, log[..i + 1]) == Rollback(UndoOne(m, log[i]), log[..i])
    ensures RollbackFits(slots, m, log[..i + 1])
       <==> CanUndo(slots, m, log[i]) && RollbackFits(slots, UndoOne(m, log[i]), log[..i])
  {
    assert log[..i + 1] == log[..i] + [log[i]];
    RollbackStep(slots, m, log[..i], log[i]);
  }

  lemma RollbackDone(slots: map<nat, nat>, m: TupleMap)
    ensures Rollback(m, []) == m && RollbackFits(slots, m, [])
  {
  }

  lemma SameSlots(v: View, v': View, chain: seq<nat>)
    requires ChainOf(v, chain) && ChainOf(v', chain) && SameDirectories(v, v', chain)
    ensures Slots(v', chain) == Slots(v, chain)
  {
    hide Layout;
  }

  lemma SlotsGrow(v: View, v': View, chain: seq<nat>, chain': seq<nat>)
    requires ChainOf(v, chain) && ChainOf(v', chain') && Kept(v, v', chain, chain')
    ensures Grown(Slots(v, chain), Slots(v', chain'))
  {
    hide Layout;
  }

  /** Every record is about a page of the heap, and what it restores was a tuple of one. */
  ghost predicate LogInHeap(log: seq<UndoRecord>, chain: seq<nat>) {
    forall i | 0 <= i < |log| :: log[i].rid.page in chain && (log[i].RestoreUndo? ==> |log[i].tuple| <= MAX_TUPLE)
  }

  /** The abstract value of a heap. */
  ghost function Snapshot(heap: TableHeap): Store
    requires heap.Valid()
    reads heap, heap.store
  {
    StoreOf(heap.store.pages, heap.chain)
  }

  // ---- the lock manager ----

  /** A lock call that nothing interrupts: if it would have to wait, it waits in vain until the timeout. */
  function LockNow(table: LockTable, info: TxInfo, tx: nat, rid: RID, mode: Mode): (o: Outcome)
    ensures !o.reply.MustWait?
  {
    var o := Lock(table, info, tx, rid, mode);
    if o.reply.MustWait? then GiveUp(o.table, o.info, tx, rid) else o
  }

  class LockManager {
    var table: LockTable

    constructor ()
      ensures table == map[]
    {
      table := map[];
    }

    /** No granted request of another transaction stands against this one. */
    static method CheckGrant(q: Queue, tx: nat, mode: Mode) returns (ok: bool)
      ensures ok == CanGrant(q, tx, mode)
      ensures ok <==> forall r | r in q :: r.granted && r.tx != tx ==> mode.Shared? && r.mode.Shared?
    {
      GrantsByOthers(q, tx, mode);
      for i := 0 to |q|
        invariant forall j :: 0 <= j < i && q[j].granted && q[j].tx != tx ==> mode.Shared? && q[j].mode.Shared?
      {
        if q[i].granted && q[i].tx != tx {
          if mode.Exclusive? {
            return false;
          }
          if q[i].mode.Exclusive? {
            return false;
          }
        }
      }
      ok := true;
    }

    static method EraseRequests(q: Queue, tx: nat) returns (r: Queue)
      ensures r == Without(q, tx)
    {
      r := [];
      for i := 0 to |q|
        invariant r == Without(q[..i], tx)
      {
        assert q[..i + 1][..i] == q[..i];
        if q[i].tx != tx {
          r := r + [q[i]];
        }
      }
      assert q[..|q|] == q;
    }

    /** Append a request; grant it if that is possible at once. */
    method Enqueue(tx: Transaction, rid: RID, mode: Mode) returns (reply: Reply)
      modifies this, tx`shared, tx`exclusive
      ensures Outcome(table, tx.Info(), reply) == Ask(old(table), old(tx.Info()), tx.id, rid, mode)
    {
      table := table[rid := QueueOf(table, rid) + [Request(tx.id, mode, false)]];
      var free := CheckGrant(table[rid], tx.id, mode);
      if !free {
        return MustWait;
      }
      MarkGranted(tx, rid, mode);
      reply := Granted;
    }

    method MarkGranted(tx: Transaction, rid: RID, mode: Mode)
      modifies this, tx`shared, tx`exclusive
      ensures Outcome(table, tx.Info(), Granted) == Grant(old(table), old(tx.Info()), tx.id, rid, mode)
    {
      table := table[rid := Mark(QueueOf(table, rid), tx.id)];
      if mode.Shared? {
        tx.shared := tx.shared + {rid};
      } else {
        tx.exclusive := tx.exclusive + {rid};
      }
    }

    /** The wait ends after the timeout without the lock. */
    method TimeOut(tx: Transaction, rid: RID)
      modifies this, tx`phase
      ensures Outcome(table, tx.Info(), Refused) == GiveUp(old(table), old(tx.Info()), tx.id, rid)
    {
      var q := EraseRequests(QueueOf(table, rid), tx.id);
      table := table[rid := q];
      tx.phase := Aborted;
    }

    method LockShared(tx: Transaction, rid: RID) returns (ok: bool)
      modifies this, tx`phase, tx`shared, tx`exclusive
      ensures Outcome(table, tx.Info(), if ok then Granted else Refused)
                == LockNow(old(table), old(tx.Info()), tx.id, rid, Shared)
    {
      if tx.phase != Growing {
        return false;
      }
      if rid in tx.shared || rid in tx.exclusive {
        return true;
      }
      ok := EnqueueAndWait(tx, rid, Shared);
    }

    method LockExclusive(tx: Transaction, rid: RID) returns (ok: bool)
      modifies this, tx`phase, tx`shared, tx`exclusive
      ensures Outcome(table, tx.Info(), if ok then Granted else Refused)
                == LockNow(old(table), old(tx.Info()), tx.id, rid, Exclusive)
    {
      if tx.phase != Growing {
        return false;
      }
      if rid in tx.exclusive {
        return true;
      }
      if rid in tx.shared {
        var q := EraseRequests(QueueOf(table, rid), tx.id);
        table := table[rid := q];
        tx.shared := tx.shared - {rid};
      }
      ok := EnqueueAndWait(tx, rid, Exclusive);
    }

    method EnqueueAndWait(tx: Transaction, rid: RID, mode: Mode) returns (ok: bool)
      modifies this, tx`phase, tx`shared, tx`exclusive
      ensures var o := Ask(old(table), old(tx.Info()), tx.id, rid, mode);
              Outcome(table, tx.Info(), if ok then Granted else Refused)
              == if o.reply.MustWait? then GiveUp(o.table, o.info, tx.id, rid) else o
    {
      var reply := Enqueue(tx, rid, mode);
      if reply.MustWait? {
        TimeOut(tx, rid);
        return false;
      }
      ok := true;
    }

    /** Drop the requests on every RID the transaction holds, and forget its locks. */
    method UnlockAll(tx: Transaction)
      modifies this, tx`shared, tx`exclusive
      ensures table == Release(old(table), old(tx.Info()), tx.id)
      ensures tx.shared == {} && tx.exclusive == {}
    {
      hide Cleared, Release;
      ClearedIsReleased(table, tx.Info(), tx.id);
      RemoveRequests(tx.exclusive, tx.id);
      RemoveRequests(tx.shared, tx.id);
      tx.exclusive, tx.shared := {}, {};
    }

    method RemoveRequests(rids: set<RID>, tx: nat)
      modifies this
      ensures table == Cleared(old(table), rids, tx)
    {
      var todo := rids;
      while todo != {}
        invariant todo <= rids
        invariant table == Cleared(old(table), rids - todo, tx)
      {
        var rid :| rid in todo;
        if rid in table {
          var q := EraseRequests(table[rid], tx);
          table := table[rid := q];
        }
        todo := todo - {rid};
      }
    }
  }

  /** The lock table without the requests of `tx` on the given RIDs. */
  function Cleared(table: LockTable, rids: set<RID>, tx: nat): LockTable {
    map rid | rid in table :: if rid in rids then Without(table[rid], tx) else table[rid]
  }

  lemma ClearedIsReleased(table: LockTable, info: TxInfo, tx: nat)
    ensures Cleared(Cleared(table, info.exclusive, tx), info.shared, tx) == Release(table, info, tx)
  {
    forall rid | rid in table ensures Without(Without(table[rid], tx), tx) == Without(table[rid], tx) {
      WithoutNone(Without(table[rid], tx), tx);
    }
  }

  /** An uninterrupted lock call is one or two steps of the lock protocol. */
  lemma LockNowIsSteps(s: State, tx: nat, rid: RID, mode: Mode) returns (s1: State)
    requires Running(s, tx)
    ensures s1 == Next(s, Call(tx, rid, mode)) && (Waiting(s1, tx) ==> Enabled(s1, LockProtocol.TimeOut(tx)))
    ensures (if Waiting(s1, tx) then Next(s1, LockProtocol.TimeOut(tx)) else s1)
         == Become(s, tx, LockNow(s.table, s.txs[tx], tx, rid, mode), Idle)
  {
    hide CanGrant, Without, Mark;
    s1 := Next(s, Call(tx, rid, mode));
  }

  /** Rolling back is a run of the protocol: the phase change, one write per record, unlock_all. */
  lemma AbortIsSteps(s: State, tx: nat, log: seq<UndoRecord>)
    requires Running(s, tx) && forall i | 0 <= i < |log| :: log[i].rid in s.txs[tx].exclusive
    ensures Enabled(s, EnterShrinking(tx))
    ensures var s1 := Next(s, EnterShrinking(tx));
            && (forall i | 0 <= i < |log| :: Enabled(s1, UndoStep(tx, log[i])) && Next(s1, UndoStep(tx, log[i])) == s1)
            && Enabled(s1, LockProtocol.UnlockAll(tx))
            && Next(s1, LockProtocol.UnlockAll(tx)).table == Release(s.table, s.txs[tx], tx)
  {
    hide Without;
  }

  /** Undoing a record writes its RID. */
  function UndoStep(tx: nat, record: UndoRecord): Step {
    Use(tx, record.rid, true, if record.RestoreUndo? then Some(record.tuple) else None)
  }

  // ---- tables ----

  class Table {
    const heap: TableHeap
    const locks: LockManager

    constructor (heap: TableHeap, locks: LockManager)
      ensures this.heap == heap && this.locks == locks
    {
      this.heap, this.locks := heap, locks;
    }

    /** `tx` may be null: then nothing is locked or logged. */
    ghost predicate Valid(tx: Transaction?)
      reads heap, heap.store, tx
    {
      heap.Valid() && (tx != null ==> LogInHeap(tx.undo_log, heap.chain) && tx.Covered())
    }

    method Acquire(tx: Transaction?, rid: RID, mode: Mode) returns (ok: bool)
      modifies locks, tx
      ensures tx == null ==> ok && locks.table == old(locks.table)
      ensures tx != null ==>
                && tx.undo_log == old(tx.undo_log)
                && Outcome(locks.table, tx.Info(), if ok then Granted else Refused)
                   == LockNow(old(locks.table), old(tx.Info()), tx.id, rid, mode)
    {
      if tx == null {
        return true;
      }
      if mode.Shared? {
        ok := locks.LockShared(tx, rid);
      } else {
        ok := locks.LockExclusive(tx, rid);
      }
    }

    method GetTuple(rid: RID, tx: Transaction?) returns (r: Option<seq<byte>>)
      requires Valid(tx) && rid.page in heap.chain
      modifies heap.store`failures, locks, tx
      ensures Valid(tx) && heap.store.failures >= old(heap.store.failures)
      ensures tx != null ==>
                && tx.undo_log == old(tx.undo_log)
                && var o := LockNow(old(locks.table), old(tx.Info()), tx.id, rid, Shared);
                   && locks.table == o.table && tx.Info() == o.info
                   && (r.Some? ==> o.reply.Granted? && MayUse(tx.Info(), rid, false))
                   && (o.reply.Granted? && heap.store.failures == old(heap.store.failures) ==>
                       r == Found(heap.Map(), rid))
      ensures tx == null ==> locks.table == old(locks.table)
      ensures tx == null && heap.store.failures == old(heap.store.failures) ==> r == Found(heap.Map(), rid)
      ensures r.Some? ==> r == Found(heap.Map(), rid)
    {
      hide ChainOf, HeapMap, LockNow;
      var ok := Acquire(tx, rid, Shared);
      if tx != null {
        LockedOrNot(old(locks.table), old(tx.Info()), tx.id, rid, Shared);
      }
      if !ok {
        return None;
      }
      r := heap.GetTuple(rid);
    }

    /**
     * The heap is written before the RID is locked; if the lock is refused the tuple is deleted
     * again. `to` is where the heap put the tuple.
     */
    method InsertTuple(tuple: seq<byte>, tx: Transaction?) returns (r: HeapResult, ghost to: Option<RID>)
      requires Valid(tx)
      modifies heap.store, heap`chain, locks, tx
      ensures Valid(tx) && heap.store.failures >= old(heap.store.failures)
      ensures Kept(old(heap.store.pages), heap.store.pages, old(heap.chain), heap.chain)
      ensures r.Placed? ==> to == Some(r.rid) && IsWrite(old(Snapshot(heap)), Insert(r.rid, tuple), Snapshot(heap))
      ensures tx != null ==>
                && old(tx.exclusive) <= tx.exclusive
                && tx.undo_log == old(tx.undo_log) + (if r.Placed? then [DeleteUndo(r.rid)] else [])
                && (r.Placed? ==> r.rid in tx.exclusive)
                && var o := LockMaybe(old(locks.table), old(tx.Info()), tx.id, to);
                   locks.table == o.table && tx.Info() == o.info && (to.Some? ==> (r.Placed? <==> o.reply.Granted?))
      ensures tx == null ==> (r.Placed? <==> to.Some?) && locks.table == old(locks.table)
      ensures !r.Placed? ==>
                heap.Map() == old(heap.Map()) || (to.Some? && heap.Map() == old(heap.Map())[to.value := tuple])
      ensures to.Some? && !r.Placed? ==> r == Nothing
      ensures to.Some? ==>
                && LowestFree(old(heap.Map()), to.value)
                && FirstFit(old(heap.store.pages), old(heap.chain), heap.chain, to.value.page, |tuple|)
      ensures heap.store.failures == old(heap.store.failures) ==>
                && (r == Threw(TupleTooLarge) <==> |tuple| > MAX_TUPLE) && (to.None? <==> |tuple| > MAX_TUPLE)
                && (!r.Placed? ==> heap.Map() == old(heap.Map()))
    {
      hide ChainOf, HeapMap, LockNow, Kept, FirstFit, WellFormed, Grown, SameDirectories, StoreOf;
      ghost var v, chain, m := heap.store.pages, heap.chain, heap.Map();
      to := None;
      r := heap.InsertTuple(tuple);
      if tx != null {
        LogStaysInHeap(tx.undo_log, v, heap.store.pages, chain, heap.chain);
      }
      if !r.Placed? {
        return;
      }
      to := Some(r.rid);
      ghost var v1, m1 := heap.store.pages, heap.Map();
      WriteDone(v, chain, v1, heap.chain, Insert(r.rid, tuple));
      PlacedInChain(v1, heap.chain, r.rid);
      var ok := Acquire(tx, r.rid, Exclusive);
      if tx != null {
        LockedOrNot(old(locks.table), old(tx.Info()), tx.id, r.rid, Exclusive);
      }
      if !ok {
        var _ := heap.DeleteTuple(r.rid);
        assert m1 - {r.rid} == m;
        KeptTransitive(v, v1, heap.store.pages, chain, heap.chain, heap.chain);
        return Nothing, to;
      }
      if tx != null {
        tx.undo_log := tx.undo_log + [DeleteUndo(r.rid)];
      }
    }

    method DeleteTuple(rid: RID, tx: Transaction?) returns (ok: bool)
      requires Valid(tx) && rid.page in heap.chain
      modifies heap.store, locks, tx
      ensures Valid(tx) && heap.store.failures >= old(heap.store.failures)
      ensures Kept(old(heap.store.pages), heap.store.pages, heap.chain, heap.chain)
      ensures ok ==> IsWrite(old(Snapshot(heap)), Delete(rid), Snapshot(heap))
      ensures !ok ==> heap.Map() == old(heap.Map())
      ensures tx != null ==>
                && old(tx.exclusive) <= tx.exclusive
                && tx.undo_log == old(tx.undo_log) + (if ok then Records(old(heap.Map()), Delete(rid)) else [])
                && (ok ==> rid in tx.exclusive)
                && var o := LockNow(old(locks.table), old(tx.Info()), tx.id, rid, Exclusive);
                   && locks.table == o.table && tx.Info() == o.info
                   && (heap.store.failures == old(heap.store.failures) ==>
                         (ok <==> o.reply.Granted? && Found(old(heap.Map()), rid).Some?))
      ensures tx == null ==> locks.table == old(locks.table)
      ensures tx == null && heap.store.failures == old(heap.store.failures) ==>
                (ok <==> Found(old(heap.Map()), rid).Some?)
    {
      hide ChainOf, HeapMap, LockNow, Kept, WellFormed, Grown, SameDirectories, StoreOf;
      ghost var v, chain := heap.store.pages, heap.chain;
      KeptItself(v, chain);
      var granted := Acquire(tx, rid, Exclusive);
      if tx != null {
        LockedOrNot(old(locks.table), old(tx.Info()), tx.id, rid, Exclusive);
      }
      if !granted {
        return false;
      }
      var bytes := heap.GetTuple(rid);
      if bytes.None? {
        return false;
      }
      PlacedInChain(v, chain, rid);
      ok := heap.DeleteTuple(rid);
      if !ok {
        return false;
      }
      WriteDone(v, chain, heap.store.pages, chain, Delete(rid));
      if tx != null {
        tx.undo_log := tx.undo_log + [RestoreUndo(rid, bytes.value)];
      }
    }

    /**
     * A tuple too large for any page is taken out without an undo record, and so is a tuple
     * moved to a RID that somebody else has locked. `to` is where the tuple is now, if it is.
     */
    method UpdateTuple(rid: RID, tuple: seq<byte>, tx: Transaction?) returns (r: HeapResult, ghost to: RID)
      requires Valid(tx) && rid.page in heap.chain && !Overruns(heap.store.pages[rid.page], rid.slot, |tuple|)
      modifies heap.store, heap`chain, locks, tx
      ensures Valid(tx) && heap.store.failures >= old(heap.store.failures)
      ensures Kept(old(heap.store.pages), heap.store.pages, old(heap.chain), heap.chain)
      ensures r.Placed? ==> r.rid == to
      ensures r.Placed? || to != rid ==> IsWrite(old(Snapshot(heap)), Update(rid, to, tuple), Snapshot(heap))
      ensures to != rid ==>
                && LowestFree(old(heap.Map()), to)
                && NextFit(old(heap.store.pages), old(heap.chain), heap.chain, rid.page, to.page, |tuple|)
      ensures tx != null ==>
                && old(tx.exclusive) <= tx.exclusive
                && (r.Placed? ==> rid in tx.exclusive && to in tx.exclusive)
                && tx.undo_log == old(tx.undo_log) + (if r.Placed? then Records(old(heap.Map()), Update(rid, to, tuple))
                    else [])
                && var o := LockBoth(old(locks.table), old(tx.Info()), tx.id, rid, to);
                   && locks.table == o.table && tx.Info() == o.info
                   && (r.Placed? ==> o.reply.Granted?) && (to != rid && !r.Placed? ==> o.reply.Refused? && r == Nothing)
      ensures tx == null ==> (to != rid ==> r.Placed?) && locks.table == old(locks.table)
      ensures !r.Placed? && to == rid ==>
                heap.Map() == old(heap.Map()) || (rid in old(heap.Map()) && heap.Map() == old(heap.Map()) - {rid})
      ensures heap.store.failures == old(heap.store.failures) ==>
                if (tx == null || LockNow(old(locks.table), old(tx.Info()), tx.id, rid, Exclusive).reply.Granted?)
                   && Found(old(heap.Map()), rid).Some?
                then
                  if |tuple| > MAX_TUPLE
                  then r == Threw(TupleTooLarge) && heap.Map() == old(heap.Map()) - {rid} && to == rid
                  else
                    (to == rid <==> KeepsRid(old(heap.store.pages[rid.page]), rid.slot, |tuple|))
                    && (to == rid ==> r.Placed?)
                else r == Nothing && heap.Map() == old(heap.Map()) && to == rid
    {
      hide ChainOf, HeapMap, LockNow, Kept, WellFormed, Grown, SameDirectories, StoreOf, KeepsRid, Overruns, CanWrite,
           Written, NextFit, LowestFree, Layout, Tuples, IsWrite;
      ghost var v, chain := heap.store.pages, heap.chain;
      to := rid;
      KeptItself(v, chain);
      var granted := Acquire(tx, rid, Exclusive);
      if tx != null {
        LockedOrNot(old(locks.table), old(tx.Info()), tx.id, rid, Exclusive);
      }
      if !granted {
        return Nothing, rid;
      }
      var bytes := heap.GetTuple(rid);
      if bytes.None? {
        return Nothing, rid;
      }
      PlacedInChain(v, chain, rid);
      r := heap.UpdateTuple(rid, tuple);
      if tx != null {
        LogStaysInHeap(tx.undo_log, v, heap.store.pages, chain, heap.chain);
      }
      if !r.Placed? {
        return;
      }
      to := r.rid;
      MovedInChain(v, chain, heap.store.pages, heap.chain, rid, to, tuple);
      WriteDone(v, chain, heap.store.pages, heap.chain, Update(rid, to, tuple));
      if r.rid != rid && tx != null {
        var moved := AcquireMoved(tx, rid, r.rid, old(locks.table), old(tx.Info()));
        if !moved {
          return Nothing, to;
        }
      }
      if tx != null {
        tx.undo_log := tx.undo_log + [RestoreUndo(rid, bytes.value)] + [DeleteUndo(r.rid)];
      }
    }

    /** The second lock of an update that moved the tuple. */
    method AcquireMoved(tx: Transaction, rid: RID, to: RID, ghost table0: LockTable, ghost info0: TxInfo)
        returns (ok: bool)
      requires var o := LockNow(table0, info0, tx.id, rid, Exclusive); o.table == locks.table && o.info == tx.Info()
      requires to != rid && LockNow(table0, info0, tx.id, rid, Exclusive).reply.Granted?
      modifies locks, tx
      ensures tx.undo_log == old(tx.undo_log) && old(tx.exclusive) <= tx.exclusive && (ok ==> to in tx.exclusive)
      ensures Outcome(locks.table, tx.Info(), if ok then Granted else Refused)
                == LockBoth(table0, info0, tx.id, rid, to)
    {
      hide LockNow;
      ok := Acquire(tx, to, Exclusive);
      LockedOrNot(old(locks.table), old(tx.Info()), tx.id, to, Exclusive);
    }
  }

  /** What an insert does to the locks: nothing if the heap had no place for the tuple. */
  function LockMaybe(table: LockTable, info: TxInfo, tx: nat, to: Option<RID>): Outcome {
    match to
    case None => Outcome(table, info, Granted)
    case Some(rid) => LockNow(table, info, tx, rid, Exclusive)
  }

  /** The locks an update asks for: its RID first, then the one the tuple went to, if that is another. */
  function LockBoth(table: LockTable, info: TxInfo, tx: nat, rid: RID, to: RID): Outcome {
    var o := LockNow(table, info, tx, rid, Exclusive);
    if to != rid && o.reply.Granted? then LockNow(o.table, o.info, tx, to, Exclusive) else o
  }

  /**
   * A shared lock is refused exactly to a transaction that has stopped growing, or that holds
   * neither lock on a RID where another one has been granted an exclusive lock.
   */
  lemma SharedRefused(table: LockTable, info: TxInfo, tx: nat, rid: RID)
    ensures LockNow(table, info, tx, rid, Shared).reply.Refused? <==>
              || !info.phase.Growing?
              || (rid !in info.shared && rid !in info.exclusive
                  && exists r | r in QueueOf(table, rid) :: r.granted && r.tx != tx && r.mode.Exclusive?)
  {
    var q := QueueOf(table, rid);
    OthersDecide(q, q + [Request(tx, Shared, false)], tx, Shared);
    GrantsByOthers(q, tx, Shared);
    hide CanGrant, Mark, Without, QueueOf;
  }

  /**
   * An exclusive lock is refused exactly to a transaction that has stopped growing, or that
   * does not hold it on a RID where another one has been granted any lock.
   */
  lemma ExclusiveRefused(table: LockTable, info: TxInfo, tx: nat, rid: RID)
    ensures LockNow(table, info, tx, rid, Exclusive).reply.Refused? <==>
              || !info.phase.Growing?
              || (rid !in info.exclusive && exists r | r in QueueOf(table, rid) :: r.granted && r.tx != tx)
  {
    var q := QueueOf(table, rid);
    OthersDecide(q, q + [Request(tx, Exclusive, false)], tx, Exclusive);
    OthersDecide(q, Without(q, tx) + [Request(tx, Exclusive, false)], tx, Exclusive);
    GrantsByOthers(q, tx, Exclusive);
    hide CanGrant, Mark, Without;
  }

  /** The requests of other transactions, and all requests on other RIDs, are the same in both tables. */
  ghost predicate OthersStay(table: LockTable, table': LockTable, tx: nat, rid: RID) {
    && (forall r: RID | r != rid :: QueueOf(table', r) == QueueOf(table, r))
    && (forall r: Request | r.tx != tx :: r in QueueOf(table', rid) <==> r in QueueOf(table, rid))
  }

  /**
   * What an uninterrupted lock call leaves behind. A transaction that has stopped growing, or
   * that has the lock, finds nothing changed. Else it has the lock it asked for and its request
   * is granted; or the wait was in vain, it is aborted, and has no request on the RID any more.
   */
  lemma LockNowLeaves(table: LockTable, info: TxInfo, tx: nat, rid: RID, mode: Mode)
    ensures var o := LockNow(table, info, tx, rid, mode);
            if !info.phase.Growing? || MayUse(info, rid, mode.Exclusive?) then o.table == table && o.info == info
            else
              && OthersStay(table, o.table, tx, rid)
              && if o.reply.Granted?
                 then
                   && o.info == TxInfo(Growing, if mode.Shared? then info.shared + {rid} else info.shared - {rid},
                                       if mode.Shared? then info.exclusive else info.exclusive + {rid})
                   && Request(tx, mode, true) in QueueOf(o.table, rid)
                 else
                   && o.info == TxInfo(Aborted, info.shared - {rid}, info.exclusive)
                   && forall r | r in QueueOf(o.table, rid) :: r.tx != tx
  {
    hide OthersStay, Ask, Without, QueueOf;
    if info.phase.Growing? && !MayUse(info, rid, mode.Exclusive?) {
      var mine := rid in info.shared;
      assert !mine ==> info.shared - {rid} == info.shared;
      var table1 := if mine then table[rid := Without(QueueOf(table, rid), tx)] else table;
      var info1 := info.(shared := info.shared - {rid});
      WithoutOthers(table, tx, rid);
      AskLeaves(table1, info1, tx, rid, mode);
      OthersStayOn(table, table1, LockNow(table, info, tx, rid, mode).table, tx, rid);
    }
  }

  lemma WithoutOthers(table: LockTable, tx: nat, rid: RID)
    ensures OthersStay(table, table, tx, rid) && OthersStay(table, table[rid := Without(QueueOf(table, rid), tx)], tx,
                                                            rid)
  {
  }

  lemma OthersStayOn(a: LockTable, b: LockTable, c: LockTable, tx: nat, rid: RID)
    ensures OthersStay(a, b, tx, rid) && OthersStay(b, c, tx, rid) ==> OthersStay(a, c, tx, rid)
  {
    hide QueueOf;
  }

  /** A request is made, and granted at once or given up. */
  lemma AskLeaves(table: LockTable, info: TxInfo, tx: nat, rid: RID, mode: Mode)
    requires info.phase.Growing?
    ensures var a := Ask(table, info, tx, rid, mode);
            var o := if a.reply.MustWait? then GiveUp(a.table, a.info, tx, rid) else a;
            && OthersStay(table, o.table, tx, rid)
            && (a.reply.Granted? ==>
                  && o.info == TxInfo(Growing, if mode.Shared? then info.shared + {rid} else info.shared,
                                      if mode.Shared? then info.exclusive else info.exclusive + {rid})
                  && Request(tx, mode, true) in QueueOf(o.table, rid))
            && (!a.reply.Granted? ==>
                  o.info == info.(phase := Aborted) && forall r | r in QueueOf(o.table, rid) :: r.tx != tx)
  {
    hide Mark, Without, CanGrant;
    AppendMarked(QueueOf(table, rid), Request(tx, mode, false));
  }

  lemma AppendMarked(q: Queue, r: Request)
    requires !r.granted
    ensures r.(granted := true) in Mark(q + [r], r.tx)
    ensures forall e: Request | e.tx != r.tx :: e in Mark(q + [r], r.tx) <==> e in q
    ensures forall e: Request | e.tx != r.tx :: e in Without(q + [r], r.tx) <==> e in q
  {
    var m := Mark(q + [r], r.tx);
    assert m[|q|] == r.(granted := true);
    forall e: Request | e.tx != r.tx ensures e in m <==> e in q {
      if e in q {
        var i :| 0 <= i < |q| && q[i] == e;
        assert m[i] == e;
      }
    }
  }

  /** An unlogged move is forgotten by a rollback exactly if the log names both RIDs anyway. */
  lemma LostMoveForgotten(m: TupleMap, rid: RID, to: RID, tuple: seq<byte>, log: seq<UndoRecord>)
    requires rid in m && to !in m
    ensures Rollback(Written(m, Update(rid, to, tuple)), log) == Rollback(m, log) <==> Names(log, rid) && Names(log, to)
  {
    var m' := Written(m, Update(rid, to, tuple));
    RollbackForgets(m', m, log);
    assert !Agree(m', m, rid) && !Agree(m', m, to);
    hide Names, Rollback;
  }

  /**
   * An update can lose the tuple it moves: transaction 1 has read, in vain, the RID that the
   * heap gives to the tuple of transaction 0. Aborting does not bring the tuple back.
   */
  lemma MovedTupleLost(m: TupleMap, rid: RID, to: RID, tuple: seq<byte>) returns (states: seq<State>)
    requires rid in m && to !in m
    ensures Run([Begin, Begin, Call(1, to, Shared)], states) && Running(states[3], 0)
    ensures LockNow(states[3].table, states[3].txs[0], 0, rid, Exclusive).reply.Granted?
    ensures LockBoth(states[3].table, states[3].txs[0], 0, rid, to).reply.Refused?
    ensures CanWrite(m, Update(rid, to, tuple)) && Rollback(Written(m, Update(rid, to, tuple)), []) != m
  {
    hide LockNow, Run, Rollback;
    states := OneReader(to);
    LostMoveForgotten(m, rid, to, tuple, []);
    RollbackDone(map[], m);
    MoveRefused(1, 0, rid, to);
  }

  lemma FreeLockGranted(table: LockTable, tx: nat, rid: RID)
    requires rid !in table
    ensures var o := LockNow(table, TxInfo(Growing, {}, {}), tx, rid, Exclusive);
            && o.reply.Granted? && o.info == TxInfo(Growing, {}, {rid})
            && o.table == table[rid := [Request(tx, Exclusive, true)]]
  {
    var r := Request(tx, Exclusive, false);
    assert [] + [r] == [r] && Mark([r], tx) == [r.(granted := true)];
    assert {} + {rid} == {rid};
    assert LockNow(table, TxInfo(Growing, {}, {}), tx, rid, Exclusive).table == table[rid := [r.(granted := true)]];
  }

  lemma FreeReadGranted(tx: nat, rid: RID)
    ensures LockNow(map[], TxInfo(Growing, {}, {}), tx, rid, Shared).table == map[rid := [Request(tx, Shared, true)]]
  {
    var r := Request(tx, Shared, false);
    assert [] + [r] == [r] && Mark([r], tx) == [r.(granted := true)];
  }

  /** An update that goes to a RID which another transaction has read locks the one and not the other. */
  lemma MoveRefused(reader: nat, writer: nat, rid: RID, to: RID)
    requires rid != to && reader != writer
    ensures var table := map[to := [Request(reader, Shared, true)]];
            && LockNow(table, TxInfo(Growing, {}, {}), writer, rid, Exclusive).reply.Granted?
            && LockBoth(table, TxInfo(Growing, {}, {}), writer, rid, to).reply.Refused?
  {
    var table := map[to := [Request(reader, Shared, true)]];
    FreeLockGranted(table, writer, rid);
    var o := LockNow(table, TxInfo(Growing, {}, {}), writer, rid, Exclusive);
    assert !CanGrant(QueueOf(o.table, to), writer, Exclusive) by {
      assert o.table[to][0].granted && o.table[to][0].tx != writer;
    }
    hide LockNow, CanGrant;
    ExclusiveRefused(o.table, o.info, writer, to);
  }

  /** Two transactions, of which the second has a shared lock. */
  lemma OneReader(to: RID) returns (states: seq<State>)
    ensures Run([Begin, Begin, Call(1, to, Shared)], states) && Running(states[3], 0)
    ensures states[3].table == map[to := [Request(1, Shared, true)]] && states[3].txs[0] == TxInfo(Growing, {}, {})
  {
    var r := Request(1, Shared, false);
    assert [] + [r] == [r] && Mark([r], 1) == [r.(granted := true)];
    var steps := [Begin, Begin, Call(1, to, Shared)];
    var s1 := Next(INIT, Begin);
    var s2 := Next(s1, Begin);
    var s3 := Next(s2, Call(1, to, Shared));
    states := [INIT, s1, s2, s3];
    assert StepAt(steps, states, 0) && StepAt(steps, states, 1) && StepAt(steps, states, 2);
    assert s3.table == map[to := [r.(granted := true)]];
  }

  /** A change of the heap's map that is one of the logged writes. */
  lemma WriteDone(v: View, chain: seq<nat>, v': View, chain': seq<nat>, w: Write)
    requires ChainOf(v, chain) && ChainOf(v', chain') && Kept(v, v', chain, chain')
    requires CanWrite(HeapMap(v, chain), w) && HeapMap(v', chain') == Written(HeapMap(v, chain), w)
    ensures IsWrite(StoreOf(v, chain), w, StoreOf(v', chain'))
  {
    HeapWellFormed(v, chain);
    SlotsGrow(v, v', chain, chain');
    hide ChainOf, HeapMap, Kept, WellFormed, Grown, CanWrite, Written;
  }

  lemma MovedInChain(v: View, chain: seq<nat>, v': View, chain': seq<nat>, rid: RID, to: RID, tuple: seq<byte>)
    requires ChainOf(v, chain) && ChainOf(v', chain') && Kept(v, v', chain, chain') && rid in HeapMap(v, chain)
    requires if to == rid then HeapMap(v', chain') == HeapMap(v, chain)[rid := tuple]
             else LowestFree(HeapMap(v, chain), to) && HeapMap(v', chain') == (HeapMap(v, chain) - {rid})[to := tuple]
    ensures rid.page in chain' && to.page in chain'
              && HeapMap(v', chain') == Written(HeapMap(v, chain), Update(rid, to, tuple))
    ensures CanWrite(HeapMap(v, chain), Update(rid, to, tuple))
  {
    hide HeapMap, ChainOf, Kept;
    PlacedInChain(v, chain, rid);
    PlacedInChain(v', chain', to);
    ChainKept(v, v', chain, chain', rid.page);
  }

  lemma ChainKept(v: View, v': View, chain: seq<nat>, chain': seq<nat>, p: nat)
    requires Kept(v, v', chain, chain') && p in chain
    ensures p in chain'
  {
  }

  lemma LogStaysInHeap(log: seq<UndoRecord>, v: View, v': View, chain: seq<nat>, chain': seq<nat>)
    requires LogInHeap(log, chain) && Kept(v, v', chain, chain')
    ensures LogInHeap(log, chain')
  {
    assert forall p | p in chain :: p in chain';
  }

  lemma PlacedInChain(v: View, chain: seq<nat>, rid: RID)
    requires ChainOf(v, chain) && rid in HeapMap(v, chain)
    ensures rid.page in chain && |HeapMap(v, chain)[rid]| <= MAX_TUPLE
  {
    HeapModel.Lookup(v, chain, rid);
    TupleBound(v, chain, rid);
  }

  /** What a read finds; an empty tuple counts as none. */
  function Found(m: TupleMap, rid: RID): Option<seq<byte>> {
    if rid in m && m[rid] != [] then Some(m[rid]) else None
  }

  /** Locks only grow, except that an upgrade gives up the shared lock it replaces. */
  lemma LockedOrNot(table: LockTable, info: TxInfo, tx: nat, rid: RID, mode: Mode)
    ensures var o := LockNow(table, info, tx, rid, mode);
            && (o.reply.Granted? ==> MayUse(o.info, rid, mode.Exclusive?) && o.info.phase == info.phase)
            && (o.reply.Refused? ==> !o.info.phase.Growing?)
            && info.exclusive <= o.info.exclusive
            && o.info.shared + o.info.exclusive + {rid} == info.shared + info.exclusive + {rid}
  {
    hide CanGrant, Without, Mark, QueueOf;
  }

  // ---- the cursor of a table ----

  class TableScan {
    const scan: HeapScan
    const locks: LockManager
    const tx: Transaction?

    constructor (scan: HeapScan, locks: LockManager, tx: Transaction?)
      ensures this.scan == scan && this.locks == locks && this.tx == tx
    {
      this.scan, this.locks, this.tx := scan, locks, tx;
    }

    /**
     * What is locked is the RID under the cursor. The row that follows is read under that lock
     * exactly if the slot under the cursor is live; else its RID is one that was never asked for.
     */
    method Next() returns (row: Option<Row>)
      requires scan.Valid()
      modifies scan, scan.store`failures, locks, tx
      ensures scan.Valid() && (scan.current == old(scan.current) || fresh(scan.current))
      ensures scan.store.failures >= old(scan.store.failures)
      ensures tx != null ==>
                && tx.undo_log == old(tx.undo_log)
                && var o := LockNow(old(locks.table), old(tx.Info()), tx.id, old(scan.rid), Shared);
                   && locks.table == o.table && tx.Info() == o.info
                   && (o.reply.Refused? ==>
                       row == None && scan.rid == old(scan.rid) && scan.Remaining() == old(scan.Remaining()))
                   && (o.reply.Granted? ==> MayUse(tx.Info(), old(scan.rid), false))
      ensures scan.lost == 0 && old(scan.Remaining()) != []
              && (tx == null || LockNow(old(locks.table), old(tx.Info()), tx.id, old(scan.rid),
                                        Shared).reply.Granted?) ==>
                && row == Some(old(scan.Remaining())[0]) && scan.Remaining() == old(scan.Remaining())[1..]
                && (row.value.rid == old(scan.rid) <==> old(scan.OnLive()))
      ensures scan.lost == 0 && old(scan.Remaining()) == [] ==> row == None && scan.Remaining() == []
      ensures scan.lost >= old(scan.lost)
                && (scan.lost == old(scan.lost) <==> scan.store.failures == old(scan.store.failures))
      ensures scan.store.failures != old(scan.store.failures) ==>
                row == None && scan.Remaining() == old(scan.Remaining())
    {
      hide LockNow, ChainOf, Layout, Tuples, PageRows, ChainRows;
      if scan.Remaining() != [] {
        scan.NextIsUnderCursor();
      }
      if tx != null {
        LockedOrNot(locks.table, tx.Info(), tx.id, scan.rid, Shared);
        var ok := locks.LockShared(tx, scan.rid);
        if !ok {
          return None;
        }
      }
      row := scan.Next();
    }

    /**
     * Ask for rows until there is none. The loop ends; it has handed out the stream in order
     * from its start, and all of it unless a lock was refused or a page could not be fetched.
     */
    method Drain() returns (rows: seq<Row>)
      requires scan.Valid() && scan.lost == 0
      requires tx != null ==> tx.Info().phase.Growing?
      modifies scan, scan.store`failures, locks, tx
      ensures scan.Valid() && scan.store.failures >= old(scan.store.failures)
      ensures old(scan.Remaining()) == rows + scan.Remaining()
      ensures (tx == null || tx.Info().phase.Growing?) && scan.store.failures == old(scan.store.failures) ==>
                scan.Remaining() == [] && rows == old(scan.Remaining())
      ensures tx != null ==> tx.undo_log == old(tx.undo_log) && tx.Info().exclusive == old(tx.Info().exclusive)
    {
      hide *;
      rows := [];
      while true
        invariant scan.Valid() && scan.lost == 0 && scan.store.failures == old(scan.store.failures)
        invariant old(scan.Remaining()) == rows + scan.Remaining()
        invariant tx != null ==>
                    tx.Info().phase.Growing? && tx.undo_log == old(tx.undo_log)
                    && tx.Info().exclusive == old(tx.Info().exclusive)
        decreases |scan.Remaining()|
      {
        ghost var left := scan.Remaining();
        if tx != null {
          SharedLeaves(locks.table, tx.Info(), tx.id, scan.rid);
        }
        var row := Next();
        if row.None? {
          return;
        }
        MovedOver(old(scan.Remaining()), rows, left, row.value, scan.Remaining());
        rows := rows + [row.value];
      }
    }
  }

  lemma MovedOver(all: seq<Row>, rows: seq<Row>, left: seq<Row>, row: Row, rest: seq<Row>)
    requires all == rows + left && left != [] && row == left[0] && rest == left[1..]
    ensures all == (rows + [row]) + rest && |rest| < |left|
  {
  }

  /** What a shared lock call does to the transaction. */
  lemma SharedLeaves(table: LockTable, info: TxInfo, tx: nat, rid: RID)
    ensures var o := LockNow(table, info, tx, rid, Shared);
            o.info.exclusive == info.exclusive && (o.reply.Granted? <==> info.phase.Growing? && o.info.phase.Growing?)
  {
    hide CanGrant, Without, Mark, QueueOf;
  }

  /**
   * A whole scan of a table hands out every tuple of the heap, in chain and slot order, and
   * only those, if nothing fails and every lock is granted.
   */
  method ScanAll(table: Table, tx: Transaction?) returns (rows: seq<Row>)
    requires table.Valid(tx) && (tx != null ==> tx.phase.Growing?)
    modifies table.heap.store`failures, table.locks, tx
    ensures table.Valid(tx) && table.heap.store.failures >= old(table.heap.store.failures)
    ensures (tx == null || tx.phase.Growing?) && table.heap.store.failures == old(table.heap.store.failures) ==>
              rows == ChainRows(table.heap.store.pages, table.heap.chain, 0)
    ensures tx != null ==> tx.undo_log == old(tx.undo_log) && tx.exclusive == old(tx.exclusive)
  {
    hide LockNow, ChainOf, Layout, Tuples, PageRows, ChainRows;
    var scan := new HeapScan(table.heap);
    var cursor := new TableScan(scan, table.locks, tx);
    rows := cursor.Drain();
    scan.Close();
  }

  // ---- the transaction manager ----

  class TransactionManager {
    const locks: LockManager
    var next: nat
    var active: map<nat, Transaction>

    constructor (locks: LockManager)
      ensures this.locks == locks && Valid() && active == map[]
    {
      this.locks, next, active := locks, 0, map[];
    }

    /** The transactions under way, each under its own id; ids are never used twice. */
    ghost predicate Valid()
      reads this
    {
      forall id | id in active :: active[id].id == id < next
    }

    method Begin() returns (tx: Transaction)
      requires Valid()
      modifies this
      ensures Valid() && fresh(tx) && tx.id !in old(active) && active == old(active)[tx.id := tx]
      ensures tx.Info() == TxInfo(Growing, {}, {}) && tx.undo_log == []
    {
      tx := new Transaction(next);
      active := active[next := tx];
      next := next + 1;
    }

    /** Everything is kept, and all locks go at once. */
    method Commit(tx: Transaction)
      requires Valid()
      modifies this`active, locks, tx
      ensures Valid() && active == old(active) - {tx.id}
      ensures locks.table == Release(old(locks.table), old(tx.Info()), tx.id)
      ensures tx.Info() == TxInfo(Committed, {}, {}) && tx.undo_log == old(tx.undo_log)
    {
      tx.phase := Shrinking;
      locks.UnlockAll(tx);
      tx.phase := Committed;
      active := active - {tx.id};
    }

    /**
     * Roll back while every RID to be rewritten is still locked, then let all locks go. If the
     * rollback fits, the heap holds what the undo log leads back to.
     */
    method Abort(tx: Transaction, table: Table) returns (ok: bool)
      requires Valid() && table.Valid(tx) && table.locks == locks
      modifies this`active, locks, tx, table.heap.store
      ensures Valid() && active == old(active) - {tx.id}
      ensures locks.table == Release(old(locks.table), old(tx.Info()), tx.id)
      ensures tx.Info() == TxInfo(Aborted, {}, {}) && tx.undo_log == old(tx.undo_log)
      ensures table.heap.Valid() && Kept(old(table.heap.store.pages), table.heap.store.pages, table.heap.chain,
                                         table.heap.chain)
      ensures Snapshot(table.heap).slots == old(Snapshot(table.heap).slots)
      ensures table.heap.store.failures >= old(table.heap.store.failures)
      ensures table.heap.store.failures == old(table.heap.store.failures) ==>
                && (ok <==> RollbackFits(old(Snapshot(table.heap).slots), old(table.heap.Map()), tx.undo_log))
                && (ok ==> table.heap.Map() == Rollback(old(table.heap.Map()), tx.undo_log))
    {
      hide ChainOf, HeapMap, Kept, RollbackFits, Rollback;
      tx.phase := Shrinking;
      ok := tx.Undo(table.heap);
      locks.UnlockAll(tx);
      tx.phase := Aborted;
      active := active - {tx.id};
    }
  }
}
