/** Whole transactions on rows: any calls on a table of rows between begin and abort. */
module RowRuns {
  import opened Bytes
  import opened Options
  import opened PageLayout
  import opened HeapModel
  import opened TableHeaps
  import opened LockProtocol
  import opened Undo
  import opened Transactions
  import opened TransactionRuns
  import opened Rows
  import Schemas

  datatype RowOp = InsertRow(tuple: Tuple) | UpdateRow(rid: RID, tuple: Tuple) | DeleteRow(rid: RID) | GetRow(rid: RID)

  /** What a call hands back. */
  datatype RowReply =
    | Stored(result: RowResult)
    | Deleted(ok: bool)
    | Fetched(row: Option<Option<seq<Schemas.ColumnValue>>>)

  predicate RowTyped(op: RowOp) {
    op.InsertRow? || op.UpdateRow? ==> Schemas.WellTyped(op.tuple.schema, op.tuple.row)
  }

  /** Calls about pages of the table; rows of 65536 encoded bytes and more are not updated in place. */
  ghost predicate RowOpOK(op: RowOp, chain: seq<nat>) {
    && RowTyped(op)
    && (!op.InsertRow? ==> op.rid.page in chain)
    && (op.UpdateRow? ==> |BytesOf(op.tuple)| < 0x1_0000)
  }

  /** The reply is of the kind of the call; an insert is thrown out exactly if the row is rejected. */
  predicate RepliesTo(op: RowOp, r: RowReply, schema: Schemas.Schema)
    requires RowTyped(op)
  {
    match op
    case InsertRow(tuple) => r.Stored? && (r.result.Thrown? <==> Rejected(schema, tuple).Some?)
    case UpdateRow(_, tuple) => r.Stored? && (r.result.Thrown? ==> Rejected(schema, tuple) == Some(r.result.error))
    case DeleteRow(_) => r.Deleted?
    case GetRow(_) => r.Fetched?
  }

  /** The write a call reports, if it reports one. */
  ghost function RowWrite(op: RowOp, r: RowReply): Option<Write>
    requires RowTyped(op)
  {
    match (op, r)
    case (InsertRow(tuple), Stored(Done(Placed(rid)))) => Some(Write.Insert(rid, BytesOf(tuple)))
    case (UpdateRow(rid, tuple), Stored(Done(Placed(to)))) => Some(Write.Update(rid, to, BytesOf(tuple)))
    case (DeleteRow(rid), Deleted(true)) => Some(Write.Delete(rid))
    case _ => None
  }

  /** The writes that the calls report, in order. */
  ghost function RowWrites(ops: seq<RowOp>, replies: seq<RowReply>): seq<Write>
    requires |ops| == |replies| && forall i | 0 <= i < |ops| :: RowTyped(ops[i])
  {
    if ops == [] then [] else
      var n := |ops| - 1;
      RowWrites(ops[..n], replies[..n]) + Reported(RowWrite(ops[n], replies[n]))
  }

  lemma RowWritesOn(ops: seq<RowOp>, replies: seq<RowReply>, op: RowOp, r: RowReply)
    requires |ops| == |replies| && RowTyped(op) && forall i | 0 <= i < |ops| :: RowTyped(ops[i])
    ensures RowWrites(ops + [op], replies + [r]) == RowWrites(ops, replies) + Reported(RowWrite(op, r))
  {
    hide RowWrite, RowTyped;
    assert (ops + [op])[..|ops|] == ops && (replies + [r])[..|ops|] == replies;
  }

  lemma NoRowWrites()
    ensures RowWrites([], []) == []
  {
  }

  /** An update that reports no RID and no exception of the encoding; it may have taken out the tuple all the same. */
  predicate LosesRow(op: RowOp, r: RowReply) {
    op.UpdateRow? && r.Stored? && r.result.Done? && !r.result.result.Placed?
  }

  /** The new row of an update fits no page. */
  ghost predicate TooBig(op: RowOp) {
    op.UpdateRow? && RowTyped(op) && |BytesOf(op.tuple)| > MAX_TUPLE
  }

  method DoInsertRow(table: RowTable, tx: Transaction, tuple: Tuple) returns (r: RowResult)
    requires table.table.Valid(tx) && Schemas.WellTyped(tuple.schema, tuple.row)
    modifies table.table.heap.store, table.table.heap`chain, table.table.locks, tx
    ensures table.table.Valid(tx) && old(table.table.heap.chain) <= table.table.heap.chain
    ensures table.table.heap.store.failures >= old(table.table.heap.store.failures)
    ensures RepliesTo(InsertRow(tuple), Stored(r), table.schema)
    ensures table.table.heap.store.failures == old(table.table.heap.store.failures) ==>
              Took(old(Snapshot(table.table.heap)), RowWrite(InsertRow(tuple), Stored(r)), Snapshot(table.table.heap),
                   old(tx.undo_log), tx.undo_log)
    ensures old(Alone(table.table.locks.table, tx.Info(), tx.id)) ==> Alone(table.table.locks.table, tx.Info(), tx.id)
  {
    hide Alone, ChainOf, HeapMap, Kept, IsWrite, WellFormed, LockNow, Grown, Took, LockMaybe, FirstFit, LowestFree,
         BytesOf, Rejected;
    ghost var heap := table.table.heap;
    ghost var s, v, chain, log := Snapshot(heap), heap.store.pages, heap.chain, tx.undo_log;
    ghost var to: Option<RID>;
    r, to := table.InsertTuple(tuple, tx);
    if old(Alone(table.table.locks.table, tx.Info(), tx.id)) && r.Done? {
      AloneLocksMaybe(old(table.table.locks.table), old(tx.Info()), tx.id, to);
    }
    KeptPrefix(v, heap.store.pages, chain, heap.chain);
    if r.Done? && r.result.Placed? {
      WriteTook(s, Write.Insert(r.result.rid, BytesOf(tuple)), Snapshot(heap), log, tx.undo_log);
    } else if heap.store.failures == old(heap.store.failures) {
      assert log + [] == log;
      NothingTook(v, chain, heap.store.pages, heap.chain, log, tx.undo_log);
    }
  }

  /** `lost` is set if the call took out a tuple without logging that. */
  method DoUpdateRow(table: RowTable, tx: Transaction, rid: RID, tuple: Tuple)
    returns (r: RowResult, ghost lost: bool)
    requires table.table.Valid(tx) && rid.page in table.table.heap.chain
    requires Schemas.WellTyped(tuple.schema, tuple.row) && |BytesOf(tuple)| < 0x1_0000
    modifies table.table.heap.store, table.table.heap`chain, table.table.locks, tx
    ensures table.table.Valid(tx) && old(table.table.heap.chain) <= table.table.heap.chain
    ensures table.table.heap.store.failures >= old(table.table.heap.store.failures)
    ensures RepliesTo(UpdateRow(rid, tuple), Stored(r), table.schema)
    ensures table.table.heap.store.failures == old(table.table.heap.store.failures) && !lost ==>
              Took(old(Snapshot(table.table.heap)), RowWrite(UpdateRow(rid, tuple), Stored(r)),
                   Snapshot(table.table.heap), old(tx.undo_log), tx.undo_log)
    ensures lost ==> LosesRow(UpdateRow(rid, tuple), Stored(r))
    ensures old(Alone(table.table.locks.table, tx.Info(), tx.id)) ==>
              Alone(table.table.locks.table, tx.Info(), tx.id) && (lost ==> |BytesOf(tuple)| > MAX_TUPLE)
  {
    hide Alone, ChainOf, HeapMap, Kept, IsWrite, WellFormed, LockNow, Grown, Took, LockBoth, Overruns, KeepsRid,
         CanWrite, BytesOf, Rejected, NextFit, LowestFree, Records;
    ghost var heap := table.table.heap;
    ghost var s, v, chain, log := Snapshot(heap), heap.store.pages, heap.chain, tx.undo_log;
    NoOverrun(v, chain, rid, |BytesOf(tuple)|);
    if Alone(table.table.locks.table, tx.Info(), tx.id) {
      AloneLocks(table.table.locks.table, tx.Info(), tx.id, rid, Exclusive);
    }
    ghost var to: RID;
    r, to := table.UpdateTuple(rid, tuple, tx);
    if old(Alone(table.table.locks.table, tx.Info(), tx.id)) {
      AloneLocksBoth(old(table.table.locks.table), old(tx.Info()), tx.id, rid, to);
    }
    KeptPrefix(v, heap.store.pages, chain, heap.chain);
    lost := r.Done? && heap.store.failures == old(heap.store.failures)
      && (r.result.Threw? || (to != rid && !r.result.Placed?));
    if r.Done? && r.result.Placed? {
      WriteTook(s, Write.Update(rid, to, BytesOf(tuple)), Snapshot(heap), log, tx.undo_log);
    } else if heap.store.failures == old(heap.store.failures) && !lost {
      assert log + [] == log;
      NothingTook(v, chain, heap.store.pages, heap.chain, log, tx.undo_log);
    }
  }

  method DoGetRow(table: RowTable, tx: Transaction, rid: RID)
    returns (row: Option<Option<seq<Schemas.ColumnValue>>>)
    requires table.table.Valid(tx) && rid.page in table.table.heap.chain
    modifies table.table.heap.store`failures, table.table.locks, tx
    ensures table.table.Valid(tx) && table.table.heap.store.failures >= old(table.table.heap.store.failures)
    ensures Took(old(Snapshot(table.table.heap)), None, Snapshot(table.table.heap), old(tx.undo_log), tx.undo_log)
    ensures old(Alone(table.table.locks.table, tx.Info(), tx.id)) ==>
              && Alone(table.table.locks.table, tx.Info(), tx.id)
              && (table.table.heap.store.failures == old(table.table.heap.store.failures) ==>
                    row == RowAt(table.table.heap.Map(), rid, table.schema))
  {
    hide Alone, ChainOf, HeapMap, Kept, LockNow, Grown, Took, RowAt;
    ghost var heap := table.table.heap;
    ghost var v, chain, log := heap.store.pages, heap.chain, tx.undo_log;
    if Alone(table.table.locks.table, tx.Info(), tx.id) {
      AloneLocks(table.table.locks.table, tx.Info(), tx.id, rid, Shared);
    }
    row := table.GetTuple(rid, tx);
    KeptItself(v, chain);
    assert log + [] == log;
    NothingTook(v, chain, heap.store.pages, chain, log, tx.undo_log);
  }

  /** One call. */
  method DoRow(table: RowTable, tx: Transaction, op: RowOp) returns (r: RowReply, ghost lost: bool)
    requires table.table.Valid(tx) && RowOpOK(op, table.table.heap.chain)
    modifies table.table.heap.store, table.table.heap`chain, table.table.locks, tx
    ensures table.table.Valid(tx) && old(table.table.heap.chain) <= table.table.heap.chain
    ensures RepliesTo(op, r, table.schema)
    ensures table.table.heap.store.failures >= old(table.table.heap.store.failures)
    ensures table.table.heap.store.failures == old(table.table.heap.store.failures) && !lost ==>
              Took(old(Snapshot(table.table.heap)), RowWrite(op, r), Snapshot(table.table.heap), old(tx.undo_log),
                   tx.undo_log)
    ensures lost ==> LosesRow(op, r)
    ensures old(Alone(table.table.locks.table, tx.Info(), tx.id)) ==>
              && Alone(table.table.locks.table, tx.Info(), tx.id) && (lost ==> TooBig(op))
              && (op.GetRow? && table.table.heap.store.failures == old(table.table.heap.store.failures) ==>
                    r == Fetched(RowAt(old(table.table.heap.Map()), op.rid, table.schema)))
  {
    hide Alone, ChainOf, HeapMap, Took, StoreOf, RowAt, BytesOf, Rejected;
    lost := false;
    if op.InsertRow? {
      var result := DoInsertRow(table, tx, op.tuple);
      r := Stored(result);
    } else if op.UpdateRow? {
      var result;
      result, lost := DoUpdateRow(table, tx, op.rid, op.tuple);
      r := Stored(result);
    } else if op.DeleteRow? {
      var ok := DoDelete(table.table, tx, op.rid);
      r := Deleted(ok);
    } else {
      var row := DoGetRow(table, tx, op.rid);
      r := Fetched(row);
    }
  }

  lemma RowStillOK(op: RowOp, chain: seq<nat>, chain': seq<nat>)
    requires RowOpOK(op, chain) && chain <= chain'
    ensures RowOpOK(op, chain')
  {
  }

  lemma RowsTyped(ops: seq<RowOp>, chain: seq<nat>)
    requires forall i | 0 <= i < |ops| :: RowOpOK(ops[i], chain)
    ensures forall i | 0 <= i < |ops| :: RowTyped(ops[i])
  {
  }

  /** Every read gives what the writes before it have left. */
  ghost predicate RowsSeen(ops: seq<RowOp>, replies: seq<RowReply>, states: seq<Store>, schema: Schemas.Schema)
    requires forall i | 0 <= i < |ops| :: RowTyped(ops[i])
  {
    |ops| == |replies| && forall i: nat | i < |ops| && ops[i].GetRow? :: RowSeen(ops, replies, states, schema, i)
  }

  ghost predicate RowSeen(ops: seq<RowOp>, replies: seq<RowReply>, states: seq<Store>, schema: Schemas.Schema, i: nat)
    requires i < |ops| == |replies| && ops[i].GetRow? && forall i | 0 <= i < |ops| :: RowTyped(ops[i])
  {
    var k := |RowWrites(ops[..i], replies[..i])|;
    k < |states| && replies[i] == Fetched(RowAt(states[k].tuples, ops[i].rid, schema))
  }

  lemma RowsSeenOn(ops: seq<RowOp>, replies: seq<RowReply>, states: seq<Store>, op: RowOp, r: RowReply,
                   states': seq<Store>, schema: Schemas.Schema)
    requires RowTyped(op) && forall i | 0 <= i < |ops| :: RowTyped(ops[i])
    requires RowsSeen(ops, replies, states, schema) && SameTuples(states, states')
    requires op.GetRow? ==>
               var k := |RowWrites(ops, replies)|;
               k < |states'| && r == Fetched(RowAt(states'[k].tuples, op.rid, schema))
    ensures RowsSeen(ops + [op], replies + [r], states', schema)
  {
    hide RowWrites, RowAt, RowTyped;
    var ops', replies' := ops + [op], replies + [r];
    forall i: nat | i < |ops'| && ops'[i].GetRow? ensures RowSeen(ops', replies', states', schema, i) {
      assert ops'[..i] == ops[..i] && replies'[..i] == replies[..i];
      if i < |ops| {
        assert RowSeen(ops, replies, states, schema, i);
      } else {
        assert ops[..i] == ops && replies[..i] == replies;
      }
    }
  }

  /** The calls from `begin` on, and what they have left. Some update lost a tuple if `lost` is set. */
  method RunRows(table: RowTable, tx: Transaction, ops: seq<RowOp>)
    returns (replies: seq<RowReply>, ghost lost: bool, ghost states: seq<Store>)
    requires table.table.Valid(tx) && tx.undo_log == []
    requires forall i | 0 <= i < |ops| :: RowOpOK(ops[i], table.table.heap.chain)
    modifies table.table.heap.store, table.table.heap`chain, table.table.locks, tx
    ensures table.table.Valid(tx) && table.table.heap.store.failures >= old(table.table.heap.store.failures)
    ensures |replies| == |ops| && forall i | 0 <= i < |ops| :: RowTyped(ops[i])
    ensures forall i | 0 <= i < |ops| :: RepliesTo(ops[i], replies[i], table.schema)
    ensures table.table.heap.store.failures == old(table.table.heap.store.failures) && !lost ==>
              Logged(RowWrites(ops, replies), states, tx.undo_log, old(table.table.heap.Map()),
                     Snapshot(table.table.heap))
    ensures old(Alone(table.table.locks.table, tx.Info(), tx.id)) ==>
              table.table.heap.store.failures == old(table.table.heap.store.failures) && !lost ==>
                RowsSeen(ops, replies, states, table.schema)
    ensures lost ==> exists i | 0 <= i < |ops| :: LosesRow(ops[i], replies[i])
    ensures old(Alone(table.table.locks.table, tx.Info(), tx.id)) && lost ==>
              exists i | 0 <= i < |ops| :: LosesRow(ops[i], replies[i]) && TooBig(ops[i])
  {
    hide Alone, ChainOf, HeapMap, Logged, Took, RowWrite, RepliesTo, Log, History, RowsSeen, SameTuples, RowAt, StoreOf,
         RowWrites, Reported, BytesOf, RowTyped, RowOpOK, TooBig;
    ghost var heap := table.table.heap;
    ghost var m0 := heap.Map();
    replies, lost, states := [], false, [Snapshot(heap)];
    RowsTyped(ops, heap.chain);
    SnapshotMap(heap);
    NoRowWrites();
    NothingLogged(Snapshot(heap));
    NoRowsSeen(states, table.schema);
    for i := 0 to |ops|
      invariant table.table.Valid(tx) && old(heap.chain) <= heap.chain && |replies| == i
      invariant heap.store.failures >= old(heap.store.failures)
      invariant forall j | 0 <= j < i :: RepliesTo(ops[j], replies[j], table.schema)
      invariant heap.store.failures == old(heap.store.failures) && !lost ==>
                  Logged(RowWrites(ops[..i], replies), states, tx.undo_log, m0, Snapshot(heap))
      invariant old(Alone(table.table.locks.table, tx.Info(), tx.id)) ==>
                  heap.store.failures == old(heap.store.failures) && !lost ==>
                    RowsSeen(ops[..i], replies, states, table.schema)
      invariant lost ==> exists j | 0 <= j < i :: LosesRow(ops[j], replies[j])
      invariant old(Alone(table.table.locks.table, tx.Info(), tx.id)) ==>
                  && Alone(table.table.locks.table, tx.Info(), tx.id)
                  && (lost ==> exists j | 0 <= j < i ::
                        LosesRow(ops[j], replies[j]) && TooBig(ops[j]))
    {
      RowStillOK(ops[i], old(heap.chain), heap.chain);
      SnapshotMap(heap);
      ghost var before, log := Snapshot(heap), tx.undo_log;
      ghost var good := heap.store.failures == old(heap.store.failures) && !lost;
      var r, lost' := DoRow(table, tx, ops[i]);
      RowWritesOn(ops[..i], replies, ops[i], r);
      if good && heap.store.failures == old(heap.store.failures) && !lost' {
        ghost var writes := RowWrites(ops[..i], replies);
        LastState(writes, states, log, m0, before);
        ghost var states' := LoggedOn(writes, states, log, m0, before, RowWrite(ops[i], r), Snapshot(heap),
                                      tx.undo_log);
        SameAt(states, states', |writes|);
        if old(Alone(table.table.locks.table, tx.Info(), tx.id)) {
          RowsSeenOn(ops[..i], replies, states, ops[i], r, states', table.schema);
        }
        states := states';
      }
      assert ops[..i + 1] == ops[..i] + [ops[i]];
      ghost var earlier := replies;
      replies, lost := replies + [r], lost || lost';
      assert forall j | 0 <= j < i :: replies[j] == earlier[j];
      assert lost' ==> LosesRow(ops[i], replies[i]);
    }
    assert ops[..|ops|] == ops;
  }

  lemma NoRowsSeen(states: seq<Store>, schema: Schemas.Schema)
    ensures RowsSeen([], [], states, schema)
  {
  }

  /**
   * A transaction that makes any calls on a table of rows and aborts leaves the tuples as it
   * found them, provided every page could be had, no update lost a tuple, and the rollback
   * could be carried out. It can exactly if, in the history of the writes that the calls
   * report, every page that lost a tuple, as it was before that, fits with the directory it has
   * at the end. If nobody else holds locks, reads see the writes before them, and no update
   * loses a tuple if the encodings fit a page.
   */
  method RunRowsAndAbort(manager: TransactionManager, table: RowTable, ops: seq<RowOp>)
    returns (replies: seq<RowReply>, ok: bool, ghost lost: bool, ghost states: seq<Store>)
    requires manager.Valid() && table.table.heap.Valid() && table.table.locks == manager.locks
    requires forall i | 0 <= i < |ops| :: RowOpOK(ops[i], table.table.heap.chain)
    modifies manager, manager.locks, table.table.heap.store, table.table.heap`chain
    ensures table.table.heap.Valid() && table.table.heap.store.failures >= old(table.table.heap.store.failures)
    ensures |replies| == |ops| && forall i | 0 <= i < |ops| :: RowTyped(ops[i])
    ensures forall i | 0 <= i < |ops| :: RepliesTo(ops[i], replies[i], table.schema)
    ensures table.table.heap.store.failures == old(table.table.heap.store.failures) && !lost ==>
              && History(RowWrites(ops, replies), states) && states[0].tuples == old(table.table.heap.Map())
              && states[|states| - 1].slots == Snapshot(table.table.heap).slots
              && (ok <==> AllFitGrown(RowWrites(ops, replies), states, Snapshot(table.table.heap).slots))
              && (ok ==> table.table.heap.Map() == old(table.table.heap.Map()))
              && (old(Unlocked(manager.locks.table)) ==> RowsSeen(ops, replies, states, table.schema))
    ensures lost ==> exists i | 0 <= i < |ops| :: LosesRow(ops[i], replies[i])
    ensures old(Unlocked(manager.locks.table)) && lost ==>
              exists i | 0 <= i < |ops| :: LosesRow(ops[i], replies[i]) && TooBig(ops[i])
  {
    hide ChainOf, HeapMap, Kept, Logged, Rollback, RollbackFits, AllFitGrown, History, RowWrites, RepliesTo, Log,
         RowsSeen, BytesOf, RowTyped, RowOpOK, TooBig;
    ghost var heap := table.table.heap;
    ghost var m0 := heap.Map();
    var tx := manager.Begin();
    replies, lost, states := RunRows(table, tx, ops);
    if heap.store.failures == old(heap.store.failures) && !lost {
      LoggedRollback(RowWrites(ops, replies), states, tx.undo_log, m0, Snapshot(heap));
      LoggedHistory(RowWrites(ops, replies), states, tx.undo_log, m0, Snapshot(heap));
    }
    ok := manager.Abort(tx, table.table);
  }
}
