/** Whole transactions: any calls on a table between begin and abort. */
module TransactionRuns {
  import opened Bytes
  import opened Options
  import opened PageLayout
  import opened HeapModel
  import opened TableHeaps
  import opened LockProtocol
  import opened Undo
  import opened Transactions

  datatype Op = Insert(tuple: seq<byte>) | Delete(rid: RID) | Update(rid: RID, tuple: seq<byte>) | Get(rid: RID)

  /** What a call hands back. */
  datatype OpResult = Placement(result: HeapResult) | Deletion(ok: bool) | Reading(bytes: Option<seq<byte>>)

  /** The write a call reports, if it reports one. */
  function WriteOf(op: Op, r: OpResult): Option<Write> {
    match (op, r)
    case (Insert(tuple), Placement(Placed(rid))) => Some(Write.Insert(rid, tuple))
    case (Delete(rid), Deletion(true)) => Some(Write.Delete(rid))
    case (Update(rid, tuple), Placement(Placed(to))) => Some(Write.Update(rid, to, tuple))
    case _ => None
  }

  function Reported(w: Option<Write>): seq<Write> { if w.Some? then [w.value] else [] }

  /** The writes that the calls report, in order. */
  function WritesOf(ops: seq<Op>, results: seq<OpResult>): seq<Write>
    requires |ops| == |results|
  {
    if ops == [] then [] else
      var n := |ops| - 1;
      WritesOf(ops[..n], results[..n]) + Reported(WriteOf(ops[n], results[n]))
  }

  /** The result is one of the kind of call it answers. */
  predicate Answers(op: Op, r: OpResult) {
    match op
    case Insert(_) => r.Placement?
    case Delete(_) => r.Deletion?
    case Update(_, _) => r.Placement?
    case Get(_) => r.Reading?
  }

  /** Calls about pages of the table; encoded rows of 65536 bytes and more are not updated in place. */
  ghost predicate OpOK(op: Op, chain: seq<nat>) {
    && (!op.Insert? ==> op.rid.page in chain)
    && (op.Update? ==> |op.tuple| < 0x1_0000)
  }

  /** `log` is what the writes so far have appended to an empty undo log; they lead from `m0` to `s`. */
  ghost predicate Logged(writes: seq<Write>, states: seq<Store>, log: seq<UndoRecord>, m0: TupleMap, s: Store) {
    && History(writes, states) && states[0].tuples == m0 && states[|writes|] == s
    && Log(writes, states) == log
  }

  ghost predicate SameTuples(states: seq<Store>, states': seq<Store>) {
    |states| <= |states'| && forall i | 0 <= i < |states| :: states'[i].tuples == states[i].tuples
  }

  /** Every read gives what the writes before it have left. */
  ghost predicate ReadsSeen(ops: seq<Op>, results: seq<OpResult>, states: seq<Store>) {
    |ops| == |results| && forall i: nat | i < |ops| && ops[i].Get? :: ReadSeen(ops, results, states, i)
  }

  ghost predicate ReadSeen(ops: seq<Op>, results: seq<OpResult>, states: seq<Store>, i: nat)
    requires i < |ops| == |results| && ops[i].Get?
  {
    var k := |WritesOf(ops[..i], results[..i])|;
    k < |states| && results[i] == Reading(Found(states[k].tuples, ops[i].rid))
  }

  lemma ReadsSeenOn(ops: seq<Op>, results: seq<OpResult>, states: seq<Store>, op: Op, r: OpResult, states': seq<Store>)
    requires ReadsSeen(ops, results, states) && SameTuples(states, states')
    requires op.Get? ==>
               var k := |WritesOf(ops, results)|;
               k < |states'| && r == Reading(Found(states'[k].tuples, op.rid))
    ensures ReadsSeen(ops + [op], results + [r], states')
  {
    hide WritesOf, Found;
    var ops', results' := ops + [op], results + [r];
    forall i: nat | i < |ops'| && ops'[i].Get? ensures ReadSeen(ops', results', states', i) {
      assert ops'[..i] == ops[..i] && results'[..i] == results[..i];
      if i < |ops| {
        assert ReadSeen(ops, results, states, i);
      } else {
        assert ops[..i] == ops && results[..i] == results;
      }
    }
  }

  lemma NothingSeen(states: seq<Store>)
    ensures ReadsSeen([], [], states)
  {
  }

  lemma SameAt(states: seq<Store>, states': seq<Store>, i: nat)
    requires SameTuples(states, states') && i < |states|
    ensures i < |states'| && states'[i].tuples == states[i].tuples
  {
  }

  lemma LastState(writes: seq<Write>, states: seq<Store>, log: seq<UndoRecord>, m0: TupleMap, s: Store)
    requires Logged(writes, states, log, m0, s)
    ensures |writes| < |states| && states[|writes|] == s
  {
    hide IsWrite, Log;
  }

  lemma NothingLogged(s: Store)
    ensures Logged([], [s], [], s.tuples, s)
  {
  }

  /** A call that changes no tuple may still have added dead slots. */
  lemma LoggedQuiet(writes: seq<Write>, states: seq<Store>, log: seq<UndoRecord>, m0: TupleMap, s: Store, s': Store)
    returns (states': seq<Store>)
    requires Logged(writes, states, log, m0, s) && s'.tuples == s.tuples && Grown(s.slots, s'.slots)
    ensures Logged(writes, states', log, m0, s') && SameTuples(states, states')
  {
    hide WellFormed, CanWrite, Written, Records, Grown;
    states' := states[|writes| := s'];
    forall i: nat | i < |writes| ensures WriteAt(writes, states', i) {
      assert WriteAt(writes, states, i);
      if i == |writes| - 1 {
        GrownFurther(states[i].slots, s.slots, s'.slots);
      }
    }
    assert states'[..|writes|] == states[..|writes|];
  }

  lemma LoggedWrite(writes: seq<Write>, states: seq<Store>, log: seq<UndoRecord>, m0: TupleMap, s: Store, w: Write,
                    s': Store)
    returns (writes': seq<Write>, states': seq<Store>)
    requires Logged(writes, states, log, m0, s) && IsWrite(s, w, s')
    ensures CanWrite(s.tuples, w) && Logged(writes', states', log + Records(s.tuples, w), m0, s')
    ensures writes' == writes + [w] && SameTuples(states, states')
  {
    writes', states' := writes + [w], states + [s'];
    hide WellFormed, CanWrite, Written, Records, Grown;
    forall i: nat | i < |writes'| ensures WriteAt(writes', states', i) {
      assert i < |writes| ==> WriteAt(writes, states, i);
    }
    assert writes'[..|writes|] == writes && states'[..|writes'|] == states;
  }

  /** Rolling back what was logged, on any directories the pages have by now. */
  lemma LoggedRollback(writes: seq<Write>, states: seq<Store>, log: seq<UndoRecord>, m0: TupleMap, s: Store)
    requires Logged(writes, states, log, m0, s)
    ensures Rollback(s.tuples, log) == m0
    ensures RollbackFits(s.slots, s.tuples, log) <==> AllFitGrown(writes, states, s.slots)
  {
    hide IsWrite, Rollback, RollbackFits, AllFitGrown;
    RollbackRestores(writes, states, s.slots);
  }

  /** Only `tx` holds locks, and it still grows. */
  ghost predicate Alone(table: LockTable, info: TxInfo, tx: nat) {
    info.phase.Growing? && forall rid | rid in table :: OnlyGrantsTo(table[rid], tx)
  }

  ghost predicate OnlyGrantsTo(q: Queue, tx: nat) {
    forall r | r in q :: r.granted ==> r.tx == tx
  }

  /** Nobody stands in the way of a transaction that is alone. */
  lemma AloneLocks(table: LockTable, info: TxInfo, tx: nat, rid: RID, mode: Mode)
    requires Alone(table, info, tx)
    ensures var o := LockNow(table, info, tx, rid, mode); o.reply.Granted? && Alone(o.table, o.info, tx)
  {
    var q := if mode.Exclusive? && rid in info.shared then Without(QueueOf(table, rid), tx) else QueueOf(table, rid);
    var q' := q + [Request(tx, mode, false)];
    assert OnlyGrantsTo(QueueOf(table, rid), tx);
    forall r | r in Mark(q', tx) ensures r.granted ==> r.tx == tx {
      var i :| 0 <= i < |q'| && Mark(q', tx)[i] == r;
      assert q'[i] in q';
    }
    assert CanGrant(q', tx, mode) by {
      assert forall i :: 0 <= i < |q'| && q'[i].granted ==> q'[i] in q';
    }
    hide Mark, Without, CanGrant;
  }

  lemma AloneLocksBoth(table: LockTable, info: TxInfo, tx: nat, rid: RID, to: RID)
    requires Alone(table, info, tx)
    ensures var o := LockBoth(table, info, tx, rid, to); o.reply.Granted? && Alone(o.table, o.info, tx)
  {
    hide Alone, LockNow;
    AloneLocks(table, info, tx, rid, Exclusive);
    var o := LockNow(table, info, tx, rid, Exclusive);
    AloneLocks(o.table, o.info, tx, to, Exclusive);
  }

  lemma AloneLocksMaybe(table: LockTable, info: TxInfo, tx: nat, to: Option<RID>)
    requires Alone(table, info, tx)
    ensures var o := LockMaybe(table, info, tx, to); o.reply.Granted? && Alone(o.table, o.info, tx)
  {
    hide Alone, LockNow;
    if to.Some? {
      AloneLocks(table, info, tx, to.value, Exclusive);
    }
  }

  /** From `s` to `s'` there was write `w`, or no tuple changed and no page lost a slot; `log` grew to match. */
  ghost predicate Took(s: Store, w: Option<Write>, s': Store, log: seq<UndoRecord>, log': seq<UndoRecord>) {
    match w
    case None => s'.tuples == s.tuples && Grown(s.slots, s'.slots) && log' == log
    case Some(write) => IsWrite(s, write, s') && CanWrite(s.tuples, write) && log' == log + Records(s.tuples, write)
  }

  lemma LoggedOn(writes: seq<Write>, states: seq<Store>, log: seq<UndoRecord>, m0: TupleMap, s: Store,
                 w: Option<Write>, s': Store, log': seq<UndoRecord>)
    returns (states': seq<Store>)
    requires Logged(writes, states, log, m0, s) && Took(s, w, s', log, log')
    ensures Logged(writes + Reported(w), states', log', m0, s') && SameTuples(states, states')
  {
    hide Logged, IsWrite, Grown, CanWrite, Records, SameTuples;
    if w.Some? {
      var writes';
      writes', states' := LoggedWrite(writes, states, log, m0, s, w.value, s');
    } else {
      assert writes + [] == writes;
      states' := LoggedQuiet(writes, states, log, m0, s, s');
    }
  }

  lemma WriteTook(s: Store, w: Write, s': Store, log: seq<UndoRecord>, log': seq<UndoRecord>)
    requires IsWrite(s, w, s')
    requires log' == log + if w.Insert? then [DeleteUndo(w.rid)] else assert CanWrite(s.tuples, w); Records(s.tuples, w)
    ensures Took(s, Some(w), s', log, log')
  {
    hide WellFormed, Grown, Written;
  }

  lemma NothingTook(v: View, chain: seq<nat>, v': View, chain': seq<nat>, log: seq<UndoRecord>, log': seq<UndoRecord>)
    requires log' == log + []
    requires ChainOf(v, chain) && ChainOf(v', chain') && Kept(v, v', chain, chain')
              && HeapMap(v', chain') == HeapMap(v, chain)
    ensures Took(StoreOf(v, chain), None, StoreOf(v', chain'), log, log')
  {
    hide ChainOf, HeapMap, Kept;
    assert log + [] == log;
    SlotsGrow(v, v', chain, chain');
  }

  method DoInsert(table: Table, tx: Transaction, tuple: seq<byte>) returns (r: HeapResult)
    requires table.Valid(tx)
    modifies table.heap.store, table.heap`chain, table.locks, tx
    ensures table.Valid(tx) && old(table.heap.chain) <= table.heap.chain
    ensures table.heap.store.failures >= old(table.heap.store.failures)
    ensures table.heap.store.failures == old(table.heap.store.failures) ==>
              Took(old(Snapshot(table.heap)), WriteOf(Op.Insert(tuple), Placement(r)), Snapshot(table.heap),
                   old(tx.undo_log), tx.undo_log)
    ensures old(Alone(table.locks.table, tx.Info(), tx.id)) ==> Alone(table.locks.table, tx.Info(), tx.id)
  {
    hide Alone, ChainOf, HeapMap, Kept, IsWrite, WellFormed, LockNow, Grown, Took, LockMaybe, FirstFit;
    ghost var s, v, chain, log := Snapshot(table.heap), table.heap.store.pages, table.heap.chain, tx.undo_log;
    ghost var to: Option<RID>;
    r, to := table.InsertTuple(tuple, tx);
    if old(Alone(table.locks.table, tx.Info(), tx.id)) {
      AloneLocksMaybe(old(table.locks.table), old(tx.Info()), tx.id, to);
    }
    KeptPrefix(v, table.heap.store.pages, chain, table.heap.chain);
    if r.Placed? {
      WriteTook(s, Write.Insert(r.rid, tuple), Snapshot(table.heap), log, tx.undo_log);
    } else if table.heap.store.failures == old(table.heap.store.failures) {
      NothingTook(v, chain, table.heap.store.pages, table.heap.chain, log, tx.undo_log);
    }
  }

  method DoDelete(table: Table, tx: Transaction, rid: RID) returns (ok: bool)
    requires table.Valid(tx) && rid.page in table.heap.chain
    modifies table.heap.store, table.locks, tx
    ensures table.Valid(tx)
    ensures table.heap.store.failures >= old(table.heap.store.failures)
    ensures Took(old(Snapshot(table.heap)), WriteOf(Op.Delete(rid), Deletion(ok)), Snapshot(table.heap),
                 old(tx.undo_log), tx.undo_log)
    ensures old(Alone(table.locks.table, tx.Info(), tx.id)) ==> Alone(table.locks.table, tx.Info(), tx.id)
  {
    hide Alone, ChainOf, HeapMap, Kept, IsWrite, WellFormed, LockNow, Grown, Took;
    ghost var s, v, chain, log := Snapshot(table.heap), table.heap.store.pages, table.heap.chain, tx.undo_log;
    if Alone(table.locks.table, tx.Info(), tx.id) {
      AloneLocks(table.locks.table, tx.Info(), tx.id, rid, Exclusive);
    }
    ok := table.DeleteTuple(rid, tx);
    if ok {
      WriteTook(s, Write.Delete(rid), Snapshot(table.heap), log, tx.undo_log);
    } else {
      NothingTook(v, chain, table.heap.store.pages, table.heap.chain, log, tx.undo_log);
    }
  }

  /** `lost` is set if the call took out a tuple without logging that. */
  method DoUpdate(table: Table, tx: Transaction, rid: RID, tuple: seq<byte>) returns (r: HeapResult, ghost lost: bool)
    requires table.Valid(tx) && rid.page in table.heap.chain && |tuple| < 0x1_0000
    modifies table.heap.store, table.heap`chain, table.locks, tx
    ensures table.Valid(tx) && old(table.heap.chain) <= table.heap.chain
    ensures table.heap.store.failures >= old(table.heap.store.failures)
    ensures table.heap.store.failures == old(table.heap.store.failures) && !lost ==>
              Took(old(Snapshot(table.heap)), WriteOf(Op.Update(rid, tuple), Placement(r)), Snapshot(table.heap),
                   old(tx.undo_log), tx.undo_log)
    ensures lost ==> !r.Placed?
    ensures old(Alone(table.locks.table, tx.Info(), tx.id)) ==>
              Alone(table.locks.table, tx.Info(), tx.id) && (lost ==> |tuple| > MAX_TUPLE)
  {
    hide Alone, ChainOf, HeapMap, Kept, IsWrite, WellFormed, LockNow, Grown, Took, LockBoth, Overruns, KeepsRid,
         CanWrite;
    ghost var s, v, chain, log := Snapshot(table.heap), table.heap.store.pages, table.heap.chain, tx.undo_log;
    NoOverrun(v, chain, rid, |tuple|);
    ghost var to: RID;
    r, to := table.UpdateTuple(rid, tuple, tx);
    if old(Alone(table.locks.table, tx.Info(), tx.id)) {
      AloneLocksBoth(old(table.locks.table), old(tx.Info()), tx.id, rid, to);
    }
    KeptPrefix(v, table.heap.store.pages, chain, table.heap.chain);
    lost := table.heap.store.failures == old(table.heap.store.failures) && (r.Threw? || (to != rid && !r.Placed?));
    if r.Placed? {
      WriteTook(s, Write.Update(rid, to, tuple), Snapshot(table.heap), log, tx.undo_log);
    } else if table.heap.store.failures == old(table.heap.store.failures) && !lost {
      NothingTook(v, chain, table.heap.store.pages, table.heap.chain, log, tx.undo_log);
    }
  }

  method DoGet(table: Table, tx: Transaction, rid: RID) returns (bytes: Option<seq<byte>>)
    requires table.Valid(tx) && rid.page in table.heap.chain
    modifies table.heap.store`failures, table.locks, tx
    ensures table.Valid(tx)
    ensures table.heap.store.failures >= old(table.heap.store.failures)
    ensures Took(old(Snapshot(table.heap)), None, Snapshot(table.heap), old(tx.undo_log), tx.undo_log)
    ensures old(Alone(table.locks.table, tx.Info(), tx.id)) ==>
              && Alone(table.locks.table, tx.Info(), tx.id)
              && (table.heap.store.failures == old(table.heap.store.failures) ==> bytes == Found(table.heap.Map(), rid))
  {
    hide Alone, ChainOf, HeapMap, Kept, LockNow, Grown, Took;
    ghost var v, chain, log := table.heap.store.pages, table.heap.chain, tx.undo_log;
    if Alone(table.locks.table, tx.Info(), tx.id) {
      AloneLocks(table.locks.table, tx.Info(), tx.id, rid, Shared);
    }
    bytes := table.GetTuple(rid, tx);
    KeptItself(v, chain);
    assert log + [] == log;
    NothingTook(v, chain, table.heap.store.pages, chain, log, tx.undo_log);
  }

  /** One call. */
  method Do(table: Table, tx: Transaction, op: Op) returns (r: OpResult, ghost lost: bool)
    requires table.Valid(tx) && OpOK(op, table.heap.chain)
    modifies table.heap.store, table.heap`chain, table.locks, tx
    ensures table.Valid(tx) && old(table.heap.chain) <= table.heap.chain && Answers(op, r)
    ensures table.heap.store.failures >= old(table.heap.store.failures)
    ensures table.heap.store.failures == old(table.heap.store.failures) && !lost ==>
              Took(old(Snapshot(table.heap)), WriteOf(op, r), Snapshot(table.heap), old(tx.undo_log), tx.undo_log)
    ensures lost ==> LosesTuple(op, r)
    ensures old(Alone(table.locks.table, tx.Info(), tx.id)) ==>
              && Alone(table.locks.table, tx.Info(), tx.id) && (lost ==> |op.tuple| > MAX_TUPLE)
              && (op.Get? && table.heap.store.failures == old(table.heap.store.failures) ==>
                    r == Reading(Found(old(table.heap.Map()), op.rid)))
  {
    hide Alone, ChainOf, HeapMap, Took, StoreOf;
    lost := false;
    if op.Insert? {
      var result := DoInsert(table, tx, op.tuple);
      r := Placement(result);
    } else if op.Delete? {
      var ok := DoDelete(table, tx, op.rid);
      r := Deletion(ok);
    } else if op.Update? {
      var result;
      result, lost := DoUpdate(table, tx, op.rid, op.tuple);
      r := Placement(result);
    } else {
      var bytes := DoGet(table, tx, op.rid);
      r := Reading(bytes);
    }
  }

  lemma KeptPrefix(v: View, v': View, chain: seq<nat>, chain': seq<nat>)
    requires Kept(v, v', chain, chain')
    ensures chain <= chain'
  {
  }

  lemma NoOverrun(v: View, chain: seq<nat>, rid: RID, n: nat)
    requires ChainOf(v, chain) && rid.page in chain && n < 0x1_0000
    ensures rid.page in v && Layout(v[rid.page]) && !Overruns(v[rid.page], rid.slot, n)
  {
    hide Layout;
  }

  /**
   * The calls of a transaction, `results` being what they handed back: `states` are the tuples
   * and directories before the first of the writes they report, between these writes, and now.
   */
  ghost predicate Ran(ops: seq<Op>, results: seq<OpResult>, states: seq<Store>, m0: TupleMap) {
    && |results| == |ops| && (forall i | 0 <= i < |ops| :: Answers(ops[i], results[i]))
    && History(WritesOf(ops, results), states) && states[0].tuples == m0
  }

  /** The calls from `begin` on, and what they have left. Some update lost a tuple if `lost` is set. */
  method RunOps(table: Table, tx: Transaction, ops: seq<Op>)
    returns (results: seq<OpResult>, ghost lost: bool, ghost states: seq<Store>)
    requires table.Valid(tx) && tx.undo_log == []
    requires forall i | 0 <= i < |ops| :: OpOK(ops[i], table.heap.chain)
    modifies table.heap.store, table.heap`chain, table.locks, tx
    ensures table.Valid(tx) && table.heap.store.failures >= old(table.heap.store.failures) && |results| == |ops|
    ensures forall i | 0 <= i < |ops| :: Answers(ops[i], results[i])
    ensures table.heap.store.failures == old(table.heap.store.failures) && !lost ==>
              Logged(WritesOf(ops, results), states, tx.undo_log, old(table.heap.Map()), Snapshot(table.heap))
    ensures old(Alone(table.locks.table, tx.Info(), tx.id)) ==>
              table.heap.store.failures == old(table.heap.store.failures) && !lost ==> ReadsSeen(ops, results, states)
    ensures lost ==> exists i | 0 <= i < |ops| :: LosesTuple(ops[i], results[i])
    ensures old(Alone(table.locks.table, tx.Info(), tx.id)) && lost ==>
              exists i | 0 <= i < |ops| :: LosesTuple(ops[i], results[i]) && |ops[i].tuple| > MAX_TUPLE
  {
    hide Alone, ChainOf, HeapMap, Logged, Took, WriteOf, Answers, Log, History, ReadsSeen, SameTuples, Found, StoreOf,
         WritesOf, Reported;
    ghost var m0 := table.heap.Map();
    results, lost, states := [], false, [Snapshot(table.heap)];
    SnapshotMap(table.heap);
    NothingDone();
    NothingLogged(Snapshot(table.heap));
    NothingSeen(states);
    for i := 0 to |ops|
      invariant table.Valid(tx) && old(table.heap.chain) <= table.heap.chain && |results| == i
      invariant table.heap.store.failures >= old(table.heap.store.failures)
      invariant forall j | 0 <= j < i :: Answers(ops[j], results[j])
      invariant table.heap.store.failures == old(table.heap.store.failures) && !lost ==>
                  Logged(WritesOf(ops[..i], results), states, tx.undo_log, m0, Snapshot(table.heap))
      invariant old(Alone(table.locks.table, tx.Info(), tx.id)) ==>
                  table.heap.store.failures == old(table.heap.store.failures) && !lost ==>
                    ReadsSeen(ops[..i], results, states)
      invariant lost ==> exists j | 0 <= j < i :: LosesTuple(ops[j], results[j])
      invariant old(Alone(table.locks.table, tx.Info(), tx.id)) ==>
                  && Alone(table.locks.table, tx.Info(), tx.id)
                  && (lost ==> exists j | 0 <= j < i :: LosesTuple(ops[j], results[j]) && |ops[j].tuple| > MAX_TUPLE)
    {
      StillOK(ops[i], old(table.heap.chain), table.heap.chain);
      SnapshotMap(table.heap);
      ghost var before, log := Snapshot(table.heap), tx.undo_log;
      ghost var good := table.heap.store.failures == old(table.heap.store.failures) && !lost;
      var r, lost' := Do(table, tx, ops[i]);
      WritesOn(ops[..i], results, ops[i], r);
      if good && table.heap.store.failures == old(table.heap.store.failures) && !lost' {
        ghost var writes := WritesOf(ops[..i], results);
        LastState(writes, states, log, m0, before);
        ghost var states' := LoggedOn(writes, states, log, m0, before, WriteOf(ops[i], r), Snapshot(table.heap),
                                      tx.undo_log);
        SameAt(states, states', |writes|);
        if old(Alone(table.locks.table, tx.Info(), tx.id)) {
          ReadsSeenOn(ops[..i], results, states, ops[i], r, states');
        }
        states := states';
      }
      assert ops[..i + 1] == ops[..i] + [ops[i]];
      ghost var earlier := results;
      results, lost := results + [r], lost || lost';
      assert forall j | 0 <= j < i :: results[j] == earlier[j];
      assert lost' ==> LosesTuple(ops[i], results[i]);
    }
    assert ops[..|ops|] == ops;
  }

  lemma SnapshotMap(heap: TableHeap)
    requires heap.Valid()
    ensures Snapshot(heap).tuples == heap.Map()
  {
    hide ChainOf, HeapMap;
  }

  lemma NothingDone()
    ensures WritesOf([], []) == []
  {
  }

  lemma WritesOn(ops: seq<Op>, results: seq<OpResult>, op: Op, r: OpResult)
    requires |ops| == |results|
    ensures WritesOf(ops + [op], results + [r]) == WritesOf(ops, results) + Reported(WriteOf(op, r))
  {
    hide WriteOf;
    assert (ops + [op])[..|ops|] == ops && (results + [r])[..|ops|] == results;
  }

  /** An update that reports no RID; it may have taken out the tuple all the same. */
  predicate LosesTuple(op: Op, r: OpResult) { op.Update? && r.Placement? && !r.result.Placed? }

  /**
   * A transaction that makes any calls on a table and aborts leaves the tuples as it found
   * them, provided every page could be had, no update lost a tuple, and the rollback could be
   * carried out. It can exactly if, in the history of the writes that the calls report, every
   * page that lost a tuple, as it was before that, fits with the directory it has at the end.
   * If nobody else holds locks, reads see the writes before them, and no update loses a tuple
   * if the new tuples fit a page.
   */
  method RunAndAbort(manager: TransactionManager, table: Table, ops: seq<Op>)
    returns (results: seq<OpResult>, ok: bool, ghost lost: bool, ghost states: seq<Store>)
    requires manager.Valid() && table.heap.Valid() && table.locks == manager.locks
    requires forall i | 0 <= i < |ops| :: OpOK(ops[i], table.heap.chain)
    modifies manager, manager.locks, table.heap.store, table.heap`chain
    ensures table.heap.Valid() && table.heap.store.failures >= old(table.heap.store.failures) && |results| == |ops|
    ensures table.heap.store.failures == old(table.heap.store.failures) && !lost ==>
              && Ran(ops, results, states, old(table.heap.Map()))
              && states[|states| - 1].slots == Snapshot(table.heap).slots
              && (ok <==> AllFitGrown(WritesOf(ops, results), states, Snapshot(table.heap).slots))
              && (ok ==> table.heap.Map() == old(table.heap.Map()))
              && (old(Unlocked(manager.locks.table)) ==> ReadsSeen(ops, results, states))
    ensures lost ==> exists i | 0 <= i < |ops| :: LosesTuple(ops[i], results[i])
    ensures old(Unlocked(manager.locks.table)) && lost ==>
              exists i | 0 <= i < |ops| :: LosesTuple(ops[i], results[i]) && |ops[i].tuple| > MAX_TUPLE
  {
    hide ChainOf, HeapMap, Kept, Logged, Rollback, RollbackFits, AllFitGrown, History, WritesOf, Answers, Log,
         ReadsSeen;
    ghost var m0 := table.heap.Map();
    var tx := manager.Begin();
    results, lost, states := RunOps(table, tx, ops);
    if table.heap.store.failures == old(table.heap.store.failures) && !lost {
      LoggedRollback(WritesOf(ops, results), states, tx.undo_log, m0, Snapshot(table.heap));
      LoggedHistory(WritesOf(ops, results), states, tx.undo_log, m0, Snapshot(table.heap));
    }
    ok := manager.Abort(tx, table);
  }

  lemma LoggedHistory(writes: seq<Write>, states: seq<Store>, log: seq<UndoRecord>, m0: TupleMap, s: Store)
    requires Logged(writes, states, log, m0, s)
    ensures History(writes, states) && states[0].tuples == m0 && |states| == |writes| + 1 && states[|writes|] == s
  {
    hide IsWrite, Log;
  }

  ghost predicate Unlocked(table: LockTable) {
    forall rid | rid in table :: forall r | r in table[rid] :: !r.granted
  }

  /** A tuple taken out of page `p` goes to slot 0 of page `q`, the only other one, if that is empty. */
  lemma MovesToEmpty(v: View, chain: seq<nat>, chain': seq<nat>, p: nat, q: nat, to: RID, n: nat)
    requires ChainOf(v, chain) && chain == [p, q] && chain <= chain' && Empty(v[q]) && n <= MAX_TUPLE
    requires NextFit(v, chain, chain', p, to.page, n) && LowestFree(HeapMap(v, chain), to)
    ensures to == RID(q, 0)
  {
    var k: nat :| k < |chain'| && chain'[k] == to.page && OthersTakeNot(v, chain, k, p, n)
                  && (k < |chain| ==> to.page in v && to.page == chain[k] && PageTakes(v[to.page], n));
    EmptyTakes(v[q], n);
    Lookup(v, chain, RID(q, 0));
    hide PageTakes, Layout, Tuples, HeapMap;
    assert chain[1] == q && chain'[1] == q && chain'[0] == p;
  }

  /**
   * An update can lose the tuple it moves. Page `p` is too full for the new tuple, and the other
   * page, `q`, is empty, but another transaction has read the RID that the heap will use there,
   * in vain. After the abort the new tuple is there and the old one is gone.
   */
  method LoseMovedTuple(manager: TransactionManager, table: Table, rid: RID, tuple: seq<byte>, p: nat, q: nat)
    returns (r: HeapResult, ok: bool)
    requires manager.Valid() && table.heap.Valid() && table.locks == manager.locks && manager.locks.table == map[]
    requires table.heap.chain == [p, q] && rid.page == p && Found(table.heap.Map(), rid).Some? && |tuple| <= MAX_TUPLE
    requires Empty(table.heap.store.pages[q]) && !KeepsRid(table.heap.store.pages[p], rid.slot, |tuple|)
    modifies manager, manager.locks, table.heap.store, table.heap`chain
    ensures table.heap.Valid()
    ensures table.heap.store.failures == old(table.heap.store.failures) ==>
              && r == Nothing && ok
              && table.heap.Map() == (old(table.heap.Map()) - {rid})[RID(q, 0) := tuple]
              && table.heap.Map() != old(table.heap.Map())
  {
    hide ChainOf, HeapMap, Kept, LockNow, KeepsRid, Empty, Layout, StoreOf, RollbackFits, Rollback, Found;
    var reader := manager.Begin();
    var writer := manager.Begin();
    var _ := table.GetTuple(RID(q, 0), reader);
    FreeReadGranted(reader.id, RID(q, 0));
    r := UpdateLosing(table, writer, reader.id, rid, tuple, p, q);
    RollbackDone(Snapshot(table.heap).slots, table.heap.Map());
    ok := manager.Abort(writer, table);
  }

  method UpdateLosing(table: Table, tx: Transaction, ghost reader: nat, rid: RID, tuple: seq<byte>, p: nat, q: nat)
    returns (r: HeapResult)
    requires table.Valid(tx) && tx.Info() == TxInfo(Growing, {}, {}) && tx.undo_log == [] && tx.id != reader
    requires table.locks.table == map[RID(q, 0) := [Request(reader, Shared, true)]]
    requires table.heap.chain == [p, q] && rid.page == p && Found(table.heap.Map(), rid).Some? && |tuple| <= MAX_TUPLE
    requires Empty(table.heap.store.pages[q]) && !KeepsRid(table.heap.store.pages[p], rid.slot, |tuple|)
    modifies table.heap.store, table.heap`chain, table.locks, tx
    ensures table.Valid(tx) && table.heap.store.failures >= old(table.heap.store.failures)
    ensures table.heap.store.failures == old(table.heap.store.failures) ==>
              && r == Nothing && tx.undo_log == []
              && table.heap.Map() == (old(table.heap.Map()) - {rid})[RID(q, 0) := tuple]
              && table.heap.Map() != old(table.heap.Map())
  {
    hide ChainOf, HeapMap, Kept, LockNow, NextFit, LowestFree, KeepsRid, Overruns, Empty, Layout, LockBoth, Records,
         WellFormed, Grown, Tuples, CanWrite;
    ghost var v, chain, m := table.heap.store.pages, table.heap.chain, table.heap.Map();
    NoOverrun(v, chain, rid, |tuple|);
    NotSamePage(v, chain, p, q);
    MoveRefused(reader, tx.id, rid, RID(q, 0));
    ghost var to: RID;
    r, to := table.UpdateTuple(rid, tuple, tx);
    KeptPrefix(v, table.heap.store.pages, chain, table.heap.chain);
    if to != rid {
      MovesToEmpty(v, chain, table.heap.chain, p, q, to, |tuple|);
    }
  }

  lemma NotSamePage(v: View, chain: seq<nat>, p: nat, q: nat)
    requires ChainOf(v, chain) && chain == [p, q]
    ensures p != q
  {
    assert chain[0] == p && chain[1] == q;
  }

  lemma StillOK(op: Op, chain: seq<nat>, chain': seq<nat>)
    requires OpOK(op, chain) && chain <= chain'
    ensures OpOK(op, chain')
  {
  }
}
