/** Tables of rows: the checks and the encoding between a row and the bytes a heap keeps. */
module Rows {
  import opened Bytes
  import opened Options
  import opened PageLayout
  import opened HeapModel
  import opened TableHeaps
  import opened LockProtocol
  import opened Undo
  import opened Transactions
  import Schemas
  import TupleCodec

  /** A row with the schema it was made for. */
  datatype Tuple = Tuple(schema: Schemas.Schema, row: seq<Schemas.ColumnValue>)

  datatype RowError = Incompatible | Unserializable(error: TupleCodec.EncodeError)

  /** What the table did, or the exception thrown before the heap was touched. */
  datatype RowResult = Done(result: HeapResult) | Thrown(error: RowError)

  ghost function BytesOf(tuple: Tuple): seq<byte>
    requires Schemas.WellTyped(tuple.schema, tuple.row)
  {
    var e := TupleCodec.Encode(tuple.schema, tuple.row);
    if e.Raw? then e.bytes else []
  }

  /** The exception for a tuple this table cannot take, whatever the heap looks like. */
  function Rejected(schema: Schemas.Schema, tuple: Tuple): Option<RowError>
    requires Schemas.WellTyped(tuple.schema, tuple.row)
  {
    if tuple.schema != schema then Some(Incompatible)
    else match TupleCodec.Encode(tuple.schema, tuple.row)
         case Failed(error) => Some(Unserializable(error))
         case Raw(_) => None
  }

  /** The schema is compared first; then a row is rejected as its first value over a limit is. */
  lemma RejectedMeans(schema: Schemas.Schema, tuple: Tuple, e: TupleCodec.EncodeError)
    requires Schemas.WellTyped(tuple.schema, tuple.row)
    ensures Rejected(schema, tuple) == Some(Incompatible) <==> tuple.schema != schema
    ensures Rejected(schema, tuple) == Some(Unserializable(e)) <==>
              && tuple.schema == schema
              && exists i: nat | i < |tuple.row| :: TupleCodec.FirstExceeds(tuple.schema, tuple.row, i, e)
    ensures Rejected(schema, tuple) == None ==> TupleCodec.Encode(schema, tuple.row) == TupleCodec.Raw(BytesOf(tuple))
  {
    TupleCodec.EncodeErrs(tuple.schema, tuple.row, |tuple.row|, e);
    hide TupleCodec.EncodeTo, TupleCodec.FirstExceeds;
  }

  class RowTable {
    const table: Table
    const schema: Schemas.Schema

    constructor (table: Table, schema: Schemas.Schema)
      ensures this.table == table && this.schema == schema
    {
      this.table, this.schema := table, schema;
    }

    /**
     * A rejected row changes neither heap nor locks nor log. One that is not is inserted as its
     * bytes: if they fit a page and nothing fails it is placed unless the lock on its RID, `to`,
     * is refused, and if it is not placed no tuple has changed. The lock is asked for, and the
     * undo record logged, as for the bytes.
     */
    method InsertTuple(tuple: Tuple, tx: Transaction?) returns (r: RowResult, ghost to: Option<RID>)
      requires table.Valid(tx) && Schemas.WellTyped(tuple.schema, tuple.row)
      modifies table.heap.store, table.heap`chain, table.locks, tx
      ensures table.Valid(tx)
      ensures r.Thrown? <==> Rejected(schema, tuple).Some?
      ensures r.Thrown? ==>
                && Some(r.error) == Rejected(schema, tuple)
                && table.heap.Map() == old(table.heap.Map()) && table.locks.table == old(table.locks.table)
                && (tx != null ==> tx.Info() == old(tx.Info()) && tx.undo_log == old(tx.undo_log))
      ensures table.heap.store.failures >= old(table.heap.store.failures)
      ensures Kept(old(table.heap.store.pages), table.heap.store.pages, old(table.heap.chain), table.heap.chain)
      ensures tx == null ==> table.locks.table == old(table.locks.table)
      ensures r.Thrown? ==> to == None
      ensures r.Done? && tx != null ==>
                && tx.undo_log == old(tx.undo_log) + (if r.result.Placed? then [DeleteUndo(r.result.rid)] else [])
                && var o := LockMaybe(old(table.locks.table), old(tx.Info()), tx.id, to);
                   && table.locks.table == o.table && tx.Info() == o.info
                   && (to.Some? ==> (r.result.Placed? <==> o.reply.Granted?))
      ensures r.Done? && !r.result.Placed? ==>
                || table.heap.Map() == old(table.heap.Map())
                || (to.Some? && table.heap.Map() == old(table.heap.Map())[to.value := BytesOf(tuple)])
      ensures r.Done? && table.heap.store.failures == old(table.heap.store.failures) ==>
                && (r.result == HeapResult.Threw(TupleTooLarge) <==> |BytesOf(tuple)| > MAX_TUPLE)
                && (to.None? <==> |BytesOf(tuple)| > MAX_TUPLE)
                && (to.Some? ==> r.result == (if LockedFor(tx, old(table.locks.table), old(InfoOf(tx)), to.value)
                                              then Placed(to.value) else Nothing))
                && (!r.result.Placed? ==> table.heap.Map() == old(table.heap.Map()))
      ensures to.Some? ==>
                && LowestFree(old(table.heap.Map()), to.value)
                && FirstFit(old(table.heap.store.pages), old(table.heap.chain), table.heap.chain, to.value.page,
                            |BytesOf(tuple)|)
      ensures r.Done? && r.result.Placed? ==>
                && to == Some(r.result.rid)
                && IsWrite(old(Snapshot(table.heap)), Insert(r.result.rid, BytesOf(tuple)), Snapshot(table.heap))
    {
      hide Kept, ChainOf, HeapMap, WellFormed, Grown, StoreOf, IsWrite, LowestFree, FirstFit, LockNow;
      to := None;
      KeptItself(table.heap.store.pages, table.heap.chain);
      if tuple.schema != schema {
        return Thrown(Incompatible), None;
      }
      var bytes := TupleCodec.Serialize(tuple.schema, tuple.row);
      if bytes.Failed? {
        return Thrown(Unserializable(bytes.error)), None;
      }
      var result;
      result, to := table.InsertTuple(bytes.bytes, tx);
      r := Done(result);
    }

    /**
     * The schema is checked before anything else, but a row is encoded only when its RID is
     * locked and found: an encoding error leaves the lock behind. `to` is where the tuple is
     * now, if it is. Locks are asked for, and undo records logged, as for the bytes.
     */
    method UpdateTuple(rid: RID, tuple: Tuple, tx: Transaction?) returns (r: RowResult, ghost to: RID)
      requires table.Valid(tx) && rid.page in table.heap.chain && Schemas.WellTyped(tuple.schema, tuple.row)
      requires !Overruns(table.heap.store.pages[rid.page], rid.slot, |BytesOf(tuple)|)
      modifies table.heap.store, table.heap`chain, table.locks, tx
      ensures table.Valid(tx)
      ensures tuple.schema != schema <==> r == Thrown(Incompatible)
      ensures r.Thrown? ==>
                && Some(r.error) == Rejected(schema, tuple) && table.heap.Map() == old(table.heap.Map())
                && (tx != null ==> tx.undo_log == old(tx.undo_log))
      ensures r == Thrown(Incompatible) && tx != null ==>
                tx.Info() == old(tx.Info()) && table.locks.table == old(table.locks.table)
      ensures r.Thrown? && r.error.Unserializable? && tx != null ==>
                var o := LockNow(old(table.locks.table), old(tx.Info()), tx.id, rid, Exclusive);
                o.reply.Granted? && tx.Info() == o.info && table.locks.table == o.table
      ensures table.heap.store.failures >= old(table.heap.store.failures)
      ensures Kept(old(table.heap.store.pages), table.heap.store.pages, old(table.heap.chain), table.heap.chain)
      ensures tx == null ==> table.locks.table == old(table.locks.table)
      ensures r.Thrown? ==> to == rid
      ensures r.Done? && (r.result.Placed? || to != rid) ==>
                && Rejected(schema, tuple).None? && (r.result.Placed? ==> r.result.rid == to)
                && IsWrite(old(Snapshot(table.heap)), Update(rid, to, BytesOf(tuple)), Snapshot(table.heap))
      ensures to != rid ==>
                && LowestFree(old(table.heap.Map()), to)
                && NextFit(old(table.heap.store.pages), old(table.heap.chain), table.heap.chain, rid.page, to.page,
                           |BytesOf(tuple)|)
      ensures r.Done? && tx != null ==>
                && tx.undo_log == old(tx.undo_log) + (if r.result.Placed?
                    then Records(old(table.heap.Map()), Update(rid, to, BytesOf(tuple))) else [])
                && var o := LockBoth(old(table.locks.table), old(tx.Info()), tx.id, rid, to);
                   && table.locks.table == o.table && tx.Info() == o.info
                   && (r.result.Placed? ==> o.reply.Granted?)
                   && (to != rid && !r.result.Placed? ==> o.reply.Refused? && r.result == Nothing)
      ensures r.Done? && !r.result.Placed? && to == rid ==>
                || table.heap.Map() == old(table.heap.Map())
                || (rid in old(table.heap.Map()) && table.heap.Map() == old(table.heap.Map()) - {rid})
      ensures r.Done? && table.heap.store.failures == old(table.heap.store.failures) ==>
                if LockedFor(tx, old(table.locks.table), old(InfoOf(tx)), rid)
                && Found(old(table.heap.Map()), rid).Some?
                then
                  && Rejected(schema, tuple).None?
                  && if |BytesOf(tuple)| > MAX_TUPLE
                     then r.result == HeapResult.Threw(TupleTooLarge)
                          && table.heap.Map() == old(table.heap.Map()) - {rid} && to == rid
                     else
                       && (to == rid <==>
                             KeepsRid(old(table.heap.store.pages[rid.page]), rid.slot, |BytesOf(tuple)|))
                       && (to == rid ==> r.result.Placed?)
                       && (to != rid ==> (r.result.Placed? <==> tx == null || MovedToo(tx, old(table.locks.table),
                                                                                       old(InfoOf(tx)), rid, to)))
                else r.result == Nothing && table.heap.Map() == old(table.heap.Map()) && to == rid
    {
      hide Kept, ChainOf, HeapMap, WellFormed, Grown, StoreOf, IsWrite, LockNow, Overruns, Layout, KeepsRid,
           LowestFree, NextFit, Records, Written;
      to := rid;
      KeptItself(table.heap.store.pages, table.heap.chain);
      if tuple.schema != schema {
        return Thrown(Incompatible), rid;
      }
      var bytes := TupleCodec.Serialize(tuple.schema, tuple.row);
      if bytes.Raw? {
        var result;
        result, to := table.UpdateTuple(rid, bytes.bytes, tx);
        return Done(result), to;
      }
      r := UpdateFails(rid, bytes.error, tx);
    }

    /** What happens to a row that cannot be encoded. */
    method UpdateFails(rid: RID, error: TupleCodec.EncodeError, tx: Transaction?) returns (r: RowResult)
      requires table.Valid(tx) && rid.page in table.heap.chain
      modifies table.heap.store`failures, table.locks, tx
      ensures table.Valid(tx) && table.heap.Map() == old(table.heap.Map())
                && (tx != null ==> tx.undo_log == old(tx.undo_log))
      ensures r == Done(Nothing) || r == Thrown(Unserializable(error))
      ensures tx == null ==> table.locks.table == old(table.locks.table)
      ensures table.heap.store.failures >= old(table.heap.store.failures)
      ensures table.heap.store.failures == old(table.heap.store.failures) ==>
                (r.Thrown? <==> LockedFor(tx, old(table.locks.table), old(InfoOf(tx)), rid)
                                && Found(table.heap.Map(), rid).Some?)
      ensures tx != null ==>
                var o := LockNow(old(table.locks.table), old(tx.Info()), tx.id, rid, Exclusive);
                tx.Info() == o.info && table.locks.table == o.table && (r.Thrown? ==> o.reply.Granted?)
    {
      hide ChainOf, HeapMap, LockNow;
      if tx != null {
        LockedOrNot(table.locks.table, tx.Info(), tx.id, rid, Exclusive);
      }
      var granted := table.Acquire(tx, rid, Exclusive);
      if !granted {
        return Done(Nothing);
      }
      var found := table.heap.GetTuple(rid);
      r := if found.Some? then Thrown(Unserializable(error)) else Done(Nothing);
    }

    /**
     * The row at a RID, if the shared lock is granted; the inner none stands for bytes that are
     * read beyond their end.
     */
    method GetTuple(rid: RID, tx: Transaction?) returns (r: Option<Option<seq<Schemas.ColumnValue>>>)
      requires table.Valid(tx) && rid.page in table.heap.chain
      modifies table.heap.store`failures, table.locks, tx
      ensures table.Valid(tx) && table.heap.store.failures >= old(table.heap.store.failures)
      ensures tx != null ==>
                && tx.undo_log == old(tx.undo_log)
                && var o := LockNow(old(table.locks.table), old(tx.Info()), tx.id, rid, Shared);
                   table.locks.table == o.table && tx.Info() == o.info && (r.Some? ==> o.reply.Granted?)
      ensures tx == null ==> table.locks.table == old(table.locks.table)
      ensures r.Some? ==> r == RowAt(table.heap.Map(), rid, schema)
      ensures table.heap.store.failures == old(table.heap.store.failures)
              && (tx == null || LockNow(old(table.locks.table), old(tx.Info()), tx.id, rid, Shared).reply.Granted?) ==>
                r == RowAt(table.heap.Map(), rid, schema)
    {
      hide ChainOf, HeapMap, LockNow, TupleCodec.Decode;
      var bytes := table.GetTuple(rid, tx);
      if bytes.None? {
        return None;
      }
      var row := TupleCodec.Deserialize(bytes.value, schema);
      r := Some(row);
    }
  }

  function InfoOf(tx: Transaction?): TxInfo
    reads tx
  {
    if tx == null then TxInfo(Growing, {}, {}) else tx.Info()
  }

  /** The exclusive lock is granted, or none is needed. */
  predicate LockedFor(tx: Transaction?, table: LockTable, info: TxInfo, rid: RID) {
    tx == null || LockNow(table, info, tx.id, rid, Exclusive).reply.Granted?
  }

  /** Both locks of an update that moves its tuple are granted. */
  predicate MovedToo(tx: Transaction, table: LockTable, info: TxInfo, rid: RID, to: RID) {
    LockBoth(table, info, tx.id, rid, to).reply.Granted?
  }

  /** The row that a heap holds at a RID. */
  function RowAt(m: TupleMap, rid: RID, schema: Schemas.Schema): Option<Option<seq<Schemas.ColumnValue>>> {
    match Found(m, rid)
    case None => None
    case Some(bytes) => Some(TupleCodec.Decode(bytes, schema))
  }

  /**
   * A row once inserted or updated is found where it was put, CHAR values without their
   * trailing zeros, for as long as its entry of the map stays, unless the schema has a CHAR(0)
   * column. Nothing that fits a page is long enough for the other limits of the format.
   */
  lemma RowComesBack(tuple: Tuple, m: TupleMap, rid: RID)
    requires Schemas.WellTyped(tuple.schema, tuple.row) && tuple.row != [] && !TupleCodec.HasEmptyChar(tuple.schema)
    requires Rejected(tuple.schema, tuple).None? && |BytesOf(tuple)| <= MAX_TUPLE
    requires rid in m && m[rid] == BytesOf(tuple)
    ensures RowAt(m, rid, tuple.schema) == Some(Some(TupleCodec.StrippedRow(tuple.schema, tuple.row)))
  {
    hide TupleCodec.Encode, TupleCodec.Decode, TupleCodec.Representable, TupleCodec.StrippedRow;
    RowNotEmpty(tuple);
    TupleCodec.SmallRepresentable(tuple.schema, tuple.row);
    TupleCodec.RoundTrip(tuple.schema, tuple.row);
  }

  lemma RowNotEmpty(tuple: Tuple)
    requires Schemas.WellTyped(tuple.schema, tuple.row) && tuple.row != [] && Rejected(tuple.schema, tuple).None?
    ensures BytesOf(tuple) != []
  {
    TupleCodec.EncodedLength(tuple.schema, tuple.row, |tuple.row|);
  }
}
