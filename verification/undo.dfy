/** The undo log of a transaction, and what rolling back does to the map of tuples. */
module Undo {
  import opened Bytes
  import opened Options
  import opened PageLayout
  import opened HeapModel

  type TupleMap = map<RID, seq<byte>>

  datatype UndoRecord = DeleteUndo(rid: RID) | RestoreUndo(rid: RID, tuple: seq<byte>)

  // ---- rolling back ----

  function UndoOne(m: TupleMap, record: UndoRecord): TupleMap {
    match record
    case DeleteUndo(rid) => m - {rid}
    case RestoreUndo(rid, tuple) => m[rid := tuple]
  }

  /** Undo the records from the last to the first. */
  function Rollback(m: TupleMap, log: seq<UndoRecord>): TupleMap
    decreases |log|
  {
    if log == [] then m else Rollback(UndoOne(m, log[|log| - 1]), log[..|log| - 1])
  }

  /** The tuples of page `p`, by slot. */
  function Row(m: TupleMap, p: nat): (row: map<nat, seq<byte>>)
    ensures forall s: nat :: s in row <==> RID(p, s) in m
    ensures forall s: nat | s in row :: row[s] == m[RID(p, s)]
  {
    map r | r in m && r.page == p :: r.slot := m[r]
  }

  /** The bytes of the live tuples of page `p`, whose directory has `slots` slots. */
  ghost function Used(m: TupleMap, p: nat, slots: nat): nat { Sizes(Row(m, p), slots) }

  /** `n` more bytes and a directory of `slots` slots fit in page `p` next to its live tuples. */
  ghost predicate RoomFor(m: TupleMap, p: nat, slots: nat, n: nat) {
    HEADER_SIZE + SLOT_SIZE * slots + Used(m, p, slots) + n <= PAGE_SIZE
  }

  /** A restore puts the tuple into its old slot, which must be dead, and must find room. */
  ghost predicate CanUndo(slots: map<nat, nat>, m: TupleMap, record: UndoRecord) {
    record.RestoreUndo? ==>
      && record.rid.page in slots && record.rid.slot < slots[record.rid.page] && record.rid !in m
      && RoomFor(m, record.rid.page, slots[record.rid.page], |record.tuple|)
  }

  ghost predicate RollbackFits(slots: map<nat, nat>, m: TupleMap, log: seq<UndoRecord>)
    decreases |log|
  {
    log == [] ||
      (CanUndo(slots, m, log[|log| - 1]) && RollbackFits(slots, UndoOne(m, log[|log| - 1]), log[..|log| - 1]))
  }

  lemma RollbackStep(slots: map<nat, nat>, m: TupleMap, log: seq<UndoRecord>, record: UndoRecord)
    ensures Rollback(m, log + [record]) == Rollback(UndoOne(m, record), log)
    ensures RollbackFits(slots, m, log + [record])
       <==> CanUndo(slots, m, record) && RollbackFits(slots, UndoOne(m, record), log)
  {
    assert (log + [record])[..|log|] == log;
  }

  ghost predicate Names(log: seq<UndoRecord>, r: RID) {
    exists i :: 0 <= i < |log| && log[i].rid == r
  }

  /** The two maps have the same entry, or none, at `r`. */
  ghost predicate Agree(m: TupleMap, m': TupleMap, r: RID) {
    (r in m <==> r in m') && (r in m ==> m[r] == m'[r])
  }

  lemma {:induction false} RollbackAt(m: TupleMap, m': TupleMap, log: seq<UndoRecord>, r: RID)
    ensures Agree(Rollback(m, log), Rollback(m', log), r) <==> Agree(m, m', r) || Names(log, r)
    decreases |log|
  {
    if log != [] {
      var last, init := log[|log| - 1], log[..|log| - 1];
      RollbackAt(UndoOne(m, last), UndoOne(m', last), init, r);
      assert Names(log, r) <==> Names(init, r) || last.rid == r by {
        if Names(init, r) {
          var i :| 0 <= i < |init| && init[i].rid == r;
          assert log[i].rid == r;
        }
        if last.rid == r {
          assert log[|log| - 1].rid == r;
        }
      }
    }
  }

  /** A change is rolled back by a log that knows nothing of it exactly if the log names every RID that changed. */
  lemma RollbackForgets(m: TupleMap, m': TupleMap, log: seq<UndoRecord>)
    ensures Rollback(m, log) == Rollback(m', log) <==> forall r: RID :: Agree(m, m', r) || Names(log, r)
  {
    var a, b := Rollback(m, log), Rollback(m', log);
    forall r: RID ensures Agree(a, b, r) <==> Agree(m, m', r) || Names(log, r) {
      RollbackAt(m, m', log, r);
    }
    SameMap(a, b);
    hide Agree, Names;
  }

  lemma SameMap(a: TupleMap, b: TupleMap)
    ensures a == b <==> forall r: RID :: Agree(a, b, r)
  {
    if forall r: RID :: Agree(a, b, r) {
      forall r: RID ensures r in a <==> r in b {
        assert Agree(a, b, r);
      }
      forall r: RID | r in a ensures a[r] == b[r] {
        assert Agree(a, b, r);
      }
    }
  }

  // ---- what a transaction does ----

  /** The directory sizes of all pages, and all tuples. */
  datatype Store = Store(slots: map<nat, nat>, tuples: TupleMap)

  ghost predicate WellFormed(s: Store) {
    && (forall r | r in s.tuples :: r.page in s.slots && r.slot < s.slots[r.page])
    && (forall p | p in s.slots :: RoomFor(s.tuples, p, s.slots[p], 0))
  }

  /** A successful insert, delete or update; `to` differs from `rid` when the update moved the tuple. */
  datatype Write = Insert(rid: RID, tuple: seq<byte>) | Delete(rid: RID) | Update(rid: RID, to: RID, tuple: seq<byte>)

  ghost predicate CanWrite(m: TupleMap, w: Write) {
    match w
    case Insert(rid, _) => rid !in m
    case Delete(rid) => rid in m
    case Update(rid, to, _) => rid in m && (to == rid || to !in m)
  }

  function Written(m: TupleMap, w: Write): TupleMap {
    match w
    case Insert(rid, tuple) => m[rid := tuple]
    case Delete(rid) => m - {rid}
    case Update(rid, to, tuple) => (m - {rid})[to := tuple]
  }

  /** What the write appends to the undo log. */
  function Records(m: TupleMap, w: Write): seq<UndoRecord>
    requires CanWrite(m, w)
  {
    match w
    case Insert(rid, _) => [DeleteUndo(rid)]
    case Delete(rid) => [RestoreUndo(rid, m[rid])]
    case Update(rid, to, _) => [RestoreUndo(rid, m[rid]), DeleteUndo(to)]
  }

  /** Rolling back over one write's own records lands where the write started. */
  lemma WriteUndone(slots: map<nat, nat>, m: TupleMap, log: seq<UndoRecord>, w: Write)
    requires CanWrite(m, w)
    ensures Rollback(Written(m, w), log + Records(m, w)) == Rollback(m, log)
    ensures w.Insert? ==> (RollbackFits(slots, Written(m, w), log + Records(m, w)) <==> RollbackFits(slots, m, log))
    ensures !w.Insert? ==>
              (RollbackFits(slots, Written(m, w), log + Records(m, w))
               <==> CanUndo(slots, m - {w.rid}, RestoreUndo(w.rid, m[w.rid])) && RollbackFits(slots, m, log))
  {
    match w
    case Insert(rid, tuple) =>
      RollbackStep(slots, Written(m, w), log, DeleteUndo(rid));
      assert m[rid := tuple] - {rid} == m;
    case Delete(rid) =>
      RollbackStep(slots, Written(m, w), log, RestoreUndo(rid, m[rid]));
      assert (m - {rid})[rid := m[rid]] == m;
    case Update(rid, to, tuple) =>
      var log1 := log + [RestoreUndo(rid, m[rid])];
      assert log + Records(m, w) == log1 + [DeleteUndo(to)];
      RollbackStep(slots, Written(m, w), log1, DeleteUndo(to));
      assert (m - {rid})[to := tuple] - {to} == m - {rid};
      RollbackStep(slots, m - {rid}, log, RestoreUndo(rid, m[rid]));
      assert (m - {rid})[rid := m[rid]] == m;
  }

  /** No page lost a slot. */
  ghost predicate Grown(slots: map<nat, nat>, slots': map<nat, nat>) {
    forall p | p in slots :: p in slots' && slots[p] <= slots'[p]
  }

  ghost predicate WriteAt(writes: seq<Write>, states: seq<Store>, i: nat)
    requires i < |writes| && |states| == |writes| + 1
  {
    IsWrite(states[i], writes[i], states[i + 1])
  }

  ghost predicate IsWrite(s: Store, w: Write, s': Store) {
    && WellFormed(s) && CanWrite(s.tuples, w)
    && s'.tuples == Written(s.tuples, w) && Grown(s.slots, s'.slots)
  }

  /** The successful writes of one transaction nobody else writes beside, and the states between them. */
  ghost predicate History(writes: seq<Write>, states: seq<Store>) {
    && |states| == |writes| + 1
    && (forall i: nat | i < |writes| :: WriteAt(writes, states, i))
  }

  ghost function Log(writes: seq<Write>, states: seq<Store>): seq<UndoRecord>
    requires History(writes, states)
    decreases |writes|
  {
    if writes == [] then [] else
      var n := |writes| - 1;
      assert WriteAt(writes, states, n);
      HistoryPrefix(writes, states);
      Log(writes[..n], states[..|writes|]) + Records(states[n].tuples, writes[n])
  }

  lemma HistoryPrefix(writes: seq<Write>, states: seq<Store>)
    requires History(writes, states) && writes != []
    ensures History(writes[..|writes| - 1], states[..|writes|])
  {
    hide WellFormed, Grown, CanWrite, Written;
    var n := |writes| - 1;
    var writes0, states0 := writes[..n], states[..n + 1];
    forall i: nat | i < n ensures WriteAt(writes0, states0, i) {
      assert WriteAt(writes, states, i);
    }
  }

  /**
   * The condition for write `i` to be undone once its page has `slots` slots: its page, as it
   * was before the write, fits with that directory. Inserts need none.
   */
  ghost predicate FitsGrown(m: TupleMap, w: Write, slots: map<nat, nat>)
  {
    !w.Insert? ==> w.rid.page in slots && RoomFor(m, w.rid.page, slots[w.rid.page], 0)
  }

  lemma RestoreNeeds(m: TupleMap, slots: map<nat, nat>, w: Write)
    requires CanWrite(m, w) && !w.Insert? && w.rid.page in slots && w.rid.slot < slots[w.rid.page]
    ensures CanUndo(slots, m - {w.rid}, RestoreUndo(w.rid, m[w.rid])) <==> FitsGrown(m, w, slots)
  {
    var rid := w.rid;
    assert Row(m - {rid}, rid.page) == Row(m, rid.page) - {rid.slot};
    SizesRemove(Row(m, rid.page), rid.slot, slots[rid.page]);
    hide Row, Sizes;
  }

  /** Every page that lost a tuple fits, as it was before, with the directory it has by now. */
  ghost predicate AllFitGrown(writes: seq<Write>, states: seq<Store>, slots: map<nat, nat>)
    requires |states| == |writes| + 1
  {
    forall i: nat | i < |writes| :: FitsGrown(states[i].tuples, writes[i], slots)
  }

  /**
   * Atomicity of rollback: from any history the undo log leads back to exactly the starting
   * tuples, and it can be carried out if and only if, for every delete and update, the page as
   * it was before that write fits together with the directory the page has by now.
   */
  lemma {:induction false} RollbackRestores(writes: seq<Write>, states: seq<Store>, slots: map<nat, nat>)
    requires History(writes, states)
    requires Grown(states[|writes|].slots, slots)
    ensures Rollback(states[|writes|].tuples, Log(writes, states)) == states[0].tuples
    ensures RollbackFits(slots, states[|writes|].tuples, Log(writes, states)) <==> AllFitGrown(writes, states, slots)
    decreases |writes|
  {
    if writes != [] {
      hide WriteAt, FitsGrown, AllFitGrown, Rollback, RollbackFits, Grown;
      var n := |writes| - 1;
      var writes0, states0 := writes[..n], states[..n + 1];
      LastWrite(writes, states);
      GrownFurther(states[n].slots, states[n + 1].slots, slots);
      RollbackRestores(writes0, states0, slots);
      LastFits(writes, states, slots);
      LastUndone(states[n], writes[n], Log(writes0, states0), slots);
      hide Written, Records, CanWrite, WellFormed;
    }
  }

  lemma LastUndone(s: Store, w: Write, log: seq<UndoRecord>, slots: map<nat, nat>)
    requires WellFormed(s) && CanWrite(s.tuples, w) && Grown(s.slots, slots)
    ensures Rollback(Written(s.tuples, w), log + Records(s.tuples, w)) == Rollback(s.tuples, log)
    ensures RollbackFits(slots, Written(s.tuples, w), log + Records(s.tuples, w))
       <==> FitsGrown(s.tuples, w, slots) && RollbackFits(slots, s.tuples, log)
  {
    WriteUndone(slots, s.tuples, log, w);
    if !w.Insert? {
      WrittenInSlots(s, slots, w);
      RestoreNeeds(s.tuples, slots, w);
    }
    hide Written, Records, WellFormed, Rollback, RollbackFits, CanUndo, RoomFor, Grown;
  }

  lemma LastWrite(writes: seq<Write>, states: seq<Store>)
    requires History(writes, states) && writes != []
    ensures var n, m := |writes| - 1, states[|writes| - 1].tuples;
            && History(writes[..n], states[..n + 1]) && WellFormed(states[n])
            && CanWrite(m, writes[n]) && states[n + 1].tuples == Written(m, writes[n])
            && Grown(states[n].slots, states[n + 1].slots)
            && Log(writes, states) == Log(writes[..n], states[..n + 1]) + Records(m, writes[n])
  {
    hide WellFormed, CanWrite, Written, Records, Grown;
    assert WriteAt(writes, states, |writes| - 1);
    HistoryPrefix(writes, states);
  }

  lemma GrownFurther(a: map<nat, nat>, b: map<nat, nat>, c: map<nat, nat>)
    requires Grown(a, b) && Grown(b, c)
    ensures Grown(a, c)
  {
  }

  lemma WrittenInSlots(s: Store, slots: map<nat, nat>, w: Write)
    requires WellFormed(s) && Grown(s.slots, slots) && CanWrite(s.tuples, w) && !w.Insert?
    ensures w.rid.page in slots && w.rid.slot < slots[w.rid.page]
  {
    hide RoomFor;
  }

  lemma LastFits(writes: seq<Write>, states: seq<Store>, slots: map<nat, nat>)
    requires |writes| > 0 && |states| == |writes| + 1
    ensures var n := |writes| - 1;
            AllFitGrown(writes, states, slots)
            <==> AllFitGrown(writes[..n], states[..n + 1], slots) && FitsGrown(states[n].tuples, writes[n], slots)
  {
    hide FitsGrown;
    var n, writes0, states0 := |writes| - 1, writes[..|writes| - 1], states[..|writes|];
    assert forall i: nat | i < n :: writes0[i] == writes[i] && states0[i] == states[i];
  }

  /** Rollback cannot fail when no page that lost a tuple has a larger directory than at that time. */
  lemma RollbackFitsUnlessGrown(writes: seq<Write>, states: seq<Store>)
    requires History(writes, states)
    requires forall i: nat | i < |writes| && !writes[i].Insert? ::
               writes[i].rid.page in states[|writes|].slots && writes[i].rid.page in states[i].slots
               && states[i].slots[writes[i].rid.page] == states[|writes|].slots[writes[i].rid.page]
    ensures RollbackFits(states[|writes|].slots, states[|writes|].tuples, Log(writes, states))
  {
    var last := states[|writes|].slots;
    hide WellFormed, CanWrite, FitsGrown, RollbackFits, Rollback;
    forall i: nat | i < |writes| ensures FitsGrown(states[i].tuples, writes[i], last) {
      assert WriteAt(writes, states, i);
      UngrownFits(states[i], writes[i], last);
    }
    RollbackRestores(writes, states, last);
  }

  lemma UngrownFits(s: Store, w: Write, slots: map<nat, nat>)
    requires WellFormed(s) && CanWrite(s.tuples, w)
    requires !w.Insert? ==> w.rid.page in slots && w.rid.page in s.slots && slots[w.rid.page] == s.slots[w.rid.page]
    ensures FitsGrown(s.tuples, w, slots)
  {
    hide RoomFor;
  }

  /**
   * Rollback can fail: a transaction deletes the one full-size tuple of a page and inserts two
   * small ones, the second in a new slot, and the deleted tuple no longer fits beside the
   * enlarged directory.
   */
  lemma RollbackCanFail(p: nat, big: seq<byte>, small: seq<byte>)
    returns (writes: seq<Write>, states: seq<Store>)
    requires |big| == PAGE_SIZE - HEADER_SIZE - SLOT_SIZE && |small| == 1
    ensures History(writes, states) && states[0] == Store(map[p := 1], map[RID(p, 0) := big])
    ensures writes == [Delete(RID(p, 0)), Insert(RID(p, 0), small), Insert(RID(p, 1), small)]
    ensures !RollbackFits(states[3].slots, states[3].tuples, Log(writes, states))
  {
    hide IsWrite, RoomFor, Rollback, RollbackFits, Log;
    var a, b := RID(p, 0), RID(p, 1);
    var s0, s1 := Store(map[p := 1], map[a := big]), Store(map[p := 1], map[]);
    var s2, s3 := Store(map[p := 1], map[a := small]), Store(map[p := 2], map[a := small, b := small]);
    FullPageWrites(p, big, small);
    writes, states := ThreeWrites(s0, Delete(a), s1, Insert(a, small), s2, Insert(b, small), s3);
    TooFull(p, big);
    assert !FitsGrown(states[0].tuples, writes[0], s3.slots);
    hide History, FitsGrown;
    RollbackRestores(writes, states, s3.slots);
  }

  lemma ThreeWrites(s0: Store, w0: Write, s1: Store, w1: Write, s2: Store, w2: Write, s3: Store)
    returns (writes: seq<Write>, states: seq<Store>)
    requires IsWrite(s0, w0, s1) && IsWrite(s1, w1, s2) && IsWrite(s2, w2, s3)
    ensures writes == [w0, w1, w2] && states == [s0, s1, s2, s3] && History(writes, states)
  {
    hide IsWrite;
    writes, states := [w0, w1, w2], [s0, s1, s2, s3];
  }

  lemma TooFull(p: nat, big: seq<byte>)
    requires |big| == PAGE_SIZE - HEADER_SIZE - SLOT_SIZE
    ensures !RoomFor(map[RID(p, 0) := big], p, 2, 0)
  {
    var row := Row(map[RID(p, 0) := big], p);
    SizesMonotone(row, 1, 2);
    assert Sizes(row, 1) == Sizes(row, 0) + |big|;
  }

  lemma FullPageWrites(p: nat, big: seq<byte>, small: seq<byte>)
    requires |big| == PAGE_SIZE - HEADER_SIZE - SLOT_SIZE && |small| == 1
    ensures var a, b := RID(p, 0), RID(p, 1);
            && IsWrite(Store(map[p := 1], map[a := big]), Delete(a), Store(map[p := 1], map[]))
            && IsWrite(Store(map[p := 1], map[]), Insert(a, small), Store(map[p := 1], map[a := small]))
            && IsWrite(Store(map[p := 1], map[a := small]), Insert(b, small),
                       Store(map[p := 2], map[a := small, b := small]))
  {
    hide WellFormed;
    OnePageFits(Store(map[p := 1], map[RID(p, 0) := big]), p);
    OnePageFits(Store(map[p := 1], map[]), p);
    OnePageFits(Store(map[p := 1], map[RID(p, 0) := small]), p);
  }

  lemma OnePageFits(s: Store, p: nat)
    requires p in s.slots && s.slots.Keys == {p} && s.slots[p] <= 2
    requires forall r | r in s.tuples :: r.page == p && r.slot < s.slots[p]
    requires HEADER_SIZE + SLOT_SIZE * s.slots[p] + Size(s.tuples, RID(p, 0)) + Size(s.tuples, RID(p, 1)) <= PAGE_SIZE
    ensures WellFormed(s)
  {
    var row := Row(s.tuples, p);
    assert Sizes(row, 2) == Size(s.tuples, RID(p, 0)) + Size(s.tuples, RID(p, 1)) by {
      assert Sizes(row, 1) == Sizes(row, 0) + Size(s.tuples, RID(p, 0));
    }
    SizesMonotone(row, s.slots[p], 2);
  }

  function Size(m: TupleMap, r: RID): nat { if r in m then |m[r]| else 0 }

  // ---- the same notions on the encoded pages ----

  ghost function Slots(v: View, chain: seq<nat>): map<nat, nat>
    requires ChainOf(v, chain)
  {
    map p | p in chain :: SlotCount(v[p])
  }

  ghost function StoreOf(v: View, chain: seq<nat>): Store
    requires ChainOf(v, chain)
  {
    Store(Slots(v, chain), HeapMap(v, chain))
  }

  lemma RowIsPage(v: View, chain: seq<nat>, p: nat)
    requires ChainOf(v, chain) && p in chain
    ensures Row(HeapMap(v, chain), p) == Tuples(v[p])
  {
    hide Layout, Tuples, HeapMap;
    forall s: nat ensures s in Row(HeapMap(v, chain), p) <==> s in Tuples(v[p])
                  ensures s in Tuples(v[p]) ==> Row(HeapMap(v, chain), p)[s] == Tuples(v[p])[s] {
      Lookup(v, chain, RID(p, s));
    }
  }

  /** A heap in memory is a well formed store. */
  lemma HeapWellFormed(v: View, chain: seq<nat>)
    requires ChainOf(v, chain)
    ensures WellFormed(StoreOf(v, chain))
  {
    forall r | r in HeapMap(v, chain) ensures r.page in chain && r.slot < SlotCount(v[r.page]) {
      Lookup(v, chain, r);
      TuplesInDirectory(v[r.page]);
    }
    forall p | p in chain ensures RoomFor(HeapMap(v, chain), p, SlotCount(v[p]), 0) {
      RowIsPage(v, chain, p);
    }
  }

  /** A page takes a tuple back exactly when the record can be undone. */
  lemma RestoreOnPage(v: View, chain: seq<nat>, rid: RID, tuple: seq<byte>)
    requires ChainOf(v, chain) && rid.page in chain
    ensures CanRestore(v[rid.page], rid.slot, |tuple|)
       <==> CanUndo(Slots(v, chain), HeapMap(v, chain), RestoreUndo(rid, tuple))
  {
    hide Layout, Tuples, HeapMap, Row;
    RowIsPage(v, chain, rid.page);
    Lookup(v, chain, rid);
  }

  lemma TupleBound(v: View, chain: seq<nat>, rid: RID)
    requires ChainOf(v, chain) && rid in HeapMap(v, chain)
    ensures |HeapMap(v, chain)[rid]| + HEADER_SIZE + SLOT_SIZE <= PAGE_SIZE
  {
    Lookup(v, chain, rid);
    TupleWithinPage(v[rid.page], rid.slot);
  }
}
