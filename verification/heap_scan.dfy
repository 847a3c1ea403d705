/** The cursor over a table heap: chain order, then slot order within a page. */
module HeapScans {
  import opened Bytes
  import opened Options
  import opened PageLayout
  import opened SlottedPages
  import opened HeapModel
  import opened TableHeaps

  datatype Row = Row(rid: RID, bytes: seq<byte>)

  /** The rows of one page in the slots `s` to `n`. */
  ghost function PageRows(m: map<nat, seq<byte>>, p: nat, s: nat, n: nat): seq<Row>
    decreases n - s
  {
    if s >= n then [] else (if s in m then [Row(RID(p, s), m[s])] else []) + PageRows(m, p, s + 1, n)
  }

  /** The rows of the pages of a chain from the `k`-th on. */
  ghost function ChainRows(v: View, chain: seq<nat>, k: nat): seq<Row>
    requires ChainOf(v, chain) && k <= |chain|
    decreases |chain| - k
  {
    if k == |chain| then [] else
      var d := v[chain[k]];
      PageRows(Tuples(d), chain[k], 0, SlotCount(d)) + ChainRows(v, chain, k + 1)
  }

  lemma {:induction false} DeadSlotsSkipped(m: map<nat, seq<byte>>, p: nat, s: nat, s': nat, n: nat)
    requires s <= s' && forall i: nat | s <= i < s' :: i !in m
    ensures PageRows(m, p, s, n) == if s' < n then PageRows(m, p, s', n) else []
    decreases s' - s
  {
    if s < s' {
      DeadSlotsSkipped(m, p, s + 1, s', n);
    }
  }

  lemma RowTaken(m: map<nat, seq<byte>>, p: nat, s: nat, n: nat, rest: seq<Row>)
    requires s in m && s < n
    ensures PageRows(m, p, s, n) + rest == [Row(RID(p, s), m[s])] + (PageRows(m, p, s + 1, n) + rest)
  {
  }

  lemma {:induction false} PageRowsOrdered(m: map<nat, seq<byte>>, p: nat, s: nat, n: nat)
    ensures forall row | row in PageRows(m, p, s, n) ::
              row.rid.page == p && s <= row.rid.slot < n && row.rid.slot in m && row.bytes == m[row.rid.slot]
    ensures forall i: nat | s <= i < n && i in m :: Row(RID(p, i), m[i]) in PageRows(m, p, s, n)
    ensures forall i, j :: 0 <= i < j < |PageRows(m, p, s, n)| ==>
              PageRows(m, p, s, n)[i].rid.slot < PageRows(m, p, s, n)[j].rid.slot
    decreases n - s
  {
    if s < n {
      PageRowsOrdered(m, p, s + 1, n);
    }
  }

  /** Chain order, then slot order. */
  ghost predicate Before(chain: seq<nat>, a: RID, b: RID) {
    || (a.page == b.page && a.slot < b.slot)
    || exists x, y :: 0 <= x < y < |chain| && chain[x] == a.page && chain[y] == b.page
  }

  lemma {:induction false} ChainRowsOrdered(v: View, chain: seq<nat>, k: nat)
    requires ChainOf(v, chain) && k <= |chain|
    ensures forall row | row in ChainRows(v, chain, k) ::
              row.rid.page in chain[k..] && row.rid.slot in Tuples(v[row.rid.page])
              && row.bytes == Tuples(v[row.rid.page])[row.rid.slot]
    ensures forall p, s | p in chain[k..] && s in Tuples(v[p]) ::
              Row(RID(p, s), Tuples(v[p])[s]) in ChainRows(v, chain, k)
    ensures forall i, j :: 0 <= i < j < |ChainRows(v, chain, k)| ==>
              Before(chain, ChainRows(v, chain, k)[i].rid, ChainRows(v, chain, k)[j].rid)
    decreases |chain| - k
  {
    hide Layout, Tuples;
    if k < |chain| {
      var p, d := chain[k], v[chain[k]];
      ChainRowsOrdered(v, chain, k + 1);
      PageRowsOrdered(Tuples(d), p, 0, SlotCount(d));
      TuplesInDirectory(d);
      var here, rest := PageRows(Tuples(d), p, 0, SlotCount(d)), ChainRows(v, chain, k + 1);
      assert chain[k..] == [p] + chain[k + 1..];
      var rows := here + rest;
      forall i, j | 0 <= i < j < |rows| ensures Before(chain, rows[i].rid, rows[j].rid) {
        if i < |here| <= j {
          var row := rest[j - |here|];
          assert row in rest && here[i] in here;
          var y :| 0 <= y < |chain[k + 1..]| && chain[k + 1..][y] == row.rid.page;
          assert chain[k + 1 + y] == row.rid.page;
        }
      }
    }
  }

  /**
   * The full stream of a scan holds each live RID with its bytes, once, in chain and slot order.
   */
  lemma ScanIsHeap(v: View, chain: seq<nat>)
    requires ChainOf(v, chain)
    ensures forall r | r in HeapMap(v, chain) :: Row(r, HeapMap(v, chain)[r]) in ChainRows(v, chain, 0)
    ensures forall row | row in ChainRows(v, chain, 0) ::
              row.rid in HeapMap(v, chain) && HeapMap(v, chain)[row.rid] == row.bytes
    ensures forall i, j :: 0 <= i < j < |ChainRows(v, chain, 0)| ==>
              && ChainRows(v, chain, 0)[i].rid != ChainRows(v, chain, 0)[j].rid
              && Before(chain, ChainRows(v, chain, 0)[i].rid, ChainRows(v, chain, 0)[j].rid)
  {
    hide Layout, Tuples, HeapMap;
    assert chain[0..] == chain;
    ChainRowsOrdered(v, chain, 0);
    forall r: RID ensures r in HeapMap(v, chain) <==> r.page in chain && r.slot in Tuples(v[r.page])
                  ensures r in HeapMap(v, chain) ==> HeapMap(v, chain)[r] == Tuples(v[r.page])[r.slot]
    {
      Lookup(v, chain, r);
    }
  }

  lemma PageUnderCursor(v: View, chain: seq<nat>, k: nat)
    requires ChainOf(v, chain) && k < |chain|
    ensures chain[k] in chain && chain[k] in v && Layout(v[chain[k]])
    ensures forall s | s in Tuples(v[chain[k]]) :: s < SlotCount(v[chain[k]])
  {
    assert chain[k] in chain;
  }

  /** The slot itself if it is live, else the next live one. */
  method FirstLive(frame: array<byte>, slot: nat) returns (live: Option<nat>)
    requires frame.Length == PAGE_SIZE && Layout(frame[..])
    ensures live.Some? ==> slot <= live.value && live.value in Tuples(frame[..])
    ensures forall i | i in Tuples(frame[..]) && slot <= i :: live.Some? && live.value <= i
  {
    hide Layout, Tuples;
    var slotted := new SlottedPage(frame);
    var here := slotted.HasSlot(slot);
    if here {
      return Some(slot);
    }
    live := slotted.NextOccupiedSlot(slot);
  }

  /** The RID under the cursor is that of the next row exactly if its slot is live. */
  lemma HeadUnderCursor(v: View, chain: seq<nat>, k: nat, slot: nat)
    requires ChainOf(v, chain) && k < |chain| && chain[k] in v && Layout(v[chain[k]])
    requires PageRows(Tuples(v[chain[k]]), chain[k], slot, SlotCount(v[chain[k]])) + ChainRows(v, chain, k + 1) != []
    ensures var p, d := chain[k], v[chain[k]];
            (PageRows(Tuples(d), p, slot, SlotCount(d)) + ChainRows(v, chain, k + 1))[0].rid == RID(p, slot) <==>
                slot in Tuples(d)
  {
    hide Layout, Tuples, PageRows, ChainRows;
    var p, d := chain[k], v[chain[k]];
    PageUnderCursor(v, chain, k);
    var here, rest := PageRows(Tuples(d), p, slot, SlotCount(d)), ChainRows(v, chain, k + 1);
    PageRowsOrdered(Tuples(d), p, slot, SlotCount(d));
    ChainRowsOrdered(v, chain, k + 1);
    if here == [] {
      assert rest[0] in rest;
      var i :| 0 <= i < |chain[k + 1..]| && chain[k + 1..][i] == rest[0].rid.page;
      assert chain[k + 1 + i] != p;
    } else {
      assert here[0] in here;
      if slot in Tuples(d) {
        var i :| 0 <= i < |here| && here[i] == Row(RID(p, slot), Tuples(d)[slot]);
      }
    }
  }

  /**
   * `current` is the page the cursor stands on, or null if the first page could not be had.
   * `pins` is what the cursor has pinned less what it has unpinned, `lost` the page changes
   * that failed: each of them gives up a pin and leaves the cursor where it was.
   */
  class HeapScan {
    const store: PageStore
    var rid: RID
    var current: array?<byte>
    ghost const chain: seq<nat>
    ghost var k: nat
    ghost var pins: int
    ghost var lost: nat

    ghost predicate Valid()
      reads this, store, if current == null then {} else {current}
    {
      && ChainOf(store.pages, chain)
      && pins == (if current == null then 0 else 1) - lost
      && (current != null ==>
            k < |chain| && rid.page == chain[k] && current[..] == store.pages[rid.page])
    }

    /** The rows still to come. */
    ghost function Remaining(): seq<Row>
      requires Valid()
      reads this, store, if current == null then {} else {current}
    {
      if current == null then [] else
        var d := store.pages[rid.page];
        PageRows(Tuples(d), rid.page, rid.slot, SlotCount(d)) + ChainRows(store.pages, chain, k + 1)
    }

    /** There is a live tuple under the cursor. */
    ghost predicate OnLive()
      requires Valid()
      reads this, store, if current == null then {} else {current}
    {
      current != null && rid.slot in Tuples(store.pages[rid.page])
    }

    lemma NextIsUnderCursor()
      requires Valid() && Remaining() != []
      ensures Remaining()[0].rid == rid <==> OnLive()
    {
      hide Layout, Tuples, ChainOf, PageRows, ChainRows;
      PageUnderCursor(store.pages, chain, k);
      HeadUnderCursor(store.pages, chain, k, rid.slot);
    }

    constructor (heap: TableHeap)
      requires heap.Valid()
      modifies heap.store`failures
      ensures Valid() && store == heap.store && chain == heap.chain && heap.store.failures >= old(heap.store.failures)
      ensures current == null || fresh(current)
      ensures lost == 0 && rid == RID(heap.first, 0)
      ensures heap.store.failures == old(heap.store.failures) ==>
                Remaining() == ChainRows(heap.store.pages, heap.chain, 0)
    {
      hide Layout, Tuples, PageRows;
      store := heap.store;
      chain := heap.chain;
      rid := RID(heap.first, 0);
      k := 0;
      current := null;
      pins, lost := 0, 0;
      new;
      current := store.FetchPage(heap.first);
      pins := if current == null then 0 else 1;
    }

    /**
     * Step to the first slot of the next page; false if there is none or it cannot be fetched.
     * The page left is unpinned before the fetch is tried.
     */
    method NextPage() returns (moved: bool)
      requires Valid() && current != null
      modifies this, store`failures
      ensures Valid() && current != null && (current == old(current) || fresh(current))
      ensures store.failures >= old(store.failures)
      ensures !moved ==> rid == old(rid) && k == old(k) && current == old(current)
      ensures moved ==> k == old(k) + 1 && rid.slot == 0 && store.failures == old(store.failures)
      ensures moved ==> Remaining() == ChainRows(store.pages, chain, k)
      ensures !moved && store.failures == old(store.failures) ==>
                k + 1 == |chain| && ChainRows(store.pages, chain, k + 1) == []
      ensures lost == old(lost) + if store.failures == old(store.failures) then 0 else 1
    {
      hide Layout, Tuples, PageRows;
      assert LinkedAt(store.pages, chain, k);
      assert k + 1 < |chain| ==> chain[k + 1] in chain;
      var next := ReadLink(current);
      if next == INVALID_PAGE {
        return false;
      }
      pins := pins - 1;
      var frame := store.FetchPage(next);
      if frame == null {
        lost := lost + 1;
        return false;
      }
      pins := pins + 1;
      current, k := frame, k + 1;
      rid := RID(next, 0);
      return true;
    }

    /** Move past dead slots of the current page; false if no live slot is left on it. */
    method SkipDead() returns (live: bool)
      requires Valid() && current != null
      modifies this`rid
      ensures Valid() && current != null && rid.page == old(rid.page) && Remaining() == old(Remaining())
      ensures live ==> rid.slot in Tuples(store.pages[rid.page])
      ensures !live ==> Remaining() == ChainRows(store.pages, chain, k + 1)
    {
      hide Layout, Tuples, ChainOf, PageRows, ChainRows;
      PageUnderCursor(store.pages, chain, k);
      ghost var d := store.pages[rid.page];
      var next := FirstLive(current, rid.slot);
      if next.Some? {
        DeadSlotsSkipped(Tuples(d), rid.page, rid.slot, next.value, SlotCount(d));
        rid := rid.(slot := next.value);
      } else {
        DeadSlotsSkipped(Tuples(d), rid.page, rid.slot, rid.slot + SlotCount(d), SlotCount(d));
      }
      live := next.Some?;
    }

    /** Hand out the row under the cursor and step behind it. */
    method TakeRow() returns (row: Row)
      requires Valid() && current != null && rid.slot in Tuples(store.pages[rid.page])
      modifies this`rid
      ensures Valid() && current != null && rid.page == old(rid.page)
      ensures old(Remaining()) == [row] + Remaining()
    {
      hide Layout, Tuples, ChainOf, PageRows, ChainRows;
      PageUnderCursor(store.pages, chain, k);
      ghost var d := store.pages[rid.page];
      var slotted := new SlottedPage(current);
      var tuple := slotted.GetTuple(rid.slot);
      row := Row(rid, tuple);
      RowTaken(Tuples(d), rid.page, rid.slot, SlotCount(d), ChainRows(store.pages, chain, k + 1));
      rid := rid.(slot := rid.slot + 1);
    }

    /** The destructor unpins the page under the cursor: one pin too many for every page change that failed. */
    method Close()
      requires Valid()
      modifies this`pins
      ensures pins + lost == 0
    {
      if current != null {
        pins := pins - 1;
      }
    }

    /**
     * The next row, or none at the end; over an unchanging heap the stream is handed out in
     * order. Once a page change has failed the page is no longer pinned, and nothing is said.
     */
    method Next() returns (row: Option<Row>)
      requires Valid()
      modifies this, store`failures
      ensures Valid() && (current == old(current) || fresh(current)) && store.failures >= old(store.failures)
      ensures lost == old(lost) + if store.failures == old(store.failures) then 0 else 1
      ensures store.failures != old(store.failures) ==> row.None? && Remaining() == old(Remaining())
      ensures lost == 0 ==>
                if old(Remaining()) == [] then row.None? && Remaining() == []
                else row == Some(old(Remaining())[0]) && Remaining() == old(Remaining())[1..]
    {
      hide Layout, Tuples, ChainOf, PageRows, ChainRows;
      ghost var rows := Remaining();
      while current != null
        invariant Valid() && (current == old(current) || fresh(current)) && store.failures == old(store.failures)
        invariant Remaining() == rows && lost == old(lost)
        decreases if current == null then 0 else |chain| - k
      {
        var live := SkipDead();
        if !live {
          var moved := NextPage();
          if moved {
            continue;
          }
          return None;
        }
        var taken := TakeRow();
        return Some(taken);
      }
      return None;
    }
  }
}
