/** Table heaps: tuples spread over a chain of slotted pages held by a page store. */
module TableHeaps {
  import opened Bytes
  import opened Options
  import opened PageLayout
  import opened SlottedPages
  import opened HeapModel

  const MAX_TUPLE: nat := PAGE_SIZE - HEADER_SIZE - SLOT_SIZE

  /**
   * The page store below a heap, as the buffer pool presents it. A visit to a page is a
   * FetchPage, operations on the frame, and a Release. Fetching and creating pages may
   * fail (no frame to be had); `failures` counts that.
   */
  class PageStore {
    var pages: View
    ghost var failures: nat

    constructor ()
      ensures pages == map[]
    {
      pages := map[];
      failures := 0;
    }

    method FetchPage(p: nat) returns (frame: array?<byte>)
      modifies this`failures
      ensures frame == null ==> failures > old(failures)
      ensures frame != null ==> failures == old(failures) && p in pages && fresh(frame) && frame[..] == pages[p]
    {
      var busy: bool := *;
      if busy || p !in pages {
        failures := failures + 1;
        return null;
      }
      var bytes := pages[p];
      frame := new byte[PAGE_SIZE](i requires 0 <= i < PAGE_SIZE => bytes[i]);
    }

    method Release(p: nat, frame: array<byte>)
      requires frame.Length == PAGE_SIZE
      modifies this`pages
      ensures pages == old(pages)[p := frame[..]]
    {
      pages := pages[p := frame[..]];
    }

    /**
     * Give up a frame without marking it as changed: what was written to it is kept if it was
     * marked before, and else lasts until the frame is needed for another page.
     */
    method ReleaseUnmarked(p: nat, frame: array<byte>)
      requires frame.Length == PAGE_SIZE
      modifies this`pages
      ensures pages == old(pages) || pages == old(pages)[p := frame[..]]
    {
      var marked: bool := *;
      if marked {
        pages := pages[p := frame[..]];
      }
    }

    /** A frame for a page id not in use, or null. */
    method NewPage() returns (p: nat, frame: array?<byte>)
      modifies this
      ensures frame == null ==> failures > old(failures) && pages == old(pages)
      ensures frame != null ==>
                && failures == old(failures) && fresh(frame) && frame.Length == PAGE_SIZE
                && p !in old(pages) && p < INVALID_PAGE && pages == old(pages)[p := frame[..]]
    {
      var busy: bool := *;
      if id: nat :| !busy && id < INVALID_PAGE && id !in pages {
        p, frame := id, new byte[PAGE_SIZE](_ => 0);
        pages := pages[p := frame[..]];
      } else {
        failures := failures + 1;
        p, frame := 0, null;
      }
    }
  }

  datatype HeapError = TupleTooLarge | NoNewPage | FreshPageFull

  /** What insert and update hand back: a RID, an empty optional, or an exception. */
  datatype HeapResult = Placed(rid: RID) | Nothing | Threw(error: HeapError)

  /** Try to place, compact if the heuristic allows it, try again. */
  method PlaceInFrame(frame: array<byte>, tuple: seq<byte>) returns (slot: Option<nat>)
    requires frame.Length == PAGE_SIZE && Layout(frame[..]) && |tuple| < 0x1_0000
    modifies frame
    ensures Visited(old(frame[..]), frame[..], slot, tuple)
  {
    hide Layout, Tuples, CanPlace, Visited, ReportsCompacted, TupleAdded, Prefers, PageLayout.Compacted;
    var slotted := new SlottedPage(frame);
    ghost var d: PageBytes := frame[..];
    slot := slotted.InsertTuple(tuple);
    if slot.Some? {
      NoneIsFirstFree(d, slot.value);
      VisitPlaces(d, frame[..], slot.value, tuple);
      return;
    }
    var compacted := slotted.IsCompacted();
    if compacted {
      VisitSkips(d, tuple);
    } else {
      slotted.Compact();
      ghost var d1: PageBytes := frame[..];
      slot := slotted.InsertTuple(tuple);
      if slot.Some? {
        NoneIsFirstFree(d1, slot.value);
      }
      VisitCompacts(d, d1, frame[..], slot, tuple);
    }
  }

  lemma NoneIsFirstFree(d: PageBytes, slot: nat)
    requires Layout(d) && Prefers(Directory(d), None, slot)
    ensures FirstFree(d, slot)
  {
    LiveTuples(d);
    hide Layout, Tuples;
  }

  /** Create and initialise a page; INVALID_PAGE if there is none to be had. */
  method NewEmptyPage(store: PageStore) returns (p: nat, ghost e: PageBytes)
    modifies store
    ensures p == INVALID_PAGE ==> store.failures > old(store.failures) && store.pages == old(store.pages)
    ensures p != INVALID_PAGE ==>
              && store.failures == old(store.failures) && p < INVALID_PAGE && p !in old(store.pages)
              && store.pages == old(store.pages)[p := e] && Empty(e) && NextPage(e) == INVALID_PAGE
  {
    var id, frame := store.NewPage();
    if frame == null {
      return INVALID_PAGE, Zeros(PAGE_SIZE);
    }
    var slotted := new SlottedPage(frame);
    slotted.Init();
    store.Release(id, frame);
    return id, frame[..];
  }

  method SetLink(frame: array<byte>, next: nat)
    requires frame.Length == PAGE_SIZE && Layout(frame[..]) && next <= INVALID_PAGE
    modifies frame
    ensures Layout(frame[..]) && NextPage(frame[..]) == next && Tuples(frame[..]) == old(Tuples(frame[..]))
    ensures SlotCount(frame[..]) == old(SlotCount(frame[..])) && FreeOffset(frame[..]) == old(FreeOffset(frame[..]))
  {
    var slotted := new SlottedPage(frame);
    slotted.SetNextPage(next);
  }

  method DeleteInFrame(frame: array<byte>, slot: nat) returns (ok: bool)
    requires frame.Length == PAGE_SIZE && Layout(frame[..])
    modifies frame
    ensures Deleted(old(frame[..]), frame[..], slot)
    ensures ok <==> slot in old(Tuples(frame[..]))
  {
    var slotted := new SlottedPage(frame);
    ok := slotted.DeleteTuple(slot);
  }

  method RestoreInFrame(frame: array<byte>, slot: nat, tuple: seq<byte>) returns (ok: bool)
    requires frame.Length == PAGE_SIZE && Layout(frame[..])
    requires |tuple| < 0x1_0000 || !CanRestore(frame[..], slot, Cut(|tuple|))
    modifies frame
    ensures Restored(old(frame[..]), frame[..], slot, tuple, ok)
  {
    hide Layout, Tuples, CanRestore;
    var slotted := new SlottedPage(frame);
    ok := slotted.RestoreTuple(slot, tuple);
  }

  method UpdateInFrame(frame: array<byte>, slot: nat, tuple: seq<byte>) returns (effect: UpdateEffect)
    requires frame.Length == PAGE_SIZE && Layout(frame[..]) && !Overruns(frame[..], slot, |tuple|)
    modifies frame
    ensures Updated(old(frame[..]), frame[..], slot, tuple, effect)
  {
    hide Layout, Tuples, PageTakes, KeepsRid, Reinserts, ReportsCompacted, Updated, Directory;
    ghost var d: PageBytes := frame[..];
    var slotted := new SlottedPage(frame);
    var live := slotted.HasSlot(slot);
    if !live {
      UpdateMisses(d, slot, tuple);
      return Missing;
    }
    var updated := slotted.TryUpdateInPlace(slot, tuple);
    if updated {
      UpdateKeeps(d, frame[..], slot, tuple);
      return Rewritten;
    }
    var _ := slotted.DeleteTuple(slot);
    ghost var d1: PageBytes := frame[..];
    TakenOutReinserts(d, d1, slot, Cut(|tuple|));
    effect := ReinsertInFrame(frame, slot, tuple);
    UpdateReinserts(d, d1, frame[..], slot, tuple, effect);
  }

  /** Compact if the heuristic says so, then insert, preferring the slot just emptied. */
  method ReinsertInFrame(frame: array<byte>, slot: nat, tuple: seq<byte>) returns (effect: UpdateEffect)
    requires frame.Length == PAGE_SIZE && Layout(frame[..])
    requires slot < SlotCount(frame[..]) && slot !in Tuples(frame[..])
    requires |tuple| < 0x1_0000 || !Reinserts(frame[..], Cut(|tuple|))
    modifies frame
    ensures Layout(frame[..]) && NextPage(frame[..]) == old(NextPage(frame[..]))
              && SlotCount(frame[..]) == old(SlotCount(frame[..]))
    ensures !effect.Missing? && (effect.Rewritten? <==> old(Reinserts(frame[..], Cut(|tuple|))))
    ensures Tuples(frame[..]) == if effect.Rewritten? then old(Tuples(frame[..]))[slot := tuple]
              else old(Tuples(frame[..]))
    ensures effect.Evicted? ==> !PageTakes(frame[..], |tuple|)
  {
    hide Layout, Tuples, CanPlace, ReportsCompacted, TupleAdded, Prefers, PageLayout.Compacted, Reinserts, PageTakes,
         Directory;
    var slotted := new SlottedPage(frame);
    ghost var d: PageBytes := frame[..];
    var compacted := slotted.IsCompacted();
    if !compacted {
      slotted.Compact();
    }
    ghost var d1: PageBytes := frame[..];
    ReinsertPlaces(d, d1, slot, Cut(|tuple|));
    var placed := slotted.InsertTuple(tuple, Some(slot));
    if placed.Some? {
      PreferredPlaced(d1, frame[..], slot, placed.value, tuple);
      effect := Rewritten;
    } else {
      NoRoomLeft(d, d1, |tuple|);
      effect := Evicted;
    }
  }

  lemma PreferredPlaced(d: PageBytes, d': PageBytes, slot: nat, placed: nat, tuple: seq<byte>)
    requires Layout(d) && slot < SlotCount(d) && !Live(Directory(d), slot) && HasDead(d)
    requires Prefers(Directory(d), Some(slot), placed) && TupleAdded(d, d', placed, tuple)
    ensures Layout(d') && Tuples(d') == Tuples(d)[slot := tuple]
    ensures NextPage(d') == NextPage(d) && SlotCount(d') == SlotCount(d)
  {
    hide Layout, Tuples, HasDead;
  }

  // ---- a page that cannot take a tuple back ----

  lemma DeadSlots(d: PageBytes)
    requires Layout(d)
    ensures HasDead(d) <==> exists i: nat :: i < SlotCount(d) && i !in Tuples(d)
  {
    LiveTuples(d);
    if HasDead(d) {
      var i: nat :| i < SlotCount(d) && !Live(Directory(d), i);
      assert i !in Tuples(d);
    }
    hide Layout, Tuples;
  }

  lemma BigTupleFits(d: PageBytes)
    requires Empty(d)
    ensures CanPlace(d, MAX_TUPLE) && !HasDead(d)
  {
    DeadSlots(d);
    hide Layout, Tuples;
  }

  /** The page whose only tuple, of the largest size, has been deleted: no room and not "compacted". */
  lemma BigTupleGone(d: PageBytes)
    requires Layout(d) && SlotCount(d) == 1 && FreeOffset(d) == 12 && Tuples(d) == map[]
              && Directory(d)[0].offset == DEAD
    ensures !CanPlace(d, 1) && !ReportsCompacted(Directory(d)) && LiveBytes(d) == 0
  {
    SizesEmpty(Tuples(d), 1);
    assert !AscendingRun(Directory(d), 1, DEAD);
    hide Layout, Tuples;
  }

  lemma SmallTupleFits(d: PageBytes)
    requires Layout(d) && SlotCount(d) == 1 && FreeOffset(d) >= 8191
    ensures CanPlace(d, 1) && (HasDead(d) <==> 0 !in Tuples(d))
  {
    DeadSlots(d);
    hide Layout, Tuples;
  }

  lemma TooFullToRestore(d: PageBytes)
    requires Layout(d) && SlotCount(d) == 2
    ensures !CanRestore(d, 0, MAX_TUPLE)
  {
    hide Layout, Tuples;
  }

  lemma LowestSlot(d: PageBytes, slot: nat)
    requires Layout(d) && Prefers(Directory(d), None, slot)
    ensures Tuples(d) == map[] ==> slot == 0
    ensures Tuples(d).Keys == {0} ==> slot == 1
  {
    hide Layout, Tuples, Prefers;
    NoneIsFirstFree(d, slot);
    assert slot > 0 ==> 0 in Tuples(d);
    assert slot > 1 ==> 1 in Tuples(d).Keys;
    assert Tuples(d).Keys == {0} ==> 0 in Tuples(d);
  }

  /** A tuple of the largest size, inserted into a new page and deleted again. */
  method InsertAndDelete(slotted: SlottedPage, big: seq<byte>)
    requires slotted.Framed8K() && |big| == MAX_TUPLE
    modifies slotted.data
    ensures slotted.Valid() && SlotCount(slotted.Raw()) == 1 && FreeOffset(slotted.Raw()) == 12
    ensures Tuples(slotted.Raw()) == map[] && Directory(slotted.Raw())[0].offset == DEAD
  {
    hide Layout, Tuples, CanPlace, HasDead, Prefers;
    slotted.Init();
    BigTupleFits(slotted.Raw());
    ghost var d := slotted.Raw();
    var slot := slotted.InsertTuple(big);
    LowestSlot(d, slot.value);
    assert Tuples(slotted.Raw()) == map[0 := big];
    var _ := slotted.DeleteTuple(0);
    assert map[0 := big] - {0} == map[];
  }

  /** Two small tuples inserted in its place, after the compaction that the first one calls for. */
  method InsertTwo(slotted: SlottedPage, small: seq<byte>)
    requires slotted.Valid() && SlotCount(slotted.Raw()) == 1 && FreeOffset(slotted.Raw()) == 12 && |small| == 1
    requires Tuples(slotted.Raw()) == map[] && Directory(slotted.Raw())[0].offset == DEAD
    modifies slotted.data
    ensures slotted.Valid() && SlotCount(slotted.Raw()) == 2 && Tuples(slotted.Raw()) == map[0 := small, 1 := small]
  {
    hide Layout, Tuples, CanPlace, HasDead, Prefers, ReportsCompacted, LiveBytes, IsPacked;
    BigTupleGone(slotted.Raw());
    var none := slotted.InsertTuple(small);
    var compacted := slotted.IsCompacted();
    assert none.None? && !compacted;
    slotted.Compact();
    ghost var d := slotted.Raw();
    SmallTupleFits(d);
    var first := slotted.InsertTuple(small);
    LowestSlot(d, first.value);
    ghost var d1 := slotted.Raw();
    assert Tuples(d1) == map[0 := small];
    SmallTupleFits(d1);
    var second := slotted.InsertTuple(small);
    LowestSlot(d1, second.value);
  }

  /** When this is undone in reverse order the tuple of the largest size does not fit any more. */
  method RestoreFails(frame: array<byte>, big: seq<byte>, small: seq<byte>) returns (restored: bool)
    requires frame.Length == PAGE_SIZE && |big| == MAX_TUPLE && |small| == 1
    modifies frame
    ensures !restored
  {
    hide Layout, Tuples, CanRestore;
    var slotted := new SlottedPage(frame);
    InsertAndDelete(slotted, big);
    InsertTwo(slotted, small);
    var _ := slotted.DeleteTuple(1);
    var _ := slotted.DeleteTuple(0);
    TooFullToRestore(slotted.Raw());
    restored := slotted.RestoreTuple(0, big);
  }

  method ReadLink(frame: array<byte>) returns (next: nat)
    requires frame.Length == PAGE_SIZE
    ensures next == NextPage(frame[..])
  {
    var slotted := new SlottedPage(frame);
    next := slotted.NextPageId();
  }

  class TableHeap {
    const store: PageStore
    const first: nat
    ghost var chain: seq<nat>

    ghost predicate Valid()
      reads this, store
    {
      ChainOf(store.pages, chain) && chain[0] == first
    }

    ghost function Map(): map<RID, seq<byte>>
      requires Valid()
      reads this, store
    {
      HeapMap(store.pages, chain)
    }

    /** Open the heap whose pages start at `first`. */
    constructor (store: PageStore, first: nat, ghost chain: seq<nat>)
      requires ChainOf(store.pages, chain) && chain[0] == first
      ensures this.store == store && this.first == first && this.chain == chain && Valid()
    {
      this.store := store;
      this.first := first;
      this.chain := chain;
    }

    /** Make a heap of one empty page; null stands for the exception when there is no page. */
    static method Create(store: PageStore) returns (heap: TableHeap?)
      modifies store
      ensures heap == null ==> store.failures > old(store.failures) && store.pages == old(store.pages)
      ensures heap != null ==>
                && fresh(heap) && heap.store == store && heap.Valid() && heap.Map() == map[]
                && heap.first !in old(store.pages)
      ensures forall p | p in old(store.pages) :: p in store.pages && store.pages[p] == old(store.pages[p])
    {
      var p, _ := NewEmptyPage(store);
      if p == INVALID_PAGE {
        return null;
      }
      EmptyHeap(store.pages, p);
      heap := new TableHeap(store, p, [p]);
    }

    /**
     * Give the last page of the chain a successor, an empty page; false is the exception. The
     * frame of the last page stays pinned, and is only marked as changed when the link is set.
     */
    method ExtendChain(p: nat, frame: array<byte>) returns (ok: bool)
      requires Valid() && p == chain[|chain| - 1] && frame.Length == PAGE_SIZE
      requires p in store.pages && Layout(store.pages[p]) && Rearranged(store.pages[p], frame[..])
      modifies store, frame, this`chain
      ensures Valid() && Map() == old(Map())
      ensures Kept(old(store.pages), store.pages, old(chain), chain)
      ensures !ok ==> store.failures > old(store.failures) && chain == old(chain)
      ensures ok ==>
                && store.failures == old(store.failures)
                && |chain| == |old(chain)| + 1 && frame[..] == store.pages[p]
                && Empty(store.pages[chain[|chain| - 1]])
    {
      hide Layout, Tuples, HeapMap;
      ghost var v := store.pages;
      var next, e := NewEmptyPage(store);
      assert LinkedAt(v, chain, |chain| - 1) && NextPage(frame[..]) == INVALID_PAGE;
      if next == INVALID_PAGE {
        RearrangedKeeps(v, chain, p, frame[..]);
        KeptItself(v, chain);
        store.ReleaseUnmarked(p, frame);
        return false;
      }
      // No other thread runs: the page still has no successor when its latch is taken again.
      SetLink(frame, next);
      store.Release(p, frame);
      ChainExtended(v, chain, frame[..], next, e);
      chain := chain + [next];
      ok := true;
    }

    /** Walk the chain to the first page that takes the tuple, adding a page at the end if none does. */
    method InsertTuple(tuple: seq<byte>) returns (r: HeapResult)
      requires Valid()
      modifies store, this`chain
      ensures Valid() && Kept(old(store.pages), store.pages, old(chain), chain)
      ensures r.Placed? ==> LowestFree(old(Map()), r.rid) && Map() == old(Map())[r.rid := tuple]
      ensures r.Placed? ==> FirstFit(old(store.pages), old(chain), chain, r.rid.page, |tuple|)
      ensures !r.Placed? ==> Map() == old(Map())
      ensures r == Threw(TupleTooLarge) <==> |tuple| > MAX_TUPLE
      ensures r.Placed? || r == Threw(TupleTooLarge) <==> store.failures == old(store.failures)
      ensures r != Threw(FreshPageFull) && store.failures >= old(store.failures)
    {
      hide Layout, Tuples, PageTakes, HeapMap, ChainOf, Kept, FirstFit, Visited, Walk, NoneTakes, PagesAhead,
           Rearranged;
      if |tuple| > MAX_TUPLE {
        KeptItself(store.pages, chain);
        return Threw(TupleTooLarge);
      }
      var page_id, created := first, false;
      ghost var k, v, chain0 := 0, store.pages, chain;
      WalkStart(v, chain, |tuple|);
      while true
        invariant Valid() && Walk(v, chain0, store.pages, chain, k, created, |tuple|)
        invariant k < |chain| && page_id == chain[k] && store.failures == old(store.failures)
        decreases !created, |chain| - k
      {
        WalkPage(v, chain0, store.pages, chain, k, created, |tuple|);
        var frame := store.FetchPage(page_id);
        if frame == null {
          return Nothing;
        }
        ghost var v1 := store.pages;
        var slot := PlaceInFrame(frame, tuple);
        VisitDecides(v1[page_id], frame[..], slot, tuple);
        if slot.Some? {
          store.Release(page_id, frame);
          WalkPlaced(v, chain0, v1, chain, k, created, frame[..], slot.value, tuple);
          return Placed(RID(page_id, slot.value));
        }
        if created {
          assert false;  // the source throws "failed to fit even on a freshly created page"
        }
        assert slot == None;
        NothingPlaced(v1[page_id], frame[..], tuple);
        WalkVisited(v, chain0, v1, k, frame[..], tuple);
        WalkVisited(v, chain0, v1, k, v1[page_id], tuple);
        assert v1[page_id := v1[page_id]] == v1;
        var next := ReadLink(frame);
        if next == INVALID_PAGE {
          var ok := ExtendChain(page_id, frame);
          KeptTransitive(v, v1, store.pages, chain0, chain0, chain);
          if !ok {
            return Threw(NoNewPage);
          }
          created := true;
          WalkExtended(v, chain0, v1, store.pages, chain, |tuple|);
          next := ReadLink(frame);
        } else {
          store.ReleaseUnmarked(page_id, frame);
        }
        page_id, k := next, k + 1;
      }
    }

    /** The bytes at a RID; an empty tuple reads back as absent, just as a missing one does. */
    method GetTuple(rid: RID) returns (r: Option<seq<byte>>)
      requires Valid() && rid.page in chain
      modifies store`failures
      ensures store.failures >= old(store.failures)
      ensures store.failures == old(store.failures) ==>
                r == if rid in Map() && Map()[rid] != [] then Some(Map()[rid]) else None
      ensures r.Some? ==> rid in Map() && Map()[rid] == r.value != []
    {
      var frame := store.FetchPage(rid.page);
      if frame == null {
        return None;
      }
      var slotted := new SlottedPage(frame);
      var tuple := slotted.GetTuple(rid.slot);
      Lookup(store.pages, chain, rid);
      r := if tuple == [] then None else Some(tuple);
    }

    method DeleteTuple(rid: RID) returns (ok: bool)
      requires Valid() && rid.page in chain
      modifies store
      ensures Valid() && Kept(old(store.pages), store.pages, chain, chain) && store.failures >= old(store.failures)
      ensures ok ==> rid in old(Map()) && Map() == old(Map()) - {rid}
      ensures !ok ==> Map() == old(Map())
      ensures store.failures == old(store.failures) ==> (ok <==> rid in old(Map()))
      ensures SameDirectories(old(store.pages), store.pages, chain)
    {
      hide Layout, Tuples, Deleted, HeapMap, Kept, SameDirectories;
      var frame := store.FetchPage(rid.page);
      ghost var v := store.pages;
      KeptItself(v, chain);
      SameDirectoriesItself(v, chain);
      if frame == null {
        return false;
      }
      ok := DeleteInFrame(frame, rid.slot);
      store.Release(rid.page, frame);
      PageDeleted(v, chain, rid, frame[..]);
    }

    /** Put a deleted tuple back; false is a failed fetch or an assertion of the source that would fail. */
    method RestoreTuple(rid: RID, tuple: seq<byte>) returns (ok: bool)
      requires Valid() && rid.page in chain
      requires |tuple| < 0x1_0000 || !CanRestore(store.pages[rid.page], rid.slot, Cut(|tuple|))
      modifies store
      ensures Valid() && Kept(old(store.pages), store.pages, chain, chain) && store.failures >= old(store.failures)
      ensures ok ==> rid !in old(Map()) && Map() == old(Map())[rid := tuple]
      ensures !ok ==> Map() == old(Map())
      ensures store.failures == old(store.failures) ==>
                (ok <==> CanRestore(old(store.pages[rid.page]), rid.slot, Cut(|tuple|)))
      ensures SameDirectories(old(store.pages), store.pages, chain)
    {
      hide Layout, Tuples, CanRestore, Deleted, Restored;
      var frame := store.FetchPage(rid.page);
      if frame == null {
        return false;
      }
      ghost var v := store.pages;
      ok := RestoreInFrame(frame, rid.slot, tuple);
      store.Release(rid.page, frame);
      RestoreDecides(v[rid.page], frame[..], rid.slot, tuple, ok);
      PageRestored(v, chain, rid, frame[..], tuple, ok);
    }

    /** The pages of the chain in order; `ok` is false if one of them could not be fetched. */
    method AllPages() returns (result: seq<nat>, ok: bool)
      requires Valid()
      modifies store`failures
      ensures store.failures >= old(store.failures) && (ok <==> store.failures == old(store.failures))
      ensures if ok then result == chain else result < chain
    {
      hide Layout;
      result := [];
      var page_id := first;
      while true
        invariant Valid() && |result| < |chain| && page_id == chain[|result|] && result == chain[..|result|]
        invariant store.failures == old(store.failures) && store.pages == old(store.pages)
        decreases |chain| - |result|
      {
        ghost var k := |result|;
        var frame := store.FetchPage(page_id);
        if frame == null {
          return result, false;
        }
        result := result + [page_id];
        assert LinkedAt(store.pages, chain, k) && chain[..k + 1] == chain[..k] + [chain[k]];
        page_id := ReadLink(frame);
        assert k + 1 < |chain| ==> chain[k + 1] in chain;
        if page_id == INVALID_PAGE {
          assert chain[..|chain|] == chain;
          return result, true;
        }
      }
    }

    /**
     * In place if it is no longer, else compact and re-insert under the same RID, else move
     * it to another page. A tuple too large for any page is taken out before the exception.
     */
    method UpdateTuple(rid: RID, tuple: seq<byte>) returns (r: HeapResult)
      requires Valid() && rid.page in chain && !Overruns(store.pages[rid.page], rid.slot, |tuple|)
      modifies store, this`chain
      ensures Valid() && Kept(old(store.pages), store.pages, old(chain), chain)
      ensures r.Placed? ==> store.failures == old(store.failures)
      ensures store.failures == old(store.failures) ==>
                (r == Placed(rid) <==> KeepsRid(old(store.pages[rid.page]), rid.slot, Cut(|tuple|)))
      ensures r.Placed? && r.rid == rid ==> rid in old(Map()) && Map() == old(Map())[rid := tuple]
      ensures r.Placed? && r.rid != rid ==>
                && rid in old(Map()) && LowestFree(old(Map()), r.rid)
                && NextFit(old(store.pages), old(chain), chain, rid.page, r.rid.page, |tuple|)
                && Map() == (old(Map()) - {rid})[r.rid := tuple]
                && |old(Map())[rid]| < |tuple|
      ensures !r.Placed? ==> Map() == old(Map()) || (rid in old(Map()) && Map() == old(Map()) - {rid})
      ensures store.failures >= old(store.failures)
      ensures store.failures == old(store.failures) ==>
                if rid !in old(Map()) then r == Nothing && Map() == old(Map())
                else if |tuple| > MAX_TUPLE then r == Threw(TupleTooLarge) && Map() == old(Map()) - {rid}
                else r.Placed?
    {
      hide Layout, Tuples, PageTakes, HeapMap, Updated;
      var frame := store.FetchPage(rid.page);
      if frame == null {
        return Nothing;
      }
      ghost var v := store.pages;
      var effect := UpdateInFrame(frame, rid.slot, tuple);
      store.Release(rid.page, frame);
      PageUpdated(v, chain, rid, frame[..], tuple, effect);
      UpdateDecides(v[rid.page], frame[..], rid.slot, tuple, effect);
      UpdateFits(v, chain, rid, frame[..], tuple, effect);
      if effect.Missing? {
        return Nothing;
      }
      if effect.Rewritten? {
        return Placed(rid);
      }
      ghost var v1, chain1 := store.pages, chain;
      r := InsertTuple(tuple);
      KeptTransitive(v, v1, store.pages, chain1, chain1, chain);
      if r.Placed? {
        FitsElsewhere(v, chain1, chain, rid.page, frame[..], r.rid.page, |tuple|);
      }
    }
  }
}
