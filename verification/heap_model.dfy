/** A chain of slotted pages, and the map from RIDs to bytes that it stands for. */
module HeapModel {
  import opened Bytes
  import opened Options
  import opened PageLayout
  import opened Lists

  datatype RID = RID(page: nat, slot: nat)

  /** The bytes of every allocated page. */
  type View = map<nat, PageBytes>

  function Successor(chain: seq<nat>, i: nat): nat {
    if i + 1 < |chain| then chain[i + 1] else INVALID_PAGE
  }

  ghost predicate LinkedAt(v: View, chain: seq<nat>, i: nat)
    requires i < |chain| && chain[i] in v
  {
    NextPage(v[chain[i]]) == Successor(chain, i)
  }

  /** `chain` is the acyclic list of pages reached through the next links, each well laid out. */
  ghost predicate ChainOf(v: View, chain: seq<nat>) {
    && |chain| > 0 && Distinct(chain)
    && (forall p | p in chain :: p in v && p < INVALID_PAGE && Layout(v[p]))
    && (forall i: nat | i < |chain| :: LinkedAt(v, chain, i))
  }

  ghost function FlatKeys(pages: map<nat, map<nat, seq<byte>>>): (keys: set<RID>)
    ensures forall r: RID :: r in keys <==> r.page in pages && r.slot in pages[r.page]
  {
    set p, s | p in pages && s in pages[p] :: RID(p, s)
  }

  /** A family of per-page slot maps as one map over RIDs. */
  ghost function Flatten(pages: map<nat, map<nat, seq<byte>>>): map<RID, seq<byte>> {
    map r | r in FlatKeys(pages) :: pages[r.page][r.slot]
  }

  ghost function PageMaps(v: View, chain: seq<nat>): map<nat, map<nat, seq<byte>>>
    requires ChainOf(v, chain)
  {
    map p | p in chain :: Tuples(v[p])
  }

  /** The abstract value of a table heap. */
  ghost function HeapMap(v: View, chain: seq<nat>): map<RID, seq<byte>>
    requires ChainOf(v, chain)
  {
    Flatten(PageMaps(v, chain))
  }

  lemma FlattenPut(pages: map<nat, map<nat, seq<byte>>>, p: nat, s: nat, t: seq<byte>)
    requires p in pages
    ensures var row: map<nat, seq<byte>> := pages[p][s := t]; Flatten(pages[p := row]) == Flatten(pages)[RID(p, s) := t]
  {
    hide FlatKeys;
  }

  lemma FlattenRemove(pages: map<nat, map<nat, seq<byte>>>, p: nat, s: nat)
    requires p in pages
    ensures var row: map<nat, seq<byte>> := pages[p] - {s}; Flatten(pages[p := row]) == Flatten(pages) - {RID(p, s)}
  {
    hide FlatKeys;
  }

  lemma FlattenEmpty(pages: map<nat, map<nat, seq<byte>>>, q: nat)
    requires q !in pages
    ensures Flatten(pages[q := map[]]) == Flatten(pages)
  {
    hide FlatKeys;
  }

  lemma Lookup(v: View, chain: seq<nat>, r: RID)
    requires ChainOf(v, chain)
    ensures r in HeapMap(v, chain) <==> r.page in chain && r.slot in Tuples(v[r.page])
    ensures r in HeapMap(v, chain) ==> HeapMap(v, chain)[r] == Tuples(v[r.page])[r.slot]
  {
  }

  /** Rewriting one page of the chain without touching its next link. */
  lemma PageRewritten(v: View, chain: seq<nat>, p: nat, d: PageBytes)
    requires ChainOf(v, chain) && p in chain && Layout(d) && NextPage(d) == NextPage(v[p])
    ensures ChainOf(v[p := d], chain) && PageMaps(v[p := d], chain) == PageMaps(v, chain)[p := Tuples(d)]
  {
    var v': View := v[p := d];
    forall i: nat | i < |chain| ensures LinkedAt(v', chain, i) {
      assert LinkedAt(v, chain, i);
    }
  }

  lemma TuplePutInPage(v: View, chain: seq<nat>, p: nat, d: PageBytes, s: nat, t: seq<byte>)
    requires ChainOf(v, chain) && p in chain && Layout(d) && NextPage(d) == NextPage(v[p])
    requires Tuples(d) == Tuples(v[p])[s := t]
    ensures ChainOf(v[p := d], chain) && HeapMap(v[p := d], chain) == HeapMap(v, chain)[RID(p, s) := t]
  {
    PageRewritten(v, chain, p, d);
    FlattenPut(PageMaps(v, chain), p, s, t);
  }

  lemma TupleTakenFromPage(v: View, chain: seq<nat>, p: nat, d: PageBytes, s: nat)
    requires ChainOf(v, chain) && p in chain && Layout(d) && NextPage(d) == NextPage(v[p])
    requires Tuples(d) == Tuples(v[p]) - {s}
    ensures ChainOf(v[p := d], chain) && HeapMap(v[p := d], chain) == HeapMap(v, chain) - {RID(p, s)}
  {
    PageRewritten(v, chain, p, d);
    FlattenRemove(PageMaps(v, chain), p, s);
  }

  lemma PageRearranged(v: View, chain: seq<nat>, p: nat, d: PageBytes)
    requires ChainOf(v, chain) && p in chain && Layout(d) && NextPage(d) == NextPage(v[p])
    requires Tuples(d) == Tuples(v[p])
    ensures ChainOf(v[p := d], chain) && HeapMap(v[p := d], chain) == HeapMap(v, chain)
  {
    PageRewritten(v, chain, p, d);
    assert PageMaps(v[p := d], chain) == PageMaps(v, chain);
  }

  /**
   * What every operation on a heap keeps: other tables' pages, the chain up to new pages at
   * its end, and every slot, dead or alive, that a page of the chain has.
   */
  ghost predicate Kept(v: View, v': View, chain: seq<nat>, chain': seq<nat>) {
    && chain <= chain'
    && (forall p | p in chain :: p in v && p in v' && SlotCount(v[p]) <= SlotCount(v'[p]))
    && (forall p | p in v && p !in chain :: p !in chain' && p in v' && v'[p] == v[p])
    && (forall p | p in chain' && p !in chain :: p !in v)
  }

  lemma KeptItself(v: View, chain: seq<nat>)
    requires ChainOf(v, chain)
    ensures Kept(v, v, chain, chain)
  {
  }

  lemma SameDirectoriesItself(v: View, chain: seq<nat>)
    requires ChainOf(v, chain)
    ensures SameDirectories(v, v, chain)
  {
  }

  lemma KeptTransitive(v0: View, v1: View, v2: View, c0: seq<nat>, c1: seq<nat>, c2: seq<nat>)
    requires Kept(v0, v1, c0, c1) && Kept(v1, v2, c1, c2)
    ensures Kept(v0, v2, c0, c2)
  {
  }

  lemma KeptOnePage(v: View, chain: seq<nat>, p: nat, d: PageBytes)
    requires ChainOf(v, chain) && p in chain && SlotCount(v[p]) <= SlotCount(d)
    ensures Kept(v, v[p := d], chain, chain)
  {
  }

  ghost function Relinked(v: View, chain: seq<nat>, d: PageBytes, q: nat, e: PageBytes): View
    requires |chain| > 0
  {
    var v1: View := v[q := e];
    v1[chain[|chain| - 1] := d]
  }

  /** Linking an empty page that is not in the chain behind the last one. */
  lemma ChainExtended(v: View, chain: seq<nat>, d: PageBytes, q: nat, e: PageBytes)
    requires ChainOf(v, chain) && q !in v && q < INVALID_PAGE
    requires Layout(d) && NextPage(d) == q && Tuples(d) == Tuples(v[chain[|chain| - 1]])
    requires SlotCount(v[chain[|chain| - 1]]) <= SlotCount(d)
    requires Layout(e) && NextPage(e) == INVALID_PAGE && Tuples(e) == map[]
    ensures ChainOf(Relinked(v, chain, d, q, e), chain + [q])
    ensures HeapMap(Relinked(v, chain, d, q, e), chain + [q]) == HeapMap(v, chain)
    ensures Kept(v, Relinked(v, chain, d, q, e), chain, chain + [q])
  {
    hide Layout, Tuples;
    LinksExtended(v, chain, d, q, e);
    assert HeapMap(Relinked(v, chain, d, q, e), chain + [q]) == HeapMap(v, chain) by {
      assert PageMaps(Relinked(v, chain, d, q, e), chain + [q]) == PageMaps(v, chain)[q := map[]];
      FlattenEmpty(PageMaps(v, chain), q);
    }
    assert Kept(v, Relinked(v, chain, d, q, e), chain, chain + [q]) by {
      hide ChainOf, HeapMap;
      ExtensionKept(v, chain, d, q, e);
    }
  }

  lemma ExtensionKept(v: View, chain: seq<nat>, d: PageBytes, q: nat, e: PageBytes)
    requires |chain| > 0 && q !in v && forall p | p in chain :: p in v
    requires SlotCount(v[chain[|chain| - 1]]) <= SlotCount(d)
    ensures Kept(v, Relinked(v, chain, d, q, e), chain, chain + [q])
  {
  }

  lemma LinksExtended(v: View, chain: seq<nat>, d: PageBytes, q: nat, e: PageBytes)
    requires ChainOf(v, chain) && q !in v && q < INVALID_PAGE
    requires Layout(d) && NextPage(d) == q && Layout(e) && NextPage(e) == INVALID_PAGE
    ensures ChainOf(Relinked(v, chain, d, q, e), chain + [q])
  {
    var v', chain' := Relinked(v, chain, d, q, e), chain + [q];
    assert v'[chain[|chain| - 1]] == d && v'[q] == e;
    forall i: nat | i < |chain'| ensures LinkedAt(v', chain', i) {
      if i < |chain| - 1 {
        assert LinkedAt(v, chain, i) && chain[i] != chain[|chain| - 1];
      }
    }
  }

  /** When a visit to the page places `n` bytes, compacting first if the heuristic allows it. */
  ghost predicate PageTakes(d: PageBytes, n: nat)
    requires Layout(d)
  {
    CanPlace(d, n) || (!ReportsCompacted(Directory(d)) && FitsCompacted(d, n))
  }

  /**
   * A visit places a tuple exactly if the header, the directory (with one more slot if none is
   * free) and all tuples fit the page together, unless the page looks compacted and its slot 0
   * is not the lowest tuple; and it never places one that does not fit.
   */
  lemma RoomDecides(d: PageBytes, n: nat)
    requires Layout(d)
    ensures var slot := if exists i: nat :: i < SlotCount(d) && i !in Tuples(d) then 0 else SLOT_SIZE;
            var room := DirectoryEnd(d) + LiveBytes(d) + n + slot <= PAGE_SIZE;
            && (PageTakes(d, n) ==> room)
            && (room ==>
                  || PageTakes(d, n)
                  || (ReportsCompacted(Directory(d)) && FreeOffset(d) !=
                      (if SlotCount(d) == 0 then PAGE_SIZE else SlotAt(d, 0).offset)))
  {
    LiveTuples(d);
    if SlotCount(d) > 0 && ReportsCompacted(Directory(d)) {
      CompactedAnswerIsRightWhen(d);
    }
    hide Tuples, ReportsCompacted;
  }

  /** The lowest slot that holds no tuple. */
  ghost predicate FirstFree(d: PageBytes, slot: nat)
    requires Layout(d)
  {
    slot !in Tuples(d) && forall i: nat | i < slot :: i in Tuples(d)
  }

  /**
   * The effect of such a visit: either the tuple is in `slot`, the lowest one free, or the page
   * holds what it held and is as full.
   */
  ghost predicate Visited(d: PageBytes, d': PageBytes, slot: Option<nat>, tuple: seq<byte>)
    requires Layout(d)
  {
    && Layout(d') && NextPage(d') == NextPage(d) && SlotCount(d) <= SlotCount(d')
    && (slot.Some? <==> PageTakes(d, |tuple|))
    && (slot.Some? ==> FirstFree(d, slot.value) && Tuples(d') == Tuples(d)[slot.value := tuple])
    && (slot.None? ==> Tuples(d') == Tuples(d) && !PageTakes(d', |tuple|))
  }

  lemma VisitPlaces(d: PageBytes, d': PageBytes, slot: nat, tuple: seq<byte>)
    requires Layout(d) && CanPlace(d, |tuple|) && FirstFree(d, slot) && TupleAdded(d, d', slot, tuple)
    ensures Visited(d, d', Some(slot), tuple)
  {
    hide Layout, Tuples, CanPlace, HasDead, FirstFree;
  }

  lemma VisitCompacts(d: PageBytes, d1: PageBytes, d': PageBytes, slot: Option<nat>, tuple: seq<byte>)
    requires Layout(d) && !CanPlace(d, |tuple|) && !ReportsCompacted(Directory(d)) && Compacted(d, d1)
    requires slot.Some? <==> CanPlace(d1, |tuple|)
    requires if slot.Some? then FirstFree(d1, slot.value) && TupleAdded(d1, d', slot.value, tuple) else d' == d1
    ensures Visited(d, d', slot, tuple)
  {
    CompactedTakes(d, d1, |tuple|);
    hide Layout, Tuples, CanPlace, HasDead, FitsCompacted, IsPacked, LiveBytes;
  }

  lemma VisitSkips(d: PageBytes, tuple: seq<byte>)
    requires Layout(d) && !CanPlace(d, |tuple|) && ReportsCompacted(Directory(d))
    ensures Visited(d, d, None, tuple)
  {
    hide Layout, Tuples, CanPlace;
  }

  lemma VisitDecides(d: PageBytes, d': PageBytes, slot: Option<nat>, tuple: seq<byte>)
    requires Layout(d) && Visited(d, d', slot, tuple)
    ensures slot.Some? <==> PageTakes(d, |tuple|)
  {
  }

  /** The RID is not in use, and those below it on its page are. */
  ghost predicate LowestFree(m: map<RID, seq<byte>>, r: RID) {
    r !in m && forall i: nat | i < r.slot :: RID(r.page, i) in m
  }

  lemma FreeInMap(v: View, chain: seq<nat>, p: nat, slot: nat)
    requires ChainOf(v, chain) && p in chain
    ensures FirstFree(v[p], slot) <==> LowestFree(HeapMap(v, chain), RID(p, slot))
  {
    hide Layout, Tuples, HeapMap;
    forall i: nat ensures RID(p, i) in HeapMap(v, chain) <==> i in Tuples(v[p]) {
      Lookup(v, chain, RID(p, i));
    }
  }

  lemma PageVisited(v: View, chain: seq<nat>, p: nat, d: PageBytes, slot: Option<nat>, tuple: seq<byte>)
    requires ChainOf(v, chain) && p in chain && Visited(v[p], d, slot, tuple)
    ensures ChainOf(v[p := d], chain) && Kept(v, v[p := d], chain, chain)
    ensures slot.Some? ==> LowestFree(HeapMap(v, chain), RID(p, slot.value))
    ensures HeapMap(v[p := d], chain) ==
            if slot.Some? then HeapMap(v, chain)[RID(p, slot.value) := tuple] else HeapMap(v, chain)
  {
    hide Layout, Tuples;
    KeptOnePage(v, chain, p, d);
    if slot.Some? {
      FreeInMap(v, chain, p, slot.value);
      TuplePutInPage(v, chain, p, d, slot.value, tuple);
    } else {
      PageRearranged(v, chain, p, d);
    }
  }

  /** The same tuples and the same link, perhaps laid out otherwise. */
  ghost predicate Rearranged(d: PageBytes, d': PageBytes)
    requires Layout(d)
  {
    Layout(d') && NextPage(d') == NextPage(d) && Tuples(d') == Tuples(d) && SlotCount(d) <= SlotCount(d')
  }

  /** A visit that places nothing may have compacted the page, and would place nothing without that either. */
  lemma NothingPlaced(d: PageBytes, d': PageBytes, tuple: seq<byte>)
    requires Layout(d) && Visited(d, d', None, tuple)
    ensures Rearranged(d, d') && Visited(d, d, None, tuple)
  {
    hide Layout, Tuples, PageTakes;
  }

  lemma RearrangedKeeps(v: View, chain: seq<nat>, p: nat, d: PageBytes)
    requires ChainOf(v, chain) && p in chain && Rearranged(v[p], d)
    ensures ChainOf(v[p := d], chain) && HeapMap(v[p := d], chain) == HeapMap(v, chain)
              && Kept(v, v[p := d], chain, chain)
  {
    hide Layout, Tuples, HeapMap;
    PageRearranged(v, chain, p, d);
    KeptOnePage(v, chain, p, d);
  }

  /** A page just initialised. */
  ghost predicate Empty(d: PageBytes) {
    Layout(d) && Tuples(d) == map[] && FreeOffset(d) == PAGE_SIZE && SlotCount(d) == 0
  }

  lemma EmptyTakes(d: PageBytes, n: nat)
    requires Empty(d) && n + HEADER_SIZE + SLOT_SIZE <= PAGE_SIZE
    ensures PageTakes(d, n)
  {
  }

  lemma EmptyHeap(v: View, p: nat)
    requires p in v && p < INVALID_PAGE && Layout(v[p]) && Tuples(v[p]) == map[] && NextPage(v[p]) == INVALID_PAGE
    ensures ChainOf(v, [p]) && HeapMap(v, [p]) == map[]
  {
    assert PageMaps(v, [p]) == map[p := map[]];
  }

  /** Page `p` of the chain `chain'` is where an insert of `n` bytes ends: no page before it takes them. */
  ghost predicate FirstFit(v: View, chain: seq<nat>, chain': seq<nat>, p: nat, n: nat)
    requires ChainOf(v, chain)
  {
    exists k: nat :: k < |chain'| && chain'[k] == p && NoneTakes(v, chain, k, n)
                     && (k < |chain| ==> p in v && p == chain[k] && PageTakes(v[p], n))
  }

  ghost predicate NoneTakes(v: View, chain: seq<nat>, k: nat, n: nat)
    requires ChainOf(v, chain)
  {
    forall i: nat | i < k && i < |chain| :: !PageTakes(v[chain[i]], n)
  }

  /** That page is the first of the chain that takes the tuple, or a new one exactly if none does. */
  lemma FirstFitIs(v: View, chain: seq<nat>, chain': seq<nat>, p: nat, n: nat)
    requires ChainOf(v, chain) && chain <= chain' && FirstFit(v, chain, chain', p, n)
    requires Distinct(chain')
    ensures p in chain' && (p !in chain <==> forall q | q in chain :: !PageTakes(v[q], n))
    ensures p in chain ==> PageTakes(v[p], n)
    ensures forall i | 0 <= i < |chain| && PageTakes(v[chain[i]], n) :: p in chain[..i + 1]
  {
    hide ChainOf, PageTakes, Layout;
    PagesInView(v, chain);
    var k: nat :| k < |chain'| && chain'[k] == p && NoneTakes(v, chain, k, n)
                  && (k < |chain| ==> p in v && p == chain[k] && PageTakes(v[p], n));
    assert forall i | 0 <= i < |chain| :: chain'[i] == chain[i];
    forall i | 0 <= i < |chain| && PageTakes(v[chain[i]], n) ensures p in chain[..i + 1] {
      assert k <= i;
      assert chain[..i + 1][k] == p;
    }
  }

  lemma PagesInView(v: View, chain: seq<nat>)
    requires ChainOf(v, chain)
    ensures forall q | q in chain :: q in v && Layout(v[q])
  {
  }

  /** No page of the chain got a new slot. */
  ghost predicate SameDirectories(v: View, v': View, chain: seq<nat>) {
    forall p | p in chain :: p in v && p in v' && SlotCount(v'[p]) == SlotCount(v[p])
  }

  ghost predicate Deleted(d: PageBytes, d': PageBytes, slot: nat)
    requires Layout(d)
  {
    SameShape(d, d') && Tuples(d') == Tuples(d) - {slot}
  }

  lemma PageDeleted(v: View, chain: seq<nat>, rid: RID, d: PageBytes)
    requires ChainOf(v, chain) && rid.page in chain && Deleted(v[rid.page], d, rid.slot)
    ensures ChainOf(v[rid.page := d], chain) && HeapMap(v[rid.page := d], chain) == HeapMap(v, chain) - {rid}
    ensures Kept(v, v[rid.page := d], chain, chain) && SameDirectories(v, v[rid.page := d], chain)
    ensures rid in HeapMap(v, chain) <==> rid.slot in Tuples(v[rid.page])
  {
    hide Layout, Tuples;
    Lookup(v, chain, rid);
    TupleTakenFromPage(v, chain, rid.page, d, rid.slot);
    KeptOnePage(v, chain, rid.page, d);
  }

  ghost predicate Restored(d: PageBytes, d': PageBytes, slot: nat, tuple: seq<byte>, ok: bool)
    requires Layout(d)
  {
    && Layout(d') && SlotCount(d') == SlotCount(d) && NextPage(d') == NextPage(d)
    && (ok <==> CanRestore(d, slot, Cut(|tuple|)))
    && Tuples(d') == if ok then Tuples(d)[slot := tuple] else Tuples(d)
  }

  lemma RestoreDecides(d: PageBytes, d': PageBytes, slot: nat, tuple: seq<byte>, ok: bool)
    requires Layout(d) && Restored(d, d', slot, tuple, ok)
    ensures ok <==> CanRestore(d, slot, Cut(|tuple|))
  {
  }

  lemma PageRestored(v: View, chain: seq<nat>, rid: RID, d: PageBytes, tuple: seq<byte>, ok: bool)
    requires ChainOf(v, chain) && rid.page in chain && Restored(v[rid.page], d, rid.slot, tuple, ok)
    ensures ChainOf(v[rid.page := d], chain)
    ensures HeapMap(v[rid.page := d], chain) == if ok then HeapMap(v, chain)[rid := tuple] else HeapMap(v, chain)
    ensures Kept(v, v[rid.page := d], chain, chain) && SameDirectories(v, v[rid.page := d], chain)
    ensures ok ==> rid !in HeapMap(v, chain)
  {
    hide Layout, Tuples;
    Lookup(v, chain, rid);
    if ok {
      TuplePutInPage(v, chain, rid.page, d, rid.slot, tuple);
    } else {
      PageRearranged(v, chain, rid.page, d);
    }
    KeptOnePage(v, chain, rid.page, d);
  }

  /** The page after the heuristic has been asked and, if it says so, obeyed. */
  ghost predicate MaybeCompacted(d: PageBytes, d1: PageBytes)
    requires Layout(d)
  {
    if ReportsCompacted(Directory(d)) then d1 == d else Compacted(d, d1)
  }

  lemma ReinsertPlaces(d: PageBytes, d1: PageBytes, slot: nat, n: nat)
    requires Layout(d) && slot < SlotCount(d) && slot !in Tuples(d) && MaybeCompacted(d, d1)
    ensures Layout(d1) && slot < SlotCount(d1) && !Live(Directory(d1), slot) && HasDead(d1)
    ensures CanPlace(d1, n) <==> Reinserts(d, n)
    ensures NextPage(d1) == NextPage(d) && SlotCount(d1) == SlotCount(d) && Tuples(d1) == Tuples(d)
  {
    assert slot !in Tuples(d1);
    assert !Live(Directory(d1), slot);
    hide Layout, ReportsCompacted, IsPacked, Tuples;
  }

  /** A page that has been compacted, or seemed to be, and has no room takes nothing on a visit either. */
  lemma NoRoomLeft(d: PageBytes, d1: PageBytes, n: nat)
    requires Layout(d) && MaybeCompacted(d, d1) && Layout(d1) && !CanPlace(d1, Cut(n))
    ensures !PageTakes(d1, n)
  {
    hide Layout, ReportsCompacted, CanPlace, PageTakes, PageLayout.Compacted, Directory, DirectoryFits;
    LayoutFits(d);
    if n >= 0x1_0000 {
      TooLongForPage(d1, n);
    } else if ReportsCompacted(Directory(d)) {
      NoRoomReported(d, n);
    } else {
      NoRoomCompacted(d, d1, n);
    }
  }

  lemma NoRoomReported(d: PageBytes, n: nat)
    requires Layout(d) && ReportsCompacted(Directory(d)) && !CanPlace(d, n)
    ensures !PageTakes(d, n)
  {
    hide Layout, ReportsCompacted, CanPlace, FitsCompacted, Directory, DirectoryFits;
    LayoutFits(d);
  }

  lemma LayoutFits(d: PageBytes)
    requires Layout(d)
    ensures DirectoryFits(d)
  {
  }

  lemma NoRoomCompacted(d: PageBytes, d1: PageBytes, n: nat)
    requires Layout(d) && PageLayout.Compacted(d, d1) && !CanPlace(d1, n)
    ensures !PageTakes(d1, n)
  {
    CompactedTakes(d, d1, n);
    assert Layout(d1);
    hide Layout, ReportsCompacted, PageLayout.Compacted, CanPlace, FitsCompacted;
  }

  lemma TooLongForPage(d: PageBytes, n: nat)
    requires Layout(d) && n > PAGE_SIZE
    ensures !PageTakes(d, n)
  {
    hide ReportsCompacted;
  }

  datatype UpdateEffect = Missing | Rewritten | Evicted

  /** An update on its own page: no such tuple, done under the same RID, or taken out for want of room. */
  ghost predicate Updated(d: PageBytes, d': PageBytes, slot: nat, tuple: seq<byte>, effect: UpdateEffect)
    requires Layout(d)
  {
    && Layout(d') && NextPage(d') == NextPage(d) && SlotCount(d') == SlotCount(d)
    && (effect.Missing? <==> slot !in Tuples(d)) && (effect.Rewritten? <==> KeepsRid(d, slot, Cut(|tuple|)))
    && match effect
       case Missing => Tuples(d') == Tuples(d)
       case Rewritten => Tuples(d') == Tuples(d)[slot := tuple]
       case Evicted =>
         && Tuples(d') == Tuples(d) - {slot}
         && |Tuples(d)[slot]| < |tuple| && !PageTakes(d', |tuple|)
  }

  lemma UpdateMisses(d: PageBytes, slot: nat, tuple: seq<byte>)
    requires Layout(d) && slot !in Tuples(d)
    ensures Updated(d, d, slot, tuple, Missing)
  {
    hide Layout, Tuples;
  }

  lemma UpdateKeeps(d: PageBytes, d': PageBytes, slot: nat, tuple: seq<byte>)
    requires Layout(d) && SameShape(d, d') && slot in Tuples(d) && Cut(|tuple|) <= |Tuples(d)[slot]|
    requires Tuples(d') == Tuples(d)[slot := tuple]
    ensures Updated(d, d', slot, tuple, Rewritten)
  {
    hide Layout, Tuples, LiveBytes, FreeSpace, ReportsCompacted;
  }

  lemma UpdateReinserts(d: PageBytes, d1: PageBytes, d': PageBytes, slot: nat, tuple: seq<byte>, effect: UpdateEffect)
    requires Layout(d) && slot in Tuples(d) && Cut(|tuple|) > |Tuples(d)[slot]|
    requires SameShape(d, d1) && Tuples(d1) == Tuples(d) - {slot}
    requires Layout(d') && NextPage(d') == NextPage(d1) && SlotCount(d') == SlotCount(d1)
    requires Reinserts(d1, Cut(|tuple|)) <==> KeepsRid(d, slot, Cut(|tuple|))
    requires !effect.Missing? && (effect.Rewritten? <==> Reinserts(d1, Cut(|tuple|)))
    requires Tuples(d') == if effect.Rewritten? then Tuples(d1)[slot := tuple] else Tuples(d1)
    requires effect.Evicted? ==> !PageTakes(d', |tuple|)
    ensures Updated(d, d', slot, tuple, effect)
  {
    hide Layout, Tuples, KeepsRid, Reinserts, PageTakes;
  }

  lemma UpdateDecides(d: PageBytes, d': PageBytes, slot: nat, tuple: seq<byte>, effect: UpdateEffect)
    requires Layout(d) && Updated(d, d', slot, tuple, effect)
    ensures effect.Rewritten? <==> KeepsRid(d, slot, Cut(|tuple|))
  {
  }

  lemma PageUpdated(v: View, chain: seq<nat>, rid: RID, d: PageBytes, tuple: seq<byte>, effect: UpdateEffect)
    requires ChainOf(v, chain) && rid.page in chain && Updated(v[rid.page], d, rid.slot, tuple, effect)
    ensures ChainOf(v[rid.page := d], chain) && Kept(v, v[rid.page := d], chain, chain)
    ensures effect.Missing? <==> rid !in HeapMap(v, chain)
    ensures HeapMap(v[rid.page := d], chain) ==
            match effect
            case Missing => HeapMap(v, chain)
            case Rewritten => HeapMap(v, chain)[rid := tuple]
            case Evicted => HeapMap(v, chain) - {rid}
    ensures effect.Evicted? ==> |HeapMap(v, chain)[rid]| < |tuple|
  {
    hide Layout, Tuples, PageTakes;
    Lookup(v, chain, rid);
    KeptOnePage(v, chain, rid.page, d);
    match effect {
      case Missing => PageRearranged(v, chain, rid.page, d);
      case Rewritten => TuplePutInPage(v, chain, rid.page, d, rid.slot, tuple);
      case Evicted => TupleTakenFromPage(v, chain, rid.page, d, rid.slot);
    }
  }

  lemma TupleWithinPage(d: PageBytes, slot: nat)
    requires Layout(d) && slot in Tuples(d)
    ensures |Tuples(d)[slot]| + HEADER_SIZE + SLOT_SIZE <= PAGE_SIZE
  {
    assert Live(Directory(d), slot);
  }

  lemma UpdateFits(v: View, chain: seq<nat>, rid: RID, d: PageBytes, tuple: seq<byte>, effect: UpdateEffect)
    requires ChainOf(v, chain) && rid.page in chain && Updated(v[rid.page], d, rid.slot, tuple, effect)
    ensures effect.Rewritten? ==> |tuple| + HEADER_SIZE + SLOT_SIZE <= PAGE_SIZE
    ensures effect.Evicted? ==> !PageTakes(d, |tuple|)
  {
    hide Layout, PageTakes;
    if effect.Rewritten? {
      assert rid.slot in Tuples(d);
      TupleWithinPage(d, rid.slot);
    }
  }

  /** As FirstFit, for a tuple that has been taken out of page `own` for want of room there. */
  ghost predicate NextFit(v: View, chain: seq<nat>, chain': seq<nat>, own: nat, p: nat, n: nat)
    requires ChainOf(v, chain)
  {
    && p != own
    && exists k: nat :: k < |chain'| && chain'[k] == p && OthersTakeNot(v, chain, k, own, n)
                        && (k < |chain| ==> p in v && p == chain[k] && PageTakes(v[p], n))
  }

  ghost predicate OthersTakeNot(v: View, chain: seq<nat>, k: nat, own: nat, n: nat)
    requires ChainOf(v, chain)
  {
    forall i: nat | i < k && i < |chain| && chain[i] != own :: !PageTakes(v[chain[i]], n)
  }

  /** That page is the first other one of the chain that takes the tuple, or a new one exactly if none does. */
  lemma NextFitIs(v: View, chain: seq<nat>, chain': seq<nat>, own: nat, p: nat, n: nat)
    requires ChainOf(v, chain) && chain <= chain' && NextFit(v, chain, chain', own, p, n)
    requires Distinct(chain')
    ensures p in chain' && p != own && (p !in chain <==> forall q | q in chain && q != own :: !PageTakes(v[q], n))
    ensures p in chain ==> PageTakes(v[p], n)
    ensures forall i | 0 <= i < |chain| && chain[i] != own && PageTakes(v[chain[i]], n) :: p in chain[..i + 1]
  {
    hide ChainOf, PageTakes, Layout;
    PagesInView(v, chain);
    var k: nat :| k < |chain'| && chain'[k] == p && OthersTakeNot(v, chain, k, own, n)
                  && (k < |chain| ==> p in v && p == chain[k] && PageTakes(v[p], n));
    assert forall i | 0 <= i < |chain| :: chain'[i] == chain[i];
    forall i | 0 <= i < |chain| && chain[i] != own && PageTakes(v[chain[i]], n) ensures p in chain[..i + 1] {
      assert k <= i;
      assert chain[..i + 1][k] == p;
    }
  }

  /** An insert never ends on a page that does not take the tuple. */
  lemma FitsElsewhere(v: View, chain: seq<nat>, chain': seq<nat>, own: nat, d: PageBytes, p: nat, n: nat)
    requires ChainOf(v, chain) && own in chain && ChainOf(v[own := d], chain) && Layout(d) && !PageTakes(d, n)
    requires FirstFit(v[own := d], chain, chain', p, n) && forall q | q in chain' && q !in chain :: q !in v
    requires chain <= chain' && Distinct(chain')
    ensures NextFit(v, chain, chain', own, p, n)
  {
    var v1: View := v[own := d];
    var k: nat :| k < |chain'| && chain'[k] == p && NoneTakes(v1, chain, k, n)
                  && (k < |chain| ==> p in v1 && p == chain[k] && PageTakes(v1[p], n));
    hide ChainOf, Layout, PageTakes;
    assert OthersTakeNot(v, chain, k, own, n);
  }

  // ---- the walk of an insert along the chain ----

  /**
   * An insert of `n` bytes into the heap `(v, chain)` has come to page `k` of what is now
   * `(v', chain')`: nothing was placed, no page passed takes the tuple, the pages ahead are
   * untouched, and a page added by this insert is the one under way and is empty.
   */
  ghost predicate Walk(v: View, chain: seq<nat>, v': View, chain': seq<nat>, k: nat, created: bool, n: nat)
    requires ChainOf(v, chain)
  {
    && ChainOf(v', chain') && Kept(v, v', chain, chain') && HeapMap(v', chain') == HeapMap(v, chain)
    && k < |chain'| && NoneTakes(v, chain, k, n) && PagesAhead(v, chain, v', k)
    && (if created then k == |chain| == |chain'| - 1 && Empty(v'[chain'[k]]) else chain' == chain)
  }

  ghost predicate PagesAhead(v: View, chain: seq<nat>, v': View, k: nat)
    requires ChainOf(v, chain)
  {
    forall i: nat | k <= i < |chain| :: chain[i] in v' && v'[chain[i]] == v[chain[i]]
  }

  lemma WalkStart(v: View, chain: seq<nat>, n: nat)
    requires ChainOf(v, chain)
    ensures |chain| > 0 && Walk(v, chain, v, chain, 0, false, n)
  {
    hide Layout, Tuples, HeapMap;
  }

  lemma WalkPage(v: View, chain: seq<nat>, v': View, chain': seq<nat>, k: nat, created: bool, n: nat)
    requires ChainOf(v, chain) && Walk(v, chain, v', chain', k, created, n)
    ensures chain'[k] in chain' && chain'[k] in v' && chain'[k] < INVALID_PAGE && LinkedAt(v', chain', k)
    ensures ChainOf(v', chain') && (!created ==> chain' == chain)
    ensures Layout(v'[chain'[k]]) && Kept(v, v', chain, chain') && HeapMap(v', chain') == HeapMap(v, chain)
    ensures created && n + HEADER_SIZE + SLOT_SIZE <= PAGE_SIZE ==> PageTakes(v'[chain'[k]], n)
    ensures !created ==> chain'[k] in v && v'[chain'[k]] == v[chain[k]]
    ensures k + 1 < |chain'| ==> chain'[k + 1] < INVALID_PAGE
  {
    hide Layout, Tuples, HeapMap, PageTakes, Kept;
    if created && n + HEADER_SIZE + SLOT_SIZE <= PAGE_SIZE {
      EmptyTakes(v'[chain'[k]], n);
    }
    assert k + 1 < |chain'| ==> chain'[k + 1] in chain';
  }

  /** The visited page did not take the tuple. */
  lemma WalkVisited(v: View, chain: seq<nat>, v': View, k: nat, d: PageBytes, tuple: seq<byte>)
    requires ChainOf(v, chain) && Walk(v, chain, v', chain, k, false, |tuple|) && Visited(v'[chain[k]], d, None, tuple)
    ensures ChainOf(v'[chain[k] := d], chain) && Kept(v, v'[chain[k] := d], chain, chain)
    ensures HeapMap(v'[chain[k] := d], chain) == HeapMap(v, chain)
    ensures NextPage(d) == Successor(chain, k) && NoneTakes(v, chain, k + 1, |tuple|)
    ensures k + 1 < |chain| ==> Walk(v, chain, v'[chain[k] := d], chain, k + 1, false, |tuple|)
  {
    hide Layout, Tuples, HeapMap, PageTakes;
    var p := chain[k];
    PageVisited(v', chain, p, d, None, tuple);
    KeptTransitive(v, v', v'[p := d], chain, chain, chain);
    assert LinkedAt(v', chain, k) && !PageTakes(v[p], |tuple|);
  }

  lemma WalkPlaced(v: View, chain: seq<nat>, v': View, chain': seq<nat>, k: nat, created: bool,
                   d: PageBytes, slot: nat, tuple: seq<byte>)
    requires ChainOf(v, chain) && Walk(v, chain, v', chain', k, created, |tuple|)
    requires Visited(v'[chain'[k]], d, Some(slot), tuple)
    ensures var p := chain'[k];
            && ChainOf(v'[p := d], chain') && Kept(v, v'[p := d], chain, chain')
            && LowestFree(HeapMap(v, chain), RID(p, slot))
            && HeapMap(v'[p := d], chain') == HeapMap(v, chain)[RID(p, slot) := tuple]
            && FirstFit(v, chain, chain', p, |tuple|)
  {
    hide Layout, Tuples, HeapMap, PageTakes;
    var p := chain'[k];
    PageVisited(v', chain', p, d, Some(slot), tuple);
    KeptTransitive(v, v', v'[p := d], chain, chain', chain');
  }

  lemma WalkExtended(v: View, chain: seq<nat>, v': View, v'': View, chain'': seq<nat>, n: nat)
    requires ChainOf(v, chain) && ChainOf(v', chain) && ChainOf(v'', chain'')
    requires Kept(v, v', chain, chain) && Kept(v', v'', chain, chain'')
    requires HeapMap(v', chain) == HeapMap(v, chain) && HeapMap(v'', chain'') == HeapMap(v', chain)
    requires NoneTakes(v, chain, |chain|, n) && |chain''| == |chain| + 1 && Empty(v''[chain''[|chain|]])
    ensures Walk(v, chain, v'', chain'', |chain|, true, n)
    ensures chain''[|chain| - 1] == chain[|chain| - 1] && chain[|chain| - 1] in v''
    ensures NextPage(v''[chain[|chain| - 1]]) == chain''[|chain|]
  {
    hide Layout, Tuples, HeapMap, PageTakes;
    KeptTransitive(v, v', v'', chain, chain, chain'');
    assert LinkedAt(v'', chain'', |chain| - 1) && chain''[|chain| - 1] in chain'';
  }
}
