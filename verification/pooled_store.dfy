/** The buffer pool in the place of the page store that table heaps are built on. */
module PooledStores {
  import opened Bytes
  import opened Options
  import opened PageLayout
  import opened DiskManagers
  import opened PoolModel
  import opened BufferPools

  /**
   * What PageStore promises, kept by a pool: `pages` are the pages given out and what they
   * hold, `held` the pins that fetches have taken and releases have not yet given back, and
   * `failures` counts the calls for which there was no frame.
   */
  class PooledStore {
    const pool: BufferPool
    ghost var pages: map<nat, PageBytes>
    ghost var held: multiset<nat>
    ghost var failures: nat

    ghost predicate Valid()
      reads this, pool, pool.disk, pool.replacer
    {
      && pool.Valid() && pages.Keys <= pool.disk.live
      && Shown(pool.State(), pool.disk.file, pages) && PinsHeld(pool.State(), held, pages)
    }

    constructor (pool: BufferPool, ghost pages: map<nat, PageBytes>)
      requires pool.Valid() && pages.Keys <= pool.disk.live && Shown(pool.State(), pool.disk.file, pages)
      ensures Valid() && this.pool == pool && this.pages == pages && held == multiset{} && failures == 0
    {
      this.pool, this.pages, held, failures := pool, pages, multiset{}, 0;
    }

    /** The bytes of a page, pinned from now on; none exactly when it is not cached and every frame is pinned. */
    method FetchPage(p: nat) returns (read: Option<PageBytes>)
      requires Valid() && p in pages
      modifies this`held, this`failures, pool, pool.disk`file, pool.replacer
      ensures Valid()
      ensures read.None? ==> failures == old(failures) + 1 && held == old(held)
      ensures read.Some? ==> failures == old(failures) && read.value == pages[p] && held == old(held) + multiset{p}
      ensures read.None? <==> p !in old(pool.table) && AllPinned(old(pool.State()))
    {
      hide PoolOK, InSync, AllPinned, Seen, Evicted, Partition, Shown, PinsHeld, Pins, PinsKept;
      InUse(pool.disk, pages.Keys);
      ghost var s, file := pool.State(), pool.disk.file;
      forall q: nat ensures Seen(s, file, q) == pool.View(q) {}
      if p !in pool.table {
        UnpinnedIfUncached(s, p);
      }
      HeldOnce(s, held, pages, p);
      ShownAt(s, file, pages, p);
      var f := pool.FetchPage(p);
      forall q: nat ensures Seen(pool.State(), pool.disk.file, q) == pool.View(q) {}
      ShownStill(s, file, pool.State(), pool.disk.file, pages);
      if f.None? {
        failures := failures + 1;
        return None;
      }
      PinsOf(pool.State(), p);
      held := held + multiset{p};
      HeldStays(s, pool.State(), p, old(held), held, pages, pages);
      read := Some(pool.frames[f.value].data);
    }

    /** Write a page back and unpin it. This cannot fail. */
    method Release(p: nat, data: PageBytes)
      requires Valid() && p in held
      modifies this`pages, this`held, pool`frames, pool`owed
      ensures Valid() && pages == old(pages)[p := data] && held == old(held) - multiset{p}
    {
      hide PoolOK, InSync, Seen, Partition, Shown, PinsHeld, Pins, PinsKept;
      ghost var s, file := pool.State(), pool.disk.file;
      forall q: nat ensures Seen(s, file, q) == pool.View(q) {}
      InUse(pool.disk, pages.Keys);
      HeldIsPinned(s, held, pages, p);
      pool.ChangePage(p, data);
      ghost var s1 := pool.State();
      PinnedIsCached(s1, p);
      pool.UnpinPage(p, true);
      forall q: nat ensures Seen(pool.State(), pool.disk.file, q) == pool.View(q) {}
      ShownPut(s, file, pool.State(), file, pages, p, data);
      pages, held := pages[p := data], held - multiset{p};
      HeldKept(s, s1, pool.State(), p, old(held), held, old(pages), pages);
    }

    /** Unpin a page that was only read. */
    method ReleaseUnchanged(p: nat)
      requires Valid() && p in held && p !in pool.owed
      modifies this`held, pool`frames, pool`owed
      ensures Valid() && held == old(held) - multiset{p}
    {
      hide PoolOK, InSync, Seen, Partition, Shown, PinsHeld, Pins, PinsKept;
      ghost var s, file := pool.State(), pool.disk.file;
      forall q: nat ensures Seen(s, file, q) == pool.View(q) {}
      InUse(pool.disk, pages.Keys);
      HeldIsPinned(s, held, pages, p);
      pool.UnpinPage(p, false);
      forall q: nat ensures Seen(pool.State(), pool.disk.file, q) == pool.View(q) {}
      ShownStill(s, file, pool.State(), file, pages);
      held := held - multiset{p};
      HeldKept(s, s, pool.State(), p, old(held), held, pages, pages);
    }

    /** A new pinned page of zeros, or none for want of a frame: its id, not in use before, is then used up. */
    method NewPage() returns (p: Option<nat>)
      requires Valid() && (pool.disk.free_list != [] || pool.disk.capacity < INVALID_PAGE)
      modifies this, pool, pool.disk, pool.replacer
      ensures Valid()
      ensures p.None? ==> failures == old(failures) + 1 && pages == old(pages) && held == old(held)
      ensures p.Some? ==>
                && failures == old(failures) && p.value !in old(pages) && p.value < INVALID_PAGE
                && pages == old(pages)[p.value := Zeros(PAGE_SIZE)] && held == old(held) + multiset{p.value}
      ensures p.None? <==> AllPinned(old(pool.State()))
      ensures exists id ::
                && id !in old(pool.disk.live) && pool.disk.live == old(pool.disk.live) + {id}
                && (p.Some? ==> id == p.value)
    {
      hide PoolOK, InSync, AllPinned, Seen, Evicted, Partition, Shown, PinsHeld, Pins, PinsKept;
      InUse(pool.disk, pages.Keys);
      ghost var s, file := pool.State(), pool.disk.file;
      forall q: nat ensures Seen(s, file, q) == pool.View(q) {}
      var id, f := pool.NewPage();
      if f.None? {
        forall q: nat ensures Seen(pool.State(), pool.disk.file, q) == pool.View(q) {}
        ShownBut(s, file, pool.State(), pool.disk.file, pages, id);
        failures := failures + 1;
        return None;
      }
      AllocatedBelow(pool.disk, id);
      NotHeld(s, held, pages, id);
      PinsOf(pool.State(), id);
      forall q: nat ensures Seen(pool.State(), pool.disk.file, q) == pool.View(q) {}
      ShownPut(s, file, pool.State(), pool.disk.file, pages, id, Zeros(PAGE_SIZE));
      pages, held := pages[id := Zeros(PAGE_SIZE)], held + multiset{id};
      HeldStays(s, pool.State(), id, old(held), held, old(pages), pages);
      p := Some(id);
    }
  }

  /** The clients of the pool see these pages. */
  ghost predicate Shown(s: Pool, file: seq<byte>, pages: map<nat, PageBytes>) {
    forall p | p in pages :: Seen(s, file, p) == pages[p]
  }

  lemma ShownAt(s: Pool, file: seq<byte>, pages: map<nat, PageBytes>, p: nat)
    requires Shown(s, file, pages) && p in pages
    ensures Seen(s, file, p) == pages[p]
  {
    hide Seen;
  }

  lemma ShownStill(s: Pool, file: seq<byte>, s': Pool, file': seq<byte>, pages: map<nat, PageBytes>)
    requires Shown(s, file, pages) && INVALID_PAGE !in pages
    requires forall q: nat | q != INVALID_PAGE :: Seen(s', file', q) == Seen(s, file, q)
    ensures Shown(s', file', pages)
  {
    hide Seen;
  }

  lemma ShownBut(s: Pool, file: seq<byte>, s': Pool, file': seq<byte>, pages: map<nat, PageBytes>, p: nat)
    requires Shown(s, file, pages) && INVALID_PAGE !in pages && p !in pages
    requires forall q: nat | q != p && q != INVALID_PAGE :: Seen(s', file', q) == Seen(s, file, q)
    ensures Shown(s', file', pages)
  {
    hide Seen;
  }

  lemma ShownPut(s: Pool, file: seq<byte>, s': Pool, file': seq<byte>, pages: map<nat, PageBytes>, p: nat, d: PageBytes)
    requires Shown(s, file, pages) && INVALID_PAGE !in pages && Seen(s', file', p) == d
    requires forall q: nat | q != p && q != INVALID_PAGE :: Seen(s', file', q) == Seen(s, file, q)
    ensures Shown(s', file', pages[p := d])
  {
    hide Seen;
  }

  /** The pool counts at least the pins that are held. */
  ghost predicate PinsHeld(s: Pool, held: multiset<nat>, pages: map<nat, PageBytes>) {
    forall p: nat | p in held :: p in pages && Pins(s, p) >= held[p]
  }

  lemma HeldOnce(s: Pool, held: multiset<nat>, pages: map<nat, PageBytes>, p: nat)
    requires PinsHeld(s, held, pages)
    ensures Pins(s, p) >= held[p]
  {
    hide Pins;
  }

  lemma HeldIsPinned(s: Pool, held: multiset<nat>, pages: map<nat, PageBytes>, p: nat)
    requires PinsHeld(s, held, pages) && p in held
    ensures p in pages && Pins(s, p) > 0 && p in s.table
  {
  }

  lemma NotHeld(s: Pool, held: multiset<nat>, pages: map<nat, PageBytes>, p: nat)
    requires PinsHeld(s, held, pages) && p !in pages
    ensures held[p] == 0
  {
    hide Pins;
  }

  lemma PinnedIsCached(s: Pool, p: nat)
    requires Pins(s, p) > 0
    ensures p in s.table
  {
  }

  lemma UnpinnedIfUncached(s: Pool, p: nat)
    requires p !in s.table
    ensures Pins(s, p) == 0
  {
  }

  lemma HeldStays(s: Pool, s': Pool, p: nat, held: multiset<nat>, held': multiset<nat>, pages: map<nat, PageBytes>,
                  pages': map<nat, PageBytes>)
    requires PinsHeld(s, held, pages) && pages.Keys + {p} == pages'.Keys
    requires PinsKept(s, s', p) && held' == held + multiset{p} && Pins(s', p) >= held[p] + 1
    ensures PinsHeld(s', held', pages')
  {
    hide Pins;
    assert forall q | q in pages :: q in pages';
    assert p in pages';
  }

  lemma HeldKept(s: Pool, s1: Pool, s': Pool, p: nat, held: multiset<nat>, held': multiset<nat>,
                 pages: map<nat, PageBytes>, pages': map<nat, PageBytes>)
    requires PinsHeld(s, held, pages) && pages'.Keys == pages.Keys && (s1 == s || PinsKept(s, s1, p))
    requires PinsKept(s1, s', p) && held' == held - multiset{p} && p in held && Pins(s', p) == Pins(s, p) - 1
    ensures PinsHeld(s', held', pages')
  {
    hide Pins;
    assert forall q | q in pages :: q in pages';
  }

  lemma AllocatedBelow(disk: DiskManager, id: nat)
    requires disk.Valid() && id in disk.live
    ensures id < INVALID_PAGE
  {
    LiveAllocated(disk, id);
  }

  lemma InUse(disk: DiskManager, pages: set<nat>)
    requires disk.Valid() && pages <= disk.live
    ensures INVALID_PAGE !in pages
  {
    if INVALID_PAGE in pages {
      LiveAllocated(disk, INVALID_PAGE);
    }
  }

  lemma PinnedAndUnpinned(s: Pool, s1: Pool, s2: Pool, p: nat)
    requires Repinned(s, s1, p) && Repinned(s1, s2, p) && Pins(s2, p) == Pins(s, p)
    ensures s2 == s
  {
  }

  /**
   * What a scan does to the pins of page `p` when it goes on to page `q` and is closed. If `q`
   * cannot be had it gives up a pin that is not its own: a client with the only pin on `p` has
   * none then, and the page can be evicted under its hands.
   */
  method PassPage(pool: BufferPool, p: nat, q: nat) returns (failed: bool)
    requires pool.Valid() && p in pool.disk.live && q in pool.disk.live && p != q
    requires Pins(pool.State(), p) > 0 && {p, q} !! pool.owed
    modifies pool, pool.disk`file, pool.replacer
    ensures pool.Valid()
    ensures Pins(pool.State(), p) == old(Pins(pool.State(), p)) - if failed then 1 else 0
    ensures failed && old(Pins(pool.State(), p)) == 1 ==> Evictable(pool.State(), p)
    ensures failed <==> q !in old(pool.table) && AllPinned(old(pool.State()))
  {
    hide PoolOK, InSync, Seen, Evicted, Partition, AllPinned;
    ghost var s := pool.State();
    var _ := pool.FetchPage(p);
    ghost var s1 := pool.State();
    pool.UnpinPage(p, false);
    PinnedAndUnpinned(s, s1, pool.State(), p);
    var next := pool.FetchPage(q);
    failed := next.None?;
    if failed {
      pool.UnpinPage(p, false);
    } else {
      pool.UnpinPage(q, false);
    }
  }
}
