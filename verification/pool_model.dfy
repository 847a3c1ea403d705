/** The bookkeeping of the buffer pool as a value, and what its operations do to it. */
module PoolModel {
  import opened Bytes
  import opened PageLayout
  import opened DiskFormat
  import opened Lists

  datatype Frame = Frame(page: nat, data: PageBytes, pins: nat, dirty: bool)

  /** Frames, page table, the free frames, and how many frames have ever been used. */
  datatype Pool = Pool(frames: seq<Frame>, table: map<nat, nat>, free: seq<nat>, size: nat)

  ghost predicate Blank(f: Frame) {
    f.page == INVALID_PAGE && f.pins == 0 && !f.dirty
  }

  /** A used frame is free, or caches the page the table sends to it. */
  ghost predicate FrameOK(s: Pool, f: nat)
    requires f < |s.frames|
  {
    if f < s.size && f !in s.free
    then s.frames[f].page in s.table && s.table[s.frames[f].page] == f
    else Blank(s.frames[f])
  }

  ghost predicate PageOK(s: Pool, p: nat)
    requires p in s.table
  {
    && p != INVALID_PAGE && s.table[p] < s.size <= |s.frames|
    && s.frames[s.table[p]].page == p && s.table[p] !in s.free
  }

  ghost predicate PoolOK(s: Pool) {
    && s.size <= |s.frames| && |s.table| + |s.free| == s.size
    && Distinct(s.free) && (forall f | f in s.free :: f < s.size)
    && (forall f: nat | f < |s.frames| :: FrameOK(s, f))
    && (forall p | p in s.table :: PageOK(s, p))
  }

  /** No two pages share a frame. */
  lemma TableInjective(s: Pool, p: nat, q: nat)
    requires PoolOK(s) && p in s.table && q in s.table && s.table[p] == s.table[q]
    ensures p == q
  {
    assert PageOK(s, p) && PageOK(s, q);
  }

  // ---- finding a frame ----

  ghost predicate Evictable(s: Pool, p: nat) {
    p in s.table && s.table[p] < |s.frames| && s.frames[s.table[p]].pins == 0
  }

  /** `f` is the frame to use next: a free one, one never used, or that of an unpinned page. */
  ghost predicate Picked(s: Pool, free: seq<nat>, size: nat, f: nat) {
    if s.free != [] then s.free == free + [f] && size == s.size
    else if s.size < |s.frames| then f == s.size && size == s.size + 1 && free == []
    else
      free == [] && size == s.size && f < |s.frames| && Evictable(s, s.frames[f].page) && s.table[s.frames[f].page] == f
  }

  ghost predicate AllPinned(s: Pool) {
    forall f | 0 <= f < |s.frames| :: s.frames[f].pins > 0
  }

  /** There is no frame to be had exactly when all of the pool's frames are pinned. */
  lemma NoFrame(s: Pool)
    requires PoolOK(s)
    ensures s.free == [] && s.size == |s.frames| && (forall p :: !Evictable(s, p)) <==> AllPinned(s)
  {
    if s.free == [] && s.size == |s.frames| && forall p :: !Evictable(s, p) {
      forall f: nat | f < |s.frames| ensures s.frames[f].pins > 0 {
        assert FrameOK(s, f) && !Evictable(s, s.frames[f].page);
      }
    }
    assert s.size < |s.frames| ==> FrameOK(s, s.size);
    forall i: nat | i < |s.free| ensures s.free[i] < |s.frames| && s.frames[s.free[i]].pins == 0 {
      assert s.free[i] in s.free;
      assert FrameOK(s, s.free[i]);
    }
    assert s.free != [] ==> s.frames[s.free[0]].pins == 0;
  }

  /** Page `p` put into frame `f`, whatever page that frame held before. */
  ghost function Place(s: Pool, free: seq<nat>, size: nat, f: nat, p: nat, data: PageBytes): Pool
    requires f < |s.frames|
  {
    Pool(s.frames[f := Frame(p, data, 1, false)], (s.table - {s.frames[f].page})[p := f], free, size)
  }

  lemma PickedFrame(s: Pool, free: seq<nat>, size: nat, f: nat)
    requires PoolOK(s) && Picked(s, free, size, f)
    ensures f < |s.frames| && f < size <= |s.frames| && s.frames[f].pins == 0 && f !in free
    ensures s.frames[f].page in s.table ==> s.table[s.frames[f].page] == f && s.free == [] && size == s.size
    ensures s.frames[f].page !in s.table ==> s.frames[f].page == INVALID_PAGE && Blank(s.frames[f])
    ensures forall g: nat :: g != f ==> (g < size && g !in free <==> g < s.size && g !in s.free)
  {
    if s.free != [] {
      assert s.free[|s.free| - 1] == f;
      assert forall i :: 0 <= i < |free| ==> free[i] == s.free[i];
      assert f in s.free;
    }
    assert FrameOK(s, f);
    CachedPages(s);
  }

  lemma CachedPages(s: Pool)
    requires PoolOK(s)
    ensures forall p | p in s.table :: p != INVALID_PAGE && s.table[p] < |s.frames|
  {
    forall p | p in s.table ensures p != INVALID_PAGE && s.table[p] < |s.frames| {
      assert PageOK(s, p);
    }
  }

  lemma PlaceOK(s: Pool, free: seq<nat>, size: nat, f: nat, p: nat, data: PageBytes)
    requires PoolOK(s) && Picked(s, free, size, f) && p !in s.table && p != INVALID_PAGE && f < |s.frames|
    ensures PoolOK(Place(s, free, size, f, p, data))
  {
    var s' := Place(s, free, size, f, p, data);
    PickedFrame(s, free, size, f);
    PlaceFree(s, free, size, f);
    PlaceCounts(s, free, size, f, p);
    hide Picked, Distinct;
    forall g: nat | g < |s'.frames| ensures FrameOK(s', g) {
      PlaceFrameOK(s, free, size, f, p, data, g);
    }
    forall q | q in s'.table ensures PageOK(s', q) {
      PlacePageOK(s, free, size, f, p, data, q);
    }
    hide FrameOK, PageOK;
  }

  lemma PlaceFrameOK(s: Pool, free: seq<nat>, size: nat, f: nat, p: nat, data: PageBytes, g: nat)
    requires PoolOK(s) && Picked(s, free, size, f) && p !in s.table && g < |s.frames| && f < |s.frames|
    ensures FrameOK(Place(s, free, size, f, p, data), g)
  {
    hide Picked, PageOK, Distinct;
    PickedFrame(s, free, size, f);
    assert FrameOK(s, g);
    hide PoolOK, Blank;
  }

  lemma PlacePageOK(s: Pool, free: seq<nat>, size: nat, f: nat, p: nat, data: PageBytes, q: nat)
    requires PoolOK(s) && Picked(s, free, size, f) && p !in s.table && p != INVALID_PAGE && f < |s.frames|
    requires q in Place(s, free, size, f, p, data).table
    ensures PageOK(Place(s, free, size, f, p, data), q)
  {
    hide Picked, Distinct, FrameOK;
    PickedFrame(s, free, size, f);
    if q != p {
      assert PageOK(s, q);
    }
  }

  lemma PlaceFree(s: Pool, free: seq<nat>, size: nat, f: nat)
    requires PoolOK(s) && Picked(s, free, size, f)
    ensures Distinct(free) && forall g | g in free :: g < size
  {
    hide FrameOK, PageOK;
    if s.free != [] {
      assert forall i :: 0 <= i < |free| ==> free[i] == s.free[i];
      forall g | g in free ensures g in s.free {
        var i :| 0 <= i < |free| && free[i] == g;
        assert s.free[i] == g;
      }
    }
  }

  lemma PlaceCounts(s: Pool, free: seq<nat>, size: nat, f: nat, p: nat)
    requires PoolOK(s) && Picked(s, free, size, f) && p !in s.table && f < |s.frames|
    ensures |(s.table - {s.frames[f].page})[p := f]| + |free| == size
  {
    PickedFrame(s, free, size, f);
    hide FrameOK, PageOK, Distinct;
    var k := s.frames[f].page;
    Counted(s.table, k, p, f);
  }

  lemma Counted(m: map<nat, nat>, k: nat, p: nat, f: nat)
    requires p !in m
    ensures |(m - {k})[p := f]| == |m| + (if k in m then 0 else 1)
  {
    var m' := (m - {k})[p := f];
    assert m'.Keys == m.Keys - {k} + {p};
  }

  /** Page `p` dropped from the pool, its frame free again. */
  ghost function Drop(s: Pool, p: nat, blank: Frame): Pool
    requires p in s.table && s.table[p] < |s.frames|
  {
    Pool(s.frames[s.table[p] := blank], s.table - {p}, s.free + [s.table[p]], s.size)
  }

  lemma DropOK(s: Pool, p: nat, blank: Frame)
    requires PoolOK(s) && p in s.table && Blank(blank) && s.table[p] < |s.frames|
    ensures PoolOK(Drop(s, p, blank))
  {
    hide Blank;
    var s', f := Drop(s, p, blank), s.table[p];
    assert PageOK(s, p);
    assert |s.table| == |s'.table| + 1 by {
      assert s.table.Keys == s'.table.Keys + {p};
    }
    assert forall g :: g in s'.free <==> g in s.free || g == f;
    forall g: nat | g < |s'.frames| ensures FrameOK(s', g) {
      DropFrameOK(s, p, blank, g);
    }
    forall q | q in s'.table ensures PageOK(s', q) {
      DropPageOK(s, p, blank, q);
    }
    hide FrameOK, PageOK;
  }

  lemma DropFrameOK(s: Pool, p: nat, blank: Frame, g: nat)
    requires PoolOK(s) && p in s.table && Blank(blank) && s.table[p] < |s.frames| && g < |s.frames|
    ensures FrameOK(Drop(s, p, blank), g)
  {
    assert FrameOK(s, g) && PageOK(s, p);
    hide PoolOK;
  }

  lemma DropPageOK(s: Pool, p: nat, blank: Frame, q: nat)
    requires PoolOK(s) && p in s.table && s.table[p] < |s.frames| && q in s.table && q != p
    ensures PageOK(Drop(s, p, blank), q)
  {
    assert PageOK(s, q);
    TableInjectiveAt(s, p, q);
    hide PoolOK;
  }

  lemma TableInjectiveAt(s: Pool, p: nat, q: nat)
    requires PoolOK(s) && p in s.table && q in s.table && p != q
    ensures s.table[p] != s.table[q]
  {
    assert PageOK(s, p) && PageOK(s, q);
  }

  /** Another pin count, content or dirty flag for a page in the pool. */
  lemma FrameChanged(s: Pool, p: nat, frame: Frame)
    requires PoolOK(s) && p in s.table && frame.page == p && s.table[p] < |s.frames|
    ensures PoolOK(s.(frames := s.frames[s.table[p] := frame]))
  {
    var s' := s.(frames := s.frames[s.table[p] := frame]);
    assert PageOK(s, p);
    forall g: nat | g < |s'.frames| ensures FrameOK(s', g) {
      assert FrameOK(s, g);
    }
    forall q | q in s'.table ensures PageOK(s', q) {
      assert PageOK(s, q);
    }
  }

  // ---- what the pool shows of the disk ----

  /** The bytes of a page as clients see them: its frame's if it is cached, else the file's. */
  ghost function Seen(s: Pool, file: seq<byte>, p: nat): PageBytes {
    if p in s.table && s.table[p] < |s.frames| then s.frames[s.table[p]].data else PageAt(file, p)
  }

  /** A cached page that differs from the file is marked dirty, or pinned by somebody who owes that mark. */
  ghost predicate InSync(s: Pool, file: seq<byte>, owed: set<nat>, p: nat) {
    && (p in s.table && s.table[p] < |s.frames| ==>
          var f := s.frames[s.table[p]];
          (f.dirty || p in owed || f.data == PageAt(file, p)) && (p in owed ==> f.pins > 0))
    && (p in owed ==> p in s.table)
  }

  /** Eviction: what the frame held has been written back if it was dirty. */
  ghost predicate WrittenBack(s: Pool, file: seq<byte>, file': seq<byte>, f: nat)
    requires f < |s.frames|
  {
    forall q: nat ::
        PageAt(file', q) == if s.frames[f].dirty && q == s.frames[f].page then s.frames[f].data else PageAt(file, q)
  }

  /** Placing a page evicts another one without changing what anybody sees. */
  lemma PlaceSeen(s: Pool, free: seq<nat>, size: nat, f: nat, p: nat, data: PageBytes,
                  file: seq<byte>, file': seq<byte>, owed: set<nat>, q: nat)
    requires PoolOK(s) && Picked(s, free, size, f) && p !in s.table && p != INVALID_PAGE && f < |s.frames|
    requires WrittenBack(s, file, file', f) && InSync(s, file, owed, q) && q != INVALID_PAGE
    ensures var s' := Place(s, free, size, f, p, data);
            && Seen(s', file', q) == (if q == p then data else Seen(s, file, q))
            && (q != p ==> InSync(s', file', owed, q))
  {
    hide Picked, FrameOK, PageAt, Distinct;
    PickedFrame(s, free, size, f);
    if q in s.table {
      assert PageOK(s, q);
    }
  }

  /**
   * A change to a cached page whose frame is not marked as dirty is seen by everybody until the
   * page is evicted. It is seen after that if and only if the frame was dirty before, or the
   * file had these bytes already.
   */
  lemma UnmarkedChange(s: Pool, p: nat, data: PageBytes, file: seq<byte>, file': seq<byte>,
                       free: seq<nat>, size: nat, q: nat, other: PageBytes)
    requires PoolOK(s) && p in s.table && s.table[p] < |s.frames| && q != p
    requires var f := s.table[p]; WrittenBack(s.(frames := s.frames[f := s.frames[f].(data := data)]), file, file', f)
    ensures var f := s.table[p];
            var s1 := s.(frames := s.frames[f := s.frames[f].(data := data)]);
            var s2 := Place(s1, free, size, f, q, other);
            && Seen(s1, file, p) == data
            && (Seen(s2, file', p) == data <==> s.frames[f].dirty || PageAt(file, p) == data)
  {
    hide PageAt, FrameOK, Distinct;
    assert PageOK(s, p);
  }

  lemma DropSeen(s: Pool, p: nat, blank: Frame, file: seq<byte>, owed: set<nat>, q: nat)
    requires PoolOK(s) && p in s.table && s.table[p] < |s.frames| && s.frames[s.table[p]].pins == 0
    requires InSync(s, file, owed, q) && InSync(s, file, owed, p)
    ensures q != p ==> Seen(Drop(s, p, blank), file, q) == Seen(s, file, q)
    ensures InSync(Drop(s, p, blank), file, owed, q)
  {
    hide PageAt, FrameOK;
    if q in s.table && q != p {
      TableInjectiveAt(s, p, q);
    }
  }
}
