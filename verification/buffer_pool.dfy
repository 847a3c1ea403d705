/** Which page to evict: the unpinned cached page used least recently. */
module Replacers {
  import opened Bytes
  import opened Lists
  import opened PageLayout
  import opened PoolModel

  /** The pages are listed by the time of their last use, all before `now`. */
  ghost predicate Ordered(s: seq<nat>, stamp: map<nat, nat>, now: nat) {
    && (forall i :: 0 <= i < |s| ==> s[i] in stamp && stamp[s[i]] < now)
    && (forall i, j :: 0 <= i < j < |s| ==> stamp[s[i]] < stamp[s[j]])
  }

  lemma ErasedOrdered(s: seq<nat>, stamp: map<nat, nat>, now: nat, i: nat)
    requires Ordered(s, stamp, now) && i < |s|
    ensures Ordered(s[..i] + s[i + 1..], stamp, now) && Members(s[..i] + s[i + 1..]) == Members(s) - {s[i]}
  {
    var t := s[..i] + s[i + 1..];
    forall k | 0 <= k < |t| ensures t[k] == s[if k < i then k else k + 1] {}
    forall p | p in Members(s) - {s[i]} ensures p in Members(t) {
      var k :| 0 <= k < |s| && s[k] == p;
      assert t[if k < i then k else k - 1] == p;
    }
  }

  lemma RecordedOrdered(s: seq<nat>, stamp: map<nat, nat>, now: nat, p: nat)
    requires Ordered(s, stamp, now) && p !in Members(s)
    ensures Ordered(s + [p], stamp[p := now], now + 1) && Members(s + [p]) == Members(s) + {p}
  {
    var t := s + [p];
    forall i | 0 <= i < |s| ensures t[i] == s[i] && s[i] != p {
      assert s[i] in Members(s);
    }
    assert t[|s|] == p;
  }

  class Replacer {
    var mru: seq<nat>
    var positions: set<nat>
    /** A clock that ticks at every fetch or creation, and the time of each page's last one. */
    ghost var now: nat
    ghost var stamp: map<nat, nat>

    ghost predicate Valid()
      reads this
    {
      Ordered(mru, stamp, now) && positions == Members(mru)
    }

    constructor ()
      ensures Valid() && positions == {} && stamp == map[]
    {
      mru, positions, now, stamp := [], {}, 0, map[];
    }

    method Record(p: nat)
      requires Valid()
      modifies this
      ensures Valid() && positions == old(positions) + {p} && stamp == old(stamp)[p := old(now)] && now == old(now) + 1
    {
      Remove(p);
      RecordedOrdered(mru, stamp, now, p);
      mru := mru + [p];
      positions := positions + {p};
      stamp, now := stamp[p := now], now + 1;
    }

    method Remove(p: nat)
      requires Valid()
      modifies this`mru, this`positions
      ensures Valid() && positions == old(positions) - {p}
    {
      if p in positions {
        var i :| 0 <= i < |mru| && mru[i] == p;
        ErasedOrdered(mru, stamp, now, i);
        mru := mru[..i] + mru[i + 1..];
        positions := positions - {p};
      }
    }

    /** The unpinned page whose last fetch or creation is oldest. */
    method FindLru(s: Pool) returns (p: nat)
      requires Valid() && positions == s.table.Keys
      requires forall q | q in s.table :: q != INVALID_PAGE && s.table[q] < |s.frames|
      ensures p == INVALID_PAGE ==> forall q :: !Evictable(s, q)
      ensures p != INVALID_PAGE ==> Evictable(s, p) && Oldest(s, stamp, p)
    {
      for i := 0 to |mru|
        invariant forall j :: 0 <= j < i ==> !Evictable(s, mru[j])
      {
        p := mru[i];
        assert p in Members(mru);
        if p in s.table && s.frames[s.table[p]].pins == 0 {
          forall q | Evictable(s, q) ensures q in stamp && stamp[p] <= stamp[q] {
            assert q in Members(mru);
            var j :| 0 <= j < |mru| && mru[j] == q;
          }
          return;
        }
      }
      forall q ensures !Evictable(s, q) {
        assert q in s.table ==> q in Members(mru);
      }
      p := INVALID_PAGE;
    }
  }

  ghost predicate Oldest(s: Pool, stamp: map<nat, nat>, p: nat) {
    p in stamp && forall q | Evictable(s, q) :: q in stamp && stamp[p] <= stamp[q]
  }
}

/** A write-back cache of pages in front of the disk manager. */
module BufferPools {
  import opened Bytes
  import opened Lists
  import opened Options
  import opened PageLayout
  import opened DiskFormat
  import opened DiskManagers
  import opened PoolModel
  import opened Replacers

  class BufferPool {
    const disk: DiskManager
    const replacer: Replacer
    var frames: seq<Frame>
    var table: map<nat, nat>
    var free: seq<nat>
    var size: nat
    /** Pages changed in their frame by a client who still has to unpin them dirty. */
    ghost var owed: set<nat>

    ghost function State(): Pool
      reads this
    {
      Pool(frames, table, free, size)
    }

    ghost predicate Valid()
      reads this, disk, replacer
    {
      && disk.Valid() && replacer.Valid() && PoolOK(State())
      && replacer.positions == table.Keys && table.Keys <= disk.live
      && forall p: nat :: InSync(State(), disk.file, owed, p)
    }

    /** The bytes of a page as the clients see them. */
    ghost function View(p: nat): PageBytes
      reads this, disk
    {
      Seen(State(), disk.file, p)
    }

    constructor (disk: DiskManager, capacity: nat)
      requires disk.Valid()
      ensures Valid() && this.disk == disk && |frames| == capacity && table == map[] && fresh(replacer) && owed == {}
    {
      this.disk := disk;
      replacer := new Replacer();
      frames := seq(capacity, _ => Frame(INVALID_PAGE, Zeros(PAGE_SIZE), 0, false));
      table, free, size, owed := map[], [], 0, {};
    }

    /** A free frame, else one never used, else the frame of the page used least recently. */
    method FindNextFrame() returns (f: Option<nat>)
      requires Valid()
      modifies this`free, this`size
      ensures f.None? ==> AllPinned(old(State())) && State() == old(State())
      ensures f.Some? ==> Picked(old(State()), free, size, f.value) && !AllPinned(old(State()))
      ensures f.Some? && f.value < |frames| && frames[f.value].page in table ==>
                Oldest(old(State()), replacer.stamp, frames[f.value].page)
    {
      ghost var s := State();
      NoFrame(s);
      CachedPages(s);
      if free != [] {
        f := Some(free[|free| - 1]);
        free := free[..|free| - 1];
        assert s.free == free + [f.value];
        PickedFrame(s, free, size, f.value);
        return;
      }
      if size < |frames| {
        f := Some(size);
        size := size + 1;
        PickedFrame(s, free, size, f.value);
        return;
      }
      var p := replacer.FindLru(Pool(frames, table, free, size));
      if p == INVALID_PAGE {
        return None;
      }
      FrameOfPage(s, p);
      f := Some(table[p]);
    }

    /** Null exactly when the page is not cached and every frame is pinned. */
    method FetchPage(p: nat) returns (f: Option<nat>)
      requires Valid() && p in disk.live
      modifies this, disk`file, replacer
      ensures Valid() && owed == old(owed) && |frames| == old(|frames|)
      ensures f.None? <==> p !in old(table) && AllPinned(old(State()))
      ensures f.None? ==>
                State() == old(State()) && replacer.stamp == old(replacer.stamp) && replacer.now == old(replacer.now)
      ensures f.Some? ==>
                p in table && table[p] == f.value && f.value < |frames| && frames[f.value].data == old(View(p))
      ensures f.Some? ==> frames[f.value].pins == if p in old(table) then old(Pins(State(), p)) + 1 else 1
      ensures p in old(table) ==> f.Some? && Repinned(old(State()), State(), p)
      ensures PinsKept(old(State()), State(), p)
      ensures f.Some? ==>
                replacer.stamp == old(replacer.stamp)[p := old(replacer.now)] && replacer.now == old(replacer.now) + 1
      ensures forall q: nat | q != INVALID_PAGE :: View(q) == old(View(q))
      ensures Evicted(old(State()), State(), p, old(replacer.stamp))
    {
      hide PoolOK, InSync, AllPinned, Evicted, Oldest, PageAt, Ordered, Partition, Sane;
      CachedPages(State());
      LiveAllocated(disk, p);
      if p in table {
        FrameOfPage(State(), p);
        var frame := frames[table[p]];
        assert InSync(State(), disk.file, owed, p);
        PinAllowed(State(), disk.file, owed, p);
        FrameUpdated(State(), p, frame.(pins := frame.pins + 1), disk.file, owed, owed);
        SameTableEvicted(State(), frames[table[p] := frame.(pins := frame.pins + 1)], p, replacer.stamp);
        PinsElsewhere(State(), p, frame.(pins := frame.pins + 1));
        frames := frames[table[p] := frame.(pins := frame.pins + 1)];
        replacer.Record(p);
        return Some(table[p]);
      }
      f := SwapPage(p, true);
    }

    /** A zeroed page under an id that was not live. When there is no frame the id is used up all the same. */
    method NewPage() returns (p: nat, f: Option<nat>)
      requires Valid() && (disk.free_list != [] || disk.capacity < INVALID_PAGE)
      modifies this, disk, replacer
      ensures Valid() && |frames| == old(|frames|)
      ensures p !in old(disk.live) && disk.live == old(disk.live) + {p}
      ensures f.None? <==> AllPinned(old(State()))
      ensures f.None? ==> State() == old(State()) && owed == old(owed)
      ensures f.None? ==> replacer.stamp == old(replacer.stamp) && replacer.now == old(replacer.now)
      ensures f.Some? ==> p in table && table[p] == f.value && f.value < |frames| && frames[f.value].pins == 1
      ensures f.Some? ==> View(p) == Zeros(PAGE_SIZE) && owed == old(owed) + {p}
      ensures PinsKept(old(State()), State(), p)
      ensures f.Some? ==>
                replacer.stamp == old(replacer.stamp)[p := old(replacer.now)] && replacer.now == old(replacer.now) + 1
      ensures forall q: nat | q != p && q != INVALID_PAGE :: View(q) == old(View(q))
      ensures Evicted(old(State()), State(), p, old(replacer.stamp))
    {
      hide PoolOK, InSync, AllPinned, Evicted, Oldest, PageAt, Ordered, Partition, Sane;
      p := disk.AllocatePage();
      f := SwapPage(p, false);
    }

    /** False, with nothing changed, exactly when the page is pinned. */
    method DeletePage(p: nat) returns (ok: bool)
      requires Valid() && p in disk.live
      modifies this, disk, replacer
      ensures Valid() && |frames| == old(|frames|) && owed == old(owed)
      ensures ok <==> p !in old(table) || old(Pins(State(), p)) == 0
      ensures !ok ==> State() == old(State()) && disk.live == old(disk.live)
      ensures ok ==> table == old(table) - {p} && disk.live == old(disk.live) - {p}
      ensures PinsKept(old(State()), State(), p)
      ensures replacer.stamp == old(replacer.stamp) && replacer.now == old(replacer.now)
      ensures forall q: nat | q != p && q != INVALID_PAGE :: View(q) == old(View(q))
    {
      hide PoolOK, InSync, PageAt, Ordered, Partition, Sane, Pins;
      LiveAllocated(disk, p);
      if p in table {
        FrameOfPage(State(), p);
        PinsDropped(State(), p, Frame(INVALID_PAGE, Zeros(PAGE_SIZE), 0, false));
        PinsOf(State(), p);
        var f := table[p];
        if frames[f].pins > 0 {
          return false;
        }
        var blank := Frame(INVALID_PAGE, Zeros(PAGE_SIZE), 0, false);
        PageDropped(State(), p, blank, disk.file, owed);
        ghost var s := Drop(State(), p, blank);
        table := table - {p};
        replacer.Remove(p);
        frames := frames[f := blank];
        free := free + [f];
        assert State() == s;
      }
      ok := disk.DeallocatePage(p);
    }

    /** Give up one pin; `dirty` says that the page was changed while it was pinned. */
    method UnpinPage(p: nat, dirty: bool)
      requires Valid() && (p in table ==> Pins(State(), p) > 0)
      requires p in owed && !dirty ==> Pins(State(), p) > 1
      modifies this`frames, this`owed
      ensures Valid() && |frames| == old(|frames|)
      ensures owed == if dirty then old(owed) - {p} else old(owed)
      ensures p in table ==> Pins(State(), p) == old(Pins(State(), p)) - 1
      ensures p in table ==> (IsDirty(State(), p) <==> dirty || old(IsDirty(State(), p)))
      ensures p in table && !dirty ==> Repinned(old(State()), State(), p)
      ensures PinsKept(old(State()), State(), p)
      ensures forall q: nat :: View(q) == old(View(q))
    {
      hide PoolOK, PageAt, Ordered, Partition, Sane;
      assert InSync(State(), disk.file, owed, p);
      hide InSync;
      if p in table {
        FrameOfPage(State(), p);
        var frame := frames[table[p]];
        ghost var owed' := if dirty then owed - {p} else owed;
        FrameUpdated(State(), p, frame.(pins := frame.pins - 1, dirty := frame.dirty || dirty), disk.file, owed, owed');
        PinsElsewhere(State(), p, frame.(pins := frame.pins - 1, dirty := frame.dirty || dirty));
        if dirty {
          frame := frame.(dirty := true);
        }
        frames := frames[table[p] := frame.(pins := frame.pins - 1)];
        owed := owed';
      }
    }

    /**
     * The life of a pinned page handle: fetch, look, perhaps change and mark dirty, unpin. To
     * the clients it is a plain read or write of the page; nothing when it cannot be fetched.
     */
    method UsePinned(p: nat, change: Option<PageBytes>) returns (read: Option<PageBytes>)
      requires Valid() && p in disk.live
      modifies this, disk`file, replacer
      ensures Valid() && |frames| == old(|frames|)
      ensures read.None? <==> p !in old(table) && AllPinned(old(State()))
      ensures read.Some? ==> read.value == old(View(p)) && p in table && Pins(State(), p) == old(Pins(State(), p))
      ensures read.Some? && change.Some? ==> View(p) == change.value && owed == old(owed) - {p}
      ensures read.None? || change.None? ==> View(p) == old(View(p)) && owed == old(owed)
      ensures replacer.stamp == (if read.None? then old(replacer.stamp)
                else old(replacer.stamp)[p := old(replacer.now)])
      ensures replacer.now == old(replacer.now) + if read.None? then 0 else 1
      ensures disk.live == old(disk.live) && disk.capacity == old(disk.capacity)
                && disk.free_list == old(disk.free_list)
      ensures forall q: nat | q != p && q != INVALID_PAGE :: View(q) == old(View(q))
    {
      hide PoolOK, InSync, AllPinned, Evicted, Oldest, PageAt, Ordered, Partition, Sane, Seen;
      LiveAllocated(disk, p);
      OwedPinned(State(), disk.file, owed, p);
      var f := FetchPage(p);
      if f.None? {
        return None;
      }
      read := Some(frames[f.value].data);
      if change.Some? {
        ChangePage(p, change.value);
      }
      UnpinPage(p, change.Some?);
    }

    /** What a client does with a page it has pinned. */
    method ChangePage(p: nat, data: PageBytes)
      requires Valid() && p in table && Pins(State(), p) > 0
      modifies this`frames, this`owed
      ensures Valid() && |frames| == old(|frames|)
      ensures owed == old(owed) + {p} && View(p) == data && Pins(State(), p) == old(Pins(State(), p))
      ensures PinsKept(old(State()), State(), p)
      ensures forall q: nat | q != p :: View(q) == old(View(q))
    {
      hide PoolOK, InSync, PageAt, Ordered, Partition, Sane;
      FrameOfPage(State(), p);
      FrameUpdated(State(), p, frames[table[p]].(data := data), disk.file, owed, owed + {p});
      PinsElsewhere(State(), p, frames[table[p]].(data := data));
      frames := frames[table[p] := frames[table[p]].(data := data)];
      owed := owed + {p};
    }

    /** Write every dirty frame back; frames stay dirty. Only pages still being changed can differ from the file. */
    method FlushAll()
      requires Valid()
      modifies disk`file
      ensures Valid()
      ensures forall q: nat :: View(q) == old(View(q))
      ensures forall q: nat | q !in owed :: PageAt(disk.file, q) == View(q)
    {
      hide PoolOK, InSync, PageAt, FlushedTo, Ordered, Partition, Sane, Seen;
      ghost var s, file0 := State(), disk.file;
      NothingFlushed(s, file0);
      SizeWithinFrames(s);
      for i := 0 to size
        invariant disk.Valid() && size <= |frames|
        invariant forall q: nat :: PageAt(disk.file, q) == FlushedTo(s, file0, i, q)
      {
        ghost var file := disk.file;
        if frames[i].dirty {
          DirtyCached(s, i);
          LiveAllocated(disk, frames[i].page);
          var _ := disk.WritePage(frames[i].page, frames[i].data);
          assert frames[i].data[..PAGE_SIZE] == frames[i].data;
        }
        FlushOne(s, file0, file, disk.file, i);
      }
      forall q: nat ensures InSync(s, disk.file, owed, q) && Seen(s, disk.file, q) == Seen(s, file0, q)
                    ensures q !in owed ==> PageAt(disk.file, q) == Seen(s, disk.file, q) {
        FlushedSeen(s, file0, disk.file, owed, q);
      }
    }

    /** Give page `p` a frame, writing back and dropping what the frame held. */
    method SwapPage(p: nat, read: bool) returns (f: Option<nat>)
      requires Valid() && p !in table && p in disk.live
      modifies this`frames, this`table, this`free, this`size, this`owed, disk`file, replacer
      ensures Valid()
      ensures f.None? <==> AllPinned(old(State()))
      ensures f.None? ==> State() == old(State()) && disk.file == old(disk.file) && owed == old(owed)
      ensures f.None? ==> replacer.stamp == old(replacer.stamp) && replacer.now == old(replacer.now)
      ensures f.Some? ==> f.value < |frames| && p in table && table[p] == f.value && frames[f.value].pins == 1
      ensures f.Some? ==> owed == if read then old(owed) else old(owed) + {p}
      ensures f.Some? && !read ==> View(p) == Zeros(PAGE_SIZE)
      ensures PinsKept(old(State()), State(), p)
      ensures forall q: nat | q != p || read :: q != INVALID_PAGE ==> View(q) == old(View(q))
      ensures Evicted(old(State()), State(), p, old(replacer.stamp))
      ensures |frames| == old(|frames|)
      ensures f.Some? ==>
                replacer.stamp == old(replacer.stamp)[p := old(replacer.now)] && replacer.now == old(replacer.now) + 1
    {
      hide PoolOK, InSync, Picked, AllPinned, Evicted, Oldest, WrittenBack, PageAt, Blank, Place, Seen;
      LiveAllocated(disk, p);
      CachedPages(State());
      ghost var s, file, stamp := State(), disk.file, replacer.stamp;
      f := FindNextFrame();
      if f.None? {
        NothingEvicted(s, p, stamp);
        return;
      }
      PickedFrame(s, free, size, f.value);
      BlankFrame(s, f.value);
      InstallPage(f.value, p, read, s);
      if !read {
        owed := owed + {p};
      }
      ghost var data := frames[f.value].data;
      assert State() == Place(s, free, size, f.value, p, data);
      PlacedFrame(s, free, size, f.value, p, data);
      PinsPlaced(s, free, size, f.value, p, data);
      Swapped(s, free, size, f.value, p, data, file, disk.file, old(owed), owed, stamp);
    }

    /** `s` is the pool before the frame was found. */
    method InstallPage(f: nat, p: nat, read: bool, ghost s: Pool)
      requires s.frames == frames && s.table == table
      requires f < |frames| && disk.Valid() && replacer.Valid() && replacer.positions == table.Keys
                && table.Keys <= disk.live
      requires INVALID_PAGE !in table && (frames[f].page in table
                                          || (frames[f].page == INVALID_PAGE && !frames[f].dirty))
      requires p in disk.live
      modifies this`table, this`frames, disk`file, replacer
      ensures |frames| == |old(frames)| && State() == Place(s, free, size, f, p, frames[f].data)
      ensures frames[f].data == if read then PageAt(disk.file, p) else Zeros(PAGE_SIZE)
      ensures WrittenBack(s, old(disk.file), disk.file, f)
      ensures disk.Valid() && replacer.Valid() && replacer.positions == table.Keys && table.Keys <= disk.live
      ensures replacer.stamp == old(replacer.stamp)[p := old(replacer.now)] && replacer.now == old(replacer.now) + 1
    {
      hide WrittenBack, PageAt, Partition, Ordered, Sane;
      SwapOut(f, s);
      LiveAllocated(disk, p);
      table := table[p := f];
      frames := frames[f := Frame(p, Zeros(PAGE_SIZE), 1, false)];
      replacer.Record(p);
      if read {
        ReadFrame(p, f);
      }
    }

    /** Take the frame's page out of the pool, writing it back if it is dirty. */
    method SwapOut(f: nat, ghost s: Pool)
      requires s.frames == frames
      requires f < |frames| && disk.Valid() && replacer.Valid() && replacer.positions == table.Keys
                && table.Keys <= disk.live
      requires INVALID_PAGE !in table && (frames[f].page in table
                                          || (frames[f].page == INVALID_PAGE && !frames[f].dirty))
      modifies this`table, disk`file, replacer
      ensures table == old(table) - {frames[f].page} && WrittenBack(s, old(disk.file), disk.file, f)
      ensures replacer.Valid() && replacer.positions == table.Keys
      ensures replacer.stamp == old(replacer.stamp) && replacer.now == old(replacer.now)
    {
      var frame := frames[f];
      if frame.page != INVALID_PAGE {
        table := table - {frame.page};
        replacer.Remove(frame.page);
      }
      if frame.dirty {
        LiveAllocated(disk, frame.page);
        var _ := disk.WritePage(frame.page, frame.data);
        assert frame.data[..PAGE_SIZE] == frame.data;
      }
    }

    method ReadFrame(p: nat, f: nat)
      requires f < |frames| && p < disk.capacity
      modifies this`frames
      ensures frames == old(frames)[f := old(frames)[f].(data := PageAt(disk.file, p))]
    {
      var buffer := new byte[PAGE_SIZE];
      var _ := disk.ReadPage(p, buffer);
      assert buffer[..] == buffer[..PAGE_SIZE];
      frames := frames[f := frames[f].(data := buffer[..])];
    }
  }

  /** Another frame value for a cached page, the same page as before. */
  lemma FrameUpdated(s: Pool, p: nat, frame: Frame, file: seq<byte>, owed: set<nat>, owed': set<nat>)
    requires PoolOK(s) && p in s.table && frame.page == p && s.table[p] < |s.frames|
    requires forall q: nat :: InSync(s, file, owed, q)
    requires forall q | q != p :: q in owed' <==> q in owed
    requires frame.dirty || p in owed' || frame.data == PageAt(file, p)
    requires p in owed' ==> frame.pins > 0
    ensures var s' := s.(frames := s.frames[s.table[p] := frame]);
            && PoolOK(s') && (forall q: nat :: InSync(s', file, owed', q))
            && (forall q: nat | q != p :: Seen(s', file, q) == Seen(s, file, q)) && Seen(s', file, p) == frame.data
  {
    var s' := s.(frames := s.frames[s.table[p] := frame]);
    FrameChanged(s, p, frame);
    forall q: nat ensures InSync(s', file, owed', q) && (q != p ==> Seen(s', file, q) == Seen(s, file, q)) {
      if q in s.table && q != p {
        TableInjectiveAt(s, p, q);
      }
      assert InSync(s, file, owed, q);
      hide PoolOK, PageAt;
    }
    hide PoolOK, PageAt, InSync;
  }

  lemma PageDropped(s: Pool, p: nat, blank: Frame, file: seq<byte>, owed: set<nat>)
    requires PoolOK(s) && p in s.table && Blank(blank) && s.table[p] < |s.frames| && s.frames[s.table[p]].pins == 0
    requires forall q: nat :: InSync(s, file, owed, q)
    ensures var s' := Drop(s, p, blank);
            && PoolOK(s') && (forall q: nat :: InSync(s', file, owed, q))
            && (forall q: nat | q != p :: Seen(s', file, q) == Seen(s, file, q))
  {
    DropOK(s, p, blank);
    var s' := Drop(s, p, blank);
    forall q: nat ensures InSync(s', file, owed, q) && (q != p ==> Seen(s', file, q) == Seen(s, file, q)) {
      DropSeen(s, p, blank, file, owed, q);
    }
    hide PoolOK, PageAt, InSync, Seen;
  }

  /** The file's bytes of `q` once the dirty frames below `i` are flushed. */
  ghost function FlushedTo(s: Pool, file: seq<byte>, i: nat, q: nat): PageBytes {
    if q in s.table && s.table[q] < |s.frames| && s.table[q] < i && s.frames[s.table[q]].dirty
    then s.frames[s.table[q]].data else PageAt(file, q)
  }

  lemma FlushOne(s: Pool, file0: seq<byte>, file: seq<byte>, file': seq<byte>, i: nat)
    requires PoolOK(s) && i < s.size
    requires forall q: nat :: PageAt(file, q) == FlushedTo(s, file0, i, q)
    requires forall q: nat ::
              PageAt(file', q) == if s.frames[i].dirty && q == s.frames[i].page then s.frames[i].data
                  else PageAt(file, q)
    ensures forall q: nat :: PageAt(file', q) == FlushedTo(s, file0, i + 1, q)
  {
    assert FrameOK(s, i);
    forall q: nat ensures PageAt(file', q) == FlushedTo(s, file0, i + 1, q) {
      assert PageAt(file, q) == FlushedTo(s, file0, i, q);
      assert q in s.table ==> PageOK(s, q);
      hide PageAt, PoolOK;
    }
    hide PageAt, PoolOK, FlushedTo;
  }

  lemma FlushedSeen(s: Pool, file0: seq<byte>, file: seq<byte>, owed: set<nat>, q: nat)
    requires PoolOK(s) && InSync(s, file0, owed, q) && PageAt(file, q) == FlushedTo(s, file0, s.size, q)
    ensures InSync(s, file, owed, q) && Seen(s, file, q) == Seen(s, file0, q)
    ensures q !in owed ==> PageAt(file, q) == Seen(s, file, q)
  {
    assert q in s.table ==> PageOK(s, q);
    hide PageAt, PoolOK;
  }

  lemma LiveAllocated(disk: DiskManager, p: nat)
    requires disk.Valid() && p in disk.live
    ensures METADATA_PAGE < p < disk.capacity && p != INVALID_PAGE
  {
    assert p in disk.live + Members(disk.free_list) + disk.leaked;
  }

  lemma BlankFrame(s: Pool, f: nat)
    requires PoolOK(s) && f < |s.frames|
    ensures s.frames[f].page in s.table || (s.frames[f].page == INVALID_PAGE && !s.frames[f].dirty)
  {
    assert FrameOK(s, f);
  }

  lemma PlacedFrame(s: Pool, free: seq<nat>, size: nat, f: nat, p: nat, data: PageBytes)
    requires f < |s.frames|
    ensures var s' := Place(s, free, size, f, p, data);
            && |s'.frames| == |s.frames| && s'.table == (s.table - {s.frames[f].page})[p := f]
            && s'.frames[f] == Frame(p, data, 1, false)
  {
  }

  lemma NothingEvicted(s: Pool, p: nat, stamp: map<nat, nat>)
    ensures Evicted(s, s, p, stamp)
  {
  }

  lemma Swapped(s: Pool, free: seq<nat>, size: nat, f: nat, p: nat, data: PageBytes, file: seq<byte>, file': seq<byte>,
                owed: set<nat>, owed': set<nat>, stamp: map<nat, nat>)
    requires PoolOK(s) && Picked(s, free, size, f) && p !in s.table && p != INVALID_PAGE && f < |s.frames|
    requires WrittenBack(s, file, file', f) && forall q: nat :: InSync(s, file, owed, q)
    requires (owed' == owed && data == PageAt(file', p)) || owed' == owed + {p}
    requires s.frames[f].page in s.table ==> Oldest(s, stamp, s.frames[f].page)
    ensures var s' := Place(s, free, size, f, p, data);
            && PoolOK(s') && Evicted(s, s', p, stamp)
            && (forall q: nat :: InSync(s', file', owed', q))
            && (forall q: nat | q != p && q != INVALID_PAGE :: Seen(s', file', q) == Seen(s, file, q))
            && Seen(s', file', p) == data && (data == PageAt(file', p) ==> data == Seen(s, file, p))
  {
    var s' := Place(s, free, size, f, p, data);
    hide PoolOK, Picked, WrittenBack, Oldest, PageAt, Evicted, Seen, InSync, Place;
    PlaceOK(s, free, size, f, p, data);
    forall q: nat ensures q != p && q != INVALID_PAGE ==> Seen(s', file', q) == Seen(s, file, q)
                  ensures InSync(s', file', owed', q)
    {
      SwappedAt(s, free, size, f, p, data, file, file', owed, owed', q);
    }
    SwappedIn(s, free, size, f, p, data, file, file');
    SwapEvicts(s, free, size, f, p, data, stamp);
  }

  lemma SwappedAt(s: Pool, free: seq<nat>, size: nat, f: nat, p: nat, data: PageBytes, file: seq<byte>,
                  file': seq<byte>, owed: set<nat>, owed': set<nat>, q: nat)
    requires PoolOK(s) && Picked(s, free, size, f) && p !in s.table && p != INVALID_PAGE && f < |s.frames|
    requires WrittenBack(s, file, file', f) && InSync(s, file, owed, q)
    requires (owed' == owed && data == PageAt(file', p)) || owed' == owed + {p}
    ensures q != p && q != INVALID_PAGE ==> Seen(Place(s, free, size, f, p, data), file', q) == Seen(s, file, q)
    ensures InSync(Place(s, free, size, f, p, data), file', owed', q)
  {
    hide Picked, PageAt, WrittenBack;
    CachedPages(s);
    if q != INVALID_PAGE {
      PlaceSeen(s, free, size, f, p, data, file, file', owed, q);
    }
    hide PoolOK;
  }

  lemma SwappedIn(s: Pool, free: seq<nat>, size: nat, f: nat, p: nat, data: PageBytes, file: seq<byte>,
                  file': seq<byte>)
    requires PoolOK(s) && Picked(s, free, size, f) && p !in s.table && p != INVALID_PAGE && f < |s.frames|
    requires WrittenBack(s, file, file', f)
    ensures Seen(Place(s, free, size, f, p, data), file', p) == data
    ensures PageAt(file', p) == Seen(s, file, p)
  {
    PickedFrame(s, free, size, f);
    hide Picked, PageAt, PoolOK;
  }

  lemma SwapEvicts(s: Pool, free: seq<nat>, size: nat, f: nat, p: nat, data: PageBytes, stamp: map<nat, nat>)
    requires PoolOK(s) && Picked(s, free, size, f) && f < |s.frames|
    requires s.frames[f].page in s.table ==> Oldest(s, stamp, s.frames[f].page)
    ensures Evicted(s, Place(s, free, size, f, p, data), p, stamp)
  {
    PickedFrame(s, free, size, f);
    hide Picked, PoolOK, Oldest;
  }

  ghost function Pins(s: Pool, p: nat): nat {
    if p in s.table && s.table[p] < |s.frames| then s.frames[s.table[p]].pins else 0
  }

  /** Only the pin count of the frame of `p` has changed. */
  ghost predicate Repinned(s: Pool, s': Pool, p: nat) {
    && p in s.table && s.table[p] < |s.frames| == |s'.frames|
    && s' == s.(frames := s.frames[s.table[p] := s.frames[s.table[p]].(pins := s'.frames[s.table[p]].pins)])
  }

  /** No pin on another page comes or goes. */
  ghost predicate PinsKept(s: Pool, s': Pool, p: nat) {
    forall q: nat | q != p :: Pins(s', q) == Pins(s, q)
  }

  lemma PinsElsewhere(s: Pool, p: nat, frame: Frame)
    requires PoolOK(s) && p in s.table && s.table[p] < |s.frames|
    ensures PinsKept(s, s.(frames := s.frames[s.table[p] := frame]), p)
  {
    var s' := s.(frames := s.frames[s.table[p] := frame]);
    forall q: nat | q != p ensures Pins(s', q) == Pins(s, q) {
      if q in s.table {
        TableInjectiveAt(s, p, q);
      }
    }
    hide PoolOK;
  }

  lemma PinsOf(s: Pool, p: nat)
    requires p in s.table && s.table[p] < |s.frames|
    ensures Pins(s, p) == s.frames[s.table[p]].pins
  {
  }

  lemma PinsDropped(s: Pool, p: nat, blank: Frame)
    requires PoolOK(s) && p in s.table && s.table[p] < |s.frames|
    ensures PinsKept(s, Drop(s, p, blank), p)
  {
    forall q: nat | q != p ensures Pins(Drop(s, p, blank), q) == Pins(s, q) {
      if q in s.table {
        TableInjectiveAt(s, p, q);
      }
    }
    hide PoolOK;
  }

  lemma PinsPlaced(s: Pool, free: seq<nat>, size: nat, f: nat, p: nat, data: PageBytes)
    requires PoolOK(s) && Picked(s, free, size, f) && f < |s.frames|
    ensures PinsKept(s, Place(s, free, size, f, p, data), p)
  {
    hide Picked, FrameOK, Distinct;
    PickedFrame(s, free, size, f);
  }

  ghost predicate IsDirty(s: Pool, p: nat) {
    p in s.table && s.table[p] < |s.frames| && s.frames[s.table[p]].dirty
  }

  lemma OwedPinned(s: Pool, file: seq<byte>, owed: set<nat>, p: nat)
    requires PoolOK(s) && InSync(s, file, owed, p)
    ensures p in owed ==> Pins(s, p) > 0
    ensures p !in s.table ==> Pins(s, p) == 0
  {
    assert p in s.table ==> PageOK(s, p);
    hide PageAt, PoolOK;
  }

  lemma PinAllowed(s: Pool, file: seq<byte>, owed: set<nat>, p: nat)
    requires InSync(s, file, owed, p) && p in s.table && s.table[p] < |s.frames|
    ensures var f := s.frames[s.table[p]];
            (f.dirty || p in owed || f.data == PageAt(file, p)) && (p in owed ==> f.pins > 0)
  {
    hide PageAt;
  }

  lemma SameTableEvicted(s: Pool, frames: seq<Frame>, p: nat, stamp: map<nat, nat>)
    ensures Evicted(s, s.(frames := frames), p, stamp)
  {
  }

  lemma NothingFlushed(s: Pool, file: seq<byte>)
    ensures forall q: nat :: FlushedTo(s, file, 0, q) == PageAt(file, q)
  {
    hide PageAt;
  }

  lemma SizeWithinFrames(s: Pool)
    requires PoolOK(s)
    ensures s.size <= |s.frames|
  {
  }

  lemma DirtyCached(s: Pool, i: nat)
    requires PoolOK(s) && i < |s.frames| && s.frames[i].dirty
    ensures s.frames[i].page in s.table
  {
    assert FrameOK(s, i);
  }

  lemma FrameOfPage(s: Pool, p: nat)
    requires PoolOK(s) && p in s.table
    ensures s.table[p] < |s.frames| && s.frames[s.table[p]].page == p && s.table[p] < s.size && s.table[p] !in s.free
  {
    assert PageOK(s, p);
  }

  /**
   * At most one page went, for want of a free or unused frame, unpinned and the least recently
   * used of the unpinned ones; only `p` came.
   */
  ghost predicate Evicted(s: Pool, s': Pool, p: nat, stamp: map<nat, nat>) {
    && (forall q | q in s'.table :: q in s.table || q == p)
    && (forall q | q in s.table && q !in s'.table ::
        Evictable(s, q) && Oldest(s, stamp, q) && s.free == [] && s.size == |s.frames|)
    && (forall q, r | q in s.table && q !in s'.table && r in s.table && r !in s'.table :: q == r)
  }
}
