/**
 * What the 8192 bytes of a slotted page mean: a header, a slot directory growing
 * up, tuple bytes growing down. Everything here reads raw bytes; the class that
 * writes them is in SlottedPages.
 *
 *   bytes 0..4  next page id     bytes 4..6  slot count    bytes 6..8  free space offset
 *   bytes 8+4*i .. 12+4*i        slot i: offset (0 marks a dead slot), length
 */
module PageLayout {
  import opened Bytes

  const PAGE_SIZE: nat := 8192
  const HEADER_SIZE: nat := 8
  const SLOT_SIZE: nat := 4
  const INVALID_PAGE: nat := 0xFFFF_FFFF
  const DEAD: nat := 0

  type PageBytes = d: seq<byte> | |d| == PAGE_SIZE ghost witness Zeros(PAGE_SIZE)

  datatype Slot = Slot(offset: nat, length: nat)

  /** A size as the page keeps it, in 16 bits. */
  function Cut(n: nat): nat { n % 0x1_0000 }

  // ---- decoding ----

  function NextPage(d: PageBytes): nat { ReadU32(d, 0) }

  function SlotCount(d: PageBytes): nat { ReadU16(d, 4) }

  function FreeOffset(d: PageBytes): nat { ReadU16(d, 6) }

  function DirectoryEnd(d: PageBytes): nat { HEADER_SIZE + SLOT_SIZE * SlotCount(d) }

  predicate DirectoryFits(d: PageBytes) {
    DirectoryEnd(d) <= FreeOffset(d) <= PAGE_SIZE
  }

  function SlotAt(d: PageBytes, i: nat): Slot
    requires HEADER_SIZE + SLOT_SIZE * (i + 1) <= PAGE_SIZE
  {
    Slot(ReadU16(d, HEADER_SIZE + SLOT_SIZE * i), ReadU16(d, HEADER_SIZE + SLOT_SIZE * i + 2))
  }

  function Directory(d: PageBytes): (dir: seq<Slot>)
    requires DirectoryFits(d)
    ensures |dir| == SlotCount(d)
  {
    seq(SlotCount(d), i requires 0 <= i < SlotCount(d) => SlotAt(d, i))
  }

  // ---- a directory and the bytes it describes ----

  predicate Live(dir: seq<Slot>, i: nat) {
    i < |dir| && dir[i].offset != DEAD
  }

  ghost predicate Framed(dir: seq<Slot>, free: nat) {
    && HEADER_SIZE + SLOT_SIZE * |dir| <= free <= PAGE_SIZE
    && InPage(dir)
    && forall i: nat :: Live(dir, i) ==> free <= dir[i].offset
  }

  ghost predicate Apart(dir: seq<Slot>) {
    forall i: nat, j: nat :: i < j && Live(dir, i) && Live(dir, j) ==>
      || dir[i].offset + dir[i].length <= dir[j].offset
      || dir[j].offset + dir[j].length <= dir[i].offset
  }

  function SlotBytes(d: PageBytes, s: Slot): seq<byte>
    requires s.offset + s.length <= PAGE_SIZE
  {
    d[s.offset..s.offset + s.length]
  }

  ghost predicate InPage(dir: seq<Slot>) {
    forall i: nat :: Live(dir, i) ==> dir[i].offset + dir[i].length <= PAGE_SIZE
  }

  /** The bytes of each live slot. */
  ghost function Contents(d: PageBytes, dir: seq<Slot>): map<nat, seq<byte>>
    requires InPage(dir)
  {
    map i: nat | i < |dir| && Live(dir, i) :: SlotBytes(d, dir[i])
  }

  /** The bytes held by the slots below `n`. */
  ghost function Sizes(m: map<nat, seq<byte>>, n: nat): nat {
    if n == 0 then 0 else Sizes(m, n - 1) + if n - 1 in m then |m[n - 1]| else 0
  }

  ghost predicate LaidOut(d: PageBytes, dir: seq<Slot>, free: nat) {
    && Framed(dir, free)
    && Apart(dir)
    && Sizes(Contents(d, dir), |dir|) + free <= PAGE_SIZE
  }

  // ---- sums of sizes ----

  lemma {:induction false} SizesFrame(m: map<nat, seq<byte>>, m': map<nat, seq<byte>>, n: nat)
    requires forall i: nat | i < n :: (i in m <==> i in m') && (i in m ==> |m[i]| == |m'[i]|)
    ensures Sizes(m, n) == Sizes(m', n)
  {
    if n > 0 {
      SizesFrame(m, m', n - 1);
    }
  }

  lemma {:induction false} SizesPut(m: map<nat, seq<byte>>, s: nat, t: seq<byte>, n: nat)
    requires s < n
    ensures Sizes(m[s := t], n) == Sizes(m, n) - (if s in m then |m[s]| else 0) + |t|
  {
    if s == n - 1 {
      SizesFrame(m, m[s := t], n - 1);
    } else {
      SizesPut(m, s, t, n - 1);
    }
  }

  lemma {:induction false} SizesRemove(m: map<nat, seq<byte>>, s: nat, n: nat)
    requires s < n && s in m
    ensures Sizes(m - {s}, n) == Sizes(m, n) - |m[s]|
  {
    if s == n - 1 {
      SizesFrame(m, m - {s}, n - 1);
    } else {
      SizesRemove(m, s, n - 1);
    }
  }

  lemma {:induction false} SizesMonotone(m: map<nat, seq<byte>>, j: nat, n: nat)
    requires j <= n
    ensures Sizes(m, j) <= Sizes(m, n)
    decreases n
  {
    if j < n {
      SizesMonotone(m, j, n - 1);
    }
  }

  lemma {:induction false} SizesEmpty(m: map<nat, seq<byte>>, n: nat)
    requires forall i: nat | i < n :: i !in m
    ensures Sizes(m, n) == 0
  {
    if n > 0 {
      SizesEmpty(m, n - 1);
    }
  }

  // ---- what each kind of write does ----

  /** The directory after slot `s` is pointed at the `n` bytes below `free`. */
  ghost function PlacedDirectory(dir: seq<Slot>, free: nat, s: nat, n: nat): seq<Slot>
    requires s <= |dir| && n <= free
  {
    var slot := Slot(free - n, n);
    if s == |dir| then dir + [slot] else dir[s := slot]
  }

  ghost predicate SameFrom(d: PageBytes, d': PageBytes, free: nat) {
    forall k :: free <= k < PAGE_SIZE ==> d'[k] == d[k]
  }

  /** Equal bytes from `free` on leave every tuple of the directory as it was. */
  lemma ContentsKept(d: PageBytes, d': PageBytes, dir: seq<Slot>, free: nat)
    requires Framed(dir, free) && SameFrom(d, d', free)
    ensures Contents(d', dir) == Contents(d, dir)
  {
    forall i: nat | Live(dir, i) ensures SlotBytes(d', dir[i]) == SlotBytes(d, dir[i]) {}
    SameContents(d', dir, Contents(d, dir));
  }

  lemma TuplePlaced(d: PageBytes, d': PageBytes, dir: seq<Slot>, free: nat, s: nat, t: seq<byte>)
    requires LaidOut(d, dir, free) && s <= |dir| && !Live(dir, s)
    requires HEADER_SIZE + SLOT_SIZE * |dir| + |t| + (if s == |dir| then SLOT_SIZE else 0) <= free
    requires SlotBytes(d', Slot(free - |t|, |t|)) == t && SameFrom(d, d', free)
    ensures LaidOut(d', PlacedDirectory(dir, free, s, |t|), free - |t|)
    ensures Contents(d', PlacedDirectory(dir, free, s, |t|)) == Contents(d, dir)[s := t]
  {
    PlacedStaysApart(dir, free, s, |t|);
    PlacedContents(d, d', dir, free, s, t);
    SizesPut(Contents(d, dir), s, t, |PlacedDirectory(dir, free, s, |t|)|);
    hide Framed, Apart, Contents, PlacedDirectory;
  }

  lemma PlacedContents(d: PageBytes, d': PageBytes, dir: seq<Slot>, free: nat, s: nat, t: seq<byte>)
    requires Framed(dir, free) && s <= |dir| && |t| <= free
    requires SlotBytes(d', Slot(free - |t|, |t|)) == t && SameFrom(d, d', free)
    requires Framed(PlacedDirectory(dir, free, s, |t|), free - |t|) && free - |t| != DEAD
    ensures Contents(d', PlacedDirectory(dir, free, s, |t|)) == Contents(d, dir)[s := t]
  {
    var dir', m := PlacedDirectory(dir, free, s, |t|), Contents(d, dir);
    ContentsKept(d, d', dir, free);
    forall i: nat ensures Live(dir', i) <==> i in m[s := t]
                  ensures Live(dir', i) ==> SlotBytes(d', dir'[i]) == m[s := t][i]
    {
      assert i != s && Live(dir, i) ==> Contents(d', dir)[i] == SlotBytes(d', dir[i]);
    }
    SameContents(d', dir', m[s := t]);
  }

  lemma PlacedStaysApart(dir: seq<Slot>, free: nat, s: nat, n: nat)
    requires Framed(dir, free) && Apart(dir) && s <= |dir| && !Live(dir, s)
    requires HEADER_SIZE + SLOT_SIZE * |dir| + n + (if s == |dir| then SLOT_SIZE else 0) <= free
    ensures Framed(PlacedDirectory(dir, free, s, n), free - n) && Apart(PlacedDirectory(dir, free, s, n))
  {
    var dir' := PlacedDirectory(dir, free, s, n);
    assert forall i: nat :: i != s && Live(dir', i) ==> Live(dir, i) && dir'[i] == dir[i];
  }

  /** A map that agrees with the directory slot by slot is its contents. */
  lemma SameContents(d: PageBytes, dir: seq<Slot>, m: map<nat, seq<byte>>)
    requires InPage(dir)
    requires forall i: nat :: Live(dir, i) <==> i in m
    requires forall i: nat :: Live(dir, i) && i in m ==> SlotBytes(d, dir[i]) == m[i]
    ensures Contents(d, dir) == m
  {
  }

  lemma TupleShrunk(d: PageBytes, d': PageBytes, dir: seq<Slot>, free: nat, s: nat, t: seq<byte>)
    requires LaidOut(d, dir, free) && Live(dir, s) && |t| <= dir[s].length
    requires SlotBytes(d', Slot(dir[s].offset, |t|)) == t
    requires forall k | free <= k < PAGE_SIZE && !(dir[s].offset <= k < dir[s].offset + |t|) :: d'[k] == d[k]
    ensures LaidOut(d', dir[s := Slot(dir[s].offset, |t|)], free)
    ensures Contents(d', dir[s := Slot(dir[s].offset, |t|)]) == Contents(d, dir)[s := t]
  {
    var dir', m := dir[s := Slot(dir[s].offset, |t|)], Contents(d, dir);
    assert Framed(dir', free) && Apart(dir') by {
      assert forall i: nat :: Live(dir', i) <==> Live(dir, i);
    }
    SizesPut(m, s, t, |dir|);
    assert Contents(d', dir') == m[s := t] by {
      forall i: nat ensures Live(dir', i) <==> i in m[s := t]
                    ensures Live(dir', i) ==> SlotBytes(d', dir'[i]) == m[s := t][i]
      {
        if i != s && Live(dir, i) {
          OthersUntouched(d, d', dir, free, s, |t|, i);
        }
      }
      SameContents(d', dir', m[s := t]);
    }
  }

  lemma OthersUntouched(d: PageBytes, d': PageBytes, dir: seq<Slot>, free: nat, s: nat, n: nat, i: nat)
    requires Framed(dir, free) && Apart(dir) && Live(dir, s) && Live(dir, i) && i != s && n <= dir[s].length
    requires forall k | free <= k < PAGE_SIZE && !(dir[s].offset <= k < dir[s].offset + n) :: d'[k] == d[k]
    ensures SlotBytes(d', dir[i]) == SlotBytes(d, dir[i])
  {
    assert if i < s then Live(dir, i) && Live(dir, s) else Live(dir, s) && Live(dir, i);
  }

  lemma TupleDropped(d: PageBytes, d': PageBytes, dir: seq<Slot>, free: nat, s: nat, length: nat)
    requires LaidOut(d, dir, free) && Live(dir, s)
    requires SameFrom(d, d', free)
    ensures LaidOut(d', dir[s := Slot(DEAD, length)], free)
    ensures Contents(d', dir[s := Slot(DEAD, length)]) == Contents(d, dir) - {s}
  {
    var dir' := dir[s := Slot(DEAD, length)];
    ContentsKept(d, d', dir, free);
    assert Contents(d', dir') == Contents(d, dir) - {s} by {
      assert forall i: nat :: Live(dir', i) <==> i != s && Live(dir, i);
      SameContents(d', dir', Contents(d, dir) - {s});
    }
    SizesRemove(Contents(d, dir), s, |dir|);
  }

  /** The slot a live tuple `i` gets when tuples are packed against the end of the page, slot 0 last. */
  ghost function PackedSlot(m: map<nat, seq<byte>>, i: nat): Slot
    requires Sizes(m, i + 1) <= PAGE_SIZE
  {
    if i in m then Slot(PAGE_SIZE - Sizes(m, i + 1), |m[i]|) else Slot(DEAD, 0)
  }

  ghost predicate PackedAt(d: PageBytes, dir: seq<Slot>, m: map<nat, seq<byte>>, i: nat)
    requires i < |dir|
  {
    && Sizes(m, i + 1) + HEADER_SIZE <= PAGE_SIZE
    && dir[i] == PackedSlot(m, i)
    && (i in m ==> SlotBytes(d, dir[i]) == m[i])
  }

  ghost predicate Packed(d: PageBytes, dir: seq<Slot>, m: map<nat, seq<byte>>) {
    forall i: nat | i < |dir| :: PackedAt(d, dir, m, i)
  }

  lemma PackedSame(b: PageBytes, b': PageBytes, slots: seq<Slot>, m: map<nat, seq<byte>>, offset: nat)
    requires Packed(b, slots, m) && offset == PAGE_SIZE - Sizes(m, |slots|) && SameFrom(b, b', offset)
    ensures Packed(b', slots, m)
  {
    forall i: nat | i < |slots| ensures PackedAt(b', slots, m, i) {
      assert PackedAt(b, slots, m, i);
      SizesMonotone(m, i + 1, |slots|);
      assert i in m ==> SlotBytes(b', slots[i]) == SlotBytes(b, slots[i]);
    }
  }

  lemma NothingPacked(b: PageBytes, m: map<nat, seq<byte>>)
    ensures Packed(b, [], m)
  {
  }

  lemma PackedExtended(b: PageBytes, slots: seq<Slot>, m: map<nat, seq<byte>>)
    requires Packed(b, slots, m) && Sizes(m, |slots| + 1) + HEADER_SIZE <= PAGE_SIZE
    requires |slots| in m ==> SlotBytes(b, PackedSlot(m, |slots|)) == m[|slots|]
    ensures Packed(b, slots + [PackedSlot(m, |slots|)], m)
  {
    var slots' := slots + [PackedSlot(m, |slots|)];
    forall i: nat | i < |slots'| ensures PackedAt(b, slots', m, i) {
      if i < |slots| {
        assert PackedAt(b, slots, m, i);
      }
    }
  }

  lemma TuplesPacked(d: PageBytes, dir: seq<Slot>, m: map<nat, seq<byte>>)
    requires Packed(d, dir, m) && forall i | i in m :: i < |dir|
    requires HEADER_SIZE + SLOT_SIZE * |dir| + Sizes(m, |dir|) <= PAGE_SIZE
    ensures LaidOut(d, dir, PAGE_SIZE - Sizes(m, |dir|)) && Contents(d, dir) == m
  {
    var n := |dir|;
    forall i: nat | i < n
      ensures Live(dir, i) <==> i in m
      ensures Live(dir, i) ==> PAGE_SIZE - Sizes(m, n) <= dir[i].offset && dir[i].offset + dir[i].length <= PAGE_SIZE
      ensures Live(dir, i) ==> SlotBytes(d, dir[i]) == m[i]
    {
      assert PackedAt(d, dir, m, i);
      SizesMonotone(m, i + 1, n);
    }
    assert Contents(d, dir) == m by {
      SameContents(d, dir, m);
    }
    assert Apart(dir) by {
      forall i: nat, j: nat | i < j && Live(dir, i) && Live(dir, j)
        ensures dir[j].offset + dir[j].length <= dir[i].offset
      {
        assert PackedAt(d, dir, m, i) && PackedAt(d, dir, m, j);
        SizesMonotone(m, i + 1, j);
      }
    }
  }

  // ---- pages ----

  /** The layout invariant that every operation on a page keeps. */
  ghost predicate Layout(d: PageBytes) {
    DirectoryFits(d) && LaidOut(d, Directory(d), FreeOffset(d))
  }

  /** The abstract value of a page: the bytes of each live slot. */
  ghost function Tuples(d: PageBytes): map<nat, seq<byte>>
    requires Layout(d)
  {
    Contents(d, Directory(d))
  }

  ghost function LiveBytes(d: PageBytes): nat
    requires Layout(d)
  {
    Sizes(Tuples(d), SlotCount(d))
  }

  lemma LiveTuples(d: PageBytes)
    requires Layout(d)
    ensures forall i :: i in Tuples(d) <==> 0 <= i && Live(Directory(d), i)
  {
  }

  lemma LiveBytesFit(d: PageBytes, n: nat)
    requires Layout(d) && n <= SlotCount(d)
    ensures HEADER_SIZE + Sizes(Tuples(d), n) <= PAGE_SIZE
  {
    SizesMonotone(Tuples(d), n, SlotCount(d));
  }

  function FreeSpace(d: PageBytes): int { FreeOffset(d) - DirectoryEnd(d) }

  ghost predicate HasDead(d: PageBytes)
    requires Layout(d)
  {
    exists i: nat :: i < SlotCount(d) && !Live(Directory(d), i)
  }

  /** When an insert of `n` bytes succeeds without compacting first. */
  ghost predicate CanPlace(d: PageBytes, n: nat)
    requires Layout(d)
  {
    n <= FreeSpace(d) && (HasDead(d) || n + SLOT_SIZE <= FreeSpace(d))
  }

  /** Header, directory (with a new slot if none is dead) and all tuples fit in the page. */
  ghost predicate FitsCompacted(d: PageBytes, n: nat)
    requires Layout(d)
  {
    DirectoryEnd(d) + LiveBytes(d) + n + (if HasDead(d) then 0 else SLOT_SIZE) <= PAGE_SIZE
  }

  lemma PlaceRoom(d: PageBytes, n: nat)
    requires Layout(d) && CanPlace(d, n)
    ensures DirectoryEnd(d) + n + (if HasDead(d) then 0 else SLOT_SIZE) <= FreeOffset(d) <= PAGE_SIZE
    ensures n < 0x1_0000
  {
  }

  /** When `slot` can be given back `n` bytes: it exists, it is dead, and everything fits once compacted. */
  ghost predicate CanRestore(d: PageBytes, slot: nat, n: nat)
    requires Layout(d)
  {
    slot < SlotCount(d) && slot !in Tuples(d) && DirectoryEnd(d) + LiveBytes(d) + n <= PAGE_SIZE
  }

  /**
   * When an update of `slot` to `n` bytes stays on its page, and so under its RID: the new
   * tuple is no longer than the old one, or there is room for it once the old one is out. How
   * the room is counted depends on what the page looks like to is_compacted at that point.
   */
  ghost predicate KeepsRid(d: PageBytes, slot: nat, n: nat)
    requires Layout(d)
  {
    && slot in Tuples(d)
    && var length := |Tuples(d)[slot]|;
       || n <= length
       || if ReportsCompacted(Directory(d)[slot := Slot(DEAD, length)]) then n <= FreeSpace(d)
          else DirectoryEnd(d) + LiveBytes(d) - length + n <= PAGE_SIZE
  }

  /**
   * The update would write past the end of what it makes room for: `n` does not fit 16 bits,
   * and what is left of it does.
   */
  ghost predicate Overruns(d: PageBytes, slot: nat, n: nat)
    requires Layout(d)
  {
    n >= 0x1_0000 && KeepsRid(d, slot, Cut(n))
  }

  /** Every live tuple has updates that write past its end: those to a multiple of 65536 bytes, say. */
  lemma SomeUpdatesOverrun(d: PageBytes, slot: nat, n: nat)
    requires Layout(d) && slot in Tuples(d) && n >= 0x1_0000
    ensures Cut(n) <= |Tuples(d)[slot]| ==> Overruns(d, slot, n)
    ensures Cut(n) > PAGE_SIZE ==> !Overruns(d, slot, n)
  {
    assert Live(Directory(d), slot);
    SizesMonotone(Tuples(d), slot + 1, SlotCount(d));
  }

  /** The dead slot of a tuple just taken out can have `n` bytes, compacting first if the heuristic allows it. */
  ghost predicate Reinserts(d: PageBytes, n: nat)
    requires Layout(d)
  {
    if ReportsCompacted(Directory(d)) then n <= FreeSpace(d) else DirectoryEnd(d) + LiveBytes(d) + n <= PAGE_SIZE
  }

  lemma TakenOutReinserts(d: PageBytes, d': PageBytes, slot: nat, n: nat)
    requires Layout(d) && SameShape(d, d') && slot in Tuples(d) && Tuples(d') == Tuples(d) - {slot}
    requires Directory(d') == Directory(d)[slot := Slot(DEAD, |Tuples(d)[slot]|)] && n > |Tuples(d)[slot]|
    ensures Reinserts(d', n) <==> KeepsRid(d, slot, n)
  {
    assert Live(Directory(d), slot);
    SizesRemove(Tuples(d), slot, SlotCount(d));
  }

  // ---- the same writes, seen on the encoded page ----

  /** `d'` differs from `d` at most in slot count and free offset, in slot `s` and in the bytes from `lo` to `hi`. */
  ghost predicate ChangedOnly(d: PageBytes, d': PageBytes, s: nat, lo: nat, hi: nat) {
    forall k | 0 <= k < PAGE_SIZE && !(4 <= k < HEADER_SIZE) && !InSlot(k, s) && !(lo <= k < hi) :: d'[k] == d[k]
  }

  lemma ChangedTwice(a: PageBytes, b: PageBytes, c: PageBytes, s: nat, lo: nat, hi: nat)
    requires ChangedOnly(a, b, s, 0, 0) && ChangedOnly(b, c, s, lo, hi)
    ensures ChangedOnly(a, c, s, lo, hi)
  {
  }

  predicate InSlot(k: nat, s: nat) {
    HEADER_SIZE + SLOT_SIZE * s <= k < HEADER_SIZE + SLOT_SIZE * (s + 1)
  }

  lemma DirectoryIs(d: PageBytes, dir: seq<Slot>)
    requires DirectoryFits(d) && |dir| == SlotCount(d)
    requires forall i: nat | i < |dir| :: SlotAt(d, i) == dir[i]
    ensures Directory(d) == dir
  {
  }

  lemma OtherSlotsKept(d: PageBytes, d': PageBytes, s: nat, lo: nat, hi: nat)
    requires DirectoryFits(d) && DirectoryEnd(d) <= lo && ChangedOnly(d, d', s, lo, hi)
    ensures NextPage(d') == NextPage(d)
    ensures forall i: nat | i < SlotCount(d) && i != s :: SlotAt(d', i) == Directory(d)[i]
  {
  }

  /** The effect of a successful insert into slot `s`. */
  ghost predicate TupleAdded(d: PageBytes, d': PageBytes, s: nat, tuple: seq<byte>)
    requires Layout(d)
  {
    && Layout(d') && s !in Tuples(d) && s < SlotCount(d')
    && Tuples(d') == Tuples(d)[s := tuple]
    && SlotCount(d') == SlotCount(d) + (if HasDead(d) then 0 else 1)
    && FreeOffset(d') == FreeOffset(d) - |tuple|
    && NextPage(d') == NextPage(d)
  }

  lemma InsertWritten(d: PageBytes, d': PageBytes, s: nat, t: seq<byte>)
    requires Layout(d) && s <= SlotCount(d) && !Live(Directory(d), s) && (s == SlotCount(d) <==> !HasDead(d))
    requires DirectoryEnd(d) + |t| + (if s == SlotCount(d) then SLOT_SIZE else 0) <= FreeOffset(d)
    requires SlotCount(d') == (if s == SlotCount(d) then s + 1 else SlotCount(d))
    requires FreeOffset(d') == FreeOffset(d) - |t| && SlotAt(d', s) == Slot(FreeOffset(d'), |t|)
    requires SlotBytes(d', Slot(FreeOffset(d'), |t|)) == t
    requires ChangedOnly(d, d', s, FreeOffset(d'), FreeOffset(d))
    ensures TupleAdded(d, d', s, t)
  {
    DirectoryPlaced(d, d', s, |t|);
    assert SameFrom(d, d', FreeOffset(d));
    hide PlacedDirectory, ChangedOnly, SlotBytes;
    InsertLaidOut(d, d', s, t);
    hide Layout, Tuples;
  }

  lemma InsertLaidOut(d: PageBytes, d': PageBytes, s: nat, t: seq<byte>)
    requires Layout(d) && s <= SlotCount(d) && !Live(Directory(d), s)
    requires DirectoryEnd(d) + |t| + (if s == SlotCount(d) then SLOT_SIZE else 0) <= FreeOffset(d)
    requires DirectoryFits(d') && Directory(d') == PlacedDirectory(Directory(d), FreeOffset(d), s, |t|)
    requires FreeOffset(d') == FreeOffset(d) - |t| && SlotBytes(d', Slot(FreeOffset(d'), |t|)) == t
    requires SameFrom(d, d', FreeOffset(d))
    ensures Layout(d') && s !in Tuples(d) && Tuples(d') == Tuples(d)[s := t]
  {
    LiveTuples(d);
    TuplePlaced(d, d', Directory(d), FreeOffset(d), s, t);
    hide LaidOut, Contents, PlacedDirectory, Directory, SameFrom, SlotBytes;
  }

  lemma DirectoryPlaced(d: PageBytes, d': PageBytes, s: nat, n: nat)
    requires DirectoryFits(d) && s <= SlotCount(d)
    requires DirectoryEnd(d) + n + (if s == SlotCount(d) then SLOT_SIZE else 0) <= FreeOffset(d)
    requires SlotCount(d') == (if s == SlotCount(d) then s + 1 else SlotCount(d))
    requires FreeOffset(d') == FreeOffset(d) - n && SlotAt(d', s) == Slot(FreeOffset(d'), n)
    requires ChangedOnly(d, d', s, FreeOffset(d'), FreeOffset(d))
    ensures DirectoryFits(d') && NextPage(d') == NextPage(d)
    ensures Directory(d') == PlacedDirectory(Directory(d), FreeOffset(d), s, n)
  {
    OtherSlotsKept(d, d', s, FreeOffset(d'), FreeOffset(d));
    DirectoryIs(d', PlacedDirectory(Directory(d), FreeOffset(d), s, n));
  }

  /** A change of slot `s` alone, the others and the header fields staying put. */
  ghost predicate SlotRewritten(d: PageBytes, d': PageBytes, s: nat, slot: Slot, lo: nat, hi: nat)
    requires DirectoryFits(d)
  {
    && SlotCount(d') == SlotCount(d) && FreeOffset(d') == FreeOffset(d)
    && FreeOffset(d) <= lo && s < SlotCount(d)
    && SlotAt(d', s) == slot && ChangedOnly(d, d', s, lo, hi)
  }

  lemma DirectoryRewritten(d: PageBytes, d': PageBytes, s: nat, slot: Slot, lo: nat, hi: nat)
    requires DirectoryFits(d) && SlotRewritten(d, d', s, slot, lo, hi)
    ensures DirectoryFits(d') && Directory(d') == Directory(d)[s := slot] && NextPage(d') == NextPage(d)
  {
    OtherSlotsKept(d, d', s, lo, hi);
    DirectoryIs(d', Directory(d)[s := slot]);
  }

  ghost predicate SameShape(d: PageBytes, d': PageBytes) {
    && Layout(d') && SlotCount(d') == SlotCount(d)
    && FreeOffset(d') == FreeOffset(d) && NextPage(d') == NextPage(d)
  }

  lemma UpdateWritten(d: PageBytes, d': PageBytes, s: nat, t: seq<byte>)
    requires Layout(d) && Live(Directory(d), s) && |t| <= SlotAt(d, s).length
    requires SlotRewritten(d, d', s, Slot(SlotAt(d, s).offset, |t|), SlotAt(d, s).offset, SlotAt(d, s).offset + |t|)
    requires SlotBytes(d', SlotAt(d', s)) == t
    ensures SameShape(d, d') && Tuples(d') == Tuples(d)[s := t]
  {
    var slot := Slot(SlotAt(d, s).offset, |t|);
    DirectoryRewritten(d, d', s, slot, slot.offset, slot.offset + |t|);
    TupleShrunk(d, d', Directory(d), FreeOffset(d), s, t);
  }

  lemma DropWritten(d: PageBytes, d': PageBytes, s: nat)
    requires Layout(d) && Live(Directory(d), s)
    requires SlotRewritten(d, d', s, Slot(DEAD, SlotAt(d, s).length), PAGE_SIZE, PAGE_SIZE)
    ensures SameShape(d, d') && Tuples(d') == Tuples(d) - {s}
    ensures Directory(d') == Directory(d)[s := Slot(DEAD, |Tuples(d)[s]|)]
  {
    DirectoryRewritten(d, d', s, Slot(DEAD, SlotAt(d, s).length), PAGE_SIZE, PAGE_SIZE);
    assert SameFrom(d, d', FreeOffset(d));
    assert s in Tuples(d) && |Tuples(d)[s]| == SlotAt(d, s).length;
    hide ChangedOnly, SlotBytes;
    TupleDropped(d, d', Directory(d), FreeOffset(d), s, SlotAt(d, s).length);
    hide LaidOut, Contents, Directory;
  }

  lemma LinkWritten(d: PageBytes, d': PageBytes)
    requires Layout(d) && forall k | 4 <= k < PAGE_SIZE :: d'[k] == d[k]
    ensures Layout(d') && Tuples(d') == Tuples(d) && SlotCount(d') == SlotCount(d) && FreeOffset(d') == FreeOffset(d)
  {
    DirectoryIs(d', Directory(d));
    ContentsKept(d, d', Directory(d), FreeOffset(d));
  }

  /** The effect of compaction: the same tuples, packed against the end of the page. */
  ghost predicate Compacted(d: PageBytes, d': PageBytes)
    requires Layout(d)
  {
    && Layout(d') && Tuples(d') == Tuples(d)
    && SlotCount(d') == SlotCount(d) && NextPage(d') == NextPage(d)
    && FreeOffset(d') == PAGE_SIZE - LiveBytes(d)
    && IsPacked(d')
  }

  ghost predicate IsPacked(d: PageBytes)
    requires Layout(d)
  {
    Packed(d, Directory(d), Tuples(d))
  }

  lemma PackWritten(d: PageBytes, d': PageBytes, slots: seq<Slot>)
    requires Layout(d) && |slots| == SlotCount(d) == SlotCount(d') && NextPage(d') == NextPage(d)
    requires FreeOffset(d') == PAGE_SIZE - LiveBytes(d)
    requires forall i: nat | i < |slots| :: SlotAt(d', i) == slots[i]
    requires Packed(d', slots, Tuples(d))
    ensures Compacted(d, d')
  {
    DirectoryIs(d', slots);
    TuplesPacked(d', slots, Tuples(d));
  }

  lemma SameDead(d: PageBytes, d': PageBytes)
    requires Layout(d) && Layout(d') && Tuples(d').Keys == Tuples(d).Keys && SlotCount(d') == SlotCount(d)
    requires HasDead(d)
    ensures HasDead(d')
  {
    var i: nat :| i < SlotCount(d) && !Live(Directory(d), i);
    assert i !in Tuples(d).Keys;
    assert !Live(Directory(d'), i);
  }

  /** A compacted page takes a tuple exactly when header, directory and all tuples fit. */
  lemma CompactedTakes(d: PageBytes, d': PageBytes, n: nat)
    requires Layout(d) && Compacted(d, d')
    ensures CanPlace(d', n) <==> FitsCompacted(d, n)
    ensures FitsCompacted(d', n) <==> FitsCompacted(d, n)
  {
    assert HasDead(d) <==> HasDead(d') by {
      if HasDead(d) {
        SameDead(d, d');
      }
      if HasDead(d') {
        SameDead(d', d);
      }
    }
  }

  // ---- the is_compacted heuristic ----

  /** Walk the slots from `i` on, expecting each live tuple to start where the last one ended. */
  function AscendingRun(dir: seq<Slot>, i: nat, next: nat): bool
    requires i <= |dir|
    decreases |dir| - i
  {
    if i == |dir| then next == PAGE_SIZE
    else if dir[i].offset == DEAD then AscendingRun(dir, i + 1, next)
    else next == dir[i].offset && AscendingRun(dir, i + 1, next + dir[i].length)
  }

  function ReportsCompacted(dir: seq<Slot>): bool {
    |dir| == 0 || AscendingRun(dir, 0, dir[0].offset)
  }

  /** The bytes of the live slots from `i` up to `j`. */
  function LiveLength(dir: seq<Slot>, i: nat, j: nat): nat
    requires i <= j <= |dir|
    decreases j - i
  {
    if i == j then 0 else (if dir[i].offset == DEAD then 0 else dir[i].length) + LiveLength(dir, i + 1, j)
  }

  /**
   * A page is reported as compacted exactly if it has no slots, or its tuples lie one behind the
   * other in the order of their slots, from the offset of slot 0 to the end of the page.
   */
  lemma ReportsMeans(dir: seq<Slot>)
    ensures ReportsCompacted(dir) <==>
              || dir == []
              || (dir[0].offset + LiveLength(dir, 0, |dir|) == PAGE_SIZE
                  && forall s: nat | s < |dir| && dir[s].offset != DEAD ::
                       dir[s].offset == dir[0].offset + LiveLength(dir, 0, s))
  {
    if dir != [] {
      RunMeans(dir, 0, dir[0].offset);
    }
  }

  lemma {:induction false} RunMeans(dir: seq<Slot>, i: nat, next: nat)
    requires i <= |dir|
    ensures AscendingRun(dir, i, next) <==>
              && next + LiveLength(dir, i, |dir|) == PAGE_SIZE
              && forall s: nat | i <= s < |dir| && dir[s].offset != DEAD ::
                   dir[s].offset == next + LiveLength(dir, i, s)
    decreases |dir| - i
  {
    if i < |dir| {
      var live := dir[i].offset != DEAD;
      var start := if live then next + dir[i].length else next;
      RunMeans(dir, i + 1, start);
      assert forall s: nat | i < s <= |dir| :: next + LiveLength(dir, i, s) == start + LiveLength(dir, i + 1, s);
      assert LiveLength(dir, i, i) == 0;
    }
  }

  lemma {:induction false} RunCoversTail(d: PageBytes, dir: seq<Slot>, i: nat, next: nat)
    requires InPage(dir) && i <= |dir| && AscendingRun(dir, i, next)
    ensures Sizes(Contents(d, dir), |dir|) - Sizes(Contents(d, dir), i) + next == PAGE_SIZE
    decreases |dir| - i
  {
    if i < |dir| {
      RunCoversTail(d, dir, i + 1, if Live(dir, i) then next + dir[i].length else next);
    }
  }

  /**
   * A "compacted" answer is right about reclaimable space (everything between the free
   * space offset and the end of the page is live) exactly when slot 0 is the lowest tuple.
   */
  lemma CompactedAnswerIsRightWhen(d: PageBytes)
    requires Layout(d) && SlotCount(d) > 0 && ReportsCompacted(Directory(d))
    ensures LiveBytes(d) == PAGE_SIZE - FreeOffset(d) <==> SlotAt(d, 0).offset == FreeOffset(d)
  {
    RunCoversTail(d, Directory(d), 0, Directory(d)[0].offset);
  }

  /**
   * A grown tuple leaves a page that has room for it, or is kept by one that has none, only if
   * the page without it looks compacted and its slot 0 is not the lowest tuple.
   */
  lemma GrownTupleMoves(d: PageBytes, slot: nat, n: nat)
    requires Layout(d) && slot in Tuples(d) && n > |Tuples(d)[slot]|
    ensures var dir := Directory(d)[slot := Slot(DEAD, |Tuples(d)[slot]|)];
            || (KeepsRid(d, slot, n) <==> DirectoryEnd(d) + LiveBytes(d) - |Tuples(d)[slot]| + n <= PAGE_SIZE)
            || (ReportsCompacted(dir) && dir[0].offset != FreeOffset(d))
  {
    assert Live(Directory(d), slot);
    var dir := Directory(d)[slot := Slot(DEAD, |Tuples(d)[slot]|)];
    TupleDropped(d, d, Directory(d), FreeOffset(d), slot, |Tuples(d)[slot]|);
    SizesRemove(Tuples(d), slot, SlotCount(d));
    if ReportsCompacted(dir) {
      RunCoversTail(d, dir, 0, dir[0].offset);
    }
  }

  /** What inserting `a` and then `b` leaves of an empty page: `a` at its end and `b` right before it. */
  ghost function TwoTuples(a: seq<byte>, b: seq<byte>): PageBytes
    requires |a| == 192 && |b| == 7000
  {
    [255, 255, 255, 255, 2, 0, 232, 3] + [64, 31, 192, 0] + [232, 3, 88, 27] + Zeros(984) + b + a
  }

  lemma TwoTuplesBytes(a: seq<byte>, b: seq<byte>)
    requires |a| == 192 && |b| == 7000
    ensures var d := TwoTuples(a, b);
            && SlotCount(d) == 2 && FreeOffset(d) == 1000
            && SlotAt(d, 0) == Slot(8000, 192) && SlotAt(d, 1) == Slot(1000, 7000)
            && SlotBytes(d, Slot(8000, 192)) == a && SlotBytes(d, Slot(1000, 7000)) == b
  {
    var d := TwoTuples(a, b);
    assert d[4] == 2 && d[5] == 0 && d[6] == 232 && d[7] == 3;
    assert d[8] == 64 && d[9] == 31 && d[10] == 192 && d[11] == 0;
    assert d[12] == 232 && d[13] == 3 && d[14] == 88 && d[15] == 27;
    assert d[8000..8192] == a && d[1000..8000] == b;
  }

  lemma TwoTuplesLaidOut(a: seq<byte>, b: seq<byte>)
    requires |a| == 192 && |b| == 7000
    ensures var d := TwoTuples(a, b);
            && Layout(d) && Tuples(d) == map[0 := a, 1 := b] && LiveBytes(d) == 7192
            && Directory(d) == [Slot(8000, 192), Slot(1000, 7000)]
  {
    TwoTuplesBytes(a, b);
    hide TwoTuples;
    var d, dir, m := TwoTuples(a, b), [Slot(8000, 192), Slot(1000, 7000)], map[0 := a, 1 := b];
    DirectoryIs(d, dir);
    SameContents(d, dir, m);
    assert Sizes(m, 2) == Sizes(m, 1) + 7000 && Sizes(m, 1) == Sizes(m, 0) + 192;
  }

  /** Growing tuple `b` by 100 bytes moves it to another page, with 884 bytes to spare on its own. */
  lemma RoomyPageLeft(a: seq<byte>, b: seq<byte>)
    requires |a| == 192 && |b| == 7000
    ensures Layout(TwoTuples(a, b)) && Tuples(TwoTuples(a, b)) == map[0 := a, 1 := b]
    ensures !KeepsRid(TwoTuples(a, b), 1, 7100)
    ensures DirectoryEnd(TwoTuples(a, b)) + LiveBytes(TwoTuples(a, b)) - 7000 + 7100 + 884 == PAGE_SIZE
  {
    TwoTuplesLaidOut(a, b);
    TwoTuplesBytes(a, b);
    hide TwoTuples, Layout, Tuples, LiveBytes;
    var dir := [Slot(8000, 192), Slot(DEAD, 7000)];
    assert AscendingRun(dir, 2, PAGE_SIZE) && AscendingRun(dir, 1, PAGE_SIZE);
    assert Directory(TwoTuples(a, b))[1 := Slot(DEAD, 7000)] == dir;
  }

  /**
   * Just after compaction the answer is "not compacted" unless slot 0 holds the only tuple:
   * compaction lays tuples out downwards, the heuristic looks for them upwards.
   */
  lemma CompactionIsNotRecognised(d: PageBytes)
    requires Layout(d) && IsPacked(d) && forall i | i in Tuples(d) :: |Tuples(d)[i]| > 0
    ensures ReportsCompacted(Directory(d)) <==> SlotCount(d) == 0 || Tuples(d).Keys == {0}
  {
    var dir, m := Directory(d), Tuples(d);
    if SlotCount(d) > 0 {
      assert PackedAt(d, dir, m, 0);
      if 0 in m {
        assert AscendingRun(dir, 0, dir[0].offset) == AscendingRun(dir, 1, PAGE_SIZE) by {
          assert Sizes(m, 1) == Sizes(m, 0) + |m[0]|;
        }
        PackedRun(d, 1, PAGE_SIZE);
      } else {
        PackedRun(d, 0, DEAD);
      }
    }
  }

  lemma {:induction false} PackedRun(d: PageBytes, i: nat, next: nat)
    requires Layout(d) && IsPacked(d) && i <= SlotCount(d) && forall i | i in Tuples(d) :: |Tuples(d)[i]| > 0
    requires next == DEAD || (next == PAGE_SIZE && i > 0)
    ensures AscendingRun(Directory(d), i, next) <==> next == PAGE_SIZE && forall j | j in Tuples(d) :: j < i
    decreases SlotCount(d) - i
  {
    var dir, m := Directory(d), Tuples(d);
    if i < SlotCount(d) {
      assert PackedAt(d, dir, m, i);
      hide Layout, Packed, IsPacked;
      if i !in m {
        PackedRun(d, i + 1, next);
      } else {
        assert dir[i].offset != next;
      }
    } else {
      TuplesInDirectory(d);
    }
  }

  lemma TuplesInDirectory(d: PageBytes)
    requires Layout(d)
    ensures forall s | s in Tuples(d) :: s < SlotCount(d)
  {
  }
}
