/** The slotted page: operations that rewrite the bytes of one frame in place. */
module SlottedPages {
  import opened Bytes
  import opened Options
  import opened PageLayout

  /** `slot` is the preferred slot if that one is dead, and otherwise the first slot that is not live. */
  ghost predicate Prefers(dir: seq<Slot>, preferred: Option<nat>, slot: nat) {
    if preferred.Some? && preferred.value < |dir| && !Live(dir, preferred.value) then
      slot == preferred.value
    else
      !Live(dir, slot) && forall i: nat | i < slot :: Live(dir, i)
  }

  method CopyIn(dst: array<byte>, at: nat, bytes: seq<byte>)
    requires at + |bytes| <= dst.Length
    modifies dst
    ensures dst[at..at + |bytes|] == bytes
    ensures forall k :: 0 <= k < dst.Length && !(at <= k < at + |bytes|) ==> dst[k] == old(dst[k])
  {
    for i := 0 to |bytes|
      invariant dst[at..at + i] == bytes[..i]
      invariant forall k :: 0 <= k < dst.Length && !(at <= k < at + i) ==> dst[k] == old(dst[k])
    {
      dst[at + i] := bytes[i];
    }
  }

  method CopyBelow(dst: array<byte>, at: nat, tuple: seq<byte>, ghost slots: seq<Slot>, ghost m: map<nat, seq<byte>>)
    requires dst.Length == PAGE_SIZE && at + |tuple| == PAGE_SIZE - Sizes(m, |slots|) && Packed(dst[..], slots, m)
    modifies dst
    ensures Packed(dst[..], slots, m) && SlotBytes(dst[..], Slot(at, |tuple|)) == tuple
  {
    ghost var before: PageBytes := dst[..];
    CopyIn(dst, at, tuple);
    PackedSame(before, dst[..], slots, m, at + |tuple|);
  }

  class SlottedPage {
    const data: array<byte>

    ghost predicate Framed8K() reads data { data.Length == PAGE_SIZE }

    ghost function Raw(): PageBytes
      requires Framed8K()
      reads data
    {
      data[..]
    }

    ghost predicate Valid() reads data { Framed8K() && Layout(Raw()) }

    constructor (frame: array<byte>)
      ensures data == frame
    {
      data := frame;
    }

    // ---- fields of the header and the directory ----

    function U16(at: nat): nat
      requires Framed8K() && at + 2 <= PAGE_SIZE
      reads data
    {
      data[at] as int + 256 * (data[at + 1] as int)
    }

    function Count(): (n: nat)
      requires Framed8K()
      reads data
      ensures n == SlotCount(Raw())
    {
      U16(4)
    }

    function Free(): (n: nat)
      requires Framed8K()
      reads data
      ensures n == FreeOffset(Raw())
    {
      U16(6)
    }

    function SlotNo(i: nat): (s: Slot)
      requires Framed8K() && HEADER_SIZE + SLOT_SIZE * (i + 1) <= PAGE_SIZE
      reads data
      ensures s == SlotAt(Raw(), i)
    {
      Slot(U16(HEADER_SIZE + SLOT_SIZE * i), U16(HEADER_SIZE + SLOT_SIZE * i + 2))
    }

    function NextPageId(): (p: nat)
      requires Framed8K()
      reads data
      ensures p == NextPage(Raw())
    {
      U16(0) + 0x1_0000 * U16(2)
    }

    method PutU16(at: nat, v: nat)
      requires Framed8K() && at + 2 <= PAGE_SIZE && v < 0x1_0000
      modifies data
      ensures U16(at) == v
      ensures forall k :: 0 <= k < PAGE_SIZE && k != at && k != at + 1 ==> data[k] == old(data[k])
    {
      data[at] := (v % 256) as byte;
      data[at + 1] := (v / 256) as byte;
    }

    method PutSlot(i: nat, s: Slot)
      requires Framed8K() && HEADER_SIZE + SLOT_SIZE * (i + 1) <= PAGE_SIZE
      requires s.offset < 0x1_0000 && s.length < 0x1_0000
      modifies data
      ensures SlotNo(i) == s
      ensures forall k :: 0 <= k < PAGE_SIZE && !(HEADER_SIZE + SLOT_SIZE * i <= k < HEADER_SIZE + SLOT_SIZE * (i + 1))
                ==> data[k] == old(data[k])
    {
      PutU16(HEADER_SIZE + SLOT_SIZE * i, s.offset);
      PutU16(HEADER_SIZE + SLOT_SIZE * i + 2, s.length);
    }

    // ---- operations ----

    method Init()
      requires Framed8K()
      modifies data
      ensures Valid() && Tuples(Raw()) == map[] && SlotCount(Raw()) == 0
      ensures NextPage(Raw()) == INVALID_PAGE && FreeOffset(Raw()) == PAGE_SIZE
    {
      PutU16(0, 0xFFFF);
      PutU16(2, 0xFFFF);
      PutU16(6, PAGE_SIZE);
      PutU16(4, 0);
      assert Directory(Raw()) == [];
    }

    function FreeSpaceBytes(): (n: int)
      requires Framed8K()
      reads data
      ensures n == FreeSpace(Raw())
    {
      Free() - (HEADER_SIZE + SLOT_SIZE * Count())
    }

    method FindEmptySlot() returns (slot: Option<nat>)
      requires Valid()
      ensures slot.Some? <==> HasDead(Raw())
      ensures slot.Some? ==> slot.value < Count() && !Live(Directory(Raw()), slot.value)
      ensures slot.Some? ==> forall i: nat | i < slot.value :: Live(Directory(Raw()), i)
    {
      for i := 0 to Count()
        invariant forall j: nat | j < i :: Live(Directory(Raw()), j)
      {
        if SlotNo(i).offset == DEAD {
          assert !Live(Directory(Raw()), i);
          return Some(i);
        }
      }
      return None;
    }

    method AllocateSlot() returns (slot: nat)
      requires Valid() && DirectoryEnd(Raw()) + SLOT_SIZE <= FreeOffset(Raw())
      modifies data
      ensures slot == old(Count()) && Count() == slot + 1
      ensures ChangedOnly(old(Raw()), Raw(), slot, 0, 0) && Free() == old(Free())
    {
      slot := Count();
      PutU16(4, slot + 1);
      PutU16(HEADER_SIZE + SLOT_SIZE * slot, DEAD);
    }

    /** The slot an insert will use, if there is room: the preferred one, the first dead one, or a new one. */
    method ChooseSlot(size: nat, preferred: Option<nat>) returns (slot: Option<nat>)
      requires Valid()
      modifies data
      ensures slot.Some? <==> old(CanPlace(Raw(), size))
      ensures slot.None? ==> Raw() == old(Raw())
      ensures slot.Some? ==>
                && slot.value <= old(Count())
                && (slot.value == old(Count()) <==> !old(HasDead(Raw())))
                && Count() == (if slot.value == old(Count()) then slot.value + 1 else old(Count()))
                && !Live(old(Directory(Raw())), slot.value)
                && ChangedOnly(old(Raw()), Raw(), slot.value, 0, 0) && Free() == old(Free())
      ensures slot.Some? ==> Prefers(old(Directory(Raw())), preferred, slot.value)
    {
      var available := FreeSpaceBytes();
      if available < size {
        return None;
      }
      if preferred.Some? && preferred.value < Count() && SlotNo(preferred.value).offset == DEAD {
        assert !Live(Directory(Raw()), preferred.value);
        return preferred;
      }
      var empty := FindEmptySlot();
      if empty.Some? {
        return empty;
      }
      if available - size < SLOT_SIZE {
        return None;
      }
      var idx := AllocateSlot();
      return Some(idx);
    }

    /** Point slot `s` at the bytes below the free space offset, and write the tuple there. */
    method WriteTuple(s: nat, tuple: seq<byte>)
      requires Framed8K() && s < Count() && |tuple| < 0x1_0000
      requires HEADER_SIZE + SLOT_SIZE * Count() + |tuple| <= Free() <= PAGE_SIZE
      modifies data
      ensures Count() == old(Count()) && Free() == old(Free()) - |tuple|
      ensures SlotNo(s) == Slot(Free(), |tuple|) && SlotBytes(Raw(), SlotNo(s)) == tuple
      ensures ChangedOnly(old(Raw()), Raw(), s, Free(), old(Free()))
    {
      var offset := Free() - |tuple|;
      PutSlot(s, Slot(offset, |tuple|));
      PutU16(6, offset);
      CopyIn(data, offset, tuple);
    }

    /** Place a tuple in the preferred slot if it is dead, else in the first dead slot, else in a new one. */
    method InsertTuple(tuple: seq<byte>, preferred: Option<nat> := None) returns (slot: Option<nat>)
      requires Valid() && (|tuple| < 0x1_0000 || !CanPlace(Raw(), Cut(|tuple|)))
      modifies data
      ensures Valid()
      ensures slot.Some? <==> old(CanPlace(Raw(), Cut(|tuple|)))
      ensures slot.None? ==> Raw() == old(Raw())
      ensures slot.Some? ==> TupleAdded(old(Raw()), Raw(), slot.value, tuple)
      ensures slot.Some? ==> Prefers(old(Directory(Raw())), preferred, slot.value)
    {
      hide Layout, Tuples, CanPlace, HasDead, ChangedOnly, Prefers;
      ghost var d := Raw();
      slot := ChooseSlot(Cut(|tuple|), preferred);
      if slot.Some? {
        PlaceRoom(d, |tuple|);
        ghost var d1 := Raw();
        WriteTuple(slot.value, tuple);
        ChangedTwice(d, d1, Raw(), slot.value, FreeOffset(Raw()), FreeOffset(d));
        InsertWritten(d, Raw(), slot.value, tuple);
      }
    }

    /** The bytes of a live slot; nothing for a dead or missing one. */
    method GetTuple(slot: nat) returns (tuple: seq<byte>)
      requires Valid()
      ensures tuple == if slot in Tuples(Raw()) then Tuples(Raw())[slot] else []
    {
      if slot >= Count() {
        return [];
      }
      var s := SlotNo(slot);
      assert Directory(Raw())[slot] == s;
      if s.offset == DEAD {
        return [];
      }
      assert Live(Directory(Raw()), slot);
      tuple := data[s.offset..s.offset + s.length];
    }

    method TryUpdateInPlace(slot: nat, tuple: seq<byte>) returns (ok: bool)
      requires Valid() && (|tuple| < 0x1_0000 || !Overruns(Raw(), slot, |tuple|))
      modifies data
      ensures ok <==> slot in old(Tuples(Raw())) && Cut(|tuple|) <= |old(Tuples(Raw()))[slot]|
      ensures !ok ==> Raw() == old(Raw())
      ensures SameShape(old(Raw()), Raw())
      ensures Tuples(Raw()) == if ok then old(Tuples(Raw()))[slot := tuple] else old(Tuples(Raw()))
    {
      ghost var d := Raw();
      if slot >= Count() {
        return false;
      }
      var s := SlotNo(slot);
      assert Directory(d)[slot] == s;
      if s.offset == DEAD {
        return false;
      }
      assert Live(Directory(d), slot);
      if Cut(|tuple|) > s.length {
        return false;
      }
      OverwriteTuple(slot, s, tuple);
      UpdateWritten(d, Raw(), slot, tuple);
      return true;
    }

    method OverwriteTuple(slot: nat, s: Slot, tuple: seq<byte>)
      requires Framed8K() && DirectoryFits(Raw()) && slot < Count() && s == SlotNo(slot)
      requires Free() <= s.offset && s.offset + s.length <= PAGE_SIZE && |tuple| <= s.length
      modifies data
      ensures SlotRewritten(old(Raw()), Raw(), slot, Slot(s.offset, |tuple|), s.offset, s.offset + |tuple|)
      ensures SlotBytes(Raw(), SlotNo(slot)) == tuple
    {
      CopyIn(data, s.offset, tuple);
      PutU16(HEADER_SIZE + SLOT_SIZE * slot + 2, |tuple|);
    }

    method DeleteTuple(slot: nat) returns (ok: bool)
      requires Valid()
      modifies data
      ensures ok <==> slot in old(Tuples(Raw()))
      ensures SameShape(old(Raw()), Raw())
      ensures Tuples(Raw()) == old(Tuples(Raw())) - {slot}
      ensures ok ==> Directory(Raw()) == old(Directory(Raw()))[slot := Slot(DEAD, |old(Tuples(Raw()))[slot]|)]
      ensures !ok ==> Raw() == old(Raw())
    {
      ghost var d := Raw();
      if slot >= Count() {
        return false;
      }
      assert Directory(d)[slot] == SlotNo(slot);
      if SlotNo(slot).offset == DEAD {
        return false;
      }
      assert Live(Directory(d), slot);
      PutU16(HEADER_SIZE + SLOT_SIZE * slot, DEAD);
      DropWritten(d, Raw(), slot);
      return true;
    }

    /** Copy the next tuple, if that slot is live, below those already packed. */
    method PackOne(compacted: array<byte>, slots: seq<Slot>, offset: nat, ghost m: map<nat, seq<byte>>)
      returns (slot: Slot, offset': nat)
      requires Valid() && compacted != data && compacted.Length == PAGE_SIZE && |slots| < Count()
      requires m == Tuples(Raw()) && Packed(compacted[..], slots, m) && offset == PAGE_SIZE - Sizes(m, |slots|)
      requires HEADER_SIZE + Sizes(m, |slots| + 1) <= PAGE_SIZE
      modifies compacted
      ensures slot == PackedSlot(m, |slots|) && slot.offset < 0x1_0000 && slot.length < 0x1_0000
      ensures offset' == PAGE_SIZE - Sizes(m, |slots| + 1)
      ensures Packed(compacted[..], slots, m)
      ensures |slots| in m ==> SlotBytes(compacted[..], slot) == m[|slots|]
    {
      var i := |slots|;
      var s := SlotNo(i);
      assert Directory(Raw())[i] == s;
      if s.offset == DEAD {
        assert !Live(Directory(Raw()), i);
        return Slot(DEAD, 0), offset;
      }
      assert Live(Directory(Raw()), i) && SlotBytes(Raw(), s) == m[i];
      offset' := offset - s.length;
      CopyBelow(compacted, offset', data[s.offset..s.offset + s.length], slots, m);
      slot := Slot(offset', s.length);
    }

    /** Zero the frame, then write the header, the slots and the packed tuples back. */
    method Rewrite(slots: seq<Slot>, offset: nat, packed: array<byte>)
      requires Framed8K() && packed != data && packed.Length == PAGE_SIZE
      requires |slots| == Count() && HEADER_SIZE + SLOT_SIZE * |slots| <= offset <= PAGE_SIZE
      requires forall j: nat | j < |slots| :: slots[j].offset < 0x1_0000 && slots[j].length < 0x1_0000
      modifies data
      ensures Count() == |slots| && Free() == offset && NextPageId() == old(NextPageId())
      ensures forall i: nat | i < |slots| :: SlotAt(Raw(), i) == slots[i]
      ensures SameFrom(packed[..], Raw(), offset)
    {
      var next_lo, next_hi := U16(0), U16(2);
      for k := 0 to PAGE_SIZE {
        data[k] := 0;
      }
      PutU16(0, next_lo);
      PutU16(2, next_hi);
      PutU16(4, |slots|);
      PutU16(6, offset);
      ghost var header := data[..HEADER_SIZE];
      for i := 0 to |slots|
        invariant data[..HEADER_SIZE] == header
        invariant forall j: nat | j < i :: SlotAt(Raw(), j) == slots[j]
      {
        PutSlot(i, slots[i]);
      }
      assert forall k :: 0 <= k < HEADER_SIZE ==> data[k] == header[k];
      label directory:
      for k := offset to PAGE_SIZE
        invariant forall j :: offset <= j < k ==> data[j] == packed[j]
        invariant forall j :: 0 <= j < offset ==> data[j] == old@directory(data[j])
      {
        data[k] := packed[k];
      }
    }

    /** Pack every live tuple into `compacted`, collecting the new slots. */
    method PackAll(compacted: array<byte>, ghost m: map<nat, seq<byte>>) returns (slots: seq<Slot>, offset: nat)
      requires Valid() && m == Tuples(Raw()) && compacted != data && compacted.Length == PAGE_SIZE
      modifies compacted
      ensures |slots| == Count() && offset == PAGE_SIZE - Sizes(m, |slots|)
      ensures Packed(compacted[..], slots, m)
      ensures forall j: nat | j < |slots| :: slots[j].offset < 0x1_0000 && slots[j].length < 0x1_0000
    {
      hide Layout, Tuples, Packed;
      slots, offset := [], PAGE_SIZE;
      NothingPacked(compacted[..], m);
      var count := Count();
      while |slots| < count
        invariant |slots| <= count && offset == PAGE_SIZE - Sizes(m, |slots|)
        invariant unchanged(data) && Packed(compacted[..], slots, m)
        invariant forall j: nat | j < |slots| :: slots[j].offset < 0x1_0000 && slots[j].length < 0x1_0000
      {
        LiveBytesFit(Raw(), |slots| + 1);
        var slot, offset' := PackOne(compacted, slots, offset, m);
        PackedExtended(compacted[..], slots, m);
        slots, offset := slots + [slot], offset';
      }
    }

    /** Rewrite the page with its live tuples packed against the end. */
    method Compact()
      requires Valid()
      modifies data
      ensures Valid() && PageLayout.Compacted(old(Raw()), Raw())
    {
      ghost var d := Raw();
      var compacted := new byte[PAGE_SIZE](_ => 0);
      var slots, offset := PackAll(compacted, Tuples(d));
      Rewrite(slots, offset, compacted);
      PackedSame(compacted[..], Raw(), slots, Tuples(d), offset);
      PackWritten(d, Raw(), slots);
    }

    /** Restoring into a dead slot; false where one of the source's assertions would stop the program. */
    method RestoreTuple(slot: nat, tuple: seq<byte>) returns (ok: bool)
      requires Valid() && (|tuple| < 0x1_0000 || !CanRestore(Raw(), slot, Cut(|tuple|)))
      modifies data
      ensures Valid() && SlotCount(Raw()) == old(SlotCount(Raw())) && NextPage(Raw()) == old(NextPage(Raw()))
      ensures ok <==> old(CanRestore(Raw(), slot, Cut(|tuple|)))
      ensures Tuples(Raw()) == if ok then old(Tuples(Raw()))[slot := tuple] else old(Tuples(Raw()))
    {
      ghost var d := Raw();
      if slot >= Count() {
        return false;
      }
      assert Directory(d)[slot] == SlotNo(slot);
      if SlotNo(slot).offset != DEAD {
        assert Live(Directory(d), slot);
        return false;
      }
      assert !Live(Directory(d), slot);
      if FreeSpaceBytes() < Cut(|tuple|) {
        Compact();
        if Cut(|tuple|) > FreeSpaceBytes() {
          return false;
        }
      }
      assert !Live(Directory(Raw()), slot) by {
        assert slot !in Tuples(Raw());
      }
      var placed := InsertTuple(tuple, Some(slot));
      ok := placed.Some?;
    }

    method IsCompacted() returns (compacted: bool)
      requires Valid()
      ensures compacted <==> ReportsCompacted(Directory(Raw()))
    {
      if Count() == 0 {
        return true;
      }
      ghost var dir := Directory(Raw());
      var next: nat := SlotNo(0).offset;
      for i := 0 to Count()
        invariant AscendingRun(dir, 0, dir[0].offset) == AscendingRun(dir, i, next)
      {
        var s := SlotNo(i);
        assert dir[i] == s;
        if s.offset != DEAD {
          if next != s.offset {
            return false;
          }
          next := next + s.length;
        }
      }
      return next == PAGE_SIZE;
    }

    method SetNextPage(page: nat)
      requires Valid() && page <= INVALID_PAGE
      modifies data
      ensures Valid() && NextPage(Raw()) == page
      ensures Tuples(Raw()) == old(Tuples(Raw())) && SlotCount(Raw()) == old(SlotCount(Raw()))
      ensures FreeOffset(Raw()) == old(FreeOffset(Raw()))
    {
      ghost var d := Raw();
      PutU16(0, page % 0x1_0000);
      PutU16(2, page / 0x1_0000);
      LinkWritten(d, Raw());
    }

    method HasSlot(slot: nat) returns (live: bool)
      requires Valid()
      ensures live <==> slot in Tuples(Raw())
      ensures live ==> slot < SlotCount(Raw())
    {
      if slot >= Count() {
        return false;
      }
      assert Directory(Raw())[slot] == SlotNo(slot);
      live := SlotNo(slot).offset != DEAD;
      assert live <==> Live(Directory(Raw()), slot);
    }

    /** The first live slot after `slot`. */
    method NextOccupiedSlot(slot: nat) returns (next: Option<nat>)
      requires Valid()
      ensures next.Some? ==> slot < next.value && next.value in Tuples(Raw())
      ensures forall i | i in Tuples(Raw()) && slot < i :: next.Some? && next.value <= i
    {
      assert DirectoryFits(Raw());
      hide Layout, Tuples;
      LiveTuples(Raw());
      var i := slot + 1;
      while i < Count()
        invariant slot < i
        invariant forall j | j in Tuples(Raw()) && slot < j :: i <= j
      {
        assert Directory(Raw())[i] == SlotNo(i);
        if SlotNo(i).offset != DEAD {
          assert Live(Directory(Raw()), i);
          return Some(i);
        }
        assert !Live(Directory(Raw()), i);
        i := i + 1;
      }
      return None;
    }
  }
}
