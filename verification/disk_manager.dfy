/** The database file: pages at fixed offsets, and the page allocator kept in page 0. */
module DiskFormat {
  import opened Bytes
  import opened PageLayout

  const MAGIC: nat := 0x4455_434B
  const VERSION: nat := 1
  const DISK_HEADER: nat := 32
  const METADATA_PAGE: nat := 0
  const MAX_FREE: nat := 1025

  // ---- positioned reads and writes ----

  /** A file reads as zeros beyond its end. */
  function ByteAt(file: seq<byte>, k: nat): byte { if k < |file| then file[k] else 0 }

  function PageAt(file: seq<byte>, p: nat): (d: seq<byte>)
    ensures |d| == PAGE_SIZE
  {
    seq(PAGE_SIZE, i requires 0 <= i < PAGE_SIZE => ByteAt(file, p * PAGE_SIZE + i))
  }

  /** A write past the end fills the gap with zeros; writing nothing leaves the file alone. */
  function PWrite(file: seq<byte>, at: nat, bs: seq<byte>): seq<byte> {
    if bs == [] then file
    else if at + |bs| <= |file| then Splice(file, at, bs)
    else Splice(file + Zeros(at + |bs| - |file|), at, bs)
  }

  lemma PWriteBytes(file: seq<byte>, at: nat, bs: seq<byte>, k: nat)
    ensures ByteAt(PWrite(file, at, bs), k) == if at <= k < at + |bs| then bs[k - at] else ByteAt(file, k)
    ensures |PWrite(file, at, bs)| >= |file|
  {
  }

  /** Writing a page changes what is read from that page, and from no other. */
  lemma PageWritten(file: seq<byte>, p: nat, d: PageBytes, q: nat)
    ensures PageAt(PWrite(file, p * PAGE_SIZE, d), q) == if q == p then d else PageAt(file, q)
  {
    var file' := PWrite(file, p * PAGE_SIZE, d);
    hide PWrite;
    forall i | 0 <= i < PAGE_SIZE ensures PageAt(file', q)[i] == if q == p then d[i] else PageAt(file, q)[i] {
      PWriteBytes(file, p * PAGE_SIZE, d, q * PAGE_SIZE + i);
      if p != q {
        PagesApart(p, q, i);
      }
    }
  }

  lemma PagesApart(p: nat, q: nat, i: nat)
    requires i < PAGE_SIZE && p != q
    ensures q * PAGE_SIZE + i < p * PAGE_SIZE || p * PAGE_SIZE + PAGE_SIZE <= q * PAGE_SIZE + i
  {
  }

  // ---- the metadata in page 0 ----

  function EncodeIds(ids: seq<nat>): (s: seq<byte>)
    ensures |s| == 4 * |ids|
  {
    if ids == [] then [] else ToLE(ids[0], 4) + EncodeIds(ids[1..])
  }

  function DecodeIds(s: seq<byte>, n: nat): (ids: seq<nat>)
    requires 4 * n <= |s|
    ensures |ids| == n
  {
    if n == 0 then [] else [FromLE(s[..4])] + DecodeIds(s[4..], n - 1)
  }

  lemma {:induction false} DecodeEncodedMembers(ids: seq<nat>, rest: seq<byte>)
    requires forall i | 0 <= i < |ids| :: ids[i] < 0x1_0000_0000
    ensures DecodeIds(EncodeIds(ids) + rest, |ids|) == ids
  {
    hide ToLE, FromLE, Pow256;
    if ids != [] {
      PowValues();
      FromToLE(ids[0], 4);
      DecodeEncodedMembers(ids[1..], rest);
      var s := EncodeIds(ids) + rest;
      assert s[..4] == ToLE(ids[0], 4);
      assert s[4..] == EncodeIds(ids[1..]) + rest;
    }
  }

  datatype Metadata = Metadata(capacity: nat, free: seq<nat>)

  function Header(m: Metadata): (s: seq<byte>)
    ensures |s| == DISK_HEADER
  {
    ToLE(MAGIC, 8) + ToLE(VERSION, 8) + ToLE(m.capacity, 8) + ToLE(|m.free|, 8)
  }

  /** flush_all: the header, and the list right behind it. */
  function Flushed(file: seq<byte>, m: Metadata): seq<byte> {
    PWrite(PWrite(file, 0, Header(m)), DISK_HEADER, EncodeIds(m.free))
  }

  datatype Reopened = BadMagic | BadVersion | Opened(m: Metadata)

  function Field(d: PageBytes, i: nat): nat
    requires i < 4
  {
    FromLE(d[8 * i..8 * i + 8])
  }

  /** The free list read from page 0 stays within the page. */
  predicate ListInPage(file: seq<byte>) {
    |file| / PAGE_SIZE >= 1 ==> DISK_HEADER + 4 * Field(PageAt(file, METADATA_PAGE), 3) <= PAGE_SIZE
  }

  /** What opening a file finds; a file without a full page counts as new. */
  function Reopen(file: seq<byte>): Reopened
    requires ListInPage(file)
  {
    if |file| / PAGE_SIZE < 1 then Opened(Metadata(1, []))
    else
      var d := PageAt(file, METADATA_PAGE);
      if Field(d, 0) != MAGIC then BadMagic
      else if Field(d, 1) != VERSION then BadVersion
      else Opened(Metadata(Field(d, 2) % 0x1_0000_0000, DecodeIds(d[DISK_HEADER..], Field(d, 3))))
  }

  ghost predicate Sane(m: Metadata) {
    && 1 <= m.capacity < 0x1_0000_0000 && |m.free| <= MAX_FREE
    && forall i | 0 <= i < |m.free| :: m.free[i] < 0x1_0000_0000
  }

  lemma FlushedByte(file: seq<byte>, head: seq<byte>, ids: seq<byte>, k: nat)
    requires |head| == DISK_HEADER
    ensures ByteAt(PWrite(PWrite(file, 0, head), DISK_HEADER, ids), k)
         == if k < DISK_HEADER + |ids| then (head + ids)[k] else ByteAt(file, k)
  {
    PWriteBytes(PWrite(file, 0, head), DISK_HEADER, ids, k);
    PWriteBytes(file, 0, head, k);
    hide PWrite;
  }

  /** Page 0 of a flushed file starts with the header and the list. */
  lemma FlushedStart(file: seq<byte>, head: seq<byte>, ids: seq<byte>) returns (rest: seq<byte>)
    requires |head| == DISK_HEADER && DISK_HEADER + |ids| <= PAGE_SIZE
    ensures PageAt(PWrite(PWrite(file, 0, head), DISK_HEADER, ids), METADATA_PAGE) == head + (ids + rest)
  {
    hide PWrite;
    var d := PageAt(PWrite(PWrite(file, 0, head), DISK_HEADER, ids), METADATA_PAGE);
    rest := d[DISK_HEADER + |ids|..];
    forall i | 0 <= i < DISK_HEADER + |ids| ensures d[i] == (head + ids)[i] {
      FlushedByte(file, head, ids, i);
    }
    hide PageAt;
    assert d[..DISK_HEADER + |ids|] == head + ids;
    assert d == (head + ids) + rest;
    assert (head + ids) + rest == head + (ids + rest);
  }

  lemma FourFields(a: seq<byte>, b: seq<byte>, c: seq<byte>, e: seq<byte>, tail: seq<byte>, d: seq<byte>)
    requires |a| == |b| == |c| == |e| == 8 && d == a + b + c + e + tail
    ensures d[0..8] == a && d[8..16] == b && d[16..24] == c && d[24..32] == e && d[32..] == tail
  {
  }

  lemma HeaderFields(m: Metadata, d: PageBytes, tail: seq<byte>)
    requires Sane(m) && d == Header(m) + tail
    ensures Field(d, 0) == MAGIC && Field(d, 1) == VERSION && Field(d, 2) == m.capacity && Field(d, 3) == |m.free|
    ensures d[DISK_HEADER..] == tail
  {
    hide ToLE, FromLE, Pow256;
    PowValues();
    FromToLE(MAGIC, 8);
    FromToLE(VERSION, 8);
    FromToLE(m.capacity, 8);
    FromToLE(|m.free|, 8);
    FourFields(ToLE(MAGIC, 8), ToLE(VERSION, 8), ToLE(m.capacity, 8), ToLE(|m.free|, 8), tail, d);
  }

  lemma FlushedLength(file: seq<byte>, m: Metadata)
    requires Sane(m)
    ensures |file| >= PAGE_SIZE ==> |Flushed(file, m)| == |file|
    ensures |file| < PAGE_SIZE ==> |Flushed(file, m)| < PAGE_SIZE
  {
    hide Header, EncodeIds;
  }

  /** A page 0 with the header and the list is read back. */
  lemma ReopenFinds(file: seq<byte>, m: Metadata, rest: seq<byte>)
    requires Sane(m) && PageAt(file, METADATA_PAGE) == Header(m) + (EncodeIds(m.free) + rest)
    ensures ListInPage(file)
    ensures Reopen(file) == Opened(if |file| >= PAGE_SIZE then m else Metadata(1, []))
  {
    hide Header, EncodeIds, DecodeIds, Field, PageAt;
    HeaderFields(m, PageAt(file, METADATA_PAGE), EncodeIds(m.free) + rest);
    DecodeEncodedMembers(m.free, rest);
  }

  /**
   * Opening a file after a flush gives back capacity and free list exactly when the file held
   * at least one full page before the flush, or there was nothing to lose.
   */
  lemma ReopenRestores(file: seq<byte>, m: Metadata)
    requires Sane(m)
    ensures ListInPage(Flushed(file, m))
    ensures Reopen(Flushed(file, m)) == Opened(m) <==> |file| >= PAGE_SIZE || m == Metadata(1, [])
  {
    hide Header, EncodeIds, DecodeIds, Field, PageAt, Reopen, ListInPage, PWrite;
    FlushedLength(file, m);
    var rest := FlushedStart(file, Header(m), EncodeIds(m.free));
    ReopenFinds(Flushed(file, m), m, rest);
    hide Flushed;
  }

  /** Flushing the metadata changes no other page. */
  lemma FlushKeepsPages(file: seq<byte>, m: Metadata, p: nat)
    requires Sane(m) && p != METADATA_PAGE
    ensures PageAt(Flushed(file, m), p) == PageAt(file, p)
  {
    hide PWrite, Header, EncodeIds;
    forall i | 0 <= i < PAGE_SIZE ensures PageAt(Flushed(file, m), p)[i] == PageAt(file, p)[i] {
      FlushedByte(file, Header(m), EncodeIds(m.free), p * PAGE_SIZE + i);
    }
  }
}

module DiskManagers {
  import opened Bytes
  import opened Lists
  import opened PageLayout
  import opened DiskFormat

  class DiskManager {
    var file: seq<byte>
    var capacity: nat
    var free_list: seq<nat>
    ghost var live: set<nat>
    ghost var leaked: set<nat>

    function Meta(): Metadata
      reads this
    {
      Metadata(capacity, free_list)
    }

    /** Every page id below the capacity is page 0, live, free or leaked, and only one of these. */
    ghost predicate Valid()
      reads this
    {
      && Sane(Meta())
      && Distinct(free_list)
      && Partition(capacity, live, Members(free_list), leaked)
    }

    /** Open a file; null is the exception for a file that is not a database of this version. */
    static method Open(file: seq<byte>, ghost live: set<nat>, ghost leaked: set<nat>)
      returns (disk: DiskManager?)
      requires ListInPage(file)
      ensures disk == null <==> !Reopen(file).Opened?
      ensures disk != null ==>
                fresh(disk) && disk.Meta() == Reopen(file).m && disk.live == live && disk.leaked == leaked
      ensures disk != null ==> disk.file == if |file| / PAGE_SIZE < 1 then Flushed(file, disk.Meta()) else file
    {
      disk := new DiskManager.Blank(file);
      disk.live, disk.leaked := live, leaked;
      if |file| / PAGE_SIZE < 1 {
        disk.capacity := 1;  // page 0, the first page ever allocated
        disk.FlushAll();
      } else {
        var d := PageAt(file, METADATA_PAGE);
        if Field(d, 0) != MAGIC {
          return null;
        }
        if Field(d, 1) != VERSION {
          return null;
        }
        disk.capacity := Field(d, 2) % 0x1_0000_0000;
        disk.free_list := DecodeIds(d[DISK_HEADER..], Field(d, 3));
      }
    }

    constructor Blank(file: seq<byte>)
      ensures this.file == file && Meta() == Metadata(0, [])
    {
      this.file, capacity, free_list, live, leaked := file, 0, [], {}, {};
    }

    /**
     * Reuse the page freed last, or take the next one. A page handed out was not live. Only
     * when all 32-bit ids are used up does the count wrap around to zero.
     */
    method AllocatePage() returns (p: nat)
      requires Valid()
      modifies this`capacity, this`free_list, this`live
      ensures p !in old(live) && live == old(live) + {p} && p != METADATA_PAGE
      ensures if old(free_list) == [] then p == old(capacity) && free_list == []
              else p in old(free_list) && free_list + [p] == old(free_list)
      ensures Valid() <==> old(free_list) != [] || old(capacity) < INVALID_PAGE
      ensures Valid() ==> p < capacity && p < INVALID_PAGE
      ensures !Valid() ==> p == INVALID_PAGE && capacity == 0
    {
      if |free_list| > 0 {
        p := free_list[|free_list| - 1];
        PartitionTaken(capacity, live, free_list, leaked);
        free_list := free_list[..|free_list| - 1];
        assert free_list + [p] == old(free_list);
      } else {
        p := capacity;
        PartitionGrown(capacity, live, Members(free_list), leaked);
        capacity := (capacity + 1) % 0x1_0000_0000;
      }
      live := live + {p};
    }

    /**
     * Free a page; false is the exception for page 0. A page the full list has no room for is
     * leaked. A page that is not live is put on the list all the same, which spoils it.
     */
    method DeallocatePage(p: nat) returns (ok: bool)
      requires Valid()
      modifies this`free_list, this`live, this`leaked
      ensures ok == (p != METADATA_PAGE) && live == old(live) - {p}
      ensures Valid() <==> !ok || p in old(live) || |old(free_list)| == MAX_FREE
      ensures free_list == if ok && |old(free_list)| < MAX_FREE then old(free_list) + [p] else old(free_list)
      ensures leaked == if ok && |old(free_list)| == MAX_FREE then old(leaked) + ({p} * old(live)) else old(leaked)
    {
      PartitionLost(capacity, live, Members(free_list), leaked, p);
      if p == METADATA_PAGE {
        return false;
      }
      ok := true;
      if |free_list| > 1024 {
        if p in live {
          leaked, live := leaked + {p}, live - {p};
        }
        return;
      }
      IdsExtended(free_list, p);
      if p !in live {
        ghost var k := PartitionSpoilt(capacity, live, free_list, leaked, p);
        assert live - {p} == live;
        assert k < |free_list| ==> (free_list + [p])[k] == free_list[k] && (free_list + [p])[|free_list|] == p;
      }
      free_list, live := free_list + [p], live - {p};
    }

    method FlushAll()
      modifies this`file
      ensures file == Flushed(old(file), Meta())
    {
      file := PWrite(file, 0, Header(Meta()));
      file := PWrite(file, DISK_HEADER, EncodeIds(free_list));
    }

    /** False is the exception for a page that is not allocated or a buffer that is too small. */
    method WritePage(p: nat, buffer: seq<byte>) returns (ok: bool)
      modifies this`file
      ensures ok <==> p < capacity && |buffer| >= PAGE_SIZE
      ensures !ok ==> file == old(file)
      ensures ok ==> forall q: nat :: PageAt(file, q) == if q == p then buffer[..PAGE_SIZE] else PageAt(old(file), q)
      ensures ok ==> |file| >= PAGE_SIZE
    {
      if p >= capacity || |buffer| < PAGE_SIZE {
        return false;
      }
      ghost var before := file;
      forall q: nat ensures PageAt(PWrite(before, p * PAGE_SIZE, buffer[..PAGE_SIZE]), q)
                         == if q == p then buffer[..PAGE_SIZE] else PageAt(before, q) {
        PageWritten(before, p, buffer[..PAGE_SIZE], q);
      }
      file := PWrite(file, p * PAGE_SIZE, buffer[..PAGE_SIZE]);
      ok := true;
    }

    /** What the file does not hold reads as zeros. */
    method ReadPage(p: nat, buffer: array<byte>) returns (ok: bool)
      modifies buffer
      ensures ok <==> p < capacity && buffer.Length >= PAGE_SIZE
      ensures ok ==> buffer[..PAGE_SIZE] == PageAt(file, p)
      ensures forall i | 0 <= i < buffer.Length && (!ok || i >= PAGE_SIZE) :: buffer[i] == old(buffer[i])
    {
      if p >= capacity || buffer.Length < PAGE_SIZE {
        return false;
      }
      var at := p * PAGE_SIZE;
      var n := if |file| <= at then 0 else if |file| - at < PAGE_SIZE then |file| - at else PAGE_SIZE;
      forall i | 0 <= i < n {
        buffer[i] := file[at + i];
      }
      if n < PAGE_SIZE {
        forall i | n <= i < PAGE_SIZE {
          buffer[i] := 0;
        }
      }
      forall i | 0 <= i < PAGE_SIZE ensures buffer[..PAGE_SIZE][i] == PageAt(file, p)[i] {
        assert buffer[i] == ByteAt(file, at + i);
      }
      ok := true;
    }
  }

  ghost predicate Partition(capacity: nat, live: set<nat>, free: set<nat>, leaked: set<nat>) {
    && live !! free && live !! leaked && free !! leaked
    && forall p: nat :: p in live + free + leaked <==> METADATA_PAGE < p < capacity
  }

  lemma PartitionTaken(capacity: nat, live: set<nat>, free: seq<nat>, leaked: set<nat>)
    requires Partition(capacity, live, Members(free), leaked) && free != []
    requires Distinct(free)
    ensures var p, rest := free[|free| - 1], free[..|free| - 1];
            && p in free && p !in live && METADATA_PAGE < p < capacity
            && Partition(capacity, live + {p}, Members(rest), leaked)
  {
    var p, rest := free[|free| - 1], free[..|free| - 1];
    IdsExtended(rest, p);
    assert rest + [p] == free;
    assert p !in Members(rest);
    assert p in live + Members(free) + leaked;
    forall q: nat ensures q in live + {p} + Members(rest) + leaked <==> METADATA_PAGE < q < capacity {
      assert q in live + Members(free) + leaked <==> METADATA_PAGE < q < capacity;
    }
  }

  lemma PartitionGrown(capacity: nat, live: set<nat>, free: set<nat>, leaked: set<nat>)
    requires Partition(capacity, live, free, leaked) && capacity > METADATA_PAGE
    ensures capacity !in live && Partition(capacity + 1, live + {capacity}, free, leaked)
  {
    assert capacity !in live + free + leaked;
    forall q: nat ensures q in live + {capacity} + free + leaked <==> METADATA_PAGE < q < capacity + 1 {
      assert q in live + free + leaked <==> METADATA_PAGE < q < capacity;
    }
  }

  lemma PartitionLost(capacity: nat, live: set<nat>, free: set<nat>, leaked: set<nat>, p: nat)
    requires Partition(capacity, live, free, leaked)
    ensures METADATA_PAGE !in live
    ensures p in live ==> p < capacity && p !in free && p !in leaked
    ensures p in live ==>
              Partition(capacity, live - {p}, free + {p}, leaked) && Partition(capacity, live - {p}, free, leaked + {p})
  {
    assert METADATA_PAGE !in live + free + leaked;
    if p in live {
      assert p in live + free + leaked;
      assert live - {p} + (free + {p}) + leaked == live + free + leaked;
      assert live - {p} + free + (leaked + {p}) == live + free + leaked;
    }
  }

  /** A page that is not live is on the list already, or leaked, or was never handed out. */
  lemma PartitionSpoilt(capacity: nat, live: set<nat>, free: seq<nat>, leaked: set<nat>, p: nat)
    returns (k: nat)
    requires Partition(capacity, live, Members(free), leaked) && p !in live && p != METADATA_PAGE
    ensures if p in free then k < |free| && free[k] == p else !Partition(capacity, live, Members(free + [p]), leaked)
  {
    IdsExtended(free, p);
    k := |free|;
    if p in free {
      k :| 0 <= k < |free| && free[k] == p;
    } else {
      assert p in live + Members(free + [p]) + leaked;
      assert p !in live + Members(free);
      assert p in live + Members(free) + leaked <==> METADATA_PAGE < p < capacity;
    }
  }

  lemma IdsExtended(free: seq<nat>, p: nat)
    ensures Members(free + [p]) == Members(free) + {p}
  {
    assert forall i :: 0 <= i < |free| ==> (free + [p])[i] == free[i];
    assert (free + [p])[|free|] == p;
  }
}
