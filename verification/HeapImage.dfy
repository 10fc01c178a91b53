/** Saving guest memory to a byte stream and restoring it: `ByteStream` (src/xenia/base/byte_stream.cc),
    `BaseHeap::Save` and `Restore`, `Memory::Save` and `Restore` (src/xenia/memory.cc). */
module HeapImage {
  import opened PageTable
  import opened HeapSpec
  import opened LittleEndians
  import HeapRuns

  type Bytes = seq<nat>

  // ---- page entries as words ------------------------------------------------------------------------

  const BIT_20: nat := 0x10_0000
  const BIT_32: nat := 0x1_0000_0000
  const BIT_52: nat := 0x10_0000_0000_0000
  const BIT_56: nat := 0x100_0000_0000_0000
  const BIT_60: nat := 0x1000_0000_0000_0000

  /** The fields have the width that the entry gives them. */
  predicate Storable(e: PageEntry) {
    e.baseAddress < BIT_20 && e.regionPageCount < BIT_20
  }

  /** `PageEntry::qword`: base in bits 0 to 19, region from bit 32 on, where the next 32-bit unit of the
      bit field begins. */
  function Qword(e: PageEntry): (q: nat) {
    e.baseAddress + BIT_32 * e.regionPageCount + BIT_52 * (e.allocationProtect as nat)
      + BIT_56 * (e.currentProtect as nat) + BIT_60 * (e.state as nat)
  }

  function EntryOf(q: nat): PageEntry {
    PageEntry(q % BIT_20, q / BIT_32 % BIT_20, (q / BIT_52 % 16) as bv4, (q / BIT_56 % 16) as bv4,
              (q / BIT_60 % 4) as bv2)
  }

  lemma QwordRoundTrip(e: PageEntry)
    requires Storable(e)
    ensures EntryOf(Qword(e)) == e && Qword(e) < Pow256(8)
  {
    var a, c, s := e.allocationProtect as nat, e.currentProtect as nat, e.state as nat;
    PowersOf256();
    FieldsOfSum(e.baseAddress, e.regionPageCount, a, c, s);
  }

  /** Bits 0 to 19 hold the base, 32 to 51 the page count, 52 to 55 and 56 to 59 the two protections, and 60
      and 61 the state. */
  lemma QwordLayout(e: PageEntry)
    requires Storable(e)
    ensures var q := Qword(e);
            && q % 0x10_0000 == e.baseAddress && q / 0x10_0000 % 0x1000 == 0
            && q / 0x1_0000_0000 % 0x10_0000 == e.regionPageCount
            && q / 0x10_0000_0000_0000 % 16 == e.allocationProtect as nat
            && q / 0x100_0000_0000_0000 % 16 == e.currentProtect as nat
            && q / 0x1000_0000_0000_0000 == e.state as nat
  {
    var a, c, s := e.allocationProtect as nat, e.currentProtect as nat, e.state as nat;
    FieldsOfSum(e.baseAddress, e.regionPageCount, a, c, s);
    GapInSum(e.baseAddress, e.regionPageCount, a, c, s);
  }

  lemma GapInSum(base: nat, region: nat, a: nat, c: nat, s: nat)
    requires base < BIT_20 && region < BIT_20 && a < 16 && c < 16 && s < 4
    ensures var q := base + BIT_32 * region + BIT_52 * a + BIT_56 * c + BIT_60 * s;
            q / BIT_20 % 0x1000 == 0 && q / BIT_60 == s
  {
    var q := base + BIT_32 * region + BIT_52 * a + BIT_56 * c + BIT_60 * s;
    var above := region + 0x10_0000 * a + 0x100_0000 * c + 0x1000_0000 * s;
    assert q == base + BIT_20 * (0x1000 * above);
    assert q / BIT_20 == 0x1000 * above;
    assert base + BIT_32 * region + BIT_52 * a + BIT_56 * c < BIT_60;
  }

  lemma FieldsOfSum(base: nat, region: nat, a: nat, c: nat, s: nat)
    requires base < BIT_20 && region < BIT_20 && a < 16 && c < 16 && s < 4
    ensures var q := base + BIT_32 * region + BIT_52 * a + BIT_56 * c + BIT_60 * s;
            && q % BIT_20 == base && q / BIT_32 % BIT_20 == region && q / BIT_52 % 16 == a && q / BIT_56 % 16 == c
            && q / BIT_60 % 4 == s && q < BIT_60 * 4
  {
    var q := base + BIT_32 * region + BIT_52 * a + BIT_56 * c + BIT_60 * s;
    assert q / BIT_32 == region + 0x10_0000 * a + 0x100_0000 * c + 0x1000_0000 * s;
    assert q / BIT_52 == a + 16 * c + 256 * s;
    assert q / BIT_56 == c + 16 * s;
    assert q / BIT_60 == s;
  }

  // ---- the bytes of a heap --------------------------------------------------------------------------

  predicate IsCommitted(e: PageEntry) {
    e.state & COMMIT != 0
  }

  /** A page table and what is in each page. */
  ghost predicate IsImage(table: Table, pages: seq<Bytes>, pageSize: nat) {
    |pages| == |table| && forall i :: 0 <= i < |table| ==> Storable(table[i]) && |pages[i]| == pageSize
  }

  /** One record: the entry, and the contents of a committed page. */
  function Record(e: PageEntry, page: Bytes): Bytes {
    LittleEndian(Qword(e), 8) + (if IsCommitted(e) then page else [])
  }

  /** The records of the pages from `i` on. */
  function Saved(table: Table, pages: seq<Bytes>, i: nat): Bytes
    requires |pages| == |table|
    decreases |table| - i
  {
    if i >= |table| then [] else Record(table[i], pages[i]) + Saved(table, pages, i + 1)
  }

  /** Where the record of page `i` begins: eight bytes for each page in front of it, and the contents of those
      that are committed. */
  function RecordStart(table: Table, pageSize: nat, i: nat): nat
    requires i <= |table|
  {
    if i == 0 then 0 else RecordStart(table, pageSize, i - 1) + 8 + if table[i - 1].state & 2 != 0 then pageSize else 0
  }

  /** The record of page `i` lies there: its entry as a 64-bit word, least significant byte first, and the
      contents of a committed page. */
  lemma {:induction false} SavedAt(table: Table, pages: seq<Bytes>, pageSize: nat, i: nat, k: nat)
    requires IsImage(table, pages, pageSize) && k <= i < |table|
    ensures RecordStart(table, pageSize, k) <= RecordStart(table, pageSize, i)
    ensures var start := RecordStart(table, pageSize, i) - RecordStart(table, pageSize, k);
            var saved := Saved(table, pages, k);
            && start + 8 <= |saved|
            && (forall j :: 0 <= j < 8 ==> Pow256(j) > 0 && saved[start + j] == Qword(table[i]) / Pow256(j) % 256)
            && (table[i].state & 2 != 0 ==>
                  start + 8 + pageSize <= |saved| && saved[start + 8..start + 8 + pageSize] == pages[i])
    decreases i - k
  {
    hide Qword, LittleEndian, Pow256;
    var saved, rest := Saved(table, pages, k), Saved(table, pages, k + 1);
    var n := |Record(table[k], pages[k])|;
    assert saved == Record(table[k], pages[k]) + rest;
    if k == i {
      forall j | 0 <= j < 8
        ensures Pow256(j) > 0 && saved[j] == Qword(table[i]) / Pow256(j) % 256
      {
        LittleEndianByte(Qword(table[i]), 8, j);
      }
      assert table[i].state & 2 != 0 ==> saved[8..8 + pageSize] == pages[i];
    } else {
      SavedAt(table, pages, pageSize, i, k + 1);
      assert RecordStart(table, pageSize, k + 1) == RecordStart(table, pageSize, k) + n;
      var start := RecordStart(table, pageSize, i) - RecordStart(table, pageSize, k + 1);
      Behind(Record(table[k], pages[k]), rest, start);
      assert saved[n + start..] == rest[start..];
      assert forall j :: 0 <= j < |rest| - start ==> saved[n + start..][j] == rest[start..][j];
      assert table[i].state & 2 != 0 ==> saved[n + start..][8..8 + pageSize] == rest[start..][8..8 + pageSize];
    }
  }

  lemma Behind(front: Bytes, rest: Bytes, start: nat)
    requires start <= |rest|
    ensures (front + rest)[|front| + start..] == rest[start..]
  {
  }

  class ByteStream {
    const data: array<nat>
    var offset: nat

    constructor (data: array<nat>)
      ensures this.data == data && offset == 0
    {
      this.data, offset := data, 0;
    }

    method Read(n: nat) returns (bytes: Bytes)
      requires offset + n <= data.Length
      modifies this`offset
      ensures bytes == data[old(offset)..old(offset) + n] && offset == old(offset) + n
    {
      bytes := data[offset..offset + n];
      offset := offset + n;
    }

    method Write(bytes: Bytes)
      requires offset + |bytes| <= data.Length
      modifies this, data
      ensures offset == old(offset) + |bytes|
      ensures data[..] == old(data[..offset]) + bytes + old(data[offset + |bytes|..])
    {
      forall i | 0 <= i < |bytes| {
        data[offset + i] := bytes[i];
      }
      offset := offset + |bytes|;
    }
  }

  /** Writing `a` and then `b` is writing both. */
  lemma WrittenTwice(d0: Bytes, d1: Bytes, d2: Bytes, o: nat, a: Bytes, b: Bytes)
    requires o + |a| + |b| <= |d0|
    requires d1 == d0[..o] + a + d0[o + |a|..]
    requires d2 == d1[..o + |a|] + b + d1[o + |a| + |b|..]
    ensures d2 == d0[..o] + (a + b) + d0[o + |a + b|..]
  {
    assert d1[..o + |a|] == d0[..o] + a;
    assert d1[o + |a| + |b|..] == d0[o + |a| + |b|..];
  }

  class HeapMemory {
    const pageSize: nat
    var pageTable: Table
    var pages: seq<Bytes>
    var access: seq<PageAccess>
    /** `unreserved_page_count_`, which neither `Restore` nor `Reset` computes again */
    var unreserved: int

    ghost predicate Valid()
      reads this
    {
      IsImage(pageTable, pages, pageSize) && |access| == |pageTable|
    }

    /** The table is consistent and the cached count of free pages is right. */
    ghost predicate Sound()
      reads this
    {
      HeapRuns.Inv(Heap(pageTable, unreserved, access))
    }

    constructor (pageSize: nat, count: nat)
      ensures Valid() && Sound() && this.pageSize == pageSize && |pageTable| == count
      ensures forall i :: 0 <= i < count ==> pageTable[i] == FREE_ENTRY
    {
      this.pageSize, unreserved := pageSize, count;
      pageTable := seq(count, _ => FREE_ENTRY);
      pages := seq(count, _ => seq(pageSize, _ => 0));
      access := seq(count, _ => NoAccess);
      new;
      FreeInAll(pageTable, 0, count);
    }

    /** `BaseHeap::Reset`: only a heap in which nothing was taken has the right count of free pages after
        it; contents and access stay as they were. */
    method Reset()
      requires Valid()
      modifies this`pageTable
      ensures Valid() && |pageTable| == |old(pageTable)|
              && forall i :: 0 <= i < |pageTable| ==> pageTable[i] == FREE_ENTRY
      ensures old(Sound()) ==> (Sound() <==> forall i :: 0 <= i < |pageTable| ==> old(pageTable)[i].state == 0)
    {
      ghost var was := pageTable;
      pageTable := seq(|pageTable|, _ => FREE_ENTRY);
      FreeInAll(pageTable, 0, |pageTable|);
      AllFreeExactly(was);
    }

    /** `BaseHeap::Save`: makes each committed page readable, writes it, and puts its access back. */
    method Save(stream: ByteStream)
      requires Valid() && stream.offset + |Saved(pageTable, pages, 0)| <= stream.data.Length
      modifies this`access, stream, stream.data
      ensures access == old(access) && stream.offset == old(stream.offset) + |Saved(pageTable, pages, 0)|
      ensures stream.data[..] == old(stream.data[..stream.offset]) + Saved(pageTable, pages, 0)
              + old(stream.data[stream.offset + |Saved(pageTable, pages, 0)|..])
    {
      hide IsCommitted, Record;
      ghost var d0, o := stream.data[..], stream.offset;
      ghost var done := [];
      for i := 0 to |pageTable|
        invariant access == old(access) && stream.offset == o + |done|
        invariant done + Saved(pageTable, pages, i) == Saved(pageTable, pages, 0)
        invariant stream.data[..] == d0[..o] + done + d0[o + |done|..]
      {
        ghost var record := Record(pageTable[i], pages[i]);
        ghost var rest := Saved(pageTable, pages, i + 1);
        assert done + (record + rest) == (done + record) + rest;
        SaveRecord(i, stream);
        WrittenTwice(d0, d0[..o] + done + d0[o + |done|..], stream.data[..], o, done, record);
        done := done + record;
      }
      assert done == Saved(pageTable, pages, 0);
    }

    method SaveRecord(i: nat, stream: ByteStream)
      requires Valid() && i < |pageTable| && stream.offset + |Record(pageTable[i], pages[i])| <= stream.data.Length
      modifies this`access, stream, stream.data
      ensures access == old(access) && stream.offset == old(stream.offset) + |Record(pageTable[i], pages[i])|
      ensures stream.data[..] == old(stream.data[..stream.offset]) + Record(pageTable[i], pages[i])
              + old(stream.data[stream.offset + |Record(pageTable[i], pages[i])|..])
    {
      hide IsCommitted, LittleEndian, Qword;
      ghost var d0, o := stream.data[..], stream.offset;
      var word := LittleEndian(Qword(pageTable[i]), 8);
      stream.Write(word);
      if pageTable[i].state == 0 {
        assert !IsCommitted(pageTable[i]) by { FreeIsNotCommitted(pageTable[i]); }
        return;
      }
      if IsCommitted(pageTable[i]) {
        ghost var d1 := stream.data[..];
        var oldAccess := access[i];
        access := access[i := ReadWrite];
        stream.Write(pages[i]);
        access := access[i := oldAccess];
        WrittenTwice(d0, d1, stream.data[..], o, word, pages[i]);
      }
    }

    /** `BaseHeap::Restore`, from the bytes that `Save` wrote for `table` and `pages_`: brings back every
        entry, and the contents and the access of every committed page. */
    method Restore(stream: ByteStream, ghost table: Table, ghost pages_: seq<Bytes>)
      requires Valid() && IsImage(table, pages_, pageSize) && |table| == |pageTable|
      requires Follows(stream.data[..], stream.offset, Saved(table, pages_, 0))
      modifies this`pageTable, this`pages, this`access, stream`offset
      ensures Valid() && pageTable == table && stream.offset == old(stream.offset) + |Saved(table, pages_, 0)|
      ensures pages == Renewed(table, |table|, old(pages), pages_)
      ensures access == Renewed(table, |table|, old(access), RestoredAccesses(table))
      ensures old(Sound()) ==> (Sound() <==> WellFormed(table) && CountFree(table) == old(CountFree(pageTable)))
    {
      hide IsCommitted, Record, ToPageAccess, Storable, Renewed, Saved, Follows;
      NothingRenewed(table, pages, pages_);
      NothingRenewed(table, access, RestoredAccesses(table));
      for i := 0 to |pageTable|
        invariant Valid() && |pageTable| == |table|
        invariant Follows(stream.data[..], stream.offset, Saved(table, pages_, i))
        invariant stream.offset + |Saved(table, pages_, i)| == old(stream.offset) + |Saved(table, pages_, 0)|
        invariant pageTable[..i] == table[..i]
        invariant pages == Renewed(table, i, old(pages), pages_)
        invariant access == Renewed(table, i, old(access), RestoredAccesses(table))
      {
        RecordFirst(table, pages_, i);
        FollowsParts(stream.data[..], stream.offset, Record(table[i], pages_[i]), Saved(table, pages_, i + 1));
        RestoreRecord(i, stream, table[i], pages_[i]);
        RenewedStep(table, i, old(pages), pages_);
        RenewedStep(table, i, old(access), RestoredAccesses(table));
      }
      NoRecords(table, pages_);
    }

    method RestoreRecord(i: nat, stream: ByteStream, ghost e: PageEntry, ghost page: Bytes)
      requires Valid() && i < |pageTable| && Storable(e) && |page| == pageSize
      requires Follows(stream.data[..], stream.offset, Record(e, page))
      modifies this`pageTable, this`pages, this`access, stream`offset
      ensures stream.offset == old(stream.offset) + |Record(e, page)|
      ensures pageTable == old(pageTable)[i := e]
      ensures pages == if IsCommitted(e) then old(pages)[i := page] else old(pages)
      ensures access == if IsCommitted(e) then old(access)[i := ToPageAccess(e.currentProtect)] else old(access)
    {
      hide IsCommitted, LittleEndian, Qword, EntryOf, Storable;
      QwordRoundTrip(e);
      LittleEndianRoundTrip(Qword(e), 8);
      FollowsParts(stream.data[..], stream.offset, LittleEndian(Qword(e), 8), if IsCommitted(e) then page else []);
      var word := stream.Read(8);
      pageTable := pageTable[i := EntryOf(FromLittleEndian(word))];
      if pageTable[i].state == 0 {
        FreeIsNotCommitted(e);
        return;
      }
      var pageAccess := NoAccess;
      if pageTable[i].currentProtect & PROTECT_READ != 0 && pageTable[i].currentProtect & PROTECT_WRITE != 0 {
        pageAccess := ReadWrite;
      } else if pageTable[i].currentProtect & PROTECT_READ != 0 {
        pageAccess := ReadOnly;
      }
      if IsCommitted(pageTable[i]) {
        access := access[i := ReadWrite];
        var contents := stream.Read(pageSize);
        pages := pages[i := contents];
        access := access[i := pageAccess];
      }
    }
  }

  /** All pages are free exactly when that is how many there are. */
  lemma AllFreeExactly(t: Table)
    ensures CountFree(t) == |t| <==> forall i :: 0 <= i < |t| ==> t[i].state == 0
  {
    if forall i :: 0 <= i < |t| ==> t[i].state == 0 {
      FreeInAll(t, 0, |t|);
    } else {
      var i :| 0 <= i < |t| && t[i].state != 0;
      FreeInParts(t, 0, i, |t|);
      FreeInParts(t, i, i + 1, |t|);
      FreeInNone(t, i, i + 1);
    }
  }

  function RestoredAccesses(table: Table): (a: seq<PageAccess>)
    ensures |a| == |table|
  {
    seq(|table|, i requires 0 <= i < |table| => ToPageAccess(table[i].currentProtect))
  }

  /** The committed ones of the first `n` pages renewed, and all others as they were. */
  function Renewed<T>(table: Table, n: nat, was: seq<T>, saved: seq<T>): (r: seq<T>)
    requires |was| == |saved| == |table|
    ensures |r| == |table|
    ensures forall j :: 0 <= j < |table| ==> r[j] == if j < n && IsCommitted(table[j]) then saved[j] else was[j]
  {
    seq(|table|, j requires 0 <= j < |table| => if j < n && IsCommitted(table[j]) then saved[j] else was[j])
  }

  lemma NothingRenewed<T>(table: Table, was: seq<T>, saved: seq<T>)
    requires |was| == |saved| == |table|
    ensures Renewed(table, 0, was, saved) == was
  {
  }

  lemma RenewedStep<T>(table: Table, i: nat, was: seq<T>, saved: seq<T>)
    requires |was| == |saved| == |table| && i < |table|
    ensures Renewed(table, i + 1, was, saved) == if IsCommitted(table[i])
            then Renewed(table, i, was, saved)[i := saved[i]] else Renewed(table, i, was, saved)
  {
  }

  lemma RecordFirst(table: Table, pages: seq<Bytes>, i: nat)
    requires |pages| == |table| && i < |table|
    ensures Saved(table, pages, i) == Record(table[i], pages[i]) + Saved(table, pages, i + 1)
  {
  }

  lemma NoRecords(table: Table, pages: seq<Bytes>)
    requires |pages| == |table|
    ensures Saved(table, pages, |table|) == []
  {
  }

  /** These bytes come next in a stream. */
  ghost predicate Follows(data: Bytes, offset: nat, bytes: Bytes) {
    offset + |bytes| <= |data| && data[offset..offset + |bytes|] == bytes
  }

  lemma FollowsParts(data: Bytes, offset: nat, a: Bytes, b: Bytes)
    requires Follows(data, offset, a + b)
    ensures Follows(data, offset, a) && Follows(data, offset + |a|, b)
  {
    var all := data[offset..offset + |a + b|];
    assert all[..|a|] == a && all[|a|..] == b;
    assert data[offset..offset + |a|] == all[..|a|];
    assert data[offset + |a|..offset + |a| + |b|] == all[|a|..];
  }

  lemma FreeIsNotCommitted(e: PageEntry)
    requires e.state == 0
    ensures !IsCommitted(e)
  {
  }

  // ---- the five heaps -------------------------------------------------------------------------------

  datatype Image = Image(table: Table, pages: seq<Bytes>) {
    ghost predicate IsOf(pageSize: nat) { IsImage(table, pages, pageSize) }

    function Stored(): Bytes {
      if |pages| == |table| then Saved(table, pages, 0) else []
    }
  }

  /** All images, one after the other. */
  function SavedAll(images: seq<Image>): Bytes
  {
    if images == [] then [] else images[0].Stored() + SavedAll(images[1..])
  }

  /** Every entry is back, and so are the contents and the access of every committed page. */
  ghost predicate Restored(heap: HeapMemory, image: Image)
    reads heap
  {
    && heap.pageTable == image.table && |heap.pages| == |heap.access| == |image.pages| == |image.table|
    && forall j :: 0 <= j < |image.table| && IsCommitted(image.table[j]) ==>
         && heap.pages[j] == image.pages[j]
         && (heap.access[j] == ReadWrite
             <==> image.table[j].currentProtect & 1 != 0 && image.table[j].currentProtect & 2 != 0)
         && (heap.access[j] == ReadOnly
             <==> image.table[j].currentProtect & 1 != 0 && image.table[j].currentProtect & 2 == 0)
  }

  class Memory {
    /** The heaps at 0x00000000, 0x40000000, 0x80000000 and 0x90000000, and the physical heap. */
    const heaps: seq<HeapMemory>

    ghost predicate Valid()
      reads this, heaps
    {
      && |heaps| == 5 && (forall i :: 0 <= i < 5 ==> heaps[i].Valid())
      && forall i, j :: 0 <= i < j < 5 ==> heaps[i] != heaps[j]
    }

    constructor (heaps: seq<HeapMemory>)
      requires |heaps| == 5 && (forall i :: 0 <= i < 5 ==> heaps[i].Valid())
      requires forall i, j :: 0 <= i < j < 5 ==> heaps[i] != heaps[j]
      ensures Valid() && this.heaps == heaps
    {
      this.heaps := heaps;
    }

    ghost function Images(): (images: seq<Image>)
      requires |heaps| == 5
      reads this, heaps
      ensures |images| == 5 && forall i :: 0 <= i < 5 ==> images[i] == Image(heaps[i].pageTable, heaps[i].pages)
    {
      [Image(heaps[0].pageTable, heaps[0].pages), Image(heaps[1].pageTable, heaps[1].pages),
       Image(heaps[2].pageTable, heaps[2].pages),
       Image(heaps[3].pageTable, heaps[3].pages), Image(heaps[4].pageTable, heaps[4].pages)]
    }

    /** `Memory::Save`; the calls for the five heaps are written as a loop here. */
    method Save(stream: ByteStream)
      requires Valid() && stream.offset + |SavedAll(Images())| <= stream.data.Length
      modifies heaps, stream, stream.data
      ensures Valid() && Images() == old(Images()) && stream.offset == old(stream.offset) + |SavedAll(Images())|
      ensures stream.data[..] == old(stream.data[..stream.offset]) + SavedAll(Images())
              + old(stream.data[stream.offset + |SavedAll(Images())|..])
    {
      ghost var d0, o, images := stream.data[..], stream.offset, Images();
      hide SavedAll, Images, Valid, Saving;
      BeginSaving(d0, o, images);
      for i := 0 to 5
        invariant Valid() && images == Images() && Saving(stream.data[..], stream.offset, d0, o, images, i)
      {
        SaveHeap(i, stream, d0, o, images);
      }
      EndSaving(stream.data[..], stream.offset, d0, o, images);
    }

    /** The heaps before `i` are written already. */
    method SaveHeap(i: nat, stream: ByteStream, ghost d0: Bytes, ghost o: nat, ghost images: seq<Image>)
      requires Valid() && i < 5 && images == Images() && Saving(stream.data[..], stream.offset, d0, o, images, i)
      modifies {heaps[i]}`access, stream, stream.data
      ensures Valid() && images == Images() && Saving(stream.data[..], stream.offset, d0, o, images, i + 1)
    {
      hide Saved, Saving;
      ghost var d1, o1 := stream.data[..], stream.offset;
      SavingNext(d1, o1, d0, o, images, i);
      heaps[i].Save(stream);
      SavedNext(d1, o1, d0, o, images, i, stream.data[..]);
    }

    /** `Memory::Restore`, from the bytes of `images`. */
    method Restore(stream: ByteStream, ghost images: seq<Image>)
      requires Valid() && |images| == 5 && forall i :: 0 <= i < 5 ==>
               images[i].IsOf(heaps[i].pageSize) && |images[i].table| == |heaps[i].pageTable|
      requires Follows(stream.data[..], stream.offset, SavedAll(images))
      modifies heaps, stream`offset
      ensures Valid() && stream.offset == old(stream.offset) + |SavedAll(images)|
      ensures forall i :: 0 <= i < 5 ==> Restored(heaps[i], images[i])
    {
      hide SavedAll, Restored, IsImage;
      assert images[0..] == images;
      for i := 0 to 5
        invariant Valid() && Follows(stream.data[..], stream.offset, SavedAll(images[i..]))
        invariant stream.offset + |SavedAll(images[i..])| == old(stream.offset) + |SavedAll(images)|
        invariant forall k :: i <= k < 5 ==> |heaps[k].pageTable| == |images[k].table|
        invariant forall k :: 0 <= k < i ==> Restored(heaps[k], images[k])
      {
        RestoreHeap(i, stream, images);
      }
      NoImages(images[5..]);
    }

    method RestoreHeap(i: nat, stream: ByteStream, ghost images: seq<Image>)
      requires Valid() && i < 5 && |images| == 5 && images[i].IsOf(heaps[i].pageSize)
               && |images[i].table| == |heaps[i].pageTable|
      requires Follows(stream.data[..], stream.offset, SavedAll(images[i..]))
      modifies heaps[i], stream`offset
      ensures Valid() && Restored(heaps[i], images[i])
      ensures Follows(stream.data[..], stream.offset, SavedAll(images[i + 1..]))
      ensures stream.offset + |SavedAll(images[i + 1..])| == old(stream.offset) + |SavedAll(images[i..])|
    {
      hide Saved, IsCommitted;
      FirstImage(images[i..], images[i + 1..]);
      FollowsParts(stream.data[..], stream.offset, images[i].Stored(), SavedAll(images[i + 1..]));
      heaps[i].Restore(stream, images[i].table, images[i].pages);
    }
  }

  /** Of the bytes of all images, those before image `i` are in the stream. */
  ghost predicate Saving(data: Bytes, offset: nat, d0: Bytes, o: nat, images: seq<Image>, i: nat) {
    && i <= |images| && o + |SavedAll(images)| <= |d0| && |data| == |d0| && o <= offset <= |d0|
    && offset + |SavedAll(images[i..])| == o + |SavedAll(images)|
    && data[o..offset] + SavedAll(images[i..]) == SavedAll(images)
    && data[..o] == d0[..o] && data[offset..] == d0[offset..]
  }

  lemma BeginSaving(d0: Bytes, o: nat, images: seq<Image>)
    requires o + |SavedAll(images)| <= |d0|
    ensures Saving(d0, o, d0, o, images, 0)
  {
    hide SavedAll;
    assert images[0..] == images;
  }

  lemma SavingNext(data: Bytes, offset: nat, d0: Bytes, o: nat, images: seq<Image>, i: nat)
    requires Saving(data, offset, d0, o, images, i) && i < |images|
    ensures offset + |images[i].Stored()| <= |data|
  {
    FirstImage(images[i..], images[i + 1..]);
  }

  lemma SavedNext(data: Bytes, offset: nat, d0: Bytes, o: nat, images: seq<Image>, i: nat, data': Bytes)
    requires Saving(data, offset, d0, o, images, i) && i < |images| && offset + |images[i].Stored()| <= |data|
    requires data' == data[..offset] + images[i].Stored() + data[offset + |images[i].Stored()|..]
    ensures Saving(data', offset + |images[i].Stored()|, d0, o, images, i + 1)
  {
    hide SavedAll, Saved;
    FirstImage(images[i..], images[i + 1..]);
    var bytes, rest := images[i].Stored(), SavedAll(images[i + 1..]);
    var next := offset + |bytes|;
    assert data'[o..next] == data[o..offset] + bytes;
    assert data[o..offset] + bytes + rest == data[o..offset] + (bytes + rest);
    assert data'[next..] == data[next..] == data[offset..][|bytes|..] == d0[offset..][|bytes|..] == d0[next..];
    assert data'[..o] == data[..offset][..o] == data[..o];
  }

  lemma EndSaving(data: Bytes, offset: nat, d0: Bytes, o: nat, images: seq<Image>)
    requires Saving(data, offset, d0, o, images, |images|)
    ensures offset == o + |SavedAll(images)|
    ensures data == d0[..o] + SavedAll(images) + d0[o + |SavedAll(images)|..]
  {
    hide SavedAll;
    NoImages(images[|images|..]);
    assert data == data[..o] + data[o..offset] + data[offset..];
  }

  lemma FirstImage(images: seq<Image>, rest: seq<Image>)
    requires images != [] && rest == images[1..]
    ensures SavedAll(images) == images[0].Stored() + SavedAll(rest)
  {
  }

  lemma NoImages(images: seq<Image>)
    requires images == []
    ensures SavedAll(images) == []
  {
  }
}
