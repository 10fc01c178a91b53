/** What the calls of a heap (src/xenia/memory.cc:1177-1355) do to the entry of each page, from the bytes that
    they are given. */
module HeapBytes {
  import opened Arith
  import opened PageTable
  import opened HeapSpec
  import WriteWatch

  /** Where an address lies behind the first byte of the heap, on 32 bits. */
  function Behind(geo: Geometry, address: u32): (rel: nat)
    requires geo.Valid()
    ensures rel < 0x1_0000_0000
    ensures if address >= geo.base then rel == address - geo.base else rel == address + 0x1_0000_0000 - geo.base
  {
    Sub32(address, geo.base)
  }

  /** The first byte of the page of an address. */
  function PageStart(geo: Geometry, address: u32): nat
    requires geo.Valid()
  {
    MultipleBelow(Behind(geo, address), geo.pageSize);
    Behind(geo, address) - Behind(geo, address) % geo.pageSize
  }

  /** Page `p` has one of the `size` bytes from `start` on; no bytes count as one. */
  predicate HasByte(geo: Geometry, start: nat, size: nat, p: nat) {
    start < (p + 1) * geo.pageSize && p * geo.pageSize < start + Max(size, 1)
  }

  /** The pages that `Decommit` means: those of as many bytes from the start of the page of the address on.
      Behind the heap it means the last page. A size within one page of 4 GB means all pages from the
      first one, and none from any other. */
  predicate Decommits(geo: Geometry, n: nat, address: u32, size: u32, p: nat)
    requires geo.Valid()
  {
    var start := PageStart(geo, address);
    if n * geo.pageSize <= start then p == n - 1
    else if size <= 0x1_0000_0000 - geo.pageSize then HasByte(geo, start, size, p)
    else start == 0
  }

  /** These pages have lost the commit bit and nothing else; all other pages are as before. */
  ghost predicate EntriesDecommitted(geo: Geometry, t: Table, t': Table, address: u32, size: u32)
    requires geo.Valid()
  {
    && |t'| == |t|
    && forall p {:trigger t'[p]} :: 0 <= p < |t| ==>
         && t'[p].baseAddress == t[p].baseAddress && t'[p].regionPageCount == t[p].regionPageCount
         && t'[p].allocationProtect == t[p].allocationProtect && t'[p].currentProtect == t[p].currentProtect
         && t'[p].state == if Decommits(geo, |t|, address, size, p) then t[p].state & 1 else t[p].state
  }

  ghost predicate IsDecommitted(geo: Geometry, h: Heap, h': Heap, address: u32, size: u32)
    requires geo.Valid()
  {
    h'.unreserved == h.unreserved && h'.host == h.host && EntriesDecommitted(geo, h.table, h'.table, address, size)
  }

  lemma PageIsQuotient(geo: Geometry, address: u32)
    requires geo.Valid()
    ensures geo.PageOf(address) * geo.pageSize == PageStart(geo, address)
  {
    var rel := Behind(geo, address);
    QuotientIsDivision(rel, geo.pageSize);
    assert rel == rel / geo.pageSize * geo.pageSize + rel % geo.pageSize;
  }

  /** The pages of a run are those with one of its bytes. */
  lemma RunHasBytes(geo: Geometry, first: nat, size: u32, p: nat)
    requires geo.Valid() && size <= U32 - geo.pageSize
    ensures 0 < PageCount(size, geo.pageSize)
    ensures first <= p < first + PageCount(size, geo.pageSize) <==> HasByte(geo, first * geo.pageSize, size, p)
  {
    var count, ps := PageCount(size, geo.pageSize), geo.pageSize;
    PageCountCoversExactly(size, ps);
    FewBytes(size, ps);
    if p < first {
      MulOrder(p + 1, first, ps);
    } else {
      MulOrder(first, p, ps);
      assert (p + 1) * ps == p * ps + ps;
      assert (p - first) * ps == p * ps - first * ps;
      if p - first <= count - 1 {
        MulOrder(p - first, count - 1, ps);
      } else {
        MulOrder(count, p - first, ps);
      }
    }
  }

  lemma FewBytes(size: u32, ps: nat)
    requires 0 < ps < U32 && size <= U32 - ps && 0 < PageCount(size, ps)
    ensures (PageCount(size, ps) - 1) * ps < Max(size, 1)
  {
    var r := RoundUp(size, ps);
    RoundUpCovers(size, ps);
    QuotientIsDivision(r, ps);
    assert r == r / ps * ps;
    assert (PageCount(size, ps) - 1) * ps == r - ps;
  }

  lemma SpanIsDecommits(geo: Geometry, n: nat, address: u32, size: u32, p: nat)
    requires geo.Valid() && p < n <= U32
    ensures var (start, length) := DecommitSpan(n, geo.PageOf(address), PageCount(size, geo.pageSize));
            start <= p < start + length <==> Decommits(geo, n, address, size, p)
  {
    hide PageCount, Quotient, HasByte, PageStart, Geometry.PageOf;
    var first, ps := geo.PageOf(address), geo.pageSize;
    PageIsQuotient(geo, address);
    PageCountCoversExactly(size, ps);
    FewPages(geo, address, size);
    BehindTable(n, first, ps);
    if size <= U32 - ps {
      RunHasBytes(geo, first, size, p);
    }
  }

  lemma BehindTable(n: nat, first: nat, ps: nat)
    requires 0 < ps
    ensures n <= first <==> n * ps <= first * ps
    ensures first == 0 <==> first * ps == 0
  {
    MulOrder(n, first, ps);
    MulOrder(first + 1, n, ps);
    assert (first + 1) * ps == first * ps + ps;
    if first > 0 {
      MulOrder(1, first, ps);
    }
  }

  lemma PagesOfHeap(geo: Geometry)
    requires geo.Valid()
    ensures geo.Pages() <= U32 && geo.Pages() * geo.pageSize == geo.size
  {
    QuotientIsDivision(geo.size, geo.pageSize);
    MulOrder(1, geo.pageSize, geo.Pages());
  }

  lemma DecommitIsInBytes(geo: Geometry, h: Heap, address: u32, size: u32)
    requires geo.Valid() && h.Fits(geo) && 0 < |h.table|
    ensures IsDecommitted(geo, h, DecommitPages(h, geo.PageOf(address), PageCount(size, geo.pageSize)), address, size)
  {
    hide PageCount, Quotient, Decommits, DecommitSpan, Geometry.PageOf;
    var n, first, count := |h.table|, geo.PageOf(address), PageCount(size, geo.pageSize);
    var (start, length) := DecommitSpan(n, first, count);
    PagesOfHeap(geo);
    forall p | 0 <= p < n
      ensures start <= p < start + length <==> Decommits(geo, n, address, size, p)
    {
      SpanIsDecommits(geo, n, address, size, p);
    }
  }

  // ---- protect --------------------------------------------------------------------------------

  /** `Protect` agrees when the bytes lie in the heap, their pages are committed and of one region, and the
      host agrees. */
  ghost predicate Agrees(geo: Geometry, t: Table, address: u32, size: u32, hostOk: bool)
    requires geo.Valid()
  {
    && hostOk && 0 < size && geo.base <= address && address + size <= geo.base + |t| * geo.pageSize
    && var rel := address - geo.base;
       forall p, q {:trigger t[p], t[q]} ::
         0 <= p < |t| && 0 <= q < |t| && HasByte(geo, rel, size, p) && HasByte(geo, rel, size, q) ==>
         t[p].state & 2 != 0 && t[p].baseAddress == t[q].baseAddress
  }

  /** Then exactly the pages of these bytes have the new protection, and nothing else of an entry changes;
      otherwise nothing does. */
  ghost predicate IsProtected(geo: Geometry, h: Heap, h': Heap, r: Outcome, address: u32, size: u32, protect: bv4,
                              hostOk: bool)
    requires geo.Valid()
  {
    && (r == Success <==> Agrees(geo, h.table, address, size, hostOk)) && (r != Success ==> r == Failure && h' == h)
    && h'.unreserved == h.unreserved && |h'.table| == |h.table|
    && (r == Success ==> forall p {:trigger h'.table[p]} :: 0 <= p < |h.table| ==>
          h'.table[p] == if HasByte(geo, address - geo.base, size, p) then h.table[p].(currentProtect := protect)
                         else h.table[p])
  }

  /** Pages by the bytes [rel, rel + size). */
  lemma TouchedPages(geo: Geometry, rel: nat, size: nat, p: nat)
    requires geo.Valid() && size > 0
    ensures Quotient(rel, geo.pageSize) <= p <= Quotient(rel + size - 1, geo.pageSize) <==> HasByte(geo, rel, size, p)
  {
    var ps := geo.pageSize;
    QuotientOrder(rel, ps, p);
    QuotientOrder(rel + size - 1, ps, p);
  }

  lemma QuotientOrder(v: nat, ps: nat, p: nat)
    requires ps > 0
    ensures Quotient(v, ps) <= p <==> v < (p + 1) * ps
    ensures p <= Quotient(v, ps) <==> p * ps <= v
  {
    WriteWatch.QuotientAtLeast(v, ps, p);
    WriteWatch.QuotientAtLeast(v, ps, p + 1);
  }

  lemma ProtectIsInBytes(geo: Geometry, h: Heap, address: u32, size: u32, protect: bv4, hostOk: bool)
    requires geo.Valid() && h.Fits(geo) && 0 < |h.table|
    ensures var (h', r) := ProtectBytes(geo, h, address, size, protect, hostOk);
            IsProtected(geo, h, h', r, address, size, protect, hostOk)
  {
    hide Quotient, HasByte, HostCover;
    var (first, last) := ProtectRange(geo, address, size);
    var n := |h.table|;
    QuotientIsDivision(geo.size, geo.pageSize);
    assert n * geo.pageSize == geo.size;
    if size > 0 && first < n {
      InsideAboveBase(geo, address);
      var rel := address - geo.base;
      assert Sub32(address, geo.base) == rel;
      QuotientOrder(rel + size - 1, geo.pageSize, n);
      forall p: nat {:trigger HasByte(geo, rel, size, p)}
        ensures first <= p <= last <==> HasByte(geo, rel, size, p)
      {
        TouchedPages(geo, rel, size, p);
      }
      ProtectRangeOrdered(geo, address, size);
      ProtectExactly(geo, h, address, rel, size, first, last, hostOk);
    } else if size > 0 {
      BehindHeap(geo, address);
    }
  }

  lemma BehindHeap(geo: Geometry, address: u32)
    requires geo.Valid() && geo.PageOf(address) >= geo.Pages()
    ensures address < geo.base || geo.base + geo.Pages() * geo.pageSize <= address
  {
    QuotientOrder(Sub32(address, geo.base), geo.pageSize, geo.Pages());
  }

  lemma ProtectExactly(geo: Geometry, h: Heap, address: u32, rel: nat, size: u32, first: nat, last: nat, hostOk: bool)
    requires geo.Valid() && 0 < size && geo.base <= address && rel == address - geo.base && first <= last
    requires last < |h.table| <==> address + size <= geo.base + |h.table| * geo.pageSize
    requires forall p: nat {:trigger HasByte(geo, rel, size, p)} :: first <= p <= last <==> HasByte(geo, rel, size, p)
    ensures Agrees(geo, h.table, address, size, hostOk) <==> Protectable(h.table, first, last) && hostOk
  {
    hide HasByte;
    if Agrees(geo, h.table, address, size, hostOk) {
      forall i | first <= i <= last
        ensures h.table[i].baseAddress == h.table[first].baseAddress && h.table[i].state & COMMIT != 0
      {
        assert HasByte(geo, rel, size, i) && HasByte(geo, rel, size, first);
      }
    }
  }

  // ---- together -------------------------------------------------------------------------------

  /** A protection change of bytes one page of which is decommitted is refused. */
  lemma DecommittedIsRefused(geo: Geometry, h: Heap, h': Heap, address: u32, size: u32, other: u32, otherSize: u32,
                             protect: bv4, hostOk: bool, p: nat)
    requires geo.Valid() && h.Fits(geo) && h'.Fits(geo) && p < |h.table| && IsDecommitted(geo, h, h', address, size)
    requires Decommits(geo, |h.table|, address, size, p)
    requires geo.base <= other && HasByte(geo, other - geo.base, otherSize, p)
    ensures ProtectBytes(geo, h', other, otherSize, protect, hostOk) == (h', Failure)
  {
    hide HasByte, Decommits, Quotient;
    ProtectIsInBytes(geo, h', other, otherSize, protect, hostOk);
    assert h'.table[p].state & 2 == 0;
  }

  /** Of a page-aligned address the pages are those of the bytes that are given; elsewhere the last page of
      the bytes is left out exactly when they reach further into it than whole pages do. */
  lemma DecommitReachesExactly(geo: Geometry, n: nat, address: u32, size: u32, p: nat)
    requires geo.Valid() && p < n && 0 < size <= U32 - geo.pageSize && Behind(geo, address) < n * geo.pageSize
    requires HasByte(geo, Behind(geo, address), size, p)
    ensures Decommits(geo, n, address, size, p)
            <==> p * geo.pageSize < PageStart(geo, address) + size
    ensures Behind(geo, address) % geo.pageSize == 0 ==> Decommits(geo, n, address, size, p)
  {
    MultipleBelow(Behind(geo, address), geo.pageSize);
  }
}
