/** The search range of `AllocRange` (src/xenia/memory.cc:1009-1042), of a heap and of a physical view
    (1589-1628), in bytes. */
module RangeBytes {
  import opened Arith
  import opened PageTable
  import opened PageSearch
  import opened HeapSpec
  import opened UnwatchRange
  import opened PhysicalMemory
  import opened Coupling
  import opened ViewRuns
  import opened ViewSteps
  import HeapBytes
  import HeapRuns

  /** The next multiple of `a` from `v` on, on 32 bits. */
  function Upward(v: nat, a: nat): int
    requires a > 0
  {
    (v + a - 1) % 0x1_0000_0000 - (v + a - 1) % 0x1_0000_0000 % a
  }

  /** The first byte from which windows may begin, and the last one before which they must end. */
  function RangeStart(geo: Geometry, low: nat, a: nat): int
    requires a > 0
  {
    Max(geo.base, Upward(low, a))
  }

  function RangeEnd(geo: Geometry, high: nat, a: nat): int
    requires a > 0
  {
    Min(geo.base + geo.size - 1, Upward(high, a))
  }

  /** `a` is the alignment in whole pages: the next multiple of the page size, and at least one page. */
  predicate IsPageAlignment(geo: Geometry, alignment: nat, a: nat) {
    geo.pageSize > 0 && a > 0 && a % geo.pageSize == 0
    && if alignment == 0 then a == geo.pageSize else alignment <= a < alignment + geo.pageSize
  }

  /** Page `q` is one from which the search may begin exactly when it does not end in front of the start of
      the range; a window of pages ends inside exactly when its bytes end in front of the last byte of the
      range. */
  lemma ScanExactly(geo: Geometry, low: u32, high: u32, alignment: u32, a: nat, q: nat)
    requires geo.Valid() && GoodAlignment(geo, alignment) && IsPageAlignment(geo, alignment, a)
    ensures var s := ScanRange(geo, low, high, alignment);
            && s.stride * geo.pageSize == a
            && (RangeStart(geo, low, a) < geo.base + geo.size ==>
                  (s.low <= q <==> RangeStart(geo, low, a) < geo.base + (q + 1) * geo.pageSize))
            && (geo.base <= RangeEnd(geo, high, a) ==>
                  (q <= s.high <==> geo.base + q * geo.pageSize <= RangeEnd(geo, high, a)))
  {
    hide Quotient, Geometry.PageOf, Upward, Align, RoundUp;
    PageAlignmentIsRounded(geo, alignment, a);
    QuotientIsDivision(a, geo.pageSize);
    UpwardIsAlign(low, a);
    UpwardIsAlign(high, a);
    assert a / geo.pageSize * geo.pageSize == a;
    var start, end := RangeStart(geo, low, a), RangeEnd(geo, high, a);
    if start < geo.base + geo.size {
      PageInHeap(geo, start);
      HeapBytes.QuotientOrder(start - geo.base, geo.pageSize, q);
    }
    if geo.base <= end {
      PageInHeap(geo, end);
      HeapBytes.QuotientOrder(end - geo.base, geo.pageSize, q);
    }
  }

  lemma UpwardIsAlign(v: u32, a: nat)
    requires 0 < a < U32
    ensures Upward(v, a) == Align(v, a) < U32
  {
  }

  lemma PageAlignmentIsRounded(geo: Geometry, alignment: u32, a: nat)
    requires geo.Valid() && GoodAlignment(geo, alignment) && IsPageAlignment(geo, alignment, a)
    ensures RoundUp(alignment, geo.pageSize) == a
  {
    ViewAlignment(geo, alignment, a);
  }

  lemma SameMultiple(x: nat, y: nat, m: nat)
    requires m > 0 && x % m == 0 && y % m == 0 && x <= y < x + m
    ensures x == y
  {
    MultiplesSubtract(y, x, m);
    if x < y {
      DivModUnique(y - x, m, 0, y - x);
    }
  }

  lemma PageInHeap(geo: Geometry, address: u32)
    requires geo.Valid() && geo.base <= address < geo.base + geo.size
    ensures geo.PageOf(address) == Quotient(address - geo.base, geo.pageSize) < geo.Pages()
  {
    assert Sub32(address, geo.base) == address - geo.base;
    HeapBytes.PagesOfHeap(geo);
    HeapBytes.QuotientOrder(address - geo.base, geo.pageSize, geo.Pages());
  }

  /** A window that a heap gives begins in the range, or at most one page in front of its start when that is
      not the first byte of a page, and ends inside of it. */
  lemma RangeInBytes(geo: Geometry, h: Heap, low: u32, high: u32, alignment: u32, a: nat, count: nat, alloc: bv2,
                     protect: bv4, topDown: bool, hostOk: bool)
    requires HeapRuns.Inv(h) && geo.Valid() && h.Fits(geo) && GoodAlignment(geo, alignment)
    requires IsPageAlignment(geo, alignment, a) && count > 0 && alloc != 0 && 0 < |h.table|
    requires var s := ScanRange(geo, low, high, alignment); InBounds(s, count) && StartsAligned(s, count, topDown)
    requires RangeStart(geo, low, a) < geo.base + geo.size && geo.base <= RangeEnd(geo, high, a)
    ensures ScanRange(geo, low, high, alignment).high < |h.table|
    ensures var (_, r, address) := AllocSearched(geo, h, ScanRange(geo, low, high, alignment), count, alloc, protect,
                                                 topDown, hostOk);
            r == Success ==>
              && geo.base <= address && RangeStart(geo, low, a) < address + geo.pageSize
              && (address - geo.base) % a == 0 && address + count * geo.pageSize <= RangeEnd(geo, high, a)
  {
    hide Quotient, AllocSearched, AllocInRange, Allocated, CountFree, WellFormed, Upward;
    var s := ScanRange(geo, low, high, alignment);
    HeapRuns.RangeStep(geo, h, s, count, alloc, protect, topDown, hostOk);
    var (_, r, address) := AllocSearched(geo, h, s, count, alloc, protect, topDown, hostOk);
    if r == Success {
      var b: nat :| Fits(h.table, s.low, RoundDown(s.high, s.stride), s.stride, count, b)
                    && address == geo.base + b * geo.pageSize;
      ScanExactly(geo, low, high, alignment, a, b);
      ScanExactly(geo, low, high, alignment, a, b + count);
      assert (b + count) * geo.pageSize == b * geo.pageSize + count * geo.pageSize;
      assert (b + 1) * geo.pageSize == b * geo.pageSize + geo.pageSize;
      Multiples(b, s.stride, geo.pageSize);
    }
  }

  lemma Multiples(b: nat, stride: nat, ps: nat)
    requires stride > 0 && ps > 0 && b % stride == 0
    ensures stride * ps > 0 && b * ps % (stride * ps) == 0
  {
    var k := b / stride;
    assert b == k * stride;
    assert b * ps == k * (stride * ps);
    MulOrder(1, stride, ps);
    ModOfMultiple(k, stride * ps);
  }

  // ---- through a view -------------------------------------------------------------------------

  /** Physical address of a byte of a view. */
  function PhysicalOf(geo: Geometry, address: nat): int {
    address - geo.base + if geo.base >= 0xE000_0000 then 0x1000 else 0
  }

  /** The parent is searched over the physical bytes under the part of the range that lies in the view. */
  lemma ViewScanExactly(geo: Geometry, low: u32, high: u32, alignment: u32, a: nat)
    requires ViewOk(geo) && alignment <= U32 - geo.pageSize && RoundUp(alignment, geo.pageSize) > 0
    requires GoodAlignment(PARENT_GEOMETRY, RoundUp(alignment, geo.pageSize)) && IsPageAlignment(geo, alignment, a)
    requires low < geo.base + geo.size && geo.base <= high
    ensures 0 <= PhysicalOf(geo, Max(geo.base, low)) < U32
            && 0 <= PhysicalOf(geo, Min(geo.base + geo.size - 1, high)) < U32 && a < U32
            && GoodAlignment(PARENT_GEOMETRY, a)
    ensures ViewScan(geo, low, high, alignment)
            == ScanRange(PARENT_GEOMETRY, PhysicalOf(geo, Max(geo.base, low)),
                         PhysicalOf(geo, Min(geo.base + geo.size - 1, high)), a)
  {
    hide ScanRange, Quotient, Physical, RoundUp;
    ViewAlignment(geo, alignment, a);
    InView(geo, Max(geo.base, low));
    InView(geo, Min(geo.base + geo.size - 1, high));
  }

  lemma ViewAlignment(geo: Geometry, alignment: u32, a: nat)
    requires geo.Valid() && alignment <= U32 - geo.pageSize && IsPageAlignment(geo, alignment, a)
    ensures RoundUp(alignment, geo.pageSize) == a < U32
  {
    RoundUpCovers(alignment, geo.pageSize);
    if alignment == 0 {
      assert RoundUp(0, geo.pageSize) == geo.pageSize;
    } else {
      RoundUpIsLeast(alignment, geo.pageSize, a);
      SameMultiple(RoundUp(alignment, geo.pageSize), a, geo.pageSize);
    }
  }

  lemma InView(geo: Geometry, address: u32)
    requires ViewOk(geo) && geo.base <= address < geo.base + geo.size
    ensures Physical(geo, address) == PhysicalOf(geo, address) < U32
  {
    assert Sub32(address, geo.base) == address - geo.base;
    SmallMod(address - geo.base + PhysicalOffset(geo));
  }

  /** Page `b` begins a free window of the range, the last one or the first one that there is. */
  ghost predicate IsBest(t: Table, s: Scan, count: nat, topDown: bool, b: nat)
    requires s.stride > 0
  {
    && Fits(t, s.low, RoundDown(s.high, s.stride), s.stride, count, b)
    && forall c: nat :: Fits(t, s.low, RoundDown(s.high, s.stride), s.stride, count, c) ==>
         if topDown then c <= b else b <= c
  }

  lemma GivenIsBest(geo: Geometry, parent: Heap, low: u32, high: u32, size: u32, alignment: u32, alloc: bv2,
                    protect: bv4, topDown: bool, parentOk: bool, b: nat)
    requires ViewOk(geo) && parent.Fits(PARENT_GEOMETRY) && HeapRuns.Inv(parent) && alloc != 0
    requires ViewRequest(geo, size, alignment)
    requires InBounds(ViewScan(geo, low, high, alignment), PageCount(RoundUp(size, geo.pageSize), SYSTEM_PAGE))
    requires var n := PageCount(RoundUp(size, geo.pageSize), SYSTEM_PAGE);
             && ViewScan(geo, low, high, alignment).high < |parent.table|
             && var (_, r, address) := AllocSearched(PARENT_GEOMETRY, parent, ViewScan(geo, low, high, alignment), n,
                                                     alloc, protect, topDown, parentOk);
                r == Success && address == b * SYSTEM_PAGE
    ensures IsBest(parent.table, ViewScan(geo, low, high, alignment),
                   PageCount(RoundUp(size, geo.pageSize), SYSTEM_PAGE), topDown, b)
  {
    hide AllocSearched, AllocInRange, Allocated, CountFree, WellFormed, Fits, Quotient, RoundUp, PageCount;
    ParentPages();
    ParentStartsAligned(geo, low, high, size, alignment, topDown);
    HeapRuns.RangeStep(PARENT_GEOMETRY, parent, ViewScan(geo, low, high, alignment),
                       PageCount(RoundUp(size, geo.pageSize), SYSTEM_PAGE), alloc, protect, topDown, parentOk);
  }

  /** What a view returns is the address of the window in the view: its physical address is the one that the
      parent gave, the best that there was for the request. */
  lemma ViewAddressExactly(geo: Geometry, parent: Heap, own: Heap, low: u32, high: u32, size: u32, alignment: u32,
                           alloc: bv2, protect: bv4, topDown: bool, parentOk: bool, hostOk: bool)
    requires ViewOk(geo) && own.Fits(geo) && parent.Fits(PARENT_GEOMETRY) && HeapRuns.Inv(parent) && alloc != 0
    requires ViewRequest(geo, size, alignment)
    requires InBounds(ViewScan(geo, low, high, alignment), PageCount(RoundUp(size, geo.pageSize), SYSTEM_PAGE))
    ensures var (p, _, r, address) := ViewAllocRange(geo, parent, own, low, high, size, alignment, alloc, protect,
                                                     topDown, parentOk, hostOk);
            r == Success ==>
              && geo.base <= address < geo.base + geo.size
              && exists b: nat ::
                   && PhysicalOf(geo, address) == b * 0x1000
                   && IsBest(parent.table, ViewScan(geo, low, high, alignment),
                             PageCount(RoundUp(size, geo.pageSize), SYSTEM_PAGE), topDown, b)
                   && p.table == Allocated(parent.table, b, PageCount(RoundUp(size, geo.pageSize), SYSTEM_PAGE),
                                           alloc | RESERVE, protect)
  {
    hide Quotient, RoundUp, PageCount, FixedPageCount, ViewScan, AllocSearched, AllocInRange, Allocated, AllocPages,
      HeapRuns.Inv, CountFree, AllFree, IsBest;
    BytesInParent(geo, size);
    ParentAnswers(geo, parent, low, high, size, alignment, alloc, protect, topDown, parentOk);
    var n := PageCount(RoundUp(size, geo.pageSize), SYSTEM_PAGE);
    var (p, pr, pa) := AllocSearched(PARENT_GEOMETRY, parent, ViewScan(geo, low, high, alignment), n, alloc, protect,
                                     topDown, parentOk);
    var (_, r) := Pinned(geo, own, pa % U32, size, alignment, alloc, protect, hostOk);
    if pr == Success && r == Success {
      var first := GivenWindow(geo, parent, low, high, size, alignment, alloc, protect, topDown, parentOk);
      var b := ParentPage(MapOf(geo), first);
      GivenIsBest(geo, parent, low, high, size, alignment, alloc, protect, topDown, parentOk, b);
      PinnedAddress(geo, own, first, b, size, alignment, alloc, protect, hostOk);
    }
  }

  lemma PinnedAddress(geo: Geometry, own: Heap, first: nat, b: nat, size: u32, alignment: u32, alloc: bv2,
                      protect: bv4, hostOk: bool)
    requires ViewOk(geo) && own.Fits(geo) && ViewRequest(geo, size, alignment) && b < 0x2_0000
    requires ParentPage(MapOf(geo), first) == b
    requires Pinned(geo, own, b * SYSTEM_PAGE % U32, size, alignment, alloc, protect, hostOk).1 == Success
    ensures geo.base <= ViewAddress(geo, b * SYSTEM_PAGE % U32) < geo.base + geo.size
    ensures PhysicalOf(geo, ViewAddress(geo, b * SYSTEM_PAGE % U32)) == b * 0x1000
  {
    hide Quotient, RoundUp, PageCount, FixedPageCount, Pinned, AllFree, Physical, ViewAddress;
    PinnedExactly(geo, own, first, b, size, alignment, alloc, protect, hostOk);
    PageInsideView(geo, first);
    ScaledPages(geo, first);
    AddressOfWindow(geo, first * geo.pageSize);
  }

  lemma AddressOfWindow(geo: Geometry, rel: nat)
    requires ViewOk(geo) && rel < geo.size
    ensures var pa := rel + PhysicalOffset(geo);
            pa < U32 && pa % U32 == pa && ViewAddress(geo, pa) == geo.base + rel
              && PhysicalOf(geo, geo.base + rel) == pa
  {
    PinAddress(geo, rel);
    SmallMod(geo.base + rel);
    assert Sub32(rel + PhysicalOffset(geo), PhysicalOffset(geo)) == rel;
  }
}
