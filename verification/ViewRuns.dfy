/** The operations of the physical views on the machine as a whole: when the pin in the view cannot
    fail, and what every run over all views keeps. */
module ViewRuns {
  import opened Arith
  import opened PageTable
  import opened PageSearch
  import opened HeapSpec
  import opened Coupling
  import opened UnwatchRange
  import opened PhysicalMemory
  import HeapRuns
  import WriteWatch

  function MapOf(geo: Geometry): ViewMap {
    ViewMap(geo.Scale(), PhysicalOffset(geo) / SYSTEM_PAGE)
  }

  /** The geometry of a view: only a view with pages of 4 KB is shifted (`Memory::Initialize`). */
  ghost predicate ViewOk(geo: Geometry) {
    && ViewGeometry(geo) && geo.size + PhysicalOffset(geo) <= PARENT_GEOMETRY.size
    && (MapOf(geo).shift == 0 || geo.pageSize == SYSTEM_PAGE)
  }

  /** The machine seen through view `v`. */
  ghost predicate Through(maps: seq<ViewMap>, s: Machine, v: nat, geo: Geometry, parent: Heap, own: Heap) {
    && ViewOk(geo) && Consistent(maps, s) && v < |s.views| && maps[v] == MapOf(geo)
    && s.parent == parent.table && s.views[v] == own.table
    && own.Fits(geo) && parent.Fits(PARENT_GEOMETRY) && HeapRuns.Inv(parent) && HeapRuns.Inv(own)
  }

  function Seen(s: Machine, v: nat, parent: Heap, own: Heap): Machine
    requires v < |s.views|
  {
    Machine(parent.table, s.views[v := own.table])
  }

  // ---- addresses and pages ------------------------------------------------------------------

  lemma PageInsideView(geo: Geometry, first: nat)
    requires geo.Valid() && first < geo.Pages()
    ensures first * geo.pageSize < geo.size && Quotient(first * geo.pageSize, geo.pageSize) == first
  {
    QuotientIsDivision(geo.size, geo.pageSize);
    assert geo.size == geo.Pages() * geo.pageSize;
    assert geo.Pages() * geo.pageSize == first * geo.pageSize + (geo.Pages() - first) * geo.pageSize;
    MulAtLeast(geo.Pages() - first, geo.pageSize);
    DivModUnique(first * geo.pageSize, geo.pageSize, first, 0);
    QuotientIsDivision(first * geo.pageSize, geo.pageSize);
  }

  lemma SmallMod(x: nat)
    requires x < U32
    ensures x % U32 == x
  {
  }

  lemma PinAddress(geo: Geometry, rel: nat)
    requires ViewOk(geo) && rel < geo.size
    ensures (rel + PhysicalOffset(geo)) % U32 == rel + PhysicalOffset(geo) < U32
    ensures geo.PageOf(ViewAddress(geo, rel + PhysicalOffset(geo))) == Quotient(rel, geo.pageSize)
  {
    SmallMod(rel + PhysicalOffset(geo));
    SmallMod(geo.base + rel);
    assert Sub32(rel + PhysicalOffset(geo), PhysicalOffset(geo)) == rel;
    assert ViewAddress(geo, rel + PhysicalOffset(geo)) == geo.base + rel;
    assert Sub32(geo.base + rel, geo.base) == rel;
  }

  /** The parent page `b` under view page `first` is found again at that page of the view. */
  lemma PinPage(geo: Geometry, first: nat, b: nat)
    requires ViewOk(geo) && first < geo.Pages() && b == ParentPage(MapOf(geo), first)
    ensures b * SYSTEM_PAGE % U32 == b * SYSTEM_PAGE
    ensures geo.PageOf(ViewAddress(geo, b * SYSTEM_PAGE % U32)) == first
  {
    PageInsideView(geo, first);
    PinAddress(geo, first * geo.pageSize);
    ScaledPages(geo, first);
    assert b * SYSTEM_PAGE == first * geo.pageSize + PhysicalOffset(geo);
  }

  lemma BytesInParent(geo: Geometry, size: u32)
    requires geo.Valid() && size <= U32 - geo.pageSize && RoundUp(size, geo.pageSize) <= U32 - SYSTEM_PAGE
    ensures var pageBytes := RoundUp(size, geo.pageSize);
            0 < pageBytes && pageBytes % geo.pageSize == 0
            && 0 < PageCount(pageBytes, SYSTEM_PAGE) && PageCount(pageBytes, SYSTEM_PAGE) * SYSTEM_PAGE == pageBytes
  {
    RoundUpCovers(size, geo.pageSize);
    MultipleOfMultiple(RoundUp(size, geo.pageSize), geo.pageSize, SYSTEM_PAGE);
    ExactPageCount(RoundUp(size, geo.pageSize), SYSTEM_PAGE);
  }

  lemma AlignmentOfView(geo: Geometry, alignment: u32)
    requires geo.Valid() && alignment <= U32 - geo.pageSize && RoundUp(alignment, geo.pageSize) > 0
    requires GoodAlignment(PARENT_GEOMETRY, RoundUp(alignment, geo.pageSize))
    ensures var a := RoundUp(alignment, geo.pageSize);
            a % geo.pageSize == 0 && a % SYSTEM_PAGE == 0 && RoundUp(a, SYSTEM_PAGE) == a && U32 % a == 0
    ensures GoodAlignment(geo, RoundUp(alignment, geo.pageSize)) ==>
              RoundUp(RoundUp(alignment, geo.pageSize), geo.pageSize) == RoundUp(alignment, geo.pageSize)
  {
    var a := RoundUp(alignment, geo.pageSize);
    RoundUpCovers(alignment, geo.pageSize);
    MultipleOfMultiple(a, geo.pageSize, SYSTEM_PAGE);
    RoundUpOfMultiple(a, SYSTEM_PAGE);
    if GoodAlignment(geo, a) {
      RoundUpOfMultiple(a, geo.pageSize);
    }
  }

  lemma BytesInView(geo: Geometry, bytes: u32, alignment: u32)
    requires geo.Valid() && GoodAlignment(geo, alignment) && alignment > 0 && alignment % geo.pageSize == 0
    requires RoundUp(alignment, geo.pageSize) == alignment && 0 < bytes <= U32 - alignment
    ensures FixedPageCount(geo, bytes, alignment) * geo.pageSize == RoundUp(bytes, alignment)
  {
    AlignedPageCount(bytes, alignment, geo.pageSize);
  }

  lemma ScaledPages(geo: Geometry, n: nat)
    requires geo.Valid()
    ensures n * geo.pageSize == n * geo.Scale() * SYSTEM_PAGE
  {
    WriteWatch.ScaleFacts(geo);
    assert n * (geo.Scale() * SYSTEM_PAGE) == n * geo.Scale() * SYSTEM_PAGE;
  }

  /** Bytes of the parent and of the view in one request: they agree exactly when the rounded size
      is a multiple of the alignment, because only the view rounds the size up to it. */
  lemma ExtentsAgreeExactly(geo: Geometry, size: u32, alignment: u32)
    requires ViewOk(geo) && ViewRequest(geo, size, alignment)
    requires RoundUp(size, geo.pageSize) <= U32 - RoundUp(alignment, geo.pageSize)
    ensures var pageBytes, pageAlign := RoundUp(size, geo.pageSize), RoundUp(alignment, geo.pageSize);
            var inParent, inView := PageCount(pageBytes, SYSTEM_PAGE),
              FixedPageCount(geo, pageBytes, pageAlign) * geo.Scale();
            && 0 < inParent <= inView
            && (inParent == inView <==> pageBytes % pageAlign == 0)
  {
    var pageBytes, pageAlign := RoundUp(size, geo.pageSize), RoundUp(alignment, geo.pageSize);
    AlignmentOfView(geo, alignment);
    BytesInParent(geo, size);
    BytesInView(geo, pageBytes, pageAlign);
    ScaledPages(geo, FixedPageCount(geo, pageBytes, pageAlign));
    RoundUpCovers(pageBytes, pageAlign);
    if pageBytes % pageAlign == 0 {
      RoundUpIsLeast(pageBytes, pageAlign, pageBytes);
    }
  }

  lemma RoundUpOfMultiple(x: u32, m: u32)
    requires 0 < m && 0 < x && x % m == 0 && x <= U32 - m
    ensures RoundUp(x, m) == x
  {
    RoundUpCovers(x, m);
    RoundUpIsLeast(x, m, x);
  }

  /** A scan of the parent that can only return windows which start at a page of the view and end
      inside it. */
  ghost predicate ScanOfView(geo: Geometry, s: Scan)
    requires geo.Valid()
  {
    var m := MapOf(geo);
    && m.scale > 0 && s.stride > 0 && s.stride % m.scale == 0
    && (m.shift == 0 || (m.scale == 1 && m.shift <= s.low))
    && RoundDown(s.high, s.stride) <= ParentPage(m, geo.Pages())
    && s.low < PARENT_GEOMETRY.Pages() && s.high < PARENT_GEOMETRY.Pages()
  }

  lemma WindowOfView(m: ViewMap, low: nat, stride: nat, b: nat) returns (first: nat)
    requires m.scale > 0 && stride > 0 && stride % m.scale == 0 && b % stride == 0 && low <= b
    requires m.shift == 0 || (m.scale == 1 && m.shift <= low)
    ensures ParentPage(m, first) == b
  {
    if m.shift == 0 {
      MultipleOfMultiple(b, stride, m.scale);
      first := b / m.scale;
      assert b == first * m.scale;
    } else {
      first := b - m.shift;
    }
  }

  lemma StrideOfView(geo: Geometry, low: u32, high: u32, alignment: u32)
    requires ViewOk(geo) && alignment <= U32 - geo.pageSize && RoundUp(alignment, geo.pageSize) > 0
    requires GoodAlignment(PARENT_GEOMETRY, RoundUp(alignment, geo.pageSize))
    ensures geo.Scale() > 0 && ViewScan(geo, low, high, alignment).stride % geo.Scale() == 0
  {
    var a := RoundUp(alignment, geo.pageSize);
    WriteWatch.ScaleFacts(geo);
    AlignmentOfView(geo, alignment);
    assert ViewScan(geo, low, high, alignment).stride == Quotient(a, SYSTEM_PAGE);
    PagesOfMultiple(geo, a);
  }

  /** Whole pages of the view are whole numbers of its scale in pages of the parent. */
  lemma PagesOfMultiple(geo: Geometry, a: nat)
    requires geo.Valid() && a % geo.pageSize == 0 && geo.Scale() > 0
    ensures Quotient(a, SYSTEM_PAGE) % geo.Scale() == 0
  {
    QuotientIsDivision(a, SYSTEM_PAGE);
    var k := a / geo.pageSize;
    assert a == k * geo.pageSize;
    ScaledPages(geo, k);
    DivModUnique(a, SYSTEM_PAGE, k * geo.Scale(), 0);
    ModOfMultiple(k, geo.Scale());
  }

  /** The search of the shifted view leaves out the first page of the parent. */
  lemma ShiftedLow(geo: Geometry, low: u32, high: u32, alignment: u32)
    requires ViewOk(geo) && geo.base >= 0xE000_0000 && alignment <= U32 - geo.pageSize
             && RoundUp(alignment, geo.pageSize) > 0
    requires GoodAlignment(PARENT_GEOMETRY, RoundUp(alignment, geo.pageSize))
    ensures ViewScan(geo, low, high, alignment).low >= 1
  {
    var a := RoundUp(alignment, geo.pageSize);
    var start := Physical(geo, Max(geo.base, low));
    AlignmentOfView(geo, alignment);
    HalfOfU32(a);
    PhysicalStart(geo, low);
    AlignCovers(start, a);
    PageAtLeastOne(Align(start, a));
  }

  lemma PhysicalStart(geo: Geometry, low: u32)
    requires ViewOk(geo) && geo.base >= 0xE000_0000
    ensures SYSTEM_PAGE <= Physical(geo, Max(geo.base, low)) < 0x2000_1000
  {
  }

  lemma PageAtLeastOne(x: u32)
    requires SYSTEM_PAGE <= x
    ensures PARENT_GEOMETRY.PageOf(x) >= 1
  {
    assert Sub32(x, 0) == x;
  }

  lemma AlignCovers(v: u32, a: u32)
    requires 0 < a && v <= U32 - a
    ensures v <= Align(v, a)
  {
    DivModUnique(v + a - 1, U32, 0, v + a - 1);
  }

  /** A divisor of 2^32 other than 2^32 itself is at most 2^31. */
  lemma HalfOfU32(a: u32)
    requires a > 0 && U32 % a == 0
    ensures a <= 0x8000_0000
  {
    var q := U32 / a;
    assert U32 == q * a;
    if q >= 2 {
      MulOrder(2, q, a);
    }
  }

  // ---- the pin ------------------------------------------------------------------------------

  /** The parent search ends inside the view. */
  predicate EndsInside(geo: Geometry, low: u32, high: u32, alignment: u32)
    requires geo.Valid() && alignment <= U32 - geo.pageSize && RoundUp(alignment, geo.pageSize) > 0
    requires GoodAlignment(PARENT_GEOMETRY, RoundUp(alignment, geo.pageSize))
  {
    var s := ViewScan(geo, low, high, alignment);
    RoundDown(s.high, s.stride) <= ParentPage(MapOf(geo), geo.Pages())
  }

  /** What the parent gave can always be pinned, and parent and views stay consistent. */
  lemma PinNeverFails(maps: seq<ViewMap>, s: Machine, v: nat, geo: Geometry, parent: Heap, own: Heap, low: u32,
                      high: u32, size: u32, alignment: u32, alloc: bv2, protect: bv4, topDown: bool, parentOk: bool)
    requires Through(maps, s, v, geo, parent, own) && alloc != 0
    requires ViewRequest(geo, size, alignment) && RoundUp(size, geo.pageSize) <= U32 - RoundUp(alignment, geo.pageSize)
    requires RoundUp(size, geo.pageSize) % RoundUp(alignment, geo.pageSize) == 0
    requires EndsInside(geo, low, high, alignment)
    requires InBounds(ViewScan(geo, low, high, alignment), PageCount(RoundUp(size, geo.pageSize), SYSTEM_PAGE))
    ensures var pr := AllocInRange(PARENT_GEOMETRY, parent, ViewScan(geo, low, high, alignment),
                                   PageCount(RoundUp(size, geo.pageSize), SYSTEM_PAGE), alloc, protect, topDown,
                                     parentOk).1;
            var (p, o, r, _) :=
              ViewAllocRange(geo, parent, own, low, high, size, alignment, alloc, protect, topDown, parentOk, true);
            && r == pr && r != OutOfBounds
            && (r == Failure ==> p == parent && o == own)
            && (r == Success ==> IsPlacement(maps, s, v, Seen(s, v, p, o), alloc | RESERVE, protect))
            && Through(maps, Seen(s, v, p, o), v, geo, p, o)
  {
    hide Quotient, Pinned, AllocInRange, AllocSearched, CountFree, WellFormed, Coupled, Apart;
    StrideOfView(geo, low, high, alignment);
    if MapOf(geo).shift != 0 {
      ShiftedLow(geo, low, high, alignment);
    }
    BytesInParent(geo, size);
    ParentPages();
    ParentStartsAligned(geo, low, high, size, alignment, topDown);
    var scan := ViewScan(geo, low, high, alignment);
    assert ScanOfView(geo, scan);
    PinScanned(maps, s, v, geo, parent, own, scan, size, alignment, alloc, protect, topDown, parentOk);
  }

  lemma PinScanned(maps: seq<ViewMap>, s: Machine, v: nat, geo: Geometry, parent: Heap, own: Heap, scan: Scan,
                   size: u32, alignment: u32, alloc: bv2, protect: bv4, topDown: bool, parentOk: bool)
    requires Through(maps, s, v, geo, parent, own) && alloc != 0 && ScanOfView(geo, scan)
    requires ViewRequest(geo, size, alignment) && RoundUp(size, geo.pageSize) <= U32 - RoundUp(alignment, geo.pageSize)
    requires RoundUp(size, geo.pageSize) % RoundUp(alignment, geo.pageSize) == 0
    requires InBounds(scan, PageCount(RoundUp(size, geo.pageSize), SYSTEM_PAGE))
    requires StartsAligned(scan, PageCount(RoundUp(size, geo.pageSize), SYSTEM_PAGE), topDown)
    requires PageCount(RoundUp(size, geo.pageSize), SYSTEM_PAGE) > 0
    ensures var n := PageCount(RoundUp(size, geo.pageSize), SYSTEM_PAGE);
            var (p, pr, pa) := AllocInRange(PARENT_GEOMETRY, parent, scan, n, alloc, protect, topDown, parentOk);
            var (o, r) := Pinned(geo, own, pa % U32, size, alignment, alloc, protect, true);
            && (pr == Failure ==> p == parent) && pr != OutOfBounds
            && AllocSearched(PARENT_GEOMETRY, parent, scan, n, alloc, protect, topDown, parentOk) == (p, pr, pa)
            && HeapRuns.Inv(p) && p.Fits(PARENT_GEOMETRY)
            && (pr == Success ==>
                  && r == Success && HeapRuns.Inv(o) && o.Fits(geo) && Consistent(maps, Seen(s, v, p, o))
                  && IsPlacement(maps, s, v, Seen(s, v, p, o), alloc | RESERVE, protect))
  {
    hide Coupled, Apart;
    var n := PageCount(RoundUp(size, geo.pageSize), SYSTEM_PAGE);
    HeapRuns.RangeStep(PARENT_GEOMETRY, parent, scan, n, alloc, protect, topDown, parentOk);
    var (p, pr, pa) := AllocInRange(PARENT_GEOMETRY, parent, scan, n, alloc, protect, topDown, parentOk);
    if pr == Success {
      var first := ParentWindow(geo, parent, scan, n, alloc, protect, topDown, parentOk);
      PinWindow(maps, s, v, geo, parent, own, first, size, alignment, alloc, protect);
      var count := FixedPageCount(geo, RoundUp(size, geo.pageSize), RoundUp(alignment, geo.pageSize));
      assert PlacedInFree(maps, s, v, first, count);
    }
  }

  /** The window that the parent gives to a view, as a page of the view. */
  lemma ParentWindow(geo: Geometry, parent: Heap, scan: Scan, n: nat, alloc: bv2, protect: bv4, topDown: bool,
                     parentOk: bool) returns (first: nat)
    requires geo.Valid() && ScanOfView(geo, scan) && HeapRuns.Inv(parent) && parent.Fits(PARENT_GEOMETRY)
    requires n > 0 && alloc != 0 && InBounds(scan, n) && StartsAligned(scan, n, topDown)
    requires AllocInRange(PARENT_GEOMETRY, parent, scan, n, alloc, protect, topDown, parentOk).1 == Success
    ensures var (p, _, pa) := AllocInRange(PARENT_GEOMETRY, parent, scan, n, alloc, protect, topDown, parentOk);
            var b := ParentPage(MapOf(geo), first);
            && AllFree(parent.table, b, n) && b + n <= ParentPage(MapOf(geo), geo.Pages())
            && pa == b * SYSTEM_PAGE && p.table == Allocated(parent.table, b, n, alloc | RESERVE, protect)
  {
    hide AllocInRange, Allocated, WellFormed, CountFree, Quotient;
    HeapRuns.RangeStep(PARENT_GEOMETRY, parent, scan, n, alloc, protect, topDown, parentOk);
    var (p, _, pa) := AllocInRange(PARENT_GEOMETRY, parent, scan, n, alloc, protect, topDown, parentOk);
    var b: nat :| Fits(parent.table, scan.low, RoundDown(scan.high, scan.stride), scan.stride, n, b)
                  && pa == b * SYSTEM_PAGE
                  && p.table == Allocated(parent.table, b, n, alloc | RESERVE, protect);
    first := WindowOfView(MapOf(geo), scan.low, scan.stride, b);
  }

  ghost predicate PlacedInFree(maps: seq<ViewMap>, s: Machine, v: nat, first: nat, count: nat) {
    && |maps| == |s.views| && v < |s.views| && 0 < count && first + count <= |s.views[v]|
    && AllFree(s.parent, ParentPage(maps[v], first), count * maps[v].scale)
  }

  /** `s'` is `s` with one region placed through view `v` over free pages of the parent. */
  ghost predicate IsPlacement(maps: seq<ViewMap>, s: Machine, v: nat, s': Machine, alloc: bv2, protect: bv4) {
    exists first: nat, count: nat ::
      PlacedInFree(maps, s, v, first, count) && s' == Placed(maps, s, v, first, count, alloc, protect)
  }

  /** Pinning a free window of the parent. */
  lemma PinWindow(maps: seq<ViewMap>, s: Machine, v: nat, geo: Geometry, parent: Heap, own: Heap, first: nat,
                  size: u32, alignment: u32, alloc: bv2, protect: bv4)
    requires Through(maps, s, v, geo, parent, own) && alloc != 0
    requires ViewRequest(geo, size, alignment) && RoundUp(size, geo.pageSize) <= U32 - RoundUp(alignment, geo.pageSize)
    requires RoundUp(size, geo.pageSize) % RoundUp(alignment, geo.pageSize) == 0
    requires var b, n := ParentPage(maps[v], first), PageCount(RoundUp(size, geo.pageSize), SYSTEM_PAGE);
             AllFree(parent.table, b, n) && b + n <= ParentPage(maps[v], geo.Pages())
    ensures var b, n := ParentPage(maps[v], first), PageCount(RoundUp(size, geo.pageSize), SYSTEM_PAGE);
            var count := FixedPageCount(geo, RoundUp(size, geo.pageSize), RoundUp(alignment, geo.pageSize));
            var (o, r) := Pinned(geo, own, b * SYSTEM_PAGE % U32, size, alignment, alloc, protect, true);
            && r == Success && PlacedInFree(maps, s, v, first, count)
            && Machine(Allocated(parent.table, b, n, alloc | RESERVE, protect), s.views[v := o.table])
               == Placed(maps, s, v, first, count, alloc | RESERVE, protect)
            && HeapRuns.Inv(o) && o.Fits(geo)
            && Consistent(maps, Placed(maps, s, v, first, count, alloc | RESERVE, protect))
  {
    var b := ParentPage(maps[v], first);
    var count := FixedPageCount(geo, RoundUp(size, geo.pageSize), RoundUp(alignment, geo.pageSize));
    var n := PageCount(RoundUp(size, geo.pageSize), SYSTEM_PAGE);
    ExtentsAgreeExactly(geo, size, alignment);
    assert n == count * maps[v].scale;
    WindowInView(maps[v], first, count, geo.Pages());
    PinPage(geo, first, b);
    assert Pinned(geo, own, b * SYSTEM_PAGE % U32, size, alignment, alloc, protect, true)
           == AllocPages(geo, own, first, count, alloc, protect, true);
    assert PlacedInFree(maps, s, v, first, count);
    PinPages(maps, s, v, geo, own, first, count, alloc, protect);
  }

  lemma WindowInView(m: ViewMap, first: nat, count: nat, pages: nat)
    requires m.scale > 0 && count > 0 && ParentPage(m, first) + count * m.scale <= ParentPage(m, pages)
    ensures first + count <= pages
  {
    InsideWindow(m, first, count, first);
    ParentPageOrder(m, pages, first + count);
  }

  /** The same in page numbers. */
  lemma PinPages(maps: seq<ViewMap>, s: Machine, v: nat, geo: Geometry, own: Heap, first: nat, count: nat, alloc: bv2,
                 protect: bv4)
    requires Consistent(maps, s) && PlacedInFree(maps, s, v, first, count) && s.views[v] == own.table && alloc != 0
    requires geo.Valid() && own.Fits(geo) && HeapRuns.Inv(own)
    ensures var (o, r) := AllocPages(geo, own, first, count, alloc, protect, true);
            && r == Success && HeapRuns.Inv(o) && o.Fits(geo)
            && o.table == Allocated(own.table, first, count, alloc | RESERVE, protect)
    ensures Consistent(maps, Placed(maps, s, v, first, count, alloc | RESERVE, protect))
  {
    ReserveBits(alloc);
    PlacedInFreeKeeps(maps, s, v, first, count, alloc | RESERVE, protect);
    assert own.table[first].state & RESERVE == 0;
    assert FixedAllocType(own.table, first, count, alloc) == alloc | RESERVE;
    HeapRuns.FixedStepExactly(geo, own, first, count, alloc, protect, true);
  }

  lemma ReserveBits(alloc: bv2)
    requires alloc != 0
    ensures (alloc | RESERVE) & RESERVE != 0
    ensures alloc == COMMIT ==> alloc | RESERVE == RESERVE | COMMIT
    ensures alloc != COMMIT ==> alloc | RESERVE == alloc
  {
  }

  // ---- when the pin does fail ----------------------------------------------------------------

  /** What the view makes of a window that the parent gave it: it refuses one whose aligned end lies
      behind the view, and a reservation over pages that it holds itself. */
  lemma PinnedExactly(geo: Geometry, own: Heap, first: nat, b: nat, size: u32, alignment: u32, alloc: bv2,
                      protect: bv4, hostOk: bool)
    requires ViewOk(geo) && own.Fits(geo) && ViewRequest(geo, size, alignment) && b < 0x2_0000
    requires ParentPage(MapOf(geo), first) == b
    ensures var count := FixedPageCount(geo, RoundUp(size, geo.pageSize), RoundUp(alignment, geo.pageSize));
            var (o, r) := Pinned(geo, own, b * SYSTEM_PAGE % U32, size, alignment, alloc, protect, hostOk);
            && (r == Success
                <==> first + count <= geo.Pages() && if alloc == RESERVE then AllFree(own.table, first, count)
                  else hostOk)
            && (r != Success ==> o == own)
            && (r == Success ==>
                o.table == Allocated(own.table, first, count, FixedAllocType(own.table, first, count, alloc), protect))
  {
    if first < geo.Pages() {
      PinPage(geo, first, b);
    } else {
      FarPage(geo, first, b);
    }
  }

  /** A window of the parent is pinned, with parent and views coupled, exactly when it lies in the view
      and the rounded size is a multiple of the alignment. Whenever the pin fails the pages of the
      window are lost. `first` is the page of the view over the window. */
  lemma PinExactly(maps: seq<ViewMap>, s: Machine, v: nat, geo: Geometry, parent: Heap, own: Heap, low: u32, high: u32,
                   size: u32, alignment: u32, alloc: bv2, protect: bv4, topDown: bool, parentOk: bool)
      returns (first: nat)
    requires Through(maps, s, v, geo, parent, own) && alloc != 0
    requires ViewRequest(geo, size, alignment) && RoundUp(size, geo.pageSize) <= U32 - RoundUp(alignment, geo.pageSize)
    requires InBounds(ViewScan(geo, low, high, alignment), PageCount(RoundUp(size, geo.pageSize), SYSTEM_PAGE))
    requires AllocInRange(PARENT_GEOMETRY, parent, ViewScan(geo, low, high, alignment),
                          PageCount(RoundUp(size, geo.pageSize), SYSTEM_PAGE), alloc, protect, topDown,
                            parentOk).1 == Success
    ensures var n, count := PageCount(RoundUp(size, geo.pageSize), SYSTEM_PAGE),
                            FixedPageCount(geo, RoundUp(size, geo.pageSize), RoundUp(alignment, geo.pageSize));
            var (p, o, r, _) :=
              ViewAllocRange(geo, parent, own, low, high, size, alignment, alloc, protect, topDown, parentOk, true);
            var b := ParentPage(maps[v], first);
            && AllFree(parent.table, b, n) && p.table == Allocated(parent.table, b, n, alloc | RESERVE, protect)
            && CountFree(p.table) == CountFree(parent.table) - n
            && (r == Success
                <==> first + count <= geo.Pages() && (alloc == RESERVE ==> AllFree(own.table, first, count)))
            && (r != Success ==> o == own)
            && (r == Success && Consistent(maps, Seen(s, v, p, o)) <==>
                  && RoundUp(size, geo.pageSize) % RoundUp(alignment, geo.pageSize) == 0
                  && b + n <= ParentPage(maps[v], geo.Pages()))
  {
    hide Consistent, Allocated, FixedAllocType, WellFormed, Quotient, RoundUp, PageCount, FixedPageCount,
      AllocSearched, AllocInRange,
      ScanRange, Pinned, CountFree;
    var scan, n := ViewScan(geo, low, high, alignment), PageCount(RoundUp(size, geo.pageSize), SYSTEM_PAGE);
    ScaleIsPositive(maps, s, v);
    BytesInParent(geo, size);
    first := GivenWindow(geo, parent, low, high, size, alignment, alloc, protect, topDown, parentOk);
    var b := ParentPage(maps[v], first);
    PinnedExactly(geo, own, first, b, size, alignment, alloc, protect, true);
    ExtentsAgreeExactly(geo, size, alignment);
    var count := FixedPageCount(geo, RoundUp(size, geo.pageSize), RoundUp(alignment, geo.pageSize));
    if n == count * maps[v].scale && b + n <= ParentPage(maps[v], geo.Pages()) {
      PinWindow(maps, s, v, geo, parent, own, first, size, alignment, alloc, protect);
    } else if first + count <= geo.Pages() {
      PinBreaks(maps, s, v, geo, own, first, count, n, alloc, protect);
    }
  }

  /** The window that the parent gives, as a page of the view; it may lie behind the view. */
  lemma GivenWindow(geo: Geometry, parent: Heap, low: u32, high: u32, size: u32, alignment: u32, alloc: bv2,
                    protect: bv4, topDown: bool, parentOk: bool) returns (first: nat)
    requires ViewOk(geo) && parent.Fits(PARENT_GEOMETRY) && HeapRuns.Inv(parent) && alloc != 0
    requires ViewRequest(geo, size, alignment) && PageCount(RoundUp(size, geo.pageSize), SYSTEM_PAGE) > 0
    requires InBounds(ViewScan(geo, low, high, alignment), PageCount(RoundUp(size, geo.pageSize), SYSTEM_PAGE))
    requires AllocInRange(PARENT_GEOMETRY, parent, ViewScan(geo, low, high, alignment),
                          PageCount(RoundUp(size, geo.pageSize), SYSTEM_PAGE), alloc, protect, topDown,
                            parentOk).1 == Success
    ensures var scan, n := ViewScan(geo, low, high, alignment), PageCount(RoundUp(size, geo.pageSize), SYSTEM_PAGE);
            var (p, pr, pa) := AllocSearched(PARENT_GEOMETRY, parent, scan, n, alloc, protect, topDown, parentOk);
            var b := ParentPage(MapOf(geo), first);
            && pr == Success && b < 0x2_0000 && pa == b * SYSTEM_PAGE && AllFree(parent.table, b, n)
            && p.table == Allocated(parent.table, b, n, alloc | RESERVE, protect)
            && CountFree(p.table) == CountFree(parent.table) - n
  {
    var scan, n := ViewScan(geo, low, high, alignment), PageCount(RoundUp(size, geo.pageSize), SYSTEM_PAGE);
    StrideOfView(geo, low, high, alignment);
    if MapOf(geo).shift != 0 {
      ShiftedLow(geo, low, high, alignment);
    }
    ParentPages();
    ParentStartsAligned(geo, low, high, size, alignment, topDown);
    HeapRuns.RangeStep(PARENT_GEOMETRY, parent, scan, n, alloc, protect, topDown, parentOk);
    var (p, _, pa) := AllocInRange(PARENT_GEOMETRY, parent, scan, n, alloc, protect, topDown, parentOk);
    var b: nat :| Fits(parent.table, scan.low, RoundDown(scan.high, scan.stride), scan.stride, n, b)
                  && pa == b * SYSTEM_PAGE
                  && p.table == Allocated(parent.table, b, n, alloc | RESERVE, protect);
    first := WindowOfView(MapOf(geo), scan.low, scan.stride, b);
  }

  /** A pin of other pages than the parent gave is never backed. */
  lemma PinBreaks(maps: seq<ViewMap>, s: Machine, v: nat, geo: Geometry, own: Heap, first: nat, count: nat, n: nat,
                  alloc: bv2, protect: bv4)
    requires Consistent(maps, s) && v < |s.views| && s.views[v] == own.table && alloc != 0 && 0 < count && 0 < n
    requires geo.Valid() && own.Fits(geo) && AllFree(s.parent, ParentPage(maps[v], first), n)
             && n <= count * maps[v].scale
    requires !(n == count * maps[v].scale && ParentPage(maps[v], first) + n <= ParentPage(maps[v], geo.Pages()))
    requires first + count <= geo.Pages()
    ensures !Consistent(maps, Machine(Allocated(s.parent, ParentPage(maps[v], first), n, alloc | RESERVE, protect),
                                      s.views[v :=
                                              Allocated(own.table, first, count,
                                                        FixedAllocType(own.table, first, count, alloc), protect)]))
  {
    hide Consistent, Allocated, FixedAllocType, WellFormed, Quotient;
    assert maps[v].scale > 0 by { ScaleIsPositive(maps, s, v); }
    InsideWindow(maps[v], first, count, first);
    ParentPageOrder(maps[v], first + count, geo.Pages());
    OtherBytesBreak(maps, s, v, first, count, n, alloc, FixedAllocType(own.table, first, count, alloc), protect);
  }

  lemma ScaleIsPositive(maps: seq<ViewMap>, s: Machine, v: nat)
    requires Consistent(maps, s) && v < |s.views|
    ensures |maps| == |s.views| && maps[v].scale > 0
  {
  }

  /** The same in pages: the view and the parent place regions of different extents. */
  lemma OtherBytesBreak(maps: seq<ViewMap>, s: Machine, v: nat, first: nat, count: nat, n: nat, alloc: bv2,
                        allocInView: bv2, protect: bv4)
    requires Consistent(maps, s) && v < |s.views| && 0 < count && first + count <= |s.views[v]| && alloc != 0
    requires 0 < n && n != count * maps[v].scale && AllFree(s.parent, ParentPage(maps[v], first), n)
    requires allocInView == FixedAllocType(s.views[v], first, count, alloc)
    ensures !Consistent(maps, Machine(Allocated(s.parent, ParentPage(maps[v], first), n, alloc | RESERVE, protect),
                                      s.views[v := Allocated(s.views[v], first, count, allocInView, protect)]))
  {
    var b := ParentPage(maps[v], first);
    var p, t := Allocated(s.parent, b, n, alloc | RESERVE, protect),
      Allocated(s.views[v], first, count, allocInView, protect);
    FreeAtParentPage(maps, s, v, first, b);
    ReserveBits(alloc);
    assert allocInView & RESERVE != 0 by {
      assert s.views[v][first].state & RESERVE == 0;
    }
    assert t[first].baseAddress == first && t[first].regionPageCount == count && t[first].state != 0;
    assert p[b].regionPageCount == n;
    assert !Backed(p, ExtentOf(maps[v], t[first]));
    var s' := Machine(p, s.views[v := t]);
    assert s'.views[v] == t;
    assert !Coupled(s'.parent, s'.views[v], maps[v]);
  }

  /** A view page over a free parent page is free. */
  lemma FreeAtParentPage(maps: seq<ViewMap>, s: Machine, v: nat, first: nat, b: nat)
    requires Consistent(maps, s) && v < |s.views| && first < |s.views[v]| && b == ParentPage(maps[v], first)
    requires b < |s.parent| && s.parent[b].state == 0
    ensures s.views[v][first].state == 0
  {
    var e := s.views[v][first];
    if e.state != 0 {
      assert PageOk(s.views[v], first) && Backed(s.parent, ExtentOf(maps[v], e));
      ViewPageInExtent(maps[v], e, first);
    }
  }

  /** When the last window that the rounded search range allows is free, a search from the top takes
      it; and when that range reaches past the view, the view cannot pin the window, and its pages are
      lost. */
  lemma PinFailsOutside(geo: Geometry, parent: Heap, own: Heap, low: u32, high: u32, size: u32, alignment: u32,
                        alloc: bv2, protect: bv4, parentOk: bool, hostOk: bool)
    requires ViewOk(geo) && own.Fits(geo) && parent.Fits(PARENT_GEOMETRY) && HeapRuns.Inv(parent)
    requires alloc != 0 && (alloc == RESERVE || parentOk)
    requires ViewRequest(geo, size, alignment) && RoundUp(size, geo.pageSize) <= U32 - RoundUp(alignment, geo.pageSize)
    requires InBounds(ViewScan(geo, low, high, alignment), PageCount(RoundUp(size, geo.pageSize), SYSTEM_PAGE))
    requires var scan, n := ViewScan(geo, low, high, alignment), PageCount(RoundUp(size, geo.pageSize), SYSTEM_PAGE);
             scan.low <= LastBase(scan, n) && AllFree(parent.table, LastBase(scan, n), n)
    requires !EndsInside(geo, low, high, alignment)
    ensures var scan, n := ViewScan(geo, low, high, alignment), PageCount(RoundUp(size, geo.pageSize), SYSTEM_PAGE);
            var (p, o, r, _) :=
              ViewAllocRange(geo, parent, own, low, high, size, alignment, alloc, protect, true, parentOk, hostOk);
            && r != Success && o == own
            && p.table == Allocated(parent.table, LastBase(scan, n), n, alloc | RESERVE, protect)
            && CountFree(p.table) == CountFree(parent.table) - n && HeapRuns.Inv(p)
  {
    var scan, n := ViewScan(geo, low, high, alignment), PageCount(RoundUp(size, geo.pageSize), SYSTEM_PAGE);
    BytesInParent(geo, size);
    ParentPages();
    ParentStartsAligned(geo, low, high, size, alignment, true);
    StrideIsAlignment(geo, low, high, alignment);
    LastWindowGiven(parent, scan, n, alloc, protect, parentOk);
    LastBaseIsLast(scan, n);
    var first := LastPage(geo, low, high, alignment, n);
    WindowTooFar(geo, own, first, LastBase(scan, n), n, scan.stride, size, alignment, alloc, protect, hostOk);
  }

  /** The last window, when it is free, is what a search from the top finds. */
  lemma LastWindowGiven(parent: Heap, scan: Scan, n: nat, alloc: bv2, protect: bv4, parentOk: bool)
    requires parent.Fits(PARENT_GEOMETRY) && HeapRuns.Inv(parent) && alloc != 0 && (alloc == RESERVE || parentOk)
    requires scan.low < |parent.table| && scan.high < |parent.table| <= 0x10_0000
    requires 0 < scan.stride <= 0x10_0000 && 0 < n && InBounds(scan, n)
    requires scan.low <= LastBase(scan, n) && AllFree(parent.table, LastBase(scan, n), n)
    ensures var (p, pr, pa) := AllocSearched(PARENT_GEOMETRY, parent, scan, n, alloc, protect, true, parentOk);
            && pr == Success && pa == LastBase(scan, n) * SYSTEM_PAGE
            && p.table == Allocated(parent.table, LastBase(scan, n), n, alloc | RESERVE, protect)
            && CountFree(p.table) == CountFree(parent.table) - n && HeapRuns.Inv(p)
  {
    hide LastBase, AllocSearched, AllocInRange, Allocated, WellFormed, CountFree, Quotient, AllFree;
    LastBaseIsLast(scan, n);
    HeapRuns.RangeStep(PARENT_GEOMETRY, parent, scan, n, alloc, protect, true, parentOk);
    assert Fits(parent.table, scan.low, RoundDown(scan.high, scan.stride), scan.stride, n, LastBase(scan, n));
  }

  lemma LastPage(geo: Geometry, low: u32, high: u32, alignment: u32, n: nat) returns (first: nat)
    requires ViewOk(geo) && alignment <= U32 - geo.pageSize && RoundUp(alignment, geo.pageSize) > 0
    requires GoodAlignment(PARENT_GEOMETRY, RoundUp(alignment, geo.pageSize))
    requires var scan := ViewScan(geo, low, high, alignment);
             0 < n && InBounds(scan, n) && scan.low <= LastBase(scan, n)
    ensures ParentPage(MapOf(geo), first) == LastBase(ViewScan(geo, low, high, alignment), n)
  {
    var scan := ViewScan(geo, low, high, alignment);
    StrideIsAlignment(geo, low, high, alignment);
    StrideOfView(geo, low, high, alignment);
    if MapOf(geo).shift != 0 {
      ShiftedLow(geo, low, high, alignment);
    }
    LastBaseIsLast(scan, n);
    first := WindowOfView(MapOf(geo), scan.low, scan.stride, LastBase(scan, n));
  }

  /** The last aligned base from which `n` pages lie in the rounded search range. */
  function LastBase(s: Scan, n: nat): nat
    requires s.stride > 0 && InBounds(s, n)
  {
    RoundDown(RoundDown(s.high, s.stride) - n, s.stride)
  }

  lemma LastBaseIsLast(s: Scan, n: nat)
    requires 0 < s.stride <= 0x10_0000 && 0 < n <= RoundDown(s.high, s.stride) <= 0x10_0000
    ensures var high := RoundDown(s.high, s.stride);
            && LastBase(s, n) % s.stride == 0 && LastBase(s, n) + n <= high
            && LastBase(s, n) + RoundUp(n, s.stride) == high
            && forall b: nat :: b % s.stride == 0 && b + n <= high ==> b <= LastBase(s, n)
  {
    var high := RoundDown(s.high, s.stride);
    RoundUpIsLeast(n, s.stride, high);
    FirstBaseIsLast(0, high, s.stride, n);
    MultipleAtMost(high - RoundUp(n, s.stride), high - n, s.stride);
  }

  lemma StrideIsAlignment(geo: Geometry, low: u32, high: u32, alignment: u32)
    requires ViewOk(geo) && alignment <= U32 - geo.pageSize && RoundUp(alignment, geo.pageSize) > 0
    requires GoodAlignment(PARENT_GEOMETRY, RoundUp(alignment, geo.pageSize))
    ensures var s := ViewScan(geo, low, high, alignment);
            s.stride * SYSTEM_PAGE == RoundUp(alignment, geo.pageSize) && s.stride <= 0x10_0000
            && s.high < 0x2_0000 && s.low < 0x2_0000
  {
    var a := RoundUp(alignment, geo.pageSize);
    AlignmentOfView(geo, alignment);
    QuotientIsDivision(a, SYSTEM_PAGE);
    ParentPages();
  }

  lemma ParentPages()
    ensures PARENT_GEOMETRY.Pages() == 0x2_0000
  {
    QuotientIsDivision(0x2000_0000, 0x1000);
  }

  /** A window whose aligned end lies behind the view is refused or leaves the table. */
  lemma WindowTooFar(geo: Geometry, own: Heap, first: nat, b: nat, n: nat, stride: nat, size: u32, alignment: u32,
                     alloc: bv2, protect: bv4, hostOk: bool)
    requires ViewOk(geo) && own.Fits(geo) && ViewRequest(geo, size, alignment) && b < 0x2_0000
    requires RoundUp(size, geo.pageSize) <= U32 - RoundUp(alignment, geo.pageSize)
    requires n == PageCount(RoundUp(size, geo.pageSize), SYSTEM_PAGE) && 0 < n <= 0x10_0000
    requires 0 < stride <= 0x10_0000 && stride * SYSTEM_PAGE == RoundUp(alignment, geo.pageSize)
    requires ParentPage(MapOf(geo), first) == b && b + RoundUp(n, stride) > ParentPage(MapOf(geo), geo.Pages())
    ensures Pinned(geo, own, b * SYSTEM_PAGE % U32, size, alignment, alloc, protect, hostOk).1 != Success
    ensures Pinned(geo, own, b * SYSTEM_PAGE % U32, size, alignment, alloc, protect, hostOk).0 == own
  {
    var m := MapOf(geo);
    var pageBytes, pageAlign := RoundUp(size, geo.pageSize), RoundUp(alignment, geo.pageSize);
    var count := FixedPageCount(geo, pageBytes, pageAlign);
    WriteWatch.ScaleFacts(geo);
    AlignmentOfView(geo, alignment);
    BytesInParent(geo, size);
    BytesInView(geo, pageBytes, pageAlign);
    ScaledPages(geo, count);
    ScaledRoundUp(n, stride, pageBytes, pageAlign);
    assert count * geo.Scale() == RoundUp(n, stride);
    InsideWindow(m, first, count, first);
    ParentPageOrder(m, first + count, geo.Pages());
    assert first + count > geo.Pages();
    if first < geo.Pages() {
      PinPage(geo, first, b);
    } else {
      FarPage(geo, first, b);
    }
  }

  /** Rounding up scales with the unit. */
  lemma ScaledRoundUp(n: nat, stride: nat, bytes: u32, alignment: u32)
    requires 0 < n <= 0x10_0000 && 0 < stride <= 0x10_0000
    requires bytes == n * SYSTEM_PAGE && alignment == stride * SYSTEM_PAGE && bytes <= U32 - alignment
    ensures RoundUp(bytes, alignment) == RoundUp(n, stride) * SYSTEM_PAGE
  {
    RoundUpCovers(n, stride);
    RoundUpCovers(bytes, alignment);
    ScaledMultiple(RoundUp(n, stride), stride);
    RoundUpIsLeast(bytes, alignment, RoundUp(n, stride) * SYSTEM_PAGE);
    var j := UnscaledMultiple(RoundUp(bytes, alignment), stride);
    RoundUpIsLeast(n, stride, j);
  }

  lemma ScaledMultiple(r: nat, stride: nat)
    requires stride > 0 && r % stride == 0
    ensures r * SYSTEM_PAGE % (stride * SYSTEM_PAGE) == 0
  {
    var k := r / stride;
    assert r == k * stride;
    assert r * SYSTEM_PAGE == k * (stride * SYSTEM_PAGE);
    ModOfMultiple(k, stride * SYSTEM_PAGE);
  }

  lemma UnscaledMultiple(x: nat, stride: nat) returns (j: nat)
    requires stride > 0 && x % (stride * SYSTEM_PAGE) == 0
    ensures x == j * SYSTEM_PAGE && j % stride == 0
  {
    var k := x / (stride * SYSTEM_PAGE);
    assert x == k * (stride * SYSTEM_PAGE);
    j := k * stride;
    ModOfMultiple(k, stride);
  }

  /** A parent page behind the view gets a page number behind the table. */
  lemma FarPage(geo: Geometry, first: nat, b: nat)
    requires ViewOk(geo) && geo.Pages() <= first && b == ParentPage(MapOf(geo), first) && b < 0x2_0000
    ensures geo.PageOf(ViewAddress(geo, b * SYSTEM_PAGE % U32)) >= geo.Pages()
  {
    ScaledPages(geo, first);
    assert b * SYSTEM_PAGE == first * geo.pageSize + PhysicalOffset(geo);
    QuotientIsDivision(geo.size, geo.pageSize);
    MulOrder(geo.Pages(), first, geo.pageSize);
    var rel := first * geo.pageSize;
    assert geo.size <= rel < 0x2000_0000;
    SmallMod(b * SYSTEM_PAGE);
    assert Sub32(b * SYSTEM_PAGE, PhysicalOffset(geo)) == rel;
    var address := ViewAddress(geo, b * SYSTEM_PAGE);
    assert address == (geo.base + rel) % U32;
    assert Sub32(address, geo.base) == rel by {
      if geo.base + rel < U32 {
        SmallMod(geo.base + rel);
      } else {
        DivModUnique(geo.base + rel, U32, 1, geo.base + rel - U32);
      }
    }
    DivisionMonotone(geo.size, rel, geo.pageSize);
  }

  // ---- the three views of the machine ---------------------------------------------------------

  /** `vA0000000`, `vC0000000` and `vE0000000` (`Memory::Initialize`); the last one is shifted on the
      host as well where the host maps memory in larger steps than 4 KB. */
  const VIEW_A := Geometry(0xA000_0000, 0x2000_0000, 0x1_0000, 0)
  const VIEW_C := Geometry(0xC000_0000, 0x2000_0000, 0x100_0000, 0)

  function ViewE(hostOffset: nat): Geometry {
    Geometry(0xE000_0000, 0x1FD0_0000, 0x1000, hostOffset)
  }

  /** The alignments of at least one page. */
  predicate PageAlignment(a: u32) {
    a in {0x1000, 0x2000, 0x4000, 0x8000, 0x1_0000, 0x2_0000, 0x4_0000, 0x8_0000, 0x10_0000, 0x20_0000, 0x40_0000,
          0x80_0000, 0x100_0000, 0x200_0000, 0x400_0000, 0x800_0000, 0x1000_0000, 0x2000_0000, 0x4000_0000, 0x8000_0000}
  }

  /** The last parent page, rounded to the alignment, that a search up to `high` looks at. */
  lemma RoundedHigh(geo: Geometry, low: u32, high: u32, alignment: u32)
    requires ViewOk(geo) && alignment <= U32 - geo.pageSize && RoundUp(alignment, geo.pageSize) > 0
    requires GoodAlignment(PARENT_GEOMETRY, RoundUp(alignment, geo.pageSize))
    ensures var s, a := ViewScan(geo, low, high, alignment), RoundUp(alignment, geo.pageSize);
            var top := Min(0x1FFF_FFFF, Align(Physical(geo, Min(geo.base + (geo.size - 1), high)), a));
            s.high == top / SYSTEM_PAGE && s.stride == a / SYSTEM_PAGE
  {
    var a := RoundUp(alignment, geo.pageSize);
    AlignmentOfView(geo, alignment);
    QuotientIsDivision(a, SYSTEM_PAGE);
    var top := Min(0x1FFF_FFFF, Align(Physical(geo, Min(geo.base + (geo.size - 1), high)), a));
    QuotientIsDivision(top, SYSTEM_PAGE);
    ParentPages();
    assert Sub32(top, 0) == top;
  }

  /** For the 0xE0000000 view a search over the whole view stays inside it exactly for alignments of
      one page and of 4 MB and more; for those in between the end of the search range is rounded up
      past the last page of the view. */
  lemma WholeViewEInsideExactly(hostOffset: nat, alignment: u32)
    requires hostOffset == 0 || hostOffset == SYSTEM_PAGE
    requires PageAlignment(alignment)
    ensures var geo := ViewE(hostOffset);
            && ViewOk(geo) && RoundUp(alignment, geo.pageSize) == alignment && GoodAlignment(PARENT_GEOMETRY, alignment)
            && (EndsInside(geo, geo.base, geo.base + geo.size - 1, alignment)
                <==> alignment == 0x1000 || alignment >= 0x40_0000)
  {
    var geo := ViewE(hostOffset);
    EndOfViewE(hostOffset);
    PageAlignmentIsGood(alignment);
    RoundedHigh(geo, geo.base, geo.base + geo.size - 1, alignment);
    RoundedEnds(alignment);
  }

  /** A request for which the pin fails: two pages at an alignment of two pages, anywhere in the
      0xE0000000 view. When the pages at 0x1FD00000 are free the parent gives them, but the view has only
      the first of them. */
  lemma ViewELosesPages(hostOffset: nat, parent: Heap, own: Heap, alloc: bv2, protect: bv4, parentOk: bool,
                        hostOk: bool)
    requires hostOffset == 0 || hostOffset == SYSTEM_PAGE
    requires own.Fits(ViewE(hostOffset)) && parent.Fits(PARENT_GEOMETRY) && HeapRuns.Inv(parent)
    requires alloc != 0 && (alloc == RESERVE || parentOk) && AllFree(parent.table, 0x1_FD00, 2)
    ensures var geo := ViewE(hostOffset);
            && ViewOk(geo) && ViewRequest(geo, 0x2000, 0x2000)
            && var (p, o, r, _) := ViewAllocRange(geo, parent, own, geo.base, geo.base + geo.size - 1, 0x2000, 0x2000,
                                                  alloc, protect, true, parentOk, hostOk);
               && r != Success && o == own
               && p.table == Allocated(parent.table, 0x1_FD00, 2, alloc | RESERVE, protect)
               && CountFree(p.table) == CountFree(parent.table) - 2
  {
    var geo := ViewE(hostOffset);
    EndOfViewE(hostOffset);
    PageAlignmentIsGood(0x2000);
    WholeViewEInsideExactly(hostOffset, 0x2000);
    SmallRequestE(hostOffset);
    PinFailsOutside(geo, parent, own, geo.base, geo.base + geo.size - 1, 0x2000, 0x2000, alloc, protect, parentOk,
                    hostOk);
  }

  lemma SmallRequestE(hostOffset: nat)
    requires hostOffset == 0 || hostOffset == SYSTEM_PAGE
    ensures var geo := ViewE(hostOffset);
            && ViewOk(geo) && ViewRequest(geo, 0x2000, 0x2000) && RoundUp(0x2000, geo.pageSize) == 0x2000
            && PageCount(0x2000, SYSTEM_PAGE) == 2
            && var s := ViewScan(geo, geo.base, geo.base + geo.size - 1, 0x2000);
               s.low == 2 && InBounds(s, 2) && LastBase(s, 2) == 0x1_FD00
  {
    var geo := ViewE(hostOffset);
    EndOfViewE(hostOffset);
    PageAlignmentIsGood(0x2000);
    RoundedHigh(geo, geo.base, geo.base + geo.size - 1, 0x2000);
    SmallRoundedEnd(0x2000);
    QuotientIsDivision(0x2000, 0x1000);
    ParentPages();
    StartOfViewE(hostOffset);
    AlignedStartE();
  }

  lemma StartOfViewE(hostOffset: nat)
    requires hostOffset == 0 || hostOffset == SYSTEM_PAGE
    ensures Physical(ViewE(hostOffset), ViewE(hostOffset).base) == 0x1000
  {
    assert Sub32(0xE000_0000, 0xE000_0000) == 0;
  }

  lemma AlignedStartE()
    ensures Align(0x1000, 0x2000) == 0x2000 && PARENT_GEOMETRY.PageOf(0x2000) == 2
  {
    QuotientIsDivision(0x2000, 0x1000);
    assert Sub32(0x2000, 0) == 0x2000;
  }

  lemma EndOfViewE(hostOffset: nat)
    requires hostOffset == 0 || hostOffset == SYSTEM_PAGE
    ensures var geo := ViewE(hostOffset);
            && ViewOk(geo) && ParentPage(MapOf(geo), geo.Pages()) == 0x1_FD01
            && Physical(geo, geo.base + geo.size - 1) == 0x1FD0_0FFF
  {
    QuotientIsDivision(0x1FD0_0000, 0x1000);
  }

  lemma PageAlignmentIsGood(a: u32)
    requires PageAlignment(a)
    ensures 0 < a <= U32 - 0x1000 && U32 % a == 0 && a % 0x1000 == 0 && RoundUp(a, 0x1000) == a
  {
    PageAlignmentDivides(a);
    RoundUpOfMultiple(a, 0x1000);
  }

  lemma PageAlignmentDivides(a: u32)
    requires PageAlignment(a)
    ensures 0 < a <= 0x8000_0000 && U32 % a == 0 && a % 0x1000 == 0
  {
  }

  /** The parent page at which a search over the whole 0xE0000000 view ends. */
  function RoundedEnd(a: u32): nat
    requires a >= 0x1000
  {
    RoundDown(Min(0x1FFF_FFFF, Align(0x1FD0_0FFF, a)) / SYSTEM_PAGE, a / SYSTEM_PAGE)
  }

  lemma RoundedEnds(a: u32)
    requires PageAlignment(a)
    ensures RoundedEnd(a) <= 0x1_FD01 <==> a == 0x1000 || a >= 0x40_0000
  {
    assert (a <= 0x10_0000 && 0x10_0000 % a == 0) || a == 0x20_0000 || (a >= 0x40_0000 && a % 0x40_0000 == 0);
    PageAlignmentIsGood(a);
    if a <= 0x10_0000 {
      SmallRoundedEnd(a);
    } else if a >= 0x40_0000 {
      LargeRoundedEnd(a);
    }
  }

  /** Rounding 0x1FD0_0FFF up passes 0x1FD0_0000, which is a multiple of `a`, by exactly `a`. */
  lemma SmallRoundedEnd(a: u32)
    requires 0x1000 <= a <= 0x10_0000 && 0x10_0000 % a == 0 && a % SYSTEM_PAGE == 0
    ensures RoundedEnd(a) == 0x1_FD00 + a / SYSTEM_PAGE
  {
    var stride := a / SYSTEM_PAGE;
    MultipleOfMultiple(0x1FD0_0000, 0x10_0000, a);
    ModAddMultiple(0x1FD0_0000, a);
    EndAboveMultiple(0x1FD0_0000 + a, a);
    var j := UnscaledMultiple(0x1FD0_0000 + a, stride);
    assert j == 0x1_FD00 + stride;
  }

  lemma LargeRoundedEnd(a: u32)
    requires a % 0x40_0000 == 0 && 0x40_0000 <= a
    ensures RoundedEnd(a) <= 0x1_FC00
  {
    UnscaledStride(a);
    RoundedBelow(Min(0x1FFF_FFFF, Align(0x1FD0_0FFF, a)) / SYSTEM_PAGE, a / SYSTEM_PAGE);
  }

  lemma RoundedBelow(x: nat, stride: nat)
    requires x <= 0x1_FFFF && 0 < stride && stride % 0x400 == 0
    ensures RoundDown(x, stride) <= 0x1_FC00
  {
    MultipleOfMultiple(RoundDown(x, stride), stride, 0x400);
  }

  lemma EndAboveMultiple(top: u32, a: u32)
    requires 0x1000 <= a <= 0x10_0000 && top % a == 0 && top == 0x1FD0_0000 + a
    ensures Align(0x1FD0_0FFF, a) == top
  {
    DivModUnique(0x1FD0_0FFF + a - 1, a, top / a, 0xFFE);
  }

  lemma UnscaledStride(a: nat)
    requires a % 0x40_0000 == 0
    ensures a / SYSTEM_PAGE % 0x400 == 0
  {
    var k := a / 0x40_0000;
    assert a == k * 0x40_0000;
    assert a / SYSTEM_PAGE == k * 0x400;
  }

  /** The other two views end where the parent ends, so every search stays inside. */
  lemma WholeViewsInside(low: u32, high: u32, alignment: u32)
    requires alignment <= U32 - 0x100_0000
    requires RoundUp(alignment, 0x1_0000) > 0 && GoodAlignment(PARENT_GEOMETRY, RoundUp(alignment, 0x1_0000))
    requires RoundUp(alignment, 0x100_0000) > 0 && GoodAlignment(PARENT_GEOMETRY, RoundUp(alignment, 0x100_0000))
    ensures ViewOk(VIEW_A) && EndsInside(VIEW_A, low, high, alignment)
    ensures ViewOk(VIEW_C) && EndsInside(VIEW_C, low, high, alignment)
  {
    QuotientIsDivision(VIEW_A.size, VIEW_A.pageSize);
    QuotientIsDivision(VIEW_C.size, VIEW_C.pageSize);
    StrideIsAlignment(VIEW_A, low, high, alignment);
    StrideIsAlignment(VIEW_C, low, high, alignment);
    assert ParentPage(MapOf(VIEW_A), VIEW_A.Pages()) == 0x2_0000;
    assert ParentPage(MapOf(VIEW_C), VIEW_C.Pages()) == 0x2_0000;
  }
}
