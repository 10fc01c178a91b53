/** A heap as a value, and what each operation of `BaseHeap` (src/xenia/memory.cc) does to it. The
    methods of `GuestHeap.BaseHeap` are proved equal to these functions; `HeapRuns` proves what
    they keep. */
module HeapSpec {
  import opened Arith
  import opened PageTable
  import opened PageSearch

  /** Host pages are 4 KB. */
  const SYSTEM_PAGE: int := 0x1000

  datatype PageAccess = NoAccess | ReadOnly | ReadWrite

  function ToPageAccess(protect: bv4): PageAccess {
    if protect & PROTECT_READ != 0 && protect & PROTECT_WRITE == 0 then ReadOnly
    else if protect & PROTECT_READ != 0 && protect & PROTECT_WRITE != 0 then ReadWrite
    else NoAccess
  }

  /** The constants of one heap (`BaseHeap::Initialize`). */
  datatype Geometry = Geometry(base: nat, size: nat, pageSize: nat, hostOffset: nat) {

    predicate Valid() {
      && SYSTEM_PAGE <= pageSize < U32 && pageSize % SYSTEM_PAGE == 0
      && 0 < size && size % pageSize == 0 && base + size <= U32 && base < U32
      && (hostOffset == 0 || hostOffset == SYSTEM_PAGE)
    }

    function Pages(): nat
      requires pageSize > 0
    {
      Quotient(size, pageSize)
    }

    /** Host pages in one guest page. */
    function Scale(): nat {
      pageSize / SYSTEM_PAGE
    }

    /** Host pages in front of the first guest page. */
    function Shift(): nat {
      hostOffset / SYSTEM_PAGE
    }

    /** Address to page number, with the subtraction done on `uint32_t`. */
    function PageOf(address: u32): nat
      requires pageSize > 0 && base < U32
    {
      Quotient(Sub32(address, base), pageSize)
    }
  }

  /** `unreserved` is the cached count of free pages; `host` is the access of each host page
      under the heap. */
  datatype Heap = Heap(table: Table, unreserved: int, host: seq<PageAccess>) {

    predicate Fits(geo: Geometry)
      requires geo.pageSize > 0
    {
      |table| == geo.Pages() && |host| == geo.Pages() * geo.Scale() + geo.Shift()
    }
  }

  /** `OutOfBounds` stands for an access behind the page table. */
  datatype Outcome = Success | Failure | OutOfBounds

  function HostSet(host: seq<PageAccess>, first: nat, last: nat, access: PageAccess): (h: seq<PageAccess>)
    ensures |h| == |host|
  {
    seq(|host|, i requires 0 <= i < |host| => if first <= i < last then access else host[i])
  }

  /** The host pages under guest pages [first, first + count) all get one access. */
  function HostCover(geo: Geometry, host: seq<PageAccess>, first: nat, count: nat,
                     access: PageAccess): (h: seq<PageAccess>)
    ensures |h| == |host|
  {
    HostSet(host, first * geo.Scale() + geo.Shift(), (first + count) * geo.Scale() + geo.Shift(), access)
  }

  // ---- fixed placement ----------------------------------------------------------------------

  /** An alignment that `xe::align` can work with once it is rounded to whole pages: a power of
      two, which is to say a divisor of 2^32. */
  predicate GoodAlignment(geo: Geometry, alignment: u32)
    requires geo.Valid()
  {
    alignment <= U32 - geo.pageSize && RoundUp(alignment, geo.pageSize) > 0 &&
    U32 % RoundUp(alignment, geo.pageSize) == 0
  }

  ghost predicate AnyTaken(t: Table, first: nat, last: nat)
  {
    exists i :: first <= i < last && i < |t| && t[i].state != 0
  }

  ghost predicate AnyUnreserved(t: Table, first: nat, last: nat)
  {
    exists i :: first <= i < last && i < |t| && t[i].state & RESERVE == 0
  }

  /** The number of pages `AllocFixed` covers: the size is rounded up to the alignment first. */
  function FixedPageCount(geo: Geometry, size: u32, alignment: u32): (count: nat)
    requires geo.Valid() && GoodAlignment(geo, alignment)
    ensures count > 0
  {
    var a := RoundUp(alignment, geo.pageSize);
    RoundUpCovers(alignment, geo.pageSize);
    AlignedPageCount(size, a, geo.pageSize);
    PageCount(Align(size, a), geo.pageSize)
  }

  /** The allocation type `AllocFixed` goes on with after it has looked at the range: a commit of
      a range that is not wholly reserved becomes a reservation as well. */
  ghost function FixedAllocType(t: Table, first: nat, count: nat, alloc: bv2): bv2 {
    if alloc == COMMIT && AnyUnreserved(t, first, first + count) then RESERVE | COMMIT else alloc
  }

  /** Placement of `count` pages at page `first`. The range test of the source lets a range
      through that ends one page behind the table. */
  ghost function AllocPages(geo: Geometry, h: Heap, first: nat, count: nat, alloc: bv2, protect: bv4,
                            hostOk: bool): (Heap, Outcome)
    requires geo.Valid() && h.Fits(geo) && count > 0
  {
    var n := |h.table|;
    var alloc' := FixedAllocType(h.table, first, count, alloc);
    if first >= n || first + count - 1 > n then (h, Failure)
    else if alloc == RESERVE && AnyTaken(h.table, first, first + count) then (h, Failure)
    else if first + count - 1 == n then (h, OutOfBounds)
    else if alloc' != RESERVE && !hostOk then (h, Failure)
    else
      (Heap(
         Allocated(h.table, first, count, alloc', protect),
         h.unreserved - FreeIn(h.table, first, first + count),
         if alloc' == RESERVE then h.host else HostCover(geo, h.host, first, count, ToPageAccess(protect))),
       Success)
  }

  /** Which fixed placements are accepted: the range lies in the table, a plain reservation finds it free,
      and otherwise the host agrees. */
  ghost predicate Accepts(t: Table, first: nat, count: nat, alloc: bv2, hostOk: bool) {
    first + count <= |t| && if alloc == RESERVE then AllFree(t, first, count) else hostOk
  }

  /** A range that ends one page behind the table gets past the test for its end. */
  lemma EndsBehindExactly(geo: Geometry, h: Heap, first: nat, count: nat, alloc: bv2, protect: bv4, hostOk: bool)
    requires geo.Valid() && h.Fits(geo) && count > 0
    ensures AllocPages(geo, h, first, count, alloc, protect, hostOk).1 == OutOfBounds
            <==> first + count == |h.table| + 1 && first < |h.table|
                 && (alloc == RESERVE ==> forall i :: first <= i < |h.table| ==> h.table[i].state == 0)
  {
    if first + count == |h.table| + 1 && first < |h.table| && alloc == RESERVE {
      assert AnyTaken(h.table, first, first + count)
             <==> exists i :: first <= i < |h.table| && h.table[i].state != 0;
    }
  }

  lemma AcceptsExactly(geo: Geometry, h: Heap, first: nat, count: nat, alloc: bv2, protect: bv4, hostOk: bool)
    requires geo.Valid() && h.Fits(geo) && count > 0
    ensures var (h', r) := AllocPages(geo, h, first, count, alloc, protect, hostOk);
            && (r == Success <==> Accepts(h.table, first, count, alloc, hostOk)) && (r != Success ==> h' == h)
  {
    if Accepts(h.table, first, count, alloc, hostOk) {
      assert alloc == RESERVE ==> !AnyTaken(h.table, first, first + count);
    } else if alloc == RESERVE && first + count <= |h.table| {
      assert AnyTaken(h.table, first, first + count);
    }
  }

  // ---- placement in a range -----------------------------------------------------------------

  datatype Scan = Scan(low: nat, high: nat, stride: nat)

  /** The page numbers and the stride that `AllocRange` scans with; `high` is not yet rounded. */
  function ScanRange(geo: Geometry, lowAddress: u32, highAddress: u32, alignment: u32): (s: Scan)
    requires geo.Valid() && GoodAlignment(geo, alignment)
    ensures s.low < geo.Pages() && s.high < geo.Pages() && s.stride > 0
  {
    var a := RoundUp(alignment, geo.pageSize);
    RoundUpCovers(alignment, geo.pageSize);
    PositiveMultipleAtLeast(a, geo.pageSize);
    PositiveMultipleAtLeast(geo.size, geo.pageSize);
    DivisionMonotone(geo.pageSize, a, geo.pageSize);
    DivisionMonotone(geo.pageSize, geo.size, geo.pageSize);
    DivModUnique(geo.pageSize, geo.pageSize, 1, 0);
    QuotientIsDivision(geo.pageSize, geo.pageSize);
    var low := Max(geo.base, Align(lowAddress, a));
    var high := Min(geo.base + (geo.size - 1), Align(highAddress, a));
    Scan(Min(geo.Pages() - 1, geo.PageOf(low)), Min(geo.Pages() - 1, geo.PageOf(high)), Quotient(a, geo.pageSize))
  }

  /** The guard of `AllocRange`; the difference of the page numbers is taken on `uint32_t`. */
  predicate TooBig(s: Scan, count: nat) {
    s.high >= s.low && count > s.high - s.low
  }

  /** The rounded upper end leaves room for the request, so that the limits of the scan do not wrap. */
  predicate InBounds(s: Scan, count: nat)
    requires s.stride > 0
  {
    count <= RoundDown(s.high, s.stride)
  }

  /** The upward scan starts at an aligned page, or does not start at all. */
  predicate StartsAligned(s: Scan, count: nat, topDown: bool)
    requires s.stride > 0
  {
    topDown || s.low % s.stride == 0 || s.low + count > RoundDown(s.high, s.stride)
  }

  /** What `AllocRange` does with the window it found. */
  function PlaceWindow(geo: Geometry, h: Heap, base: nat, count: nat, alloc: bv2, protect: bv4,
                       hostOk: bool): (Heap, Outcome, nat)
  {
    if alloc != RESERVE && !hostOk then (h, Failure, 0)
    else
      (Heap(
         Allocated(h.table, base, count, alloc | RESERVE, protect),
         h.unreserved - count,
         if alloc == RESERVE then h.host else HostCover(geo, h.host, base, count, ToPageAccess(protect))),
       Success, geo.base + base * geo.pageSize)
  }

  /** Placement of `count` pages in a scan range whose rounded upper end leaves room for them. */
  ghost function AllocInRange(geo: Geometry, h: Heap, s: Scan, count: nat, alloc: bv2, protect: bv4, topDown: bool,
                              hostOk: bool): (Heap, Outcome, nat)
    requires s.stride > 0
  {
    if TooBig(s, count) then (h, Failure, 0)
    else match BestFit(h.table, s.low, RoundDown(s.high, s.stride), s.stride, count, topDown)
      case Found(b) => PlaceWindow(geo, h, b, count, alloc, protect, hostOk)
      case _ => (h, Failure, 0)
  }

  /** What the search of `AllocRange` returns for any table and request. */
  ghost function WindowFound(t: Table, s: Scan, count: nat, topDown: bool): SearchResult
    requires s.stride > 0 && s.high < |t|
  {
    var high := RoundDown(s.high, s.stride);
    if TooBig(s, count) then NotFound
    else if count == 0 then EmptyWindow(t, s.low, high, s.stride, topDown)
    else if count <= high then
      if topDown then GreatestFit(t, s.low, high, s.stride, count, high) else UpwardFit(t, s.low, high, s.stride, count)
    else if topDown then OutOfTable
    else match UpwardFit(t, s.low, |t|, s.stride, count)
    case Found(b) => Found(b)
    case _ => OutOfTable
  }

  ghost function AllocSearched(geo: Geometry, h: Heap, s: Scan, count: nat, alloc: bv2, protect: bv4, topDown: bool,
                               hostOk: bool): (Heap, Outcome, nat)
    requires s.stride > 0 && s.high < |h.table|
  {
    match WindowFound(h.table, s, count, topDown)
    case Found(b) => PlaceWindow(geo, h, b, count, alloc, protect, hostOk)
    case NotFound => (h, Failure, 0)
    case OutOfTable => (h, OutOfBounds, 0)
  }

  /** A size that rounds to no page takes none, though the call may succeed with the address of a free
      page. */
  lemma NoPageNothingTaken(geo: Geometry, h: Heap, s: Scan, alloc: bv2, protect: bv4, topDown: bool, hostOk: bool)
    requires s.stride > 0 && s.high < |h.table|
    ensures var (h', r, address) := AllocSearched(geo, h, s, 0, alloc, protect, topDown, hostOk);
            && h' == h
            && (r == Success ==> exists b: nat :: 0 < b < |h.table| && !Taken(h.table, b)
                                                  && address == geo.base + b * geo.pageSize)
  {
    match WindowFound(h.table, s, 0, topDown)
    case Found(b) =>
      assert Allocated(h.table, b, 0, alloc | RESERVE, protect) == h.table;
      assert HostCover(geo, h.host, b, 0, ToPageAccess(protect)) == h.host;
    case _ =>
  }

  /** The search takes the best window there is when the rounded range has room for the request and an
      upward scan starts aligned. */
  lemma SearchIsBest(geo: Geometry, h: Heap, s: Scan, count: nat, alloc: bv2, protect: bv4, topDown: bool, hostOk: bool)
    requires s.stride > 0 && count > 0 && s.high < |h.table| && InBounds(s, count) && StartsAligned(s, count, topDown)
    ensures AllocSearched(geo, h, s, count, alloc, protect, topDown, hostOk) == AllocInRange(geo, h, s, count, alloc,
        protect, topDown, hostOk)
  {
    var high := RoundDown(s.high, s.stride);
    if s.low + count > high {
      NoRoomUpward(h.table, s.low, high, s.stride, count);
    }
  }

  // ---- the other operations -----------------------------------------------------------------

  /** Start and length of the run of pages that `Decommit` works on: both ends are clamped into the table.
      A size that wraps to no page at all makes the last page number wrap in front of page 0. */
  function DecommitSpan(pages: nat, first: nat, count: nat): (span: (nat, nat))
    requires pages > 0
    ensures span.0 + span.1 <= pages
  {
    var start := Min(pages - 1, first);
    var end := Min(pages - 1, if first + count == 0 then U32 - 1 else first + count - 1);
    (start, if start <= end then end + 1 - start else 0)
  }

  function DecommitPages(h: Heap, first: nat, count: nat): Heap
    requires |h.table| > 0
  {
    var (start, length) := DecommitSpan(|h.table|, first, count);
    h.(table := Decommitted(h.table, start, length))
  }

  /** `Release` of the region that starts at page `page`. The region of a free page 0 has no
      pages, and the last page number then wraps. */
  function ReleasePages(geo: Geometry, h: Heap, page: nat, protectOnRelease: bool): (Heap, Outcome)
    requires geo.Valid() && h.Fits(geo) && page < |h.table|
  {
    var e := h.table[page];
    if e.baseAddress != page then (h, Failure)
    else if geo.base == 0 && page == 0 then (h, Failure)
    else if page == 0 && e.regionPageCount == 0 then (h, OutOfBounds)
    else
      (Heap(
         Released(h.table, page, e.regionPageCount),
         h.unreserved + e.regionPageCount,
         if protectOnRelease then HostCover(geo, h.host, page, e.regionPageCount, NoAccess) else h.host),
       Success)
  }

  /** `Protect` accepts only committed pages of one region. */
  ghost predicate Protectable(t: Table, first: nat, last: nat)
  {
    && first <= last < |t|
    && forall i :: first <= i <= last ==> t[i].baseAddress == t[first].baseAddress && t[i].state & COMMIT != 0
  }

  ghost function ProtectPages(geo: Geometry, h: Heap, first: nat, last: nat, protect: bv4,
                              hostOk: bool): (Heap, Outcome)
    requires geo.Valid() && h.Fits(geo)
  {
    if !Protectable(h.table, first, last) || !hostOk then (h, Failure)
    else
      (h.(table := Protected(h.table, first, last + 1 - first, protect),
          host := HostCover(geo, h.host, first, last + 1 - first, ToPageAccess(protect))),
       Success)
  }

  /** The first and the last page `Protect` works on; the last one is computed on 64 bits. */
  function ProtectRange(geo: Geometry, address: u32, size: u32): (nat, nat)
    requires geo.Valid()
  {
    (geo.PageOf(address), if address + size - 1 >= geo.base then Quotient(address + size - 1 - geo.base, geo.pageSize)
     else 0)
  }

  /** `Protect` of a byte range; one that is empty or leaves the table is refused. */
  ghost function ProtectBytes(geo: Geometry, h: Heap, address: u32, size: u32, protect: bv4,
                              hostOk: bool): (Heap, Outcome)
    requires geo.Valid() && h.Fits(geo)
  {
    var (first, last) := ProtectRange(geo, address, size);
    if size == 0 || first >= |h.table| || last >= |h.table| then (h, Failure)
    else ProtectPages(geo, h, first, last, protect, hostOk)
  }

  /** An address with a page number inside the table is not below the heap: below it the
      subtraction wraps, and no heap reaches past 4 GB. */
  lemma InsideAboveBase(geo: Geometry, address: u32)
    requires geo.Valid() && geo.PageOf(address) < geo.Pages()
    ensures geo.base <= address < geo.base + geo.size
  {
    if !(geo.base <= address < geo.base + geo.size) {
      DivisionMonotone(geo.size, Sub32(address, geo.base), geo.pageSize);
    }
  }

  lemma ProtectRangeOrdered(geo: Geometry, address: u32, size: u32)
    requires geo.Valid() && size > 0 && geo.PageOf(address) < geo.Pages()
    ensures ProtectRange(geo, address, size).0 <= ProtectRange(geo, address, size).1
  {
    InsideAboveBase(geo, address);
    DivisionMonotone(address - geo.base, address + size - 1 - geo.base, geo.pageSize);
  }

  /** The upward scan starts aligned in every heap whose first address is aligned. */
  lemma AlignedBaseStartsAligned(geo: Geometry, lowAddress: u32, highAddress: u32, alignment: u32, count: nat,
                                 topDown: bool)
    requires geo.Valid() && GoodAlignment(geo, alignment) && geo.base % RoundUp(alignment, geo.pageSize) == 0
             && count > 0
    ensures StartsAligned(ScanRange(geo, lowAddress, highAddress, alignment), count, topDown)
  {
    var a := RoundUp(alignment, geo.pageSize);
    RoundUpCovers(alignment, geo.pageSize);
    var s := ScanRange(geo, lowAddress, highAddress, alignment);
    var low := Max(geo.base, Align(lowAddress, a));
    if geo.PageOf(low) < geo.Pages() {
      MultiplesSubtract(low, geo.base, a);
      QuotientIsDivision(low - geo.base, geo.pageSize);
      QuotientIsDivision(a, geo.pageSize);
      MultipleOfMultiple(low - geo.base, a, geo.pageSize);
      ModOfMultiple((low - geo.base) / a, a / geo.pageSize);
    }
  }

  /** No request spans more pages, and no stride is longer, than there are 4 KB pages in 4 GB. */
  lemma ScanBounds(geo: Geometry, lowAddress: u32, highAddress: u32, alignment: u32, size: u32)
    requires geo.Valid() && GoodAlignment(geo, alignment)
    ensures ScanRange(geo, lowAddress, highAddress, alignment).stride <= 0x10_0000
    ensures PageCount(size, geo.pageSize) <= 0x10_0000
  {
    PagesBelow(RoundUp(alignment, geo.pageSize), geo.pageSize);
    PagesBelow(RoundUp(size, geo.pageSize), geo.pageSize);
  }

  /** Page numbers and page counts are far from wrapping. */
  lemma FewPages(geo: Geometry, address: u32, size: u32)
    requires geo.Valid()
    ensures geo.PageOf(address) <= 0x10_0000 && PageCount(size, geo.pageSize) <= 0x10_0000
  {
    PagesBelow(Sub32(address, geo.base), geo.pageSize);
    PagesBelow(RoundUp(size, geo.pageSize), geo.pageSize);
  }

  lemma PagesBelow(v: u32, pageSize: u32)
    requires pageSize >= SYSTEM_PAGE
    ensures Quotient(v, pageSize) <= 0x10_0000
  {
    QuotientIsDivision(v, pageSize);
    var q := v / pageSize;
    assert v == pageSize * q + v % pageSize;
    MulOrder(SYSTEM_PAGE, pageSize, q);
  }
}
