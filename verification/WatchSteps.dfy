/** What each call on a physical view (src/xenia/memory.cc:1512-2014) does to its watch bits, over the
    same runs as in `ViewSteps`: addresses are bytes, and parent and host may refuse. */
module WatchSteps {
  import opened Arith
  import opened PageTable
  import opened HeapSpec
  import opened Coupling
  import opened UnwatchRange
  import opened PhysicalMemory
  import opened ViewRuns
  import opened ViewCalls
  import opened WriteWatch
  import opened MachineRuns
  import opened ViewSteps
  import HeapRuns

  /** In every view the host pages agree with the bits. */
  ghost predicate Watching(geos: seq<Geometry>, m: Memory) {
    |m.own| == |geos| && |m.bits| == |geos| && forall v :: 0 <= v < |geos| ==> InStep(geos[v], m.own[v], m.bits[v])
  }

  // ---- placement ------------------------------------------------------------------------------

  /** A page under guest pages [page, page + count) is being watched. */
  ghost predicate WatchedIn(geo: Geometry, h: Heap, w: Bits, page: nat, count: nat)
    requires Shape(geo, h, w)
  {
    exists i :: geo.Shift() <= i < |h.host| && w[i] && page <= GuestPage(geo, i) < page + count
  }

  /** Placement must not commit, for writing, a page that is being watched. */
  ghost predicate PlaceWatchKeeps(geo: Geometry, h: Heap, w: Bits, page: nat, count: nat, alloc: bv2, protect: bv4)
    requires Shape(geo, h, w)
  {
    !(FixedAllocType(h.table, page, count, alloc) & COMMIT != 0 && ToPageAccess(protect) == ReadWrite
      && WatchedIn(geo, h, w, page, count))
  }

  lemma FreePagesUnwatched(geo: Geometry, h: Heap, w: Bits, page: nat, count: nat)
    requires InStep(geo, h, w) && AllFree(h.table, page, count)
    ensures !WatchedIn(geo, h, w, page, count)
  {
    forall i | geo.Shift() <= i < |h.host| && w[i]
      ensures !(page <= GuestPage(geo, i) < page + count)
    {
      assert PageInStep(geo, h, w, i);
    }
  }

  ghost predicate FixedWatchKeeps(geo: Geometry, parent: Table, own: Heap, w: Bits, page: nat, count: nat, alloc: bv2,
                                  protect: bv4, parentOk: bool, hostOk: bool)
    requires Shape(geo, own, w)
  {
    var x := Under(MapOf(geo), page, count);
    Accepts(parent, x.first, x.count, alloc, parentOk) && Accepts(own.table, page, count, alloc, hostOk) ==>
      PlaceWatchKeeps(geo, own, w, page, count, alloc, protect)
  }

  lemma FixedWatchExactly(geo: Geometry, parent: Heap, own: Heap, w: Bits, page: nat, base: u32, size: u32,
                          alignment: u32, alloc: bv2, protect: bv4, parentOk: bool, hostOk: bool)
    requires ViewOk(geo) && InStep(geo, own, w) && HeapRuns.Inv(own) && parent.Fits(PARENT_GEOMETRY)
    requires IsRequest(geo, size, alignment, alloc) && page < geo.Pages() && base == geo.base + page * geo.pageSize
    ensures var count := FixedPageCount(geo, RoundUp(size, geo.pageSize), RoundUp(alignment, geo.pageSize));
            var o := ViewAllocFixed(geo, parent, own, base, size, alignment, alloc, protect, parentOk, hostOk).1;
            InStep(geo, o, w)
            <==> FixedWatchKeeps(geo, parent.table, own, w, page, count, alloc, protect, parentOk, hostOk)
  {
    hide RoundUp, FixedPageCount, PageCount, Quotient, ViewAllocFixed, AllocPages, Accepts, FixedAllocType, PageInStep,
      HeapRuns.Inv, Mapped;
    var count := FixedPageCount(geo, RoundUp(size, geo.pageSize), RoundUp(alignment, geo.pageSize));
    FixedByPages(geo, parent, own, page, base, size, alignment, alloc, protect, parentOk, hostOk);
    var x := Under(MapOf(geo), page, count);
    AcceptsExactly(PARENT_GEOMETRY, parent, x.first, x.count, alloc, protect, parentOk);
    AcceptsExactly(geo, own, page, count, alloc, protect, hostOk);
    AllocViewExactly(geo, own, w, page, count, alloc, protect, hostOk);
  }

  /** The pages of the view over a window of the parent are free. */
  lemma WindowIsFree(maps: seq<ViewMap>, s: Machine, v: nat, geo: Geometry, parent: Heap, own: Heap, low: u32,
                     high: u32, size: u32, alignment: u32, alloc: bv2, protect: bv4, topDown: bool, parentOk: bool,
                     hostOk: bool)
    requires Through(maps, s, v, geo, parent, own) && IsRequest(geo, size, alignment, alloc)
    requires InBounds(ViewScan(geo, low, high, alignment), PageCount(RoundUp(size, geo.pageSize), SYSTEM_PAGE))
    requires RoundUp(size, geo.pageSize) % RoundUp(alignment, geo.pageSize) == 0
    requires ViewAllocRange(geo, parent, own, low, high, size, alignment, alloc, protect, topDown, parentOk, hostOk).2
             == Success
    ensures PageCount(RoundUp(size, geo.pageSize), SYSTEM_PAGE) > 0
            && ViewScan(geo, low, high, alignment).high < |parent.table|
    ensures var count := FixedPageCount(geo, RoundUp(size, geo.pageSize), RoundUp(alignment, geo.pageSize));
            var (_, pr, pa) := AllocSearched(PARENT_GEOMETRY, parent, ViewScan(geo, low, high, alignment),
                                             PageCount(RoundUp(size, geo.pageSize), SYSTEM_PAGE), alloc, protect,
                                             topDown, parentOk);
            pr == Success && AllFree(own.table, geo.PageOf(ViewAddress(geo, pa % U32)), count)
  {
    hide Allocated, FixedAllocType, Quotient, RoundUp, PageCount, FixedPageCount, AllocSearched, AllocInRange,
      ScanRange, Pinned, CountFree, AllFree, ViewAddress, WellFormed, Coupled, Apart;
    var scan, n := ViewScan(geo, low, high, alignment), PageCount(RoundUp(size, geo.pageSize), SYSTEM_PAGE);
    var count := FixedPageCount(geo, RoundUp(size, geo.pageSize), RoundUp(alignment, geo.pageSize));
    BytesInParent(geo, size);
    ParentAnswers(geo, parent, low, high, size, alignment, alloc, protect, topDown, parentOk);
    var first := GivenWindow(geo, parent, low, high, size, alignment, alloc, protect, topDown, parentOk);
    var b := ParentPage(maps[v], first);
    PinnedExactly(geo, own, first, b, size, alignment, alloc, protect, hostOk);
    ExtentsAgreeExactly(geo, size, alignment);
    PinPage(geo, first, b);
    FreeBelowIsFreeAbove(s.parent, s.views[v], maps[v], first, count);
  }

  /** Placement in a range that keeps the coupling keeps the bits in step: what it places was free. */
  lemma RangeWatchKeeps(maps: seq<ViewMap>, s: Machine, v: nat, geo: Geometry, parent: Heap, own: Heap, w: Bits,
                        low: u32, high: u32, size: u32, alignment: u32, alloc: bv2, protect: bv4, topDown: bool,
                        parentOk: bool, hostOk: bool)
    requires Through(maps, s, v, geo, parent, own) && IsRequest(geo, size, alignment, alloc) && InStep(geo, own, w)
    requires InBounds(ViewScan(geo, low, high, alignment), PageCount(RoundUp(size, geo.pageSize), SYSTEM_PAGE))
    requires RangeCallKeeps(geo, s.parent, s.views[v], low, high, size, alignment, alloc, topDown, parentOk, hostOk)
    ensures var o := ViewAllocRange(geo, parent, own, low, high, size, alignment, alloc, protect, topDown, parentOk,
                                    hostOk).1;
            InStep(geo, o, w)
  {
    hide RoundUp, PageCount, FixedPageCount, ViewScan, AllocSearched, AllocPages, Quotient, Consistent, RangeCallKeeps,
      ViewAddress, HeapRuns.Inv, PageInStep, AllFree, FixedAllocType, Mapped;
    RangeCondition(geo, parent, own, low, high, size, alignment, alloc, protect, topDown, parentOk, hostOk);
    BytesInParent(geo, size);
    ParentAnswers(geo, parent, low, high, size, alignment, alloc, protect, topDown, parentOk);
    var (_, pr, pa) := AllocSearched(PARENT_GEOMETRY, parent, ViewScan(geo, low, high, alignment),
                                     PageCount(RoundUp(size, geo.pageSize), SYSTEM_PAGE), alloc, protect, topDown,
                                     parentOk);
    if pr == Success {
      var count := FixedPageCount(geo, RoundUp(size, geo.pageSize), RoundUp(alignment, geo.pageSize));
      var page := geo.PageOf(ViewAddress(geo, pa % U32));
      AcceptsExactly(geo, own, page, count, alloc, protect, hostOk);
      if AllocPages(geo, own, page, count, alloc, protect, hostOk).1 == Success {
        WindowIsFree(maps, s, v, geo, parent, own, low, high, size, alignment, alloc, protect, topDown, parentOk,
                     hostOk);
        FreePagesUnwatched(geo, own, w, page, count);
        AllocViewExactly(geo, own, w, page, count, alloc, protect, hostOk);
      }
    }
  }

  // ---- unwatching -----------------------------------------------------------------------------

  /** Bits that are only taken away must not belong to a page that the guest may write. */
  ghost predicate TakeKeeps(geo: Geometry, h: Heap, w: Bits, address: u32, length: u32)
    requires Shape(geo, h, w) && ViewGeometry(geo) && SystemPageCount(geo) == |h.host|
  {
    match ClipTo(geo.base, geo.size, address, length)
    case Outside => true
    case Inside(rel, n) =>
      HostPagesInHeap(geo, rel, n);
      !WatchedWriter(geo, h, w, HostPages(geo, rel, n).first, HostPages(geo, rel, n).last)
  }

  lemma TriggerWatchExactly(geo: Geometry, h: Heap, w: Bits, address: u32, length: u32, exact: bool, unprotect: bool,
                            answers: seq<Answer>)
    requires InStep(geo, h, w) && ViewGeometry(geo) && SystemPageCount(geo) == |h.host|
    ensures var t := TriggeredAt(geo, h, w, address, length, exact, unprotect, answers);
            InStep(geo, t.0, t.1) <==> unprotect || TakeKeeps(geo, h, w, address, length)
  {
    hide PageInStep, Widened, WatchedWriter, Mapped;
    match ClipTo(geo.base, geo.size, address, length)
    case Outside =>
    case Inside(rel, n) =>
      WidenedContains(geo, rel, n, answers);
      var r := HostPages(geo, rel, n);
      if unprotect {
        var (from, to) := if !exact then Widened(geo, r, answers) else (r.first, r.last);
        TriggerKeeps(geo, h, w, r.first, r.last, from, to);
      } else {
        RefusedProtectExactly(geo, h, w, r.first, r.last, 0, 0, PROTECT_READ | PROTECT_WRITE, false, false);
      }
  }

  lemma EnableWatchKeeps(geo: Geometry, h: Heap, w: Bits, address: u32, length: u32)
    requires InStep(geo, h, w) && HeapRuns.Inv(h) && ViewGeometry(geo) && SystemPageCount(geo) == |h.host|
    ensures var t := EnabledAt(geo, h, w, address, length); InStep(geo, t.0, t.1)
  {
    hide PageInStep, Mapped;
    match ClipTo(PhysicalOffset(geo), geo.size, address, length)
    case Outside =>
    case Inside(rel, n) =>
      HostPagesInHeap(geo, rel, n);
      EnableKeeps(geo, h, w, HostPages(geo, rel, n).first, HostPages(geo, rel, n).last);
  }

  // ---- decommit and release -------------------------------------------------------------------

  lemma DecommitWatchKeeps(geo: Geometry, parent: Heap, own: Heap, w: Bits, address: u32, size: u32)
    requires InStep(geo, own, w) && HeapRuns.Inv(own) && ViewGeometry(geo) && SystemPageCount(geo) == |own.host|
    requires 0 < |parent.table|
    ensures var r := ViewDecommit(geo, parent, own, w, address, size); InStep(geo, r.1, r.2)
  {
    hide TriggeredAt, DecommitPages, PageCount, InStep, HeapRuns.Inv, Quotient;
    assert Shape(geo, own, w) by { ShapeOf(geo, own, w); }
    TriggerWatchExactly(geo, own, w, address, size, true, true, []);
    TriggeredTable(geo, own, w, address, size, true, true, []);
    var t := TriggeredAt(geo, own, w, address, size, true, true, []);
    OwnTriggered(own, t.0);
    DecommitInStep(geo, t.0, t.1, geo.PageOf(address), PageCount(size, geo.pageSize));
  }

  lemma ShapeOf(geo: Geometry, h: Heap, w: Bits)
    requires InStep(geo, h, w)
    ensures Shape(geo, h, w)
  {
  }

  /** A page at which no region of the heap starts cannot be released. */
  lemma NoStartRefused(geo: Geometry, h: Heap, page: nat, protectOnRelease: bool)
    requires geo.Valid() && h.Fits(geo) && HeapRuns.Inv(h) && page < |h.table|
    requires !IsRegionStart(Machine([], [h.table]), 0, page)
    ensures ReleasePages(geo, h, page, protectOnRelease).0 == h
  {
    HeapRuns.ReleaseStep(geo, h, page, protectOnRelease);
  }

  lemma ReleaseWatchKeeps(geo: Geometry, parent: Heap, own: Heap, w: Bits, page: nat, base: u32, protectOnRelease: bool)
    requires ViewOk(geo) && InStep(geo, own, w) && HeapRuns.Inv(own) && SystemPageCount(geo) == |own.host|
    requires parent.Fits(PARENT_GEOMETRY) && page < |own.table| && IsPageAddress(geo, page, base)
    requires ParentPage(MapOf(geo), page) < |parent.table|
    ensures var r := PhysicalMemory.ViewRelease(geo, parent, own, w, base, protectOnRelease); InStep(geo, r.1, r.2)
  {
    hide TriggeredAt, ReleasePages, Quotient, SystemPageCount, PageInStep, Mapped, Triggered;
    if IsRegionStart(Machine([], [own.table]), 0, page) {
      RegionReleased(geo, parent, own, w, page, base, protectOnRelease);
    } else {
      var length := own.table[page].regionPageCount * geo.pageSize % U32;
      TriggerWatchExactly(geo, own, w, base, length, true, true, []);
      TriggeredTable(geo, own, w, base, length, true, true, []);
      var t := TriggeredAt(geo, own, w, base, length, true, true, []);
      NoStartRefused(geo, t.0, page, protectOnRelease);
    }
  }

  lemma RegionReleased(geo: Geometry, parent: Heap, own: Heap, w: Bits, page: nat, base: u32, protectOnRelease: bool)
    requires ViewOk(geo) && InStep(geo, own, w) && HeapRuns.Inv(own) && SystemPageCount(geo) == |own.host|
    requires parent.Fits(PARENT_GEOMETRY) && IsPageAddress(geo, page, base)
    requires IsRegionStart(Machine([], [own.table]), 0, page) && ParentPage(MapOf(geo), page) < |parent.table|
    ensures var r := PhysicalMemory.ViewRelease(geo, parent, own, w, base, protectOnRelease); InStep(geo, r.1, r.2)
  {
    hide Quotient, SystemPageCount, PageInStep, Mapped, ReleasePages, Triggered, TriggeredAt,
      PhysicalMemory.ViewRelease,
      IsPageAddress;
    var count := own.table[page].regionPageCount;
    assert PageOk(own.table, page);
    ScaleFacts(geo);
    var first, last := CoverExists(geo, page, count, |own.host|);
    ReleaseByPages(geo, parent, own, w, page, base, protectOnRelease, first, last);
    ReleaseViewKeeps(geo, own, w, first, last, page, protectOnRelease);
  }

  // ---- protect --------------------------------------------------------------------------------

  /** Which protection changes a heap agrees to. */
  ghost predicate AcceptsProtect(geo: Geometry, t: Table, address: u32, size: u32, hostOk: bool)
    requires geo.Valid()
  {
    var (first, last) := ProtectRange(geo, address, size);
    size != 0 && Protectable(t, first, last) && hostOk
  }

  lemma AcceptsProtectExactly(geo: Geometry, h: Heap, address: u32, size: u32, protect: bv4, hostOk: bool)
    requires geo.Valid() && h.Fits(geo)
    ensures var (h', r) := ProtectBytes(geo, h, address, size, protect, hostOk);
            && (r == Success <==> AcceptsProtect(geo, h.table, address, size, hostOk)) && (r != Success ==> h' == h)
  {
    hide ProtectRange;
  }

  /** The host pages of bytes of the view lie under the guest pages of these bytes. */
  lemma HostPagesUnder(geo: Geometry, address: u32, size: u32)
    requires ViewGeometry(geo) && size > 0
    requires ProtectRange(geo, address, size).0 < geo.Pages() && ProtectRange(geo, address, size).1 < geo.Pages()
    ensures geo.base <= address && ClipTo(geo.base, geo.size, address, size) == Inside(address - geo.base, size)
    ensures var r := HostPages(geo, address - geo.base, size);
            var (page, endPage) := ProtectRange(geo, address, size);
            forall i :: r.first <= i <= r.last ==> page <= GuestPage(geo, i) <= endPage
  {
    InsideAboveBase(geo, address);
    var rel := address - geo.base;
    assert Sub32(address, geo.base) == rel;
    EndInside(geo, rel + size - 1);
    var r := HostPages(geo, rel, size);
    HostPagesInHeap(geo, rel, size);
    var (page, endPage) := ProtectRange(geo, address, size);
    ScaleFacts(geo);
    forall i | r.first <= i <= r.last
      ensures page <= GuestPage(geo, i) <= endPage
    {
      GuestPageAtLeast(geo, rel, i);
      GuestPageAtMost(geo, rel + size - 1, i);
    }
  }

  lemma EndInside(geo: Geometry, last: nat)
    requires geo.Valid() && Quotient(last, geo.pageSize) < geo.Pages()
    ensures last < geo.size
  {
    QuotientAtLeast(last, geo.pageSize, geo.Pages());
    QuotientIsDivision(geo.size, geo.pageSize);
  }

  lemma GuestPageAtLeast(geo: Geometry, byte: nat, i: nat)
    requires geo.Valid() && (byte + geo.hostOffset) / SYSTEM_PAGE <= i && geo.Shift() <= i
    ensures Quotient(byte, geo.pageSize) <= GuestPage(geo, i)
  {
    GuestPageIsQuotient(geo, i);
    ScaleFacts(geo);
    var q := Quotient(byte, geo.pageSize);
    QuotientAtLeast(byte, geo.pageSize, q);
    ScaledPages(geo, q);
    QuotientAtLeast(i - geo.Shift(), geo.Scale(), q);
  }

  lemma GuestPageAtMost(geo: Geometry, byte: nat, i: nat)
    requires geo.Valid() && i <= (byte + geo.hostOffset) / SYSTEM_PAGE && geo.Shift() <= i
    ensures GuestPage(geo, i) <= Quotient(byte, geo.pageSize)
  {
    GuestPageIsQuotient(geo, i);
    ScaleFacts(geo);
    var g := GuestPage(geo, i);
    QuotientAtLeast(i - geo.Shift(), geo.Scale(), g);
    ScaledPages(geo, g);
    QuotientAtLeast(byte, geo.pageSize, g);
  }

  /** When parent and view agree to the change, no page that becomes writable may be watched outside of
      the bytes; when one of them refuses, the bits that were taken must not belong to a page that the
      guest may write. */
  ghost predicate ProtectWatchKeeps(geo: Geometry, parent: Table, own: Heap, w: Bits, address: u32, size: u32,
                                    protect: bv4, parentOk: bool, hostOk: bool)
    requires Shape(geo, own, w) && ViewGeometry(geo) && SystemPageCount(geo) == |own.host|
  {
    if AcceptsProtect(PARENT_GEOMETRY, parent, Physical(geo, address), size, parentOk)
       && AcceptsProtect(geo, own.table, address, size, hostOk)
    then
      var (page, endPage) := ProtectRange(geo, address, size);
      HostPagesUnder(geo, address, size);
      var r := HostPages(geo, address - geo.base, size);
      ToPageAccess(protect) == ReadWrite ==> !WatchedBeyond(geo, own, w, page, endPage + 1 - page, r.first, r.last)
    else protect & PROTECT_WRITE != 0 ==> TakeKeeps(geo, own, w, address, size)
  }

  lemma ProtectWatchExactly(geo: Geometry, parent: Heap, own: Heap, w: Bits, address: u32, size: u32, protect: bv4,
                            parentOk: bool, hostOk: bool)
    requires ViewOk(geo) && InStep(geo, own, w) && SystemPageCount(geo) == |own.host|
    requires parent.Fits(PARENT_GEOMETRY)
    ensures var r := ViewProtect(geo, parent, own, w, address, size, protect, parentOk, hostOk);
            InStep(geo, r.1, r.2)
            <==> ProtectWatchKeeps(geo, parent.table, own, w, address, size, protect, parentOk, hostOk)
  {
    hide PageInStep, Mapped, TriggeredAt, AcceptsProtect, ProtectBytes, SystemPageCount, Quotient;
    AcceptsProtectExactly(PARENT_GEOMETRY, parent, Physical(geo, address), size, protect, parentOk);
    AcceptsProtectExactly(geo, own, address, size, protect, hostOk);
    if AcceptsProtect(PARENT_GEOMETRY, parent.table, Physical(geo, address), size, parentOk)
       && AcceptsProtect(geo, own.table, address, size, hostOk) {
      ProtectAgreed(geo, parent, own, w, address, size, protect, parentOk, hostOk);
    } else if protect & PROTECT_WRITE != 0 {
      TriggerWatchExactly(geo, own, w, address, size, true, false, []);
      TakenTable(geo, own, w, address, size);
    }
  }

  /** Without the unprotecting the host pages stay as they are. */
  lemma TakenTable(geo: Geometry, h: Heap, w: Bits, address: u32, length: u32)
    requires Shape(geo, h, w) && ViewGeometry(geo) && SystemPageCount(geo) == |h.host|
    ensures TriggeredAt(geo, h, w, address, length, true, false, []).0 == h
  {
  }

  lemma ProtectAgreed(geo: Geometry, parent: Heap, own: Heap, w: Bits, address: u32, size: u32, protect: bv4,
                      parentOk: bool, hostOk: bool)
    requires ViewOk(geo) && InStep(geo, own, w) && SystemPageCount(geo) == |own.host| && parent.Fits(PARENT_GEOMETRY)
    requires AcceptsProtect(PARENT_GEOMETRY, parent.table, Physical(geo, address), size, parentOk)
    requires AcceptsProtect(geo, own.table, address, size, hostOk)
    ensures var r := ViewProtect(geo, parent, own, w, address, size, protect, parentOk, hostOk);
            InStep(geo, r.1, r.2)
            <==> ProtectWatchKeeps(geo, parent.table, own, w, address, size, protect, parentOk, hostOk)
  {
    hide PageInStep, Mapped, TriggeredAt, SystemPageCount, Quotient, ProtectBytes, HostPages, ProtectedView,
      ViewProtect;
    AcceptsProtectExactly(PARENT_GEOMETRY, parent, Physical(geo, address), size, protect, parentOk);
    var (page, endPage) := ProtectRange(geo, address, size);
    HostPagesUnder(geo, address, size);
    ProtectByPages(geo, parent, own, w, address, size, protect, parentOk, hostOk);
    var r := HostPages(geo, address - geo.base, size);
    ProtectViewExactly(geo, own, w, r.first, r.last, page, endPage, protect);
  }

  // ---- every call -----------------------------------------------------------------------------

  /** Which of the calls that keep parent and views coupled also keep the bits in step. */
  ghost predicate WatchKeeps(geos: seq<Geometry>, m: Memory, c: ViewCall)
    requires Sound(geos, m) && Callable(geos, c)
  {
    var geo, own, w := geos[c.v], m.own[c.v], m.bits[c.v];
    assert ViewSound(geo, own, w);
    match c
    case Fixed(_, page, size, alignment, alloc, protect, parentOk, hostOk) =>
      FixedWatchKeeps(geo, m.parent.table, own, w, page,
                      FixedPageCount(geo, RoundUp(size, geo.pageSize), RoundUp(alignment, geo.pageSize)), alloc,
                        protect,
                      parentOk, hostOk)
    case Protect(_, address, size, protect, parentOk, hostOk) =>
      ProtectWatchKeeps(geo, m.parent.table, own, w, address, size, protect, parentOk, hostOk)
    case Trigger(_, address, length, _, unprotect, _) => unprotect || TakeKeeps(geo, own, w, address, length)
    case _ => true
  }

  lemma CalledWatch(geos: seq<Geometry>, m: Memory, c: ViewCall)
    requires Sound(geos, m) && Watching(geos, m) && Callable(geos, c) && Keeps(geos, m, c)
    ensures var r := Called(geos, m, c); InStep(geos[c.v], r.1, r.2) <==> WatchKeeps(geos, m, c)
  {
    hide ViewAllocFixed, ViewAllocRange, PhysicalMemory.ViewRelease, ViewDecommit, ViewProtect, EnabledAt, TriggeredAt,
      Consistent, InStep, Shape, RoundUp, PageCount, FixedPageCount, Quotient, ViewScan, RangeCallKeeps, FixedCallKeeps,
      ReleaseCallKeeps, FixedWatchKeeps, ProtectWatchKeeps, TakeKeeps, HeapRuns.Inv, SystemPageCount, IsPageAddress;
    MemoryThrough(geos, m, c.v);
    var maps, s := MapsOf(geos), m.Tables();
    var geo, own, w := geos[c.v], m.own[c.v], m.bits[c.v];
    match c
    case Fixed(_, page, size, alignment, alloc, protect, parentOk, hostOk) =>
      FixedWatchExactly(geo, m.parent, own, w, page, AddressOf(geo, page), size, alignment, alloc, protect, parentOk,
                        hostOk);
    case Range(v, low, high, size, alignment, alloc, protect, topDown, parentOk, hostOk) =>
      RangeWatchKeeps(maps, s, v, geo, m.parent, own, w, low, high, size, alignment, alloc, protect, topDown, parentOk,
                      hostOk);
    case Release(_, page, protectOnRelease) =>
      PageUnder(geo, page);
      ReleaseWatchKeeps(geo, m.parent, own, w, page, AddressOf(geo, page), protectOnRelease);
    case Decommit(_, address, size) =>
      ParentPages();
      DecommitWatchKeeps(geo, m.parent, own, w, address, size);
    case Protect(_, address, size, protect, parentOk, hostOk) =>
      ProtectWatchExactly(geo, m.parent, own, w, address, size, protect, parentOk, hostOk);
    case Watch(_, address, length) => EnableWatchKeeps(geo, own, w, address, length);
    case Trigger(_, address, length, exact, unprotect, answers) =>
      TriggerWatchExactly(geo, own, w, address, length, exact, unprotect, answers);
  }

  /** A call that keeps the coupling leaves host pages and bits of all views in step exactly under
      `WatchKeeps`. */
  lemma WatchExactly(geos: seq<Geometry>, m: Memory, c: ViewCall)
    requires Sound(geos, m) && Watching(geos, m) && Callable(geos, c) && Keeps(geos, m, c)
    ensures Watching(geos, After(geos, m, c)) <==> WatchKeeps(geos, m, c)
  {
    hide Called, Keeps, WatchKeeps, InStep, Sound;
    assert |m.own| == |geos| == |m.bits| && c.v < |geos| by { assert Watching(geos, m); }
    CalledWatch(geos, m, c);
    var r, m' := Called(geos, m, c), After(geos, m, c);
    assert m'.own[c.v] == r.1 && m'.bits[c.v] == r.2;
  }

  // ---- every run ------------------------------------------------------------------------------

  ghost predicate WatchedRun(geos: seq<Geometry>, m: Memory, calls: seq<ViewCall>)
    decreases |calls|
  {
    calls != [] ==>
      && Sound(geos, m) && Callable(geos, calls[0]) && Keeps(geos, m, calls[0]) && WatchKeeps(geos, m, calls[0])
      && WatchedRun(geos, After(geos, m, calls[0]), calls[1..])
  }

  lemma {:induction false} WatchedRunIsKept(geos: seq<Geometry>, m: Memory, calls: seq<ViewCall>)
    requires WatchedRun(geos, m, calls)
    ensures KeptRun(geos, m, calls)
    decreases |calls|
  {
    hide Sound, Keeps, WatchKeeps, Callable, After;
    if calls != [] {
      WatchedRunIsKept(geos, After(geos, m, calls[0]), calls[1..]);
    }
  }

  lemma {:induction false} EveryRunWatched(geos: seq<Geometry>, m: Memory, calls: seq<ViewCall>)
    requires Sound(geos, m) && Watching(geos, m) && WatchedRun(geos, m, calls)
    ensures KeptRun(geos, m, calls) && Sound(geos, ViewSteps.RunOf(geos, m, calls))
    ensures Watching(geos, ViewSteps.RunOf(geos, m, calls))
    decreases |calls|
  {
    hide Sound, Keeps, WatchKeeps, Callable, After, Watching;
    WatchedRunIsKept(geos, m, calls);
    if calls != [] {
      CallExactly(geos, m, calls[0]);
      WatchExactly(geos, m, calls[0]);
      EveryRunWatched(geos, After(geos, m, calls[0]), calls[1..]);
    }
  }

  /** After every such run, through all views, the host page of a committed page that the guest may write
      is writable exactly when its bit is clear, and free pages carry no bit. */
  lemma EveryViewIsSafe(geos: seq<Geometry>, m: Memory, calls: seq<ViewCall>, v: nat, i: nat)
    requires Sound(geos, m) && Watching(geos, m) && WatchedRun(geos, m, calls) && v < |geos|
    ensures KeptRun(geos, m, calls) && v < |ViewSteps.RunOf(geos, m, calls).own|
    ensures var end := ViewSteps.RunOf(geos, m, calls);
            geos[v].Shift() <= i < |end.own[v].host| ==>
              && geos[v].pageSize > 0 && GuestPage(geos[v], i) < |end.own[v].table|
              && v < |end.bits| && i < |end.bits[v]|
              && var e := end.own[v].table[GuestPage(geos[v], i)];
                 && (e.state & COMMIT != 0 && ToPageAccess(e.currentProtect) == ReadWrite ==>
                       (end.own[v].host[i] == ReadWrite <==> !end.bits[v][i]))
                 && (e.state == 0 ==> !end.bits[v][i])
  {
    hide Sound, WatchedRun, KeptRun;
    EveryRunWatched(geos, m, calls);
    var end := ViewSteps.RunOf(geos, m, calls);
    assert InStep(geos[v], end.own[v], end.bits[v]);
    if geos[v].Shift() <= i < |end.own[v].host| {
      assert PageInStep(geos[v], end.own[v], end.bits[v], i);
    }
  }

  /** Empty heaps are in step. */
  lemma EmptyInStep(geo: Geometry, h: Heap, w: Bits)
    requires Shape(geo, h, w) && AllEmpty(h.table) && forall i :: 0 <= i < |w| ==> !w[i]
    ensures InStep(geo, h, w)
  {
    forall i | geo.Shift() <= i < |h.host|
      ensures PageInStep(geo, h, w, i)
    {
      assert h.table[GuestPage(geo, i)] == FREE_ENTRY;
    }
  }

  lemma EmptyWatching(geos: seq<Geometry>)
    requires forall v :: 0 <= v < |geos| ==> geos[v].pageSize > 0 && ViewOk(geos[v])
    ensures Watching(geos, EmptyMemory(geos))
  {
    hide InStep, SystemPageCount, EmptyHeap;
    forall v | 0 <= v < |geos|
      ensures InStep(geos[v], EmptyMemory(geos).own[v], EmptyMemory(geos).bits[v])
    {
      var h, w := EmptyMemory(geos).own[v], EmptyMemory(geos).bits[v];
      assert h == EmptyHeap(geos[v]) && w == seq(SystemPageCount(geos[v]), _ => false);
      EmptyViewSound(geos[v]);
      EmptyIsRight(geos[v]);
      EmptyInStep(geos[v], h, w);
    }
  }
}
