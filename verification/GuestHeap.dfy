/** `BaseHeap` (src/xenia/memory.cc): a page table that its methods update in place. Whether a call
    into the host succeeds is the parameter `hostOk`. */
module GuestHeap {
  import opened Arith
  import opened PageTable
  import opened PageSearch
  import opened HeapSpec
  import HeapBytes

  /** What `QueryRegionInfo` reports, with sizes in bytes. */
  datatype RegionInfo = RegionInfo(
    allocationBase: int, allocationProtect: bv4, allocationSize: int,
    regionSize: int, state: bv2, protect: bv4)

  /** Only reserved pages are in use: a commit bit never stands alone. */
  ghost predicate StatesOk(t: Table) {
    forall i :: 0 <= i < |t| ==> t[i].state == 0 || t[i].state & RESERVE != 0
  }

  /** Page `j` still carries the attributes the query started with. */
  predicate SameAttributes(e: PageEntry, start: PageEntry) {
    e.baseAddress == start.baseAddress && e.state == start.state && e.currentProtect == start.currentProtect
  }

  /** The longest run of pages from `first` on with the attributes of `first`; it does not leave
      the region of `first`. */
  ghost predicate IsRun(t: Table, first: nat, pages: nat) {
    && 0 < pages && first + pages <= |t|
    && (forall i :: first <= i < first + pages ==> SameAttributes(t[i], t[first]))
    && (first + pages < |t| ==> !SameAttributes(t[first + pages], t[first]))
    && (t[first].state != 0 ==> first + pages <= t[first].baseAddress + t[first].regionPageCount)
  }

  class BaseHeap {
    const geo: Geometry
    var pageTable: Table
    var unreservedPageCount: int
    ghost var host: seq<PageAccess>

    ghost predicate Valid()
      reads this
    {
      && geo.Valid() && State().Fits(geo)
      && 0 < |pageTable| <= 0x10_0000 && StatesOk(pageTable)
    }

    ghost function State(): Heap
      reads this
    {
      Heap(pageTable, unreservedPageCount, host)
    }

    constructor (geo: Geometry)
      requires geo.Valid() && 0 < geo.Pages() <= 0x10_0000
      ensures this.geo == geo && Valid()
      ensures AllFree(pageTable, 0, |pageTable|) && WellFormed(pageTable)
      ensures unreservedPageCount == CountFree(pageTable)
    {
      this.geo := geo;
      var n := geo.Pages();
      pageTable := seq(n, _ => FREE_ENTRY);
      unreservedPageCount := n;
      host := seq(n * geo.Scale() + geo.Shift(), _ => NoAccess);
      new;
      FreeInAll(pageTable, 0, n);
    }

    /** The first loop of `AllocFixed`: refuses a reservation of a taken page, and turns a commit
        that meets an unreserved page into a reservation as well. */
    method CheckFixed(first: nat, count: nat, alloc: bv2) returns (r: Outcome, alloc': bv2)
      requires Valid() && 0 < count && first < |pageTable| && first + count - 1 <= |pageTable|
      ensures r == Failure <==> alloc == RESERVE && AnyTaken(pageTable, first, first + count)
      ensures r == Success ==> first + count <= |pageTable| || alloc' != alloc
      ensures r == OutOfBounds ==> first + count > |pageTable|
      ensures r != Failure ==> alloc' == FixedAllocType(pageTable, first, count, alloc)
    {
      alloc' := alloc;
      var page := first;
      while page <= first + count - 1
        invariant first <= page <= first + count && page <= |pageTable|
        invariant alloc == RESERVE ==> !AnyTaken(pageTable, first, page)
        invariant alloc == COMMIT ==> !AnyUnreserved(pageTable, first, page)
      {
        if page >= |pageTable| {
          return OutOfBounds, alloc';
        }
        var state := pageTable[page].state;
        if alloc == RESERVE && state != 0 {
          return Failure, alloc';
        }
        if alloc == COMMIT && state & RESERVE == 0 {
          return Success, alloc | RESERVE;
        }
        page := page + 1;
      }
      return Success, alloc';
    }

    /** The second loop of `AllocFixed`. */
    method SetFixed(first: nat, count: nat, alloc: bv2, protect: bv4)
      requires Valid() && 0 < count && first + count <= |pageTable|
      modifies this`pageTable, this`unreservedPageCount
      ensures Valid()
      ensures pageTable == Allocated(old(pageTable), first, count, alloc, protect)
      ensures unreservedPageCount == old(unreservedPageCount) - FreeIn(old(pageTable), first, first + count)
    {
      ghost var before := pageTable;
      var page := first;
      while page <= first + count - 1
        invariant first <= page <= first + count && |pageTable| == |before|
        invariant forall i :: 0 <= i < |before| && first <= i < page ==>
                    pageTable[i] == AllocatedEntry(before[i], first, count, alloc, protect)
        invariant forall i :: 0 <= i < |before| && !(first <= i < page) ==> pageTable[i] == before[i]
        invariant unreservedPageCount == old(unreservedPageCount) - FreeIn(before, first, page)
      {
        var e := pageTable[page];
        if alloc & RESERVE != 0 {
          e := e.(baseAddress := first, regionPageCount := count);
        }
        e := e.(allocationProtect := protect, currentProtect := protect);
        if e.state & RESERVE == 0 {
          unreservedPageCount := unreservedPageCount - 1;
        }
        pageTable := pageTable[page := e.(state := RESERVE | alloc)];
        page := page + 1;
      }
    }

    /** `AllocFixed`. The allocation type is not empty: every caller reserves, commits or both. */
    method AllocFixed(baseAddress: u32, size: u32, alignment: u32, alloc: bv2, protect: bv4, hostOk: bool)
        returns (r: Outcome)
      requires Valid() && GoodAlignment(geo, alignment) && alloc != 0
      modifies this
      ensures Valid()
      ensures (State(), r) == AllocPages(geo, old(State()), geo.PageOf(baseAddress),
                                         FixedPageCount(geo, size, alignment),
                                         alloc, protect, hostOk)
    {
      var a := RoundUp(alignment, geo.pageSize);
      var count := FixedPageCount(geo, size, alignment);
      var first := geo.PageOf(baseAddress);
      if first >= |pageTable| || first + count - 1 > |pageTable| {
        return Failure;
      }
      var check, alloc' := CheckFixed(first, count, alloc);
      if check == Failure {
        return Failure;
      }
      if check == OutOfBounds || first + count > |pageTable| {
        return OutOfBounds;
      }
      if alloc' != RESERVE {
        if !hostOk {
          return Failure;
        }
        host := HostCover(geo, host, first, count, ToPageAccess(protect));
      }
      SetFixed(first, count, alloc', protect);
      return Success;
    }

    /** The last loop of `AllocRange`, over a window that the search found free. */
    method SetFound(first: nat, count: nat, alloc: bv2, protect: bv4)
      requires Valid() && first + count <= |pageTable|
      modifies this`pageTable, this`unreservedPageCount
      ensures Valid()
      ensures pageTable == Allocated(old(pageTable), first, count, alloc | RESERVE, protect)
      ensures unreservedPageCount == old(unreservedPageCount) - count
    {
      ghost var before := pageTable;
      var page := first;
      while page <= first + count - 1
        invariant first <= page <= first + count && |pageTable| == |before|
        invariant forall i :: 0 <= i < |before| && first <= i < page ==>
                    pageTable[i] == AllocatedEntry(before[i], first, count, alloc | RESERVE, protect)
        invariant forall i :: 0 <= i < |before| && !(first <= i < page) ==> pageTable[i] == before[i]
        invariant unreservedPageCount == old(unreservedPageCount) - (page - first)
      {
        pageTable := pageTable[page := PageEntry(first, count, protect, protect, RESERVE | alloc)];
        unreservedPageCount := unreservedPageCount - 1;
        page := page + 1;
      }
    }

    /** The search of `AllocRange`, from the guard on the page count on. */
    method FindWindow(s: Scan, count: nat, topDown: bool) returns (found: SearchResult)
      requires Valid() && s.low < |pageTable| && s.high < |pageTable|
      requires 0 < s.stride <= 0x10_0000 && count <= 0x10_0000
      ensures found == WindowFound(pageTable, s, count, topDown)
      ensures found.Found? ==> found.base + count <= |pageTable|
    {
      hide GreatestFit, LeastFit, UpwardFit, FreeIn, EmptyWindow;
      if count > Sub32(s.high, s.low) {
        return NotFound;
      }
      var high := RoundDown(s.high, s.stride);
      if count == 0 {
        found := SearchNoPage(pageTable, s.low, high, s.stride, topDown);
      } else if topDown {
        found := SearchTopDown(pageTable, s.low, high, s.stride, count);
      } else {
        found := SearchBottomUp(pageTable, s.low, high, s.stride, count);
      }
    }

    /** `AllocRange` behind the search. */
    method PlaceFound(base: nat, count: nat, alloc: bv2, protect: bv4, hostOk: bool) returns (r: Outcome, address: nat)
      requires Valid() && base + count <= |pageTable|
      modifies this
      ensures Valid()
      ensures (State(), r, address) == PlaceWindow(geo, old(State()), base, count, alloc, protect, hostOk)
    {
      if alloc != RESERVE {
        if !hostOk {
          return Failure, 0;
        }
        host := HostCover(geo, host, base, count, ToPageAccess(protect));
      }
      SetFound(base, count, alloc, protect);
      return Success, geo.base + base * geo.pageSize;
    }

    /** `AllocRange` behind the computation of its page numbers. */
    method AllocScanned(s: Scan, count: nat, alloc: bv2, protect: bv4, topDown: bool, hostOk: bool)
        returns (r: Outcome, address: nat)
      requires Valid() && s.low < |pageTable| && s.high < |pageTable|
      requires 0 < s.stride <= 0x10_0000 && count <= 0x10_0000
      modifies this
      ensures Valid()
      ensures (State(), r, address) == AllocSearched(geo, old(State()), s, count, alloc, protect, topDown, hostOk)
      ensures r != Success ==> State() == old(State()) && address == 0
    {
      var found := FindWindow(s, count, topDown);
      match found
      case OutOfTable => r, address := OutOfBounds, 0;
      case NotFound => r, address := Failure, 0;
      case Found(base) => r, address := PlaceFound(base, count, alloc, protect, hostOk);
    }

    /** `AllocRange` */
    method AllocRange(lowAddress: u32, highAddress: u32, size: u32, alignment: u32, alloc: bv2, protect: bv4,
                      topDown: bool, hostOk: bool) returns (r: Outcome, address: nat)
      requires Valid() && GoodAlignment(geo, alignment) && alloc != 0
      modifies this
      ensures Valid()
      ensures var s, count := ScanRange(geo, lowAddress, highAddress, alignment), PageCount(size, geo.pageSize);
              && (State(), r, address) == AllocSearched(geo, old(State()), s, count, alloc, protect, topDown, hostOk)
      ensures r != Success ==> State() == old(State()) && address == 0
    {
      ScanBounds(geo, lowAddress, highAddress, alignment, size);
      var s := ScanRange(geo, lowAddress, highAddress, alignment);
      r, address := AllocScanned(s, PageCount(size, geo.pageSize), alloc, protect, topDown, hostOk);
    }

    /** `Decommit` */
    method Decommit(address: u32, size: u32)
      requires Valid()
      modifies this
      ensures Valid()
      ensures State() == DecommitPages(old(State()), geo.PageOf(address), PageCount(size, geo.pageSize))
      ensures HeapBytes.IsDecommitted(geo, old(State()), State(), address, size)
    {
      HeapBytes.DecommitIsInBytes(geo, State(), address, size);
      var count := PageCount(size, geo.pageSize);
      var first := geo.PageOf(address);
      FewPages(geo, address, size);
      var start := Min(|pageTable| - 1, first);
      var end := Min(|pageTable| - 1, Sub32(first + count, 1));
      ClearCommit(start, end);
    }

    /** The loop of `Decommit`. */
    method ClearCommit(start: nat, end: nat)
      requires Valid() && start < |pageTable| && end < |pageTable|
      modifies this`pageTable
      ensures Valid()
      ensures pageTable == Decommitted(old(pageTable), start, if start <= end then end + 1 - start else 0)
    {
      ghost var before := pageTable;
      var page := start;
      while page <= end
        invariant start <= page && (page == start || page <= end + 1) && |pageTable| == |before|
        invariant forall i :: 0 <= i < |before| && start <= i < page ==>
                    pageTable[i] == before[i].(state := before[i].state & !COMMIT)
        invariant forall i :: 0 <= i < |before| && !(start <= i < page) ==> pageTable[i] == before[i]
      {
        pageTable := pageTable[page := pageTable[page].(state := pageTable[page].state & !COMMIT)];
        page := page + 1;
      }
    }

    /** `Release`; `protectOnRelease` is the setting of that name together with the answer of the
        host. */
    method Release(baseAddress: u32, protectOnRelease: bool) returns (r: Outcome, regionSize: nat)
      requires Valid() && geo.PageOf(baseAddress) < |pageTable|
      requires InOwnRegion(pageTable, geo.PageOf(baseAddress)) || !Taken(pageTable, geo.PageOf(baseAddress))
      requires !Taken(pageTable, geo.PageOf(baseAddress)) ==> pageTable[geo.PageOf(baseAddress)] == FREE_ENTRY
      modifies this
      ensures Valid()
      ensures (State(), r) == ReleasePages(geo, old(State()), geo.PageOf(baseAddress), protectOnRelease)
      ensures r == Success ==> regionSize == old(pageTable)[geo.PageOf(baseAddress)].regionPageCount * geo.pageSize
    {
      regionSize := 0;
      var first := geo.PageOf(baseAddress);
      var entry := pageTable[first];
      if entry.baseAddress != first {
        return Failure, 0;
      }
      if geo.base == 0 && first == 0 {
        return Failure, 0;
      }
      var count := entry.regionPageCount;
      if count == 0 {
        return OutOfBounds, 0;
      }
      regionSize := count * geo.pageSize;
      if protectOnRelease {
        host := HostCover(geo, host, first, count, NoAccess);
      }
      ClearPages(first, count);
      return Success, regionSize;
    }

    /** The loop of `Release`. */
    method ClearPages(first: nat, count: nat)
      requires Valid() && 0 < count && first + count <= |pageTable|
      modifies this`pageTable, this`unreservedPageCount
      ensures Valid()
      ensures pageTable == Released(old(pageTable), first, count)
      ensures unreservedPageCount == old(unreservedPageCount) + count
    {
      ghost var before := pageTable;
      var page := first;
      while page <= first + count - 1
        invariant first <= page <= first + count && |pageTable| == |before|
        invariant forall i :: 0 <= i < |before| && first <= i < page ==> pageTable[i] == FREE_ENTRY
        invariant forall i :: 0 <= i < |before| && !(first <= i < page) ==> pageTable[i] == before[i]
        invariant unreservedPageCount == old(unreservedPageCount) + (page - first)
      {
        pageTable := pageTable[page := FREE_ENTRY];
        unreservedPageCount := unreservedPageCount + 1;
        page := page + 1;
      }
    }

    /** `Protect`: all or nothing. The last page is computed on 64 bits. */
    method Protect(address: u32, size: u32, protect: bv4, hostOk: bool) returns (r: Outcome)
      requires Valid()
      modifies this
      ensures Valid()
      ensures (State(), r) == ProtectBytes(geo, old(State()), address, size, protect, hostOk)
      ensures HeapBytes.IsProtected(geo, old(State()), State(), r, address, size, protect, hostOk)
    {
      HeapBytes.ProtectIsInBytes(geo, State(), address, size, protect, hostOk);
      if size == 0 {
        return Failure;
      }
      var (first, last) := ProtectRange(geo, address, size);
      if first >= |pageTable| {
        return Failure;
      }
      if last >= |pageTable| {
        return Failure;
      }
      ProtectRangeOrdered(geo, address, size);
      var ok := CheckProtect(first, last);
      if !ok || !hostOk {
        return Failure;
      }
      host := HostCover(geo, host, first, last + 1 - first, ToPageAccess(protect));
      SetProtect(first, last, protect);
      return Success;
    }

    /** The first loop of `Protect`: one region, committed throughout. */
    method CheckProtect(first: nat, last: nat) returns (ok: bool)
      requires Valid() && first <= last < |pageTable|
      ensures ok <==> Protectable(pageTable, first, last)
    {
      var page := first;
      while page <= last
        invariant first <= page <= last + 1
        invariant forall i :: first <= i < page ==>
                    pageTable[i].baseAddress == pageTable[first].baseAddress && pageTable[i].state & COMMIT != 0
      {
        if pageTable[page].baseAddress != pageTable[first].baseAddress || pageTable[page].state & COMMIT == 0 {
          return false;
        }
        page := page + 1;
      }
      return true;
    }

    /** The last loop of `Protect`. */
    method SetProtect(first: nat, last: nat, protect: bv4)
      requires Valid() && first <= last < |pageTable|
      modifies this`pageTable
      ensures Valid()
      ensures pageTable == Protected(old(pageTable), first, last + 1 - first, protect)
    {
      ghost var before := pageTable;
      var page := first;
      while page <= last
        invariant first <= page <= last + 1 && |pageTable| == |before|
        invariant forall i :: 0 <= i < |before| && first <= i < page ==>
                  pageTable[i] == before[i].(currentProtect := protect)
        invariant forall i :: 0 <= i < |before| && !(first <= i < page) ==> pageTable[i] == before[i]
      {
        pageTable := pageTable[page := pageTable[page].(currentProtect := protect)];
        page := page + 1;
      }
    }

    /** The two scans of `QueryRegionInfo`: how many pages from `first` on look like `first`. */
    method RunLength(first: nat) returns (pages: nat)
      requires Valid() && WellFormed(pageTable) && first < |pageTable|
      ensures IsRun(pageTable, first, pages)
    {
      var start := pageTable[first];
      assert PageOk(pageTable, first);
      var end := if start.state != 0 then start.baseAddress + start.regionPageCount else |pageTable|;
      assert end < |pageTable| ==> PageOk(pageTable, end);
      pages := 0;
      while first + pages < end
        invariant first + pages <= end
        invariant forall i :: first <= i < first + pages ==> SameAttributes(pageTable[i], start)
      {
        var e := pageTable[first + pages];
        assert PageOk(pageTable, first + pages);
        if (if start.state != 0 then !SameAttributes(e, start) else e.state != 0) {
          break;
        }
        pages := pages + 1;
      }
    }

    /** `QueryRegionInfo`. `pages` is the length of the run it measures; the range test lets the
        page number behind the table through. */
    method QueryRegionInfo(address: u32) returns (r: Outcome, info: RegionInfo, pages: nat)
      requires Valid() && WellFormed(pageTable)
      ensures r == Failure <==> geo.PageOf(address) > |pageTable|
      ensures r == OutOfBounds <==> geo.PageOf(address) == |pageTable|
      ensures r == Success ==>
                var e := pageTable[geo.PageOf(address)];
                && IsRun(pageTable, geo.PageOf(address), pages)
                && info == RegionInfo(
                             if e.state != 0 then geo.base + e.baseAddress * geo.pageSize else 0,
                             e.allocationProtect, e.regionPageCount * geo.pageSize,
                             pages * geo.pageSize, e.state, e.currentProtect)
    {
      var first := geo.PageOf(address);
      info := RegionInfo(0, 0, 0, 0, 0, 0);
      if first > |pageTable| {
        return Failure, info, 0;
      }
      if first == |pageTable| {
        return OutOfBounds, info, 0;
      }
      pages := RunLength(first);
      assert PageOk(pageTable, first);
      var start := pageTable[first];
      if start.state != 0 {
        info := RegionInfo(geo.base + start.baseAddress * geo.pageSize, start.allocationProtect,
          start.regionPageCount * geo.pageSize, 0, start.state, start.currentProtect);
      }
      info := info.(regionSize := pages * geo.pageSize);
      r := Success;
    }
  }
}
