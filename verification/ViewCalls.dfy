/** The calls on a physical view at an address of one of its pages, in page numbers: fixed placement,
    release, decommit and protect (src/xenia/memory.cc:1553-1695), and what each does to the machine. */
module ViewCalls {
  import opened Arith
  import opened PageTable
  import opened HeapSpec
  import opened Coupling
  import opened UnwatchRange
  import opened PhysicalMemory
  import opened ViewRuns
  import opened WriteWatch
  import HeapRuns

  /** `base` is the first address of page `page`, in the view and in the parent. */
  ghost predicate IsPageAddress(geo: Geometry, page: nat, base: int) {
    && geo.pageSize > 0 && 0 <= base < U32 && geo.base < U32 && base == geo.base + page * geo.pageSize
    && geo.PageOf(base) == page && PARENT_GEOMETRY.PageOf(Physical(geo, base)) == ParentPage(MapOf(geo), page)
  }

  lemma EveryPageHasAddress(geo: Geometry, page: nat)
    requires ViewOk(geo) && page < geo.Pages()
    ensures IsPageAddress(geo, page, geo.base + page * geo.pageSize)
  {
    PageInsideView(geo, page);
    ScaledPages(geo, page);
    var rel := page * geo.pageSize;
    var base := geo.base + rel;
    assert Sub32(base, geo.base) == rel;
    SmallMod(rel + PhysicalOffset(geo));
    assert Physical(geo, base) == ParentPage(MapOf(geo), page) * SYSTEM_PAGE;
    QuotientIsDivision(ParentPage(MapOf(geo), page) * SYSTEM_PAGE, SYSTEM_PAGE);
    assert Sub32(Physical(geo, base), 0) == Physical(geo, base);
  }

  // ---- fixed placement ------------------------------------------------------------------------

  /** Parent and view cover the same bytes: both round the size up to the alignment. */
  lemma FixedCountsAgree(geo: Geometry, size: u32, alignment: u32)
    requires ViewOk(geo) && ViewRequest(geo, size, alignment)
    requires RoundUp(size, geo.pageSize) <= U32 - RoundUp(alignment, geo.pageSize)
    ensures var pageBytes, pageAlign := RoundUp(size, geo.pageSize), RoundUp(alignment, geo.pageSize);
            FixedPageCount(PARENT_GEOMETRY, pageBytes, pageAlign) == FixedPageCount(geo, pageBytes,
                pageAlign) * geo.Scale()
  {
    hide RoundUp, FixedPageCount, PageCount, Quotient;
    var pageBytes, pageAlign := RoundUp(size, geo.pageSize), RoundUp(alignment, geo.pageSize);
    AlignmentOfView(geo, alignment);
    BytesInParent(geo, size);
    BytesInView(geo, pageBytes, pageAlign);
    BytesInView(PARENT_GEOMETRY, pageBytes, pageAlign);
    ScaledPages(geo, FixedPageCount(geo, pageBytes, pageAlign));
  }

  /** At a page of the view it is placement at that page and at the parent page under it. */
  lemma FixedByPages(geo: Geometry, parent: Heap, own: Heap, page: nat, base: u32, size: u32, alignment: u32,
                     alloc: bv2, protect: bv4, parentOk: bool, hostOk: bool)
    requires ViewOk(geo) && own.Fits(geo) && parent.Fits(PARENT_GEOMETRY) && ViewRequest(geo, size, alignment)
    requires RoundUp(size, geo.pageSize) <= U32 - RoundUp(alignment, geo.pageSize)
    requires page < geo.Pages() && base == geo.base + page * geo.pageSize
    ensures var count := FixedPageCount(geo, RoundUp(size, geo.pageSize), RoundUp(alignment, geo.pageSize));
            && count * geo.Scale() > 0
            && ViewAllocFixed(geo, parent, own, base, size, alignment, alloc, protect, parentOk, hostOk)
               == var (p, pr) := AllocPages(PARENT_GEOMETRY, parent, ParentPage(MapOf(geo), page),
                                            count * geo.Scale(), alloc, protect, parentOk);
                  if pr != Success then (p, own, pr)
                  else var (o, r) := AllocPages(geo, own, page, count, alloc, protect, hostOk); (p, o, r)
  {
    hide RoundUp, FixedPageCount, PageCount, Quotient, AllocPages;
    EveryPageHasAddress(geo, page);
    PageInsideView(geo, page);
    PinAddress(geo, page * geo.pageSize);
    assert Sub32(base, geo.base) == page * geo.pageSize;
    FixedCountsAgree(geo, size, alignment);
  }

  /** Fixed placement through a view. When both heaps accept it, parent and views stay coupled exactly
      under `FixedKeeps`. When only the parent accepts it, the view is as before and the parent's part is
      lost: then they stay coupled exactly when the parent only commits, or cuts no region and touches
      no other region of a view than one of the same extent. */
  lemma FixedThroughViewExactly(maps: seq<ViewMap>, s: Machine, v: nat, geo: Geometry, parent: Heap, own: Heap,
                                page: nat, base: u32, size: u32, alignment: u32, alloc: bv2, protect: bv4,
                                parentOk: bool, hostOk: bool)
    requires Through(maps, s, v, geo, parent, own) && alloc != 0 && ViewRequest(geo, size, alignment)
    requires RoundUp(size, geo.pageSize) <= U32 - RoundUp(alignment, geo.pageSize)
    requires page < geo.Pages() && base == geo.base + page * geo.pageSize
    ensures var count := FixedPageCount(geo, RoundUp(size, geo.pageSize), RoundUp(alignment, geo.pageSize));
            var (p, o, r) := ViewAllocFixed(geo, parent, own, base, size, alignment, alloc, protect, parentOk, hostOk);
            FixedOutcome(maps, s, v, parent, own, p, o, r, page, count, alloc, protect, parentOk, hostOk)
  {
    hide RoundUp, FixedPageCount, PageCount, Quotient, ViewAllocFixed, FixedOutcome, Consistent;
    var count := FixedPageCount(geo, RoundUp(size, geo.pageSize), RoundUp(alignment, geo.pageSize));
    FixedByPages(geo, parent, own, page, base, size, alignment, alloc, protect, parentOk, hostOk);
    FixedPagesExactly(maps, s, v, geo, parent, own, page, count, alloc, protect, parentOk, hostOk);
  }

  ghost predicate FixedOutcome(maps: seq<ViewMap>, s: Machine, v: nat, parent: Heap, own: Heap, p: Heap, o: Heap,
                               r: Outcome, page: nat, count: nat, alloc: bv2, protect: bv4, parentOk: bool,
                               hostOk: bool)
  {
    && |maps| == |s.views| && v < |s.views|
    && var x := Under(maps[v], page, count);
       var inParent := FixedAllocType(s.parent, x.first, x.count, alloc);
       var below := Accepts(s.parent, x.first, x.count, alloc, parentOk);
       var above := Accepts(s.views[v], page, count, alloc, hostOk);
       && (r == Success <==> below && above)
       && (!below ==> p == parent && o == own)
       && (below && above ==>
             && Seen(s, v, p, o) == FixedPlaced(maps, s, v, page, count, alloc, protect)
             && (Consistent(maps, Seen(s, v, p, o)) <==> FixedKeeps(maps, s, v, page, count, alloc)))
       && (below && !above ==>
             && o == own && p.table == Allocated(s.parent, x.first, x.count, inParent, protect) && 0 < x.count
             && (Consistent(maps, Seen(s, v, p, o))
                 <==> inParent & RESERVE == 0 || (Uncut(s.parent, x) && OnlyWhole(maps, s, x))))
  }

  lemma FixedPagesExactly(maps: seq<ViewMap>, s: Machine, v: nat, geo: Geometry, parent: Heap, own: Heap, page: nat,
                          count: nat, alloc: bv2, protect: bv4, parentOk: bool, hostOk: bool)
    requires Through(maps, s, v, geo, parent, own) && alloc != 0 && 0 < count && 0 < count * geo.Scale()
             && page < geo.Pages()
    ensures var (p, pr) := AllocPages(PARENT_GEOMETRY, parent, ParentPage(MapOf(geo), page), count * geo.Scale(),
                                      alloc, protect, parentOk);
            var (o, r) := if pr != Success then (own, pr)
              else AllocPages(geo, own, page, count, alloc, protect, hostOk);
            FixedOutcome(maps, s, v, parent, own, p, o, r, page, count, alloc, protect, parentOk, hostOk)
  {
    hide FixedAllocType, Consistent, WellFormed, Quotient, FixedKeeps, OnlyWhole, Uncut, Allocated, HeapRuns.Inv,
      Accepts;
    assert |maps| == |s.views| && WellFormed(s.parent) by { ScaleIsPositive(maps, s, v); ParentIsWellFormed(maps, s); }
    var x := Under(maps[v], page, count);
    AcceptsExactly(PARENT_GEOMETRY, parent, x.first, x.count, alloc, protect, parentOk);
    AcceptsExactly(geo, own, page, count, alloc, protect, hostOk);
    var (p, pr) := AllocPages(PARENT_GEOMETRY, parent, x.first, x.count, alloc, protect, parentOk);
    if pr == Success {
      var (o, r) := AllocPages(geo, own, page, count, alloc, protect, hostOk);
      if r == Success {
        assert Seen(s, v, p, o) == FixedPlaced(maps, s, v, page, count, alloc, protect);
        FixedKeepsExactly(maps, s, v, page, count, alloc, protect);
      } else {
        assert Seen(s, v, p, o).views == s.views;
        ParentFixedExactly(maps, s, x, alloc, protect);
        assert Seen(s, v, p, o) == s.(parent := p.table);
      }
    }
  }

  lemma ParentIsWellFormed(maps: seq<ViewMap>, s: Machine)
    requires Consistent(maps, s)
    ensures WellFormed(s.parent)
  {
  }

  /** Fixed placement in the parent alone. */
  lemma ParentFixedExactly(maps: seq<ViewMap>, s: Machine, x: Extent, alloc: bv2, protect: bv4)
    requires Consistent(maps, s) && 0 < x.count && x.first + x.count <= |s.parent| && alloc != 0
    ensures var inParent := FixedAllocType(s.parent, x.first, x.count, alloc);
            Consistent(maps, s.(parent := Allocated(s.parent, x.first, x.count, inParent, protect)))
            <==> inParent & RESERVE == 0 || (Uncut(s.parent, x) && OnlyWhole(maps, s, x))
  {
    hide FixedAllocType, WellFormed, OnlyWhole, Uncut, Allocated, Coupled, Apart;
    var inParent := FixedAllocType(s.parent, x.first, x.count, alloc);
    ReservingTypes(s.parent, x.first, x.count, alloc);
    if inParent & RESERVE == 0 {
      CommitMovesNothing(s.parent, x.first, x.count, protect);
      ViewsUnchanged(maps, s);
      SameRegionsKeep(maps, s, s.(parent := Allocated(s.parent, x.first, x.count, COMMIT, protect)));
    } else {
      ParentPlacedKeepsExactly(maps, s, x, inParent, protect);
    }
  }

  lemma ViewsUnchanged(maps: seq<ViewMap>, s: Machine)
    requires Consistent(maps, s)
    ensures forall v :: 0 <= v < |s.views| ==> SameRegions(s.views[v], s.views[v]) && WellFormed(s.views[v])
  {
  }

  /** A commit of free pages of a view, over pages that another view holds, is accepted by both heaps and
      takes the pages away from the other view. */
  lemma CommitTakesPages(maps: seq<ViewMap>, s: Machine, v: nat, geo: Geometry, parent: Heap, own: Heap, page: nat,
                         base: u32, size: u32, alignment: u32, protect: bv4)
    requires Through(maps, s, v, geo, parent, own) && ViewRequest(geo, size, alignment)
    requires RoundUp(size, geo.pageSize) <= U32 - RoundUp(alignment, geo.pageSize)
    requires page < geo.Pages() && base == geo.base + page * geo.pageSize
    requires var count := FixedPageCount(geo, RoundUp(size, geo.pageSize), RoundUp(alignment, geo.pageSize));
             && page + count <= geo.Pages() && own.table[page].state == 0
             && OthersHold(maps, s, v, Under(maps[v], page, count))
    ensures var (p, o, r) := ViewAllocFixed(geo, parent, own, base, size, alignment, COMMIT, protect, true, true);
            r == Success && !Consistent(maps, Seen(s, v, p, o))
  {
    hide RoundUp, FixedPageCount, PageCount, Quotient, Consistent, WellFormed, Allocated, ViewAllocFixed, OthersHold,
      FixedAllocType, Holds;
    var count := FixedPageCount(geo, RoundUp(size, geo.pageSize), RoundUp(alignment, geo.pageSize));
    FixedThroughViewExactly(maps, s, v, geo, parent, own, page, base, size, alignment, COMMIT, protect, true, true);
    FixedByPages(geo, parent, own, page, base, size, alignment, COMMIT, protect, true, true);
    FixedRange(maps, s, v, page, count);
    ReservingTypes(s.views[v], page, count, COMMIT);
    assert own.table[page].state & RESERVE == 0;
    assert AnyUnreserved(s.views[v], page, page + count);
  }
}
