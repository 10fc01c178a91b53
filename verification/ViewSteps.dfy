/** The calls of the guest on its physical views (src/xenia/memory.cc:1512-1695) as steps of the
    machine: which of them keep parent and views coupled, and every run of those that do. */
module ViewSteps {
  import opened Arith
  import opened PageTable
  import opened PageSearch
  import opened HeapSpec
  import opened Coupling
  import opened UnwatchRange
  import opened PhysicalMemory
  import opened ViewRuns
  import opened ViewCalls
  import opened WriteWatch
  import opened MachineRuns
  import HeapRuns

  /** Nothing moved. */
  lemma SameIsNext(maps: seq<ViewMap>, s: Machine, s': Machine)
    requires Consistent(maps, s) && |s'.views| == |s.views| && SameRegions(s.parent, s'.parent) && WellFormed(s'.parent)
    requires forall v :: 0 <= v < |s.views| ==> SameRegions(s.views[v], s'.views[v]) && WellFormed(s'.views[v])
    ensures Next(maps, s, s') && Consistent(maps, s')
  {
    SameRegionsKeep(maps, s, s');
  }

  lemma RefusedIsNext(maps: seq<ViewMap>, s: Machine, v: nat, parent: Heap, own: Heap)
    requires Consistent(maps, s) && v < |s.views| && s.parent == parent.table && s.views[v] == own.table
    ensures Next(maps, s, Seen(s, v, parent, own)) && Consistent(maps, Seen(s, v, parent, own))
  {
    assert Seen(s, v, parent, own) == s;
    SameIsNext(maps, s, s);
  }

  /** A heap of the same size with a right count of free pages. */
  ghost predicate Counted(h: Heap, h': Heap) {
    |h'.table| == |h.table| && |h'.host| == |h.host| && h'.unreserved == CountFree(h'.table)
  }

  // ---- fixed placement ------------------------------------------------------------------------

  /** What fixed placement must meet: `FixedKeeps` when both heaps accept it, and when only the parent does
      that it commits, or cuts no region and touches no other region of a view than one of its extent. */
  ghost predicate FixedCallKeeps(maps: seq<ViewMap>, s: Machine, v: nat, page: nat, count: nat, alloc: bv2,
                                 parentOk: bool, hostOk: bool)
    requires |maps| == |s.views| && v < |s.views|
  {
    var x := Under(maps[v], page, count);
    Accepts(s.parent, x.first, x.count, alloc, parentOk) ==>
      if Accepts(s.views[v], page, count, alloc, hostOk) then FixedKeeps(maps, s, v, page, count, alloc)
      else FixedAllocType(s.parent, x.first, x.count, alloc) & RESERVE == 0
           || (Uncut(s.parent, x) && OnlyWhole(maps, s, x))
  }

  lemma FixedCallExactly(maps: seq<ViewMap>, s: Machine, v: nat, geo: Geometry, parent: Heap, own: Heap, page: nat,
                         base: u32, size: u32, alignment: u32, alloc: bv2, protect: bv4, parentOk: bool, hostOk: bool)
    requires Through(maps, s, v, geo, parent, own) && alloc != 0 && ViewRequest(geo, size, alignment)
    requires RoundUp(size, geo.pageSize) <= U32 - RoundUp(alignment, geo.pageSize)
    requires page < geo.Pages() && base == geo.base + page * geo.pageSize && |maps| == |s.views|
    ensures var count := FixedPageCount(geo, RoundUp(size, geo.pageSize), RoundUp(alignment, geo.pageSize));
            var (p, o, r) := ViewAllocFixed(geo, parent, own, base, size, alignment, alloc, protect, parentOk, hostOk);
            && (Consistent(maps, Seen(s, v, p, o))
                <==> FixedCallKeeps(maps, s, v, page, count, alloc, parentOk, hostOk))
            && (Consistent(maps, Seen(s, v, p, o)) ==> Next(maps, s, Seen(s, v, p, o)))
  {
    hide RoundUp, FixedPageCount, PageCount, Quotient, ViewAllocFixed, Consistent, FixedKeeps, OnlyWhole, Uncut,
      FixedAllocType, Allocated, AllFree;
    var count := FixedPageCount(geo, RoundUp(size, geo.pageSize), RoundUp(alignment, geo.pageSize));
    var (p, o, r) := ViewAllocFixed(geo, parent, own, base, size, alignment, alloc, protect, parentOk, hostOk);
    var x := Under(maps[v], page, count);
    FixedThroughViewExactly(maps, s, v, geo, parent, own, page, base, size, alignment, alloc, protect, parentOk,
                            hostOk);
    if !Accepts(s.parent, x.first, x.count, alloc, parentOk) {
      RefusedIsNext(maps, s, v, parent, own);
    } else if Accepts(s.views[v], page, count, alloc, hostOk) {
      if FixedKeeps(maps, s, v, page, count, alloc) {
        assert FixedPlacementOk(maps, s, v, page, count, alloc);
      }
    } else {
      assert Seen(s, v, p, o).views == s.views;
      if FixedCallKeeps(maps, s, v, page, count, alloc, parentOk, hostOk) {
        assert ParentPlacementOk(maps, s, x, alloc);
        assert Seen(s, v, p, o) == ParentPlaced(s, x, alloc, protect);
      }
    }
  }

  // ---- placement in a range -------------------------------------------------------------------

  /** What placement in a range must meet: either the rounded size is a multiple of the alignment, or the
      parent has no window for it, or the view does not accept the pages over the window. */
  ghost predicate RangeCallKeeps(geo: Geometry, parent: Table, own: Table, low: u32, high: u32, size: u32,
                                 alignment: u32, alloc: bv2, topDown: bool, parentOk: bool, hostOk: bool)
    requires geo.Valid() && ViewRequest(geo, size, alignment)
  {
    var pageBytes, pageAlign := RoundUp(size, geo.pageSize), RoundUp(alignment, geo.pageSize);
    var scan, n := ViewScan(geo, low, high, alignment), PageCount(pageBytes, SYSTEM_PAGE);
    pageBytes % pageAlign == 0 || TooBig(scan, n) || (alloc != RESERVE && !parentOk)
    || match BestFit(parent, scan.low, RoundDown(scan.high, scan.stride), scan.stride, n, topDown)
       case Found(b) => !Accepts(own, geo.PageOf(ViewAddress(geo, b * SYSTEM_PAGE % U32)),
                                 FixedPageCount(geo, pageBytes, pageAlign), alloc, hostOk)
       case _ => true
  }

  /** Placement in a range breaks the coupling exactly when it succeeds with a rounded size that is not a
      multiple of the alignment. A window that is lost to the parent alone does not break it. */
  lemma RangeCallExactly(maps: seq<ViewMap>, s: Machine, v: nat, geo: Geometry, parent: Heap, own: Heap, low: u32,
                         high: u32, size: u32, alignment: u32, alloc: bv2, protect: bv4, topDown: bool, parentOk: bool,
                         hostOk: bool)
    requires Through(maps, s, v, geo, parent, own) && alloc != 0
    requires ViewRequest(geo, size, alignment) && RoundUp(size, geo.pageSize) <= U32 - RoundUp(alignment, geo.pageSize)
    requires InBounds(ViewScan(geo, low, high, alignment), PageCount(RoundUp(size, geo.pageSize), SYSTEM_PAGE))
    ensures var (p, o, r, _) := ViewAllocRange(geo, parent, own, low, high, size, alignment, alloc, protect, topDown,
                                               parentOk, hostOk);
            && (Consistent(maps, Seen(s, v, p, o))
                <==> RangeCallKeeps(geo, s.parent, s.views[v], low, high, size, alignment, alloc, topDown, parentOk,
                                    hostOk))
            && (Consistent(maps, Seen(s, v, p, o)) ==> Next(maps, s, Seen(s, v, p, o)))
            && (Consistent(maps, Seen(s, v, p, o)) && o != own ==>
                  IsPlacement(maps, s, v, Seen(s, v, p, o), alloc | RESERVE, protect))
  {
    hide RangeCallKeeps, Consistent, Next, RoundUp, PageCount, ViewScan, ViewAllocRange, IsPlacement;
    RangeOutcomeExactly(maps, s, v, geo, parent, own, low, high, size, alignment, alloc, protect, topDown, parentOk,
                        hostOk);
    RangeCondition(geo, parent, own, low, high, size, alignment, alloc, protect, topDown, parentOk, hostOk);
  }

  /** The condition says what the outcome will be. */
  lemma RangeCondition(geo: Geometry, parent: Heap, own: Heap, low: u32, high: u32, size: u32, alignment: u32,
                       alloc: bv2, protect: bv4, topDown: bool, parentOk: bool, hostOk: bool)
    requires ViewOk(geo) && own.Fits(geo) && parent.Fits(PARENT_GEOMETRY) && HeapRuns.Inv(parent) && alloc != 0
    requires ViewRequest(geo, size, alignment)
    requires InBounds(ViewScan(geo, low, high, alignment), PageCount(RoundUp(size, geo.pageSize), SYSTEM_PAGE))
    ensures var r := ViewAllocRange(geo, parent, own, low, high, size, alignment, alloc, protect, topDown,
                                    parentOk, hostOk).2;
            RangeCallKeeps(geo, parent.table, own.table, low, high, size, alignment, alloc, topDown, parentOk, hostOk)
            <==> (r == Success ==> RoundUp(size, geo.pageSize) % RoundUp(alignment, geo.pageSize) == 0)
  {
    hide RoundUp, PageCount, FixedPageCount, ViewScan, AllocSearched, BestFit, AllocPages, Accepts, Quotient,
      ViewAddress, HeapRuns.Inv;
    BytesInParent(geo, size);
    ParentAnswers(geo, parent, low, high, size, alignment, alloc, protect, topDown, parentOk);
    var scan, n := ViewScan(geo, low, high, alignment), PageCount(RoundUp(size, geo.pageSize), SYSTEM_PAGE);
    var pa := AllocSearched(PARENT_GEOMETRY, parent, scan, n, alloc, protect, topDown, parentOk).2;
    AcceptsExactly(geo, own, geo.PageOf(ViewAddress(geo, pa % U32)),
                   FixedPageCount(geo, RoundUp(size, geo.pageSize), RoundUp(alignment, geo.pageSize)), alloc, protect,
                   hostOk);
  }

  lemma RangeOutcomeExactly(maps: seq<ViewMap>, s: Machine, v: nat, geo: Geometry, parent: Heap, own: Heap, low: u32,
                            high: u32, size: u32, alignment: u32, alloc: bv2, protect: bv4, topDown: bool,
                            parentOk: bool, hostOk: bool)
    requires Through(maps, s, v, geo, parent, own) && alloc != 0
    requires ViewRequest(geo, size, alignment) && RoundUp(size, geo.pageSize) <= U32 - RoundUp(alignment, geo.pageSize)
    requires InBounds(ViewScan(geo, low, high, alignment), PageCount(RoundUp(size, geo.pageSize), SYSTEM_PAGE))
    ensures var (p, o, r, _) := ViewAllocRange(geo, parent, own, low, high, size, alignment, alloc, protect, topDown,
                                               parentOk, hostOk);
            && (Consistent(maps, Seen(s, v, p, o))
                <==> (r == Success ==> RoundUp(size, geo.pageSize) % RoundUp(alignment, geo.pageSize) == 0))
            && (Consistent(maps, Seen(s, v, p, o)) ==> Next(maps, s, Seen(s, v, p, o)))
            && (Consistent(maps, Seen(s, v, p, o)) && o != own ==>
                  IsPlacement(maps, s, v, Seen(s, v, p, o), alloc | RESERVE, protect))
  {
    hide Consistent, Allocated, FixedAllocType, WellFormed, Quotient, RoundUp, PageCount, FixedPageCount,
      AllocSearched, AllocInRange,
      ScanRange, Pinned, CountFree, IsPlacement;
    var scan, n := ViewScan(geo, low, high, alignment), PageCount(RoundUp(size, geo.pageSize), SYSTEM_PAGE);
    var count := FixedPageCount(geo, RoundUp(size, geo.pageSize), RoundUp(alignment, geo.pageSize));
    ScaleIsPositive(maps, s, v);
    BytesInParent(geo, size);
    ParentAnswers(geo, parent, low, high, size, alignment, alloc, protect, topDown, parentOk);
    var (p, o, r, _) :=
      ViewAllocRange(geo, parent, own, low, high, size, alignment, alloc, protect, topDown, parentOk, hostOk);
    if AllocInRange(PARENT_GEOMETRY, parent, scan, n, alloc, protect, topDown, parentOk).1 != Success {
      RefusedIsNext(maps, s, v, parent, own);
    } else {
      var first := GivenWindow(geo, parent, low, high, size, alignment, alloc, protect, topDown, parentOk);
      var b := ParentPage(maps[v], first);
      PinnedExactly(geo, own, first, b, size, alignment, alloc, protect, hostOk);
      if r != Success {
        ParentPlacementKeeps(maps, s, Extent(b, n), alloc, protect);
        assert Seen(s, v, p, o) == ParentPlaced(s, Extent(b, n), alloc, protect);
      } else {
        PinnedInView(maps, s, v, geo, own, first, count, n, size, alignment, alloc, protect);
        assert Seen(s, v, p, o).parent == Allocated(parent.table, b, n, alloc | RESERVE, protect);
        ReserveBits(alloc);
      }
    }
  }

  lemma ParentAnswers(geo: Geometry, parent: Heap, low: u32, high: u32, size: u32, alignment: u32,
                      alloc: bv2, protect: bv4, topDown: bool, parentOk: bool)
    requires ViewOk(geo) && parent.Fits(PARENT_GEOMETRY) && HeapRuns.Inv(parent) && alloc != 0
             && ViewRequest(geo, size, alignment)
    requires InBounds(ViewScan(geo, low, high, alignment), PageCount(RoundUp(size, geo.pageSize), SYSTEM_PAGE))
    requires PageCount(RoundUp(size, geo.pageSize), SYSTEM_PAGE) > 0
    ensures var scan, n := ViewScan(geo, low, high, alignment), PageCount(RoundUp(size, geo.pageSize), SYSTEM_PAGE);
            var r := AllocSearched(PARENT_GEOMETRY, parent, scan, n, alloc, protect, topDown, parentOk);
            && r == AllocInRange(PARENT_GEOMETRY, parent, scan, n, alloc, protect, topDown, parentOk)
            && (r.1 != Success ==> r.0 == parent) && HeapRuns.Inv(r.0) && Counted(parent, r.0)
            && scan.high < |parent.table|
  {
    var scan, n := ViewScan(geo, low, high, alignment), PageCount(RoundUp(size, geo.pageSize), SYSTEM_PAGE);
    ParentPages();
    ParentStartsAligned(geo, low, high, size, alignment, topDown);
    HeapRuns.RangeStep(PARENT_GEOMETRY, parent, scan, n, alloc, protect, topDown, parentOk);
  }

  /** A window that both heaps took. */
  lemma PinnedInView(maps: seq<ViewMap>, s: Machine, v: nat, geo: Geometry, own: Heap, first: nat, count: nat, n: nat,
                     size: u32, alignment: u32, alloc: bv2, protect: bv4)
    requires ViewOk(geo) && Consistent(maps, s) && v < |s.views| && |maps| == |s.views| && maps[v] == MapOf(geo)
    requires s.views[v] == own.table && own.Fits(geo) && HeapRuns.Inv(own) && alloc != 0
    requires ViewRequest(geo, size, alignment) && RoundUp(size, geo.pageSize) <= U32 - RoundUp(alignment, geo.pageSize)
    requires count == FixedPageCount(geo, RoundUp(size, geo.pageSize), RoundUp(alignment, geo.pageSize))
    requires n == PageCount(RoundUp(size, geo.pageSize), SYSTEM_PAGE)
    requires AllFree(s.parent, ParentPage(maps[v], first), n) && first + count <= geo.Pages()
    ensures var s' := Machine(Allocated(s.parent, ParentPage(maps[v], first), n, alloc | RESERVE, protect),
                              s.views[v :=
                                      Allocated(own.table, first, count,
                                                FixedAllocType(own.table, first, count, alloc), protect)]);
            && (Consistent(maps, s') <==> RoundUp(size, geo.pageSize) % RoundUp(alignment, geo.pageSize) == 0)
            && (Consistent(maps, s') ==> IsPlacement(maps, s, v, s', alloc | RESERVE, protect))
  {
    hide Consistent, Allocated, WellFormed, Quotient, RoundUp, PageCount, FixedPageCount;
    ScaleIsPositive(maps, s, v);
    ExtentsAgreeExactly(geo, size, alignment);
    if n == count * maps[v].scale {
      assert PlacedInFree(maps, s, v, first, count);
      FreeAtParentPage(maps, s, v, first, ParentPage(maps[v], first));
      assert own.table[first].state & RESERVE == 0;
      ReserveBits(alloc);
      assert FixedAllocType(own.table, first, count, alloc) == alloc | RESERVE;
      WindowPlacedKeeps(maps, s, v, first, count, alloc | RESERVE, protect);
    } else {
      PinBreaks(maps, s, v, geo, own, first, count, n, alloc, protect);
    }
  }

  // ---- decommit and protect -------------------------------------------------------------------

  lemma TriggeredTable(geo: Geometry, h: Heap, w: Bits, address: u32, length: u32, exact: bool, unprotect: bool,
                       answers: seq<Answer>)
    requires Shape(geo, h, w) && ViewGeometry(geo) && SystemPageCount(geo) == |h.host|
    ensures var t := TriggeredAt(geo, h, w, address, length, exact, unprotect, answers);
            t.0.table == h.table && t.0.unreserved == h.unreserved && |t.0.host| == |h.host| && |t.1| == |w|
  {
  }

  lemma DecommitMovesNothing(h: Heap, first: nat, count: nat)
    requires HeapRuns.Inv(h) && 0 < |h.table|
    ensures var h' := DecommitPages(h, first, count);
            HeapRuns.Inv(h') && SameRegions(h.table, h'.table) && |h'.host| == |h.host|
  {
    var (start, length) := DecommitSpan(|h.table|, first, count);
    DecommittedKeeps(h.table, start, length);
    forall i | 0 <= i < |h.table|
      ensures h.table[i].state == 0 <==> h.table[i].state & !COMMIT == 0
    {
      assert PageOk(h.table, i);
    }
  }

  lemma ProtectMovesNothing(geo: Geometry, h: Heap, address: u32, size: u32, protect: bv4, hostOk: bool)
    requires geo.Valid() && h.Fits(geo) && HeapRuns.Inv(h) && 0 < |h.table|
    ensures var (h', r) := ProtectBytes(geo, h, address, size, protect, hostOk);
            HeapRuns.Inv(h') && SameRegions(h.table, h'.table) && |h'.host| == |h.host| && (r != Success ==> h' == h)
  {
    hide ProtectRange;
    var (first, last) := ProtectRange(geo, address, size);
    HeapRuns.ProtectStep(geo, h, first, last, protect, hostOk);
  }

  /** Decommit, wherever it is asked for, is a step. */
  lemma DecommitCallKeeps(maps: seq<ViewMap>, s: Machine, v: nat, geo: Geometry, parent: Heap, own: Heap, w: Bits,
                          address: u32, size: u32)
    requires Through(maps, s, v, geo, parent, own) && Shape(geo, own, w) && SystemPageCount(geo) == |own.host|
    requires 0 < |parent.table|
    ensures var (p, o, w') := ViewDecommit(geo, parent, own, w, address, size);
            && Next(maps, s, Seen(s, v, p, o)) && Through(maps, Seen(s, v, p, o), v, geo, p, o)
            && Shape(geo, o, w') && |o.host| == |own.host| && |w'| == |w|
  {
    hide TriggeredAt, DecommitPages, PageCount, Consistent, WellFormed, Quotient;
    TriggeredTable(geo, own, w, address, size, true, true, []);
    var t := TriggeredAt(geo, own, w, address, size, true, true, []);
    DecommitMovesNothing(parent, PARENT_GEOMETRY.PageOf(Physical(geo, address)), PageCount(size, SYSTEM_PAGE));
    DecommitMovesNothing(t.0, geo.PageOf(address), PageCount(size, geo.pageSize));
    var (p, o, _) := ViewDecommit(geo, parent, own, w, address, size);
    ViewsUnchanged(maps, s);
    SameIsNext(maps, s, Seen(s, v, p, o));
  }

  /** Protect likewise, whether or not the heaps agree to it. */
  lemma ProtectCallKeeps(maps: seq<ViewMap>, s: Machine, v: nat, geo: Geometry, parent: Heap, own: Heap, w: Bits,
                         address: u32, size: u32, protect: bv4, parentOk: bool, hostOk: bool)
    requires Through(maps, s, v, geo, parent, own) && Shape(geo, own, w) && SystemPageCount(geo) == |own.host|
             && 0 < |parent.table|
    ensures var (p, o, w', _) := ViewProtect(geo, parent, own, w, address, size, protect, parentOk, hostOk);
            && Next(maps, s, Seen(s, v, p, o)) && Through(maps, Seen(s, v, p, o), v, geo, p, o)
            && Shape(geo, o, w') && |o.host| == |own.host| && |w'| == |w|
  {
    hide TriggeredAt, ProtectBytes, Consistent, WellFormed, Quotient;
    TriggeredTable(geo, own, w, address, size, true, false, []);
    ProtectMovesNothing(PARENT_GEOMETRY, parent, Physical(geo, address), size, protect, parentOk);
    ProtectMovesNothing(geo, own, address, size, protect, hostOk);
    var (p, o, _, _) := ViewProtect(geo, parent, own, w, address, size, protect, parentOk, hostOk);
    ViewsUnchanged(maps, s);
    ParentIsWellFormed(maps, s);
    SameIsNext(maps, s, Seen(s, v, p, o));
  }

  // ---- release --------------------------------------------------------------------------------

  /** What a release must meet: the parent refuses it, or the region starts in this view, or in no view. */
  ghost predicate ReleaseCallKeeps(maps: seq<ViewMap>, s: Machine, v: nat, page: nat)
    requires |maps| == |s.views| && v < |s.views|
  {
    var P := ParentPage(maps[v], page);
    P == 0 || !IsParentStart(s, P) || IsRegionStart(s, v, page) || !HeldAt(maps, s, P)
  }

  lemma ParentPart(parent: Heap, P: nat, protectOnRelease: bool)
    requires parent.Fits(PARENT_GEOMETRY) && HeapRuns.Inv(parent) && P < |parent.table|
    ensures var (p, pr) := ReleasePages(PARENT_GEOMETRY, parent, P, protectOnRelease);
            && (pr == Success <==> P != 0 && IsParentStart(Machine(parent.table, []), P))
            && (pr != Success ==> p == parent)
            && (pr == Success ==> p.table == Released(parent.table, P, parent.table[P].regionPageCount))
            && HeapRuns.Inv(p) && Counted(parent, p)
  {
    HeapRuns.ReleaseStep(PARENT_GEOMETRY, parent, P, protectOnRelease);
  }

  /** The view's own part: a region that starts at the page goes, anything else is refused. */
  lemma OwnPart(geo: Geometry, h: Heap, page: nat, protectOnRelease: bool)
    requires geo.Valid() && h.Fits(geo) && HeapRuns.Inv(h) && page < |h.table| && (page > 0 || geo.base > 0)
    ensures var (o, r) := ReleasePages(geo, h, page, protectOnRelease);
            && HeapRuns.Inv(o) && |o.host| == |h.host|
            && o.table == if IsRegionStart(Machine([], [h.table]), 0, page)
                 then Released(h.table, page, h.table[page].regionPageCount)
                          else h.table
  {
    HeapRuns.ReleaseStep(geo, h, page, protectOnRelease);
    assert PageOk(h.table, page);
  }

  /** Release at an address of a page: the address may belong to this view's region, to another view's, or
      to the parent's own. */
  lemma ReleaseCallExactly(maps: seq<ViewMap>, s: Machine, v: nat, geo: Geometry, parent: Heap, own: Heap, w: Bits,
                           page: nat, base: u32, protectOnRelease: bool)
    requires Through(maps, s, v, geo, parent, own) && Shape(geo, own, w) && SystemPageCount(geo) == |own.host|
    requires page < |own.table| && IsPageAddress(geo, page, base) && |maps| == |s.views|
             && ParentPage(maps[v], page) < |parent.table|
    ensures var (p, o, w', _) := PhysicalMemory.ViewRelease(geo, parent, own, w, base, protectOnRelease);
            && (Consistent(maps, Seen(s, v, p, o)) <==> ReleaseCallKeeps(maps, s, v, page))
            && (Consistent(maps, Seen(s, v, p, o)) ==> Next(maps, s, Seen(s, v, p, o)))
            && Counted(parent, p) && HeapRuns.Inv(o) && Shape(geo, o, w') && |o.host| == |own.host| && |w'| == |w|
  {
    hide Consistent, WellFormed, TriggeredAt, Released, ReleasePages, HeldAt, Quotient, HeapRuns.Inv, Backed, CountFree;
    var P := ParentPage(maps[v], page);
    var (p, o, _, _) := PhysicalMemory.ViewRelease(geo, parent, own, w, base, protectOnRelease);
    ParentPart(parent, P, protectOnRelease);
    if P == 0 || !IsParentStart(s, P) {
      RefusedIsNext(maps, s, v, parent, own);
    } else {
      TriggeredTable(geo, own, w, base, own.table[page].regionPageCount * geo.pageSize % U32, true, true, []);
      var t := TriggeredAt(geo, own, w, base, own.table[page].regionPageCount * geo.pageSize % U32, true, true, []);
      OwnTriggered(own, t.0);
      OwnPart(geo, t.0, page, protectOnRelease);
      if IsRegionStart(s, v, page) {
        FreedKeeps(maps, s, v, page);
        assert Seen(s, v, p, o) == Freed(maps, s, v, page, own.table[page].regionPageCount);
      } else {
        assert Seen(s, v, p, o) == s.(parent := Released(s.parent, P, s.parent[P].regionPageCount));
        ParentReleasedExactly(maps, s, P);
      }
    }
  }

  lemma OwnTriggered(own: Heap, h: Heap)
    requires HeapRuns.Inv(own) && h.table == own.table && h.unreserved == own.unreserved
    ensures HeapRuns.Inv(h)
  {
  }

  // ---- runs of calls --------------------------------------------------------------------------

  /** The parent heap and the views with their watch bits. */
  datatype Memory = Memory(parent: Heap, own: seq<Heap>, bits: seq<Bits>) {
    ghost function Tables(): Machine {
      Machine(parent.table, seq(|own|, v requires 0 <= v < |own| => own[v].table))
    }
  }

  function MapsOf(geos: seq<Geometry>): seq<ViewMap> {
    seq(|geos|, v requires 0 <= v < |geos| => MapOf(geos[v]))
  }

  ghost predicate ViewSound(geo: Geometry, own: Heap, w: Bits) {
    ViewOk(geo) && own.Fits(geo) && HeapRuns.Inv(own) && Shape(geo, own, w) && SystemPageCount(geo) == |own.host|
  }

  ghost predicate Sound(geos: seq<Geometry>, m: Memory) {
    && |m.own| == |geos| && |m.bits| == |geos| && m.parent.Fits(PARENT_GEOMETRY) && HeapRuns.Inv(m.parent)
    && Consistent(MapsOf(geos), m.Tables())
    && forall v :: 0 <= v < |geos| ==> ViewSound(geos[v], m.own[v], m.bits[v])
  }

  /** The calls through view `v`; fixed placement and release at an address of page `page`. */
  datatype ViewCall =
    | Fixed(v: nat, page: nat, size: u32, alignment: u32, alloc: bv2, protect: bv4, parentOk: bool, hostOk: bool)
    | Range(v: nat, low: u32, high: u32, size: u32, alignment: u32, alloc: bv2, protect: bv4, topDown: bool,
            parentOk: bool, hostOk: bool)
    | Release(v: nat, page: nat, protectOnRelease: bool)
    | Decommit(v: nat, address: u32, size: u32)
    | Protect(v: nat, address: u32, size: u32, protect: bv4, parentOk: bool, hostOk: bool)
    | Watch(v: nat, address: u32, length: u32)
    | Trigger(v: nat, address: u32, length: u32, exact: bool, unprotect: bool, answers: seq<Answer>)

  ghost predicate IsRequest(geo: Geometry, size: u32, alignment: u32, alloc: bv2)
    requires geo.Valid()
  {
    && alloc != 0 && ViewRequest(geo, size, alignment)
    && RoundUp(size, geo.pageSize) <= U32 - RoundUp(alignment, geo.pageSize)
  }

  ghost predicate Callable(geos: seq<Geometry>, c: ViewCall) {
    && c.v < |geos| && ViewOk(geos[c.v])
    && var geo := geos[c.v];
       match c
       case Fixed(_, page, size, alignment, alloc, _, _, _) =>
         page < geo.Pages() && IsRequest(geo, size, alignment, alloc)
       case Range(_, low, high, size, alignment, alloc, _, _, _, _) =>
         IsRequest(geo, size, alignment, alloc)
         && InBounds(ViewScan(geo, low, high, alignment), PageCount(RoundUp(size, geo.pageSize), SYSTEM_PAGE))
       case Release(_, page, _) => page < geo.Pages()
       case _ => true
  }

  ghost function AddressOf(geo: Geometry, page: nat): (base: u32)
    requires ViewOk(geo) && page < geo.Pages()
    ensures IsPageAddress(geo, page, base) && base == geo.base + page * geo.pageSize
  {
    EveryPageHasAddress(geo, page);
    geo.base + page * geo.pageSize
  }

  lemma PageUnder(geo: Geometry, page: nat)
    requires ViewOk(geo) && page < geo.Pages()
    ensures ParentPage(MapOf(geo), page) < PARENT_GEOMETRY.Pages()
  {
    PageInsideView(geo, page);
    PinAddress(geo, page * geo.pageSize);
    ScaledPages(geo, page);
    ParentPages();
  }

  /** What the view, the parent and the bits are after the call, and how it ended. */
  ghost function Called(geos: seq<Geometry>, m: Memory, c: ViewCall): (Heap, Heap, Bits, Outcome)
    requires Sound(geos, m) && Callable(geos, c)
  {
    var geo, own, w := geos[c.v], m.own[c.v], m.bits[c.v];
    assert ViewSound(geo, own, w);
    match c
    case Fixed(_, page, size, alignment, alloc, protect, parentOk, hostOk) =>
      var r := ViewAllocFixed(geo, m.parent, own, AddressOf(geo, page), size, alignment, alloc, protect, parentOk,
                              hostOk);
      (r.0, r.1, w, r.2)
    case Range(_, low, high, size, alignment, alloc, protect, topDown, parentOk, hostOk) =>
      var r := ViewAllocRange(geo, m.parent, own, low, high, size, alignment, alloc, protect, topDown, parentOk,
                              hostOk);
      (r.0, r.1, w, r.2)
    case Release(_, page, protectOnRelease) =>
      PageUnder(geo, page);
      PhysicalMemory.ViewRelease(geo, m.parent, own, w, AddressOf(geo, page), protectOnRelease)
    case Decommit(_, address, size) =>
      ParentPages();
      var r := ViewDecommit(geo, m.parent, own, w, address, size);
      (r.0, r.1, r.2, Success)
    case Protect(_, address, size, protect, parentOk, hostOk) =>
      ViewProtect(geo, m.parent, own, w, address, size, protect, parentOk, hostOk)
    case Watch(_, address, length) =>
      var r := EnabledAt(geo, own, w, address, length);
      (m.parent, r.0, r.1, Success)
    case Trigger(_, address, length, exact, unprotect, answers) =>
      var r := TriggeredAt(geo, own, w, address, length, exact, unprotect, answers);
      (m.parent, r.0, r.1, Success)
  }

  ghost function After(geos: seq<Geometry>, m: Memory, c: ViewCall): Memory
    requires Sound(geos, m) && Callable(geos, c)
  {
    var r := Called(geos, m, c);
    Memory(r.0, m.own[c.v := r.1], m.bits[c.v := r.2])
  }

  /** Which calls keep parent and views coupled. */
  ghost predicate Keeps(geos: seq<Geometry>, m: Memory, c: ViewCall)
    requires Sound(geos, m) && Callable(geos, c)
  {
    var geo, maps, s := geos[c.v], MapsOf(geos), m.Tables();
    match c
    case Fixed(v, page, size, alignment, alloc, _, parentOk, hostOk) =>
      FixedCallKeeps(maps, s, v, page,
                     FixedPageCount(geo, RoundUp(size, geo.pageSize), RoundUp(alignment, geo.pageSize)), alloc,
                     parentOk, hostOk)
    case Range(v, low, high, size, alignment, alloc, _, topDown, parentOk, hostOk) =>
      RangeCallKeeps(geo, s.parent, s.views[v], low, high, size, alignment, alloc, topDown, parentOk, hostOk)
    case Release(v, page, _) => ReleaseCallKeeps(maps, s, v, page)
    case _ => true
  }

  lemma MemoryThrough(geos: seq<Geometry>, m: Memory, v: nat)
    requires Sound(geos, m) && v < |geos|
    ensures Through(MapsOf(geos), m.Tables(), v, geos[v], m.parent, m.own[v]) && ViewSound(geos[v], m.own[v], m.bits[v])
    ensures |MapsOf(geos)| == |m.Tables().views|
  {
    assert ViewSound(geos[v], m.own[v], m.bits[v]);
  }

  lemma PlacedCounts(geo: Geometry, h: Heap, first: nat, count: nat, alloc: bv2, protect: bv4, hostOk: bool)
    requires geo.Valid() && h.Fits(geo) && HeapRuns.Inv(h) && 0 < |h.table| && count > 0 && alloc != 0
    ensures Counted(h, AllocPages(geo, h, first, count, alloc, protect, hostOk).0)
  {
    HeapRuns.FixedStepExactly(geo, h, first, count, alloc, protect, hostOk);
  }

  lemma FixedCounts(geo: Geometry, parent: Heap, own: Heap, base: u32, size: u32, alignment: u32, alloc: bv2,
                    protect: bv4, parentOk: bool, hostOk: bool)
    requires ViewOk(geo) && own.Fits(geo) && parent.Fits(PARENT_GEOMETRY) && HeapRuns.Inv(parent) && HeapRuns.Inv(own)
    requires 0 < |own.table| && IsRequest(geo, size, alignment, alloc)
    ensures var (p, o, _) := ViewAllocFixed(geo, parent, own, base, size, alignment, alloc, protect, parentOk, hostOk);
            Counted(parent, p) && Counted(own, o)
  {
    hide AllocPages, RoundUp, Quotient, ViewAddress, Physical;
    ParentPages();
    var pageBytes, pageAlign := RoundUp(size, geo.pageSize), RoundUp(alignment, geo.pageSize);
    PlacedCounts(PARENT_GEOMETRY, parent, PARENT_GEOMETRY.PageOf(Physical(geo, base)),
      FixedPageCount(PARENT_GEOMETRY, pageBytes, pageAlign), alloc, protect, parentOk);
    PlacedCounts(geo, own, geo.PageOf(ViewAddress(geo, Physical(geo, base))),
                 FixedPageCount(geo, pageBytes, pageAlign), alloc, protect, hostOk);
  }

  lemma RangeCounts(geo: Geometry, parent: Heap, own: Heap, low: u32, high: u32, size: u32, alignment: u32, alloc: bv2,
                    protect: bv4, topDown: bool, parentOk: bool, hostOk: bool)
    requires ViewOk(geo) && own.Fits(geo) && parent.Fits(PARENT_GEOMETRY) && HeapRuns.Inv(parent) && HeapRuns.Inv(own)
    requires 0 < |own.table| && IsRequest(geo, size, alignment, alloc)
    requires InBounds(ViewScan(geo, low, high, alignment), PageCount(RoundUp(size, geo.pageSize), SYSTEM_PAGE))
    ensures var (p, o, _, _) :=
            ViewAllocRange(geo, parent, own, low, high, size, alignment, alloc, protect, topDown, parentOk, hostOk);
            Counted(parent, p) && Counted(own, o)
  {
    hide AllocPages, RoundUp, Quotient, ViewAddress, ViewScan, AllocSearched, AllocInRange, PageCount, FixedPageCount,
      CountFree, WellFormed;
    BytesInParent(geo, size);
    ParentAnswers(geo, parent, low, high, size, alignment, alloc, protect, topDown, parentOk);
    var (_, _, pa) := AllocSearched(PARENT_GEOMETRY, parent, ViewScan(geo, low, high, alignment),
                                    PageCount(RoundUp(size, geo.pageSize), SYSTEM_PAGE), alloc, protect, topDown,
                                      parentOk);
    PlacedCounts(geo, own, geo.PageOf(ViewAddress(geo, pa % U32)),
      FixedPageCount(geo, RoundUp(size, geo.pageSize), RoundUp(alignment, geo.pageSize)), alloc, protect, hostOk);
  }

  /** What a call through view `v` makes of the machine: the counts are right in any case; the coupling
      stays exactly when `kept`, and then the call is a step. */
  ghost predicate IsCall(maps: seq<ViewMap>, s: Machine, v: nat, parent: Heap, own: Heap, w: Bits, p: Heap, o: Heap,
                         w': Bits, kept: bool) {
    && v < |s.views| && Counted(parent, p) && Counted(own, o) && |w'| == |w|
    && (Consistent(maps, Seen(s, v, p, o)) <==> kept)
    && (kept ==> Next(maps, s, Seen(s, v, p, o)))
  }

  lemma FixedIsCall(geos: seq<Geometry>, m: Memory, c: ViewCall)
    requires Sound(geos, m) && Callable(geos, c) && c.Fixed?
    ensures var (p, o, w', _) := Called(geos, m, c);
            IsCall(MapsOf(geos), m.Tables(), c.v, m.parent, m.own[c.v], m.bits[c.v], p, o, w', Keeps(geos, m, c))
  {
    hide ViewAllocFixed, Consistent, Next, Counted, RoundUp, Quotient, FixedPageCount, ViewRequest, WellFormed,
      HeapRuns.Inv;
    MemoryThrough(geos, m, c.v);
    var geo, own := geos[c.v], m.own[c.v];
    FixedCallExactly(MapsOf(geos), m.Tables(), c.v, geo, m.parent, own, c.page, AddressOf(geo, c.page), c.size,
                     c.alignment,
      c.alloc, c.protect, c.parentOk, c.hostOk);
    FixedCounts(geo, m.parent, own, AddressOf(geo, c.page), c.size, c.alignment, c.alloc, c.protect, c.parentOk,
                c.hostOk);
  }

  lemma RangeIsCall(geos: seq<Geometry>, m: Memory, c: ViewCall)
    requires Sound(geos, m) && Callable(geos, c) && c.Range?
    ensures var (p, o, w', _) := Called(geos, m, c);
            IsCall(MapsOf(geos), m.Tables(), c.v, m.parent, m.own[c.v], m.bits[c.v], p, o, w', Keeps(geos, m, c))
  {
    hide ViewAllocRange, Consistent, Next, Counted, RoundUp, Quotient, FixedPageCount, PageCount, ViewRequest,
      WellFormed, HeapRuns.Inv, ViewScan;
    MemoryThrough(geos, m, c.v);
    var geo, own := geos[c.v], m.own[c.v];
    RangeCallExactly(MapsOf(geos), m.Tables(), c.v, geo, m.parent, own, c.low, c.high, c.size, c.alignment, c.alloc,
                     c.protect,
      c.topDown, c.parentOk, c.hostOk);
    RangeCounts(geo, m.parent, own, c.low, c.high, c.size, c.alignment, c.alloc, c.protect, c.topDown, c.parentOk,
                c.hostOk);
  }

  lemma ReleaseIsCall(geos: seq<Geometry>, m: Memory, c: ViewCall)
    requires Sound(geos, m) && Callable(geos, c) && c.Release?
    ensures var (p, o, w', _) := Called(geos, m, c);
            IsCall(MapsOf(geos), m.Tables(), c.v, m.parent, m.own[c.v], m.bits[c.v], p, o, w', Keeps(geos, m, c))
  {
    hide PhysicalMemory.ViewRelease, Consistent, Next, Quotient, WellFormed, CountFree, ReleaseCallKeeps,
      IsPageAddress, Mapped;
    MemoryThrough(geos, m, c.v);
    var geo, own := geos[c.v], m.own[c.v];
    PageUnder(geo, c.page);
    ReleaseCallExactly(MapsOf(geos), m.Tables(), c.v, geo, m.parent, own, m.bits[c.v], c.page, AddressOf(geo, c.page),
                       c.protectOnRelease);
  }

  lemma QuietIsCall(geos: seq<Geometry>, m: Memory, c: ViewCall)
    requires Sound(geos, m) && Callable(geos, c) && (c.Decommit? || c.Protect? || c.Watch? || c.Trigger?)
    ensures var (p, o, w', _) := Called(geos, m, c);
            IsCall(MapsOf(geos), m.Tables(), c.v, m.parent, m.own[c.v], m.bits[c.v], p, o, w', Keeps(geos, m, c))
  {
    hide ViewDecommit, ViewProtect, EnabledAt, TriggeredAt, Consistent, Next, Quotient, WellFormed, CountFree;
    MemoryThrough(geos, m, c.v);
    var maps, s, v := MapsOf(geos), m.Tables(), c.v;
    var geo, own, w := geos[v], m.own[v], m.bits[v];
    ParentPages();
    match c
    case Decommit(_, address, size) => DecommitCallKeeps(maps, s, v, geo, m.parent, own, w, address, size);
    case Protect(_, address, size, protect, parentOk, hostOk) =>
      ProtectCallKeeps(maps, s, v, geo, m.parent, own, w, address, size, protect, parentOk, hostOk);
    case Watch(_, address, length) =>
      var (o, _) := EnabledAt(geo, own, w, address, length);
      EnabledTable(geo, own, w, address, length);
      RefusedIsNext(maps, s, v, m.parent, o);
    case Trigger(_, address, length, exact, unprotect, answers) =>
      var (o, _, _) := TriggeredAt(geo, own, w, address, length, exact, unprotect, answers);
      TriggeredTable(geo, own, w, address, length, exact, unprotect, answers);
      RefusedIsNext(maps, s, v, m.parent, o);
  }

  lemma EnabledTable(geo: Geometry, h: Heap, w: Bits, address: u32, length: u32)
    requires Shape(geo, h, w) && ViewGeometry(geo) && SystemPageCount(geo) == |h.host|
    ensures var t := EnabledAt(geo, h, w, address, length);
            t.0.table == h.table && t.0.unreserved == h.unreserved && |t.0.host| == |h.host| && |t.1| == |w|
  {
  }

  lemma EveryIsCall(geos: seq<Geometry>, m: Memory, c: ViewCall)
    requires Sound(geos, m) && Callable(geos, c)
    ensures var (p, o, w', _) := Called(geos, m, c);
            IsCall(MapsOf(geos), m.Tables(), c.v, m.parent, m.own[c.v], m.bits[c.v], p, o, w', Keeps(geos, m, c))
  {
    hide *;
    match c
    case Fixed(_, _, _, _, _, _, _, _) => FixedIsCall(geos, m, c);
    case Range(_, _, _, _, _, _, _, _, _, _) => RangeIsCall(geos, m, c);
    case Release(_, _, _) => ReleaseIsCall(geos, m, c);
    case _ => QuietIsCall(geos, m, c);
  }

  /** The call keeps parent and views coupled exactly under `Keeps`; then it is a step of the machine, and
      every table and every count of free pages is right again. */
  lemma CallExactly(geos: seq<Geometry>, m: Memory, c: ViewCall)
    requires Sound(geos, m) && Callable(geos, c)
    ensures Sound(geos, After(geos, m, c)) <==> Keeps(geos, m, c)
    ensures Keeps(geos, m, c) ==> Next(MapsOf(geos), m.Tables(), After(geos, m, c).Tables())
  {
    hide Called, Keeps, Consistent, Next, Counted, HeapRuns.Inv, Sound, WellFormed;
    EveryIsCall(geos, m, c);
    var (p, o, w, _) := Called(geos, m, c);
    ReplacedIsSound(geos, m, c.v, p, o, w);
  }

  lemma ReplacedIsSound(geos: seq<Geometry>, m: Memory, v: nat, p: Heap, o: Heap, w: Bits)
    requires Sound(geos, m) && v < |geos| && Counted(m.parent, p) && Counted(m.own[v], o) && |w| == |m.bits[v]|
    ensures var m' := Memory(p, m.own[v := o], m.bits[v := w]);
            && m'.Tables() == Seen(m.Tables(), v, p, o)
            && (Sound(geos, m') <==> Consistent(MapsOf(geos), Seen(m.Tables(), v, p, o)))
  {
    hide Consistent;
    var m' := Memory(p, m.own[v := o], m.bits[v := w]);
    assert m'.Tables() == Seen(m.Tables(), v, p, o);
    assert ViewSound(geos[v], m.own[v], m.bits[v]);
    SameShape(geos[v], m.own[v], o, w);
    if Consistent(MapsOf(geos), Seen(m.Tables(), v, p, o)) {
      WellFormedParts(MapsOf(geos), m'.Tables(), v);
    }
  }

  lemma WellFormedParts(maps: seq<ViewMap>, s: Machine, v: nat)
    requires Consistent(maps, s) && v < |s.views|
    ensures WellFormed(s.parent) && WellFormed(s.views[v])
  {
  }

  // ---- every run ------------------------------------------------------------------------------

  ghost predicate KeptRun(geos: seq<Geometry>, m: Memory, calls: seq<ViewCall>)
    decreases |calls|
  {
    calls != [] ==>
      Sound(geos, m) && Callable(geos, calls[0]) && Keeps(geos, m, calls[0])
        && KeptRun(geos, After(geos, m, calls[0]), calls[1..])
  }

  ghost function RunOf(geos: seq<Geometry>, m: Memory, calls: seq<ViewCall>): Memory
    requires KeptRun(geos, m, calls)
    decreases |calls|
  {
    if calls == [] then m else RunOf(geos, After(geos, m, calls[0]), calls[1..])
  }

  /** After every run of calls, of any kind and through any of the views, parent and views are coupled,
      every table is consistent and every cached count is the number of free pages. */
  lemma {:induction false} EveryRunSound(geos: seq<Geometry>, m: Memory, calls: seq<ViewCall>)
    requires Sound(geos, m) && KeptRun(geos, m, calls)
    ensures Sound(geos, RunOf(geos, m, calls))
    decreases |calls|
  {
    hide Sound, Keeps, Callable, After;
    if calls != [] {
      CallExactly(geos, m, calls[0]);
      EveryRunSound(geos, After(geos, m, calls[0]), calls[1..]);
    }
  }

  // ---- where runs begin -----------------------------------------------------------------------

  function EmptyHeap(geo: Geometry): (h: Heap)
    requires geo.pageSize > 0
    ensures h.Fits(geo)
  {
    Heap(seq(geo.Pages(), _ => FREE_ENTRY), geo.Pages(), seq(geo.Pages() * geo.Scale() + geo.Shift(), _ => NoAccess))
  }

  /** All heaps empty and nothing watched. */
  function EmptyMemory(geos: seq<Geometry>): Memory
    requires forall v :: 0 <= v < |geos| ==> geos[v].pageSize > 0
  {
    Memory(EmptyHeap(PARENT_GEOMETRY), seq(|geos|, v requires 0 <= v < |geos| => EmptyHeap(geos[v])),
           seq(|geos|, v requires 0 <= v < |geos| => seq(SystemPageCount(geos[v]), _ => false)))
  }

  lemma EmptyIsRight(geo: Geometry)
    requires geo.Valid()
    ensures HeapRuns.Inv(EmptyHeap(geo)) && AllEmpty(EmptyHeap(geo).table)
  {
    FreeInAll(EmptyHeap(geo).table, 0, geo.Pages());
  }

  lemma EmptyViewSound(geo: Geometry)
    requires ViewOk(geo)
    ensures ViewSound(geo, EmptyHeap(geo), seq(SystemPageCount(geo), _ => false))
    ensures geo.Scale() > 0 && ParentPage(MapOf(geo), geo.Pages()) <= PARENT_GEOMETRY.Pages()
  {
    EmptyIsRight(geo);
    ParentPages();
    ScaleFacts(geo);
    QuotientIsDivision(geo.size, geo.pageSize);
    PositiveMultipleAtLeast(geo.size, geo.pageSize);
    HostPagesOfView(geo, EmptyHeap(geo), seq(SystemPageCount(geo), _ => false));
    ScaledPages(geo, geo.Pages());
  }

  lemma EmptySound(geos: seq<Geometry>)
    requires forall v :: 0 <= v < |geos| ==> geos[v].pageSize > 0 && ViewOk(geos[v])
    ensures Sound(geos, EmptyMemory(geos))
  {
    hide Quotient, SystemPageCount, WellFormed, ViewSound, HeapRuns.Inv;
    var m := EmptyMemory(geos);
    EmptyIsRight(PARENT_GEOMETRY);
    forall v | 0 <= v < |geos|
      ensures ViewSound(geos[v], m.own[v], m.bits[v]) && AllEmpty(m.own[v].table) && geos[v].Scale() > 0
      ensures ParentPage(MapOf(geos[v]), geos[v].Pages()) <= PARENT_GEOMETRY.Pages()
    {
      EmptyViewSound(geos[v]);
      EmptyIsRight(geos[v]);
    }
    StartConsistent(MapsOf(geos), m.Tables());
  }

  /** A placement in the parent alone, over free pages, as `Memory::Initialize` makes for the last 64 KB. */
  lemma ParentReserved(geos: seq<Geometry>, m: Memory, first: nat, count: nat, alloc: bv2, protect: bv4, hostOk: bool)
    requires Sound(geos, m) && 0 < count && alloc != 0 && AllFree(m.parent.table, first, count)
    ensures var (p, r) := AllocPages(PARENT_GEOMETRY, m.parent, first, count, alloc, protect, hostOk);
            && Sound(geos, m.(parent := p)) && (r == Success <==> alloc == RESERVE || hostOk)
  {
    ParentPages();
    PlacedCounts(PARENT_GEOMETRY, m.parent, first, count, alloc, protect, hostOk);
    var (p, r) := AllocPages(PARENT_GEOMETRY, m.parent, first, count, alloc, protect, hostOk);
    ParentPlacementKeeps(MapsOf(geos), m.Tables(), Extent(first, count), alloc, protect);
    assert m.(parent := p).Tables() == m.Tables().(parent := p.table);
  }
}
