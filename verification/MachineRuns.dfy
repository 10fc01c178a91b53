/** Runs of the memory system: over all views and their parent, and of one view with its watch bits. */
module MachineRuns {
  import opened Arith
  import opened PageTable
  import opened HeapSpec
  import opened Coupling
  import opened UnwatchRange
  import opened PhysicalMemory
  import opened ViewRuns
  import opened ViewCalls
  import opened WriteWatch
  import HeapRuns

  // ---- all views and their parent -----------------------------------------------------------

  /** Fixed placement in the parent alone: the last 64 KB of memory (`Memory::Initialize`), and what is
      lost when a view refuses its part. */
  ghost predicate ParentPlacement(maps: seq<ViewMap>, s: Machine, s': Machine) {
    exists x: Extent, alloc: bv2, protect: bv4 ::
      ParentPlacementOk(maps, s, x, alloc) && s' == ParentPlaced(s, x, alloc, protect)
  }

  ghost predicate ParentPlacementOk(maps: seq<ViewMap>, s: Machine, x: Extent, alloc: bv2) {
    && |maps| == |s.views| && 0 < x.count && x.first + x.count <= |s.parent| && alloc != 0
    && (FixedAllocType(s.parent, x.first, x.count, alloc) & RESERVE == 0
        || (Uncut(s.parent, x) && OnlyWhole(maps, s, x)))
  }

  ghost function ParentPlaced(s: Machine, x: Extent, alloc: bv2, protect: bv4): Machine {
    s.(parent := Allocated(s.parent, x.first, x.count, FixedAllocType(s.parent, x.first, x.count, alloc), protect))
  }

  /** A region of the parent that no view has is released. */
  ghost predicate ParentRelease(maps: seq<ViewMap>, s: Machine, s': Machine) {
    exists P: nat :: |maps| == |s.views| && IsParentStart(s, P) && !HeldAt(maps, s, P)
      && s' == s.(parent := Released(s.parent, P, s.parent[P].regionPageCount))
  }

  ghost predicate IsParentStart(s: Machine, P: nat) {
    P < |s.parent| && s.parent[P].state != 0 && s.parent[P].baseAddress == P
  }

  /** Placement through a view in a window that the parent found free. */
  ghost predicate ViewPlacement(maps: seq<ViewMap>, s: Machine, s': Machine) {
    exists v: nat, alloc: bv2, protect: bv4 :: alloc & RESERVE != 0 && IsPlacement(maps, s, v, s', alloc, protect)
  }

  /** Fixed placement through a view, for any allocation type. */
  ghost predicate FixedPlacement(maps: seq<ViewMap>, s: Machine, s': Machine) {
    exists v: nat, first: nat, count: nat, alloc: bv2, protect: bv4 ::
      FixedPlacementOk(maps, s, v, first, count, alloc) && s' == FixedPlaced(maps, s, v, first, count, alloc, protect)
  }

  ghost predicate FixedPlacementOk(maps: seq<ViewMap>, s: Machine, v: nat, first: nat, count: nat, alloc: bv2) {
    && |maps| == |s.views| && v < |s.views| && 0 < count && first + count <= |s.views[v]| && alloc != 0
    && FixedKeeps(maps, s, v, first, count, alloc)
  }

  ghost predicate ViewRelease(maps: seq<ViewMap>, s: Machine, s': Machine) {
    exists v: nat, page: nat :: IsRegionStart(s, v, page) && |maps| == |s.views|
      && s' == Freed(maps, s, v, page, s.views[v][page].regionPageCount)
  }

  ghost predicate IsRegionStart(s: Machine, v: nat, page: nat) {
    v < |s.views| && page < |s.views[v]| && s.views[v][page].state != 0 && s.views[v][page].baseAddress == page
  }

  /** Decommit and protect, and calls that are refused. */
  ghost predicate SameLayout(s: Machine, s': Machine) {
    && |s'.views| == |s.views| && SameRegions(s.parent, s'.parent) && WellFormed(s'.parent)
    && forall v :: 0 <= v < |s.views| ==> SameRegions(s.views[v], s'.views[v]) && WellFormed(s'.views[v])
  }

  ghost predicate Next(maps: seq<ViewMap>, s: Machine, s': Machine) {
    || ViewPlacement(maps, s, s') || FixedPlacement(maps, s, s') || ViewRelease(maps, s, s')
    || ParentPlacement(maps, s, s') || ParentRelease(maps, s, s') || SameLayout(s, s')
  }

  /** Over free pages a placement in the parent alone is such a step. */
  lemma ParentPlacementKeeps(maps: seq<ViewMap>, s: Machine, x: Extent, alloc: bv2, protect: bv4)
    requires Consistent(maps, s) && 0 < x.count && alloc != 0 && AllFree(s.parent, x.first, x.count)
    ensures ParentPlacementOk(maps, s, x, alloc) && FixedAllocType(s.parent, x.first, x.count, alloc) == alloc | RESERVE
    ensures Consistent(maps, ParentPlaced(s, x, alloc, protect))
  {
    assert s.parent[x.first].state & RESERVE == 0;
    ReserveBits(alloc);
    forall v, i | 0 <= v < |s.views| && 0 <= i < |s.views[v]| && s.views[v][i].state != 0
      ensures !ExtentOf(maps[v], s.views[v][i]).Overlaps(x)
    {
      assert Backed(s.parent, ExtentOf(maps[v], s.views[v][i]));
      BackedNotFree(s.parent, ExtentOf(maps[v], s.views[v][i]), x);
    }
    ParentFixedExactly(maps, s, x, alloc, protect);
  }

  lemma NextKeeps(maps: seq<ViewMap>, s: Machine, s': Machine)
    requires Consistent(maps, s) && Next(maps, s, s')
    ensures Consistent(maps, s')
  {
    hide Consistent, WellFormed, FixedKeeps, OnlyWhole, Uncut, HeldAt, FixedAllocType, Allocated, Released, SameRegions;
    if ViewPlacement(maps, s, s') {
      var v: nat, alloc: bv2, protect: bv4 :| alloc & RESERVE != 0 && IsPlacement(maps, s, v, s', alloc, protect);
      var first: nat, count: nat :| PlacedInFree(maps, s, v, first, count)
        && s' == Placed(maps, s, v, first, count, alloc, protect);
      WindowPlacedKeeps(maps, s, v, first, count, alloc, protect);
    } else if FixedPlacement(maps, s, s') {
      var v: nat, first: nat, count: nat, alloc: bv2, protect: bv4 :|
        FixedPlacementOk(maps, s, v, first, count, alloc)
          && s' == FixedPlaced(maps, s, v, first, count, alloc, protect);
      FixedKeepsExactly(maps, s, v, first, count, alloc, protect);
    } else if ViewRelease(maps, s, s') {
      var v: nat, page: nat :| IsRegionStart(s, v, page)
        && s' == Freed(maps, s, v, page, s.views[v][page].regionPageCount);
      FreedKeeps(maps, s, v, page);
    } else if ParentPlacement(maps, s, s') {
      var x: Extent, alloc: bv2, protect: bv4 :|
        ParentPlacementOk(maps, s, x, alloc) && s' == ParentPlaced(s, x, alloc, protect);
      ParentFixedExactly(maps, s, x, alloc, protect);
    } else if ParentRelease(maps, s, s') {
      var P: nat :| IsParentStart(s, P) && !HeldAt(maps, s, P)
        && s' == s.(parent := Released(s.parent, P, s.parent[P].regionPageCount));
      ParentReleasedExactly(maps, s, P);
    } else {
      SameRegionsKeep(maps, s, s');
    }
  }

  lemma WindowPlacedKeeps(maps: seq<ViewMap>, s: Machine, v: nat, first: nat, count: nat, alloc: bv2, protect: bv4)
    requires Consistent(maps, s) && PlacedInFree(maps, s, v, first, count) && alloc & RESERVE != 0
    ensures Consistent(maps, Placed(maps, s, v, first, count, alloc, protect))
  {
    PlacedInFreeKeeps(maps, s, v, first, count, alloc, protect);
  }

  /** In every reachable state each region of a view is one region of the parent of the same extent,
      and no physical page belongs to two views. */
  lemma {:induction false} EveryReachableConsistent(maps: seq<ViewMap>, trace: seq<Machine>)
    requires trace != [] && Consistent(maps, trace[0])
    requires forall i :: 0 <= i < |trace| - 1 ==> Next(maps, trace[i], trace[i + 1])
    ensures Consistent(maps, trace[|trace| - 1])
    decreases |trace|
  {
    if |trace| > 1 {
      var shorter := trace[..|trace| - 1];
      EveryReachableConsistent(maps, shorter);
      assert Next(maps, trace[|trace| - 2], trace[|trace| - 1]);
      NextKeeps(maps, trace[|trace| - 2], trace[|trace| - 1]);
    }
  }

  /** Empty tables are consistent, whatever the views map. */
  lemma StartConsistent(maps: seq<ViewMap>, s: Machine)
    requires MapsOk(maps, s) && AllEmpty(s.parent) && forall v :: 0 <= v < |s.views| ==> AllEmpty(s.views[v])
    ensures Consistent(maps, s)
  {
  }

  ghost predicate AllEmpty(t: Table) {
    forall i :: 0 <= i < |t| ==> t[i] == FREE_ENTRY
  }

  // ---- release through a view ----------------------------------------------------------------

  lemma PagesInsideView(geo: Geometry, page: nat, count: nat)
    requires ViewOk(geo) && count > 0 && page + count <= geo.Pages()
    ensures page * geo.pageSize + count * geo.pageSize <= geo.size && count * geo.pageSize > 0
    ensures page * geo.pageSize + count * geo.pageSize == (page + count) * geo.pageSize
  {
    QuotientIsDivision(geo.size, geo.pageSize);
    assert geo.size == geo.Pages() * geo.pageSize;
    MulOrder(page + count, geo.Pages(), geo.pageSize);
    assert (page + count) * geo.pageSize == page * geo.pageSize + count * geo.pageSize;
    MulAtLeast(count, geo.pageSize);
  }

  /** The host page at the start of a guest page. */
  lemma HostPageOfPage(geo: Geometry, page: nat)
    requires geo.Valid()
    ensures page * geo.pageSize + geo.hostOffset == (page * geo.Scale() + geo.Shift()) * SYSTEM_PAGE
  {
    ScaledPages(geo, page);
    ScaleFacts(geo);
  }

  /** The host pages of whole guest pages. */
  lemma HostPagesOfPages(geo: Geometry, page: nat, count: nat)
    requires ViewOk(geo) && count > 0 && page + count <= geo.Pages()
    requires page * geo.pageSize + count * geo.pageSize <= geo.size && count * geo.pageSize > 0
    ensures var r := HostPages(geo, page * geo.pageSize, count * geo.pageSize);
            && r.first == page * geo.Scale() + geo.Shift()
            && r.last + 1 == (page + count) * geo.Scale() + geo.Shift()
  {
    PagesInsideView(geo, page, count);
    HostPageOfPage(geo, page);
    HostPageOfPage(geo, page + count);
    HostPagesInHeap(geo, page * geo.pageSize, count * geo.pageSize);
    var r := HostPages(geo, page * geo.pageSize, count * geo.pageSize);
    var last := (page + count) * geo.Scale() + geo.Shift() - 1;
    assert (page * geo.pageSize + count * geo.pageSize - 1 + geo.hostOffset) / SYSTEM_PAGE == last;
  }

  /** The host pages [first, last] are those of guest pages [page, page + count). */
  ghost predicate IsCover(geo: Geometry, page: nat, count: nat, first: nat, last: nat) {
    first == page * geo.Scale() + geo.Shift() && last + 1 == (page + count) * geo.Scale() + geo.Shift()
  }

  /** `TriggerCallbacks` on exactly the bytes of whole guest pages. */
  lemma TriggeredAtPages(geo: Geometry, own: Heap, w: Bits, page: nat, count: nat, base: u32, first: nat, last: nat)
    requires ViewOk(geo) && Shape(geo, own, w) && SystemPageCount(geo) == |own.host|
    requires count > 0 && page + count <= geo.Pages() && base == geo.base + page * geo.pageSize
    requires IsCover(geo, page, count, first, last) && geo.Shift() <= first && last < |own.host|
    ensures count * geo.pageSize % U32 == count * geo.pageSize
    ensures TriggeredAt(geo, own, w, base, count * geo.pageSize % U32, true, true, []) == Triggered(geo, own, w,
        first, last, first, last, true)
  {
    PagesInsideView(geo, page, count);
    HostPagesOfPages(geo, page, count);
    HostPagesInHeap(geo, page * geo.pageSize, count * geo.pageSize);
    SmallMod(count * geo.pageSize);
    assert ClipTo(geo.base, geo.size, base, count * geo.pageSize) == Inside(page * geo.pageSize, count * geo.pageSize);
  }

  /** `PhysicalHeap::Release` of whole pages is `ReleasedView` behind the release of the parent. */
  lemma ReleaseByPages(geo: Geometry, parent: Heap, own: Heap, w: Bits, page: nat, base: u32, protectOnRelease: bool,
                       first: nat, last: nat)
    requires ViewOk(geo) && Shape(geo, own, w) && SystemPageCount(geo) == |own.host| && parent.Fits(PARENT_GEOMETRY)
    requires page < |own.table| && own.table[page].regionPageCount > 0
             && page + own.table[page].regionPageCount <= |own.table|
    requires IsPageAddress(geo, page, base) && ParentPage(MapOf(geo), page) < |parent.table|
    requires IsCover(geo, page, own.table[page].regionPageCount, first, last) && geo.Shift() <= first
             && last < |own.host|
    ensures var (p, pr) := ReleasePages(PARENT_GEOMETRY, parent, ParentPage(MapOf(geo), page), protectOnRelease);
            PhysicalMemory.ViewRelease(geo, parent, own, w, base, protectOnRelease)
            == if pr != Success then (p, own, w, pr)
               else var r := ReleasedView(geo, own, w, first, last, page, protectOnRelease); (p, r.0, r.1, r.2)
  {
    TriggeredAtPages(geo, own, w, page, own.table[page].regionPageCount, base, first, last);
  }

  lemma CoverExists(geo: Geometry, page: nat, count: nat, hostPages: nat) returns (first: nat, last: nat)
    requires geo.Scale() > 0 && count > 0 && page + count <= geo.Pages()
             && hostPages == geo.Pages() * geo.Scale() + geo.Shift()
    requires geo.pageSize > 0
    ensures IsCover(geo, page, count, first, last) && geo.Shift() <= first <= last < hostPages
  {
    first := page * geo.Scale() + geo.Shift();
    MulGap(page, page + count, geo.Scale());
    MulOrder(page + count, geo.Pages(), geo.Scale());
    last := (page + count) * geo.Scale() + geo.Shift() - 1;
  }

  lemma MulGap(a: nat, b: nat, g: nat)
    requires a < b && g > 0
    ensures a * g + g <= b * g
  {
    MulOrder(a + 1, b, g);
    assert (a + 1) * g == a * g + g;
  }

  /** Releasing a region through the view that holds it frees it in the view and in the parent,
      takes its watch bits away, and keeps everything else in step. Only the region at physical
      address 0 cannot be released. */
  lemma ReleaseThroughView(maps: seq<ViewMap>, s: Machine, v: nat, geo: Geometry, parent: Heap, own: Heap, w: Bits,
                           page: nat, base: u32, protectOnRelease: bool)
    requires Through(maps, s, v, geo, parent, own) && InStep(geo, own, w) && SystemPageCount(geo) == |own.host|
    requires IsRegionStart(s, v, page) && IsPageAddress(geo, page, base) && ParentPage(maps[v], page) < |parent.table|
    ensures var (p, o, w', r) := PhysicalMemory.ViewRelease(geo, parent, own, w, base, protectOnRelease);
            if ParentPage(maps[v], page) == 0 then r == Failure && p == parent && o == own && w' == w
            else && r == Success && Seen(s, v, p, o) == Freed(maps, s, v, page, own.table[page].regionPageCount)
                 && InStep(geo, o, w') && Consistent(maps, Seen(s, v, p, o)) && HeapRuns.Inv(p) && HeapRuns.Inv(o)
  {
    assert PageOk(own.table, page);
    ScaleFacts(geo);
    var first, last := CoverExists(geo, page, own.table[page].regionPageCount, |own.host|);
    ReleaseByPages(geo, parent, own, w, page, base, protectOnRelease, first, last);
    FreedKeeps(maps, s, v, page);
    HeapRuns.ReleaseStep(PARENT_GEOMETRY, parent, ParentPage(maps[v], page), protectOnRelease);
    if ParentPage(maps[v], page) != 0 {
      OwnRelease(geo, own, w, page, protectOnRelease, first, last);
    }
  }

  lemma OwnRelease(geo: Geometry, own: Heap, w: Bits, page: nat, protectOnRelease: bool, first: nat, last: nat)
    requires ViewOk(geo) && InStep(geo, own, w) && HeapRuns.Inv(own)
    requires page < |own.table| && own.table[page].state != 0 && own.table[page].baseAddress == page
    requires page > 0 || geo.base > 0
    requires IsCover(geo, page, own.table[page].regionPageCount, first, last) && geo.Shift() <= first
             && last < |own.host|
    ensures var (o, w', r) := ReleasedView(geo, own, w, first, last, page, protectOnRelease);
            && r == Success && InStep(geo, o, w') && HeapRuns.Inv(o)
            && o.table == Released(own.table, page, own.table[page].regionPageCount)
  {
    ReleaseViewKeeps(geo, own, w, first, last, page, protectOnRelease);
    TriggerKeeps(geo, own, w, first, last, first, last);
    var own1 := Triggered(geo, own, w, first, last, first, last, true).0;
    HeapRuns.ReleaseStep(geo, own1, page, protectOnRelease);
  }

  // ---- one view with its watch bits ----------------------------------------------------------

  /** The calls on one view, in pages; `[first, last]` are host pages, and those of `Protect` are the
      ones under its whole guest pages. */
  datatype WatchOp =
    | Enable(first: nat, last: nat)
    | Trigger(first: nat, last: nat, from: nat, to: nat)
    | Protect(first: nat, last: nat, page: nat, endPage: nat, protect: bv4, parentOk: bool, hostOk: bool)
    | Decommit(first: nat, last: nat, page: nat, count: nat)
    | Release(first: nat, last: nat, page: nat, protectOnRelease: bool)
    | Place(page: nat, count: nat, alloc: bv2, protect: bv4, hostOk: bool)

  datatype ViewState = ViewState(own: Heap, w: Bits)

  ghost predicate OpRange(geo: Geometry, s: ViewState, op: WatchOp) {
    match op
    case Place(_, count, alloc, _, _) => count > 0 && alloc != 0
    case Trigger(_, _, from, to) => geo.Shift() <= from && to < |s.own.host|
    case _ =>
      && geo.Shift() <= op.first && op.last < |s.own.host|
      && (op.Release? ==> op.page < |s.own.table|)
  }

  ghost function Step(geo: Geometry, s: ViewState, op: WatchOp): ViewState
    requires Shape(geo, s.own, s.w) && OpRange(geo, s, op)
  {
    match op
    case Enable(first, last) => var r := Enabled(geo, s.own, s.w, first, last); ViewState(r.0, r.1)
    case Trigger(first, last, from, to) => var r := Triggered(geo, s.own, s.w, first, last, from, to, true);
      ViewState(r.0, r.1)
    case Protect(first, last, page, endPage, protect, parentOk, hostOk) =>
      var r := ProtectedView(geo, s.own, s.w, first, last, page, endPage, protect, parentOk, hostOk);
        ViewState(r.0, r.1)
    case Decommit(first, last, page, count) => var r := DecommittedView(geo, s.own, s.w, first, last, page, count);
      ViewState(r.0, r.1)
    case Release(first, last, page, protectOnRelease) =>
      var r := ReleasedView(geo, s.own, s.w, first, last, page, protectOnRelease); ViewState(r.0, r.1)
    case Place(page, count, alloc, protect, hostOk) =>
      ViewState(AllocPages(geo, s.own, page, count, alloc, protect, hostOk).0, s.w)
  }

  /** What a caller has to see to: protection changes of whole guest pages that are not refused while
      a page of the range is watched for a guest that may write it, release of whole regions, and no
      commit, for writing, of a page that is still watched. */
  ghost predicate Allowed(geo: Geometry, s: ViewState, op: WatchOp)
    requires Shape(geo, s.own, s.w) && OpRange(geo, s, op)
  {
    match op
    case Protect(first, last, page, endPage, protect, parentOk, hostOk) =>
      && page <= endPage && IsCover(geo, page, endPage + 1 - page, first, last)
      && ((parentOk && hostOk && Protectable(s.own.table, page, endPage))
          || !(protect & PROTECT_WRITE != 0 && WatchedWriter(geo, s.own, s.w, first, last)))
    case Release(first, last, page, _) =>
      IsRegionStart(Machine([], [s.own.table]), 0, page) && (page > 0 || geo.base > 0)
      && IsCover(geo, page, s.own.table[page].regionPageCount, first, last)
    case Place(page, count, alloc, protect, hostOk) =>
      && HeapRuns.Safe(geo, s.own, HeapRuns.FixedOp(page, count, alloc, protect, hostOk))
      && !(FixedAllocType(s.own.table, page, count, alloc) & COMMIT != 0 && ToPageAccess(protect) == ReadWrite
           && exists i :: geo.Shift() <= i < |s.own.host| && s.w[i] && page <= GuestPage(geo, i) < page + count)
    case _ => true
  }

  ghost predicate Good(geo: Geometry, s: ViewState) {
    HeapRuns.Inv(s.own) && InStep(geo, s.own, s.w)
  }

  lemma StepKeeps(geo: Geometry, s: ViewState, op: WatchOp)
    requires ViewOk(geo) && Good(geo, s) && OpRange(geo, s, op) && Allowed(geo, s, op)
    ensures Good(geo, Step(geo, s, op))
  {
    hide WellFormed, CountFree, Quotient, Allocated, PageInStep;
    match op
    case Enable(first, last) => EnableKeeps(geo, s.own, s.w, first, last);
    case Trigger(first, last, from, to) => TriggerKeeps(geo, s.own, s.w, first, last, from, to);
    case Protect(first, last, page, endPage, protect, parentOk, hostOk) =>
      ProtectKeeps(geo, s, first, last, page, endPage, protect, parentOk, hostOk);
    case Decommit(first, last, page, count) => DecommitKeeps(geo, s, first, last, page, count);
    case Release(first, last, page, protectOnRelease) =>
      OwnRelease(geo, s.own, s.w, page, protectOnRelease, first, last);
    case Place(page, count, alloc, protect, hostOk) => PlaceKeeps(geo, s, op);
  }

  lemma PlaceKeeps(geo: Geometry, s: ViewState, op: WatchOp)
    requires ViewOk(geo) && Good(geo, s) && op.Place? && OpRange(geo, s, op) && Allowed(geo, s, op)
    ensures Good(geo, Step(geo, s, op))
  {
    hide WellFormed, CountFree, Quotient, Allocated, PageInStep;
    AllocViewExactly(geo, s.own, s.w, op.page, op.count, op.alloc, op.protect, op.hostOk);
    HeapRuns.FixedStepExactly(geo, s.own, op.page, op.count, op.alloc, op.protect, op.hostOk);
  }

  lemma ProtectKeeps(geo: Geometry, s: ViewState, first: nat, last: nat, page: nat, endPage: nat, protect: bv4,
                     parentOk: bool, hostOk: bool)
    requires ViewOk(geo) && Good(geo, s)
             && OpRange(geo, s, Protect(first, last, page, endPage, protect, parentOk, hostOk))
    requires Allowed(geo, s, Protect(first, last, page, endPage, protect, parentOk, hostOk))
    ensures Good(geo, Step(geo, s, Protect(first, last, page, endPage, protect, parentOk, hostOk)))
  {
    HeapRuns.ProtectStep(geo, s.own, page, endPage, protect, hostOk);
    if parentOk && hostOk && Protectable(s.own.table, page, endPage) {
      var count := endPage + 1 - page;
      forall i | geo.Shift() <= i < |s.own.host|
        ensures first <= i <= last <==> page <= GuestPage(geo, i) < page + count
      {
        CoverIsGuest(geo, i, page, count);
      }
      ProtectViewExactly(geo, s.own, s.w, first, last, page, endPage, protect);
    } else {
      RefusedProtectExactly(geo, s.own, s.w, first, last, page, endPage, protect, parentOk, hostOk);
    }
  }

  lemma DecommitKeeps(geo: Geometry, s: ViewState, first: nat, last: nat, page: nat, count: nat)
    requires ViewOk(geo) && Good(geo, s) && OpRange(geo, s, Decommit(first, last, page, count))
    ensures Good(geo, Step(geo, s, Decommit(first, last, page, count)))
  {
    DecommitViewKeeps(geo, s.own, s.w, first, last, page, count);
    TriggerKeeps(geo, s.own, s.w, first, last, first, last);
    var t := Triggered(geo, s.own, s.w, first, last, first, last, true).0;
    var (start, length) := DecommitSpan(|t.table|, page, count);
    DecommittedKeeps(t.table, start, length);
  }

  ghost predicate AllowedRun(geo: Geometry, s: ViewState, ops: seq<WatchOp>)
    decreases |ops|
  {
    ops != [] ==>
      && Shape(geo, s.own, s.w) && OpRange(geo, s, ops[0]) && Allowed(geo, s, ops[0])
      && AllowedRun(geo, Step(geo, s, ops[0]), ops[1..])
  }

  ghost function RunOf(geo: Geometry, s: ViewState, ops: seq<WatchOp>): ViewState
    requires AllowedRun(geo, s, ops)
    decreases |ops|
  {
    if ops == [] then s else RunOf(geo, Step(geo, s, ops[0]), ops[1..])
  }

  lemma {:induction false} RunKeeps(geo: Geometry, s: ViewState, ops: seq<WatchOp>)
    requires ViewOk(geo) && Good(geo, s) && AllowedRun(geo, s, ops)
    ensures Good(geo, RunOf(geo, s, ops))
    decreases |ops|
  {
    if ops != [] {
      StepKeeps(geo, s, ops[0]);
      RunKeeps(geo, Step(geo, s, ops[0]), ops[1..]);
    }
  }

  /** Write watching is safe over every such run: the host page of a committed page that the guest
      may write is writable exactly when its bit is clear, so that no write to a watched page goes
      unreported and no other write is trapped; and free pages carry no bit. */
  lemma WatchingIsSafe(geo: Geometry, s: ViewState, ops: seq<WatchOp>, i: nat)
    requires ViewOk(geo) && Good(geo, s) && AllowedRun(geo, s, ops)
    requires geo.Shift() <= i < |RunOf(geo, s, ops).own.host|
    ensures var r := RunOf(geo, s, ops);
            && GuestPage(geo, i) < |r.own.table| && i < |r.w|
            && var e := r.own.table[GuestPage(geo, i)];
               && (e.state & COMMIT != 0 && ToPageAccess(e.currentProtect) == ReadWrite ==>
                   (r.own.host[i] == ReadWrite <==> !r.w[i]))
               && (e.state == 0 ==> !r.w[i])
  {
    RunKeeps(geo, s, ops);
    var r := RunOf(geo, s, ops);
    assert PageInStep(geo, r.own, r.w, i);
  }
}
