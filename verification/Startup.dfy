/** What `Memory::Initialize` (src/xenia/memory.cc:139-249) does to physical memory: it sets up the three
    views, takes the last 64 KB in the parent, 16 MB for GPU writeback through the view at 0xC0000000, and
    0x340000 bytes through the view at 0xA0000000. */
module Startup {
  import opened Arith
  import opened PageTable
  import opened PageSearch
  import opened HeapSpec
  import opened Coupling
  import opened UnwatchRange
  import opened PhysicalMemory
  import opened ViewRuns
  import opened ViewCalls
  import opened WriteWatch
  import opened MachineRuns
  import opened ViewSteps
  import opened WatchSteps
  import HeapRuns

  function Views(hostOffset: nat): seq<Geometry> {
    [VIEW_A, VIEW_C, ViewE(hostOffset)]
  }

  const WRITEBACK := ViewCall.Fixed(1, 0, 0x100_0000, 32, RESERVE | COMMIT, PROTECT_READ | PROTECT_WRITE, true, true)
  const UNKNOWN := ViewCall.Range(0, 0xA000_0000, 0xBFFF_FFFF, 0x34_0000, 0x1_0000, RESERVE, 0, true, true, true)

  /** The first page of what the last call takes, at 0x1FCB0000. */
  const UNKNOWN_PAGE: nat := 0x1_FCB0

  lemma ViewsOk(hostOffset: nat)
    requires hostOffset == 0 || hostOffset == SYSTEM_PAGE
    ensures forall v :: 0 <= v < 3 ==> Views(hostOffset)[v].pageSize > 0 && ViewOk(Views(hostOffset)[v])
  {
    EndOfViewE(hostOffset);
    OtherViewsOk();
  }

  lemma OtherViewsOk()
    ensures ViewOk(VIEW_A) && ViewOk(VIEW_C)
  {
  }

  /** All views are empty, and the parent is but for its last 64 KB. */
  ghost predicate IsFirst(m: Memory) {
    && |m.own| == 3 && (forall v :: 0 <= v < 3 ==> AllEmpty(m.own[v].table)) && AllFree(m.parent.table, 0, 0x1_FFF0)
  }

  ghost function First(hostOffset: nat): (m: Memory)
    requires hostOffset == 0 || hostOffset == SYSTEM_PAGE
  {
    ViewsOk(hostOffset);
    var m := EmptyMemory(Views(hostOffset));
    m.(parent := AllocPages(PARENT_GEOMETRY, m.parent, 0x1_FFF0, 0x10, RESERVE, 0, true).0)
  }

  lemma FirstIsSound(hostOffset: nat)
    requires hostOffset == 0 || hostOffset == SYSTEM_PAGE
    ensures var geos, m := Views(hostOffset), First(hostOffset);
            Sound(geos, m) && Watching(geos, m) && IsFirst(m) && AllTaken(m.parent.table, 0x1_FFF0, 0x10)
  {
    hide Sound, Watching, InStep;
    var geos := Views(hostOffset);
    ViewsOk(hostOffset);
    var m := EmptyMemory(geos);
    EmptySound(geos);
    EmptyWatching(geos);
    ParentPages();
    ParentReserved(geos, m, 0x1_FFF0, 0x10, RESERVE, 0, true);
    ParentOnly(geos, m, First(hostOffset));
    assert AllFree(m.parent.table, 0x1_FFF0, 0x10);
    AcceptsExactly(PARENT_GEOMETRY, m.parent, 0x1_FFF0, 0x10, RESERVE, 0, true);
  }

  lemma ParentOnly(geos: seq<Geometry>, m: Memory, m': Memory)
    requires Watching(geos, m) && m'.own == m.own && m'.bits == m.bits
    ensures Watching(geos, m')
  {
  }

  // ---- GPU writeback --------------------------------------------------------------------------

  lemma WritebackRequest()
    ensures ViewOk(VIEW_C) && VIEW_C.Pages() == 32 && IsRequest(VIEW_C, 0x100_0000, 32, RESERVE | COMMIT)
    ensures RoundUp(0x100_0000, VIEW_C.pageSize) == 0x100_0000 && RoundUp(32, VIEW_C.pageSize) == 0x100_0000
    ensures FixedPageCount(VIEW_C, 0x100_0000, 0x100_0000) == 1
    ensures Under(MapOf(VIEW_C), 0, 1) == Extent(0, 0x1000)
  {
    OtherViewsOk();
    QuotientIsDivision(VIEW_C.size, VIEW_C.pageSize);
    assert RoundUp(0x100_0000, 0x1000) == 0x100_0000;
    BytesInView(VIEW_C, 0x100_0000, 0x100_0000);
  }

  /** Free pages of parent and view, and no other view has a region. */
  lemma WritebackCoupled(maps: seq<ViewMap>, s: Machine)
    requires |maps| == |s.views| == 3 && maps[1] == MapOf(VIEW_C)
    requires (forall v :: 0 <= v < 3 ==> AllEmpty(s.views[v])) && |s.views[1]| == 32 && AllFree(s.parent, 0, 0x1_FFF0)
    ensures Accepts(s.parent, 0, 0x1000, RESERVE | COMMIT, true) && Accepts(s.views[1], 0, 1, RESERVE | COMMIT, true)
    ensures AllFree(s.views[1], 0, 1) && FixedKeeps(maps, s, 1, 0, 1, RESERVE | COMMIT)
    ensures FixedCallKeeps(maps, s, 1, 0, 1, RESERVE | COMMIT, true, true)
  {
    hide OthersHold, MapOf, Under, Uncut;
    WritebackRequest();
    NothingHeld(maps, s, 1, Extent(0, 0x1000));
    FreeIsUncut(s.parent, 0x1000);
    assert FixedAllocType(s.parent, 0, 0x1000, RESERVE | COMMIT) == RESERVE | COMMIT;
  }

  lemma FreeIsUncut(p: Table, n: nat)
    requires AllFree(p, 0, n) && 0 < n
    ensures Uncut(p, Extent(0, n))
  {
  }

  lemma TablesOf(geos: seq<Geometry>, m: Memory)
    requires Sound(geos, m)
    ensures |m.own| == |m.bits| == |geos| == |m.Tables().views| == |MapsOf(geos)| && m.Tables().parent == m.parent.table
    ensures forall v :: 0 <= v < |geos| ==>
              && geos[v].pageSize > 0 && MapsOf(geos)[v] == MapOf(geos[v])
              && m.Tables().views[v] == m.own[v].table && m.own[v].Fits(geos[v]) && |m.own[v].table| == geos[v].Pages()
  {
    hide Consistent, Quotient, HeapRuns.Inv, SystemPageCount, MapOf;
    forall v | 0 <= v < |geos|
      ensures geos[v].pageSize > 0 && m.own[v].Fits(geos[v])
    {
      SizesOf(geos[v], m.own[v], m.bits[v]);
    }
  }

  lemma SizesOf(geo: Geometry, own: Heap, w: Bits)
    requires ViewSound(geo, own, w)
    ensures geo.pageSize > 0 && own.Fits(geo)
  {
  }

  lemma FirstTables(geos: seq<Geometry>, m: Memory)
    requires |geos| == 3 && geos[1] == VIEW_C && Sound(geos, m) && IsFirst(m)
    ensures var maps, s := MapsOf(geos), m.Tables();
            && |maps| == |s.views| == 3 && maps[1] == MapOf(VIEW_C) && AllFree(s.parent, 0, 0x1_FFF0)
            && (forall v :: 0 <= v < 3 ==> AllEmpty(s.views[v])) && |s.views[1]| == 32 && m.own[1].Fits(VIEW_C)
  {
    hide Sound, AllEmpty, AllFree, MapOf, Quotient, MapsOf, Memory.Tables;
    WritebackRequest();
    TablesOf(geos, m);
  }

  /** It takes free pages on both sides. */
  lemma WritebackKept(hostOffset: nat, m: Memory)
    requires hostOffset == 0 || hostOffset == SYSTEM_PAGE
    requires Sound(Views(hostOffset), m) && Watching(Views(hostOffset), m) && IsFirst(m)
    ensures var geos := Views(hostOffset);
            && Callable(geos, WRITEBACK) && Keeps(geos, m, WRITEBACK) && WatchKeeps(geos, m, WRITEBACK)
            && var m' := After(geos, m, WRITEBACK);
               && Called(geos, m, WRITEBACK).3 == Success
               && m'.parent.table == Allocated(m.parent.table, 0, 0x1000, RESERVE | COMMIT,
                                               PROTECT_READ | PROTECT_WRITE)
  {
    hide RoundUp, FixedPageCount, ViewAllocFixed, Consistent, Quotient, InStep, WellFormed, Shape, Allocated,
      FixedKeeps,
      OthersHold, HeapRuns.Inv, WatchedIn, Accepts, Through, FixedCallKeeps, IsPageAddress, AllFree, AllEmpty,
      Under, MapOf, Sound, Memory.Tables;
    var geos := Views(hostOffset);
    WritebackRequest();
    MemoryThrough(geos, m, 1);
    var maps, s := MapsOf(geos), m.Tables();
    FirstTables(geos, m);
    WritebackCoupled(maps, s);
    FixedThroughViewExactly(maps, s, 1, VIEW_C, m.parent, m.own[1], 0, AddressOf(VIEW_C, 0), 0x100_0000, 32,
                            RESERVE | COMMIT, PROTECT_READ | PROTECT_WRITE, true, true);
    assert InStep(VIEW_C, m.own[1], m.bits[1]);
    ShapeOf(VIEW_C, m.own[1], m.bits[1]);
    FreePagesUnwatched(VIEW_C, m.own[1], m.bits[1], 0, 1);
  }

  lemma NothingHeld(maps: seq<ViewMap>, s: Machine, v: nat, x: Extent)
    requires |maps| == |s.views| && forall u :: 0 <= u < |s.views| && u != v ==> AllEmpty(s.views[u])
    ensures !OthersHold(maps, s, v, x)
  {
  }

  // ---- the unknown allocation -----------------------------------------------------------------

  lemma UnknownRequest()
    ensures ViewOk(VIEW_A) && IsRequest(VIEW_A, 0x34_0000, 0x1_0000, RESERVE)
    ensures RoundUp(0x34_0000, VIEW_A.pageSize) == 0x34_0000 && RoundUp(0x1_0000, VIEW_A.pageSize) == 0x1_0000
    ensures PageCount(0x34_0000, SYSTEM_PAGE) == 0x340 && 0x34_0000 % 0x1_0000 == 0
    ensures var s := ViewScan(VIEW_A, 0xA000_0000, 0xBFFF_FFFF, 0x1_0000);
            s.low == 0 && InBounds(s, 0x340) && LastBase(s, 0x340) == UNKNOWN_PAGE && s.stride == 0x10
    ensures EndsInside(VIEW_A, 0xA000_0000, 0xBFFF_FFFF, 0x1_0000)
  {
    OtherViewsOk();
    UnknownSizes();
    UnknownEnds();
    RoundedHigh(VIEW_A, 0xA000_0000, 0xBFFF_FFFF, 0x1_0000);
    ParentPages();
    QuotientIsDivision(VIEW_A.size, VIEW_A.pageSize);
  }

  lemma UnknownSizes()
    ensures RoundUp(0x34_0000, 0x1_0000) == 0x34_0000 && RoundUp(0x1_0000, 0x1_0000) == 0x1_0000
    ensures RoundUp(0x1_0000, 0x1000) == 0x1_0000 && U32 % 0x1_0000 == 0
    ensures PageCount(0x34_0000, 0x1000) == 0x340
  {
    assert RoundUp(0x34_0000, 0x1000) == 0x34_0000;
    QuotientIsDivision(0x34_0000, 0x1000);
  }

  lemma UnknownEnds()
    ensures Physical(VIEW_A, 0xA000_0000) == 0 && Physical(VIEW_A, 0xBFFF_FFFF) == 0x1FFF_FFFF
    ensures Align(0, 0x1_0000) == 0 && Align(0x1FFF_FFFF, 0x1_0000) == 0x2000_0000
    ensures PARENT_GEOMETRY.PageOf(0) == 0
    ensures RoundDown(0x1_FFFF, 0x10) == 0x1_FFF0 && RoundDown(0x1_FFF0 - 0x340, 0x10) == UNKNOWN_PAGE
  {
    assert Sub32(0xA000_0000, 0xA000_0000) == 0 && Sub32(0xBFFF_FFFF, 0xA000_0000) == 0x1FFF_FFFF;
    assert Sub32(0, 0) == 0;
    QuotientIsDivision(0, 0x1000);
  }

  /** It takes the last window in front of the reserved 64 KB. */
  lemma UnknownKept(hostOffset: nat, m: Memory)
    requires hostOffset == 0 || hostOffset == SYSTEM_PAGE
    requires Sound(Views(hostOffset), m) && AllFree(m.parent.table, UNKNOWN_PAGE, 0x340)
    ensures var geos := Views(hostOffset);
            && Callable(geos, UNKNOWN) && Keeps(geos, m, UNKNOWN) && WatchKeeps(geos, m, UNKNOWN)
            && Called(geos, m, UNKNOWN).3 == Success
            && After(geos, m, UNKNOWN).parent.table == Allocated(m.parent.table, UNKNOWN_PAGE, 0x340, RESERVE, 0)
  {
    hide RoundUp, PageCount, ViewAllocRange, Consistent, Quotient, InStep, WellFormed, Shape, ViewScan, AllocSearched,
      AllocInRange, LastBase, Allocated, AllFree, InBounds, IsPlacement, CountFree, StartsAligned, BestFit;
    var geos := Views(hostOffset);
    UnknownRequest();
    MemoryThrough(geos, m, 0);
    ParentPages();
    var maps, s, scan := MapsOf(geos), m.Tables(), ViewScan(VIEW_A, 0xA000_0000, 0xBFFF_FFFF, 0x1_0000);
    StrideIsAlignment(VIEW_A, 0xA000_0000, 0xBFFF_FFFF, 0x1_0000);
    LastWindowGiven(m.parent, scan, 0x340, RESERVE, 0, true);
    ParentAnswers(VIEW_A, m.parent, 0xA000_0000, 0xBFFF_FFFF, 0x34_0000, 0x1_0000, RESERVE, 0, true, true);
    PinNeverFails(maps, s, 0, VIEW_A, m.parent, m.own[0], 0xA000_0000, 0xBFFF_FFFF, 0x34_0000, 0x1_0000, RESERVE, 0,
                  true, true);
    ParentOfRange(VIEW_A, m.parent, m.own[0], 0xA000_0000, 0xBFFF_FFFF, 0x34_0000, 0x1_0000, RESERVE, 0, true, true,
                  true);
  }

  /** The parent's part of placement in a range. */
  lemma ParentOfRange(geo: Geometry, parent: Heap, own: Heap, low: u32, high: u32, size: u32, alignment: u32,
                      alloc: bv2, protect: bv4, topDown: bool, parentOk: bool, hostOk: bool)
    requires geo.Valid() && own.Fits(geo) && parent.Fits(PARENT_GEOMETRY) && ViewRequest(geo, size, alignment)
    requires ViewScan(geo, low, high, alignment).high < |parent.table|
    ensures ViewAllocRange(geo, parent, own, low, high, size, alignment, alloc, protect, topDown, parentOk, hostOk).0
            == AllocSearched(PARENT_GEOMETRY, parent, ViewScan(geo, low, high, alignment),
                             PageCount(RoundUp(size, geo.pageSize), SYSTEM_PAGE), alloc, protect, topDown, parentOk).0
  {
    hide RoundUp, PageCount, ViewScan, AllocSearched, Pinned;
  }

  // ---- both -----------------------------------------------------------------------------------

  /** The calls are a run in which everything is kept, from `m` to `end`. */
  ghost predicate Reaches(geos: seq<Geometry>, m: Memory, calls: seq<ViewCall>, end: Memory) {
    && Sound(geos, m) && Watching(geos, m) && WatchedRun(geos, m, calls) && KeptRun(geos, m, calls)
    && ViewSteps.RunOf(geos, m, calls) == end && Sound(geos, end) && Watching(geos, end)
  }

  /** Both calls succeed and are steps of a run in which everything is kept; afterwards the pages in front
      of the last 64 KB, from 0x1FCB0000 on, are taken. */
  lemma InitializeSound(hostOffset: nat) returns (end: Memory)
    requires hostOffset == 0 || hostOffset == SYSTEM_PAGE
    ensures Reaches(Views(hostOffset), First(hostOffset), [WRITEBACK, UNKNOWN], end)
    ensures AllTaken(end.parent.table, UNKNOWN_PAGE, 0x350) && AllTaken(end.parent.table, 0, 0x1000)
  {
    hide Sound, Watching, Callable, Keeps, WatchKeeps, Called, IsFirst, First, Reaches, After, Views, AllFree, AllTaken,
      Allocated;
    var geos, m := Views(hostOffset), First(hostOffset);
    FirstIsSound(hostOffset);
    FirstIsFree(m);
    PagesTaken(m.parent.table, PROTECT_READ | PROTECT_WRITE);
    WritebackKept(hostOffset, m);
    CallExactly(geos, m, WRITEBACK);
    WatchExactly(geos, m, WRITEBACK);
    var m1 := After(geos, m, WRITEBACK);
    UnknownKept(hostOffset, m1);
    CallExactly(geos, m1, UNKNOWN);
    WatchExactly(geos, m1, UNKNOWN);
    end := After(geos, m1, UNKNOWN);
    NoCalls(geos, end);
    assert [UNKNOWN] + [] == [UNKNOWN] && [WRITEBACK] + [UNKNOWN] == [WRITEBACK, UNKNOWN];
    OneCallFirst(geos, m1, UNKNOWN, [], end);
    OneCallFirst(geos, m, WRITEBACK, [UNKNOWN], end);
  }

  lemma FirstIsFree(m: Memory)
    requires IsFirst(m)
    ensures AllFree(m.parent.table, 0, 0x1_FFF0)
  {
  }

  lemma PagesTaken(t: Table, protect: bv4)
    requires AllFree(t, 0, 0x1_FFF0) && AllTaken(t, 0x1_FFF0, 0x10)
    ensures var t1 := Allocated(t, 0, 0x1000, RESERVE | COMMIT, protect);
            && AllFree(t1, UNKNOWN_PAGE, 0x340)
            && var t2 := Allocated(t1, UNKNOWN_PAGE, 0x340, RESERVE, 0);
               AllTaken(t2, UNKNOWN_PAGE, 0x350) && AllTaken(t2, 0, 0x1000)
  {
  }

  lemma NoCalls(geos: seq<Geometry>, m: Memory)
    requires Sound(geos, m) && Watching(geos, m)
    ensures Reaches(geos, m, [], m)
  {
  }

  lemma OneCallFirst(geos: seq<Geometry>, m: Memory, c: ViewCall, calls: seq<ViewCall>, end: Memory)
    requires Sound(geos, m) && Watching(geos, m) && Callable(geos, c) && Keeps(geos, m, c) && WatchKeeps(geos, m, c)
    requires Reaches(geos, After(geos, m, c), calls, end)
    ensures Reaches(geos, m, [c] + calls, end)
  {
    hide Sound, Watching, Callable, Keeps, WatchKeeps, After;
    assert ([c] + calls)[1..] == calls;
  }
}
