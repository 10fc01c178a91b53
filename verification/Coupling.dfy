/** The views of physical memory over their shared parent heap (src/xenia/memory.cc:1512-1676): what
    ties the regions of a view to the regions of the parent. Page `i` of a view covers the `scale`
    parent pages from `i * scale + shift` on; the shift is the 0x1000 bytes of the 0xE0000000 view. */
module Coupling {
  import opened Arith
  import opened PageTable
  import opened HeapSpec
  import HeapRuns
  import WriteWatch

  datatype ViewMap = ViewMap(scale: nat, shift: nat)

  /** First parent page of view page `i`. */
  function ParentPage(m: ViewMap, i: nat): nat {
    i * m.scale + m.shift
  }

  lemma ParentPageOrder(m: ViewMap, a: nat, b: nat)
    requires m.scale > 0
    ensures a <= b ==> ParentPage(m, a) <= ParentPage(m, b)
    ensures a < b ==> ParentPage(m, a) + m.scale <= ParentPage(m, b)
    ensures ParentPage(m, a) == ParentPage(m, b) ==> a == b
  {
    MulOrder(a, b, m.scale);
    MulOrder(a + 1, b, m.scale);
    MulOrder(b + 1, a, m.scale);
  }

  /** Parent pages [first, first + count). */
  datatype Extent = Extent(first: nat, count: nat) {
    ghost predicate Overlaps(o: Extent) {
      Max(first, o.first) < Min(first + count, o.first + o.count)
    }
  }

  /** The parent pages under view pages [first, first + count). */
  function Under(m: ViewMap, first: nat, count: nat): Extent {
    Extent(ParentPage(m, first), count * m.scale)
  }

  function ExtentOf(m: ViewMap, e: PageEntry): Extent {
    Under(m, e.baseAddress, e.regionPageCount)
  }

  /** The region of a view page is one region of the parent, of the same extent. */
  ghost predicate Backed(p: Table, x: Extent) {
    && x.first + x.count <= |p|
    && forall j :: x.first <= j < x.first + x.count ==>
         p[j].state != 0 && p[j].baseAddress == x.first && p[j].regionPageCount == x.count
  }

  ghost predicate Coupled(p: Table, v: Table, m: ViewMap) {
    forall i :: 0 <= i < |v| && v[i].state != 0 ==> Backed(p, ExtentOf(m, v[i]))
  }

  /** No physical page belongs to two views. */
  ghost predicate Apart(v: Table, m: ViewMap, u: Table, k: ViewMap) {
    forall i, j :: 0 <= i < |v| && 0 <= j < |u| && v[i].state != 0 && u[j].state != 0 ==>
      !ExtentOf(m, v[i]).Overlaps(ExtentOf(k, u[j]))
  }

  /** The parent table and the tables of its views. */
  datatype Machine = Machine(parent: Table, views: seq<Table>)

  ghost predicate MapsOk(maps: seq<ViewMap>, s: Machine) {
    && |maps| == |s.views|
    && forall v :: 0 <= v < |maps| ==> maps[v].scale > 0 && ParentPage(maps[v], |s.views[v]|) <= |s.parent|
  }

  ghost predicate Consistent(maps: seq<ViewMap>, s: Machine) {
    && MapsOk(maps, s) && WellFormed(s.parent)
    && (forall v :: 0 <= v < |s.views| ==> WellFormed(s.views[v]) && Coupled(s.parent, s.views[v], maps[v]))
    && (forall v, u :: 0 <= v < |s.views| && 0 <= u < |s.views| && v != u ==>
        Apart(s.views[v], maps[v], s.views[u], maps[u]))
  }

  /** Some region of view `v` touches the parent pages of `x`. */
  ghost predicate Holds(v: Table, m: ViewMap, x: Extent) {
    exists i :: 0 <= i < |v| && v[i].state != 0 && ExtentOf(m, v[i]).Overlaps(x)
  }

  // ---- placement ----------------------------------------------------------------------------

  /** A reservation of view pages [first, first + count) and of the parent pages under them. */
  function Placed(maps: seq<ViewMap>, s: Machine, v: nat, first: nat, count: nat, alloc: bv2, protect: bv4): Machine
    requires v < |s.views| && |maps| == |s.views|
  {
    Machine(
      Allocated(s.parent, ParentPage(maps[v], first), count * maps[v].scale, alloc, protect),
      s.views[v := Allocated(s.views[v], first, count, alloc, protect)])
  }

  /** What the comment "Shouldn't be possible for it to be allocated already" claims: if the parent
      pages are free then so are the pages of every view over them. */
  lemma FreeBelowIsFreeAbove(p: Table, v: Table, m: ViewMap, first: nat, count: nat)
    requires m.scale > 0 && WellFormed(v) && Coupled(p, v, m) && first + count <= |v|
    requires AllFree(p, ParentPage(m, first), count * m.scale)
    ensures AllFree(v, first, count)
  {
    forall i | first <= i < first + count
      ensures v[i].state == 0
    {
      InsideWindow(m, first, count, i);
      assert p[ParentPage(m, i)].state == 0;
      if v[i].state != 0 {
        assert PageOk(v, i) && Backed(p, ExtentOf(m, v[i]));
        ViewPageInExtent(m, v[i], i);
      }
    }
  }

  lemma InsideWindow(m: ViewMap, first: nat, count: nat, i: nat)
    requires m.scale > 0 && first <= i < first + count
    ensures ParentPage(m, first) <= ParentPage(m, i)
            && ParentPage(m, i) + m.scale <= ParentPage(m, first) + count * m.scale
    ensures ParentPage(m, first + count) == ParentPage(m, first) + count * m.scale
  {
    ParentPageOrder(m, first, i);
    MulOrder(i + 1, first + count, m.scale);
    assert (first + count) * m.scale == first * m.scale + count * m.scale;
    assert (i + 1) * m.scale == i * m.scale + m.scale;
  }

  /** The first parent page of a view page lies in the extent of its region. */
  lemma ViewPageInExtent(m: ViewMap, e: PageEntry, i: nat)
    requires m.scale > 0 && e.baseAddress <= i < e.baseAddress + e.regionPageCount
    ensures ExtentOf(m, e).first <= ParentPage(m, i)
            && ParentPage(m, i) + m.scale <= ExtentOf(m, e).first + ExtentOf(m, e).count
  {
    InsideWindow(m, e.baseAddress, e.regionPageCount, i);
  }

  /** A border that cuts no region of the parent cuts no region of a view either. */
  lemma UncutAbove(p: Table, v: Table, m: ViewMap, i: nat)
    requires m.scale > 0 && WellFormed(v) && Coupled(p, v, m)
    requires NoRegionAcross(p, ParentPage(m, i)) && ParentPage(m, |v|) <= |p|
    ensures NoRegionAcross(v, i)
  {
    if 0 < i {
      ParentPageOrder(m, i - 1, i);
    }
    if 0 < i < |v| && v[i - 1].state != 0 && v[i].state != 0 && v[i - 1].baseAddress == v[i].baseAddress {
      assert PageOk(v, i - 1) && PageOk(v, i);
      assert SameRegion(v[v[i].baseAddress], v[i]) && SameRegion(v[v[i].baseAddress], v[i - 1]);
      var x := ExtentOf(m, v[i]);
      assert Backed(p, x);
      ViewPageInExtent(m, v[i], i - 1);
      ViewPageInExtent(m, v[i], i);
    }
  }

  /** Regions of a view that do not meet in the view do not meet in the parent. */
  lemma ApartAbove(m: ViewMap, e: PageEntry, first: nat, count: nat)
    requires m.scale > 0
    requires e.baseAddress + e.regionPageCount <= first || first + count <= e.baseAddress
    ensures !ExtentOf(m, e).Overlaps(Under(m, first, count))
  {
    ParentPageOrder(m, e.baseAddress + e.regionPageCount, first);
    ParentPageOrder(m, first + count, e.baseAddress);
    assert (first + count) * m.scale == first * m.scale + count * m.scale;
    assert (e.baseAddress + e.regionPageCount) * m.scale == e.baseAddress * m.scale + e.regionPageCount * m.scale;
  }

  /** A placement of `x` leaves every region backed that it does not touch. */
  lemma BackedBeside(p: Table, x: Extent, alloc: bv2, protect: bv4, y: Extent)
    requires Backed(p, y) && !y.Overlaps(x)
    ensures Backed(Allocated(p, x.first, x.count, alloc, protect), y)
    ensures Backed(Released(p, x.first, x.count), y)
  {
  }

  ghost predicate Uncut(p: Table, x: Extent) {
    NoRegionAcross(p, x.first) && NoRegionAcross(p, x.first + x.count)
  }

  /** The new region of the view is backed, and the others stay so. */
  lemma PlacedCoupled(p: Table, t: Table, m: ViewMap, first: nat, count: nat, alloc: bv2, protect: bv4)
    requires m.scale > 0 && WellFormed(t) && Coupled(p, t, m) && count > 0 && first + count <= |t|
             && alloc & RESERVE != 0
    requires ParentPage(m, |t|) <= |p| && Uncut(p, Under(m, first, count))
    ensures var t' := Allocated(t, first, count, alloc, protect);
            && WellFormed(t')
            && Coupled(Allocated(p, ParentPage(m, first), count * m.scale, alloc, protect), t', m)
  {
    var x := Under(m, first, count);
    var p' := Allocated(p, x.first, x.count, alloc, protect);
    var t' := Allocated(t, first, count, alloc, protect);
    InsideWindow(m, first, count, first);
    ParentPageOrder(m, first + count, |t|);
    UncutAbove(p, t, m, first);
    UncutAbove(p, t, m, first + count);
    AllocatedKeepsUncut(t, first, count, alloc, protect);
    forall i | 0 <= i < |t'| && t'[i].state != 0
      ensures Backed(p', ExtentOf(m, t'[i]))
    {
      if first <= i < first + count {
        assert ExtentOf(m, t'[i]) == x;
      } else {
        RegionKeptOutside(t, first, count, i);
        ApartAbove(m, t[i], first, count);
        BackedBeside(p, x, alloc, protect, ExtentOf(m, t[i]));
      }
    }
  }

  lemma ApartAfterPlacement(v: Table, m: ViewMap, u: Table, k: ViewMap, first: nat, count: nat, alloc: bv2,
                            protect: bv4)
    requires Apart(v, m, u, k) && count > 0 && first + count <= |v| && alloc & RESERVE != 0
    ensures Apart(Allocated(v, first, count, alloc, protect), m, u, k) <==> !Holds(u, k, Under(m, first, count))
    ensures Apart(u, k, Allocated(v, first, count, alloc, protect), m) <==> !Holds(u, k, Under(m, first, count))
  {
    var v' := Allocated(v, first, count, alloc, protect);
    var x := Under(m, first, count);
    forall i | 0 <= i < |v'| && v'[i].state != 0
      ensures first <= i < first + count ==> ExtentOf(m, v'[i]) == x
      ensures !(first <= i < first + count) ==> v'[i] == v[i]
    {
    }
    if Holds(u, k, x) {
      var j :| 0 <= j < |u| && u[j].state != 0 && ExtentOf(k, u[j]).Overlaps(x);
      assert v'[first].state != 0 && ExtentOf(m, v'[first]).Overlaps(ExtentOf(k, u[j]));
    }
  }

  /** A placement through one view keeps the machine consistent exactly when it cuts no region of
      the parent and takes no page that another view holds. */
  lemma PlacedKeepsExactly(maps: seq<ViewMap>, s: Machine, v: nat, first: nat, count: nat, alloc: bv2, protect: bv4)
    requires Consistent(maps, s) && v < |s.views| && count > 0 && first + count <= |s.views[v]| && alloc & RESERVE != 0
    ensures var x := Under(maps[v], first, count);
            Consistent(maps, Placed(maps, s, v, first, count, alloc, protect))
            <==> Uncut(s.parent, x) && forall u :: 0 <= u < |s.views| && u != v ==> !Holds(s.views[u], maps[u], x)
  {
    var m := maps[v];
    var x := Under(m, first, count);
    var s' := Placed(maps, s, v, first, count, alloc, protect);
    InsideWindow(m, first, count, first);
    ParentPageOrder(m, first + count, |s.views[v]|);
    AllocatedKeepsExactly(s.parent, x.first, x.count, alloc, protect);
    forall u | 0 <= u < |s.views| && u != v
      ensures Apart(s'.views[v], m, s.views[u], maps[u]) <==> !Holds(s.views[u], maps[u], x)
      ensures Apart(s.views[u], maps[u], s'.views[v], m) <==> !Holds(s.views[u], maps[u], x)
    {
      ApartAfterPlacement(s.views[v], m, s.views[u], maps[u], first, count, alloc, protect);
    }
    if Uncut(s.parent, x) && forall u :: 0 <= u < |s.views| && u != v ==> !Holds(s.views[u], maps[u], x) {
      PlacedCoupled(s.parent, s.views[v], m, first, count, alloc, protect);
      forall u | 0 <= u < |s.views| && u != v
        ensures Coupled(s'.parent, s.views[u], maps[u])
      {
        forall i | 0 <= i < |s.views[u]| && s.views[u][i].state != 0
          ensures Backed(s'.parent, ExtentOf(maps[u], s.views[u][i]))
        {
          BackedBeside(s.parent, x, alloc, protect, ExtentOf(maps[u], s.views[u][i]));
        }
      }
      assert Consistent(maps, s');
    } else if Uncut(s.parent, x) {
      var u :| 0 <= u < |s.views| && u != v && Holds(s.views[u], maps[u], x);
      assert !Apart(s'.views[v], maps[v], s'.views[u], maps[u]);
    }
  }

  /** Where the parent is free nothing is cut and no view holds a page: placement there keeps the
      machine consistent, and the pages of the view are free for it. */
  lemma PlacedInFreeKeeps(maps: seq<ViewMap>, s: Machine, v: nat, first: nat, count: nat, alloc: bv2, protect: bv4)
    requires Consistent(maps, s) && v < |s.views| && count > 0 && first + count <= |s.views[v]| && alloc & RESERVE != 0
    requires AllFree(s.parent, ParentPage(maps[v], first), count * maps[v].scale)
    ensures AllFree(s.views[v], first, count)
    ensures Consistent(maps, Placed(maps, s, v, first, count, alloc, protect))
  {
    var m := maps[v];
    var x := Under(m, first, count);
    FreeBelowIsFreeAbove(s.parent, s.views[v], m, first, count);
    InsideWindow(m, first, count, first);
    forall u | 0 <= u < |s.views| && u != v
      ensures !Holds(s.views[u], maps[u], x)
    {
      forall i | 0 <= i < |s.views[u]| && s.views[u][i].state != 0
        ensures !ExtentOf(maps[u], s.views[u][i]).Overlaps(x)
      {
        BackedNotFree(s.parent, ExtentOf(maps[u], s.views[u][i]), x);
      }
    }
    PlacedKeepsExactly(maps, s, v, first, count, alloc, protect);
  }

  lemma BackedNotFree(p: Table, y: Extent, x: Extent)
    requires Backed(p, y) && AllFree(p, x.first, x.count) && x.count > 0
    ensures !y.Overlaps(x)
  {
    var j := if x.first < y.first then y.first else x.first;
    assert x.first <= j < x.first + x.count ==> p[j].state == 0;
  }

  // ---- fixed placement ------------------------------------------------------------------------

  /** Every region of a view that touches `x` is `x` itself. */
  ghost predicate OnlyWhole(maps: seq<ViewMap>, s: Machine, x: Extent)
    requires |maps| == |s.views|
  {
    forall v, i ::
      0 <= v < |s.views| && 0 <= i < |s.views[v]| && s.views[v][i].state != 0
        && ExtentOf(maps[v], s.views[v][i]).Overlaps(x)
      ==> ExtentOf(maps[v], s.views[v][i]) == x
  }

  /** A reservation in the parent alone keeps the machine consistent exactly when it cuts no region and
      touches no region of a view other than one of its own extent. */
  lemma ParentPlacedKeepsExactly(maps: seq<ViewMap>, s: Machine, x: Extent, alloc: bv2, protect: bv4)
    requires Consistent(maps, s) && 0 < x.count && x.first + x.count <= |s.parent| && alloc & RESERVE != 0
    ensures Consistent(maps, s.(parent := Allocated(s.parent, x.first, x.count, alloc, protect)))
            <==> Uncut(s.parent, x) && OnlyWhole(maps, s, x)
  {
    var p := Allocated(s.parent, x.first, x.count, alloc, protect);
    AllocatedKeepsExactly(s.parent, x.first, x.count, alloc, protect);
    forall v, i | 0 <= v < |s.views| && 0 <= i < |s.views[v]| && s.views[v][i].state != 0
      ensures Backed(p, ExtentOf(maps[v], s.views[v][i]))
              <==> (ExtentOf(maps[v], s.views[v][i]).Overlaps(x) ==> ExtentOf(maps[v], s.views[v][i]) == x)
    {
      BackedAfterPlacement(s.parent, x, alloc, protect, ExtentOf(maps[v], s.views[v][i]));
    }
    CoupledExactly(maps, s, p, x);
  }

  lemma CoupledExactly(maps: seq<ViewMap>, s: Machine, p: Table, x: Extent)
    requires Consistent(maps, s) && |p| == |s.parent|
    requires forall v, i :: 0 <= v < |s.views| && 0 <= i < |s.views[v]| && s.views[v][i].state != 0 ==>
               (Backed(p, ExtentOf(maps[v], s.views[v][i]))
                <==> (ExtentOf(maps[v], s.views[v][i]).Overlaps(x) ==> ExtentOf(maps[v], s.views[v][i]) == x))
    ensures (forall v :: 0 <= v < |s.views| ==> Coupled(p, s.views[v], maps[v])) <==> OnlyWhole(maps, s, x)
  {
    hide Backed, WellFormed, Extent.Overlaps, Apart;
    if forall v :: 0 <= v < |s.views| ==> Coupled(p, s.views[v], maps[v]) {
      forall v, i | 0 <= v < |s.views| && 0 <= i < |s.views[v]| && s.views[v][i].state != 0
        ensures Backed(p, ExtentOf(maps[v], s.views[v][i]))
      {
        assert Coupled(p, s.views[v], maps[v]);
      }
    }
  }

  lemma BackedAfterPlacement(p: Table, x: Extent, alloc: bv2, protect: bv4, y: Extent)
    requires Backed(p, y) && 0 < x.count && x.first + x.count <= |p| && alloc & RESERVE != 0
    ensures Backed(Allocated(p, x.first, x.count, alloc, protect), y) <==> (y.Overlaps(x) ==> y == x)
  {
    var q := Allocated(p, x.first, x.count, alloc, protect);
    if !y.Overlaps(x) {
      BackedBeside(p, x, alloc, protect, y);
    } else {
      var j := Max(x.first, y.first);
      assert q[j].baseAddress == x.first && q[j].regionPageCount == x.count;
    }
  }

  /** Fixed placement of view pages [first, first + count): parent and view each choose whether they
      reserve. */
  ghost function FixedPlaced(maps: seq<ViewMap>, s: Machine, v: nat, first: nat, count: nat, alloc: bv2,
                             protect: bv4): Machine
    requires v < |s.views| && |maps| == |s.views|
  {
    var x := Under(maps[v], first, count);
    Machine(
      Allocated(s.parent, x.first, x.count, FixedAllocType(s.parent, x.first, x.count, alloc), protect),
      s.views[v := Allocated(s.views[v], first, count, FixedAllocType(s.views[v], first, count, alloc), protect)])
  }

  /** What keeps the coupling: where the view reserves, no other view may hold a page of the range; and
      the parent must reserve the range too, without cutting a region, or have it as one region. */
  ghost predicate FixedKeeps(maps: seq<ViewMap>, s: Machine, v: nat, first: nat, count: nat, alloc: bv2)
    requires v < |s.views| && |maps| == |s.views|
  {
    var x := Under(maps[v], first, count);
    FixedAllocType(s.views[v], first, count, alloc) & RESERVE != 0 ==>
      && (if FixedAllocType(s.parent, x.first, x.count, alloc) & RESERVE != 0 then Uncut(s.parent, x)
          else Backed(s.parent, x))
      && !OthersHold(maps, s, v, x)
  }

  ghost predicate OthersHold(maps: seq<ViewMap>, s: Machine, v: nat, x: Extent)
    requires |maps| == |s.views|
  {
    exists u :: 0 <= u < |s.views| && u != v && Holds(s.views[u], maps[u], x)
  }

  /** Where the parent has a free page, so has the view. */
  lemma FreeBelowFreesAbove(p: Table, t: Table, m: ViewMap, first: nat, count: nat)
    requires m.scale > 0 && WellFormed(p) && WellFormed(t) && Coupled(p, t, m) && first + count <= |t|
    requires ParentPage(m, first) + count * m.scale <= |p|
    requires AnyUnreserved(p, ParentPage(m, first), ParentPage(m, first) + count * m.scale)
    ensures AnyUnreserved(t, first, first + count)
  {
    var j :| ParentPage(m, first) <= j < ParentPage(m, first) + count * m.scale && p[j].state & RESERVE == 0;
    assert PageOk(p, j);
    var i := PageOver(m, first, count, j);
    if t[i].state != 0 {
      assert PageOk(t, i) && Backed(p, ExtentOf(m, t[i]));
      ViewPageInExtent(m, t[i], i);
    }
  }

  lemma PageOver(m: ViewMap, first: nat, count: nat, j: nat) returns (i: nat)
    requires m.scale > 0 && ParentPage(m, first) <= j < ParentPage(m, first) + count * m.scale
    ensures first <= i < first + count && ParentPage(m, i) <= j < ParentPage(m, i) + m.scale
  {
    var k := j - m.shift;
    i := k / m.scale;
    assert i * m.scale <= k < i * m.scale + m.scale;
    assert (first + count) * m.scale == first * m.scale + count * m.scale;
    assert (i + 1) * m.scale == i * m.scale + m.scale;
    MulOrder(i + 1, first, m.scale);
    MulOrder(first + count, i, m.scale);
  }

  lemma ReservingTypes(t: Table, first: nat, count: nat, alloc: bv2)
    requires alloc != 0
    ensures var a := FixedAllocType(t, first, count, alloc);
            && (a & RESERVE == 0 <==> alloc == COMMIT && !AnyUnreserved(t, first, first + count))
            && (a & RESERVE == 0 ==> a == COMMIT)
            && (a & RESERVE != 0 ==> a == if alloc == COMMIT then RESERVE | COMMIT else alloc)
  {
  }

  /** Committing reserved pages moves no region. */
  lemma CommitMovesNothing(t: Table, first: nat, count: nat, protect: bv4)
    requires WellFormed(t) && first + count <= |t| && !AnyUnreserved(t, first, first + count)
    ensures WellFormed(Allocated(t, first, count, COMMIT, protect))
            && SameRegions(t, Allocated(t, first, count, COMMIT, protect))
  {
    forall i | first <= i < first + count
      ensures t[i].state != 0
    {
      assert t[i].state & RESERVE != 0;
    }
    CommitKeeps(t, first, count, COMMIT, protect);
  }

  /** Fixed placement through a view keeps the machine consistent exactly under that condition. */
  lemma FixedKeepsExactly(maps: seq<ViewMap>, s: Machine, v: nat, first: nat, count: nat, alloc: bv2, protect: bv4)
    requires Consistent(maps, s) && v < |s.views| && 0 < count && first + count <= |s.views[v]| && alloc != 0
    ensures Consistent(maps, FixedPlaced(maps, s, v, first, count, alloc, protect))
            <==> FixedKeeps(maps, s, v, first, count, alloc)
  {
    FixedRange(maps, s, v, first, count);
    hide FixedAllocType, Consistent, WellFormed, Allocated, Uncut, Backed, Holds;
    var x := Under(maps[v], first, count);
    ReservingTypes(s.parent, x.first, x.count, alloc);
    ReservingTypes(s.views[v], first, count, alloc);
    if FixedAllocType(s.parent, x.first, x.count, alloc) & RESERVE != 0 {
      if alloc == COMMIT {
        FreeAboveFixed(maps, s, v, first, count);
      }
      var type_ := FixedAllocType(s.parent, x.first, x.count, alloc);
      assert FixedPlaced(maps, s, v, first, count, alloc, protect) == Placed(maps, s, v, first, count, type_, protect);
      PlacedKeepsExactly(maps, s, v, first, count, type_, protect);
    } else if FixedAllocType(s.views[v], first, count, alloc) & RESERVE == 0 {
      CommitBothKeeps(maps, s, v, first, count, protect);
    } else {
      CommitBelowExactly(maps, s, v, first, count, protect);
    }
  }

  lemma FixedRange(maps: seq<ViewMap>, s: Machine, v: nat, first: nat, count: nat)
    requires Consistent(maps, s) && v < |s.views| && 0 < count && first + count <= |s.views[v]|
    ensures |maps| == |s.views| && maps[v].scale > 0
    ensures ParentPage(maps[v], first) + count * maps[v].scale <= |s.parent| && 0 < count * maps[v].scale
  {
    InsideWindow(maps[v], first, count, first);
    ParentPageOrder(maps[v], first + count, |s.views[v]|);
  }

  lemma FreeAboveFixed(maps: seq<ViewMap>, s: Machine, v: nat, first: nat, count: nat)
    requires Consistent(maps, s) && v < |s.views| && 0 < count && first + count <= |s.views[v]|
    requires AnyUnreserved(s.parent, ParentPage(maps[v], first), ParentPage(maps[v], first) + count * maps[v].scale)
    ensures AnyUnreserved(s.views[v], first, first + count)
  {
    FixedRange(maps, s, v, first, count);
    FreeBelowFreesAbove(s.parent, s.views[v], maps[v], first, count);
  }

  lemma CommitBothKeeps(maps: seq<ViewMap>, s: Machine, v: nat, first: nat, count: nat, protect: bv4)
    requires Consistent(maps, s) && v < |s.views| && 0 < count && first + count <= |s.views[v]|
    requires !AnyUnreserved(s.views[v], first, first + count)
    requires !AnyUnreserved(s.parent, ParentPage(maps[v], first), ParentPage(maps[v], first) + count * maps[v].scale)
    ensures Consistent(maps, Machine(
              Allocated(s.parent, ParentPage(maps[v], first), count * maps[v].scale, COMMIT, protect),
              s.views[v := Allocated(s.views[v], first, count, COMMIT, protect)]))
  {
    FixedRange(maps, s, v, first, count);
    CommitMovesNothing(s.parent, ParentPage(maps[v], first), count * maps[v].scale, protect);
    CommitMovesNothing(s.views[v], first, count, protect);
    SameRegionsKeep(maps, s, Machine(
      Allocated(s.parent, ParentPage(maps[v], first), count * maps[v].scale, COMMIT, protect),
      s.views[v := Allocated(s.views[v], first, count, COMMIT, protect)]));
  }

  /** The parent only commits, the view reserves. */
  lemma CommitBelowExactly(maps: seq<ViewMap>, s: Machine, v: nat, first: nat, count: nat, protect: bv4)
    requires Consistent(maps, s) && v < |s.views| && 0 < count && first + count <= |s.views[v]|
    requires AnyUnreserved(s.views[v], first, first + count)
    requires !AnyUnreserved(s.parent, ParentPage(maps[v], first), ParentPage(maps[v], first) + count * maps[v].scale)
    ensures var x := Under(maps[v], first, count);
            Consistent(maps, Machine(
              Allocated(s.parent, x.first, x.count, COMMIT, protect),
              s.views[v := Allocated(s.views[v], first, count, RESERVE | COMMIT, protect)]))
            <==> Backed(s.parent, x) && !OthersHold(maps, s, v, x)
  {
    var m := maps[v];
    var x := Under(m, first, count);
    var p, t := Allocated(s.parent, x.first, x.count, COMMIT, protect),
      Allocated(s.views[v], first, count, RESERVE | COMMIT, protect);
    var s' := Machine(p, s.views[v := t]);
    FixedRange(maps, s, v, first, count);
    CommitMovesNothing(s.parent, x.first, x.count, protect);
    forall u | 0 <= u < |s.views| && u != v
      ensures Apart(t, m, s.views[u], maps[u]) <==> !Holds(s.views[u], maps[u], x)
      ensures Apart(s.views[u], maps[u], t, m) <==> !Holds(s.views[u], maps[u], x)
    {
      ApartAfterPlacement(s.views[v], m, s.views[u], maps[u], first, count, RESERVE | COMMIT, protect);
    }
    if Backed(s.parent, x) && !OthersHold(maps, s, v, x) {
      BackedWindowIsFree(s.parent, s.views[v], m, first, count);
      AllocatedKeepsUncut(s.views[v], first, count, RESERVE | COMMIT, protect);
      SameRegionsBack(maps, s, p);
      NewRegionCoupled(p, s.views[v], m, first, count, RESERVE | COMMIT, protect);
      assert Consistent(maps, s');
    } else if !Backed(s.parent, x) {
      assert t[first].state != 0 && ExtentOf(m, t[first]) == x;
      SameRegionsBackOne(s.parent, p, x);
      assert s'.views[v] == t && !Coupled(p, s'.views[v], m);
    } else {
      var u :| 0 <= u < |s.views| && u != v && Holds(s.views[u], maps[u], x);
      assert s'.views[u] == s.views[u] && s'.views[v] == t;
      assert !Apart(s'.views[v], maps[v], s'.views[u], maps[u]);
    }
  }

  lemma SameRegionsBackOne(p: Table, q: Table, x: Extent)
    requires SameRegions(p, q)
    ensures Backed(p, x) <==> Backed(q, x)
  {
  }

  lemma SameRegionsBack(maps: seq<ViewMap>, s: Machine, p: Table)
    requires Consistent(maps, s) && SameRegions(s.parent, p)
    ensures forall v :: 0 <= v < |s.views| ==> Coupled(p, s.views[v], maps[v])
    ensures forall x :: Backed(s.parent, x) ==> Backed(p, x)
  {
    forall x | Backed(s.parent, x)
      ensures Backed(p, x)
    {
      SameRegionsBackOne(s.parent, p, x);
    }
  }

  /** A region of the parent over which the view has a free page is free for it as a whole. */
  lemma BackedWindowIsFree(p: Table, t: Table, m: ViewMap, first: nat, count: nat)
    requires m.scale > 0 && WellFormed(t) && Coupled(p, t, m) && 0 < count && first + count <= |t|
    requires Backed(p, Under(m, first, count)) && AnyUnreserved(t, first, first + count)
    ensures AllFree(t, first, count)
  {
    forall i | first <= i < first + count
      ensures t[i].state == 0
    {
      if t[i].state != 0 {
        InsideWindow(m, first, count, i);
        assert PageOk(t, i) && Backed(p, ExtentOf(m, t[i]));
        ViewPageInExtent(m, t[i], i);
        var j := ParentPage(m, i);
        assert p[j].baseAddress == ParentPage(m, first) && p[j].regionPageCount == count * m.scale;
        ParentPageOrder(m, t[i].baseAddress, first);
        SameCount(t[i].regionPageCount, count, m.scale);
        assert t[i].baseAddress == first && t[i].regionPageCount == count;
        assert InOwnRegion(t, i);
        assert forall k :: first <= k < first + count ==> SameRegion(t[k], t[i]) && PageOk(t, k);
      }
    }
  }

  lemma SameCount(a: nat, b: nat, scale: nat)
    requires scale > 0 && a * scale == b * scale
    ensures a == b
  {
    MulOrder(a + 1, b, scale);
    MulOrder(b + 1, a, scale);
    assert (a + 1) * scale == a * scale + scale && (b + 1) * scale == b * scale + scale;
  }

  lemma NewRegionCoupled(p: Table, t: Table, m: ViewMap, first: nat, count: nat, alloc: bv2, protect: bv4)
    requires Coupled(p, t, m) && alloc & RESERVE != 0 && Backed(p, Under(m, first, count))
    ensures Coupled(p, Allocated(t, first, count, alloc, protect), m)
  {
    var t' := Allocated(t, first, count, alloc, protect);
    forall i | 0 <= i < |t'| && t'[i].state != 0
      ensures Backed(p, ExtentOf(m, t'[i]))
    {
      if !(first <= i < first + count) {
        assert t'[i] == t[i];
      }
    }
  }

  // ---- release ------------------------------------------------------------------------------

  function Freed(maps: seq<ViewMap>, s: Machine, v: nat, page: nat, count: nat): Machine
    requires v < |s.views| && |maps| == |s.views|
  {
    Machine(Released(s.parent, ParentPage(maps[v], page), count * maps[v].scale),
            s.views[v := Released(s.views[v], page, count)])
  }

  /** Releasing a region of a view meets, in the parent, the start of one region of the same
      extent; freeing both keeps the machine consistent. */
  lemma FreedKeeps(maps: seq<ViewMap>, s: Machine, v: nat, page: nat)
    requires Consistent(maps, s) && v < |s.views| && page < |s.views[v]|
    requires s.views[v][page].state != 0 && s.views[v][page].baseAddress == page
    ensures var count, P := s.views[v][page].regionPageCount, ParentPage(maps[v], page);
            && P < |s.parent| && s.parent[P].state != 0
            && s.parent[P].baseAddress == P && s.parent[P].regionPageCount == count * maps[v].scale
            && Consistent(maps, Freed(maps, s, v, page, count))
  {
    var m := maps[v];
    var t := s.views[v];
    var e := t[page];
    var x := ExtentOf(m, e);
    assert PageOk(t, page) && Backed(s.parent, x);
    ViewPageInExtent(m, e, page);
    ReleasedKeeps(s.parent, x.first);
    ReleasedKeeps(t, page);
    var s' := Freed(maps, s, v, page, e.regionPageCount);
    forall u, i | 0 <= u < |s.views| && 0 <= i < |s'.views[u]| && s'.views[u][i].state != 0
      ensures s'.views[u][i] == s.views[u][i]
      ensures Backed(s'.parent, ExtentOf(maps[u], s'.views[u][i]))
    {
      if u == v {
        RegionsDisjoint(t, page, i);
        assert PageOk(t, i);
        ApartAbove(m, t[i], page, e.regionPageCount);
      } else {
        assert Apart(s.views[u], maps[u], t, m);
      }
      BackedBeside(s.parent, x, 0, 0, ExtentOf(maps[u], s.views[u][i]));
    }
    assert forall u, w :: 0 <= u < |s.views| && 0 <= w < |s.views| && u != w ==>
           Apart(s.views[u], maps[u], s.views[w], maps[w]);
  }

  /** Releasing through a view an address at which that view has no region, but where the parent
      has one that another view holds, takes the parent pages away from the other view. */
  lemma WrongViewRelease(maps: seq<ViewMap>, s: Machine, u: nat, j: nat, P: nat)
    requires Consistent(maps, s) && u < |s.views| && j < |s.views[u]| && s.views[u][j].state != 0
    requires P == ExtentOf(maps[u], s.views[u][j]).first
    ensures P < |s.parent| && s.parent[P].baseAddress == P
    ensures !Consistent(maps, s.(parent := Released(s.parent, P, s.parent[P].regionPageCount)))
  {
    var x := ExtentOf(maps[u], s.views[u][j]);
    assert Backed(s.parent, x) && PageOk(s.views[u], j);
    ViewPageInExtent(maps[u], s.views[u][j], j);
    var q := Released(s.parent, P, s.parent[P].regionPageCount);
    assert q[P].state == 0;
    assert !Backed(q, x);
    assert !Coupled(q, s.views[u], maps[u]);
  }

  /** Some view has a region that starts over parent page `P`. */
  ghost predicate HeldAt(maps: seq<ViewMap>, s: Machine, P: nat)
    requires |maps| == |s.views|
  {
    exists u, j ::
      0 <= u < |s.views| && 0 <= j < |s.views[u]| && s.views[u][j].state != 0
        && ExtentOf(maps[u], s.views[u][j]).first == P
  }

  lemma OtherRegionApart(p: Table, P: nat, y: Extent)
    requires WellFormed(p) && P < |p| && p[P].state != 0 && p[P].baseAddress == P && Backed(p, y) && y.first != P
    ensures !y.Overlaps(Extent(P, p[P].regionPageCount))
  {
    var j := Max(y.first, P);
    assert PageOk(p, P);
    assert P <= j < P + p[P].regionPageCount ==> SameRegion(p[j], p[P]);
  }

  /** Releasing a region of the parent alone keeps the machine consistent exactly when no view has it. */
  lemma ParentReleasedExactly(maps: seq<ViewMap>, s: Machine, P: nat)
    requires Consistent(maps, s) && P < |s.parent| && s.parent[P].state != 0 && s.parent[P].baseAddress == P
    ensures Consistent(maps, s.(parent := Released(s.parent, P, s.parent[P].regionPageCount))) <==> !HeldAt(maps, s, P)
  {
    if HeldAt(maps, s, P) {
      var u, j :| 0 <= u < |s.views| && 0 <= j < |s.views[u]| && s.views[u][j].state != 0
        && ExtentOf(maps[u], s.views[u][j]).first == P;
      WrongViewRelease(maps, s, u, j, P);
    } else {
      var x := Extent(P, s.parent[P].regionPageCount);
      assert PageOk(s.parent, P);
      ReleasedKeeps(s.parent, P);
      forall v | 0 <= v < |s.views|
        ensures Coupled(Released(s.parent, P, x.count), s.views[v], maps[v])
      {
        forall i | 0 <= i < |s.views[v]| && s.views[v][i].state != 0
          ensures Backed(Released(s.parent, P, x.count), ExtentOf(maps[v], s.views[v][i]))
        {
          var y := ExtentOf(maps[v], s.views[v][i]);
          assert Backed(s.parent, y);
          OtherRegionApart(s.parent, P, y);
          BackedBeside(s.parent, x, 0, 0, y);
        }
      }
    }
  }

  // ---- changes that move no region ----------------------------------------------------------

  ghost predicate SameRegions(a: Table, b: Table) {
    |a| == |b| && forall i :: 0 <= i < |a| ==>
      && (a[i].state == 0 <==> b[i].state == 0)
      && a[i].baseAddress == b[i].baseAddress && a[i].regionPageCount == b[i].regionPageCount
  }

  /** Commit, decommit and protect move no region, so they keep the machine consistent. */
  lemma SameRegionsKeep(maps: seq<ViewMap>, s: Machine, s': Machine)
    requires Consistent(maps, s) && |s'.views| == |s.views|
    requires SameRegions(s.parent, s'.parent) && WellFormed(s'.parent)
    requires forall v :: 0 <= v < |s.views| ==> SameRegions(s.views[v], s'.views[v]) && WellFormed(s'.views[v])
    ensures Consistent(maps, s')
  {
    forall v | 0 <= v < |s.views|
      ensures Coupled(s'.parent, s'.views[v], maps[v])
    {
      forall i | 0 <= i < |s'.views[v]| && s'.views[v][i].state != 0
        ensures Backed(s'.parent, ExtentOf(maps[v], s'.views[v][i]))
      {
        assert Backed(s.parent, ExtentOf(maps[v], s.views[v][i]));
      }
    }
    forall v, u | 0 <= v < |s.views| && 0 <= u < |s.views| && v != u
      ensures Apart(s'.views[v], maps[v], s'.views[u], maps[u])
    {
      assert Apart(s.views[v], maps[v], s.views[u], maps[u]);
    }
  }
}
