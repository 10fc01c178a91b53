/** The page table of a guest heap (`PageEntry` in src/xenia/memory.h) and what makes one
    consistent. */
module PageTable {

  /** `MemoryAllocationFlag` */
  const RESERVE: bv2 := 1
  const COMMIT: bv2 := 2

  /** `MemoryProtectFlag`; the field that holds it is four bits wide. */
  const PROTECT_READ: bv4 := 1
  const PROTECT_WRITE: bv4 := 2

  datatype PageEntry = PageEntry(
    baseAddress: nat,
    regionPageCount: nat,
    allocationProtect: bv4,
    currentProtect: bv4,
    state: bv2)

  /** The entry whose `qword` is zero. */
  const FREE_ENTRY := PageEntry(0, 0, 0, 0, 0)

  type Table = seq<PageEntry>

  predicate Taken(t: Table, i: nat)
    requires i < |t|
  {
    t[i].state != 0
  }

  ghost predicate AllFree(t: Table, first: nat, count: nat)
  {
    first + count <= |t| && forall i :: first <= i < first + count ==> t[i].state == 0
  }

  ghost predicate AllTaken(t: Table, first: nat, count: nat)
  {
    first + count <= |t| && forall i :: first <= i < first + count ==> t[i].state != 0
  }

  // ---- consistency -------------------------------------------------------------------------

  predicate SameRegion(a: PageEntry, b: PageEntry) {
    a.state != 0 && b.state != 0 && a.baseAddress == b.baseAddress && a.regionPageCount == b.regionPageCount
  }

  /** Page `i` lies inside the region its entry names, and every page of that region says so. */
  ghost predicate InOwnRegion(t: Table, i: nat)
    requires i < |t|
  {
    var e := t[i];
    && e.baseAddress <= i < e.baseAddress + e.regionPageCount <= |t|
    && forall j :: e.baseAddress <= j < e.baseAddress + e.regionPageCount ==> SameRegion(t[j], e)
  }

  ghost predicate PageOk(t: Table, i: nat)
    requires i < |t|
  {
    if t[i].state == 0 then t[i] == FREE_ENTRY
    else (t[i].state == RESERVE || t[i].state == RESERVE | COMMIT) && InOwnRegion(t, i)
  }

  ghost predicate WellFormed(t: Table)
  {
    forall i :: 0 <= i < |t| ==> PageOk(t, i)
  }

  /** How many of the pages from `lo` up to `hi` are free. */
  function FreeIn(t: Table, lo: nat, hi: nat): (n: nat)
    requires lo <= hi <= |t|
    ensures n <= hi - lo
    decreases hi
  {
    if lo == hi then 0 else FreeIn(t, lo, hi - 1) + (if t[hi - 1].state == 0 then 1 else 0)
  }

  function CountFree(t: Table): nat {
    FreeIn(t, 0, |t|)
  }

  ghost predicate DisjointRegions(a: PageEntry, b: PageEntry) {
    || a.baseAddress + a.regionPageCount <= b.baseAddress
    || b.baseAddress + b.regionPageCount <= a.baseAddress
  }

  /** In a consistent table the regions of two pages are the same or disjoint. */
  lemma RegionsDisjoint(t: Table, i: nat, j: nat)
    requires WellFormed(t) && i < |t| && j < |t| && Taken(t, i) && Taken(t, j)
    ensures SameRegion(t[i], t[j]) || DisjointRegions(t[i], t[j])
  {
    assert PageOk(t, i) && PageOk(t, j);
    if !DisjointRegions(t[i], t[j]) {
      var p := if t[i].baseAddress <= t[j].baseAddress then t[j].baseAddress else t[i].baseAddress;
      assert SameRegion(t[p], t[i]) && SameRegion(t[p], t[j]);
    }
  }

  lemma {:induction false} FreeInParts(t: Table, lo: nat, mid: nat, hi: nat)
    requires lo <= mid <= hi <= |t|
    ensures FreeIn(t, lo, hi) == FreeIn(t, lo, mid) + FreeIn(t, mid, hi)
    decreases hi
  {
    if mid < hi {
      FreeInParts(t, lo, mid, hi - 1);
    }
  }

  lemma {:induction false} FreeInAll(t: Table, lo: nat, hi: nat)
    requires lo <= hi && AllFree(t, lo, hi - lo)
    ensures FreeIn(t, lo, hi) == hi - lo
    decreases hi
  {
    if lo < hi {
      FreeInAll(t, lo, hi - 1);
    }
  }

  lemma {:induction false} FreeInNone(t: Table, lo: nat, hi: nat)
    requires lo <= hi && AllTaken(t, lo, hi - lo)
    ensures FreeIn(t, lo, hi) == 0
    decreases hi
  {
    if lo < hi {
      FreeInNone(t, lo, hi - 1);
    }
  }

  lemma {:induction false} FreeInSame(t: Table, u: Table, lo: nat, hi: nat)
    requires lo <= hi <= |t| && |t| == |u|
    requires forall i :: lo <= i < hi ==> (u[i].state == 0 <==> t[i].state == 0)
    ensures FreeIn(t, lo, hi) == FreeIn(u, lo, hi)
    decreases hi
  {
    if lo < hi {
      FreeInSame(t, u, lo, hi - 1);
    }
  }

  /** Two tables that differ only inside a window differ in their free pages only there. */
  lemma CountFreeSplice(t: Table, u: Table, first: nat, last: nat)
    requires |t| == |u| && first <= last <= |t|
    requires forall i :: 0 <= i < |t| && !(first <= i < last) ==> t[i] == u[i]
    ensures CountFree(u) - FreeIn(u, first, last) == CountFree(t) - FreeIn(t, first, last)
  {
    forall s | s == t || s == u
      ensures CountFree(s) == FreeIn(s, 0, first) + FreeIn(s, first, last) + FreeIn(s, last, |s|)
    {
      FreeInParts(s, 0, last, |s|);
      FreeInParts(s, 0, first, last);
    }
    FreeInSame(t, u, 0, first);
    FreeInSame(t, u, last, |t|);
  }

  // ---- what each operation does to the table ------------------------------------------------

  /** One entry after an allocation that covers `count` pages from `first`. */
  function AllocatedEntry(e: PageEntry, first: nat, count: nat, alloc: bv2, protect: bv4): PageEntry
  {
    PageEntry(
      if alloc & RESERVE != 0 then first else e.baseAddress,
      if alloc & RESERVE != 0 then count else e.regionPageCount,
      protect, protect, RESERVE | alloc)
  }

  function Allocated(t: Table, first: nat, count: nat, alloc: bv2, protect: bv4): (u: Table)
    ensures |u| == |t|
  {
    seq(|t|, i requires 0 <= i < |t| =>
      if first <= i < first + count then AllocatedEntry(t[i], first, count, alloc, protect) else t[i])
  }

  function Decommitted(t: Table, first: nat, count: nat): (u: Table)
    ensures |u| == |t|
  {
    seq(|t|, i requires 0 <= i < |t| =>
      if first <= i < first + count then t[i].(state := t[i].state & !COMMIT) else t[i])
  }

  function Released(t: Table, first: nat, count: nat): (u: Table)
    ensures |u| == |t|
  {
    seq(|t|, i requires 0 <= i < |t| => if first <= i < first + count then FREE_ENTRY else t[i])
  }

  function Protected(t: Table, first: nat, count: nat, protect: bv4): (u: Table)
    ensures |u| == |t|
  {
    seq(|t|, i requires 0 <= i < |t| =>
      if first <= i < first + count then t[i].(currentProtect := protect) else t[i])
  }

  // ---- which of them keep the table consistent ----------------------------------------------

  /** No region has one page on each side of the border in front of page `i`. */
  predicate NoRegionAcross(t: Table, i: nat)
  {
    0 < i < |t| ==> t[i - 1].state == 0 || t[i].state == 0 || t[i - 1].baseAddress != t[i].baseAddress
  }

  lemma RegionKeptOutside(t: Table, first: nat, count: nat, i: nat)
    requires WellFormed(t) && first + count <= |t| && count > 0
    requires NoRegionAcross(t, first) && NoRegionAcross(t, first + count)
    requires i < |t| && Taken(t, i) && !(first <= i < first + count)
    ensures t[i].baseAddress + t[i].regionPageCount <= first || first + count <= t[i].baseAddress
  {
    assert PageOk(t, i);
  }

  lemma AllocatedKeepsUncut(t: Table, first: nat, count: nat, alloc: bv2, protect: bv4)
    requires WellFormed(t) && first + count <= |t| && count > 0 && alloc & RESERVE != 0
    requires NoRegionAcross(t, first) && NoRegionAcross(t, first + count)
    ensures WellFormed(Allocated(t, first, count, alloc, protect))
  {
    var u := Allocated(t, first, count, alloc, protect);
    forall i | 0 <= i < |u|
      ensures PageOk(u, i)
    {
      if first <= i < first + count {
        assert u[i].state == RESERVE || u[i].state == RESERVE | COMMIT;
        assert InOwnRegion(u, i);
      } else {
        assert PageOk(t, i);
        if Taken(t, i) {
          RegionKeptOutside(t, first, count, i);
        }
      }
    }
  }

  /** A reserving allocation leaves a consistent table consistent exactly when neither end of its
      range cuts a region in two. */
  lemma AllocatedKeepsExactly(t: Table, first: nat, count: nat, alloc: bv2, protect: bv4)
    requires WellFormed(t) && first + count <= |t| && count > 0 && alloc & RESERVE != 0
    ensures WellFormed(Allocated(t, first, count, alloc, protect))
            <==> NoRegionAcross(t, first) && NoRegionAcross(t, first + count)
  {
    var u := Allocated(t, first, count, alloc, protect);
    var end := first + count;
    if NoRegionAcross(t, first) && NoRegionAcross(t, end) {
      AllocatedKeepsUncut(t, first, count, alloc, protect);
    } else if !NoRegionAcross(t, first) {
      // the old region still claims page `first`, which now names another region
      assert PageOk(t, first - 1) && PageOk(t, first);
      assert t[first - 1].baseAddress <= first < t[first - 1].baseAddress + t[first - 1].regionPageCount;
      assert u[first - 1] == t[first - 1] && u[first].baseAddress == first;
      assert !SameRegion(u[first], u[first - 1]);
      assert !PageOk(u, first - 1);
    } else {
      assert PageOk(t, end - 1) && PageOk(t, end);
      assert t[end].baseAddress <= end - 1;
      assert u[end] == t[end] && u[end - 1].baseAddress == first && u[end - 1].regionPageCount == count;
      assert !SameRegion(u[end - 1], u[end]);
      assert !PageOk(u, end);
    }
  }

  /** Committing pages that are all reserved already keeps every region as it was. */
  lemma CommitKeeps(t: Table, first: nat, count: nat, alloc: bv2, protect: bv4)
    requires WellFormed(t) && AllTaken(t, first, count) && alloc & RESERVE == 0
    ensures var u := Allocated(t, first, count, alloc, protect);
            WellFormed(u) && CountFree(u) == CountFree(t)
  {
    var u := Allocated(t, first, count, alloc, protect);
    forall i | 0 <= i < |u|
      ensures PageOk(u, i)
    {
      assert PageOk(t, i);
      if Taken(t, i) {
        assert InOwnRegion(u, i);
      }
    }
    FreeInSame(t, u, 0, |t|);
  }

  lemma AllocatedCount(t: Table, first: nat, count: nat, alloc: bv2, protect: bv4)
    requires first + count <= |t|
    ensures CountFree(Allocated(t, first, count, alloc, protect)) == CountFree(t) - FreeIn(t, first, first + count)
  {
    var u := Allocated(t, first, count, alloc, protect);
    CountFreeSplice(t, u, first, first + count);
    FreeInNone(u, first, first + count);
  }

  lemma DecommittedKeeps(t: Table, first: nat, count: nat)
    requires WellFormed(t) && first + count <= |t|
    ensures var u := Decommitted(t, first, count);
            WellFormed(u) && CountFree(u) == CountFree(t)
  {
    var u := Decommitted(t, first, count);
    forall i | 0 <= i < |u|
      ensures PageOk(u, i) && (u[i].state == 0 <==> t[i].state == 0)
    {
      forall j | 0 <= j < |t|
        ensures u[j].state == 0 <==> t[j].state == 0
      {
        assert PageOk(t, j);
      }
      assert PageOk(t, i);
    }
    FreeInSame(t, u, 0, |t|);
  }

  lemma ProtectedKeeps(t: Table, first: nat, count: nat, protect: bv4)
    requires WellFormed(t) && AllTaken(t, first, count)
    ensures var u := Protected(t, first, count, protect);
            WellFormed(u) && CountFree(u) == CountFree(t)
  {
    var u := Protected(t, first, count, protect);
    forall i | 0 <= i < |u|
      ensures PageOk(u, i)
    {
      assert PageOk(t, i);
    }
    FreeInSame(t, u, 0, |t|);
  }

  /** Releasing the region that starts at `first` frees its pages, all of which were taken, and
      leaves every other region whole. */
  lemma ReleasedKeeps(t: Table, first: nat)
    requires WellFormed(t) && first < |t| && Taken(t, first) && t[first].baseAddress == first
    ensures var count := t[first].regionPageCount;
            var u := Released(t, first, count);
            && AllTaken(t, first, count) && count > 0
            && WellFormed(u) && CountFree(u) == CountFree(t) + count
  {
    var count := t[first].regionPageCount;
    var u := Released(t, first, count);
    assert PageOk(t, first);
    forall i | first <= i < first + count
      ensures Taken(t, i)
    {
      assert SameRegion(t[i], t[first]);
    }
    assert NoRegionAcross(t, first) by {
      assert 0 < first ==> PageOk(t, first - 1);
    }
    assert NoRegionAcross(t, first + count) by {
      assert first + count < |t| ==> PageOk(t, first + count);
    }
    forall i | 0 <= i < |u|
      ensures PageOk(u, i)
    {
      assert PageOk(t, i);
      if Taken(t, i) && !(first <= i < first + count) {
        RegionKeptOutside(t, first, count, i);
      }
    }
    CountFreeSplice(t, u, first, first + count);
    FreeInNone(t, first, first + count);
    FreeInAll(u, first, first + count);
  }
}
