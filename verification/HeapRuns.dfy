/** What every run of the operations of one heap keeps, and which calls break it. */
module HeapRuns {
  import opened Arith
  import opened PageTable
  import opened PageSearch
  import opened HeapSpec

  /** The table is consistent and the cached count of free pages is right. */
  ghost predicate Inv(h: Heap) {
    WellFormed(h.table) && h.unreserved == CountFree(h.table)
  }

  datatype HeapOp =
    | FixedOp(first: nat, count: nat, alloc: bv2, protect: bv4, hostOk: bool)
    | RangeOp(scan: Scan, count: nat, alloc: bv2, protect: bv4, topDown: bool, hostOk: bool)
    | DecommitOp(first: nat, count: nat)
    | ReleaseOp(page: nat, protectOnRelease: bool)
    | ProtectOp(first: nat, last: nat, protect: bv4, hostOk: bool)

  /** What the methods of `GuestHeap.BaseHeap` ask of a call. */
  ghost predicate Callable(geo: Geometry, h: Heap, op: HeapOp) {
    && geo.Valid() && h.Fits(geo) && 0 < |h.table|
    && match op
       case FixedOp(_, count, alloc, _, _) => count > 0 && alloc != 0
       case RangeOp(s, count, alloc, _, topDown, _) =>
         s.stride > 0 && s.low < |h.table| && s.high < |h.table| && count > 0 && alloc != 0
         && InBounds(s, count) && StartsAligned(s, count, topDown)
       case DecommitOp(_, _) => true
       case ReleaseOp(page, _) => page < |h.table|
       case ProtectOp(_, _, _, _) => true
  }

  ghost function Apply(geo: Geometry, h: Heap, op: HeapOp): (Heap, Outcome)
    requires Callable(geo, h, op)
  {
    match op
    case FixedOp(first, count, alloc, protect, hostOk) => AllocPages(geo, h, first, count, alloc, protect, hostOk)
    case RangeOp(s, count, alloc, protect, topDown, hostOk) =>
      var r := AllocSearched(geo, h, s, count, alloc, protect, topDown, hostOk); (r.0, r.1)
    case DecommitOp(first, count) => (DecommitPages(h, first, count), Success)
    case ReleaseOp(page, protectOnRelease) => ReleasePages(geo, h, page, protectOnRelease)
    case ProtectOp(first, last, protect, hostOk) => ProtectPages(geo, h, first, last, protect, hostOk)
  }

  /** A caller can check this before the call: a placement that reserves does not cut a region, and
      the free page 0 of a heap above address 0 is not released. */
  ghost predicate Safe(geo: Geometry, h: Heap, op: HeapOp)
    requires Callable(geo, h, op)
  {
    match op
    case FixedOp(first, count, alloc, _, _) =>
      && first + count - 1 != |h.table|
      && (first + count <= |h.table| && FixedAllocType(h.table, first, count, alloc) & RESERVE != 0 ==>
            NoRegionAcross(h.table, first) && NoRegionAcross(h.table, first + count))
    case ReleaseOp(page, _) => !(page == 0 && geo.base != 0 && h.table[0] == FREE_ENTRY)
    case _ => true
  }

  // ---- single steps -------------------------------------------------------------------------

  /** A reservation in a range takes a window that was free, at the best place there is, and lowers
      the count of free pages by its size. It fails for want of pages only when no window fits. */
  lemma RangeStep(geo: Geometry, h: Heap, s: Scan, count: nat, alloc: bv2, protect: bv4, topDown: bool, hostOk: bool)
    requires Inv(h) && Callable(geo, h, RangeOp(s, count, alloc, protect, topDown, hostOk))
    ensures var high := RoundDown(s.high, s.stride);
            var (h', r, address) := AllocInRange(geo, h, s, count, alloc, protect, topDown, hostOk);
            && r != OutOfBounds && Inv(h')
            && AllocSearched(geo, h, s, count, alloc, protect, topDown, hostOk) == (h', r, address)
            && (r == Failure ==> h' == h)
            && (r == Success ==> exists b: nat ::
                  && Fits(h.table, s.low, high, s.stride, count, b)
                  && (forall c: nat :: Fits(h.table, s.low, high, s.stride, count, c) ==>
                      if topDown then c <= b else b <= c)
                  && address == geo.base + b * geo.pageSize
                  && h'.table == Allocated(h.table, b, count, alloc | RESERVE, protect)
                  && CountFree(h'.table) == CountFree(h.table) - count)
            && (r == Failure && (alloc == RESERVE || hostOk) ==>
                  forall c: nat :: !Fits(h.table, s.low, high, s.stride, count, c))
  {
    var high := RoundDown(s.high, s.stride);
    SearchIsBest(geo, h, s, count, alloc, protect, topDown, hostOk);
    if !TooBig(s, count) {
      match BestFit(h.table, s.low, high, s.stride, count, topDown)
      case Found(b) =>
        assert Fits(h.table, s.low, high, s.stride, count, b);
        FreeWindow(h.table, b, count, alloc | RESERVE, protect);
      case _ =>
    }
  }

  lemma FreeWindow(t: Table, b: nat, count: nat, alloc: bv2, protect: bv4)
    requires WellFormed(t) && AllFree(t, b, count) && count > 0 && alloc & RESERVE != 0
    ensures var u := Allocated(t, b, count, alloc, protect);
            WellFormed(u) && CountFree(u) == CountFree(t) - count
  {
    AllocatedKeepsUncut(t, b, count, alloc, protect);
    AllocatedCount(t, b, count, alloc, protect);
    FreeInAll(t, b, b + count);
  }

  /** Fixed placement keeps the heap consistent exactly when it does not cut a region, whatever the
      range held before; the count of free pages is right in any case. */
  lemma FixedStepExactly(geo: Geometry, h: Heap, first: nat, count: nat, alloc: bv2, protect: bv4, hostOk: bool)
    requires Inv(h) && Callable(geo, h, FixedOp(first, count, alloc, protect, hostOk))
    ensures var (h', r) := AllocPages(geo, h, first, count, alloc, protect, hostOk);
            && h'.unreserved == CountFree(h'.table)
            && (r != Success ==> h' == h)
            && (r == Success ==>
                  (Inv(h') <==> (FixedAllocType(h.table, first, count, alloc) & RESERVE != 0 ==>
                                   NoRegionAcross(h.table, first) && NoRegionAcross(h.table, first + count))))
  {
    var (h', r) := AllocPages(geo, h, first, count, alloc, protect, hostOk);
    if r == Success {
      var alloc' := FixedAllocType(h.table, first, count, alloc);
      AllocatedCount(h.table, first, count, alloc', protect);
      if alloc' & RESERVE != 0 {
        AllocatedKeepsExactly(h.table, first, count, alloc', protect);
      } else {
        assert alloc' == COMMIT;
        forall i | first <= i < first + count
          ensures h.table[i].state != 0
        {
          assert h.table[i].state & RESERVE != 0;
        }
        CommitKeeps(h.table, first, count, alloc', protect);
      }
    }
  }

  lemma ReleaseStep(geo: Geometry, h: Heap, page: nat, protectOnRelease: bool)
    requires Inv(h) && Callable(geo, h, ReleaseOp(page, protectOnRelease))
    ensures var (h', r) := ReleasePages(geo, h, page, protectOnRelease);
            && Inv(h')
            && (r == OutOfBounds <==> page == 0 && geo.base != 0 && h.table[0] == FREE_ENTRY)
            && (r == Success
                <==> Taken(h.table, page) && h.table[page].baseAddress == page && !(page == 0 && geo.base == 0))
            && (r != Success ==> h' == h)
            && (r == Success ==> AllTaken(h.table, page, h.table[page].regionPageCount)
                                 && AllFree(h'.table, page, h.table[page].regionPageCount)
                                 && h'.unreserved == h.unreserved + h.table[page].regionPageCount
                                 && forall i :: 0 <= i < |h.table| ==>
                                      h'.table[i] == if page <= i < page + h.table[page].regionPageCount
                                        then PageEntry(0, 0, 0, 0, 0) else h.table[i])
  {
    assert PageOk(h.table, page);
    if Taken(h.table, page) && h.table[page].baseAddress == page {
      ReleasedKeeps(h.table, page);
    }
  }

  lemma ProtectStep(geo: Geometry, h: Heap, first: nat, last: nat, protect: bv4, hostOk: bool)
    requires Inv(h) && Callable(geo, h, ProtectOp(first, last, protect, hostOk))
    ensures var (h', r) := ProtectPages(geo, h, first, last, protect, hostOk);
            && Inv(h') && (r != Success ==> h' == h)
            && (r == Success ==> forall i :: first <= i <= last ==> SameRegion(h.table[i], h.table[first]))
  {
    if Protectable(h.table, first, last) {
      forall i | first <= i <= last
        ensures SameRegion(h.table[i], h.table[first]) && h.table[i].state != 0
      {
        assert h.table[i].baseAddress == h.table[first].baseAddress && h.table[i].state & COMMIT != 0;
        assert PageOk(h.table, i) && PageOk(h.table, first);
        assert SameRegion(h.table[h.table[i].baseAddress], h.table[i]);
      }
      ProtectedKeeps(h.table, first, last + 1 - first, protect);
    }
  }

  /** One step of any kind keeps the heap consistent and stays inside the table exactly when it is safe
      or is refused. */
  lemma StepExactly(geo: Geometry, h: Heap, op: HeapOp)
    requires Inv(h) && Callable(geo, h, op)
    ensures var (h', r) := Apply(geo, h, op);
            && (Inv(h') && r != OutOfBounds <==> Safe(geo, h, op) || r == Failure)
            && (op.ReleaseOp? ==> (Safe(geo, h, op) <==> r != OutOfBounds))
            && |h'.table| == |h.table| && |h'.host| == |h.host|
  {
    match op
    case FixedOp(first, count, alloc, protect, hostOk) =>
      FixedStepExactly(geo, h, first, count, alloc, protect, hostOk);
    case RangeOp(s, count, alloc, protect, topDown, hostOk) =>
      RangeStep(geo, h, s, count, alloc, protect, topDown, hostOk);
    case DecommitOp(first, count) =>
      var (start, length) := DecommitSpan(|h.table|, first, count);
      DecommittedKeeps(h.table, start, length);
    case ReleaseOp(page, protectOnRelease) => ReleaseStep(geo, h, page, protectOnRelease);
    case ProtectOp(first, last, protect, hostOk) => ProtectStep(geo, h, first, last, protect, hostOk);
  }

  // ---- runs ---------------------------------------------------------------------------------

  /** Every call of the run is allowed and safe in the state it meets. */
  ghost predicate SafeRun(geo: Geometry, h: Heap, ops: seq<HeapOp>)
    decreases |ops|
  {
    ops != [] ==>
      Callable(geo, h, ops[0]) && Safe(geo, h, ops[0]) && SafeRun(geo, Apply(geo, h, ops[0]).0, ops[1..])
  }

  ghost function Run(geo: Geometry, h: Heap, ops: seq<HeapOp>): Heap
    requires SafeRun(geo, h, ops)
    decreases |ops|
  {
    if ops == [] then h else Run(geo, Apply(geo, h, ops[0]).0, ops[1..])
  }

  /** After every run of safe calls the page table is consistent and the cached count is the number
      of free pages ... */
  lemma {:induction false} EveryRunKeeps(geo: Geometry, h: Heap, ops: seq<HeapOp>)
    requires Inv(h) && SafeRun(geo, h, ops)
    ensures Inv(Run(geo, h, ops)) && |Run(geo, h, ops).table| == |h.table|
    decreases |ops|
  {
    if ops != [] {
      StepExactly(geo, h, ops[0]);
      EveryRunKeeps(geo, Apply(geo, h, ops[0]).0, ops[1..]);
    }
  }

  /** ... so that no page ever lies in two regions. */
  lemma EveryRunDisjoint(geo: Geometry, h: Heap, ops: seq<HeapOp>)
    requires Inv(h) && SafeRun(geo, h, ops)
    ensures var t := Run(geo, h, ops).table;
            forall i, j :: 0 <= i < |t| && 0 <= j < |t| && t[i].state != 0 && t[j].state != 0 ==>
              SameRegion(t[i], t[j]) || DisjointRegions(t[i], t[j])
  {
    EveryRunKeeps(geo, h, ops);
    var t := Run(geo, h, ops).table;
    forall i, j | 0 <= i < |t| && 0 <= j < |t| && t[i].state != 0 && t[j].state != 0
      ensures SameRegion(t[i], t[j]) || DisjointRegions(t[i], t[j])
    {
      RegionsDisjoint(t, i, j);
    }
  }

  /** Releasing a region that was placed in a free window gives back the table and the count. */
  lemma ReleaseUndoesPlacement(geo: Geometry, h: Heap, b: nat, count: nat, alloc: bv2, protect: bv4)
    requires Inv(h) && geo.Valid() && h.Fits(geo) && count > 0 && alloc != 0 && AllFree(h.table, b, count)
    requires b > 0 || geo.base > 0
    ensures var h' := PlaceWindow(geo, h, b, count, alloc, protect, true).0;
            && h'.Fits(geo)
            && var (h'', r) := ReleasePages(geo, h', b, false);
               r == Success && h''.table == h.table && h''.unreserved == h.unreserved
  {
    var h' := PlaceWindow(geo, h, b, count, alloc, protect, true).0;
    assert h'.table[b].baseAddress == b && h'.table[b].regionPageCount == count;
    forall i | b <= i < b + count
      ensures h.table[i] == FREE_ENTRY
    {
      assert PageOk(h.table, i);
    }
    assert Released(h'.table, b, count) == h.table;
  }
}
