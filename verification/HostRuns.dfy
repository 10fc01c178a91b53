/** The host pages under a heap that nothing watches (src/xenia/memory.cc:920-1355): every committed page has
    the access that the protection of its entry asks for, over every run, and each call touches the host
    pages of its own range only. */
module HostRuns {
  import opened Arith
  import opened PageTable
  import opened PageSearch
  import opened HeapSpec
  import opened WriteWatch
  import opened HeapRuns

  /** The guest page over host page `i`. */
  function PageOver(geo: Geometry, i: nat): nat
    requires geo.Valid() && geo.Shift() <= i
  {
    ScaleFacts(geo);
    (i - geo.Shift()) / geo.Scale()
  }

  lemma PageOverIsGuest(geo: Geometry, i: nat)
    requires geo.Valid() && geo.Shift() <= i
    ensures PageOver(geo, i) == GuestPage(geo, i)
  {
    GuestPageIsQuotient(geo, i);
    QuotientIsDivision(i - geo.Shift(), geo.Scale());
  }

  /** Bit 0 of a protection allows reading, bit 1 writing; without reading there is no access at all. */
  predicate Fitting(protect: bv4, access: PageAccess) {
    && (access == ReadWrite <==> protect & 1 != 0 && protect & 2 != 0)
    && (access == ReadOnly <==> protect & 1 != 0 && protect & 2 == 0)
  }

  ghost predicate HostRight(geo: Geometry, h: Heap) {
    && geo.Valid() && h.Fits(geo)
    && forall i {:trigger h.host[i]} :: geo.Shift() <= i < |h.host| ==>
         && PageOver(geo, i) < |h.table|
         && var e := h.table[PageOver(geo, i)];
            e.state & 2 != 0 ==> Fitting(e.currentProtect, h.host[i])
  }

  lemma AccessFits(protect: bv4, access: PageAccess)
    ensures Fitting(protect, access) <==> access == ToPageAccess(protect)
  {
  }

  lemma PagesMapped(geo: Geometry, h: Heap, i: nat)
    requires geo.Valid() && h.Fits(geo) && geo.Shift() <= i < |h.host|
    ensures PageOver(geo, i) == GuestPage(geo, i) < |h.table| && InHeap(geo, h, i)
  {
    PageOverIsGuest(geo, i);
    GuestPageIsQuotient(geo, i);
    QuotientRange(i - geo.Shift(), geo.Scale(), 0, geo.Pages());
  }

  // ---- what each call does to the host pages ----------------------------------------------------

  /** Host pages over guest pages [first, first + count) got the access of `protect`, if `changed`; all
      others are as before. */
  ghost predicate OnlyUnder(geo: Geometry, h: Heap, h': Heap, first: nat, count: nat, changed: bool, protect: bv4) {
    && geo.Valid() && |h'.host| == |h.host|
    && (forall i :: 0 <= i < |h.host| && i < geo.Shift() ==> h'.host[i] == h.host[i])
    && forall i {:trigger h'.host[i]} :: geo.Shift() <= i < |h.host| ==>
         if changed && first <= PageOver(geo, i) < first + count then Fitting(protect, h'.host[i])
         else h'.host[i] == h.host[i]
  }

  lemma CoverIsUnder(geo: Geometry, h: Heap, h': Heap, first: nat, count: nat, protect: bv4)
    requires geo.Valid() && h.Fits(geo) && h'.host == HostCover(geo, h.host, first, count, ToPageAccess(protect))
    ensures OnlyUnder(geo, h, h', first, count, true, protect)
  {
    forall i | geo.Shift() <= i < |h.host|
      ensures if first <= PageOver(geo, i) < first + count then Fitting(protect, h'.host[i])
              else h'.host[i] == h.host[i]
    {
      PagesMapped(geo, h, i);
      HostCoverAt(geo, h, first, count, ToPageAccess(protect), i);
      AccessFits(protect, h'.host[i]);
    }
    BelowCover(geo, h.host, first, count, ToPageAccess(protect));
  }

  lemma BelowCover(geo: Geometry, host: seq<PageAccess>, first: nat, count: nat, access: PageAccess)
    requires geo.Valid()
    ensures forall i :: 0 <= i < |host| && i < geo.Shift() ==> HostCover(geo, host, first, count, access)[i] == host[i]
  {
    ScaleFacts(geo);
    assert first * geo.Scale() >= 0;
  }

  /** A fixed placement that is accepted gives its own pages access, unless it only reserves. */
  lemma FixedHost(geo: Geometry, h: Heap, first: nat, count: nat, alloc: bv2, protect: bv4, hostOk: bool)
    requires geo.Valid() && h.Fits(geo) && count > 0 && alloc != 0
    ensures var (h', r) := AllocPages(geo, h, first, count, alloc, protect, hostOk);
            if r == Success then
              && OnlyUnder(geo, h, h', first, count, alloc & 2 != 0, protect)
              && if alloc & 1 != 0 || exists i ::
                   first <= i < first + count && i < |h.table| && h.table[i].state & 1 == 0
                 then IsPlaced(h, h', first, count, alloc, protect) else IsCommitted(h, h', first, count, protect)
            else h' == h
  {
    var (h', r) := AllocPages(geo, h, first, count, alloc, protect, hostOk);
    if r == Success && alloc & 2 != 0 {
      CoverIsUnder(geo, h, h', first, count, protect);
    }
  }

  /** A placement in a range commits the window that it returns, unless it only reserves, and leaves the
      host pages outside of it alone. */
  lemma RangeHost(geo: Geometry, h: Heap, s: Scan, count: nat, alloc: bv2, protect: bv4, topDown: bool, hostOk: bool)
    requires geo.Valid() && h.Fits(geo) && s.stride > 0 && s.high < |h.table| && alloc != 0
    ensures var (h', r, address) := AllocSearched(geo, h, s, count, alloc, protect, topDown, hostOk);
            && (r != Success ==> h' == h)
            && (r == Success ==>
                  exists b: nat ::
                    && address == geo.base + b * geo.pageSize && IsPlaced(h, h', b, count, alloc, protect)
                    && OnlyUnder(geo, h, h', b, count, alloc & 2 != 0, protect))
  {
    hide WindowFound;
    match WindowFound(h.table, s, count, topDown)
    case Found(b) =>
      var (h', r, _) := PlaceWindow(geo, h, b, count, alloc, protect, hostOk);
      if r == Success {
        if alloc & 2 != 0 {
          CoverIsUnder(geo, h, h', b, count, protect);
        }
        assert IsPlaced(h, h', b, count, alloc, protect);
      }
    case _ =>
  }

  /** The entries of a window that was placed, and all others as before. */
  ghost predicate IsPlaced(h: Heap, h': Heap, b: nat, count: nat, alloc: bv2, protect: bv4) {
    && |h'.table| == |h.table|
    && forall i :: 0 <= i < |h.table| ==>
         h'.table[i] == if b <= i < b + count then PageEntry(b, count, protect, protect, 1 | alloc) else h.table[i]
  }

  /** A window of reserved pages that was committed: its pages keep their region. */
  ghost predicate IsCommitted(h: Heap, h': Heap, b: nat, count: nat, protect: bv4) {
    && |h'.table| == |h.table|
    && forall i :: 0 <= i < |h.table| ==>
         h'.table[i] == if b <= i < b + count
           then PageEntry(h.table[i].baseAddress, h.table[i].regionPageCount, protect, protect, 3) else h.table[i]
  }

  lemma ReleaseHost(geo: Geometry, h: Heap, page: nat, protectOnRelease: bool)
    requires geo.Valid() && h.Fits(geo) && page < |h.table|
    ensures var (h', r) := ReleasePages(geo, h, page, protectOnRelease);
            if r == Success then OnlyUnder(geo, h, h', page, h.table[page].regionPageCount, protectOnRelease, 0)
            else h' == h
  {
    var (h', r) := ReleasePages(geo, h, page, protectOnRelease);
    if r == Success && protectOnRelease {
      CoverIsUnder(geo, h, h', page, h.table[page].regionPageCount, 0);
    }
  }

  lemma ProtectHost(geo: Geometry, h: Heap, first: nat, last: nat, protect: bv4, hostOk: bool)
    requires geo.Valid() && h.Fits(geo)
    ensures var (h', r) := ProtectPages(geo, h, first, last, protect, hostOk);
            if r == Success then first <= last && OnlyUnder(geo, h, h', first, last + 1 - first, true, protect)
            else h' == h
  {
    var (h', r) := ProtectPages(geo, h, first, last, protect, hostOk);
    if r == Success {
      CoverIsUnder(geo, h, h', first, last + 1 - first, protect);
    }
  }

  // ---- every run ------------------------------------------------------------------------------

  /** A call whose table and host pages change over the same pages keeps the host right. */
  lemma UnderKeeps(geo: Geometry, h: Heap, h': Heap, first: nat, count: nat, changed: bool, protect: bv4)
    requires HostRight(geo, h) && h'.Fits(geo) && OnlyUnder(geo, h, h', first, count, changed, protect)
    requires forall p {:trigger h'.table[p]} :: 0 <= p < |h.table| ==>
               if first <= p < first + count then
                 && (h'.table[p].state & 2 != 0 && changed ==> h'.table[p].currentProtect == protect)
                 && (h'.table[p].state & 2 != 0 && !changed ==>
                       h.table[p].state & 2 != 0 && h'.table[p].currentProtect == h.table[p].currentProtect)
               else h'.table[p].state & 2 != 0 ==>
                      h.table[p].state & 2 != 0 && h'.table[p].currentProtect == h.table[p].currentProtect
    ensures HostRight(geo, h')
  {
    forall i | geo.Shift() <= i < |h'.host|
      ensures PageOver(geo, i) < |h'.table|
      ensures var e := h'.table[PageOver(geo, i)]; e.state & 2 != 0 ==> Fitting(e.currentProtect, h'.host[i])
    {
      PagesMapped(geo, h, i);
      assert h.host[i] == h.host[i] && h'.host[i] == h'.host[i];
    }
  }

  lemma RangeKeepsHost(geo: Geometry, h: Heap, s: Scan, count: nat, alloc: bv2, protect: bv4, topDown: bool,
                       hostOk: bool)
    requires HostRight(geo, h) && s.stride > 0 && s.high < |h.table| && alloc != 0
    ensures HostRight(geo, AllocSearched(geo, h, s, count, alloc, protect, topDown, hostOk).0)
  {
    hide HostRight, OnlyUnder, Quotient, HostCover, AllocSearched;
    RightFits(geo, h);
    var (h', r, address) := AllocSearched(geo, h, s, count, alloc, protect, topDown, hostOk);
    RangeHost(geo, h, s, count, alloc, protect, topDown, hostOk);
    RangeSizes(geo, h, s, count, alloc, protect, topDown, hostOk);
    if r == Success {
      var b: nat :| address == geo.base + b * geo.pageSize && IsPlaced(h, h', b, count, alloc, protect)
        && OnlyUnder(geo, h, h', b, count, alloc & 2 != 0, protect);
      PlacedBits(alloc);
      UnderKeeps(geo, h, h', b, count, alloc & 2 != 0, protect);
    }
  }

  lemma DecommitKeepsHost(geo: Geometry, h: Heap, first: nat, count: nat)
    requires HostRight(geo, h) && 0 < |h.table|
    ensures HostRight(geo, DecommitPages(h, first, count))
  {
    hide HostRight, Quotient;
    RightFits(geo, h);
    NothingUnder(geo, h, DecommitPages(h, first, count));
    UnderKeeps(geo, h, DecommitPages(h, first, count), 0, 0, false, 0);
  }

  lemma ReleaseKeepsHost(geo: Geometry, h: Heap, page: nat, protectOnRelease: bool)
    requires HostRight(geo, h) && geo.Valid() && h.Fits(geo) && page < |h.table|
    ensures HostRight(geo, ReleasePages(geo, h, page, protectOnRelease).0)
  {
    hide HostRight, OnlyUnder, Quotient, HostCover;
    var (h', r) := ReleasePages(geo, h, page, protectOnRelease);
    ReleaseHost(geo, h, page, protectOnRelease);
    if r == Success {
      UnderKeeps(geo, h, h', page, h.table[page].regionPageCount, protectOnRelease, 0);
    }
  }

  lemma ProtectKeepsHost(geo: Geometry, h: Heap, first: nat, last: nat, protect: bv4, hostOk: bool)
    requires HostRight(geo, h) && geo.Valid() && h.Fits(geo)
    ensures HostRight(geo, ProtectPages(geo, h, first, last, protect, hostOk).0)
  {
    hide HostRight, OnlyUnder, Quotient, HostCover, Protectable;
    var (h', r) := ProtectPages(geo, h, first, last, protect, hostOk);
    ProtectHost(geo, h, first, last, protect, hostOk);
    if r == Success {
      UnderKeeps(geo, h, h', first, last + 1 - first, true, protect);
    }
  }

  lemma StepKeepsHost(geo: Geometry, h: Heap, op: HeapOp)
    requires Inv(h) && Callable(geo, h, op) && HostRight(geo, h)
    ensures HostRight(geo, Apply(geo, h, op).0)
  {
    hide HostRight, Inv, Quotient;
    match op
    case FixedOp(first, count, alloc, protect, hostOk) =>
      FixedHost(geo, h, first, count, alloc, protect, hostOk);
      if AllocPages(geo, h, first, count, alloc, protect, hostOk).1 == Success {
        FixedKeepsHost(geo, h, first, count, alloc, protect, hostOk);
      }
    case RangeOp(s, count, alloc, protect, topDown, hostOk) =>
      RangeKeepsHost(geo, h, s, count, alloc, protect, topDown, hostOk);
    case DecommitOp(first, count) => DecommitKeepsHost(geo, h, first, count);
    case ReleaseOp(page, protectOnRelease) => ReleaseKeepsHost(geo, h, page, protectOnRelease);
    case ProtectOp(first, last, protect, hostOk) => ProtectKeepsHost(geo, h, first, last, protect, hostOk);
  }

  lemma NothingUnder(geo: Geometry, h: Heap, h': Heap)
    requires geo.Valid() && h'.host == h.host
    ensures OnlyUnder(geo, h, h', 0, 0, false, 0)
  {
  }

  lemma RangeSizes(geo: Geometry, h: Heap, s: Scan, count: nat, alloc: bv2, protect: bv4, topDown: bool, hostOk: bool)
    requires geo.Valid() && h.Fits(geo) && s.stride > 0 && s.high < |h.table|
    ensures AllocSearched(geo, h, s, count, alloc, protect, topDown, hostOk).0.Fits(geo)
  {
    hide WindowFound;
  }

  lemma PlacedBits(alloc: bv2)
    ensures (1 | alloc) & 2 != 0 <==> alloc & 2 != 0
  {
  }

  lemma FixedKeepsHost(geo: Geometry, h: Heap, first: nat, count: nat, alloc: bv2, protect: bv4, hostOk: bool)
    requires HostRight(geo, h) && count > 0 && alloc != 0 && Inv(h)
    requires AllocPages(geo, h, first, count, alloc, protect, hostOk).1 == Success
    requires OnlyUnder(geo, h, AllocPages(geo, h, first, count, alloc, protect, hostOk).0, first, count, alloc & 2 != 0,
                       protect)
    ensures HostRight(geo, AllocPages(geo, h, first, count, alloc, protect, hostOk).0)
  {
    hide HostRight, OnlyUnder, WellFormed, CountFree, Quotient, HostCover;
    assert geo.Valid() && h.Fits(geo) by { RightFits(geo, h); }
    var h' := AllocPages(geo, h, first, count, alloc, protect, hostOk).0;
    AllocTypes(FixedAllocType(h.table, first, count, alloc));
    UnderKeeps(geo, h, h', first, count, alloc & 2 != 0, protect);
  }

  lemma RightFits(geo: Geometry, h: Heap)
    requires HostRight(geo, h)
    ensures geo.Valid() && h.Fits(geo)
  {
  }

  /** Only a placement commits: a page that is not committed stays so over every other call. */
  lemma UncommittedStays(geo: Geometry, h: Heap, op: HeapOp, p: nat)
    requires Callable(geo, h, op) && !op.FixedOp? && !op.RangeOp? && p < |h.table| && h.table[p].state & 2 == 0
    ensures |Apply(geo, h, op).0.table| == |h.table| && Apply(geo, h, op).0.table[p].state & 2 == 0
  {
    hide Quotient, HostCover, Protectable;
  }

  /** An empty heap without access is right. */
  lemma EmptyHostRight(geo: Geometry, h: Heap)
    requires geo.Valid() && h.Fits(geo) && forall i :: 0 <= i < |h.table| ==> h.table[i].state == 0
    ensures HostRight(geo, h)
  {
    forall i | geo.Shift() <= i < |h.host|
      ensures PageOver(geo, i) < |h.table| && h.table[PageOver(geo, i)].state & 2 == 0
    {
      PagesMapped(geo, h, i);
    }
  }

  /** After every run of safe calls on one heap the host page of every committed page is read-write when its
      entry allows reading and writing, read-only when it allows reading alone, and without access
      otherwise. */
  lemma {:induction false} EveryRunHostRight(geo: Geometry, h: Heap, ops: seq<HeapOp>)
    requires Inv(h) && SafeRun(geo, h, ops) && HostRight(geo, h)
    ensures HostRight(geo, Run(geo, h, ops))
    decreases |ops|
  {
    hide HostRight;
    if ops != [] {
      StepExactly(geo, h, ops[0]);
      StepKeepsHost(geo, h, ops[0]);
      EveryRunHostRight(geo, Apply(geo, h, ops[0]).0, ops[1..]);
    }
  }
}
