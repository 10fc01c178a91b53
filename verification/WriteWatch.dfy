/** Write watching of a physical view (src/xenia/memory.cc:1637-2014): a bit for each host page that
    says a write must be reported, kept in step with the access of the host page. */
module WriteWatch {
  import opened Arith
  import opened PageTable
  import opened HeapSpec
  import HeapRuns

  type Bits = seq<bool>

  /** `SystemPagenumToGuestPagenum` */
  function GuestPage(geo: Geometry, i: nat): nat
    requires geo.pageSize > 0
  {
    Quotient(if i * SYSTEM_PAGE >= geo.hostOffset then i * SYSTEM_PAGE - geo.hostOffset else 0, geo.pageSize)
  }

  /** What the guest may do with the memory behind host page `i`. */
  function GuestAccess(geo: Geometry, t: Table, i: nat): PageAccess
    requires geo.pageSize > 0 && GuestPage(geo, i) < |t|
  {
    ToPageAccess(t[GuestPage(geo, i)].currentProtect)
  }

  ghost predicate InHeap(geo: Geometry, h: Heap, i: int) {
    geo.Valid() && geo.Shift() <= i < |h.host| && GuestPage(geo, i) < |h.table|
  }

  /** A free page carries no bit. A committed page has the access the guest asked for, except that
      a watched page the guest may write is read-only. */
  ghost predicate PageInStep(geo: Geometry, h: Heap, w: Bits, i: nat)
    requires InHeap(geo, h, i) && i < |w|
  {
    var e := h.table[GuestPage(geo, i)];
    && (w[i] ==> e.state != 0)
    && (e.state & COMMIT != 0 ==>
          h.host[i] == if w[i] && GuestAccess(geo, h.table, i) == ReadWrite then ReadOnly
            else GuestAccess(geo, h.table, i))
  }

  /** Every host page belongs to a guest page. */
  ghost predicate Mapped(geo: Geometry, pages: nat, hostPages: nat) {
    geo.pageSize > 0 && forall i :: geo.Shift() <= i < hostPages ==> GuestPage(geo, i) < pages
  }

  /** There is a bit for every host page of the heap. */
  ghost predicate Shape(geo: Geometry, h: Heap, w: Bits) {
    geo.Valid() && h.Fits(geo) && 0 < |h.table| && |h.host| <= |w| && Mapped(geo, |h.table|, |h.host|)
  }

  ghost predicate InStep(geo: Geometry, h: Heap, w: Bits) {
    && Shape(geo, h, w)
    && forall i {:trigger w[i]} :: geo.Shift() <= i < |h.host| ==> PageInStep(geo, h, w, i)
  }

  // ---- host pages and guest pages -----------------------------------------------------------

  lemma ScaleFacts(geo: Geometry)
    requires geo.Valid()
    ensures geo.Scale() > 0 && geo.pageSize == geo.Scale() * SYSTEM_PAGE
    ensures geo.hostOffset == geo.Shift() * SYSTEM_PAGE
  {
    DivModUnique(SYSTEM_PAGE, SYSTEM_PAGE, 1, 0);
    DivisionMonotone(SYSTEM_PAGE, geo.pageSize, SYSTEM_PAGE);
  }

  lemma GuestPageIsQuotient(geo: Geometry, i: nat)
    requires geo.Valid() && i >= geo.Shift()
    ensures geo.Scale() > 0 && GuestPage(geo, i) == Quotient(i - geo.Shift(), geo.Scale())
  {
    ScaleFacts(geo);
    var g, k := geo.Scale(), i - geo.Shift();
    assert i * SYSTEM_PAGE - geo.hostOffset == k * SYSTEM_PAGE;
    var q, r := k / g, k % g;
    assert k == q * g + r;
    assert k * SYSTEM_PAGE == q * (g * SYSTEM_PAGE) + r * SYSTEM_PAGE;
    DivModUnique(k * SYSTEM_PAGE, geo.pageSize, q, r * SYSTEM_PAGE);
    QuotientIsDivision(k * SYSTEM_PAGE, geo.pageSize);
    QuotientIsDivision(k, g);
  }

  lemma QuotientAtLeast(k: nat, g: nat, n: nat)
    requires g > 0
    ensures n <= Quotient(k, g) <==> n * g <= k
  {
    var q := k / g;
    QuotientIsDivision(k, g);
    assert q * g <= k < (q + 1) * g;
    if n <= q {
      MulOrder(n, q, g);
    } else {
      MulOrder(q + 1, n, g);
    }
  }

  lemma QuotientRange(k: nat, g: nat, first: nat, last: nat)
    requires g > 0
    ensures first <= Quotient(k, g) < last <==> first * g <= k < last * g
  {
    QuotientAtLeast(k, g, first);
    QuotientAtLeast(k, g, last);
  }

  /** Host page `i` lies under guest pages [first, first + count) exactly when its guest page does. */
  lemma CoverIsGuest(geo: Geometry, i: nat, first: nat, count: nat)
    requires geo.Valid() && i >= geo.Shift()
    ensures first * geo.Scale() + geo.Shift() <= i < (first + count) * geo.Scale() + geo.Shift()
            <==> first <= GuestPage(geo, i) < first + count
  {
    GuestPageIsQuotient(geo, i);
    QuotientRange(i - geo.Shift(), geo.Scale(), first, first + count);
  }

  lemma HostCoverAt(geo: Geometry, h: Heap, first: nat, count: nat, access: PageAccess, i: nat)
    requires InHeap(geo, h, i)
    ensures HostCover(geo, h.host, first, count, access)[i]
            == if first <= GuestPage(geo, i) < first + count then access else h.host[i]
  {
    CoverIsGuest(geo, i, first, count);
  }

  // ---- the operations, page by page ---------------------------------------------------------

  /** A page that `EnableAccessCallbacks` starts to watch: writable for the guest, not yet watched. */
  predicate Watchable(geo: Geometry, t: Table, w: Bits, i: nat)
    requires geo.pageSize > 0 && GuestPage(geo, i) < |t| && i < |w|
  {
    GuestAccess(geo, t, i) == ReadWrite && !w[i]
  }

  ghost function Enabled(geo: Geometry, h: Heap, w: Bits, first: nat, last: nat): (Heap, Bits)
    requires Shape(geo, h, w) && geo.Shift() <= first && last < |h.host|
  {
    (h.(host := seq(|h.host|, i requires 0 <= i < |h.host| =>
          if first <= i <= last && Watchable(geo, h.table, w, i) then ReadOnly else h.host[i])),
     seq(|w|, i requires 0 <= i < |w| => w[i] || (first <= i <= last && Watchable(geo, h.table, w, i))))
  }

  ghost predicate AnyWatched(w: Bits, first: nat, last: nat) {
    exists i :: first <= i <= last && i < |w| && w[i]
  }

  function Cleared(w: Bits, first: nat, last: nat): (c: Bits)
    ensures |c| == |w|
  {
    seq(|w|, i requires 0 <= i < |w| => w[i] && !(first <= i <= last))
  }

  /** The host pages of the final range that may be written again. */
  ghost function Unprotected(geo: Geometry, h: Heap, w: Bits, first: nat, last: nat): Heap
    requires Shape(geo, h, w) && geo.Shift() <= first && last < |h.host|
  {
    h.(host := seq(|h.host|, i requires 0 <= i < |h.host| =>
         if first <= i <= last && w[i] && GuestAccess(geo, h.table, i) == ReadWrite then ReadWrite else h.host[i]))
  }

  /** `TriggerCallbacks` on the requested pages [first, last] with the final range [from, to]. */
  ghost function Triggered(geo: Geometry, h: Heap, w: Bits, first: nat, last: nat, from: nat, to: nat,
                           unprotect: bool): (Heap, Bits, bool)
    requires Shape(geo, h, w) && geo.Shift() <= from && to < |h.host|
  {
    if !AnyWatched(w, first, last) then (h, w, false)
    else (if unprotect then Unprotected(geo, h, w, from, to) else h, Cleared(w, from, to), true)
  }

  /** The part of `PhysicalHeap::Protect` that concerns the view itself; `[first, last]` are the host
      pages of the byte range and `[page, endPage]` the guest pages that it touches. */
  ghost function ProtectedView(geo: Geometry, h: Heap, w: Bits, first: nat, last: nat, page: nat, endPage: nat,
                               protect: bv4, parentOk: bool, hostOk: bool): (Heap, Bits, Outcome)
    requires Shape(geo, h, w) && geo.Shift() <= first && last < |h.host|
  {
    var w' := if protect & PROTECT_WRITE != 0 then Triggered(geo, h, w, first, last, first, last, false).1 else w;
    if !parentOk then (h, w', Failure)
    else
      var r := ProtectPages(geo, h, page, endPage, protect, hostOk);
      (r.0, w', r.1)
  }

  ghost function DecommittedView(geo: Geometry, h: Heap, w: Bits, first: nat, last: nat, page: nat,
                                 count: nat): (Heap, Bits)
    requires Shape(geo, h, w) && geo.Shift() <= first && last < |h.host|
  {
    var t := Triggered(geo, h, w, first, last, first, last, true);
    (DecommitPages(t.0, page, count), t.1)
  }

  ghost function ReleasedView(geo: Geometry, h: Heap, w: Bits, first: nat, last: nat, page: nat,
                              protectOnRelease: bool): (Heap, Bits, Outcome)
    requires Shape(geo, h, w) && geo.Shift() <= first && last < |h.host| && page < |h.table|
  {
    var t := Triggered(geo, h, w, first, last, first, last, true);
    var r := ReleasePages(geo, t.0, page, protectOnRelease);
    (r.0, t.1, r.1)
  }

  // ---- whole runs of pages at a time --------------------------------------------------------

  /** The host pages after the pages of `now` in front of `upTo` got their new access. */
  function Flushed(host: seq<PageAccess>, now: seq<bool>, upTo: nat, access: PageAccess): (f: seq<PageAccess>)
    ensures |f| == |host|
  {
    seq(|host|, j requires 0 <= j < |host| => if j < upTo && j < |now| && now[j] then access else host[j])
  }

  /** One protect call for a run of such pages does what one call for each page would do. */
  lemma FlushRun(host: seq<PageAccess>, now: seq<bool>, from: nat, to: nat, access: PageAccess)
    requires from <= to <= |now| && forall j :: from <= j < to ==> now[j]
    ensures HostSet(Flushed(host, now, from, access), from, to, access) == Flushed(host, now, to, access)
  {
  }

  lemma FlushNothing(host: seq<PageAccess>, now: seq<bool>, i: nat, access: PageAccess)
    requires i < |now| && !now[i]
    ensures Flushed(host, now, i, access) == Flushed(host, now, i + 1, access)
  {
  }

  /** The bits after the pages of `now` in front of `upTo` got theirs. */
  function Marked(w: Bits, now: seq<bool>, upTo: nat): (m: Bits)
    ensures |m| == |w|
  {
    seq(|w|, j requires 0 <= j < |w| => w[j] || (j < upTo && j < |now| && now[j]))
  }

  lemma MarkStep(w: Bits, now: seq<bool>, i: nat)
    requires i < |now| <= |w|
    ensures Marked(w, now, i + 1) == if now[i] then Marked(w, now, i)[i := true] else Marked(w, now, i)
    ensures Marked(w, now, i)[i] == w[i]
  {
  }

  // ---- what each step keeps -----------------------------------------------------------------

  lemma EnableKeeps(geo: Geometry, h: Heap, w: Bits, first: nat, last: nat)
    requires HeapRuns.Inv(h) && InStep(geo, h, w) && geo.Shift() <= first && last < |h.host|
    ensures var (h', w') := Enabled(geo, h, w, first, last);
            && InStep(geo, h', w') && h'.table == h.table
            && (forall i :: first <= i <= last ==> (w'[i] <==> w[i] || GuestAccess(geo, h.table, i) == ReadWrite))
  {
    var (h', w') := Enabled(geo, h, w, first, last);
    forall i | geo.Shift() <= i < |h'.host|
      ensures PageInStep(geo, h', w', i)
    {
      assert PageInStep(geo, h, w, i) && PageOk(h.table, GuestPage(geo, i));
    }
    forall i | first <= i <= last
      ensures w'[i] <==> w[i] || GuestAccess(geo, h.table, i) == ReadWrite
    {
      assert GuestPage(geo, i) < |h.table|;
    }
  }

  lemma TriggerKeeps(geo: Geometry, h: Heap, w: Bits, first: nat, last: nat, from: nat, to: nat)
    requires InStep(geo, h, w) && geo.Shift() <= from && to < |h.host|
    ensures var (h', w', any) := Triggered(geo, h, w, first, last, from, to, true);
            && InStep(geo, h', w') && h'.table == h.table && h'.unreserved == h.unreserved
            && (any ==> !AnyWatched(w', from, to))
            && (!any ==> !AnyWatched(w', first, last) && h' == h && w' == w)
  {
    var (h', w', any) := Triggered(geo, h, w, first, last, from, to, true);
    forall i | geo.Shift() <= i < |h'.host|
      ensures PageInStep(geo, h', w', i)
    {
      assert PageInStep(geo, h, w, i);
    }
  }

  lemma DecommitInStep(geo: Geometry, h: Heap, w: Bits, page: nat, count: nat)
    requires HeapRuns.Inv(h) && InStep(geo, h, w)
    ensures InStep(geo, DecommitPages(h, page, count), w)
  {
    var h' := DecommitPages(h, page, count);
    forall i | geo.Shift() <= i < |h'.host|
      ensures PageInStep(geo, h', w, i)
    {
      assert PageInStep(geo, h, w, i);
      assert PageOk(h.table, GuestPage(geo, i));
    }
  }

  lemma DecommitViewKeeps(geo: Geometry, h: Heap, w: Bits, first: nat, last: nat, page: nat, count: nat)
    requires HeapRuns.Inv(h) && InStep(geo, h, w) && geo.Shift() <= first && last < |h.host|
    ensures InStep(geo, DecommittedView(geo, h, w, first, last, page, count).0,
                   DecommittedView(geo, h, w, first, last, page, count).1)
  {
    TriggerKeeps(geo, h, w, first, last, first, last);
    DecommitInStep(geo, Triggered(geo, h, w, first, last, first, last, true).0,
                   Triggered(geo, h, w, first, last, first, last, true).1, page, count);
  }

  /** The triggered range covers the whole region, so that no freed page keeps its bit. */
  lemma ReleaseViewKeeps(geo: Geometry, h: Heap, w: Bits, first: nat, last: nat, page: nat, protectOnRelease: bool)
    requires HeapRuns.Inv(h) && InStep(geo, h, w) && geo.Shift() <= first && last < |h.host|
    requires page < |h.table| && Taken(h.table, page)
    requires first <= page * geo.Scale() + geo.Shift()
    requires (page + h.table[page].regionPageCount) * geo.Scale() + geo.Shift() <= last + 1
    ensures InStep(geo, ReleasedView(geo, h, w, first, last, page, protectOnRelease).0,
                   ReleasedView(geo, h, w, first, last, page, protectOnRelease).1)
  {
    TriggerKeeps(geo, h, w, first, last, first, last);
    var (h1, w1, _) := Triggered(geo, h, w, first, last, first, last, true);
    var (h', r) := ReleasePages(geo, h1, page, protectOnRelease);
    if r == Success {
      var count := h.table[page].regionPageCount;
      forall i | geo.Shift() <= i < |h'.host|
        ensures PageInStep(geo, h', w1, i)
      {
        assert PageInStep(geo, h1, w1, i);
        CoverIsGuest(geo, i, page, count);
        HostCoverAt(geo, h1, page, count, NoAccess, i);
      }
    }
  }

  /** Some watched page under guest pages [page, page + count) lies outside [first, last]. */
  ghost predicate WatchedBeyond(geo: Geometry, h: Heap, w: Bits, page: nat, count: nat, first: nat, last: nat)
    requires Shape(geo, h, w)
  {
    exists i :: geo.Shift() <= i < |h.host| && w[i] && page <= GuestPage(geo, i) < page + count && !(first <= i <= last)
  }

  /** A protection change that succeeds keeps step exactly when no page that becomes writable keeps
      its bit; with whole guest pages that is always so. */
  lemma ProtectViewExactly(geo: Geometry, h: Heap, w: Bits, first: nat, last: nat, page: nat, endPage: nat,
                           protect: bv4)
    requires InStep(geo, h, w) && geo.Shift() <= first && last < |h.host|
    requires Protectable(h.table, page, endPage)
    requires forall i :: first <= i <= last ==> page <= GuestPage(geo, i) <= endPage
    ensures var (h', w', r) := ProtectedView(geo, h, w, first, last, page, endPage, protect, true, true);
            && r == Success
            && (InStep(geo, h', w') <==>
                  (ToPageAccess(protect) == ReadWrite ==>
                   !WatchedBeyond(geo, h, w, page, endPage + 1 - page, first, last)))
  {
    var (h', w', r) := ProtectedView(geo, h, w, first, last, page, endPage, protect, true, true);
    var count := endPage + 1 - page;
    forall i | geo.Shift() <= i < |h'.host|
      ensures PageInStep(geo, h', w', i) <==>
                !(ToPageAccess(protect) == ReadWrite && w[i] && page <= GuestPage(geo, i) < page + count
                  && !(first <= i <= last))
    {
      assert PageInStep(geo, h, w, i);
      HostCoverAt(geo, h, page, count, ToPageAccess(protect), i);
      assert protect & PROTECT_WRITE == 0 ==> ToPageAccess(protect) != ReadWrite;
    }
    if ToPageAccess(protect) == ReadWrite && WatchedBeyond(geo, h, w, page, count, first, last) {
      var i :| geo.Shift() <= i < |h.host| && w[i] && page <= GuestPage(geo, i) < page + count && !(first <= i <= last);
      assert w'[i] && !PageInStep(geo, h', w', i);
    }
  }

  /** When the request is refused after all, the bits are gone already but the host pages are still
      read-only: the view is out of step exactly when a page of the range was being watched on
      behalf of a guest that may write it. */
  lemma RefusedProtectExactly(geo: Geometry, h: Heap, w: Bits, first: nat, last: nat, page: nat, endPage: nat,
                              protect: bv4, parentOk: bool, hostOk: bool)
    requires InStep(geo, h, w) && geo.Shift() <= first && last < |h.host|
    requires !parentOk || !hostOk || !Protectable(h.table, page, endPage)
    ensures var (h', w', r) := ProtectedView(geo, h, w, first, last, page, endPage, protect, parentOk, hostOk);
            && r == Failure && h' == h
            && (InStep(geo, h', w') <==>
                  !(protect & PROTECT_WRITE != 0 && WatchedWriter(geo, h, w, first, last)))
  {
    var (h', w', r) := ProtectedView(geo, h, w, first, last, page, endPage, protect, parentOk, hostOk);
    forall i | geo.Shift() <= i < |h'.host|
      ensures PageInStep(geo, h', w', i)
              <==> !(protect & PROTECT_WRITE != 0 && first <= i <= last && IsWatchedWriter(geo, h, w, i))
    {
      assert PageInStep(geo, h, w, i);
    }
    if protect & PROTECT_WRITE != 0 && WatchedWriter(geo, h, w, first, last) {
      var i :| first <= i <= last && IsWatchedWriter(geo, h, w, i);
      assert !w'[i] && !PageInStep(geo, h', w', i);
    }
  }

  ghost predicate IsWatchedWriter(geo: Geometry, h: Heap, w: Bits, i: nat)
    requires Shape(geo, h, w) && geo.Shift() <= i < |h.host|
  {
    w[i] && h.table[GuestPage(geo, i)].state & COMMIT != 0 && GuestAccess(geo, h.table, i) == ReadWrite
  }

  ghost predicate WatchedWriter(geo: Geometry, h: Heap, w: Bits, first: nat, last: nat)
    requires Shape(geo, h, w) && geo.Shift() <= first && last < |h.host|
  {
    exists i :: first <= i <= last && IsWatchedWriter(geo, h, w, i)
  }

  /** Placement keeps step exactly when it does not commit, for writing, a page that is still being
      watched: the host page becomes writable and its bit stays. */
  lemma AllocViewExactly(geo: Geometry, h: Heap, w: Bits, page: nat, count: nat, alloc: bv2, protect: bv4, hostOk: bool)
    requires HeapRuns.Inv(h) && InStep(geo, h, w) && count > 0 && alloc != 0
    ensures var (h', r) := AllocPages(geo, h, page, count, alloc, protect, hostOk);
            r == Success ==>
              (InStep(geo, h', w) <==>
                 !(FixedAllocType(h.table, page, count, alloc) & COMMIT != 0 && ToPageAccess(protect) == ReadWrite
                   && exists i :: geo.Shift() <= i < |h.host| && w[i] && page <= GuestPage(geo, i) < page + count))
  {
    var (h', r) := AllocPages(geo, h, page, count, alloc, protect, hostOk);
    if r == Success {
      var alloc' := FixedAllocType(h.table, page, count, alloc);
      forall i | geo.Shift() <= i < |h'.host|
        ensures PageInStep(geo, h', w, i) <==>
                  !(alloc' & COMMIT != 0 && ToPageAccess(protect) == ReadWrite && w[i]
                    && page <= GuestPage(geo, i) < page + count)
      {
        assert PageInStep(geo, h, w, i);
        HostCoverAt(geo, h, page, count, ToPageAccess(protect), i);
        AllocTypes(alloc');
      }
      if alloc' & COMMIT != 0 && ToPageAccess(protect) == ReadWrite
         && exists i :: geo.Shift() <= i < |h.host| && w[i] && page <= GuestPage(geo, i) < page + count {
        var i :| geo.Shift() <= i < |h.host| && w[i] && page <= GuestPage(geo, i) < page + count;
        assert !PageInStep(geo, h', w, i);
      }
    }
  }

  lemma AllocTypes(alloc: bv2)
    ensures alloc & COMMIT == 0 ==> (RESERVE | alloc) & COMMIT == 0
    ensures alloc & COMMIT != 0 ==> (RESERVE | alloc) & COMMIT != 0
    ensures RESERVE | alloc != 0
    ensures alloc == RESERVE ==> alloc & COMMIT == 0
    ensures alloc != 0 && alloc & COMMIT == 0 ==> alloc == RESERVE
  {
  }
}
