/** `PhysicalHeap` (src/xenia/memory.cc:1483-2024): a view of physical memory with a table of its own
    over the shared parent heap, and a word array of write-watch bits. */
module PhysicalMemory {
  import opened Arith
  import opened PageTable
  import opened HeapSpec
  import opened UnwatchRange
  import opened Words
  import opened WriteWatch
  import opened GuestHeap
  import opened WatchBytes
  import HeapBytes
  import HeapRuns

  /** `heaps_.physical` */
  const PARENT_GEOMETRY := Geometry(0, 0x2000_0000, 0x1000, 0)

  /** `GetPhysicalAddress` */
  function Physical(geo: Geometry, address: u32): u32
    requires geo.base < U32
  {
    (Sub32(address, geo.base) + PhysicalOffset(geo)) % U32
  }

  /** The address in the view that `PhysicalHeap` pins for an address of the parent. */
  function ViewAddress(geo: Geometry, parentAddress: u32): u32
    requires geo.base < U32
  {
    (geo.base + Sub32(parentAddress, PhysicalOffset(geo))) % U32
  }

  /** `TriggerCallbacks` on a byte range of the view. */
  ghost function TriggeredAt(geo: Geometry, h: Heap, w: Bits, address: u32, length: u32, exact: bool, unprotect: bool,
                             answers: seq<Answer>): (Heap, Bits, bool)
    requires Shape(geo, h, w) && ViewGeometry(geo) && SystemPageCount(geo) == |h.host|
  {
    match ClipTo(geo.base, geo.size, address, length)
    case Outside => (h, w, false)
    case Inside(rel, n) =>
      WidenedContains(geo, rel, n, answers);
      var r := HostPages(geo, rel, n);
      var (from, to) := if unprotect && !exact then Widened(geo, r, answers) else (r.first, r.last);
      Triggered(geo, h, w, r.first, r.last, from, to, unprotect)
  }

  /** `EnableAccessCallbacks` on a physical byte range. */
  ghost function EnabledAt(geo: Geometry, h: Heap, w: Bits, address: u32, length: u32): (Heap, Bits)
    requires Shape(geo, h, w) && ViewGeometry(geo) && SystemPageCount(geo) == |h.host|
  {
    match ClipTo(PhysicalOffset(geo), geo.size, address, length)
    case Outside => (h, w)
    case Inside(rel, n) =>
      HostPagesInHeap(geo, rel, n);
      Enabled(geo, h, w, HostPages(geo, rel, n).first, HostPages(geo, rel, n).last)
  }

  lemma TriggeredInBytes(geo: Geometry, h: Heap, w: Bits, address: u32, length: u32, exact: bool, unprotect: bool,
                         answers: seq<Answer>)
    requires Shape(geo, h, w) && ViewGeometry(geo) && SystemPageCount(geo) == |h.host|
    ensures var t := TriggeredAt(geo, h, w, address, length, exact, unprotect, answers);
            IsTriggered(geo, h, w, t.0, t.1, t.2, address, length, exact, unprotect, answers)
  {
    hide Widened, HostPages, SystemPageCount, Triggered, IsTriggered, Mapped, ClipTo;
    match ClipTo(geo.base, geo.size, address, length)
    case Outside => NothingTriggered(geo, h, w, address, length, exact, unprotect, answers);
    case Inside(rel, n) =>
      WidenedContains(geo, rel, n, answers);
      var r := HostPages(geo, rel, n);
      var (from, to) := if unprotect && !exact then Widened(geo, r, answers) else (r.first, r.last);
      TriggerInBytes(geo, h, w, address, length, exact, unprotect, answers, from, to);
  }

  lemma TakenInBytes(geo: Geometry, h: Heap, w: Bits, address: u32, length: u32, unprotect: bool)
    requires Shape(geo, h, w) && ViewGeometry(geo) && SystemPageCount(geo) == |h.host|
    ensures BitsTaken(geo, w, TriggeredAt(geo, h, w, address, length, true, unprotect, []).1, |h.host|, address, length)
  {
    hide SystemPageCount, TriggeredAt, IsTriggered, Mapped;
    TriggeredInBytes(geo, h, w, address, length, true, unprotect, []);
    var t := TriggeredAt(geo, h, w, address, length, true, unprotect, []);
    ExactlyTaken(geo, h, w, t.0, t.1, t.2, address, length, unprotect);
  }

  lemma NothingTriggered(geo: Geometry, h: Heap, w: Bits, address: u32, length: u32, exact: bool, unprotect: bool,
                         answers: seq<Answer>)
    requires Shape(geo, h, w) && ViewGeometry(geo) && SystemPageCount(geo) == |h.host|
    requires ClipTo(geo.base, geo.size, address, length).Outside?
    ensures IsTriggered(geo, h, w, h, w, false, address, length, exact, unprotect, answers)
  {
    hide Requested, ClipTo, SystemPageCount, Mapped;
    forall i | geo.Shift() <= i < |h.host|
      ensures !Requested(geo, geo.base, address, length, i)
    {
      RequestedExactly(geo, geo.base, address, length, i);
    }
  }

  lemma EnabledInBytes(geo: Geometry, h: Heap, w: Bits, address: u32, length: u32)
    requires Shape(geo, h, w) && ViewGeometry(geo) && SystemPageCount(geo) == |h.host|
    ensures var e := EnabledAt(geo, h, w, address, length); IsEnabled(geo, h, w, e.0, e.1, address, length)
  {
    hide HostPages, SystemPageCount, Enabled, IsEnabled, Mapped, ClipTo;
    EnableInBytes(geo, h, w, address, length);
    assert PhysicalOffset(geo) == FirstPhysical(geo);
  }

  /** The pages of a range that `EnableAccessCallbacks` starts to watch. */
  ghost function PagesToWatch(geo: Geometry, t: Table, w: Bits, hostPages: nat, first: nat, last: nat): seq<bool>
    requires Mapped(geo, |t|, hostPages) && hostPages <= |w| && geo.Shift() <= first
  {
    seq(hostPages, j requires 0 <= j < hostPages => first <= j <= last && Watchable(geo, t, w, j))
  }

  /** The pages of a range that `TriggerCallbacks` makes writable again. */
  ghost function PagesToRewrite(geo: Geometry, t: Table, w: Bits, hostPages: nat, first: nat, last: nat): seq<bool>
    requires Mapped(geo, |t|, hostPages) && hostPages <= |w| && geo.Shift() <= first
  {
    seq(hostPages, j requires 0 <= j < hostPages => first <= j <= last && w[j] && GuestAccess(geo, t, j) == ReadWrite)
  }

  // ---- what the view and the parent do together ---------------------------------------------

  /** Sizes whose rounding does not wrap, and an alignment that is a power of two once it is rounded
      to pages of the view. */
  predicate ViewRequest(geo: Geometry, size: u32, alignment: u32)
    requires geo.Valid()
  {
    && size <= U32 - geo.pageSize && RoundUp(size, geo.pageSize) <= U32 - SYSTEM_PAGE
    && alignment <= U32 - geo.pageSize && RoundUp(alignment, geo.pageSize) > 0
    && GoodAlignment(geo, RoundUp(alignment, geo.pageSize))
    && GoodAlignment(PARENT_GEOMETRY, RoundUp(alignment, geo.pageSize))
  }

  /** The range of the parent that a view searches. */
  function ViewScan(geo: Geometry, low: u32, high: u32, alignment: u32): (s: Scan)
    requires geo.Valid() && alignment <= U32 - geo.pageSize && RoundUp(alignment, geo.pageSize) > 0
    requires GoodAlignment(PARENT_GEOMETRY, RoundUp(alignment, geo.pageSize))
    ensures s.stride > 0
  {
    ScanRange(PARENT_GEOMETRY, Physical(geo, Max(geo.base, low)), Physical(geo, Min(geo.base + (geo.size - 1), high)),
      RoundUp(alignment, geo.pageSize))
  }

  /** Pins, in the view, what was placed at `parentAddress` in the parent. */
  ghost function Pinned(geo: Geometry, own: Heap, parentAddress: u32, size: u32, alignment: u32, alloc: bv2,
                        protect: bv4, hostOk: bool): (Heap, Outcome)
    requires geo.Valid() && own.Fits(geo) && ViewRequest(geo, size, alignment)
  {
    AllocPages(geo, own, geo.PageOf(ViewAddress(geo, parentAddress)),
      FixedPageCount(geo, RoundUp(size, geo.pageSize), RoundUp(alignment, geo.pageSize)), alloc, protect, hostOk)
  }

  /** `PhysicalHeap::AllocRange`: parent, view, outcome and address. When the view refuses, what the
      parent gave stays taken. */
  ghost function ViewAllocRange(geo: Geometry, parent: Heap, own: Heap, low: u32, high: u32, size: u32, alignment: u32,
                                alloc: bv2, protect: bv4, topDown: bool, parentOk: bool,
                                hostOk: bool): (Heap, Heap, Outcome, nat)
    requires geo.Valid() && own.Fits(geo) && parent.Fits(PARENT_GEOMETRY) && ViewRequest(geo, size, alignment)
  {
    ParentStartsAligned(geo, low, high, size, alignment, topDown);
    var (p, pr, pa) := AllocSearched(PARENT_GEOMETRY, parent, ViewScan(geo, low, high, alignment),
                                     PageCount(RoundUp(size, geo.pageSize), SYSTEM_PAGE), alloc, protect, topDown,
                                       parentOk);
    if pr != Success then (p, own, pr, 0)
    else
      var (o, r) := Pinned(geo, own, pa % U32, size, alignment, alloc, protect, hostOk);
      (p, o, r, if r == Success then ViewAddress(geo, pa % U32) else 0)
  }

  /** `PhysicalHeap::AllocFixed` */
  ghost function ViewAllocFixed(geo: Geometry, parent: Heap, own: Heap, base: u32, size: u32, alignment: u32,
                                alloc: bv2, protect: bv4, parentOk: bool, hostOk: bool): (Heap, Heap, Outcome)
    requires geo.Valid() && own.Fits(geo) && parent.Fits(PARENT_GEOMETRY) && ViewRequest(geo, size, alignment)
  {
    var (p, pr) := AllocPages(PARENT_GEOMETRY, parent, PARENT_GEOMETRY.PageOf(Physical(geo, base)),
                              FixedPageCount(PARENT_GEOMETRY, RoundUp(size, geo.pageSize),
                                             RoundUp(alignment, geo.pageSize)),
                              alloc, protect, parentOk);
    if pr != Success then (p, own, pr)
    else
      var (o, r) := Pinned(geo, own, Physical(geo, base), size, alignment, alloc, protect, hostOk);
      (p, o, r)
  }

  /** `PhysicalHeap::Release`: parent, view, bits and outcome. */
  ghost function ViewRelease(geo: Geometry, parent: Heap, own: Heap, w: Bits, base: u32,
                             protectOnRelease: bool): (Heap, Heap, Bits, Outcome)
    requires Shape(geo, own, w) && ViewGeometry(geo) && SystemPageCount(geo) == |own.host|
             && parent.Fits(PARENT_GEOMETRY)
    requires PARENT_GEOMETRY.PageOf(Physical(geo, base)) < |parent.table| && geo.PageOf(base) < |own.table|
  {
    var (p, pr) := ReleasePages(PARENT_GEOMETRY, parent, PARENT_GEOMETRY.PageOf(Physical(geo, base)), protectOnRelease);
    if pr != Success then (p, own, w, pr)
    else
      var page := geo.PageOf(base);
      var t := TriggeredAt(geo, own, w, base, own.table[page].regionPageCount * geo.pageSize % U32, true, true, []);
      var (o, r) := ReleasePages(geo, t.0, page, protectOnRelease);
      (p, o, t.1, r)
  }

  /** `PhysicalHeap::Decommit`: parent, view and bits. */
  ghost function ViewDecommit(geo: Geometry, parent: Heap, own: Heap, w: Bits, address: u32,
                              size: u32): (Heap, Heap, Bits)
    requires Shape(geo, own, w) && ViewGeometry(geo) && SystemPageCount(geo) == |own.host|
    requires 0 < |parent.table| && 0 < |own.table|
  {
    var t := TriggeredAt(geo, own, w, address, size, true, true, []);
    (DecommitPages(parent, PARENT_GEOMETRY.PageOf(Physical(geo, address)), PageCount(size, SYSTEM_PAGE)),
     DecommitPages(t.0, geo.PageOf(address), PageCount(size, geo.pageSize)), t.1)
  }

  /** `PhysicalHeap::Protect`: parent, view, bits and outcome. The bits go before either heap has agreed
      to the change. */
  ghost function ViewProtect(geo: Geometry, parent: Heap, own: Heap, w: Bits, address: u32, size: u32, protect: bv4,
                             parentOk: bool, hostOk: bool): (Heap, Heap, Bits, Outcome)
    requires Shape(geo, own, w) && ViewGeometry(geo) && SystemPageCount(geo) == |own.host|
    requires parent.Fits(PARENT_GEOMETRY) && own.Fits(geo)
  {
    var w' := if protect & PROTECT_WRITE != 0 then TriggeredAt(geo, own, w, address, size, true, false, []).1 else w;
    var (p, pr) := ProtectBytes(PARENT_GEOMETRY, parent, Physical(geo, address), size, protect, parentOk);
    if pr != Success then (parent, own, w', Failure)
    else
      var (o, r) := ProtectBytes(geo, own, address, size, protect, hostOk);
      (p, o, w', r)
  }

  /** For bytes of the view it does to the view what `WriteWatch.ProtectedView` says in pages. */
  lemma ProtectByPages(geo: Geometry, parent: Heap, own: Heap, w: Bits, address: u32, size: u32, protect: bv4,
                       parentOk: bool, hostOk: bool)
    requires Shape(geo, own, w) && ViewGeometry(geo) && SystemPageCount(geo) == |own.host|
    requires parent.Fits(PARENT_GEOMETRY) && own.Fits(geo)
    requires ClipTo(geo.base, geo.size, address, size).Inside? && geo.PageOf(address) < |own.table|
    ensures var c := ClipTo(geo.base, geo.size, address, size);
            var pages := HostPages(geo, c.rel, c.length);
            var (page, endPage) := ProtectRange(geo, address, size);
            var agreed :=
              ProtectBytes(PARENT_GEOMETRY, parent, Physical(geo, address), size, protect, parentOk).1 == Success;
            var v := ViewProtect(geo, parent, own, w, address, size, protect, parentOk, hostOk);
            && geo.Shift() <= pages.first && pages.last < |own.host|
            && (v.1, v.2, v.3) == ProtectedView(geo, own, w, pages.first, pages.last, page, endPage, protect, agreed,
                                                hostOk)
  {
    var c := ClipTo(geo.base, geo.size, address, size);
    HostPagesInHeap(geo, c.rel, c.length);
  }

  /** Every upward scan of the parent starts aligned, because the parent starts at address 0. */
  lemma ParentStartsAligned(geo: Geometry, low: u32, high: u32, size: u32, alignment: u32, topDown: bool)
    requires geo.Valid() && ViewRequest(geo, size, alignment)
    ensures PageCount(RoundUp(size, geo.pageSize), SYSTEM_PAGE) > 0
    ensures StartsAligned(ViewScan(geo, low, high, alignment), PageCount(RoundUp(size, geo.pageSize), SYSTEM_PAGE),
                          topDown)
  {
    PageCountCoversExactly(RoundUp(size, geo.pageSize), SYSTEM_PAGE);
    DivModUnique(0, RoundUp(RoundUp(alignment, geo.pageSize), SYSTEM_PAGE), 0, 0);
    AlignedBaseStartsAligned(PARENT_GEOMETRY, Physical(geo, Max(geo.base, low)),
                             Physical(geo, Min(geo.base + (geo.size - 1), high)),
      RoundUp(alignment, geo.pageSize), PageCount(RoundUp(size, geo.pageSize), SYSTEM_PAGE), topDown);
  }

  lemma HostPagesOfView(geo: Geometry, h: Heap, w: Bits)
    requires geo.Valid() && h.Fits(geo) && 0 < |h.table|
    requires |w| >= SystemPageCount(geo)
    ensures SystemPageCount(geo) == |h.host| && Shape(geo, h, w)
  {
    hide SystemPageCount, GuestPage, Quotient;
    HostPageCount(geo);
    ScaleFacts(geo);
    forall i | geo.Shift() <= i < |h.host|
      ensures GuestPage(geo, i) < |h.table|
    {
      GuestPageIsQuotient(geo, i);
      QuotientRange(i - geo.Shift(), geo.Scale(), 0, geo.Pages());
    }
  }

  lemma SameShape(geo: Geometry, h: Heap, h': Heap, w: Bits)
    requires Shape(geo, h, w) && |h'.table| == |h.table| && |h'.host| == |h.host|
    ensures Shape(geo, h', w)
  {
  }

  lemma HostPageCount(geo: Geometry)
    requires geo.Valid()
    ensures SystemPageCount(geo) == geo.Pages() * geo.Scale() + geo.Shift()
  {
    ScaleFacts(geo);
    var n := geo.Pages();
    QuotientIsDivision(geo.size, geo.pageSize);
    assert geo.size == n * geo.pageSize;
    assert geo.size == (n * geo.Scale()) * SYSTEM_PAGE;
    DivModUnique(geo.size + geo.hostOffset + (SYSTEM_PAGE - 1), SYSTEM_PAGE, n * geo.Scale() + geo.Shift(),
                 SYSTEM_PAGE - 1);
  }

  class PhysicalHeap {
    const own: BaseHeap
    const parent: BaseHeap
    const systemPageCount: nat
    var flags: WordArray

    ghost function Bits(): Bits
      reads this
    {
      BitsOf(flags)
    }

    ghost predicate Valid()
      reads this, own, parent
    {
      && own != parent && own.Valid() && parent.Valid() && parent.geo == PARENT_GEOMETRY
      && ViewGeometry(own.geo) && AreWords(flags)
      && systemPageCount == |own.host| && systemPageCount == SystemPageCount(own.geo)
      && Shape(own.geo, own.State(), Bits())
    }

    /** `PhysicalHeap::Initialize`: nothing is watched. */
    constructor (own: BaseHeap, parent: BaseHeap)
      requires own != parent && own.Valid() && parent.Valid() && parent.geo == PARENT_GEOMETRY && ViewGeometry(own.geo)
      ensures this.own == own && this.parent == parent && Valid()
      ensures forall i :: 0 <= i < |Bits()| ==> !Bits()[i]
    {
      this.own, this.parent := own, parent;
      var count := SystemPageCount(own.geo);
      systemPageCount := count;
      flags := seq((count + (WIDTH - 1)) / WIDTH, _ => 0);
      new;
      Pow2Positive(WIDTH);
      forall k: nat
        ensures !Bit(0, k)
      {
        ZeroBit(0, k);
      }
      HostPagesOfView(own.geo, own.State(), Bits());
    }

    /** The part of `Valid` that the page loops rely on. */
    ghost predicate Ready()
      reads this, own
    {
      AreWords(flags) && |own.host| <= WIDTH * |flags| && Mapped(own.geo, |own.pageTable|, |own.host|)
    }

    /** `EnableAccessCallbacksInner` */
    method EnableAccessCallbacksInner(first: nat, last: nat)
      requires Valid() && own.geo.Shift() <= first <= last < systemPageCount
      modifies this`flags, own`host
      ensures Valid()
      ensures (own.State(), Bits()) == Enabled(own.geo, old(own.State()), old(Bits()), first, last)
    {
      ghost var after := Enabled(own.geo, own.State(), Bits(), first, last);
      EnableRuns(first, last);
      assert own.host == after.0.host;
      assert Bits() == after.1;
    }

    /** One page of its loop: decides whether to protect the page and sets its bit if so. */
    method TryWatch(i: nat) returns (protectPage: bool)
      requires Ready() && own.geo.Shift() <= i < |own.host|
      modifies this`flags
      ensures AreWords(flags) && |flags| == |old(flags)|
      ensures protectPage <==> Watchable(own.geo, own.pageTable, old(Bits()), i)
      ensures Bits() == if protectPage then old(Bits())[i := true] else old(Bits())
    {
      var access := ToPageAccess(own.pageTable[GuestPage(own.geo, i)].currentProtect);
      protectPage := false;
      TestBit(flags[i / WIDTH], WIDTH, i % WIDTH);
      assert Bits()[i] == Bit(flags[i / WIDTH], i % WIDTH);
      if access != NoAccess {
        if access != ReadOnly && And(flags[i / WIDTH], Pow2(i % WIDTH)) == 0 {
          protectPage := true;
          SetBitAt(flags, i);
          flags := flags[i / WIDTH := Or(flags[i / WIDTH], Pow2(i % WIDTH))];
        }
      }
    }

    /** The same, in terms of the bits that the whole loop sets. */
    method WatchStep(i: nat, ghost w: Bits, ghost now: seq<bool>) returns (protectPage: bool)
      requires Ready() && own.geo.Shift() <= i < |own.host| && |w| == |Bits()| && |own.host| == |now|
      requires Bits() == Marked(w, now, i) && now[i] == Watchable(own.geo, own.pageTable, w, i)
      modifies this`flags
      ensures Ready() && |flags| == |old(flags)|
      ensures protectPage == now[i] && Bits() == Marked(w, now, i + 1)
    {
      MarkStep(w, now, i);
      protectPage := TryWatch(i);
    }

    /** Its loop: whole runs of pages are protected at a time. */
    method EnableRuns(first: nat, last: nat)
      requires Ready() && own.geo.Shift() <= first <= last < |own.host|
      modifies this`flags, own`host
      ensures AreWords(flags) && |flags| == |old(flags)| && |own.host| == |old(own.host)|
      ensures var now := PagesToWatch(own.geo, own.pageTable, old(Bits()), |old(own.host)|, first, last);
              Bits() == Marked(old(Bits()), now, last + 1)
                && own.host == Flushed(old(own.host), now, last + 1, ReadOnly)
    {
      hide Watchable, Mapped, BitsOf, AreWords, HostSet;
      ghost var w, host := Bits(), own.host;
      ghost var now := PagesToWatch(own.geo, own.pageTable, w, |host|, first, last);
      assert Marked(w, now, first) == w && Flushed(host, now, first, ReadOnly) == host;
      var pending: int := -1;
      var i := first;
      while i <= last
        invariant first <= i <= last + 1 && Ready() && |flags| == |old(flags)| && |own.host| == |host|
        invariant Bits() == Marked(w, now, i)
        invariant pending == -1 || first <= pending < i
        invariant pending != -1 ==> forall j :: pending <= j < i ==> now[j]
        invariant own.host == Flushed(host, now, if pending == -1 then i else pending, ReadOnly)
      {
        var protectPage := WatchStep(i, w, now);
        if protectPage {
          if pending == -1 {
            pending := i;
          }
        } else {
          if pending != -1 {
            FlushRun(host, now, pending, i, ReadOnly);
            own.host := HostSet(own.host, pending, i, ReadOnly);
            pending := -1;
          }
          FlushNothing(host, now, i, ReadOnly);
        }
        i := i + 1;
      }
      if pending != -1 {
        FlushRun(host, now, pending, last + 1, ReadOnly);
        own.host := HostSet(own.host, pending, last + 1, ReadOnly);
      }
    }

    /** `EnableAccessCallbacks` for invalidation notifications, on physical addresses. */
    method EnableAccessCallbacks(physicalAddress: u32, length: u32, enable: bool)
      requires Valid()
      modifies this`flags, own`host
      ensures Valid()
      ensures (own.State(), Bits()) ==
              if enable then EnabledAt(own.geo, old(own.State()), old(Bits()), physicalAddress, length)
              else (old(own.State()), old(Bits()))
      ensures enable ==>
              IsEnabled(own.geo, old(own.State()), old(Bits()), own.State(), Bits(), physicalAddress, length)
    {
      EnabledInBytes(own.geo, own.State(), Bits(), physicalAddress, length);
      if !enable {
        return;
      }
      match ClipTo(PhysicalOffset(own.geo), own.geo.size, physicalAddress, length)
      case Outside =>
      case Inside(rel, n) =>
        HostPagesInHeap(own.geo, rel, n);
        var r := HostPages(own.geo, rel, n);
        EnableAccessCallbacksInner(r.first, r.last);
    }

    /** The first loop of `TriggerCallbacks`: tests whole blocks, cut to the range at both ends. */
    method HasWatched(first: nat, last: nat) returns (any: bool)
      requires Valid() && first <= last < systemPageCount
      ensures any <==> AnyWatched(Bits(), first, last)
    {
      var blockFirst, blockLast := first / WIDTH, last / WIDTH;
      var i := blockFirst;
      while i <= blockLast
        invariant blockFirst <= i <= blockLast + 1
        invariant forall j :: first <= j <= last && j < i * WIDTH ==> !Bits()[j]
      {
        var block := TestBlock(flags[i], i == blockFirst, first % WIDTH, i == blockLast, last % WIDTH);
        BlockTested(i, first, last);
        if block != 0 {
          return true;
        }
        i := i + 1;
      }
      return false;
    }

    /** A cut block is zero exactly when no bit of the range is set in it. */
    lemma BlockTested(i: nat, first: nat, last: nat)
      requires Valid() && first <= last < systemPageCount && first / WIDTH <= i <= last / WIDTH
      ensures i < |flags|
      ensures TestBlock(flags[i], i == first / WIDTH, first % WIDTH, i == last / WIDTH, last % WIDTH) == 0
              <==> forall j :: first <= j <= last && i * WIDTH <= j < (i + 1) * WIDTH ==> !Bits()[j]
    {
      var block := TestBlock(flags[i], i == first / WIDTH, first % WIDTH, i == last / WIDTH, last % WIDTH);
      TestBlockBit(flags[i], i == first / WIDTH, first % WIDTH, i == last / WIDTH, last % WIDTH, 0);
      ZeroHasNoBits(block, WIDTH);
      forall k | 0 <= k < WIDTH
        ensures Bit(block, k) <==> first <= i * WIDTH + k <= last && Bits()[i * WIDTH + k]
      {
        TestBlockBit(flags[i], i == first / WIDTH, first % WIDTH, i == last / WIDTH, last % WIDTH, k);
        assert (i * WIDTH + k) / WIDTH == i && (i * WIDTH + k) % WIDTH == k;
      }
      if forall j :: first <= j <= last && i * WIDTH <= j < (i + 1) * WIDTH ==> !Bits()[j] {
        forall k | 0 <= k < WIDTH
          ensures !Bit(block, k)
        {
        }
      } else {
        var j :| first <= j <= last && i * WIDTH <= j < (i + 1) * WIDTH && Bits()[j];
        assert Bit(block, j - i * WIDTH);
      }
    }

    /** One page of the unprotect loop of `TriggerCallbacks`. */
    method MayRewrite(i: nat) returns (unprotectPage: bool)
      requires Ready() && own.geo.Shift() <= i < |own.host|
      ensures unprotectPage <==> Bits()[i] && GuestAccess(own.geo, own.pageTable, i) == ReadWrite
    {
      TestBit(flags[i / WIDTH], WIDTH, i % WIDTH);
      unprotectPage := And(flags[i / WIDTH], Pow2(i % WIDTH)) != 0;
      assert unprotectPage <==> Bits()[i];
      if unprotectPage {
        if ToPageAccess(own.pageTable[GuestPage(own.geo, i)].currentProtect) != ReadWrite {
          unprotectPage := false;
        }
      }
    }

    /** The unprotect loop of `TriggerCallbacks`, which also works on whole runs of pages. */
    method UnprotectRuns(first: nat, last: nat)
      requires Ready() && own.geo.Shift() <= first <= last < |own.host|
      modifies own`host
      ensures var now := PagesToRewrite(own.geo, own.pageTable, Bits(), |old(own.host)|, first, last);
              own.host == Flushed(old(own.host), now, last + 1, ReadWrite)
    {
      ghost var host := own.host;
      ghost var now := PagesToRewrite(own.geo, own.pageTable, Bits(), |host|, first, last);
      assert Flushed(host, now, first, ReadWrite) == host;
      var pending: int := -1;
      var i := first;
      while i <= last
        invariant first <= i <= last + 1 && Ready() && |own.host| == |host|
        invariant pending == -1 || first <= pending < i
        invariant pending != -1 ==> forall j :: pending <= j < i ==> now[j]
        invariant own.host == Flushed(host, now, if pending == -1 then i else pending, ReadWrite)
      {
        var unprotectPage := MayRewrite(i);
        assert unprotectPage == now[i];
        if unprotectPage {
          if pending == -1 {
            pending := i;
          }
        } else {
          if pending != -1 {
            FlushRun(host, now, pending, i, ReadWrite);
            own.host := HostSet(own.host, pending, i, ReadWrite);
            pending := -1;
          }
          FlushNothing(host, now, i, ReadWrite);
        }
        i := i + 1;
      }
      if pending != -1 {
        FlushRun(host, now, pending, last + 1, ReadWrite);
        own.host := HostSet(own.host, pending, last + 1, ReadWrite);
      }
    }

    /** The last loop of `TriggerCallbacks`: masks whole blocks, keeping what lies outside the range. */
    method ClearWatched(first: nat, last: nat)
      requires AreWords(flags) && first <= last < WIDTH * |flags|
      modifies this`flags
      ensures AreWords(flags) && |flags| == |old(flags)|
      ensures Bits() == Cleared(old(Bits()), first, last)
    {
      ghost var w := Bits();
      var blockFirst, blockLast := first / WIDTH, last / WIDTH;
      var i := blockFirst;
      while i <= blockLast
        invariant blockFirst <= i <= blockLast + 1
        invariant AreWords(flags) && |flags| == |old(flags)|
        invariant forall j :: 0 <= j < |w| ==> Bits()[j] == (w[j] && !(j / WIDTH < i && first <= j <= last))
      {
        var mask := KeepMask(i == blockFirst, first % WIDTH, i == blockLast, last % WIDTH);
        forall j | 0 <= j < |w|
          ensures BitsOf(flags[i := And(flags[i], mask)])[j] == (Bits()[j] && !(j / WIDTH == i && first <= j <= last))
        {
          ClearBlockBit(flags, i, first, last, j);
        }
        AndBound(flags[i], mask);
        flags := flags[i := And(flags[i], mask)];
        i := i + 1;
      }
    }

    /** The callback loop of `TriggerCallbacks`. */
    method AskCallbacks(answers: seq<Answer>) returns (unwatchFirst: int, unwatchLast: int)
      ensures (unwatchFirst, unwatchLast) == Agreed(answers)
    {
      unwatchFirst, unwatchLast := 0, U32 - 1;
      var c := 0;
      while c < |answers|
        invariant 0 <= c <= |answers|
        invariant (unwatchFirst, unwatchLast) == Agreed(answers[..c])
      {
        unwatchFirst := Max(unwatchFirst, answers[c].0);
        unwatchLast := Min(unwatchLast, SatAdd(answers[c].0, Max(answers[c].1, 1) - 1));
        assert answers[..c + 1][..c] == answers[..c];
        c := c + 1;
      }
      assert answers[..c] == answers;
    }

    /** The clamping of the final range in `TriggerCallbacks`. */
    method UnwatchPages(r: PageRange, exact: bool, answers: seq<Answer>) returns (first: int, last: int)
      ensures (first, last) == if exact then (r.first, r.last) else Widened(own.geo, r, answers)
    {
      var (start, span) := PhysicalSpan(own.geo, r);
      var unwatchFirst, unwatchLast := AskCallbacks(answers);
      if exact {
        return r.first, r.last;
      }
      unwatchFirst := Min(unwatchFirst, start);
      unwatchLast := Max(unwatchLast, start + span - 1);
      unwatchFirst := Max(unwatchFirst, start - start % EXCESS);
      unwatchLast := Min(unwatchLast, (start + span - 1) - (start + span - 1) % EXCESS + (EXCESS - 1));
      unwatchFirst := Max(unwatchFirst - PhysicalOffset(own.geo), 0);
      unwatchLast := Max(unwatchLast - PhysicalOffset(own.geo), 0);
      unwatchFirst := Min(unwatchFirst, own.geo.size - 1) + own.geo.hostOffset;
      unwatchLast := Min(unwatchLast, own.geo.size - 1) + own.geo.hostOffset;
      return unwatchFirst / SYSTEM_PAGE, unwatchLast / SYSTEM_PAGE;
    }

    /** The page loops of `TriggerCallbacks`, for the requested pages [first, last] and the final
        range [from, to]. */
    method TriggerPages(first: nat, last: nat, from: nat, to: nat, unprotect: bool)
      requires Valid() && own.geo.Shift() <= from <= to < systemPageCount && AnyWatched(Bits(), first, last)
      modifies this`flags, own`host
      ensures Valid()
      ensures (own.State(), Bits(), true) == Triggered(own.geo, old(own.State()), old(Bits()), first, last, from, to,
                                                       unprotect)
    {
      ghost var after := Unprotected(own.geo, own.State(), Bits(), from, to);
      if unprotect {
        UnprotectRuns(from, to);
        assert own.host == after.host;
      }
      ClearWatched(from, to);
    }

    /** `TriggerCallbacks`; `answers` are what the registered callbacks return. */
    method TriggerCallbacks(address: u32, length: u32, isWrite: bool, exact: bool, unprotect: bool,
                            answers: seq<Answer>) returns (triggered: bool)
      requires Valid()
      modifies this`flags, own`host
      ensures Valid()
      ensures (own.State(), Bits(), triggered) ==
              if isWrite
                then TriggeredAt(own.geo, old(own.State()), old(Bits()), address, length, exact, unprotect, answers)
              else (old(own.State()), old(Bits()), false)
      ensures isWrite ==>
              IsTriggered(own.geo, old(own.State()), old(Bits()), own.State(), Bits(), triggered, address, length,
                          exact, unprotect, answers)
    {
      TriggeredInBytes(own.geo, own.State(), Bits(), address, length, exact, unprotect, answers);
      if !isWrite {
        return false;
      }
      match ClipTo(own.geo.base, own.geo.size, address, length)
      case Outside => triggered := false;
      case Inside(rel, n) =>
        HostPagesInHeap(own.geo, rel, n);
        WidenedContains(own.geo, rel, n, answers);
        var r := HostPages(own.geo, rel, n);
        triggered := HasWatched(r.first, r.last);
        if triggered {
          var from, to := UnwatchPages(r, exact || !unprotect, answers);
          TriggerPages(r.first, r.last, from, to, unprotect);
        }
    }

    /** `AllocRange` of the view, over the part of the parent that it maps. */
    method AllocRange(low: u32, high: u32, size: u32, alignment: u32, alloc: bv2, protect: bv4, topDown: bool,
                      parentOk: bool, hostOk: bool) returns (r: Outcome, address: nat)
      requires Valid() && ViewRequest(own.geo, size, alignment) && alloc != 0
      modifies own, parent
      ensures Valid() && Bits() == old(Bits())
      ensures (parent.State(), own.State(), r, address) ==
              ViewAllocRange(own.geo, old(parent.State()), old(own.State()), low, high, size, alignment, alloc,
                             protect, topDown, parentOk, hostOk)
    {
      hide RoundUp, Quotient, PageCount, AllocSearched, AllocPages, FixedPageCount, Physical, ViewAddress, ScanRange,
        Shape;
      var pageBytes, pageAlign := RoundUp(size, own.geo.pageSize), RoundUp(alignment, own.geo.pageSize);
      var parentLow := Physical(own.geo, Max(own.geo.base, low));
      var parentHigh := Physical(own.geo, Min(own.geo.base + (own.geo.size - 1), high));
      ParentStartsAligned(own.geo, low, high, size, alignment, topDown);
      var pr, pa := parent.AllocRange(parentLow, parentHigh, pageBytes, pageAlign, alloc, protect, topDown, parentOk);
      if pr != Success {
        return pr, 0;
      }
      address := ViewAddress(own.geo, pa % U32);
      r := own.AllocFixed(address, pageBytes, pageAlign, alloc, protect, hostOk);
      SameShape(own.geo, old(own.State()), own.State(), Bits());
      if r != Success {
        address := 0;
      }
    }

    /** `Alloc` searches the whole view and always from the top. */
    method Alloc(size: u32, alignment: u32, alloc: bv2, protect: bv4, parentOk: bool, hostOk: bool)
        returns (r: Outcome, address: nat)
      requires Valid() && ViewRequest(own.geo, size, alignment) && alloc != 0
      modifies own, parent
      ensures Valid() && Bits() == old(Bits())
      ensures (parent.State(), own.State(), r, address) ==
              ViewAllocRange(own.geo, old(parent.State()), old(own.State()), own.geo.base,
                             own.geo.base + own.geo.size - 1,
                             size, alignment, alloc, protect, true, parentOk, hostOk)
    {
      r, address :=
        AllocRange(own.geo.base, own.geo.base + own.geo.size - 1, size, alignment, alloc, protect, true, parentOk,
                   hostOk);
    }

    /** `AllocFixed` */
    method AllocFixed(base: u32, size: u32, alignment: u32, alloc: bv2, protect: bv4, parentOk: bool, hostOk: bool)
        returns (r: Outcome)
      requires Valid() && ViewRequest(own.geo, size, alignment) && alloc != 0
      modifies own, parent
      ensures Valid() && Bits() == old(Bits())
      ensures (parent.State(), own.State(), r) ==
              ViewAllocFixed(own.geo, old(parent.State()), old(own.State()), base, size, alignment, alloc, protect,
                             parentOk, hostOk)
    {
      var pageBytes, pageAlign := RoundUp(size, own.geo.pageSize), RoundUp(alignment, own.geo.pageSize);
      var parentBase := Physical(own.geo, base);
      var pr := parent.AllocFixed(parentBase, pageBytes, pageAlign, alloc, protect, parentOk);
      if pr != Success {
        return pr;
      }
      r := own.AllocFixed(ViewAddress(own.geo, parentBase), pageBytes, pageAlign, alloc, protect, hostOk);
    }

    /** `Release`: the parent first; then the bits of the region, then the region itself. */
    method Release(base: u32, protectOnRelease: bool) returns (r: Outcome)
      requires Valid() && HeapRuns.Inv(own.State()) && HeapRuns.Inv(parent.State())
      requires PARENT_GEOMETRY.PageOf(Physical(own.geo, base)) < |parent.pageTable|
               && own.geo.PageOf(base) < |own.pageTable|
      modifies this`flags, own, parent
      ensures Valid()
      ensures (parent.State(), own.State(), Bits(), r) ==
              ViewRelease(own.geo, old(parent.State()), old(own.State()), old(Bits()), base, protectOnRelease)
      ensures r == Success ==>
              BitsTaken(own.geo, old(Bits()), Bits(), |old(own.host)|, base,
                        old(own.pageTable)[own.geo.PageOf(base)].regionPageCount * own.geo.pageSize % 0x1_0000_0000)
    {
      var page := own.geo.PageOf(base);
      TakenInBytes(own.geo, own.State(), Bits(), base, own.pageTable[page].regionPageCount * own.geo.pageSize % U32,
                   true);
      assert PageOk(own.pageTable, page) && PageOk(parent.pageTable, PARENT_GEOMETRY.PageOf(Physical(own.geo, base)));
      var pr, _ := parent.Release(Physical(own.geo, base), protectOnRelease);
      if pr != Success {
        return pr;
      }
      var regionSize := own.pageTable[page].regionPageCount * own.geo.pageSize;
      var _ := TriggerCallbacks(base, regionSize % U32, true, true, true, []);
      assert PageOk(own.pageTable, page);
      var r', _ := own.Release(base, protectOnRelease);
      r := r';
    }

    /** `Decommit` */
    method Decommit(address: u32, size: u32)
      requires Valid()
      modifies this`flags, own, parent
      ensures Valid()
      ensures 0 < |old(parent.pageTable)| && 0 < |old(own.pageTable)|
      ensures (parent.State(), own.State(), Bits()) == ViewDecommit(own.geo, old(parent.State()), old(own.State()),
                                                                    old(Bits()), address, size)
      ensures HeapBytes.IsDecommitted(PARENT_GEOMETRY, old(parent.State()), parent.State(),
                                      Physical(own.geo, address), size)
      ensures HeapBytes.EntriesDecommitted(own.geo, old(own.pageTable), own.pageTable, address, size)
      ensures BitsTaken(own.geo, old(Bits()), Bits(), |old(own.host)|, address, size)
    {
      TakenInBytes(own.geo, own.State(), Bits(), address, size, true);
      parent.Decommit(Physical(own.geo, address), size);
      var _ := TriggerCallbacks(address, size, true, true, true, []);
      own.Decommit(address, size);
    }

    /** `Protect` */
    method Protect(address: u32, size: u32, protect: bv4, parentOk: bool, hostOk: bool) returns (r: Outcome)
      requires Valid()
      modifies this`flags, own, parent
      ensures Valid()
      ensures (parent.State(), own.State(), Bits(), r) ==
              ViewProtect(own.geo, old(parent.State()), old(own.State()), old(Bits()), address, size, protect,
                          parentOk, hostOk)
      ensures HeapBytes.IsProtected(own.geo, old(own.State()), own.State(), r, address, size, protect,
                                    hostOk && HeapBytes.Agrees(PARENT_GEOMETRY, old(parent.pageTable),
                                                               Physical(own.geo, address), size, parentOk))
      ensures if protect & 2 != 0 then BitsTaken(own.geo, old(Bits()), Bits(), |old(own.host)|, address, size)
              else Bits() == old(Bits())
      ensures r == Success ==>
              HeapBytes.IsProtected(PARENT_GEOMETRY, old(parent.State()), parent.State(), r, Physical(own.geo, address),
                                    size, protect, parentOk)
    {
      TakenInBytes(own.geo, own.State(), Bits(), address, size, false);
      if protect & PROTECT_WRITE != 0 {
        var _ := TriggerCallbacks(address, size, true, true, false, []);
      }
      var pr := parent.Protect(Physical(own.geo, address), size, protect, parentOk);
      if pr != Success {
        return Failure;
      }
      r := own.Protect(address, size, protect, hostOk);
    }
  }
}
