/** Watching and unwatching by bytes (src/xenia/memory.cc:1697-2014): which host pages a request means, and
    which pages around them are unwatched as well when the callbacks allow it. */
module WatchBytes {
  import opened Arith
  import opened PageTable
  import opened HeapSpec
  import opened UnwatchRange
  import opened WriteWatch
  import opened HostRuns

  /** Physical address of the first byte of a view. */
  function FirstPhysical(geo: Geometry): nat {
    if geo.base >= 0xE000_0000 then 0x1000 else 0
  }

  /** The bytes of host page `i`, counted from the first byte of the view. */
  function PageFirst(geo: Geometry, i: nat): int {
    4096 * i - geo.hostOffset
  }

  function PageLast(geo: Geometry, i: nat): int {
    4096 * i - geo.hostOffset + 4095
  }

  /** The view has bytes at `start` when it is counted from there; of the bytes [address, address + length)
      that lie in it, some lie in host page `i`. */
  predicate Requested(geo: Geometry, start: nat, address: nat, length: nat, i: nat) {
    var lo, hi := Max(address, start) - start, Min(address + length, start + geo.size) - start;
    lo < hi && PageFirst(geo, i) < hi && lo <= PageLast(geo, i)
  }

  /** The guest may write the memory behind host page `i`. */
  ghost predicate GuestWrites(geo: Geometry, t: Table, i: nat)
    requires geo.Valid() && geo.Shift() <= i && PageOver(geo, i) < |t|
  {
    var protect := t[PageOver(geo, i)].currentProtect;
    protect & 1 != 0 && protect & 2 != 0
  }

  // ---- the pages around a request -------------------------------------------------------------------

  const BLOCK: int := 0x40_0000

  /** Last byte of an answer; no bytes count as one, and the sum stays below 2^32. */
  function AnswerLast(a: Answer): int {
    Min(a.0 + Max(a.1, 1) - 1, 0xFFFF_FFFF)
  }

  /** Page `i` in front of the first requested page lies in the 4 MB block where the request begins, and does
      not end in front of any answer. */
  ghost predicate FrontUnwatched(geo: Geometry, first: nat, answers: seq<Answer>, i: nat) {
    var offset := FirstPhysical(geo);
    var start := PageFirst(geo, first) + offset;
    && i < first && start - start % BLOCK <= PageLast(geo, i) + offset
    && forall k :: 0 <= k < |answers| ==> answers[k].0 <= PageLast(geo, i) + offset
  }

  /** Page `i` behind the last requested page lies in the 4 MB block where the request ends, and does not
      begin behind any answer. */
  ghost predicate BackUnwatched(geo: Geometry, last: nat, answers: seq<Answer>, i: nat) {
    var offset := FirstPhysical(geo);
    var end := Min(PageLast(geo, last), geo.size - 1) + offset;
    && last < i && PageFirst(geo, i) + offset <= end - end % BLOCK + BLOCK - 1
    && forall k :: 0 <= k < |answers| ==> PageFirst(geo, i) + offset <= AnswerLast(answers[k])
  }

  lemma {:induction false} AgreedExactly(answers: seq<Answer>, x: int)
    requires 0 <= x < U32
    ensures Agreed(answers).0 <= x <==> forall k :: 0 <= k < |answers| ==> answers[k].0 <= x
    ensures x <= Agreed(answers).1 <==> forall k :: 0 <= k < |answers| ==> x <= AnswerLast(answers[k])
    decreases |answers|
  {
    if answers != [] {
      var most, last := answers[..|answers| - 1], answers[|answers| - 1];
      AgreedExactly(most, x);
      assert SatAdd(last.0, Max(last.1, 1) - 1) == AnswerLast(last);
      LastOrMost(answers, most, (a: Answer) => a.0 <= x);
      LastOrMost(answers, most, (a: Answer) => x <= AnswerLast(a));
    }
  }

  lemma LastOrMost(answers: seq<Answer>, most: seq<Answer>, p: Answer -> bool)
    requires answers != [] && most == answers[..|answers| - 1]
    ensures (forall k :: 0 <= k < |answers| ==> p(answers[k]))
            <==> p(answers[|answers| - 1]) && forall k :: 0 <= k < |most| ==> p(most[k])
  {
    assert forall k :: 0 <= k < |most| ==> most[k] == answers[k];
  }

  /** Exactly these pages, and the requested ones, lie in the final range. */
  lemma WidenedExactly(geo: Geometry, rel: nat, length: nat, answers: seq<Answer>, i: nat)
    requires ViewGeometry(geo) && 0 < length && rel + length <= geo.size && geo.Shift() <= i < SystemPageCount(geo)
    ensures var r := HostPages(geo, rel, length);
            var (from, to) := Widened(geo, r, answers);
            from <= i <= to
            <==> r.first <= i <= r.last
                 || FrontUnwatched(geo, r.first, answers, i)
                 || BackUnwatched(geo, r.last, answers, i)
  {
    var r := HostPages(geo, rel, length);
    HostPagesInHeap(geo, rel, length);
    WidenedContains(geo, rel, length, answers);
    if i < r.first {
      FrontExactly(geo, r, answers, i);
    } else if r.last < i {
      BackExactly(geo, r, answers, i);
    }
  }

  lemma FrontExactly(geo: Geometry, r: PageRange, answers: seq<Answer>, i: nat)
    requires ViewGeometry(geo) && geo.Shift() <= i < r.first <= r.last < SystemPageCount(geo)
    ensures Widened(geo, r, answers).0 <= i <==> FrontUnwatched(geo, r.first, answers, i)
  {
    hide Agreed, AnswerLast;
    var offset := FirstPhysical(geo);
    var (start, span) := PhysicalSpan(geo, r);
    var x, block := PageLast(geo, i) + offset, start - start % EXCESS;
    PageBounds(geo, i);
    PageBounds(geo, r.first);
    assert start == PageFirst(geo, r.first) + offset && 0 <= x < start < U32;
    AgreedExactly(answers, x);
    var first := Max(Min(Agreed(answers).0, start), block);
    assert block <= start && first <= start;
    var rel := Min(Max(first - offset, 0), geo.size - 1);
    FloorAtMost(rel + geo.hostOffset, i);
    assert rel <= PageLast(geo, i) <==> first <= x;
  }

  lemma PageBounds(geo: Geometry, i: nat)
    requires ViewGeometry(geo) && geo.Shift() <= i < SystemPageCount(geo)
    ensures 0 <= PageFirst(geo, i) < geo.size <= 0x4000_0000
    ensures PhysicalOffset(geo) == FirstPhysical(geo) <= 0x1000
  {
  }

  lemma FloorAtMost(v: nat, i: nat)
    ensures v / 4096 <= i <==> v <= 4096 * i + 4095
    ensures i <= v / 4096 <==> 4096 * i <= v
  {
  }

  lemma BackExactly(geo: Geometry, r: PageRange, answers: seq<Answer>, i: nat)
    requires ViewGeometry(geo) && geo.Shift() <= r.first <= r.last < i < SystemPageCount(geo)
    ensures i <= Widened(geo, r, answers).1 <==> BackUnwatched(geo, r.last, answers, i)
  {
    hide Agreed, AnswerLast;
    var offset := FirstPhysical(geo);
    var (start, span) := PhysicalSpan(geo, r);
    PageBounds(geo, i);
    PageBounds(geo, r.first);
    PageBounds(geo, r.last);
    var end, x := start + span - 1, PageFirst(geo, i) + offset;
    assert start == PageFirst(geo, r.first) + offset;
    assert end == Min(PageLast(geo, r.last), geo.size - 1) + offset && end < x;
    AgreedExactly(answers, x);
    var block := end - end % EXCESS + (EXCESS - 1);
    var last := Min(Max(Agreed(answers).1, end), block);
    var rel := Min(Max(last - offset, 0), geo.size - 1);
    FloorAtMost(rel + geo.hostOffset, i);
    assert PageFirst(geo, i) <= rel <==> x <= last;
  }

  /** The requested pages. */
  lemma RequestedExactly(geo: Geometry, start: nat, address: u32, length: u32, i: nat)
    requires ViewGeometry(geo) && geo.Shift() <= i < SystemPageCount(geo)
    ensures var c := ClipTo(start, geo.size, address, length);
            && (c.Outside? ==> !Requested(geo, start, address, length, i))
            && (c.Inside? ==>
                  var r := HostPages(geo, c.rel, c.length);
                  r.first <= i <= r.last <==> Requested(geo, start, address, length, i))
  {
  }

  // ---- what the calls do --------------------------------------------------------------------------

  /** The first and the last page of a request with bytes in the view. */
  function FirstPage(geo: Geometry, start: nat, address: nat): nat {
    (Max(address, start) - start + geo.hostOffset) / 4096
  }

  function LastPage(geo: Geometry, start: nat, address: nat, length: nat): nat
    requires start < Min(address + length, start + geo.size)
  {
    (Min(address + length, start + geo.size) - start - 1 + geo.hostOffset) / 4096
  }

  ghost predicate HasBytes(geo: Geometry, start: nat, address: nat, length: nat) {
    Max(address, start) < Min(address + length, start + geo.size)
  }

  /** The pages that are unwatched: the requested ones, and around them those that the callbacks allow unless
      the request is to be met exactly. */
  ghost predicate Unwatched(geo: Geometry, address: nat, length: nat, exact: bool, answers: seq<Answer>, i: nat) {
    && HasBytes(geo, geo.base, address, length)
    && (|| Requested(geo, geo.base, address, length, i)
        || (!exact && FrontUnwatched(geo, FirstPage(geo, geo.base, address), answers, i))
        || (!exact && BackUnwatched(geo, LastPage(geo, geo.base, address, length), answers, i)))
  }

  /** Nothing happens when no requested page is watched. Otherwise these pages, and no others, lose their bit,
      and those of them that were watched for a guest that may write become writable, if asked for. */
  ghost predicate IsTriggered(geo: Geometry, h: Heap, w: Bits, h': Heap, w': Bits, triggered: bool, address: nat,
                              length: nat, exact: bool, unprotect: bool, answers: seq<Answer>)
    requires Shape(geo, h, w)
  {
    && h'.table == h.table && h'.unreserved == h.unreserved && |h'.host| == |h.host| && |w'| == |w|
    && (triggered <==> exists i :: geo.Shift() <= i < |h.host| && w[i] && Requested(geo, geo.base, address, length, i))
    && (!triggered ==> h' == h && w' == w)
    && (triggered ==>
          && (forall i :: 0 <= i < |w| && !(geo.Shift() <= i < |h.host|) ==> w'[i] == w[i])
          && (forall i :: 0 <= i < |h.host| && i < geo.Shift() ==> h'.host[i] == h.host[i])
          && forall i {:trigger w'[i]} {:trigger h'.host[i]} :: geo.Shift() <= i < |h.host| ==>
               var gone := Unwatched(geo, address, length, exact || !unprotect, answers, i);
               && PageOver(geo, i) < |h.table|
               && w'[i] == (w[i] && !gone)
               && h'.host[i] == if unprotect && gone && w[i] && GuestWrites(geo, h.table, i) then ReadWrite
                    else h.host[i])
  }

  /** Exactly the pages of a request that is met exactly lose their bit. */
  ghost predicate BitsTaken(geo: Geometry, w: Bits, w': Bits, hostPages: nat, address: nat, length: nat) {
    && |w'| == |w|
    && forall i :: 0 <= i < |w| ==>
         w'[i] == (w[i] && !(geo.Shift() <= i < hostPages && Requested(geo, geo.base, address, length, i)))
  }

  lemma ExactlyTaken(geo: Geometry, h: Heap, w: Bits, h': Heap, w': Bits, triggered: bool, address: nat, length: nat,
                     unprotect: bool)
    requires Shape(geo, h, w) && IsTriggered(geo, h, w, h', w', triggered, address, length, true, unprotect, [])
    ensures BitsTaken(geo, w, w', |h.host|, address, length)
  {
    hide Mapped, FrontUnwatched, BackUnwatched, FirstPage, LastPage, GuestWrites, PageOver, PageFirst, PageLast;
  }

  /** The requested pages that the guest may write, and no others, get a bit, and become read-only if they had
      none. The request is in physical bytes. */
  ghost predicate IsEnabled(geo: Geometry, h: Heap, w: Bits, h': Heap, w': Bits, address: nat, length: nat)
    requires Shape(geo, h, w)
  {
    && h'.table == h.table && h'.unreserved == h.unreserved && |h'.host| == |h.host| && |w'| == |w|
    && (forall i :: 0 <= i < |w| && !(geo.Shift() <= i < |h.host|) ==> w'[i] == w[i])
    && (forall i :: 0 <= i < |h.host| && i < geo.Shift() ==> h'.host[i] == h.host[i])
    && forall i {:trigger w'[i]} {:trigger h'.host[i]} :: geo.Shift() <= i < |h.host| ==>
         && PageOver(geo, i) < |h.table|
         && var asked := Requested(geo, FirstPhysical(geo), address, length, i) && GuestWrites(geo, h.table, i);
            && w'[i] == (w[i] || asked)
            && h'.host[i] == if asked && !w[i] then ReadOnly else h.host[i]
  }

  lemma WritesAreAccess(geo: Geometry, h: Heap, w: Bits, i: nat)
    requires Shape(geo, h, w) && geo.Shift() <= i < |h.host|
    ensures PageOver(geo, i) == GuestPage(geo, i) < |h.table|
    ensures GuestWrites(geo, h.table, i) <==> GuestAccess(geo, h.table, i) == ReadWrite
  {
    PageOverIsGuest(geo, i);
  }

  lemma ClipPages(geo: Geometry, start: nat, address: u32, length: u32)
    requires ViewGeometry(geo)
    ensures var c := ClipTo(start, geo.size, address, length);
            && (c.Inside? <==> HasBytes(geo, start, address, length))
            && (c.Inside? ==>
                  var r := HostPages(geo, c.rel, c.length);
                  r.first == FirstPage(geo, start, address) && r.last == LastPage(geo, start, address, length))
  {
    var c := ClipTo(start, geo.size, address, length);
    if c.Inside? {
      assert c.rel == Max(address, start) - start;
      assert c.rel + c.length == Min(address + length, start + geo.size) - start;
      HostPagesInHeap(geo, c.rel, c.length);
      LastInHeap(geo, c.rel + c.length - 1);
    }
  }

  lemma LastInHeap(geo: Geometry, byte: nat)
    requires ViewGeometry(geo) && byte < geo.size
    ensures (byte + geo.hostOffset) / 4096 < SystemPageCount(geo)
  {
  }

  lemma TriggerInBytes(geo: Geometry, h: Heap, w: Bits, address: u32, length: u32, exact: bool, unprotect: bool,
                       answers: seq<Answer>, from: nat, to: nat)
    requires Shape(geo, h, w) && ViewGeometry(geo) && SystemPageCount(geo) == |h.host|
    requires ClipTo(geo.base, geo.size, address, length).Inside?
    requires var c := ClipTo(geo.base, geo.size, address, length);
             var r := HostPages(geo, c.rel, c.length);
             && geo.Shift() <= from && to < |h.host| && geo.Shift() <= r.first && r.last < |h.host|
             && (from, to) == if unprotect && !exact then Widened(geo, r, answers) else (r.first, r.last)
    ensures var c := ClipTo(geo.base, geo.size, address, length);
            var r := HostPages(geo, c.rel, c.length);
            var t := Triggered(geo, h, w, r.first, r.last, from, to, unprotect);
            IsTriggered(geo, h, w, t.0, t.1, t.2, address, length, exact, unprotect, answers)
  {
    hide Widened, HostPages, ClipTo, Requested, FrontUnwatched, BackUnwatched, SystemPageCount, GuestPage, PageOver,
      FirstPage, LastPage, GuestWrites, Mapped, ToPageAccess;
    var c := ClipTo(geo.base, geo.size, address, length);
    var r := HostPages(geo, c.rel, c.length);
    ClipPages(geo, geo.base, address, length);
    forall i | geo.Shift() <= i < |h.host|
      ensures PageOver(geo, i) == GuestPage(geo, i) < |h.table|
      ensures GuestWrites(geo, h.table, i) <==> GuestAccess(geo, h.table, i) == ReadWrite
      ensures r.first <= i <= r.last <==> Requested(geo, geo.base, address, length, i)
      ensures from <= i <= to <==> Unwatched(geo, address, length, exact || !unprotect, answers, i)
    {
      WritesAreAccess(geo, h, w, i);
      RequestedExactly(geo, geo.base, address, length, i);
      WidenedExactly(geo, c.rel, c.length, answers, i);
    }
  }

  lemma EnableInBytes(geo: Geometry, h: Heap, w: Bits, address: u32, length: u32)
    requires Shape(geo, h, w) && ViewGeometry(geo) && SystemPageCount(geo) == |h.host|
    ensures var c := ClipTo(FirstPhysical(geo), geo.size, address, length);
            && (c.Outside? ==> IsEnabled(geo, h, w, h, w, address, length))
            && (c.Inside? ==>
                  var r := HostPages(geo, c.rel, c.length);
                  && geo.Shift() <= r.first && r.last < |h.host|
                  && var e := Enabled(geo, h, w, r.first, r.last);
                     IsEnabled(geo, h, w, e.0, e.1, address, length))
  {
    hide HostPages, ClipTo, Requested, SystemPageCount, GuestPage, PageOver, GuestWrites, Mapped, ToPageAccess;
    var c := ClipTo(FirstPhysical(geo), geo.size, address, length);
    if c.Inside? {
      HostPagesInHeap(geo, c.rel, c.length);
    }
    forall i | geo.Shift() <= i < |h.host|
      ensures PageOver(geo, i) == GuestPage(geo, i) < |h.table|
      ensures GuestWrites(geo, h.table, i) <==> GuestAccess(geo, h.table, i) == ReadWrite
      ensures c.Outside? ==> !Requested(geo, FirstPhysical(geo), address, length, i)
      ensures c.Inside? ==>
                (HostPages(geo, c.rel, c.length).first <= i <= HostPages(geo, c.rel, c.length).last
                 <==> Requested(geo, FirstPhysical(geo), address, length, i))
    {
      WritesAreAccess(geo, h, w, i);
      RequestedExactly(geo, FirstPhysical(geo), address, length, i);
    }
  }
}
