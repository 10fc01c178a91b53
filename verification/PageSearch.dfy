/** The search of `BaseHeap::AllocRange` (src/xenia/memory.cc:1034-1121), in page numbers. */
module PageSearch {
  import opened Arith
  import opened PageTable

  /** `OutOfTable` stands for reading a page entry past the end of the table, which the source
      does when its unsigned limit wraps. */
  datatype SearchResult = Found(base: nat) | NotFound | OutOfTable

  /** An aligned window inside [low, high) without a taken page. */
  ghost predicate Fits(t: Table, low: nat, high: nat, stride: nat, count: nat, b: nat)
    requires stride > 0
  {
    low <= b && b % stride == 0 && b + count <= high && AllFree(t, b, count)
  }

  /** The table and the request as `AllocRange` hands them to its two scans: no table has more
      pages than the 20-bit fields of an entry can number. */
  ghost predicate SearchArgs(t: Table, low: nat, high: nat, stride: nat, count: nat)
  {
    && low < |t| <= 0x10_0000 && high < |t|
    && 0 < stride <= 0x10_0000 && 0 < count <= 0x10_0000
    && high % stride == 0
  }

  // ---- reference: try every page number in turn ---------------------------------------------

  ghost function LeastFit(t: Table, low: nat, high: nat, stride: nat, count: nat, b: nat): (r: SearchResult)
    requires stride > 0
    ensures !r.OutOfTable?
    ensures r.Found? ==> b <= r.base && Fits(t, low, high, stride, count, r.base)
    ensures forall c :: b <= c && Fits(t, low, high, stride, count, c) ==> r.Found? && r.base <= c
    decreases high - b
  {
    if Fits(t, low, high, stride, count, b) then Found(b)
    else if b >= high then NotFound
    else LeastFit(t, low, high, stride, count, b + 1)
  }

  ghost function GreatestFit(t: Table, low: nat, high: nat, stride: nat, count: nat, b: nat): (r: SearchResult)
    requires stride > 0
    ensures !r.OutOfTable?
    ensures r.Found? ==> r.base <= b && Fits(t, low, high, stride, count, r.base)
    ensures forall c: nat :: c <= b && Fits(t, low, high, stride, count, c) ==> r.Found? && c <= r.base
    decreases b
  {
    if Fits(t, low, high, stride, count, b) then Found(b)
    else if b == 0 then NotFound
    else GreatestFit(t, low, high, stride, count, b - 1)
  }

  /** What a search in either direction has to return. */
  ghost function BestFit(t: Table, low: nat, high: nat, stride: nat, count: nat, topDown: bool): SearchResult
    requires stride > 0
  {
    if topDown then GreatestFit(t, low, high, stride, count, high)
    else LeastFit(t, low, high, stride, count, low)
  }

  /** What the upward scan returns. It begins at `low` as it is and goes on by whole strides as long as
      it meets taken pages; once it is blocked behind a free page it keeps to aligned bases. From an
      aligned page on that is the least window; from any other page it may pass aligned windows by. */
  ghost function UpwardFit(t: Table, low: nat, high: nat, stride: nat, count: nat): (r: SearchResult)
    requires stride > 0 && count > 0 && high <= |t|
    ensures r.Found? ==> low <= r.base && r.base + count <= high && AllFree(t, r.base, count)
    decreases high - low
  {
    if low % stride == 0 then LeastFit(t, low, high, stride, count, low)
    else if low + count > high then NotFound
    else if Taken(t, low) then UpwardFit(t, low + stride, high, stride, count)
    else if AllFree(t, low, count) then Found(low)
    else LeastFit(t, low, high, stride, count, low)
  }

  /** Nothing fits from a page behind which there is no room. */
  lemma NoRoomUpward(t: Table, low: nat, high: nat, stride: nat, count: nat)
    requires stride > 0 && count > 0 && high <= |t| && low + count > high
    ensures UpwardFit(t, low, high, stride, count) == NotFound
    ensures LeastFit(t, low, high, stride, count, low) == NotFound
  {
  }

  /** The search may begin at any page that no window lies in front of. */
  lemma LeastFitFrom(t: Table, low: nat, high: nat, stride: nat, count: nat, base: nat)
    requires stride > 0 && low <= base && forall c: nat :: Fits(t, low, high, stride, count, c) ==> base <= c
    ensures LeastFit(t, low, high, stride, count, low) == LeastFit(t, base, high, stride, count, base)
  {
    var a, b := LeastFit(t, low, high, stride, count, low), LeastFit(t, base, high, stride, count, base);
    if a.Found? {
      assert Fits(t, base, high, stride, count, a.base);
    }
    if b.Found? {
      assert Fits(t, low, high, stride, count, b.base);
    }
  }

  // ---- the two scans of the source ----------------------------------------------------------

  lemma PreviousMultiple(b: nat, base: nat, stride: nat)
    requires stride > 0 && b % stride == 0 && base % stride == 0 && b < base
    ensures b + stride <= base
    ensures (base - stride) % stride == 0
  {
    MultipleAtMost(b, base - 1, stride);
    DivModUnique(base - 1, stride, base / stride - 1, stride - 1);
    DivModUnique(base - stride, stride, base / stride - 1, 0);
  }

  /** Every window lies at `base` or below. */
  ghost predicate FitsUpTo(t: Table, low: nat, high: nat, stride: nat, count: nat, base: int)
    requires stride > 0
  {
    forall b: nat :: Fits(t, low, high, stride, count, b) ==> b <= base
  }

  /** Checks [base, base + count) page by page and stops at the first taken page. */
  method FirstTaken(t: Table, base: nat, count: nat) returns (taken: bool, page: nat)
    requires 0 < count && base < |t|
    ensures taken ==> base <= page < base + count && page < |t| && Taken(t, page)
    ensures !taken && page < base + count ==> page == |t|
    ensures !taken ==> page <= base + count && AllFree(t, base, page - base)
    ensures AllFree(t, base, count) ==> !taken && page == base + count
  {
    taken, page := false, base;
    while page <= base + count - 1
      invariant base <= page <= base + count && page <= |t|
      invariant AllFree(t, base, page - base)
    {
      if page >= |t| {
        return;
      }
      if Taken(t, page) {
        return true, page;
      }
      page := page + 1;
    }
  }

  /** From the top: every window between the current base and the page that blocks it contains
      that page, so the scan goes straight to the last aligned base that ends in front of it. */
  method SearchTopDown(t: Table, low: nat, high: nat, stride: nat, count: nat) returns (r: SearchResult)
    requires SearchArgs(t, low, high, stride, count)
    ensures r.OutOfTable? <==> count > high
    ensures !r.OutOfTable? ==> r == GreatestFit(t, low, high, stride, count, high)
  {
    RoundUpCovers(count, stride);
    if RoundUp(count, stride) <= high {
      assert count <= high;
    } else if count <= high {
      RoundUpIsLeast(count, stride, high);
    }
    var base: int := Sub32(high, RoundUp(count, stride));
    if count <= high {
      FirstBaseIsLast(low, high, stride, count);
    }
    while base >= low
      invariant count > high ==> base == Sub32(high, RoundUp(count, stride)) && base >= |t|
      invariant count <= high && base >= 0 ==> base % stride == 0 && base + count <= high
      invariant count <= high ==> FitsUpTo(t, low, high, stride, count, base)
      decreases base
    {
      if base >= |t| {
        return OutOfTable;
      }
      var next := base;
      if t[base].state == 0 {
        var taken, page := FirstTaken(t, base, count);
        if !taken {
          assert page == base + count;
          assert Fits(t, low, high, stride, count, base);
          return Found(base);
        }
        if count > page {
          next := -1;
        } else {
          next := RoundDown(page - count, stride) + stride;
        }
        SkipDown(t, low, high, stride, count, base, page);
      } else {
        SkipDown(t, low, high, stride, count, base, base);
      }
      base := next - stride;
    }
    return NotFound;
  }

  /** The first base of the downward scan is the last aligned base that fits below `high`. */
  lemma FirstBaseIsLast(low: nat, high: nat, stride: nat, count: nat)
    requires 0 < stride <= 0x10_0000 && 0 < count <= high <= 0x10_0000 && high % stride == 0
    requires RoundUp(count, stride) <= high
    ensures var base := high - RoundUp(count, stride);
            && base % stride == 0 && base + count <= high
            && forall b: nat :: b % stride == 0 && b + count <= high ==> b <= base
  {
    RoundUpCovers(count, stride);
    var base := high - RoundUp(count, stride);
    MultiplesSubtract(high, RoundUp(count, stride), stride);
    forall b: nat | b % stride == 0 && b + count <= high
      ensures b <= base
    {
      MultiplesSubtract(high, b, stride);
      RoundUpIsLeast(count, stride, high - b);
    }
  }

  /** No window is lost when the downward scan goes below a blocked base. */
  lemma SkipDown(t: Table, low: nat, high: nat, stride: nat, count: nat, base: nat, page: nat)
    requires 0 < stride && 0 < count && base % stride == 0
    requires base <= page < base + count && page < |t| && Taken(t, page)
    requires FitsUpTo(t, low, high, stride, count, base)
    ensures count <= page ==> RoundDown(page - count, stride) < base
    ensures FitsUpTo(t, low, high, stride, count, base - stride)
    ensures FitsUpTo(t, low, high, stride, count, if count <= page then RoundDown(page - count, stride) else -1)
    ensures base >= stride ==> (base - stride) % stride == 0
  {
    if base >= stride {
      PreviousMultiple(0, base, stride);
    }
    forall b: nat | Fits(t, low, high, stride, count, b)
      ensures count <= page && b <= RoundDown(page - count, stride) && b <= base - stride
    {
      assert b + count <= page;
      MultipleAtMost(b, page - count, stride);
      PreviousMultiple(b, base, stride);
    }
  }

  /** From the bottom: the scan goes on at the first aligned base behind the blocking page. When `low`
      is not aligned the scan still tries it first. A request longer than the upper end makes the limit
      wrap: then the scan goes on to the end of the table, and past it. */
  method SearchBottomUp(t: Table, low: nat, high: nat, stride: nat, count: nat) returns (r: SearchResult)
    requires SearchArgs(t, low, high, stride, count)
    ensures count <= high ==> r == UpwardFit(t, low, high, stride, count)
    ensures count > high ==>
              r == match UpwardFit(t, low, |t|, stride, count) case Found(b) => Found(b) case _ => OutOfTable
  {
    var limit := Sub32(high, count);
    ghost var end := if count <= high then high else |t|;
    var base := low;
    while base <= limit
      invariant low <= base <= |t| + 0x10_0000
      invariant UpwardFit(t, low, end, stride, count) == UpwardFit(t, base, end, stride, count)
      decreases limit - base
    {
      if base >= |t| {
        NoRoomUpward(t, base, end, stride, count);
        return OutOfTable;
      }
      var next := base;
      if !Taken(t, base) {
        var taken, page := FirstTaken(t, base, count);
        if !taken {
          if page < base + count {
            NoRoomUpward(t, base, end, stride, count);
            return OutOfTable;
          }
          assert base % stride == 0 ==> Fits(t, base, end, stride, count, base);
          return Found(base);
        }
        SkipUp(t, end, stride, count, base, page);
        next := RoundUp(page + 1, stride) - stride;
      } else {
        SkipTaken(t, end, stride, count, base);
      }
      base := next + stride;
    }
    NoRoomUpward(t, base, end, stride, count);
    return NotFound;
  }

  /** Behind a blocking page the scan goes on at the next aligned base. */
  lemma SkipUp(t: Table, high: nat, stride: nat, count: nat, base: nat, page: nat)
    requires 0 < stride <= 0x10_0000 && 0 < count && high <= |t|
    requires base <= page < base + count && page < |t| <= 0x10_0000 && Taken(t, page) && !Taken(t, base)
    ensures page < RoundUp(page + 1, stride) <= page + stride
    ensures UpwardFit(t, base, high, stride, count) == UpwardFit(t, RoundUp(page + 1, stride), high, stride, count)
  {
    RoundUpCovers(page + 1, stride);
    var next := RoundUp(page + 1, stride);
    forall b: nat | Fits(t, base, high, stride, count, b)
      ensures next <= b
    {
      assert page < b;
      RoundUpIsLeast(page + 1, stride, b);
    }
    LeastFitFrom(t, base, high, stride, count, next);
    if base + count > high {
      NoRoomUpward(t, base, high, stride, count);
    }
  }

  /** At a taken page it goes on by one stride. */
  lemma SkipTaken(t: Table, high: nat, stride: nat, count: nat, base: nat)
    requires 0 < stride && 0 < count && high <= |t| && base < |t| && Taken(t, base)
    ensures UpwardFit(t, base, high, stride, count) == UpwardFit(t, base + stride, high, stride, count)
  {
    ModAddMultiple(base, stride);
    if base + count > high {
      NoRoomUpward(t, base, high, stride, count);
      NoRoomUpward(t, base + stride, high, stride, count);
    } else if base % stride == 0 {
      forall b: nat | Fits(t, base, high, stride, count, b)
        ensures base + stride <= b
      {
        assert b != base;
        PreviousMultiple(base, b, stride);
      }
      LeastFitFrom(t, base, high, stride, count, base + stride);
    }
  }

  // ---- a request of no page -----------------------------------------------------------------------
  // A size within one page of 4 GB rounds to no page at all. The last page number is then the one in
  // front of the base, so that every free base but page 0 serves at once; for page 0 it wraps, and the
  // check runs to the first taken page of the table.

  /** The first taken page from `i` on, or the end of the table. */
  function FirstTakenFrom(t: Table, i: nat): (page: nat)
    requires i <= |t|
    ensures i <= page <= |t| && (forall j :: i <= j < page ==> t[j].state == 0)
    ensures page < |t| ==> Taken(t, page)
    decreases |t| - i
  {
    if i == |t| || Taken(t, i) then i else FirstTakenFrom(t, i + 1)
  }

  /** The first free page from `base` up in whole strides ... */
  function StepUp(t: Table, base: nat, high: nat, stride: nat): (r: SearchResult)
    requires stride > 0 && high < |t|
    ensures !r.OutOfTable? && (r.Found? ==> base <= r.base <= high && !Taken(t, r.base))
    decreases high - base
  {
    if base > high then NotFound else if !Taken(t, base) then Found(base) else StepUp(t, base + stride, high, stride)
  }

  /** ... and down. */
  function StepDown(t: Table, low: nat, base: nat, stride: nat): (r: SearchResult)
    requires stride > 0 && base < |t|
    ensures !r.OutOfTable? && (r.Found? ==> low <= r.base <= base && !Taken(t, r.base))
    decreases base
  {
    if base < low then NotFound
    else if !Taken(t, base) then Found(base)
    else if base < stride then NotFound
    else StepDown(t, low, base - stride, stride)
  }

  /** What the scans return for no page. `OutOfTable` also stands for the downward scan that comes back to
      page 0 again and again. */
  function EmptyWindow(t: Table, low: nat, high: nat, stride: nat, topDown: bool): (r: SearchResult)
    requires stride > 0 && high < |t|
    ensures r.Found? ==> 0 < r.base < |t| && !Taken(t, r.base)
  {
    if topDown && high < stride then OutOfTable
    else
      var r := if topDown then StepDown(t, low, high - stride, stride) else StepUp(t, low, high, stride);
      if r != Found(0) then r
      else
        var page := FirstTakenFrom(t, 0);
        if page == |t| then OutOfTable
        else if !topDown then
          StepUp(t, RoundDown(page, stride) + stride, high, stride)
        else match StepDown(t, 0, RoundDown(page, stride), stride)
          case Found(b) => if b > 0 then Found(b) else OutOfTable
          case _ => OutOfTable
  }

  /** The scans for no page. */
  method SearchNoPage(t: Table, low: nat, high: nat, stride: nat, topDown: bool) returns (r: SearchResult)
    requires low < |t| <= 0x10_0000 && high < |t| && 0 < stride <= 0x10_0000 && high % stride == 0
    ensures r == EmptyWindow(t, low, high, stride, topDown)
  {
    hide StepUp, StepDown, RoundUp, RoundDown;
    if topDown {
      if high < stride {
        return OutOfTable;
      }
      r := ScanDown(t, low, high - stride, stride);
    } else {
      r := ScanUp(t, low, high, stride);
    }
    if r != Found(0) {
      return;
    }
    var page := 0;
    while page < |t| && t[page].state == 0
      invariant page <= |t| && FirstTakenFrom(t, 0) == FirstTakenFrom(t, page)
    {
      page := page + 1;
    }
    if page == |t| {
      return OutOfTable;
    }
    if !topDown {
      NextMultiple(page, stride);
      r := ScanUp(t, RoundUp(page + 1, stride), high, stride);
    } else {
      r := ScanDown(t, 0, RoundDown(page, stride), stride);
      if r == Found(0) || r.NotFound? {
        r := OutOfTable;
      }
    }
  }

  lemma NextMultiple(page: nat, stride: nat)
    requires page <= 0x10_0000 && 0 < stride <= 0x10_0000
    ensures RoundUp(page + 1, stride) == RoundDown(page, stride) + stride
  {
    var q := page / stride;
    DivModUnique(page, stride, q, page % stride);
    DivModUnique(page + 1 + stride - 1, stride, q + 1, page % stride);
  }

  method ScanUp(t: Table, low: nat, high: nat, stride: nat) returns (r: SearchResult)
    requires stride > 0 && high < |t|
    ensures r == StepUp(t, low, high, stride)
  {
    var base := low;
    while base <= high
      invariant low <= base && StepUp(t, low, high, stride) == StepUp(t, base, high, stride)
    {
      if t[base].state == 0 {
        return Found(base);
      }
      base := base + stride;
    }
    return NotFound;
  }

  method ScanDown(t: Table, low: nat, high: nat, stride: nat) returns (r: SearchResult)
    requires stride > 0 && high < |t|
    ensures r == StepDown(t, low, high, stride)
  {
    var base: int := high;
    while base >= low
      invariant base <= high
      invariant StepDown(t, low, high, stride) == if base >= 0 then StepDown(t, low, base, stride) else NotFound
    {
      if t[base].state == 0 {
        return Found(base);
      }
      base := base - stride;
    }
    return NotFound;
  }
}
