/** The page range that `TriggerCallbacks` works on (src/xenia/memory.cc:1853-1875 and 1904-1958),
    for arbitrary answers of the invalidation callbacks. Heap sizes stay below 2^30, so that no sum
    here leaves 32 bits. */
module UnwatchRange {
  import opened Arith
  import opened HeapSpec

  const EXCESS: int := 0x40_0000

  /** First byte and length that a callback says may be unwatched. */
  type Answer = (u32, u32)

  datatype PageRange = PageRange(first: nat, last: nat)

  ghost predicate ViewGeometry(geo: Geometry) {
    geo.Valid() && geo.size <= 0x4000_0000
  }

  /** Physical address of the first byte of the view (`GetPhysicalAddress(heap_base_)`). */
  function PhysicalOffset(geo: Geometry): nat {
    if geo.base >= 0xE000_0000 then 0x1000 else 0
  }

  function SystemPageCount(geo: Geometry): nat {
    (geo.size + geo.hostOffset + (SYSTEM_PAGE - 1)) / SYSTEM_PAGE
  }

  /** The host pages of the bytes [rel, rel + length) of the view. */
  function HostPages(geo: Geometry, rel: nat, length: nat): PageRange
    requires 0 < length && rel + length <= geo.size
  {
    PageRange((rel + geo.hostOffset) / SYSTEM_PAGE,
              Min((rel + length - 1 + geo.hostOffset) / SYSTEM_PAGE, SystemPageCount(geo) - 1))
  }

  /** First physical byte and length that the callbacks are told about. */
  function PhysicalSpan(geo: Geometry, r: PageRange): (int, int)
  {
    var start := Max(r.first * SYSTEM_PAGE - geo.hostOffset, 0) + PhysicalOffset(geo);
    (start, Min(Max(r.last * SYSTEM_PAGE + SYSTEM_PAGE - geo.hostOffset, 0) + PhysicalOffset(geo) - start,
                geo.size - (start - PhysicalOffset(geo))))
  }

  /** The bytes that every callback agrees to have unwatched. */
  function Agreed(answers: seq<Answer>): (int, int)
  {
    if answers == [] then (0, U32 - 1)
    else
      var (first, last) := Agreed(answers[..|answers| - 1]);
      var a := answers[|answers| - 1];
      (Max(first, a.0), Min(last, SatAdd(a.0, Max(a.1, 1) - 1)))
  }

  /** The final range when the request need not be met exactly. */
  function Widened(geo: Geometry, r: PageRange, answers: seq<Answer>): (int, int)
  {
    var (start, length) := PhysicalSpan(geo, r);
    var end := start + length - 1;
    var (a, b) := Agreed(answers);
    var first := Max(Min(a, start), start - start % EXCESS);
    var last := Min(Max(b, end), end - end % EXCESS + (EXCESS - 1));
    var relFirst := Min(Max(first - PhysicalOffset(geo), 0), geo.size - 1) + geo.hostOffset;
    var relLast := Min(Max(last - PhysicalOffset(geo), 0), geo.size - 1) + geo.hostOffset;
    (relFirst / SYSTEM_PAGE, relLast / SYSTEM_PAGE)
  }

  datatype Clip = Outside | Inside(rel: nat, length: nat)

  /** The part of the bytes [address, address + length) that lies in [start, start + size), relative
      to `start`: the clipping in front of both `EnableAccessCallbacks` and `TriggerCallbacks`. */
  function ClipTo(start: nat, size: nat, address: u32, length: u32): (c: Clip)
    ensures c.Inside? ==> 0 < c.length && c.rel + c.length <= size
  {
    if address < start && start - address >= length then Outside
    else
      var (a, n) := if address < start then (start, length - (start - address)) else (address, length);
      if a - start >= size then Outside
      else if Min(n, size - (a - start)) == 0 then Outside
      else Inside(a - start, Min(n, size - (a - start)))
  }

  /** Clipping keeps exactly the bytes of the request that lie in the heap. */
  lemma ClipIsIntersection(start: nat, size: nat, address: u32, length: u32, b: nat)
    requires b < size
    ensures var c := ClipTo(start, size, address, length);
            (c.Inside? && c.rel <= b < c.rel + c.length) <==> address <= start + b < address + length
  {
  }

  /** The requested pages lie in the heap, in order. */
  lemma HostPagesInHeap(geo: Geometry, rel: nat, length: nat)
    requires ViewGeometry(geo) && 0 < length && rel + length <= geo.size
    ensures var r := HostPages(geo, rel, length);
            && geo.Shift() <= r.first <= r.last < SystemPageCount(geo)
            && r.first * SYSTEM_PAGE <= rel + geo.hostOffset
            && rel + length + geo.hostOffset <= r.last * SYSTEM_PAGE + SYSTEM_PAGE
  {
  }

  /** Whatever the callbacks answer, the pages that are finally unwatched contain the requested
      ones, stay inside the heap and inside the blocks of 4 MB that the request touches. */
  lemma WidenedContains(geo: Geometry, rel: nat, length: nat, answers: seq<Answer>)
    requires ViewGeometry(geo) && 0 < length && rel + length <= geo.size
    ensures var r := HostPages(geo, rel, length);
            var (from, to) := Widened(geo, r, answers);
            && geo.Shift() <= from <= r.first <= r.last <= to < SystemPageCount(geo)
            && (var (start, span) := PhysicalSpan(geo, r);
                && start - start % EXCESS <= Max(from * SYSTEM_PAGE + SYSTEM_PAGE - 1 - geo.hostOffset, 0)
                     + PhysicalOffset(geo)
                && to * SYSTEM_PAGE - geo.hostOffset + PhysicalOffset(geo)
                   <= (start + span - 1) - (start + span - 1) % EXCESS + (EXCESS - 1))
  {
    HostPagesInHeap(geo, rel, length);
    var r := HostPages(geo, rel, length);
    var (start, span) := PhysicalSpan(geo, r);
    assert start == r.first * SYSTEM_PAGE - geo.hostOffset + PhysicalOffset(geo);
    assert 0 < span <= geo.size;
    assert (start - PhysicalOffset(geo) + geo.hostOffset) / SYSTEM_PAGE == r.first;
    assert (start + span - 1 - PhysicalOffset(geo) + geo.hostOffset) / SYSTEM_PAGE == r.last;
  }
}
