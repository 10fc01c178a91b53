/** The integer helpers of src/xenia/base/math.h and src/xenia/memory.cc, on 32-bit unsigned
    values: every result that the source keeps in a `uint32_t` is reduced modulo 2^32 here. */
module Arith {

  const U32: int := 0x1_0000_0000

  type u32 = x: int | 0 <= x < U32

  function Min(a: int, b: int): int {
    if a <= b then a else b
  }

  function Max(a: int, b: int): int {
    if a >= b then a else b
  }

  /** Subtraction as the hardware does it on `uint32_t`. */
  function Sub32(a: u32, b: u32): u32 {
    if a >= b then a - b else a - b + U32
  }

  function SatAdd(a: u32, b: u32): u32 {
    if a + b < U32 then a + b else U32 - 1
  }

  function Pow2(k: nat): nat {
    if k == 0 then 1 else 2 * Pow2(k - 1)
  }

  /** `v / m`, by repeated subtraction: the verifier then need not reason about a division by a
      variable wherever a page number occurs. */
  function Quotient(v: nat, m: nat): nat
    requires m > 0
    decreases v
  {
    if v < m then 0 else 1 + Quotient(v - m, m)
  }

  lemma {:induction false} QuotientIsDivision(v: nat, m: nat)
    requires m > 0
    ensures Quotient(v, m) == v / m
    decreases v
  {
    if v < m {
      DivModUnique(v, m, 0, v);
    } else {
      QuotientIsDivision(v - m, m);
      DivModUnique(v, m, (v - m) / m + 1, (v - m) % m);
    }
  }

  /** Division followed by multiplication, or clearing the low bits when `m` is a power of two. */
  function RoundDown(v: nat, m: nat): (r: nat)
    requires m > 0
    ensures r <= v < r + m && r % m == 0
  {
    MultipleBelow(v, m);
    v - v % m
  }

  /** `xe::round_up` with its default third argument: zero is rounded up to one whole multiple,
      and the sum in front of the division wraps. */
  function RoundUp(value: u32, multiple: u32): (r: nat)
    requires multiple > 0
    ensures r < U32
  {
    if value == 0 then multiple else RoundDown((value + multiple - 1) % U32, multiple)
  }

  /** `xe::align` for an alignment that is a power of two, where clearing the low bits is rounding
      down to a multiple. */
  function Align(value: u32, alignment: u32): (r: nat)
    requires alignment > 0
    ensures r < U32
  {
    RoundDown((value + alignment - 1) % U32, alignment)
  }

  /** `get_page_count` (memory.cc). */
  function PageCount(size: u32, pageSize: u32): nat
    requires pageSize > 0
  {
    Quotient(RoundUp(size, pageSize), pageSize)
  }

  lemma MultipleBelow(v: nat, m: nat)
    requires m > 0
    ensures v % m <= v < v - v % m + m
    ensures (v - v % m) % m == 0
  {
    ModOfMultiple(v / m, m);
    assert v - v % m == v / m * m;
  }

  lemma {:induction false} ModOfMultiple(q: nat, m: nat)
    requires m > 0
    ensures q * m % m == 0
    decreases q
  {
    if q > 0 {
      ModOfMultiple(q - 1, m);
      assert q * m == (q - 1) * m + m;
      ModAddMultiple((q - 1) * m, m);
    }
  }

  lemma ModAddMultiple(v: nat, m: nat)
    requires m > 0
    ensures (v + m) % m == v % m
  {
    var q := v / m;
    assert v == q * m + v % m;
    assert v + m == (q + 1) * m + v % m;
    DivModUnique(v + m, m, q + 1, v % m);
  }

  lemma DivModUnique(v: nat, m: nat, q: nat, r: nat)
    requires m > 0 && r < m && v == q * m + r
    ensures v / m == q && v % m == r
  {
    var q', r' := v / m, v % m;
    assert v == q' * m + r';
    assert (q - q') * m == r' - r;
    if q' < q {
      MulAtLeast(q - q', m);
    } else if q < q' {
      MulAtLeast(q' - q, m);
    }
  }

  lemma MulAtLeast(k: nat, m: nat)
    requires k >= 1
    ensures k * m >= m
  {
    assert k * m == (k - 1) * m + m;
  }

  lemma MulOrder(a: nat, b: nat, g: nat)
    ensures a <= b ==> a * g <= b * g
  {
    if a <= b {
      assert b * g == a * g + (b - a) * g;
    }
  }

  /** A multiple of `m` that is at most `v` is at most `v` rounded down. */
  lemma MultipleAtMost(b: nat, v: nat, m: nat)
    requires m > 0 && b % m == 0 && b <= v
    ensures b <= v - v % m
  {
    assert v - v % m == v / m * m;
    var k := b / m;
    assert b == k * m;
    if k > v / m {
      assert (k - v / m) * m >= m by { MulAtLeast(k - v / m, m); }
    }
  }

  /** Without wrap-around, rounding up gives a positive multiple that is at least the value ... */
  lemma RoundUpCovers(value: u32, multiple: u32)
    requires 0 < multiple && value <= U32 - multiple
    ensures value <= RoundUp(value, multiple) < value + multiple + (if value == 0 then 1 else 0)
    ensures 0 < RoundUp(value, multiple) && RoundUp(value, multiple) % multiple == 0
  {
    if value > 0 {
      DivModUnique(value + multiple - 1, U32, 0, value + multiple - 1);
      MultipleBelow(value + multiple - 1, multiple);
    } else {
      DivModUnique(multiple, multiple, 1, 0);
    }
  }

  /** ... and the least such multiple. */
  lemma RoundUpIsLeast(value: u32, multiple: u32, b: nat)
    requires 0 < multiple && value <= U32 - multiple
    requires b % multiple == 0 && 0 < b && value <= b
    ensures RoundUp(value, multiple) <= b
  {
    RoundUpCovers(value, multiple);
    if value > 0 {
      // the result is at most b + multiple - 1, so it is at most b rounded up, which is b
      MultipleAtMost(RoundUp(value, multiple), b + multiple - 1, multiple);
      DivModUnique(b + multiple - 1, multiple, b / multiple, multiple - 1);
    } else if b < multiple {
      DivModUnique(b, multiple, 0, b);
    }
  }

  /** The page count of a request covers the request exactly when rounding up does not wrap: only
      sizes within one page of 4 GB escape, and those are given no page at all. */
  lemma PageCountCoversExactly(size: u32, pageSize: u32)
    requires pageSize > 0
    ensures size <= U32 - pageSize <==> (PageCount(size, pageSize) > 0 && PageCount(size, pageSize) * pageSize >= size)
    ensures size > U32 - pageSize ==> PageCount(size, pageSize) == 0
    ensures size <= U32 - pageSize ==>
            if size == 0 then PageCount(size, pageSize) == 1
            else (PageCount(size, pageSize) - 1) * pageSize < size <= PageCount(size, pageSize) * pageSize
  {
    if size <= U32 - pageSize {
      RoundUpCovers(size, pageSize);
      var r := RoundUp(size, pageSize);
      QuotientIsDivision(r, pageSize);
      assert r == r / pageSize * pageSize;
    } else {
      assert (size + pageSize - 1) % U32 == size + pageSize - 1 - U32 by {
        DivModUnique(size + pageSize - 1, U32, 1, size + pageSize - 1 - U32);
      }
      DivModUnique(size + pageSize - 1 - U32, pageSize, 0, size + pageSize - 1 - U32);
      DivModUnique(0, pageSize, 0, 0);
    }
  }

  lemma {:induction false} Pow2Positive(k: nat)
    ensures Pow2(k) > 0
  {
    if k > 0 {
      Pow2Positive(k - 1);
    }
  }

  lemma MultiplesSubtract(a: nat, b: nat, m: nat)
    requires m > 0 && a % m == 0 && b % m == 0 && b <= a
    ensures (a - b) % m == 0
  {
    assert a == a / m * m && b == b / m * m;
    DivisionMonotone(b, a, m);
    var k := a / m - b / m;
    assert a - b == k * m;
    ModOfMultiple(k, m);
  }

  lemma DivisionMonotone(a: nat, b: nat, m: nat)
    requires m > 0 && a <= b
    ensures a / m <= b / m
    ensures Quotient(a, m) <= Quotient(b, m)
  {
    QuotientIsDivision(a, m);
    QuotientIsDivision(b, m);
    var d := a / m - b / m;
    assert d * m == (a - a % m) - (b - b % m);
    if d > 0 {
      MulAtLeast(d, m);
    }
  }

  lemma PositiveMultipleAtLeast(x: nat, m: nat)
    requires m > 0 && x > 0 && x % m == 0
    ensures x >= m
  {
    if x < m {
      DivModUnique(x, m, 0, x);
    }
  }

  lemma MultipleOfMultiple(x: nat, a: nat, m: nat)
    requires m > 0 && a > 0 && x % a == 0 && a % m == 0
    ensures x % m == 0
    ensures x / m == x / a * (a / m)
  {
    var k, j := x / a, a / m;
    assert x == k * a && a == j * m;
    assert x == (k * j) * m;
    DivModUnique(x, m, k * j, 0);
  }

  lemma ExactPageCount(size: u32, pageSize: u32)
    requires 0 < pageSize && size % pageSize == 0 && size <= U32 - pageSize
    ensures PageCount(size, pageSize) > 0
    ensures 0 < size ==> PageCount(size, pageSize) * pageSize == size
  {
    RoundUpCovers(size, pageSize);
    if 0 < size {
      RoundUpIsLeast(size, pageSize, size);
    }
    var r := RoundUp(size, pageSize);
    QuotientIsDivision(r, pageSize);
    assert r == r / pageSize * pageSize;
  }

  /** An alignment that divides 2^32, which is to say a power of two, keeps an aligned value at
      least one alignment below 2^32. */
  lemma AlignedBelowWrap(size: u32, alignment: u32)
    requires 0 < alignment && U32 % alignment == 0
    ensures Align(size, alignment) <= U32 - alignment
    ensures 0 < size <= U32 - alignment ==> Align(size, alignment) == RoundUp(size, alignment)
  {
    var a := Align(size, alignment);
    MultiplesSubtract(U32, a, alignment);
    PositiveMultipleAtLeast(U32 - a, alignment);
  }

  lemma AlignedPageCount(size: u32, alignment: u32, pageSize: u32)
    requires 0 < pageSize && 0 < alignment && alignment % pageSize == 0 && U32 % alignment == 0
    ensures Align(size, alignment) % pageSize == 0 && Align(size, alignment) <= U32 - pageSize
    ensures PageCount(Align(size, alignment), pageSize) > 0
    ensures 0 < size <= U32 - alignment ==>
            PageCount(Align(size, alignment), pageSize) * pageSize == RoundUp(size, alignment)
  {
    AlignedBelowWrap(size, alignment);
    PositiveMultipleAtLeast(alignment, pageSize);
    MultipleOfMultiple(Align(size, alignment), alignment, pageSize);
    ExactPageCount(Align(size, alignment), pageSize);
    if 0 < size <= U32 - alignment {
      RoundUpCovers(size, alignment);
    }
  }
}
