/** Unsigned machine words and the bitwise operators on them, bit by bit: what the masks and the
    bit scans of the source mean. The width is a parameter; `Word` is the usual 64 bits. */
module Words {
  import opened Arith

  const WIDTH: nat := 64

  /** A word of `n` bits. */
  ghost predicate IsWord(w: nat, n: nat) {
    w < Pow2(n)
  }

  /** `w >> k` */
  function ShiftRight(w: nat, k: nat): nat {
    if k == 0 then w else ShiftRight(w / 2, k - 1)
  }

  /** Bit `k`, counted from the least significant one: `(w >> k) & 1`. */
  predicate Bit(w: nat, k: nat) {
    ShiftRight(w, k) % 2 == 1
  }

  /** `w << k` on words that are wide enough */
  function ShiftLeft(w: nat, k: nat): nat {
    if k == 0 then w else 2 * ShiftLeft(w, k - 1)
  }

  /** `a & b` */
  function And(a: nat, b: nat): nat {
    if a == 0 || b == 0 then 0
    else 2 * And(a / 2, b / 2) + (if a % 2 == 1 && b % 2 == 1 then 1 else 0)
  }

  /** `a | b` */
  function Or(a: nat, b: nat): nat {
    if a == 0 && b == 0 then 0
    else 2 * Or(a / 2, b / 2) + (if a % 2 == 1 || b % 2 == 1 then 1 else 0)
  }

  /** `~a` on `n` bits */
  function Not(a: nat, n: nat): nat
    requires IsWord(a, n)
  {
    Pow2(n) - 1 - a
  }

  /** `(1 << n) - 1` */
  function LowMask(n: nat): nat {
    Pow2Positive(n);
    Pow2(n) - 1
  }

  /** `(x << n) + y` puts the bits of `x` above the `n` bits of `y`. */
  lemma {:induction false} AppendBit(x: nat, y: nat, n: nat, k: nat)
    requires IsWord(y, n)
    ensures Bit(ShiftLeft(x, n) + y, k) <==> if k < n then Bit(y, k) else Bit(x, k - n)
    decreases n
  {
    if n > 0 {
      assert (ShiftLeft(x, n) + y) / 2 == ShiftLeft(x, n - 1) + y / 2;
      assert (ShiftLeft(x, n) + y) % 2 == y % 2;
      if k > 0 {
        AppendBit(x, y / 2, n - 1, k - 1);
      }
    }
  }

  lemma {:induction false} AppendIsWord(x: nat, y: nat, m: nat, n: nat)
    requires IsWord(x, m) && IsWord(y, n)
    ensures IsWord(ShiftLeft(x, n) + y, m + n)
    decreases n
  {
    if n > 0 {
      AppendIsWord(x, y / 2, m, n - 1);
    }
  }

  lemma AndHalf(a: nat, b: nat)
    ensures And(a, b) / 2 == And(a / 2, b / 2)
    ensures And(a, b) % 2 == 1 <==> a % 2 == 1 && b % 2 == 1
  {
  }

  lemma OrHalf(a: nat, b: nat)
    ensures Or(a, b) / 2 == Or(a / 2, b / 2)
    ensures Or(a, b) % 2 == 1 <==> a % 2 == 1 || b % 2 == 1
  {
  }

  lemma {:induction false} AndBit(a: nat, b: nat, k: nat)
    ensures Bit(And(a, b), k) <==> Bit(a, k) && Bit(b, k)
    decreases k
  {
    AndHalf(a, b);
    if k > 0 {
      AndBit(a / 2, b / 2, k - 1);
    }
  }

  lemma {:induction false} OrBit(a: nat, b: nat, k: nat)
    ensures Bit(Or(a, b), k) <==> Bit(a, k) || Bit(b, k)
    decreases k
  {
    OrHalf(a, b);
    if k > 0 {
      OrBit(a / 2, b / 2, k - 1);
    }
  }

  lemma {:induction false} ZeroBit(w: nat, k: nat)
    requires w == 0
    ensures !Bit(w, k)
    decreases k
  {
    if k > 0 {
      ZeroBit(w / 2, k - 1);
    }
  }

  lemma {:induction false} NotBit(a: nat, n: nat, k: nat)
    requires IsWord(a, n) && k < n
    ensures Bit(Not(a, n), k) <==> !Bit(a, k)
    decreases k
  {
    assert Pow2(n) == 2 * Pow2(n - 1);
    if k > 0 {
      assert Not(a, n) / 2 == Not(a / 2, n - 1);
      NotBit(a / 2, n - 1, k - 1);
    }
  }

  lemma {:induction false} LowMaskBit(n: nat, k: nat)
    ensures Bit(LowMask(n), k) <==> k < n
    decreases k
  {
    Pow2Positive(n);
    if n == 0 {
      ZeroBit(LowMask(n), k);
    } else {
      Pow2Positive(n - 1);
      assert LowMask(n) / 2 == LowMask(n - 1);
      if k > 0 {
        LowMaskBit(n - 1, k - 1);
      }
    }
  }

  lemma {:induction false} SingleBit(n: nat, k: nat)
    ensures Bit(Pow2(n), k) <==> k == n
    decreases k
  {
    if k > 0 {
      if n == 0 {
        ZeroBit(Pow2(n) / 2, k - 1);
      } else {
        SingleBit(n - 1, k - 1);
      }
    }
  }

  lemma {:induction false} AndBound(a: nat, b: nat)
    ensures And(a, b) <= a && And(a, b) <= b
    decreases a
  {
    if a != 0 && b != 0 {
      AndBound(a / 2, b / 2);
    }
  }

  lemma {:induction false} OrBound(a: nat, b: nat, n: nat)
    requires IsWord(a, n) && IsWord(b, n)
    ensures IsWord(Or(a, b), n)
    decreases n
  {
    Pow2Positive(n);
    if n > 0 && !(a == 0 && b == 0) {
      OrBound(a / 2, b / 2, n - 1);
    }
  }

  /** Words are equal when their bits are. */
  lemma {:induction false} SameBits(a: nat, b: nat, n: nat)
    requires IsWord(a, n) && IsWord(b, n)
    requires forall k :: 0 <= k < n ==> (Bit(a, k) <==> Bit(b, k))
    ensures a == b
    decreases n
  {
    if n > 0 {
      assert Bit(a, 0) <==> Bit(b, 0);
      forall k | 0 <= k < n - 1
        ensures Bit(a / 2, k) <==> Bit(b / 2, k)
      {
        assert Bit(a, k + 1) <==> Bit(b, k + 1);
      }
      SameBits(a / 2, b / 2, n - 1);
    }
  }

  /** `if (word)` asks whether any bit is set. */
  lemma ZeroHasNoBits(w: nat, n: nat)
    requires IsWord(w, n)
    ensures w == 0 <==> forall k :: 0 <= k < n ==> !Bit(w, k)
  {
    Pow2Positive(n);
    if w == 0 {
      forall k | 0 <= k < n
        ensures !Bit(w, k)
      {
        ZeroBit(w, k);
      }
    } else if forall k :: 0 <= k < n ==> !Bit(w, k) {
      forall k | 0 <= k < n
        ensures !Bit(0, k)
      {
        ZeroBit(0, k);
      }
      SameBits(w, 0, n);
    }
  }

  datatype ScanResult = NoBit | At(index: nat)

  /** `bit_scan_forward` on a word of `n` bits: the number of the lowest set bit. */
  function BitScanForward(w: nat, n: nat): (r: ScanResult)
    requires IsWord(w, n)
    ensures r.NoBit? <==> w == 0
    ensures r.At? ==> r.index < n && Bit(w, r.index) && forall k :: 0 <= k < r.index ==> !Bit(w, k)
  {
    ZeroHasNoBits(w, n);
    ScanUp(w, n, 0)
  }

  function ScanUp(w: nat, n: nat, from: nat): (r: ScanResult)
    requires from <= n && forall k :: 0 <= k < from ==> !Bit(w, k)
    ensures r.NoBit? ==> forall k :: 0 <= k < n ==> !Bit(w, k)
    ensures r.At? ==> r.index < n && Bit(w, r.index) && forall k :: 0 <= k < r.index ==> !Bit(w, k)
    decreases n - from
  {
    if from == n then NoBit else if Bit(w, from) then At(from) else ScanUp(w, n, from + 1)
  }

  /** `lzcnt`: how many of the `n` bits from the most significant one down are clear. */
  function LeadingZeros(w: nat, n: nat): (z: nat)
    requires IsWord(w, n)
    ensures z <= n && (z == n <==> w == 0)
    ensures z < n ==> Bit(w, n - 1 - z)
    ensures forall k :: n - z <= k < n ==> !Bit(w, k)
  {
    ZeroHasNoBits(w, n);
    ScanDown(w, n, 0)
  }

  function ScanDown(w: nat, n: nat, seen: nat): (z: nat)
    requires seen <= n && forall k :: n - seen <= k < n ==> !Bit(w, k)
    ensures z <= n && (z < n ==> Bit(w, n - 1 - z))
    ensures forall k :: n - z <= k < n ==> !Bit(w, k)
    decreases n - seen
  {
    if seen == n || Bit(w, n - 1 - seen) then seen else ScanDown(w, n, seen + 1)
  }

  /** `(w & (1 << k)) != 0` */
  lemma TestBit(w: nat, n: nat, k: nat)
    requires IsWord(w, n)
    ensures And(w, Pow2(k)) != 0 <==> Bit(w, k)
  {
    var both := And(w, Pow2(k));
    AndBit(w, Pow2(k), k);
    SingleBit(k, k);
    if both == 0 {
      ZeroBit(both, k);
    } else {
      AndBound(w, Pow2(k));
      ZeroHasNoBits(both, n);
      var j :| 0 <= j < n && Bit(both, j);
      AndBit(w, Pow2(k), j);
      SingleBit(k, j);
    }
  }

  // ---- bits numbered through an array of words ----------------------------------------------

  type WordArray = seq<nat>

  ghost predicate AreWords(words: WordArray) {
    forall i :: 0 <= i < |words| ==> IsWord(words[i], WIDTH)
  }

  /** The bits of all words in order. */
  function BitsOf(words: WordArray): (bits: seq<bool>)
    ensures |bits| == WIDTH * |words|
  {
    seq(WIDTH * |words|, i requires 0 <= i < WIDTH * |words| => Bit(words[i / WIDTH], i % WIDTH))
  }

  /** `words[i >> 6] |= 1 << (i & 63)` sets bit `i` and no other. */
  lemma SetBitAt(words: WordArray, i: nat)
    requires AreWords(words) && i < WIDTH * |words|
    ensures var words' := words[i / WIDTH := Or(words[i / WIDTH], Pow2(i % WIDTH))];
            AreWords(words') && BitsOf(words') == BitsOf(words)[i := true]
  {
    var word := Or(words[i / WIDTH], Pow2(i % WIDTH));
    var words' := words[i / WIDTH := word];
    Pow2Smaller(i % WIDTH, WIDTH);
    OrBound(words[i / WIDTH], Pow2(i % WIDTH), WIDTH);
    forall j | 0 <= j < WIDTH * |words|
      ensures BitsOf(words')[j] == BitsOf(words)[i := true][j]
    {
      OrBit(words[i / WIDTH], Pow2(i % WIDTH), j % WIDTH);
      SingleBit(i % WIDTH, j % WIDTH);
    }
  }

  lemma {:induction false} Pow2Smaller(k: nat, n: nat)
    requires k < n
    ensures Pow2(k) < Pow2(n)
    decreases n
  {
    Pow2Positive(n - 1);
    if k < n - 1 {
      Pow2Smaller(k, n - 1);
    }
  }

  lemma LowMaskIsWord(n: nat, width: nat)
    requires n <= width
    ensures IsWord(LowMask(n), width)
  {
    if n < width {
      Pow2Smaller(n, width);
    }
    Pow2Positive(n);
  }

  /** The part of one block that a test of a bit range looks at. */
  function TestBlock(w: nat, isFirst: bool, low: nat, isLast: bool, high: nat): nat
    requires low < WIDTH && high < WIDTH
  {
    LowMaskIsWord(low, WIDTH);
    var cut := if isFirst then And(w, Not(LowMask(low), WIDTH)) else w;
    if isLast && high != 63 then And(cut, LowMask(high + 1)) else cut
  }

  lemma TestBlockBit(w: nat, isFirst: bool, low: nat, isLast: bool, high: nat, k: nat)
    requires low < WIDTH && high < WIDTH && k < WIDTH
    ensures Bit(TestBlock(w, isFirst, low, isLast, high), k)
            <==> Bit(w, k) && (isFirst ==> low <= k) && (isLast ==> k <= high)
    ensures TestBlock(w, isFirst, low, isLast, high) <= w
  {
    LowMaskIsWord(low, WIDTH);
    var cut := if isFirst then And(w, Not(LowMask(low), WIDTH)) else w;
    AndBit(w, Not(LowMask(low), WIDTH), k);
    AndBound(w, Not(LowMask(low), WIDTH));
    NotBit(LowMask(low), WIDTH, k);
    LowMaskBit(low, k);
    AndBit(cut, LowMask(high + 1), k);
    AndBound(cut, LowMask(high + 1));
    LowMaskBit(high + 1, k);
  }

  /** The bits of one block that stay when a bit range is cleared. */
  function KeepMask(isFirst: bool, low: nat, isLast: bool, high: nat): nat
    requires low < WIDTH && high < WIDTH
  {
    LowMaskIsWord(high + 1, WIDTH);
    var mask := if isFirst then Or(0, LowMask(low)) else 0;
    if isLast && high != 63 then Or(mask, Not(LowMask(high + 1), WIDTH)) else mask
  }

  lemma KeepMaskBit(isFirst: bool, low: nat, isLast: bool, high: nat, k: nat)
    requires low < WIDTH && high < WIDTH && k < WIDTH
    ensures Bit(KeepMask(isFirst, low, isLast, high), k) <==> (isFirst && k < low) || (isLast && high < k)
  {
    LowMaskIsWord(high + 1, WIDTH);
    var mask := if isFirst then Or(0, LowMask(low)) else 0;
    OrBit(0, LowMask(low), k);
    ZeroBit(0, k);
    LowMaskBit(low, k);
    OrBit(mask, Not(LowMask(high + 1), WIDTH), k);
    NotBit(LowMask(high + 1), WIDTH, k);
    LowMaskBit(high + 1, k);
  }

  /** `words[i] &= mask` clears the bits of the range [first, last] in block `i`. */
  lemma ClearBlockBit(words: WordArray, i: nat, first: nat, last: nat, j: nat)
    requires i < |words| && j < WIDTH * |words| && first / WIDTH <= i <= last / WIDTH && first <= last
    ensures var mask := KeepMask(i == first / WIDTH, first % WIDTH, i == last / WIDTH, last % WIDTH);
            BitsOf(words[i := And(words[i], mask)])[j] == (BitsOf(words)[j] && !(j / WIDTH == i && first <= j <= last))
  {
    var mask := KeepMask(i == first / WIDTH, first % WIDTH, i == last / WIDTH, last % WIDTH);
    if j / WIDTH == i {
      AndBit(words[i], mask, j % WIDTH);
      KeepMaskBit(i == first / WIDTH, first % WIDTH, i == last / WIDTH, last % WIDTH, j % WIDTH);
    }
  }
}
