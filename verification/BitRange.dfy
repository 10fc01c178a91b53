/** Ranges of bits in an array of 64-bit blocks (src/xenia/base/bit_range.h). */
module BitRange {
  import opened Arith
  import opened Words

  const SIZE_MAX: nat := 0xFFFF_FFFF_FFFF_FFFF
  const CHAR_MAX: nat := 0x7F

  ghost predicate AllSet(bits: seq<bool>, from: nat, to: nat) {
    forall k :: from <= k < to && k < |bits| ==> bits[k]
  }

  ghost predicate AllUnset(bits: seq<bool>, from: nat, to: nat) {
    forall k :: from <= k < to && k < |bits| ==> !bits[k]
  }

  // ---- one block ------------------------------------------------------------------------------------

  /** A block in which the bits outside the range count as set. */
  function Masked(w: nat, i: nat, first: nat, last: nat): (r: nat)
    requires IsWord(w, WIDTH)
    ensures IsWord(r, WIDTH)
  {
    LowMaskIsWord(first % WIDTH, WIDTH);
    LowMaskIsWord(last % WIDTH + 1, WIDTH);
    NotIsWord(LowMask(last % WIDTH + 1));
    var low := if i == first / WIDTH then Or(w, LowMask(first % WIDTH)) else w;
    OrBound(w, LowMask(first % WIDTH), WIDTH);
    OrBound(low, Not(LowMask(last % WIDTH + 1), WIDTH), WIDTH);
    if i == last / WIDTH && last % WIDTH != WIDTH - 1 then Or(low, Not(LowMask(last % WIDTH + 1), WIDTH)) else low
  }

  lemma NotIsWord(w: nat)
    requires IsWord(w, WIDTH)
    ensures IsWord(Not(w, WIDTH), WIDTH)
  {
  }

  lemma MaskedBit(w: nat, i: nat, first: nat, last: nat, k: nat)
    requires IsWord(w, WIDTH) && first / WIDTH <= i <= last / WIDTH && k < WIDTH
    ensures Bit(Masked(w, i, first, last), k) <==> Bit(w, k) || WIDTH * i + k < first || last < WIDTH * i + k
  {
    hide Or, LowMask, Not, ShiftRight, Pow2;
    LowMaskIsWord(first % WIDTH, WIDTH);
    LowMaskIsWord(last % WIDTH + 1, WIDTH);
    var low := if i == first / WIDTH then Or(w, LowMask(first % WIDTH)) else w;
    OrBit(w, LowMask(first % WIDTH), k);
    LowMaskBit(first % WIDTH, k);
    OrBit(low, Not(LowMask(last % WIDTH + 1), WIDTH), k);
    NotBit(LowMask(last % WIDTH + 1), WIDTH, k);
    LowMaskBit(last % WIDTH + 1, k);
  }

  lemma BitAt(words: WordArray, i: nat, k: nat)
    requires i < |words| && k < WIDTH
    ensures WIDTH * i + k < |BitsOf(words)| && BitsOf(words)[WIDTH * i + k] == Bit(words[i], k)
  {
  }

  // ---- searching --------------------------------------------------------------------------------------

  /** The search before block `i`: all bits are set, or a range of unset bits has begun. */
  ghost predicate Searched(bits: seq<bool>, first: nat, last: nat, i: nat, start: nat) {
    if start == SIZE_MAX then AllSet(bits, first, Min(WIDTH * i, last + 1))
    else first <= start <= last && start < WIDTH * i && AllSet(bits, first, start)
         && AllUnset(bits, start, Min(WIDTH * i, last + 1))
  }

  /** The lowest unset bit of a block, inside the range. */
  method OpenIn(words: WordArray, i: nat, first: nat, last: nat) returns (start: nat)
    requires AreWords(words) && |words| < 0x100_0000_0000_0000 && first <= last < WIDTH * |words|
    requires first / WIDTH <= i <= last / WIDTH && Searched(BitsOf(words), first, last, i, SIZE_MAX)
    ensures start == SIZE_MAX ==> Searched(BitsOf(words), first, last, i + 1, SIZE_MAX)
    ensures start != SIZE_MAX ==>
            first <= start <= last && start / WIDTH == i && AllSet(BitsOf(words), first, start) && !BitsOf(words)[start]
  {
    hide Masked, BitsOf, ShiftRight, Not;
    var block := Masked(words[i], i, first, last);
    NotIsWord(block);
    var scan := BitScanForward(Not(block, WIDTH), WIDTH);
    forall k | 0 <= k < WIDTH
      ensures WIDTH * i + k < |BitsOf(words)|
      ensures Bit(Not(block, WIDTH), k) <==> first <= WIDTH * i + k <= last && !BitsOf(words)[WIDTH * i + k]
    {
      NotBit(block, WIDTH, k);
      MaskedBit(words[i], i, first, last, k);
      BitAt(words, i, k);
    }
    var end := match scan case NoBit => WIDTH case At(bit) => bit;
    NoneBelow(Not(block, WIDTH), scan);
    forall k | first <= k < Min(WIDTH * i + end, last + 1)
      ensures k < |BitsOf(words)| && BitsOf(words)[k]
    {
      if k >= WIDTH * i {
        assert !Bit(Not(block, WIDTH), k - WIDTH * i);
        assert WIDTH * i + (k - WIDTH * i) == k;
      }
    }
    match scan
    case NoBit => return SIZE_MAX;
    case At(bit) => return WIDTH * i + bit;
  }

  lemma NoneBelow(w: nat, scan: ScanResult)
    requires IsWord(w, WIDTH) && scan == BitScanForward(w, WIDTH)
    ensures forall k :: 0 <= k < (match scan case NoBit => WIDTH case At(bit) => bit) ==> !Bit(w, k)
    ensures scan.At? ==> scan.index < WIDTH && Bit(w, scan.index)
  {
    ZeroHasNoBits(w, WIDTH);
  }

  /** The block without the set bits in front of an open range. */
  function FromStart(block: nat, i: nat, start: nat): (r: nat)
    requires IsWord(block, WIDTH)
    ensures IsWord(r, WIDTH)
  {
    LowMaskIsWord(start % WIDTH, WIDTH);
    AndBound(block, Not(LowMask(start % WIDTH), WIDTH));
    if i == start / WIDTH then And(block, Not(LowMask(start % WIDTH), WIDTH)) else block
  }

  lemma FromStartBit(block: nat, i: nat, start: nat, k: nat)
    requires IsWord(block, WIDTH) && start / WIDTH <= i && k < WIDTH
    ensures Bit(FromStart(block, i, start), k) <==> Bit(block, k) && start <= WIDTH * i + k
  {
    hide And, LowMask, Not, ShiftRight, Pow2;
    LowMaskIsWord(start % WIDTH, WIDTH);
    AndBit(block, Not(LowMask(start % WIDTH), WIDTH), k);
    NotBit(LowMask(start % WIDTH), WIDTH, k);
    LowMaskBit(start % WIDTH, k);
  }

  /** The lowest set bit behind the start of an open range, where the end of the whole range counts as
      set. */
  method CloseIn(words: WordArray, i: nat, first: nat, last: nat, start: nat) returns (end: nat)
    requires AreWords(words) && |words| < 0x100_0000_0000_0000 && first <= start <= last < WIDTH * |words|
    requires first / WIDTH <= i <= last / WIDTH && start / WIDTH <= i
    requires !BitsOf(words)[start] && AllUnset(BitsOf(words), start, WIDTH * i)
    ensures end == SIZE_MAX ==> AllUnset(BitsOf(words), start, Min(WIDTH * (i + 1), last + 1))
    ensures end != SIZE_MAX ==>
            start < end <= last + 1 && AllUnset(BitsOf(words), start, end) && (end <= last ==> BitsOf(words)[end])
  {
    hide Masked, BitsOf, ShiftRight, FromStart;
    var block := Masked(words[i], i, first, last);
    var cut := FromStart(block, i, start);
    var scan := BitScanForward(cut, WIDTH);
    forall k | 0 <= k < WIDTH
      ensures WIDTH * i + k < |BitsOf(words)|
      ensures Bit(cut, k) <==> start <= WIDTH * i + k && (last < WIDTH * i + k || BitsOf(words)[WIDTH * i + k])
    {
      FromStartBit(block, i, start, k);
      MaskedBit(words[i], i, first, last, k);
      BitAt(words, i, k);
    }
    var to := match scan case NoBit => WIDTH case At(bit) => bit;
    NoneBelow(cut, scan);
    forall k | start <= k < WIDTH * i + to
      ensures k < |BitsOf(words)| && !BitsOf(words)[k] && k <= last
    {
      if k >= WIDTH * i {
        assert !Bit(cut, k - WIDTH * i);
        assert WIDTH * i + (k - WIDTH * i) == k;
      }
    }
    match scan
    case NoBit => return SIZE_MAX;
    case At(bit) =>
      assert Bit(cut, bit) && WIDTH * i + bit != start;
      ghost var before := WIDTH * i + bit - 1;
      assert before < |BitsOf(words)| && !BitsOf(words)[before];
      return WIDTH * i + bit;
  }

  /** The first maximal run of unset bits within a range. */
  ghost predicate IsFirstRun(bits: seq<bool>, first: nat, length: nat, start: nat, count: nat)
    requires first + length <= |bits|
  {
    if count == 0 then start == first + length && AllSet(bits, first, first + length)
    else
      && first <= start && start + count <= first + length
      && AllSet(bits, first, start) && AllUnset(bits, start, start + count)
      && (start + count < first + length ==> bits[start + count])
  }

  /** `NextUnsetRange` */
  method NextUnsetRange(words: WordArray, first: nat, length: nat) returns (start: nat, count: nat)
    requires AreWords(words) && |words| < 0x100_0000_0000_0000 && first + length <= WIDTH * |words|
    ensures IsFirstRun(BitsOf(words), first, length, start, count)
  {
    hide BitsOf;
    if length == 0 {
      return first, 0;
    }
    var last := first + length - 1;
    ghost var bits := BitsOf(words);
    var rangeStart := SIZE_MAX;
    for i := first / WIDTH to last / WIDTH + 1
      invariant rangeStart == SIZE_MAX ==> Searched(bits, first, last, i, SIZE_MAX)
      invariant rangeStart != SIZE_MAX ==>
                  && first <= rangeStart <= last && rangeStart / WIDTH < i && !bits[rangeStart]
                  && AllSet(bits, first, rangeStart) && AllUnset(bits, rangeStart, Min(WIDTH * i, last + 1))
    {
      if rangeStart == SIZE_MAX {
        rangeStart := OpenIn(words, i, first, last);
        if rangeStart == SIZE_MAX {
          continue;
        }
      }
      var end := CloseIn(words, i, first, last, rangeStart);
      if end != SIZE_MAX {
        return rangeStart, end - rangeStart;
      }
    }
    if rangeStart != SIZE_MAX {
      return rangeStart, last + 1 - rangeStart;
    }
    return first + length, 0;
  }

  /** There is one such run at most. */
  lemma FirstRunIsUnique(bits: seq<bool>, first: nat, length: nat, start: nat, count: nat, start': nat, count': nat)
    requires first + length <= |bits| && IsFirstRun(bits, first, length, start, count)
             && IsFirstRun(bits, first, length, start', count')
    ensures start == start' && count == count'
  {
    if count > 0 {
      assert !bits[start];
    }
    if count' > 0 {
      assert !bits[start'];
    }
    UnsetAt(bits, start', start' + count', start + count);
    UnsetAt(bits, start, start + count, start' + count');
  }

  lemma UnsetAt(bits: seq<bool>, from: nat, to: nat, k: nat)
    ensures AllUnset(bits, from, to) && from <= k < to && k < |bits| ==> !bits[k]
  {
  }

  // ---- setting ------------------------------------------------------------------------------------------

  /** A block of `n` bytes that `memset` filled with `CHAR_MAX`: seven bits of each byte. */
  function Filled(n: nat): nat {
    if n == 0 then 0 else ShiftLeft(Filled(n - 1), 8) + CHAR_MAX
  }

  lemma {:induction false} FilledBit(n: nat, k: nat)
    requires k < 8 * n
    ensures IsWord(Filled(n), 8 * n) && (Bit(Filled(n), k) <==> k % 8 != 7)
    decreases n
  {
    assert Pow2(8) == 256;
    assert LowMask(7) == CHAR_MAX by { assert Pow2(7) == 128; }
    AppendBit(Filled(n - 1), CHAR_MAX, 8, k);
    if n > 1 {
      FilledBit(n - 1, if k < 8 then 0 else k - 8);
    }
    AppendIsWord(Filled(n - 1), CHAR_MAX, 8 * (n - 1), 8);
    if k < 8 {
      LowMaskBit(7, k);
    }
  }

  /** The bits of block `i` that the range covers. */
  function SetMask(i: nat, first: nat, last: nat): (m: nat)
    ensures IsWord(m, WIDTH)
  {
    LowMaskIsWord(first % WIDTH, WIDTH);
    LowMaskIsWord(last % WIDTH + 1, WIDTH);
    LowMaskIsWord(WIDTH, WIDTH);
    var low := if i == first / WIDTH then Not(LowMask(first % WIDTH), WIDTH) else LowMask(WIDTH);
    AndBound(low, LowMask(last % WIDTH + 1));
    NotIsWord(LowMask(first % WIDTH));
    if i == last / WIDTH && last % WIDTH != WIDTH - 1 then And(low, LowMask(last % WIDTH + 1)) else low
  }

  lemma SetMaskBit(i: nat, first: nat, last: nat, k: nat)
    requires first / WIDTH <= i <= last / WIDTH && k < WIDTH
    ensures Bit(SetMask(i, first, last), k) <==> first <= WIDTH * i + k <= last
  {
    hide And, LowMask, Not, ShiftRight, Pow2;
    LowMaskIsWord(first % WIDTH, WIDTH);
    LowMaskIsWord(WIDTH, WIDTH);
    var low := if i == first / WIDTH then Not(LowMask(first % WIDTH), WIDTH) else LowMask(WIDTH);
    AndBit(low, LowMask(last % WIDTH + 1), k);
    NotBit(LowMask(first % WIDTH), WIDTH, k);
    LowMaskBit(first % WIDTH, k);
    LowMaskBit(WIDTH, k);
    LowMaskBit(last % WIDTH + 1, k);
  }

  /** Block `i` after the range was set. */
  function SetBlock(w: nat, i: nat, first: nat, last: nat): nat
    requires IsWord(w, WIDTH)
  {
    if i < first / WIDTH || last / WIDTH < i then w
    else if i == first / WIDTH || i == last / WIDTH then Or(w, SetMask(i, first, last))
    else Filled(8)
  }

  method SetRange(bits: array<nat>, first: nat, length: nat)
    requires AreWords(bits[..]) && first + length <= WIDTH * bits.Length
    modifies bits
    ensures length == 0 ==> bits[..] == old(bits[..])
    ensures length > 0 ==> forall i :: 0 <= i < bits.Length ==>
            bits[i] == SetBlock(old(bits[i]), i, first, first + length - 1)
  {
    hide Or, SetMask;
    if length == 0 {
      return;
    }
    var last := first + length - 1;
    var blockFirst, blockLast := first / WIDTH, last / WIDTH;
    bits[blockFirst] := Or(bits[blockFirst], SetMask(blockFirst, first, last));
    if blockFirst == blockLast {
      return;
    }
    forall i | blockFirst + 1 <= i < blockLast {
      bits[i] := Filled(8);
    }
    bits[blockLast] := Or(bits[blockLast], SetMask(blockLast, first, last));
  }

  /** The blocks after the range was set. */
  function SetBlocks(words: WordArray, first: nat, last: nat): (r: WordArray)
    requires AreWords(words)
    ensures |r| == |words|
  {
    seq(|words|, i requires 0 <= i < |words| => SetBlock(words[i], i, first, last))
  }

  lemma SetBlockBit(words: WordArray, first: nat, last: nat, j: nat)
    requires AreWords(words) && first <= last < WIDTH * |words| && j < WIDTH * |words|
    ensures var inside := first / WIDTH < j / WIDTH < last / WIDTH;
            BitsOf(SetBlocks(words, first, last))[j] == if inside then j % 8 != 7
              else BitsOf(words)[j] || first <= j <= last
  {
    hide Or, SetMask, ShiftRight, Filled;
    var i, k := j / WIDTH, j % WIDTH;
    assert BitsOf(SetBlocks(words, first, last))[j] == Bit(SetBlock(words[i], i, first, last), k);
    if first / WIDTH <= i <= last / WIDTH {
      if i == first / WIDTH || i == last / WIDTH {
        OrBit(words[i], SetMask(i, first, last), k);
        SetMaskBit(i, first, last, k);
      } else {
        FilledBit(8, k);
      }
    }
  }

  /** The range is set, and nothing else changed. */
  ghost predicate SetsExactly(before: seq<bool>, after: seq<bool>, first: nat, last: nat) {
    |after| == |before| && forall j :: 0 <= j < |before| ==> (after[j] <==> before[j] || first <= j <= last)
  }

  /** The range and nothing else is set exactly when it touches two blocks at most: blocks in between
      lose every eighth bit, whatever they were before. */
  lemma SetRangeExactly(words: WordArray, first: nat, last: nat)
    requires AreWords(words) && first <= last < WIDTH * |words|
    ensures SetsExactly(BitsOf(words), BitsOf(SetBlocks(words, first, last)), first, last)
            <==> last / WIDTH <= first / WIDTH + 1
  {
    hide BitsOf, SetBlocks;
    if last / WIDTH <= first / WIDTH + 1 {
      forall j | 0 <= j < WIDTH * |words|
        ensures BitsOf(SetBlocks(words, first, last))[j] <==> BitsOf(words)[j] || first <= j <= last
      {
        SetBlockBit(words, first, last, j);
      }
    } else {
      InteriorBit(first, last);
      SetBlockBit(words, first, last, WIDTH * (first / WIDTH + 1) + 7);
    }
  }

  lemma InteriorBit(first: nat, last: nat)
    requires last / WIDTH > first / WIDTH + 1
    ensures var j := WIDTH * (first / WIDTH + 1) + 7; j / WIDTH == first / WIDTH + 1 && j % 8 == 7 && first <= j <= last
  {
    var q, p := first / WIDTH, last / WIDTH;
    assert WIDTH * q <= first < WIDTH * q + WIDTH && WIDTH * p <= last;
    InBlock(q + 1, 7);
    assert WIDTH * (q + 2) <= WIDTH * p;
  }

  lemma InBlock(q: nat, k: nat)
    requires k < 8
    ensures (WIDTH * q + k) / WIDTH == q && (WIDTH * q + k) % 8 == k
  {
  }
}
