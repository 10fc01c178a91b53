/** `BitStream` (src/xenia/base/bit_stream.cc): a cursor over a byte buffer, read most significant bit
    first. */
module BitStreams {
  import opened Arith
  import opened Words

  const U64: int := 0x1_0000_0000_0000_0000

  type Bytes = seq<nat>

  ghost predicate AreBytes(b: Bytes) {
    forall i :: 0 <= i < |b| ==> b[i] < 0x100
  }

  lemma ByteIsWord(x: nat)
    ensures x < 0x100 <==> IsWord(x, 8)
  {
    assert Pow2(4) == 16;
  }

  /** Bit `k` of a buffer, in reading order. */
  predicate StreamBit(b: Bytes, k: nat)
    requires k / 8 < |b|
  {
    Bit(b[k / 8], 7 - k % 8)
  }

  /** The number that the `n` bits from bit `off` on spell: what a reader of the stream expects. */
  function Field(b: Bytes, off: nat, n: nat): nat
    requires off + n <= 8 * |b|
  {
    if n == 0 then 0 else 2 * Field(b, off, n - 1) + (if StreamBit(b, off + n - 1) then 1 else 0)
  }

  /** A load of `|s|` bytes in big-endian order: the little-endian load of the source followed by
      `byte_swap`. */
  function BigEndian(s: Bytes): nat {
    if s == [] then 0 else ShiftLeft(BigEndian(s[..|s| - 1]), 8) + s[|s| - 1]
  }

  // ---- the machine operations on a field ------------------------------------------------------

  lemma {:induction false} FieldIsWord(b: Bytes, off: nat, n: nat)
    requires off + n <= 8 * |b|
    ensures IsWord(Field(b, off, n), n)
  {
    if n > 0 {
      FieldIsWord(b, off, n - 1);
    }
  }

  lemma {:induction false} FieldBit(b: Bytes, off: nat, n: nat, k: nat)
    requires off + n <= 8 * |b| && k < n
    ensures Bit(Field(b, off, n), k) <==> StreamBit(b, off + n - 1 - k)
    decreases k
  {
    if k > 0 {
      assert Field(b, off, n) / 2 == Field(b, off, n - 1);
      FieldBit(b, off, n - 1, k - 1);
    }
  }

  /** Shifting right drops bits at the end of a field ... */
  lemma {:induction false} FieldShift(b: Bytes, off: nat, n: nat, k: nat)
    requires off + n <= 8 * |b| && k <= n
    ensures ShiftRight(Field(b, off, n), k) == Field(b, off, n - k)
    decreases k
  {
    if k > 0 {
      assert Field(b, off, n) / 2 == Field(b, off, n - 1);
      FieldShift(b, off, n - 1, k - 1);
    }
  }

  /** ... and masking drops bits at its start. */
  lemma FieldMask(b: Bytes, off: nat, skip: nat, n: nat)
    requires off + skip + n <= 8 * |b|
    ensures And(Field(b, off, skip + n), LowMask(n)) == Field(b, off + skip, n)
  {
    var whole, part := Field(b, off, skip + n), Field(b, off + skip, n);
    AndBound(whole, LowMask(n));
    LowMaskIsWord(n, n);
    FieldIsWord(b, off + skip, n);
    forall k | 0 <= k < n
      ensures Bit(And(whole, LowMask(n)), k) <==> Bit(part, k)
    {
      AndBit(whole, LowMask(n), k);
      LowMaskBit(n, k);
      FieldBit(b, off, skip + n, k);
      FieldBit(b, off + skip, n, k);
    }
    SameBits(And(whole, LowMask(n)), part, n);
  }

  lemma {:induction false} BigEndianBit(s: Bytes, k: nat)
    requires AreBytes(s) && k < 8 * |s|
    ensures Bit(BigEndian(s), k) <==> Bit(s[|s| - 1 - k / 8], k % 8)
    ensures IsWord(BigEndian(s), 8 * |s|)
    decreases |s|
  {
    var rest, last := s[..|s| - 1], s[|s| - 1];
    ByteIsWord(last);
    AppendBit(BigEndian(rest), last, 8, k);
    if rest == [] {
      AppendIsWord(BigEndian(rest), last, 0, 8);
    } else {
      BigEndianBit(rest, if k < 8 then 0 else k - 8);
      AppendIsWord(BigEndian(rest), last, 8 * |rest|, 8);
    }
  }

  lemma LoadIsField(b: Bytes, from: nat, n: nat)
    requires AreBytes(b) && 0 < n && from + n <= |b|
    ensures BigEndian(b[from..from + n]) == Field(b, 8 * from, 8 * n)
  {
    hide ShiftRight, Pow2, BigEndian, Field;
    var s := b[from..from + n];
    FieldIsWord(b, 8 * from, 8 * n);
    BigEndianBit(s, 0);
    forall k | 0 <= k < 8 * n
      ensures Bit(BigEndian(s), k) <==> Bit(Field(b, 8 * from, 8 * n), k)
    {
      BigEndianBit(s, k);
      FieldBit(b, 8 * from, 8 * n, k);
      assert s[n - 1 - k / 8] == b[from + n - 1 - k / 8];
    }
    SameBits(BigEndian(s), Field(b, 8 * from, 8 * n), 8 * n);
  }

  /** Load, shift and mask together give the wanted field. */
  lemma PeekIsField(b: Bytes, from: nat, width: nat, rel: nat, n: nat)
    requires AreBytes(b) && 0 < width && from + width <= |b| && rel + n <= 8 * width
    ensures And(ShiftRight(BigEndian(b[from..from + width]), 8 * width - (rel + n)), LowMask(n)) == Field(b,
        8 * from + rel, n)
  {
    hide ShiftRight, And, Field, BigEndian, Pow2;
    LoadIsField(b, from, width);
    FieldShift(b, 8 * from, 8 * width, 8 * width - (rel + n));
    FieldMask(b, 8 * from, rel, n);
  }

  /** The byte at which `Peek` loads its eight bytes: clamped to the last whole word. */
  function LoadByte(offset: nat, size: nat): nat
    requires size >= 64
  {
    Min(offset / 8, (size - 64) / 8)
  }

  /** The loaded word holds the wanted bits, so that the shift count is not negative. */
  predicate InLoadedWord(offset: nat, size: nat, n: nat) {
    size >= 64 && offset - 8 * LoadByte(offset, size) + n <= 64
  }

  /** For up to 57 bits inside the stream that fails only at the tail of a stream whose size is not
      a whole number of bytes, for bits of the last, partial byte. */
  lemma InLoadedWordExactly(offset: nat, size: nat, n: nat)
    requires size >= 64 && n <= 57 && offset + n <= size
    ensures InLoadedWord(offset, size, n) <==> !(offset / 8 > (size - 64) / 8 && offset + n > size / 8 * 8)
  {
  }

  // ---- copying ------------------------------------------------------------------------------

  /** A copy from bit `rel` of byte `base` that ends `last` bits into the `full`-th byte after it. */
  datatype Span = Span(base: nat, rel: nat, full: nat, last: nat) {
    predicate Valid() {
      rel < 8 && last < 8 && (rel > 0 ==> full > 0)
    }
  }

  /** The span of a copy of `n` bits from bit `off` on. */
  function SpanOf(off: nat, n: nat): (s: Span)
    ensures off == 8 * s.base + s.rel && s.rel == off % 8 && s.rel + n == 8 * s.full + s.last && s.last < 8
    ensures (s.rel > 0 ==> n >= 8 - s.rel) ==> s.Valid()
  {
    Span(off / 8, off % 8, (off % 8 + n) / 8, (off % 8 + n) % 8)
  }

  /** Bit `8 * i + r` of the destination after a copy over `d`. Full bytes are replaced; in the first
      and the last byte the new bits are merged into what the clear mask of the source leaves of the
      old byte. */
  predicate CopiedBit(d: Bytes, b: Bytes, s: Span, i: nat, r: nat)
    requires i < |d| && r < 8 && s.Valid() && 8 * (s.base + s.full) + s.last <= 8 * |b|
  {
    var copied := s.rel <= 8 * i + r < 8 * s.full + s.last && StreamBit(b, 8 * s.base + (8 * i + r));
    if s.rel > 0 && i == 0 then copied || (Bit(d[i], 7 - r) && 7 - r >= s.rel)
    else if i < s.full then copied
    else if i == s.full && s.last > 0 then copied || (Bit(d[i], 7 - r) && 7 - r < s.last)
    else Bit(d[i], 7 - r)
  }

  /** What a merge would leave there: the stream inside the copy, and the old bit outside of it. */
  predicate MergedBit(d: Bytes, b: Bytes, s: Span, i: nat, r: nat)
    requires i < |d| && r < 8 && s.Valid() && 8 * (s.base + s.full) + s.last <= 8 * |b|
  {
    if s.rel <= 8 * i + r < 8 * s.full + s.last then StreamBit(b, 8 * s.base + (8 * i + r)) else Bit(d[i], 7 - r)
  }

  /** An old bit that does no harm. The masks of the source are mirrored: of `k` bits at the start of the
      first byte that must stay it clears the last `k`, and it keeps `k` bits at the end of the last byte,
      of which the first `k` are written. So a bit that is set must be outside of the copy and kept, or
      inside and either cleared or set in the stream too. */
  predicate Harmless(d: Bytes, b: Bytes, s: Span, i: nat, r: nat)
    requires i < |d| && r < 8 && s.Valid() && 8 * (s.base + s.full) + s.last <= 8 * |b|
  {
    Bit(d[i], 7 - r) ==>
      && (s.rel > 0 && i == 0 ==>
            if r < s.rel then 7 - r >= s.rel else 7 - r < s.rel || StreamBit(b, 8 * s.base + (8 * i + r)))
      && (s.last > 0 && i == s.full ==>
            if r >= s.last then 7 - r < s.last else 7 - r >= s.last || StreamBit(b, 8 * s.base + (8 * i + r)))
  }

  /** The copy merges its bits into the destination exactly when every old bit is harmless. */
  lemma CopyMergesExactly(d: Bytes, b: Bytes, s: Span)
    requires s.Valid() && 8 * (s.base + s.full) + s.last <= 8 * |b|
    ensures (forall i, r :: 0 <= i < |d| && 0 <= r < 8 ==> (CopiedBit(d, b, s, i, r) <==> MergedBit(d, b, s, i, r)))
            <==> forall i, r :: 0 <= i < |d| && 0 <= r < 8 ==> Harmless(d, b, s, i, r)
  {
    hide Bit, StreamBit;
    forall i, r | 0 <= i < |d| && 0 <= r < 8
      ensures (CopiedBit(d, b, s, i, r) <==> MergedBit(d, b, s, i, r)) <==> Harmless(d, b, s, i, r)
    {
    }
  }

  /** Three copies out of a stream of zeros that do not merge. One bit over 0x40: the bit behind it is
      lost. Three bits behind the first five over 0x08: a bit in front of them is lost. Seven bits behind
      the first one over 0x40: a bit that the copy should have cleared stays. */
  lemma CopyDoesNotMerge(b: Bytes)
    requires |b| == 8 && forall i :: 0 <= i < 8 ==> b[i] == 0
    ensures MergedBit([0x40], b, SpanOf(0, 1), 0, 1) && !CopiedBit([0x40], b, SpanOf(0, 1), 0, 1)
    ensures MergedBit([0x08], b, SpanOf(5, 3), 0, 4) && !CopiedBit([0x08], b, SpanOf(5, 3), 0, 4)
    ensures !MergedBit([0x40], b, SpanOf(1, 7), 0, 1) && CopiedBit([0x40], b, SpanOf(1, 7), 0, 1)
  {
    assert Bit(0x40, 6) && Bit(0x08, 3);
    ZeroBit(0, 6);
  }

  /** Into a destination of zeros the copied bits land at position `off % 8`, and no other bit is
      set. */
  lemma CopiedIntoZero(d: Bytes, b: Bytes, off: nat, n: nat, p: nat)
    requires p < 8 * |d| && off + n <= 8 * |b| && forall i :: 0 <= i < |d| ==> d[i] == 0
    requires SpanOf(off, n).Valid()
    ensures CopiedBit(d, b, SpanOf(off, n), p / 8, p % 8)
            <==> off % 8 <= p < off % 8 + n && StreamBit(b, off - off % 8 + p)
  {
    ZeroBit(d[p / 8], 7 - p % 8);
  }

  /** The first, partial byte: `(old & ~((1 << rel) - 1)) | bits`. */
  function FirstByte(old_: nat, bits: nat, rel: nat): nat
    requires rel < 8
  {
    LowMaskIsWord(rel, 8);
    Or(And(old_, Not(LowMask(rel), 8)), bits)
  }

  lemma FirstByteBit(old_: nat, b: Bytes, off: nat, rel: nat, k: nat)
    requires IsWord(old_, 8) && 0 < rel < 8 && rel <= off && off + 8 - rel <= 8 * |b| && k < 8
    ensures var byte := FirstByte(old_, Field(b, off, 8 - rel), rel);
            && IsWord(byte, 8)
            && (Bit(byte, k) <==> (Bit(old_, k) && k >= rel) || (k < 8 - rel && StreamBit(b, off - rel + (7 - k))))
  {
    var bits := Field(b, off, 8 - rel);
    FieldIsWord(b, off, 8 - rel);
    MergedFirst(old_, bits, rel, k);
    if k < 8 - rel {
      FieldBit(b, off, 8 - rel, k);
    } else {
      HighBitClear(bits, 8 - rel, k);
    }
  }

  lemma MergedFirst(old_: nat, bits: nat, rel: nat, k: nat)
    requires IsWord(old_, 8) && 0 < rel < 8 && k < 8 && IsWord(bits, 8 - rel)
    ensures IsWord(FirstByte(old_, bits, rel), 8)
    ensures Bit(FirstByte(old_, bits, rel), k) <==> (Bit(old_, k) && k >= rel) || Bit(bits, k)
  {
    LowMaskIsWord(rel, 8);
    var kept := And(old_, Not(LowMask(rel), 8));
    AndBound(old_, Not(LowMask(rel), 8));
    WordWidens(bits, 8 - rel, 8);
    OrBound(kept, bits, 8);
    OrBit(kept, bits, k);
    AndBit(old_, Not(LowMask(rel), 8), k);
    NotBit(LowMask(rel), 8, k);
    LowMaskBit(rel, k);
  }

  /** The last, partial byte: `(old & ((1 << m) - 1)) | (bits << (8 - m))`. */
  function LastByte(old_: nat, bits: nat, m: nat): nat
    requires m < 8
  {
    Or(And(old_, LowMask(m)), ShiftLeft(bits, 8 - m))
  }

  lemma LastByteBit(old_: nat, b: Bytes, off: nat, m: nat, k: nat)
    requires IsWord(old_, 8) && 0 < m < 8 && off + m <= 8 * |b| && k < 8
    ensures var byte := LastByte(old_, Field(b, off, m), m);
            && IsWord(byte, 8)
            && (Bit(byte, k) <==> (Bit(old_, k) && k < m) || (8 - m <= k && StreamBit(b, off + (7 - k))))
  {
    hide ShiftRight, And, Or, Field;
    var bits := Field(b, off, m);
    var kept, moved := And(old_, LowMask(m)), ShiftLeft(bits, 8 - m);
    Pow2Positive(8 - m);
    ZeroBit(0, k);
    FieldIsWord(b, off, m);
    AppendBit(bits, 0, 8 - m, k);
    AppendIsWord(bits, 0, m, 8 - m);
    AndBound(old_, LowMask(m));
    OrBound(kept, moved, 8);
    OrBit(kept, moved, k);
    AndBit(old_, LowMask(m), k);
    LowMaskBit(m, k);
    if 8 - m <= k {
      FieldBit(b, off, m, k - (8 - m));
    }
  }

  lemma WordWidens(w: nat, m: nat, n: nat)
    requires IsWord(w, m) && m <= n
    ensures IsWord(w, n)
  {
    if m < n {
      Pow2Smaller(m, n);
    }
  }

  lemma {:induction false} HighBitClear(w: nat, n: nat, k: nat)
    requires IsWord(w, n) && n <= k
    ensures !Bit(w, k)
    decreases n
  {
    if n == 0 {
      ZeroBit(w, k);
    } else {
      HighBitClear(w / 2, n - 1, k - 1);
    }
  }

  /** Byte `i` of the destination after the copy; `first` and `last` are the two merged bytes. */
  function Assembled(d: Bytes, b: Bytes, s: Span, first: nat, last: nat, i: nat): nat
    requires i < |d| && s.Valid() && s.base + s.full <= |b|
  {
    if s.rel > 0 && i == 0 then first
    else if i < s.full then b[s.base + i]
    else if i == s.full && s.last > 0 then last
    else d[i]
  }

  /** The merged bytes of a copy over `d`. */
  ghost predicate Merged(d: Bytes, b: Bytes, s: Span, first: nat, last: nat)
    requires s.Valid() && 8 * (s.base + s.full) + s.last <= 8 * |b|
  {
    && (s.rel > 0 && 0 < |d| ==> first == FirstByte(d[0], Field(b, 8 * s.base + s.rel, 8 - s.rel), s.rel))
    && (s.last > 0 && s.full < |d| ==> last == LastByte(d[s.full], Field(b, 8 * (s.base + s.full), s.last), s.last))
  }

  lemma AssembledBits(d: Bytes, b: Bytes, s: Span, first: nat, last: nat, i: nat, r: nat)
    requires AreBytes(d) && AreBytes(b) && i < |d| && r < 8 && s.Valid() && 8 * (s.base + s.full) + s.last <= 8 * |b|
    requires Merged(d, b, s, first, last)
    ensures Assembled(d, b, s, first, last, i) < 0x100
    ensures Bit(Assembled(d, b, s, first, last, i), 7 - r) <==> CopiedBit(d, b, s, i, r)
  {
    hide FirstByte, LastByte, Field, ShiftRight, Pow2;
    ByteIsWord(d[i]);
    ByteIsWord(Assembled(d, b, s, first, last, i));
    if s.rel > 0 && i == 0 {
      AssembledFirst(d[0], b, s, r);
    } else if i < s.full {
      WholeByteBit(b, s.base + i, r);
      assert 8 * (s.base + i) + r == 8 * s.base + (8 * i + r);
    } else if i == s.full && s.last > 0 {
      AssembledLast(d[i], b, s, r);
    }
  }

  lemma AssembledFirst(old_: nat, b: Bytes, s: Span, r: nat)
    requires IsWord(old_, 8) && r < 8 && s.Valid() && s.rel > 0 && 8 * (s.base + s.full) + s.last <= 8 * |b|
    ensures var byte := FirstByte(old_, Field(b, 8 * s.base + s.rel, 8 - s.rel), s.rel);
            && IsWord(byte, 8)
            && (Bit(byte, 7 - r)
                <==> (s.rel <= r && StreamBit(b, 8 * s.base + r)) || (Bit(old_, 7 - r) && 7 - r >= s.rel))
  {
    hide FirstByte, Field, ShiftRight, Pow2;
    FirstByteBit(old_, b, 8 * s.base + s.rel, s.rel, 7 - r);
    var p := 8 * s.base + s.rel - s.rel + (7 - (7 - r));
    assert p == 8 * s.base + r;
  }

  lemma AssembledLast(old_: nat, b: Bytes, s: Span, r: nat)
    requires IsWord(old_, 8) && r < 8 && s.Valid() && s.last > 0 && 8 * (s.base + s.full) + s.last <= 8 * |b|
    ensures var byte := LastByte(old_, Field(b, 8 * (s.base + s.full), s.last), s.last);
            && IsWord(byte, 8)
            && (Bit(byte, 7 - r)
                <==> (r < s.last && StreamBit(b, 8 * s.base + (8 * s.full + r)))
                     || (Bit(old_, 7 - r) && 7 - r < s.last))
  {
    hide LastByte, Field, ShiftRight, Pow2;
    LastByteBit(old_, b, 8 * (s.base + s.full), s.last, 7 - r);
    var p := 8 * (s.base + s.full) + (7 - (7 - r));
    assert p == 8 * s.base + (8 * s.full + r);
  }

  /** The three steps of the copy, one after the other. */
  lemma AssembledInSteps(d: Bytes, e1: Bytes, e2: Bytes, e3: Bytes, b: Bytes, s: Span, first: nat, last: nat)
    requires s.Valid() && s.base + s.full <= |b| && |d| == |e1| == |e2| == |e3|
    requires e1 == if s.rel > 0 && 0 < |d| then d[0 := first] else d
    requires forall i :: 0 <= i < |d| ==> e2[i] == if (if s.rel > 0 then 1 else 0) <= i < s.full then b[s.base + i]
             else e1[i]
    requires e3 == if s.last > 0 && s.full < |d| then e2[s.full := last] else e2
    ensures forall i :: 0 <= i < |d| ==> e3[i] == Assembled(d, b, s, first, last, i)
  {
  }

  /** How the bits split into a first part, whole bytes and a last part. */
  lemma CopyParts(rel: nat, n: nat)
    requires rel < 8 && (rel > 0 ==> n >= 8 - rel)
    ensures rel == 0 ==> n / 8 == (rel + n) / 8 && n % 8 == (rel + n) % 8
    ensures rel > 0 ==> (n - (8 - rel)) / 8 == (rel + n) / 8 - 1 && (n - (8 - rel)) % 8 == (rel + n) % 8
  {
  }

  /** The count of bits left wraps exactly when the copy ends in front of the first byte border, and then
      there are not that many bytes. */
  lemma CountWraps(base: nat, rel: nat, n: nat, size: nat)
    requires 0 < rel < 8 && 8 * base + rel + n <= size < U64 / 2
    ensures var left := (n - (8 - rel)) % U64;
            && (n >= 8 - rel ==> left == n - (8 - rel))
            && (base + 1 + left / 8 <= size / 8 <==> n >= 8 - rel)
  {
  }

  lemma WholeByteBit(b: Bytes, i: nat, r: nat)
    requires i < |b| && r < 8
    ensures StreamBit(b, 8 * i + r) == Bit(b[i], 7 - r)
  {
  }

  class BitStream {
    const buffer: Bytes
    const sizeBits: nat
    var offsetBits: nat

    ghost predicate Valid()
      reads this
    {
      AreBytes(buffer) && sizeBits <= 8 * |buffer| && sizeBits < U64 / 2 && offsetBits <= sizeBits
    }

    constructor (buffer: Bytes, sizeBits: nat)
      requires AreBytes(buffer) && sizeBits <= 8 * |buffer| && sizeBits < U64 / 2
      ensures this.buffer == buffer && this.sizeBits == sizeBits && offsetBits == 0 && Valid()
    {
      this.buffer, this.sizeBits, offsetBits := buffer, sizeBits, 0;
    }

    /** Offsets past the end are clamped. */
    method SetOffset(offset: nat)
      requires Valid()
      modifies this
      ensures Valid() && offsetBits == Min(offset, sizeBits)
    {
      offsetBits := Min(offset, sizeBits);
    }

    /** The sum wraps on 64 bits, so that a negative step goes back. */
    method Advance(n: nat)
      requires Valid() && n < U64
      modifies this
      ensures Valid() && offsetBits == Min((old(offsetBits) + n) % U64, sizeBits)
      ensures old(offsetBits) + n <= sizeBits ==> offsetBits == old(offsetBits) + n
    {
      SetOffset((offsetBits + n) % U64);
    }

    function BitsRemaining(): nat
      requires Valid()
      reads this
    {
      sizeBits - offsetBits
    }

    method Peek(n: nat) returns (bits: nat)
      requires Valid() && 0 < n <= 57 && offsetBits + n <= sizeBits && InLoadedWord(offsetBits, sizeBits, n)
      ensures bits == Field(buffer, offsetBits, n)
    {
      var offsetBytes := LoadByte(offsetBits, sizeBits);
      var rel := offsetBits - 8 * offsetBytes;
      bits := BigEndian(buffer[offsetBytes..offsetBytes + 8]);
      bits := ShiftRight(bits, 64 - (rel + n));
      bits := And(bits, LowMask(n));
      PeekIsField(buffer, offsetBytes, 8, rel, n);
    }

    method Read(n: nat) returns (bits: nat)
      requires Valid() && 0 < n <= 57 && offsetBits + n <= sizeBits && InLoadedWord(offsetBits, sizeBits, n)
      modifies this
      ensures Valid() && offsetBits == old(offsetBits) + n
      ensures bits == Field(buffer, old(offsetBits), n)
    {
      bits := Peek(n);
      Advance(n);
    }

    /** `Copy`, on streams of whole bytes. `inside` is false for a copy that starts inside a byte and does
        not reach the end of it: the count of bits left wraps there, and the `memcpy` that follows would
        run past the end of the buffer. */
    method Copy(dest: array<nat>, n: nat) returns (at: nat, inside: bool)
      requires Valid() && sizeBits % 8 == 0 && sizeBits >= 64 && offsetBits + n <= sizeBits
      requires AreBytes(dest[..]) && offsetBits % 8 + n <= 8 * dest.Length
      modifies this, dest
      ensures Valid() && at == old(offsetBits) % 8
      ensures inside <==> SpanOf(old(offsetBits), n).Valid()
      ensures inside ==> offsetBits == old(offsetBits) + n && AreBytes(dest[..])
      ensures inside ==> forall i, r :: 0 <= i < dest.Length && 0 <= r < 8 ==>
                (Bit(dest[i], 7 - r) <==> CopiedBit(old(dest[..]), buffer, SpanOf(old(offsetBits), n), i, r))
    {
      ghost var d, s := dest[..], SpanOf(offsetBits, n);
      ghost var first, last;
      at, inside, first, last := CopyBytes(dest, n);
      if !inside {
        return;
      }
      forall i, r | 0 <= i < dest.Length && 0 <= r < 8
        ensures dest[i] < 0x100
        ensures Bit(dest[i], 7 - r) <==> CopiedBit(d, buffer, s, i, r)
      {
        AssembledBits(d, buffer, s, first, last, i, r);
      }
      forall i | 0 <= i < dest.Length
        ensures dest[i] < 0x100
      {
        AssembledBits(d, buffer, s, first, last, i, 0);
      }
    }

    /** The `memcpy` in the middle: destination byte `i` gets byte `base + i` of the buffer. */
    method CopyWhole(dest: array<nat>, out: nat, base: nat, left: nat)
      requires Valid() && out + left / 8 <= dest.Length && offsetBits == 8 * (base + out)
               && offsetBits + left <= sizeBits
      modifies this, dest
      ensures Valid() && offsetBits == old(offsetBits) + left / 8 * 8
      ensures forall i :: 0 <= i < dest.Length ==>
                dest[i] == if out <= i < out + left / 8 then buffer[base + i] else old(dest[i])
    {
      if left >= 8 {
        forall i | out <= i < out + left / 8 {
          dest[i] := buffer[base + i];
        }
        Advance(left / 8 * 8);
      }
    }

    method CopyBytes(dest: array<nat>, n: nat)
        returns (rel: nat, inside: bool, ghost first: nat, ghost last: nat)
      requires Valid() && sizeBits % 8 == 0 && sizeBits >= 64 && offsetBits + n <= sizeBits
      requires offsetBits % 8 + n <= 8 * dest.Length
      modifies this, dest
      ensures Valid() && rel == old(offsetBits) % 8
      ensures inside <==> SpanOf(old(offsetBits), n).Valid()
      ensures inside ==> offsetBits == old(offsetBits) + n
      ensures inside ==> Merged(old(dest[..]), buffer, SpanOf(old(offsetBits), n), first, last)
      ensures inside ==> forall i :: 0 <= i < dest.Length ==>
                dest[i] == Assembled(old(dest[..]), buffer, SpanOf(old(offsetBits), n), first, last, i)
    {
      hide FirstByte, LastByte, Field;
      ghost var d, s := dest[..], SpanOf(offsetBits, n);
      var offsetBytes := offsetBits / 8;
      rel := offsetBits % 8;
      var bitsLeft, out := n, 0;
      first := CopyHead(dest, rel);
      if rel > 0 {
        CountWraps(offsetBytes, rel, n, sizeBits);
        bitsLeft := (bitsLeft - (8 - rel)) % U64;
        out := out + 1;
      }
      inside, last := offsetBytes + out + bitsLeft / 8 <= sizeBits / 8, 0;
      if !inside {
        return;
      }
      CopyParts(rel, n);
      ghost var e1 := dest[..];
      CopyWhole(dest, out, offsetBytes, bitsLeft);
      out := out + bitsLeft / 8;
      bitsLeft := bitsLeft % 8;
      ghost var e2 := dest[..];
      assert bitsLeft == s.last && out == s.full && offsetBits == 8 * (s.base + s.full);
      last := CopyTail(dest, out, bitsLeft);
      AssembledInSteps(d, e1, e2, dest[..], buffer, s, first, last);
    }

    /** The first, partial byte. */
    method CopyHead(dest: array<nat>, rel: nat) returns (ghost first: nat)
      requires Valid() && sizeBits % 8 == 0 && sizeBits >= 64 && rel == offsetBits % 8
      requires rel > 0 ==> dest.Length > 0 && offsetBits + (8 - rel) <= sizeBits
      modifies this, dest
      ensures Valid() && offsetBits == old(offsetBits) + (if rel > 0 then 8 - rel else 0)
      ensures rel > 0 ==> first == FirstByte(old(dest[0]), Field(buffer, old(offsetBits), 8 - rel), rel)
      ensures dest[..] == if rel > 0 then old(dest[..])[0 := first] else old(dest[..])
    {
      first := 0;
      if rel > 0 {
        var bits := Peek(8 - rel);
        LowMaskIsWord(rel, 8);
        var clearMask := Not(LowMask(rel), 8);
        first := FirstByte(dest[0], bits, rel);
        dest[0] := And(dest[0], clearMask);
        dest[0] := Or(dest[0], bits);
        Advance(8 - rel);
      }
    }

    /** The last, partial byte. */
    method CopyTail(dest: array<nat>, out: nat, left: nat) returns (ghost last: nat)
      requires Valid() && sizeBits % 8 == 0 && sizeBits >= 64 && left < 8 && offsetBits % 8 == 0
      requires left > 0 ==> out < dest.Length && offsetBits + left <= sizeBits
      modifies this, dest
      ensures Valid() && offsetBits == old(offsetBits) + left
      ensures left > 0 ==> last == LastByte(old(dest[out]), Field(buffer, old(offsetBits), left), left)
      ensures dest[..] == if left > 0 then old(dest[..])[out := last] else old(dest[..])
    {
      last := 0;
      if left > 0 {
        var bits := Peek(left);
        bits := ShiftLeft(bits, 8 - left);
        last := Or(And(dest[out], LowMask(left)), bits);
        dest[out] := And(dest[out], LowMask(left));
        dest[out] := Or(dest[out], bits);
        Advance(left);
      }
    }
  }
}
