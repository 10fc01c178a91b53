/** The log ring (src/xenia/base/logging.cc): lines as bytes in a ring of 256-byte blocks, and what the
    writer thread reads back from it. */
module LogRing {
  import opened Arith
  import opened Hexadecimal
  import opened LittleEndians
  import opened RingBuffers

  const BLOCK_SIZE: nat := 256
  const BLOCK_COUNT: nat := 32768
  const RING_SIZE: nat := 8388608
  const HEADER_SIZE: nat := 16
  const NEWLINE: nat := 10

  /** A log line; a prefix of 0 stands for none. */
  datatype Line = Line(text: seq<nat>, thread: nat, prefix: nat, terminate: bool)

  ghost predicate IsLine(l: Line) {
    && |l.text| < 0x1_0000_0000_0000_0000 && l.thread < 0x1_0000_0000 && l.prefix < 0x100
    && forall i :: 0 <= i < |l.text| ==> l.text[i] < 0x100
  }

  function BlockOffset(sequence: nat): (offset: nat)
    ensures offset + BLOCK_SIZE <= RING_SIZE && offset == BLOCK_SIZE * sequence % RING_SIZE
  {
    sequence % BLOCK_COUNT * BLOCK_SIZE
  }

  function BlockCount(byteSize: nat): (n: nat)
    ensures byteSize <= BLOCK_SIZE * n < byteSize + BLOCK_SIZE
  {
    (byteSize + (BLOCK_SIZE - 1)) / BLOCK_SIZE
  }

  // ---- a line as bytes ----------------------------------------------------------------------------

  /** `LogLine`: length, thread, two bytes of padding, the terminate flag and the prefix. */
  function Header(l: Line): (b: seq<nat>)
    ensures |b| == HEADER_SIZE
  {
    LittleEndian(|l.text|, 8) + LittleEndian(l.thread, 4) + [0, 0, if l.terminate then 1 else 0, l.prefix]
  }

  function Encoded(l: Line): (b: seq<nat>)
    ensures |b| == HEADER_SIZE + |l.text|
  {
    Header(l) + l.text
  }

  function BlocksOf(l: Line): (n: nat)
    ensures 0 < n && HEADER_SIZE + |l.text| <= BLOCK_SIZE * n
  {
    BlockCount(HEADER_SIZE + |l.text|)
  }

  datatype HeaderFields = HeaderFields(length: nat, thread: nat, terminate: bool, prefix: nat)

  function ReadHeader(b: seq<nat>): HeaderFields
    requires |b| == HEADER_SIZE
  {
    HeaderFields(FromLittleEndian(b[..8]), FromLittleEndian(b[8..12]), b[14] != 0, b[15])
  }

  lemma HeaderRoundTrip(l: Line)
    requires IsLine(l)
    ensures ReadHeader(Header(l)) == HeaderFields(|l.text|, l.thread, l.terminate, l.prefix)
  {
    var b := Header(l);
    assert b[..8] == LittleEndian(|l.text|, 8) && b[8..12] == LittleEndian(l.thread, 4);
    PowersOf256();
    LittleEndianRoundTrip(|l.text|, 8);
    LittleEndianRoundTrip(l.thread, 4);
  }

  // ---- bytes in the ring ----------------------------------------------------------------------------

  /** Byte `a` of the endless sequence of blocks lies here. */
  function Place(a: nat): (p: nat)
    ensures p < RING_SIZE
  {
    a % RING_SIZE
  }

  lemma PlaceWraps(a: nat, j: nat)
    requires j <= RING_SIZE
    ensures Wrap(Place(a), j, RING_SIZE) == Place(a + j)
  {
  }

  ghost predicate IsRing(ring: seq<nat>) {
    |ring| == RING_SIZE
  }

  /** The ring holds `bytes` from byte `a` on. */
  ghost predicate Holds(ring: seq<nat>, a: nat, bytes: seq<nat>) {
    IsRing(ring) && forall j :: 0 <= j < |bytes| ==> ring[Place(a + j)] == bytes[j]
  }

  /** `RingBuffer::Write` at byte `a`. */
  function Put(ring: seq<nat>, a: nat, bytes: seq<nat>): (r: seq<nat>)
    requires |ring| == RING_SIZE && |bytes| <= RING_SIZE
    ensures |r| == RING_SIZE
  {
    Overwritten(ring, Place(a), bytes)
  }

  lemma PutHolds(ring: seq<nat>, a: nat, bytes: seq<nat>)
    requires |ring| == RING_SIZE && |bytes| <= RING_SIZE
    ensures Holds(Put(ring, a, bytes), a, bytes)
  {
    var r := Put(ring, a, bytes);
    forall j | 0 <= j < |bytes|
      ensures r[Place(a + j)] == bytes[j]
    {
      PlaceWraps(a, j);
    }
  }

  /** A write leaves alone what lies within the same ring's length but outside it. */
  lemma PutKeeps(ring: seq<nat>, a: nat, bytes: seq<nat>, b: nat, other: seq<nat>)
    requires |bytes| <= RING_SIZE && Holds(ring, b, other)
    requires (a + |bytes| <= b && b + |other| <= a + RING_SIZE) || (b + |other| <= a && a + |bytes| <= b + RING_SIZE)
    ensures Holds(Put(ring, a, bytes), b, other)
  {
    var r := Put(ring, a, bytes);
    forall j | 0 <= j < |other|
      ensures r[Place(b + j)] == other[j]
    {
      OutsideWrite(a, |bytes|, b + j);
    }
  }

  lemma OutsideWrite(a: nat, n: nat, b: nat)
    requires n <= RING_SIZE && ((a + n <= b < a + RING_SIZE) || (b < a && a + n <= b + RING_SIZE))
    ensures Distance(Place(b), Place(a), RING_SIZE) >= n
  {
  }

  lemma HoldsBoth(ring: seq<nat>, a: nat, x: seq<nat>, y: seq<nat>)
    requires Holds(ring, a, x) && Holds(ring, a + |x|, y)
    ensures Holds(ring, a, x + y)
  {
    hide Place;
    var both := x + y;
    forall j | 0 <= j < |both|
      ensures ring[Place(a + j)] == both[j]
    {
      if j >= |x| {
        HoldsAt(ring, a + |x|, y, j - |x|);
        assert a + |x| + (j - |x|) == a + j;
      }
    }
  }

  lemma HoldsAt(ring: seq<nat>, a: nat, bytes: seq<nat>, j: nat)
    requires Holds(ring, a, bytes) && j < |bytes|
    ensures ring[Place(a + j)] == bytes[j]
  {
  }

  /** Writing the next part of some bytes. */
  lemma PutMore(ring: seq<nat>, a: nat, bytes: seq<nat>, k: nat, n: nat)
    requires k + n <= |bytes| <= RING_SIZE && Holds(ring, a, bytes[..k])
    ensures Holds(Put(ring, a + k, bytes[k..k + n]), a, bytes[..k + n])
  {
    hide Put, Holds;
    PutKeeps(ring, a + k, bytes[k..k + n], a, bytes[..k]);
    HoldsIsRing(ring, a, bytes[..k]);
    PutHolds(ring, a + k, bytes[k..k + n]);
    HoldsBoth(Put(ring, a + k, bytes[k..k + n]), a, bytes[..k], bytes[k..k + n]);
    assert bytes[..k] + bytes[k..k + n] == bytes[..k + n];
  }

  lemma HoldsIsRing(ring: seq<nat>, a: nat, bytes: seq<nat>)
    requires Holds(ring, a, bytes)
    ensures |ring| == RING_SIZE
  {
  }

  // ---- what the writer thread reads -------------------------------------------------------------------

  /** `RingBuffer::BeginRead` of a line's text: one part, or two when it reaches the end of the ring.
      A text that ends exactly there has an empty second part. */
  datatype Range = One(first: seq<nat>) | Two(first: seq<nat>, second: seq<nat>)

  function BeginRead(ring: seq<nat>, offset: nat, count: nat): (r: Range)
    requires |ring| == RING_SIZE && offset < RING_SIZE && 0 < count <= RING_SIZE
  {
    if offset + count < RING_SIZE then One(ring[offset..offset + count])
    else Two(ring[offset..], ring[..offset + count - RING_SIZE])
  }

  /** The character that decides about the newline: of an empty second part it is the byte in front of
      the ring, `stray`. */
  function LastChar(r: Range, stray: nat): nat
    requires r.first != []
  {
    match r
    case One(first) => first[|first| - 1]
    case Two(_, second) => if second == [] then stray else second[|second| - 1]
  }

  /** Prefix character, `"> "`, thread in eight digits and a space. */
  function Prefix(prefix: nat, thread: nat): seq<nat> {
    if prefix == 0 then [] else [prefix, 62, 32] + Hex(thread, 8) + [32]
  }

  /** A line with a prefix character begins with it, "> ", the thread in eight hexadecimal digits, and a
      space. */
  lemma PrefixSpells(prefix: nat, thread: nat)
    requires 0 < prefix && thread < 0x1_0000_0000
    ensures var p := Prefix(prefix, thread);
            && |p| == 12 && p[0] == prefix && p[1] == '>' as nat && p[2] == ' ' as nat && p[11] == ' ' as nat
            && Spelled(p[3..11]) == thread && forall i :: 3 <= i < 11 ==> DigitValue(p[i]) < 16
    ensures Prefix(0, thread) == []
  {
    var p := Prefix(prefix, thread);
    assert Pow16(8) == 0x1_0000_0000 by {
      assert Pow16(4) == 0x1_0000;
      assert Pow16(6) == 0x100_0000;
    }
    HexSpells(thread, 8);
    assert p[3..11] == Hex(thread, 8);
    assert forall i :: 3 <= i < 11 ==> p[i] == Hex(thread, 8)[i - 3];
  }

  /** Where the fields of the header lie. */
  lemma HeaderBytes(l: Line, i: nat)
    ensures i < 8 ==> Pow256(i) > 0 && Header(l)[i] == |l.text| / Pow256(i) % 256
    ensures i < 4 ==> Pow256(i) > 0 && Header(l)[8 + i] == l.thread / Pow256(i) % 256
    ensures Header(l)[12] == 0 && Header(l)[13] == 0 && Header(l)[14] == (if l.terminate then 1 else 0)
            && Header(l)[15] == l.prefix
  {
    if i < 8 {
      LittleEndianByte(|l.text|, 8, i);
    }
    if i < 4 {
      LittleEndianByte(l.thread, 4, i);
      assert Header(l)[8 + i] == LittleEndian(l.thread, 4)[i];
    }
  }

  /** A rendered line is its prefix and its text, and a newline when the text has none at its end. */
  lemma RenderedExactly(l: Line)
    ensures var p, out := Prefix(l.prefix, l.thread), Rendered(l);
            && p + l.text <= out && |out| <= |p| + |l.text| + 1 && out[|out| - 1] == 10
            && (|out| == |p| + |l.text| <==> l.text != [] && l.text[|l.text| - 1] == 10)
  {
  }

  /** The line as it should reach the log: it always ends with a newline. */
  function Rendered(l: Line): seq<nat> {
    Prefix(l.prefix, l.thread) + l.text + (if l.text != [] && l.text[|l.text| - 1] == NEWLINE then [] else [NEWLINE])
  }

  /** What the writer thread makes of the line at block `sequence`. */
  function Written(ring: seq<nat>, sequence: nat, stray: nat): (out: seq<nat>)
    requires |ring| == RING_SIZE
  {
    var offset := BlockOffset(sequence);
    var h := ReadHeader(ring[offset..offset + HEADER_SIZE]);
    Prefix(h.prefix, h.thread) + if h.length == 0 then [NEWLINE] else
      var r := BeginRead(ring, offset + HEADER_SIZE, Min(h.length, RING_SIZE));
      var suffix := if LastChar(r, stray) != NEWLINE then [NEWLINE] else [];
      match r
      case One(first) => first + suffix
      case Two(first, second) => first + second + suffix
  }

  /** The text of a line ends where the ring ends. */
  predicate EndsAtRingEnd(sequence: nat, l: Line) {
    l.text != [] && BlockOffset(sequence) + HEADER_SIZE + |l.text| == RING_SIZE
  }

  lemma HeaderInRing(ring: seq<nat>, sequence: nat, l: Line)
    requires IsLine(l) && Holds(ring, BLOCK_SIZE * sequence, Encoded(l))
    ensures ring[BlockOffset(sequence)..BlockOffset(sequence) + HEADER_SIZE] == Header(l)
  {
    hide Header, BlockOffset;
    var offset, read := BlockOffset(sequence), ring[BlockOffset(sequence)..BlockOffset(sequence) + HEADER_SIZE];
    forall j | 0 <= j < HEADER_SIZE
      ensures read[j] == Header(l)[j]
    {
      HoldsAt(ring, BLOCK_SIZE * sequence, Encoded(l), j);
      assert Place(BLOCK_SIZE * sequence + j) == offset + j;
    }
  }

  lemma TextInRing(ring: seq<nat>, sequence: nat, l: Line)
    requires IsLine(l) && Holds(ring, BLOCK_SIZE * sequence, Encoded(l)) && 0 < |l.text|
             && HEADER_SIZE + |l.text| <= RING_SIZE
    ensures match BeginRead(ring, BlockOffset(sequence) + HEADER_SIZE, |l.text|)
            case One(first) => first == l.text
            case Two(first, second) => first + second == l.text && (second == [] <==> EndsAtRingEnd(sequence, l))
  {
    var offset, n := BlockOffset(sequence) + HEADER_SIZE, |l.text|;
    forall j | 0 <= j < n
      ensures ring[Wrap(offset, j, RING_SIZE)] == l.text[j]
    {
      PlaceWraps(BLOCK_SIZE * sequence, HEADER_SIZE + j);
      assert Encoded(l)[HEADER_SIZE + j] == l.text[j];
      assert BLOCK_SIZE * sequence + HEADER_SIZE + j == BLOCK_SIZE * sequence + (HEADER_SIZE + j);
      assert Wrap(offset, j, RING_SIZE) == Wrap(BlockOffset(sequence), HEADER_SIZE + j, RING_SIZE);
    }
    if offset + n < RING_SIZE {
      assert forall j :: 0 <= j < n ==> ring[offset..offset + n][j] == ring[Wrap(offset, j, RING_SIZE)];
    } else {
      var left := RING_SIZE - offset;
      var both := ring[offset..] + ring[..n - left];
      assert |both| == n;
      assert forall j :: 0 <= j < n ==> both[j] == ring[Wrap(offset, j, RING_SIZE)];
    }
  }

  /** A line comes back from the ring whole, with prefix and newline; only a line whose text ends where
      the ring ends leaves the newline to the byte in front of the ring. */
  lemma ReadsBackExactly(ring: seq<nat>, sequence: nat, l: Line, stray: nat)
    requires IsLine(l) && Holds(ring, BLOCK_SIZE * sequence, Encoded(l)) && HEADER_SIZE + |l.text| <= RING_SIZE
    ensures ReadHeader(ring[BlockOffset(sequence)..BlockOffset(sequence) + HEADER_SIZE]) == HeaderFields(|l.text|,
        l.thread, l.terminate, l.prefix)
    ensures Written(ring, sequence, stray) ==
            if EndsAtRingEnd(sequence, l) then
              Prefix(l.prefix, l.thread) + l.text + (if stray != NEWLINE then [NEWLINE] else [])
            else Rendered(l)
  {
    HeaderInRing(ring, sequence, l);
    HeaderRoundTrip(l);
    if l.text != [] {
      TextInRing(ring, sequence, l);
      LastOfText(ring, sequence, l, stray);
    }
  }

  lemma LastOfText(ring: seq<nat>, sequence: nat, l: Line, stray: nat)
    requires IsLine(l) && Holds(ring, BLOCK_SIZE * sequence, Encoded(l)) && 0 < |l.text|
             && HEADER_SIZE + |l.text| <= RING_SIZE
    ensures var r := BeginRead(ring, BlockOffset(sequence) + HEADER_SIZE, |l.text|);
            LastChar(r, stray) == if EndsAtRingEnd(sequence, l) then stray else l.text[|l.text| - 1]
  {
    TextInRing(ring, sequence, l);
    var r := BeginRead(ring, BlockOffset(sequence) + HEADER_SIZE, |l.text|);
    if r.Two? && r.second != [] {
      assert (r.first + r.second)[|l.text| - 1] == r.second[|r.second| - 1];
    }
  }
}
