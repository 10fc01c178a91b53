/** XMA packets (src/xenia/apu/xma_helpers.h) and the walkers over the frames in them: four in
    src/xenia/apu/xma_context_old.cc and one in src/xenia/apu/xma_context_new.cc. A frame starts with
    its size in 15 bits; its last bit says whether another frame follows. */
module XmaPackets {
  import opened Arith
  import opened Words
  import opened BitStreams

  const PACKET_BYTES: nat := 2048
  const PACKET_BITS: nat := 16384
  const HEADER_BITS: nat := 32
  const FRAME_HEADER_BITS: nat := 15
  const MAX_FRAME_LENGTH: nat := 0x7FFF
  /** `kMaxFrameSizeinBits`: no frame starts in a packet with a greater first offset. */
  const LAST_FIRST_OFFSET: nat := 16352
  /** The old walkers take a size below this for the last frame ... */
  const OLD_LEAST: nat := 15
  /** ... and `GetPacketInfo` takes any size that moves it on. */
  const NEW_LEAST: nat := 1

  ghost predicate IsPacket(p: Bytes) {
    AreBytes(p) && |p| == PACKET_BYTES
  }

  ghost predicate IsBlock(b: Bytes) {
    AreBytes(b) && |b| % PACKET_BYTES == 0 && 8 * |b| < U64 / 2
  }

  // ---- packet header ------------------------------------------------------------------------

  /** `GetPacketFrameOffset` */
  function FirstOffset(p: Bytes): nat
    requires |p| >= 4
  {
    Or(Or(ShiftLeft(And(p[0], 3), 13), ShiftLeft(p[1], 5)), ShiftRight(p[2], 3)) % 0x1_0000 + 32
  }

  /** `GetPacketSkipCount` */
  function SkipCount(p: Bytes): nat
    requires |p| >= 4
  {
    p[3]
  }

  lemma {:induction false} FieldAppend(b: Bytes, off: nat, m: nat, n: nat)
    requires off + m + n <= 8 * |b|
    ensures Field(b, off, m + n) == ShiftLeft(Field(b, off, m), n) + Field(b, off + m, n)
    decreases n
  {
    if n > 0 {
      FieldAppend(b, off, m, n - 1);
    }
  }

  /** Or of disjoint parts is their sum. */
  lemma OrAppends(x: nat, y: nat, m: nat, n: nat)
    requires IsWord(x, m) && IsWord(y, n)
    ensures Or(ShiftLeft(x, n), y) == ShiftLeft(x, n) + y
  {
    hide Or, ShiftLeft, ShiftRight, Pow2;
    AppendIsWord(x, y, m, n);
    Pow2Positive(n);
    AppendIsWord(x, 0, m, n);
    WordWidens(y, n, m + n);
    OrBound(ShiftLeft(x, n), y, m + n);
    forall k | 0 <= k < m + n
      ensures Bit(Or(ShiftLeft(x, n), y), k) <==> Bit(ShiftLeft(x, n) + y, k)
    {
      OrBit(ShiftLeft(x, n), y, k);
      AppendBit(x, y, n, k);
      AppendBit(x, 0, n, k);
      if k < n {
        ZeroBit(0, k);
      } else {
        HighBitClear(y, n, k);
      }
    }
    SameBits(Or(ShiftLeft(x, n), y), ShiftLeft(x, n) + y, m + n);
  }

  lemma {:induction false} ShiftTwice(x: nat, m: nat, n: nat)
    ensures ShiftLeft(ShiftLeft(x, m), n) == ShiftLeft(x, m + n)
    decreases n
  {
    if n > 0 {
      ShiftTwice(x, m, n - 1);
    }
  }

  lemma {:induction false} ShiftSum(x: nat, y: nat, n: nat)
    ensures ShiftLeft(x, n) + ShiftLeft(y, n) == ShiftLeft(x + y, n)
    decreases n
  {
    if n > 0 {
      ShiftSum(x, y, n - 1);
    }
  }

  lemma ByteIsField(b: Bytes, i: nat)
    requires AreBytes(b) && i < |b|
    ensures Field(b, 8 * i, 8) == b[i]
  {
    LoadIsField(b, i, 1);
    assert b[i..i + 1] == [b[i]] && [b[i]][..0] == [];
    assert BigEndian([b[i]]) == ShiftLeft(BigEndian([]), 8) + b[i];
    ZeroShift(8);
  }

  lemma {:induction false} ZeroShift(n: nat)
    ensures ShiftLeft(0, n) == 0
    decreases n
  {
    if n > 0 {
      ZeroShift(n - 1);
    }
  }

  /** The header is packed most significant bit first: 6 bits of frame count, 15 bits of first
      offset, 3 bits of metadata, 8 bits of skip count. */
  lemma HeaderFields(p: Bytes)
    requires AreBytes(p) && |p| >= 4
    ensures FirstOffset(p) == HEADER_BITS + Field(p, 6, 15)
    ensures ShiftRight(p[0], 2) == Field(p, 0, 6) && And(p[2], 7) == Field(p, 21, 3) && SkipCount(p) == Field(p, 24, 8)
    ensures FirstOffset(p) < HEADER_BITS + 0x8000
  {
    hide Or, And, ShiftLeft, ShiftRight, Field;
    FirstOffsetParts(p);
    ByteIsField(p, 0);
    ByteIsField(p, 2);
    ByteIsField(p, 3);
    FieldShift(p, 0, 8, 2);
    assert LowMask(3) == 7;
    FieldMask(p, 16, 5, 3);
    FieldIsWord(p, 6, 15);
    assert Pow2(15) == 0x8000;
  }

  lemma FirstOffsetParts(p: Bytes)
    requires AreBytes(p) && |p| >= 4
    ensures FirstOffset(p) == HEADER_BITS + Field(p, 6, 15)
  {
    hide Or, And, ShiftLeft, ShiftRight, Field;
    var x, y, z := Field(p, 6, 2), Field(p, 8, 8), Field(p, 16, 5);
    ByteIsField(p, 0);
    ByteIsField(p, 1);
    ByteIsField(p, 2);
    assert LowMask(2) == 3;
    FieldMask(p, 0, 6, 2);
    FieldShift(p, 16, 8, 3);
    FieldIsWord(p, 6, 2);
    FieldIsWord(p, 8, 8);
    FieldIsWord(p, 16, 5);
    FieldIsWord(p, 6, 15);
    FieldAppend(p, 6, 2, 8);
    FieldAppend(p, 6, 10, 5);
    ShiftTwice(x, 8, 5);
    ShiftSum(ShiftLeft(x, 8), y, 5);
    AppendIsWord(x, y, 2, 8);
    AppendIsWord(y, 0, 8, 5);
    OrAppends(x, ShiftLeft(y, 5), 2, 13);
    OrAppends(ShiftLeft(x, 8) + y, z, 10, 5);
    assert Pow2(15) == 0x8000;
  }

  // ---- the frames of a packet ---------------------------------------------------------------

  function FrameSize(b: Bytes, off: nat): nat
    requires off + 15 <= 8 * |b|
  {
    Field(b, off, 15)
  }

  /** The frame at `off` ends before `end` and says that another one follows. */
  predicate Follows(b: Bytes, off: nat, end: nat, least: nat)
    requires off <= end <= 8 * |b|
  {
    && off + 15 <= end
    && var size := FrameSize(b, off);
       least <= size < MAX_FRAME_LENGTH && 0 < size && off + size <= end && StreamBit(b, off + size - 1)
  }

  /** The places where the chain that begins at `off` expects a frame: the last one may be too close
      to the end to hold a frame header. */
  function Points(b: Bytes, off: nat, end: nat, least: nat): (s: seq<nat>)
    requires off <= end <= 8 * |b|
    decreases end - off
  {
    if Follows(b, off, end, least) then [off] + Points(b, off + FrameSize(b, off), end, least) else [off]
  }

  /** The points are linked by the sizes, and the last one has no successor. */
  lemma {:induction false} PointsLinked(b: Bytes, off: nat, end: nat, least: nat, k: nat)
    requires off <= end <= 8 * |b| && k < |Points(b, off, end, least)|
    ensures var s := Points(b, off, end, least);
            && s[0] == off && off + k <= s[k] <= end
            && (k + 1 < |s| <==> Follows(b, s[k], end, least))
            && (k + 1 < |s| ==> s[k + 1] == s[k] + FrameSize(b, s[k]))
    decreases end - off
  {
    hide Field, StreamBit;
    if k > 0 {
      PointsLinked(b, off + FrameSize(b, off), end, least, k - 1);
    }
  }

  /** The frames that begin in a packet: the points that have room for a header. */
  function Starts(p: Bytes, off: nat): (s: seq<nat>)
    requires off <= PACKET_BITS <= 8 * |p|
    ensures var all := Points(p, off, PACKET_BITS, OLD_LEAST);
            && s <= all && |all| <= |s| + 1
            && (|s| < |all| <==> all[|all| - 1] + 15 > PACKET_BITS)
            && forall k :: 0 <= k < |s| ==> off <= s[k] && s[k] + 15 <= PACKET_BITS
  {
    StartsHaveRoom(p, off, OLD_LEAST);
    var all := Points(p, off, PACKET_BITS, OLD_LEAST);
    if all[|all| - 1] + 15 > PACKET_BITS then all[..|all| - 1] else all
  }

  lemma StartsHaveRoom(p: Bytes, off: nat, least: nat)
    requires off <= PACKET_BITS <= 8 * |p|
    ensures var all := Points(p, off, PACKET_BITS, least);
            && |all| > 0
            && forall k :: 0 <= k < |all| ==>
                 off <= all[k] <= PACKET_BITS && (k + 1 < |all| ==> all[k] + 15 <= PACKET_BITS)
  {
    hide Points;
    var all := Points(p, off, PACKET_BITS, least);
    PointsNonEmpty(p, off, PACKET_BITS, least);
    forall k | 0 <= k < |all|
      ensures off <= all[k] <= PACKET_BITS && (k + 1 < |all| ==> all[k] + 15 <= PACKET_BITS)
    {
      PointsLinked(p, off, PACKET_BITS, least, k);
    }
  }

  lemma PointsNonEmpty(b: Bytes, off: nat, end: nat, least: nat)
    requires off <= end <= 8 * |b|
    ensures |Points(b, off, end, least)| > 0 && Points(b, off, end, least)[0] == off
  {
  }

  lemma {:induction false} PointsIncrease(b: Bytes, off: nat, end: nat, least: nat, j: nat, k: nat)
    requires off <= end <= 8 * |b| && j < k < |Points(b, off, end, least)|
    ensures Points(b, off, end, least)[j] < Points(b, off, end, least)[k]
    decreases k
  {
    hide Points;
    PointsLinked(b, off, end, least, k - 1);
    PointsLinked(b, off, end, least, k);
    if j < k - 1 {
      PointsIncrease(b, off, end, least, j, k - 1);
    }
  }

  // ---- packets inside a block -----------------------------------------------------------------

  /** The packet that holds a bit offset. */
  function PacketAt(b: Bytes, n: nat): (p: Bytes)
    requires (n + 1) * PACKET_BYTES <= |b|
  {
    b[n * PACKET_BYTES..(n + 1) * PACKET_BYTES]
  }

  lemma BitOfPacket(b: Bytes, packet: nat, k: nat)
    requires (packet + 1) * PACKET_BYTES <= |b| && k < PACKET_BITS
    ensures StreamBit(PacketAt(b, packet), k) == StreamBit(b, packet * PACKET_BITS + k)
  {
    var at := packet * PACKET_BITS + k;
    assert at / 8 == packet * PACKET_BYTES + k / 8 && at % 8 == k % 8;
  }

  lemma {:induction false} FieldOfPacket(b: Bytes, packet: nat, off: nat, n: nat)
    requires (packet + 1) * PACKET_BYTES <= |b| && off + n <= PACKET_BITS
    ensures Field(PacketAt(b, packet), off, n) == Field(b, packet * PACKET_BITS + off, n)
    decreases n
  {
    hide StreamBit, PacketAt;
    assert |PacketAt(b, packet)| == PACKET_BYTES by { PacketLength(b, packet); }
    if n > 0 {
      FieldOfPacket(b, packet, off, n - 1);
      BitOfPacket(b, packet, off + n - 1);
    }
  }

  lemma PacketLength(b: Bytes, packet: nat)
    requires (packet + 1) * PACKET_BYTES <= |b|
    ensures |PacketAt(b, packet)| == PACKET_BYTES
    ensures AreBytes(b) ==> AreBytes(PacketAt(b, packet))
  {
  }

  /** A chain that runs on to the end of the block agrees with the chain inside the packet as long as
      that one lasts. */
  lemma {:induction false} ChainInBlock(b: Bytes, packet: nat, off: nat, k: nat)
    requires (packet + 1) * PACKET_BYTES <= |b| && off <= PACKET_BITS
    requires |PacketAt(b, packet)| == PACKET_BYTES && k < |Points(PacketAt(b, packet), off, PACKET_BITS, OLD_LEAST)|
    ensures var all := Points(b, packet * PACKET_BITS + off, 8 * |b|, OLD_LEAST);
            k < |all| && all[k] == packet * PACKET_BITS + Points(PacketAt(b, packet), off, PACKET_BITS, OLD_LEAST)[k]
    decreases k
  {
    hide PacketAt, Field, StreamBit;
    var p := PacketAt(b, packet);
    if k > 0 {
      var size := FrameSize(p, off);
      FieldOfPacket(b, packet, off, 15);
      BitOfPacket(b, packet, off + size - 1);
      ChainInBlock(b, packet, off + size, k - 1);
    }
  }
}
