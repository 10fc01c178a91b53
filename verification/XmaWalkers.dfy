/** The walkers over the frames of a packet: `ValidFrameOffset`, `GetNextFrame`, `GetFrameNumber` and
    `GetPacketFrameCount` of src/xenia/apu/xma_context_old.cc and `GetPacketInfo` of
    src/xenia/apu/xma_context_new.cc, and how they agree. */
module XmaWalkers {
  import opened Arith
  import opened BitStreams
  import opened Options
  import opened XmaPackets

  lemma TailOfWholeBytes(offset: nat, n: nat, size: nat)
    requires size % 8 == 0 && size >= 64 && offset + n <= size && n <= 57
    ensures InLoadedWord(offset, size, n)
  {
  }

  /** Sizes are 64-bit unsigned: a size below the 15 bits of the header wraps to a huge one. */
  lemma WrappedSize(size: nat, left: nat)
    requires size < 0x8000 && left < U64 / 2
    ensures (size - 15) % U64 > left <==> size < 15 || size - 15 > left
    ensures size >= 16 ==> (size - 16) % U64 == size - 16
    ensures size == 15 ==> (size - 16) % U64 == U64 - 1
  {
  }

  lemma SizeIsShort(b: Bytes, off: nat)
    requires off + 15 <= 8 * |b|
    ensures FrameSize(b, off) < 0x8000
  {
    FieldIsWord(b, off, 15);
    assert Pow2(15) == 0x8000;
  }

  lemma LastBit(b: Bytes, off: nat)
    requires off + 1 <= 8 * |b|
    ensures Field(b, off, 1) == if StreamBit(b, off) then 1 else 0
  {
    assert Field(b, off, 0) == 0;
  }

  /** The frame is well formed and ends before `end`. */
  predicate FrameFits(b: Bytes, off: nat, end: nat)
    requires off + 15 <= 8 * |b|
  {
    15 <= FrameSize(b, off) < MAX_FRAME_LENGTH && off + FrameSize(b, off) <= end
  }

  /** One step of the walkers of the old decoder: reads the size, skips to the last bit of the frame
      and reads it. */
  method NextFrameInStream(stream: BitStream) returns (more: bool, fits: bool)
    requires stream.Valid() && stream.sizeBits % 8 == 0 && stream.sizeBits >= 64
             && stream.offsetBits + 15 <= stream.sizeBits
    modifies stream
    ensures stream.Valid() && (more ==> fits)
    ensures more <==> Follows(stream.buffer, old(stream.offsetBits), stream.sizeBits, OLD_LEAST)
    ensures var off := old(stream.offsetBits);
            var size := Field(stream.buffer, off, 15);
            more <==> 15 <= size < 0x7FFF && off + size <= stream.sizeBits
                      && StreamBit(stream.buffer, off + size - 1)
    ensures more ==> stream.offsetBits == old(stream.offsetBits) + FrameSize(stream.buffer, old(stream.offsetBits))
    ensures fits <==> FrameFits(stream.buffer, old(stream.offsetBits), stream.sizeBits)
  {
    hide Field, StreamBit, BitStream.BitsRemaining;
    ghost var start := stream.offsetBits;
    SizeIsShort(stream.buffer, start);
    TailOfWholeBytes(start, 15, stream.sizeBits);
    var size := stream.Read(15);
    var left := stream.sizeBits - stream.offsetBits;
    WrappedSize(size, left);
    if (size - 15) % U64 > left {
      return false, false;
    } else if size == MAX_FRAME_LENGTH {
      return false, false;
    }
    stream.Advance((size - 16) % U64);
    assert stream.offsetBits == start + size - 1;
    TailOfWholeBytes(start + size - 1, 1, stream.sizeBits);
    LastBit(stream.buffer, start + size - 1);
    var bit := stream.Read(1);
    return bit != 0, true;
  }

  /** `GetFramePacketNumber` of the old decoder; -1 for an offset behind the block. */
  function FramePacketNumber(size: nat, bitOffset: nat): int {
    if bitOffset >= 8 * size then -1 else bitOffset / 8 / PACKET_BYTES
  }

  lemma PacketOfOffset(size: nat, bitOffset: nat)
    requires size % PACKET_BYTES == 0 && bitOffset < 8 * size
    ensures var n := bitOffset / PACKET_BITS;
            && FramePacketNumber(size, bitOffset) == n && (n + 1) * PACKET_BYTES <= size
            && bitOffset == n * PACKET_BITS + bitOffset % PACKET_BITS
  {
  }

  /** What `ValidFrameOffset` accepts: the points of the packet that holds the offset. */
  ghost predicate IsFrameOffset(block: Bytes, offset: nat) {
    && offset < 8 * |block|
    && (offset / PACKET_BITS + 1) * PACKET_BYTES <= |block|
    && var p := PacketAt(block, offset / PACKET_BITS);
       FirstOffset(p) <= PACKET_BITS && offset % PACKET_BITS in Points(p, FirstOffset(p), PACKET_BITS, OLD_LEAST)
  }

  /** `ValidFrameOffset` */
  method ValidFrameOffset(block: Bytes, frameOffset: nat) returns (valid: bool)
    requires IsBlock(block)
    ensures valid <==> IsFrameOffset(block, frameOffset)
  {
    hide Field, FirstOffset, Follows, Points, PacketAt;
    var packetNumber := FramePacketNumber(|block|, frameOffset);
    if packetNumber == -1 {
      return false;
    }
    PacketOfOffset(|block|, frameOffset);
    PacketLength(block, packetNumber);
    var packet := PacketAt(block, packetNumber);
    var relative := frameOffset % PACKET_BITS;
    var first := FirstOffset(packet);
    if first > PACKET_BITS {
      return false;
    }
    valid := FindPoint(packet, first, relative);
  }

  method FindPoint(packet: Bytes, first: nat, relative: nat) returns (found: bool)
    requires IsPacket(packet) && first <= PACKET_BITS
    ensures found <==> relative in Points(packet, first, PACKET_BITS, OLD_LEAST)
  {
    hide Field, Follows, Points, BitStream.BitsRemaining;
    ghost var all, at := Points(packet, first, PACKET_BITS, OLD_LEAST), 0;
    PointsNonEmpty(packet, first, PACKET_BITS, OLD_LEAST);
    var stream := new BitStream(packet, PACKET_BITS);
    stream.SetOffset(first);
    while true
      invariant fresh(stream) && stream.Valid() && stream.buffer == packet && stream.sizeBits == PACKET_BITS
      invariant at < |all| && stream.offsetBits == all[at] && forall j :: 0 <= j < at ==> all[j] != relative
      decreases |all| - at
    {
      if stream.offsetBits == relative {
        return true;
      }
      PointsLinked(packet, first, PACKET_BITS, OLD_LEAST, at);
      if stream.sizeBits - stream.offsetBits < 15 {
        ShortIsLast(packet, stream.offsetBits, PACKET_BITS, OLD_LEAST);
        return false;
      }
      var more, _ := NextFrameInStream(stream);
      if !more {
        return false;
      }
      at := at + 1;
    }
  }

  lemma ShortIsLast(b: Bytes, off: nat, end: nat, least: nat)
    requires off <= end <= 8 * |b| && end - off < 15
    ensures !Follows(b, off, end, least)
  {
  }

  /** The end of a frame that another one follows, if that lies in the same packet or is the end of
      the block; 0 otherwise. */
  function NextFrame(block: Bytes, offset: nat): nat {
    if offset < 8 * |block| && Follows(block, offset, 8 * |block|, OLD_LEAST)
       && (var end := offset + FrameSize(block, offset);
           end == 8 * |block| || end / PACKET_BITS == offset / PACKET_BITS)
    then offset + FrameSize(block, offset) else 0
  }

  /** `GetNextFrame` */
  method GetNextFrame(block: Bytes, bitOffset: nat) returns (next: nat)
    requires IsBlock(block) && |block| > 0 && bitOffset < U64 / 2
    ensures next == NextFrame(block, bitOffset)
  {
    hide Field, StreamBit, BitStream.BitsRemaining;
    var packet := FramePacketNumber(|block|, bitOffset);
    var stream := new BitStream(block, 8 * |block|);
    stream.SetOffset(bitOffset);
    if stream.sizeBits - stream.offsetBits < 15 {
      return 0;
    }
    ghost var size := FrameSize(block, bitOffset);
    var more, _ := NextFrameInStream(stream);
    if !more {
      return 0;
    }
    next := stream.offsetBits;
    LaterPacket(|block|, bitOffset, next);
    if packet < FramePacketNumber(|block|, next) {
      return 0;
    }
  }

  lemma LaterPacket(size: nat, off: nat, next: nat)
    requires size % PACKET_BYTES == 0 && off < 8 * size && off < next <= 8 * size
    ensures FramePacketNumber(size, off) < FramePacketNumber(size, next)
            <==> next != 8 * size && next / PACKET_BITS != off / PACKET_BITS
  {
  }

  /** The offset is point `frame` of the chain; or it is no point, and `frame` is the last one. */
  ghost predicate IsFrameNumber(block: Bytes, first: nat, offset: nat, frame: nat)
    requires first <= 8 * |block|
  {
    var all := Points(block, first, 8 * |block|, OLD_LEAST);
    && frame < |all|
    && (offset in all ==> all[frame] == offset)
    && (offset !in all ==> frame == |all| - 1)
  }

  /** `GetFrameNumber`: the chain begins with the first frame of the packet that holds the offset, but
      the stream is the whole block. -1 for the offset 0, -2 for an offset behind the block. */
  method GetFrameNumber(block: Bytes, bitOffset: nat) returns (packet: int, frame: int)
    requires IsBlock(block) && |block| > 0
    ensures bitOffset >= 8 * |block| ==> packet == -1 && frame == -2
    ensures bitOffset < 8 * |block| ==> packet == bitOffset / PACKET_BITS
    ensures bitOffset == 0 ==> frame == -1
    ensures 0 < bitOffset < 8 * |block| ==>
            frame >= 0 && IsFrameNumber(block, ChainStart(block, bitOffset), bitOffset, frame)
  {
    hide Field, FirstOffset, Follows, Points, PacketAt;
    packet := FramePacketNumber(|block|, bitOffset);
    if packet < 0 || (packet + 1) * PACKET_BYTES > |block| {
      return packet, -2;
    }
    if bitOffset == 0 {
      return packet, -1;
    }
    PacketOfOffset(|block|, bitOffset);
    PacketLength(block, packet);
    var first := FirstOffset(PacketAt(block, packet));
    frame := CountTo(block, Min(packet * PACKET_BITS + first, 8 * |block|), bitOffset);
  }

  /** Where the frames of the packet of an offset begin, counted from the start of the block. */
  function ChainStart(block: Bytes, bitOffset: nat): (start: nat)
    requires |block| % PACKET_BYTES == 0 && bitOffset < 8 * |block|
    ensures start <= 8 * |block|
  {
    Min(bitOffset - bitOffset % PACKET_BITS + FirstOffset(PacketOf(block, bitOffset)), 8 * |block|)
  }

  function PacketOf(block: Bytes, bitOffset: nat): (p: Bytes)
    requires |block| % PACKET_BYTES == 0 && bitOffset < 8 * |block|
    ensures |p| == PACKET_BYTES && p == PacketAt(block, bitOffset / PACKET_BITS)
  {
    PacketOfOffset(|block|, bitOffset);
    PacketAt(block, bitOffset / PACKET_BITS)
  }

  method CountTo(block: Bytes, first: nat, bitOffset: nat) returns (frame: nat)
    requires IsBlock(block) && |block| > 0 && first <= 8 * |block|
    ensures IsFrameNumber(block, first, bitOffset, frame)
  {
    hide Field, Follows, Points, BitStream.BitsRemaining;
    var end := 8 * |block|;
    ghost var all := Points(block, first, end, OLD_LEAST);
    PointsNonEmpty(block, first, end, OLD_LEAST);
    var stream := new BitStream(block, end);
    stream.SetOffset(first);
    frame := 0;
    while true
      invariant fresh(stream) && stream.Valid() && stream.buffer == block && stream.sizeBits == end
      invariant frame < |all| && stream.offsetBits == all[frame] && forall j :: 0 <= j < frame ==> all[j] != bitOffset
      decreases |all| - frame
    {
      PointsLinked(block, first, end, OLD_LEAST, frame);
      if stream.sizeBits - stream.offsetBits < 15 {
        ShortIsLast(block, stream.offsetBits, end, OLD_LEAST);
        break;
      }
      if stream.offsetBits == bitOffset {
        break;
      }
      var more, _ := NextFrameInStream(stream);
      if !more {
        break;
      }
      frame := frame + 1;
    }
  }

  /** `GetPacketFrameCount`: how many frames begin in the packet, and whether the last of them runs
      on into the next packet (or is not well formed). */
  method GetPacketFrameCount(packet: Bytes) returns (count: nat, split: bool)
    requires IsPacket(packet)
    ensures FirstOffset(packet) > LAST_FIRST_OFFSET ==> count == 0 && !split
    ensures FirstOffset(packet) <= LAST_FIRST_OFFSET ==>
              && var starts := Starts(packet, FirstOffset(packet));
                 && count == |starts|
                 && (split <==> 0 < count && !FrameFits(packet, starts[count - 1], PACKET_BITS))
  {
    hide Field, FirstOffset, Follows, Points, BitStream.BitsRemaining, Starts;
    var first := FirstOffset(packet);
    if first > LAST_FIRST_OFFSET {
      return 0, false;
    }
    ghost var all, starts := Points(packet, first, PACKET_BITS, OLD_LEAST), Starts(packet, first);
    PointsNonEmpty(packet, first, PACKET_BITS, OLD_LEAST);
    var stream := new BitStream(packet, PACKET_BITS);
    stream.SetOffset(first);
    count, split := 0, false;
    while true
      invariant fresh(stream) && stream.Valid() && stream.buffer == packet && stream.sizeBits == PACKET_BITS
      invariant count < |all| && stream.offsetBits == all[count]
      invariant 0 < count ==> all[count - 1] + 15 <= PACKET_BITS && FrameFits(packet, all[count - 1], PACKET_BITS)
      decreases |all| - count
    {
      PointsLinked(packet, first, PACKET_BITS, OLD_LEAST, count);
      if stream.sizeBits - stream.offsetBits < 15 {
        ShortIsLast(packet, stream.offsetBits, PACKET_BITS, OLD_LEAST);
        return count, false;
      }
      ghost var start := stream.offsetBits;
      count := count + 1;
      var more, fits := NextFrameInStream(stream);
      if !fits {
        return count, true;
      }
      if !more {
        return count, false;
      }
      if stream.sizeBits == stream.offsetBits {
        ShortIsLast(packet, stream.offsetBits, PACKET_BITS, OLD_LEAST);
        PointsLinked(packet, first, PACKET_BITS, OLD_LEAST, count);
        return count, false;
      }
    }
  }

  // ---- the walker of the new decoder ------------------------------------------------------------

  /** The frames that `GetPacketInfo` counts: it goes on after any size it can step over, and does not
      count a frame of the marker size. */
  function NewStarts(p: Bytes, off: nat): (s: seq<nat>)
    requires off <= PACKET_BITS <= 8 * |p|
    ensures var all := Points(p, off, PACKET_BITS, NEW_LEAST);
            && s <= all && |all| <= |s| + 1
            && (|s| < |all| <==> Uncounted(p, all[|all| - 1]))
            && forall k :: 0 <= k < |s| ==> off <= s[k] && s[k] + 15 <= PACKET_BITS
  {
    StartsHaveRoom(p, off, NEW_LEAST);
    var all := Points(p, off, PACKET_BITS, NEW_LEAST);
    if Uncounted(p, all[|all| - 1]) then all[..|all| - 1] else all
  }

  predicate Uncounted(p: Bytes, off: nat)
    requires PACKET_BITS <= 8 * |p|
  {
    off + 15 > PACKET_BITS || FrameSize(p, off) == MAX_FRAME_LENGTH
  }

  /** The walk comes to a frame of size 0 behind a set bit: it steps back over that bit and reads it
      again, without end. */
  predicate Hangs(p: Bytes, off: nat)
    requires 0 < off <= PACKET_BITS <= 8 * |p|
  {
    StartsHaveRoom(p, off, NEW_LEAST);
    var all := Points(p, off, PACKET_BITS, NEW_LEAST);
    var last := all[|all| - 1];
    last + 15 <= PACKET_BITS && FrameSize(p, last) == 0 && StreamBit(p, last - 1)
  }

  /** `kPacketInfo`; the two counters are 8 bits wide. */
  datatype PacketInfo = PacketInfo(frameCount: nat, currentFrame: nat, currentFrameSize: nat) {
    predicate IsLastFrameInPacket() {
      currentFrame == frameCount - 1
    }
  }

  /** What `GetPacketInfo` says of the frame at `offset`. */
  ghost predicate Describes(p: Bytes, offset: nat, info: PacketInfo)
    requires |p| == PACKET_BYTES
  {
    var first := FirstOffset(p);
    var starts := NewStarts(p, Min(first, PACKET_BITS));
    && info.frameCount == |starts| % 256
    && (forall k :: 0 <= k < |starts| && starts[k] == offset ==>
          info.currentFrame == k % 256 && info.currentFrameSize == FrameSize(p, offset))
    && (offset !in starts ==> info.currentFrame == 0 && info.currentFrameSize == if offset < first then first - offset
        else 0)
  }

  /** The first place of `x`, or the length. */
  function IndexIn(s: seq<nat>, x: nat): (k: nat)
    ensures k <= |s| && (forall j :: 0 <= j < k ==> s[j] != x) && (k < |s| ==> s[k] == x)
  {
    if s == [] || s[0] == x then 0 else 1 + IndexIn(s[1..], x)
  }

  /** The same as a function. */
  function InfoOf(p: Bytes, offset: nat): (info: PacketInfo)
    requires |p| == PACKET_BYTES
    ensures Describes(p, offset, info)
    ensures forall other :: Describes(p, offset, other) ==> other == info
  {
    var first := FirstOffset(p);
    var starts := NewStarts(p, Min(first, PACKET_BITS));
    var k := IndexIn(starts, offset);
    IndexIsUnique(p, Min(first, PACKET_BITS), offset);
    if k < |starts| then PacketInfo(|starts| % 256, k % 256, FrameSize(p, offset))
    else PacketInfo(|starts| % 256, 0, if offset < first then first - offset else 0)
  }

  lemma IndexIsUnique(p: Bytes, off: nat, offset: nat)
    requires off <= PACKET_BITS <= 8 * |p|
    ensures var starts := NewStarts(p, off);
            forall k :: 0 <= k < |starts| && starts[k] == offset ==> k == IndexIn(starts, offset)
  {
    hide Points, NewStarts;
    var starts, all := NewStarts(p, off), Points(p, off, PACKET_BITS, NEW_LEAST);
    forall k | 0 <= k < |starts| && starts[k] == offset
      ensures k == IndexIn(starts, offset)
    {
      var j := IndexIn(starts, offset);
      assert all[k] == starts[k] && offset in starts;
      if j < k {
        PointsIncrease(p, off, PACKET_BITS, NEW_LEAST, j, k);
      }
    }
  }

  lemma PointsDistinct(b: Bytes, off: nat, end: nat, least: nat, k: nat)
    requires off <= end <= 8 * |b| && k < |Points(b, off, end, least)|
    ensures Points(b, off, end, least)[k] !in Points(b, off, end, least)[..k]
  {
    hide Points;
    var all := Points(b, off, end, least);
    forall j | 0 <= j < k
      ensures all[j] < all[k]
    {
      PointsIncrease(b, off, end, least, j, k);
    }
  }

  /** One round of `GetPacketInfo` from `off`, as far as it moves: where the next round begins, if there
      is one. */
  function RoundFrom(p: Bytes, off: nat): (next: Option<nat>)
    requires 0 < off <= PACKET_BITS <= 8 * |p|
    ensures next.Some? ==> off <= next.value <= PACKET_BITS
  {
    if off + 15 > PACKET_BITS then None
    else
      var size := FrameSize(p, off);
      if size == MAX_FRAME_LENGTH || size > PACKET_BITS - off then None
      else if StreamBit(p, off + size - 1) then Some(off + size) else None
  }

  /** Where the round behind `k` rounds begins, if the walk gets there. */
  function WalkAfter(p: Bytes, off: nat, k: nat): (at: Option<nat>)
    requires 0 < off <= PACKET_BITS <= 8 * |p|
    ensures at.Some? ==> off <= at.value <= PACKET_BITS
  {
    if k == 0 then Some(off)
    else match WalkAfter(p, off, k - 1)
      case Some(x) => RoundFrom(p, x)
      case None => None
  }

  lemma RoundIsLink(p: Bytes, off: nat)
    requires 0 < off <= PACKET_BITS <= 8 * |p|
    ensures RoundFrom(p, off).Some? <==>
            Follows(p, off, PACKET_BITS, NEW_LEAST)
            || (off + 15 <= PACKET_BITS && FrameSize(p, off) == 0 && StreamBit(p, off - 1))
    ensures RoundFrom(p, off).Some? ==> off + 15 <= PACKET_BITS && RoundFrom(p, off).value == off + FrameSize(p, off)
  {
    hide Field, StreamBit;
  }

  /** The walk visits the points of the chain, and stays on the last one when it hangs. */
  lemma {:induction false} WalkIsChain(p: Bytes, off: nat, k: nat)
    requires 0 < off <= PACKET_BITS <= 8 * |p|
    ensures var all := Points(p, off, PACKET_BITS, NEW_LEAST);
            && |all| > 0
            && WalkAfter(p, off, k)
               == if k < |all| then Some(all[k]) else if Hangs(p, off) then Some(all[|all| - 1]) else None
  {
    hide Points, Field, StreamBit, Follows, RoundFrom;
    PointsNonEmpty(p, off, PACKET_BITS, NEW_LEAST);
    var all := Points(p, off, PACKET_BITS, NEW_LEAST);
    if k > 0 {
      WalkIsChain(p, off, k - 1);
      var j := if k - 1 < |all| then k - 1 else |all| - 1;
      PointsLinked(p, off, PACKET_BITS, NEW_LEAST, j);
      RoundIsLink(p, all[j]);
    }
  }

  /** The loop of `GetPacketInfo` ends exactly when it meets no frame of size 0 behind a set bit; then it
      does so within as many rounds as a packet has bits. */
  lemma WalkEndsExactly(p: Bytes, off: nat)
    requires 0 < off <= PACKET_BITS <= 8 * |p|
    ensures (exists k: nat :: WalkAfter(p, off, k).None?) <==> !Hangs(p, off)
    ensures !Hangs(p, off) ==> WalkAfter(p, off, PACKET_BITS + 1).None?
  {
    hide Points, Hangs, WalkAfter;
    var all := Points(p, off, PACKET_BITS, NEW_LEAST);
    forall k: nat
      ensures Hangs(p, off) ==> WalkAfter(p, off, k).Some?
    {
      WalkIsChain(p, off, k);
    }
    WalkIsChain(p, off, PACKET_BITS + 1);
    PointsLinked(p, off, PACKET_BITS, NEW_LEAST, |all| - 1);
  }

  /** The rest of one round of `GetPacketInfo`: to the last bit of the frame, and over it. From a frame
      of size 0 the cursor goes back by one bit and over it again. */
  method StepOver(stream: BitStream, size: nat) returns (more: bool)
    requires stream.Valid() && stream.sizeBits == PACKET_BITS && 0 < stream.offsetBits
             && stream.offsetBits + 15 <= PACKET_BITS
    requires size == FrameSize(stream.buffer, stream.offsetBits) && size < MAX_FRAME_LENGTH
             && stream.offsetBits + size <= PACKET_BITS
    modifies stream
    ensures stream.Valid()
    ensures more <==> StreamBit(stream.buffer, old(stream.offsetBits) + size - 1)
    ensures stream.offsetBits == old(stream.offsetBits) + size
  {
    hide Field, StreamBit;
    ghost var start := stream.offsetBits;
    stream.Advance((size - 1) % U64);
    assert stream.offsetBits == start + size - 1;
    TailOfWholeBytes(start + size - 1, 1, PACKET_BITS);
    LastBit(stream.buffer, start + size - 1);
    var bit := stream.Read(1);
    return bit != 0;
  }

  /** After `at` points: the answer for the points seen so far. */
  ghost predicate Tracked(p: Bytes, all: seq<nat>, at: nat, offset: nat, first: nat, current: nat, size: nat) {
    && at <= |all|
    && (forall j :: 0 <= j < at && all[j] == offset ==>
          current == j % 256 && offset + 15 <= 8 * |p| && size == FrameSize(p, offset))
    && (offset !in all[..at] ==> current == 0 && size == if offset < first then first - offset else 0)
  }

  lemma TrackStep(p: Bytes, off: nat, at: nat, offset: nat, first: nat, current: nat, size: nat)
    requires off <= PACKET_BITS <= 8 * |p|
    requires var all := Points(p, off, PACKET_BITS, NEW_LEAST);
             at < |all| && all[at] + 15 <= PACKET_BITS && Tracked(p, all, at, offset, first, current, size)
    ensures var all := Points(p, off, PACKET_BITS, NEW_LEAST);
            if all[at] == offset then Tracked(p, all, at + 1, offset, first, at % 256, FrameSize(p, offset))
            else Tracked(p, all, at + 1, offset, first, current, size)
  {
    hide Points, FrameSize;
    var all := Points(p, off, PACKET_BITS, NEW_LEAST);
    PointsDistinct(p, off, PACKET_BITS, NEW_LEAST, at);
    assert all[..at + 1] == all[..at] + [all[at]];
  }

  lemma TrackDone(p: Bytes, offset: nat, current: nat, size: nat)
    requires |p| == PACKET_BYTES
    requires var from := Min(FirstOffset(p), PACKET_BITS);
             Tracked(p, Points(p, from, PACKET_BITS, NEW_LEAST), |NewStarts(p, from)|, offset, FirstOffset(p),
                     current, size)
    ensures Describes(p, offset, PacketInfo(|NewStarts(p, Min(FirstOffset(p), PACKET_BITS))| % 256, current, size))
  {
    hide Points, FrameSize, FirstOffset, NewStarts;
    var from := Min(FirstOffset(p), PACKET_BITS);
    var starts := NewStarts(p, from);
    assert starts == Points(p, from, PACKET_BITS, NEW_LEAST)[..|starts|];
  }

  lemma TrackStart(p: Bytes, all: seq<nat>, offset: nat, first: nat)
    ensures Tracked(p, all, 0, offset, first, 0, if offset < first then first - offset else 0)
  {
  }

  /** One round of `GetPacketInfo`. */
  method Step(packet: Bytes, stream: BitStream) returns (counted: bool, frameSize: nat, more: bool)
    requires IsPacket(packet) && stream.Valid() && stream.buffer == packet && stream.sizeBits == PACKET_BITS
    requires 0 < stream.offsetBits
    modifies stream
    ensures stream.Valid()
    ensures counted <==> !Uncounted(packet, old(stream.offsetBits))
    ensures counted ==> frameSize == FrameSize(packet, old(stream.offsetBits))
    ensures RoundFrom(packet, old(stream.offsetBits)) == if counted && more then Some(stream.offsetBits) else None
  {
    hide Field, StreamBit;
    if stream.sizeBits - stream.offsetBits < FRAME_HEADER_BITS {
      return false, 0, false;
    }
    SizeIsShort(packet, stream.offsetBits);
    TailOfWholeBytes(stream.offsetBits, 15, PACKET_BITS);
    frameSize := stream.Peek(FRAME_HEADER_BITS);
    if frameSize == MAX_FRAME_LENGTH {
      return false, frameSize, false;
    }
    if frameSize > stream.sizeBits - stream.offsetBits {
      return true, frameSize, false;
    }
    more := StepOver(stream, frameSize);
    counted := true;
  }

  lemma FirstIsPositive(p: Bytes)
    requires |p| == PACKET_BYTES
    ensures FirstOffset(p) >= HEADER_BITS
  {
  }

  /** A point that the walk goes on from is counted. */
  lemma CountedPoints(p: Bytes, off: nat, k: nat)
    requires 0 < off <= PACKET_BITS <= 8 * |p| && k < |Points(p, off, PACKET_BITS, NEW_LEAST)|
    ensures k < |NewStarts(p, off)| <==> !Uncounted(p, Points(p, off, PACKET_BITS, NEW_LEAST)[k])
  {
    hide Points, Field, StreamBit;
    PointsLinked(p, off, PACKET_BITS, NEW_LEAST, k);
  }

  /** `GetPacketInfo`, in at most so many rounds of its loop: it is done by then exactly when the walk has
      ended. */
  method GetPacketInfo(packet: Bytes, frameOffset: nat, rounds: nat) returns (info: Option<PacketInfo>)
    requires IsPacket(packet)
    ensures 0 < Min(FirstOffset(packet), PACKET_BITS)
    ensures info.Some? <==> WalkAfter(packet, Min(FirstOffset(packet), PACKET_BITS), rounds).None?
    ensures info.Some? ==> Describes(packet, frameOffset, info.value)
  {
    hide FrameSize, FirstOffset, Follows, Points, NewStarts, Tracked, Describes, Hangs, Uncounted, RoundFrom;
    var count: nat, current: nat, size: nat := 0, 0, 0;
    var first := FirstOffset(packet);
    FirstIsPositive(packet);
    var from := Min(first, PACKET_BITS);
    ghost var all, starts := Points(packet, from, PACKET_BITS, NEW_LEAST), NewStarts(packet, from);
    var stream := new BitStream(packet, PACKET_BITS);
    stream.SetOffset(first);
    if frameOffset < first {
      current, size := 0, first - frameOffset;
    }
    TrackStart(packet, all, frameOffset, first);
    for at := 0 to rounds
      invariant fresh(stream) && stream.Valid() && stream.buffer == packet && stream.sizeBits == PACKET_BITS
      invariant WalkAfter(packet, from, at) == Some(stream.offsetBits)
      invariant at <= |all| ==> count == at % 256 && Tracked(packet, all, at, frameOffset, first, current, size)
    {
      WalkIsChain(packet, from, at);
      WalkIsChain(packet, from, at + 1);
      var start := stream.offsetBits;
      var counted, frameSize, more := Step(packet, stream);
      if at < |all| {
        CountedPoints(packet, from, at);
      }
      if counted {
        if at < |all| {
          TrackStep(packet, from, at, frameOffset, first, current, size);
        }
        if start == frameOffset {
          current, size := count, frameSize;
        }
        count := (count + 1) % 256;
      }
      if !counted || !more {
        EndedWalk(packet, from, at + 1, rounds);
        assert at + 1 == |all|;
        TrackDone(packet, frameOffset, current, size);
        return Some(PacketInfo(count, current, size));
      }
    }
    return None;
  }

  lemma {:induction false} EndedWalk(p: Bytes, off: nat, k: nat, rounds: nat)
    requires 0 < off <= PACKET_BITS <= 8 * |p| && k <= rounds && WalkAfter(p, off, k).None?
    ensures WalkAfter(p, off, rounds).None?
    decreases rounds
  {
    if k < rounds {
      EndedWalk(p, off, k, rounds - 1);
    }
  }

  // ---- agreement ------------------------------------------------------------------------------

  /** The walkers of the old decoder agree on every frame that begins in packet `n`: the offset is
      accepted, its number is its place in the chain, and the next frame is the next in the chain.
      After the last frame `GetNextFrame` never leads to a place where a frame header fits. */
  lemma OldWalkersAgree(block: Bytes, n: nat, k: nat, frame: nat)
    requires IsBlock(block) && (n + 1) * PACKET_BYTES <= |block|
    requires |PacketAt(block, n)| == PACKET_BYTES && FirstOffset(PacketAt(block, n)) <= PACKET_BITS
    requires k < |Starts(PacketAt(block, n), FirstOffset(PacketAt(block, n)))|
    ensures var starts := Starts(PacketAt(block, n), FirstOffset(PacketAt(block, n)));
            var offset := n * PACKET_BITS + starts[k];
            && IsFrameOffset(block, offset)
            && (IsFrameNumber(block, ChainStart(block, offset), offset, frame) <==> frame == k)
            && (k + 1 < |starts| ==> NextFrame(block, offset) == n * PACKET_BITS + starts[k + 1])
            && (k + 1 == |starts| && NextFrame(block, offset) % PACKET_BITS + 15 <= PACKET_BITS ==>
                NextFrame(block, offset) in {0, 8 * |block|})
  {
    hide FirstOffset, PacketAt, Field, StreamBit, Follows, Points, NextFrame, FrameSize;
    var p := PacketAt(block, n);
    var first := FirstOffset(p);
    var starts, all := Starts(p, first), Points(p, first, PACKET_BITS, OLD_LEAST);
    var offset := n * PACKET_BITS + starts[k];
    assert offset / PACKET_BITS == n && offset % PACKET_BITS == starts[k];
    assert starts[k] == all[k];
    ChainInBlock(block, n, first, k);
    FrameNumberIsUnique(block, ChainStart(block, offset), offset, k, frame);
    PointsLinked(p, first, PACKET_BITS, OLD_LEAST, k);
    NextInPacket(block, n, all[k]);
    if k + 1 < |all| {
      PointsLinked(p, first, PACKET_BITS, OLD_LEAST, k + 1);
    }
  }

  lemma FrameNumberIsUnique(block: Bytes, first: nat, offset: nat, k: nat, frame: nat)
    requires first <= 8 * |block| && k < |Points(block, first, 8 * |block|, OLD_LEAST)|
    requires Points(block, first, 8 * |block|, OLD_LEAST)[k] == offset
    ensures IsFrameNumber(block, first, offset, frame) <==> frame == k
  {
    hide Points;
    if frame < k {
      PointsIncrease(block, first, 8 * |block|, OLD_LEAST, frame, k);
    } else if k < frame < |Points(block, first, 8 * |block|, OLD_LEAST)| {
      PointsIncrease(block, first, 8 * |block|, OLD_LEAST, k, frame);
    }
  }

  lemma NextInPacket(block: Bytes, n: nat, off: nat)
    requires IsBlock(block) && (n + 1) * PACKET_BYTES <= |block| && off + 15 <= PACKET_BITS
    requires |PacketAt(block, n)| == PACKET_BYTES
    ensures var p := PacketAt(block, n);
            var next := NextFrame(block, n * PACKET_BITS + off);
            if Follows(p, off, PACKET_BITS, OLD_LEAST) then
              if off + FrameSize(p, off) < PACKET_BITS then next == n * PACKET_BITS + off + FrameSize(p, off)
                else next in {0, 8 * |block|}
            else next in {0, 8 * |block|}
  {
    hide PacketAt, Field, StreamBit;
    var p := PacketAt(block, n);
    FieldOfPacket(block, n, off, 15);
    var size := FrameSize(p, off);
    assert size == FrameSize(block, n * PACKET_BITS + off);
    if 0 < size && off + size <= PACKET_BITS {
      BitOfPacket(block, n, off + size - 1);
      SameOrNextPacket(n, off, off + size);
    } else {
      SameOrNextPacket(n, off, off + size);
    }
  }

  lemma SameOrNextPacket(n: nat, off: nat, next: nat)
    requires off < PACKET_BITS
    ensures (n * PACKET_BITS + next) / PACKET_BITS == (n * PACKET_BITS + off) / PACKET_BITS <==> next < PACKET_BITS
  {
  }

  /** `GetPacketInfo` counts the frames of `GetPacketFrameCount`, exactly when the last of them has
      not the marker size and is not a frame shorter than its header before yet another one. */
  lemma {:induction false} NewWalkerAgreesExactly(p: Bytes, off: nat)
    requires off <= PACKET_BITS <= 8 * |p|
    ensures NewStarts(p, off) == Starts(p, off)
            <==> Starts(p, off) == [] || EndsAlike(p, Starts(p, off)[|Starts(p, off)| - 1])
    decreases PACKET_BITS - off
  {
    hide Field, StreamBit, Points, Starts, NewStarts, EndsAlike, Uncounted;
    if Follows(p, off, PACKET_BITS, OLD_LEAST) {
      var next := off + FrameSize(p, off);
      NewWalkerAgreesExactly(p, next);
      StartsStep(p, off);
      NewStartsStep(p, off);
      assert ([off] + Starts(p, next))[1..] == Starts(p, next)
             && ([off] + NewStarts(p, next))[1..] == NewStarts(p, next);
      LastIsGood(p, off);
    } else {
      LastAgrees(p, off);
    }
  }

  lemma LastIsGood(p: Bytes, off: nat)
    requires off <= PACKET_BITS <= 8 * |p| && Follows(p, off, PACKET_BITS, OLD_LEAST)
    ensures EndsAlike(p, off)
  {
    hide Field, StreamBit, Uncounted;
  }

  lemma LastAgrees(p: Bytes, off: nat)
    requires off <= PACKET_BITS <= 8 * |p| && !Follows(p, off, PACKET_BITS, OLD_LEAST)
    ensures NewStarts(p, off) == Starts(p, off) <==> off + 15 > PACKET_BITS || EndsAlike(p, off)
    ensures Starts(p, off) == if off + 15 > PACKET_BITS then [] else [off]
  {
    hide Field, StreamBit, NewStarts;
    assert Points(p, off, PACKET_BITS, OLD_LEAST) == [off];
    if Follows(p, off, PACKET_BITS, NEW_LEAST) {
      NewStartsStep(p, off);
      var next := off + FrameSize(p, off);
      NewStartsEmpty(p, next);
      assert ([off] + NewStarts(p, next))[1..] == NewStarts(p, next) && [off][1..] == [];
    } else {
      assert Points(p, off, PACKET_BITS, NEW_LEAST) == [off];
      NewStartsSingle(p, off);
    }
  }

  lemma NewStartsSingle(p: Bytes, off: nat)
    requires off <= PACKET_BITS <= 8 * |p| && Points(p, off, PACKET_BITS, NEW_LEAST) == [off]
    ensures NewStarts(p, off) == if Uncounted(p, off) then [] else [off]
  {
    hide Points, Uncounted;
  }

  lemma NewStartsEmpty(p: Bytes, off: nat)
    requires off <= PACKET_BITS <= 8 * |p|
    ensures NewStarts(p, off) == [] <==> Uncounted(p, off)
  {
    hide Field, StreamBit, NewStarts;
    if Follows(p, off, PACKET_BITS, NEW_LEAST) {
      NewStartsStep(p, off);
    } else {
      assert Points(p, off, PACKET_BITS, NEW_LEAST) == [off];
      NewStartsSingle(p, off);
    }
  }

  lemma StartsStep(p: Bytes, off: nat)
    requires off <= PACKET_BITS <= 8 * |p| && Follows(p, off, PACKET_BITS, OLD_LEAST)
    ensures Starts(p, off) == [off] + Starts(p, off + FrameSize(p, off))
  {
    hide Field, StreamBit;
    var next := off + FrameSize(p, off);
    var all, rest := Points(p, off, PACKET_BITS, OLD_LEAST), Points(p, next, PACKET_BITS, OLD_LEAST);
    PointsNonEmpty(p, next, PACKET_BITS, OLD_LEAST);
    assert all == [off] + rest && all[|all| - 1] == rest[|rest| - 1];
  }

  lemma NewStartsStep(p: Bytes, off: nat)
    requires off <= PACKET_BITS <= 8 * |p| && Follows(p, off, PACKET_BITS, NEW_LEAST)
    ensures NewStarts(p, off) == [off] + NewStarts(p, off + FrameSize(p, off))
  {
    hide Field, StreamBit, Uncounted;
    var next := off + FrameSize(p, off);
    var all, rest := Points(p, off, PACKET_BITS, NEW_LEAST), Points(p, next, PACKET_BITS, NEW_LEAST);
    PointsNonEmpty(p, next, PACKET_BITS, NEW_LEAST);
    assert all == [off] + rest && all[|all| - 1] == rest[|rest| - 1];
  }

  predicate EndsAlike(p: Bytes, last: nat)
    requires PACKET_BITS <= 8 * |p| && last + 15 <= PACKET_BITS
  {
    var size := FrameSize(p, last);
    && size != MAX_FRAME_LENGTH
    && (0 < size < 15 && StreamBit(p, last + size - 1) ==> Uncounted(p, last + size))
  }
}
