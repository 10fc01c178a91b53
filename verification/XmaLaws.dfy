/** What a call of `Decode` of the new XMA decoder (src/xenia/apu/xma_context_new.cc) does, in the bits of
    its two input buffers alone: where it reads, what the audio library gets, and when it jumps. */
module XmaLaws {
  import opened Arith
  import opened Words
  import opened BitStreams
  import opened Options
  import opened XmaPackets
  import opened XmaWalkers
  import opened XmaCursor
  import opened XmaContext

  /** The place in the current buffer from which a call reads, its frame, and the packet where a frame
      goes on that does not end in its own. `jumped` says that the call goes back to the loop start. */
  datatype Spot = Spot(jumped: bool, packet: nat, at: nat, size: nat, next: nat)

  /** At offset `Max(32, loopEnd)`, with loops left, a call reads from `Max(32, loopStart)`; elsewhere it
      reads where it stands. In front of the first frame of packet 0 it goes on to that frame. The size
      is in the first 15 bits of the frame, the skip count in the last 8 bits of the packet header. */
  ghost predicate IsSpot(c: Cursor, s: Spot) {
    var b := if c.current == 0 then c.in0.block else c.in1.block;
    && s.jumped == (c.loopCount > 0 && c.offset == Max(32, c.loopEnd))
    && var start := if s.jumped then Max(32, c.loopStart) else c.offset;
       && s.packet == start / 16384 && (s.packet + 1) * 16384 <= 8 * |b|
       && s.at == Max(start, 32 + Field(b, 16384 * s.packet + 6, 15))
       && s.at / 16384 == s.packet && s.at % 16384 >= 32 && s.at % 16384 + 15 <= 16384
       && s.size == Field(b, s.at, 15)
       && s.next == s.packet + Field(b, 16384 * s.packet + 24, 8) + 1
  }

  /** The frame runs on behind its packet, and neither the current buffer nor the other one has the
      packet where it goes on. */
  ghost predicate NoRest(c: Cursor, s: Spot) {
    var (b, other) := if c.current == 0 then (c.in0.block, c.in1) else (c.in1.block, c.in0);
    s.at % 16384 + s.size > 16384 && s.next >= |b| / 2048 && !(other.valid && other.hasAddress)
  }

  /** Bit `j` of the frame in the input buffers: from the place on to the end of the packet, then behind
      the header of the packet where it goes on, or of the first packet of the other buffer. */
  ghost predicate SpotBit(c: Cursor, s: Spot, j: nat)
    requires IsSpot(c, s) && !NoRest(c, s) && j < s.size
    requires s.at % 16384 + s.size <= 2 * 16384 - 32
    requires IsBlock(c.in0.block) && IsBlock(c.in1.block)
    requires (if c.current == 0 then c.in1 else c.in0).valid ==>
             1 <= |(if c.current == 0 then c.in1 else c.in0).block| / 2048
  {
    var (b, other) := if c.current == 0 then (c.in0.block, c.in1.block) else (c.in1.block, c.in0.block);
    var k := s.at % 16384 + j;
    if k < 16384 then StreamBit(b, s.at + j)
    else if s.next < |b| / 2048 then StreamBit(b, 16384 * s.next + 32 + (k - 16384))
    else StreamBit(other, 32 + (k - 16384))
  }

  // ---- where a call reads ---------------------------------------------------------------------

  lemma HeaderInBlock(b: Bytes, n: nat)
    requires IsBlock(b) && n < Packets(b)
    ensures (n + 1) * PACKET_BITS <= 8 * |b|
    ensures FirstAt(b, n) == 32 + Field(b, 16384 * n + 6, 15)
    ensures SkipCount(PacketOfBlock(b, n)) == Field(b, 16384 * n + 24, 8)
  {
    hide Field, PacketAt, FirstOffset, SkipCount;
    var p := PacketOfBlock(b, n);
    HeaderFields(p);
    FieldOfPacket(b, n, 6, 15);
    FieldOfPacket(b, n, 24, 8);
  }

  lemma SizeInBlock(b: Bytes, n: nat, x: nat)
    requires IsBlock(b) && n < Packets(b) && x + 15 <= PACKET_BITS
    ensures FrameSize(PacketOfBlock(b, n), x) == Field(b, 16384 * n + x, 15)
  {
    hide Field, PacketAt;
    FieldOfPacket(b, n, x, 15);
  }

  /** The spot of a call on well-formed buffers. */
  lemma SpotOf(c: Cursor) returns (s: Spot)
    requires Good(c) && c.AnyValid()
    ensures IsSpot(c, s) && IsSpotOf(c, s)
  {
    hide Field, PacketAt, FirstAt, NewStarts, OnFrame, WellFormedBlock, FrameSize, Frameless;
    LocatedOnFrame(c);
    var l := Located(c);
    var b, n := l.Current().block, l.offset / PACKET_BITS;
    LocatedRoom(l);
    HeaderInBlock(b, n);
    SizeInBlock(b, n, l.offset % PACKET_BITS);
    var jumped := c.loopCount > 0 && c.offset == Max(32, c.loopEnd);
    s := Spot(jumped, n, l.offset, Field(b, l.offset, 15), n + Field(b, 16384 * n + 24, 8) + 1);
    assert l.offset == 16384 * n + l.offset % 16384;
    StartInPacket(c);
  }

  /** Its link to the reading position of the model. */
  ghost predicate IsSpotOf(c: Cursor, s: Spot)
    requires Valid(c)
  {
    var l := Located(c);
    && l.offset == s.at && l.Current() == c.Current() && l.Other() == c.Other() && s.packet < Packets(c.Current().block)
    && s.at % PACKET_BITS + 15 <= PACKET_BITS && s.at / PACKET_BITS == s.packet
    && s.size == FrameSize(PacketOfBlock(c.Current().block, s.packet), s.at % PACKET_BITS)
    && s.next == s.packet + SkipCount(PacketOfBlock(c.Current().block, s.packet)) + 1
    && l.loopCount == if s.jumped && c.loopCount != 255 then c.loopCount - 1 else c.loopCount
  }

  lemma SpotIsReal(c: Cursor, s: Spot)
    requires Good(c) && c.AnyValid() && IsSpot(c, s)
    ensures IsSpotOf(c, s)
  {
    hide Field, IsSpotOf, Good;
    var t := SpotOf(c);
    assert s == t;
  }

  lemma LocatedRoom(l: Cursor)
    requires Good(l) && l.AnyValid()
    requires var n := l.offset / PACKET_BITS;
             var b := l.Current().block;
             && n < Packets(b) && !Frameless(b, n)
             && l.offset % PACKET_BITS in NewStarts(PacketOfBlock(b, n), FirstAt(b, n))
    ensures l.offset % PACKET_BITS + 15 <= PACKET_BITS && l.offset % PACKET_BITS >= 32
  {
    hide Field, PacketAt, FirstOffset, NewStarts, OnFrame, WellFormedPacket, WellFormedFrames;
    var b, n := l.Current().block, l.offset / PACKET_BITS;
    BlockPacket(b, n);
    InfoOnFrame(PacketOfBlock(b, n), l.offset % PACKET_BITS);
  }

  lemma StartInPacket(c: Cursor)
    requires Good(c) && c.AnyValid()
    ensures LoopUpdated(c).offset / PACKET_BITS == Located(c).offset / PACKET_BITS
  {
    hide Field, PacketAt, FirstAt, NewStarts, WellFormedBlock, GetPacketNumber, OnFrame;
    LocatedOnFrame(c);
    LoopKeepsGood(c);
    OnFrameHere(LoopUpdated(c).Current().block, LoopUpdated(c).offset);
  }

  /** On well-formed buffers a call finds the frame at its spot, unless the rest of it is missing: then the
      error status is 4. Exactly a jump uses up a loop, unless there are 255 of them. */
  lemma FoundAtSpot(c: Cursor) returns (s: Spot)
    requires Good(c) && c.AnyValid()
    ensures IsSpot(c, s)
    ensures var (cursor, found) := (XmaCursor.Decode(c).cursor, XmaCursor.Decode(c).found);
            var b := if c.current == 0 then c.in0.block else c.in1.block;
            && (found.Nothing? <==> NoRest(c, s))
            && (found.Nothing? ==> cursor == c.(offset := s.at, errorStatus := 4, loopCount := cursor.loopCount))
            && (found.Frame? ==> found.at == s.at % 16384 - 32 && found.size == s.size
                                 && found.packet == b[2048 * s.packet..2048 * (s.packet + 1)])
            && cursor.loopCount == if s.jumped && c.loopCount != 255 then c.loopCount - 1 else c.loopCount
  {
    hide Field, FirstAt, NewStarts, OnFrame, WellFormedBlock, FrameSize, SkipCount, XmaCursor.Decode, IsSpot, DecodeIn,
      Frameless;
    s := SpotOf(c);
    DecodeProgress(c);
    LocatedOnFrame(c);
    DecodeAtLocated(c);
    DecodeInKeeps(Located(c), s.packet);
    WaitsExactly(c, s);
  }

  lemma WaitsExactly(c: Cursor, s: Spot)
    requires Good(c) && c.AnyValid() && IsSpotOf(c, s)
    ensures WaitsForRest(c) <==> NoRest(c, s)
  {
    hide Field, PacketAt, FrameSize, SkipCount, Located, WellFormedBlock, OnFrame;
  }

  // ---- what the audio library gets ------------------------------------------------------------

  /** The bits of a frame found are the bits at its spot, also behind the end of its packet. */
  lemma FrameBits(c: Cursor, s: Spot, j: nat)
    requires Good(c) && c.AnyValid() && IsSpot(c, s) && !NoRest(c, s) && j < s.size
    ensures XmaCursor.Decode(c).found.Frame? && s.at % 16384 + s.size <= 2 * 16384 - 32
    ensures var f := XmaCursor.Decode(c).found;
            && f.at == s.at % 16384 - 32 && f.size == s.size && (f.at % 8 + j) / 8 < FRAME_BYTES
            && (StreamBit(FrameData(f), f.at % 8 + j) <==> SpotBit(c, s, j))
  {
    hide Field, FirstAt, NewStarts, OnFrame, WellFormedBlock, FrameSize, SkipCount, XmaCursor.Decode, Located,
      FrameData,
      StreamBit, PacketAt;
    SpotIsReal(c, s);
    WaitsExactly(c, s);
    DecodeProgress(c);
    GoodIsTakeable(c);
    SplitFramesAreTransparent(c, j);
    FrameEnds(c, s);
    var b, k := c.Current().block, s.at % 16384 + j;
    if k < 16384 {
      BitOfPacket(b, s.packet, k);
      assert 16384 * s.packet + k == s.at + j;
    } else {
      RestBit(c, s, k - 16384);
    }
  }

  lemma FrameEnds(c: Cursor, s: Spot)
    requires Good(c) && c.AnyValid() && IsSpotOf(c, s) && XmaCursor.Decode(c).found.Frame?
    ensures s.at % 16384 + s.size <= 2 * 16384 - 32
  {
    hide Field, FirstAt, NewStarts, OnFrame, WellFormedBlock, FrameSize, SkipCount, XmaCursor.Decode, Located, PacketAt;
    DecodeProgress(c);
    GoodIsTakeable(c);
  }

  lemma RestBit(c: Cursor, s: Spot, k: nat)
    requires Valid(c) && IsSpotOf(c, s) && !NoRest(c, s) && s.at % 16384 + s.size > 16384 && k < PAYLOAD_BITS
    ensures RestOf(Located(c)).Some?
    ensures StreamBit(RestOf(Located(c)).value, HEADER_BITS + k)
            <==> if s.next < Packets(c.Current().block) then StreamBit(c.Current().block, 16384 * s.next + 32 + k)
                 else 1 <= Packets(c.Other().block) && StreamBit(c.Other().block, 32 + k)
  {
    hide Field, FrameSize, SkipCount, Located, StreamBit, PacketAt;
    if s.next < Packets(c.Current().block) {
      BitOfPacket(c.Current().block, s.next, 32 + k);
    } else {
      BitOfPacket(c.Other().block, 0, 32 + k);
    }
  }

  /** What the audio library is given for the frame at a spot: one byte whose first six bits say how many
      bits to drop in front and behind, and bytes of which exactly the frame is left then. */
  lemma LibraryGetsFrame(c: Cursor, s: Spot)
    requires Good(c) && c.AnyValid() && IsSpot(c, s) && !NoRest(c, s)
    ensures XmaCursor.Decode(c).found.Frame? && s.at % 16384 + s.size <= 2 * 16384 - 32
    ensures var input := LibraryInput(XmaCursor.Decode(c).found);
            && |input| > 0 && input[0] < 0x100
            && var front, back := Field([input[0]], 0, 3), Field([input[0]], 3, 3);
               && 8 * |input| == 8 + front + s.size + back && back < 8
               && forall j :: 0 <= j < s.size ==> (StreamBit(input, 8 + front + j) <==> SpotBit(c, s, j))
  {
    hide Field, IsSpot, NoRest, XmaCursor.Decode, FrameData, StreamBit, SpotBit, PaddingByte, WellFormedBlock, OnFrame;
    SpotIsReal(c, s);
    SpotHasBits(c, s);
    FrameBits(c, s, 0);
    var f := XmaCursor.Decode(c).found;
    var padding := f.at % 8;
    PaddingIsExact(s.size, padding);
    var input := LibraryInput(f);
    assert input[0] == PaddingByte(f.size, padding);
    forall j | 0 <= j < s.size
      ensures StreamBit(input, 8 + padding + j) <==> SpotBit(c, s, j)
    {
      FrameBits(c, s, j);
      InputByte(input, FrameData(f), padding + j);
    }
  }

  lemma SpotHasBits(c: Cursor, s: Spot)
    requires Good(c) && c.AnyValid() && IsSpotOf(c, s)
    ensures 15 <= s.size < 0x8000
  {
    hide Field, FirstAt, FirstOffset, NewStarts, OnFrame, WellFormedBlock, WellFormedPacket, PacketAt, FrameSize;
    LocatedOnFrame(c);
    var b, x := c.Current().block, s.at % PACKET_BITS;
    BlockPacket(b, s.packet);
    InfoOnFrame(PacketOfBlock(b, s.packet), x);
    SizeIsShort(PacketOfBlock(b, s.packet), x);
  }

  lemma InputByte(input: Bytes, data: Bytes, k: nat)
    requires |input| > 0 && input[1..] <= data && k / 8 + 1 < |input|
    ensures StreamBit(input, 8 + k) == StreamBit(data, k)
  {
    assert (8 + k) / 8 == k / 8 + 1 && (8 + k) % 8 == k % 8;
    assert input[1..][k / 8] == data[k / 8];
  }
}
