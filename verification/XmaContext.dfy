/** `XmaContextNew` (src/xenia/apu/xma_context_new.cc): takes frames out of the input buffers one by
    one and hands the decoded sound on to a ring of 256-byte blocks, a few sub-frames at a time. */
module XmaContext {
  import opened Arith
  import opened Words
  import opened BitStreams
  import opened Options
  import opened XmaPackets
  import opened XmaWalkers
  import opened XmaCursor
  import opened RingBuffers

  const PAYLOAD_BYTES: nat := 2044
  const FRAME_BYTES: nat := 4096
  const RAW_BYTES: nat := 2048
  const BLOCK_BYTES: nat := 256

  // ---- the bits of a frame ----------------------------------------------------------------------

  function Zeros(n: nat): (s: Bytes)
    ensures |s| == n && AreBytes(s)
  {
    seq(n, _ => 0)
  }

  function Payload(p: Bytes): (s: Bytes)
    requires |p| == PACKET_BYTES
    ensures |s| == PAYLOAD_BYTES && (AreBytes(p) ==> AreBytes(s))
  {
    p[4..]
  }

  ghost predicate IsFound(f: Found) {
    f.Frame? ==> IsPacket(f.packet) && (f.rest.Some? ==> IsPacket(f.rest.value))
  }

  /** `input_buffer_`: the payload of the packet and, for a split frame, of the packet where it goes
      on. */
  function Joined(f: Found): (s: Bytes)
    requires f.Frame? && IsFound(f)
    ensures |s| == 2 * PAYLOAD_BYTES && AreBytes(s)
  {
    Payload(f.packet) + (if f.rest.Some? then Payload(f.rest.value) else Zeros(PAYLOAD_BYTES))
  }

  /** Bit `j` of a frame in the stream of payloads: behind the end of its packet it goes on behind the
      header of the next one. */
  predicate FrameBit(f: Found, j: nat)
    requires f.Frame? && IsFound(f) && f.at + j < 2 * PAYLOAD_BITS && (f.at + j >= PAYLOAD_BITS ==> f.rest.Some?)
  {
    var k := HEADER_BITS + f.at + j;
    if k < PACKET_BITS then StreamBit(f.packet, k) else StreamBit(f.rest.value, HEADER_BITS + k - PACKET_BITS)
  }

  lemma JoinedIsStream(f: Found, j: nat)
    requires f.Frame? && IsFound(f) && f.at + j < 2 * PAYLOAD_BITS && (f.at + j >= PAYLOAD_BITS ==> f.rest.Some?)
    ensures StreamBit(Joined(f), f.at + j) == FrameBit(f, j)
  {
    hide Bit;
    var k := f.at + j;
    if k < PAYLOAD_BITS {
      ByteOfPayload(f.packet, k);
      assert Joined(f)[k / 8] == Payload(f.packet)[k / 8];
    } else {
      ByteOfPayload(f.rest.value, k - PAYLOAD_BITS);
      assert k / 8 == PAYLOAD_BYTES + (k - PAYLOAD_BITS) / 8 && k % 8 == (k - PAYLOAD_BITS) % 8;
      assert Joined(f)[k / 8] == Payload(f.rest.value)[(k - PAYLOAD_BITS) / 8];
    }
  }

  lemma ByteOfPayload(p: Bytes, k: nat)
    requires |p| == PACKET_BYTES && k < PAYLOAD_BITS
    ensures Payload(p)[k / 8] == p[(HEADER_BITS + k) / 8] && k % 8 == (HEADER_BITS + k) % 8
  {
  }

  /** `xma_frame_` behind its first byte: the frame begins at bit `at % 8`, and all other bits are
      zero. */
  ghost predicate HoldsFrame(data: Bytes, f: Found)
    requires |data| == FRAME_BYTES && f.Frame? && IsFound(f) && f.at + f.size <= 2 * PAYLOAD_BITS
  {
    AreBytes(data) && forall i, r :: 0 <= i < FRAME_BYTES && 0 <= r < 8 ==>
      (Bit(data[i], 7 - r) <==> WantedBit(f, i, r))
  }

  /** Bit `r` of byte `i` of that buffer. */
  predicate WantedBit(f: Found, i: nat, r: nat)
    requires f.Frame? && IsFound(f) && f.at + f.size <= 2 * PAYLOAD_BITS
  {
    f.at % 8 <= 8 * i + r < f.at % 8 + f.size && StreamBit(Joined(f), f.at - f.at % 8 + (8 * i + r))
  }

  /** A frame that can be copied out of the two payloads. */
  ghost predicate Takeable(f: Found) {
    f.Frame? && IsFound(f) && Copyable(f)
  }

  ghost predicate Copyable(f: Found) {
    f.Frame? ==> f.at + f.size <= 2 * PAYLOAD_BITS && (f.at % 8 > 0 ==> f.size >= 8 - f.at % 8)
  }

  /** The first `n` bits of byte `i` of that buffer as a number. */
  function FrameByte(f: Found, i: nat, n: nat): nat
    requires f.Frame? && IsFound(f) && f.at + f.size <= 2 * PAYLOAD_BITS
  {
    if n == 0 then 0 else 2 * FrameByte(f, i, n - 1) + (if WantedBit(f, i, n - 1) then 1 else 0)
  }

  /** There is one such buffer for every frame. */
  ghost function FrameData(f: Found): (data: Bytes)
    ensures |data| == FRAME_BYTES
  {
    seq(FRAME_BYTES, i requires 0 <= i < FRAME_BYTES => if Takeable(f) then FrameByte(f, i, 8) else 0)
  }

  lemma {:induction false} FrameByteBit(f: Found, i: nat, n: nat, k: nat)
    requires f.Frame? && IsFound(f) && f.at + f.size <= 2 * PAYLOAD_BITS && k < n
    ensures IsWord(FrameByte(f, i, n), n) && (Bit(FrameByte(f, i, n), k) <==> WantedBit(f, i, n - 1 - k))
    decreases n
  {
    hide WantedBit, IsFound;
    assert FrameByte(f, i, n) / 2 == FrameByte(f, i, n - 1);
    if n > 1 {
      FrameByteBit(f, i, n - 1, if k == 0 then 0 else k - 1);
    }
  }

  lemma DataIsHeld(f: Found)
    requires Takeable(f)
    ensures HoldsFrame(FrameData(f), f)
  {
    hide WantedBit, IsFound, FrameByte, ShiftRight, Bit;
    forall i, r | 0 <= i < FRAME_BYTES && 0 <= r < 8
      ensures FrameData(f)[i] < 0x100 && (Bit(FrameData(f)[i], 7 - r) <==> WantedBit(f, i, r))
    {
      FrameByteBit(f, i, 8, 7 - r);
      ByteIsWord(FrameByte(f, i, 8));
    }
    forall i | 0 <= i < FRAME_BYTES
      ensures FrameData(f)[i] < 0x100
    {
      FrameByteBit(f, i, 8, 0);
      ByteIsWord(FrameByte(f, i, 8));
    }
  }

  lemma HeldIsData(data: Bytes, f: Found)
    requires |data| == FRAME_BYTES && Takeable(f) && HoldsFrame(data, f)
    ensures data == FrameData(f)
  {
    hide WantedBit, IsFound, FrameByte, ShiftRight, Bit, FrameData;
    DataIsHeld(f);
    forall i | 0 <= i < FRAME_BYTES
      ensures data[i] == FrameData(f)[i]
    {
      ByteIsWord(data[i]);
      ByteIsWord(FrameData(f)[i]);
      forall k | 0 <= k < 8
        ensures Bit(data[i], k) <==> Bit(FrameData(f)[i], k)
      {
        assert Bit(data[i], 7 - (7 - k)) <==> WantedBit(f, i, 7 - k);
        assert Bit(FrameData(f)[i], 7 - (7 - k)) <==> WantedBit(f, i, 7 - k);
      }
      SameBits(data[i], FrameData(f)[i], 8);
    }
  }

  /** The bits handed to the audio library are the bits of the frame in the stream of payloads. */
  lemma FrameIsTransparent(data: Bytes, f: Found, j: nat)
    requires |data| == FRAME_BYTES && f.Frame? && IsFound(f) && f.at + f.size <= 2 * PAYLOAD_BITS
    requires HoldsFrame(data, f) && j < f.size && (f.at + f.size > PAYLOAD_BITS ==> f.rest.Some?)
    ensures (f.at % 8 + j) / 8 < FRAME_BYTES && StreamBit(data, f.at % 8 + j) == FrameBit(f, j)
  {
    hide Bit, Joined, FrameBit, IsFound, AreBytes;
    var p := f.at % 8 + j;
    assert p == 8 * (p / 8) + p % 8;
    JoinedIsStream(f, j);
    assert f.at - f.at % 8 + (8 * (p / 8) + p % 8) == f.at + j;
    assert WantedBit(f, p / 8, p % 8) == StreamBit(Joined(f), f.at + j);
  }

  /** Bit `j` of the frame that begins at the reading position `l`, in the input buffers: from the
      position on to the end of the packet, then behind the header of the packet that the skip count
      names, or of the first packet of the other buffer. */
  predicate InputBit(l: Cursor, j: nat)
    requires Valid(l) && l.offset / PACKET_BITS < Packets(l.Current().block)
             && l.offset % PACKET_BITS + j < PACKET_BITS + PAYLOAD_BITS
    requires l.offset % PACKET_BITS + j >= PACKET_BITS ==> RestOf(l).Some?
  {
    var n, k := l.offset / PACKET_BITS, l.offset % PACKET_BITS + j;
    if k < PACKET_BITS then StreamBit(PacketOfBlock(l.Current().block, n), k)
    else StreamBit(RestOf(l).value, HEADER_BITS + (k - PACKET_BITS))
  }

  function RestOf(l: Cursor): (p: Option<Bytes>)
    requires Valid(l) && l.offset / PACKET_BITS < Packets(l.Current().block)
    ensures p.Some? ==> |p.value| == PACKET_BYTES
  {
    var n := l.offset / PACKET_BITS;
    GetNextPacket(l, n + SkipCount(PacketOfBlock(l.Current().block, n)) + 1)
  }

  /** On well-formed buffers the audio library gets exactly the bits of the frame at the reading
      position, wherever it goes on. */
  lemma SplitFramesAreTransparent(c: Cursor, j: nat)
    requires Good(c) && XmaCursor.Decode(c).found.Frame? && j < XmaCursor.Decode(c).found.size
    ensures var f, l := XmaCursor.Decode(c).found, Located(c);
            && Takeable(f) && FoundAt(l, f) && (f.at % 8 + j) / 8 < FRAME_BYTES
            && l.offset % PACKET_BITS + j < PACKET_BITS + PAYLOAD_BITS
            && (l.offset % PACKET_BITS + j >= PACKET_BITS ==> RestOf(l).Some?)
            && StreamBit(FrameData(f), f.at % 8 + j) == InputBit(l, j)
  {
    hide XmaCursor.Decode, Located, WellFormedBlock, OnFrame, HoldsFrame, StreamBit, FrameSize, GetNextPacket,
      PacketAt, IsFound,
      WaitsForRest, FrameData;
    var f, l := XmaCursor.Decode(c).found, Located(c);
    DecodeProgress(c);
    GoodIsTakeable(c);
    FoundHasRest(l, f);
    RestIsPresent(c, f);
    DataIsHeld(f);
    FrameIsTransparent(FrameData(f), f, j);
  }

  lemma RestIsPresent(c: Cursor, f: Found)
    requires Valid(c) && !WaitsForRest(c) && FoundAt(Located(c), f)
    ensures f.at + f.size > PAYLOAD_BITS ==> f.rest.Some?
  {
    hide Located, FrameSize, GetNextPacket, PacketAt;
  }

  lemma FoundHasRest(l: Cursor, f: Found)
    requires Valid(l) && FoundAt(l, f) && IsFound(f)
    ensures l.offset / PACKET_BITS < Packets(l.Current().block) && f.at == l.offset % PACKET_BITS - HEADER_BITS
    ensures f.packet == PacketOfBlock(l.Current().block, l.offset / PACKET_BITS)
    ensures f.at + f.size > PAYLOAD_BITS ==> f.rest == RestOf(l)
    ensures f.rest.None? ==> f.at + f.size <= PAYLOAD_BITS || RestOf(l).None?
  {
    hide FrameSize, GetNextPacket, PacketAt;
  }

  // ---- the packet for the audio library -----------------------------------------------------------

  /** `PreparePacket`: the number of bytes ... */
  function PacketSize(size: nat, padding: nat): nat {
    1 + (padding + size) / 8 + (if (padding + size) % 8 > 0 then 1 else 0)
  }

  /** ... and the byte in front of them. */
  function PaddingByte(size: nat, padding: nat): nat {
    var end := (8 * PacketSize(size, padding) - (8 + padding + size)) % 0x1_0000_0000;
    Or(ShiftLeft(And(padding, 7), 5), ShiftLeft(And(end, 7), 2))
  }

  /** Read most significant bit first, the byte says how many bits to drop in front of the frame and
      behind it: what remains is exactly the frame. */
  lemma PaddingIsExact(size: nat, padding: nat)
    requires padding < 8 && size < 0x8000
    ensures var byte := PaddingByte(size, padding);
            && byte < 0x100
            && 8 * (PacketSize(size, padding) - 1) == Field([byte], 0, 3) + size + Field([byte], 3, 3)
            && Field([byte], 0, 3) == padding && Field([byte], 3, 3) < 8
  {
    hide Or, ShiftLeft, And, Field, ShiftRight;
    var end := (8 * PacketSize(size, padding) - (8 + padding + size)) % 0x1_0000_0000;
    assert end == 8 * (PacketSize(size, padding) - 1) - padding - size && end < 8;
    MaskedIsSame(padding);
    MaskedIsSame(end);
    var byte := PaddingByte(size, padding);
    PaddingFields(padding, end);
  }

  lemma MaskedIsSame(x: nat)
    requires x < 8
    ensures And(x, 7) == x && IsWord(x, 3)
  {
    assert Pow2(3) == 8;
    if x == 0 {} else if x == 1 {} else if x == 2 {} else if x == 3 {} else if x == 4 {} else if x == 5 {}
      else if x == 6 {} else {}
  }

  lemma PaddingFields(x: nat, y: nat)
    requires IsWord(x, 3) && IsWord(y, 3)
    ensures var byte := Or(ShiftLeft(x, 5), ShiftLeft(y, 2));
            byte < 0x100 && Field([byte], 0, 3) == x && Field([byte], 3, 3) == y
  {
    hide Field, Or, ShiftLeft, ShiftRight, Pow2;
    var byte := Or(ShiftLeft(x, 5), ShiftLeft(y, 2));
    PaddingSum(x, y);
    var b := [byte];
    ByteFields(b, byte);
    FieldAppend(b, 0, 3, 3);
    ShiftLeftValues(x);
  }

  lemma ShiftLeftValues(x: nat)
    ensures ShiftLeft(x, 2) == 4 * x && ShiftLeft(x, 3) == 8 * x && ShiftLeft(x, 5) == 32 * x
  {
    assert ShiftLeft(x, 1) == 2 * x;
    assert ShiftLeft(x, 2) == 4 * x;
    assert ShiftLeft(x, 3) == 8 * x;
    assert ShiftLeft(x, 4) == 16 * x;
  }

  lemma ShiftRightValues(x: nat)
    ensures ShiftRight(x, 2) == x / 4 && ShiftRight(x, 5) == x / 32
  {
    assert ShiftRight(x / 16, 1) == x / 32;
    assert ShiftRight(x / 8, 2) == x / 32;
    assert ShiftRight(x / 4, 3) == x / 32;
    assert ShiftRight(x / 2, 4) == x / 32;
    assert ShiftRight(x / 2, 1) == x / 4;
  }

  lemma PaddingSum(x: nat, y: nat)
    requires IsWord(x, 3) && IsWord(y, 3)
    ensures Or(ShiftLeft(x, 5), ShiftLeft(y, 2)) == 32 * x + 4 * y < 0x100 && y < 8
  {
    hide Or, ShiftLeft;
    assert Pow2(3) == 8 && Pow2(5) == 32;
    ShiftLeftValues(x);
    ShiftLeftValues(y);
    OrAppends(x, ShiftLeft(y, 2), 3, 5);
  }

  lemma ByteFields(b: Bytes, byte: nat)
    requires b == [byte] && byte < 0x100
    ensures Field(b, 0, 3) == byte / 32 && Field(b, 0, 6) == byte / 4
  {
    hide Field, ShiftRight;
    ByteIsField(b, 0);
    FieldShift(b, 0, 8, 5);
    FieldShift(b, 0, 8, 2);
    ShiftRightValues(byte);
  }

  // ---- what Decode may be called on ---------------------------------------------------------------

  /** The walk over the packet ends, and the frame found there can be copied: it reaches the end of its
      first byte and ends in the next payload at the latest. */
  ghost predicate Readable(c: Cursor)
    requires Valid(c)
  {
    c.AnyValid() && c.Current().valid ==>
      var l := Located(c);
      var n := GetPacketNumber(|l.Current().block|, LoopUpdated(c).offset);
      n != -1 ==> WalkEnds(l.Current().block, n) && Copyable(DecodeIn(l, n).found)
  }

  predicate WalkEnds(b: Bytes, n: nat)
    requires n < Packets(b)
  {
    var first := Min(FirstAt(b, n), PACKET_BITS);
    0 < first && !Hangs(PacketOfBlock(b, n), first)
  }

  /** Well-formed buffers are readable. */
  lemma GoodIsReadable(c: Cursor)
    requires Good(c)
    ensures Readable(c)
  {
    hide WellFormedBlock, FirstAt, NewStarts, OnFrame, DecodeIn, FrameSize, Hangs, InfoOf, WaitsBehind;
    if c.AnyValid() {
      LocatedOnFrame(c);
      var l := Located(c);
      var b, n := l.Current().block, l.offset / PACKET_BITS;
      DecodeInKeeps(l, n);
      BlockPacket(b, n);
      FirstIsFirst(b, n);
      InfoOnFrame(PacketOfBlock(b, n), l.offset % PACKET_BITS);
    }
  }

  lemma GoodIsTakeable(c: Cursor)
    requires Good(c) && XmaCursor.Decode(c).found.Frame?
    ensures Takeable(XmaCursor.Decode(c).found)
  {
    hide WellFormedBlock, FirstAt, OnFrame, DecodeIn, IsFound, XmaCursor.Decode, Located, LoopUpdated, GetPacketNumber;
    DecodeProgress(c);
    GoodIsReadable(c);
    ReadableIsCopyable(c);
  }

  lemma ReadableIsCopyable(c: Cursor)
    requires Good(c) && c.AnyValid() && Readable(c)
    ensures IsFound(XmaCursor.Decode(c).found) && Copyable(XmaCursor.Decode(c).found)
  {
    hide WellFormedBlock, FirstAt, NewStarts, OnFrame, DecodeIn, IsFound, Copyable, WalkEnds, IsBlock, PacketAt;
    LocatedOnFrame(c);
    DecodeAtLocated(c);
    FoundIsFound(Located(c), Located(c).offset / PACKET_BITS);
  }

  /** What `ConvertFrame` leaves in `raw_frame_`: the samples of the audio library over zeros. */
  function Sound(samples: seq<nat>): (s: seq<nat>)
    ensures |s| == RAW_BYTES
    ensures forall k :: 0 <= k < 2048 ==> s[k] == if k < |samples| then samples[k] else 0
  {
    if |samples| >= RAW_BYTES then samples[..RAW_BYTES] else samples + seq(RAW_BYTES - |samples|, _ => 0)
  }

  /** The bytes of `xma_frame_` that the audio library gets for a frame. */
  ghost function LibraryInput(f: Found): Bytes
    requires f.Frame?
  {
    var padding := f.at % 8;
    [PaddingByte(f.size, padding)] + FrameData(f)[..Min(PacketSize(f.size, padding) - 1, FRAME_BYTES)]
  }

  /** The `n` sub-frames of sound that a frame becomes, ... */
  ghost function FrameSound(library: Bytes -> seq<nat>, f: Found, n: nat): (sound: seq<nat>)
    requires f.Frame? && n <= 8
    ensures |sound| == BLOCK_BYTES * n
  {
    Sound(library(LibraryInput(f)))[..BLOCK_BYTES * n]
  }

  /** ... and the sound of several frames, in order. */
  ghost function Sounds(library: Bytes -> seq<nat>, frames: seq<Found>, n: nat): seq<nat>
    requires n <= 8
  {
    if frames == [] then []
    else (if frames[0].Frame? then FrameSound(library, frames[0], n) else []) + Sounds(library, frames[1..], n)
  }

  lemma {:induction false} SoundsAdd(library: Bytes -> seq<nat>, a: seq<Found>, b: seq<Found>, n: nat)
    requires n <= 8
    ensures Sounds(library, a + b, n) == Sounds(library, a, n) + Sounds(library, b, n)
    decreases |a|
  {
    hide FrameSound;
    if a == [] {
      assert a + b == b;
    } else {
      assert (a + b)[1..] == a[1..] + b && (a + b)[0] == a[0];
      SoundsAdd(library, a[1..], b, n);
    }
  }

  /** The state of a run of `k` calls of `XmaCursor.Decode` that began at `start` with the sound
      `begun`: every frame found was decoded, once and in order, and nothing else was. */
  ghost predicate Ran(library: Bytes -> seq<nat>, n: nat, start: Cursor, begun: seq<nat>, k: nat, cursor: Cursor,
                      decoded: seq<nat>) {
    && n <= 8 && Good(start) && cursor == CursorAfter(start, k)
    && decoded == begun + Sounds(library, FramesOf(start, k), n)
  }

  /** All these calls found a frame, except perhaps the last one: the frames are the first ones of the
      whole run. */
  ghost predicate FramesFirst(start: Cursor, k: nat)
    requires Good(start)
  {
    && (k > 0 ==> |FramesOf(start, k - 1)| == k - 1)
    && (start.loopCount != LOOP_FOREVER ==> FramesOf(start, k) <= Drain(start))
  }

  lemma FirstOfRun(start: Cursor, k: nat)
    requires Good(start) && |FramesOf(start, k)| == k
    ensures FramesFirst(start, k + 1)
  {
    hide XmaCursor.Decode, WellFormedBlock, OnFrame, Drain, CursorAfter, FramesOf;
    CallsAdd(start, k, 1);
    OneCall(CursorAfter(start, k));
    if start.loopCount != LOOP_FOREVER {
      FramesAreDrained(start, k);
      if |FramesOf(start, k + 1)| == k + 1 {
        FramesAreDrained(start, k + 1);
      }
    }
  }

  lemma RanNothing(library: Bytes -> seq<nat>, n: nat, start: Cursor, begun: seq<nat>)
    requires n <= 8 && Good(start)
    ensures Ran(library, n, start, begun, 0, start, begun) && FramesOf(start, 0) == [] && FramesFirst(start, 0)
  {
    hide WellFormedBlock, OnFrame;
  }

  /** The reading position, all sound decoded so far, and all sound written so far. */
  datatype Progress = Progress(cursor: Cursor, decoded: seq<nat>, written: seq<nat>)

  /** A call of `Work`. */
  ghost predicate WorkStep(library: Bytes -> seq<nat>, n: nat, calls: nat, a: Progress, b: Progress) {
    && Ran(library, n, a.cursor, a.decoded, calls, b.cursor, b.decoded) && FramesFirst(a.cursor, calls)
    && a.written <= b.written <= b.decoded
  }

  lemma RanOnce(library: Bytes -> seq<nat>, n: nat, start: Cursor, begun: seq<nat>, k: nat, cursor: Cursor,
                decoded: seq<nat>, decoded': seq<nat>)
    requires Ran(library, n, start, begun, k, cursor, decoded)
    requires Good(cursor)
    requires var f := XmaCursor.Decode(cursor).found;
             decoded' == decoded + if f.Frame? then FrameSound(library, f, n) else []
    ensures Ran(library, n, start, begun, k + 1, XmaCursor.Decode(cursor).cursor, decoded')
    ensures FramesOf(start, k + 1) == FramesOf(start, k) + IfFrame(XmaCursor.Decode(cursor).found)
  {
    hide WellFormedBlock, OnFrame, XmaCursor.Decode, FrameSound, CursorAfter, FramesOf;
    var f := XmaCursor.Decode(cursor).found;
    CallsAdd(start, k, 1);
    OneCall(cursor);
    SoundsAdd(library, FramesOf(start, k), IfFrame(f), n);
    assert Sounds(library, IfFrame(f), n) == if f.Frame? then FrameSound(library, f, n) else [] by {
      if f.Frame? {
        assert [f][1..] == [];
        assert FrameSound(library, f, n) + [] == FrameSound(library, f, n);
      }
    }
    assert begun + Sounds(library, FramesOf(start, k), n) + Sounds(library, IfFrame(f), n)
        == begun + (Sounds(library, FramesOf(start, k), n) + Sounds(library, IfFrame(f), n));
  }

  // ---- calls of Work in a row ---------------------------------------------------------------------

  /** Calls of `Work`, each from `before[i]` to `after[i]`. In between the guest reads sound, hands in
      buffers and moves the reading position as it likes. */
  ghost predicate WorkCalls(library: Bytes -> seq<nat>, n: seq<nat>, calls: seq<nat>, before: seq<Progress>,
                            after: seq<Progress>) {
    && |n| == |calls| == |before| == |after| && (forall i :: 0 <= i < |n| ==> n[i] <= 8 && Good(before[i].cursor))
    && (forall i :: 0 <= i < |n| ==> WorkStep(library, n[i], calls[i], before[i], after[i]))
    && (forall i :: 1 <= i < |n| ==> before[i] == after[i - 1].(cursor := before[i].cursor))
  }

  /** The sound of the frames that each of the first `k` calls finds from its reading position on. */
  ghost function SoundOfCalls(library: Bytes -> seq<nat>, n: seq<nat>, calls: seq<nat>, before: seq<Progress>,
                              k: nat): seq<nat>
    requires k <= |n| == |calls| == |before| && forall i :: 0 <= i < |n| ==> n[i] <= 8 && Good(before[i].cursor)
  {
    if k == 0 then []
    else SoundOfCalls(library, n, calls, before, k - 1)
         + Sounds(library, FramesOf(before[k - 1].cursor, calls[k - 1]), n[k - 1])
  }

  /** Over any calls of `Work`: the sound decoded is that of the frames found by each call in turn, and
      what is in the ring is a first part of it. */
  lemma {:induction false} CallsConserveSound(library: Bytes -> seq<nat>, n: seq<nat>, calls: seq<nat>,
                                              before: seq<Progress>, after: seq<Progress>, k: nat)
    requires WorkCalls(library, n, calls, before, after) && 0 < k <= |n|
    ensures after[k - 1].decoded == before[0].decoded + SoundOfCalls(library, n, calls, before, k)
    ensures before[0].written <= after[k - 1].written <= after[k - 1].decoded
    decreases k
  {
    hide Good, FramesOf, Sounds, WorkStep, SoundOfCalls;
    var i := k - 1;
    assert WorkStep(library, n[i], calls[i], before[i], after[i]);
    SoundOfOneCall(library, n[i], calls[i], before[i], after[i]);
    OneMoreCall(library, n, calls, before, i);
    if i > 0 {
      CallsConserveSound(library, n, calls, before, after, i);
      assert before[i] == after[i - 1].(cursor := before[i].cursor);
    }
  }

  lemma SoundOfOneCall(library: Bytes -> seq<nat>, n: nat, calls: nat, a: Progress, b: Progress)
    requires n <= 8 && Good(a.cursor) && WorkStep(library, n, calls, a, b)
    ensures b.decoded == a.decoded + Sounds(library, FramesOf(a.cursor, calls), n)
            && a.written <= b.written <= b.decoded
  {
    hide Good, FramesFirst, CursorAfter;
  }

  lemma OneMoreCall(library: Bytes -> seq<nat>, n: seq<nat>, calls: seq<nat>, before: seq<Progress>, i: nat)
    requires i < |n| == |calls| == |before| && forall i :: 0 <= i < |n| ==> n[i] <= 8 && Good(before[i].cursor)
    ensures SoundOfCalls(library, n, calls, before, i + 1)
            == SoundOfCalls(library, n, calls, before, i) + Sounds(library, FramesOf(before[i].cursor, calls[i]), n[i])
    ensures SoundOfCalls(library, n, calls, before, 0) == []
  {
    hide Good, FramesOf, Sounds;
  }

  function Sum(calls: seq<nat>, k: nat): nat
    requires k <= |calls|
  {
    if k == 0 then 0 else Sum(calls, k - 1) + calls[k - 1]
  }

  /** When the guest leaves the reading position alone, all calls together find the frames of one run,
      each once and in order: nothing is lost or repeated from one call to the next. */
  lemma {:induction false} CallsAreOneRun(library: Bytes -> seq<nat>, n: seq<nat>, calls: seq<nat>,
                                          before: seq<Progress>, after: seq<Progress>, k: nat)
    requires WorkCalls(library, n, calls, before, after) && 0 < k <= |n| && forall i :: 0 <= i < |n| ==> n[i] == n[0]
    requires forall i :: 1 <= i < |n| ==> before[i] == after[i - 1]
    ensures Ran(library, n[0], before[0].cursor, before[0].decoded, Sum(calls, k), after[k - 1].cursor,
                after[k - 1].decoded)
    decreases k
  {
    hide WellFormedBlock, OnFrame, FramesFirst, FramesOf, CursorAfter, Sounds;
    assert WorkStep(library, n[k - 1], calls[k - 1], before[k - 1], after[k - 1]);
    if k > 1 {
      CallsAreOneRun(library, n, calls, before, after, k - 1);
      RunsJoin(library, n[0], before[0], before[k - 1], after[k - 1], Sum(calls, k - 1), calls[k - 1]);
    } else {
      assert Sum(calls, 1) == Sum(calls, 0) + calls[0];
    }
  }

  /** These are the first frames of the whole run, and all of its frames once no buffer is left; with
      loops, as long as no call had to wait for the rest of a frame. */
  lemma CallsFindAll(library: Bytes -> seq<nat>, n: seq<nat>, calls: seq<nat>, before: seq<Progress>,
                     after: seq<Progress>, k: nat)
    requires WorkCalls(library, n, calls, before, after) && 0 < k <= |n| && forall i :: 0 <= i < |n| ==> n[i] == n[0]
    requires forall i :: 1 <= i < |n| ==> before[i] == after[i - 1]
    requires before[0].cursor.loopCount != LOOP_FOREVER
    requires before[0].cursor.loopCount == 0 || after[k - 1].cursor.errorStatus != 4
    ensures var start, frames := before[0].cursor, FramesOf(before[0].cursor, Sum(calls, k));
            && after[k - 1].decoded == before[0].decoded + Sounds(library, frames, n[0])
            && frames <= Drain(start)
            && (!after[k - 1].cursor.AnyValid() ==> frames == Drain(start))
  {
    hide WellFormedBlock, OnFrame, FramesOf, CursorAfter, Sounds, Drain;
    CallsAreOneRun(library, n, calls, before, after, k);
    var start, total := before[0].cursor, Sum(calls, k);
    if total > 0 && CursorAfter(start, total - 1).errorStatus == 4 {
      CallsAdd(start, total - 1, 1);
      ErrorStays(CursorAfter(start, total - 1), 1);
    }
    CallsFindFirst(start, total);
  }

  lemma RunsJoin(library: Bytes -> seq<nat>, n: nat, a: Progress, b: Progress, c: Progress, j: nat, k: nat)
    requires Ran(library, n, a.cursor, a.decoded, j, b.cursor, b.decoded)
             && Ran(library, n, b.cursor, b.decoded, k, c.cursor, c.decoded)
    ensures Ran(library, n, a.cursor, a.decoded, j + k, c.cursor, c.decoded)
  {
    hide WellFormedBlock, OnFrame, FramesOf, CursorAfter, Sounds;
    CallsAdd(a.cursor, j, k);
    SoundsAdd(library, FramesOf(a.cursor, j), FramesOf(b.cursor, k), n);
  }

  class Context {
    var cursor: Cursor
    var subframeDecodeCount: nat
    var isStereo: bool
    var outputBlockCount: nat
    var outputReadOffset: nat
    var outputWriteOffset: nat
    var outputValid: bool
    var isEnabled: bool
    var isAllocated: bool
    var remainingBlocks: int
    var remainingSubframes: nat
    var rawFrame: seq<nat>
    const inputBuffer: array<nat>
    const frame: array<nat>
    /** The sound of all frames decoded so far, and the part of it that was written to the ring. */
    ghost var decoded: seq<nat>
    ghost var written: seq<nat>

    ghost predicate Shape()
      reads this
    {
      && XmaCursor.Valid(cursor) && inputBuffer.Length == 2 * PAYLOAD_BYTES && frame.Length == FRAME_BYTES
      && inputBuffer != frame
      && |rawFrame| == RAW_BYTES && subframeDecodeCount < 16 && outputBlockCount < 32 && outputReadOffset < 32
      && outputWriteOffset < 32
    }

    /** Sub-frames of a frame: four per channel. */
    function Subframes(): (n: nat)
      reads this
    {
      if isStereo then 8 else 4
    }

    /** The sound that is decoded and not yet written. */
    function Pending(): (s: seq<nat>)
      requires |rawFrame| == RAW_BYTES && remainingSubframes <= Subframes()
      reads this
    {
      rawFrame[BLOCK_BYTES * (Subframes() - remainingSubframes)..BLOCK_BYTES * Subframes()]
    }

    /** Nothing is lost and nothing is written twice. */
    ghost predicate Valid()
      reads this
    {
      Shape() && remainingSubframes <= Subframes() && decoded == written + Pending()
    }

    constructor ()
      ensures Valid() && fresh(inputBuffer) && fresh(frame) && decoded == [] && !isEnabled
    {
      var none := Input(false, false, []);
      cursor := Cursor(none, none, 0, HEADER_BITS, 0, 0, 0, 0);
      subframeDecodeCount, isStereo, outputBlockCount, outputReadOffset, outputWriteOffset, outputValid := 0, false,
        0, 0, 0, false;
      isEnabled, isAllocated, remainingBlocks, remainingSubframes := false, false, 0, 0;
      rawFrame := Sound([]);
      decoded, written := [], [];
      inputBuffer := new nat[2 * PAYLOAD_BYTES](_ => 0);
      frame := new nat[FRAME_BYTES](_ => 0);
    }

    method SwapInputBuffer()
      modifies this`cursor
      ensures cursor == Swapped(old(cursor))
      ensures cursor.offset == 32 && !cursor.Other().valid && cursor.Current() == old(cursor.Other())
    {
      if cursor.current == 0 {
        cursor := cursor.(in0 := cursor.in0.(valid := false));
      } else {
        cursor := cursor.(in1 := cursor.in1.(valid := false));
      }
      cursor := cursor.(current := if cursor.current == 0 then 1 else 0);
      cursor := cursor.(offset := HEADER_BITS);
    }

    method UpdateLoopStatus()
      modifies this`cursor
      ensures cursor == LoopUpdated(old(cursor))
    {
      if cursor.loopCount == 0 {
        return;
      }
      var loopStart := Max(HEADER_BITS, cursor.loopStart);
      var loopEnd := Max(HEADER_BITS, cursor.loopEnd);
      if cursor.offset != loopEnd {
        return;
      }
      cursor := cursor.(offset := loopStart);
      if cursor.loopCount != LOOP_FOREVER {
        cursor := cursor.(loopCount := cursor.loopCount - 1);
      }
    }

    /** The two copies of payloads, and the copy of the frame out of them. */
    method FillFrame(found: Found) returns (padding: nat)
      requires inputBuffer.Length == 2 * PAYLOAD_BYTES && frame.Length == FRAME_BYTES && inputBuffer != frame
      requires found.Frame? && IsFound(found) && Copyable(found) && found.size < 0x8000
      modifies inputBuffer, frame
      ensures padding == found.at % 8 && HoldsFrame(frame[..], found)
    {
      hide Joined, CopiedBit, Bit;
      forall i | 0 <= i < 2 * PAYLOAD_BYTES { inputBuffer[i] := 0; }
      if found.rest.Some? {
        forall i | PAYLOAD_BYTES <= i < 2 * PAYLOAD_BYTES { inputBuffer[i] := found.rest.value[i - PAYLOAD_BYTES + 4]; }
      }
      forall i | 0 <= i < PAYLOAD_BYTES { inputBuffer[i] := found.packet[4 + i]; }
      assert inputBuffer[..] == Joined(found) by { JoinedBytes(found, inputBuffer[..]); }
      var stream := new BitStream(inputBuffer[..], 2 * PAYLOAD_BITS);
      stream.SetOffset(found.at);
      forall i | 0 <= i < FRAME_BYTES { frame[i] := 0; }
      ghost var zero := frame[..];
      var inside;
      padding, inside := stream.Copy(frame, found.size);
      forall i, r | 0 <= i < FRAME_BYTES && 0 <= r < 8
        ensures Bit(frame[i], 7 - r) <==> WantedBit(found, i, r)
      {
        CopiedIsWanted(zero, found, i, r);
      }
    }

    /** `Decode`: moves the reading position as `XmaCursor.Decode` says. A frame that is found becomes
        the pending sound; `library` stands for the audio library, which sees the bytes of
        `xma_frame_`. */
    method Decode(library: Bytes -> seq<nat>) returns (ghost found: Found)
      requires Valid() && Readable(cursor)
      modifies this`cursor, this`remainingSubframes, this`rawFrame, this`decoded, inputBuffer, frame
      ensures Valid()
      ensures old(remainingSubframes) > 0 ==> cursor == old(cursor) && found == Nothing
      ensures old(remainingSubframes) == 0 && outputBlockCount > 0 ==>
                cursor == XmaCursor.Decode(old(cursor)).cursor && found == XmaCursor.Decode(old(cursor)).found
      ensures outputBlockCount == 0 ==> cursor in {old(cursor), LoopUpdated(old(cursor))} && found == Nothing
      ensures found.Nothing? ==>
              remainingSubframes == old(remainingSubframes) && rawFrame == old(rawFrame) && decoded == old(decoded)
      ensures found.Frame? ==>
                && Takeable(found) && HoldsFrame(frame[..], found) && rawFrame == Sound(library(LibraryInput(found)))
                && remainingSubframes == Subframes()
                && decoded == old(decoded) + FrameSound(library, found, Subframes())
    {
      hide WalkEnds, DecodeIn, Copyable, FirstAt, HoldsFrame, Sound, IsFound, Takeable, FrameSound, LibraryInput;
      found := Nothing;
      if !cursor.AnyValid() || remainingSubframes > 0 {
        return;
      }
      if !cursor.Current().valid {
        return;
      }
      UpdateLoopStatus();
      if outputBlockCount == 0 {
        return;
      }
      var b := cursor.Current().block;
      var n := GetPacketNumber(|b|, cursor.offset);
      if n == -1 {
        return;
      }
      found := DecodePacket(n, library);
    }

    /** The part of `Decode` behind the search for the packet. */
    method DecodePacket(n: nat, library: Bytes -> seq<nat>) returns (ghost found: Found)
      requires Valid() && remainingSubframes == 0 && n < Packets(cursor.Current().block)
      requires WalkEnds(cursor.Current().block, n) && Copyable(DecodeIn(Fixed(cursor, n), n).found)
      modifies this`cursor, this`remainingSubframes, this`rawFrame, this`decoded, inputBuffer, frame
      ensures Valid()
      ensures cursor == DecodeIn(Fixed(old(cursor), n), n).cursor && found == DecodeIn(Fixed(old(cursor), n), n).found
      ensures found.Nothing? ==> remainingSubframes == 0 && rawFrame == old(rawFrame) && decoded == old(decoded)
      ensures found.Frame? ==>
                && Takeable(found) && HoldsFrame(frame[..], found) && rawFrame == Sound(library(LibraryInput(found)))
                && remainingSubframes == Subframes()
                && decoded == old(decoded) + FrameSound(library, found, Subframes())
    {
      hide DecodeIn, ToNextPacket, GetNextPacketReadOffset, FirstAt, Sound, HoldsFrame, SkipCount, PacketAt,
        FrameSound, LibraryInput;
      FoundIsFound(Fixed(cursor, n), n);
      var f, last, next, bits := FindFrame(n);
      found := f;
      if f.Nothing? {
        return;
      }
      TakeFrame(f, library);
      if !last {
        cursor := cursor.(offset := n * PACKET_BITS + (cursor.offset + bits) % PACKET_BITS);
        return;
      }
      MoveToNextPacket(next);
    }

    /** `Decode`, up to the frame: repairs the offset, and finds the frame there and what it needs. */
    method FindFrame(n: nat) returns (found: Found, last: bool, next: nat, bits: nat)
      requires XmaCursor.Valid(cursor) && n < Packets(cursor.Current().block) && WalkEnds(cursor.Current().block, n)
      modifies this`cursor
      ensures found == DecodeIn(Fixed(old(cursor), n), n).found && IsFound(found) && 0 < next
      ensures found.Nothing? ==> cursor == DecodeIn(Fixed(old(cursor), n), n).cursor
      ensures found.Frame? ==>
                && cursor == Fixed(old(cursor), n)
                && DecodeIn(cursor, n).cursor == if last then ToNextPacket(cursor, next)
                     else cursor.(offset := n * PACKET_BITS + (cursor.offset + bits) % PACKET_BITS)
    {
      hide FirstAt, FirstOffset, InfoOf, Describes, Hangs, ToNextPacket, NewStarts, PacketAt, IsFound, SkipCount;
      var b := cursor.Current().block;
      var packet := PacketOfBlock(b, n);
      var frameOffset := FirstAt(b, n);
      FirstIsFirst(b, n);
      if cursor.offset < frameOffset {
        cursor := cursor.(offset := frameOffset);
      }
      ghost var l := cursor;
      assert l == Fixed(old(cursor), n);
      FoundIsFound(l, n);
      var relative := cursor.offset % PACKET_BITS;
      WalkEndsExactly(packet, Min(FirstOffset(packet), PACKET_BITS));
      var walked := GetPacketInfo(packet, relative, PACKET_BITS + 1);
      var info := walked.value;
      assert info == InfoOf(packet, relative);
      last := info.IsLastFrameInPacket();
      next := n + SkipCount(packet) + 1;
      var left := BitsLeft(cursor.offset, n);
      bits := Min(left, info.currentFrameSize);
      if bits == 0 {
        SwapInputBuffer();
        return Nothing, last, next, bits;
      }
      var rest := None;
      if last && left < info.currentFrameSize {
        rest := GetNextPacket(cursor, next);
        if rest.None? {
          cursor := cursor.(errorStatus := 4);
          return Nothing, last, next, bits;
        }
      }
      found := Frame(packet, rest, (relative - HEADER_BITS) % 0x1_0000_0000, info.currentFrameSize);
    }

    /** `Decode`, the frame itself: its bits go to the audio library, and its sound becomes pending: 512
        samples of two bytes for each channel. */
    method TakeFrame(f: Found, library: Bytes -> seq<nat>)
      requires Valid() && remainingSubframes == 0 && Takeable(f)
      modifies this`remainingSubframes, this`rawFrame, this`decoded, inputBuffer, frame
      ensures Valid() && HoldsFrame(frame[..], f) && rawFrame == Sound(library(LibraryInput(f)))
      ensures 256 * remainingSubframes == 512 * 2 * if isStereo then 2 else 1
      ensures remainingSubframes == Subframes() && decoded == old(decoded) + FrameSound(library, f, Subframes())
    {
      hide HoldsFrame, IsFound, PaddingByte, Sound, FrameData;
      var padding := FillFrame(f);
      HeldIsData(frame[..], f);
      rawFrame := Sound(library([PaddingByte(f.size, padding)] + frame[..PacketSize(f.size, padding) - 1]));
      assert decoded == written;
      remainingSubframes := if isStereo then 8 else 4;
      decoded := decoded + Pending();
    }

    /** `Decode`, behind the last frame of a packet. */
    method MoveToNextPacket(next: nat)
      requires XmaCursor.Valid(cursor) && 0 < next
      modifies this`cursor
      ensures cursor == ToNextPacket(old(cursor), next)
    {
      hide FirstAt, FirstOffset, GetNextPacketReadOffset;
      var offset := GetNextPacketReadOffset(cursor.Current().block, next);
      if offset == HEADER_BITS {
        SwapInputBuffer();
        if cursor.AnyValid() {
          offset := FirstAt(cursor.Current().block, 0);
          if offset > LAST_FIRST_OFFSET {
            SwapInputBuffer();
            return;
          }
        }
      }
      cursor := cursor.(offset := offset);
    }

    /** `Consume`: hands on as many sub-frames as asked for, from the front of the pending sound. */
    method Consume(ring: RingBuffer)
      requires Valid() && ring.Valid()
               && BLOCK_BYTES * Min(remainingSubframes, subframeDecodeCount) <= ring.WriteCount()
      modifies this`remainingBlocks, this`remainingSubframes, this`written, ring`writeOffset, ring.buffer
      ensures Valid() && ring.Valid()
      ensures var n := Min(old(remainingSubframes), subframeDecodeCount);
              && remainingSubframes == old(remainingSubframes) - n && remainingBlocks == old(remainingBlocks) - n
              && |old(Pending())| >= BLOCK_BYTES * n && Pending() == old(Pending())[BLOCK_BYTES * n..]
              && written == old(written) + old(Pending())[..BLOCK_BYTES * n]
              && ring.writeOffset == Wrap(old(ring.writeOffset), BLOCK_BYTES * n, ring.capacity)
              && ring.buffer[..] == Overwritten(old(ring.buffer[..]), old(ring.writeOffset),
                                                old(Pending())[..BLOCK_BYTES * n])
    {
      hide Overwritten, XmaCursor.Valid;
      if remainingSubframes == 0 {
        NothingOverwritten(ring.buffer[..], ring.writeOffset, Pending()[..0]);
        return;
      }
      hide Wrap;
      var count := Min(remainingSubframes, subframeDecodeCount);
      var chunk := rawFrame[BLOCK_BYTES * (Subframes() - remainingSubframes)..][..BLOCK_BYTES * count];
      PendingParts(count);
      ring.Write(chunk);
      remainingBlocks := remainingBlocks - count;
      remainingSubframes := remainingSubframes - count;
      written := written + chunk;
    }

    /** The first `count` pending sub-frames and the others. */
    lemma PendingParts(count: nat)
      requires |rawFrame| == RAW_BYTES && count <= remainingSubframes <= Subframes()
      ensures var from := Subframes() - remainingSubframes;
              var rest := rawFrame[BLOCK_BYTES * (from + count)..BLOCK_BYTES * Subframes()];
              && rawFrame[BLOCK_BYTES * from..][..BLOCK_BYTES * count] == Pending()[..BLOCK_BYTES * count]
              && rest == Pending()[BLOCK_BYTES * count..]
              && Pending() == Pending()[..BLOCK_BYTES * count] + rest
    {
    }

    /** `PrepareOutputRingBuffer` */
    method PrepareOutputRingBuffer(output: array<nat>) returns (ring: RingBuffer)
      requires 0 < outputBlockCount < 32 && outputWriteOffset < 32 && output.Length == BLOCK_BYTES * outputBlockCount
      modifies this`remainingBlocks
      ensures fresh(ring) && ring.Valid() && ring.buffer == output
      ensures ring.readOffset == RingOffset(outputReadOffset, outputBlockCount)
              && ring.writeOffset == RingOffset(outputWriteOffset, outputBlockCount)
      ensures ring.WriteCount() == RingSpace(outputReadOffset, outputWriteOffset,
                                             outputBlockCount) == BLOCK_BYTES * remainingBlocks
                                               && 0 <= remainingBlocks <= outputBlockCount
    {
      hide Inside;
      ring := new RingBuffer(output);
      BlocksInRing(outputReadOffset, outputBlockCount);
      BlocksInRing(outputWriteOffset, outputBlockCount);
      ring.SetReadOffset(outputReadOffset * BLOCK_BYTES);
      ring.SetWriteOffset(outputWriteOffset * BLOCK_BYTES);
      remainingBlocks := ring.WriteCount() / BLOCK_BYTES;
    }

    /** One round of `Work`: at most one frame is decoded, and pending sub-frames are written. `from`,
        `was` and `written_` are the write offset, the ring and the written sound when `Work` began,
        `start` and `decoded_` its reading position and decoded sound; `k` counts the calls of `Decode`
        that looked for a frame since. */
    method Round(library: Bytes -> seq<nat>, ring: RingBuffer, ghost from: nat, ghost was: seq<nat>,
                 ghost written_: seq<nat>, ghost start: Cursor, ghost decoded_: seq<nat>, ghost k: nat)
        returns (more: bool, ghost k': nat)
      requires Valid() && Good(cursor) && 0 < outputBlockCount && 0 < subframeDecodeCount <= remainingBlocks
      requires ring.Valid() && ring.buffer != inputBuffer && ring.buffer != frame
      requires Delivered(ring.buffer[..], ring.readOffset, ring.writeOffset, written, remainingBlocks, from, was,
                         written_)
      requires Good(start) && Ran(library, Subframes(), start, decoded_, k, cursor, decoded)
      requires FramesFirst(start, k) && |FramesOf(start, k)| == k
      modifies this`cursor, this`remainingBlocks, this`remainingSubframes, this`rawFrame, this`decoded, this`written,
        inputBuffer, frame, ring`writeOffset, ring.buffer
      ensures Valid() && Good(cursor) && ring.Valid()
      ensures Delivered(ring.buffer[..], ring.readOffset, ring.writeOffset, written, remainingBlocks, from, was,
                        written_)
      ensures Ran(library, Subframes(), start, decoded_, k', cursor, decoded) && FramesFirst(start, k')
      ensures more <==> cursor.AnyValid() && cursor.errorStatus != 4
      ensures more ==> |FramesOf(start, k')| == k'
      ensures 0 <= remainingBlocks <= old(remainingBlocks) && (more ==> remainingBlocks < old(remainingBlocks))
      ensures old(remainingBlocks) - subframeDecodeCount <= remainingBlocks
    {
      hide XmaCursor.Decode, WellFormedBlock, OnFrame, Readable, FoundAt, Located, HoldsFrame, Sound, FrameSound,
        LibraryInput,
        Delivered, Takeable, Ran, FramesOf, WaitsForRest;
      GoodIsReadable(cursor);
      DecodeProgress(cursor);
      k' := k;
      ghost var before, sound := cursor, decoded;
      ghost var looks := remainingSubframes == 0;
      ghost var found := Decode(library);
      if looks {
        RanOnce(library, Subframes(), start, decoded_, k, before, sound, decoded);
        FirstOfRun(start, k);
        k' := k + 1;
      }
      Deliver(ring, from, was, written_);
      more := cursor.AnyValid() && cursor.errorStatus != 4;
    }

    method Deliver(ring: RingBuffer, ghost from: nat, ghost was: seq<nat>, ghost begun: seq<nat>)
      requires Valid() && 0 < subframeDecodeCount <= remainingBlocks && ring.Valid()
      requires Delivered(ring.buffer[..], ring.readOffset, ring.writeOffset, written, remainingBlocks, from, was, begun)
      modifies this`remainingBlocks, this`remainingSubframes, this`written, ring`writeOffset, ring.buffer
      ensures Valid() && ring.Valid()
              && remainingBlocks == old(remainingBlocks) - Min(old(remainingSubframes), subframeDecodeCount)
      ensures Delivered(ring.buffer[..], ring.readOffset, ring.writeOffset, written, remainingBlocks, from, was, begun)
    {
      hide Overwritten, Wrap, Delivered;
      ghost var n := BLOCK_BYTES * Min(remainingSubframes, subframeDecodeCount);
      ghost var chunk := Pending()[..n];
      DeliveredMore(ring.buffer[..], ring.readOffset, ring.writeOffset, written, remainingBlocks, from, was, begun,
                    chunk, Min(remainingSubframes, subframeDecodeCount));
      Consume(ring);
    }

    /** The loop of `Work`. */
    method Rounds(library: Bytes -> seq<nat>, ring: RingBuffer, ghost from: nat, ghost was: seq<nat>,
                  ghost written_: seq<nat>) returns (ghost calls: nat)
      requires Valid() && Good(cursor) && 0 < outputBlockCount && 0 < subframeDecodeCount && 0 <= remainingBlocks
      requires ring.Valid() && ring.buffer != inputBuffer && ring.buffer != frame
      requires Delivered(ring.buffer[..], ring.readOffset, ring.writeOffset, written, remainingBlocks, from, was,
                         written_)
      modifies this`cursor, this`remainingBlocks, this`remainingSubframes, this`rawFrame, this`decoded, this`written,
        inputBuffer, frame, ring`writeOffset, ring.buffer
      ensures Valid() && Good(cursor) && ring.Valid()
      ensures Delivered(ring.buffer[..], ring.readOffset, ring.writeOffset, written, remainingBlocks, from, was,
                        written_)
      ensures Ran(library, Subframes(), old(cursor), old(decoded), calls, cursor, decoded) && Good(old(cursor))
              && FramesFirst(old(cursor), calls)
      ensures remainingBlocks < 2 * subframeDecodeCount - 1 || !cursor.AnyValid() || cursor.errorStatus == 4
      ensures remainingBlocks == old(remainingBlocks) || remainingBlocks >= subframeDecodeCount - 1
    {
      hide XmaCursor.Decode, WellFormedBlock, OnFrame, Delivered, Ran, FramesOf, FramesFirst;
      var more := true;
      ghost var start, decoded_ := cursor, decoded;
      calls := 0;
      RanNothing(library, Subframes(), start, decoded_);
      while more && remainingBlocks >= 2 * subframeDecodeCount - 1
        invariant Valid() && Good(cursor) && ring.Valid() && 0 <= remainingBlocks
        invariant Delivered(ring.buffer[..], ring.readOffset, ring.writeOffset, written, remainingBlocks, from, was,
                            written_)
        invariant Ran(library, Subframes(), start, decoded_, calls, cursor, decoded) && Good(start)
                  && FramesFirst(start, calls)
        invariant more ==> |FramesOf(start, calls)| == calls
        invariant !more ==> !cursor.AnyValid() || cursor.errorStatus == 4
        invariant remainingBlocks == old(remainingBlocks) || remainingBlocks >= subframeDecodeCount - 1
        decreases remainingBlocks, more
      {
        more, calls := Round(library, ring, from, was, written_, start, decoded_, calls);
      }
    }

    /** `Work`, on well-formed buffers. The sound decoded is that of the frames which `calls` calls of
        `XmaCursor.Decode` find from the reading position on, each once and in order; these are the
        first frames of the whole run. All of it that is not pending is written. No more is written
        than was free at the beginning, so that sound not yet read stays in the ring; and the loop
        stops only when too little room is left for another round, or no buffer is left, or the rest of
        a frame is missing. The guest must ask for at least one sub-frame at a time: the loop would
        not end otherwise. */
    method Work(library: Bytes -> seq<nat>, output: array<nat>) returns (worked: bool, ghost calls: nat)
      requires Valid() && Good(cursor) && output != inputBuffer && output != frame
      requires isEnabled && isAllocated && outputValid ==>
                 0 < outputBlockCount && output.Length == BLOCK_BYTES * outputBlockCount && 0 < subframeDecodeCount
      modifies this`cursor, this`isEnabled, this`remainingBlocks, this`remainingSubframes, this`rawFrame, this`decoded,
        this`written, this`outputWriteOffset, this`outputValid, inputBuffer, frame, output
      ensures Valid() && Good(cursor) && worked == old(isEnabled && isAllocated)
              && isEnabled == (old(isEnabled) && !worked)
      ensures WorkStep(library, Subframes(), calls, old(Reached()), Reached())
      ensures !(worked && old(outputValid && Roomy())) ==>
                calls == 0
                  && Unchanged(old(cursor), old(written), old(output[..]), old(outputWriteOffset), old(outputValid),
                               output[..])
      ensures worked && old(outputValid && Roomy()) ==>
              Filled(output[..], old(written), old(output[..]), old(outputWriteOffset))
    {
      hide XmaCursor.Decode, WellFormedBlock, OnFrame, Roomy, Unchanged, Filled, Ran, FramesFirst;
      worked := isEnabled && isAllocated;
      calls := 0;
      RanNothing(library, Subframes(), cursor, decoded);
      NothingDone(output[..]);
      if worked {
        isEnabled := false;
        if outputValid {
          calls := Fill(library, output);
        }
      }
    }

    /** What a call of `Work` moves. */
    ghost function Reached(): Progress
      reads this`cursor, this`decoded, this`written
    {
      Progress(cursor, decoded, written)
    }

    lemma NothingDone(output: seq<nat>)
      ensures Unchanged(cursor, written, output, outputWriteOffset, outputValid, output)
    {
    }

    /** There is room for the sub-frames of one round. */
    predicate Roomy()
      requires 0 < outputBlockCount
      reads this`subframeDecodeCount, this`outputReadOffset, this`outputWriteOffset, this`outputBlockCount
    {
      2 * subframeDecodeCount - 1 <= RingSpace(outputReadOffset, outputWriteOffset, outputBlockCount) / BLOCK_BYTES
    }

    ghost predicate Unchanged(cursor_: Cursor, written_: seq<nat>, ring_: seq<nat>, writeOffset_: nat, valid_: bool,
                              ring: seq<nat>)
      reads this`cursor, this`written, this`outputWriteOffset, this`outputValid
    {
      cursor == cursor_ && written == written_ && ring == ring_ && outputWriteOffset == writeOffset_
        && outputValid == valid_
    }

    /** The state after work that began with `written_`, `ring_` and `writeOffset_`: what was written
        since lies in the ring, within the room that there was, and all else in the ring is as before.
        What is left of that room is `remainingBlocks`, and it is too little for another round unless
        there is nothing to decode; but it was enough for the last round. */
    ghost predicate Filled(ring: seq<nat>, written_: seq<nat>, ring_: seq<nat>, writeOffset_: nat)
      requires 0 < outputBlockCount
      reads this
    {
      && |ring_| == |ring| == BLOCK_BYTES * outputBlockCount && written_ <= written
      && InRing(ring, written[|written_|..], ring_, writeOffset_, outputBlockCount, outputReadOffset, outputWriteOffset)
      && (outputValid <==> BLOCK_BYTES * outputWriteOffset != RingOffset(outputReadOffset, outputBlockCount))
      && |written| - |written_| + BLOCK_BYTES * remainingBlocks
         == RingSpace(outputReadOffset, writeOffset_, outputBlockCount)
      && (remainingBlocks < 2 * subframeDecodeCount - 1 || !cursor.AnyValid() || cursor.errorStatus == 4)
      && remainingBlocks >= subframeDecodeCount - 1
    }

    method Fill(library: Bytes -> seq<nat>, output: array<nat>) returns (ghost calls: nat)
      requires Valid() && Good(cursor) && output != inputBuffer && output != frame && outputValid
      requires 0 < outputBlockCount && output.Length == BLOCK_BYTES * outputBlockCount && 0 < subframeDecodeCount
      modifies this`cursor, this`remainingBlocks, this`remainingSubframes, this`rawFrame, this`decoded, this`written,
        this`outputWriteOffset, this`outputValid, inputBuffer, frame, output
      ensures Valid() && Good(cursor) && WorkStep(library, Subframes(), calls, old(Reached()), Reached())
      ensures !old(Roomy()) ==>
                calls == 0
                  && Unchanged(old(cursor), old(written), old(output[..]), old(outputWriteOffset), old(outputValid),
                               output[..])
      ensures old(Roomy()) ==> Filled(output[..], old(written), old(output[..]), old(outputWriteOffset))
    {
      hide XmaCursor.Decode, WellFormedBlock, OnFrame, Delivered, Overwritten, Wrap, RingOffset, Filled, Ran,
        FramesFirst;
      var ring := PrepareOutputRingBuffer(output);
      if 2 * subframeDecodeCount - 1 > remainingBlocks {
        calls := 0;
        RanNothing(library, Subframes(), cursor, decoded);
        return;
      }
      ghost var from, was, written_ := ring.writeOffset, output[..], written;
      NothingDelivered(was, ring.readOffset, from, written_, remainingBlocks);
      calls := Rounds(library, ring, from, was, written_);
      Finish(ring, outputWriteOffset, was, written_);
    }

    /** The end of `Work`: the write offset goes back to the context. */
    method Finish(ring: RingBuffer, ghost writeOffset_: nat, ghost was: seq<nat>, ghost begun: seq<nat>)
      requires Valid() && 0 < outputBlockCount && ring.Valid() && ring.capacity == BLOCK_BYTES * outputBlockCount
               && outputValid
      requires ring.readOffset == RingOffset(outputReadOffset, outputBlockCount)
      requires Delivered(ring.buffer[..], ring.readOffset, ring.writeOffset, written, remainingBlocks,
                         RingOffset(writeOffset_, outputBlockCount), was, begun)
      requires remainingBlocks < 2 * subframeDecodeCount - 1 || !cursor.AnyValid() || cursor.errorStatus == 4
      requires remainingBlocks >= subframeDecodeCount - 1
      modifies this`outputWriteOffset, this`outputValid
      ensures Valid() && |was| == ring.capacity && begun <= written && Filled(ring.buffer[..], begun, was, writeOffset_)
    {
      hide Delivered, Overwritten, Wrap, RingOffset, Distance, Space;
      DeliveredAll(ring.buffer[..], ring.readOffset, ring.writeOffset, written, remainingBlocks,
                   RingOffset(writeOffset_, outputBlockCount), was, begun);
      DeliveredBlocks(ring.buffer[..], ring.readOffset, ring.writeOffset, written, remainingBlocks,
                      RingOffset(writeOffset_, outputBlockCount), was, begun);
      outputWriteOffset := ring.writeOffset / BLOCK_BYTES;
      if ring.Empty() {
        outputValid := false;
      }
    }
  }

  /** The new sound lies in the ring from `writeOffset_` on, within the room that there was, and all
      else in the ring is as before. */
  ghost predicate InRing(ring: seq<nat>, sound: seq<nat>, ring_: seq<nat>, writeOffset_: nat, count: nat,
                         readOffset: nat, writeOffset: nat)
    requires 0 < count && |ring_| == |ring| == BLOCK_BYTES * count
  {
    var from := RingOffset(writeOffset_, count);
    && |sound| <= RingSpace(readOffset, writeOffset_, count)
    && ring == Overwritten(ring_, from, sound)
    && BLOCK_BYTES * writeOffset == Wrap(from, |sound|, |ring|)
  }

  /** Sound that the guest has not read yet stays in the ring. */
  lemma UnreadSoundStays(ring: seq<nat>, sound: seq<nat>, ring_: seq<nat>, writeOffset_: nat, count: nat,
                         readOffset: nat, writeOffset: nat, p: nat)
    requires 0 < count && |ring_| == |ring| == BLOCK_BYTES * count && p < |ring|
    requires InRing(ring, sound, ring_, writeOffset_, count, readOffset, writeOffset)
    requires Distance(p, RingOffset(readOffset, count), |ring|) < |ring| - RingSpace(readOffset, writeOffset_, count)
    ensures ring[p] == ring_[p]
  {
    hide RingOffset, Overwritten;
    UnreadIsBehind(p, RingOffset(readOffset, count), RingOffset(writeOffset_, count), |ring|);
  }

  lemma UnreadIsBehind(p: nat, read: nat, write: nat, capacity: nat)
    requires p < capacity && read < capacity && write < capacity
             && Distance(p, read, capacity) < capacity - Space(read, write, capacity)
    ensures Distance(p, write, capacity) >= Space(read, write, capacity)
  {
  }

  /** Where a block offset of the context lies in a ring of `count` blocks. */
  function RingOffset(block: nat, count: nat): (p: nat)
    requires 0 < count
    ensures p < BLOCK_BYTES * count && p % BLOCK_BYTES == 0
  {
    BLOCK_BYTES * Inside(block, count)
  }

  /** The place is that of the block modulo the number of blocks; and the room goes on to the reader, all of
      the ring when both offsets are equal. */
  lemma RingExactly(readBlock: nat, writeBlock: nat, count: nat)
    requires 0 < count
    ensures RingOffset(readBlock, count) == 256 * (readBlock % count)
    ensures var n, room := 256 * count, RingSpace(readBlock, writeBlock, count);
            && 0 < room <= n
            && (RingOffset(writeBlock, count) + room == RingOffset(readBlock, count)
                || RingOffset(writeBlock, count) + room == RingOffset(readBlock, count) + n)
  {
    hide Inside;
    InsideIsRest(readBlock, count);
  }

  lemma InsideIsRest(offset: nat, capacity: nat)
    requires 0 < capacity
    ensures Inside(offset, capacity) == offset % capacity
  {
  }

  /** Bytes that can be written before the ring catches up with the reader. */
  function RingSpace(readBlock: nat, writeBlock: nat, count: nat): (n: nat)
    requires 0 < count
  {
    Space(RingOffset(readBlock, count), RingOffset(writeBlock, count), BLOCK_BYTES * count)
  }

  lemma {:induction false} BlocksInRing(block: nat, count: nat)
    requires 0 < count
    ensures Inside(block * BLOCK_BYTES, BLOCK_BYTES * count) == BLOCK_BYTES * Inside(block, count)
    decreases block
  {
    if block >= count {
      BlocksInRing(block - count, count);
      InsideShift(block - count, count);
      InsideShift((block - count) * BLOCK_BYTES, BLOCK_BYTES * count);
    } else {
      InsideSmall(block, count);
      InsideSmall(block * BLOCK_BYTES, BLOCK_BYTES * count);
    }
  }

  lemma InsideShift(x: nat, m: nat)
    requires 0 < m
    ensures Inside(x + m, m) == Inside(x, m)
  {
    ModAddMultiple(x, m);
  }

  lemma InsideSmall(x: nat, m: nat)
    requires x < m
    ensures Inside(x, m) == x
  {
  }

  /** What was written since `Work` began lies behind `from` in the ring, and nothing else of the ring
      changed; there is room for the remaining blocks. */
  ghost predicate Delivered(ring: seq<nat>, read: nat, write: nat, written: seq<nat>, blocks: int, from: nat,
                            was: seq<nat>, begun: seq<nat>) {
    && |was| == |ring| && from < |ring| && read < |ring| && begun <= written && 0 <= blocks
    && var n := |written| - |begun|;
       && n + BLOCK_BYTES * blocks == Space(read, from, |ring|)
       && write == Wrap(from, n, |ring|)
       && ring == Overwritten(was, from, written[|begun|..])
  }

  lemma NothingDelivered(ring: seq<nat>, read: nat, write: nat, written: seq<nat>, blocks: int)
    requires read < |ring| && write < |ring| && Space(read, write, |ring|) == BLOCK_BYTES * blocks
    ensures Delivered(ring, read, write, written, blocks, write, ring, written)
  {
    NothingOverwritten(ring, write, written[|written|..]);
  }

  /** Delivering one more chunk. */
  lemma DeliveredMore(ring: seq<nat>, read: nat, write: nat, written: seq<nat>, blocks: int, from: nat, was: seq<nat>,
                      begun: seq<nat>, chunk: seq<nat>, count: nat)
    requires Delivered(ring, read, write, written, blocks, from, was, begun)
    requires 0 < blocks && count <= blocks && |chunk| == BLOCK_BYTES * count
    ensures write < |ring| && |chunk| <= Space(read, write, |ring|) && |chunk| <= |ring|
    ensures Delivered(Overwritten(ring, write, chunk), read, Wrap(write, |chunk|, |ring|), written + chunk,
                      blocks - count, from, was, begun)
  {
    hide Overwritten, Wrap, Distance;
    var done := written[|begun|..];
    SpaceLeft(read, from, |done|, |chunk|, |ring|);
    OverwrittenTwice(was, from, done, chunk);
    WrapTwice(from, |done|, |chunk|, |ring|);
    assert (written + chunk)[|begun|..] == done + chunk;
  }

  lemma DeliveredAll(ring: seq<nat>, read: nat, write: nat, written: seq<nat>, blocks: int, from: nat, was: seq<nat>,
                     begun: seq<nat>)
    requires Delivered(ring, read, write, written, blocks, from, was, begun)
    ensures |was| == |ring| && from < |ring| && begun <= written
    ensures var n := |written| - |begun|;
            && n + BLOCK_BYTES * blocks == Space(read, from, |ring|) && 0 <= blocks && write == Wrap(from, n, |ring|)
            && ring == Overwritten(was, from, written[|begun|..])
  {
  }

  lemma DeliveredBlocks(ring: seq<nat>, read: nat, write: nat, written: seq<nat>, blocks: int, from: nat,
                        was: seq<nat>, begun: seq<nat>)
    requires Delivered(ring, read, write, written, blocks, from, was, begun)
    requires |ring| % BLOCK_BYTES == 0 && read % BLOCK_BYTES == 0 && from % BLOCK_BYTES == 0
    ensures BLOCK_BYTES * (write / BLOCK_BYTES) == write < |ring|
  {
    hide Overwritten, Space, Wrap;
    SpaceInBlocks(read, from, |ring|);
    WrapInBlocks(from, |written| - |begun|, |ring|);
  }

  lemma SpaceInBlocks(read: nat, from: nat, capacity: nat)
    requires read < capacity && from < capacity && capacity % BLOCK_BYTES == 0 && read % BLOCK_BYTES == 0
             && from % BLOCK_BYTES == 0
    ensures Space(read, from, capacity) % BLOCK_BYTES == 0
  {
  }

  lemma WrapInBlocks(from: nat, n: nat, capacity: nat)
    requires from < capacity && n <= capacity && capacity % BLOCK_BYTES == 0 && from % BLOCK_BYTES == 0
             && n % BLOCK_BYTES == 0
    ensures Wrap(from, n, capacity) % BLOCK_BYTES == 0
  {
  }

  lemma SpaceLeft(read: nat, from: nat, k: nat, n: nat, capacity: nat)
    requires read < capacity && from < capacity && k + n <= Space(read, from, capacity)
    ensures n <= Space(read, Wrap(from, k, capacity), capacity)
  {
  }

  lemma NothingOverwritten(ring: seq<nat>, offset: nat, src: seq<nat>)
    requires offset < |ring| && src == []
    ensures Overwritten(ring, offset, src) == ring
  {
  }

  lemma FoundIsFound(c: Cursor, n: nat)
    requires XmaCursor.Valid(c) && n < Packets(c.Current().block)
    ensures IsFound(DecodeIn(c, n).found) && XmaCursor.Valid(DecodeIn(c, n).cursor)
  {
    hide FirstOffset, InfoOf, Describes, ToNextPacket, PacketAt, SkipCount, GetNextPacket;
    ToNextIsValid(c, n + SkipCount(PacketOfBlock(c.Current().block, n)) + 1);
  }

  lemma ToNextIsValid(c: Cursor, next: nat)
    requires XmaCursor.Valid(c) && 0 < next
    ensures XmaCursor.Valid(ToNextPacket(c, next))
  {
    hide FirstAt, GetNextPacketReadOffset, IsBlock;
  }

  lemma JoinedBytes(f: Found, s: seq<nat>)
    requires f.Frame? && IsFound(f) && |s| == 2 * PAYLOAD_BYTES
    requires forall i :: 0 <= i < PAYLOAD_BYTES ==> s[i] == f.packet[4 + i]
    requires forall i :: PAYLOAD_BYTES <= i < 2 * PAYLOAD_BYTES ==>
             s[i] == if f.rest.Some? then f.rest.value[i - PAYLOAD_BYTES + 4] else 0
    ensures s == Joined(f)
  {
  }

  lemma CopiedIsWanted(zero: Bytes, f: Found, i: nat, r: nat)
    requires f.Frame? && IsFound(f) && Copyable(f) && f.size < 0x8000 && i < FRAME_BYTES && r < 8
    requires |zero| == FRAME_BYTES && forall i :: 0 <= i < FRAME_BYTES ==> zero[i] == 0
    ensures SpanOf(f.at, f.size).Valid() && CopiedBit(zero, Joined(f), SpanOf(f.at, f.size), i, r) == WantedBit(f, i, r)
  {
    hide Joined, CopiedBit, Bit;
    CopiedIntoZero(zero, Joined(f), f.at, f.size, 8 * i + r);
  }
}
