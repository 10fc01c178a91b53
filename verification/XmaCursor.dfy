/** Where the new XMA decoder (src/xenia/apu/xma_context_new.cc) reads: the part of the context that
    `Decode` moves from frame to frame, over two input buffers that are handed in and used up in
    turn. */
module XmaCursor {
  import opened Arith
  import opened Words
  import opened BitStreams
  import opened Options
  import opened XmaPackets
  import opened XmaWalkers

  const PAYLOAD_BITS: nat := 16352
  const MAX_PACKETS: nat := 4095
  const LOOP_FOREVER: nat := 255

  /** An input buffer: `block` is what lies at its address, as long as its packet count says. */
  datatype Input = Input(valid: bool, hasAddress: bool, block: Bytes)

  datatype Cursor = Cursor(
    in0: Input, in1: Input, current: nat, offset: nat,
    loopCount: nat, loopStart: nat, loopEnd: nat, errorStatus: nat)
  {
    function Current(): Input { if current == 0 then in0 else in1 }

    function Other(): Input { if current == 0 then in1 else in0 }

    predicate AnyValid() { in0.valid || in1.valid }
  }

  function Packets(b: Bytes): nat {
    |b| / PACKET_BYTES
  }

  ghost predicate IsInput(i: Input) {
    IsBlock(i.block) && Packets(i.block) <= MAX_PACKETS && (i.valid ==> 1 <= Packets(i.block))
  }

  ghost predicate Valid(c: Cursor) {
    IsInput(c.in0) && IsInput(c.in1) && c.current < 2 && c.loopCount < 256
  }

  function PacketOfBlock(b: Bytes, i: nat): (p: Bytes)
    requires i < Packets(b)
    ensures |p| == PACKET_BYTES && p == PacketAt(b, i)
    ensures AreBytes(b) ==> AreBytes(p)
  {
    PacketAt(b, i)
  }

  function FirstAt(b: Bytes, i: nat): (first: nat)
    requires i < Packets(b)
  {
    FirstOffset(PacketOfBlock(b, i))
  }

  /** `SwapInputBuffer` */
  function Swapped(c: Cursor): Cursor {
    c.(in0 := if c.current == 0 then c.in0.(valid := false) else c.in0,
       in1 := if c.current == 0 then c.in1 else c.in1.(valid := false),
       current := if c.current == 0 then 1 else 0,
       offset := HEADER_BITS)
  }

  /** `UpdateLoopStatus` */
  function LoopUpdated(c: Cursor): Cursor {
    if c.loopCount == 0 || c.offset != Max(HEADER_BITS, c.loopEnd) then c
    else c.(offset := Max(HEADER_BITS, c.loopStart), loopCount := if c.loopCount != LOOP_FOREVER then c.loopCount - 1
            else c.loopCount)
  }

  /** `GetPacketNumber`; -1 for an offset in the first packet header or behind the buffer. */
  function GetPacketNumber(size: nat, bitOffset: nat): int {
    if bitOffset < HEADER_BITS || bitOffset >= 8 * size then -1 else bitOffset / 8 / PACKET_BYTES
  }

  /** No frame begins in a packet. */
  predicate Frameless(b: Bytes, i: nat)
    requires i < Packets(b)
  {
    FirstAt(b, i) > LAST_FIRST_OFFSET
  }

  /** `GetNextPacketReadOffset` */
  function GetNextPacketReadOffset(b: Bytes, next: nat): nat
    decreases Packets(b) - next
  {
    if next >= Packets(b) then HEADER_BITS
    else
      var first := FirstAt(b, next);
      if first > LAST_FIRST_OFFSET then GetNextPacketReadOffset(b, next + 1) else next * PACKET_BITS + first
  }

  /** It finds the first frame of the next packet in which a frame begins. The answer of 32 for the
      end of the buffer is never the offset of a frame. */
  lemma {:induction false} NextReadOffsetExactly(b: Bytes, next: nat)
    requires 0 < next
    ensures var offset := GetNextPacketReadOffset(b, next);
            && (offset == HEADER_BITS <==> forall i :: next <= i < Packets(b) ==> Frameless(b, i))
            && (offset != HEADER_BITS ==> exists i :: next <= i < Packets(b) && IsNextFrame(b, next, i, offset))
    decreases Packets(b) - next
  {
    hide FirstAt;
    if next < Packets(b) {
      if Frameless(b, next) {
        FramelessFirst(b, next);
        NextReadOffsetExactly(b, next + 1);
        var offset := GetNextPacketReadOffset(b, next);
        if offset != HEADER_BITS {
          var i :| next + 1 <= i < Packets(b) && IsNextFrame(b, next + 1, i, offset);
          assert IsNextFrame(b, next, i, offset);
        }
      } else {
        assert IsNextFrame(b, next, next, GetNextPacketReadOffset(b, next));
      }
    }
  }

  lemma FramelessFirst(b: Bytes, next: nat)
    requires next < Packets(b) && Frameless(b, next)
    ensures (forall i :: next <= i < Packets(b) ==> Frameless(b, i)) <==> forall i :: next + 1 <= i < Packets(b) ==>
            Frameless(b, i)
  {
    hide FirstAt;
  }

  /** Packet `i` is the first one from `next` on in which a frame begins, and `offset` is where. */
  ghost predicate IsNextFrame(b: Bytes, next: nat, i: nat, offset: nat)
    requires i < Packets(b)
  {
    && !Frameless(b, i) && offset == i * PACKET_BITS + FirstAt(b, i)
    && forall j :: next <= j < i ==> Frameless(b, j)
  }

  /** `GetNextPacket`: where a frame that does not end in its packet goes on. */
  function GetNextPacket(c: Cursor, next: nat): (p: Option<Bytes>)
    requires Valid(c)
    ensures p.Some? ==> |p.value| == PACKET_BYTES && AreBytes(p.value)
  {
    if next < Packets(c.Current().block) then Some(PacketOfBlock(c.Current().block, next))
    else if !c.Other().valid || !c.Other().hasAddress then None
    else Some(PacketOfBlock(c.Other().block, 0))
  }

  /** What a call of `Decode` finds: nothing, or a frame of `size` bits that begins at bit `at` of the
      payload of its packet, followed by the payload of the packet where it goes on. */
  datatype Found = Nothing | Frame(packet: Bytes, rest: Option<Bytes>, at: nat, size: nat)

  datatype Step = Step(cursor: Cursor, found: Found)

  /** The position from which `Decode` reads, once its packet is known: not before the first frame. */
  function Fixed(c: Cursor, n: nat): Cursor
    requires n < Packets(c.Current().block)
  {
    c.(offset := Max(c.offset, FirstAt(c.Current().block, n)))
  }

  /** Bits from an offset to the end of packet `n`. */
  function BitsLeft(offset: nat, n: nat): nat {
    (n + 1) * PACKET_BITS - Min(offset, (n + 1) * PACKET_BITS)
  }

  /** `Decode`, without the output. */
  function Decode(c: Cursor): Step
    requires Valid(c)
  {
    if !c.AnyValid() || !c.Current().valid then Step(c, Nothing)
    else
      var c1 := LoopUpdated(c);
      var b := c1.Current().block;
      var n := GetPacketNumber(|b|, c1.offset);
      if n == -1 then Step(c1, Nothing) else DecodeIn(Fixed(c1, n), n)
  }

  function DecodeIn(c: Cursor, n: nat): Step
    requires Valid(c) && n < Packets(c.Current().block)
  {
    hide Describes, NewStarts, Points, FirstOffset, InfoOf, IsBlock, Field, Or, PacketAt, GetNextPacketReadOffset,
      GetNextPacket;
    var packet := PacketOfBlock(c.Current().block, n);
    var relative := c.offset % PACKET_BITS;
    var info := InfoOf(packet, relative);
    var next := n + SkipCount(packet) + 1;
    var left := BitsLeft(c.offset, n);
    if Min(left, info.currentFrameSize) == 0 then Step(Swapped(c), Nothing)
    else
      var split := info.IsLastFrameInPacket() && left < info.currentFrameSize;
      var rest := if split then GetNextPacket(c, next) else None;
      if split && rest.None? then Step(c.(errorStatus := 4), Nothing)
      else Step(if info.IsLastFrameInPacket() then ToNextPacket(c, next)
                else c.(offset := n * PACKET_BITS + (c.offset + Min(left, info.currentFrameSize)) % PACKET_BITS),
                Frame(packet, rest, (relative - HEADER_BITS) % 0x1_0000_0000, info.currentFrameSize))
  }

  /** Behind the last frame of a packet: the next packet in which a frame begins, or else the other
      buffer, which is used up at once when no frame begins in its first packet. */
  function ToNextPacket(c: Cursor, next: nat): Cursor
    requires Valid(c) && 0 < next
  {
    var offset := GetNextPacketReadOffset(c.Current().block, next);
    if offset != HEADER_BITS then c.(offset := offset)
    else
      var s := Swapped(c);
      if !s.AnyValid() then s
      else
        var first := FirstAt(s.Current().block, 0);
        if first > LAST_FIRST_OFFSET then Swapped(s) else s.(offset := first)
  }

  // ---- well-formed buffers ----------------------------------------------------------------------

  /** A packet whose frames can all be read: the walk over it ends, it has a frame at its first offset
      (unless no frame begins in it), every frame holds its own header and ends in the next payload
      at the latest, and the 8-bit counters suffice. */
  ghost predicate WellFormedPacket(p: Bytes) {
    IsPacket(p) && (FirstOffset(p) <= LAST_FIRST_OFFSET ==> WellFormedFrames(p, FirstOffset(p)))
  }

  ghost predicate WellFormedFrames(p: Bytes, first: nat)
    requires |p| == PACKET_BYTES && HEADER_BITS <= first <= LAST_FIRST_OFFSET
  {
    var starts := NewStarts(p, first);
    && !Hangs(p, first)
    && 0 < |starts| < 256
    && forall k :: 0 <= k < |starts| ==>
         15 <= FrameSize(p, starts[k]) && starts[k] + FrameSize(p, starts[k]) <= HEADER_BITS + 2 * PAYLOAD_BITS
  }

  ghost predicate WellFormedBlock(b: Bytes) {
    forall i :: 0 <= i < Packets(b) ==> WellFormedPacket(PacketOfBlock(b, i))
  }

  /** An offset from which a frame is read: the start of one, or a place before the first one of the
      buffer. */
  ghost predicate OnFrame(b: Bytes, offset: nat) {
    var n := offset / PACKET_BITS;
    && HEADER_BITS <= offset && n < Packets(b) && !Frameless(b, n)
    && Max(offset, FirstAt(b, n)) % PACKET_BITS in NewStarts(PacketOfBlock(b, n), FirstAt(b, n))
  }

  ghost predicate GoodInput(c: Cursor, i: Input) {
    i.valid ==> WellFormedBlock(i.block) && (c.loopCount > 0 ==> OnFrame(i.block, Max(HEADER_BITS, c.loopStart)))
  }

  /** Reading continues on a frame of the current buffer as long as any buffer is left, and so it does
      after a loop. */
  ghost predicate Good(c: Cursor) {
    && Valid(c) && GoodInput(c, c.in0) && GoodInput(c, c.in1)
    && (c.AnyValid() ==> c.Current().valid && OnFrame(c.Current().block, c.offset))
  }

  function ValidCount(c: Cursor): nat {
    (if c.in0.valid then 1 else 0) + (if c.in1.valid then 1 else 0)
  }

  function Ahead(c: Cursor): nat {
    if c.offset <= 8 * |c.Current().block| then 8 * |c.Current().block| - c.offset else 0
  }

  /** Fewer loops are left, or fewer buffers, or fewer bits of the current buffer. */
  predicate Less(d: Cursor, c: Cursor) {
    || d.loopCount < c.loopCount
    || (d.loopCount == c.loopCount && ValidCount(d) < ValidCount(c))
    || (d.loopCount == c.loopCount && ValidCount(d) == ValidCount(c) && Ahead(d) < Ahead(c))
  }

  // ---- frame by frame -----------------------------------------------------------------------------

  /** On a frame `GetPacketInfo` finds that frame. A frame that is not the last one ends where the next
      one starts. */
  lemma InfoAt(p: Bytes, k: nat)
    requires WellFormedPacket(p) && FirstOffset(p) <= LAST_FIRST_OFFSET && k < |NewStarts(p, FirstOffset(p))|
    ensures var starts := NewStarts(p, FirstOffset(p));
            var offset := starts[k];
            var info, size := InfoOf(p, offset), FrameSize(p, offset);
            && HEADER_BITS <= offset && offset + 15 <= PACKET_BITS && 15 <= size
            && offset + size <= HEADER_BITS + 2 * PAYLOAD_BITS
            && info.currentFrameSize == size
            && (info.IsLastFrameInPacket() <==> k + 1 == |starts|)
            && (k + 1 < |starts| ==> starts[k + 1] == offset + size && offset + size <= PACKET_BITS)
  {
    hide Points, FrameSize, NewStarts, FirstOffset, InfoOf, Hangs, Follows;
    var first := FirstOffset(p);
    FirstIsPositive(p);
    var starts, all := NewStarts(p, first), Points(p, first, PACKET_BITS, NEW_LEAST);
    assert Describes(p, starts[k], InfoOf(p, starts[k]));
    PointsLinked(p, first, PACKET_BITS, NEW_LEAST, k);
    assert all[k] == starts[k];
    if k + 1 < |starts| {
      assert all[k + 1] == starts[k + 1];
      PointsLinked(p, first, PACKET_BITS, NEW_LEAST, k + 1);
    }
  }

  lemma InfoOnFrame(p: Bytes, offset: nat)
    requires WellFormedPacket(p) && FirstOffset(p) <= LAST_FIRST_OFFSET && offset in NewStarts(p, FirstOffset(p))
    ensures var info, size := InfoOf(p, offset), FrameSize(p, offset);
            && HEADER_BITS <= offset && offset + 15 <= PACKET_BITS && 15 <= size
            && offset + size <= HEADER_BITS + 2 * PAYLOAD_BITS
            && info.currentFrameSize == size
            && (!info.IsLastFrameInPacket() ==> offset + size in NewStarts(p, FirstOffset(p)))
            && (offset + size > PACKET_BITS ==> info.IsLastFrameInPacket())
  {
    hide NewStarts, FirstOffset, InfoOf, FrameSize, WellFormedFrames;
    var k :| 0 <= k < |NewStarts(p, FirstOffset(p))| && NewStarts(p, FirstOffset(p))[k] == offset;
    InfoAt(p, k);
  }

  /** The next packet in which a frame begins holds a frame at the offset found there. */
  lemma NextOnFrame(b: Bytes, next: nat)
    requires WellFormedBlock(b) && 0 < next && GetNextPacketReadOffset(b, next) != HEADER_BITS
    ensures OnFrame(b, GetNextPacketReadOffset(b, next)) && next * PACKET_BITS < GetNextPacketReadOffset(b, next)
  {
    hide FirstAt, OnFrame, WellFormedBlock, GetNextPacketReadOffset;
    NextReadOffsetExactly(b, next);
    var offset := GetNextPacketReadOffset(b, next);
    var i :| next <= i < Packets(b) && IsNextFrame(b, next, i, offset);
    FirstOnFrame(b, i);
  }

  lemma FirstOnFrame(b: Bytes, i: nat)
    requires WellFormedBlock(b) && i < Packets(b) && !Frameless(b, i)
    ensures OnFrame(b, i * PACKET_BITS + FirstAt(b, i)) && FirstAt(b, i) >= HEADER_BITS
  {
    hide FirstOffset, NewStarts, Points;
    var p, first := PacketOfBlock(b, i), FirstAt(b, i);
    FirstIsPositive(p);
    assert WellFormedPacket(p);
    PointsNonEmpty(p, first, PACKET_BITS, NEW_LEAST);
    assert NewStarts(p, first)[0] == first;
    var offset := i * PACKET_BITS + first;
    assert offset / PACKET_BITS == i && offset % PACKET_BITS == first;
    assert Max(offset, first) == offset;
  }

  /** The position from which `Decode` reads. */
  function Located(c: Cursor): (l: Cursor)
    requires Valid(c)
    ensures Valid(l)
  {
    var c1 := LoopUpdated(c);
    var n := GetPacketNumber(|c1.Current().block|, c1.offset);
    if n == -1 then c1 else Fixed(c1, n)
  }

  /** The frame read next goes on behind its packet, and what follows is not there yet. */
  predicate WaitsForRest(c: Cursor)
    requires Valid(c)
  {
    var l := Located(c);
    var n := l.offset / PACKET_BITS;
    n < Packets(l.Current().block) && WaitsBehind(l, n)
  }

  /** What `Decode` finds on a frame: that frame, with its declared size. */
  ghost predicate FoundAt(l: Cursor, found: Found)
    requires Valid(l)
  {
    var b, n, relative := l.Current().block, l.offset / PACKET_BITS, l.offset % PACKET_BITS;
    && n < Packets(b) && relative + 15 <= PACKET_BITS && HEADER_BITS <= relative
    && var p := PacketOfBlock(b, n);
       && found.Frame? && found.packet == p && found.at == relative - HEADER_BITS
       && found.size == FrameSize(p, relative)
       && found.rest == if relative + found.size > PACKET_BITS then GetNextPacket(l, n + SkipCount(p) + 1) else None
  }

  lemma LoopKeepsGood(c: Cursor)
    requires Good(c)
    ensures Good(LoopUpdated(c))
    ensures LoopUpdated(c) != c && c.loopCount != LOOP_FOREVER ==> LoopUpdated(c).loopCount < c.loopCount
    ensures LoopUpdated(c) == c || LoopUpdated(c).loopCount <= c.loopCount
  {
    hide OnFrame, WellFormedBlock;
  }

  /** What a frame position means for its packet. */
  lemma OnFrameHere(b: Bytes, offset: nat)
    requires OnFrame(b, offset) && IsBlock(b)
    ensures var n := offset / PACKET_BITS;
            && offset < 8 * |b| && n < Packets(b) && !Frameless(b, n) && GetPacketNumber(|b|, offset) == n
            && var l := Max(offset, FirstAt(b, n));
               && OnFrame(b, l) && l / PACKET_BITS == n
               && l % PACKET_BITS in NewStarts(PacketOfBlock(b, n), FirstAt(b, n))
  {
    hide NewStarts, FirstAt, PacketAt;
    var n := offset / PACKET_BITS;
    PacketOfOffset(|b|, offset);
    FixedInPacket(offset, FirstAt(b, n));
  }

  lemma LocatedOnFrame(c: Cursor)
    requires Good(c) && c.AnyValid()
    ensures var l, c1 := Located(c), LoopUpdated(c);
            && Good(l) && l.offset >= c1.offset && l == c1.(offset := l.offset) && ValidCount(l) == ValidCount(c)
            && var n := l.offset / PACKET_BITS;
               var b := l.Current().block;
               && n < Packets(b) && GetPacketNumber(|b|, c1.offset) == n && l == Fixed(c1, n)
               && !Frameless(b, n) && l.offset % PACKET_BITS in NewStarts(PacketOfBlock(b, n), FirstAt(b, n))
  {
    hide WellFormedBlock, NewStarts, FirstAt, PacketAt, Frameless, OnFrame, GetPacketNumber;
    LoopKeepsGood(c);
    var c1 := LoopUpdated(c);
    OnFrameHere(c1.Current().block, c1.offset);
  }

  lemma FixedInPacket(offset: nat, first: nat)
    requires first <= LAST_FIRST_OFFSET
    ensures Max(offset, first) / PACKET_BITS == offset / PACKET_BITS
    ensures Max(Max(offset, first), first) == Max(offset, first)
  {
  }

  /** The order of `Less` without loops. */
  predicate Behind(d: Cursor, c: Cursor) {
    d.loopCount == c.loopCount
      && (ValidCount(d) < ValidCount(c) || (ValidCount(d) == ValidCount(c) && Ahead(d) < Ahead(c)))
  }

  lemma ToNextPacketKeeps(c: Cursor, next: nat)
    requires Good(c) && c.AnyValid() && c.offset < next * PACKET_BITS
    ensures Good(ToNextPacket(c, next)) && Behind(ToNextPacket(c, next), c)
  {
    hide WellFormedBlock, OnFrame, FirstAt, GetNextPacketReadOffset;
    var b := c.Current().block;
    var offset := GetNextPacketReadOffset(b, next);
    if offset != HEADER_BITS {
      NextOnFrame(b, next);
      OnFrameInside(b, offset);
    } else {
      var s := Swapped(c);
      if s.AnyValid() && FirstAt(s.Current().block, 0) <= LAST_FIRST_OFFSET {
        FirstOnFrame(s.Current().block, 0);
      }
    }
  }

  lemma OnFrameInside(b: Bytes, offset: nat)
    requires OnFrame(b, offset) && |b| % PACKET_BYTES == 0
    ensures offset < 8 * |b|
  {
    hide FirstAt, NewStarts;
  }

  lemma StartOnFrame(b: Bytes, n: nat, x: nat)
    requires n < Packets(b) && !Frameless(b, n) && x in NewStarts(PacketOfBlock(b, n), FirstAt(b, n)) && IsBlock(b)
    ensures x < PACKET_BITS && OnFrame(b, n * PACKET_BITS + x) && n * PACKET_BITS + x < 8 * |b|
  {
    hide FirstAt, NewStarts, PacketAt, Points, Uncounted;
    var p, first := PacketOfBlock(b, n), FirstAt(b, n);
    FirstIsPositive(p);
    assert first >= HEADER_BITS by { FirstIsFirst(b, n); }
    var starts := NewStarts(p, first);
    var k :| 0 <= k < |starts| && starts[k] == x;
    SamePacket(n, x);
    SameFirst(n, x, first);
  }

  lemma FirstIsFirst(b: Bytes, n: nat)
    requires n < Packets(b)
    ensures FirstAt(b, n) == FirstOffset(PacketOfBlock(b, n)) >= HEADER_BITS
  {
  }

  /** A frame that is not the last one of its packet: reading goes on right behind it. */
  lemma NextInPacketKeeps(c: Cursor, size: nat)
    requires Good(c) && c.AnyValid() && c.offset / PACKET_BITS < Packets(c.Current().block)
    requires var b, n := c.Current().block, c.offset / PACKET_BITS;
             && !Frameless(b, n) && c.offset % PACKET_BITS + size in NewStarts(PacketOfBlock(b, n), FirstAt(b, n))
             && size > 0
    ensures var n := c.offset / PACKET_BITS;
            var d := c.(offset := n * PACKET_BITS + (c.offset + size) % PACKET_BITS);
            Good(d) && Behind(d, c) && d.offset == c.offset + size
  {
    hide WellFormedBlock, FirstAt, NewStarts, OnFrame, PacketAt, Frameless;
    var n, x := c.offset / PACKET_BITS, c.offset % PACKET_BITS + size;
    StartOnFrame(c.Current().block, n, x);
    assert (c.offset + size) % PACKET_BITS == x by { assert c.offset + size == n * PACKET_BITS + x; SamePacket(n, x); }
  }

  lemma SamePacket(n: nat, x: nat)
    requires x < PACKET_BITS
    ensures (n * PACKET_BITS + x) / PACKET_BITS == n && (n * PACKET_BITS + x) % PACKET_BITS == x
  {
  }

  lemma SameFirst(n: nat, x: nat, first: nat)
    requires first <= x < PACKET_BITS
    ensures Max(n * PACKET_BITS + x, first) == n * PACKET_BITS + x
  {
  }

  lemma DecodeInKeeps(l: Cursor, n: nat)
    requires Good(l) && l.AnyValid() && n == l.offset / PACKET_BITS && n < Packets(l.Current().block)
    requires var b := l.Current().block;
             !Frameless(b, n) && l.offset % PACKET_BITS in NewStarts(PacketOfBlock(b, n), FirstAt(b, n))
    ensures var s := DecodeIn(l, n);
            && Good(s.cursor)
            && (if s.found.Nothing? then s.cursor == l.(errorStatus := 4)
                else s.found.Frame? && FoundAt(l, s.found) && Behind(s.cursor, l))
            && (s.found.Nothing? <==> WaitsBehind(l, n))
  {
    hide WellFormedBlock, WellFormedPacket, FirstAt, FirstOffset, NewStarts, OnFrame, Less, Behind, ToNextPacket,
      InfoOf, FrameSize, Describes, GetNextPacket, PacketAt, IsBlock, Swapped;
    var b, relative := l.Current().block, l.offset % PACKET_BITS;
    var p := PacketOfBlock(b, n);
    BlockPacket(b, n);
    InfoOnFrame(p, relative);
    var info := InfoOf(p, relative);
    assert BitsLeft(l.offset, n) == PACKET_BITS - relative;
    if info.IsLastFrameInPacket() {
      ToNextPacketKeeps(l, n + SkipCount(p) + 1);
    } else {
      NextInPacketKeeps(l, info.currentFrameSize);
    }
    ErrorStatusIsFree(l);
  }

  predicate WaitsBehind(l: Cursor, n: nat)
    requires Valid(l) && n < Packets(l.Current().block)
  {
    var p, relative := PacketOfBlock(l.Current().block, n), l.offset % PACKET_BITS;
    relative + 15 <= PACKET_BITS && relative + FrameSize(p, relative) > PACKET_BITS
      && GetNextPacket(l, n + SkipCount(p) + 1).None?
  }

  lemma BlockPacket(b: Bytes, n: nat)
    requires WellFormedBlock(b) && n < Packets(b)
    ensures WellFormedPacket(PacketOfBlock(b, n)) && FirstAt(b, n) == FirstOffset(PacketOfBlock(b, n))
  {
  }

  lemma ErrorStatusIsFree(c: Cursor)
    requires Good(c)
    ensures Good(c.(errorStatus := 4))
  {
    hide WellFormedBlock, OnFrame;
  }

  /** `Decode` on well-formed buffers keeps the reading position on a frame; it finds the frame there,
      unless the rest of that frame is missing; and with every frame found there is less to do. */
  lemma DecodeProgress(c: Cursor)
    requires Good(c)
    ensures var s := Decode(c);
            && Good(s.cursor)
            && (!c.AnyValid() ==> s == Step(c, Nothing))
            && (c.AnyValid() && WaitsForRest(c) ==> s == Step(Located(c).(errorStatus := 4), Nothing))
            && (c.AnyValid() && !WaitsForRest(c) ==> s.found.Frame? && FoundAt(Located(c), s.found))
            && (s.found.Frame? && c.loopCount != LOOP_FOREVER ==> Less(s.cursor, c))
  {
    hide WellFormedBlock, OnFrame, DecodeIn, FoundAt, WaitsBehind, Decode, Located, LoopUpdated, PacketAt, FirstAt,
      NewStarts, IsBlock;
    if c.AnyValid() {
      LocatedOnFrame(c);
      LoopKeepsGood(c);
      DecodeAtLocated(c);
      var l := Located(c);
      DecodeInKeeps(l, l.offset / PACKET_BITS);
    } else {
      assert Decode(c) == Step(c, Nothing) by { NothingLeft(c); }
    }
  }

  lemma NothingLeft(c: Cursor)
    requires Valid(c) && !c.AnyValid()
    ensures Decode(c) == Step(c, Nothing)
  {
  }

  lemma DecodeAtLocated(c: Cursor)
    requires Good(c) && c.AnyValid()
    ensures Located(c).offset / PACKET_BITS < Packets(Located(c).Current().block)
    ensures Decode(c) == DecodeIn(Located(c), Located(c).offset / PACKET_BITS)
  {
    hide GoodInput, Frameless, FirstAt, NewStarts, OnFrame, DecodeIn, PacketAt, IsBlock, LoopUpdated, GetPacketNumber,
      Fixed;
    LocatedOnFrame(c);
    LoopKeepsGood(c);
  }

  /** The frames that a run of `Decode` finds, until nothing is left or the rest of a frame is missing.
      It ends. */
  ghost function Drain(c: Cursor): (found: seq<Found>)
    requires Good(c) && c.loopCount != LOOP_FOREVER
    decreases c.loopCount, ValidCount(c), Ahead(c)
  {
    hide Decode, OnFrame, WellFormedBlock, WaitsForRest, FoundAt, Located;
    DecodeProgress(c);
    var s := Decode(c);
    if s.found.Nothing? then [] else [s.found] + Drain(s.cursor)
  }

  /** The cursor after `k` calls of `Decode`, ... */
  ghost function CursorAfter(c: Cursor, k: nat): (d: Cursor)
    requires Good(c)
    ensures Good(d)
    decreases k
  {
    hide Decode, OnFrame, WellFormedBlock, WaitsForRest, FoundAt, Located;
    DecodeProgress(c);
    if k == 0 then c else CursorAfter(Decode(c).cursor, k - 1)
  }

  /** ... and the frames that they find, in order. */
  ghost function FramesOf(c: Cursor, k: nat): (frames: seq<Found>)
    requires Good(c)
    ensures |frames| <= k
    decreases k
  {
    hide Decode, OnFrame, WellFormedBlock, WaitsForRest, FoundAt, Located;
    DecodeProgress(c);
    if k == 0 then [] else IfFrame(Decode(c).found) + FramesOf(Decode(c).cursor, k - 1)
  }

  function IfFrame(f: Found): (frames: seq<Found>)
    ensures |frames| <= 1
  {
    if f.Frame? then [f] else []
  }

  lemma {:induction false} CallsAdd(c: Cursor, j: nat, k: nat)
    requires Good(c)
    ensures CursorAfter(c, j + k) == CursorAfter(CursorAfter(c, j), k)
    ensures FramesOf(c, j + k) == FramesOf(c, j) + FramesOf(CursorAfter(c, j), k)
    decreases j
  {
    hide Decode, OnFrame, WellFormedBlock, WaitsForRest, FoundAt, Located, IfFrame;
    if j > 0 {
      DecodeProgress(c);
      CallsAdd(Decode(c).cursor, j - 1, k);
      assert j + k - 1 == j - 1 + k;
    }
  }

  lemma OneCall(c: Cursor)
    requires Good(c)
    ensures Good(Decode(c).cursor) && CursorAfter(c, 1) == Decode(c).cursor
            && FramesOf(c, 1) == IfFrame(Decode(c).found)
  {
    hide Decode, OnFrame, WellFormedBlock, WaitsForRest, FoundAt, Located, IfFrame;
    DecodeProgress(c);
    assert CursorAfter(Decode(c).cursor, 0) == Decode(c).cursor;
    assert FramesOf(Decode(c).cursor, 0) == [];
  }

  /** Calls that all find a frame find the first frames of the whole run, and with a call that finds
      none they have found all of them. */
  lemma {:induction false} FramesAreDrained(c: Cursor, k: nat)
    requires Good(c) && c.loopCount != LOOP_FOREVER && |FramesOf(c, k)| == k
    ensures FramesOf(c, k) <= Drain(c)
    ensures Decode(CursorAfter(c, k)).found.Nothing? ==> FramesOf(c, k) == Drain(c)
    decreases k
  {
    hide Decode, OnFrame, WellFormedBlock, WaitsForRest, FoundAt, Located;
    if k > 0 {
      DecodeProgress(c);
      assert |FramesOf(Decode(c).cursor, k - 1)| <= k - 1;
      FramesAreDrained(Decode(c).cursor, k - 1);
    }
  }

  lemma {:induction false} ErrorStays(c: Cursor, k: nat)
    requires Good(c) && c.errorStatus == 4
    ensures CursorAfter(c, k).errorStatus == 4
    decreases k
  {
    hide Decode, OnFrame, WellFormedBlock, WaitsForRest, FoundAt, Located;
    if k > 0 {
      DecodeProgress(c);
      ErrorKept(c);
      ErrorStays(Decode(c).cursor, k - 1);
    }
  }

  lemma ErrorKept(c: Cursor)
    requires Valid(c) && c.errorStatus == 4
    ensures Decode(c).cursor.errorStatus == 4
  {
    hide FirstAt, InfoOf, GetNextPacketReadOffset, GetNextPacket, SkipCount, PacketAt, IsBlock;
  }

  /** Without a loop, a frame that was waited for is waited for again. */
  lemma WaitsAgain(c: Cursor)
    requires Good(c) && c.loopCount == 0 && c.AnyValid() && WaitsForRest(c)
    ensures var d := Located(c).(errorStatus := 4); Good(d) && d.loopCount == 0 && d.AnyValid() && WaitsForRest(d)
  {
    hide WellFormedBlock, OnFrame, FirstAt, NewStarts, PacketAt, FrameSize, SkipCount, IsBlock, GetPacketNumber;
    LocatedOnFrame(c);
    ErrorStatusIsFree(Located(c));
    var d := Located(c).(errorStatus := 4);
    LocatedOnFrame(d);
    OnFrameHere(d.Current().block, d.offset);
  }

  lemma {:induction false} NothingMore(c: Cursor, k: nat)
    requires Good(c) && Decode(c).found.Nothing?
    requires c.loopCount == 0 || !c.AnyValid()
    ensures FramesOf(c, k) == []
    decreases k
  {
    hide Decode, OnFrame, WellFormedBlock, WaitsForRest, FoundAt, Located;
    if k > 0 {
      DecodeProgress(c);
      var d := Decode(c).cursor;
      if c.AnyValid() {
        WaitsAgain(c);
        DecodeProgress(d);
      }
      NothingMore(d, k - 1);
    }
  }

  /** Any number of calls finds the first frames of the whole run, and once no buffer is left they have
      found all of them. With loops that holds as long as no call in front of the last one had to wait
      for the rest of a frame. */
  lemma {:induction false} CallsFindFirst(c: Cursor, k: nat)
    requires Good(c) && c.loopCount != LOOP_FOREVER
    requires c.loopCount == 0 || k == 0 || CursorAfter(c, k - 1).errorStatus != 4
    ensures FramesOf(c, k) <= Drain(c)
    ensures !CursorAfter(c, k).AnyValid() ==> FramesOf(c, k) == Drain(c)
    decreases k
  {
    hide Decode, OnFrame, WellFormedBlock, WaitsForRest, FoundAt, Located;
    DecodeProgress(c);
    if k > 0 {
      var d := Decode(c).cursor;
      if Decode(c).found.Frame? {
        CallsFindFirst(d, k - 1);
      } else if c.loopCount == 0 || !c.AnyValid() {
        NothingMore(c, k);
      } else {
        if k > 1 {
          ErrorStays(d, k - 2);
        }
        assert FramesOf(d, k - 1) == [];
      }
    }
  }

  // ---- whole buffers ------------------------------------------------------------------------------

  /** The frames that begin in packet `n`, as offsets in the block. */
  function FramesIn(b: Bytes, n: nat): (s: seq<nat>)
    requires n < Packets(b)
  {
    if Frameless(b, n) then []
    else
      var starts := NewStarts(PacketOfBlock(b, n), FirstAt(b, n));
      seq(|starts|, k requires 0 <= k < |starts| => n * PACKET_BITS + starts[k])
  }

  /** All frames of a block from packet `n` on, in order. */
  function FramesFrom(b: Bytes, n: nat): seq<nat>
    decreases Packets(b) - n
  {
    if n >= Packets(b) then [] else FramesIn(b, n) + FramesFrom(b, n + 1)
  }

  /** The frames of one stream of an interleaved block: behind a packet with frames it goes on as the
      skip count says, and the search for the next frame tries every packet in turn. */
  function Route(b: Bytes, n: nat): seq<nat>
    decreases Packets(b) - n
  {
    if n >= Packets(b) then []
    else if Frameless(b, n) then Route(b, n + 1)
    else FramesIn(b, n) + Route(b, n + SkipCount(PacketOfBlock(b, n)) + 1)
  }

  /** A frame as the number of its input buffer and its offset there. */
  datatype Place = Place(buffer: nat, offset: nat)

  function InBuffer(buffer: nat, offsets: seq<nat>): (places: seq<Place>)
    ensures |places| == |offsets| && forall k :: 0 <= k < |places| ==> places[k] == Place(buffer, offsets[k])
  {
    seq(|offsets|, k requires 0 <= k < |offsets| => Place(buffer, offsets[k]))
  }

  /** What the other buffer adds: it is given up when no frame begins in its first packet. */
  function Later(c: Cursor): seq<Place> {
    if c.Other().valid && 0 < Packets(c.Other().block) && !Frameless(c.Other().block, 0)
    then InBuffer(1 - Min(c.current, 1), Route(c.Other().block, 0)) else []
  }

  /** The places from which a run of `Decode` reads frames. */
  ghost function Reads(c: Cursor): (places: seq<Place>)
    requires Good(c) && c.loopCount == 0
    decreases ValidCount(c), Ahead(c)
  {
    hide Decode, OnFrame, WellFormedBlock, WaitsForRest, FoundAt, Located;
    DecodeProgress(c);
    var s := Decode(c);
    if s.found.Nothing? then [] else [Place(c.current, Located(c).offset)] + Reads(s.cursor)
  }

  /** No frame is cut off: one that runs on has a later packet of the block, or more behind it. */
  ghost predicate Unbroken(b: Bytes, more: bool) {
    forall n :: 0 <= n < Packets(b) && !Frameless(b, n) && !more ==>
      n + SkipCount(PacketOfBlock(b, n)) + 1 < Packets(b) || EndsInside(PacketOfBlock(b, n), FirstAt(b, n))
  }

  ghost predicate EndsInside(p: Bytes, first: nat)
    requires |p| == PACKET_BYTES && first <= PACKET_BITS
  {
    var starts := NewStarts(p, first);
    forall k :: 0 <= k < |starts| ==> starts[k] + FrameSize(p, starts[k]) <= PACKET_BITS
  }

  ghost predicate Whole(c: Cursor) {
    && Unbroken(c.Current().block, c.Other().valid && c.Other().hasAddress)
    && (c.Other().valid ==> Unbroken(c.Other().block, false))
  }

  /** The reading position is frame `k` of packet `n`. */
  ghost predicate At(c: Cursor, n: nat, k: nat) {
    && Good(c) && c.loopCount == 0 && c.Current().valid && Whole(c)
    && var b := c.Current().block;
       && n < Packets(b) && !Frameless(b, n)
       && k < |FramesIn(b, n)| && Located(c).offset == FramesIn(b, n)[k]
  }

  function NextOf(c: Cursor, n: nat): nat
    requires n < Packets(c.Current().block)
  {
    n + SkipCount(PacketOfBlock(c.Current().block, n)) + 1
  }

  lemma StartAt(b: Bytes, n: nat, k: nat)
    requires IsBlock(b) && WellFormedBlock(b) && n < Packets(b) && !Frameless(b, n) && k < |FramesIn(b, n)|
    ensures var x := FramesIn(b, n)[k];
            x / PACKET_BITS == n && x % PACKET_BITS == NewStarts(PacketOfBlock(b, n), FirstAt(b, n))[k]
            && GetPacketNumber(|b|, x) == n && Max(x, FirstAt(b, n)) == x
  {
    hide NewStarts, FirstAt, WellFormedBlock, PacketAt;
    var p, first := PacketOfBlock(b, n), FirstAt(b, n);
    var x := NewStarts(p, first)[k];
    StartOnFrame(b, n, x);
    SamePacket(n, x);
    PacketOfOffset(|b|, n * PACKET_BITS + x);
    BlockPacket(b, n);
    InfoAt(p, k);
    assert first <= x;
  }

  lemma DecodeInAt(l: Cursor, n: nat, k: nat)
    requires Good(l) && l.Current().valid && Whole(l) && n < Packets(l.Current().block)
             && !Frameless(l.Current().block, n)
    requires k < |FramesIn(l.Current().block, n)| && l.offset == FramesIn(l.Current().block, n)[k]
    ensures var b, s := l.Current().block, DecodeIn(l, n);
            && s.found.Frame?
            && s.cursor == if k + 1 < |FramesIn(b, n)| then l.(offset := FramesIn(b, n)[k + 1])
                 else ToNextPacket(l, NextOf(l, n))
  {
    hide WellFormedBlock, WellFormedPacket, Whole, FirstAt, FirstOffset, NewStarts, OnFrame, ToNextPacket, InfoOf,
      FrameSize,
      GetNextPacket, PacketAt, SkipCount, Describes, IsBlock;
    var b := l.Current().block;
    var p := PacketOfBlock(b, n);
    StartAt(b, n, k);
    BlockPacket(b, n);
    InfoAt(p, k);
    assert BitsLeft(l.offset, n) == PACKET_BITS - l.offset % PACKET_BITS;
    RestIsThere(l, n, k);
    if k + 1 < |FramesIn(b, n)| {
      StartAt(b, n, k + 1);
      assert (l.offset + FrameSize(p, l.offset % PACKET_BITS)) % PACKET_BITS == FramesIn(b, n)[k + 1] % PACKET_BITS;
    }
  }

  lemma ReadStep(c: Cursor, n: nat, k: nat)
    requires At(c, n, k)
    ensures var b, s := c.Current().block, Decode(c);
            && s.found.Frame?
            && s.cursor == if k + 1 < |FramesIn(b, n)| then Located(c).(offset := FramesIn(b, n)[k + 1])
                           else ToNextPacket(Located(c), NextOf(c, n))
  {
    hide WellFormedBlock, Unbroken, FirstAt, NewStarts, OnFrame, ToNextPacket, DecodeIn, FramesIn, GetPacketNumber,
      PacketAt, IsBlock;
    LocatedOnFrame(c);
    StartAt(c.Current().block, n, k);
    DecodeInAt(Located(c), n, k);
  }

  /** A frame that goes on behind its packet goes on somewhere. */
  lemma RestIsThere(l: Cursor, n: nat, k: nat)
    requires Valid(l) && Whole(l) && n < Packets(l.Current().block) && !Frameless(l.Current().block, n)
    requires k < |NewStarts(PacketOfBlock(l.Current().block, n), FirstAt(l.Current().block, n))|
    ensures var p := PacketOfBlock(l.Current().block, n);
            var x := NewStarts(p, FirstAt(l.Current().block, n))[k];
            x + FrameSize(p, x) > PACKET_BITS ==> GetNextPacket(l, NextOf(l, n)).Some?
  {
    hide FirstAt, NewStarts, FrameSize, PacketAt, SkipCount;
  }

  /** Behind the last frame of a packet: a frame of a later packet of the route, ... */
  lemma RouteGoesOn(l: Cursor, next: nat)
    requires Good(l) && l.loopCount == 0 && l.Current().valid && Whole(l) && l.offset < next * PACKET_BITS
    requires GetNextPacketReadOffset(l.Current().block, next) != HEADER_BITS
    ensures var b, d := l.Current().block, ToNextPacket(l, next);
            && d == l.(offset := d.offset)
            && exists i :: next <= i < Packets(b) && At(d, i, 0) && Route(b, next) == Route(b, i)
  {
    hide WellFormedBlock, Unbroken, FirstAt, NewStarts, OnFrame, PacketAt, GetNextPacketReadOffset, Route;
    var b, d := l.Current().block, ToNextPacket(l, next);
    ToNextPacketKeeps(l, next);
    NextReadOffsetExactly(b, next);
    var i :| next <= i < Packets(b) && IsNextFrame(b, next, i, d.offset);
    FramelessSkipped(b, next, i);
    FirstFrame(b, i);
    StartAt(b, i, 0);
    assert At(d, i, 0);
  }

  /** ... or the first frame of the other buffer, or nothing. */
  lemma RouteEnds(l: Cursor, next: nat)
    requires Good(l) && l.loopCount == 0 && l.Current().valid && Whole(l) && l.offset < next * PACKET_BITS
    requires GetNextPacketReadOffset(l.Current().block, next) == HEADER_BITS
    ensures var b, d := l.Current().block, ToNextPacket(l, next);
            && Route(b, next) == []
            && if d.AnyValid()
                 then At(d, 0, 0) && Later(d) == [] && Later(l) == InBuffer(d.current, Route(d.Current().block, 0))
               else Later(l) == []
  {
    hide WellFormedBlock, Unbroken, FirstAt, NewStarts, OnFrame, PacketAt, GetNextPacketReadOffset, Route, FramesIn;
    var b, d := l.Current().block, ToNextPacket(l, next);
    ToNextPacketKeeps(l, next);
    NextReadOffsetExactly(b, next);
    FramelessSkipped(b, next, Max(next, Packets(b)));
    assert Route(b, Max(next, Packets(b))) == [] by { NoPacketNoRoute(b, Max(next, Packets(b))); }
    if d.AnyValid() {
      FirstFrame(d.Current().block, 0);
      StartAt(d.Current().block, 0, 0);
    }
  }

  lemma NoPacketNoRoute(b: Bytes, n: nat)
    requires n >= Packets(b)
    ensures Route(b, n) == []
  {
  }

  lemma FirstFrame(b: Bytes, i: nat)
    requires WellFormedBlock(b) && i < Packets(b) && !Frameless(b, i)
    ensures |FramesIn(b, i)| > 0 && FramesIn(b, i)[0] == i * PACKET_BITS + FirstAt(b, i)
  {
    hide NewStarts, Points, FirstOffset, PacketAt;
    BlockPacket(b, i);
    PointsNonEmpty(PacketOfBlock(b, i), FirstAt(b, i), PACKET_BITS, NEW_LEAST);
    FirstIsFirst(b, i);
  }

  lemma {:induction false} FramelessSkipped(b: Bytes, n: nat, i: nat)
    requires n <= i && forall j :: n <= j < i && j < Packets(b) ==> Frameless(b, j)
    ensures Route(b, n) == Route(b, i)
    decreases i - n
  {
    hide FramesIn, FirstAt, SkipCount, PacketAt;
    if n < i {
      FramelessSkipped(b, n + 1, i);
      if n >= Packets(b) {
        NoPacketNoRoute(b, n);
        NoPacketNoRoute(b, i);
      }
    }
  }

  lemma RouteStep(b: Bytes, i: nat)
    requires i < Packets(b) && !Frameless(b, i)
    ensures Route(b, i) == FramesIn(b, i) + Route(b, i + SkipCount(PacketOfBlock(b, i)) + 1)
  {
    hide FramesIn, FirstAt, SkipCount, PacketAt;
  }

  /** Behind frame `k`: frame `k + 1`. */
  lemma AtNext(c: Cursor, n: nat, k: nat)
    requires At(c, n, k) && k + 1 < |FramesIn(c.Current().block, n)|
    ensures var d := Decode(c).cursor;
            At(d, n, k + 1) && d == c.(offset := d.offset)
  {
    hide WellFormedBlock, Unbroken, FirstAt, NewStarts, OnFrame, PacketAt, Decode, FoundAt, FramesIn, ToNextPacket,
      IsBlock, WaitsForRest;
    DecodeProgress(c);
    ReadStep(c, n, k);
    LocatedOnFrame(c);
    StartAt(c.Current().block, n, k + 1);
  }

  lemma ReadsUnfold(c: Cursor)
    requires Good(c) && c.loopCount == 0
    ensures var s := Decode(c);
            && (s.found.Nothing? ==> Reads(c) == [])
            && (s.found.Frame? ==>
                  && Good(s.cursor) && s.cursor.loopCount == 0
                  && Reads(c) == [Place(c.current, Located(c).offset)] + Reads(s.cursor))
  {
    hide Decode, OnFrame, WellFormedBlock, WaitsForRest, FoundAt, Located;
    DecodeProgress(c);
  }

  lemma NothingToRead(c: Cursor)
    requires Good(c) && c.loopCount == 0 && !c.AnyValid()
    ensures Reads(c) == []
  {
  }

  /** What is left to read from frame `k` of packet `n` on. */
  function Left(c: Cursor, n: nat, k: nat): seq<Place>
    requires n < Packets(c.Current().block) && k <= |FramesIn(c.Current().block, n)|
  {
    InBuffer(c.current, FramesIn(c.Current().block, n)[k..] + Route(c.Current().block, NextOf(c, n))) + Later(c)
  }

  lemma LeftStep(c: Cursor, n: nat, k: nat)
    requires n < Packets(c.Current().block) && k < |FramesIn(c.Current().block, n)|
    ensures Left(c, n, k) == [Place(c.current, FramesIn(c.Current().block, n)[k])] + Left(c, n, k + 1)
  {
    hide FramesIn, Route, NextOf, Later;
    var offsets := FramesIn(c.Current().block, n);
    assert offsets[k..] == [offsets[k]] + offsets[k + 1..];
    InBufferParts(c.current, [offsets[k]], offsets[k + 1..] + Route(c.Current().block, NextOf(c, n)));
    assert offsets[k..] + Route(c.Current().block, NextOf(c, n)) == [offsets[k]]
           + (offsets[k + 1..] + Route(c.Current().block, NextOf(c, n)));
  }

  lemma InBufferParts(buffer: nat, a: seq<nat>, b: seq<nat>)
    ensures InBuffer(buffer, a + b) == InBuffer(buffer, a) + InBuffer(buffer, b)
  {
  }

  /** A position at the first frame of a packet of the route has the rest of the route left. */
  lemma LeftAtPacket(c: Cursor, n: nat)
    requires n < Packets(c.Current().block) && !Frameless(c.Current().block, n)
    ensures Left(c, n, 0) == InBuffer(c.current, Route(c.Current().block, n)) + Later(c)
  {
    hide FramesIn, Later;
    RouteStep(c.Current().block, n);
    assert FramesIn(c.Current().block, n)[0..] == FramesIn(c.Current().block, n);
  }

  lemma {:induction false} ReadsRest(c: Cursor, n: nat, k: nat)
    requires At(c, n, k)
    ensures Reads(c) == Left(c, n, k)
    decreases ValidCount(c), Packets(c.Current().block) - n, |FramesIn(c.Current().block, n)| - k
  {
    hide WellFormedBlock, OnFrame, Unbroken, Frameless, Decode, Located, FramesIn, Route, Reads, Packets, Left, Later,
      SkipCount, ToNextPacket;
    ReadStep(c, n, k);
    ReadsUnfold(c);
    LeftStep(c, n, k);
    var d := Decode(c).cursor;
    if k + 1 < |FramesIn(c.Current().block, n)| {
      AtNext(c, n, k);
      ReadsRest(d, n, k + 1);
      SameLeft(c, d, n, k + 1);
    } else {
      ReadsLater(c, n, k);
    }
  }

  lemma SameLeft(c: Cursor, d: Cursor, n: nat, k: nat)
    requires d == c.(offset := d.offset) && n < Packets(c.Current().block) && k <= |FramesIn(c.Current().block, n)|
    ensures Left(c, n, k) == Left(d, n, k)
  {
    hide FramesIn, Route, SkipCount;
  }

  lemma {:induction false} ReadsLater(c: Cursor, n: nat, k: nat)
    requires At(c, n, k) && k + 1 == |FramesIn(c.Current().block, n)|
    ensures Good(Decode(c).cursor) && Decode(c).cursor.loopCount == 0 && Reads(Decode(c).cursor) == Left(c, n, k + 1)
    decreases ValidCount(c), Packets(c.Current().block) - n, 0
  {
    hide WellFormedBlock, OnFrame, Unbroken, FirstAt, Decode, FramesIn, Route, Reads, Packets, SkipCount,
      ToNextPacket, PacketAt, IsBlock,
      GetNextPacketReadOffset, NewStarts, GetPacketNumber;
    ReadStep(c, n, k);
    ReadsUnfold(c);
    var b, next, l := c.Current().block, NextOf(c, n), Located(c);
    var d := Decode(c).cursor;
    LocatedOnFrame(c);
    StartAt(b, n, k);
    assert Left(c, n, k + 1) == InBuffer(c.current, Route(b, next)) + Later(c) by {
      assert FramesIn(b, n)[k + 1..] + Route(b, next) == Route(b, next);
    }
    if GetNextPacketReadOffset(b, next) != HEADER_BITS {
      RouteGoesOn(l, next);
      var i :| next <= i < Packets(b) && At(d, i, 0) && Route(b, next) == Route(b, i);
      ReadsRest(d, i, 0);
      LeftAtPacket(d, i);
    } else {
      RouteEnds(l, next);
      if d.AnyValid() {
        BufferUsedUp(l, next);
        ReadsRest(d, 0, 0);
        LeftAtPacket(d, 0);
      } else {
        NothingToRead(d);
      }
    }
  }

  lemma BufferUsedUp(l: Cursor, next: nat)
    requires Valid(l) && 0 < next && l.Current().valid
             && GetNextPacketReadOffset(l.Current().block, next) == HEADER_BITS
    ensures ValidCount(ToNextPacket(l, next)) < ValidCount(l)
  {
    hide FirstAt, GetNextPacketReadOffset, IsBlock;
  }

  /** A run reads the frames of the route through the current buffer, each once and in order, and then
      those of the route through the other buffer, when no frame is cut off and a frame begins in the
      first packet. */
  lemma EveryFrameOnRoute(c: Cursor)
    requires Good(c) && c.loopCount == 0 && c.Current().valid && Whole(c) && c.offset == HEADER_BITS
    ensures Reads(c) == InBuffer(c.current, Route(c.Current().block, 0)) + Later(c)
  {
    hide WellFormedBlock, Unbroken, FirstAt, NewStarts, PacketAt, FramesIn, Route, Reads, Decode, IsBlock, Later;
    var b := c.Current().block;
    LocatedOnFrame(c);
    FirstFrame(b, 0);
    FirstIsFirst(b, 0);
    ReadsRest(c, 0, 0);
    LeftAtPacket(c, 0);
  }

  /** When the packets are those of a single stream, the route is all frames of the buffer. */
  lemma {:induction false} SingleStreamRoute(b: Bytes, n: nat)
    requires forall i :: 0 <= i < Packets(b) ==> SkipCount(PacketOfBlock(b, i)) == 0
    ensures Route(b, n) == FramesFrom(b, n)
    decreases Packets(b) - n
  {
    hide FramesIn, Frameless, SkipCount, PacketAt;
    if n < Packets(b) {
      SingleStreamRoute(b, n + 1);
      if Frameless(b, n) {
        FramelessHasNone(b, n);
      }
      assert SkipCount(PacketOfBlock(b, n)) == 0;
    }
  }

  /** The frames of the stream that packet `n` belongs to, by the skip counts alone. */
  function StreamFrames(b: Bytes, n: nat): seq<nat>
    decreases Packets(b) - n
  {
    if n >= Packets(b) then [] else FramesIn(b, n) + StreamFrames(b, n + SkipCount(PacketOfBlock(b, n)) + 1)
  }

  /** No frame begins in the packets that a packet without frames skips. */
  ghost predicate StaysInStream(b: Bytes, n: nat)
    decreases Packets(b) - n
  {
    n < Packets(b) ==>
      var next := n + SkipCount(PacketOfBlock(b, n)) + 1;
      && (Frameless(b, n) ==> forall i :: n < i < next && i < Packets(b) ==> Frameless(b, i))
      && StaysInStream(b, next)
  }

  /** Because the search tries the packets behind one without frames one by one, and does not look at its
      skip count, the route leaves its stream exactly when such a packet skips one in which a frame
      begins. */
  lemma {:induction false} RouteInStreamExactly(b: Bytes, n: nat)
    requires IsBlock(b) && WellFormedBlock(b)
    ensures Route(b, n) == StreamFrames(b, n) <==> StaysInStream(b, n)
    decreases Packets(b) - n
  {
    hide FramesIn, FirstAt, SkipCount, PacketAt, WellFormedBlock, IsBlock;
    if n < Packets(b) {
      var next := n + SkipCount(PacketOfBlock(b, n)) + 1;
      RouteInStreamExactly(b, next);
      if !Frameless(b, n) {
        SameRest(FramesIn(b, n), Route(b, next), StreamFrames(b, next));
      } else {
        FramelessHasNone(b, n);
        assert StreamFrames(b, n) == StreamFrames(b, next);
        if forall i :: n < i < next && i < Packets(b) ==> Frameless(b, i) {
          FramelessSkipped(b, n + 1, next);
        } else {
          RouteLeaves(b, n, next);
        }
      }
    }
  }

  lemma SameRest(front: seq<nat>, a: seq<nat>, b: seq<nat>)
    ensures front + a == front + b <==> a == b
  {
    assert (front + a)[|front|..] == a && (front + b)[|front|..] == b;
  }

  lemma RouteLeaves(b: Bytes, n: nat, next: nat)
    requires IsBlock(b) && WellFormedBlock(b) && n < Packets(b) && Frameless(b, n)
    requires next == n + SkipCount(PacketOfBlock(b, n)) + 1
    requires exists i :: n < i < next && i < Packets(b) && !Frameless(b, i)
    ensures Route(b, n) != StreamFrames(b, next)
  {
    hide FramesIn, FirstAt, SkipCount, PacketAt, WellFormedBlock, IsBlock;
    var i := FirstFramed(b, n + 1, next);
    FramelessSkipped(b, n + 1, i);
    FirstFrame(b, i);
    StartAt(b, i, 0);
    assert Route(b, n)[0] == FramesIn(b, i)[0];
    StreamIsLater(b, next);
  }

  lemma {:induction false} FirstFramed(b: Bytes, n: nat, next: nat) returns (i: nat)
    requires exists i :: n <= i < next && i < Packets(b) && !Frameless(b, i)
    ensures n <= i < next && i < Packets(b) && !Frameless(b, i) && forall j :: n <= j < i ==> Frameless(b, j)
    decreases next - n
  {
    hide FirstAt, PacketAt;
    i := n;
    if Frameless(b, n) {
      i := FirstFramed(b, n + 1, next);
    }
  }

  lemma {:induction false} StreamIsLater(b: Bytes, n: nat)
    requires IsBlock(b) && WellFormedBlock(b)
    ensures StreamFrames(b, n) != [] ==> n <= StreamFrames(b, n)[0] / PACKET_BITS
    decreases Packets(b) - n
  {
    hide FramesIn, FirstAt, SkipCount, PacketAt, WellFormedBlock, IsBlock;
    if n < Packets(b) {
      StreamIsLater(b, n + SkipCount(PacketOfBlock(b, n)) + 1);
      if Frameless(b, n) {
        FramelessHasNone(b, n);
      } else {
        FirstFrame(b, n);
        StartAt(b, n, 0);
      }
    }
  }

  lemma FramelessHasNone(b: Bytes, n: nat)
    requires n < Packets(b) && Frameless(b, n)
    ensures FramesIn(b, n) == []
  {
  }

  /** A call changes nothing, and the loop around it would not end, exactly when the current buffer is
      not valid although the other one is, or when the offset lies outside the current buffer and no
      loop moves it. */
  lemma NoProgressExactly(c: Cursor)
    requires Valid(c) && c.AnyValid() && c.errorStatus != 4
    ensures Decode(c) == Step(c, Nothing)
            <==> !c.Current().valid || (LoopUpdated(c) == c && GetPacketNumber(|c.Current().block|, c.offset) == -1)
  {
    hide FirstAt, InfoOf, Describes, ToNextPacket, GetNextPacket, SkipCount, PacketAt;
  }

  /** No frame can be read at the first offset of a packet: no header fits there, or its 15 bits are
      zero or the marker. */
  predicate NothingAtFirst(b: Bytes, n: nat)
    requires n < Packets(b)
  {
    var first := FirstAt(b, n);
    first + 15 > PACKET_BITS || FrameSize(PacketOfBlock(b, n), first) in {0, MAX_FRAME_LENGTH}
  }

  /** At the start of a buffer the whole buffer is given up, whatever its later packets hold, exactly
      when no frame can be read at the first offset of its first packet. The comment on the search
      says that it goes on to the next packet. */
  lemma BufferDroppedExactly(c: Cursor)
    requires Valid(c) && c.Current().valid && LoopUpdated(c) == c && c.offset == HEADER_BITS
    ensures Decode(c) == Step(Swapped(c), Nothing) <==> NothingAtFirst(c.Current().block, 0)
  {
    hide FirstAt, InfoOf, Describes, ToNextPacket, GetNextPacket, SkipCount, PacketAt, FrameSize, IsBlock;
    var b := c.Current().block;
    FirstIsFirst(b, 0);
    if FirstAt(b, 0) < PACKET_BITS {
      SizeAtFirst(PacketOfBlock(b, 0));
    }
  }

  lemma SizeAtFirst(p: Bytes)
    requires |p| == PACKET_BYTES && FirstOffset(p) < PACKET_BITS
    ensures var first := FirstOffset(p);
            InfoOf(p, first).currentFrameSize == 0
            <==> first + 15 > PACKET_BITS || FrameSize(p, first) in {0, MAX_FRAME_LENGTH}
  {
    hide FirstOffset, InfoOf, Points, NewStarts, FrameSize;
    var first := FirstOffset(p);
    assert Describes(p, first, InfoOf(p, first));
    FirstCounted(p, first);
  }

  /** The first offset is a counted frame unless no header fits or the header is the marker. */
  lemma FirstCounted(p: Bytes, first: nat)
    requires |p| == PACKET_BYTES && first <= PACKET_BITS
    ensures first in NewStarts(p, first) <==> !Uncounted(p, first)
    ensures NewStarts(p, first) != [] ==> NewStarts(p, first)[0] == first
  {
    hide Field, StreamBit;
    NewStartsEmpty(p, first);
    PointsNonEmpty(p, first, PACKET_BITS, NEW_LEAST);
  }
}
