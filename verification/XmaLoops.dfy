/** Runs of the new XMA decoder with loops (src/xenia/apu/xma_context_new.cc:479-500): frames up to the
    loop end, the frames of the loop once for each loop, and the rest. */
module XmaLoops {
  import opened Arith
  import opened BitStreams
  import opened Options
  import opened XmaPackets
  import opened XmaWalkers
  import opened XmaCursor

  /** A run that can be read to its end: no frame is cut off, and the loops are counted. */
  ghost predicate Complete(c: Cursor) {
    Good(c) && c.loopCount != LOOP_FOREVER && Whole(c)
  }

  /** The places from which a run reads frames, loops and all. */
  ghost function AllReads(c: Cursor): (places: seq<Place>)
    requires Good(c) && c.loopCount != LOOP_FOREVER
    decreases c.loopCount, ValidCount(c), Ahead(c)
  {
    hide Decode, OnFrame, WellFormedBlock, WaitsForRest, FoundAt, Located;
    DecodeProgress(c);
    var s := Decode(c);
    if s.found.Nothing? then [] else [Place(c.current, Located(c).offset)] + AllReads(s.cursor)
  }

  function Plain(c: Cursor): Cursor {
    c.(loopCount := 0)
  }

  lemma PlainIsGood(c: Cursor)
    requires Good(c)
    ensures Good(Plain(c)) && (c.loopCount == 0 ==> Plain(c) == c)
  {
    hide WellFormedBlock, OnFrame;
  }

  lemma {:induction false} PlainRun(c: Cursor)
    requires Good(c) && c.loopCount == 0
    ensures AllReads(c) == Reads(c)
    decreases ValidCount(c), Ahead(c)
  {
    hide Decode, OnFrame, WellFormedBlock, WaitsForRest, FoundAt, Located;
    DecodeProgress(c);
    if Decode(c).found.Frame? {
      PlainRun(Decode(c).cursor);
    }
  }

  // ---- one call -------------------------------------------------------------------------------

  /** No frame of such a run has to wait for its rest. */
  lemma WholeFinds(c: Cursor)
    requires Good(c) && c.AnyValid() && Whole(c)
    ensures Decode(c).found.Frame?
  {
    hide WellFormedBlock, OnFrame, Decode, FoundAt, FirstAt, NewStarts, PacketAt, FrameSize, SkipCount, Unbroken,
      Located,
      GetNextPacket;
    DecodeProgress(c);
    LocatedOnFrame(c);
    var l := Located(c);
    var b, n := l.Current().block, l.offset / PACKET_BITS;
    var starts := NewStarts(PacketOfBlock(b, n), FirstAt(b, n));
    var k :| 0 <= k < |starts| && starts[k] == l.offset % PACKET_BITS;
    SameBuffers(c);
    RestIsThere(l, n, k);
  }

  lemma SameBuffers(c: Cursor)
    requires Good(c) && c.AnyValid()
    ensures Located(c) == LoopUpdated(c).(offset := Located(c).offset) && (Whole(c) ==> Whole(Located(c)))
  {
    hide WellFormedBlock, OnFrame, Unbroken, FirstAt, GetPacketNumber;
    LocatedOnFrame(c);
  }

  /** Without loops a call moves on in the same buffer, or to the other one; and where it stops, if
      anything is left, a frame begins. */
  lemma StepShape(d: Cursor)
    requires Good(d) && d.loopCount == 0 && d.AnyValid() && Decode(d).found.Frame?
    ensures var e := Decode(d).cursor;
            && Good(e) && e.loopCount == 0
            && (e.AnyValid() ==>
                  && (e == d.(offset := e.offset) || e == Swapped(d).(offset := e.offset))
                  && Located(e).offset == e.offset)
  {
    hide WellFormedBlock, OnFrame, FirstAt, NewStarts, PacketAt, DecodeIn, GetPacketNumber, Frameless;
    DecodeProgress(d);
    LocatedOnFrame(d);
    DecodeAtLocated(d);
    var l, e := Located(d), Decode(d).cursor;
    assert l == d.(offset := l.offset);
    MovedShape(l, l.offset / PACKET_BITS);
    if e.AnyValid() {
      LocatedOnFrame(e);
      OnFrameHere(e.Current().block, e.offset);
    }
  }

  lemma MovedShape(l: Cursor, n: nat)
    requires Good(l) && l.AnyValid() && n == l.offset / PACKET_BITS && n < Packets(l.Current().block)
    requires !Frameless(l.Current().block, n) && DecodeIn(l, n).found.Frame?
    requires l.offset % PACKET_BITS in NewStarts(PacketOfBlock(l.Current().block, n), FirstAt(l.Current().block, n))
    ensures var e := DecodeIn(l, n).cursor;
            e.AnyValid() ==>
              && (e == l.(offset := e.offset) || e == Swapped(l).(offset := e.offset))
              && e.offset / PACKET_BITS < Packets(e.Current().block)
              && e.offset >= FirstAt(e.Current().block, e.offset / PACKET_BITS)
  {
    hide WellFormedBlock, WellFormedPacket, OnFrame, FirstAt, FirstOffset, NewStarts, PacketAt, InfoOf, FrameSize,
      Describes, GetNextPacket, IsBlock, SkipCount, GetNextPacketReadOffset;
    var b, relative := l.Current().block, l.offset % PACKET_BITS;
    var p := PacketOfBlock(b, n);
    BlockPacket(b, n);
    InfoOnFrame(p, relative);
    if InfoOf(p, relative).IsLastFrameInPacket() {
      NextShape(l, n + SkipCount(p) + 1);
    } else {
      var x := relative + InfoOf(p, relative).currentFrameSize;
      StartOnFrame(b, n, x);
      NextInPacketKeeps(l, InfoOf(p, relative).currentFrameSize);
      SamePacket(n, x);
      StartsBehind(b, n, x);
    }
  }

  lemma StartsBehind(b: Bytes, n: nat, x: nat)
    requires n < Packets(b) && !Frameless(b, n) && x in NewStarts(PacketOfBlock(b, n), FirstAt(b, n))
    ensures FirstAt(b, n) <= x
  {
    hide FirstAt, Points, PacketAt;
  }

  lemma NextShape(l: Cursor, next: nat)
    requires Good(l) && l.AnyValid() && 0 < next
    ensures var e := ToNextPacket(l, next);
            e.AnyValid() ==>
              && (e == l.(offset := e.offset) || e == Swapped(l).(offset := e.offset))
              && e.offset / PACKET_BITS < Packets(e.Current().block)
              && e.offset >= FirstAt(e.Current().block, e.offset / PACKET_BITS)
  {
    hide WellFormedBlock, OnFrame, FirstAt, GetNextPacketReadOffset, IsBlock;
    var b, offset := l.Current().block, GetNextPacketReadOffset(l.Current().block, next);
    if offset != HEADER_BITS {
      NextReadOffsetExactly(b, next);
      var i :| next <= i < Packets(b) && IsNextFrame(b, next, i, offset);
      SamePacket(i, FirstAt(b, i));
    }
  }

  lemma WholeKept(d: Cursor)
    requires Good(d) && d.loopCount == 0 && d.AnyValid() && Whole(d)
    ensures Decode(d).found.Frame? && (Decode(d).cursor.AnyValid() ==> Whole(Decode(d).cursor))
  {
    hide WellFormedBlock, OnFrame, Decode, Unbroken, Located;
    WholeFinds(d);
    StepShape(d);
  }

  // ---- a run without loops, from any of its places -----------------------------------------------

  /** The reading position at a place that a run comes to. */
  function AtPlace(d: Cursor, p: Place): Cursor {
    if p.buffer == d.current then d.(offset := p.offset) else Swapped(d).(offset := p.offset)
  }

  lemma {:induction false} OneBuffer(d: Cursor, i: nat)
    requires Good(d) && d.loopCount == 0 && !d.Other().valid && i < |Reads(d)|
    ensures Reads(d)[i].buffer == d.current
    decreases ValidCount(d), Ahead(d)
  {
    hide Decode, OnFrame, WellFormedBlock, WaitsForRest, FoundAt, Located;
    DecodeProgress(d);
    ReadsUnfold(d);
    if i > 0 {
      StepShape(d);
      var e := Decode(d).cursor;
      NothingFromNothing(e);
      OneBuffer(e, i - 1);
    }
  }

  lemma NothingFromNothing(e: Cursor)
    requires Good(e) && e.loopCount == 0
    ensures !e.AnyValid() ==> Reads(e) == []
  {
    hide OnFrame, WellFormedBlock;
    if !e.AnyValid() {
      NothingToRead(e);
    }
  }

  /** From each of its places on, a run is the rest of itself. */
  lemma {:induction false} RunFromPlace(d: Cursor, i: nat)
    requires Good(d) && d.loopCount == 0 && 0 < i < |Reads(d)|
    ensures var e := AtPlace(d, Reads(d)[i]);
            && Good(e) && e.AnyValid() && Located(e).offset == e.offset && Reads(e) == Reads(d)[i..]
            && (Whole(d) ==> Whole(e))
    decreases ValidCount(d), Ahead(d)
  {
    hide Decode, OnFrame, WellFormedBlock, WaitsForRest, FoundAt, Located, Unbroken;
    DecodeProgress(d);
    ReadsUnfold(d);
    StepShape(d);
    var e := Decode(d).cursor;
    NothingFromNothing(e);
    ReadsUnfold(e);
    DecodeProgress(e);
    if Whole(d) {
      WholeKept(d);
    }
    assert Reads(d)[1..] == Reads(e);
    if i == 1 {
      assert Reads(e)[0] == Place(e.current, Located(e).offset);
    } else {
      RunFromPlace(e, i - 1);
      if e.current != d.current {
        OneBuffer(e, i - 1);
      }
      assert Reads(d)[i..] == Reads(e)[i - 1..];
    }
  }

  // ---- loops ----------------------------------------------------------------------------------

  /** The count of loops changes nothing in a call but itself. */
  lemma DecodeInLoops(l: Cursor, n: nat, k: nat)
    requires Valid(l) && n < Packets(l.Current().block) && k < 256
    ensures Valid(l.(loopCount := k))
    ensures DecodeIn(l.(loopCount := k), n)
            == Step(DecodeIn(l, n).cursor.(loopCount := k), DecodeIn(l, n).found)
  {
    hide FirstAt, NewStarts, PacketAt, InfoOf, FrameSize, Describes, IsBlock, SkipCount, GetNextPacketReadOffset;
  }

  /** Where a call begins: at the loop start when it stands at the loop end and has loops left. */
  function Start(c: Cursor): Cursor
    requires c.loopCount < LOOP_FOREVER
  {
    if c.loopCount > 0 && c.offset == Max(32, c.loopEnd)
    then c.(offset := Max(32, c.loopStart), loopCount := c.loopCount - 1) else c
  }

  lemma StartIsGood(c: Cursor)
    requires Complete(c) && c.AnyValid()
    ensures c.loopCount < LOOP_FOREVER && Complete(Start(c)) && Start(c).AnyValid() && Good(Plain(Start(c)))
            && Whole(Plain(Start(c)))
  {
    hide WellFormedBlock, OnFrame, Unbroken;
    LoopKeepsGood(c);
    assert Start(c) == LoopUpdated(c);
  }

  /** From there it does what it would do without loops. */
  lemma CallWithLoops(c: Cursor)
    requires Complete(c) && c.AnyValid()
    ensures c.loopCount < LOOP_FOREVER && Good(Plain(Start(c)))
    ensures var d := Plain(Start(c));
            && Decode(c).found == Decode(d).found
            && Decode(c).cursor == Decode(d).cursor.(loopCount := Start(c).loopCount)
            && Located(c).offset == Located(d).offset && Located(c).current == d.current == c.current
  {
    hide WellFormedBlock, OnFrame, Unbroken, FirstAt, NewStarts, PacketAt, DecodeIn, GetPacketNumber, IsBlock;
    StartIsGood(c);
    var d := Plain(Start(c));
    LocatedOnFrame(c);
    LocatedOnFrame(d);
    DecodeAtLocated(c);
    DecodeAtLocated(d);
    var l, m := Located(c), Located(d);
    assert m == l.(loopCount := 0);
    DecodeInLoops(m, m.offset / PACKET_BITS, l.loopCount);
    assert m.(loopCount := l.loopCount) == l;
  }

  /** Place `e` is the first one behind the start of a run that lies at the loop end. */
  ghost predicate IsEnd(run: seq<Place>, loopEnd: nat, e: nat) {
    0 < e < |run| && run[e].offset == loopEnd && forall i :: 0 < i < e ==> run[i].offset != loopEnd
  }

  ghost predicate NoEnd(run: seq<Place>, loopEnd: nat) {
    forall i :: 0 < i < |run| ==> run[i].offset != loopEnd
  }

  lemma LoopsStayGood(d: Cursor, e: Cursor, k: nat)
    requires Good(d.(loopCount := k)) && Good(e)
    requires e == d.(offset := e.offset) || e == Swapped(d).(offset := e.offset) || !e.AnyValid()
    requires e.loopStart == d.loopStart
    ensures Good(e.(loopCount := k))
  {
    hide WellFormedBlock, OnFrame;
  }

  lemma LoopPointsStay(d: Cursor)
    requires Good(d)
    ensures var e := Decode(d).cursor; e.loopStart == d.loopStart && e.loopEnd == d.loopEnd
  {
    hide FirstAt, InfoOf, GetNextPacketReadOffset, GetNextPacket, SkipCount, PacketAt, IsBlock, WellFormedBlock,
      OnFrame;
  }

  lemma NoneLeft(c: Cursor)
    requires Good(c) && c.loopCount != LOOP_FOREVER && !c.AnyValid()
    ensures AllReads(c) == []
  {
    hide WellFormedBlock, OnFrame;
    NothingLeft(c);
  }

  lemma AllReadsUnfold(c: Cursor)
    requires Complete(c) && c.AnyValid()
    ensures Good(Decode(c).cursor) && Decode(c).cursor.loopCount != LOOP_FOREVER
    ensures AllReads(c) == [Place(c.current, Located(c).offset)] + AllReads(Decode(c).cursor)
  {
    hide Decode, OnFrame, WellFormedBlock, WaitsForRest, FoundAt, Located, Unbroken;
    DecodeProgress(c);
    WholeFinds(c);
  }

  /** `next` goes on with `k` loops behind the first place of the run from `d`: like that run up to the loop
      end, at place `e`, and there with `k` loops again. */
  ghost predicate GoesOn(d: Cursor, next: Cursor, k: nat, e: nat)
    requires Good(d) && d.loopCount == 0 && Good(next) && next.loopCount != LOOP_FOREVER && k < LOOP_FOREVER
  {
    var run, loopEnd := Reads(d), Max(32, d.loopEnd);
    && |run| > 0
    && (NoEnd(run, loopEnd) ==> [run[0]] + AllReads(next) == run)
    && (IsEnd(run, loopEnd, e) ==>
          && Good(AtPlace(d, run[e]).(loopCount := k))
          && [run[0]] + AllReads(next) == run[..e] + AllReads(AtPlace(d, run[e]).(loopCount := k)))
  }

  lemma EndShifts(run: seq<Place>, rest: seq<Place>, loopEnd: nat, e: nat)
    requires |run| > 0 && |rest| > 0 && run == [run[0]] + rest && rest[0].offset != loopEnd
    ensures NoEnd(run, loopEnd) ==> NoEnd(rest, loopEnd)
    ensures IsEnd(run, loopEnd, e) ==>
              e > 1 && IsEnd(rest, loopEnd, e - 1) && run[e] == rest[e - 1] && run[..e] == [run[0]] + rest[..e - 1]
  {
    assert forall i :: 0 <= i < |rest| ==> rest[i] == run[i + 1];
    assert e == 1 ==> run[e] == rest[0];
  }

  /** Behind its first place a run with loops left is the run without loops up to the loop end, if it comes
      to it. */
  lemma {:induction false} FollowsPlain(d: Cursor, k: nat, e: nat)
    requires Good(d) && d.loopCount == 0 && d.AnyValid() && Whole(d)
    requires 0 < k < LOOP_FOREVER && Good(d.(loopCount := k))
    ensures Good(Decode(d).cursor.(loopCount := k)) && GoesOn(d, Decode(d).cursor.(loopCount := k), k, e)
    decreases ValidCount(d), Ahead(d)
  {
    hide Decode, OnFrame, WellFormedBlock, WaitsForRest, FoundAt, Located, Unbroken, GoesOn;
    DecodeProgress(d);
    WholeKept(d);
    StepShape(d);
    LoopPointsStay(d);
    var d1 := Decode(d).cursor;
    LoopsStayGood(d, d1, k);
    if !d1.AnyValid() {
      EndsThere(d, d1, k, e);
    } else if d1.offset == Max(32, d.loopEnd) {
      StandsAtEnd(d, d1, k, e);
    } else {
      FollowsPlain(d1, k, if e > 0 then e - 1 else 0);
      SecondCall(d, d1, k);
      FollowsOn(d, d1, k, e);
    }
  }

  lemma EndsThere(d: Cursor, d1: Cursor, k: nat, e: nat)
    requires Good(d) && d.loopCount == 0 && d1 == Decode(d).cursor && Decode(d).found.Frame? && !d1.AnyValid()
    requires k < LOOP_FOREVER && Good(d1.(loopCount := k))
    ensures GoesOn(d, d1.(loopCount := k), k, e)
  {
    hide Decode, OnFrame, WellFormedBlock, WaitsForRest, FoundAt, Located;
    ReadsUnfold(d);
    NoneLeft(d1.(loopCount := k));
    NothingFromNothing(d1);
  }

  lemma StandsAtEnd(d: Cursor, d1: Cursor, k: nat, e: nat)
    requires Good(d) && d.loopCount == 0 && d1 == Decode(d).cursor && Decode(d).found.Frame? && d1.AnyValid()
    requires Good(d1) && Whole(d1) && k < LOOP_FOREVER && Good(d1.(loopCount := k))
    requires d1 == d.(offset := d1.offset) || d1 == Swapped(d).(offset := d1.offset)
    requires d1.offset == Max(32, d.loopEnd) && Located(d1).offset == d1.offset
    ensures GoesOn(d, d1.(loopCount := k), k, e)
  {
    hide Decode, OnFrame, WellFormedBlock, WaitsForRest, FoundAt, Located, Unbroken;
    ReadsUnfold(d);
    ReadsUnfold(d1);
    WholeFinds(d1);
    var run := Reads(d);
    assert run[1] == Place(d1.current, d1.offset);
    assert AtPlace(d, run[1]) == d1;
    assert IsEnd(run, Max(32, d.loopEnd), e) ==> e == 1;
    assert run[..1] == [run[0]];
  }

  lemma SecondCall(d: Cursor, d1: Cursor, k: nat)
    requires Good(d) && d.loopCount == 0 && d.AnyValid() && Good(d1) && d1.AnyValid() && Whole(d1)
    requires d1 == Decode(d).cursor && (d1 == d.(offset := d1.offset) || d1 == Swapped(d).(offset := d1.offset))
    requires Decode(d).found.Frame? && 0 < k < LOOP_FOREVER && Good(d1.(loopCount := k))
    requires d1.offset != Max(32, d.loopEnd) && Located(d1).offset == d1.offset
    ensures |Reads(d)| > 0 && Reads(d) == [Reads(d)[0]] + Reads(d1)
    ensures |Reads(d1)| > 0 && Reads(d1)[0] == Place(d1.current, d1.offset)
    ensures Good(Decode(d1).cursor.(loopCount := k))
            && AllReads(d1.(loopCount := k)) == [Reads(d1)[0]] + AllReads(Decode(d1).cursor.(loopCount := k))
  {
    hide Decode, OnFrame, WellFormedBlock, WaitsForRest, FoundAt, Located, Unbroken;
    var next := d1.(loopCount := k);
    ReadsUnfold(d);
    ReadsUnfold(d1);
    WholeFinds(d1);
    assert Plain(Start(next)) == d1;
    CallWithLoops(next);
    AllReadsUnfold(next);
  }

  lemma FollowsOn(d: Cursor, d1: Cursor, k: nat, e: nat)
    requires Good(d) && d.loopCount == 0 && Good(d1) && d1.loopCount == 0 && k < LOOP_FOREVER
    requires d1 == d.(offset := d1.offset) || d1 == Swapped(d).(offset := d1.offset)
    requires d1.offset != Max(32, d.loopEnd) && Good(d1.(loopCount := k))
    requires |Reads(d)| > 0 && Reads(d) == [Reads(d)[0]] + Reads(d1)
    requires |Reads(d1)| > 0 && Reads(d1)[0] == Place(d1.current, d1.offset)
    requires Good(Decode(d1).cursor.(loopCount := k))
             && AllReads(d1.(loopCount := k)) == [Reads(d1)[0]] + AllReads(Decode(d1).cursor.(loopCount := k))
    requires GoesOn(d1, Decode(d1).cursor.(loopCount := k), k, if e > 0 then e - 1 else 0)
    ensures GoesOn(d, d1.(loopCount := k), k, e)
  {
    hide Decode, OnFrame, WellFormedBlock, Reads, AllReads, Good, AtPlace;
    var run, rest, loopEnd := Reads(d), Reads(d1), Max(32, d.loopEnd);
    var next := d1.(loopCount := k);
    EndShifts(run, rest, loopEnd, e);
    if IsEnd(run, loopEnd, e) {
      SamePlace(d, d1, e);
      var tail := AllReads(AtPlace(d1, rest[e - 1]).(loopCount := k));
      Regroup([run[0]], rest[..e - 1], tail);
      assert AllReads(next) == rest[..e - 1] + tail;
    }
  }

  lemma Regroup(a: seq<Place>, b: seq<Place>, c: seq<Place>)
    ensures a + (b + c) == a + b + c
  {
  }

  lemma SamePlace(d: Cursor, d1: Cursor, e: nat)
    requires Good(d) && d.loopCount == 0 && Good(d1) && d1.loopCount == 0 && 1 < e <= |Reads(d1)|
    requires d1 == d.(offset := d1.offset) || d1 == Swapped(d).(offset := d1.offset)
    ensures AtPlace(d, Reads(d1)[e - 1]) == AtPlace(d1, Reads(d1)[e - 1])
  {
    hide Decode, OnFrame, WellFormedBlock, Reads;
    if d1.current != d.current {
      OneBuffer(d1, e - 1);
    }
  }

  /** With no loop left, or none to come to, a run is the run without loops from where it starts. Otherwise
      it is that up to the loop end, at place `e`, and begins there again with the loops that are left. */
  ghost predicate BeginsAgain(c: Cursor, e: nat)
    requires Good(c) && c.loopCount < LOOP_FOREVER && Good(Plain(Start(c)))
  {
    var run, loopEnd, left := Reads(Plain(Start(c))), Max(32, c.loopEnd), Start(c).loopCount;
    && (left == 0 || NoEnd(run, loopEnd) ==> AllReads(c) == run)
    && (left > 0 && IsEnd(run, loopEnd, e) ==>
          && Good(AtPlace(Start(c), run[e]))
          && AllReads(c) == run[..e] + AllReads(AtPlace(Start(c), run[e])))
  }

  lemma RunToLoopEnd(c: Cursor, e: nat)
    requires Complete(c) && c.AnyValid()
    ensures c.loopCount < LOOP_FOREVER && Good(Plain(Start(c))) && BeginsAgain(c, e)
  {
    hide Decode, OnFrame, WellFormedBlock, WaitsForRest, FoundAt, Located, Unbroken;
    StartIsGood(c);
    CallWithLoops(c);
    AllReadsUnfold(c);
    var s, d := Start(c), Plain(Start(c));
    WholeFinds(d);
    ReadsUnfold(d);
    DecodeProgress(d);
    if s.loopCount == 0 {
      PlainRun(Decode(d).cursor);
    } else {
      assert d.(loopCount := s.loopCount) == s;
      FollowsPlain(d, s.loopCount, e);
      if IsEnd(Reads(d), Max(32, c.loopEnd), e) {
        assert AtPlace(d, Reads(d)[e]).(loopCount := s.loopCount) == AtPlace(s, Reads(d)[e]);
      }
    }
  }

  // ---- the loop body --------------------------------------------------------------------------

  function Times(body: seq<Place>, k: nat): seq<Place> {
    if k == 0 then [] else body + Times(body, k - 1)
  }

  /** From the loop end: the loop once for each loop that is left, and then the rest. */
  lemma {:induction false} LoopsFromEnd(c: Cursor, f: nat)
    requires Complete(c) && c.AnyValid() && c.offset == Max(32, c.loopEnd) && Located(Plain(c)).offset == c.offset
    requires c.loopCount > 0 ==> Good(Plain(c.(offset := Max(32, c.loopStart))))
    requires c.loopCount > 0 ==>
               var body := Reads(Plain(c.(offset := Max(32, c.loopStart))));
               IsEnd(body, c.offset, f) && body[f].buffer == c.current
    ensures Good(Plain(c))
    ensures c.loopCount == 0 ==> AllReads(c) == Reads(Plain(c))
    ensures c.loopCount > 0 ==>
              AllReads(c) == Times(Reads(Plain(c.(offset := Max(32, c.loopStart))))[..f], c.loopCount) + Reads(Plain(c))
    decreases c.loopCount
  {
    hide Decode, OnFrame, WellFormedBlock, WaitsForRest, FoundAt, Located, Unbroken;
    PlainIsGood(c);
    if c.loopCount == 0 {
      PlainRun(c);
    } else {
      var s := Start(c);
      var d := Plain(s);
      var body := Reads(d);
      assert d == Plain(c.(offset := Max(32, c.loopStart)));
      StartIsGood(c);
      RunToLoopEnd(c, f);
      RunFromPlace(d, f);
      assert AtPlace(d, body[f]) == Plain(c);
      assert body == body[..f] + body[f..];
      if s.loopCount == 0 {
        assert Times(body[..f], 1) == body[..f] + Times(body[..f], 0) == body[..f];
      } else {
        var again := AtPlace(s, body[f]);
        assert again == c.(loopCount := c.loopCount - 1);
        assert Plain(again) == Plain(c);
        LoopsFromEnd(again, f);
        assert body[..f] + (Times(body[..f], s.loopCount) + Reads(Plain(c)))
               == (body[..f] + Times(body[..f], s.loopCount)) + Reads(Plain(c));
      }
    }
  }

  /** A run with loops, by runs without: up to the loop end, then the loop `loopCount` times, then the
      rest. */
  lemma LoopBodyRepeats(c: Cursor, e: nat, f: nat)
    requires Complete(c) && c.AnyValid() && c.offset != Max(32, c.loopEnd) && c.loopCount > 0
    requires Good(Plain(c)) && IsEnd(Reads(Plain(c)), Max(32, c.loopEnd), e) && Reads(Plain(c))[e].buffer == c.current
    requires Good(Plain(c.(offset := Max(32, c.loopStart))))
    requires var body := Reads(Plain(c.(offset := Max(32, c.loopStart))));
             IsEnd(body, Max(32, c.loopEnd), f) && body[f].buffer == c.current
    ensures var run, body := Reads(Plain(c)), Reads(Plain(c.(offset := Max(32, c.loopStart))));
            AllReads(c) == run[..e] + Times(body[..f], c.loopCount) + run[e..]
  {
    hide Decode, OnFrame, WellFormedBlock, WaitsForRest, FoundAt, Located, Unbroken;
    var d := Plain(c);
    var run := Reads(d);
    RunToLoopEnd(c, e);
    RunFromPlace(d, e);
    var at := AtPlace(c, run[e]);
    assert Plain(at) == AtPlace(d, run[e]) && at == c.(offset := Max(32, c.loopEnd));
    assert Complete(at) && at.AnyValid();
    assert Plain(at.(offset := Max(32, c.loopStart))) == Plain(c.(offset := Max(32, c.loopStart)));
    LoopsFromEnd(at, f);
  }

  /** The frames from the one at place `x` on: the rest of its packet, and the route behind it. */
  function RouteFrom(b: Bytes, n: nat, k: nat): seq<nat>
    requires n < Packets(b) && k <= |FramesIn(b, n)|
  {
    FramesIn(b, n)[k..] + Route(b, n + SkipCount(PacketOfBlock(b, n)) + 1)
  }

  /** The loop of a buffer: its start is frame `k` of packet `n`, its end is place `e` of the route through
      the buffer, and place `f` of the route from the loop start. */
  ghost predicate HasLoop(c: Cursor, n: nat, k: nat, e: nat, f: nat) {
    var b, loopStart, loopEnd := c.Current().block, Max(32, c.loopStart), Max(32, c.loopEnd);
    && n < Packets(b) && k < |FramesIn(b, n)|
    && n == loopStart / PACKET_BITS && Max(loopStart, FirstAt(b, n)) == FramesIn(b, n)[k]
    && IsFirstAt(Route(b, 0), loopEnd, e) && IsFirstAt(RouteFrom(b, n, k), loopEnd, f)
  }

  ghost predicate IsFirstAt(offsets: seq<nat>, offset: nat, e: nat) {
    0 < e < |offsets| && offsets[e] == offset && forall i :: 0 < i < e ==> offsets[i] != offset
  }

  function TimesOf(body: seq<nat>, k: nat): seq<nat> {
    if k == 0 then [] else body + TimesOf(body, k - 1)
  }

  /** A looped buffer: the frames of its route up to the loop end, then those from the loop start to the
      loop end once for each loop, then the rest of the route, and then the other buffer. */
  lemma LoopedRoute(c: Cursor, n: nat, k: nat, e: nat, f: nat)
    requires Complete(c) && c.Current().valid && c.offset == 32 != Max(32, c.loopEnd) && c.loopCount > 0
    requires HasLoop(c, n, k, e, f)
    ensures var route := Route(c.Current().block, 0);
            AllReads(c)
            == InBuffer(c.current,
                        route[..e] + TimesOf(RouteFrom(c.Current().block, n, k)[..f], c.loopCount) + route[e..])
               + Later(c)
  {
    hide WellFormedBlock, OnFrame, Unbroken, FirstAt, NewStarts, PacketAt, FramesIn, Route, Reads, AllReads, Decode,
      IsBlock, Later, Good, IsEnd, IsFirstAt, SkipCount;
    var b, route := c.Current().block, Route(c.Current().block, 0);
    var from := RouteFrom(b, n, k);
    BothRuns(c, n, k);
    var run, body := Reads(Plain(c)), Reads(Plain(c.(offset := Max(32, c.loopStart))));
    EndOfRoute(run, c.current, route, Later(c), Max(32, c.loopEnd), e);
    EndOfRoute(body, c.current, from, Later(c), Max(32, c.loopEnd), f);
    LoopBodyRepeats(c, e, f);
    TimesInBuffer(c.current, from[..f], c.loopCount);
    InBufferParts(c.current, route[..e], TimesOf(from[..f], c.loopCount));
    InBufferParts(c.current, route[..e] + TimesOf(from[..f], c.loopCount), route[e..]);
  }

  lemma BothRuns(c: Cursor, n: nat, k: nat)
    requires Complete(c) && c.Current().valid && c.offset == 32 && c.loopCount > 0
    requires var b, loopStart := c.Current().block, Max(32, c.loopStart);
             && n < Packets(b) && k < |FramesIn(b, n)|
             && n == loopStart / PACKET_BITS && Max(loopStart, FirstAt(b, n)) == FramesIn(b, n)[k]
    ensures c.AnyValid() && Good(Plain(c)) && Good(Plain(c.(offset := Max(32, c.loopStart))))
    ensures Reads(Plain(c)) == InBuffer(c.current, Route(c.Current().block, 0)) + Later(c)
    ensures Reads(Plain(c.(offset := Max(32, c.loopStart))))
            == InBuffer(c.current, RouteFrom(c.Current().block, n, k)) + Later(c)
  {
    hide WellFormedBlock, OnFrame, Unbroken, FirstAt, NewStarts, PacketAt, FramesIn, Route, Reads, Decode, IsBlock,
      Later,
      SkipCount, GetPacketNumber;
    PlainIsGood(c);
    EveryFrameOnRoute(Plain(c));
    LaterIsSame(c);
    var d := Plain(c.(offset := Max(32, c.loopStart)));
    StartStaysGood(c);
    LocatedOnFrame(d);
    assert Located(d).offset == FramesIn(c.Current().block, n)[k];
    ReadsRest(d, n, k);
  }

  lemma StartStaysGood(c: Cursor)
    requires Good(c) && c.Current().valid && c.loopCount > 0
    ensures Good(Plain(c.(offset := Max(32, c.loopStart))))
  {
    hide WellFormedBlock, OnFrame;
  }

  lemma LaterIsSame(c: Cursor)
    ensures Later(Plain(c)) == Later(c) == Later(Plain(c.(offset := Max(32, c.loopStart))))
  {
    hide Route, FirstAt, PacketAt;
  }

  lemma EndOfRoute(run: seq<Place>, buffer: nat, route: seq<nat>, later: seq<Place>, loopEnd: nat, e: nat)
    requires run == InBuffer(buffer, route) + later && IsFirstAt(route, loopEnd, e)
    ensures IsEnd(run, loopEnd, e) && run[e].buffer == buffer
    ensures run[..e] == InBuffer(buffer, route[..e]) && run[e..] == InBuffer(buffer, route[e..]) + later
  {
    assert forall i :: 0 <= i < |route| ==> run[i] == Place(buffer, route[i]);
  }

  lemma {:induction false} TimesInBuffer(buffer: nat, body: seq<nat>, k: nat)
    ensures Times(InBuffer(buffer, body), k) == InBuffer(buffer, TimesOf(body, k))
    decreases k
  {
    if k > 0 {
      TimesInBuffer(buffer, body, k - 1);
      InBufferParts(buffer, body, TimesOf(body, k - 1));
    }
  }
}
