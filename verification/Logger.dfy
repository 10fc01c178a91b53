/** The logger (src/xenia/base/logging.cc): any number of threads append lines to the ring, one thread
    writes them out. The steps of all threads may come in any order that the claim strategy and the
    barrier behind it allow. */
module Logger {
  import opened LogRing

  /** A producer in `AppendLine`: it has its place in the sequence of blocks, may write there, or has
      published it. `written` counts its bytes that are in the ring. */
  datatype Phase = Waiting | Granted | Published

  datatype Claim = Claim(first: nat, line: Line, phase: Phase, written: nat) {
    function End(): nat { first + BlocksOf(line) }
  }

  /** The writer thread has read all blocks before `next`, and in the range of `desired` blocks from
      there on the first `read` ones; it has released the blocks before `consumed` to the barrier.
      `outputs` is what it wrote, line by line. */
  datatype State = State(
    ring: seq<nat>, claims: seq<Claim>, next: nat, desired: nat, read: nat, consumed: nat, stopped: bool,
      outputs: seq<seq<nat>>)

  datatype Step =
    | Reserve(line: Line)
    | Grant(i: nat)
    | WriteBytes(i: nat, n: nat)
    | Publish(i: nat)
    | Look(stray: nat)
    | Release

  function Begin(ring: seq<nat>): State {
    State(ring, [], 0, 1, 0, 0, false, [])
  }

  /** The first block behind the first `k` claims. */
  function FirstOf(claims: seq<Claim>, k: nat): nat
    requires k <= |claims|
  {
    if k == 0 then 0 else claims[k - 1].End()
  }

  ghost predicate BlockPublished(claims: seq<Claim>, block: nat) {
    exists i :: 0 <= i < |claims| && claims[i].first <= block < claims[i].End() && claims[i].phase == Published
  }

  function FieldsAt(ring: seq<nat>, sequence: nat): HeaderFields
    requires |ring| == RING_SIZE
  {
    ReadHeader(ring[BlockOffset(sequence)..BlockOffset(sequence) + HEADER_SIZE])
  }

  /** When a step may happen. The claim strategy hands out a place at once and lets the producer write
      when the blocks are not more than a ring ahead of the barrier; the writer thread goes on when
      the blocks that it waits for are published. */
  ghost predicate Enabled(s: State, step: Step) {
    match step
    case Reserve(line) => IsLine(line)
    case Grant(i) => i < |s.claims| && s.claims[i].phase == Waiting && s.claims[i].End() <= s.consumed + BLOCK_COUNT
    case WriteBytes(i, n) =>
      i < |s.claims| && s.claims[i].phase == Granted && s.claims[i].written + n <= |Encoded(s.claims[i].line)|
        && n <= RING_SIZE
    case Publish(i) => i < |s.claims| && s.claims[i].phase == Granted
      && s.claims[i].written == |Encoded(s.claims[i].line)|
    case Look(_) => !s.stopped && forall block :: s.next <= block < s.next + s.desired ==>
      BlockPublished(s.claims, block)
    case Release => !s.stopped
  }

  function Apply(s: State, step: Step): (t: State)
    requires |s.ring| == RING_SIZE && Enabled(s, step)
  {
    match step
    case Reserve(line) => s.(claims := s.claims + [Claim(FirstOf(s.claims, |s.claims|), line, Waiting, 0)])
    case Grant(i) => s.(claims := s.claims[i := s.claims[i].(phase := Granted)])
    case WriteBytes(i, n) =>
      var c := s.claims[i];
      s.(claims := s.claims[i := c.(written := c.written + n)],
         ring := Put(s.ring, BLOCK_SIZE * c.first + c.written, Encoded(c.line)[c.written..c.written + n]))
    case Publish(i) => s.(claims := s.claims[i := s.claims[i].(phase := Published)])
    case Look(stray) => Looked(s, stray)
    case Release => s.(consumed := s.next)
  }

  /** One turn of the inner loop of `WriteThread`: reads the line behind the blocks read so far. When
      the line does not fit into the range, the range ends, and the next one is as long as the line
      unless some line was read. */
  function Looked(s: State, stray: nat): State
    requires |s.ring| == RING_SIZE
  {
    var sequence := s.next + s.read;
    var h := FieldsAt(s.ring, sequence);
    var needed := BlockCount(HEADER_SIZE + h.length);
    if s.read + needed > s.desired then EndRange(s.(desired := needed))
    else
      var t := s.(read := s.read + needed, stopped := h.terminate,
                  outputs := s.outputs + [Written(s.ring, sequence, stray)]);
      if !t.stopped && t.read == t.desired then EndRange(t) else t
  }

  function EndRange(s: State): State {
    if s.read > 0 then s.(next := s.next + s.read, desired := 1, read := 0) else s
  }

  // ---- the invariant ------------------------------------------------------------------------------

  /** Claims follow one another without gaps. */
  ghost predicate Linked(claims: seq<Claim>) {
    forall i {:trigger FirstOf(claims, i)} :: 0 <= i < |claims| ==>
      claims[i].first == FirstOf(claims, i) && IsLine(claims[i].line)
  }

  /** The lines read and released from the range. */
  function Passed(s: State): int {
    |s.outputs| - (if s.stopped then 1 else 0)
  }

  ghost predicate Progress(c: Claim, next: nat) {
    && c.written <= |Encoded(c.line)|
    && (c.phase == Waiting ==> c.written == 0)
    && (c.phase == Published ==> c.written == |Encoded(c.line)|)
    && (c.phase != Waiting ==> c.End() <= next + BLOCK_COUNT && BlocksOf(c.line) <= BLOCK_COUNT)
  }

  /** What the log should say for a claim: the line as it was appended, or, when its text ends where
      the ring ends, that line with or without its newline. */
  predicate Faithful(out: seq<nat>, c: Claim) {
    || out == Rendered(c.line)
    || (EndsAtRingEnd(c.first, c.line)
        && (out == Prefix(c.line.prefix, c.line.thread) + c.line.text
            || out == Prefix(c.line.prefix, c.line.thread) + c.line.text + [NEWLINE]))
  }

  ghost predicate Stored(ring: seq<nat>, c: Claim) {
    c.written <= |Encoded(c.line)| && Holds(ring, BLOCK_SIZE * c.first, Encoded(c.line)[..c.written])
  }

  ghost predicate AllProgress(claims: seq<Claim>, next: nat) {
    forall i :: 0 <= i < |claims| ==> Progress(claims[i], next)
  }

  ghost predicate AllFaithful(outputs: seq<seq<nat>>, claims: seq<Claim>) {
    |outputs| <= |claims| && forall i :: 0 <= i < |outputs| ==>
      claims[i].phase == Published && Faithful(outputs[i], claims[i])
  }

  ghost predicate AllStored(ring: seq<nat>, claims: seq<Claim>, from: int) {
    |ring| == RING_SIZE && 0 <= from && forall i :: from <= i < |claims| ==> Stored(ring, claims[i])
  }

  /** The writer thread waits for one block, or for the blocks of its next line. */
  ghost predicate WellWaiting(claims: seq<Claim>, k: int, desired: nat) {
    desired == 1 || (0 <= k < |claims| && claims[k].phase == Published && desired == BlocksOf(claims[k].line))
  }

  ghost predicate Inv(s: State) {
    && Linked(s.claims) && 0 <= Passed(s) <= |s.claims|
    && s.consumed <= s.next == FirstOf(s.claims, Passed(s))
    && (!s.stopped ==> s.read == 0 && WellWaiting(s.claims, Passed(s), s.desired))
    && AllProgress(s.claims, s.next) && AllFaithful(s.outputs, s.claims) && AllStored(s.ring, s.claims, Passed(s))
  }

  lemma LinkedAt(claims: seq<Claim>, i: nat)
    requires Linked(claims) && i < |claims|
    ensures claims[i].first == FirstOf(claims, i) && claims[i].End() == FirstOf(claims, i + 1) && IsLine(claims[i].line)
    ensures claims[i].first < claims[i].End()
  {
  }

  lemma {:induction false} ClaimsOrdered(claims: seq<Claim>, i: nat, j: nat)
    requires Linked(claims) && i < j <= |claims|
    ensures claims[i].End() <= FirstOf(claims, j)
    decreases j
  {
    hide Linked, FirstOf, Claim.End;
    LinkedAt(claims, i);
    if i < j - 1 {
      ClaimsOrdered(claims, i, j - 1);
      LinkedAt(claims, j - 1);
    }
  }

  /** The claim of the block at which the writer thread stands. */
  lemma NextClaim(claims: seq<Claim>, k: nat)
    requires Linked(claims) && k <= |claims| && BlockPublished(claims, FirstOf(claims, k))
    ensures k < |claims| && claims[k].first == FirstOf(claims, k) && claims[k].phase == Published
            && IsLine(claims[k].line)
  {
    hide Linked, FirstOf, Claim.End;
    var i :| 0 <= i < |claims| && claims[i].first <= FirstOf(claims, k) < claims[i].End()
      && claims[i].phase == Published;
    LinkedAt(claims, i);
    if i < k {
      ClaimsOrdered(claims, i, k);
    } else if k < i {
      ClaimsOrdered(claims, k, i);
      LinkedAt(claims, k);
    }
  }

  lemma BeginInv(ring: seq<nat>)
    requires |ring| == RING_SIZE
    ensures Inv(Begin(ring))
  {
  }

  lemma LinkedMore(claims: seq<Claim>, c: Claim, k: nat)
    requires Linked(claims) && c.first == FirstOf(claims, |claims|) && IsLine(c.line) && k <= |claims|
    ensures Linked(claims + [c]) && FirstOf(claims + [c], k) == FirstOf(claims, k)
  {
    hide IsLine, Claim.End;
    var more := claims + [c];
    forall i | 0 <= i < |more|
      ensures more[i].first == FirstOf(more, i) && IsLine(more[i].line)
    {
      if i < |claims| {
        LinkedAt(claims, i);
      }
      assert i > 0 ==> more[i - 1] == claims[i - 1];
    }
  }

  lemma ReserveKeeps(s: State, line: Line)
    requires Inv(s) && IsLine(line)
    ensures Inv(Apply(s, Reserve(line)))
  {
    hide Linked, FirstOf, Encoded, Faithful, IsLine, Holds;
    LinkedMore(s.claims, Claim(FirstOf(s.claims, |s.claims|), line, Waiting, 0), Passed(s));
    assert Encoded(line)[..0] == [];
    HoldsNothing(s.ring, BLOCK_SIZE * FirstOf(s.claims, |s.claims|), Encoded(line)[..0]);
  }

  lemma HoldsNothing(ring: seq<nat>, a: nat, bytes: seq<nat>)
    requires |ring| == RING_SIZE && bytes == []
    ensures Holds(ring, a, bytes)
  {
  }

  lemma FirstOfSet(claims: seq<Claim>, i: nat, c: Claim, k: nat)
    requires i < |claims| && c.first == claims[i].first && c.line == claims[i].line && k <= |claims|
    ensures FirstOf(claims[i := c], k) == FirstOf(claims, k)
  {
  }

  lemma LinkedSet(claims: seq<Claim>, i: nat, c: Claim, k: nat)
    requires Linked(claims) && i < |claims| && c.first == claims[i].first && c.line == claims[i].line && k <= |claims|
    ensures Linked(claims[i := c]) && FirstOf(claims[i := c], k) == FirstOf(claims, k)
  {
    hide IsLine, FirstOf;
    var set_ := claims[i := c];
    FirstOfSet(claims, i, c, k);
    forall j | 0 <= j < |set_|
      ensures set_[j].first == FirstOf(set_, j) && IsLine(set_[j].line)
    {
      LinkedAt(claims, j);
      FirstOfSet(claims, i, c, j);
    }
  }

  /** A step of one producer that leaves its place and line alone. */
  lemma SetClaim(s: State, i: nat, c: Claim, ring: seq<nat>)
    requires Inv(s) && i < |s.claims| && c.first == s.claims[i].first && c.line == s.claims[i].line
             && s.claims[i].phase != Published
    requires Progress(c, s.next) && AllStored(ring, s.claims[i := c], Passed(s))
    ensures Inv(s.(claims := s.claims[i := c], ring := ring))
  {
    hide Linked, FirstOf, Faithful, IsLine, Stored, Progress, BlocksOf;
    LinkedSet(s.claims, i, c, Passed(s));
  }

  lemma GrantKeeps(s: State, i: nat)
    requires Inv(s) && Enabled(s, Grant(i))
    ensures Inv(Apply(s, Grant(i)))
  {
    hide Linked, FirstOf, Faithful, IsLine, Encoded;
    Placed(s, i);
    SetClaim(s, i, s.claims[i].(phase := Granted), s.ring);
  }

  lemma PublishKeeps(s: State, i: nat)
    requires Inv(s) && Enabled(s, Publish(i))
    ensures Inv(Apply(s, Publish(i)))
  {
    hide Linked, FirstOf, Faithful, IsLine, Encoded;
    SetClaim(s, i, s.claims[i].(phase := Published), s.ring);
  }

  lemma ReleaseKeeps(s: State)
    requires Inv(s) && Enabled(s, Release)
    ensures Inv(Apply(s, Release))
  {
    hide Linked, FirstOf, AllProgress, AllFaithful, AllStored;
  }

  /** Producers with places less than a ring apart do not touch one another's bytes. */
  lemma WriteStores(s: State, i: nat, n: nat)
    requires Inv(s) && Enabled(s, WriteBytes(i, n))
    ensures var t := Apply(s, WriteBytes(i, n)); AllStored(t.ring, t.claims, Passed(s))
  {
    hide Linked, FirstOf, Faithful, AllFaithful, IsLine, Encoded, Put, Holds, Rendered;
    var t, c := Apply(s, WriteBytes(i, n)), s.claims[i];
    WriterIsLate(s, i);
    PutMore(s.ring, BLOCK_SIZE * c.first, Encoded(c.line), c.written, n);
    forall j | Passed(s) <= j < |t.claims|
      ensures Stored(t.ring, t.claims[j])
    {
      if j != i {
        assert Stored(s.ring, s.claims[j]);
        WriteKeepsOther(s, i, n, j);
      }
    }
  }

  lemma WriterIsLate(s: State, i: nat)
    requires Inv(s) && i < |s.claims| && s.claims[i].phase == Granted
    ensures Passed(s) <= i && Stored(s.ring, s.claims[i]) && |Encoded(s.claims[i].line)| <= RING_SIZE
  {
    hide Linked, FirstOf, Faithful, IsLine, Encoded, Stored;
    Placed(s, i);
  }

  /** A place from the writer thread's position on. */
  lemma Placed(s: State, i: nat)
    requires Inv(s) && Passed(s) <= i < |s.claims|
    ensures s.next <= s.claims[i].first
    ensures s.claims[i].phase != Waiting ==>
            BLOCK_SIZE * s.claims[i].End() <= BLOCK_SIZE * s.next + RING_SIZE
              && |Encoded(s.claims[i].line)| <= RING_SIZE
    ensures BLOCK_SIZE * s.claims[i].first + |Encoded(s.claims[i].line)| <= BLOCK_SIZE * s.claims[i].End()
  {
    hide Linked, FirstOf, Faithful, IsLine, Stored;
    LinkedAt(s.claims, i);
    if Passed(s) < i {
      ClaimsOrdered(s.claims, Passed(s), i);
      LinkedAt(s.claims, Passed(s));
    }
    assert Progress(s.claims[i], s.next);
  }

  lemma WriteKeepsOther(s: State, i: nat, n: nat, j: nat)
    requires Inv(s) && Enabled(s, WriteBytes(i, n)) && Passed(s) <= i && Passed(s) <= j < |s.claims| && i != j
    requires Stored(s.ring, s.claims[j])
    ensures Stored(Apply(s, WriteBytes(i, n)).ring, s.claims[j])
  {
    hide Linked, FirstOf, Faithful, IsLine, Encoded, Put, Holds, AllFaithful, AllStored;
    var c, d := s.claims[i], s.claims[j];
    HoldsIsRing(s.ring, BLOCK_SIZE * d.first, Encoded(d.line)[..d.written]);
    Placed(s, i);
    Placed(s, j);
    var a := BLOCK_SIZE * c.first + c.written;
    var bytes := Encoded(c.line)[c.written..c.written + n];
    if d.written == 0 {
      HoldsNothing(Put(s.ring, a, bytes), BLOCK_SIZE * d.first, Encoded(d.line)[..0]);
    } else {
      assert Progress(d, s.next);
      if i < j {
        ClaimsOrdered(s.claims, i, j);
        LinkedAt(s.claims, j);
      } else {
        ClaimsOrdered(s.claims, j, i);
        LinkedAt(s.claims, i);
      }
      PutKeeps(s.ring, a, bytes, BLOCK_SIZE * d.first, Encoded(d.line)[..d.written]);
    }
  }

  lemma WriteKeeps(s: State, i: nat, n: nat)
    requires Inv(s) && Enabled(s, WriteBytes(i, n))
    ensures Inv(Apply(s, WriteBytes(i, n)))
  {
    hide Linked, FirstOf, Faithful, IsLine, Encoded, Put, Holds;
    var t, c := Apply(s, WriteBytes(i, n)), s.claims[i];
    WriteStores(s, i, n);
    assert Progress(c, s.next);
    SetClaim(s, i, c.(written := c.written + n), t.ring);
  }

  /** The writer thread finds a whole line at its position, whatever the producers do meanwhile. */
  lemma LineAtNext(s: State, stray: nat)
    requires Inv(s) && !s.stopped && BlockPublished(s.claims, s.next)
    ensures Passed(s) == |s.outputs| < |s.claims|
    ensures var c := s.claims[|s.outputs|];
            && c.first == s.next && c.phase == Published
            && FieldsAt(s.ring, s.next).length == |c.line.text|
            && FieldsAt(s.ring, s.next).terminate == c.line.terminate
            && Faithful(Written(s.ring, s.next, stray), c)
  {
    hide Linked, FirstOf, IsLine, Holds, Rendered, Prefix, EndsAtRingEnd, Written, AllFaithful;
    NextClaim(s.claims, Passed(s));
    var c := s.claims[Passed(s)];
    Placed(s, Passed(s));
    assert Progress(c, s.next) && Stored(s.ring, c);
    assert Encoded(c.line)[..c.written] == Encoded(c.line);
    ReadsBackExactly(s.ring, s.next, c.line, stray);
    AppendNothing(Prefix(c.line.prefix, c.line.thread) + c.line.text);
  }

  lemma AppendNothing(s: seq<nat>)
    ensures s + [] == s
  {
  }

  lemma LookKeeps(s: State, stray: nat)
    requires Inv(s) && Enabled(s, Look(stray))
    ensures Inv(Apply(s, Look(stray)))
    ensures var t := Apply(s, Look(stray)); s.outputs <= t.outputs && |t.outputs| <= |s.outputs| + 1
  {
    hide Linked, FirstOf, IsLine, Holds, Faithful, Written, FieldsAt, Stored;
    assert s.desired > 0;
    assert BlockPublished(s.claims, s.next);
    LineAtNext(s, stray);
    LinkedAt(s.claims, |s.outputs|);
    ProgressLater(s.claims, s.next, s.next + BlocksOf(s.claims[|s.outputs|].line));
  }

  lemma ProgressLater(claims: seq<Claim>, next: nat, later: nat)
    requires AllProgress(claims, next) && next <= later
    ensures AllProgress(claims, later)
  {
    forall i | 0 <= i < |claims|
      ensures Progress(claims[i], later)
    {
      assert Progress(claims[i], next);
    }
  }

  lemma StepKeeps(s: State, step: Step)
    requires Inv(s) && Enabled(s, step)
    ensures Inv(Apply(s, step))
    ensures s.outputs <= Apply(s, step).outputs && SameLines(s.claims, Apply(s, step).claims)
  {
    hide Inv, Linked, Written, Encoded, Put;
    match step
    case Reserve(line) => ReserveKeeps(s, line);
    case Grant(i) => GrantKeeps(s, i);
    case WriteBytes(i, n) => WriteKeeps(s, i, n);
    case Publish(i) => PublishKeeps(s, i);
    case Look(stray) => LookKeeps(s, stray);
    case Release => ReleaseKeeps(s);
  }

  /** Lines appended so far keep their places. */
  ghost predicate SameLines(claims: seq<Claim>, later: seq<Claim>) {
    |claims| <= |later| && forall i :: 0 <= i < |claims| ==>
      later[i].line == claims[i].line && later[i].first == claims[i].first
  }

  // ---- runs ---------------------------------------------------------------------------------------

  ghost predicate IsRun(states: seq<State>, steps: seq<Step>) {
    && |states| == |steps| + 1 && |states[0].ring| == RING_SIZE && states[0] == Begin(states[0].ring)
    && forall i :: 0 <= i < |steps| ==> IsStep(states[i], steps[i], states[i + 1])
  }

  ghost predicate IsStep(s: State, step: Step, t: State) {
    |s.ring| == RING_SIZE && Enabled(s, step) && t == Apply(s, step)
  }

  lemma {:induction false} RunKeeps(states: seq<State>, steps: seq<Step>, k: nat)
    requires IsRun(states, steps) && k < |states|
    ensures Inv(states[k])
    decreases k
  {
    hide Inv, Enabled, Apply;
    if k == 0 {
      BeginInv(states[0].ring);
    } else {
      RunKeeps(states, steps, k - 1);
      assert IsStep(states[k - 1], steps[k - 1], states[k]);
      StepKeeps(states[k - 1], steps[k - 1]);
    }
  }

  /** In every run the log holds the lines that were claimed first, each once, in the order of their
      claims and byte for byte; the writer thread stands at the beginning of the line that follows. */
  lemma DeliveredInOrder(states: seq<State>, steps: seq<Step>, k: nat, i: nat)
    requires IsRun(states, steps) && k < |states| && i < |states[k].outputs|
    ensures var s := states[k];
            && |s.outputs| <= |s.claims| && Faithful(s.outputs[i], s.claims[i])
            && (!s.stopped ==> s.next == FirstOf(s.claims, |s.outputs|))
  {
    hide Linked, AllProgress, AllStored, Faithful, WellWaiting;
    RunKeeps(states, steps, k);
  }

  /** What was written stays written, and a claim keeps its line. */
  lemma {:induction false} OutputOnlyGrows(states: seq<State>, steps: seq<Step>, j: nat, k: nat)
    requires IsRun(states, steps) && j <= k < |states|
    ensures states[j].outputs <= states[k].outputs && SameLines(states[j].claims, states[k].claims)
    decreases k
  {
    hide Inv, Enabled, Apply;
    if j < k {
      OutputOnlyGrows(states, steps, j, k - 1);
      RunKeeps(states, steps, k - 1);
      assert IsStep(states[k - 1], steps[k - 1], states[k]);
      StepKeeps(states[k - 1], steps[k - 1]);
    }
  }

  /** The step that serves the line at which the writer thread stands. */
  function Serving(s: State): Step
    requires 0 <= Passed(s) < |s.claims| && s.claims[Passed(s)].written <= |Encoded(s.claims[Passed(s)].line)|
  {
    var i := Passed(s);
    var c := s.claims[i];
    match c.phase
    case Published => Look(NEWLINE)
    case Granted => if c.written == |Encoded(c.line)| then Step.Publish(i)
      else WriteBytes(i, |Encoded(c.line)| - c.written)
    case Waiting => if s.consumed < s.next then Release else Grant(i)
  }

  /** The logger gets stuck on a line exactly when it does not fit into the ring: then no producer
      behind it is served either. */
  lemma ServedExactly(s: State)
    requires Inv(s) && !s.stopped && |s.outputs| < |s.claims|
             && s.claims[|s.outputs|].written <= |Encoded(s.claims[|s.outputs|].line)|
    ensures Enabled(s, Serving(s))
            <==> s.claims[|s.outputs|].phase != Waiting || s.consumed < s.next
                 || BlocksOf(s.claims[|s.outputs|].line) <= BLOCK_COUNT
  {
    hide Linked, FirstOf, Faithful, Stored, Encoded, AllStored, AllFaithful;
    var i := |s.outputs|;
    var c := s.claims[i];
    LinkedAt(s.claims, i);
    assert Progress(c, s.next);
    if c.phase == Published {
      forall block | s.next <= block < s.next + s.desired
        ensures BlockPublished(s.claims, block)
      {
        assert c.first <= block < c.End();
      }
    }
    Placed(s, i);
  }

  /** A line that is longer than the ring is never admitted. */
  lemma OversizedNeverGranted(s: State, i: nat)
    requires Inv(s) && i < |s.claims| && BlocksOf(s.claims[i].line) > BLOCK_COUNT
    ensures s.claims[i].phase == Waiting && |s.outputs| <= i && !Enabled(s, Grant(i))
  {
    hide Linked, FirstOf, Faithful, Stored, Encoded, AllStored;
    assert Progress(s.claims[i], s.next);
    LinkedAt(s.claims, i);
    Placed(s, i);
  }

  // ---- the end of the log -------------------------------------------------------------------------

  /** The writer thread stops behind the first line that asks for it, and only there. */
  ghost predicate StopsRight(s: State) {
    && |s.outputs| <= |s.claims| && (s.stopped ==> s.outputs != [])
    && forall i :: 0 <= i < |s.outputs| ==> (s.claims[i].line.terminate <==> s.stopped && i == |s.outputs| - 1)
  }

  lemma StepStopsRight(s: State, step: Step)
    requires Inv(s) && StopsRight(s) && Enabled(s, step)
    ensures StopsRight(Apply(s, step))
  {
    hide Linked, Written, Encoded, Put, FieldsAt, Faithful, AllProgress, AllFaithful, AllStored;
    StepKeeps(s, step);
    if step.Look? {
      assert BlockPublished(s.claims, s.next);
      LineAtNext(s, step.stray);
    }
  }

  /** At every point of every run: the writer thread has stopped exactly when the last line that it wrote
      asked for it, and no line before asked. */
  lemma {:induction false} StopsExactly(states: seq<State>, steps: seq<Step>, k: nat)
    requires IsRun(states, steps) && k < |states|
    ensures StopsRight(states[k])
    decreases k
  {
    hide Inv, Enabled, Apply;
    if k > 0 {
      StopsExactly(states, steps, k - 1);
      RunKeeps(states, steps, k - 1);
      assert IsStep(states[k - 1], steps[k - 1], states[k]);
      StepStopsRight(states[k - 1], steps[k - 1]);
    }
  }

  // ---- every line can be delivered ------------------------------------------------------------------

  /** At most `n` steps lead to a state in which more than `count` lines are written. */
  ghost predicate CanWrite(s: State, count: nat, n: nat)
    decreases n
  {
    |s.outputs| > count
    || (n > 0 && |s.ring| == RING_SIZE && exists step :: Enabled(s, step) && CanWrite(Apply(s, step), count, n - 1))
  }

  /** How many steps serve the next line. */
  ghost function StepsLeft(s: State): nat
    requires |s.outputs| < |s.claims|
  {
    var c := s.claims[|s.outputs|];
    match c.phase
    case Waiting => 5 + if s.consumed < s.next then 1 else 0
    case Granted => 3 + if c.written == |Encoded(c.line)| then 0 else 1
    case Published => if s.desired < BlocksOf(c.line) then 2 else 1
  }

  /** The next line of the log. */
  ghost predicate Fitting(s: State) {
    Inv(s) && !s.stopped && |s.outputs| < |s.claims| && BlocksOf(s.claims[|s.outputs|].line) <= BLOCK_COUNT
  }

  lemma ServingServes(s: State)
    requires Fitting(s)
    ensures Enabled(s, Serving(s))
    ensures var t := Apply(s, Serving(s));
            |t.outputs| > |s.outputs| || (Fitting(t) && |t.outputs| == |s.outputs| && StepsLeft(t) < StepsLeft(s))
  {
    hide Linked, FirstOf, Faithful, Stored, Encoded, AllStored, AllFaithful, FieldsAt, Written, Put;
    var c := s.claims[|s.outputs|];
    assert Progress(c, s.next);
    ServedExactly(s);
    StepKeeps(s, Serving(s));
    if c.phase == Published {
      LineAtNext(s, NEWLINE);
    }
  }

  lemma {:induction false} WrittenIn(s: State, n: nat)
    requires Fitting(s) && StepsLeft(s) <= n
    ensures CanWrite(s, |s.outputs|, n)
    decreases n
  {
    hide Linked, Encoded, AllStored, AllFaithful, AllProgress, Enabled, Apply;
    NextInProgress(s);
    ServingServes(s);
    var t := Apply(s, Serving(s));
    if |t.outputs| == |s.outputs| {
      WrittenIn(t, n - 1);
    }
  }

  lemma NextInProgress(s: State)
    requires Fitting(s)
    ensures Progress(s.claims[|s.outputs|], s.next) && |s.ring| == RING_SIZE
  {
  }

  /** The logger never gets stuck on a line that fits into the ring: from every point of every run, at most
      six steps write the line that is next. */
  lemma EveryLineCanBeWritten(states: seq<State>, steps: seq<Step>, k: nat)
    requires IsRun(states, steps) && k < |states| && !states[k].stopped
    requires var s := states[k];
             |s.outputs| < |s.claims| && HEADER_SIZE + |s.claims[|s.outputs|].line.text| <= RING_SIZE
    ensures CanWrite(states[k], |states[k].outputs|, 6)
  {
    hide Inv, CanWrite;
    RunKeeps(states, steps, k);
    assert Fitting(states[k]);
    WrittenIn(states[k], 6);
  }
}
