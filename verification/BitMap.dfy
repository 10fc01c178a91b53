/** `BitMap` (src/xenia/base/bit_map.cc): a set bit is a free entry; entries are taken and given back
    with compare-and-swap on 64-bit words. Index 0 of a word is its most significant bit. */
module BitMap {
  import opened Arith
  import opened Words

  const ALL_FREE: nat := 0xFFFF_FFFF_FFFF_FFFF

  datatype Index = Missing | Entry(index: nat)

  predicate FreeAt(data: WordArray, index: nat)
    requires index < WIDTH * |data|
  {
    Bit(data[index / WIDTH], WIDTH - 1 - index % WIDTH)
  }

  /** `later` differs from `data` only in that `index` is no longer free ... */
  ghost predicate Taken(data: WordArray, later: WordArray, index: nat) {
    && |later| == |data| && index < WIDTH * |data| && FreeAt(data, index)
    && forall k :: 0 <= k < WIDTH * |data| ==> (FreeAt(later, k) <==> FreeAt(data, k) && k != index)
  }

  /** ... or in that it is free again. */
  ghost predicate Freed(data: WordArray, later: WordArray, index: nat) {
    && |later| == |data| && index < WIDTH * |data|
    && forall k :: 0 <= k < WIDTH * |data| ==> (FreeAt(later, k) <==> FreeAt(data, k) || k == index)
  }

  // ---- one word -------------------------------------------------------------------------------------

  function TakeBit(entry: nat, index: nat): (r: nat)
    requires IsWord(entry, WIDTH) && index < WIDTH
    ensures IsWord(r, WIDTH)
  {
    Pow2Smaller(WIDTH - index - 1, WIDTH);
    AndBound(entry, Not(Pow2(WIDTH - index - 1), WIDTH));
    And(entry, Not(Pow2(WIDTH - index - 1), WIDTH))
  }

  function GiveBit(entry: nat, index: nat): (r: nat)
    requires IsWord(entry, WIDTH) && index < WIDTH
    ensures IsWord(r, WIDTH)
  {
    Pow2Smaller(WIDTH - index - 1, WIDTH);
    OrBound(entry, Pow2(WIDTH - index - 1), WIDTH);
    Or(entry, Pow2(WIDTH - index - 1))
  }

  lemma WordBits(entry: nat, index: nat, k: nat)
    requires IsWord(entry, WIDTH) && index < WIDTH && k < WIDTH
    ensures Bit(TakeBit(entry, index), k) <==> Bit(entry, k) && k != WIDTH - 1 - index
    ensures Bit(GiveBit(entry, index), k) <==> Bit(entry, k) || k == WIDTH - 1 - index
  {
    hide And, Or, Not, ShiftRight, Pow2;
    var bit := Pow2(WIDTH - index - 1);
    Pow2Smaller(WIDTH - index - 1, WIDTH);
    AndBit(entry, Not(bit, WIDTH), k);
    NotBit(bit, WIDTH, k);
    SingleBit(WIDTH - index - 1, k);
    OrBit(entry, bit, k);
  }

  lemma TakeIsTaken(data: WordArray, slot: nat, index: nat)
    requires AreWords(data) && slot < |data| && index < WIDTH && Bit(data[slot], WIDTH - 1 - index)
    ensures Taken(data, data[slot := TakeBit(data[slot], index)], WIDTH * slot + index)
    ensures AreWords(data[slot := TakeBit(data[slot], index)])
  {
    hide ShiftRight, TakeBit;
    var later := data[slot := TakeBit(data[slot], index)];
    forall k | 0 <= k < WIDTH * |data|
      ensures FreeAt(later, k) <==> FreeAt(data, k) && k != WIDTH * slot + index
    {
      WordBits(data[slot], index, WIDTH - 1 - k % WIDTH);
    }
  }

  lemma GiveIsFreed(data: WordArray, slot: nat, index: nat)
    requires AreWords(data) && slot < |data| && index < WIDTH
    ensures Freed(data, data[slot := GiveBit(data[slot], index)], WIDTH * slot + index)
    ensures AreWords(data[slot := GiveBit(data[slot], index)])
  {
    hide ShiftRight, GiveBit;
    var later := data[slot := GiveBit(data[slot], index)];
    forall k | 0 <= k < WIDTH * |data|
      ensures FreeAt(later, k) <==> FreeAt(data, k) || k == WIDTH * slot + index
    {
      WordBits(data[slot], index, WIDTH - 1 - k % WIDTH);
    }
  }

  /** `lzcnt` finds the lowest free index of a word. */
  lemma LowestInWord(data: WordArray, slot: nat)
    requires AreWords(data) && slot < |data|
    ensures var z := LeadingZeros(data[slot], WIDTH);
            && (forall k :: WIDTH * slot <= k < WIDTH * slot + z ==> k < WIDTH * |data| && !FreeAt(data, k))
            && (z < WIDTH ==> FreeAt(data, WIDTH * slot + z))
  {
    hide ShiftRight, LeadingZeros;
    var z := LeadingZeros(data[slot], WIDTH);
    forall k | WIDTH * slot <= k < WIDTH * slot + z
      ensures k < WIDTH * |data| && !FreeAt(data, k)
    {
      assert k / WIDTH == slot && !Bit(data[slot], WIDTH - 1 - k % WIDTH);
    }
  }

  lemma AllFreeBits(k: nat)
    requires k < WIDTH
    ensures IsWord(ALL_FREE, WIDTH) && Bit(ALL_FREE, k)
  {
    assert LowMask(WIDTH) == ALL_FREE by { PowerOf64(); }
    LowMaskIsWord(WIDTH, WIDTH);
    LowMaskBit(WIDTH, k);
  }

  lemma PowerOf64()
    ensures Pow2(WIDTH) == ALL_FREE + 1
  {
    assert Pow2(8) == 0x100;
    assert Pow2(16) == 0x1_0000;
    assert Pow2(24) == 0x100_0000;
    assert Pow2(32) == 0x1_0000_0000;
    assert Pow2(40) == 0x100_0000_0000;
    assert Pow2(48) == 0x1_0000_0000_0000;
    assert Pow2(56) == 0x100_0000_0000_0000;
  }

  // ---- one thread alone -----------------------------------------------------------------------------

  class Map {
    var data: WordArray

    ghost predicate Valid()
      reads this
    {
      AreWords(data)
    }

    constructor (sizeBits: nat)
      requires sizeBits % WIDTH == 0
      ensures Valid() && WIDTH * |data| == sizeBits && forall k :: 0 <= k < WIDTH * |data| ==> FreeAt(data, k)
    {
      data := [];
      new;
      Resize(sizeBits);
    }

    /** The lowest free index of one word; the loop ends at once when no other thread interferes. */
    method TryAcquireAt(i: nat) returns (r: Index)
      requires Valid() && i < |data|
      modifies this
      ensures Valid()
      ensures r.Missing? ==> data == old(data) && forall k :: WIDTH * i <= k < WIDTH * (i + 1) ==> !FreeAt(data, k)
      ensures r.Entry? ==>
                && WIDTH * i <= r.index < WIDTH * (i + 1) && Taken(old(data), data, r.index)
                && forall k :: WIDTH * i <= k < r.index ==> !FreeAt(old(data), k)
    {
      hide LeadingZeros, ShiftRight, TakeBit, Taken;
      LowestInWord(data, i);
      var entry := data[i];
      var index := LeadingZeros(entry, WIDTH);
      if index == WIDTH {
        return Missing;
      }
      TakeIsTaken(data, i, index);
      data := data[i := TakeBit(entry, index)];
      return Entry(WIDTH * i + index);
    }

    /** Takes the lowest free index; there is none exactly when -1 is returned. */
    method Acquire() returns (r: Index)
      requires Valid()
      modifies this
      ensures Valid()
      ensures r.Missing? ==> data == old(data) && forall k :: 0 <= k < WIDTH * |data| ==> !FreeAt(data, k)
      ensures r.Entry? ==> Taken(old(data), data, r.index) && forall k :: 0 <= k < r.index ==> !FreeAt(old(data), k)
    {
      hide FreeAt;
      var i := 0;
      while i < |data|
        invariant i <= |data| && Valid() && data == old(data)
        invariant forall k :: 0 <= k < WIDTH * i ==> !FreeAt(data, k)
      {
        r := TryAcquireAt(i);
        if r.Entry? {
          return;
        }
        i := i + 1;
      }
      return Missing;
    }

    /** Takes the lowest free index of the last word that has one. */
    method AcquireFromBack() returns (r: Index)
      requires Valid()
      modifies this
      ensures Valid()
      ensures r.Missing? ==> data == old(data) && forall k :: 0 <= k < WIDTH * |data| ==> !FreeAt(data, k)
      ensures r.Entry? ==>
                && Taken(old(data), data, r.index)
                && (forall k :: r.index / WIDTH * WIDTH <= k < r.index ==> !FreeAt(old(data), k))
                && (forall k :: (r.index / WIDTH + 1) * WIDTH <= k < WIDTH * |data| ==> !FreeAt(old(data), k))
    {
      hide FreeAt;
      if |data| == 0 {
        return Missing;
      }
      var i := |data| - 1;
      while i >= 0
        invariant -1 <= i < |data| && Valid() && data == old(data)
        invariant forall k :: WIDTH * (i + 1) <= k < WIDTH * |data| ==> !FreeAt(data, k)
      {
        r := TryAcquireAt(i);
        if r.Entry? {
          return;
        }
        i := i - 1;
      }
      return Missing;
    }

    /** Frees an index that is taken, and no other. */
    method Release(index: nat)
      requires Valid() && index < WIDTH * |data| && !FreeAt(data, index)
      modifies this
      ensures Valid() && Freed(old(data), data, index)
    {
      hide FreeAt, GiveBit, Freed;
      var slot := index / WIDTH;
      var bit := index - slot * WIDTH;
      GiveIsFreed(data, slot, bit);
      data := data[slot := GiveBit(data[slot], bit)];
    }

    /** Keeps the entries that stay; new ones are free. */
    method Resize(newSizeBits: nat)
      requires Valid() && newSizeBits % WIDTH == 0
      modifies this
      ensures Valid() && WIDTH * |data| == newSizeBits
      ensures forall k :: 0 <= k < WIDTH * |data| ==>
                (FreeAt(data, k) <==> if k < WIDTH * |old(data)| then FreeAt(old(data), k) else true)
    {
      hide ShiftRight;
      AllFreeBits(0);
      var oldSize, newSize := |data|, newSizeBits / WIDTH;
      ghost var was := data;
      if newSize <= oldSize {
        data := data[..newSize];
      } else {
        data := data + seq(newSize - oldSize, _ => ALL_FREE);
      }
      forall k | 0 <= k < WIDTH * |data|
        ensures FreeAt(data, k) <==> if k < WIDTH * |was| then FreeAt(was, k) else true
      {
        AllFreeBits(WIDTH - 1 - k % WIDTH);
      }
    }
  }

  // ---- any number of threads ------------------------------------------------------------------------

  /** A thread in `TryAcquireAt` has loaded the word at `slot`, one in `Release` the word of `index`. */
  datatype Phase =
    | Idle
    | Acquiring(slot: nat, entry: nat)
    | Releasing(index: nat, entry: nat)

  datatype Thread = Thread(phase: Phase, held: set<nat>)

  datatype State = State(data: WordArray, threads: seq<Thread>)

  /** The steps of thread `t`. A compare-and-swap that fails loads the word again. */
  datatype Step =
    | Load(t: nat, slot: nat)
    | AcquireSwap(t: nat)
    | Leave(t: nat)
    | LoadForRelease(t: nat, index: nat)
    | ReleaseSwap(t: nat)

  predicate Enabled(s: State, step: Step) {
    && step.t < |s.threads|
    && var thread := s.threads[step.t];
       match step
       case Load(_, slot) => (thread.phase.Idle? || thread.phase.Acquiring?) && slot < |s.data|
       case AcquireSwap(_) => thread.phase.Acquiring? && thread.phase.slot < |s.data| && thread.phase.entry != 0
       case Leave(_) => thread.phase.Acquiring?
       case LoadForRelease(_, index) => (thread.phase.Idle? || thread.phase.Releasing?) && index in thread.held
         && index < WIDTH * |s.data|
       case ReleaseSwap(_) => thread.phase.Releasing? && thread.phase.index < WIDTH * |s.data|
  }

  function Apply(s: State, step: Step): State
    requires AreWords(s.data) && Enabled(s, step)
  {
    var thread := s.threads[step.t];
    match step
    case Load(t, slot) => s.(threads := s.threads[t := thread.(phase := Acquiring(slot, s.data[slot]))])
    case AcquireSwap(t) =>
      var slot, entry := thread.phase.slot, thread.phase.entry;
      if s.data[slot] == entry then
        var index := LeadingZeros(entry, WIDTH);
        State(s.data[slot := TakeBit(entry, index)], s.threads[t := Thread(Idle, thread.held + {WIDTH * slot + index})])
      else s.(threads := s.threads[t := thread.(phase := Acquiring(slot, s.data[slot]))])
    case Leave(t) => s.(threads := s.threads[t := thread.(phase := Idle)])
    case LoadForRelease(t, index) =>
      s.(threads := s.threads[t := thread.(phase := Releasing(index, s.data[index / WIDTH]))])
    case ReleaseSwap(t) =>
      var index, entry := thread.phase.index, thread.phase.entry;
      if s.data[index / WIDTH] == entry then
        State(s.data[index / WIDTH := GiveBit(entry, index % WIDTH)],
              s.threads[t := Thread(Idle, thread.held - {index})])
      else s.(threads := s.threads[t := thread.(phase := Releasing(index, s.data[index / WIDTH]))])
  }

  /** Nobody holds an index that is free, everybody else's index is somebody's, and no index has two
      holders. */
  ghost predicate OneHolder(data: WordArray, threads: seq<Thread>) {
    && (forall t, k {:trigger k in threads[t].held} :: 0 <= t < |threads| && k in threads[t].held ==>
        k < WIDTH * |data| && !FreeAt(data, k))
    && (forall k :: 0 <= k < WIDTH * |data| && !FreeAt(data, k) ==>
        exists t :: 0 <= t < |threads| && k in threads[t].held)
    && (forall t, u, k :: 0 <= t < |threads| && 0 <= u < |threads| && k in threads[t].held && k in threads[u].held ==>
        t == u)
  }

  ghost predicate Inv(s: State) {
    && AreWords(s.data) && OneHolder(s.data, s.threads)
    && forall t :: 0 <= t < |s.threads| && s.threads[t].phase.Releasing? ==>
         s.threads[t].phase.index in s.threads[t].held
  }

  lemma TakenKeeps(s: State, t: nat, later: WordArray, index: nat)
    requires Inv(s) && t < |s.threads| && AreWords(later) && Taken(s.data, later, index)
    ensures Inv(State(later, s.threads[t := Thread(Idle, s.threads[t].held + {index})]))
  {
    hide FreeAt, IsWord;
    var threads := s.threads[t := Thread(Idle, s.threads[t].held + {index})];
    forall k | 0 <= k < WIDTH * |later| && !FreeAt(later, k)
      ensures exists u :: 0 <= u < |threads| && k in threads[u].held
    {
      if k == index {
        assert k in threads[t].held;
      } else {
        var u :| 0 <= u < |s.threads| && k in s.threads[u].held;
        assert k in threads[u].held;
      }
    }
  }

  lemma FreedKeeps(s: State, t: nat, later: WordArray, index: nat)
    requires Inv(s) && t < |s.threads| && index in s.threads[t].held && AreWords(later) && Freed(s.data, later, index)
    ensures Inv(State(later, s.threads[t := Thread(Idle, s.threads[t].held - {index})]))
  {
    hide FreeAt, IsWord;
    var threads := s.threads[t := Thread(Idle, s.threads[t].held - {index})];
    forall k | 0 <= k < WIDTH * |later| && !FreeAt(later, k)
      ensures exists u :: 0 <= u < |threads| && k in threads[u].held
    {
      var u :| 0 <= u < |s.threads| && k in s.threads[u].held;
      assert k in threads[u].held;
    }
  }

  lemma PhaseKeeps(s: State, t: nat, phase: Phase)
    requires Inv(s) && t < |s.threads| && (phase.Releasing? ==> phase.index in s.threads[t].held)
    ensures Inv(s.(threads := s.threads[t := s.threads[t].(phase := phase)]))
  {
    hide FreeAt, IsWord;
    var threads := s.threads[t := s.threads[t].(phase := phase)];
    forall k | 0 <= k < WIDTH * |s.data| && !FreeAt(s.data, k)
      ensures exists u :: 0 <= u < |threads| && k in threads[u].held
    {
      var u :| 0 <= u < |s.threads| && k in s.threads[u].held;
      assert k in threads[u].held;
    }
  }

  /** Every step of every thread keeps one holder for every taken index. */
  lemma StepKeeps(s: State, step: Step)
    requires Inv(s) && Enabled(s, step)
    ensures Inv(Apply(s, step))
  {
    hide FreeAt, IsWord, OneHolder, TakeBit, GiveBit, LeadingZeros, Bit;
    var thread := s.threads[step.t];
    match step
    case Load(t, slot) => PhaseKeeps(s, t, Acquiring(slot, s.data[slot]));
    case AcquireSwap(t) =>
      var slot, entry := thread.phase.slot, thread.phase.entry;
      if s.data[slot] == entry {
        LowestIsSet(entry);
        TakeIsTaken(s.data, slot, LeadingZeros(entry, WIDTH));
        TakenKeeps(s, t, s.data[slot := TakeBit(entry, LeadingZeros(entry, WIDTH))],
                   WIDTH * slot + LeadingZeros(entry, WIDTH));
      } else {
        PhaseKeeps(s, t, Acquiring(slot, s.data[slot]));
      }
    case Leave(t) => PhaseKeeps(s, t, Idle);
    case LoadForRelease(t, index) => PhaseKeeps(s, t, Releasing(index, s.data[index / WIDTH]));
    case ReleaseSwap(t) =>
      var index, entry := thread.phase.index, thread.phase.entry;
      if s.data[index / WIDTH] == entry {
        GiveIsFreed(s.data, index / WIDTH, index % WIDTH);
        assert WIDTH * (index / WIDTH) + index % WIDTH == index;
        FreedKeeps(s, t, s.data[index / WIDTH := GiveBit(entry, index % WIDTH)], index);
      } else {
        PhaseKeeps(s, t, Releasing(index, s.data[index / WIDTH]));
      }
  }

  lemma LowestIsSet(entry: nat)
    requires IsWord(entry, WIDTH) && LeadingZeros(entry, WIDTH) != WIDTH
    ensures LeadingZeros(entry, WIDTH) < WIDTH && Bit(entry, WIDTH - 1 - LeadingZeros(entry, WIDTH))
  {
  }

  /** All entries free, all threads idle. */
  ghost predicate Start(s: State) {
    && AreWords(s.data) && (forall k :: 0 <= k < WIDTH * |s.data| ==> FreeAt(s.data, k))
    && forall t :: 0 <= t < |s.threads| ==> s.threads[t] == Thread(Idle, {})
  }

  ghost predicate IsRun(states: seq<State>, steps: seq<Step>) {
    && |states| == |steps| + 1 && Start(states[0])
    && forall i :: 0 <= i < |steps| ==> IsStep(states[i], steps[i], states[i + 1])
  }

  ghost predicate IsStep(s: State, step: Step, t: State) {
    AreWords(s.data) && Enabled(s, step) && t == Apply(s, step)
  }

  /** However the threads interleave, no index is ever held twice, and what is held and what is free
      is together everything. */
  lemma {:induction false} NeverTwoHolders(states: seq<State>, steps: seq<Step>, i: nat)
    requires IsRun(states, steps) && i < |states|
    ensures Inv(states[i])
    decreases i
  {
    hide Enabled, Apply, FreeAt, IsWord;
    if i > 0 {
      NeverTwoHolders(states, steps, i - 1);
      assert IsStep(states[i - 1], steps[i - 1], states[i]);
      StepKeeps(states[i - 1], steps[i - 1]);
    }
  }
}
