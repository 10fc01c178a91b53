/** `RingBuffer` (src/xenia/base/ring_buffer.cc): a queue of bytes in a buffer that its user owns.
    Offsets are kept below the capacity; equal offsets leave the whole capacity for writing. */
module RingBuffers {

  /** An offset that its user gives, brought into the ring. */
  function Inside(offset: nat, capacity: nat): (p: nat)
    requires 0 < capacity
    ensures p < capacity
  {
    offset % capacity
  }

  /** Place `i` behind `offset` in a ring. */
  function Wrap(offset: nat, i: nat, capacity: nat): (p: nat)
    requires offset < capacity && i <= capacity
    ensures p < capacity
  {
    if offset + i < capacity then offset + i else offset + i - capacity
  }

  /** How far place `p` lies behind `offset`. */
  function Distance(p: nat, offset: nat, capacity: nat): (i: nat)
    requires offset < capacity && p < capacity
    ensures i < capacity && Wrap(offset, i, capacity) == p
  {
    if offset <= p then p - offset else p + capacity - offset
  }

  /** Room in a ring; equal offsets leave all of it. */
  function Space(read: nat, write: nat, capacity: nat): (n: nat)
    requires read < capacity && write < capacity
    ensures n <= capacity
  {
    if read == write then capacity else Distance(read, write, capacity)
  }

  lemma WrapTwice(offset: nat, i: nat, j: nat, capacity: nat)
    requires offset < capacity && i < capacity && i + j <= capacity
    ensures Wrap(Wrap(offset, i, capacity), j, capacity) == Wrap(offset, i + j, capacity)
  {
  }

  /** The ring with `src` written from `offset` on. */
  function Overwritten(ring: seq<nat>, offset: nat, src: seq<nat>): (r: seq<nat>)
    requires offset < |ring| && |src| <= |ring|
    ensures |r| == |ring|
    ensures forall i :: 0 <= i < |src| ==> r[Wrap(offset, i, |ring|)] == src[i]
    ensures forall p :: 0 <= p < |ring| && Distance(p, offset, |ring|) >= |src| ==> r[p] == ring[p]
  {
    seq(|ring|, p requires 0 <= p < |ring| =>
      if Distance(p, offset, |ring|) < |src| then src[Distance(p, offset, |ring|)] else ring[p])
  }

  /** Two writes in a row are one write of both. */
  lemma OverwrittenTwice(ring: seq<nat>, offset: nat, a: seq<nat>, b: seq<nat>)
    requires offset < |ring| && |a| + |b| <= |ring| && |a| < |ring|
    ensures Overwritten(Overwritten(ring, offset, a), Wrap(offset, |a|, |ring|), b) == Overwritten(ring, offset, a + b)
  {
    hide Distance, Wrap;
    var n, next := |ring|, Wrap(offset, |a|, |ring|);
    var r, both := Overwritten(Overwritten(ring, offset, a), next, b), Overwritten(ring, offset, a + b);
    forall p | 0 <= p < n
      ensures r[p] == both[p]
    {
      DistanceFromNext(p, offset, |a|, n);
    }
  }

  lemma DistanceFromNext(p: nat, offset: nat, k: nat, n: nat)
    requires p < n && offset < n && k < n
    ensures Distance(p, Wrap(offset, k, n), n)
            == if Distance(p, offset, n) >= k then Distance(p, offset, n) - k else Distance(p, offset, n) + n - k
  {
  }

  class RingBuffer {
    const buffer: array<nat>
    const capacity: nat
    var readOffset: nat
    var writeOffset: nat

    ghost predicate Valid()
      reads this
    {
      0 < capacity == buffer.Length && capacity < 0x8000_0000 && readOffset < capacity && writeOffset < capacity
    }

    constructor (buffer: array<nat>)
      requires 0 < buffer.Length < 0x8000_0000
      ensures Valid() && this.buffer == buffer && readOffset == 0 && writeOffset == 0
    {
      this.buffer, this.capacity, readOffset, writeOffset := buffer, buffer.Length, 0, 0;
    }

    method SetReadOffset(offset: nat)
      requires Valid()
      modifies this
      ensures Valid() && readOffset == Inside(offset, capacity) && writeOffset == old(writeOffset)
    {
      readOffset := Inside(offset, capacity);
    }

    method SetWriteOffset(offset: nat)
      requires Valid() && offset < 0x1_0000_0000
      modifies this
      ensures Valid() && writeOffset == Inside(offset, capacity) && readOffset == old(readOffset)
    {
      writeOffset := Inside(offset, capacity);
    }

    predicate Empty()
      reads this
    {
      readOffset == writeOffset
    }

    /** Bytes that can be read: the way from the read offset to the write offset. */
    function ReadCount(): (n: nat)
      requires Valid()
      reads this
      ensures n == Distance(writeOffset, readOffset, capacity)
    {
      if readOffset <= writeOffset then writeOffset - readOffset else capacity - readOffset + writeOffset
    }

    /** Bytes that can be written: together with the readable ones they make up the capacity. */
    function WriteCount(): (n: nat)
      requires Valid()
      reads this
      ensures n + ReadCount() == capacity && n == Space(readOffset, writeOffset, capacity)
    {
      if readOffset == writeOffset then capacity
      else if writeOffset < readOffset then readOffset - writeOffset
      else capacity - writeOffset + readOffset
    }

    method Write(src: seq<nat>)
      requires Valid() && |src| <= WriteCount()
      modifies this`writeOffset, buffer
      ensures Valid() && writeOffset == Wrap(old(writeOffset), |src|, capacity)
      ensures buffer[..] == Overwritten(old(buffer[..]), old(writeOffset), src)
    {
      var count := |src|;
      if count == 0 {
        return;
      }
      ghost var was, start := buffer[..], writeOffset;
      if writeOffset + count < capacity {
        forall i | 0 <= i < count {
          buffer[writeOffset + i] := src[i];
        }
        writeOffset := writeOffset + count;
      } else {
        var left := capacity - writeOffset;
        var right := count - left;
        forall i | 0 <= i < left {
          buffer[writeOffset + i] := src[i];
        }
        forall i | 0 <= i < right {
          buffer[i] := src[left + i];
        }
        writeOffset := right;
      }
      assert buffer[..] == Overwritten(was, start, src);
    }
  }
}
