/** `Arena` (src/xenia/base/arena.cc): blocks of memory one behind the other in a list of chunks. Chunks
    stay in the list when the arena is reset and are used again. */
module Arena {
  import opened Arith
  import opened Words

  const SLACK: nat := 4096

  /** Bytes from an offset to the next multiple of the alignment. */
  function Padding(offset: nat, align: nat): (p: nat)
    requires align > 0
    ensures p < align && (offset + p) % align == 0
  {
    var deviation := offset % align;
    PaddingReaches(offset, align);
    if deviation == 0 then 0 else align - deviation
  }

  /** The first multiple of the alignment from an offset on. */
  function Aligned(offset: nat, align: nat): nat
    requires align > 0
  {
    offset + Padding(offset, align)
  }

  lemma PaddingReaches(offset: nat, align: nat)
    requires align > 0
    ensures offset % align == 0 || (offset + (align - offset % align)) % align == 0
  {
    var q := offset / align;
    assert offset == q * align + offset % align;
    if offset % align != 0 {
      assert offset + (align - offset % align) == (q + 1) * align;
      ModOfMultiple(q + 1, align);
    }
  }

  lemma {:induction false} MaskIsRemainder(x: nat, n: nat)
    ensures Pow2(n) > 0 && And(x, LowMask(n)) == x % Pow2(n)
    decreases n
  {
    Pow2Positive(n);
    if n == 0 {
      assert LowMask(0) == 0;
    } else {
      MaskIsRemainder(x / 2, n - 1);
      assert LowMask(n) / 2 == LowMask(n - 1) && LowMask(n) % 2 == 1;
      HalfRemainder(x, Pow2(n - 1));
    }
  }

  lemma HalfRemainder(x: nat, m: nat)
    requires m > 0
    ensures x % (2 * m) == 2 * (x / 2 % m) + x % 2
  {
    var q, r := x / 2 / m, x / 2 % m;
    assert x / 2 == q * m + r;
    assert x == q * (2 * m) + (2 * r + x % 2);
    DivModUnique(x, 2 * m, q, 2 * r + x % 2);
  }

  /** The mask arithmetic of `Alloc` gives that padding. */
  lemma PaddingByMask(offset: nat, n: nat)
    ensures Pow2(n) > 0 && And(offset, LowMask(n)) <= Pow2(n)
    ensures And(Pow2(n) - And(offset, LowMask(n)), LowMask(n)) == Padding(offset, Pow2(n))
  {
    hide And, LowMask, Pow2;
    Pow2Positive(n);
    MaskIsRemainder(offset, n);
    MaskIsRemainder(Pow2(n) - offset % Pow2(n), n);
    RemainderOfRest(offset % Pow2(n), Pow2(n));
  }

  lemma RemainderOfRest(d: nat, m: nat)
    requires d < m
    ensures (m - d) % m == if d == 0 then 0 else m - d
  {
  }

  class Chunk {
    const capacity: nat
    const buffer: array<nat>
    var next: Chunk?
    var offset: nat

    constructor (chunkSize: nat)
      ensures capacity == chunkSize == buffer.Length && fresh(buffer) && next == null && offset == 0
    {
      capacity := chunkSize;
      buffer := new nat[chunkSize](_ => 0);
      next := null;
      offset := 0;
    }
  }

  /** A block that was handed out: where it lies in the chunk of that number. */
  datatype Block = Block(chunk: nat, start: nat, size: nat)

  predicate Apart(a: Block, b: Block) {
    a.chunk != b.chunk || a.start + a.size <= b.start || b.start + b.size <= a.start
  }

  /** Chunk `i` of the list points to the one behind it. */
  ghost predicate Link(chunks: seq<Chunk>, i: nat)
    requires i < |chunks|
    reads chunks`next
  {
    chunks[i].next == (if i + 1 < |chunks| then chunks[i + 1] else null)
  }

  /** Blocks lie in the used part of their chunk, which is active or before the active one, and no two
      share a byte. */
  ghost predicate BlocksOk(blocks: seq<Block>, offsets: seq<nat>, at: nat) {
    && (forall k :: 0 <= k < |blocks| ==>
        blocks[k].chunk <= at && blocks[k].chunk < |offsets|
          && blocks[k].start + blocks[k].size <= offsets[blocks[k].chunk])
    && (forall j, k :: 0 <= j < k < |blocks| ==> Apart(blocks[j], blocks[k]))
  }

  /** A block behind the used part of the active chunk. */
  lemma BlockAdded(blocks: seq<Block>, offsets: seq<nat>, at: nat, start: nat, size: nat)
    requires BlocksOk(blocks, offsets, at) && at < |offsets| && offsets[at] <= start
    ensures BlocksOk(blocks + [Block(at, start, size)], offsets[at := start + size], at)
  {
  }

  /** The chunk behind the active one holds no block, whatever offset it was left with. */
  lemma ChunkLeft(blocks: seq<Block>, offsets: seq<nat>, at: nat, offsets': seq<nat>)
    requires BlocksOk(blocks, offsets, at) && |offsets| <= |offsets'|
             && forall i :: 0 <= i < |offsets| && i <= at ==> offsets'[i] == offsets[i]
    ensures BlocksOk(blocks, offsets', at + 1)
  {
  }

  ghost function OffsetsOf(chunks: seq<Chunk>): (offsets: seq<nat>)
    reads chunks`offset
    ensures |offsets| == |chunks| && forall i :: 0 <= i < |chunks| ==> offsets[i] == chunks[i].offset
  {
    if chunks == [] then [] else OffsetsOf(chunks[..|chunks| - 1]) + [chunks[|chunks| - 1].offset]
  }

  class Arena {
    const chunkSize: nat
    var head: Chunk?
    var active: Chunk?
    /** The list of chunks, the number of the active one, and the blocks handed out since the last
        reset. */
    ghost var chunks: seq<Chunk>
    ghost var at: nat
    ghost var blocks: seq<Block>

    ghost predicate Linked()
      reads this, chunks`next
    {
      && (forall i {:trigger Link(chunks, i)} :: 0 <= i < |chunks| ==> Link(chunks, i))
      && (forall i :: 0 <= i < |chunks| ==> chunks[i].capacity == chunks[i].buffer.Length == chunkSize)
      && (forall i, j :: 0 <= i < j < |chunks| ==> chunks[i] != chunks[j] && chunks[i].buffer != chunks[j].buffer)
      && head == (if chunks == [] then null else chunks[0])
      && (if chunks == [] then active == null && at == 0 else at < |chunks| && active == chunks[at])
    }

    /** How far each chunk is used; chunks behind the active one keep what they were left with. */
    ghost function Offsets(): (offsets: seq<nat>)
      reads this, chunks`offset
      ensures |offsets| == |chunks| && forall i :: 0 <= i < |chunks| ==> offsets[i] == chunks[i].offset
    {
      OffsetsOf(chunks)
    }

    ghost predicate Valid()
      reads this, chunks
    {
      Linked() && BlocksOk(blocks, Offsets(), at)
        && forall i :: 0 <= i < |chunks| && i <= at ==> Offsets()[i] <= chunkSize
    }

    constructor (chunkSize: nat)
      ensures Valid() && this.chunkSize == chunkSize && chunks == [] && blocks == []
    {
      this.chunkSize, head, active := chunkSize, null, null;
      chunks, at, blocks := [], 0, [];
    }

    /** `Reset`: all blocks are gone, all chunks stay. */
    method Reset()
      requires Valid()
      modifies this`active, this`at, this`blocks, chunks
      ensures Valid() && blocks == [] && at == 0
      ensures Offsets() == if chunks == [] then [] else old(Offsets())[0 := 0]
    {
      active := head;
      if active != null {
        active.offset := 0;
      }
      at, blocks := 0, [];
    }

    /** A chunk used up to `offset` has room for the block, its padding and some slack. */
    predicate Roomy(offset: nat, size: nat, align: nat)
      requires align > 0
    {
      size + Padding(offset, align) + SLACK <= chunkSize - offset
    }

    /** `Alloc`: the new block is aligned and shares no byte with the others, and only the active chunk
        is used further. It lies at the first aligned place behind what is used, or at the start of the
        next chunk when the active one has not enough room, whatever that chunk was left with. The size
        must not be more than a chunk holds. */
    method Alloc(size: nat, align: nat) returns (chunk: Chunk, start: nat)
      requires Valid() && size <= chunkSize && align in {1, 2, 4, 8, 16}
      modifies this`head, this`active, this`chunks, this`at, this`blocks, chunks
      ensures Valid() && Extends(old(chunks), old(at)) && at < |chunks| && chunk == chunks[at]
      ensures blocks == old(blocks) + [Block(at, start, size)] && start % align == 0 && start + size <= chunkSize
      ensures forall i :: 0 <= i < |old(chunks)| && i < at ==> Offsets()[i] == old(Offsets())[i]
      ensures Offsets()[at] == start + size
      ensures at == old(at) <==> old(chunks) == [] || Roomy(old(Offsets())[old(at)], size, align)
      ensures start == if at == old(at) && old(chunks) != [] then Aligned(old(Offsets())[at], align) else 0
    {
      hide BlocksOk, OffsetsOf, Link;
      NextChunk(size, align);
      chunk := active;
      start := Bump(size, align);
    }

    /** The list is as it was, or longer by one new chunk. */
    twostate predicate Extends(was: seq<Chunk>, atWas: nat)
      reads this
    {
      && was <= chunks && |chunks| <= |was| + 1 && atWas <= at <= atWas + 1
      && forall i :: |was| <= i < |chunks| ==> fresh(chunks[i]) && fresh(chunks[i].buffer)
    }

    method Bump(size: nat, align: nat) returns (start: nat)
      requires Valid() && active != null && align > 0
               && Offsets()[at] + Padding(Offsets()[at], align) + size <= chunkSize
      modifies this`blocks, active`offset
      ensures Valid() && start == old(Offsets())[at] + Padding(old(Offsets())[at], align)
      ensures blocks == old(blocks) + [Block(at, start, size)] && Offsets() == old(Offsets())[at := start + size]
    {
      hide BlocksOk;
      BlockAdded(blocks, Offsets(), at, active.offset + Padding(active.offset, align), size);
      var padding := Padding(active.offset, align);
      active.offset := active.offset + padding;
      start := active.offset;
      active.offset := active.offset + size;
      blocks := blocks + [Block(at, start, size)];
      assert Offsets() == old(Offsets())[at := start + size];
    }

    /** Makes room: a chunk that has no room for the block and some slack is left behind for the next
        one in the list, or for a new one. */
    method NextChunk(size: nat, align: nat)
      requires Valid() && size <= chunkSize && align > 0
      modifies this`head, this`active, this`chunks, this`at, chunks
      ensures Valid() && active != null && Extends(old(chunks), old(at))
      ensures Offsets()[at] + Padding(Offsets()[at], align) + size <= chunkSize
      ensures forall i :: 0 <= i < |old(chunks)| && i <= old(at) ==> Offsets()[i] == old(Offsets())[i]
      ensures at == old(at) <==> old(chunks) == [] || Roomy(old(Offsets())[old(at)], size, align)
      ensures at != old(at) || old(chunks) == [] ==> Offsets()[at] == 0
    {
      hide BlocksOk;
      if active == null {
        active := new Chunk(chunkSize);
        head := active;
        chunks := [active];
        assert BlocksOk(blocks, Offsets(), at) by { NoBlocks(blocks, old(Offsets()), at, Offsets()); }
        return;
      }
      if active.capacity - active.offset < size + Padding(active.offset, align) + SLACK {
        GoOn();
      }
    }

    /** A new chunk at the end of the list, behind the active one. */
    method Append() returns (next: Chunk)
      requires Linked() && active != null && at + 1 == |chunks|
      modifies this`chunks, active`next
      ensures Linked() && chunks == old(chunks) + [next] && fresh(next) && fresh(next.buffer)
    {
      ghost var was := chunks;
      next := new Chunk(chunkSize);
      active.next := next;
      chunks := chunks + [next];
      forall i | 0 <= i < |chunks|
        ensures Link(chunks, i)
      {
        assert i < |was| ==> old(Link(was, i));
      }
    }

    /** Leaves the active chunk behind. */
    method GoOn()
      requires Valid() && active != null
      modifies this`active, this`chunks, this`at, chunks
      ensures Valid() && active != null && Extends(old(chunks), old(at)) && at == old(at) + 1 && Offsets()[at] == 0
      ensures forall i :: 0 <= i <= old(at) ==> Offsets()[i] == old(Offsets())[i]
    {
      hide BlocksOk, OffsetsOf;
      assert Link(chunks, at);
      var next := active.next;
      if next == null {
        next := Append();
      }
      next.offset := 0;
      active := next;
      at := at + 1;
      ChunkLeft(blocks, old(Offsets()), old(at), Offsets());
    }

    // ---- copying out --------------------------------------------------------------------------------

    /** The used bytes of each chunk, up to the active one. */
    ghost function Parts(): (parts: seq<seq<nat>>)
      requires Valid()
      reads this, chunks, set c | c in chunks :: c.buffer
      ensures |parts| == if chunks == [] then 0 else at + 1
      ensures forall i :: 0 <= i < |parts| ==> parts[i] == chunks[i].buffer[..chunks[i].offset]
    {
      PartsOf(chunks, if chunks == [] then 0 else at + 1)
    }

    method CalculateSize() returns (total: nat)
      requires Valid()
      ensures total == |Joined(Parts())|
    {
      hide BlocksOk, OffsetsOf, PartsOf;
      ghost var parts := Parts();
      assert parts[0..] == parts;
      total := 0;
      var chunk := head;
      ghost var i := 0;
      while chunk != null
        invariant if chunks == [] then chunk == null else i <= at && chunk == chunks[i]
        invariant i <= |parts| && total + |Joined(parts[i..])| == |Joined(parts)|
        decreases |parts| - i
      {
        FirstPart(parts, i);
        total := total + chunk.offset;
        if chunk == active {
          NoParts(parts[i + 1..]);
          break;
        }
        assert Link(chunks, i);
        chunk := chunk.next;
        i := i + 1;
      }
    }

    /** `CloneContents`: the used parts of all chunks, in order. */
    method CloneContents() returns (result: array<nat>)
      requires Valid()
      ensures fresh(result) && result[..] == Joined(Parts())
    {
      hide BlocksOk, OffsetsOf, Linked, Joined, PartsOf;
      ghost var parts := Parts();
      var total := CalculateSize();
      result := new nat[total](_ => 0);
      assert parts[0..] == parts;
      CopyParts(result, parts);
    }

    method CopyParts(result: array<nat>, ghost parts: seq<seq<nat>>)
      requires Valid() && parts == Parts() && result.Length == |Joined(parts)|
               && forall c :: c in chunks ==> c.buffer != result
      modifies result
      ensures result[..] == Joined(parts)
    {
      hide BlocksOk, OffsetsOf, Joined;
      var p: nat := 0;
      var chunk := head;
      ghost var i := 0;
      assert parts[0..] == parts;
      while chunk != null
        invariant if chunks == [] then chunk == null else i <= at && chunk == chunks[i]
        invariant i <= |parts| && p <= result.Length && result[..p] + Joined(parts[i..]) == Joined(parts)
        decreases |parts| - i
      {
        FirstPart(parts, i);
        var n := CopyChunk(chunk, result, p, Joined(parts[i + 1..]));
        p := p + n;
        if chunk == active {
          NoParts(parts[i + 1..]);
          return;
        }
        assert Link(chunks, i);
        chunk := chunk.next;
        i := i + 1;
      }
      NoParts(parts);
    }
  }

  ghost function PartsOf(chunks: seq<Chunk>, n: nat): (parts: seq<seq<nat>>)
    requires n <= |chunks| && forall i :: 0 <= i < n ==> chunks[i].offset <= chunks[i].buffer.Length
    reads chunks, set c | c in chunks :: c.buffer
    ensures |parts| == n && forall i :: 0 <= i < n ==> parts[i] == chunks[i].buffer[..chunks[i].offset]
  {
    if n == 0 then [] else PartsOf(chunks, n - 1) + [chunks[n - 1].buffer[..chunks[n - 1].offset]]
  }

  function Joined(parts: seq<seq<nat>>): seq<nat> {
    if parts == [] then [] else parts[0] + Joined(parts[1..])
  }

  lemma FirstPart(parts: seq<seq<nat>>, i: nat)
    requires i < |parts|
    ensures Joined(parts[i..]) == parts[i] + Joined(parts[i + 1..])
  {
    assert parts[i..][1..] == parts[i + 1..];
  }

  lemma NoParts(parts: seq<seq<nat>>)
    requires parts == []
    ensures Joined(parts) == []
  {
  }

  lemma NoBlocks(blocks: seq<Block>, offsets: seq<nat>, at: nat, offsets': seq<nat>)
    requires BlocksOk(blocks, offsets, at) && offsets == []
    ensures BlocksOk(blocks, offsets', at)
  {
  }

  method CopyChunk(chunk: Chunk, result: array<nat>, p: nat, ghost rest: seq<nat>) returns (n: nat)
    requires chunk.offset <= chunk.buffer.Length && p + chunk.offset <= result.Length && result != chunk.buffer
    modifies result
    ensures n == chunk.offset && result[..p + n] == old(result[..p]) + chunk.buffer[..n]
    ensures result[..p + n] + rest == old(result[..p]) + (chunk.buffer[..n] + rest)
  {
    n := chunk.offset;
    forall k | 0 <= k < n {
      result[p + k] := chunk.buffer[k];
    }
    assert result[..p + n] == old(result[..p]) + chunk.buffer[..n];
  }
}
