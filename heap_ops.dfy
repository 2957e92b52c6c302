/** The four public entry points of memory_allocator.c as functions of the
    abstract heap. The class in memory_allocator.dfy runs the same steps
    in place on a linked list and is proved to agree with these. */
module HeapOps {
  import opened Wrappers
  import opened SizeT
  import opened HeapLayout

  /** The heap after a call, and the pointer the call returned. */
  datatype Step = Step(heap: Heap, ptr: Ptr)

  /** The first-fit hit of `malloc` (memory_allocator.c:50-56): block k is
      marked in use, keeps its recorded size, and its payload is returned. */
  function Reuse(h: Heap, k: nat, c: Config): (r: Step)
    requires WellFormed(h, c) && k < |h.blocks| && h.blocks[k].isFree
    ensures WellFormed(r.heap, c) && r.heap.brk == h.brk && r.heap.mem == h.mem
    ensures r.ptr == Payload(h.blocks[k], c.hdr) && r.ptr != NULL
    ensures SameShape(h.blocks, r.heap.blocks) && !r.heap.blocks[k].isFree
    ensures forall i :: 0 <= i < |h.blocks| && i != k ==> r.heap.blocks[i] == h.blocks[i]
    ensures BlockOf(r.heap.blocks, r.ptr, c.hdr) == Some(k)
  {
    var blocks' := h.blocks[k := h.blocks[k].(isFree := false)];
    ContiguousIgnoresFlags(h.blocks, blocks', c.base, h.brk, c.hdr);
    IndexOfUnique(blocks', c.base, h.brk, c.hdr, k);
    Step(h.(blocks := blocks'), Payload(h.blocks[k], c.hdr))
  }

  /** The growth path of `malloc` (memory_allocator.c:58-81), after `sbrk`
      succeeded: a header {size, in use, next = NULL} at the old break,
      appended as the new tail, with the break raised by header plus size. */
  function Grow(h: Heap, size: nat, c: Config): (r: Step)
    requires WellFormed(h, c) && h.brk + c.hdr + size <= c.limit
    ensures WellFormed(r.heap, c) && r.heap.mem == h.mem
    ensures r.heap.blocks == h.blocks + [Block(h.brk, size, false)]
    ensures r.heap.brk == h.brk + c.hdr + size
    ensures r.ptr == h.brk + c.hdr && r.ptr != NULL
    ensures BlockOf(r.heap.blocks, r.ptr, c.hdr) == Some(|h.blocks|)
  {
    var blocks' := h.blocks + [Block(h.brk, size, false)];
    var brk' := h.brk + c.hdr + size;
    assert Contiguous(blocks', c.base, brk', c.hdr) by {
      if |h.blocks| > 0 {
        forall i | 0 < i < |blocks'|
          ensures blocks'[i].addr == End(blocks'[i - 1], c.hdr)
        {
          if i < |h.blocks| {
            assert blocks'[i] == h.blocks[i] && blocks'[i - 1] == h.blocks[i - 1];
          }
        }
      }
    }
    IndexOfUnique(blocks', c.base, brk', c.hdr, |h.blocks|);
    Step(Heap(blocks', brk', h.mem), h.brk + c.hdr)
  }

  /** Every header of `bs` is still in `bs'` at the same place with the same
      recorded size, and every block in use is still in use. */
  predicate Retains(bs: seq<Block>, bs': seq<Block>)
  {
    && |bs| <= |bs'|
    && forall i :: 0 <= i < |bs| ==>
         bs'[i].addr == bs[i].addr && bs'[i].size == bs[i].size && (!bs[i].isFree ==> !bs'[i].isFree)
  }

  /** `malloc(size)` (memory_allocator.c:38-82): NULL for size 0; else the
      first free block that is large enough; else a new block at the
      break, unless `sbrk` cannot move the break that far. */
  function MallocSpec(h: Heap, size: nat, c: Config): (r: Step)
    requires WellFormed(h, c)
    ensures WellFormed(r.heap, c) && r.heap.mem == h.mem
    ensures r.ptr == NULL <==> r.heap == h
    ensures r.ptr != NULL ==> 0 < size && Owns(r.heap.blocks, r.ptr, size, c.hdr) && r.ptr + size <= r.heap.brk
    ensures Retains(h.blocks, r.heap.blocks)
  {
    Layout(h.blocks, c.base, h.brk, c.hdr);
    if size == 0 then Step(h, NULL)
    else
      match FirstFit(h.blocks, size)
      case Some(k) => Reuse(h, k, c)
      case None =>
        if h.brk + c.hdr + size <= c.limit then Grow(h, size, c) else Step(h, NULL)
  }

  /** The tail-shrink path of `free` (memory_allocator.c:98-114): the last
      header is unlinked and `sbrk` lowers the break by header plus the
      size recorded in the header being freed. */
  function Shrink(h: Heap, k: nat, c: Config): (r: Heap)
    requires WellFormed(h, c) && k < |h.blocks| && End(h.blocks[k], c.hdr) == h.brk
    ensures WellFormed(r, c) && r.mem == h.mem
    ensures k == |h.blocks| - 1
    ensures r.blocks == h.blocks[..k] && r.brk == h.blocks[k].addr
  {
    EndIsBreakIffLast(h.blocks, c.base, h.brk, c.hdr, k);
    Layout(h.blocks, c.base, h.brk, c.hdr);
    var blocks' := h.blocks[..|h.blocks| - 1];
    var r := h.(blocks := blocks', brk := h.brk - h.blocks[k].size - c.hdr);
    assert Contiguous(blocks', c.base, r.brk, c.hdr) by {
      if |blocks'| > 0 {
        assert blocks'[|blocks'| - 1] == h.blocks[k - 1];
      }
    }
    r
  }

  /** The other path of `free` (memory_allocator.c:116): only the flag. */
  function MarkFree(h: Heap, k: nat, c: Config): (r: Heap)
    requires WellFormed(h, c) && k < |h.blocks|
    ensures WellFormed(r, c) && r.brk == h.brk && r.mem == h.mem
    ensures SameShape(h.blocks, r.blocks) && r.blocks[k].isFree
    ensures forall i :: 0 <= i < |h.blocks| && i != k ==> r.blocks[i] == h.blocks[i]
  {
    var blocks' := h.blocks[k := h.blocks[k].(isFree := true)];
    ContiguousIgnoresFlags(h.blocks, blocks', c.base, h.brk, c.hdr);
    h.(blocks := blocks')
  }

  /** `free(p)` (memory_allocator.c:84-118). */
  function FreeSpec(h: Heap, p: Ptr, c: Config): (r: Heap)
    requires WellFormed(h, c)
    requires p == NULL || IsLive(h.blocks, p, c.hdr)
    ensures WellFormed(r, c) && r.mem == h.mem
  {
    if p == NULL then h
    else
      var k := BlockOf(h.blocks, p, c.hdr).value;
      if p + h.blocks[k].size == h.brk then Shrink(h, k, c) else MarkFree(h, k, c)
  }

  /** The effect of `memset(p, 0, n)` on memory. */
  function Zeroed(mem: seq<byte>, p: Ptr, n: nat): (r: seq<byte>)
    requires p + n <= |mem|
    ensures |r| == |mem|
    ensures forall i {:trigger r[i]} :: 0 <= i < |mem| ==> r[i] == if p <= i < p + n then 0 else mem[i]
  {
    mem[..p] + seq(n, _ => 0) + mem[p + n..]
  }

  /** The effect of `memcpy(dst, src, n)` on memory. */
  function Copied(mem: seq<byte>, src: Ptr, dst: Ptr, n: nat): (r: seq<byte>)
    requires src + n <= |mem| && dst + n <= |mem|
    ensures |r| == |mem|
    ensures forall i {:trigger r[i]} :: 0 <= i < |mem| ==> r[i] == if dst <= i < dst + n then mem[src + (i - dst)] else mem[i]
  {
    mem[..dst] + mem[src..src + n] + mem[dst + n..]
  }

  /** After the copy, the n bytes at dst are the n bytes that were at src. */
  lemma CopiedHoldsSource(mem: seq<byte>, src: Ptr, dst: Ptr, n: nat)
    requires src + n <= |mem| && dst + n <= |mem|
    ensures Copied(mem, src, dst, n)[dst..dst + n] == mem[src..src + n]
  {
    var r := Copied(mem, src, dst, n);
    assert r == mem[..dst] + mem[src..src + n] + mem[dst + n..];
  }

  /** `calloc(count, elementSize)` (memory_allocator.c:120-142): NULL when
      `CallocSize` rejects the arguments or `malloc` fails; otherwise the
      `malloc`'d payload with its first count * elementSize bytes zeroed. */
  function CallocSpec(h: Heap, count: SizeT, elementSize: SizeT, c: Config): (r: Step)
    requires WellFormed(h, c)
    ensures WellFormed(r.heap, c)
  {
    match CallocSize(count, elementSize)
    case None => Step(h, NULL)
    case Some(n) =>
      var m := MallocSpec(h, n, c);
      if m.ptr == NULL then m
      else Step(m.heap.(mem := Zeroed(m.heap.mem, m.ptr, n)), m.ptr)
  }

  /** The recorded size of the live block whose payload is `p`. */
  function SizeOf(bs: seq<Block>, p: Ptr, hdr: nat): nat
    requires IsLive(bs, p, hdr)
  {
    bs[BlockOf(bs, p, hdr).value].size
  }

  /** An allocation that keeps every header in place keeps every live
      pointer live, at the same index. */
  lemma LiveStaysLive(bs: seq<Block>, bs': seq<Block>, base: Ptr, brk': nat, hdr: nat, p: Ptr)
    requires hdr > 0 && Contiguous(bs', base, brk', hdr)
    requires Retains(bs, bs') && IsLive(bs, p, hdr)
    ensures IsLive(bs', p, hdr) && BlockOf(bs', p, hdr) == BlockOf(bs, p, hdr)
  {
    IndexOfUnique(bs', base, brk', hdr, BlockOf(bs, p, hdr).value);
  }

  /** A live payload lies below the break. */
  lemma PayloadInside(h: Heap, p: Ptr, c: Config)
    requires WellFormed(h, c) && IsLive(h.blocks, p, c.hdr)
    ensures p + SizeOf(h.blocks, p, c.hdr) <= h.brk
  {
    Layout(h.blocks, c.base, h.brk, c.hdr);
  }

  /** The tail of `realloc`'s growth path (memory_allocator.c:159-162), once
      the new block q exists: copy n bytes from p to q, then free p. */
  function MoveAndFree(h: Heap, p: Ptr, q: Ptr, n: nat, c: Config): (r: Heap)
    requires WellFormed(h, c) && IsLive(h.blocks, p, c.hdr)
    requires p + n <= h.brk && q + n <= h.brk
    ensures WellFormed(r, c)
  {
    FreeSpec(h.(mem := Copied(h.mem, p, q, n)), p, c)
  }

  /** `realloc(p, size)` (memory_allocator.c:144-164): `malloc(size)` for a
      NULL pointer or size 0; the same pointer when the recorded size
      already suffices; otherwise a new block, into which the old recorded
      size of bytes is copied before the old block is freed, or NULL with
      nothing changed when the new allocation fails. */
  function ReallocSpec(h: Heap, p: Ptr, size: nat, c: Config): (r: Step)
    requires WellFormed(h, c)
    requires p == NULL || IsLive(h.blocks, p, c.hdr)
    ensures WellFormed(r.heap, c)
  {
    if p == NULL || size == 0 then MallocSpec(h, size, c)
    else
      var oldSize := SizeOf(h.blocks, p, c.hdr);
      if oldSize >= size then Step(h, p)
      else
        var m := MallocSpec(h, size, c);
        if m.ptr == NULL then m
        else
          PayloadInside(h, p, c);
          LiveStaysLive(h.blocks, m.heap.blocks, c.base, m.heap.brk, c.hdr, p);
          Step(MoveAndFree(m.heap, p, m.ptr, oldSize, c), m.ptr)
  }
}
