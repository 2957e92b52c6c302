/** The heap as the allocator sees it (memory_allocator.c:7-21): an ordered
    list of blocks, each a header immediately followed by its payload, laid
    end to end from the initial program break up to the current one. */
module HeapLayout {
  import opened Wrappers
  import opened SizeT

  /** An address. Address 0 is the C NULL pointer. */
  type Ptr = nat

  const NULL: Ptr := 0

  newtype byte = x: int | 0 <= x < 256

  /** Fixed parameters of one heap:
      hdr   -- sizeof(header_t), kept symbolic;
      base  -- the program break when the allocator starts;
      limit -- the highest address `sbrk` can move the break to. */
  datatype Config = Config(hdr: nat, base: Ptr, limit: nat)

  predicate ConfigOk(c: Config)
  {
    0 < c.hdr < WORD && 0 < c.base <= c.limit < WORD
  }

  /** One header of the list, at address `addr`, with its recorded payload
      size and its `is_free` flag. */
  datatype Block = Block(addr: Ptr, size: nat, isFree: bool)

  /** The abstract heap: the blocks in list order, the program break, and
      the bytes of the address space [0, limit). */
  datatype Heap = Heap(blocks: seq<Block>, brk: nat, mem: seq<byte>)

  /** The pointer handed to callers: one header past the block. */
  function Payload(b: Block, hdr: nat): Ptr
  {
    b.addr + hdr
  }

  /** The address just past the block's payload. */
  function End(b: Block, hdr: nat): nat
  {
    b.addr + hdr + b.size
  }

  /** The contiguity invariant: the first block sits at the initial break,
      each block starts where the previous payload ends, and the last
      payload ends at the current break (an empty list leaves the break
      where it started). */
  ghost predicate Contiguous(bs: seq<Block>, base: Ptr, brk: nat, hdr: nat)
  {
    if |bs| == 0 then brk == base
    else
      && bs[0].addr == base
      && End(bs[|bs| - 1], hdr) == brk
      && forall i :: 0 < i < |bs| ==> bs[i].addr == End(bs[i - 1], hdr)
  }

  ghost predicate WellFormed(h: Heap, c: Config)
  {
    && ConfigOk(c)
    && c.base <= h.brk <= c.limit
    && |h.mem| == c.limit
    && Contiguous(h.blocks, c.base, h.brk, c.hdr)
  }

  lemma {:induction false} EndBeforeLater(bs: seq<Block>, base: Ptr, brk: nat, hdr: nat, i: nat, j: nat)
    requires Contiguous(bs, base, brk, hdr)
    requires i < j < |bs|
    ensures End(bs[i], hdr) <= bs[j].addr
    decreases j - i
  {
    if i + 1 < j {
      EndBeforeLater(bs, base, brk, hdr, i + 1, j);
    }
  }

  /** Blocks never overlap: every block lies whole between the initial and
      the current break, before every block that follows it in the list. */
  lemma Layout(bs: seq<Block>, base: Ptr, brk: nat, hdr: nat)
    requires Contiguous(bs, base, brk, hdr)
    ensures forall i, j :: 0 <= i < j < |bs| ==> End(bs[i], hdr) <= bs[j].addr
    ensures forall i :: 0 <= i < |bs| ==> base <= bs[i].addr && End(bs[i], hdr) <= brk
  {
    forall i, j | 0 <= i < j < |bs|
      ensures End(bs[i], hdr) <= bs[j].addr
    {
      EndBeforeLater(bs, base, brk, hdr, i, j);
    }
    forall i | 0 <= i < |bs|
      ensures base <= bs[i].addr && End(bs[i], hdr) <= brk
    {
      if 0 < i {
        EndBeforeLater(bs, base, brk, hdr, 0, i);
      }
      if i < |bs| - 1 {
        EndBeforeLater(bs, base, brk, hdr, i, |bs| - 1);
      }
    }
  }

  /** The test `free` uses to detect the physically last block
      (memory_allocator.c:98): under contiguity, a block's payload ends at
      the break exactly when it is the tail of the list. */
  lemma EndIsBreakIffLast(bs: seq<Block>, base: Ptr, brk: nat, hdr: nat, k: nat)
    requires hdr > 0 && Contiguous(bs, base, brk, hdr)
    requires k < |bs|
    ensures End(bs[k], hdr) == brk <==> k == |bs| - 1
  {
    if k < |bs| - 1 {
      EndBeforeLater(bs, base, brk, hdr, k, |bs| - 1);
    }
  }

  /** Two lists with the same headers in the same places, flags aside. */
  predicate SameShape(bs: seq<Block>, bs': seq<Block>)
  {
    |bs| == |bs'| && forall i :: 0 <= i < |bs| ==> bs[i].addr == bs'[i].addr && bs[i].size == bs'[i].size
  }

  /** Setting or clearing `is_free` never disturbs the layout. */
  lemma ContiguousIgnoresFlags(bs: seq<Block>, bs': seq<Block>, base: Ptr, brk: nat, hdr: nat)
    requires Contiguous(bs, base, brk, hdr) && SameShape(bs, bs')
    ensures Contiguous(bs', base, brk, hdr)
  {
    if |bs| > 0 {
      forall i | 0 < i < |bs'|
        ensures bs'[i].addr == End(bs'[i - 1], hdr)
      {
        assert bs[i].addr == End(bs[i - 1], hdr);
      }
    }
  }

  /** A block is a first-fit candidate when it is free and large enough
      (memory_allocator.c:29). */
  predicate Fits(b: Block, size: nat)
  {
    b.isFree && b.size >= size
  }

  /** The index of the first block in list order that fits `size`. */
  function FirstFit(bs: seq<Block>, size: nat): (r: Option<nat>)
    ensures r.Some? ==> r.value < |bs| && Fits(bs[r.value], size)
    ensures r.Some? ==> forall j :: 0 <= j < r.value ==> !Fits(bs[j], size)
    ensures r.None? <==> forall j :: 0 <= j < |bs| ==> !Fits(bs[j], size)
  {
    if |bs| == 0 then None
    else if Fits(bs[0], size) then Some(0)
    else
      match FirstFit(bs[1..], size)
      case None => None
      case Some(k) => Some(k + 1)
  }

  /** The first-fit index is determined by its two defining properties. */
  lemma FirstFitIs(bs: seq<Block>, size: nat, k: nat)
    requires k < |bs| && Fits(bs[k], size)
    requires forall j :: 0 <= j < k ==> !Fits(bs[j], size)
    ensures FirstFit(bs, size) == Some(k)
  {
  }

  /** The index of the block whose header is at address `a`. */
  function IndexOf(bs: seq<Block>, a: Ptr): (r: Option<nat>)
    ensures r.Some? ==> r.value < |bs| && bs[r.value].addr == a
    ensures r.None? <==> forall j :: 0 <= j < |bs| ==> bs[j].addr != a
  {
    if |bs| == 0 then None
    else if bs[0].addr == a then Some(0)
    else
      match IndexOf(bs[1..], a)
      case None => None
      case Some(k) => Some(k + 1)
  }

  /** Headers sit at distinct addresses, so the block at an address is
      unique. */
  lemma IndexOfUnique(bs: seq<Block>, base: Ptr, brk: nat, hdr: nat, k: nat)
    requires hdr > 0 && Contiguous(bs, base, brk, hdr)
    requires k < |bs|
    ensures IndexOf(bs, bs[k].addr) == Some(k)
  {
    Layout(bs, base, brk, hdr);
  }

  /** The index of the block whose payload is `p`, recovering the header as
      `p - sizeof(header_t)` (memory_allocator.c:95, 153). */
  function BlockOf(bs: seq<Block>, p: Ptr, hdr: nat): Option<nat>
  {
    if p < hdr then None else IndexOf(bs, p - hdr)
  }

  /** Recovering the header from a payload pointer finds the block whose
      payload starts at p, and finds nothing exactly when no block's does. */
  lemma BlockOfFindsPayload(bs: seq<Block>, p: Ptr, hdr: nat)
    ensures var r := BlockOf(bs, p, hdr);
      && (r.Some? ==> r.value < |bs| && Payload(bs[r.value], hdr) == p)
      && (r.None? <==> forall j :: 0 <= j < |bs| ==> Payload(bs[j], hdr) != p)
  {
  }

  /** `p` was returned by the allocator and has not been released since. */
  predicate IsLive(bs: seq<Block>, p: Ptr, hdr: nat)
  {
    match BlockOf(bs, p, hdr)
    case None => false
    case Some(k) => !bs[k].isFree
  }

  /** `p` is a live payload whose recorded size is at least `n`. */
  predicate Owns(bs: seq<Block>, p: Ptr, n: nat, hdr: nat)
  {
    match BlockOf(bs, p, hdr)
    case None => false
    case Some(k) => !bs[k].isFree && n <= bs[k].size
  }
}
