/** memory_allocator.c as it runs: a singly linked list of headers reached
    from `head` and `tail`, updated in place, over a heap grown and shrunk
    through `sbrk`. Each public entry point is proved to have exactly the
    effect of its function in HeapOps. Each public method is one atomic
    step: in the code only `malloc` and `free` hold the process-wide mutex
    for their whole body, while `calloc` and `realloc` call them as
    separate steps without it. */
module MemoryAllocator {
  import opened Wrappers
  import opened SizeT
  import opened HeapLayout
  import opened HeapOps

  /** A header as stored in memory (memory_allocator.c:9-19, padding left
      out); `next` is the address of the next header, NULL for the tail. */
  datatype Header = Header(size: nat, isFree: bool, next: Ptr)

  /** The blocks of the list, read off the headers at the given addresses. */
  function View(order: seq<Ptr>, hdrs: map<Ptr, Header>): (bs: seq<Block>)
    requires forall i :: 0 <= i < |order| ==> order[i] in hdrs
    ensures |bs| == |order|
    ensures forall i :: 0 <= i < |order| ==> bs[i] == Block(order[i], hdrs[order[i]].size, hdrs[order[i]].isFree)
  {
    seq(|order|, i requires 0 <= i < |order| => Block(order[i], hdrs[order[i]].size, hdrs[order[i]].isFree))
  }

  /** `head` and the `next` links walk exactly `order`, ending at `tail`. */
  ghost predicate LinkedList(order: seq<Ptr>, hdrs: map<Ptr, Header>, head: Ptr, tail: Ptr)
  {
    && (forall i :: 0 <= i < |order| ==> order[i] in hdrs)
    && (forall i :: 0 <= i < |order| - 1 ==> hdrs[order[i]].next == order[i + 1])
    && (|order| == 0 ==> head == NULL && tail == NULL)
    && (|order| > 0 ==> head == order[0] && tail == order[|order| - 1] && hdrs[tail].next == NULL)
  }

  ghost predicate Increasing(order: seq<Ptr>)
  {
    forall i, j :: 0 <= i < j < |order| ==> order[i] < order[j]
  }

  /** Contiguous headers are at increasing, hence distinct, addresses. */
  lemma ViewIncreasing(order: seq<Ptr>, hdrs: map<Ptr, Header>, base: Ptr, brk: nat, hdr: nat)
    requires forall i :: 0 <= i < |order| ==> order[i] in hdrs
    requires hdr > 0 && 0 < base && Contiguous(View(order, hdrs), base, brk, hdr)
    ensures Increasing(order)
    ensures forall i :: 0 <= i < |order| ==> 0 < base <= order[i] < brk
  {
    var bs := View(order, hdrs);
    Layout(bs, base, brk, hdr);
    assert forall i :: 0 <= i < |order| ==> bs[i].addr == order[i];
  }

  /** Writing `is_free` into the k-th header changes the k-th block's flag
      and nothing else. */
  lemma SetFlag(order: seq<Ptr>, hdrs: map<Ptr, Header>, head: Ptr, tail: Ptr, k: nat, flag: bool)
    requires LinkedList(order, hdrs, head, tail) && Increasing(order) && k < |order|
    ensures var hdrs' := hdrs[order[k] := hdrs[order[k]].(isFree := flag)];
      && LinkedList(order, hdrs', head, tail)
      && View(order, hdrs') == View(order, hdrs)[k := View(order, hdrs)[k].(isFree := flag)]
  {
    var hdrs' := hdrs[order[k] := hdrs[order[k]].(isFree := flag)];
    assert forall i :: 0 <= i < |order| && i != k ==> order[i] != order[k];
    assert View(order, hdrs') == View(order, hdrs)[k := View(order, hdrs)[k].(isFree := flag)];
  }

  /** The appending half of `malloc` (memory_allocator.c:66-79): a new
      header at an address above every other one, linked after `tail`. */
  lemma Append(order: seq<Ptr>, hdrs: map<Ptr, Header>, head: Ptr, tail: Ptr, a: Ptr, size: nat)
    requires LinkedList(order, hdrs, head, tail) && Increasing(order)
    requires forall i :: 0 <= i < |order| ==> NULL < order[i] < a
    ensures var hdrs1 := hdrs[a := Header(size, false, NULL)];
      var hdrs2 := if tail != NULL then hdrs1[tail := hdrs1[tail].(next := a)] else hdrs1;
      var head' := if head == NULL then a else head;
      && LinkedList(order + [a], hdrs2, head', a)
      && View(order + [a], hdrs2) == View(order, hdrs) + [Block(a, size, false)]
  {
    var hdrs1 := hdrs[a := Header(size, false, NULL)];
    var hdrs2 := if tail != NULL then hdrs1[tail := hdrs1[tail].(next := a)] else hdrs1;
    var order' := order + [a];
    assert forall i :: 0 <= i < |order| ==>
      order'[i] == order[i] && hdrs2[order[i]].size == hdrs[order[i]].size && hdrs2[order[i]].isFree == hdrs[order[i]].isFree;
    assert View(order', hdrs2) == View(order, hdrs) + [Block(a, size, false)];
  }

  /** Unlinking the tail (memory_allocator.c:100-111): with one header the
      list becomes empty; otherwise the next-to-last header's `next` is
      cleared and it becomes the tail. */
  lemma DropLast(order: seq<Ptr>, hdrs: map<Ptr, Header>, head: Ptr, tail: Ptr)
    requires LinkedList(order, hdrs, head, tail) && Increasing(order) && |order| >= 2
    ensures var n := |order|;
      var hdrs' := hdrs[order[n - 2] := hdrs[order[n - 2]].(next := NULL)];
      && LinkedList(order[..n - 1], hdrs', head, order[n - 2])
      && View(order[..n - 1], hdrs') == View(order, hdrs)[..n - 1]
  {
    var n := |order|;
    var hdrs' := hdrs[order[n - 2] := hdrs[order[n - 2]].(next := NULL)];
    var order' := order[..n - 1];
    assert forall i :: 0 <= i < n - 1 ==> order'[i] == order[i];
    assert forall i :: 0 <= i < n - 2 ==> order[i] != order[n - 2];
    assert View(order', hdrs') == View(order, hdrs)[..n - 1];
  }

  /** The class invariant, on the fields' values. */
  ghost predicate ListInvariant(order: seq<Ptr>, hdrs: map<Ptr, Header>, head: Ptr, tail: Ptr, brk: nat, mem: seq<byte>, c: Config)
  {
    LinkedList(order, hdrs, head, tail) && WellFormed(Heap(View(order, hdrs), brk, mem), c)
  }

  /** The first-fit hit of `malloc`, done on the list (memory_allocator.c:53):
      clearing the k-th header's flag is `Reuse`. */
  lemma ReuseOnList(order: seq<Ptr>, hdrs: map<Ptr, Header>, head: Ptr, tail: Ptr, brk: nat, mem: seq<byte>,
                    c: Config, size: nat, k: nat)
    requires LinkedList(order, hdrs, head, tail) && WellFormed(Heap(View(order, hdrs), brk, mem), c)
    requires 0 < size && FirstFit(View(order, hdrs), size) == Some(k)
    ensures var hdrs' := hdrs[order[k] := hdrs[order[k]].(isFree := false)];
      && ListInvariant(order, hdrs', head, tail, brk, mem, c)
      && MallocSpec(Heap(View(order, hdrs), brk, mem), size, c) == Step(Heap(View(order, hdrs'), brk, mem), order[k] + c.hdr)
  {
    ViewIncreasing(order, hdrs, c.base, brk, c.hdr);
    SetFlag(order, hdrs, head, tail, k, false);
    var h := Heap(View(order, hdrs), brk, mem);
    assert MallocSpec(h, size, c) == Reuse(h, k, c);
  }

  class Allocator {
    /** sizeof(header_t), the initial break and the highest break. */
    const cfg: Config
    /** The headers written in memory, by address. Headers cut off by a
        tail shrink stay here, as their bytes stay beyond the break. */
    var hdrs: map<Ptr, Header>
    var head: Ptr
    var tail: Ptr
    /** The program break, as `sbrk(0)` reports it. */
    var brk: nat
    /** The bytes of the address space [0, cfg.limit). */
    var mem: seq<byte>
    /** The addresses of the headers reachable from `head`, in list order. */
    ghost var order: seq<Ptr>

    /** `head` and the `next` links walk exactly `order`, ending at `tail`. */
    ghost predicate Linked()
      reads this
    {
      LinkedList(order, hdrs, head, tail)
    }

    ghost function Abs(): Heap
      reads this
      requires Linked()
    {
      Heap(View(order, hdrs), brk, mem)
    }

    ghost predicate Valid()
      reads this
      ensures Valid() ==> Linked()
    {
      ListInvariant(order, hdrs, head, tail, brk, mem, cfg)
    }

    /** The state before the first call: `head = tail = NULL`, the break at
        its initial value (memory_allocator.c:21). */
    constructor (c: Config, initial: seq<byte>)
      requires ConfigOk(c) && |initial| == c.limit
      ensures Valid() && cfg == c && Abs() == Heap([], c.base, initial)
    {
      cfg := c;
      hdrs := map[];
      head, tail := NULL, NULL;
      brk := c.base;
      mem := initial;
      order := [];
    }

    /** `sbrk(delta)`: moves the break and returns its previous value, or
        fails (None, the C `(void *)-1`) when the break would leave
        [cfg.base, cfg.limit]. No other code moves the break. */
    method Sbrk(delta: int) returns (prev: Option<Ptr>)
      modifies this`brk
      ensures cfg.base <= old(brk) + delta <= cfg.limit ==> prev == Some(old(brk)) && brk == old(brk) + delta
      ensures !(cfg.base <= old(brk) + delta <= cfg.limit) ==> prev == None && brk == old(brk)
    {
      if cfg.base <= brk + delta <= cfg.limit {
        prev := Some(brk);
        brk := brk + delta;
      } else {
        prev := None;
      }
    }

    /** `sbrk(0)`: the current break, which it never moves. */
    method CurrentBreak() returns (b: Ptr)
      ensures b == brk
    {
      b := brk;
    }

    /** `get_free_block(size)` (memory_allocator.c:24-36): walks the list
        from `head` and returns the first free header whose size is at
        least `size`, or NULL. */
    method GetFreeBlock(size: nat) returns (h: Ptr)
      requires Valid()
      ensures FirstFit(Abs().blocks, size).None? ==> h == NULL
      ensures FirstFit(Abs().blocks, size).Some? ==> h == Abs().blocks[FirstFit(Abs().blocks, size).value].addr
    {
      ghost var bs := Abs().blocks;
      ViewIncreasing(order, hdrs, cfg.base, brk, cfg.hdr);
      var current := head;
      ghost var k: nat := 0;
      while current != NULL
        invariant k <= |order|
        invariant current == if k < |order| then order[k] else NULL
        invariant forall j :: 0 <= j < k ==> !Fits(bs[j], size)
        decreases |order| - k
      {
        assert bs[k] == Block(current, hdrs[current].size, hdrs[current].isFree);
        if hdrs[current].isFree && hdrs[current].size >= size {
          FirstFitIs(bs, size, k);
          return current;
        }
        current := hdrs[current].next;
        k := k + 1;
      }
      return NULL;
    }

    /** The header write and linking of `malloc`'s growth path
        (memory_allocator.c:66-79): a header at `a`, above every listed
        one, becomes the new tail. */
    method LinkNewHeader(a: Ptr, size: nat)
      requires Linked() && Increasing(order)
      requires forall i :: 0 <= i < |order| ==> NULL < order[i] < a
      modifies this`hdrs, this`head, this`tail, this`order
      ensures Linked() && order == old(order) + [a]
      ensures View(order, hdrs) == old(View(order, hdrs)) + [Block(a, size, false)]
    {
      Append(order, hdrs, head, tail, a, size);
      hdrs := hdrs[a := Header(size, false, NULL)];
      if head == NULL {
        head := a;
      }
      if tail != NULL {
        hdrs := hdrs[tail := hdrs[tail].(next := a)];
      }
      tail := a;
      order := order + [a];
    }

    /** The growth path of `malloc` (memory_allocator.c:58-81), taken when
        no free block fits: asks `sbrk` for a header and `size` bytes and
        appends the new block to the list, or returns NULL. */
    method GrowHeap(size: SizeT) returns (p: Ptr)
      requires Valid() && 0 < size && FirstFit(Abs().blocks, size).None?
      modifies this`hdrs, this`head, this`tail, this`order, this`brk
      ensures Valid() && Step(Abs(), p) == MallocSpec(old(Abs()), size, cfg)
    {
      ghost var h0 := Abs();
      ViewIncreasing(order, hdrs, cfg.base, brk, cfg.hdr);
      var totalSize := HeaderPlusSize(cfg.hdr, size);
      if totalSize == None {
        return NULL;
      }
      var block := Sbrk(totalSize.value);
      if block == None {
        assert Abs() == h0;
        return NULL;
      }
      var header := block.value;
      LinkNewHeader(header, size);
      assert Abs() == Grow(h0, size, cfg).heap;
      return header + cfg.hdr;
    }

    /** The unlinking in `free`'s shrink path (memory_allocator.c:100-111):
        empties the list when `head == tail`; otherwise walks from `head`
        to the header whose `next` is `tail`, clears that link and makes
        it the tail. */
    method UnlinkTail()
      requires Linked() && Increasing(order) && |order| >= 1
      requires forall i :: 0 <= i < |order| ==> order[i] != NULL
      modifies this`hdrs, this`head, this`tail, this`order
      ensures Linked() && order == old(order)[..|old(order)| - 1]
      ensures View(order, hdrs) == old(View(order, hdrs))[..|old(order)| - 1]
      ensures old(tail) in hdrs && hdrs[old(tail)] == old(hdrs[tail])
    {
      var n := |order|;
      if head == tail {
        head, tail := NULL, NULL;
        order := [];
        return;
      }
      ghost var hdrs0, tail0 := hdrs, tail;
      ghost var hdrs1 := hdrs0[order[n - 2] := hdrs0[order[n - 2]].(next := NULL)];
      DropLast(order, hdrs, head, tail);
      assert order[n - 2] < order[n - 1] == tail0;
      assert tail0 in hdrs1 && hdrs1[tail0] == hdrs0[tail0];
      var tmp := head;
      ghost var i := 0;
      while tmp != NULL
        invariant order == old(order) && head == old(head)
        invariant 0 <= i <= n - 1
        invariant tmp != NULL ==> i <= n - 2 && tmp == order[i] && hdrs == hdrs0 && tail == tail0
        invariant tmp == NULL ==> hdrs == hdrs1 && tail == order[n - 2]
        decreases n - 1 - i
      {
        assert hdrs[tmp].next == order[i + 1] && order[i + 1] <= order[n - 1];
        if hdrs[tmp].next == tail {
          assert i == n - 2;
          hdrs := hdrs[tmp := hdrs[tmp].(next := NULL)];
          tail := tmp;
        }
        tmp := hdrs[tmp].next;
        i := i + 1;
      }
      order := order[..n - 1];
    }

    /** `malloc(size)` (memory_allocator.c:38-82). */
    method Malloc(size: SizeT) returns (p: Ptr)
      requires Valid()
      modifies this
      ensures Valid() && Step(Abs(), p) == MallocSpec(old(Abs()), size, cfg)
    {
      if size == 0 {
        return NULL;
      }
      ghost var h0 := Abs();
      ViewIncreasing(order, hdrs, cfg.base, brk, cfg.hdr);
      var header := GetFreeBlock(size);
      if header != NULL {
        ReuseOnList(order, hdrs, head, tail, brk, mem, cfg, size, FirstFit(Abs().blocks, size).value);
        hdrs := hdrs[header := hdrs[header].(isFree := false)];
        return header + cfg.hdr;
      }
      p := GrowHeap(size);
      return;
    }

    /** The shrink path of `free` (memory_allocator.c:98-114), for the
        header at `header` whose block ends at the break: unlinks it and
        lowers the break by its header and recorded size. */
    method ReleaseTail(header: Ptr, ghost k: nat)
      requires Valid() && k < |order| && header == order[k]
      requires End(Abs().blocks[k], cfg.hdr) == brk
      modifies this`hdrs, this`head, this`tail, this`order, this`brk
      ensures Valid() && Abs() == Shrink(old(Abs()), k, cfg)
    {
      ghost var h0 := Abs();
      EndIsBreakIffLast(h0.blocks, cfg.base, h0.brk, cfg.hdr, k);
      ViewIncreasing(order, hdrs, cfg.base, brk, cfg.hdr);
      UnlinkTail();
      var size := hdrs[header].size;
      var _ := Sbrk(0 - size - cfg.hdr);
      assert Abs() == Shrink(h0, k, cfg);
    }

    /** The other path of `free` (memory_allocator.c:116): sets `is_free`
        in the header at `header`. */
    method MarkHeaderFree(header: Ptr, ghost k: nat)
      requires Valid() && k < |order| && header == order[k]
      modifies this`hdrs
      ensures Valid() && Abs() == MarkFree(old(Abs()), k, cfg)
    {
      ghost var h0 := Abs();
      ViewIncreasing(order, hdrs, cfg.base, brk, cfg.hdr);
      SetFlag(order, hdrs, head, tail, k, true);
      hdrs := hdrs[header := hdrs[header].(isFree := true)];
      assert Abs() == MarkFree(h0, k, cfg);
    }

    /** `free(p)` (memory_allocator.c:84-118): a block whose payload ends at
        the break is unlinked and given back to the system; any other block
        is only marked free. */
    method Free(p: Ptr)
      requires Valid() && (p == NULL || IsLive(Abs().blocks, p, cfg.hdr))
      modifies this`hdrs, this`head, this`tail, this`order, this`brk
      ensures Valid() && Abs() == FreeSpec(old(Abs()), p, cfg)
    {
      if p == NULL {
        return;
      }
      ghost var h0 := Abs();
      ghost var k := BlockOf(h0.blocks, p, cfg.hdr).value;
      ViewIncreasing(order, hdrs, cfg.base, brk, cfg.hdr);
      var header := p - cfg.hdr;
      assert header == order[k];
      var programBreak := CurrentBreak();
      if p + hdrs[header].size == programBreak {
        ReleaseTail(header, k);
        return;
      }
      MarkHeaderFree(header, k);
    }

    /** The effect of `memset(p, 0, n)`: the headers are not touched. */
    method Memset(p: Ptr, n: nat)
      requires Valid() && p + n <= brk
      modifies this`mem
      ensures Valid() && Abs() == old(Abs()).(mem := Zeroed(old(mem), p, n))
    {
      mem := Zeroed(mem, p, n);
    }

    /** The effect of `memcpy(dst, src, n)`: the headers are not touched. */
    method Memcpy(dst: Ptr, src: Ptr, n: nat)
      requires Valid() && src + n <= brk && dst + n <= brk
      modifies this`mem
      ensures Valid() && Abs() == old(Abs()).(mem := Copied(old(mem), src, dst, n))
    {
      mem := Copied(mem, src, dst, n);
    }

    /** `calloc(count, elementSize)` (memory_allocator.c:120-142): the
        product as `size_t` computes it, the division check for wrap-around,
        then `malloc` and `memset` of the payload to zero. */
    method Calloc(count: SizeT, elementSize: SizeT) returns (p: Ptr)
      requires Valid()
      modifies this
      ensures Valid() && Step(Abs(), p) == CallocSpec(old(Abs()), count, elementSize, cfg)
    {
      if count == 0 || elementSize == 0 {
        return NULL;
      }
      var size := MulWrap(count, elementSize);
      DivisionDetectsOverflow(count, elementSize);
      if elementSize != size / count {
        return NULL;
      }
      p := Malloc(size);
      if p == NULL {
        return;
      }
      Memset(p, size);
    }

    /** `realloc(p, size)` (memory_allocator.c:144-164). The recorded size
        is read before `malloc`, which leaves every existing header as it
        was. */
    method Realloc(p: Ptr, size: SizeT) returns (q: Ptr)
      requires Valid() && (p == NULL || IsLive(Abs().blocks, p, cfg.hdr))
      modifies this
      ensures Valid() && Step(Abs(), q) == ReallocSpec(old(Abs()), p, size, cfg)
    {
      if p == NULL || size == 0 {
        q := Malloc(size);
        return;
      }
      ghost var h0 := Abs();
      ghost var k := BlockOf(h0.blocks, p, cfg.hdr).value;
      var header := p - cfg.hdr;
      assert header == order[k];
      var oldSize := hdrs[header].size;
      if oldSize >= size {
        return p;
      }
      q := Malloc(size);
      if q != NULL {
        ghost var m := MallocSpec(h0, size, cfg);
        PayloadInside(h0, p, cfg);
        LiveStaysLive(h0.blocks, m.heap.blocks, cfg.base, m.heap.brk, cfg.hdr, p);
        Memcpy(q, p, oldSize);
        Free(p);
      }
    }
  }
}
