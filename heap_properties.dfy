/** What the four entry points of memory_allocator.c promise their callers,
    proved of the functions in HeapOps: the two paths of `malloc` and of
    `free`, that live payloads never overlap, that `free` undoes the
    growth of `malloc` and `malloc` re-finds what `free` marked, the
    zero-fill of `calloc`, every path of `realloc`, and two
    end-to-end call sequences. */
module HeapProperties {
  import opened Wrappers
  import opened SizeT
  import opened HeapLayout
  import opened HeapOps

  /** A hit of the first-fit search: the first fitting block is handed out
      whole, with only its flag cleared, and the break does not move. */
  lemma MallocHit(h: Heap, size: nat, k: nat, c: Config)
    requires WellFormed(h, c) && 0 < size && FirstFit(h.blocks, size) == Some(k)
    ensures var r := MallocSpec(h, size, c);
      && r.ptr == h.blocks[k].addr + c.hdr
      && r.heap == h.(blocks := h.blocks[k := h.blocks[k].(isFree := false)])
  {
    var r := Reuse(h, k, c);
    assert r.heap.blocks == h.blocks[k := h.blocks[k].(isFree := false)];
  }

  /** A miss: the heap grows by a header plus `size` bytes and the new block
      is appended in use, or, when the break cannot move that far, nothing
      changes and the result is NULL. */
  lemma MallocMiss(h: Heap, size: nat, c: Config)
    requires WellFormed(h, c) && 0 < size && FirstFit(h.blocks, size).None?
    ensures var r := MallocSpec(h, size, c);
      if h.brk + c.hdr + size <= c.limit then
        && r.ptr == h.brk + c.hdr
        && r.heap == Heap(h.blocks + [Block(h.brk, size, false)], h.brk + c.hdr + size, h.mem)
      else
        r == Step(h, NULL)
  {
    if h.brk + c.hdr + size <= c.limit {
      var r := Grow(h, size, c);
      assert r.heap == Heap(h.blocks + [Block(h.brk, size, false)], h.brk + c.hdr + size, h.mem);
    }
  }

  /** `malloc` never hands out a payload that is already live. */
  lemma MallocFresh(h: Heap, size: nat, c: Config)
    requires WellFormed(h, c)
    ensures var r := MallocSpec(h, size, c);
      r.ptr != NULL ==> !IsLive(h.blocks, r.ptr, c.hdr)
  {
    Layout(h.blocks, c.base, h.brk, c.hdr);
    if size > 0 {
      match FirstFit(h.blocks, size)
      case Some(k) =>
        MallocHit(h, size, k, c);
        IndexOfUnique(h.blocks, c.base, h.brk, c.hdr, k);
      case None =>
        MallocMiss(h, size, c);
    }
  }

  /** The two paths of `free`: the payload of a live block ends at the break
      exactly when the block is the last one; that block is then dropped
      and the break lowered by its header and size, and any other block
      only has its flag set. */
  lemma FreeCases(h: Heap, p: Ptr, c: Config)
    requires WellFormed(h, c) && IsLive(h.blocks, p, c.hdr)
    ensures var k := BlockOf(h.blocks, p, c.hdr).value;
      var r := FreeSpec(h, p, c);
      && (p + h.blocks[k].size == h.brk <==> k == |h.blocks| - 1)
      && (k == |h.blocks| - 1 ==> r == Heap(h.blocks[..k], h.brk - c.hdr - h.blocks[k].size, h.mem))
      && (k < |h.blocks| - 1 ==> r == h.(blocks := h.blocks[k := h.blocks[k].(isFree := true)]))
  {
    var k := BlockOf(h.blocks, p, c.hdr).value;
    EndIsBreakIffLast(h.blocks, c.base, h.brk, c.hdr, k);
  }

  /** `free(NULL)` returns at once and changes nothing. */
  lemma FreeNull(h: Heap, c: Config)
    requires WellFormed(h, c)
    ensures FreeSpec(h, NULL, c) == h
  {
  }

  /** The block dropped by the shrink path of `free` can no longer be
      found by its header address. */
  lemma ShrinkForgets(h: Heap, k: nat, c: Config)
    requires WellFormed(h, c) && k < |h.blocks| && End(h.blocks[k], c.hdr) == h.brk
    ensures IndexOf(Shrink(h, k, c).blocks, h.blocks[k].addr).None?
  {
    var r := Shrink(h, k, c);
    forall j | 0 <= j < |r.blocks|
      ensures r.blocks[j].addr != h.blocks[k].addr
    {
      EndBeforeLater(h.blocks, c.base, h.brk, c.hdr, j, k);
    }
  }

  /** After `free(p)`, p is no longer live. */
  lemma FreeUnlinks(h: Heap, p: Ptr, c: Config)
    requires WellFormed(h, c) && IsLive(h.blocks, p, c.hdr)
    ensures !IsLive(FreeSpec(h, p, c).blocks, p, c.hdr)
  {
    var k := BlockOf(h.blocks, p, c.hdr).value;
    if p + h.blocks[k].size == h.brk {
      ShrinkForgets(h, k, c);
    } else {
      var r := MarkFree(h, k, c);
      IndexOfUnique(r.blocks, c.base, r.brk, c.hdr, k);
    }
  }

  /** `free(p)` keeps every other block at its index, and findable there
      by its header address. */
  lemma FreeKeepsBlock(h: Heap, p: Ptr, j: nat, c: Config)
    requires WellFormed(h, c) && IsLive(h.blocks, p, c.hdr)
    requires j < |h.blocks| && j != BlockOf(h.blocks, p, c.hdr).value
    ensures var r := FreeSpec(h, p, c);
      j < |r.blocks| && r.blocks[j] == h.blocks[j] && IndexOf(r.blocks, h.blocks[j].addr) == Some(j)
  {
    var k := BlockOf(h.blocks, p, c.hdr).value;
    if p + h.blocks[k].size == h.brk {
      EndIsBreakIffLast(h.blocks, c.base, h.brk, c.hdr, k);
      var r := Shrink(h, k, c);
      IndexOfUnique(r.blocks, c.base, r.brk, c.hdr, j);
    } else {
      var r := MarkFree(h, k, c);
      IndexOfUnique(r.blocks, c.base, r.brk, c.hdr, j);
    }
  }

  /** `free(p)` leaves every other live payload live, with the same
      recorded size. */
  lemma FreeKeeps(h: Heap, p: Ptr, q: Ptr, c: Config)
    requires WellFormed(h, c) && IsLive(h.blocks, p, c.hdr) && IsLive(h.blocks, q, c.hdr) && q != p
    ensures var r := FreeSpec(h, p, c);
      IsLive(r.blocks, q, c.hdr) && SizeOf(r.blocks, q, c.hdr) == SizeOf(h.blocks, q, c.hdr)
  {
    FreeKeepsBlock(h, p, BlockOf(h.blocks, q, c.hdr).value, c);
  }

  /** Two different live payloads, each with the header before it, do not
      overlap: one ends at or before the other's header. */
  lemma LiveDisjoint(h: Heap, p: Ptr, q: Ptr, c: Config)
    requires WellFormed(h, c) && IsLive(h.blocks, p, c.hdr) && IsLive(h.blocks, q, c.hdr) && p != q
    ensures p + SizeOf(h.blocks, p, c.hdr) <= q - c.hdr || q + SizeOf(h.blocks, q, c.hdr) <= p - c.hdr
  {
    Layout(h.blocks, c.base, h.brk, c.hdr);
  }

  /** Growing the heap and freeing the new block right away gives back the
      heap as it was: the block is the last one, so `free` drops it and
      lowers the break by what `malloc` raised it. */
  lemma GrowThenFreeRestores(h: Heap, size: nat, c: Config)
    requires WellFormed(h, c) && 0 < size && FirstFit(h.blocks, size).None?
    requires h.brk + c.hdr + size <= c.limit
    ensures var m := MallocSpec(h, size, c);
      m.ptr != NULL && FreeSpec(m.heap, m.ptr, c) == h
  {
    MallocMiss(h, size, c);
    var m := MallocSpec(h, size, c);
    FreeCases(m.heap, m.ptr, c);
    assert m.heap.blocks[..|h.blocks|] == h.blocks;
  }

  /** Freeing a block that is not the last one and then asking for no more
      than its size, with no earlier block fitting, hands the same payload
      back and restores the heap exactly. */
  lemma FreeThenMallocReuses(h: Heap, p: Ptr, size: nat, c: Config)
    requires WellFormed(h, c) && IsLive(h.blocks, p, c.hdr)
    requires p + SizeOf(h.blocks, p, c.hdr) != h.brk
    requires 0 < size <= SizeOf(h.blocks, p, c.hdr)
    requires forall j :: 0 <= j < BlockOf(h.blocks, p, c.hdr).value ==> !Fits(h.blocks[j], size)
    ensures MallocSpec(FreeSpec(h, p, c), size, c) == Step(h, p)
  {
    var k := BlockOf(h.blocks, p, c.hdr).value;
    FreeCases(h, p, c);
    var f := FreeSpec(h, p, c);
    FirstFitIs(f.blocks, size, k);
    MallocHit(f, size, k, c);
    assert f.blocks[k := f.blocks[k].(isFree := false)] == h.blocks;
  }

  /** `calloc`: NULL with nothing changed on a zero argument or on a
      product that does not fit in `size_t`; otherwise exactly the pointer
      and the list that `malloc(count * elementSize)` gives, so NULL only
      when that `malloc` fails, and a non-NULL payload of at least
      count * elementSize bytes, all zero, with every byte outside it as it
      was. */
  lemma CallocResult(h: Heap, count: SizeT, elementSize: SizeT, c: Config)
    requires WellFormed(h, c)
    ensures var r := CallocSpec(h, count, elementSize, c);
      var n := count * elementSize;
      && (r.ptr == NULL ==> r.heap == h)
      && (count == 0 || elementSize == 0 || n >= WORD ==> r.ptr == NULL)
      && (count > 0 && elementSize > 0 && n < WORD ==>
            var m := MallocSpec(h, n, c);
            r.ptr == m.ptr && r.heap.blocks == m.heap.blocks && r.heap.brk == m.heap.brk)
      && (r.ptr != NULL ==>
            && Owns(r.heap.blocks, r.ptr, n, c.hdr) && r.ptr + n <= r.heap.brk
            && |r.heap.mem| == |h.mem|
            && (forall i :: r.ptr <= i < r.ptr + n ==> r.heap.mem[i] == 0)
            && (forall i :: 0 <= i < |h.mem| && !(r.ptr <= i < r.ptr + n) ==> r.heap.mem[i] == h.mem[i]))
  {
    var r := CallocSpec(h, count, elementSize, c);
    if CallocSize(count, elementSize).Some? {
      var m := MallocSpec(h, count * elementSize, c);
      if m.ptr != NULL {
        assert r.heap.blocks == m.heap.blocks && r.heap.brk == m.heap.brk;
      }
    }
  }

  /** `realloc(NULL, size)` is `malloc(size)`, and `realloc(p, 0)` is
      `malloc(0)`: it returns NULL, and unlike C's `realloc` it does not
      free p, which stays live. */
  lemma ReallocNullOrZero(h: Heap, p: Ptr, size: nat, c: Config)
    requires WellFormed(h, c) && (p == NULL || IsLive(h.blocks, p, c.hdr))
    ensures p == NULL ==> ReallocSpec(h, p, size, c) == MallocSpec(h, size, c)
    ensures ReallocSpec(h, p, 0, c) == Step(h, NULL)
    ensures p != NULL ==> IsLive(ReallocSpec(h, p, 0, c).heap.blocks, p, c.hdr)
  {
  }

  /** `realloc(p, size)` with a size the block already holds: p itself,
      with nothing changed (no shrinking). */
  lemma ReallocKeeps(h: Heap, p: Ptr, size: nat, c: Config)
    requires WellFormed(h, c) && IsLive(h.blocks, p, c.hdr)
    requires 0 < size <= SizeOf(h.blocks, p, c.hdr)
    ensures ReallocSpec(h, p, size, c) == Step(h, p)
  {
    assert p != NULL by {
      assert p >= c.hdr;
    }
  }

  /** The end of `realloc`'s move (memory_allocator.c:160-161): after
      copying n bytes from p to a different live payload q and freeing p,
      q is still live with its size and holds the n bytes, and p is not
      live. */
  lemma MoveAndFreeResult(h: Heap, p: Ptr, q: Ptr, n: nat, c: Config)
    requires WellFormed(h, c) && IsLive(h.blocks, p, c.hdr) && IsLive(h.blocks, q, c.hdr) && p != q
    requires p + n <= h.brk && q + n <= h.brk
    ensures var r := MoveAndFree(h, p, q, n, c);
      && !IsLive(r.blocks, p, c.hdr)
      && IsLive(r.blocks, q, c.hdr) && SizeOf(r.blocks, q, c.hdr) == SizeOf(h.blocks, q, c.hdr)
      && q + SizeOf(h.blocks, q, c.hdr) <= r.brk <= |r.mem|
      && r.mem[q..q + n] == h.mem[p..p + n]
  {
    var moved := h.(mem := Copied(h.mem, p, q, n));
    FreeUnlinks(moved, p, c);
    FreeKeeps(moved, p, q, c);
    PayloadInside(FreeSpec(moved, p, c), q, c);
    assert moved.mem[q..q + n] == h.mem[p..p + n];
  }

  /** `realloc(p, size)` that needs a bigger block when `malloc(size)`
      fails: NULL, with the heap, and so p, untouched. */
  lemma ReallocFails(h: Heap, p: Ptr, size: nat, c: Config)
    requires WellFormed(h, c) && IsLive(h.blocks, p, c.hdr)
    requires SizeOf(h.blocks, p, c.hdr) < size && MallocSpec(h, size, c).ptr == NULL
    ensures ReallocSpec(h, p, size, c) == Step(h, NULL)
  {
    assert p != NULL by {
      assert p >= c.hdr;
    }
  }

  /** `realloc(p, size)` that needs a bigger block when `malloc(size)`
      succeeds: the new payload, different from p, of at least `size`
      bytes, with p no longer live (`ReallocMovesBytes` gives the bytes). */
  lemma ReallocMoves(h: Heap, p: Ptr, size: nat, c: Config)
    requires WellFormed(h, c) && IsLive(h.blocks, p, c.hdr)
    requires SizeOf(h.blocks, p, c.hdr) < size && MallocSpec(h, size, c).ptr != NULL
    ensures var r := ReallocSpec(h, p, size, c);
      var n := SizeOf(h.blocks, p, c.hdr);
      && r.ptr == MallocSpec(h, size, c).ptr && r.ptr != p
      && Owns(r.heap.blocks, r.ptr, size, c.hdr) && !IsLive(r.heap.blocks, p, c.hdr)
      && r.ptr + size <= r.heap.brk && p + n <= h.brk
  {
    assert p != NULL by {
      assert p >= c.hdr;
    }
    var n := SizeOf(h.blocks, p, c.hdr);
    var m := MallocSpec(h, size, c);
    MallocFresh(h, size, c);
    PayloadInside(h, p, c);
    LiveStaysLive(h.blocks, m.heap.blocks, c.base, m.heap.brk, c.hdr, p);
    PayloadInside(m.heap, m.ptr, c);
    MoveAndFreeResult(m.heap, p, m.ptr, n, c);
  }

  /** When `realloc` moves the block, its memory is the old memory with the
      old block's recorded size of bytes copied to the new payload. */
  lemma ReallocMovedMem(h: Heap, p: Ptr, size: nat, c: Config)
    requires WellFormed(h, c) && IsLive(h.blocks, p, c.hdr)
    requires SizeOf(h.blocks, p, c.hdr) < size && MallocSpec(h, size, c).ptr != NULL
    ensures var r := ReallocSpec(h, p, size, c);
      var n := SizeOf(h.blocks, p, c.hdr);
      && p + n <= |h.mem| && r.ptr + n <= |h.mem|
      && r.heap.mem == Copied(h.mem, p, r.ptr, n)
  {
    assert p != NULL by {
      assert p >= c.hdr;
    }
    var n := SizeOf(h.blocks, p, c.hdr);
    var m := MallocSpec(h, size, c);
    PayloadInside(h, p, c);
    LiveStaysLive(h.blocks, m.heap.blocks, c.base, m.heap.brk, c.hdr, p);
    PayloadInside(m.heap, m.ptr, c);
  }

  /** When `realloc` moves the block, the new payload starts with the old
      block's recorded size n of bytes, and every byte outside those n is
      as it was, the old payload's bytes included. */
  lemma ReallocMovesBytes(h: Heap, p: Ptr, size: nat, c: Config)
    requires WellFormed(h, c) && IsLive(h.blocks, p, c.hdr)
    requires SizeOf(h.blocks, p, c.hdr) < size && MallocSpec(h, size, c).ptr != NULL
    ensures var r := ReallocSpec(h, p, size, c);
      var n := SizeOf(h.blocks, p, c.hdr);
      && |r.heap.mem| == |h.mem| && p + n <= |h.mem| && r.ptr + n <= |h.mem|
      && r.heap.mem[r.ptr..r.ptr + n] == h.mem[p..p + n]
      && forall i :: 0 <= i < |h.mem| && !(r.ptr <= i < r.ptr + n) ==> r.heap.mem[i] == h.mem[i]
  {
    ReallocMovedMem(h, p, size, c);
    CopiedHoldsSource(h.mem, p, ReallocSpec(h, p, size, c).ptr, SizeOf(h.blocks, p, c.hdr));
  }

  /** Whatever path `realloc(p, size)` takes, every other live payload
      stays live with the same recorded size. */
  lemma ReallocKeepsOthers(h: Heap, p: Ptr, size: nat, q: Ptr, c: Config)
    requires WellFormed(h, c) && (p == NULL || IsLive(h.blocks, p, c.hdr))
    requires IsLive(h.blocks, q, c.hdr) && q != p
    ensures var r := ReallocSpec(h, p, size, c);
      IsLive(r.heap.blocks, q, c.hdr) && SizeOf(r.heap.blocks, q, c.hdr) == SizeOf(h.blocks, q, c.hdr)
  {
    var m := MallocSpec(h, size, c);
    LiveStaysLive(h.blocks, m.heap.blocks, c.base, m.heap.brk, c.hdr, q);
    if p != NULL && size > 0 && SizeOf(h.blocks, p, c.hdr) < size && m.ptr != NULL {
      PayloadInside(h, p, c);
      LiveStaysLive(h.blocks, m.heap.blocks, c.base, m.heap.brk, c.hdr, p);
      PayloadInside(m.heap, m.ptr, c);
      var n := SizeOf(h.blocks, p, c.hdr);
      FreeKeeps(m.heap.(mem := Copied(m.heap.mem, p, m.ptr, n)), p, q, c);
    }
  }

  /** On a fresh heap, `malloc(100)` grows the break by a header and 100
      bytes, and freeing the result shrinks it back to an empty list. */
  lemma FreshHeapRoundTrip(c: Config, mem: seq<byte>)
    requires ConfigOk(c) && |mem| == c.limit && c.base + c.hdr + 100 <= c.limit
    ensures var h0 := Heap([], c.base, mem);
      var a := MallocSpec(h0, 100, c);
      && a.ptr == c.base + c.hdr
      && a.heap.brk == c.base + c.hdr + 100
      && FreeSpec(a.heap, a.ptr, c) == h0
  {
    var h0 := Heap([], c.base, mem);
    MallocMiss(h0, 100, c);
    GrowThenFreeRestores(h0, 100, c);
  }

  /** malloc(64) = A and malloc(32) = B on a fresh heap, B right after A;
      free(A) keeps A's block in the list, marked free; malloc(16) returns
      A again; free(B) then unlinks B and lowers the break by a header and
      32 bytes. */
  lemma ReuseScenario(c: Config, mem: seq<byte>)
    requires ConfigOk(c) && |mem| == c.limit && c.base + 2 * c.hdr + 96 <= c.limit
    ensures var h0 := Heap([], c.base, mem);
      var a := MallocSpec(h0, 64, c);
      var b := MallocSpec(a.heap, 32, c);
      && a.ptr == c.base + c.hdr
      && b.ptr == a.ptr + 64 + c.hdr
      && IsLive(b.heap.blocks, a.ptr, c.hdr)
      && var h3 := FreeSpec(b.heap, a.ptr, c);
      && h3.brk == b.heap.brk && |h3.blocks| == 2 && h3.blocks[0].isFree
      && var d := MallocSpec(h3, 16, c);
      && d.ptr == a.ptr
      && IsLive(d.heap.blocks, b.ptr, c.hdr)
      && var h5 := FreeSpec(d.heap, b.ptr, c);
      && h5.brk == d.heap.brk - (c.hdr + 32)
      && h5 == Heap([Block(c.base, 64, false)], c.base + c.hdr + 64, mem)
  {
    var h0 := Heap([], c.base, mem);
    MallocMiss(h0, 64, c);
    var a := MallocSpec(h0, 64, c);
    assert a.heap.blocks == [Block(c.base, 64, false)];
    assert FirstFit(a.heap.blocks, 32).None? by {
      assert !Fits(a.heap.blocks[0], 32);
    }
    MallocMiss(a.heap, 32, c);
    var b := MallocSpec(a.heap, 32, c);
    var bs := [Block(c.base, 64, false), Block(c.base + c.hdr + 64, 32, false)];
    assert b.heap.blocks == bs;
    IndexOfUnique(bs, c.base, b.heap.brk, c.hdr, 0);
    FreeCases(b.heap, a.ptr, c);
    var h3 := FreeSpec(b.heap, a.ptr, c);
    assert h3.blocks == bs[0 := bs[0].(isFree := true)];
    FirstFitIs(h3.blocks, 16, 0);
    MallocHit(h3, 16, 0, c);
    var d := MallocSpec(h3, 16, c);
    assert d.heap == b.heap;
    IndexOfUnique(bs, c.base, b.heap.brk, c.hdr, 1);
    FreeCases(d.heap, b.ptr, c);
    assert bs[..1] == [Block(c.base, 64, false)];
  }
}
