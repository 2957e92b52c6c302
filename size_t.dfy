/** The C type `size_t` on a 64-bit target, and the overflow test that
    `calloc` performs before it allocates (memory_allocator.c:125-134). */
module SizeT {
  import opened Wrappers

  /** 2^64, one more than the largest `size_t`. */
  const WORD: int := 0x1_0000_0000_0000_0000

  type SizeT = x: int | 0 <= x < WORD

  /** An unsigned result as C stores it in a `size_t`: modulo 2^64, so it
      keeps its value exactly when that value fits. */
  function Wrap(m: nat): (r: SizeT)
    ensures r == m <==> m < WORD
  {
    m % WORD
  }

  /** Unsigned multiplication as C computes it on `size_t`. */
  function MulWrap(a: SizeT, b: SizeT): (r: SizeT)
    ensures r == a * b <==> a * b < WORD
  {
    MulNonNegative(a, b);
    Wrap(a * b)
  }

  lemma MulNonNegative(a: nat, b: nat)
    ensures a * b >= 0
  {
  }

  /** A positive multiple of c is at least c. */
  lemma MulAtLeast(c: int, d: int)
    requires c > 0 && d >= 1
    ensures c * d >= c
  {
    assert c * d == c + c * (d - 1);
  }

  /** If c > 0 then (c * e) / c == e. */
  lemma {:induction false} DivCancels(c: int, e: int)
    requires c > 0 && e >= 0
    ensures (c * e) / c == e
  {
    var q, r := (c * e) / c, (c * e) % c;
    assert c * e == c * q + r && 0 <= r < c;
    assert c * (e - q) == r;
    if e - q >= 1 {
      MulAtLeast(c, e - q);
    } else if q - e >= 1 {
      MulAtLeast(c, q - e);
    }
  }

  /** The division test on line 132 is exactly the overflow test: for a
      non-zero count, dividing the wrapped product by the count gives back
      the element size if and only if the true product fits in `size_t`. */
  lemma {:induction false} DivisionDetectsOverflow(c: SizeT, e: SizeT)
    requires c > 0
    ensures MulWrap(c, e) / c == e <==> c * e < WORD
  {
    var m := MulWrap(c, e);
    if c * e < WORD {
      assert m == c * e;
      DivCancels(c, e);
    } else {
      assert m == c * (m / c) + m % c;
      assert c * (m / c) < c * e;
    }
  }

  /** The byte count that `calloc(count, elementSize)` passes to `malloc`,
      computed as the code does (a wrapping product checked by division);
      None stands for the early NULL return. */
  function CallocSize(count: SizeT, elementSize: SizeT): (r: Option<SizeT>)
    ensures r.Some? <==> count != 0 && elementSize != 0 && count * elementSize < WORD
    ensures r.Some? ==> r.value == count * elementSize
  {
    if count == 0 || elementSize == 0 then None
    else
      var size := MulWrap(count, elementSize);
      DivisionDetectsOverflow(count, elementSize);
      if elementSize != size / count then None else Some(size)
  }

  /** `sizeof(header_t) + size` as memory_allocator.c:58 computes it: an
      unsigned sum, so modulo 2^64. */
  function HeaderPlusSizeAsWritten(hdr: SizeT, size: SizeT): (r: SizeT)
    ensures hdr + size < WORD ==> r == hdr + size
    ensures hdr + size >= WORD ==> r == hdr + size - WORD
  {
    (hdr + size) % WORD
  }

  /** When the sum wraps, the break would be moved by less than the payload
      size the new header then records: the block claims bytes beyond the
      break. */
  lemma {:induction false} AsWrittenShortchanges(hdr: SizeT, size: SizeT)
    requires hdr > 0 && hdr + size >= WORD
    ensures HeaderPlusSizeAsWritten(hdr, size) < size
  {
    assert hdr + size < 2 * WORD;
    assert HeaderPlusSizeAsWritten(hdr, size) == hdr + size - WORD;
  }

  /** On a 64-bit target `sizeof(header_t)` is 24 (an 8-byte size, a 4-byte
      flag padded to 8, an 8-byte pointer; the 16-byte `ALIGN` member is
      smaller), so `malloc(SIZE_MAX)` asks `sbrk` for 23 bytes. */
  lemma MaxRequestWraps()
    ensures HeaderPlusSizeAsWritten(24, WORD - 1) == 23
  {
  }

  /** The sum with the overflow test the code lacks: None when
      `size > SIZE_MAX - hdr`, which `malloc` then reports as NULL. */
  function HeaderPlusSize(hdr: SizeT, size: SizeT): (r: Option<SizeT>)
    ensures r.Some? <==> hdr + size < WORD
    ensures r.Some? ==> r.value - hdr == size && r.value == HeaderPlusSizeAsWritten(hdr, size)
  {
    if size > WORD - 1 - hdr then None else Some(hdr + size)
  }
}
