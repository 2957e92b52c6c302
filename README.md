# A verified model of an sbrk-based first-fit allocator

This project models `memory_allocator.c`, a replacement for `malloc`, `free`,
`calloc` and `realloc`. The allocator keeps a singly linked list of block
headers, reached from the globals `head` and `tail`. Each header records the
payload size, an `is_free` flag and the next header. The heap is one
contiguous region above the initial program break:

- `malloc` first reuses the first free block that is large enough (first
  fit, no splitting). Otherwise it grows the heap with `sbrk` by one header
  plus the payload and appends the new header as the tail.
- `free` gives memory back to the system only when the freed payload ends
  at the current break, that is, when the block is the tail. It unlinks the
  tail and lowers the break. Any other block is only marked free.
- `calloc` checks the product `count * elementSize` for `size_t` overflow by
  dividing it back. It then zeroes the `malloc`'d payload.
- `realloc` keeps the block when its recorded size suffices. Otherwise it
  allocates a new block, copies the old recorded size of bytes and frees
  the old block.

The model has two layers.

- `HeapLayout`, `HeapOps` and `SizeT` describe the heap as a value:
  `Heap(blocks, brk, mem)`. `blocks` lists the headers in list order as
  (address, size, is_free). `brk` is the program break. `mem` holds the
  bytes of the address space. `WellFormed` is the contiguity invariant: the
  first header sits at the initial break, each header starts where the
  previous payload ends, and the last payload ends at the break.
  `MallocSpec`, `FreeSpec`, `CallocSpec` and `ReallocSpec` give the effect
  of each entry point.
- `MemoryAllocator.Allocator` follows the code step by step, in place. It has a
  map from header address to header (`size`, `isFree`, `next`), the `head`
  and `tail` pointers, the break and the bytes. Its loops walk the `next`
  links just as `get_free_block` and the predecessor search in `free` do.
  Each public method is proved to have exactly the effect of its function
  in `HeapOps` and to keep the list linked and contiguous. It departs from
  the code in two places, both listed under "Left out": the header-plus-size
  sum of `malloc` is checked for overflow, and `realloc` reads the old
  block's size before it calls `malloc`.

`HeapProperties` proves what callers rely on:

- the two paths of `malloc` and of `free`;
- live payloads never overlap;
- `free` undoes the growth of `malloc`, and `malloc` re-finds a block that
  `free` marked;
- `calloc` zero-fills the first count * elementSize bytes of its payload
  and returns NULL exactly in its failure cases;
- every path of `realloc`: NULL pointer or size 0, a block that already
  suffices, a failed and a successful move, and what a move keeps;
- two end-to-end call sequences.

Pointers are natural numbers and NULL is 0. `sizeof(header_t)` is a
symbolic positive `hdr`. `sbrk` succeeds exactly when the new break stays
within `[base, limit]`, with `limit < 2^64`.

## Model

| member | source | states |
|---|---|---|
| `SizeT.DivisionDetectsOverflow` | memory_allocator.c:130-134 | for a non-zero count, the wrapped 64-bit product divided by the count gives back the element size if and only if the true product is below 2^64 |
| `SizeT.CallocSize` | memory_allocator.c:125-134 | the size `calloc` passes on exists exactly when both arguments are non-zero and their product fits in `size_t`, and it is then that product |
| `SizeT.MulWrap` | memory_allocator.c:130 | the wrapped `size_t` product equals the true product exactly when the true product is below 2^64 |
| `SizeT.HeaderPlusSizeAsWritten` | memory_allocator.c:58 | the unchecked sum `sizeof(header_t) + size` is the true sum when it is below 2^64 and the true sum minus 2^64 otherwise |
| `SizeT.AsWrittenShortchanges` | memory_allocator.c:58 | when `sizeof(header_t) + size` wraps, the amount asked of `sbrk` is smaller than the payload size the new header records |
| `SizeT.MaxRequestWraps` | memory_allocator.c:58 | with the 24-byte header of a 64-bit target, `malloc(2^64 - 1)` asks `sbrk` for 23 bytes |
| `SizeT.HeaderPlusSize` | memory_allocator.c:58 | the checked sum exists exactly when header plus size fits in `size_t`; it then exceeds the header by exactly the size and equals the sum as written |
| `HeapLayout.Layout` | memory_allocator.c:66-79 | in a contiguous list every block lies between the initial and the current break, and ends at or before the start of every later block |
| `HeapLayout.EndIsBreakIffLast` | memory_allocator.c:98 | a block's payload ends at the break if and only if it is the last block, so the test on line 98 recognises the tail |
| `HeapLayout.Payload` | memory_allocator.c:55 | the pointer handed to the caller is one header past the header's address (`header + 1`); no contract of its own |
| `HeapLayout.Fits` | memory_allocator.c:29 | the first-fit test: the block is free and its recorded size is at least the request; no contract of its own |
| `HeapLayout.FirstFit` | memory_allocator.c:24-36 | the index found is a free block of at least the requested size with no such block before it; none is found exactly when no block qualifies |
| `HeapLayout.IndexOf` | memory_allocator.c:95 | the index found has a header at the given address; none is found exactly when no header is there |
| `HeapLayout.BlockOf` | memory_allocator.c:95 | the header of a payload pointer is found one header below it (`(header_t *)block - 1`); no contract of its own, `BlockOfFindsPayload` states what it finds |
| `HeapLayout.BlockOfFindsPayload` | memory_allocator.c:95 | recovering the header of p finds a block whose payload starts at p, and finds none exactly when no block's payload starts at p |
| `HeapLayout.IndexOfUnique` | memory_allocator.c:153 | in a contiguous list, recovering a header from its address always finds that same block |
| `HeapOps.Reuse` | memory_allocator.c:50-56 | a first-fit hit marks block k in use, keeps every address and size and the other flags, leaves break and bytes alone, and returns k's payload |
| `HeapOps.Grow` | memory_allocator.c:58-81 | growth appends an in-use block of the requested size at the old break, raises the break by header plus size and returns the new payload |
| `HeapOps.MallocSpec` | memory_allocator.c:38-82 | keeps contiguity; the result is NULL exactly when nothing changes; a non-NULL result is a live payload of at least `size` bytes, with `size` non-zero, below the break; every header stays in place with its size, and every in-use header stays in use |
| `HeapOps.Shrink` | memory_allocator.c:98-114 | only the last block can end at the break; dropping it lowers the break to its header address and keeps contiguity |
| `HeapOps.MarkFree` | memory_allocator.c:116 | only block k's flag changes, to free |
| `HeapOps.FreeSpec` | memory_allocator.c:84-118 | `free` keeps contiguity and leaves the bytes alone; `HeapProperties.FreeNull` gives the NULL path and `HeapProperties.FreeCases` the other two |
| `HeapOps.Zeroed` | memory_allocator.c:140 | the bytes of [p, p + n) become zero and every other byte is unchanged |
| `HeapOps.Copied` | memory_allocator.c:160 | byte dst + i becomes old byte src + i for i < n, and every other byte is unchanged |
| `HeapOps.CallocSpec` | memory_allocator.c:120-142 | `calloc` keeps contiguity; `HeapProperties.CallocResult` gives its outcomes, including that it returns `malloc`'s block whenever the size checks pass |
| `HeapOps.CopiedHoldsSource` | memory_allocator.c:160 | after `memcpy`, the n bytes at the destination are the n bytes that were at the source |
| `HeapOps.LiveStaysLive` | memory_allocator.c:50-81 | an allocation keeps every live payload live, at the same block |
| `HeapOps.PayloadInside` | memory_allocator.c:98 | a live payload ends at or below the break |
| `HeapOps.MoveAndFree` | memory_allocator.c:159-162 | copying then freeing keeps contiguity |
| `HeapOps.ReallocSpec` | memory_allocator.c:144-164 | `realloc` keeps contiguity; the `HeapProperties` lemmas `ReallocNullOrZero`, `ReallocKeeps`, `ReallocFails`, `ReallocMoves`, `ReallocMovesBytes` and `ReallocKeepsOthers` give its paths and what each keeps |
| `MemoryAllocator.ViewIncreasing` | memory_allocator.c:66-79 | headers of a contiguous list sit at strictly increasing, non-NULL addresses below the break |
| `MemoryAllocator.SetFlag` | memory_allocator.c:53 | writing `is_free` into one header keeps the list linked and changes that block's flag only |
| `MemoryAllocator.Append` | memory_allocator.c:66-79 | writing a header above all others and linking it after `tail` (or as `head` of an empty list) appends exactly one in-use block and keeps the list linked |
| `MemoryAllocator.DropLast` | memory_allocator.c:100-111 | clearing the next-to-last header's `next` and making it the tail removes exactly the last block and keeps the list linked |
| `MemoryAllocator.ReuseOnList` | memory_allocator.c:50-56 | clearing the flag of the first-fit header on the list is `malloc`'s hit path |
| `MemoryAllocator.Allocator.constructor` | memory_allocator.c:21 | the initial state: empty list, break at its initial value |
| `MemoryAllocator.Allocator.Sbrk` | memory_allocator.c:59-60 | the break moves by delta and its old value is returned when it stays within bounds; otherwise the call fails and nothing moves |
| `MemoryAllocator.Allocator.CurrentBreak` | memory_allocator.c:97 | `sbrk(0)` returns the break and moves nothing |
| `MemoryAllocator.Allocator.GetFreeBlock` | memory_allocator.c:24-36 | the walk from `head` returns the header of the first free block of at least `size` bytes, or NULL when there is none, and changes nothing |
| `MemoryAllocator.Allocator.LinkNewHeader` | memory_allocator.c:66-79 | the header write and linking append the new block to the list |
| `MemoryAllocator.Allocator.GrowHeap` | memory_allocator.c:58-81 | the growth path has exactly the effect `MallocSpec` gives when no block fits |
| `MemoryAllocator.Allocator.Malloc` | memory_allocator.c:38-82 | `malloc` has exactly the effect of `MallocSpec` and keeps the list invariant |
| `MemoryAllocator.Allocator.UnlinkTail` | memory_allocator.c:100-111 | the predecessor walk unlinks exactly the last header, emptying the list when `head == tail`, and leaves the unlinked header's fields as they were, so line 112 still reads its size |
| `MemoryAllocator.Allocator.ReleaseTail` | memory_allocator.c:98-114 | unlinking the tail and lowering the break is `Shrink` |
| `MemoryAllocator.Allocator.MarkHeaderFree` | memory_allocator.c:116 | setting `is_free` in the header is `MarkFree` |
| `MemoryAllocator.Allocator.Free` | memory_allocator.c:84-118 | `free` has exactly the effect of `FreeSpec` and keeps the list invariant |
| `MemoryAllocator.Allocator.Memset` | memory_allocator.c:140 | zeroing payload bytes changes only `mem`, as `Zeroed` says |
| `MemoryAllocator.Allocator.Memcpy` | memory_allocator.c:160 | copying payload bytes changes only `mem`, as `Copied` says |
| `MemoryAllocator.Allocator.Calloc` | memory_allocator.c:120-142 | `calloc` has exactly the effect of `CallocSpec` |
| `MemoryAllocator.Allocator.Realloc` | memory_allocator.c:144-164 | `realloc` has exactly the effect of `ReallocSpec` |
| `HeapProperties.MallocHit` | memory_allocator.c:50-56 | when some block fits, `malloc` returns the payload of the first one, whole, with only its flag cleared and the break unmoved |
| `HeapProperties.MallocMiss` | memory_allocator.c:58-81 | when no block fits, `malloc` appends an in-use block at the old break and raises the break by header plus size, or returns NULL with nothing changed when the break cannot move that far |
| `HeapProperties.MallocFresh` | memory_allocator.c:38-82 | `malloc` never returns a payload that is already live |
| `HeapProperties.FreeCases` | memory_allocator.c:98-116 | a live payload ends at the break if and only if its block is the last; `free` then drops it and lowers the break by header plus size, and otherwise only sets its flag |
| `HeapProperties.FreeNull` | memory_allocator.c:89-92 | `free(NULL)` changes nothing |
| `HeapProperties.ShrinkForgets` | memory_allocator.c:100-112 | the dropped tail can no longer be found by its header address |
| `HeapProperties.FreeUnlinks` | memory_allocator.c:84-118 | after `free(p)`, p is not live |
| `HeapProperties.FreeKeepsBlock` | memory_allocator.c:98-116 | `free` keeps every other block at its index, findable by its header address |
| `HeapProperties.FreeKeeps` | memory_allocator.c:84-118 | `free(p)` keeps every other live payload live with its recorded size |
| `HeapProperties.LiveDisjoint` | memory_allocator.c:58-81 | two different live payloads do not overlap each other or each other's header |
| `HeapProperties.GrowThenFreeRestores` | memory_allocator.c:58-114 | freeing a block that `malloc` has just grown gives back the heap as it was |
| `HeapProperties.FreeThenMallocReuses` | memory_allocator.c:50-116 | after freeing a block that is not the tail, `malloc` of at most its size, with no earlier fit, returns the same payload and restores the heap |
| `HeapProperties.CallocResult` | memory_allocator.c:120-142 | `calloc` returns NULL on a zero argument or an overflowing product; otherwise it returns the pointer of `malloc(count * elementSize)` and leaves the list and break as that `malloc` does, so it is NULL only when that `malloc` fails; NULL leaves the heap unchanged; a non-NULL result owns at least count * elementSize bytes below the break, all zero, and every other byte is as it was |
| `HeapProperties.ReallocNullOrZero` | memory_allocator.c:149-151 | `realloc(NULL, size)` is `malloc(size)`; `realloc(p, 0)` returns NULL with the heap unchanged, so unlike C's `realloc` it leaves p live |
| `HeapProperties.ReallocKeeps` | memory_allocator.c:153-156 | when the recorded size suffices, `realloc` returns the same pointer and changes nothing |
| `HeapProperties.MoveAndFreeResult` | memory_allocator.c:160-161 | after copying into a different live payload and freeing the old one, the old pointer is not live and the new one is live with its size and holds the copied bytes |
| `HeapProperties.ReallocFails` | memory_allocator.c:158-163 | when the new allocation fails, `realloc` returns NULL and the heap, including the old block, is unchanged |
| `HeapProperties.ReallocMoves` | memory_allocator.c:158-163 | when it succeeds, `realloc` returns `malloc`'s new payload, which differs from p and owns at least `size` bytes below the break, and p is no longer live |
| `HeapProperties.ReallocMovedMem` | memory_allocator.c:158-161 | a move leaves memory as the old memory with p's recorded size of bytes copied to the new payload |
| `HeapProperties.ReallocMovesBytes` | memory_allocator.c:158-161 | after a move, the new payload starts with p's old recorded-size bytes and every byte outside them is as it was |
| `HeapProperties.ReallocKeepsOthers` | memory_allocator.c:144-164 | on every path of `realloc(p, size)`, every other live payload stays live with the same recorded size |
| `HeapProperties.FreshHeapRoundTrip` | memory_allocator.c:38-118 | on an empty heap, `malloc(100)` raises the break by header plus 100, and freeing the result returns to the empty heap |
| `HeapProperties.ReuseScenario` | memory_allocator.c:38-118 | A = malloc(64), then B = malloc(32) right after A; free(A) keeps A's block, marked free; malloc(16) returns A; free(B) lowers the break by header plus 32 |

## Left out

- Concurrency and the mutex `global_malloc_mutex` (memory_allocator.c:22). `malloc` and `free` each hold it for their whole body. `calloc` and `realloc` never take it: they call `malloc`, `free`, `memset` and `memcpy` as separate steps, and `realloc` reads the header size unlocked. So in the code another thread's `malloc` or `free` can fall between the steps of a `calloc` or `realloc`. The model is sequential and treats each of the four calls as one atomic step.
- The real `sbrk` system call. It is modelled as a break that moves within `[base, limit]` and fails outside it. No other code moves the break.
- The conversion of the `size_t` amounts to `sbrk`'s signed argument is not modelled. In the model every request above the limit fails.
- `memset` and `memcpy` are modelled only by their effect on the bytes (`Zeroed`, `Copied`).
- The exact value of `sizeof(header_t)` and the `ALIGN` padding (memory_allocator.c:7-19). The header size is a symbolic positive `hdr`; on a 64-bit target it is 24.
- Header fields are kept in their own map, apart from the payload bytes. So the model does not show a caller's out-of-bounds write corrupting a header.
- Caller misuse is undefined behaviour in the source. Double free, foreign pointers and `realloc` of a pointer not handed out are excluded by the `IsLive` precondition of `Free`, `Realloc`, `FreeSpec` and `ReallocSpec`.
- memory_allocator.h holds only the four prototypes and is not part of this model.
- `MemoryAllocator.Allocator.Realloc` reads the old recorded size before calling `malloc`, while the source reads it after. `malloc` never changes an existing header's size (the `Retains` clause of `HeapOps.MallocSpec`), so both read the same value.
- `calloc` can hand back a larger reused block, and it zeroes only the first count * elementSize bytes of it (`HeapProperties.CallocResult`). Bytes past those keep whatever the block held before.
- `MemoryAllocator.Allocator.GrowHeap` adds the header size to the request with the overflow check of `SizeT.HeaderPlusSize`, not with the wrapping sum of memory_allocator.c:58. A request within one header of 2^64 therefore yields NULL, where the code would move the break by a wrapped amount (see Findings).
- `HeapOps.MallocSpec` leaves `mem` unchanged on the growth path. The bytes that `sbrk` newly hands over keep their model values, whereas a real kernel may return fresh, for example zeroed, pages.

## Findings

| source | as written | input that shows it | evidently intended | confidence | as-written member | corrected member |
|---|---|---|---|---|---|---|
| memory_allocator.c:58 | `total_size = sizeof(header_t) + size` wraps modulo 2^64, and the wrapped total goes to `sbrk` | `malloc(2^64 - 1)` with the 24-byte header of a 64-bit target asks `sbrk` for 23 bytes, then writes a 24-byte header recording 2^64 - 1 bytes | return NULL when `size > SIZE_MAX - sizeof(header_t)` | high; not executed | `SizeT.HeaderPlusSizeAsWritten`, `SizeT.AsWrittenShortchanges` | `SizeT.HeaderPlusSize` |

`MemoryAllocator.Allocator.GrowHeap` uses the corrected sum, so `malloc`
returns NULL on such a request. `MallocSpec` agrees: a request that does not
fit below the limit fails.
