# FlexAlloc in Dafny

A model of FlexAlloc, a small aligned allocator built on the Windows virtual-memory
calls. The model also covers the growable `int` array that uses it. The proofs cover
the allocator's address arithmetic and the array's state machine.

- `machine_word.dfy` (module `MachineWord`): 64-bit `size_t`/`uintptr_t` values
  (`Word`), arithmetic modulo 2^64 (`Wrap`), bitwise `&` (`And`, defined bit by bit
  on naturals) and `~` (`Not`), and powers of two. It also proves the mask lemmas:
  - `x & (x - 1) == 0` holds exactly for 0 and the powers of two.
  - `(x + a - 1) & ~(a - 1)` is `((x + a - 1) / a) * a`.
  - `x & ~(p - 1)` is `(x / p) * p`.
- `flex_alloc.dfy` (module `FlexAlloc`): `memory_block`, `allocate`, `deallocate`
  and `try_expand` from `FlexAlloc.h`. The operating system is a `Platform` value:
  - the page size;
  - what `VirtualAlloc` returns for each request size;
  - what the in-place `HeapReAlloc` returns for each block and size.

  NULL is address 0. `Platform.Valid()` states the documented OS promises:
  - the page size is a power of two;
  - a reservation is page aligned and lies inside the address space;
  - an in-place reallocation either fails or keeps the address.

  `Deallocate` returns the address it would pass to `VirtualFree`, or `None` when it
  returns without calling it.
- `dynamic_array.dfy` (module `DynamicArrays`): the `DynamicArray` of
  `src/FlexAlloc/main.c` as a class with these fields:
  - `data`: an `array<int>`, or null;
  - `addr`: the numeric pointer value;
  - `size`, `capacity` and `alignment`.

  The operations are `Init` (`initArray`), `Free` (`freeArray`), `Resize`
  (`resizeArray`) and `Add` (`addElement`). Each call gets the `Platform` that
  answers its OS calls, so answers may differ from call to call. The `memcpy` and
  `memset` of the source become loops over the array.

What the proofs show about the release address: on the large-alignment path,
`allocate` returns an address that is a multiple of the alignment. The alignment is a
multiple of the page size there, so the page mask in `deallocate` changes nothing. The
address released is therefore the aligned address. It is the start of the reservation
only when that start was already a multiple of the alignment.
`DeallocateAllocatedBeyondPage` proves this. An example that shows it: page size
4096, alignment 8192, reservation at 4096. The block is at 8192, and 8192 is the
address released.

## Model

| member | source | states |
|---|---|---|
| MachineWord.Wrap | FlexAlloc.h:38 | unsigned `size_t` arithmetic: a result in range is kept, a result just below 0 wraps up by 2^64 (as `alignment - 1` at line 26), and a result up to 2^65 wraps down by 2^64 (as `size + alignment` here) |
| MachineWord.And | FlexAlloc.h:41 | `x & y` never exceeds either operand, so a masked address is still a 64-bit word |
| MachineWord.Pow2Test | FlexAlloc.h:26 | for positive x, `x & (x - 1) == 0` holds if and only if x is a power of two |
| MachineWord.AlignmentTest | FlexAlloc.h:26 | on 64-bit words, where `0 - 1` wraps to all ones, the test accepts exactly 0 and the powers of two |
| MachineWord.AlignUpMask | FlexAlloc.h:41 | for a power of two a and no wrap, `(x + a - 1) & ~(a - 1)` equals `((x + a - 1) / a) * a` |
| MachineWord.AlignUpBounds | FlexAlloc.h:41 | `((x + a - 1) / a) * a` is a multiple of a, lies in `[x, x + a)`, and equals x exactly when x is a multiple of a |
| MachineWord.PageMask | FlexAlloc.h:62 | for a power of two p, `x & ~(p - 1)` equals `(x / p) * p` |
| FlexAlloc.AlignmentRejected | FlexAlloc.h:26 | no ensures of its own: the body is the test `(alignment & (alignment - 1)) != 0` shared with line 53, with `alignment - 1` wrapped modulo 2^64; `AlignmentRejectedIff` and `AlignmentTest` state what it accepts |
| FlexAlloc.AlignUp | FlexAlloc.h:41 | no ensures of its own: the body is `(raw + alignment - 1) & ~(alignment - 1)` with `raw + alignment - 1` and `alignment - 1` each wrapped modulo 2^64; `AlignUpMask` and `AlignUpBounds` state that it rounds up to the alignment, and `AllocateBeyondPage` uses them |
| FlexAlloc.Allocate | FlexAlloc.h:22-48 | no ensures of its own: the body follows `allocate` branch by branch (rejection, page path, large-alignment path) with `size + alignment`, the align-up and `totalSize - (alignedPtr - rawPtr)` wrapped modulo 2^64; its properties are the `AllocateRejects`, `AllocateZeroAlignment`, `AllocateWithinPage`, `AllocateBeyondPage`, `AllocateContract` and `DeallocateAllocatedBeyondPage` rows |
| FlexAlloc.Deallocate | FlexAlloc.h:51-64 | no ensures of its own: the body returns the address `deallocate` passes to `VirtualFree` (None when it returns early), with `pageSize - 1` wrapped modulo 2^64 inside the page mask; its properties are the `DeallocateIgnores`, `DeallocateWithinPage`, `DeallocateBeyondPage`, `PageAlignedRelease` and `DeallocateAllocatedBeyondPage` rows |
| FlexAlloc.AlignmentRejectedIff | FlexAlloc.h:26 | the rejection test of `allocate`/`deallocate` fires exactly for nonzero non-powers of two |
| FlexAlloc.AllocateRejects | FlexAlloc.h:23-28 | a nonzero alignment that is not a power of two gives `{NULL, 0}` |
| FlexAlloc.AllocateZeroAlignment | FlexAlloc.h:26-35 | alignment 0 passes the test and `allocate` then behaves exactly as with alignment 1 |
| FlexAlloc.AllocateWithinPage | FlexAlloc.h:30-35 | on a valid platform, for an accepted alignment (0 or a power of two) at most the page size, a failed reservation gives `{NULL, 0}`; a successful one gives the reserved address with exactly `size` bytes, page aligned and so aligned to the request |
| FlexAlloc.AllocateBeyondPage | FlexAlloc.h:36-45 | for alignment above the page size and no wrap in `size + alignment`, a failed reservation gives `{NULL, 0}`. A successful one gives a non-NULL multiple of the alignment in `[raw, raw + alignment)`. It ends exactly at `raw + size + alignment` and has more than `size` bytes |
| FlexAlloc.AllocateContract | FlexAlloc.h:19-47 | for every valid platform, and every request served within a page or whose `size + alignment` does not wrap: a NULL block has size 0; a non-NULL block has at least `size` bytes, lies inside the address space and is aligned for every nonzero alignment |
| FlexAlloc.TryExpand | FlexAlloc.h:66-79 | succeeds exactly when the pointer is non-NULL and the in-place reallocation succeeds. On failure the block is unchanged. On success its size is `new_size` and its pointer is the one returned, which under a valid platform is the old one |
| FlexAlloc.DeallocateIgnores | FlexAlloc.h:52-55 | a rejected alignment or a NULL block releases nothing |
| FlexAlloc.DeallocateWithinPage | FlexAlloc.h:57-59 | for a non-NULL block and an accepted alignment (0 or a power of two) at most the page size, the block's own address is released |
| FlexAlloc.DeallocateBeyondPage | FlexAlloc.h:60-63 | for alignment above the page size, the released address is at most the block's address, a multiple of the page size, and less than one page below it |
| FlexAlloc.PageAlignedRelease | FlexAlloc.h:60-63 | a block aligned to more than a page is released at its own address |
| FlexAlloc.DeallocateAllocatedBeyondPage | FlexAlloc.h:36-63 | for a block from the large-alignment path, `deallocate` releases the aligned address, not the reservation start. The two coincide exactly when the reservation start is a multiple of the alignment |
| DynamicArrays.AddWriteInBounds | src/FlexAlloc/main.c:73-79 | after the doubling step, the write index `size` is below the capacity if and only if the capacity is nonzero |
| DynamicArrays.CopyPrefix | src/FlexAlloc/main.c:57 | the `memcpy`: the first n slots of the destination equal the source's; the rest of the destination is untouched |
| DynamicArrays.ExtendInPlace | src/FlexAlloc/main.c:50-53 | a block grown in place keeps every old slot |
| DynamicArrays.DynamicArray.Init | src/FlexAlloc/main.c:21-34 | size 0, the requested capacity and alignment, and the address `allocate` returned. On success every slot is 0. On failure `data` is NULL while the capacity is still the requested one |
| DynamicArrays.DynamicArray.Free | src/FlexAlloc/main.c:37-44 | releases the block through `deallocate` with the stored alignment only when `data` is non-NULL, then `data` is NULL and size and capacity are 0 |
| DynamicArrays.DynamicArray.Resize | src/FlexAlloc/main.c:47-69 | a request not above the capacity succeeds and changes nothing. Otherwise it succeeds exactly when the in-place growth or the fallback allocation does. The in-place path keeps every slot and, under a valid platform, the address. The copy path adopts the new block and releases the old one. Failure changes nothing. Size, alignment, the live elements and `size <= capacity` are preserved |
| DynamicArrays.DynamicArray.Add | src/FlexAlloc/main.c:72-82 | with room, the element is written at index `size`, size grows by one, and nothing else changes. When full, the call succeeds exactly when growth to twice the capacity does. The capacity is then doubled. On the in-place path nothing is released and, under a valid platform, the address is kept. On the copy path the new block's address is adopted and the old block is released through `deallocate`. On failure nothing changes |
| DynamicArrays.AppendOneToFive | src/FlexAlloc/main.c:7-8 | starting from INITIAL_CAPACITY 4 and ALIGNMENT 16 with allocations succeeding, appending 1 to 5 gives capacity 8, size 5 and contents `[1, 2, 3, 4, 5]` |

## Left out

- The interactive loop of `src/FlexAlloc/main.c` (`main`, `processCommand`,
  `safe_strcmp`, `printArray`): input parsing and `printf` output only.
- The log messages printed on failure (src/FlexAlloc/main.c:32, 63).
- The internals of `VirtualAlloc`, `VirtualFree`, `HeapReAlloc`, `GetProcessHeap`
  and `GetSystemInfo`. They are foreign calls, so they are replaced by the `Platform`
  oracle. The model proves nothing about whether the OS honours a release or grows a
  block. It does not prove that `deallocate(allocate(s, a), a)` followed by
  `allocate(s, a)` succeeds. That is an OS fact.
- The unit tests in `main.c` and `src/FlexAlloc.Tests/FlexAlloc.Tests.cpp`. They are
  used only as evidence, for example for `block.size >= size` in `AllocateContract`.
- Byte-level memory: each block is an array of `int` slots. No model is given of
  pointers into a shared heap, of aliasing between blocks, or of bytes beyond the
  `capacity` slots that `allocate` may report usable.
- DynamicArrays.ExtendInPlace: in-place growth is a fresh Dafny array that holds the
  old slots, with the pointer value kept in `addr`. Object identity is therefore not
  the in-place property; `addr` is.
- `size_t` overflow:
  - `Allocate` computes `size + alignment` with wrap-around, as the source does.
  - The allocator lemmas for the large-alignment path assume `size + alignment < 2^64`.
  - The array operations require `NoOverflow`: the byte size plus the alignment
    fits in 64 bits. This covers `capacity * sizeof(int)` and `capacity * 2`, which
    the source never checks.
- DynamicArrays.DynamicArray.Add requires `data != NULL` and `capacity > 0`. The
  source dereferences `data` on every call. After a failed `initArray`, `data` is NULL
  while the capacity is nonzero. A full array of capacity 0 "doubles" to 0, the resize
  returns success without doing anything, and `data[0]` is then written out of
  bounds. `AddWriteInBounds` shows that a nonzero capacity is exactly what the write
  needs.
- Concurrency: the source is single-threaded and has no locking.
