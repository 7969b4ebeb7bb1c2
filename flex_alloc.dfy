/**
 * The aligned allocator of FlexAlloc.h: `allocate`, `deallocate` and
 * `try_expand` over an abstract operating system.
 *
 * The operating system is a `Platform` value: its page size and the answers
 * of its reservation call (VirtualAlloc) and of its in-place heap
 * reallocation (HeapReAlloc with HEAP_REALLOC_IN_PLACE_ONLY). Addresses are
 * 64-bit words and NULL is 0. The release call (VirtualFree) has no answer
 * that the allocator looks at, so `Deallocate` returns the address it would
 * hand to that call, if any.
 */
module FlexAlloc {
  import opened MachineWord

  datatype Option<T> = None | Some(value: T)

  const NULL: Word := 0

  /** `memory_block`: the first usable byte and the number of usable bytes. */
  datatype MemoryBlock = MemoryBlock(ptr: Word, size: Word)

  /** The failure sentinel `{NULL, 0}`. */
  const EMPTY: MemoryBlock := MemoryBlock(NULL, 0)

  /**
   * What the allocator sees of the operating system. `reserve(n)` is the
   * address VirtualAlloc returns for a request of n bytes (NULL on failure);
   * `growInPlace(p, n)` is what the in-place HeapReAlloc of block p to n
   * bytes returns (NULL on failure).
   */
  datatype Platform = Platform(
    pageSize: Word,
    reserve: Word -> Word,
    growInPlace: (Word, Word) -> Word)
  {
    /**
     * The operating system keeps its documented promises: the page size is a
     * power of two, a reservation starts on a page boundary and lies inside
     * the address space, and an in-place reallocation never moves the block.
     */
    ghost predicate Valid() {
      IsPow2(pageSize) &&
      (forall n: Word :: reserve(n) % pageSize == 0 && reserve(n) + n <= WORD) &&
      (forall p: Word, n: Word :: growInPlace(p, n) == NULL || growInPlace(p, n) == p)
    }
  }

  /** The bit test both `allocate` and `deallocate` use to reject an alignment. */
  predicate AlignmentRejected(alignment: Word) {
    And(alignment, Wrap(alignment - 1)) != 0
  }

  /** `(raw + alignment - 1) & ~(alignment - 1)` in 64-bit arithmetic. */
  function AlignUp(raw: Word, alignment: Word): Word {
    And(Wrap(raw + alignment - 1), Not(Wrap(alignment - 1)))
  }

  /** `allocate(size, alignment)`. */
  function Allocate(size: Word, alignment: Word, sys: Platform): MemoryBlock {
    if AlignmentRejected(alignment) then EMPTY
    else if alignment <= sys.pageSize then
      var p := sys.reserve(size);
      MemoryBlock(p, if p != NULL then size else 0)
    else
      var total := Wrap(size + alignment);
      var raw := sys.reserve(total);
      if raw == NULL then EMPTY
      else
        var aligned := AlignUp(raw, alignment);
        MemoryBlock(aligned, Wrap(total - Wrap(aligned - raw)))
  }

  /**
   * `deallocate(block, alignment)`: the address passed to VirtualFree, or
   * None when the function returns without calling it.
   */
  function Deallocate(block: MemoryBlock, alignment: Word, sys: Platform): Option<Word> {
    if AlignmentRejected(alignment) || block.ptr == NULL then None
    else if alignment <= sys.pageSize then Some(block.ptr)
    else Some(And(block.ptr, Not(Wrap(sys.pageSize - 1))))
  }

  /**
   * `try_expand(&block, newSize)`: returns whether the in-place reallocation
   * succeeded, and the block as it is afterwards.
   */
  method TryExpand(block: MemoryBlock, newSize: Word, sys: Platform) returns (ok: bool, after: MemoryBlock)
    ensures ok <==> block.ptr != NULL && sys.growInPlace(block.ptr, newSize) != NULL
    ensures !ok ==> after == block
    ensures ok ==> after == MemoryBlock(sys.growInPlace(block.ptr, newSize), newSize)
    ensures ok ==> after.ptr != NULL && after.size == newSize
    ensures ok && sys.Valid() ==> after.ptr == block.ptr
  {
    after := block;
    ok := false;
    if block.ptr != NULL {
      var newPtr := sys.growInPlace(block.ptr, newSize);
      if newPtr != NULL {
        after := MemoryBlock(newPtr, newSize);
        ok := true;
      }
    }
  }

  // ---------------------------------------------------------------------
  // The alignment test

  /**
   * The bit test rejects exactly the alignments that are neither a power of
   * two nor 0: 0 passes because `0 - 1` wraps to all ones.
   */
  lemma AlignmentRejectedIff(alignment: Word)
    ensures AlignmentRejected(alignment) <==> alignment != 0 && !IsPow2(alignment)
  {
    AlignmentTest(alignment);
  }

  /** A rejected alignment makes `allocate` return the sentinel. */
  lemma AllocateRejects(size: Word, alignment: Word, sys: Platform)
    requires alignment != 0 && !IsPow2(alignment)
    ensures Allocate(size, alignment, sys) == EMPTY
  {
    AlignmentRejectedIff(alignment);
  }

  /** Alignment 0 passes the test and behaves exactly like alignment 1. */
  lemma AllocateZeroAlignment(size: Word, sys: Platform)
    requires sys.pageSize >= 1
    ensures Allocate(size, 0, sys) == Allocate(size, 1, sys)
  {
    AlignmentRejectedIff(0);
    AlignmentRejectedIff(1);
  }

  // ---------------------------------------------------------------------
  // allocate

  /**
   * Alignment at most the page size: the reservation is of exactly `size`
   * bytes; on success the block is the reserved address with exactly `size`
   * usable bytes, which is already aligned, and on failure it is the sentinel.
   */
  lemma AllocateWithinPage(size: Word, alignment: Word, sys: Platform)
    requires sys.Valid()
    requires alignment == 0 || IsPow2(alignment)
    requires alignment <= sys.pageSize
    ensures var b := Allocate(size, alignment, sys);
      (sys.reserve(size) == NULL ==> b == EMPTY) &&
      (sys.reserve(size) != NULL ==>
        b.ptr == sys.reserve(size) && b.size == size &&
        b.ptr % sys.pageSize == 0 &&
        (alignment != 0 ==> b.ptr % alignment == 0))
  {
    AlignmentRejectedIff(alignment);
    var p := sys.reserve(size);
    if alignment != 0 && p != NULL {
      Pow2Divides(alignment, sys.pageSize);
      MultipleOfMultiple(p, sys.pageSize, alignment);
    }
  }

  /**
   * Alignment above the page size, when `size + alignment` does not wrap:
   * the reservation is of `size + alignment` bytes; on success the returned
   * address is the reserved one rounded up to a multiple of the alignment,
   * less than one alignment past it, and every byte from there to the end of
   * the reservation is reported usable, which is more than `size`.
   */
  lemma AllocateBeyondPage(size: Word, alignment: Word, sys: Platform)
    requires sys.Valid()
    requires IsPow2(alignment) && alignment > sys.pageSize
    requires size + alignment < WORD
    ensures var raw := sys.reserve(size + alignment);
      var b := Allocate(size, alignment, sys);
      (raw == NULL ==> b == EMPTY) &&
      (raw != NULL ==>
        b.ptr == ((raw + alignment - 1) / alignment) * alignment &&
        b.ptr % alignment == 0 &&
        raw <= b.ptr < raw + alignment &&
        b.ptr != NULL &&
        b.ptr + b.size == raw + (size + alignment) &&
        b.size >= size + 1)
  {
    AlignmentRejectedIff(alignment);
    var raw := sys.reserve(size + alignment);
    if raw != NULL {
      assert raw + (size + alignment) <= WORD;
      AlignUpMask(raw, alignment);
      AlignUpBounds(raw, alignment);
    }
  }

  /**
   * The contract callers rely on, for every valid platform and every request
   * that is served within a page or whose `size + alignment` does not wrap:
   * a NULL block has size 0; a non-NULL
   * block is aligned (for a nonzero alignment), has at least `size` usable
   * bytes, and lies inside the address space.
   */
  lemma AllocateContract(size: Word, alignment: Word, sys: Platform)
    requires sys.Valid()
    requires alignment <= sys.pageSize || size + alignment < WORD
    ensures var b := Allocate(size, alignment, sys);
      (b.ptr == NULL ==> b.size == 0) &&
      (b.ptr != NULL ==>
        b.size >= size && b.ptr + b.size <= WORD &&
        (alignment != 0 ==> b.ptr % alignment == 0))
  {
    AlignmentRejectedIff(alignment);
    if alignment != 0 && !IsPow2(alignment) {
    } else if alignment <= sys.pageSize {
      AllocateWithinPage(size, alignment, sys);
    } else {
      AllocateBeyondPage(size, alignment, sys);
    }
  }

  // ---------------------------------------------------------------------
  // deallocate

  /** `deallocate` does nothing for a rejected alignment or a NULL block. */
  lemma DeallocateIgnores(block: MemoryBlock, alignment: Word, sys: Platform)
    requires (alignment != 0 && !IsPow2(alignment)) || block.ptr == NULL
    ensures Deallocate(block, alignment, sys) == None
  {
    AlignmentRejectedIff(alignment);
  }

  /** Alignment at most the page size: the block's own address is released. */
  lemma DeallocateWithinPage(block: MemoryBlock, alignment: Word, sys: Platform)
    requires alignment == 0 || IsPow2(alignment)
    requires alignment <= sys.pageSize && block.ptr != NULL
    ensures Deallocate(block, alignment, sys) == Some(block.ptr)
  {
    AlignmentRejectedIff(alignment);
  }

  /**
   * Alignment above the page size: the released address is the block's
   * address masked down to a page boundary, that is, the start of the page
   * that holds it.
   */
  lemma DeallocateBeyondPage(block: MemoryBlock, alignment: Word, sys: Platform)
    requires IsPow2(sys.pageSize)
    requires IsPow2(alignment) && alignment > sys.pageSize && block.ptr != NULL
    ensures Deallocate(block, alignment, sys).Some?
    ensures var r := Deallocate(block, alignment, sys).value;
      r <= block.ptr && r % sys.pageSize == 0 && block.ptr - r < sys.pageSize
  {
    AlignmentRejectedIff(alignment);
    PageMask(block.ptr, sys.pageSize);
    RoundDownMultiple(block.ptr, sys.pageSize);
  }

  /** A block aligned to more than a page is released at its own address. */
  lemma PageAlignedRelease(b: MemoryBlock, alignment: Word, sys: Platform)
    requires IsPow2(sys.pageSize)
    requires IsPow2(alignment) && alignment > sys.pageSize
    requires b.ptr != NULL && b.ptr % alignment == 0
    ensures Deallocate(b, alignment, sys) == Some(b.ptr)
  {
    Pow2Divides(sys.pageSize, alignment);
    MultipleOfMultiple(b.ptr, alignment, sys.pageSize);
    AlignmentRejectedIff(alignment);
    PageMask(b.ptr, sys.pageSize);
    RoundDownMultiple(b.ptr, sys.pageSize);
    assert And(b.ptr, Not(Wrap(sys.pageSize - 1))) == b.ptr;
  }

  /**
   * For a block that `allocate` returned on the large-alignment path, the
   * page mask changes nothing: `deallocate` releases the aligned address,
   * which is the start of the reservation only when that start was already
   * a multiple of the alignment.
   */
  lemma DeallocateAllocatedBeyondPage(size: Word, alignment: Word, sys: Platform)
    requires sys.Valid()
    requires IsPow2(alignment) && alignment > sys.pageSize
    requires size + alignment < WORD
    requires sys.reserve(size + alignment) != NULL
    ensures var raw := sys.reserve(size + alignment);
      var b := Allocate(size, alignment, sys);
      Deallocate(b, alignment, sys) == Some(b.ptr) &&
      (b.ptr == raw <==> raw % alignment == 0)
  {
    var raw := sys.reserve(size + alignment);
    var b := Allocate(size, alignment, sys);
    AllocateBeyondPage(size, alignment, sys);
    assert b.ptr == ((raw + alignment - 1) / alignment) * alignment;
    assert b.ptr % alignment == 0 && b.ptr != NULL;
    AlignUpBounds(raw, alignment);
    PageAlignedRelease(b, alignment, sys);
  }
}
