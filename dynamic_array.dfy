/**
 * The growable array of src/FlexAlloc/main.c: `DynamicArray` with
 * `initArray`, `resizeArray`, `addElement` and `freeArray`, on top of the
 * allocator of FlexAlloc.h.
 *
 * The memory behind `data` is an `array<int>` of `capacity` slots, and
 * `addr` is the numeric value of the `data` pointer, which is what the
 * allocator calls see. Each operation that calls the operating system takes
 * the `Platform` answering that call.
 */
module DynamicArrays {
  import opened MachineWord
  import opened FlexAlloc

  /** `sizeof(int)`. */
  const INT_SIZE: nat := 4
  const INITIAL_CAPACITY: Word := 4
  const ALIGNMENT: Word := 16

  /** `count * sizeof(int)` in `size_t` arithmetic. */
  function Bytes(count: Word): Word {
    Wrap(count * INT_SIZE)
  }

  /**
   * The byte size of `count` elements, with room for the alignment slack of
   * `allocate`, fits in a `size_t`. The source never checks this.
   */
  predicate NoOverflow(count: int, alignment: Word) {
    count * INT_SIZE + alignment < WORD
  }

  /** The capacity `addElement` has before it writes: doubled when full. */
  function GrownCapacity(size: Word, capacity: Word): Word {
    if size == capacity then Wrap(capacity * 2) else capacity
  }

  /**
   * The write at index `size` that `addElement` performs after growing lies
   * inside the array exactly when the capacity is nonzero: a full array of
   * capacity 0 "doubles" to 0 and is written at index 0.
   */
  lemma AddWriteInBounds(size: Word, capacity: Word)
    requires size <= capacity && 2 * capacity < WORD
    ensures size < GrownCapacity(size, capacity) <==> capacity > 0
  {
  }

  /** The in-place path of `resizeArray` succeeds for this block and request. */
  predicate GrowsInPlace(addr: Word, newCapacity: Word, sys: Platform) {
    addr != NULL && sys.growInPlace(addr, Bytes(newCapacity)) != NULL
  }

  /** `memcpy` of the first n slots of src into dst. */
  method CopyPrefix(src: array<int>, dst: array<int>, n: nat)
    requires n <= src.Length && n <= dst.Length && src != dst
    modifies dst
    ensures dst[..n] == src[..n]
    ensures dst[n..] == old(dst[n..])
  {
    var i := 0;
    while i < n
      invariant 0 <= i <= n
      invariant forall k :: 0 <= k < i ==> dst[k] == src[k]
      invariant forall k :: n <= k < dst.Length ==> dst[k] == old(dst[k])
    {
      dst[i] := src[i];
      i := i + 1;
    }
  }

  /**
   * The block after the heap grew it in place to n slots: the old slots keep
   * their contents and the new ones hold whatever the heap left there.
   */
  method ExtendInPlace(block: array<int>, n: nat) returns (grown: array<int>)
    requires block.Length <= n
    ensures fresh(grown) && grown.Length == n
    ensures grown[..block.Length] == block[..]
  {
    grown := new int[n];
    CopyPrefix(block, grown, block.Length);
  }

  class DynamicArray {
    var data: array?<int>
    var addr: Word
    var size: Word
    var capacity: Word
    var alignment: Word

    /**
     * `size <= capacity`; the capacity's byte size fits in a `size_t`; `data`
     * is NULL exactly when its address is 0, and otherwise has one slot per
     * unit of capacity; a NULL array holds no elements.
     */
    ghost predicate Valid()
      reads this
    {
      size <= capacity && NoOverflow(capacity, alignment) &&
      (data == null <==> addr == NULL) &&
      (data != null ==> data.Length == capacity) &&
      (data == null ==> size == 0)
    }

    /** The live elements, in insertion order. */
    ghost function Contents(): seq<int>
      reads this, data
      requires Valid()
    {
      if data == null then [] else data[..size]
    }

    /** Every slot of the backing block, live or not. */
    ghost function Slots(): seq<int>
      reads this, data
    {
      if data == null then [] else data[..]
    }

    /**
     * `initArray(array, initialCapacity, alignment)`: no elements, the given
     * capacity and alignment, and the block `allocate` returned zero-filled;
     * when `allocate` fails, `data` is NULL but the capacity is still the
     * requested one.
     */
    constructor Init(initialCapacity: Word, alignment: Word, sys: Platform)
      requires NoOverflow(initialCapacity, alignment)
      ensures Valid()
      ensures size == 0 && capacity == initialCapacity && this.alignment == alignment
      ensures Contents() == []
      ensures var block := Allocate(Bytes(initialCapacity), alignment, sys);
        addr == block.ptr &&
        (block.ptr == NULL ==> data == null) &&
        (block.ptr != NULL ==>
          data != null && fresh(data) && forall i :: 0 <= i < data.Length ==> data[i] == 0)
    {
      var block := Allocate(Bytes(initialCapacity), alignment, sys);
      var d: array?<int> := null;
      if block.ptr != NULL {
        var zeroed := new int[initialCapacity];
        var i := 0;
        while i < initialCapacity
          invariant 0 <= i <= initialCapacity
          invariant forall k :: 0 <= k < i ==> zeroed[k] == 0
        {
          zeroed[i] := 0;
          i := i + 1;
        }
        d := zeroed;
      }
      data := d;
      addr := block.ptr;
      size := 0;
      capacity := initialCapacity;
      this.alignment := alignment;
    }

    /**
     * `freeArray(array)`: releases the block with the stored alignment when
     * `data` is not NULL, and leaves an empty array of capacity 0. Returns
     * the address handed to the release call, if any.
     */
    method Free(sys: Platform) returns (released: Option<Word>)
      requires Valid()
      modifies this
      ensures Valid() && Contents() == []
      ensures data == null && addr == NULL && size == 0 && capacity == 0
      ensures alignment == old(alignment)
      ensures old(data) == null ==> released == None
      ensures old(data) != null ==>
        released == Deallocate(MemoryBlock(old(addr), Bytes(old(capacity))), old(alignment), sys)
    {
      released := None;
      if data != null {
        released := Deallocate(MemoryBlock(addr, Bytes(capacity)), alignment, sys);
        data := null;
        addr := NULL;
      }
      size := 0;
      capacity := 0;
    }

    /**
     * `resizeArray(array, newCapacity)`. A request not above the capacity
     * succeeds and changes nothing. Otherwise the block is grown in place if
     * the heap can, keeping every slot (and, on a valid platform, its
     * address); else a new block is
     * allocated, the live elements are copied into it and the old block is
     * released; when that allocation fails too, the call fails and nothing
     * changes. The live elements are the same in every case.
     */
    method Resize(newCapacity: Word, sys: Platform) returns (ok: bool, released: Option<Word>)
      requires Valid()
      requires NoOverflow(newCapacity, alignment)
      modifies this
      ensures Valid()
      ensures size == old(size) && alignment == old(alignment)
      ensures Contents() == old(Contents())
      ensures newCapacity <= old(capacity) ==> ok
      ensures !ok || newCapacity <= old(capacity) ==>
        data == old(data) && addr == old(addr) && capacity == old(capacity) && released == None
      ensures newCapacity > old(capacity) ==>
        (ok <==> GrowsInPlace(old(addr), newCapacity, sys) ||
                 Allocate(Bytes(newCapacity), alignment, sys).ptr != NULL)
      ensures newCapacity > old(capacity) && ok ==>
        capacity == newCapacity && data != null && fresh(data)
      ensures newCapacity > old(capacity) && GrowsInPlace(old(addr), newCapacity, sys) ==>
        addr == sys.growInPlace(old(addr), Bytes(newCapacity)) &&
        (sys.Valid() ==> addr == old(addr)) &&
        released == None &&
        data[..old(capacity)] == old(Slots())
      ensures newCapacity > old(capacity) && !GrowsInPlace(old(addr), newCapacity, sys) && ok ==>
        addr == Allocate(Bytes(newCapacity), alignment, sys).ptr &&
        released == Deallocate(MemoryBlock(old(addr), Bytes(old(capacity))), alignment, sys)
    {
      ok, released := true, None;
      if newCapacity > capacity {
        var block := MemoryBlock(addr, Bytes(capacity));
        var expanded, grownBlock := TryExpand(block, Bytes(newCapacity), sys);
        if expanded {
          var grown := ExtendInPlace(data, newCapacity);
          data := grown;
          addr := grownBlock.ptr;
          capacity := newCapacity;
        } else {
          var newBlock := Allocate(Bytes(newCapacity), alignment, sys);
          if newBlock.ptr != NULL {
            var moved := new int[newCapacity];
            if data != null {
              CopyPrefix(data, moved, size);
            }
            released := Deallocate(MemoryBlock(addr, Bytes(capacity)), alignment, sys);
            data := moved;
            addr := newBlock.ptr;
            capacity := newCapacity;
          } else {
            ok := false;
          }
        }
      }
    }

    /**
     * `addElement(array, element)`. With room left, the element is written
     * at index `size` and nothing else changes. A full array first asks for
     * twice its capacity; if that fails, the call fails and nothing changes.
     * The source dereferences `data` unconditionally and grows a full array
     * of capacity 0 to capacity 0, so a non-NULL block of nonzero capacity is
     * required.
     */
    method Add(element: int, sys: Platform) returns (ok: bool, released: Option<Word>)
      requires Valid()
      requires data != null && capacity > 0
      requires size == capacity ==> NoOverflow(2 * capacity, alignment)
      modifies this, data
      ensures Valid() && alignment == old(alignment)
      ensures ok ==> size == old(size) + 1 && Contents() == old(Contents()) + [element]
      ensures ok ==>
        capacity == (if old(size) == old(capacity) then 2 * old(capacity) else old(capacity))
      ensures old(size) < old(capacity) ==>
        ok && released == None && data == old(data) && addr == old(addr) &&
        data[..] == old(data[..])[old(size) := element]
      ensures old(size) == old(capacity) ==>
        (ok <==> GrowsInPlace(old(addr), 2 * old(capacity), sys) ||
                 Allocate(Bytes(2 * old(capacity)), alignment, sys).ptr != NULL)
      ensures old(size) == old(capacity) && ok ==>
        (GrowsInPlace(old(addr), 2 * old(capacity), sys) ==>
          addr == sys.growInPlace(old(addr), Bytes(2 * old(capacity))) &&
          (sys.Valid() ==> addr == old(addr)) &&
          released == None) &&
        (!GrowsInPlace(old(addr), 2 * old(capacity), sys) ==>
          addr == Allocate(Bytes(2 * old(capacity)), alignment, sys).ptr &&
          released == Deallocate(MemoryBlock(old(addr), Bytes(old(capacity))), alignment, sys))
      ensures !ok ==>
        data == old(data) && addr == old(addr) && size == old(size) &&
        capacity == old(capacity) && data[..] == old(data[..]) && released == None
    {
      ok, released := true, None;
      if size == capacity {
        ok, released := Resize(GrownCapacity(size, capacity), sys);
        if !ok {
          return;
        }
      }
      data[size] := element;
      size := size + 1;
    }
  }

  /**
   * The session of the interactive program when every allocation succeeds:
   * an array of INITIAL_CAPACITY slots aligned to ALIGNMENT, then the
   * elements 1 to 5. The fifth append doubles the capacity.
   */
  method AppendOneToFive(sys: Platform) returns (a: DynamicArray)
    requires sys.Valid() && sys.pageSize >= ALIGNMENT
    requires sys.reserve(Bytes(INITIAL_CAPACITY)) != NULL
    requires sys.reserve(Bytes(2 * INITIAL_CAPACITY)) != NULL
    ensures a.Valid() && a.size == 5 && a.capacity == 8
    ensures a.Contents() == [1, 2, 3, 4, 5]
  {
    assert IsPow2(ALIGNMENT);
    AllocateWithinPage(Bytes(INITIAL_CAPACITY), ALIGNMENT, sys);
    AllocateWithinPage(Bytes(2 * INITIAL_CAPACITY), ALIGNMENT, sys);
    a := new DynamicArray.Init(INITIAL_CAPACITY, ALIGNMENT, sys);
    var ok, released := a.Add(1, sys);
    ok, released := a.Add(2, sys);
    ok, released := a.Add(3, sys);
    ok, released := a.Add(4, sys);
    ok, released := a.Add(5, sys);
  }
}
