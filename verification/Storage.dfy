/** The unchecked stack and the memory of an execution, as objects over fixed arrays. */
module Storage {
  import opened Words
  import opened InstructionTraits
  import opened MemoryExpansion

  /** The stack keeps its items in place, in storage for as many as there can ever be. */
  class Stack {
    const storage: array<Word>
    var size: nat

    ghost predicate Valid()
      reads this
    {
      storage.Length == STACK_LIMIT && size <= STACK_LIMIT
    }

    ghost function Items(): seq<Word>
      requires Valid()
      reads this, storage
    {
      storage[..size]
    }

    constructor ()
      ensures Valid() && Items() == [] && fresh(storage)
    {
      storage := new Word[STACK_LIMIT];
      size := 0;
    }

    /** The item at the given position from the top. */
    method At(i: nat) returns (w: Word)
      requires Valid() && i < size
      ensures w == Items()[size - 1 - i]
    {
      w := storage[size - 1 - i];
    }

    method Put(i: nat, w: Word)
      requires Valid() && i < size
      modifies storage
      ensures Items() == old(Items())[size - 1 - i := w]
    {
      storage[size - 1 - i] := w;
    }

    method Push(w: Word)
      requires Valid() && size < STACK_LIMIT
      modifies this`size, storage
      ensures Valid() && Items() == old(Items()) + [w]
    {
      storage[size] := w;
      size := size + 1;
    }

    method Pop() returns (w: Word)
      requires Valid() && size > 0
      modifies this`size
      ensures Valid() && w == old(Items())[old(size) - 1]
      ensures Items() == old(Items())[..old(size) - 1]
    {
      size := size - 1;
      w := storage[size];
    }

    /** Pops n items without looking at them. */
    method Discard(n: nat)
      requires Valid() && n <= size
      modifies this`size
      ensures Valid() && Items() == old(Items())[..old(size) - n]
    {
      size := size - n;
    }

    /** The items stay in the storage, but the stack forgets them. */
    method Clear()
      requires Valid()
      modifies this`size
      ensures Valid() && Items() == []
    {
      size := 0;
    }
  }

  const PAGE_SIZE := 4096

  /** The capacity after growing to a size that does not fit: doubled, or rounded up to whole pages. */
  function GrownCapacity(capacity: nat, newSize: nat): (r: nat)
    requires capacity % PAGE_SIZE == 0
    ensures r >= newSize && r % PAGE_SIZE == 0
  {
    if newSize <= capacity then capacity
    else if 2 * capacity >= newSize then 2 * capacity
    else (newSize + (PAGE_SIZE - 1)) / PAGE_SIZE * PAGE_SIZE
  }

  /** The memory has a virtual size within the capacity of its allocation. */
  class Memory {
    var data: array<Byte>
    var size: nat

    ghost predicate Valid()
      reads this
    {
      size <= data.Length && size % 32 == 0 && data.Length % PAGE_SIZE == 0
    }

    ghost function Contents(): seq<Byte>
      requires Valid()
      reads this, data
    {
      data[..size]
    }

    constructor ()
      ensures Valid() && Contents() == [] && fresh(data)
      ensures data.Length == PAGE_SIZE
    {
      data := new Byte[PAGE_SIZE];
      size := 0;
    }

    /** Grows to a larger size; the new part is zero, whatever the allocation held before. */
    method Grow(newSize: nat)
      requires Valid() && newSize % 32 == 0 && newSize > size
      modifies this, data
      ensures Valid() && (data == old(data) || fresh(data))
      ensures Contents() == old(Contents()) + Zeros(newSize - old(size))
      ensures data.Length == GrownCapacity(old(data.Length), newSize)
    {
      if newSize > data.Length {
        var capacity := data.Length * 2;
        if capacity < newSize {
          capacity := (newSize + (PAGE_SIZE - 1)) / PAGE_SIZE * PAGE_SIZE;
        }
        assert capacity == GrownCapacity(data.Length, newSize);
        Reallocate(capacity);
      }
      hide GrownCapacity;
      forall i | size <= i < newSize {
        data[i] := 0;
      }
      size := newSize;
    }

    /** Moves to a larger allocation; only what was allocated before is copied. */
    method Reallocate(capacity: nat)
      requires Valid() && capacity >= data.Length && capacity % PAGE_SIZE == 0
      modifies this
      ensures Valid() && fresh(data) && data.Length == capacity
      ensures size == old(size) && Contents() == old(Contents())
    {
      var moved := new Byte[capacity];
      forall i | 0 <= i < data.Length {
        moved[i] := data[i];
      }
      data := moved;
    }

    /** Forgets the contents; the allocation and its bytes stay. */
    method Clear()
      requires Valid()
      modifies this`size
      ensures Valid() && Contents() == []
    {
      size := 0;
    }

    method Read(offset: nat, count: nat) returns (bytes: seq<Byte>)
      requires Valid() && (count != 0 ==> offset + count <= size)
      ensures bytes == Slice(Contents(), offset, count)
    {
      bytes := if count == 0 then [] else data[offset..offset + count];
    }

    method Write(offset: nat, bytes: seq<Byte>)
      requires Valid() && (|bytes| != 0 ==> offset + |bytes| <= size)
      modifies data
      ensures Contents() == Store(old(Contents()), offset, bytes)
    {
      forall i | 0 <= i < |bytes| {
        data[offset + i] := bytes[i];
      }
      assert Contents() == Store(old(Contents()), offset, bytes);
    }
  }
}
