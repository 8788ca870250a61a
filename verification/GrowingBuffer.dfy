/** The byte buffers of encrypt.c, which grow on demand. */
module GrowingBuffer {
  import opened Bits
  import opened Buffers

  /** buffer_t; the capacity is the length of the array. */
  class Buffer {
    var data: array<byte>
    var len: nat

    ghost predicate Valid()
      reads this
    {
      len <= data.Length
    }

    ghost function Contents(): seq<byte>
      requires Valid()
      reads this, data
    {
      data[..len]
    }

    constructor (capacity: nat)
      ensures Valid() && fresh(data) && len == 0 && data.Length == capacity
    {
      data := new byte[capacity];
      len := 0;
    }

    /** brealloc: at least as large as asked for, and what was there stays. */
    method Brealloc(n: nat, capacity: nat)
      requires Valid()
      modifies this`data
      ensures Valid() && Contents() == old(Contents())
      ensures data == old(data) || fresh(data)
      ensures data.Length >= n && data.Length >= capacity && data.Length >= old(data.Length)
      ensures data[..old(data.Length)] == old(data[..])
    {
      var realCapacity := if n > capacity then n else capacity;
      if data.Length < realCapacity {
        var larger := new byte[realCapacity];
        CopyInto(larger, 0, data[..]);
        assert larger[..len] == data[..len];
        data := larger;
      }
    }

    /** bfree: the array goes back to the allocator. */
    method Free()
      modifies this
      ensures Valid() && len == 0 && data.Length == 0 && fresh(data)
    {
      data := new byte[0];
      len := 0;
    }
  }
}
