// FakeSharedMemory (src/BlockStorage.h:21-58): the in-process byte vector
// that stands in for a shared-memory segment. Only `realloc` and `size` are
// operations of the source; `Write` is the store through the address that
// `get()` returns, which every other layer performs by `memcpy`, `memset`
// or a field assignment through a reinterpreted header address.

module Memory {
  import opened Bytes

  /** What `std::vector::resize` inside `realloc` leaves: the buffer grows to
      exactly `requested` bytes, new bytes zero, when it is asked for more,
      and is left alone otherwise. */
  function Resized(buffer: seq<Byte>, requested: nat): (r: seq<Byte>)
    ensures requested <= |buffer| ==> r == buffer
    ensures requested > |buffer| ==> |r| == requested
    ensures r[..|buffer|] == buffer && r[|buffer|..] == Zeros(|r| - |buffer|)
  {
    if requested <= |buffer| then buffer else buffer + Zeros(requested - |buffer|)
  }

  class FakeSharedMemory {
    var buffer: seq<Byte>

    constructor (sizeInBytes: nat)
      ensures buffer == Zeros(sizeInBytes)
    {
      buffer := Zeros(sizeInBytes);
    }

    function Size(): nat
      reads this
    {
      |buffer|
    }

    method Realloc(requestedSize: nat)
      modifies this
      ensures buffer == Resized(old(buffer), requestedSize)
    {
      if requestedSize <= Size() {
        return;
      }
      buffer := buffer + Zeros(requestedSize - |buffer|);
    }

    method Write(offset: nat, bytes: seq<Byte>)
      requires offset + |bytes| <= |buffer|
      modifies this
      ensures buffer == Splice(old(buffer), offset, bytes)
    {
      buffer := buffer[..offset] + bytes + buffer[offset + |bytes|..];
    }
  }
}
