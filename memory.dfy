/** The memory allocator's view of a buffer: an owner of one array that is handed
    back to the allocator by Dispose. Pooling is not modelled: allocating creates
    a fresh array of the requested length. */
module Memory {

  class MemoryOwner<T(0)> {
    /** The owned memory; its length is the length requested from the allocator. */
    const memory: array<T>
    /** True once the buffer has been handed back to the allocator. */
    var disposed: bool

    /** MemoryAllocator.Allocate<T>(length). */
    constructor Allocate(length: nat)
      ensures fresh(memory) && memory.Length == length && !disposed
    {
      memory := new T[length];
      disposed := false;
    }

    /** IMemoryOwner.Dispose: hands the buffer back; the memory must not be used afterwards. */
    method Dispose()
      modifies this
      ensures disposed
    {
      disposed := true;
    }
  }

  /** Span<T>.Fill: every element of the span becomes value. */
  method Fill<T>(span: array<T>, value: T)
    modifies span
    ensures forall i :: 0 <= i < span.Length ==> span[i] == value
  {
    for i := 0 to span.Length
      invariant forall k :: 0 <= k < i ==> span[k] == value
    {
      span[i] := value;
    }
  }
}
