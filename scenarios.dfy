/**
 * Short client programs that drive one allocator through the sequences a
 * caller goes through, and state what each call reports along the way.
 */
module Scenarios {
  import opened Bytes
  import opened Layout
  import opened Validator
  import opened Accounting
  import opened TrackedAllocator

  /**
   * A block is allocated and freed: the free passes the check; the table,
   * the blocks and `_current_allocated` are back as they were; `_allocs`
   * and `_frees` have each grown by one; and freeing the same pointer a
   * second time is refused, the block being no longer this allocator's.
   */
  method AllocateThenFree(a: Allocator, numBytes: uint32, fileName: CString, functionName: CString, line: uint32,
                          owner: uint64, r: Reservation) returns (memory: uint64, first: MemoryError, second: MemoryError)
    requires a.Valid()
    requires HEADER_SIZE + numBytes + FOOTER_SIZE < TWO_32
    requires a.CanPlace(r, HEADER_SIZE + numBytes + FOOTER_SIZE)
    modifies a
    ensures memory == r.base + HEADER_SIZE
    ensures first == NoError && second == NoMemoryBlock
    ensures a.Valid() && (old(a.Balanced()) ==> a.Balanced())
    ensures a.memblocks == old(a.memblocks) && a.heap == old(a.heap)
    ensures a.currentAllocated == old(a.currentAllocated)
    ensures a.allocs == Add32(old(a.allocs), 1) && a.frees == Add32(old(a.frees), 1)
    ensures a.totalAllocated == Add32(old(a.totalAllocated), numBytes)
  {
    ghost var table: seq<uint64>, heap: map<uint64, seq<byte>> := a.memblocks, a.heap;
    memory := a.TrackedAlloc(numBytes, fileName, functionName, line, owner, Some(r));
    ghost var payload: seq<byte> := r.contents[HEADER_SIZE..HEADER_SIZE + numBytes];
    ghost var raw: seq<byte> := a.heap[r.base];
    NewBlockIsValid(a.memblocks, a.heap, r.base, payload, fileName, functionName, line, owner);
    NewBlockSound(r.base, payload, fileName, functionName, line, owner);
    AllocThenFree(table, heap, old(a.allocs), old(a.frees), old(a.currentAllocated), r.base, raw);
    assert HeaderAddress(memory) == r.base;
    first := a.TrackedFree(memory);
    second := a.TrackedFree(memory);
  }

  /**
   * A caller writes backwards from a live payload far enough to change a
   * byte of the header magic. The allocator stays usable: the pointer no
   * longer validates, and freeing it reports a corrupt header and leaves
   * the block tracked and the counters as they were.
   */
  method UnderrunIsReported(a: Allocator, memory: uint64, data: seq<byte>) returns (status: MemoryError)
    requires a.Valid() && a.ValidateMemory(memory)
    requires HEADER_SIZE - 4 < |data| <= HEADER_SIZE
    requires exists i :: HEADER_SIZE - |data| <= i < 4 && data[i - (HEADER_SIZE - |data|)] != EncodeU32(HEADER_MAGIC)[i]
    modifies a
    ensures status == CorruptHeader
    ensures a.Valid() && !a.ValidateMemory(memory)
    ensures a.memblocks == old(a.memblocks) && HeaderAddress(memory) in a.memblocks
    ensures a.allocs == old(a.allocs) && a.frees == old(a.frees) && a.currentAllocated == old(a.currentAllocated)
    ensures a.totalAllocated == old(a.totalAllocated)
  {
    var block: uint64 := HeaderAddress(memory);
    ghost var heap: map<uint64, seq<byte>> := a.heap;
    a.WriteMemory(memory, -|data|, data);
    UnderrunCorruptsHeader(a.memblocks, heap, block, data);
    status := a.TrackedFree(memory);
  }

  /**
   * A block is allocated and the caller writes one byte past its payload,
   * changing the first footer byte. The pointer no longer validates,
   * freeing it reports a corrupt footer, and the block stays tracked; the
   * byte total stays balanced, since the header was not touched.
   */
  method OverrunIsReported(a: Allocator, numBytes: uint32, fileName: CString, functionName: CString, line: uint32,
                           owner: uint64, r: Reservation, data: seq<byte>) returns (memory: uint64, status: MemoryError)
    requires a.Valid()
    requires HEADER_SIZE + numBytes + FOOTER_SIZE < TWO_32
    requires a.CanPlace(r, HEADER_SIZE + numBytes + FOOTER_SIZE)
    requires |data| == numBytes + 1 && data[numBytes] != EncodeU32(FOOTER_MAGIC)[0]
    modifies a
    ensures memory == r.base + HEADER_SIZE
    ensures status == CorruptFooter
    ensures a.Valid() && (old(a.Balanced()) ==> a.Balanced()) && !a.ValidateMemory(memory)
    ensures a.memblocks == old(a.memblocks) + [r.base]
  {
    memory := a.TrackedAlloc(numBytes, fileName, functionName, line, owner, Some(r));
    ghost var payload: seq<byte> := r.contents[HEADER_SIZE..HEADER_SIZE + numBytes];
    ghost var heap: map<uint64, seq<byte>> := a.heap;
    assert HeaderAddress(memory) == r.base;
    assert Fresh(a.memblocks, heap, r.base, payload, fileName, functionName, line, owner);
    a.WriteMemory(memory, 0, data);
    OneByteOverrunCorruptsFooter(a.memblocks, heap, r.base, payload, fileName, functionName, line, owner, data);
    status := a.TrackedFree(memory);
  }
}
