/**
 * class Allocator: the tracked allocator. It owns the tracking table
 * `_memblocks`, the four uint32_t counters, and (in this model) the raw
 * blocks it has handed out, each a header, a payload and a footer.
 *
 * The underlying malloc is not modelled: each allocating call is handed the
 * outcome of its reservation as a parameter, None when malloc failed.
 */
module TrackedAllocator {
  import opened Bytes
  import opened Layout
  import opened Validator
  import opened Tracking
  import opened Accounting

  datatype Option<+T> = None | Some(value: T)

  /** What malloc handed back for one request: an address and the bytes already there. */
  datatype Reservation = Reservation(base: uint64, contents: seq<byte>)

  /** The header of a payload pointer: `memory` minus sizeof(memblock_header), in 64-bit pointer arithmetic. */
  function HeaderAddress(memory: uint64): (block: uint64)
    ensures (block + HEADER_SIZE - memory) % TWO_64 == 0
  {
    if memory >= HEADER_SIZE then memory - HEADER_SIZE else memory - HEADER_SIZE + TWO_64
  }

  class Allocator {
    /** The number of successful allocations. */
    var allocs: uint32
    /** The number of successful frees. */
    var frees: uint32
    /** The payload bytes of the blocks currently allocated. */
    var currentAllocated: uint32
    /** The payload bytes ever allocated. */
    var totalAllocated: uint32
    /** The tracking table: the header address of every live block, in the order they were registered. */
    var memblocks: seq<uint64>
    /** The raw blocks, by header address. */
    var heap: map<uint64, seq<byte>>

    /**
     * What the allocator alone controls: the table lists each live block
     * once and nothing else, every block fits in the address space, and
     * `_allocs - _frees` is the number of listed blocks, in uint32_t
     * arithmetic. Every operation keeps it, a caller's write included.
     */
    ghost predicate Valid()
      reads this
    {
      Accounted(memblocks, heap) && Counted(memblocks, allocs, frees)
    }

    /**
     * What the headers must also say for `_current_allocated` to be right:
     * every listed block is as long as its requested_size says, and
     * `_current_allocated` is the sum of those sizes, in uint32_t
     * arithmetic. A write that reaches a requested_size field can break it;
     * every operation of the allocator keeps it when it holds.
     */
    ghost predicate Balanced()
      reads this
    {
      Accounting.Balanced(memblocks, heap, currentAllocated)
    }

    constructor ()
      ensures Valid() && Balanced()
      ensures allocs == 0 && frees == 0 && currentAllocated == 0 && totalAllocated == 0
      ensures memblocks == [] && heap == map[]
    {
      allocs, frees, currentAllocated, totalAllocated := 0, 0, 0, 0;
      memblocks, heap := [], map[];
    }

    /** Allocator::CheckBlock on the header at `memoryBlock`. */
    function CheckBlock(memoryBlock: uint64): (e: MemoryError)
      reads this
      requires Readable(memblocks, heap)
      ensures e == NoMemoryBlock <==> memoryBlock !in memblocks
      ensures e == NoError ==>
                HEADER_SIZE + RequestedSize(heap[memoryBlock]) + FOOTER_SIZE <= |heap[memoryBlock]|
    {
      Validator.CheckBlock(memblocks, heap, memoryBlock)
    }

    /**
     * Allocator::ValidateMemory: true exactly when CheckBlock passes the
     * block behind the payload pointer `memory`, which can then only be a
     * pointer this allocator handed out and has not freed.
     */
    function ValidateMemory(memory: uint64): (valid: bool)
      reads this
      requires Readable(memblocks, heap)
      ensures valid <==> CheckBlock(HeaderAddress(memory)) == NoError
      ensures valid ==> HeaderAddress(memory) in memblocks && memory == HeaderAddress(memory) + HEADER_SIZE
    {
      CheckBlock(HeaderAddress(memory)) == NoError
    }

    /** The linear search of the tracking table for a header. */
    method FindBlock(block: uint64) returns (index: int)
      ensures -1 <= index < |memblocks|
      ensures index == -1 <==> block !in memblocks
      ensures 0 <= index ==> memblocks[index] == block
    {
      index := 0;
      while index < |memblocks|
        invariant 0 <= index <= |memblocks|
        invariant block !in memblocks[..index]
      {
        if memblocks[index] == block {
          return;
        }
        index := index + 1;
      }
      index := -1;
    }

    /** The reservation can hold a block of `size` raw bytes that this allocator does not already track. */
    predicate CanPlace(r: Reservation, size: nat)
      reads this
    {
      r.base != 0 && r.base !in heap && |r.contents| == size && r.base + size <= TWO_64
    }

    /**
     * The registration step of TrackedAlloc: the block is pushed onto the
     * tracking table, `_allocs` grows by one and both byte totals grow by
     * its requested size.
     */
    method Track(block: uint64, raw: seq<byte>)
      requires Valid() && block !in heap && Sound(block, raw)
      modifies this
      ensures Valid() && (old(Balanced()) ==> Balanced())
      ensures memblocks == old(memblocks) + [block] && heap == old(heap)[block := raw]
      ensures allocs == Add32(old(allocs), 1) && frees == old(frees)
      ensures currentAllocated == Add32(old(currentAllocated), RequestedSize(raw))
      ensures totalAllocated == Add32(old(totalAllocated), RequestedSize(raw))
    {
      var table: seq<uint64>, blocks: map<uint64, seq<byte>>, a: uint32, c: uint32, t: uint32 :=
        memblocks, heap, allocs, currentAllocated, totalAllocated;
      Register(table, blocks, a, frees, c, block, raw);
      memblocks, heap, allocs, currentAllocated, totalAllocated :=
        table + [block], blocks[block := raw], Add32(a, 1), Add32(c, RequestedSize(raw)), Add32(t, RequestedSize(raw));
    }

    /**
     * The erase-and-release step of TrackedFree: the block leaves the
     * tracking table and memory, `_frees` grows by one and
     * `_current_allocated` loses its requested size.
     */
    method Untrack(block: uint64, index: nat)
      requires Valid() && index < |memblocks| && memblocks[index] == block
      modifies this
      ensures Valid() && (old(Balanced()) ==> Balanced())
      ensures memblocks == Remove(old(memblocks), block) && heap == old(heap) - {block}
      ensures frees == Add32(old(frees), 1) && allocs == old(allocs)
      ensures currentAllocated == Sub32(old(currentAllocated), RequestedSize(old(heap)[block]))
      ensures totalAllocated == old(totalAllocated)
    {
      var table: seq<uint64>, blocks: map<uint64, seq<byte>>, f: uint32, c: uint32 :=
        memblocks, heap, frees, currentAllocated;
      RemoveAt(table, index);
      var rest: seq<uint64> := table[..index] + table[index + 1..];
      assert rest == Remove(table, block);
      Release(table, blocks, allocs, f, c, block);
      memblocks, heap, frees, currentAllocated := rest, blocks - {block}, Add32(f, 1), Sub32(c, RequestedSize(blocks[block]));
    }

    /**
     * The registration and release steps of TrackedRealloc together: the
     * new block is pushed onto the table, the old one erased and released,
     * and the counters move as one allocation and one free.
     */
    method Swap(gone: uint64, block: uint64, raw: seq<byte>)
      requires Valid() && gone in memblocks && block !in heap && Sound(block, raw)
      modifies this
      ensures Valid() && (old(Balanced()) ==> Balanced())
      ensures memblocks == Remove(old(memblocks), gone) + [block]
      ensures heap == (old(heap) - {gone})[block := raw]
      ensures allocs == Add32(old(allocs), 1) && frees == Add32(old(frees), 1)
      ensures currentAllocated == Sub32(Add32(old(currentAllocated), RequestedSize(raw)), RequestedSize(old(heap)[gone]))
      ensures totalAllocated == Add32(old(totalAllocated), RequestedSize(raw))
    {
      var table: seq<uint64>, blocks: map<uint64, seq<byte>>, a: uint32, f: uint32, c: uint32, t: uint32 :=
        memblocks, heap, allocs, frees, currentAllocated, totalAllocated;
      Replace(table, blocks, a, f, c, gone, block, raw);
      memblocks, heap, allocs, frees, currentAllocated, totalAllocated :=
        Remove(table, gone) + [block], (blocks - {gone})[block := raw], Add32(a, 1), Add32(f, 1),
        Sub32(Add32(c, RequestedSize(raw)), RequestedSize(blocks[gone])), Add32(t, RequestedSize(raw));
    }

    /**
     * Allocator::TrackedAlloc: writes a header and the footer magic around
     * `numBytes` payload bytes of the reserved block, registers the block,
     * and counts it; returns the payload address, or nullptr (0) when the
     * reservation failed, changing nothing.
     */
    method TrackedAlloc(numBytes: uint32, fileName: CString, functionName: CString, line: uint32,
                        owner: uint64, reservation: Option<Reservation>) returns (memory: uint64)
      requires Valid()
      requires HEADER_SIZE + numBytes + FOOTER_SIZE < TWO_32
      requires reservation.Some? ==> CanPlace(reservation.value, HEADER_SIZE + numBytes + FOOTER_SIZE)
      modifies this
      ensures Valid() && (old(Balanced()) ==> Balanced())
      ensures reservation.None? ==> memory == 0 && unchanged(this)
      ensures reservation.Some? ==>
                var block: uint64 := reservation.value.base;
                var payload: seq<byte> := reservation.value.contents[HEADER_SIZE..HEADER_SIZE + numBytes];
                && memory == block + HEADER_SIZE
                && memblocks == old(memblocks) + [block]
                && heap == old(heap)[block := BlockImage(NewHeader(block, numBytes, fileName, functionName, line, owner), payload)]
                && allocs == Add32(old(allocs), 1) && frees == old(frees)
                && currentAllocated == Add32(old(currentAllocated), numBytes)
                && totalAllocated == Add32(old(totalAllocated), numBytes)
    {
      if reservation.None? {
        return 0;
      }
      var r: Reservation := reservation.value;
      var block: uint64 := r.base;
      var header: Header := NewHeader(block, numBytes, fileName, functionName, line, owner);
      var raw: seq<byte> := WriteBlock(header, r.contents, numBytes);
      ghost var payload: seq<byte> := r.contents[HEADER_SIZE..HEADER_SIZE + numBytes];
      NewBlockSound(block, payload, fileName, functionName, line, owner);
      assert Sound(block, raw) && RequestedSize(raw) == numBytes;
      Track(block, raw);
      memory := block + HEADER_SIZE;
    }

    /**
     * Allocator::TrackedFree: frees the block behind `memory` when CheckBlock
     * passes it: the block is erased from the table and released, `_frees`
     * grows by one and `_current_allocated` loses its requested size. A null
     * pointer is ignored. An untracked or corrupt block is left as it is.
     * The C++ Allocator::TrackedFree returns nothing; this model returns
     * CheckBlock's verdict so that callers can state what happened.
     */
    method TrackedFree(memory: uint64) returns (status: MemoryError)
      requires Valid()
      modifies this
      ensures Valid() && (old(Balanced()) ==> Balanced())
      ensures status == if memory == 0 then NoError else old(CheckBlock(HeaderAddress(memory)))
      ensures memory == 0 || status != NoError ==> unchanged(this)
      ensures memory != 0 && status == NoError ==>
                var block: uint64 := HeaderAddress(memory);
                && memblocks == Remove(old(memblocks), block)
                && heap == old(heap) - {block}
                && frees == Add32(old(frees), 1) && allocs == old(allocs)
                && currentAllocated == Sub32(old(currentAllocated), RequestedSize(old(heap)[block]))
                && totalAllocated == old(totalAllocated)
                && CheckBlock(block) == NoMemoryBlock
    {
      if memory == 0 {
        return NoError;
      }
      var block: uint64 := HeaderAddress(memory);
      status := CheckBlock(block);
      if status != NoError {
        return;
      }
      var index: int := FindBlock(block);
      Untrack(block, index);
    }

    /**
     * Allocator::TrackedRealloc: a new block of `numBytes` is allocated, the
     * first min(old, new) payload bytes are copied into it, and the old
     * block is freed; the new payload address is returned. nullptr (0) is
     * returned, and nothing changes, for a null pointer, for a block that
     * CheckBlock does not pass, or when the reservation failed: the old
     * block is then still tracked and intact.
     */
    method TrackedRealloc(memory: uint64, numBytes: uint32, fileName: CString, functionName: CString,
                          line: uint32, owner: uint64, reservation: Option<Reservation>) returns (result: uint64)
      requires Valid()
      requires HEADER_SIZE + numBytes + FOOTER_SIZE < TWO_32
      requires reservation.Some? ==> CanPlace(reservation.value, HEADER_SIZE + numBytes + FOOTER_SIZE)
      modifies this
      ensures Valid() && (old(Balanced()) ==> Balanced())
      ensures var refused := memory == 0 || old(CheckBlock(HeaderAddress(memory))) != NoError || reservation.None?;
              (result == 0 <==> refused) && (refused ==> unchanged(this))
      ensures result != 0 ==>
                var oldBlock: uint64 := HeaderAddress(memory);
                var oldSize: uint32 := old(RequestedSize(heap[oldBlock]));
                var kept: uint32 := if oldSize < numBytes then oldSize else numBytes;
                var block: uint64 := reservation.value.base;
                var payload: seq<byte> := Overwrite(reservation.value.contents[HEADER_SIZE..HEADER_SIZE + numBytes], 0,
                                         old(heap[oldBlock][HEADER_SIZE..HEADER_SIZE + kept]));
                && result == block + HEADER_SIZE && block != oldBlock
                && memblocks == Remove(old(memblocks), oldBlock) + [block]
                && heap == (old(heap) - {oldBlock})[block := BlockImage(NewHeader(block, numBytes, fileName, functionName, line, owner), payload)]
                && heap[block][HEADER_SIZE..HEADER_SIZE + kept] == old(heap[oldBlock][HEADER_SIZE..HEADER_SIZE + kept])
                && allocs == Add32(old(allocs), 1) && frees == Add32(old(frees), 1)
                && currentAllocated == Sub32(Add32(old(currentAllocated), numBytes), oldSize)
                && totalAllocated == Add32(old(totalAllocated), numBytes)
                && CheckBlock(oldBlock) == NoMemoryBlock
    {
      if memory == 0 {
        return 0;
      }
      var oldBlock: uint64 := HeaderAddress(memory);
      var status: MemoryError := CheckBlock(oldBlock);
      if status != NoError || reservation.None? {
        return 0;
      }
      var oldSize: uint32 := RequestedSize(heap[oldBlock]);
      var kept: uint32 := if oldSize < numBytes then oldSize else numBytes;
      var saved: seq<byte> := heap[oldBlock][HEADER_SIZE..HEADER_SIZE + kept];
      result := Move(oldBlock, saved, numBytes, fileName, functionName, line, owner, reservation.value);
    }

    /**
     * The successful path of TrackedRealloc: a block is written into the
     * reservation as TrackedAlloc writes it, `saved` is copied to the front
     * of its payload, it is registered, and the old block is released.
     */
    method Move(oldBlock: uint64, saved: seq<byte>, numBytes: uint32, fileName: CString, functionName: CString,
                line: uint32, owner: uint64, r: Reservation) returns (result: uint64)
      requires Valid() && oldBlock in memblocks && |saved| <= numBytes
      requires HEADER_SIZE + numBytes + FOOTER_SIZE < TWO_32
      requires CanPlace(r, HEADER_SIZE + numBytes + FOOTER_SIZE)
      modifies this
      ensures Valid() && (old(Balanced()) ==> Balanced())
      ensures var block: uint64 := r.base;
              && result == block + HEADER_SIZE && block != oldBlock
              && memblocks == Remove(old(memblocks), oldBlock) + [block]
              && heap == (old(heap) - {oldBlock})[block := CopyBlock(NewHeader(block, numBytes, fileName, functionName, line, owner), r.contents, numBytes, saved)]
              && allocs == Add32(old(allocs), 1) && frees == Add32(old(frees), 1)
              && currentAllocated == Sub32(Add32(old(currentAllocated), numBytes), RequestedSize(old(heap)[oldBlock]))
              && totalAllocated == Add32(old(totalAllocated), numBytes)
    {
      var block: uint64 := r.base;
      var header: Header := NewHeader(block, numBytes, fileName, functionName, line, owner);
      ghost var payload: seq<byte> := Overwrite(r.contents[HEADER_SIZE..HEADER_SIZE + numBytes], 0, saved);
      var raw: seq<byte> := CopyBlock(header, r.contents, numBytes, saved);
      NewBlockSound(block, payload, fileName, functionName, line, owner);
      assert Sound(block, raw) && RequestedSize(raw) == numBytes;
      Swap(oldBlock, block, raw);
      result := block + HEADER_SIZE;
    }

    /**
     * A caller storing `data` through the payload pointer `memory`, starting
     * `offset` bytes from the payload start (negative offsets reach back into
     * the header). Nothing but the bytes written changes, and the table
     * stays valid whatever is written; `_current_allocated` stays balanced
     * against the headers as long as the requested_size field is not hit.
     */
    method WriteMemory(memory: uint64, offset: int, data: seq<byte>)
      requires Valid()
      requires HeaderAddress(memory) in heap
      requires 0 <= HEADER_SIZE + offset && HEADER_SIZE + offset + |data| <= |heap[HeaderAddress(memory)]|
      modifies this
      ensures var block: uint64 := HeaderAddress(memory);
              heap == old(heap)[block := Overwrite(old(heap)[block], HEADER_SIZE + offset, data)]
      ensures memblocks == old(memblocks) && allocs == old(allocs) && frees == old(frees)
      ensures currentAllocated == old(currentAllocated) && totalAllocated == old(totalAllocated)
      ensures Valid()
      ensures HEADER_SIZE + offset + |data| <= OFFSET_REQUESTED || OFFSET_REQUESTED + 4 <= HEADER_SIZE + offset
              ==> (old(Balanced()) ==> Balanced())
    {
      var block: uint64 := HeaderAddress(memory);
      var raw: seq<byte> := Overwrite(heap[block], HEADER_SIZE + offset, data);
      if HEADER_SIZE + offset + |data| <= OFFSET_REQUESTED || OFFSET_REQUESTED + 4 <= HEADER_SIZE + offset {
        WriteMissesRequestedSize(heap[block], HEADER_SIZE + offset, data);
      }
      Rewrite(memblocks, heap, currentAllocated, block, raw);
      heap := heap[block := raw];
    }

    /**
     * The content of OutputMemoryInfo's report: the four counters, then one
     * line per block still in the table. Their number is `_allocs - _frees`
     * and, while `_current_allocated` is balanced against the headers, the
     * listed sizes add up to it, both in uint32_t arithmetic.
     */
    function LeakReport(): (r: Report)
      reads this
      requires Valid()
      ensures r.allocs == allocs && r.frees == frees
      ensures r.currentAllocated == currentAllocated && r.totalAllocated == totalAllocated
      ensures |r.leaks| == |memblocks|
      ensures forall i :: 0 <= i < |r.leaks| ==> r.leaks[i].block == memblocks[i]
      ensures Balanced() ==> Wrap32(SumLeaks(r.leaks)) == r.currentAllocated
      ensures Sub32(r.allocs, r.frees) == Wrap32(|r.leaks|)
    {
      SumLeaksOfTable(memblocks, heap);
      Report(allocs, frees, currentAllocated, totalAllocated, Leaks(memblocks, heap))
    }
  }
}
