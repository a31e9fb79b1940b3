/**
 * The bookkeeping the allocator keeps beside its blocks: the tracking table
 * (`_memblocks`) and the four uint32_t counters. This module states, on plain
 * values, what it means for them to agree with the blocks in memory, proves
 * that each kind of update the allocator makes keeps that agreement, and
 * defines the content of the leak report.
 */
module Accounting {
  import opened Bytes
  import opened Layout
  import opened Validator
  import opened Tracking

  /** A raw block that lies inside the address space and is long enough to hold a header. */
  predicate Placed(block: uint64, raw: seq<byte>)
  {
    |raw| >= HEADER_SIZE && block + |raw| <= TWO_64
  }

  /** A raw block exactly as long as its own header's requested_size says: header, payload, footer. */
  predicate Sized(raw: seq<byte>)
  {
    |raw| >= HEADER_SIZE && |raw| == HEADER_SIZE + RequestedSize(raw) + FOOTER_SIZE
  }

  /** A block as the allocator writes it: placed, and sized by its own header. */
  predicate Sound(block: uint64, raw: seq<byte>)
  {
    Placed(block, raw) && Sized(raw)
  }

  /**
   * The tracking table and the blocks agree: every live block is listed
   * once, nothing else is, and every block fits in the address space. Only
   * the allocator changes the table and the lengths of the blocks, so no
   * write into a block can break this.
   */
  ghost predicate Accounted(table: seq<uint64>, heap: map<uint64, seq<byte>>)
  {
    && Distinct(table)
    && (forall b :: b in heap <==> b in table)
    && (forall b :: b in heap ==> Placed(b, heap[b]))
    && Readable(table, heap)
  }

  /** The uint32_t difference `allocs - frees` is the number of listed blocks. */
  predicate Counted(table: seq<uint64>, allocs: uint32, frees: uint32)
  {
    Sub32(allocs, frees) == Wrap32(|table|)
  }

  /**
   * The byte total agrees with the headers: every listed block is as long
   * as its requested_size says, and `current` is the sum of those sizes in
   * uint32_t arithmetic. This reads header bytes that a stray write through
   * a payload pointer can overwrite; every update the allocator itself
   * makes keeps it whenever it holds.
   */
  ghost predicate Balanced(table: seq<uint64>, heap: map<uint64, seq<byte>>, current: uint32)
  {
    && Readable(table, heap)
    && (forall b :: b in table ==> Sized(heap[b]))
    && current == Wrap32(SumRequested(table, heap))
  }

  /** One more allocation: the uint32_t difference `allocs - frees` follows a table one longer. */
  lemma CountAlloc(allocs: uint32, frees: uint32, n: int)
    requires Sub32(allocs, frees) == Wrap32(n)
    ensures Sub32(Add32(allocs, 1), frees) == Wrap32(n + 1)
  {
    Sub32Wraps(allocs, frees);
    Add32Wraps(allocs, 1);
    Sub32Wraps(Add32(allocs, 1), frees);
    Wrap32Add(allocs + 1, -(frees as int));
    Wrap32Add(allocs - frees, 1);
    Wrap32Add(n, 1);
  }

  /** One more free: the uint32_t difference `allocs - frees` follows a table one shorter. */
  lemma CountFree(allocs: uint32, frees: uint32, n: int)
    requires Sub32(allocs, frees) == Wrap32(n)
    ensures Sub32(allocs, Add32(frees, 1)) == Wrap32(n - 1)
  {
    Sub32Wraps(allocs, frees);
    Add32Wraps(frees, 1);
    Sub32Wraps(allocs, Add32(frees, 1));
    Wrap32Sub(allocs, frees + 1);
    Wrap32Add(allocs - frees, -1);
    Wrap32Add(n, -1);
  }

  /** Taking `size` off a counter that holds the wrapped value of `sum` leaves the wrapped value of the rest. */
  lemma TakeOff(current: uint32, sum: int, size: uint32, rest: int)
    requires current == Wrap32(sum) && rest == sum - size
    ensures Sub32(current, size) == Wrap32(rest)
  {
    Sub32Wraps(current, size);
    Wrap32Step(current, sum, -(size as int));
  }

  /** A block as TrackedAlloc writes it is one the bookkeeping can account for. */
  lemma NewBlockSound(block: uint64, payload: seq<byte>, fileName: CString, functionName: CString,
                      line: uint32, owner: uint64)
    requires block + HEADER_SIZE + |payload| + FOOTER_SIZE <= TWO_64
    requires HEADER_SIZE + |payload| + FOOTER_SIZE < TWO_32
    ensures var raw := BlockImage(NewHeader(block, |payload|, fileName, functionName, line, owner), payload);
            Sound(block, raw) && RequestedSize(raw) == |payload|
  {
    var raw := BlockImage(NewHeader(block, |payload|, fileName, functionName, line, owner), payload);
    NewBlockLayout(block, payload, fileName, functionName, line, owner);
  }

  /** Pushing a new, placed block keeps the table and the blocks in agreement and adds its size to the sum. */
  lemma AccountedPush(table: seq<uint64>, heap: map<uint64, seq<byte>>, block: uint64, raw: seq<byte>)
    requires Accounted(table, heap) && block !in heap && Placed(block, raw)
    ensures Accounted(table + [block], heap[block := raw])
    ensures SumRequested(table + [block], heap[block := raw]) == SumRequested(table, heap) + RequestedSize(raw)
  {
    var table', heap' := table + [block], heap[block := raw];
    DistinctAppend(table, block);
    assert forall b :: b in heap' <==> b in table';
    assert forall b :: b in heap' ==> Placed(b, heap'[b]);
    assert Readable(table', heap');
    SumRequestedFrame(table, heap, heap');
    SumRequestedAppend(table, heap', block);
  }

  /** Erasing a tracked block keeps the table and the blocks in agreement and takes its size off the sum. */
  lemma AccountedErase(table: seq<uint64>, heap: map<uint64, seq<byte>>, block: uint64)
    requires Accounted(table, heap) && block in table
    ensures Accounted(Remove(table, block), heap - {block})
    ensures SumRequested(Remove(table, block), heap - {block}) + RequestedSize(heap[block]) == SumRequested(table, heap)
  {
    var table', heap' := Remove(table, block), heap - {block};
    assert forall b :: b in heap' <==> b in table';
    assert Readable(table', heap');
    SumRequestedRemove(table, heap, block);
    SumRequestedFrame(table', heap, heap');
  }

  /**
   * Overwriting a block's bytes with as many bytes keeps the table and the
   * blocks in agreement, and keeps the sum when requested_size is kept.
   */
  lemma AccountedOverwrite(table: seq<uint64>, heap: map<uint64, seq<byte>>, block: uint64, raw: seq<byte>)
    requires Accounted(table, heap) && block in heap && |raw| == |heap[block]|
    ensures Accounted(table, heap[block := raw])
    ensures RequestedSize(raw) == RequestedSize(heap[block]) ==>
            SumRequested(table, heap[block := raw]) == SumRequested(table, heap)
  {
    var heap' := heap[block := raw];
    assert forall b :: b in heap' <==> b in table;
    assert Readable(table, heap');
    assert forall b :: b in heap' ==> Placed(b, heap'[b]);
    if RequestedSize(raw) == RequestedSize(heap[block]) {
      SumRequestedFrame(table, heap, heap');
    }
  }

  /**
   * A change to the table and the blocks that keeps the blocks of `keep`
   * tracked and their bytes as they were leaves their CheckBlock verdicts
   * as they were.
   */
  lemma VerdictsKept(table: seq<uint64>, heap: map<uint64, seq<byte>>, table': seq<uint64>,
                     heap': map<uint64, seq<byte>>, keep: seq<uint64>)
    requires Readable(table, heap) && Readable(table', heap')
    requires forall b :: b in keep ==> b in table && b in table' && heap'[b] == heap[b]
    ensures forall b :: b in keep ==> Validator.CheckBlock(table', heap', b) == Validator.CheckBlock(table, heap, b)
  {
    forall b | b in keep
      ensures Validator.CheckBlock(table', heap', b) == Validator.CheckBlock(table, heap, b)
    {
      CheckBlockIsLocal(table', heap', table, heap, b);
    }
  }

  /**
   * Registering a new block (a push_back on the table, one more allocation)
   * keeps the table, the blocks and the allocation count in agreement, and
   * keeps the byte total balanced once the block's requested size is added
   * to it.
   */
  lemma Register(table: seq<uint64>, heap: map<uint64, seq<byte>>, allocs: uint32, frees: uint32, current: uint32,
                 block: uint64, raw: seq<byte>)
    requires Accounted(table, heap) && Counted(table, allocs, frees)
    requires block !in heap && Placed(block, raw)
    ensures Accounted(table + [block], heap[block := raw]) && Counted(table + [block], Add32(allocs, 1), frees)
    ensures Balanced(table, heap, current) && Sized(raw) ==>
            Balanced(table + [block], heap[block := raw], Add32(current, RequestedSize(raw)))
  {
    AccountedPush(table, heap, block, raw);
    CountAlloc(allocs, frees, |table|);
    if Balanced(table, heap, current) && Sized(raw) {
      var table', heap' := table + [block], heap[block := raw];
      assert forall b :: b in table' ==> Sized(heap'[b]);
      Add32Wraps(current, RequestedSize(raw));
      Wrap32Step(current, SumRequested(table, heap), RequestedSize(raw));
    }
  }

  /**
   * Erasing a tracked block from the table and releasing it (one more free)
   * keeps the table, the blocks and the free count in agreement, and keeps
   * the byte total balanced once the block's requested size is taken off it.
   */
  lemma Release(table: seq<uint64>, heap: map<uint64, seq<byte>>, allocs: uint32, frees: uint32, current: uint32,
                block: uint64)
    requires Accounted(table, heap) && Counted(table, allocs, frees) && block in table
    ensures Accounted(Remove(table, block), heap - {block}) && Counted(Remove(table, block), allocs, Add32(frees, 1))
    ensures Balanced(table, heap, current) ==>
            Balanced(Remove(table, block), heap - {block}, Sub32(current, RequestedSize(heap[block])))
  {
    AccountedErase(table, heap, block);
    CountFree(allocs, frees, |table|);
    if Balanced(table, heap, current) {
      var table', heap' := Remove(table, block), heap - {block};
      assert forall b :: b in table' ==> Sized(heap'[b]);
      TakeOff(current, SumRequested(table, heap), RequestedSize(heap[block]), SumRequested(table', heap'));
    }
  }

  /**
   * Registering a new block and then erasing an older one (one allocation
   * and one free, as TrackedRealloc does) keeps the table, the blocks and
   * the counts in agreement, the new block ending the table, and keeps the
   * byte total balanced once it moves by the difference of the two
   * requested sizes.
   */
  lemma Replace(table: seq<uint64>, heap: map<uint64, seq<byte>>, allocs: uint32, frees: uint32, current: uint32,
                gone: uint64, block: uint64, raw: seq<byte>)
    requires Accounted(table, heap) && Counted(table, allocs, frees) && gone in table
    requires block !in heap && Placed(block, raw)
    ensures Accounted(Remove(table, gone) + [block], (heap - {gone})[block := raw])
    ensures Counted(Remove(table, gone) + [block], Add32(allocs, 1), Add32(frees, 1))
    ensures Balanced(table, heap, current) && Sized(raw) ==>
            Balanced(Remove(table, gone) + [block], (heap - {gone})[block := raw],
                     Sub32(Add32(current, RequestedSize(raw)), RequestedSize(heap[gone])))
  {
    Register(table, heap, allocs, frees, current, block, raw);
    assert block != gone;
    Release(table + [block], heap[block := raw], Add32(allocs, 1), frees, Add32(current, RequestedSize(raw)), gone);
    RemoveAppend(table, gone, block);
    EraseAfterStore(heap, block, raw, gone);
  }

  /**
   * Replacing a block's bytes with as many bytes keeps the table and the
   * blocks in agreement, and keeps the byte total balanced when the new
   * bytes carry the same requested_size.
   */
  lemma Rewrite(table: seq<uint64>, heap: map<uint64, seq<byte>>, current: uint32, block: uint64, raw: seq<byte>)
    requires Accounted(table, heap) && block in heap && |raw| == |heap[block]|
    ensures Accounted(table, heap[block := raw])
    ensures Balanced(table, heap, current) && RequestedSize(raw) == RequestedSize(heap[block]) ==>
            Balanced(table, heap[block := raw], current)
  {
    AccountedOverwrite(table, heap, block, raw);
    if Balanced(table, heap, current) && RequestedSize(raw) == RequestedSize(heap[block]) {
      var heap' := heap[block := raw];
      assert forall b :: b in table ==> Sized(heap'[b]);
    }
  }

  /**
   * Allocating a block and freeing it again gives back the table, the
   * blocks and `_current_allocated` as they were; only `_allocs` and
   * `_frees` have each grown by one.
   */
  lemma AllocThenFree(table: seq<uint64>, heap: map<uint64, seq<byte>>, allocs: uint32, frees: uint32,
                      current: uint32, block: uint64, raw: seq<byte>)
    requires Accounted(table, heap) && block !in heap && Placed(block, raw)
    ensures Remove(table + [block], block) == table
    ensures heap[block := raw] - {block} == heap
    ensures Sub32(Add32(current, RequestedSize(raw)), RequestedSize(raw)) == current
    ensures Sub32(Add32(allocs, 1), Add32(frees, 1)) == Sub32(allocs, frees)
  {
    RemoveLast(table, block);
    assert heap[block := raw] - {block} == heap;
  }

  /** One unfreed block, as the leak report lists it. */
  datatype Leak = Leak(block: uint64, requestedSize: uint32, fileName: CString, functionName: CString,
                       line: uint32, owner: uint64)

  /** What OutputMemoryInfo writes when the allocator is destroyed. */
  datatype Report = Report(allocs: uint32, frees: uint32, currentAllocated: uint32, totalAllocated: uint32,
                           leaks: seq<Leak>)

  function LeakOf(block: uint64, raw: seq<byte>): Leak
    requires |raw| >= HEADER_SIZE
  {
    var h := DecodeHeader(raw);
    Leak(block, h.requestedSize, h.fileName, h.functionName, h.line, h.owner)
  }

  /** The report lines for the listed headers, in table order. */
  function Leaks(s: seq<uint64>, heap: map<uint64, seq<byte>>): (r: seq<Leak>)
    requires Readable(s, heap)
    ensures |r| == |s|
    ensures forall i :: 0 <= i < |s| ==> r[i] == LeakOf(s[i], heap[s[i]])
  {
    if s == [] then [] else [LeakOf(s[0], heap[s[0]])] + Leaks(s[1..], heap)
  }

  function SumLeaks(leaks: seq<Leak>): nat
  {
    if leaks == [] then 0 else leaks[0].requestedSize + SumLeaks(leaks[1..])
  }

  /** The sizes the report lists add up to the sizes the table accounts for. */
  lemma {:induction false} SumLeaksOfTable(s: seq<uint64>, heap: map<uint64, seq<byte>>)
    requires Readable(s, heap)
    ensures SumLeaks(Leaks(s, heap)) == SumRequested(s, heap)
  {
    if s != [] {
      assert Leaks(s, heap)[1..] == Leaks(s[1..], heap);
      SumLeaksOfTable(s[1..], heap);
    }
  }
}
