/**
 * The corruption validator: Allocator::CheckBlock, the single check that
 * TrackedFree, TrackedRealloc and ValidateMemory rely on, as a pure function
 * of the tracking table and the raw blocks.
 */
module Validator {
  import opened Bytes
  import opened Layout

  /** E_MEMORY_ERROR: the only results CheckBlock can give. */
  datatype MemoryError = NoError | NoMemoryBlock | CorruptHeader | CorruptFooter | SizeMismatch

  /** Every tracked header can be read: it heads a raw block at least a header long. */
  predicate Readable(table: seq<uint64>, heap: map<uint64, seq<byte>>)
  {
    forall b :: b in table ==> b in heap && |heap[b]| >= HEADER_SIZE
  }

  /**
   * The footer reference is where the header's requested_size puts it,
   * `requested_size` bytes past the payload start, and the footer found
   * there lies inside the block.
   */
  predicate FooterAt(block: uint64, raw: seq<byte>)
    requires |raw| >= HEADER_SIZE
  {
    FooterRef(raw) == block + HEADER_SIZE + RequestedSize(raw) && HEADER_SIZE + RequestedSize(raw) + FOOTER_SIZE <= |raw|
  }

  /**
   * The status of a tracked block whose raw bytes start at `block`, checked
   * in order: header magic, footer reference, footer magic, and real_size
   * against header+data+footer. The first failure is reported.
   */
  function BlockStatus(block: uint64, raw: seq<byte>): (e: MemoryError)
    requires |raw| >= HEADER_SIZE
    ensures e != NoMemoryBlock
  {
    var f := HEADER_SIZE + RequestedSize(raw);
    if HeaderMagic(raw) != HEADER_MAGIC then CorruptHeader
    else if !FooterAt(block, raw) then CorruptHeader
    else if DecodeU32(raw[f..f + FOOTER_SIZE]) != FOOTER_MAGIC then CorruptFooter
    else if RealSize(raw) != HEADER_SIZE + RequestedSize(raw) + FOOTER_SIZE then SizeMismatch
    else NoError
  }

  /**
   * Allocator::CheckBlock: a header that is not in the tracking table is no
   * memory block of this allocator; a tracked one is checked as above.
   */
  function CheckBlock(table: seq<uint64>, heap: map<uint64, seq<byte>>, block: uint64): (e: MemoryError)
    requires Readable(table, heap)
    ensures e == NoMemoryBlock <==> block !in table
    ensures e == NoError ==> HEADER_SIZE + RequestedSize(heap[block]) + FOOTER_SIZE <= |heap[block]|
  {
    if block !in table then NoMemoryBlock else BlockStatus(block, heap[block])
  }

  /** A block's status depends on whether it is tracked and on its own bytes, nothing else. */
  lemma CheckBlockIsLocal(table: seq<uint64>, heap: map<uint64, seq<byte>>,
                          table': seq<uint64>, heap': map<uint64, seq<byte>>, block: uint64)
    requires Readable(table, heap) && Readable(table', heap')
    requires block in table <==> block in table'
    requires block in table ==> heap[block] == heap'[block]
    ensures CheckBlock(table, heap, block) == CheckBlock(table', heap', block)
  {
  }

  /**
   * A tracked block whose header reads back as the allocator wrote it can
   * only be valid or have a corrupt footer, and it is valid exactly when the
   * footer magic is in place.
   */
  lemma IntactHeaderCheck(table: seq<uint64>, heap: map<uint64, seq<byte>>, block: uint64, h: Header)
    requires Readable(table, heap) && block in table
    requires h.magic == HEADER_MAGIC && h.footer == block + HEADER_SIZE + h.requestedSize
    requires h.realSize == HEADER_SIZE + h.requestedSize + FOOTER_SIZE == |heap[block]|
    requires DecodeHeader(heap[block]) == h
    ensures var e := CheckBlock(table, heap, block);
            && (e == NoError || e == CorruptFooter)
            && (e == NoError <==> heap[block][HEADER_SIZE + h.requestedSize..] == EncodeU32(FOOTER_MAGIC))
  {
    var raw := heap[block];
    var f := HEADER_SIZE + h.requestedSize;
    assert CheckBlock(table, heap, block) == BlockStatus(block, raw);
    assert FooterAt(block, raw);
    assert raw[f..f + FOOTER_SIZE] == raw[f..];
    var m := DecodeU32(raw[f..]);
    U32RoundTrip(FOOTER_MAGIC, raw[f..]);
    assert m == FOOTER_MAGIC <==> raw[f..] == EncodeU32(FOOTER_MAGIC);
  }

  /**
   * A block that CheckBlock passes is whole: it is tracked, its header magic
   * is in place, the footer reference points `requested_size` bytes past the
   * payload start, inside the block, and finds the footer magic there, and
   * real_size is header + requested_size + footer.
   */
  lemma PassedBlockIsWhole(table: seq<uint64>, heap: map<uint64, seq<byte>>, block: uint64)
    requires Readable(table, heap)
    requires CheckBlock(table, heap, block) == NoError
    ensures block in table
    ensures var raw := heap[block];
            var h := DecodeHeader(raw);
            && h.magic == HEADER_MAGIC
            && h.footer == block + HEADER_SIZE + h.requestedSize
            && HEADER_SIZE + h.requestedSize + FOOTER_SIZE <= |raw|
            && raw[h.footer - block..h.footer - block + FOOTER_SIZE] == EncodeU32(FOOTER_MAGIC)
            && h.realSize == HEADER_SIZE + h.requestedSize + FOOTER_SIZE
  {
    var raw := heap[block];
    var f := HEADER_SIZE + RequestedSize(raw);
    U32RoundTrip(FOOTER_MAGIC, raw[f..f + FOOTER_SIZE]);
  }

  /** The precondition shared by the lemmas about a block as TrackedAlloc wrote it. */
  predicate Fresh(table: seq<uint64>, heap: map<uint64, seq<byte>>, block: uint64, payload: seq<byte>,
                  fileName: CString, functionName: CString, line: uint32, owner: uint64)
  {
    && Readable(table, heap) && block in table
    && block + HEADER_SIZE + |payload| + FOOTER_SIZE <= TWO_64
    && HEADER_SIZE + |payload| + FOOTER_SIZE < TWO_32
    && heap[block] == BlockImage(NewHeader(block, |payload|, fileName, functionName, line, owner), payload)
  }

  /** A tracked block as the allocator wrote it passes every check. */
  lemma NewBlockIsValid(table: seq<uint64>, heap: map<uint64, seq<byte>>, block: uint64, payload: seq<byte>,
                        fileName: CString, functionName: CString, line: uint32, owner: uint64)
    requires Fresh(table, heap, block, payload, fileName, functionName, line, owner)
    ensures CheckBlock(table, heap, block) == NoError
  {
    NewBlockLayout(block, payload, fileName, functionName, line, owner);
    var raw := heap[block];
    var f := HEADER_SIZE + |payload|;
    assert raw[f..] == raw[f..f + FOOTER_SIZE];
    IntactHeaderCheck(table, heap, block, DecodeHeader(raw));
  }

  /**
   * The caller writes `data` into a fresh block starting `at` bytes into the
   * payload, possibly running on into the footer. The block stays valid
   * exactly when the footer bytes still hold the footer magic afterwards;
   * otherwise the overrun is reported as a corrupt footer, never as anything
   * else.
   */
  lemma OverrunDetection(table: seq<uint64>, heap: map<uint64, seq<byte>>, block: uint64, payload: seq<byte>,
                         fileName: CString, functionName: CString, line: uint32, owner: uint64,
                         at: nat, data: seq<byte>)
    requires Fresh(table, heap, block, payload, fileName, functionName, line, owner)
    requires at + |data| <= |payload| + FOOTER_SIZE
    ensures var raw := Overwrite(heap[block], HEADER_SIZE + at, data);
            var e := CheckBlock(table, heap[block := raw], block);
            && (e == NoError || e == CorruptFooter)
            && (e == NoError <==> raw[HEADER_SIZE + |payload|..] == EncodeU32(FOOTER_MAGIC))
  {
    var hdr := NewHeader(block, |payload|, fileName, functionName, line, owner);
    WriteAfterHeader(hdr, payload, at, data);
    var raw := Overwrite(heap[block], HEADER_SIZE + at, data);
    IntactHeaderCheck(table, heap[block := raw], block, hdr);
  }

  /** Filling the payload, up to and including its last byte, keeps the block valid. */
  lemma PayloadWriteKeepsBlockValid(table: seq<uint64>, heap: map<uint64, seq<byte>>, block: uint64,
                                    payload: seq<byte>, fileName: CString, functionName: CString,
                                    line: uint32, owner: uint64, at: nat, data: seq<byte>)
    requires Fresh(table, heap, block, payload, fileName, functionName, line, owner)
    requires at + |data| <= |payload|
    ensures CheckBlock(table, heap[block := Overwrite(heap[block], HEADER_SIZE + at, data)], block) == NoError
  {
    OverrunDetection(table, heap, block, payload, fileName, functionName, line, owner, at, data);
    var raw := Overwrite(heap[block], HEADER_SIZE + at, data);
    var f := HEADER_SIZE + |payload|;
    assert raw[f..] == heap[block][f..];
    NewBlockLayout(block, payload, fileName, functionName, line, owner);
  }

  /**
   * Writing requested_size + 1 bytes from the payload start, when the extra
   * byte is not the first byte of the footer magic, is reported as a corrupt
   * footer.
   */
  lemma OneByteOverrunCorruptsFooter(table: seq<uint64>, heap: map<uint64, seq<byte>>, block: uint64,
                                     payload: seq<byte>, fileName: CString, functionName: CString,
                                     line: uint32, owner: uint64, data: seq<byte>)
    requires Fresh(table, heap, block, payload, fileName, functionName, line, owner)
    requires |data| == |payload| + 1 && data[|payload|] != EncodeU32(FOOTER_MAGIC)[0]
    ensures CheckBlock(table, heap[block := Overwrite(heap[block], HEADER_SIZE, data)], block) == CorruptFooter
  {
    OverrunDetection(table, heap, block, payload, fileName, functionName, line, owner, 0, data);
    var raw := Overwrite(heap[block], HEADER_SIZE, data);
    assert raw[HEADER_SIZE + |payload|..][0] == data[|payload|];
  }

  /** A block whose first four bytes are not the header magic has a corrupt header. */
  lemma BadMagicIsCorruptHeader(block: uint64, raw: seq<byte>)
    requires |raw| >= HEADER_SIZE && raw[0..4] != EncodeU32(HEADER_MAGIC)
    ensures BlockStatus(block, raw) == CorruptHeader
  {
    U32RoundTrip(HEADER_MAGIC, raw[0..4]);
  }

  /**
   * The caller writes `data` backwards from the payload start, far enough to
   * reach the header magic, and changes at least one of its bytes: whatever
   * else it overwrote on the way, the tracked block is reported as having a
   * corrupt header.
   */
  lemma UnderrunCorruptsHeader(table: seq<uint64>, heap: map<uint64, seq<byte>>, block: uint64,
                               data: seq<byte>)
    requires Readable(table, heap) && block in table
    requires HEADER_SIZE - 4 < |data| <= HEADER_SIZE
    requires exists i :: HEADER_SIZE - |data| <= i < 4 && data[i - (HEADER_SIZE - |data|)] != EncodeU32(HEADER_MAGIC)[i]
    ensures CheckBlock(table, heap[block := Overwrite(heap[block], HEADER_SIZE - |data|, data)], block) == CorruptHeader
  {
    var raw := Overwrite(heap[block], HEADER_SIZE - |data|, data);
    var i :| HEADER_SIZE - |data| <= i < 4 && data[i - (HEADER_SIZE - |data|)] != EncodeU32(HEADER_MAGIC)[i];
    assert raw[0..4][i] != EncodeU32(HEADER_MAGIC)[i];
    BadMagicIsCorruptHeader(block, raw);
  }
}
