/**
 * The block layout of the tracked allocator: every tracked allocation is one
 * raw block made of a `memblock_header`, the caller's payload and a
 * `memblock_footer`. The header is modelled byte for byte as an x86-64
 * compiler lays it out, so that a stray write from the caller can be followed
 * into the field it lands on.
 *
 *   offset  0  magic           unsigned (4 bytes), then 4 bytes of padding
 *   offset  8  footer          memblock_footer* (8 bytes)
 *   offset 16  owner           const Object* (8 bytes, 0 is nullptr)
 *   offset 24  file            char[MEM_MAX_FILENAME_LENGTH + 1]
 *   offset 56  function        char[MEM_MAX_FUNCTION_LENGTH + 1]
 *   offset 88  line            uint32_t
 *   offset 92  requested_size  uint32_t
 *   offset 96  real_size       uint32_t, then 4 bytes of padding to 104
 */
module Layout {
  import opened Bytes

  const MEM_MAX_FILENAME_LENGTH: nat := 31
  const MEM_MAX_FUNCTION_LENGTH: nat := 31

  const OFFSET_MAGIC: nat := 0
  const OFFSET_FOOTER: nat := 8
  const OFFSET_OWNER: nat := 16
  const OFFSET_FILE: nat := 24
  const OFFSET_FUNCTION: nat := 56
  const OFFSET_LINE: nat := 88
  const OFFSET_REQUESTED: nat := 92
  const OFFSET_REAL: nat := 96

  /** sizeof(memblock_header) and sizeof(memblock_footer) */
  const HEADER_SIZE: nat := 104
  const FOOTER_SIZE: nat := 4

  /** The sentinels; their values are the model's choice. */
  const HEADER_MAGIC: uint32 := 0xBAAD_F00D
  const FOOTER_MAGIC: uint32 := 0xDEAD_C0DE

  /** The fields of a `memblock_header`, as read from or written to memory. */
  datatype Header = Header(
    magic: uint32,
    footer: uint64,
    owner: uint64,
    fileName: CString,
    functionName: CString,
    line: uint32,
    requestedSize: uint32,
    realSize: uint32)

  /** The names fit their buffers together with their NUL terminators. */
  predicate WellFormed(h: Header)
  {
    |h.fileName| <= MEM_MAX_FILENAME_LENGTH && |h.functionName| <= MEM_MAX_FUNCTION_LENGTH
  }

  /** The HEADER_SIZE bytes a header occupies in memory. */
  function EncodeHeader(h: Header): (r: seq<byte>)
    requires WellFormed(h)
    ensures |r| == HEADER_SIZE
  {
    EncodeU32(h.magic) + Zeros(4) + EncodeU64(h.footer) + EncodeU64(h.owner)
    + NameBuffer(h.fileName, MEM_MAX_FILENAME_LENGTH + 1)
    + NameBuffer(h.functionName, MEM_MAX_FUNCTION_LENGTH + 1)
    + EncodeU32(h.line) + EncodeU32(h.requestedSize) + EncodeU32(h.realSize) + Zeros(4)
  }

  /** The magic field of a raw block. */
  function HeaderMagic(raw: seq<byte>): uint32
    requires |raw| >= HEADER_SIZE
  {
    DecodeU32(raw[OFFSET_MAGIC..OFFSET_MAGIC + 4])
  }

  /** The footer field of a raw block: the address the header says its footer is at. */
  function FooterRef(raw: seq<byte>): uint64
    requires |raw| >= HEADER_SIZE
  {
    DecodeU64(raw[OFFSET_FOOTER..OFFSET_FOOTER + 8])
  }

  /** The requested_size field of a raw block. */
  function RequestedSize(raw: seq<byte>): uint32
    requires |raw| >= HEADER_SIZE
  {
    DecodeU32(raw[OFFSET_REQUESTED..OFFSET_REQUESTED + 4])
  }

  /** The real_size field of a raw block. */
  function RealSize(raw: seq<byte>): uint32
    requires |raw| >= HEADER_SIZE
  {
    DecodeU32(raw[OFFSET_REAL..OFFSET_REAL + 4])
  }

  /** All header fields read from the front of a raw block. */
  function DecodeHeader(raw: seq<byte>): (h: Header)
    requires |raw| >= HEADER_SIZE
  {
    Header(
      HeaderMagic(raw),
      FooterRef(raw),
      DecodeU64(raw[OFFSET_OWNER..OFFSET_OWNER + 8]),
      CStringIn(raw[OFFSET_FILE..OFFSET_FILE + MEM_MAX_FILENAME_LENGTH + 1]),
      CStringIn(raw[OFFSET_FUNCTION..OFFSET_FUNCTION + MEM_MAX_FUNCTION_LENGTH + 1]),
      DecodeU32(raw[OFFSET_LINE..OFFSET_LINE + 4]),
      RequestedSize(raw),
      RealSize(raw))
  }

  /** A write that misses the requested_size field leaves it as it was. */
  lemma WriteMissesRequestedSize(raw: seq<byte>, at: nat, data: seq<byte>)
    requires |raw| >= HEADER_SIZE && at + |data| <= |raw|
    requires at + |data| <= OFFSET_REQUESTED || OFFSET_REQUESTED + 4 <= at
    ensures RequestedSize(Overwrite(raw, at, data)) == RequestedSize(raw)
  {
    assert Overwrite(raw, at, data)[OFFSET_REQUESTED..OFFSET_REQUESTED + 4] == raw[OFFSET_REQUESTED..OFFSET_REQUESTED + 4];
  }

  /** Decoding looks at the header bytes only, never at the payload or footer. */
  lemma DecodeHeaderReadsHeaderOnly(a: seq<byte>, b: seq<byte>)
    requires |a| >= HEADER_SIZE && |b| >= HEADER_SIZE
    requires a[..HEADER_SIZE] == b[..HEADER_SIZE]
    ensures DecodeHeader(a) == DecodeHeader(b)
  {
    forall i, j | 0 <= i <= j <= HEADER_SIZE
      ensures a[i..j] == b[i..j]
    {
      assert forall k :: i <= k < j ==> a[k] == a[..HEADER_SIZE][k] == b[..HEADER_SIZE][k] == b[k];
    }
  }

  /** Whatever follows the header, every field written is read back unchanged. */
  lemma DecodeEncodeHeader(h: Header, rest: seq<byte>)
    requires WellFormed(h)
    ensures DecodeHeader(EncodeHeader(h) + rest) == h
  {
    var raw := EncodeHeader(h) + rest;
    var file := NameBuffer(h.fileName, MEM_MAX_FILENAME_LENGTH + 1);
    var func := NameBuffer(h.functionName, MEM_MAX_FUNCTION_LENGTH + 1);
    assert raw[0..4] == EncodeU32(h.magic);
    assert raw[8..16] == EncodeU64(h.footer);
    assert raw[16..24] == EncodeU64(h.owner);
    assert raw[24..56] == file;
    assert raw[56..88] == func;
    assert raw[88..92] == EncodeU32(h.line);
    assert raw[92..96] == EncodeU32(h.requestedSize);
    assert raw[96..100] == EncodeU32(h.realSize);
    U32RoundTrip(h.magic, raw[0..4]);
    U64RoundTrip(h.footer, raw[8..16]);
    U64RoundTrip(h.owner, raw[16..24]);
    U32RoundTrip(h.line, raw[88..92]);
    U32RoundTrip(h.requestedSize, raw[92..96]);
    U32RoundTrip(h.realSize, raw[96..100]);
    CStringInNameBuffer(h.fileName, MEM_MAX_FILENAME_LENGTH + 1);
    CStringInNameBuffer(h.functionName, MEM_MAX_FUNCTION_LENGTH + 1);
  }

  /**
   * The header TrackedAlloc writes for a block at address `block` holding
   * `size` payload bytes: the footer follows the payload, the call-site
   * names are truncated to their buffers, and the real size counts
   * header, data and footer.
   */
  function NewHeader(block: uint64, size: uint32, fileName: CString, functionName: CString,
                     line: uint32, owner: uint64): (h: Header)
    requires block + HEADER_SIZE + size + FOOTER_SIZE <= TWO_64
    requires HEADER_SIZE + size + FOOTER_SIZE < TWO_32
    ensures WellFormed(h)
  {
    Header(HEADER_MAGIC, block + HEADER_SIZE + size, owner,
           Truncate(fileName, MEM_MAX_FILENAME_LENGTH), Truncate(functionName, MEM_MAX_FUNCTION_LENGTH),
           line, size, HEADER_SIZE + size + FOOTER_SIZE)
  }

  /** A whole raw block: header, payload, footer. */
  function BlockImage(h: Header, payload: seq<byte>): (raw: seq<byte>)
    requires WellFormed(h)
    ensures |raw| == HEADER_SIZE + |payload| + FOOTER_SIZE
  {
    EncodeHeader(h) + payload + EncodeU32(FOOTER_MAGIC)
  }

  /**
   * A write that starts inside the payload leaves the header as it was, and
   * what ends up where the footer was is what the write left there.
   */
  lemma WriteAfterHeader(h: Header, payload: seq<byte>, at: nat, data: seq<byte>)
    requires WellFormed(h) && at + |data| <= |payload| + FOOTER_SIZE
    ensures var raw := Overwrite(BlockImage(h, payload), HEADER_SIZE + at, data);
            && DecodeHeader(raw) == h
            && raw[HEADER_SIZE + |payload|..] == Overwrite(payload + EncodeU32(FOOTER_MAGIC), at, data)[|payload|..]
  {
    var header := EncodeHeader(h);
    var tail := payload + EncodeU32(FOOTER_MAGIC);
    var rest := Overwrite(tail, at, data);
    assert BlockImage(h, payload) == header + tail;
    OverwriteAfter(header, tail, HEADER_SIZE + at, data);
    DecodeEncodeHeader(h, rest);
    SliceAfter(header, rest, HEADER_SIZE + |payload|);
  }

  /** A write that stays inside the payload changes the payload and nothing else. */
  lemma WriteIntoPayload(h: Header, payload: seq<byte>, at: nat, data: seq<byte>)
    requires WellFormed(h) && at + |data| <= |payload|
    ensures Overwrite(BlockImage(h, payload), HEADER_SIZE + at, data) == BlockImage(h, Overwrite(payload, at, data))
  {
    var footer := EncodeU32(FOOTER_MAGIC);
    assert BlockImage(h, payload) == EncodeHeader(h) + (payload + footer);
    OverwriteAfter(EncodeHeader(h), payload + footer, HEADER_SIZE + at, data);
    OverwriteBefore(payload, footer, at, data);
  }

  /**
   * Writing the header over the front of a reserved raw block and the footer
   * magic right after `size` payload bytes gives the block image; the
   * payload keeps whatever bytes the reservation held.
   */
  lemma WriteHeaderAndFooter(h: Header, contents: seq<byte>, size: nat)
    requires WellFormed(h) && |contents| == HEADER_SIZE + size + FOOTER_SIZE
    ensures Overwrite(Overwrite(contents, 0, EncodeHeader(h)), HEADER_SIZE + size, EncodeU32(FOOTER_MAGIC))
            == BlockImage(h, contents[HEADER_SIZE..HEADER_SIZE + size])
  {
    var a := Overwrite(contents, 0, EncodeHeader(h));
    var b := Overwrite(a, HEADER_SIZE + size, EncodeU32(FOOTER_MAGIC));
    var c := BlockImage(h, contents[HEADER_SIZE..HEADER_SIZE + size]);
    assert forall i :: 0 <= i < |b| ==> b[i] == c[i];
  }

  /**
   * The bytes TrackedAlloc leaves in a reserved raw block: the header over
   * its front and the footer magic right after `size` payload bytes.
   */
  function WriteBlock(h: Header, contents: seq<byte>, size: nat): (raw: seq<byte>)
    requires WellFormed(h) && |contents| == HEADER_SIZE + size + FOOTER_SIZE
    ensures raw == BlockImage(h, contents[HEADER_SIZE..HEADER_SIZE + size])
  {
    WriteHeaderAndFooter(h, contents, size);
    Overwrite(Overwrite(contents, 0, EncodeHeader(h)), HEADER_SIZE + size, EncodeU32(FOOTER_MAGIC))
  }

  /**
   * The bytes TrackedRealloc leaves in a reserved raw block: the block as
   * TrackedAlloc writes it, with `saved` copied to the start of the payload.
   */
  function CopyBlock(h: Header, contents: seq<byte>, size: nat, saved: seq<byte>): (raw: seq<byte>)
    requires WellFormed(h) && |contents| == HEADER_SIZE + size + FOOTER_SIZE && |saved| <= size
    ensures raw == BlockImage(h, Overwrite(contents[HEADER_SIZE..HEADER_SIZE + size], 0, saved))
    ensures raw[HEADER_SIZE..HEADER_SIZE + |saved|] == saved
  {
    WriteIntoPayload(h, contents[HEADER_SIZE..HEADER_SIZE + size], 0, saved);
    Overwrite(WriteBlock(h, contents, size), HEADER_SIZE, saved)
  }

  /**
   * The layout of a freshly written block, read back from its bytes: the
   * real size is header+data+footer and is the length of the block, the
   * footer reference points exactly `size` bytes past the payload start and
   * finds the footer magic there, and the names are the call-site names cut
   * to at most 31 characters.
   */
  lemma NewBlockLayout(block: uint64, payload: seq<byte>, fileName: CString, functionName: CString,
                       line: uint32, owner: uint64)
    requires block + HEADER_SIZE + |payload| + FOOTER_SIZE <= TWO_64
    requires HEADER_SIZE + |payload| + FOOTER_SIZE < TWO_32
    ensures var raw := BlockImage(NewHeader(block, |payload|, fileName, functionName, line, owner), payload);
            var h := DecodeHeader(raw);
            && h.magic == HEADER_MAGIC
            && h.requestedSize == |payload|
            && h.realSize == HEADER_SIZE + h.requestedSize + FOOTER_SIZE == |raw|
            && h.footer == block + HEADER_SIZE + h.requestedSize
            && raw[h.footer - block..h.footer - block + FOOTER_SIZE] == EncodeU32(FOOTER_MAGIC)
            && raw[HEADER_SIZE..HEADER_SIZE + |payload|] == payload
            && h.owner == owner && h.line == line
            && h.fileName == Truncate(fileName, MEM_MAX_FILENAME_LENGTH)
            && h.functionName == Truncate(functionName, MEM_MAX_FUNCTION_LENGTH)
            && |h.fileName| <= MEM_MAX_FILENAME_LENGTH && |h.functionName| <= MEM_MAX_FUNCTION_LENGTH
  {
    var hdr := NewHeader(block, |payload|, fileName, functionName, line, owner);
    DecodeEncodeHeader(hdr, payload + EncodeU32(FOOTER_MAGIC));
    var raw := BlockImage(hdr, payload);
    assert raw == EncodeHeader(hdr) + (payload + EncodeU32(FOOTER_MAGIC));
  }
}
