# Tracked allocator of memmgr-cpp, modelled in Dafny

memmgr-cpp wraps every allocation in a `memblock_header` and a `memblock_footer`. The header holds a magic number, a pointer to the footer, the owner, the call-site file and function names, the line, `requested_size` and `real_size`. The footer holds a second magic number. Class `Allocator` keeps every live header in the vector `_memblocks`. It counts `_allocs`, `_frees`, `_current_allocated` and `_total_allocated` as `uint32_t`. `CheckBlock` detects corruption, and the same check drives `TrackedFree`, `TrackedRealloc` and `ValidateMemory`.

The model follows the layout byte by byte, so that a caller's stray write can be followed into the field it lands on:

- `Bytes` holds the fixed-width integers, little-endian encoding, C strings in fixed-size buffers and `uint32_t` wrap-around.
- `Layout` lays out the header on x86-64 (104 bytes) and the 4-byte footer. It encodes and decodes a header, and builds the bytes `TrackedAlloc` and `TrackedRealloc` write into a fresh block.
- `Validator` holds `CheckBlock` as a pure function of the tracking table and the raw blocks, and the lemmas about overruns and underruns.
- `Tracking` holds the tracking table as a sequence of header addresses: its erase, and the sum of the requested sizes it accounts for.
- `Accounting` holds the agreement between the table, the counters and the blocks, in two parts:
  - `Accounted` and `Counted` cover what only the allocator changes: each live block listed once and nothing else, every block inside the address space, and `_allocs - _frees` equal to the table length.
  - `Balanced` covers what also depends on header bytes a caller can overwrite: every block as long as its `requested_size` says, and `_current_allocated` equal to the sum of those sizes.

  The module shows that every update the allocator makes keeps the first part always and the second whenever it held. It also gives the content of the leak report.
- `TrackedAllocator` holds class `Allocator`. Its fields are the four counters, `_memblocks` and the raw blocks (a map from header address to bytes). `TrackedAlloc`, `TrackedFree` and `TrackedRealloc` are methods that update these fields. `CheckBlock` and `ValidateMemory` are read-only functions. `Valid()` is the allocator-owned part of the agreement. Every method, including a caller's stray write (`WriteMemory`), keeps it, so the allocator stays usable after any corruption. `Balanced()` is the second part, kept by every method whenever it held before.
- `Scenarios` holds short client programs that drive one allocator through an allocation and a free, an underrun and an overrun, stating what each call reports.

`src/Allocator.h` declares these members but holds none of their bodies, and the source file that defines them is not part of this model. The modelled behaviour is the documented one. The choices the declarations leave open are:

- **Order of checks in `CheckBlock`:**
  1. Is the header in `_memblocks`? If not: `EC_NoMemoryBlock`.
  2. Is the header magic intact? If not: `EC_CorruptHeader`.
  3. Is the footer pointer exactly the header address + 104 + `requested_size`, with the 4 footer bytes inside the block? If not: `EC_CorruptHeader`, because the footer pointer and `requested_size` are both header fields, and a footer pointer that disagrees with them is header corruption.
  4. Is the footer magic intact? If not: `EC_CorruptFooter`.
  5. Is `real_size == header + requested_size + footer`? If not: `EC_SizeMismatch`.
- **A corrupt or untracked block passed to `TrackedFree`** stays tracked and untouched. The source's `TrackedFree` returns `void` and its doc comment says nothing about the outcome. Returning the `CheckBlock` verdict as an extra result is the model's choice, made so that callers can state what happened.
- **`TrackedRealloc` refuses** a null pointer, a block that `CheckBlock` does not pass, or a failed reservation. It returns `nullptr` (0) and changes nothing, so the old block stays tracked and intact.
- **A successful `TrackedRealloc`** allocates a new block and copies the first min(old, new) payload bytes into it. It then erases the old block from the table and releases it. `_allocs`, `_frees` and `_total_allocated` move as for one allocation and one free.
- **Counters** wrap modulo 2^32, as `uint32_t` does. A request must satisfy header + `num_bytes` + footer < 2^32.

## Model

| member | source | states |
|---|---|---|
| `Bytes.Truncate` | src/Allocator.h:91-97 | A stored name is a prefix of the call-site name with at most 31 characters. It is the whole name when that fits and exactly 31 characters when it does not. |
| `Bytes.CStringInNameBuffer` | src/Allocator.h:95-97 | A name stored NUL-padded in its char buffer reads back as exactly that name: nothing is lost and nothing spills in. |
| `Bytes.U32RoundTrip` | src/Allocator.h:98-103 | A `uint32_t` field stored little-endian and loaded again is the same value; four bytes loaded and stored again are the same bytes. |
| `Bytes.U64RoundTrip` | src/Allocator.h:84-89 | The same round trip for the 64-bit pointer fields `footer` and `owner`. |
| `Bytes.Add32Wraps` | src/Allocator.h:154-157 | `uint32_t` addition on the counters is addition modulo 2^32. |
| `Bytes.Sub32Wraps` | src/Allocator.h:154-157 | `uint32_t` subtraction on the counters is subtraction modulo 2^32. |
| `Layout.NewHeader` | src/Allocator.h:75-104 | The header written for a new block has names that fit their 32-byte buffers with their NUL terminators. |
| `Layout.BlockImage` | src/Allocator.h:100-103 | A raw block is exactly header + requested size + footer bytes long. |
| `Layout.DecodeEncodeHeader` | src/Allocator.h:75-104 | Every header field written into memory reads back unchanged, whatever follows the header. |
| `Layout.DecodeHeaderReadsHeaderOnly` | src/Allocator.h:75-104 | Reading the header looks only at its own bytes, never at the payload or the footer. |
| `Layout.WriteMissesRequestedSize` | src/Allocator.h:100-101 | A write that does not touch the `requested_size` bytes leaves that field as it was. |
| `Layout.WriteAfterHeader` | src/Allocator.h:54-66 | A write starting in the payload, even one running on into the footer, leaves the whole header as written; the footer bytes then hold what the write left there. |
| `Layout.WriteIntoPayload` | src/Allocator.h:54-66 | A write that stays within the payload changes the payload only; the header and the footer magic stay. |
| `Layout.WriteBlock` | src/Allocator.h:209-218 | Writing the header over the front of the reserved bytes and the footer magic after `num_bytes` payload bytes gives header, untouched payload and footer. |
| `Layout.CopyBlock` | src/Allocator.h:229-249 | The block written by a reallocation is a fresh block whose payload begins with the copied bytes, the rest of the payload being as reserved. |
| `Layout.NewBlockLayout` | src/Allocator.h:84-103 | Read back from the bytes of a new block: the header magic is set; `real_size` is header + data + footer and equals the block length; the footer pointer lies exactly `requested_size` bytes past the payload start and finds the footer magic; owner and line are as given; the names are the call-site names truncated to at most 31 characters. |
| `Validator.BlockStatus` | src/Allocator.h:113-120 | The checks of a tracked block never answer `EC_NoMemoryBlock`; that code is kept for untracked headers. |
| `Validator.CheckBlock` | src/Allocator.h:191-206 | `CheckBlock` answers `EC_NoMemoryBlock` exactly when the header is not in `_memblocks`. A block it passes has room for header, `requested_size` payload bytes and footer. |
| `Validator.CheckBlockIsLocal` | src/Allocator.h:191-206 | A block's verdict depends only on whether it is tracked and on its own bytes. |
| `Validator.IntactHeaderCheck` | src/Allocator.h:191-206 | A tracked block whose header reads back as written can only be valid or have a corrupt footer. It is valid exactly when the footer holds the footer magic. |
| `Validator.NewBlockIsValid` | src/Allocator.h:191-218 | A block as `TrackedAlloc` wrote it passes every check (`EC_NoError`). |
| `Validator.OverrunDetection` | src/Allocator.h:54-66 | Any write starting in the payload of a fresh block leaves it valid or reports `EC_CorruptFooter`, nothing else. It is valid exactly when the footer magic survived. |
| `Validator.PayloadWriteKeepsBlockValid` | src/Allocator.h:54-66 | Filling the payload, up to and including its last byte, keeps the block valid. |
| `Validator.OneByteOverrunCorruptsFooter` | src/Allocator.h:54-66 | Writing `requested_size + 1` bytes from the payload start, when the extra byte differs from the first footer magic byte, is reported as `EC_CorruptFooter`. |
| `Validator.PassedBlockIsWhole` | src/Allocator.h:191-206 | A block that `CheckBlock` passes is tracked and has its header magic. Its footer pointer lies exactly `requested_size` bytes past the payload, inside the block, and finds the footer magic. Its `real_size` is header + data + footer. |
| `Validator.BadMagicIsCorruptHeader` | src/Allocator.h:77-82 | A block whose first four bytes are not the header magic is reported as `EC_CorruptHeader`. |
| `Validator.UnderrunCorruptsHeader` | src/Allocator.h:77-82 | A backward write from the payload start that reaches the header magic and changes one of its bytes is reported as `EC_CorruptHeader`, whatever else it overwrote. |
| `Tracking.DistinctAppend` | src/Allocator.h:165-172 | Pushing a header that is not yet listed keeps every header listed once. |
| `Tracking.Remove` | src/Allocator.h:165-172 | Erasing a header from `_memblocks` removes one entry if it was listed and keeps every other header. On a table without duplicates, the erased header is gone afterwards. |
| `Tracking.RemoveAt` | src/Allocator.h:165-172 | Erasing at the index a search found is erasing that header. |
| `Tracking.RemoveAppend` | src/Allocator.h:165-172 | Erasing an older header leaves one pushed after it at the end of the table. |
| `Tracking.RemoveLast` | src/Allocator.h:165-172 | Erasing the header just pushed gives back the table as it was. |
| `Tracking.SumRequestedFrame` | src/Allocator.h:156 | The bytes the table accounts for change only when a listed `requested_size` field changes. |
| `Tracking.SumRequestedAppend` | src/Allocator.h:156 | Pushing a header adds its `requested_size` to the bytes accounted for. |
| `Tracking.SumRequestedRemove` | src/Allocator.h:156 | Erasing a header takes its `requested_size` off the bytes accounted for. |
| `Accounting.CountAlloc` | src/Allocator.h:154-155 | One more allocation keeps `_allocs - _frees` (in `uint32_t`) equal to the table length modulo 2^32 after a push. |
| `Accounting.CountFree` | src/Allocator.h:154-155 | One more free keeps `_allocs - _frees` equal to the table length modulo 2^32 after an erase. |
| `Accounting.TakeOff` | src/Allocator.h:156 | Subtracting a block's size from `_current_allocated` keeps it equal to the remaining sum modulo 2^32. |
| `Accounting.NewBlockSound` | src/Allocator.h:100-103 | A block as `TrackedAlloc` writes it is as long as its header says and records the requested size. |
| `Accounting.AccountedPush` | src/Allocator.h:165-172 | Pushing a new block that fits in the address space keeps table and blocks in agreement (each listed once, nothing else) and adds its size to the sum. |
| `Accounting.AccountedErase` | src/Allocator.h:165-172 | Erasing a tracked block keeps table and blocks in agreement and takes its size off the sum. |
| `Accounting.AccountedOverwrite` | src/Allocator.h:165-172 | Rewriting a block's bytes without changing its length keeps the agreement, whatever the bytes. When `requested_size` is kept, the sum is kept too. |
| `Accounting.VerdictsKept` | src/Allocator.h:203-206 | An update that leaves some blocks tracked and byte-for-byte unchanged leaves their `CheckBlock` verdicts unchanged. |
| `Accounting.Register` | src/Allocator.h:209-218 | The bookkeeping of `TrackedAlloc` (push, `_allocs + 1`) keeps the table, the blocks and `_allocs - _frees` in agreement. Adding `num_bytes` to `_current_allocated` keeps it balanced whenever it was. |
| `Accounting.Release` | src/Allocator.h:221-226 | The bookkeeping of `TrackedFree` (erase, `_frees + 1`) keeps the table, the blocks and `_allocs - _frees` in agreement. Subtracting `requested_size` from `_current_allocated` keeps it balanced whenever it was. |
| `Accounting.Replace` | src/Allocator.h:229-249 | The bookkeeping of `TrackedRealloc` (one allocation of the new size and one free of the old block) keeps the agreement, with the new block ending the table. `_current_allocated` stays balanced whenever it was. |
| `Accounting.Rewrite` | src/Allocator.h:154-172 | Overwriting a block's bytes at the same length keeps the table and blocks in agreement whatever is written. `_current_allocated` stays balanced when `requested_size` is kept. |
| `Accounting.AllocThenFree` | src/Allocator.h:209-226 | Allocating a block and then freeing it gives back the table, the blocks, `_current_allocated` and `_allocs - _frees`. |
| `Accounting.Leaks` | src/Allocator.h:175-184 | The report has one line per tracked header, in table order, each with that block's size, names, line and owner. |
| `Accounting.SumLeaksOfTable` | src/Allocator.h:175-184 | The sizes the report lists add up to the bytes the table accounts for. |
| `TrackedAllocator.HeaderAddress` | src/Allocator.h:69-75 | The header lies `sizeof(memblock_header)` bytes before the payload pointer, in 64-bit address arithmetic. |
| `TrackedAllocator.Allocator.constructor` | src/Allocator.h:150-157 | A new allocator has zero counters and an empty table. It is valid and balanced. |
| `TrackedAllocator.Allocator.CheckBlock` | src/Allocator.h:203-206 | The const query on the allocator answers `EC_NoMemoryBlock` exactly for untracked headers. It needs only that every listed header is readable, so it can be asked after any corruption. |
| `TrackedAllocator.Allocator.ValidateMemory` | src/Allocator.h:252-262 | True exactly when `CheckBlock` passes the block behind the pointer. A validated pointer is then tracked, and it is its header address plus the header size. Like `CheckBlock`, it needs only readable headers. |
| `TrackedAllocator.Allocator.FindBlock` | src/Allocator.h:165-172 | The linear search of `_memblocks` returns the index of the header, or -1 exactly when it is not listed. |
| `TrackedAllocator.Allocator.Track` | src/Allocator.h:209-218 | The registration step: push onto the table, `_allocs + 1`, both byte totals grow by the size. Validity is kept, and balance whenever it held. |
| `TrackedAllocator.Allocator.Untrack` | src/Allocator.h:221-226 | The release step: erase the entry at the index the search found, `_frees + 1`, `_current_allocated` shrinks by the size. Validity is kept, and balance whenever it held. |
| `TrackedAllocator.Allocator.Swap` | src/Allocator.h:229-249 | Registration of the new block and release of the old together. Validity is kept, and balance whenever it held. |
| `TrackedAllocator.Allocator.Move` | src/Allocator.h:229-249 | The successful reallocation: new block written with the copied bytes at the front, registered, old block released, counters moved. Validity is kept, and balance whenever it held. |
| `TrackedAllocator.Allocator.TrackedAlloc` | src/Allocator.h:209-218 | Returns nullptr and changes nothing when the reservation fails. Otherwise it returns the payload address, pushes the header, and stores header, payload and footer in the new block. `_allocs` grows by 1, and `_current_allocated` and `_total_allocated` grow by `num_bytes`. Validity is kept, and balance whenever it held. |
| `TrackedAllocator.Allocator.TrackedFree` | src/Allocator.h:221-226 | A null pointer is ignored. An untracked or corrupt block is left as is, with the verdict returned. A valid block is erased and released: `_frees + 1`, `_current_allocated` minus its size, and a second free of it finds no block. Validity is kept, and balance whenever it held. |
| `TrackedAllocator.Allocator.TrackedRealloc` | src/Allocator.h:229-249 | Returns nullptr exactly on a null pointer, a block that fails the check or a failed reservation, and then changes nothing. Otherwise the new block is in the table and the old one is not, the first min(old, new) payload bytes are copied, and the counters move as one allocation and one free. Validity is kept, and balance whenever it held. |
| `TrackedAllocator.Allocator.WriteMemory` | src/Allocator.h:54-82 | A caller's write through a payload pointer, at any offset within the block, changes exactly those bytes. The allocator stays valid whatever is written. `_current_allocated` stays balanced unless the write hits `requested_size`. |
| `TrackedAllocator.Allocator.LeakReport` | src/Allocator.h:175-184 | The report holds the four counters and one line per tracked block, in table order. Its length is `_allocs - _frees` modulo 2^32. While the allocator is balanced, its sizes add up to `_current_allocated` modulo 2^32. |
| `Scenarios.AllocateThenFree` | src/Allocator.h:209-226 | Allocating and then freeing a block passes the check. The table, the blocks and `_current_allocated` are back as they were, `_allocs` and `_frees` are each one higher, and `_total_allocated` has grown by the size. A second free of the same pointer reports `EC_NoMemoryBlock`. |
| `Scenarios.UnderrunIsReported` | src/Allocator.h:77-82 | After a backward write that changes a header magic byte, the allocator is still valid. The pointer no longer validates, and freeing it reports `EC_CorruptHeader`. The table and all four counters are unchanged. |
| `Scenarios.OverrunIsReported` | src/Allocator.h:54-66 | After a one-byte overrun of a new block that changes the first footer byte, the pointer no longer validates. Freeing it reports `EC_CorruptFooter` and the block stays tracked. Balance is kept. |

## Left out

- The `std::recursive_mutex` and all locking: the model is single-threaded.
- `OutputMemoryInfo`'s writing to `memdynamic.log` or stderr. Only the report's content is modelled, as `LeakReport`.
- The `PRINT_POINTER` formats, `MEM_OUTPUT_LIMIT`, and the `MALLOC`/`FREE` macros with their `__FILE__`/`__FUNCTION__`/`__LINE__` capture. Call-site data is passed as parameters.
- The non-debugging branch of the header, and the `Runtime` singleton and the demo program, which hold no allocator logic.
- `malloc`, `realloc` and `free` are not modelled. Each allocating call receives the reservation's outcome as a parameter: None for failure, or an address and the bytes found there. `CanPlace` states four assumptions about a successful `malloc`, nothing more:
  - the address is not null;
  - it is not a block already tracked;
  - exactly the raw size was reserved (header + `num_bytes` + footer);
  - the block ends within the 64-bit address space.

  Non-overlap of raw regions is not modelled.
- Null `file`/`function` arguments are not modelled: names are byte strings without NUL.
- The values of the magic numbers, and the padding within the header, are the model's choice; only the field layout follows the declaration.
- `TrackedAllocator.Allocator.TrackedAlloc`: its ensures does not restate that `ValidateMemory` holds of the returned pointer. That is `Validator.NewBlockIsValid`, applied to the new state.
- `TrackedAllocator.Allocator.TrackedRealloc`: the same holds for the new pointer, and the unchanged verdicts of the other blocks are stated by `Accounting.VerdictsKept`, not in the ensures.
- `TrackedAllocator.Allocator.LeakReport`: the listed sizes are stated to add up to `_current_allocated` only while the allocator is balanced. A caller's write into a `requested_size` field changes what the report lists but not the counter.
- `TrackedAllocator.Allocator.TrackedFree`: that the verdicts of the other blocks are unchanged is likewise stated by `Accounting.VerdictsKept`.
- `TrackedAllocator.Allocator.TrackedRealloc` always writes a new block and copies through an explicit payload slice. The new block never lies at the old block's address, because that address is still tracked when the reservation is checked. A `realloc` that grows or shrinks the block in place is therefore not modelled. An address freed earlier can be handed out again.
