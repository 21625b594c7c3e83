# ZIP wrapper handle bookkeeping, in Dafny

This project models the C layer `src/zip_wrapper.c`, which exposes ZIP archives to its caller through small integer handle ids. The deflate codec and the ZIP format belong to the miniz library and are not modelled. What is modelled is the wrapper's own bookkeeping:

- **Handle registry.** The table `zip_handles[MAX_HANDLES]` (100 slots) and the counter `next_handle_id`. Every successful `create_*`/`open_*` stores its handle at the counter's id and advances the counter. `finalize_zip`, `close_zip` and a successful `finalize_zip_in_memory_bytes` set the slot back to NULL.
- **Handle pool.** `handle_pool[HANDLE_POOL_SIZE]` (20 records) with its `pool_used` flags is a first-fit allocator. When the pool is full it falls back to `malloc`.
- **Guarded entry points.** Every entry point first checks that the id is in range, that its slot is not NULL and that the handle has the right role (writer or reader). On failure it returns a fixed sentinel.
- **Two data contracts.** One is the `file_info_t` record with its 256-character string fields. The other is the single-attempt size check of `finalize_zip_in_memory_bytes`.

Files:

- `registry.dfy` (module `Registry`): the global state as a value (`RegState`), the invariant `Inv` it keeps, each state-changing operation as a function, and the lemmas about them.
- `wrapper.dfy` (module `ZipWrapper`): the class `Wrapper`, whose array fields are the C globals. It has one method per C function, each proved against the `Registry` function that specifies it. It also holds the caller's `FileInfo` record.
- `sessions.dfy` (module `Sessions`): sequences of calls, with properties that span many calls (ids are never reissued, a released id stays dead, a live handle keeps its role).
- `cstrings.dfy` (module `CStrings`): `strlen` and the fixed 256-character string field.
- `ints.dfy` (module `Ints`): the C conversion `(int)` of an unsigned size.

Each miniz call is modelled as an abstract outcome passed in as a parameter:

- `initOk`, `appendOk`, `finalizeOk`, `endOk` and `extractOk` are success flags;
- `numFiles` and `located` are the numbers the codec returns;
- `stat` and `statSize` are the entry metadata from a stat call;
- `extracted` and `archive` are the bytes the codec hands back.

Whether `malloc` succeeds is the parameter `mallocOk`. A heap record is modelled as a `Heap(addr)` pointer into a map of allocated records, not as a raw pointer.

## Model

| member | source | states |
|---|---|---|
| `Ints.Int32Of` | src/zip_wrapper.c:340 | the `(int)` conversion of an unsigned size lies in the 32-bit range, agrees with the size modulo 2^32, equals the size when it is below 2^31, and is non-negative exactly when the size modulo 2^32 is below 2^31 |
| `CStrings.CStrLen` | src/zip_wrapper.c:189-190 | `strlen`: the characters before the result are not NUL, and the character at the result is NUL unless it is the end |
| `CStrings.StrLen` | src/zip_wrapper.c:189-190 | the scan loop computes exactly `CStrLen` |
| `CStrings.CopyLen` | src/zip_wrapper.c:192-193 | the copy length is `strlen` when that is below 256, otherwise 255; it is always below the field width |
| `CStrings.ReadCString` | src/zip_wrapper.c:196 | reading a NUL-terminated field back gives a NUL-free prefix of it |
| `CStrings.PutCStringReadsBack` | src/zip_wrapper.c:189-199 | writing a string into a 256-character field keeps the width, puts the NUL at index `min(strlen, 255)` and touches nothing after it; reading the field back gives the string cut to that length |
| `CStrings.ShortStringRoundTrips` | src/zip_wrapper.c:189-199 | a NUL-free string shorter than 256 characters reads back unchanged |
| `CStrings.LongStringTruncated` | src/zip_wrapper.c:192-196 | a string of 256 characters or more reads back as its first 255 |
| `CStrings.StoreCString` | src/zip_wrapper.c:189-199 | the length computation, `memcpy` and terminator store leave the field equal to `PutCString` of its old contents |
| `Registry.Initial` | src/zip_wrapper.c:56-61 | the zero-initialised statics satisfy the registry invariant |
| `Registry.FirstFree` | src/zip_wrapper.c:65-70 | the first-fit scan returns a clear flag with every earlier flag set, or nothing exactly when every flag is set |
| `Registry.TakeHandle` | src/zip_wrapper.c:64-73 | `get_handle_from_pool` takes the lowest free pool record and sets only its flag; when every flag is set it falls back to a fresh heap record, or gives NULL and changes nothing when `malloc` fails |
| `Registry.GiveBack` | src/zip_wrapper.c:76-85 | `return_handle_to_pool` clears exactly the flag of the pool record the pointer designates and no other; for a heap record it frees that record alone |
| `Registry.Store` | src/zip_wrapper.c:95-96 | filling in a record changes what that pointer designates and what no other pointer designates |
| `Registry.Create` | src/zip_wrapper.c:88-107 | a creator returns -1 and changes nothing once the counter is at 100; it returns -1 or the old counter value; it succeeds exactly when below capacity, codec init succeeds and a record was obtained; on failure the table, counter and flags are as before; on success the counter advances by one, only the new id's slot changes, and it designates a record with the requested role |
| `Registry.Release` | src/zip_wrapper.c:130-131 | releasing empties the id's slot and leaves the counter alone |
| `Registry.Finalize` | src/zip_wrapper.c:121-134 | `finalize_zip` returns 0 and changes nothing unless the id is a live writer; otherwise it releases the handle whatever the codec says, and returns 1 exactly when the codec finalised the archive |
| `Registry.Close` | src/zip_wrapper.c:221-233 | `close_zip` returns 0 and changes nothing unless the id is a live reader; otherwise it releases the handle whatever the codec says, and returns 1 exactly when the codec closed the archive |
| `Registry.FinalizeInMemory` | src/zip_wrapper.c:310-341 | `finalize_zip_in_memory_bytes` changes nothing unless the id is a live writer and the codec's non-empty archive fits the buffer, and in that case it releases the handle |
| `Registry.TakeHandleUnheld` | src/zip_wrapper.c:64-73 | the record handed out is held by no id, and a heap address handed out is not allocated |
| `Registry.CreateKeepsInv` | src/zip_wrapper.c:88-107 | every creator keeps the registry invariant and leaves every live id's slot and record alone; a failed one also leaves the heap as it was |
| `Registry.AbandonKeepsInv` | src/zip_wrapper.c:98-103 | when codec init fails, the record is handed back, so pool flags and heap are exactly as before and the invariant holds |
| `Registry.InstallKeepsInv` | src/zip_wrapper.c:105-106 | storing the new record at the counter's id and advancing the counter keeps the invariant and every other live id's record |
| `Registry.ReleaseKeepsInv` | src/zip_wrapper.c:127-131 | releasing a live id keeps the invariant and leaves every other live id's slot and record alone |
| `Registry.PoolFlagIffHeld` | src/zip_wrapper.c:60-85 | under the invariant, a pool flag is set exactly when some id's slot designates that pool record |
| `Registry.SecondReleaseFails` | src/zip_wrapper.c:121-133 | after `finalize_zip` or `close_zip` on a live id, the invariant holds, the id is refused for either role, and finalize, close or in-memory finalize on it fail with their sentinels and change nothing |
| `Registry.FinalizeInMemoryOutcomes` | src/zip_wrapper.c:310-341 | three outcomes: -1 and nothing changed on a bad handle or no archive; -2 and nothing changed, with the handle still a live writer, when the buffer is too small; otherwise the handle is released, no other handle is touched, and the size converted to `int` is returned (the size itself when below 2^31) |
| `Registry.HugeArchiveReadsAsTooSmall` | src/zip_wrapper.c:327-340 | an archive of 2^32 - 2 bytes that fits is copied and its handle released, yet the call returns -2 |
| `ZipWrapper.FileInfo.constructor` | src/zip_wrapper.c:168-175 | a `file_info_t` has two distinct 256-character string fields |
| `ZipWrapper.Wrapper.constructor` | src/zip_wrapper.c:56-61 | the statics start as `Registry.Initial` and satisfy the invariant |
| `ZipWrapper.Wrapper.Guard` | src/zip_wrapper.c:111 | the range, NULL and role checks over the arrays are exactly `Registry.Admits` |
| `ZipWrapper.Wrapper.GetHandleFromPool` | src/zip_wrapper.c:64-73 | the `for` loop over `pool_used` leaves the state and returns the pointer that `TakeHandle` specifies |
| `ZipWrapper.Wrapper.ReturnHandleToPool` | src/zip_wrapper.c:76-85 | the `for` loop leaves the state that `GiveBack` specifies |
| `ZipWrapper.Wrapper.StoreRecord` | src/zip_wrapper.c:95-96 | setting `is_writer` and the archive leaves the state `Store` specifies |
| `ZipWrapper.Wrapper.ReleaseSlot` | src/zip_wrapper.c:130-131 | returning the record to the pool and then NULLing the slot keeps the invariant and gives `Release` |
| `ZipWrapper.Wrapper.Register` | src/zip_wrapper.c:88-107 | the creator body keeps the invariant and gives the state and id that `Create` specifies |
| `ZipWrapper.Wrapper.CreateZip` | src/zip_wrapper.c:88-107 | `create_zip` is `Create` with a writer role on the named file |
| `ZipWrapper.Wrapper.OpenZip` | src/zip_wrapper.c:137-155 | `open_zip` is `Create` with a reader role on the named file |
| `ZipWrapper.Wrapper.CreateZipInMemory` | src/zip_wrapper.c:289-307 | `create_zip_in_memory` is `Create` with a writer role on the heap |
| `ZipWrapper.Wrapper.OpenZipFromMemory` | src/zip_wrapper.c:346-365 | `open_zip_from_memory` is `Create` with a reader role on memory |
| `ZipWrapper.Wrapper.AddFileToZip` | src/zip_wrapper.c:110-118 | returns 0 or 1, and 1 exactly when the id is a live writer and the codec appended the entry; it changes no registry state |
| `ZipWrapper.Wrapper.FinalizeZip` | src/zip_wrapper.c:121-134 | keeps the invariant and gives the state and result `Finalize` specifies |
| `ZipWrapper.Wrapper.FinalizeZipInMemoryBytes` | src/zip_wrapper.c:310-341 | keeps the invariant and gives the state and result `FinalizeInMemory` specifies; when it copies out, the buffer's first `size` bytes are the archive and the rest are untouched; otherwise the buffer is untouched |
| `ZipWrapper.Wrapper.GetFileCount` | src/zip_wrapper.c:158-165 | -1 unless the id is a live reader; otherwise the codec's count converted to `int` |
| `ZipWrapper.Wrapper.GetFileInfo` | src/zip_wrapper.c:177-207 | returns 1 exactly when the id is a live reader and the codec's stat succeeded; on 0 nothing is written; on 1 both string fields hold `PutCString` of the codec's strings, the sizes are copied, and the two flags are 0 or 1 as the codec says |
| `ZipWrapper.Wrapper.ExtractFile` | src/zip_wrapper.c:210-218 | NULL unless the id is a live reader; otherwise the codec's extraction |
| `ZipWrapper.Wrapper.CloseZip` | src/zip_wrapper.c:221-233 | keeps the invariant and gives the state and result `Close` specifies |
| `ZipWrapper.Wrapper.FindFile` | src/zip_wrapper.c:236-243 | -1 unless the id is a live reader; otherwise the index the codec located |
| `ZipWrapper.Wrapper.ExtractFileByName` | src/zip_wrapper.c:246-257 | a non-NULL result only for a live reader whose name the codec located; then the codec's extraction |
| `ZipWrapper.Wrapper.ExtractFileToBuffer` | src/zip_wrapper.c:267-286 | -1 unless the id is a live reader and extraction succeeded; otherwise the size of a second stat converted to `int`, or 0 when that stat fails |
| `Sessions.ApplyFacts` | src/zip_wrapper.c:88-365 | every state-changing call keeps the invariant; a successful creation returns the old counter and advances it by one, and no other call moves it; a NULL slot below the counter stays NULL; a live id keeps its slot and record or is emptied |
| `Sessions.RunKeepsInv` | src/zip_wrapper.c:56-61 | every sequence of calls keeps the invariant |
| `Sessions.IdsNeverReissued` | src/zip_wrapper.c:105-106 | over any sequence of calls, the successful creations return the consecutive ids from the starting counter on, and the counter advances by their number |
| `Sessions.CreationsBounded` | src/zip_wrapper.c:89 | at most `100 - next_handle_id` creations ever succeed, whatever is released in between; once the counter reaches 100 none do |
| `Sessions.ReleasedStaysReleased` | src/zip_wrapper.c:130-131 | once an issued id's slot is cleared it stays cleared, and that id is refused in both roles after any sequence of calls |
| `Sessions.RecordNeverChanges` | src/zip_wrapper.c:95-96 | a live handle's slot is, after any sequence of calls, either cleared or still designating the same record with the same role |

## Left out

- miniz itself: compression, the ZIP layout, and what each `mz_*` call does with its arguments. Each call is an abstract outcome given as a parameter, so entry contents, the round trip from writer to reader and the count after `k` appends are not modelled.
- `ZipWrapper.Wrapper.ExtractFileToBuffer`: the bytes the codec writes into `output_buffer` are not modelled; only the return value is.
- `free_extracted_data` (src/zip_wrapper.c:260-264) only calls `free`. Memory ownership of the extracted buffers and of the heap archive that `mz_zip_writer_finalize_heap_archive` returns is not modelled.
- `malloc` is modelled only by its success flag and a fresh address; `free` removes the address from the allocated map.
- The compiler and platform macros (src/zip_wrapper.c:5-42) have no behaviour.
- Concurrency: the statics are unlocked, and the model is single-threaded.
- `ZipWrapper.Wrapper.FinalizeZipInMemoryBytes` requires the caller's buffer to be none of the wrapper's own tables. It also requires `buffer_size` to be no more than the buffer's real length. C assumes both and cannot check them.
- The read-only entry points are not part of `Sessions.Call`. They change no registry state, and their own contracts give their sentinel whenever `Admits` fails.
- Sizes from the codec (`m_uncomp_size`, `m_comp_size`) are unbounded naturals rather than 64-bit values. `file_index` and `compression_level` are passed through to the codec unchecked, as in the C code.
- A retry ladder of growing buffers for in-memory finalisation is not in this file. The C code makes a single attempt and only signals -2. Whether the codec allows a second finalisation after -2 is up to miniz and is not modelled.

## Code and specification

Where the design description of the system and the C code disagree, the model follows the code:

- **Ids are never reused.** `next_handle_id` only grows, so the capacity of 100 limits creations over the process's lifetime, not handles open at once (`Sessions.CreationsBounded`). Releasing a handle does not make creation possible again.
- **No separate error kinds.** Failures are the C sentinels: 0, -1, -2 or NULL.
- **Either finalize works on either writer.** `finalize_zip` and `finalize_zip_in_memory_bytes` both accept any writer, file-backed or in-memory. There is no "wrong finalize variant" check.
- **No empty-name check in the wrapper.** Any validation of entry names is left to the codec.
- **The returned size can wrap.** `finalize_zip_in_memory_bytes` returns the archive size through a 32-bit `int`, so very large archives can produce a negative result after a successful copy (`Registry.HugeArchiveReadsAsTooSmall`).
