# nuefil memory map, boot-service exit and text encoder, in Dafny

This project models four parts of the `nuefil` UEFI crate and proves what they do.

- **The memory-map negotiation** (`BootServices::get_memory_map`). It starts with a one-page buffer and calls GetMemoryMap. On any status other than SUCCESS it frees the buffer, allocates `size / PAGE_SIZE + 1` pages and asks again. Once the firmware succeeds, it checks that the descriptor stride is at least `size_of::<MemoryDescriptor>()`.
- **The exit** (`exit_boot_services`, `exit_boot_services_with_map`). The crate gets a LoaderData map and calls ExitBootServices with its key. While that call fails, it re-queries the map into the same buffer and tries again. Once an exit succeeds, it marks every BootServicesCode and BootServicesData entry as ConventionalMemory, in place.
- **The memory map and its iterators** (`MemoryMap`, `MemoryMapIterator`, `MemoryMapIteratorMut`). The map's byte buffer is cut into `descriptor_size` chunks. A 40-byte `MemoryDescriptor` is read from the start of each chunk.
- **The text helpers.** `with_utf16_str` encodes a string into a 256-unit UTF-16 staging buffer, null-terminates it and hands it to a firmware function. `Color::new` packs a foreground and a background colour into a text attribute.

Files:

- `status.dfy`: the status and result types shared by the other files.
- `bytes.dfy`: fixed-width integers and their little-endian codec.
- `arith.dfy`: record offsets and counts. These are `k * ds` and `n / ds`, built by repeated addition so that the proofs stay linear.
- `memory.dfy`: memory types, the descriptor layout, the `MemoryMap` class and both iterator classes.
- `firmware.dfy`: the firmware. It is a `BootServices` class whose four services answer from an `Oracle`. The oracle is a total function of the call history and the call's arguments. Every call appends one `Event` to a `history` field.
- `boot_spec.dfy`: functions giving the complete history and the outcome of `get_memory_map` and `exit_boot_services`.
- `boot.dfy`: those operations as imperative methods. They are proved to produce exactly the histories and outcomes of the functions in `boot_spec.dfy`.
- `reclassify.dfy`: the in-place rewrite of the buffer, at the level of bytes.
- `boot_properties.dfy`: call-by-call properties of the two operations.
- `text.dfy`: the UTF-16 encoder, the staging-buffer encoder (as written and as intended) and the colours.

Neither source loop has a termination argument. The two loops are the negotiation and the recovery after a failed exit. Each takes a `fuel` bound on its GetMemoryMap calls, and the outcome `Running` means the bound was reached. A Rust panic (`assert!`, `debug_assert!` in a debug build, `chunks(0)`, or an index out of bounds) is the outcome `Panicked`.

Where the code and its documentation disagree, the model follows the code:

- The recovery loop is not bounded to one retry. It keeps going while re-queries succeed and exits fail.
- Regrowth happens on every status other than SUCCESS, not only on a buffer that is too small.
- The new size is computed as `size / PAGE_SIZE + 1`, not by rounding up.
- A re-query claims the size the previous query reported, not the capacity of the buffer.
- `MemoryMap` as declared in src/memory.rs has no `alloc_size` field, but src/boot.rs sets one. The model keeps it as `allocSize`.
- `get_memory_map` and `exit_boot_services` take an extra `count` argument that the source does not have. It chooses between the page count the source passes to `free_pages` (`NewCount`) and the count of the buffer being freed (`HeldCount`). See Findings.

## Model

| member | source | states |
|---|---|---|
| Memory.MemoryType.Code | src/memory.rs:45-85 | the `repr(u32)` discriminant of every memory type is below 16 |
| Memory.CodeRoundTrip | src/memory.rs:45-85 | every memory type is the one its discriminant denotes |
| Memory.FromCodeRoundTrip | src/memory.rs:45-85 | exactly the discriminants 0 to 15 denote a memory type, and each denotes the type whose discriminant it is |
| Memory.EncodeDescriptor | src/memory.rs:20-42 | a descriptor occupies exactly `size_of::<MemoryDescriptor>()` = 40 bytes |
| Memory.DescriptorRoundTrip | src/memory.rs:20-42 | decoding the 40-byte `repr(C)` layout of a descriptor gives back the descriptor |
| Memory.DecodeAfterTypeWrite | src/memory.rs:22-24 | storing the four type bytes changes the decoded type and no other field |
| Memory.Descriptors | src/memory.rs:168-177 | iterating a buffer yields exactly `size / descriptor_size` descriptors |
| Memory.DescriptorAt | src/memory.rs:216-232 | item k is decoded only from bytes `k*ds .. k*ds + 40`, which lie inside the buffer |
| Memory.DescriptorInPrefix | src/memory.rs:170-173 | the same holds for the first `size` bytes of a larger buffer |
| Memory.MemoryMap.constructor | src/memory.rs:141-154 | a map holds its buffer, page count, size, key, stride and version |
| Memory.MemoryMap.Len | src/memory.rs:157-160 | `len` is `size / descriptor_size`: that many strides fit in `size`, and one more does not |
| Memory.MemoryMap.IsEmpty | src/memory.rs:162-165 | `is_empty` holds exactly when `size < descriptor_size` |
| Memory.MemoryMap.Iter | src/memory.rs:167-177 | `iter` starts a cursor at byte 0 over `buffer[..size]`, with the map's stride and version |
| Memory.MemoryMap.IterMut | src/memory.rs:179-189 | `iter_mut` starts the same cursor over the same bytes |
| Memory.CursorStep | src/memory.rs:217-218 | a `chunks` cursor has a whole chunk ahead exactly while fewer than `size / ds` chunks have been taken |
| Memory.MemoryMapIterator.Next | src/memory.rs:216-232 | `next` yields descriptor k of `Descriptors` for each whole chunk; a stride below 40 fails the debug assertion; then it yields `None` forever |
| Memory.DescriptorMut.TypeOfDescriptor | src/memory.rs:246-257 | the type read through a mutable view is the type of the descriptor it views |
| Memory.DescriptorMut.SetType | src/boot.rs:346 | `entry.Type = t` writes four bytes at the entry's offset and nothing else, and changes the descriptor's type only |
| Memory.MemoryMapIteratorMut.Next | src/memory.rs:248-264 | `next` hands out a view of chunk k at byte `k * descriptor_size`, inside `size`, for the same chunks as `iter`; a stride below 40 fails the debug assertion |
| Firmware.BootServices.AllocatePages | src/boot.rs:223-230 | an allocation returns the firmware's answer and records the call; on success the buffer has `pages * PAGE_SIZE` bytes |
| Firmware.BootServices.FreePages | src/boot.rs:232-237 | a free returns the firmware's answer and records the call |
| Firmware.BootServices.GetMemoryMap | src/boot.rs:253-259 | a query records the call; on SUCCESS the map is in the buffer, within the size claimed; otherwise the buffer is unchanged |
| Firmware.BootServices.ExitBootServices | src/boot.rs:302 | an exit returns the firmware's answer and records the call |
| Boot.GetMemoryMap | src/boot.rs:240-278 | the method makes exactly the calls `GetMemoryMapSpec` says and ends as it does; a returned map is fresh, valid and holds the last reported map |
| Boot.ExitBootServicesWithMap | src/boot.rs:297-306 | one ExitBootServices call with the given key, its answer passed on unchanged |
| Boot.ExitBootServices | src/boot.rs:310-351 | the method makes exactly the calls `ExitSpec` says and ends as it does; a returned map is valid and holds the rewritten map |
| Boot.RetryExit | src/boot.rs:316-338 | the recovery loop ends as `Recover` says: Aborted, still looping, or an accepted exit with the map rewritten next, in the same buffer |
| Boot.RewriteEntries | src/boot.rs:341-348 | the loop over `iter_mut` leaves the buffer as `Rewrite` says, or panics exactly when `Rewrite` does; no byte past `size` changes |
| Boot.VisitEntries | src/boot.rs:342-348 | the loop visits every whole chunk in order, and panics exactly when the stride is below 40 and a whole chunk exists; no byte past `size` changes |
| Boot.VisitNext | src/boot.rs:342 | one `next` and one visit extend the visited prefix by one entry |
| Boot.ReclassifyEntry | src/boot.rs:343-347 | the body of the loop rewrites entry k exactly as `Visit` says |
| BootSpec.VisitedStep | src/boot.rs:342-348 | visiting the next entry extends a visited prefix by one entry |
| BootSpec.VisitedTail | src/memory.rs:180-189 | the loop over `iter_mut`, whose slice ends at `size`, writes no byte past `size` |
| BootSpec.RewriteDone | src/boot.rs:342-350 | a loop that has visited all `size / ds` entries ends as `Rewrite` says |
| Reclassify.BootServicesAtDescriptor | src/boot.rs:343-344 | the type test on the raw bytes is the test on the decoded descriptor's type |
| Reclassify.ReclassifiedStep | src/boot.rs:342-348 | the rewrite of `count + 1` entries is one more visit after the rewrite of `count` |
| Reclassify.SpliceOutside | src/boot.rs:346 | a type store leaves every byte outside its four bytes alone |
| Reclassify.SpliceInside | src/boot.rs:346 | a type store replaces exactly the first four bytes of its chunk |
| Reclassify.VisitOwnChunk | src/boot.rs:343-347 | a visit rewrites its own chunk |
| Reclassify.VisitOtherChunk | src/boot.rs:343-347 | a visit leaves every other chunk alone |
| Reclassify.ReclassifiedOtherChunk | src/boot.rs:342-348 | visiting entry `count - 1` changes no other chunk |
| Reclassify.ReclassifiedChunkAhead | src/boot.rs:342-348 | chunks the loop has not reached are as they were |
| Reclassify.ReclassifiedChunkLast | src/boot.rs:342-348 | the chunk a visit rewrites still holds its original bytes when it is reached |
| Reclassify.ReclassifiedChunk | src/boot.rs:342-348 | every chunk the loop has passed is its original bytes, rewritten once |
| Reclassify.VisitTail | src/boot.rs:346 | a visit writes nothing past the end of its chunk |
| Reclassify.VisitPrefix | src/memory.rs:182 | visiting inside the first `size` bytes commutes with cutting the buffer at `size` |
| Reclassify.ReclassifiedTail | src/boot.rs:342-348 | bytes past the last visited chunk are never written |
| Reclassify.ReclassifiedTailStep | src/boot.rs:342-348 | the last visit writes nothing past its chunk |
| Reclassify.ReclassifiedPrefix | src/memory.rs:182-185 | rewriting the whole buffer or only its first `size` bytes agrees on those bytes |
| Reclassify.ReclassifiedPrefixStep | src/memory.rs:182-185 | that agreement is kept by one more visit |
| Reclassify.RewriteChunkEffect | src/boot.rs:343-347 | rewriting a chunk turns BootServicesCode and BootServicesData into ConventionalMemory, keeps every other type and field, and changes only the four type bytes |
| Reclassify.DescriptorInChunk | src/memory.rs:173-225 | item k of the iteration is the descriptor at the start of chunk k |
| Reclassify.RewriteMapPrefix | src/boot.rs:342-348 | the loop over the first `size` bytes of the buffer leaves them as `RewriteMap` of those bytes |
| Reclassify.ReclassifiedDescriptorAt | src/boot.rs:342-348 | after the loop, entry k is the reclassified original entry k |
| Reclassify.ReclassifiedDescriptors | src/boot.rs:342-348 | after the loop there are as many entries as before, each the reclassified original |
| Reclassify.ReclassifiedChunkRest | src/boot.rs:342-348 | in each iterated chunk only the four type bytes may change |
| Reclassify.ReclassifiedPastEntries | src/memory.rs:216-228 | no byte of a trailing short chunk changes |
| BootProperties.RegrowTrace | src/boot.rs:252-270 | from a freshly allocated buffer, every call of the negotiation is a negotiation step and the last call explains the end |
| BootProperties.AnsweredTrace | src/boot.rs:259-266 | the same from a GetMemoryMap answer |
| BootProperties.FreedTrace | src/boot.rs:266-268 | the same from a `free_pages` answer |
| BootProperties.GetMemoryMapTrace | src/boot.rs:240-278 | the first call allocates one page of the requested type and an error there is returned at once. After that, each query uses the buffer just allocated; each free follows a failed query; each allocation follows a successful free and asks for more than the reported size. The last call explains the outcome: Running, a panic on a short stride, the last reported map, or the error of the free or allocation |
| BootProperties.SuccessEndsNegotiation | src/boot.rs:252-262 | every query before the last answered something other than SUCCESS and was followed by a free |
| BootProperties.FreesMatchAllocations | src/boot.rs:264-268 | with the count of the buffer being freed, every free releases exactly the pages and the address of the allocation before it |
| BootProperties.FreeCountAsWritten | src/boot.rs:264-266 | the firmware `TooSmallOnce` conforms to UEFI; as written, the one-page buffer is freed as two pages when the firmware asks for 8000 bytes |
| BootProperties.RecoverTrace | src/boot.rs:316-338 | in recovery, each call is a re-query into the same buffer, claiming the last reported size, or an exit with the key just reported. Aborted comes exactly after a failed re-query; Running exactly after a failed exit; an accepted exit gives the rewrite of the last reported map |
| BootProperties.ExitTrace | src/boot.rs:310-351 | `exit_boot_services` passes any outcome of `get_memory_map(LoaderData)` other than a map through unchanged. Otherwise it exits with that map's key and then makes only recovery steps, no allocation and no free, and ends as the last call explains |
| Text.Utf16Len | src/text.rs:224-229 | `len_utf16` is 2 exactly for characters outside the Basic Multilingual Plane, and otherwise 1 |
| Text.EncodeChar | src/text.rs:228 | a character's encoding has `len_utf16` units |
| Text.DecodeEncodeChar | src/text.rs:228 | decoding reads back one encoded character and then the rest |
| Text.DecodeUtf16Encoding | src/text.rs:222-229 | decoding the UTF-16 encoding of a string gives back the string |
| Text.SurrogatePair | src/text.rs:228 | a surrogate pair is the encoding of the character it denotes |
| Text.EncodingOfDecoded | src/text.rs:222-229 | every unit string that decodes is the encoding of what it decodes to |
| Text.Utf16Append | src/text.rs:222-229 | the encoding of a concatenation is the concatenation of the encodings |
| Text.Utf16Snoc | src/text.rs:228-229 | encoding one more character appends its units |
| Text.DeliverCons | src/text.rs:213-217 | a flush calls the function with its piece first, and an error ends the run |
| Text.DeliverCalls | src/text.rs:222-232 | the calls are the pieces in order; they stop early only at an error; otherwise every piece is handed over and the run panics exactly when planned |
| Text.DeliverError | src/text.rs:213-232 | a run ends with an error exactly when its last call answered one, and then with that error; no call follows an error |
| Text.DeliverKeepsWarning | src/text.rs:203-234 | if the warning is never stored back, a run that returns returns the warning it started with |
| Text.PiecesConcat | src/text.rs:190-192 | as intended, the pieces handed over concatenate to the encoding of the string |
| Text.PiecesFit | src/text.rs:190-224 | as intended, every piece fits the buffer with its terminator and cuts no character in two |
| Text.PiecesAdvance | src/text.rs:224-229 | as intended, characters that leave room for the terminator join the buffer without a flush |
| Text.PiecesFlush | src/text.rs:224-226 | as intended, a character that would leave no room for the terminator flushes the buffer as it stands, and the next piece starts with that character |
| Text.PiecesShort | src/text.rs:222-232 | as intended, a string of at most 254 units is one piece |
| Text.AsWrittenAdvance | src/text.rs:224-229 | as written too, a character that leaves room for the terminator joins the buffer without a flush |
| Text.AsWrittenPrefix | src/text.rs:222-230 | as written, a prefix of at most 254 units fills the buffer without a flush |
| Text.AsWrittenShort | src/text.rs:222-232 | as written, a string of at most 254 units is one piece and does not panic |
| Text.AsWrittenPrefixes | src/text.rs:206-225 | as written, every piece handed over is a prefix of the whole encoding, because the index is never reset |
| Text.LettersUtf16 | src/text.rs:228 | each letter `a` is one unit |
| Text.AsWrittenRepeats | src/text.rs:206-232 | as written, 255 letters are handed over as 254 letters and then all 255 again: 509 units |
| Text.AsWrittenPanics | src/text.rs:210-228 | as written, 256 letters are handed over as 254 letters, then 255 letters, and then panic on the terminator store at index 256 |
| Text.EncodeInto | src/text.rs:228-229 | `encode_utf16` into `buffer[index..]` appends the character's units after the first `index` units, and the index advances by `len_utf16` |
| Text.FlushAsWritten | src/text.rs:206-220 | the flush as written writes the terminator at the caller's index, or panics at 256. It calls the function with the buffer up to the index and passes an error on; the caller's index and warning are untouched |
| Text.WithUtf16StrAsWritten | src/text.rs:193-235 | the encoder as written makes the calls of `AsWrittenPlan` and ends as that plan says, never storing a warning |
| Text.Flush | src/text.rs:206-220 | the flush as intended writes the terminator and hands over the units before it. It passes an error on, keeps the first warning other than Success, and resets the index to 0 |
| Text.WithUtf16Str | src/text.rs:193-235 | the encoder as intended makes the calls of `Pieces` and returns the first warning, or the first error |
| Text.WithUtf16StrPiecesFit | src/text.rs:190-192 | as intended, every call gets at most 254 units plus a terminator and whole characters only |
| Text.WithUtf16StrHandsOverEncoding | src/text.rs:190-234 | as intended, a run without an error hands over exactly the encoding, in order, and does not panic |
| Text.WithUtf16StrShort | src/text.rs:222-234 | as intended, a string of at most 254 units goes over in exactly one call, and its answer is the result |
| Text.WithUtf16StrAsWrittenShort | src/text.rs:203-234 | as written, a string of at most 254 units goes over in exactly one call without a panic, and a run that returns always returns `Warning::Success` |
| Text.ForegroundColor.Value | src/text.rs:249-285 | every foreground discriminant is below 0x10 |
| Text.ForegroundOf | src/text.rs:249-285 | each value below 0x10 is the discriminant of a foreground colour |
| Text.BackgroundColor.Value | src/text.rs:287-307 | every background discriminant is a multiple of 0x10 below 0x80 |
| Text.BackgroundOf | src/text.rs:287-307 | each multiple of 0x10 below 0x80 is the discriminant of a background colour |
| Text.ColorValuesDistinct | src/text.rs:249-307 | no two colours of one kind share a discriminant |
| Text.ColorNew | src/text.rs:242-246 | `Color::new` is below 0x80; its low nibble is the foreground and bits 4 to 7 are the background |
| Text.ColorNewInverse | src/text.rs:242-246 | both colours can be read back from the attribute |

## Left out

- The image handle passed to ExitBootServices is not modelled. It is passed on unchanged and plays no part in the logic.
- The boot-services function-pointer table and the `win64` calling convention are not modelled. The four services are an abstract firmware instead.
- Events, pool allocation, protocols, handles, `TextInput`, `TextOutput` and the `fmt::Write` impl are not modelled. They are thin wrappers around foreign calls.
- `MemoryMap::drop` is not modelled. It releases the buffer with `free_pool`, although `get_memory_map` obtained the buffer with `allocate_pages`; the model records that mismatch and does not model the release.
- The `MemoryAttributes` flags are not decoded. The attribute field is an opaque 64-bit value.
- Status and error decoding are not modelled. A status is SUCCESS or another code, and `?` returns the error early. The function given to `with_utf16_str` is modelled as answering `Ok(warning)` or `Err(error)` directly.
- Raw pointers and `unsafe` slices become a byte `array` with bounds-checked decoding. Aliasing between the map and its iterators is the shared `array`.
- The firmware is assumed, not checked, to keep two UEFI guarantees: GetMemoryMap answers SUCCESS only with a map that fits the size claimed (`Conforms`), and a GetMemoryMap that fails leaves the buffer unchanged. With a firmware that breaks them, the source has undefined behaviour, which the model does not describe.
- `PAGE_SIZE` is taken as 4096. Its definition is not part of this model.
- The firmware's own ghost state (live allocations, current map, current key) is not modelled. The firmware answers as a function of the call history, which covers any such state.
- Boot.GetMemoryMap: the negotiation loop is bounded by `fuel`, because the source's loop has no termination argument. Running out of fuel is reported as `Running` and stands for a firmware that never answers SUCCESS.
- Boot.ExitBootServices: the recovery loop is bounded by the same `fuel`, for the same reason.
- Machine-width integers (`usize` sizes, keys and addresses) are unbounded in the model, except for the `usize` attribute of `Color`. The crate's arithmetic on them cannot overflow for maps that fit in memory.
- Text.WithUtf16Str: the function receives the units before the terminator, not a pointer. A NUL inside the string therefore does not truncate what the model hands over; through the pointer, the callee would stop reading at it.

## Findings

| source | as written | input that shows it | evidently intended | confidence | as-written member | corrected member |
|---|---|---|---|---|---|---|
| src/text.rs:206-211 | the flush closure binds `ref mut current_index` and `ref mut warning` to copies of the caller's values, so resetting the index and storing the warning have no effect | a string of 255 letters `a` is handed over as 254 units and then 255 units (509 in all); 256 letters panic on the terminator store at index 256; a warning from the firmware is never returned | each flush hands over only the units since the last flush and starts the buffer again; the first warning is returned | high (not executed) | Text.AsWrittenRepeats | Text.WithUtf16StrHandsOverEncoding |
| src/boot.rs:264-266 | `free_pages` is given the page count just computed for the new buffer, not the count of the buffer being freed | a one-page buffer; the firmware reports a map of 8000 bytes; the buffer is freed as 2 pages | free the pages that were allocated | medium (not executed) | BootProperties.FreeCountAsWritten | BootProperties.FreesMatchAllocations |
