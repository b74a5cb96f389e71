# Memory Slice: capture, format, emulation and behaviour graphs

This project models the path a memory slice takes from a target process to an emulator, and the stateful
machinery built on top of it, and proves what that path keeps.

* **Capture.** `PageMap`, `MemoryRegions`, `Acquisition`, `RegionFidelity`, `CaptureLaw`, `Engine`: the three-tier
  region reader under arbitrary read failures and an abort that may fall between any two steps, the packed page map,
  the region payload whose page offsets are only implied, and the region loop with its counters.
* **The block stream.** `Integrity`, `Compression`, `Encryption`, `Blocks`, `BlockStream`, `Writer`,
  `SliceFile`, `SliceRuns`, `Loader`, `Threads`, `Modules`, `Metadata`, `EnrichView`, `Enrich`, `Layouts`: the writer as a
  state machine over an output and a hash chain, the iterator over arbitrary bytes, whole-file round trips over every
  run, the encrypted variant, and the enrichment overlay.
* **The emulator.** `Sorting`, `Spans`, `Memory`, `Journal`, `Segments`, `Materialise`, `Emulator`: the
  reverse-execution journal against a machine that keeps whole snapshots, write tracking, span coalescing,
  first-fit allocation, and the two ways a region becomes memory.
* **Behaviour graphs.** `Graph`, `Sums`, `Tracer`, `Probes`, `CallStack`, `Traces`, `TraceFacts`, `TraceCounts`, `Dataflow`,
  `RegionLookup`: event aggregation, temporal and control-flow trails, the shadow call stack, whole traces over all
  hooks, and one-pass dataflow linking against a declarative count.
* **Text and notes.** `Utf8`, `OsDetail`, `OsDetailRoundTrip`, `OsDetailFields`, `ElfNotes`, `ElfFiles`: the OSDetail
  microformat with its size policy, the ELF note walker, and build ids from the layout of an ELF file on.
  `ByteStrings` and `Bits` hold byte, slice and padding helpers.

Code that mutates state in the original is a class or a method with a loop here; each such method is proved
against a specification function, and the lemmas are about that function and the invariants it keeps.

## Modelling decisions

* The target's memory is a fixed function from addresses to bytes; the bridge returns the bytes asked for or
  None. Failures and the abort are arbitrary functions of a clock that ticks at every read and every abort test.
* Hash, cipher and codec are arbitrary functions. What is assumed of a codec is stated in
  `Compression.CodecOk` (an LZ4 block with up to 7 zero bytes behind it never decodes to other data of the
  right length), of the cipher in `Encryption.AeadOk`.
* An emulated instruction is an arbitrary list of writes, each announced to the hook before it is applied,
  then arbitrary registers, possibly faulting midway.
* The interpreter's table of decimal digits beyond ASCII is an arbitrary function; Python's `int` reads them, and
  Unicode blanks, in an escape.
* A block's terminator, a symbol lookup and a stub's result are inputs of the probes.
* Random UUIDs, timestamps and the filter's verdict are parameters. A `struct.error` is the error `FieldTooWide`.
* Paths, names and versions are given by their UTF-8 bytes.

## Where the code falls short of what it promises

* **Chunk size.** Regions larger than a chunk keep their pages only if the chunk size is a multiple of the page
  size (`RegionFidelity.PageFidelityIff`); the default of 20 MiB is one for the usual page sizes.
* **OSDetail parser.** It is documented never to raise, but does so on a value with `%-` and a digit that is not
  zero, hexadecimal or decimal of any script (`OsDetail.UnescapeRaisesIff`, `OsDetailRoundTrip.ParserRaisesIff`,
  at an input: `OsDetailRoundTrip.ParserCanRaise`).
* **OSDetail prefix.** An empty prefix, a prefix with the delimiter in it, and a prefix ending in a blank and a
  bar lose fields (`OsDetailRoundTrip.LosslessIffCleanPrefix`; at an input: `OsDetailRoundTrip.DirtyCutLoses`), an
  empty one all of them (`OsDetailRoundTrip.EmptyPrefixLosesAll`); a field called `_human` takes the prefix's place.
* **Hard cap.** A cap below 16 is exceeded (`OsDetail.HardCapIff`).
* **Soft budget.** The mark is added after the fit, so a truncated text exceeds the soft budget exactly when the pairs
  left without an earlier mark come to more than the budget less 12 bytes, or none is left and prefix and mark alone
  do (`OsDetail.TruncatedSize`; at an input: `OsDetail.OverBudget`).
* **Two module parsers.** They disagree exactly on paths with an interior NUL (`Modules.ParsersAgree`; at an input:
  `Modules.InteriorNulDisagrees`).
* **Two region parsers.** They disagree exactly on a first page that the loader has in a region whose size is no
  whole number of pages (`EnrichView.RegionParsersAgree`; at an input: `EnrichView.OddSizeDisagrees`); the
  size of a written region always is one (`EnrichView.WrittenRegion`).
* **Register names.** On ARM64 the loader renames `fp` and `lr` (`Threads.RegisterEndToEnd`).
* **Current thread.** The documentation says the flag falls back to the first thread; it lands there exactly when
  that thread carries registers (`Threads.FallbackThread`; at an input: `Threads.FlagNotOnFirst`).
* **Shadow stack.** A block that calls an intercepted API leaves the terminator at "call", so the block execution
  comes back to is entered as a callee. The stack follows the calls exactly when execution never comes back from
  such a call (`CallStack.FollowsIff`; at an input: `CallStack.ReturnSiteEntered`); the account of calls and returns
  holds all the same.
* **Region lookup.** The memory probe misses addresses exactly when a region reaches past the end of a later-starting
  one into a gap behind it (`RegionLookup.CompleteIffNoOverhang`).

## Model

| member | source | states |
|---|---|---|
| PageMap.EncodePageStateMap | src/memslicer/msl/writer.py:1069-1087 | Or-ing two-bit codes into a zeroed byte array gives the packed form: four pages a byte, page 0 in the top bits, unused slots zero. |
| PageMap.MapRoundTrip | src/memslicer/emu/loader.py:131-132 | The reader's shift-and-mask on the packed map returns every page's state, for state lists of any length. |
| PageMap.MapLayout | src/memslicer/msl/writer.py:1069-1087 | Bit by bit: page 0 of a byte in bits 7 and 6; 0 is captured, 1 failed, 2 unmapped; the bits behind the last page are 0. |
| MemoryRegions.ParseRegion | src/memslicer/emu/loader.py:135-150 | The page loop refines the recursive reading of the payload, including where Python raises (short header, page beyond the map). |
| MemoryRegions.ParsedRegionMeans | src/memslicer/emu/loader.py:127-150 | On arbitrary bytes: a payload is taken exactly when its header is whole and the state map bytes that are there cover every page, and which header fields are read. |
| MemoryRegions.PagesOfExact | src/memslicer/emu/loader.py:142-148 | Although no offset is stored, counting captured pages finds each captured page's bytes and no others, for every pattern of states; a short last page comes back zero-padded to 8. |
| MemoryRegions.RegionRoundTrip | src/memslicer/msl/writer.py:237-298 | Writing a region, padding it as a block payload and parsing it gives back base, size, protection, type, page size, and a page map whose keys are exactly the captured pages, each with its own bytes. |
| MemoryRegions.PageSizeCheck | src/memslicer/msl/writer.py:256-258 | The bit test refuses exactly the page sizes that are no power of two. |
| MemoryRegions.RegionAccepted | src/memslicer/msl/writer.py:260-281 | For pages of 2^k bytes: which of the other checks raises, and that a region is accepted exactly when its pages fill it, k lies between 10 and 40 and base and size are 64-bit numbers. |
| Acquisition.RegionReader.ReadMemory | src/memslicer/acquirer/bridge.py:212-214 | The bridge contract: the target's bytes at the address, or None. |
| Acquisition.RegionReader.TryReadPages | src/memslicer/acquirer/engine.py:991-1023 | The page fallback with its abort test before every page refines the recursive reading, moment by moment; what that reading captures is TryPagesLaw. |
| Acquisition.RegionReader.ReadChunk | src/memslicer/acquirer/engine.py:920-952 | One turn of the chunk loop: states, data, byte count and position after a whole read or a fallback. |
| Acquisition.RegionReader.ReadRegion | src/memslicer/acquirer/engine.py:857-964 | The three tiers together build the region record that the specification of all reads and abort tests prescribes. |
| Acquisition.TryPagesCount | src/memslicer/acquirer/engine.py:998-1017 | The page fallback yields one state per page of its range whatever fails and whenever the abort strikes. |
| CaptureLaw.TryPagesLaw | src/memslicer/acquirer/engine.py:991-1023 | Page i of the fallback is captured if and only if no abort is up at its test and its own read succeeds, whatever happened to the pages before it. |
| CaptureLaw.ChunkLoopLaw | src/memslicer/acquirer/engine.py:920-952 | The same law for every page of every chunk: captured if and only if no abort is up at the chunk's test and the chunk's read succeeds, or it fails and the page's own read succeeds. |
| CaptureLaw.RegionReadsLaw | src/memslicer/acquirer/engine.py:857-1023 | For every failure pattern and abort point, each page of a region (aligned chunks or a single read) is captured if and only if the whole or chunk read that covers it succeeds, or fails and the page's own read succeeds, no abort being up at the tests on the way. |
| CaptureLaw.UndisturbedRead | src/memslicer/acquirer/engine.py:857-952 | With no failure and no abort every page is captured. |
| RegionFidelity.TryPagesFaithful | src/memslicer/acquirer/engine.py:991-1023 | The page fallback keeps exactly the target's bytes of the pages it marks captured. |
| RegionFidelity.ChunkLoopFaithful | src/memslicer/acquirer/engine.py:920-952 | For chunks of whole pages the chunk loop, from any invariant state on, ends with data that is exactly the target's data for the pages marked captured. |
| RegionFidelity.RegionReadsFaithful | src/memslicer/acquirer/engine.py:857-964 | For every failure pattern and abort point an aligned region read holds only true bytes, in page order, with a right byte count. |
| RegionFidelity.FaithfulRoundTrip | src/memslicer/msl/writer.py:237-298 | Any faithful read survives writing and parsing: the parsed pages are the target's own. |
| RegionFidelity.BuiltRegionAccepted | src/memslicer/msl/writer.py:256-281 | Every region the engine builds, chunks aligned or not, passes all the writer's checks when the page size and range are representable. |
| RegionFidelity.PageFidelity | src/memslicer/acquirer/engine.py:857-1023 | Capture, write and parse, end to end: for every target, failure pattern and abort point the loader's page map holds exactly the captured pages with the target's bytes. |
| RegionFidelity.MisalignedChunkLosesBytes | src/memslicer/acquirer/engine.py:931-934 | Counterexample family: with a chunk size that splits a page, one successful chunk followed by an abort is written and parsed to a page that is not the target's. |
| RegionFidelity.PageFidelityIff | src/memslicer/acquirer/engine.py:895-952 | Exact condition: fidelity for every target and abort point holds if and only if the region fits one chunk or the chunk size is a multiple of the page size. |
| Integrity.IntegrityChain.FeedHeader | src/memslicer/msl/integrity.py:54-60 | The header's digest becomes the next PrevHash and the header joins the file hash. |
| Integrity.IntegrityChain.FeedBlockParts | src/memslicer/msl/integrity.py:70-77 | Feeding a block in parts hashes their concatenation, for any number of parts, and extends the file hash by it. |
| Integrity.IntegrityChain.Finalize | src/memslicer/msl/integrity.py:79-81 | The file digest is the hash of everything fed so far, in order. |
| Compression.Decompress | src/memslicer/msl/compression.py:22-60 | The pad-stripping loop refines the search for the first padding that decodes to the right size. |
| Compression.RetryFindsBlock | src/memslicer/msl/compression.py:22-60 | Stripping one byte at a time from an LZ4 block with up to 7 pad bytes reaches the true data before anything else can be taken for it. |
| Compression.RetryMeans | src/memslicer/msl/compression.py:22-60 | On any bytes the retry yields what decodes to the right size with the fewest bytes stripped, up to seven, and nothing exactly when none does. |
| Compression.DecompressPadded | src/memslicer/msl/compression.py:11-60 | For every algorithm and every padding the writer can add, decompression inverts compression. |
| Encryption.ExtensionRoundTrip | src/memslicer/msl/encryption.py:95-169 | Unpacking the 64-byte extension returns the packed parameters. |
| Encryption.StreamingEncryptor.Update | src/memslicer/msl/encryption.py:206-210 | Plaintext is buffered in order, and refused after finalization. |
| Encryption.StreamingEncryptor.Finalize | src/memslicer/msl/encryption.py:212-232 | Ciphertext and tag are the two ends of one encryption of everything buffered; a second call is refused. |
| Encryption.StreamingDecryptor.Update | src/memslicer/msl/encryption.py:259-263 | Ciphertext is buffered in order, and refused after finalization. |
| Encryption.StreamingDecryptor.Finalize | src/memslicer/msl/encryption.py:265-283 | A wrong tag length, a second call and a failed authentication are errors; otherwise the whole buffer is decrypted at once. |
| Blocks.IterateBlocks | src/memslicer/msl/iterator.py:116-218 | The cursor loop yields the records, and raises the error, that the recursive reading of the file prescribes: magic, length, truncation, CONTINUATION, compression and size checks included. |
| Blocks.ReadBlockMeans | src/memslicer/msl/iterator.py:127-215 | On arbitrary bytes: a block is read exactly when its 80 header bytes, magic, flags, length and payload are in order, and every field of the record is the number or slice at its offset. |
| Blocks.HeaderMeans | src/memslicer/msl/iterator.py:68-103 | On arbitrary bytes: a file header is accepted exactly with the magic, the encrypted bit clear and a hash code that exists. |
| BlockStream.UnpackedOnDisk | src/memslicer/msl/writer.py:178-191 | What the iterator unpacks from a block's disk bytes is the payload zero-padded to 8, compressed or not. |
| BlockStream.ReadWritten | src/memslicer/msl/writer.py:178-221 | A written block is read back with its type, flags, UUIDs, PrevHash and padded payload wherever it lies in a file. |
| BlockStream.IterateStream | src/memslicer/msl/iterator.py:127-218 | Iterating a stream of any length yields exactly the written blocks in order and stops at EndOfCapture without error. |
| BlockStream.RecordsTile | src/memslicer/msl/iterator.py:203-215 | The records' offsets tile the stream: each starts where the one before it ends. |
| BlockStream.RecordsAt | src/memslicer/msl/iterator.py:204-215 | Every record describes the block at its own position. |
| BlockStream.ReadBlockLocal | src/memslicer/msl/iterator.py:127-215 | Reading a block looks at nothing beyond that block's end. |
| BlockStream.IterateSpliced | src/memslicer/cli_enrich.py:296-322 | A file cut at its EndOfCapture block and continued by other bytes iterates to the blocks before the cut and then to what the new bytes hold. |
| Writer.MSLWriter.constructor | src/memslicer/msl/writer.py:42-122 | A fresh writer has put out its header, which seeds the chain and is the encryptor's associated data. |
| Writer.MSLWriter.WriteBlock | src/memslicer/msl/writer.py:161-231 | One more block with the given type, flags, parent, UUID and payload and the chain's PrevHash (zero when encrypted), or an error that changes nothing. |
| Writer.MSLWriter.Append | src/memslicer/msl/writer.py:223-231 | Header and payload go to the output or to the encryptor and to the chain together, keeping the writer's invariant. |
| Writer.MSLWriter.Finalize | src/memslicer/msl/writer.py:1043-1063 | The EndOfCapture block carries the hash of every byte before it; when encrypted, ciphertext and tag of the whole block stream follow the header. |
| Writer.MSLWriter.Seal | src/memslicer/msl/writer.py:1057-1061 | Flushing the encryptor turns an open encrypted output into header, ciphertext and tag of the whole stream. |
| Writer.MSLWriter.WriteMemoryRegion | src/memslicer/msl/writer.py:237-298 | Written exactly when the region passes the checks and its block is not too long (and the writer is not sealed); the first failing check's error otherwise, and nothing written. |
| Writer.MSLWriter.WriteThreadContext | src/memslicer/msl/writer.py:391-433 | Written exactly when its fields and its block fit; otherwise an error and nothing written. |
| Writer.EncodeThread | src/memslicer/msl/writer.py:391-429 | Appending the entries one by one gives the whole register list, in order. |
| Writer.MSLWriter.WriteModuleEntry | src/memslicer/msl/writer.py:345-385 | Written under the given parent and UUID exactly when its fields and its block fit; otherwise an error and nothing written. |
| Writer.MSLWriter.WriteModuleList | src/memslicer/msl/writer.py:304-343 | An index block announcing every module, then one child block per module, in order, under the index's UUID and the announced UUIDs; it succeeds exactly when the index and all modules fit, and after an error nothing is there, or the index and the modules before the first that does not fit. |
| Writer.EncodeIndex | src/memslicer/msl/writer.py:319-333 | The manifest is the count and one row per module in order. |
| Layouts.IndexReadBack | src/memslicer/msl/writer.py:319-333 | An independent row parser takes the padded index payload apart into the count and every module's UUID, base, size and path, in order. |
| Writer.PayloadLimit | src/memslicer/msl/writer.py:194-201 | A payload fits exactly when header and padded payload together are shorter than 2^32 bytes. |
| Layouts.EndReadBack | src/memslicer/msl/writer.py:1049-1055 | The closing payload is the file hash, the end time and eight zero bytes. |
| SliceFile.HeaderAccepted | src/memslicer/msl/iterator.py:68-103 | The iterator accepts a written header exactly when it is unencrypted and names a known hash algorithm. |
| SliceFile.BaseHeaderFields | src/memslicer/msl/writer.py:85-122 | Every field of the written header, read at its offset. |
| SliceFile.FileRoundTrip | src/memslicer/msl/iterator.py:116-218 | Round trip of a whole file: exactly the written blocks come back, and their offsets tile the file from 64 to its end. |
| SliceFile.ChainOverFile | src/memslicer/msl/integrity.py:54-77 | In the bytes of the file: block 0 carries the hash of the header, block k+1 the hash of all bytes of block k. |
| SliceFile.FileHashOverFile | src/memslicer/msl/writer.py:1049-1055 | The FileHash read back from the EndOfCapture record is the hash of every file byte before that block. |
| SliceFile.EncryptedRoundTrip | src/memslicer/msl/encryption.py:206-283 | A reader with the key recovers the parameters from the header and exactly the block stream from the rest, and iterating it yields the written blocks. |
| SliceRuns.WriteAll | src/memslicer/msl/writer.py:161-231 | Any list of block writes leaves exactly the blocks of those whose payload fits, in order. |
| SliceRuns.WriteSlice | src/memslicer/msl/writer.py:161-231 | Every run of the writer: the file iterates to exactly the accepted blocks and the end, tiling it, with chain and file hash over its own bytes; encrypted, it is header, ciphertext and tag of exactly the block stream with every PrevHash zero. |
| Loader.LoadSlice | src/memslicer/emu/loader.py:190-215 | The loop over blocks refines the fold that adds regions, threads and modules to the image, with every way of raising. |
| Loader.LoadedMeans | src/memslicer/emu/loader.py:190-215 | On arbitrary bytes: a file loads exactly when its header is accepted, the iteration ends without an error and every payload parses. |
| Loader.AddWritten | src/memslicer/emu/loader.py:208-214 | Loading a written stream adds the parts of its blocks, each list in block order. |
| Loader.LoadWritten | src/memslicer/emu/loader.py:190-215 | A finished slice loads into an image with its blocks' parts in order and its header's OS and architecture, unknown codes becoming 0xFFFF. |
| Engine.SumBump | src/memslicer/acquirer/engine.py:793-795 | Counting a skip reason raises the sum of all reason counters by one, whether the reason is new or not. |
| Engine.ReadsWithinSize | src/memslicer/acquirer/engine.py:857-964 | A region read never counts more bytes than its range has, aligned chunks or not, and marks every page. |
| Engine.CaptureOne | src/memslicer/acquirer/engine.py:802-814 | Reading and writing one range adds one block exactly when the writer takes the region as read at the given moment, and then each counter moves by exactly what was read: bytes, captured pages, failed pages, rwx; otherwise no counter and no block changes. |
| Engine.CountCapturedMeans | src/memslicer/acquirer/engine.py:808-814 | The captured pages counted are the pages whose state is captured. |
| Engine.RwxBits | src/memslicer/acquirer/engine.py:802-814 | A range counts as rwx exactly when the three low protection bits are set. |
| Engine.CapturesPass | src/memslicer/acquirer/engine.py:783-808 | The captures are the ranges the filter lets pass, in order, and each begins to be read only after all reads of the one before. |
| Engine.CaptureRegions | src/memslicer/acquirer/engine.py:783-824 | Over every failure pattern and abort point the loop ends in one of three ways, at the moment it says: all ranges handled, the abort flag found up, or a range the writer does not take as read. Every capture carries the moment that range was really read, the blocks are those of the captures, and each counter is the exact sum over them, skip reasons and a refused range's attempted bytes included. |
| Engine.OutcomeUnique | src/memslicer/acquirer/engine.py:783-824 | The filter, the reads, the abort flag and what the writer takes determine the whole outcome: where and when the loop stops, the captures and every counter. |
| Engine.ModestTaken | src/memslicer/msl/writer.py:194-201 | Without compression the writer takes every representable range that is short enough for a block, whatever is read of it. |
| Engine.RegionsOfCaptures | src/memslicer/emu/loader.py:208-210 | The blocks of a capture run load into one region per capture, each holding exactly its captured pages byte for byte. |
| Engine.SliceFidelity | src/memslicer/emu/loader.py:190-215 | Capture, serialise, iterate and parse: the loaded image has the threads and modules of its metadata blocks, and its regions are the captures in order with the target's bytes. |
| Engine.LoadedPages | src/memslicer/emu/loader.py:190-215 | A page is in a loaded region if and only if it was read under the law above, and then it is the target's page. |
| Engine.AcquireRegions | src/memslicer/acquirer/engine.py:783-827 | The region loop and the closing finalize, abort or not: it raises exactly at the first range the writer does not take as read, never for modest ranges without compression; captures, moments and counters are those of the run; one block for each capture and a closing block with the hash of every byte before it follow the metadata; loading the output file gives back the metadata and every captured page of every range read. |
| Engine.FinishedFile | src/memslicer/acquirer/engine.py:826-827 | The finished file of any such run loads into the metadata's threads and modules and exactly the captured pages. |
| Metadata.WriteThreads | src/memslicer/acquirer/engine.py:754-757 | Contexts without registers are skipped, the others become blocks, one for each in order, which the loader reads back as their threads; it raises exactly at the first that cannot be written. |
| Metadata.ListAdds | src/memslicer/msl/writer.py:304-343 | The blocks of a module list, or of any part of one, load into its modules in order and nothing else. |
| Metadata.WriteMetadata | src/memslicer/acquirer/engine.py:517-757 | Everything before the regions raises exactly when something collected does not fit; without an error there are the identity, the module list, the tables and the threads with registers, in this order and with their payloads and parents, and the loader gets exactly the modules and those threads, and no region. |
| Engine.Acquire | src/memslicer/acquirer/engine.py:517-827 | From collected metadata to file: the region loop is reached exactly when all metadata fits, then raises exactly at the first range the writer does not take as read and otherwise handles every range or finds the abort flag up. The blocks are the metadata in order, one for each capture, and the closing block, which is there after an error too; the finished file loads into exactly the modules, the threads with registers and every captured page. |
| Engine.DefaultThreadOfImage | src/memslicer/emu/loader.py:95-123 | The default thread of the image loaded from such a file is the first marked thread that carries registers, or the first that carries some when none is marked. |
| Threads.BuildThreadContexts | src/memslicer/acquirer/engine.py:48-92 | One context per thread, registers whose value or width cannot be encoded skipped; the first context with registers becomes Current when no such context is. |
| Threads.ExactlyOneCurrent | src/memslicer/acquirer/engine.py:86-91 | Exactly one written block is Current if and only if the bridge marked at most one thread that carries registers (some thread carrying registers). |
| Threads.FallbackThread | src/memslicer/acquirer/engine.py:86-91 | With no such thread marked, the flag lands on exactly the first thread that carries registers: on thread 0 if and only if thread 0 does. |
| Threads.FlagNotOnFirst | src/memslicer/acquirer/engine.py:48-54 | Witness against the documented fallback: two unmarked threads, the first without a register. |
| Threads.ParseThread | src/memslicer/emu/loader.py:153-180 | The register loop refines the recursive reading, including where unpacking raises; on ARM64 fp becomes x29 and lr x30 (RegisterEndToEnd). |
| Threads.ParsedThreadMeans | src/memslicer/emu/loader.py:153-180 | On arbitrary bytes: a whole header, as many registers as it announces, the architecture its code names, the file's for code 0 and 0xFFFF for an unknown one. |
| Threads.ParsedRegisterMeans | src/memslicer/emu/loader.py:160-178 | On arbitrary bytes: an entry is read exactly when its eight fixed bytes are there, and name, width, value, roles and the next entry's place are those of the bytes. |
| Threads.EntriesRoundTrip | src/memslicer/msl/writer.py:391-429 | Register lists of any length parse back entry by entry. |
| Threads.ThreadRoundTrip | src/memslicer/emu/loader.py:153-180 | A written thread is recovered whole: id, Current flag, every register, and the architecture: the thread's own code when it exists, the file's when there is none. |
| Threads.RegisterEndToEnd | src/memslicer/acquirer/engine.py:58-69 | From bridge to emulator a register keeps its width, 8 where the bridge has none, its PC and SP role and its value modulo 2 to the 8 times width; on ARM64, code 2, the name fp comes back as x29 and lr as x30, and every other name as it was. |
| Threads.ThreadEndToEnd | src/memslicer/acquirer/engine.py:48-92 | Every built context, written, padded and parsed, is the bridge's thread with exactly its usable registers in order, each as RegisterEndToEnd says. |
| Threads.ContextBits | src/memslicer/acquirer/engine.py:71-79 | Bit 0 is Current, bit 2 suspended, bit 3 partial; an unknown state becomes 0. |
| Threads.RoleBits | src/memslicer/acquirer/engine.py:58-69 | One flag bit for each role of a register, none for the general ones. |
| Threads.FirstCurrentLoaded | src/memslicer/emu/loader.py:95-100 | Among the threads of the written contexts the default one is that of the first Current context. |
| Threads.DefaultThread | src/memslicer/emu/loader.py:95-123 | Among the threads of the written contexts the default is the first marked thread that carries registers, or the first that carries some when none is marked. |
| Threads.DefaultExists | src/memslicer/emu/loader.py:95-123 | Whenever some thread carries registers there is such a default. |
| Modules.SplitIsStripIff | src/memslicer/emu/loader.py:183-187 | Cutting at the first NUL equals stripping trailing NULs exactly when no NUL is followed by anything else. |
| Modules.ParsersAgree | src/memslicer/cli_enrich.py:83-134 | On every payload both accept, the enricher's and the loader's module parsers agree on base and size, and on the path if and only if it has no interior NUL. |
| Modules.ParsersAccept | src/memslicer/cli_enrich.py:83-134 | On arbitrary bytes: exactly which payloads each of the two parsers takes, and what the loader's reads. |
| Modules.ModuleRoundTrip | src/memslicer/msl/writer.py:345-385 | A written module is recovered in full by the enricher and in base, size and path by the loader. |
| Modules.WrittenParsed | src/memslicer/cli_enrich.py:83-134 | What both parsers make of any written module, NULs in its strings or not. |
| Modules.InteriorNulDisagrees | src/memslicer/emu/loader.py:183-187 | Witness: a written module whose path has a NUL before its end has different paths under the two parsers. |
| EnrichView.RegionParsersAgree | src/memslicer/cli_enrich.py:137-191 | Wherever both region parsers succeed they agree on base and size, and on the first page exactly when the size is a whole number of pages or the loader has no first page either. |
| EnrichView.ThinRegionMeans | src/memslicer/cli_enrich.py:137-191 | On arbitrary bytes: exactly when the enricher's region parser raises, exactly when it finds a first page, and which bytes that page has. |
| EnrichView.OddSizeDisagrees | src/memslicer/cli_enrich.py:160-163 | Witness: a region of one page and one byte has a first page for the loader and none for the enricher. |
| EnrichView.WrittenRegion | src/memslicer/cli_enrich.py:137-191 | Every region the writer takes is accepted by both parsers, which see the same base, size and first page. |
| EnrichView.LoadSliceView | src/memslicer/cli_enrich.py:217-246 | The loop over blocks refines the fold that collects modules, thin regions and the cut point, raising where the iterator or a payload parser raises or no EndOfCapture block is found. |
| EnrichView.ViewedEnd | src/memslicer/cli_enrich.py:234-244 | Whenever the slice can be read the cut point is the start of its last block, an EndOfCapture block. |
| EnrichView.ViewIsImage | src/memslicer/cli_enrich.py:217-246 | Of every file both can read, the enricher and the loader see the same modules and regions in order: bases and sizes equal, first pages under the exact condition above. |
| EnrichView.WrittenViewed | src/memslicer/cli_enrich.py:217-246 | A finished slice of written region and module blocks is always readable for the enricher, which then sees exactly the loader's regions, first pages included. |
| Enrich.WriteManifest | src/memslicer/msl/writer.py:946-984 | A manifest block with one 64-byte row per module, exactly when every row passes and the block is not too long; the first oversized field's error and nothing written otherwise. |
| Enrich.RowCheckMeans | src/memslicer/msl/writer.py:955-965 | Rows pass exactly when every id has at most 20 bytes and every disk hash at most 32; otherwise the first row decides the error. |
| Layouts.ManifestReadBack | src/memslicer/msl/writer.py:966-984 | The manifest payload is the count and one 64-byte row for each module, every field at its offset and the rest zero. |
| Enrich.RenderManifestTail | src/memslicer/cli_enrich.py:273-293 | The throwaway writer's output behind its header is the stream of a manifest and an EndOfCapture block, exactly when the rows can be written. |
| Enrich.WriteEnriched | src/memslicer/cli_enrich.py:296-322 | The chunked copy loop writes exactly the bytes before the cut and then the tail, or fails when the source ends early. |
| Enrich.EnrichmentPreserves | src/memslicer/cli_enrich.py:217-322 | For every slice the enricher can read, the enriched file keeps all bytes before EndOfCapture and iterates to the original blocks, the manifest and a new end. |
| Enrich.EnrichedImage | src/memslicer/emu/loader.py:190-215 | The enriched file loads into the very same image as the original. |
| Enrich.EnrichedView | src/memslicer/cli_enrich.py:217-322 | Enrichment can be repeated: the enriched file shows the enricher the same modules and regions and a cut point behind the manifest. |
| Enrich.WrittenEnriched | src/memslicer/cli_enrich.py:217-322 | Slices of written blocks are always enriched, with the same image for the loader and the same view for the enricher. |
| Sorting.SortedFacts | src/memslicer/emu/engine.py:96 | The sorted list is in order and a permutation of the input. |
| Spans.Coalesce | src/memslicer/emu/engine.py:93-101 | The merging loop refines the fold over the sorted spans. |
| Spans.CoalescedFacts | src/memslicer/emu/engine.py:93-101 | Coalescing keeps the covered address set and leaves strictly positive gaps. |
| Spans.Canonical | src/memslicer/emu/engine.py:93-101 | A gapped list of non-empty spans is determined by the addresses it covers. |
| Spans.CoalescedCanonical | src/memslicer/emu/engine.py:93-101 | Two lists of non-empty spans coalesce alike if and only if they cover the same addresses. |
| Spans.FindFreePage | src/memslicer/emu/engine.py:186-197 | The result is the lowest page-aligned window at or above 0x1000 that is free and ends within the limit; it fails exactly when there is none. |
| Spans.SlideDown | src/memslicer/emu/engine.py:190-196 | Why the candidates suffice: any fitting window slides down by pages to a candidate that fits. |
| Journal.RollbackUndoes | src/memslicer/emu/engine.py:160-169 | Writing a step's old bytes back, last record first, restores memory, for overlapping writes and for a step cut short by a fault. |
| Journal.ApplyMeans | src/memslicer/emu/engine.py:471-475 | After an instruction a mapped address holds the byte of the last write that landed on it, else what it held. |
| Journal.AnnouncedMeans | src/memslicer/emu/engine.py:160-169 | The ranges announced are those of the writes attempted: up to and with the first that faults. |
| Journal.AllLandMeans | src/memslicer/emu/engine.py:471-475 | An instruction's writes all land exactly when each one is to mapped memory. |
| Journal.JournalRefines | src/memslicer/emu/engine.py:459-495 | Over every interleaving of steps, faults, register writes and steps back the undo log behaves exactly as a bounded stack of whole snapshots. |
| Journal.UnwindRestores | src/memslicer/emu/engine.py:459-495 | From any history, full or not, up to 4096 steps with register writes between them are undone by as many steps back: memory and registers are what they were before the first step, and the history is as long as before or, if shorter, 4096 less the steps. |
| Journal.WxOverRun | src/memslicer/emu/engine.py:462-467 | Over every run the events are the duplicate-free list, in order, of the addresses stepped while already written. |
| Journal.WrittenOverRun | src/memslicer/emu/engine.py:160-169 | Over every run, stepping back included, an address is written exactly when it was before or some step attempted a write to it. |
| Journal.WrittenIffInRanges | src/memslicer/emu/engine.py:507-513 | An address counts as written if and only if it lies in the coalesced ranges. |
| Emulator.MSLEmulator.OnMemWrite | src/memslicer/emu/engine.py:160-169 | The hook logs the range always and the old bytes when a step is in progress and they can be read. |
| Emulator.MSLEmulator.Emulate | src/memslicer/emu/engine.py:471-475 | One instruction's announced writes: memory, written ranges and undo log after them, faults included. |
| Emulator.MSLEmulator.Step | src/memslicer/emu/engine.py:459-481 | One journalled step is one step of the specification machine, and the snapshot kept is that of the state before it. |
| Emulator.MSLEmulator.NoteExecution | src/memslicer/emu/engine.py:465-467 | An address is recorded once, when first stepped while written. |
| Emulator.MSLEmulator.StepBack | src/memslicer/emu/engine.py:486-495 | False exactly on an empty history; otherwise registers and all memory are those just before the undone step. |
| Emulator.MSLEmulator.RevertWrites | src/memslicer/emu/engine.py:493-494 | The write-back loop replays the log from its end. |
| Emulator.MSLEmulator.SetReg | src/memslicer/emu/engine.py:307-311 | A register write changes nothing else and leaves the journal as it was. |
| Emulator.MSLEmulator.MapMemory | src/memslicer/emu/engine.py:173-184 | Succeeds exactly when no coalesced span is empty; then an address is mapped if and only if some region reaches into its 4 KiB page, mapped memory holds captured bytes in place and zeros elsewhere, and the span list is sorted, aligned and gapped. |
| Materialise.SpanIsPages | src/memslicer/emu/engine.py:173-181 | A region's span covers exactly the addresses in whose 4 KiB page the region lies. |
| Emulator.MSLEmulator.SeedSegments | src/memslicer/emu/engine.py:232-265 | The table goes into the lowest free page, the span list stays sorted, aligned and gapped, nothing mapped before changes, and each base present is reached through its selector; it fails exactly when no page is free. |
| Emulator.SelectorsReach | src/memslicer/emu/engine.py:249-265 | For fs and gs, whichever are present: the descriptor at the table base plus the selector's index decodes to that base, flat, ring 3, within the table limit. |
| Emulator.MSLEmulator.SwitchThread | src/memslicer/emu/engine.py:267-283 | The registers become the cleared ones overwritten by the thread's, plus the table and selectors on 32-bit x86; the invariants hold, memory keeps its contents, and the history is dropped. |
| Emulator.ClearedMeans | src/memslicer/emu/engine.py:277-280 | Clearing zeroes exactly the named registers. |
| Segments.DescriptorDecodes | src/memslicer/emu/engine.py:76-90 | Every synthetic descriptor decodes (Intel SDM volume 3A, section 3.4.5) to its base, limit, access byte and granularity. |
| Materialise.Contiguous | src/memslicer/symbex/angr_loader.py:32-38 | The byte image of a region has every captured byte at its place and zeros elsewhere. |
| Materialise.ParsedWellFormed | src/memslicer/emu/loader.py:135-150 | Every region the loader produces, from any payload, has its pages inside the region and disjoint. |
| Materialise.OverlayIsByteAt | src/memslicer/emu/engine.py:182-184 | For disjoint regions, memory inside a region is that region's own image. |
| Materialise.MaterialisersAgree | src/memslicer/symbex/angr_loader.py:32-38 | For disjoint regions the emulator's memory and the contiguous image agree byte for byte over every region. |
| OsDetail.EscapeValue | src/memslicer/acquirer/os_detail.py:106-120 | The escaping loop refines the character-wise escaping. |
| OsDetail.UnescapeValue | src/memslicer/acquirer/os_detail.py:123-151 | The decoding loop refines the recursive decoding, with signs, blanks and decimal digits of every script read as Python's int reads them, and with the one way it raises. |
| OsDetail.EscapeRoundTrip | src/memslicer/acquirer/os_detail.py:106-151 | Unescaping an escaped string returns it, for every string. |
| OsDetail.UnescapeRaisesIff | src/memslicer/acquirer/os_detail.py:123-151 | Decoding raises exactly on strings with a percent sign, a minus sign and a digit that is not zero in a row: a hexadecimal digit, or a decimal digit of any script in the interpreter's table. |
| OsDetailFields.HexPairIsInt | src/memslicer/acquirer/os_detail.py:139-141 | The pair behind a percent sign is read as Python's int reads a text to base 16: blanks stripped at both ends, one sign, hexadecimal digits or decimal digits of any script; for every digit table in which no blank is a digit. |
| OsDetailFields.UnescapePlain | src/memslicer/acquirer/os_detail.py:123-151 | Text without an escape of a reserved character stays as it is, broken escapes and those of other characters included. |
| OsDetailFields.UnescapeStep | src/memslicer/acquirer/os_detail.py:145-148 | An escape of a reserved character is replaced by the character of its code. |
| OsDetail.EscapedIsClean | src/memslicer/acquirer/os_detail.py:106-120 | Escaped text holds no separator of the format, so a value cannot forge a field. |
| OsDetail.TruncateToBudget | src/memslicer/acquirer/os_detail.py:307-337 | The popping loop, which rebuilds its index list after every pop, leaves the survivors: the largest run of droppable pairs that fits, then the mark. |
| OsDetail.DropLast | src/memslicer/acquirer/os_detail.py:315-327 | Popping the last droppable pair of the first k+1 leaves the first k. |
| OsDetail.LargestFit | src/memslicer/acquirer/os_detail.py:309-327 | The number kept fits the budget or is 0, and every larger number does not fit. |
| OsDetail.TruncationPolicy | src/memslicer/acquirer/os_detail.py:307-337 | The surviving non-provenance pairs are the longest prefix of the priority order that fits beside all provenance pairs, every provenance pair but an earlier mark survives, and truncated=1 goes last whenever a pair was dropped. |
| OsDetailFields.ProvenanceKept | src/memslicer/acquirer/os_detail.py:307-337 | Whatever the soft budget, mode, collector_caps and redacted_keys survive, and no pair is made up. |
| OsDetail.TruncatedSize | src/memslicer/acquirer/os_detail.py:309-337 | The exact size of every truncated text, for every prefix. Behind a non-empty prefix it meets the soft budget exactly when the pairs left without an earlier mark leave 12 bytes for the mark, and while a droppable pair is kept it is over by 12 bytes at most. |
| OsDetail.OverBudget | src/memslicer/acquirer/os_detail.py:309-337 | Witness: two droppable pairs under a budget just enough for the first leave a text 12 bytes over it. |
| OsDetail.CutHard | src/memslicer/acquirer/os_detail.py:339-347 | The blind cut keeps the longest character prefix that fits the cut bytes, then the marker. |
| OsDetail.HardCapIff | src/memslicer/acquirer/os_detail.py:339-347 | A cut text stays within its cap if and only if the cap is at least 16. |
| OsDetailFields.PackedCut | src/memslicer/acquirer/os_detail.py:339-347 | Over the hard cap the packed text is as many whole characters as fit in 16 bytes less than the cap, and ;truncated=hard. |
| OsDetail.PackOsDetail | src/memslicer/acquirer/os_detail.py:219-349 | The packer with its loops, sorting and two size policies refines one function of fields, prefix and budgets, for every value a field can have. |
| OsDetail.PackedWithinCap | src/memslicer/acquirer/os_detail.py:339-349 | For every input and every hard cap of at least 16 the packed text never exceeds the cap in UTF-8 bytes. |
| OsDetail.PackedWhole | src/memslicer/acquirer/os_detail.py:303-309 | A text within both budgets is the rendering of all pairs. |
| OsDetailFields.RenderMeans | src/memslicer/acquirer/os_detail.py:295-303 | The text is the schema, the prefix and, behind a bar between blanks, the pairs if there are any. |
| OsDetailFields.NumberRendered | src/memslicer/acquirer/os_detail.py:275-281 | A number's text, read back, is the number; zero counts as not collected. |
| OsDetailFields.ItemsRendered | src/memslicer/acquirer/os_detail.py:271-274 | A list's text, split at its commas, is the list of its non-empty items. |
| OsDetailFields.PlainRendered | src/memslicer/acquirer/os_detail.py:252-284 | A flag that is up is shown as 1, a text as itself, anything missing not at all. |
| OsDetailFields.EmissionOrder | src/memslicer/acquirer/os_detail.py:286-298 | First the known keys that occur, in the order of the listed fields, then every other key, each once a field, in code-point order. |
| OsDetail.WireLengthFits | src/memslicer/msl/writer.py:444-458 | Under the default budgets the NUL-terminated OSDetail bytes always fit the 16-bit length field. |
| OsDetail.ParseOsDetail | src/memslicer/acquirer/os_detail.py:356-400 | The part loop refines the fold over the block's parts, with the one way it raises. |
| OsDetailRoundTrip.PartRoundTrip | src/memslicer/acquirer/os_detail.py:391-398 | One packed pair, parsed, sets its key to its unescaped value. |
| OsDetailRoundTrip.AddBody | src/memslicer/acquirer/os_detail.py:391-398 | A block of any number of pairs parses to exactly those pairs. |
| OsDetailRoundTrip.CleanRoundTrip | src/memslicer/acquirer/os_detail.py:249-400 | Behind a clean prefix every list of entries comes back, together with the prefix. |
| OsDetailRoundTrip.LosslessIffCleanPrefix | src/memslicer/acquirer/os_detail.py:382-389 | Exact condition: packing and parsing loses nothing for any entries if and only if the prefix is not empty and its first delimiter is the packer's own. |
| OsDetailRoundTrip.DirtyCutLoses | src/memslicer/acquirer/os_detail.py:382-389 | Witness for every non-empty prefix that is not clean: one entry with a long enough key is lost. |
| OsDetailRoundTrip.EmptyPrefixLosesAll | src/memslicer/acquirer/os_detail.py:382-389 | Behind an empty prefix every packed pair is lost: the parser returns the whole block under _human and nothing else. |
| OsDetailRoundTrip.NoBarIsClean | src/memslicer/acquirer/os_detail.py:382-389 | Every non-empty prefix without a bar is clean. |
| OsDetailRoundTrip.EntriesOfFields | src/memslicer/acquirer/os_detail.py:157-305 | The packed pairs are exactly the non-empty fields whose key is made of small letters, digits and underscores, with their rendered values. |
| OsDetailRoundTrip.FieldsRoundTrip | src/memslicer/acquirer/os_detail.py:249-400 | From fields to fields: parsing returns exactly the valid-key, non-empty fields, and the prefix under _human if and only if no field of that name replaces it. |
| OsDetailRoundTrip.TruncatedRoundTrip | src/memslicer/acquirer/os_detail.py:249-400 | Behind a clean prefix a text the soft budget has truncated parses to exactly the surviving entries, the mark and the prefix. |
| OsDetailRoundTrip.PackedRoundTrip | src/memslicer/acquirer/os_detail.py:219-400 | Packer and parser composed, for every field mapping and soft budget, the hard cap not being hit: the parser returns the collected fields, or the surviving ones and the mark, and the prefix. |
| OsDetailRoundTrip.ParserRaisesIff | src/memslicer/acquirer/os_detail.py:356-400 | The parser raises exactly when a part of the block has a valid key and a value with such a sequence, for every text and every digit table. |
| OsDetailRoundTrip.ParserCanRaise | src/memslicer/acquirer/os_detail.py:371-374 | For every non-zero digit there is such a text, against the documentation. |
| OsDetailRoundTrip.FullwidthSevenRaises | src/memslicer/acquirer/os_detail.py:371-374 | One of them holds a fullwidth seven. |
| Utf8.DecodeEncode | src/memslicer/acquirer/os_detail.py:340-345 | Decoding the UTF-8 encoding (RFC 3629, section 3) of any string returns it. |
| Utf8.DecodeIff | src/memslicer/acquirer/os_detail.py:341-345 | Bytes decode to a text if and only if they are its encoding: overlong, truncated and surrogate forms decode to nothing. |
| Utf8.DecodePrefix | src/memslicer/acquirer/os_detail.py:341-347 | A byte prefix of an encoding decodes exactly when it ends between two characters. |
| Utf8.BackOff | src/memslicer/acquirer/os_detail.py:341-347 | Dropping bytes until the rest decodes stops at the longest character prefix that fits. |
| Graph.BehaviorGraph.TouchNode | src/memslicer/behavior/graph.py:49-65 | A touch raises that node's hits by one, sets a given label, creates the node with kind and address if it is new, and changes no other node. |
| Graph.BehaviorGraph.TouchEdge | src/memslicer/behavior/graph.py:84-97 | A touch raises that edge's count by one; an empty end makes it do nothing. |
| Graph.CodeIdReadBack | src/memslicer/behavior/graph.py:46-47 | A code node's identity is 0x and the address in hexadecimal without leading zeros, so different addresses are different nodes. |
| Graph.SystemIdReadBack | src/memslicer/behavior/graph.py:34-37 | A system node's identity is api or syscall, a colon and the name; different kinds or names are different nodes. |
| Probes.FuncIdReadBack | src/memslicer/behavior/probes.py:284 | A function node's identity tells its address back and is no code node's. |
| Graph.BehaviorGraph.Consume | src/memslicer/behavior/graph.py:28-44 | Exactly the node an event is about changes, as stated field by field; counters stay the multiplicities of everything touched, calls those of the recorded events, and the trace grows by exactly the system events with all that was recorded of them. |
| Tracer.BehaviorTracer.Emit | src/memslicer/behavior/tracer.py:91-101 | A system event is linked from the current code node and from its predecessor; the temporal edges stay the trail of the trace. |
| Tracer.BehaviorTracer.OnCodeNode | src/memslicer/behavior/tracer.py:70-89 | An intercepted API is an event and no step, an empty landing is neither, a code unit is a step and a node. |
| Probes.ControlFlowProbe.OnNode | src/memslicer/behavior/probes.py:101-130 | A landing records exactly its intercepted API, touches exactly its node and links it to call site and predecessor; a code unit adds one edge from the unit before it, of the kind the terminator and the distance prescribe; the code edges stay exactly the steps of the walk over the code nodes. |
| Probes.FunctionProbe.OnBlock | src/memslicer/behavior/probes.py:280-302 | The shadow stack after a block, the one function node and edge it adds, no event; calls not yet returned are always exactly the adjacent frames. |
| CallStack.RunBlocks | src/memslicer/behavior/probes.py:280-302 | After any list of blocks the probe's stack and pending terminator are those of the specification run. |
| CallStack.AgreeSoFar | src/memslicer/behavior/probes.py:280-302 | As long as no intercepted call has come back, the stack is that of a reference in which an export block ends the pending call. |
| CallStack.NestingFollowed | src/memslicer/behavior/probes.py:280-302 | On every well-nested execution without intercepted calls the stack is, after every block, exactly the functions being run, outermost first. |
| CallStack.ReturnSitePushed | src/memslicer/behavior/probes.py:280-302 | The first block an intercepted call comes back to is pushed as a callee on the reference stack. |
| CallStack.FollowsIff | src/memslicer/behavior/probes.py:280-302 | Exact condition: the stack is the reference stack after every prefix if and only if no block that is no export follows an export reached with the terminator at call. |
| CallStack.ReturnSiteEntered | src/memslicer/behavior/probes.py:280-302 | Witness: a function that calls an intercepted API ends up below its own return site. |
| Probes.OnSystemCall | src/memslicer/behavior/probes.py:162-184 | A system call records one event with a fresh sequence number, touches its node and links it to call site and predecessor, and disturbs neither the walk nor the call account. |
| Traces.Trace | src/memslicer/behavior/tracer.py:159-189 | Every interleaving of hook calls: the recorded events with their numbers, every node touch and every edge, in order, are exactly those the hooks amount to; the code nodes are the code units, the events the system calls and intercepted APIs, the stack that of the specification run; trail, walk and call account hold. |
| TraceCounts.HitsOfUnit | src/memslicer/behavior/graph.py:49-65 | In every finished trace the hits of the node of address a are the number of code units executed at a. |
| TraceCounts.CodeEdgeCount | src/memslicer/behavior/probes.py:119-130 | In every finished trace the count of a code edge of a kind is the number of times a unit at b came right after one at a, the block at a ending as that kind says. |
| TraceCounts.InvokeEdgeCount | src/memslicer/behavior/tracer.py:91-101 | In every finished trace the count of an invoke edge is the number of times the system node was reached with a as the last code unit. |
| TraceCounts.SeqNosIncrease | src/memslicer/behavior/tracer.py:62-68 | The sequence numbers of the recorded events increase strictly. |
| Sums.SumIsLength | src/memslicer/behavior/graph.py:84-93 | Counters that are the multiplicities of a list add up to its length. |
| TraceFacts.ClassSum | src/memslicer/behavior/graph.py:84-93 | The counts of the edges of a class add up to the number of links made in it. |
| TraceFacts.TemporalTrail | src/memslicer/behavior/tracer.py:91-101 | The count of a seq edge is the number of places where its two nodes follow each other in the trace: n-1 in all, in and out balanced at every node except at the ends. |
| TraceFacts.SystemNodeCounts | src/memslicer/behavior/graph.py:34-44 | Each API or syscall node's calls and hits both equal its occurrences in the trace. |
| TraceFacts.CodeWalkTotal | src/memslicer/behavior/probes.py:119-130 | Code-edge counts add up to the executed code nodes less one, and every code edge joins consecutive ones. |
| TraceFacts.CallAccount | src/memslicer/behavior/probes.py:280-302 | For every a and b, calls of b by a less returns from b to a is the number of places where b sits right above a on the stack; calls less returns is the stack depth; every return reverses an existing call. |
| Dataflow.LinkArg | src/memslicer/behavior/dataflow.py:77-86 | One argument adds the producer's edge and the previous user's edge, if they are other nodes. |
| Dataflow.LinkEvents | src/memslicer/behavior/dataflow.py:71-88 | The pass with its two maps makes exactly the specified edges in order. |
| Dataflow.LinkDataflow | src/memslicer/behavior/dataflow.py:55-101 | A DATAFLOW count grows by the arguments whose value was last returned by an earlier event elsewhere, a BUFFER count by the distinct values of an event whose last earlier user is elsewhere, no other count changes, and the result is the number of new edges. |
| Dataflow.DataflowCount | src/memslicer/behavior/dataflow.py:77-81 | The multiplicity of a DATAFLOW edge is the size of the set of argument places it stands for. |
| Dataflow.BufferCount | src/memslicer/behavior/dataflow.py:82-86 | The multiplicity of a BUFFER edge is the size of the set of event and distinct value pairs it stands for. |
| Dataflow.ProducerIsLast | src/memslicer/behavior/dataflow.py:87-89 | The producer map holds the last earlier event that returned the value, and nothing otherwise. |
| Dataflow.UserIsLast | src/memslicer/behavior/dataflow.py:82-86 | The user map holds, at an event's start, the last earlier event with the value among its arguments. |
| Dataflow.DefaultTaint | src/memslicer/behavior/dataflow.py:42-52 | Zero, one and the three all-ones patterns are never linked, other values from the threshold on, 0x100 by default. |
| RegionLookup.BisectRight | src/memslicer/behavior/probes.py:212-214 | The binary search returns the number of bases not above the address. |
| RegionLookup.RegionAt | src/memslicer/behavior/probes.py:212-217 | The lookup is the region that starts last at or below the address, if it holds the address. |
| RegionLookup.CompleteIffNoOverhang | src/memslicer/behavior/probes.py:212-217 | Exact condition on the regions alone: every held address is found if and only if no region reaches past the end of a later-starting one into a gap behind it. |
| ElfNotes.ParseElfNotes | src/memslicer/acquirer/elf_notes.py:34-89 | On every byte string and both byte orders the walk ends and returns the notes of the recursive reading. |
| ElfNotes.DescriptorInBounds | src/memslicer/acquirer/elf_notes.py:55-89 | Every descriptor is a 4-aligned in-bounds slice of the input, whatever the bytes. |
| ElfNotes.NotesRoundTrip | src/memslicer/acquirer/elf_notes.py:34-89 | Any list of padded notes ("Note Section", chapter 5 of the System V gABI) parses back to itself, in both byte orders. |
| ElfNotes.FirstBuildIdMeans | src/memslicer/acquirer/elf_notes.py:186-190 | The result is the descriptor of the first GNU build-id note that is not empty, and None exactly when there is none. |
| ElfNotes.ExtractBuildId | src/memslicer/acquirer/elf_notes.py:92-193 | The build id is returned exactly when some in-bounds PT_NOTE segment yields it and every program header before it was passed over; anything that is no ELF header gives None. Where header and segments are read from is HeaderReadBack and ProgramReadBack. |
| ElfFiles.HeaderAccepted | src/memslicer/acquirer/elf_notes.py:120-163 | On arbitrary bytes: a header is accepted exactly with the magic, a known class and byte order, and a program header table that is not empty, has entries long enough and lies within the data. |
| ElfFiles.HeaderReadBack | src/memslicer/acquirer/elf_notes.py:139-154 | An ELF header encoded field by field ("ELF Header", chapter 4 of the System V gABI) is read back, in both classes and byte orders. |
| ElfFiles.ProgramReadBack | src/memslicer/acquirer/elf_notes.py:165-180 | Type, file offset and file size of every program header ("Program Header", chapter 5) are read back, wherever the table lies. |
| ElfFiles.BuildIdFound | src/memslicer/acquirer/elf_notes.py:92-193 | From the layout of the file to the result: behind program headers that are skipped, the descriptor of the first GNU build-id note of a PT_NOTE segment at any offset is what is returned. |
| ElfFiles.NoBuildId | src/memslicer/acquirer/elf_notes.py:165-193 | None is returned when every program header is skipped, and when the first that is not is a note segment beyond the data. |

## Left out

- Platform bridges, collectors, the privacy filter's patterns, `classify_region` and `volatility_key`: text scraping and flat lookups; the ranges arrive already ordered and the filter is an arbitrary function.
- The startup test read and progress reporting: they change no result.
- The payloads of process identity, process, connection and handle tables, system context apart from its OSDetail field, import provenance, kernel symbols, connectivity, introspection and persistence blocks: no reader is part of the modelled files, so there is no round trip to state; their blocks carry arbitrary payloads here.
- Continuation blocks: the iterator refuses them and the writer never makes them.
- Chain continuity of enriched files: documented as broken; only block-level preservation and the loaded image are claimed.
- Building manifest rows from native blobs, and populating build ids from captured regions.
- Key derivation, and the internals of hashes, AES-GCM, zstd and LZ4.
- Lossy UTF-8 decoding of names and paths; names in notes are compared as bytes.
- Changes of target memory during a capture: every read sees the same bytes.
- Unicorn beyond the contract above: partially applied page-crossing writes, memory the engine refuses to map at the end of the address space and register widths it rejects.
- Runs of the tracer outside `step`: their writes reach the written ranges but not the journal, as in the source.
- Termination of the tracer's outer loop, stub dispatch, redirection and the stop flag.
- The value and argument attributes of dataflow edges, block disassembly, the write categories and tags of the memory probe, and all graph exports.
- The caller-frame search, system-call detection, `resume_from_syscall` and `dump_written`.
- `build_human_os_string` and `system_info_to_fields`: the prefix and the fields are parameters.
- Strings with lone surrogates, on which the packer's `encode` raises: characters here are Unicode scalar values.
- ElfNotes.ParseElfNotes: is run to its end; the source's generator is consumed lazily, with the same results in order.
