/** The streaming slice writer: file header, hash-chained blocks, end of capture, and the encrypted variant. */
module Writer {
  import opened ByteStrings
  import opened Integrity
  import opened Compression
  import opened Encryption
  import opened Blocks
  import PageMap
  import opened MemoryRegions
  import opened Threads
  import opened Modules

  datatype FileHeader = FileHeader(
    endianness: U8, major: U8, minor: U8, flags: U32, capBitmap: U64, dumpUuid: Uuid, timestampNs: U64,
    osType: U16, archType: U16, pid: U32, clockSource: U8, blockCount: U32, hashAlgo: U8)

  /** The 64 common header bytes; `size` is 64, or 128 when an extension follows. */
  function BaseHeader(h: FileHeader, size: U8): (b: Bytes)
    ensures |b| == HEADER_SIZE
  {
    FILE_MAGIC + [h.endianness, size, h.minor, h.major] + LE(h.flags, 4) + LE(h.capBitmap, 8) + h.dumpUuid
    + LE(h.timestampNs, 8) + LE(h.osType, 2) + LE(h.archType, 2) + LE(h.pid, 4) + [h.clockSource] + LE(h.blockCount, 4)
    + [h.hashAlgo] + Zeros(2)
  }

  datatype EncryptionSetup = EncryptionSetup(aead: Aead, key: Bytes, params: EncryptionParams)

  ghost predicate SetupOk(e: EncryptionSetup) {
    AeadOk(e.aead) && |e.key| == KEY_LEN && ParamsOk(e.params)
  }

  function HeaderBytes(h: FileHeader, enc: Option<EncryptionSetup>): (b: Bytes)
    requires enc.Some? ==> ParamsOk(enc.value.params)
    ensures |b| == if enc.Some? then 128 else HEADER_SIZE
  {
    match enc
    case None => BaseHeader(h, 64)
    case Some(e) => BaseHeader(h, 128) + PackExtension(e.params)
  }

  datatype WriteError =
    | PayloadRejected            // unknown codec, or a payload too large for the length fields
    | AlreadyFinalized
    | FieldTooWide               // struct.pack refuses a field
    | InvalidRegion(region: RegionError)
    | BuildIdTooLong | DiskHashTooLong

  const MEMORY_REGION: U16 := 0x0001
  const MODULE_ENTRY: U16 := 0x0002
  const MODULE_LIST_INDEX: U16 := 0x0010
  const THREAD_CONTEXT: U16 := 0x0011
  const MODULE_BUILD_ID_MANIFEST: U16 := 0x005A
  const HAS_CHILDREN: U16 := 0x0010

  /** The PrevHash of the block after `blocks`. */
  ghost function NextPrevHash(hash: Hash, c: Codec, header: Bytes, blocks: seq<Block>): (d: Digest)
    requires AllWritable(c, blocks)
  {
    if blocks == [] then hash(header) else hash(BlockBytes(c, blocks[|blocks| - 1]))
  }

  /** Every block's PrevHash: the chain value, or zero in an encrypted slice. */
  ghost predicate Chained(hash: Hash, c: Codec, header: Bytes, blocks: seq<Block>, encrypted: bool)
    requires AllWritable(c, blocks)
  {
    forall k :: 0 <= k < |blocks| ==>
      blocks[k].prevHash == if encrypted then Zeros(32) else NextPrevHash(hash, c, header, blocks[..k])
  }

  /** EoC payload: FileHash, AcqEnd, 8 reserved bytes. */
  function EocPayload(fileHash: Digest, acqEnd: U64): (p: Bytes) {
    fileHash + LE(acqEnd, 8) + Zeros(8)
  }

  function CompFlags(algo: CompAlgo): (f: U16)
    ensures IsCompressed(f) <==> !algo.NONE?
    ensures !algo.NONE? ==> AlgoOf(f) == Some(algo)
    ensures !IsContinuation(f)
  {
    match algo
    case NONE => 0
    case ZSTD => 1 + 2
    case LZ4 => 1 + 4
  }

  /** An uncompressed payload whose block length still is a 32-bit number. */
  predicate PayloadFits(payload: Bytes) {
    Pad8(|payload|) <= MAX_PAYLOAD
  }

  lemma PlainWritable(c: Codec, b: Block)
    requires !IsCompressed(b.flags)
    ensures Writable(c, b) <==> PayloadFits(b.payload)
  {
  }

  /** Header and padded payload together are shorter than 2^32. */
  lemma PayloadLimit(payload: Bytes)
    ensures PayloadFits(payload) <==> 80 + Pad8(|payload|) < 0x1_0000_0000
  {
  }

  /** Regions the writer takes; with compression the codec's output decides whether the block is too long. */
  predicate RegionWritable(c: Codec, algo: CompAlgo, region: MemoryRegion) {
    RegionCheck(region).None? && CompressedFits(c, CompFlags(algo), RegionPayload(region))
  }

  predicate CompressedFits(c: Codec, flags: U16, payload: Bytes) {
    Writable(c, Block(0, flags, payload, Zeros(16), Zeros(16), Zeros(32)))
  }

  /** Type, UUIDs and PrevHash do not decide whether a block can be written. */
  lemma FitsByPayload(c: Codec, b: Block)
    ensures Writable(c, b) <==> CompressedFits(c, b.flags, b.payload)
  {
  }

  predicate ThreadWritable(t: ThreadContext) {
    ThreadFits(t) && PayloadFits(ThreadPayload(t))
  }

  predicate ModuleWritable(m: ModuleEntry) {
    ModuleFits(m) && PayloadFits(ModulePayload(m))
  }

  predicate IndexWritable(ms: seq<ModuleEntry>, uuids: seq<Uuid>)
    requires |ms| == |uuids|
  {
    |ms| < 0x1_0000_0000 && RowsFit(ms) && PayloadFits(LE(|ms|, 4) + LE(0, 4) + IndexRows(ms, uuids))
  }

  class MSLWriter {
    const header: FileHeader
    const codec: Codec
    const compAlgo: CompAlgo
    const hash: Hash
    const enc: Option<EncryptionSetup>
    const headerBytes: Bytes
    const chain: IntegrityChain
    const encryptor: StreamingEncryptor?
    var output: Bytes
    var blockIndex: nat
    /** Every block written so far. */
    ghost var log: seq<Block>

    ghost predicate Valid()
      reads this, chain, encryptor
    {
      && chain.hash == hash
      && (enc.Some? ==> SetupOk(enc.value))
      && headerBytes == HeaderBytes(header, enc)
      && AllWritable(codec, log) && blockIndex == |log|
      && chain.fed == headerBytes + Stream(codec, log)
      && chain.prevHash == NextPrevHash(hash, codec, headerBytes, log)
      && Chained(hash, codec, headerBytes, log, enc.Some?)
      && (enc.None? ==> encryptor == null && output == headerBytes + Stream(codec, log))
      && (enc.Some? ==>
            && encryptor != null && EncryptorMatches()
            && (!encryptor.finalized ==> output == headerBytes && Join(encryptor.chunks) == Stream(codec, log))
            && (encryptor.finalized ==> output == headerBytes + Sealed(enc.value, headerBytes, Stream(codec, log))))
    }

    ghost predicate EncryptorMatches()
      requires enc.Some? && encryptor != null
      reads this
    {
      && encryptor.aead == enc.value.aead && encryptor.key == enc.value.key
      && encryptor.nonce == enc.value.params.nonce && encryptor.aad == headerBytes
    }

    /** Nothing more can be written: an encrypted slice that has been finalized. */
    ghost predicate IsSealed()
      reads this, encryptor
    {
      encryptor != null && encryptor.finalized
    }

    constructor (header: FileHeader, codec: Codec, compAlgo: CompAlgo, hash: Hash, enc: Option<EncryptionSetup>)
      requires enc.Some? ==> SetupOk(enc.value)
      ensures Valid() && log == [] && !IsSealed()
      ensures this.header == header && this.codec == codec && this.compAlgo == compAlgo && this.hash == hash
              && this.enc == enc
      ensures fresh(chain) && (encryptor != null ==> fresh(encryptor))
    {
      var bytes := HeaderBytes(header, enc);
      var ch := new IntegrityChain(hash);
      var d := ch.FeedHeader(bytes);
      var e: StreamingEncryptor? := null;
      if enc.Some? {
        e := new StreamingEncryptor(enc.value.aead, enc.value.key, enc.value.params.nonce, bytes);
      }
      this.header, this.codec, this.compAlgo, this.hash, this.enc := header, codec, compAlgo, hash, enc;
      headerBytes, chain, encryptor := bytes, ch, e;
      output, blockIndex, log := bytes, 0, [];
      new;
      assert [] + bytes == bytes;
      assert bytes + Stream(codec, []) == bytes;
    }

    /**
     * `_write_block`: one complete block, chained to the previous one. `drawn` is the random UUID
     * drawn when none is given.
     */
    method WriteBlock(
      btype: U16, payload: Bytes, flags: U16, parent: Option<Uuid>, blockUuid: Option<Uuid>, drawn: Uuid)
      returns (r: Result<Uuid, WriteError>)
      requires Valid()
      modifies this`output, this`blockIndex, this`log, chain, encryptor
      ensures Valid() && IsSealed() == old(IsSealed())
      ensures var uuid: Uuid := if blockUuid.Some? then blockUuid.value else drawn;
              var prev: Digest := if enc.Some? then Zeros(32) else old(chain.prevHash);
              var b := Block(btype, flags, payload, uuid, if parent.Some? then parent.value else Zeros(16), prev);
              && (r.Ok? <==> Writable(codec, b) && !IsSealed())
              && (r.Ok? ==> r.value == uuid && log == old(log) + [b])
      ensures r.Err? ==> log == old(log) && output == old(output) && chain.fed == old(chain.fed)
    {
      var uuid: Uuid := if blockUuid.Some? then blockUuid.value else drawn;
      var parentUuid: Uuid := if parent.Some? then parent.value else Zeros(16);
      var prevHash: Digest := if enc.Some? then Zeros(32) else chain.prevHash;
      var b := Block(btype, flags, payload, uuid, parentUuid, prevHash);
      if !Writable(codec, b) {
        return Err(PayloadRejected);
      }
      var onDisk := OnDisk(codec, b).value;
      var blockHeader := BlockHeader(b, BLOCK_HEADER_SIZE + |onDisk|);
      if encryptor != null && encryptor.finalized {
        return Err(AlreadyFinalized);
      }
      r := Ok(uuid);
      Append(b, blockHeader, onDisk);
    }

    /** The writing half of `_write_block`. */
    method Append(b: Block, blockHeader: Bytes, onDisk: Bytes)
      requires Valid() && !IsSealed() && Writable(codec, b)
      requires blockHeader + onDisk == BlockBytes(codec, b)
      requires b.prevHash == if enc.Some? then Zeros(32) else chain.prevHash
      modifies this`output, this`blockIndex, this`log, chain, encryptor
      ensures Valid() && !IsSealed() && log == old(log) + [b]
    {
      hide BlockBytes, Writable, Sealed, HeaderBytes, BlockHeader, Chained, SetupOk, Join, Stream;
      StreamAppend(codec, log, b);
      JoinTwo(blockHeader, onDisk);
      if encryptor != null {
        JoinAppend(encryptor.chunks, [blockHeader, onDisk]);
        assert encryptor.chunks + [blockHeader] + [onDisk] == encryptor.chunks + [blockHeader, onDisk];
        var ok := encryptor.Update(blockHeader);
        ok := encryptor.Update(onDisk);
      } else {
        output := output + blockHeader;
        output := output + onDisk;
      }
      var d := chain.FeedBlockParts([blockHeader, onDisk]);
      blockIndex := blockIndex + 1;
      ChainedAppend(hash, codec, headerBytes, log, b, enc.Some?);
      log := log + [b];
    }

    /** `finalize`: the EndOfCapture block, then ciphertext and tag when encrypted. */
    method Finalize(acqEnd: U64, drawn: Uuid) returns (r: Result<Uuid, WriteError>)
      requires Valid()
      modifies this`output, this`blockIndex, this`log, chain, encryptor
      ensures Valid()
      ensures r.Ok? <==> !old(IsSealed())
      ensures r.Ok? ==>
                && (IsSealed() <==> enc.Some?)
                && log == old(log) + [Block(0x0FFF, 0,
                                            EocPayload(hash(headerBytes + Stream(codec, old(log))), acqEnd), drawn,
                                            Zeros(16), if enc.Some? then Zeros(32) else old(chain.prevHash))]
      ensures r.Err? ==> log == old(log) && output == old(output)
    {
      hide BlockBytes, Writable, HeaderBytes, Chained, NextPrevHash, EocPayload, Stream, AllWritable;
      var fileHash := chain.Finalize();
      EocWritable(codec, fileHash, acqEnd, drawn, if enc.Some? then Zeros(32) else chain.prevHash);
      r := WriteBlock(END_OF_CAPTURE, EocPayload(fileHash, acqEnd), 0, None, None, drawn);
      if r.Ok? && encryptor != null {
        Seal();
      }
    }

    /** Ciphertext and tag of everything buffered. */
    method Seal()
      requires Valid() && encryptor != null && !IsSealed()
      modifies this`output, encryptor
      ensures Valid() && IsSealed()
    {
      hide BlockBytes, Writable, HeaderBytes, Chained, NextPrevHash, Stream, AllWritable;
      var sealed := encryptor.Finalize();
      output := output + sealed.value.0;
      output := output + sealed.value.1;
    }

    /** `write_memory_region`: written exactly when the region passes the checks and its block is not too long. */
    method WriteMemoryRegion(region: MemoryRegion, parent: Option<Uuid>, drawn: Uuid)
      returns (r: Result<Uuid, WriteError>)
      requires Valid()
      modifies this`output, this`blockIndex, this`log, chain, encryptor
      ensures Valid() && IsSealed() == old(IsSealed())
      ensures RegionCheck(region).Some? ==> r == Err(InvalidRegion(RegionCheck(region).value))
      ensures r.Ok? <==> RegionWritable(codec, compAlgo, region) && !old(IsSealed())
      ensures r.Ok? ==>
                && r.value == drawn
                && log == old(log) + [Block(0x0001, CompFlags(compAlgo), RegionPayload(region), drawn,
                                            if parent.Some? then parent.value else Zeros(16),
                                            if enc.Some? then Zeros(32) else old(chain.prevHash))]
      ensures r.Err? ==> log == old(log) && output == old(output)
    {
      var map_ := PageMap.EncodePageStateMap(region.pageStates);
      var rawPageData := Join(region.pageDataChunks);
      var e := RegionCheck(region);
      if e.Some? {
        return Err(InvalidRegion(e.value));
      }
      hide Valid, Writable, CompFlags;
      var payload := RegionHeader(region);
      payload := payload + PadBytes(map_);
      payload := payload + rawPageData;
      FitsByPayload(codec, Block(MEMORY_REGION, CompFlags(compAlgo), payload, drawn,
                                 if parent.Some? then parent.value else Zeros(16),
                                 if enc.Some? then Zeros(32) else chain.prevHash));
      r := WriteBlock(MEMORY_REGION, payload, CompFlags(compAlgo), parent, None, drawn);
    }

    /** `write_thread_context`: written exactly when its fields and its block fit. */
    method WriteThreadContext(t: ThreadContext, parent: Option<Uuid>, drawn: Uuid) returns (r: Result<Uuid, WriteError>)
      requires Valid()
      modifies this`output, this`blockIndex, this`log, chain, encryptor
      ensures Valid() && IsSealed() == old(IsSealed())
      ensures r.Ok? <==> ThreadWritable(t) && !old(IsSealed())
      ensures r.Ok? ==>
                && r.value == drawn
                && log == old(log) + [Block(0x0011, 0, ThreadPayload(t), drawn,
                                            if parent.Some? then parent.value else Zeros(16),
                                            if enc.Some? then Zeros(32) else old(chain.prevHash))]
      ensures r.Err? ==> log == old(log) && output == old(output)
    {
      if !ThreadFits(t) {
        return Err(WriteError.FieldTooWide);
      }
      hide ThreadFits, Writable, OnDisk, PayloadFits, Valid;
      var payload := EncodeThread(t);
      PlainWritable(codec, Block(THREAD_CONTEXT, 0, payload, drawn, if parent.Some? then parent.value else Zeros(16),
                                 if enc.Some? then Zeros(32) else chain.prevHash));
      r := WriteBlock(THREAD_CONTEXT, payload, 0, parent, None, drawn);
    }

    /** `_write_module_entry`: written exactly when its fields and its block fit. */
    method WriteModuleEntry(m: ModuleEntry, parent: Uuid, blockUuid: Uuid) returns (r: Result<Uuid, WriteError>)
      requires Valid()
      modifies this`output, this`blockIndex, this`log, chain, encryptor
      ensures Valid() && IsSealed() == old(IsSealed())
      ensures r.Ok? <==> ModuleWritable(m) && !old(IsSealed())
      ensures r.Ok? ==>
                && r.value == blockUuid
                && log == old(log) + [Block(0x0002, 0, ModulePayload(m), blockUuid, parent,
                                            if enc.Some? then Zeros(32) else old(chain.prevHash))]
      ensures r.Err? ==> log == old(log) && output == old(output)
    {
      if !ModuleFits(m) {
        return Err(WriteError.FieldTooWide);
      }
      hide Writable, OnDisk, PayloadFits, Valid, ModulePayload, ModuleFits;
      PlainWritable(codec,
                    Block(MODULE_ENTRY, 0, ModulePayload(m), blockUuid, parent,
                          if enc.Some? then Zeros(32) else chain.prevHash));
      r := WriteBlock(MODULE_ENTRY, ModulePayload(m), 0, Some(parent), Some(blockUuid), blockUuid);
    }

    /**
     * `write_module_list`: an index block, then every module as a child of it under its announced UUID.
     * It succeeds exactly when the index and all modules can be written. After an error nothing is
     * written, or the index and the modules before the first that cannot be.
     */
    method WriteModuleList(modules: seq<ModuleEntry>, uuids: seq<Uuid>, indexUuid: Uuid)
      returns (r: Result<Uuid, WriteError>, ghost n: nat)
      requires Valid() && |uuids| == |modules|
      modifies this`output, this`blockIndex, this`log, chain, encryptor
      ensures Valid() && IsSealed() == old(IsSealed())
      ensures old(log) <= log && n <= |modules|
      ensures r.Ok? <==> (&& !old(IsSealed()) && IndexWritable(modules, uuids)
                          && forall k :: 0 <= k < |modules| ==> ModuleWritable(modules[k]))
      ensures r.Ok? ==> r.value == indexUuid && n == |modules|
      ensures old(IsSealed()) || !IndexWritable(modules, uuids) ==> log == old(log)
      ensures log != old(log) ==> ListBlocks(log[|old(log)|..], modules, uuids, indexUuid, n)
      ensures r.Ok? ==> log != old(log)
      ensures r.Err? && log != old(log) ==> n < |modules| && !ModuleWritable(modules[n])
    {
      hide Valid, IsSealed, ModuleBlock, IndexBlock, IndexWritable, ModuleWritable;
      n := 0;
      r := WriteIndex(modules, uuids, indexUuid);
      if r.Ok? {
        var e;
        e, n := WriteChildren(modules, uuids, indexUuid);
        ListBlocksAt(log, |old(log)|, modules, uuids, indexUuid, n);
        if e.Some? {
          return Err(e.value), n;
        }
      }
    }

    /** The index block of a module list. */
    method WriteIndex(modules: seq<ModuleEntry>, uuids: seq<Uuid>, indexUuid: Uuid)
      returns (r: Result<Uuid, WriteError>)
      requires Valid() && |uuids| == |modules|
      modifies this`output, this`blockIndex, this`log, chain, encryptor
      ensures Valid() && IsSealed() == old(IsSealed())
      ensures r.Ok? <==> IndexWritable(modules, uuids) && !old(IsSealed())
      ensures if r.Ok? then
                && |log| == |old(log)| + 1 && old(log) <= log
                && IndexBlock(log[|old(log)|], modules, uuids, indexUuid)
              else log == old(log)
      ensures r.Ok? ==> r.value == indexUuid
    {
      if |modules| >= 0x1_0000_0000 || !RowsFit(modules) {
        return Err(WriteError.FieldTooWide);
      }
      hide Valid, Writable, OnDisk, RowsFit, IsSealed, IndexRow, IndexRows, LE, Stream, PayloadFits;
      var manifest := EncodeIndex(modules, uuids);
      PlainWritable(codec, Block(MODULE_LIST_INDEX, HAS_CHILDREN, manifest, indexUuid, Zeros(16),
                                 if enc.Some? then Zeros(32) else chain.prevHash));
      r := WriteBlock(MODULE_LIST_INDEX, manifest, HAS_CHILDREN, None, None, indexUuid);
    }

    /** The module blocks, up to the first that cannot be written. */
    method WriteChildren(modules: seq<ModuleEntry>, uuids: seq<Uuid>, indexUuid: Uuid)
      returns (e: Option<WriteError>, ghost n: nat)
      requires Valid() && |uuids| == |modules| && !IsSealed()
      modifies this`output, this`blockIndex, this`log, chain, encryptor
      ensures Valid() && !IsSealed()
      ensures old(log) <= log
      ensures n <= |modules| && |log| == |old(log)| + n
      ensures forall k :: 0 <= k < n ==>
                ModuleWritable(modules[k]) && ModuleBlock(log[|old(log)| + k], modules[k], uuids[k], indexUuid)
      ensures if e.None? then n == |modules| else n < |modules| && !ModuleWritable(modules[n])
    {
      hide Valid, IsSealed, ModuleFits, ModulePayload, PayloadFits;
      n := 0;
      for i := 0 to |modules|
        invariant Valid() && !IsSealed() && n == i && |log| == |old(log)| + i && old(log) <= log
        invariant forall k :: 0 <= k < i ==>
                    ModuleWritable(modules[k]) && ModuleBlock(log[|old(log)| + k], modules[k], uuids[k], indexUuid)
      {
        var r := WriteModuleEntry(modules[i], indexUuid, uuids[i]);
        if r.Err? {
          return Some(r.error), n;
        }
        n := i + 1;
      }
      e := None;
    }
  }

  /** The payload of `write_thread_context`, register entry by register entry. */
  method EncodeThread(t: ThreadContext) returns (payload: Bytes)
    requires ThreadFits(t)
    ensures payload == ThreadPayload(t)
  {
    hide ThreadHeader, RegisterEntry, RegisterFits, NameRaw, PadBytes;
    payload := ThreadHeader(t) + PadBytes(NameRaw(t.name));
    ghost var head := payload;
    for i := 0 to |t.registers|
      invariant payload == head + RegisterEntries(t.registers[..i])
    {
      RegisterEntriesAppend(t.registers[..i], t.registers[i]);
      assert t.registers[..i + 1] == t.registers[..i] + [t.registers[i]];
      payload := payload + RegisterEntry(t.registers[i]);
    }
    assert t.registers[..|t.registers|] == t.registers;
  }

  /** The manifest of `write_module_list`, row by row. */
  method EncodeIndex(modules: seq<ModuleEntry>, uuids: seq<Uuid>) returns (manifest: Bytes)
    requires |uuids| == |modules| < 0x1_0000_0000
    requires RowsFit(modules)
    ensures manifest == LE(|modules|, 4) + LE(0, 4) + IndexRows(modules, uuids)
  {
    hide IndexRow, IndexRowFits, LE;
    manifest := LE(|modules|, 4) + LE(0, 4);
    ghost var head := manifest;
    for i := 0 to |modules|
      invariant manifest == head + IndexRows(modules[..i], uuids[..i])
    {
      IndexRowsAppend(modules[..i], uuids[..i], modules[i], uuids[i]);
      assert modules[..i + 1] == modules[..i] + [modules[i]] && uuids[..i + 1] == uuids[..i] + [uuids[i]];
      manifest := manifest + IndexRow(modules[i], uuids[i]);
    }
    assert modules[..|modules|] == modules && uuids[..|uuids|] == uuids;
  }

  /** What an unencrypted writer has put out. */
  lemma PlainOutput(w: MSLWriter)
    requires w.Valid() && w.enc.None?
    ensures AllWritable(w.codec, w.log) && |w.headerBytes| == HEADER_SIZE && w.headerBytes == BaseHeader(w.header, 64)
    ensures w.output == w.headerBytes + Stream(w.codec, w.log) && !w.IsSealed()
    ensures Chained(w.hash, w.codec, w.headerBytes, w.log, false)
  {
  }

  /** What a finalized encrypted writer has put out. */
  lemma SealedOutput(w: MSLWriter)
    requires w.Valid() && w.enc.Some? && w.IsSealed()
    ensures AllWritable(w.codec, w.log) && w.headerBytes == HeaderBytes(w.header, w.enc)
    ensures w.output == w.headerBytes + Sealed(w.enc.value, w.headerBytes, Stream(w.codec, w.log))
    ensures forall k :: 0 <= k < |w.log| ==> w.log[k].prevHash == Zeros(32)
  {
  }

  /** The ciphertext and tag of a whole block stream. */
  function Sealed(e: EncryptionSetup, header: Bytes, stream: Bytes): (r: Bytes) {
    e.aead.encrypt(e.key, e.params.nonce, stream, header)
  }

  lemma JoinTwo(a: Bytes, b: Bytes)
    ensures Join([a, b]) == a + b
  {
    assert [a, b][1..] == [b];
    JoinOne(b);
  }

  lemma ChainedAppend(hash: Hash, c: Codec, header: Bytes, blocks: seq<Block>, b: Block, encrypted: bool)
    requires AllWritable(c, blocks) && Writable(c, b) && Chained(hash, c, header, blocks, encrypted)
    requires b.prevHash == if encrypted then Zeros(32) else NextPrevHash(hash, c, header, blocks)
    ensures AllWritable(c, blocks + [b]) && Chained(hash, c, header, blocks + [b], encrypted)
  {
    hide BlockBytes, Writable;
    forall k | 0 <= k < |blocks + [b]|
      ensures (blocks + [b])[k].prevHash
              == if encrypted then Zeros(32) else NextPrevHash(hash, c, header, (blocks + [b])[..k])
    {
      if k < |blocks| {
        assert (blocks + [b])[..k] == blocks[..k];
      } else {
        assert (blocks + [b])[..k] == blocks;
      }
    }
  }

  lemma EocWritable(c: Codec, fileHash: Digest, acqEnd: U64, uuid: Uuid, prev: Digest)
    ensures Writable(c, Block(END_OF_CAPTURE, 0, EocPayload(fileHash, acqEnd), uuid, Zeros(16), prev))
  {
    assert |EocPayload(fileHash, acqEnd)| == 48;
  }

  lemma {:induction false} RegisterEntriesAppend(rs: seq<ThreadRegister>, r: ThreadRegister)
    requires RegisterFits(r) && forall i :: 0 <= i < |rs| ==> RegisterFits(rs[i])
    ensures forall i :: 0 <= i < |rs + [r]| ==> RegisterFits((rs + [r])[i])
    ensures RegisterEntries(rs + [r]) == RegisterEntries(rs) + RegisterEntry(r)
  {
    hide RegisterEntry;
    if rs == [] {
      assert rs + [r] == [r];
      assert [r][1..] == [];
    } else {
      assert (rs + [r])[1..] == rs[1..] + [r];
      RegisterEntriesAppend(rs[1..], r);
    }
  }

  predicate IndexRowFits(m: ModuleEntry) {
    m.baseAddr < 0x1_0000_0000_0000_0000 && m.moduleSize < 0x1_0000_0000_0000_0000 && |m.path| + 1 < 0x1_0000
  }

  predicate RowsFit(ms: seq<ModuleEntry>) {
    forall i :: 0 <= i < |ms| ==> IndexRowFits(ms[i])
  }

  /** One row of the module list index. */
  function IndexRow(m: ModuleEntry, uuid: Uuid): (b: Bytes)
    requires IndexRowFits(m)
  {
    uuid + (LE(m.baseAddr, 8) + LE(m.moduleSize, 8) + LE(|m.path| + 1, 2) + LE(0, 2) + LE(0, 4)) + EncodeString(m.path)
  }

  function IndexRows(ms: seq<ModuleEntry>, uuids: seq<Uuid>): (b: Bytes)
    requires |ms| == |uuids| && RowsFit(ms)
  {
    if ms == [] then [] else IndexRow(ms[0], uuids[0]) + IndexRows(ms[1..], uuids[1..])
  }

  lemma {:induction false} IndexRowsAppend(ms: seq<ModuleEntry>, uuids: seq<Uuid>, m: ModuleEntry, u: Uuid)
    requires |ms| == |uuids| && IndexRowFits(m) && RowsFit(ms)
    ensures IndexRows(ms + [m], uuids + [u]) == IndexRows(ms, uuids) + IndexRow(m, u)
  {
    hide IndexRow;
    if ms == [] {
      assert ms + [m] == [m] && uuids + [u] == [u];
      assert [m][1..] == [] && [u][1..] == [];
    } else {
      assert (ms + [m])[1..] == ms[1..] + [m] && (uuids + [u])[1..] == uuids[1..] + [u];
      IndexRowsAppend(ms[1..], uuids[1..], m, u);
    }
  }

  ghost predicate ModuleBlock(b: Block, m: ModuleEntry, uuid: Uuid, index: Uuid) {
    ModuleFits(m) && b.btype == 0x0002 && b.flags == 0 && b.payload == ModulePayload(m) && b.uuid == uuid
    && b.parent == index
  }

  /** The index block announces every module with its UUID. */
  ghost predicate IndexBlock(b: Block, ms: seq<ModuleEntry>, uuids: seq<Uuid>, index: Uuid)
    requires |ms| == |uuids|
  {
    && |ms| < 0x1_0000_0000 && RowsFit(ms)
    && b.btype == 0x0010 && b.flags == 0x0010 && b.uuid == index && b.parent == Zeros(16)
    && b.payload == LE(|ms|, 4) + LE(0, 4) + IndexRows(ms, uuids)
  }

  /** The first `n` modules of a list behind its index, in order. */
  ghost predicate ListBlocks(bs: seq<Block>, ms: seq<ModuleEntry>, uuids: seq<Uuid>, index: Uuid, n: nat)
    requires |ms| == |uuids| && n <= |ms|
  {
    && |bs| == 1 + n && IndexBlock(bs[0], ms, uuids, index)
    && forall k :: 0 <= k < n ==> ModuleBlock(bs[1 + k], ms[k], uuids[k], index)
  }

  lemma ListBlocksAt(log: seq<Block>, at: nat, ms: seq<ModuleEntry>, uuids: seq<Uuid>, index: Uuid, n: nat)
    requires |ms| == |uuids| && n <= |ms| && |log| == at + 1 + n
    requires IndexBlock(log[at], ms, uuids, index)
    requires forall k :: 0 <= k < n ==> ModuleBlock(log[at + 1 + k], ms[k], uuids[k], index)
    ensures ListBlocks(log[at..], ms, uuids, index, n)
  {
    hide IndexBlock, ModuleBlock;
    forall k | 0 <= k < n ensures ModuleBlock(log[at..][1 + k], ms[k], uuids[k], index) {
      assert log[at..][1 + k] == log[at + 1 + k];
    }
  }
}
