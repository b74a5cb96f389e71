/** Blocks on disk: the bytes a block becomes, and the iterator that reads them back. */
module Blocks {
  import opened ByteStrings
  import opened Integrity
  import opened Compression

  type Uuid = u: Bytes | |u| == 16 witness Zeros(16)

  const FILE_MAGIC: Bytes := [0x4D, 0x45, 0x4D, 0x53, 0x4C, 0x49, 0x43, 0x45]
  const BLOCK_MAGIC: Bytes := [0x4D, 0x53, 0x4C, 0x43]
  const HEADER_SIZE := 64
  const BLOCK_HEADER_SIZE := 80
  const MAX_PAYLOAD := 0xFFFF_FFFF - 80
  const END_OF_CAPTURE: U16 := 0x0FFF

  /** The flag bits: COMPRESSED is bit 0, COMPALGO_MASK bits 1-2, CONTINUATION bit 5. */
  predicate IsCompressed(flags: nat) {
    flags % 2 == 1
  }

  function AlgoOf(flags: nat): (a: Option<CompAlgo>) {
    match flags / 2 % 4
    case 0 => Some(NONE)
    case 1 => Some(ZSTD)
    case 2 => Some(LZ4)
    case _ => None
  }

  predicate IsContinuation(flags: nat) {
    flags / 32 % 2 == 1
  }

  /** A block as it is asked for, with the PrevHash it was given. */
  datatype Block = Block(btype: U16, flags: U16, payload: Bytes, uuid: Uuid, parent: Uuid, prevHash: Digest)

  /** The payload bytes on disk; None where `CompAlgo(...)` raises. */
  function OnDisk(c: Codec, b: Block): (r: Option<Bytes>)
    ensures r.Some? ==> |r.value| % 8 == 0
  {
    var padded := PadBytes(b.payload);
    if !IsCompressed(b.flags) then Some(padded)
    else
      match AlgoOf(b.flags)
      case None => None
      case Some(algo) => Some(PadBytes(LE(|padded|, 8) + Compressed(c, padded, algo)))
  }

  /** Blocks the writer accepts; UncompressedSize is a 64-bit field. */
  predicate Writable(c: Codec, b: Block) {
    var d := OnDisk(c, b);
    d.Some? && |d.value| <= MAX_PAYLOAD && (IsCompressed(b.flags) ==> |PadBytes(b.payload)| < 0x1_0000_0000_0000_0000)
  }

  function BlockHeader(b: Block, length: U32): (h: Bytes)
    ensures |h| == BLOCK_HEADER_SIZE
  {
    BLOCK_MAGIC + LE(b.btype, 2) + LE(b.flags, 2) + LE(length, 4) + LE(1, 2) + LE(0, 2) + b.uuid + b.parent + b.prevHash
  }

  function BlockBytes(c: Codec, b: Block): (r: Bytes)
    requires Writable(c, b)
    ensures |r| >= BLOCK_HEADER_SIZE
  {
    var d := OnDisk(c, b).value;
    BlockHeader(b, BLOCK_HEADER_SIZE + |d|) + d
  }

  ghost predicate AllWritable(c: Codec, blocks: seq<Block>) {
    forall i :: 0 <= i < |blocks| ==> Writable(c, blocks[i])
  }

  /** The block stream: all blocks back to back. */
  ghost function Stream(c: Codec, blocks: seq<Block>): (r: Bytes)
    requires AllWritable(c, blocks)
  {
    if blocks == [] then [] else BlockBytes(c, blocks[0]) + Stream(c, blocks[1..])
  }

  lemma {:induction false} StreamAppend(c: Codec, a: seq<Block>, b: Block)
    requires AllWritable(c, a) && Writable(c, b)
    ensures Stream(c, a + [b]) == Stream(c, a) + BlockBytes(c, b)
  {
    hide BlockBytes, Writable;
    if a == [] {
      assert [b][1..] == [];
      assert a + [b] == [b];
    } else {
      assert (a + [b])[1..] == a[1..] + [b];
      assert (a + [b])[0] == a[0];
      StreamAppend(c, a[1..], b);
    }
  }

  // ---------------------------------------------------------------- reading

  datatype BlockRecord = BlockRecord(
    btype: U16, flags: U16, length: U32, payloadVersion: U16, uuid: Uuid, parent: Uuid, prevHash: Digest,
    payload: Bytes, start: nat, end: nat)

  datatype ReadError =
    | BadFileMagic | EncryptedFile | UnknownHashAlgo | TruncatedFileHeader
    | TruncatedHeader | BadBlockMagic | ContinuationUnsupported | LengthTooSmall | TruncatedPayload
    | CompressedTooSmall | UnknownAlgo | DecompressionFailed | SizeMismatch

  datatype Step = EndOfFile | Fault(error: ReadError) | Got(rec: BlockRecord)

  /** The payload of a block from its on-disk bytes. */
  function Unpacked(c: Codec, flags: nat, disk: Bytes): (r: Option<Bytes>)
    ensures var e := UnpackError(c, flags, disk); r.None? <==> e.Some?
  {
    if !IsCompressed(flags) then Some(disk)
    else if |disk| < 8 then None
    else
      match AlgoOf(flags)
      case None => None
      case Some(algo) =>
        var out := Decompressed(c, disk[8..], algo, FromLE(disk[..8]));
        if out.Some? && |out.value| == FromLE(disk[..8]) then out else None
  }

  function UnpackError(c: Codec, flags: nat, disk: Bytes): (e: Option<ReadError>) {
    if !IsCompressed(flags) then None
    else if |disk| < 8 then Some(CompressedTooSmall)
    else
      match AlgoOf(flags)
      case None => Some(UnknownAlgo)
      case Some(algo) =>
        var out := Decompressed(c, disk[8..], algo, FromLE(disk[..8]));
        if out.None? then Some(DecompressionFailed)
        else if |out.value| != FromLE(disk[..8]) then Some(SizeMismatch)
        else None
  }

  /** One turn of the iterator's loop at offset `pos`. */
  function ReadBlock(c: Codec, file: Bytes, pos: nat): (s: Step)
    requires pos <= |file|
    ensures s.Got? ==> s.rec.start == pos && pos + BLOCK_HEADER_SIZE <= s.rec.end <= |file|
  {
    var h := Slice(file, pos, pos + BLOCK_HEADER_SIZE);
    if |h| == 0 then EndOfFile
    else if |h| < BLOCK_HEADER_SIZE then Fault(TruncatedHeader)
    else if h[0..4] != BLOCK_MAGIC then Fault(BadBlockMagic)
    else
      var flags, length := Get16(h[6..8]), Get32(h[8..12]);
      if IsContinuation(flags) then Fault(ContinuationUnsupported)
      else if length < BLOCK_HEADER_SIZE then Fault(LengthTooSmall)
      else
        var disk := Slice(file, pos + BLOCK_HEADER_SIZE, pos + length);
        if |disk| < length - BLOCK_HEADER_SIZE then Fault(TruncatedPayload)
        else
          var payload := Unpacked(c, flags, disk);
          if payload.None? then Fault(UnpackError(c, flags, disk).value)
          else
            Got(BlockRecord(Get16(h[4..6]), flags, length, Get16(h[12..14]), h[16..32], h[32..48], h[48..80],
                            payload.value, pos, pos + length))
  }

  /** What the bytes at `pos` must be for a block to be read there. */
  predicate BlockAt(c: Codec, file: Bytes, pos: nat) {
    && pos + 80 <= |file| && file[pos..pos + 4] == [0x4D, 0x53, 0x4C, 0x43]
    && var flags, length := FromLE(file[pos + 6..pos + 8]), FromLE(file[pos + 8..pos + 12]);
       && flags / 0x20 % 2 == 0 && 80 <= length && pos + length <= |file|
       && Unpacked(c, flags, file[pos + 80..pos + length]).Some?
  }

  /** One turn of the iterator on arbitrary bytes: when it yields a block, which one, and when it ends. */
  lemma ReadBlockMeans(c: Codec, file: Bytes, pos: nat)
    requires pos <= |file|
    ensures var s := ReadBlock(c, file, pos);
            && (s.EndOfFile? <==> pos == |file|)
            && (s.Got? <==> BlockAt(c, file, pos))
            && (s.Got? ==>
                  && s.rec.btype == FromLE(file[pos + 4..pos + 6]) && s.rec.flags == FromLE(file[pos + 6..pos + 8])
                  && s.rec.length == FromLE(file[pos + 8..pos + 12])
                  && s.rec.payloadVersion == FromLE(file[pos + 12..pos + 14])
                  && s.rec.uuid == file[pos + 16..pos + 32] && s.rec.parent == file[pos + 32..pos + 48]
                  && s.rec.prevHash == file[pos + 48..pos + 80]
                  && s.rec.start == pos && s.rec.end == pos + s.rec.length
                  && var disk := file[pos + 80..s.rec.end];
                     && (s.rec.flags % 2 == 0 ==> s.rec.payload == disk)
                     && (s.rec.flags % 2 == 1 ==> |disk| >= 8 && |s.rec.payload| == FromLE(disk[..8])))
  {
    hide Decompressed, FromLE;
    if pos + 80 <= |file| {
      var h := file[pos..pos + 80];
      assert h[0..4] == file[pos..pos + 4] && h[4..6] == file[pos + 4..pos + 6] && h[6..8] == file[pos + 6..pos + 8];
      assert h[8..12] == file[pos + 8..pos + 12] && h[12..14] == file[pos + 12..pos + 14];
      assert h[16..32] == file[pos + 16..pos + 32] && h[32..48] == file[pos + 32..pos + 48];
      assert h[48..80] == file[pos + 48..pos + 80];
    }
  }

  /** What the generator yields before it stops, and the error it raises if any. */
  datatype Iteration = Iteration(records: seq<BlockRecord>, error: Option<ReadError>)

  function IterateFrom(c: Codec, file: Bytes, pos: nat): (r: Iteration)
    requires pos <= |file|
    decreases |file| - pos
  {
    match ReadBlock(c, file, pos)
    case EndOfFile => Iteration([], None)
    case Fault(e) => Iteration([], Some(e))
    case Got(rec) =>
      if rec.btype == END_OF_CAPTURE then Iteration([rec], None)
      else
        var rest := IterateFrom(c, file, rec.end);
        Iteration([rec] + rest.records, rest.error)
  }

  /** `_read_file_header_info`: magic at 0, flags at 0x0C, HashAlgo at 0x3D. */
  function HeaderError(file: Bytes): (e: Option<ReadError>) {
    if Slice(file, 0, 8) != FILE_MAGIC then Some(BadFileMagic)
    else if |file| < 0x10 then Some(TruncatedFileHeader)
    else if FromLE(file[0x0C..0x10]) / 4 % 2 == 1 then Some(EncryptedFile)
    else if |file| <= 0x3D then Some(TruncatedFileHeader)
    else if !(file[0x3D] <= 2 || file[0x3D] == 0xFF) then Some(UnknownHashAlgo)
    else None
  }

  /** On arbitrary bytes: magic, not encrypted, and a hash algorithm that exists, in a header that reaches that far. */
  lemma HeaderMeans(file: Bytes)
    ensures HeaderError(file).None? <==>
            && |file| >= 0x3E && file[..8] == [0x4D, 0x45, 0x4D, 0x53, 0x4C, 0x49, 0x43, 0x45]
            && FromLE(file[0x0C..0x10]) / 4 % 2 == 0 && file[0x3D] in {0, 1, 2, 0xFF}
  {
    hide FromLE;
    assert |file| >= 8 ==> Slice(file, 0, 8) == file[..8];
  }

  function Iterated(c: Codec, file: Bytes): (r: Iteration) {
    if HeaderError(file).Some? then Iteration([], HeaderError(file))
    else if |file| < HEADER_SIZE then Iteration([], None)
    else IterateFrom(c, file, HEADER_SIZE)
  }

  /** `iterate_blocks`: a cursor moves through the file, one record a turn. */
  method IterateBlocks(c: Codec, file: Bytes) returns (records: seq<BlockRecord>, error: Option<ReadError>)
    ensures Iteration(records, error) == Iterated(c, file)
  {
    hide ReadBlock;
    records, error := [], HeaderError(file);
    if error.Some? || |file| < HEADER_SIZE {
      return;
    }
    var pos := HEADER_SIZE;
    while true
      invariant pos <= |file| && error.None?
      invariant var rest := IterateFrom(c, file, pos);
                Iteration(records + rest.records, rest.error) == IterateFrom(c, file, HEADER_SIZE)
      decreases |file| - pos
    {
      var step := ReadBlock(c, file, pos);
      ghost var before := records;
      match step
      case EndOfFile =>
        assert before + [] == before;
        return;
      case Fault(e) =>
        assert before + [] == before;
        error := Some(e);
        return;
      case Got(rec) =>
        records := records + [rec];
        if rec.btype == END_OF_CAPTURE {
          return;
        }
        ghost var rest := IterateFrom(c, file, rec.end);
        assert before + ([rec] + rest.records) == before + [rec] + rest.records;
        pos := rec.end;
    }
  }
}
