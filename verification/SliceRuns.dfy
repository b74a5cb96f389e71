/** Whole runs of the writer: any list of block writes, then the end of capture. */
module SliceRuns {
  import opened ByteStrings
  import opened Integrity
  import opened Compression
  import opened Encryption
  import opened Blocks
  import opened BlockStream
  import opened Writer
  import opened SliceFile

  /** One call of `_write_block`. */
  datatype WriteOp = WriteOp(
    btype: U16, flags: U16, payload: Bytes, parent: Option<Uuid>, blockUuid: Option<Uuid>, drawn: Uuid)

  /** The calls that succeed: those whose block is not too long. */
  function Accepted(c: Codec, ops: seq<WriteOp>): (r: seq<WriteOp>) {
    if ops == [] then []
    else
      var n := |ops| - 1;
      Accepted(c, ops[..n]) + if CompressedFits(c, ops[n].flags, ops[n].payload) then [ops[n]] else []
  }

  /** The block a call writes, but for the PrevHash. */
  predicate Made(b: Block, op: WriteOp) {
    && b.btype == op.btype && b.flags == op.flags && b.payload == op.payload
    && b.uuid == (if op.blockUuid.Some? then op.blockUuid.value else op.drawn)
    && b.parent == if op.parent.Some? then op.parent.value else Zeros(16)
  }

  /** The accepted calls in order, then the EndOfCapture block. */
  predicate BlocksOfRun(c: Codec, ops: seq<WriteOp>, blocks: seq<Block>) {
    && |blocks| == |Accepted(c, ops)| + 1
    && (forall k :: 0 <= k < |blocks| - 1 ==> Made(blocks[k], Accepted(c, ops)[k]))
    && blocks[|blocks| - 1].btype == END_OF_CAPTURE && blocks[|blocks| - 1].flags == 0
  }

  /** No call writes an EndOfCapture block or a continuation, as none of the writer's own does. */
  predicate Ordinary(ops: seq<WriteOp>) {
    forall i :: 0 <= i < |ops| ==> ops[i].btype != END_OF_CAPTURE && !IsContinuation(ops[i].flags)
  }

  lemma {:induction false} AcceptedOrdinary(c: Codec, ops: seq<WriteOp>)
    requires Ordinary(ops)
    ensures Ordinary(Accepted(c, ops))
    decreases |ops|
  {
    hide CompressedFits, IsContinuation;
    if ops != [] {
      AcceptedOrdinary(c, ops[..|ops| - 1]);
    }
  }

  lemma RunClosed(c: Codec, ops: seq<WriteOp>, blocks: seq<Block>)
    requires BlocksOfRun(c, ops, blocks) && Ordinary(ops)
    ensures Closed(blocks)
  {
    AcceptedOrdinary(c, ops);
    hide Accepted;
    var acc := Accepted(c, ops);
    forall i | 0 <= i < |blocks| - 1 ensures blocks[i].btype != END_OF_CAPTURE && !IsContinuation(blocks[i].flags) {
      assert Made(blocks[i], acc[i]);
    }
  }

  /** The calls of a run, each failing on its own. */
  method WriteAll(w: MSLWriter, ops: seq<WriteOp>)
    requires w.Valid() && !w.IsSealed() && w.log == []
    modifies w`output, w`blockIndex, w`log, w.chain, w.encryptor
    ensures w.Valid() && !w.IsSealed()
    ensures |w.log| == |Accepted(w.codec, ops)|
            && forall k :: 0 <= k < |w.log| ==> Made(w.log[k], Accepted(w.codec, ops)[k])
  {
    hide MSLWriter.Valid, MSLWriter.IsSealed, Writable, CompressedFits;
    for i := 0 to |ops|
      invariant w.Valid() && !w.IsSealed()
      invariant |w.log| == |Accepted(w.codec, ops[..i])|
      invariant forall k :: 0 <= k < |w.log| ==> Made(w.log[k], Accepted(w.codec, ops[..i])[k])
    {
      var op := ops[i];
      assert ops[..i + 1][..i] == ops[..i];
      FitsByPayload(w.codec,
                    Block(op.btype, op.flags, op.payload, if op.blockUuid.Some? then op.blockUuid.value else op.drawn,
                          if op.parent.Some? then op.parent.value else Zeros(16),
                          if w.enc.Some? then Zeros(32) else w.chain.prevHash));
      var r := w.WriteBlock(op.btype, op.payload, op.flags, op.parent, op.blockUuid, op.drawn);
    }
    assert ops[..|ops|] == ops;
  }

  /** Record `k` carries the hash of the header, or of all bytes of the record before it. */
  ghost predicate LinkHolds(hash: Hash, file: Bytes, r: seq<BlockRecord>, k: nat) {
    && k < |r| && |file| >= HEADER_SIZE
    && (k > 0 ==> r[k - 1].start <= r[k - 1].end <= |file|)
    && r[k].prevHash == if k == 0 then hash(file[..HEADER_SIZE]) else hash(file[r[k - 1].start..r[k - 1].end])
  }

  /** The chain and the file hash, in terms of the file's bytes and the records read back from it. */
  ghost predicate ChainHolds(hash: Hash, file: Bytes, r: seq<BlockRecord>) {
    && |r| > 0 && (forall k: nat :: k < |r| ==> LinkHolds(hash, file, r, k))
    && var eoc := r[|r| - 1]; eoc.start <= |file| && |eoc.payload| == 48 && eoc.payload[..32] == hash(file[..eoc.start])
  }

  /** The file iterates to exactly these blocks, tiling it from 64 to its end, chained by hash. */
  ghost predicate PlainFile(c: Codec, hash: Hash, file: Bytes, blocks: seq<Block>)
    requires AllWritable(c, blocks)
  {
    var r := RecordsOf(c, blocks, HEADER_SIZE);
    && Iterated(c, file) == Iteration(r, None) && ChainHolds(hash, file, r)
    && r[0].start == HEADER_SIZE && r[|r| - 1].end == |file|
       && forall k :: 0 <= k < |r| - 1 ==> r[k].end == r[k + 1].start
  }

  lemma RunFile(c: Codec, hash: Hash, h: FileHeader, ops: seq<WriteOp>, blocks: seq<Block>)
    requires CodecOk(c) && ReadableHeader(h) && Ordinary(ops) && BlocksOfRun(c, ops, blocks) && AllWritable(c, blocks)
    requires Chained(hash, c, BaseHeader(h, 64), blocks, false) && EndsWithFileHash(hash, c, BaseHeader(h, 64), blocks)
    ensures PlainFile(c, hash, BaseHeader(h, 64) + Stream(c, blocks), blocks)
  {
    hide CodecOk, ReadableHeader, BlocksOfRun, Chained, LinkHolds, Iterated, Stream, BaseHeader, RecordsOf, AllWritable;
    var file, r := BaseHeader(h, 64) + Stream(c, blocks), RecordsOf(c, blocks, HEADER_SIZE);
    RunClosed(c, ops, blocks);
    FileRoundTrip(c, h, blocks);
    FileHashOverFile(hash, c, h, blocks);
    forall k: nat | k < |r| ensures LinkHolds(hash, file, r, k) {
      LinkOverFile(hash, c, h, blocks, k);
    }
  }

  lemma LinkOverFile(hash: Hash, c: Codec, h: FileHeader, blocks: seq<Block>, k: nat)
    requires AllWritable(c, blocks) && k < |blocks| && Chained(hash, c, BaseHeader(h, 64), blocks, false)
    ensures LinkHolds(hash, BaseHeader(h, 64) + Stream(c, blocks), RecordsOf(c, blocks, HEADER_SIZE), k)
  {
    hide Chained, Stream, BaseHeader, RecordsOf, AllWritable;
    ChainOverFile(hash, c, h, blocks, k);
  }

  /**
   * Every run of the writer: whatever is written, the file iterates to the accepted blocks and the end, with
   * chain and file hash over its own bytes; an encrypted file is the header, then ciphertext and tag of exactly
   * the block stream, with every PrevHash zero.
   */
  method WriteSlice(
    h: FileHeader, c: Codec, algo: CompAlgo, hash: Hash, enc: Option<EncryptionSetup>, ops: seq<WriteOp>, acqEnd: U64,
    eocUuid: Uuid)
    returns (file: Bytes, ghost blocks: seq<Block>)
    requires enc.Some? ==> SetupOk(enc.value)
    ensures AllWritable(c, blocks) && BlocksOfRun(c, ops, blocks)
    ensures enc.None? && CodecOk(c) && ReadableHeader(h) && Ordinary(ops) ==> PlainFile(c, hash, file, blocks)
    ensures enc.Some? ==>
              && file == HeaderBytes(h, enc) + Sealed(enc.value, HeaderBytes(h, enc), Stream(c, blocks))
              && forall k :: 0 <= k < |blocks| ==> blocks[k].prevHash == Zeros(32)
  {
    hide MSLWriter.Valid, MSLWriter.IsSealed, Accepted, Made, Stream, AllWritable, Chained, BaseHeader, HeaderBytes;
    hide Sealed, EocPayload;
    hide CodecOk, ReadableHeader, Ordinary, PlainFile, EndsWithFileHash;
    var w := new MSLWriter(h, c, algo, hash, enc);
    WriteAll(w, ops);
    ghost var before := w.log;
    Written(w);
    var e := w.Finalize(acqEnd, eocUuid);
    blocks := w.log;
    file := w.output;
    assert blocks[..|blocks| - 1] == before;
    Written(w);
    if enc.None? {
      PlainOutput(w);
      EndHash(hash, c, BaseHeader(h, 64), before, blocks, acqEnd);
      if CodecOk(c) && ReadableHeader(h) && Ordinary(ops) {
        RunFile(c, hash, h, ops, blocks);
      }
    } else {
      SealedOutput(w);
    }
  }

  lemma Written(w: MSLWriter)
    requires w.Valid()
    ensures AllWritable(w.codec, w.log) && w.headerBytes == HeaderBytes(w.header, w.enc)
  {
  }

  lemma EndHash(hash: Hash, c: Codec, header: Bytes, before: seq<Block>, blocks: seq<Block>, acqEnd: U64)
    requires AllWritable(c, before) && AllWritable(c, blocks) && |blocks| > 0 && blocks[..|blocks| - 1] == before
    requires blocks[|blocks| - 1].payload == EocPayload(hash(header + Stream(c, before)), acqEnd)
    ensures EndsWithFileHash(hash, c, header, blocks)
  {
    hide Stream, EocPayload;
  }
}
