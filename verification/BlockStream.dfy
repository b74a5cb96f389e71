/** What the iterator yields for a stream of written blocks, and for a stream whose end is replaced. */
module BlockStream {
  import opened ByteStrings
  import opened Integrity
  import opened Compression
  import opened Blocks

  /** The record expected for block `b` written at offset `pos`. */
  function RecordOf(c: Codec, b: Block, pos: nat): (r: BlockRecord)
    requires Writable(c, b)
  {
    var length := |BlockBytes(c, b)|;
    BlockRecord(b.btype, b.flags, length, 1, b.uuid, b.parent, b.prevHash, PadBytes(b.payload), pos, pos + length)
  }

  ghost function RecordsOf(c: Codec, blocks: seq<Block>, pos: nat): (r: seq<BlockRecord>)
    requires AllWritable(c, blocks)
    ensures |r| == |blocks|
  {
    if blocks == [] then []
    else [RecordOf(c, blocks[0], pos)] + RecordsOf(c, blocks[1..], pos + |BlockBytes(c, blocks[0])|)
  }

  lemma AlignedTail(b: Bytes)
    requires |b| % 8 == 0
    ensures Pad8(|b|) == |b|
  {
  }

  /** Compression, the size prefix and the alignment are all undone. */
  lemma UnpackedOnDisk(c: Codec, b: Block)
    requires CodecOk(c) && Writable(c, b)
    ensures Unpacked(c, b.flags, OnDisk(c, b).value) == Some(PadBytes(b.payload))
  {
    if IsCompressed(b.flags) {
      var padded := PadBytes(b.payload);
      var algo := AlgoOf(b.flags).value;
      var z := Compressed(c, padded, algo);
      var j := Pad8(|z|) - |z|;
      PadSplit(LE(|padded|, 8), z);
      var disk := OnDisk(c, b).value;
      assert disk == LE(|padded|, 8) + (z + Zeros(j));
      assert disk[..8] == LE(|padded|, 8) && disk[8..] == z + Zeros(j);
      LE64(|padded|);
      AlignedTail(padded);
      DecompressPadded(c, padded, algo, j);
    }
  }

  lemma CutBlockHeader(
    m: Bytes, t: Bytes, f: Bytes, l: Bytes, v: Bytes, z: Bytes, u: Bytes, p: Bytes, h: Bytes)
    requires |m| == 4 && |t| == 2 && |f| == 2 && |l| == 4 && |v| == 2 && |z| == 2 && |u| == 16 && |p| == 16 && |h| == 32
    ensures var b := m + t + f + l + v + z + u + p + h;
            && |b| == 80 && b[0..4] == m && b[4..6] == t && b[6..8] == f && b[8..12] == l && b[12..14] == v
            && b[16..32] == u && b[32..48] == p && b[48..80] == h
  {
  }

  lemma BlockHeaderFields(b: Block, length: U32)
    ensures var h := BlockHeader(b, length);
            && h[0..4] == BLOCK_MAGIC && Get16(h[4..6]) == b.btype && Get16(h[6..8]) == b.flags
            && Get32(h[8..12]) == length && Get16(h[12..14]) == 1
            && h[16..32] == b.uuid && h[32..48] == b.parent && h[48..80] == b.prevHash
  {
    CutBlockHeader(BLOCK_MAGIC, LE(b.btype, 2), LE(b.flags, 2), LE(length, 4), LE(1, 2), LE(0, 2), b.uuid, b.parent,
                   b.prevHash);
    LE16(b.btype);
    LE16(b.flags);
    LE32(length);
    LE16(1);
  }

  /** A written block is read back wherever it lies in a file. */
  lemma ReadWritten(c: Codec, b: Block, pre: Bytes, post: Bytes)
    requires CodecOk(c) && Writable(c, b) && !IsContinuation(b.flags)
    ensures ReadBlock(c, pre + BlockBytes(c, b) + post, |pre|) == Got(RecordOf(c, b, |pre|))
  {
    var d := OnDisk(c, b).value;
    var length := BLOCK_HEADER_SIZE + |d|;
    var h := BlockHeader(b, length);
    var file := pre + BlockBytes(c, b) + post;
    BlockAt(pre, h, d, post);
    assert BlockBytes(c, b) == h + d;
    BlockHeaderFields(b, length);
    UnpackedOnDisk(c, b);
  }

  lemma BlockAt(pre: Bytes, h: Bytes, d: Bytes, post: Bytes)
    ensures var file := pre + (h + d) + post;
            && Slice(file, |pre|, |pre| + |h|) == h
            && Slice(file, |pre| + |h|, |pre| + (|h| + |d|)) == d
  {
  }

  /** A stream as the writer closes it: one EndOfCapture block, at the end. */
  ghost predicate Closed(blocks: seq<Block>) {
    && |blocks| > 0 && blocks[|blocks| - 1].btype == END_OF_CAPTURE
    && (forall i :: 0 <= i < |blocks| - 1 ==> blocks[i].btype != END_OF_CAPTURE)
    && (forall i :: 0 <= i < |blocks| ==> !IsContinuation(blocks[i].flags))
  }

  lemma ReadHere(c: Codec, b: Block, file: Bytes, pos: nat, post: Bytes)
    requires CodecOk(c) && Writable(c, b) && !IsContinuation(b.flags)
    requires pos <= |file| && file[pos..] == BlockBytes(c, b) + post
    ensures ReadBlock(c, file, pos) == Got(RecordOf(c, b, pos))
    ensures pos + |BlockBytes(c, b)| <= |file| && file[pos + |BlockBytes(c, b)|..] == post
  {
    hide ReadBlock, BlockBytes, Writable;
    var bytes := BlockBytes(c, b);
    assert file == file[..pos] + bytes + post;
    ReadWritten(c, b, file[..pos], post);
    assert file[pos + |bytes|..] == file[pos..][|bytes|..];
  }

  lemma ClosedTail(blocks: seq<Block>)
    requires Closed(blocks) && |blocks| > 1
    ensures Closed(blocks[1..]) && blocks[0].btype != END_OF_CAPTURE
  {
    assert blocks[1..][|blocks| - 2] == blocks[|blocks| - 1];
  }

  /** The iterator yields exactly the written blocks, in order. */
  lemma {:induction false} IterateStream(c: Codec, blocks: seq<Block>, file: Bytes, pos: nat, post: Bytes)
    requires CodecOk(c) && AllWritable(c, blocks) && Closed(blocks)
    requires pos <= |file| && file[pos..] == Stream(c, blocks) + post
    ensures IterateFrom(c, file, pos) == Iteration(RecordsOf(c, blocks, pos), None)
    decreases |blocks|
  {
    hide ReadBlock, BlockBytes, Writable;
    var b := BlockBytes(c, blocks[0]);
    assert Stream(c, blocks) + post == b + (Stream(c, blocks[1..]) + post);
    ReadHere(c, blocks[0], file, pos, Stream(c, blocks[1..]) + post);
    if |blocks| > 1 {
      ClosedTail(blocks);
      IterateStream(c, blocks[1..], file, pos + |b|, post);
    } else {
      assert RecordsOf(c, blocks[1..], pos + |b|) == [];
    }
  }

  /** The records' offsets tile the stream without gap or overlap. */
  lemma {:induction false} RecordsTile(c: Codec, blocks: seq<Block>, pos: nat)
    requires AllWritable(c, blocks) && |blocks| > 0
    ensures var r := RecordsOf(c, blocks, pos);
            && r[0].start == pos && r[|r| - 1].end == pos + |Stream(c, blocks)|
            && (forall k :: 0 <= k < |r| - 1 ==> r[k].end == r[k + 1].start)
            && (forall k :: 0 <= k < |r| ==> r[k].end == r[k].start + r[k].length)
  {
    hide BlockBytes, Writable;
    if |blocks| > 1 {
      RecordsTile(c, blocks[1..], pos + |BlockBytes(c, blocks[0])|);
    } else {
      assert Stream(c, blocks[1..]) == [];
    }
  }

  lemma {:induction false} RecordsAt(c: Codec, blocks: seq<Block>, pos: nat, k: nat)
    requires AllWritable(c, blocks) && k < |blocks|
    ensures RecordsOf(c, blocks, pos)[k] == RecordOf(c, blocks[k], RecordsOf(c, blocks, pos)[k].start)
  {
    hide BlockBytes, Writable;
    if k > 0 {
      RecordsAt(c, blocks[1..], pos + |BlockBytes(c, blocks[0])|, k - 1);
    }
  }

  // ------------------------------------------------------ replacing the end

  /** Reading a block looks at nothing beyond the block's own end. */
  lemma ReadBlockLocal(c: Codec, f: Bytes, g: Bytes, pos: nat)
    requires pos <= |f| && ReadBlock(c, f, pos).Got?
    requires var end := ReadBlock(c, f, pos).rec.end; end <= |g| && f[..end] == g[..end]
    ensures ReadBlock(c, g, pos) == ReadBlock(c, f, pos)
  {
    var end := ReadBlock(c, f, pos).rec.end;
    SlicesAgree(f, g, pos, pos + BLOCK_HEADER_SIZE, end);
    SlicesAgree(f, g, pos + BLOCK_HEADER_SIZE, end, end);
  }

  lemma SlicesAgree(f: Bytes, g: Bytes, lo: nat, hi: nat, end: nat)
    requires lo <= hi <= end <= |f| && end <= |g| && f[..end] == g[..end]
    ensures Slice(f, lo, hi) == Slice(g, lo, hi)
  {
    assert f[lo..hi] == f[..end][lo..hi];
    assert g[lo..hi] == g[..end][lo..hi];
  }

  /**
   * A well-formed slice cut at its EndOfCapture block and continued by other bytes: the blocks
   * before the cut are still read, and iteration goes on in the new bytes.
   */
  lemma {:induction false} IterateSpliced(c: Codec, f: Bytes, g: Bytes, pos: nat, cut: nat)
    requires pos <= cut <= |f| && cut <= |g| && f[..cut] == g[..cut]
    requires var it := IterateFrom(c, f, pos);
             && |it.records| > 0 && it.records[|it.records| - 1].btype == END_OF_CAPTURE
             && it.records[|it.records| - 1].start == cut
    ensures var it := IterateFrom(c, f, pos);
            var tail := IterateFrom(c, g, cut);
            IterateFrom(c, g, pos) == Iteration(it.records[..|it.records| - 1] + tail.records, tail.error)
    decreases |f| - pos
  {
    hide ReadBlock;
    var it := IterateFrom(c, f, pos);
    var rec := ReadBlock(c, f, pos).rec;
    var tail := IterateFrom(c, g, cut);
    if rec.btype == END_OF_CAPTURE {
      assert it.records[..0] + tail.records == tail.records;
    } else {
      var rest := IterateFrom(c, f, rec.end);
      LastOfCons(rec, rest.records, tail.records);
      LastStartsAfter(c, f, rec.end);
      SlicePrefix(f, g, rec.end, cut);
      ReadBlockLocal(c, f, g, pos);
      IterateSpliced(c, f, g, rec.end, cut);
    }
  }

  lemma LastOfCons<T>(x: T, xs: seq<T>, ys: seq<T>)
    ensures |xs| > 0 ==>
              var s := [x] + xs;
              s[|s| - 1] == xs[|xs| - 1] && [x] + (xs[..|xs| - 1] + ys) == s[..|s| - 1] + ys
  {
  }

  lemma SlicePrefix(f: Bytes, g: Bytes, a: nat, b: nat)
    requires a <= b <= |f| && b <= |g| && f[..b] == g[..b]
    ensures f[..a] == g[..a]
  {
    assert f[..a] == f[..b][..a];
    assert g[..a] == g[..b][..a];
  }

  lemma {:induction false} LastStartsAfter(c: Codec, f: Bytes, pos: nat)
    requires pos <= |f|
    ensures var it := IterateFrom(c, f, pos); |it.records| > 0 ==> it.records[|it.records| - 1].start >= pos
    decreases |f| - pos
  {
    hide ReadBlock;
    var s := ReadBlock(c, f, pos);
    if s.Got? && s.rec.btype != END_OF_CAPTURE {
      LastStartsAfter(c, f, s.rec.end);
      var rest := IterateFrom(c, f, s.rec.end).records;
      if |rest| > 0 {
        assert ([s.rec] + rest)[|rest|] == rest[|rest| - 1];
      }
    }
  }
}
