/** Retroactive enrichment: a build-id manifest spliced into a finished slice in place of its EndOfCapture block. */
module Enrich {
  import opened ByteStrings
  import opened Integrity
  import opened Compression
  import opened Encryption
  import opened Blocks
  import opened BlockStream
  import opened Writer
  import opened SliceFile
  import opened Loader
  import opened EnrichView

  // --------------------------------------------------------------- manifest

  datatype BuildIdRow = BuildIdRow(
    baseAddr: U64, buildIdLen: U8, source: U8, flags: U8, buildId: Bytes, diskHash: Bytes)

  function RowBytes(r: BuildIdRow): (b: Bytes)
    requires |r.buildId| <= 20 && |r.diskHash| <= 32
    ensures |b| == 64
  {
    LE(r.baseAddr, 8) + [r.buildIdLen, r.source, r.flags, 0] + (r.buildId + Zeros(20 - |r.buildId|))
    + (r.diskHash + Zeros(32 - |r.diskHash|))
  }

  function RowCheck(rows: seq<BuildIdRow>): (e: Option<WriteError>)
    ensures e.None? ==> forall i :: 0 <= i < |rows| ==> |rows[i].buildId| <= 20 && |rows[i].diskHash| <= 32
  {
    if rows == [] then None
    else if |rows[0].buildId| > 20 then Some(BuildIdTooLong)
    else if |rows[0].diskHash| > 32 then Some(DiskHashTooLong)
    else RowCheck(rows[1..])
  }

  predicate RowFits(r: BuildIdRow) {
    |r.buildId| <= 20 && |r.diskHash| <= 32
  }

  /** Rows pass when every id has at most 20 bytes and every disk hash at most 32; otherwise the first row decides. */
  lemma {:induction false} RowCheckMeans(rows: seq<BuildIdRow>)
    ensures RowCheck(rows).None? <==> forall i :: 0 <= i < |rows| ==> RowFits(rows[i])
    ensures forall i :: 0 <= i < |rows| && !RowFits(rows[i]) && (forall j :: 0 <= j < i ==> RowFits(rows[j])) ==>
              RowCheck(rows) == Some(if |rows[i].buildId| > 20 then BuildIdTooLong else DiskHashTooLong)
    decreases |rows|
  {
    if rows != [] && RowFits(rows[0]) {
      var rest := rows[1..];
      RowCheckMeans(rest);
      assert forall i :: 0 <= i < |rest| ==> rest[i] == rows[i + 1];
      forall i | 0 <= i < |rows| && !RowFits(rows[i]) && (forall j :: 0 <= j < i ==> RowFits(rows[j]))
        ensures RowCheck(rows) == Some(if |rows[i].buildId| > 20 then BuildIdTooLong else DiskHashTooLong)
      {
        assert rest[i - 1] == rows[i];
        assert forall j :: 0 <= j < i - 1 ==> RowFits(rest[j]);
      }
      if forall i :: 0 <= i < |rest| ==> RowFits(rest[i]) {
        assert forall i :: 0 < i < |rows| ==> rows[i] == rest[i - 1];
      }
    }
  }

  function RowsBytes(rows: seq<BuildIdRow>): (b: Bytes)
    requires RowCheck(rows).None?
    ensures |b| == 64 * |rows|
  {
    if rows == [] then [] else RowBytes(rows[0]) + RowsBytes(rows[1..])
  }

  /** The most rows whose block length is still a 32-bit number: 67108862 of them. */
  predicate RowsWritable(rows: seq<BuildIdRow>) {
    RowCheck(rows).None? && 8 + 64 * |rows| <= MAX_PAYLOAD
  }

  lemma ManifestWritable(c: Codec, b: Block, rows: seq<BuildIdRow>)
    requires RowCheck(rows).None? && b.flags == 0 && b.payload == LE(|rows|, 4) + LE(0, 4) + RowsBytes(rows)
    ensures Writable(c, b) <==> RowsWritable(rows)
  {
    hide RowCheck, RowsBytes, LE, Writable, Pad8;
    PlainWritable(c, b);
    ModUnique(8 + 64 * |rows|, 8, 1 + 8 * |rows|, 0);
    assert |b.payload| == 8 + 64 * |rows|;
    AlignedTail(b.payload);
  }

  /** `write_module_build_id_manifest`: written exactly when every row passes and the block is not too long. */
  method WriteManifest(w: MSLWriter, rows: seq<BuildIdRow>, uuid: Uuid) returns (r: Result<Uuid, WriteError>)
    requires w.Valid()
    modifies w`output, w`blockIndex, w`log, w.chain, w.encryptor
    ensures w.Valid() && w.IsSealed() == old(w.IsSealed())
    ensures RowCheck(rows).Some? ==> r == Err(RowCheck(rows).value)
    ensures r.Ok? <==> RowsWritable(rows) && !old(w.IsSealed())
    ensures r.Ok? ==>
              && r.value == uuid
              && w.log
                 == old(w.log) + [ManifestBlock(rows, uuid, if w.enc.Some? then Zeros(32) else old(w.chain.prevHash))]
    ensures r.Ok? ==> |w.log| > |old(w.log)| && w.log[|old(w.log)|].btype == 0x005A
    ensures r.Err? ==> w.log == old(w.log) && w.output == old(w.output)
  {
    hide RowsBytes, RowBytes, MSLWriter.Valid, Writable, OnDisk, RowCheck, LE;
    var e := RowCheck(rows);
    if e.Some? {
      return Err(e.value);
    }
    if |rows| >= 0x1_0000_0000 {
      return Err(WriteError.FieldTooWide);
    }
    ManifestWritable(w.codec, ManifestBlock(rows, uuid, if w.enc.Some? then Zeros(32) else w.chain.prevHash), rows);
    r := w.WriteBlock(MODULE_BUILD_ID_MANIFEST, LE(|rows|, 4) + LE(0, 4) + RowsBytes(rows), 0, None, None, uuid);
  }

  function ManifestBlock(rows: seq<BuildIdRow>, uuid: Uuid, prevHash: Digest): (b: Block)
    requires RowCheck(rows).None?
  {
    Block(MODULE_BUILD_ID_MANIFEST, 0, LE(|rows|, 4) + LE(0, 4) + RowsBytes(rows), uuid, Zeros(16), prevHash)
  }

  /** The blocks of a rendered tail: the manifest, then an EndOfCapture block. */
  ghost predicate IsTail(blocks: seq<Block>, rows: seq<BuildIdRow>) {
    && |blocks| == 2 && RowCheck(rows).None?
    && blocks[0] == ManifestBlock(rows, blocks[0].uuid, blocks[0].prevHash)
    && blocks[1].btype == END_OF_CAPTURE && blocks[1].flags == 0
  }

  /** `_render_manifest_tail`: a throwaway unencrypted writer, its header stripped. */
  method RenderManifestTail(
    c: Codec, hash: Hash, header: FileHeader, rows: seq<BuildIdRow>, manifestUuid: Uuid, eocUuid: Uuid, acqEnd: U64)
    returns (r: Result<Bytes, WriteError>, ghost blocks: seq<Block>)
    ensures RowCheck(rows).Some? ==> r == Err(RowCheck(rows).value)
    ensures r.Ok? <==> RowsWritable(rows)
    ensures r.Ok? ==> AllWritable(c, blocks) && IsTail(blocks, rows) && r.value == Stream(c, blocks)
  {
    hide ManifestBlock, MSLWriter.Valid, MSLWriter.IsSealed, Stream, AllWritable, Chained, EocPayload, RowCheck;
    var w := new MSLWriter(header, c, NONE, hash, None);
    ghost var prev := w.chain.prevHash;
    var m := WriteManifest(w, rows, manifestUuid);
    blocks := w.log;
    if m.Err? {
      return Err(m.error), blocks;
    }
    PlainOutput(w);
    var e := w.Finalize(acqEnd, eocUuid);
    blocks := w.log;
    ManifestFields(rows, manifestUuid, prev);
    PlainOutput(w);
    r := Ok(w.output[HEADER_SIZE..]);
  }

  lemma ManifestFields(rows: seq<BuildIdRow>, uuid: Uuid, prevHash: Digest)
    requires RowCheck(rows).None?
    ensures var b := ManifestBlock(rows, uuid, prevHash); b.uuid == uuid && b.prevHash == prevHash
  {
  }

  // ------------------------------------------------------------------ splice

  /** `_write_enriched`: copy up to the cut in chunks, then the tail; None where the source ends early. */
  method WriteEnriched(src: Bytes, eocStart: nat, tail: Bytes) returns (dst: Option<Bytes>)
    ensures dst == if eocStart <= |src| then Some(src[..eocStart] + tail) else None
  {
    var out: Bytes := [];
    var remaining, pos := eocStart, 0;
    while remaining > 0
      invariant remaining >= 0 && pos + remaining == eocStart && pos <= |src| && out == src[..pos]
      decreases remaining
    {
      var chunk := Slice(src, pos, pos + Min(remaining, 0x10_0000));
      if |chunk| == 0 {
        NextChunk(src, pos, Min(remaining, 0x10_0000));
        return None;
      }
      NextChunk(src, pos, Min(remaining, 0x10_0000));
      out := out + chunk;
      pos := pos + |chunk|;
      remaining := remaining - |chunk|;
    }
    dst := Some(out + tail);
  }

  /** A read of `n` bytes at `pos` returns what is there, nothing only at the end. */
  lemma NextChunk(src: Bytes, pos: nat, n: nat)
    requires pos <= |src| && n > 0
    ensures var chunk := Slice(src, pos, pos + n);
            && |chunk| <= n && pos + |chunk| <= |src| && src[..pos] + chunk == src[..pos + |chunk|]
            && (|chunk| == 0 ==> pos == |src|)
  {
  }

  lemma HeaderErrorLocal(f: Bytes, g: Bytes, cut: nat)
    requires HEADER_SIZE <= cut <= |f| && cut <= |g| && f[..cut] == g[..cut]
    ensures HeaderError(f) == HeaderError(g)
  {
    SlicesAgree(f, g, 0, 8, cut);
    assert f[0x0C..0x10] == f[..cut][0x0C..0x10] && g[0x0C..0x10] == g[..cut][0x0C..0x10];
    assert f[0x3D] == f[..cut][0x3D] && g[0x3D] == g[..cut][0x3D];
  }

  /** A tail iterates to its own two blocks. */
  lemma TailRecords(c: Codec, blocks: seq<Block>, rows: seq<BuildIdRow>, file: Bytes, cut: nat)
    requires CodecOk(c) && AllWritable(c, blocks) && IsTail(blocks, rows)
    requires cut <= |file| && file[cut..] == Stream(c, blocks)
    ensures IterateFrom(c, file, cut) == Iteration(RecordsOf(c, blocks, cut), None)
  {
    hide Stream, RecordsOf, IterateFrom, Writable, RowCheck, RowsBytes, LE, CodecOk;
    assert Closed(blocks);
    hide ManifestBlock, IsTail, Closed, AllWritable;
    assert Stream(c, blocks) == Stream(c, blocks) + [];
    IterateStream(c, blocks, file, cut, []);
  }

  /** `_load_slice`'s cut point, the offset of the EndOfCapture block; None where it raises. */
  function EocStart(c: Codec, file: Bytes): (s: Option<nat>) {
    var v := Viewed(c, file);
    if v.None? then None else v.value.eocStart
  }

  /**
   * For every slice the enricher reads: the enriched file keeps all bytes before the
   * EndOfCapture block and iterates to the original blocks before it, the manifest, and a new end.
   */
  lemma EnrichmentPreserves(c: Codec, file: Bytes, blocks: seq<Block>, rows: seq<BuildIdRow>)
    requires CodecOk(c) && AllWritable(c, blocks) && IsTail(blocks, rows) && EocStart(c, file).Some?
    ensures var cut := EocStart(c, file).value;
            && HEADER_SIZE <= cut <= |file|
            && var enriched := file[..cut] + Stream(c, blocks);
               var it := Iterated(c, file);
               Iterated(c, enriched) == Iteration(it.records[..|it.records| - 1] + RecordsOf(c, blocks, cut), None)
  {
    hide Stream, RecordsOf, ReadBlock, HeaderError, CodecOk, Writable, Viewed;
    var it := Iterated(c, file);
    ViewedEnd(c, file);
    var cut := EocStart(c, file).value;
    LastStartsAfter(c, file, HEADER_SIZE);
    LastStartsBefore(c, file, HEADER_SIZE);
    var enriched := file[..cut] + Stream(c, blocks);
    assert enriched[..cut] == file[..cut] && enriched[cut..] == Stream(c, blocks);
    HeaderErrorLocal(file, enriched, cut);
    TailRecords(c, blocks, rows, enriched, cut);
    IterateSpliced(c, file, enriched, HEADER_SIZE, cut);
  }

  lemma {:induction false} LastStartsBefore(c: Codec, f: Bytes, pos: nat)
    requires pos <= |f|
    ensures var it := IterateFrom(c, f, pos); |it.records| > 0 ==> it.records[|it.records| - 1].start <= |f|
    decreases |f| - pos
  {
    hide ReadBlock;
    var s := ReadBlock(c, f, pos);
    if s.Got? && s.rec.btype != END_OF_CAPTURE {
      LastStartsBefore(c, f, s.rec.end);
      var rest := IterateFrom(c, f, s.rec.end).records;
      if |rest| > 0 {
        assert ([s.rec] + rest)[|rest|] == rest[|rest| - 1];
      }
    }
  }

  lemma {:induction false} AddRecordsAppend(img: SliceImage, a: seq<BlockRecord>, b: seq<BlockRecord>)
    ensures AddRecords(img, a + b) == var m := AddRecords(img, a); if m.None? then None else AddRecords(m.value, b)
    decreases |a|
  {
    hide AddRecord;
    if a == [] {
      assert a + b == b;
    } else {
      assert (a + b)[1..] == a[1..] + b;
      assert (a + b)[0] == a[0];
      var next := AddRecord(img, a[0]);
      if next.Some? {
        AddRecordsAppend(next.value, a[1..], b);
      }
    }
  }

  lemma InertRecord(img: SliceImage, r: BlockRecord)
    requires r.btype == END_OF_CAPTURE || r.btype == MODULE_BUILD_ID_MANIFEST
    ensures AddRecords(img, [r]) == Some(img)
  {
    assert [r][1..] == [];
  }

  /** Enrichment is invisible to the loader: the enriched file loads to the very same image. */
  lemma EnrichedImage(c: Codec, file: Bytes, blocks: seq<Block>, rows: seq<BuildIdRow>)
    requires CodecOk(c) && AllWritable(c, blocks) && IsTail(blocks, rows) && EocStart(c, file).Some?
    ensures EocStart(c, file).value <= |file|
    ensures LoadedImage(c, file[..EocStart(c, file).value] + Stream(c, blocks)) == LoadedImage(c, file)
  {
    ViewedEnd(c, file);
    EnrichmentPreserves(c, file, blocks, rows);
    var cut := EocStart(c, file).value;
    var enriched := file[..cut] + Stream(c, blocks);
    var recs := Iterated(c, file).records;
    var tail := RecordsOf(c, blocks, cut);
    TailRecordTypes(c, blocks, rows, cut);
    hide Stream, RecordsOf, Iterated, IsTail, CodecOk, AllWritable, AddRecords, EmptyImage, Viewed;
    assert enriched[..cut] == file[..cut];
    SameStart(file, enriched, cut);
    SameImage(EmptyImage(file), recs, tail);
  }

  /** Exchanging the closing record for a manifest and another closing record changes no image. */
  lemma SameImage(img: SliceImage, recs: seq<BlockRecord>, tail: seq<BlockRecord>)
    requires |recs| > 0 && recs[|recs| - 1].btype == END_OF_CAPTURE
    requires |tail| == 2 && tail[0].btype == MODULE_BUILD_ID_MANIFEST && tail[1].btype == END_OF_CAPTURE
    ensures AddRecords(img, recs[..|recs| - 1] + tail) == AddRecords(img, recs)
  {
    hide AddRecords;
    var n := |recs| - 1;
    assert recs == recs[..n] + [recs[n]] && tail == [tail[0]] + [tail[1]];
    AddRecordsAppend(img, recs[..n], [recs[n]]);
    AddRecordsAppend(img, recs[..n], tail);
    var m := AddRecords(img, recs[..n]);
    if m.Some? {
      InertRecord(m.value, recs[n]);
      AddRecordsAppend(m.value, [tail[0]], [tail[1]]);
      InertRecord(m.value, tail[0]);
      InertRecord(m.value, tail[1]);
    }
  }

  lemma TailRecordTypes(c: Codec, blocks: seq<Block>, rows: seq<BuildIdRow>, cut: nat)
    requires AllWritable(c, blocks) && IsTail(blocks, rows)
    ensures var tail := RecordsOf(c, blocks, cut);
            |tail| == 2 && tail[0].btype == MODULE_BUILD_ID_MANIFEST && tail[1].btype == END_OF_CAPTURE
  {
    hide BlockBytes, Writable, RowsBytes;
    RecordsAt(c, blocks, cut, 0);
    RecordsAt(c, blocks, cut, 1);
  }

  lemma SameStart(f: Bytes, g: Bytes, cut: nat)
    requires 64 <= cut <= |f| && cut <= |g| && f[..cut] == g[..cut]
    ensures f[..8] == g[..8] && EmptyImage(f) == EmptyImage(g)
  {
    assert f[..8] == f[..cut][..8] && g[..8] == g[..cut][..8];
    assert f[0x32..0x34] == f[..cut][0x32..0x34] && g[0x32..0x34] == g[..cut][0x32..0x34];
    assert f[0x30..0x32] == f[..cut][0x30..0x32] && g[0x30..0x32] == g[..cut][0x30..0x32];
  }

  /**
   * Enrichment can be repeated: the enriched file shows the enricher the same modules and regions, and a new cut point.
   */
  lemma EnrichedView(c: Codec, file: Bytes, blocks: seq<Block>, rows: seq<BuildIdRow>)
    requires CodecOk(c) && AllWritable(c, blocks) && IsTail(blocks, rows) && EocStart(c, file).Some?
    ensures EocStart(c, file).value <= |file|
    ensures var cut := EocStart(c, file).value;
            Viewed(c, file[..cut] + Stream(c, blocks))
            == Some(Viewed(c, file).value.(eocStart := Some(cut + |BlockBytes(c, blocks[0])|)))
  {
    hide Stream, RecordsOf, Iterated, CodecOk, AllWritable, ViewRecords, BlockBytes, Viewed, RowCheck, ManifestBlock;
    ViewedEnd(c, file);
    EnrichmentPreserves(c, file, blocks, rows);
    var cut := EocStart(c, file).value;
    TailRecordTypes(c, blocks, rows, cut);
    TailStart(c, blocks, cut);
    var recs, v := Iterated(c, file).records, Viewed(c, file).value;
    var tail := RecordsOf(c, blocks, cut);
    TailViewed(recs[..|recs| - 1], tail, v.(eocStart := None));
    ViewOfRecords(c, file[..cut] + Stream(c, blocks), v.(eocStart := Some(tail[1].start)));
  }

  /** A manifest and an end behind records that show `v` add the cut point alone. */
  lemma TailViewed(recs: seq<BlockRecord>, tail: seq<BlockRecord>, v: SliceView)
    requires ViewRecords(EMPTY_VIEW, recs) == Some(v)
    requires |tail| == 2 && tail[0].btype == MODULE_BUILD_ID_MANIFEST && tail[1].btype == END_OF_CAPTURE
    ensures ViewRecords(EMPTY_VIEW, recs + tail) == Some(v.(eocStart := Some(tail[1].start)))
  {
    hide ViewRecords;
    ViewAppend(EMPTY_VIEW, recs, tail);
    assert tail == [tail[0]] + [tail[1]];
    ViewAppend(v, [tail[0]], [tail[1]]);
    OneViewed(v, tail[0]);
    OneViewed(v, tail[1]);
  }

  lemma TailStart(c: Codec, blocks: seq<Block>, cut: nat)
    requires AllWritable(c, blocks) && |blocks| == 2
    ensures var tail := RecordsOf(c, blocks, cut); |tail| == 2 && tail[1].start == cut + |BlockBytes(c, blocks[0])|
  {
    hide BlockBytes, Writable;
    assert blocks[1..] == [blocks[1]] && [blocks[1]][1..] == [];
  }

  /**
   * Slices made of written blocks are always enriched: the cut point is found, the loader sees the same image
   * behind it, and the enricher itself the same modules and regions.
   */
  lemma WrittenEnriched(c: Codec, h: FileHeader, slice: seq<Block>, blocks: seq<Block>, rows: seq<BuildIdRow>)
    requires CodecOk(c) && AllWritable(c, slice) && Closed(slice) && ReadableHeader(h) && AllWritten(slice)
    requires AllWritable(c, blocks) && IsTail(blocks, rows)
    ensures var file := BaseHeader(h, 64) + Stream(c, slice);
            var cut := EocStart(c, file);
            && cut.Some? && cut.value <= |file|
            && var enriched := file[..cut.value] + Stream(c, blocks);
               && LoadedImage(c, enriched) == LoadedImage(c, file)
               && Viewed(c, enriched).Some? && Viewed(c, file).Some?
               && Viewed(c, enriched).value.modules == Viewed(c, file).value.modules
               && Viewed(c, enriched).value.regions == Viewed(c, file).value.regions
  {
    hide Stream, BaseHeader, LoadedImage, IsTail, CodecOk, AllWritable, AllWritten, BlockBytes, Closed, ReadableHeader;
    var file := BaseHeader(h, 64) + Stream(c, slice);
    WrittenViewed(c, h, slice);
    EnrichedImage(c, file, blocks, rows);
    EnrichedView(c, file, blocks, rows);
  }
}
