/** The bytes of payloads no reader of the repository takes apart, read back field by field. */
module Layouts {
  import opened ByteStrings
  import opened Integrity
  import opened Blocks
  import opened Modules
  import opened Writer
  import opened EnrichView
  import opened Enrich

  // ------------------------------------------------------ module list index

  /** A row of the module list index: the announced UUID, base, size and path. */
  datatype IndexEntry = IndexEntry(uuid: Bytes, base: nat, size: nat, path: Bytes)

  /** The row at `off` and where the next one starts: UUID, three lengths, and the NUL-terminated, padded path. */
  function RowAt(b: Bytes, off: nat): (r: (IndexEntry, nat))
    requires off + 40 <= |b|
  {
    var len := FromLE(b[off + 32..off + 34]);
    (IndexEntry(b[off..off + 16], FromLE(b[off + 16..off + 24]), FromLE(b[off + 24..off + 32]),
                Slice(b, off + 40, off + 40 + len)),
     off + 40 + Pad8(len))
  }

  function RowsFrom(b: Bytes, off: nat, n: nat): (r: Option<seq<IndexEntry>>)
    decreases n
  {
    if n == 0 then Some([])
    else if off + 40 > |b| then None
    else
      var (row, next) := RowAt(b, off);
      var rest := RowsFrom(b, next, n - 1);
      if rest.None? then None else Some([row] + rest.value)
  }

  /** The rows of modules announced under these UUIDs. */
  function Announced(ms: seq<ModuleEntry>, uuids: seq<Uuid>): (r: seq<IndexEntry>)
    requires |ms| == |uuids|
  {
    if ms == [] then []
    else [IndexEntry(uuids[0], ms[0].baseAddr, ms[0].moduleSize, ms[0].path + [0])] + Announced(ms[1..], uuids[1..])
  }

  lemma CutRow(pre: Bytes, u: Bytes, a: Bytes, b: Bytes, c: Bytes, d: Bytes, e: Bytes, path: Bytes, post: Bytes)
    requires |u| == 16 && |a| == 8 && |b| == 8 && |c| == 2 && |d| == 2 && |e| == 4
    ensures var p := pre + (u + (a + b + c + d + e) + path) + post;
            var off := |pre|;
            && off + 40 + |path| <= |p| && p[off..off + 16] == u && p[off + 16..off + 24] == a
            && p[off + 24..off + 32] == b && p[off + 32..off + 34] == c && p[off + 40..off + 40 + |path|] == path
  {
  }

  lemma RowReadBack(pre: Bytes, m: ModuleEntry, uuid: Uuid, post: Bytes)
    requires IndexRowFits(m)
    ensures var p := pre + IndexRow(m, uuid) + post;
            && |pre| + 40 <= |p|
            && RowAt(p, |pre|)
               == (IndexEntry(uuid, m.baseAddr, m.moduleSize, m.path + [0]), |pre| + |IndexRow(m, uuid)|)
  {
    hide LE, FromLE, EncodeString, Pad8, Slice;
    var path := EncodeString(m.path);
    var p := pre + IndexRow(m, uuid) + post;
    CutRow(pre, uuid, LE(m.baseAddr, 8), LE(m.moduleSize, 8), LE(|m.path| + 1, 2), LE(0, 2), LE(0, 4), path, post);
    LE64(m.baseAddr);
    LE64(m.moduleSize);
    LE16(|m.path| + 1);
    SubSlice(p, |pre| + 40, |path|, |m.path| + 1);
    EncodedRaw(m.path);
  }

  lemma {:induction false} RowsReadBack(pre: Bytes, ms: seq<ModuleEntry>, uuids: seq<Uuid>, post: Bytes)
    requires |ms| == |uuids| && RowsFit(ms)
    ensures RowsFrom(pre + IndexRows(ms, uuids) + post, |pre|, |ms|) == Some(Announced(ms, uuids))
    decreases |ms|
  {
    hide IndexRow, RowAt, IndexRowFits;
    if ms != [] {
      var row, tail := IndexRow(ms[0], uuids[0]), IndexRows(ms[1..], uuids[1..]);
      assert pre + IndexRows(ms, uuids) + post == pre + row + (tail + post);
      RowReadBack(pre, ms[0], uuids[0], tail + post);
      assert pre + row + (tail + post) == (pre + row) + tail + post;
      RowsReadBack(pre + row, ms[1..], uuids[1..], post);
    }
  }

  /**
   * The payload of a written index block, padded as any payload: the count, then every module with its UUID, in order.
   */
  lemma IndexReadBack(b: Block, ms: seq<ModuleEntry>, uuids: seq<Uuid>, index: Uuid)
    requires |ms| == |uuids| && IndexBlock(b, ms, uuids, index)
    ensures var p := PadBytes(b.payload);
            |p| >= 8 && FromLE(p[0..4]) == |ms| && RowsFrom(p, 8, |ms|) == Some(Announced(ms, uuids))
  {
    hide IndexRows, RowsFrom, Announced, PadBytes, LE, FromLE, RowsFit;
    var head, rows := LE(|ms|, 4) + LE(0, 4), IndexRows(ms, uuids);
    var p := PadBytes(b.payload);
    var pad := p[|b.payload|..];
    assert p == head + rows + pad;
    assert p[0..4] == LE(|ms|, 4);
    LE32(|ms|);
    RowsReadBack(head, ms, uuids, pad);
  }

  // ------------------------------------------------------- build-id manifest

  /** The fields of the manifest row at `off`. */
  predicate RowHolds(p: Bytes, off: nat, r: BuildIdRow) {
    && off + 64 <= |p| && FromLE(p[off..off + 8]) == r.baseAddr
    && p[off + 8] == r.buildIdLen && p[off + 9] == r.source && p[off + 10] == r.flags
    && |r.buildId| <= 20 && p[off + 12..off + 12 + |r.buildId|] == r.buildId
    && (forall i :: off + 12 + |r.buildId| <= i < off + 32 ==> p[i] == 0)
    && |r.diskHash| <= 32 && p[off + 32..off + 32 + |r.diskHash|] == r.diskHash
    && forall i :: off + 32 + |r.diskHash| <= i < off + 64 ==> p[i] == 0
  }

  lemma RowBytesHold(r: BuildIdRow)
    requires |r.buildId| <= 20 && |r.diskHash| <= 32
    ensures RowHolds(RowBytes(r), 0, r)
  {
    hide LE, FromLE;
    LE64(r.baseAddr);
    var a, b := LE(r.baseAddr, 8), [r.buildIdLen, r.source, r.flags, 0];
    var c, d := r.buildId + Zeros(20 - |r.buildId|), r.diskHash + Zeros(32 - |r.diskHash|);
    CutManifestRow(a, b, c, d);
    var p := RowBytes(r);
    assert p == a + b + c + d;
    assert p[12..12 + |r.buildId|] == p[12..32][..|r.buildId|];
    assert p[32..32 + |r.diskHash|] == p[32..64][..|r.diskHash|];
    assert forall i :: 12 <= i < 32 ==> p[i] == p[12..32][i - 12];
    assert forall i :: 32 <= i < 64 ==> p[i] == p[32..64][i - 32];
  }

  lemma CutManifestRow(a: Bytes, b: Bytes, c: Bytes, d: Bytes)
    requires |a| == 8 && |b| == 4 && |c| == 20 && |d| == 32
    ensures var p := a + b + c + d;
            && p[0..8] == a && p[8] == b[0] && p[9] == b[1] && p[10] == b[2] && p[12..32] == c && p[32..64] == d
  {
  }

  lemma RowShift(pre: Bytes, row: Bytes, post: Bytes, r: BuildIdRow)
    requires |row| == 64 && RowHolds(row, 0, r)
    ensures RowHolds(pre + row + post, |pre|, r)
  {
    hide FromLE;
    var p, n := pre + row + post, |pre|;
    assert forall i :: 0 <= i < 64 ==> p[n + i] == row[i];
    assert p[n..n + 8] == row[0..8];
    assert p[n + 12..n + 12 + |r.buildId|] == row[12..12 + |r.buildId|];
    assert p[n + 32..n + 32 + |r.diskHash|] == row[32..32 + |r.diskHash|];
    forall i | n + 12 + |r.buildId| <= i < n + 32 ensures p[i] == 0 {
      assert p[i] == row[i - n];
    }
    forall i | n + 32 + |r.diskHash| <= i < n + 64 ensures p[i] == 0 {
      assert p[i] == row[i - n];
    }
  }

  lemma {:induction false} RowsHold(pre: Bytes, rows: seq<BuildIdRow>, post: Bytes, i: nat)
    requires RowCheck(rows).None? && i < |rows|
    ensures RowHolds(pre + RowsBytes(rows) + post, |pre| + 64 * i, rows[i])
    decreases |rows|
  {
    hide RowBytes, RowHolds;
    var first, tail := RowBytes(rows[0]), RowsBytes(rows[1..]);
    var p := pre + RowsBytes(rows) + post;
    if i == 0 {
      assert p == pre + first + (tail + post);
      RowBytesHold(rows[0]);
      RowShift(pre, first, tail + post, rows[0]);
    } else {
      assert p == (pre + first) + tail + post;
      RowsHold(pre + first, rows[1..], post, i - 1);
    }
  }

  /** The payload of a manifest block: the count, then one 64-byte row for each module, in order. */
  lemma ManifestReadBack(rows: seq<BuildIdRow>, uuid: Uuid, prevHash: Digest, i: nat)
    requires RowCheck(rows).None? && |rows| < 0x1_0000_0000
    ensures var p := ManifestBlock(rows, uuid, prevHash).payload;
            && |p| == 8 + 64 * |rows| && FromLE(p[0..4]) == |rows|
            && (i < |rows| ==> RowHolds(p, 8 + 64 * i, rows[i]))
  {
    hide RowsBytes, RowHolds, LE, FromLE, RowCheck;
    var head, body := LE(|rows|, 4) + LE(0, 4), RowsBytes(rows);
    var p := ManifestBlock(rows, uuid, prevHash).payload;
    assert p == head + body + [];
    assert p[0..4] == LE(|rows|, 4);
    LE32(|rows|);
    if i < |rows| {
      RowsHold(head, rows, [], i);
    }
  }

  // ----------------------------------------------------------- end of capture

  /** The payload of the closing block: file hash, time of the end, and nothing else. */
  lemma EndReadBack(fileHash: Digest, acqEnd: U64)
    ensures var p := EocPayload(fileHash, acqEnd);
            && |p| == 48 && p[..32] == fileHash && FromLE(p[32..40]) == acqEnd
            && forall i :: 40 <= i < 48 ==> p[i] == 0
  {
    hide LE, FromLE;
    LE64(acqEnd);
    var p := EocPayload(fileHash, acqEnd);
    assert p[32..40] == LE(acqEnd, 8);
  }
}
