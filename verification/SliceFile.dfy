/** Whole files: what a finished slice iterates to, its hash chain over the file's bytes, and its encrypted form. */
module SliceFile {
  import opened ByteStrings
  import opened Integrity
  import opened Compression
  import opened Encryption
  import opened Blocks
  import opened BlockStream
  import opened Writer

  /** Header flag bit 2 is Encrypted; HashAlgo codes are 0 to 2 and 0xFF. */
  predicate ReadableHeader(h: FileHeader) {
    h.flags / 4 % 2 == 0 && (h.hashAlgo <= 2 || h.hashAlgo == 0xFF)
  }

  lemma CutBaseHeader(
    a: Bytes, b: Bytes, c: Bytes, d: Bytes, e: Bytes, f: Bytes, g: Bytes,
    h: Bytes, i: Bytes, j: Bytes, k: Bytes, l: Bytes, m: Bytes, rest: Bytes)
    requires |a| == 8 && |b| == 4 && |c| == 4 && |d| == 8 && |e| == 16 && |f| == 8 && |g| == 2 && |h| == 2 && |i| == 4
    requires |j| == 1 && |k| == 4 && |l| == 1 && |m| == 2
    ensures var p := a + b + c + d + e + f + g + h + i + j + k + l + m + rest;
            && |p| >= 64 && p[0..8] == a && p[8..12] == b && p[0x0C..0x10] == c && p[16..24] == d && p[24..40] == e
            && p[40..48] == f && p[0x30..0x32] == g && p[0x32..0x34] == h && p[52..56] == i && p[56] == j[0]
            && p[57..61] == k && p[0x3D] == l[0] && p[62..64] == m
  {
  }

  /** Every header field at its place; the version is a 16-bit number with the major version in its high byte. */
  lemma BaseHeaderFields(h: FileHeader, size: U8, rest: Bytes)
    ensures var p := BaseHeader(h, size) + rest;
            && |p| >= 64 && p[0..8] == [0x4D, 0x45, 0x4D, 0x53, 0x4C, 0x49, 0x43, 0x45]
            && p[8] == h.endianness && p[9] == size && FromLE(p[10..12]) == 0x100 * h.major + h.minor
            && Get32(p[0x0C..0x10]) == h.flags && Get64(p[16..24]) == h.capBitmap && p[24..40] == h.dumpUuid
            && Get64(p[40..48]) == h.timestampNs
            && Get16(p[0x30..0x32]) == h.osType && Get16(p[0x32..0x34]) == h.archType && Get32(p[52..56]) == h.pid
            && p[56] == h.clockSource && Get32(p[57..61]) == h.blockCount && p[0x3D] == h.hashAlgo
  {
    hide LE, FromLE;
    CutBaseHeader(FILE_MAGIC, [h.endianness, size, h.minor, h.major], LE(h.flags, 4), LE(h.capBitmap, 8), h.dumpUuid,
                  LE(h.timestampNs, 8), LE(h.osType, 2), LE(h.archType, 2), LE(h.pid, 4), [h.clockSource],
                  LE(h.blockCount, 4), [h.hashAlgo], Zeros(2), rest);
    LE32(h.flags);
    LE64(h.capBitmap);
    LE64(h.timestampNs);
    LE16(h.osType);
    LE16(h.archType);
    LE32(h.pid);
    LE32(h.blockCount);
    VersionField(BaseHeader(h, size) + rest, h.endianness, size, h.minor, h.major);
  }

  lemma VersionField(p: Bytes, a: U8, b: U8, minor: U8, major: U8)
    requires |p| >= 12 && p[8..12] == [a, b, minor, major]
    ensures p[8] == a && p[9] == b && FromLE(p[10..12]) == 0x100 * major + minor
  {
    assert p[8] == p[8..12][0] && p[9] == p[8..12][1] && p[10] == p[8..12][2] && p[11] == p[8..12][3];
    assert p[10..12] == [minor, major] && [minor, major][1..] == [major] && [major][1..] == [];
    assert FromLE([]) == 0 && FromLE([major]) == major;
  }

  /** The iterator accepts a header exactly when it is readable. */
  lemma HeaderAccepted(h: FileHeader, rest: Bytes)
    ensures HeaderError(BaseHeader(h, 64) + rest).None? <==> ReadableHeader(h)
  {
    hide BaseHeader, FromLE;
    BaseHeaderFields(h, 64, rest);
    var p := BaseHeader(h, 64) + rest;
    assert Slice(p, 0, 8) == p[0..8];
  }

  /** Round trip of a whole unencrypted file: exactly the written blocks, tiling the file from 64 to its end. */
  lemma FileRoundTrip(c: Codec, h: FileHeader, blocks: seq<Block>)
    requires CodecOk(c) && AllWritable(c, blocks) && Closed(blocks) && ReadableHeader(h)
    ensures var file := BaseHeader(h, 64) + Stream(c, blocks);
            var r := RecordsOf(c, blocks, HEADER_SIZE);
            && Iterated(c, file) == Iteration(r, None)
            && r[0].start == HEADER_SIZE && r[|r| - 1].end == |file|
            && (forall k :: 0 <= k < |r| - 1 ==> r[k].end == r[k + 1].start)
  {
    hide BaseHeader, BlockBytes, Writable, ReadBlock, HeaderError;
    var file := BaseHeader(h, 64) + Stream(c, blocks);
    HeaderAccepted(h, Stream(c, blocks));
    assert file[HEADER_SIZE..] == Stream(c, blocks) + [];
    IterateStream(c, blocks, file, HEADER_SIZE, []);
    RecordsTile(c, blocks, HEADER_SIZE);
  }

  /** The bytes of the blocks before block `k`. */
  lemma {:induction false} StreamPrefix(c: Codec, blocks: seq<Block>, pos: nat, k: nat)
    requires AllWritable(c, blocks) && k < |blocks|
    ensures var r := RecordsOf(c, blocks, pos)[k];
            var s := Stream(c, blocks);
            && r.start == pos + |Stream(c, blocks[..k])| && r.end - r.start == |BlockBytes(c, blocks[k])|
            && r.end <= pos + |s|
            && s[..r.start - pos] == Stream(c, blocks[..k]) && s[r.start - pos..r.end - pos] == BlockBytes(c, blocks[k])
  {
    hide BlockBytes, Writable;
    var b := BlockBytes(c, blocks[0]);
    if k == 0 {
      assert Stream(c, blocks[..0]) == [];
    } else {
      StreamPrefix(c, blocks[1..], pos + |b|, k - 1);
      assert blocks[..k][1..] == blocks[1..][..k - 1];
      CutShift(b, Stream(c, blocks[1..]), Stream(c, blocks[1..][..k - 1]), BlockBytes(c, blocks[k]));
    }
  }

  lemma CutShift(b: Bytes, s: Bytes, p: Bytes, x: Bytes)
    requires |p| + |x| <= |s| && s[..|p|] == p && s[|p|..|p| + |x|] == x
    ensures var t := b + s;
            t[..|b| + |p|] == b + p && t[|b| + |p|..|b| + |p| + |x|] == x
  {
    assert (b + s)[|b| + |p|..|b| + |p| + |x|] == s[|p|..|p| + |x|];
  }

  /**
   * The chain over a finished unencrypted file, in terms of the file's bytes alone: block 0 carries
   * the hash of the header, every later block the hash of its predecessor's bytes.
   */
  lemma ChainOverFile(hash: Hash, c: Codec, h: FileHeader, blocks: seq<Block>, k: nat)
    requires AllWritable(c, blocks) && k < |blocks| && Chained(hash, c, BaseHeader(h, 64), blocks, false)
    ensures var file := BaseHeader(h, 64) + Stream(c, blocks);
            var r := RecordsOf(c, blocks, HEADER_SIZE);
            && r[k].start <= r[k].end <= |file| && (k > 0 ==> r[k - 1].start <= r[k - 1].end <= |file|)
            && r[k].prevHash == if k == 0 then hash(file[..HEADER_SIZE]) else hash(file[r[k - 1].start..r[k - 1].end])
  {
    hide BaseHeader, BlockBytes, Writable, RecordsOf, Stream;
    var file := BaseHeader(h, 64) + Stream(c, blocks);
    RecordsAt(c, blocks, HEADER_SIZE, k);
    StreamPrefix(c, blocks, HEADER_SIZE, k);
    if k == 0 {
      assert blocks[..0] == [];
      assert file[..HEADER_SIZE] == BaseHeader(h, 64);
    } else {
      StreamPrefix(c, blocks, HEADER_SIZE, k - 1);
      var r := RecordsOf(c, blocks, HEADER_SIZE)[k - 1];
      assert file[r.start..r.end] == Stream(c, blocks)[r.start - 64..r.end - 64];
      assert blocks[..k][k - 1] == blocks[k - 1];
    }
  }

  /** The EndOfCapture payload of a log opens with the hash of everything before that block. */
  ghost predicate EndsWithFileHash(hash: Hash, c: Codec, header: Bytes, blocks: seq<Block>)
    requires AllWritable(c, blocks)
  {
    && |blocks| > 0
    && var n := |blocks| - 1;
       exists acqEnd: U64 :: blocks[n].payload == EocPayload(hash(header + Stream(c, blocks[..n])), acqEnd)
  }

  /** FileHash in the EndOfCapture record is the hash of all file bytes before that block. */
  lemma FileHashOverFile(hash: Hash, c: Codec, h: FileHeader, blocks: seq<Block>)
    requires AllWritable(c, blocks) && EndsWithFileHash(hash, c, BaseHeader(h, 64), blocks)
    ensures var file := BaseHeader(h, 64) + Stream(c, blocks);
            var eoc := RecordsOf(c, blocks, HEADER_SIZE)[|blocks| - 1];
            eoc.start <= |file| && |eoc.payload| == 48 && eoc.payload[..32] == hash(file[..eoc.start])
  {
    hide BaseHeader, BlockBytes, Writable;
    var n := |blocks| - 1;
    var file := BaseHeader(h, 64) + Stream(c, blocks);
    RecordsAt(c, blocks, HEADER_SIZE, n);
    StreamPrefix(c, blocks, HEADER_SIZE, n);
    var eoc := RecordsOf(c, blocks, HEADER_SIZE)[n];
    assert file[..eoc.start] == BaseHeader(h, 64) + Stream(c, blocks[..n]);
    var acqEnd: U64 :| blocks[n].payload == EocPayload(hash(BaseHeader(h, 64) + Stream(c, blocks[..n])), acqEnd);
    EocPayloadPadded(hash(BaseHeader(h, 64) + Stream(c, blocks[..n])), acqEnd);
  }

  lemma EocPayloadPadded(d: Digest, acqEnd: U64)
    ensures |PadBytes(EocPayload(d, acqEnd))| == 48 && PadBytes(EocPayload(d, acqEnd))[..32] == d
  {
    var p := EocPayload(d, acqEnd);
    assert |p| == 48 && Pad8(48) == 48;
    assert PadBytes(p) == p;
  }

  /**
   * An encrypted slice is header, then ciphertext and tag of exactly the block stream: a reader with
   * the key recovers the parameters from the header and the stream from the rest.
   */
  lemma EncryptedRoundTrip(c: Codec, h: FileHeader, e: EncryptionSetup, blocks: seq<Block>)
    requires SetupOk(e) && CodecOk(c) && AllWritable(c, blocks) && Closed(blocks)
    ensures var header := HeaderBytes(h, Some(e));
            var file := header + Sealed(e, header, Stream(c, blocks));
            && |file| == 128 + |Stream(c, blocks)| + TAG_LEN
            && UnpackExtension(file[64..128]) == Some(e.params)
            && e.aead.decrypt(e.key, e.params.nonce, file[128..], file[..128]) == Some(Stream(c, blocks))
            && IterateFrom(c, Stream(c, blocks), 0) == Iteration(RecordsOf(c, blocks, 0), None)
  {
    hide BaseHeader, BlockBytes, Writable, PackExtension, ReadBlock;
    var header := HeaderBytes(h, Some(e));
    var sealed := Sealed(e, header, Stream(c, blocks));
    var file := header + sealed;
    assert file[64..128] == PackExtension(e.params);
    ExtensionRoundTrip(e.params);
    assert file[..128] == header && file[128..] == sealed;
    var s := Stream(c, blocks);
    assert s[0..] == s + [];
    IterateStream(c, blocks, s, 0, []);
  }
}
