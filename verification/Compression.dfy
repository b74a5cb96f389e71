/** Compression codecs and the reader's pad-stripping retry loop. */
module Compression {
  import opened ByteStrings

  datatype CompAlgo = NONE | ZSTD | LZ4

  /** The codec libraries; a decompressor yields None where the library raises. */
  datatype Codec = Codec(
    zstdCompress: Bytes -> Bytes, zstdDecompress: Bytes -> Option<Bytes>,
    lz4Compress: Bytes -> Bytes, lz4Decompress: Bytes -> Option<Bytes>)

  /**
   * What is assumed of the libraries: a zstd frame ignores what follows it; an LZ4 block decodes to
   * its input, and an LZ4 block with up to 7 zero bytes behind it never decodes to different data
   * of the same length.
   */
  ghost predicate CodecOk(c: Codec) {
    && (forall x: Bytes, j: nat :: j < 8 ==> c.zstdDecompress(c.zstdCompress(x) + Zeros(j)) == Some(x))
    && (forall x: Bytes :: c.lz4Decompress(c.lz4Compress(x)) == Some(x))
    && (forall x: Bytes, j: nat :: j < 8 ==>
          var y := c.lz4Decompress(c.lz4Compress(x) + Zeros(j)); y.None? || |y.value| != |x| || y.value == x)
  }

  function Compressed(c: Codec, data: Bytes, algo: CompAlgo): (r: Bytes) {
    match algo
    case NONE => data
    case ZSTD => c.zstdCompress(data)
    case LZ4 => c.lz4Compress(data)
  }

  /** `data[:len(data) - pad]`, with Python's reading of a negative bound. */
  function StripTail(data: Bytes, pad: nat): (r: Bytes) {
    if pad <= |data| then data[..|data| - pad]
    else if pad <= 2 * |data| then data[..2 * |data| - pad]
    else []
  }

  /** The retry loop from `pad` on: the first decoding of the right length wins. */
  function Lz4Retry(c: Codec, data: Bytes, size: nat, pad: nat): (r: Option<Bytes>)
    decreases 8 - pad
  {
    if pad >= 8 then None
    else
      var out := c.lz4Decompress(StripTail(data, pad));
      if out.Some? && |out.value| == size then out else Lz4Retry(c, data, size, pad + 1)
  }

  /** Without its last `pad` bytes the data decodes to `x`, of the right size. */
  predicate DecodesAt(c: Codec, data: Bytes, size: nat, pad: nat, x: Bytes) {
    c.lz4Decompress(StripTail(data, pad)) == Some(x) && |x| == size
  }

  /** The retry yields what decodes under the least padding below eight, and nothing only when none does. */
  lemma {:induction false} RetryMeans(c: Codec, data: Bytes, size: nat, pad: nat)
    requires pad <= 8
    ensures var r := Lz4Retry(c, data, size, pad);
            && (r.None? ==> forall p: nat, x :: pad <= p < 8 ==> !DecodesAt(c, data, size, p, x))
            && (r.Some? ==> exists p: nat :: pad <= p < 8 && DecodesAt(c, data, size, p, r.value)
                                             && forall q: nat, x :: pad <= q < p ==> !DecodesAt(c, data, size, q, x))
    decreases 8 - pad
  {
    hide StripTail;
    if pad < 8 {
      RetryMeans(c, data, size, pad + 1);
      var out := c.lz4Decompress(StripTail(data, pad));
      if out.Some? && |out.value| == size {
        assert DecodesAt(c, data, size, pad, out.value);
      } else {
        assert forall x :: !DecodesAt(c, data, size, pad, x);
      }
    }
  }

  /** `decompress`; None where it raises. */
  function Decompressed(c: Codec, data: Bytes, algo: CompAlgo, size: nat): (r: Option<Bytes>) {
    match algo
    case NONE => Some(data)
    case ZSTD => c.zstdDecompress(data)
    case LZ4 => Lz4Retry(c, data, size, 0)
  }

  method Decompress(c: Codec, data: Bytes, algo: CompAlgo, size: nat) returns (r: Option<Bytes>)
    ensures r == Decompressed(c, data, algo, size)
  {
    match algo
    case NONE => return Some(data);
    case ZSTD => return c.zstdDecompress(data);
    case LZ4 =>
      for pad := 0 to 8
        invariant Lz4Retry(c, data, size, pad) == Lz4Retry(c, data, size, 0)
      {
        var chunk := if pad > 0 then StripTail(data, pad) else data;
        assert chunk == StripTail(data, pad);
        var out := c.lz4Decompress(chunk);
        if out.Some? && |out.value| == size {
          return out;
        }
      }
      return None;
  }

  /** Stripping one byte at a time reaches the true block before anything else can be taken for it. */
  lemma {:induction false} RetryFindsBlock(c: Codec, x: Bytes, j: nat, pad: nat)
    requires CodecOk(c) && pad <= j < 8
    ensures Lz4Retry(c, c.lz4Compress(x) + Zeros(j), |x|, pad) == Some(x)
    decreases j - pad
  {
    var z := c.lz4Compress(x);
    assert StripTail(z + Zeros(j), pad) == z + Zeros(j - pad);
    if pad == j {
      assert z + Zeros(0) == z;
    } else {
      RetryFindsBlock(c, x, j, pad + 1);
    }
  }

  /** The writer's 8-byte alignment never costs a compressed payload anything. */
  lemma DecompressPadded(c: Codec, x: Bytes, algo: CompAlgo, j: nat)
    requires CodecOk(c) && j < 8 && (algo.NONE? ==> j == 0)
    ensures Decompressed(c, Compressed(c, x, algo) + Zeros(j), algo, |x|) == Some(x)
  {
    if algo.LZ4? {
      RetryFindsBlock(c, x, j, 0);
    } else if algo.NONE? {
      assert x + Zeros(0) == x;
    }
  }
}
