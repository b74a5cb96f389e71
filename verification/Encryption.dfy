/** The encryption extension header and the buffering AEAD streams. */
module Encryption {
  import opened ByteStrings

  const NONCE_LEN := 12
  const TAG_LEN := 16
  const KEY_LEN := 32
  const EXTENSION_LEN := 64

  datatype EncryptionParams = EncryptionParams(
    encAlgo: U8, kdfType: U8, keyEncap: U8, kdfTime: U32, kdfMemory: U32, kdfLanes: U8, kemCtLen: U16,
    nonce: Bytes, kdfSalt: Bytes)

  predicate ParamsOk(p: EncryptionParams) {
    |p.nonce| == NONCE_LEN && |p.kdfSalt| == 16
  }

  function PackExtension(p: EncryptionParams): (r: Bytes)
    requires ParamsOk(p)
    ensures |r| == EXTENSION_LEN
  {
    [p.encAlgo, p.kdfType, p.keyEncap, 0] + LE(p.kdfTime, 4) + LE(p.kdfMemory, 4) + [p.kdfLanes, 0] + LE(p.kemCtLen, 2)
    + p.nonce + Zeros(12) + p.kdfSalt + Zeros(8)
  }

  /** `unpack_encryption_extension`; None for a wrong length. */
  function UnpackExtension(raw: Bytes): (r: Option<EncryptionParams>) {
    if |raw| != EXTENSION_LEN then None
    else
      Some(EncryptionParams(raw[0], raw[1], raw[2], Get32(raw[4..8]), Get32(raw[8..12]), raw[12],
                            Get16(raw[14..16]), raw[16..28], raw[40..56]))
  }

  lemma CutExtension(a: Bytes, b: Bytes, c: Bytes, d: Bytes, e: Bytes, f: Bytes, g: Bytes, h: Bytes, i: Bytes)
    requires |a| == 4 && |b| == 4 && |c| == 4 && |d| == 2 && |e| == 2 && |f| == 12 && |g| == 12 && |h| == 16 && |i| == 8
    ensures var p := a + b + c + d + e + f + g + h + i;
            && p[0] == a[0] && p[1] == a[1] && p[2] == a[2] && p[4..8] == b && p[8..12] == c && p[12] == d[0]
            && p[14..16] == e && p[16..28] == f && p[40..56] == h
  {
  }

  lemma ExtensionRoundTrip(p: EncryptionParams)
    requires ParamsOk(p)
    ensures UnpackExtension(PackExtension(p)) == Some(p)
  {
    CutExtension([p.encAlgo, p.kdfType, p.keyEncap, 0], LE(p.kdfTime, 4), LE(p.kdfMemory, 4), [p.kdfLanes, 0],
                 LE(p.kemCtLen, 2), p.nonce, Zeros(12), p.kdfSalt, Zeros(8));
    LE32(p.kdfTime);
    LE32(p.kdfMemory);
    LE16(p.kemCtLen);
  }

  /** The AEAD library: `encrypt` appends the tag, `decrypt` yields None when authentication fails. */
  datatype Aead = Aead(
    encrypt: (Bytes, Bytes, Bytes, Bytes) -> Bytes, decrypt: (Bytes, Bytes, Bytes, Bytes) -> Option<Bytes>)

  ghost predicate AeadOk(a: Aead) {
    forall k: Bytes, n: Bytes, x: Bytes, aad: Bytes ::
      |a.encrypt(k, n, x, aad)| == |x| + TAG_LEN && a.decrypt(k, n, a.encrypt(k, n, x, aad), aad) == Some(x)
  }

  class StreamingEncryptor {
    const aead: Aead
    const key: Bytes
    const nonce: Bytes
    const aad: Bytes
    var chunks: seq<Bytes>
    var finalized: bool

    constructor (aead: Aead, key: Bytes, nonce: Bytes, aad: Bytes)
      requires |key| == KEY_LEN && |nonce| == NONCE_LEN
      ensures this.aead == aead && this.key == key && this.nonce == nonce && this.aad == aad
      ensures chunks == [] && !finalized
    {
      this.aead, this.key, this.nonce, this.aad := aead, key, nonce, aad;
      chunks, finalized := [], false;
    }

    /** Buffer plaintext; false where the source raises because the stream is finalized. */
    method Update(data: Bytes) returns (ok: bool)
      modifies this`chunks
      ensures ok == !finalized
      ensures chunks == if ok then old(chunks) + [data] else old(chunks)
    {
      ok := !finalized;
      if ok {
        chunks := chunks + [data];
      }
    }

    /** Encrypt everything buffered at once and split off the tag. */
    method Finalize() returns (r: Option<(Bytes, Bytes)>)
      requires AeadOk(aead)
      modifies this`chunks, this`finalized
      ensures finalized
      ensures old(finalized) ==> r == None && chunks == old(chunks)
      ensures !old(finalized) ==>
                && r.Some? && chunks == []
                && r.value.0 + r.value.1 == aead.encrypt(key, nonce, Join(old(chunks)), aad)
                && |r.value.0| == |Join(old(chunks))| && |r.value.1| == TAG_LEN
    {
      if finalized {
        return None;
      }
      finalized := true;
      var plaintext := Join(chunks);
      chunks := [];
      var ct := aead.encrypt(key, nonce, plaintext, aad);
      r := Some((ct[..|ct| - TAG_LEN], ct[|ct| - TAG_LEN..]));
    }
  }

  class StreamingDecryptor {
    const aead: Aead
    const key: Bytes
    const nonce: Bytes
    const aad: Bytes
    var chunks: seq<Bytes>
    var finalized: bool

    constructor (aead: Aead, key: Bytes, nonce: Bytes, aad: Bytes)
      requires |key| == KEY_LEN && |nonce| == NONCE_LEN
      ensures this.aead == aead && this.key == key && this.nonce == nonce && this.aad == aad
      ensures chunks == [] && !finalized
    {
      this.aead, this.key, this.nonce, this.aad := aead, key, nonce, aad;
      chunks, finalized := [], false;
    }

    method Update(data: Bytes) returns (ok: bool)
      modifies this`chunks
      ensures ok == !finalized
      ensures chunks == if ok then old(chunks) + [data] else old(chunks)
    {
      ok := !finalized;
      if ok {
        chunks := chunks + [data];
      }
    }

    /** None where the source raises: already finalized, a tag of the wrong length, or a failed authentication. */
    method Finalize(tag: Bytes) returns (r: Option<Bytes>)
      modifies this`chunks, this`finalized
      ensures old(finalized) || |tag| != TAG_LEN ==> r == None && chunks == old(chunks) && finalized == old(finalized)
      ensures !old(finalized) && |tag| == TAG_LEN ==>
                finalized && chunks == [] && r == aead.decrypt(key, nonce, Join(old(chunks)) + tag, aad)
    {
      if finalized || |tag| != TAG_LEN {
        return None;
      }
      finalized := true;
      var ciphertext := Join(chunks);
      chunks := [];
      r := aead.decrypt(key, nonce, ciphertext + tag, aad);
    }
  }
}
