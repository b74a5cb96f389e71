/** The rolling hash chain over the header and the blocks. */
module Integrity {
  import opened ByteStrings

  type Digest = d: Bytes | |d| == 32 witness Zeros(32)

  /** A 32-byte hash; incremental hashing is the hash of everything fed so far. */
  type Hash = Bytes -> Digest

  class IntegrityChain {
    const hash: Hash
    var prevHash: Digest
    var fed: Bytes

    constructor (hash: Hash)
      ensures this.hash == hash && prevHash == Zeros(32) && fed == []
    {
      this.hash, prevHash, fed := hash, Zeros(32), [];
    }

    method FeedHeader(header: Bytes) returns (d: Digest)
      modifies this
      ensures fed == old(fed) + header && prevHash == hash(header) && d == prevHash
    {
      fed := fed + header;
      prevHash := hash(header);
      d := prevHash;
    }

    /** Hash a block handed over in parts. */
    method FeedBlockParts(parts: seq<Bytes>) returns (d: Digest)
      modifies this
      ensures fed == old(fed) + Join(parts) && prevHash == hash(Join(parts)) && d == prevHash
    {
      var block: Bytes := [];
      for i := 0 to |parts|
        invariant block == Join(parts[..i]) && fed == old(fed) + block
      {
        assert parts[..i + 1] == parts[..i] + [parts[i]];
        JoinAppend(parts[..i], [parts[i]]);
        JoinOne(parts[i]);
        assert old(fed) + (block + parts[i]) == old(fed) + block + parts[i];
        fed := fed + parts[i];
        block := block + parts[i];
      }
      assert parts[..|parts|] == parts;
      prevHash := hash(block);
      d := prevHash;
    }

    method Finalize() returns (d: Digest)
      ensures d == hash(fed)
    {
      d := hash(fed);
    }
  }
}
