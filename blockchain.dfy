/**
 * The block record and its constructor.
 *
 * The digest function (SHA-256 rendered as lower-case hex) is not modelled:
 * it is passed around as a value of type `Hasher`, about which nothing is
 * known except that it is a function and that its result is 64 characters.
 */
module Blockchain {
  import opened Primitives

  /** A hex-encoded SHA-256 digest. */
  type Digest = s: bytes | |s| == 64 witness seq(64, _ => 0 as byte)

  type Hasher = bytes -> Digest

  /** One ledger record. Strings are byte strings, as in std::string. */
  datatype Block = Block(idx: u64, timestamp: u64, prevSha256: bytes, data: bytes, sha256: bytes)

  /** A value-initialised block, `block{}`. */
  const EmptyBlock: Block := Block(0, 0, [], [], [])

  /** The per-block integrity check: the stored digest is the digest of the payload. */
  predicate HashMatches(b: Block, hash: Hasher) {
    b.sha256 == hash(b.data)
  }

  /**
   * Builds the next block from the previous digest, the block number, the
   * first `size` bytes of `buffer` and the clock reading `clock`.
   */
  function NewBlock(prevSha256: bytes, nblocks: u64, buffer: bytes, size: nat, clock: u64, hash: Hasher): (b: Block)
    requires size <= |buffer|
    ensures b.idx == nblocks && b.timestamp == clock && b.prevSha256 == prevSha256
    ensures b.data == buffer[..size]
    ensures HashMatches(b, hash)
  {
    var data := buffer[..size];
    Block(nblocks, clock, prevSha256, data, hash(data))
  }

  /** The digest covers the payload only: index, clock and previous digest do not enter it. */
  lemma DigestIgnoresLinkage(prev1: bytes, prev2: bytes, n1: u64, n2: u64, buffer: bytes, size: nat,
                             clock1: u64, clock2: u64, hash: Hasher)
    requires size <= |buffer|
    ensures NewBlock(prev1, n1, buffer, size, clock1, hash).sha256 == NewBlock(prev2, n2, buffer, size, clock2, hash).sha256
  {
  }
}
