/**
 * The chain conditions over a sequence of blocks in file order: what the
 * validation pass checks for each block, the first failure it reports, and
 * the fact that appending the block the "add" use case builds keeps a valid
 * chain valid.
 */
module Chain {
  import opened Primitives
  import opened Blockchain

  /** The validation codes (storage::recheck_error). */
  datatype RecheckError = NoError | BadRoot | BadHash | BadIdx | BadPrevHash

  /** What a completed validation pass reports: success, or the first failure and the offending block's index. */
  datatype Verdict = Passed | Failed(error: RecheckError, badIdx: u64)

  /** The three conditions on block 0, all reported as BadRoot. */
  predicate RootOk(b: Block, hash: Hasher) {
    b.idx == 0 && b.prevSha256 == [] && HashMatches(b, hash)
  }

  /**
   * The checks on a later block against the index and digest of the block
   * before it, in the order they are made; the index comparison is done in
   * 64-bit unsigned arithmetic.
   */
  function CheckLink(pidx: u64, phash: bytes, b: Block, hash: Hasher): RecheckError {
    if !HashMatches(b, hash) then BadHash
    else if (pidx + 1) % U64 != b.idx then BadIdx
    else if phash != b.prevSha256 then BadPrevHash
    else NoError
  }

  /** The code block `i` of `bs` draws. */
  function CheckAt(bs: seq<Block>, i: nat, hash: Hasher): RecheckError
    requires i < |bs|
  {
    if i == 0 then (if RootOk(bs[0], hash) then NoError else BadRoot)
    else CheckLink(bs[i - 1].idx, bs[i - 1].sha256, bs[i], hash)
  }

  /** Genesis, hash and link conditions hold of every block. */
  ghost predicate ValidChain(bs: seq<Block>, hash: Hasher) {
    forall i :: 0 <= i < |bs| ==> CheckAt(bs, i, hash) == NoError
  }

  /** Block `j` is the first failing block at or after `k`. */
  ghost predicate FirstFailingAt(bs: seq<Block>, k: nat, j: nat, hash: Hasher) {
    k <= j < |bs| && CheckAt(bs, j, hash) != NoError &&
    forall i :: k <= i < j ==> CheckAt(bs, i, hash) == NoError
  }

  /** The link checks over `bs`, the block before it having index `pidx` and digest `phash`, stopping at the first failure. */
  function LinkFailure(pidx: u64, phash: bytes, bs: seq<Block>, hash: Hasher): Verdict
    decreases |bs|
  {
    if bs == [] then Passed
    else
      var e := CheckLink(pidx, phash, bs[0], hash);
      if e != NoError then Failed(e, bs[0].idx)
      else LinkFailure(bs[0].idx, bs[0].sha256, bs[1..], hash)
  }

  /** The verdict of a validation pass over the whole of `bs`. */
  function FirstFailure(bs: seq<Block>, hash: Hasher): Verdict {
    if bs == [] then Passed
    else if !RootOk(bs[0], hash) then Failed(BadRoot, bs[0].idx)
    else LinkFailure(bs[0].idx, bs[0].sha256, bs[1..], hash)
  }

  lemma {:induction false} LinkFailureFrom(bs: seq<Block>, k: nat, hash: Hasher)
    requires 0 < k <= |bs|
    ensures var v := LinkFailure(bs[k - 1].idx, bs[k - 1].sha256, bs[k..], hash);
            && (v == Passed <==> forall i :: k <= i < |bs| ==> CheckAt(bs, i, hash) == NoError)
            && (v.Failed? ==> exists j: nat :: FirstFailingAt(bs, k, j, hash) && v == Failed(CheckAt(bs, j, hash), bs[j].idx))
    decreases |bs| - k
  {
    if k < |bs| {
      assert bs[k..][0] == bs[k];
      assert bs[k..][1..] == bs[k + 1..];
      if CheckAt(bs, k, hash) == NoError {
        LinkFailureFrom(bs, k + 1, hash);
      } else {
        assert FirstFailingAt(bs, k, k, hash);
      }
    }
  }

  /**
   * The validation verdict is Passed exactly when the chain is valid, and
   * otherwise names the first failing block's code and index.
   */
  lemma FirstFailureIsFirst(bs: seq<Block>, hash: Hasher)
    ensures FirstFailure(bs, hash) == Passed <==> ValidChain(bs, hash)
    ensures var v := FirstFailure(bs, hash);
            v.Failed? ==> v.error != NoError &&
                          exists j: nat :: FirstFailingAt(bs, 0, j, hash) && v == Failed(CheckAt(bs, j, hash), bs[j].idx)
  {
    if bs != [] {
      if RootOk(bs[0], hash) {
        LinkFailureFrom(bs, 1, hash);
      } else {
        assert FirstFailingAt(bs, 0, 0, hash);
      }
    }
  }

  lemma ModSucc(k: nat)
    ensures (k % U64 + 1) % U64 == (k + 1) % U64
  {
    var q, r := k / U64, k % U64;
    assert k == q * U64 + r;
    if r + 1 < U64 {
      assert k + 1 == q * U64 + (r + 1);
    } else {
      assert k + 1 == (q + 1) * U64;
    }
  }

  lemma ModAdd(a: nat, k: nat)
    ensures (a % U64 + k) % U64 == (a + k) % U64
  {
    var q := a / U64;
    assert a == q * U64 + a % U64;
    assert a + k == q * U64 + (a % U64 + k);
  }

  /** `++n` on a 64-bit counter: 2^64 - 1 wraps round to 0. */
  function Inc(n: u64): (r: u64)
    ensures r == (n + 1) % U64
  {
    if n + 1 == U64 then 0 else n + 1
  }

  /** The 64-bit counter `n0` after one `++` per block of `bs`. */
  function Counted(n0: u64, bs: seq<Block>): u64
    decreases |bs|
  {
    if bs == [] then n0 else Counted(Inc(n0), bs[1..])
  }

  /** Counting one more block is one more `++`. */
  lemma {:induction false} CountedSnoc(n0: u64, bs: seq<Block>, b: Block)
    ensures Counted(n0, bs + [b]) == Inc(Counted(n0, bs))
    decreases |bs|
  {
    if bs != [] {
      assert (bs + [b])[1..] == bs[1..] + [b];
      CountedSnoc(Inc(n0), bs[1..], b);
    }
  }

  /** Counting adds the number of blocks, modulo 2^64. */
  lemma {:induction false} CountedIsSum(n0: u64, bs: seq<Block>)
    ensures Counted(n0, bs) == (n0 + |bs|) % U64
    decreases |bs|
  {
    if bs != [] {
      CountedIsSum(Inc(n0), bs[1..]);
      ModAdd(n0 + 1, |bs| - 1);
    }
  }

  /** In a valid chain the block at position `i` has index `i`, modulo 2^64. */
  lemma {:induction false} ValidChainIndex(bs: seq<Block>, i: nat, hash: Hasher)
    requires ValidChain(bs, hash) && i < |bs|
    ensures bs[i].idx == i % U64
  {
    assert CheckAt(bs, i, hash) == NoError;
    if i > 0 {
      ValidChainIndex(bs, i - 1, hash);
      ModSucc(i - 1);
    }
  }

  /** The digest the next block must carry as its previous digest. */
  function TailDigest(bs: seq<Block>): (d: bytes)
    ensures bs != [] ==> d == bs[|bs| - 1].sha256
    ensures bs == [] ==> d == []
  {
    if bs == [] then [] else bs[|bs| - 1].sha256
  }

  /**
   * Appending the block the "add" use case builds (previous digest the tail's
   * digest, index the block count) keeps a valid chain valid.
   */
  lemma AppendKeepsValid(bs: seq<Block>, nb: Block, hash: Hasher)
    requires ValidChain(bs, hash)
    requires nb.idx == |bs| % U64 && nb.prevSha256 == TailDigest(bs) && HashMatches(nb, hash)
    ensures ValidChain(bs + [nb], hash)
    ensures bs != [] ==> nb.idx == (bs[|bs| - 1].idx + 1) % U64 && nb.prevSha256 == bs[|bs| - 1].sha256
  {
    var cs := bs + [nb];
    forall i | 0 <= i < |cs|
      ensures CheckAt(cs, i, hash) == NoError
    {
      if i < |bs| {
        assert CheckAt(bs, i, hash) == NoError;
      } else if i > 0 {
        ValidChainIndex(bs, i - 1, hash);
        ModSucc(i - 1);
      }
    }
    if bs != [] {
      ValidChainIndex(bs, |bs| - 1, hash);
      ModSucc(|bs| - 1);
    }
  }
}
