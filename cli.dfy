/**
 * The command-line front end: appending a block, the two lookups, the
 * validation command, the dump, and the dispatch on the first letter of the
 * command.
 *
 * Output to the terminal is not modelled; the dump returns the blocks it
 * would print. The digest function and the clock are parameters, and so is
 * the parser behind `std::stoul`, which gives `None` where it would throw.
 */
module Cli {
  import opened Primitives
  import opened Blockchain
  import opened Chain
  import opened Records
  import opened Storage

  /** How the program ends: EXIT_SUCCESS, EXIT_FAILURE, or a failed assertion after a short read. */
  datatype Exit = Success | Failure | Abort

  const Space: byte := 0x20
  /** The command word that only prints the usage text. */
  const Help: bytes := [0x68, 0x65, 0x6c, 0x70]
  const CmdAdd: byte := 0x61
  const CmdIdx: byte := 0x69
  const CmdHash: byte := 0x68
  const CmdRecheck: byte := 0x72
  const CmdDump: byte := 0x64

  // ---------------------------------------------------------------- 'a'

  /** The words joined with single spaces; no words give the empty string. */
  function Join(words: seq<bytes>): bytes
    decreases |words|
  {
    if words == [] then []
    else if |words| == 1 then words[0]
    else Join(words[..|words| - 1]) + [Space] + words[|words| - 1]
  }

  function TotalLength(words: seq<bytes>): nat
    decreases |words|
  {
    if words == [] then 0 else TotalLength(words[..|words| - 1]) + |words[|words| - 1]|
  }

  /** Joining puts exactly one separator between neighbouring words and none at the ends. */
  lemma {:induction false} JoinLength(words: seq<bytes>)
    ensures |Join(words)| == if words == [] then 0 else TotalLength(words) + |words| - 1
    decreases |words|
  {
    if |words| > 1 {
      JoinLength(words[..|words| - 1]);
    } else if |words| == 1 {
      assert TotalLength(words) == TotalLength([]) + |words[0]|;
    }
  }

  /** Read from the front: the first word, then a separator and the join of the rest. */
  lemma {:induction false} JoinCons(words: seq<bytes>)
    requires |words| >= 2
    ensures Join(words) == words[0] + [Space] + Join(words[1..])
    decreases |words|
  {
    var n := |words|;
    if n > 2 {
      JoinCons(words[..n - 1]);
      assert words[..n - 1][1..] == words[1..][..n - 2];
      assert words[1..][n - 2] == words[n - 1];
    } else {
      assert words[1..] == [words[1]];
    }
  }

  /** The argument-joining loop of the 'a' command over `argv[2..]`. */
  method JoinArgs(argv: seq<bytes>) returns (data: bytes)
    requires |argv| >= 2
    ensures data == Join(argv[2..])
  {
    data := [];
    var i := 2;
    while i < |argv|
      invariant 2 <= i <= |argv|
      invariant data == Join(argv[2..i])
    {
      assert argv[2..i + 1][..i - 2] == argv[2..i];
      if i == 2 {
        data := data + argv[i];
      } else {
        data := data + [Space] + argv[i];
      }
      i := i + 1;
    }
    assert argv[2..i] == argv[2..];
  }

  /** The block `add_block` builds for a store that decodes to `bs`: linked to the tail, numbered by the count. */
  function NextBlock(bs: seq<Block>, data: bytes, clock: u64, hash: Hasher): Block {
    NewBlock(TailDigest(bs), |bs| % U64, data, |data|, clock, hash)
  }

  /** Appending `NextBlock` to a valid chain gives a valid chain, one block longer, linked to the old tail. */
  lemma NextBlockExtendsChain(bs: seq<Block>, data: bytes, clock: u64, hash: Hasher)
    requires ValidChain(bs, hash)
    ensures var nb := NextBlock(bs, data, clock, hash);
            && ValidChain(bs + [nb], hash)
            && (bs == [] ==> nb.idx == 0 && nb.prevSha256 == [])
            && (bs != [] ==> nb.idx == (bs[|bs| - 1].idx + 1) % U64 && nb.prevSha256 == bs[|bs| - 1].sha256)
  {
    AppendKeepsValid(bs, NextBlock(bs, data, clock, hash), hash);
  }

  /**
   * The block `add_block` is about to append: on an empty store the root,
   * otherwise a block whose previous digest is the last block's digest and
   * whose index is the number of blocks counted by `LastBlock`. A store that
   * does not decode completely stops the program at the short read.
   */
  method NextOf(st: Storage, data: bytes, clock: u64, hash: Hasher) returns (r: Result<Block>)
    requires st.Valid()
    modifies st`pos
    ensures st.Valid()
    ensures var s := Parse(st.file);
            r == if s.complete then Ok(NextBlock(s.blocks, data, clock, hash)) else ShortRead
    ensures st.pos == |st.file|
  {
    ghost var s := Parse(st.file);
    var e := st.Empty();
    if e {
      return Ok(NewBlock([], 0, data, |data|, clock, hash));
    }
    var last, num := st.LastBlock(0);
    if last.ShortRead? {
      return ShortRead;
    }
    CountedIsSum(0, s.blocks);
    return Ok(NewBlock(last.value.sha256, num, data, |data|, clock, hash));
  }

  /** `add_block`: builds the next block, then appends its record; nothing is written after a short read. */
  method AddBlock(st: Storage, data: bytes, clock: u64, hash: Hasher) returns (r: Result<Block>)
    requires st.Valid()
    modifies st
    ensures st.Valid()
    ensures var s := Parse(old(st.file));
            r == if s.complete then Ok(NextBlock(s.blocks, data, clock, hash)) else ShortRead
    ensures st.file == if r.Ok? then old(st.file) + EncodeBlock(r.value) else old(st.file)
    ensures st.pos == |st.file|
    ensures r.Ok? && |data| < U32 ==> Parse(st.file) == Scan(Parse(old(st.file)).blocks + [r.value], true)
  {
    ghost var s := Parse(st.file);
    r := NextOf(st, data, clock, hash);
    if r.ShortRead? {
      return;
    }
    if |data| < U32 && s.blocks != [] {
      ParseFromEncodable(st.file, 0);
      assert s.blocks[|s.blocks| - 1] in s.blocks;
    }
    st.Add(r.value);
  }

  // ---------------------------------------------------------------- 'i', 'h'

  /** The ok flag of a lookup, or the short read that stopped it. */
  function Found(r: Result<Lookup>): (f: Result<bool>)
    ensures f.Ok? <==> r.Ok?
    ensures f == Ok(true) <==> r.Ok? && r.value.found
  {
    match r
    case ShortRead => ShortRead
    case Ok(l) => Ok(l.found)
  }

  /** `get_by_idx`: exactly the ok flag of the lookup by index. */
  method GetByIdx(st: Storage, idx: u64) returns (ok: Result<bool>)
    requires st.Valid()
    modifies st`pos
    ensures st.Valid() && ok == Found(Find(st.file, ByIdx(idx)))
    ensures st.pos == FindStop(st.file, ByIdx(idx))
  {
    var r := st.GetByIdx(idx);
    ok := Found(r);
  }

  /** `get_by_hash`: exactly the ok flag of the lookup by digest. */
  method GetByHash(st: Storage, sha256: bytes) returns (ok: Result<bool>)
    requires st.Valid()
    modifies st`pos
    ensures st.Valid() && ok == Found(Find(st.file, ByHash(sha256)))
    ensures st.pos == FindStop(st.file, ByHash(sha256))
  {
    var r := st.GetByHash(sha256);
    ok := Found(r);
  }

  // ---------------------------------------------------------------- 'd'

  /** The blocks the dump prints: every stored block once, in file order; none for an empty store. */
  function Dumped(file: bytes): (r: Result<seq<Block>>)
    ensures |file| == 0 ==> r == Ok([])
    ensures r.Ok? <==> Parse(file).complete
    ensures r.Ok? ==> r.value == Parse(file).blocks
  {
    var s := Parse(file);
    if s.complete then Ok(s.blocks) else ShortRead
  }

  /**
   * `dump(storage&)`: the first block, then the next one until the cursor
   * is at the end. `first` is the rewind followed by a read, so each round
   * is one read followed by the end-of-file test.
   */
  method Dump(st: Storage) returns (r: Result<seq<Block>>)
    requires st.Valid()
    modifies st`pos
    ensures st.Valid() && r == Dumped(st.file)
    ensures st.pos == |st.file|
  {
    var e := st.Empty();
    if e {
      return Ok([]);
    }
    st.SeekToBegin();
    var visited := [];
    while true
      invariant st.Valid() && st.pos < |st.file|
      invariant Parse(st.file).blocks == visited + ParseFrom(st.file, st.pos).blocks
      invariant Parse(st.file).complete == ParseFrom(st.file, st.pos).complete
      decreases |st.file| - st.pos
    {
      var b, end := st.ScanStep(visited);
      if b.ShortRead? {
        return ShortRead;
      }
      visited := visited + [b.value];
      if end {
        return Ok(visited);
      }
    }
  }

  // ---------------------------------------------------------------- main

  function LookupExit(r: Result<Lookup>): Exit {
    match r
    case ShortRead => Abort
    case Ok(l) => if l.found then Success else Failure
  }

  /** The code `recheck` returns for a verdict of the validation pass. */
  function Code(v: Result<Verdict>): Result<RecheckError> {
    match v
    case ShortRead => ShortRead
    case Ok(Passed) => Ok(NoError)
    case Ok(Failed(e, _)) => Ok(e)
  }

  /** The 'r' command fails exactly when the code is not `ok`. */
  function RecheckExit(ec: Result<RecheckError>): Exit {
    match ec
    case ShortRead => Abort
    case Ok(e) => if e == NoError then Success else Failure
  }

  /** The command letter: the first character of `argv[1]`, or the terminating NUL of an empty word. */
  function Command(argv: seq<bytes>): byte
    requires |argv| >= 2
  {
    if argv[1] == [] then 0 else argv[1][0]
  }

  /**
   * What a run of the program does with the store `disk` (`None` when the
   * file can be neither opened nor created): how it exits, and the store
   * afterwards. Only the 'a' command writes, and it only appends.
   */
  function Outcome(argv: seq<bytes>, disk: Option<bytes>, clock: u64, hash: Hasher, stoul: bytes -> Option<u64>)
    : (o: (Exit, Option<bytes>))
    ensures o.1 != disk ==> |argv| >= 2 && Command(argv) == CmdAdd && o.0 == Success
    ensures o.1 != disk ==> disk.Some? && o.1.Some? && disk.value <= o.1.value
  {
    if |argv| <= 1 || argv[1] == Help || disk.None? then (Failure, disk)
    else
      var file, cmd := disk.value, Command(argv);
      if cmd == CmdAdd then
        var s := Parse(file);
        if s.complete then (Success, Some(file + EncodeBlock(NextBlock(s.blocks, Join(argv[2..]), clock, hash))))
        else (Abort, disk)
      else if cmd == CmdIdx then
        if |argv| < 3 || stoul(argv[2]).None? then (Failure, disk)
        else (LookupExit(Find(file, ByIdx(stoul(argv[2]).value))), disk)
      else if cmd == CmdHash then
        if |argv| < 3 then (Failure, disk)
        else (LookupExit(Find(file, ByHash(argv[2]))), disk)
      else if cmd == CmdRecheck then (RecheckExit(Code(RecheckScan(file, hash))), disk)
      else if cmd == CmdDump then (if Dumped(file).Ok? then Success else Abort, disk)
      else (Failure, disk)
  }

  /**
   * The 'r' command as written: success only on a store that decodes to a
   * valid chain, and on every such store except one holding a single good
   * root block, where the read past the end aborts the program. It never
   * changes the store.
   */
  lemma RecheckCommand(argv: seq<bytes>, file: bytes, clock: u64, hash: Hasher, stoul: bytes -> Option<u64>)
    requires |argv| >= 2 && argv[1] != Help && Command(argv) == CmdRecheck
    ensures var o := Outcome(argv, Some(file), clock, hash, stoul);
            && (o.0 == Success ==> Parse(file).complete && ValidChain(Parse(file).blocks, hash))
            && (Parse(file).complete && ValidChain(Parse(file).blocks, hash) && !SingleGoodRoot(file, hash) ==> o.0 == Success)
            && (SingleGoodRoot(file, hash) ==> o.0 == Abort)
            && (o.0 == Abort ==> !Parse(file).complete || SingleGoodRoot(file, hash))
            && o.1 == Some(file)
  {
    RecheckScanAsWritten(file, hash);
    GuardedRecheckIsFirstFailure(file, hash);
    FirstFailureIsFirst(Parse(file).blocks, hash);
  }

  /** With the corrected validation pass, 'r' would succeed exactly on a store that decodes to a valid chain. */
  lemma GuardedRecheckCommand(file: bytes, hash: Hasher)
    ensures var e := RecheckExit(Code(GuardedRecheckScan(file, hash)));
            && (e == Success <==> Parse(file).complete && ValidChain(Parse(file).blocks, hash))
            && (e == Abort ==> !Parse(file).complete)
  {
    GuardedRecheckIsFirstFailure(file, hash);
    FirstFailureIsFirst(Parse(file).blocks, hash);
  }

  /** The 'a' command on a store holding a valid chain leaves a valid chain one block longer, the old blocks unchanged. */
  lemma AddCommandKeepsChain(argv: seq<bytes>, file: bytes, clock: u64, hash: Hasher, stoul: bytes -> Option<u64>)
    requires |argv| >= 2 && argv[1] != Help && Command(argv) == CmdAdd
    requires Parse(file).complete && ValidChain(Parse(file).blocks, hash) && |Join(argv[2..])| < U32
    ensures var o := Outcome(argv, Some(file), clock, hash, stoul);
            && o.0 == Success && o.1.Some?
            && Parse(o.1.value).complete
            && |Parse(o.1.value).blocks| == |Parse(file).blocks| + 1
            && Parse(o.1.value).blocks[..|Parse(file).blocks|] == Parse(file).blocks
            && ValidChain(Parse(o.1.value).blocks, hash)
  {
    var bs := Parse(file).blocks;
    var nb := NextBlock(bs, Join(argv[2..]), clock, hash);
    assert Outcome(argv, Some(file), clock, hash, stoul) == (Success, Some(file + EncodeBlock(nb)));
    if bs != [] {
      ParseFromEncodable(file, 0);
      assert bs[|bs| - 1] in bs;
    }
    ParseAppend(file, nb);
    NextBlockExtendsChain(bs, Join(argv[2..]), clock, hash);
    assert (bs + [nb])[..|bs|] == bs;
  }

  /** `main`: opens the store (unless only the usage text is asked for) and runs the command. */
  method Run(argv: seq<bytes>, disk: Option<bytes>, clock: u64, hash: Hasher, stoul: bytes -> Option<u64>)
    returns (exit: Exit, after: Option<bytes>)
    ensures (exit, after) == Outcome(argv, disk, clock, hash, stoul)
  {
    if |argv| <= 1 || argv[1] == Help {
      return Failure, disk;
    }
    var st := Storage.Open(disk);
    if st == null {
      return Failure, disk;
    }
    var cmd := Command(argv);
    after := disk;
    if cmd == CmdAdd {
      var data := JoinArgs(argv);
      var r := AddBlock(st, data, clock, hash);
      if r.ShortRead? {
        return Abort, disk;
      }
      return Success, Some(st.file);
    } else if cmd == CmdIdx {
      if |argv| < 3 || stoul(argv[2]).None? {
        return Failure, disk;
      }
      var ok := GetByIdx(st, stoul(argv[2]).value);
      exit := if ok.ShortRead? then Abort else if ok.value then Success else Failure;
    } else if cmd == CmdHash {
      if |argv| < 3 {
        return Failure, disk;
      }
      var ok := GetByHash(st, argv[2]);
      exit := if ok.ShortRead? then Abort else if ok.value then Success else Failure;
    } else if cmd == CmdRecheck {
      var ec, badIdx := st.Recheck(hash, 0);
      exit := RecheckExit(ec);
    } else if cmd == CmdDump {
      var r := Dump(st);
      exit := if r.ShortRead? then Abort else Success;
    } else {
      exit := Failure;
    }
  }
}
