/**
 * The storage engine: one block file, opened for reading and appending, and
 * one cursor shared by every scan.
 *
 * `file` is the content of the file and `pos` the offset the next read
 * starts at. Every read either consumes exactly the bytes of a field or, when
 * fewer bytes remain, consumes what remains and reports a short read (the
 * source asserts on it). Every write goes to the end of the file.
 */
module Storage {
  import opened Primitives
  import opened Blockchain
  import opened Chain
  import opened Records

  /**
   * A read through the cursor that did what the pure read `d` at the old
   * cursor describes: its value and new cursor, or a short read that left
   * the cursor at the end of the file.
   */
  ghost predicate Stepped<T>(d: Result<Decoded<T>>, r: Result<T>, pos: nat, size: nat) {
    match d
    case Ok(x) => r == Ok(x.value) && pos == x.next
    case ShortRead => r == ShortRead && pos == size
  }

  /** What a validation pass reports through its return value and its `bad_idx` out-parameter. */
  ghost predicate Reported(v: Result<Verdict>, r: Result<RecheckError>, badIdx: u64, badIdx0: u64) {
    match v
    case ShortRead => r == ShortRead
    case Ok(Passed) => r == Ok(NoError) && badIdx == badIdx0
    case Ok(Failed(e, i)) => r == Ok(e) && badIdx == i
  }

  lemma AppendFive(f: bytes, a: bytes, t: bytes, p: bytes, d: bytes, h: bytes)
    ensures f + a + t + p + d + h == f + (a + (t + (p + (d + h))))
  {
  }

  /** A counter started at 0 that was bumped once per block of a complete scan holds the number of blocks, modulo 2^64. */
  lemma CountOfScan(file: bytes, seen: seq<Block>, n: u64)
    requires Parse(file) == Scan(seen, true) && n == Counted(0, seen)
    ensures Parse(file).complete && n == |Parse(file).blocks| % U64
  {
    CountedIsSum(0, seen);
  }

  lemma ShiftSeen(all: seq<Block>, seen: seq<Block>, b: Block, rest: seq<Block>)
    requires all == seen + ([b] + rest)
    ensures all == (seen + [b]) + rest
  {
  }

  class Storage {
    var file: bytes
    var pos: nat

    ghost predicate Valid()
      reads this
    {
      pos <= |file|
    }

    /** Opens a file holding `contents` (empty for a newly created file); the cursor starts at offset 0. */
    constructor (contents: bytes)
      ensures Valid() && file == contents && pos == 0
    {
      file := contents;
      pos := 0;
    }

    /** Opening fails (the constructor throws) when the file can neither be opened nor created, given here as `None`. */
    static method Open(disk: Option<bytes>) returns (s: Storage?)
      ensures s == null <==> disk.None?
      ensures s != null ==> fresh(s) && s.Valid() && s.file == disk.value && s.pos == 0
    {
      if disk.None? {
        return null;
      }
      s := new Storage(disk.value);
    }

    /** The file size, found by seeking to the end and back: the cursor is where it was. */
    method FSize() returns (size: nat)
      requires Valid()
      modifies this`pos
      ensures Valid() && pos == old(pos) && size == |file|
    {
      var ppos := pos;
      pos := |file|;
      size := pos;
      pos := ppos;
    }

    method Empty() returns (e: bool)
      requires Valid()
      modifies this`pos
      ensures Valid() && pos == old(pos)
      ensures e <==> |file| == 0
    {
      var size := FSize();
      e := size == 0;
    }

    method AtEnd() returns (e: bool)
      requires Valid()
      modifies this`pos
      ensures Valid() && pos == old(pos)
      ensures e <==> pos == |file|
    {
      var size := FSize();
      e := size == pos;
    }

    method SeekToBegin()
      modifies this`pos
      ensures Valid() && pos == 0
    {
      pos := 0;
    }

    method SeekToEnd()
      modifies this`pos
      ensures Valid() && pos == |file|
    {
      pos := |file|;
    }

    // ---------------------------------------------------------------- reading

    method ReadUInt(width: nat) returns (r: Result<nat>)
      requires Valid()
      modifies this`pos
      ensures Valid() && Stepped(ReadUIntAt(file, old(pos), width), r, pos, |file|)
    {
      if pos + width <= |file| {
        r := Ok(FromLittleEndian(file[pos..pos + width]));
        pos := pos + width;
      } else {
        r := ShortRead;
        pos := |file|;
      }
    }

    method ReadString() returns (r: Result<bytes>)
      requires Valid()
      modifies this`pos
      ensures Valid() && Stepped(ReadStringAt(file, old(pos)), r, pos, |file|)
    {
      var size := ReadUInt(4);
      if size.ShortRead? {
        return ShortRead;
      }
      if pos + size.value <= |file| {
        r := Ok(file[pos..pos + size.value]);
        pos := pos + size.value;
      } else {
        r := ShortRead;
        pos := |file|;
      }
    }

    method ReadBlock() returns (r: Result<Block>)
      requires Valid()
      modifies this`pos
      ensures Valid() && Stepped(ReadBlockAt(file, old(pos)), r, pos, |file|)
    {
      Pow256Widths();
      var idx := ReadUInt(8);
      if idx.ShortRead? {
        return ShortRead;
      }
      var timestamp := ReadUInt(8);
      if timestamp.ShortRead? {
        return ShortRead;
      }
      var prev := ReadString();
      if prev.ShortRead? {
        return ShortRead;
      }
      var data := ReadString();
      if data.ShortRead? {
        return ShortRead;
      }
      var sha := ReadString();
      if sha.ShortRead? {
        return ShortRead;
      }
      r := Ok(Block(idx.value, timestamp.value, prev.value, data.value, sha.value));
    }

    /** Rewinds and reads the first record. */
    method First() returns (r: Result<Block>)
      requires Valid()
      modifies this`pos
      ensures Valid() && Stepped(ReadBlockAt(file, 0), r, pos, |file|)
    {
      SeekToBegin();
      r := ReadBlock();
    }

    /** Reads the record at the cursor. */
    method Next() returns (r: Result<Block>)
      requires Valid()
      modifies this`pos
      ensures Valid() && Stepped(ReadBlockAt(file, old(pos)), r, pos, |file|)
    {
      r := ReadBlock();
    }

    /**
     * Reads the record at the cursor during a full scan that has decoded
     * `seen` so far, then asks whether the file is at its end: a record read
     * joins `seen`, a short read before the end means the file does not
     * decode completely, and a record that ends at the end of the file ends
     * a complete scan.
     */
    method ScanStep(ghost seen: seq<Block>) returns (r: Result<Block>, end: bool)
      requires Valid()
      requires Parse(file).blocks == seen + ParseFrom(file, pos).blocks
      requires Parse(file).complete == ParseFrom(file, pos).complete
      modifies this`pos
      ensures Valid()
      ensures old(pos) == |file| ==> r.ShortRead?
      ensures r.ShortRead? && old(pos) < |file| ==> !Parse(file).complete
      ensures r.Ok? ==> old(pos) < pos
      ensures r.Ok? && end ==> Parse(file) == Scan(seen + [r.value], true)
      ensures r.ShortRead? || end ==> pos == |file|
      ensures r.Ok? && !end ==> pos < |file|
      ensures r.Ok? && !end ==> Parse(file).blocks == (seen + [r.value]) + ParseFrom(file, pos).blocks
      ensures r.Ok? && !end ==> Parse(file).complete == ParseFrom(file, pos).complete
    {
      ghost var p0 := pos;
      r := ReadBlock();
      if r.ShortRead? {
        if p0 < |file| {
          ParseFromShort(file, p0);
        }
        return r, false;
      }
      ParseFromStep(file, p0);
      ShiftSeen(Parse(file).blocks, seen, r.value, ParseFrom(file, pos).blocks);
      end := AtEnd();
      if end {
        assert ParseFrom(file, pos) == Scan([], true);
      }
    }

    // ---------------------------------------------------------------- writing

    method WriteUInt(n: nat, width: nat)
      requires n < Pow256(width)
      modifies this
      ensures file == old(file) + LittleEndian(n, width) && pos == |file|
    {
      file := file + LittleEndian(n, width);
      pos := |file|;
    }

    /** Writes the length cast to 32 bits, then that many bytes of `s`. */
    method WriteString(s: bytes)
      modifies this
      ensures file == old(file) + EncodeString(s) && pos == |file|
    {
      Pow256Widths();
      var size := Trunc32(|s|);
      WriteUInt(size, 4);
      file := file + s[..size];
      pos := |file|;
    }

    method WriteBlock(b: Block)
      modifies this
      ensures Valid() && file == old(file) + EncodeBlock(b) && pos == |file|
    {
      Pow256Widths();
      SeekToEnd();
      ghost var before := file;
      WriteUInt(b.idx, 8);
      WriteUInt(b.timestamp, 8);
      WriteString(b.prevSha256);
      WriteString(b.data);
      WriteString(b.sha256);
      AppendFive(before, LittleEndian(b.idx, 8), LittleEndian(b.timestamp, 8),
                 EncodeString(b.prevSha256), EncodeString(b.data), EncodeString(b.sha256));
    }

    /**
     * Appends a record: the bytes already in the file are kept, the file
     * grows by the record's size, the cursor ends at the end of the file, and
     * a completely decodable file decodes afterwards to its old blocks
     * followed by `b`.
     */
    method Add(b: Block)
      modifies this
      ensures Valid() && file == old(file) + EncodeBlock(b) && pos == |file|
      ensures file[..|old(file)|] == old(file)
      ensures Encodable(b) ==> |file| == |old(file)| + 28 + |b.prevSha256| + |b.data| + |b.sha256|
      ensures Encodable(b) && Parse(old(file)).complete ==> Parse(file) == Scan(Parse(old(file)).blocks + [b], true)
    {
      WriteBlock(b);
      if Encodable(b) && Parse(old(file)).complete {
        ParseAppend(old(file), b);
      }
    }

    // ---------------------------------------------------------------- scans

    /** Counts the records by a full scan: 0 for an empty file, a short read when a record is truncated. */
    method Blocks() returns (r: Result<u64>)
      requires Valid()
      modifies this`pos
      ensures Valid()
      ensures var s := Parse(file);
              r == if s.complete then Ok(|s.blocks| % U64) else ShortRead
      ensures pos == |file|
    {
      var e := Empty();
      if e {
        return Ok(0);
      }
      var n: u64 := 0;
      ghost var seen: seq<Block> := [];
      SeekToBegin();
      while true
        invariant Valid() && pos < |file|
        invariant n == Counted(0, seen)
        invariant Parse(file).blocks == seen + ParseFrom(file, pos).blocks
        invariant Parse(file).complete == ParseFrom(file, pos).complete
        decreases |file| - pos
      {
        var b, end := ScanStep(seen);
        if b.ShortRead? {
          return ShortRead;
        }
        CountedSnoc(0, seen, b.value);
        seen := seen + [b.value];
        n := Inc(n);
        if end {
          CountOfScan(file, seen, n);
          return Ok(n);
        }
      }
    }

    /**
     * Scans to the last record and returns it, adding the number of records
     * to the counter `n0`. It reads before it looks for the end, so an empty
     * file gives a short read.
     */
    method LastBlock(n0: u64) returns (r: Result<Block>, n: u64)
      requires Valid()
      modifies this`pos
      ensures Valid()
      ensures var s := Parse(file);
              r == (if |file| == 0 || !s.complete then ShortRead else Ok(s.blocks[|s.blocks| - 1]))
      ensures r.Ok? ==> n == Counted(n0, Parse(file).blocks)
      ensures pos == |file|
    {
      SeekToBegin();
      n := n0;
      ghost var seen: seq<Block> := [];
      while true
        invariant Valid() && (pos < |file| || |file| == 0)
        invariant n == Counted(n0, seen)
        invariant Parse(file).blocks == seen + ParseFrom(file, pos).blocks
        invariant Parse(file).complete == ParseFrom(file, pos).complete
        decreases |file| - pos
      {
        var b, end := ScanStep(seen);
        if b.ShortRead? {
          return ShortRead, n;
        }
        CountedSnoc(n0, seen, b.value);
        seen := seen + [b.value];
        n := Inc(n);
        if end {
          return b, n;
        }
      }
    }

    /** The shared body of both lookups: the first record matching `key`, scanning from the start and never past the end. */
    method Search(key: Key) returns (r: Result<Lookup>)
      requires Valid()
      modifies this`pos
      ensures Valid() && r == Find(file, key)
      ensures pos == FindStop(file, key)
    {
      var e := Empty();
      if e {
        return Ok(Lookup(false, EmptyBlock));
      }
      var b := First();
      if b.ShortRead? {
        return ShortRead;
      }
      while true
        invariant Valid() && b.Ok?
        invariant Find(file, key) == if Matches(b.value, key) then Ok(Lookup(true, b.value))
                                     else if pos == |file| then Ok(Lookup(false, b.value))
                                     else FindFrom(file, pos, key)
        invariant FindStop(file, key) == if Matches(b.value, key) || pos == |file| then pos
                                         else FindStopFrom(file, pos, key)
        decreases |file| - pos
      {
        if Matches(b.value, key) {
          return Ok(Lookup(true, b.value));
        }
        var end := AtEnd();
        if end {
          break;
        }
        b := Next();
        if b.ShortRead? {
          return ShortRead;
        }
      }
      return Ok(Lookup(false, b.value));
    }

    /** Looks a block up by index. */
    method GetByIdx(idx: u64) returns (r: Result<Lookup>)
      requires Valid()
      modifies this`pos
      ensures Valid() && r == Find(file, ByIdx(idx))
      ensures pos == FindStop(file, ByIdx(idx))
    {
      r := Search(ByIdx(idx));
    }

    /** Looks a block up by digest. */
    method GetByHash(sha256: bytes) returns (r: Result<Lookup>)
      requires Valid()
      modifies this`pos
      ensures Valid() && r == Find(file, ByHash(sha256))
      ensures pos == FindStop(file, ByHash(sha256))
    {
      r := Search(ByHash(sha256));
    }

    // ---------------------------------------------------------------- validation

    static function FormatError(e: RecheckError): (s: string)
      ensures s == "ok" <==> e == NoError
    {
      match e
      case NoError => "ok"
      case BadRoot => "bad root"
      case BadHash => "bad hash"
      case BadIdx => "bad idx"
      case BadPrevHash => "bad previous hash"
    }

    /**
     * The validation pass as written: the root checks on block 0, then a loop
     * that reads the next record before it tests for the end of the file.
     */
    method Recheck(hash: Hasher, badIdx0: u64) returns (r: Result<RecheckError>, badIdx: u64)
      requires Valid()
      modifies this`pos
      ensures Valid() && Reported(RecheckScan(file, hash), r, badIdx, badIdx0)
      ensures pos == RecheckStop(file, hash)
    {
      badIdx := badIdx0;
      var e := Empty();
      if e {
        return Ok(NoError), badIdx;
      }
      var first := First();
      if first.ShortRead? {
        return ShortRead, badIdx;
      }
      var b := first.value;
      if b.idx != 0 {
        return Ok(BadRoot), b.idx;
      }
      if b.prevSha256 != [] {
        return Ok(BadRoot), b.idx;
      }
      if b.sha256 != hash(b.data) {
        return Ok(BadRoot), b.idx;
      }
      var pidx: u64, phash: bytes := b.idx, b.sha256;
      while true
        invariant Valid()
        invariant RecheckScan(file, hash) == RecheckFrom(file, pos, pidx, phash, hash)
        invariant RecheckStop(file, hash) == RecheckStopFrom(file, pos, pidx, phash, hash)
        decreases |file| - pos
      {
        var next := Next();
        if next.ShortRead? {
          return ShortRead, badIdx;
        }
        b := next.value;
        if b.sha256 != hash(b.data) {
          return Ok(BadHash), b.idx;
        }
        if (pidx + 1) % U64 != b.idx {
          return Ok(BadIdx), b.idx;
        }
        if phash != b.prevSha256 {
          return Ok(BadPrevHash), b.idx;
        }
        pidx, phash := b.idx, b.sha256;
        var end := AtEnd();
        if end {
          break;
        }
      }
      return Ok(NoError), badIdx;
    }

    /**
     * The validation pass with the end-of-file test made before each read:
     * it passes exactly when the file decodes completely and the chain is
     * valid, and otherwise reports the first failing block.
     */
    method RecheckGuarded(hash: Hasher, badIdx0: u64) returns (r: Result<RecheckError>, badIdx: u64)
      requires Valid()
      modifies this`pos
      ensures Valid() && Reported(GuardedRecheckScan(file, hash), r, badIdx, badIdx0)
      ensures pos == RecheckStop(file, hash)
      ensures r == Ok(NoError) <==> Parse(file).complete && ValidChain(Parse(file).blocks, hash)
    {
      assert GuardedRecheckScan(file, hash) == Ok(Passed) <==> Parse(file).complete && ValidChain(Parse(file).blocks, hash) by {
        GuardedRecheckIsFirstFailure(file, hash);
      }
      badIdx := badIdx0;
      var e := Empty();
      if e {
        return Ok(NoError), badIdx;
      }
      var first := First();
      if first.ShortRead? {
        return ShortRead, badIdx;
      }
      var b := first.value;
      if b.idx != 0 || b.prevSha256 != [] || b.sha256 != hash(b.data) {
        return Ok(BadRoot), b.idx;
      }
      var pidx: u64, phash: bytes := b.idx, b.sha256;
      while true
        invariant Valid()
        invariant GuardedRecheckScan(file, hash) == GuardedRecheckFrom(file, pos, pidx, phash, hash)
        invariant RecheckStop(file, hash) == RecheckStopFrom(file, pos, pidx, phash, hash)
        decreases |file| - pos
      {
        var end := AtEnd();
        if end {
          break;
        }
        var next := Next();
        if next.ShortRead? {
          return ShortRead, badIdx;
        }
        b := next.value;
        if b.sha256 != hash(b.data) {
          return Ok(BadHash), b.idx;
        }
        if (pidx + 1) % U64 != b.idx {
          return Ok(BadIdx), b.idx;
        }
        if phash != b.prevSha256 {
          return Ok(BadPrevHash), b.idx;
        }
        pidx, phash := b.idx, b.sha256;
      }
      return Ok(NoError), badIdx;
    }
  }
}
