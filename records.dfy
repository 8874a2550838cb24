/**
 * The on-disk format of the block file and what the scans over it compute.
 *
 * A record is the block index and timestamp as 8-byte little-endian
 * integers, then the previous digest, the payload and the digest, each as a
 * 4-byte little-endian length followed by that many bytes. There is no
 * header, separator or trailer. The functions here read a record at a byte
 * offset the way the storage engine's private readers do; the scans built on
 * them are the specifications of the storage class's loops.
 */
module Records {
  import opened Primitives
  import opened Blockchain
  import opened Chain

  /** A decoded value and the offset just past its bytes. */
  datatype Decoded<T> = Decoded(value: T, next: nat)

  // ---------------------------------------------------------------- encoding

  /** A length-prefixed string; the length is cast to 32 bits and only that many bytes are written. */
  function EncodeString(s: bytes): (e: bytes)
    ensures |s| < U32 ==> e == LittleEndian(|s|, 4) + s && |e| == 4 + |s|
  {
    Pow256Widths();
    var size := Trunc32(|s|);
    LittleEndian(size, 4) + s[..size]
  }

  /** Every string of the block fits the 32-bit length prefix. */
  predicate Encodable(b: Block) {
    |b.prevSha256| < U32 && |b.data| < U32 && |b.sha256| < U32
  }

  function EncodeBlock(b: Block): (e: bytes)
    ensures Encodable(b) ==> |e| == 28 + |b.prevSha256| + |b.data| + |b.sha256|
  {
    Pow256Widths();
    LittleEndian(b.idx, 8) + (LittleEndian(b.timestamp, 8)
      + (EncodeString(b.prevSha256) + (EncodeString(b.data) + EncodeString(b.sha256))))
  }

  /** The records of `bs`, one after the other. */
  function EncodeAll(bs: seq<Block>): bytes {
    if bs == [] then [] else EncodeAll(bs[..|bs| - 1]) + EncodeBlock(bs[|bs| - 1])
  }

  // ---------------------------------------------------------------- decoding

  function ReadUIntAt(file: bytes, pos: nat, width: nat): (r: Result<Decoded<nat>>)
    ensures r.Ok? <==> pos + width <= |file|
    ensures r.Ok? ==> r.value.next == pos + width && r.value.value < Pow256(width)
  {
    if pos + width <= |file| then Ok(Decoded(FromLittleEndian(file[pos..pos + width]), pos + width))
    else ShortRead
  }

  function ReadStringAt(file: bytes, pos: nat): (r: Result<Decoded<bytes>>)
    ensures r.Ok? ==> |r.value.value| < U32 && r.value.next == pos + 4 + |r.value.value| <= |file|
  {
    Pow256Widths();
    var size :- ReadUIntAt(file, pos, 4);
    if size.next + size.value <= |file| then Ok(Decoded(file[size.next..size.next + size.value], size.next + size.value))
    else ShortRead
  }

  function ReadBlockAt(file: bytes, pos: nat): (r: Result<Decoded<Block>>)
    ensures r.Ok? ==> Encodable(r.value.value) && pos + 28 <= r.value.next <= |file|
  {
    Pow256Widths();
    var idx :- ReadUIntAt(file, pos, 8);
    var timestamp :- ReadUIntAt(file, idx.next, 8);
    var prev :- ReadStringAt(file, timestamp.next);
    var data :- ReadStringAt(file, prev.next);
    var sha :- ReadStringAt(file, data.next);
    Ok(Decoded(Block(idx.value, timestamp.value, prev.value, data.value, sha.value), sha.next))
  }

  lemma ReadUIntAtEncoded(file: bytes, pos: nat, n: nat, width: nat)
    requires n < Pow256(width) && pos + width <= |file|
    requires file[pos..pos + width] == LittleEndian(n, width)
    ensures ReadUIntAt(file, pos, width) == Ok(Decoded(n, pos + width))
  {
  }

  /** A slice that equals `x + y` splits into a slice equal to `x` and one equal to `y`. */
  lemma SplitSlice(file: bytes, i: nat, j: nat, x: bytes, y: bytes)
    requires i <= j <= |file| && file[i..j] == x + y
    ensures i + |x| <= j && file[i..i + |x|] == x && file[i + |x|..j] == y
  {
    assert file[i..i + |x|] == file[i..j][..|x|];
    assert file[i + |x|..j] == file[i..j][|x|..];
  }

  /** A slice that equals `x + (y + z)` splits into three slices equal to `x`, `y` and `z`. */
  lemma SplitThree(file: bytes, i: nat, l: nat, x: bytes, y: bytes, z: bytes)
    requires i <= l <= |file| && file[i..l] == x + (y + z)
    ensures l == i + |x| + |y| + |z|
    ensures file[i..i + |x|] == x && file[i + |x|..i + |x| + |y|] == y && file[i + |x| + |y|..l] == z
  {
    SplitSlice(file, i, l, x, y + z);
    SplitSlice(file, i + |x|, l, y, z);
  }

  lemma ReadStringAtEncoded(file: bytes, pos: nat, s: bytes)
    requires |s| < U32 && pos + 4 + |s| <= |file|
    requires file[pos..pos + 4 + |s|] == EncodeString(s)
    ensures ReadStringAt(file, pos) == Ok(Decoded(s, pos + 4 + |s|))
  {
    Pow256Widths();
    SplitSlice(file, pos, pos + 4 + |s|, LittleEndian(|s|, 4), s);
    ReadUIntAtEncoded(file, pos, |s|, 4);
  }

  /** The five reads of a record, each one where the previous one stopped, assemble into the block. */
  lemma ReadBlockAtFields(file: bytes, pos: nat, b: Block, o3: nat, o4: nat, o5: nat)
    requires ReadUIntAt(file, pos, 8) == Ok(Decoded(b.idx as nat, pos + 8))
    requires ReadUIntAt(file, pos + 8, 8) == Ok(Decoded(b.timestamp as nat, pos + 16))
    requires ReadStringAt(file, pos + 16) == Ok(Decoded(b.prevSha256, o3))
    requires ReadStringAt(file, o3) == Ok(Decoded(b.data, o4))
    requires ReadStringAt(file, o4) == Ok(Decoded(b.sha256, o5))
    ensures ReadBlockAt(file, pos) == Ok(Decoded(b, o5))
  {
  }

  lemma ReadHeaderEncoded(file: bytes, pos: nat, end: nat, b: Block, rest: bytes)
    requires pos <= end <= |file|
    requires file[pos..end] == LittleEndian(b.idx, 8) + (LittleEndian(b.timestamp, 8) + rest)
    ensures ReadUIntAt(file, pos, 8) == Ok(Decoded(b.idx as nat, pos + 8))
    ensures ReadUIntAt(file, pos + 8, 8) == Ok(Decoded(b.timestamp as nat, pos + 16))
    ensures pos + 16 <= end && file[pos + 16..end] == rest
  {
    Pow256Widths();
    SplitSlice(file, pos, end, LittleEndian(b.idx, 8), LittleEndian(b.timestamp, 8) + rest);
    ReadUIntAtEncoded(file, pos, b.idx, 8);
    SplitSlice(file, pos + 8, end, LittleEndian(b.timestamp, 8), rest);
    ReadUIntAtEncoded(file, pos + 8, b.timestamp, 8);
  }

  /** A string record at the front of a slice reads back as that string, and the rest of the slice follows it. */
  lemma ReadStringThen(file: bytes, pos: nat, next: nat, end: nat, x: bytes, rest: bytes)
    requires |x| < U32 && pos <= end <= |file| && next == pos + 4 + |x|
    requires file[pos..end] == EncodeString(x) + rest
    ensures ReadStringAt(file, pos) == Ok(Decoded(x, next))
    ensures next <= end && file[next..end] == rest
  {
    SplitSlice(file, pos, end, EncodeString(x), rest);
    ReadStringAtEncoded(file, pos, x);
  }

  lemma ReadStringsEncoded(file: bytes, pos: nat, o3: nat, o4: nat, end: nat, x: bytes, y: bytes, z: bytes)
    requires |x| < U32 && |y| < U32 && |z| < U32 && pos <= end <= |file|
    requires o3 == pos + 4 + |x| && o4 == o3 + 4 + |y| && end == o4 + 4 + |z|
    requires file[pos..end] == EncodeString(x) + (EncodeString(y) + EncodeString(z))
    ensures ReadStringAt(file, pos) == Ok(Decoded(x, o3))
    ensures ReadStringAt(file, o3) == Ok(Decoded(y, o4))
    ensures ReadStringAt(file, o4) == Ok(Decoded(z, end))
  {
    ReadStringThen(file, pos, o3, end, x, EncodeString(y) + EncodeString(z));
    ReadStringThen(file, o3, o4, end, y, EncodeString(z));
    assert file[o4..end] == EncodeString(z) + [];
    ReadStringThen(file, o4, end, end, z, []);
  }

  /** Where a record was written, the five reads each find their field, one after the other. */
  lemma EncodingIsFields(file: bytes, pos: nat, b: Block, o3: nat, o4: nat, o5: nat)
    requires Encodable(b) && pos + |EncodeBlock(b)| <= |file|
    requires file[pos..pos + |EncodeBlock(b)|] == EncodeBlock(b)
    requires o3 == pos + 20 + |b.prevSha256| && o4 == o3 + 4 + |b.data| && o5 == o4 + 4 + |b.sha256|
    ensures o5 == pos + |EncodeBlock(b)|
    ensures ReadUIntAt(file, pos, 8) == Ok(Decoded(b.idx as nat, pos + 8))
    ensures ReadUIntAt(file, pos + 8, 8) == Ok(Decoded(b.timestamp as nat, pos + 16))
    ensures ReadStringAt(file, pos + 16) == Ok(Decoded(b.prevSha256, o3))
    ensures ReadStringAt(file, o3) == Ok(Decoded(b.data, o4))
    ensures ReadStringAt(file, o4) == Ok(Decoded(b.sha256, o5))
  {
    var strings := EncodeString(b.prevSha256) + (EncodeString(b.data) + EncodeString(b.sha256));
    ReadHeaderEncoded(file, pos, o5, b, strings);
    ReadStringsEncoded(file, pos + 16, o3, o4, o5, b.prevSha256, b.data, b.sha256);
  }

  /** Reading a record where one was written gives back the block written, all five fields, and the offset past it. */
  lemma ReadBlockAtEncoded(file: bytes, pos: nat, b: Block)
    requires Encodable(b) && pos + |EncodeBlock(b)| <= |file|
    requires file[pos..pos + |EncodeBlock(b)|] == EncodeBlock(b)
    ensures ReadBlockAt(file, pos) == Ok(Decoded(b, pos + |EncodeBlock(b)|))
  {
    var o3 := pos + 20 + |b.prevSha256|;
    var o4 := o3 + 4 + |b.data|;
    var o5 := o4 + 4 + |b.sha256|;
    EncodingIsFields(file, pos, b, o3, o4, o5);
    ReadBlockAtFields(file, pos, b, o3, o4, o5);
  }

  lemma JoinSlice(file: bytes, i: nat, k: nat, j: nat)
    requires i <= k <= j <= |file|
    ensures file[i..j] == file[i..k] + file[k..j]
  {
  }

  lemma ReadUIntAtIsEncoding(file: bytes, pos: nat, width: nat)
    requires ReadUIntAt(file, pos, width).Ok?
    ensures file[pos..pos + width] == LittleEndian(ReadUIntAt(file, pos, width).value.value, width)
  {
    LittleEndianOfDecoded(file[pos..pos + width]);
  }

  lemma ReadStringAtIsEncoding(file: bytes, pos: nat)
    requires ReadStringAt(file, pos).Ok?
    ensures var d := ReadStringAt(file, pos).value;
            file[pos..d.next] == EncodeString(d.value)
  {
    var d := ReadStringAt(file, pos).value;
    ReadUIntAtIsEncoding(file, pos, 4);
    JoinSlice(file, pos, pos + 4, d.next);
  }

  lemma ReadBlockAtIsFields(file: bytes, pos: nat)
    requires ReadBlockAt(file, pos).Ok?
    ensures var d := ReadBlockAt(file, pos).value;
            var b := d.value;
            var o3 := pos + 16 + 4 + |b.prevSha256|;
            var o4 := o3 + 4 + |b.data|;
            && ReadUIntAt(file, pos, 8) == Ok(Decoded(b.idx as nat, pos + 8))
            && ReadUIntAt(file, pos + 8, 8) == Ok(Decoded(b.timestamp as nat, pos + 16))
            && ReadStringAt(file, pos + 16) == Ok(Decoded(b.prevSha256, o3))
            && ReadStringAt(file, o3) == Ok(Decoded(b.data, o4))
            && ReadStringAt(file, o4) == Ok(Decoded(b.sha256, d.next))
  {
  }

  /** Three slices that follow each other join into the slice that covers them. */
  lemma JoinThree(file: bytes, i: nat, j: nat, k: nat, l: nat, x: bytes, y: bytes, z: bytes)
    requires i <= j <= k <= l <= |file|
    requires file[i..j] == x && file[j..k] == y && file[k..l] == z
    ensures file[i..l] == x + (y + z)
  {
    JoinSlice(file, j, k, l);
    JoinSlice(file, i, j, l);
  }

  /** Two successful integer reads, one after the other, consumed the encodings of the two values. */
  lemma HeaderIsEncoding(file: bytes, pos: nat, b: Block)
    requires ReadUIntAt(file, pos, 8) == Ok(Decoded(b.idx as nat, pos + 8))
    requires ReadUIntAt(file, pos + 8, 8) == Ok(Decoded(b.timestamp as nat, pos + 16))
    ensures pos + 16 <= |file|
    ensures file[pos..pos + 8] == LittleEndian(b.idx, 8)
    ensures file[pos + 8..pos + 16] == LittleEndian(b.timestamp, 8)
  {
    ReadUIntAtIsEncoding(file, pos, 8);
    ReadUIntAtIsEncoding(file, pos + 8, 8);
  }

  /** Three successful string reads, one after the other, consumed the encodings of the three strings. */
  lemma StringsAreEncoding(file: bytes, pos: nat, b: Block, o3: nat, o4: nat, o5: nat)
    requires ReadStringAt(file, pos) == Ok(Decoded(b.prevSha256, o3))
    requires ReadStringAt(file, o3) == Ok(Decoded(b.data, o4))
    requires ReadStringAt(file, o4) == Ok(Decoded(b.sha256, o5))
    ensures pos <= o3 <= o4 <= o5 <= |file|
    ensures file[pos..o5] == EncodeString(b.prevSha256) + (EncodeString(b.data) + EncodeString(b.sha256))
  {
    ReadStringAtIsEncoding(file, pos);
    ReadStringAtIsEncoding(file, o3);
    ReadStringAtIsEncoding(file, o4);
    JoinThree(file, pos, o3, o4, o5, EncodeString(b.prevSha256), EncodeString(b.data), EncodeString(b.sha256));
  }

  /** Five successful reads, each where the previous one stopped, consumed the encoding of the block they assemble. */
  lemma FieldsAreEncoding(file: bytes, pos: nat, b: Block, o3: nat, o4: nat, o5: nat)
    requires ReadUIntAt(file, pos, 8) == Ok(Decoded(b.idx as nat, pos + 8))
    requires ReadUIntAt(file, pos + 8, 8) == Ok(Decoded(b.timestamp as nat, pos + 16))
    requires ReadStringAt(file, pos + 16) == Ok(Decoded(b.prevSha256, o3))
    requires ReadStringAt(file, o3) == Ok(Decoded(b.data, o4))
    requires ReadStringAt(file, o4) == Ok(Decoded(b.sha256, o5))
    ensures pos <= o5 <= |file| && file[pos..o5] == EncodeBlock(b)
  {
    HeaderIsEncoding(file, pos, b);
    StringsAreEncoding(file, pos + 16, b, o3, o4, o5);
    var strings := EncodeString(b.prevSha256) + (EncodeString(b.data) + EncodeString(b.sha256));
    JoinThree(file, pos, pos + 8, pos + 16, o5, LittleEndian(b.idx, 8), LittleEndian(b.timestamp, 8), strings);
  }

  /** Conversely, the bytes a successful read consumed are exactly the encoding of the block it returned. */
  lemma ReadBlockAtIsEncoding(file: bytes, pos: nat)
    requires ReadBlockAt(file, pos).Ok?
    ensures var d := ReadBlockAt(file, pos).value;
            file[pos..d.next] == EncodeBlock(d.value)
  {
    var d := ReadBlockAt(file, pos).value;
    var b := d.value;
    var o3 := pos + 16 + 4 + |b.prevSha256|;
    var o4 := o3 + 4 + |b.data|;
    ReadBlockAtIsFields(file, pos);
    FieldsAreEncoding(file, pos, b, o3, o4, d.next);
  }

  lemma ReadUIntAtExtend(file: bytes, pos: nat, width: nat, ext: bytes)
    requires pos + width <= |file|
    ensures ReadUIntAt(file + ext, pos, width) == ReadUIntAt(file, pos, width)
  {
    assert (file + ext)[pos..pos + width] == file[pos..pos + width];
  }

  lemma ReadStringAtExtend(file: bytes, pos: nat, ext: bytes)
    requires ReadStringAt(file, pos).Ok?
    ensures ReadStringAt(file + ext, pos) == ReadStringAt(file, pos)
  {
    var d := ReadStringAt(file, pos).value;
    ReadUIntAtExtend(file, pos, 4, ext);
    assert (file + ext)[pos + 4..d.next] == file[pos + 4..d.next];
  }

  /** A read depends only on the bytes it consumed: bytes appended later do not change it. */
  lemma ReadBlockAtExtend(file: bytes, pos: nat, ext: bytes)
    requires ReadBlockAt(file, pos).Ok?
    ensures ReadBlockAt(file + ext, pos) == ReadBlockAt(file, pos)
  {
    var d := ReadBlockAt(file, pos).value;
    var b := d.value;
    var o3 := pos + 16 + 4 + |b.prevSha256|;
    var o4 := o3 + 4 + |b.data|;
    ReadBlockAtIsFields(file, pos);
    ReadUIntAtExtend(file, pos, 8, ext);
    ReadUIntAtExtend(file, pos + 8, 8, ext);
    ReadStringAtExtend(file, pos + 16, ext);
    ReadStringAtExtend(file, o3, ext);
    ReadStringAtExtend(file, o4, ext);
    ReadBlockAtFields(file + ext, pos, b, o3, o4, d.next);
  }

  // ---------------------------------------------------------------- scans

  /**
   * The blocks a sequential scan from `pos` decodes, and whether it reached
   * the end of the file exactly (`complete`) or stopped at a short read.
   */
  datatype Scan = Scan(blocks: seq<Block>, complete: bool)

  function ParseFrom(file: bytes, pos: nat): (s: Scan)
    requires pos <= |file|
    ensures s.complete && pos < |file| ==> s.blocks != []
    decreases |file| - pos
  {
    if pos == |file| then Scan([], true)
    else match ReadBlockAt(file, pos)
      case ShortRead => Scan([], false)
      case Ok(d) =>
        var rest := ParseFrom(file, d.next);
        Scan([d.value] + rest.blocks, rest.complete)
  }

  lemma ParseFromStep(file: bytes, pos: nat)
    requires pos <= |file| && ReadBlockAt(file, pos).Ok?
    ensures var d := ReadBlockAt(file, pos).value;
            && ParseFrom(file, pos).blocks == [d.value] + ParseFrom(file, d.next).blocks
            && ParseFrom(file, pos).complete == ParseFrom(file, d.next).complete
  {
  }

  lemma ParseFromShort(file: bytes, pos: nat)
    requires pos < |file| && ReadBlockAt(file, pos).ShortRead?
    ensures !ParseFrom(file, pos).complete && ParseFrom(file, pos).blocks == []
  {
  }

  /** Every block a scan decodes can be written back: its strings are shorter than 2^32 bytes. */
  lemma {:induction false} ParseFromEncodable(file: bytes, pos: nat)
    requires pos <= |file|
    ensures forall b | b in ParseFrom(file, pos).blocks :: Encodable(b)
    decreases |file| - pos
  {
    if pos < |file| && ReadBlockAt(file, pos).Ok? {
      ParseFromEncodable(file, ReadBlockAt(file, pos).value.next);
    }
  }

  /** The full scan from offset 0. */
  function Parse(file: bytes): Scan {
    ParseFrom(file, 0)
  }

  lemma {:induction false} ParseFromAppend(file: bytes, pos: nat, b: Block)
    requires pos <= |file| && ParseFrom(file, pos).complete && Encodable(b)
    ensures ParseFrom(file + EncodeBlock(b), pos) == Scan(ParseFrom(file, pos).blocks + [b], true)
    decreases |file| - pos
  {
    var f := file + EncodeBlock(b);
    if pos == |file| {
      ReadBlockAtEncoded(f, |file|, b);
    } else {
      var d := ReadBlockAt(file, pos).value;
      ReadBlockAtExtend(file, pos, EncodeBlock(b));
      ParseFromAppend(file, d.next, b);
    }
  }

  /** Appending a record to a completely decodable file adds exactly that block after the existing ones. */
  lemma ParseAppend(file: bytes, b: Block)
    requires Parse(file).complete && Encodable(b)
    ensures Parse(file + EncodeBlock(b)) == Scan(Parse(file).blocks + [b], true)
  {
    ParseFromAppend(file, 0, b);
  }

  /** The file-level round trip: a file of records decodes to exactly the blocks written, in order. */
  lemma {:induction false} ParseEncodeAll(bs: seq<Block>)
    requires forall i :: 0 <= i < |bs| ==> Encodable(bs[i])
    ensures Parse(EncodeAll(bs)) == Scan(bs, true)
  {
    if bs != [] {
      var init, last := bs[..|bs| - 1], bs[|bs| - 1];
      assert init + [last] == bs;
      assert EncodeAll(bs) == EncodeAll(init) + EncodeBlock(last);
      ParseEncodeAll(init);
      ParseAppend(EncodeAll(init), last);
    }
  }

  // ---------------------------------------------------------------- lookups

  /** What a lookup matches on: the block index, or the block digest. */
  datatype Key = ByIdx(idx: u64) | ByHash(sha256: bytes)

  predicate Matches(b: Block, key: Key) {
    match key
    case ByIdx(i) => b.idx == i
    case ByHash(h) => b.sha256 == h
  }

  /** A lookup's result: the ok flag and the block returned with it. */
  datatype Lookup = Lookup(found: bool, block: Block)

  /** The lookup loop from `pos`: stop at a match, or after the last record with the last block read. */
  function FindFrom(file: bytes, pos: nat, key: Key): Result<Lookup>
    requires pos <= |file|
    decreases |file| - pos
  {
    var d :- ReadBlockAt(file, pos);
    if Matches(d.value, key) then Ok(Lookup(true, d.value))
    else if d.next == |file| then Ok(Lookup(false, d.value))
    else FindFrom(file, d.next, key)
  }

  function Find(file: bytes, key: Key): Result<Lookup> {
    if |file| == 0 then Ok(Lookup(false, EmptyBlock)) else FindFrom(file, 0, key)
  }

  ghost predicate FirstMatchAt(bs: seq<Block>, key: Key, j: int) {
    0 <= j < |bs| && Matches(bs[j], key) && forall i :: 0 <= i < j ==> !Matches(bs[i], key)
  }

  /** A first match past the head of a list is a first match of its tail, one place earlier. */
  lemma FirstMatchInTail(bs: seq<Block>, key: Key, j: nat)
    requires 0 < j && FirstMatchAt(bs, key, j)
    ensures FirstMatchAt(bs[1..], key, j - 1)
  {
    forall i | 0 <= i < j - 1 ensures !Matches(bs[1..][i], key) {
      assert bs[1..][i] == bs[i + 1];
    }
  }

  lemma {:induction false} FindFromFirstMatch(file: bytes, pos: nat, key: Key, j: nat)
    requires pos < |file| && FirstMatchAt(ParseFrom(file, pos).blocks, key, j)
    ensures FindFrom(file, pos, key) == Ok(Lookup(true, ParseFrom(file, pos).blocks[j]))
    decreases j
  {
    var d := ReadBlockAt(file, pos).value;
    var s, rest := ParseFrom(file, pos), ParseFrom(file, d.next);
    assert s.blocks == [d.value] + rest.blocks;
    if j > 0 {
      assert !Matches(s.blocks[0], key);
      FirstMatchInTail(s.blocks, key, j);
      assert s.blocks[1..] == rest.blocks;
      FindFromFirstMatch(file, d.next, key, j - 1);
    }
  }

  lemma {:induction false} FindFromNoMatch(file: bytes, pos: nat, key: Key)
    requires pos < |file|
    requires forall i :: 0 <= i < |ParseFrom(file, pos).blocks| ==> !Matches(ParseFrom(file, pos).blocks[i], key)
    ensures var s := ParseFrom(file, pos);
            FindFrom(file, pos, key) == if s.complete then Ok(Lookup(false, s.blocks[|s.blocks| - 1])) else ShortRead
    decreases |file| - pos
  {
    match ReadBlockAt(file, pos)
    case ShortRead =>
    case Ok(d) =>
      var s, rest := ParseFrom(file, pos), ParseFrom(file, d.next);
      assert s.blocks == [d.value] + rest.blocks;
      assert !Matches(s.blocks[0], key);
      if d.next < |file| {
        forall i | 0 <= i < |rest.blocks| ensures !Matches(rest.blocks[i], key) {
          assert rest.blocks[i] == s.blocks[i + 1];
        }
        FindFromNoMatch(file, d.next, key);
      }
  }

  /**
   * A lookup returns the first block in file order that matches, with ok set;
   * with no match it returns ok unset (and the last block, or the empty block
   * for an empty file) when the scan reaches the end, and a short read when a
   * record is truncated before any match.
   */
  lemma FindIsFirstMatch(file: bytes, key: Key)
    ensures var s := Parse(file);
            && (forall j :: FirstMatchAt(s.blocks, key, j) ==> Find(file, key) == Ok(Lookup(true, s.blocks[j])))
            && ((forall i :: 0 <= i < |s.blocks| ==> !Matches(s.blocks[i], key)) ==>
                  Find(file, key) == if !s.complete then ShortRead
                                     else if s.blocks == [] then Ok(Lookup(false, EmptyBlock))
                                     else Ok(Lookup(false, s.blocks[|s.blocks| - 1])))
  {
    if |file| > 0 {
      forall j | FirstMatchAt(Parse(file).blocks, key, j)
        ensures Find(file, key) == Ok(Lookup(true, Parse(file).blocks[j]))
      {
        FindFromFirstMatch(file, 0, key, j);
      }
      var s := Parse(file);
      if forall i :: 0 <= i < |s.blocks| ==> !Matches(s.blocks[i], key) {
        FindFromNoMatch(file, 0, key);
      }
    }
  }

  /**
   * Where the lookup loop leaves the cursor: just past the record it stops
   * at, or at the end of the file after a short read.
   */
  function FindStopFrom(file: bytes, pos: nat, key: Key): (stop: nat)
    requires pos <= |file|
    ensures pos <= stop <= |file|
    decreases |file| - pos
  {
    match ReadBlockAt(file, pos)
    case ShortRead => |file|
    case Ok(d) =>
      if Matches(d.value, key) || d.next == |file| then d.next
      else FindStopFrom(file, d.next, key)
  }

  /** The cursor after a lookup; an empty file is not read at all. */
  function FindStop(file: bytes, key: Key): (stop: nat)
    ensures stop <= |file|
  {
    if |file| == 0 then 0 else FindStopFrom(file, 0, key)
  }

  /** One record of a lookup: a mismatch that is not the last record passes the stop on to the next record. */
  lemma FindStopFromStep(file: bytes, pos: nat, key: Key)
    requires pos < |file| && ReadBlockAt(file, pos).Ok?
    ensures var d := ReadBlockAt(file, pos).value;
            && ParseFrom(file, pos) == Scan([d.value] + ParseFrom(file, d.next).blocks, ParseFrom(file, d.next).complete)
            && (Matches(d.value, key) ==> FindStopFrom(file, pos, key) == d.next)
            && (!Matches(d.value, key) && d.next < |file| ==> FindStopFrom(file, pos, key) == FindStopFrom(file, d.next, key))
  {
  }

  lemma {:induction false} FindStopFromFirstMatch(file: bytes, pos: nat, key: Key, j: nat)
    requires pos < |file| && FirstMatchAt(ParseFrom(file, pos).blocks, key, j)
    ensures var s := ParseFrom(file, pos);
            ParseFrom(file, FindStopFrom(file, pos, key)) == Scan(s.blocks[j + 1..], s.complete)
    decreases j
  {
    var d := ReadBlockAt(file, pos).value;
    var s, rest := ParseFrom(file, pos), ParseFrom(file, d.next);
    FindStopFromStep(file, pos, key);
    assert s.blocks[0] == d.value && s.blocks[1..] == rest.blocks;
    if j > 0 {
      FirstMatchInTail(s.blocks, key, j);
      assert !Matches(s.blocks[0], key) && rest.blocks != [];
      FindStopFromFirstMatch(file, d.next, key, j - 1);
      assert s.blocks[j + 1..] == rest.blocks[j..];
    }
  }

  lemma {:induction false} FindStopFromNoMatch(file: bytes, pos: nat, key: Key)
    requires pos <= |file|
    requires forall i :: 0 <= i < |ParseFrom(file, pos).blocks| ==> !Matches(ParseFrom(file, pos).blocks[i], key)
    ensures FindStopFrom(file, pos, key) == |file|
    decreases |file| - pos
  {
    if pos < |file| {
      match ReadBlockAt(file, pos)
      case ShortRead =>
      case Ok(d) =>
        var s, rest := ParseFrom(file, pos), ParseFrom(file, d.next);
        assert s.blocks == [d.value] + rest.blocks;
        assert !Matches(s.blocks[0], key);
        if d.next < |file| {
          forall i | 0 <= i < |rest.blocks| ensures !Matches(rest.blocks[i], key) {
            assert rest.blocks[i] == s.blocks[i + 1];
          }
          FindStopFromNoMatch(file, d.next, key);
        }
    }
  }

  /**
   * A lookup leaves the cursor just past the record of the first match, so
   * that the rest of the file reads as the blocks after it; with no match it
   * leaves the cursor at the end of the file.
   */
  lemma FindStopIsAfterMatch(file: bytes, key: Key)
    ensures var s := Parse(file);
            && (forall j :: FirstMatchAt(s.blocks, key, j) ==> ParseFrom(file, FindStop(file, key)) == Scan(s.blocks[j + 1..], s.complete))
            && ((forall i :: 0 <= i < |s.blocks| ==> !Matches(s.blocks[i], key)) ==> FindStop(file, key) == |file|)
  {
    if |file| > 0 {
      forall j | FirstMatchAt(Parse(file).blocks, key, j)
        ensures ParseFrom(file, FindStop(file, key)) == Scan(Parse(file).blocks[j + 1..], Parse(file).complete)
      {
        FindStopFromFirstMatch(file, 0, key, j);
      }
      var s := Parse(file);
      if forall i :: 0 <= i < |s.blocks| ==> !Matches(s.blocks[i], key) {
        FindStopFromNoMatch(file, 0, key);
      }
    }
  }

  // ---------------------------------------------------------------- validation

  /**
   * The validation loop as written: it reads the next record before it asks
   * whether the cursor is at the end, so it reads at least one record.
   */
  function RecheckFrom(file: bytes, pos: nat, pidx: u64, phash: bytes, hash: Hasher): Result<Verdict>
    requires pos <= |file|
    decreases |file| - pos
  {
    var d :- ReadBlockAt(file, pos);
    var e := CheckLink(pidx, phash, d.value, hash);
    if e != NoError then Ok(Failed(e, d.value.idx))
    else if d.next == |file| then Ok(Passed)
    else RecheckFrom(file, d.next, d.value.idx, d.value.sha256, hash)
  }

  /** The validation pass as written: trivial success on an empty file, the root checks on block 0, then the loop. */
  function RecheckScan(file: bytes, hash: Hasher): Result<Verdict> {
    if |file| == 0 then Ok(Passed)
    else
      var d :- ReadBlockAt(file, 0);
      if !RootOk(d.value, hash) then Ok(Failed(BadRoot, d.value.idx))
      else RecheckFrom(file, d.next, d.value.idx, d.value.sha256, hash)
  }

  /** The validation loop with the end-of-file test made before each read. */
  function GuardedRecheckFrom(file: bytes, pos: nat, pidx: u64, phash: bytes, hash: Hasher): Result<Verdict>
    requires pos <= |file|
    decreases |file| - pos
  {
    if pos == |file| then Ok(Passed)
    else
      var d :- ReadBlockAt(file, pos);
      var e := CheckLink(pidx, phash, d.value, hash);
      if e != NoError then Ok(Failed(e, d.value.idx))
      else GuardedRecheckFrom(file, d.next, d.value.idx, d.value.sha256, hash)
  }

  function GuardedRecheckScan(file: bytes, hash: Hasher): Result<Verdict> {
    if |file| == 0 then Ok(Passed)
    else
      var d :- ReadBlockAt(file, 0);
      if !RootOk(d.value, hash) then Ok(Failed(BadRoot, d.value.idx))
      else GuardedRecheckFrom(file, d.next, d.value.idx, d.value.sha256, hash)
  }

  /**
   * Where the validation loop leaves the cursor: just past the record that
   * fails, or at the end of the file. The loop as written, which reads before
   * it tests for the end, stops at the same place.
   */
  function RecheckStopFrom(file: bytes, pos: nat, pidx: u64, phash: bytes, hash: Hasher): (stop: nat)
    requires pos <= |file|
    ensures pos <= stop <= |file|
    decreases |file| - pos
  {
    if pos == |file| then pos
    else match ReadBlockAt(file, pos)
      case ShortRead => |file|
      case Ok(d) =>
        if CheckLink(pidx, phash, d.value, hash) != NoError then d.next
        else RecheckStopFrom(file, d.next, d.value.idx, d.value.sha256, hash)
  }

  /** The cursor after a validation pass; an empty file is not read at all. */
  function RecheckStop(file: bytes, hash: Hasher): (stop: nat)
    ensures stop <= |file|
  {
    if |file| == 0 then 0
    else match ReadBlockAt(file, 0)
      case ShortRead => |file|
      case Ok(d) =>
        if !RootOk(d.value, hash) then d.next
        else RecheckStopFrom(file, d.next, d.value.idx, d.value.sha256, hash)
  }

  /** One record of a validation pass: a sound link passes the stop on to the next record. */
  lemma RecheckStopFromStep(file: bytes, pos: nat, pidx: u64, phash: bytes, hash: Hasher)
    requires pos < |file| && ReadBlockAt(file, pos).Ok?
    ensures var d := ReadBlockAt(file, pos).value;
            && ParseFrom(file, pos) == Scan([d.value] + ParseFrom(file, d.next).blocks, ParseFrom(file, d.next).complete)
            && RecheckStopFrom(file, pos, pidx, phash, hash)
               == if CheckLink(pidx, phash, d.value, hash) != NoError then d.next
                  else RecheckStopFrom(file, d.next, d.value.idx, d.value.sha256, hash)
  {
  }

  lemma {:induction false} RecheckStopFromAfterFailure(file: bytes, pos: nat, bs: seq<Block>, k: nat, j: nat, hash: Hasher)
    requires pos <= |file| && 0 < k <= |bs|
    requires ParseFrom(file, pos).blocks == bs[k..]
    requires FirstFailingAt(bs, k, j, hash)
    ensures ParseFrom(file, RecheckStopFrom(file, pos, bs[k - 1].idx, bs[k - 1].sha256, hash))
            == Scan(bs[j + 1..], ParseFrom(file, pos).complete)
    decreases j - k
  {
    assert pos < |file| && ReadBlockAt(file, pos).Ok?;
    var d := ReadBlockAt(file, pos).value;
    var rest := ParseFrom(file, d.next);
    RecheckStopFromStep(file, pos, bs[k - 1].idx, bs[k - 1].sha256, hash);
    assert bs[k] == d.value && bs[k + 1..] == rest.blocks by {
      assert bs[k..] == [d.value] + rest.blocks;
    }
    if j == k {
      assert bs[j + 1..] == rest.blocks;
    } else {
      assert CheckAt(bs, k, hash) == NoError;
      RecheckStopFromAfterFailure(file, d.next, bs, k + 1, j, hash);
    }
  }

  lemma {:induction false} RecheckStopFromAllPass(file: bytes, pos: nat, bs: seq<Block>, k: nat, hash: Hasher)
    requires pos <= |file| && 0 < k <= |bs|
    requires ParseFrom(file, pos).blocks == bs[k..]
    requires forall i :: k <= i < |bs| ==> CheckAt(bs, i, hash) == NoError
    ensures RecheckStopFrom(file, pos, bs[k - 1].idx, bs[k - 1].sha256, hash) == |file|
    decreases |file| - pos
  {
    if pos < |file| && ReadBlockAt(file, pos).Ok? {
      var d := ReadBlockAt(file, pos).value;
      var rest := ParseFrom(file, d.next);
      RecheckStopFromStep(file, pos, bs[k - 1].idx, bs[k - 1].sha256, hash);
      assert bs[k] == d.value && bs[k + 1..] == rest.blocks by {
        assert bs[k..] == [d.value] + rest.blocks;
      }
      assert CheckLink(bs[k - 1].idx, bs[k - 1].sha256, d.value, hash) == NoError by {
        assert CheckAt(bs, k, hash) == NoError;
      }
      RecheckStopFromAllPass(file, d.next, bs, k + 1, hash);
      assert bs[k].idx == d.value.idx && bs[k].sha256 == d.value.sha256;
    }
  }

  /**
   * A validation pass leaves the cursor just past the record of the first
   * failing block, so that the rest of the file reads as the blocks after it.
   */
  lemma RecheckStopIsAfterFailure(file: bytes, hash: Hasher, j: nat)
    requires FirstFailingAt(Parse(file).blocks, 0, j, hash)
    ensures ParseFrom(file, RecheckStop(file, hash)) == Scan(Parse(file).blocks[j + 1..], Parse(file).complete)
  {
    var s := Parse(file);
    var d := ReadBlockAt(file, 0).value;
    assert s.blocks == [d.value] + ParseFrom(file, d.next).blocks;
    if j == 0 {
      assert s.blocks[1..] == ParseFrom(file, d.next).blocks;
    } else {
      assert CheckAt(s.blocks, 0, hash) == NoError;
      RecheckStopFromAfterFailure(file, d.next, s.blocks, 1, j, hash);
    }
  }

  /** When no decoded block fails, a validation pass leaves the cursor at the end of the file. */
  lemma RecheckStopAllPass(file: bytes, hash: Hasher)
    requires forall i :: 0 <= i < |Parse(file).blocks| ==> CheckAt(Parse(file).blocks, i, hash) == NoError
    ensures RecheckStop(file, hash) == |file|
  {
    var s := Parse(file);
    if |file| > 0 && ReadBlockAt(file, 0).Ok? {
      var d := ReadBlockAt(file, 0).value;
      assert s.blocks == [d.value] + ParseFrom(file, d.next).blocks;
      assert CheckAt(s.blocks, 0, hash) == NoError;
      RecheckStopFromAllPass(file, d.next, s.blocks, 1, hash);
    }
  }

  /** The verdict a pass over the decodable prefix `s` gives: a failure found there, else success if the scan was complete. */
  function ScanVerdict(v: Verdict, s: Scan): Result<Verdict> {
    if v.Failed? || s.complete then Ok(v) else ShortRead
  }

  lemma {:induction false} GuardedRecheckFromIsLinkFailure(file: bytes, pos: nat, pidx: u64, phash: bytes, hash: Hasher)
    requires pos <= |file|
    ensures var s := ParseFrom(file, pos);
            GuardedRecheckFrom(file, pos, pidx, phash, hash) == ScanVerdict(LinkFailure(pidx, phash, s.blocks, hash), s)
    decreases |file| - pos
  {
    if pos < |file| {
      match ReadBlockAt(file, pos)
      case ShortRead =>
      case Ok(d) =>
        var s := ParseFrom(file, pos);
        assert s.blocks[0] == d.value && s.blocks[1..] == ParseFrom(file, d.next).blocks;
        GuardedRecheckFromIsLinkFailure(file, d.next, d.value.idx, d.value.sha256, hash);
    }
  }

  /**
   * The corrected validation pass reports the first failing block of the
   * decodable prefix, and success exactly when the whole file decodes and
   * the chain conditions hold of every block.
   */
  lemma GuardedRecheckIsFirstFailure(file: bytes, hash: Hasher)
    ensures var s := Parse(file);
            GuardedRecheckScan(file, hash) == ScanVerdict(FirstFailure(s.blocks, hash), s)
    ensures GuardedRecheckScan(file, hash) == Ok(Passed) <==> Parse(file).complete && ValidChain(Parse(file).blocks, hash)
  {
    var s := Parse(file);
    if |file| > 0 {
      match ReadBlockAt(file, 0)
      case ShortRead =>
      case Ok(d) =>
        assert s.blocks[0] == d.value && s.blocks[1..] == ParseFrom(file, d.next).blocks;
        GuardedRecheckFromIsLinkFailure(file, d.next, d.value.idx, d.value.sha256, hash);
    }
    FirstFailureIsFirst(s.blocks, hash);
  }

  lemma {:induction false} RecheckFromIsGuarded(file: bytes, pos: nat, pidx: u64, phash: bytes, hash: Hasher)
    requires pos < |file|
    ensures RecheckFrom(file, pos, pidx, phash, hash) == GuardedRecheckFrom(file, pos, pidx, phash, hash)
    decreases |file| - pos
  {
    match ReadBlockAt(file, pos)
    case ShortRead =>
    case Ok(d) =>
      if d.next < |file| {
        RecheckFromIsGuarded(file, d.next, d.value.idx, d.value.sha256, hash);
      }
  }

  /** The file is exactly one record, and that record passes the root checks. */
  predicate SingleGoodRoot(file: bytes, hash: Hasher) {
    match ReadBlockAt(file, 0)
    case ShortRead => false
    case Ok(d) => d.next == |file| && RootOk(d.value, hash)
  }

  /** A file holding a single good root block decodes completely to a valid one-block chain. */
  lemma SingleGoodRootIsValid(file: bytes, hash: Hasher)
    requires SingleGoodRoot(file, hash)
    ensures Parse(file).complete && |Parse(file).blocks| == 1 && ValidChain(Parse(file).blocks, hash)
  {
    ParseFromStep(file, 0);
  }

  /**
   * The pass as written agrees with the corrected one on every file except a
   * file holding exactly one good root block, where it reads past the end.
   */
  lemma RecheckScanAsWritten(file: bytes, hash: Hasher)
    ensures RecheckScan(file, hash) == if SingleGoodRoot(file, hash) then ShortRead else GuardedRecheckScan(file, hash)
  {
    if |file| > 0 {
      match ReadBlockAt(file, 0)
      case ShortRead =>
      case Ok(d) =>
        if d.next < |file| {
          RecheckFromIsGuarded(file, d.next, d.value.idx, d.value.sha256, hash);
        }
    }
  }
}
