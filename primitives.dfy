/**
 * Bytes, fixed-width unsigned integers and their little-endian encoding,
 * and the outcome of a read from the block file.
 */
module Primitives {

  newtype byte = x: int | 0 <= x < 256

  type bytes = seq<byte>

  const U32: nat := 0x1_0000_0000
  const U64: nat := 0x1_0000_0000_0000_0000

  /** std::uint64_t */
  type u64 = x: nat | x < 0x1_0000_0000_0000_0000

  /** The outcome of a read: a value, or a read that found fewer bytes than it asked for. */
  datatype Result<T> = Ok(value: T) | ShortRead {
    predicate IsFailure() { ShortRead? }

    function PropagateFailure<U>(): Result<U>
      requires ShortRead?
    {
      ShortRead
    }

    function Extract(): T
      requires Ok?
    {
      value
    }
  }

  datatype Option<T> = None | Some(value: T)

  /** The conversion of a length to std::uint32_t: the length modulo 2^32. */
  function Trunc32(n: nat): (r: nat)
    ensures r < U32
    ensures n < U32 ==> r == n
  {
    if n < U32 then n else Trunc32(n - U32)
  }

  lemma {:induction false} Trunc32IsMod(n: nat)
    ensures Trunc32(n) == n % U32
  {
    if n >= U32 {
      Trunc32IsMod(n - U32);
    }
  }

  function Pow256(n: nat): (r: nat)
    ensures r > 0
  {
    if n == 0 then 1 else 256 * Pow256(n - 1)
  }

  lemma Pow256Widths()
    ensures Pow256(4) == U32 && Pow256(8) == U64
  {
    assert Pow256(4) == 256 * 256 * 256 * 256;
    assert Pow256(8) == 256 * 256 * 256 * 256 * Pow256(4);
  }

  /** The unsigned integer whose little-endian representation is `s`. */
  function FromLittleEndian(s: bytes): (n: nat)
    ensures n < Pow256(|s|)
  {
    if |s| == 0 then 0
    else
      var rest := FromLittleEndian(s[1..]);
      assert 256 * rest <= 256 * Pow256(|s| - 1) - 256;
      s[0] as nat + 256 * rest
  }

  /** The `width` bytes that represent `n`, least significant first. */
  function LittleEndian(n: nat, width: nat): (s: bytes)
    requires n < Pow256(width)
    ensures |s| == width
    ensures FromLittleEndian(s) == n
  {
    if width == 0 then []
    else
      var rest := LittleEndian(n / 256, width - 1);
      var s := [(n % 256) as byte] + rest;
      assert s[1..] == rest;
      s
  }

  /** Decoding is injective: the bytes are the encoding of the value they decode to. */
  lemma {:induction false} LittleEndianOfDecoded(s: bytes)
    ensures LittleEndian(FromLittleEndian(s), |s|) == s
  {
    if |s| > 0 {
      var n := FromLittleEndian(s);
      var rest := FromLittleEndian(s[1..]);
      assert n % 256 == s[0] as nat && n / 256 == rest;
      LittleEndianOfDecoded(s[1..]);
      assert LittleEndian(n, |s|) == [s[0]] + s[1..];
    }
  }
}
