/** Byte-level encodings the service feeds to its hash functions. */
module Bytes {

  type byte = x: int | 0 <= x < 256

  const TwoTo63: int := 0x8000_0000_0000_0000
  const TwoTo64: int := 0x1_0000_0000_0000_0000

  /** Encoding.ASCII's per-character rule: a character outside 0..127 becomes '?'. */
  function AsciiByte(c: char): byte
  {
    if c as int < 128 then c as int else '?' as int
  }

  /** Encoding.ASCII.GetBytes. */
  function Ascii(s: string): (r: seq<byte>)
    ensures |r| == |s|
    ensures forall i :: 0 <= i < |s| ==> r[i] == AsciiByte(s[i])
  {
    if s == [] then [] else [AsciiByte(s[0])] + Ascii(s[1..])
  }

  lemma AsciiAppend(a: string, b: string)
    ensures Ascii(a + b) == Ascii(a) + Ascii(b)
  {
    assert forall i :: 0 <= i < |a + b| ==> Ascii(a + b)[i] == (Ascii(a) + Ascii(b))[i];
  }

  function Pow256(n: nat): (r: nat)
    ensures r > 0
  {
    if n == 0 then 1 else 256 * Pow256(n - 1)
  }

  /** The unsigned value of a little-endian byte sequence. */
  function LittleEndianValue(b: seq<byte>): nat
  {
    if b == [] then 0 else b[0] + 256 * LittleEndianValue(b[1..])
  }

  /** `x` as `n` bytes, least significant first. */
  function LittleEndian(x: nat, n: nat): (r: seq<byte>)
    requires x < Pow256(n)
    ensures |r| == n && LittleEndianValue(r) == x
  {
    if n == 0 then []
    else
      var rest := LittleEndian(x / 256, n - 1);
      assert ([x % 256] + rest)[1..] == rest;
      [x % 256] + rest
  }

  /** BinaryWriter.Write(long): eight bytes, little endian, two's complement. */
  function WriteInt64(v: int): (r: seq<byte>)
    requires -TwoTo63 <= v < TwoTo63
    ensures |r| == 8 && LittleEndianValue(r) == v % TwoTo64
  {
    assert Pow256(8) == TwoTo64 by {
      assert Pow256(2) == 0x1_0000;
      assert Pow256(4) == 0x1_0000_0000;
      assert Pow256(6) == 0x1_0000_0000_0000;
    }
    LittleEndian(v % TwoTo64, 8)
  }

  /** The unsigned reading of a long's two's-complement bits. */
  lemma TwosComplement(v: int)
    requires -TwoTo63 <= v < TwoTo63
    ensures v % TwoTo64 == if v < 0 then v + TwoTo64 else v
  {
  }

  lemma WriteInt64Injective(v: int, w: int)
    requires -TwoTo63 <= v < TwoTo63 && -TwoTo63 <= w < TwoTo63
    requires WriteInt64(v) == WriteInt64(w)
    ensures v == w
  {
    assert v % TwoTo64 == w % TwoTo64;
    TwosComplement(v);
    TwosComplement(w);
  }
}
