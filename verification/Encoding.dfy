/** A `uint32_t` seen as the four bytes at its address, on a little-endian host. */
module Encoding {
  import opened Machine

  function Encode(x: uint32): (s: seq<uint8>)
    ensures |s| == 4
  {
    [x % 0x100, x / 0x100 % 0x100, x / 0x1_0000 % 0x100, x / 0x100_0000]
  }

  function Decode(s: seq<uint8>): uint32
    requires |s| == 4
  {
    var a: int, b: int, c: int, d: int := s[0], s[1], s[2], s[3];
    a + 0x100 * b + 0x1_0000 * c + 0x100_0000 * d
  }

  /** The first byte weighs least: raising byte `j` by one raises the number by 256 to the `j`. */
  lemma ByteWeighs(s: seq<uint8>, j: nat)
    requires |s| == 4 && j < 4 && s[j] < 0xFF
    ensures Decode(s[j := s[j] + 1]) - Decode(s) == [1, 0x100, 0x1_0000, 0x100_0000][j]
  {
    assert j == 0 || j == 1 || j == 2 || j == 3;
  }

  lemma DecodeEncode(x: uint32)
    ensures Decode(Encode(x)) == x
  {
    var a, b, c := x / 0x100, x / 0x1_0000, x / 0x100_0000;
    assert x == 0x100 * a + x % 0x100;
    assert a == 0x100 * b + a % 0x100;
    assert b == 0x100 * c + b % 0x100;
  }

  lemma EncodeDecode(s: seq<uint8>)
    requires |s| == 4
    ensures Encode(Decode(s)) == s
  {
    var x := Decode(s);
    var b: int, c: int, d: int := s[1], s[2], s[3];
    assert x / 0x100 == b + 0x100 * c + 0x1_0000 * d;
    assert x / 0x1_0000 == c + 0x100 * d;
    assert x / 0x100_0000 == d;
  }

  lemma EncodeInjective(x: uint32, y: uint32)
    requires Encode(x) == Encode(y)
    ensures x == y
  {
    DecodeEncode(x);
    DecodeEncode(y);
  }
}
