/** Bytes, and 32-bit numbers in memory with the least significant byte first. */
module LittleEndian {
  type byte = x: int | 0 <= x < 256
  type u32 = x: int | 0 <= x < 0x1_0000_0000

  function Le32(x: u32): (s: seq<byte>)
    ensures |s| == 4
  {
    var y := x / 256;
    var z := y / 256;
    [x % 256, y % 256, z % 256, z / 256]
  }

  function FromLe32(s: seq<byte>): u32
    requires |s| == 4
  {
    var b0: int, b1: int, b2: int, b3: int := s[0], s[1], s[2], s[3];
    b0 + 256 * (b1 + 256 * (b2 + 256 * b3))
  }

  lemma Le32RoundTrip(x: u32)
    ensures FromLe32(Le32(x)) == x
  {
    var y := x / 256;
    var z := y / 256;
    assert x == 256 * y + x % 256 && y == 256 * z + y % 256 && z % 256 + 256 * (z / 256) == z;
  }
  lemma FromLe32RoundTrip(s: seq<byte>)
    requires |s| == 4
    ensures Le32(FromLe32(s)) == s
  {
    var b0: int, b1: int, b2: int, b3: int := s[0], s[1], s[2], s[3];
    var z := b2 + 256 * b3;
    var y := b1 + 256 * z;
    var x := b0 + 256 * y;
    assert x / 256 == y && y / 256 == z && z / 256 == b3;
    assert x % 256 == b0 && y % 256 == b1 && z % 256 == b2;
  }
}
