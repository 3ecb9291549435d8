/** Little-endian words, as both the compressed format and the log headers store them. */
module Endian {
  import opened Words

  function Le16(v: nat): (b: seq<byte>)
    requires v < 0x1_0000
    ensures |b| == 2
  {
    [v % 256, v / 256]
  }

  function Le32(v: u32): (b: seq<byte>)
    ensures |b| == 4
  {
    [v % 256, v / 256 % 256, v / 65536 % 256, v / 16777216 % 256]
  }

  function Rd32(b: seq<byte>): u32
    requires |b| == 4
  {
    var b0: int, b1: int, b2: int, b3: int := b[0], b[1], b[2], b[3];
    b0 + b1 * 256 + b2 * 65536 + b3 * 16777216
  }

  function Le64(v: nat): (b: seq<byte>)
    requires v < 0x1_0000_0000_0000_0000
    ensures |b| == 8
  {
    Le32(v % U32_MODULUS) + Le32(v / U32_MODULUS)
  }

  /** The number whose base-256 digits, least first, stand at position i. */
  ghost function WordAt(b: seq<byte>, i: nat): (v: nat)
    requires i + 4 <= |b|
  {
    var b0: nat, b1: nat, b2: nat, b3: nat := b[i], b[i + 1], b[i + 2], b[i + 3];
    b0 + 0x100 * b1 + 0x1_0000 * b2 + 0x100_0000 * b3
  }

  /** Little-endian words hold the least byte first, and are read back as they were written. */
  lemma Le32RoundTrip(v: u32)
    ensures Rd32(Le32(v)) == v && WordAt(Le32(v), 0) == v
  {
    var q := v / 256;
    assert v == 256 * q + v % 256;
    assert q == 256 * (v / 65536) + q % 256;
    assert v / 65536 == 256 * (v / 16777216) + v / 65536 % 256;
  }

  lemma RdIsWord(b: seq<byte>, i: nat)
    requires i + 4 <= |b|
    ensures Rd32(b[i..i + 4]) == WordAt(b, i)
  {
    var w := b[i..i + 4];
    assert w[0] == b[i] && w[1] == b[i + 1] && w[2] == b[i + 2] && w[3] == b[i + 3];
  }
}
