/** Bytes and the little-endian and big-endian integers of the two headers
    (ikcp.c:49-121, common.cpp:7-50). */
module Bytes {
  type Byte = x: int | 0 <= x < 256

  const U16: int := 0x1_0000
  const U32: int := 0x1_0000_0000
  const I32: int := 0x8000_0000

  /** Unsigned 32-bit arithmetic wraps. */
  function Wrap32(x: int): int {
    x % 0x1_0000_0000
  }

  /** The value of a C int32 holding the low 32 bits of x. */
  function Signed32(x: int): int {
    var u := Wrap32(x);
    if u < 0x8000_0000 then u else u - 0x1_0000_0000
  }

  lemma WrapSplit(x: int) returns (k: int)
    ensures x == Wrap32(x) + k * 0x1_0000_0000 && 0 <= Wrap32(x) < U32
  {
    k := x / 0x1_0000_0000;
  }

  lemma WrapIs(x: int, k: int, v: int)
    requires 0 <= v < U32 && x == v + k * 0x1_0000_0000
    ensures Wrap32(x) == v
  {
  }

  lemma WrapSmall(x: int)
    requires 0 <= x < U32
    ensures Wrap32(x) == x
  {
  }

  lemma SignedSmall(x: int)
    requires 0 <= x < I32
    ensures Signed32(x) == x
  {
  }

  function Le16(w: int): (b: seq<Byte>)
    requires 0 <= w < U16
    ensures |b| == 2
  {
    var lo: int, hi: int := w % 256, w / 256;
    [lo, hi]
  }

  function Le32(w: int): (b: seq<Byte>)
    requires 0 <= w < U32
    ensures |b| == 4
  {
    var b0: int, b1: int, b2: int, b3: int := w % 256, w / 256 % 256, w / 0x1_0000 % 256, w / 0x100_0000;
    [b0, b1, b2, b3]
  }

  function FromLe16(b: seq<Byte>): (w: int)
    requires |b| == 2
    ensures 0 <= w < U16
  {
    var lo: int, hi: int := b[0], b[1];
    lo + 256 * hi
  }

  function FromLe32(b: seq<Byte>): (w: int)
    requires |b| == 4
    ensures 0 <= w < U32
  {
    var b0: int, b1: int, b2: int, b3: int := b[0], b[1], b[2], b[3];
    b0 + 256 * (b1 + 256 * (b2 + 256 * b3))
  }

  function Be16(w: int): (b: seq<Byte>)
    requires 0 <= w < U16
    ensures |b| == 2
  {
    var lo: int, hi: int := w % 256, w / 256;
    [hi, lo]
  }

  function Be32(w: int): (b: seq<Byte>)
    requires 0 <= w < U32
    ensures |b| == 4
  {
    var b0: int, b1: int, b2: int, b3: int := w % 256, w / 256 % 256, w / 0x1_0000 % 256, w / 0x100_0000;
    [b3, b2, b1, b0]
  }

  function FromBe16(b: seq<Byte>): (w: int)
    requires |b| == 2
    ensures 0 <= w < U16
  {
    var hi: int, lo: int := b[0], b[1];
    lo + 256 * hi
  }

  function FromBe32(b: seq<Byte>): (w: int)
    requires |b| == 4
    ensures 0 <= w < U32
  {
    var b3: int, b2: int, b1: int, b0: int := b[0], b[1], b[2], b[3];
    b0 + 256 * (b1 + 256 * (b2 + 256 * b3))
  }

  lemma Le16RoundTrip(w: int)
    requires 0 <= w < U16
    ensures FromLe16(Le16(w)) == w && FromBe16(Be16(w)) == w
  {
  }

  lemma Le32RoundTrip(w: int)
    requires 0 <= w < U32
    ensures FromLe32(Le32(w)) == w && FromBe32(Be32(w)) == w
  {
    var a, b, c := w / 256, w / 0x1_0000, w / 0x100_0000;
    assert w == 256 * a + w % 256;
    assert a / 256 == b && a == 256 * b + a % 256;
    assert b / 256 == c && b == 256 * c + b % 256;
  }

  function Zeros(n: nat): (z: seq<Byte>)
    ensures |z| == n && forall i :: 0 <= i < n ==> z[i] == 0
  {
    seq(n, _ => 0)
  }
}
