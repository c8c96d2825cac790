/** Bytes, pages, and the little-endian length prefix that pages and log frames share. */
module Bytes {

  newtype byte = x: int | 0 <= x < 256

  const PAGE_SIZE: nat := 4096

  type Page = p: seq<byte> | |p| == PAGE_SIZE witness seq(PAGE_SIZE, i => 0)

  function ZeroPage(): Page { seq(PAGE_SIZE, i => 0) }

  /** `(n as u32).to_le_bytes()`: anything above 32 bits is cut off. */
  function ToLe32(n: nat): (b: seq<byte>)
    ensures |b| == 4
  {
    var n1 := n / 256;
    var n2 := n1 / 256;
    var n3 := n2 / 256;
    [(n % 256) as byte, (n1 % 256) as byte, (n2 % 256) as byte, (n3 % 256) as byte]
  }

  function FromLe32(b: seq<byte>): nat
    requires |b| == 4
  {
    b[0] as nat + 256 * b[1] as nat + 65536 * b[2] as nat + 16777216 * b[3] as nat
  }

  const U32_RANGE: nat := 0x1_0000_0000

  /** A zero byte in front is a factor of 256. */
  lemma ZeroInFront(n: nat)
    ensures ToLe32(n * 256) == [0] + ToLe32(n)[..3]
  {
    assert n * 256 / 256 == n && n * 256 % 256 == 0;
  }

  /** The least significant byte comes first. */
  lemma LowByteFirst(n: nat)
    requires n < 256
    ensures ToLe32(n) == [n as byte, 0, 0, 0]
    ensures ToLe32(n * 256) == [0, n as byte, 0, 0]
    ensures ToLe32(n * 256 * 256) == [0, 0, n as byte, 0]
    ensures ToLe32(n * 256 * 256 * 256) == [0, 0, 0, n as byte]
  {
    ZeroInFront(n);
    ZeroInFront(n * 256);
    ZeroInFront(n * 256 * 256);
  }

  lemma Le32RoundTrip(n: nat)
    ensures FromLe32(ToLe32(n)) == n % U32_RANGE
  {
    var n4 := n / 256 / 256 / 256 / 256;
    assert n == FromLe32(ToLe32(n)) + U32_RANGE * n4;
  }
}
