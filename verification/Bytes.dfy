/** Bytes, fixed-width integers and their byte orders, and checksums. */
module Bytes {

  type Byte = b: int | 0 <= b < 0x100
  type UInt32 = n: int | 0 <= n < 0x1_0000_0000
  type Int32 = n: int | -0x8000_0000 <= n < 0x8000_0000
  type Int64 = n: int | -0x8000_0000_0000_0000 <= n < 0x8000_0000_0000_0000

  const TWO_32: int := 0x1_0000_0000
  const TWO_64: int := 0x1_0000_0000_0000_0000

  /** What a checksum register reports after it has absorbed a byte string. The register itself is
      modelled by the bytes fed to it since its last reset, so every CRC is an instance. */
  type Checksum = seq<Byte> -> UInt32

  /** The `width` low-order bytes of `n` in two's complement, least significant first. */
  function LittleEndian(n: int, width: nat): (bs: seq<Byte>)
    ensures |bs| == width
    decreases width, n
  {
    if width == 0 then [] else [n % 0x100] + LittleEndian(n / 0x100, width - 1)
  }

  function Le32(n: int): seq<Byte> {
    LittleEndian(n, 4)
  }

  function Le64(n: int): seq<Byte> {
    LittleEndian(n, 8)
  }

  /** Network byte order, as `htonl` leaves it in memory. */
  function Be32(n: UInt32): (bs: seq<Byte>)
    ensures |bs| == 4
  {
    var (high, mid) := (n / 0x100 / 0x100, n / 0x100);
    [high / 0x100, high % 0x100, mid % 0x100, n % 0x100]
  }

  function FromBe32(bs: seq<Byte>): UInt32
    requires |bs| == 4
  {
    var (a: int, b: int, c: int, d: int) := (bs[0], bs[1], bs[2], bs[3]);
    ((a * 0x100 + b) * 0x100 + c) * 0x100 + d
  }

  lemma Be32RoundTrip(n: UInt32)
    ensures FromBe32(Be32(n)) == n
  {
  }

  lemma FromBe32RoundTrip(bs: seq<Byte>)
    requires |bs| == 4
    ensures Be32(FromBe32(bs)) == bs
  {
    var (a: int, b: int, c: int, d: int) := (bs[0], bs[1], bs[2], bs[3]);
    var mid := (a * 0x100 + b) * 0x100 + c;
    assert FromBe32(bs) / 0x100 == mid && FromBe32(bs) % 0x100 == d;
    assert mid / 0x100 == a * 0x100 + b && mid % 0x100 == c;
  }

  lemma DropTwice(data: seq<Byte>, a: seq<Byte>, b: seq<Byte>)
    requires a + b <= data
    ensures a <= data && b <= data[|a|..] && data[|a|..][|b|..] == data[|a + b|..]
  {
  }

  function Min(a: nat, b: nat): nat {
    if a < b then a else b
  }

  function Concat(parts: seq<seq<Byte>>): seq<Byte> {
    if parts == [] then [] else Concat(parts[..|parts| - 1]) + parts[|parts| - 1]
  }

  /** C++ integer division, which truncates toward zero. */
  function TruncDiv(a: int, b: int): int
    requires b > 0
  {
    if a >= 0 then a / b else -((-a) / b)
  }

  function TruncMod(a: int, b: int): int
    requires b > 0
  {
    a - b * TruncDiv(a, b)
  }
}
