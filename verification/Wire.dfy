/** The scalar encodings of Protocol Buffers: base-128 varints, ZigZag signed integers, tags,
    fixed-width floats and length-delimited bytes, with the reader for each. */
module Wire {
  import opened Bytes

  /** A value read from the front of a byte string, and what is left; or a read that failed. */
  datatype Scan<+T> = Got(value: T, rest: seq<Byte>) | Failed

  const VARINT := 0
  const FIXED64 := 1
  const LENGTH_DELIMITED := 2
  const FIXED32 := 5

  const MAX_VARINT_BYTES := 10

  // ---------- varints ----------

  function Varint(n: nat): (bs: seq<Byte>)
    ensures bs != []
    decreases n
  {
    if n < 0x80 then [n] else [n % 0x80 + 0x80] + Varint(n / 0x80)
  }

  /** Reads a varint of at most `limit` bytes. */
  function ScanVarint(s: seq<Byte>, limit: nat): (r: Scan<nat>)
    ensures r.Got? ==> |r.rest| < |s|
    decreases |s|
  {
    if s == [] || limit == 0 then Failed
    else if s[0] < 0x80 then Got(s[0], s[1..])
    else
      match ScanVarint(s[1..], limit - 1)
      case Failed => Failed
      case Got(high, rest) => Got(s[0] - 0x80 + 0x80 * high, rest)
  }

  function Pow128(k: nat): nat {
    if k == 0 then 1 else 0x80 * Pow128(k - 1)
  }

  lemma {:induction false} VarintRoundTrip(n: nat, limit: nat, rest: seq<Byte>)
    requires limit > 0 && n < Pow128(limit)
    ensures ScanVarint(Varint(n) + rest, limit) == Got(n, rest)
    decreases n
  {
    var s := Varint(n) + rest;
    if n < 0x80 {
      assert s[1..] == rest;
    } else {
      var high := n / 0x80;
      assert s[0] == n % 0x80 + 0x80 && s[1..] == Varint(high) + rest;
      VarintRoundTrip(high, limit - 1, rest);
    }
  }

  function ReadVarint64(s: seq<Byte>): (r: Scan<nat>)
    ensures r.Got? ==> r.value < TWO_64
    ensures r.Got? ==> |r.rest| < |s|
  {
    match ScanVarint(s, MAX_VARINT_BYTES)
    case Failed => Failed
    case Got(n, rest) => Got(n % TWO_64, rest)
  }

  function ReadVarint32(s: seq<Byte>): (r: Scan<UInt32>)
    ensures r.Got? ==> |r.rest| < |s|
  {
    match ScanVarint(s, MAX_VARINT_BYTES)
    case Failed => Failed
    case Got(n, rest) => Got(n % TWO_32, rest)
  }

  lemma TenGroupsSuffice()
    ensures Pow128(MAX_VARINT_BYTES) >= TWO_64
  {
    assert Pow128(2) == 0x4000;
    assert Pow128(4) == 0x1000_0000;
    assert Pow128(6) == 0x400_0000_0000;
    assert Pow128(8) == 0x100_0000_0000_0000;
    assert Pow128(9) == 0x8000_0000_0000_0000;
  }

  lemma SmallVarint(s: seq<Byte>, n: nat, rest: seq<Byte>)
    requires n < TWO_64 && ScanVarint(s, MAX_VARINT_BYTES) == Got(n, rest)
    ensures ReadVarint64(s) == Got(n, rest)
    ensures n < TWO_32 ==> ReadVarint32(s) == Got(n, rest)
  {
  }

  lemma ReadVarintRoundTrip(n: nat, rest: seq<Byte>)
    requires n < TWO_64
    ensures ReadVarint64(Varint(n) + rest) == Got(n, rest)
    ensures n < TWO_32 ==> ReadVarint32(Varint(n) + rest) == Got(n, rest)
  {
    TenGroupsSuffice();
    VarintRoundTrip(n, MAX_VARINT_BYTES, rest);
    SmallVarint(Varint(n) + rest, n, rest);
  }

  // ---------- signed integers ----------

  function ZigZag(i: int): (n: nat) {
    if i >= 0 then 2 * i else -2 * i - 1
  }

  function UnZigZag(n: nat): (i: int)
    ensures ZigZag(i) == n
  {
    if n % 2 == 0 then n / 2 else -((n + 1) / 2)
  }

  function SInt(i: int): (bs: seq<Byte>)
    ensures bs != []
  {
    Varint(ZigZag(i))
  }

  function ReadSInt64(s: seq<Byte>): (r: Scan<Int64>)
    ensures r.Got? ==> |r.rest| < |s|
  {
    match ReadVarint64(s)
    case Failed => Failed
    case Got(n, rest) => Got(UnZigZag(n), rest)
  }

  function ReadSInt32(s: seq<Byte>): (r: Scan<Int32>)
    ensures r.Got? ==> |r.rest| < |s|
  {
    match ReadVarint32(s)
    case Failed => Failed
    case Got(n, rest) => Got(UnZigZag(n), rest)
  }

  lemma ReadSInt64RoundTrip(i: Int64, rest: seq<Byte>)
    ensures ReadSInt64(SInt(i) + rest) == Got(i, rest)
  {
    ReadVarintRoundTrip(ZigZag(i), rest);
  }

  lemma ReadSInt32RoundTrip(i: Int32, rest: seq<Byte>)
    ensures ReadSInt32(SInt(i) + rest) == Got(i, rest)
  {
    ReadVarintRoundTrip(ZigZag(i), rest);
  }

  // ---------- tags ----------

  predicate IsWireType(w: nat) {
    w == VARINT || w == FIXED64 || w == LENGTH_DELIMITED || w == FIXED32
  }

  function Tag(field: nat, wireType: nat): (bs: seq<Byte>)
    ensures bs != []
  {
    Varint(8 * field + wireType)
  }

  /** The field number of the next tag. A tag that is missing, malformed or zero is a failure; the
      reader takes no notice of the wire type. */
  function ReadTag(s: seq<Byte>): (r: Scan<nat>)
    ensures r.Got? ==> |r.rest| < |s|
  {
    match ReadVarint32(s)
    case Failed => Failed
    case Got(tag, rest) => if tag == 0 then Failed else Got(tag / 8, rest)
  }

  lemma ReadTagRoundTrip(field: nat, wireType: nat, rest: seq<Byte>)
    requires IsWireType(wireType) && 1 <= field < 0x2000_0000
    ensures ReadTag(Tag(field, wireType) + rest) == Got(field, rest)
  {
    var tag := 8 * field + wireType;
    assert 0 < tag < TWO_32 && tag / 8 == field;
    ReadVarintRoundTrip(tag, rest);
  }

  // ---------- booleans, floats, byte strings ----------

  function Bool(b: bool): seq<Byte> {
    if b then [1] else [0]
  }

  function ReadBool(s: seq<Byte>): (r: Scan<bool>)
    ensures r.Got? ==> |r.rest| < |s|
  {
    match ReadVarint64(s)
    case Failed => Failed
    case Got(n, rest) => Got(n != 0, rest)
  }

  lemma ReadBoolRoundTrip(b: bool, rest: seq<Byte>)
    ensures ReadBool(Bool(b) + rest) == Got(b, rest)
  {
    ReadVarintRoundTrip(if b then 1 else 0, rest);
  }

  function ReadFixed(s: seq<Byte>, width: nat): (r: Scan<seq<Byte>>)
    ensures r.Got? ==> |r.rest| + width == |s| && |r.value| == width
  {
    if |s| < width then Failed else Got(s[..width], s[width..])
  }

  lemma ReadFixedRoundTrip(b: seq<Byte>, rest: seq<Byte>)
    ensures ReadFixed(b + rest, |b|) == Got(b, rest)
  {
    assert (b + rest)[..|b|] == b && (b + rest)[|b|..] == rest;
  }

  const MAX_STRING := 0x7FFF_FFFF

  function Delimited(b: seq<Byte>): (bs: seq<Byte>)
    ensures bs != []
  {
    Varint(|b|) + b
  }

  /** A length that does not fit a signed 32-bit integer is refused. */
  function ReadDelimited(s: seq<Byte>): (r: Scan<seq<Byte>>)
    ensures r.Got? ==> |r.rest| < |s|
  {
    match ReadVarint32(s)
    case Failed => Failed
    case Got(n, rest) => if n > MAX_STRING then Failed else ReadFixed(rest, n)
  }

  lemma ReadDelimitedRoundTrip(b: seq<Byte>, rest: seq<Byte>)
    requires |b| <= MAX_STRING
    ensures ReadDelimited(Delimited(b) + rest) == Got(b, rest)
  {
    assert Delimited(b) + rest == Varint(|b|) + (b + rest);
    ReadVarintRoundTrip(|b|, b + rest);
    ReadFixedRoundTrip(b, rest);
  }
}
