/** The scalar encodings told from outside: which bytes there are for which number, and what each read
    makes of any bytes at all, without the functions that write and read them. */
module Encodings {
  import opened Bytes
  import opened Positional
  import opened Wire

  // ---------- varints ----------

  /** Every byte but the last announces another one. */
  predicate IsGroups(bs: seq<Byte>) {
    bs != [] && bs[|bs| - 1] < 0x80 && forall i | 0 <= i < |bs| - 1 :: bs[i] >= 0x80
  }

  /** Seven bits of each byte. */
  function Payload(bs: seq<Byte>): (ds: seq<int>)
    ensures |ds| == |bs| && AreDigits(ds, 0x80)
  {
    seq(|bs|, i requires 0 <= i < |bs| => bs[i] % 0x80)
  }

  /** These bytes are groups of seven bits for `n`, the lowest first, and not one more than needed. */
  predicate IsVarint(bs: seq<Byte>, n: nat) {
    IsGroups(bs) && Value(Payload(bs), 0x80) == n && (|bs| > 1 ==> bs[|bs| - 1] != 0)
  }

  lemma PayloadFront(b: Byte, bs: seq<Byte>)
    ensures Payload([b] + bs) == [b % 0x80] + Payload(bs)
    ensures Value(Payload([b] + bs), 0x80) == b % 0x80 + 0x80 * Value(Payload(bs), 0x80)
  {
    assert Payload([b] + bs) == [b % 0x80] + Payload(bs);
    ValueFromBelow(b % 0x80, Payload(bs), 0x80);
  }

  lemma GroupsFront(b: Byte, more: seq<Byte>)
    ensures IsGroups([b] + more) <==> if more == [] then b < 0x80 else b >= 0x80 && IsGroups(more)
    ensures more != [] ==> ([b] + more)[|more|] == more[|more| - 1]
  {
    var all := [b] + more;
    if more != [] && IsGroups(all) {
      forall i | 0 <= i < |more| - 1
        ensures more[i] >= 0x80
      {
        assert all[i + 1] == more[i];
      }
      assert all[0] == b;
    }
  }

  lemma OneGroup(b: Byte)
    ensures Value(Payload([b]), 0x80) == b % 0x80
  {
    PayloadFront(b, []);
    assert [b] + [] == [b];
  }

  lemma {:induction false} VarintIsVarint(n: nat)
    ensures IsVarint(Varint(n), n)
    decreases n
  {
    hide IsGroups, Value;
    if n < 0x80 {
      OneGroup(n);
      GroupsFront(n, []);
      assert [n] + [] == [n];
    } else {
      var more := Varint(n / 0x80);
      VarintIsVarint(n / 0x80);
      PayloadFront(n % 0x80 + 0x80, more);
      GroupsFront(n % 0x80 + 0x80, more);
      if |more| == 1 {
        OneGroup(more[0]);
        assert more == [more[0]];
      }
    }
  }

  lemma SmallVarintIs(n: nat)
    requires n < 0x80
    ensures Varint(n) == [n]
  {
  }

  lemma VarintStep(b: Byte, high: nat)
    requires b >= 0x80 && high > 0
    ensures Varint(b % 0x80 + 0x80 * high) == [b] + Varint(high)
  {
    RemainderIs(b % 0x80 + 0x80 * high, 0x80, high, b % 0x80);
  }

  lemma {:induction false} OnlyVarint(bs: seq<Byte>, n: nat)
    requires IsVarint(bs, n)
    ensures bs == Varint(n)
    decreases |bs|
  {
    assert bs != [];
    hide IsGroups, Value, Payload, Varint;
    var (b, more) := (bs[0], bs[1..]);
    assert bs == [b] + more;
    PayloadFront(b, more);
    GroupsFront(b, more);
    if more == [] {
      OneGroup(b);
      SmallVarintIs(b);
    } else {
      var high := Value(Payload(more), 0x80);
      ValueBounds(Payload(more), 0x80);
      HighGroupCounts(more);
      OnlyVarint(more, high);
      VarintStep(b, high);
    }
  }

  /** If the last of several groups is not zero, neither is the number. */
  lemma HighGroupCounts(bs: seq<Byte>)
    requires IsGroups(bs)
    ensures bs[|bs| - 1] != 0 ==> Value(Payload(bs), 0x80) > 0
  {
    hide Value;
    TopDigitCounts(Payload(bs), 0x80);
  }

  /** A number has exactly one varint. */
  lemma VarintMeans(n: nat, bs: seq<Byte>)
    ensures bs == Varint(n) <==> IsVarint(bs, n)
  {
    VarintIsVarint(n);
    if IsVarint(bs, n) {
      OnlyVarint(bs, n);
    }
  }

  /** `s` begins with at most `limit` groups for `n`, which need not be as few as possible, and `rest`
      follows them. */
  predicate BeginsWithGroups(s: seq<Byte>, limit: nat, k: nat, n: nat, rest: seq<Byte>) {
    0 < k <= limit && k <= |s| && IsGroups(s[..k]) && Value(Payload(s[..k]), 0x80) == n && rest == s[k..]
  }

  lemma GroupsStep(s: seq<Byte>, limit: nat, k: nat, n: nat, rest: seq<Byte>)
    requires limit > 0 && s != [] && s[0] >= 0x80 && k > 0
    ensures BeginsWithGroups(s, limit, k + 1, s[0] - 0x80 + 0x80 * n, rest) <==> BeginsWithGroups(s[1..], limit - 1, k, n, rest)
  {
    if k + 1 <= |s| {
      var (b, more) := (s[0], s[1..][..k]);
      assert s[..k + 1] == [b] + more;
      PayloadFront(b, more);
      GroupsFront(b, more);
      assert s[1..][k..] == s[k + 1..];
    }
  }

  lemma GroupsEnd(s: seq<Byte>, limit: nat, k: nat, n: nat, rest: seq<Byte>)
    requires limit > 0 && s != [] && s[0] < 0x80
    ensures BeginsWithGroups(s, limit, k, n, rest) <==> k == 1 && n == s[0] && rest == s[1..]
  {
    assert s[..1] == [s[0]];
    OneGroup(s[0]);
    if 1 < k <= |s| {
      assert s[..k][0] == s[0];
    }
  }

  /** Whatever the bytes: a number is read if and only if they begin with groups for it. */
  lemma ScanVarintMeans(s: seq<Byte>, limit: nat, n: nat, rest: seq<Byte>)
    ensures ScanVarint(s, limit) == Got(n, rest) <==> exists k: nat :: BeginsWithGroups(s, limit, k, n, rest)
  {
    hide BeginsWithGroups, ScanVarint;
    if ScanVarint(s, limit) == Got(n, rest) {
      var k := ScannedGroups(s, limit);
    }
    if k: nat :| BeginsWithGroups(s, limit, k, n, rest) {
      GroupsScanned(s, limit, k, n, rest);
    }
  }

  lemma {:induction false} ScannedGroups(s: seq<Byte>, limit: nat) returns (k: nat)
    requires ScanVarint(s, limit).Got?
    ensures var r := ScanVarint(s, limit); k > 0 && BeginsWithGroups(s, limit, k, r.value, r.rest)
    decreases |s|
  {
    hide BeginsWithGroups;
    if s[0] < 0x80 {
      k := 1;
      GroupsEnd(s, limit, 1, s[0], s[1..]);
    } else {
      var r := ScanVarint(s[1..], limit - 1);
      k := ScannedGroups(s[1..], limit - 1);
      GroupsStep(s, limit, k, r.value, r.rest);
      k := k + 1;
    }
  }

  lemma {:induction false} GroupsScanned(s: seq<Byte>, limit: nat, k: nat, n: nat, rest: seq<Byte>)
    requires BeginsWithGroups(s, limit, k, n, rest)
    ensures ScanVarint(s, limit) == Got(n, rest)
    decreases |s|
  {
    assert limit > 0 && s != [];
    hide BeginsWithGroups;
    if s[0] < 0x80 {
      GroupsEnd(s, limit, k, n, rest);
    } else {
      FirstGroup(s, limit, k, n, rest);
      GroupsScanned(s[1..], limit - 1, k - 1, Value(Payload(s[1..][..k - 1]), 0x80), rest);
    }
  }

  lemma FirstGroup(s: seq<Byte>, limit: nat, k: nat, n: nat, rest: seq<Byte>)
    requires limit > 0 && s != [] && s[0] >= 0x80 && BeginsWithGroups(s, limit, k, n, rest)
    ensures k > 1
    ensures var high := Value(Payload(s[1..][..k - 1]), 0x80);
      high >= 0 && n == s[0] - 0x80 + 0x80 * high && BeginsWithGroups(s[1..], limit - 1, k - 1, high, rest)
  {
    assert s[..k][k - 1] < 0x80;
    var more := s[1..][..k - 1];
    assert s[..k] == [s[0]] + more;
    PayloadFront(s[0], more);
    ValueBounds(Payload(more), 0x80);
    GroupsStep(s, limit, k - 1, Value(Payload(more), 0x80), rest);
  }

  /** Reading a varint takes at most ten groups and keeps 64 bits of the number, or 32 of them. */
  lemma ReadVarintMeans(s: seq<Byte>, n: nat, rest: seq<Byte>)
    ensures ReadVarint64(s) == Got(n, rest) <==>
      n < 0x1_0000_0000_0000_0000 && exists k: nat, m: nat :: BeginsWithGroups(s, 10, k, m, rest) && m % 0x1_0000_0000_0000_0000 == n
    ensures n < 0x1_0000_0000 ==>
      (ReadVarint32(s) == Got(n, rest) <==> exists k: nat, m: nat :: BeginsWithGroups(s, 10, k, m, rest) && m % 0x1_0000_0000 == n)
  {
    hide BeginsWithGroups, ScanVarint;
    var r := ScanVarint(s, 10);
    if r.Got? {
      ScanVarintMeans(s, 10, r.value, r.rest);
    }
    forall k: nat, m: nat | BeginsWithGroups(s, 10, k, m, rest)
      ensures r == Got(m, rest)
    {
      ScanVarintMeans(s, 10, m, rest);
    }
  }

  // ---------- signed integers ----------

  /** ZigZag within 64 or 32 bits: shifted left by one, and all bits flipped if it was negative. */
  lemma ZigZagMeans(i: int)
    ensures -0x8000_0000_0000_0000 <= i < 0x8000_0000_0000_0000 ==>
      var shifted := (2 * i) % 0x1_0000_0000_0000_0000;
      ZigZag(i) == if i < 0 then 0xFFFF_FFFF_FFFF_FFFF - shifted else shifted
    ensures -0x8000_0000 <= i < 0x8000_0000 ==>
      var shifted := (2 * i) % 0x1_0000_0000;
      ZigZag(i) == if i < 0 then 0xFFFF_FFFF - shifted else shifted
  {
  }

  /** A signed integer is read if and only if the varint there is twice the integer, or one less than
      twice its absolute value if it is negative. */
  lemma ReadSIntMeans(s: seq<Byte>, i: int, rest: seq<Byte>)
    ensures -0x8000_0000_0000_0000 <= i < 0x8000_0000_0000_0000 ==>
      (ReadSInt64(s) == Got(i, rest) <==> ReadVarint64(s) == Got(if i >= 0 then 2 * i else -2 * i - 1, rest))
    ensures -0x8000_0000 <= i < 0x8000_0000 ==>
      (ReadSInt32(s) == Got(i, rest) <==> ReadVarint32(s) == Got(if i >= 0 then 2 * i else -2 * i - 1, rest))
  {
    hide ReadVarint64, ReadVarint32;
  }

  // ---------- tags, flags and texts ----------

  /** The low three bits of a tag are the wire type, the others the field number. */
  lemma TagMeans(field: nat, wireType: nat, bs: seq<Byte>)
    ensures bs == Tag(field, wireType) <==> IsVarint(bs, field * 8 + wireType)
  {
    hide IsVarint;
    VarintMeans(field * 8 + wireType, bs);
  }

  /** A field number is read if and only if the varint there is not zero and lies in its group of
      eight. */
  lemma ReadTagMeans(s: seq<Byte>, field: nat, rest: seq<Byte>)
    ensures ReadTag(s) == Got(field, rest) <==>
      exists tag: UInt32 :: ReadVarint32(s) == Got(tag, rest) && tag != 0 && field * 8 <= tag < field * 8 + 8
  {
    hide ReadVarint32;
    if ReadTag(s) == Got(field, rest) {
      var tag := ReadVarint32(s).value;
      assert ReadVarint32(s) == Got(tag, rest) && tag == tag / 8 * 8 + tag % 8;
    }
  }

  /** Any number but zero is read as true; true is written as one. */
  lemma BoolMeans(s: seq<Byte>, b: bool, rest: seq<Byte>)
    ensures Bool(true) == [1] && Bool(false) == [0]
    ensures ReadBool(s) == Got(b, rest) <==> exists n: nat :: ReadVarint64(s) == Got(n, rest) && (b <==> n != 0)
  {
    hide ReadVarint64;
  }

  lemma ReadFixedMeans(s: seq<Byte>, width: nat, b: seq<Byte>, rest: seq<Byte>)
    ensures ReadFixed(s, width) == Got(b, rest) <==> |b| == width && s == b + rest
  {
    if |b| == width && s == b + rest {
      ReadFixedRoundTrip(b, rest);
    }
  }

  /** A text is its length and its bytes. */
  lemma DelimitedMeans(b: seq<Byte>, bs: seq<Byte>)
    ensures bs == Delimited(b) <==> exists length :: IsVarint(length, |b|) && bs == length + b
  {
    hide IsVarint;
    VarintMeans(|b|, Varint(|b|));
    forall length | IsVarint(length, |b|)
      ensures length == Varint(|b|)
    {
      VarintMeans(|b|, length);
    }
  }

  /** A text is read if and only if its length is there and that many bytes follow, fewer than 2^31. */
  lemma ReadDelimitedMeans(s: seq<Byte>, b: seq<Byte>, rest: seq<Byte>)
    ensures ReadDelimited(s) == Got(b, rest) <==> |b| < 0x8000_0000 && ReadVarint32(s) == Got(|b|, b + rest)
  {
    hide ReadVarint32, ReadFixed;
    if ReadVarint32(s).Got? {
      ReadFixedMeans(ReadVarint32(s).rest, ReadVarint32(s).value, b, rest);
    }
  }
}
