/** The numbers that digits stand for, told by the weight of each place. What the encodings of integers
    compute is stated here without the functions that compute it. */
module Positional {
  import opened Bytes

  function Power(base: nat, k: nat): (p: nat)
    ensures base > 0 ==> p > 0
  {
    if k == 0 then 1 else base * Power(base, k - 1)
  }

  /** The sum of `ds[i] * base^i` over all places. */
  function Value(ds: seq<int>, base: nat): int {
    if ds == [] then 0 else Value(ds[..|ds| - 1], base) + ds[|ds| - 1] * Power(base, |ds| - 1)
  }

  predicate AreDigits(ds: seq<int>, base: nat) {
    forall i | 0 <= i < |ds| :: 0 <= ds[i] < base
  }

  /** The two numbers differ by a multiple of `m`. */
  ghost predicate Congruent(a: int, b: int, m: int) {
    exists k :: a - b == k * m
  }

  /** The lowest place counts as it is, all others once more with the base. */
  lemma {:induction false} ValueFromBelow(d: int, ds: seq<int>, base: nat)
    ensures Value([d] + ds, base) == d + base * Value(ds, base)
    decreases |ds|
  {
    var all := [d] + ds;
    if ds == [] {
      assert all[..0] == [] && Power(base, 0) == 1;
    } else {
      var n := |ds| - 1;
      assert all[..n + 1] == [d] + ds[..n];
      ValueFromBelow(d, ds[..n], base);
      Distributes(base, Value(ds[..n], base), ds[n], Power(base, n));
    }
  }

  lemma Distributes(a: int, b: int, c: int, d: int)
    ensures a * (b + c * d) == a * b + c * (a * d)
  {
  }

  lemma {:induction false} ValueBounds(ds: seq<int>, base: nat)
    requires base > 0 && AreDigits(ds, base)
    ensures 0 <= Value(ds, base) < Power(base, |ds|)
    decreases |ds|
  {
    if ds != [] {
      var n := |ds| - 1;
      ValueBounds(ds[..n], base);
      TopPlace(Value(ds[..n], base), ds[n], Power(base, n), base);
    }
  }

  lemma TopDigitCounts(ds: seq<int>, base: nat)
    requires base > 0 && ds != [] && AreDigits(ds, base)
    ensures ds[|ds| - 1] != 0 ==> Value(ds, base) > 0
  {
    var n := |ds| - 1;
    ValueBounds(ds[..n], base);
    if ds[n] != 0 {
      OneOrMore(Power(base, n), ds[n]);
    }
  }

  lemma TopPlace(low: int, d: int, p: int, base: int)
    requires 0 <= low < p && 0 <= d < base
    ensures 0 <= low + d * p < base * p
  {
    assert d * p <= (base - 1) * p;
  }

  /** Digits of the same number in as many places are the same digits. */
  lemma {:induction false} DigitsAreUnique(a: seq<int>, b: seq<int>, base: nat)
    requires base > 0 && |a| == |b| && AreDigits(a, base) && AreDigits(b, base) && Value(a, base) == Value(b, base)
    ensures a == b
    decreases |a|
  {
    if a != [] {
      assert a == [a[0]] + a[1..] && b == [b[0]] + b[1..];
      ValueFromBelow(a[0], a[1..], base);
      ValueFromBelow(b[0], b[1..], base);
      LowestPlace(a[0], Value(a[1..], base), b[0], Value(b[1..], base), base);
      DigitsAreUnique(a[1..], b[1..], base);
    }
  }

  lemma LowestPlace(d: int, high: int, d': int, high': int, base: int)
    requires 0 <= d < base && 0 <= d' < base && d + base * high == d' + base * high'
    ensures d == d' && high == high'
  {
    if high > high' {
      OneOrMore(base, high - high');
      Distributes(base, high', high - high', 1);
    } else if high < high' {
      OneOrMore(base, high' - high);
      Distributes(base, high, high' - high, 1);
    }
  }

  lemma OneOrMore(base: int, k: int)
    requires base > 0 && k > 0
    ensures base * k >= base
  {
  }

  // ---------- remainders ----------

  lemma ModuloSplits(n: int, base: int, p: int)
    requires base > 0 && p > 0
    ensures n % (base * p) == n % base + base * ((n / base) % p)
  {
    var (high, d) := (n / base, n % base);
    var (q, r) := (high / p, high % p);
    RegroupPlaces(base, p, q, r, d);
    RemainderIs(n, base * p, q, base * r + d);
  }

  lemma RegroupPlaces(base: int, p: int, q: int, r: int, d: int)
    requires 0 <= r < p && 0 <= d < base
    ensures base * (p * q + r) + d == q * (base * p) + (base * r + d)
    ensures 0 <= base * r + d < base * p
  {
    Distributes(base, r, q, p);
    OneOrMore(base, p - r);
    Distributes(base, r, p - r, 1);
  }

  lemma RemainderIs(n: int, m: int, q: int, r: int)
    requires n == q * m + r && 0 <= r < m
    ensures n % m == r && n / m == q
  {
    LowestPlace(n % m, n / m, r, q, m);
  }

  lemma CongruentIfSameRemainder(a: int, b: int, m: int)
    requires m > 0
    ensures Congruent(a, b, m) <==> a % m == b % m
  {
    if k :| a - b == k * m {
      assert a == (b / m + k) * m + b % m;
      RemainderIs(a, m, b / m + k, b % m);
    }
    if a % m == b % m {
      assert a - b == (a / m - b / m) * m;
    }
  }

  // ---------- fixed-width integers ----------

  /** The bytes of `n` in `width` places denote `n` up to a multiple of 256^width, the lowest first. */
  lemma {:induction false} LittleEndianValue(n: int, width: nat)
    ensures Value(LittleEndian(n, width), 0x100) == n % Power(0x100, width)
    decreases width
  {
    if width > 0 {
      LittleEndianValue(n / 0x100, width - 1);
      ValueFromBelow(n % 0x100, LittleEndian(n / 0x100, width - 1), 0x100);
      ModuloSplits(n, 0x100, Power(0x100, width - 1));
    }
  }

  /** Two integers have the same bytes if and only if they differ by a multiple of 256^width. */
  lemma SameLittleEndian(a: int, b: int, width: nat)
    ensures LittleEndian(a, width) == LittleEndian(b, width) <==> Congruent(a, b, Power(0x100, width))
  {
    LittleEndianValue(a, width);
    LittleEndianValue(b, width);
    CongruentIfSameRemainder(a, b, Power(0x100, width));
    if Congruent(a, b, Power(0x100, width)) {
      DigitsAreUnique(LittleEndian(a, width), LittleEndian(b, width), 0x100);
    }
  }

  lemma Widths()
    ensures Power(0x100, 4) == 0x1_0000_0000 && Power(0x100, 8) == 0x1_0000_0000_0000_0000
  {
    assert Power(0x100, 2) == 0x1_0000;
    assert Power(0x100, 6) == 0x1_0000_0000_0000;
  }

  /** Le32 and Le64 keep integers apart that lie within a range of 2^32 or 2^64 numbers. */
  lemma FixedWidthKeepsApart(a: int, b: int)
    ensures Le32(a) == Le32(b) && -0x1_0000_0000 < a - b < 0x1_0000_0000 ==> a == b
    ensures Le64(a) == Le64(b) && -0x1_0000_0000_0000_0000 < a - b < 0x1_0000_0000_0000_0000 ==> a == b
  {
    Widths();
    SameLittleEndian(a, b, 4);
    SameLittleEndian(a, b, 8);
  }

  /** Four bytes that denote `n` in network byte order, the highest place first. */
  predicate IsBe32(bs: seq<Byte>, n: int) {
    |bs| == 4 &&
    (var (a: int, b: int, c: int, d: int) := (bs[0], bs[1], bs[2], bs[3]);
     a * 0x100_0000 + b * 0x1_0000 + c * 0x100 + d == n)
  }

  lemma Be32Means(n: UInt32, bs: seq<Byte>)
    ensures bs == Be32(n) <==> IsBe32(bs, n)
    ensures |bs| == 4 ==> IsBe32(bs, FromBe32(bs)) && (FromBe32(bs) == n <==> IsBe32(bs, n))
  {
    if |bs| == 4 {
      FromBe32RoundTrip(bs);
      Be32RoundTrip(n);
    }
  }

  /** Truncating division: the remainder is smaller than the divisor and never has the other sign. */
  predicate IsTruncated(a: int, b: int, q: int) {
    if a >= 0 then 0 <= a - q * b < b else -b < a - q * b <= 0
  }

  lemma TruncDivMeans(a: int, b: int, q: int)
    requires b > 0
    ensures q == TruncDiv(a, b) <==> IsTruncated(a, b, q)
    ensures TruncMod(a, b) == a - b * TruncDiv(a, b)
  {
    if a >= 0 {
      Quotient(a, b, q);
    } else {
      Quotient(-a, b, -q);
      assert -a - (-q) * b == -(a - q * b);
    }
  }

  lemma Quotient(a: int, b: int, q: int)
    requires b > 0
    ensures q == a / b <==> 0 <= a - q * b < b
  {
    if 0 <= a - q * b < b {
      RemainderIs(a, b, q, a - q * b);
    }
  }
}
