/** What becomes of nested integers and dates: how numbers that do not fit are narrowed, and what a date
    loses. */
module Narrowing {
  import opened Bytes
  import opened ColumnTypes
  import opened Options
  import opened Positional
  import opened NestedCodec

  lemma WrapMeans(i: int, limit: int, r: int)
    requires limit > 0
    ensures r == SignedWrap(i, limit) <==> -limit <= r < limit && Congruent(i, r, 2 * limit)
  {
    var w := SignedWrap(i, limit);
    assert Congruent(i, w, 2 * limit) by {
      if -limit <= i < limit {
        assert i - w == 0 * (2 * limit);
      } else {
        assert i - w == (i + limit) / (2 * limit) * (2 * limit);
      }
    }
    if -limit <= r < limit && Congruent(i, r, 2 * limit) {
      var k, m :| i - r == k * (2 * limit) && i - w == m * (2 * limit);
      assert w - r == (k - m) * (2 * limit);
      NoMultipleBetween(w - r, k - m, 2 * limit);
    }
  }

  lemma NoMultipleBetween(d: int, k: int, m: int)
    requires -m < d < m && d == k * m
    ensures d == 0
  {
    if k > 0 {
      OneOrMore(m, k);
    } else if k < 0 {
      OneOrMore(m, -k);
    }
  }

  /** The small integers keep their lowest 8, 16 or 32 bits as a signed number; the others keep all 64. */
  lemma NestedIntegers(i: Int64, t: Type, r: int)
    requires t.IsInt() && !t.Date?
    ensures Restored(IntV(i), t) == Some(IntV(r)) <==>
      match t
      case TinyInt => -0x80 <= r < 0x80 && Congruent(i, r, 0x100)
      case SmallInt => -0x8000 <= r < 0x8000 && Congruent(i, r, 0x1_0000)
      case Integer => -0x8000_0000 <= r < 0x8000_0000 && Congruent(i, r, 0x1_0000_0000)
      case _ => r == i
  {
    WrapMeans(i, IntLimit(t), r);
    hide Congruent;
  }

  /** A nested date is sent as whole days, truncated toward zero, and comes back as their seconds. */
  lemma NestedDates(seconds: Int64, days: int)
    ensures Prepared(IntV(seconds), Date) == Some(IntV(days)) <==> IsTruncated(seconds, 24 * 60 * 60, days)
    ensures Restored(IntV(days), Date) == Some(IntV(days * (24 * 60 * 60)))
  {
    TruncDivMeans(seconds, 24 * 60 * 60, days);
    hide IsTruncated;
  }
}
