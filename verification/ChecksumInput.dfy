/** What the record checksum is taken of, and whether these bytes tell rows apart. */
module ChecksumInput {
  import opened Bytes
  import opened ColumnTypes
  import opened Positional
  import opened Wire
  import opened Normalize
  import opened NestedCodec
  import opened RecordStream

  /** Types whose values feed the same number of bytes, whatever the value. */
  predicate IsFixed(t: Type) {
    t.IsInt() || t.Float? || t.Double? || t.Boolean? || t.IsTime()
  }

  function Width(t: Type): nat
    requires IsFixed(t)
  {
    if t.IsInt() || t.Double? then 8 else if t.Float? then 4 else if t.Boolean? then 1 else 12
  }

  lemma FixedIsScalar(v: Value, t: Type)
    requires IsFixed(t) && Fits(v, t)
    ensures !v.IsComplex() && FitsScalar(v, t)
  {
  }

  /** Values of such a type feed different bytes. */
  lemma FixedValuesKeptApart(v: Value, w: Value, t: Type)
    requires IsFixed(t) && !v.IsComplex() && !w.IsComplex() && FitsScalar(v, t) && FitsScalar(w, t)
    ensures |PutScalar(v).fed| == Width(t)
    ensures PutScalar(v).fed == PutScalar(w).fed ==> v == w
  {
    hide LittleEndian, SInt, IsNormalTime;
    if t.IsInt() {
      FixedWidthKeepsApart(v.i, w.i);
    } else if t.IsTime() {
      var (a, b) := (v.time, w.time);
      FixedWidthKeepsApart(a.second, b.second);
      NanosAreSmall(a);
      NanosAreSmall(b);
      FixedWidthKeepsApart(a.nano, b.nano);
      SplitEqual(Le64(a.second), Le32(a.nano), Le64(b.second), Le32(b.nano));
    }
  }

  lemma NanosAreSmall(time: TimeStamp)
    requires FitsTime(time)
    ensures -0x8000_0000 < time.nano < 0x8000_0000
  {
  }

  lemma SplitEqual(a: seq<Byte>, b: seq<Byte>, c: seq<Byte>, d: seq<Byte>)
    requires |a| == |c|
    ensures a + b == c + d <==> a == c && b == d
  {
    if a + b == c + d {
      assert (a + b)[..|a|] == a && (c + d)[..|c|] == c;
      assert (a + b)[|a|..] == b && (c + d)[|c|..] == d;
    }
  }

  /** Two columns that feed the same bytes have the same number and the same value. */
  lemma OneColumnKeptApart(a: nat, v: Value, b: nat, w: Value, t: Type)
    requires IsFixed(t) && Fits(v, t) && Fits(w, t) && a < 0x8000_0000 && b < 0x8000_0000
    ensures PutColumn(a, Full(v), t).fed == PutColumn(b, Full(w), t).fed ==> a == b && v == w
  {
    FixedIsScalar(v, t);
    FixedIsScalar(w, t);
    FixedValuesKeptApart(v, w, t);
    FixedWidthKeepsApart(a, b);
    hide LittleEndian, PutScalar;
    SplitEqual(Le32(a), PutScalar(v).fed, Le32(b), PutScalar(w).fed);
  }

  /** No column holds a nested value, and no column but the last one holds a text. */
  predicate OnlyLastVaries(cfg: Config) {
    && (forall i | 0 <= i < |cfg.schema| :: !cfg.schema[i].IsComplex())
    && (forall i | 0 <= i < |cfg.schema| - 1 :: IsFixed(cfg.schema[i]))
  }

  /** What columns feed begins with the number of one of them. */
  predicate BeginsWithColumn(fed: seq<Byte>, from: nat, to: nat) {
    fed == [] || exists j | from < j <= to :: |fed| >= 4 && fed[..4] == Le32(j)
  }

  function ColumnFed(row: Row, cfg: Config, k: nat): seq<Byte>
    requires FitsRow(cfg, row) && k < |row|
  {
    PutColumn(k + 1, row[k], cfg.schema[k]).fed
  }

  /** What a cell feeds: nothing, or the number of its column and its value. */
  predicate IsColumnFed(c: Cell, k: nat, fed: seq<Byte>, t: Type) {
    if c.Null? then fed == []
    else !c.v.IsComplex() && FitsScalar(c.v, t) && fed == Le32(k + 1) + PutScalar(c.v).fed
  }

  lemma FedStep(cfg: Config, row: Row, k: nat)
    requires FitsRow(cfg, row) && k < |row| && !cfg.schema[k].IsComplex()
    ensures PutColumns(cfg, row, k).fed == ColumnFed(row, cfg, k) + PutColumns(cfg, row, k + 1).fed
    ensures IsColumnFed(row[k], k, ColumnFed(row, cfg, k), cfg.schema[k])
  {
    hide LittleEndian, Fits, SInt, Tag, Bool, Delimited;
    assert FitsColumn(cfg, row[k], cfg.schema[k]);
    if row[k].Full? {
      FitsAsScalar(row[k].v, cfg.schema[k]);
    }
  }

  lemma FitsAsScalar(v: Value, t: Type)
    requires !t.IsComplex() && Fits(v, t)
    ensures !v.IsComplex() && FitsScalar(v, t)
  {
  }

  lemma FedBegins(k: nat, n: nat, c: Cell, t: Type, fed: seq<Byte>, more: seq<Byte>)
    requires k < n && IsColumnFed(c, k, fed, t) && BeginsWithColumn(more, k + 1, n)
    ensures BeginsWithColumn(fed + more, k, n)
  {
    hide LittleEndian, PutScalar, FitsScalar;
    if c.Full? {
      assert (fed + more)[..4] == Le32(k + 1);
    } else {
      assert fed + more == more;
    }
  }

  lemma {:induction false} ColumnsBegin(cfg: Config, row: Row, k: nat)
    requires FitsRow(cfg, row) && OnlyLastVaries(cfg) && k <= |row|
    ensures BeginsWithColumn(PutColumns(cfg, row, k).fed, k, |row|)
    decreases |row| - k
  {
    assert |row| == |cfg.schema|;
    hide LittleEndian, PutScalar, FitsScalar, ColumnFed, FitsRow, PutColumn;
    if k < |row| {
      FedStep(cfg, row, k);
      ColumnsBegin(cfg, row, k + 1);
      hide PutColumns;
      FedBegins(k, |row|, row[k], cfg.schema[k], ColumnFed(row, cfg, k), PutColumns(cfg, row, k + 1).fed);
    }
  }

  lemma SameColumn(k: nat, n: nat, t: Type, c: Cell, fed: seq<Byte>, more: seq<Byte>, c': Cell, fed': seq<Byte>,
      more': seq<Byte>)
    requires IsFixed(t) && k < n < 0x8000_0000 && IsColumnFed(c, k, fed, t) && IsColumnFed(c', k, fed', t)
    requires fed + more == fed' + more' && BeginsWithColumn(more, k + 1, n) && BeginsWithColumn(more', k + 1, n)
    ensures c == c' && more == more'
  {
    hide PutScalar, FitsScalar, LittleEndian, Width;
    if c.Null? && c'.Null? {
      assert [] + more == more && [] + more' == more';
    } else if c.Null? {
      assert fed + more == more && fed' + more' == Le32(k + 1) + (PutScalar(c'.v).fed + more');
      NoSuchColumn(k, n, more, PutScalar(c'.v).fed + more');
    } else if c'.Null? {
      assert fed' + more' == more' && fed + more == Le32(k + 1) + (PutScalar(c.v).fed + more);
      NoSuchColumn(k, n, more', PutScalar(c.v).fed + more);
    } else {
      FixedValuesKeptApart(c.v, c'.v, t);
      FixedValuesKeptApart(c'.v, c.v, t);
      SplitEqual(fed, more, fed', more');
      SplitEqual(Le32(k + 1), PutScalar(c.v).fed, Le32(k + 1), PutScalar(c'.v).fed);
    }
  }

  /** Nothing follows the last column, so it may hold a text. */
  lemma SameLastColumn(k: nat, t: Type, c: Cell, fed: seq<Byte>, c': Cell, fed': seq<Byte>)
    requires IsColumnFed(c, k, fed, t) && IsColumnFed(c', k, fed', t) && fed == fed'
    ensures c == c'
  {
    hide LittleEndian, SInt, Bool, Delimited, IsNormalTime;
    if c.Full? && c'.Full? {
      SplitEqual(Le32(k + 1), PutScalar(c.v).fed, Le32(k + 1), PutScalar(c'.v).fed);
      if IsFixed(t) {
        FixedValuesKeptApart(c.v, c'.v, t);
      }
    }
  }

  lemma NoSuchColumn(k: nat, n: nat, more: seq<Byte>, rest: seq<Byte>)
    requires n < 0x8000_0000 && BeginsWithColumn(more, k + 1, n)
    ensures more != Le32(k + 1) + rest
  {
    hide LittleEndian;
    if more == Le32(k + 1) + rest {
      assert more[..4] == Le32(k + 1);
      var j :| k + 1 < j <= n && |more| >= 4 && more[..4] == Le32(j);
      FixedWidthKeepsApart(j, k + 1);
    }
  }

  /** If the rows feed the same from column `k` on, they have the same cell there and feed the same behind it. */
  lemma SameFirstColumn(cfg: Config, row: Row, other: Row, k: nat)
    requires FitsRow(cfg, row) && FitsRow(cfg, other) && OnlyLastVaries(cfg) && k < |row| < 0x8000_0000
    requires PutColumns(cfg, row, k).fed == PutColumns(cfg, other, k).fed
    ensures row[k] == other[k] && PutColumns(cfg, row, k + 1).fed == PutColumns(cfg, other, k + 1).fed
  {
    assert |row| == |other| == |cfg.schema|;
    FedStep(cfg, row, k);
    FedStep(cfg, other, k);
    ColumnsBegin(cfg, row, k + 1);
    ColumnsBegin(cfg, other, k + 1);
    var (fed, fed', t) := (ColumnFed(row, cfg, k), ColumnFed(other, cfg, k), cfg.schema[k]);
    if k + 1 == |row| {
      hide ColumnFed, IsColumnFed, BeginsWithColumn, FitsRow, OnlyLastVaries, PutColumn;
      assert PutColumns(cfg, row, k + 1).fed == [] == PutColumns(cfg, other, k + 1).fed;
      hide PutColumns;
      assert fed + [] == fed && fed' + [] == fed';
      SameLastColumn(k, t, row[k], fed, other[k], fed');
    } else {
      hide PutColumns, ColumnFed, IsColumnFed, BeginsWithColumn, FitsRow;
      assert IsFixed(t);
      SameColumn(k, |row|, t, row[k], fed, PutColumns(cfg, row, k + 1).fed, other[k], fed', PutColumns(cfg, other, k + 1).fed);
    }
  }

  lemma {:induction false} ColumnsKeptApart(cfg: Config, row: Row, other: Row, k: nat)
    requires FitsRow(cfg, row) && FitsRow(cfg, other) && OnlyLastVaries(cfg)
    requires k <= |row| == |other| < 0x8000_0000 && PutColumns(cfg, row, k).fed == PutColumns(cfg, other, k).fed
    ensures forall i | k <= i < |row| :: row[i] == other[i]
    decreases |row| - k
  {
    hide *;
    if k < |row| {
      SameFirstColumn(cfg, row, other, k);
      ColumnsKeptApart(cfg, row, other, k + 1);
    }
  }

  /** If no column holds a nested value and none but the last one a text, two rows feed the same bytes to
      the checksum only if they are the same row, nulls included. */
  lemma RowsKeptApart(cfg: Config, row: Row, other: Row)
    requires cfg.Valid() && FitsRow(cfg, row) && FitsRow(cfg, other) && OnlyLastVaries(cfg)
    ensures PutColumns(cfg, row, 0).fed == PutColumns(cfg, other, 0).fed <==> row == other
  {
    assert |row| == |other| == |cfg.schema|;
    hide PutColumns, FitsRow, OnlyLastVaries;
    if PutColumns(cfg, row, 0).fed == PutColumns(cfg, other, 0).fed {
      ColumnsKeptApart(cfg, row, other, 0);
    }
  }

  // ---------- rows that feed the same ----------

  function Sample(t: Type): (v: Value)
    requires !t.IsComplex()
    ensures !v.IsComplex() && FitsScalar(v, t) && Fits(v, t) && |PutScalar(v).fed| <= 12 && (v.TextV? ==> v.text == [])
  {
    if t.IsInt() then IntV(0)
    else if t.Float? then FloatV([0, 0, 0, 0])
    else if t.Double? then FloatV([0, 0, 0, 0, 0, 0, 0, 0])
    else if t.Boolean? then BoolV(false)
    else if t.IsText() then TextV([])
    else TimeV(TimeStamp(0, 0))
  }

  /** A row with at most two values. */
  function RowWith(cfg: Config, k: nat, first: Cell, second: Cell): (row: Row)
    requires k + 1 < |cfg.schema|
    ensures |row| == |cfg.schema|
  {
    seq(|cfg.schema|, i => if i == k then first else if i == k + 1 then second else Null)
  }

  lemma {:induction false} NullsFeedNothing(cfg: Config, row: Row, lo: nat, hi: nat)
    requires FitsRow(cfg, row) && lo <= hi <= |row| && forall i | lo <= i < hi :: row[i].Null?
    ensures PutColumns(cfg, row, lo).fed == PutColumns(cfg, row, hi).fed
    decreases |row| - lo
  {
    hide FitsRow;
    if lo < hi {
      NullsFeedNothing(cfg, row, lo + 1, hi);
      assert [] + PutColumns(cfg, row, lo + 1).fed == PutColumns(cfg, row, lo + 1).fed;
    }
  }

  /** Two columns and nothing else. */
  lemma TwoColumnsFeed(cfg: Config, row: Row, k: nat)
    requires FitsRow(cfg, row) && k + 1 < |row| && forall i | 0 <= i < |row| && i != k && i != k + 1 :: row[i].Null?
    requires !cfg.schema[k].IsComplex() && !cfg.schema[k + 1].IsComplex()
    ensures PutColumns(cfg, row, 0).fed == ColumnFed(row, cfg, k) + ColumnFed(row, cfg, k + 1)
  {
    NullsFeedNothing(cfg, row, 0, k);
    NullsFeedNothing(cfg, row, k + 2, |row|);
    FedStep(cfg, row, k);
    FedStep(cfg, row, k + 1);
    assert PutColumns(cfg, row, |row|).fed == [];
    hide PutColumns, ColumnFed, FitsRow;
    assert ColumnFed(row, cfg, k + 1) + [] == ColumnFed(row, cfg, k + 1);
  }

  lemma RowWithFits(cfg: Config, k: nat, text: seq<Byte>, second: Cell)
    requires k + 1 < |cfg.schema| && cfg.schema[k].IsText() && !cfg.schema[k + 1].IsComplex()
    requires |text| <= cfg.maxField <= MAX_STRING - 255
    requires second in {Null, Full(Sample(cfg.schema[k + 1]))}
    ensures FitsRow(cfg, RowWith(cfg, k, Full(TextV(text)), second))
  {
    var row := RowWith(cfg, k, Full(TextV(text)), second);
    assert FitsColumn(cfg, row[k], cfg.schema[k]) && FitsColumn(cfg, row[k + 1], cfg.schema[k + 1]);
    assert forall i | 0 <= i < |row| && i != k && i != k + 1 :: row[i] == Null;
  }

  /** A text may hold what the next column feeds. */
  lemma TextHidesColumn(cfg: Config, k: nat) returns (row: Row, other: Row)
    requires cfg.Valid() && cfg.maxField >= 16 && k + 1 < |cfg.schema|
    requires cfg.schema[k].IsText() && !cfg.schema[k + 1].IsComplex()
    ensures FitsRow(cfg, row) && FitsRow(cfg, other) && row != other
    ensures PutColumns(cfg, row, 0).fed == PutColumns(cfg, other, 0).fed
  {
    hide LittleEndian, Tag, Delimited, PutColumns, ColumnFed, FitsRow, Sample;
    var v := Sample(cfg.schema[k + 1]);
    var text := Le32(k + 2) + PutScalar(v).fed;
    row, other := RowWith(cfg, k, Full(TextV([])), Full(v)), RowWith(cfg, k, Full(TextV(text)), Null);
    assert row[k + 1] != other[k + 1];
    RowWithFits(cfg, k, [], Full(v));
    RowWithFits(cfg, k, text, Null);
    TwoColumnsFeed(cfg, row, k);
    TwoColumnsFeed(cfg, other, k);
    FedStep(cfg, row, k);
    FedStep(cfg, row, k + 1);
    FedStep(cfg, other, k);
    FedStep(cfg, other, k + 1);
    assert Le32(k + 1) + [] + text == Le32(k + 1) + text + [];
  }

  /** As long as there are no nested columns, what enters the checksum tells all rows apart if and only if
      no column but the last one holds texts. */
  lemma ChecksumTellsRowsApart(cfg: Config)
    requires cfg.Valid() && cfg.maxField >= 16 && forall i | 0 <= i < |cfg.schema| :: !cfg.schema[i].IsComplex()
    ensures (forall row, other | FitsRow(cfg, row) && FitsRow(cfg, other)
                                 && PutColumns(cfg, row, 0).fed == PutColumns(cfg, other, 0).fed :: row == other)
            <==> forall i | 0 <= i < |cfg.schema| - 1 :: !cfg.schema[i].IsText()
  {
    hide PutColumns, FitsRow;
    if i :| 0 <= i < |cfg.schema| - 1 && cfg.schema[i].IsText() {
      var k: nat := i;
      var row, other := TextHidesColumn(cfg, k);
    } else {
      assert OnlyLastVaries(cfg);
      forall row, other | FitsRow(cfg, row) && FitsRow(cfg, other)
                          && PutColumns(cfg, row, 0).fed == PutColumns(cfg, other, 0).fed
        ensures row == other
      {
        RowsKeptApart(cfg, row, other);
      }
    }
  }
}
