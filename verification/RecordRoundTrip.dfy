/** What was written is read back, record by record and then as a whole stream. */
module RecordRoundTrip {
  import opened Bytes
  import opened ColumnTypes
  import opened Wire
  import opened NestedCodec
  import opened NestedRoundTrip
  import opened RecordStream

  /** Scalar columns come back as they are; only nested values are adjusted. */
  function NormalColumn(c: Cell, t: Type): Cell
    requires FitsCell(c, t)
  {
    if c.Full? && c.v.IsComplex() then Full(NormalValue(c.v, t)) else c
  }

  function NormalRow(cfg: Config, row: Row): (r: Row)
    requires FitsRow(cfg, row)
    ensures |r| == |row|
  {
    seq(|row|, i requires 0 <= i < |row| => NormalColumn(row[i], cfg.schema[i]))
  }

  predicate ReadableRow(cfg: Config, row: Row)
    requires FitsRow(cfg, row)
  {
    ReadableFrom(cfg, row, 0)
  }

  predicate ReadableFrom(cfg: Config, row: Row, k: nat)
    requires FitsRow(cfg, row)
  {
    forall i | k <= i < |row| :: ReadableCell(row[i], cfg.schema[i])
  }

  lemma ScalarsFitScalarTypes(v: Value, t: Type)
    requires Fits(v, t)
    ensures v.IsComplex() <==> t.IsComplex()
    ensures !v.IsComplex() ==> FitsScalar(v, t)
  {
  }

  lemma ColumnRoundTrip(cfg: Config, c: Cell, t: Type, rest: seq<Byte>)
    requires cfg.Valid() && FitsColumn(cfg, c, t) && c.Full? && PutColumn(0, c, t).ok
    ensures var e := if c.v.IsComplex() then PutValue(c.v, t) else PutScalar(c.v);
            GetColumn(cfg, t, e.wire + rest) ==
            if ReadableCell(c, t) then Done(NormalColumn(c, t).v, rest, e.fed) else Fault
  {
    ScalarsFitScalarTypes(c.v, t);
    hide GetScalar, GetValue, PutScalar, PutValue, NormalValue, FitsScalar;
    if c.v.IsComplex() {
      ValueRoundTrip(c.v, t, rest);
    } else {
      ScalarRoundTrip(c.v, t, rest);
    }
  }

  // ---------- one record ----------

  /** The record object once the columns from `k` on have been read into it. */
  function Filled(cfg: Config, old': Row, row: Row, k: nat): (r: Row)
    requires FitsRow(cfg, row) && |old'| == |row|
    ensures |r| == |row|
  {
    seq(|row|, i requires 0 <= i < |row| =>
      if i >= k && row[i].Full? then NormalColumn(row[i], cfg.schema[i]) else old'[i])
  }

  function Present(row: Row, k: nat): set<nat> {
    set i | k <= i < |row| && row[i].Full?
  }

  /** The reader after it has consumed input down to `tail` and checksummed `fed` on the way. */
  function Moved(rd: Reader, tail: seq<Byte>, fed: seq<Byte>): Reader {
    rd.(rest := tail, recordFed := rd.recordFed + fed)
  }

  lemma MovedTwice(rd: Reader, tail: seq<Byte>, fed: seq<Byte>, tail': seq<Byte>, fed': seq<Byte>)
    ensures Moved(Moved(rd, tail, fed), tail', fed') == Moved(rd, tail', fed + fed')
    ensures Moved(rd, rd.rest, []) == rd
  {
    assert rd.recordFed + fed + fed' == rd.recordFed + (fed + fed');
    assert rd.recordFed + [] == rd.recordFed;
  }

  lemma FillOne(cfg: Config, obj: Row, row: Row, k: nat)
    requires FitsRow(cfg, row) && |obj| == |row| && k < |row|
    ensures var obj' := if row[k].Null? then obj else obj[k := NormalColumn(row[k], cfg.schema[k])];
            Filled(cfg, obj, row, k) == Filled(cfg, obj', row, k + 1)
    ensures Present(row, k) == if row[k].Null? then Present(row, k + 1) else {k} + Present(row, k + 1)
  {
  }

  lemma AdvanceOverColumn(cfg: Config, rd: Reader, obj: Row, seen: set<nat>, k: nat, c: Cell, tail: seq<Byte>)
    requires cfg.Valid() && |obj| == |cfg.schema| && k < |cfg.schema| && !rd.gotTotal
    requires c.Full? && FitsColumn(cfg, c, cfg.schema[k]) && PutColumn(k + 1, c, cfg.schema[k]).ok
    requires rd.rest == PutColumn(k + 1, c, cfg.schema[k]).wire + tail
    ensures var t := cfg.schema[k];
            Advance(cfg, rd, obj, seen) ==
            if ReadableCell(c, t) then
              Advance(cfg, Moved(rd, tail, PutColumn(k + 1, c, t).fed), obj[k := NormalColumn(c, t)], seen + {k})
            else Threw
  {
    hide PutValue, PutScalar, GetColumn, ReadTag, Tag, LittleEndian, ReadableCell;
    var t := cfg.schema[k];
    var e := if c.v.IsComplex() then PutValue(c.v, t) else PutScalar(c.v);
    var tag := Sent(Tag(k + 1, WireTypeOf(t)), Le32(k + 1));
    assert PutColumn(k + 1, c, t) == Then(tag, e);
    ThenAssoc(tag, e, tail);
    ReadTagRoundTrip(k + 1, WireTypeOf(t), e.wire + tail);
    ColumnRoundTrip(cfg, c, t, tail);
  }

  /** Starting at the bytes of columns `k` on, the reader ends up after them with those columns in
      the record object, or throws. */
  predicate Covers(cfg: Config, rd: Reader, obj: Row, seen: set<nat>, row: Row, k: nat, tail: seq<Byte>)
    requires FitsRow(cfg, row) && |obj| == |row| && k <= |row|
  {
    Advance(cfg, rd, obj, seen) ==
    if ReadableFrom(cfg, row, k) then
      Advance(cfg, Moved(rd, tail, PutColumns(cfg, row, k).fed), Filled(cfg, obj, row, k), seen + Present(row, k))
    else Threw
  }

  lemma {:induction false} AdvanceOverColumns(
    cfg: Config, rd: Reader, obj: Row, seen: set<nat>, row: Row, k: nat, tail: seq<Byte>)
    requires cfg.Valid() && FitsRow(cfg, row) && |obj| == |row| && k <= |row| && !rd.gotTotal
    requires PutColumns(cfg, row, k).ok && rd.rest == PutColumns(cfg, row, k).wire + tail
    ensures Covers(cfg, rd, obj, seen, row, k, tail)
    decreases |row| - k
  {
    if k == |row| {
      hide Advance;
      assert Filled(cfg, obj, row, k) == obj && seen + Present(row, k) == seen;
      assert rd.rest == tail;
      MovedTwice(rd, tail, [], tail, []);
    } else {
      hide Advance, PutColumn, ReadableCell, FitsCell, NormalColumn, Covers;
      var (a, b) := (PutColumn(k + 1, row[k], cfg.schema[k]), PutColumns(cfg, row, k + 1));
      ReadableStep(cfg, row, k);
      if row[k].Null? {
        assert a.wire + b.wire == b.wire;
        AdvanceOverColumns(cfg, rd, obj, seen, row, k + 1, tail);
        CoversNull(cfg, rd, obj, seen, row, k, tail);
      } else {
        ThenAssoc(a, b, tail);
        var rd' := Moved(rd, b.wire + tail, a.fed);
        AdvanceOverColumns(cfg, rd', obj[k := NormalColumn(row[k], cfg.schema[k])], seen + {k}, row, k + 1, tail);
        CoversFull(cfg, rd, obj, seen, row, k, tail);
      }
    }
  }

  lemma CoversNull(cfg: Config, rd: Reader, obj: Row, seen: set<nat>, row: Row, k: nat, tail: seq<Byte>)
    requires FitsRow(cfg, row) && |obj| == |row| && k < |row| && row[k].Null?
    requires Covers(cfg, rd, obj, seen, row, k + 1, tail)
    ensures Covers(cfg, rd, obj, seen, row, k, tail)
  {
    hide Advance;
    ReadableStep(cfg, row, k);
    FillOne(cfg, obj, row, k);
    var b := PutColumns(cfg, row, k + 1);
    assert [] + b.fed == b.fed;
  }

  lemma CoversFull(cfg: Config, rd: Reader, obj: Row, seen: set<nat>, row: Row, k: nat, tail: seq<Byte>)
    requires cfg.Valid() && FitsRow(cfg, row) && |obj| == |row| && k < |row| && row[k].Full? && !rd.gotTotal
    requires PutColumns(cfg, row, k).ok
    requires rd.rest == PutColumn(k + 1, row[k], cfg.schema[k]).wire + (PutColumns(cfg, row, k + 1).wire + tail)
    requires var (a, b) := (PutColumn(k + 1, row[k], cfg.schema[k]), PutColumns(cfg, row, k + 1));
             Covers(cfg, Moved(rd, b.wire + tail, a.fed), obj[k := NormalColumn(row[k], cfg.schema[k])],
                    seen + {k}, row, k + 1, tail)
    ensures Covers(cfg, rd, obj, seen, row, k, tail)
  {
    hide Advance, PutColumn, ReadableCell, FitsCell, NormalColumn;
    var (a, b) := (PutColumn(k + 1, row[k], cfg.schema[k]), PutColumns(cfg, row, k + 1));
    AdvanceOverColumn(cfg, rd, obj, seen, k, row[k], b.wire + tail);
    ReadableStep(cfg, row, k);
    FillOne(cfg, obj, row, k);
    assert seen + ({k} + Present(row, k + 1)) == (seen + {k}) + Present(row, k + 1);
    MovedTwice(rd, b.wire + tail, a.fed, tail, b.fed);
  }

  lemma ReadableStep(cfg: Config, row: Row, k: nat)
    requires FitsRow(cfg, row) && k < |row|
    ensures ReadableFrom(cfg, row, k) <==> ReadableCell(row[k], cfg.schema[k]) && ReadableFrom(cfg, row, k + 1)
    ensures row[k].Null? ==> ReadableCell(row[k], cfg.schema[k]) && PutColumn(k + 1, row[k], cfg.schema[k]) == NOTHING
  {
  }

  lemma AdvanceRecordEnd(cfg: Config, rd: Reader, obj: Row, seen: set<nat>, crc: UInt32, tail: seq<Byte>)
    requires |obj| == |cfg.schema| && !rd.gotTotal && rd.rest == RecordEnd(crc) + tail
    ensures Advance(cfg, rd, obj, seen) ==
            if crc == (cfg.crc)(rd.recordFed) then
              Record(Blanked(obj, seen),
                     rd.(rest := tail, recordFed := [], crcFed := rd.crcFed + Le32(crc), total := rd.total + 1))
            else Threw
  {
    hide ReadVarint32, ReadTag, Tag, Varint, LittleEndian, Blanked, Trailer, GetColumn, ReadSInt64;
    assert rd.rest == Tag(RECORD_END_TAG, VARINT) + (Varint(crc) + tail);
    ReadTagRoundTrip(RECORD_END_TAG, VARINT, Varint(crc) + tail);
    ReadVarintRoundTrip(crc, tail);
  }

  /** Whatever the record object held before, one call returns exactly the row written, or throws
      when some struct in it has a JSON member. */
  lemma DeserializeReturnsRow(cfg: Config, rd: Reader, obj: Row, row: Row, tail: seq<Byte>)
    requires cfg.Valid() && Writable(cfg, row) && |obj| == |cfg.schema|
    requires !rd.gotTotal && rd.recordFed == [] && rd.rest == RecordBytes(cfg, row) + tail
    ensures Deserialized(cfg, rd, obj) ==
            if ReadableRow(cfg, row) then
              Record(NormalRow(cfg, row),
                     rd.(rest := tail, crcFed := rd.crcFed + Le32(RecordCrc(cfg, row)), total := rd.total + 1))
            else Threw
  {
    hide Advance, PutColumns, NormalValue, ReadableCell, FitsCell, RecordEnd;
    var e := PutColumns(cfg, row, 0);
    var crc := RecordCrc(cfg, row);
    var tail' := RecordEnd(crc) + tail;
    assert rd.rest == e.wire + tail';
    AdvanceOverColumns(cfg, rd, obj, {}, row, 0, tail');
    if ReadableRow(cfg, row) {
      assert [] + e.fed == e.fed;
      var (rd', obj', seen) := (rd.(rest := tail', recordFed := e.fed), Filled(cfg, obj, row, 0), {} + Present(row, 0));
      AdvanceRecordEnd(cfg, rd', obj', seen, crc, tail);
      assert Blanked(obj', seen) == NormalRow(cfg, row);
    }
  }

  // ---------- the stream ----------

  lemma AdvanceTotal(cfg: Config, rd: Reader, obj: Row, seen: set<nat>, tail: seq<Byte>)
    requires |obj| == |cfg.schema| && !rd.gotTotal && 0 <= rd.total < 0x8000_0000_0000_0000
    requires rd.rest == Tag(META_TOTAL_RECORDS_TAG, VARINT) + SInt(rd.total) + tail
    ensures Advance(cfg, rd, obj, seen) ==
            Advance(cfg, rd.(rest := tail, gotTotal := true, receivedTotal := rd.total), obj, seen)
  {
    hide ReadVarint32, ReadTag, ReadSInt64, Tag, SInt, Varint, LittleEndian, Blanked, Trailer, GetColumn;
    assert rd.rest == Tag(META_TOTAL_RECORDS_TAG, VARINT) + (SInt(rd.total) + tail);
    ReadTagRoundTrip(META_TOTAL_RECORDS_TAG, VARINT, SInt(rd.total) + tail);
    ReadSInt64RoundTrip(rd.total, tail);
  }

  lemma AdvanceChecksum(cfg: Config, rd: Reader, obj: Row, seen: set<nat>, tail: seq<Byte>)
    requires |obj| == |cfg.schema| && rd.gotTotal
    requires rd.rest == Tag(META_CHECKSUM_TAG, VARINT) + Varint((cfg.crc)(rd.crcFed)) + tail
    ensures Advance(cfg, rd, obj, seen) == End(rd.(rest := tail, receivedChecksum := (cfg.crc)(rd.crcFed)))
  {
    hide ReadVarint32, ReadTag, ReadSInt64, Tag, SInt, Varint, LittleEndian, Blanked, GetColumn;
    var crc := (cfg.crc)(rd.crcFed);
    assert rd.rest == Tag(META_CHECKSUM_TAG, VARINT) + (Varint(crc) + tail);
    ReadTagRoundTrip(META_CHECKSUM_TAG, VARINT, Varint(crc) + tail);
    ReadVarintRoundTrip(crc, tail);
  }

  lemma AdvanceFindsEnd(cfg: Config, rd: Reader, obj: Row, seen: set<nat>, tail: seq<Byte>)
    requires cfg.Valid() && |obj| == |cfg.schema| && !rd.gotTotal && 0 <= rd.total < 0x8000_0000_0000_0000
    requires rd.rest == Footer(rd.total, (cfg.crc)(rd.crcFed)) + tail
    ensures var end := rd.(rest := tail, gotTotal := true, receivedTotal := rd.total, receivedChecksum := (cfg.crc)(rd.crcFed));
            Advance(cfg, rd, obj, seen) == End(end) && IsCompleted(cfg, end)
  {
    hide Advance, Tag, SInt, Varint;
    var last := Tag(META_CHECKSUM_TAG, VARINT) + Varint((cfg.crc)(rd.crcFed)) + tail;
    assert rd.rest == Tag(META_TOTAL_RECORDS_TAG, VARINT) + SInt(rd.total) + last;
    AdvanceTotal(cfg, rd, obj, seen, last);
    AdvanceChecksum(cfg, rd.(rest := last, gotTotal := true, receivedTotal := rd.total), obj, seen, tail);
  }

  lemma DeserializeFindsEnd(cfg: Config, rd: Reader, obj: Row, tail: seq<Byte>)
    requires cfg.Valid() && |obj| == |cfg.schema| && !rd.gotTotal && 0 <= rd.total < 0x8000_0000_0000_0000
    requires rd.rest == Footer(rd.total, (cfg.crc)(rd.crcFed)) + tail
    ensures var o := Deserialized(cfg, rd, obj);
            o.End? && o.next.rest == tail && o.next.total == rd.total && IsCompleted(cfg, o.next)
  {
    hide Advance, Footer;
    AdvanceFindsEnd(cfg, rd, obj, {}, tail);
  }

  function NormalRows(cfg: Config, rows: seq<Row>): seq<Row>
    requires AllWritable(cfg, rows)
  {
    if rows == [] then [] else [NormalRow(cfg, rows[0])] + NormalRows(cfg, rows[1..])
  }

  /** The reader after it has read these rows. */
  function Past(cfg: Config, rd: Reader, rows: seq<Row>, tail: seq<Byte>): Reader
    requires AllWritable(cfg, rows)
  {
    rd.(rest := tail, crcFed := rd.crcFed + CrcBytes(cfg, rows), total := rd.total + |rows|)
  }

  /** The record object after these rows have been read into it. */
  function LastRow(cfg: Config, obj: Row, rows: seq<Row>): Row
    requires AllWritable(cfg, rows)
  {
    if rows == [] then obj else NormalRow(cfg, rows[|rows| - 1])
  }

  /** Whatever follows the bytes of some rows, these rows are read first. */
  lemma {:induction false} ReadAllBegins(cfg: Config, rd: Reader, obj: Row, rows: seq<Row>, tail: seq<Byte>)
    requires cfg.Valid() && AllWritable(cfg, rows) && |obj| == |cfg.schema|
    requires forall i | 0 <= i < |rows| :: ReadableRow(cfg, rows[i])
    requires !rd.gotTotal && rd.recordFed == [] && rd.rest == RecordsBytes(cfg, rows) + tail
    ensures |LastRow(cfg, obj, rows)| == |obj|
    ensures var more := ReadAll(cfg, Past(cfg, rd, rows, tail), LastRow(cfg, obj, rows));
            ReadAll(cfg, rd, obj) == (NormalRows(cfg, rows) + more.0, more.1)
    decreases |rows|
  {
    hide Deserialized, RecordBytes, NormalRow, ReadableRow, PutColumns, RecordCrc, LittleEndian;
    assert rows != [] ==> FitsRow(cfg, rows[0]) && |rows[0]| == |cfg.schema|;
    hide FitsRow;
    if rows == [] {
      assert rd.rest == tail && rd.crcFed + [] == rd.crcFed;
      assert Past(cfg, rd, rows, tail) == rd;
      assert [] + ReadAll(cfg, rd, obj).0 == ReadAll(cfg, rd, obj).0;
    } else {
      var rest := RecordsBytes(cfg, rows[1..]) + tail;
      assert rd.rest == RecordBytes(cfg, rows[0]) + rest;
      DeserializeReturnsRow(cfg, rd, obj, rows[0], rest);
      var next := rd.(rest := rest, crcFed := rd.crcFed + Le32(RecordCrc(cfg, rows[0])), total := rd.total + 1);
      assert rd.crcFed + CrcBytes(cfg, rows) == next.crcFed + CrcBytes(cfg, rows[1..]);
      assert Past(cfg, rd, rows, tail) == Past(cfg, next, rows[1..], tail);
      assert LastRow(cfg, obj, rows) == LastRow(cfg, NormalRow(cfg, rows[0]), rows[1..]);
      ReadAllBegins(cfg, next, NormalRow(cfg, rows[0]), rows[1..], tail);
      var more := ReadAll(cfg, Past(cfg, rd, rows, tail), LastRow(cfg, obj, rows)).0;
      assert [NormalRow(cfg, rows[0])] + (NormalRows(cfg, rows[1..]) + more) == NormalRows(cfg, rows) + more;
    }
  }

  lemma ReadAllFrom(cfg: Config, rd: Reader, obj: Row, rows: seq<Row>, tail: seq<Byte>)
    requires cfg.Valid() && AllWritable(cfg, rows) && |obj| == |cfg.schema|
    requires forall i | 0 <= i < |rows| :: ReadableRow(cfg, rows[i])
    requires !rd.gotTotal && rd.recordFed == [] && 0 <= rd.total && rd.total + |rows| < 0x8000_0000_0000_0000
    requires rd.rest ==
             RecordsBytes(cfg, rows) + (Footer(rd.total + |rows|, (cfg.crc)(rd.crcFed + CrcBytes(cfg, rows))) + tail)
    ensures var (got, last) := ReadAll(cfg, rd, obj);
            && got == NormalRows(cfg, rows)
            && last.End? && last.next.rest == tail && IsCompleted(cfg, last.next)
            && last.next.total == rd.total + |rows|
  {
    hide Deserialized, RecordsBytes, CrcBytes, Footer, NormalRows, ReadableRow, IsCompleted, LastRow, AllWritable;
    var footer := Footer(rd.total + |rows|, (cfg.crc)(rd.crcFed + CrcBytes(cfg, rows))) + tail;
    ReadAllBegins(cfg, rd, obj, rows, footer);
    DeserializeFindsEnd(cfg, Past(cfg, rd, rows, footer), LastRow(cfg, obj, rows), tail);
  }

  /** The stream written for any list of rows is read back as those rows, in order, and then ends
      with the count and both kinds of checksum in agreement; nothing after it is touched. */
  lemma StreamRoundTrip(cfg: Config, rows: seq<Row>, obj: Row, tail: seq<Byte>)
    requires cfg.Valid() && AllWritable(cfg, rows) && |obj| == |cfg.schema|
    requires |rows| < 0x8000_0000_0000_0000
    requires forall i | 0 <= i < |rows| :: ReadableRow(cfg, rows[i])
    ensures var (got, last) := ReadAll(cfg, Fresh(StreamBytes(cfg, rows) + tail), obj);
            && got == NormalRows(cfg, rows)
            && last.End? && last.next.rest == tail && IsCompleted(cfg, last.next) && last.next.total == |rows|
  {
    assert [] + CrcBytes(cfg, rows) == CrcBytes(cfg, rows);
    assert StreamBytes(cfg, rows) + tail ==
           RecordsBytes(cfg, rows) + (Footer(|rows|, (cfg.crc)(CrcBytes(cfg, rows))) + tail);
    ReadAllFrom(cfg, Fresh(StreamBytes(cfg, rows) + tail), obj, rows, tail);
  }
}
