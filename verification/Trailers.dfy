/** What ends a stream, laid out by the table and taken in by the reader, with metrics and without. */
module Trailers {
  import opened Bytes
  import opened ColumnTypes
  import opened Wire
  import opened NestedCodec
  import opened RecordStream
  import opened Layout

  lemma TagIsRead(field: nat, wireType: nat, rest: seq<Byte>)
    requires 1 <= field < 0x2000_0000 && wireType in {0, 1, 2, 5}
    ensures ReadTag(Varint(field * 8 + wireType) + rest) == Got(field, rest)
  {
    ReadTagRoundTrip(field, wireType, rest);
    TagIs(field, wireType);
  }

  /** The total has to be the number of records read. */
  lemma TotalStep(cfg: Config, rd: Reader, row: Row, seen: set<nat>, n: Int64, rest: seq<Byte>)
    requires |row| == |cfg.schema| && !rd.gotTotal
    requires rd.rest == OnWire(Mark(0x1FF_FFFE)) + (OnWire(Signed(n, 8)) + rest)
    ensures Advance(cfg, rd, row, seen) ==
            if n != rd.total then Threw
            else Advance(cfg, rd.(rest := rest, gotTotal := true, receivedTotal := n), row, seen)
  {
    TagIsRead(0x1FF_FFFE, 0, OnWire(Signed(n, 8)) + rest);
    ReadSInt64RoundTrip(n, rest);
    hide ReadTag, ReadSInt64, Varint, GetColumn, Trailer;
  }

  /** Metrics, once, under the field number 1. */
  lemma MetricsStep(cfg: Config, rd: Reader, row: Row, seen: set<nat>, text: seq<Byte>, rest: seq<Byte>)
    requires |row| == |cfg.schema| && rd.gotTotal && !rd.gotMetrics && |text| < 0x8000_0000
    requires text != [] ==> (cfg.metricsParse)(text)
    requires rd.rest == OnWire(Head(1, 2)) + (OnWire(Text(text)) + rest)
    ensures Advance(cfg, rd, row, seen) ==
            Advance(cfg, rd.(rest := rest, gotMetrics := true, recordFed := rd.recordFed + (LittleEndian(1, 4) + text)), row, seen)
  {
    hide ReadTag, ReadDelimited, Varint, GetColumn, LittleEndian;
    TagIsRead(1, 2, OnWire(Text(text)) + rest);
    ReadDelimitedRoundTrip(text, rest);
  }

  /** Then the checksum of the metrics. */
  lemma MetricsEndStep(cfg: Config, rd: Reader, row: Row, seen: set<nat>, crc: UInt32, rest: seq<Byte>)
    requires |row| == |cfg.schema| && rd.gotTotal && rd.gotMetrics
    requires rd.rest == OnWire(Mark(0x1FF_FF00)) + (OnWire(Count(crc)) + rest)
    ensures Advance(cfg, rd, row, seen) ==
            if crc != (cfg.crc)(rd.recordFed) then Threw else Advance(cfg, rd.(rest := rest), row, seen)
  {
    TagIsRead(0x1FF_FF00, 0, OnWire(Count(crc)) + rest);
    ReadVarintRoundTrip(crc, rest);
    hide ReadTag, ReadVarint32, Varint, GetColumn, LittleEndian, ReadDelimited;
  }

  /** And in the end the checksum of the record checksums. */
  lemma ChecksumStep(cfg: Config, rd: Reader, row: Row, seen: set<nat>, crc: UInt32, rest: seq<Byte>)
    requires |row| == |cfg.schema| && rd.gotTotal
    requires rd.rest == OnWire(Mark(0x1FF_FFFF)) + (OnWire(Count(crc)) + rest)
    ensures Advance(cfg, rd, row, seen) ==
            if crc != (cfg.crc)(rd.crcFed) then Threw else End(rd.(rest := rest, receivedChecksum := crc))
  {
    TagIsRead(0x1FF_FFFF, 0, OnWire(Count(crc)) + rest);
    ReadVarintRoundTrip(crc, rest);
    hide ReadTag, ReadVarint32, Varint, GetColumn, LittleEndian, ReadDelimited;
  }

  /** A record end: the checksum has to be that of what the columns before it fed. */
  lemma RecordEndStep(cfg: Config, rd: Reader, row: Row, seen: set<nat>, crc: UInt32, rest: seq<Byte>)
    requires |row| == |cfg.schema| && !rd.gotTotal
    requires rd.rest == OnWire(Mark(0x1FF_FC00)) + (OnWire(Count(crc)) + rest)
    ensures Advance(cfg, rd, row, seen) ==
            if crc != (cfg.crc)(rd.recordFed) then Threw
            else Record(seq(|row|, i requires 0 <= i < |row| => if i in seen then row[i] else Null),
                        rd.(rest := rest, recordFed := [], crcFed := rd.crcFed + LittleEndian(crc, 4), total := rd.total + 1))
  {
    TagIsRead(0x1FF_FC00, 0, OnWire(Count(crc)) + rest);
    ReadVarintRoundTrip(crc, rest);
    hide ReadTag, ReadVarint32, Varint, GetColumn, LittleEndian, ReadDelimited;
  }

  /** The end of a stream with metrics, as the server sends it. */
  function MetricsTrailer(total: nat, text: seq<Byte>, metricsCrc: UInt32, crc: UInt32): seq<Item> {
    [Mark(0x1FF_FFFE), Signed(total, 8), Head(1, 2), Text(text), Mark(0x1FF_FF00), Count(metricsCrc),
     Mark(0x1FF_FFFF), Count(crc)]
  }

  lemma OneItem(item: Item, items: seq<Item>, tail: seq<Byte>)
    ensures WireOf([item] + items) + tail == OnWire(item) + (WireOf(items) + tail)
  {
    LaidOne(item);
    WireAppend([item], items);
    hide OnWire;
  }

  lemma TwoItems(a: Item, b: Item, items: seq<Item>, tail: seq<Byte>)
    ensures WireOf([a, b] + items) + tail == OnWire(a) + (OnWire(b) + (WireOf(items) + tail))
  {
    hide *;
    assert [a, b] + items == [a] + ([b] + items);
    OneItem(a, [b] + items, tail);
    OneItem(b, items, tail);
  }

  /** Between records such an end is taken in, whatever follows it: the stream is complete. */
  lemma MetricsAreRead(cfg: Config, rd: Reader, row: Row, text: seq<Byte>, tail: seq<Byte>)
    requires |row| == |cfg.schema| && !rd.gotTotal && !rd.gotMetrics && rd.recordFed == []
    requires 0 <= rd.total < 0x8000_0000_0000_0000 && |text| < 0x8000_0000 && (text != [] ==> (cfg.metricsParse)(text))
    requires var metricsCrc := (cfg.crc)(LittleEndian(1, 4) + text);
      rd.rest == WireOf(MetricsTrailer(rd.total, text, metricsCrc, (cfg.crc)(rd.crcFed))) + tail
    ensures var o := Deserialized(cfg, rd, row);
      o.End? && o.next.rest == tail && IsCompleted(cfg, o.next) && o.next.total == rd.total
  {
    hide OnWire, WireOf, Advance, LittleEndian;
    var (metricsCrc, crc) := ((cfg.crc)(LittleEndian(1, 4) + text), (cfg.crc)(rd.crcFed));
    var items := MetricsTrailer(rd.total, text, metricsCrc, crc);
    assert items == [items[0], items[1]] + items[2..] && items[2..] == [items[2], items[3]] + items[4..];
    assert items[4..] == [items[4], items[5]] + items[6..] && items[6..] == [items[6], items[7]] + [];
    TwoItems(items[0], items[1], items[2..], tail);
    var rd1 := rd.(rest := WireOf(items[2..]) + tail, gotTotal := true, receivedTotal := rd.total);
    TotalStep(cfg, rd, row, {}, rd.total, rd1.rest);
    TwoItems(items[2], items[3], items[4..], tail);
    var rd2 := rd1.(rest := WireOf(items[4..]) + tail, gotMetrics := true, recordFed := [] + (LittleEndian(1, 4) + text));
    MetricsStep(cfg, rd1, row, {}, text, rd2.rest);
    assert [] + (LittleEndian(1, 4) + text) == LittleEndian(1, 4) + text;
    TwoItems(items[4], items[5], items[6..], tail);
    var rd3 := rd2.(rest := WireOf(items[6..]) + tail);
    MetricsEndStep(cfg, rd2, row, {}, metricsCrc, rd3.rest);
    TwoItems(items[6], items[7], [], tail);
    NoItems(tail);
    ChecksumStep(cfg, rd3, row, {}, crc, tail);
  }

  lemma NoItems(tail: seq<Byte>)
    ensures WireOf([]) + tail == tail
  {
  }
}
