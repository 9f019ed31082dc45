/** What a successful read guarantees about the bytes it came from, whoever produced them. The
    reader is compared with a grammar that knows nothing of its state machine. */
module StreamIntegrity {
  import opened Bytes
  import opened ColumnTypes
  import opened Options
  import opened Wire
  import opened NestedCodec
  import opened NestedRoundTrip
  import opened RecordStream
  import opened RecordRoundTrip

  /** One tagged value of a record. */
  datatype Entry = Entry(field: nat, value: Value)

  /** The next `n` tagged values, all with the number of a column. */
  function Entries(cfg: Config, s: seq<Byte>, n: nat): (r: Read<seq<Entry>>)
    decreases n
  {
    if n == 0 then Done([], s, [])
    else
      match ReadTag(s)
      case Failed => Fault
      case Got(field, rest) =>
        if field < 1 || field > |cfg.schema| || field == RECORD_END_TAG || field == META_TOTAL_RECORDS_TAG then Fault
        else
          match GetColumn(cfg, cfg.schema[field - 1], rest)
          case Fault => Fault
          case Done(v, rest', fed) =>
            match Entries(cfg, rest', n - 1)
            case Fault => Fault
            case Done(es, rest'', fed') => Done([Entry(field, v)] + es, rest'', Le32(field) + fed + fed')
  }

  /** The last value given for a column, if any. */
  function LastValue(es: seq<Entry>, column: nat): Cell {
    if es == [] then Null
    else
      var later := LastValue(es[1..], column);
      if later.Full? then later else if es[0].field == column + 1 then Full(es[0].value) else Null
  }

  /** `s` starts with a record of `n` values whose checksum, continued from `fed`, is `crc` and is
      the one sent; the record reads as `row` and leaves `rest`. */
  predicate RecordAt(cfg: Config, s: seq<Byte>, fed: seq<Byte>, n: nat, row: Row, crc: UInt32, rest: seq<Byte>) {
    match Entries(cfg, s, n)
    case Fault => false
    case Done(es, s', fed') =>
      && |row| == |cfg.schema|
      && (forall i | 0 <= i < |row| :: row[i] == LastValue(es, i))
      && crc == (cfg.crc)(fed + fed')
      && match ReadTag(s')
         case Failed => false
         case Got(field, s'') => field == RECORD_END_TAG && ReadVarint32(s'') == Got(crc, rest)
  }

  // ---------- a record is returned exactly when the grammar has one ----------

  /** The record object as it stands, columns not filled since the call began counting as null. */
  predicate Overlaid(out: Row, obj: Row, seen: set<nat>, es: seq<Entry>) {
    && |out| == |obj|
    && forall i | 0 <= i < |out| ::
         out[i] == if LastValue(es, i).Full? then LastValue(es, i) else if i in seen then obj[i] else Null
  }

  lemma OverlaidStep(out: Row, obj: Row, seen: set<nat>, field: nat, v: Value, es: seq<Entry>)
    requires 1 <= field <= |obj|
    ensures Overlaid(out, obj, seen, [Entry(field, v)] + es) <==>
            Overlaid(out, obj[field - 1 := Full(v)], seen + {field - 1}, es)
  {
    assert ([Entry(field, v)] + es)[1..] == es;
  }

  lemma NothingOverlaid(obj: Row, seen: set<nat>)
    ensures Overlaid(Blanked(obj, seen), obj, seen, [])
  {
  }

  lemma OnlyBlanked(out: Row, obj: Row, seen: set<nat>)
    ensures Overlaid(out, obj, seen, []) ==> out == Blanked(obj, seen)
  {
  }

  lemma {:induction false} NoRecordAfterTotal(cfg: Config, rd: Reader, obj: Row, seen: set<nat>)
    requires |obj| == |cfg.schema| && rd.gotTotal && 0 <= rd.receivedTotal == rd.total
    ensures var o := Advance(cfg, rd, obj, seen);
            && !o.Record?
            && (o.End? ==> IsCompleted(cfg, o.next) && o.next.total == rd.total && o.next.crcFed == rd.crcFed)
    decreases |rd.rest|
  {
    match ReadTag(rd.rest)
    case Failed =>
    case Got(field, rest) =>
      if field == METRICS_TAG && !rd.gotMetrics {
        match ReadDelimited(rest)
        case Failed =>
        case Got(text, rest') =>
          NoRecordAfterTotal(cfg, rd.(rest := rest', gotMetrics := true,
                                      recordFed := rd.recordFed + (Le32(METRICS_TAG) + text)), obj, seen);
      } else if field == METRICS_END_TAG {
        match ReadVarint32(rest)
        case Failed =>
        case Got(crc, rest') => NoRecordAfterTotal(cfg, rd.(rest := rest'), obj, seen);
      }
  }

  predicate Follows(cfg: Config, rd: Reader, next: Reader, crc: UInt32) {
    next == rd.(rest := next.rest, recordFed := [], crcFed := rd.crcFed + Le32(crc), total := rd.total + 1)
  }

  /** If a call returns a record, the input begins with one. */
  lemma {:induction false} RecordComesFromGrammar(cfg: Config, rd: Reader, obj: Row, seen: set<nat>)
    returns (n: nat, crc: UInt32, es: seq<Entry>, s: seq<Byte>, fed: seq<Byte>)
    requires |obj| == |cfg.schema| && !rd.gotTotal && rd.total >= 0 && Advance(cfg, rd, obj, seen).Record?
    ensures var o := Advance(cfg, rd, obj, seen);
            && Entries(cfg, rd.rest, n) == Done(es, s, fed)
            && Overlaid(o.row, obj, seen, es)
            && crc == (cfg.crc)(rd.recordFed + fed) && Follows(cfg, rd, o.next, crc)
            && ReadTag(s).Got? && ReadTag(s).value == RECORD_END_TAG
            && ReadVarint32(ReadTag(s).rest) == Got(crc, o.next.rest)
    decreases |rd.rest|
  {
    hide GetColumn, ReadTag, ReadVarint32, ReadSInt64, Trailer, LittleEndian, Overlaid, LastValue, Blanked;
    var o := Advance(cfg, rd, obj, seen);
    var field, rest := ReadTag(rd.rest).value, ReadTag(rd.rest).rest;
    if field == RECORD_END_TAG {
      NothingOverlaid(obj, seen);
      n, crc, es, s, fed := 0, ReadVarint32(rest).value, [], rd.rest, [];
      assert rd.recordFed + [] == rd.recordFed;
    } else if field == META_TOTAL_RECORDS_TAG {
      var total := ReadSInt64(rest);
      NoRecordAfterTotal(cfg, rd.(rest := total.rest, gotTotal := true, receivedTotal := total.value), obj, seen);
      assert false;
    } else {
      var c := GetColumn(cfg, cfg.schema[field - 1], rest);
      var rd' := rd.(rest := c.rest, recordFed := rd.recordFed + (Le32(field) + c.fed));
      var n', es', fed';
      n', crc, es', s, fed' := RecordComesFromGrammar(cfg, rd', obj[field - 1 := Full(c.value)], seen + {field - 1});
      n, es, fed := n' + 1, [Entry(field, c.value)] + es', Le32(field) + c.fed + fed';
      OverlaidStep(o.row, obj, seen, field, c.value, es');
      assert rd'.recordFed + fed' == rd.recordFed + fed;
    }
  }

  /** If the input begins with a record, a call returns it. */
  lemma {:induction false} GrammarRecordIsReturned(
    cfg: Config, rd: Reader, obj: Row, seen: set<nat>, n: nat, rest: seq<Byte>, row: Row)
    requires |obj| == |cfg.schema| && !rd.gotTotal
    requires Entries(cfg, rd.rest, n).Done?
    requires var Done(es, s, fed) := Entries(cfg, rd.rest, n);
             && Overlaid(row, obj, seen, es)
             && ReadTag(s).Got? && ReadTag(s).value == RECORD_END_TAG
             && ReadVarint32(ReadTag(s).rest) == Got((cfg.crc)(rd.recordFed + fed), rest)
    ensures var o := Advance(cfg, rd, obj, seen);
            && o.Record? && o.row == row && o.next.rest == rest
            && Follows(cfg, rd, o.next, (cfg.crc)(rd.recordFed + Entries(cfg, rd.rest, n).fed))
    decreases n
  {
    hide GetColumn, ReadTag, ReadVarint32, ReadSInt64, Trailer, LittleEndian, Overlaid, LastValue, Blanked;
    var Done(es, s, fed) := Entries(cfg, rd.rest, n);
    if n == 0 {
      OnlyBlanked(row, obj, seen);
      assert rd.recordFed + [] == rd.recordFed;
    } else {
      var field, s' := ReadTag(rd.rest).value, ReadTag(rd.rest).rest;
      var c := GetColumn(cfg, cfg.schema[field - 1], s');
      var rd' := rd.(rest := c.rest, recordFed := rd.recordFed + (Le32(field) + c.fed));
      var fed' := Entries(cfg, c.rest, n - 1).fed;
      OverlaidStep(row, obj, seen, field, c.value, Entries(cfg, c.rest, n - 1).value);
      assert rd'.recordFed + fed' == rd.recordFed + fed;
      GrammarRecordIsReturned(cfg, rd', obj[field - 1 := Full(c.value)], seen + {field - 1}, n - 1, rest, row);
    }
  }

  /** Between records, a call returns a record if and only if the input begins with one: intact
      checksum, and each column null exactly when no value for it was sent, whatever the record
      object held before. */
  lemma DeserializeMeetsGrammar(cfg: Config, rd: Reader, obj: Row, row: Row, rest: seq<Byte>)
    requires |obj| == |cfg.schema| && !rd.gotTotal && rd.total >= 0
    ensures (exists next :: Deserialized(cfg, rd, obj) == Record(row, next) && next.rest == rest) <==>
            (exists n, crc :: RecordAt(cfg, rd.rest, rd.recordFed, n, row, crc, rest))
  {
    var o := Deserialized(cfg, rd, obj);
    if o.Record? && o.row == row && o.next.rest == rest {
      var n, crc, es, s, fed := RecordComesFromGrammar(cfg, rd, obj, {});
      assert RecordAt(cfg, rd.rest, rd.recordFed, n, row, crc, rest);
    }
    if n, crc :| RecordAt(cfg, rd.rest, rd.recordFed, n, row, crc, rest) {
      GrammarRecordIsReturned(cfg, rd, obj, {}, n, rest, row);
      assert o == Record(row, o.next) && o.next.rest == rest;
    }
  }

  // ---------- the end is reported exactly when the grammar has one ----------

  /** The final checksum, and nothing wrong with it. */
  predicate ChecksumAt(cfg: Config, crcFed: seq<Byte>, s: seq<Byte>, rest: seq<Byte>) {
    match ReadTag(s)
    case Failed => false
    case Got(field, s') => field == META_CHECKSUM_TAG && ReadVarint32(s') == Got((cfg.crc)(crcFed), rest)
  }

  /** What is left after `k` checksums of the metrics, all of them right. */
  function AfterMetricsEnds(cfg: Config, fed: seq<Byte>, s: seq<Byte>, k: nat): (r: Option<seq<Byte>>)
    ensures r.Some? ==> |r.value| <= |s|
    decreases k
  {
    if k == 0 then Some(s)
    else
      match ReadTag(s)
      case Failed => None
      case Got(field, s') =>
        if field != METRICS_END_TAG then None
        else
          match ReadVarint32(s')
          case Failed => None
          case Got(crc, s'') => if crc != (cfg.crc)(fed) then None else AfterMetricsEnds(cfg, fed, s'', k - 1)
  }

  predicate ClosedMetricsAt(cfg: Config, fed: seq<Byte>, crcFed: seq<Byte>, s: seq<Byte>, k: nat, rest: seq<Byte>) {
    match AfterMetricsEnds(cfg, fed, s, k)
    case None => false
    case Some(s') => ChecksumAt(cfg, crcFed, s', rest)
  }

  /** After the total: either nothing or metrics with any number of checksums, then the final
      checksum. */
  predicate TrailerAt(cfg: Config, fed: seq<Byte>, crcFed: seq<Byte>, s: seq<Byte>, metrics: Option<seq<Byte>>,
      k: nat, rest: seq<Byte>) {
    match metrics
    case None => k == 0 && ChecksumAt(cfg, crcFed, s, rest)
    case Some(text) =>
      match ReadTag(s)
      case Failed => false
      case Got(field, s') =>
        && field == METRICS_TAG && ReadDelimited(s').Got? && ReadDelimited(s').value == text
        && (text == [] || (cfg.metricsParse)(text))
        && ClosedMetricsAt(cfg, fed + (Le32(METRICS_TAG) + text), crcFed, ReadDelimited(s').rest, k, rest)
  }

  /** `s` starts with `n` values that belong to no record, the total, and a trailer, and leaves
      `rest`. */
  predicate EndAt(cfg: Config, s: seq<Byte>, fed: seq<Byte>, crcFed: seq<Byte>, total: int, n: nat,
      metrics: Option<seq<Byte>>, k: nat, rest: seq<Byte>) {
    match Entries(cfg, s, n)
    case Fault => false
    case Done(es, s', fed') =>
      match ReadTag(s')
      case Failed => false
      case Got(field, s'') =>
        && field == META_TOTAL_RECORDS_TAG && ReadSInt64(s'').Got? && ReadSInt64(s'').value == total
        && TrailerAt(cfg, fed + fed', crcFed, ReadSInt64(s'').rest, metrics, k, rest)
  }

  /** No value is dropped at the end if and only if the total comes first. */
  lemma NothingDroppedIfTotalFirst(cfg: Config, s: seq<Byte>, fed: seq<Byte>, crcFed: seq<Byte>, total: int, n: nat,
      metrics: Option<seq<Byte>>, k: nat, rest: seq<Byte>)
    requires EndAt(cfg, s, fed, crcFed, total, n, metrics, k, rest)
    ensures n == 0 <==> ReadTag(s).Got? && ReadTag(s).value == META_TOTAL_RECORDS_TAG
  {
    hide ReadTag, ReadSInt64, GetColumn, TrailerAt;
  }

  lemma {:induction false} MetricsEndComesFromGrammar(cfg: Config, rd: Reader, obj: Row,
      seen: set<nat>) returns (k: nat)
    requires |obj| == |cfg.schema| && rd.gotTotal && rd.gotMetrics && Advance(cfg, rd, obj, seen).End?
    ensures ClosedMetricsAt(cfg, rd.recordFed, rd.crcFed, rd.rest, k, Advance(cfg, rd, obj, seen).next.rest)
    decreases |rd.rest|
  {
    hide ReadTag, ReadVarint32, ReadDelimited, ReadSInt64, GetColumn, LittleEndian;
    var (field, s) := (ReadTag(rd.rest).value, ReadTag(rd.rest).rest);
    if field == METRICS_END_TAG {
      var k' := MetricsEndComesFromGrammar(cfg, rd.(rest := ReadVarint32(s).rest), obj, seen);
      k := k' + 1;
    } else {
      k := 0;
    }
  }

  lemma TrailerComesFromGrammar(cfg: Config, rd: Reader, obj: Row, seen: set<nat>)
    returns (metrics: Option<seq<Byte>>, k: nat)
    requires |obj| == |cfg.schema| && rd.gotTotal && !rd.gotMetrics && Advance(cfg, rd, obj, seen).End?
    ensures TrailerAt(cfg, rd.recordFed, rd.crcFed, rd.rest, metrics, k, Advance(cfg, rd, obj, seen).next.rest)
  {
    hide ReadTag, ReadVarint32, ReadDelimited, ReadSInt64, GetColumn, LittleEndian, AfterMetricsEnds;
    var (field, s) := (ReadTag(rd.rest).value, ReadTag(rd.rest).rest);
    if field == METRICS_TAG {
      var text := ReadDelimited(s);
      metrics := Some(text.value);
      k := MetricsEndComesFromGrammar(cfg, rd.(rest := text.rest, gotMetrics := true,
                                              recordFed := rd.recordFed + (Le32(METRICS_TAG) + text.value)), obj, seen);
    } else {
      metrics, k := None, 0;
    }
  }

  /** If a call reports the end, the input begins with one. */
  lemma {:induction false} EndComesFromGrammar(cfg: Config, rd: Reader, obj: Row, seen: set<nat>)
    returns (n: nat, metrics: Option<seq<Byte>>, k: nat)
    requires |obj| == |cfg.schema| && !rd.gotTotal && !rd.gotMetrics && Advance(cfg, rd, obj, seen).End?
    ensures EndAt(cfg, rd.rest, rd.recordFed, rd.crcFed, rd.total, n, metrics, k, Advance(cfg, rd, obj, seen).next.rest)
    decreases |rd.rest|
  {
    hide GetColumn, ReadTag, ReadVarint32, ReadSInt64, Trailer, LittleEndian, TrailerAt;
    var (field, s) := (ReadTag(rd.rest).value, ReadTag(rd.rest).rest);
    if field == META_TOTAL_RECORDS_TAG {
      var total := ReadSInt64(s);
      n := 0;
      metrics, k := TrailerComesFromGrammar(cfg, rd.(rest := total.rest, gotTotal := true, receivedTotal := total.value), obj, seen);
      assert rd.recordFed + [] == rd.recordFed;
    } else {
      var c := GetColumn(cfg, cfg.schema[field - 1], s);
      var rd' := rd.(rest := c.rest, recordFed := rd.recordFed + (Le32(field) + c.fed));
      var n';
      n', metrics, k := EndComesFromGrammar(cfg, rd', obj[field - 1 := Full(c.value)], seen + {field - 1});
      n := n' + 1;
      var fed' := Entries(cfg, c.rest, n').fed;
      assert rd'.recordFed + fed' == rd.recordFed + (Le32(field) + c.fed + fed');
    }
  }

  lemma {:induction false} GrammarMetricsEndIsReported(cfg: Config, rd: Reader, obj: Row, seen: set<nat>, k: nat,
      rest: seq<Byte>)
    requires |obj| == |cfg.schema| && rd.gotTotal && rd.gotMetrics
    requires ClosedMetricsAt(cfg, rd.recordFed, rd.crcFed, rd.rest, k, rest)
    ensures Advance(cfg, rd, obj, seen).End? && Advance(cfg, rd, obj, seen).next.rest == rest
    decreases k
  {
    hide ReadTag, ReadVarint32, ReadDelimited, ReadSInt64, GetColumn, LittleEndian;
    if k > 0 {
      var s := ReadTag(rd.rest).rest;
      GrammarMetricsEndIsReported(cfg, rd.(rest := ReadVarint32(s).rest), obj, seen, k - 1, rest);
    }
  }

  lemma GrammarTrailerIsReported(cfg: Config, rd: Reader, obj: Row, seen: set<nat>, metrics: Option<seq<Byte>>,
      k: nat, rest: seq<Byte>)
    requires |obj| == |cfg.schema| && rd.gotTotal && !rd.gotMetrics
    requires TrailerAt(cfg, rd.recordFed, rd.crcFed, rd.rest, metrics, k, rest)
    ensures Advance(cfg, rd, obj, seen).End? && Advance(cfg, rd, obj, seen).next.rest == rest
  {
    hide ReadTag, ReadVarint32, ReadDelimited, ReadSInt64, GetColumn, LittleEndian, AfterMetricsEnds;
    if metrics.Some? {
      var text := ReadDelimited(ReadTag(rd.rest).rest);
      GrammarMetricsEndIsReported(cfg, rd.(rest := text.rest, gotMetrics := true,
                                          recordFed := rd.recordFed + (Le32(METRICS_TAG) + text.value)), obj, seen, k, rest);
    }
  }

  /** If the input begins with an end, a call reports it. */
  lemma {:induction false} GrammarEndIsReported(
    cfg: Config, rd: Reader, obj: Row, seen: set<nat>, n: nat, metrics: Option<seq<Byte>>, k: nat, rest: seq<Byte>)
    requires |obj| == |cfg.schema| && !rd.gotTotal && !rd.gotMetrics
    requires EndAt(cfg, rd.rest, rd.recordFed, rd.crcFed, rd.total, n, metrics, k, rest)
    ensures Advance(cfg, rd, obj, seen).End? && Advance(cfg, rd, obj, seen).next.rest == rest
    decreases n
  {
    hide GetColumn, ReadTag, ReadVarint32, ReadSInt64, Trailer, LittleEndian, TrailerAt;
    var (field, s) := (ReadTag(rd.rest).value, ReadTag(rd.rest).rest);
    if n == 0 {
      var total := ReadSInt64(s);
      assert rd.recordFed + [] == rd.recordFed;
      GrammarTrailerIsReported(cfg, rd.(rest := total.rest, gotTotal := true, receivedTotal := total.value), obj, seen, metrics, k, rest);
    } else {
      var c := GetColumn(cfg, cfg.schema[field - 1], s);
      var rd' := rd.(rest := c.rest, recordFed := rd.recordFed + (Le32(field) + c.fed));
      var fed' := Entries(cfg, c.rest, n - 1).fed;
      assert rd'.recordFed + fed' == rd.recordFed + (Le32(field) + c.fed + fed');
      GrammarEndIsReported(cfg, rd', obj[field - 1 := Full(c.value)], seen + {field - 1}, n - 1, metrics, k, rest);
    }
  }

  /** Between records, a call reports the end if and only if the input has an end there: the right
      total, a trailer with the right checksums, and before them nothing but values that belong to
      no record. */
  lemma EndMeetsGrammar(cfg: Config, rd: Reader, obj: Row, rest: seq<Byte>)
    requires |obj| == |cfg.schema| && !rd.gotTotal && !rd.gotMetrics
    ensures (exists next :: Deserialized(cfg, rd, obj) == End(next) && next.rest == rest) <==>
            (exists n, metrics, k :: EndAt(cfg, rd.rest, rd.recordFed, rd.crcFed, rd.total, n, metrics, k, rest))
  {
    hide Advance, EndAt;
    var o := Deserialized(cfg, rd, obj);
    if o.End? && o.next.rest == rest {
      var n, metrics, k := EndComesFromGrammar(cfg, rd, obj, {});
      assert EndAt(cfg, rd.rest, rd.recordFed, rd.crcFed, rd.total, n, metrics, k, rest);
    }
    if n, metrics, k :| EndAt(cfg, rd.rest, rd.recordFed, rd.crcFed, rd.total, n, metrics, k, rest) {
      GrammarEndIsReported(cfg, rd, obj, {}, n, metrics, k, rest);
      assert o == End(o.next) && o.next.rest == rest;
    }
  }

  // ---------- what is dropped ----------

  /** Values after the last record that no record end follows are dropped without a word: the
      stream still reads as complete. */
  lemma UnfinishedRecordIsDropped(cfg: Config, rd: Reader, obj: Row, row: Row, tail: seq<Byte>)
    requires cfg.Valid() && Writable(cfg, row) && |obj| == |cfg.schema| && ReadableRow(cfg, row)
    requires !rd.gotTotal && 0 <= rd.total < 0x8000_0000_0000_0000
    requires rd.rest == PutColumns(cfg, row, 0).wire + (Footer(rd.total, (cfg.crc)(rd.crcFed)) + tail)
    ensures var o := Deserialized(cfg, rd, obj);
            o.End? && o.next.rest == tail && IsCompleted(cfg, o.next)
  {
    var footer := Footer(rd.total, (cfg.crc)(rd.crcFed)) + tail;
    AdvanceOverColumns(cfg, rd, obj, {}, row, 0, footer);
    hide Advance, PutColumns, Footer, FitsRow;
    AdvanceFindsEnd(cfg, Moved(rd, footer, PutColumns(cfg, row, 0).fed), Filled(cfg, obj, row, 0), {} + Present(row, 0), tail);
  }

  /** Values between the last record and the total are dropped without a word, whatever they are: the
      stream still reads as complete. */
  lemma DanglingValuesAreDropped(cfg: Config, rd: Reader, obj: Row, n: nat, tail: seq<Byte>)
    requires cfg.Valid() && |obj| == |cfg.schema| && !rd.gotTotal && !rd.gotMetrics && 0 <= rd.total < 0x8000_0000_0000_0000
    requires Entries(cfg, rd.rest, n).Done? && Entries(cfg, rd.rest, n).rest == Footer(rd.total, (cfg.crc)(rd.crcFed)) + tail
    ensures var o := Deserialized(cfg, rd, obj);
            o.End? && o.next.rest == tail && IsCompleted(cfg, o.next) && o.next.total == rd.total
  {
    hide Advance, Entries, ReadTag, ReadSInt64, ReadVarint32, Tag, SInt, Varint;
    var crc := (cfg.crc)(rd.crcFed);
    var last := Tag(META_CHECKSUM_TAG, VARINT) + (Varint(crc) + tail);
    assert Footer(rd.total, crc) + tail == Tag(META_TOTAL_RECORDS_TAG, VARINT) + (SInt(rd.total) + last);
    ReadTagRoundTrip(META_TOTAL_RECORDS_TAG, VARINT, SInt(rd.total) + last);
    ReadSInt64RoundTrip(rd.total, last);
    ReadTagRoundTrip(META_CHECKSUM_TAG, VARINT, Varint(crc) + tail);
    ReadVarintRoundTrip(crc, tail);
    assert EndAt(cfg, rd.rest, rd.recordFed, rd.crcFed, rd.total, n, None, 0, tail);
    GrammarEndIsReported(cfg, rd, obj, {}, n, None, 0, tail);
    EndIsCompleted(cfg, rd, obj, {});
  }

  // ---------- a whole stream ----------

  /** Where a record was found: how many values it had, its checksum, and the input after it. */
  datatype Found = Found(n: nat, crc: UInt32, rest: seq<Byte>)

  function CrcsFed(fs: seq<Found>): seq<Byte> {
    if fs == [] then [] else Le32(fs[0].crc) + CrcsFed(fs[1..])
  }

  /** The input after the last of these records. */
  function After(s: seq<Byte>, fs: seq<Found>): seq<Byte> {
    if fs == [] then s else fs[|fs| - 1].rest
  }

  /** `s` starts with these records, one directly after the other. */
  predicate RecordsAt(cfg: Config, s: seq<Byte>, rows: seq<Row>, fs: seq<Found>)
    decreases |fs|
  {
    && |fs| == |rows|
    && (fs != [] ==> && RecordAt(cfg, s, [], fs[0].n, rows[0], fs[0].crc, fs[0].rest)
                     && RecordsAt(cfg, fs[0].rest, rows[1..], fs[1..]))
  }

  /** Where the end was found: how many values were dropped before it, and its metrics. */
  datatype Close = Close(dropped: nat, metrics: Option<seq<Byte>>, checks: nat)

  /** `s` is these records, then an end that counts `total` records and checksums `crcFed` and the
      records' checksums, then `rest`. */
  predicate StreamAt(cfg: Config, s: seq<Byte>, crcFed: seq<Byte>, total: int, rows: seq<Row>, fs: seq<Found>,
      c: Close, rest: seq<Byte>) {
    && RecordsAt(cfg, s, rows, fs)
    && EndAt(cfg, After(s, fs), [], crcFed + CrcsFed(fs), total, c.dropped, c.metrics, c.checks, rest)
  }

  lemma StreamAtStep(cfg: Config, s: seq<Byte>, crcFed: seq<Byte>, total: int, row: Row, rows: seq<Row>, f: Found,
      fs: seq<Found>, c: Close, rest: seq<Byte>)
    requires RecordAt(cfg, s, [], f.n, row, f.crc, f.rest)
    ensures StreamAt(cfg, s, crcFed, total, [row] + rows, [f] + fs, c, rest) <==>
            StreamAt(cfg, f.rest, crcFed + Le32(f.crc), total, rows, fs, c, rest)
  {
    hide RecordAt, EndAt, LittleEndian;
    assert ([f] + fs)[1..] == fs && ([row] + rows)[1..] == rows;
    assert crcFed + CrcsFed([f] + fs) == crcFed + Le32(f.crc) + CrcsFed(fs);
  }

  lemma {:induction false} EndIsCompleted(cfg: Config, rd: Reader, obj: Row, seen: set<nat>)
    requires |obj| == |cfg.schema| && rd.total >= 0 && !rd.gotTotal
    ensures var o := Advance(cfg, rd, obj, seen);
            o.End? ==> IsCompleted(cfg, o.next) && o.next.total == rd.total && o.next.crcFed == rd.crcFed
    decreases |rd.rest|
  {
    match ReadTag(rd.rest)
    case Failed =>
    case Got(field, rest) =>
      if field == RECORD_END_TAG {
      } else if field == META_TOTAL_RECORDS_TAG {
        match ReadSInt64(rest)
        case Failed =>
        case Got(total, rest') =>
          if total == rd.total {
            NoRecordAfterTotal(cfg, rd.(rest := rest', gotTotal := true, receivedTotal := total), obj, seen);
          }
      } else if 1 <= field <= |cfg.schema| {
        match GetColumn(cfg, cfg.schema[field - 1], rest)
        case Fault =>
        case Done(v, rest', fed) =>
          EndIsCompleted(cfg, rd.(rest := rest', recordFed := rd.recordFed + (Le32(field) + fed)),
                         obj[field - 1 := Full(v)], seen + {field - 1});
      }
  }

  predicate BetweenRecords(rd: Reader) {
    rd.total >= 0 && !rd.gotTotal && !rd.gotMetrics && rd.recordFed == []
  }

  /** What the reader returns are the rows of these records, and the input is these records, one after
      the other and each with its checksum intact, and an end with their count and the checksum of
      their checksums. */
  predicate AccountsFor(cfg: Config, rd: Reader, obj: Row, fs: seq<Found>, c: Close)
    requires |obj| == |cfg.schema|
  {
    var (rows, last) := ReadAll(cfg, rd, obj);
    && last.End? && StreamAt(cfg, rd.rest, rd.crcFed, rd.total + |rows|, rows, fs, c, last.next.rest)
    && IsCompleted(cfg, last.next)
    && last.next.receivedTotal == rd.total + |rows|
    && last.next.receivedChecksum == (cfg.crc)(rd.crcFed + CrcsFed(fs))
  }

  lemma EndOnly(cfg: Config, rd: Reader, obj: Row) returns (c: Close)
    requires |obj| == |cfg.schema| && BetweenRecords(rd) && Deserialized(cfg, rd, obj).End?
    ensures AccountsFor(cfg, rd, obj, [], c)
  {
    hide Advance, EndAt, LittleEndian;
    EndIsCompleted(cfg, rd, obj, {});
    var n, metrics, k := EndComesFromGrammar(cfg, rd, obj, {});
    c := Close(n, metrics, k);
    assert rd.crcFed + [] == rd.crcFed;
  }

  lemma OneRecordMore(cfg: Config, rd: Reader, obj: Row, f: Found, fs: seq<Found>, c: Close)
    requires |obj| == |cfg.schema| && BetweenRecords(rd) && Deserialized(cfg, rd, obj).Record?
    requires var o := Deserialized(cfg, rd, obj);
             && RecordAt(cfg, rd.rest, [], f.n, o.row, f.crc, f.rest) && o.next.rest == f.rest
             && Follows(cfg, rd, o.next, f.crc) && AccountsFor(cfg, o.next, o.row, fs, c)
    ensures AccountsFor(cfg, rd, obj, [f] + fs, c)
  {
    hide Advance, RecordAt, StreamAt, LittleEndian, IsCompleted;
    var o := Deserialized(cfg, rd, obj);
    var (rows, last) := ReadAll(cfg, o.next, o.row);
    assert ([f] + fs)[1..] == fs && rd.crcFed + CrcsFed([f] + fs) == o.next.crcFed + CrcsFed(fs);
    StreamAtStep(cfg, rd.rest, rd.crcFed, rd.total + 1 + |rows|, o.row, rows, f, fs, c, last.next.rest);
  }

  /** If the reader returns some rows and then reports the end, its input accounts for them. */
  lemma {:induction false} StreamIntegrity(cfg: Config, rd: Reader, obj: Row) returns (fs: seq<Found>, c: Close)
    requires |obj| == |cfg.schema| && BetweenRecords(rd) && ReadAll(cfg, rd, obj).1.End?
    ensures AccountsFor(cfg, rd, obj, fs, c)
    decreases |rd.rest|
  {
    hide Advance, RecordAt, AccountsFor, LittleEndian;
    var o := Deserialized(cfg, rd, obj);
    if o.End? {
      fs := [];
      c := EndOnly(cfg, rd, obj);
    } else {
      var n, crc := FirstRecord(cfg, rd, obj);
      fs, c := StreamIntegrity(cfg, o.next, o.row);
      var f := Found(n, crc, o.next.rest);
      OneRecordMore(cfg, rd, obj, f, fs, c);
      fs := [f] + fs;
    }
  }

  lemma FirstRecord(cfg: Config, rd: Reader, obj: Row) returns (n: nat, crc: UInt32)
    requires |obj| == |cfg.schema| && rd.total >= 0 && !rd.gotTotal && Deserialized(cfg, rd, obj).Record?
    ensures var o := Deserialized(cfg, rd, obj);
            RecordAt(cfg, rd.rest, rd.recordFed, n, o.row, crc, o.next.rest) && Follows(cfg, rd, o.next, crc)
  {
    var es, s, fed;
    n, crc, es, s, fed := RecordComesFromGrammar(cfg, rd, obj, {});
  }

  lemma RecordIsReturned(cfg: Config, rd: Reader, obj: Row, row: Row, f: Found)
    requires |obj| == |cfg.schema| && BetweenRecords(rd) && RecordAt(cfg, rd.rest, [], f.n, row, f.crc, f.rest)
    ensures var o := Deserialized(cfg, rd, obj);
            o.Record? && o.row == row && o.next.rest == f.rest && Follows(cfg, rd, o.next, f.crc)
  {
    GrammarRecordIsReturned(cfg, rd, obj, {}, f.n, f.rest, row);
  }

  /** If the input is a stream by the grammar, the reader returns its rows and reports the end. */
  lemma {:induction false} GrammarStreamIsRead(
    cfg: Config, rd: Reader, obj: Row, rows: seq<Row>, fs: seq<Found>, c: Close, rest: seq<Byte>)
    requires |obj| == |cfg.schema| && BetweenRecords(rd)
    requires StreamAt(cfg, rd.rest, rd.crcFed, rd.total + |rows|, rows, fs, c, rest)
    ensures var (got, last) := ReadAll(cfg, rd, obj); got == rows && last.End? && last.next.rest == rest
    decreases |fs|
  {
    hide Entries, LastValue, ReadTag, ReadVarint32, LittleEndian, EndAt, RecordAt, Advance;
    if fs == [] {
      assert rd.crcFed + [] == rd.crcFed;
      GrammarEndIsReported(cfg, rd, obj, {}, c.dropped, c.metrics, c.checks, rest);
    } else {
      RecordIsReturned(cfg, rd, obj, rows[0], fs[0]);
      var o := Deserialized(cfg, rd, obj);
      assert rows == [rows[0]] + rows[1..] && fs == [fs[0]] + fs[1..];
      StreamAtStep(cfg, rd.rest, rd.crcFed, rd.total + |rows|, rows[0], rows[1..], fs[0], fs[1..], c, rest);
      RowLength(cfg, rd, obj);
      hide Deserialized, RecordsAt, StreamAt;
      GrammarStreamIsRead(cfg, o.next, o.row, rows[1..], fs[1..], c, rest);
    }
  }

  lemma RowLength(cfg: Config, rd: Reader, obj: Row)
    requires |obj| == |cfg.schema| && Deserialized(cfg, rd, obj).Record?
    ensures |Deserialized(cfg, rd, obj).row| == |obj| && |Deserialized(cfg, rd, obj).next.rest| < |rd.rest|
  {
  }

  /** Any bytes at all read as these rows, with the end reported and `rest` left over, if and only if
      they are a stream of these rows by the grammar. */
  lemma StreamMeetsGrammar(cfg: Config, s: seq<Byte>, obj: Row, rows: seq<Row>, rest: seq<Byte>)
    requires |obj| == |cfg.schema|
    ensures (exists next :: ReadAll(cfg, Fresh(s), obj) == (rows, End(next)) && next.rest == rest) <==>
            (exists fs, c :: StreamAt(cfg, s, [], |rows|, rows, fs, c, rest))
  {
    hide ReadAll, StreamAt;
    var (got, last) := ReadAll(cfg, Fresh(s), obj);
    if last.End? && got == rows && last.next.rest == rest {
      var fs, c := StreamIntegrity(cfg, Fresh(s), obj);
      assert StreamAt(cfg, s, [], |rows|, rows, fs, c, rest);
    }
    if fs, c :| StreamAt(cfg, s, [], |rows|, rows, fs, c, rest) {
      GrammarStreamIsRead(cfg, Fresh(s), obj, rows, fs, c, rest);
      assert ReadAll(cfg, Fresh(s), obj) == (rows, End(last.next)) && last.next.rest == rest;
    }
  }
}
