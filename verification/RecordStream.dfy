/** Records and record streams: what the writer sends for a list of rows, and how the reader moves
    through any bytes at all. */
module RecordStream {
  import opened Bytes
  import opened ColumnTypes
  import opened Wire
  import opened NestedCodec

  const META_TOTAL_RECORDS_TAG := 33554430
  const META_CHECKSUM_TAG := 33554431
  const RECORD_END_TAG := 33553408
  const METRICS_END_TAG := 33554176
  const METRICS_TAG := 1
  const MAX_ODPS_COLUMNS := 10000

  type Row = seq<Cell>

  /** What both ends are configured with: the column types, the checksum, the longest text a record
      accepts, and which metrics strings the JSON library can parse. */
  datatype Config = Config(schema: seq<Type>, crc: Checksum, maxField: nat, metricsParse: seq<Byte> -> bool)
  {
    predicate Valid() {
      |schema| <= MAX_ODPS_COLUMNS && maxField <= MAX_STRING - 255
    }
  }

  // ---------- writing ----------

  predicate FitsRow(cfg: Config, row: Row) {
    && |row| == |cfg.schema|
    && forall i | 0 <= i < |row| :: FitsColumn(cfg, row[i], cfg.schema[i])
  }

  predicate FitsColumn(cfg: Config, c: Cell, t: Type) {
    FitsCell(c, t) && (c.Full? && c.v.TextV? ==> |c.v.text| <= cfg.maxField)
  }

  function WireTypeOf(t: Type): (w: nat)
    ensures IsWireType(w)
  {
    if t.IsInt() || t.Boolean? then VARINT
    else if t.Float? then FIXED32
    else if t.Double? then FIXED64
    else LENGTH_DELIMITED
  }

  /** A null column leaves no trace. Column values carry no null flag, and scalars are sent as they
      are. */
  function PutColumn(index: nat, c: Cell, t: Type): Emit
    requires FitsCell(c, t)
  {
    if c.Null? then NOTHING
    else Then(Sent(Tag(index, WireTypeOf(t)), Le32(index)),
              if c.v.IsComplex() then PutValue(c.v, t) else PutScalar(c.v))
  }

  /** The columns from number `k` on. */
  function PutColumns(cfg: Config, row: Row, k: nat): Emit
    requires FitsRow(cfg, row) && k <= |row|
    decreases |row| - k
  {
    if k == |row| then NOTHING
    else Then(PutColumn(k + 1, row[k], cfg.schema[k]), PutColumns(cfg, row, k + 1))
  }

  function RecordCrc(cfg: Config, row: Row): UInt32
    requires FitsRow(cfg, row)
  {
    (cfg.crc)(PutColumns(cfg, row, 0).fed)
  }

  function RecordEnd(crc: UInt32): seq<Byte> {
    Tag(RECORD_END_TAG, VARINT) + Varint(crc)
  }

  predicate Writable(cfg: Config, row: Row) {
    FitsRow(cfg, row) && PutColumns(cfg, row, 0).ok
  }

  function RecordBytes(cfg: Config, row: Row): seq<Byte>
    requires FitsRow(cfg, row)
  {
    PutColumns(cfg, row, 0).wire + RecordEnd(RecordCrc(cfg, row))
  }

  predicate AllWritable(cfg: Config, rows: seq<Row>) {
    forall i | 0 <= i < |rows| :: Writable(cfg, rows[i])
  }

  function RecordsBytes(cfg: Config, rows: seq<Row>): seq<Byte>
    requires AllWritable(cfg, rows)
  {
    if rows == [] then [] else RecordBytes(cfg, rows[0]) + RecordsBytes(cfg, rows[1..])
  }

  /** What the checksum of checksums absorbs. */
  function CrcBytes(cfg: Config, rows: seq<Row>): seq<Byte>
    requires AllWritable(cfg, rows)
  {
    if rows == [] then [] else Le32(RecordCrc(cfg, rows[0])) + CrcBytes(cfg, rows[1..])
  }

  function Footer(total: nat, crc: UInt32): seq<Byte> {
    Tag(META_TOTAL_RECORDS_TAG, VARINT) + SInt(total) + (Tag(META_CHECKSUM_TAG, VARINT) + Varint(crc))
  }

  /** Everything the writer sends when all rows are serialized and the stream is completed. */
  function StreamBytes(cfg: Config, rows: seq<Row>): seq<Byte>
    requires AllWritable(cfg, rows)
  {
    RecordsBytes(cfg, rows) + Footer(|rows|, (cfg.crc)(CrcBytes(cfg, rows)))
  }

  // ---------- reading ----------

  /** The reader between two calls. */
  datatype Reader = Reader(
    rest: seq<Byte>, recordFed: seq<Byte>, crcFed: seq<Byte>, total: int,
    gotTotal: bool, gotMetrics: bool, receivedTotal: int, receivedChecksum: UInt32)

  function Fresh(input: seq<Byte>): Reader {
    Reader(input, [], [], 0, false, false, -1, 0xFFFF_FFFF)
  }

  predicate IsCompleted(cfg: Config, rd: Reader) {
    rd.receivedTotal == rd.total && rd.receivedChecksum == (cfg.crc)(rd.crcFed)
  }

  /** How one call ends: with a record, at the end of the stream, or by throwing. */
  datatype Outcome = Record(row: Row, next: Reader) | End(next: Reader) | Threw

  function GetColumn(cfg: Config, t: Type, s: seq<Byte>): (r: Read<Value>)
    ensures r.Done? ==> |r.rest| <= |s|
  {
    if t.IsComplex() then GetValue(t, s)
    else
      match GetScalar(t, s)
      case Fault => Fault
      case Done(v, rest, fed) => if v.TextV? && |v.text| > cfg.maxField then Fault else Done(v, rest, fed)
  }

  function Blanked(row: Row, seen: set<nat>): (r: Row)
    ensures |r| == |row|
  {
    seq(|row|, i requires 0 <= i < |row| => if i in seen then row[i] else Null)
  }

  /** From a tag on to the end of the call. `row` is the record object being filled, `seen` the
      columns filled since the call began. */
  function Advance(cfg: Config, rd: Reader, row: Row, seen: set<nat>): (o: Outcome)
    requires |row| == |cfg.schema|
    ensures o.Record? ==> |o.row| == |row| && |o.next.rest| < |rd.rest|
    decreases |rd.rest|
  {
    match ReadTag(rd.rest)
    case Failed => Threw
    case Got(field, rest) =>
      if rd.gotTotal then Trailer(cfg, rd, row, seen, field, rest)
      else if field == RECORD_END_TAG then
        match ReadVarint32(rest)
        case Failed => Threw
        case Got(crc, rest') =>
          if crc != (cfg.crc)(rd.recordFed) then Threw
          else Record(Blanked(row, seen),
                      rd.(rest := rest', recordFed := [], crcFed := rd.crcFed + Le32(crc), total := rd.total + 1))
      else if field == META_TOTAL_RECORDS_TAG then
        match ReadSInt64(rest)
        case Failed => Threw
        case Got(n, rest') =>
          if n != rd.total then Threw
          else Advance(cfg, rd.(rest := rest', gotTotal := true, receivedTotal := n), row, seen)
      else if field < 1 || field > |cfg.schema| then Threw
      else
        match GetColumn(cfg, cfg.schema[field - 1], rest)
        case Fault => Threw
        case Done(v, rest', fed) =>
          Advance(cfg, rd.(rest := rest', recordFed := rd.recordFed + (Le32(field) + fed)),
                  row[field - 1 := Full(v)], seen + {field - 1})
  }

  /** After the total: optional metrics with a checksum of their own, then the final checksum. */
  function Trailer(cfg: Config, rd: Reader, row: Row, seen: set<nat>, field: nat, rest: seq<Byte>): (o: Outcome)
    requires |row| == |cfg.schema| && |rest| < |rd.rest|
    ensures o.Record? ==> |o.row| == |row| && |o.next.rest| < |rd.rest|
    decreases |rest|
  {
    if field == METRICS_TAG && !rd.gotMetrics then
      match ReadDelimited(rest)
      case Failed => Threw
      case Got(text, rest') =>
        if text != [] && !(cfg.metricsParse)(text) then Threw
        else Advance(cfg, rd.(rest := rest', gotMetrics := true,
                              recordFed := rd.recordFed + (Le32(METRICS_TAG) + text)), row, seen)
    else if field == METRICS_END_TAG then
      if !rd.gotMetrics then Threw
      else
        match ReadVarint32(rest)
        case Failed => Threw
        case Got(crc, rest') =>
          if crc != (cfg.crc)(rd.recordFed) then Threw else Advance(cfg, rd.(rest := rest'), row, seen)
    else if field == META_CHECKSUM_TAG then
      match ReadVarint32(rest)
      case Failed => Threw
      case Got(crc, rest') =>
        if crc != (cfg.crc)(rd.crcFed) then Threw else End(rd.(rest := rest', receivedChecksum := crc))
    else Threw
  }

  /** One call on a record object that still holds an earlier row. */
  function Deserialized(cfg: Config, rd: Reader, prior: Row): Outcome
    requires |prior| == |cfg.schema|
  {
    Advance(cfg, rd, prior, {})
  }

  /** Calls with one and the same record object until one does not return a record: the rows
      returned, and how the last call ended. */
  function ReadAll(cfg: Config, rd: Reader, prior: Row): (r: (seq<Row>, Outcome))
    requires |prior| == |cfg.schema|
    ensures !r.1.Record?
    decreases |rd.rest|
  {
    match Deserialized(cfg, rd, prior)
    case Record(row, next) => var (rows, last) := ReadAll(cfg, next, row); ([row] + rows, last)
    case o => ([], o)
  }
}
