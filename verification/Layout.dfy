/** The format as a table: what a stream of records consists of, item by item, and which bytes each item
    is on the wire and in the checksum. The writer is proved to send exactly this. */
module Layout {
  import opened Bytes
  import opened ColumnTypes
  import opened Options
  import opened Wire
  import opened NestedCodec
  import opened RecordStream

  datatype Item =
    | Head(column: nat, wireType: nat)
    | Mark(field: nat)
    | Signed(i: int, width: nat)
    | Count(n: nat)
    | Flag(b: bool)
    | Truth(b: bool)
    | Bits(bs: seq<Byte>)
    | Text(bs: seq<Byte>)

  /** The bytes that are sent for an item. */
  function OnWire(item: Item): seq<Byte> {
    match item
    case Head(column, wireType) => Varint(column * 8 + wireType)
    case Mark(field) => Varint(field * 8)
    case Signed(i, _) => Varint(if i >= 0 then 2 * i else -2 * i - 1)
    case Count(n) => Varint(n)
    case Flag(b) => if b then [1] else [0]
    case Truth(b) => if b then [1] else [0]
    case Bits(bs) => bs
    case Text(bs) => Varint(|bs|) + bs
  }

  /** The bytes of an item that enter the checksum of its record. */
  function Absorbed(item: Item): seq<Byte> {
    match item
    case Head(column, _) => LittleEndian(column, 4)
    case Signed(i, width) => LittleEndian(i, width)
    case Truth(b) => if b then [1] else [0]
    case Bits(bs) => bs
    case Text(bs) => bs
    case _ => []
  }

  function WireOf(items: seq<Item>): seq<Byte> {
    if items == [] then [] else OnWire(items[0]) + WireOf(items[1..])
  }

  function FedOf(items: seq<Item>): seq<Byte> {
    if items == [] then [] else Absorbed(items[0]) + FedOf(items[1..])
  }

  function Laid(items: seq<Item>): Emit {
    Emit(WireOf(items), FedOf(items), true)
  }

  lemma {:induction false} LaidAppend(a: seq<Item>, b: seq<Item>)
    ensures Laid(a + b) == Then(Laid(a), Laid(b))
    decreases |a|
  {
    hide OnWire, Absorbed;
    if a == [] {
      assert a + b == b;
      assert [] + WireOf(b) == WireOf(b) && [] + FedOf(b) == FedOf(b);
    } else {
      assert (a + b)[1..] == a[1..] + b && (a + b)[0] == a[0];
      LaidAppend(a[1..], b);
      assert OnWire(a[0]) + (WireOf(a[1..]) + WireOf(b)) == OnWire(a[0]) + WireOf(a[1..]) + WireOf(b);
      assert Absorbed(a[0]) + (FedOf(a[1..]) + FedOf(b)) == Absorbed(a[0]) + FedOf(a[1..]) + FedOf(b);
    }
  }

  lemma LaidOne(item: Item)
    ensures Laid([item]) == Emit(OnWire(item), Absorbed(item), true)
  {
    hide OnWire, Absorbed;
    var items := [item];
    assert items[1..] == [] && WireOf(items[1..]) == [] && FedOf(items[1..]) == [];
    assert OnWire(item) + [] == OnWire(item) && Absorbed(item) + [] == Absorbed(item);
  }

  lemma LaidNone()
    ensures Laid([]) == Emit([], [], true)
  {
  }

  // ---------- values ----------

  /** A time stamp is its seconds and its nanoseconds; every other scalar is one item. */
  function ScalarLayout(v: Value): seq<Item>
    requires !v.IsComplex()
  {
    match v
    case IntV(i) => [Signed(i, 8)]
    case FloatV(bits) => [Bits(bits)]
    case BoolV(b) => [Truth(b)]
    case TextV(text) => [Text(text)]
    case TimeV(time) => [Signed(time.second, 8), Signed(time.nano, 4)]
  }

  /** Elements and members are preceded by a flag that says whether they are null. */
  function CellLayout(c: Cell, t: Type): seq<Item>
    requires FitsCell(c, t)
    decreases c, 1
  {
    if c.Null? then [Flag(true)] else [Flag(false)] + ValueLayout(c.v, t)
  }

  function CellsLayout(cs: seq<Cell>, t: Type): seq<Item>
    requires FitsCells(cs, t)
    decreases cs, 2
  {
    if cs == [] then [] else CellLayout(cs[0], t) + CellsLayout(cs[1..], t)
  }

  function MembersLayout(cs: seq<Cell>, ms: seq<Member>): seq<Item>
    requires FitsMembers(cs, ms)
    decreases cs, 2
  {
    if cs == [] then [] else CellLayout(cs[0], ms[0].ty) + MembersLayout(cs[1..], ms[1..])
  }

  /** An array is preceded by its length, a map is the array of its keys and the array of its values. */
  function ValueLayout(v: Value, t: Type): seq<Item>
    requires Fits(v, t)
    decreases v, 0
  {
    match v
    case ArrayV(elems) => [Count(|elems|)] + CellsLayout(elems, t.elem)
    case MapV(keys, vals) => [Count(|keys|)] + CellsLayout(keys, t.key) + ([Count(|vals|)] + CellsLayout(vals, t.val))
    case StructV(fields) => MembersLayout(fields, t.members)
    case _ =>
      match Prepared(v, t)
      case None => []
      case Some(p) => ScalarLayout(p)
  }

  lemma ScalarIsLaidOut(v: Value)
    requires !v.IsComplex()
    ensures PutScalar(v) == Laid(ScalarLayout(v))
  {
    hide Varint, LittleEndian, Laid;
    if v.TimeV? {
      var (second, nano) := (Signed(v.time.second, 8), Signed(v.time.nano, 4));
      LaidAppend([second], [nano]);
      LaidOne(second);
      LaidOne(nano);
      assert [second] + [nano] == ScalarLayout(v);
    } else {
      LaidOne(ScalarLayout(v)[0]);
    }
  }

  /** What the writer sends of a value, and feeds to the checksum, is what the table says. */
  lemma {:induction false} ValueIsLaidOut(v: Value, t: Type)
    requires Fits(v, t) && PutValue(v, t).ok
    ensures PutValue(v, t) == Laid(ValueLayout(v, t))
    decreases v, 0
  {
    hide Laid, OnWire, Absorbed, Varint, PutScalar, ScalarLayout, Prepared;
    match v
    case ArrayV(elems) =>
      ArrayIsLaidOut(elems, t.elem);
    case MapV(keys, vals) =>
      ArrayIsLaidOut(keys, t.key);
      ArrayIsLaidOut(vals, t.val);
      LaidAppend([Count(|keys|)] + CellsLayout(keys, t.key), [Count(|vals|)] + CellsLayout(vals, t.val));
    case StructV(fields) =>
      MembersAreLaidOut(fields, t.members);
    case _ =>
      PreparedIsScalar(v, t);
      ScalarIsLaidOut(Prepared(v, t).value);
  }

  lemma PreparedIsScalar(v: Value, t: Type)
    requires !v.IsComplex() && Prepared(v, t).Some?
    ensures !Prepared(v, t).value.IsComplex()
  {
  }

  lemma {:induction false} ArrayIsLaidOut(cs: seq<Cell>, elem: Type)
    requires FitsCells(cs, elem) && PutArray(cs, elem).ok
    ensures PutArray(cs, elem) == Laid([Count(|cs|)] + CellsLayout(cs, elem))
    decreases cs, 3
  {
    CellsAreLaidOut(cs, elem);
    LaidAppend([Count(|cs|)], CellsLayout(cs, elem));
    LaidOne(Count(|cs|));
    hide Laid, Varint, PutCells, CellsLayout, FitsCells;
  }

  lemma {:induction false} CellsAreLaidOut(cs: seq<Cell>, t: Type)
    requires FitsCells(cs, t) && PutCells(cs, t).ok
    ensures PutCells(cs, t) == Laid(CellsLayout(cs, t))
    decreases cs, 2
  {
    if cs == [] {
      LaidNone();
    } else {
      hide Laid;
      CellIsLaidOut(cs[0], t);
      CellsAreLaidOut(cs[1..], t);
      LaidAppend(CellLayout(cs[0], t), CellsLayout(cs[1..], t));
    }
  }

  lemma {:induction false} CellIsLaidOut(c: Cell, t: Type)
    requires FitsCell(c, t) && PutCell(c, t).ok
    ensures PutCell(c, t) == Laid(CellLayout(c, t))
    decreases c, 1
  {
    LaidOne(Flag(c.Null?));
    hide Laid;
    if c.Full? {
      ValueIsLaidOut(c.v, t);
      LaidAppend([Flag(false)], ValueLayout(c.v, t));
    }
  }

  lemma {:induction false} MembersAreLaidOut(cs: seq<Cell>, ms: seq<Member>)
    requires FitsMembers(cs, ms) && PutMembers(cs, ms).ok
    ensures PutMembers(cs, ms) == Laid(MembersLayout(cs, ms))
    decreases cs, 2
  {
    if cs == [] {
      LaidNone();
    } else {
      hide Laid;
      CellIsLaidOut(cs[0], ms[0].ty);
      MembersAreLaidOut(cs[1..], ms[1..]);
      LaidAppend(CellLayout(cs[0], ms[0].ty), MembersLayout(cs[1..], ms[1..]));
    }
  }

  // ---------- records ----------

  /** 0 announces a varint, 1 eight bytes, 5 four bytes; 2 should announce a length, but time stamps
      and nested values have none. */
  function WireType(t: Type): nat {
    match t
    case BigInt | TinyInt | SmallInt | Integer | DateTime | Date | IntervalYearMonth | Boolean => 0
    case Double => 1
    case Float => 5
    case _ => 2
  }

  /** A null column is not there at all. */
  function ColumnLayout(index: nat, c: Cell, t: Type): seq<Item>
    requires FitsCell(c, t)
  {
    if c.Null? then [] else [Head(index, WireType(t))] + if c.v.IsComplex() then ValueLayout(c.v, t) else ScalarLayout(c.v)
  }

  function ColumnsLayout(cfg: Config, row: Row, k: nat): seq<Item>
    requires FitsRow(cfg, row) && k <= |row|
    decreases |row| - k
  {
    if k == |row| then [] else ColumnLayout(k + 1, row[k], cfg.schema[k]) + ColumnsLayout(cfg, row, k + 1)
  }

  /** The columns, and the checksum of what they feed to it. */
  function RecordLayout(cfg: Config, row: Row): seq<Item>
    requires FitsRow(cfg, row)
  {
    ColumnsLayout(cfg, row, 0) + [Mark(0x1FF_FC00), Count(ChecksumOf(cfg, row))]
  }

  function ChecksumOf(cfg: Config, row: Row): UInt32
    requires FitsRow(cfg, row)
  {
    (cfg.crc)(FedOf(ColumnsLayout(cfg, row, 0)))
  }

  function RecordsLayout(cfg: Config, rows: seq<Row>): seq<Item>
    requires forall i | 0 <= i < |rows| :: FitsRow(cfg, rows[i])
  {
    if rows == [] then [] else RecordLayout(cfg, rows[0]) + RecordsLayout(cfg, rows[1..])
  }

  function ChecksumsFed(cfg: Config, rows: seq<Row>): seq<Byte>
    requires forall i | 0 <= i < |rows| :: FitsRow(cfg, rows[i])
  {
    if rows == [] then [] else LittleEndian(ChecksumOf(cfg, rows[0]), 4) + ChecksumsFed(cfg, rows[1..])
  }

  /** The records, how many they are, and the checksum of their checksums. */
  function StreamLayout(cfg: Config, rows: seq<Row>): seq<Item>
    requires forall i | 0 <= i < |rows| :: FitsRow(cfg, rows[i])
  {
    RecordsLayout(cfg, rows) + FooterLayout(|rows|, (cfg.crc)(ChecksumsFed(cfg, rows)))
  }

  function FooterLayout(total: nat, crc: UInt32): seq<Item> {
    [Mark(0x1FF_FFFE), Signed(total, 8), Mark(0x1FF_FFFF), Count(crc)]
  }

  lemma WireTypeIs(t: Type)
    ensures WireTypeOf(t) == WireType(t)
  {
  }

  lemma ColumnIsLaidOut(index: nat, c: Cell, t: Type)
    requires FitsCell(c, t) && PutColumn(index, c, t).ok
    ensures PutColumn(index, c, t) == Laid(ColumnLayout(index, c, t))
  {
    if c.Null? {
      LaidNone();
    } else {
      LaidOne(Head(index, WireType(t)));
      WireTypeIs(t);
      hide Laid, WireTypeOf, WireType, Varint, LittleEndian, Fits, PutValue, PutScalar, ValueLayout, ScalarLayout;
      if c.v.IsComplex() {
        ValueIsLaidOut(c.v, t);
        LaidAppend([Head(index, WireType(t))], ValueLayout(c.v, t));
      } else {
        ScalarIsLaidOut(c.v);
        LaidAppend([Head(index, WireType(t))], ScalarLayout(c.v));
      }
      TagIs(index, WireType(t));
    }
  }

  lemma TagIs(field: nat, wireType: nat)
    ensures Tag(field, wireType) == Varint(field * 8 + wireType)
  {
    assert 8 * field + wireType == field * 8 + wireType;
  }

  lemma {:induction false} ColumnsAreLaidOut(cfg: Config, row: Row, k: nat)
    requires FitsRow(cfg, row) && k <= |row| && PutColumns(cfg, row, k).ok
    ensures PutColumns(cfg, row, k) == Laid(ColumnsLayout(cfg, row, k))
    decreases |row| - k
  {
    if k == |row| {
      LaidNone();
    } else {
      hide Laid, PutColumn, ColumnLayout;
      ColumnIsLaidOut(k + 1, row[k], cfg.schema[k]);
      ColumnsAreLaidOut(cfg, row, k + 1);
      LaidAppend(ColumnLayout(k + 1, row[k], cfg.schema[k]), ColumnsLayout(cfg, row, k + 1));
    }
  }

  lemma ChecksumIs(cfg: Config, row: Row)
    requires Writable(cfg, row)
    ensures RecordCrc(cfg, row) == ChecksumOf(cfg, row)
  {
    hide FitsRow, PutColumns, ColumnsLayout;
    ColumnsAreLaidOut(cfg, row, 0);
  }

  /** A tag without a column, and a number. */
  lemma MarkedCount(field: nat, n: nat)
    ensures WireOf([Mark(field), Count(n)]) == Tag(field, VARINT) + Varint(n)
  {
    hide Varint;
    LaidAppend([Mark(field)], [Count(n)]);
    LaidOne(Mark(field));
    LaidOne(Count(n));
    assert [Mark(field)] + [Count(n)] == [Mark(field), Count(n)];
  }

  lemma WireAppend(a: seq<Item>, b: seq<Item>)
    ensures WireOf(a + b) == WireOf(a) + WireOf(b)
  {
    hide WireOf, FedOf;
    LaidAppend(a, b);
  }

  lemma RecordIsLaidOut(cfg: Config, row: Row)
    requires Writable(cfg, row)
    ensures RecordBytes(cfg, row) == WireOf(RecordLayout(cfg, row))
  {
    hide PutColumns, ColumnsLayout, FitsRow, WireOf, Varint, Tag, RecordCrc, ChecksumOf;
    ColumnsAreLaidOut(cfg, row, 0);
    ChecksumIs(cfg, row);
    MarkedCount(0x1FF_FC00, ChecksumOf(cfg, row));
    WireAppend(ColumnsLayout(cfg, row, 0), [Mark(0x1FF_FC00), Count(ChecksumOf(cfg, row))]);
  }

  lemma {:induction false} RecordsAreLaidOut(cfg: Config, rows: seq<Row>)
    requires AllWritable(cfg, rows)
    ensures forall i | 0 <= i < |rows| :: FitsRow(cfg, rows[i])
    ensures RecordsBytes(cfg, rows) == WireOf(RecordsLayout(cfg, rows))
    ensures CrcBytes(cfg, rows) == ChecksumsFed(cfg, rows)
    decreases |rows|
  {
    hide FitsRow, RecordBytes, RecordLayout, RecordCrc, ChecksumOf, LittleEndian, PutColumns;
    assert forall i | 0 <= i < |rows| :: Writable(cfg, rows[i]);
    if rows != [] {
      RecordIsLaidOut(cfg, rows[0]);
      ChecksumIs(cfg, rows[0]);
      RecordsAreLaidOut(cfg, rows[1..]);
      WireAppend(RecordLayout(cfg, rows[0]), RecordsLayout(cfg, rows[1..]));
    }
  }

  lemma FooterIsLaidOut(total: nat, crc: UInt32)
    ensures Footer(total, crc) == WireOf(FooterLayout(total, crc))
  {
    hide Varint;
    var (a, b) := ([Mark(0x1FF_FFFE), Count(2 * total)], [Mark(0x1FF_FFFF), Count(crc)]);
    MarkedCount(0x1FF_FFFE, 2 * total);
    MarkedCount(0x1FF_FFFF, crc);
    SameOnWire(Mark(0x1FF_FFFE), Signed(total, 8), Count(2 * total), b);
    WireAppend(a, b);
    assert a + b == [Mark(0x1FF_FFFE), Count(2 * total)] + b;
    assert FooterLayout(total, crc) == [Mark(0x1FF_FFFE), Signed(total, 8)] + b;
  }

  lemma SameOnWire(first: Item, a: Item, b: Item, rest: seq<Item>)
    requires OnWire(a) == OnWire(b)
    ensures WireOf([first, a] + rest) == WireOf([first, b] + rest)
  {
    hide OnWire;
    WireAppend([first, a], rest);
    WireAppend([first, b], rest);
    WireAppend([first], [a]);
    WireAppend([first], [b]);
    LaidOne(a);
    LaidOne(b);
    assert [first] + [a] == [first, a] && [first] + [b] == [first, b];
  }

  /** What the writer has sent when all rows are serialized and the stream is completed is what the
      table says, byte for byte. */
  lemma StreamIsLaidOut(cfg: Config, rows: seq<Row>)
    requires AllWritable(cfg, rows)
    ensures forall i | 0 <= i < |rows| :: FitsRow(cfg, rows[i])
    ensures StreamBytes(cfg, rows) == WireOf(StreamLayout(cfg, rows))
  {
    hide FitsRow, AllWritable, RecordsBytes, RecordsLayout, CrcBytes, ChecksumsFed, Footer, FooterLayout, WireOf;
    RecordsAreLaidOut(cfg, rows);
    FooterIsLaidOut(|rows|, (cfg.crc)(ChecksumsFed(cfg, rows)));
    WireAppend(RecordsLayout(cfg, rows), FooterLayout(|rows|, (cfg.crc)(ChecksumsFed(cfg, rows))));
  }
}
