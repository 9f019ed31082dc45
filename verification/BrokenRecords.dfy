/** What a reader makes of the bytes that a row leaves behind when it cannot be serialized. */
module BrokenRecords {
  import opened Bytes
  import opened ColumnTypes
  import opened Options
  import opened Normalize
  import opened Wire
  import opened NestedCodec
  import opened NestedRoundTrip
  import opened RecordStream
  import opened RecordRoundTrip
  import opened PackContents

  // ---------- why a write throws ----------

  /** The type of some part cannot be written at all, or a text of type CHAR or VARCHAR cannot be cut
      into characters. */
  datatype Cause = BadType | BadText(t: Type)

  function WhyValue(v: Value, t: Type): (c: Cause)
    requires Fits(v, t) && !PutValue(v, t).ok
    ensures c.BadText? ==> (c.t.Char? || c.t.Varchar?) && LengthValid(c.t)
    decreases v, 0
  {
    match v
    case ArrayV(elems) => WhyArray(elems, t.elem)
    case MapV(keys, vals) => if !PutArray(keys, t.key).ok then WhyArray(keys, t.key) else WhyArray(vals, t.val)
    case StructV(fields) => WhyMembers(fields, t.members)
    case _ => if (t.Char? || t.Varchar?) && LengthValid(t) then BadText(t) else BadType
  }

  function WhyArray(cs: seq<Cell>, elem: Type): (c: Cause)
    requires FitsCells(cs, elem) && !PutArray(cs, elem).ok
    ensures c.BadText? ==> (c.t.Char? || c.t.Varchar?) && LengthValid(c.t)
    decreases cs, 3
  {
    if elem.Json? then BadType else WhyCells(cs, elem)
  }

  function WhyCell(c: Cell, t: Type): (r: Cause)
    requires FitsCell(c, t) && !PutCell(c, t).ok
    ensures r.BadText? ==> (r.t.Char? || r.t.Varchar?) && LengthValid(r.t)
    decreases c, 1
  {
    WhyValue(c.v, t)
  }

  function WhyCells(cs: seq<Cell>, t: Type): (c: Cause)
    requires FitsCells(cs, t) && !PutCells(cs, t).ok
    ensures c.BadText? ==> (c.t.Char? || c.t.Varchar?) && LengthValid(c.t)
    decreases cs, 2
  {
    if !PutCell(cs[0], t).ok then WhyCell(cs[0], t) else WhyCells(cs[1..], t)
  }

  function WhyMembers(cs: seq<Cell>, ms: seq<Member>): (c: Cause)
    requires FitsMembers(cs, ms) && !PutMembers(cs, ms).ok
    ensures c.BadText? ==> (c.t.Char? || c.t.Varchar?) && LengthValid(c.t)
    decreases cs, 2
  {
    if cs[0].Full? && ms[0].ty.Json? then BadType
    else if !PutCell(cs[0], ms[0].ty).ok then WhyCell(cs[0], ms[0].ty)
    else WhyMembers(cs[1..], ms[1..])
  }

  /** A reader that comes to where the writer gave up and finds `s` there gives up too: always when
      the type is to blame, otherwise when `s` does not begin with a text that can be cut. */
  predicate Stops(c: Cause, s: seq<Byte>) {
    match c
    case BadType => true
    case BadText(t) =>
      match ReadDelimited(s)
      case Failed => true
      case Got(text, _) => Fitted(text, t).None?
  }

  // ---------- the reader stops there ----------

  lemma {:induction false} BrokenValue(v: Value, t: Type, tail: seq<Byte>)
    requires Fits(v, t) && !PutValue(v, t).ok && Stops(WhyValue(v, t), tail)
    ensures GetValue(t, PutValue(v, t).wire + tail) == Fault
    decreases v, 0
  {
    hide GetArray, GetMembers, PutArray, PutMembers, WhyArray, WhyMembers, Readable, NormalValue;
    match v
    case ArrayV(elems) => BrokenArray(elems, t.elem, tail);
    case MapV(keys, vals) => BrokenMap(v, t, tail);
    case StructV(fields) => BrokenMembers(fields, t.members, tail);
    case _ => BrokenText(v, t, tail);
  }

  lemma BrokenText(v: Value, t: Type, tail: seq<Byte>)
    requires Fits(v, t) && !v.IsComplex() && !PutValue(v, t).ok && Stops(WhyValue(v, t), tail)
    ensures GetValue(t, PutValue(v, t).wire + tail) == Fault
  {
    hide ReadDelimited;
    assert v.TextV? && Fitted(v.text, t).None?;
    assert PutValue(v, t).wire + tail == tail;
  }

  lemma {:induction false} BrokenMap(v: Value, t: Type, tail: seq<Byte>)
    requires v.MapV? && Fits(v, t) && !PutValue(v, t).ok && Stops(WhyValue(v, t), tail)
    ensures GetValue(t, PutValue(v, t).wire + tail) == Fault
    decreases v, 0, 0
  {
    hide GetArray, PutArray, WhyArray, NormalCells, ReadableCells, FitsCells;
    var (a, b) := (PutArray(v.keys, t.key), PutArray(v.vals, t.val));
    if !a.ok {
      BrokenArray(v.keys, t.key, tail);
    } else {
      assert PutValue(v, t).wire + tail == a.wire + (b.wire + tail);
      ArrayRoundTrip(v.keys, t.key, b.wire + tail);
      BrokenArray(v.vals, t.val, tail);
    }
  }

  lemma {:induction false} BrokenArray(cs: seq<Cell>, elem: Type, tail: seq<Byte>)
    requires FitsCells(cs, elem) && |cs| < TWO_32 && !PutArray(cs, elem).ok && Stops(WhyArray(cs, elem), tail)
    ensures GetArray(elem, PutArray(cs, elem).wire + tail) == Fault
    decreases cs, 3
  {
    hide PutCells, GetCells, ReadVarint32, WhyCells, FitsCells, Stops;
    var e := if elem.Json? then THROW else PutCells(cs, elem);
    assert PutArray(cs, elem).wire + tail == Varint(|cs|) + (e.wire + tail);
    ReadVarintRoundTrip(|cs|, e.wire + tail);
    if !elem.Json? {
      BrokenCells(cs, elem, tail);
    }
  }

  lemma {:induction false} BrokenCells(cs: seq<Cell>, t: Type, tail: seq<Byte>)
    requires FitsCells(cs, t) && !PutCells(cs, t).ok && Stops(WhyCells(cs, t), tail)
    ensures GetCells(|cs|, t, PutCells(cs, t).wire + tail) == Fault
    decreases cs, 2
  {
    hide GetCell, GetCells, PutCell, WhyCell, NormalCell, NormalCells, ReadableCell, ReadableCells, FitsCell, FitsCells, Stops;
    HeadAndTail(cs, t);
    GetCellsStep(|cs|, t, PutCells(cs, t).wire + tail);
    var (a, b) := (PutCell(cs[0], t), PutCells(cs[1..], t));
    if !a.ok {
      BrokenCell(cs[0], t, tail);
    } else {
      assert PutCells(cs, t).wire + tail == a.wire + (b.wire + tail);
      CellRoundTrip(cs[0], t, b.wire + tail);
      BrokenCells(cs[1..], t, tail);
    }
  }

  lemma {:induction false} BrokenCell(c: Cell, t: Type, tail: seq<Byte>)
    requires FitsCell(c, t) && !PutCell(c, t).ok && Stops(WhyCell(c, t), tail)
    ensures GetCell(t, PutCell(c, t).wire + tail) == Fault
    decreases c, 1
  {
    hide GetValue, PutValue, ReadBool, WhyValue, Stops, Fits;
    var e := PutValue(c.v, t);
    assert PutCell(c, t).wire + tail == Bool(false) + (e.wire + tail);
    ReadBoolRoundTrip(false, e.wire + tail);
    BrokenValue(c.v, t, tail);
  }

  lemma {:induction false} BrokenMembers(cs: seq<Cell>, ms: seq<Member>, tail: seq<Byte>)
    requires FitsMembers(cs, ms) && !PutMembers(cs, ms).ok && Stops(WhyMembers(cs, ms), tail)
    ensures GetMembers(ms, PutMembers(cs, ms).wire + tail) == Fault
    decreases cs, 2
  {
    assert FitsCell(cs[0], ms[0].ty) && FitsMembers(cs[1..], ms[1..]);
    hide GetCell, PutCell, WhyCell, NormalCell, ReadableCell, FitsCell, FitsMembers, Stops;
    if !ms[0].ty.Json? {
      var (a, b) := (PutCell(cs[0], ms[0].ty), PutMembers(cs[1..], ms[1..]));
      if !a.ok {
        BrokenCell(cs[0], ms[0].ty, tail);
      } else {
        assert PutMembers(cs, ms).wire + tail == a.wire + (b.wire + tail);
        CellRoundTrip(cs[0], ms[0].ty, b.wire + tail);
        BrokenMembers(cs[1..], ms[1..], tail);
      }
    }
  }

  // ---------- rows ----------

  function WhyColumns(cfg: Config, row: Row, k: nat): (c: Cause)
    requires FitsRow(cfg, row) && k <= |row| && !PutColumns(cfg, row, k).ok
    ensures c.BadText? ==> (c.t.Char? || c.t.Varchar?) && LengthValid(c.t)
    decreases |row| - k
  {
    if !PutColumn(k + 1, row[k], cfg.schema[k]).ok then WhyValue(row[k].v, cfg.schema[k])
    else WhyColumns(cfg, row, k + 1)
  }

  lemma BrokenColumn(cfg: Config, rd: Reader, obj: Row, seen: set<nat>, k: nat, c: Cell, tail: seq<Byte>)
    requires |obj| == |cfg.schema| && k < |cfg.schema| <= MAX_ODPS_COLUMNS && !rd.gotTotal
    requires FitsCell(c, cfg.schema[k]) && !PutColumn(k + 1, c, cfg.schema[k]).ok
    requires c.Full? && !PutValue(c.v, cfg.schema[k]).ok && Stops(WhyValue(c.v, cfg.schema[k]), tail)
    requires rd.rest == PutColumn(k + 1, c, cfg.schema[k]).wire + tail
    ensures Advance(cfg, rd, obj, seen) == Threw
  {
    hide PutValue, PutScalar, GetValue, GetScalar, ReadTag, Tag, LittleEndian, WhyValue, Stops;
    var t := cfg.schema[k];
    ScalarsFitScalarTypes(c.v, t);
    hide Fits, FitsScalar;
    var e := PutValue(c.v, t);
    assert rd.rest == Tag(k + 1, WireTypeOf(t)) + (e.wire + tail);
    ReadTagRoundTrip(k + 1, WireTypeOf(t), e.wire + tail);
    BrokenValue(c.v, t, tail);
  }

  lemma {:induction false} BrokenColumns(cfg: Config, rd: Reader, obj: Row, seen: set<nat>, row: Row, k: nat,
      tail: seq<Byte>)
    requires cfg.Valid() && FitsRow(cfg, row) && |obj| == |row| && k <= |row| && !rd.gotTotal
    requires !PutColumns(cfg, row, k).ok && Stops(WhyColumns(cfg, row, k), tail)
    requires rd.rest == PutColumns(cfg, row, k).wire + tail
    ensures Advance(cfg, rd, obj, seen) == Threw
    decreases |row| - k
  {
    ColumnFails(k + 1, row[k], cfg.schema[k]);
    hide Advance, PutColumn, PutValue, FitsCell, Stops, WhyValue, NormalColumn, ReadableCell;
    var (a, b) := (PutColumn(k + 1, row[k], cfg.schema[k]), PutColumns(cfg, row, k + 1));
    if !a.ok {
      BrokenColumn(cfg, rd, obj, seen, k, row[k], tail);
    } else if row[k].Null? {
      ReadableStep(cfg, row, k);
      assert a.wire + b.wire == b.wire;
      BrokenColumns(cfg, rd, obj, seen, row, k + 1, tail);
    } else {
      assert rd.rest == a.wire + (b.wire + tail);
      AdvanceOverColumn(cfg, rd, obj, seen, k, row[k], b.wire + tail);
      var rd' := Moved(rd, b.wire + tail, a.fed);
      BrokenColumns(cfg, rd', obj[k := NormalColumn(row[k], cfg.schema[k])], seen + {k}, row, k + 1, tail);
    }
  }

  lemma ColumnFails(index: nat, c: Cell, t: Type)
    requires FitsCell(c, t)
    ensures !PutColumn(index, c, t).ok ==> c.Full? && !PutValue(c.v, t).ok
  {
    hide PutValue;
  }

  // ---------- packs ----------

  /** The bytes of a completed pack after those of piece `i`. */
  function Following(cfg: Config, pieces: seq<Piece>, i: nat): seq<Byte>
    requires Fit(cfg, pieces) && i < |pieces|
  {
    PiecesBytes(cfg, pieces[i + 1..]) + Footer(|Rows(pieces)|, (cfg.crc)(PiecesCrc(cfg, pieces)))
  }

  function Why(cfg: Config, p: Piece): Cause
    requires FitsRow(cfg, p.row) && !Writable(cfg, p.row)
  {
    WhyColumns(cfg, p.row, 0)
  }

  /** No struct in the records that were serialized has a member of type JSON. */
  predicate AllReadable(cfg: Config, pieces: seq<Piece>) {
    forall i | 0 <= i < |pieces| && pieces[i].whole :: FitsRow(cfg, pieces[i].row) && ReadableRow(cfg, pieces[i].row)
  }

  lemma {:induction false} PiecesBytesAppend(cfg: Config, a: seq<Piece>, b: seq<Piece>)
    requires Fit(cfg, a + b)
    ensures Fit(cfg, a) && Fit(cfg, b)
    ensures PiecesBytes(cfg, a + b) == PiecesBytes(cfg, a) + PiecesBytes(cfg, b)
    decreases |b|
  {
    hide FitsRow, Writable, PieceBytes;
    assert forall i | 0 <= i < |a| :: a[i] == (a + b)[i];
    assert forall i | 0 <= i < |b| :: b[i] == (a + b)[|a| + i];
    if b == [] {
      assert a + b == a;
    } else {
      var (init, last) := (b[..|b| - 1], b[|b| - 1]);
      assert (a + b)[..|a + b| - 1] == a + init;
      PiecesBytesAppend(cfg, a, init);
    }
  }

  lemma PackSplits(cfg: Config, pieces: seq<Piece>, i: nat)
    requires Fit(cfg, pieces) && i < |pieces| && Intact(pieces[..i]) && !pieces[i].whole
    ensures Fit(cfg, pieces[..i]) && AllWritable(cfg, Rows(pieces[..i]))
    ensures PackBytes(cfg, pieces) ==
            RecordsBytes(cfg, Rows(pieces[..i])) + (PutColumns(cfg, pieces[i].row, 0).wire + Following(cfg, pieces, i))
  {
    hide PutColumns, RecordBytes, RecordsBytes, Footer, FitsRow, Writable, PiecesBytes, PiecesCrc, Rows;
    var (front, p, back) := (pieces[..i], pieces[i], pieces[i + 1..]);
    assert pieces == front + [p] + back;
    PiecesBytesAppend(cfg, front + [p], back);
    PiecesBytesAppend(cfg, front, [p]);
    OnlyPiece(cfg, p);
    IntactBytes(cfg, front);
    Regrouped(PiecesBytes(cfg, front), PieceBytes(cfg, p), PiecesBytes(cfg, back), Footer(|Rows(pieces)|, (cfg.crc)(PiecesCrc(cfg, pieces))));
  }

  lemma Regrouped(a: seq<Byte>, b: seq<Byte>, c: seq<Byte>, d: seq<Byte>)
    ensures a + b + c + d == a + (b + (c + d))
  {
  }

  lemma OnlyPiece(cfg: Config, p: Piece)
    requires Fit(cfg, [p])
    ensures FitsRow(cfg, p.row) && PiecesBytes(cfg, [p]) == PieceBytes(cfg, p)
  {
    hide PieceBytes;
    assert [p][0] == p;
    assert [p][..0] == [];
    assert FitsRow(cfg, p.row);
    assert [] + PieceBytes(cfg, p) == PieceBytes(cfg, p);
  }

  /** A pack whose first broken record stops the reader yields the records before it and then an
      exception; all records after it are lost to the reader. */
  lemma BrokenPackStops(cfg: Config, pieces: seq<Piece>, i: nat, obj: Row)
    requires cfg.Valid() && Fit(cfg, pieces) && i < |pieces| && |obj| == |cfg.schema|
    requires Intact(pieces[..i]) && AllReadable(cfg, pieces[..i]) && !pieces[i].whole
    requires Stops(Why(cfg, pieces[i]), Following(cfg, pieces, i))
    ensures Fit(cfg, pieces[..i]) && AllWritable(cfg, Rows(pieces[..i]))
    ensures ReadAll(cfg, Fresh(PackBytes(cfg, pieces)), obj) == (NormalRows(cfg, Rows(pieces[..i])), Threw)
  {
    hide ReadAll, NormalRows, PutColumns, Stops, WhyColumns, ReadableRow, FitsRow, Writable, PackBytes, RecordsBytes, Following, Rows;
    PackSplits(cfg, pieces, i);
    IntactReadable(cfg, pieces[..i]);
    var rows := Rows(pieces[..i]);
    var tail := Following(cfg, pieces, i);
    var rest := PutColumns(cfg, pieces[i].row, 0).wire + tail;
    var rd := Fresh(PackBytes(cfg, pieces));
    ReadAllBegins(cfg, rd, obj, rows, rest);
    assert FitsRow(cfg, pieces[i].row) && |pieces[i].row| == |cfg.schema| by { FitsLength(cfg, pieces[i].row); }
    NoMore(cfg, Past(cfg, rd, rows, rest), LastRow(cfg, obj, rows), pieces[i].row, tail);
    assert NormalRows(cfg, rows) + [] == NormalRows(cfg, rows);
  }

  lemma FitsLength(cfg: Config, row: Row)
    requires FitsRow(cfg, row)
    ensures |row| == |cfg.schema|
  {
  }

  lemma NoMore(cfg: Config, rd: Reader, obj: Row, row: Row, tail: seq<Byte>)
    requires cfg.Valid() && FitsRow(cfg, row) && !Writable(cfg, row) && |obj| == |row| && !rd.gotTotal
    requires rd.rest == PutColumns(cfg, row, 0).wire + tail && Stops(WhyColumns(cfg, row, 0), tail)
    ensures ReadAll(cfg, rd, obj) == ([], Threw)
  {
    hide Advance, PutColumns, WhyColumns, Stops;
    BrokenColumns(cfg, rd, obj, {}, row, 0, tail);
  }

  lemma {:induction false} VarintIsShort(n: nat, k: nat)
    requires k > 0 && n < Pow128(k)
    ensures |Varint(n)| <= k
    decreases k
  {
    if n >= 0x80 {
      VarintIsShort(n / 0x80, k - 1);
    }
  }

  /** No footer begins with a text: its first tag, taken for a length, is far too large. */
  lemma FooterStops(c: Cause, total: nat, crc: UInt32)
    requires total < 0x8000_0000_0000_0000
    ensures Stops(c, Footer(total, crc))
  {
    TenGroupsSuffice();
    hide Varint, ReadVarint32, Pow128;
    var tag := 8 * META_TOTAL_RECORDS_TAG + VARINT;
    VarintIsShort(tag, MAX_VARINT_BYTES);
    VarintIsShort(ZigZag(total), MAX_VARINT_BYTES);
    VarintIsShort(8 * META_CHECKSUM_TAG + VARINT, MAX_VARINT_BYTES);
    VarintIsShort(crc, MAX_VARINT_BYTES);
    var rest := SInt(total) + (Tag(META_CHECKSUM_TAG, VARINT) + Varint(crc));
    assert Footer(total, crc) == Varint(tag) + rest;
    ReadVarintRoundTrip(tag, rest);
  }

  /** Where nothing more follows a broken record than the footer, or the type is to blame, a pack can
      be read to its end if and only if no record in it is broken; then it reads as its records. */
  lemma ReadsBackIfIntact(cfg: Config, pieces: seq<Piece>, obj: Row)
    requires cfg.Valid() && Fit(cfg, pieces) && |obj| == |cfg.schema| && |pieces| < 0x8000_0000_0000_0000
    requires AllReadable(cfg, pieces)
    requires forall i | 0 <= i < |pieces| && !pieces[i].whole :: Why(cfg, pieces[i]).BadType? || i == |pieces| - 1
    ensures ReadAll(cfg, Fresh(PackBytes(cfg, pieces)), obj).1.End? <==> Intact(pieces)
    ensures Intact(pieces) ==>
      AllWritable(cfg, Rows(pieces)) && ReadAll(cfg, Fresh(PackBytes(cfg, pieces)), obj).0 == NormalRows(cfg, Rows(pieces))
  {
    hide ReadAll, NormalRows, WhyColumns, ReadableRow, FitsRow, Writable, PackBytes, PiecesCrc, Footer, Rows;
    if Intact(pieces) {
      IntactReadsBack(cfg, pieces, obj);
    } else {
      var i := FirstBroken(pieces);
      FewRows(pieces);
      if i == |pieces| - 1 {
        NothingFollows(cfg, pieces);
        FooterStops(Why(cfg, pieces[i]), |Rows(pieces)|, (cfg.crc)(PiecesCrc(cfg, pieces)));
      }
      BrokenPackStops(cfg, pieces, i, obj);
    }
  }

  lemma NothingFollows(cfg: Config, pieces: seq<Piece>)
    requires Fit(cfg, pieces) && pieces != []
    ensures Following(cfg, pieces, |pieces| - 1) == Footer(|Rows(pieces)|, (cfg.crc)(PiecesCrc(cfg, pieces)))
  {
    hide Footer, PiecesCrc, Rows, FitsRow, Writable;
    assert pieces[|pieces|..] == [];
  }

  lemma {:induction false} FewRows(pieces: seq<Piece>)
    ensures |Rows(pieces)| <= |pieces|
    decreases |pieces|
  {
    if pieces != [] {
      FewRows(pieces[..|pieces| - 1]);
    }
  }

  lemma {:induction false} FirstBroken(pieces: seq<Piece>) returns (i: nat)
    requires !Intact(pieces)
    ensures i < |pieces| && Intact(pieces[..i]) && !pieces[i].whole
    decreases |pieces|
  {
    var init := pieces[..|pieces| - 1];
    if Intact(init) {
      i := |init|;
    } else {
      i := FirstBroken(init);
      assert init[..i] == pieces[..i];
    }
  }
}
