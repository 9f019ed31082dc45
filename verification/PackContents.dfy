/** What is in a pack of records, byte by byte: the records that were serialized, and what is left of
    those that could not be. */
module PackContents {
  import opened Bytes
  import opened ColumnTypes
  import opened RecordStream
  import opened RecordRoundTrip
  import opened ProtoSerializers

  /** One attempt to serialize a row. When it threw, the columns and the part of a column that went
      out before that stay in the buffer. */
  datatype Piece = Piece(row: Row, whole: bool)

  /** The rows that were serialized as a whole. */
  function Rows(pieces: seq<Piece>): seq<Row> {
    if pieces == [] then []
    else
      var last := pieces[|pieces| - 1];
      Rows(pieces[..|pieces| - 1]) + if last.whole then [last.row] else []
  }

  predicate Fit(cfg: Config, pieces: seq<Piece>) {
    forall i | 0 <= i < |pieces| :: FitsRow(cfg, pieces[i].row) && (pieces[i].whole <==> Writable(cfg, pieces[i].row))
  }

  predicate Intact(pieces: seq<Piece>) {
    forall i | 0 <= i < |pieces| :: pieces[i].whole
  }

  function PieceBytes(cfg: Config, p: Piece): seq<Byte>
    requires FitsRow(cfg, p.row)
  {
    if p.whole then RecordBytes(cfg, p.row) else PutColumns(cfg, p.row, 0).wire
  }

  function PiecesBytes(cfg: Config, pieces: seq<Piece>): seq<Byte>
    requires Fit(cfg, pieces)
  {
    if pieces == [] then []
    else PiecesBytes(cfg, pieces[..|pieces| - 1]) + PieceBytes(cfg, pieces[|pieces| - 1])
  }

  /** What the checksum of checksums has absorbed: only whole records count. */
  function PiecesCrc(cfg: Config, pieces: seq<Piece>): seq<Byte>
    requires Fit(cfg, pieces)
  {
    if pieces == [] then []
    else
      var last := pieces[|pieces| - 1];
      PiecesCrc(cfg, pieces[..|pieces| - 1]) + if last.whole then Le32(RecordCrc(cfg, last.row)) else []
  }

  /** The bytes of a completed pack. */
  function PackBytes(cfg: Config, pieces: seq<Piece>): seq<Byte>
    requires Fit(cfg, pieces)
  {
    PiecesBytes(cfg, pieces) + Footer(|Rows(pieces)|, (cfg.crc)(PiecesCrc(cfg, pieces)))
  }

  lemma OnePieceMore(cfg: Config, pieces: seq<Piece>, p: Piece)
    requires Fit(cfg, pieces) && FitsRow(cfg, p.row) && (p.whole <==> Writable(cfg, p.row))
    ensures Fit(cfg, pieces + [p])
    ensures PiecesBytes(cfg, pieces + [p]) == PiecesBytes(cfg, pieces) + PieceBytes(cfg, p)
    ensures PiecesCrc(cfg, pieces + [p]) == PiecesCrc(cfg, pieces) + if p.whole then Le32(RecordCrc(cfg, p.row)) else []
    ensures Rows(pieces + [p]) == Rows(pieces) + if p.whole then [p.row] else []
  {
    hide Writable, FitsRow, RecordCrc, LittleEndian, PieceBytes;
    assert (pieces + [p])[..|pieces|] == pieces;
  }

  lemma {:induction false} RowsAppend(a: seq<Piece>, b: seq<Piece>)
    ensures Rows(a + b) == Rows(a) + Rows(b)
    decreases |b|
  {
    if b == [] {
      assert a + b == a;
    } else {
      var (init, last) := (b[..|b| - 1], b[|b| - 1]);
      assert (a + b)[..|a + b| - 1] == a + init;
      RowsAppend(a, init);
    }
  }

  /** A pack into which no row failed to go holds the stream of its rows. */
  lemma {:induction false} IntactBytes(cfg: Config, pieces: seq<Piece>)
    requires Fit(cfg, pieces) && Intact(pieces)
    ensures AllWritable(cfg, Rows(pieces)) && |Rows(pieces)| == |pieces|
    ensures PiecesBytes(cfg, pieces) == RecordsBytes(cfg, Rows(pieces))
    ensures PiecesCrc(cfg, pieces) == CrcBytes(cfg, Rows(pieces))
    decreases |pieces|
  {
    hide Writable, RecordBytes, RecordCrc, LittleEndian;
    if pieces != [] {
      var (init, last) := (pieces[..|pieces| - 1], pieces[|pieces| - 1]);
      IntactBytes(cfg, init);
      RecordsBytesAppend(cfg, Rows(init), last.row);
    }
  }

  lemma {:induction false} IntactCount(pieces: seq<Piece>)
    requires Intact(pieces)
    ensures |Rows(pieces)| == |pieces|
    decreases |pieces|
  {
    if pieces != [] {
      IntactCount(pieces[..|pieces| - 1]);
    }
  }

  /** So it reads back as these rows, in order, and as a complete stream. */
  lemma IntactReadsBack(cfg: Config, pieces: seq<Piece>, obj: Row)
    requires cfg.Valid() && Fit(cfg, pieces) && Intact(pieces) && |obj| == |cfg.schema|
    requires |pieces| < 0x8000_0000_0000_0000 && forall i | 0 <= i < |pieces| :: ReadableRow(cfg, pieces[i].row)
    ensures AllWritable(cfg, Rows(pieces))
    ensures var (got, last) := ReadAll(cfg, Fresh(PackBytes(cfg, pieces)), obj);
      got == NormalRows(cfg, Rows(pieces)) && last.End? && last.next.total == |Rows(pieces)|
  {
    IntactBytes(cfg, pieces);
    IntactReadable(cfg, pieces);
    hide ReadAll, Footer, RecordsBytes, CrcBytes, ReadableRow, Rows, PiecesBytes, PiecesCrc;
    StreamRoundTrip(cfg, Rows(pieces), obj, []);
    assert StreamBytes(cfg, Rows(pieces)) + [] == PackBytes(cfg, pieces);
  }

  lemma {:induction false} IntactReadable(cfg: Config, pieces: seq<Piece>)
    requires Fit(cfg, pieces) && Intact(pieces) && forall i | 0 <= i < |pieces| :: ReadableRow(cfg, pieces[i].row)
    ensures AllWritable(cfg, Rows(pieces))
    ensures forall i | 0 <= i < |Rows(pieces)| :: ReadableRow(cfg, Rows(pieces)[i])
    decreases |pieces|
  {
    hide ReadableRow, Writable, FitsRow;
    if pieces != [] {
      IntactReadable(cfg, pieces[..|pieces| - 1]);
    }
  }
}
