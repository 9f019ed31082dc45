/** The record writer as it runs: output and checksum registers grow in place. */
module ProtoSerializers {
  import opened Bytes
  import opened ColumnTypes
  import opened Options
  import opened Normalize
  import opened Wire
  import opened NestedCodec
  import opened RecordStream

  lemma ThenAssociative(a: Emit, b: Emit, c: Emit)
    ensures Then(a, Then(b, c)) == Then(Then(a, b), c)
    ensures Then(a, NOTHING) == a
  {
  }

  lemma PutCellsStep(cs: seq<Cell>, i: nat, t: Type, done: Emit)
    requires FitsCells(cs, t) && i < |cs|
    ensures Then(done, PutCells(cs[i..], t)) == Then(Then(done, PutCell(cs[i], t)), PutCells(cs[i + 1..], t))
  {
    hide PutCell, FitsCell;
    assert cs[i..][1..] == cs[i + 1..];
    ThenAssociative(done, PutCell(cs[i], t), PutCells(cs[i + 1..], t));
  }

  /** Two writes in a row are one write. */
  lemma ThenAppends(a: Emit, b: Emit, wire: seq<Byte>, fed: seq<Byte>)
    requires a.ok
    ensures wire + a.wire + b.wire == wire + Then(a, b).wire && fed + a.fed + b.fed == fed + Then(a, b).fed
  {
  }

  lemma {:induction false} RecordsBytesAppend(cfg: Config, rows: seq<Row>, row: Row)
    requires AllWritable(cfg, rows) && Writable(cfg, row)
    ensures AllWritable(cfg, rows + [row])
    ensures RecordsBytes(cfg, rows + [row]) == RecordsBytes(cfg, rows) + RecordBytes(cfg, row)
    ensures CrcBytes(cfg, rows + [row]) == CrcBytes(cfg, rows) + Le32(RecordCrc(cfg, row))
    decreases |rows|
  {
    hide Writable, RecordBytes, RecordCrc, LittleEndian;
    if rows == [] {
      assert rows + [row] == [row] && [row][1..] == [];
    } else {
      assert (rows + [row])[1..] == rows[1..] + [row];
      RecordsBytesAppend(cfg, rows[1..], row);
    }
  }

  class ProtoSerializer {
    const cfg: Config
    var out: seq<Byte>
    var mRecordCrc: seq<Byte>
    var mCrcCrc: seq<Byte>
    var mTotalRecords: nat

    constructor (cfg: Config)
      ensures this.cfg == cfg && out == [] && mRecordCrc == [] && mCrcCrc == [] && mTotalRecords == 0
      ensures Holds([])
    {
      this.cfg := cfg;
      out, mRecordCrc, mCrcCrc, mTotalRecords := [], [], [], 0;
    }

    /** Puts a new writer in place of this one. */
    method Renew()
      modifies this
      ensures out == [] && mRecordCrc == [] && mCrcCrc == [] && mTotalRecords == 0
      ensures Holds([])
    {
      out, mRecordCrc, mCrcCrc, mTotalRecords := [], [], [], 0;
    }

    /** Exactly these rows have been serialized so far, none of them in vain. */
    ghost predicate Holds(rows: seq<Row>)
      reads this
    {
      && AllWritable(cfg, rows) && mTotalRecords == |rows|
      && out == RecordsBytes(cfg, rows) && mCrcCrc == CrcBytes(cfg, rows)
    }

    /** The bytes of `e` went out, its checksum bytes were absorbed, and `ok` tells whether it threw. */
    twostate predicate Wrote(e: Emit, ok: bool)
      reads this
    {
      out == old(out) + e.wire && mRecordCrc == old(mRecordCrc) + e.fed && ok == e.ok
    }

    method Put(wire: seq<Byte>, fed: seq<Byte>)
      modifies this`out, this`mRecordCrc
      ensures Wrote(Sent(wire, fed), true)
    {
      out, mRecordCrc := out + wire, mRecordCrc + fed;
    }

    method WriteNestedScalar(v: Value, t: Type) returns (ok: bool)
      requires Fits(v, t) && !v.IsComplex()
      modifies this`out, this`mRecordCrc
      ensures Wrote(PutValue(v, t), ok)
    {
      hide Fitted, SInt, Delimited, LittleEndian, TruncDiv, IsNormalTime;
      if t.Date? {
        var days := TruncDiv(v.i, SECONDS_PER_DAY);
        Put(SInt(days), Le64(days));
      } else if v.TextV? {
        var text := TrimOrPadding(v.text, t);
        if text.None? {
          return false;
        }
        Put(Delimited(text.value), text.value);
      } else {
        Put(PutScalar(v).wire, PutScalar(v).fed);
      }
      ok := true;
    }

    /** The null flag and then the value; only called for values that are there. */
    method WriteNestedValue(v: Value, t: Type) returns (ok: bool)
      requires Fits(v, t)
      modifies this`out, this`mRecordCrc
      ensures Wrote(PutCell(Full(v), t), ok)
      decreases v, 1
    {
      hide PutValue;
      Put(Bool(false), []);
      if v.IsComplex() {
        ok := WriteComplexValue(v, t);
      } else {
        ok := WriteNestedScalar(v, t);
      }
      ThenAppends(Sent(Bool(false), []), PutValue(v, t), old(out), old(mRecordCrc));
    }

    method WriteArray(cs: seq<Cell>, elem: Type) returns (ok: bool)
      requires FitsCells(cs, elem)
      modifies this`out, this`mRecordCrc
      ensures Wrote(PutArray(cs, elem), ok)
      decreases cs, 4
    {
      hide PutCells, Varint;
      Put(Varint(|cs|), []);
      if elem.Json? {
        return false;
      }
      ok := WriteElements(cs, elem);
      ThenAppends(Sent(Varint(|cs|), []), PutCells(cs, elem), old(out), old(mRecordCrc));
    }

    method WriteElements(cs: seq<Cell>, elem: Type) returns (ok: bool)
      requires FitsCells(cs, elem)
      modifies this`out, this`mRecordCrc
      ensures Wrote(PutCells(cs, elem), ok)
      decreases cs, 3
    {
      hide PutCell, FitsCell;
      ghost var done := NOTHING;
      var i := 0;
      while i < |cs|
        invariant 0 <= i <= |cs|
        invariant Wrote(done, true) && done.ok
        invariant PutCells(cs, elem) == Then(done, PutCells(cs[i..], elem))
      {
        ghost var next := PutCell(cs[i], elem);
        PutCellsStep(cs, i, elem, done);
        ok := WriteElement(cs[i], elem);
        ThenAppends(done, next, old(out), old(mRecordCrc));
        if !ok {
          return;
        }
        done := Then(done, next);
        i := i + 1;
      }
      ok := true;
    }

    method WriteElement(c: Cell, t: Type) returns (ok: bool)
      requires FitsCell(c, t)
      modifies this`out, this`mRecordCrc
      ensures Wrote(PutCell(c, t), ok)
      decreases c, 1
    {
      if c.Null? {
        Put(Bool(true), []);
        ok := true;
      } else {
        ok := WriteNestedValue(c.v, t);
      }
    }

    method WriteStruct(cs: seq<Cell>, ms: seq<Member>) returns (ok: bool)
      requires FitsMembers(cs, ms)
      modifies this`out, this`mRecordCrc
      ensures Wrote(PutMembers(cs, ms), ok)
      decreases cs, 3
    {
      hide PutCell, Fits;
      ghost var done := NOTHING;
      var i := 0;
      while i < |cs|
        invariant 0 <= i <= |cs|
        invariant Wrote(done, true) && done.ok
        invariant PutMembers(cs, ms) == Then(done, PutMembers(cs[i..], ms[i..]))
      {
        assert cs[i..][1..] == cs[i + 1..] && ms[i..][1..] == ms[i + 1..];
        if cs[i].Full? && ms[i].ty.Json? {
          return false;
        }
        ghost var next, rest := PutCell(cs[i], ms[i].ty), PutMembers(cs[i + 1..], ms[i + 1..]);
        ThenAssociative(done, next, rest);
        ok := WriteElement(cs[i], ms[i].ty);
        ThenAppends(done, next, old(out), old(mRecordCrc));
        if !ok {
          return;
        }
        done := Then(done, next);
        i := i + 1;
      }
      ok := true;
    }

    method WriteComplexValue(v: Value, t: Type) returns (ok: bool)
      requires v.IsComplex() && Fits(v, t)
      modifies this`out, this`mRecordCrc
      ensures Wrote(PutValue(v, t), ok)
      decreases v, 0
    {
      hide PutArray, PutMembers, FitsCells, FitsMembers;
      match v
      case ArrayV(elems) => ok := WriteArray(elems, t.elem);
      case MapV(keys, vals) =>
        ok := WriteArray(keys, t.key);
        if ok {
          ok := WriteArray(vals, t.val);
          ThenAppends(PutArray(keys, t.key), PutArray(vals, t.val), old(out), old(mRecordCrc));
        }
      case StructV(fields) => ok := WriteStruct(fields, t.members);
    }

    method WriteCell(index: nat, c: Cell, t: Type) returns (ok: bool)
      requires FitsCell(c, t)
      modifies this`out, this`mRecordCrc
      ensures Wrote(PutColumn(index, c, t), ok)
    {
      hide PutScalar, PutValue, Tag, LittleEndian;
      if c.Null? {
        return true;
      }
      Put(Tag(index, WireTypeOf(t)), Le32(index));
      if c.v.IsComplex() {
        ok := WriteComplexValue(c.v, t);
      } else {
        Put(PutScalar(c.v).wire, PutScalar(c.v).fed);
        ok := true;
      }
      ThenAppends(Sent(Tag(index, WireTypeOf(t)), Le32(index)),
                    if c.v.IsComplex() then PutValue(c.v, t) else PutScalar(c.v), old(out), old(mRecordCrc));
    }

    /** Sends one record; when it throws, what was sent so far stays sent and the record is not
        counted. */
    method Serialize(row: Row) returns (ok: bool)
      requires FitsRow(cfg, row)
      modifies this
      ensures ok <==> Writable(cfg, row)
      ensures ok ==> && out == old(out) + RecordBytes(cfg, row)
                     && mCrcCrc == old(mCrcCrc) + Le32(RecordCrc(cfg, row)) && mTotalRecords == old(mTotalRecords) + 1
      ensures !ok ==> && out == old(out) + PutColumns(cfg, row, 0).wire
                      && mCrcCrc == old(mCrcCrc) && mTotalRecords == old(mTotalRecords)
      ensures forall rows | ok && old(Holds(rows)) :: Holds(rows + [row])
    {
      hide PutColumn, RecordEnd, LittleEndian, FitsCell;
      mRecordCrc := [];
      ghost var done := NOTHING;
      var i := 0;
      while i < |row|
        invariant 0 <= i <= |row|
        invariant done.ok && out == old(out) + done.wire && mRecordCrc == [] + done.fed
        invariant PutColumns(cfg, row, 0) == Then(done, PutColumns(cfg, row, i))
        invariant mCrcCrc == old(mCrcCrc) && mTotalRecords == old(mTotalRecords)
      {
        ghost var next := PutColumn(i + 1, row[i], cfg.schema[i]);
        ThenAssociative(done, next, PutColumns(cfg, row, i + 1));
        ok := WriteCell(i + 1, row[i], cfg.schema[i]);
        ThenAppends(done, next, old(out), []);
        if !ok {
          return;
        }
        done := Then(done, next);
        i := i + 1;
      }
      ThenAssociative(done, NOTHING, NOTHING);
      assert [] + done.fed == done.fed;
      var crc := (cfg.crc)(mRecordCrc);
      assert old(out) + done.wire + RecordEnd(crc) == old(out) + (done.wire + RecordEnd(crc));
      mCrcCrc := mCrcCrc + Le32(crc);
      out := out + RecordEnd(crc);
      mTotalRecords := mTotalRecords + 1;
      ok := true;
      forall rows | old(Holds(rows))
        ensures Holds(rows + [row])
      {
        RecordsBytesAppend(cfg, rows, row);
      }
    }

    method Complete()
      modifies this
      ensures out == old(out) + Footer(mTotalRecords, (cfg.crc)(mCrcCrc))
      ensures mCrcCrc == old(mCrcCrc) && mTotalRecords == old(mTotalRecords)
      ensures forall rows | old(Holds(rows)) :: out == StreamBytes(cfg, rows)
    {
      var crc := (cfg.crc)(mCrcCrc);
      out := out + (Tag(META_TOTAL_RECORDS_TAG, VARINT) + SInt(mTotalRecords));
      out := out + (Tag(META_CHECKSUM_TAG, VARINT) + Varint(crc));
    }
  }
}
