/** What a reader returns, whatever the bytes and whoever sent them. */
module Received {
  import opened Bytes
  import opened ColumnTypes
  import opened Options
  import opened Normalize
  import opened Characters
  import opened Wire
  import opened NestedCodec
  import opened RecordStream
  import opened StreamIntegrity

  /** As many characters as declared, or for VARCHAR at most as many, where bytes that belong to no
      character count with the one before them. */
  ghost predicate HasLength(text: seq<Byte>, t: Type)
    requires t.Char? || t.Varchar?
  {
    exists cs :: AreRuns(cs) && Flatten(cs) == text && |cs| <= t.length && (t.Char? ==> |cs| == t.length)
  }

  /** A nested value as it ought to be for its type. */
  ghost predicate Proper(v: Value, t: Type)
    decreases v, 0
  {
    match t
    case TinyInt => v.IntV? && -0x80 <= v.i < 0x80
    case SmallInt => v.IntV? && -0x8000 <= v.i < 0x8000
    case Integer => v.IntV? && -0x8000_0000 <= v.i < 0x8000_0000
    case BigInt | DateTime | IntervalYearMonth => v.IntV? && -0x8000_0000_0000_0000 <= v.i < 0x8000_0000_0000_0000
    case Date => v.IntV? && v.i % (24 * 60 * 60) == 0
    case Boolean => v.BoolV?
    case Float => v.FloatV? && |v.bits| == 4
    case Double => v.FloatV? && |v.bits| == 8
    case Timestamp | TimestampNtz | IntervalDayTime => v.TimeV? && ProperTime(v.time)
    case String | Binary | Json | Decimal(_, _) => v.TextV?
    case Char(n) => v.TextV? && 1 <= n <= 255 && HasLength(v.text, t)
    case Varchar(n) => v.TextV? && 1 <= n <= 65535 && HasLength(v.text, t)
    case Array(elem) => v.ArrayV? && elem != Json && ProperCells(v.elems, elem)
    case Map(key, val) =>
      && v.MapV? && Null !in v.keys && val != Json
      && (key in {BigInt, Float, Double, String, Boolean, Timestamp, TimestampNtz})
      && ProperCells(v.keys, key) && ProperCells(v.vals, val)
    case Struct(ms) => v.StructV? && ProperMembers(v.fields, ms)
  }

  predicate ProperTime(time: TimeStamp) {
    -1_000_000_000 < time.nano < 1_000_000_000 && !(time.second > 0 && time.nano < 0) && !(time.second < 0 && time.nano > 0)
  }

  ghost predicate ProperCell(c: Cell, t: Type)
    decreases c, 1
  {
    c.Full? ==> Proper(c.v, t)
  }

  ghost predicate ProperCells(cs: seq<Cell>, t: Type)
    decreases cs, 2
  {
    forall i | 0 <= i < |cs| :: ProperCell(cs[i], t)
  }

  ghost predicate ProperMembers(cs: seq<Cell>, ms: seq<Member>)
    decreases cs, 2
  {
    |cs| == |ms| && forall i | 0 <= i < |cs| :: ms[i].ty != Json && ProperCell(cs[i], ms[i].ty)
  }

  // ---------- texts ----------

  function BlankRuns(n: nat): (cs: seq<seq<Byte>>)
    ensures |cs| == n && forall i | 0 <= i < n :: cs[i] == [0x20]
  {
    if n == 0 then [] else [[0x20]] + BlankRuns(n - 1)
  }

  lemma {:induction false} BlanksAreRuns(n: nat)
    ensures Flatten(BlankRuns(n)) == Blanks(n) && AreRuns(BlankRuns(n))
    decreases n
  {
    if n > 0 {
      BlanksAreRuns(n - 1);
      assert BlankRuns(n)[1..] == BlankRuns(n - 1);
    }
  }

  lemma RunsJoin(cs: seq<seq<Byte>>, m: nat, n: nat)
    requires AreRuns(cs) && m <= |cs|
    ensures AreRuns(cs[..m] + BlankRuns(n)) && Flatten(cs[..m] + BlankRuns(n)) == Flatten(cs[..m]) + Blanks(n)
  {
    var all := cs[..m] + BlankRuns(n);
    BlanksAreRuns(n);
    hide Flatten, BlankRuns, IsRun;
    FlattenSplits(all, m);
    assert all[..m] == cs[..m] && all[m..] == BlankRuns(n);
    assert IsRun([0x20]) by {
      SpaceIsRun();
    }
  }

  lemma SpaceIsRun()
    ensures IsRun([0x20])
  {
  }

  /** What fitting makes of a text has the declared length. */
  lemma FittedHasLength(text: seq<Byte>, t: Type, x: seq<Byte>)
    requires (t.Char? || t.Varchar?) && Fitted(text, t) == Some(x)
    ensures 1 <= t.length <= (if t.Char? then 255 else 65535) && HasLength(x, t)
  {
    hide Fitted, Flatten, AreRuns;
    var cs, rest := EveryTextIsRuns(text);
    FittedRuns(cs, rest, t);
    var m := if |cs| < t.length then |cs| else t.length;
    var n := if t.Char? then t.length - m else 0;
    RunsJoin(cs, m, n);
    assert Blanks(0) == [];
    assert x == Flatten(cs[..m] + BlankRuns(n));
  }

  /** A nested text is read if and only if one is there and can be fitted; then it is the fitted text, and
      the checksum is fed the text that is there. */
  lemma NestedTexts(t: Type, s: seq<Byte>, x: seq<Byte>, rest: seq<Byte>, fed: seq<Byte>)
    requires t.IsText()
    ensures GetValue(t, s) == Done(TextV(x), rest, fed) <==> ReadDelimited(s) == Got(fed, rest) && Fitted(fed, t) == Some(x)
  {
    hide ReadDelimited, Fitted;
  }

  // ---------- nested values ----------

  lemma WrapsInto(i: int, limit: int)
    requires limit > 0
    ensures -limit <= SignedWrap(i, limit) < limit
  {
  }

  lemma IntIsProper(t: Type, s: seq<Byte>)
    requires t.IsInt() && GetValue(t, s).Done?
    ensures Proper(GetValue(t, s).value, t)
  {
    hide ReadSInt64, SignedWrap;
    WrapsInto(ReadSInt64(s).value, IntLimit(t));
  }

  lemma TextIsProper(t: Type, s: seq<Byte>)
    requires t.IsText() && GetValue(t, s).Done?
    ensures Proper(GetValue(t, s).value, t)
  {
    hide ReadDelimited, Fitted, HasLength;
    if t.Char? || t.Varchar? {
      FittedHasLength(ReadDelimited(s).value, t, GetValue(t, s).value.text);
    }
  }

  lemma TimeIsProper(t: Type, s: seq<Byte>)
    requires t.IsTime() && GetValue(t, s).Done?
    ensures Proper(GetValue(t, s).value, t)
  {
    hide ReadSInt64, ReadSInt32, NormalTime;
    var total := ReadSInt64(s).value * 1_000_000_000 + ReadSInt32(ReadSInt64(s).rest).value;
    NormalTimeIsUnique(NormalTime(total), total);
  }

  lemma ScalarIsProper(t: Type, s: seq<Byte>)
    requires !t.IsComplex() && GetValue(t, s).Done?
    ensures Proper(GetValue(t, s).value, t)
  {
    if t.IsInt() {
      IntIsProper(t, s);
    } else if t.IsText() {
      TextIsProper(t, s);
    } else if t.IsTime() {
      TimeIsProper(t, s);
    } else {
      hide ReadFixed, ReadBool;
    }
  }

  /** Whatever the bytes: a nested value that is read is one that its type allows. */
  lemma {:induction false} ReadIsProper(t: Type, s: seq<Byte>)
    requires GetValue(t, s).Done?
    ensures Proper(GetValue(t, s).value, t)
    decreases t, 0, 0
  {
    hide GetScalar, Restored, HasLength, GetMembers, GetArray, ProperCell;
    match t
    case Array(elem) =>
      ArrayIsProper(elem, s);
    case Map(key, val) =>
      ArrayIsProper(key, s);
      ArrayIsProper(val, GetArray(key, s).rest);
    case Struct(members) =>
      MembersAreProper(members, s);
    case _ => ScalarIsProper(t, s);
  }

  lemma {:induction false} ArrayIsProper(elem: Type, s: seq<Byte>)
    requires GetArray(elem, s).Done?
    ensures elem != Json && ProperCells(GetArray(elem, s).value, elem)
    decreases elem, 3, 0
  {
    CellsAreProper(ReadVarint32(s).value, elem, ReadVarint32(s).rest);
  }

  lemma {:induction false} CellsAreProper(n: nat, t: Type, s: seq<Byte>)
    requires GetCells(n, t, s).Done?
    ensures ProperCells(GetCells(n, t, s).value, t)
    decreases t, 2, n
  {
    hide GetCell, ProperCell;
    if n > 0 {
      CellIsProper(t, s);
      CellsAreProper(n - 1, t, GetCell(t, s).rest);
    }
  }

  lemma {:induction false} CellIsProper(t: Type, s: seq<Byte>)
    requires GetCell(t, s).Done?
    ensures ProperCell(GetCell(t, s).value, t)
    decreases t, 1, 0
  {
    if !ReadBool(s).value {
      ReadIsProper(t, ReadBool(s).rest);
    }
  }

  lemma {:induction false} MembersAreProper(ms: seq<Member>, s: seq<Byte>)
    requires GetMembers(ms, s).Done?
    ensures ProperMembers(GetMembers(ms, s).value, ms)
    decreases ms, 2, 0
  {
    if ms != [] {
      CellIsProper(ms[0].ty, s);
      MembersAreProper(ms[1..], GetCell(ms[0].ty, s).rest);
    }
  }

  // ---------- rows ----------

  /** A column value as it ought to be; only nested values are narrowed and fitted. */
  ghost predicate ProperColumn(cfg: Config, c: Cell, t: Type) {
    c.Full? ==>
      match t
      case BigInt | TinyInt | SmallInt | Integer | DateTime | Date | IntervalYearMonth =>
        c.v.IntV? && -0x8000_0000_0000_0000 <= c.v.i < 0x8000_0000_0000_0000
      case String | Binary | Json | Decimal(_, _) | Char(_) | Varchar(_) => c.v.TextV? && |c.v.text| <= cfg.maxField
      case _ => Proper(c.v, t)
  }

  lemma ColumnIsProper(cfg: Config, t: Type, s: seq<Byte>)
    requires GetColumn(cfg, t, s).Done?
    ensures ProperColumn(cfg, Full(GetColumn(cfg, t, s).value), t)
  {
    hide ReadSInt64, ReadSInt32, ReadDelimited, ReadFixed, ReadBool;
    if t.IsComplex() {
      ReadIsProper(t, s);
    }
  }

  ghost predicate ProperWhere(cfg: Config, row: Row, seen: set<nat>)
    requires |row| == |cfg.schema|
  {
    forall i | 0 <= i < |row| && i in seen :: ProperColumn(cfg, row[i], cfg.schema[i])
  }

  ghost predicate ProperRow(cfg: Config, row: Row) {
    |row| == |cfg.schema| && forall i | 0 <= i < |row| :: ProperColumn(cfg, row[i], cfg.schema[i])
  }

  lemma BlankedIsProper(cfg: Config, row: Row, seen: set<nat>)
    requires |row| == |cfg.schema| && ProperWhere(cfg, row, seen)
    ensures ProperRow(cfg, Blanked(row, seen))
  {
    hide Proper;
  }

  lemma OneMoreColumn(cfg: Config, row: Row, seen: set<nat>, i: nat, c: Cell)
    requires |row| == |cfg.schema| && ProperWhere(cfg, row, seen) && i < |row| && ProperColumn(cfg, c, cfg.schema[i])
    ensures ProperWhere(cfg, row[i := c], seen + {i})
  {
    hide ProperColumn;
  }

  /** Whatever the bytes: a record that is returned has a proper value or null in every column. */
  lemma {:induction false} RecordIsProper(cfg: Config, rd: Reader, row: Row, seen: set<nat>)
    requires |row| == |cfg.schema| && !rd.gotTotal && rd.total >= 0 && ProperWhere(cfg, row, seen)
    ensures var o := Advance(cfg, rd, row, seen);
      o.Record? ==> ProperRow(cfg, o.row) && !o.next.gotTotal && o.next.total == rd.total + 1
    decreases |rd.rest|
  {
    hide ReadTag, ReadVarint32, ReadSInt64, GetColumn, ProperColumn, Blanked, Trailer;
    match ReadTag(rd.rest)
    case Failed =>
    case Got(field, rest) =>
      if field == RECORD_END_TAG {
        BlankedIsProper(cfg, row, seen);
      } else if field == META_TOTAL_RECORDS_TAG {
        match ReadSInt64(rest)
        case Failed =>
        case Got(n, rest') =>
          if n == rd.total {
            NoRecordAfterTotal(cfg, rd.(rest := rest', gotTotal := true, receivedTotal := n), row, seen);
          }
      } else if 1 <= field <= |cfg.schema| {
        match GetColumn(cfg, cfg.schema[field - 1], rest)
        case Fault =>
        case Done(v, rest', fed) =>
          ColumnIsProper(cfg, cfg.schema[field - 1], rest);
          OneMoreColumn(cfg, row, seen, field - 1, Full(v));
          RecordIsProper(cfg, rd.(rest := rest', recordFed := rd.recordFed + (Le32(field) + fed)),
                         row[field - 1 := Full(v)], seen + {field - 1});
      }
  }

  /** So are all rows of a stream. */
  lemma {:induction false} RowsAreProper(cfg: Config, rd: Reader, prior: Row)
    requires |prior| == |cfg.schema| && !rd.gotTotal && rd.total >= 0
    ensures forall row | row in ReadAll(cfg, rd, prior).0 :: ProperRow(cfg, row)
    decreases |rd.rest|
  {
    RecordIsProper(cfg, rd, prior, {});
    hide Advance, ProperRow, ProperWhere;
    match Deserialized(cfg, rd, prior)
    case Record(row, next) => RowsAreProper(cfg, next, row);
    case _ =>
  }
}
