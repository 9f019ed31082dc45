/** The record reader as it runs: it consumes its input and fills a record object in place. */
module ProtoDeserializers {
  import opened Bytes
  import opened ColumnTypes
  import opened Options
  import opened Normalize
  import opened Wire
  import opened NestedCodec
  import opened RecordStream
  import opened StreamIntegrity

  function Prefixed(cs: seq<Cell>, fed: seq<Byte>, r: Read<seq<Cell>>): Read<seq<Cell>> {
    match r
    case Fault => Fault
    case Done(cs', rest, fed') => Done(cs + cs', rest, fed + fed')
  }

  lemma PrefixedEnds(cs: seq<Cell>, fed: seq<Byte>, rest: seq<Byte>, r: Read<seq<Cell>>)
    ensures Prefixed(cs, fed, Done([], rest, [])) == Done(cs, rest, fed)
    ensures Prefixed([], [], r) == r
  {
    assert cs + [] == cs && fed + [] == fed;
    if r.Done? {
      assert [] + r.value == r.value && [] + r.fed == r.fed;
    }
  }

  lemma PrefixedStep(cs: seq<Cell>, fed: seq<Byte>, c: Read<Cell>, whole: Read<seq<Cell>>, more: Read<seq<Cell>>)
    requires c.Done? ==> whole == Prefixed([c.value], c.fed, more)
    ensures c.Done? ==> Prefixed(cs, fed, whole) == Prefixed(cs + [c.value], fed + c.fed, more)
  {
    if c.Done? && more.Done? {
      assert cs + ([c.value] + more.value) == cs + [c.value] + more.value;
      assert fed + (c.fed + more.fed) == fed + c.fed + more.fed;
    }
  }

  /** The caller's record object, which may be used for one row after another. */
  class TableRecord {
    var cells: Row

    constructor (columns: nat)
      ensures cells == seq(columns, _ => Null)
    {
      cells := seq(columns, _ => Null);
    }
  }

  datatype Status = GotRecord | AtEnd | Exception

  class ProtoDeserializer {
    const cfg: Config
    var input: seq<Byte>
    var mRecordCrc: seq<Byte>
    var mCrcCrc: seq<Byte>
    var mTotalRecords: int
    var mNullMap: set<nat>
    var mGotTotalRecords: bool
    var mGotMetrics: bool
    var mReceivedTotalRecords: int
    var mReceivedChecksum: UInt32

    constructor (cfg: Config, input: seq<Byte>)
      requires cfg.Valid()
      ensures this.cfg == cfg && State() == Fresh(input)
    {
      this.cfg := cfg;
      this.input := input;
      mRecordCrc, mCrcCrc, mTotalRecords, mNullMap := [], [], 0, {};
      mGotTotalRecords, mGotMetrics := false, false;
      mReceivedTotalRecords, mReceivedChecksum := -1, 0xFFFF_FFFF;
    }

    function State(): Reader
      reads this
    {
      Reader(input, mRecordCrc, mCrcCrc, mTotalRecords, mGotTotalRecords, mGotMetrics,
             mReceivedTotalRecords, mReceivedChecksum)
    }

    /** The input moved on and the checksum absorbed bytes as `r` says; nothing is promised about
        them once an exception was thrown. */
    predicate Took<T(==)>(r: Read<T>, got: Option<T>, fedBefore: seq<Byte>)
      reads this
    {
      match r
      case Fault => got.None?
      case Done(v, rest, fed) => got == Some(v) && input == rest && mRecordCrc == fedBefore + fed
    }

    /** Moves past what was read and has the checksum absorb `fed`. */
    method Consume(rest: seq<Byte>, fed: seq<Byte>)
      modifies this`input, this`mRecordCrc
      ensures input == rest && mRecordCrc == old(mRecordCrc) + fed
    {
      input, mRecordCrc := rest, mRecordCrc + fed;
    }

    /** One value of a type that is neither array, map nor struct. */
    method ReadScalar(t: Type) returns (got: Option<Value>)
      requires !t.IsComplex()
      modifies this`input, this`mRecordCrc
      ensures Took(GetScalar(t, old(input)), got, old(mRecordCrc))
    {
      hide ReadSInt64, ReadFixed, ReadBool, ReadDelimited, ReadSInt32, LittleEndian, NormalTime;
      got := None;
      if t.IsInt() {
        var i := ReadSInt64(input);
        if i.Got? {
          Consume(i.rest, Le64(i.value));
          got := Some(IntV(i.value));
        }
      } else if t.IsText() {
        var text := ReadDelimited(input);
        if text.Got? {
          Consume(text.rest, text.value);
          got := Some(TextV(text.value));
        }
      } else if t.Boolean? {
        var b := ReadBool(input);
        if b.Got? {
          Consume(b.rest, Bool(b.value));
          got := Some(BoolV(b.value));
        }
      } else if t.IsTime() {
        got := ReadTime();
      } else {
        var bits := ReadFixed(input, if t.Double? then 8 else 4);
        if bits.Got? {
          Consume(bits.rest, bits.value);
          got := Some(FloatV(bits.value));
        }
      }
    }

    /** Seconds and nanoseconds; the checksum absorbs both once both are there. */
    method ReadTime() returns (got: Option<Value>)
      modifies this`input, this`mRecordCrc
      ensures Took(GetScalar(Timestamp, old(input)), got, old(mRecordCrc))
    {
      hide ReadSInt64, ReadSInt32, LittleEndian, NormalTime;
      var second := ReadSInt64(input);
      if second.Failed? {
        return None;
      }
      var nano := ReadSInt32(second.rest);
      if nano.Failed? {
        return None;
      }
      Consume(nano.rest, Le64(second.value) + Le32(nano.value));
      var time := NewTimeStamp(second.value, nano.value);
      got := Some(TimeV(time));
    }

    method ReadNestedScalar(t: Type) returns (got: Option<Value>)
      requires !t.IsComplex()
      modifies this`input, this`mRecordCrc
      ensures Took(GetValue(t, old(input)), got, old(mRecordCrc))
    {
      hide GetScalar, Fitted;
      got := ReadScalar(t);
      if got.None? {
        return;
      }
      var v := got.value;
      if v.IntV? && t.Date? {
        got := Some(IntV(v.i * SECONDS_PER_DAY));
      } else if v.IntV? && t.IsInt() {
        got := Some(IntV(SignedWrap(v.i, IntLimit(t))));
      } else if v.TextV? {
        var text := TrimOrPadding(v.text, t);
        got := if text.None? then None else Some(TextV(text.value));
      }
    }

    method ReadNestedValue(t: Type) returns (got: Option<Cell>)
      modifies this`input, this`mRecordCrc
      ensures Took(GetCell(t, old(input)), got, old(mRecordCrc))
      decreases t, 1
    {
      hide GetValue, ReadBool;
      var flag := ReadBool(input);
      if flag.Failed? {
        return None;
      }
      input := flag.rest;
      if flag.value {
        assert mRecordCrc == old(mRecordCrc) + [];
        return Some(Null);
      }
      var v;
      if t.IsComplex() {
        v := ReadComplexValue(t);
      } else {
        v := ReadNestedScalar(t);
      }
      got := if v.None? then None else Some(Full(v.value));
    }

    method ReadArray(elem: Type) returns (got: Option<seq<Cell>>)
      modifies this`input, this`mRecordCrc
      ensures Took(GetArray(elem, old(input)), got, old(mRecordCrc))
      decreases elem, 3
    {
      hide GetCells, ReadVarint32;
      var length := ReadVarint32(input);
      if length.Failed? || elem.Json? {
        return None;
      }
      input := length.rest;
      got := ReadElements(length.value, elem);
    }

    method ReadElements(length: nat, elem: Type) returns (got: Option<seq<Cell>>)
      modifies this`input, this`mRecordCrc
      ensures Took(GetCells(length, elem, old(input)), got, old(mRecordCrc))
      decreases elem, 2
    {
      hide GetCell;
      var cs: seq<Cell> := [];
      ghost var fed: seq<Byte> := [];
      var i := 0;
      PrefixedEnds([], [], input, GetCells(length, elem, input));
      while i < length
        invariant 0 <= i <= length
        invariant mRecordCrc == old(mRecordCrc) + fed
        invariant GetCells(length, elem, old(input)) == Prefixed(cs, fed, GetCells(length - i, elem, input))
      {
        ghost var before := input;
        PrefixedStep(cs, fed, GetCell(elem, input), GetCells(length - i, elem, input),
                     if GetCell(elem, input).Done? then GetCells(length - i - 1, elem, GetCell(elem, input).rest) else Fault);
        var c := ReadNestedValue(elem);
        if c.None? {
          return None;
        }
        fed := fed + GetCell(elem, before).fed;
        cs := cs + [c.value];
        i := i + 1;
      }
      PrefixedEnds(cs, fed, input, Fault);
      got := Some(cs);
    }

    method ReadStruct(ms: seq<Member>) returns (got: Option<seq<Cell>>)
      modifies this`input, this`mRecordCrc
      ensures Took(GetMembers(ms, old(input)), got, old(mRecordCrc))
      decreases ms, 2
    {
      hide GetCell;
      var cs: seq<Cell> := [];
      ghost var fed: seq<Byte> := [];
      var i := 0;
      PrefixedEnds([], [], input, GetMembers(ms, input));
      assert ms[0..] == ms;
      while i < |ms|
        invariant 0 <= i <= |ms|
        invariant mRecordCrc == old(mRecordCrc) + fed
        invariant GetMembers(ms, old(input)) == Prefixed(cs, fed, GetMembers(ms[i..], input))
      {
        if ms[i].ty.Json? {
          return None;
        }
        ghost var before := input;
        assert ms[i..][1..] == ms[i + 1..];
        PrefixedStep(cs, fed, GetCell(ms[i].ty, input), GetMembers(ms[i..], input),
                     if GetCell(ms[i].ty, input).Done? then GetMembers(ms[i + 1..], GetCell(ms[i].ty, input).rest) else Fault);
        var c := ReadNestedValue(ms[i].ty);
        if c.None? {
          return None;
        }
        fed := fed + GetCell(ms[i].ty, before).fed;
        cs := cs + [c.value];
        i := i + 1;
      }
      PrefixedEnds(cs, fed, input, Fault);
      got := Some(cs);
    }

    method ReadComplexValue(t: Type) returns (got: Option<Value>)
      requires t.IsComplex()
      modifies this`input, this`mRecordCrc
      ensures Took(GetValue(t, old(input)), got, old(mRecordCrc))
      decreases t, 0
    {
      hide GetArray, GetMembers;
      match t
      case Array(elem) =>
        var elems := ReadArray(elem);
        got := if elems.None? then None else Some(ArrayV(elems.value));
      case Map(key, val) =>
        if !key.IsMapKey() {
          return None;
        }
        var keys := ReadArray(key);
        if keys.None? {
          return None;
        }
        ghost var fed := GetArray(key, old(input)).fed;
        var vals := ReadArray(val);
        if vals.None? || Null in keys.value {
          return None;
        }
        assert old(mRecordCrc) + fed + GetArray(val, GetArray(key, old(input)).rest).fed ==
               old(mRecordCrc) + (fed + GetArray(val, GetArray(key, old(input)).rest).fed);
        got := Some(MapV(keys.value, vals.value));
      case Struct(members) =>
        var fields := ReadStruct(members);
        got := if fields.None? then None else Some(StructV(fields.value));
    }

    /** One value of a column into the record object; false when an exception is thrown. */
    method ReadColumn(r: TableRecord, idx: nat) returns (ok: bool)
      requires |r.cells| == |cfg.schema| && idx < |cfg.schema|
      modifies this`input, this`mRecordCrc, r
      ensures match GetColumn(cfg, cfg.schema[idx], old(input))
              case Fault => !ok
              case Done(v, rest, fed) =>
                ok && input == rest && mRecordCrc == old(mRecordCrc) + fed && r.cells == old(r.cells)[idx := Full(v)]
    {
      hide GetScalar, GetValue;
      var t := cfg.schema[idx];
      var v;
      if t.IsComplex() {
        v := ReadComplexValue(t);
      } else {
        v := ReadScalar(t);
      }
      if v.None? || (v.value.TextV? && !t.IsComplex() && |v.value.text| > cfg.maxField) {
        return false;
      }
      r.cells := r.cells[idx := Full(v.value)];
      ok := true;
    }

    /** The next record into `r`, or the end of the stream. */
    method Deserialize(r: TableRecord) returns (status: Status)
      requires |r.cells| == |cfg.schema|
      modifies this, r
      ensures match Deserialized(cfg, old(State()), old(r.cells))
              case Record(row, next) => status == GotRecord && r.cells == row && State() == next
              case End(next) => status == AtEnd && State() == next
              case Threw => status == Exception
    {
      hide GetColumn, ReadTag, ReadVarint32, ReadSInt64, ReadDelimited, LittleEndian, Blanked;
      mNullMap := {};
      while true
        invariant |r.cells| == |cfg.schema|
        invariant Advance(cfg, State(), r.cells, mNullMap) == Deserialized(cfg, old(State()), old(r.cells))
        decreases |input|
      {
        var tag := ReadTag(input);
        if tag.Failed? {
          return Exception;
        }
        var field := tag.value;
        if mGotTotalRecords {
          status := ReadTrailer(field, tag.rest, r.cells);
          if status != GotRecord {
            return;
          }
        } else if field == RECORD_END_TAG {
          var ok := EndRecord(r, tag.rest);
          return if ok then GotRecord else Exception;
        } else if field == META_TOTAL_RECORDS_TAG {
          mGotTotalRecords := true;
          var total := ReadSInt64(tag.rest);
          if total.Failed? {
            return Exception;
          }
          input, mReceivedTotalRecords := total.rest, total.value;
          if mReceivedTotalRecords != mTotalRecords {
            return Exception;
          }
        } else {
          if field < 1 || field > |cfg.schema| {
            return Exception;
          }
          var ok := ReadEntry(r, field, tag.rest);
          if !ok {
            return Exception;
          }
        }
      }
    }

    /** What a field number is followed by: the value of that column. */
    method ReadEntry(r: TableRecord, field: nat, rest: seq<Byte>) returns (ok: bool)
      requires |r.cells| == |cfg.schema| && 1 <= field <= |cfg.schema|
      modifies this, r
      ensures match GetColumn(cfg, cfg.schema[field - 1], rest)
              case Fault => !ok
              case Done(v, rest', fed) =>
                && ok && r.cells == old(r.cells)[field - 1 := Full(v)] && mNullMap == old(mNullMap) + {field - 1}
                && State() == old(State()).(rest := rest', recordFed := old(State()).recordFed + (Le32(field) + fed))
    {
      hide GetColumn, LittleEndian;
      ghost var before := mRecordCrc;
      input, mRecordCrc := rest, mRecordCrc + Le32(field);
      mNullMap := mNullMap + {field - 1};
      ok := ReadColumn(r, field - 1);
      ghost var fed := if ok then GetColumn(cfg, cfg.schema[field - 1], rest).fed else [];
      assert before + Le32(field) + fed == before + (Le32(field) + fed);
    }

    /** What the tag at the end of a record is followed by: the checksum of the record. */
    method EndRecord(r: TableRecord, rest: seq<Byte>) returns (ok: bool)
      requires |r.cells| == |cfg.schema|
      modifies this, r
      ensures var crc := ReadVarint32(rest);
              && (ok <==> crc.Got? && crc.value == (cfg.crc)(old(mRecordCrc)))
              && (ok ==> && r.cells == Blanked(old(r.cells), old(mNullMap))
                         && State() == old(State()).(rest := crc.rest, recordFed := [], total := old(mTotalRecords) + 1,
                                                     crcFed := old(mCrcCrc) + Le32(crc.value)))
    {
      hide ReadVarint32, LittleEndian, Blanked;
      var crc := ReadVarint32(rest);
      if crc.Failed? || crc.value != (cfg.crc)(mRecordCrc) {
        return false;
      }
      FillNulls(r);
      mTotalRecords := mTotalRecords + 1;
      mCrcCrc := mCrcCrc + Le32(crc.value);
      input, mRecordCrc := crc.rest, [];
      ok := true;
    }

    /** Columns without a value in this record become null. */
    method FillNulls(r: TableRecord)
      modifies r
      ensures r.cells == Blanked(old(r.cells), mNullMap)
    {
      var i := 0;
      while i < |r.cells|
        invariant 0 <= i <= |r.cells| == |old(r.cells)|
        invariant forall k | 0 <= k < i :: r.cells[k] == Blanked(old(r.cells), mNullMap)[k]
        invariant forall k | i <= k < |r.cells| :: r.cells[k] == old(r.cells)[k]
      {
        if i !in mNullMap {
          r.cells := r.cells[i := Null];
        }
        i := i + 1;
      }
    }

    /** What follows the total: `GotRecord` stands for going on to the next tag. */
    method ReadTrailer(field: nat, rest: seq<Byte>, ghost row: Row) returns (status: Status)
      requires |rest| < |input| && |row| == |cfg.schema|
      modifies this
      ensures mNullMap == old(mNullMap)
      ensures match status
              case GotRecord =>
                && |input| < |old(input)| && mGotTotalRecords == old(mGotTotalRecords)
                && Trailer(cfg, old(State()), row, mNullMap, field, rest) == Advance(cfg, State(), row, mNullMap)
              case AtEnd => Trailer(cfg, old(State()), row, mNullMap, field, rest) == End(State())
              case Exception => Trailer(cfg, old(State()), row, mNullMap, field, rest) == Threw
    {
      hide ReadVarint32, ReadDelimited, LittleEndian, Advance;
      if field == METRICS_TAG && !mGotMetrics {
        var metrics := ReadDelimited(rest);
        if metrics.Failed? {
          return Exception;
        }
        mRecordCrc := mRecordCrc + (Le32(METRICS_TAG) + metrics.value);
        if metrics.value != [] && !(cfg.metricsParse)(metrics.value) {
          return Exception;
        }
        input, mGotMetrics := metrics.rest, true;
        return GotRecord;
      } else if field == METRICS_END_TAG {
        var crc := ReadVarint32(rest);
        if !mGotMetrics || crc.Failed? || crc.value != (cfg.crc)(mRecordCrc) {
          return Exception;
        }
        input := crc.rest;
        return GotRecord;
      } else if field == META_CHECKSUM_TAG {
        var crc := ReadVarint32(rest);
        if crc.Failed? {
          return Exception;
        }
        mReceivedChecksum := crc.value;
        if crc.value != (cfg.crc)(mCrcCrc) {
          return Exception;
        }
        input := crc.rest;
        return AtEnd;
      }
      return Exception;
    }

    predicate Completed()
      reads this
    {
      IsCompleted(cfg, State())
    }
  }
}
