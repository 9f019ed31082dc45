/** The nested encoding is self-delimiting and both sides checksum the same bytes. */
module NestedRoundTrip {
  import opened Bytes
  import opened ColumnTypes
  import opened Options
  import opened Normalize
  import opened Wire
  import opened NestedCodec

  // ---------- what comes back ----------

  function NormalCell(c: Cell, t: Type): Cell
    requires FitsCell(c, t)
    decreases c, 1
  {
    if c.Null? then Null else Full(NormalValue(c.v, t))
  }

  function NormalCells(cs: seq<Cell>, t: Type): seq<Cell>
    requires FitsCells(cs, t)
    decreases cs, 2
  {
    if cs == [] then [] else [NormalCell(cs[0], t)] + NormalCells(cs[1..], t)
  }

  function NormalMembers(cs: seq<Cell>, ms: seq<Member>): seq<Cell>
    requires FitsMembers(cs, ms)
    decreases cs, 2
  {
    if cs == [] then [] else [NormalCell(cs[0], ms[0].ty)] + NormalMembers(cs[1..], ms[1..])
  }

  /** Nested dates lose the part of a day, CHAR and VARCHAR text is fitted, all else is kept. */
  function NormalValue(v: Value, t: Type): Value
    requires Fits(v, t)
    decreases v, 0
  {
    match v
    case IntV(i) => if t.Date? then IntV(TruncDiv(i, SECONDS_PER_DAY) * SECONDS_PER_DAY) else v
    case TextV(text) => if Fitted(text, t).Some? then TextV(Fitted(text, t).value) else v
    case ArrayV(elems) => ArrayV(NormalCells(elems, t.elem))
    case MapV(keys, vals) => MapV(NormalCells(keys, t.key), NormalCells(vals, t.val))
    case StructV(fields) => StructV(NormalMembers(fields, t.members))
    case _ => v
  }

  /** No struct in the value has a member of type JSON. */
  predicate Readable(v: Value, t: Type)
    requires Fits(v, t)
    decreases v, 0
  {
    match v
    case ArrayV(elems) => ReadableCells(elems, t.elem)
    case MapV(keys, vals) => ReadableCells(vals, t.val)
    case StructV(fields) => ReadableMembers(fields, t.members)
    case _ => true
  }

  predicate ReadableCell(c: Cell, t: Type)
    requires FitsCell(c, t)
    decreases c, 1
  {
    c.Full? ==> Readable(c.v, t)
  }

  predicate ReadableCells(cs: seq<Cell>, t: Type)
    requires FitsCells(cs, t)
    decreases cs, 2
  {
    forall i | 0 <= i < |cs| :: ReadableCell(cs[i], t)
  }

  predicate ReadableMembers(cs: seq<Cell>, ms: seq<Member>)
    requires FitsMembers(cs, ms)
    decreases cs, 2
  {
    forall i | 0 <= i < |cs| :: !ms[i].ty.Json? && ReadableCell(cs[i], ms[i].ty)
  }

  // ---------- scalars ----------

  lemma ScalarRoundTrip(v: Value, t: Type, rest: seq<Byte>)
    requires FitsScalar(v, t)
    ensures GetScalar(t, PutScalar(v).wire + rest) == Done(v, rest, PutScalar(v).fed)
  {
    hide ReadSInt64, ReadFixed, ReadBool, ReadDelimited, SInt, Delimited, LittleEndian;
    match v
    case IntV(i) => ReadSInt64RoundTrip(i, rest);
    case FloatV(bits) => ReadFixedRoundTrip(bits, rest);
    case BoolV(b) => ReadBoolRoundTrip(b, rest);
    case TextV(text) => ReadDelimitedRoundTrip(text, rest);
    case TimeV(time) => TimeRoundTrip(time, t, rest);
  }

  lemma TimeRoundTrip(time: TimeStamp, t: Type, rest: seq<Byte>)
    requires FitsTime(time) && t.IsTime()
    ensures GetScalar(t, PutScalar(TimeV(time)).wire + rest) == Done(TimeV(time), rest, PutScalar(TimeV(time)).fed)
  {
    hide ReadSInt64, ReadSInt32, SInt, LittleEndian, NormalTime;
    var tail := SInt(time.nano) + rest;
    assert PutScalar(TimeV(time)).wire + rest == SInt(time.second) + tail;
    ReadSInt64RoundTrip(time.second, tail);
    ReadSInt32RoundTrip(time.nano, rest);
    NormalTimeIsUnique(time, TotalNanos(time));
  }

  lemma PreparedThenRestored(v: Value, t: Type)
    requires Fits(v, t) && !t.IsComplex() && Prepared(v, t).Some?
    ensures FitsScalar(Prepared(v, t).value, t)
    ensures Restored(Prepared(v, t).value, t) == Some(NormalValue(v, t))
  {
    match v
    case TextV(text) => FittedIsIdempotent(text, t);
    case _ =>
  }

  // ---------- the mutual induction ----------

  lemma ThenAssoc(a: Emit, b: Emit, rest: seq<Byte>)
    requires Then(a, b).ok
    ensures a.ok && b.ok && Then(a, b).fed == a.fed + b.fed
    ensures Then(a, b).wire + rest == a.wire + (b.wire + rest)
  {
  }

  lemma {:induction false} ValueRoundTrip(v: Value, t: Type, rest: seq<Byte>)
    requires Fits(v, t) && PutValue(v, t).ok
    ensures GetValue(t, PutValue(v, t).wire + rest) ==
            if Readable(v, t) then Done(NormalValue(v, t), rest, PutValue(v, t).fed) else Fault
    decreases v, 0
  {
    hide PutArray, PutMembers, GetArray, GetMembers, NormalCells, NormalMembers, ReadableCells, ReadableMembers;
    hide GetScalar, PutScalar, Prepared, Restored, Fitted, FitsCells, FitsMembers, FitsTime;
    match v
    case ArrayV(elems) => ArrayRoundTrip(elems, t.elem, rest);
    case MapV(keys, vals) => MapRoundTrip(v, t, rest);
    case StructV(fields) => MembersRoundTrip(fields, t.members, rest);
    case _ => NestedScalarRoundTrip(v, t, rest);
  }

  lemma NestedScalarRoundTrip(v: Value, t: Type, rest: seq<Byte>)
    requires Fits(v, t) && !t.IsComplex() && PutValue(v, t).ok
    ensures GetValue(t, PutValue(v, t).wire + rest) == Done(NormalValue(v, t), rest, PutValue(v, t).fed)
  {
    PreparedThenRestored(v, t);
    ScalarRoundTrip(Prepared(v, t).value, t, rest);
  }

  lemma {:induction false} MapRoundTrip(v: Value, t: Type, rest: seq<Byte>)
    requires v.MapV? && Fits(v, t) && PutValue(v, t).ok
    ensures GetValue(t, PutValue(v, t).wire + rest) ==
            if Readable(v, t) then Done(NormalValue(v, t), rest, PutValue(v, t).fed) else Fault
    decreases v, 0, 0
  {
    var (a, b) := (PutArray(v.keys, t.key), PutArray(v.vals, t.val));
    ThenAssoc(a, b, rest);
    ArrayRoundTrip(v.keys, t.key, b.wire + rest);
    ArrayRoundTrip(v.vals, t.val, rest);
    KeysReadable(v.keys, t.key);
    NoNullAmongNormal(v.keys, t.key);
  }

  lemma KeysReadable(keys: seq<Cell>, t: Type)
    requires FitsCells(keys, t) && t.IsMapKey()
    ensures ReadableCells(keys, t)
  {
    forall i | 0 <= i < |keys|
      ensures ReadableCell(keys[i], t)
    {
      if keys[i].Full? {
        assert Fits(keys[i].v, t);
      }
    }
  }

  lemma {:induction false} NoNullAmongNormal(cs: seq<Cell>, t: Type)
    requires FitsCells(cs, t) && Null !in cs
    ensures Null !in NormalCells(cs, t)
    decreases |cs|
  {
    if cs != [] {
      NoNullAmongNormal(cs[1..], t);
    }
  }

  lemma {:induction false} CellRoundTrip(c: Cell, t: Type, rest: seq<Byte>)
    requires FitsCell(c, t) && PutCell(c, t).ok
    ensures GetCell(t, PutCell(c, t).wire + rest) ==
            if ReadableCell(c, t) then Done(NormalCell(c, t), rest, PutCell(c, t).fed) else Fault
    decreases c, 1
  {
    hide GetValue, PutValue, NormalValue, Readable, ReadBool, Fits;
    if c.Null? {
      ReadBoolRoundTrip(true, rest);
    } else {
      var e := PutValue(c.v, t);
      ThenAssoc(Sent(Bool(false), []), e, rest);
      ReadBoolRoundTrip(false, e.wire + rest);
      ValueRoundTrip(c.v, t, rest);
    }
  }

  lemma HeadAndTail(cs: seq<Cell>, t: Type)
    requires FitsCells(cs, t) && cs != []
    ensures FitsCell(cs[0], t) && FitsCells(cs[1..], t)
    ensures ReadableCells(cs, t) <==> ReadableCell(cs[0], t) && ReadableCells(cs[1..], t)
    ensures PutCells(cs, t) == Then(PutCell(cs[0], t), PutCells(cs[1..], t))
    ensures NormalCells(cs, t) == [NormalCell(cs[0], t)] + NormalCells(cs[1..], t)
  {
    hide ReadableCell, FitsCell, PutCell, NormalCell;
    assert cs == [cs[0]] + cs[1..];
  }

  lemma GetCellsStep(n: nat, t: Type, s: seq<Byte>)
    requires n > 0
    ensures GetCells(n, t, s) ==
            match GetCell(t, s)
            case Fault => Fault
            case Done(c, rest, fed) =>
              match GetCells(n - 1, t, rest)
              case Fault => Fault
              case Done(cs, rest', fed') => Done([c] + cs, rest', fed + fed')
  {
    hide GetCell;
  }

  lemma {:induction false} CellsRoundTrip(cs: seq<Cell>, t: Type, rest: seq<Byte>)
    requires FitsCells(cs, t) && PutCells(cs, t).ok
    ensures GetCells(|cs|, t, PutCells(cs, t).wire + rest) ==
            if ReadableCells(cs, t) then Done(NormalCells(cs, t), rest, PutCells(cs, t).fed) else Fault
    decreases cs, 2
  {
    if cs == [] {
      assert [] + rest == rest;
    } else {
      hide *;
      HeadAndTail(cs, t);
      var (a, b) := (PutCell(cs[0], t), PutCells(cs[1..], t));
      ThenAssoc(a, b, rest);
      GetCellsStep(|cs|, t, PutCells(cs, t).wire + rest);
      CellRoundTrip(cs[0], t, b.wire + rest);
      CellsRoundTrip(cs[1..], t, rest);
    }
  }

  lemma {:induction false} ArrayRoundTrip(cs: seq<Cell>, elem: Type, rest: seq<Byte>)
    requires FitsCells(cs, elem) && |cs| < TWO_32 && PutArray(cs, elem).ok
    ensures GetArray(elem, PutArray(cs, elem).wire + rest) ==
            if ReadableCells(cs, elem) then Done(NormalCells(cs, elem), rest, PutArray(cs, elem).fed) else Fault
    decreases cs, 3
  {
    hide Varint, PutCells, GetCells, NormalCells, FitsCells, ReadableCells;
    var e := PutCells(cs, elem);
    ThenAssoc(Sent(Varint(|cs|), []), e, rest);
    ReadVarintRoundTrip(|cs|, e.wire + rest);
    CellsRoundTrip(cs, elem, rest);
  }

  lemma {:induction false} MembersRoundTrip(cs: seq<Cell>, ms: seq<Member>, rest: seq<Byte>)
    requires FitsMembers(cs, ms) && PutMembers(cs, ms).ok
    ensures GetMembers(ms, PutMembers(cs, ms).wire + rest) ==
            if ReadableMembers(cs, ms) then Done(NormalMembers(cs, ms), rest, PutMembers(cs, ms).fed) else Fault
    decreases cs, 2
  {
    hide GetCell, PutCell, ReadableCell, NormalCell, FitsCell;
    if cs != [] && !ms[0].ty.Json? {
      var (a, b) := (PutCell(cs[0], ms[0].ty), PutMembers(cs[1..], ms[1..]));
      ThenAssoc(a, b, rest);
      CellRoundTrip(cs[0], ms[0].ty, b.wire + rest);
      MembersRoundTrip(cs[1..], ms[1..], rest);
      assert ReadableMembers(cs, ms) <==> ReadableCell(cs[0], ms[0].ty) && ReadableMembers(cs[1..], ms[1..]);
    }
  }

  // ---------- when writing succeeds, and what is lost ----------

  /** Every CHAR and VARCHAR text has a valid declared length and can be cut into characters, and no
      array, map or present struct member is of type JSON. */
  predicate Accepted(v: Value, t: Type)
    requires Fits(v, t)
    decreases v, 0
  {
    match v
    case TextV(text) => Fitted(text, t).Some?
    case ArrayV(elems) => !t.elem.Json? && AcceptedCells(elems, t.elem)
    case MapV(keys, vals) => AcceptedCells(keys, t.key) && !t.val.Json? && AcceptedCells(vals, t.val)
    case StructV(fields) => AcceptedMembers(fields, t.members)
    case _ => true
  }

  predicate AcceptedCell(c: Cell, t: Type)
    requires FitsCell(c, t)
    decreases c, 1
  {
    c.Full? ==> Accepted(c.v, t)
  }

  predicate AcceptedCells(cs: seq<Cell>, t: Type)
    requires FitsCells(cs, t)
    decreases cs, 2
  {
    forall i | 0 <= i < |cs| :: AcceptedCell(cs[i], t)
  }

  predicate AcceptedMembers(cs: seq<Cell>, ms: seq<Member>)
    requires FitsMembers(cs, ms)
    decreases cs, 2
  {
    forall i | 0 <= i < |cs| :: (cs[i].Full? ==> !ms[i].ty.Json?) && AcceptedCell(cs[i], ms[i].ty)
  }

  lemma {:induction false} WriteSucceedsIfAccepted(v: Value, t: Type)
    requires Fits(v, t)
    ensures PutValue(v, t).ok <==> Accepted(v, t)
    decreases v, 0
  {
    hide PutScalar, Fitted, PutCells;
    match v
    case ArrayV(elems) => CellsSucceedIfAccepted(elems, t.elem);
    case MapV(keys, vals) =>
      CellsSucceedIfAccepted(keys, t.key);
      CellsSucceedIfAccepted(vals, t.val);
    case StructV(fields) => MembersSucceedIfAccepted(fields, t.members);
    case _ =>
  }

  lemma {:induction false} CellSucceedsIfAccepted(c: Cell, t: Type)
    requires FitsCell(c, t)
    ensures PutCell(c, t).ok <==> AcceptedCell(c, t)
    decreases c, 1
  {
    if c.Full? {
      WriteSucceedsIfAccepted(c.v, t);
    }
  }

  lemma {:induction false} CellsSucceedIfAccepted(cs: seq<Cell>, t: Type)
    requires FitsCells(cs, t)
    ensures PutCells(cs, t).ok <==> AcceptedCells(cs, t)
    decreases cs, 2
  {
    if cs != [] {
      hide PutCell, PutCells, FitsCell, FitsCells, AcceptedCell;
      HeadAndTail(cs, t);
      CellSucceedsIfAccepted(cs[0], t);
      CellsSucceedIfAccepted(cs[1..], t);
      assert cs == [cs[0]] + cs[1..];
    }
  }

  lemma {:induction false} MembersSucceedIfAccepted(cs: seq<Cell>, ms: seq<Member>)
    requires FitsMembers(cs, ms)
    ensures PutMembers(cs, ms).ok <==> AcceptedMembers(cs, ms)
    decreases cs, 2
  {
    if cs != [] {
      hide PutCell, FitsCell, AcceptedCell;
      CellSucceedsIfAccepted(cs[0], ms[0].ty);
      MembersSucceedIfAccepted(cs[1..], ms[1..]);
      assert cs == [cs[0]] + cs[1..] && ms == [ms[0]] + ms[1..];
    }
  }

  /** The smallest value that is written without complaint and cannot be read: a struct whose only
      member is JSON and null. */
  lemma NullJsonMemberIsUnreadable(name: string, rest: seq<Byte>)
    ensures var (v, t) := (StructV([Null]), Struct([Member(name, Json)]));
            Fits(v, t) && PutValue(v, t).ok && GetValue(t, PutValue(v, t).wire + rest) == Fault
  {
    var (v, t) := (StructV([Null]), Struct([Member(name, Json)]));
    WriteSucceedsIfAccepted(v, t);
    ValueRoundTrip(v, t, rest);
    assert !ReadableMembers(v.fields, t.members) by {
      assert t.members[0].ty.Json?;
    }
  }

  /** A nested date, held in seconds, comes back exactly when it is a whole number of days. */
  lemma NestedDateIsKept(i: Int64)
    ensures NormalValue(IntV(i), Date) == IntV(i) <==> i % SECONDS_PER_DAY == 0
  {
    var days := TruncDiv(i, SECONDS_PER_DAY);
    assert i % SECONDS_PER_DAY == 0 ==> i == i / SECONDS_PER_DAY * SECONDS_PER_DAY;
  }
}
