/** How a column value is laid out on the wire, what of it enters the record checksum, and how it is
    read back. Arrays, maps and structs nest to any depth. */
module NestedCodec {
  import opened Bytes
  import opened ColumnTypes
  import opened Options
  import opened Normalize
  import opened Wire

  /** What a write has done so far: the bytes sent, the bytes fed to the record checksum, and
      whether it went through or threw after them. */
  datatype Emit = Emit(wire: seq<Byte>, fed: seq<Byte>, ok: bool)

  const NOTHING: Emit := Emit([], [], true)
  const THROW: Emit := Emit([], [], false)

  function Then(a: Emit, b: Emit): Emit {
    if a.ok then Emit(a.wire + b.wire, a.fed + b.fed, b.ok) else a
  }

  function Sent(wire: seq<Byte>, fed: seq<Byte>): Emit {
    Emit(wire, fed, true)
  }

  /** A value read, the bytes left over and the bytes the reader fed to its checksum; or an
      exception. */
  datatype Read<+T> = Done(value: T, rest: seq<Byte>, fed: seq<Byte>) | Fault

  // ---------- which values belong to which type ----------

  predicate FitsCell(c: Cell, t: Type)
    decreases c, 1
  {
    c.Full? ==> Fits(c.v, t)
  }

  predicate FitsCells(cs: seq<Cell>, t: Type)
    decreases cs, 2
  {
    forall i | 0 <= i < |cs| :: FitsCell(cs[i], t)
  }

  predicate FitsMembers(cs: seq<Cell>, ms: seq<Member>)
    decreases cs, 2
  {
    |cs| == |ms| && forall i | 0 <= i < |cs| :: FitsCell(cs[i], ms[i].ty)
  }

  predicate Fits(v: Value, t: Type)
    decreases v, 0
  {
    match v
    case ArrayV(elems) => t.Array? && |elems| < TWO_32 && FitsCells(elems, t.elem)
    case MapV(keys, vals) =>
      && t.Map? && t.key.IsMapKey() && |keys| < TWO_32 && |vals| < TWO_32
      && FitsCells(keys, t.key) && FitsCells(vals, t.val) && Null !in keys
    case StructV(fields) => t.Struct? && FitsMembers(fields, t.members)
    case TextV(text) => FitsScalar(v, t) && (t.Char? ==> |text| <= MAX_STRING - 255)
    case _ => FitsScalar(v, t)
  }

  /** The padding of a CHAR still has to fit what a length prefix can say, hence the margin above. */
  predicate FitsScalar(v: Value, t: Type) {
    match v
    case IntV(i) => t.IsInt() && -IntLimit(t) <= i < IntLimit(t)
    case FloatV(bits) => (t.Float? && |bits| == 4) || (t.Double? && |bits| == 8)
    case BoolV(_) => t.Boolean?
    case TextV(text) => t.IsText() && |text| <= MAX_STRING
    case TimeV(time) => t.IsTime() && FitsTime(time)
    case _ => false
  }

  predicate FitsTime(time: TimeStamp) {
    IsNormalTime(time) && -0x8000_0000_0000_0000 <= time.second < 0x8000_0000_0000_0000
  }

  // ---------- scalars ----------

  /** Scalars as they are, with no adjustment. */
  function PutScalar(v: Value): (e: Emit)
    requires !v.IsComplex()
    ensures e.ok
  {
    match v
    case IntV(i) => Sent(SInt(i), Le64(i))
    case FloatV(bits) => Sent(bits, bits)
    case BoolV(b) => Sent(Bool(b), Bool(b))
    case TextV(text) => Sent(Delimited(text), text)
    case TimeV(time) => Sent(SInt(time.second) + SInt(time.nano), Le64(time.second) + Le32(time.nano))
  }

  function GetScalar(t: Type, s: seq<Byte>): (r: Read<Value>)
    requires !t.IsComplex()
    ensures r.Done? ==> |r.rest| < |s|
  {
    if t.IsInt() then
      match ReadSInt64(s)
      case Failed => Fault
      case Got(i, rest) => Done(IntV(i), rest, Le64(i))
    else if t.Float? || t.Double? then
      match ReadFixed(s, if t.Float? then 4 else 8)
      case Failed => Fault
      case Got(bits, rest) => Done(FloatV(bits), rest, bits)
    else if t.Boolean? then
      match ReadBool(s)
      case Failed => Fault
      case Got(b, rest) => Done(BoolV(b), rest, Bool(b))
    else if t.IsText() then
      match ReadDelimited(s)
      case Failed => Fault
      case Got(text, rest) => Done(TextV(text), rest, text)
    else
      match ReadSInt64(s)
      case Failed => Fault
      case Got(second, rest) =>
        match ReadSInt32(rest)
        case Failed => Fault
        case Got(nano, rest') =>
          Done(TimeV(NormalTime(second * NANOS_PER_SECOND + nano)), rest', Le64(second) + Le32(nano))
  }

  /** The adjustment a nested scalar undergoes before it is sent; none when that throws. */
  function Prepared(v: Value, t: Type): Option<Value> {
    if t.Date? && v.IntV? then Some(IntV(TruncDiv(v.i, SECONDS_PER_DAY)))
    else if v.TextV? then
      match Fitted(v.text, t)
      case None => None
      case Some(text) => Some(TextV(text))
    else Some(v)
  }

  function SignedWrap(i: int, limit: int): int
    requires limit > 0
  {
    if -limit <= i < limit then i else (i + limit) % (2 * limit) - limit
  }

  /** The adjustment after a nested scalar is received: narrowing of the small integers, days back
      to seconds, fitting of CHAR and VARCHAR. */
  function Restored(v: Value, t: Type): Option<Value> {
    if t.Date? && v.IntV? then Some(IntV(v.i * SECONDS_PER_DAY))
    else if v.IntV? && t.IsInt() then Some(IntV(SignedWrap(v.i, IntLimit(t))))
    else if v.TextV? then
      match Fitted(v.text, t)
      case None => None
      case Some(text) => Some(TextV(text))
    else Some(v)
  }

  // ---------- writing ----------

  function PutCells(cs: seq<Cell>, t: Type): Emit
    requires FitsCells(cs, t)
    decreases cs, 2
  {
    if cs == [] then NOTHING
    else Then(PutCell(cs[0], t), PutCells(cs[1..], t))
  }

  /** An array element or non-null struct member, after its null flag. */
  function PutCell(c: Cell, t: Type): Emit
    requires FitsCell(c, t)
    decreases c, 1
  {
    if c.Null? then Sent(Bool(true), [])
    else Then(Sent(Bool(false), []), PutValue(c.v, t))
  }

  function PutArray(cs: seq<Cell>, elem: Type): Emit
    requires FitsCells(cs, elem)
    decreases cs, 3
  {
    Then(Sent(Varint(|cs|), []), if elem.Json? then THROW else PutCells(cs, elem))
  }

  /** A JSON member is refused, but only when it is present. */
  function PutMembers(cs: seq<Cell>, ms: seq<Member>): Emit
    requires FitsMembers(cs, ms)
    decreases cs, 2
  {
    if cs == [] then NOTHING
    else Then(if cs[0].Full? && ms[0].ty.Json? then THROW else PutCell(cs[0], ms[0].ty),
              PutMembers(cs[1..], ms[1..]))
  }

  function PutValue(v: Value, t: Type): Emit
    requires Fits(v, t)
    decreases v, 0
  {
    match v
    case ArrayV(elems) => PutArray(elems, t.elem)
    case MapV(keys, vals) => Then(PutArray(keys, t.key), PutArray(vals, t.val))
    case StructV(fields) => PutMembers(fields, t.members)
    case _ =>
      match Prepared(v, t)
      case None => THROW
      case Some(p) => PutScalar(p)
  }

  // ---------- reading ----------

  function GetCells(n: nat, t: Type, s: seq<Byte>): (r: Read<seq<Cell>>)
    ensures r.Done? ==> |r.rest| <= |s|
    decreases t, 2, n
  {
    if n == 0 then Done([], s, [])
    else
      match GetCell(t, s)
      case Fault => Fault
      case Done(c, rest, fed) =>
        match GetCells(n - 1, t, rest)
        case Fault => Fault
        case Done(cs, rest', fed') => Done([c] + cs, rest', fed + fed')
  }

  function GetCell(t: Type, s: seq<Byte>): (r: Read<Cell>)
    ensures r.Done? ==> |r.rest| <= |s|
    decreases t, 1, 0
  {
    match ReadBool(s)
    case Failed => Fault
    case Got(isNull, rest) =>
      if isNull then Done(Null, rest, [])
      else
        match GetValue(t, rest)
        case Fault => Fault
        case Done(v, rest', fed) => Done(Full(v), rest', fed)
  }

  function GetArray(elem: Type, s: seq<Byte>): (r: Read<seq<Cell>>)
    ensures r.Done? ==> |r.rest| <= |s|
    decreases elem, 3, 0
  {
    match ReadVarint32(s)
    case Failed => Fault
    case Got(n, rest) => if elem.Json? then Fault else GetCells(n, elem, rest)
  }

  /** A JSON member is refused even when it is absent. */
  function GetMembers(ms: seq<Member>, s: seq<Byte>): (r: Read<seq<Cell>>)
    ensures r.Done? ==> |r.rest| <= |s|
    decreases ms, 2, 0
  {
    if ms == [] then Done([], s, [])
    else if ms[0].ty.Json? then Fault
    else
      match GetCell(ms[0].ty, s)
      case Fault => Fault
      case Done(c, rest, fed) =>
        match GetMembers(ms[1..], rest)
        case Fault => Fault
        case Done(cs, rest', fed') => Done([c] + cs, rest', fed + fed')
  }

  function GetValue(t: Type, s: seq<Byte>): (r: Read<Value>)
    ensures r.Done? ==> |r.rest| <= |s|
    decreases t, 0, 0
  {
    match t
    case Array(elem) =>
      (match GetArray(elem, s)
       case Fault => Fault
       case Done(elems, rest, fed) => Done(ArrayV(elems), rest, fed))
    case Map(key, val) =>
      if !key.IsMapKey() then Fault
      else
        (match GetArray(key, s)
         case Fault => Fault
         case Done(keys, rest, fed) =>
           match GetArray(val, rest)
           case Fault => Fault
           case Done(vals, rest', fed') =>
             if Null in keys then Fault else Done(MapV(keys, vals), rest', fed + fed'))
    case Struct(members) =>
      (match GetMembers(members, s)
       case Fault => Fault
       case Done(fields, rest, fed) => Done(StructV(fields), rest, fed))
    case _ =>
      match GetScalar(t, s)
      case Fault => Fault
      case Done(v, rest, fed) =>
        match Restored(v, t)
        case None => Fault
        case Some(r) => Done(r, rest, fed)
  }
}
