/** Column types, the values a cell can hold, and which value fits which type. */
module ColumnTypes {
  import opened Bytes

  datatype Type =
    | BigInt | TinyInt | SmallInt | Integer
    | Double | Float | Boolean
    | DateTime | Date | IntervalYearMonth
    | Timestamp | TimestampNtz | IntervalDayTime
    | String | Binary | Json
    | Decimal(precision: Int32, scale: Int32)
    | Char(length: Int32)
    | Varchar(length: Int32)
    | Array(elem: Type)
    | Map(key: Type, val: Type)
    | Struct(members: seq<Member>)
  {
    predicate IsComplex() {
      Array? || Map? || Struct?
    }

    predicate IsInt() {
      BigInt? || TinyInt? || SmallInt? || Integer? || DateTime? || Date? || IntervalYearMonth?
    }

    predicate IsText() {
      String? || Binary? || Json? || Decimal? || Char? || Varchar?
    }

    predicate IsTime() {
      Timestamp? || TimestampNtz? || IntervalDayTime?
    }

    /** The key types for which a map can be constructed at all. */
    predicate IsMapKey() {
      BigInt? || Float? || Double? || String? || Boolean? || Timestamp? || TimestampNtz?
    }
  }

  datatype Member = Member(name: string, ty: Type)

  datatype TimeStamp = TimeStamp(second: int, nano: int)

  /** Floating-point numbers are the bytes that represent them. A map value lists its keys and its
      values in the order in which the keys were first set. */
  datatype Value =
    | IntV(i: int)
    | FloatV(bits: seq<Byte>)
    | BoolV(b: bool)
    | TextV(text: seq<Byte>)
    | TimeV(time: TimeStamp)
    | ArrayV(elems: seq<Cell>)
    | MapV(keys: seq<Cell>, vals: seq<Cell>)
    | StructV(fields: seq<Cell>)
  {
    predicate IsComplex() {
      ArrayV? || MapV? || StructV?
    }
  }

  datatype Cell = Null | Full(v: Value)

  const NANOS_PER_SECOND := 1_000_000_000
  const SECONDS_PER_DAY := 86400

  /** Values of an integer column lie in [-IntLimit, IntLimit). */
  function IntLimit(t: Type): (n: int)
    requires t.IsInt()
    ensures 0 < n <= 0x8000_0000_0000_0000
  {
    match t
    case TinyInt => 0x80
    case SmallInt => 0x8000
    case Integer => 0x8000_0000
    case _ => 0x8000_0000_0000_0000
  }
}
