/** Arrays of nullable values of one type. */
module OdpsArrays {
  import opened Options

  /** The codes of the column types. */
  type ColumnType = n: int | -1 <= n <= 21

  datatype Access<+V> = Got(value: V) | WrongType | NullValue | NoSuchKey

  class ODPSArray<V(==)> {
    const elementType: ColumnType
    var mNullArray: seq<bool>
    /** Once set, a value stays stored under a null flag. */
    var mArray: seq<Option<V>>

    predicate Valid()
      reads this
    {
      |mNullArray| == |mArray| && forall i | 0 <= i < |mArray| :: !mNullArray[i] ==> mArray[i].Some?
    }

    function Size(): nat
      reads this
    {
      |mArray|
    }

    function Contents(): (c: seq<Option<V>>)
      requires Valid()
      reads this
      ensures |c| == Size()
    {
      seq(|mArray|, i requires 0 <= i < |mArray| && Valid() reads this => if mNullArray[i] then None else mArray[i])
    }

    constructor (elementType: ColumnType)
      ensures Valid() && Contents() == [] && this.elementType == elementType
    {
      this.elementType, mNullArray, mArray := elementType, [], [];
    }

    method Append(v: V, op: ColumnType) returns (ok: bool)
      requires Valid()
      modifies this
      ensures Valid() && ok == (op == elementType)
      ensures Contents() == if ok then old(Contents()) + [Some(v)] else old(Contents())
    {
      ok := op == elementType;
      if ok {
        mArray, mNullArray := mArray + [Some(v)], mNullArray + [false];
      }
    }

    method AppendNull()
      requires Valid()
      modifies this
      ensures Valid() && Contents() == old(Contents()) + [None]
    {
      mNullArray, mArray := mNullArray + [true], mArray + [None];
    }

    method SetNull(i: nat)
      requires Valid() && i < Size()
      modifies this
      ensures Valid() && Contents() == old(Contents())[i := None]
    {
      mNullArray := mNullArray[i := true];
    }

    method Rewrite(i: nat, op: ColumnType, v: V) returns (ok: bool)
      requires Valid() && i < Size()
      modifies this
      ensures Valid() && ok == (op == elementType)
      ensures Contents() == if ok then old(Contents())[i := Some(v)] else old(Contents())
    {
      ok := op == elementType;
      if ok {
        mNullArray, mArray := mNullArray[i := false], mArray[i := Some(v)];
      }
    }

    method Access(i: nat, op: ColumnType) returns (r: Access<V>)
      requires Valid() && i < Size()
      ensures r == if op != elementType then WrongType
                   else if Contents()[i].None? then NullValue else Got(Contents()[i].value)
    {
      if op != elementType {
        return WrongType;
      }
      r := if mNullArray[i] then NullValue else Got(mArray[i].value);
    }
  }
}
