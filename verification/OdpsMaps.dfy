/** Maps that keep their values in an array and remember where each key's value is. */
module OdpsMaps {
  import opened Options
  import opened OdpsArrays

  // ---------- the index ----------

  /** The index is a bijection between the keys and the places in `keys`. */
  predicate Indexes<K(==)>(index: map<K, nat>, keys: seq<K>) {
    && (forall i | 0 <= i < |keys| :: keys[i] in index && index[keys[i]] == i)
    && (forall k <- index :: index[k] < |keys| && keys[index[k]] == k)
  }

  lemma {:induction false} IndexSize<K>(index: map<K, nat>, keys: seq<K>)
    requires Indexes(index, keys)
    ensures |index| == |keys| && forall i, j | 0 <= i < j < |keys| :: keys[i] != keys[j]
    decreases |keys|
  {
    if keys == [] {
      assert index == map[];
    } else {
      var (last, rest) := (keys[|keys| - 1], keys[..|keys| - 1]);
      var smaller := index - {last};
      IndexSize(smaller, rest);
      assert index.Keys == smaller.Keys + {last};
      assert |index| == |index.Keys| && |smaller| == |smaller.Keys|;
    }
  }

  /** The index after `indexMap[key] = i` for one key after the other. */
  function Indexed<K(==)>(index: map<K, nat>, keys: seq<K>): map<K, nat> {
    if keys == [] then index else Indexed(index, keys[..|keys| - 1])[keys[|keys| - 1] := |keys| - 1]
  }

  lemma IndexedStep<K>(index: map<K, nat>, keys: seq<K>, k: K)
    ensures Indexed(index, keys + [k]) == Indexed(index, keys)[k := |keys|]
  {
    assert (keys + [k])[..|keys|] == keys;
  }

  predicate Distinct<K(==)>(keys: seq<K>) {
    forall i, j | 0 <= i < j < |keys| :: keys[i] != keys[j]
  }

  lemma {:induction false} LastOneStays<K>(keys: seq<K>)
    ensures Indexed(map[], keys).Keys == set k <- keys
    ensures forall k <- keys :: var i := Indexed(map[], keys)[k];
      i < |keys| && keys[i] == k && forall j | i < j < |keys| :: keys[j] != k
    decreases |keys|
  {
    if keys != [] {
      LastOneStays(keys[..|keys| - 1]);
      assert keys == keys[..|keys| - 1] + [keys[|keys| - 1]];
    }
  }

  /** Only a list without repeated keys gives back the places of its keys. */
  lemma RecoveredIndex<K>(keys: seq<K>)
    ensures Indexes(Indexed(map[], keys), keys) <==> Distinct(keys)
  {
    LastOneStays(keys);
    var index := Indexed(map[], keys);
    if Indexes(index, keys) {
      IndexSize(index, keys);
    }
    if Distinct(keys) {
      forall i | 0 <= i < |keys|
        ensures keys[i] in index && index[keys[i]] == i
      {
        assert keys[i] in keys;
      }
    }
  }

  // ---------- sorting by place ----------

  datatype Place<K> = Place(at: nat, key: K)

  predicate Ascending<K>(pairs: seq<Place<K>>) {
    forall i | 0 < i < |pairs| :: pairs[i - 1].at < pairs[i].at
  }

  function Inserted<K>(pairs: seq<Place<K>>, p: Place<K>): seq<Place<K>> {
    if pairs == [] || p.at < pairs[0].at then [p] + pairs else [pairs[0]] + Inserted(pairs[1..], p)
  }

  lemma {:induction false} InsertedHas<K>(pairs: seq<Place<K>>, p: Place<K>)
    ensures |Inserted(pairs, p)| == |pairs| + 1
    ensures multiset(Inserted(pairs, p)) == multiset(pairs) + multiset{p}
    decreases |pairs|
  {
    if pairs != [] && p.at >= pairs[0].at {
      InsertedHas(pairs[1..], p);
      assert pairs == [pairs[0]] + pairs[1..];
    }
  }

  lemma {:induction false} InsertedIsAscending<K>(pairs: seq<Place<K>>, p: Place<K>)
    requires Ascending(pairs) && forall q <- pairs :: q.at != p.at
    ensures Ascending(Inserted(pairs, p))
    decreases |pairs|
  {
    if pairs != [] && p.at >= pairs[0].at {
      assert pairs[0] in pairs;
      InsertedIsAscending(pairs[1..], p);
      var more := Inserted(pairs[1..], p);
      assert more[0] == p || (|pairs| > 1 && more[0] == pairs[1]);
    }
  }

  /** Ascending places below their number are 0, 1, 2 and so on. */
  lemma {:induction false} PlacesAreCounted<K>(pairs: seq<Place<K>>, i: nat)
    requires Ascending(pairs) && i < |pairs| && forall p <- pairs :: p.at < |pairs|
    ensures pairs[i].at == i
  {
    AtLeast(pairs, i);
    AtMost(pairs, i);
  }

  lemma {:induction false} AtLeast<K>(pairs: seq<Place<K>>, i: nat)
    requires Ascending(pairs) && i < |pairs|
    ensures pairs[i].at >= i
    decreases i
  {
    if i > 0 {
      AtLeast(pairs, i - 1);
    }
  }

  lemma {:induction false} AtMost<K>(pairs: seq<Place<K>>, i: nat)
    requires Ascending(pairs) && i < |pairs| && forall p <- pairs :: p.at < |pairs|
    ensures pairs[i].at <= i
    decreases |pairs| - i
  {
    if i + 1 < |pairs| {
      AtMost(pairs, i + 1);
    } else {
      assert pairs[i] in pairs;
    }
  }

  // ---------- the map ----------

  function Somes<K>(keys: seq<K>): (s: seq<Option<K>>)
    ensures |s| == |keys| && forall i | 0 <= i < |keys| :: s[i] == Some(keys[i])
  {
    seq(|keys|, i requires 0 <= i < |keys| => Some(keys[i]))
  }

  class ODPSMap<K(==), V(==)> {
    const keyType: ColumnType
    const valueType: ColumnType
    var mKeyToArrayIndexMap: map<K, nat>
    var mUnderlyingArray: ODPSArray<V>
    /** The keys in the order in which they were first set. */
    ghost var keys: seq<K>

    ghost predicate Valid()
      reads this, mUnderlyingArray
    {
      && mUnderlyingArray.Valid() && mUnderlyingArray.elementType == valueType
      && |keys| == mUnderlyingArray.Size() && Indexes(mKeyToArrayIndexMap, keys)
    }

    /** The map as its user sees it: a key may have the null value. */
    ghost function Abstract(): map<K, Option<V>>
      requires Valid()
      reads this, mUnderlyingArray
    {
      map k | k in mKeyToArrayIndexMap :: mUnderlyingArray.Contents()[mKeyToArrayIndexMap[k]]
    }

    constructor (keyType: ColumnType, valueType: ColumnType)
      ensures Valid() && Abstract() == map[] && keys == [] && fresh(mUnderlyingArray)
      ensures this.keyType == keyType && this.valueType == valueType
    {
      this.keyType, this.valueType := keyType, valueType;
      mKeyToArrayIndexMap, keys := map[], [];
      mUnderlyingArray := new ODPSArray(valueType);
    }

    method Size() returns (n: nat)
      requires Valid()
      ensures n == |Abstract()| == |keys|
    {
      n := mUnderlyingArray.Size();
      IndexSize(mKeyToArrayIndexMap, keys);
      assert Abstract().Keys == mKeyToArrayIndexMap.Keys;
      assert |Abstract()| == |Abstract().Keys| && |mKeyToArrayIndexMap| == |mKeyToArrayIndexMap.Keys|;
    }

    method Contains(k: K) returns (r: bool)
      requires Valid()
      ensures r <==> k in Abstract()
    {
      r := k in mKeyToArrayIndexMap;
    }

    method ContainsAndNotNull(k: K) returns (r: bool)
      requires Valid()
      ensures r <==> k in Abstract() && Abstract()[k].Some?
    {
      r := k in mKeyToArrayIndexMap && !mUnderlyingArray.mNullArray[mKeyToArrayIndexMap[k]];
    }

    method Get(k: K, op: ColumnType) returns (r: Access<V>)
      requires Valid()
      ensures r == if k !in Abstract() then NoSuchKey
                   else if op != valueType then WrongType
                   else if Abstract()[k].None? then NullValue else Got(Abstract()[k].value)
    {
      if k !in mKeyToArrayIndexMap {
        return NoSuchKey;
      }
      r := mUnderlyingArray.Access(mKeyToArrayIndexMap[k], op);
    }

    method FindIndexOrAppend(k: K) returns (i: nat)
      requires Valid()
      modifies this`mKeyToArrayIndexMap, this`keys, mUnderlyingArray
      ensures Valid() && i < |keys| && keys[i] == k
      ensures keys == if k in old(Abstract()) then old(keys) else old(keys) + [k]
      ensures Abstract() == if k in old(Abstract()) then old(Abstract()) else old(Abstract())[k := None]
    {
      if k in mKeyToArrayIndexMap {
        return mKeyToArrayIndexMap[k];
      }
      i := mUnderlyingArray.Size();
      mUnderlyingArray.AppendNull();
      mKeyToArrayIndexMap := mKeyToArrayIndexMap[k := i];
      keys := keys + [k];
    }

    /** Setting a value of the wrong type throws, but only after a new key has been put in. */
    method Set(k: K, op: ColumnType, v: V) returns (ok: bool)
      requires Valid()
      modifies this`mKeyToArrayIndexMap, this`keys, mUnderlyingArray
      ensures Valid() && ok == (op == valueType)
      ensures keys == if k in old(Abstract()) then old(keys) else old(keys) + [k]
      ensures Abstract() == if ok then old(Abstract())[k := Some(v)]
                            else if k in old(Abstract()) then old(Abstract()) else old(Abstract())[k := None]
    {
      var i := FindIndexOrAppend(k);
      ok := mUnderlyingArray.Rewrite(i, op, v);
    }

    method SetNullValue(k: K)
      requires Valid()
      modifies this`mKeyToArrayIndexMap, this`keys, mUnderlyingArray
      ensures Valid() && Abstract() == old(Abstract())[k := None]
      ensures keys == if k in old(Abstract()) then old(keys) else old(keys) + [k]
    {
      var i := FindIndexOrAppend(k);
      mUnderlyingArray.SetNull(i);
    }

    /** The keys in the order of their values. The index hands them out in some order of its own. */
    method GetKeys() returns (keyArray: ODPSArray<K>)
      requires Valid()
      ensures fresh(keyArray) && keyArray.Valid() && keyArray.elementType == keyType
      ensures keyArray.Contents() == Somes(keys)
    {
      var pairs := SortedPairs();
      keyArray := new ODPSArray(keyType);
      var i := 0;
      while i < |pairs|
        invariant 0 <= i <= |pairs| && fresh(keyArray) && keyArray.Valid()
        invariant |keyArray.Contents()| == i && forall j | 0 <= j < i :: keyArray.Contents()[j] == Some(pairs[j].key)
      {
        var ok := keyArray.Append(pairs[i].key, keyType);
        i := i + 1;
      }
    }

    method SortedPairs() returns (pairs: seq<Place<K>>)
      requires Valid()
      ensures |pairs| == |keys| && forall i | 0 <= i < |keys| :: pairs[i] == Place(i, keys[i])
    {
      pairs := [];
      var left := mKeyToArrayIndexMap.Keys;
      while left != {}
        invariant left <= mKeyToArrayIndexMap.Keys && |pairs| + |left| == |mKeyToArrayIndexMap.Keys|
        invariant Ascending(pairs)
        invariant forall p <- pairs :: p.key in mKeyToArrayIndexMap.Keys - left && mKeyToArrayIndexMap[p.key] == p.at
      {
        var k :| k in left;
        var p := Place(mKeyToArrayIndexMap[k], k);
        InsertedHas(pairs, p);
        InsertedIsAscending(pairs, p);
        forall q <- Inserted(pairs, p)
          ensures q.key in mKeyToArrayIndexMap.Keys - (left - {k}) && mKeyToArrayIndexMap[q.key] == q.at
        {
          assert q in multiset(Inserted(pairs, p));
        }
        pairs, left := Inserted(pairs, p), left - {k};
      }
      IndexSize(mKeyToArrayIndexMap, keys);
      assert |mKeyToArrayIndexMap| == |mKeyToArrayIndexMap.Keys|;
      forall i | 0 <= i < |keys|
        ensures pairs[i] == Place(i, keys[i])
      {
        PlacesAreCounted(pairs, i);
        assert pairs[i] in pairs;
      }
    }

    /** Takes over the values and indexes the keys; it throws at a null key or for keys of another
        type. The map shares the values with whoever passed them. */
    method Recover(keyArray: ODPSArray<K>, valueArray: ODPSArray<V>) returns (ok: bool)
      requires keyArray.Valid() && valueArray.Valid()
      modifies this
      ensures mUnderlyingArray == valueArray
      ensures ok <==> keyArray.Contents() == [] || (keyArray.elementType == keyType && None !in keyArray.Contents())
      ensures ok ==> keyArray.Contents() == Somes(keys)
      ensures ok ==> mKeyToArrayIndexMap == Indexed(old(mKeyToArrayIndexMap), keys)
      ensures ok && old(mKeyToArrayIndexMap) == map[] ==>
        (Valid() <==> Distinct(keys) && |keys| == valueArray.Size() && valueArray.elementType == valueType)
    {
      hide Indexes, Distinct;
      mUnderlyingArray, keys := valueArray, [];
      var i := 0;
      while i < keyArray.Size()
        invariant 0 <= i <= keyArray.Size() && mUnderlyingArray == valueArray
        invariant i > 0 ==> keyArray.elementType == keyType
        invariant |keys| == i && forall j | 0 <= j < i :: keyArray.Contents()[j] == Some(keys[j])
        invariant mKeyToArrayIndexMap == Indexed(old(mKeyToArrayIndexMap), keys)
      {
        var key := keyArray.Access(i, keyType);
        if !key.Got? {
          return false;
        }
        IndexedStep(old(mKeyToArrayIndexMap), keys, key.value);
        mKeyToArrayIndexMap, keys := mKeyToArrayIndexMap[key.value := i], keys + [key.value];
        i := i + 1;
      }
      RecoveredIndex(keys);
      ok := true;
    }
  }

  /** Recovering a fresh map from the keys and values of another gives the same map. */
  method Rebuilt<K(==), V(==)>(m: ODPSMap<K, V>) returns (copy: ODPSMap<K, V>)
    requires m.Valid()
    ensures fresh(copy) && copy.Valid() && copy.Abstract() == m.Abstract() && copy.keys == m.keys
    ensures copy.mUnderlyingArray == m.mUnderlyingArray
  {
    hide Indexes, Indexed, Distinct;
    var keyArray := m.GetKeys();
    copy := new ODPSMap(m.keyType, m.valueType);
    KeysAreDistinct(m);
    var ok := copy.Recover(keyArray, m.mUnderlyingArray);
    assert forall i | 0 <= i < |m.keys| :: Somes(copy.keys)[i] == Somes(m.keys)[i];
    assert copy.keys == m.keys;
    SameKeysSameIndex(m.mKeyToArrayIndexMap, copy.mKeyToArrayIndexMap, m.keys);
  }

  lemma KeysAreDistinct<K, V>(m: ODPSMap<K, V>)
    requires m.Valid()
    ensures Distinct(m.keys)
  {
    IndexSize(m.mKeyToArrayIndexMap, m.keys);
  }

  lemma SameKeysSameIndex<K>(a: map<K, nat>, b: map<K, nat>, keys: seq<K>)
    requires Indexes(a, keys) && Indexes(b, keys)
    ensures a == b
  {
    assert forall k <- a :: keys[a[k]] == k && b[keys[a[k]]] == a[k];
    assert forall k <- b :: keys[b[k]] == k && a[keys[b[k]]] == b[k];
  }

  /** But the two share their values. Setting a key to null in the one sets it in the other as well if
      the key was there, and breaks the other if it was not. */
  method SharedValuesBreak<K(==), V(==)>(m: ODPSMap<K, V>, k: K) returns (copy: ODPSMap<K, V>)
    requires m.Valid()
    modifies m.mUnderlyingArray
    ensures fresh(copy) && copy.Valid() && copy.Abstract() == old(m.Abstract())[k := None]
    ensures m.Valid() <==> k in old(m.Abstract())
    ensures m.Valid() ==> m.Abstract() == copy.Abstract()
  {
    copy := Rebuilt(m);
    KeysAreDistinct(m);
    KeysAreDistinct(copy);
    SameKeysSameIndex(m.mKeyToArrayIndexMap, copy.mKeyToArrayIndexMap, m.keys);
    ghost var index := m.mKeyToArrayIndexMap;
    copy.SetNullValue(k);
    if m.Valid() {
      SameKeysSameIndex(index, copy.mKeyToArrayIndexMap, m.keys);
    }
  }
}
