/** The bucket table of an upsert session: which slot takes which bucket, and why every hash finds
    its bucket. */
module UpsertSessions {
  import opened Bytes
  import opened Options
  import opened Positional

  datatype Slot = Slot(id: Int32, addr: string)

  /** One slot as the server lists it. */
  datatype UpsertSlot = UpsertSlot(buckets: seq<Int32>, id: Int32, addr: string)

  type Table = map<Int32, Slot>

  datatype Status = Success | EmptySlotMap | InvalidBucketValue

  function Unsigned(n: Int32): (u: UInt32)
  {
    if n < 0 then n + TWO_32 else n
  }

  function Signed(u: UInt32): (n: Int32)
    ensures Unsigned(n) == u
  {
    if u < 0x8000_0000 then u else u - TWO_32
  }

  /** The bucket of a hash. The remainder is taken in 64 unsigned bits. */
  function BucketOf(hash: Int32, n: nat): Int32
    requires 0 < n <= TWO_32
  {
    Signed((if hash < 0 then hash + TWO_64 else hash) % n)
  }

  /** `u` is below `n`, and the hash as an unsigned number of 64 bits differs from it by a multiple of `n`. */
  ghost predicate IsBucketOf(hash: Int32, n: nat, u: int) {
    0 <= u < n && Congruent(if hash < 0 then hash + 0x1_0000_0000_0000_0000 else hash, u, n)
  }

  /** A hash has exactly one bucket. As a signed number of 32 bits the table has it as its key. */
  lemma BucketMeans(hash: Int32, n: nat, u: int)
    requires 0 < n <= TWO_32
    ensures u == Unsigned(BucketOf(hash, n)) <==> IsBucketOf(hash, n, u)
    ensures IsBucketOf(hash, n, u) ==> BucketOf(hash, n) == if u < 0x8000_0000 then u else u - 0x1_0000_0000
  {
    var h: int := if hash < 0 then hash + 0x1_0000_0000_0000_0000 else hash;
    CongruentIfSameRemainder(h, u, n);
    CongruentIfSameRemainder(h, h % n, n);
    if 0 <= u < n {
      RemainderIs(u, n, 0, u);
    }
    RemainderIs(h % n, n, 0, h % n);
  }

  /** `insert` keeps what is there. */
  function Inserted(table: Table, s: UpsertSlot, k: nat): Table
    requires k <= |s.buckets|
  {
    if k == 0 then table
    else
      var t := Inserted(table, s, k - 1);
      if s.buckets[k - 1] in t then t else t[s.buckets[k - 1] := Slot(s.id, s.addr)]
  }

  /** A slot gets the buckets on its list that no slot before it got. */
  lemma {:induction false} InsertedBuckets(table: Table, s: UpsertSlot, k: nat)
    requires k <= |s.buckets|
    ensures Inserted(table, s, k).Keys == table.Keys + set b <- s.buckets[..k]
    ensures forall b <- Inserted(table, s, k) ::
      Inserted(table, s, k)[b] == if b in table then table[b] else Slot(s.id, s.addr)
  {
    if k == 0 {
    } else {
      InsertedBuckets(table, s, k - 1);
      assert s.buckets[..k] == s.buckets[..k - 1] + [s.buckets[k - 1]];
    }
  }

  /** The table after the first `k` slots. */
  function Filled(slots: seq<UpsertSlot>, k: nat): Table
    requires k <= |slots|
  {
    if k == 0 then map[] else Inserted(Filled(slots, k - 1), slots[k - 1], |slots[k - 1].buckets|)
  }

  predicate InRange(table: Table) {
    forall b <- table :: Unsigned(b) < |table|
  }

  /** The table was complete after each of the first `n` slots. */
  predicate AlwaysComplete(slots: seq<UpsertSlot>, n: nat)
    requires n <= |slots|
  {
    n == 0 || (AlwaysComplete(slots, n - 1) && Complete(Filled(slots, n)))
  }

  lemma {:induction false} AlwaysCompleteBefore(slots: seq<UpsertSlot>, n: nat, m: nat)
    requires n <= m <= |slots| && AlwaysComplete(slots, m)
    ensures AlwaysComplete(slots, n)
    decreases m
  {
    hide Filled, Complete;
    if n < m {
      AlwaysCompleteBefore(slots, n, m - 1);
    }
  }

  function Below(n: nat): (s: set<int>)
    ensures |s| == n && forall i :: i in s <==> 0 <= i < n
  {
    if n == 0 then {} else Below(n - 1) + {n - 1}
  }

  /** The buckets of a table as unsigned numbers. */
  function Numbers(keys: set<Int32>): set<int>
  {
    set b <- keys :: Unsigned(b)
  }

  /** Every number below the size of the table is, as an unsigned number, one of its buckets. */
  predicate Complete(table: Table) {
    Numbers(table.Keys) == Below(|table|)
  }

  lemma {:induction false} NumbersKeepSize(keys: set<Int32>)
    ensures |Numbers(keys)| == |keys|
    decreases |keys|
  {
    if keys == {} {
    } else {
      var k :| k in keys;
      NumbersKeepSize(keys - {k});
      assert Numbers(keys) == Numbers(keys - {k}) + {Unsigned(k)};
    }
  }

  lemma EqualSizeIsEqual<T>(a: set<T>, b: set<T>)
    requires a <= b && |a| == |b|
    ensures a == b
  {
    assert b == a + (b - a);
  }

  /** Distinct buckets that are all below their number leave no number out. */
  lemma InRangeIsComplete(table: Table)
    ensures InRange(table) <==> Complete(table)
  {
    if InRange(table) {
      NumbersKeepSize(table.Keys);
      assert |table| == |table.Keys|;
      EqualSizeIsEqual(Numbers(table.Keys), Below(|table|));
    }
    if Complete(table) {
      forall b <- table
        ensures Unsigned(b) < |table|
      {
        assert Unsigned(b) in Numbers(table.Keys);
      }
    }
  }

  /** Every hash, negative ones included, falls into a bucket that has a slot. */
  lemma EveryHashHasABucket(table: Table, hash: Int32)
    requires Complete(table) && 0 < |table| <= TWO_32
    ensures BucketOf(hash, |table|) in table
  {
    var u := (if hash < 0 then hash + TWO_64 else hash) % |table|;
    assert u in Numbers(table.Keys);
    var b :| b in table && Unsigned(b) == u;
    assert b == Signed(u);
  }

  /** A table of ordinary size has the buckets 0 to n - 1 and no others. */
  lemma CompleteMeansCounted(table: Table)
    requires Complete(table) && |table| <= 0x8000_0000
    ensures forall b: Int32 :: b in table <==> 0 <= b < |table|
  {
    forall b: Int32
      ensures b in table <==> 0 <= b < |table|
    {
      assert Unsigned(b) in Numbers(table.Keys) <==> Unsigned(b) < |table|;
      if Unsigned(b) in Numbers(table.Keys) {
        var c :| c in table && Unsigned(c) == Unsigned(b);
        assert c == b;
      }
    }
  }

  lemma AlwaysCompleteStep(slots: seq<UpsertSlot>, n: nat)
    requires 0 < n <= |slots|
    ensures AlwaysComplete(slots, 0)
    ensures AlwaysComplete(slots, n) <==> AlwaysComplete(slots, n - 1) && Complete(Filled(slots, n))
  {
    hide Filled, Complete;
  }

  lemma OneBucket(table: Table, s: UpsertSlot)
    requires |s.buckets| == 1
    ensures Inserted(table, s, 1).Keys == table.Keys + {s.buckets[0]}
  {
    InsertedBuckets(table, s, 1);
    assert s.buckets[..1] == [s.buckets[0]];
  }

  /** The table has to be complete after every slot, not only at the end: with the same two slots in
      the other order the table is refused. */
  lemma OrderOfSlotsMatters(first: UpsertSlot, second: UpsertSlot)
    requires |first.buckets| == |second.buckets| == 1 && first.buckets[0] == 0 && second.buckets[0] == 1
    ensures AlwaysComplete([first, second], 2) && !AlwaysComplete([second, first], 2)
  {
    var (t1, u1) := (Inserted(map[], first, 1), Inserted(map[], second, 1));
    var t2 := Inserted(t1, second, 1);
    OneBucket(map[], first);
    OneBucket(t1, second);
    OneBucket(map[], second);
    assert Filled([first, second], 1) == t1 && Filled([first, second], 2) == t2;
    assert Filled([second, first], 1) == u1;
    hide Inserted, Filled, Complete, AlwaysComplete;
    assert |t1| == |t1.Keys| == 1 && |t2| == |t2.Keys| == 2;
    InRangeIsComplete(t1);
    InRangeIsComplete(t2);
    assert |u1| == |u1.Keys| == 1 && 1 in u1.Keys;
    InRangeIsComplete(u1);
    AlwaysCompleteStep([first, second], 1);
    AlwaysCompleteStep([first, second], 2);
    AlwaysCompleteStep([second, first], 1);
    AlwaysCompleteStep([second, first], 2);
  }

  class UpsertSession {
    var mBuckets: Table

    constructor ()
      ensures mBuckets == map[]
    {
      mBuckets := map[];
    }

    /** Fills the table anew. It succeeds exactly when every prefix of the slots makes a complete
        table; otherwise the table is left as the first slot at fault made it. */
    method LoadSlots(slots: seq<UpsertSlot>) returns (status: Status)
      modifies this
      ensures status == EmptySlotMap <==> slots == []
      ensures status == EmptySlotMap ==> mBuckets == old(mBuckets)
      ensures status == Success <==> slots != [] && AlwaysComplete(slots, |slots|)
      ensures status == Success ==> mBuckets == Filled(slots, |slots|)
      ensures status == InvalidBucketValue ==>
        exists k | 0 < k <= |slots| :: mBuckets == Filled(slots, k) && !Complete(mBuckets)
    {
      if slots == [] {
        return EmptySlotMap;
      }
      mBuckets := map[];
      hide Complete, Inserted;
      var i := 0;
      while i < |slots|
        invariant 0 <= i <= |slots|
        invariant mBuckets == Filled(slots, i)
        invariant AlwaysComplete(slots, i)
      {
        var complete := LoadSlot(slots[i]);
        i := i + 1;
        assert mBuckets == Filled(slots, i);
        if !complete {
          if AlwaysComplete(slots, |slots|) {
            AlwaysCompleteBefore(slots, i, |slots|);
          }
          return InvalidBucketValue;
        }
      }
      status := Success;
    }

    /** Adds one slot and looks at the whole table again. */
    method LoadSlot(s: UpsertSlot) returns (complete: bool)
      modifies this
      ensures mBuckets == Inserted(old(mBuckets), s, |s.buckets|)
      ensures complete <==> Complete(mBuckets)
    {
      InsertBuckets(s);
      complete := CheckRange();
      InRangeIsComplete(mBuckets);
    }

    method InsertBuckets(s: UpsertSlot)
      modifies this
      ensures mBuckets == Inserted(old(mBuckets), s, |s.buckets|)
    {
      var i := 0;
      while i < |s.buckets|
        invariant 0 <= i <= |s.buckets|
        invariant mBuckets == Inserted(old(mBuckets), s, i)
      {
        if s.buckets[i] !in mBuckets {
          mBuckets := mBuckets[s.buckets[i] := Slot(s.id, s.addr)];
        }
        i := i + 1;
      }
    }

    method CheckRange() returns (ok: bool)
      ensures ok <==> InRange(mBuckets)
    {
      var left := mBuckets.Keys;
      while left != {}
        invariant left <= mBuckets.Keys
        invariant forall b <- mBuckets.Keys - left :: Unsigned(b) < |mBuckets|
      {
        var b :| b in left;
        if Unsigned(b) >= |mBuckets| {
          return false;
        }
        left := left - {b};
      }
      ok := true;
    }

    /** Throws for a bucket without a slot. */
    method GetSlot(bucket: Int32) returns (slot: Option<Slot>)
      ensures slot == if bucket in mBuckets then Some(mBuckets[bucket]) else None
    {
      if bucket in mBuckets {
        return Some(mBuckets[bucket]);
      }
      slot := None;
    }

    /** Notes a new server for slot `id`. The entry it replaces is that of the bucket with the same
        number, if there is one; no bucket appears or disappears. */
    method UpdateSlot(id: Int32, addr: string)
      modifies this
      ensures mBuckets.Keys == old(mBuckets).Keys && (old(Complete(mBuckets)) ==> Complete(mBuckets))
      ensures forall b <- mBuckets :: mBuckets[b] == if b == id then Slot(id, addr) else old(mBuckets)[b]
    {
      if id in mBuckets {
        mBuckets := mBuckets[id := Slot(id, addr)];
      }
      assert |mBuckets| == |mBuckets.Keys| == |old(mBuckets).Keys| == |old(mBuckets)|;
    }
  }
}
