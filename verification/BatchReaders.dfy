/** Readers that download a range of rows piece by piece and start again where a download failed. One
    moves its cursor by what has arrived, the other by what it has asked for. */
module BatchReaders {
  /** What one download brings: it cannot be opened, or it brings rows from the start of the range,
      perhaps not even a batch with no rows, and perhaps breaks then. Closing it may throw as well. */
  datatype Download<R> = Unopened | Delivered(rows: seq<R>, empty: bool, broken: bool, closes: bool)

  /** A download of `count` rows from `start` on. */
  datatype Attempt<R> = Attempt(start: nat, count: nat, d: Download<R>)

  predicate Honest<R(==)>(table: seq<R>, a: Attempt<R>) {
    && a.start + a.count <= |table|
    && (a.d.Delivered? ==> a.d.rows <= table[a.start..a.start + a.count] && (a.d.empty ==> a.d.rows == []))
  }

  /** The session that opens downloads of a table, and what has become of them so far. */
  class DownloadSession<R(==)> {
    const table: seq<R>
    ghost var log: seq<Attempt<R>>

    constructor (table: seq<R>)
      ensures this.table == table && log == []
    {
      this.table, log := table, [];
    }

    method Fetch(start: nat, count: nat) returns (d: Download<R>)
      requires start + count <= |table|
      modifies this
      ensures Honest(table, Attempt(start, count, d)) && log == old(log) + [Attempt(start, count, d)]
    {
      var fails: bool, empty: bool, broken: bool, closes: bool := *, *, *, *;
      if fails {
        d := Unopened;
      } else {
        var n: nat :| n <= count && (empty ==> n == 0);
        d := Delivered(table[start..start + n], empty, broken, closes);
      }
      log := log + [Attempt(start, count, d)];
    }
  }

  datatype Outcome<R> = Batch(rows: seq<R>) | Nothing | Threw

  lemma NextRows<R>(table: seq<R>, a: nat, b: nat, c: nat)
    requires a <= b <= c <= |table|
    ensures table[a..b] + table[b..c] == table[a..c]
  {
  }

  /** How many rows to ask for; no limit means all that are left. */
  function Asked(left: nat, limit: nat): nat {
    if 0 < limit < left then limit else left
  }

  // ---------- batches ----------

  /** What a read makes of a download. */
  function Result<R>(d: Download<R>): Outcome<R> {
    if d.Unopened? || d.broken || !d.closes then Threw else if d.empty then Nothing else Batch(d.rows)
  }

  /** By how much it moves the cursor: closing comes after that. */
  function Moves<R>(d: Download<R>): nat {
    if d.Unopened? || d.broken then 0 else |d.rows|
  }

  /** Rows that the cursor has passed and the caller has not got. */
  predicate Lost<R>(d: Download<R>) {
    d.Delivered? && !d.broken && !d.closes && d.rows != []
  }

  function Moved<R>(log: seq<Attempt<R>>): nat {
    if log == [] then 0 else Moved(log[..|log| - 1]) + Moves(log[|log| - 1].d)
  }

  function RowsOf<R>(r: Outcome<R>): seq<R> {
    if r.Batch? then r.rows else []
  }

  /** All that the caller has got. */
  function Returned<R>(log: seq<Attempt<R>>): seq<R> {
    if log == [] then [] else Returned(log[..|log| - 1]) + RowsOf(Result(log[|log| - 1].d))
  }

  lemma OneMore<R>(log: seq<Attempt<R>>, a: Attempt<R>)
    ensures Moved(log + [a]) == Moved(log) + Moves(a.d)
    ensures Returned(log + [a]) == Returned(log) + RowsOf(Result(a.d))
  {
    assert (log + [a])[..|log|] == log;
  }

  /** Each download began where the cursor stood and asked for the right number of rows. */
  predicate Continuous<R(==)>(table: seq<R>, start: nat, count: nat, limit: nat, log: seq<Attempt<R>>) {
    log == [] ||
    (var (init, a) := (log[..|log| - 1], log[|log| - 1]);
     && Continuous(table, start, count, limit, init) && Honest(table, a)
     && Moved(init) < count && a.start == start + Moved(init) && a.count == Asked(count - Moved(init), limit))
  }

  lemma MovesWithin<R>(table: seq<R>, a: Attempt<R>)
    requires Honest(table, a)
    ensures Moves(a.d) <= a.count
  {
    if a.d.Delivered? {
      assert |a.d.rows| <= |table[a.start..a.start + a.count]|;
    }
  }

  lemma NextDownload<R>(table: seq<R>, start: nat, count: nat, limit: nat, log: seq<Attempt<R>>, a: Attempt<R>)
    requires Continuous(table, start, count, limit, log) && Honest(table, a)
    requires Moved(log) < count && a.start == start + Moved(log) && a.count == Asked(count - Moved(log), limit)
    ensures Continuous(table, start, count, limit, log + [a]) && Moved(log + [a]) == Moved(log) + Moves(a.d) <= count
    ensures Returned(log + [a]) == Returned(log) + RowsOf(Result(a.d))
  {
    OneMore(log, a);
    MovesWithin(table, a);
    hide Moved, Moves, Returned, Result, RowsOf, Honest;
    assert (log + [a])[..|log|] == log;
  }

  /** These are the `n` rows of the table from `start` on. */
  predicate AreRows<R(==)>(got: seq<R>, table: seq<R>, start: nat, n: nat)
    requires start + n <= |table|
  {
    got == table[start..start + n]
  }

  /** One step: `got` are the rows of `n` passed, and `rows` those of `moves` more. */
  lemma OneStep<R>(table: seq<R>, start: nat, got: seq<R>, n: nat, rows: seq<R>, moves: nat)
    requires start + n + moves <= |table| && |got| <= n && |rows| <= moves
    requires |rows| == moves ==> AreRows(rows, table, start + n, moves)
    ensures AreRows(got + rows, table, start, n + moves) <==> AreRows(got, table, start, n) && |rows| == moves
  {
    NextRows(table, start, start + n, start + n + moves);
    if got + rows == table[start..start + n + moves] {
      assert |got + rows| == n + moves;
      assert got == (got + rows)[..n] == table[start..start + n];
    }
  }

  lemma AllButLast<T>(log: seq<T>, p: T -> bool)
    requires log != []
    ensures var n := |log| - 1;
      (forall i | 0 <= i < |log| :: p(log[i])) <==> (forall i | 0 <= i < n :: p(log[..n][i])) && p(log[n])
  {
    var init := log[..|log| - 1];
    if forall i | 0 <= i < |init| :: p(init[i]) {
      assert forall i | 0 <= i < |init| :: p(log[i]) by {
        forall i | 0 <= i < |init| ensures p(log[i]) { assert p(init[i]); }
      }
    }
  }

  predicate NoneLost<R>(log: seq<Attempt<R>>) {
    forall i | 0 <= i < |log| :: !Lost(log[i].d)
  }

  lemma NoneLostStep<R>(log: seq<Attempt<R>>)
    requires log != []
    ensures NoneLost(log) <==> NoneLost(log[..|log| - 1]) && !Lost(log[|log| - 1].d)
  {
    hide Lost;
    AllButLast(log, (a: Attempt<R>) => !Lost(a.d));
  }

  lemma NothingYet<R>(table: seq<R>, start: nat, log: seq<Attempt<R>>)
    requires log == [] && start <= |table|
    ensures Moved(log) == 0 && |Returned(log)| == 0 && AreRows(Returned(log), table, start, 0) && NoneLost(log)
  {
  }

  lemma LastDownload<R>(table: seq<R>, start: nat, count: nat, limit: nat, log: seq<Attempt<R>>)
    requires Continuous(table, start, count, limit, log) && log != []
    ensures var (init, a) := (log[..|log| - 1], log[|log| - 1]);
      && Continuous(table, start, count, limit, init) && Honest(table, a)
      && Moved(log) == Moved(init) + Moves(a.d) && Returned(log) == Returned(init) + RowsOf(Result(a.d))
      && a.start == start + Moved(init) && Moved(init) < count && a.count <= count - Moved(init)
  {
  }

  /** The caller has got the rows that the cursor has passed, each once and in order, if and only if
      no download failed to close after its batch had arrived; otherwise rows are missing. */
  lemma {:induction false} ExactlyOnce<R>(table: seq<R>, start: nat, count: nat, limit: nat, log: seq<Attempt<R>>)
    requires start + count <= |table| && Continuous(table, start, count, limit, log)
    ensures Moved(log) <= count && |Returned(log)| <= Moved(log)
    ensures AreRows(Returned(log), table, start, Moved(log)) <==> NoneLost(log)
    decreases |log|
  {
    hide *;
    if log == [] {
      NothingYet(table, start, log);
    } else {
      var (init, a) := (log[..|log| - 1], log[|log| - 1]);
      LastDownload(table, start, count, limit, log);
      ExactlyOnce(table, start, count, limit, init);
      NoneLostStep(log);
      OneBatch(table, a);
      OneStep(table, start, Returned(init), Moved(init), RowsOf(Result(a.d)), Moves(a.d));
    }
  }

  lemma OneBatch<R>(table: seq<R>, a: Attempt<R>)
    requires Honest(table, a)
    ensures Moves(a.d) <= a.count
    ensures var rows := RowsOf(Result(a.d));
      && |rows| <= Moves(a.d) && (|rows| == Moves(a.d) <==> !Lost(a.d))
      && (!Lost(a.d) ==> AreRows(rows, table, a.start, Moves(a.d)))
  {
    MovesWithin(table, a);
    if a.d.Delivered? {
      assert table[a.start..a.start + a.count][..|a.d.rows|] == table[a.start..a.start + |a.d.rows|];
    }
  }

  /** One batch of rows at a time. */
  class BufferArrowRecordReader<R(==)> {
    const mDownload: DownloadSession<R>
    const start0: nat
    const count0: nat
    const mBufferRecordCount: nat
    var mStart: nat
    var mCount: nat

    ghost predicate Valid()
      reads this, mDownload
    {
      && start0 + count0 <= |mDownload.table| && Continuous(mDownload.table, start0, count0, mBufferRecordCount, mDownload.log)
      && Moved(mDownload.log) <= count0 && mStart == start0 + Moved(mDownload.log) && mCount == count0 - Moved(mDownload.log)
    }

    constructor (download: DownloadSession<R>, start: nat, count: nat, bufferRecordCount: nat)
      requires start + count <= |download.table| && download.log == []
      ensures Valid() && mDownload == download && start0 == start && count0 == count && mBufferRecordCount == bufferRecordCount
    {
      mDownload, start0, count0, mBufferRecordCount := download, start, count, bufferRecordCount;
      mStart, mCount := start, count;
    }

    /** One download, unless all rows have been read; what it brings decides the rest. */
    method Read() returns (r: Outcome<R>)
      requires Valid()
      modifies this, mDownload
      ensures Valid()
      ensures old(mCount) == 0 ==> r.Nothing? && mDownload.log == old(mDownload.log) && mCount == 0
      ensures old(mCount) > 0 ==>
        && |mDownload.log| == |old(mDownload.log)| + 1 && old(mDownload.log) <= mDownload.log && r == Result(mDownload.log[|mDownload.log| - 1].d)
        && mStart == old(mStart) + Moves(mDownload.log[|mDownload.log| - 1].d)
      ensures Returned(mDownload.log) == Returned(old(mDownload.log)) + RowsOf(r)
    {
      hide Returned, Moved, Continuous;
      if mCount == 0 {
        assert Returned(mDownload.log) + [] == Returned(mDownload.log);
        return Nothing;
      }
      var requestCount := if mBufferRecordCount > 0 && mBufferRecordCount < mCount then mBufferRecordCount else mCount;
      ghost var before := mDownload.log;
      var d := mDownload.Fetch(mStart, requestCount);
      NextDownload(mDownload.table, start0, count0, mBufferRecordCount, before, Attempt(mStart, requestCount, d));
      if d.Unopened? || d.broken {
        return Threw;
      }
      if d.empty {
        return if d.closes then Nothing else Threw;
      }
      mStart, mCount := mStart + |d.rows|, mCount - |d.rows|;
      r := if d.closes then Batch(d.rows) else Threw;
    }

    /** Repeats attempts that throw: all attempts but the last threw, and what the last one gives is
        the result. */
    method ReadWithRetry(retryTimes: nat) returns (r: Outcome<R>, ghost attempts: nat)
      requires Valid()
      modifies this, mDownload
      ensures Valid() && 1 <= attempts <= retryTimes + 1 && (r.Threw? ==> attempts == retryTimes + 1)
      ensures old(mDownload.log) <= mDownload.log && Returned(mDownload.log) == Returned(old(mDownload.log)) + RowsOf(r)
      ensures forall i | |old(mDownload.log)| <= i < |old(mDownload.log)| + attempts - 1 :: i < |mDownload.log| && Result(mDownload.log[i].d).Threw?
      ensures || (|mDownload.log| == |old(mDownload.log)| + attempts && r == Result(mDownload.log[|mDownload.log| - 1].d))
              || (|mDownload.log| == |old(mDownload.log)| + attempts - 1 && r.Nothing? && mCount == 0)
    {
      hide Returned, Continuous, Valid;
      attempts := 0;
      var attempt := 0;
      assert Returned(mDownload.log) + [] == Returned(mDownload.log);
      while true
        invariant attempts == attempt <= retryTimes && Valid()
        invariant old(mDownload.log) <= mDownload.log && |mDownload.log| == |old(mDownload.log)| + attempts
        invariant Returned(mDownload.log) == Returned(old(mDownload.log))
        invariant forall i | |old(mDownload.log)| <= i < |mDownload.log| :: Result(mDownload.log[i].d).Threw?
        decreases retryTimes - attempt
      {
        ghost var before := mDownload.log;
        r := Read();
        assert forall i | |old(mDownload.log)| <= i < |before| :: mDownload.log[i] == before[i] && Result(before[i].d).Threw?;
        attempts := attempts + 1;
        if !r.Threw? || attempt == retryTimes {
          return;
        }
        assert Returned(mDownload.log) == Returned(old(mDownload.log)) + [];
        attempt := attempt + 1;
      }
    }
  }

  // ---------- single rows ----------

  /** By how much a download for the row reader moves the cursor. */
  function Skips<R>(a: Attempt<R>): nat {
    if a.d.Unopened? then 0 else a.count
  }

  function Skipped<R>(log: seq<Attempt<R>>): nat {
    if log == [] then 0 else Skipped(log[..|log| - 1]) + Skips(log[|log| - 1])
  }

  function Brought<R>(d: Download<R>): seq<R> {
    if d.Unopened? then [] else d.rows
  }

  /** All rows that arrived. */
  function Arrived<R>(log: seq<Attempt<R>>): seq<R> {
    if log == [] then [] else Arrived(log[..|log| - 1]) + Brought(log[|log| - 1].d)
  }

  lemma OneMoreRow<R>(log: seq<Attempt<R>>, a: Attempt<R>)
    ensures Skipped(log + [a]) == Skipped(log) + Skips(a)
    ensures Arrived(log + [a]) == Arrived(log) + Brought(a.d)
  {
    assert (log + [a])[..|log|] == log;
  }

  predicate ContinuousRows<R(==)>(table: seq<R>, start: nat, count: nat, limit: nat, log: seq<Attempt<R>>) {
    log == [] ||
    (var (init, a) := (log[..|log| - 1], log[|log| - 1]);
     && ContinuousRows(table, start, count, limit, init) && Honest(table, a)
     && Skipped(init) < count && a.start == start + Skipped(init) && a.count == Asked(count - Skipped(init), limit))
  }

  lemma NextRowDownload<R>(table: seq<R>, start: nat, count: nat, limit: nat, log: seq<Attempt<R>>, a: Attempt<R>)
    requires ContinuousRows(table, start, count, limit, log) && Honest(table, a)
    requires Skipped(log) < count && a.start == start + Skipped(log) && a.count == Asked(count - Skipped(log), limit)
    ensures ContinuousRows(table, start, count, limit, log + [a]) && Skipped(log + [a]) == Skipped(log) + Skips(a) <= count
    ensures Arrived(log + [a]) == Arrived(log) + Brought(a.d)
  {
    OneMoreRow(log, a);
    assert (log + [a])[..|log|] == log;
  }

  /** A download that was opened and brought fewer rows than it was asked for. */
  predicate Short<R>(a: Attempt<R>) {
    a.d.Delivered? && |a.d.rows| < a.count
  }

  predicate NoneShort<R>(log: seq<Attempt<R>>) {
    forall i | 0 <= i < |log| :: !Short(log[i])
  }

  lemma NoneShortStep<R>(log: seq<Attempt<R>>)
    requires log != []
    ensures NoneShort(log) <==> NoneShort(log[..|log| - 1]) && !Short(log[|log| - 1])
  {
    hide Short;
    AllButLast(log, (a: Attempt<R>) => !Short(a));
  }

  lemma OneBuffer<R>(table: seq<R>, a: Attempt<R>)
    requires Honest(table, a)
    ensures var rows := Brought(a.d);
      && |rows| <= Skips(a) <= a.count && (|rows| == Skips(a) <==> !Short(a))
      && (!Short(a) ==> AreRows(rows, table, a.start, Skips(a)))
  {
    if a.d.Delivered? {
      assert |a.d.rows| <= |table[a.start..a.start + a.count]|;
    }
  }

  lemma NoRowsYet<R>(table: seq<R>, start: nat, log: seq<Attempt<R>>)
    requires log == [] && start <= |table|
    ensures Skipped(log) == 0 && |Arrived(log)| == 0 && AreRows(Arrived(log), table, start, 0) && NoneShort(log)
  {
  }

  lemma LastRowDownload<R>(table: seq<R>, start: nat, count: nat, limit: nat, log: seq<Attempt<R>>)
    requires ContinuousRows(table, start, count, limit, log) && log != []
    ensures var (init, a) := (log[..|log| - 1], log[|log| - 1]);
      && ContinuousRows(table, start, count, limit, init) && Honest(table, a)
      && Skipped(log) == Skipped(init) + Skips(a) && Arrived(log) == Arrived(init) + Brought(a.d)
      && a.start == start + Skipped(init) && Skipped(init) < count && a.count <= count - Skipped(init)
  {
  }

  /** The rows that arrived are those that the cursor has passed, each once and in order, if and only
      if no download was short. */
  lemma {:induction false} ExactlyOnceRows<R>(table: seq<R>, start: nat, count: nat, limit: nat, log: seq<Attempt<R>>)
    requires start + count <= |table| && ContinuousRows(table, start, count, limit, log)
    ensures Skipped(log) <= count && |Arrived(log)| <= Skipped(log)
    ensures AreRows(Arrived(log), table, start, Skipped(log)) <==> NoneShort(log)
    decreases |log|
  {
    hide *;
    if log == [] {
      NoRowsYet(table, start, log);
    } else {
      var (init, a) := (log[..|log| - 1], log[|log| - 1]);
      LastRowDownload(table, start, count, limit, log);
      ExactlyOnceRows(table, start, count, limit, init);
      NoneShortStep(log);
      OneBuffer(table, a);
      OneStep(table, start, Arrived(init), Skipped(init), Brought(a.d), Skips(a));
    }
  }

  /** One row at a time, from a buffer. */
  class BufferRecordReader<R(==)> {
    const mDownload: DownloadSession<R>
    const start0: nat
    const count0: nat
    const mBufferRecordCount: nat
    var mStart: nat
    var mCount: nat
    var mRecordBuffer: seq<R>
    /** What the caller has got. */
    ghost var returned: seq<R>

    ghost predicate Valid()
      reads this, mDownload
    {
      && mBufferRecordCount > 0 && start0 + count0 <= |mDownload.table|
      && ContinuousRows(mDownload.table, start0, count0, mBufferRecordCount, mDownload.log)
      && Skipped(mDownload.log) <= count0 && mStart == start0 + Skipped(mDownload.log) && mCount == count0 - Skipped(mDownload.log)
      && returned + mRecordBuffer == Arrived(mDownload.log)
    }

    constructor (download: DownloadSession<R>, start: nat, count: nat, bufferRecordCount: nat)
      requires start + count <= |download.table| && download.log == []
      ensures Valid() && returned == [] && mDownload == download && start0 == start && count0 == count
      ensures mBufferRecordCount == if bufferRecordCount == 0 then 1 else bufferRecordCount
    {
      mDownload, start0, count0 := download, start, count;
      mBufferRecordCount := if bufferRecordCount == 0 then 1 else bufferRecordCount;
      mStart, mCount, mRecordBuffer, returned := start, count, [], [];
    }

    /** The cursor moves before the rows are read, so rows that do not come are never asked for
        again. */
    method ReadData() returns (ok: bool)
      requires Valid() && mRecordBuffer == []
      modifies this, mDownload
      ensures Valid() && returned == old(returned)
      ensures old(mCount) == 0 ==> ok && mDownload.log == old(mDownload.log) && mRecordBuffer == []
      ensures old(mCount) > 0 ==>
        && |mDownload.log| == |old(mDownload.log)| + 1 && old(mDownload.log) <= mDownload.log
        && var a := mDownload.log[|mDownload.log| - 1];
           && mRecordBuffer == Brought(a.d) && mStart == old(mStart) + Skips(a)
           && (ok <==> a.d.Delivered? && !a.d.broken && a.d.closes)
    {
      hide Arrived, Skipped, ContinuousRows;
      if mCount == 0 {
        return true;
      }
      var recordNum := if mCount < mBufferRecordCount then mCount else mBufferRecordCount;
      ghost var before := mDownload.log;
      var d := mDownload.Fetch(mStart, recordNum);
      NextRowDownload(mDownload.table, start0, count0, mBufferRecordCount, before, Attempt(mStart, recordNum, d));
      assert returned + [] == returned;
      if d.Unopened? {
        assert Arrived(mDownload.log) == returned + [];
        return false;
      }
      mStart, mCount := mStart + recordNum, mCount - recordNum;
      Buffer(d.rows);
      ok := !d.broken && d.closes;
    }

    /** Takes rows off a download while the buffer has room, which is as long as there are any. */
    method Buffer(rows: seq<R>)
      requires mRecordBuffer == [] && |rows| <= mBufferRecordCount
      modifies this`mRecordBuffer
      ensures mRecordBuffer == rows
    {
      var i := 0;
      while |mRecordBuffer| < mBufferRecordCount && i < |rows|
        invariant 0 <= i <= |rows| && mRecordBuffer == rows[..i]
      {
        mRecordBuffer := mRecordBuffer + [rows[i]];
        i := i + 1;
      }
      assert rows[..i] == rows;
    }

    /** What a read gives after a download. */
    function FirstOf(d: Download<R>): Outcome<R> {
      if d.Unopened? || d.broken || !d.closes then Threw else if d.rows == [] then Nothing else Batch([d.rows[0]])
    }

    /** The next row in the buffer, or else one download, unless all rows have been asked for. */
    method Read() returns (r: Outcome<R>)
      requires Valid()
      modifies this, mDownload
      ensures Valid() && returned == old(returned) + RowsOf(r)
      ensures old(mRecordBuffer) != [] ==> mDownload.log == old(mDownload.log) && r == Batch([old(mRecordBuffer)[0]]) && mRecordBuffer == old(mRecordBuffer)[1..]
      ensures old(mRecordBuffer) == [] && old(mCount) == 0 ==> r.Nothing? && mDownload.log == old(mDownload.log) && mRecordBuffer == []
      ensures old(mRecordBuffer) == [] && old(mCount) > 0 ==>
        && |mDownload.log| == |old(mDownload.log)| + 1 && old(mDownload.log) <= mDownload.log
        && var a := mDownload.log[|mDownload.log| - 1];
           && r == FirstOf(a.d) && mStart == old(mStart) + Skips(a)
           && mRecordBuffer == if r.Batch? then a.d.rows[1..] else Brought(a.d)
    {
      hide Arrived, ContinuousRows;
      if mRecordBuffer == [] {
        var ok := ReadData();
        if !ok {
          return Threw;
        }
        if mRecordBuffer == [] {
          return Nothing;
        }
      }
      ghost var all := returned + mRecordBuffer;
      r := Batch([mRecordBuffer[0]]);
      returned, mRecordBuffer := returned + [mRecordBuffer[0]], mRecordBuffer[1..];
      assert returned + mRecordBuffer == all;
    }

    /** When all rows have been asked for and handed out, the caller has the whole range, each row once
        and in order, if and only if no download was short. */
    lemma AllOnce()
      requires Valid() && mCount == 0 && mRecordBuffer == []
      ensures AreRows(returned, mDownload.table, start0, count0) <==> NoneShort(mDownload.log)
    {
      ExactlyOnceRows(mDownload.table, start0, count0, mBufferRecordCount, mDownload.log);
      assert returned + [] == returned;
    }
  }
}
