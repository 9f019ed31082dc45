/** The slots of a streaming upload: which server takes the next pack, and which servers are left
    alone for a while because they failed. */
module SlotTable {
  import opened Options

  /** A disable time of -1 means never disabled. The host part of the address, kept in a field of
      its own by the client, is determined by the address. */
  datatype Slot = Slot(id: int, addr: string, disableTime: int)

  /** Seconds since the epoch. Every reading may be later than the one before, never earlier. */
  class Clock {
    var now: nat

    method Read() returns (t: nat)
      modifies this
      ensures old(now) <= now == t
    {
      var elapsed: int :| 0 <= elapsed;
      now := now + elapsed;
      t := now;
    }
  }

  // ---------- what the table says at a moment ----------

  predicate InWindow(s: Slot, now: int) {
    now < s.disableTime + 60
  }

  predicate Disabled(s: Slot, now: int) {
    s.disableTime != -1 && InWindow(s, now)
  }

  function DisabledAddrs(slots: seq<Slot>, now: int): set<string> {
    set s | s in slots && Disabled(s, now) :: s.addr
  }

  predicate Numbered(slots: seq<Slot>) {
    forall i | 0 <= i < |slots| :: slots[i].id == i
  }

  /** There is a slot to use, and at most two servers are being left alone. */
  predicate Healthy(slots: seq<Slot>, now: int) {
    && (slots == [] || exists i | 0 <= i < |slots| :: !Disabled(slots[i], now))
    && |DisabledAddrs(slots, now)| <= 2
  }

  lemma SubsetIsNoLarger<T>(a: set<T>, b: set<T>)
    requires a <= b
    ensures |a| <= |b|
  {
    assert b == a + (b - a);
  }

  /** Time alone only re-enables slots. */
  lemma HealthyLater(slots: seq<Slot>, now: int, later: int)
    requires now <= later && Healthy(slots, now)
    ensures Healthy(slots, later)
  {
    if slots != [] {
      var i :| 0 <= i < |slots| && !Disabled(slots[i], now);
      assert !Disabled(slots[i], later);
    }
    SubsetIsNoLarger(DisabledAddrs(slots, later), DisabledAddrs(slots, now));
  }

  /** The addresses that count against the limit if `addr` were to be disabled. */
  function Occupied(slots: seq<Slot>, now: int, addr: string): set<string> {
    set s | s in slots && (InWindow(s, now) || s.addr == addr) :: s.addr
  }

  lemma OccupiedStep(slots: seq<Slot>, i: nat, now: int, addr: string)
    requires i < |slots|
    ensures Occupied(slots[..i + 1], now, addr) == Occupied(slots[..i], now, addr) +
              if InWindow(slots[i], now) || slots[i].addr == addr then {slots[i].addr} else {}
  {
    assert slots[..i + 1] == slots[..i] + [slots[i]];
    assert slots[i] in slots[..i + 1];
  }

  lemma OccupiedLater(slots: seq<Slot>, now: int, later: int, addr: string)
    requires now <= later
    ensures Occupied(slots, later, addr) <= Occupied(slots, now, addr)
    ensures Occupied(slots[..0], now, addr) == {}
  {
  }

  predicate Spare(s: Slot, now: int, addr: string) {
    !InWindow(s, now) && s.addr != addr
  }

  /** All slots of one server get the same disable time. */
  function WithDisabled(slots: seq<Slot>, addr: string, time: int): (r: seq<Slot>)
    ensures |r| == |slots|
  {
    seq(|slots|, i requires 0 <= i < |slots| =>
      if slots[i].addr == addr then slots[i].(disableTime := time) else slots[i])
  }

  lemma DisablingStaysHealthy(slots: seq<Slot>, addr: string, time: int, now: int)
    requires exists i | 0 <= i < |slots| :: Spare(slots[i], now, addr)
    requires |Occupied(slots, now, addr)| <= 2
    ensures Healthy(WithDisabled(slots, addr, time), now)
  {
    var r := WithDisabled(slots, addr, time);
    var i :| 0 <= i < |slots| && Spare(slots[i], now, addr);
    assert !Disabled(r[i], now);
    forall s | s in r && Disabled(s, now)
      ensures s.addr in Occupied(slots, now, addr)
    {
      var k :| 0 <= k < |r| && r[k] == s;
      assert slots[k] in slots;
    }
    SubsetIsNoLarger(DisabledAddrs(r, now), Occupied(slots, now, addr));
  }

  lemma EnablingStaysHealthy(slots: seq<Slot>, id: nat, s: Slot, now: int)
    requires id < |slots| && Healthy(slots, now) && s.disableTime == -1
    ensures Healthy(slots[id := s], now)
  {
    assert !Disabled(slots[id := s][id], now);
    SubsetIsNoLarger(DisabledAddrs(slots[id := s], now), DisabledAddrs(slots, now));
  }

  lemma FreshIsHealthy(slots: seq<Slot>, now: int)
    requires forall i | 0 <= i < |slots| :: slots[i].disableTime == -1
    ensures Healthy(slots, now)
  {
    assert DisabledAddrs(slots, now) == {};
    if slots != [] {
      assert !Disabled(slots[0], now);
    }
  }

  /** The disable time on record for each server; where its slots differ the last one counts. */
  function LastTimes(slots: seq<Slot>): map<string, int> {
    if slots == [] then map[]
    else
      var last := slots[|slots| - 1];
      LastTimes(slots[..|slots| - 1])[last.addr := last.disableTime]
  }

  lemma {:induction false} LastTimesRecorded(slots: seq<Slot>)
    requires forall s <- slots :: s.disableTime >= -1
    ensures forall addr <- LastTimes(slots) :: LastTimes(slots)[addr] >= -1
  {
    if slots != [] {
      LastTimesRecorded(slots[..|slots| - 1]);
    }
  }

  /** What a reload did about one server that had been disabled at `time`: its slots stay disabled,
      or they are back in use because the time is up, or disabling them was not allowed. */
  predicate Settled(slots: seq<Slot>, addr: string, time: int, from: int, to: int) {
    || (forall s | s in slots && s.addr == addr :: s.disableTime == time)
    || to >= time + 60
    || (forall i | 0 <= i < |slots| :: !Spare(slots[i], from, addr))
    || |Occupied(slots, from, addr)| > 2
  }

  lemma RefusalSettles(slots: seq<Slot>, addr: string, time: int, from: int, checked: int, to: int)
    requires from <= checked
    requires || (forall i | 0 <= i < |slots| :: !Spare(slots[i], checked, addr))
             || |Occupied(slots, checked, addr)| > 2
    ensures Settled(slots, addr, time, from, to)
  {
    SubsetIsNoLarger(Occupied(slots, checked, addr), Occupied(slots, from, addr));
  }

  lemma OverSettles(slots: seq<Slot>, addr: string, time: int, from: int, to: int)
    requires to >= time + 60
    ensures Settled(slots, addr, time, from, to)
  {
  }

  lemma SettledLater(slots: seq<Slot>, slots': seq<Slot>, addr: string, time: int, from: int, to: int, to': int)
    requires Settled(slots, addr, time, from, to) && to <= to' && |slots| == |slots'|
    requires forall i | 0 <= i < |slots| ::
               && slots[i].addr == slots'[i].addr && slots[i].disableTime <= slots'[i].disableTime
               && (slots[i].addr == addr ==> slots[i].disableTime == slots'[i].disableTime)
    ensures Settled(slots', addr, time, from, to')
  {
    if forall s | s in slots && s.addr == addr :: s.disableTime == time {
      forall s' | s' in slots' && s'.addr == addr
        ensures s'.disableTime == time
      {
        var i :| 0 <= i < |slots'| && slots'[i] == s';
        assert slots[i] in slots;
      }
    }
    forall a | a in Occupied(slots, from, addr)
      ensures a in Occupied(slots', from, addr)
    {
      var i :| 0 <= i < |slots| && slots[i].addr == a && (InWindow(slots[i], from) || slots[i].addr == addr);
      assert slots'[i] in slots';
    }
    SubsetIsNoLarger(Occupied(slots, from, addr), Occupied(slots', from, addr));
  }

  // ---------- the order in which slots are handed out ----------

  /** The enabled indices from `lo` up to `hi`, ascending. */
  function On(on: set<nat>, lo: nat, hi: nat): (r: seq<nat>)
    requires lo <= hi
    decreases hi - lo
  {
    if lo == hi then []
    else if lo in on then [lo] + On(on, lo + 1, hi)
    else On(on, lo + 1, hi)
  }

  /** The enabled indices in cyclic order, beginning at `start`. */
  function Cycle(on: set<nat>, n: nat, start: nat): seq<nat>
    requires start <= n
  {
    On(on, start, n) + On(on, 0, start)
  }

  function After(n: nat, i: nat): nat
    requires n > 0
  {
    (i + 1) % n
  }

  lemma {:induction false} OnMembers(on: set<nat>, lo: nat, hi: nat, i: nat)
    requires lo <= hi
    ensures i in On(on, lo, hi) <==> lo <= i < hi && i in on
    decreases hi - lo
  {
    if lo < hi {
      OnMembers(on, lo + 1, hi, i);
    }
  }

  lemma CycleMembers(on: set<nat>, n: nat, start: nat, i: nat)
    requires start <= n
    ensures i in Cycle(on, n, start) <==> i < n && i in on
  {
    OnMembers(on, start, n, i);
    OnMembers(on, 0, start, i);
  }

  predicate SomeOn(on: set<nat>, n: nat) {
    exists i :: i in on && i < n
  }

  lemma CycleNotEmpty(on: set<nat>, n: nat, start: nat)
    requires start <= n && SomeOn(on, n)
    ensures Cycle(on, n, start) != []
  {
    var i :| i in on && i < n;
    CycleMembers(on, n, start, i);
  }

  function First(on: set<nat>, n: nat, start: nat): (i: nat)
    requires start <= n && SomeOn(on, n)
    ensures i in on && i < n
  {
    var cycle := Cycle(on, n, start);
    CycleNotEmpty(on, n, start);
    CycleMembers(on, n, start, cycle[0]);
    cycle[0]
  }

  lemma {:induction false} OnNone(on: set<nat>, lo: nat, hi: nat)
    requires lo <= hi && forall i | lo <= i < hi :: i !in on
    ensures On(on, lo, hi) == []
    decreases hi - lo
  {
    if lo < hi {
      OnNone(on, lo + 1, hi);
    }
  }

  /** Indices already passed on the way from `start` to `i`. */
  predicate Passed(n: nat, start: nat, i: nat, k: nat) {
    if start <= i then start <= k < i else start <= k < n || k < i
  }

  lemma FirstIs(on: set<nat>, n: nat, start: nat, i: nat)
    requires start < n && i < n && i in on && forall k | Passed(n, start, i, k) :: k !in on
    ensures SomeOn(on, n) && First(on, n, start) == i
  {
    if start <= i {
      OnSplits(on, start, i, n);
      OnNone(on, start, i);
    } else {
      OnNone(on, start, n);
      OnSplits(on, 0, i, start);
      OnNone(on, 0, i);
    }
  }

  /** How many indices are left to look at in the round that began at `start`. */
  function Left(n: nat, start: nat, i: nat): nat
    requires i < n
  {
    if i < start then start - i else n - i + start
  }

  lemma StepInRound(on: set<nat>, n: nat, start: nat, i: nat)
    requires start < n && i < n && SomeOn(on, n) && i !in on
    requires forall k | Passed(n, start, i, k) :: k !in on
    ensures After(n, i) < n && Left(n, start, After(n, i)) < Left(n, start, i)
    ensures forall k | Passed(n, start, After(n, i), k) :: k !in on
  {
    AfterWraps(n, i);
    var some :| some in on && some < n;
    assert !Passed(n, start, i, some) && some != i;
  }

  lemma AfterWraps(n: nat, i: nat)
    requires i < n
    ensures After(n, i) == if i + 1 < n then i + 1 else 0
  {
  }

  /** `k` indices in a row, each the first enabled one after the one before. */
  function Visits(on: set<nat>, n: nat, current: nat, k: nat): seq<nat>
    requires SomeOn(on, n)
    decreases k
  {
    if k == 0 then []
    else
      var i := First(on, n, After(n, current));
      [i] + Visits(on, n, i, k - 1)
  }

  lemma {:induction false} OnSplits(on: set<nat>, lo: nat, mid: nat, hi: nat)
    requires lo <= mid <= hi
    ensures On(on, lo, hi) == On(on, lo, mid) + On(on, mid, hi)
    decreases mid - lo
  {
    if lo < mid {
      OnSplits(on, lo + 1, mid, hi);
    }
  }

  lemma FirstAfter(on: set<nat>, n: nat, i: nat)
    requires i < n && SomeOn(on, n)
    ensures var (above, below) := (On(on, i + 1, n), On(on, 0, i + 1));
            above + below != [] && First(on, n, After(n, i)) == (above + below)[0]
  {
    AfterWraps(n, i);
    hide After, On;
    var some :| some in on && some < n;
    CycleMembers(on, n, i + 1, some);
    if i + 1 == n {
      OnSplits(on, 0, 0, n);
      OnSplits(on, n, n, n);
      assert Cycle(on, n, 0) == On(on, 0, n) + On(on, 0, 0);
    }
  }

  /** After an index of the upper part, the rest of the upper part comes next and then the lower. */
  lemma {:induction false} VisitsUpper(on: set<nat>, n: nat, start: nat, i: nat, k: nat)
    requires start <= i < n && SomeOn(on, n) && k == |On(on, i + 1, n) + On(on, 0, start)|
    ensures Visits(on, n, i, k) == On(on, i + 1, n) + On(on, 0, start)
    decreases n - i
  {
    hide First, After, SomeOn;
    var (upper, lower) := (On(on, i + 1, n), On(on, 0, start));
    FirstAfter(on, n, i);
    if upper != [] {
      FirstOf(on, i + 1, n);
      VisitsUpper(on, n, start, upper[0], k - 1);
    } else if lower != [] {
      OnSplits(on, 0, start, i + 1);
      FirstOf(on, 0, start);
      VisitsLower(on, n, start, lower[0], k - 1);
    }
  }

  lemma {:induction false} VisitsLower(on: set<nat>, n: nat, start: nat, i: nat, k: nat)
    requires i < start <= n && SomeOn(on, n) && k == |On(on, i + 1, start)|
    ensures Visits(on, n, i, k) == On(on, i + 1, start)
    decreases start - i
  {
    hide First, After, SomeOn;
    FirstAfter(on, n, i);
    OnSplits(on, i + 1, start, n);
    if k > 0 {
      FirstOf(on, i + 1, start);
      VisitsLower(on, n, start, On(on, i + 1, start)[0], k - 1);
    }
  }

  lemma {:induction false} FirstOf(on: set<nat>, lo: nat, hi: nat)
    requires lo <= hi && On(on, lo, hi) != []
    ensures var next := On(on, lo, hi)[0];
            lo <= next < hi && On(on, lo, hi) == [next] + On(on, next + 1, hi)
    decreases hi - lo
  {
    if lo !in on {
      FirstOf(on, lo + 1, hi);
    }
  }

  lemma {:induction false} OnAscends(on: set<nat>, lo: nat, hi: nat)
    requires lo <= hi
    ensures forall a, b | 0 <= a < b < |On(on, lo, hi)| :: On(on, lo, hi)[a] < On(on, lo, hi)[b]
    decreases hi - lo
  {
    if lo < hi {
      OnAscends(on, lo + 1, hi);
      var above := On(on, lo + 1, hi);
      forall b | 0 <= b < |above|
        ensures lo < above[b]
      {
        OnMembers(on, lo + 1, hi, above[b]);
      }
    }
  }

  predicate NoRepeats(s: seq<nat>) {
    forall a, b | 0 <= a < b < |s| :: s[a] != s[b]
  }

  /** As long as the same slots stay enabled, one call for each of them hands out every one of them
      exactly once, in cyclic order. */
  lemma RoundRobin(on: set<nat>, n: nat, current: nat)
    requires SomeOn(on, n)
    ensures var round := Cycle(on, n, After(n, current));
            && Visits(on, n, current, |round|) == round
            && NoRepeats(round)
            && forall i: nat :: i in round <==> i in on && i < n
  {
    var start := After(n, current);
    CycleHasNoRepeats(on, n, start);
    VisitsCycle(on, n, current);
    forall i: nat
      ensures i in Cycle(on, n, start) <==> i in on && i < n
    {
      CycleMembers(on, n, start, i);
    }
  }

  lemma CycleHasNoRepeats(on: set<nat>, n: nat, start: nat)
    requires start <= n
    ensures NoRepeats(Cycle(on, n, start))
  {
    var (upper, lower) := (On(on, start, n), On(on, 0, start));
    OnAscends(on, start, n);
    OnAscends(on, 0, start);
    forall a, b | 0 <= a < |upper| && 0 <= b < |lower|
      ensures upper[a] != lower[b]
    {
      OnMembers(on, start, n, upper[a]);
      OnMembers(on, 0, start, lower[b]);
    }
  }

  lemma VisitsCycle(on: set<nat>, n: nat, current: nat)
    requires SomeOn(on, n)
    ensures var round := Cycle(on, n, After(n, current)); Visits(on, n, current, |round|) == round
  {
    var start := After(n, current);
    var round := Cycle(on, n, start);
    CycleNotEmpty(on, n, start);
    var next := round[0];
    assert Visits(on, n, current, |round|) == [next] + Visits(on, n, next, |round| - 1);
    hide First, After, Visits;
    if On(on, start, n) != [] {
      FirstOf(on, start, n);
      VisitsUpper(on, n, start, next, |round| - 1);
    } else {
      FirstOf(on, 0, start);
      VisitsLower(on, n, start, next, |round| - 1);
    }
  }
}
