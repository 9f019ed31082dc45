/** The slot table of a streaming upload as it changes: reloading, updating, disabling, and handing
    out the next slot. */
module StreamUploads {
  import opened Options
  import opened SlotTable

  const SLOT_DISABLE_TIME := 60
  const ADDR_DISABLE_MAX_NUM := 2
  const RELOAD_INTERVAL := 30

  datatype Status = Success | EmptySlotMap | SlotNotFound | InvalidArgument

  /** What becomes of the table `before` when the server's answer is loaded between two moments: in
      full, with every disabled server settled, or up to the first slot that is missing or has no
      address; an empty answer changes nothing. */
  ghost predicate Loaded(before: seq<Slot>, after: seq<Slot>, slots: map<int, string>, status: Status, from: int,
      to: int) {
    && (status == EmptySlotMap <==> slots == map[])
    && (status == Success <==> slots != map[] && forall i | 0 <= i < |slots| :: i in slots && slots[i] != "")
    && match status
       case Success =>
         && |after| == |slots| && (forall i | 0 <= i < |slots| :: after[i].addr == slots[i])
         && (forall s | s in after && s.disableTime != -1 ::
               s.addr in LastTimes(before) && s.disableTime == LastTimes(before)[s.addr] && InWindow(s, from))
         && (forall addr <- LastTimes(before) :: Settled(after, addr, LastTimes(before)[addr], from, to))
       case EmptySlotMap => after == before
       case SlotNotFound => LoadedUpTo(after, slots) && |after| !in slots
       case InvalidArgument => LoadedUpTo(after, slots) && |after| in slots && slots[|after|] == ""
  }

  predicate LoadedUpTo(after: seq<Slot>, slots: map<int, string>) {
    && |after| < |slots|
    && forall i | 0 <= i < |after| :: i in slots && after[i] == Slot(i, slots[i], -1) && slots[i] != ""
  }

  /** The table after the server has reported an address for a slot. */
  function Updated(slots: seq<Slot>, id: int, serverAddr: string): seq<Slot> {
    if 0 <= id < |slots| && slots[id].addr != serverAddr && serverAddr != "" then slots[id := Slot(id, serverAddr, -1)] else slots
  }

  class StreamUpload {
    const clock: Clock
    var mSlots: seq<Slot>
    var mCurrentSlot: nat
    var mLastUpdate: int

    ghost predicate Valid()
      reads this, clock
    {
      && Numbered(mSlots) && |mSlots| <= 0x8000_0000 && mCurrentSlot < 0x8000_0000
      && Healthy(mSlots, clock.now) && forall s <- mSlots :: s.disableTime >= -1
    }

    constructor (clock: Clock)
      ensures Valid() && this.clock == clock && mSlots == []
    {
      this.clock := clock;
      mSlots, mCurrentSlot, mLastUpdate := [], 0, -1;
      new;
      FreshIsHealthy(mSlots, clock.now);
    }

    /** Whether `addr` may be disabled. Each slot is looked at with a clock reading of its own. */
    method CheckSlots(slots: seq<Slot>, addr: string) returns (ok: bool)
      modifies clock
      ensures old(clock.now) <= clock.now
      ensures ok ==> && (exists i | 0 <= i < |slots| :: Spare(slots[i], clock.now, addr))
                     && |Occupied(slots, clock.now, addr)| <= 2
      ensures !ok ==> || (forall i | 0 <= i < |slots| :: !Spare(slots[i], old(clock.now), addr))
                      || |Occupied(slots, old(clock.now), addr)| > 2
    {
      hide Occupied;
      ghost var start := clock.now;
      OccupiedLater(slots, start, start, addr);
      var disableSlotNum := 0;
      var disableAddrSet: set<string> := {};
      ghost var spare := -1;
      var i := 0;
      while i < |slots|
        invariant 0 <= i <= |slots| && 0 <= disableSlotNum <= i && start <= clock.now
        invariant disableSlotNum < i ==> 0 <= spare < i && Spare(slots[spare], clock.now, addr)
        invariant disableSlotNum == i ==> forall k | 0 <= k < i :: !Spare(slots[k], start, addr)
        invariant Occupied(slots[..i], clock.now, addr) <= disableAddrSet
        invariant disableAddrSet <= Occupied(slots[..i], start, addr)
      {
        ghost var before := clock.now;
        var now := clock.Read();
        OccupiedLater(slots[..i], before, now, addr);
        OccupiedStep(slots, i, now, addr);
        OccupiedStep(slots, i, start, addr);
        if now - slots[i].disableTime < SLOT_DISABLE_TIME || slots[i].addr == addr {
          disableSlotNum := disableSlotNum + 1;
          disableAddrSet := disableAddrSet + {slots[i].addr};
        } else {
          spare := i;
        }
        i := i + 1;
      }
      assert slots[..i] == slots;
      SubsetIsNoLarger(Occupied(slots, clock.now, addr), disableAddrSet);
      SubsetIsNoLarger(disableAddrSet, Occupied(slots, start, addr));
      ok := |slots| - disableSlotNum > 0 && |disableAddrSet| <= ADDR_DISABLE_MAX_NUM;
    }

    method SetDisableTime(addr: string, time: int)
      modifies this`mSlots
      ensures mSlots == WithDisabled(old(mSlots), addr, time)
    {
      var i := 0;
      while i < |mSlots|
        invariant 0 <= i <= |mSlots| == |old(mSlots)|
        invariant forall k | 0 <= k < i :: mSlots[k] == WithDisabled(old(mSlots), addr, time)[k]
        invariant forall k | i <= k < |mSlots| :: mSlots[k] == old(mSlots)[k]
      {
        if mSlots[i].addr == addr {
          mSlots := mSlots[i := mSlots[i].(disableTime := time)];
        }
        i := i + 1;
      }
    }

    /** Puts every slot of the server out of use from now on, unless that would leave no slot or
        leave more than two servers out of use. */
    method DisableSlot(addr: string)
      requires Valid()
      modifies this`mSlots, clock
      ensures Valid() && old(clock.now) <= clock.now
      ensures mSlots == old(mSlots) ||
              exists time | old(clock.now) <= time <= clock.now :: mSlots == WithDisabled(old(mSlots), addr, time)
      ensures addr == "" ==> mSlots == old(mSlots)
      ensures addr != "" && (exists i | 0 <= i < |mSlots| :: Spare(old(mSlots)[i], old(clock.now), addr))
              && |Occupied(old(mSlots), old(clock.now), addr)| <= 2 ==>
              forall s | s in mSlots && s.addr == addr :: Disabled(s, clock.now) && s.disableTime >= old(clock.now)
    {
      hide Healthy;
      if addr != "" {
        var ok := CheckSlots(mSlots, addr);
        HealthyLater(mSlots, old(clock.now), clock.now);
        if ok {
          ghost var checked := clock.now;
          var disableTime := clock.Read();
          SetDisableTime(addr, disableTime);
          DisablingStaysHealthy(old(mSlots), addr, disableTime, checked);
          HealthyLater(mSlots, checked, clock.now);
        }
      }
    }

    /** Gives a slot the address the server reported. A changed address brings the slot back into
        use; an unknown slot number is ignored; an empty new address throws and changes nothing. */
    method UpdateSlot(id: int, serverAddr: string) returns (status: Status)
      requires Valid()
      modifies this`mSlots
      ensures Valid()
      ensures var known := 0 <= id < |old(mSlots)| && old(mSlots)[id].addr != serverAddr;
              && (status == if known && serverAddr == "" then InvalidArgument else Success)
              && mSlots == Updated(old(mSlots), id, serverAddr)
      ensures |mSlots| == |old(mSlots)| && forall i | 0 <= i < |mSlots| && (i != id || status != Success) :: mSlots[i] == old(mSlots)[i]
      ensures 0 <= id < |mSlots| && status == Success ==>
        && mSlots[id].id == id && mSlots[id].addr == serverAddr
        && mSlots[id].disableTime == if old(mSlots)[id].addr == serverAddr then old(mSlots)[id].disableTime else -1
    {
      status := Success;
      if 0 <= id < |mSlots| && mSlots[id].addr != serverAddr {
        if serverAddr == "" {
          return InvalidArgument;
        }
        mSlots := mSlots[id := Slot(id, serverAddr, -1)];
        EnablingStaysHealthy(old(mSlots), id, mSlots[id], clock.now);
      }
    }

    /** Asks the server for the table again; `reply` is its answer, if one comes. Unless forced, at
        most once in half a minute. */
    method Reload(force: bool, reply: Option<map<int, string>>) returns (status: Option<Status>, ghost from: int)
      requires Valid()
      requires reply.Some? ==> forall id | id in reply.value :: -0x8000_0000 <= id < 0x8000_0000
      modifies this, clock
      ensures Valid() && old(clock.now) <= from <= clock.now && (force ==> from == old(clock.now))
      ensures status.None? ==> mSlots == old(mSlots) && mLastUpdate == old(mLastUpdate) && mCurrentSlot == old(mCurrentSlot)
      ensures status.None? <==> (!force && from < old(mLastUpdate) + 30) || reply.None?
      ensures status.Some? ==> Loaded(old(mSlots), mSlots, reply.value, status.value, from, clock.now)
      ensures status.Some? ==> if status.value == Success then mLastUpdate == clock.now && mCurrentSlot < |mSlots|
                               else mLastUpdate == old(mLastUpdate) && mCurrentSlot == old(mCurrentSlot)
    {
      hide Loaded;
      from := clock.now;
      if !force {
        var now := clock.Read();
        HealthyLater(mSlots, old(clock.now), clock.now);
        from := now;
        if now - mLastUpdate < RELOAD_INTERVAL {
          return None, from;
        }
      }
      if reply.None? {
        return None, from;
      }
      var loaded := LoadSlots(reply.value);
      status := Some(loaded);
    }

    /** After a pack was sent: a changed number of slots means that the table is reloaded, any other
        answer that the slot is updated. Exceptions are swallowed. */
    method UpdateFromResponse(id: int, serverAddr: string, slotNum: int, reply: Option<map<int, string>>)
      returns (ghost status: Status)
      requires Valid()
      requires reply.Some? ==> forall id | id in reply.value :: -0x8000_0000 <= id < 0x8000_0000
      modifies this, clock
      ensures Valid() && old(clock.now) <= clock.now
      ensures slotNum == |old(mSlots)| ==> mSlots == Updated(old(mSlots), id, serverAddr)
      ensures slotNum != |old(mSlots)| && reply.None? ==> mSlots == old(mSlots)
      ensures slotNum != |old(mSlots)| && reply.Some? ==>
        Loaded(old(mSlots), mSlots, reply.value, status, old(clock.now), clock.now)
      ensures if slotNum != |old(mSlots)| && reply.Some? && status == Success then mLastUpdate == clock.now && mCurrentSlot < |mSlots|
              else mLastUpdate == old(mLastUpdate) && mCurrentSlot == old(mCurrentSlot)
    {
      hide Loaded;
      if slotNum != |mSlots| {
        var reloaded;
        ghost var from;
        reloaded, from := Reload(true, reply);
        status := if reloaded.Some? then reloaded.value else EmptySlotMap;
      } else {
        var updated := UpdateSlot(id, serverAddr);
        status := updated;
      }
    }

    method DisableTimes() returns (times: map<string, int>)
      ensures times == LastTimes(mSlots)
    {
      times := map[];
      for i := 0 to |mSlots|
        invariant times == LastTimes(mSlots[..i])
      {
        assert mSlots[..i + 1][..i] == mSlots[..i];
        times := times[mSlots[i].addr := mSlots[i].disableTime];
      }
      assert mSlots[..|mSlots|] == mSlots;
    }

    /** Slots 0, 1, 2, ... of the server's answer, none of them disabled. */
    method FreshTable(slots: map<int, string>) returns (status: Status)
      requires Valid() && slots != map[]
      requires forall id | id in slots :: -0x8000_0000 <= id < 0x8000_0000
      modifies this`mSlots
      ensures Valid()
      ensures |mSlots| <= |slots| &&
              (forall i | 0 <= i < |mSlots| :: i in slots && mSlots[i] == Slot(i, slots[i], -1) && slots[i] != "")
      ensures match status
              case Success => |mSlots| == |slots|
              case SlotNotFound => |mSlots| < |slots| && |mSlots| !in slots
              case InvalidArgument => |mSlots| < |slots| && |mSlots| in slots && slots[|mSlots|] == ""
              case EmptySlotMap => false
    {
      mSlots := [];
      var i := 0;
      while i < |slots|
        invariant 0 <= i <= |slots| && |mSlots| == i <= 0x8000_0000
        invariant forall k | 0 <= k < i :: k in slots && slots[k] != "" && mSlots[k] == Slot(k, slots[k], -1)
      {
        FreshIsHealthy(mSlots, clock.now);
        if i !in slots {
          return SlotNotFound;
        }
        if slots[i] == "" {
          return InvalidArgument;
        }
        mSlots := mSlots + [Slot(i, slots[i], -1)];
        i := i + 1;
      }
      FreshIsHealthy(mSlots, clock.now);
      status := Success;
    }

    /** Replaces the table. Servers that are in the new table and were disabled less than a minute
        ago stay disabled as far as the limits allow. When a slot number is missing or an address
        is empty the table is left with the slots before it. */
    method LoadSlots(slots: map<int, string>) returns (status: Status)
      requires Valid()
      requires forall id | id in slots :: -0x8000_0000 <= id < 0x8000_0000
      modifies this, clock
      ensures Valid() && old(clock.now) <= clock.now
      ensures Loaded(old(mSlots), mSlots, slots, status, old(clock.now), clock.now)
      ensures status != EmptySlotMap ==>
        |mSlots| <= |slots| && forall i | 0 <= i < |mSlots| :: i in slots && mSlots[i].id == i && mSlots[i].addr == slots[i] != ""
      ensures if status == Success then mLastUpdate == clock.now && mCurrentSlot < |mSlots|
              else mLastUpdate == old(mLastUpdate) && mCurrentSlot == old(mCurrentSlot)
    {
      hide Settled, Healthy, InWindow, LastTimes;
      if slots == map[] {
        return EmptySlotMap;
      }
      var times := DisableTimes();
      LastTimesRecorded(mSlots);
      status := FreshTable(slots);
      if status != Success {
        return;
      }
      KeepDisabled(times);
      var current :| 0 <= current < |slots|;
      Stamp(current, times, old(clock.now));
      status := Success;
    }

    /** The table was loaded just now. */
    method Stamp(current: nat, ghost times: map<string, int>, ghost from: int)
      requires Valid() && current < |mSlots|
      requires forall addr <- times :: Settled(mSlots, addr, times[addr], from, clock.now)
      modifies this`mCurrentSlot, this`mLastUpdate, clock
      ensures Valid() && mCurrentSlot == current && mLastUpdate == clock.now && old(clock.now) <= clock.now
      ensures forall addr <- times :: Settled(mSlots, addr, times[addr], from, clock.now)
    {
      hide Settled, Healthy;
      mCurrentSlot := current;
      mLastUpdate := clock.Read();
      HealthyLater(mSlots, old(clock.now), clock.now);
      forall addr <- times
        ensures Settled(mSlots, addr, times[addr], from, clock.now)
      {
        SettledLater(mSlots, mSlots, addr, times[addr], from, old(clock.now), clock.now);
      }
    }

    /** Disables again the servers that are in the fresh table and whose minute is not over. */
    method KeepDisabled(times: map<string, int>)
      requires Valid() && (forall s | s in mSlots :: s.disableTime == -1)
      requires forall addr <- times :: -1 <= times[addr]
      modifies this`mSlots, clock
      ensures Valid() && old(clock.now) <= clock.now
      ensures |mSlots| == |old(mSlots)|
      ensures forall i | 0 <= i < |mSlots| :: mSlots[i].addr == old(mSlots)[i].addr
      ensures forall s | s in mSlots && s.disableTime != -1 ::
                s.addr in times && s.disableTime == times[s.addr] && InWindow(s, old(clock.now))
      ensures forall addr <- times :: Settled(mSlots, addr, times[addr], old(clock.now), clock.now)
    {
      hide Settled, Healthy;
      var addrs := times.Keys;
      while addrs != {}
        invariant addrs <= times.Keys
        invariant Valid() && old(clock.now) <= clock.now
        invariant |mSlots| == |old(mSlots)|
        invariant forall i | 0 <= i < |mSlots| :: mSlots[i].addr == old(mSlots)[i].addr
        invariant forall s | s in mSlots && s.disableTime != -1 ::
          s.addr in times.Keys - addrs && s.disableTime == times[s.addr] && InWindow(s, old(clock.now))
        invariant forall addr | addr in times.Keys - addrs ::
          Settled(mSlots, addr, times[addr], old(clock.now), clock.now)
        decreases addrs
      {
        var addr :| addr in addrs;
        KeepOne(addr, times[addr], times, addrs, old(clock.now));
        addrs := addrs - {addr};
      }
    }

    method KeepOne(addr: string, time: int, ghost times: map<string, int>, ghost addrs: set<string>, ghost from: int)
      requires Valid() && addr in addrs && addrs <= times.Keys && -1 <= time == times[addr] && from <= clock.now
      requires forall s | s in mSlots && s.addr in addrs :: s.disableTime == -1
      requires forall a | a in times.Keys - addrs :: Settled(mSlots, a, times[a], from, clock.now)
      modifies this`mSlots, clock
      ensures Valid() && old(clock.now) <= clock.now
      ensures mSlots == old(mSlots) || (time >= 0 && InWindow(Slot(0, addr, time), old(clock.now))
                                        && mSlots == WithDisabled(old(mSlots), addr, time))
      ensures forall a | a in times.Keys - (addrs - {addr}) :: Settled(mSlots, a, times[a], from, clock.now)
    {
      hide Settled, Healthy;
      var now := clock.Read();
      HealthyLater(mSlots, old(clock.now), clock.now);
      if now - time < SLOT_DISABLE_TIME {
        KeepIfAllowed(addr, time, from);
      } else {
        OverSettles(mSlots, addr, time, from, now);
      }
      forall a | a in times.Keys - addrs
        ensures Settled(mSlots, a, times[a], from, clock.now)
      {
        SettledLater(old(mSlots), mSlots, a, times[a], from, old(clock.now), clock.now);
      }
    }

    method KeepIfAllowed(addr: string, time: int, ghost from: int)
      requires Valid() && -1 <= time && from <= clock.now
      modifies this`mSlots, clock
      ensures Valid() && old(clock.now) <= clock.now
      ensures mSlots == old(mSlots) || mSlots == WithDisabled(old(mSlots), addr, time)
      ensures Settled(mSlots, addr, time, from, clock.now)
    {
      ghost var before := clock.now;
      var ok := CheckSlots(mSlots, addr);
      HealthyLater(mSlots, before, clock.now);
      if ok {
        DisablingStaysHealthy(mSlots, addr, time, clock.now);
        SetDisableTime(addr, time);
      } else {
        RefusalSettles(mSlots, addr, time, from, before, clock.now);
      }
    }

    method IsDisabled(s: Slot) returns (disabled: bool)
      modifies clock
      ensures old(clock.now) <= clock.now
      ensures disabled == Disabled(s, clock.now)
    {
      if s.disableTime == -1 {
        return false;
      }
      var now := clock.Read();
      disabled := now - s.disableTime < SLOT_DISABLE_TIME;
    }

    ghost function Enabled(now: int): set<nat>
      reads this
    {
      set i | 0 <= i < |mSlots| && !Disabled(mSlots[i], now)
    }

    /** One slot further, in 32 bits. */
    method MoveOn()
      requires mSlots != [] && mCurrentSlot < 0x8000_0000
      modifies this`mCurrentSlot
      ensures mCurrentSlot == After(|mSlots|, old(mCurrentSlot)) < |mSlots|
    {
      mCurrentSlot := (mCurrentSlot + 1) % 0x1_0000_0000;
      mCurrentSlot := mCurrentSlot % |mSlots|;
    }

    /** The next usable slot in cyclic order. The search ends within one round. Slots passed over
        were all disabled when the call began, so if nothing changed while it ran, the result is the
        first enabled slot after the current one. */
    method NextSlot() returns (r: Option<Slot>)
      requires Valid()
      modifies this`mCurrentSlot, clock
      ensures Valid() && old(clock.now) <= clock.now
      ensures r.None? <==> mSlots == []
      ensures r.Some? ==> && mCurrentSlot < |mSlots| && r.value == mSlots[mCurrentSlot] && r.value.id == mCurrentSlot
                          && (r.value.disableTime == -1 || clock.now >= r.value.disableTime + 60)
      ensures r.Some? && Enabled(clock.now) == Enabled(old(clock.now)) ==>
                var (on, n) := (Enabled(clock.now), |mSlots|);
                SomeOn(on, n) && mCurrentSlot == First(on, n, After(n, old(mCurrentSlot)))
    {
      hide Healthy, First, After, Left, SomeOn;
      if mSlots == [] {
        return None;
      }
      var n := |mSlots|;
      MoveOn();
      ghost var (on, start) := (Enabled(old(clock.now)), mCurrentSlot);
      NotAllDisabled(old(clock.now));
      var disabled := IsDisabled(mSlots[mCurrentSlot]);
      while disabled
        invariant mCurrentSlot < n && old(clock.now) <= clock.now
        invariant disabled == Disabled(mSlots[mCurrentSlot], clock.now)
        invariant forall k | Passed(n, start, mCurrentSlot, k) :: k !in on
        decreases Left(n, start, mCurrentSlot)
      {
        StepInRound(on, n, start, mCurrentSlot);
        MoveOn();
        disabled := IsDisabled(mSlots[mCurrentSlot]);
      }
      HealthyLater(mSlots, old(clock.now), clock.now);
      if Enabled(clock.now) == on {
        FirstIs(on, n, start, mCurrentSlot);
      }
      return Some(mSlots[mCurrentSlot]);
    }

    lemma OneVisit(on: set<nat>, n: nat, current: nat, next: nat, got: seq<nat>, left: nat)
      requires SomeOn(on, n) && left > 0 && next == First(on, n, After(n, current))
      ensures got + Visits(on, n, current, left) == got + [next] + Visits(on, n, next, left - 1)
    {
      hide First, After, SomeOn;
    }

    lemma NoVisit(on: set<nat>, n: nat, current: nat, got: seq<nat>)
      requires SomeOn(on, n)
      ensures got + Visits(on, n, current, 0) == got
    {
    }

    lemma EnabledGrows(from: int, to: int)
      requires from <= to
      ensures Enabled(from) <= Enabled(to)
    {
    }

    /** Any number of calls: if the same slots were enabled at the end as at the beginning, the calls
        went through them in cyclic order, and as many calls as there are such slots hand out each of
        them exactly once. */
    method NextSlots(calls: nat) returns (indices: seq<nat>)
      requires Valid() && mSlots != []
      modifies this`mCurrentSlot, clock
      ensures Valid() && old(clock.now) <= clock.now && |indices| == calls
      ensures Enabled(clock.now) == Enabled(old(clock.now)) ==>
                var (on, n) := (Enabled(old(clock.now)), |mSlots|);
                && SomeOn(on, n) && indices == Visits(on, n, old(mCurrentSlot), calls)
                && (calls == |Cycle(on, n, After(n, old(mCurrentSlot)))| ==>
                    NoRepeats(indices) && forall i: nat :: i in indices <==> i in on)
    {
      ghost var (on, n, start) := (Enabled(clock.now), |mSlots|, clock.now);
      NotAllDisabled(clock.now);
      hide Valid, First, After, SomeOn, Enabled, Visits, Cycle, NoRepeats, Healthy;
      indices := [];
      assert [] + Visits(on, n, mCurrentSlot, calls) == Visits(on, n, mCurrentSlot, calls);
      while |indices| < calls
        invariant Valid() && start <= clock.now && |indices| <= calls
        invariant Enabled(clock.now) == on ==>
                    Visits(on, n, old(mCurrentSlot), calls) == indices + Visits(on, n, mCurrentSlot, calls - |indices|)
        decreases calls - |indices|
      {
        ghost var (before, current) := (clock.now, mCurrentSlot);
        var slot := NextSlot();
        EnabledGrows(start, before);
        EnabledGrows(before, clock.now);
        if Enabled(clock.now) == on {
          OneVisit(on, n, current, mCurrentSlot, indices, calls - |indices|);
        }
        indices := indices + [mCurrentSlot];
      }
      NoVisit(on, n, mCurrentSlot, indices);
      if Enabled(clock.now) == on && calls == |Cycle(on, n, After(n, old(mCurrentSlot)))| {
        RoundRobin(on, n, old(mCurrentSlot));
      }
    }

    lemma NotAllDisabled(now: int)
      requires Healthy(mSlots, now) && mSlots != []
      ensures SomeOn(Enabled(now), |mSlots|)
    {
      var i :| 0 <= i < |mSlots| && !Disabled(mSlots[i], now);
      assert i in Enabled(now);
    }
  }
}
