/** What the slot table says about servers, in terms of seconds and of at most two of them. */
module Servers {
  import opened SlotTable

  lemma ThreeAreThree(s: set<string>, a: string, b: string, c: string)
    requires a in s && b in s && c in s && a != b && b != c && a != c
    ensures |s| > 2
  {
    assert |{a, b, c}| == 3;
    SubsetIsNoLarger({a, b, c}, s);
  }

  lemma AtMostTwo(s: set<string>)
    ensures |s| <= 2 <==> forall a, b, c | a in s && b in s && c in s :: a == b || b == c || a == c
  {
    forall a, b, c | a in s && b in s && c in s && a != b && b != c && a != c
      ensures |s| > 2
    {
      ThreeAreThree(s, a, b, c);
    }
    if |s| > 2 {
      var a :| a in s;
      assert |s - {a}| > 1;
      var b :| b in s - {a};
      assert |s - {a} - {b}| > 0;
      var c :| c in s - {a} - {b};
    }
  }

  /** The table is healthy if and only if some slot was never disabled or was disabled at least a
      minute ago, unless there is no slot, and no three servers have been disabled in the last minute. */
  lemma HealthyMeans(slots: seq<Slot>, now: int)
    ensures Healthy(slots, now) <==>
            && (slots != [] ==> exists s <- slots :: s.disableTime == -1 || now >= s.disableTime + 60)
            && var out := set s | s in slots && s.disableTime != -1 && now < s.disableTime + 60 :: s.addr;
               forall a, b, c | a in out && b in out && c in out :: a == b || b == c || a == c
  {
    var out := set s | s in slots && s.disableTime != -1 && now < s.disableTime + 60 :: s.addr;
    assert out == DisabledAddrs(slots, now);
    AtMostTwo(out);
    if slots != [] && exists s <- slots :: s.disableTime == -1 || now >= s.disableTime + 60 {
      var s :| s in slots && (s.disableTime == -1 || now >= s.disableTime + 60);
      var i :| 0 <= i < |slots| && slots[i] == s;
      assert !Disabled(slots[i], now);
    }
  }

  /** After a reload a server that had been disabled less than a minute ago is still disabled, since
      the same time, if another server has a slot whose minute is over and no three servers, this one
      among them, are in their minute. */
  lemma StillOut(slots: seq<Slot>, addr: string, time: int, from: int, to: int)
    requires Settled(slots, addr, time, from, to) && to < time + 60
    requires exists s <- slots :: s.addr != addr && from >= s.disableTime + 60
    requires var out := set s | s in slots && (s.addr == addr || from < s.disableTime + 60) :: s.addr;
      forall a, b, c | a in out && b in out && c in out :: a == b || b == c || a == c
    ensures forall s | s in slots && s.addr == addr :: s.disableTime == time
  {
    var out := set s | s in slots && (s.addr == addr || from < s.disableTime + 60) :: s.addr;
    assert out == Occupied(slots, from, addr);
    AtMostTwo(out);
    var s :| s in slots && s.addr != addr && from >= s.disableTime + 60;
    var i :| 0 <= i < |slots| && slots[i] == s;
    assert Spare(slots[i], from, addr);
  }
}
