/** The pool of connections: who holds which connection, and how many there may be. */
module ConnectionPools {
  import opened Options

  const MAX_IDLE_CONNECTIONS := 128
  const MAX_TOTAL_CONNECTIONS := 65535
  const CLEANUP_INTERVAL := 120

  class CurlConnection {
    const mMaxIdleTime: int
    const mPoolName: string
    var mLastUpdateTime: int
    var mFailed: bool

    constructor (maxIdleTime: int, poolName: string, now: int)
      ensures mPoolName == poolName && mMaxIdleTime == maxIdleTime && !mFailed && mLastUpdateTime == now
    {
      mMaxIdleTime, mPoolName, mLastUpdateTime, mFailed := maxIdleTime, poolName, now, false;
    }

    predicate Usable(now: int)
      reads this
    {
      mLastUpdateTime + mMaxIdleTime >= now && !mFailed
    }
  }

  datatype PoolState = PoolState(idle: seq<CurlConnection>, inUse: nat)

  /** The connections of `s` whose pool is `name`. */
  ghost function Named(s: set<CurlConnection>, name: string): set<CurlConnection> {
    set c | c in s && c.mPoolName == name
  }

  predicate NoRepeats(s: seq<CurlConnection>) {
    forall i, j | 0 <= i < j < |s| :: s[i] != s[j]
  }

  /** One pool against the connections handed out: it counts them, holds none of them, and keeps the
      limits. */
  ghost predicate Sound(name: string, p: PoolState, out: set<CurlConnection>) {
    && p.inUse == |Named(out, name)|
    && NoRepeats(p.idle)
    && (forall c <- p.idle :: c.mPoolName == name && c !in out)
    && |p.idle| <= 128 && |p.idle| + p.inUse <= 65535
  }

  lemma NamedGrows(s: set<CurlConnection>, c: CurlConnection, name: string)
    requires c !in s
    ensures |Named(s + {c}, name)| == |Named(s, name)| + if c.mPoolName == name then 1 else 0
  {
    assert Named(s + {c}, name) == Named(s, name) + if c.mPoolName == name then {c} else {};
  }

  lemma OthersStay(name: string, p: PoolState, out: set<CurlConnection>, c: CurlConnection)
    requires Sound(name, p, out) && c.mPoolName != name
    ensures Sound(name, p, out + {c}) && Sound(name, p, out - {c})
  {
    assert Named(out + {c}, name) == Named(out, name) == Named(out - {c}, name);
  }

  /** An idle connection, or a new one when there is none, is handed out. */
  lemma HandedOut(name: string, p: PoolState, out: set<CurlConnection>, c: CurlConnection, idle: seq<CurlConnection>)
    requires Sound(name, p, out) && c.mPoolName == name && c !in out && c !in idle
    requires NoRepeats(idle) && (forall d <- idle :: d in p.idle)
    requires |idle| < |p.idle| || (|idle| == |p.idle| && |idle| + p.inUse < 65535)
    ensures Sound(name, PoolState(idle, p.inUse + 1), out + {c})
  {
    NamedGrows(out, c, name);
  }

  /** A connection comes back, and is kept or not. */
  lemma GivenBack(name: string, p: PoolState, out: set<CurlConnection>, c: CurlConnection, keep: bool)
    requires Sound(name, p, out) && c.mPoolName == name && c in out && (keep ==> |p.idle| < 128)
    ensures p.inUse > 0 && Sound(name, PoolState(if keep then p.idle + [c] else p.idle, p.inUse - 1), out - {c})
  {
    NamedGrows(out - {c}, c, name);
    assert out - {c} + {c} == out;
  }

  lemma StillSound(name: string, p: PoolState, out: set<CurlConnection>, kept: seq<CurlConnection>)
    requires Sound(name, p, out) && NoRepeats(kept) && |kept| <= |p.idle| && forall c <- kept :: c in p.idle
    ensures Sound(name, PoolState(kept, p.inUse), out)
  {
  }

  ghost predicate OnlyUsable(before: seq<CurlConnection>, after: seq<CurlConnection>, now: int)
    reads before, after
  {
    (forall c <- after :: c in before && c.Usable(now)) && (forall c <- before :: c.Usable(now) ==> c in after)
  }

  ghost function Connections(pools: map<string, PoolState>): set<CurlConnection> {
    set name, c | name in pools && c in pools[name].idle :: c
  }

  /** In the pools of `done` exactly the usable connections are left idle; nothing else has changed. */
  ghost predicate Cleaned(before: map<string, PoolState>, after: map<string, PoolState>, done: set<string>, now: int)
    reads Connections(before), Connections(after)
  {
    && after.Keys == before.Keys
    && forall name | name in before && name in after ::
      && after[name].inUse == before[name].inUse
      && (name in done ==>
          assert (forall c <- before[name].idle :: c in Connections(before)) && (forall c <- after[name].idle :: c in Connections(after));
          OnlyUsable(before[name].idle, after[name].idle, now))
      && (name !in done ==> after[name] == before[name])
  }

  lemma CleanedStep(start: map<string, PoolState>, before: map<string, PoolState>, after: map<string, PoolState>,
                    done: set<string>, name: string, now: int)
    requires Cleaned(start, before, done, now) && name in before && name !in done
    requires name in after && after == before[name := PoolState(after[name].idle, before[name].inUse)]
    requires OnlyUsable(before[name].idle, after[name].idle, now)
    ensures Cleaned(start, after, done + {name}, now)
  {
    hide OnlyUsable;
  }

  /** The pools after a connection was taken back, and kept for the next caller or not. */
  ghost function TakenBack(pools: map<string, PoolState>, conn: CurlConnection, keep: bool): map<string, PoolState>
    requires conn.mPoolName in pools && pools[conn.mPoolName].inUse > 0
  {
    var p := pools[conn.mPoolName];
    pools[conn.mPoolName := PoolState(if keep then p.idle + [conn] else p.idle, p.inUse - 1)]
  }

  lemma OthersKept(pools: map<string, PoolState>, name: string, p: PoolState)
    ensures pools[name := p] - {name} == pools - {name}
  {
  }

  class CurlConnectionPool {
    var mConnectionPools: map<string, PoolState>
    var mLastCleanTimeInSec: int
    /** Who holds each connection that is handed out. */
    ghost var holder: map<CurlConnection, CurlConnectionGuard>

    ghost predicate Valid()
      reads this
    {
      && (forall name <- mConnectionPools :: Sound(name, mConnectionPools[name], holder.Keys))
      && forall c <- holder :: c.mPoolName in mConnectionPools
    }

    constructor ()
      ensures Valid() && mConnectionPools == map[] && holder == map[]
    {
      mConnectionPools, mLastCleanTimeInSec, holder := map[], 0, map[];
    }

    function Idle(poolName: string): seq<CurlConnection>
      reads this
    {
      if poolName in mConnectionPools then mConnectionPools[poolName].idle else []
    }

    function InUse(poolName: string): nat
      reads this
    {
      if poolName in mConnectionPools then mConnectionPools[poolName].inUse else 0
    }

    /** Hands out a connection to `g`: the first good idle one, after `k` that are no good, or a new
        one; null if the limit is reached or none can be made. */
    method Acquire(poolName: string, maxIdleTime: int, now: int,
        ghost g: CurlConnectionGuard) returns (conn: CurlConnection?, ghost made: bool, ghost k: nat)
      requires Valid()
      modifies this, Idle(poolName)
      ensures Valid() && mConnectionPools - {poolName} == old(mConnectionPools) - {poolName}
      ensures conn != null ==> conn.mPoolName == poolName && conn !in old(holder) && holder == old(holder)[conn := g]
      ensures conn != null ==> conn.mMaxIdleTime >= 0 ==> conn.Usable(now)
      ensures conn == null ==> holder == old(holder)
      ensures k <= |old(Idle(poolName))|
      ensures forall i | 0 <= i < k :: var c := old(Idle(poolName))[i];
        old(c.mFailed) || old(c.mLastUpdateTime) + c.mMaxIdleTime < now
      ensures k < |old(Idle(poolName))| ==>
        && conn == old(Idle(poolName))[k] && !old(conn.mFailed) && old(conn.mLastUpdateTime) + conn.mMaxIdleTime >= now
        && Idle(poolName) == old(Idle(poolName))[k + 1..]
      ensures k == |old(Idle(poolName))| ==>
        && Idle(poolName) == [] && (conn == null || fresh(conn))
        && (conn == null <==> old(InUse(poolName)) >= 65535 || !made)
    {
      hide Sound, Valid, NoRepeats;
      if poolName !in mConnectionPools {
        AddPool(poolName);
      }
      made := false;
      conn, k := TakeIdle(poolName, now, g);
      if conn != null {
        return;
      }
      if |mConnectionPools[poolName].idle| + mConnectionPools[poolName].inUse >= MAX_TOTAL_CONNECTIONS {
        return;
      }
      var connected: bool := *;
      made := connected;
      if connected {
        conn := Connect(poolName, maxIdleTime, now, g);
      }
    }

    /** Hands out a new connection; no idle one is left. */
    method Connect(poolName: string, maxIdleTime: int, now: int, ghost g: CurlConnectionGuard) returns (conn: CurlConnection)
      requires Valid() && poolName in mConnectionPools && Idle(poolName) == [] && InUse(poolName) < 65535
      modifies `mConnectionPools, `holder
      ensures Valid() && poolName in mConnectionPools && Idle(poolName) == [] && holder == old(holder)[conn := g]
      ensures fresh(conn) && conn.mPoolName == poolName && (conn.mMaxIdleTime >= 0 ==> conn.Usable(now))
      ensures mConnectionPools - {poolName} == old(mConnectionPools) - {poolName}
    {
      hide Sound, Valid;
      conn := new CurlConnection(maxIdleTime, poolName, now);
      HandOut(poolName, [], conn, g);
    }

    /** Goes through the idle connections from the front, dropping those that are no good: `k` of
        them are dropped before one is found. */
    method TakeIdle(poolName: string, now: int, ghost g: CurlConnectionGuard) returns (conn: CurlConnection?,
        ghost k: nat)
      requires Valid() && poolName in mConnectionPools
      modifies `mConnectionPools, `holder, Idle(poolName)
      ensures Valid() && poolName in mConnectionPools && k <= |old(Idle(poolName))|
      ensures forall i | 0 <= i < k :: var c := old(Idle(poolName))[i];
        old(c.mFailed) || old(c.mLastUpdateTime) + c.mMaxIdleTime < now
      ensures mConnectionPools - {poolName} == old(mConnectionPools) - {poolName}
      ensures conn != null ==> && k < |old(Idle(poolName))| && conn == old(Idle(poolName))[k]
                               && !old(conn.mFailed) && old(conn.mLastUpdateTime) + conn.mMaxIdleTime >= now
                               && Idle(poolName) == old(Idle(poolName))[k + 1..]
                               && conn.mPoolName == poolName && conn !in old(holder) && holder == old(holder)[conn := g]
      ensures conn != null && conn.mMaxIdleTime >= 0 ==> conn.Usable(now)
      ensures conn == null ==> && holder == old(holder) && k == |old(Idle(poolName))|
                               && Idle(poolName) == [] && InUse(poolName) == old(InUse(poolName))
    {
      hide Sound, NoRepeats, Valid;
      k := 0;
      ghost var all := Idle(poolName);
      while Idle(poolName) != [] && !Idle(poolName)[0].Usable(now)
        invariant Valid() && poolName in mConnectionPools && InUse(poolName) == old(InUse(poolName))
        invariant k <= |all| && Idle(poolName) == all[k..]
        invariant mConnectionPools - {poolName} == old(mConnectionPools) - {poolName}
        invariant forall i | 0 <= i < k :: !all[i].Usable(now)
        decreases |Idle(poolName)|
        modifies `mConnectionPools
      {
        DropFirst(poolName);
        k := k + 1;
      }
      if Idle(poolName) == [] {
        return null, k;
      }
      conn := TakeFirst(poolName, now, g);
    }

    /** Hands out the first of the idle connections. */
    method TakeFirst(poolName: string, now: int, ghost g: CurlConnectionGuard) returns (conn: CurlConnection)
      requires Valid() && poolName in mConnectionPools && Idle(poolName) != []
      modifies `mConnectionPools, `holder, Idle(poolName)[0]
      ensures Valid() && poolName in mConnectionPools && conn == old(Idle(poolName))[0] && conn.mPoolName == poolName
      ensures Idle(poolName) == old(Idle(poolName))[1..] && conn !in old(holder) && holder == old(holder)[conn := g]
      ensures mConnectionPools - {poolName} == old(mConnectionPools) - {poolName}
      ensures conn.mMaxIdleTime >= 0 ==> conn.Usable(now) == !old(Idle(poolName)[0].mFailed)
    {
      hide Sound, NoRepeats, Valid;
      conn := Idle(poolName)[0];
      FirstIdle(poolName);
      HandOut(poolName, Idle(poolName)[1..], conn, g);
      Touch(conn, now);
    }

    method Touch(conn: CurlConnection, now: int)
      modifies conn
      ensures Valid() == old(Valid()) && mConnectionPools == old(mConnectionPools) && holder == old(holder)
      ensures conn.mMaxIdleTime >= 0 ==> conn.Usable(now) == !old(conn.mFailed)
    {
      conn.mLastUpdateTime := now;
    }

    lemma FirstIdle(poolName: string)
      requires Valid() && poolName in mConnectionPools && Idle(poolName) != []
      ensures var (first, rest) := (Idle(poolName)[0], Idle(poolName)[1..]);
        && first.mPoolName == poolName && first !in holder && first !in rest && NoRepeats(rest)
        && (forall c <- rest :: c in Idle(poolName)) && first in Idle(poolName)
        && (forall name <- mConnectionPools :: name != poolName ==> first !in mConnectionPools[name].idle)
    {
      var idle := Idle(poolName);
      assert idle == mConnectionPools[poolName].idle && idle[0] in idle;
      assert forall c <- idle[1..] :: c in idle;
    }

    method DropFirst(poolName: string)
      requires Valid() && poolName in mConnectionPools && Idle(poolName) != []
      modifies `mConnectionPools
      ensures Valid() && poolName in mConnectionPools && InUse(poolName) == old(InUse(poolName))
      ensures Idle(poolName) == old(Idle(poolName))[1..]
      ensures mConnectionPools - {poolName} == old(mConnectionPools) - {poolName}
    {
      FirstIdle(poolName);
      var p := mConnectionPools[poolName];
      mConnectionPools := mConnectionPools[poolName := PoolState(p.idle[1..], p.inUse)];
    }

    ghost method Reassign(c: CurlConnection, g: CurlConnectionGuard)
      requires Valid() && c in holder
      modifies `holder
      ensures Valid() && holder == old(holder)[c := g]
    {
      assert holder[c := g].Keys == holder.Keys;
      holder := holder[c := g];
    }

    method AddPool(poolName: string)
      requires Valid() && poolName !in mConnectionPools
      modifies `mConnectionPools
      ensures Valid() && mConnectionPools == old(mConnectionPools)[poolName := PoolState([], 0)]
    {
      mConnectionPools := mConnectionPools[poolName := PoolState([], 0)];
      assert Named(holder.Keys, poolName) == {};
    }

    method HandOut(poolName: string, idle: seq<CurlConnection>, c: CurlConnection, ghost g: CurlConnectionGuard)
      requires Valid() && poolName in mConnectionPools && c.mPoolName == poolName && c !in holder && c !in idle
      requires NoRepeats(idle) && forall d <- idle :: d in Idle(poolName)
      requires forall name <- mConnectionPools :: name != poolName ==> c !in mConnectionPools[name].idle
      requires |idle| < |Idle(poolName)| || (|idle| == |Idle(poolName)| && |idle| + InUse(poolName) < 65535)
      modifies `mConnectionPools, `holder
      ensures Valid() && holder == old(holder)[c := g] && poolName in mConnectionPools && Idle(poolName) == idle
      ensures mConnectionPools - {poolName} == old(mConnectionPools) - {poolName}
    {
      ghost var p := PoolState(idle, mConnectionPools[poolName].inUse + 1);
      OthersKept(mConnectionPools, poolName, p);
      HandedOut(poolName, mConnectionPools[poolName], holder.Keys, c, idle);
      forall name <- mConnectionPools | name != poolName
        ensures Sound(name, mConnectionPools[name], holder.Keys + {c})
      {
        OthersStay(name, mConnectionPools[name], holder.Keys, c);
      }
      hide Sound;
      mConnectionPools := mConnectionPools[poolName := PoolState(idle, mConnectionPools[poolName].inUse + 1)];
      assert holder[c := g].Keys == holder.Keys + {c};
      holder := holder[c := g];
    }

    /** Takes a connection back. A good one is kept for the next caller, unless there are enough or
        resetting it fails; all other idle connections stay, unless a clean-up is due. */
    method Release(conn: CurlConnection, now: int) returns (ghost resets: bool)
      requires Valid() && conn in holder
      modifies this, conn
      ensures Valid() && holder == old(holder) - {conn}
      ensures conn.mPoolName in old(mConnectionPools) && old(mConnectionPools[conn.mPoolName]).inUse > 0
      ensures InUse(conn.mPoolName) == old(InUse(conn.mPoolName)) - 1
      ensures !old(conn.Usable(now)) ==> conn !in Idle(conn.mPoolName)
      ensures var good := old(conn.Usable(now)) && |old(Idle(conn.mPoolName))| < 128;
        var pools := TakenBack(old(mConnectionPools), conn, good && resets);
        if good && now - old(mLastCleanTimeInSec) > 120 then Cleaned(pools, mConnectionPools, mConnectionPools.Keys, now)
        else mConnectionPools == pools
      ensures old(conn.Usable(now)) && conn.mMaxIdleTime >= 0 ==> conn.Usable(now)
    {
      hide Sound, NoRepeats, OnlyUsable, Cleaned;
      var p := mConnectionPools[conn.mPoolName];
      NotIdle(conn);
      InUseCounts(conn);
      var reset: bool := *;
      resets := reset;
      var keep := conn.Usable(now) && |p.idle| < MAX_IDLE_CONNECTIONS;
      TakeBack(conn, keep && reset);
      if keep {
        if reset {
          conn.mFailed, conn.mLastUpdateTime := false, now;
        }
        if now - mLastCleanTimeInSec > CLEANUP_INTERVAL {
          ghost var pools := mConnectionPools;
          CleanupConnections(now);
          CountsStay(pools, conn.mPoolName, now);
        }
      }
    }

    lemma CountsStay(pools: map<string, PoolState>, name: string, now: int)
      requires Cleaned(pools, mConnectionPools, mConnectionPools.Keys, now) && name in pools
      ensures InUse(name) == pools[name].inUse
    {
    }

    lemma InUseCounts(conn: CurlConnection)
      requires Valid() && conn in holder
      ensures conn.mPoolName in mConnectionPools && mConnectionPools[conn.mPoolName].inUse > 0
    {
      assert conn in Named(holder.Keys, conn.mPoolName);
    }

    lemma NotIdle(conn: CurlConnection)
      requires Valid() && conn in holder
      ensures conn !in Idle(conn.mPoolName)
    {
    }

    method TakeBack(conn: CurlConnection, keep: bool)
      requires Valid() && conn in holder && (keep ==> |Idle(conn.mPoolName)| < 128)
      modifies `mConnectionPools, `holder
      ensures Valid() && holder == old(holder) - {conn}
      ensures InUse(conn.mPoolName) == old(InUse(conn.mPoolName)) - 1
      ensures Idle(conn.mPoolName) == if keep then old(Idle(conn.mPoolName)) + [conn] else old(Idle(conn.mPoolName))
      ensures conn.mPoolName in old(mConnectionPools) && old(mConnectionPools[conn.mPoolName]).inUse > 0
      ensures mConnectionPools == TakenBack(old(mConnectionPools), conn, keep)
    {
      InUseCounts(conn);
      var name := conn.mPoolName;
      var p := mConnectionPools[name];
      GivenBack(name, p, holder.Keys, conn, keep);
      forall other <- mConnectionPools | other != name
        ensures Sound(other, mConnectionPools[other], holder.Keys - {conn})
      {
        OthersStay(other, mConnectionPools[other], holder.Keys, conn);
      }
      hide Sound;
      mConnectionPools := mConnectionPools[name := PoolState(if keep then p.idle + [conn] else p.idle, p.inUse - 1)];
      assert (holder - {conn}).Keys == holder.Keys - {conn};
      holder := holder - {conn};
    }

    /** Drops idle connections that have expired or failed, in all pools. */
    method CleanupConnections(now: int)
      requires Valid()
      modifies `mConnectionPools, `mLastCleanTimeInSec
      ensures Valid() && mLastCleanTimeInSec == now
      ensures Cleaned(old(mConnectionPools), mConnectionPools, mConnectionPools.Keys, now)
    {
      hide Sound;
      var left := mConnectionPools.Keys;
      while left != {}
        invariant Valid() && left <= mConnectionPools.Keys
        invariant Cleaned(old(mConnectionPools), mConnectionPools, mConnectionPools.Keys - left, now)
      {
        hide Cleaned, Valid, OnlyUsable;
        var name :| name in left;
        ghost var (before, done) := (mConnectionPools, mConnectionPools.Keys - left);
        CleanPool(name, now);
        CleanedStep(old(mConnectionPools), before, mConnectionPools, done, name, now);
        left := left - {name};
        assert mConnectionPools.Keys - left == done + {name};
      }
      mLastCleanTimeInSec := now;
    }

    method CleanPool(name: string, now: int)
      requires Valid() && name in mConnectionPools
      modifies `mConnectionPools
      ensures Valid() && name in mConnectionPools
      ensures mConnectionPools == old(mConnectionPools)[name := PoolState(Idle(name), old(InUse(name)))]
      ensures OnlyUsable(old(Idle(name)), Idle(name), now)
    {
      hide Sound, NoRepeats;
      var p := mConnectionPools[name];
      IdleIsDistinct(name);
      var kept := UsableOnes(p.idle, now);
      StillSound(name, p, holder.Keys, kept);
      mConnectionPools := mConnectionPools[name := PoolState(kept, p.inUse)];
    }

    lemma IdleIsDistinct(name: string)
      requires Valid() && name in mConnectionPools
      ensures NoRepeats(mConnectionPools[name].idle)
    {
    }

    method UsableOnes(idle: seq<CurlConnection>, now: int) returns (kept: seq<CurlConnection>)
      requires NoRepeats(idle)
      ensures NoRepeats(kept) && |kept| <= |idle|
      ensures OnlyUsable(idle, kept, now)
    {
      kept := [];
      var i := 0;
      while i < |idle|
        invariant 0 <= i <= |idle| && |kept| <= i && NoRepeats(kept)
        invariant forall c <- kept :: c in idle[..i] && c.Usable(now)
        invariant forall c <- idle[..i] :: c.Usable(now) ==> c in kept
      {
        assert idle[..i + 1] == idle[..i] + [idle[i]];
        if idle[i].Usable(now) {
          assert idle[i] !in kept;
          kept := kept + [idle[i]];
        }
        i := i + 1;
      }
      assert idle[..i] == idle;
    }
  }

  /** Whoever holds a guard holds its connection, until the guard gives it back or is moved. */
  class CurlConnectionGuard {
    var mConnection: CurlConnection?
    var mPool: CurlConnectionPool?

    ghost predicate Holds()
      reads this, mPool
    {
      && (mConnection == null <==> mPool == null)
      && (mPool != null ==> mPool.Valid() && mConnection in mPool.holder && mPool.holder[mConnection] == this)
    }

    predicate Active()
      reads this
    {
      mConnection != null && mPool != null
    }

    constructor ()
      ensures mConnection == null && mPool == null && Holds()
    {
      mConnection, mPool := null, null;
    }

    method AcquireFrom(pool: CurlConnectionPool, poolName: string, maxIdleTime: int,
        now: int) returns (ok: bool, ghost made: bool, ghost k: nat)
      requires pool.Valid() && mConnection == null && mPool == null
      modifies this, pool, pool.Idle(poolName)
      ensures Holds() && pool.Valid()
      ensures ok ==> Active() && mPool == pool && mConnection !in old(pool.holder) && pool.holder == old(pool.holder)[mConnection := this]
      ensures !ok ==> !Active() && pool.holder == old(pool.holder)
      ensures k <= |old(pool.Idle(poolName))| && forall i | 0 <= i < k :: var c := old(pool.Idle(poolName))[i];
        old(c.mFailed) || old(c.mLastUpdateTime) + c.mMaxIdleTime < now
      ensures !ok <==> k == |old(pool.Idle(poolName))| && (old(pool.InUse(poolName)) >= 65535 || !made)
    {
      hide CurlConnectionPool.Valid;
      var conn;
      conn, made, k := pool.Acquire(poolName, maxIdleTime, now, this);
      ok := conn != null;
      if ok {
        mConnection, mPool := conn, pool;
      }
    }

    /** Gives the connection back, once: after that the guard holds nothing. */
    method Release(now: int)
      requires Holds()
      modifies this, mPool, mConnection
      ensures Holds() && !Active()
      ensures old(Active()) ==> old(mPool).Valid() && old(mPool).holder == old(mPool.holder) - {old(mConnection)}
    {
      if mConnection != null && mPool != null {
        ghost var resets := mPool.Release(mConnection, now);
        mConnection, mPool := null, null;
      }
    }

    /** Move assignment from a guard of the same pool. */
    method MoveFrom(other: CurlConnectionGuard, now: int)
      requires Holds() && other.Holds() && (Active() && other.Active() ==> mPool == other.mPool)
      modifies this, other, mPool, mConnection, other.mPool
      ensures Holds() && (this != other ==> !other.Active() && Active() == old(other.Active()))
      ensures this != other && old(other.Active()) ==> mConnection == old(other.mConnection) && mPool == old(other.mPool)
      ensures this == other ==> mConnection == old(mConnection) && mPool == old(mPool)
      ensures this != other && old(Active()) ==> old(mConnection) !in old(mPool).holder
    {
      hide CurlConnectionPool.Valid;
      if this != other {
        Release(now);
        TakeOver(other);
      }
    }

    /** Takes what the other guard holds; this one holds nothing yet. */
    method TakeOver(other: CurlConnectionGuard)
      requires this != other && !Active() && Holds() && other.Holds()
      modifies this, other, other.mPool
      ensures Holds() && !other.Active() && mConnection == old(other.mConnection) && mPool == old(other.mPool)
      ensures old(other.mPool) != null ==> old(other.mPool).holder.Keys == old(other.mPool.holder.Keys)
    {
      hide CurlConnectionPool.Valid;
      mConnection, mPool := other.mConnection, other.mPool;
      other.mConnection, other.mPool := null, null;
      if mConnection != null && mPool != null {
        mPool.Reassign(mConnection, this);
      }
    }
  }
}
