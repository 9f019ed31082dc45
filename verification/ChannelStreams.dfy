/** The byte queues between a connection and the transfer library, which calls back to fill the one
    and to empty the other. */
module ChannelStreams {
  import opened Bytes

  class ChannelStream {
    var buffer: array<Byte>
    var buffer_pos: nat
    var buffer_bytes: nat
    var total_bytes: nat

    predicate Valid()
      reads this
    {
      buffer_pos <= buffer_bytes <= buffer.Length
    }

    /** What has been put in and not yet taken out. */
    function Pending(): (p: seq<Byte>)
      requires Valid()
      reads this, buffer
      ensures |p| == buffer_bytes - buffer_pos
    {
      buffer[buffer_pos..buffer_bytes]
    }

    constructor (size: nat)
      ensures Valid() && fresh(buffer) && buffer.Length == size && Pending() == [] && total_bytes == 0
    {
      buffer := new Byte[size];
      buffer_pos, buffer_bytes, total_bytes := 0, 0, 0;
    }

    /** Moves what is pending to the front. */
    method ReuseBuffer()
      requires Valid()
      modifies this`buffer_pos, this`buffer_bytes, buffer
      ensures Valid() && buffer_pos == 0 && Pending() == old(Pending())
    {
      if buffer_pos == 0 {
        return;
      }
      var n := buffer_bytes - buffer_pos;
      forall i | 0 <= i < n {
        buffer[i] := buffer[buffer_pos + i];
      }
      buffer_bytes, buffer_pos := n, 0;
    }

    method ReallocBuffer(size: nat)
      requires Valid()
      modifies this`buffer, this`buffer_pos, this`buffer_bytes
      ensures Valid() && Pending() == old(Pending())
      ensures size > old(buffer.Length) ==> fresh(buffer) && buffer.Length == size && buffer_pos == 0
      ensures size <= old(buffer.Length) ==> buffer == old(buffer) && buffer_pos == old(buffer_pos) && buffer_bytes == old(buffer_bytes)
    {
      if size <= buffer.Length {
        return;
      }
      var newbuff := new Byte[size];
      var n := buffer_bytes - buffer_pos;
      forall i | 0 <= i < n {
        newbuff[i] := buffer[buffer_pos + i];
      }
      buffer, buffer_bytes, buffer_pos := newbuff, n, 0;
    }

    method PutBuffer(data: seq<Byte>)
      requires Valid() && buffer_bytes + |data| <= buffer.Length
      modifies this`buffer_bytes, buffer
      ensures Valid() && buffer_bytes == old(buffer_bytes) + |data| && Pending() == old(Pending()) + data
    {
      forall i | 0 <= i < |data| {
        buffer[buffer_bytes + i] := data[i];
      }
      buffer_bytes := buffer_bytes + |data|;
    }

    method GetBuffer(n: nat) returns (data: seq<Byte>)
      requires Valid()
      modifies this`buffer_pos
      ensures Valid() && data + Pending() == old(Pending())
      ensures |data| == Min(n, |old(Pending())|)
    {
      var count := if buffer_bytes - buffer_pos > n then n else buffer_bytes - buffer_pos;
      data := buffer[buffer_pos..buffer_pos + count];
      buffer_pos := buffer_pos + count;
    }

    /** The library hands over received data, however much. There is always room for it, and after a
        reallocation not a byte more than that. */
    method WriteCallback(data: seq<Byte>)
      requires Valid()
      modifies this, buffer
      ensures Valid() && Pending() == old(Pending()) + data && total_bytes == old(total_bytes) + |data|
      ensures buffer == old(buffer) || (fresh(buffer) && buffer_bytes == buffer.Length)
    {
      var rembuff := buffer.Length - buffer_bytes + buffer_pos;
      if |data| > buffer.Length - buffer_bytes {
        if |data| <= rembuff {
          ReuseBuffer();
        } else {
          ReallocBuffer(buffer.Length + |data| - rembuff);
        }
      }
      PutBuffer(data);
      total_bytes := total_bytes + |data|;
    }

    /** The library asks for data to send. */
    method ReadCallback(size: nat) returns (data: seq<Byte>)
      requires Valid()
      modifies this`buffer_pos, this`total_bytes
      ensures Valid() && data + Pending() == old(Pending()) && |data| == Min(size, |old(Pending())|)
      ensures total_bytes == old(total_bytes) + |data|
    {
      data := GetBuffer(size);
      total_bytes := total_bytes + |data|;
    }
  }

  lemma Grows(wire: seq<Byte>, pending: seq<Byte>, before: seq<Byte>, data: seq<Byte>, at: nat, n: nat)
    requires at + n <= |data| && wire + pending == before + data[..at]
    ensures wire + (pending + data[at..at + n]) == before + data[..at + n]
  {
    assert data[..at + n] == data[..at] + data[at..at + n];
    assert wire + (pending + data[at..at + n]) == wire + pending + data[at..at + n];
  }

  lemma Moved(before: seq<Byte>, data: seq<Byte>, after: seq<Byte>)
    ensures before + data + after == before + (data + after)
  {
  }

  datatype Driven = Drained | Stuck | Threw

  /** Each time that the library ran after `before`, it drained the stream. */
  predicate AllDrained(before: seq<Driven>, now: seq<Driven>) {
    before <= now && forall i | |before| <= i < |now| :: now[i] == Drained
  }

  /** The sending side of a connection. */
  class Upstream {
    const stream: ChannelStream
    /** What the library has taken to send. */
    ghost var wire: seq<Byte>
    /** How it went each time that the library was let run. */
    ghost var drives: seq<Driven>

    ghost predicate Valid()
      reads this, stream
    {
      stream.Valid()
    }

    constructor (stream: ChannelStream)
      requires stream.Valid()
      ensures Valid() && this.stream == stream && wire == [] && drives == []
    {
      this.stream, wire, drives := stream, [], [];
    }

    method TakeSome(size: nat)
      requires Valid()
      modifies `wire, stream`buffer_pos, stream`total_bytes
      ensures Valid() && wire + stream.Pending() == old(wire + stream.Pending())
    {
      hide ChannelStream.Pending, Min;
      ghost var (before, pending) := (wire, stream.Pending());
      var data := stream.ReadCallback(size);
      Moved(before, data, stream.Pending());
      wire := wire + data;
    }

    /** Lets the library run: it calls back as often as it likes and for as much as it likes. */
    method Drive() returns (r: Driven)
      requires Valid()
      modifies this, stream`buffer_pos, stream`total_bytes
      ensures Valid() && wire + stream.Pending() == old(wire + stream.Pending())
      ensures r == Drained ==> stream.Pending() == []
      ensures r == Stuck ==> stream.Pending() != []
      ensures drives == old(drives) + [r]
    {
      ghost var all := wire + stream.Pending();
      var rounds: nat := *;
      while rounds > 0
        invariant Valid() && wire + stream.Pending() == all && drives == old(drives)
      {
        var size: nat := *;
        TakeSome(size);
        rounds := rounds - 1;
      }
      var threw: bool := *;
      r := if threw then Threw else if stream.buffer_pos == stream.buffer_bytes then Drained else Stuck;
      Log(r);
    }

    ghost method Log(r: Driven)
      modifies `drives
      ensures drives == old(drives) + [r]
    {
      drives := drives + [r];
    }

    /** Sends all of the data in order. It fails only if the library threw or did not take everything;
        then what was sent and what is still pending are the beginning of the data. */
    method Write(data: seq<Byte>) returns (ok: bool)
      requires Valid() && stream.buffer.Length > 0
      modifies this, stream, stream.buffer
      ensures Valid() && stream.buffer == old(stream.buffer)
      ensures ok ==> wire + stream.Pending() == old(wire + stream.Pending()) + data
      ensures ok && data != [] ==> stream.Pending() == []
      ensures old(drives) <= drives && (ok <==> AllDrained(old(drives), drives))
      ensures !ok ==> exists k | 0 <= k <= |data| :: wire + stream.Pending() == old(wire + stream.Pending()) + data[..k]
    {
      hide ChannelStream.Pending;
      ghost var before := wire + stream.Pending();
      var len := |data|;
      while len > 0
        invariant Valid() && stream.buffer == old(stream.buffer) && 0 <= len <= |data|
        invariant wire + stream.Pending() == before + data[..|data| - len]
        invariant AllDrained(old(drives), drives)
        invariant len < |data| ==> stream.Pending() == []
        decreases len, |stream.Pending()|
      {
        var at := |data| - len;
        stream.ReuseBuffer();
        var rembuff := stream.buffer.Length - stream.buffer_bytes;
        var n := if len > rembuff then rembuff else len;
        Grows(wire, stream.Pending(), before, data, at, n);
        stream.PutBuffer(data[at..at + n]);
        if stream.buffer_bytes > stream.buffer_pos {
          var r := Drive();
          if r != Drained {
            assert drives[|drives| - 1] != Drained;
            return false;
          }
        }
        len := len - n;
      }
      assert data[..|data|] == data;
      ok := true;
    }
  }

  /** The receiving side of a connection. */
  class Downstream {
    const stream: ChannelStream
    /** What the library has received, and what the caller has read of it. */
    ghost var arrived: seq<Byte>
    ghost var taken: seq<Byte>

    ghost predicate Valid()
      reads this, stream, stream.buffer
    {
      stream.Valid() && arrived == taken + stream.Pending()
    }

    constructor (stream: ChannelStream)
      requires stream.Valid() && stream.Pending() == []
      ensures Valid() && this.stream == stream && taken == []
    {
      this.stream, arrived, taken := stream, [], [];
    }

    method Arrive(data: seq<Byte>)
      requires Valid()
      modifies this`arrived, stream, stream.buffer
      ensures Valid() && arrived == old(arrived) + data
      ensures stream.buffer == old(stream.buffer) || fresh(stream.buffer)
    {
      stream.WriteCallback(data);
      arrived := arrived + data;
    }

    /** Reads what there is, after letting the library run if there is nothing. */
    method Read(size: nat, incoming: seq<seq<Byte>>) returns (data: seq<Byte>)
      requires Valid()
      modifies this, stream, stream.buffer
      ensures Valid() && taken == old(taken) + data && taken <= arrived
      ensures |data| == Min(size, |arrived| - |old(taken)|)
      ensures old(arrived) <= arrived
      ensures old(stream.Pending()) != [] ==> arrived == old(arrived)
    {
      if stream.buffer_bytes == stream.buffer_pos {
        stream.ReuseBuffer();
        var i := 0;
        while i < |incoming|
          invariant 0 <= i <= |incoming| && Valid() && taken == old(taken) && old(arrived) <= arrived
          invariant stream.buffer == old(stream.buffer) || fresh(stream.buffer)
        {
          Arrive(incoming[i]);
          i := i + 1;
        }
      }
      data := Take(size);
    }

    method Take(size: nat) returns (data: seq<Byte>)
      requires Valid()
      modifies this`taken, stream`buffer_pos
      ensures Valid() && taken == old(taken) + data && taken <= arrived && |data| == Min(size, |arrived| - |old(taken)|)
    {
      ghost var (before, pending) := (taken, stream.Pending());
      hide ChannelStream.Pending;
      assert |arrived| == |before| + |pending|;
      data := stream.GetBuffer(size);
      Moved(before, data, stream.Pending());
      taken := taken + data;
    }
  }
}
