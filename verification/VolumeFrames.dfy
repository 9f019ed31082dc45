/** Volume files frame by frame: what the writer sends, and what the reader makes of any bytes. */
module VolumeFrames {
  import opened Bytes
  import opened Positional
  import opened Frames
  import opened VolumeFraming

  /** Every checksum is that of all the bytes from the chunk size on, checksums left out. */
  predicate AllGood(crc: Checksum, before: seq<Byte>, fs: seq<Frame>)
    decreases |fs|
  {
    fs != [] ==> IsBe32(fs[0].sum, crc(before + fs[0].payload)) && AllGood(crc, before + fs[0].payload, fs[1..])
  }

  lemma {:induction false} RemainderIsFrames(crc: Checksum, n: nat, before: seq<Byte>, fs: seq<Frame>,
      last: seq<Byte>, sum: seq<Byte>)
    requires n > 0 && Whole(fs, n) && AllGood(crc, before, fs) && |last| < n
    requires last != [] ==> IsBe32(sum, crc(before + (Payloads(fs) + last)))
    ensures Remainder(crc, n, before, Payloads(fs) + last) == Flat(fs) + if last == [] then [] else last + sum
    decreases |fs|
  {
    hide IsBe32, Be32, Remainder, Flat;
    var tail := if last == [] then [] else last + sum;
    if fs == [] {
      NoFrames();
      assert [] + last == last && [] + tail == tail;
      if last != [] {
        Be32Means(crc(before + last), sum);
      }
      LastRemainder(crc, n, before, last);
    } else {
      var f := fs[0];
      Be32Means(crc(before + f.payload), f.sum);
      FirstFrame(fs, n, tail);
      assert before + (f.payload + Payloads(fs[1..]) + last) == before + f.payload + (Payloads(fs[1..]) + last);
      RemainderIsFrames(crc, n, before + f.payload, fs[1..], last, sum);
      OneMoreFrame(crc, n, before, f.payload, Payloads(fs[1..]) + last);
      assert Payloads(fs) + last == f.payload + (Payloads(fs[1..]) + last);
    }
  }

  lemma LastRemainder(crc: Checksum, n: nat, before: seq<Byte>, last: seq<Byte>)
    requires |last| < n
    ensures Remainder(crc, n, before, last) == if last == [] then [] else last + Be32(crc(before + last))
  {
    hide Be32;
    OneChunkFramed(crc, n, before, last);
  }

  lemma OneMoreFrame(crc: Checksum, n: nat, before: seq<Byte>, payload: seq<Byte>, data: seq<Byte>)
    requires n == |payload| > 0
    ensures Remainder(crc, n, before, payload + data) ==
            payload + Be32(crc(before + payload)) + Remainder(crc, n, before + payload, data)
  {
    hide Be32, Remainder;
    var all := payload + data;
    assert all[..n] == payload && all[n..] == data;
    RemainderSplits(crc, n, before, all);
  }

  /** The file of any data: the chunk size, then each chunk with the checksum up to there; of a chunk that
      is not full there is at most one, at the end. */
  lemma StreamIsFrames(crc: Checksum, n: UInt32, head: seq<Byte>, fs: seq<Frame>, last: seq<Byte>, sum: seq<Byte>)
    requires n > 0 && Whole(fs, n) && |last| < n
    requires IsBe32(head, n) && AllGood(crc, head, fs)
    requires last != [] ==> IsBe32(sum, crc(head + (Payloads(fs) + last)))
    ensures Stream(crc, n, Payloads(fs) + last) == head + (Flat(fs) + if last == [] then [] else last + sum)
  {
    hide IsBe32, Be32, Remainder, Flat;
    Be32Means(n, head);
    RemainderIsFrames(crc, n, head, fs, last, sum);
  }

  // ---------- reading ----------

  /** What is delivered of frames up to the first bad one, and of what follows them. */
  function FromFrames(crc: Checksum, before: seq<Byte>, fs: seq<Frame>, rest: seq<Byte>): (seq<Byte>, Ending)
    decreases |fs|
  {
    if fs == [] then
      if rest == [] then ([], Complete)
      else if |rest| < 4 then ([], Missing)
      else
        var last := rest[..|rest| - 4];
        if IsBe32(rest[|rest| - 4..], crc(before + last)) then (last, Complete) else ([], Wrong)
    else if !IsBe32(fs[0].sum, crc(before + fs[0].payload)) then ([], Wrong)
    else
      var (data, ending) := FromFrames(crc, before + fs[0].payload, fs[1..], rest);
      (fs[0].payload + data, ending)
  }

  lemma {:induction false} DeliveredFromFrames(crc: Checksum, n: nat, before: seq<Byte>, fs: seq<Frame>,
      rest: seq<Byte>)
    requires n > 0 && Whole(fs, n) && |rest| < n + 4
    ensures Delivered(crc, n, before, Flat(fs) + rest) == FromFrames(crc, before, fs, rest)
    decreases |fs|
  {
    hide IsBe32, FromBe32, Delivered, Taken, Flat;
    if fs == [] {
      NoFrames();
      assert [] + rest == rest;
      if |rest| < 4 {
        FewDelivered(crc, n, before, rest);
      } else {
        var (last, sum) := (rest[..|rest| - 4], rest[|rest| - 4..]);
        OnlyChunk(crc, n, before, last, rest);
        Be32Means(crc(before + last), sum);
      }
    } else {
      var f := fs[0];
      FirstFrame(fs, n, rest);
      OneChunk(crc, n, before, f.payload, f.sum, Flat(fs[1..]) + rest);
      Be32Means(crc(before + f.payload), f.sum);
      DeliveredFromFrames(crc, n, before + f.payload, fs[1..], rest);
    }
  }

  /** What is delivered in the end when all frames were good. */
  function AfterFrames(crc: Checksum, before: seq<Byte>, payloads: seq<Byte>, rest: seq<Byte>): (seq<Byte>, Ending) {
    if rest == [] then (payloads, Complete)
    else if |rest| < 4 then (payloads, Missing)
    else
      var data := payloads + rest[..|rest| - 4];
      if IsBe32(rest[|rest| - 4..], crc(before + data)) then (data, Complete) else (payloads, Wrong)
  }

  /** Whatever the input after the chunk size: the payloads before the first frame with a wrong checksum
      are delivered, and then the error; if there is none, all of them and what follows them, if it ends in
      the checksum of everything. */
  lemma {:induction false} FromFramesMeans(crc: Checksum, before: seq<Byte>, fs: seq<Frame>, m: nat, rest: seq<Byte>)
    requires m <= |fs| && AllGood(crc, before, fs[..m])
    ensures m < |fs| && !IsBe32(fs[m].sum, crc(before + (Payloads(fs[..m]) + fs[m].payload))) ==>
              FromFrames(crc, before, fs, rest) == (Payloads(fs[..m]), Wrong)
    ensures m == |fs| ==> FromFrames(crc, before, fs, rest) == AfterFrames(crc, before, Payloads(fs), rest)
    decreases m
  {
    hide IsBe32;
    if m == 0 {
      assert fs[..0] == [];
      if fs == [] && |rest| >= 4 {
        assert [] + rest[..|rest| - 4] == rest[..|rest| - 4];
      } else if fs != [] {
        assert [] + fs[0].payload == fs[0].payload;
      }
    } else {
      var (f, more) := (fs[0], fs[1..]);
      assert fs[..m][0] == f && fs[..m][1..] == more[..m - 1];
      FromFramesMeans(crc, before + f.payload, more, m - 1, rest);
      if m == |fs| && |rest| >= 4 {
        var last := rest[..|rest| - 4];
        assert before + f.payload + (Payloads(more) + last) == before + (f.payload + Payloads(more) + last);
        assert f.payload + (Payloads(more) + last) == f.payload + Payloads(more) + last;
      } else if m < |fs| {
        var bad := fs[m].payload;
        assert before + f.payload + (Payloads(more[..m - 1]) + bad) == before + (f.payload + Payloads(more[..m - 1]) + bad);
      }
    }
  }

  /** Any input with a chunk size: it has to lie between 1 and 2^28. */
  lemma ReceivedFromFrames(crc: Checksum, head: seq<Byte>, n: UInt32, fs: seq<Frame>, rest: seq<Byte>)
    requires IsBe32(head, n) && Whole(fs, n) && |rest| < n + 4
    ensures Received(crc, head + (Flat(fs) + rest)) ==
            if 1 <= n <= 0x1000_0000 then FromFrames(crc, head, fs, rest) else ([], BadSize)
  {
    var (body, input) := (Flat(fs) + rest, head + (Flat(fs) + rest));
    Be32Means(n, head);
    hide IsBe32, FromBe32, Flat, FromFrames;
    assert input[..4] == head && input[4..] == body;
    if n > 0 {
      DeliveredFromFrames(crc, n, head, fs, rest);
    }
  }
}
