/** Arrow streams frame by frame: what the writer sends, and what the reader makes of any bytes. */
module ArrowFrames {
  import opened Bytes
  import opened Positional
  import opened Frames
  import opened ArrowFraming

  /** The checksum of a whole chunk is that of its own data. */
  predicate Good(crc: Checksum, f: Frame) {
    IsBe32(f.sum, crc(f.payload))
  }

  predicate AllGood(crc: Checksum, fs: seq<Frame>) {
    forall i | 0 <= i < |fs| :: Good(crc, fs[i])
  }

  lemma {:induction false} RemainderIsFrames(crc: Checksum, n: nat, before: seq<Byte>, fs: seq<Frame>,
      last: seq<Byte>, sum: seq<Byte>)
    requires n > 0 && Whole(fs, n) && AllGood(crc, fs) && |last| < n
    requires IsBe32(sum, crc(before + (Payloads(fs) + last)))
    ensures Remainder(crc, n, before, Payloads(fs) + last) == Flat(fs) + (last + sum)
    decreases |fs|
  {
    hide IsBe32, Be32;
    Be32Means(crc(before + (Payloads(fs) + last)), sum);
    if fs == [] {
      assert [] + last == last && [] + (last + sum) == last + sum;
      ShortIsFramed(crc, n, last);
      hide Framed;
    } else {
      var f := fs[0];
      assert Good(crc, f);
      Be32Means(crc(f.payload), f.sum);
      FirstFrame(fs, n, last + sum);
      assert before + (f.payload + Payloads(fs[1..]) + last) == before + f.payload + (Payloads(fs[1..]) + last);
      RemainderIsFrames(crc, n, before + f.payload, fs[1..], last, sum);
      OneMoreFrame(crc, n, before, f.payload, Payloads(fs[1..]) + last);
      assert Payloads(fs) + last == f.payload + (Payloads(fs[1..]) + last);
    }
  }

  lemma OneMoreFrame(crc: Checksum, n: nat, before: seq<Byte>, payload: seq<Byte>, data: seq<Byte>)
    requires n == |payload| > 0
    ensures Remainder(crc, n, before, payload + data) ==
            payload + Be32(crc(payload)) + Remainder(crc, n, before + payload, data)
  {
    hide Be32, Framed;
    var all := payload + data;
    assert all[..n] == payload && all[n..] == data;
    FramedUnfolds(crc, n, all);
    assert before + all == before + payload + data;
  }

  /** The stream of any data: the chunk size, each whole chunk with the checksum of its data, what is left
      and the checksum of all data, every number in network byte order. */
  lemma StreamIsFrames(crc: Checksum, n: UInt32, head: seq<Byte>, fs: seq<Frame>, last: seq<Byte>, sum: seq<Byte>)
    requires n > 0 && Whole(fs, n) && AllGood(crc, fs) && |last| < n
    requires IsBe32(head, n) && IsBe32(sum, crc(Payloads(fs) + last))
    ensures Stream(crc, n, Payloads(fs) + last) == head + Flat(fs) + (last + sum)
  {
    hide IsBe32, Be32, Framed, Flat;
    var data := Payloads(fs) + last;
    assert [] + data == data;
    Be32Means(n, head);
    RemainderIsFrames(crc, n, [], fs, last, sum);
  }

  // ---------- reading ----------

  /** What is delivered of frames up to the first bad one, and of what follows them. */
  function FromFrames(crc: Checksum, before: seq<Byte>, fs: seq<Frame>, rest: seq<Byte>): (seq<Byte>, Ending)
    decreases |fs|
  {
    if fs == [] then
      if |rest| < 4 then ([], Missing)
      else
        var last := rest[..|rest| - 4];
        if IsBe32(rest[|rest| - 4..], crc(before + last)) then (last, Complete) else ([], Wrong)
    else if !Good(crc, fs[0]) then ([], Wrong)
    else
      var (data, ending) := FromFrames(crc, before + fs[0].payload, fs[1..], rest);
      (fs[0].payload + data, ending)
  }

  lemma {:induction false} DeliveredFromFrames(crc: Checksum, n: UInt32, before: seq<Byte>, fs: seq<Frame>,
      rest: seq<Byte>)
    requires Usable(n) && Whole(fs, n) && |rest| < n + 4
    ensures Delivered(crc, n, before, Flat(fs) + rest) == FromFrames(crc, before, fs, rest)
    decreases |fs|
  {
    hide IsBe32, FromBe32, Delivered, Taken, Flat;
    if fs == [] {
      NoFrames();
      assert [] + rest == rest;
      if |rest| < 4 {
        FewBytesMissing(crc, n, before, rest);
      } else {
        var (last, sum) := (rest[..|rest| - 4], rest[|rest| - 4..]);
        assert rest == last + sum;
        LastChunk(crc, n, before, last, sum);
        Be32Means(crc(before + last), sum);
      }
    } else {
      var f := fs[0];
      FirstFrame(fs, n, rest);
      FullChunk(crc, n, before, f.payload, f.sum, Flat(fs[1..]) + rest);
      Be32Means(crc(f.payload), f.sum);
      DeliveredFromFrames(crc, n, before + f.payload, fs[1..], rest);
    }
  }

  /** What is delivered in the end when all frames were good. */
  function AfterFrames(crc: Checksum, before: seq<Byte>, payloads: seq<Byte>, rest: seq<Byte>): (seq<Byte>, Ending) {
    if |rest| < 4 then (payloads, Missing)
    else
      var data := payloads + rest[..|rest| - 4];
      if IsBe32(rest[|rest| - 4..], crc(before + data)) then (data, Complete) else (payloads, Wrong)
  }

  lemma GoodFront(crc: Checksum, fs: seq<Frame>)
    requires fs != []
    ensures AllGood(crc, fs) <==> Good(crc, fs[0]) && AllGood(crc, fs[1..])
  {
    hide Good;
    assert fs == [fs[0]] + fs[1..];
  }

  /** Whatever the input after a usable chunk size: the payloads before the first frame with a wrong
      checksum are delivered, and then the error; if there is none, all of them and what follows them, if
      it ends in the checksum of everything. */
  lemma {:induction false} FromFramesMeans(crc: Checksum, before: seq<Byte>, fs: seq<Frame>, m: nat, rest: seq<Byte>)
    requires m <= |fs| && AllGood(crc, fs[..m])
    ensures m < |fs| && !Good(crc, fs[m]) ==> FromFrames(crc, before, fs, rest) == (Payloads(fs[..m]), Wrong)
    ensures m == |fs| ==> FromFrames(crc, before, fs, rest) == AfterFrames(crc, before, Payloads(fs), rest)
    decreases m
  {
    hide IsBe32, Good;
    if m == 0 {
      assert fs[..0] == [];
      if fs == [] && |rest| >= 4 {
        assert [] + rest[..|rest| - 4] == rest[..|rest| - 4];
      }
    } else {
      var (f, more) := (fs[0], fs[1..]);
      assert fs[..m][0] == f && fs[..m][1..] == more[..m - 1];
      GoodFront(crc, fs[..m]);
      FromFramesMeans(crc, before + f.payload, more, m - 1, rest);
      if m == |fs| && |rest| >= 4 {
        var last := rest[..|rest| - 4];
        assert before + f.payload + (Payloads(more) + last) == before + (f.payload + Payloads(more) + last);
        assert f.payload + (Payloads(more) + last) == f.payload + Payloads(more) + last;
      }
    }
  }

  /** Any input at all. Zero announces no data; with a chunk size of 2^32 - 4 or more no checksum is found. */
  lemma ReceivedFromFrames(crc: Checksum, head: seq<Byte>, n: UInt32, fs: seq<Frame>, rest: seq<Byte>)
    requires IsBe32(head, n) && Whole(fs, n) && |rest| < n + 4
    ensures Received(crc, head + (Flat(fs) + rest)) ==
            if n == 0 then ([], Complete)
            else if n >= 0xFFFF_FFFC then ([], Missing)
            else FromFrames(crc, [], fs, rest)
  {
    var (body, input) := (Flat(fs) + rest, head + (Flat(fs) + rest));
    Be32Means(n, head);
    FrameSizeOf(n);
    hide IsBe32, FromBe32, Flat, FromFrames;
    assert input[..4] == head && input[4..] == body;
    if 0 < n < 0xFFFF_FFFC {
      DeliveredFromFrames(crc, n, [], fs, rest);
    }
  }
}
