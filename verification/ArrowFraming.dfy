/** The framing of Arrow streams: a chunk size, full chunks each with a checksum of its own, and a
    short last chunk whose checksum covers everything. */
module ArrowFraming {
  import opened Bytes
  import opened Cuts

  /** Whole chunks with their checksums, then what is left without one. */
  function Framed(crc: Checksum, n: nat, data: seq<Byte>): seq<Byte>
    requires n > 0
    decreases |data|
  {
    if |data| < n then data
    else data[..n] + Be32(crc(data[..n])) + Framed(crc, n, data[n..])
  }

  /** What is left over after whole chunks. */
  function Rest(n: nat, data: seq<Byte>): (r: seq<Byte>)
    requires n > 0
    ensures |r| < n
    decreases |data|
  {
    if |data| < n then data else Rest(n, data[n..])
  }

  function Stream(crc: Checksum, n: UInt32, data: seq<Byte>): seq<Byte>
    requires n > 0
  {
    Be32(n) + (Framed(crc, n, data) + Be32(crc(data)))
  }

  lemma FramedUnfolds(crc: Checksum, n: nat, data: seq<Byte>)
    requires 0 < n <= |data|
    ensures Framed(crc, n, data) == data[..n] + Be32(crc(data[..n])) + Framed(crc, n, data[n..])
    ensures Rest(n, data) == Rest(n, data[n..])
  {
  }

  /** Data that does not complete the open chunk is simply appended. */
  lemma {:induction false} FramedExtends(crc: Checksum, n: nat, data: seq<Byte>, more: seq<Byte>)
    requires n > 0 && |Rest(n, data)| + |more| < n
    ensures Framed(crc, n, data + more) == Framed(crc, n, data) + more
    ensures Rest(n, data + more) == Rest(n, data) + more
    decreases |data|
  {
    if |data| >= n {
      hide Be32;
      var all := data + more;
      assert all[..n] == data[..n] && all[n..] == data[n..] + more;
      FramedExtends(crc, n, data[n..], more);
    }
  }

  lemma FirstCloses(crc: Checksum, n: nat, all: seq<Byte>)
    requires n > 0 && |all| == n
    ensures Framed(crc, n, all) == all + Be32(crc(all)) && Rest(n, all) == []
  {
    FramedUnfolds(crc, n, all);
    assert all[..n] == all && all[n..] == [];
    assert Framed(crc, n, []) == [] && Rest(n, []) == [];
    hide Framed, Rest, Be32;
    assert all + Be32(crc(all)) + [] == all + Be32(crc(all));
  }

  lemma ShortIsFramed(crc: Checksum, n: nat, data: seq<Byte>)
    requires |data| < n
    ensures Framed(crc, n, data) == data == Rest(n, data)
  {
  }

  /** Data that completes it is followed by the checksum of the chunk. */
  lemma {:induction false} FramedCloses(crc: Checksum, n: nat, data: seq<Byte>, more: seq<Byte>)
    requires n > 0 && |Rest(n, data)| + |more| == n
    ensures Framed(crc, n, data + more) == Framed(crc, n, data) + more + Be32(crc(Rest(n, data) + more))
    ensures Rest(n, data + more) == []
    decreases |data|
  {
    hide Framed, Rest, Be32;
    var all := data + more;
    if |data| < n {
      ShortIsFramed(crc, n, data);
      FirstCloses(crc, n, all);
    } else {
      FramedUnfolds(crc, n, data);
      FramedUnfolds(crc, n, all);
      assert all[..n] == data[..n] && all[n..] == data[n..] + more;
      FramedCloses(crc, n, data[n..], more);
    }
  }

  /** What the reader finds after the chunk size, when everything so far was fine: the frames of
      what is still to come and the checksum of all the data. */
  function Remainder(crc: Checksum, n: nat, before: seq<Byte>, data: seq<Byte>): seq<Byte>
    requires n > 0
  {
    Framed(crc, n, data) + Be32(crc(before + data))
  }

  lemma FirstChunk(crc: Checksum, n: nat, before: seq<Byte>, data: seq<Byte>)
    requires n > 0
    ensures var s := Remainder(crc, n, before, data);
            if |data| < n then
              && |s| == |data| + 4 && s[..|data|] == data && s[|data|..] == Be32(crc(before + data))
            else
              && |s| >= n + 4 && s[..n] == data[..n] && s[n..n + 4] == Be32(crc(data[..n]))
              && s[n + 4..] == Remainder(crc, n, before + data[..n], data[n..])
  {
    if |data| >= n {
      assert before + data == before + data[..n] + data[n..];
      var s := Remainder(crc, n, before, data);
      assert s == data[..n] + Be32(crc(data[..n])) + Remainder(crc, n, before + data[..n], data[n..]);
    }
  }

  // ---------- how the reader takes a chunk off any input ----------

  datatype Chunk = NoChecksum | Chunk(payload: seq<Byte>, last: bool, intact: bool)

  /** The reader computes the size of a chunk with its checksum in 32 bits. */
  function FrameSize(n: UInt32): nat {
    (n + 4) % TWO_32
  }

  /** The chunk sizes that this leaves alone; with any other the reader finds no checksum, ever. */
  predicate Usable(n: UInt32) {
    0 < n < TWO_32 - 4
  }

  /** At most a full chunk and its checksum. With fewer than four bytes there is no checksum; with
      fewer than all the chunk is taken for the last one, whether or not its checksum is right. */
  function Taken(crc: Checksum, n: UInt32, before: seq<Byte>, input: seq<Byte>): Chunk {
    var take := Min(|input|, FrameSize(n));
    if take < 4 then NoChecksum
    else
      var (payload, sum) := (input[..take - 4], FromBe32(input[take - 4..take]));
      var last := take < FrameSize(n);
      Chunk(payload, last, sum == crc(if last then before + payload else payload))
  }

  function LeftOver(n: UInt32, input: seq<Byte>): seq<Byte> {
    input[Min(|input|, FrameSize(n))..]
  }

  lemma TakenOf(crc: Checksum, n: UInt32, before: seq<Byte>, input: seq<Byte>, payload: seq<Byte>, sum: seq<Byte>)
    requires Usable(n) && |sum| == 4 && payload + sum == input[..Min(|input|, FrameSize(n))]
    ensures var last := |payload| < n;
            Taken(crc, n, before, input) ==
            Chunk(payload, last, FromBe32(sum) == crc(if last then before + payload else payload))
  {
    hide FromBe32;
    var take := |payload| + 4;
    assert input[..take][..take - 4] == payload && input[..take][take - 4..] == sum;
    assert input[..take - 4] == payload && input[take - 4..take] == sum;
  }

  lemma FrameSizeOf(n: UInt32)
    ensures if n < TWO_32 - 4 then FrameSize(n) == n + 4 else FrameSize(n) < 4
  {
  }

  lemma TakenFromStream(crc: Checksum, n: UInt32, before: seq<Byte>, data: seq<Byte>)
    requires Usable(n)
    ensures var s := Remainder(crc, n, before, data);
            if |data| < n then Taken(crc, n, before, s) == Chunk(data, true, true) && LeftOver(n, s) == []
            else && Taken(crc, n, before, s) == Chunk(data[..n], false, true)
                 && LeftOver(n, s) == Remainder(crc, n, before + data[..n], data[n..])
  {
    FirstChunk(crc, n, before, data);
    FrameSizeOf(n);
    hide FromBe32, Be32, Remainder, FrameSize;
    if |data| < n {
      Be32RoundTrip(crc(before + data));
    } else {
      Be32RoundTrip(crc(data[..n]));
    }
  }

  // ---------- what reading any input to the end delivers ----------

  /** How a stream ends for its reader: properly, or with an exception about the chunk size, a
      checksum that is not there or one that is wrong. */
  datatype Ending = Complete | NoHeader | Missing | Wrong

  /** The data delivered up to the end or the first exception, on any input after the chunk size. */
  function Delivered(crc: Checksum, n: UInt32, before: seq<Byte>, input: seq<Byte>): (seq<Byte>, Ending)
    decreases |input|
  {
    match Taken(crc, n, before, input)
    case NoChecksum => ([], Missing)
    case Chunk(payload, last, intact) =>
      if !intact then ([], Wrong)
      else if last then (payload, Complete)
      else
        var (data, ending) := Delivered(crc, n, before + payload, LeftOver(n, input));
        (payload + data, ending)
  }

  /** What is delivered after this chunk. */
  function Next(crc: Checksum, n: UInt32, before: seq<Byte>, input: seq<Byte>, c: Chunk): (seq<Byte>, Ending)
    requires c.Chunk?
  {
    if c.last then ([], Complete) else Delivered(crc, n, before + c.payload, LeftOver(n, input))
  }

  lemma TakenIsDelivered(crc: Checksum, n: UInt32, before: seq<Byte>, input: seq<Byte>)
    requires n > 0
    ensures var c := Taken(crc, n, before, input);
            if c.NoChecksum? then Delivered(crc, n, before, input) == ([], Missing)
            else
              && (c.last <==> |input| < FrameSize(n)) && (!c.last ==> c.payload != [])
              && Delivered(crc, n, before, input) ==
                 if c.intact then (c.payload + Next(crc, n, before, input, c).0, Next(crc, n, before, input, c).1) else ([], Wrong)
  {
    FrameSizeOf(n);
    hide FromBe32, FrameSize;
    var c := Taken(crc, n, before, input);
    if c.Chunk? {
      assert c.payload + [] == c.payload;
    }
  }

  lemma LastChunk(crc: Checksum, n: UInt32, before: seq<Byte>, payload: seq<Byte>, sum: seq<Byte>)
    requires Usable(n) && |payload| < n && |sum| == 4
    ensures var intact := FromBe32(sum) == crc(before + payload);
            && Taken(crc, n, before, payload + sum) == Chunk(payload, true, intact)
            && Delivered(crc, n, before, payload + sum) == if intact then (payload, Complete) else ([], Wrong)
  {
    hide FromBe32;
    var input := payload + sum;
    assert input[..|input|] == input;
    TakenOf(crc, n, before, input, payload, sum);
    hide Taken;
  }

  /** Whatever a last chunk holds, it counts as the last even when its checksum is wrong, so damage
      there is not told apart from the end of the data by asking for the end. */
  lemma DamagedLastChunkIsLast(crc: Checksum, n: UInt32, before: seq<Byte>, payload: seq<Byte>, sum: UInt32)
    requires Usable(n) && |payload| < n
    ensures Taken(crc, n, before, payload + Be32(sum)) == Chunk(payload, true, sum == crc(before + payload))
  {
    hide Be32, FromBe32, Taken, Delivered;
    Be32RoundTrip(sum);
    LastChunk(crc, n, before, payload, Be32(sum));
  }

  lemma FullChunk(crc: Checksum, n: UInt32, before: seq<Byte>, payload: seq<Byte>, sum: seq<Byte>, rest: seq<Byte>)
    requires Usable(n) && |payload| == n && |sum| == 4
    ensures var input := payload + sum + rest;
            Delivered(crc, n, before, input) ==
            if FromBe32(sum) != crc(payload) then ([], Wrong)
            else var (data, ending) := Delivered(crc, n, before + payload, rest); (payload + data, ending)
  {
    hide FromBe32;
    var input := payload + sum + rest;
    assert input[..n + 4] == payload + sum && input[n + 4..] == rest;
    TakenOf(crc, n, before, input, payload, sum);
    hide Taken;
  }

  lemma {:induction false} FramedIsDelivered(crc: Checksum, n: UInt32, before: seq<Byte>, data: seq<Byte>)
    requires Usable(n)
    ensures Delivered(crc, n, before, Remainder(crc, n, before, data)) == (data, Complete)
    decreases |data|
  {
    var s := Remainder(crc, n, before, data);
    TakenFromStream(crc, n, before, data);
    hide Taken, LeftOver, Remainder;
    if |data| >= n {
      FramedIsDelivered(crc, n, before + data[..n], data[n..]);
      assert data == data[..n] + data[n..];
    }
  }

  lemma FullIsFramed(crc: Checksum, n: UInt32, before: seq<Byte>, payload: seq<Byte>, more: seq<Byte>, data: seq<Byte>)
    requires Usable(n) && |payload| == n
    requires more == Remainder(crc, n, before + payload, data)
    ensures payload + Be32(crc(payload)) + more == Remainder(crc, n, before, payload + data)
  {
    hide Be32, Framed;
    var all := payload + data;
    FramedUnfolds(crc, n, all);
    assert all[..n] == payload && all[n..] == data;
    assert before + payload + data == before + all;
  }

  lemma {:induction false} DeliveredIsFramed(crc: Checksum, n: UInt32, before: seq<Byte>, input: seq<Byte>,
      data: seq<Byte>)
    requires Usable(n) && Delivered(crc, n, before, input) == (data, Complete)
    ensures input == Remainder(crc, n, before, data)
    decreases |input|
  {
    hide FromBe32, Be32, Taken, Delivered, Remainder;
    FewBytesMissing(crc, n, before, input);
    var take := Min(|input|, n + 4);
    var (payload, sum, more) := (input[..take - 4], input[take - 4..take], input[take..]);
    CutInThree(input, take - 4, take);
    FromBe32RoundTrip(sum);
    if take < n + 4 {
      LastChunk(crc, n, before, payload, sum);
      LastIsFramed(crc, n, before, payload);
      assert input == payload + sum;
    } else {
      FullChunk(crc, n, before, payload, sum, more);
      var data' := Delivered(crc, n, before + payload, more).0;
      DeliveredIsFramed(crc, n, before + payload, more, data');
      FullIsFramed(crc, n, before, payload, more, data');
    }
  }

  lemma FewBytesMissing(crc: Checksum, n: UInt32, before: seq<Byte>, input: seq<Byte>)
    ensures |input| < 4 ==> Delivered(crc, n, before, input) == ([], Missing)
  {
  }

  lemma LastIsFramed(crc: Checksum, n: nat, before: seq<Byte>, payload: seq<Byte>)
    requires |payload| < n
    ensures Remainder(crc, n, before, payload) == payload + Be32(crc(before + payload))
  {
  }

  /** Whatever the input, it delivers this data and then the end if and only if it is the framing of
      this data with every checksum right. */
  lemma DeliveryMeetsFraming(crc: Checksum, n: UInt32, before: seq<Byte>, input: seq<Byte>, data: seq<Byte>)
    requires n > 0
    ensures Delivered(crc, n, before, input) == (data, Complete) <==> Usable(n) && input == Remainder(crc, n, before, data)
  {
    if !Usable(n) {
      assert FrameSize(n) < 4;
    } else {
      hide Delivered, Remainder;
      if Delivered(crc, n, before, input) == (data, Complete) {
        DeliveredIsFramed(crc, n, before, input, data);
      } else if input == Remainder(crc, n, before, data) {
        FramedIsDelivered(crc, n, before, data);
      }
    }
  }

  // ---------- streams cut short ----------

  /** What the input that is left of a stream cut there delivers. */
  predicate DeliversCut(crc: Checksum, before: seq<Byte>, data: seq<Byte>, c: Cut, input: seq<Byte>, d: (seq<Byte>,
      Ending)) {
    && c.whole <= |data|
    && if c.over < 4 then d == (data[..c.whole], Missing)
       else
         var k := c.whole + c.over - 4;
         && k <= |data| && |input| >= 4
         && d == if FromBe32(input[|input| - 4..]) == crc(before + data[..k]) then (data[..k], Complete)
                 else (data[..c.whole], Wrong)
  }

  lemma CutInFirst(crc: Checksum, n: UInt32, before: seq<Byte>, data: seq<Byte>, r: nat)
    requires Usable(n) && r < |Remainder(crc, n, before, data)| && (|data| < n || r < n + 4)
    ensures var input := Remainder(crc, n, before, data)[..r];
            DeliversCut(crc, before, data, Cut(0, 0, r), input, Delivered(crc, n, before, input))
  {
    var s := Remainder(crc, n, before, data);
    FirstChunk(crc, n, before, data);
    hide Be32, FromBe32, Framed, Remainder;
    assert data[..0] == [];
    if r >= 4 {
      FirstBytes(s, data, r - 4, if |data| < n then |data| else n);
      assert s[..r] == data[..r - 4] + s[r - 4..r];
      LastChunk(crc, n, before, data[..r - 4], s[r - 4..r]);
      assert s[..r][r - 4..] == s[r - 4..r];
    }
  }

  /** Of a stream that is cut anywhere, the reader delivers the whole chunks before the cut. It
      notices the cut unless four bytes or more follow these chunks and the last four of them happen
      to be the checksum of all the data before them. */
  lemma {:induction false} CutStream(crc: Checksum, n: UInt32, before: seq<Byte>, data: seq<Byte>, r: nat)
    requires Usable(n) && r < |Remainder(crc, n, before, data)|
    ensures var input := Remainder(crc, n, before, data)[..r];
            DeliversCut(crc, before, data, CutAt(n, data, r), input, Delivered(crc, n, before, input))
    decreases |data|
  {
    hide Be32, FromBe32, Remainder, Delivered, DeliversCut;
    if |data| < n || r < n + 4 {
      CutInFirst(crc, n, before, data, r);
    } else {
      CutInLater(crc, n, before, data, r);
      var (payload, data', r') := (data[..n], data[n..], r - (n + 4));
      var (sum, input') := (Be32(crc(payload)), Remainder(crc, n, before + payload, data')[..r']);
      var c := CutAt(n, data', r');
      assert CutAt(n, data, r) == Cut(c.chunks + 1, c.whole + n, c.over);
      Be32RoundTrip(crc(payload));
      FullChunk(crc, n, before, payload, sum, input');
      var d := Delivered(crc, n, before + payload, input');
      assert Delivered(crc, n, before, Remainder(crc, n, before, data)[..r]) == (payload + d.0, d.1);
      CutStream(crc, n, before + payload, data', r');
      CutLater(crc, before, data, payload, c, payload + sum, input', d);
    }
  }

  lemma CutInLater(crc: Checksum, n: UInt32, before: seq<Byte>, data: seq<Byte>, r: nat)
    requires Usable(n) && n <= |data| && n + 4 <= r < |Remainder(crc, n, before, data)|
    ensures var (payload, s') := (data[..n], Remainder(crc, n, before + data[..n], data[n..]));
            r - (n + 4) < |s'| && Remainder(crc, n, before, data)[..r] == payload + Be32(crc(payload)) + s'[..r - (n + 4)]
  {
    FirstChunk(crc, n, before, data);
    hide Be32, Framed, Remainder;
    var s := Remainder(crc, n, before, data);
    CutInThree(s, n, n + 4);
  }

  lemma CutLater(crc: Checksum, before: seq<Byte>, data: seq<Byte>, payload: seq<Byte>, c: Cut, frame: seq<Byte>,
      input: seq<Byte>, d: (seq<Byte>, Ending))
    requires payload <= data && DeliversCut(crc, before + payload, data[|payload|..], c, input, d)
    ensures DeliversCut(crc, before, data, Cut(c.chunks + 1, c.whole + |payload|, c.over), frame + input, (payload + d.0, d.1))
  {
    hide FromBe32;
    PartsJoin(before, payload, data, c.whole);
    if c.over >= 4 {
      PartsJoin(before, payload, data, c.whole + c.over - 4);
      LastBytes(frame, input, 4);
    }
  }

  // ---------- the stream as a whole ----------

  /** What a whole stream delivers. A chunk size of zero stands for no data. */
  function Received(crc: Checksum, input: seq<Byte>): (seq<Byte>, Ending) {
    if |input| < 4 then ([], NoHeader)
    else
      var n := FromBe32(input[..4]);
      if n == 0 then ([], Complete) else Delivered(crc, n, [], input[4..])
  }

  /** The input starts with a chunk size; zero stands for no data, any other is followed by the
      frames of `data`. */
  predicate Announced(crc: Checksum, input: seq<Byte>, data: seq<Byte>) {
    && |input| >= 4
    && var n := FromBe32(input[..4]);
       if n == 0 then data == [] else Usable(n) && input[4..] == Remainder(crc, n, [], data)
  }

  /** A stream is read to its end exactly if it is well formed, whoever wrote it. */
  lemma ReceivedIfAnnounced(crc: Checksum, input: seq<Byte>, data: seq<Byte>)
    ensures Received(crc, input) == (data, Complete) <==> Announced(crc, input, data)
  {
    hide FromBe32, Delivered, Remainder;
    if |input| >= 4 && FromBe32(input[..4]) != 0 {
      DeliveryMeetsFraming(crc, FromBe32(input[..4]), [], input[4..], data);
    }
  }

  lemma HeaderOf(n: UInt32, rest: seq<Byte>)
    ensures var input := Be32(n) + rest; |input| >= 4 && FromBe32(input[..4]) == n && input[4..] == rest
  {
    Be32RoundTrip(n);
    hide Be32, FromBe32;
    var input := Be32(n) + rest;
    assert input[..4] == Be32(n);
  }

  /** What a finished writer has sent delivers what was written. */
  lemma StreamIsReceived(crc: Checksum, n: UInt32, data: seq<Byte>)
    requires Usable(n)
    ensures Received(crc, Stream(crc, n, data)) == (data, Complete)
  {
    hide FromBe32, Delivered;
    HeaderOf(n, Framed(crc, n, data) + Be32(crc(data)));
    FramedIsDelivered(crc, n, [], data);
    assert [] + data == data;
  }

  /** A writer that never wrote sends only the checksum of nothing, which reads as an empty stream
      exactly when it is zero. */
  lemma UnwrittenIsReceived(crc: Checksum)
    ensures Received(crc, Be32(crc([]))) == ([], if crc([]) == 0 then Complete else Missing)
  {
    HeaderOf(crc([]), []);
    hide FromBe32, Be32;
    assert Be32(crc([])) + [] == Be32(crc([]));
    if crc([]) != 0 {
      assert Delivered(crc, crc([]), [], []) == ([], Missing);
    }
  }

  /** A whole stream cut anywhere before its end: within the chunk size that is noticed, and after it
      as said above. */
  lemma CutAnywhere(crc: Checksum, n: UInt32, data: seq<Byte>, m: nat)
    requires Usable(n) && m < |Stream(crc, n, data)|
    ensures var cut := Stream(crc, n, data)[..m];
            if m < 4 then Received(crc, cut) == ([], NoHeader)
            else DeliversCut(crc, [], data, CutAt(n, data, m - 4), cut[4..], Received(crc, cut))
  {
    hide Be32, FromBe32, Framed, Delivered, DeliversCut, CutAt;
    if m >= 4 {
      assert [] + data == data;
      var s := Remainder(crc, n, [], data);
      hide Remainder;
      assert Stream(crc, n, data)[..m] == Be32(n) + s[..m - 4];
      HeaderOf(n, s[..m - 4]);
      CutStream(crc, n, [], data, m - 4);
    }
  }
}
