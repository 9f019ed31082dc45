/** The framing of volume files: a chunk size, then chunks, each followed by the one checksum that
    runs over the chunk size and all data so far. A chunk gets its checksum only when the next one
    begins or the file is closed. */
module VolumeFraming {
  import opened Bytes
  import opened Cuts

  /** `before` is what the checksum had absorbed when `data` began. */
  function Framed(crc: Checksum, n: nat, before: seq<Byte>, data: seq<Byte>): seq<Byte>
    requires n > 0
    decreases |data|
  {
    if |data| <= n then data
    else data[..n] + Be32(crc(before + data[..n])) + Framed(crc, n, before + data[..n], data[n..])
  }

  /** The length of the chunk that is still without a checksum. */
  function Tail(n: nat, data: seq<Byte>): (t: nat)
    requires n > 0
    ensures t <= n && (t == 0 <==> data == [])
    decreases |data|
  {
    if |data| <= n then |data| else Tail(n, data[n..])
  }

  lemma FramedUnfolds(crc: Checksum, n: nat, before: seq<Byte>, data: seq<Byte>)
    requires 0 < n < |data|
    ensures Framed(crc, n, before, data) ==
            data[..n] + Be32(crc(before + data[..n])) + Framed(crc, n, before + data[..n], data[n..])
    ensures Tail(n, data) == Tail(n, data[n..])
  {
  }

  lemma OneChunkFramed(crc: Checksum, n: nat, before: seq<Byte>, data: seq<Byte>)
    requires n > 0 && |data| <= n
    ensures Framed(crc, n, before, data) == data && Tail(n, data) == |data|
  {
  }

  lemma MoreAtTheEnd(data: seq<Byte>, more: seq<Byte>, n: nat)
    requires n <= |data|
    ensures (data + more)[..n] == data[..n] && (data + more)[n..] == data[n..] + more
    ensures |data| == n ==> data[..n] == data && data[n..] + more == more
  {
  }

  /** Data that still fits the open chunk is simply appended. */
  lemma {:induction false} FramedExtends(crc: Checksum, n: nat, before: seq<Byte>, data: seq<Byte>, more: seq<Byte>)
    requires n > 0 && Tail(n, data) + |more| <= n
    ensures Framed(crc, n, before, data + more) == Framed(crc, n, before, data) + more
    ensures Tail(n, data + more) == Tail(n, data) + |more|
    decreases |data|
  {
    hide Be32, Framed, Tail;
    if |data| > n {
      MoreAtTheEnd(data, more, n);
      FramedUnfolds(crc, n, before, data);
      FramedUnfolds(crc, n, before, data + more);
      FramedExtends(crc, n, before + data[..n], data[n..], more);
    } else {
      OneChunkFramed(crc, n, before, data);
      OneChunkFramed(crc, n, before, data + more);
    }
  }

  /** Data after a full chunk is preceded by the checksum up to there. */
  lemma {:induction false} FramedCloses(crc: Checksum, n: nat, before: seq<Byte>, data: seq<Byte>, more: seq<Byte>)
    requires n > 0 && Tail(n, data) == n && 0 < |more| <= n
    ensures Framed(crc, n, before, data + more) == Framed(crc, n, before, data) + Be32(crc(before + data)) + more
    ensures Tail(n, data + more) == |more|
    decreases |data|
  {
    hide Be32, Framed, Tail;
    if |data| <= n {
      OneChunkFramed(crc, n, before, data);
      OneChunkFramed(crc, n, before + data, more);
      MoreAtTheEnd(data, more, n);
      FramedUnfolds(crc, n, before, data + more);
    } else {
      MoreAtTheEnd(data, more, n);
      FramedUnfolds(crc, n, before, data);
      FramedUnfolds(crc, n, before, data + more);
      FramedCloses(crc, n, before + data[..n], data[n..], more);
      assert before + data[..n] + data[n..] == before + data;
    }
  }

  /** The rest of a closed file. */
  function Remainder(crc: Checksum, n: nat, before: seq<Byte>, data: seq<Byte>): seq<Byte>
    requires n > 0
  {
    if data == [] then [] else Framed(crc, n, before, data) + Be32(crc(before + data))
  }

  function Stream(crc: Checksum, n: UInt32, data: seq<Byte>): seq<Byte>
    requires n > 0
  {
    Be32(n) + Remainder(crc, n, Be32(n), data)
  }

  lemma FirstChunk(crc: Checksum, n: nat, before: seq<Byte>, data: seq<Byte>)
    requires n > 0 && data != []
    ensures var s := Remainder(crc, n, before, data);
            var k := if |data| < n then |data| else n;
            && k + 4 <= |s| && (k < n ==> |s| == k + 4)
            && s[..k] == data[..k] && s[k..k + 4] == Be32(crc(before + data[..k]))
            && s[k + 4..] == Remainder(crc, n, before + data[..k], data[k..])
  {
    hide Be32, Framed;
    var s := Remainder(crc, n, before, data);
    if |data| <= n {
      OneChunkFramed(crc, n, before, data);
      assert data[..|data|] == data;
    } else {
      FramedUnfolds(crc, n, before, data);
      assert before + data == before + data[..n] + data[n..];
      assert s == data[..n] + Be32(crc(before + data[..n])) + Remainder(crc, n, before + data[..n], data[n..]);
    }
  }

  // ---------- how the reader takes a chunk off any input ----------

  datatype Chunk = AtEnd | NoChecksum | Chunk(payload: seq<Byte>, intact: bool)

  /** Nothing left is the end; less than a checksum is an error. */
  function Taken(crc: Checksum, n: nat, before: seq<Byte>, input: seq<Byte>): Chunk {
    var take := Min(|input|, n + 4);
    if take == 0 then AtEnd
    else if take < 4 then NoChecksum
    else
      var payload := input[..take - 4];
      Chunk(payload, FromBe32(input[take - 4..take]) == crc(before + payload))
  }

  function LeftOver(n: nat, input: seq<Byte>): seq<Byte> {
    input[Min(|input|, n + 4)..]
  }

  lemma FewBytes(crc: Checksum, n: nat, before: seq<Byte>, input: seq<Byte>)
    ensures input == [] ==> Taken(crc, n, before, input) == AtEnd
    ensures 0 < |input| < 4 ==> Taken(crc, n, before, input) == NoChecksum
  {
  }

  lemma TakenOf(crc: Checksum, n: nat, before: seq<Byte>, input: seq<Byte>, payload: seq<Byte>, sum: seq<Byte>)
    requires |sum| == 4 && payload + sum == input[..Min(|input|, n + 4)]
    ensures Taken(crc, n, before, input) == Chunk(payload, FromBe32(sum) == crc(before + payload))
  {
    hide FromBe32;
    var take := |payload| + 4;
    assert input[..take][..take - 4] == payload && input[..take][take - 4..] == sum;
    assert input[..take - 4] == payload && input[take - 4..take] == sum;
  }

  /** What a chunk is, told from the bytes at the front of the input. */
  lemma FrontTaken(crc: Checksum, n: nat, before: seq<Byte>, all: seq<Byte>, nread: nat, front: seq<Byte>)
    requires nread == Min(|all|, n + 4) && front == all[..nread]
    ensures LeftOver(n, all) == all[nread..]
    ensures Taken(crc, n, before, all) ==
            if nread == 0 then AtEnd
            else if nread < 4 then NoChecksum
            else Chunk(front[..nread - 4], FromBe32(front[nread - 4..]) == crc(before + front[..nread - 4]))
  {
    hide FromBe32;
    if nread >= 4 {
      assert front[..nread - 4] == all[..nread - 4] && front[nread - 4..] == all[nread - 4..nread];
    }
  }

  // ---------- what reading any input to the end delivers ----------

  /** How a file ends for its reader: properly, or with an exception about the chunk size, bytes that
      are missing or a checksum that is wrong. Without a chunk size there is no buffer to read into. */
  datatype Ending = Complete | NoHeader | BadSize | Missing | Wrong | NoBuffer

  /** The data delivered up to the end or the first exception, on any input after the chunk size. */
  function Delivered(crc: Checksum, n: nat, before: seq<Byte>, input: seq<Byte>): (seq<Byte>, Ending)
    decreases |input|
  {
    match Taken(crc, n, before, input)
    case AtEnd => ([], Complete)
    case NoChecksum => ([], Missing)
    case Chunk(payload, intact) =>
      if !intact then ([], Wrong)
      else
        var (data, ending) := Delivered(crc, n, before + payload, LeftOver(n, input));
        (payload + data, ending)
  }

  /** What is delivered after this chunk. A chunk without data can only be the last. */
  lemma TakenIsDelivered(crc: Checksum, n: nat, before: seq<Byte>, input: seq<Byte>)
    requires n > 0
    ensures var (c, rest) := (Taken(crc, n, before, input), LeftOver(n, input));
            if c.AtEnd? then Delivered(crc, n, before, input) == ([], Complete)
            else if c.NoChecksum? then Delivered(crc, n, before, input) == ([], Missing)
            else
              var next := Delivered(crc, n, before + c.payload, rest);
              && |input| == |c.payload| + 4 + |rest| && input[..|c.payload|] == c.payload
              && (c.payload == [] ==> next == ([], Complete))
              && Delivered(crc, n, before, input) == if c.intact then (c.payload + next.0, next.1) else ([], Wrong)
  {
    hide FromBe32;
  }

  lemma OneChunk(crc: Checksum, n: nat, before: seq<Byte>, payload: seq<Byte>, sum: seq<Byte>, rest: seq<Byte>)
    requires n > 0 && |sum| == 4 && (|payload| == n || (|payload| < n && rest == []))
    ensures var (input, intact) := (payload + sum + rest, FromBe32(sum) == crc(before + payload));
            && Taken(crc, n, before, input) == Chunk(payload, intact) && LeftOver(n, input) == rest
            && Delivered(crc, n, before, input) ==
               if !intact then ([], Wrong)
               else var (data, ending) := Delivered(crc, n, before + payload, rest); (payload + data, ending)
  {
    hide FromBe32;
    var input := payload + sum + rest;
    assert input[..|payload| + 4] == payload + sum && input[|payload| + 4..] == rest;
    TakenOf(crc, n, before, input, payload, sum);
    hide Taken;
  }

  lemma NothingDelivered(crc: Checksum, n: nat, before: seq<Byte>)
    ensures Delivered(crc, n, before, []) == ([], Complete)
  {
  }

  /** Data whose last chunk is full, or none at all: nothing but these may be followed by one more
      checksum. */
  predicate EndsFull(n: nat, data: seq<Byte>)
    requires n > 0
  {
    data == [] || Tail(n, data) == n
  }

  /** The frames of a closed file, possibly with the last checksum once more. */
  predicate FramedAs(crc: Checksum, n: nat, before: seq<Byte>, data: seq<Byte>, input: seq<Byte>)
    requires n > 0
  {
    || input == Remainder(crc, n, before, data)
    || (EndsFull(n, data) && input == Remainder(crc, n, before, data) + Be32(crc(before + data)))
  }

  /** One chunk before the others. */
  lemma FramedStep(crc: Checksum, n: nat, before: seq<Byte>, data: seq<Byte>, k: nat, input: seq<Byte>)
    requires n > 0 && data != [] && k == Min(|data|, n)
    ensures FramedAs(crc, n, before, data, data[..k] + Be32(crc(before + data[..k])) + input) <==>
            FramedAs(crc, n, before + data[..k], data[k..], input) && (k < n ==> input == [])
  {
    var (payload, more) := (data[..k], data[k..]);
    RemainderSplits(crc, n, before, data);
    TailStep(n, data);
    assert before + payload + more == before + data;
    hide Be32, Remainder, Tail;
    var (frame, rest) := (payload + Be32(crc(before + payload)), Remainder(crc, n, before + payload, more));
    var extra := Be32(crc(before + data));
    SamePrefix(frame, input, rest);
    SamePrefix(frame, input, rest + extra);
    assert frame + (rest + extra) == frame + rest + extra;
  }

  lemma SamePrefix(a: seq<Byte>, b: seq<Byte>, c: seq<Byte>)
    ensures a + b == a + c <==> b == c
  {
    if a + b == a + c {
      assert b == (a + b)[|a|..] && c == (a + c)[|a|..];
    }
  }

  lemma TailStep(n: nat, data: seq<Byte>)
    requires n > 0 && data != []
    ensures var k := Min(|data|, n);
            if k < n then data[k..] == [] && !EndsFull(n, data)
            else EndsFull(n, data) <==> EndsFull(n, data[k..])
  {
  }

  lemma RemainderSplits(crc: Checksum, n: nat, before: seq<Byte>, data: seq<Byte>)
    requires n > 0 && data != []
    ensures var k := Min(|data|, n);
            Remainder(crc, n, before, data) ==
            data[..k] + Be32(crc(before + data[..k])) + Remainder(crc, n, before + data[..k], data[k..])
  {
    FirstChunk(crc, n, before, data);
    hide Be32, Framed, Remainder;
    var (s, k) := (Remainder(crc, n, before, data), Min(|data|, n));
    assert s == s[..k] + s[k..k + 4] + s[k + 4..];
  }

  lemma LastChecksumAlone(crc: Checksum, n: nat, before: seq<Byte>)
    requires n > 0
    ensures Delivered(crc, n, before, Be32(crc(before))) == ([], Complete)
  {
    Be32RoundTrip(crc(before));
    NothingDelivered(crc, n, before + []);
    hide Delivered, Taken, Be32, FromBe32;
    var sum := Be32(crc(before));
    assert before + [] == before && sum == [] + sum + [];
    OneChunk(crc, n, before, [], sum, []);
  }

  lemma {:induction false} FramedIsDelivered(crc: Checksum, n: nat, before: seq<Byte>, data: seq<Byte>,
      input: seq<Byte>)
    requires n > 0 && FramedAs(crc, n, before, data, input)
    ensures Delivered(crc, n, before, input) == (data, Complete)
    decreases |data|
  {
    hide Delivered, Taken, Be32, FromBe32;
    if data == [] {
      NothingDelivered(crc, n, before);
      LastChecksumAlone(crc, n, before);
      assert before + [] == before && [] + Be32(crc(before)) == Be32(crc(before));
    } else {
      hide FramedAs;
      var k := Min(|data|, n);
      var (payload, sum) := (data[..k], Be32(crc(before + data[..k])));
      Be32RoundTrip(crc(before + payload));
      var rest := RestAfter(crc, n, before, data, input);
      FramedStep(crc, n, before, data, k, rest);
      OneChunk(crc, n, before, payload, sum, rest);
      FramedIsDelivered(crc, n, before + payload, data[k..], rest);
      assert payload + data[k..] == data;
    }
  }

  lemma RestAfter(crc: Checksum, n: nat, before: seq<Byte>, data: seq<Byte>, input: seq<Byte>) returns (rest: seq<Byte>)
    requires n > 0 && data != [] && FramedAs(crc, n, before, data, input)
    ensures var k := Min(|data|, n); input == data[..k] + Be32(crc(before + data[..k])) + rest
  {
    RemainderSplits(crc, n, before, data);
    var k := Min(|data|, n);
    hide Be32, Remainder, EndsFull;
    var more := Remainder(crc, n, before + data[..k], data[k..]);
    rest := if input == Remainder(crc, n, before, data) then more else more + Be32(crc(before + data));
  }

  lemma {:induction false} DeliveredIsFramed(crc: Checksum, n: nat, before: seq<Byte>, input: seq<Byte>,
      data: seq<Byte>)
    requires n > 0 && Delivered(crc, n, before, input) == (data, Complete)
    ensures FramedAs(crc, n, before, data, input)
    decreases |input|
  {
    var take := Min(|input|, n + 4);
    if take > 0 {
      assert take >= 4;
      var (payload, sum, rest) := (input[..take - 4], input[take - 4..take], input[take..]);
      CutInThree(input, take - 4, take);
      FromBe32RoundTrip(sum);
      OneChunk(crc, n, before, payload, sum, rest);
      hide FromBe32, Be32, Taken, Delivered, FramedAs;
      var data' := Delivered(crc, n, before + payload, rest).0;
      DeliveredIsFramed(crc, n, before + payload, rest, data');
      if |payload| < n {
        NothingDelivered(crc, n, before + payload);
        assert data == payload && rest == [];
        LastFramed(crc, n, before, payload);
      } else {
        assert data[..n] == payload && data[n..] == data';
        FramedStep(crc, n, before, data, n, rest);
      }
    }
  }

  lemma LastFramed(crc: Checksum, n: nat, before: seq<Byte>, payload: seq<Byte>)
    requires |payload| < n
    ensures FramedAs(crc, n, before, payload, payload + Be32(crc(before + payload)) + [])
  {
    hide Be32;
    assert payload + Be32(crc(before + payload)) + [] == payload + Be32(crc(before + payload));
    if payload == [] {
      assert [] + Be32(crc(before + payload)) == Be32(crc(before + payload));
    }
  }

  /** Whatever the input, it delivers this data and then the end if and only if it is the framing of
      this data with every checksum right; only after a full chunk the last checksum may come twice. */
  lemma DeliveryMeetsFraming(crc: Checksum, n: nat, before: seq<Byte>, input: seq<Byte>, data: seq<Byte>)
    requires n > 0
    ensures Delivered(crc, n, before, input) == (data, Complete) <==> FramedAs(crc, n, before, data, input)
  {
    hide Delivered, FramedAs;
    if Delivered(crc, n, before, input) == (data, Complete) {
      DeliveredIsFramed(crc, n, before, input, data);
    } else if FramedAs(crc, n, before, data, input) {
      FramedIsDelivered(crc, n, before, data, input);
    }
  }

  // ---------- files cut short ----------

  /** What the input that is left of a file cut there delivers. */
  predicate DeliversCut(crc: Checksum, before: seq<Byte>, data: seq<Byte>, c: Cut, input: seq<Byte>, d: (seq<Byte>,
      Ending)) {
    && c.whole <= |data|
    && if c.over < 4 then d == (data[..c.whole], if c.over == 0 then Complete else Missing)
       else
         var k := c.whole + c.over - 4;
         && k <= |data| && |input| >= 4
         && d == if FromBe32(input[|input| - 4..]) == crc(before + data[..k]) then (data[..k], Complete)
                 else (data[..c.whole], Wrong)
  }

  lemma FewDelivered(crc: Checksum, n: nat, before: seq<Byte>, input: seq<Byte>)
    requires |input| < 4
    ensures Delivered(crc, n, before, input) == ([], if input == [] then Complete else Missing)
  {
    FewBytes(crc, n, before, input);
  }

  lemma OnlyChunk(crc: Checksum, n: nat, before: seq<Byte>, payload: seq<Byte>, input: seq<Byte>)
    requires n > 0 && |payload| <= n && |input| == |payload| + 4 && input[..|payload|] == payload
    ensures Delivered(crc, n, before, input) ==
            if FromBe32(input[|payload|..]) == crc(before + payload) then (payload, Complete) else ([], Wrong)
  {
    hide FromBe32, Delivered;
    var sum := input[|payload|..];
    assert payload + sum + [] == input;
    OneChunk(crc, n, before, payload, sum, []);
    NothingDelivered(crc, n, before + payload);
    assert payload + [] == payload;
  }

  lemma SomeRemainder(crc: Checksum, n: nat, before: seq<Byte>, data: seq<Byte>)
    requires n > 0 && Remainder(crc, n, before, data) != []
    ensures data != []
  {
  }

  lemma CutInFirst(crc: Checksum, n: nat, before: seq<Byte>, data: seq<Byte>, r: nat)
    requires n > 0 && r < |Remainder(crc, n, before, data)| && (|data| < n || r < n + 4)
    ensures var input := Remainder(crc, n, before, data)[..r];
            DeliversCut(crc, before, data, Cut(0, 0, r), input, Delivered(crc, n, before, input))
  {
    hide Be32, FromBe32, Framed, Remainder, Delivered;
    var s := Remainder(crc, n, before, data);
    SomeRemainder(crc, n, before, data);
    FirstChunk(crc, n, before, data);
    if r < 4 {
      FewDelivered(crc, n, before, s[..r]);
    } else {
      FirstBytes(s, data, r - 4, Min(|data|, n));
      OnlyChunk(crc, n, before, data[..r - 4], s[..r]);
    }
  }

  lemma CutInLater(crc: Checksum, n: nat, before: seq<Byte>, data: seq<Byte>, r: nat)
    requires 0 < n <= |data| && n + 4 <= r < |Remainder(crc, n, before, data)|
    ensures var (payload, s') := (data[..n], Remainder(crc, n, before + data[..n], data[n..]));
            && r - (n + 4) < |s'|
            && Remainder(crc, n, before, data)[..r] == payload + Be32(crc(before + payload)) + s'[..r - (n + 4)]
  {
    RemainderSplits(crc, n, before, data);
    hide Be32, Framed, Remainder;
  }

  /** Of a file that is cut anywhere, the reader delivers the whole chunks before the cut. A cut
      right after a whole chunk is never noticed, the checksums vouch only for the data that is there;
      a cut one to three bytes later always is; any other unless the last four bytes before it happen
      to be the checksum of all the data before them. */
  lemma {:induction false} CutStream(crc: Checksum, n: nat, before: seq<Byte>, data: seq<Byte>, r: nat)
    requires n > 0 && r < |Remainder(crc, n, before, data)|
    ensures var input := Remainder(crc, n, before, data)[..r];
            DeliversCut(crc, before, data, CutAt(n, data, r), input, Delivered(crc, n, before, input))
    decreases |data|
  {
    hide Be32, FromBe32, Remainder, Delivered, DeliversCut;
    if |data| < n || r < n + 4 {
      CutInFirst(crc, n, before, data, r);
    } else {
      CutInLater(crc, n, before, data, r);
      var (payload, data', r') := (data[..n], data[n..], r - (n + 4));
      var (sum, input') := (Be32(crc(before + payload)), Remainder(crc, n, before + payload, data')[..r']);
      var c := CutAt(n, data', r');
      assert CutAt(n, data, r) == Cut(c.chunks + 1, c.whole + n, c.over);
      Be32RoundTrip(crc(before + payload));
      OneChunk(crc, n, before, payload, sum, input');
      var d := Delivered(crc, n, before + payload, input');
      assert Delivered(crc, n, before, Remainder(crc, n, before, data)[..r]) == (payload + d.0, d.1);
      CutStream(crc, n, before + payload, data', r');
      CutLater(crc, before, data, payload, c, payload + sum, input', d);
    }
  }

  lemma CutLater(crc: Checksum, before: seq<Byte>, data: seq<Byte>, payload: seq<Byte>, c: Cut, frame: seq<Byte>,
      input: seq<Byte>, d: (seq<Byte>, Ending))
    requires payload <= data && DeliversCut(crc, before + payload, data[|payload|..], c, input, d)
    ensures DeliversCut(crc, before, data, Cut(c.chunks + 1, c.whole + |payload|, c.over), frame + input, (payload + d.0, d.1))
  {
    hide FromBe32;
    PartsJoin(before, payload, data, c.whole);
    if c.over >= 4 {
      PartsJoin(before, payload, data, c.whole + c.over - 4);
      LastBytes(frame, input, 4);
    }
  }

  // ---------- the file as a whole ----------

  const MAX_CHUNKSIZE := 256 * 1024 * 1024

  /** What a whole file delivers. No bytes at all are an empty file. */
  function Received(crc: Checksum, input: seq<Byte>): (seq<Byte>, Ending) {
    if input == [] then ([], Complete)
    else if |input| < 4 then ([], NoHeader)
    else
      var n := FromBe32(input[..4]);
      if 1 <= n <= MAX_CHUNKSIZE then Delivered(crc, n, input[..4], input[4..]) else ([], BadSize)
  }

  /** The input is empty, or starts with a chunk size in range and the chunks of `data`. */
  predicate Announced(crc: Checksum, input: seq<Byte>, data: seq<Byte>) {
    || (input == [] && data == [])
    || (&& |input| >= 4
        && var n := FromBe32(input[..4]);
           1 <= n <= MAX_CHUNKSIZE && FramedAs(crc, n, input[..4], data, input[4..]))
  }

  /** A file is read to its end exactly if it is well formed, whoever wrote it. */
  lemma ReceivedIfAnnounced(crc: Checksum, input: seq<Byte>, data: seq<Byte>)
    ensures Received(crc, input) == (data, Complete) <==> Announced(crc, input, data)
  {
    hide FromBe32, Delivered, FramedAs;
    if |input| >= 4 && 1 <= FromBe32(input[..4]) <= MAX_CHUNKSIZE {
      DeliveryMeetsFraming(crc, FromBe32(input[..4]), input[..4], input[4..], data);
    }
  }

  lemma MoreThanTheRemainder(crc: Checksum, n: nat, before: seq<Byte>, data: seq<Byte>, sum: seq<Byte>)
    requires n > 0 && data != [] && sum == Be32(crc(before + data))
    ensures FramedAs(crc, n, before, data, Remainder(crc, n, before, data) + sum) <==> Tail(n, data) == n
  {
    hide Be32, Remainder, Tail;
    assert |Remainder(crc, n, before, data) + sum| == |Remainder(crc, n, before, data)| + 4;
  }

  /** Closing a file a second time writes its last checksum again. The file is still read as its data
      if and only if the last chunk is full. */
  lemma ClosedTwice(crc: Checksum, n: UInt32, data: seq<Byte>)
    requires 1 <= n <= MAX_CHUNKSIZE && data != []
    ensures Received(crc, Stream(crc, n, data) + Be32(crc(Be32(n) + data))) == (data, Complete) <==> Tail(n, data) == n
  {
    hide Be32, FromBe32, Remainder, Delivered, FramedAs, Tail, Received;
    var (head, rest, sum) := (Be32(n), Remainder(crc, n, Be32(n), data), Be32(crc(Be32(n) + data)));
    MoreThanTheRemainder(crc, n, head, data, sum);
    DeliveryMeetsFraming(crc, n, head, rest + sum, data);
    ReceivedAfterSize(crc, n, rest + sum);
    assert Stream(crc, n, data) + sum == head + (rest + sum);
  }

  lemma ReceivedAfterSize(crc: Checksum, n: UInt32, input: seq<Byte>)
    requires 1 <= n <= MAX_CHUNKSIZE
    ensures Received(crc, Be32(n) + input) == Delivered(crc, n, Be32(n), input)
  {
    Be32RoundTrip(n);
    hide Be32, FromBe32, Delivered;
    assert (Be32(n) + input)[..4] == Be32(n) && (Be32(n) + input)[4..] == input;
  }

  lemma NothingIsReceived(crc: Checksum)
    ensures Received(crc, []) == ([], Complete)
  {
  }

  lemma HeaderOf(n: UInt32, rest: seq<Byte>)
    ensures var input := Be32(n) + rest; |input| >= 4 && input[..4] == Be32(n) && FromBe32(input[..4]) == n && input[4..] == rest
  {
    Be32RoundTrip(n);
    hide Be32, FromBe32;
    var input := Be32(n) + rest;
    assert input[..4] == Be32(n);
  }

  /** What a closed writer has sent delivers what was written. */
  lemma StreamIsReceived(crc: Checksum, n: UInt32, data: seq<Byte>)
    requires 1 <= n <= MAX_CHUNKSIZE
    ensures Received(crc, Stream(crc, n, data)) == (data, Complete)
  {
    hide FromBe32, Delivered, Remainder, EndsFull;
    HeaderOf(n, Remainder(crc, n, Be32(n), data));
    FramedIsDelivered(crc, n, Be32(n), data, Remainder(crc, n, Be32(n), data));
  }

  /** A whole file cut anywhere before its end: nothing at all is an empty file, part of a chunk size
      is an error, and after it as said above. */
  lemma CutAnywhere(crc: Checksum, n: UInt32, data: seq<Byte>, m: nat)
    requires 1 <= n <= MAX_CHUNKSIZE && m < |Stream(crc, n, data)|
    ensures var cut := Stream(crc, n, data)[..m];
            if m < 4 then Received(crc, cut) == ([], if m == 0 then Complete else NoHeader)
            else DeliversCut(crc, Be32(n), data, CutAt(n, data, m - 4), cut[4..], Received(crc, cut))
  {
    hide Be32, FromBe32, Remainder, Delivered, DeliversCut, CutAt;
    if m >= 4 {
      var s := Remainder(crc, n, Be32(n), data);
      assert Stream(crc, n, data)[..m] == Be32(n) + s[..m - 4];
      HeaderOf(n, s[..m - 4]);
      CutStream(crc, n, Be32(n), data, m - 4);
    }
  }
}
