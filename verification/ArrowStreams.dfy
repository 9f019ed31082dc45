/** The two ends of an Arrow stream over a byte transport. */
module ArrowStreams {
  import opened Bytes
  import opened Transport
  import opened ArrowFraming

  const MAX_CHUNK_SIZE := 0x7FFF_FFFF

  class ArrowOutputStream {
    const crc: Checksum
    const sink: ByteSink
    const mCrcChunkSize: UInt32
    var mOffset: nat
    var mPos: nat
    var mGlobalCrc: seq<Byte>
    var mChunkCrc: seq<Byte>
    var mIsOpen: bool
    var mIsGlobalCheck: bool
    var mIsWriteChunkSize: bool

    ghost predicate Valid()
      reads this
    {
      0 < mCrcChunkSize <= MAX_CHUNK_SIZE && mOffset < mCrcChunkSize
    }

    /** All writes have gone through so far, and `data` is what they wrote. */
    ghost predicate Wrote(data: seq<Byte>)
      reads this, sink
      requires Valid()
    {
      && mGlobalCrc == data && mPos == |data| && !mIsGlobalCheck
      && mOffset == |Rest(mCrcChunkSize, data)| && mChunkCrc == Rest(mCrcChunkSize, data)
      && if mIsWriteChunkSize then sink.sent == Be32(mCrcChunkSize) + Framed(crc, mCrcChunkSize, data)
         else data == [] && sink.sent == []
    }

    /** The stream has been finished; without any write it is the empty checksum alone. */
    ghost predicate Finished(data: seq<Byte>)
      reads this, sink
      requires Valid()
    {
      && mIsGlobalCheck
      && if mIsWriteChunkSize then sink.sent == Stream(crc, mCrcChunkSize, data)
         else data == [] && sink.sent == Be32(crc([]))
    }

    constructor (crc: Checksum, sink: ByteSink, chunkSize: UInt32)
      requires 0 < chunkSize <= MAX_CHUNK_SIZE
      ensures Valid() && mIsOpen && this.crc == crc && this.sink == sink && mCrcChunkSize == chunkSize
      ensures !mIsWriteChunkSize && (sink.sent == [] ==> Wrote([]))
    {
      this.crc, this.sink, mCrcChunkSize := crc, sink, chunkSize;
      mOffset, mPos, mGlobalCrc, mChunkCrc := 0, 0, [], [];
      mIsOpen, mIsGlobalCheck, mIsWriteChunkSize := true, false, false;
    }

    method WriteUint32(number: UInt32) returns (ok: bool)
      modifies sink
      ensures old(sink.writings) < sink.writings && (sink.steady ==> ok)
      ensures ok <==> LastTaken(old(sink.writings), sink.writings)
      ensures ok ==> sink.sent == old(sink.sent) + Be32(number)
    {
      var buffer := Be32(number);
      var done := 0;
      while done < 4
        invariant 0 <= done <= 4
        invariant sink.sent == old(sink.sent) + buffer[..done]
        invariant old(sink.writings) <= sink.writings && (done > 0 ==> old(sink.writings) < sink.writings)
        invariant done == 4 ==> InFull(sink.writings[|sink.writings| - 1])
        invariant sink.steady ==> done in {0, 4}
      {
        var written := sink.Write(buffer[done..]);
        if written <= 0 {
          return false;
        }
        assert buffer[..done] + buffer[done..][..written] == buffer[..done + written];
        done := done + written;
      }
      ok := true;
    }

    /** Sends as much of `data` as the current chunk still takes. */
    method WriteChunk(data: seq<Byte>) returns (ok: bool, written: nat)
      requires Valid()
      modifies this`mOffset, this`mChunkCrc, sink
      ensures Valid() && written <= |data|
      ensures old(sink.writings) < sink.writings && (sink.steady ==> ok)
      ensures ok <==> LastTaken(old(sink.writings), sink.writings)
      ensures ok ==> written > 0 || data == []
      ensures ok ==>
                var (rest, part) := (old(mChunkCrc), data[..written]);
                if old(mOffset) + written < mCrcChunkSize then
                  && written == |data| && mOffset == old(mOffset) + written && mChunkCrc == rest + part
                  && sink.sent == old(sink.sent) + part
                else
                  && old(mOffset) + written == mCrcChunkSize && mOffset == 0 && mChunkCrc == []
                  && sink.sent == old(sink.sent) + part + Be32(crc(rest + part))
    {
      var remain := mCrcChunkSize - mOffset;
      var toWrite := if remain > |data| then |data| else remain;
      var accepted := sink.Write(data[..toWrite]);
      written := if accepted < 0 then 0 else accepted;
      if accepted != toWrite {
        return false, written;
      }
      mChunkCrc := mChunkCrc + data[..toWrite];
      if remain > |data| {
        mOffset := mOffset + |data|;
      } else {
        ok := WriteUint32(crc(mChunkCrc));
        if !ok {
          return;
        }
        mChunkCrc, mOffset := [], 0;
      }
      ok := true;
    }

    /** Writes `data`, however long, in one or many chunks. */
    method Write(data: seq<Byte>) returns (ok: bool)
      requires Valid()
      modifies this, sink
      ensures Valid() && mIsOpen == old(mIsOpen) && mIsGlobalCheck == old(mIsGlobalCheck)
      ensures !old(mIsOpen) ==> !ok && sink.writings == old(sink.writings)
      ensures old(mIsOpen) ==> old(sink.writings) < sink.writings && (sink.steady ==> ok)
      ensures old(mIsOpen) ==> (ok <==> LastTaken(old(sink.writings), sink.writings))
      ensures forall before | ok && old(Wrote(before)) :: Wrote(before + data) && mIsWriteChunkSize
    {
      if !mIsOpen {
        return false;
      }
      if !mIsWriteChunkSize {
        ok := WriteUint32(mCrcChunkSize);
        if !ok {
          return;
        }
        mIsWriteChunkSize := true;
      }
      ghost var before := mGlobalCrc;
      ghost var fine := old(Wrote(mGlobalCrc));
      mGlobalCrc := mGlobalCrc + data;
      mPos := mPos + |data|;
      ok := WriteChunks(data, before, fine);
    }

    /** The loop over the chunks of one write. */
    method WriteChunks(data: seq<Byte>, ghost before: seq<Byte>, ghost fine: bool) returns (ok: bool)
      requires Valid()
      requires fine ==> mOffset == |Rest(mCrcChunkSize, before)| && mChunkCrc == Rest(mCrcChunkSize, before)
                        && sink.sent == Be32(mCrcChunkSize) + Framed(crc, mCrcChunkSize, before)
      modifies this`mOffset, this`mChunkCrc, sink
      ensures Valid()
      ensures old(sink.writings) < sink.writings && (sink.steady ==> ok)
      ensures ok <==> LastTaken(old(sink.writings), sink.writings)
      ensures ok && fine ==> var all := before + data;
                && mOffset == |Rest(mCrcChunkSize, all)| && mChunkCrc == Rest(mCrcChunkSize, all)
                && sink.sent == Be32(mCrcChunkSize) + Framed(crc, mCrcChunkSize, all)
    {
      hide Rest, Framed;
      var done := 0;
      var first := true;
      assert before + data[..0] == before;
      while first || done < |data|
        invariant 0 <= done <= |data| && Valid()
        invariant fine ==> var all := before + data[..done];
          && mOffset == |Rest(mCrcChunkSize, all)| && mChunkCrc == Rest(mCrcChunkSize, all)
          && sink.sent == Be32(mCrcChunkSize) + Framed(crc, mCrcChunkSize, all)
        invariant if first then sink.writings == old(sink.writings) else LastTaken(old(sink.writings), sink.writings)
        decreases first, |data| - done
      {
        first := false;
        var written;
        ghost var part := data[done..];
        ok, written := WriteChunk(data[done..]);
        if !ok {
          return;
        }
        if fine {
          var all := before + data[..done];
          if mOffset == 0 && |Rest(mCrcChunkSize, all)| + written == mCrcChunkSize {
            FramedCloses(crc, mCrcChunkSize, all, part[..written]);
          } else {
            FramedExtends(crc, mCrcChunkSize, all, part[..written]);
          }
          assert data[..done] + part[..written] == data[..done + written];
          assert all + part[..written] == before + (data[..done] + part[..written]);
        }
        done := done + written;
      }
      assert data[..done] == data;
      ok := true;
    }

    method Flush() returns (ok: bool)
      requires Valid()
      modifies this`mIsGlobalCheck, sink
      ensures Valid() && mIsOpen == old(mIsOpen)
      ensures ok <==> mIsGlobalCheck
      ensures old(mIsGlobalCheck) ==> ok && sink.sent == old(sink.sent) && sink.writings == old(sink.writings)
      ensures !old(mIsGlobalCheck) ==> old(sink.writings) < sink.writings && (sink.steady ==> ok)
      ensures !old(mIsGlobalCheck) ==> (ok <==> LastTaken(old(sink.writings), sink.writings))
      ensures forall data | ok && old(Wrote(data)) :: Finished(data)
      ensures forall data | old(Finished(data)) :: Finished(data)
    {
      if !mIsGlobalCheck {
        ok := WriteUint32(crc(mGlobalCrc));
        if !ok {
          return;
        }
        mIsGlobalCheck := true;
      }
      ok := true;
    }

    /** Closing reports success even when the last checksum could not be written. */
    method Close() returns (ok: bool)
      requires Valid()
      modifies this`mIsGlobalCheck, this`mIsOpen, sink
      ensures ok && Valid() && !mIsOpen
      ensures old(mIsGlobalCheck) ==> mIsGlobalCheck && sink.writings == old(sink.writings)
      ensures !old(mIsGlobalCheck) ==> old(sink.writings) < sink.writings && (sink.steady ==> mIsGlobalCheck)
      ensures !old(mIsGlobalCheck) ==> (mIsGlobalCheck <==> LastTaken(old(sink.writings), sink.writings))
      ensures forall data | old(Finished(data)) :: Finished(data)
      ensures forall data | mIsGlobalCheck && old(Wrote(data)) :: Finished(data)
    {
      var flushed := Flush();
      mIsOpen := false;
      ok := true;
    }
  }

  datatype Status = Ok | Closed | NegativeCount | EndOfStream | HeaderFailed | ChecksumMissing | ChecksumWrong

  class ArrowInputStream {
    const crc: Checksum
    const source: ByteSource
    var mCrcChunkSize: UInt32
    var mBuffer: array?<Byte>
    var mPos: nat
    var mSize: nat
    var mGlobalPos: nat
    var mGlobalCrc: seq<Byte>
    var mIsOpen: bool
    var mLastChunk: bool

    ghost predicate Valid()
      reads this
    {
      && mPos <= mSize
      && (mBuffer == null ==> mSize == 0 && mGlobalCrc == [])
      && (mBuffer != null ==> mCrcChunkSize > 0 && mBuffer.Length == FrameSize(mCrcChunkSize) && mSize <= mBuffer.Length)
    }

    /** The checked bytes not yet handed out. */
    ghost function Pending(): seq<Byte>
      reads this, mBuffer
      requires Valid()
    {
      if mBuffer == null then [] else mBuffer[mPos..mSize]
    }

    /** What the input still delivers, and how that ends. */
    ghost function Coming(): (seq<Byte>, Ending)
      reads this, source
      requires Valid()
    {
      if mLastChunk then ([], Complete)
      else if mBuffer == null then Received(crc, source.body)
      else Delivered(crc, mCrcChunkSize, mGlobalCrc, source.body)
    }

    /** What reading from here on delivers, and how it ends. */
    ghost function Due(): (seq<Byte>, Ending)
      reads this, mBuffer, source
      requires Valid()
    {
      (Pending() + Coming().0, Coming().1)
    }

    constructor (crc: Checksum, source: ByteSource)
      ensures Valid() && mIsOpen && this.crc == crc && this.source == source
      ensures Due() == Received(crc, source.body) && !IsEOF() && mBuffer == null
    {
      this.crc, this.source := crc, source;
      mCrcChunkSize, mBuffer, mPos, mSize, mGlobalPos, mGlobalCrc := 0, null, 0, 0, 0, [];
      mIsOpen, mLastChunk := true, false;
      new;
      assert [] + Received(crc, source.body).0 == Received(crc, source.body).0;
    }

    method Close()
      modifies this`mIsOpen
      ensures !mIsOpen
    {
      mIsOpen := false;
    }

    predicate IsEOF()
      reads this
    {
      mLastChunk && mSize == mPos
    }

    /** Reads until `mBuffer` is full or the input is exhausted. */
    method FillBuffer() returns (read: nat)
      requires mBuffer != null
      modifies mBuffer, source
      ensures read == Min(|old(source.body)|, mBuffer.Length)
      ensures mBuffer[..read] == old(source.body)[..read] && source.body == old(source.body)[read..]
      ensures old(source.readings) <= source.readings
    {
      read := 0;
      while read < mBuffer.Length
        invariant old(source.readings) <= source.readings
        invariant 0 <= read <= mBuffer.Length && read <= |old(source.body)|
        invariant mBuffer[..read] == old(source.body)[..read] && source.body == old(source.body)[read..]
      {
        var piece := source.Read(mBuffer.Length - read);
        if piece == [] {
          break;
        }
        assert old(source.body)[..read] + piece == old(source.body)[..read + |piece|];
        forall i | 0 <= i < |piece| {
          mBuffer[read + i] := piece[i];
        }
        assert mBuffer[..read + |piece|] == mBuffer[..read] + piece;
        read := read + |piece|;
      }
    }

    /** The first read from the source was for the four bytes of the chunk size and brought less. */
    twostate predicate HeaderCutShort()
      reads this, source
    {
      && old(mBuffer) == null && |old(source.readings)| < |source.readings|
      && source.readings[|old(source.readings)|].asked == 4 && source.readings[|old(source.readings)|].got < 4
    }

    /** The chunk size, which has to arrive in one piece. Zero announces an empty stream. */
    method ReadHeader() returns (status: Status)
      requires Valid() && mBuffer == null && !mLastChunk
      modifies this`mCrcChunkSize, this`mBuffer, this`mLastChunk, source
      ensures Valid() && mPos == mSize == 0 && |source.readings| == |old(source.readings)| + 1
      ensures status == HeaderFailed <==> HeaderCutShort()
      ensures match status
              case HeaderFailed => mBuffer == null && !mLastChunk && (source.steady ==> |old(source.body)| < 4)
              case EndOfStream => old(Due()) == ([], Complete) && mBuffer == null && mLastChunk
              case Ok => && mBuffer != null && fresh(mBuffer) && !mLastChunk && |old(source.body)| == |source.body| + 4
                         && Due() == old(Due())
              case _ => false
    {
      hide FromBe32, Delivered;
      ghost var input := source.body;
      var piece := source.Read(4);
      if |piece| != 4 {
        return HeaderFailed;
      }
      assert input[..4] == piece && input[4..] == source.body;
      mCrcChunkSize := FromBe32(piece);
      if mCrcChunkSize == 0 {
        mLastChunk := true;
        return EndOfStream;
      }
      mBuffer := new Byte[FrameSize(mCrcChunkSize)];
      status := Ok;
    }

    /** Takes the next chunk off the input, once the current one is used up. */
    method ReadBody() returns (status: Status)
      requires Valid() && mBuffer != null && mPos == mSize && !mLastChunk
      modifies this`mPos, this`mSize, this`mGlobalCrc, this`mLastChunk, mBuffer, source
      ensures Valid() && source.body == LeftOver(mCrcChunkSize, old(source.body)) && old(source.readings) <= source.readings
      ensures status == Ok ==> |source.body| + |Pending()| < |old(source.body)|
      ensures match Taken(crc, mCrcChunkSize, old(mGlobalCrc), old(source.body))
              case NoChecksum => status == ChecksumMissing && Pending() == [] && !mLastChunk && mGlobalCrc == old(mGlobalCrc)
              case Chunk(payload, last, intact) =>
                && mLastChunk == last && mGlobalCrc == old(mGlobalCrc) + payload
                && status == (if intact then Ok else ChecksumWrong) && Pending() == if intact then payload else []
    {
      hide FromBe32, FrameSize;
      ghost var input := source.body;
      var read := FillBuffer();
      if read < 4 {
        return ChecksumMissing;
      }
      assert mBuffer[..read - 4] + mBuffer[read - 4..read] == mBuffer[..read];
      CutOff(input, read, mBuffer[..read - 4], mBuffer[read - 4..read]);
      var sum := FromBe32(mBuffer[read - 4..read]);
      mGlobalCrc := mGlobalCrc + mBuffer[..read - 4];
      var expected := crc(mBuffer[..read - 4]);
      if read < mBuffer.Length {
        mLastChunk := true;
        expected := crc(mGlobalCrc);
      }
      if expected != sum {
        return ChecksumWrong;
      }
      mSize, mPos := read - 4, 0;
      status := Ok;
    }

    lemma CutOff(input: seq<Byte>, read: nat, payload: seq<Byte>, sum: seq<Byte>)
      requires 4 <= read <= |input| && |sum| == 4 && payload + sum == input[..read]
      ensures input[..read - 4] == payload && input[read - 4..read] == sum
    {
      assert input[..read][..read - 4] == payload && input[..read][read - 4..] == sum;
    }

    /** Takes a chunk off the input: whether it is the last one or damaged shows in how `Due` goes on. */
    method TakeChunk() returns (status: Status)
      requires Valid() && mBuffer != null && mPos == mSize && !mLastChunk
      modifies this`mPos, this`mSize, this`mGlobalCrc, this`mLastChunk, mBuffer, source
      ensures Valid() && old(source.readings) <= source.readings
      ensures status == Ok ==> |source.body| + |Pending()| < |old(source.body)|
      ensures match status
              case Ok => Due() == old(Due()) && (Pending() == [] ==> IsEOF() && Due() == ([], Complete))
              case ChecksumMissing => old(Due()) == ([], Missing) && !IsEOF()
              case ChecksumWrong => old(Due()) == ([], Wrong) && (IsEOF() <==> |old(source.body)| < mBuffer.Length)
              case _ => false
    {
      hide FromBe32, FrameSize, Taken, Delivered, LeftOver;
      ghost var (n, before, input) := (mCrcChunkSize, mGlobalCrc, source.body);
      assert Pending() == [] && Due() == Delivered(crc, n, before, input) by { NothingPending(); }
      TakenIsDelivered(crc, n, before, input);
      status := ReadBody();
    }

    lemma NothingPending()
      requires Valid() && mPos == mSize
      ensures Pending() == [] && Due() == Coming()
    {
      assert [] + Coming().0 == Coming().0;
    }

    method ReadChunk() returns (status: Status)
      requires Valid() && !IsEOF()
      modifies this`mCrcChunkSize, this`mBuffer, this`mPos, this`mSize, this`mGlobalCrc, this`mLastChunk, mBuffer, source
      ensures Valid() && (if old(mBuffer) == null then mBuffer == null || fresh(mBuffer) else mBuffer == old(mBuffer))
      ensures status == HeaderFailed <==> HeaderCutShort()
      ensures status == Ok ==> mBuffer != null
      ensures status == Ok && old(mSize == mPos) ==> |source.body| + |Pending()| < |old(source.body)|
      ensures old(mSize > mPos) ==> status == Ok && Pending() == old(Pending()) && source.body == old(source.body)
      ensures match status
              case Ok => Due() == old(Due()) && (Pending() == [] ==> IsEOF() && Due() == ([], Complete))
              case EndOfStream => old(Due()) == ([], Complete) && IsEOF()
              case HeaderFailed => !IsEOF() && (source.steady ==> old(Due()) == ([], NoHeader))
              case ChecksumMissing => old(Due()) == ([], Missing) && !IsEOF()
              case ChecksumWrong =>
                old(Due()) == ([], Wrong) && (IsEOF() <==> |old(source.body)| < old(SizeLeft()) + FrameSize(mCrcChunkSize))
              case _ => false
    {
      hide FromBe32, FrameSize, Delivered;
      if mSize > mPos {
        assert |Pending()| == mSize - mPos;
        return Ok;
      }
      NothingPending();
      if mBuffer == null {
        status := ReadHeader();
        if status != Ok {
          return;
        }
      }
      status := TakeChunk();
    }

    /** The bytes that the chunk size takes up, while it has not been read. */
    function SizeLeft(): nat
      reads this
    {
      if mBuffer == null then 4 else 0
    }

    /** Copies out of the buffer what is there, up to `bytes`. */
    method Take(bytes: nat) returns (out: seq<Byte>)
      requires Valid()
      modifies this`mPos, this`mGlobalPos
      ensures Valid() && old(Pending()) == out + Pending() && |out| == Min(bytes, |old(Pending())|) && mPos == old(mPos) + |out|
      ensures old(Due()) == (out + Due().0, Due().1)
      ensures out == [] ==> Due() == old(Due()) && IsEOF() == old(IsEOF())
    {
      hide Received, Delivered;
      var readBytes := if mSize - mPos > bytes then bytes else mSize - mPos;
      ghost var (pending, coming) := (Pending(), Coming());
      out := if mBuffer == null then [] else mBuffer[mPos..mPos + readBytes];
      mPos, mGlobalPos := mPos + readBytes, mGlobalPos + readBytes;
      assert pending == out + Pending();
      assert pending + coming.0 == out + (Pending() + coming.0);
    }

    /** Hands out at most `bytes` bytes of what is due, or says how it ends. */
    method Read(bytes: int) returns (status: Status, out: seq<Byte>)
      requires Valid()
      modifies this, mBuffer, source
      ensures Valid() && (if old(mBuffer) == null then mBuffer == null || fresh(mBuffer) else mBuffer == old(mBuffer))
      ensures mIsOpen == old(mIsOpen)
      ensures status == Closed <==> !old(mIsOpen)
      ensures status == NegativeCount <==> old(mIsOpen) && bytes < 0
      ensures status == HeaderFailed <==> old(mIsOpen && !IsEOF()) && bytes >= 0 && HeaderCutShort()
      ensures status == Ok ==> mBuffer != null
      ensures status == Ok && bytes > 0 ==> |source.body| + |Pending()| < old(|source.body| + |Pending()|)
      ensures match status
              case Ok => && |out| <= bytes && old(Due()) == (out + Due().0, Due().1)
                         && (out == [] && bytes > 0 ==> IsEOF() && Due() == ([], Complete))
              case EndOfStream => out == [] && old(Due()) == ([], Complete) && IsEOF()
              case HeaderFailed => out == [] && !IsEOF() && (source.steady ==> old(Due()) == ([], NoHeader))
              case ChecksumMissing => out == [] && old(Due()) == ([], Missing) && !IsEOF()
              case ChecksumWrong =>
                && out == [] && old(Due()) == ([], Wrong)
                && (IsEOF() <==> |old(source.body)| < old(SizeLeft()) + FrameSize(mCrcChunkSize))
              case _ => out == []
    {
      hide Due, Pending, FrameSize, IsEOF;
      out := [];
      if !mIsOpen {
        return Closed, [];
      }
      if bytes < 0 {
        return NegativeCount, [];
      }
      if IsEOF() {
        NothingDue();
        return EndOfStream, [];
      }
      PendingSize();
      status := ReadChunk();
      if status == Ok {
        out := Take(bytes);
      }
    }

    lemma PendingSize()
      requires Valid()
      ensures |Pending()| == mSize - mPos
    {
    }

    lemma NothingDue()
      requires Valid() && IsEOF()
      ensures Due() == ([], Complete)
    {
      NothingPending();
    }

    /** What was due is what was handed out before, a piece more, and what is due now. */
    lemma HandedOn(start: (seq<Byte>, Ending), out: seq<Byte>, due: (seq<Byte>, Ending), piece: seq<Byte>,
        now: (seq<Byte>, Ending))
      requires start == (out + due.0, due.1) && due == (piece + now.0, now.1)
      ensures start == (out + piece + now.0, now.1)
    {
      assert out + piece + now.0 == out + (piece + now.0);
    }

    /** Exactly `bytes` bytes of what is due, or how it ended before that. */
    method ReadExactly(bytes: int) returns (status: Status, out: seq<Byte>)
      requires Valid()
      modifies this, mBuffer, source
      ensures Valid() && mIsOpen == old(mIsOpen)
      ensures status == Closed <==> !old(mIsOpen)
      ensures status == NegativeCount <==> old(mIsOpen) && bytes < 0
      ensures match status
              case Ok => |out| == bytes && old(Due()) == (out + Due().0, Due().1)
              case EndOfStream => |out| < bytes && old(Due()) == (out, Complete)
              case HeaderFailed => out == [] && old(mBuffer) == null && (source.steady ==> old(Due()) == ([], NoHeader))
              case ChecksumMissing => |out| < bytes && old(Due()) == (out, Missing)
              case ChecksumWrong => |out| < bytes && old(Due()) == (out, Wrong)
              case _ => out == []
    {
      hide Due, IsEOF, FrameSize, Pending;
      out := [];
      if !mIsOpen {
        return Closed, [];
      }
      if bytes < 0 {
        return NegativeCount, [];
      }
      assert [] + Due().0 == Due().0;
      while |out| < bytes
        invariant Valid() && mIsOpen && |out| <= bytes
        invariant if old(mBuffer) == null then mBuffer == null || fresh(mBuffer) else mBuffer == old(mBuffer)
        invariant old(Due()) == (out + Due().0, Due().1)
        invariant out == [] || mBuffer != null
        decreases |source.body| + |Pending()|
      {
        var piece;
        ghost var due := Due();
        status, piece := Read(bytes - |out|);
        if status != Ok {
          assert out + [] == out;
          return;
        }
        HandedOn(old(Due()), out, due, piece, Due());
        out := out + piece;
      }
      status := Ok;
    }

    /** Reads until no more comes, at most `bytes` bytes at a time. */
    method ReadAll(bytes: nat) returns (status: Status, data: seq<Byte>)
      requires Valid() && mIsOpen && bytes > 0
      modifies this, mBuffer, source
      ensures match status
              case EndOfStream => old(Due()) == (data, Complete)
              case HeaderFailed => data == [] && old(mBuffer) == null && (source.steady ==> old(Due()) == ([], NoHeader))
              case ChecksumMissing => old(Due()) == (data, Missing)
              case ChecksumWrong => old(Due()) == (data, Wrong)
              case _ => false
    {
      hide Due, IsEOF, FrameSize;
      data := [];
      assert [] + Due().0 == Due().0;
      while true
        invariant Valid() && mIsOpen
        invariant if old(mBuffer) == null then mBuffer == null || fresh(mBuffer) else mBuffer == old(mBuffer)
        invariant old(Due()) == (data + Due().0, Due().1)
        invariant data == [] || mBuffer != null
        decreases |source.body| + |Pending()|
      {
        var piece;
        ghost var due := Due();
        status, piece := Read(bytes);
        if status != Ok {
          assert data + [] == data;
          return;
        }
        HandedOn(old(Due()), data, due, piece, Due());
        data := data + piece;
      }
    }
  }

  /** Writes these parts one after the other and closes the stream. That fails only at a write that
      the connection does not take, and there it stops. */
  method WriteAll(crc: Checksum, sink: ByteSink, chunkSize: UInt32, parts: seq<seq<Byte>>) returns (ok: bool)
    requires 0 < chunkSize <= MAX_CHUNK_SIZE && sink.sent == []
    modifies sink
    ensures old(sink.writings) < sink.writings && (sink.steady ==> ok)
    ensures ok <==> LastTaken(old(sink.writings), sink.writings)
    ensures ok ==> sink.sent == if parts == [] then Be32(crc([])) else Stream(crc, chunkSize, Concat(parts))
  {
    hide Stream, ArrowOutputStream.Wrote;
    var stream := new ArrowOutputStream(crc, sink, chunkSize);
    var i := 0;
    assert Concat(parts[..0]) == [];
    while i < |parts|
      invariant 0 <= i <= |parts| && stream.Valid() && stream.Wrote(Concat(parts[..i])) && stream.mIsOpen
      invariant stream.mIsWriteChunkSize <==> i > 0
      invariant !stream.mIsGlobalCheck && old(sink.writings) <= sink.writings
    {
      assert parts[..i + 1][..i] == parts[..i];
      ok := stream.Write(parts[i]);
      if !ok {
        return;
      }
      i := i + 1;
    }
    assert parts[..i] == parts;
    var closed := stream.Close();
    ok := stream.mIsGlobalCheck;
  }

  /** Whatever the parts, the chunk size and the reads: what was written comes back whole, followed by
      the end, when the connection takes what it is sent and the source is steady. With another source
      the only thing that can go wrong is the chunk size arriving in pieces. If nothing was written,
      the end comes at once exactly if the checksum of nothing is zero. */
  method RoundTrip(crc: Checksum, chunkSize: UInt32, parts: seq<seq<Byte>>, taking: bool, steady: bool, bytes: nat)
    returns (ok: bool, status: Status, data: seq<Byte>)
    requires 0 < chunkSize <= MAX_CHUNK_SIZE && bytes > 0
    ensures taking ==> ok
    ensures ok && parts != [] && steady ==> status == EndOfStream && data == Concat(parts)
    ensures ok && parts != [] && !steady ==> (status == EndOfStream && data == Concat(parts)) || (status == HeaderFailed && data == [])
    ensures ok && parts == [] && steady ==> (status == EndOfStream <==> crc([]) == 0) && data == []
  {
    hide Stream, Concat, Be32, Received, ArrowInputStream.Due;
    var sink := new ByteSink(taking);
    ok := WriteAll(crc, sink, chunkSize, parts);
    var source := new ByteSource(sink.sent, steady);
    var stream := new ArrowInputStream(crc, source);
    status, data := stream.ReadAll(bytes);
    if ok && parts != [] {
      StreamIsReceived(crc, chunkSize, Concat(parts));
    } else if ok {
      UnwrittenIsReceived(crc);
    }
  }
}
