/** Writing and reading volume files through the buffered HTTP streams. */
module VolumeStreams {
  import opened Bytes
  import opened Transport
  import opened HttpStreams
  import opened VolumeFraming

  const MIN_CHUNKSIZE := 1

  class VolumeSerializer {
    const crc: Checksum
    const out: HttpOutputStream
    const mChunkSize: UInt32
    var mChunkOffset: nat
    var mCrc: seq<Byte>
    var mIsHeaderCompleted: bool

    ghost predicate Valid()
      reads this, out
    {
      0 < mChunkSize < 0x8000_0000 && mChunkOffset <= mChunkSize && out.Valid()
    }

    ghost function Sent(): seq<Byte>
      reads this, out, out.mBuffer, out.request
      requires Valid()
    {
      out.Contents()
    }

    /** Everything written so far is `data`; nothing at all has been sent before the first write. */
    ghost predicate Wrote(data: seq<Byte>)
      reads this, out, out.mBuffer, out.request
      requires Valid()
    {
      if !mIsHeaderCompleted then data == [] && Sent() == [] && mCrc == [] && mChunkOffset == 0
      else
        && mCrc == Be32(mChunkSize) + data && mChunkOffset == Tail(mChunkSize, data)
        && Sent() == Be32(mChunkSize) + Framed(crc, mChunkSize, Be32(mChunkSize), data)
    }

    constructor (crc: Checksum, out: HttpOutputStream, chunkSize: UInt32)
      requires MIN_CHUNKSIZE <= chunkSize <= MAX_CHUNKSIZE && out.Valid()
      ensures Valid() && this.crc == crc && this.out == out && mChunkSize == chunkSize
      ensures !mIsHeaderCompleted && (out.Contents() == [] ==> Wrote([]))
    {
      this.crc, this.out, mChunkSize := crc, out, chunkSize;
      mChunkOffset, mCrc, mIsHeaderCompleted := 0, [], false;
    }

    /** Fills the front of the buffer that was just lent and gives back the rest. */
    method CopyOut(piece: seq<Byte>)
      requires Valid() && out.mPos == out.mBuffer.Length && |piece| <= out.mBuffer.Length
      modifies out`mPos, out.mBuffer
      ensures Valid() && Sent() == out.request.sent + piece
    {
      forall i | 0 <= i < |piece| {
        out.mBuffer[i] := piece[i];
      }
      assert out.mBuffer[..|piece|] == piece;
      if |piece| < out.mBuffer.Length {
        out.BackUp(out.mBuffer.Length - |piece|);
      }
    }

    /** Copies `buf` into as many lent buffers as it takes. */
    method WriteInternal(buf: seq<Byte>) returns (ok: bool)
      requires Valid()
      modifies out`mPos, out.mBuffer, out.request
      ensures Valid() && old(out.request.writings) <= out.request.writings && (out.request.steady ==> ok)
      ensures ok <==> AllTaken(old(out.request.writings), out.request.writings)
      ensures ok ==> Sent() == old(Sent()) + buf
    {
      hide HttpOutputStream.Contents;
      var bytes := 0;
      while bytes < |buf|
        invariant 0 <= bytes <= |buf| && Valid()
        invariant Sent() == old(Sent()) + buf[..bytes]
        invariant AllTaken(old(out.request.writings), out.request.writings)
      {
        var lent := out.Next();
        if !lent {
          return false;
        }
        var n := out.mBuffer.Length;
        var len := if |buf| - bytes > n then n else |buf| - bytes;
        CopyOut(buf[bytes..bytes + len]);
        assert buf[..bytes + len] == buf[..bytes] + buf[bytes..bytes + len];
        bytes := bytes + len;
      }
      assert buf[..|buf|] == buf;
      ok := true;
    }

    method Write(buf: seq<Byte>) returns (ok: bool)
      requires Valid()
      modifies this, out`mPos, out.mBuffer, out.request
      ensures Valid() && old(out.request.writings) <= out.request.writings && (out.request.steady ==> ok)
      ensures ok <==> AllTaken(old(out.request.writings), out.request.writings)
      ensures forall data | ok && old(Wrote(data)) :: Wrote(data + buf) && mIsHeaderCompleted
    {
      hide Be32, Framed, Tail;
      ghost var before := if mIsHeaderCompleted && |mCrc| >= 4 then mCrc[4..] else [];
      ghost var fine := Wrote(before);
      assert forall data :: Wrote(data) ==> data == before;
      if !mIsHeaderCompleted {
        ok := WriteHeader();
        if !ok {
          return;
        }
      }
      ok := WriteChunks(buf, before, fine);
    }

    method WriteHeader() returns (ok: bool)
      requires Valid()
      modifies this, out`mPos, out.mBuffer, out.request
      ensures Valid() && old(out.request.writings) <= out.request.writings && (out.request.steady ==> ok)
      ensures ok <==> AllTaken(old(out.request.writings), out.request.writings)
      ensures ok && old(!mIsHeaderCompleted && Wrote([])) ==> Wrote([]) && mIsHeaderCompleted
    {
      mIsHeaderCompleted := true;
      ok := WriteInternal(Be32(mChunkSize));
      if !ok {
        return;
      }
      mCrc := mCrc + Be32(mChunkSize);
      mChunkOffset := 0;
    }

    /** As `Wrote`, with the checksum of a full last chunk already sent. */
    ghost predicate Checked(data: seq<Byte>)
      reads this, out, out.mBuffer, out.request
      requires Valid()
    {
      && mIsHeaderCompleted && mCrc == Be32(mChunkSize) + data && mChunkOffset == 0 && Tail(mChunkSize, data) == mChunkSize
      && Sent() == Be32(mChunkSize) + Framed(crc, mChunkSize, Be32(mChunkSize), data) + Be32(crc(mCrc))
    }

    ghost predicate Written(data: seq<Byte>, checked: bool)
      reads this, out, out.mBuffer, out.request
      requires Valid()
    {
      mIsHeaderCompleted && if checked then Checked(data) else Wrote(data)
    }

    method WriteChecksum(ghost data: seq<Byte>, ghost fine: bool) returns (ok: bool)
      requires Valid() && mChunkOffset == mChunkSize && (fine ==> Written(data, false))
      modifies this`mChunkOffset, out`mPos, out.mBuffer, out.request
      ensures Valid() && old(out.request.writings) <= out.request.writings && (out.request.steady ==> ok)
      ensures ok <==> AllTaken(old(out.request.writings), out.request.writings)
      ensures ok ==> mChunkOffset == 0 && (fine ==> Written(data, true))
    {
      hide Be32, Framed, Tail;
      ok := WriteInternal(Be32(crc(mCrc)));
      if ok {
        mChunkOffset := 0;
      }
    }

    method WriteData(piece: seq<Byte>, ghost data: seq<Byte>, ghost checked: bool, ghost fine: bool) returns (ok: bool)
      requires Valid() && 0 < |piece| <= mChunkSize - mChunkOffset && (fine ==> Written(data, checked))
      modifies this`mCrc, this`mChunkOffset, out`mPos, out.mBuffer, out.request
      ensures Valid() && old(out.request.writings) <= out.request.writings && (out.request.steady ==> ok)
      ensures ok <==> AllTaken(old(out.request.writings), out.request.writings)
      ensures ok && fine ==> Written(data + piece, false)
    {
      hide Be32, Framed, Tail;
      if fine && checked {
        FramedCloses(crc, mChunkSize, Be32(mChunkSize), data, piece);
      } else if fine {
        FramedExtends(crc, mChunkSize, Be32(mChunkSize), data, piece);
      }
      mCrc := mCrc + piece;
      ok := WriteInternal(piece);
      if ok {
        mChunkOffset := mChunkOffset + |piece|;
      }
    }

    /** The loop over the chunks of one write: either the checksum of a full chunk, or data. */
    method WriteChunks(buf: seq<Byte>, ghost before: seq<Byte>, ghost fine: bool) returns (ok: bool)
      requires Valid() && (fine ==> Wrote(before) && mIsHeaderCompleted)
      modifies this`mCrc, this`mChunkOffset, out`mPos, out.mBuffer, out.request
      ensures Valid() && old(out.request.writings) <= out.request.writings && (out.request.steady ==> ok)
      ensures ok <==> AllTaken(old(out.request.writings), out.request.writings)
      ensures ok && fine ==> Wrote(before + buf) && mIsHeaderCompleted
    {
      hide Wrote, Checked;
      var bytes := 0;
      ghost var checked := false;
      assert before + buf[..0] == before;
      while bytes < |buf|
        invariant 0 <= bytes <= |buf| && Valid()
        invariant fine ==> Written(before + buf[..bytes], checked)
        invariant checked ==> bytes < |buf| && mChunkOffset == 0
        invariant AllTaken(old(out.request.writings), out.request.writings)
        decreases |buf| - bytes, if mChunkOffset == mChunkSize then 1 else 0
      {
        ghost var data := before + buf[..bytes];
        if mChunkOffset == mChunkSize {
          ok := WriteChecksum(data, fine);
          if !ok {
            return;
          }
          checked := true;
        } else {
          var len := if |buf| - bytes > mChunkSize - mChunkOffset then mChunkSize - mChunkOffset else |buf| - bytes;
          ok := WriteData(buf[bytes..bytes + len], data, checked, fine);
          if !ok {
            return;
          }
          assert before + buf[..bytes + len] == data + buf[bytes..bytes + len];
          bytes, checked := bytes + len, false;
        }
      }
      assert buf[..|buf|] == buf;
      ok := true;
    }

    /** Ends the file: a chunk that is open gets its checksum. */
    method Close() returns (ok: bool)
      requires Valid()
      modifies out`mPos, out.mBuffer, out.request
      ensures Valid() && old(out.request.writings) <= out.request.writings && (out.request.steady ==> ok)
      ensures ok <==> AllTaken(old(out.request.writings), out.request.writings)
      ensures ok ==> Sent() == old(Sent()) + if mChunkOffset == 0 then [] else Be32(crc(mCrc))
      ensures forall data | ok && old(Wrote(data)) ::
                Sent() == if mIsHeaderCompleted then Stream(crc, mChunkSize, data) else []
    {
      ok := true;
      if mChunkOffset != 0 {
        ok := WriteInternal(Be32(crc(mCrc)));
      }
    }
  }

  /** `NullBuffer` stands for writing through a null pointer, which is what becomes of a program that
      goes on reading after an exception about the chunk size. */
  datatype Status = Ok | IoError | ChunkSizeInvalid | ChecksumError | NullBuffer

  class VolumeDeserializer {
    const crc: Checksum
    const input: HttpInputStream
    var mBuffer: array?<Byte>
    var mDataSize: nat
    var mPos: nat
    var mEOF: bool
    var mChunkSize: UInt32
    var mCrc: seq<Byte>
    var mIsHeaderCompleted: bool

    ghost predicate Valid()
      reads this, input
    {
      && input.Valid() && mPos <= mDataSize
      && (mBuffer == null ==> mDataSize == 0) && (mEOF ==> mIsHeaderCompleted)
      && (!mIsHeaderCompleted ==> mBuffer == null && mCrc == [])
      && (mBuffer != null ==> && mChunkSize > 0 && mBuffer.Length == mChunkSize + 4 && mDataSize <= mChunkSize
                              && mBuffer != input.mBuffer && mIsHeaderCompleted)
    }

    ghost function Footprint(): set<object>
      reads this
    {
      {this, input, input.mBuffer, input.response} + if mBuffer == null then {} else {mBuffer}
    }

    ghost function Pending(): seq<Byte>
      reads this, input, mBuffer
      requires Valid()
    {
      if mBuffer == null then [] else mBuffer[mPos..mDataSize]
    }

    /** What the input still delivers, and how that ends. */
    ghost function Coming(): (seq<Byte>, Ending)
      reads this, input, input.mBuffer, input.response
      requires Valid()
    {
      if mEOF then ([], Complete)
      else if !mIsHeaderCompleted then Received(crc, input.Remaining())
      else if mBuffer == null then ([], if input.Remaining() == [] then Complete else NoBuffer)
      else Delivered(crc, mChunkSize, mCrc, input.Remaining())
    }

    /** What reading from here on delivers, and how it ends. */
    ghost function Due(): (seq<Byte>, Ending)
      reads this, input, mBuffer, input.mBuffer, input.response
      requires Valid()
    {
      (Pending() + Coming().0, Coming().1)
    }

    lemma NothingPending()
      requires Valid() && mPos == mDataSize
      ensures Pending() == [] && Due() == Coming()
    {
      assert [] + Coming().0 == Coming().0;
    }

    constructor (crc: Checksum, input: HttpInputStream)
      requires input.Valid()
      ensures Valid() && this.crc == crc && this.input == input && !mEOF && !mIsHeaderCompleted && mBuffer == null
      ensures Due() == Received(crc, input.Remaining())
    {
      this.crc, this.input := crc, input;
      mBuffer, mDataSize, mPos, mEOF, mChunkSize, mCrc, mIsHeaderCompleted := null, 0, 0, false, 0, [], false;
      new;
      NothingPending();
    }

    lemma SplitInFirst(first: seq<Byte>, second: seq<Byte>, k: nat)
      requires k <= |first|
      ensures (first + second)[..k] == first[..k] && (first + second)[k..] == first[k..] + second
    {
    }

    /** Copies from the part of the input buffer that was just lent, and gives back the rest. */
    method CopyIn(buf: array<Byte>, bytes: nat, start: nat, ghost rest: seq<Byte>) returns (len: nat)
      requires input.Valid() && buf != input.mBuffer && bytes <= buf.Length && start <= input.mPos == input.mDataSize
      requires rest == input.mBuffer[start..input.mDataSize] + input.Remaining()
      modifies buf, input`mPos
      ensures input.Valid() && len == Min(old(input.mDataSize) - start, buf.Length - bytes)
      ensures buf[..bytes + len] == old(buf[..bytes]) + rest[..len] && input.Remaining() == rest[len..]
    {
      ghost var (lent, body) := (input.mBuffer[start..input.mDataSize], input.Remaining());
      assert body == input.response.body;
      hide HttpInputStream.Remaining;
      var n := input.mDataSize - start;
      len := if buf.Length - bytes > n then n else buf.Length - bytes;
      forall i | 0 <= i < len {
        buf[bytes + i] := input.mBuffer[start + i];
      }
      assert buf[..bytes + len] == old(buf[..bytes]) + lent[..len];
      SplitInFirst(lent, body, len);
      input.GiveBack(n - len);
      assert input.mBuffer[input.mPos..input.mDataSize] == lent[len..];
    }

    /** Fills `buf` from the input as far as it goes. */
    method ReadInternal(buf: array<Byte>) returns (bytes: nat)
      requires input.Valid() && buf != input.mBuffer
      modifies buf, input`mPos, input`mDataSize, input.mBuffer, input.response
      ensures input.Valid()
      ensures bytes == Min(|old(input.Remaining())|, buf.Length)
      ensures buf[..bytes] == old(input.Remaining())[..bytes] && input.Remaining() == old(input.Remaining())[bytes..]
    {
      ghost var all := input.Remaining();
      bytes := 0;
      while bytes < buf.Length
        invariant input.Valid() && 0 <= bytes <= buf.Length && bytes <= |all|
        invariant buf[..bytes] == all[..bytes] && input.Remaining() == all[bytes..]
      {
        var ok, start := input.Next();
        if !ok {
          break;
        }
        var len := CopyIn(buf, bytes, start, all[bytes..]);
        assert all[..bytes] + all[bytes..][..len] == all[..bytes + len] && all[bytes..][len..] == all[bytes + len..];
        bytes := bytes + len;
      }
    }

    /** The chunk size, which has to be in range; an input without any bytes is an empty file. */
    method ReadHeader() returns (status: Status)
      requires Valid() && !mIsHeaderCompleted
      modifies this, input`mPos, input`mDataSize, input.mBuffer, input.response
      ensures Valid() && mIsHeaderCompleted && mPos == mDataSize == 0 && (mBuffer == null || fresh(mBuffer))
      ensures match status
              case Ok => Due() == old(Due()) && (mBuffer == null <==> mEOF)
              case IoError => old(Due()) == ([], NoHeader)
              case ChunkSizeInvalid => old(Due()) == ([], BadSize)
              case _ => false
      ensures status != Ok ==> mBuffer == null
      ensures mBuffer != null ==> 4 <= |old(input.Remaining())| && old(input.Remaining())[4..] == input.Remaining()
    {
      hide FromBe32, Be32, Delivered;
      NothingPending();
      mIsHeaderCompleted := true;
      var buffer := new Byte[4];
      ghost var all := input.Remaining();
      var nread := ReadInternal(buffer);
      if nread == 0 {
        mEOF := true;
        return Ok;
      }
      if nread != 4 {
        return IoError;
      }
      assert buffer[..] == buffer[..4] == all[..4] && input.Remaining() == all[4..];
      mCrc := mCrc + buffer[..];
      assert mCrc == all[..4];
      mChunkSize := FromBe32(buffer[..]);
      if mChunkSize > MAX_CHUNKSIZE || mChunkSize < MIN_CHUNKSIZE {
        return ChunkSizeInvalid;
      }
      mBuffer := new Byte[mChunkSize + 4];
      status := Ok;
    }

    /** Hands out what is in the buffer, up to `size`. */
    method ReadBuffer(size: nat) returns (out: seq<Byte>)
      requires Valid()
      modifies this`mPos
      ensures Valid() && old(Pending()) == out + Pending() && |out| == Min(size, |old(Pending())|) && mPos == old(mPos) + |out|
      ensures old(Due()) == (out + Due().0, Due().1)
    {
      hide Received, Delivered;
      if mDataSize <= mPos {
        assert [] + Pending() == Pending() && [] + Due().0 == Due().0;
        return [];
      }
      var free := mDataSize - mPos;
      var len := if free < size then free else size;
      ghost var (pending, coming, due) := (Pending(), Coming(), Due());
      out := mBuffer[mPos..mPos + len];
      mPos := mPos + len;
      assert pending == out + Pending();
      hide Pending, Coming;
      Regroup(pending, out, Pending(), coming.0);
    }

    lemma Regroup(pending: seq<Byte>, out: seq<Byte>, left: seq<Byte>, coming: seq<Byte>)
      requires pending == out + left
      ensures pending + coming == out + (left + coming)
    {
    }

    /** Takes the next chunk off the input. A damaged chunk stays in the buffer. */
    method TakeChunk() returns (status: Status)
      requires Valid() && mBuffer != null && !mEOF && mDataSize == mPos
      modifies this`mDataSize, this`mPos, this`mCrc, this`mEOF, mBuffer, input`mPos, input`mDataSize, input.mBuffer, input.response
      ensures Valid() && input.Remaining() == LeftOver(mChunkSize, old(input.Remaining()))
      ensures match Taken(crc, mChunkSize, old(mCrc), old(input.Remaining()))
              case AtEnd => status == Ok && mEOF && Pending() == []
              case NoChecksum => status == IoError && !mEOF && Pending() == [] && mCrc == old(mCrc)
              case Chunk(payload, intact) =>
                status == (if intact then Ok else ChecksumError) && !mEOF && Pending() == payload && mCrc == old(mCrc) + payload
    {
      hide FromBe32, HttpInputStream.Remaining, Taken, LeftOver;
      ghost var all := input.Remaining();
      var nread := ReadInternal(mBuffer);
      ghost var front := mBuffer[..nread];
      FrontTaken(crc, mChunkSize, mCrc, all, nread, front);
      if nread == 0 {
        mEOF := true;
        return Ok;
      }
      if nread < 4 {
        return IoError;
      }
      mDataSize, mPos := nread - 4, 0;
      assert front[..mDataSize] == mBuffer[..mDataSize] && front[mDataSize..] == mBuffer[mDataSize..nread];
      mCrc := mCrc + mBuffer[..mDataSize];
      var sum := FromBe32(mBuffer[mDataSize..nread]);
      status := if sum != crc(mCrc) then ChecksumError else Ok;
    }

    /** What is pending is a chunk that was read from `all`, after `skip` bytes of it. */
    ghost predicate LeftInBuffer(all: seq<Byte>, skip: nat)
      requires Valid()
      reads this, input, mBuffer, input.mBuffer, input.response
    {
      && |all| == skip + |Pending()| + 4 + |input.Remaining()| && skip + |Pending()| <= |all|
      && all[skip..skip + |Pending()|] == Pending()
    }

    /** Without a buffer only the end of the input can be read. */
    method FillNothing() returns (status: Status)
      requires Valid() && mBuffer == null && mIsHeaderCompleted
      modifies this`mEOF, input`mPos, input`mDataSize, input.mBuffer, input.response
      ensures Valid()
      ensures if old(input.Remaining()) == [] then status == Ok && mEOF else status == NullBuffer
    {
      var some, start := input.Next();
      if some {
        return NullBuffer;
      }
      mEOF := true;
      status := Ok;
    }

    /** Takes the next chunk off the input, once the current one is used up. */
    method FillBuffer() returns (status: Status)
      requires Valid() && mIsHeaderCompleted && !mEOF
      modifies this`mDataSize, this`mPos, this`mCrc, this`mEOF, mBuffer, input`mPos, input`mDataSize, input.mBuffer, input.response
      ensures Valid()
      ensures old(mDataSize > mPos) ==> status == Ok && Pending() == old(Pending()) && Due() == old(Due())
      ensures match status
              case Ok => Due() == old(Due()) && (Pending() == [] ==> Due() == ([], Complete))
              case IoError => old(Due()) == ([], Missing)
              case ChunkSizeInvalid => false
              case ChecksumError => old(Due()) == ([], Wrong) && LeftInBuffer(old(input.Remaining()), 0)
              case NullBuffer => old(Due()) == ([], NoBuffer) && mBuffer == null
      ensures status == Ok && mBuffer == null ==> mEOF
      ensures status == Ok && old(mDataSize == mPos) ==> mEOF || |input.Remaining()| + |Pending()| < |old(input.Remaining())|
    {
      hide FromBe32, Delivered, Received, Taken, LeftOver;
      if mDataSize > mPos {
        assert |Pending()| == mDataSize - mPos;
        return Ok;
      }
      ghost var (n, before, all) := (mChunkSize, mCrc, input.Remaining());
      NothingPending();
      if mBuffer == null {
        status := FillNothing();
        NothingPending();
        return;
      }
      TakenIsDelivered(crc, n, before, all);
      status := TakeChunk();
      if mEOF {
        NothingPending();
      }
    }

    /** Hands out at most `size` bytes of what is due, none at its end, or throws when it ends
        otherwise. After a wrong checksum the damaged chunk is what the next call hands out. */
    method Read(size: nat) returns (status: Status, out: seq<Byte>)
      requires Valid()
      modifies Footprint()
      ensures Valid() && (mBuffer == old(mBuffer) || fresh(mBuffer))
      ensures status == Ok ==> mIsHeaderCompleted && (mBuffer == null ==> mEOF)
      ensures match status
              case Ok => && |out| <= size && old(Due()) == (out + Due().0, Due().1)
                         && (out == [] && size > 0 ==> Due() == ([], Complete))
              case IoError => out == [] && old(Due()) == ([], if old(mIsHeaderCompleted) || mBuffer != null then Missing else NoHeader)
              case ChunkSizeInvalid => out == [] && old(Due()) == ([], BadSize)
              case ChecksumError =>
                out == [] && old(Due()) == ([], Wrong) && LeftInBuffer(old(input.Remaining()), if old(mIsHeaderCompleted) then 0 else 4)
              case NullBuffer => out == [] && old(Due()) == ([], NoBuffer) && old(mIsHeaderCompleted && mBuffer == null)
    {
      hide Coming;
      out := [];
      if !mIsHeaderCompleted {
        status := ReadHeader();
        if status != Ok {
          return;
        }
      }
      hide Due;
      ghost var pending := Pending();
      out := ReadBuffer(size);
      status := Ok;
      if out == [] && !mEOF {
        assert [] + Due().0 == Due().0;
        status := FillBuffer();
        if status == Ok {
          pending := Pending();
          out := ReadBuffer(size);
        }
      } else if mEOF {
        AtEnd();
      }
      assert out == [] && size > 0 ==> pending == [];
      assert |out + Due().0| == |out| + |Due().0|;
    }

    lemma AtEnd()
      requires Valid() && mEOF
      ensures Due() == (Pending(), Complete)
    {
      assert Pending() + [] == Pending();
    }

    /** Reads until nothing more comes, at most `size` bytes at a time. */
    method ReadAll(size: nat) returns (status: Status, data: seq<Byte>)
      requires Valid() && size > 0
      modifies Footprint()
      ensures match status
              case Ok => old(Due()) == (data, Complete)
              case IoError => old(Due()) == (data, NoHeader) || old(Due()) == (data, Missing)
              case ChunkSizeInvalid => old(Due()) == (data, BadSize)
              case ChecksumError => old(Due()) == (data, Wrong)
              case NullBuffer => old(Due()) == (data, NoBuffer)
    {
      hide Due, Valid, LeftInBuffer;
      data := [];
      assert [] + Due().0 == Due().0;
      while true
        invariant Valid() && (mBuffer == old(mBuffer) || fresh(mBuffer))
        invariant old(Due()) == (data + Due().0, Due().1)
        decreases |Due().0|
      {
        var piece;
        status, piece := Read(size);
        assert data + piece + Due().0 == data + (piece + Due().0);
        if status != Ok {
          assert data + [] == data;
          return;
        }
        if piece == [] {
          assert data + [] == data;
          return;
        }
        data := data + piece;
      }
    }
  }

  /** Writes these parts one after the other, closes the file and flushes the connection. That fails
      only if the connection does not take all that it is sent. */
  method WriteAll(crc: Checksum, sink: ByteSink, chunkSize: UInt32, bufferSize: nat, parts: seq<seq<Byte>>) returns (ok: bool)
    requires MIN_CHUNKSIZE <= chunkSize <= MAX_CHUNKSIZE && bufferSize > 0 && sink.sent == []
    modifies sink
    ensures old(sink.writings) <= sink.writings && (sink.steady ==> ok)
    ensures ok <==> AllTaken(old(sink.writings), sink.writings)
    ensures ok ==> sink.sent == if parts == [] then [] else Stream(crc, chunkSize, Concat(parts))
  {
    hide Stream, VolumeSerializer.Wrote;
    var out := new HttpOutputStream(sink, bufferSize);
    var file := new VolumeSerializer(crc, out, chunkSize);
    var i := 0;
    assert Concat(parts[..0]) == [];
    while i < |parts|
      invariant 0 <= i <= |parts| && file.Valid() && file.Wrote(Concat(parts[..i]))
      invariant file.mIsHeaderCompleted <==> i > 0
      invariant AllTaken(old(sink.writings), sink.writings)
    {
      assert parts[..i + 1][..i] == parts[..i];
      ok := file.Write(parts[i]);
      if !ok {
        return;
      }
      i := i + 1;
    }
    assert parts[..i] == parts;
    ok := file.Close();
    if ok {
      ok := out.Flush();
    }
    assert out.mBuffer[..0] == [];
    assert sink.sent + [] == sink.sent;
  }

  /** Whatever the parts, the sizes of chunks and buffers and the pieces in which bytes arrive: what
      was written comes back whole, followed by the end, when the connection takes what it is sent. */
  method RoundTrip(crc: Checksum, chunkSize: UInt32, bufferSize: nat, parts: seq<seq<Byte>>, taking: bool, steady: bool,
      size: nat) returns (ok: bool, status: Status, data: seq<Byte>)
    requires MIN_CHUNKSIZE <= chunkSize <= MAX_CHUNKSIZE && bufferSize > 0 && size > 0
    ensures taking ==> ok
    ensures ok ==> status == Ok && data == Concat(parts)
  {
    hide Stream, Received, VolumeDeserializer.Due, HttpInputStream.Remaining;
    var sink := new ByteSink(taking);
    ok := WriteAll(crc, sink, chunkSize, bufferSize, parts);
    var source := new ByteSource(sink.sent, steady);
    var input := new HttpInputStream(source, bufferSize);
    var file := new VolumeDeserializer(crc, input);
    status, data := file.ReadAll(size);
    if ok && parts != [] {
      StreamIsReceived(crc, chunkSize, Concat(parts));
    } else if ok {
      NothingIsReceived(crc);
    }
  }
}
