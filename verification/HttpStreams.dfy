/** Buffered streams over a connection. A caller is lent the whole buffer and gives back the part of
    it that it did not use. */
module HttpStreams {
  import opened Bytes
  import opened Transport

  class HttpOutputStream {
    const request: ByteSink
    const mBuffer: array<Byte>
    var mPos: nat

    ghost predicate Valid()
      reads this
    {
      mBuffer.Length > 0 && mPos <= mBuffer.Length
    }

    /** Everything written so far, sent or not. */
    ghost function Contents(): seq<Byte>
      reads this, mBuffer, request
      requires Valid()
    {
      request.sent + mBuffer[..mPos]
    }

    constructor (request: ByteSink, bufferSize: nat)
      requires bufferSize > 0
      ensures Valid() && fresh(mBuffer) && this.request == request && Contents() == request.sent
    {
      this.request := request;
      mBuffer := new Byte[bufferSize];
      mPos := 0;
    }

    /** The first `k` bytes of the buffer have been sent after `before`, and the next flush sends them
        again. */
    ghost predicate SentTwice(before: seq<Byte>, k: nat)
      requires Valid() && k <= mPos
      reads this, mBuffer, request
    {
      request.sent == before + mBuffer[..k] && Contents() == before + mBuffer[..k] + mBuffer[..mPos]
    }

    /** Sends what is in the buffer. When only part of it could be sent, all of it stays there. */
    method Flush() returns (ok: bool)
      requires Valid()
      modifies this`mPos, request
      ensures Valid()
      ensures old(request.writings) <= request.writings && (request.steady ==> ok)
      ensures ok <==> AllTaken(old(request.writings), request.writings)
      ensures ok ==> mPos == 0 && Contents() == old(Contents())
      ensures !ok ==> mPos == old(mPos) > 0 && exists k | 0 <= k < mPos :: SentTwice(old(request.sent), k)
    {
      if mPos > 0 {
        var wrote := request.Write(mBuffer[..mPos]);
        if wrote != mPos {
          assert !InFull(request.writings[|old(request.writings)|]);
          ghost var k: nat := if wrote < 0 then 0 else wrote;
          assert mBuffer[..mPos][..k] == mBuffer[..k];
          assert SentTwice(old(request.sent), k);
          return false;
        }
        mPos := 0;
      }
      ok := true;
    }

    /** Lends the buffer: until the caller gives something back, all of it counts as written. */
    method Next() returns (ok: bool)
      requires Valid()
      modifies this`mPos, request
      ensures Valid()
      ensures old(request.writings) <= request.writings && (request.steady ==> ok)
      ensures ok <==> AllTaken(old(request.writings), request.writings)
      ensures ok ==> mPos == mBuffer.Length && request.sent == old(Contents())
      ensures !ok ==> mPos == old(mPos) > 0 && exists k | 0 <= k < mPos :: SentTwice(old(request.sent), k)
    {
      if mPos > 0 {
        ok := Flush();
        if !ok {
          return;
        }
      }
      mPos := mBuffer.Length;
      ok := true;
    }

    /** Giving back more than was lent would abort the program. */
    method BackUp(count: nat)
      requires Valid() && count <= mPos
      modifies this`mPos
      ensures Valid() && mPos == old(mPos) - count
      ensures Contents() == old(Contents())[..|old(Contents())| - count]
    {
      mPos := mPos - count;
    }
  }

  class HttpInputStream {
    const response: ByteSource
    const mBuffer: array<Byte>
    var mPos: nat
    var mDataSize: nat

    ghost predicate Valid()
      reads this
    {
      mBuffer.Length > 0 && mPos <= mDataSize <= mBuffer.Length
    }

    /** Everything still to be read. */
    ghost function Remaining(): seq<Byte>
      reads this, mBuffer, response
      requires Valid()
    {
      mBuffer[mPos..mDataSize] + response.body
    }

    constructor (response: ByteSource, bufferSize: nat)
      requires bufferSize > 0
      ensures Valid() && fresh(mBuffer) && this.response == response && Remaining() == response.body
    {
      this.response := response;
      mBuffer := new Byte[bufferSize];
      mPos, mDataSize := 0, 0;
      new;
      assert mBuffer[0..0] == [];
    }

    /** Lends what is in the buffer, after refilling it if need be. */
    method Next() returns (ok: bool, start: nat)
      requires Valid()
      modifies this`mPos, this`mDataSize, mBuffer, response
      ensures Valid()
      ensures ok <==> old(Remaining()) != []
      ensures ok ==> && start < mPos == mDataSize
                     && mBuffer[start..mDataSize] + Remaining() == old(Remaining())
      ensures !ok ==> Remaining() == []
    {
      if mDataSize - mPos == 0 {
        var data := response.Read(mBuffer.Length);
        if data == [] {
          return false, 0;
        }
        forall i | 0 <= i < |data| {
          mBuffer[i] := data[i];
        }
        mDataSize, mPos := |data|, |data|;
        assert mBuffer[0..mDataSize] == data;
        return true, 0;
      }
      start := mPos;
      mPos := mDataSize;
      ok := true;
    }

    /** What is given back is there to be read again. */
    method BackUp(count: nat)
      requires Valid() && count <= mPos
      modifies this`mPos
      ensures Valid() && mPos == old(mPos) - count
      ensures Remaining() == mBuffer[mPos..old(mPos)] + old(Remaining())
    {
      mPos := mPos - count;
      assert mBuffer[mPos..mDataSize] == mBuffer[mPos..old(mPos)] + mBuffer[old(mPos)..mDataSize];
    }

    /** Gives back the end of what was just lent, if there is any left of it. */
    method GiveBack(count: nat)
      requires Valid() && count <= mPos == mDataSize
      modifies this`mPos
      ensures Valid() && mPos == mDataSize - count && Remaining() == mBuffer[mPos..mDataSize] + old(Remaining())
    {
      if count > 0 {
        BackUp(count);
      }
    }
  }
}
