/** Reading and writing any number of bytes over streams that lend their buffers. */
module ZeroCopyStreams {
  import opened Bytes
  import opened Transport
  import opened HttpStreams

  class ZeroCopyStreamReader {
    const mInput: HttpInputStream

    constructor (input: HttpInputStream)
      ensures mInput == input
    {
      mInput := input;
    }

    /** Reads until there is enough or nothing is left; -1 if nothing was left at once. */
    method Read(size: nat) returns (read: int, data: seq<Byte>)
      requires mInput.Valid()
      modifies mInput`mPos, mInput`mDataSize, mInput.mBuffer, mInput.response
      ensures mInput.Valid() && data + mInput.Remaining() == old(mInput.Remaining())
      ensures |data| == Min(size, |old(mInput.Remaining())|)
      ensures read == if size > 0 && old(mInput.Remaining()) == [] then -1 else |data|
    {
      hide HttpInputStream.Remaining;
      ghost var all := mInput.Remaining();
      data := [];
      while |data| < size
        invariant mInput.Valid() && data + mInput.Remaining() == all && |data| <= size
      {
        ghost var before := mInput.Remaining();
        var ok, start := mInput.Next();
        if !ok {
          return if data == [] then -1 else |data|, data;
        }
        var lent := mInput.mDataSize - start;
        var shouldRead := if lent > size - |data| then size - |data| else lent;
        ghost var rest := mInput.Remaining();
        var part := mInput.mBuffer[start..start + shouldRead];
        mInput.GiveBack(lent - shouldRead);
        assert before == part + mInput.Remaining() by {
          assert mInput.mBuffer[start..mInput.mDataSize] == part + mInput.mBuffer[start + shouldRead..mInput.mDataSize];
        }
        assert data + (part + mInput.Remaining()) == data + part + mInput.Remaining();
        data := data + part;
      }
      read := |data|;
    }
  }

  class ZeroCopyStreamWriter {
    const mOutput: HttpOutputStream

    constructor (output: HttpOutputStream)
      ensures mOutput == output
    {
      mOutput := output;
    }

    /** Writes all of it, or fails because the connection did not take all that it was sent. */
    method Write(src: seq<Byte>) returns (written: int)
      requires mOutput.Valid()
      modifies mOutput`mPos, mOutput.mBuffer, mOutput.request
      ensures mOutput.Valid() && (written == -1 || written == |src|)
      ensures old(mOutput.request.writings) <= mOutput.request.writings && (mOutput.request.steady ==> written == |src|)
      ensures written == |src| <==> AllTaken(old(mOutput.request.writings), mOutput.request.writings)
      ensures written == |src| ==> mOutput.Contents() == old(mOutput.Contents()) + src
    {
      ghost var start := mOutput.Contents();
      var n := 0;
      while n < |src|
        invariant mOutput.Valid() && 0 <= n <= |src|
        invariant mOutput.Contents() == start + src[..n]
        invariant AllTaken(old(mOutput.request.writings), mOutput.request.writings)
        decreases |src| - n
      {
        var ok := mOutput.Next();
        if !ok {
          return -1;
        }
        var lent := mOutput.mBuffer.Length;
        var shouldWrite := if lent > |src| - n then |src| - n else lent;
        Fill(src[n..n + shouldWrite]);
        assert src[..n + shouldWrite] == src[..n] + src[n..n + shouldWrite];
        n := n + shouldWrite;
      }
      assert src[..n] == src;
      written := n;
    }

    /** Fills the front of the lent buffer and gives back the rest. */
    method Fill(part: seq<Byte>)
      requires mOutput.Valid() && |part| <= mOutput.mPos == mOutput.mBuffer.Length
      modifies mOutput`mPos, mOutput.mBuffer
      ensures mOutput.Valid() && mOutput.Contents() == mOutput.request.sent + part
    {
      forall i | 0 <= i < |part| {
        mOutput.mBuffer[i] := part[i];
      }
      if |part| < mOutput.mPos {
        mOutput.BackUp(mOutput.mPos - |part|);
      }
      assert mOutput.mBuffer[..mOutput.mPos] == part;
    }
  }
}
