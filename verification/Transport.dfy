/** The two directions of a connection, as far as the framings see it. */
module Transport {
  import opened Bytes

  /** How many bytes a write offered and how many of them were taken; less than none if it failed. */
  datatype Writing = Writing(asked: nat, taken: int)

  predicate InFull(w: Writing) {
    w.taken == w.asked
  }

  /** Each of the writes that follow `before` was taken in full. */
  predicate AllTaken(before: seq<Writing>, now: seq<Writing>) {
    before <= now && forall i | |before| <= i < |now| :: InFull(now[i])
  }

  /** Of the writes that follow `before` the last one was taken in full. */
  predicate LastTaken(before: seq<Writing>, now: seq<Writing>) {
    before < now && InFull(now[|now| - 1])
  }

  /** Where the writer's bytes go. A write may fail or accept only some of the bytes, but a steady
      sink always accepts all of them. */
  class ByteSink {
    const steady: bool
    var sent: seq<Byte>
    ghost var writings: seq<Writing>

    constructor (steady: bool)
      ensures sent == [] && this.steady == steady && writings == []
    {
      this.steady, sent, writings := steady, [], [];
    }

    method Write(data: seq<Byte>) returns (written: int)
      modifies this
      ensures -1 <= written <= |data|
      ensures steady ==> written == |data|
      ensures sent == old(sent) + data[..if written < 0 then 0 else written]
      ensures writings == old(writings) + [Writing(|data|, written)]
    {
      written :| -1 <= written <= |data| && (steady ==> written == |data|);
      writings := writings + [Writing(|data|, written)];
      sent := sent + data[..if written < 0 then 0 else written];
    }
  }

  /** How many bytes a read asked for and how many it brought. */
  datatype Reading = Reading(asked: nat, got: nat)

  /** Where the reader's bytes come from. A read may return less than was asked for, but nothing
      only at the end. A steady source returns less only at the end. */
  class ByteSource {
    const steady: bool
    var body: seq<Byte>
    ghost var readings: seq<Reading>

    constructor (body: seq<Byte>, steady: bool)
      ensures this.body == body && this.steady == steady && readings == []
    {
      this.body, this.steady, readings := body, steady, [];
    }

    method Read(n: nat) returns (data: seq<Byte>)
      modifies this
      ensures |data| <= n && old(body) == data + body
      ensures data == [] ==> n == 0 || body == []
      ensures steady ==> |data| == if |old(body)| < n then |old(body)| else n
      ensures readings == old(readings) + [Reading(n, |data|)]
    {
      var most := if |body| < n then |body| else n;
      var count :| 0 <= count <= most && (steady ==> count == most) && (count == 0 ==> n == 0 || body == []);
      data, body := body[..count], body[count..];
      readings := readings + [Reading(n, count)];
    }
  }
}
