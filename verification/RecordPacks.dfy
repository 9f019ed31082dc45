/** A pack of records for one bucket: filled, completed, sent, and only then emptied. */
module RecordPacks {
  import opened Bytes
  import opened ColumnTypes
  import opened RecordStream
  import opened ProtoSerializers
  import opened PackContents

  /** What the server has taken: for which bucket, the bytes and the number of records. */
  datatype Delivery = Delivery(bucket: int, data: seq<Byte>, count: int)

  /** What was tried to put into that delivery. */
  datatype Content = Content(bucket: int, pieces: seq<Piece>)

  /** The delivery consists of exactly the bytes that these attempts left, and a footer that counts
      the whole records. */
  predicate Faithful(cfg: Config, d: Delivery, c: Content) {
    && d.bucket == c.bucket && Fit(cfg, c.pieces)
    && d.count == |Rows(c.pieces)| && d.data == PackBytes(cfg, c.pieces)
  }

  /** An attempt to send a delivery, and whether the server took it. */
  datatype Sending = Sending(delivery: Delivery, taken: bool)

  /** The attempts that follow `before` were all to send this content, and none but the last may have
      gone well; whether that one did is `ok`. */
  predicate Attempts(cfg: Config, before: seq<Sending>, now: seq<Sending>, c: Content, ok: bool) {
    && before < now
    && forall i | |before| <= i < |now| ::
      Faithful(cfg, now[i].delivery, c) && (now[i].taken <==> ok && i == |now| - 1)
  }

  /** There were attempts after `before`, and the last one failed. */
  predicate LastFailed(before: seq<Sending>, now: seq<Sending>) {
    before < now && !now[|now| - 1].taken
  }

  lemma AttemptsGoOn(cfg: Config, before: seq<Sending>, mid: seq<Sending>, now: seq<Sending>, c: Content, ok: bool)
    requires Attempts(cfg, before, mid, c, false) && Attempts(cfg, mid, now, c, ok)
    ensures Attempts(cfg, before, now, c, ok)
  {
    hide Faithful;
    forall i | |before| <= i < |now|
      ensures Faithful(cfg, now[i].delivery, c) && (now[i].taken <==> ok && i == |now| - 1)
    {
      assert i < |mid| ==> now[i] == mid[i];
    }
  }

  /** The far end. Any attempt to send may fail, and then nothing has been taken, unless the server
      takes whatever is sent. */
  class PackWriter {
    const taking: bool
    var accepted: seq<Delivery>
    ghost var log: seq<Content>
    ghost var sendings: seq<Sending>

    constructor (taking: bool)
      ensures this.taking == taking && accepted == [] && log == [] && sendings == []
    {
      this.taking, accepted, log, sendings := taking, [], [], [];
    }

    method WriteRecordPack(d: Delivery, ghost c: Content) returns (ok: bool)
      modifies this
      ensures taking ==> ok
      ensures ok ==> accepted == old(accepted) + [d] && log == old(log) + [c]
      ensures !ok ==> accepted == old(accepted) && log == old(log)
      ensures sendings == old(sendings) + [Sending(d, ok)]
    {
      ok := *;
      ok := ok || taking;
      sendings := sendings + [Sending(d, ok)];
      if ok {
        accepted, log := accepted + [d], log + [c];
      }
    }
  }

  /** What a pack looks like from outside. */
  datatype PackView = PackView(pieces: seq<Piece>, size: nat, completed: bool)

  const EMPTY_PACK := PackView([], 0, false)

  datatype AppendStatus = Appended | SerializeFailed | NotFlushed

  /** A pack after an attempt to append `row`: a row that could not be serialized leaves its traces. */
  function AfterAppend(p: PackView, row: Row, status: AppendStatus, size: nat): PackView {
    if status == NotFlushed then p
    else p.(pieces := p.pieces + [Piece(row, status == Appended)], size := size)
  }

  /** A pack that could not be sent keeps its records but takes no more. */
  function Stuck(p: PackView, size: nat): PackView {
    p.(size := size, completed := true)
  }

  class RecordPack {
    const cfg: Config
    const mBucketId: int
    const mPackWriter: PackWriter
    /** The pack owns its writer, so putting a new one in its place is done in place. */
    const mSerializer: ProtoSerializer
    /** Buffer space that the output stream has claimed beyond the bytes written. */
    var slack: nat
    var mTotalRecords: nat
    var mCompleted: bool
    ghost var pieces: seq<Piece>

    ghost predicate Valid()
      reads this, mSerializer
    {
      && mSerializer.cfg == cfg && Fit(cfg, pieces)
      && mTotalRecords == |Rows(pieces)| == mSerializer.mTotalRecords
      && mSerializer.mCrcCrc == PiecesCrc(cfg, pieces)
      && mSerializer.out == (if mCompleted then PackBytes(cfg, pieces) else PiecesBytes(cfg, pieces))
      && (mCompleted || pieces == [] ==> slack == 0)
    }

    function Size(): nat
      reads this, mSerializer
    {
      |mSerializer.out| + slack
    }

    /** Nothing in it and ready to be filled. */
    ghost predicate Empty()
      reads this, mSerializer
    {
      View() == EMPTY_PACK
    }

    ghost function View(): PackView
      reads this, mSerializer
    {
      PackView(pieces, Size(), mCompleted)
    }

    constructor (cfg: Config, bucket: int, writer: PackWriter)
      ensures Valid() && Empty() && fresh(mSerializer)
      ensures this.cfg == cfg && mBucketId == bucket && mPackWriter == writer
    {
      this.cfg, mBucketId, mPackWriter := cfg, bucket, writer;
      mSerializer := new ProtoSerializer(cfg);
      slack, mTotalRecords, mCompleted, pieces := 0, 0, false, [];
    }

    /** A pack that was completed but could not be sent takes no more records. A record that cannot
        be serialized is not counted, but the columns before the one at fault, and what went out of
        that one, stay in the pack. */
    method Append(row: Row) returns (status: AppendStatus)
      requires Valid() && FitsRow(cfg, row)
      modifies this, mSerializer
      ensures Valid()
      ensures status == NotFlushed <==> old(mCompleted)
      ensures status == SerializeFailed <==> !old(mCompleted) && !Writable(cfg, row)
      ensures View() == AfterAppend(old(View()), row, status, Size())
      ensures mSerializer.out == old(mSerializer.out) + if status == NotFlushed then [] else PieceBytes(cfg, Piece(row, status == Appended))
    {
      hide Writable, PutColumns, RecordBytes, RecordCrc, FitsRow, ProtoSerializer.Holds, LittleEndian, PiecesBytes, PiecesCrc,
        Rows, Fit, Le32, PackBytes;
      if mCompleted {
        return NotFlushed;
      }
      var ok := mSerializer.Serialize(row);
      OnePieceMore(cfg, pieces, Piece(row, ok));
      pieces := pieces + [Piece(row, ok)];
      var claimed: int :| claimed >= 0;
      slack := claimed;
      if !ok {
        return SerializeFailed;
      }
      mTotalRecords := mTotalRecords + 1;
      status := Appended;
    }

    method Complete()
      requires Valid()
      modifies this, mSerializer
      ensures Valid() && mCompleted
      ensures pieces == old(pieces) && mTotalRecords == old(mTotalRecords)
      ensures old(mCompleted) ==> Size() == old(Size())
    {
      hide PiecesBytes, PiecesCrc, Rows, Fit, Footer;
      if !mCompleted {
        mCompleted := true;
        mSerializer.Complete();
        slack := 0;
      }
    }

    method Reset()
      requires Valid()
      modifies this, mSerializer
      ensures Valid() && Empty()
    {
      mSerializer.Renew();
      slack, mTotalRecords, mCompleted, pieces := 0, 0, false, [];
    }

    /** Tries once to send the pack. If that fails the pack keeps its records, completed and ready to be sent
        again; otherwise it is empty. */
    method Flush() returns (ok: bool)
      requires Valid()
      modifies this, mSerializer, mPackWriter
      ensures Valid()
      ensures View() == if ok then EMPTY_PACK else Stuck(old(View()), Size())
      ensures !ok && old(mCompleted) ==> Size() == old(Size())
      ensures Attempts(cfg, old(mPackWriter.sendings), mPackWriter.sendings, Content(mBucketId, old(pieces)), ok)
      ensures |mPackWriter.sendings| == |old(mPackWriter.sendings)| + 1 && (mPackWriter.taking ==> ok)
      ensures !ok ==> mPackWriter.accepted == old(mPackWriter.accepted) && mPackWriter.log == old(mPackWriter.log)
      ensures ok ==> mPackWriter.log == old(mPackWriter.log) + [Content(mBucketId, old(pieces))]
      ensures ok ==> |mPackWriter.accepted| == |old(mPackWriter.accepted)| + 1
                     && old(mPackWriter.accepted) <= mPackWriter.accepted
                     && Faithful(cfg, mPackWriter.accepted[|old(mPackWriter.accepted)|], Content(mBucketId, old(pieces)))
    {
      hide PiecesBytes, PiecesCrc, Rows, Fit, PackBytes;
      Complete();
      ok := mPackWriter.WriteRecordPack(Delivery(mBucketId, mSerializer.out, mTotalRecords), Content(mBucketId, pieces));
      if ok {
        Reset();
      }
    }
  }
}
