/** An upsert stream: records are collected in one pack per bucket, and packs are sent when they or
    all of them together grow too large. Whatever fails on the way, no record is lost or doubled,
    provided that the server has taken nothing when a send fails and apart from the records that a
    reset throws away. */
module UpsertStreams {
  import opened Bytes
  import opened ColumnTypes
  import opened RecordStream
  import opened RecordRoundTrip
  import opened ProtoSerializers
  import opened PackContents
  import opened RecordPacks
  import opened Retries
  import opened UpsertLedger
  import opened UpsertSessions

  datatype Status = NORMAL | ERROR | CLOSED

  ghost function ViewOf(packs: seq<RecordPack>): (views: seq<PackView>)
    reads packs, set b | 0 <= b < |packs| :: packs[b].mSerializer
    ensures |views| == |packs| && forall b | 0 <= b < |packs| :: views[b] == packs[b].View()
  {
    if packs == [] then [] else ViewOf(packs[..|packs| - 1]) + [packs[|packs| - 1].View()]
  }

  /** One pack with one serializer for each bucket. */
  ghost predicate PacksFor(packs: seq<RecordPack>, cfg: Config, server: PackWriter)
    reads packs, set b | 0 <= b < |packs| :: packs[b].mSerializer
  {
    && (forall b | 0 <= b < |packs| ::
        packs[b].Valid() && packs[b].cfg == cfg && packs[b].mBucketId == b && packs[b].mPackWriter == server)
    && (forall a, b | 0 <= a < b < |packs| :: packs[a] != packs[b])
    && (forall a, b | 0 <= a < b < |packs| :: packs[a].mSerializer != packs[b].mSerializer)
  }

  ghost predicate AllEmpty(packs: seq<RecordPack>)
    reads packs, set b | 0 <= b < |packs| :: packs[b].mSerializer
  {
    forall b | 0 <= b < |packs| :: packs[b].Empty()
  }

  method CreatePacks(cfg: Config, server: PackWriter, buckets: nat) returns (packs: seq<RecordPack>)
    ensures |packs| == buckets && PacksFor(packs, cfg, server) && AllEmpty(packs)
    ensures fresh(packs) && fresh(set b | 0 <= b < |packs| :: packs[b].mSerializer)
  {
    hide RecordPack.Valid, RecordPack.Empty, RecordPack.View, RecordPack.Size;
    packs := [];
    while |packs| < buckets
      invariant |packs| <= buckets && PacksFor(packs, cfg, server) && AllEmpty(packs)
      invariant fresh(packs) && fresh(set b | 0 <= b < |packs| :: packs[b].mSerializer)
    {
      var pack := new RecordPack(cfg, |packs|, server);
      packs := packs + [pack];
    }
  }

  /** Whoever uses the stream may want any number of retries, but gives up at some time. */
  class Listener {
    var patience: nat
    ghost var answers: seq<Answer>

    constructor ()
      ensures answers == []
    {
      patience, answers := *, [];
    }

    method OnFlushFail(retry: nat) returns (again: bool)
      modifies this
      ensures again ==> patience < old(patience)
      ensures answers == old(answers) + [Answer(retry, again)]
    {
      again := *;
      again := again && patience > 0;
      answers := answers + [Answer(retry, again)];
      if again {
        patience := patience - 1;
      } else {
        patience := *;
      }
    }
  }

  class UpsertStream {
    const cfg: Config
    const server: PackWriter
    const mListener: Listener?
    const mBucketBuffer: seq<RecordPack>
    var mStatus: Status
    var mSlotBufferSize: int
    var mMaxBufferSize: int
    var mTotalBufferSize: int
    /** What was tried to append to each bucket so far, less what a reset threw away. */
    ghost var attempted: seq<seq<Piece>>

    function Serializers(): set<ProtoSerializer>
    {
      set b | 0 <= b < |mBucketBuffer| :: mBucketBuffer[b].mSerializer
    }

    ghost function View(): (views: seq<PackView>)
      reads mBucketBuffer, Serializers()
      ensures |views| == |mBucketBuffer|
    {
      ViewOf(mBucketBuffer)
    }

    ghost predicate Packed()
      reads mBucketBuffer, Serializers()
    {
      PacksFor(mBucketBuffer, cfg, server)
    }

    /** Nothing is lost or doubled, and what the server holds is what it was meant to hold. */
    ghost predicate Valid()
      reads `attempted, mBucketBuffer, Serializers(), server
    {
      Packed() && Balanced(server.log, View(), attempted) && AllFaithful(cfg, server.accepted, server.log)
    }

    constructor (cfg: Config, server: PackWriter, buckets: nat, listener: Listener?)
      requires server.accepted == [] && server.log == []
      ensures Valid() && this.cfg == cfg && this.server == server && mListener == listener
      ensures attempted == seq(buckets, b => []) && View() == seq(buckets, b => EMPTY_PACK)
      ensures mStatus == NORMAL && InOrder() && mSlotBufferSize == 1048576 && mMaxBufferSize == 67108864
      ensures fresh(mBucketBuffer) && fresh(Serializers())
    {
      hide ViewOf, View, Packed, Valid, Balanced, AllFaithful, InOrder, Orderly, PacksFor, AllEmpty;
      this.cfg, this.server, mListener := cfg, server, listener;
      mStatus, attempted := NORMAL, seq(buckets, b => []);
      mSlotBufferSize, mMaxBufferSize, mTotalBufferSize := 1024 * 1024, 64 * 1024 * 1024, 0;
      var packs := CreatePacks(cfg, server, buckets);
      mBucketBuffer := packs;
      new;
      FreshIsValid(buckets);
    }

    lemma FreshIsValid(buckets: nat)
      requires |mBucketBuffer| == buckets && PacksFor(mBucketBuffer, cfg, server) && AllEmpty(mBucketBuffer)
      requires attempted == seq(buckets, b => []) && server.log == [] && server.accepted == []
      requires mTotalBufferSize == 0 && mSlotBufferSize >= 0 && mMaxBufferSize >= 0
      ensures Valid() && View() == seq(buckets, b => EMPTY_PACK) && InOrder()
    {
      hide ViewOf, PacksFor, RecordPack.Valid;
      assert View() == seq(buckets, b => EMPTY_PACK);
      hide View, Orderly, Delivered, Balanced;
      BalancedFromTheStart(buckets);
      EmptyIsOrderly(View(), mSlotBufferSize, mMaxBufferSize);
    }

    ghost function TrafficNow(): Traffic
      reads server, mListener
    {
      Traffic(server.sendings, server.log, if mListener == null then [] else mListener.answers)
    }

    /** Tries once to send a pack. */
    method SendOnce(b: nat) returns (ok: bool)
      requires Valid() && b < |mBucketBuffer| && HasRecords(View()[b])
      modifies mBucketBuffer[b], mBucketBuffer[b].mSerializer, server
      ensures Valid() && (server.taking ==> ok)
      ensures TriedOnce(cfg, old(TrafficNow()), TrafficNow(), Content(b, old(View()[b].pieces)), ok)
      ensures if ok then View() == old(View())[b := EMPTY_PACK] else StuckAt(old(View()), View(), b)
    {
      hide Balanced, Faithful, Delivered, Rows, ViewOf, RecordPack.Valid, RecordPack.Empty, RecordPack.Size;
      var pack := mBucketBuffer[b];
      ghost var (log, views) := (server.log, View());
      ghost var c := Content(b, pack.pieces);
      ok := pack.Flush();
      if ok {
        BalancedAfterSend(log, c, views, attempted);
        assert View() == views[b := EMPTY_PACK];
      } else {
        BalancedWhenStuck(log, views, attempted, b, pack.Size());
        assert View() == views[b := Stuck(views[b], pack.Size())];
      }
    }

    method SetStatus(status: Status)
      modifies `mStatus
      ensures mStatus == status && View() == old(View()) && Valid() == old(Valid()) && TrafficNow() == old(TrafficNow())
    {
      hide ViewOf, PacksFor, Balanced, AllFaithful;
      mStatus := status;
    }

    method SetTotal(total: int)
      modifies `mTotalBufferSize
      ensures mTotalBufferSize == total && View() == old(View()) && Valid() == old(Valid()) && TrafficNow() == old(TrafficNow())
    {
      hide ViewOf, PacksFor, Balanced, AllFaithful;
      mTotalBufferSize := total;
    }

    /** Asks the listener for another retry. */
    method AskAgain(retry: nat) returns (again: bool)
      requires mListener != null
      modifies mListener
      ensures again ==> mListener.patience < old(mListener.patience)
      ensures TrafficNow() == old(TrafficNow()).(answers := old(TrafficNow()).answers + [Answer(retry, again)])
      ensures View() == old(View()) && Valid() == old(Valid())
    {
      hide ViewOf, PacksFor, Balanced, AllFaithful;
      again := mListener.OnFlushFail(retry);
    }

    /** Tries to send a pack until it is sent, or fails and there is no listener or none that wants
        another retry. */
    method SendPack(b: nat) returns (ok: bool)
      requires Valid() && b < |mBucketBuffer| && HasRecords(View()[b])
      modifies `mStatus, mBucketBuffer[b], mBucketBuffer[b].mSerializer, server, mListener
      ensures Valid() && (server.taking ==> ok)
      ensures Sent(cfg, old(TrafficNow()), TrafficNow(), Content(b, old(View()[b].pieces)), mListener != null, ok)
      ensures if ok then View() == old(View())[b := EMPTY_PACK] else StuckAt(old(View()), View(), b)
      ensures mStatus == if !ok && mListener != null then ERROR else old(mStatus)
    {
      hide *;
      ghost var (views, before) := (View(), TrafficNow());
      ghost var c := Content(b, views[b].pieces);
      var retry := 0;
      ok := SendOnce(b);
      FirstTry(cfg, before, TrafficNow(), c, mListener != null, ok);
      while !ok
        invariant Valid() && mStatus == old(mStatus) && (server.taking ==> ok)
        invariant Retried(cfg, before, TrafficNow(), c, mListener != null, retry, ok)
        invariant if ok then View() == views[b := EMPTY_PACK] else StuckAt(views, View(), b)
        decreases if ok then 0 else 1, if mListener == null then 0 else mListener.patience
      {
        ghost var mid := TrafficNow();
        if mListener == null {
          NoMoreTries(cfg, before, mid, c, false, retry, false);
          return;
        }
        var again := AskAgain(retry);
        if !again {
          NotAgain(cfg, before, mid, c, retry);
          SetStatus(ERROR);
          return;
        }
        StuckStays(views, View(), b);
        ok := SendOnce(b);
        NextTry(cfg, before, mid, TrafficNow(), c, retry, ok);
        retry := retry + 1;
      }
      NoMoreTries(cfg, before, TrafficNow(), c, mListener != null, retry, true);
    }

    function DataSize(b: nat): (size: nat)
      requires b < |mBucketBuffer|
      reads mBucketBuffer, Serializers()
      ensures size == View()[b].size
    {
      hide ViewOf;
      mBucketBuffer[b].Size()
    }

    function RecordCount(b: nat): (count: nat)
      requires Valid() && b < |mBucketBuffer|
      reads `attempted, mBucketBuffer, Serializers(), server
      ensures count > 0 <==> HasRecords(View()[b])
    {
      hide ViewOf, Balanced, AllFaithful;
      mBucketBuffer[b].mTotalRecords
    }

    /** Sends one pack if it is due. The size is what it takes up then, if it holds records. */
    method FlushPack(b: nat, flushAll: bool) returns (ok: bool, size: nat)
      requires Valid() && b < |mBucketBuffer|
      modifies `mStatus, mBucketBuffer[b], mBucketBuffer[b].mSerializer, server, mListener
      ensures Valid() && (server.taking ==> ok)
      ensures if Due(old(View()[b]), mSlotBufferSize, flushAll)
              then Sent(cfg, old(TrafficNow()), TrafficNow(), Content(b, old(View()[b]).pieces), mListener != null, ok)
              else TrafficNow() == old(TrafficNow())
      ensures ok ==> && View() == old(View())[b := if Due(old(View()[b]), mSlotBufferSize, flushAll) then EMPTY_PACK else old(View()[b])]
                     && size == (if HasRecords(View()[b]) then View()[b].size else 0) && mStatus == old(mStatus)
      ensures !ok ==> && Due(old(View()[b]), mSlotBufferSize, flushAll) && StuckAt(old(View()), View(), b)
                      && mStatus == if mListener != null then ERROR else old(mStatus)
    {
      hide Valid, View, HasRecords, StuckAt, Sent;
      EmptyHasNone();
      ok, size := true, 0;
      if RecordCount(b) > 0 {
        if DataSize(b) > mSlotBufferSize || flushAll {
          ok := SendPack(b);
        }
        size := DataSize(b);
      }
    }

    /** Sends the packs that are due, in order. When one of them fails for good, those after it are
        not tried and the total is not corrected. */
    method Flush(flushAll: bool) returns (ok: bool)
      requires Valid()
      modifies `mStatus, `mTotalBufferSize, mBucketBuffer, Serializers(), server, mListener
      ensures Valid()
      ensures old(server.sendings) <= server.sendings && (server.taking ==> ok)
      ensures !ok <==> LastFailed(old(server.sendings), server.sendings)
      ensures ok ==> server.log == old(server.log) + DueContents(old(View()), |mBucketBuffer|, mSlotBufferSize, flushAll)
      ensures ok ==> && View() == Flushed(old(View()), |mBucketBuffer|, mSlotBufferSize, flushAll)
                     && mTotalBufferSize == (if flushAll then 0 else Counted(View())) && mStatus == old(mStatus)
      ensures !ok ==> && mTotalBufferSize == old(mTotalBufferSize) && mStatus == (if mListener != null then ERROR else old(mStatus))
                      && FlushGivenUp(old(View()), View(), flushAll, mSlotBufferSize)
    {
      hide Valid, View, Counted, Due, Flushed, HasRecords, DueContents, StuckAt, FlushGivenUp, Sent, SentUpTo, LastFailed;
      ghost var (views, before) := (View(), TrafficNow());
      var totalBufferSize := 0;
      var b := 0;
      NothingFlushed(views, mSlotBufferSize, flushAll);
      NothingSent(before, views, mSlotBufferSize, flushAll);
      while b < |mBucketBuffer|
        invariant 0 <= b <= |mBucketBuffer| == |views| && Valid()
        invariant mStatus == old(mStatus) && mTotalBufferSize == old(mTotalBufferSize)
        invariant View() == Flushed(views, b, mSlotBufferSize, flushAll)
        invariant totalBufferSize == Counted(View()[..b])
        invariant SentUpTo(before, TrafficNow(), views, b, mSlotBufferSize, flushAll)
      {
        ghost var mid := TrafficNow();
        OnePackMore(views, b, mSlotBufferSize, flushAll);
        var size;
        ok, size := FlushPack(b, flushAll);
        SendingGoesOn(cfg, before, mid, TrafficNow(), views, b, mSlotBufferSize, flushAll, mListener != null, ok);
        if !ok {
          FlushStopsHere(views, View(), b, mSlotBufferSize, flushAll);
          return;
        }
        totalBufferSize := totalBufferSize + size;
        b := b + 1;
      }
      NothingFlushed(View(), mSlotBufferSize, flushAll);
      AllSent(before, TrafficNow(), views, mSlotBufferSize, flushAll);
      SetTotal(if flushAll then 0 else totalBufferSize);
      ok := true;
    }

    ghost method Note(b: nat, row: Row, status: AppendStatus)
      requires Packed() && b < |attempted| && AllFaithful(cfg, server.accepted, server.log)
      requires Balanced(server.log, View(), Tried(attempted, b, row, status))
      modifies `attempted
      ensures Valid() && View() == old(View()) && attempted == Tried(old(attempted), b, row, status)
    {
      hide ViewOf, PacksFor, Balanced, AllFaithful, Tried;
      attempted := Tried(attempted, b, row, status);
    }

    lemma Opened()
      requires Valid()
      ensures Packed() && Balanced(server.log, View(), attempted) && AllFaithful(cfg, server.accepted, server.log)
      ensures |attempted| == |View()|
    {
      hide Packed, View, AllFaithful;
    }

    /** Adds a record to its pack. */
    method AppendTo(b: nat, row: Row) returns (status: AppendStatus)
      requires Valid() && b < |mBucketBuffer| && FitsRow(cfg, row)
      modifies `attempted, mBucketBuffer[b], mBucketBuffer[b].mSerializer
      ensures Valid() && |attempted| == |old(attempted)| == |mBucketBuffer|
      ensures status == NotFlushed <==> old(View()[b]).completed
      ensures status == SerializeFailed <==> !old(View()[b]).completed && !Writable(cfg, row)
      ensures attempted == Tried(old(attempted), b, row, status)
      ensures View() == old(View())[b := AfterAppend(old(View()[b]), row, status, View()[b].size)]
      ensures server.accepted == old(server.accepted) && server.sendings == old(server.sendings)
    {
      hide Packed, AllFaithful, Balanced, View, Tried, Valid, AfterAppend, Writable, FitsRow;
      Opened();
      ghost var views := View();
      status := AppendToPack(b, row);
      BalancedAfterAppend(server.log, views, attempted, b, row, status, View()[b].size);
      Note(b, row, status);
    }

    method AppendToPack(b: nat, row: Row) returns (status: AppendStatus)
      requires Packed() && b < |mBucketBuffer| && FitsRow(cfg, row)
      modifies mBucketBuffer[b], mBucketBuffer[b].mSerializer
      ensures Packed()
      ensures status == NotFlushed <==> old(View()[b]).completed
      ensures status == SerializeFailed <==> !old(View()[b]).completed && !Writable(cfg, row)
      ensures View() == old(View())[b := AfterAppend(old(View()[b]), row, status, View()[b].size)]
    {
      hide ViewOf, RecordPack.Valid, RecordPack.Empty, RecordPack.Size, FitsRow, Writable, AfterAppend, PieceBytes;
      status := mBucketBuffer[b].Append(row);
    }

    function Index(hash: Int32): (b: nat)
      requires 0 < |mBucketBuffer| <= TWO_32
      ensures b < |mBucketBuffer|
    {
      Unsigned(BucketOf(hash, |mBucketBuffer|))
    }

    lemma IndexMeans(hash: Int32)
      requires 0 < |mBucketBuffer| <= TWO_32
      ensures IsBucketOf(hash, |mBucketBuffer|, Index(hash))
    {
      BucketMeans(hash, |mBucketBuffer|, Index(hash));
    }

    ghost function BooksNow(): Books
      reads `attempted, `mTotalBufferSize, mBucketBuffer, Serializers()
    {
      Books(View(), mTotalBufferSize, attempted)
    }

    /** Adds a record to the pack of its bucket and sends packs that have grown too large. `size` is
        what that pack takes up after the attempt. */
    method Write(row: Row, hash: Int32) returns (outcome: WriteOutcome, ghost size: nat)
      requires Valid() && 0 < |mBucketBuffer| <= TWO_32 && FitsRow(cfg, row)
      modifies `attempted, `mStatus, `mTotalBufferSize, mBucketBuffer, Serializers(), server, mListener
      ensures Valid()
      ensures IsBucketOf(hash, |mBucketBuffer|, Index(hash))
      ensures outcome == Unusable <==> old(mStatus) != NORMAL
      ensures outcome == PackNotFlushed <==> old(mStatus) == NORMAL && old(View())[Index(hash)].completed
      ensures outcome == NotSerialized <==>
        old(mStatus) == NORMAL && !old(View())[Index(hash)].completed && !Writable(cfg, row)
      ensures WriteDone(old(BooksNow()), BooksNow(), Index(hash), row, outcome, size, mSlotBufferSize, mMaxBufferSize)
      ensures old(server.sendings) <= server.sendings && (server.taking ==> outcome != FlushFailed)
      ensures outcome == FlushFailed <==> LastFailed(old(server.sendings), server.sendings)
      ensures outcome != Written && outcome != FlushFailed ==> server.accepted == old(server.accepted)
      ensures mStatus == if outcome == FlushFailed && mListener != null then ERROR else old(mStatus)
      ensures outcome == Written && mSlotBufferSize >= 0 && mMaxBufferSize >= 0 && old(InOrder()) ==> InOrder()
    {
      hide Serializers, Valid, View, Orderly, BucketOf, Unsigned, Writable, FitsRow, WriteDone, AfterAttempt;
      Opened();
      IndexMeans(hash);
      if mStatus != NORMAL {
        Nothing(BooksNow(), Index(hash), row, mSlotBufferSize, mMaxBufferSize);
        return Unusable, 0;
      }
      ghost var before := BooksNow();
      outcome, size := WriteTo(Index(hash), row);
      if outcome == Written && mSlotBufferSize >= 0 && mMaxBufferSize >= 0 && old(InOrder()) {
        WriteStaysOrderly(before, BooksNow(), Index(hash), row, size, mSlotBufferSize, mMaxBufferSize);
      }
    }

    method WriteTo(b: nat, row: Row) returns (outcome: WriteOutcome, ghost size: nat)
      requires Valid() && b < |mBucketBuffer| && FitsRow(cfg, row)
      modifies `attempted, `mStatus, `mTotalBufferSize, mBucketBuffer, Serializers(), server, mListener
      ensures Valid() && outcome == OutcomeOf(old(View())[b].completed, Writable(cfg, row), outcome == FlushFailed)
      ensures WriteDone(old(BooksNow()), BooksNow(), b, row, outcome, size, mSlotBufferSize, mMaxBufferSize)
      ensures old(server.sendings) <= server.sendings && (server.taking ==> outcome != FlushFailed)
      ensures outcome == FlushFailed <==> LastFailed(old(server.sendings), server.sendings)
      ensures outcome != Written && outcome != FlushFailed ==> server.accepted == old(server.accepted)
      ensures mStatus == if outcome == FlushFailed && mListener != null then ERROR else old(mStatus)
    {
      hide Serializers, Valid, View, Packed, Writable, FitsRow, FlushGivenUp, AfterAttempt, WriteDone, Balanced, AllFaithful;
      Opened();
      ghost var before := BooksNow();
      var status, growth;
      status, growth, size := AppendAndMeasure(b, row);
      if status == Appended {
        outcome := FlushAfterAppend(before, b, row, growth, size);
      } else {
        NotAppended(before, b, row, status, size, mSlotBufferSize, mMaxBufferSize);
        outcome := if status == NotFlushed then PackNotFlushed else NotSerialized;
      }
    }

    method FlushAfterAppend(ghost before: Books, b: nat, ghost row: Row, growth: int,
        ghost size: nat) returns (outcome: WriteOutcome)
      requires Valid() && b < |mBucketBuffer| == |before.packs| == |before.attempted| && growth == size - before.packs[b].size
      requires BooksNow() == AfterAttempt(before, b, row, Appended, size)
      modifies `mStatus, `mTotalBufferSize, mBucketBuffer, Serializers(), server, mListener
      ensures Valid() && outcome in {Written, FlushFailed}
      ensures old(server.sendings) <= server.sendings && (server.taking ==> outcome != FlushFailed)
      ensures outcome == FlushFailed <==> LastFailed(old(server.sendings), server.sendings)
      ensures WriteDone(before, BooksNow(), b, row, outcome, size, mSlotBufferSize, mMaxBufferSize)
      ensures mStatus == if outcome == FlushFailed && mListener != null then ERROR else old(mStatus)
    {
      hide Serializers, Valid, View, AfterFlushIfDue, FlushGivenUp, WriteDone;
      var ok := FlushIfDue(b, mTotalBufferSize + growth);
      AppendedAndFlushed(before, BooksNow(), b, row, ok, size, mSlotBufferSize, mMaxBufferSize);
      outcome := if ok then Written else FlushFailed;
    }

    method AppendAndMeasure(b: nat, row: Row) returns (status: AppendStatus, growth: int, ghost size: nat)
      requires Valid() && b < |mBucketBuffer| && FitsRow(cfg, row)
      modifies `attempted, mBucketBuffer, Serializers()
      ensures Valid() && |attempted| == |old(attempted)| == |mBucketBuffer|
      ensures status == NotFlushed <==> old(View())[b].completed
      ensures status == SerializeFailed <==> !old(View())[b].completed && !Writable(cfg, row)
      ensures growth == size - old(View())[b].size
      ensures BooksNow() == AfterAttempt(old(BooksNow()), b, row, status, size)
      ensures mStatus == old(mStatus) && server.accepted == old(server.accepted) && server.sendings == old(server.sendings)
    {
      hide Valid, View, Writable, FitsRow, AfterAppend, Tried;
      var bytes := DataSize(b);
      status := AppendTo(b, row);
      growth, size := DataSize(b) - bytes, DataSize(b);
    }

    method FlushIfDue(b: nat, total: int) returns (ok: bool)
      requires Valid() && b < |mBucketBuffer|
      modifies `mStatus, `mTotalBufferSize, mBucketBuffer, Serializers(), server, mListener
      ensures old(server.sendings) <= server.sendings && (server.taking ==> ok)
      ensures !ok <==> LastFailed(old(server.sendings), server.sendings)
      ensures Valid() && mStatus == if !ok && mListener != null then ERROR else old(mStatus)
      ensures ok ==> (View(), mTotalBufferSize) == AfterFlushIfDue(old(View()), b, total, mSlotBufferSize, mMaxBufferSize)
      ensures !ok ==> mTotalBufferSize == total && FlushGivenUp(old(View()), View(), old(View())[b].size <= mSlotBufferSize, mSlotBufferSize)
    {
      hide Valid, ViewOf, Counted, Flushed, FlushStopped;
      SetTotal(total);
      ok := true;
      if mBucketBuffer[b].Size() > mSlotBufferSize {
        ok := Flush(false);
      } else if mTotalBufferSize > mMaxBufferSize {
        ok := Flush(true);
      }
    }

    /** The books are right and the limits kept. */
    ghost predicate InOrder()
      reads `mTotalBufferSize, `mSlotBufferSize, `mMaxBufferSize, mBucketBuffer, Serializers()
    {
      Orderly(View(), mTotalBufferSize, mSlotBufferSize, mMaxBufferSize)
    }

    /** What the server has taken for bucket `b` reads back as these rows. */
    ghost predicate ReadsBackAs(b: nat, rows: seq<Row>)
      requires AllWritable(cfg, rows)
      reads server
    {
      forall obj: Row | |obj| == |cfg.schema| ::
        ReadBack(cfg, server.accepted, b, obj) == NormalRows(cfg, rows) && AllComplete(cfg, server.accepted, b, obj)
    }

    /** For every bucket into which no row failed to go, the accepted bytes read back as the rows
        appended. */
    ghost predicate AllArrived()
      requires |attempted| == |mBucketBuffer|
      reads `attempted, server
    {
      forall b | 0 <= b < |mBucketBuffer| && Sound(cfg, attempted[b]) ::
        AllWritable(cfg, Rows(attempted[b])) && ReadsBackAs(b, Rows(attempted[b]))
    }

    lemma AllArrive()
      requires cfg.Valid() && |attempted| == |mBucketBuffer| && AllFaithful(cfg, server.accepted, server.log)
      requires forall b | 0 <= b < |mBucketBuffer| :: Intact(attempted[b]) ==> Delivered(server.log, b) == attempted[b]
      ensures AllArrived()
    {
      hide ReadBack, NormalRows, AllComplete, Delivered, Rows, AllWritable, AllFaithful;
      forall b | 0 <= b < |mBucketBuffer| && Sound(cfg, attempted[b])
        ensures AllWritable(cfg, Rows(attempted[b])) && ReadsBackAs(b, Rows(attempted[b]))
      {
        SoundRows(cfg, attempted[b]);
        forall obj: Row | |obj| == |cfg.schema|
          ensures ReadBack(cfg, server.accepted, b, obj) == NormalRows(cfg, Rows(attempted[b]))
          ensures AllComplete(cfg, server.accepted, b, obj)
        {
          ServerReadsBack(cfg, server.accepted, server.log, b, obj);
        }
      }
    }

    /** Every pack with records was sent; the server has all records. */
    ghost predicate Settled(views: seq<PackView>)
      requires |views| == |attempted| == |mBucketBuffer|
      reads `attempted, mBucketBuffer, Serializers(), server
    {
      forall b | 0 <= b < |mBucketBuffer| ::
        && View()[b] == (if HasRecords(views[b]) then EMPTY_PACK else views[b])
        && Rows(Delivered(server.log, b)) == Rows(attempted[b])
        && (Intact(attempted[b]) ==> Delivered(server.log, b) == attempted[b])
    }

    lemma FlushSettles(views: seq<PackView>)
      requires Valid() && |views| == |mBucketBuffer| && View() == Flushed(views, |views|, mSlotBufferSize, true)
      ensures |attempted| == |mBucketBuffer| && Settled(views) && (cfg.Valid() ==> AllArrived())
    {
      hide Valid, Packed, View, Balanced, Delivered, Rows, Intact, AllArrived, AllFaithful, HasRecords, Flushed;
      Opened();
      AllFlushed(views, mSlotBufferSize);
      NothingPending(server.log, View(), attempted);
      if cfg.Valid() {
        AllArrive();
      }
    }

    /** Closes a usable stream. Once that has succeeded, the server holds, bucket by bucket, all
        records that were appended, and the bytes it has taken read back as these records. */
    method Close() returns (ok: bool)
      requires Valid()
      modifies `mStatus, `mTotalBufferSize, mBucketBuffer, Serializers(), server, mListener
      ensures Valid() && |attempted| == |mBucketBuffer|
      ensures old(server.sendings) <= server.sendings && (server.taking ==> ok)
      ensures !ok <==> LastFailed(old(server.sendings), server.sendings)
      ensures old(mStatus) != NORMAL ==> ok && View() == old(View()) && mStatus == old(mStatus) && server.log == old(server.log)
      ensures ok && old(mStatus) == NORMAL ==> mStatus == CLOSED
      ensures ok && old(mStatus) == NORMAL ==> Settled(old(View())) && (cfg.Valid() ==> AllArrived())
      ensures !ok ==> mStatus == if mListener != null then ERROR else NORMAL
    {
      hide Valid, View, FlushStopped, Settled, AllArrived, Balanced, AllFaithful, Packed;
      Opened();
      ghost var views := View();
      ok := true;
      if mStatus == NORMAL {
        ok := Flush(true);
        if ok {
          FlushSettles(views);
          SetClosed(views);
        }
      }
    }

    method SetClosed(ghost views: seq<PackView>)
      requires Valid() && |views| == |attempted| == |mBucketBuffer|
      modifies `mStatus
      ensures Valid() && mStatus == CLOSED && View() == old(View()) && server.sendings == old(server.sendings)
      ensures Settled(views) == old(Settled(views)) && AllArrived() == old(AllArrived())
    {
      hide ViewOf, PacksFor, Balanced, AllFaithful, AllArrived;
      mStatus := CLOSED;
    }

    method ResetPack(b: nat)
      requires Packed() && b < |mBucketBuffer|
      modifies mBucketBuffer[b], mBucketBuffer[b].mSerializer
      ensures Packed() && View() == old(View())[b := EMPTY_PACK]
    {
      hide ViewOf, RecordPack.Valid;
      ghost var views := View();
      mBucketBuffer[b].Reset();
      assert View() == views[b := EMPTY_PACK];
    }

    /** Throws away what has not been sent and makes the stream usable again. */
    method Reset()
      requires Valid()
      modifies `attempted, `mStatus, `mTotalBufferSize, mBucketBuffer, Serializers()
      ensures Valid() && mStatus == NORMAL && mTotalBufferSize == 0
      ensures View() == seq(|mBucketBuffer|, b => EMPTY_PACK)
      ensures attempted == DeliveredTo(|mBucketBuffer|, server.log)
    {
      hide Packed, AllFaithful, Delivered, View, RecordPack.Valid;
      var b := 0;
      while b < |mBucketBuffer|
        invariant 0 <= b <= |mBucketBuffer| && Packed()
        invariant forall c | 0 <= c < b :: View()[c] == EMPTY_PACK
      {
        ResetPack(b);
        b := b + 1;
      }
      attempted := DeliveredTo(|mBucketBuffer|, server.log);
      SetTotal(0);
      SetStatus(NORMAL);
    }
  }
}
