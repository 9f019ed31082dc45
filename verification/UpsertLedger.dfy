/** The books of an upsert stream, as values: what was tried, what the packs hold, what the server
    has, and how much space the packs take up. */
module UpsertLedger {
  import opened Bytes
  import opened ColumnTypes
  import opened RecordStream
  import opened RecordRoundTrip
  import opened PackContents
  import opened RecordPacks
  import opened Retries

  // ---------- what was tried is delivered or pending ----------

  /** What reached the server for one bucket, in order. */
  function Delivered(log: seq<Content>, b: int): seq<Piece> {
    if log == [] then []
    else
      var last := log[|log| - 1];
      Delivered(log[..|log| - 1], b) + if last.bucket == b then last.pieces else []
  }

  function DeliveredTo(buckets: nat, log: seq<Content>): (pieces: seq<seq<Piece>>)
    ensures |pieces| == buckets
  {
    seq(buckets, b => Delivered(log, b))
  }

  lemma DeliveredStep(log: seq<Content>, c: Content, b: int)
    ensures Delivered(log + [c], b) == Delivered(log, b) + if c.bucket == b then c.pieces else []
  {
    assert (log + [c])[..|log|] == log;
  }

  predicate HasRecords(p: PackView) {
    Rows(p.pieces) != []
  }

  lemma EmptyHasNone()
    ensures !HasRecords(EMPTY_PACK) && EMPTY_PACK.size == 0
  {
  }

  /** Bucket by bucket, what the server has and what is still in the pack make up what was tried. A
      pack is completed only for sending, and only packs with records are sent. */
  ghost predicate Balanced(log: seq<Content>, packs: seq<PackView>, attempted: seq<seq<Piece>>) {
    && |packs| == |attempted|
    && forall b | 0 <= b < |packs| ::
      Delivered(log, b) + packs[b].pieces == attempted[b] && (packs[b].completed ==> HasRecords(packs[b]))
  }

  predicate AllFaithful(cfg: Config, accepted: seq<Delivery>, log: seq<Content>) {
    |accepted| == |log| && forall i | 0 <= i < |log| :: Faithful(cfg, accepted[i], log[i])
  }

  lemma BalancedFromTheStart(buckets: nat)
    ensures Balanced([], seq(buckets, b => EMPTY_PACK), seq(buckets, b => []))
  {
  }

  lemma BalancedAfterSend(log: seq<Content>, c: Content, packs: seq<PackView>, attempted: seq<seq<Piece>>)
    requires Balanced(log, packs, attempted) && 0 <= c.bucket < |packs| && c.pieces == packs[c.bucket].pieces
    ensures Balanced(log + [c], packs[c.bucket := EMPTY_PACK], attempted)
  {
    forall b | 0 <= b < |packs|
      ensures Delivered(log + [c], b) + packs[c.bucket := EMPTY_PACK][b].pieces == attempted[b]
    {
      DeliveredStep(log, c, b);
    }
  }

  lemma BalancedWhenStuck(log: seq<Content>, packs: seq<PackView>, attempted: seq<seq<Piece>>, b: nat, size: nat)
    requires Balanced(log, packs, attempted) && b < |packs| && HasRecords(packs[b])
    ensures Balanced(log, packs[b := Stuck(packs[b], size)], attempted)
  {
  }

  /** What was tried, after another attempt to append. */
  function Tried(attempted: seq<seq<Piece>>, b: nat, row: Row, status: AppendStatus): (after: seq<seq<Piece>>)
    requires b < |attempted|
    ensures |after| == |attempted|
  {
    if status == NotFlushed then attempted else attempted[b := attempted[b] + [Piece(row, status == Appended)]]
  }

  lemma BalancedAfterAppend(log: seq<Content>, packs: seq<PackView>, attempted: seq<seq<Piece>>, b: nat, row: Row,
      status: AppendStatus, size: nat)
    requires Balanced(log, packs, attempted) && b < |packs| && (status == NotFlushed <==> packs[b].completed)
    ensures Balanced(log, packs[b := AfterAppend(packs[b], row, status, size)], Tried(attempted, b, row, status))
  {
    hide Delivered;
    var p := Piece(row, status == Appended);
    assert Delivered(log, b) + (packs[b].pieces + [p]) == Delivered(log, b) + packs[b].pieces + [p];
  }

  /** When no pack holds a record any more, the server has all records; what else there is was left
      by rows that could not be serialized, in packs that never held a record since. */
  lemma NothingPending(log: seq<Content>, packs: seq<PackView>, attempted: seq<seq<Piece>>)
    requires Balanced(log, packs, attempted) && forall b | 0 <= b < |packs| :: !HasRecords(packs[b])
    ensures forall b | 0 <= b < |packs| ::
      Rows(Delivered(log, b)) == Rows(attempted[b]) && (Intact(attempted[b]) ==> Delivered(log, b) == attempted[b])
  {
    forall b | 0 <= b < |packs|
      ensures Rows(Delivered(log, b)) == Rows(attempted[b]) && (Intact(attempted[b]) ==> Delivered(log, b) == attempted[b])
    {
      var pending := packs[b].pieces;
      RowsAppend(Delivered(log, b), pending);
      if Intact(attempted[b]) {
        IntactParts(Delivered(log, b), pending);
        IntactCount(pending);
        assert Delivered(log, b) + [] == Delivered(log, b);
      }
    }
  }

  // ---------- what the server's bytes say ----------

  /** What comes out when the deliveries for one bucket are read one after the other. */
  function ReadBack(cfg: Config, accepted: seq<Delivery>, b: int, obj: Row): seq<Row>
    requires |obj| == |cfg.schema|
  {
    if accepted == [] then []
    else
      var last := accepted[|accepted| - 1];
      ReadBack(cfg, accepted[..|accepted| - 1], b, obj) +
      if last.bucket == b then ReadAll(cfg, Fresh(last.data), obj).0 else []
  }

  /** Every delivery for the bucket reads to its end and has as many records as were declared. */
  predicate AllComplete(cfg: Config, accepted: seq<Delivery>, b: int, obj: Row)
    requires |obj| == |cfg.schema|
  {
    forall i | 0 <= i < |accepted| && accepted[i].bucket == b ::
      var last := ReadAll(cfg, Fresh(accepted[i].data), obj).1;
      last.End? && last.next.total == accepted[i].count
  }

  /** Rows that were serialized, none in vain, and that the reader can take. */
  predicate Sound(cfg: Config, pieces: seq<Piece>) {
    && Fit(cfg, pieces) && Intact(pieces) && |pieces| < 0x8000_0000_0000_0000
    && forall i | 0 <= i < |pieces| :: ReadableRow(cfg, pieces[i].row)
  }

  lemma IntactParts(a: seq<Piece>, b: seq<Piece>)
    requires Intact(a + b)
    ensures Intact(a) && Intact(b)
  {
    assert forall i | 0 <= i < |a| :: a[i] == (a + b)[i];
    assert forall i | 0 <= i < |b| :: b[i] == (a + b)[|a| + i];
  }

  lemma SoundParts(cfg: Config, a: seq<Piece>, b: seq<Piece>)
    requires Sound(cfg, a + b)
    ensures Sound(cfg, a) && Sound(cfg, b)
  {
    hide FitsRow, Writable, ReadableRow;
    assert forall i | 0 <= i < |a| :: a[i] == (a + b)[i];
    assert forall i | 0 <= i < |b| :: b[i] == (a + b)[|a| + i];
  }

  lemma SoundRows(cfg: Config, pieces: seq<Piece>)
    requires Sound(cfg, pieces)
    ensures AllWritable(cfg, Rows(pieces))
  {
    IntactBytes(cfg, pieces);
  }

  lemma {:induction false} NormalRowsAppend(cfg: Config, a: seq<Row>, b: seq<Row>)
    requires AllWritable(cfg, a) && AllWritable(cfg, b)
    ensures AllWritable(cfg, a + b) && NormalRows(cfg, a + b) == NormalRows(cfg, a) + NormalRows(cfg, b)
    decreases |a|
  {
    hide Writable, NormalRow;
    if a == [] {
      assert a + b == b;
    } else {
      assert (a + b)[1..] == a[1..] + b;
      NormalRowsAppend(cfg, a[1..], b);
    }
  }

  /** The bytes that the server has accepted for a bucket read back, delivery by delivery, as the
      rows delivered to it, each delivery complete. */
  lemma {:induction false} ServerReadsBack(cfg: Config, accepted: seq<Delivery>, log: seq<Content>, b: int, obj: Row)
    requires cfg.Valid() && AllFaithful(cfg, accepted, log) && |obj| == |cfg.schema| && Sound(cfg, Delivered(log, b))
    ensures AllWritable(cfg, Rows(Delivered(log, b)))
    ensures ReadBack(cfg, accepted, b, obj) == NormalRows(cfg, Rows(Delivered(log, b)))
    ensures AllComplete(cfg, accepted, b, obj)
    decreases |log|
  {
    hide ReadAll, NormalRows, PackBytes, Sound, Rows, Fit, AllWritable;
    SoundRows(cfg, Delivered(log, b));
    if log != [] {
      var n := |log| - 1;
      var (init, last, more) := (log[..n], log[n], if log[n].bucket == b then log[n].pieces else []);
      SoundParts(cfg, Delivered(init, b), more);
      ServerReadsBack(cfg, accepted[..n], init, b, obj);
      assert AllComplete(cfg, accepted[..n], b, obj);
      SoundRows(cfg, more);
      RowsAppend(Delivered(init, b), more);
      NormalRowsAppend(cfg, Rows(Delivered(init, b)), Rows(more));
      if last.bucket == b {
        DeliveryReadsBack(cfg, accepted[n], last, obj);
        CompleteStep(cfg, accepted, b, obj);
      } else {
        NothingComesOfNothing(cfg);
        CompleteStep(cfg, accepted, b, obj);
      }
    } else {
      NothingComesOfNothing(cfg);
    }
  }

  lemma NothingComesOfNothing(cfg: Config)
    ensures AllWritable(cfg, Rows([])) && NormalRows(cfg, Rows([])) == []
  {
  }

  lemma CompleteStep(cfg: Config, accepted: seq<Delivery>, b: int, obj: Row)
    requires |obj| == |cfg.schema| && accepted != []
    requires var n := |accepted| - 1;
      && AllComplete(cfg, accepted[..n], b, obj)
      && (accepted[n].bucket == b ==>
          var last := ReadAll(cfg, Fresh(accepted[n].data), obj).1; last.End? && last.next.total == accepted[n].count)
    ensures AllComplete(cfg, accepted, b, obj)
  {
    hide ReadAll;
    var n := |accepted| - 1;
    assert forall i | 0 <= i < n :: accepted[i] == accepted[..n][i];
  }

  /** A delivery of whole records reads back as these records, in order, and as a complete stream. */
  lemma DeliveryReadsBack(cfg: Config, d: Delivery, c: Content, obj: Row)
    requires cfg.Valid() && Faithful(cfg, d, c) && Sound(cfg, c.pieces) && |obj| == |cfg.schema|
    ensures AllWritable(cfg, Rows(c.pieces))
    ensures var (got, last) := ReadAll(cfg, Fresh(d.data), obj);
      got == NormalRows(cfg, Rows(c.pieces)) && last.End? && last.next.total == d.count
  {
    hide ReadAll, NormalRows, PackBytes, Rows, AllWritable, ReadableRow;
    IntactReadsBack(cfg, c.pieces, obj);
  }

  // ---------- what is due ----------

  predicate Due(p: PackView, limit: int, flushAll: bool) {
    HasRecords(p) && (p.size > limit || flushAll)
  }

  /** The packs when those among the first `k` that were due have been sent. */
  function Flushed(packs: seq<PackView>, k: nat, limit: int, flushAll: bool): (after: seq<PackView>)
    requires k <= |packs|
    ensures |after| == |packs|
  {
    seq(|packs|, b requires 0 <= b < |packs| => if b < k && Due(packs[b], limit, flushAll) then EMPTY_PACK else packs[b])
  }

  /** When all packs are flushed, exactly those without records stay as they are. */
  lemma AllFlushed(packs: seq<PackView>, limit: int)
    ensures var sent := Flushed(packs, |packs|, limit, true);
      forall b | 0 <= b < |packs| :: !HasRecords(sent[b]) && sent[b] == if HasRecords(packs[b]) then EMPTY_PACK else packs[b]
  {
  }

  /** What is sent of the first `k` packs, one content for each that is due. */
  function DueContents(packs: seq<PackView>, k: nat, limit: int, flushAll: bool): seq<Content>
    requires k <= |packs|
  {
    if k == 0 then []
    else DueContents(packs, k - 1, limit, flushAll) +
         if Due(packs[k - 1], limit, flushAll) then [Content(k - 1, packs[k - 1].pieces)] else []
  }

  predicate StuckAt(before: seq<PackView>, after: seq<PackView>, b: nat) {
    |before| == |after| && b < |after| && after == before[b := Stuck(before[b], after[b].size)]
  }

  /** A pack that is stuck already stays so when sending it fails once more. */
  lemma StuckStays(before: seq<PackView>, mid: seq<PackView>, b: nat)
    requires StuckAt(before, mid, b) && HasRecords(before[b])
    ensures HasRecords(mid[b]) && mid[b].pieces == before[b].pieces && mid[b := EMPTY_PACK] == before[b := EMPTY_PACK]
    ensures forall now :: StuckAt(mid, now, b) ==> StuckAt(before, now, b)
  {
    hide Rows;
  }

  /** The packs when sending pack `k` failed for good. */
  predicate FlushStopped(before: seq<PackView>, after: seq<PackView>, k: nat, limit: int, flushAll: bool)
    requires k < |before|
  {
    Due(before[k], limit, flushAll) && StuckAt(Flushed(before, k, limit, flushAll), after, k)
  }

  /** A flush sent the due packs up to one that could not be sent. */
  ghost predicate FlushGivenUp(before: seq<PackView>, after: seq<PackView>, flushAll: bool, limit: int) {
    exists k: nat | k < |before| :: FlushStopped(before, after, k, limit, flushAll)
  }

  /** Going on with a flush that has done the first `b` packs. */
  lemma OnePackMore(packs: seq<PackView>, b: nat, limit: int, flushAll: bool)
    requires b < |packs|
    ensures var (before, after) := (Flushed(packs, b, limit, flushAll), Flushed(packs, b + 1, limit, flushAll));
      && before[b] == packs[b] && after == before[b := if Due(packs[b], limit, flushAll) then EMPTY_PACK else packs[b]]
      && Counted(after[..b + 1]) == Counted(before[..b]) + if HasRecords(after[b]) then after[b].size else 0
  {
    hide HasRecords, Counted;
    var (before, after) := (Flushed(packs, b, limit, flushAll), Flushed(packs, b + 1, limit, flushAll));
    assert after[..b + 1] == before[..b] + [after[b]];
    CountedAppend(before[..b], after[b]);
  }

  lemma FlushStopsHere(packs: seq<PackView>, now: seq<PackView>, b: nat, limit: int, flushAll: bool)
    requires b < |packs| && Due(packs[b], limit, flushAll) && StuckAt(Flushed(packs, b, limit, flushAll), now, b)
    ensures FlushGivenUp(packs, now, flushAll, limit)
  {
    assert FlushStopped(packs, now, b, limit, flushAll);
  }

  lemma NothingFlushed(packs: seq<PackView>, limit: int, flushAll: bool)
    ensures Flushed(packs, 0, limit, flushAll) == packs && Counted(packs[..0]) == 0 && Counted(packs[..|packs|]) == Counted(packs)
    ensures DueContents(packs, 0, limit, flushAll) == []
  {
    assert packs[..|packs|] == packs;
  }

  /** The traffic of a flush has gone well so far: the due ones among the first `b` packs were sent. */
  predicate SentUpTo(before: Traffic, now: Traffic, packs: seq<PackView>, b: nat, limit: int, flushAll: bool)
    requires b <= |packs|
  {
    && now.log == before.log + DueContents(packs, b, limit, flushAll)
    && before.sendings <= now.sendings && !LastFailed(before.sendings, now.sendings)
  }

  lemma NothingSent(before: Traffic, packs: seq<PackView>, limit: int, flushAll: bool)
    ensures SentUpTo(before, before, packs, 0, limit, flushAll)
  {
  }

  lemma AllSent(before: Traffic, now: Traffic, packs: seq<PackView>, limit: int, flushAll: bool)
    requires SentUpTo(before, now, packs, |packs|, limit, flushAll)
    ensures now.log == before.log + DueContents(packs, |packs|, limit, flushAll)
    ensures before.sendings <= now.sendings && !LastFailed(before.sendings, now.sendings)
  {
  }

  lemma SendingGoesOn(cfg: Config, before: Traffic, mid: Traffic, now: Traffic, packs: seq<PackView>, b: nat,
      limit: int, flushAll: bool, listening: bool, ok: bool)
    requires b < |packs| && SentUpTo(before, mid, packs, b, limit, flushAll)
    requires if Due(packs[b], limit, flushAll) then Sent(cfg, mid, now, Content(b, packs[b].pieces), listening, ok)
             else ok && now == mid
    ensures ok ==> SentUpTo(before, now, packs, b + 1, limit, flushAll)
    ensures !ok ==> before.sendings <= now.sendings && LastFailed(before.sendings, now.sendings)
  {
    hide Due, Sent;
    if Due(packs[b], limit, flushAll) {
      SentMeans(cfg, mid, now, Content(b, packs[b].pieces), listening, ok);
    }
  }

  // ---------- space ----------

  /** The space that all packs take up. */
  function Space(packs: seq<PackView>): nat {
    if packs == [] then 0 else Space(packs[..|packs| - 1]) + packs[|packs| - 1].size
  }

  /** The space taken up by those packs that hold records, which is what a flush adds up. */
  function Counted(packs: seq<PackView>): nat {
    if packs == [] then 0
    else Counted(packs[..|packs| - 1]) + if HasRecords(packs[|packs| - 1]) then packs[|packs| - 1].size else 0
  }

  lemma NothingCounted()
    ensures Counted([]) == 0
  {
  }

  lemma CountedAppend(packs: seq<PackView>, p: PackView)
    ensures Counted(packs + [p]) == Counted(packs) + if HasRecords(p) then p.size else 0
  {
    assert (packs + [p])[..|packs|] == packs;
  }

  /** Packs without records take up no space. */
  predicate Clean(packs: seq<PackView>) {
    forall b | 0 <= b < |packs| :: HasRecords(packs[b]) || packs[b].size == 0
  }

  /** What a flush adds up is all the space if and only if no pack is left with bytes and without
      records. */
  lemma {:induction false} CountedIsSpaceIfClean(packs: seq<PackView>)
    ensures Counted(packs) <= Space(packs)
    ensures Counted(packs) == Space(packs) <==> Clean(packs)
    decreases |packs|
  {
    if packs != [] {
      CountedIsSpaceIfClean(packs[..|packs| - 1]);
    }
  }

  /** Changing one pack changes the space by as much. */
  lemma {:induction false} SpaceChanges(packs: seq<PackView>, b: nat, p: PackView)
    requires b < |packs|
    ensures Space(packs[b := p]) == Space(packs) - packs[b].size + p.size
    decreases |packs|
  {
    var last := |packs| - 1;
    if b < last {
      assert packs[b := p][..last] == packs[..last][b := p];
      SpaceChanges(packs[..last], b, p);
    } else {
      assert packs[b := p][..last] == packs[..last];
    }
  }

  lemma {:induction false} NoSpace(packs: seq<PackView>)
    requires forall b | 0 <= b < |packs| :: packs[b].size == 0
    ensures Space(packs) == 0
    decreases |packs|
  {
    if packs != [] {
      NoSpace(packs[..|packs| - 1]);
    }
  }

  /** Neither a single pack nor all of them together exceed the limits. */
  predicate Bounded(packs: seq<PackView>, slotLimit: int, maxLimit: int) {
    Space(packs) <= maxLimit && forall b | 0 <= b < |packs| :: packs[b].size <= slotLimit
  }

  /** The limits are kept and the total is right. */
  predicate Orderly(packs: seq<PackView>, total: int, slotLimit: int, maxLimit: int) {
    Clean(packs) && Bounded(packs, slotLimit, maxLimit) && total == Space(packs)
  }

  lemma EmptyIsOrderly(packs: seq<PackView>, slotLimit: nat, maxLimit: nat)
    requires forall b | 0 <= b < |packs| :: packs[b] == EMPTY_PACK
    ensures Orderly(packs, 0, slotLimit, maxLimit)
  {
    NoSpace(packs);
  }

  /** The packs and the total after pack `b` has grown and the total with it. */
  function AfterFlushIfDue(packs: seq<PackView>, b: nat, total: int, slotLimit: int, maxLimit: int): (seq<PackView>,
      int)
    requires b < |packs|
  {
    if packs[b].size > slotLimit then
      var sent := Flushed(packs, |packs|, slotLimit, false);
      (sent, Counted(sent))
    else if total > maxLimit then (Flushed(packs, |packs|, slotLimit, true), 0)
    else (packs, total)
  }

  lemma OnlyOneIsDue(packs: seq<PackView>, b: nat, p: PackView, limit: int)
    requires b < |packs| && HasRecords(p) && p.size > limit
    requires forall c | 0 <= c < |packs| :: packs[c].size <= limit
    ensures Flushed(packs[b := p], |packs|, limit, false) == packs[b := EMPTY_PACK]
  {
  }

  lemma NoneIsLeft(packs: seq<PackView>, limit: int)
    requires Clean(packs)
    ensures var sent := Flushed(packs, |packs|, limit, true); Clean(sent) && Space(sent) == 0
    ensures forall c | 0 <= c < |packs| :: Flushed(packs, |packs|, limit, true)[c].size == 0
  {
    NoSpace(Flushed(packs, |packs|, limit, true));
  }

  lemma CleanAfterFlush(packs: seq<PackView>, limit: int, flushAll: bool)
    ensures Clean(Flushed(packs, |packs|, limit, flushAll)) <==> Clean(packs)
  {
    var sent := Flushed(packs, |packs|, limit, flushAll);
    if Clean(sent) {
      forall b | 0 <= b < |packs|
        ensures HasRecords(packs[b]) || packs[b].size == 0
      {
        assert HasRecords(sent[b]) || sent[b].size == 0;
      }
    }
  }

  lemma {:induction false} NoRecordsNothingCounted(packs: seq<PackView>)
    requires forall b | 0 <= b < |packs| :: !HasRecords(packs[b])
    ensures Counted(packs) == 0
    decreases |packs|
  {
    if packs != [] {
      NoRecordsNothingCounted(packs[..|packs| - 1]);
    }
  }

  /** After a flush that succeeds the total is right, whatever it was before, if and only if no pack
      was left with bytes and without records. */
  lemma FlushRightsTheTotal(packs: seq<PackView>, limit: int, flushAll: bool)
    ensures var sent := Flushed(packs, |packs|, limit, flushAll);
      (if flushAll then 0 else Counted(sent)) == Space(sent) <==> Clean(packs)
  {
    var sent := Flushed(packs, |packs|, limit, flushAll);
    CleanAfterFlush(packs, limit, flushAll);
    CountedIsSpaceIfClean(sent);
    if flushAll {
      NoRecordsNothingCounted(sent);
    }
  }

  /** The space that the due ones among the first `k` packs take up. */
  function SentSpace(packs: seq<PackView>, k: nat, limit: int, flushAll: bool): nat
    requires k <= |packs|
  {
    if k == 0 then 0
    else SentSpace(packs, k - 1, limit, flushAll) + if Due(packs[k - 1], limit, flushAll) then packs[k - 1].size else 0
  }

  lemma {:induction false} SpaceAfterSending(packs: seq<PackView>, k: nat, limit: int, flushAll: bool)
    requires k <= |packs|
    ensures Space(Flushed(packs, k, limit, flushAll)) == Space(packs) - SentSpace(packs, k, limit, flushAll)
    decreases k
  {
    hide Space, Flushed, Due, HasRecords;
    if k == 0 {
      NothingFlushed(packs, limit, flushAll);
    } else {
      SpaceAfterSending(packs, k - 1, limit, flushAll);
      OnePackMore(packs, k - 1, limit, flushAll);
      SpaceChanges(Flushed(packs, k - 1, limit, flushAll), k - 1, EMPTY_PACK);
      SpaceChanges(Flushed(packs, k - 1, limit, flushAll), k - 1, packs[k - 1]);
    }
  }

  /** A flush that fails leaves the total as it is, so the total then exceeds the space of the packs by
      what was sent before the failure, less what the pack that could not be sent has grown by. A total
      that was right before stays right if and only if these two are equal. */
  lemma TotalAfterFailedFlush(before: seq<PackView>, after: seq<PackView>, k: nat, limit: int, flushAll: bool, total: int)
    requires k < |before| && FlushStopped(before, after, k, limit, flushAll)
    ensures var (sent, growth) := (SentSpace(before, k, limit, flushAll), after[k].size - before[k].size);
      && total - Space(after) == total - Space(before) + sent - growth
      && (total == Space(before) ==> (total == Space(after) <==> sent == growth))
  {
    hide Space, Due, HasRecords, SentSpace;
    var sent := Flushed(before, k, limit, flushAll);
    SpaceAfterSending(before, k, limit, flushAll);
    SpaceChanges(sent, k, Stuck(sent[k], after[k].size));
  }

  /** The bytes of a row that could not be serialized are in the pack and not in the total, and as
      long as that pack gets no record no flush sends them. */
  lemma LeftoversAreMissed(packs: seq<PackView>, b: nat, row: Row, size: nat, limit: int, flushAll: bool)
    requires b < |packs|
    ensures var after := packs[b := AfterAppend(packs[b], row, SerializeFailed, size)];
      && Space(after) - Space(packs) == size - packs[b].size
      && (!HasRecords(packs[b]) ==> Flushed(after, |after|, limit, flushAll)[b] == after[b])
  {
    var p := AfterAppend(packs[b], row, SerializeFailed, size);
    SpaceChanges(packs, b, p);
    RowsAppend(packs[b].pieces, [Piece(row, false)]);
    assert Rows([Piece(row, false)]) == [];
  }

  // ---------- writes ----------

  /** How a write ends; all ends but the first are exceptions. After the last one the record is in
      its pack all the same, so writing it again would store it twice. */
  datatype WriteOutcome = Written | Unusable | NotSerialized | PackNotFlushed | FlushFailed

  /** The packs, the total that is kept of their sizes, and what was tried so far. */
  datatype Books = Books(packs: seq<PackView>, total: int, attempted: seq<seq<Piece>>)

  /** The books after an attempt to append, with no change to the total. */
  function AfterAttempt(before: Books, b: nat, row: Row, status: AppendStatus, size: nat): Books
    requires b < |before.packs| == |before.attempted|
  {
    Books(before.packs[b := AfterAppend(before.packs[b], row, status, size)], before.total, Tried(before.attempted, b, row, status))
  }

  /** What a write does to the books of bucket `b`: nothing, or it leaves the traces of a failed
      serialization, which the total does not include, or it adds the row and flushes. */
  ghost predicate WriteDone(before: Books, after: Books, b: nat, row: Row, outcome: WriteOutcome, size: nat,
      slotLimit: int, maxLimit: int) {
    && b < |before.packs| == |before.attempted|
    && match outcome
       case Unusable => after == before
       case PackNotFlushed => after == before
       case NotSerialized => after == AfterAttempt(before, b, row, SerializeFailed, size)
       case Written =>
         var added := AfterAttempt(before, b, row, Appended, size);
         var total := before.total + size - before.packs[b].size;
         && after.attempted == added.attempted
         && (after.packs, after.total) == AfterFlushIfDue(added.packs, b, total, slotLimit, maxLimit)
       case FlushFailed =>
         var added := AfterAttempt(before, b, row, Appended, size);
         && after.attempted == added.attempted && after.total == before.total + size - before.packs[b].size
         && FlushGivenUp(added.packs, after.packs, size <= slotLimit, slotLimit)
  }

  function OutcomeOf(completed: bool, writable: bool, flushFailed: bool): WriteOutcome {
    if completed then PackNotFlushed else if !writable then NotSerialized else if flushFailed then FlushFailed else Written
  }

  lemma Nothing(before: Books, b: nat, row: Row, slotLimit: int, maxLimit: int)
    requires b < |before.packs| == |before.attempted|
    ensures WriteDone(before, before, b, row, Unusable, 0, slotLimit, maxLimit)
  {
  }

  lemma NotAppended(before: Books, b: nat, row: Row, status: AppendStatus, size: nat, slotLimit: int, maxLimit: int)
    requires b < |before.packs| == |before.attempted| && status != Appended
    ensures var outcome := if status == NotFlushed then PackNotFlushed else NotSerialized;
      WriteDone(before, AfterAttempt(before, b, row, status, size), b, row, outcome, size, slotLimit, maxLimit)
  {
    assert before.packs[b := before.packs[b]] == before.packs;
  }

  lemma AppendedAndFlushed(before: Books, after: Books, b: nat, row: Row, ok: bool, size: nat, slotLimit: int,
      maxLimit: int)
    requires b < |before.packs| == |before.attempted| && after.attempted == Tried(before.attempted, b, row, Appended)
    requires var packs := AfterAttempt(before, b, row, Appended, size).packs;
      var total := before.total + size - before.packs[b].size;
      if ok then (after.packs, after.total) == AfterFlushIfDue(packs, b, total, slotLimit, maxLimit)
      else after.total == total && FlushGivenUp(packs, after.packs, packs[b].size <= slotLimit, slotLimit)
    ensures WriteDone(before, after, b, row, if ok then Written else FlushFailed, size, slotLimit, maxLimit)
  {
    hide Tried, AfterFlushIfDue, FlushGivenUp;
  }

  lemma AppendedHasRecords(p: PackView, row: Row, size: nat)
    ensures HasRecords(AfterAppend(p, row, Appended, size))
  {
    assert (p.pieces + [Piece(row, true)])[..|p.pieces|] == p.pieces;
  }

  /** However large a record is, after a write that succeeds the packs are within the limits. */
  lemma WriteStaysOrderly(before: Books, after: Books, b: nat, row: Row, size: nat, slotLimit: nat, maxLimit: nat)
    requires WriteDone(before, after, b, row, Written, size, slotLimit, maxLimit)
    requires Orderly(before.packs, before.total, slotLimit, maxLimit)
    ensures Orderly(after.packs, after.total, slotLimit, maxLimit)
  {
    var (packs, p) := (before.packs, AfterAppend(before.packs[b], row, Appended, size));
    AppendedHasRecords(packs[b], row, size);
    SpaceChanges(packs, b, p);
    SpaceChanges(packs, b, EMPTY_PACK);
    hide Space, Counted, Flushed, HasRecords;
    if p.size > slotLimit {
      OnlyOneIsDue(packs, b, p, slotLimit);
      CountedIsSpaceIfClean(packs[b := EMPTY_PACK]);
    } else if Space(packs[b := p]) > maxLimit {
      NoneIsLeft(packs[b := p], slotLimit);
    }
  }

  predicate AllIntact(attempted: seq<seq<Piece>>) {
    forall b | 0 <= b < |attempted| :: Intact(attempted[b])
  }

  /** Only a write that cannot serialize its row leaves traces of it. */
  lemma OnlyFailedSerializationBreaks(before: Books, after: Books, b: nat, row: Row, outcome: WriteOutcome,
      size: nat, slotLimit: int, maxLimit: int)
    requires WriteDone(before, after, b, row, outcome, size, slotLimit, maxLimit)
    ensures AllIntact(after.attempted) <==> AllIntact(before.attempted) && outcome != NotSerialized
  {
    var was := before.attempted;
    if outcome == Written || outcome == NotSerialized || outcome == FlushFailed {
      var p := Piece(row, outcome != NotSerialized);
      assert after.attempted == was[b := was[b] + [p]];
      if AllIntact(after.attempted) {
        assert Intact(after.attempted[b]);
        IntactParts(was[b], [p]);
        assert [p][0].whole;
        assert forall c | 0 <= c < |was| && c != b :: after.attempted[c] == was[c];
      }
    }
  }
}
