/** When an upsert stream sends what it has collected, pack by pack. */
module Flushing {
  import opened ColumnTypes
  import opened RecordStream
  import opened PackContents
  import opened RecordPacks
  import opened UpsertLedger

  /** A row in the pack was serialized as a whole. */
  predicate HoldsRecord(p: PackView) {
    exists i | 0 <= i < |p.pieces| :: p.pieces[i].whole
  }

  lemma {:induction false} RowsExist(pieces: seq<Piece>)
    ensures Rows(pieces) != [] <==> exists i | 0 <= i < |pieces| :: pieces[i].whole
    decreases |pieces|
  {
    if pieces != [] {
      var n := |pieces| - 1;
      RowsExist(pieces[..n]);
      assert forall i | 0 <= i < n :: pieces[..n][i] == pieces[i];
      if exists i | 0 <= i < |pieces| :: pieces[i].whole {
        var i :| 0 <= i < |pieces| && pieces[i].whole;
        assert i == n || pieces[..n][i].whole;
      }
    }
  }

  lemma DueMeans(p: PackView, limit: int, flushAll: bool)
    ensures Due(p, limit, flushAll) <==> HoldsRecord(p) && (flushAll || p.size > limit)
  {
    RowsExist(p.pieces);
  }

  /** The contents of a pack that holds a record and is larger than the limit, or has to go anyway. */
  predicate ToSend(packs: seq<PackView>, c: Content, limit: int, flushAll: bool) {
    && 0 <= c.bucket < |packs| && c.pieces == packs[c.bucket].pieces
    && HoldsRecord(packs[c.bucket]) && (flushAll || packs[c.bucket].size > limit)
  }

  /** In the order of the buckets, and for buckets below `k` only. */
  predicate Ascending(sent: seq<Content>, k: nat) {
    && (forall i, j | 0 <= i < j < |sent| :: sent[i].bucket < sent[j].bucket)
    && (forall i | 0 <= i < |sent| :: 0 <= sent[i].bucket < k)
  }

  lemma OneMoreSent(sent: seq<Content>, k: nat, c: Content)
    requires Ascending(sent, k) && c.bucket == k
    ensures Ascending(sent + [c], k + 1)
  {
  }

  lemma NoMoreSent(sent: seq<Content>, k: nat)
    requires Ascending(sent, k)
    ensures Ascending(sent, k + 1)
  {
  }

  lemma DueContentsStep(packs: seq<PackView>, k: nat, limit: int, flushAll: bool)
    requires 0 < k <= |packs|
    ensures var before := DueContents(packs, k - 1, limit, flushAll);
      DueContents(packs, k, limit, flushAll) ==
      if Due(packs[k - 1], limit, flushAll) then before + [Content(k - 1, packs[k - 1].pieces)] else before
  {
    hide Due;
    assert DueContents(packs, k - 1, limit, flushAll) + [] == DueContents(packs, k - 1, limit, flushAll);
  }

  lemma NothingSentYet(packs: seq<PackView>, limit: int, flushAll: bool, c: Content)
    ensures DueContents(packs, 0, limit, flushAll) == [] && Ascending([], 0)
    ensures ToSend(packs, c, limit, flushAll) ==> c.bucket >= 0
  {
    hide HoldsRecord;
  }

  lemma InLonger(before: seq<Content>, last: Content, c: Content)
    ensures c in before + [last] <==> c in before || (c.bucket == last.bucket && c.pieces == last.pieces)
  {
  }

  lemma LastToSend(packs: seq<PackView>, k: nat, limit: int, flushAll: bool, c: Content)
    requires 0 < k <= |packs| && c.bucket == k - 1
    ensures ToSend(packs, c, limit, flushAll) <==> Due(packs[k - 1], limit, flushAll) && c.pieces == packs[k - 1].pieces
  {
    DueMeans(packs[k - 1], limit, flushAll);
    hide Due, HoldsRecord;
  }

  /** A flush sends, in the order of the buckets and once each, exactly the packs that hold a record
      and are larger than the limit, or all that hold a record. */
  lemma {:induction false} SentInOrder(packs: seq<PackView>, k: nat, limit: int, flushAll: bool, c: Content)
    requires k <= |packs|
    ensures Ascending(DueContents(packs, k, limit, flushAll), k)
    ensures c in DueContents(packs, k, limit, flushAll) <==> c.bucket < k && ToSend(packs, c, limit, flushAll)
    decreases k
  {
    hide *;
    if k == 0 {
      NothingSentYet(packs, limit, flushAll, c);
    } else {
      SentInOrder(packs, k - 1, limit, flushAll, c);
      DueContentsStep(packs, k, limit, flushAll);
      var (before, last) := (DueContents(packs, k - 1, limit, flushAll), Content(k - 1, packs[k - 1].pieces));
      OneMoreSent(before, k - 1, last);
      NoMoreSent(before, k - 1);
      InLonger(before, last, c);
      if c.bucket == k - 1 {
        LastToSend(packs, k, limit, flushAll, c);
      }
    }
  }

  /** What a flush leaves in the packs. */
  lemma LeftAfterFlush(packs: seq<PackView>, limit: int, flushAll: bool, b: nat)
    requires b < |packs|
    ensures Flushed(packs, |packs|, limit, flushAll)[b] ==
            if HoldsRecord(packs[b]) && (flushAll || packs[b].size > limit) then PackView([], 0, false) else packs[b]
  {
    RowsExist(packs[b].pieces);
  }

  /** What the packs hold after a write that went well, when the pack of the record takes up `size`
      bytes. Up to the slot limit and up to the total limit nothing is sent. Beyond the slot limit all
      packs that are too large are sent, this one among them, and beyond the total limit all packs are. */
  lemma WrittenMeans(before: Books, after: Books, b: nat, row: Row, size: nat, slotLimit: int, maxLimit: int)
    requires WriteDone(before, after, b, row, Written, size, slotLimit, maxLimit)
    ensures |after.packs| == |before.packs|
    ensures var total := before.total + size - before.packs[b].size;
      forall c | 0 <= c < |after.packs| ::
        var (was, now) := (before.packs[c], after.packs[c]);
        if size <= slotLimit && total <= maxLimit then
          now == (if c == b then PackView(was.pieces + [Piece(row, true)], size, was.completed) else was) && after.total == total
        else if c == b then now == PackView([], 0, false)
        else now == if HoldsRecord(was) && (size <= slotLimit || was.size > slotLimit) then PackView([], 0, false) else was
  {
    var added := AfterAttempt(before, b, row, Appended, size).packs;
    assert added[b].pieces[|before.packs[b].pieces|].whole;
    forall c | 0 <= c < |added|
      ensures (HasRecords(added[c]) <==> HoldsRecord(added[c])) && (c != b ==> added[c] == before.packs[c])
    {
      RowsExist(added[c].pieces);
    }
    hide Rows, HasRecords, HoldsRecord, Counted;
    assert HoldsRecord(added[b]);
  }
}
