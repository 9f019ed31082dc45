/** What passes between an upsert stream, the server and the listener while one pack is being sent. */
module Retries {
  import opened RecordStream
  import opened RecordPacks

  /** What the listener was asked, after how many retries, and whether it wants another one. */
  datatype Answer = Answer(retry: nat, again: bool)

  /** Everything tried at the server, what it has taken, and all answers of the listener. */
  datatype Traffic = Traffic(sendings: seq<Sending>, log: seq<Content>, answers: seq<Answer>)

  /** After `before` the listener was asked once for each of these failures, with the number of retries
      so far. It wanted every retry that was made, and no other one. */
  predicate Asked(before: seq<Answer>, now: seq<Answer>, failures: nat, ok: bool) {
    && before <= now && |now| == |before| + failures
    && forall i | |before| <= i < |now| :: now[i] == Answer(i - |before|, ok || i < |now| - 1)
  }

  /** One attempt to send this content, and what the server made of it. */
  predicate TriedOnce(cfg: Config, before: Traffic, now: Traffic, c: Content, ok: bool) {
    && Attempts(cfg, before.sendings, now.sendings, c, ok) && |now.sendings| == |before.sendings| + 1
    && now.log == before.log + (if ok then [c] else [])
    && now.answers == before.answers
  }

  /** As `TriedOnce`, after a number of retries that the listener wanted. */
  predicate Retried(cfg: Config, before: Traffic, now: Traffic, c: Content, listening: bool, retries: nat, ok: bool) {
    && Attempts(cfg, before.sendings, now.sendings, c, ok) && |now.sendings| == |before.sendings| + retries + 1
    && now.log == before.log + (if ok then [c] else [])
    && Asked(before.answers, now.answers, retries, true) && (listening || retries == 0)
  }

  /** The content was sent over and over until the server took it, or an attempt failed and there was
      no listener or it did not want another retry. */
  predicate Sent(cfg: Config, before: Traffic, now: Traffic, c: Content, listening: bool, ok: bool) {
    && Attempts(cfg, before.sendings, now.sendings, c, ok)
    && now.log == before.log + (if ok then [c] else [])
    && var failures := |now.sendings| - |before.sendings| - if ok then 1 else 0;
    if listening then Asked(before.answers, now.answers, failures, ok) else failures == (if ok then 0 else 1) && now.answers == before.answers
  }

  lemma FirstTry(cfg: Config, before: Traffic, now: Traffic, c: Content, listening: bool, ok: bool)
    requires TriedOnce(cfg, before, now, c, ok)
    ensures Retried(cfg, before, now, c, listening, 0, ok)
  {
  }

  lemma NextTry(cfg: Config, before: Traffic, mid: Traffic, now: Traffic, c: Content, retries: nat, ok: bool)
    requires Retried(cfg, before, mid, c, true, retries, false)
    requires TriedOnce(cfg, mid.(answers := mid.answers + [Answer(retries, true)]), now, c, ok)
    ensures Retried(cfg, before, now, c, true, retries + 1, ok)
  {
    hide Faithful;
    AttemptsGoOn(cfg, before.sendings, mid.sendings, now.sendings, c, ok);
  }

  /** The last try succeeded, or there was no listener to ask. */
  lemma NoMoreTries(cfg: Config, before: Traffic, now: Traffic, c: Content, listening: bool, retries: nat, ok: bool)
    requires Retried(cfg, before, now, c, listening, retries, ok) && (ok || !listening)
    ensures Sent(cfg, before, now, c, listening, ok)
  {
  }

  lemma NotAgain(cfg: Config, before: Traffic, now: Traffic, c: Content, retries: nat)
    requires Retried(cfg, before, now, c, true, retries, false)
    ensures Sent(cfg, before, now.(answers := now.answers + [Answer(retries, false)]), c, true, false)
  {
  }

  /** Sending ends with an attempt whose outcome is that of the whole, and every earlier one failed.
      Without a listener there is one attempt only. A listener is asked once after each failure, with
      the number of retries until then, and wants every retry that is made and no other one. */
  lemma SentMeans(cfg: Config, before: Traffic, now: Traffic, c: Content, listening: bool, ok: bool)
    requires Sent(cfg, before, now, c, listening, ok)
    ensures before.sendings < now.sendings && (!ok <==> LastFailed(before.sendings, now.sendings))
    ensures before.answers <= now.answers && now.log == before.log + if ok then [c] else []
    ensures var (tries, asked) := (now.sendings[|before.sendings|..], now.answers[|before.answers|..]);
      && (forall i | 0 <= i < |tries| - 1 :: !tries[i].taken)
      && (!listening ==> |tries| == 1 && asked == [])
      && (listening ==> && |asked| == |tries| - (if ok then 1 else 0)
                        && forall i | 0 <= i < |asked| :: asked[i].retry == i && (asked[i].again <==> i + 1 < |tries|))
  {
    hide Faithful;
    var (tries, asked) := (now.sendings[|before.sendings|..], now.answers[|before.answers|..]);
    assert forall i | 0 <= i < |tries| :: tries[i] == now.sendings[|before.sendings| + i];
    assert forall i | 0 <= i < |asked| :: asked[i] == now.answers[|before.answers| + i];
  }
}
