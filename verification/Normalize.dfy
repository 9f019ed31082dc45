/** What the client does to a value before it is sent and after it is received: time stamps are put
    in normal form, CHAR and VARCHAR text is cut or padded to its declared number of characters. */
module Normalize {
  import opened Bytes
  import opened ColumnTypes
  import opened Options

  // ---------- time stamps ----------

  function TotalNanos(t: TimeStamp): int {
    t.second * NANOS_PER_SECOND + t.nano
  }

  /** The one representation of a signed number of nanoseconds in which the seconds and the
      nanoseconds never have opposite signs and the latter stay below one second. */
  function NormalTime(total: int): TimeStamp {
    TimeStamp(TruncDiv(total, NANOS_PER_SECOND), TruncMod(total, NANOS_PER_SECOND))
  }

  predicate IsNormalTime(t: TimeStamp) {
    && -NANOS_PER_SECOND < t.nano < NANOS_PER_SECOND
    && !(t.second > 0 && t.nano < 0)
    && !(t.second < 0 && t.nano > 0)
  }

  /** The constructor, step by step. */
  method NewTimeStamp(sec: Int64, ns: Int32) returns (t: TimeStamp)
    ensures t == NormalTime(sec * NANOS_PER_SECOND + ns)
    ensures t.second * 1_000_000_000 + t.nano == sec * 1_000_000_000 + ns
    ensures -1_000_000_000 < t.nano < 1_000_000_000 && !(t.second > 0 && t.nano < 0) && !(t.second < 0 && t.nano > 0)
  {
    var second: int, nano: int := sec, ns;
    if nano != 0 {
      second := second + TruncDiv(nano, NANOS_PER_SECOND);
      nano := TruncMod(nano, NANOS_PER_SECOND);
      if second > 0 && nano < 0 {
        second := second - 1;
        nano := nano + NANOS_PER_SECOND;
      } else if second < 0 && nano > 0 {
        second := second + 1;
        nano := nano - NANOS_PER_SECOND;
      }
    }
    t := TimeStamp(second, nano);
    NormalTimeIsUnique(t, sec * NANOS_PER_SECOND + ns);
  }

  /** A time stamp is in normal form exactly when rebuilding it from its own fields changes
      nothing; the normal form keeps the instant and there is only one per instant. */
  lemma NormalTimeIsUnique(t: TimeStamp, total: int)
    ensures IsNormalTime(NormalTime(total)) && TotalNanos(NormalTime(total)) == total
    ensures IsNormalTime(t) && TotalNanos(t) == total <==> t == NormalTime(total)
  {
    var u := NormalTime(total);
    if IsNormalTime(t) && TotalNanos(t) == total {
      assert (t.second - u.second) * NANOS_PER_SECOND == u.nano - t.nano;
    }
  }

  // ---------- UTF-8 characters ----------

  predicate StartsChar(b: Byte) {
    b < 0x80 || 0xC0 <= b < 0xFE
  }

  predicate ContinuesChar(b: Byte) {
    0x80 <= b < 0xC0
  }

  /** The first position from `i` on where a character starts, or the end of the text; none if the
      search meets 0xFE or 0xFF first. */
  function CharEnd(s: seq<Byte>, i: nat): (r: Option<nat>)
    requires i <= |s|
    ensures r.Some? ==> i <= r.value <= |s| && (r.value < |s| ==> StartsChar(s[r.value]))
    decreases |s| - i
  {
    if i == |s| || StartsChar(s[i]) then Some(i)
    else if ContinuesChar(s[i]) then CharEnd(s, i + 1)
    else None
  }

  method FindNextCharUtf8(s: seq<Byte>, pos: nat) returns (r: Option<nat>)
    ensures r == if pos + 1 > |s| then None else CharEnd(s, pos + 1)
  {
    var currPos := pos + 1;
    if currPos > |s| {
      return None;
    }
    while currPos < |s|
      invariant pos + 1 <= currPos <= |s|
      invariant CharEnd(s, currPos) == CharEnd(s, pos + 1)
    {
      if StartsChar(s[currPos]) {
        break;
      }
      if !ContinuesChar(s[currPos]) {
        return None;
      }
      currPos := currPos + 1;
    }
    return Some(currPos);
  }

  // ---------- CHAR and VARCHAR ----------

  predicate LengthValid(t: Type)
    requires t.Char? || t.Varchar?
  {
    1 <= t.length <= if t.Char? then 255 else 65535
  }

  /** Step over at most `want` characters starting at `pos`: the position reached and the number of
      characters that were still wanted there. */
  function Skip(s: seq<Byte>, pos: nat, want: nat): (r: Option<(nat, nat)>)
    requires pos <= |s|
    ensures r.Some? ==> pos <= r.value.0 <= |s| && r.value.1 <= want
    ensures r.Some? && r.value.1 > 0 ==> r.value.0 == |s|
    decreases want
  {
    if pos == |s| || want == 0 then Some((pos, want))
    else
      match CharEnd(s, pos + 1)
      case None => None
      case Some(next) => Skip(s, next, want - 1)
  }

  function Spaces(n: nat): (r: seq<Byte>)
    ensures |r| == n && forall i :: 0 <= i < n ==> r[i] == 0x20
  {
    seq(n, _ => 0x20)
  }

  function Fitted(s: seq<Byte>, t: Type): (r: Option<seq<Byte>>) {
    if !(t.Char? || t.Varchar?) then Some(s)
    else if !LengthValid(t) then None
    else
      match Skip(s, 0, t.length)
      case None => None
      case Some((pos, missing)) =>
        if missing == 0 then Some(s[..pos])
        else if t.Char? then Some(s + Spaces(missing))
        else Some(s)
  }

  /** Trims or pads in place; none when the code throws. */
  method TrimOrPadding(s: seq<Byte>, t: Type) returns (r: Option<seq<Byte>>)
    ensures r == Fitted(s, t)
  {
    if !(t.Char? || t.Varchar?) {
      return Some(s);
    }
    if (t.Char? && (t.length < 1 || t.length > 255)) || (t.Varchar? && (t.length < 1 || t.length > 65535)) {
      return None;
    }
    var pos, len := 0, 0;
    while pos < |s| && len < t.length
      invariant 0 <= pos <= |s| && 0 <= len <= t.length
      invariant Skip(s, pos, t.length - len) == Skip(s, 0, t.length)
    {
      var next := FindNextCharUtf8(s, pos);
      if next.None? {
        return None;
      }
      pos, len := next.value, len + 1;
    }
    if t.Char? && len < t.length {
      return Some(s + Spaces(t.length - len));
    } else if len >= t.length {
      return Some(s[..pos]);
    }
    return Some(s);
  }

  lemma {:induction false} CharEndLocal(s: seq<Byte>, s': seq<Byte>, i: nat, j: nat)
    requires i <= j <= |s| && j <= |s'| && s'[..j] == s[..j]
    requires CharEnd(s, i) == Some(j)
    requires j == |s'| || StartsChar(s'[j])
    ensures CharEnd(s', i) == Some(j)
    decreases j - i
  {
    if i < j {
      assert s'[i] == s'[..j][i] == s[..j][i];
      CharEndLocal(s, s', i + 1, j);
    }
  }

  lemma SharedFront(s: seq<Byte>, s': seq<Byte>, p: nat, next: nat)
    requires next <= p <= |s| && p <= |s'| && s'[..p] == s[..p]
    ensures s'[..next] == s[..next] && (next < p ==> s'[next] == s[next])
  {
    assert s'[..next] == s'[..p][..next] && s[..next] == s[..p][..next];
    assert next < p ==> s'[next] == s'[..p][next] && s[next] == s[..p][next];
  }

  /** Skipping depends only on the characters skipped: a text that agrees up to the position
      reached, and ends or starts a character there, is skipped the same way up to there. */
  lemma {:induction false} SkipLocal(s: seq<Byte>, s': seq<Byte>, pos: nat, want: nat, more: nat)
    requires pos <= |s| && Skip(s, pos, want).Some?
    requires var p := Skip(s, pos, want).value.0;
             p <= |s'| && s'[..p] == s[..p] && (p == |s'| || StartsChar(s'[p]))
    ensures var (p, missing) := Skip(s, pos, want).value;
            pos <= |s'| && Skip(s', pos, want - missing + more) == Skip(s', p, more)
    decreases want
  {
    hide CharEnd, StartsChar;
    var (p, missing) := Skip(s, pos, want).value;
    if pos < |s| && want > 0 {
      var next := CharEnd(s, pos + 1).value;
      SharedFront(s, s', p, next);
      CharEndLocal(s, s', pos + 1, next);
      SkipLocal(s, s', next, want - 1, more);
    }
  }

  lemma {:induction false} SkipSpaces(s: seq<Byte>, pos: nat)
    requires pos <= |s| && forall i :: pos <= i < |s| ==> s[i] == 0x20
    ensures Skip(s, pos, |s| - pos) == Some((|s|, 0))
    decreases |s| - pos
  {
    if pos < |s| {
      assert CharEnd(s, pos + 1) == Some(pos + 1);
      SkipSpaces(s, pos + 1);
    }
  }

  lemma SkipOfTrimmed(s: seq<Byte>, want: nat)
    requires Skip(s, 0, want).Some? && Skip(s, 0, want).value.1 == 0
    ensures var pos := Skip(s, 0, want).value.0; Skip(s[..pos], 0, want) == Some((pos, 0))
  {
    SkipLocal(s, s[..Skip(s, 0, want).value.0], 0, want, 0);
  }

  lemma SkipOfPadded(s: seq<Byte>, want: nat)
    requires Skip(s, 0, want).Some? && Skip(s, 0, want).value.1 > 0
    ensures var missing := Skip(s, 0, want).value.1;
            Skip(s + Spaces(missing), 0, want) == Some((|s| + missing, 0))
  {
    var missing := Skip(s, 0, want).value.1;
    var r := s + Spaces(missing);
    assert r[..|s|] == s == s[..|s|];
    SkipLocal(s, r, 0, want, missing);
    SkipSpaces(r, |s|);
  }

  /** Text that has been fitted once is left alone the second time, so the reader may fit what the
      writer has already fitted. */
  lemma FittedIsIdempotent(s: seq<Byte>, t: Type)
    requires Fitted(s, t).Some?
    ensures Fitted(Fitted(s, t).value, t) == Fitted(s, t)
  {
    var r := Fitted(s, t).value;
    if t.Char? || t.Varchar? {
      var missing := Skip(s, 0, t.length).value.1;
      if missing == 0 {
        SkipOfTrimmed(s, t.length);
        assert r[..|r|] == r;
      } else if t.Char? {
        SkipOfPadded(s, t.length);
        assert r[..|r|] == r;
      }
    }
  }
}
