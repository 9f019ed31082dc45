/** What cutting and padding does to characters, which are told here by their lead byte and the number
    of bytes that it announces, without the scan that looks for where the next one starts. */
module Characters {
  import opened Bytes
  import opened ColumnTypes
  import opened Options
  import opened Normalize

  /** How many bytes follow a lead byte; none leads a character of its own otherwise. */
  function Announced(lead: Byte): Option<nat> {
    if lead < 0x80 then Some(0)
    else if lead < 0xC0 then None
    else if lead < 0xE0 then Some(1)
    else if lead < 0xF0 then Some(2)
    else if lead < 0xF8 then Some(3)
    else if lead < 0xFC then Some(4)
    else if lead < 0xFE then Some(5)
    else None
  }

  predicate Follow(bs: seq<Byte>) {
    forall i | 0 <= i < |bs| :: 0x80 <= bs[i] < 0xC0
  }

  /** A lead byte and as many bytes 10xxxxxx as it announces. */
  predicate IsCharacter(c: seq<Byte>) {
    c != [] && Announced(c[0]) == Some(|c| - 1) && Follow(c[1..])
  }

  /** Any byte, and any number of bytes 10xxxxxx: what is left of a character, or of several. */
  predicate IsRun(c: seq<Byte>) {
    c != [] && Follow(c[1..])
  }

  /** Each run but the first one begins with a byte that leads a character. */
  predicate AreRuns(cs: seq<seq<Byte>>) {
    forall i | 0 <= i < |cs| :: IsRun(cs[i]) && (i > 0 ==> Announced(cs[i][0]).Some?)
  }

  function Flatten(cs: seq<seq<Byte>>): seq<Byte> {
    if cs == [] then [] else cs[0] + Flatten(cs[1..])
  }

  /** What stops the scan: a byte that neither leads a character nor follows in one. */
  predicate Stops(rest: seq<Byte>) {
    rest != [] && rest[0] >= 0xFE
  }

  // ---------- scanning runs ----------

  lemma LeadStarts(b: Byte)
    ensures StartsChar(b) <==> Announced(b).Some?
    ensures ContinuesChar(b) <==> 0x80 <= b < 0xC0
  {
  }

  lemma {:induction false} EndOfRun(s: seq<Byte>, i: nat, j: nat)
    requires i <= j <= |s| && Follow(s[i..j])
    requires j < |s| ==> Announced(s[j]).Some? || s[j] >= 0xFE
    ensures CharEnd(s, i) == if j < |s| && s[j] >= 0xFE then None else Some(j)
    decreases j - i
  {
    hide Announced, StartsChar, ContinuesChar;
    if i < j {
      assert s[i..j][0] == s[i] && s[i..j][1..] == s[i + 1..j];
      LeadStarts(s[i]);
      LeadOrFollow(s[i]);
      EndOfRun(s, i + 1, j);
    } else if j < |s| {
      LeadStarts(s[j]);
      LeadOrFollow(s[j]);
    }
  }

  lemma LeadOrFollow(b: Byte)
    ensures Announced(b).Some? ==> b < 0x80 || 0xC0 <= b < 0xFE
    ensures 0x80 <= b < 0xC0 || b >= 0xFE ==> Announced(b).None?
  {
  }

  /** What skipping over `want` runs after `before` gives. */
  function Skipped(before: seq<Byte>, cs: seq<seq<Byte>>, rest: seq<Byte>, want: nat): Option<(nat, nat)> {
    var m := Min(want, |cs|);
    if rest != [] && m == |cs| && cs != [] then None else Some((|before| + |Flatten(cs[..m])|, want - m))
  }

  lemma SkipNothing(s: seq<Byte>, pos: nat, want: nat)
    requires pos <= |s|
    ensures pos == |s| || want == 0 ==> Skip(s, pos, want) == Some((pos, want))
    ensures pos < |s| && want > 0 ==>
      Skip(s, pos, want) == if CharEnd(s, pos + 1).None? then None else Skip(s, CharEnd(s, pos + 1).value, want - 1)
  {
  }

  lemma {:induction false} SkipRuns(before: seq<Byte>, cs: seq<seq<Byte>>, rest: seq<Byte>, want: nat)
    requires AreRuns(cs) && (rest == [] || (Stops(rest) && cs != []))
    ensures Skip(before + Flatten(cs) + rest, |before|, want) == Skipped(before, cs, rest, want)
    decreases |cs|
  {
    if cs == [] || want == 0 {
      hide AreRuns, Stops, CharEnd;
      SkipNone(before, cs, rest, want);
    } else {
      RunsAfter(cs);
      hide *;
      SkipOne(before, cs, rest, want);
      if |cs| == 1 && rest != [] {
        SkippedStops(before, cs, rest, want);
      } else {
        SkipRuns(before + cs[0], cs[1..], rest, want - 1);
        SkippedStep(before, cs, rest, want);
      }
    }
  }

  lemma RunsAfter(cs: seq<seq<Byte>>)
    requires AreRuns(cs) && cs != []
    ensures AreRuns(cs[1..]) && IsRun(cs[0]) && cs[0] != []
  {
  }

  lemma SkipNone(before: seq<Byte>, cs: seq<seq<Byte>>, rest: seq<Byte>, want: nat)
    requires want == 0 || (cs == [] && rest == [])
    ensures Skip(before + Flatten(cs) + rest, |before|, want) == Skipped(before, cs, rest, want)
  {
    SkipNothing(before + Flatten(cs) + rest, |before|, want);
    hide Skip;
    assert cs[..0] == [] && Flatten(cs[..0]) == [];
  }

  lemma SkippedStops(before: seq<Byte>, cs: seq<seq<Byte>>, rest: seq<Byte>, want: nat)
    requires |cs| == 1 && rest != [] && want > 0
    ensures Skipped(before, cs, rest, want) == None
  {
  }

  /** Over the first run. */
  lemma SkipOne(before: seq<Byte>, cs: seq<seq<Byte>>, rest: seq<Byte>, want: nat)
    requires AreRuns(cs) && cs != [] && (rest == [] || Stops(rest)) && want > 0
    ensures var s := before + Flatten(cs) + rest;
      && before + cs[0] + Flatten(cs[1..]) + rest == s
      && Skip(s, |before|, want) == if |cs| == 1 && rest != [] then None else Skip(s, |before + cs[0]|, want - 1)
  {
    hide *;
    var s := before + Flatten(cs) + rest;
    NextRun(cs, rest);
    FlattenFront(cs);
    RunsAfter(cs);
    OverOne(before, cs[0], Flatten(cs[1..]) + rest, s);
    SkipNothing(s, |before|, want);
  }

  lemma FlattenFront(cs: seq<seq<Byte>>)
    requires cs != []
    ensures Flatten(cs) == cs[0] + Flatten(cs[1..])
  {
  }

  lemma OverOne(before: seq<Byte>, c: seq<Byte>, more: seq<Byte>, s: seq<Byte>)
    requires IsRun(c) && s == before + c + more
    requires more != [] ==> Announced(more[0]).Some? || more[0] >= 0xFE
    ensures CharEnd(s, |before| + 1) == if more != [] && more[0] >= 0xFE then None else Some(|before| + |c|)
  {
    hide CharEnd, Announced, Follow;
    FirstRun(before, c, more);
    assert more != [] ==> s[|before| + |c|] == more[0];
    EndOfRun(s, |before| + 1, |before| + |c|);
  }

  lemma FirstRun(before: seq<Byte>, c: seq<Byte>, more: seq<Byte>)
    requires c != []
    ensures (before + c + more)[|before| + 1..|before| + |c|] == c[1..]
  {
  }

  /** What follows the first run. */
  lemma NextRun(cs: seq<seq<Byte>>, rest: seq<Byte>)
    requires AreRuns(cs) && cs != [] && (rest == [] || Stops(rest))
    ensures var more := Flatten(cs[1..]) + rest;
      if |cs| > 1 then more != [] && Announced(more[0]).Some? && more[0] < 0xFE
      else more == rest && (rest != [] ==> more[0] >= 0xFE)
  {
    if |cs| > 1 {
      FlattenFront(cs[1..]);
      hide Flatten;
      assert IsRun(cs[1]);
      LeadOrFollow(cs[1][0]);
    }
  }

  lemma SkippedStep(before: seq<Byte>, cs: seq<seq<Byte>>, rest: seq<Byte>, want: nat)
    requires cs != [] && want > 0 && (|cs| > 1 || rest == [])
    ensures Skipped(before + cs[0], cs[1..], rest, want - 1) == Skipped(before, cs, rest, want)
  {
    var m := Min(want, |cs|);
    assert cs[..m][0] == cs[0] && cs[..m][1..] == cs[1..][..m - 1];
    FlattenFront(cs[..m]);
    hide Flatten;
  }

  /** Every text consists of runs, up to a byte that stops the scan. */
  lemma {:induction false} EveryTextIsRuns(s: seq<Byte>) returns (cs: seq<seq<Byte>>, rest: seq<Byte>)
    ensures AreRuns(cs) && s == Flatten(cs) + rest && (rest == [] || (Stops(rest) && cs != []))
    ensures s != [] ==> cs != [] && cs[0][0] == s[0]
    decreases |s|
  {
    if s == [] {
      cs, rest := [], [];
    } else {
      var j := RunEnd(s, 1);
      var c := s[..j];
      assert c[1..] == s[1..j] && s == c + s[j..];
      if j == |s| || Announced(s[j]).None? {
        cs, rest := [c], s[j..];
        assert cs[1..] == [];
      } else {
        var more;
        more, rest := EveryTextIsRuns(s[j..]);
        cs := [c] + more;
        assert cs[1..] == more;
        assert c + (Flatten(more) + rest) == c + Flatten(more) + rest;
        assert forall i | 0 < i < |cs| :: cs[i] == more[i - 1];
      }
    }
  }

  lemma {:induction false} RunEnd(s: seq<Byte>, i: nat) returns (j: nat)
    requires i <= |s|
    ensures i <= j <= |s| && Follow(s[i..j]) && (j < |s| ==> Announced(s[j]).Some? || s[j] >= 0xFE)
    decreases |s| - i
  {
    if i < |s| && 0x80 <= s[i] < 0xC0 {
      j := RunEnd(s, i + 1);
      assert s[i..j] == [s[i]] + s[i + 1..j];
    } else {
      j := i;
    }
  }

  // ---------- cutting and padding ----------

  function Blanks(n: nat): (bs: seq<Byte>)
    ensures |bs| == n && forall i | 0 <= i < n :: bs[i] == 0x20
  {
    if n == 0 then [] else [0x20] + Blanks(n - 1)
  }

  /** The text as it should be: its first characters, as many as the type declares, and for CHAR a space
      for each that is missing. */
  function Cut(cs: seq<seq<Byte>>, t: Type): seq<Byte>
    requires (t.Char? || t.Varchar?) && t.length >= 0
  {
    var m := if |cs| < t.length then |cs| else t.length;
    Flatten(cs[..m]) + if t.Char? then Blanks(t.length - m) else []
  }

  /** Any text at all: its runs are counted as characters, and it throws if and only if the declared
      length is out of range or a byte that stops the scan is reached. */
  lemma FittedRuns(cs: seq<seq<Byte>>, rest: seq<Byte>, t: Type)
    requires t.Char? || t.Varchar?
    requires AreRuns(cs) && (rest == [] || (Stops(rest) && cs != []))
    ensures Fitted(Flatten(cs) + rest, t) ==
            if !(1 <= t.length <= if t.Char? then 255 else 65535) then None
            else if rest != [] && |cs| <= t.length then None
            else Some(Cut(cs, t))
  {
    hide *;
    var s := Flatten(cs) + rest;
    if 1 <= t.length <= (if t.Char? then 255 else 65535) {
      SkipRuns([], cs, rest, t.length);
      assert [] + Flatten(cs) + rest == s;
      FittedBySkip(s, t);
      CutBySkip(cs, rest, t);
    } else {
      LengthOutOfRange(s, t);
    }
  }

  lemma LengthOutOfRange(s: seq<Byte>, t: Type)
    requires (t.Char? && !(1 <= t.length <= 255)) || (t.Varchar? && !(1 <= t.length <= 65535))
    ensures Fitted(s, t) == None
  {
  }

  lemma FittedBySkip(s: seq<Byte>, t: Type)
    requires (t.Char? && 1 <= t.length <= 255) || (t.Varchar? && 1 <= t.length <= 65535)
    ensures Fitted(s, t) ==
      match Skip(s, 0, t.length)
      case None => None
      case Some(r) => Some(s[..r.0] + if t.Char? then Blanks(r.1) else [])
  {
    hide Skip;
    if Skip(s, 0, t.length).Some? {
      var (pos, missing) := Skip(s, 0, t.length).value;
      assert Spaces(missing) == Blanks(missing) && s[..|s|] == s && s[..pos] + [] == s[..pos];
    }
  }

  lemma CutBySkip(cs: seq<seq<Byte>>, rest: seq<Byte>, t: Type)
    requires (t.Char? || t.Varchar?) && t.length > 0
    ensures var (s, r) := (Flatten(cs) + rest, Skipped([], cs, rest, t.length));
      if rest != [] && cs != [] && |cs| <= t.length then r == None
      else r.Some? && r.value.0 <= |s| && Cut(cs, t) == s[..r.value.0] + if t.Char? then Blanks(r.value.1) else []
  {
    hide *;
    var m := if |cs| < t.length then |cs| else t.length;
    FlattenSplits(cs, m);
    Front(Flatten(cs[..m]), Flatten(cs[m..]), rest);
    SkippedIs(cs, rest, t.length, m);
    CutIs(cs, t, m);
  }

  lemma SkippedIs(cs: seq<seq<Byte>>, rest: seq<Byte>, want: nat, m: nat)
    requires m == if |cs| < want then |cs| else want
    ensures Skipped([], cs, rest, want) ==
      if rest != [] && cs != [] && |cs| <= want then None else Some((|Flatten(cs[..m])|, want - m))
  {
    hide Flatten;
  }

  lemma CutIs(cs: seq<seq<Byte>>, t: Type, m: nat)
    requires (t.Char? || t.Varchar?) && t.length > 0 && m == if |cs| < t.length then |cs| else t.length
    ensures Cut(cs, t) == Flatten(cs[..m]) + if t.Char? then Blanks(t.length - m) else []
  {
    hide Flatten, Blanks;
  }

  lemma Front(a: seq<Byte>, b: seq<Byte>, c: seq<Byte>)
    ensures (a + b + c)[..|a|] == a
  {
  }

  lemma {:induction false} FlattenSplits(cs: seq<seq<Byte>>, k: nat)
    requires k <= |cs|
    ensures Flatten(cs) == Flatten(cs[..k]) + Flatten(cs[k..])
    decreases k
  {
    if k == 0 {
      assert cs[..0] == [] && cs[0..] == cs;
    } else {
      FlattenSplits(cs[1..], k - 1);
      assert cs[..k][1..] == cs[1..][..k - 1] && cs[1..][k - 1..] == cs[k..];
      assert cs[0] + (Flatten(cs[1..][..k - 1]) + Flatten(cs[k..])) == cs[0] + Flatten(cs[1..][..k - 1]) + Flatten(cs[k..]);
    }
  }

  /** No character is ever cut in two: of a text of characters the first ones are kept, as many as the
      type declares, and a CHAR gets a space for each that is missing. */
  lemma FittedCharacters(cs: seq<seq<Byte>>, t: Type)
    requires forall i | 0 <= i < |cs| :: IsCharacter(cs[i])
    requires t.Char? || t.Varchar?
    ensures Fitted(Flatten(cs), t) ==
            if 1 <= t.length <= (if t.Char? then 255 else 65535) then Some(Cut(cs, t)) else None
  {
    hide Fitted, Cut;
    FittedRuns(cs, [], t);
    assert Flatten(cs) + [] == Flatten(cs);
  }

  /** Whatever the bytes: from `i` on the scan stops at `j` if and only if nothing but bytes 10xxxxxx lies
      between, and the text ends there or that byte leads a character. */
  lemma CharEndMeans(s: seq<Byte>, i: nat, j: nat)
    requires i <= |s|
    ensures CharEnd(s, i) == Some(j) <==> i <= j <= |s| && Follow(s[i..j]) && (j < |s| ==> Announced(s[j]).Some?)
  {
    var k := RunEnd(s, i);
    EndOfRun(s, i, k);
    hide CharEnd, Follow;
    if k < |s| {
      LeadOrFollow(s[k]);
    }
    if i <= j <= |s| && Follow(s[i..j]) && (j < |s| ==> Announced(s[j]).Some?) {
      EndOfRun(s, i, j);
      if j < |s| {
        LeadOrFollow(s[j]);
      }
    }
  }

  /** From the beginning of a character the next one is found behind it. */
  lemma NextCharacter(before: seq<Byte>, c: seq<Byte>, after: seq<Byte>)
    requires IsCharacter(c) && (after == [] || Announced(after[0]).Some?)
    ensures CharEnd(before + c + after, |before| + 1) == Some(|before| + |c|)
  {
    var s := before + c + after;
    assert s[|before| + 1..|before| + |c|] == c[1..];
    if after != [] {
      assert s[|before| + |c|] == after[0];
      LeadOrFollow(after[0]);
    }
    EndOfRun(s, |before| + 1, |before| + |c|);
  }
}
