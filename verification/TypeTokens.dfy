/** How a type string is cut into tokens. Names are trimmed and put into upper case; every other
    character is a token of its own. */
module TypeTokens {

  predicate IsSpace(c: char) {
    c == ' ' || '\t' <= c <= '\r'
  }

  predicate IsDigit(c: char) {
    '0' <= c <= '9'
  }

  /** Characters of names, which may have spaces in them. */
  predicate IsWord(c: char) {
    'a' <= c <= 'z' || 'A' <= c <= 'Z' || IsDigit(c) || c == '_' || c == '.' || IsSpace(c)
  }

  function UpperChar(c: char): (u: char)
    ensures IsWord(u) == IsWord(c) && IsSpace(u) == IsSpace(c)
  {
    if 'a' <= c <= 'z' then (c as int - 32) as char else c
  }

  function Upper(s: string): (u: string)
    ensures |u| == |s| && forall i | 0 <= i < |s| :: u[i] == UpperChar(s[i])
  {
    seq(|s|, i requires 0 <= i < |s| => UpperChar(s[i]))
  }

  function Trim(s: string): string
    decreases |s|
  {
    if s == "" then ""
    else if IsSpace(s[0]) then Trim(s[1..])
    else if IsSpace(s[|s| - 1]) then Trim(s[..|s| - 1])
    else s
  }

  function Clean(piece: string): string {
    Upper(Trim(piece))
  }

  predicate AllWord(s: string) {
    forall i | 0 <= i < |s| :: IsWord(s[i])
  }

  /** Where the first piece ends: after a run of name characters, or after one other character. */
  function PieceEnd(s: string): (n: nat)
    requires s != ""
    ensures 0 < n <= |s|
  {
    if IsWord(s[0]) && |s| > 1 && IsWord(s[1]) then 1 + PieceEnd(s[1..]) else 1
  }

  /** A cut between two characters is made unless both may be part of a name. */
  predicate CutBefore(s: string, i: nat)
    requires 0 < i <= |s|
  {
    i == |s| || !IsWord(s[i]) || !IsWord(s[i - 1])
  }

  lemma {:induction false} PieceEndIsACut(s: string)
    requires s != ""
    ensures CutBefore(s, PieceEnd(s)) && (PieceEnd(s) == 1 || AllWord(s[..PieceEnd(s)]))
    decreases |s|
  {
    if IsWord(s[0]) && |s| > 1 && IsWord(s[1]) {
      PieceEndIsACut(s[1..]);
      var n := PieceEnd(s[1..]);
      assert forall i | 0 < i <= n :: s[i] == s[1..][..n][i - 1] || n == 1;
    }
  }

  /** There is no other way to end the first piece. */
  lemma {:induction false} FirstPiece(s: string, n: nat)
    requires 0 < n <= |s| && CutBefore(s, n) && (n == 1 || AllWord(s[..n]))
    ensures PieceEnd(s) == n
    decreases |s|
  {
    if n > 1 {
      assert s[..n][0] == s[0] && s[..n][1] == s[1];
      assert s[1..][..n - 1] == s[..n][1..];
      FirstPiece(s[1..], n - 1);
    }
  }

  /** The text cut into pieces. */
  function Pieces(s: string): seq<string> {
    if s == "" then [] else [s[..PieceEnd(s)]] + Pieces(s[PieceEnd(s)..])
  }

  function Tokens(s: string): seq<string> {
    if s == "" then [] else [Clean(s[..PieceEnd(s)])] + Tokens(s[PieceEnd(s)..])
  }

  function Joined(pieces: seq<string>): string {
    if pieces == [] then "" else pieces[0] + Joined(pieces[1..])
  }

  /** No piece is empty, only names have more than one character, and names are not cut in two. */
  predicate WellCut(pieces: seq<string>) {
    pieces == [] ||
    (var p := pieces[0];
     && p != "" && (|p| == 1 || AllWord(p))
     && (|pieces| > 1 ==> pieces[1] == "" || !IsWord(p[|p| - 1]) || !IsWord(pieces[1][0]))
     && WellCut(pieces[1..]))
  }

  lemma WellCutStep(s: string, n: nat, others: seq<string>)
    requires 0 < n <= |s| && CutBefore(s, n) && (n == 1 || AllWord(s[..n]))
    requires WellCut(others) && Joined(others) == s[n..]
    ensures WellCut([s[..n]] + others) && Joined([s[..n]] + others) == s
  {
    hide IsWord, AllWord;
    var (first, pieces) := (s[..n], [s[..n]] + others);
    assert pieces[0] == first && pieces[1..] == others;
    assert first[n - 1] == s[n - 1];
    if others != [] {
      StartsWithFirst(others);
      assert others[0][0] == s[n..][0] == s[n];
    }
  }

  lemma StartsWithFirst(pieces: seq<string>)
    requires WellCut(pieces) && pieces != []
    ensures pieces[0] != "" && Joined(pieces) != "" && Joined(pieces)[0] == pieces[0][0]
  {
  }

  /** Cutting loses nothing and is made in the right places. */
  lemma {:induction false} PiecesMakeUpTheText(s: string)
    ensures Joined(Pieces(s)) == s && WellCut(Pieces(s))
    decreases |s|
  {
    if s == "" {
    } else {
      PieceEndIsACut(s);
      PiecesMakeUpTheText(s[PieceEnd(s)..]);
      hide PieceEnd, CutBefore, AllWord, WellCut, Joined;
      WellCutStep(s, PieceEnd(s), Pieces(s[PieceEnd(s)..]));
    }
  }

  /** There is only one way to cut a text. */
  lemma {:induction false} PiecesAreUnique(pieces: seq<string>)
    requires WellCut(pieces)
    ensures Pieces(Joined(pieces)) == pieces
    decreases |pieces|
  {
    if pieces == [] {
    } else {
      var (p, rest) := (pieces[0], Joined(pieces[1..]));
      if |pieces| > 1 {
        assert pieces[1..][0] == pieces[1] && rest[0] == pieces[1][0];
      }
      assert (p + rest)[..|p|] == p && (p + rest)[|p|..] == rest;
      FirstPiece(p + rest, |p|);
      PiecesAreUnique(pieces[1..]);
    }
  }

  /** The tokens are the pieces, cleaned. */
  lemma {:induction false} TokensAreCleanPieces(s: string)
    ensures |Tokens(s)| == |Pieces(s)| && forall k | 0 <= k < |Tokens(s)| :: Tokens(s)[k] == Clean(Pieces(s)[k])
    decreases |s|
  {
    if s == "" {
    } else {
      TokensAreCleanPieces(s[PieceEnd(s)..]);
    }
  }

  lemma {:induction false} PieceEndIgnoresCase(s: string)
    requires s != ""
    ensures PieceEnd(Upper(s)) == PieceEnd(s)
    decreases |s|
  {
    if IsWord(s[0]) && |s| > 1 && IsWord(s[1]) {
      assert Upper(s)[1..] == Upper(s[1..]);
      PieceEndIgnoresCase(s[1..]);
    }
  }

  lemma {:induction false} TrimIgnoresCase(s: string)
    ensures Trim(Upper(s)) == Upper(Trim(s))
    decreases |s|
  {
    if s == "" {
    } else if IsSpace(s[0]) {
      assert Upper(s)[1..] == Upper(s[1..]);
      TrimIgnoresCase(s[1..]);
    } else if IsSpace(s[|s| - 1]) {
      assert Upper(s)[..|s| - 1] == Upper(s[..|s| - 1]);
      TrimIgnoresCase(s[..|s| - 1]);
    }
  }

  lemma {:induction false} TokensIgnoreCase(s: string)
    ensures Tokens(Upper(s)) == Tokens(s)
    decreases |s|
  {
    if s == "" {
    } else {
      var n := PieceEnd(s);
      PieceEndIgnoresCase(s);
      assert Upper(s)[..n] == Upper(s[..n]) && Upper(s)[n..] == Upper(s[n..]);
      TrimIgnoresCase(s[..n]);
      assert Upper(Upper(Trim(s[..n]))) == Upper(Trim(s[..n]));
      TokensIgnoreCase(s[n..]);
    }
  }

  /** From `begin` to `end` there is one character or part of a name. */
  predicate InPiece(s: string, begin: nat, end: nat) {
    begin < end <= |s| && (end == begin + 1 || AllWord(s[begin..end]))
  }

  lemma PieceGrows(s: string, begin: nat, end: nat)
    requires InPiece(s, begin, end) && !CutBefore(s, end)
    ensures InPiece(s, begin, end + 1)
  {
    hide IsWord;
    assert s[begin..end + 1] == s[begin..end] + [s[end]];
    assert end > begin + 1 || s[begin..end + 1][0] == s[end - 1];
  }

  lemma PieceTaken(s: string, begin: nat, end: nat)
    requires InPiece(s, begin, end) && CutBefore(s, end)
    ensures Tokens(s[begin..]) == [Clean(s[begin..end])] + Tokens(s[end..])
  {
    hide IsWord, Clean, PieceEnd;
    assert s[begin..][..end - begin] == s[begin..end] && s[begin..][end - begin..] == s[end..];
    FirstPiece(s[begin..], end - begin);
  }

  lemma OneCharacter(s: string, begin: nat)
    ensures begin < |s| ==> InPiece(s, begin, begin + 1)
  {
  }

  lemma NoTokens(s: string)
    ensures s[0..] == s && Tokens(s[|s|..]) == []
  {
  }

  /** The tokenizer as it runs. */
  method Tokenize(infoString: string) returns (buffer: seq<string>)
    ensures buffer == Tokens(infoString)
  {
    hide InPiece, Clean, Tokens, IsWord;
    buffer := [];
    var begin, end := 0, 1;
    NoTokens(infoString);
    OneCharacter(infoString, 0);
    while end <= |infoString|
      invariant 0 <= begin < end <= |infoString| + 1
      invariant if end <= |infoString| then InPiece(infoString, begin, end) else begin == |infoString|
      invariant Tokens(infoString) == buffer + Tokens(infoString[begin..])
    {
      if CutBefore(infoString, end) {
        PieceTaken(infoString, begin, end);
        buffer := buffer + [Clean(infoString[begin..end])];
        begin := end;
        OneCharacter(infoString, begin);
      } else {
        PieceGrows(infoString, begin, end);
      }
      end := end + 1;
    }
  }

  // ---------- tokens of printed text ----------

  predicate IsPlain(c: char) {
    'A' <= c <= 'Z' || IsDigit(c) || c == '_'
  }

  /** Text that cleaning leaves as it is. */
  predicate Plain(s: string) {
    forall i | 0 <= i < |s| :: IsPlain(s[i])
  }

  lemma PlainWord(w: string, rest: string)
    requires w != "" && Plain(w) && (rest == "" || !IsWord(rest[0]))
    ensures Tokens(w + rest) == [w] + Tokens(rest)
  {
    FirstPiece(w + rest, |w|);
    assert (w + rest)[..|w|] == w && (w + rest)[|w|..] == rest;
    assert Trim(w) == w && Upper(w) == w;
  }

  lemma OtherCharacter(c: char, rest: string)
    requires !IsWord(c)
    ensures Tokens([c] + rest) == [[c]] + Tokens(rest)
  {
    assert ([c] + rest)[..1] == [c] && ([c] + rest)[1..] == rest;
    assert !IsSpace([c][0]);
    assert Upper([c]) == [c];
  }
}
