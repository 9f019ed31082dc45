/** Positions in a framed stream, and taking byte strings apart. */
module Cuts {
  import opened Bytes

  /** Where position `r` of the frames lies: after so many whole chunks, which hold so much data, and
      so many bytes more. */
  datatype Cut = Cut(chunks: nat, whole: nat, over: nat)

  function CutAt(n: nat, data: seq<Byte>, r: nat): (c: Cut)
    requires n > 0
    decreases |data|
  {
    if |data| < n || r < n + 4 then Cut(0, 0, r)
    else
      var c := CutAt(n, data[n..], r - (n + 4));
      Cut(c.chunks + 1, c.whole + n, c.over)
  }

  lemma {:induction false} CutIsThere(n: nat, data: seq<Byte>, r: nat)
    requires n > 0
    ensures var c := CutAt(n, data, r);
            && c.whole == c.chunks * n <= |data| && r == c.chunks * (n + 4) + c.over
            && (|data| - c.whole >= n ==> c.over < n + 4)
    decreases |data|
  {
    if |data| >= n && r >= n + 4 {
      CutIsThere(n, data[n..], r - (n + 4));
    }
  }

  lemma CutInThree(s: seq<Byte>, i: nat, j: nat)
    requires i <= j <= |s|
    ensures s == s[..i] + s[i..j] + s[j..]
  {
  }

  lemma FirstBytes(s: seq<Byte>, t: seq<Byte>, i: nat, j: nat)
    requires i <= j <= |s| && j <= |t| && s[..j] == t[..j]
    ensures s[..i] == t[..i]
  {
    assert s[..i] == s[..j][..i] && t[..i] == t[..j][..i];
  }

  /** The first bytes after a first part, together with it. */
  lemma PartsJoin(before: seq<Byte>, part: seq<Byte>, data: seq<Byte>, k: nat)
    requires part <= data && k <= |data| - |part|
    ensures part + data[|part|..][..k] == data[..k + |part|]
    ensures before + part + data[|part|..][..k] == before + data[..k + |part|]
  {
  }

  lemma LastBytes(a: seq<Byte>, b: seq<Byte>, k: nat)
    requires k <= |b|
    ensures (a + b)[|a + b| - k..] == b[|b| - k..]
  {
  }
}
