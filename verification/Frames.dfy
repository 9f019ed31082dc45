/** Framed streams as lists of frames. */
module Frames {
  import opened Bytes
  import opened Positional

  datatype Frame = Frame(payload: seq<Byte>, sum: seq<Byte>)

  predicate Whole(fs: seq<Frame>, n: nat) {
    forall i | 0 <= i < |fs| :: |fs[i].payload| == n && |fs[i].sum| == 4
  }

  function Flat(fs: seq<Frame>): seq<Byte> {
    if fs == [] then [] else fs[0].payload + fs[0].sum + Flat(fs[1..])
  }

  function Payloads(fs: seq<Frame>): seq<Byte> {
    if fs == [] then [] else fs[0].payload + Payloads(fs[1..])
  }

  /** Any bytes are whole frames and fewer bytes than one more would take. */
  lemma {:induction false} AnyBytesAreFrames(input: seq<Byte>, n: nat) returns (fs: seq<Frame>, rest: seq<Byte>)
    ensures Whole(fs, n) && |rest| < n + 4 && input == Flat(fs) + rest
    decreases |input|
  {
    if |input| < n + 4 {
      fs, rest := [], input;
    } else {
      var f := Frame(input[..n], input[n..n + 4]);
      var more;
      more, rest := AnyBytesAreFrames(input[n + 4..], n);
      fs := [f] + more;
      assert fs[1..] == more;
      assert input == f.payload + f.sum + input[n + 4..];
      assert f.payload + f.sum + (Flat(more) + rest) == f.payload + f.sum + Flat(more) + rest;
    }
  }

  lemma FirstFrame(fs: seq<Frame>, n: nat, rest: seq<Byte>)
    requires fs != [] && Whole(fs, n)
    ensures var (f, input) := (fs[0], Flat(fs) + rest);
      && Whole(fs[1..], n) && |f.payload| == n && |f.sum| == 4
      && input == f.payload + f.sum + (Flat(fs[1..]) + rest)
      && Payloads(fs) == f.payload + Payloads(fs[1..])
  {
    assert Payloads(fs) == fs[0].payload + Payloads(fs[1..]);
    var (f, more) := (fs[0], Flat(fs[1..]));
    assert Flat(fs) == f.payload + f.sum + more;
    hide Flat, Payloads;
    assert f.payload + f.sum + more + rest == f.payload + f.sum + (more + rest);
  }

  lemma NoFrames()
    ensures Flat([]) == [] && Payloads([]) == []
  {
  }
}
