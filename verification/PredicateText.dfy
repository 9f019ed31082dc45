/** Predicates and column names being written out step by step. */
module PredicateText {
  import opened Options
  import opened Predicates

  lemma {:induction false} KeptAppend(texts: seq<string>, t: string)
    ensures Kept(texts + [t]) == if t == "" then Kept(texts) else Kept(texts) + [t]
    decreases |texts|
  {
    if texts == [] {
      assert [] + [t] == [t] && [t][1..] == [];
    } else {
      assert (texts + [t])[1..] == texts[1..] + [t];
      KeptAppend(texts[1..], t);
    }
  }

  lemma {:induction false} JoinedAppend(op: Operator, texts: seq<string>, t: string)
    requires op != NOT
    ensures Joined(op, texts + [t]) == Joined(op, texts) + (if texts == [] then "" else Separator(op)) + ("(" + t + ")")
    decreases |texts|
  {
    hide Separator;
    if texts == [] {
      assert [] + [t] == [t];
    } else {
      assert (texts + [t])[1..] == texts[1..] + [t];
      JoinedAppend(op, texts[1..], t);
    }
  }

  lemma {:induction false} NothingLost(texts: seq<string>)
    requires "" !in texts
    ensures Kept(texts) == texts
    decreases |texts|
  {
    if texts != [] {
      assert texts == [texts[0]] + texts[1..];
      NothingLost(texts[1..]);
    }
  }

  /** Writes the operands of a compound, of which there is at least one. */
  method WriteCompound(op: Operator, texts: seq<string>) returns (sb: string)
    requires texts != []
    ensures sb == Combined(op, texts)
  {
    if op == NOT {
      return if texts[0] == "" then "" else "not (" + texts[0] + ")";
    }
    sb := "";
    var first := true;
    var i := 0;
    while i < |texts|
      invariant 0 <= i <= |texts| && first == (Kept(texts[..i]) == [])
      invariant sb == Joined(op, Kept(texts[..i]))
      invariant op == OR ==> "" !in texts[..i]
    {
      assert texts[..i + 1] == texts[..i] + [texts[i]];
      KeptAppend(texts[..i], texts[i]);
      if texts[i] == "" {
        if op == OR {
          return "";
        }
      } else {
        JoinedAppend(op, Kept(texts[..i]), texts[i]);
        if !first {
          sb := sb + Separator(op);
        }
        sb := sb + ("(" + texts[i] + ")");
        first := false;
      }
      i := i + 1;
    }
    assert texts[..i] == texts;
    if op == OR {
      NothingLost(texts);
    }
  }

  // ---------- column names ----------

  const TICK := '`'

  function Escaped(s: string): string {
    if s == "" then "" else (if s[0] == TICK then [TICK, TICK] else [s[0]]) + Escaped(s[1..])
  }

  predicate IsQuoted(s: string) {
    |s| > 1 && s[0] == TICK && s[|s| - 1] == TICK
  }

  /** What is in backticks already is taken as it is. */
  function AttributeText(value: string): string {
    if IsQuoted(value) then value else [TICK] + Escaped(value) + [TICK]
  }

  /** The name that stands between backticks, where two of them stand for one. */
  function Unescaped(s: string): Option<string> {
    if s == "" then Some("")
    else
      var skip := if s[0] == TICK then 2 else 1;
      if skip > |s| || s[skip - 1] != s[0] then None
      else
        match Unescaped(s[skip..])
        case None => None
        case Some(rest) => Some([s[0]] + rest)
  }

  function Named(text: string): Option<string> {
    if IsQuoted(text) then Unescaped(text[1..|text| - 1]) else None
  }

  lemma {:induction false} UnescapedEscaped(s: string)
    ensures Unescaped(Escaped(s)) == Some(s)
    decreases |s|
  {
    if s == "" {
    } else {
      var skip := if s[0] == TICK then 2 else 1;
      assert Escaped(s)[skip..] == Escaped(s[1..]);
      UnescapedEscaped(s[1..]);
      assert s == [s[0]] + s[1..];
    }
  }

  lemma {:induction false} UnescapedIsNoLonger(s: string)
    ensures Unescaped(s).Some? ==> |Unescaped(s).value| <= |s|
    decreases |s|
  {
    if s != "" {
      var skip := if s[0] == TICK then 2 else 1;
      if skip <= |s| {
        UnescapedIsNoLonger(s[skip..]);
      }
    }
  }

  /** The text written for a column names this column exactly if the name did not look quoted;
      otherwise it names what the quotes hold, if anything. */
  lemma AttributeNames(value: string)
    ensures Named(AttributeText(value)) == Some(value) <==> !IsQuoted(value)
    ensures IsQuoted(value) ==> Named(AttributeText(value)) == Named(value)
  {
    UnescapedEscaped(value);
    var text := [TICK] + Escaped(value) + [TICK];
    assert text[1..|text| - 1] == Escaped(value);
    if IsQuoted(value) {
      UnescapedIsNoLonger(value[1..|value| - 1]);
    }
  }

  lemma {:induction false} EscapedUnescaped(t: string)
    requires Unescaped(t).Some?
    ensures Escaped(Unescaped(t).value) == t
    decreases |t|
  {
    if t != "" {
      var skip := if t[0] == TICK then 2 else 1;
      EscapedUnescaped(t[skip..]);
      var name := Unescaped(t).value;
      assert name[1..] == Unescaped(t[skip..]).value;
      assert t == t[..skip] + t[skip..];
    }
  }

  /** A name that looks quoted is passed on as it is, with nothing doubled, and then the text can be
      read if and only if the backticks inside are those of some escaped name. */
  lemma ImproperQuotesStay(value: string)
    requires IsQuoted(value)
    ensures AttributeText(value) == value
    ensures Named(value).Some? <==> exists name :: value == [TICK] + Escaped(name) + [TICK]
  {
    var inner := value[1..|value| - 1];
    assert value == [TICK] + inner + [TICK];
    if Named(value).Some? {
      EscapedUnescaped(inner);
      assert value == [TICK] + Escaped(Named(value).value) + [TICK];
    }
    if name :| value == [TICK] + Escaped(name) + [TICK] {
      assert inner == Escaped(name);
      UnescapedEscaped(name);
    }
  }

  lemma {:induction false} EscapedAppend(a: string, b: string)
    ensures Escaped(a + b) == Escaped(a) + Escaped(b)
    decreases |a|
  {
    if a == "" {
      assert a + b == b;
    } else {
      assert (a + b)[1..] == a[1..] + b;
      EscapedAppend(a[1..], b);
    }
  }

  lemma {:induction false} EscapedPlain(s: string)
    requires TICK !in s
    ensures Escaped(s) == s
    decreases |s|
  {
    if s != "" {
      assert s == [s[0]] + s[1..];
      EscapedPlain(s[1..]);
    }
  }

  /** Without backticks a text is escaped as it is, and each backtick in it is written twice. */
  lemma EscapedMeans(a: string, b: string)
    ensures '`' !in a ==> Escaped(a) == a
    ensures Escaped(a + "`" + b) == Escaped(a) + "``" + Escaped(b)
    ensures !(|a| > 1 && a[0] == '`' && a[|a| - 1] == '`') ==> AttributeText(a) == "`" + Escaped(a) + "`"
  {
    if '`' !in a {
      EscapedPlain(a);
    }
    EscapedAppend(a + "`", b);
    EscapedAppend(a, "`");
    var tick := "`";
    assert tick[1..] == "" && Escaped(tick) == "``" + Escaped("");
  }

  /** The position of the next backtick from `from` on, or the length of the text. */
  method Find(s: string, from: nat) returns (pos: nat)
    requires from <= |s|
    ensures from <= pos <= |s| && TICK !in s[from..pos] && (pos < |s| ==> s[pos] == TICK)
  {
    pos := from;
    while pos < |s| && s[pos] != TICK
      invariant from <= pos <= |s| && TICK !in s[from..pos]
    {
      pos := pos + 1;
    }
  }

  lemma NothingEscaped(value: string)
    ensures Escaped(value[..0]) == "" && value[0..] == value
  {
  }

  /** What looks quoted is passed on, anything else gets its backticks doubled and the quotes added. */
  method WriteAttribute(value: string) returns (text: string)
    ensures text == AttributeText(value)
  {
    if IsQuoted(value) {
      return value;
    }
    var escaped := DoubleTicks(value);
    text := [TICK] + escaped + [TICK];
  }

  /** Doubles the backticks in place, one after the other. */
  method DoubleTicks(value: string) returns (escaped: string)
    ensures escaped == Escaped(value)
  {
    NothingEscaped(value);
    hide Escaped;
    escaped := value;
    ghost var (done, head, tail) := (0, "", value);
    var start := 0;
    while true
      invariant done <= |value| && start == |head| && escaped == head + tail
      invariant head == Escaped(value[..done]) && tail == value[done..]
      decreases |value| - done
    {
      var pos := Find(escaped, start);
      ghost var n := pos - start;
      InTail(head, tail, n);
      if pos == |escaped| {
        EscapedRest(value, done);
        break;
      }
      EscapeStep(value, done, n);
      ReplacedInTail(head, tail, n);
      head, tail, done := head + tail[..n] + [TICK, TICK], tail[n + 1..], done + n + 1;
      escaped := escaped[..pos] + [TICK, TICK] + escaped[pos + 1..];
      start := pos + 2;
    }
  }

  lemma InTail(head: string, tail: string, n: nat)
    requires n <= |tail|
    ensures (head + tail)[|head|..|head| + n] == tail[..n]
    ensures n < |tail| ==> (head + tail)[|head| + n] == tail[n]
  {
  }

  lemma ReplacedInTail(head: string, tail: string, n: nat)
    requires n < |tail|
    ensures (head + tail)[..|head| + n] + [TICK, TICK] + (head + tail)[|head| + n + 1..] == head + tail[..n] + [TICK, TICK] + tail[n + 1..]
  {
  }

  lemma EscapedRest(value: string, done: nat)
    requires done <= |value| && TICK !in value[done..][..|value| - done]
    ensures Escaped(value[..done]) + value[done..] == Escaped(value)
  {
    assert value[done..][..|value| - done] == value[done..];
    assert value == value[..done] + value[done..];
    EscapedPlain(value[done..]);
    EscapedAppend(value[..done], value[done..]);
  }

  /** Past `n` other characters and one backtick. */
  lemma EscapeStep(value: string, done: nat, n: nat)
    requires done + n < |value| && value[done + n] == TICK && TICK !in value[done..][..n]
    ensures Escaped(value[..done + n + 1]) == Escaped(value[..done]) + value[done..][..n] + [TICK, TICK]
    ensures value[done + n + 1..] == value[done..][n + 1..]
  {
    var plain := value[done..][..n];
    assert value[..done + n + 1] == value[..done] + plain + [TICK];
    EscapedAppend(value[..done] + plain, [TICK]);
    EscapedAppend(value[..done], plain);
    EscapedPlain(plain);
    assert [TICK][1..] == [];
  }
}
