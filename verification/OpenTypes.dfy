/** When the type parser reads past the end of its tokens: exactly when they stop inside a struct
    where a member, a comma or the closing bracket has to come. */
module OpenTypes {
  import opened Bytes
  import opened ColumnTypes
  import opened Options
  import opened TypeTokens
  import opened TypeStrings
  import opened TypeGrammar

  /** A spelling that stops too early: in an element, key or value; where a member may begin; after
      the type of a member; or in the type of a member. `done` are members followed by a comma. */
  datatype Open =
    | InArray(inner: Open)
    | InKey(inner: Open)
    | InValue(key: Spelling, inner: Open)
    | AtMember(done: seq<Entry>)
    | AfterType(done: seq<Entry>, name: string, ty: Spelling)
    | InMember(done: seq<Entry>, name: string, inner: Open)

  function OpenTokens(o: Open): seq<string>
    decreases o
  {
    match o
    case InArray(i) => ["ARRAY"] + (["<"] + OpenTokens(i))
    case InKey(i) => ["MAP"] + (["<"] + OpenTokens(i))
    case InValue(k, i) => ["MAP"] + (["<"] + (TokensOf(k) + ([","] + OpenTokens(i))))
    case AtMember(done) => ["STRUCT"] + (["<"] + EntryTokens(done, true))
    case AfterType(done, name, ty) => ["STRUCT"] + (["<"] + (EntryTokens(done, true) + ([name] + ([":"] + TokensOf(ty)))))
    case InMember(done, name, i) => ["STRUCT"] + (["<"] + (EntryTokens(done, true) + ([name] + ([":"] + OpenTokens(i)))))
  }

  predicate WellOpened(o: Open)
    decreases o
  {
    match o
    case InArray(i) => WellOpened(i)
    case InKey(i) => WellOpened(i)
    case InValue(k, i) => WellSpelled(k) && WellOpened(i)
    case AtMember(done) => WellNamed(done)
    case AfterType(done, name, ty) => WellNamed(done) && name != ">" && WellSpelled(ty)
    case InMember(done, name, i) => WellNamed(done) && name != ">" && WellOpened(i)
  }

  // ---------- an open spelling makes the parser stray ----------

  lemma ArrayStrays(ts: seq<string>)
    requires ParseType(ts) == PastEnd
    ensures ParseType(["ARRAY"] + (["<"] + ts)) == PastEnd
  {
    hide NamedType, ParseType;
    BracketNames();
    Begin("ARRAY", ["<"] + ts);
    ExpectFirst("<", ts);
  }

  lemma KeyStrays(ts: seq<string>)
    requires ParseType(ts) == PastEnd
    ensures ParseType(["MAP"] + (["<"] + ts)) == PastEnd
  {
    hide NamedType, ParseType;
    BracketNames();
    Begin("MAP", ["<"] + ts);
    ExpectFirst("<", ts);
  }

  lemma ValueStrays(k: Spelling, ts: seq<string>)
    requires WellSpelled(k) && ParseType(ts) == PastEnd
    ensures ParseType(["MAP"] + (["<"] + (TokensOf(k) + ([","] + ts)))) == PastEnd
  {
    hide NamedType, ParseType, TokensOf, TypeOf, WellSpelled;
    BracketNames();
    Begin("MAP", ["<"] + (TokensOf(k) + ([","] + ts)));
    ExpectFirst("<", TokensOf(k) + ([","] + ts));
    SpelledParses(k, [","] + ts);
    ExpectFirst(",", ts);
  }

  lemma StructStrays(ts: seq<string>)
    requires ParseMembers(ts) == PastEnd
    ensures ParseType(["STRUCT"] + (["<"] + ts)) == PastEnd
  {
    hide NamedType, ParseType, ParseMembers;
    BracketNames();
    Begin("STRUCT", ["<"] + ts);
    ExpectFirst("<", ts);
  }

  lemma {:induction false} MembersStray(done: seq<Entry>, ts: seq<string>)
    requires WellNamed(done) && ParseMembers(ts) == PastEnd
    ensures ParseMembers(EntryTokens(done, true) + ts) == PastEnd
    decreases |done|
  {
    if done == [] {
      assert EntryTokens(done, true) + ts == ts;
    } else {
      hide ParseType, ParseMember, TokensOf;
      var more := EntryTokens(done[1..], true) + ts;
      var all := [done[0].name] + ([":"] + (TokensOf(done[0].ty) + ([","] + more)));
      assert EntryTokens(done, true) + ts == all;
      SpelledParses(done[0].ty, [","] + more);
      SpelledMember(done[0], [","], more);
      MembersStray(done[1..], ts);
    }
  }

  lemma MemberStrays(name: string, ts: seq<string>)
    requires name != ">" && (ParseType(ts) == PastEnd || (ParseType(ts).Parsed? && ParseType(ts).rest == []))
    ensures ParseMembers([name] + ([":"] + ts)) == PastEnd
  {
    hide ParseType;
    var all := [name] + ([":"] + ts);
    assert all[1..] == [":"] + ts;
    ExpectFirst(":", ts);
  }

  lemma AfterTypeStrays(name: string, ty: Spelling)
    requires name != ">" && WellSpelled(ty)
    ensures ParseMembers([name] + ([":"] + TokensOf(ty))) == PastEnd
  {
    hide ParseType, ParseMembers, TokensOf, TypeOf;
    assert TokensOf(ty) + [] == TokensOf(ty);
    SpelledParses(ty, []);
    MemberStrays(name, TokensOf(ty));
  }

  lemma {:induction false} OpenStrays(o: Open)
    requires WellOpened(o)
    ensures ParseType(OpenTokens(o)) == PastEnd
    decreases o
  {
    hide ParseType, ParseMembers, TokensOf, EntryTokens, WellSpelled, WellNamed;
    match o
    case InArray(i) =>
      OpenStrays(i);
      ArrayStrays(OpenTokens(i));
    case InKey(i) =>
      OpenStrays(i);
      KeyStrays(OpenTokens(i));
    case InValue(k, i) =>
      OpenStrays(i);
      ValueStrays(k, OpenTokens(i));
    case AtMember(done) =>
      NoTokenStrays(done);
      StructStrays(EntryTokens(done, true));
    case AfterType(done, name, ty) =>
      AfterTypeStrays(name, ty);
      MembersStray(done, [name] + ([":"] + TokensOf(ty)));
      StructStrays(EntryTokens(done, true) + ([name] + ([":"] + TokensOf(ty))));
    case InMember(done, name, i) =>
      OpenStrays(i);
      MemberStrays(name, OpenTokens(i));
      MembersStray(done, [name] + ([":"] + OpenTokens(i)));
      StructStrays(EntryTokens(done, true) + ([name] + ([":"] + OpenTokens(i))));
  }

  lemma NoTokenStrays(done: seq<Entry>)
    requires WellNamed(done)
    ensures ParseMembers(EntryTokens(done, true)) == PastEnd
  {
    assert ParseMembers([]) == PastEnd;
    MembersStray(done, []);
    hide EntryTokens, ParseMembers;
    assert EntryTokens(done, true) + [] == EntryTokens(done, true);
  }

  // ---------- when the parser strays, the spelling is open ----------

  predicate OpenedBy(o: Open, ts: seq<string>) {
    WellOpened(o) && ts == OpenTokens(o)
  }

  lemma {:induction false} StrayIsOpen(ts: seq<string>) returns (o: Open)
    requires ParseType(ts) == PastEnd
    ensures OpenedBy(o, ts)
    decreases |ts|, 3
  {
    hide NamedType, ParseArray, ParseMap, ParseStruct, OpenedBy;
    assert ts == [ts[0]] + ts[1..];
    match NamedType(ts[0]).value
    case Array(_) => o := ArrayIsOpen(ts[0], ts[1..]);
    case Map(_, _) => o := MapIsOpen(ts[0], ts[1..]);
    case Struct(_) => o := StructIsOpen(ts[0], ts[1..]);
    case _ => assert false;
  }

  lemma {:induction false} ArrayIsOpen(name: string, ts: seq<string>) returns (o: Open)
    requires NamedType(name).Some? && NamedType(name).value.Array? && ParseArray(ts) == PastEnd
    ensures OpenedBy(o, [name] + ts)
    decreases |ts|, 2
  {
    hide NamedType, ParseType;
    NamesOfComplexTypes(name);
    TokenFound(ts, "<");
    var i := StrayIsOpen(ts[1..]);
    o := InArray(i);
  }

  lemma {:induction false} MapIsOpen(name: string, ts: seq<string>) returns (o: Open)
    requires NamedType(name).Some? && NamedType(name).value.Map? && ParseMap(ts) == PastEnd
    ensures OpenedBy(o, [name] + ts)
    decreases |ts|, 2
  {
    hide NamedType, ParseType, TokensOf, WellSpelled;
    NamesOfComplexTypes(name);
    TokenFound(ts, "<");
    var ts1 := ts[1..];
    if ParseType(ts1) == PastEnd {
      var i := StrayIsOpen(ts1);
      o := InKey(i);
    } else {
      var k := TypeIsSpelled(ts1);
      var ts2 := ParseType(ts1).rest;
      TokenFound(ts2, ",");
      var i := StrayIsOpen(ts2[1..]);
      o := InValue(k, i);
    }
  }

  lemma {:induction false} StructIsOpen(name: string, ts: seq<string>) returns (o: Open)
    requires NamedType(name).Some? && NamedType(name).value.Struct? && ParseStruct(ts) == PastEnd
    ensures OpenedBy(o, [name] + ts)
    decreases |ts|, 2
  {
    hide NamedType, ParseMembers, TokensOf, WellSpelled, EntryTokens, WellNamed;
    NamesOfComplexTypes(name);
    TokenFound(ts, "<");
    o := MembersAreOpen(ts[1..]);
  }

  predicate IsStruct(o: Open) {
    o.AtMember? || o.AfterType? || o.InMember?
  }

  /** One more member before those of an open struct. */
  function WithEntry(e: Entry, o: Open): Open
    requires IsStruct(o)
  {
    match o
    case AtMember(done) => AtMember([e] + done)
    case AfterType(done, name, ty) => AfterType([e] + done, name, ty)
    case InMember(done, name, i) => InMember([e] + done, name, i)
  }

  lemma EntryBefore(e: Entry, done: seq<Entry>)
    ensures EntryTokens([e] + done, true) == [e.name] + ([":"] + (TokensOf(e.ty) + ([","] + EntryTokens(done, true))))
  {
    hide TokensOf;
    assert ([e] + done)[1..] == done;
  }

  /** The tokens of an open struct after its last comma. */
  function LastTokens(o: Open): seq<string>
    requires IsStruct(o)
  {
    match o
    case AtMember(_) => []
    case AfterType(_, name, ty) => [name] + ([":"] + TokensOf(ty))
    case InMember(_, name, i) => [name] + ([":"] + OpenTokens(i))
  }

  /** The tokens of an open struct after its name and bracket. */
  function InnerTokens(o: Open): seq<string>
    requires IsStruct(o)
  {
    EntryTokens(o.done, true) + LastTokens(o)
  }

  lemma StructTokens(o: Open)
    requires IsStruct(o)
    ensures OpenTokens(o) == ["STRUCT"] + (["<"] + InnerTokens(o))
    ensures |OpenTokens(o)| >= 2 && OpenTokens(o)[2..] == InnerTokens(o)
  {
    hide TokensOf, EntryTokens;
  }

  lemma LastStays(e: Entry, o: Open)
    requires IsStruct(o)
    ensures IsStruct(WithEntry(e, o)) && WithEntry(e, o).done == [e] + o.done && LastTokens(WithEntry(e, o)) == LastTokens(o)
  {
    hide TokensOf, OpenTokens;
  }

  lemma OneMoreTokens(e: Entry, o: Open)
    requires IsStruct(o)
    ensures IsStruct(WithEntry(e, o))
    ensures InnerTokens(WithEntry(e, o)) == [e.name] + ([":"] + (TokensOf(e.ty) + ([","] + InnerTokens(o))))
  {
    hide TokensOf, EntryTokens, OpenTokens, LastTokens, WithEntry;
    EntryBefore(e, o.done);
    LastStays(e, o);
  }

  lemma OneMoreIsWell(e: Entry, o: Open)
    requires IsStruct(o) && WellOpened(o) && e.name != ">" && WellSpelled(e.ty)
    ensures IsStruct(WithEntry(e, o)) && WellOpened(WithEntry(e, o))
  {
    hide WellSpelled;
    assert ([e] + o.done)[1..] == o.done;
  }

  lemma OneMoreEntry(e: Entry, o: Open, ts: seq<string>)
    requires IsStruct(o) && OpenedBy(o, ["STRUCT"] + (["<"] + ts)) && e.name != ">" && WellSpelled(e.ty)
    ensures IsStruct(WithEntry(e, o))
    ensures OpenedBy(WithEntry(e, o), ["STRUCT"] + (["<"] + ([e.name] + ([":"] + (TokensOf(e.ty) + ([","] + ts))))))
  {
    hide TokensOf, InnerTokens, OpenTokens, WellSpelled, WellOpened;
    OneMoreIsWell(e, o);
    OneMoreTokens(e, o);
    StructTokens(o);
    StructTokens(WithEntry(e, o));
    assert ts == (["STRUCT"] + (["<"] + ts))[2..] == InnerTokens(o);
  }

  lemma {:induction false} MembersAreOpen(ts: seq<string>) returns (o: Open)
    requires ParseMembers(ts) == PastEnd
    ensures IsStruct(o) && OpenedBy(o, ["STRUCT"] + (["<"] + ts))
    decreases |ts|, 1
  {
    hide TokensOf, WellSpelled, ParseMember;
    if ts == [] {
      o := AtMember([]);
    } else if ParseMember(ts) == PastEnd {
      o := MemberIsOpen(ts);
    } else {
      var e, sep := MemberIsSpelled(ts);
      var more := ParseMember(ts).rest;
      assert more != [] && more[0] == ">" ==> ParseMembers(more) == Parsed([], more);
      assert sep == [","];
      var o' := MembersAreOpen(more);
      hide OpenedBy;
      OneMoreEntry(e, o', more);
      o := WithEntry(e, o');
    }
  }

  lemma {:induction false} MemberIsOpen(ts: seq<string>) returns (o: Open)
    requires ts != [] && ts[0] != ">" && ParseMember(ts) == PastEnd
    ensures IsStruct(o) && OpenedBy(o, ["STRUCT"] + (["<"] + ts))
    decreases |ts|, 0
  {
    hide ParseType, TokensOf, WellSpelled, OpenTokens, EntryTokens;
    TokenFound(ts[1..], ":");
    var ts1 := ts[1..][1..];
    assert ts == [ts[0]] + ([":"] + ts1);
    if ParseType(ts1) == PastEnd {
      var i := StrayIsOpen(ts1);
      o := InMember([], ts[0], i);
      InFirstMember(ts[0], i);
    } else {
      var ty := TypeIsSpelled(ts1);
      o := AfterType([], ts[0], ty);
      assert TokensOf(ty) + [] == TokensOf(ty);
      AfterFirstType(ts[0], ty);
    }
  }

  lemma InFirstMember(name: string, i: Open)
    ensures OpenTokens(InMember([], name, i)) == ["STRUCT"] + (["<"] + ([name] + ([":"] + OpenTokens(i))))
  {
    assert EntryTokens([], true) == [];
    assert [] + ([name] + ([":"] + OpenTokens(i))) == [name] + ([":"] + OpenTokens(i));
  }

  lemma AfterFirstType(name: string, ty: Spelling)
    ensures OpenTokens(AfterType([], name, ty)) == ["STRUCT"] + (["<"] + ([name] + ([":"] + TokensOf(ty))))
  {
    hide TokensOf;
    assert EntryTokens([], true) == [];
    assert [] + ([name] + ([":"] + TokensOf(ty))) == [name] + ([":"] + TokensOf(ty));
  }

  /** The parser reads past the end exactly on the tokens of an open spelling. */
  lemma StraysIfOpen(ts: seq<string>)
    ensures ParseType(ts) == PastEnd <==> exists o :: OpenedBy(o, ts)
  {
    hide ParseType, OpenTokens, WellOpened;
    if ParseType(ts) == PastEnd {
      var o := StrayIsOpen(ts);
    }
    if o :| OpenedBy(o, ts) {
      OpenStrays(o);
    }
  }

  // ---------- a condition on the text ----------

  /** How many more opening than closing brackets there are. */
  function Depth(ts: seq<string>): int {
    if ts == [] then 0
    else Depth(ts[..|ts| - 1]) + Nesting(ts[|ts| - 1])
  }

  function Nesting(token: string): int {
    if token == "<" then 1 else if token == ">" then -1 else 0
  }

  lemma {:induction false} DepthAdds(a: seq<string>, b: seq<string>)
    ensures Depth(a + b) == Depth(a) + Depth(b)
    decreases |b|
  {
    hide Nesting;
    if b == [] {
      assert a + b == a;
    } else {
      assert (a + b)[..|a + b| - 1] == a + b[..|b| - 1];
      DepthAdds(a, b[..|b| - 1]);
    }
  }

  lemma DepthOne(token: string, ts: seq<string>)
    ensures Depth([token] + ts) == Nesting(token) + Depth(ts)
  {
    DepthAdds([token], ts);
    assert [token][..0] == [];
    assert Depth([token]) == Depth([]) + Nesting(token);
    assert Depth([]) == 0;
  }

  lemma DepthNone()
    ensures Depth([]) == 0
  {
  }

  lemma BracketsClose(name: string, inner: seq<string>)
    ensures Depth([name] + (["<"] + (inner + [">"]))) == Nesting(name) + Depth(inner)
  {
    assert Nesting("<") == 1 && Nesting(">") == -1;
    hide Nesting, Depth;
    DepthOne(name, ["<"] + (inner + [">"]));
    DepthOne("<", inner + [">"]);
    DepthAdds(inner, [">"]);
    DepthOne(">", []);
    DepthNone();
    assert [">"] + [] == [">"];
  }

  lemma NumbersAreFlat(n: string)
    requires IsInteger(n)
    ensures Nesting(n) == 0
  {
    hide Number;
    assert IsDigit(n[0]);
  }

  lemma LengthIsFlat(name: string, n: string)
    requires WellSpelled(WithLength(name, n))
    ensures Depth(TokensOf(WithLength(name, n))) == 0
  {
    NumbersAreFlat(n);
    assert Nesting(name) == Nesting("(") == Nesting(")") == 0;
    hide Nesting, Depth, IsInteger;
    DepthOne(name, ["("] + ([n] + [")"]));
    DepthOne("(", [n] + [")"]);
    DepthOne(n, [")"]);
    DepthOne(")", []);
    DepthNone();
    assert [")"] + [] == [")"];
  }

  lemma ScaleIsFlat(p: string, n: string)
    requires WellSpelled(WithScale(p, n))
    ensures Depth(TokensOf(WithScale(p, n))) == 0
  {
    NumbersAreFlat(p);
    NumbersAreFlat(n);
    assert Nesting("DECIMAL") == Nesting("(") == Nesting(")") == Nesting(",") == 0;
    hide Nesting, Depth, IsInteger;
    DepthOne("DECIMAL", ["("] + ([p] + ([","] + ([n] + [")"]))));
    DepthOne("(", [p] + ([","] + ([n] + [")"])));
    DepthOne(p, [","] + ([n] + [")"]));
    DepthOne(",", [n] + [")"]);
    DepthOne(n, [")"]);
    DepthOne(")", []);
    DepthNone();
    assert [")"] + [] == [")"];
  }

  lemma WordIsFlat(name: string)
    requires StandsAlone(name)
    ensures Depth([name]) == 0
  {
    NameOfDecimal(name);
    hide NamedType;
    DepthOne(name, []);
    assert [name] + [] == [name];
  }

  /** Names of members may be any token but ">", even "<". */
  lemma {:induction false} SpelledIsClosed(s: Spelling)
    requires WellSpelled(s)
    ensures Depth(TokensOf(s)) >= 0
    decreases s
  {
    assert Nesting("ARRAY") == Nesting("MAP") == Nesting("STRUCT") == Nesting(",") == 0;
    hide Depth, Nesting, NamedType, IsInteger, StandsAlone;
    match s
    case Word(name) => WordIsFlat(name);
    case WithLength(name, n) => LengthIsFlat(name, n);
    case WithScale(p, n) => ScaleIsFlat(p, n);
    case ArrayOf(e) =>
      SpelledIsClosed(e);
      BracketsClose("ARRAY", TokensOf(e));
    case MapOf(k, v) =>
      SpelledIsClosed(k);
      SpelledIsClosed(v);
      MapIsClosed(TokensOf(k), TokensOf(v));
    case StructOf(es, comma) =>
      EntriesAreClosed(es, comma);
      BracketsClose("STRUCT", EntryTokens(es, comma));
  }

  lemma MapIsClosed(ks: seq<string>, vs: seq<string>)
    ensures Depth(["MAP"] + (["<"] + (ks + ([","] + (vs + [">"]))))) == Depth(ks) + Depth(vs)
  {
    assert Nesting("MAP") == Nesting(",") == 0;
    hide Depth, Nesting;
    var inner := ks + ([","] + vs);
    DepthAdds(ks, [","] + vs);
    DepthOne(",", vs);
    BracketsClose("MAP", inner);
    assert ks + ([","] + (vs + [">"])) == inner + [">"];
  }

  lemma EntryDepth(name: string, ts: seq<string>)
    ensures Depth([name] + ([":"] + ts)) == Nesting(name) + Depth(ts)
  {
    assert Nesting(":") == 0;
    hide Depth, Nesting;
    DepthOne(name, [":"] + ts);
    DepthOne(":", ts);
  }

  lemma {:induction false} EntriesAreClosed(es: seq<Entry>, comma: bool)
    requires WellNamed(es)
    ensures Depth(EntryTokens(es, comma)) >= 0
    decreases es
  {
    if es != [] {
      assert Nesting(",") == 0 && Nesting(es[0].name) >= 0;
      hide Depth, Nesting, TokensOf;
      var sep := if |es| > 1 || comma then [","] else [];
      var more := EntryTokens(es[1..], comma);
      SpelledIsClosed(es[0].ty);
      EntriesAreClosed(es[1..], comma);
      EntryDepth(es[0].name, TokensOf(es[0].ty) + (sep + more));
      DepthAdds(TokensOf(es[0].ty), sep + more);
      DepthOne(",", more);
      assert [] + more == more;
    }
  }

  lemma OpensOne(name: string, inner: seq<string>)
    ensures Depth([name] + (["<"] + inner)) == Nesting(name) + 1 + Depth(inner)
  {
    assert Nesting("<") == 1;
    hide Depth, Nesting;
    DepthOne(name, ["<"] + inner);
    DepthOne("<", inner);
  }

  lemma {:induction false} OpenIsDeep(o: Open)
    requires WellOpened(o)
    ensures Depth(OpenTokens(o)) > 0
    decreases o
  {
    assert Nesting("ARRAY") == Nesting("MAP") == Nesting("STRUCT") == Nesting(",") == 0;
    assert o.AfterType? || o.InMember? ==> Nesting(o.name) >= 0;
    hide Depth, Nesting, TokensOf, EntryTokens, WellSpelled, WellNamed;
    match o
    case InArray(i) =>
      OpenIsDeep(i);
      OpensOne("ARRAY", OpenTokens(i));
    case InKey(i) =>
      OpenIsDeep(i);
      OpensOne("MAP", OpenTokens(i));
    case InValue(k, i) =>
      OpenIsDeep(i);
      SpelledIsClosed(k);
      OpensOne("MAP", TokensOf(k) + ([","] + OpenTokens(i)));
      DepthAdds(TokensOf(k), [","] + OpenTokens(i));
      DepthOne(",", OpenTokens(i));
    case AtMember(done) =>
      EntriesAreClosed(done, true);
      OpensOne("STRUCT", EntryTokens(done, true));
    case AfterType(done, name, ty) =>
      SpelledIsClosed(ty);
      MembersOpen(done, name, TokensOf(ty));
    case InMember(done, name, i) =>
      OpenIsDeep(i);
      MembersOpen(done, name, OpenTokens(i));
  }

  lemma MembersOpen(done: seq<Entry>, name: string, ts: seq<string>)
    requires WellNamed(done) && name != ">"
    ensures Depth(["STRUCT"] + (["<"] + (EntryTokens(done, true) + ([name] + ([":"] + ts))))) > Depth(ts)
  {
    assert Nesting("STRUCT") == 0 && Nesting(name) >= 0;
    hide Depth, Nesting, EntryTokens, WellNamed;
    EntriesAreClosed(done, true);
    OpensOne("STRUCT", EntryTokens(done, true) + ([name] + ([":"] + ts)));
    DepthAdds(EntryTokens(done, true), [name] + ([":"] + ts));
    EntryDepth(name, ts);
  }

  /** How many more `<` than `>` there are in a text. */
  function TextDepth(s: string): int {
    if s == "" then 0 else Nesting([s[0]]) + TextDepth(s[1..])
  }

  lemma {:induction false} TextDepthAdds(a: string, b: string)
    ensures TextDepth(a + b) == TextDepth(a) + TextDepth(b)
    decreases |a|
  {
    if a == "" {
      assert a + b == b;
    } else {
      assert (a + b)[1..] == a[1..] + b;
      TextDepthAdds(a[1..], b);
    }
  }

  lemma {:induction false} WordsAreFlat(s: string)
    requires AllWord(s)
    ensures TextDepth(s) == 0
    decreases |s|
  {
    if s != "" {
      assert IsWord(s[0]);
      WordsAreFlat(s[1..]);
    }
  }

  lemma {:induction false} TrimmedWord(s: string)
    requires AllWord(s)
    ensures AllWord(Trim(s)) && AllWord(Clean(s))
    decreases |s|
  {
    if s != "" && IsSpace(s[0]) {
      TrimmedWord(s[1..]);
    } else if s != "" && IsSpace(s[|s| - 1]) {
      TrimmedWord(s[..|s| - 1]);
    }
  }

  lemma NoMark(token: string)
    requires AllWord(token)
    ensures Nesting(token) == 0
  {
    assert token != "" ==> IsWord(token[0]);
  }

  lemma WordDepth(piece: string)
    requires AllWord(piece)
    ensures Nesting(Clean(piece)) == TextDepth(piece)
  {
    WordsAreFlat(piece);
    TrimmedWord(piece);
    NoMark(Clean(piece));
  }

  lemma MarkDepth(c: char)
    requires !IsWord(c)
    ensures Nesting(Clean([c])) == TextDepth([c])
  {
    assert !IsSpace([c][0]) && !IsSpace([c][|[c]| - 1]);
    assert Trim([c]) == [c];
    assert Upper([c]) == [c];
    assert [c][1..] == "";
    hide Trim, Upper, IsWord, Nesting;
  }

  lemma PieceDepth(piece: string)
    requires piece != "" && (|piece| == 1 || AllWord(piece))
    ensures Nesting(Clean(piece)) == TextDepth(piece)
  {
    hide Nesting, Clean, TextDepth, IsWord;
    if AllWord(piece) {
      WordDepth(piece);
    } else {
      MarkDepth(piece[0]);
      assert piece == [piece[0]];
    }
  }

  lemma TextSplits(s: string, n: nat)
    requires n <= |s|
    ensures TextDepth(s) == TextDepth(s[..n]) + TextDepth(s[n..])
  {
    hide TextDepth;
    TextDepthAdds(s[..n], s[n..]);
    assert s[..n] + s[n..] == s;
  }

  lemma FirstToken(s: string)
    requires s != ""
    ensures Tokens(s) == [Clean(s[..PieceEnd(s)])] + Tokens(s[PieceEnd(s)..])
    ensures Nesting(Clean(s[..PieceEnd(s)])) == TextDepth(s[..PieceEnd(s)])
  {
    PieceEndIsACut(s);
    hide PieceEnd, Clean, Nesting, TextDepth, CutBefore, AllWord;
    PieceDepth(s[..PieceEnd(s)]);
  }

  lemma NoText()
    ensures TextDepth("") == Depth(Tokens("")) == 0
  {
    DepthNone();
  }

  lemma {:induction false} TokensKeepDepth(s: string)
    ensures Depth(Tokens(s)) == TextDepth(s)
    decreases |s|
  {
    hide *;
    if s == "" {
      NoText();
    } else {
      var n := PieceEnd(s);
      FirstToken(s);
      TokensKeepDepth(s[n..]);
      TextSplits(s, n);
      DepthOne(Clean(s[..n]), Tokens(s[n..]));
    }
  }

  /** A text with at least as many `>` as `<` never makes the parser read past its end. */
  lemma ClosedTextDoesNotStray(infoString: string)
    requires TextDepth(infoString) <= 0
    ensures !ParseTypeInfoString(infoString).PastEnd?
  {
    hide ParseType, Tokens, TextDepth, Depth, OpenTokens;
    var ts := Tokens(infoString);
    TokensKeepDepth(infoString);
    if ParseType(ts) == PastEnd {
      var o := StrayIsOpen(ts);
      OpenIsDeep(o);
    }
  }
}
