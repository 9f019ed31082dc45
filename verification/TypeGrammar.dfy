/** What the type parser accepts, and when it reads past the end of its tokens, by a grammar that
    knows nothing of the parser. */
module TypeGrammar {
  import opened Bytes
  import opened ColumnTypes
  import opened Options
  import opened TypeTokens
  import opened TypeStrings

  /** How a type can be spelled. A comma may follow the last member of a struct. */
  datatype Spelling =
    | Word(name: string)
    | WithLength(name: string, length: string)
    | WithScale(precision: string, scale: string)
    | ArrayOf(elem: Spelling)
    | MapOf(key: Spelling, val: Spelling)
    | StructOf(entries: seq<Entry>, comma: bool)

  datatype Entry = Entry(name: string, ty: Spelling)

  function TokensOf(s: Spelling): seq<string>
    decreases s
  {
    match s
    case Word(name) => [name]
    case WithLength(name, n) => [name] + (["("] + ([n] + [")"]))
    case WithScale(p, n) => ["DECIMAL"] + (["("] + ([p] + ([","] + ([n] + [")"]))))
    case ArrayOf(e) => ["ARRAY"] + (["<"] + (TokensOf(e) + [">"]))
    case MapOf(k, v) => ["MAP"] + (["<"] + (TokensOf(k) + ([","] + (TokensOf(v) + [">"]))))
    case StructOf(es, comma) => ["STRUCT"] + (["<"] + (EntryTokens(es, comma) + [">"]))
  }

  function EntryTokens(es: seq<Entry>, comma: bool): seq<string>
    decreases es
  {
    if es == [] then []
    else
      [es[0].name] + ([":"] + (TokensOf(es[0].ty) +
      ((if |es| > 1 || comma then [","] else []) + EntryTokens(es[1..], comma))))
  }

  /** Digits of a number that fits 32 bits. */
  predicate IsInteger(n: string) {
    n != "" && AllDigits(n) && Number(n) <= 0x7FFF_FFFF
  }

  /** The names of types that need no brackets. */
  predicate StandsAlone(name: string) {
    match NamedType(name)
    case None => false
    case Some(t) => !t.IsComplex() && !t.Char? && !t.Varchar?
  }

  predicate WellSpelled(s: Spelling)
    decreases s
  {
    match s
    case Word(name) => StandsAlone(name)
    case WithLength(name, n) => (name == "CHAR" || name == "VARCHAR") && IsInteger(n)
    case WithScale(p, n) => IsInteger(p) && IsInteger(n)
    case ArrayOf(e) => WellSpelled(e)
    case MapOf(k, v) => WellSpelled(k) && WellSpelled(v)
    case StructOf(es, _) => es != [] && WellNamed(es)
  }

  predicate WellNamed(es: seq<Entry>)
    decreases es
  {
    es != [] ==> es[0].name != ">" && WellSpelled(es[0].ty) && WellNamed(es[1..])
  }

  function TypeOf(s: Spelling): Type
    requires WellSpelled(s)
    decreases s
  {
    match s
    case Word(name) => if name == "DECIMAL" then Decimal(54, 18) else NamedType(name).value
    case WithLength(name, n) => if name == "CHAR" then Char(Number(n)) else Varchar(Number(n))
    case WithScale(p, n) => Decimal(Number(p), Number(n))
    case ArrayOf(e) => Array(TypeOf(e))
    case MapOf(k, v) => Map(TypeOf(k), TypeOf(v))
    case StructOf(es, _) => Struct(MembersOf(es))
  }

  function MembersOf(es: seq<Entry>): seq<Member>
    requires WellNamed(es)
    decreases es
  {
    if es == [] then [] else [Member(es[0].name, TypeOf(es[0].ty))] + MembersOf(es[1..])
  }

  /** A decimal without brackets must not have an opening bracket after it. */
  predicate MayPrecede(s: Spelling, rest: seq<string>) {
    s == Word("DECIMAL") ==> Closed(rest)
  }

  // ---------- what is spelled by the grammar is parsed ----------

  lemma BracketNames()
    ensures NamedType("ARRAY") == Some(Array(BigInt)) && NamedType("MAP") == Some(Map(BigInt, BigInt))
    ensures NamedType("STRUCT") == Some(Struct([])) && NamedType("DECIMAL") == Some(Decimal(0, 0))
    ensures NamedType("CHAR") == Some(Char(0)) && NamedType("VARCHAR") == Some(Varchar(0))
  {
  }

  lemma NamesOfComplexTypes(name: string)
    ensures NamedType(name).Some? && NamedType(name).value.Array? ==> name == "ARRAY"
    ensures NamedType(name).Some? && NamedType(name).value.Map? ==> name == "MAP"
    ensures NamedType(name).Some? && NamedType(name).value.Struct? ==> name == "STRUCT"
  {
  }

  lemma NamesOfTexts(name: string)
    ensures NamedType(name).Some? && NamedType(name).value.Char? ==> name == "CHAR"
    ensures NamedType(name).Some? && NamedType(name).value.Varchar? ==> name == "VARCHAR"
  {
  }

  lemma NameOfDecimal(name: string)
    ensures NamedType(name).Some? && NamedType(name).value.Decimal? ==> name == "DECIMAL"
    ensures NamedType(">").None? && NamedType("<").None?
  {
  }

  lemma Begin(name: string, ts: seq<string>)
    requires NamedType(name).Some?
    ensures ParseType([name] + ts) == ParseBody(NamedType(name).value, ts)
  {
    hide NamedType, ParseBody;
    assert ([name] + ts)[1..] == ts;
  }

  lemma ExpectFirst(t: string, ts: seq<string>)
    ensures ExpectToken([t] + ts, t) == Parsed((), ts)
  {
    assert ([t] + ts)[1..] == ts;
  }

  lemma ExpectNumber(n: string, ts: seq<string>)
    requires IsInteger(n)
    ensures ExpectInteger([n] + ts) == Parsed(Number(n), ts)
  {
    assert ([n] + ts)[1..] == ts;
  }

  lemma SpelledLength(n: string, rest: seq<string>)
    requires IsInteger(n)
    ensures ParseLength(["("] + ([n] + ([")"] + rest))) == Parsed(Number(n), rest)
  {
    ExpectFirst("(", [n] + ([")"] + rest));
    ExpectNumber(n, [")"] + rest);
    ExpectFirst(")", rest);
  }

  lemma SpelledScale(p: string, n: string, rest: seq<string>)
    requires IsInteger(p) && IsInteger(n)
    ensures ParseDecimal(["("] + ([p] + ([","] + ([n] + ([")"] + rest))))) == Parsed(Decimal(Number(p), Number(n)), rest)
  {
    hide ExpectInteger, IsInteger;
    ExpectFirst("(", [p] + ([","] + ([n] + ([")"] + rest))));
    ExpectNumber(p, [","] + ([n] + ([")"] + rest)));
    ExpectFirst(",", [n] + ([")"] + rest));
    ExpectNumber(n, [")"] + rest);
    ExpectFirst(")", rest);
  }

  lemma SpelledArray(e: Spelling, rest: seq<string>)
    requires WellSpelled(e) && ParseType(TokensOf(e) + ([">"] + rest)) == Parsed(TypeOf(e), [">"] + rest)
    ensures ParseArray(["<"] + (TokensOf(e) + ([">"] + rest))) == Parsed(Array(TypeOf(e)), rest)
  {
    hide ParseType, TokensOf, TypeOf;
    ExpectFirst("<", TokensOf(e) + ([">"] + rest));
    ExpectFirst(">", rest);
  }

  lemma SpelledMap(k: Spelling, v: Spelling, rest: seq<string>)
    requires WellSpelled(k) && WellSpelled(v)
    requires ParseType(TokensOf(v) + ([">"] + rest)) == Parsed(TypeOf(v), [">"] + rest)
    requires var more := [","] + (TokensOf(v) + ([">"] + rest)); ParseType(TokensOf(k) + more) == Parsed(TypeOf(k), more)
    ensures ParseMap(["<"] + (TokensOf(k) + ([","] + (TokensOf(v) + ([">"] + rest))))) == Parsed(Map(TypeOf(k), TypeOf(v)), rest)
  {
    hide ParseType, TokensOf, TypeOf;
    ExpectFirst("<", TokensOf(k) + ([","] + (TokensOf(v) + ([">"] + rest))));
    ExpectFirst(",", TokensOf(v) + ([">"] + rest));
    ExpectFirst(">", rest);
  }

  lemma SpelledStruct(es: seq<Entry>, comma: bool, rest: seq<string>)
    requires es != [] && WellNamed(es)
    requires ParseMembers(EntryTokens(es, comma) + ([">"] + rest)) == Parsed(MembersOf(es), [">"] + rest)
    ensures ParseStruct(["<"] + (EntryTokens(es, comma) + ([">"] + rest))) == Parsed(Struct(MembersOf(es)), rest)
  {
    assert MembersOf(es) != [];
    hide ParseMembers, EntryTokens, MembersOf;
    ExpectFirst("<", EntryTokens(es, comma) + ([">"] + rest));
    ExpectFirst(">", rest);
  }

  lemma SpelledWord(name: string, rest: seq<string>)
    requires StandsAlone(name) && MayPrecede(Word(name), rest)
    ensures ParseType([name] + rest) == Parsed(TypeOf(Word(name)), rest)
  {
    Begin(name, rest);
    NameOfDecimal(name);
    hide ParseType;
  }

  lemma SpelledWithLength(name: string, n: string, rest: seq<string>)
    requires WellSpelled(WithLength(name, n))
    ensures ParseType(TokensOf(WithLength(name, n)) + rest) == Parsed(TypeOf(WithLength(name, n)), rest)
  {
    hide NamedType, ParseType, ParseLength, IsInteger, ExpectInteger;
    BracketNames();
    SpelledLength(n, rest);
    Begin(name, ["("] + ([n] + ([")"] + rest)));
    assert TokensOf(WithLength(name, n)) + rest == [name] + (["("] + ([n] + ([")"] + rest)));
  }

  lemma SpelledWithScale(p: string, n: string, rest: seq<string>)
    requires WellSpelled(WithScale(p, n))
    ensures ParseType(TokensOf(WithScale(p, n)) + rest) == Parsed(TypeOf(WithScale(p, n)), rest)
  {
    hide NamedType, ParseType, ParseDecimal, IsInteger, ExpectInteger;
    BracketNames();
    SpelledScale(p, n, rest);
    Begin("DECIMAL", ["("] + ([p] + ([","] + ([n] + ([")"] + rest)))));
    assert TokensOf(WithScale(p, n)) + rest == ["DECIMAL"] + (["("] + ([p] + ([","] + ([n] + ([")"] + rest)))));
  }

  lemma BracketBegins(name: string, inner: seq<string>, rest: seq<string>)
    requires NamedType(name).Some?
    ensures ParseType([name] + (["<"] + (inner + [">"])) + rest) ==
            ParseBody(NamedType(name).value, ["<"] + (inner + ([">"] + rest)))
  {
    hide NamedType, ParseType, ParseBody;
    Begin(name, ["<"] + (inner + ([">"] + rest)));
    assert [name] + (["<"] + (inner + [">"])) + rest == [name] + (["<"] + (inner + ([">"] + rest)));
  }

  lemma SpelledArrayType(e: Spelling, rest: seq<string>)
    requires WellSpelled(e) && ParseType(TokensOf(e) + ([">"] + rest)) == Parsed(TypeOf(e), [">"] + rest)
    ensures ParseType(TokensOf(ArrayOf(e)) + rest) == Parsed(TypeOf(ArrayOf(e)), rest)
  {
    hide NamedType, ParseType, ParseArray;
    BracketNames();
    SpelledArray(e, rest);
    BracketBegins("ARRAY", TokensOf(e), rest);
  }

  lemma SpelledMapType(k: Spelling, v: Spelling, rest: seq<string>)
    requires WellSpelled(k) && WellSpelled(v)
    requires ParseType(TokensOf(v) + ([">"] + rest)) == Parsed(TypeOf(v), [">"] + rest)
    requires var more := [","] + (TokensOf(v) + ([">"] + rest)); ParseType(TokensOf(k) + more) == Parsed(TypeOf(k), more)
    ensures ParseType(TokensOf(MapOf(k, v)) + rest) == Parsed(TypeOf(MapOf(k, v)), rest)
  {
    hide NamedType, ParseType, ParseMap;
    BracketNames();
    SpelledMap(k, v, rest);
    var inner := TokensOf(k) + ([","] + TokensOf(v));
    BracketBegins("MAP", inner, rest);
    assert TokensOf(MapOf(k, v)) == ["MAP"] + (["<"] + (inner + [">"]));
    assert inner + ([">"] + rest) == TokensOf(k) + ([","] + (TokensOf(v) + ([">"] + rest)));
  }

  lemma SpelledStructType(es: seq<Entry>, comma: bool, rest: seq<string>)
    requires es != [] && WellNamed(es)
    requires ParseMembers(EntryTokens(es, comma) + ([">"] + rest)) == Parsed(MembersOf(es), [">"] + rest)
    ensures ParseType(TokensOf(StructOf(es, comma)) + rest) == Parsed(TypeOf(StructOf(es, comma)), rest)
  {
    hide NamedType, ParseType, ParseStruct, EntryTokens, MembersOf, WellNamed, ParseMembers;
    BracketNames();
    SpelledStruct(es, comma, rest);
    BracketBegins("STRUCT", EntryTokens(es, comma), rest);
  }

  lemma {:induction false} SpelledParses(s: Spelling, rest: seq<string>)
    requires WellSpelled(s) && MayPrecede(s, rest)
    ensures ParseType(TokensOf(s) + rest) == Parsed(TypeOf(s), rest)
    decreases s
  {
    hide NamedType, ParseType, ParseArray, ParseMap, ParseStruct, ParseLength, ParseDecimal, StandsAlone, IsInteger, MembersOf;
    match s
    case Word(name) => SpelledWord(name, rest);
    case WithLength(name, n) => SpelledWithLength(name, n, rest);
    case WithScale(p, n) => SpelledWithScale(p, n, rest);
    case ArrayOf(e) =>
      SpelledParses(e, [">"] + rest);
      SpelledArrayType(e, rest);
    case MapOf(k, v) =>
      SpelledParses(v, [">"] + rest);
      SpelledParses(k, [","] + (TokensOf(v) + ([">"] + rest)));
      SpelledMapType(k, v, rest);
    case StructOf(es, comma) =>
      SpelledMembers(es, comma, [">"] + rest);
      SpelledStructType(es, comma, rest);
  }

  lemma {:induction false} SpelledMembers(es: seq<Entry>, comma: bool, rest: seq<string>)
    requires WellNamed(es) && rest != [] && rest[0] == ">"
    ensures ParseMembers(EntryTokens(es, comma) + rest) == Parsed(MembersOf(es), rest)
    decreases es
  {
    hide ParseMembers, ParseMember, ParseType, TokensOf, EntryTokens, MembersOf;
    if es == [] {
      NoMembers(comma, rest);
    } else {
      var more := EntryTokens(es[1..], comma) + rest;
      var sep := if |es| > 1 || comma then [","] else [];
      EntriesBegin(es, comma, rest);
      SpelledParses(es[0].ty, sep + more);
      SpelledMembers(es[1..], comma, rest);
      SpelledMember(es[0], sep, more);
      OneMemberMore(es, EntryTokens(es, comma) + rest, more, rest);
    }
  }

  lemma NoMembers(comma: bool, rest: seq<string>)
    requires rest != [] && rest[0] == ">"
    ensures ParseMembers(EntryTokens([], comma) + rest) == Parsed(MembersOf([]), rest)
  {
    assert EntryTokens([], comma) + rest == rest;
  }

  lemma EntriesBegin(es: seq<Entry>, comma: bool, rest: seq<string>)
    requires es != []
    ensures var more := EntryTokens(es[1..], comma) + rest;
      var sep := if |es| > 1 || comma then [","] else [];
      && EntryTokens(es, comma) + rest == [es[0].name] + ([":"] + (TokensOf(es[0].ty) + (sep + more)))
      && (sep == [] ==> more == rest)
  {
    hide TokensOf;
    if |es| == 1 && !comma {
      assert EntryTokens(es[1..], comma) + rest == rest;
    }
  }

  lemma OneMemberMore(es: seq<Entry>, ts: seq<string>, more: seq<string>, rest: seq<string>)
    requires es != [] && WellNamed(es) && ts != [] && ts[0] == es[0].name
    requires ParseMember(ts) == Parsed(Member(es[0].name, TypeOf(es[0].ty)), more)
    requires ParseMembers(more) == Parsed(MembersOf(es[1..]), rest)
    ensures ParseMembers(ts) == Parsed(MembersOf(es), rest)
  {
    hide ParseMember, TypeOf;
  }

  lemma SpelledMember(e: Entry, sep: seq<string>, more: seq<string>)
    requires WellSpelled(e.ty) && ParseType(TokensOf(e.ty) + (sep + more)) == Parsed(TypeOf(e.ty), sep + more)
    requires sep == [","] || (sep == [] && more != [] && more[0] == ">")
    ensures ParseMember([e.name] + ([":"] + (TokensOf(e.ty) + (sep + more)))) == Parsed(Member(e.name, TypeOf(e.ty)), more)
  {
    hide ParseType, TokensOf, TypeOf, WellSpelled;
    var ts := [e.name] + ([":"] + (TokensOf(e.ty) + (sep + more)));
    assert ts[1..] == [":"] + (TokensOf(e.ty) + (sep + more));
    ExpectFirst(":", TokensOf(e.ty) + (sep + more));
    if sep == [","] {
      ExpectFirst(",", more);
    } else {
      assert sep + more == more;
    }
  }

  // ---------- what is parsed is spelled by the grammar ----------

  lemma TokenFound(ts: seq<string>, t: string)
    requires ExpectToken(ts, t).Parsed?
    ensures ts == [t] + ExpectToken(ts, t).rest
  {
  }

  lemma NumberFound(ts: seq<string>)
    requires ExpectInteger(ts).Parsed?
    ensures IsInteger(ts[0]) && ts == [ts[0]] + ExpectInteger(ts).rest && ExpectInteger(ts).value == Number(ts[0])
  {
  }

  lemma LengthIsSpelled(ts: seq<string>) returns (n: string)
    requires ParseLength(ts).Parsed?
    ensures IsInteger(n) && ParseLength(ts).value == Number(n) && ts == ["("] + ([n] + ([")"] + ParseLength(ts).rest))
  {
    hide ExpectInteger, IsInteger, Number;
    TokenFound(ts, "(");
    var ts1 := ts[1..];
    NumberFound(ts1);
    n := ts1[0];
    TokenFound(ExpectInteger(ts1).rest, ")");
  }

  lemma ScaleIsSpelled(ts: seq<string>) returns (p: string, n: string)
    requires ParseDecimal(ts).Parsed? && ts != [] && ts[0] == "("
    ensures IsInteger(p) && IsInteger(n) && ParseDecimal(ts).value == Decimal(Number(p), Number(n))
    ensures ts == ["("] + ([p] + ([","] + ([n] + ([")"] + ParseDecimal(ts).rest))))
  {
    hide ExpectInteger, IsInteger, Number;
    TokenFound(ts, "(");
    var ts1 := ts[1..];
    NumberFound(ts1);
    p := ts1[0];
    var ts2 := ExpectInteger(ts1).rest;
    TokenFound(ts2, ",");
    var ts3 := ts2[1..];
    NumberFound(ts3);
    n := ts3[0];
    TokenFound(ExpectInteger(ts3).rest, ")");
  }

  /** The tokens begin with this spelling of the type that was parsed. */
  predicate SpelledBy(s: Spelling, ts: seq<string>, t: Type, rest: seq<string>) {
    WellSpelled(s) && TypeOf(s) == t && ts == TokensOf(s) + rest && MayPrecede(s, rest)
  }

  lemma {:induction false} TypeIsSpelled(ts: seq<string>) returns (s: Spelling)
    requires ParseType(ts).Parsed?
    ensures SpelledBy(s, ts, ParseType(ts).value, ParseType(ts).rest)
    decreases |ts|, 3
  {
    hide NamedType, ParseBody;
    var t := NamedType(ts[0]).value;
    s := BodyIsSpelled(ts[0], ts[1..]);
    assert ts == [ts[0]] + ts[1..];
  }

  lemma {:induction false} BodyIsSpelled(name: string, ts: seq<string>) returns (s: Spelling)
    requires NamedType(name).Some? && ParseBody(NamedType(name).value, ts).Parsed?
    ensures var p := ParseBody(NamedType(name).value, ts); SpelledBy(s, [name] + ts, p.value, p.rest)
    decreases |ts|, 3
  {
    hide NamedType, ParseLength, ParseDecimal, ParseArray, ParseMap, ParseStruct, SpelledBy;
    match NamedType(name).value
    case Decimal(_, _) => s := DecimalIsSpelled(name, ts);
    case Char(_) => s := TextIsSpelled(name, ts);
    case Varchar(_) => s := TextIsSpelled(name, ts);
    case Array(_) => s := ArrayIsSpelled(name, ts);
    case Map(_, _) => s := MapIsSpelled(name, ts);
    case Struct(_) => s := StructIsSpelled(name, ts);
    case _ => s := WordIsSpelled(name, ts);
  }

  lemma WordIsSpelled(name: string, ts: seq<string>) returns (s: Spelling)
    requires StandsAlone(name) && !NamedType(name).value.Decimal?
    ensures SpelledBy(s, [name] + ts, NamedType(name).value, ts)
  {
    BracketNames();
    hide NamedType;
    s := Word(name);
  }

  lemma DecimalIsSpelled(name: string, ts: seq<string>) returns (s: Spelling)
    requires NamedType(name).Some? && NamedType(name).value.Decimal? && ParseDecimal(ts).Parsed?
    ensures SpelledBy(s, [name] + ts, ParseDecimal(ts).value, ParseDecimal(ts).rest)
  {
    hide NamedType, ExpectInteger, IsInteger, Number;
    NameOfDecimal(name);
    if Closed(ts) {
      s := Word(name);
    } else {
      var (p, n) := ("", "");
      p, n := ScaleIsSpelled(ts);
      hide ParseDecimal;
      s := WithScale(p, n);
      assert TokensOf(s) + ParseDecimal(ts).rest == ["DECIMAL"] + ts;
    }
  }

  lemma TextIsSpelled(name: string, ts: seq<string>) returns (s: Spelling)
    requires NamedType(name).Some? && (NamedType(name).value.Char? || NamedType(name).value.Varchar?) && ParseLength(ts).Parsed?
    ensures var n := ParseLength(ts).value;
      SpelledBy(s, [name] + ts, if NamedType(name).value.Char? then Char(n) else Varchar(n), ParseLength(ts).rest)
  {
    hide NamedType, ParseLength, IsInteger, Number;
    BracketNames();
    NamesOfTexts(name);
    var n := LengthIsSpelled(ts);
    s := WithLength(name, n);
    assert TokensOf(s) + ParseLength(ts).rest == [name] + ts;
  }

  lemma {:induction false} ArrayIsSpelled(name: string, ts: seq<string>) returns (s: Spelling)
    requires NamedType(name).Some? && NamedType(name).value.Array? && ParseArray(ts).Parsed?
    ensures SpelledBy(s, [name] + ts, ParseArray(ts).value, ParseArray(ts).rest)
    decreases |ts|, 2
  {
    hide NamedType, ParseType, MayPrecede;
    NamesOfComplexTypes(name);
    TokenFound(ts, "<");
    var ts1 := ts[1..];
    var e := TypeIsSpelled(ts1);
    TokenFound(ParseType(ts1).rest, ">");
    s := ArrayOf(e);
    assert TokensOf(s) + ParseArray(ts).rest == ["ARRAY"] + ts;
    assert MayPrecede(s, ParseArray(ts).rest) by { NotAWord(s, ParseArray(ts).rest); }
  }

  lemma NotAWord(s: Spelling, rest: seq<string>)
    requires !s.Word?
    ensures MayPrecede(s, rest)
  {
  }

  lemma {:induction false} MapIsSpelled(name: string, ts: seq<string>) returns (s: Spelling)
    requires NamedType(name).Some? && NamedType(name).value.Map? && ParseMap(ts).Parsed?
    ensures SpelledBy(s, [name] + ts, ParseMap(ts).value, ParseMap(ts).rest)
    decreases |ts|, 2
  {
    hide NamedType, ParseType, MayPrecede;
    NamesOfComplexTypes(name);
    TokenFound(ts, "<");
    var ts1 := ts[1..];
    var k := TypeIsSpelled(ts1);
    var ts2 := ParseType(ts1).rest;
    TokenFound(ts2, ",");
    var v := TypeIsSpelled(ts2[1..]);
    TokenFound(ParseType(ts2[1..]).rest, ">");
    s := MapOf(k, v);
    assert TokensOf(s) + ParseMap(ts).rest == ["MAP"] + ts;
    NotAWord(s, ParseMap(ts).rest);
  }

  lemma {:induction false} StructIsSpelled(name: string, ts: seq<string>) returns (s: Spelling)
    requires NamedType(name).Some? && NamedType(name).value.Struct? && ParseStruct(ts).Parsed?
    ensures SpelledBy(s, [name] + ts, ParseStruct(ts).value, ParseStruct(ts).rest)
    decreases |ts|, 2
  {
    hide NamedType, ParseMembers, MayPrecede, WellNamed, EntryTokens;
    NamesOfComplexTypes(name);
    TokenFound(ts, "<");
    var ts1 := ts[1..];
    var es, comma := MembersAreSpelled(ts1);
    TokenFound(ParseMembers(ts1).rest, ">");
    s := StructOf(es, comma);
    assert TokensOf(s) + ParseStruct(ts).rest == ["STRUCT"] + ts;
    NotAWord(s, ParseStruct(ts).rest);
  }

  lemma {:induction false} MembersAreSpelled(ts: seq<string>) returns (es: seq<Entry>, comma: bool)
    requires ParseMembers(ts).Parsed?
    ensures var p := ParseMembers(ts);
      && WellNamed(es) && MembersOf(es) == p.value && ts == EntryTokens(es, comma) + p.rest
      && p.rest != [] && p.rest[0] == ">"
    decreases |ts|, 1
  {
    if ts[0] == ">" {
      es, comma := [], false;
    } else {
      var e, sep := MemberIsSpelled(ts);
      var more := ParseMember(ts).rest;
      hide ParseMember, TokensOf, EntryTokens, WellSpelled, TypeOf;
      var es', comma';
      es', comma' := MembersAreSpelled(more);
      es, comma := [e] + es', if es' == [] then sep == [","] else comma';
      assert es[1..] == es';
      FirstEntry(e, sep, es', comma', ParseMembers(ts).rest);
    }
  }

  lemma FirstEntry(e: Entry, sep: seq<string>, es: seq<Entry>, comma: bool, rest: seq<string>)
    requires sep == [","] || (sep == [] && es == [])
    ensures EntryTokens([e] + es, if es == [] then sep == [","] else comma) + rest ==
            [e.name] + ([":"] + (TokensOf(e.ty) + (sep + (EntryTokens(es, comma) + rest))))
  {
    hide TokensOf;
    var comma' := if es == [] then sep == [","] else comma;
    assert ([e] + es)[1..] == es;
    assert EntryTokens(es, comma') == EntryTokens(es, comma);
  }

  lemma {:induction false} MemberIsSpelled(ts: seq<string>) returns (e: Entry, sep: seq<string>)
    requires ts != [] && ts[0] != ">" && ParseMember(ts).Parsed?
    ensures var p := ParseMember(ts);
      && e.name != ">" && WellSpelled(e.ty) && p.value == Member(e.name, TypeOf(e.ty))
      && ts == [e.name] + ([":"] + (TokensOf(e.ty) + (sep + p.rest)))
      && (sep == [","] || (sep == [] && p.rest != [] && p.rest[0] == ">"))
    decreases |ts|, 0
  {
    hide ParseType, MayPrecede, TokensOf, WellSpelled, TypeOf;
    TokenFound(ts[1..], ":");
    var ts1 := ts[1..][1..];
    var ty := TypeIsSpelled(ts1);
    var ts2 := ParseType(ts1).rest;
    e := Entry(ts[0], ty);
    if ts2[0] == ">" {
      sep := [];
      assert sep + ts2 == ts2;
    } else {
      TokenFound(ts2, ",");
      sep := [","];
    }
  }

  /** The parser accepts exactly what the grammar spells, and takes it for the type so spelled. */
  lemma ParserMeetsGrammar(ts: seq<string>, t: Type, rest: seq<string>)
    ensures ParseType(ts) == Parsed(t, rest) <==> exists s :: SpelledBy(s, ts, t, rest)
  {
    hide ParseType, TokensOf, TypeOf, WellSpelled;
    if ParseType(ts) == Parsed(t, rest) {
      var s := TypeIsSpelled(ts);
    }
    if s :| SpelledBy(s, ts, t, rest) {
      SpelledParses(s, rest);
    }
  }
}
