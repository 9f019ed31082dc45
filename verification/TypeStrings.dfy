/** Types written as text: the printer, the parser, and exactly which types survive being printed
    and parsed again. */
module TypeStrings {
  import opened Bytes
  import opened ColumnTypes
  import opened Options
  import opened TypeTokens

  // ---------- printing ----------

  function TypeName(t: Type): string {
    match t
    case BigInt => "BIGINT"
    case Double => "DOUBLE"
    case Boolean => "BOOLEAN"
    case DateTime => "DATETIME"
    case String => "STRING"
    case Decimal(_, _) => "DECIMAL"
    case TinyInt => "TINYINT"
    case SmallInt => "SMALLINT"
    case Integer => "INT"
    case Char(_) => "CHAR"
    case Varchar(_) => "VARCHAR"
    case Binary => "BINARY"
    case Date => "DATE"
    case Timestamp => "TIMESTAMP"
    case TimestampNtz => "TIMESTAMP_NTZ"
    case Float => "FLOAT"
    case IntervalYearMonth => "INTERVAL_YEAR_MONTH"
    case IntervalDayTime => "INTERVAL_DAY_TIME"
    case Map(_, _) => "MAP"
    case Array(_) => "ARRAY"
    case Struct(_) => "STRUCT"
    case Json => "JSON"
  }

  function Digit(d: nat): char
    requires d < 10
  {
    ('0' as int + d) as char
  }

  function Digits(n: nat): (s: string)
    ensures s != "" && forall i | 0 <= i < |s| :: IsDigit(s[i])
  {
    if n < 10 then [Digit(n)] else Digits(n / 10) + [Digit(n % 10)]
  }

  function ToString(n: int): string {
    if n < 0 then "-" + Digits(-n) else Digits(n)
  }

  function Then(a: Option<string>, b: Option<string>): Option<string> {
    if a.Some? && b.Some? then Some(a.value + b.value) else None
  }

  /** Throws for a struct without members, wherever it occurs. */
  function ToTypeString(t: Type): Option<string>
    decreases t, 0
  {
    match t
    case Decimal(p, s) =>
      Some(if p != 0 || s != 0 then "DECIMAL" + ("(" + (ToString(p) + ("," + (ToString(s) + ")")))) else "DECIMAL")
    case Char(n) => Some("CHAR" + ("(" + (ToString(n) + ")")))
    case Varchar(n) => Some("VARCHAR" + ("(" + (ToString(n) + ")")))
    case Array(e) => Then(Some("ARRAY" + "<"), Then(ToTypeString(e), Some(">")))
    case Map(k, v) => Then(Some("MAP" + "<"), Then(Then(ToTypeString(k), Then(Some(","), ToTypeString(v))), Some(">")))
    case Struct(ms) => if ms == [] then None else Then(Some("STRUCT" + "<"), Then(MemberStrings(ms), Some(">")))
    case _ => Some(TypeName(t))
  }

  /** The names of the members are not printed. */
  function MemberStrings(ms: seq<Member>): Option<string>
    requires ms != []
    decreases ms, 1
  {
    if |ms| == 1 then ToTypeString(ms[0].ty)
    else Then(ToTypeString(ms[0].ty), Then(Some(","), MemberStrings(ms[1..])))
  }

  // ---------- parsing ----------

  /** How parsing ends: with a value and the tokens after it, with an exception, or by reading past
      the end of the token list, which C++ leaves undefined. */
  datatype Parse<+T> = Parsed(value: T, rest: seq<string>) | Corrupted | PastEnd
  {
    predicate IsFailure() {
      !Parsed?
    }

    function PropagateFailure<U>(): Parse<U>
      requires IsFailure()
    {
      if Corrupted? then Corrupted else PastEnd
    }

    function Extract(): (T, seq<string>)
      requires Parsed?
    {
      (value, rest)
    }
  }

  /** The type that a name stands for, without what is in brackets. */
  function NamedType(token: string): Option<Type> {
    if token == "BIGINT" then Some(BigInt)
    else if token == "DOUBLE" then Some(Double)
    else if token == "BOOLEAN" then Some(Boolean)
    else if token == "DATETIME" then Some(DateTime)
    else if token == "STRING" then Some(String)
    else if token == "DECIMAL" then Some(Decimal(0, 0))
    else if token == "TINYINT" then Some(TinyInt)
    else if token == "SMALLINT" then Some(SmallInt)
    else if token == "INT" then Some(Integer)
    else if token == "CHAR" then Some(Char(0))
    else if token == "VARCHAR" then Some(Varchar(0))
    else if token == "BINARY" then Some(Binary)
    else if token == "DATE" then Some(Date)
    else if token == "TIMESTAMP" then Some(Timestamp)
    else if token == "TIMESTAMP_NTZ" then Some(TimestampNtz)
    else if token == "FLOAT" then Some(Float)
    else if token == "INTERVAL_YEAR_MONTH" then Some(IntervalYearMonth)
    else if token == "INTERVAL_DAY_TIME" then Some(IntervalDayTime)
    else if token == "ARRAY" then Some(Array(BigInt))
    else if token == "MAP" then Some(Map(BigInt, BigInt))
    else if token == "STRUCT" then Some(Struct([]))
    else if token == "JSON" then Some(Json)
    else None
  }

  predicate AllDigits(s: string) {
    forall i | 0 <= i < |s| :: IsDigit(s[i])
  }

  function Number(s: string): nat
    requires AllDigits(s)
  {
    if s == "" then 0 else Number(s[..|s| - 1]) * 10 + (s[|s| - 1] as int - '0' as int)
  }

  /** A sign is a token of its own, so what stands here is digits or nothing that can be read. */
  function ExpectInteger(ts: seq<string>): (r: Parse<Int32>)
    ensures r.Parsed? ==> |r.rest| < |ts|
  {
    if ts == [] || ts[0] == "" || !AllDigits(ts[0]) || Number(ts[0]) > 0x7FFF_FFFF then Corrupted
    else Parsed(Number(ts[0]), ts[1..])
  }

  function ExpectToken(ts: seq<string>, t: string): (r: Parse<()>)
    ensures r.Parsed? <==> ts != [] && ts[0] == t
    ensures r.Parsed? ==> r.rest == ts[1..]
  {
    if ts == [] || ts[0] != t then Corrupted else Parsed((), ts[1..])
  }

  function ParseLength(ts: seq<string>): (r: Parse<Int32>)
    ensures r.Parsed? ==> |r.rest| <= |ts|
  {
    var (_, ts1) :- ExpectToken(ts, "(");
    var (n, ts2) :- ExpectInteger(ts1);
    var (_, ts3) :- ExpectToken(ts2, ")");
    Parsed(n, ts3)
  }

  /** Without brackets this is a decimal of the legacy kind. */
  function ParseDecimal(ts: seq<string>): (r: Parse<Type>)
    ensures r.Parsed? ==> |r.rest| <= |ts|
  {
    if ExpectToken(ts, "(").IsFailure() then Parsed(Decimal(54, 18), ts)
    else
      var (precision, ts1) :- ExpectInteger(ts[1..]);
      var (_, ts2) :- ExpectToken(ts1, ",");
      var (scale, ts3) :- ExpectInteger(ts2);
      var (_, ts4) :- ExpectToken(ts3, ")");
      Parsed(Decimal(precision, scale), ts4)
  }

  function ParseType(ts: seq<string>): (r: Parse<Type>)
    ensures r.Parsed? ==> |r.rest| < |ts|
    decreases |ts|, 0
  {
    if ts == [] then Corrupted
    else
      match NamedType(ts[0])
      case None => Corrupted
      case Some(t) => ParseBody(t, ts[1..])
  }

  /** What follows the name. */
  function ParseBody(t: Type, ts: seq<string>): (r: Parse<Type>)
    ensures r.Parsed? ==> |r.rest| <= |ts|
    decreases |ts|, 3
  {
    match t
    case Decimal(_, _) => ParseDecimal(ts)
    case Char(_) =>
      var (n, ts1) :- ParseLength(ts);
      Parsed(Char(n), ts1)
    case Varchar(_) =>
      var (n, ts1) :- ParseLength(ts);
      Parsed(Varchar(n), ts1)
    case Array(_) => ParseArray(ts)
    case Map(_, _) => ParseMap(ts)
    case Struct(_) => ParseStruct(ts)
    case _ => Parsed(t, ts)
  }

  function ParseArray(ts: seq<string>): (r: Parse<Type>)
    ensures r.Parsed? ==> |r.rest| <= |ts|
    decreases |ts|, 2
  {
    var (_, ts1) :- ExpectToken(ts, "<");
    var (elem, ts2) :- ParseType(ts1);
    var (_, ts3) :- ExpectToken(ts2, ">");
    Parsed(Array(elem), ts3)
  }

  function ParseMap(ts: seq<string>): (r: Parse<Type>)
    ensures r.Parsed? ==> |r.rest| <= |ts|
    decreases |ts|, 2
  {
    var (_, ts1) :- ExpectToken(ts, "<");
    var (key, ts2) :- ParseType(ts1);
    var (_, ts3) :- ExpectToken(ts2, ",");
    var (val, ts4) :- ParseType(ts3);
    var (_, ts5) :- ExpectToken(ts4, ">");
    Parsed(Map(key, val), ts5)
  }

  function ParseStruct(ts: seq<string>): (r: Parse<Type>)
    ensures r.Parsed? ==> |r.rest| <= |ts|
    decreases |ts|, 2
  {
    var (_, ts1) :- ExpectToken(ts, "<");
    var (members, ts2) :- ParseMembers(ts1);
    var (_, ts3) :- ExpectToken(ts2, ">");
    if members == [] then Corrupted else Parsed(Struct(members), ts3)
  }

  /** The members up to the closing bracket. A comma may follow the last of them. */
  function ParseMembers(ts: seq<string>): (r: Parse<seq<Member>>)
    ensures r.Parsed? ==> |r.rest| <= |ts|
    decreases |ts|, 1
  {
    if ts == [] then PastEnd
    else if ts[0] == ">" then Parsed([], ts)
    else
      var (member, ts1) :- ParseMember(ts);
      var (members, ts2) :- ParseMembers(ts1);
      Parsed([member] + members, ts2)
  }

  /** A name and a type, and a comma unless the struct ends here. */
  function ParseMember(ts: seq<string>): (r: Parse<Member>)
    requires ts != []
    ensures r.Parsed? ==> |r.rest| < |ts|
    decreases |ts|, 0
  {
    var (_, ts1) :- ExpectToken(ts[1..], ":");
    var (t, ts2) :- ParseType(ts1);
    if ts2 == [] then PastEnd
    else if ts2[0] == ">" then Parsed(Member(ts[0], t), ts2)
    else
      var (_, ts3) :- ExpectToken(ts2, ",");
      Parsed(Member(ts[0], t), ts3)
  }

  function ParseTypeInfoString(infoString: string): Parse<Type> {
    var p := ParseType(Tokens(infoString));
    if p.Parsed? && p.rest != [] then Corrupted else p
  }

  lemma ParsingIgnoresCase(a: string, b: string)
    requires Upper(a) == Upper(b)
    ensures ParseTypeInfoString(a) == ParseTypeInfoString(b)
  {
    TokensIgnoreCase(a);
    TokensIgnoreCase(b);
  }

  // ---------- printing and parsing again ----------

  /** The types that printing and parsing leave as they are. */
  predicate Survives(t: Type) {
    match t
    case Decimal(p, s) => p >= 0 && s >= 0 && (p != 0 || s != 0)
    case Char(n) => n >= 0
    case Varchar(n) => n >= 0
    case Array(e) => Survives(e)
    case Map(k, v) => Survives(k) && Survives(v)
    case Struct(_) => false
    case _ => true
  }

  function NumberTokens(n: int): seq<string> {
    if n < 0 then ["-", Digits(-n)] else [Digits(n)]
  }

  function PrintedTokens(t: Type): seq<string>
    decreases t, 1
  {
    [TypeName(t)] + BodyTokens(t)
  }

  function BodyTokens(t: Type): seq<string>
    decreases t, 0
  {
    match t
    case Decimal(p, s) =>
      if p != 0 || s != 0 then ["("] + (NumberTokens(p) + ([","] + (NumberTokens(s) + [")"]))) else []
    case Char(n) => ["("] + (NumberTokens(n) + [")"])
    case Varchar(n) => ["("] + (NumberTokens(n) + [")"])
    case Array(e) => ["<"] + (PrintedTokens(e) + [">"])
    case Map(k, v) => ["<"] + ((PrintedTokens(k) + ([","] + PrintedTokens(v))) + [">"])
    case Struct(ms) => ["<"] + (MemberTokens(ms) + [">"])
    case _ => []
  }

  function MemberTokens(ms: seq<Member>): seq<string>
    decreases ms, 2
  {
    if ms == [] then [] else if |ms| == 1 then PrintedTokens(ms[0].ty)
    else PrintedTokens(ms[0].ty) + ([","] + MemberTokens(ms[1..]))
  }

  lemma DigitsAreANumber(n: nat)
    ensures AllDigits(Digits(n)) && Number(Digits(n)) == n && Plain(Digits(n))
  {
    if n >= 10 {
      DigitsAreANumber(n / 10);
      assert Digits(n)[..|Digits(n)| - 1] == Digits(n / 10);
    } else {
      assert [Digit(n)][..0] == "";
    }
  }

  lemma NamesArePlain(t: Type)
    ensures TypeName(t) != "" && Plain(TypeName(t))
  {
    if t.Timestamp? || t.TimestampNtz? || t.IntervalYearMonth? || t.IntervalDayTime? {
      hide *;
      LongNamesArePlain(t);
    }
  }

  lemma LongNamesArePlain(t: Type)
    requires t.Timestamp? || t.TimestampNtz? || t.IntervalYearMonth? || t.IntervalDayTime?
    ensures TypeName(t) != "" && Plain(TypeName(t))
  {
  }

  /** What the name of a type alone says about it. */
  function Prototype(t: Type): Type {
    match t
    case Decimal(_, _) => Decimal(0, 0)
    case Char(_) => Char(0)
    case Varchar(_) => Varchar(0)
    case Array(_) => Array(BigInt)
    case Map(_, _) => Map(BigInt, BigInt)
    case Struct(_) => Struct([])
    case _ => t
  }

  lemma NamesAreKnown(t: Type)
    ensures TypeName(t) != ">" && NamedType(TypeName(t)) == Some(Prototype(t))
  {
    hide TypeName, NamedType, Prototype;
    if t.BigInt? || t.Double? || t.Boolean? || t.DateTime? || t.String? || t.TinyInt? || t.SmallInt? {
      FrequentNames(t);
    } else if t.Integer? || t.Binary? || t.Date? || t.Timestamp? || t.TimestampNtz? || t.Float? || t.Json? {
      OtherNames(t);
    } else if t.IntervalYearMonth? || t.IntervalDayTime? {
      IntervalNames(t);
    } else if t.Decimal? || t.Char? || t.Varchar? {
      SizedNames(t);
    } else {
      ComplexNames(t);
    }
  }

  lemma FrequentNames(t: Type)
    requires t.BigInt? || t.Double? || t.Boolean? || t.DateTime? || t.String? || t.TinyInt? || t.SmallInt?
    ensures TypeName(t) != ">" && NamedType(TypeName(t)) == Some(Prototype(t))
  {
  }

  lemma OtherNames(t: Type)
    requires t.Integer? || t.Binary? || t.Date? || t.Timestamp? || t.TimestampNtz? || t.Float? || t.Json?
    ensures TypeName(t) != ">" && NamedType(TypeName(t)) == Some(Prototype(t))
  {
  }

  lemma IntervalNames(t: Type)
    requires t.IntervalYearMonth? || t.IntervalDayTime?
    ensures TypeName(t) != ">" && NamedType(TypeName(t)) == Some(Prototype(t))
  {
  }

  lemma SizedNames(t: Type)
    requires t.Decimal? || t.Char? || t.Varchar?
    ensures TypeName(t) != ">" && NamedType(TypeName(t)) == Some(Prototype(t))
  {
  }

  lemma ComplexNames(t: Type)
    requires t.Array? || t.Map? || t.Struct?
    ensures TypeName(t) != ">" && NamedType(TypeName(t)) == Some(Prototype(t))
  {
  }

  lemma NameParses(t: Type, ts: seq<string>)
    ensures ParseType([TypeName(t)] + ts) == ParseBody(Prototype(t), ts)
  {
    NamesAreKnown(t);
    hide NamedType, TypeName, ParseBody, Prototype;
    assert ([TypeName(t)] + ts)[1..] == ts;
  }

  // ---------- from text to tokens ----------

  /** A bracket, comma or minus sign is a token whatever follows. */
  lemma Mark(c: char, rest: string)
    requires c in "<>(),-"
    ensures Tokens([c] + rest) == [[c]] + Tokens(rest)
  {
    OtherCharacter(c, rest);
  }

  lemma DigitsText(n: nat, rest: string)
    requires rest == "" || !IsWord(rest[0])
    ensures Tokens(Digits(n) + rest) == [Digits(n)] + Tokens(rest)
  {
    DigitsAreANumber(n);
    hide *;
    PlainWord(Digits(n), rest);
  }

  lemma NumberText(n: int, rest: string)
    requires rest == "" || !IsWord(rest[0])
    ensures Tokens(ToString(n) + rest) == NumberTokens(n) + Tokens(rest)
  {
    hide Tokens, Digits;
    if n < 0 {
      DigitsText(-n, rest);
      assert ToString(n) + rest == "-" + (Digits(-n) + rest);
      Mark('-', Digits(-n) + rest);
    } else {
      DigitsText(n, rest);
    }
  }

  lemma NameText(t: Type, rest: string)
    requires rest == "" || !IsWord(rest[0])
    ensures Tokens(TypeName(t) + rest) == [TypeName(t)] + Tokens(rest)
  {
    NamesArePlain(t);
    PlainWord(TypeName(t), rest);
  }

  lemma LengthText(t: Type, n: int, rest: string)
    ensures Tokens(TypeName(t) + ("(" + (ToString(n) + ")")) + rest) == [TypeName(t), "("] + (NumberTokens(n) + [")"]) + Tokens(rest)
  {
    hide Tokens, ToString, NumberTokens;
    var r1 := ")" + rest;
    var r2 := ToString(n) + r1;
    assert TypeName(t) + ("(" + (ToString(n) + ")")) + rest == TypeName(t) + ("(" + r2);
    NameText(t, "(" + r2);
    Mark('(', r2);
    NumberText(n, r1);
    Mark(')', rest);
  }

  lemma DecimalText(p: int, s: int, rest: string)
    ensures Tokens("DECIMAL" + ("(" + (ToString(p) + ("," + (ToString(s) + ")")))) + rest)
            == ["DECIMAL", "("] + (NumberTokens(p) + ([","] + (NumberTokens(s) + [")"]))) + Tokens(rest)
  {
    hide Tokens, ToString, NumberTokens;
    var r1 := ")" + rest;
    var r2 := ToString(s) + r1;
    var r3 := "," + r2;
    var r4 := ToString(p) + r3;
    assert "DECIMAL" + ("(" + (ToString(p) + ("," + (ToString(s) + ")")))) + rest == "DECIMAL" + ("(" + r4);
    NameText(Decimal(0, 0), "(" + r4);
    Mark('(', r4);
    NumberText(p, r3);
    Mark(',', r2);
    NumberText(s, r1);
    Mark(')', rest);
  }

  lemma BracketText(t: Type, inner: string, ts: seq<string>, rest: string)
    requires Tokens(inner + (">" + rest)) == ts + Tokens(">" + rest)
    ensures Tokens(TypeName(t) + "<" + (inner + ">") + rest) == [TypeName(t)] + (["<"] + (ts + [">"])) + Tokens(rest)
  {
    hide Tokens;
    var r := inner + (">" + rest);
    assert TypeName(t) + "<" + (inner + ">") + rest == TypeName(t) + ("<" + r);
    NameText(t, "<" + r);
    Mark('<', r);
    Mark('>', rest);
  }

  lemma CommaText(first: string, ts: seq<string>, second: string, us: seq<string>, rest: string)
    requires Tokens(first + ("," + (second + rest))) == ts + Tokens("," + (second + rest))
    requires Tokens(second + rest) == us + Tokens(rest)
    ensures Tokens(first + ("," + second) + rest) == ts + ([","] + us) + Tokens(rest)
  {
    hide Tokens;
    assert first + ("," + second) + rest == first + ("," + (second + rest));
    Mark(',', second + rest);
  }

  lemma MapText(k: Type, v: Type, ks: string, vs: string, rest: string)
    requires Tokens(ks + ("," + (vs + (">" + rest)))) == PrintedTokens(k) + Tokens("," + (vs + (">" + rest)))
    requires Tokens(vs + (">" + rest)) == PrintedTokens(v) + Tokens(">" + rest)
    ensures Tokens("MAP" + "<" + ((ks + ("," + vs)) + ">") + rest) == PrintedTokens(Map(k, v)) + Tokens(rest)
  {
    hide Tokens;
    var (kt, vt) := (PrintedTokens(k), PrintedTokens(v));
    CommaText(ks, kt, vs, vt, ">" + rest);
    BracketText(Map(k, v), ks + ("," + vs), kt + ([","] + vt), rest);
  }

  lemma ArrayText(e: Type, es: string, rest: string)
    requires Tokens(es + (">" + rest)) == PrintedTokens(e) + Tokens(">" + rest)
    ensures Tokens("ARRAY" + "<" + (es + ">") + rest) == PrintedTokens(Array(e)) + Tokens(rest)
  {
    hide Tokens;
    BracketText(Array(e), es, PrintedTokens(e), rest);
  }

  lemma StructText(ms: seq<Member>, text: string, rest: string)
    requires Tokens(text + (">" + rest)) == MemberTokens(ms) + Tokens(">" + rest)
    ensures Tokens("STRUCT" + "<" + (text + ">") + rest) == PrintedTokens(Struct(ms)) + Tokens(rest)
  {
    hide Tokens, MemberTokens, NumberTokens;
    BracketText(Struct(ms), text, MemberTokens(ms), rest);
  }

  lemma ScalarText(t: Type, rest: string)
    requires !t.IsComplex() && (BodyTokens(t) != [] || rest == "" || !IsWord(rest[0]))
    ensures Tokens(ToTypeString(t).value + rest) == PrintedTokens(t) + Tokens(rest)
  {
    hide Tokens, NumberTokens, ToString, Digits;
    if t.Decimal? && (t.precision != 0 || t.scale != 0) {
      DecimalText(t.precision, t.scale, rest);
    } else if t.Char? || t.Varchar? {
      LengthText(t, t.length, rest);
    } else {
      NameText(t, rest);
    }
  }

  /** The printed text is cut into the tokens it was put together from. */
  lemma {:induction false} PrintedText(t: Type, rest: string)
    requires ToTypeString(t).Some? && (BodyTokens(t) != [] || rest == "" || !IsWord(rest[0]))
    ensures Tokens(ToTypeString(t).value + rest) == PrintedTokens(t) + Tokens(rest)
    decreases t, 0
  {
    hide Tokens, PrintedTokens, MemberTokens;
    match t
    case Array(e) =>
      PrintedText(e, ">" + rest);
      ArrayText(e, ToTypeString(e).value, rest);
    case Map(k, v) =>
      var (ks, vs) := (ToTypeString(k).value, ToTypeString(v).value);
      PrintedText(k, "," + (vs + (">" + rest)));
      PrintedText(v, ">" + rest);
      MapText(k, v, ks, vs, rest);
    case Struct(ms) =>
      MembersText(ms, ">" + rest);
      StructText(ms, MemberStrings(ms).value, rest);
    case _ => ScalarText(t, rest);
  }

  lemma {:induction false} MembersText(ms: seq<Member>, rest: string)
    requires ms != [] && MemberStrings(ms).Some? && rest != "" && !IsWord(rest[0])
    ensures Tokens(MemberStrings(ms).value + rest) == MemberTokens(ms) + Tokens(rest)
    decreases ms, 1
  {
    hide Tokens;
    if |ms| == 1 {
      PrintedText(ms[0].ty, rest);
    } else {
      var (first, second) := (ToTypeString(ms[0].ty).value, MemberStrings(ms[1..]).value);
      PrintedText(ms[0].ty, "," + (second + rest));
      MembersText(ms[1..], rest);
      CommaText(first, PrintedTokens(ms[0].ty), second, MemberTokens(ms[1..]), rest);
    }
  }

  // ---------- from tokens to types ----------

  lemma NumberParses(n: Int32, rest: seq<string>)
    ensures ExpectInteger(NumberTokens(n) + rest) == if n >= 0 then Parsed(n, rest) else Corrupted
  {
    var m: int := n;
    DigitsAreANumber(if m < 0 then -m else m);
    if n < 0 {
      assert !IsDigit("-"[0]);
    } else {
      assert (NumberTokens(n) + rest)[1..] == rest;
    }
  }

  lemma LengthParses(n: Int32, rest: seq<string>)
    ensures ParseLength(["("] + (NumberTokens(n) + [")"]) + rest) == if n >= 0 then Parsed(n, rest) else Corrupted
  {
    hide NumberTokens, ExpectInteger;
    assert (["("] + (NumberTokens(n) + [")"]) + rest)[1..] == NumberTokens(n) + ([")"] + rest);
    NumberParses(n, [")"] + rest);
  }

  lemma DecimalParses(p: Int32, s: Int32, rest: seq<string>)
    ensures ParseDecimal(["("] + (NumberTokens(p) + ([","] + (NumberTokens(s) + [")"]))) + rest)
            == if p >= 0 && s >= 0 then Parsed(Decimal(p, s), rest) else Corrupted
  {
    hide NumberTokens, ExpectInteger;
    var ts := ["("] + (NumberTokens(p) + ([","] + (NumberTokens(s) + [")"]))) + rest;
    assert ts[1..] == NumberTokens(p) + ([","] + (NumberTokens(s) + ([")"] + rest)));
    NumberParses(p, [","] + (NumberTokens(s) + ([")"] + rest)));
    NumberParses(s, [")"] + rest);
  }

  predicate Closed(rest: seq<string>) {
    rest == [] || rest[0] != "("
  }

  /** What parsing the tokens of `t` gives: `t` itself, or something else, or an exception. */
  predicate ParsesAs(p: Parse<Type>, t: Type, rest: seq<string>) {
    if Survives(t) then p == Parsed(t, rest)
    else p == Corrupted || (p.Parsed? && p.value != t && p.rest == rest)
  }

  /** A printed type begins with its name, and what follows is not a colon. */
  lemma PrintedTypeBegins(t: Type)
    ensures PrintedTokens(t) != [] && PrintedTokens(t)[0] == TypeName(t) != ">"
    ensures |PrintedTokens(t)| > 1 ==> PrintedTokens(t)[1] == "(" || PrintedTokens(t)[1] == "<"
  {
    NamesAreKnown(t);
  }

  lemma BodyParses(t: Type, rest: seq<string>)
    ensures ParseType(PrintedTokens(t) + rest) == ParseBody(Prototype(t), BodyTokens(t) + rest)
  {
    hide ParseType, ParseBody, BodyTokens;
    NameParses(t, BodyTokens(t) + rest);
    assert PrintedTokens(t) + rest == [TypeName(t)] + (BodyTokens(t) + rest);
  }

  lemma NoMember(ts: seq<string>)
    requires |ts| > 1 && ts[0] != ">" && ts[1] != ":"
    ensures ParseMembers(ts) == Corrupted
  {
  }

  /** So what is printed of a struct is never taken for its members. */
  lemma StructDoesNotParse(ms: seq<Member>, rest: seq<string>)
    requires ms != []
    ensures ParseStruct(BodyTokens(Struct(ms)) + rest) == Corrupted
  {
    var inner := MemberTokens(ms) + ([">"] + rest);
    assert BodyTokens(Struct(ms)) + rest == ["<"] + inner;
    assert (["<"] + inner)[1..] == inner;
    PrintedTypeBegins(ms[0].ty);
    hide PrintedTokens, ParseMembers;
    NoMember(inner);
  }

  lemma ArrayTokens(e: Type, rest: seq<string>)
    ensures BodyTokens(Array(e)) + rest == ["<"] + (PrintedTokens(e) + ([">"] + rest))
  {
    hide PrintedTokens;
  }

  lemma MapTokens(k: Type, v: Type, rest: seq<string>)
    ensures BodyTokens(Map(k, v)) + rest == ["<"] + (PrintedTokens(k) + ([","] + (PrintedTokens(v) + ([">"] + rest))))
  {
    hide PrintedTokens;
  }

  lemma ArrayParses(e: Type, rest: seq<string>)
    requires ParsesAs(ParseType(PrintedTokens(e) + ([">"] + rest)), e, [">"] + rest)
    ensures ParsesAs(ParseArray(BodyTokens(Array(e)) + rest), Array(e), rest)
  {
    hide ParseType, PrintedTokens, BodyTokens;
    var inner := PrintedTokens(e) + ([">"] + rest);
    ArrayTokens(e, rest);
    assert (["<"] + inner)[1..] == inner && ([">"] + rest)[1..] == rest;
  }

  lemma MapParses(k: Type, v: Type, rest: seq<string>)
    requires var more := PrintedTokens(v) + ([">"] + rest);
      ParsesAs(ParseType(PrintedTokens(k) + ([","] + more)), k, [","] + more)
    requires ParsesAs(ParseType(PrintedTokens(v) + ([">"] + rest)), v, [">"] + rest)
    ensures ParsesAs(ParseMap(BodyTokens(Map(k, v)) + rest), Map(k, v), rest)
  {
    hide ParseType, PrintedTokens, BodyTokens;
    var more := PrintedTokens(v) + ([">"] + rest);
    var inner := PrintedTokens(k) + ([","] + more);
    MapTokens(k, v, rest);
    assert (["<"] + inner)[1..] == inner && ([","] + more)[1..] == more && ([">"] + rest)[1..] == rest;
  }

  lemma DecimalBodyParses(p: Int32, s: Int32, rest: seq<string>)
    requires Closed(rest)
    ensures ParsesAs(ParseDecimal(BodyTokens(Decimal(p, s)) + rest), Decimal(p, s), rest)
  {
    if p != 0 || s != 0 {
      DecimalParses(p, s, rest);
    } else {
      assert BodyTokens(Decimal(p, s)) + rest == rest;
    }
  }

  lemma ScalarParses(t: Type, rest: seq<string>)
    requires !t.IsComplex() && Closed(rest)
    ensures ParsesAs(ParseBody(Prototype(t), BodyTokens(t) + rest), t, rest)
  {
    hide NumberTokens, ParseLength, ParseDecimal;
    if t.Decimal? {
      DecimalBodyParses(t.precision, t.scale, rest);
    } else if t.Char? {
      LengthParses(t.length, rest);
    } else if t.Varchar? {
      LengthParses(t.length, rest);
    } else {
      assert BodyTokens(t) + rest == rest;
    }
  }

  lemma {:induction false} PrintedTokensParse(t: Type, rest: seq<string>)
    requires ToTypeString(t).Some? && Closed(rest)
    ensures ParsesAs(ParseType(PrintedTokens(t) + rest), t, rest)
    decreases t
  {
    BodyParses(t, rest);
    hide ParseType, ParseArray, ParseMap, ParseStruct, PrintedTokens, BodyTokens, ParsesAs;
    match t
    case Array(e) =>
      PrintedTokensParse(e, [">"] + rest);
      ArrayParses(e, rest);
    case Map(k, v) =>
      PrintedTokensParse(k, [","] + (PrintedTokens(v) + ([">"] + rest)));
      PrintedTokensParse(v, [">"] + rest);
      MapParses(k, v, rest);
    case Struct(ms) =>
      StructDoesNotParse(ms, rest);
      CorruptedStruct(ms, rest);
    case _ => ScalarParses(t, rest);
  }

  lemma CorruptedStruct(ms: seq<Member>, rest: seq<string>)
    ensures ParsesAs(Corrupted, Struct(ms), rest)
  {
  }

  lemma {:induction false} SurvivorsPrint(t: Type)
    requires Survives(t)
    ensures ToTypeString(t).Some?
    decreases t
  {
    match t
    case Array(e) => SurvivorsPrint(e);
    case Map(k, v) =>
      SurvivorsPrint(k);
      SurvivorsPrint(v);
    case _ =>
  }

  /** A type survives being printed and parsed exactly if it contains no struct, no negative number
      and no decimal with precision and scale zero. */
  lemma PrintParse(t: Type)
    ensures (ToTypeString(t).Some? && ParseTypeInfoString(ToTypeString(t).value) == Parsed(t, [])) <==> Survives(t)
    ensures ToTypeString(t).Some? ==> !ParseTypeInfoString(ToTypeString(t).value).PastEnd?
  {
    if Survives(t) {
      SurvivorsPrint(t);
    }
    if ToTypeString(t).Some? {
      PrintedText(t, "");
      PrintedTokensParse(t, []);
      hide ToTypeString, ParseType, PrintedTokens, Survives;
      assert ToTypeString(t).value + "" == ToTypeString(t).value;
      assert PrintedTokens(t) + Tokens("") == PrintedTokens(t) + [];
    }
  }

  predicate Blank(s: string) {
    s != "" && forall i | 0 <= i < |s| :: IsSpace(s[i])
  }

  predicate EndsInBracket(s: string) {
    s != "" && (s[|s| - 1] == ')' || s[|s| - 1] == '>')
  }

  lemma {:induction false} BlankIsTrimmed(s: string, blank: string)
    requires Plain(s) && Blank(blank)
    ensures Trim(s + blank) == s
    decreases |blank|
  {
    var init := blank[..|blank| - 1];
    assert (s + blank)[..|s + blank| - 1] == s + init;
    assert (s + blank)[|s + blank| - 1] == blank[|blank| - 1];
    if s == "" {
      BlankText(blank);
      assert s + blank == blank;
    } else {
      assert !IsSpace(s[0]) && (s + blank)[0] == s[0];
      if init == "" {
        assert s + init == s;
        assert Trim(s) == s;
      } else {
        BlankIsTrimmed(s, init);
      }
    }
  }

  lemma {:induction false} BlankText(blank: string)
    requires forall i | 0 <= i < |blank| :: IsSpace(blank[i])
    ensures Trim(blank) == ""
    decreases |blank|
  {
    if blank != "" {
      BlankText(blank[1..]);
    }
  }

  lemma OneWord(s: string)
    requires s != "" && AllWord(s)
    ensures Tokens(s) == [Clean(s)]
  {
    assert s[..|s|] == s && s[|s|..] == "";
    FirstPiece(s, |s|);
  }

  /** Blanks after a name belong to it; alone they are an empty token. */
  lemma WordWithBlanks(s: string, blank: string)
    requires Plain(s) && Blank(blank)
    ensures Tokens(s + blank) == [s]
  {
    OneWord(s + blank);
    BlankIsTrimmed(s, blank);
    assert Upper(s) == s;
  }

  lemma BlankToken(blank: string)
    requires Blank(blank)
    ensures Tokens(blank) == [""]
  {
    WordWithBlanks("", blank);
    assert "" + blank == blank;
  }

  lemma NamesEndInNoBracket(t: Type)
    ensures !EndsInBracket(TypeName(t))
  {
    NamesArePlain(t);
    hide TypeName;
    assert IsPlain(TypeName(t)[|TypeName(t)| - 1]);
  }

  lemma BracketsEndTheText(t: Type)
    requires ToTypeString(t).Some?
    ensures EndsInBracket(ToTypeString(t).value) <==> BodyTokens(t) != []
    ensures BodyTokens(t) == [] ==> ToTypeString(t).value == TypeName(t)
  {
    NamesEndInNoBracket(t);
    assert t.Decimal? ==> TypeName(t) == "DECIMAL";
    hide TypeName, MemberStrings, MemberTokens, PrintedTokens, NumberTokens, ToString;
  }

  /** Of the types that survive printing, exactly those whose text does not end in a bracket may be
      followed by blanks; after a bracket the blanks are a token of their own and refused. */
  lemma TrailingBlanks(t: Type, blank: string)
    requires Survives(t) && Blank(blank)
    ensures ToTypeString(t).Some?
    ensures ParseTypeInfoString(ToTypeString(t).value + blank) ==
            if EndsInBracket(ToTypeString(t).value) then Corrupted else Parsed(t, [])
  {
    SurvivorsPrint(t);
    BracketsEndTheText(t);
    hide Survives, Tokens, ParseType, ToTypeString, PrintedTokens, EndsInBracket, TypeName;
    if BodyTokens(t) != [] {
      PrintedText(t, blank);
      BlankToken(blank);
      PrintedTokensParse(t, [""]);
      SurvivorParses(t, [""]);
    } else {
      NamesArePlain(t);
      WordWithBlanks(TypeName(t), blank);
      PrintedTokensParse(t, []);
      SurvivorParses(t, []);
      hide BodyTokens;
      assert PrintedTokens(t) + [] == [TypeName(t)] by { NameOnly(t); }
    }
  }

  lemma SurvivorParses(t: Type, rest: seq<string>)
    requires Survives(t) && ParsesAs(ParseType(PrintedTokens(t) + rest), t, rest)
    ensures ParseType(PrintedTokens(t) + rest) == Parsed(t, rest)
  {
    hide ParseType, PrintedTokens;
  }

  lemma NameOnly(t: Type)
    requires BodyTokens(t) == []
    ensures PrintedTokens(t) + [] == [TypeName(t)]
  {
    hide TypeName, BodyTokens;
  }
}
