/** The words of type strings told letter by letter: which characters make up names, what becomes of
    letter case and blanks, which names there are, what numbers mean, and how each type is printed. */
module TypeWords {
  import opened Bytes
  import opened ColumnTypes
  import opened Options
  import opened Positional
  import opened TypeTokens
  import opened TypeStrings

  // ---------- characters ----------

  /** Blanks are the character 32 and those from 9 to 13. Names are made of letters, digits, '_', '.' and
      blanks. */
  lemma CharacterClasses(c: char)
    ensures IsSpace(c) <==> c as int == 32 || 9 <= c as int <= 13
    ensures IsDigit(c) <==> 48 <= c as int <= 57
    ensures IsWord(c) <==>
      97 <= c as int <= 122 || 65 <= c as int <= 90 || 48 <= c as int <= 57 || c in "_." || c as int == 32 || 9 <= c as int <= 13
  {
  }

  /** The characters are equal, or one is a small letter and the other the same letter as a capital. */
  predicate SameButForCase(a: char, b: char) {
    || a == b
    || ('a' <= a <= 'z' && 'A' <= b <= 'Z' && a as int - 'a' as int == b as int - 'A' as int)
    || ('A' <= a <= 'Z' && 'a' <= b <= 'z' && a as int - 'A' as int == b as int - 'a' as int)
  }

  predicate DifferOnlyInCase(a: string, b: string) {
    |a| == |b| && forall i | 0 <= i < |a| :: SameButForCase(a[i], b[i])
  }

  predicate NoSmallLetter(s: string) {
    forall i | 0 <= i < |s| :: !('a' <= s[i] <= 'z')
  }

  /** Upper case is the one text without small letters that differs only in case. */
  lemma UpperMeans(s: string, u: string)
    ensures u == Upper(s) <==> NoSmallLetter(u) && DifferOnlyInCase(s, u)
  {
    if NoSmallLetter(u) && DifferOnlyInCase(s, u) {
      forall i | 0 <= i < |s|
        ensures u[i] == Upper(s)[i]
      {
        assert SameButForCase(s[i], u[i]) && Upper(s)[i] == UpperChar(s[i]);
        assert !('a' <= u[i] <= 'z');
        Capital(s[i], u[i]);
      }
    }
    if u == Upper(s) {
      forall i | 0 <= i < |s|
        ensures SameButForCase(s[i], u[i]) && !('a' <= u[i] <= 'z')
      {
        Capital(s[i], UpperChar(s[i]));
      }
    }
  }

  lemma Capital(c: char, u: char)
    ensures u == UpperChar(c) <==> !('a' <= u <= 'z') && SameButForCase(c, u)
  {
  }

  lemma UpperIfOnlyCase(a: string, b: string)
    ensures Upper(a) == Upper(b) <==> DifferOnlyInCase(a, b)
  {
    UpperMeans(a, Upper(a));
    UpperMeans(b, Upper(b));
    hide Upper, SameButForCase;
    if Upper(a) == Upper(b) {
      forall i | 0 <= i < |a|
        ensures SameButForCase(a[i], b[i])
      {
        CaseIsShared(a[i], b[i], Upper(a)[i]);
      }
    }
    if DifferOnlyInCase(a, b) {
      forall i | 0 <= i < |a|
        ensures SameButForCase(b[i], Upper(a)[i])
      {
        CaseIsPassedOn(a[i], b[i], Upper(a)[i]);
      }
      UpperMeans(b, Upper(a));
    }
  }

  lemma CaseIsShared(a: char, b: char, u: char)
    requires SameButForCase(a, u) && SameButForCase(b, u) && !('a' <= u <= 'z')
    ensures SameButForCase(a, b)
  {
  }

  lemma CaseIsPassedOn(a: char, b: char, u: char)
    requires SameButForCase(a, b) && SameButForCase(a, u) && !('a' <= u <= 'z')
    ensures SameButForCase(b, u)
  {
  }

  /** No token has a small letter in it, and each is a piece of the text but for case and blanks. */
  lemma {:induction false} TokensHaveNoSmallLetter(s: string)
    ensures forall token <- Tokens(s) :: NoSmallLetter(token)
    decreases |s|
  {
    if s != "" {
      var piece := s[..PieceEnd(s)];
      UpperMeans(Trim(piece), Clean(piece));
      hide NoSmallLetter, Clean;
      TokensHaveNoSmallLetter(s[PieceEnd(s)..]);
    }
  }

  /** Texts that differ only in case are parsed alike. */
  lemma ParsingIgnoresLetterCase(a: string, b: string)
    requires DifferOnlyInCase(a, b)
    ensures ParseTypeInfoString(a) == ParseTypeInfoString(b)
  {
    UpperIfOnlyCase(a, b);
    ParsingIgnoresCase(a, b);
  }

  /** A type that survives printing is parsed from its printed text in any mixture of cases. */
  lemma AnyCaseParses(t: Type, s: string)
    requires Survives(t)
    ensures ToTypeString(t).Some?
    ensures DifferOnlyInCase(ToTypeString(t).value, s) ==> ParseTypeInfoString(s) == Parsed(t, [])
  {
    hide Survives, ToTypeString, ParseTypeInfoString;
    SurvivorsPrint(t);
    PrintParse(t);
    if DifferOnlyInCase(ToTypeString(t).value, s) {
      ParsingIgnoresLetterCase(ToTypeString(t).value, s);
    }
  }

  // ---------- blanks ----------

  predicate AllBlank(s: string) {
    forall i | 0 <= i < |s| :: s[i] as int == 32 || 9 <= s[i] as int <= 13
  }

  predicate NoBlankAtEnds(s: string) {
    s == "" || (!AllBlank(s[..1]) && !AllBlank(s[|s| - 1..]))
  }

  /** What is left of `s` between `i` and `j` when there are only blanks around it. */
  predicate IsTrimmed(s: string, i: nat, j: nat) {
    i <= j <= |s| && AllBlank(s[..i]) && AllBlank(s[j..]) && NoBlankAtEnds(s[i..j])
  }

  lemma OffTheFront(s: string, i: nat, j: nat)
    requires s != "" && AllBlank(s[..1]) && IsTrimmed(s[1..], i, j)
    ensures IsTrimmed(s, i + 1, j + 1) && s[i + 1..j + 1] == s[1..][i..j]
  {
    hide NoBlankAtEnds;
    assert s == s[..1] + s[1..];
    SlicesAfter(s[..1], s[1..], i, j);
  }

  lemma SlicesAfter(c: string, s: string, i: nat, j: nat)
    requires |c| == 1 && i <= j <= |s|
    ensures (c + s)[..i + 1] == c + s[..i] && (c + s)[j + 1..] == s[j..] && (c + s)[i + 1..j + 1] == s[i..j]
  {
  }

  lemma OffTheEnd(s: string, i: nat, j: nat)
    requires s != "" && AllBlank(s[|s| - 1..]) && IsTrimmed(s[..|s| - 1], i, j)
    ensures IsTrimmed(s, i, j) && s[i..j] == s[..|s| - 1][i..j]
  {
    hide NoBlankAtEnds;
    assert s[..i] == s[..|s| - 1][..i] && s[j..] == s[..|s| - 1][j..] + s[|s| - 1..] && s[i..j] == s[..|s| - 1][i..j];
  }

  lemma BlankAtEnds(s: string)
    requires s != ""
    ensures IsSpace(s[0]) <==> AllBlank(s[..1])
    ensures IsSpace(s[|s| - 1]) <==> AllBlank(s[|s| - 1..])
  {
    assert s[..1][0] == s[0] && s[|s| - 1..][0] == s[|s| - 1];
  }

  /** Trimming takes blanks off both ends and nothing else. */
  lemma {:induction false} TrimMeans(s: string) returns (i: nat, j: nat)
    ensures IsTrimmed(s, i, j) && Trim(s) == s[i..j]
    decreases |s|
  {
    hide IsTrimmed, AllBlank, IsSpace;
    if s == "" {
      i, j := 0, 0;
      AllIsLeft(s);
    } else {
      BlankAtEnds(s);
      if IsSpace(s[0]) {
        i, j := TrimMeans(s[1..]);
        OffTheFront(s, i, j);
        i, j := i + 1, j + 1;
      } else if IsSpace(s[|s| - 1]) {
        i, j := TrimMeans(s[..|s| - 1]);
        OffTheEnd(s, i, j);
      } else {
        i, j := 0, |s|;
        AllIsLeft(s);
      }
    }
  }

  lemma AllIsLeft(s: string)
    requires s == "" || (!AllBlank(s[..1]) && !AllBlank(s[|s| - 1..]))
    ensures IsTrimmed(s, 0, |s|) && s[0..|s|] == s
  {
    assert s[0..|s|] == s;
  }

  // ---------- names ----------

  /** Which names stand for which types. */
  lemma NumberNames(token: string)
    ensures NamedType(token) == Some(BigInt) <==> token == "BIGINT"
    ensures NamedType(token) == Some(Integer) <==> token == "INT"
    ensures NamedType(token) == Some(SmallInt) <==> token == "SMALLINT"
    ensures NamedType(token) == Some(TinyInt) <==> token == "TINYINT"
    ensures NamedType(token) == Some(Double) <==> token == "DOUBLE"
    ensures NamedType(token) == Some(Float) <==> token == "FLOAT"
    ensures NamedType(token) == Some(Boolean) <==> token == "BOOLEAN"
  {
  }

  lemma TimeNames(token: string)
    ensures NamedType(token) == Some(DateTime) <==> token == "DATETIME"
    ensures NamedType(token) == Some(Date) <==> token == "DATE"
    ensures NamedType(token) == Some(Timestamp) <==> token == "TIMESTAMP"
    ensures NamedType(token) == Some(TimestampNtz) <==> token == "TIMESTAMP_NTZ"
    ensures NamedType(token) == Some(IntervalYearMonth) <==> token == "INTERVAL_YEAR_MONTH"
    ensures NamedType(token) == Some(IntervalDayTime) <==> token == "INTERVAL_DAY_TIME"
  {
  }

  lemma TextNames(token: string)
    ensures NamedType(token) == Some(String) <==> token == "STRING"
    ensures NamedType(token) == Some(Binary) <==> token == "BINARY"
    ensures NamedType(token) == Some(Json) <==> token == "JSON"
  {
  }

  lemma NamesWithSizes(token: string)
    ensures NamedType(token).Some? && NamedType(token).value.Char? <==> token == "CHAR"
    ensures NamedType(token).Some? && NamedType(token).value.Varchar? <==> token == "VARCHAR"
    ensures NamedType(token).Some? && NamedType(token).value.Decimal? <==> token == "DECIMAL"
  {
  }

  lemma NestedNames(token: string)
    ensures NamedType(token).Some? && NamedType(token).value.Array? <==> token == "ARRAY"
    ensures NamedType(token).Some? && NamedType(token).value.Map? <==> token == "MAP"
    ensures NamedType(token).Some? && NamedType(token).value.Struct? <==> token == "STRUCT"
  {
  }

  // ---------- numbers ----------

  /** What the digits of a number stand for, the last one first. */
  function DigitValues(s: string): (ds: seq<int>)
    ensures |ds| == |s|
  {
    if s == "" then [] else [s[|s| - 1] as int - 48] + DigitValues(s[..|s| - 1])
  }

  /** Numbers are decimal, with the highest place first. */
  lemma {:induction false} NumberMeans(s: string)
    requires AllDigits(s)
    ensures Number(s) == Positional.Value(DigitValues(s), 10)
    decreases |s|
  {
    if s != "" {
      var init := s[..|s| - 1];
      NumberMeans(init);
      ValueFromBelow(s[|s| - 1] as int - 48, DigitValues(init), 10);
    }
  }

  // ---------- printed forms ----------

  function Commas(texts: seq<string>): string {
    if texts == [] then "" else if |texts| == 1 then texts[0] else texts[0] + "," + Commas(texts[1..])
  }

  /** How each type is printed: no blanks, no letter in lower case, and of a struct only the types of its
      members. A struct without members cannot be printed. */
  function Printed(t: Type): Option<string> {
    match t
    case Decimal(0, 0) => Some("DECIMAL")
    case Decimal(p, s) => Some("DECIMAL(" + ToString(p) + "," + ToString(s) + ")")
    case Char(n) => Some("CHAR(" + ToString(n) + ")")
    case Varchar(n) => Some("VARCHAR(" + ToString(n) + ")")
    case Array(e) => if Printed(e).None? then None else Some("ARRAY<" + Printed(e).value + ">")
    case Map(k, v) =>
      if Printed(k).None? || Printed(v).None? then None else Some("MAP<" + Printed(k).value + "," + Printed(v).value + ">")
    case Struct(ms) =>
      if ms == [] || PrintedMembers(ms).None? then None else Some("STRUCT<" + Commas(PrintedMembers(ms).value) + ">")
    case _ => Some(TypeName(t))
  }

  function PrintedMembers(ms: seq<Member>): Option<seq<string>> {
    if ms == [] then Some([])
    else if Printed(ms[0].ty).None? || PrintedMembers(ms[1..]).None? then None
    else Some([Printed(ms[0].ty).value] + PrintedMembers(ms[1..]).value)
  }

  lemma SizedPrinted(t: Type)
    requires t.Decimal? || t.Char? || t.Varchar?
    ensures ToTypeString(t) == Printed(t)
  {
    hide ToString;
    if t.Decimal? {
      var (p, n) := (ToString(t.precision), ToString(t.scale));
      assert "DECIMAL" + "(" == "DECIMAL(";
      assert "DECIMAL" + ("(" + (p + ("," + (n + ")")))) == "DECIMAL(" + p + "," + n + ")";
    } else {
      assert "CHAR" + "(" == "CHAR(" && "VARCHAR" + "(" == "VARCHAR(";
      assert "CHAR" + ("(" + (ToString(t.length) + ")")) == "CHAR(" + ToString(t.length) + ")";
      assert "VARCHAR" + ("(" + (ToString(t.length) + ")")) == "VARCHAR(" + ToString(t.length) + ")";
    }
  }

  lemma Wrapped(inner: string)
    ensures "ARRAY" + "<" + (inner + ">") == "ARRAY<" + inner + ">"
    ensures "STRUCT" + "<" + (inner + ">") == "STRUCT<" + inner + ">"
  {
    assert "ARRAY" + "<" == "ARRAY<" && "STRUCT" + "<" == "STRUCT<";
  }

  lemma WrappedPair(a: string, b: string)
    ensures "MAP" + "<" + ((a + ("," + b)) + ">") == "MAP<" + a + "," + b + ">"
  {
    assert "MAP" + "<" == "MAP<";
  }

  lemma {:induction false} PrintedIs(t: Type)
    ensures ToTypeString(t) == Printed(t)
    decreases t, 0
  {
    hide TypeName, ToString, Commas;
    match t
    case Decimal(_, _) => SizedPrinted(t);
    case Char(_) => SizedPrinted(t);
    case Varchar(_) => SizedPrinted(t);
    case Array(e) =>
      PrintedIs(e);
      if Printed(e).Some? {
        Wrapped(Printed(e).value);
      }
    case Map(k, v) =>
      PrintedIs(k);
      PrintedIs(v);
      if Printed(k).Some? && Printed(v).Some? {
        WrappedPair(Printed(k).value, Printed(v).value);
      }
    case Struct(ms) =>
      if ms != [] {
        MembersPrinted(ms);
        if PrintedMembers(ms).Some? {
          Wrapped(Commas(PrintedMembers(ms).value));
        }
      }
    case _ =>
  }

  lemma {:induction false} MembersPrinted(ms: seq<Member>)
    requires ms != []
    ensures MemberStrings(ms) == if PrintedMembers(ms).None? then None else Some(Commas(PrintedMembers(ms).value))
    ensures PrintedMembers(ms).Some? ==> PrintedMembers(ms).value != []
    decreases ms, 1
  {
    hide Printed, ToTypeString;
    PrintedIs(ms[0].ty);
    if |ms| > 1 {
      MembersPrinted(ms[1..]);
      if PrintedMembers(ms).Some? {
        CommaBetween(PrintedMembers(ms).value);
      }
    } else {
      assert PrintedMembers(ms[1..]) == Some([]);
    }
  }

  lemma CommaBetween(texts: seq<string>)
    requires |texts| > 1
    ensures Commas(texts) == texts[0] + ("," + Commas(texts[1..]))
  {
  }

  /** Numbers are printed in decimal without leading zeros, after a sign if they are negative. */
  lemma {:induction false} DigitsMean(n: nat)
    ensures AllDigits(Digits(n)) && Number(Digits(n)) == n && (n > 0 ==> Digits(n)[0] != '0') && (n == 0 ==> Digits(n) == "0")
    ensures forall i: int :: (i == n ==> ToString(i) == Digits(n)) && (i < 0 && -i == n ==> ToString(i) == "-" + Digits(n))
    decreases n
  {
    DigitsAreANumber(n);
    if n >= 10 {
      DigitsMean(n / 10);
    }
  }
}
