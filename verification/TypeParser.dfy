/** The parser as it runs: it moves along one list of tokens. */
module TypeParsers {
  import opened Bytes
  import opened ColumnTypes
  import opened Options
  import opened TypeTokens
  import opened TypeStrings

  /** `Threw` is an exception; `Strayed` is the dereference of the end iterator. */
  datatype Result<+T> = Ok(value: T) | Threw | Strayed

  function Prepended(ms: seq<Member>, p: Parse<seq<Member>>): Parse<seq<Member>> {
    if p.Parsed? then Parsed(ms + p.value, p.rest) else p
  }

  lemma PrependedTwice(ms: seq<Member>, m: Member, p: Parse<seq<Member>>)
    ensures Prepended(ms, Prepended([m], p)) == Prepended(ms + [m], p)
    ensures Prepended([], p) == p
  {
    if p.Parsed? {
      assert ms + ([m] + p.value) == ms + [m] + p.value && [] + p.value == p.value;
    }
  }

  lemma MembersStep(ts: seq<string>)
    requires ts != [] && ts[0] != ">"
    ensures ParseMembers(ts) == match ParseMember(ts)
      case Parsed(m, rest) => Prepended([m], ParseMembers(rest))
      case Corrupted => Corrupted
      case PastEnd => PastEnd
  {
    hide ParseMember;
  }

  class TypeParser {
    const tokens: seq<string>
    var pos: nat

    constructor (tokens: seq<string>)
      ensures this.tokens == tokens && pos == 0
    {
      this.tokens, pos := tokens, 0;
    }

    predicate Valid()
      reads this
    {
      pos <= |tokens|
    }

    function Left(): seq<string>
      requires Valid()
      reads this
    {
      tokens[pos..]
    }

    /** The parser did what the specification says, and stands where it says. */
    predicate Agrees<T(==)>(r: Result<T>, p: Parse<T>)
      requires Valid()
      reads this
    {
      match r
      case Ok(v) => p == Parsed(v, Left())
      case Threw => p == Corrupted
      case Strayed => p == PastEnd
    }

    method ExpectToken(str: string) returns (r: Result<()>)
      requires Valid()
      modifies this
      ensures Valid() && Agrees(r, TypeStrings.ExpectToken(old(Left()), str))
      ensures !r.Ok? ==> r.Threw? && pos == old(pos)
    {
      if pos == |tokens| || tokens[pos] != str {
        return Threw;
      }
      pos := pos + 1;
      r := Ok(());
    }

    method ExpectInteger() returns (r: Result<Int32>)
      requires Valid()
      modifies this
      ensures Valid() && Agrees(r, TypeStrings.ExpectInteger(old(Left()))) && !r.Strayed?
    {
      if pos == |tokens| || tokens[pos] == "" || !AllDigits(tokens[pos]) || Number(tokens[pos]) > 0x7FFF_FFFF {
        return Threw;
      }
      r := Ok(Number(tokens[pos]));
      pos := pos + 1;
    }

    method ParseLength() returns (r: Result<Int32>)
      requires Valid()
      modifies this
      ensures Valid() && Agrees(r, TypeStrings.ParseLength(old(Left())))
    {
      hide TypeStrings.ExpectInteger;
      var open := ExpectToken("(");
      if !open.Ok? { return Threw; }
      r := ExpectInteger();
      if !r.Ok? { return; }
      var close := ExpectToken(")");
      if !close.Ok? { return Threw; }
    }

    method ParseDecimal() returns (r: Result<Type>)
      requires Valid()
      modifies this
      ensures Valid() && Agrees(r, TypeStrings.ParseDecimal(old(Left())))
    {
      hide TypeStrings.ExpectInteger;
      var open := ExpectToken("(");
      if !open.Ok? { return Ok(Decimal(54, 18)); }
      var precision := ExpectInteger();
      if !precision.Ok? { return Threw; }
      var comma := ExpectToken(",");
      if !comma.Ok? { return Threw; }
      var scale := ExpectInteger();
      if !scale.Ok? { return Threw; }
      var close := ExpectToken(")");
      if !close.Ok? { return Threw; }
      r := Ok(Decimal(precision.value, scale.value));
    }

    method ParseType() returns (r: Result<Type>)
      requires Valid()
      modifies this
      ensures Valid() && Agrees(r, TypeStrings.ParseType(old(Left())))
      decreases |tokens| - pos, 0
    {
      hide NamedType, TypeStrings.ParseBody;
      if pos == |tokens| || NamedType(tokens[pos]).None? {
        return Threw;
      }
      var t := NamedType(tokens[pos]).value;
      pos := pos + 1;
      r := ParseBody(t);
    }

    method ParseBody(t: Type) returns (r: Result<Type>)
      requires Valid()
      modifies this
      ensures Valid() && Agrees(r, TypeStrings.ParseBody(t, old(Left())))
      decreases |tokens| - pos, 3
    {
      hide TypeStrings.ParseDecimal, TypeStrings.ParseLength, TypeStrings.ParseArray, TypeStrings.ParseMap, TypeStrings.ParseStruct;
      match t
      case Decimal(_, _) => r := ParseDecimal();
      case Char(_) =>
        var n := ParseLength();
        r := if n.Ok? then Ok(Char(n.value)) else if n.Threw? then Threw else Strayed;
      case Varchar(_) =>
        var n := ParseLength();
        r := if n.Ok? then Ok(Varchar(n.value)) else if n.Threw? then Threw else Strayed;
      case Array(_) => r := ParseArray();
      case Map(_, _) => r := ParseMap();
      case Struct(_) => r := ParseStruct();
      case _ => r := Ok(t);
    }

    method ParseArray() returns (r: Result<Type>)
      requires Valid()
      modifies this
      ensures Valid() && Agrees(r, TypeStrings.ParseArray(old(Left())))
      decreases |tokens| - pos, 2
    {
      hide TypeStrings.ParseType;
      var open := ExpectToken("<");
      if !open.Ok? { return Threw; }
      var elem := ParseType();
      if !elem.Ok? { return elem; }
      var close := ExpectToken(">");
      if !close.Ok? { return Threw; }
      r := Ok(Array(elem.value));
    }

    method ParseMap() returns (r: Result<Type>)
      requires Valid()
      modifies this
      ensures Valid() && Agrees(r, TypeStrings.ParseMap(old(Left())))
      decreases |tokens| - pos, 2
    {
      hide TypeStrings.ParseType;
      var open := ExpectToken("<");
      if !open.Ok? { return Threw; }
      var key := ParseType();
      if !key.Ok? { return key; }
      var comma := ExpectToken(",");
      if !comma.Ok? { return Threw; }
      var val := ParseType();
      if !val.Ok? { return val; }
      var close := ExpectToken(">");
      if !close.Ok? { return Threw; }
      r := Ok(Map(key.value, val.value));
    }

    method ParseStruct() returns (r: Result<Type>)
      requires Valid()
      modifies this
      ensures Valid() && Agrees(r, TypeStrings.ParseStruct(old(Left())))
      decreases |tokens| - pos, 2
    {
      hide TypeStrings.ParseType, TypeStrings.ParseMembers;
      var open := ExpectToken("<");
      if !open.Ok? { return Threw; }
      var members := ParseMembers();
      if !members.Ok? { return if members.Threw? then Threw else Strayed; }
      var close := ExpectToken(">");
      if !close.Ok? || members.value == [] { return Threw; }
      r := Ok(Struct(members.value));
    }

    /** The loop over NAME:TYPE pairs; it looks at the next token without asking whether there is one. */
    method ParseMembers() returns (r: Result<seq<Member>>)
      requires Valid()
      modifies this
      ensures Valid() && Agrees(r, TypeStrings.ParseMembers(old(Left())))
      decreases |tokens| - pos, 1
    {
      hide TypeStrings.ParseMember;
      var members := [];
      PrependedTwice([], Member("", Json), TypeStrings.ParseMembers(Left()));
      while pos < |tokens| && tokens[pos] != ">"
        invariant Valid() && old(pos) <= pos
        invariant TypeStrings.ParseMembers(old(Left())) == Prepended(members, TypeStrings.ParseMembers(Left()))
        decreases |tokens| - pos
      {
        MembersStep(Left());
        var member := ParseMember();
        if !member.Ok? {
          return if member.Threw? then Threw else Strayed;
        }
        PrependedTwice(members, member.value, TypeStrings.ParseMembers(Left()));
        members := members + [member.value];
      }
      assert members + [] == members;
      r := if pos == |tokens| then Strayed else Ok(members);
    }

    method ParseMember() returns (r: Result<Member>)
      requires Valid() && pos < |tokens|
      modifies this
      ensures Valid() && Agrees(r, TypeStrings.ParseMember(old(Left())))
      decreases |tokens| - pos, 0
    {
      hide TypeStrings.ParseType;
      var name := tokens[pos];
      pos := pos + 1;
      var colon := ExpectToken(":");
      if !colon.Ok? { return Threw; }
      var t := ParseType();
      if !t.Ok? { return if t.Threw? then Threw else Strayed; }
      if pos == |tokens| { return Strayed; }
      if tokens[pos] != ">" {
        var comma := ExpectToken(",");
        if !comma.Ok? { return Threw; }
      }
      r := Ok(Member(name, t.value));
    }
  }

  /** Parsing a type string. */
  method ParseTypeInfoString(infoString: string) returns (r: Result<Type>)
    ensures match TypeStrings.ParseTypeInfoString(infoString)
      case Parsed(t, rest) => r == Ok(t) && rest == []
      case Corrupted => r == Threw
      case PastEnd => r == Strayed
  {
    var tokens := Tokenize(infoString);
    var parser := new TypeParser(tokens);
    r := parser.ParseType();
    if r.Ok? && parser.pos != |tokens| {
      r := Threw;
    }
  }
}
