/** Rendered leaves, read by a reader that has words of its own, and what whole trees say when every leaf
    is told from its operands instead of its text. */
module LeafMeaning {
  import opened Options
  import opened Predicates
  import opened PredicateMeaning

  // ---------- words ----------

  /** What is before the first space and what is after it. */
  function FirstWord(s: string): Option<(string, string)> {
    if s == "" then None
    else if s[0] == ' ' then Some(("", s[1..]))
    else
      match FirstWord(s[1..])
      case None => None
      case Some(r) => Some(([s[0]] + r.0, r.1))
  }

  lemma {:induction false} FirstWordIs(word: string, rest: string)
    requires ' ' !in word
    ensures FirstWord(word + " " + rest) == Some((word, rest))
    decreases |word|
  {
    var s := word + " " + rest;
    if word == "" {
      assert s[1..] == rest;
    } else {
      assert s[1..] == word[1..] + " " + rest && [word[0]] + word[1..] == word;
      FirstWordIs(word[1..], rest);
    }
  }

  /** The parts between commas that a space follows. */
  function Parts(s: string, part: string): seq<string>
    decreases |s|
  {
    if s == "" then [part]
    else if |s| > 1 && s[0] == ',' && s[1] == ' ' then [part] + Parts(s[2..], "")
    else Parts(s[1..], part + [s[0]])
  }

  lemma {:induction false} PartIs(a: string, rest: string, part: string)
    requires ',' !in a
    ensures Parts(a + rest, part) == Parts(rest, part + a)
    decreases |a|
  {
    if a == "" {
      assert a + rest == rest && part + a == part;
    } else {
      assert (a + rest)[1..] == a[1..] + rest && part + [a[0]] + a[1..] == part + a;
      PartIs(a[1..], rest, part + [a[0]]);
    }
  }

  lemma {:induction false} PartsOfList(values: seq<string>)
    requires values != [] && forall v <- values :: ',' !in v
    ensures Parts(Listed(values), "") == values
    decreases |values|
  {
    var (v, more) := (values[0], values[1..]);
    assert v in values && values == [v] + more && "" + v == v;
    if more == [] {
      PartIs(v, "", "");
      assert v + "" == v;
    } else {
      var rest := ", " + Listed(more);
      PartIs(v, rest, "");
      assert v + ", " + Listed(more) == v + rest && rest[2..] == Listed(more);
      PartsOfList(more);
    }
  }

  // ---------- leaves ----------

  function ReadSymbol(word: string): Option<Comparison> {
    if word == "=" then Some(EQUALS)
    else if word == "!=" then Some(NOT_EQUALS)
    else if word == ">" then Some(GREATER_THAN)
    else if word == "<" then Some(LESS_THAN)
    else if word == ">=" then Some(GREATER_THAN_OR_EQUAL)
    else if word == "<=" then Some(LESS_THAN_OR_EQUAL)
    else None
  }

  /** What stands in brackets after these words, up to the last character. */
  function Bracketed(s: string, words: string): Option<seq<string>> {
    if |s| > |words| && words <= s && s[|s| - 1] == ')' then Some(Parts(s[|words|..|s| - 1], "")) else None
  }

  function ReadComparison(operand: string, rest: string): Option<Predicate> {
    match FirstWord(rest)
    case None => None
    case Some(r) =>
      match ReadSymbol(r.0)
      case None => None
      case Some(cmp) => Some(Binary(cmp, operand, r.1))
  }

  function ReadRest(operand: string, rest: string): Option<Predicate> {
    if rest == "is null" then Some(IsNull(operand, false))
    else if rest == "is not null" then Some(IsNull(operand, true))
    else if Bracketed(rest, "in (").Some? then Some(In(operand, Bracketed(rest, "in (").value, false))
    else if Bracketed(rest, "not in (").Some? then Some(In(operand, Bracketed(rest, "not in (").value, true))
    else ReadComparison(operand, rest)
  }

  /** The leaf that a text without structure stands for. */
  function ReadLeaf(s: string): Option<Predicate> {
    match FirstWord(s)
    case None => None
    case Some(r) => ReadRest(r.0, r.1)
  }

  /** No spaces, so that it ends at the first one, and no bracket in front. */
  predicate PlainOperand(x: string) {
    ' ' !in x && (x == "" || x[0] != '(')
  }

  predicate PlainLeaf(p: Predicate) {
    match p
    case Binary(_, left, _) => PlainOperand(left)
    case IsNull(operand, _) => PlainOperand(operand)
    case In(operand, values, _) => PlainOperand(operand) && values != [] && forall v <- values :: ',' !in v
    case _ => false
  }

  lemma SymbolIsRead(cmp: Comparison)
    ensures ReadSymbol(Symbol(cmp)) == Some(cmp)
    ensures ' ' !in Symbol(cmp) && Symbol(cmp) != "" && Symbol(cmp)[0] in "=!><"
  {
  }

  lemma RestIsRead(operand: string, rest: string)
    requires PlainOperand(operand)
    ensures ReadLeaf(operand + " " + rest) == ReadRest(operand, rest)
  {
    FirstWordIs(operand, rest);
    hide FirstWord, ReadRest;
  }

  lemma OtherWords(s: string, words: string)
    requires s != "" && words != "" && s[0] != words[0]
    ensures Bracketed(s, words) == None && s != words
  {
  }

  lemma ComparisonIsRead(cmp: Comparison, left: string, right: string)
    requires PlainOperand(left)
    ensures ReadLeaf(left + " " + Symbol(cmp) + " " + right) == Some(Binary(cmp, left, right))
  {
    SymbolIsRead(cmp);
    FirstWordIs(Symbol(cmp), right);
    hide FirstWord, Symbol, ReadSymbol, Bracketed, ReadLeaf;
    var rest := Symbol(cmp) + " " + right;
    assert left + " " + Symbol(cmp) + " " + right == left + " " + rest;
    RestIsRead(left, rest);
    assert rest[0] == Symbol(cmp)[0];
    OtherWords(rest, "is null");
    OtherWords(rest, "is not null");
    OtherWords(rest, "in (");
    OtherWords(rest, "not in (");
  }

  lemma NullWords(operand: string, negated: bool, rest: string)
    requires PlainOperand(operand) && rest == if negated then "is not null" else "is null"
    ensures ReadLeaf(operand + " " + rest) == Some(IsNull(operand, negated))
  {
    RestIsRead(operand, rest);
    hide ReadLeaf, Bracketed;
  }

  lemma NullTestIsRead(operand: string, negated: bool)
    requires PlainOperand(operand)
    ensures ReadLeaf(operand + if negated then " is not null" else " is null") == Some(IsNull(operand, negated))
  {
    hide ReadLeaf, Bracketed;
    var rest := if negated then "is not null" else "is null";
    NullWords(operand, negated, rest);
    assert operand + (if negated then " is not null" else " is null") == operand + " " + rest;
  }

  lemma MembershipIsRead(operand: string, values: seq<string>, negated: bool)
    requires PlainOperand(operand) && values != [] && forall v <- values :: ',' !in v
    ensures ReadLeaf(operand + (if negated then " not in (" else " in (") + Listed(values) + ")") == Some(In(operand, values, negated))
  {
    hide ReadLeaf, Bracketed, Listed, Parts;
    var words := if negated then "not in (" else "in (";
    var rest := words + Listed(values) + ")";
    BracketsAreRead(words, Listed(values));
    PartsOfList(values);
    NotANullTest(rest);
    RestIsRead(operand, rest);
    if negated {
      OtherWords(rest, "in (");
    }
    assert operand + (if negated then " not in (" else " in (") + Listed(values) + ")" == operand + " " + rest;
  }

  lemma BracketsAreRead(words: string, inner: string)
    ensures Bracketed(words + inner + ")", words) == Some(Parts(inner, ""))
  {
    var s := words + inner + ")";
    hide Parts;
    assert s[|words|..|s| - 1] == inner;
  }

  lemma NotANullTest(s: string)
    requires s != "" && s[|s| - 1] == ')'
    ensures s != "is null" && s != "is not null"
  {
  }

  /** A leaf whose operand is plain is read back from its text, comparison, negation and values. */
  lemma LeafComesBack(p: Predicate)
    requires PlainLeaf(p)
    ensures ReadLeaf(ToString(p)) == Some(p)
  {
    hide ReadLeaf, Symbol, Listed;
    match p
    case Binary(cmp, left, right) => ComparisonIsRead(cmp, left, right);
    case IsNull(operand, negated) => NullTestIsRead(operand, negated);
    case In(operand, values, negated) => MembershipIsRead(operand, values, negated);
  }

  // ---------- trees ----------

  /** A text without structure says what the leaf says that it stands for, if it stands for one. */
  function Reading(says: Predicate -> bool, otherwise: string -> bool): string -> bool {
    (s: string) => match ReadLeaf(s) case Some(leaf) => says(leaf) case None => otherwise(s)
  }

  /** What a tree says, told from its operators and from its leaves as they are, not as they are written.
      An expression that was given as a text says what the text says. */
  function Says(p: Predicate, says: Predicate -> bool, otherwise: string -> bool): bool {
    match p
    case Absent => true
    case Raw(expr) => Eval(expr, Reading(says, otherwise))
    case Compound(op, ps) =>
      if ps == [] then true
      else if op == NOT then !Says(ps[0], says, otherwise)
      else if op == AND then forall i | 0 <= i < |ps| :: Says(ps[i], says, otherwise)
      else exists i | 0 <= i < |ps| :: Says(ps[i], says, otherwise)
    case leaf => says(leaf)
  }

  predicate PlainLeaves(p: Predicate) {
    match p
    case Absent => true
    case Raw(_) => true
    case Compound(_, ps) => forall i | 0 <= i < |ps| :: PlainLeaves(ps[i])
    case leaf => PlainLeaf(leaf)
  }

  /** The text of a plain leaf has no structure. */
  lemma LeafHasNoStructure(p: Predicate, holds: string -> bool)
    requires PlainLeaf(p)
    ensures Eval(ToString(p), holds) == holds(ToString(p))
  {
    var s := ToString(p);
    var left := if p.Binary? then p.left else p.operand;
    LeafBegins(p, left);
    hide ToString;
    assert s != "" && s[0] != '(';
    if "not (" <= s {
      SpaceOfNot(s, |left|);
    }
  }

  lemma SpaceOfNot(s: string, k: nat)
    requires "not (" <= s && k < |s| && s[k] == ' ' && forall i | 0 <= i < k :: s[i] != ' '
    ensures k == 3 && |s| > 4 && s[4] == '('
  {
    var not := "not (";
    assert s[0] == not[0] && s[1] == not[1] && s[2] == not[2] && s[3] == not[3] && s[4] == not[4];
  }

  /** It begins with its operand, a space, and no bracket after that. */
  lemma LeafBegins(p: Predicate, left: string)
    requires PlainLeaf(p) && left == if p.Binary? then p.left else p.operand
    ensures var s := ToString(p);
      && |s| > |left| + 1 && s[|left|] == ' ' && s[|left| + 1] != '(' && (left != "" ==> s[0] == left[0])
      && forall i | 0 <= i < |left| :: s[i] != ' '
  {
    hide Listed;
    if p.Binary? {
      SymbolIsRead(p.cmp);
      hide Symbol;
      assert ToString(p) == left + " " + (Symbol(p.cmp) + " " + p.right);
    }
    assert forall i | 0 <= i < |left| :: ToString(p)[i] == left[i];
  }

  lemma {:induction false} MeaningOfLeaves(p: Predicate, says: Predicate -> bool, otherwise: string -> bool)
    requires PlainLeaves(p)
    ensures Meaning(p, Reading(says, otherwise)) == Says(p, says, otherwise)
    decreases p
  {
    if p.Compound? {
      forall i | 0 <= i < |p.predicates|
        ensures Meaning(p.predicates[i], Reading(says, otherwise)) == Says(p.predicates[i], says, otherwise)
      {
        MeaningOfLeaves(p.predicates[i], says, otherwise);
      }
    } else if !p.Absent? && !p.Raw? {
      LeafHasNoStructure(p, Reading(says, otherwise));
      LeafComesBack(p);
    }
  }

  /** The rendered expression says of every row what the tree says, told from its leaves. */
  lemma RenderingKeepsLeaves(p: Predicate, says: Predicate -> bool, otherwise: string -> bool)
    requires LeavesBalanced(p) && NothingNegated(p) && PlainLeaves(p)
    ensures Eval(ToString(p), Reading(says, otherwise)) == Says(p, says, otherwise)
  {
    hide *;
    RenderingKeepsMeaning(p, Reading(says, otherwise));
    MeaningOfLeaves(p, says, otherwise);
  }
}
