/** A rendered predicate can be taken apart again, and means what the tree means. */
module PredicateMeaning {
  import opened Options
  import opened Predicates

  // ---------- brackets ----------

  lemma {:induction false} ScanAppend(a: string, b: string, depth: nat)
    requires Scan(a, depth).Some?
    ensures Scan(a + b, depth) == Scan(b, Scan(a, depth).value)
    decreases |a|
  {
    if a == "" {
      assert a + b == b;
    } else {
      assert (a + b)[1..] == a[1..] + b;
      ScanAppend(a[1..], b, if a[0] == '(' then depth + 1 else if a[0] == ')' then depth - 1 else depth);
    }
  }

  lemma BalancedAppend(a: string, b: string)
    requires Balanced(a) && Balanced(b)
    ensures Balanced(a + b)
  {
    ScanAppend(a, b, 0);
  }

  /** The bracket that closes is the one after `x`, when `x` is balanced. */
  lemma {:induction false} ClosingAfter(x: string, rest: string, depth: nat)
    requires Scan(x, depth) == Some(0)
    ensures Closing(x + (")" + rest), depth + 1) == Some(|x| + 1)
    decreases |x|
  {
    var s := x + (")" + rest);
    if x == "" {
      assert s[0] == ')';
    } else {
      assert s[1..] == x[1..] + (")" + rest);
      ClosingAfter(x[1..], rest, if x[0] == '(' then depth + 1 else if x[0] == ')' then depth - 1 else depth);
    }
  }

  lemma {:induction false} BracketedIsBalanced(x: string, depth: nat)
    requires Scan(x, depth) == Some(0)
    ensures Scan(x + ")", depth + 1) == Some(0)
    decreases |x|
  {
    if x == "" {
      assert x + ")" == ")" && ")"[1..] == "";
    } else {
      assert (x + ")")[1..] == x[1..] + ")";
      BracketedIsBalanced(x[1..], if x[0] == '(' then depth + 1 else if x[0] == ')' then depth - 1 else depth);
    }
  }

  lemma InBrackets(x: string)
    requires Balanced(x)
    ensures Balanced("(" + x + ")")
  {
    BracketedIsBalanced(x, 0);
    assert ("(" + x + ")")[1..] == x + ")";
  }

  // ---------- taking apart ----------

  predicate AllBalanced(texts: seq<string>) {
    forall i | 0 <= i < |texts| :: Balanced(texts[i])
  }

  lemma BracketParts(x: string, rest: string)
    ensures var s := "(" + x + ")" + rest;
      && s != "" && s[0] == '(' && s[1..] == x + (")" + rest) && |s| >= |x| + 2
      && s[1..|x| + 1] == x && s[|x| + 2..] == rest
  {
  }

  lemma SplitAt(s: string, n: nat, op: Operator)
    requires op != NOT && s != "" && s[0] == '(' && n < |s| && Closing(s[1..], 1) == Some(n)
    ensures Split(s, op) == After(s[1..n], s[n + 1..], op)
  {
    hide Closing, After;
  }

  lemma ClosingFirst(x: string, rest: string)
    requires Balanced(x)
    ensures Closing(x + (")" + rest), 1) == Some(|x| + 1)
  {
    ClosingAfter(x, rest, 0);
  }

  /** The first operand and what follows it. */
  lemma SplitFirst(x: string, rest: string, op: Operator)
    requires op != NOT && Balanced(x)
    ensures Split("(" + x + ")" + rest, op) == After(x, rest, op)
  {
    hide *;
    BracketParts(x, rest);
    ClosingFirst(x, rest);
    SplitAt("(" + x + ")" + rest, |x| + 1, op);
  }

  lemma MoreAfter(x: string, rest: string, op: Operator, others: seq<string>)
    requires op != NOT && Split(rest, op) == Some(others)
    ensures After(x, Separator(op) + rest, op) == Some([x] + others)
  {
    hide Split;
    assert (Separator(op) + rest)[|Separator(op)|..] == rest;
  }

  /** Rendering operands and taking the expression apart gives the operands back, in order. */
  lemma {:induction false} SplitJoined(op: Operator, texts: seq<string>)
    requires op != NOT && texts != [] && AllBalanced(texts)
    ensures Split(Joined(op, texts), op) == Some(texts)
    decreases |texts|
  {
    var (first, others) := (texts[0], texts[1..]);
    assert texts == [first] + others;
    JoinedParts(op, texts);
    hide Split, After, Joined, Separator;
    if others == [] {
      SplitFirst(first, "", op);
      LastAfter(first, op);
      assert texts == [first];
      assert Joined(op, texts) == "(" + first + ")" + "";
    } else {
      SplitJoined(op, others);
      SplitFirst(first, Separator(op) + Joined(op, others), op);
      MoreAfter(first, Joined(op, others), op, others);
      assert |texts| > 1;
    }
  }

  lemma LastAfter(x: string, op: Operator)
    requires op != NOT
    ensures After(x, "", op) == Some([x])
  {
  }

  lemma JoinedParts(op: Operator, texts: seq<string>)
    requires op != NOT && texts != []
    ensures Joined(op, texts) == "(" + texts[0] + ")" + if |texts| == 1 then "" else Separator(op) + Joined(op, texts[1..])
  {
  }

  /** A disjunction of several operands is not taken for a conjunction. */
  lemma OrIsNotAnd(texts: seq<string>)
    requires |texts| > 1 && AllBalanced(texts)
    ensures Split(Joined(OR, texts), AND) == None
  {
    var rest := Separator(OR) + Joined(OR, texts[1..]);
    SplitFirst(texts[0], rest, AND);
    assert Joined(OR, texts) == "(" + texts[0] + ")" + rest;
    hide Split, Joined;
    assert rest[1] == 'o' && Separator(AND)[1] == 'a';
  }

  lemma NotMistaken(op: Operator, texts: seq<string>)
    requires op != NOT && texts != []
    ensures Joined(op, texts) != "" && !("not (" <= Joined(op, texts))
  {
    assert Joined(op, texts)[0] == '(' && "not ("[0] == 'n';
  }

  lemma OnlyOne(texts: seq<string>)
    requires |texts| == 1
    ensures Joined(AND, texts) == Joined(OR, texts)
  {
  }

  lemma EvalSplit(s: string, op: Operator, texts: seq<string>, holds: string -> bool)
    requires op != NOT && s != "" && !("not (" <= s) && Split(s, op) == Some(texts) && (op == OR ==> Split(s, AND) == None)
    ensures Eval(s, holds) == if op == AND then forall t | t in texts :: Eval(t, holds) else exists t | t in texts :: Eval(t, holds)
  {
    hide Split;
  }

  lemma OneOfOne(texts: seq<string>, holds: string -> bool)
    requires |texts| == 1
    ensures (forall t | t in texts :: Eval(t, holds)) == (exists t | t in texts :: Eval(t, holds))
  {
    hide Eval;
    assert texts[0] in texts && forall t <- texts :: t == texts[0];
  }

  lemma EvalJoined(op: Operator, texts: seq<string>, holds: string -> bool)
    requires op != NOT && texts != [] && AllBalanced(texts)
    ensures Eval(Joined(op, texts), holds) ==
      if op == AND then forall t | t in texts :: Eval(t, holds) else exists t | t in texts :: Eval(t, holds)
  {
    hide *;
    SplitJoined(op, texts);
    NotMistaken(op, texts);
    if op == OR && |texts| == 1 {
      OnlyOne(texts);
      SplitJoined(AND, texts);
      EvalSplit(Joined(AND, texts), AND, texts, holds);
      OneOfOne(texts, holds);
    } else if op == OR {
      OrIsNotAnd(texts);
      EvalSplit(Joined(OR, texts), OR, texts, holds);
    } else {
      EvalSplit(Joined(AND, texts), AND, texts, holds);
    }
  }

  lemma EvalNot(x: string, holds: string -> bool)
    requires Balanced(x)
    ensures Eval("not (" + x + ")", holds) == !Eval(x, holds)
  {
    var s := "not (" + x + ")";
    assert s[4..] == Joined(AND, [x]);
    SplitJoined(AND, [x]);
  }

  // ---------- balanced leaves make balanced trees ----------

  lemma WordsAreBalanced()
    ensures Balanced("") && Balanced(" and ") && Balanced(" or ") && Balanced("not ")
  {
    NoBrackets("");
    NoBrackets(" and ");
    NoBrackets(" or ");
    NoBrackets("not ");
  }

  lemma {:induction false} NoBrackets(s: string)
    requires '(' !in s && ')' !in s
    ensures Balanced(s)
    decreases |s|
  {
    if s != "" {
      assert s == [s[0]] + s[1..];
      NoBrackets(s[1..]);
    }
  }

  lemma {:induction false} JoinedIsBalanced(op: Operator, texts: seq<string>)
    requires op != NOT && AllBalanced(texts)
    ensures Balanced(Joined(op, texts))
    decreases |texts|
  {
    WordsAreBalanced();
    if texts != [] {
      hide Balanced;
      InBrackets(texts[0]);
      JoinedIsBalanced(op, texts[1..]);
      BalancedAppend(Separator(op), Joined(op, texts[1..]));
      BalancedAppend("(" + texts[0] + ")", if |texts| == 1 then "" else Separator(op) + Joined(op, texts[1..]));
    }
  }

  lemma {:induction false} TextAt(ps: seq<Predicate>, i: nat)
    requires i < |ps|
    ensures Texts(ps)[i] == ToString(ps[i])
    decreases |ps|
  {
    hide ToString;
    if i > 0 {
      TextAt(ps[1..], i - 1);
    }
  }

  lemma {:induction false} KeptAreBalanced(texts: seq<string>)
    requires AllBalanced(texts)
    ensures AllBalanced(Kept(texts))
    decreases |texts|
  {
    hide Balanced;
    if texts != [] {
      KeptAreBalanced(texts[1..]);
    }
  }

  lemma CombinedIsBalanced(op: Operator, texts: seq<string>)
    requires texts != [] && AllBalanced(texts)
    ensures Balanced(Combined(op, texts))
  {
    WordsAreBalanced();
    hide Balanced, Joined;
    KeptAreBalanced(texts);
    match op
    case NOT =>
      InBrackets(texts[0]);
      BalancedAppend("not ", "(" + texts[0] + ")");
      assert "not " + ("(" + texts[0] + ")") == "not (" + texts[0] + ")";
    case AND => JoinedIsBalanced(AND, Kept(texts));
    case OR => JoinedIsBalanced(OR, texts);
  }

  lemma {:induction false} TreeIsBalanced(p: Predicate)
    requires LeavesBalanced(p)
    ensures Balanced(ToString(p))
    decreases p
  {
    if p.Compound? {
      WordsAreBalanced();
      if p.predicates != [] {
        TextsAreBalanced(p.predicates);
        CombinedIsBalanced(p.op, Texts(p.predicates));
      }
    }
  }

  lemma {:induction false} TextsAreBalanced(ps: seq<Predicate>)
    requires forall i | 0 <= i < |ps| :: LeavesBalanced(ps[i])
    ensures AllBalanced(Texts(ps))
    decreases ps
  {
    forall i | 0 <= i < |ps|
      ensures Balanced(Texts(ps)[i])
    {
      TextAt(ps, i);
      TreeIsBalanced(ps[i]);
    }
  }

  // ---------- the meaning ----------

  lemma NothingSaysYes(holds: string -> bool)
    ensures Eval("", holds)
  {
  }

  lemma {:induction false} KeptMean(texts: seq<string>, holds: string -> bool)
    ensures (forall t | t in Kept(texts) :: Eval(t, holds)) <==> forall i | 0 <= i < |texts| :: Eval(texts[i], holds)
    decreases |texts|
  {
    NothingSaysYes(holds);
    hide Eval;
    if texts != [] {
      KeptMean(texts[1..], holds);
      assert texts == [texts[0]] + texts[1..];
      assert forall i | 0 < i < |texts| :: texts[i] == texts[1..][i - 1];
    }
  }

  predicate CombinedMeaning(op: Operator, texts: seq<string>, holds: string -> bool)
    requires texts != []
  {
    match op
    case NOT => !Eval(texts[0], holds)
    case AND => forall i | 0 <= i < |texts| :: Eval(texts[i], holds)
    case OR => exists i | 0 <= i < |texts| :: Eval(texts[i], holds)
  }

  /** Leaving out what says nothing is right for AND and OR, but not for NOT. */
  lemma CombinedMeans(op: Operator, texts: seq<string>, holds: string -> bool)
    requires texts != [] && AllBalanced(texts)
    ensures Eval(Combined(op, texts), holds) == CombinedMeaning(op, texts, holds) <==> !(op == NOT && texts[0] == "")
  {
    assert Eval("", holds);
    hide Eval, Joined, Balanced;
    match op
    case NOT => EvalNot(texts[0], holds);
    case AND =>
      KeptAreBalanced(texts);
      KeptMean(texts, holds);
      if Kept(texts) == [] {
        NothingJoined(AND);
      } else {
        EvalJoined(AND, Kept(texts), holds);
      }
    case OR =>
      if "" in texts {
        var i :| 0 <= i < |texts| && texts[i] == "";
        assert Eval(texts[i], holds);
      } else {
        EvalJoined(OR, texts, holds);
        SomeAt(texts, holds);
      }
  }

  lemma SomeAt(texts: seq<string>, holds: string -> bool)
    ensures (exists t | t in texts :: Eval(t, holds)) <==> exists i | 0 <= i < |texts| :: Eval(texts[i], holds)
  {
    hide Eval;
    if t :| t in texts && Eval(t, holds) {
      var i :| 0 <= i < |texts| && texts[i] == t;
    }
  }

  lemma NothingJoined(op: Operator)
    requires op != NOT
    ensures Joined(op, []) == ""
  {
  }

  /** The rendered expression says of every row what the tree says, if nothing is negated that says
      nothing. */
  lemma {:induction false} RenderingKeepsMeaning(p: Predicate, holds: string -> bool)
    requires LeavesBalanced(p) && NothingNegated(p)
    ensures Eval(ToString(p), holds) == Meaning(p, holds)
    decreases p
  {
    if p.Compound? && p.predicates != [] {
      var (ps, texts) := (p.predicates, Texts(p.predicates));
      TextsAreBalanced(ps);
      forall i | 0 <= i < |ps|
        ensures Eval(texts[i], holds) == Meaning(ps[i], holds)
      {
        TextAt(ps, i);
        RenderingKeepsMeaning(ps[i], holds);
      }
      TextAt(ps, 0);
      CombinedMeans(p.op, texts, holds);
    }
  }

  /** `q` occurs somewhere in `p`. */
  ghost predicate Inside(q: Predicate, p: Predicate) {
    || q == p
    || (p.Compound? && exists i | 0 <= i < |p.predicates| :: Inside(q, p.predicates[i]))
  }

  /** That nothing is negated which says nothing is a matter of the negations in the tree only. */
  lemma {:induction false} NothingNegatedMeans(p: Predicate)
    ensures NothingNegated(p) <==>
            forall q | Inside(q, p) && q.Compound? && q.op == NOT && q.predicates != [] :: ToString(q.predicates[0]) != ""
    decreases p
  {
    hide ToString;
    if p.Compound? {
      forall i | 0 <= i < |p.predicates| {
        NothingNegatedMeans(p.predicates[i]);
      }
      forall q, i | 0 <= i < |p.predicates| && Inside(q, p.predicates[i])
        ensures Inside(q, p)
      {
      }
    }
  }

  /** A negation keeps its meaning exactly if what is negated says something: otherwise the tree says
      no of every row, and the expression says yes. */
  lemma NegatingNothing(p: Predicate, holds: string -> bool)
    requires LeavesBalanced(p) && NothingNegated(p)
    ensures var q := Compound(NOT, [p]);
      Eval(ToString(q), holds) == Meaning(q, holds) <==> ToString(p) != ""
  {
    var q := Compound(NOT, [p]);
    RenderingKeepsMeaning(p, holds);
    TreeIsBalanced(p);
    TextAt([p], 0);
    assert |Texts([p])| == 1 && AllBalanced(Texts([p]));
    CombinedMeans(NOT, Texts([p]), holds);
  }

  /** A tree that says nothing, told by its form. */
  predicate Vacuous(p: Predicate) {
    match p
    case Absent => true
    case Raw(expr) => expr == ""
    case Compound(op, ps) =>
      || ps == []
      || (op == NOT && Vacuous(ps[0]))
      || (op == AND && forall i | 0 <= i < |ps| :: Vacuous(ps[i]))
      || (op == OR && exists i | 0 <= i < |ps| :: Vacuous(ps[i]))
    case _ => false
  }

  lemma {:induction false} VacuousRendersEmpty(p: Predicate)
    ensures ToString(p) == "" <==> Vacuous(p)
    decreases p
  {
    if p.Compound? && p.predicates != [] {
      var (ps, texts) := (p.predicates, Texts(p.predicates));
      forall i | 0 <= i < |ps|
        ensures texts[i] == "" <==> Vacuous(ps[i])
      {
        TextAt(ps, i);
        VacuousRendersEmpty(ps[i]);
      }
      CombinedIsEmpty(p.op, texts);
      hide Combined;
    }
  }

  lemma CombinedIsEmpty(op: Operator, texts: seq<string>)
    requires texts != []
    ensures Combined(op, texts) == "" <==>
      match op
      case NOT => texts[0] == ""
      case AND => forall i | 0 <= i < |texts| :: texts[i] == ""
      case OR => exists i | 0 <= i < |texts| :: texts[i] == ""
  {
    match op
    case NOT =>
    case AND =>
      NothingKept(texts);
      if Kept(texts) != [] {
        NotMistaken(AND, Kept(texts));
      }
    case OR => NotMistaken(OR, texts);
  }

  lemma {:induction false} NothingKept(texts: seq<string>)
    ensures Kept(texts) == [] <==> forall i | 0 <= i < |texts| :: texts[i] == ""
    decreases |texts|
  {
    if texts != [] {
      NothingKept(texts[1..]);
      assert forall i | 0 < i < |texts| :: texts[i] == texts[1..][i - 1];
    }
  }

  /** The operands of a conjunction that say something come back from its text, in order and
      unchanged. */
  lemma OperandsComeBack(ps: seq<Predicate>)
    requires (forall i | 0 <= i < |ps| :: LeavesBalanced(ps[i])) && !Vacuous(Compound(AND, ps))
    ensures Split(ToString(Compound(AND, ps)), AND) == Some(Kept(Texts(ps)))
  {
    var texts := Texts(ps);
    TextsAreBalanced(ps);
    KeptAreBalanced(texts);
    VacuousRendersEmpty(Compound(AND, ps));
    hide Split, Vacuous;
    SplitJoined(AND, Kept(texts));
  }
}
