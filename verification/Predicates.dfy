/** Filter predicates: how a tree of conditions is written as one expression, with conditions that
    say nothing left out, and when that expression still means what the tree means. */
module Predicates {
  import opened Options

  datatype Operator = AND | OR | NOT

  datatype Comparison = EQUALS | NOT_EQUALS | GREATER_THAN | LESS_THAN | GREATER_THAN_OR_EQUAL | LESS_THAN_OR_EQUAL

  /** `Absent` is the null pointer, which may stand wherever a predicate may. */
  datatype Predicate =
    | Absent
    | Raw(expr: string)
    | Binary(cmp: Comparison, left: string, right: string)
    | IsNull(operand: string, negated: bool)
    | In(operand: string, values: seq<string>, negated: bool)
    | Compound(op: Operator, predicates: seq<Predicate>)

  // ---------- rendering ----------

  function Symbol(cmp: Comparison): string {
    match cmp
    case EQUALS => "="
    case NOT_EQUALS => "!="
    case GREATER_THAN => ">"
    case LESS_THAN => "<"
    case GREATER_THAN_OR_EQUAL => ">="
    case LESS_THAN_OR_EQUAL => "<="
  }

  function Listed(values: seq<string>): string {
    if values == [] then "" else if |values| == 1 then values[0] else values[0] + ", " + Listed(values[1..])
  }

  function Separator(op: Operator): string
    requires op != NOT
  {
    if op == AND then " and " else " or "
  }

  /** The texts in brackets with the operator between them. */
  function Joined(op: Operator, texts: seq<string>): string
    requires op != NOT
  {
    if texts == [] then ""
    else "(" + texts[0] + ")" + if |texts| == 1 then "" else Separator(op) + Joined(op, texts[1..])
  }

  function Kept(texts: seq<string>): (kept: seq<string>)
    ensures "" !in kept && |kept| <= |texts|
  {
    if texts == [] then [] else if texts[0] == "" then Kept(texts[1..]) else [texts[0]] + Kept(texts[1..])
  }

  /** Nothing and something is something; nothing or something is nothing; not nothing is nothing. */
  function Combined(op: Operator, texts: seq<string>): string
    requires texts != []
  {
    match op
    case NOT => if texts[0] == "" then "" else "not (" + texts[0] + ")"
    case AND => Joined(AND, Kept(texts))
    case OR => if "" in texts then "" else Joined(OR, texts)
  }

  function ToString(p: Predicate): string
    decreases p, 1
  {
    match p
    case Absent => ""
    case Raw(expr) => expr
    case Binary(cmp, left, right) => left + " " + Symbol(cmp) + " " + right
    case IsNull(operand, negated) => operand + if negated then " is not null" else " is null"
    case In(operand, values, negated) => operand + (if negated then " not in (" else " in (") + Listed(values) + ")"
    case Compound(op, ps) => if ps == [] then "" else Combined(op, Texts(ps))
  }

  function Texts(ps: seq<Predicate>): (texts: seq<string>)
    ensures |texts| == |ps|
    decreases ps, 0
  {
    if ps == [] then [] else [ToString(ps[0])] + Texts(ps[1..])
  }

  // ---------- reading a rendered expression ----------

  /** The nesting depth after `s`, when it was `depth` before; none if a bracket closes that is not open. */
  function Scan(s: string, depth: nat): Option<nat> {
    if s == "" then Some(depth)
    else if s[0] == '(' then Scan(s[1..], depth + 1)
    else if s[0] != ')' then Scan(s[1..], depth)
    else if depth == 0 then None
    else Scan(s[1..], depth - 1)
  }

  predicate Balanced(s: string) {
    Scan(s, 0) == Some(0)
  }

  /** How far it is to where `depth` open brackets are closed. */
  function Closing(s: string, depth: nat): (n: Option<nat>)
    requires depth > 0
    ensures n.Some? ==> 0 < n.value <= |s|
  {
    if s == "" then None
    else if s[0] == ')' && depth == 1 then Some(1)
    else
      match Closing(s[1..], if s[0] == '(' then depth + 1 else if s[0] == ')' then depth - 1 else depth)
      case None => None
      case Some(n) => Some(n + 1)
  }

  /** The operands of an expression that consists of bracketed operands with `op` between them. */
  function Split(s: string, op: Operator): (texts: Option<seq<string>>)
    requires op != NOT
    ensures texts.Some? ==> texts.value != [] && forall t <- texts.value :: |t| < |s|
    decreases |s|, 0
  {
    if s == "" || s[0] != '(' then None
    else
      match Closing(s[1..], 1)
      case None => None
      case Some(n) => After(s[1..n], s[n + 1..], op)
  }

  /** The operands when `first` is one and `rest` is what follows its bracket. */
  function After(first: string, rest: string, op: Operator): (texts: Option<seq<string>>)
    requires op != NOT
    ensures texts.Some? ==> texts.value != [] && forall t <- texts.value :: t == first || |t| < |rest|
    decreases |rest|, 1
  {
    if rest == "" then Some([first])
    else
      var word := if op == AND then " and " else " or ";
      if !(word <= rest) then None
      else
        match Split(rest[|word|..], op)
        case None => None
        case Some(others) => Some([first] + others)
  }

  /** What an expression says of a row, when `holds` tells it of expressions without structure. No
      expression at all says yes. */
  function Eval(s: string, holds: string -> bool): bool
    decreases |s|
  {
    if s == "" then true
    else if "not (" <= s && Split(s[4..], AND).Some? && |Split(s[4..], AND).value| == 1 then
      !Eval(Split(s[4..], AND).value[0], holds)
    else if Split(s, AND).Some? then forall t | t in Split(s, AND).value :: Eval(t, holds)
    else if Split(s, OR).Some? then exists t | t in Split(s, OR).value :: Eval(t, holds)
    else holds(s)
  }

  // ---------- what a tree means ----------

  /** A compound without operands is no condition, whatever its operator. */
  function Meaning(p: Predicate, holds: string -> bool): bool {
    match p
    case Compound(op, ps) =>
      if ps == [] then true
      else if op == NOT then !Meaning(ps[0], holds)
      else if op == AND then forall i | 0 <= i < |ps| :: Meaning(ps[i], holds)
      else exists i | 0 <= i < |ps| :: Meaning(ps[i], holds)
    case _ => Eval(ToString(p), holds)
  }

  predicate LeavesBalanced(p: Predicate) {
    match p
    case Compound(_, ps) => forall i | 0 <= i < |ps| :: LeavesBalanced(ps[i])
    case _ => Balanced(ToString(p))
  }

  /** No negation is applied to a condition that says nothing. */
  predicate NothingNegated(p: Predicate) {
    match p
    case Compound(op, ps) =>
      && (op == NOT && ps != [] ==> ToString(ps[0]) != "")
      && forall i | 0 <= i < |ps| :: NothingNegated(ps[i])
    case _ => true
  }
}
