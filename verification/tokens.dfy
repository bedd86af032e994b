/**
 * The tokens of the calculator: numerals, the five operator characters with the unary
 * minus told apart, and parentheses; with the fixed precedence and associativity table.
 */
module Tokens {

  /** The operators; Negate is the unary minus that the Java code writes as the string "u-". */
  datatype OpKind = Plus | Minus | Times | Divide | Power | Negate

  /** A lexical token, an entry of the operator stack or an entry of the postfix list. */
  datatype Token = Num(text: string) | Op(kind: OpKind) | LParen | RParen

  predicate IsOpChar(c: char)
  {
    c == '+' || c == '-' || c == '*' || c == '/' || c == '^'
  }

  /** The binary operator an operator character names. */
  function OpOfChar(c: char): (op: OpKind)
    requires IsOpChar(c)
    ensures op != Negate && OpChar(op) == c
  {
    match c
    case '+' => Plus
    case '-' => Minus
    case '*' => Times
    case '/' => Divide
    case _ => Power
  }

  /** The character an operator is written with (both minus operators use '-'). */
  function OpChar(op: OpKind): char
  {
    match op
    case Plus => '+'
    case Minus => '-'
    case Times => '*'
    case Divide => '/'
    case Power => '^'
    case Negate => '-'
  }

  function Prec(op: OpKind): nat
  {
    match op
    case Negate => 4
    case Power => 3
    case Times | Divide => 2
    case Plus | Minus => 1
  }

  /** Power and unary minus group right to left; the others left to right. */
  predicate IsLeftAssoc(op: OpKind)
  {
    !(op == Power || op == Negate)
  }

  /** Whether an incoming operator pops operator `top` off the stack before it is pushed. */
  predicate ShouldPop(incoming: OpKind, top: OpKind)
  {
    (IsLeftAssoc(incoming) && Prec(incoming) <= Prec(top)) ||
    (!IsLeftAssoc(incoming) && Prec(incoming) < Prec(top))
  }

  /** The pop rule written out as a table. */
  lemma PopRuleTable(incoming: OpKind, top: OpKind)
    ensures incoming == Negate ==> !ShouldPop(incoming, top)
    ensures incoming == Power ==> (ShouldPop(incoming, top) <==> top == Negate)
    ensures incoming in {Times, Divide} ==> (ShouldPop(incoming, top) <==> top !in {Plus, Minus})
    ensures incoming in {Plus, Minus} ==> ShouldPop(incoming, top)
  {
  }

  /** The literal text of a token, as the Java list holds it. */
  function TokenText(t: Token): string
  {
    match t
    case Num(s) => s
    case Op(Negate) => "u-"
    case Op(op) => [OpChar(op)]
    case LParen => "("
    case RParen => ")"
  }

  /** The numerals of a token sequence, in order. */
  function Numbers(ts: seq<Token>): seq<string>
  {
    if ts == [] then [] else (if ts[0].Num? then [ts[0].text] else []) + Numbers(ts[1..])
  }

  /** The operators of a token sequence, in order. */
  function Operators(ts: seq<Token>): seq<OpKind>
  {
    if ts == [] then [] else (if ts[0].Op? then [ts[0].kind] else []) + Operators(ts[1..])
  }

  lemma {:induction false} NumbersAppend(a: seq<Token>, b: seq<Token>)
    ensures Numbers(a + b) == Numbers(a) + Numbers(b)
  {
    if a != [] {
      assert (a + b)[1..] == a[1..] + b;
      NumbersAppend(a[1..], b);
    } else {
      assert a + b == b;
    }
  }

  lemma {:induction false} OperatorsAppend(a: seq<Token>, b: seq<Token>)
    ensures Operators(a + b) == Operators(a) + Operators(b)
  {
    if a != [] {
      assert (a + b)[1..] == a[1..] + b;
      OperatorsAppend(a[1..], b);
    } else {
      assert a + b == b;
    }
  }
}
