/**
 * Expression trees: the structure an infix expression denotes. They serve as the reference
 * against which the converter (a tree's fully parenthesised text converts to the tree's
 * postfix form) and the evaluator (a tree's postfix form evaluates to the tree's value) are
 * stated.
 */
module ExprTree {
  import opened Numerals
  import opened Tokens

  datatype Expr = Lit(text: string) | Neg(arg: Expr) | Bin(op: OpKind, left: Expr, right: Expr)

  /** Literals are numerals without sign, and every binary node holds a binary operator. */
  predicate WellFormed(e: Expr)
  {
    match e
    case Lit(t) => IsNumeral(t)
    case Neg(a) => WellFormed(a)
    case Bin(op, l, r) => op != Negate && WellFormed(l) && WellFormed(r)
  }

  /** The postfix (reverse Polish) form of a tree. */
  function Postfix(e: Expr): seq<Token>
  {
    match e
    case Lit(t) => [Num(t)]
    case Neg(a) => Postfix(a) + [Op(Negate)]
    case Bin(op, l, r) => Postfix(l) + Postfix(r) + [Op(op)]
  }

  /** The number of operator nodes of a tree. */
  function OpCount(e: Expr): nat
  {
    match e
    case Lit(_) => 0
    case Neg(a) => OpCount(a) + 1
    case Bin(_, l, r) => OpCount(l) + OpCount(r) + 1
  }

  /** The fully parenthesised infix text of a tree: "(-a)" and "(l op r)". */
  function Render(e: Expr): string
  {
    match e
    case Lit(t) => t
    case Neg(a) => "(-" + Render(a) + ")"
    case Bin(op, l, r) => "(" + Render(l) + [OpChar(op)] + Render(r) + ")"
  }

  /** The postfix form lists a tree's operators, one per operator node. */
  lemma {:induction false} PostfixOperators(e: Expr)
    ensures |Operators(Postfix(e))| == OpCount(e)
  {
    match e
    case Lit(t) =>
      assert Postfix(e)[1..] == [];
    case Neg(a) =>
      PostfixOperators(a);
      OperatorsAppend(Postfix(a), [Op(Negate)]);
      assert [Op(Negate)][1..] == [];
    case Bin(op, l, r) =>
      PostfixOperators(l);
      PostfixOperators(r);
      OperatorsAppend(Postfix(l) + Postfix(r), [Op(op)]);
      OperatorsAppend(Postfix(l), Postfix(r));
      assert [Op(op)][1..] == [];
  }
}
