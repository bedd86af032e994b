/**
 * The converter against expression trees: the fully parenthesised text of a well-formed tree
 * converts to exactly the tree's postfix form. Each subtree's text is consumed with the stacks
 * below it left as they were, and its postfix form appended to the output.
 */
module ConversionTrees {
  import opened Wrappers
  import opened Text
  import opened Numerals
  import opened Tokens
  import opened Shunting
  import opened ExprTree
  import opened ConversionSteps

  /** The first character of a tree's text is '(' or starts a numeral; the last is ')' or ends one. */
  lemma RenderEnds(e: Expr)
    requires WellFormed(e)
    ensures |Render(e)| > 0
    ensures Render(e)[0] == '(' || IsNumberChar(Render(e)[0])
    ensures Render(e)[|Render(e)| - 1] == ')' || IsNumberChar(Render(e)[|Render(e)| - 1])
  {
    if e.Lit? {
      AllNumberCharsAt(e.text, 0);
      AllNumberCharsAt(e.text, |e.text| - 1);
    }
  }

  /** The length of a tree's fully parenthesised text, counted without building the text. */
  function Width(e: Expr): nat
  {
    match e
    case Lit(t) => |t|
    case Neg(a) => Width(a) + 3
    case Bin(_, l, r) => Width(l) + Width(r) + 3
  }

  lemma RenderWidth(e: Expr)
    ensures Width(e) == |Render(e)|
  {
  }

  /** A piece of a text found in s at index i is found in s at the piece's offset from i. */
  lemma Within(s: string, i: nat, R: string, k: nat, T: string)
    requires i + |R| <= |s| && s[i..i + |R|] == R
    requires k + |T| <= |R| && R[k..k + |T|] == T
    ensures s[i + k..i + k + |T|] == T
  {
    forall m | 0 <= m < |T| ensures s[i + k + m] == T[m] {
      assert s[i + k + m] == s[i..i + |R|][k + m] == R[k..k + |T|][m];
    }
  }

  /** A character of a text found in s at index i. */
  lemma CharWithin(s: string, i: nat, R: string, k: nat)
    requires i + |R| <= |s| && s[i..i + |R|] == R && k < |R|
    ensures s[i + k] == R[k]
  {
    assert s[i + k] == s[i..i + |R|][k];
  }

  /** Where the pieces of a text "(-" + A + ")" sit when it is found at index i. */
  lemma NegTextAt(s: string, i: nat, A: string)
    requires i + |A| + 3 <= |s| && s[i..i + |A| + 3] == "(-" + A + ")"
    ensures s[i + 2..i + 2 + |A|] == A
    ensures s[i] == '(' && s[i + 1] == '-' && s[i + 2 + |A|] == ')'
  {
    var R := "(-" + A + ")";
    assert R[2..2 + |A|] == A;
    Within(s, i, R, 2, A);
    CharWithin(s, i, R, 0);
    CharWithin(s, i, R, 1);
    CharWithin(s, i, R, 2 + |A|);
  }

  /** Where the pieces of a text "(" + L + c + Q + ")" sit when it is found at index i. */
  lemma BinTextAt(s: string, i: nat, L: string, c: char, Q: string)
    requires i + |L| + |Q| + 3 <= |s| && s[i..i + |L| + |Q| + 3] == "(" + L + [c] + Q + ")"
    ensures s[i + 1..i + 1 + |L|] == L
    ensures s[i + 2 + |L|..i + 2 + |L| + |Q|] == Q
    ensures s[i] == '(' && s[i + 1 + |L|] == c && s[i + 2 + |L| + |Q|] == ')'
  {
    var R := "(" + L + [c] + Q + ")";
    assert R[1..1 + |L|] == L;
    assert R[2 + |L|..2 + |L| + |Q|] == Q;
    Within(s, i, R, 1, L);
    Within(s, i, R, 2 + |L|, Q);
    CharWithin(s, i, R, 0);
    CharWithin(s, i, R, 1 + |L|);
    CharWithin(s, i, R, 2 + |L| + |Q|);
  }

  /** The last character of a well-formed tree's text, found at index i, is ')' or ends a numeral. */
  lemma LastChar(e: Expr, s: string, i: nat)
    requires i + Width(e) <= |s| && s[i..i + Width(e)] == Render(e) && WellFormed(e)
    ensures Width(e) > 0 && (s[i + Width(e) - 1] == ')' || IsNumberChar(s[i + Width(e) - 1]))
  {
    RenderWidth(e);
    RenderEnds(e);
    CharWithin(s, i, Render(e), Width(e) - 1);
  }

  /**
   * The text of a well-formed tree, found at index i and followed by a character that cannot
   * extend a numeral, is consumed with the stack unchanged and the tree's postfix form appended.
   */
  lemma {:induction false} ConvertRendered(e: Expr, s: string, i: nat, j: nat, p: seq<Token>)
    requires WellFormed(e) && j == i + Width(e) && j <= |s| && s[i..j] == Render(e) && p == Postfix(e)
    requires j == |s| || !IsNumberChar(s[j])
    ensures Converts(s, i, j, Nothing, p)
    decreases e, 2
  {
    match e
    case Lit(t) =>
      NumeralConsumes(s, i, t);
    case Neg(a) =>
      NegRendered(a, s, i, j, p);
    case Bin(op, l, r) =>
      BinRendered(op, l, r, s, i, j, p);
  }

  /** "(-a)": the text splits into "(-", a's text and ')'. */
  lemma {:induction false} NegRendered(a: Expr, s: string, i: nat, j: nat, p: seq<Token>)
    requires WellFormed(a) && j == i + 3 + Width(a) && j <= |s| && p == Postfix(a) + [Op(Negate)]
    requires s[i..j] == "(-" + Render(a) + ")"
    ensures Converts(s, i, j, Nothing, p)
    decreases Neg(a), 1
  {
    RenderWidth(a);
    NegTextAt(s, i, Render(a));
    NegConverts(a, s, i, j, p);
  }

  /** "(-a)": after "(-", a's text is consumed and ')' pops the minus. */
  lemma {:induction false} NegConverts(a: Expr, s: string, i: nat, j: nat, p: seq<Token>)
    requires WellFormed(a) && j == i + 3 + Width(a) && j <= |s| && p == Postfix(a) + [Op(Negate)]
    requires s[i] == '(' && s[i + 1] == '-' && s[i + 2..i + 2 + Width(a)] == Render(a)
    requires s[i + 2 + Width(a)] == ')'
    ensures Converts(s, i, j, Nothing, p)
    decreases Neg(a), 0
  {
    var n, pa := Width(a), Postfix(a);
    ConvertRendered(a, s, i + 2, i + 2 + n, pa);
    NegGroup(s, i, i + 2 + n, pa, j, p);
  }

  /** A binary operator character right after a well-formed operand's text is read as that operator. */
  lemma OperatorAfterOperand(op: OpKind, l: Expr, s: string, i: nat)
    requires op != Negate && WellFormed(l) && i + Width(l) < |s|
    requires s[i..i + Width(l)] == Render(l) && s[i + Width(l)] == OpChar(op)
    ensures !IsNumberChar(s[i + Width(l)]) && IsOpChar(s[i + Width(l)]) && OperatorAt(s, i + Width(l)) == op
  {
    LastChar(l, s, i);
    BinaryOperatorRead(s, i + Width(l), op);
  }

  /** "(l op": '(' opens a group, l's text is consumed, and op is pushed above the '('. */
  lemma {:induction false} BinOpens(op: OpKind, l: Expr, s: string, i: nat)
    requires op != Negate && WellFormed(l) && i + 2 + Width(l) <= |s|
    requires s[i] == '(' && s[i + 1..i + 1 + Width(l)] == Render(l) && s[i + 1 + Width(l)] == OpChar(op)
    ensures Converts(s, i, i + 2 + Width(l), OpenWith(op), Postfix(l))
    decreases l, 3
  {
    var nl, pl := Width(l), Postfix(l);
    OperatorAfterOperand(op, l, s, i + 1);
    ConvertRendered(l, s, i + 1, i + 1 + nl, pl);
    OperandOpens(s, i, i + 1 + nl, pl, op);
  }

  /** "(l op r)": after "(l op", r's text is consumed and ')' pops op. */
  lemma {:induction false} BinRendered(op: OpKind, l: Expr, r: Expr, s: string, i: nat, j: nat, p: seq<Token>)
    requires op != Negate && WellFormed(l) && WellFormed(r)
    requires j == i + 3 + Width(l) + Width(r) && j <= |s| && p == Postfix(l) + Postfix(r) + [Op(op)]
    requires s[i..j] == "(" + Render(l) + [OpChar(op)] + Render(r) + ")"
    ensures Converts(s, i, j, Nothing, p)
    decreases Bin(op, l, r), 0
  {
    var k, nr, pl, pr := i + 2 + Width(l), Width(r), Postfix(l), Postfix(r);
    RenderWidth(l);
    RenderWidth(r);
    BinTextAt(s, i, Render(l), OpChar(op), Render(r));
    BinOpens(op, l, s, i);
    ConvertRendered(r, s, k, k + nr, pr);
    OperandCloses(s, i, k, k + nr, pl, pr, op, j, p);
  }

  /** The fully parenthesised text of a well-formed tree converts to the tree's postfix form. */
  lemma ConvertTree(e: Expr)
    requires WellFormed(e)
    ensures Convert(Render(e)) == Ok(Postfix(e))
  {
    var s := Render(e);
    assert s[0..|s|] == s;
    RenderWidth(e);
    ConvertRendered(e, s, 0, |s|, Postfix(e));
    assert ConvertFrom(s, 0, Stacks([], [])) == ConvertFrom(s, |s|, Stacks([], [] + Postfix(e)));
    var none: seq<Token> := [];
    assert none + Postfix(e) == Postfix(e);
  }
}
