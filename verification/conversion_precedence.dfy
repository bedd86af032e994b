/**
 * The converter against precedence and associativity: the text of a tree written with only
 * the parentheses that precedence and associativity require ("8-3-2", "2^3^2", "3+4*2",
 * "-2^2", "2*(3+4)") converts to exactly the tree's postfix form. Reading a subtree's text
 * leaves its right spine of operators on the stack; the next operator, the ')' or the end of
 * the input pops that spine and nothing below it.
 */
module ConversionPrecedence {
  import opened Wrappers
  import opened Numerals
  import opened Tokens
  import opened Shunting
  import opened ExprTree
  import opened ConversionSteps
  import opened ConversionTrees

  // ----- Writing a tree with the fewest parentheses -----

  /** How tightly a tree's text holds together: a numeral most, then the unary minus, then its root operator. */
  function Binding(e: Expr): nat
  {
    match e
    case Lit(_) => 5
    case Neg(_) => Prec(Negate)
    case Bin(op, _, _) => Prec(op)
  }

  /** A left operand of op is parenthesised when it binds more loosely than op, or as tightly and op groups to the right. */
  predicate LeftParens(op: OpKind, l: Expr)
  {
    Binding(l) < Prec(op) || (Binding(l) == Prec(op) && !IsLeftAssoc(op))
  }

  /** A right operand of op is parenthesised when it binds more loosely than op, or as tightly and op groups to the left. */
  predicate RightParens(op: OpKind, r: Expr)
  {
    Binding(r) < Prec(op) || (Binding(r) == Prec(op) && IsLeftAssoc(op))
  }

  /** The operand of a unary minus is parenthesised when it binds more loosely, that is when it is a binary operation. */
  predicate NegParens(a: Expr)
  {
    Binding(a) < Prec(Negate)
  }

  function Wrap(t: string, paren: bool): string
  {
    if paren then "(" + t + ")" else t
  }

  /** The infix text of a tree with only the parentheses that precedence and associativity require. */
  function Infix(e: Expr): string
  {
    match e
    case Lit(t) => t
    case Neg(a) => "-" + Wrap(Infix(a), NegParens(a))
    case Bin(op, l, r) => Wrap(Infix(l), LeftParens(op, l)) + [OpChar(op)] + Wrap(Infix(r), RightParens(op, r))
  }

  // ----- What reading a tree's text leaves behind -----

  /** The operators reading a tree's text leaves on the stack: its right spine, top first. */
  function Pending(e: Expr): seq<Token>
  {
    match e
    case Lit(_) => []
    case Neg(a) => (if NegParens(a) then [] else Pending(a)) + [Op(Negate)]
    case Bin(op, l, r) => (if RightParens(op, r) then [] else Pending(r)) + [Op(op)]
  }

  /** What reading a tree's text writes to the output before its pending operators are popped. */
  function Emitted(e: Expr): seq<Token>
  {
    match e
    case Lit(t) => [Num(t)]
    case Neg(a) => if NegParens(a) then Postfix(a) else Emitted(a)
    case Bin(op, l, r) => Postfix(l) + (if RightParens(op, r) then Postfix(r) else Emitted(r))
  }

  /** The output followed by the pending operators, popped top first, is the postfix form. */
  lemma {:induction false} EmittedPending(e: Expr)
    ensures Emitted(e) + Pending(e) == Postfix(e)
  {
    match e
    case Lit(_) =>
    case Neg(a) =>
      if !NegParens(a) {
        EmittedPending(a);
      }
    case Bin(op, l, r) =>
      if !RightParens(op, r) {
        EmittedPending(r);
      }
  }

  lemma {:induction false} PendingOperators(e: Expr)
    ensures forall t | t in Pending(e) :: t.Op?
  {
    match e
    case Lit(_) =>
    case Neg(a) =>
      if !NegParens(a) {
        PendingOperators(a);
      }
    case Bin(op, l, r) =>
      if !RightParens(op, r) {
        PendingOperators(r);
      }
  }

  // ----- Which operators pop which -----

  /**
   * No operator read at the top level of e's text (outside its parentheses) pops operator q.
   * The unary minus never pops, so it imposes nothing.
   */
  predicate Guarded(e: Expr, q: OpKind)
  {
    match e
    case Lit(_) => true
    case Neg(a) => NegParens(a) || Guarded(a, q)
    case Bin(op, l, r) =>
      !ShouldPop(op, q) && (LeftParens(op, l) || Guarded(l, q)) && (RightParens(op, r) || Guarded(r, q))
  }

  /** A tree that binds more tightly than q, or as tightly when q groups to the right, pops no q. */
  lemma {:induction false} GuardedByBinding(e: Expr, q: OpKind)
    requires Binding(e) > Prec(q) || (Binding(e) == Prec(q) && !IsLeftAssoc(q))
    ensures Guarded(e, q)
  {
    match e
    case Lit(_) =>
    case Neg(a) =>
      if !NegParens(a) {
        GuardedByBinding(a, q);
      }
    case Bin(op, l, r) =>
      if !LeftParens(op, l) {
        GuardedByBinding(l, q);
      }
      if !RightParens(op, r) {
        GuardedByBinding(r, q);
      }
  }

  /** A tree that may be op's left operand without parentheses leaves only operators that op pops. */
  lemma {:induction false} PendingPopped(e: Expr, op: OpKind)
    requires Binding(e) > Prec(op) || (Binding(e) == Prec(op) && IsLeftAssoc(op))
    ensures forall t | t in Pending(e) :: t.Op? && ShouldPop(op, t.kind)
  {
    match e
    case Lit(_) =>
    case Neg(a) =>
      if !NegParens(a) {
        PendingPopped(a, op);
      }
    case Bin(o, l, r) =>
      if !RightParens(o, r) {
        PendingPopped(r, op);
      }
  }

  // ----- The stack steps -----

  lemma {:induction false} PopCountPrefix(op: OpKind, p: seq<Token>, ops: seq<Token>)
    requires forall t | t in p :: t.Op? && ShouldPop(op, t.kind)
    requires ops == [] || !(ops[0].Op? && ShouldPop(op, ops[0].kind))
    ensures PopCount(op, p + ops) == |p|
  {
    if p == [] {
      assert p + ops == ops;
    } else {
      assert (p + ops)[0] == p[0] && (p + ops)[1..] == p[1..] + ops;
      PopCountPrefix(op, p[1..], ops);
    }
  }

  /** An operator that pops every entry of p, and not the entry below p, moves exactly p to the output. */
  lemma PopExactly(op: OpKind, p: seq<Token>, ops: seq<Token>, out: seq<Token>)
    requires forall t | t in p :: t.Op? && ShouldPop(op, t.kind)
    requires ops == [] || !(ops[0].Op? && ShouldPop(op, ops[0].kind))
    ensures PopOperators(op, Stacks(p + ops, out)) == Stacks(ops, out + p)
  {
    PopCountPrefix(op, p, ops);
    assert (p + ops)[|p|..] == ops && (p + ops)[..|p|] == p;
  }

  lemma {:induction false} OpenIndexPrefix(p: seq<Token>, ops: seq<Token>)
    requires forall t | t in p :: t.Op?
    ensures OpenIndex(p + ([LParen] + ops)) == |p|
  {
    if p == [] {
      assert p + ([LParen] + ops) == [LParen] + ops;
    } else {
      assert p[0] in p && (p + ([LParen] + ops))[0] == p[0];
      assert (p + ([LParen] + ops))[1..] == p[1..] + ([LParen] + ops);
      OpenIndexPrefix(p[1..], ops);
    }
  }

  /** ')' moves the operators above the '(' to the output and drops the '('. */
  lemma CloseOver(s: string, m: nat, p: seq<Token>, ops: seq<Token>, out: seq<Token>)
    requires m < |s| && s[m] == ')'
    requires forall t | t in p :: t.Op?
    ensures ConvertFrom(s, m, Stacks(p + ([LParen] + ops), out)) == ConvertFrom(s, m + 1, Stacks(ops, out + p))
  {
    var stack := p + ([LParen] + ops);
    OpenIndexPrefix(p, ops);
    assert stack[|p|..] == [LParen] + ops && stack[..|p|] == p;
    assert ([LParen] + ops)[1..] == ops;
  }

  /** An operator character pops what its operator pops and is pushed. */
  lemma OperatorRead(s: string, k: nat, st: Stacks)
    requires k < |s| && IsOpChar(s[k])
    ensures var op := OperatorAt(s, k);
      ConvertFrom(s, k, st) == ConvertFrom(s, k + 1, Stacks([Op(op)] + PopOperators(op, st).ops, PopOperators(op, st).out))
  {
  }

  /** An operator read above entries p that it pops, and not the entry below them, moves p to the output and is pushed. */
  lemma OperatorStep(s: string, k: nat, op: OpKind, p: seq<Token>, ops: seq<Token>, out: seq<Token>)
    requires k < |s| && IsOpChar(s[k]) && OperatorAt(s, k) == op
    requires forall t | t in p :: t.Op? && ShouldPop(op, t.kind)
    requires ops == [] || !(ops[0].Op? && ShouldPop(op, ops[0].kind))
    ensures ConvertFrom(s, k, Stacks(p + ops, out)) == ConvertFrom(s, k + 1, Stacks([Op(op)] + ops, out + p))
  {
    var st := Stacks(p + ops, out);
    assert PopOperators(op, st) == Stacks(ops, out + p) by {
      PopExactly(op, p, ops, out);
    }
    OperatorRead(s, k, st);
  }

  /** The unary minus pops nothing and is pushed. */
  lemma UnaryMinusStep(s: string, i: nat, ops: seq<Token>, out: seq<Token>)
    requires i < |s| && s[i] == '-' && (i == 0 || IsOpChar(s[i - 1]) || s[i - 1] == '(')
    ensures ConvertFrom(s, i, Stacks(ops, out)) == ConvertFrom(s, i + 1, Stacks([Op(Negate)] + ops, out))
  {
    var none: seq<Token> := [];
    OperatorStep(s, i, Negate, none, ops, out);
    assert none + ops == ops && out + none == out;
  }

  // ----- Where the pieces of a text sit -----

  /** The last character of a tree's text is ')' or ends a numeral. */
  lemma {:induction false} InfixEnds(e: Expr)
    requires WellFormed(e)
    ensures |Infix(e)| > 0
    ensures Infix(e)[|Infix(e)| - 1] == ')' || IsNumberChar(Infix(e)[|Infix(e)| - 1])
  {
    match e
    case Lit(t) =>
      AllNumberCharsAt(t, |t| - 1);
    case Neg(a) =>
      InfixEnds(a);
    case Bin(op, l, r) =>
      InfixEnds(r);
  }

  /** An operand's text, in parentheses or not, is not empty and ends in ')' or a number character. */
  lemma WrapEnds(c: Expr, paren: bool)
    requires WellFormed(c)
    ensures var A := Wrap(Infix(c), paren); |A| > 0 && (A[|A| - 1] == ')' || IsNumberChar(A[|A| - 1]))
  {
    InfixEnds(c);
  }

  /** Where the pieces of "(" + T + ")" sit when it is found at index i. */
  lemma ParenTextAt(s: string, i: nat, T: string)
    requires i + |T| + 2 <= |s| && s[i..i + |T| + 2] == "(" + T + ")"
    ensures s[i] == '(' && s[i + 1..i + 1 + |T|] == T && s[i + 1 + |T|] == ')'
  {
    var R := "(" + T + ")";
    assert R[1..1 + |T|] == T;
    Within(s, i, R, 1, T);
    CharWithin(s, i, R, 0);
    CharWithin(s, i, R, 1 + |T|);
  }

  /** Where the pieces of "-" + T sit when it is found at index i. */
  lemma MinusTextAt(s: string, i: nat, T: string)
    requires i + |T| + 1 <= |s| && s[i..i + |T| + 1] == "-" + T
    ensures s[i] == '-' && s[i + 1..i + 1 + |T|] == T
  {
    var R := "-" + T;
    assert R[1..1 + |T|] == T;
    Within(s, i, R, 1, T);
    CharWithin(s, i, R, 0);
  }

  /** Where the pieces of A + c + B sit when it is found at index i; the character before c ends A. */
  lemma InfixTextAt(s: string, i: nat, A: string, c: char, B: string)
    requires |A| > 0 && i + |A| + |B| + 1 <= |s| && s[i..i + |A| + |B| + 1] == A + [c] + B
    ensures s[i..i + |A|] == A && s[i + |A|] == c && s[i + |A| + 1..i + |A| + 1 + |B|] == B
    ensures s[i + |A| - 1] == A[|A| - 1]
  {
    var R := A + [c] + B;
    assert R[0..|A|] == A;
    assert R[|A| + 1..|A| + 1 + |B|] == B;
    Within(s, i, R, 0, A);
    Within(s, i, R, |A| + 1, B);
    CharWithin(s, i, R, |A|);
    CharWithin(s, i, R, |A| - 1);
  }

  // ----- Reading a tree's text -----

  /** Stack entries a tree's text can be read above: nothing, a '(' or an operator no top-level operator of e pops. */
  predicate Shielded(e: Expr, ops: seq<Token>)
  {
    ops == [] || ops[0] == LParen || (ops[0].Op? && Guarded(e, ops[0].kind))
  }

  /** A position where a '-' reads as the unary minus: the start, or after an operator character or '('. */
  predicate OperandStart(s: string, i: nat)
    requires i <= |s|
  {
    i == 0 || IsOpChar(s[i - 1]) || s[i - 1] == '('
  }

  /**
   * The text of a tree, found at index i where an operand may start, followed by a character
   * that cannot extend a numeral, and read above entries it does not pop: it writes Emitted(e)
   * to the output and leaves Pending(e) on the stack.
   */
  lemma {:induction false} ConvertInfix(e: Expr, s: string, i: nat, j: nat, ops: seq<Token>, out: seq<Token>)
    requires WellFormed(e) && j == i + |Infix(e)| && j <= |s| && s[i..j] == Infix(e)
    requires OperandStart(s, i) && (j == |s| || !IsNumberChar(s[j]))
    requires Shielded(e, ops)
    ensures ConvertFrom(s, i, Stacks(ops, out)) == ConvertFrom(s, j, Stacks(Pending(e) + ops, out + Emitted(e)))
    decreases e, 2
  {
    match e
    case Lit(t) =>
      NumeralEnd(s, i, t);
      assert Pending(e) + ops == ops;
    case Neg(a) =>
      NegInfix(a, s, i, j, ops, out);
    case Bin(op, l, r) =>
      BinInfix(op, l, r, s, i, j, ops, out);
  }

  /** What an operand leaves on the stack: nothing when parenthesised, since its ')' pops it all. */
  function Leaves(c: Expr, paren: bool): seq<Token>
  {
    if paren then [] else Pending(c)
  }

  /** What an operand writes to the output: its whole postfix form when parenthesised. */
  function Writes(c: Expr, paren: bool): seq<Token>
  {
    if paren then Postfix(c) else Emitted(c)
  }

  /** A parenthesised operand writes its whole postfix form and leaves the stack as it found it. */
  lemma {:induction false} ParenOperand(c: Expr, s: string, i: nat, k: nat, ops: seq<Token>, out: seq<Token>)
    requires WellFormed(c) && k == i + |Infix(c)| + 2 && k <= |s| && s[i..k] == "(" + Infix(c) + ")"
    ensures ConvertFrom(s, i, Stacks(ops, out)) == ConvertFrom(s, k, Stacks(ops, out + Postfix(c)))
    decreases c, 4
  {
    ParenTextAt(s, i, Infix(c));
    InParens(c, s, i, i + 1 + |Infix(c)|, ops, out);
  }

  lemma {:induction false} InParens(c: Expr, s: string, i: nat, m: nat, ops: seq<Token>, out: seq<Token>)
    requires WellFormed(c) && m == i + 1 + |Infix(c)| && m < |s|
    requires s[i] == '(' && s[i + 1..m] == Infix(c) && s[m] == ')'
    ensures ConvertFrom(s, i, Stacks(ops, out)) == ConvertFrom(s, m + 1, Stacks(ops, out + Postfix(c)))
    decreases c, 3
  {
    var P, E, open := Pending(c), Emitted(c), [LParen] + ops;
    assert ConvertFrom(s, i, Stacks(ops, out)) == ConvertFrom(s, i + 1, Stacks(open, out)) by {
      OpenStep(s, i, Stacks(ops, out));
    }
    assert ConvertFrom(s, i + 1, Stacks(open, out)) == ConvertFrom(s, m, Stacks(P + open, out + E)) by {
      ConvertInfix(c, s, i + 1, m, open, out);
    }
    assert ConvertFrom(s, m, Stacks(P + open, out + E)) == ConvertFrom(s, m + 1, Stacks(ops, out + E + P)) by {
      PendingOperators(c);
      CloseOver(s, m, P, ops, out + E);
    }
    assert out + E + P == out + Postfix(c) by {
      EmittedPending(c);
      AppendAssoc(out, E, P);
    }
  }

  /** An operand, parenthesised or not. */
  lemma {:induction false} ConvertOperand(c: Expr, paren: bool, s: string, i: nat, k: nat, ops: seq<Token>, out: seq<Token>)
    requires WellFormed(c) && k == i + |Wrap(Infix(c), paren)| && k <= |s| && s[i..k] == Wrap(Infix(c), paren)
    requires OperandStart(s, i) && (k == |s| || !IsNumberChar(s[k]))
    requires paren || Shielded(c, ops)
    ensures ConvertFrom(s, i, Stacks(ops, out)) == ConvertFrom(s, k, Stacks(Leaves(c, paren) + ops, out + Writes(c, paren)))
    decreases c, 5
  {
    if paren {
      ParenOperand(c, s, i, k, ops, out);
      assert Leaves(c, paren) + ops == ops;
    } else {
      ConvertInfix(c, s, i, k, ops, out);
    }
  }

  /** "-a": the text splits into the minus and a's operand text. */
  lemma {:induction false} NegInfix(a: Expr, s: string, i: nat, j: nat, ops: seq<Token>, out: seq<Token>)
    requires WellFormed(a) && j == i + 1 + |Wrap(Infix(a), NegParens(a))| && j <= |s|
    requires s[i..j] == "-" + Wrap(Infix(a), NegParens(a))
    requires OperandStart(s, i) && (j == |s| || !IsNumberChar(s[j]))
    ensures ConvertFrom(s, i, Stacks(ops, out)) == ConvertFrom(s, j, Stacks(Pending(Neg(a)) + ops, out + Emitted(Neg(a))))
    decreases Neg(a), 1
  {
    MinusTextAt(s, i, Wrap(Infix(a), NegParens(a)));
    NegRead(a, s, i, j, ops, out);
  }

  /** "-a": the minus is pushed, then a is read above it, which a's operators never pop. */
  lemma {:induction false} NegRead(a: Expr, s: string, i: nat, j: nat, ops: seq<Token>, out: seq<Token>)
    requires WellFormed(a) && i < j <= |s| && s[i] == '-' && s[i + 1..j] == Wrap(Infix(a), NegParens(a))
    requires OperandStart(s, i) && (j == |s| || !IsNumberChar(s[j]))
    ensures ConvertFrom(s, i, Stacks(ops, out)) == ConvertFrom(s, j, Stacks(Pending(Neg(a)) + ops, out + Emitted(Neg(a))))
    decreases Neg(a), 0
  {
    var paren, u := NegParens(a), [Op(Negate)];
    UnaryMinusStep(s, i, ops, out);
    if !paren {
      GuardedByBinding(a, Negate);
    }
    ConvertOperand(a, paren, s, i + 1, j, u + ops, out);
    assert Leaves(a, paren) + (u + ops) == Pending(Neg(a)) + ops by {
      assert Pending(Neg(a)) == Leaves(a, paren) + u;
      AppendAssoc(Leaves(a, paren), u, ops);
    }
  }

  /** "l op r": the text splits into l's operand text, the operator character, read as op, and r's operand text. */
  lemma {:induction false} BinInfix(op: OpKind, l: Expr, r: Expr, s: string, i: nat, j: nat, ops: seq<Token>, out: seq<Token>)
    requires op != Negate && WellFormed(l) && WellFormed(r)
    requires j == i + |Wrap(Infix(l), LeftParens(op, l))| + 1 + |Wrap(Infix(r), RightParens(op, r))| && j <= |s|
    requires s[i..j] == Wrap(Infix(l), LeftParens(op, l)) + [OpChar(op)] + Wrap(Infix(r), RightParens(op, r))
    requires OperandStart(s, i) && (j == |s| || !IsNumberChar(s[j]))
    requires Shielded(Bin(op, l, r), ops)
    ensures ConvertFrom(s, i, Stacks(ops, out))
         == ConvertFrom(s, j, Stacks(Pending(Bin(op, l, r)) + ops, out + Emitted(Bin(op, l, r))))
    decreases Bin(op, l, r), 1
  {
    WrapEnds(l, LeftParens(op, l));
    BinText(op, Wrap(Infix(l), LeftParens(op, l)), Wrap(Infix(r), RightParens(op, r)), s, i, j);
    BinRead(op, l, r, s, i, i + |Wrap(Infix(l), LeftParens(op, l))|, j, ops, out);
  }

  /** The character at k is an operator character, ends no numeral, and reads as op. */
  predicate ReadsAs(s: string, k: nat, op: OpKind)
  {
    k < |s| && IsOpChar(s[k]) && !IsNumberChar(s[k]) && OperatorAt(s, k) == op
  }

  /** The text A op B splits into A, the operator character, read as op after A's last character, and B. */
  lemma BinText(op: OpKind, A: string, B: string, s: string, i: nat, j: nat)
    requires op != Negate && |A| > 0 && (A[|A| - 1] == ')' || IsNumberChar(A[|A| - 1]))
    requires j == i + |A| + 1 + |B| && j <= |s| && s[i..j] == A + [OpChar(op)] + B
    ensures s[i..i + |A|] == A && s[i + |A| + 1..j] == B
    ensures i + |A| < |s| && ReadsAs(s, i + |A|, op)
  {
    InfixTextAt(s, i, A, OpChar(op), B);
    BinaryOperatorRead(s, i + |A|, op);
  }

  /** "l op r": l is read, op pops exactly l's pending operators and is pushed, then r is read above op. */
  lemma {:induction false} BinRead(op: OpKind, l: Expr, r: Expr, s: string, i: nat, k: nat, j: nat, ops: seq<Token>, out: seq<Token>)
    requires op != Negate && WellFormed(l) && WellFormed(r)
    requires i <= k < j <= |s| && s[i..k] == Wrap(Infix(l), LeftParens(op, l)) && s[k + 1..j] == Wrap(Infix(r), RightParens(op, r))
    requires ReadsAs(s, k, op)
    requires OperandStart(s, i) && (j == |s| || !IsNumberChar(s[j]))
    requires Shielded(Bin(op, l, r), ops)
    ensures ConvertFrom(s, i, Stacks(ops, out))
         == ConvertFrom(s, j, Stacks(Pending(Bin(op, l, r)) + ops, out + Emitted(Bin(op, l, r))))
    decreases Bin(op, l, r), 0
  {
    var rp, o := RightParens(op, r), [Op(op)];
    assert ConvertFrom(s, i, Stacks(ops, out)) == ConvertFrom(s, k + 1, Stacks(o + ops, out + Postfix(l))) by {
      LeftOperand(op, l, s, i, k, ops, out);
    }
    assert ConvertFrom(s, k + 1, Stacks(o + ops, out + Postfix(l)))
           == ConvertFrom(s, j, Stacks(Leaves(r, rp) + (o + ops), out + Postfix(l) + Writes(r, rp))) by {
      if !rp {
        GuardedByBinding(r, op);
      }
      ConvertOperand(r, rp, s, k + 1, j, o + ops, out + Postfix(l));
    }
    assert Leaves(r, rp) + (o + ops) == Pending(Bin(op, l, r)) + ops by {
      assert Pending(Bin(op, l, r)) == Leaves(r, rp) + o;
      AppendAssoc(Leaves(r, rp), o, ops);
    }
    assert out + Postfix(l) + Writes(r, rp) == out + Emitted(Bin(op, l, r)) by {
      assert Emitted(Bin(op, l, r)) == Postfix(l) + Writes(r, rp);
      AppendAssoc(out, Postfix(l), Writes(r, rp));
    }
  }

  /** "l op": l is read, then op pops exactly the operators l left and is pushed. */
  lemma {:induction false} LeftOperand(op: OpKind, l: Expr, s: string, i: nat, k: nat, ops: seq<Token>, out: seq<Token>)
    requires op != Negate && WellFormed(l)
    requires i <= k < |s| && s[i..k] == Wrap(Infix(l), LeftParens(op, l))
    requires ReadsAs(s, k, op)
    requires OperandStart(s, i)
    requires ops == [] || ops[0] == LParen || (ops[0].Op? && !ShouldPop(op, ops[0].kind))
    requires LeftParens(op, l) || Shielded(l, ops)
    ensures ConvertFrom(s, i, Stacks(ops, out)) == ConvertFrom(s, k + 1, Stacks([Op(op)] + ops, out + Postfix(l)))
    decreases l, 6
  {
    var lp := LeftParens(op, l);
    var pl, el := Leaves(l, lp), Writes(l, lp);
    assert ConvertFrom(s, i, Stacks(ops, out)) == ConvertFrom(s, k, Stacks(pl + ops, out + el)) by {
      ConvertOperand(l, lp, s, i, k, ops, out);
    }
    assert ConvertFrom(s, k, Stacks(pl + ops, out + el)) == ConvertFrom(s, k + 1, Stacks([Op(op)] + ops, out + el + pl)) by {
      if !lp {
        PendingPopped(l, op);
      }
      OperatorStep(s, k, op, pl, ops, out + el);
    }
    assert out + el + pl == out + Postfix(l) by {
      if !lp {
        EmittedPending(l);
      }
    }
  }

  /** The text of a well-formed tree with only the parentheses its precedence needs converts to its postfix form. */
  lemma ConvertMinimal(e: Expr)
    requires WellFormed(e)
    ensures Convert(Infix(e)) == Ok(Postfix(e))
  {
    var s := Infix(e);
    var none: seq<Token> := [];
    assert s[0..|s|] == s;
    ConvertInfix(e, s, 0, |s|, none, none);
    PendingOperators(e);
    DrainResult(Stacks(Pending(e) + none, none + Emitted(e)));
    EmittedPending(e);
    assert Pending(e) + none == Pending(e) && none + Emitted(e) == Emitted(e);
  }

  // ----- Where the parentheses go -----

  /** A tree whose minimal text and postfix form are known: the text converts to that postfix form. */
  lemma ConvertsTo(e: Expr, text: string, rpn: seq<Token>)
    requires WellFormed(e) && Infix(e) == text && Postfix(e) == rpn
    ensures Convert(text) == Ok(rpn)
  {
    ConvertMinimal(e);
  }

  /** Subtraction groups to the left: "8-3-2" is (8-3)-2, and the other grouping needs its parentheses. */
  lemma MinusTexts()
    ensures Infix(Bin(Minus, Bin(Minus, Lit("8"), Lit("3")), Lit("2"))) == "8-3-2"
    ensures Infix(Bin(Minus, Lit("8"), Bin(Minus, Lit("3"), Lit("2")))) == "8-(3-2)"
    ensures Convert("8-(3-2)") == Ok([Num("8"), Num("3"), Num("2"), Op(Minus), Op(Minus)])
  {
    ConvertsTo(Bin(Minus, Lit("8"), Bin(Minus, Lit("3"), Lit("2"))), "8-(3-2)",
      [Num("8"), Num("3"), Num("2"), Op(Minus), Op(Minus)]);
  }

  /** '^' groups to the right: "2^3^2" is 2^(3^2), and the other grouping needs its parentheses. */
  lemma PowerTexts()
    ensures Infix(Bin(Power, Lit("2"), Bin(Power, Lit("3"), Lit("2")))) == "2^3^2"
    ensures Infix(Bin(Power, Bin(Power, Lit("2"), Lit("3")), Lit("2"))) == "(2^3)^2"
    ensures Convert("(2^3)^2") == Ok([Num("2"), Num("3"), Op(Power), Num("2"), Op(Power)])
  {
    ConvertsTo(Bin(Power, Bin(Power, Lit("2"), Lit("3")), Lit("2")), "(2^3)^2",
      [Num("2"), Num("3"), Op(Power), Num("2"), Op(Power)]);
  }

  /** '*' binds more tightly than '+': "3+4*2" is 3+(4*2), and a sum under a product needs its parentheses. */
  lemma ProductTexts()
    ensures Infix(Bin(Plus, Lit("3"), Bin(Times, Lit("4"), Lit("2")))) == "3+4*2"
    ensures Infix(Bin(Times, Lit("2"), Bin(Plus, Lit("3"), Lit("4")))) == "2*(3+4)"
    ensures Convert("2*(3+4)") == Ok([Num("2"), Num("3"), Num("4"), Op(Plus), Op(Times)])
  {
    ConvertsTo(Bin(Times, Lit("2"), Bin(Plus, Lit("3"), Lit("4"))), "2*(3+4)",
      [Num("2"), Num("3"), Num("4"), Op(Plus), Op(Times)]);
  }

  /** The unary minus binds more tightly than '^': "-2^2" is (-2)^2, and -(2^2) needs its parentheses. */
  lemma UnaryMinusTexts()
    ensures Infix(Bin(Power, Neg(Lit("2")), Lit("2"))) == "-2^2"
    ensures Infix(Neg(Bin(Power, Lit("2"), Lit("2")))) == "-(2^2)"
    ensures Convert("-(2^2)") == Ok([Num("2"), Num("2"), Op(Power), Op(Negate)])
  {
    ConvertsTo(Neg(Bin(Power, Lit("2"), Lit("2"))), "-(2^2)", [Num("2"), Num("2"), Op(Power), Op(Negate)]);
  }
}
