/**
 * The postfix evaluator: a value stack (top first) run over the postfix token list, with one
 * human-readable step recorded per operator. The value domain is a parameter, so what is proved
 * here is the stack and step bookkeeping, whatever the arithmetic.
 */
module Evaluator {
  import opened Wrappers
  import opened Errors
  import opened Tokens
  import opened ExprTree

  /** The value domain: how a token is read, how a value is printed, and the six operations. */
  datatype Arithmetic<!V> = Arithmetic(
    parse: string -> Option<V>,
    fmt: V -> string,
    neg: V -> V,
    add: (V, V) -> V,
    sub: (V, V) -> V,
    mul: (V, V) -> V,
    div: (V, V) -> V,
    pow: (V, V) -> V)

  /** The binary operation an operator names, applied as `a op b`. */
  function Apply<V>(ar: Arithmetic<V>, op: OpKind, a: V, b: V): V
    requires op != Negate
  {
    match op
    case Plus => ar.add(a, b)
    case Minus => ar.sub(a, b)
    case Times => ar.mul(a, b)
    case Divide => ar.div(a, b)
    case Power => ar.pow(a, b)
  }

  /** The step text of a binary operation, "a op b = r". */
  function BinaryStep<V>(ar: Arithmetic<V>, op: OpKind, a: V, b: V, r: V): string
  {
    ar.fmt(a) + " " + [OpChar(op)] + " " + ar.fmt(b) + " = " + ar.fmt(r)
  }

  /** The step text of a negation, "negate(a) = r". */
  function NegateStep<V>(ar: Arithmetic<V>, a: V, r: V): string
  {
    "negate(" + ar.fmt(a) + ") = " + ar.fmt(r)
  }

  /** What an evaluation yields: the value or the error, and the steps recorded until then. */
  datatype Outcome<V> = Outcome(result: Result<V>, steps: seq<string>)

  /** Evaluation of the remaining tokens `rpn` from value stack `st` (top first), having recorded `steps`. */
  function EvalFrom<V>(ar: Arithmetic<V>, rpn: seq<Token>, st: seq<V>, steps: seq<string>): Outcome<V>
    decreases |rpn|
  {
    if rpn == [] then
      if |st| != 1 then Outcome(Err(InvalidExpression), steps) else Outcome(Ok(st[0]), steps)
    else
      var t := rpn[0];
      if t.Op? && t.kind == Negate then
        if st == [] then Outcome(Err(UnaryMissingOperand), steps)
        else
          var r := ar.neg(st[0]);
          EvalFrom(ar, rpn[1..], [r] + st[1..], steps + [NegateStep(ar, st[0], r)])
      else if t.Op? then
        if |st| < 2 then Outcome(Err(OperatorMissingOperand), steps)
        else
          var b, a := st[0], st[1];
          var r := Apply(ar, t.kind, a, b);
          EvalFrom(ar, rpn[1..], [r] + st[2..], steps + [BinaryStep(ar, t.kind, a, b, r)])
      else
        match ar.parse(TokenText(t))
        case None => Outcome(Err(NumberFormat(TokenText(t))), steps)
        case Some(v) => EvalFrom(ar, rpn[1..], [v] + st, steps)
  }

  /** Evaluation of a whole postfix list from an empty stack and an empty step list. */
  function Eval<V>(ar: Arithmetic<V>, rpn: seq<Token>): Outcome<V>
  {
    EvalFrom(ar, rpn, [], [])
  }

  /** The evaluator as the Java code runs it: one pass with a value stack, appending to the step list. */
  method EvalRpn<V>(ar: Arithmetic<V>, rpn: seq<Token>) returns (result: Result<V>, steps: seq<string>)
    ensures Outcome(result, steps) == Eval(ar, rpn)
  {
    var st: seq<V> := [];
    steps := [];
    var k := 0;
    while k < |rpn|
      invariant k <= |rpn|
      invariant EvalFrom(ar, rpn[k..], st, steps) == Eval(ar, rpn)
      decreases |rpn| - k
    {
      var t := rpn[k];
      assert rpn[k..][1..] == rpn[k + 1..];
      if t.Op? {
        if t.kind == Negate {
          if st == [] {
            return Err(UnaryMissingOperand), steps;
          }
          var a := st[0];
          var r := ar.neg(a);
          steps := steps + [NegateStep(ar, a, r)];
          st := [r] + st[1..];
        } else {
          if |st| < 2 {
            return Err(OperatorMissingOperand), steps;
          }
          var b := st[0];
          var a := st[1];
          var r := Apply(ar, t.kind, a, b);
          steps := steps + [BinaryStep(ar, t.kind, a, b, r)];
          st := [r] + st[2..];
        }
      } else {
        var v := ar.parse(TokenText(t));
        if v.None? {
          return Err(NumberFormat(TokenText(t))), steps;
        }
        st := [v.value] + st;
      }
      k := k + 1;
    }
    if |st| != 1 {
      return Err(InvalidExpression), steps;
    }
    return Ok(st[0]), steps;
  }

  /**
   * The stack discipline: from height h, a numeral pushes one value, the unary minus needs one
   * and leaves the height unchanged, a binary operator needs two and lowers it by one, and
   * exactly one value is left at the end.
   */
  predicate Fits(rpn: seq<Token>, h: nat)
    decreases |rpn|
  {
    if rpn == [] then h == 1
    else if rpn[0].Op? && rpn[0].kind == Negate then h >= 1 && Fits(rpn[1..], h)
    else if rpn[0].Op? then h >= 2 && Fits(rpn[1..], h - 1)
    else Fits(rpn[1..], h + 1)
  }

  /** Every token that is not an operator reads as a value. */
  predicate Parses<V>(ar: Arithmetic<V>, rpn: seq<Token>)
  {
    forall k | 0 <= k < |rpn| :: rpn[k].Op? || ar.parse(TokenText(rpn[k])).Some?
  }

  /** Evaluation succeeds exactly when every operand reads and the stack discipline holds. */
  lemma {:induction false} EvalSucceeds<V>(ar: Arithmetic<V>, rpn: seq<Token>, st: seq<V>, steps: seq<string>)
    ensures EvalFrom(ar, rpn, st, steps).result.Ok? <==> Parses(ar, rpn) && Fits(rpn, |st|)
    decreases |rpn|
  {
    if rpn != [] {
      var t := rpn[0];
      assert Parses(ar, rpn) <==> (t.Op? || ar.parse(TokenText(t)).Some?) && Parses(ar, rpn[1..]) by {
        if Parses(ar, rpn) {
          forall k | 0 <= k < |rpn[1..]|
            ensures rpn[1..][k].Op? || ar.parse(TokenText(rpn[1..][k])).Some?
          {
            assert rpn[1..][k] == rpn[k + 1];
          }
        }
        if (t.Op? || ar.parse(TokenText(t)).Some?) && Parses(ar, rpn[1..]) {
          forall k | 0 <= k < |rpn|
            ensures rpn[k].Op? || ar.parse(TokenText(rpn[k])).Some?
          {
            if k > 0 { assert rpn[k] == rpn[1..][k - 1]; }
          }
        }
      }
      if t.Op? && t.kind == Negate {
        if st != [] {
          EvalSucceeds(ar, rpn[1..], [ar.neg(st[0])] + st[1..], steps + [NegateStep(ar, st[0], ar.neg(st[0]))]);
        }
      } else if t.Op? {
        if |st| >= 2 {
          var r := Apply(ar, t.kind, st[1], st[0]);
          EvalSucceeds(ar, rpn[1..], [r] + st[2..], steps + [BinaryStep(ar, t.kind, st[1], st[0], r)]);
        }
      } else if ar.parse(TokenText(t)).Some? {
        EvalSucceeds(ar, rpn[1..], [ar.parse(TokenText(t)).value] + st, steps);
      }
    }
  }

  /** How many values an operator takes off the stack. */
  function Arity(op: OpKind): nat
  {
    if op == Negate then 1 else 2
  }

  /** Run from stack height h, every operator of rpn finds the operands it takes. */
  predicate Enough(rpn: seq<Token>, h: nat)
    decreases |rpn|
  {
    if rpn == [] then true
    else if rpn[0].Op? then h >= Arity(rpn[0].kind) && Enough(rpn[1..], h - Arity(rpn[0].kind) + 1)
    else Enough(rpn[1..], h + 1)
  }

  /** The stack height after rpn, run from height h: a numeral adds one value, an operator replaces its operands by one. */
  function Height(rpn: seq<Token>, h: nat): nat
    requires Enough(rpn, h)
    decreases |rpn|
  {
    if rpn == [] then h
    else if rpn[0].Op? then Height(rpn[1..], h - Arity(rpn[0].kind) + 1)
    else Height(rpn[1..], h + 1)
  }

  /** The stack discipline splits into its two halves: every operator finds its operands, and one value is left. */
  lemma {:induction false} FitsHeight(rpn: seq<Token>, h: nat)
    ensures Fits(rpn, h) <==> Enough(rpn, h) && Height(rpn, h) == 1
    decreases |rpn|
  {
    if rpn != [] {
      if rpn[0].Op? {
        if h >= Arity(rpn[0].kind) {
          FitsHeight(rpn[1..], h - Arity(rpn[0].kind) + 1);
        }
      } else {
        FitsHeight(rpn[1..], h + 1);
      }
    }
  }

  /**
   * When every operand reads and every operator finds its operands, evaluation fails exactly
   * when the final stack does not hold one value, and then with "Invalid expression".
   */
  lemma {:induction false} EvalAtEnd<V>(ar: Arithmetic<V>, rpn: seq<Token>, st: seq<V>, steps: seq<string>)
    requires Parses(ar, rpn) && Enough(rpn, |st|)
    ensures var r := EvalFrom(ar, rpn, st, steps).result;
      (r.Err? <==> Height(rpn, |st|) != 1) && (r.Err? ==> r.error == InvalidExpression)
    decreases |rpn|
  {
    if rpn != [] {
      var t := rpn[0];
      assert Parses(ar, rpn[1..]) by {
        forall k | 0 <= k < |rpn[1..]| ensures rpn[1..][k].Op? || ar.parse(TokenText(rpn[1..][k])).Some? {
          assert rpn[1..][k] == rpn[k + 1];
        }
      }
      if t.Op? && t.kind == Negate {
        EvalAtEnd(ar, rpn[1..], [ar.neg(st[0])] + st[1..], steps + [NegateStep(ar, st[0], ar.neg(st[0]))]);
      } else if t.Op? {
        var r := Apply(ar, t.kind, st[1], st[0]);
        EvalAtEnd(ar, rpn[1..], [r] + st[2..], steps + [BinaryStep(ar, t.kind, st[1], st[0], r)]);
      } else {
        assert ar.parse(TokenText(rpn[0])).Some?;
        EvalAtEnd(ar, rpn[1..], [ar.parse(TokenText(t)).value] + st, steps);
      }
    }
  }

  /**
   * The error is the first fault's: when the tokens before index k all read and find their
   * operands, an operator at k short of operands fails with the unary or the binary message,
   * and a numeral at k that does not read fails with "Invalid number format" for its text.
   */
  lemma {:induction false} EvalFirstFault<V>(ar: Arithmetic<V>, rpn: seq<Token>, st: seq<V>, steps: seq<string>, k: nat)
    requires k < |rpn| && Enough(rpn[..k], |st|)
    requires forall j | 0 <= j < k :: rpn[j].Op? || ar.parse(TokenText(rpn[j])).Some?
    ensures var r := EvalFrom(ar, rpn, st, steps).result;
      && (rpn[k].Op? && Height(rpn[..k], |st|) < Arity(rpn[k].kind) ==>
            r == Err(if rpn[k].kind == Negate then UnaryMissingOperand else OperatorMissingOperand))
      && (rpn[k].Num? && ar.parse(TokenText(rpn[k])).None? ==> r == Err(NumberFormat(TokenText(rpn[k]))))
    decreases k
  {
    if k > 0 {
      var t, rest := rpn[0], rpn[1..];
      assert rpn[..k][0] == t && rpn[..k][1..] == rest[..k - 1];
      assert rest[k - 1] == rpn[k];
      assert t.Op? || ar.parse(TokenText(t)).Some?;
      forall j | 0 <= j < k - 1 ensures rest[j].Op? || ar.parse(TokenText(rest[j])).Some? {
        assert rest[j] == rpn[j + 1];
      }
      if t.Op? && t.kind == Negate {
        EvalFirstFault(ar, rest, [ar.neg(st[0])] + st[1..], steps + [NegateStep(ar, st[0], ar.neg(st[0]))], k - 1);
      } else if t.Op? {
        var r := Apply(ar, t.kind, st[1], st[0]);
        EvalFirstFault(ar, rest, [r] + st[2..], steps + [BinaryStep(ar, t.kind, st[1], st[0], r)], k - 1);
      } else {
        EvalFirstFault(ar, rest, [ar.parse(TokenText(t)).value] + st, steps, k - 1);
      }
    } else {
      assert rpn[..k] == [];
    }
  }

  /**
   * One step per operator: the step list only grows, by at most one entry per operator token,
   * and by exactly one per operator when evaluation succeeds.
   */
  lemma {:induction false} EvalStepCount<V>(ar: Arithmetic<V>, rpn: seq<Token>, st: seq<V>, steps: seq<string>)
    ensures var o := EvalFrom(ar, rpn, st, steps);
      steps <= o.steps && |o.steps| <= |steps| + |Operators(rpn)| &&
      (o.result.Ok? ==> |o.steps| == |steps| + |Operators(rpn)|)
    decreases |rpn|
  {
    if rpn != [] {
      var t := rpn[0];
      assert |Operators(rpn)| == (if t.Op? then 1 else 0) + |Operators(rpn[1..])|;
      if t.Op? && t.kind == Negate {
        if st != [] {
          EvalStepCount(ar, rpn[1..], [ar.neg(st[0])] + st[1..], steps + [NegateStep(ar, st[0], ar.neg(st[0]))]);
        }
      } else if t.Op? {
        if |st| >= 2 {
          var r := Apply(ar, t.kind, st[1], st[0]);
          EvalStepCount(ar, rpn[1..], [r] + st[2..], steps + [BinaryStep(ar, t.kind, st[1], st[0], r)]);
        }
      } else if ar.parse(TokenText(t)).Some? {
        EvalStepCount(ar, rpn[1..], [ar.parse(TokenText(t)).value] + st, steps);
      }
    }
  }

  /** Every literal of a tree reads as a value. */
  predicate Defined<V>(ar: Arithmetic<V>, e: Expr)
  {
    match e
    case Lit(t) => ar.parse(t).Some?
    case Neg(a) => Defined(ar, a)
    case Bin(op, l, r) => op != Negate && Defined(ar, l) && Defined(ar, r)
  }

  /** The value of a tree. */
  function Denote<V>(ar: Arithmetic<V>, e: Expr): V
    requires Defined(ar, e)
  {
    match e
    case Lit(t) => ar.parse(t).value
    case Neg(a) => ar.neg(Denote(ar, a))
    case Bin(op, l, r) => Apply(ar, op, Denote(ar, l), Denote(ar, r))
  }

  /** The steps of evaluating a tree: its operands' steps left to right, then its own. */
  function Trace<V>(ar: Arithmetic<V>, e: Expr): seq<string>
    requires Defined(ar, e)
  {
    match e
    case Lit(_) => []
    case Neg(a) => Trace(ar, a) + [NegateStep(ar, Denote(ar, a), Denote(ar, e))]
    case Bin(op, l, r) =>
      Trace(ar, l) + Trace(ar, r) + [BinaryStep(ar, op, Denote(ar, l), Denote(ar, r), Denote(ar, e))]
  }

  /** The unary minus on top of a non-empty stack: one negation and one step. */
  lemma NegateOnTop<V>(ar: Arithmetic<V>, rest: seq<Token>, v: V, st: seq<V>, steps: seq<string>)
    ensures EvalFrom(ar, [Op(Negate)] + rest, [v] + st, steps)
         == EvalFrom(ar, rest, [ar.neg(v)] + st, steps + [NegateStep(ar, v, ar.neg(v))])
  {
    assert ([Op(Negate)] + rest)[1..] == rest;
    assert ([v] + st)[1..] == st;
  }

  /** A binary operator on top of two values: the right operand is the top, the left one below it. */
  lemma BinaryOnTop<V>(ar: Arithmetic<V>, op: OpKind, rest: seq<Token>, x: V, y: V, st: seq<V>, steps: seq<string>)
    requires op != Negate
    ensures EvalFrom(ar, [Op(op)] + rest, [y, x] + st, steps)
         == EvalFrom(ar, rest, [Apply(ar, op, x, y)] + st, steps + [BinaryStep(ar, op, x, y, Apply(ar, op, x, y))])
  {
    assert ([Op(op)] + rest)[1..] == rest;
    assert ([y, x] + st)[2..] == st;
  }

  /**
   * Evaluating a tree's postfix form pushes exactly the tree's value and records the tree's
   * steps; binary operators take the right operand from the top and the left one below it.
   */
  lemma {:induction false} EvalPostfix<V>(ar: Arithmetic<V>, e: Expr, rest: seq<Token>, st: seq<V>, steps: seq<string>)
    requires Defined(ar, e)
    ensures EvalFrom(ar, Postfix(e) + rest, st, steps) == EvalFrom(ar, rest, [Denote(ar, e)] + st, steps + Trace(ar, e))
  {
    match e
    case Lit(t) =>
      assert (Postfix(e) + rest)[1..] == rest;
      assert steps + Trace(ar, e) == steps;
    case Neg(a) =>
      var v := Denote(ar, a);
      assert Postfix(e) + rest == Postfix(a) + ([Op(Negate)] + rest);
      EvalPostfix(ar, a, [Op(Negate)] + rest, st, steps);
      NegateOnTop(ar, rest, v, st, steps + Trace(ar, a));
      assert steps + Trace(ar, a) + [NegateStep(ar, v, ar.neg(v))] == steps + Trace(ar, e);
    case Bin(op, l, r) =>
      var x, y := Denote(ar, l), Denote(ar, r);
      assert Postfix(e) + rest == Postfix(l) + (Postfix(r) + ([Op(op)] + rest));
      EvalPostfix(ar, l, Postfix(r) + ([Op(op)] + rest), st, steps);
      EvalPostfix(ar, r, [Op(op)] + rest, [x] + st, steps + Trace(ar, l));
      assert [y] + ([x] + st) == [y, x] + st;
      BinaryOnTop(ar, op, rest, x, y, st, steps + Trace(ar, l) + Trace(ar, r));
      assert steps + Trace(ar, l) + Trace(ar, r) + [BinaryStep(ar, op, x, y, Apply(ar, op, x, y))] == steps + Trace(ar, e);
  }

  /** A tree's postfix form evaluates to the tree's value, with one step per operator node. */
  lemma EvalTree<V>(ar: Arithmetic<V>, e: Expr)
    requires Defined(ar, e)
    ensures Eval(ar, Postfix(e)) == Outcome(Ok(Denote(ar, e)), Trace(ar, e))
    ensures |Trace(ar, e)| == OpCount(e)
  {
    EvalPostfix(ar, e, [], [], []);
    assert Postfix(e) + [] == Postfix(e);
    EvalStepCount(ar, Postfix(e), [], []);
    PostfixOperators(e);
  }
}
