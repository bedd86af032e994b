/**
 * The public entry points of the calculator: an arithmetic expression is cleaned of whitespace,
 * converted to postfix form and evaluated, recording one step per operator; an equation is
 * handed to the linear solver. Each reply carries either the answer or the failure's message.
 */
module Service {
  import opened Wrappers
  import opened Errors
  import opened Text
  import opened Numerals
  import opened Tokens
  import opened Shunting
  import opened ExprTree
  import opened Evaluator
  import opened LinearEquation
  import opened ConversionProperties
  import opened ConversionTrees
  import opened ConversionPrecedence

  /** What evaluating an expression yields; None stands for a null expression. */
  function Evaluation<V>(ar: Arithmetic<V>, expr: Option<string>): Outcome<V>
  {
    match expr
    case None => Outcome(Err(EmptyExpression), [])
    case Some(e) =>
      var s := StripWhitespace(e);
      if s == [] then Outcome(Err(EmptyExpression), [])
      else
        match Convert(s)
        case Err(err) => Outcome(Err(err), [])
        case Ok(rpn) => Eval(ar, rpn)
  }

  /** The arithmetic evaluator as the Java code runs it: strip whitespace, convert, then evaluate. */
  method EvaluateArithmetic<V>(ar: Arithmetic<V>, expr: Option<string>) returns (result: Result<V>, steps: seq<string>)
    ensures Outcome(result, steps) == Evaluation(ar, expr)
  {
    if expr.None? {
      return Err(EmptyExpression), [];
    }
    var s := StripWhitespace(expr.value);
    if s == [] {
      return Err(EmptyExpression), [];
    }
    var rpn := InfixToRpn(s);
    if rpn.Err? {
      return Err(rpn.error), [];
    }
    result, steps := EvalRpn(ar, rpn.value);
  }

  /** The reply to an expression: the expression as given, the steps and the result, or the error text. */
  datatype ExpressionReply<V> =
    | ExpressionSolved(expression: string, steps: seq<string>, result: V)
    | ExpressionFailed(error: string)

  /** The reply to an equation: the equation as given and the solution, or the error text. */
  datatype EquationReply = EquationSolved(equation: string, x: real) | EquationFailed(error: string)

  /** The expression endpoint: a successful evaluation is reported with its steps, a failure by its message. */
  function SolveExpression<V>(ar: Arithmetic<V>, expr: Option<string>): (r: ExpressionReply<V>)
    ensures r.ExpressionSolved? <==> Evaluation(ar, expr).result.Ok?
    ensures r.ExpressionSolved? ==>
      expr == Some(r.expression) && r.steps == Evaluation(ar, expr).steps && r.result == Evaluation(ar, expr).result.value
    ensures r.ExpressionFailed? ==> r.error == Message(Evaluation(ar, expr).result.error)
  {
    var o := Evaluation(ar, expr);
    match o.result
    case Err(e) => ExpressionFailed(Message(e))
    case Ok(v) => ExpressionSolved(expr.value, o.steps, v)
  }

  /** The equation endpoint: the solver's answer, or the message of its failure. */
  function SolveEquation(eq: Option<string>): (r: EquationReply)
    ensures r.EquationSolved? <==> Solve(eq).Ok?
    ensures r.EquationSolved? ==> eq == Some(r.equation) && r.x == Solve(eq).value
    ensures r.EquationFailed? ==> r.error == Message(Solve(eq).error)
  {
    match Solve(eq)
    case Err(e) => EquationFailed(Message(e))
    case Ok(x) => EquationSolved(eq.value, x)
  }

  /** The ways the evaluator fails: a missing operand, an unreadable numeral, or not exactly one value left. */
  lemma {:induction false} EvalFromErrors<V>(ar: Arithmetic<V>, rpn: seq<Token>, st: seq<V>, steps: seq<string>)
    ensures var o := EvalFrom(ar, rpn, st, steps);
      o.result.Err? ==>
        o.result.error in {UnaryMissingOperand, OperatorMissingOperand, InvalidExpression} || o.result.error.NumberFormat?
    decreases |rpn|
  {
    if rpn != [] {
      var t := rpn[0];
      if t.Op? && t.kind == Negate {
        if st != [] {
          EvalFromErrors(ar, rpn[1..], [ar.neg(st[0])] + st[1..], steps + [NegateStep(ar, st[0], ar.neg(st[0]))]);
        }
      } else if t.Op? {
        if |st| >= 2 {
          var r := Apply(ar, t.kind, st[1], st[0]);
          EvalFromErrors(ar, rpn[1..], [r] + st[2..], steps + [BinaryStep(ar, t.kind, st[1], st[0], r)]);
        }
      } else if ar.parse(TokenText(t)).Some? {
        EvalFromErrors(ar, rpn[1..], [ar.parse(TokenText(t)).value] + st, steps);
      }
    }
  }

  /** The ways conversion fails: an invalid character, a ')' with no '(' open, or an unclosed '('. */
  lemma ConvertErrors(s: string)
    ensures Convert(s).Err? ==> Convert(s).error.InvalidCharacter? || Convert(s).error in {MismatchedClose, MismatchedOpen}
  {
    ConvertVerdict(s);
    var f := FirstFault(s, 0);
    if f < |s| {
      assert Convert(s) == Err(FaultError(s[f]));
    }
  }

  /**
   * "Empty expression" is reported exactly for a null or blank expression; every other failure
   * comes from conversion or evaluation, and a failed conversion records no step.
   */
  lemma EvaluationErrors<V>(ar: Arithmetic<V>, expr: Option<string>)
    ensures Evaluation(ar, expr).result == Err(EmptyExpression) <==> expr.None? || StripWhitespace(expr.value) == []
    ensures expr.Some? && StripWhitespace(expr.value) != [] && Convert(StripWhitespace(expr.value)).Err? ==>
      Evaluation(ar, expr) == Outcome(Err(Convert(StripWhitespace(expr.value)).error), [])
    ensures Evaluation(ar, expr).result.Err? ==>
      Evaluation(ar, expr).result.error in
        {EmptyExpression, MismatchedClose, MismatchedOpen, UnaryMissingOperand, OperatorMissingOperand, InvalidExpression} ||
      Evaluation(ar, expr).result.error.InvalidCharacter? || Evaluation(ar, expr).result.error.NumberFormat?
  {
    if expr.Some? {
      var s := StripWhitespace(expr.value);
      if s != [] {
        ConvertErrors(s);
        if Convert(s).Ok? {
          EvalFromErrors(ar, Convert(s).value, [], []);
        }
      }
    }
  }

  /** Evaluation records at most one step per operator of the postfix form, and exactly one per operator when it succeeds. */
  lemma EvaluationSteps<V>(ar: Arithmetic<V>, s: string)
    requires StripWhitespace(s) != [] && Convert(StripWhitespace(s)).Ok?
    ensures var o := Evaluation(ar, Some(s));
      var n := |Operators(Convert(StripWhitespace(s)).value)|;
      |o.steps| <= n && (o.result.Ok? ==> |o.steps| == n)
  {
    EvalStepCount(ar, Convert(StripWhitespace(s)).value, [], []);
  }

  lemma {:induction false} NoWhitespaceConcat(a: string, b: string)
    requires NoWhitespace(a) && NoWhitespace(b)
    ensures NoWhitespace(a + b)
  {
    forall k | 0 <= k < |a + b| ensures !IsWhitespace((a + b)[k]) {
      if k >= |a| {
        assert (a + b)[k] == b[k - |a|];
      }
    }
  }

  /** The text of a well-formed tree holds digits, points, parentheses and operator signs only. */
  lemma {:induction false} RenderNoWhitespace(e: Expr)
    requires WellFormed(e)
    ensures NoWhitespace(Render(e))
  {
    match e
    case Lit(t) =>
      forall k | 0 <= k < |t| ensures !IsWhitespace(t[k]) {
        AllNumberCharsAt(t, k);
      }
    case Neg(a) =>
      RenderNoWhitespace(a);
      NoWhitespaceConcat("(-", Render(a));
      NoWhitespaceConcat("(-" + Render(a), ")");
    case Bin(op, l, r) =>
      RenderNoWhitespace(l);
      RenderNoWhitespace(r);
      NoWhitespaceConcat("(", Render(l));
      NoWhitespaceConcat("(" + Render(l), [OpChar(op)]);
      NoWhitespaceConcat("(" + Render(l) + [OpChar(op)], Render(r));
      NoWhitespaceConcat("(" + Render(l) + [OpChar(op)] + Render(r), ")");
  }

  /**
   * End to end: the fully parenthesised text of a well-formed tree whose operations are all
   * defined evaluates to the tree's value, with one step per operator in postfix order, and the
   * expression endpoint reports exactly that.
   */
  lemma SolveRendered<V>(ar: Arithmetic<V>, e: Expr)
    requires WellFormed(e) && Defined(ar, e)
    ensures Evaluation(ar, Some(Render(e))) == Outcome(Ok(Denote(ar, e)), Trace(ar, e))
    ensures SolveExpression(ar, Some(Render(e))) == ExpressionSolved(Render(e), Trace(ar, e), Denote(ar, e))
    ensures |Trace(ar, e)| == OpCount(e)
  {
    RenderNoWhitespace(e);
    RenderEnds(e);
    ConvertTree(e);
    EvalTree(ar, e);
  }

  lemma WrapNoWhitespace(t: string, paren: bool)
    requires NoWhitespace(t)
    ensures NoWhitespace(Wrap(t, paren))
  {
    if paren {
      NoWhitespaceConcat("(", t);
      NoWhitespaceConcat("(" + t, ")");
    }
  }

  /** The minimally parenthesised text of a well-formed tree holds no whitespace either. */
  lemma {:induction false} InfixNoWhitespace(e: Expr)
    requires WellFormed(e)
    ensures NoWhitespace(Infix(e))
  {
    match e
    case Lit(t) =>
      forall k | 0 <= k < |t| ensures !IsWhitespace(t[k]) {
        AllNumberCharsAt(t, k);
      }
    case Neg(a) =>
      InfixNoWhitespace(a);
      WrapNoWhitespace(Infix(a), NegParens(a));
      NoWhitespaceConcat("-", Wrap(Infix(a), NegParens(a)));
    case Bin(op, l, r) =>
      var A, B := Wrap(Infix(l), LeftParens(op, l)), Wrap(Infix(r), RightParens(op, r));
      InfixNoWhitespace(l);
      InfixNoWhitespace(r);
      WrapNoWhitespace(Infix(l), LeftParens(op, l));
      WrapNoWhitespace(Infix(r), RightParens(op, r));
      NoWhitespaceConcat(A, [OpChar(op)]);
      NoWhitespaceConcat(A + [OpChar(op)], B);
  }

  /**
   * End to end, as precedence and associativity group it: the text of a well-formed tree with
   * only the parentheses they require ("8-3-2", "2^3^2", "-2^2", "3+4*2") evaluates to the
   * tree's value, with one step per operator in postfix order.
   */
  lemma SolveMinimal<V>(ar: Arithmetic<V>, e: Expr)
    requires WellFormed(e) && Defined(ar, e)
    ensures Evaluation(ar, Some(Infix(e))) == Outcome(Ok(Denote(ar, e)), Trace(ar, e))
    ensures SolveExpression(ar, Some(Infix(e))) == ExpressionSolved(Infix(e), Trace(ar, e), Denote(ar, e))
  {
    InfixNoWhitespace(e);
    InfixEnds(e);
    ConvertMinimal(e);
    EvalTree(ar, e);
  }
}
