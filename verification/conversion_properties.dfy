/**
 * What the shunting-yard conversion guarantees: the output holds no parentheses; exactly
 * which inputs are rejected and with which error; every numeral and every operator of the
 * input reaches the output once, numerals in input order; and where a '-' is unary.
 */
module ConversionProperties {
  import opened Wrappers
  import opened Errors
  import opened Numerals
  import opened Tokens
  import opened Shunting

  // ----- What the two pop loops do to the stack -----

  /** The ')' pop loop moves only operators, and finds a '(' exactly when one is open. */
  lemma PopToOpenEffect(st: Stacks)
    requires forall t | t in st.ops :: IsStackEntry(t)
    ensures var p := PopToOpen(st);
      && (p.ops == [] <==> multiset(st.ops)[LParen] == 0)
      && (p.ops != [] ==> multiset(p.ops[1..])[LParen] == multiset(st.ops)[LParen] - 1)
      && (forall t | t in p.ops :: IsStackEntry(t))
      && (forall t | t in p.out :: t in st.out || (t in st.ops && t.Op?))
  {
    var p := PopToOpen(st);
    var n := OpenIndex(st.ops);
    OpenIndexStops(st.ops);
    assert st.ops == st.ops[..n] + st.ops[n..];
    assert multiset(st.ops) == multiset(st.ops[..n]) + multiset(st.ops[n..]);
    assert multiset(st.ops[..n])[LParen] == 0;
    if p.ops != [] {
      assert p.ops == [LParen] + p.ops[1..];
      assert multiset(p.ops) == multiset{LParen} + multiset(p.ops[1..]);
    }
    forall t | t in p.out ensures t in st.out || (t in st.ops && t.Op?) {
      if t !in st.out {
        assert t in st.ops[..n];
        assert t != LParen && t in st.ops;
      }
    }
  }

  /** The operator pop loop moves only operators and leaves the open parentheses in place. */
  lemma PopOperatorsEffect(op: OpKind, st: Stacks)
    requires forall t | t in st.ops :: IsStackEntry(t)
    ensures var p := PopOperators(op, st);
      && multiset(p.ops)[LParen] == multiset(st.ops)[LParen]
      && (forall t | t in p.ops :: IsStackEntry(t))
      && (forall t | t in [Op(op)] + p.ops :: IsStackEntry(t))
      && (forall t | t in p.out :: t in st.out || (t in st.ops && t.Op?))
  {
    var p := PopOperators(op, st);
    var n := PopCount(op, st.ops);
    PopCountRun(op, st.ops);
    assert st.ops == st.ops[..n] + st.ops[n..];
    assert multiset(st.ops) == multiset(st.ops[..n]) + multiset(st.ops[n..]);
    assert LParen !in st.ops[..n];
    forall t | t in p.out ensures t in st.out || (t in st.ops && t.Op?) {
      if t !in st.out {
        assert t in st.ops[..n];
      }
    }
  }

  // ----- No parentheses in the output -----

  lemma {:induction false} ConvertFromEmitsNoParens(s: string, i: nat, st: Stacks)
    requires i <= |s|
    requires forall t | t in st.ops :: IsStackEntry(t)
    requires forall t | t in st.out :: IsOutputEntry(t)
    ensures ConvertFrom(s, i, st).Ok? ==> forall t | t in ConvertFrom(s, i, st).value :: IsOutputEntry(t)
    decreases |s| - i
  {
    if i == |s| {
      DrainResult(st);
    } else if IsNumberChar(s[i]) {
      var j := NumberEnd(s, i);
      ConvertFromEmitsNoParens(s, j, Stacks(st.ops, st.out + [Num(s[i..j])]));
    } else if s[i] == '(' {
      ConvertFromEmitsNoParens(s, i + 1, Stacks([LParen] + st.ops, st.out));
    } else if s[i] == ')' {
      var p := PopToOpen(st);
      PopToOpenEffect(st);
      if p.ops != [] {
        ConvertFromEmitsNoParens(s, i + 1, Stacks(p.ops[1..], p.out));
      }
    } else if IsOpChar(s[i]) {
      var op := OperatorAt(s, i);
      var p := PopOperators(op, st);
      PopOperatorsEffect(op, st);
      ConvertFromEmitsNoParens(s, i + 1, Stacks([Op(op)] + p.ops, p.out));
    }
  }

  /** The postfix output holds only numerals and operators: never '(' or ')'. */
  lemma ConvertEmitsNoParens(s: string)
    ensures Convert(s).Ok? ==> forall t | t in Convert(s).value :: t.Num? || t.Op?
  {
    ConvertFromEmitsNoParens(s, 0, Stacks([], []));
  }

  // ----- Which inputs fail, and how -----

  /** Open minus close parentheses in t. */
  function Depth(t: string): int
  {
    if t == [] then 0
    else Depth(t[..|t| - 1]) + (if t[|t| - 1] == '(' then 1 else if t[|t| - 1] == ')' then -1 else 0)
  }

  /** Index k is where conversion stops: a character outside the grammar, or a ')' with no '(' open. */
  predicate FaultAt(s: string, k: nat)
    requires k < |s|
  {
    !ValidChar(s[k]) || (s[k] == ')' && Depth(s[..k]) <= 0)
  }

  /** The error reported for a fault at character c. */
  function FaultError(c: char): Error
  {
    if ValidChar(c) then MismatchedClose else InvalidCharacter(c)
  }

  /** The first fault at or after index i, or |s| when there is none. */
  function FirstFault(s: string, i: nat): (k: nat)
    requires i <= |s|
    ensures i <= k <= |s|
    ensures forall m | i <= m < k :: !FaultAt(s, m)
    ensures k < |s| ==> FaultAt(s, k)
    decreases |s| - i
  {
    if i == |s| then |s| else if FaultAt(s, i) then i else FirstFault(s, i + 1)
  }

  lemma DepthStep(s: string, k: nat)
    requires k < |s|
    ensures Depth(s[..k + 1]) == Depth(s[..k]) + (if s[k] == '(' then 1 else if s[k] == ')' then -1 else 0)
  {
    assert s[..k + 1][..k] == s[..k];
  }

  /** A numeral changes neither the depth nor where the first fault lies. */
  lemma {:induction false} NumeralStretch(s: string, i: nat, j: nat)
    requires i <= j <= |s|
    requires AllNumberChars(s[i..j])
    ensures Depth(s[..j]) == Depth(s[..i])
    ensures FirstFault(s, i) == FirstFault(s, j)
    decreases j - i
  {
    if i < j {
      assert s[i..j][1..] == s[i + 1..j];
      assert IsNumberChar(s[i..j][0]);
      DepthStep(s, i);
      NumeralStretch(s, i + 1, j);
    }
  }

  lemma {:induction false} ConvertFromVerdict(s: string, i: nat, st: Stacks)
    requires i <= |s|
    requires forall t | t in st.ops :: IsStackEntry(t)
    requires multiset(st.ops)[LParen] == Depth(s[..i])
    ensures ConvertFrom(s, i, st).Ok? <==> FirstFault(s, i) == |s| && Depth(s) == 0
    ensures FirstFault(s, i) < |s| ==> ConvertFrom(s, i, st) == Err(FaultError(s[FirstFault(s, i)]))
    ensures FirstFault(s, i) == |s| && Depth(s) != 0 ==> ConvertFrom(s, i, st) == Err(MismatchedOpen)
    decreases |s| - i
  {
    if i == |s| {
      DrainResult(st);
      assert s[..i] == s;
      assert LParen in st.ops <==> multiset(st.ops)[LParen] > 0;
    } else if IsNumberChar(s[i]) {
      var j := NumberEnd(s, i);
      NumberEndStops(s, i);
      NumeralStretch(s, i, j);
      ConvertFromVerdict(s, j, Stacks(st.ops, st.out + [Num(s[i..j])]));
    } else if s[i] == '(' {
      DepthStep(s, i);
      assert multiset([LParen] + st.ops) == multiset{LParen} + multiset(st.ops);
      ConvertFromVerdict(s, i + 1, Stacks([LParen] + st.ops, st.out));
    } else if s[i] == ')' {
      DepthStep(s, i);
      var p := PopToOpen(st);
      PopToOpenEffect(st);
      if p.ops != [] {
        ConvertFromVerdict(s, i + 1, Stacks(p.ops[1..], p.out));
      }
    } else if IsOpChar(s[i]) {
      DepthStep(s, i);
      var op := OperatorAt(s, i);
      var p := PopOperators(op, st);
      PopOperatorsEffect(op, st);
      assert multiset([Op(op)] + p.ops) == multiset{Op(op)} + multiset(p.ops);
      ConvertFromVerdict(s, i + 1, Stacks([Op(op)] + p.ops, p.out));
    }
  }

  /**
   * Conversion succeeds exactly when no character is a fault and every '(' is closed. Otherwise
   * it reports the first fault: "Invalid character" for a character outside the grammar and
   * "Mismatched ')'" for a ')' with nothing open; with no fault but an unclosed '(', "Mismatched '('".
   */
  lemma ConvertVerdict(s: string)
    ensures Convert(s).Ok? <==> (forall k | 0 <= k < |s| :: !FaultAt(s, k)) && Depth(s) == 0
    ensures forall k | 0 <= k < |s| && FaultAt(s, k) && (forall m | 0 <= m < k :: !FaultAt(s, m)) ::
      Convert(s) == Err(FaultError(s[k]))
    ensures (forall k | 0 <= k < |s| :: !FaultAt(s, k)) && Depth(s) != 0 ==> Convert(s) == Err(MismatchedOpen)
  {
    assert s[..0] == [];
    ConvertFromVerdict(s, 0, Stacks([], []));
    var f := FirstFault(s, 0);
    if f < |s| {
      forall k | 0 <= k < |s| && FaultAt(s, k) && (forall m | 0 <= m < k :: !FaultAt(s, m))
        ensures k == f
      {
      }
    }
  }

  // ----- Numerals and operators reach the output -----

  /** The input's tokens in input order, with each '-' already classified (lexing stops at an invalid character). */
  function LexFrom(s: string, i: nat): seq<Token>
    requires i <= |s|
    decreases |s| - i
  {
    if i == |s| then []
    else if IsNumberChar(s[i]) then
      var j := NumberEnd(s, i);
      [Num(s[i..j])] + LexFrom(s, j)
    else if s[i] == '(' then [LParen] + LexFrom(s, i + 1)
    else if s[i] == ')' then [RParen] + LexFrom(s, i + 1)
    else if IsOpChar(s[i]) then [Op(OperatorAt(s, i))] + LexFrom(s, i + 1)
    else []
  }

  function Lex(s: string): seq<Token>
  {
    LexFrom(s, 0)
  }

  lemma {:induction false} NoNumbersAmongOperators(ts: seq<Token>)
    requires forall t | t in ts :: t.Op?
    ensures Numbers(ts) == []
  {
    if ts != [] {
      assert ts[0] in ts;
      NoNumbersAmongOperators(ts[1..]);
    }
  }

  /** Moving the top n stack entries, all operators, to the output keeps numerals and operators. */
  lemma MoveToOutput(ops: seq<Token>, out: seq<Token>, n: nat)
    requires n <= |ops|
    requires forall t | t in ops[..n] :: t.Op?
    ensures Numbers(out + ops[..n]) == Numbers(out)
    ensures multiset(Operators(out + ops[..n])) + multiset(Operators(ops[n..]))
         == multiset(Operators(out)) + multiset(Operators(ops))
  {
    NumbersAppend(out, ops[..n]);
    NoNumbersAmongOperators(ops[..n]);
    OperatorsAppend(out, ops[..n]);
    assert ops == ops[..n] + ops[n..];
    OperatorsAppend(ops[..n], ops[n..]);
  }

  lemma OperatorsSkipsFirst(t: Token, ts: seq<Token>)
    requires !t.Op?
    ensures Operators([t] + ts) == Operators(ts)
  {
    assert ([t] + ts)[1..] == ts;
  }

  /** From index i on, with stacks st, conversion keeps the numerals in order and every operator. */
  predicate KeepsTokensFrom(s: string, i: nat, st: Stacks)
    requires i <= |s|
  {
    var r := ConvertFrom(s, i, st);
    r.Ok? ==>
      && Numbers(r.value) == Numbers(st.out) + Numbers(LexFrom(s, i))
      && multiset(Operators(r.value))
         == multiset(Operators(st.out)) + multiset(Operators(st.ops)) + multiset(Operators(LexFrom(s, i)))
  }

  lemma {:induction false} ConvertFromKeepsTokens(s: string, i: nat, st: Stacks)
    requires i <= |s|
    requires forall t | t in st.ops :: IsStackEntry(t)
    ensures KeepsTokensFrom(s, i, st)
    decreases |s| - i, 1
  {
    if i == |s| {
      DrainResult(st);
      if LParen !in st.ops {
        assert st.ops[..|st.ops|] == st.ops && st.ops[|st.ops|..] == [];
        MoveToOutput(st.ops, st.out, |st.ops|);
      }
    } else if IsNumberChar(s[i]) {
      KeepsTokensAtNumeral(s, i, st);
    } else if s[i] == '(' {
      KeepsTokensAtOpen(s, i, st);
    } else if s[i] == ')' {
      KeepsTokensAtClose(s, i, st);
    } else if IsOpChar(s[i]) {
      KeepsTokensAtOperator(s, i, st);
    }
  }

  lemma UnfoldAtNumeral(s: string, i: nat, st: Stacks)
    requires i < |s| && IsNumberChar(s[i])
    ensures var j := NumberEnd(s, i);
      && LexFrom(s, i) == [Num(s[i..j])] + LexFrom(s, j)
      && ConvertFrom(s, i, st) == ConvertFrom(s, j, Stacks(st.ops, st.out + [Num(s[i..j])]))
  {
  }

  /** The bookkeeping of one numeral step: the numeral is appended to the output. */
  lemma NumeralAlgebra(ops: seq<Token>, out: seq<Token>, tok: Token, r: seq<Token>, rest: seq<Token>)
    requires tok.Num?
    requires Numbers(r) == Numbers(out + [tok]) + Numbers(rest)
    requires multiset(Operators(r)) == multiset(Operators(out + [tok])) + multiset(Operators(ops)) + multiset(Operators(rest))
    ensures Numbers(r) == Numbers(out) + Numbers([tok] + rest)
    ensures multiset(Operators(r)) == multiset(Operators(out)) + multiset(Operators(ops)) + multiset(Operators([tok] + rest))
  {
    NumeralNumbers(out, tok, rest);
    NumeralOperators(out, tok, rest);
  }

  lemma NumeralNumbers(out: seq<Token>, tok: Token, rest: seq<Token>)
    requires tok.Num?
    ensures Numbers(out + [tok]) + Numbers(rest) == Numbers(out) + Numbers([tok] + rest)
  {
    NumbersAppend(out, [tok]);
    NumbersAppend([tok], rest);
    NumbersAppend(out + [tok], rest);
    NumbersAppend(out, [tok] + rest);
    assert (out + [tok]) + rest == out + ([tok] + rest);
  }

  lemma NumeralOperators(out: seq<Token>, tok: Token, rest: seq<Token>)
    requires tok.Num?
    ensures Operators(out + [tok]) == Operators(out)
    ensures Operators([tok] + rest) == Operators(rest)
  {
    OperatorsAppend(out, [tok]);
    OperatorsSkipsFirst(tok, rest);
  }

  lemma {:induction false} KeepsTokensAtNumeral(s: string, i: nat, st: Stacks)
    requires i < |s| && IsNumberChar(s[i])
    requires forall t | t in st.ops :: IsStackEntry(t)
    ensures KeepsTokensFrom(s, i, st)
    decreases |s| - i, 0
  {
    var j := NumberEnd(s, i);
    var tok := Num(s[i..j]);
    UnfoldAtNumeral(s, i, st);
    ConvertFromKeepsTokens(s, j, Stacks(st.ops, st.out + [tok]));
    var r := ConvertFrom(s, j, Stacks(st.ops, st.out + [tok]));
    if r.Ok? {
      NumeralAlgebra(st.ops, st.out, tok, r.value, LexFrom(s, j));
    }
  }

  lemma {:induction false} KeepsTokensAtOpen(s: string, i: nat, st: Stacks)
    requires i < |s| && s[i] == '('
    requires forall t | t in st.ops :: IsStackEntry(t)
    ensures KeepsTokensFrom(s, i, st)
    decreases |s| - i, 0
  {
    ConvertFromKeepsTokens(s, i + 1, Stacks([LParen] + st.ops, st.out));
    OperatorsSkipsFirst(LParen, st.ops);
    OperatorsSkipsFirst(LParen, LexFrom(s, i + 1));
    assert ([LParen] + LexFrom(s, i + 1))[1..] == LexFrom(s, i + 1);
    assert LexFrom(s, i) == [LParen] + LexFrom(s, i + 1);
    assert ConvertFrom(s, i, st) == ConvertFrom(s, i + 1, Stacks([LParen] + st.ops, st.out));
  }

  lemma UnfoldAtClose(s: string, i: nat, st: Stacks)
    requires i < |s| && s[i] == ')'
    ensures LexFrom(s, i) == [RParen] + LexFrom(s, i + 1)
    ensures var p := PopToOpen(st);
      ConvertFrom(s, i, st) == if p.ops == [] then Err(MismatchedClose) else ConvertFrom(s, i + 1, Stacks(p.ops[1..], p.out))
  {
    assert !IsNumberChar(s[i]);
  }

  /** The bookkeeping of one ')' step: the popped operators and the dropped '(' balance out. */
  lemma CloseAlgebra(popped: seq<Token>, tail: seq<Token>, out: seq<Token>, r: seq<Token>, rest: seq<Token>)
    requires forall t | t in popped :: t.Op?
    requires Numbers(r) == Numbers(out + popped) + Numbers(rest)
    requires multiset(Operators(r))
          == multiset(Operators(out + popped)) + multiset(Operators(tail)) + multiset(Operators(rest))
    ensures Numbers(r) == Numbers(out) + Numbers([RParen] + rest)
    ensures multiset(Operators(r))
         == multiset(Operators(out)) + multiset(Operators(popped + [LParen] + tail)) + multiset(Operators([RParen] + rest))
  {
    PopAboveOpen(popped, tail, out);
    SkipsClose(rest);
    Rebalance(multiset(Operators(r)), multiset(Operators(out + popped)), multiset(Operators(tail)),
      multiset(Operators(rest)), multiset(Operators(out)), multiset(Operators(popped + [LParen] + tail)));
  }

  /** Moving the operators above a '(' to the output and dropping the '(' loses no operator. */
  lemma PopAboveOpen(popped: seq<Token>, tail: seq<Token>, out: seq<Token>)
    requires forall t | t in popped :: t.Op?
    ensures Numbers(out + popped) == Numbers(out)
    ensures multiset(Operators(out + popped)) + multiset(Operators(tail))
         == multiset(Operators(out)) + multiset(Operators(popped + [LParen] + tail))
  {
    var ops := popped + [LParen] + tail;
    var n := |popped|;
    assert ops[..n] == popped;
    assert ops[n..] == [LParen] + tail;
    MoveToOutput(ops, out, n);
    OperatorsSkipsFirst(LParen, tail);
  }

  /** A ')' carries neither a numeral nor an operator. */
  lemma SkipsClose(rest: seq<Token>)
    ensures Numbers([RParen] + rest) == Numbers(rest) && Operators([RParen] + rest) == Operators(rest)
  {
    assert ([RParen] + rest)[1..] == rest;
  }

  lemma Rebalance(m: multiset<OpKind>, a: multiset<OpKind>, t: multiset<OpKind>, r: multiset<OpKind>,
                  o: multiset<OpKind>, p: multiset<OpKind>)
    requires m == a + t + r && a + t == o + p
    ensures m == o + p + r
  {
  }

  lemma {:induction false} KeepsTokensAtClose(s: string, i: nat, st: Stacks)
    requires i < |s| && s[i] == ')'
    requires forall t | t in st.ops :: IsStackEntry(t)
    ensures KeepsTokensFrom(s, i, st)
    decreases |s| - i, 0
  {
    var p := PopToOpen(st);
    var n := OpenIndex(st.ops);
    OpenIndexStops(st.ops);
    PopToOpenEffect(st);
    UnfoldAtClose(s, i, st);
    if p.ops != [] {
      forall t | t in st.ops[..n] ensures t.Op? {
        assert t in st.ops;
      }
      ConvertFromKeepsTokens(s, i + 1, Stacks(p.ops[1..], p.out));
      assert p.ops[1..] == st.ops[n + 1..];
      var r := ConvertFrom(s, i + 1, Stacks(p.ops[1..], p.out));
      if r.Ok? {
        assert st.ops == st.ops[..n] + [LParen] + st.ops[n + 1..];
        CloseAlgebra(st.ops[..n], st.ops[n + 1..], st.out, r.value, LexFrom(s, i + 1));
      }
    }
  }

  lemma UnfoldAtOperator(s: string, i: nat, st: Stacks)
    requires i < |s| && IsOpChar(s[i])
    ensures var op := OperatorAt(s, i);
      && LexFrom(s, i) == [Op(op)] + LexFrom(s, i + 1)
      && ConvertFrom(s, i, st) == ConvertFrom(s, i + 1, Stacks([Op(op)] + PopOperators(op, st).ops, PopOperators(op, st).out))
  {
    assert !IsNumberChar(s[i]) && s[i] != '(' && s[i] != ')';
  }

  /** The bookkeeping of one operator step: popped operators move to the output, the new one is pushed. */
  lemma OperatorAlgebra(ops: seq<Token>, out: seq<Token>, n: nat, op: OpKind, r: seq<Token>, rest: seq<Token>)
    requires n <= |ops|
    requires forall t | t in ops[..n] :: t.Op?
    requires Numbers(r) == Numbers(out + ops[..n]) + Numbers(rest)
    requires multiset(Operators(r))
          == multiset(Operators(out + ops[..n])) + multiset(Operators([Op(op)] + ops[n..])) + multiset(Operators(rest))
    ensures Numbers(r) == Numbers(out) + Numbers([Op(op)] + rest)
    ensures multiset(Operators(r)) == multiset(Operators(out)) + multiset(Operators(ops)) + multiset(Operators([Op(op)] + rest))
  {
    var popped, kept := ops[..n], ops[n..];
    assert Numbers(out + popped) == Numbers(out) &&
      multiset(Operators(out + popped)) + multiset(Operators(kept)) == multiset(Operators(out)) + multiset(Operators(ops)) by {
      MoveToOutput(ops, out, n);
    }
    assert Numbers([Op(op)] + rest) == Numbers(rest) && Operators([Op(op)] + rest) == [op] + Operators(rest) by {
      assert ([Op(op)] + rest)[1..] == rest;
    }
    assert Operators([Op(op)] + kept) == [op] + Operators(kept) by {
      assert ([Op(op)] + kept)[1..] == kept;
    }
  }

  lemma {:induction false} KeepsTokensAtOperator(s: string, i: nat, st: Stacks)
    requires i < |s| && IsOpChar(s[i])
    requires forall t | t in st.ops :: IsStackEntry(t)
    ensures KeepsTokensFrom(s, i, st)
    decreases |s| - i, 0
  {
    var op := OperatorAt(s, i);
    var p := PopOperators(op, st);
    var n := PopCount(op, st.ops);
    PopCountRun(op, st.ops);
    PopOperatorsEffect(op, st);
    UnfoldAtOperator(s, i, st);
    var pushed := [Op(op)] + p.ops;
    ConvertFromKeepsTokens(s, i + 1, Stacks(pushed, p.out));
    var r := ConvertFrom(s, i + 1, Stacks(pushed, p.out));
    if r.Ok? {
      OperatorAlgebra(st.ops, st.out, n, op, r.value, LexFrom(s, i + 1));
    }
  }

  /**
   * A successful conversion emits every numeral of the input once and in input order, and
   * every operator of the input exactly once (as a multiset: the order is the postfix order).
   */
  lemma ConvertKeepsTokens(s: string)
    requires Convert(s).Ok?
    ensures Numbers(Convert(s).value) == Numbers(Lex(s))
    ensures multiset(Operators(Convert(s).value)) == multiset(Operators(Lex(s)))
  {
    ConvertFromKeepsTokens(s, 0, Stacks([], []));
    assert KeepsTokensFrom(s, 0, Stacks([], []));
  }

  // ----- Unary and binary minus -----

  predicate IsMinusToken(t: Token) { t == Op(Minus) || t == Op(Negate) }

  /** A token after which a '-' is binary: the end of an operand. */
  predicate EndsOperand(t: Token) { t.Num? || t.RParen? }

  lemma FirstTokenMinus(s: string, j: nat)
    requires 0 < j <= |s| && ValidChar(s[j - 1])
    ensures |LexFrom(s, j)| > 0 && IsMinusToken(LexFrom(s, j)[0]) ==>
      (LexFrom(s, j)[0] == Op(Minus) <==> IsNumberChar(s[j - 1]) || s[j - 1] == ')')
  {
  }

  lemma {:induction false} LexFromMinus(s: string, i: nat)
    requires i <= |s|
    ensures forall k | 0 < k < |LexFrom(s, i)| && IsMinusToken(LexFrom(s, i)[k]) ::
      (LexFrom(s, i)[k] == Op(Minus) <==> EndsOperand(LexFrom(s, i)[k - 1]))
    decreases |s| - i
  {
    if i < |s| && ValidChar(s[i]) {
      var j := if IsNumberChar(s[i]) then NumberEnd(s, i) else i + 1;
      var L := LexFrom(s, i);
      var R := LexFrom(s, j);
      assert L == [L[0]] + R;
      if IsNumberChar(s[i]) {
        NumberEndStops(s, i);
        AllNumberCharsAt(s[i..j], j - 1 - i);
        assert s[i..j][j - 1 - i] == s[j - 1];
      }
      assert ValidChar(s[j - 1]) && (IsNumberChar(s[j - 1]) || s[j - 1] == ')' <==> EndsOperand(L[0]));
      LexFromMinus(s, j);
      FirstTokenMinus(s, j);
      forall k | 0 < k < |L| && IsMinusToken(L[k])
        ensures L[k] == Op(Minus) <==> EndsOperand(L[k - 1])
      {
        assert L[k] == R[k - 1];
        if k > 1 {
          assert L[k - 1] == R[k - 2];
        }
      }
    }
  }

  /**
   * A '-' is binary subtraction exactly when the token before it ends an operand (a numeral or
   * ')'); at the start, after an operator and after '(' it is the unary minus.
   */
  lemma UnaryMinusByPosition(s: string)
    ensures forall k | 0 <= k < |Lex(s)| && IsMinusToken(Lex(s)[k]) ::
      (Lex(s)[k] == Op(Minus) <==> k > 0 && EndsOperand(Lex(s)[k - 1]))
  {
    LexFromMinus(s, 0);
    if |Lex(s)| > 0 && IsMinusToken(Lex(s)[0]) {
      assert s != [] && IsOpChar(s[0]) && !IsNumberChar(s[0]) && s[0] != '(' && s[0] != ')';
      assert Lex(s)[0] == Op(OperatorAt(s, 0));
    }
  }
}
