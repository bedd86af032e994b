/**
 * Stretches of the converter's input and what converting them does to the stacks: a stretch
 * either leaves the operator stack as it found it, or leaves '(' (and possibly one operator
 * above it) pushed, and in each case appends a fixed list of tokens to the output.
 */
module ConversionSteps {
  import opened Text
  import opened Numerals
  import opened Tokens
  import opened Shunting

  /** The numeral scan consumes a run of number characters with at most the dots allowed, and stops after it. */
  lemma {:induction false} ScanCovers(s: string, j: nat, end: nat, hasDot: bool)
    requires j <= end <= |s|
    requires AllNumberChars(s[j..end]) && DotCount(s[j..end]) <= (if hasDot then 0 else 1)
    requires end == |s| || !IsNumberChar(s[end])
    ensures ScanFrom(s, j, hasDot) == end
    decreases end - j
  {
    if j < end {
      var t := s[j..end];
      assert t[0] == s[j] && t[1..] == s[j + 1..end];
      if IsDigit(s[j]) {
        ScanCovers(s, j + 1, end, hasDot);
      } else {
        ScanCovers(s, j + 1, end, true);
      }
    }
  }

  /** A numeral followed by a character that is not part of a number is scanned as one token. */
  lemma NumeralEnd(s: string, i: nat, t: string)
    requires IsNumeral(t) && i + |t| <= |s| && s[i..i + |t|] == t
    requires i + |t| == |s| || !IsNumberChar(s[i + |t|])
    ensures i < |s| && IsNumberChar(s[i])
    ensures NumberEnd(s, i) == i + |t|
  {
    assert t != [] && t[0] == s[i];
    assert s[i + 1..i + |t|] == t[1..];
    ScanCovers(s, i + 1, i + |t|, s[i] == '.');
  }

  /** '(' is pushed. */
  lemma OpenStep(s: string, i: nat, st: Stacks)
    requires i < |s| && s[i] == '('
    ensures ConvertFrom(s, i, st) == ConvertFrom(s, i + 1, Stacks([LParen] + st.ops, st.out))
  {
  }

  /** An operator right after '(' pops nothing and is pushed. */
  lemma OperatorAfterOpen(s: string, i: nat, ops: seq<Token>, out: seq<Token>)
    requires i < |s| && IsOpChar(s[i])
    ensures ConvertFrom(s, i, Stacks([LParen] + ops, out))
         == ConvertFrom(s, i + 1, Stacks([Op(OperatorAt(s, i)), LParen] + ops, out))
  {
    var st := Stacks([LParen] + ops, out);
    assert PopCount(OperatorAt(s, i), st.ops) == 0;
    assert st.ops[0..] == st.ops && st.out + st.ops[..0] == st.out;
    assert PopOperators(OperatorAt(s, i), st) == st;
    assert [Op(OperatorAt(s, i))] + st.ops == [Op(OperatorAt(s, i)), LParen] + ops;
  }

  /** ')' with one operator above the '(' moves that operator to the output and drops the '('. */
  lemma CloseStep(s: string, i: nat, t: Token, ops: seq<Token>, out: seq<Token>)
    requires i < |s| && s[i] == ')' && t.Op?
    ensures ConvertFrom(s, i, Stacks([t, LParen] + ops, out)) == ConvertFrom(s, i + 1, Stacks(ops, out + [t]))
  {
    var stack := [t, LParen] + ops;
    assert OpenIndex(stack[1..]) == 0;
    assert OpenIndex(stack) == 1;
    assert stack[1..] == [LParen] + ops && stack[..1] == [t];
    assert ([LParen] + ops)[1..] == ops;
  }

  /** The operator character of a binary node is read back as that node's operator. */
  lemma BinaryOperatorRead(s: string, k: nat, op: OpKind)
    requires 0 < k < |s| && op != Negate && s[k] == OpChar(op)
    requires s[k - 1] == ')' || IsNumberChar(s[k - 1])
    ensures IsOpChar(s[k]) && OperatorAt(s, k) == op
  {
  }

  /** What converting a stretch of the input leaves pushed on the operator stack. */
  datatype Left = Nothing | Open | OpenWith(op: OpKind)

  /**
   * Converting s[i..j], whatever the stacks were, pushes what k names on the operator stack,
   * leaves the entries below as they were, and appends p to the output.
   */
  ghost predicate Converts(s: string, i: nat, j: nat, k: Left, p: seq<Token>)
    requires i <= j <= |s|
  {
    match k
    case Nothing =>
      forall st: Stacks {:trigger ConvertFrom(s, i, st)} ::
        ConvertFrom(s, i, st) == ConvertFrom(s, j, Stacks(st.ops, st.out + p))
    case Open =>
      forall st: Stacks {:trigger ConvertFrom(s, i, st)} ::
        ConvertFrom(s, i, st) == ConvertFrom(s, j, Stacks([LParen] + st.ops, st.out + p))
    case OpenWith(op) =>
      forall st: Stacks {:trigger ConvertFrom(s, i, st)} ::
        ConvertFrom(s, i, st) == ConvertFrom(s, j, Stacks([Op(op), LParen] + st.ops, st.out + p))
  }

  /** A numeral followed by a character that cannot extend it is consumed as one Num token. */
  lemma NumeralConsumes(s: string, i: nat, t: string)
    requires IsNumeral(t) && i + |t| <= |s| && s[i..i + |t|] == t
    requires i + |t| == |s| || !IsNumberChar(s[i + |t|])
    ensures Converts(s, i, i + |t|, Nothing, [Num(t)])
  {
    forall st: Stacks
      ensures ConvertFrom(s, i, st) == ConvertFrom(s, i + |t|, Stacks(st.ops, st.out + [Num(t)]))
    {
      NumeralEnd(s, i, t);
    }
  }

  /**
   * "(", a stretch that consumes q, then an operator character: '(' and op above it are left
   * on the stack.
   */
  lemma OperandOpens(s: string, i: nat, k: nat, q: seq<Token>, op: OpKind)
    requires i + 1 <= k < |s| && s[i] == '(' && IsOpChar(s[k]) && OperatorAt(s, k) == op
    ensures Converts(s, i + 1, k, Nothing, q) ==> Converts(s, i, k + 1, OpenWith(op), q)
  {
    if Converts(s, i + 1, k, Nothing, q) {
      forall st: Stacks
        ensures ConvertFrom(s, i, st) == ConvertFrom(s, k + 1, Stacks([Op(op), LParen] + st.ops, st.out + q))
      {
        OpenStep(s, i, st);
        OperatorAfterOpen(s, k, st.ops, st.out + q);
      }
    }
  }

  /** With op above the '(', a stretch that consumes r and then ')' leave the stack as it was. */
  lemma OperandCloses(s: string, i: nat, k: nat, m: nat, q: seq<Token>, r: seq<Token>, op: OpKind, j: nat, p: seq<Token>)
    requires i <= k <= m < |s| && s[m] == ')' && j == m + 1 && p == q + r + [Op(op)]
    ensures Converts(s, i, k, OpenWith(op), q) && Converts(s, k, m, Nothing, r) ==> Converts(s, i, j, Nothing, p)
  {
    if Converts(s, i, k, OpenWith(op), q) && Converts(s, k, m, Nothing, r) {
      forall st: Stacks
        ensures ConvertFrom(s, i, st) == ConvertFrom(s, j, Stacks(st.ops, st.out + p))
      {
        assert st.out + q + r == st.out + (q + r);
        CloseStep(s, m, Op(op), st.ops, st.out + q + r);
        assert st.out + q + r + [Op(op)] == st.out + p;
      }
    }
  }

  /** "(-", a stretch and ")", for one given stack state. */
  lemma NegGroupAt(s: string, i: nat, m: nat, q: seq<Token>, st: Stacks)
    requires i + 2 <= m < |s| && s[i] == '(' && s[i + 1] == '-' && s[m] == ')'
    requires ConvertFrom(s, i + 2, Stacks([Op(Negate), LParen] + st.ops, st.out))
          == ConvertFrom(s, m, Stacks([Op(Negate), LParen] + st.ops, st.out + q))
    ensures ConvertFrom(s, i, st) == ConvertFrom(s, m + 1, Stacks(st.ops, st.out + q + [Op(Negate)]))
  {
    OpenStep(s, i, st);
    assert OperatorAt(s, i + 1) == Negate;
    OperatorAfterOpen(s, i + 1, st.ops, st.out);
    CloseStep(s, m, Op(Negate), st.ops, st.out + q);
  }

  /** "(-", a stretch that consumes q, then ")": the minus follows q in the output. */
  lemma NegGroup(s: string, i: nat, m: nat, q: seq<Token>, j: nat, p: seq<Token>)
    requires i + 2 <= m < |s| && s[i] == '(' && s[i + 1] == '-' && s[m] == ')'
    requires j == m + 1 && p == q + [Op(Negate)]
    ensures Converts(s, i + 2, m, Nothing, q) ==> Converts(s, i, j, Nothing, p)
  {
    if Converts(s, i + 2, m, Nothing, q) {
      forall st: Stacks
        ensures ConvertFrom(s, i, st) == ConvertFrom(s, j, Stacks(st.ops, st.out + p))
      {
        NegGroupAt(s, i, m, q, st);
        assert st.out + q + [Op(Negate)] == st.out + p;
      }
    }
  }
}
