/**
 * Worked conversions that show the precedence and associativity rules at work:
 * each lemma follows the converter through its input one token at a time.
 */
module ConversionExamples {
  import opened Wrappers
  import opened Errors
  import opened Tokens
  import opened Shunting
  import opened Numerals
  import opened Text

  /** `*` binds tighter than `+`: 3+4*2 becomes 3 4 2 * +. */
  lemma PrecedenceExample(s: string)
    requires s == "3+4*2"
    ensures Convert(s) == Ok([Num("3"), Num("4"), Num("2"), Op(Times), Op(Plus)])
  {
    var st1 := Stacks([], [Num("3")]);
    var st2 := Stacks([Op(Plus)], [Num("3")]);
    var st3 := Stacks([Op(Plus)], [Num("3"), Num("4")]);
    var st4 := Stacks([Op(Times), Op(Plus)], [Num("3"), Num("4")]);
    var st5 := Stacks([Op(Times), Op(Plus)], [Num("3"), Num("4"), Num("2")]);
    assert Convert(s) == ConvertFrom(s, 1, st1) by {
      var none: seq<Token> := [];
      DigitStep(s, 0, Stacks(none, none));
      assert [s[0]] == "3" && none + [Num("3")] == [Num("3")];
    }
    assert ConvertFrom(s, 1, st1) == ConvertFrom(s, 2, st2) by {
      var none: seq<Token> := [];
      assert OperatorAt(s, 1) == Plus && [Op(Plus)] + none == [Op(Plus)];
      PushStep(s, 1, st1);
    }
    assert ConvertFrom(s, 2, st2) == ConvertFrom(s, 3, st3) by {
      DigitStep(s, 2, st2);
      assert [s[2]] == "4" && [Num("3")] + [Num("4")] == [Num("3"), Num("4")];
    }
    assert ConvertFrom(s, 3, st3) == ConvertFrom(s, 4, st4) by {
      assert OperatorAt(s, 3) == Times && !ShouldPop(Times, Plus);
      PushStep(s, 3, st3);
    }
    assert ConvertFrom(s, 4, st4) == ConvertFrom(s, 5, st5) by {
      DigitStep(s, 4, st4);
      assert [s[4]] == "2" && [Num("3"), Num("4")] + [Num("2")] == [Num("3"), Num("4"), Num("2")];
    }
    assert ConvertFrom(s, 5, st5) == Ok([Num("3"), Num("4"), Num("2"), Op(Times), Op(Plus)]) by {
      FinishStep(s, st5);
      assert [Num("3"), Num("4"), Num("2")] + [Op(Times), Op(Plus)] == [Num("3"), Num("4"), Num("2"), Op(Times), Op(Plus)];
    }
  }

  /** `^` is right-associative: 2^3^2 becomes 2 3 2 ^ ^, that is 2^(3^2). */
  lemma RightAssociativityExample(s: string)
    requires s == "2^3^2"
    ensures Convert(s) == Ok([Num("2"), Num("3"), Num("2"), Op(Power), Op(Power)])
  {
    var st1 := Stacks([], [Num("2")]);
    var st2 := Stacks([Op(Power)], [Num("2")]);
    var st3 := Stacks([Op(Power)], [Num("2"), Num("3")]);
    var st4 := Stacks([Op(Power), Op(Power)], [Num("2"), Num("3")]);
    var st5 := Stacks([Op(Power), Op(Power)], [Num("2"), Num("3"), Num("2")]);
    assert Convert(s) == ConvertFrom(s, 1, st1) by {
      var none: seq<Token> := [];
      DigitStep(s, 0, Stacks(none, none));
      assert [s[0]] == "2" && none + [Num("2")] == [Num("2")];
    }
    assert ConvertFrom(s, 1, st1) == ConvertFrom(s, 2, st2) by {
      var none: seq<Token> := [];
      assert OperatorAt(s, 1) == Power && [Op(Power)] + none == [Op(Power)];
      PushStep(s, 1, st1);
    }
    assert ConvertFrom(s, 2, st2) == ConvertFrom(s, 3, st3) by {
      DigitStep(s, 2, st2);
      assert [s[2]] == "3" && [Num("2")] + [Num("3")] == [Num("2"), Num("3")];
    }
    assert ConvertFrom(s, 3, st3) == ConvertFrom(s, 4, st4) by {
      assert OperatorAt(s, 3) == Power && !ShouldPop(Power, Power);
      PushStep(s, 3, st3);
    }
    assert ConvertFrom(s, 4, st4) == ConvertFrom(s, 5, st5) by {
      DigitStep(s, 4, st4);
      assert [s[4]] == "2" && [Num("2"), Num("3")] + [Num("2")] == [Num("2"), Num("3"), Num("2")];
    }
    assert ConvertFrom(s, 5, st5) == Ok([Num("2"), Num("3"), Num("2"), Op(Power), Op(Power)]) by {
      FinishStep(s, st5);
      assert [Num("2"), Num("3"), Num("2")] + [Op(Power), Op(Power)] == [Num("2"), Num("3"), Num("2"), Op(Power), Op(Power)];
    }
  }

  /** Binary '-' is left-associative: 8-3-2 becomes 8 3 - 2 -, that is (8-3)-2. */
  lemma LeftAssociativityExample(s: string)
    requires s == "8-3-2"
    ensures Convert(s) == Ok([Num("8"), Num("3"), Op(Minus), Num("2"), Op(Minus)])
  {
    var st1 := Stacks([], [Num("8")]);
    var st2 := Stacks([Op(Minus)], [Num("8")]);
    var st3 := Stacks([Op(Minus)], [Num("8"), Num("3")]);
    var st4 := Stacks([Op(Minus)], [Num("8"), Num("3"), Op(Minus)]);
    var st5 := Stacks([Op(Minus)], [Num("8"), Num("3"), Op(Minus), Num("2")]);
    assert Convert(s) == ConvertFrom(s, 1, st1) by {
      var none: seq<Token> := [];
      DigitStep(s, 0, Stacks(none, none));
      assert [s[0]] == "8" && none + [Num("8")] == [Num("8")];
    }
    assert ConvertFrom(s, 1, st1) == ConvertFrom(s, 2, st2) by {
      var none: seq<Token> := [];
      assert OperatorAt(s, 1) == Minus && [Op(Minus)] + none == [Op(Minus)];
      PushStep(s, 1, st1);
    }
    assert ConvertFrom(s, 2, st2) == ConvertFrom(s, 3, st3) by {
      DigitStep(s, 2, st2);
      assert [s[2]] == "3" && [Num("8")] + [Num("3")] == [Num("8"), Num("3")];
    }
    assert ConvertFrom(s, 3, st3) == ConvertFrom(s, 4, st4) by {
      var none: seq<Token> := [];
      assert OperatorAt(s, 3) == Minus && ShouldPop(Minus, Minus);
      PopOneStep(s, 3, st3);
      assert st3.ops[1..] == none && [Op(Minus)] + none == [Op(Minus)];
      assert [Num("8"), Num("3")] + [Op(Minus)] == [Num("8"), Num("3"), Op(Minus)];
    }
    assert ConvertFrom(s, 4, st4) == ConvertFrom(s, 5, st5) by {
      DigitStep(s, 4, st4);
      assert [s[4]] == "2" && [Num("8"), Num("3"), Op(Minus)] + [Num("2")] == [Num("8"), Num("3"), Op(Minus), Num("2")];
    }
    assert ConvertFrom(s, 5, st5) == Ok([Num("8"), Num("3"), Op(Minus), Num("2"), Op(Minus)]) by {
      FinishStep(s, st5);
      assert [Num("8"), Num("3"), Op(Minus), Num("2")] + [Op(Minus)] == [Num("8"), Num("3"), Op(Minus), Num("2"), Op(Minus)];
    }
  }

  /** One single-digit numeral step of the converter. */
  lemma DigitStep(s: string, i: nat, st: Stacks)
    requires i < |s| && IsDigit(s[i]) && (i + 1 == |s| || !IsNumberChar(s[i + 1]))
    ensures ConvertFrom(s, i, st) == ConvertFrom(s, i + 1, Stacks(st.ops, st.out + [Num([s[i]])]))
  {
    assert s[i..i + 1] == [s[i]];
  }

  /** An operator step that pops nothing: the operator is pushed onto the stack. */
  lemma PushStep(s: string, i: nat, st: Stacks)
    requires i < |s| && IsOpChar(s[i])
    requires st.ops == [] || !(st.ops[0].Op? && ShouldPop(OperatorAt(s, i), st.ops[0].kind))
    ensures ConvertFrom(s, i, st) == ConvertFrom(s, i + 1, Stacks([Op(OperatorAt(s, i))] + st.ops, st.out))
  {
    assert PopCount(OperatorAt(s, i), st.ops) == 0;
    assert st.ops[0..] == st.ops && st.out + st.ops[..0] == st.out;
  }

  /** An operator step that pops exactly the top entry to the output before pushing. */
  lemma PopOneStep(s: string, i: nat, st: Stacks)
    requires i < |s| && IsOpChar(s[i])
    requires st.ops != [] && st.ops[0].Op? && ShouldPop(OperatorAt(s, i), st.ops[0].kind)
    requires |st.ops| == 1 || !(st.ops[1].Op? && ShouldPop(OperatorAt(s, i), st.ops[1].kind))
    ensures ConvertFrom(s, i, st) == ConvertFrom(s, i + 1, Stacks([Op(OperatorAt(s, i))] + st.ops[1..], st.out + [st.ops[0]]))
  {
    assert PopCount(OperatorAt(s, i), st.ops) == 1;
    assert st.ops[..1] == [st.ops[0]];
  }

  /** The end of the input: with no '(' left, the stack is drained onto the output. */
  lemma FinishStep(s: string, st: Stacks)
    requires LParen !in st.ops
    ensures ConvertFrom(s, |s|, st) == Ok(st.out + st.ops)
  {
    DrainResult(st);
  }

  /** A leading '-' is the unary minus, and it is popped before `^` is pushed: -2^2 becomes 2 u- 2 ^. */
  lemma UnaryMinusExample(s: string)
    requires s == "-2^2"
    ensures Convert(s) == Ok([Num("2"), Op(Negate), Num("2"), Op(Power)])
  {
    var st1 := Stacks([Op(Negate)], []);
    var st2 := Stacks([Op(Negate)], [Num("2")]);
    var st3 := Stacks([Op(Power)], [Num("2"), Op(Negate)]);
    var st4 := Stacks([Op(Power)], [Num("2"), Op(Negate), Num("2")]);
    assert Convert(s) == ConvertFrom(s, 1, st1) by {
      var none: seq<Token> := [];
      assert OperatorAt(s, 0) == Negate && [Op(Negate)] + none == [Op(Negate)];
      PushStep(s, 0, Stacks(none, none));
    }
    assert ConvertFrom(s, 1, st1) == ConvertFrom(s, 2, st2) by {
      var none: seq<Token> := [];
      DigitStep(s, 1, st1);
      assert [s[1]] == "2" && none + [Num("2")] == [Num("2")];
    }
    assert ConvertFrom(s, 2, st2) == ConvertFrom(s, 3, st3) by {
      var none: seq<Token> := [];
      assert OperatorAt(s, 2) == Power && ShouldPop(Power, Negate);
      PopOneStep(s, 2, st2);
      assert st2.ops[1..] == none && [Op(Power)] + none == [Op(Power)];
      assert [Num("2")] + [Op(Negate)] == [Num("2"), Op(Negate)];
    }
    assert ConvertFrom(s, 3, st3) == ConvertFrom(s, 4, st4) by {
      DigitStep(s, 3, st3);
      assert [s[3]] == "2" && [Num("2"), Op(Negate)] + [Num("2")] == [Num("2"), Op(Negate), Num("2")];
    }
    assert ConvertFrom(s, 4, st4) == Ok([Num("2"), Op(Negate), Num("2"), Op(Power)]) by {
      FinishStep(s, st4);
      assert [Num("2"), Op(Negate), Num("2")] + [Op(Power)] == [Num("2"), Op(Negate), Num("2"), Op(Power)];
    }
  }
}
