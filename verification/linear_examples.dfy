/**
 * The three equations the solver's documentation gives as examples, followed through the
 * solver: 2x+3x-4=21 has x = 5, -x+10=4 has x = 6 and 5+2x=17 has x = 6.
 */
module EquationExamples {
  import opened Wrappers
  import opened Text
  import opened Numerals
  import opened LinearEquation
  import opened Service

  /** A string of digits is a numeral without a point, read as an integer. */
  lemma {:induction false} DigitString(t: string)
    requires forall k | 0 <= k < |t| :: IsDigit(t[k])
    ensures AllNumberChars(t) && DotCount(t) == 0 && BeforeDot(t) == t && AfterDot(t) == []
    ensures t != [] ==> HasDigit(t)
  {
    if t != [] {
      assert forall k | 0 <= k < |t| - 1 :: t[1..][k] == t[k + 1];
      DigitString(t[1..]);
      assert t == [t[0]] + t[1..];
    }
  }

  /** An unsigned digit string reads as the integer it spells. */
  lemma ReadInteger(t: string)
    requires t != [] && forall k | 0 <= k < |t| :: IsDigit(t[k])
    ensures ParseNumber(t) == Some(DigitsValue(t) as real)
  {
    DigitString(t);
    assert t[0] != '+' && t[0] != '-';
    assert IsNumeral(t);
    assert NumeralValue(t) == DigitsValue(t) as real + FractionValue([]);
  }

  /** A '-' followed by a digit string reads as the negated integer. */
  lemma ReadNegativeInteger(t: string)
    requires |t| > 1 && t[0] == '-' && forall k | 1 <= k < |t| :: IsDigit(t[k])
    ensures ParseNumber(t) == Some(-(DigitsValue(t[1..]) as real))
  {
    assert forall k | 0 <= k < |t| - 1 :: t[1..][k] == t[k + 1];
    DigitString(t[1..]);
    assert IsNumeral(t[1..]);
    assert NumeralValue(t[1..]) == DigitsValue(t[1..]) as real + FractionValue([]);
  }

  /** Each '-' of 2x+3x-4 becomes "+-". */
  lemma FirstReplaced(s: string)
    requires s == "2x+3x-4"
    ensures ReplaceMinus(s) == "2x+3x+-4"
  {
    var a, b := s[..5], s[5..];
    assert s == a + b && a == "2x+3x" && b == "-4";
    ReplaceMinusPlain(a);
    assert ReplaceMinus(b) == "+-4" by {
      assert b[1..] == "4";
      ReplaceMinusPlain(b[1..]);
    }
    ReplaceMinusAppend(a, b);
  }

  /** The terms of 2x+3x-4 are 2x, 3x and -4. */
  lemma FirstTerms(left: string)
    requires left == "2x+3x-4"
    ensures LeftTerms(left) == ["2x", "3x", "-4"]
  {
    FirstReplaced(left);
    var p := ["2x", "3x", "-4"];
    assert Join(p) == "2x+3x+-4" by {
      assert p[1..] == ["3x", "-4"] && p[1..][1..] == ["-4"];
    }
    SplitJoin(p);
  }

  /** One turn of the term loop, read off the term's contribution. */
  lemma AccumulateStep(acc: Sums, ts: seq<string>, next: Sums)
    requires ts != [] && AddTerm(acc, ts[0]) == Ok(next)
    ensures AccumulateFrom(acc, ts) == AccumulateFrom(next, ts[1..])
  {
  }

  lemma TwoX(acc: Sums)
    ensures AddTerm(acc, "2x") == Ok(Sums(acc.a + 2.0, acc.b))
  {
    assert "2x"[1..] == "x" && "x"[1..] == [];
    assert StripVariable("2x") == "2";
    ReadInteger("2");
    assert "2"[..0] == [];
  }

  lemma ThreeX(acc: Sums)
    ensures AddTerm(acc, "3x") == Ok(Sums(acc.a + 3.0, acc.b))
  {
    assert "3x"[1..] == "x" && "x"[1..] == [];
    assert StripVariable("3x") == "3";
    ReadInteger("3");
    assert "3"[..0] == [];
  }

  lemma MinusFour()
    ensures AddTerm(Sums(5.0, 0.0), "-4") == Ok(Sums(5.0, -4.0))
  {
    ReadNegativeInteger("-4");
    assert "-4"[1..] == "4";
  }

  /** 2x+3x-4 sums to 5x - 4. */
  lemma FirstSums(ts: seq<string>)
    requires ts == ["2x", "3x", "-4"]
    ensures Accumulate(ts) == Ok(Sums(5.0, -4.0))
  {
    TwoX(Sums(0.0, 0.0));
    ThreeX(Sums(2.0, 0.0));
    MinusFour();
    AccumulateStep(Sums(0.0, 0.0), ts, Sums(2.0, 0.0));
    AccumulateStep(Sums(2.0, 0.0), ts[1..], Sums(5.0, 0.0));
    AccumulateStep(Sums(5.0, 0.0), ts[2..], Sums(5.0, -4.0));
    assert ts[1..][1..] == ts[2..] && ts[2..][1..] == [];
  }

  /** 2x+3x-4=21 splits into 2x+3x-4 and 21. */
  lemma FirstSides(eq: string)
    requires eq == "2x+3x-4=21"
    ensures Sides(eq) == Some(("2x+3x-4", "21"))
  {
    assert NoWhitespace("2x+3x-4=21");
    IndexOfFirst("2x+3x-4=21", '=', 7);
    assert "2x+3x-4=21"[..7] == "2x+3x-4" && "2x+3x-4=21"[8..] == "21";
  }

  lemma TwentyOne()
    ensures ParseNumber("21") == Some(21.0)
  {
    ReadInteger("21");
    assert "21"[..1] == "2" && "2"[..0] == [];
  }

  /** The left side 2x+3x-4 is the linear function 5x - 4. */
  lemma FirstLeft(left: string)
    requires left == "2x+3x-4"
    ensures Accumulate(LeftTerms(left)) == Ok(Sums(5.0, -4.0))
  {
    FirstTerms(left);
    FirstSums(["2x", "3x", "-4"]);
  }

  /** 2x+3x-4=21 is solved by x = 5, and the equation endpoint reports it. */
  lemma FirstExample(eq: string)
    requires eq == "2x+3x-4=21"
    ensures Solve(Some(eq)) == Ok(5.0)
    ensures SolveEquation(Some(eq)) == EquationSolved(eq, 5.0)
  {
    FirstSides(eq);
    TwentyOne();
    FirstLeft("2x+3x-4");
    SolveBySums(eq, "2x+3x-4", "21", 21.0);
  }

  /** -x+10=4 splits into -x+10 and 4. */
  lemma SecondSides(eq: string)
    requires eq == "-x+10=4"
    ensures Sides(eq) == Some(("-x+10", "4"))
  {
    assert NoWhitespace("-x+10=4");
    IndexOfFirst("-x+10=4", '=', 5);
    assert "-x+10=4"[..5] == "-x+10" && "-x+10=4"[6..] == "4";
  }

  /** The leading '-' of -x+10 becomes "+-". */
  lemma SecondReplaced(s: string)
    requires s == "-x+10"
    ensures ReplaceMinus(s) == "+-x+10"
  {
    var a, b := s[..1], s[1..];
    assert s == a + b && a == "-" && b == "x+10";
    ReplaceMinusPlain(b);
    assert ReplaceMinus(a) == "+-" by {
      assert a[1..] == [];
    }
    ReplaceMinusAppend(a, b);
  }

  /** The terms of -x+10 are an empty term, -x and 10. */
  lemma SecondTerms(left: string)
    requires left == "-x+10"
    ensures LeftTerms(left) == ["", "-x", "10"]
  {
    SecondReplaced(left);
    var p := ["", "-x", "10"];
    assert Join(p) == "+-x+10" by {
      assert p[1..] == ["-x", "10"] && p[1..][1..] == ["10"];
    }
    SplitJoin(p);
  }

  /** -x subtracts 1 from the coefficient of x. */
  lemma MinusX(acc: Sums)
    ensures AddTerm(acc, "-x") == Ok(Sums(acc.a - 1.0, acc.b))
  {
    assert "-x"[1..] == "x" && "x"[1..] == [];
    assert StripVariable("-x") == "-";
  }

  /** 10 adds 10 to the constant. */
  lemma Ten(acc: Sums)
    ensures AddTerm(acc, "10") == Ok(Sums(acc.a, acc.b + 10.0))
  {
    ReadInteger("10");
    assert "10"[..1] == "1" && "1"[..0] == [];
  }

  /** The left side -x+10 is the linear function -x + 10; the empty term before -x is skipped. */
  lemma SecondLeft(left: string)
    requires left == "-x+10"
    ensures Accumulate(LeftTerms(left)) == Ok(Sums(-1.0, 10.0))
  {
    SecondTerms(left);
    var ts := ["", "-x", "10"];
    MinusX(Sums(0.0, 0.0));
    Ten(Sums(-1.0, 0.0));
    AccumulateStep(Sums(0.0, 0.0), ts, Sums(0.0, 0.0));
    AccumulateStep(Sums(0.0, 0.0), ts[1..], Sums(-1.0, 0.0));
    AccumulateStep(Sums(-1.0, 0.0), ts[2..], Sums(-1.0, 10.0));
    assert ts[1..][1..] == ts[2..] && ts[2..][1..] == [];
  }

  lemma Four()
    ensures ParseNumber("4") == Some(4.0)
  {
    ReadInteger("4");
    assert "4"[..0] == [];
  }

  /** -x+10=4 is solved by x = 6, and the equation endpoint reports it. */
  lemma SecondExample(eq: string)
    requires eq == "-x+10=4"
    ensures Solve(Some(eq)) == Ok(6.0)
    ensures SolveEquation(Some(eq)) == EquationSolved(eq, 6.0)
  {
    SecondSides(eq);
    Four();
    SecondLeft("-x+10");
    SolveBySums(eq, "-x+10", "4", 4.0);
  }

  /** 5+2x=17 splits into 5+2x and 17. */
  lemma ThirdSides(eq: string)
    requires eq == "5+2x=17"
    ensures Sides(eq) == Some(("5+2x", "17"))
  {
    assert NoWhitespace("5+2x=17");
    IndexOfFirst("5+2x=17", '=', 4);
    assert "5+2x=17"[..4] == "5+2x" && "5+2x=17"[5..] == "17";
  }

  /** The terms of 5+2x are 5 and 2x. */
  lemma ThirdTerms(left: string)
    requires left == "5+2x"
    ensures LeftTerms(left) == ["5", "2x"]
  {
    ReplaceMinusPlain("5+2x");
    var p := ["5", "2x"];
    assert Join(p) == "5+2x" by {
      assert p[1..] == ["2x"];
    }
    SplitJoin(p);
  }

  /** The left side 5+2x is the linear function 2x + 5. */
  lemma ThirdLeft(left: string)
    requires left == "5+2x"
    ensures Accumulate(LeftTerms(left)) == Ok(Sums(2.0, 5.0))
  {
    ThirdTerms(left);
    var ts := ["5", "2x"];
    assert AddTerm(Sums(0.0, 0.0), "5") == Ok(Sums(0.0, 5.0)) by {
      ReadInteger("5");
      assert "5"[..0] == [];
    }
    TwoX(Sums(0.0, 5.0));
    AccumulateStep(Sums(0.0, 0.0), ts, Sums(0.0, 5.0));
    AccumulateStep(Sums(0.0, 5.0), ts[1..], Sums(2.0, 5.0));
    assert ts[1..][1..] == [];
  }

  lemma Seventeen()
    ensures ParseNumber("17") == Some(17.0)
  {
    ReadInteger("17");
    assert "17"[..1] == "1" && "1"[..0] == [];
  }

  /** 5+2x=17 is solved by x = 6, and the equation endpoint reports it. */
  lemma ThirdExample(eq: string)
    requires eq == "5+2x=17"
    ensures Solve(Some(eq)) == Ok(6.0)
    ensures SolveEquation(Some(eq)) == EquationSolved(eq, 6.0)
  {
    ThirdSides(eq);
    Seventeen();
    ThirdLeft("5+2x");
    SolveBySums(eq, "5+2x", "17", 17.0);
  }
}
