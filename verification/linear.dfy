/**
 * The linear equation solver: an equation "left=right" in one variable x, whose left side is a
 * sum of terms such as 2x, -x, 3.5 or -4 and whose right side is a number. The left side's '-'
 * signs are rewritten as "+-", the text is split at '+', each fragment is read as an x-term or a
 * constant, and the solution of a*x + b = rhs is returned. Arithmetic is exact (real), so the
 * Java comparison of |a| with 1e-12 becomes a == 0.
 */
module LinearEquation {
  import opened Wrappers
  import opened Errors
  import opened Text
  import opened Numerals

  /** The index of the first occurrence of c in s. */
  function IndexOf(s: string, c: char): (r: Option<nat>)
    ensures r.None? <==> c !in s
    ensures r.Some? ==> r.value < |s| && s[r.value] == c && c !in s[..r.value]
  {
    if s == [] then None
    else if s[0] == c then Some(0)
    else
      assert s == [s[0]] + s[1..];
      match IndexOf(s[1..], c)
      case None => None
      case Some(k) =>
        assert s[..k + 1] == [s[0]] + s[1..][..k];
        Some(k + 1)
  }

  /** The text before the first '=' and everything after it, later '=' signs included. */
  function SplitAtEquals(s: string): (r: Option<(string, string)>)
    ensures r.None? <==> '=' !in s
    ensures r.Some? ==> r.value.0 + "=" + r.value.1 == s && '=' !in r.value.0
  {
    match IndexOf(s, '=')
    case None => None
    case Some(pos) =>
      assert s == s[..pos] + "=" + s[pos + 1..];
      Some((s[..pos], s[pos + 1..]))
  }

  /** Every '-' becomes "+-", so that splitting at '+' keeps each sign with its term. */
  function ReplaceMinus(s: string): string
  {
    if s == [] then []
    else (if s[0] == '-' then "+-" else [s[0]]) + ReplaceMinus(s[1..])
  }

  /** After the rewrite every '-' follows a '+', and nothing is lost. */
  lemma {:induction false} ReplaceMinusSigns(s: string)
    ensures var r := ReplaceMinus(s);
      (forall k | 0 <= k < |r| && r[k] == '-' :: k > 0 && r[k - 1] == '+') && |r| >= |s|
  {
    if s != [] {
      ReplaceMinusSigns(s[1..]);
      var rest := ReplaceMinus(s[1..]);
      var head := if s[0] == '-' then "+-" else [s[0]];
      var r := head + rest;
      assert forall k | |head| <= k < |r| :: r[k] == rest[k - |head|];
    }
  }

  /** The fragments of s between '+' signs, empty ones included. */
  function Fragments(s: string): (r: seq<string>)
    ensures |r| >= 1
    ensures forall k | 0 <= k < |r| :: '+' !in r[k]
    ensures Join(r) == s
    ensures r[0] <= s
  {
    if s == [] then [""]
    else
      var rest := Fragments(s[1..]);
      if s[0] == '+' then
        assert Join([""] + rest) == "" + "+" + Join(rest);
        assert s == "+" + s[1..];
        [""] + rest
      else
        var r := [[s[0]] + rest[0]] + rest[1..];
        assert r[1..] == rest[1..];
        assert s == [s[0]] + s[1..];
        if |rest| == 1 then r
        else
          assert Join(rest) == rest[0] + "+" + Join(rest[1..]);
          r
  }

  /** The fragments joined back with '+'. */
  function Join(parts: seq<string>): string
    requires |parts| >= 1
  {
    if |parts| == 1 then parts[0] else parts[0] + "+" + Join(parts[1..])
  }

  /** The first occurrence of c in s is at k when s[k] is c and no earlier character is. */
  lemma IndexOfFirst(s: string, c: char, k: nat)
    requires k < |s| && s[k] == c && c !in s[..k]
    ensures IndexOf(s, c) == Some(k)
  {
  }

  /** Where the first '+' of joined pieces sits, and what lies on each side of it. */
  lemma JoinSplit(p: seq<string>)
    requires |p| >= 1 && forall k | 0 <= k < |p| :: '+' !in p[k]
    ensures |p| == 1 ==> IndexOf(Join(p), '+') == None
    ensures |p| > 1 ==> IndexOf(Join(p), '+') == Some(|p[0]|)
    ensures |p| > 1 ==> Join(p)[..|p[0]|] == p[0] && Join(p)[|p[0]| + 1..] == Join(p[1..])
  {
    if |p| > 1 {
      var J := Join(p);
      assert J == p[0] + "+" + Join(p[1..]);
      assert J[..|p[0]|] == p[0];
      assert J[|p[0]| + 1..] == Join(p[1..]);
      IndexOfFirst(J, '+', |p[0]|);
    }
  }

  /** Pieces without '+' are determined by their join. */
  lemma {:induction false} JoinInjective(p: seq<string>, q: seq<string>)
    requires |p| >= 1 && forall k | 0 <= k < |p| :: '+' !in p[k]
    requires |q| >= 1 && forall k | 0 <= k < |q| :: '+' !in q[k]
    requires Join(p) == Join(q)
    ensures p == q
    decreases |p|
  {
    JoinSplit(p);
    JoinSplit(q);
    if |p| > 1 {
      assert p[0] == q[0];
      assert forall k | 0 <= k < |p| - 1 :: p[1..][k] == p[k + 1];
      assert forall k | 0 <= k < |q| - 1 :: q[1..][k] == q[k + 1];
      JoinInjective(p[1..], q[1..]);
      assert p == [p[0]] + p[1..] && q == [q[0]] + q[1..];
    }
  }

  /** Splitting at '+' undoes joining with '+', for pieces that hold no '+'. */
  lemma SplitJoin(p: seq<string>)
    requires |p| >= 1 && forall k | 0 <= k < |p| :: '+' !in p[k]
    ensures Fragments(Join(p)) == p
  {
    JoinInjective(Fragments(Join(p)), p);
  }

  /** Rewriting '-' as "+-" works character by character. */
  lemma {:induction false} ReplaceMinusAppend(a: string, b: string)
    ensures ReplaceMinus(a + b) == ReplaceMinus(a) + ReplaceMinus(b)
    decreases |a|
  {
    if a != [] {
      assert (a + b)[0] == a[0] && (a + b)[1..] == a[1..] + b;
      ReplaceMinusAppend(a[1..], b);
    } else {
      assert a + b == b;
    }
  }

  /** A text without '-' is left as it is. */
  lemma {:induction false} ReplaceMinusPlain(s: string)
    requires '-' !in s
    ensures ReplaceMinus(s) == s
  {
    if s != [] {
      assert s == [s[0]] + s[1..];
      ReplaceMinusPlain(s[1..]);
    }
  }

  /** The terms of a left side: its fragments once every '-' is rewritten as "+-". */
  function LeftTerms(left: string): seq<string>
  {
    Fragments(ReplaceMinus(left))
  }

  /** A term is signed: a '-' can only be its first character. */
  predicate SignOnlyLeading(t: string)
  {
    forall k | 0 < k < |t| :: t[k] != '-'
  }

  /** Where every '-' that is not first follows a '+', every fragment has at most a leading '-'. */
  lemma {:induction false} FragmentsSigned(s: string)
    requires forall k | 0 < k < |s| && s[k] == '-' :: s[k - 1] == '+'
    ensures forall k | 0 <= k < |Fragments(s)| :: SignOnlyLeading(Fragments(s)[k])
  {
    if s != [] {
      FragmentsSigned(s[1..]);
      var rest := Fragments(s[1..]);
      if s[0] != '+' {
        var f := [s[0]] + rest[0];
        forall k | 0 < k < |f|
          ensures f[k] != '-'
        {
          assert f[k] == rest[0][k - 1];
          if k == 1 {
            assert rest[0][0] == s[1];
          }
        }
        var r := Fragments(s);
        forall k | 0 <= k < |r|
          ensures SignOnlyLeading(r[k])
        {
          if k > 0 { assert r[k] == rest[k]; }
        }
      }
    }
  }

  /** Every term of a left side is an addend with an optional leading '-' and no '+'. */
  lemma TermsAreSigned(left: string)
    ensures forall k | 0 <= k < |LeftTerms(left)| :: SignOnlyLeading(LeftTerms(left)[k]) && '+' !in LeftTerms(left)[k]
  {
    ReplaceMinusSigns(left);
    FragmentsSigned(ReplaceMinus(left));
  }

  predicate HasVariable(t: string)
  {
    'x' in t || 'X' in t
  }

  /** The term with every 'x' and 'X' removed. */
  function StripVariable(t: string): (r: string)
    ensures !HasVariable(r)
    ensures |r| <= |t|
    ensures !HasVariable(t) ==> r == t
  {
    if t == [] then []
    else
      assert t == [t[0]] + t[1..];
      (if t[0] == 'x' || t[0] == 'X' then [] else [t[0]]) + StripVariable(t[1..])
  }

  /** Removing the variable works character by character: it distributes over concatenation. */
  lemma {:induction false} StripVariableAppend(a: string, b: string)
    ensures StripVariable(a + b) == StripVariable(a) + StripVariable(b)
    decreases |a|
  {
    if a == [] {
      assert a + b == b;
    } else {
      var keep := if a[0] == 'x' || a[0] == 'X' then [] else [a[0]];
      assert (a + b)[0] == a[0] && (a + b)[1..] == a[1..] + b;
      assert StripVariable(a + b) == keep + StripVariable(a[1..] + b);
      StripVariableAppend(a[1..], b);
      assert StripVariable(a) == keep + StripVariable(a[1..]);
      AppendAssoc(keep, StripVariable(a[1..]), StripVariable(b));
    }
  }

  /** On one character: 'x' and 'X' are dropped, every other character is kept. */
  lemma StripVariableChar(c: char)
    ensures StripVariable([c]) == if c == 'x' || c == 'X' then [] else [c]
  {
    assert [c][1..] == [];
  }

  lemma NumeralHasNoVariable(n: string)
    requires AllNumberChars(n)
    ensures !HasVariable(n)
  {
    forall k | 0 <= k < |n| ensures n[k] != 'x' && n[k] != 'X' {
      AllNumberCharsAt(n, k);
    }
  }

  /** A numeral with an optional sign reads as the signed value of the numeral. */
  lemma SignedNumeral(g: string, n: string)
    requires g == "" || g == "+" || g == "-"
    requires IsNumeral(n)
    ensures ParseNumber(g + n) == Some(if g == "-" then -NumeralValue(n) else NumeralValue(n))
  {
    var c := g + n;
    if g != "" {
      assert c[0] == g[0] && c[1..] == n;
    } else {
      assert c == n;
      AllNumberCharsAt(n, 0);
    }
  }

  /** The text left of an x-term's variable is a sign followed by a numeral. */
  lemma StripSignedNumeral(g: string, n: string, v: string)
    requires g == "" || g == "+" || g == "-"
    requires v == "x" || v == "X"
    requires IsNumeral(n)
    ensures StripVariable(g + n + v) == g + n
  {
    StripVariableAppend(g + n, v);
    StripVariableAppend(g, n);
    StripVariableChar(v[0]);
    assert v == [v[0]];
    NumeralHasNoVariable(n);
    assert StripVariable(g) == g;
  }

  /**
   * An x-term written as a sign g (none, '+' or '-'), a numeral n and the variable has the signed
   * number as its coefficient, as the constant term g + n would read.
   */
  lemma SignedXTerm(g: string, n: string, v: string)
    requires g == "" || g == "+" || g == "-"
    requires v == "x" || v == "X"
    requires IsNumeral(n)
    ensures XCoefficient(g + n + v) == ParseNumber(g + n)
    ensures XCoefficient(g + n + v) == Some(if g == "-" then -NumeralValue(n) else NumeralValue(n))
  {
    StripSignedNumeral(g, n, v);
    SignedNumeral(g, n);
    var c := g + n;
    assert c[|g|] == n[0];
    assert c != "" && c != "+" && c != "-";
  }

  /** An x-term written as a bare sign and the variable has coefficient 1, or -1 for '-'. */
  lemma BareXTerm(g: string, v: string)
    requires g == "" || g == "+" || g == "-"
    requires v == "x" || v == "X"
    ensures XCoefficient(g + v) == Some(if g == "-" then -1.0 else 1.0)
  {
    StripVariableAppend(g, v);
    StripVariableChar(v[0]);
    assert v == [v[0]];
    assert StripVariable(g) == g;
    assert StripVariable(g + v) == g;
  }

  /** The coefficient of an x-term: a bare or '+' sign is 1, a bare '-' is -1, otherwise a number. */
  function XCoefficient(t: string): Option<real>
  {
    var c := StripVariable(t);
    if c == "" || c == "+" then Some(1.0)
    else if c == "-" then Some(-1.0)
    else ParseNumber(c)
  }

  /** The accumulators: the coefficient a of x and the constant b, that is the linear function a*x + b. */
  datatype Sums = Sums(a: real, b: real)

  /** The value a*y + b of a linear function at y. */
  function At(s: Sums, y: real): real
  {
    s.a * y + s.b
  }

  /** The sum of two linear functions. */
  function Plus(p: Sums, q: Sums): Sums
  {
    Sums(p.a + q.a, p.b + q.b)
  }

  /** One iteration of the term loop: skip an empty term, add an x-term's coefficient to a, a constant to b. */
  function AddTerm(acc: Sums, t: string): Result<Sums>
  {
    if t == "" then Ok(acc)
    else if HasVariable(t) then
      match XCoefficient(t)
      case None => Err(InvalidXTerm(t))
      case Some(c) => Ok(Sums(acc.a + c, acc.b))
    else
      match ParseNumber(t)
      case None => Err(InvalidConstantTerm(t))
      case Some(v) => Ok(Sums(acc.a, acc.b + v))
  }

  /** The term loop over the remaining terms, from accumulators acc; the first unreadable term stops it. */
  function AccumulateFrom(acc: Sums, ts: seq<string>): Result<Sums>
    decreases |ts|
  {
    if ts == [] then Ok(acc)
    else
      match AddTerm(acc, ts[0])
      case Err(e) => Err(e)
      case Ok(next) => AccumulateFrom(next, ts[1..])
  }

  /** The term loop over all terms of a left side, from zero accumulators. */
  function Accumulate(ts: seq<string>): Result<Sums>
  {
    AccumulateFrom(Sums(0.0, 0.0), ts)
  }

  /** The last check and the division: no solution when x has coefficient 0, otherwise (rhs - b) / a. */
  function Solution(sums: Sums, rhs: real): Result<real>
  {
    if sums.a == 0.0 then Err(NoSolution) else Ok((rhs - sums.b) / sums.a)
  }

  /** What whitespace-free text the two sides of an equation are, if it has an '='. */
  function Sides(eq: string): Option<(string, string)>
  {
    SplitAtEquals(StripWhitespace(eq))
  }

  /** The solver: the solution x, or the reason there is none. */
  function Solve(eq: Option<string>): Result<real>
  {
    match eq
    case None => Err(EmptyEquation)
    case Some(e) =>
      match Sides(e)
      case None => Err(NoEquals)
      case Some((left, right)) =>
        match ParseNumber(right)
        case None => Err(RightSideNotNumber)
        case Some(rhs) =>
          match Accumulate(LeftTerms(left))
          case Err(err) => Err(err)
          case Ok(sums) => Solution(sums, rhs)
  }

  /** The solver as the Java code runs it: the term loop updates the two accumulators in place. */
  method SolveLinearEquation(eq: Option<string>) returns (r: Result<real>)
    ensures r == Solve(eq)
  {
    if eq.None? {
      return Err(EmptyEquation);
    }
    var s := StripWhitespace(eq.value);
    var pos := IndexOf(s, '=');
    if pos.None? {
      return Err(NoEquals);
    }
    var left := s[..pos.value];
    var right := s[pos.value + 1..];
    assert Sides(eq.value) == Some((left, right));
    var rhs := ParseNumber(right);
    if rhs.None? {
      return Err(RightSideNotNumber);
    }
    var sums := SumTerms(Fragments(ReplaceMinus(left)));
    SolveBySums(eq.value, left, right, rhs.value);
    if sums.Err? {
      return Err(sums.error);
    }
    if sums.value.a == 0.0 {
      return Err(NoSolution);
    }
    return Ok((rhs.value - sums.value.b) / sums.value.a);
  }

  /** The term loop: x-terms add their coefficient to a, constants add to b, empty terms are skipped. */
  method SumTerms(terms: seq<string>) returns (r: Result<Sums>)
    ensures r == Accumulate(terms)
  {
    var a, b := 0.0, 0.0;
    assert terms[0..] == terms;
    for k := 0 to |terms|
      invariant Accumulate(terms) == AccumulateFrom(Sums(a, b), terms[k..])
    {
      var t := terms[k];
      assert terms[k..][0] == t && terms[k..][1..] == terms[k + 1..];
      if t == "" {
        continue;
      }
      if 'x' in t || 'X' in t {
        var coefficient := XCoefficient(t);
        if coefficient.None? {
          return Err(InvalidXTerm(t));
        }
        a := a + coefficient.value;
      } else {
        var v := ParseNumber(t);
        if v.None? {
          return Err(InvalidConstantTerm(t));
        }
        b := b + v.value;
      }
    }
    return Ok(Sums(a, b));
  }

  /** What one term contributes to the left side: the term loop's step taken from zero sums. */
  function TermForm(t: string): Option<Sums>
  {
    match AddTerm(Sums(0.0, 0.0), t)
    case Err(_) => None
    case Ok(f) => Some(f)
  }

  /** The left side as a linear function of x: the sum of its terms' contributions, read left to right. */
  function LhsForm(ts: seq<string>): Option<Sums>
  {
    if ts == [] then Some(Sums(0.0, 0.0))
    else
      match TermForm(ts[0])
      case None => None
      case Some(f) =>
        match LhsForm(ts[1..])
        case None => None
        case Some(g) => Some(Plus(f, g))
  }

  /** The value of the left side at x = y, when all its terms read. */
  function LhsValue(ts: seq<string>, y: real): Option<real>
  {
    match LhsForm(ts)
    case None => None
    case Some(f) => Some(At(f, y))
  }

  /** Adding a term to the accumulators adds the term's contribution. */
  lemma AddTermForm(acc: Sums, t: string)
    ensures AddTerm(acc, t).Ok? <==> TermForm(t).Some?
    ensures AddTerm(acc, t).Ok? ==> AddTerm(acc, t).value == Plus(acc, TermForm(t).value)
  {
  }

  /**
   * The term loop computes the left side as a linear function a*x + b of the unknown, added to
   * the accumulators it starts from; it fails exactly when some term does not read.
   */
  lemma {:induction false} AccumulateMeaning(acc: Sums, ts: seq<string>)
    ensures AccumulateFrom(acc, ts).Ok? <==> LhsForm(ts).Some?
    ensures AccumulateFrom(acc, ts).Ok? ==> AccumulateFrom(acc, ts).value == Plus(acc, LhsForm(ts).value)
    decreases |ts|
  {
    if ts != [] {
      AddTermForm(acc, ts[0]);
      if TermForm(ts[0]).Some? {
        AccumulateMeaning(Plus(acc, TermForm(ts[0]).value), ts[1..]);
      }
    }
  }

  /** Which error a term that does not read raises. */
  function TermError(t: string): Error
  {
    if HasVariable(t) then InvalidXTerm(t) else InvalidConstantTerm(t)
  }

  /** The term loop reports the first term that does not read, naming it. */
  lemma {:induction false} AccumulateError(acc: Sums, ts: seq<string>)
    ensures AccumulateFrom(acc, ts).Err? <==> exists k | 0 <= k < |ts| :: TermForm(ts[k]).None?
    ensures AccumulateFrom(acc, ts).Err? ==> exists k | 0 <= k < |ts| ::
      TermForm(ts[k]).None? && AccumulateFrom(acc, ts).error == TermError(ts[k]) &&
      forall j | 0 <= j < k :: TermForm(ts[j]).Some?
    decreases |ts|
  {
    if ts != [] {
      AddTermForm(acc, ts[0]);
      if TermForm(ts[0]).None? {
        assert TermForm(ts[0]).None? && AccumulateFrom(acc, ts).error == TermError(ts[0]);
      } else {
        var rest := ts[1..];
        AccumulateError(Plus(acc, TermForm(ts[0]).value), rest);
        assert forall k | 0 <= k < |rest| :: rest[k] == ts[k + 1];
        if AccumulateFrom(acc, ts).Err? {
          var k :| 0 <= k < |rest| && TermForm(rest[k]).None? && AccumulateFrom(acc, ts).error == TermError(rest[k]) &&
            forall j | 0 <= j < k :: TermForm(rest[j]).Some?;
          assert TermForm(ts[k + 1]).None? && forall j | 0 <= j < k + 1 :: TermForm(ts[j]).Some?;
        } else {
          forall k | 0 <= k < |ts| ensures TermForm(ts[k]).Some? {
            if k > 0 { assert ts[k] == rest[k - 1]; }
          }
        }
      }
    }
  }

  /** The error cases of the solver, in the order the Java code checks them. */
  lemma SolveErrors(eq: Option<string>)
    ensures eq.None? ==> Solve(eq) == Err(EmptyEquation)
    ensures eq.Some? ==> (Solve(eq) == Err(NoEquals) <==> '=' !in StripWhitespace(eq.value))
    ensures eq.Some? && Sides(eq.value).Some? ==>
      (Solve(eq) == Err(RightSideNotNumber) <==> ParseNumber(Sides(eq.value).value.1).None?)
    ensures Solve(eq).Err? ==>
      (Solve(eq).error in {EmptyEquation, NoEquals, RightSideNotNumber, NoSolution} ||
       Solve(eq).error.InvalidXTerm? || Solve(eq).error.InvalidConstantTerm?)
  {
    if eq.Some? && Sides(eq.value).Some? {
      var left := Sides(eq.value).value.0;
      AccumulateError(Sums(0.0, 0.0), LeftTerms(left));
    }
  }

  /** For a != 0, (rhs - b) / a solves a*y + b = rhs ... */
  lemma LinearSolves(f: Sums, rhs: real)
    requires f.a != 0.0
    ensures At(f, (rhs - f.b) / f.a) == rhs
  {
  }

  /** ... and is its only solution ... */
  lemma LinearUnique(f: Sums, rhs: real, y: real)
    requires f.a != 0.0 && At(f, y) == rhs
    ensures y == (rhs - f.b) / f.a
  {
    assert y == (f.a * y) / f.a;
  }

  /** ... while with a == 0 the function does not depend on y. */
  lemma ConstantForm(f: Sums, y: real)
    requires f.a == 0.0
    ensures At(f, y) == f.b
  {
  }

  /** The solution solves a*y + b = rhs and is its only solution; "no solution" means a = 0, where a*y + b does not depend on y. */
  lemma SolutionSolves(f: Sums, rhs: real)
    ensures Solution(f, rhs).Ok? <==> f.a != 0.0
    ensures Solution(f, rhs).Err? ==> Solution(f, rhs).error == NoSolution
    ensures Solution(f, rhs).Ok? ==> At(f, Solution(f, rhs).value) == rhs
    ensures Solution(f, rhs).Ok? ==> forall y :: At(f, y) == rhs ==> y == Solution(f, rhs).value
    ensures Solution(f, rhs).Err? ==> forall y :: At(f, y) == f.b
  {
    if f.a == 0.0 {
      forall y
        ensures At(f, y) == f.b
      {
        ConstantForm(f, y);
      }
    } else {
      LinearSolves(f, rhs);
      forall y | At(f, y) == rhs
        ensures y == (rhs - f.b) / f.a
      {
        LinearUnique(f, rhs, y);
      }
    }
  }

  /** Once both sides read, the solver's verdict depends only on what the term loop computes. */
  lemma SolveBySums(eq: string, left: string, right: string, rhs: real)
    requires Sides(eq) == Some((left, right)) && ParseNumber(right) == Some(rhs)
    ensures Accumulate(LeftTerms(left)).Err? ==> Solve(Some(eq)) == Err(Accumulate(LeftTerms(left)).error)
    ensures Accumulate(LeftTerms(left)).Ok? ==> Solve(Some(eq)) == Solution(Accumulate(LeftTerms(left)).value, rhs)
  {
  }

  /**
   * The solution solves the equation and is the only one; "no solution" is reported exactly when
   * the left side reads but does not depend on x.
   */
  lemma SolutionMeaning(eq: string, left: string, right: string, rhs: real)
    requires Sides(eq) == Some((left, right)) && ParseNumber(right) == Some(rhs)
    ensures Solve(Some(eq)).Ok? ==> LhsValue(LeftTerms(left), Solve(Some(eq)).value) == Some(rhs)
    ensures Solve(Some(eq)).Ok? ==> forall y :: LhsValue(LeftTerms(left), y) == Some(rhs) ==> y == Solve(Some(eq)).value
    ensures Solve(Some(eq)) == Err(NoSolution) ==>
      LhsValue(LeftTerms(left), 0.0).Some? && forall y :: LhsValue(LeftTerms(left), y) == LhsValue(LeftTerms(left), 0.0)
    ensures Solve(Some(eq)).Ok? || Solve(Some(eq)) == Err(NoSolution) <==> LhsForm(LeftTerms(left)).Some?
  {
    var ts := LeftTerms(left);
    AccumulateMeaning(Sums(0.0, 0.0), ts);
    SolveBySums(eq, left, right, rhs);
    if Accumulate(ts).Ok? {
      var f := Accumulate(ts).value;
      SolutionSolves(f, rhs);
      assert forall y :: LhsValue(ts, y) == Some(At(f, y));
    } else {
      AccumulateError(Sums(0.0, 0.0), ts);
      var k :| 0 <= k < |ts| && TermForm(ts[k]).None? && Accumulate(ts).error == TermError(ts[k]);
    }
  }
}
