/**
 * Infix to postfix conversion (Dijkstra's shunting-yard algorithm) over a whitespace-free
 * expression string: one left-to-right pass with an operator stack and an append-only output.
 * The stack is a sequence whose top is its first element, as with the Java Deque's push/peek/pop.
 */
module Shunting {
  import opened Wrappers
  import opened Errors
  import opened Text
  import opened Numerals
  import opened Tokens

  /** The characters the converter accepts; any other one is an "Invalid character". */
  predicate ValidChar(c: char)
  {
    IsNumberChar(c) || c == '(' || c == ')' || IsOpChar(c)
  }

  /** The converter's working state: the operator stack (top first) and the output list. */
  datatype Stacks = Stacks(ops: seq<Token>, out: seq<Token>)

  /** Entries the operator stack may hold: operators and open parentheses. */
  predicate IsStackEntry(t: Token) { t.Op? || t.LParen? }

  /** Entries the output list may hold: numerals and operators. */
  predicate IsOutputEntry(t: Token) { t.Num? || t.Op? }

  /** Where the numeral scan that has reached index j stops; hasDot records a '.' already taken. */
  function ScanFrom(s: string, j: nat, hasDot: bool): (end: nat)
    requires j <= |s|
    ensures j <= end <= |s|
    decreases |s| - j
  {
    if j < |s| && IsDigit(s[j]) then ScanFrom(s, j + 1, hasDot)
    else if j < |s| && s[j] == '.' && !hasDot then ScanFrom(s, j + 1, true)
    else j
  }

  /**
   * The scan takes only number characters, at most one '.' in all, and stops at the input's
   * end, at a non-digit, or at a '.' it may not take.
   */
  lemma {:induction false} ScanFromStops(s: string, j: nat, hasDot: bool)
    requires j <= |s|
    ensures var end := ScanFrom(s, j, hasDot);
      && AllNumberChars(s[j..end])
      && DotCount(s[j..end]) <= (if hasDot then 0 else 1)
      && (end == |s| || (!IsDigit(s[end]) && !(s[end] == '.' && !hasDot && DotCount(s[j..end]) == 0)))
    decreases |s| - j
  {
    var end := ScanFrom(s, j, hasDot);
    if j < |s| && IsDigit(s[j]) {
      ScanFromStops(s, j + 1, hasDot);
      assert s[j..end][1..] == s[j + 1..end];
    } else if j < |s| && s[j] == '.' && !hasDot {
      ScanFromStops(s, j + 1, true);
      assert s[j..end][1..] == s[j + 1..end];
    }
  }

  /**
   * The end of the numeral that starts at index i: a maximal run of digits holding at most
   * one '.', ending at the input's end, at a non-digit, or at a second '.'.
   */
  function NumberEnd(s: string, i: nat): (end: nat)
    requires i < |s| && IsNumberChar(s[i])
    ensures i < end <= |s|
  {
    ScanFrom(s, i + 1, s[i] == '.')
  }

  /** The numeral's text is number characters with at most one '.', and nothing after it extends it. */
  lemma NumberEndStops(s: string, i: nat)
    requires i < |s| && IsNumberChar(s[i])
    ensures var end := NumberEnd(s, i);
      && AllNumberChars(s[i..end]) && DotCount(s[i..end]) <= 1
      && (end == |s| || (!IsDigit(s[end]) && !(s[end] == '.' && DotCount(s[i..end]) == 0)))
  {
    var end := NumberEnd(s, i);
    ScanFromStops(s, i + 1, s[i] == '.');
    assert s[i..end][1..] == s[i + 1..end];
  }

  /** A '-' is the unary minus when it opens the input or follows an operator character or '('. */
  function OperatorAt(s: string, i: nat): OpKind
    requires i < |s| && IsOpChar(s[i])
  {
    if s[i] == '-' && (i == 0 || IsOpChar(s[i - 1]) || s[i - 1] == '(') then Negate
    else OpOfChar(s[i])
  }

  /**
   * How many entries an incoming operator pops: the run of operators on top of the stack that
   * it should pop, ending at '(' or at the first operator it must not pop.
   */
  function PopCount(incoming: OpKind, ops: seq<Token>): (n: nat)
    ensures n <= |ops|
  {
    if ops != [] && ops[0].Op? && ShouldPop(incoming, ops[0].kind) then 1 + PopCount(incoming, ops[1..])
    else 0
  }

  /** The popped run is made of operators that `incoming` pops, and the entry below it is not one. */
  lemma {:induction false} PopCountRun(incoming: OpKind, ops: seq<Token>)
    ensures var n := PopCount(incoming, ops);
      && (forall k | 0 <= k < n :: ops[k].Op? && ShouldPop(incoming, ops[k].kind))
      && (n == |ops| || !(ops[n].Op? && ShouldPop(incoming, ops[n].kind)))
  {
    if ops != [] && ops[0].Op? && ShouldPop(incoming, ops[0].kind) {
      PopCountRun(incoming, ops[1..]);
    }
  }

  /** Before `incoming` is pushed: moves the entries it pops from the stack top to the output. */
  function PopOperators(incoming: OpKind, st: Stacks): Stacks
  {
    var n := PopCount(incoming, st.ops);
    Stacks(st.ops[n..], st.out + st.ops[..n])
  }

  /** How many entries sit above the topmost '(' (all of them when there is none). */
  function OpenIndex(ops: seq<Token>): (n: nat)
    ensures n <= |ops|
  {
    if ops != [] && ops[0] != LParen then 1 + OpenIndex(ops[1..])
    else 0
  }

  /** No '(' sits above that index, and the entry there, if any, is the topmost '('. */
  lemma {:induction false} OpenIndexStops(ops: seq<Token>)
    ensures var n := OpenIndex(ops);
      LParen !in ops[..n] && (n == |ops| || ops[n] == LParen)
  {
    if ops != [] && ops[0] != LParen {
      var n := OpenIndex(ops);
      OpenIndexStops(ops[1..]);
      assert ops[..n] == [ops[0]] + ops[1..][..n - 1];
    }
  }

  /** On ')': moves everything above the topmost '(' to the output; the '(' stays on the stack. */
  function PopToOpen(st: Stacks): Stacks
  {
    var n := OpenIndex(st.ops);
    Stacks(st.ops[n..], st.out + st.ops[..n])
  }

  /** At the end of the input: pops every remaining entry to the output; a '(' among them is an error. */
  function Drain(st: Stacks): Result<seq<Token>>
    decreases |st.ops|
  {
    if st.ops == [] then Ok(st.out)
    else if st.ops[0] == LParen then Err(MismatchedOpen)
    else Drain(Stacks(st.ops[1..], st.out + [st.ops[0]]))
  }

  /** The drain fails exactly when a '(' is left, and otherwise appends the whole stack, top first. */
  lemma {:induction false} DrainResult(st: Stacks)
    ensures var r := Drain(st);
      && (r.Ok? <==> LParen !in st.ops)
      && (r.Ok? ==> r.value == st.out + st.ops)
      && (r.Err? ==> r.error == MismatchedOpen)
    decreases |st.ops|
  {
    if st.ops != [] && st.ops[0] != LParen {
      DrainResult(Stacks(st.ops[1..], st.out + [st.ops[0]]));
      assert st.ops == [st.ops[0]] + st.ops[1..];
    }
  }

  /** The conversion of s from index i on, given the stacks built from s[..i]. */
  function ConvertFrom(s: string, i: nat, st: Stacks): Result<seq<Token>>
    requires i <= |s|
    decreases |s| - i
  {
    if i == |s| then Drain(st)
    else if IsNumberChar(s[i]) then
      var j := NumberEnd(s, i);
      ConvertFrom(s, j, Stacks(st.ops, st.out + [Num(s[i..j])]))
    else if s[i] == '(' then
      ConvertFrom(s, i + 1, Stacks([LParen] + st.ops, st.out))
    else if s[i] == ')' then
      var p := PopToOpen(st);
      if p.ops == [] then Err(MismatchedClose)
      else ConvertFrom(s, i + 1, Stacks(p.ops[1..], p.out))
    else if IsOpChar(s[i]) then
      var op := OperatorAt(s, i);
      var p := PopOperators(op, st);
      ConvertFrom(s, i + 1, Stacks([Op(op)] + p.ops, p.out))
    else
      Err(InvalidCharacter(s[i]))
  }

  /** The postfix form of a whitespace-free expression, or the reason there is none. */
  function Convert(s: string): Result<seq<Token>>
  {
    ConvertFrom(s, 0, Stacks([], []))
  }

  /** The numeral scan: advances j over digits and at most one '.'. */
  method ScanNumber(s: string, i: nat) returns (j: nat)
    requires i < |s| && IsNumberChar(s[i])
    ensures j == NumberEnd(s, i)
  {
    j := i + 1;
    var hasDot := s[i] == '.';
    while j < |s|
      invariant i < j <= |s|
      invariant ScanFrom(s, j, hasDot) == NumberEnd(s, i)
      decreases |s| - j
    {
      var d := s[j];
      if IsDigit(d) { j := j + 1; continue; }
      if d == '.' && !hasDot { hasDot := true; j := j + 1; continue; }
      break;
    }
  }

  /** The pop loop run on ')': pops entries to the output until '(' is on top or the stack is empty. */
  method PopUntilOpen(ops: seq<Token>, out: seq<Token>) returns (ops': seq<Token>, out': seq<Token>)
    ensures Stacks(ops', out') == PopToOpen(Stacks(ops, out))
  {
    ops', out' := ops, out;
    ghost var m := 0;
    OpenIndexStops(ops);
    while ops' != [] && ops'[0] != LParen
      invariant m <= OpenIndex(ops) && ops' == ops[m..] && out' == out + ops[..m]
      decreases |ops'|
    {
      assert ops[..m + 1] == ops[..m] + [ops'[0]];
      out' := out' + [ops'[0]];
      ops' := ops'[1..];
      m := m + 1;
    }
  }

  /** The pop loop run before an operator is pushed. */
  method PopForIncoming(op: OpKind, ops: seq<Token>, out: seq<Token>) returns (ops': seq<Token>, out': seq<Token>)
    ensures Stacks(ops', out') == PopOperators(op, Stacks(ops, out))
  {
    ops', out' := ops, out;
    ghost var m := 0;
    PopCountRun(op, ops);
    while ops' != [] && ops'[0].Op?
      invariant m <= PopCount(op, ops) && ops' == ops[m..] && out' == out + ops[..m]
      decreases |ops'|
    {
      var top := ops'[0].kind;
      if ShouldPop(op, top) {
        assert ops[..m + 1] == ops[..m] + [ops'[0]];
        out' := out' + [ops'[0]];
        ops' := ops'[1..];
        m := m + 1;
      } else {
        break;
      }
    }
  }

  /** The converter as the Java code runs it: one index loop over the characters, then the final drain. */
  method InfixToRpn(s: string) returns (r: Result<seq<Token>>)
    ensures r == Convert(s)
  {
    var out: seq<Token> := [];
    var ops: seq<Token> := [];
    var i := 0;
    while i < |s|
      invariant i <= |s|
      invariant ConvertFrom(s, i, Stacks(ops, out)) == Convert(s)
      decreases |s| - i
    {
      var c := s[i];
      if IsDigit(c) || c == '.' {
        var j := ScanNumber(s, i);
        out := out + [Num(s[i..j])];
        i := j;
        continue;
      }
      if c == '(' {
        ops := [LParen] + ops;
        i := i + 1;
        continue;
      }
      if c == ')' {
        ops, out := PopUntilOpen(ops, out);
        if ops == [] {
          return Err(MismatchedClose);
        }
        ops := ops[1..];
        i := i + 1;
        continue;
      }
      if IsOpChar(c) {
        var op := if c == '-' && (i == 0 || IsOpChar(s[i - 1]) || s[i - 1] == '(') then Negate else OpOfChar(c);
        ops, out := PopForIncoming(op, ops, out);
        ops := [Op(op)] + ops;
        i := i + 1;
        continue;
      }
      return Err(InvalidCharacter(c));
    }
    while ops != []
      invariant Drain(Stacks(ops, out)) == Convert(s)
      decreases |ops|
    {
      var top := ops[0];
      ops := ops[1..];
      if top == LParen {
        return Err(MismatchedOpen);
      }
      out := out + [top];
    }
    return Ok(out);
  }
}
