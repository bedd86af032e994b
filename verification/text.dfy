/** Character classes and the whitespace normalisation applied to every input. */
module Text {

  predicate IsDigit(c: char) { '0' <= c <= '9' }

  /** The characters of the regular-expression class \s: space, tab, newline, vertical tab, form feed, carriage return. */
  predicate IsWhitespace(c: char)
  {
    c == ' ' || c == '\t' || c == '\n' || c == '\U{000B}' || c == '\U{000C}' || c == '\r'
  }

  predicate NoWhitespace(s: string)
  {
    forall k | 0 <= k < |s| :: !IsWhitespace(s[k])
  }

  /** Removes every whitespace character and keeps all others, in order. */
  function StripWhitespace(s: string): (r: string)
    ensures NoWhitespace(r)
    ensures |r| <= |s|
    ensures NoWhitespace(s) ==> r == s
    ensures forall c | c in s && !IsWhitespace(c) :: c in r
    ensures forall c | c in r :: c in s
  {
    if s == [] then []
    else if IsWhitespace(s[0]) then StripWhitespace(s[1..])
    else [s[0]] + StripWhitespace(s[1..])
  }

  /** Whitespace removal works character by character: it distributes over concatenation. */
  lemma {:induction false} StripWhitespaceAppend(a: string, b: string)
    ensures StripWhitespace(a + b) == StripWhitespace(a) + StripWhitespace(b)
    decreases |a|
  {
    if a == [] {
      assert a + b == b;
    } else {
      assert (a + b)[0] == a[0] && (a + b)[1..] == a[1..] + b;
      StripWhitespaceAppend(a[1..], b);
    }
  }

  /** On one character: whitespace is dropped, every other character is kept. */
  lemma StripWhitespaceChar(c: char)
    ensures StripWhitespace([c]) == if IsWhitespace(c) then [] else [c]
  {
    assert [c][1..] == [];
  }
}
