# Math note solver — a verified model of its calculator core

The math note solver is a small web service with two entry points. `solveExpression` evaluates
an arithmetic expression and reports each operation it performed as a step. `solveEquation`
solves a linear equation in one unknown `x`. Both live in `MathService.java`.

Expressions go through three stages:

- Whitespace is stripped.
- A shunting-yard converter turns the infix text into postfix (reverse Polish) tokens. It handles
  `+ - * / ^`, parentheses, decimal numerals and a unary minus.
- A stack machine evaluates the postfix tokens and records one step string per operator.

Equations `left=right` are solved by:

- rewriting every `-` on the left as `+-` and splitting at `+`;
- reading each term as an `x`-term or a constant, which gives `a*x + b`;
- returning `(right - b) / a`.

The model is split into these modules:

- `Tokens`: operators, tokens, and the precedence and associativity rules.
- `Shunting`: the converter. `InfixToRpn` is the loop the Java code runs. It is proved equal to
  the recursive specification `Convert`, one character at a time.
- `ConversionProperties`, `ConversionSteps`, `ConversionTrees` and `ConversionExamples`: what the
  conversion guarantees.
- `ConversionPrecedence`: the text of a tree written with only the parentheses that precedence
  and associativity require. It is proved to convert to the tree's postfix form.
- `Evaluator`: the postfix evaluator. `EvalRpn` is the loop; its specification is `Eval`. The value
  domain is a parameter `Arithmetic<V>`: parsing, printing and the six operations.
- `ExprTree`: expression trees. They are used to state that the text of a tree converts to its
  postfix form and evaluates to its value.
- `Numerals`, `Text`, `Errors`: decimal numerals with their exact values, whitespace removal, and
  the error messages.
- `LinearEquation`: the equation solver over exact reals. `SolveLinearEquation` and `SumTerms` are
  the loops; `Solve` and `Accumulate` are their specifications.
- `EquationExamples`: the example equations listed in the comment above `solveLinearEquation`.
- `Service`: the two public replies and the expression pipeline.

Java stacks (`ArrayDeque`) become sequences with the top at index 0. A Java `null` argument becomes
`None`. An `IllegalArgumentException` becomes an `Err` that carries an `Error`, whose `Message` is
the exception text.

## Model

Source paths are relative to the repository root.

| member | source | states |
|---|---|---|
| Tokens.OpOfChar | src/main/java/com/kush/math_note_solver/MathService.java:114-116 | An operator character (`+ - * / ^`) names a binary operator, and that operator is written with exactly that character. |
| Tokens.PopRuleTable | src/main/java/com/kush/math_note_solver/MathService.java:92-98 | The pop condition, written out for every operator pair using the precedences and associativities at lines 120-134. An incoming unary minus never pops. An incoming `^` pops only a unary minus. An incoming `*` or `/` pops everything except `+` and `-`. An incoming `+` or `-` pops every operator. |
| Shunting.ScanFromStops | src/main/java/com/kush/math_note_solver/MathService.java:63-70 | The numeral scan takes only digits and at most one `.` (none if one was already taken). It stops at the end of the input or at a character that cannot extend the numeral. |
| Shunting.NumberEndStops | src/main/java/com/kush/math_note_solver/MathService.java:62-72 | A numeral that starts at a digit or `.` is a maximal run of number characters with at most one `.`. |
| Shunting.ScanNumber | src/main/java/com/kush/math_note_solver/MathService.java:63-70 | The inner `while` loop returns exactly the end of that maximal numeral. |
| Shunting.PopCountRun | src/main/java/com/kush/math_note_solver/MathService.java:92-98 | The entries popped before an operator is pushed are exactly the longest run of operators at the stack top that it pops. The entry below the run, if any, is not one it pops. |
| Shunting.PopForIncoming | src/main/java/com/kush/math_note_solver/MathService.java:92-98 | The pop loop moves exactly that run from the stack to the output, top first. |
| Shunting.OpenIndexStops | src/main/java/com/kush/math_note_solver/MathService.java:79-80 | On `)`, the entries above the topmost `(` contain no `(`. The entry at that index, if any, is that `(`. |
| Shunting.PopUntilOpen | src/main/java/com/kush/math_note_solver/MathService.java:79 | The `)` loop moves every entry above the topmost `(` to the output, top first, and leaves the `(` on the stack. |
| Shunting.DrainResult | src/main/java/com/kush/math_note_solver/MathService.java:106-110 | The final drain fails with "Mismatched '('" exactly when a `(` is left on the stack. Otherwise the output gains the whole stack, top first. |
| Shunting.InfixToRpn | src/main/java/com/kush/math_note_solver/MathService.java:54-112 | The converter loop returns exactly the specification `Convert` of its input, error cases included. |
| ConversionProperties.PopToOpenEffect | src/main/java/com/kush/math_note_solver/MathService.java:78-81 | On `)`: the stack is empty afterwards exactly when no `(` was open; otherwise one `(` is removed. Only operators reach the output. |
| ConversionProperties.PopOperatorsEffect | src/main/java/com/kush/math_note_solver/MathService.java:92-99 | The operator pop loop moves only operators and leaves every `(` on the stack. |
| ConversionProperties.ConvertEmitsNoParens | src/main/java/com/kush/math_note_solver/MathService.java:54-112 | A successful conversion outputs numerals and operators only, never a parenthesis. |
| ConversionProperties.ConvertVerdict | src/main/java/com/kush/math_note_solver/MathService.java:77-111 | The conversion fails exactly when the input holds a fault or its parentheses do not balance. A fault is a character outside the grammar, or a `)` with no `(` open. The first fault decides the error: "Invalid character: c" or "Mismatched ')'". Without faults, an unbalanced input gives "Mismatched '('". |
| ConversionProperties.ConvertKeepsTokens | src/main/java/com/kush/math_note_solver/MathService.java:54-112 | A successful conversion outputs exactly the input's numerals, in input order. It outputs exactly the input's operators, as a multiset. |
| ConversionProperties.UnaryMinusByPosition | src/main/java/com/kush/math_note_solver/MathService.java:86-90 | A `-` is binary exactly when it directly follows a numeral or `)`. At the start, after an operator, or after `(` it is the unary minus. |
| ConversionTrees.ConvertTree | src/main/java/com/kush/math_note_solver/MathService.java:54-112 | The fully parenthesised text of any well-formed expression tree converts to exactly that tree's postfix form. |
| ConversionPrecedence.GuardedByBinding | src/main/java/com/kush/math_note_solver/MathService.java:92-98 | An operand that binds more tightly than an operator q, or as tightly when q groups to the right, pops no q while it is read. |
| ConversionPrecedence.PendingPopped | src/main/java/com/kush/math_note_solver/MathService.java:92-98 | The operators a left operand leaves on the stack are all popped by the operator that follows it. |
| ConversionPrecedence.ConvertInfix | src/main/java/com/kush/math_note_solver/MathService.java:58-104 | Reading the minimal text of a tree writes the tree's postfix form except its right spine, leaves that spine on the stack, and disturbs nothing below. |
| ConversionPrecedence.ConvertMinimal | src/main/java/com/kush/math_note_solver/MathService.java:54-112 | The text of any well-formed tree with only the parentheses that precedence and associativity require converts to exactly that tree's postfix form. |
| ConversionPrecedence.MinusTexts | src/main/java/com/kush/math_note_solver/MathService.java:92-98 | `8-3-2` is the minimal text of (8-3)-2. The other grouping is written `8-(3-2)` and converts to `8 3 2 - -`. |
| ConversionPrecedence.PowerTexts | src/main/java/com/kush/math_note_solver/MathService.java:131-134 | `2^3^2` is the minimal text of 2^(3^2). The other grouping is written `(2^3)^2` and converts to `2 3 ^ 2 ^`. |
| ConversionPrecedence.ProductTexts | src/main/java/com/kush/math_note_solver/MathService.java:120-130 | `3+4*2` is the minimal text of 3+(4*2). A sum under a product is written `2*(3+4)` and converts to `2 3 4 + *`. |
| ConversionPrecedence.UnaryMinusTexts | src/main/java/com/kush/math_note_solver/MathService.java:86-90 | `-2^2` is the minimal text of (-2)^2. The negated power is written `-(2^2)` and converts to `2 2 ^ u-`. |
| ConversionExamples.PrecedenceExample | src/main/java/com/kush/math_note_solver/MathService.java:120-130 | `3+4*2` converts to `3 4 2 * +`: `*` binds tighter than `+`. |
| ConversionExamples.RightAssociativityExample | src/main/java/com/kush/math_note_solver/MathService.java:131-134 | `2^3^2` converts to `2 3 2 ^ ^`: `^` groups to the right. |
| ConversionExamples.LeftAssociativityExample | src/main/java/com/kush/math_note_solver/MathService.java:92-98 | `8-3-2` converts to `8 3 - 2 -`: `-` groups to the left. |
| ConversionExamples.UnaryMinusExample | src/main/java/com/kush/math_note_solver/MathService.java:86-90 | `-2^2` converts to `2 u- 2 ^`. The leading `-` is unary and binds tighter than `^`. |
| Evaluator.EvalRpn | src/main/java/com/kush/math_note_solver/MathService.java:136-166 | The evaluator loop returns exactly the result and the step list of the specification `Eval`, error cases included. |
| Evaluator.EvalSucceeds | src/main/java/com/kush/math_note_solver/MathService.java:138-165 | Evaluation succeeds exactly when two things hold. Every numeral token must parse. The stack discipline must hold: a unary minus needs one value, a binary operator needs two, and exactly one value remains. |
| Evaluator.EvalStepCount | src/main/java/com/kush/math_note_solver/MathService.java:144-155 | Steps are only ever appended, at most one per operator. A successful evaluation records exactly one step per operator. |
| Evaluator.EvalPostfix | src/main/java/com/kush/math_note_solver/MathService.java:138-159 | The postfix form of a tree, run on any stack, pushes the tree's value and appends the tree's steps. |
| Evaluator.EvalTree | src/main/java/com/kush/math_note_solver/MathService.java:136-166 | The postfix form of a tree evaluates to the tree's value. The steps are its operations in postfix order, one per operator node. |
| Evaluator.FitsHeight | src/main/java/com/kush/math_note_solver/MathService.java:139-164 | The stack discipline holds exactly when no operator finds fewer values than it takes and exactly one value is left at the end. |
| Evaluator.EvalAtEnd | src/main/java/com/kush/math_note_solver/MathService.java:164 | When every numeral parses and no operator runs short, evaluation fails exactly when the number of values left is not 1, and then with "Invalid expression". |
| Evaluator.EvalFirstFault | src/main/java/com/kush/math_note_solver/MathService.java:138-161 | The first faulty token decides the error. A unary minus that finds no value gives "Unary minus missing operand". A binary operator that finds fewer than two gives "Operator missing operand". An unreadable numeral gives its parse error. |
| ExprTree.PostfixOperators | src/main/java/com/kush/math_note_solver/MathService.java:139-158 | The postfix form of a tree holds exactly one operator per operator node of the tree. |
| Text.StripWhitespace | src/main/java/com/kush/math_note_solver/MathService.java:47 | Removing whitespace leaves no whitespace. Every other character of the input still occurs in the result, and nothing new is added. A text without whitespace is unchanged. |
| Text.StripWhitespaceAppend | src/main/java/com/kush/math_note_solver/MathService.java:47 | Removing whitespace works character by character: it distributes over concatenation. |
| Text.StripWhitespaceChar | src/main/java/com/kush/math_note_solver/MathService.java:47 | A single whitespace character is removed; any other single character is kept. |
| Numerals.ParseNumberAccepts | src/main/java/com/kush/math_note_solver/MathService.java:186-191 | A text reads as a number exactly when it is a decimal numeral with at most one leading `+` or `-`. A leading `-` gives a value at most 0; otherwise the value is at least 0. |
| LinearEquation.IndexOf | src/main/java/com/kush/math_note_solver/MathService.java:180 | The index found is the first occurrence of the character. None means the character does not occur. |
| LinearEquation.IndexOfFirst | src/main/java/com/kush/math_note_solver/MathService.java:180 | Conversely, the first occurrence is what is found. |
| LinearEquation.SplitAtEquals | src/main/java/com/kush/math_note_solver/MathService.java:180-184 | Without `=` there is no split. Otherwise left, `=` and right put back together give the text, and the left side holds no `=`. |
| LinearEquation.ReplaceMinusSigns | src/main/java/com/kush/math_note_solver/MathService.java:194 | After the rewrite of `-` as `+-`, every `-` directly follows a `+`. |
| LinearEquation.ReplaceMinusPlain | src/main/java/com/kush/math_note_solver/MathService.java:194 | The rewrite leaves a text without `-` unchanged. |
| LinearEquation.ReplaceMinusAppend | src/main/java/com/kush/math_note_solver/MathService.java:194 | The rewrite works character by character: it distributes over concatenation. |
| LinearEquation.Fragments | src/main/java/com/kush/math_note_solver/MathService.java:195 | Splitting at `+` gives at least one piece. No piece holds `+`, and joining the pieces with `+` gives back the text. |
| LinearEquation.SplitJoin | src/main/java/com/kush/math_note_solver/MathService.java:195 | Conversely, splitting the `+`-join of pieces that hold no `+` gives back those pieces. |
| LinearEquation.JoinInjective | src/main/java/com/kush/math_note_solver/MathService.java:195 | Pieces without `+` are determined by their `+`-join. |
| LinearEquation.TermsAreSigned | src/main/java/com/kush/math_note_solver/MathService.java:194-195 | Every term of a left side holds no `+`, and a `-` can only be its first character. |
| LinearEquation.StripVariable | src/main/java/com/kush/math_note_solver/MathService.java:203 | Removing `x` and `X` leaves no variable letter and never lengthens the term. A term without a variable is unchanged. |
| LinearEquation.StripVariableAppend | src/main/java/com/kush/math_note_solver/MathService.java:203 | Removing `x` and `X` works character by character: it distributes over concatenation. |
| LinearEquation.StripVariableChar | src/main/java/com/kush/math_note_solver/MathService.java:203 | A single `x` or `X` is removed; any other single character is kept. |
| LinearEquation.SignedNumeral | src/main/java/com/kush/math_note_solver/MathService.java:207 | A numeral with no sign, `+` or `-` in front reads as its value, negated for `-`. |
| LinearEquation.SignedXTerm | src/main/java/com/kush/math_note_solver/MathService.java:202-207 | A term made of an optional sign, a numeral and `x` or `X` has as coefficient the signed number in front of the variable. |
| LinearEquation.BareXTerm | src/main/java/com/kush/math_note_solver/MathService.java:202-205 | A term `x`, `+x` or `X` has coefficient 1, and `-x` or `-X` has coefficient -1. |
| LinearEquation.SumTerms | src/main/java/com/kush/math_note_solver/MathService.java:197-218 | The term loop returns exactly the specification fold `Accumulate`, stopping at the first unreadable term. |
| LinearEquation.SolveLinearEquation | src/main/java/com/kush/math_note_solver/MathService.java:177-225 | The solver method returns exactly the specification `Solve`, error cases included. |
| LinearEquation.AddTermForm | src/main/java/com/kush/math_note_solver/MathService.java:200-217 | One term adds its own linear contribution `c*x` or `v` to the sums, whatever they were before. It fails exactly when the term cannot be read. |
| LinearEquation.AccumulateMeaning | src/main/java/com/kush/math_note_solver/MathService.java:197-218 | The term loop succeeds exactly when every term is readable. Its result is the sum of all the terms' linear contributions. |
| LinearEquation.AccumulateError | src/main/java/com/kush/math_note_solver/MathService.java:200-217 | The term loop fails exactly when some term is unreadable. The error names the first such term, as "Invalid x term" or "Invalid constant term". |
| LinearEquation.SolveErrors | src/main/java/com/kush/math_note_solver/MathService.java:178-222 | The first three error cases, each exactly when its condition holds: null gives "Empty equation"; a text without `=` gives "No '=' found"; once split, a right side that is not a number gives "Right side must be a number". Any other error is a term error or "No x term or infinite/no solutions"; `SolveBySums` states which of those comes first. |
| LinearEquation.SolutionSolves | src/main/java/com/kush/math_note_solver/MathService.java:220-224 | A solution is returned exactly when the coefficient of x is nonzero. It satisfies `a*x + b = rhs` and is the only value that does. With coefficient 0 no value of x changes the left side. |
| LinearEquation.LinearSolves | src/main/java/com/kush/math_note_solver/MathService.java:224 | `(rhs - b) / a` satisfies `a*x + b = rhs` when `a != 0`. |
| LinearEquation.LinearUnique | src/main/java/com/kush/math_note_solver/MathService.java:224 | Any value satisfying `a*x + b = rhs` with `a != 0` equals `(rhs - b) / a`. |
| LinearEquation.ConstantForm | src/main/java/com/kush/math_note_solver/MathService.java:220-221 | With `a = 0` the left side is `b`, whatever x is. |
| LinearEquation.SolveBySums | src/main/java/com/kush/math_note_solver/MathService.java:186-224 | Once the sides are split and the right side is read, the solver's answer is the term loop's error, or the solution for the sums it computed. |
| LinearEquation.SolutionMeaning | src/main/java/com/kush/math_note_solver/MathService.java:177-225 | A returned x makes the left side, read as a function of x, equal to the right side, and no other x does. "No solution" means the left side does not depend on x. The solver answers with a solution or "no solution" exactly when every term is readable. |
| EquationExamples.FirstExample | src/main/java/com/kush/math_note_solver/MathService.java:174 | `2x+3x-4=21` is solved by x = 5, and the equation reply says so. |
| EquationExamples.SecondExample | src/main/java/com/kush/math_note_solver/MathService.java:174 | `-x+10=4` is solved by x = 6. The empty term before `-x` is skipped. |
| EquationExamples.ThirdExample | src/main/java/com/kush/math_note_solver/MathService.java:174 | `5+2x=17` is solved by x = 6. |
| Service.EvaluateArithmetic | src/main/java/com/kush/math_note_solver/MathService.java:45-52 | The expression pipeline: null or blank gives "Empty expression"; otherwise convert then evaluate. It returns exactly the specification `Evaluation`. |
| Service.SolveExpression | src/main/java/com/kush/math_note_solver/MathService.java:11-25 | The reply is a success exactly when evaluation succeeds. A success carries the expression as given, the steps and the value; a failure carries the error's message. |
| Service.SolveEquation | src/main/java/com/kush/math_note_solver/MathService.java:27-39 | The reply is a success exactly when the solver succeeds. A success carries the equation as given and x; a failure carries the error's message. |
| Service.EvalFromErrors | src/main/java/com/kush/math_note_solver/MathService.java:141-164 | The evaluator fails only with a missing operand, an unreadable numeral, or "Invalid expression". |
| Service.ConvertErrors | src/main/java/com/kush/math_note_solver/MathService.java:80-108 | The converter fails only with an invalid character, "Mismatched ')'" or "Mismatched '('". |
| Service.EvaluationErrors | src/main/java/com/kush/math_note_solver/MathService.java:45-52 | "Empty expression" is reported exactly for null or blank input. A conversion failure records no step. Every error is one of the listed converter and evaluator errors. |
| Service.EvaluationSteps | src/main/java/com/kush/math_note_solver/MathService.java:136-166 | An expression records at most one step per operator of its postfix form, and exactly one per operator when it succeeds. |
| Service.RenderNoWhitespace | src/main/java/com/kush/math_note_solver/MathService.java:47 | The text of a tree holds no whitespace, so stripping leaves it unchanged. |
| Service.SolveRendered | src/main/java/com/kush/math_note_solver/MathService.java:11-52 | End to end: the parenthesised text of any well-formed tree whose operations are defined is reported as solved. The reply holds the tree's value and one step per operator, in postfix order. |
| Service.SolveMinimal | src/main/java/com/kush/math_note_solver/MathService.java:11-52 | End to end: the minimally parenthesised text of any well-formed tree whose operations are defined (`8-3-2`, `2^3^2`, `-2^2`) is reported as solved, with the tree's value and one step per operator in postfix order. |

## Left out

- `MathController.java` is not part of this model. It is HTTP transport that hands strings to the two service methods and returns their maps.
- Floating point: the evaluator is generic over its value domain `Arithmetic<V>`. Parsing, the five binary operations (including `Math.pow`), negation and printing are parameters, so IEEE rounding, infinities and NaN are not modelled.
- The number printer `trim` (whole numbers printed without a fraction) is the abstract `fmt` of the value domain. Step strings are built from it as the Java code builds them from `trim`.
- LinearEquation.Solve: arithmetic is exact over the reals. The Java test `Math.abs(a) < 1e-12` is modelled as `a == 0`, so coefficients that cancel only up to rounding are not modelled.
- LinearEquation.Solve: a written coefficient with `0 < |a| < 1e-12` also differs. For `0.0000000000001x=1` Java reports "No x term or infinite/no solutions" (line 220), while the model answers x = 10^13.
- Numerals.ParseNumber: accepts only an optional sign followed by decimal digits with at most one point. `Double.parseDouble` also accepts exponents, hexadecimal forms, `NaN`, `Infinity`, type suffixes and surrounding blanks. On such right sides or terms the model reports the parse error where Java would read a number.
- Text.IsDigit: only ASCII `0`-`9` count as digits. `Character.isDigit` also accepts other Unicode decimal digits, so Java scans them as part of a numeral (line 62) and the outcome can differ. For `٣)` Java scans `٣` and then fails with "Mismatched ')'", while the model fails with "Invalid character: ٣".
- Java strings are sequences of UTF-16 code units, while a Dafny `char` is a Unicode scalar value. For a character outside the Basic Multilingual Plane, Java's "Invalid character: " message (line 103) carries a lone surrogate, while the model's carries the whole character.
- LinearEquation.Fragments: keeps trailing empty pieces, which Java's `String.split` drops. The term loop skips empty terms, so the sums are the same.
- The `default: "Bad op"` branch of `evalRPN` is not modelled. The model's operator type has only the six operators the converter emits, so that branch cannot be reached.
- The Java step list is a caller-owned mutable list. The model returns it as a sequence together with the result; aliasing of that list is not modelled.
