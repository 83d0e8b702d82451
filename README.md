# digits — a Dafny model of the formula search

The Go program `digits` looks for arithmetic formulas over a string of
decimal digits. It keeps the digits in order, splits them into numbers and
joins the numbers with `+ - * / ^`. It also applies the unary operators
factorial, square root and negation. Every value it reaches is recorded for
the span of digits that produces it, together with the formulas found for
that value.

Values are exact fractions. Formulas are trees, and each tree is put into a
canonical form before it is stored. The program also reads formulas written
in Polish notation and prints them in infix form.

This project models that core in Dafny, one module per Go file:

| module | Go file | form |
|---|---|---|
| `IntMath` | `math.go` | integer factorial, square root, root and power, each failing as `None` where Go returns `MaxInt64`; Euclid's gcd |
| `Text` | calls into `strconv`/`strings` | `Atoi`, `FormatInt`, `Split` and `TrimSpace`, as far as the formula code uses them |
| `Rational` | `rational.go` (`rat.go` is a verbatim copy under the type name `Rat`) | the fraction datatype `Rat(n, d)` and its arithmetic, proved against the real numbers |
| `Nodes` | `node.go`: operators, trees, `Depth`, `Equal`, `Eval` | a `Node` datatype over `Option<Node>` children |
| `Simplification` | `node.go`: `transformDuo`, `transformTrio`, `Simplify` | mutually recursive methods whose rule tables are loops; proved value-preserving and terminating |
| `Parser` | `node.go`: `ParseString`, `parseNodeFromString` | a specification function `Parse`, and a method with the operator-search loop proved equal to it; the round trip against a Polish printer |
| `Printing` | `pprint.go` | the infix printer; its parentheses are proved balanced |
| `Solutions` | `solution.go` | the global `solutions` map and `maxDepth` as fields of class `Registry`; `Add`, `Unary`, `Binary`, `AllUnary`, `AllBinary`, `uniq`, `atos` and `FindAllSolutions` as methods |

`Wrappers` holds `Option` and `Result`. The Go code reports failure in three
ways: a `MaxInt64` sentinel, an `error` value, or `log.Fatalf`. A sentinel
becomes `None`. An error becomes `Err`. A fatal error in the search and in
`Simplify` becomes a precondition the callers are proved to meet. The
fatal errors of `newRational`, which reads text, become `None` instead
(`Rational.NewRational`).

A registry invariant, `Valid()`, says what the map holds. Every formula
stored for a solution is well formed, has canonical leaves, is in
simplified form and evaluates to the solution's value. The formulas of one
solution are pairwise not `Equal`. With `maxDepth == 0` a solution keeps
only its first formula; otherwise every formula after the first is at most
`maxDepth` deep. Every search method keeps `Valid()` and only ever appends
formulas (`Grows`). Each also bounds which keys it touches: only keys over
the digits of its arguments gain formulas (`GrowsAt` names the spans,
`GrowsWithin` a range of positions).

## Model

| member | source | states |
|---|---|---|
| IntMath.GoQuo | rational.go:56 | Go's integer division truncates toward zero: the remainder is smaller than the divisor, and it agrees with `/` on non-negative operands |
| IntMath.GoRem | math.go:112 | Go's `%` keeps the sign of the dividend: the magnitude is below the divisor's, and it agrees with `%` on non-negative operands |
| IntMath.GoRemNegate | rational.go:180 | negating the dividend negates Go's remainder, so evenness ignores the sign |
| IntMath.Fact | math.go:29-35 | defined exactly on 0 and 3..20, with 0! = 1, and every result fits in int64 |
| IntMath.BuildFactTable | math.go:16-23 | the loop of init fills the factorial table for 0 and 3..20, and for nothing else |
| IntMath.FactTableStep | math.go:20-23 | one turn of the init loop extends the table by the next factorial |
| IntMath.FactReadsTable | math.go:29-35 | fact answers exactly what the table built by init holds |
| IntMath.FactorialMonotone | math.go:20-23 | factorials never decrease and are at least 1 |
| IntMath.FactorialFitsInt64 | math.go:8 | every factorial up to maxFactorial = 20 fits in int64 |
| IntMath.RootFrom | math.go:74-79 | the search for an exact b-th root finds one at or above its start, or proves there is none |
| IntMath.Sqrt | math.go:37-55 | a result s is at least 1 with s*s == n; no result means n < 2 or n is not a perfect square |
| IntMath.NoSquareRoot | math.go:42-48 | an unsuccessful root search means no integer squares to n |
| IntMath.BuildSqrtTable | math.go:24-26 | the loop of init maps i*i to i for 1 <= i <= maxSqrt, holds only exact roots, and covers every square up to maxSqrt² |
| IntMath.Root | math.go:57-80 | for b >= 1, a result x satisfies x^b == a, and there is a result iff an exact integer b-th root exists; the result has the sign of a, so an even root is non-negative; 0^(1/0) fails; b == 1, a == 0 and a == 1 return a; b == 2 is sqrt |
| IntMath.RootUnique | math.go:57-80 | the b-th root found is the only integer of a's sign whose b-th power is a |
| IntMath.RootTwoSound | math.go:63-64 | a square root found is non-negative and squares back to a |
| IntMath.RootOfSquare | math.go:63-64 | every perfect square x*x has root x |
| IntMath.NoEvenRootOfNegative | math.go:71-72 | a negative number has no even root |
| IntMath.NoRootOfEitherSign | math.go:67-79 | when the search over |a| fails, no integer (of either sign) is a b-th root of a |
| IntMath.Pow | math.go:84-102 | for b >= 0, a^b is returned exactly when it fits in int64, is not 0^0 and is not MaxInt64 itself, which the caller cannot tell from the failure sentinel (MaxInt64^1); a negative exponent gives a value of magnitude at most 1, and fails only for a zero base |
| IntMath.SquareNotMaxInt64 | math.go:97-101 | no square is MaxInt64, so a square never collides with pow's sentinel |
| IntMath.PowEvenSymmetric | math.go:86-102 | an even power ignores the sign of the base |
| IntMath.PowBeyondInt64 | math.go:94-96 | the early cut-off (b > 15 and \|a\| > 15) only refuses powers that overflow int64 |
| IntMath.IntPowStrictlyMonotone | math.go:74-75 | b-th powers of naturals strictly increase, so the root search may stop once it passes a |
| IntMath.GcdFacts | math.go:104-113 | gcd of non-negative numbers, not both zero, is positive, divides both, and is a Bézout combination of them |
| IntMath.GcdGreatest | math.go:104-113 | every common divisor divides the gcd |
| IntMath.CoprimeSquares | math.go:104-113 | squares of coprime numbers are coprime |
| IntMath.CoprimeOfSquares | math.go:104-113 | if the squares are coprime, so are the numbers |
| Text.NatToString | rational.go:38 | FormatInt of a natural is a non-empty run of digits |
| Text.NatToStringRoundTrip | rational.go:38 | the digits written for n read back as n |
| Text.AtoiOfIntToString | rational.go:20-28 | Atoi reads back every integer FormatInt writes |
| Text.NoSlashInIntToString | rational.go:36-42 | a formatted integer has no slash, so a printed fraction has exactly one |
| Text.Split | rational.go:16 | strings.Split always returns at least one part |
| Text.SplitNoSeparator | rational.go:16-17 | a string without the separator splits into itself |
| Text.SplitAtSeparator | rational.go:16-17 | splitting x + sep + y, with no separator in x, gives x followed by the parts of y |
| Text.TrimSpaceMeans | node.go:85 | the trimmed string is the part of the input after its leading white space, with only white space after it, and neither starts nor ends with white space |
| Text.TrimmedUnique | node.go:85 | any two parts of a string cut that way are equal, so TrimSpace's result is the only one |
| Text.TrimLeft | node.go:96 | trimming the front removes only white space and leaves a suffix that starts with a non-space |
| Text.TrimRight | node.go:96 | trimming the back removes only white space and leaves a prefix that ends with a non-space |
| Text.TrimSpaceOfTrimmed | node.go:85 | TrimSpace leaves a string with no space at either end unchanged |
| Text.TrimSpaceOfPadded | node.go:96 | a leading space does not change the trimmed string |
| Text.TrimSpaceOfPaddedBack | node.go:96 | a trailing space does not change the trimmed string |
| Rational.NormalizeCanonical | rational.go:44-57 | Normalize gives a positive denominator in lowest terms and keeps the value |
| Rational.NormalizeIdempotent | rational.go:44-57 | normalizing twice is normalizing once |
| Rational.NormalizeOfCanonical | rational.go:44-57 | a fraction already in lowest terms is its own normal form |
| Rational.NormalizeQuotients | rational.go:50-56 | Normalize divides both parts by their gcd, and the quotients are coprime |
| Rational.NormalizeZeroDenominator | rational.go:45-57 | n/0 with n != 0 normalizes to ±1/0, since the gcd of \|n\| and 0 is \|n\| |
| Rational.CanonicalUnique | rational.go:44-57 | two canonical fractions of the same value are equal, so canonical fractions compare by value |
| Rational.CrossProducts | rational.go:172-176 | two fractions have the same value iff their cross products are equal |
| Rational.GcdPositive | rational.go:59-68 | gcd fails only when both arguments are zero, and is positive otherwise |
| Rational.IntegerCanonical | rational.go:10 | an integer k is stored canonically as k/1 |
| Rational.AddCorrect | rational.go:70-83 | the sum is canonical and its value is the sum of the values |
| Rational.SubCorrect | rational.go:85-87 | the difference is canonical and its value is the difference of the values |
| Rational.MulCorrect | rational.go:89-94 | the product is canonical and its value is the product of the values |
| Rational.DivCorrect | rational.go:96-101 | for a non-zero divisor, the quotient is canonical and its value is the quotient of the values |
| Rational.MinusCorrect | rational.go:164-166 | the negation is canonical and its value is the negated value |
| Rational.MinusOfCanonical | rational.go:164-166 | negating a canonical fraction only flips the numerator's sign, and negating twice is the identity |
| Rational.AddAssoc | rational.go:70-83 | addition of fractions is associative |
| Rational.MulAssoc | rational.go:89-94 | multiplication of fractions is associative |
| Rational.MulComm | rational.go:89-94 | multiplication of fractions is commutative |
| Rational.SubAssoc | rational.go:85-87 | a - (b - c) == (a - b) + c |
| Rational.DivOfDiv | rational.go:96-101 | a / (b / c) == (a / b) * c |
| Rational.NegateSum | rational.go:164-166 | the negation of a sum is the sum of the negations |
| Rational.MinusTimes | rational.go:89-94 | (-x) * y == -(x * y) |
| Rational.TimesMinus | rational.go:89-94 | x * (-y) == -(x * y) |
| Rational.MinusTimesMinus | rational.go:89-94 | (-x) * (-y) == x * y |
| Rational.MinusOver | rational.go:96-101 | (-x) / y == -(x / y) |
| Rational.OverMinus | rational.go:96-101 | x / (-y) == -(x / y) |
| Rational.MinusOverMinus | rational.go:96-101 | (-x) / (-y) == x / y |
| Rational.SquareOfProduct | rational.go:89-94 | (xy)² == x²y² |
| Rational.SquareOfQuotient | rational.go:96-101 | (x/y)² == x²/y² |
| Rational.NegativeMeans | rational.go:154-157 | Negative holds iff the value is below zero |
| Rational.ZeroMeans | rational.go:183-185 | Zero holds iff the value is zero |
| Rational.EqualMeans | rational.go:172-176 | Equal holds iff the two values are equal, whatever the representation |
| Rational.IntegerMeans | rational.go:159-162 | Integer holds iff the value is a whole number |
| Rational.EvenMeans | rational.go:178-181 | Even holds iff the value is an even whole number |
| Rational.LessMeans | rational.go:145-152 | with positive denominators, Less holds iff the first value is smaller |
| Rational.LessAsWrittenIsNotStrict | rational.go:145-152 | with denominators of opposite sign, Less holds both ways between equal values |
| Rational.LessExactMeans | rational.go:145-152 | the corrected comparison holds iff the first value is smaller, for any non-zero denominators |
| Rational.FactCorrect | rational.go:131-143 | factorial is defined exactly on the integers 0..20, where it is n!; a fraction is refused |
| Rational.PowCorrect | rational.go:103-129 | for a non-negative exponent p/q, a successful power is canonical, and its q-th power equals the base to the p-th |
| Rational.PowFractionalExponent | rational.go:111-128 | for an exponent p/q in lowest terms with q > 1, the power succeeds iff numerator and denominator can both be raised to p and both powers have an exact integer q-th root, and it is then the normalized quotient of those roots |
| Rational.PowEvenRootNonnegative | rational.go:121-124 | a successful power with an even root index q is non-negative |
| PowExamples.PowRootExample | rational_test.go:43 | (4/9)^(3/2) == 8/27 |
| PowExamples.PowOddRootExample | rational_test.go:47 | (8/-27)^(1/3) == -2/3: an odd root keeps the sign |
| PowExamples.PowInexactRootExamples | rational_test.go:93-97 | (1/2)^(1/2), (-8)^(1/4) and (1/4)^(1/3) are refused, as no exact integer root exists |
| Rational.PowWholeExponent | rational.go:111-120 | with a whole exponent k, the power succeeds iff pow gives a non-sentinel result for both numerator and denominator, and is their normalized quotient |
| PowExamples.PowSentinelExamples | rational.go:111-118 | MaxInt64/1 and 1/MaxInt64 to the power 1 are refused, as pow's result MaxInt64 reads as its failure sentinel |
| Rational.PowNegativeExponent | rational.go:104-110 | a negative exponent fails for a zero base and otherwise inverts the base and negates the exponent |
| Rational.PowCanonical | rational.go:103-129 | every successful power is canonical |
| Rational.PowEvenIgnoresSigns | rational.go:111-120 | an even whole power is the same for either sign of numerator or denominator |
| Rational.PowOfMinusEven | rational.go:103-129 | an even power of -r succeeds iff that of r does, with the same value |
| Rational.SqrtIsRoot | rational.go:187-189 | a square root is canonical, non-negative and squares back to the argument |
| Rational.SqrtOfSquare | rational.go:187-189 | every square of a non-negative canonical fraction has that fraction as its root |
| Rational.SqrtMul | rational.go:187-189 | sqrt(a*b) == sqrt(a)*sqrt(b) whenever both roots exist |
| Rational.SqrtDiv | rational.go:187-189 | sqrt(a/b) == sqrt(a)/sqrt(b) whenever both roots exist and sqrt(b) is not zero |
| Rational.StringHasSlash | rational.go:36-42 | the printed form has a slash exactly when the denominator is not 1 |
| Rational.NewRational | rational.go:15-34 | text without a slash reads as an integer over 1, or fails when Atoi fails |
| Rational.NewRationalOfString | rational.go:15-42 | reading back a printed fraction gives the same fraction |
| Rational.SumExamples | rational_test.go:20-22 | sums from the package's tests, including a negative denominator |
| Rational.QuotientExample | rational_test.go:34 | a value divided by itself is 1 |
| Rational.EqualExamples | rational_test.go:153-154 | Equal compares values across representations |
| Rational.EvenExamples | rational_test.go:144-149 | 0 and -2 are even, 4/8 is not |
| Rational.SignExamples | rational_test.go:128-133 | 1/-2 is negative, and 1/3 is not less than 1/-2 |
| Nodes.NewNode | node.go:60-67 | newNode only builds valid nodes, and is well formed over well-formed operands |
| Nodes.Leaf | node.go:69-77 | a value node is a well-formed leaf |
| Nodes.ValidIffShape | node.go:49-58 | valid means: a leaf has no operands, a binary node two, a unary node only a left one |
| Nodes.Depth | node.go:150-162 | the depth is zero exactly at a leaf |
| Nodes.DepthBounds | node.go:150-162 | the depth is below the size, and each operand is shallower than its node |
| Nodes.EqualIffSameShape | node.go:164-174 | Equal holds iff the two trees have the same operators and leaf values equal as fractions |
| Nodes.EvalNeedsShape | node.go:178-223 | an invalid node, or one with an operand that fails, fails to evaluate |
| Nodes.EvalDivisionByZero | node.go:205-208 | division by a zero value is an error |
| Nodes.Apply2Canonical | node.go:198-212 | a binary operation on canonical values gives a canonical value |
| Nodes.Apply1Canonical | node.go:224-231 | a unary operation on canonical values gives a canonical value |
| Nodes.EvalCanonical | node.go:178-235 | a tree with canonical leaves evaluates to a canonical value |
| Simplification.AddMinusSound | node.go:292-293 | a + (-b) == a - b |
| Simplification.SubMinusSound | node.go:294 | a - (-b) == a + b |
| Simplification.MinusSubSound | node.go:295 | (-a) - b == -(a + b) |
| Simplification.MinusAddSound | node.go:296 | (-a) + b == -(a - b) |
| Simplification.MinusMulMinusSound | node.go:297 | (-a) * (-b) == a * b |
| Simplification.MinusDivMinusSound | node.go:298 | (-a) / (-b) == a / b |
| Simplification.MinusMulSound | node.go:299 | (-a) * b == -(a * b) |
| Simplification.MinusDivSound | node.go:300 | (-a) / b == -(a / b) |
| Simplification.MulMinusSound | node.go:301 | a * (-b) == -(a * b) |
| Simplification.DivMinusSound | node.go:302 | a / (-b) == -(a / b) |
| Simplification.SqrtMulSound | node.go:303 | sqrt(a) * sqrt(b) == sqrt(a * b), including when either side fails |
| Simplification.SqrtDivSound | node.go:304 | sqrt(a) / sqrt(b) == sqrt(a / b), including when either side fails |
| Simplification.DuoSound | node.go:291-305 | every rule of the duo table keeps the value of an expression it applies to |
| Simplification.TrioSound | node.go:308-314 | every rule of the trio table keeps the value, and its new inner operation is defined |
| Simplification.MinusMinusEval | node.go:280-281 | --a has the value of a |
| Simplification.PowMinusSound | node.go:282-285 | (-a)^e == a^e for an even exponent e |
| Simplification.PowMinusEval | node.go:282-285 | dropping the minus under an even power keeps the tree's value |
| Simplification.TransformDuo | node.go:237-264 | the rewrite keeps the value, well-formedness and canonical leaves; it returns n unchanged iff the rule does not match, and otherwise a tree strictly below n in the termination order |
| Simplification.DuoRewrite | node.go:256-260 | the rewritten tree op4(a op5 b) has the value of (op1 a) op2 (op3 b) and is strictly below it |
| Simplification.TransformTrio | node.go:266-275 | the rewrite keeps the value; it returns n unchanged iff the rule does not match, and otherwise a tree strictly below n |
| Simplification.Simplify | node.go:277-346 | Simplify terminates, keeps the value (the check that calls log.Fatalf never fires), returns a fixed point (Stable), never grows the tree, and leaves a fixed point unchanged |
| Simplification.RewriteByRules | node.go:289-329 | the rule passes plus the operand pass return n unchanged iff n is a fixed point, and otherwise a smaller tree of the same value |
| Simplification.DuoPass | node.go:291-307 | the duo loop changes n iff some duo rule matches, and then makes it smaller, keeping the value |
| Simplification.TrioPass | node.go:308-316 | the trio loop changes n iff some trio rule matches, and then makes it smaller, keeping the value |
| Simplification.SimplifyOperands | node.go:317-328 | the operand pass changes n iff an operand is not a fixed point, and then makes it smaller, keeping the value |
| Parser.DigitRun | node.go:144-148 | the scanner stops at the first non-digit, and everything it passes is a digit |
| Parser.LiteralEnd | node.go:144-148 | a literal match is a non-empty prefix of the input |
| Parser.LiteralParses | node.go:98-99 | every literal the scanner accepts is a fraction newRational accepts, so its fatal error is unreachable from the reader |
| Parser.OpOfChar | node.go:28-38 | a one-character name denotes a binary operator or factorial, and that operator has this name |
| Parser.OpOfCharMeans | node.go:111-122 | the operator found for a character is the one whose name it is, with unary minus read as subtraction; none is found iff no operator has that name |
| Parser.LookupOp | node.go:111-123 | the loop over opNames computes OpOfChar |
| Parser.OperatorAt | node.go:104-124 | the head operator is sqrt, then "--", then a one-character name; a recognised operator consumes input |
| Parser.Parse | node.go:95-142 | a tree that is read is well formed and consumes input; the rest is never longer than the input |
| Parser.ParseNodeFromString | node.go:95-142 | the reader, with its operator search as a loop, computes Parse |
| Parser.ReadOperands | node.go:125-141 | once the operator is read, reading its one or two operands computes Parse |
| Parser.ParseString | node.go:84-91 | ParseString succeeds iff the reader does on the trimmed input, and returns a well-formed tree |
| Parser.Polish | node.go:79-83 | the printed Polish form of a tree has no white space at either end |
| Parser.ParsePolish | node.go:95-142 | reading the Polish form of a tree, followed by a space and more text, returns the tree and stops right after it |
| Parser.ParseStringOfPolish | node.go:84-91 | ParseString reads back every printed tree |
| Parser.StepOverSpace | node.go:96 | leading space is skipped |
| Parser.ParseEmpty | node.go:101-103 | input that is empty after trimming is refused as empty |
| Parser.ParseUnrecognized | node.go:120-122 | input that starts with neither a literal nor an operator name is refused, and the error carries it |
| Parser.ParseFirstMissing | node.go:125-127 | an operator with nothing after it misses its first operand |
| Parser.ParseSecondMissing | node.go:135-138 | a binary operator with only one operand misses its second |
| Printing.String | pprint.go:11-57 | every tree prints as non-empty text |
| Printing.StringBalanced | pprint.go:11-57 | the printed form's parentheses are balanced |
| Printing.StringOfBinary | pprint.go:26-40 | a binary node prints as its left part, the operator with a space on each side, and its right part |
| Printing.RightOperand | pprint.go:17-22 | a right operand is in parentheses exactly when it is a binary operation |
| Printing.AddSubLeftOperand | pprint.go:27-30 | sums and differences print their left operand bare |
| Printing.MulDivLeftOperand | pprint.go:31-35 | products and quotients put a binary left operand in parentheses |
| Printing.PowFactLeftOperand | pprint.go:36-45 | powers and factorials put a binary or negated left operand in parentheses |
| Printing.SqrtOperand | pprint.go:46-47 | a square root prints as a call |
| Printing.MinusOperand | pprint.go:48-52 | a negation puts a binary or factorial operand in parentheses |
| Printing.LeafString | pprint.go:23-24 | a leaf prints as its fraction |
| Printing.NegatedFactorialExample | digits_test.go:23 | -(sqrt(9)!) prints with the parentheses that keep the minus outside the factorial |
| Solutions.PerformUnaryMeans | rational_test.go:53-58 | the factorial succeeds exactly on the integers 0..20, where it is n!, and gives back its argument exactly on 1 and 2; the square root is rational.go's and the negation always succeeds |
| Solutions.OneMeans | solution.go:127 | on canonical values One and MinusOne are equality with 1 and -1 |
| Solutions.Lookup | solution.go:36 | a missing key has no formulas |
| Solutions.StoredAppend | solution.go:45-53 | appending a formula Add admits keeps a key's formulas stored |
| Solutions.StoredUpdate | solution.go:53 | replacing one key's formulas by stored ones keeps the whole map stored |
| Solutions.AddedToFirstOnly | solution.go:36-39 | with maxDepth 0, a solution that has a formula gets no more |
| Solutions.HasEqual | solution.go:48-52 | the scan finds a stored formula Equal to the candidate iff there is one |
| Solutions.Wrapped | solution.go:67-72 | Unary offers op over each formula of its operand, skipping only a minus over a minus |
| Solutions.Row | solution.go:88-97 | Binary offers op over one left formula and each right formula, in order |
| Solutions.Paired | solution.go:87-98 | Binary offers op over every pair of a left and a right formula, and nothing else |
| Solutions.FactClimbs | rational.go:130-144 | the factorial of a positive canonical value succeeds exactly on the integers 1..20, is n!, gives back 1 and 2, and gives a larger integer from 3 on |
| Solutions.SqrtShrinks | solution.go:147 | a successful square root of a positive value other than 1 is again such a value, with smaller numerator plus denominator, so the loop ends |
| Solutions.FactStep | solution.go:143-146 | from an integer of at least 3, one turn of a factorial loop stops or climbs, so the loop ends |
| Solutions.FactLoopAsWrittenNeverEnds | solution.go:143-152 | as written: Unary's factorial of a solution of value 2 is that same solution, so the loop `f = f.Unary(OpFact)` is at the same solution after any number of turns and never reaches NoSolution |
| Solutions.FactLoopCorrectedStops | solution.go:143-146 | corrected: a loop that also stops when the factorial gives back its argument stops at once from 2, and from an integer 3..20 moves to a larger integer |
| Solutions.MinusStep | solution.go:132 | negating a canonical value only flips its numerator's sign |
| Solutions.Number | solution.go:189 | a run of digits is a non-negative canonical integer |
| Solutions.BinaryOp | solution.go:159 | AllBinary's counter runs through exactly the binary operators |
| Solutions.Uniq | solution.go:171-182 | uniq keeps exactly the solutions of its input, each once |
| Solutions.SplitsBeforeNext | solution.go:228-234 | joining the two parts at split point i extends "every split point before i is joined" to every split point up to i |
| Solutions.Registry.constructor | solution.go:26-31 | the registry starts empty with the given maxDepth, and is valid |
| Solutions.Registry.Add | solution.go:33-54 | the candidate (the leaf of the value, or the simplified formula) is appended iff it is admitted: the solution has no formula yet, or maxDepth is not 0, it is not too deep and no stored formula is Equal to it; nothing else changes, and the registry stays valid |
| Solutions.Registry.AddAll | solution.go:67-71 | offering candidates one by one appends exactly the admitted simplified ones, in order, to one key |
| Solutions.Registry.Unary | solution.go:56-74 | zero, and one under an operator other than minus, are returned unchanged; an undefined operation gives NoSolution; otherwise the new value over the same digits, after every formula of s wrapped in op was offered to Add |
| Solutions.Registry.Binary | solution.go:76-100 | non-adjacent operands or an undefined operation give NoSolution and change nothing; otherwise the joined value over both spans, after every pair of formulas was offered to Add |
| Solutions.Registry.AllUnary | solution.go:121-154 | the result holds s and its negation (only s for zero, exactly s and -s for ±1), the factorial of an integer in 3..20, and nothing outside s's digits, without repeats; zero leaves the registry unchanged, ±1 registers only the negation, which gains a formula when s has one not rooted at a minus; only keys over s's digits change |
| Solutions.Registry.NegateUnit | solution.go:127-130 | corrected: for ±1 the result is s and -s, -s is registered through Unary, and it gains a formula when s has one not rooted at a minus |
| Solutions.Registry.AllUnaryAsWritten | solution.go:123-130 | as written: for 0, 1 and -1 the registry is left unchanged, though -s is returned for ±1 |
| UnitNegation.AsWrittenLeavesMinusOneBare | solution.go:127-130 | on the digit 1, the as-written AllUnary returns -1 with no formula registered for it |
| UnitNegation.CorrectedGivesMinusOneAFormula | solution.go:127-130 | on the digit 1, the corrected AllUnary returns -1 and registers a formula for it |
| Solutions.Registry.AllUnaryGeneral | solution.go:131-153 | for values other than 0 and ±1 the result holds s, its negation and, when defined, the factorial of \|s\|; only keys over s's digits change |
| Solutions.Registry.Reachable | solution.go:143-153 | the factorial and square-root loops extend the result without dropping anything, and the result has no repeats; only keys over t's digits change |
| Solutions.Registry.Factorials | solution.go:143-146 | corrected loop: it ends; the repeated factorials stay on t's digits, are none from 2, and include the first factorial when t is an integer 3..20; only keys over t's digits change |
| Solutions.Registry.SquareRoots | solution.go:147-152 | the repeated square roots and their factorials stay on t's digits; only keys over t's digits change |
| Solutions.Registry.AllBinary | solution.go:156-169 | for every binary operator defined on two adjacent solutions, the joined solution is in the result; every result spans both operands; no repeats; only keys over the digits of s1, of s2 or of both change |
| Solutions.Registry.Combine | solution.go:160-166 | for one operator, the two inner loops find the join of s1 and s2 when it is defined; only keys over the digits of s1, of s2 or of both change |
| Solutions.Registry.CombineEach | solution.go:160-165 | the loop over s1.AllUnary() keeps the join of s1 and s2 once it reaches s1; only keys over s2's digits or both operands' digits change |
| Solutions.Registry.CombineWith | solution.go:161-165 | for one left solution, the inner loop joins it with every unary form of s2; only keys over s2's digits or both operands' digits change |
| Solutions.Registry.JoinEach | solution.go:161-165 | the loop over s2.AllUnary() keeps the join once it reaches s2; only keys over both operands' digits change |
| Solutions.Registry.Atos | solution.go:184-192 | the digits become the integer solution over their span, which now has a formula (its own leaf, if it was new) |
| Solutions.Registry.FindAllSolutions | solution.go:223-236 | no digits give no solutions; otherwise the result holds the whole number, which is registered, and, at every split point and for every operator defined on them, the join of the two part numbers; everything spans the digits; no repeats; only keys inside the digits change |
| Solutions.Registry.AllSplits | solution.go:228-234 | the loop over split points gathers the joins at every split point; only keys inside the digits change |
| Solutions.Registry.Split | solution.go:229-233 | at one split point, the joins of the two part numbers are found; only keys inside the digits change |
| Solutions.Registry.SplitRow | solution.go:230-232 | one left solution is joined with the number on the right; only keys between the left solution's first digit and the last digit change |
| Solutions.Registry.KeyHasFormulas | solution.go:26 | a key of the map has at least one stored formula, and a missing key has none |

## Left out

- The dispatch methods `PerformUnary`, `PerformBinary`, `One` and `MinusOne` are called from `solution.go` but are not part of this model's source. `PerformBinary` is modelled as the evaluation of a binary node (node.go:198-212). `One` and `MinusOne` compare the normalized value with 1 and -1.
- `PerformUnary` is modelled as the evaluation of a unary node, with `rational.go`'s `Fact`, `Sqrt` and `Minus`, as the package's tests expect (rational_test.go:53-61). Its factorial gives back 1 and 2 unchanged (rational.go:135-136), which makes the factorial loops of `AllUnary` run for ever from 2; see Findings.
- Solutions.Registry.AllUnary: the search (`AllBinary`, `Combine`, `CombineEach`, `CombineWith`, `JoinEach`, `FindAllSolutions`) calls this corrected method. For ±1 it registers a formula for -s through `Unary`, which Go does not (see Findings); `AllUnaryAsWritten` is the source's branch.
- Solutions.Registry.Factorials: the search uses the corrected loop, which also stops when a factorial gives back its argument; Go's loop never ends from 2 (see Findings).
- Solutions.Registry.Add: requires the offered formula to evaluate to the solution's value, with canonical leaves. Every caller in the search meets this, and it makes the value check inside `Simplify` (node.go:330-341) unreachable.
- Solutions.Registry.AllUnary: requires a canonical value. Every solution the search builds has one.
- Solutions.Registry.FindAllSolutions: requires a string of decimal digits, which is what `main` passes. For other text `atos` calls `log.Fatalf`.
- Solutions.Registry.Atos: requires text `Atoi` accepts, where Go's `atos` calls `log.Fatalf`.
- Simplification.Simplify: requires a well-formed tree with canonical leaves that evaluates. On other trees Go either dereferences nil or calls `log.Fatalf`.
- Trees are values, so Go's pointer comparisons (`n1 == n`, `l != n.left`) become structural equality. A rewrite that rebuilds an identical tree therefore counts as "no change" here, where Go would simplify once more and reach the same tree.
- The order of Go map iteration is not modelled. `uniq` returns its solutions in an order Dafny chooses (`:|`).
- `Unary` skips a minus over a minus, and `Binary` skips a minus operator over a minus operand. The second can never fire, because `op` is binary.
- Solutions.Registry.AllUnary: states which solutions are found, not that nothing else is. The square-root results and the negated factorials are only shown to span the right digits.
- Solutions.Registry.AllBinary: states that every defined join is found, not that nothing else is; every result is only shown to span both operands.
- Solutions.Registry.FindAllSolutions: states that the whole number and the joins of the two part numbers at each split point are found. The joins of the other solutions of the parts are only shown to span the digits.
- Solutions.Registry.AllUnary: states the formulas it adds only for ±1; otherwise only that the registry grows, and only at keys over s's digits. The formulas added are those of the `Unary` calls, each stated by `Unary`.
- Solutions.Registry.AllUnaryGeneral: states only that the registry grows, and only at keys over s's digits, not which formulas are added.
- Solutions.Registry.Reachable: states only that the registry grows, and only at keys over t's digits, not which formulas are added.
- Solutions.Registry.Factorials: states only that the registry grows, and only at keys over t's digits, not which formulas are added.
- Solutions.Registry.SquareRoots: states only that the registry grows, and only at keys over t's digits, not which formulas are added.
- Solutions.Registry.AllBinary: states only that the registry grows, and only at keys over the operands' digits, not which formulas are added.
- Solutions.Registry.Combine: states only that the registry grows, and only at keys over the operands' digits, not which formulas are added.
- Solutions.Registry.CombineEach: states only that the registry grows, and only at keys over the operands' digits, not which formulas are added.
- Solutions.Registry.CombineWith: states only that the registry grows, and only at keys over the operands' digits, not which formulas are added.
- Solutions.Registry.JoinEach: states only that the registry grows, and only at the key over both operands' digits, not which formulas are added.
- Solutions.Registry.FindAllSolutions: beyond the whole number's key, states only that the registry grows inside the digits, not which formulas are added.
- Solutions.Registry.AllSplits: states only that the registry grows inside the digits, not which formulas are added.
- Solutions.Registry.Split: states only that the registry grows inside the digits, not which formulas are added.
- Solutions.Registry.SplitRow: states only that the registry grows between the left solution's first digit and the last digit, not which formulas are added.
- int64 arithmetic is unbounded here. Overflow in `Add`, `Mul` and `Div` of fractions, and in the factorial and power tables, is not modelled, except where Go checks for it: the factorial limit 20 and `pow`'s overflow test. A power equal to `MaxInt64` is refused like an overflow, as Go's callers cannot tell it from the sentinel.
- The floating-point estimates are modelled by their exact meaning: `math.Sqrt` above maxSqrt², the `math.Pow` root guess, and `pow`'s overflow test. `Value()` (a float conversion) is modelled as a real-valued `Value` used only in proofs. A float guess that misses an exact root by rounding is not modelled.
- IntMath.Pow: models `int64(math.Pow(a, b))` (math.go:97-101) as the exact power. `math.Pow` is only exact up to 2^53, so for larger results such as 3^34 Go may return a rounded value.
- IntMath.Pow: refuses 2^63 and (-2)^63. In Go, `math.Pow(2, 63)` equals `float64(MaxInt64)`, so it passes the overflow test and its conversion to int64 is out of range; (-2)^63 converts to the valid `MinInt64`.
- `pow` with a negative exponent is never reached from the fraction code. It is modelled as the truncated float result: ±1 for a base of magnitude 1, else 0.
- The regular expression `^\s*-?[0-9]+(/[0-9]+)?` is replaced by a hand scanner of the same language. Leading white space is already trimmed.
- Go strings are bytes; here they are sequences of characters. `TrimSpace` uses Unicode white space as Go does.
- `strconv.Atoi`'s int64 range check is not modelled.
- `main`, `atoi`, `Print` and the `SolutionSlice` sort plumbing are not part of this model. They are I/O and output formatting.
- `digits.go` (command-line handling) is not part of this model.
- Rational.PowEvenIgnoresSigns: states sign independence for whole even exponents only, not for fractional even exponents, which the normalizing Pow never produces.
- In `Simplify`, node.go:336 tests `err` where `err1` is evidently meant. The precondition that the tree evaluates makes both branches unreachable, so the slip has no effect in this model.
- `rat.go` duplicates `math.go` and `rational.go` under other names. It is covered by the same modules.

## Findings

| source | as written | input that shows it | evidently intended | confidence | as-written member | corrected member |
|---|---|---|---|---|---|---|
| rational.go:145-152 (and rat.go:229-236) | `Less` negates the cross-product test whenever the product of the denominators is not positive, so for denominators of opposite sign it answers "less or equal", not "less" | `Less(1/2, -1/-2)` and `Less(-1/-2, 1/2)` are both true, though the values are equal | a strict comparison of values for any non-zero denominators | not executed | Rational.LessAsWrittenIsNotStrict | Rational.LessExactMeans |
| solution.go:143-152 (with rational.go:135-136) | `Unary(OpFact)` on a solution of value 2 returns that same solution, since 2! = 2, so the loop that repeats the factorial until it gives NoSolution never ends | the digits "2": `FindAllSolutions` (solution.go:227) calls `AllUnary` on the number 2, which enters the factorial loop and never leaves it; the same happens in the square-root branch for "4", through sqrt(4) = 2 | the loop ends, as `fact` in math.go:31 refusing 1 and 2 suggests: stop when the factorial gives back its argument | medium; not executed | Solutions.FactLoopAsWrittenNeverEnds | Solutions.FactLoopCorrectedStops |
| solution.go:127-130 | for 1 and -1, `AllUnary` returns -s without calling `Unary`, so no formula is registered for -s | digits "1" with range -1..1: `main` (digits.go:11-16) prints a line for -1, but `Print` finds no formula for it in `solutions` (solution.go:215), so the line is empty | -s registered through `Unary(OpMinus)` like every other unary result | medium; not executed | UnitNegation.AsWrittenLeavesMinusOneBare | UnitNegation.CorrectedGivesMinusOneAFormula |
