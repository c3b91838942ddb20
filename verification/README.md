# calconsteroids in Dafny

calconsteroids is a small calculator. It reads a LaTeX-like line, parses it into
an expression tree, simplifies the tree one pass at a time, evaluates it
against a variable binding and prints it back. The repository holds two
designs of the same core, and this project models both:

- **The closed-enum design** (`src/value.rs`, `src/expression.rs`, `src/parse.rs`)
  uses an i128 fraction `Value`, a nine-variant `Expression`, the one-pass
  simplifier `simplified`, the evaluator `evaluate`, the `Display` renderers,
  and `parse_pairs`, the Pratt parser over the grammar's pair tree.
  The modules are `Calc` (`calc.dfy`), `CalcParse` (`calc_parse.dfy`), and their
  properties `CalcProperties` and `CalcParseProperties`.
- **The trait-object design** (`src/value/rational.rs`, `src/value/undefined.rs`,
  `src/expression/*.rs`) uses a sign-and-magnitude `RationalValue` over `BigUint`,
  `UndefinedValue`, a value expression node, and the four binary expression nodes.
  Each trait is a closed datatype here, so `downcast_ref` becomes a `match`.
  The modules are `DynValue`, `DynExpression`, and their properties
  `DynProperties` and `DynExpressionProperties`.

Shared modules:

- `Prelude`: `Option`, `Result`, `Ordering`, and `Run`. A `Run<T>` is either
  `Returns(t)` or `Panics`.
- `Integers`: the `num` crate's `gcd` and `lcm`, Rust's truncating `/`, and `ilog10`.
- `Numerals`: the text conversions. These are `i128::from_str`,
  `BigUint::from_str` (underscores allowed between digits), `split_once`,
  `trim_end_matches('0')`, and decimal formatting.

How the source's failures are modelled:

- A value operation that would panic has a `requires`. This covers Rust's `/`
  by zero, an `unwrap` of `None`, `BigUint` underflow, and endless mutual
  recursion.
- The tree walks cannot know that in advance. They return `Panics` exactly
  where one of those requirements fails.
- Integers are unbounded.

Behaviour of the code that the model keeps, surprising or not:

- **Decimal literals, closed-enum design.** `Value::from_str` takes
  `ilog10` of the fractional part's integer value. It does not count the
  digits. So `"1.5"` reads as 6 (`CalcProperties.DecimalExample`), `"1.05"`
  reads as 6 too, `"1.0"` as 1, and the signed part of `"1.-5"` is accepted
  and gives -4.
- **Decimal literals, trait-object design.** `RationalValue::from_str` puts the
  NUMBER of fractional digits in the denominator. So `"1.5"` reads as 15/1,
  `"-2.50"` as -25/2, and `"0.0"` is an `Empty` error.
- **Division by zero.** Neither design checks for it. A zero divisor gives a
  zero denominator, not `Undefined` (`CalcProperties.DivisionByZeroNotCaught`).
- **Comparison ignores signs.** `RationalValue::cmp` compares magnitudes only
  (`DynProperties.CmpIgnoresSign`).
- **Unary nodes are not folded.** In the closed-enum `simplified`, negation
  and factorial nodes are never folded. A value's rendering can also lose
  structure: `1 * 2` renders as `12` (`CalcProperties.JuxtapositionExample`).
- **Sign reductions in `add` and `sub`.** The trait-object design reduces
  mixed signs by calling the other operation. Two negatives added, or a
  negative minus a positive, never end. A positive minus a larger positive
  underflows `BigUint` and panics. Every result that does come back is
  positive. Products and quotients are not reduced.

## Model

| member | source | states |
|---|---|---|
| Integers.GcdNat | src/value/rational.rs:100 | gcd is zero only for (0, 0), and gcd(0, b) = b |
| Integers.Gcd | src/value.rs:36 | num's gcd on i128: divides both magnitudes, zero only for (0, 0), gcd(0, b) = abs(b) |
| Integers.Lcm | src/value.rs:124 | num's lcm: a common multiple of both denominators, zero only if one is zero |
| Integers.TruncDiv | src/value.rs:125-126 | Rust's truncating `/`; its meaning is stated by TruncDivTowardZero and TruncDivRemainder |
| Integers.TruncDivExact | src/value.rs:125-126 | Rust's truncating `/` gives the exact quotient of a multiple |
| Integers.TruncDivTowardZero | src/value.rs:125-126 | Rust's `/`: the quotient's magnitude is the quotient of the magnitudes, and it is negative only when exactly one operand is |
| Integers.TruncDivRemainder | src/value.rs:125-126 | what truncation leaves over is smaller than the divisor in magnitude and never of the opposite sign to the dividend |
| Integers.ILog10 | src/value.rs:92 | `checked_ilog10` of a positive n: 10^k <= n < 10^(k+1) |
| Numerals.NatToString | src/value/rational.rs:209 | non-empty decimal digits whose value is n, starting with '0' only for 0 |
| Numerals.IntToString | src/value.rs:232 | a minus sign only for negative n, then the digits of the magnitude |
| Numerals.IntToStringParses | src/value.rs:78 | `i128::from_str` reads back every integer's formatting |
| Numerals.ParseI128 | src/value.rs:78 | `i128::from_str`: a result only for non-empty text, non-negative unless it starts with '-' |
| Numerals.ParseBigUint | src/value/rational.rs:230 | `BigUint::from_str`: a result only if some character is a digit |
| Numerals.NatToStringParses | src/value/rational.rs:245 | `BigUint::from_str` reads back every number's formatting |
| Numerals.NoUnderscores | src/value/rational.rs:245 | removing underscores leaves plain digits unchanged |
| Numerals.SplitOnce | src/value.rs:72 | `split_once`: None iff the separator is absent, else the text before the first occurrence and the rest |
| Numerals.TrimTrailingZeros | src/value/rational.rs:229 | `trim_end_matches('0')`: the longest prefix not ending in '0', everything cut off is '0' |
| Numerals.WithoutUnderscores | src/value/rational.rs:230 | keeps every character except '_', adds none, and is shorter by exactly the number of '_' |
| Numerals.WithoutUnderscoresConcat | src/value/rational.rs:230 | removing the separators from joined text is joining the pieces without separators |
| Numerals.SeparatorBetween | src/value/rational.rs:230 | one '_' between two runs of digits is dropped and the runs are joined |
| Numerals.SeparatorsIgnored | src/value/rational.rs:245 | `BigUint::from_str("1_000")` is 1000 |
| Numerals.PlusSignDropped | src/value/rational.rs:245 | one leading '+' not followed by another is dropped before the digits are read |
| Calc.SimplifyRational | src/value.rs:43-50 | Ok iff a Rational; the result is canonical, has the same ratio, and keeps each part's sign; BadVariant otherwise |
| Calc.SimplifyRationalMut | src/value.rs:34-40 | in-place form: canonical with the same ratio for a Rational, anything else unchanged |
| Calc.FromInt | src/value.rs:52-57 | n over 1, canonical |
| Calc.FromStr | src/value.rs:70-104 | errors carry the whole input; a success is a Rational with a positive denominator |
| Calc.Add | src/value.rs:121-131 | Undefined unless both Rational; otherwise canonical with positive denominator and the ratio of the exact sum |
| Calc.Sub | src/value.rs:138-148 | the same for the exact difference |
| Calc.Mul | src/value.rs:155-163 | canonical, the ratio of the exact product, with the signs of its parts |
| Calc.Div | src/value.rs:170-178 | canonical, the ratio n1*d2 / d1*n2, with the signs of its parts |
| Calc.Neg | src/value.rs:185-192 | canonical, the ratio of minus the input |
| Calc.FactorialOf | src/value.rs:197-213 | a Rational exactly for non-negative whole inputs, then an integer at least 1 and at least n; its value 2·3·…·n is fixed by FactorialBase and FactorialRecurrence |
| Calc.ValueFactorial | src/value.rs:204-209 | the multiplying loop computes FactorialOf |
| Calc.Eq | src/value.rs:216-225 | cross-multiplication between two Rationals and false for any other pair: true only when both sides are Rationals, and every Rational equals itself; the other laws are in EqLaws |
| Calc.Display | src/value.rs:227-241 | a fraction's text contains '/' iff its denominator is not 1 and holds no parenthesis or '*'; Undefined is "undefined" |
| Calc.Render | src/expression.rs:120-139 | a sum, difference, quotient or equation is written inside "(" and ")", a negation as "-(" … ")", a factorial as "(" … ")!"; products are stated by RenderProduct and the whole tree by RenderCounts |
| Calc.Apply | src/value.rs:117-178 | a value operation returns iff its precondition holds |
| Calc.Combine | src/expression.rs:51-86 | folding two folded children keeps the result folded |
| Calc.Simplified | src/expression.rs:47-91 | a result holds no foldable node; values and variables are kept |
| Calc.Simplify | src/expression.rs:95-97 | the tree is replaced by its simplified form, which is folded |
| Calc.EvaluateBinary | src/expression.rs:107-110 | an error comes only from an operand's error |
| Calc.Evaluate | src/expression.rs:100-117 | fails only with CantEvaluateVariant for a tree holding Equals, which never evaluates to a value |
| CalcProperties.CanonicalUnique | src/value.rs:216-225 | two canonical fractions that are `==` with same-signed denominators are identical |
| CalcProperties.EqTransitive | src/value.rs:216-225 | `==` is transitive through a nonzero denominator |
| CalcProperties.SimplifyCanonical | src/value.rs:43-50 | reducing a canonical fraction changes nothing |
| CalcProperties.SimplifyRationalIdempotent | src/value.rs:43-50 | reducing twice is reducing once |
| CalcProperties.AddCommutative | src/value.rs:121-131 | a + b == b + a exactly |
| CalcProperties.MulCommutative | src/value.rs:155-163 | a * b == b * a exactly |
| CalcProperties.SubUndoesAdd | src/value.rs:121-148 | (a + b) - b == a, identical when a is canonical with a positive denominator |
| CalcProperties.MulUndoesDiv | src/value.rs:155-178 | (a / b) * b == a for a nonzero b |
| CalcProperties.SubSelfIsZero | src/value.rs:138-148 | a - a is 0/1 |
| CalcProperties.NegInvolutive | src/value.rs:185-192 | -(-a) is a reduced |
| CalcProperties.NegIsSubFromZero | src/value.rs:138-192 | -a == 0 - a for a positive denominator |
| CalcProperties.DivisionByZeroNotCaught | src/value.rs:170-178 | n / 0 is the fraction 1/0, not Undefined |
| CalcProperties.AddExample | src/value.rs:121-131 | 1/2 + 1/3 is 5/6 |
| CalcProperties.FactorialRecurrence | src/value.rs:197-213 | (n+1)! == (n+1) * n! |
| CalcProperties.FactorialBase | src/value.rs:197-213 | 0! and 1! are 1, 5! is 120, and -1 and 1/2 have no factorial (Undefined); with FactorialRecurrence this fixes n! for every n |
| CalcProperties.FactDivisible | src/value.rs:204-207 | every k in 1..n divides n! |
| CalcProperties.IntegerDisplayParses | src/value.rs:227-241 | an integer's display parses back to the same value |
| CalcProperties.DecimalRule | src/value.rs:70-104 | text "I.F" whose parts parse to i and f is i*10^k + f over 10^k, with k = ilog10(f) for a positive f and 0 otherwise |
| CalcProperties.DecimalParses | src/value.rs:91-100 | "i.f" with f positive and written plainly: the denominator is 10^ilog10(f), between f/10 and f, and the numerator is i times it plus f |
| CalcProperties.ZeroFraction | src/value.rs:92 | "1.0" is 1/1: a zero fractional part gives a denominator of 1 |
| CalcProperties.LeadingZerosLost | src/value.rs:84-100 | "1.05" parses exactly like "1.5", to 6 |
| CalcProperties.NegativeFraction | src/value.rs:84-100 | "1.-5" is accepted and is -4 |
| CalcProperties.DecimalExample | src/value.rs:70-104 | "1.5" parses to 6 |
| CalcProperties.FractionDisplayRejected | src/value.rs:227-241 | the display "N/D" of a non-integer does not parse |
| CalcProperties.EqLaws | src/value.rs:216-225 | `==` is symmetric, holds between a value and itself iff it is a Rational, and never with a non-Rational side, so Undefined != Undefined |
| CalcProperties.RenderProduct | src/expression.rs:127-132 | a product is written as its two sides side by side iff the left side is a value or both are variables, and as "(a * b)" otherwise |
| CalcProperties.RenderCounts | src/expression.rs:120-139 | when no variable name holds '(', ')' or '*', the text has one '(' and one ')' per node written in parentheses and one '*' per product not juxtaposed |
| CalcProperties.JuxtapositionExample | src/expression.rs:127-132 | 1 * 2 renders as the display of 12 |
| CalcProperties.SimplifiedIsFixpoint | src/expression.rs:47-91 | a folded tree simplifies to itself |
| CalcProperties.SimplifiedIdempotent | src/expression.rs:47-91 | a second pass gives back the first pass's tree |
| CalcProperties.SimplifyTwice | src/expression.rs:95-97 | calling simplify twice leaves the tree of calling it once |
| CalcProperties.SimplifyPreservesEvaluation | src/expression.rs:47-117 | the simplified tree evaluates exactly as the original |
| CalcProperties.SimplifyPanicsOnlyIfEvaluationDoes | src/expression.rs:47-117 | without Equals, if simplification panics, evaluation panics |
| CalcProperties.ArithmeticFoldsToValue | src/expression.rs:47-86 | a tree of values and binary operators simplifies to one value |
| CalcProperties.SimplifyEvaluatesArithmetic | src/expression.rs:47-117 | on such trees simplify panics iff evaluate does, and otherwise yields evaluate's value |
| CalcProperties.NoEquals | src/expression.rs:115 | arithmetic trees hold no Equals node |
| CalcParse.Operator | src/parse.rs:16-20 | exactly the seven operator rules have an affix and a binding power of at least 10 |
| CalcParse.ParsePairs | src/parse.rs:31-90 | a success needs non-empty input that starts with an operand or a prefix operator |
| CalcParse.Expr | src/parse.rs:89 | what is left after one expression is strictly shorter and starts at an operator that binds no tighter |
| CalcParse.ExprLoop | src/parse.rs:89 | the loop stops at the end or at an operator binding no tighter than `rbp` |
| CalcParse.MapPrimary | src/parse.rs:33-62 | a number is the Value node of `Value::from_str`'s result and succeeds iff it does; a variable is a Variable node; an implicit product is ImplicitProduct of the inner pairs; a parenthesised or whole expression is `parse_pairs` of its inner pairs; any other rule panics |
| CalcParse.ImplicitProduct | src/parse.rs:45-58 | succeeds only for at least one factor |
| CalcParse.ImplicitProductLoop | src/parse.rs:45-58 | the reversed loop builds the right-nested product ImplicitProduct describes |
| CalcParse.MapInfix | src/parse.rs:63-74 | succeeds iff the rule is one of the five infix operators, with the given sides: plus an Addition, minus a Subtraction, cdot and asterisk a Multiplication, slash a Division |
| CalcParse.MapPrefix | src/parse.rs:75-81 | succeeds iff the rule is negate |
| CalcParse.MapPostfix | src/parse.rs:82-88 | succeeds iff the rule is factorial |
| CalcParseProperties.ParsesEverything | src/parse.rs:89 | a successful parse at the outermost level consumes every pair |
| CalcParseProperties.ProductBindsTighter | src/parse.rs:17-18 | x + y · z is x + (y · z) |
| CalcParseProperties.ProductClosesBeforeSum | src/parse.rs:17-18 | x · y + z is (x · y) + z |
| CalcParseProperties.SubtractionGroupsLeft | src/parse.rs:17 | x - y - z is (x - y) - z |
| CalcParseProperties.DivisionGroupsLeft | src/parse.rs:18 | x / y / z is (x / y) / z |
| CalcParseProperties.QuotientBindsTighter | src/parse.rs:17-18 | x + y / z is x + (y / z) |
| CalcParseProperties.AsteriskBindsTighter | src/parse.rs:17-18 | x - y * z is x - (y * z) |
| CalcParseProperties.FactorialBindsTighterThanNegation | src/parse.rs:19-20 | -x! is -(x!) |
| CalcParseProperties.NegationBindsTighterThanSum | src/parse.rs:17-19 | -x + y is (-x) + y |
| CalcParseProperties.AdjacentOperandsPanic | src/parse.rs:89 | two operands without an operator make the parser panic |
| CalcParseProperties.ImplicitProductPanics | src/parse.rs:45-58 | an implicit product panics iff it is empty or one factor panics |
| CalcParseProperties.ImplicitProductKeepsFactors | src/parse.rs:54-56 | a product of n non-product factors has a right spine of n factors |
| CalcParseProperties.TwoXYExample | src/parse.rs:45-58 | "2xy" parses to 2 * (x * y), renders as "2xy", and evaluates to 24 at x = 3, y = 4 |
| DynValue.Sign.Opposite | src/value/rational.rs:16-21 | the other sign |
| DynValue.Sign.Xor | src/value/rational.rs:27-33 | Negative iff the signs differ |
| DynValue.Sign.ToBool | src/value/rational.rs:45-52 | true iff Negative |
| DynValue.SignFromBool | src/value/rational.rs:54-61 | the sign whose boolean is the given one |
| DynValue.RationalValue.SignedNumerator | src/value/rational.rs:65-69 | the value's signed numerator: the magnitude, negated for a negative sign |
| DynValue.RationalValue.Simplified | src/value/rational.rs:99-106 | same sign, coprime parts, same ratio, zero parts stay zero |
| DynValue.RationalValue.GetOpposite | src/value/rational.rs:108-114 | the opposite sign over the same magnitudes |
| DynValue.RationalValue.GetReciprocal | src/value/rational.rs:116-118 | the same sign with numerator and denominator swapped |
| DynValue.Value.Add | src/value/rational.rs:122-142 | Undefined with an undefined operand; otherwise a positive, coprime fraction of the exact sum's ratio |
| DynValue.Value.Sub | src/value/rational.rs:144-171 | the same for the exact difference |
| DynValue.Value.Mul | src/value/rational.rs:173-183 | the xor of the signs over the products of the parts, unreduced |
| DynValue.Value.Div | src/value/rational.rs:185-191 | the product with the reciprocal |
| DynValue.Value.Cmp | src/value/rational.rs:193-202 | None with an undefined side, otherwise the order of the cross products of the magnitudes |
| DynValue.Value.ToString | src/value/rational.rs:204-219 | non-empty and without parentheses; a fraction's text contains '/' iff its denominator is not 1 and starts with '-' iff its sign is negative; Undefined is "undefined" |
| DynValue.FromStr | src/value/rational.rs:225-249 | the sign of a success follows a leading '-' |
| DynValue.SumCommutes | src/value/rational.rs:122-142 | the sum's result relation is symmetric |
| DynValue.SumOfOpposite | src/value/rational.rs:124-125 | x - (-y) meets the specification of x + y |
| DynValue.DifferenceOfOpposite | src/value/rational.rs:146-147 | x + (-y) meets the specification of x - y |
| DynProperties.SignBoolRoundTrip | src/value/rational.rs:45-61 | bool to sign inverts sign to bool |
| DynProperties.XorCancels | src/value/rational.rs:27-33 | xor with the same sign twice gives back the first |
| DynProperties.XorSgn | src/value/rational.rs:27-33 | the xor of signs is their product as ±1 |
| DynProperties.SimplifyTest | src/value/rational.rs:258-267 | 6/4 simplifies to 3/2, which compares Equal |
| DynProperties.SimplifiedComparesEqual | src/value/rational.rs:99-106 | simplifying keeps the value Equal under cmp |
| DynProperties.CmpIgnoresSign | src/value/rational.rs:193-202 | flipping a sign changes no comparison |
| DynProperties.CmpAntisymmetric | src/value/rational.rs:193-202 | swapping the operands reverses the ordering |
| DynProperties.CmpEqualTransitive | src/value/rational.rs:193-202 | Equal is transitive through a nonzero denominator |
| DynProperties.AddCommutative | src/value/rational.rs:122-142 | a + b terminates iff b + a does, with the same result |
| DynProperties.SubUndoesAdd | src/value/rational.rs:122-171 | for positives, (x + y) - y terminates and compares Equal to x |
| DynProperties.MulAndDivUndo | src/value/rational.rs:173-191 | (a * b) / b and (a / b) * b keep a's sign and compare Equal to a |
| DynProperties.UndefinedAbsorbs | src/value/undefined.rs:12-36 | every operation with an undefined side is Undefined, cmp is None, the text is "undefined" |
| DynProperties.NegativeSumLoops | src/value/rational.rs:124-127 | two negatives never add, and a negative minus a positive never ends |
| DynProperties.UnderflowPanics | src/value/rational.rs:161-162 | 1 - 2 underflows |
| DynProperties.WholeNumberRoundTrip | src/value/rational.rs:204-249 | a whole number's text parses back to the same value |
| DynProperties.FractionTextRejected | src/value/rational.rs:204-249 | the text "N/D" is an InvalidDigit error |
| DynProperties.DigitsParse | src/value/rational.rs:245 | plain digits parse to their value |
| DynProperties.DecimalExamples | src/value/rational.rs:225-249 | "1.5" is 15/1, "-2.50" is -25/2, "0.0" is an Empty error |
| DynExpression.Expression.Simplified | src/expression/addition.rs:17-31 | a result is one value node; a value node is kept |
| DynExpression.Expression.ToString | src/expression/addition.rs:33-35 | a value node's text has no '(', and an operator node's text starts with '(' and ends with ')' |
| DynExpression.Apply | src/expression/addition.rs:27 | the value operation returns iff it neither panics nor loops |
| DynExpression.Fold | src/expression/addition.rs:23-29 | two value sides fold iff the operation returns, into a value node |
| DynExpressionProperties.SimplifiedIdempotent | src/expression/value.rs:23-25 | a second pass gives back the first |
| DynExpressionProperties.UndefinedPropagates | src/expression/addition.rs:17-31 | a tree that simplifies is undefined iff one of its leaves is |
| DynExpressionProperties.SimplifiedIsExact | src/expression/multiplication.rs:17-31 | the folded value has the exact fraction of the tree whenever no denominator on the way is zero |
| DynExpressionProperties.ApplyRepresents | src/expression/division.rs:27 | each value operation on exact operands has the exact result's ratio |
| DynExpressionProperties.ToStringParentheses | src/expression/subtraction.rs:33-35 | the text holds one pair of parentheses per operator node |
| DynExpressionProperties.NegativeSumPanics | src/expression/addition.rs:27 | (-1) + (-1) does not simplify |
| DynExpressionProperties.UnderflowPanicsInTree | src/expression/subtraction.rs:27 | 1 - 2 does not simplify |
| DynExpressionProperties.ProductNotReduced | src/expression/division.rs:17-31 | 2 * 3 / 4 simplifies to 6/4 |
| DynExpressionProperties.SumOfFractions | src/expression/addition.rs:17-31 | 1/2 + 1/3 simplifies to 5/6 |

## Left out

- `src/main.rs` is not part of this model. It reads a line, parses it and prints it: I/O.
- The pest grammar and `parse_latex` are not modelled. Their output, a tree of rule-tagged pairs, is the parser's input.
- pest's `PrattParser` is a library. It is written out in `CalcParse` from its documented behaviour: binding powers per level, left-associative infix, and prefix operands parsed one level lower.
- Closed-enum integer overflow: values are unbounded, so i128 overflow and its panics are not modelled.
- `Into<f64>`, `SolvingError`, `AsRef<bool>` for `Sign`, `Debug` and `Clone` are not modelled: floating point, or no behaviour.
- The `mod.rs` files only declare the traits. Their `downcast_ref` is a `match` here.
- `Run` models a panic and a loop that never ends as one outcome, `Panics`. The model does not tell a stack overflow from an arithmetic panic.
- DynValue.Value.Add: an operation that panics or never ends is excluded by `requires AddDefined`. `DynExpression.Apply` returns `Panics` for those inputs.
- DynValue.Value.Sub: the same, with `requires SubDefined`.
- Calc.Add: a zero denominator (a panic in Rust's `/` and in reducing 0/0) is excluded by `requires`. `Calc.Apply` returns `Panics` there.
- Calc.Mul, Calc.Div and Calc.Neg: the same; only the reduction of 0/0 panics.
- Calc.FromStr: the i128 range of the parts is not modelled. The decimal rule itself is stated by `CalcProperties.DecimalRule`.
- DynValue.FromStr: the contract states only the sign; its examples and round trips are the lemmas in `DynProperties`.
