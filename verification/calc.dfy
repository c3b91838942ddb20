/**
 * The closed-enum design (src/value.rs and src/expression.rs): a `Value` is
 * an i128 fraction, a wrapped expression or `Undefined`; an `Expression` is
 * a tree over values and variable names. The two types refer to each other,
 * so they live in one module.
 *
 * Integers are unbounded (i128 overflow is not modelled). Rust's `/`
 * panics on a zero divisor, and `num`'s gcd(0, 0) is 0, so reducing the
 * fraction 0/0 panics: every value operation `requires` what keeps it from
 * panicking, and the tree walks, which cannot know in advance, return
 * `Panics` exactly where an operation's requirement fails.
 */
module Calc {
  import opened Prelude
  import opened Integers
  import opened Numerals

  datatype Value =
    | Rational(num: int, den: int)
    | Expression(expression: Expression)
    | Undefined

  datatype Expression =
    | Value(value: Value)
    | Variable(name: string)
    | Addition(lhs: Expression, rhs: Expression)
    | Subtraction(lhs: Expression, rhs: Expression)
    | Multiplication(lhs: Expression, rhs: Expression)
    | Division(lhs: Expression, rhs: Expression)
    | Negation(inner: Expression)
    | Factorial(inner: Expression)
    | Equals(lhs: Expression, rhs: Expression)

  datatype ValueError = BadVariant(value: Value) | BadValue(value: Value)

  /** The error of `Value::from_str`: the whole text that failed. */
  datatype ValueParseError = ValueParseError(text: string)

  datatype EvaluationError = CantEvaluateVariant

  /** The variable binding; a name that is absent evaluates to `Undefined`. */
  type VariableMap = map<string, Value>

  // ---------------------------------------------------------------------
  // Fractions

  /** A fraction whose parts have no common factor above one. */
  predicate Canonical(v: Value)
  {
    v.Rational? && Gcd(v.num, v.den) == 1
  }

  predicate SameSign(x: int, y: int)
  {
    (x > 0 <==> y > 0) && (x < 0 <==> y < 0)
  }

  /**
   * `simplify_rational`: a `Rational` divided through by the gcd of its
   * parts, which leaves the same ratio in canonical form and keeps the sign
   * of each part; any other variant is `BadVariant`.
   */
  function SimplifyRational(value: Value): (r: Result<Value, ValueError>)
    requires value.Rational? ==> Reducible(value.num, value.den)
    ensures value.Rational? <==> r.Ok?
    ensures !value.Rational? ==> r == Err(BadVariant(value))
    ensures r.Ok? ==> r.value.Rational? && Canonical(r.value)
    ensures r.Ok? ==> r.value.num * value.den == value.num * r.value.den
    ensures r.Ok? ==> SameSign(r.value.num, value.num) && SameSign(r.value.den, value.den)
  {
    if value.Rational? then
      var g := Gcd(value.num, value.den);
      DivideByGcd(value.num, value.den);
      TruncDivByDivisor(value.num, g);
      TruncDivByDivisor(value.den, g);
      var n, d := TruncDiv(value.num, g), TruncDiv(value.den, g);
      CrossOfReduced(value.num, value.den, n, d, g);
      Ok(Rational(n, d))
    else
      Err(BadVariant(value))
  }

  lemma CrossOfReduced(n: int, d: int, n': int, d': int, g: int)
    requires n' * g == n && d' * g == d
    ensures n' * d == n * d'
  {
    calc {
      n' * d;
      n' * (d' * g);
      (n' * g) * d';
      n * d';
    }
  }

  /**
   * `simplify_rational_mut`: rewrites a `Rational` in place with the
   * reduced parts and leaves any other variant as it was.
   */
  method SimplifyRationalMut(value: Value) returns (updated: Value)
    requires value.Rational? ==> Reducible(value.num, value.den)
    ensures value.Rational? ==> Canonical(updated) && updated.num * value.den == value.num * updated.den
    ensures value.Rational? ==> SameSign(updated.num, value.num) && SameSign(updated.den, value.den)
    ensures !value.Rational? ==> updated == value
  {
    updated := value;
    if updated.Rational? {
      var gcf := Gcd(updated.num, updated.den);
      DivideByGcd(updated.num, updated.den);
      TruncDivByDivisor(updated.num, gcf);
      TruncDivByDivisor(updated.den, gcf);
      var numerator := TruncDiv(updated.num, gcf);
      var denominator := TruncDiv(updated.den, gcf);
      CrossOfReduced(value.num, value.den, numerator, denominator, gcf);
      updated := Rational(numerator, denominator);
    }
  }

  /** `From<i128>`: the integer over one, which is already canonical. */
  function FromInt(n: int): (r: Value)
    ensures Canonical(r) && r.num == n && r.den == 1
  {
    Rational(n, 1)
  }

  /**
   * `Value::from_str`: the text before the first '.' and the text after it
   * are each parsed as an i128; with `F` the part after the point,
   * `10^ilog10(F)` (or 1 when `F` is not positive) is the denominator and
   * `I * denominator + F` the numerator. The denominator is a power of ten
   * derived from the magnitude of `F`, not from its digit count.
   */
  function FromStr(s: string): (r: Result<Value, ValueParseError>)
    ensures r.Err? ==> r.error == ValueParseError(s)
    ensures r.Ok? ==> r.value.Rational? && r.value.den > 0
  {
    var (integerText, decimalText) :=
      match SplitOnce(s, '.')
      case Some((before, after)) => (before, Some(after))
      case None => (s, None);
    match ParseI128(integerText)
    case None => Err(ValueParseError(s))
    case Some(integer) =>
      var decimal :=
        match decimalText
        case Some(text) => ParseI128(text)
        case None => Some(0);
      match decimal
      case None => Err(ValueParseError(s))
      case Some(fraction) =>
        var exponent := if fraction > 0 then ILog10(fraction) else 0;
        Ok(Rational(integer * Pow10(exponent) + fraction, Pow10(exponent)))
  }

  // ---------------------------------------------------------------------
  // Arithmetic

  /** `+` and `-` divide a common multiple by each denominator, so both must be nonzero. */
  predicate HaveDenominators(a: Value, b: Value)
  {
    a.Rational? && b.Rational? ==> a.den != 0 && b.den != 0
  }

  predicate MulDefined(a: Value, b: Value)
  {
    a.Rational? && b.Rational? ==> Reducible(a.num * b.num, a.den * b.den)
  }

  predicate DivDefined(a: Value, b: Value)
  {
    a.Rational? && b.Rational? ==> Reducible(a.num * b.den, a.den * b.num)
  }

  predicate NegDefined(a: Value)
  {
    a.Rational? ==> Reducible(a.num, a.den)
  }

  /**
   * `Add`: both numerators scaled to the lcm of the denominators, summed
   * and reduced. The result is the sum of the two fractions, canonical,
   * over a positive denominator; anything but two `Rational`s is `Undefined`.
   */
  function Add(a: Value, b: Value): (r: Value)
    requires HaveDenominators(a, b)
    ensures !(a.Rational? && b.Rational?) ==> r == Undefined
    ensures a.Rational? && b.Rational? ==>
      && Canonical(r) && r.den > 0
      && r.num * (a.den * b.den) == (a.num * b.den + b.num * a.den) * r.den
  {
    match (a, b)
    case (Rational(n1, d1), Rational(n2, d2)) =>
      var common := Lcm(d1, d2);
      var q1, q2 := TruncDiv(common, d1), TruncDiv(common, d2);
      var r := SimplifyRational(Rational(n1 * q1 + n2 * q2, common)).value;
      OverCommonDenominator(n1, d1, n2, d2, common, q1, q2, r.num, r.den);
      r
    case _ => Undefined
  }

  /** `Sub`: as `Add`, with the second scaled numerator subtracted. */
  function Sub(a: Value, b: Value): (r: Value)
    requires HaveDenominators(a, b)
    ensures !(a.Rational? && b.Rational?) ==> r == Undefined
    ensures a.Rational? && b.Rational? ==>
      && Canonical(r) && r.den > 0
      && r.num * (a.den * b.den) == (a.num * b.den - b.num * a.den) * r.den
  {
    match (a, b)
    case (Rational(n1, d1), Rational(n2, d2)) =>
      var common := Lcm(d1, d2);
      var q1, q2 := TruncDiv(common, d1), TruncDiv(common, d2);
      var r := SimplifyRational(Rational(n1 * q1 - n2 * q2, common)).value;
      assert n1 * q1 - n2 * q2 == n1 * q1 + (-n2) * q2;
      OverCommonDenominator(n1, d1, -n2, d2, common, q1, q2, r.num, r.den);
      assert -n2 * d1 == -(n2 * d1);
      r
    case _ => Undefined
  }

  /** The cross-multiplied sum over a common multiple of the denominators is the sum of the fractions. */
  lemma OverCommonDenominator(n1: int, d1: int, n2: int, d2: int, l: int, q1: int, q2: int, rn: int, rd: int)
    requires l != 0 && q1 * d1 == l && q2 * d2 == l
    requires rn * l == (n1 * q1 + n2 * q2) * rd
    ensures rn * (d1 * d2) == (n1 * d2 + n2 * d1) * rd
  {
    CofactorProduct(n1, q1, d1, d2, l);
    CofactorProduct(n2, q2, d2, d1, l);
    assert d2 * d1 == d1 * d2;
    assert (n1 * q1 + n2 * q2) * (d1 * d2) == (n1 * q1) * (d1 * d2) + (n2 * q2) * (d1 * d2);
    assert l * (n1 * d2 + n2 * d1) == l * (n1 * d2) + l * (n2 * d1);
    CrossCancel(rn, rd, d1 * d2, l, n1 * q1 + n2 * q2, n1 * d2 + n2 * d1);
  }

  /** A numerator scaled by the cofactor `q` of `d` in `l`, over `d * e`, is `l` times the numerator over `e`. */
  lemma CofactorProduct(n: int, q: int, d: int, e: int, l: int)
    requires q * d == l
    ensures (n * q) * (d * e) == l * (n * e)
  {
    calc {
      (n * q) * (d * e);
      n * ((q * d) * e);
      n * (l * e);
      l * (n * e);
    }
  }

  /** `rn/rd == s/l` and `s/d == t/l` give `rn/rd == t/d`, written without division. */
  lemma CrossCancel(rn: int, rd: int, d: int, l: int, s: int, t: int)
    requires l != 0 && rn * l == s * rd && s * d == l * t
    ensures rn * d == t * rd
  {
    calc {
      (rn * d) * l;
      (rn * l) * d;
      (s * rd) * d;
      (s * d) * rd;
      (l * t) * rd;
      (t * rd) * l;
    }
    CancelFactor(rn * d, t * rd, l);
  }

  /** `Mul`: the product of the parts, reduced. */
  function Mul(a: Value, b: Value): (r: Value)
    requires MulDefined(a, b)
    ensures !(a.Rational? && b.Rational?) ==> r == Undefined
    ensures a.Rational? && b.Rational? ==>
      && Canonical(r) && SameSign(r.num, a.num * b.num) && SameSign(r.den, a.den * b.den)
      && r.num * (a.den * b.den) == (a.num * b.num) * r.den
  {
    match (a, b)
    case (Rational(n1, d1), Rational(n2, d2)) =>
      SimplifyRational(Rational(n1 * n2, d1 * d2)).value
    case _ => Undefined
  }

  /**
   * `Div`: numerator times the divisor's denominator over denominator times
   * the divisor's numerator, reduced. A zero divisor is not checked: it
   * yields a zero denominator.
   */
  function Div(a: Value, b: Value): (r: Value)
    requires DivDefined(a, b)
    ensures !(a.Rational? && b.Rational?) ==> r == Undefined
    ensures a.Rational? && b.Rational? ==>
      && Canonical(r) && SameSign(r.num, a.num * b.den) && SameSign(r.den, a.den * b.num)
      && r.num * (a.den * b.num) == (a.num * b.den) * r.den
  {
    match (a, b)
    case (Rational(n1, d1), Rational(n2, d2)) =>
      SimplifyRational(Rational(n1 * d2, d1 * n2)).value
    case _ => Undefined
  }

  /** `Neg`: the numerator negated over the same denominator, reduced. */
  function Neg(a: Value): (r: Value)
    requires NegDefined(a)
    ensures !a.Rational? ==> r == Undefined
    ensures a.Rational? ==>
      && Canonical(r) && SameSign(r.den, a.den) && SameSign(r.num, -a.num)
      && r.num * a.den == -a.num * r.den
  {
    match a
    case Rational(n, d) => SimplifyRational(Rational(-n, d)).value
    case _ => Undefined
  }

  /** 2 * 3 * ... * n, the empty product being 1. */
  function Fact(n: nat): (p: nat)
    ensures p >= 1
  {
    if n <= 1 then 1 else n * Fact(n - 1)
  }

  /**
   * `Value::factorial`: defined on a `Rational` with a non-negative
   * numerator over a denominator of exactly 1; everything else is
   * `Undefined`.
   */
  function FactorialOf(v: Value): (r: Value)
    ensures r.Rational? <==> v.Rational? && v.num >= 0 && v.den == 1
    ensures r.Rational? ==> r.den == 1 && r.num >= 1 && r.num >= v.num
  {
    match v
    case Rational(n, d) =>
      if n < 0 || d != 1 then Undefined
      else FactAtLeast(n); Rational(Fact(n), d)
    case _ => Undefined
  }

  lemma {:induction false} FactAtLeast(n: nat)
    ensures Fact(n) >= n
  {
    if n > 1 {
      FactAtLeast(n - 1);
      assert n * Fact(n - 1) >= n * 1;
    }
  }

  /** `Value::factorial` as the source runs it: a running product over 2..=n. */
  method ValueFactorial(v: Value) returns (r: Value)
    ensures r == FactorialOf(v)
  {
    if !v.Rational? {
      return Undefined;
    }
    var numerator, denominator := v.num, v.den;
    if numerator < 0 || denominator != 1 {
      return Undefined;
    }
    var result := 1;
    var i := 2;
    while i <= numerator
      invariant 2 <= i && (i <= numerator + 1 || i == 2)
      invariant result == Fact(i - 1)
    {
      assert Fact(i) == i * Fact(i - 1);
      result := result * i;
      i := i + 1;
    }
    assert result == Fact(numerator);
    r := Rational(result, denominator);
  }

  /** `PartialEq`: cross-multiplication between two `Rational`s; false for every other pair. */
  predicate Eq(a: Value, b: Value)
    ensures Eq(a, b) ==> a.Rational? && b.Rational?
    ensures a.Rational? && a == b ==> Eq(a, b)
  {
    a.Rational? && b.Rational? && a.num * b.den == b.num * a.den
  }

  // ---------------------------------------------------------------------
  // Display

  /** `Display` for `Value`: "N" over a denominator of 1, "N/D" otherwise. */
  function Display(v: Value): (s: string)
    ensures v.Rational? ==> s != [] && ('/' in s <==> v.den != 1)
    ensures v.Rational? ==> '(' !in s && ')' !in s && '*' !in s
    ensures v.Undefined? ==> s == "undefined"
    decreases v
  {
    match v
    case Rational(n, d) =>
      NumberChars(n);
      NumberChars(d);
      if d == 1 then IntToString(n) else IntToString(n) + "/" + IntToString(d)
    case Expression(e) => Render(e)
    case Undefined => "undefined"
  }

  /**
   * `Display` for `Expression`: binary nodes in parentheses, except that a
   * product is written by juxtaposition when its left side is a value or
   * both sides are variables.
   */
  function Render(e: Expression): (s: string)
    ensures (e.Addition? || e.Subtraction? || e.Division? || e.Equals?) ==>
      |s| >= 2 && s[0] == '(' && s[|s| - 1] == ')'
    ensures e.Negation? ==> |s| >= 3 && s[..2] == "-(" && s[|s| - 1] == ')'
    ensures e.Factorial? ==> |s| >= 3 && s[0] == '(' && s[|s| - 2..] == ")!"
    decreases e
  {
    match e
    case Value(v) => Display(v)
    case Variable(n) => n
    case Addition(a, b) => "(" + Render(a) + " + " + Render(b) + ")"
    case Subtraction(a, b) => "(" + Render(a) + " - " + Render(b) + ")"
    case Multiplication(a, b) =>
      (match (a, b)
       case (Value(x), Variable(y)) => Display(x) + y
       case (Variable(x), Variable(y)) => x + y
       case (Value(x), _) => Display(x) + Render(b)
       case _ => "(" + Render(a) + " * " + Render(b) + ")")
    case Division(a, b) => "(" + Render(a) + " / " + Render(b) + ")"
    case Negation(x) => "-(" + Render(x) + ")"
    case Factorial(x) => "(" + Render(x) + ")!"
    case Equals(a, b) => "(" + Render(a) + " = " + Render(b) + ")"
  }

  // ---------------------------------------------------------------------
  // Simplification and evaluation

  datatype BinaryOp = Plus | Minus | Times | Over

  /** What the value operation of `op` needs in order not to panic. */
  predicate CanApply(op: BinaryOp, x: Value, y: Value)
  {
    match op
    case Plus => HaveDenominators(x, y)
    case Minus => HaveDenominators(x, y)
    case Times => MulDefined(x, y)
    case Over => DivDefined(x, y)
  }

  /** The value operation of `op`, panicking where it would. */
  function Apply(op: BinaryOp, x: Value, y: Value): (r: Run<Value>)
    ensures r.Returns? <==> CanApply(op, x, y)
  {
    if !CanApply(op, x, y) then Panics
    else
      match op
      case Plus => Returns(Add(x, y))
      case Minus => Returns(Sub(x, y))
      case Times => Returns(Mul(x, y))
      case Over => Returns(Div(x, y))
  }

  /** The tree node of `op`. */
  function Rebuild(op: BinaryOp, a: Expression, b: Expression): Expression
  {
    match op
    case Plus => Addition(a, b)
    case Minus => Subtraction(a, b)
    case Times => Multiplication(a, b)
    case Over => Division(a, b)
  }

  /** A binary arithmetic node with two `Value` children: what one step of simplification folds. */
  predicate IsFoldable(e: Expression)
  {
    (e.Addition? || e.Subtraction? || e.Multiplication? || e.Division?)
      && e.lhs.Value? && e.rhs.Value?
  }

  /** No foldable node anywhere in the tree (values are not looked into). */
  predicate Folded(e: Expression)
  {
    match e
    case Value(_) => true
    case Variable(_) => true
    case Addition(a, b) => Folded(a) && Folded(b) && !IsFoldable(e)
    case Subtraction(a, b) => Folded(a) && Folded(b) && !IsFoldable(e)
    case Multiplication(a, b) => Folded(a) && Folded(b) && !IsFoldable(e)
    case Division(a, b) => Folded(a) && Folded(b) && !IsFoldable(e)
    case Negation(x) => Folded(x)
    case Factorial(x) => Folded(x)
    case Equals(a, b) => Folded(a) && Folded(b)
  }

  /** The last step of simplifying a binary node, given its simplified children. */
  function Combine(op: BinaryOp, sa: Run<Expression>, sb: Run<Expression>): (r: Run<Expression>)
    ensures sa.Returns? && sb.Returns? && Folded(sa.value) && Folded(sb.value) && r.Returns? ==> Folded(r.value)
  {
    match (sa, sb)
    case (Returns(Value(x)), Returns(Value(y))) =>
      (match Apply(op, x, y)
       case Returns(v) => Returns(Value(v))
       case Panics => Panics)
    case (Returns(a), Returns(b)) => Returns(Rebuild(op, a, b))
    case _ => Panics
  }

  /**
   * `Expression::simplified`, one bottom-up pass: values and variables are
   * kept, a binary node whose simplified children are both values is folded
   * into one value, every other node is rebuilt over its simplified
   * children; negation and factorial are never folded. What it returns
   * holds no foldable node.
   */
  function Simplified(e: Expression): (r: Run<Expression>)
    ensures r.Returns? ==> Folded(r.value)
    ensures e.Value? || e.Variable? ==> r == Returns(e)
    decreases e
  {
    match e
    case Value(v) => Returns(Value(v))
    case Variable(n) => Returns(Variable(n))
    case Addition(a, b) => Combine(Plus, Simplified(a), Simplified(b))
    case Subtraction(a, b) => Combine(Minus, Simplified(a), Simplified(b))
    case Multiplication(a, b) => Combine(Times, Simplified(a), Simplified(b))
    case Division(a, b) => Combine(Over, Simplified(a), Simplified(b))
    case Negation(x) =>
      (match Simplified(x)
       case Returns(s) => Returns(Negation(s))
       case Panics => Panics)
    case Factorial(x) =>
      (match Simplified(x)
       case Returns(s) => Returns(Factorial(s))
       case Panics => Panics)
    case Equals(a, b) =>
      (match (Simplified(a), Simplified(b))
       case (Returns(sa), Returns(sb)) => Returns(Equals(sa, sb))
       case _ => Panics)
  }

  /** `Expression::simplify`: the tree is overwritten with its simplified form. */
  method Simplify(self: Expression) returns (updated: Expression)
    requires Simplified(self).Returns?
    ensures Folded(updated)
    ensures updated == Simplified(self).value
  {
    updated := Simplified(self).value;
  }

  /** An `Equals` node anywhere in the tree (values are not looked into). */
  predicate ContainsEquals(e: Expression)
  {
    match e
    case Value(_) => false
    case Variable(_) => false
    case Addition(a, b) => ContainsEquals(a) || ContainsEquals(b)
    case Subtraction(a, b) => ContainsEquals(a) || ContainsEquals(b)
    case Multiplication(a, b) => ContainsEquals(a) || ContainsEquals(b)
    case Division(a, b) => ContainsEquals(a) || ContainsEquals(b)
    case Negation(x) => ContainsEquals(x)
    case Factorial(x) => ContainsEquals(x)
    case Equals(_, _) => true
  }

  /**
   * A binary node's evaluation from its operands' evaluations: the left
   * operand's error or panic comes first, then the right operand's, then
   * the value operation.
   */
  function EvaluateBinary(op: BinaryOp, ra: Run<Result<Value, EvaluationError>>,
                          rb: Run<Result<Value, EvaluationError>>): (r: Run<Result<Value, EvaluationError>>)
    ensures r.Returns? && r.value.Err? ==> (ra.Returns? && ra.value.Err?) || (rb.Returns? && rb.value.Err?)
  {
    match ra
    case Panics => Panics
    case Returns(Err(error)) => Returns(Err(error))
    case Returns(Ok(x)) =>
      match rb
      case Panics => Panics
      case Returns(Err(error)) => Returns(Err(error))
      case Returns(Ok(y)) =>
        match Apply(op, x, y)
        case Returns(v) => Returns(Ok(v))
        case Panics => Panics
  }

  /**
   * `Expression::evaluate`: variables are looked up (an absent name is
   * `Undefined`), operators apply the value operations, and an `Equals`
   * node cannot be evaluated. It fails only because of an `Equals` node,
   * and a tree holding one never evaluates to a value.
   */
  function Evaluate(e: Expression, m: VariableMap): (r: Run<Result<Value, EvaluationError>>)
    ensures r.Returns? && r.value.Err? ==> ContainsEquals(e) && r.value.error == CantEvaluateVariant
    ensures ContainsEquals(e) ==> !(r.Returns? && r.value.Ok?)
    decreases e
  {
    match e
    case Value(v) => Returns(Ok(v))
    case Variable(n) => Returns(Ok(if n in m then m[n] else Undefined))
    case Addition(a, b) => EvaluateBinary(Plus, Evaluate(a, m), Evaluate(b, m))
    case Subtraction(a, b) => EvaluateBinary(Minus, Evaluate(a, m), Evaluate(b, m))
    case Multiplication(a, b) => EvaluateBinary(Times, Evaluate(a, m), Evaluate(b, m))
    case Division(a, b) => EvaluateBinary(Over, Evaluate(a, m), Evaluate(b, m))
    case Negation(x) =>
      (match Evaluate(x, m)
       case Panics => Panics
       case Returns(Err(error)) => Returns(Err(error))
       case Returns(Ok(v)) => if NegDefined(v) then Returns(Ok(Neg(v))) else Panics)
    case Factorial(x) =>
      (match Evaluate(x, m)
       case Panics => Panics
       case Returns(Err(error)) => Returns(Err(error))
       case Returns(Ok(v)) => Returns(Ok(FactorialOf(v))))
    case Equals(_, _) => Returns(Err(CantEvaluateVariant))
  }
}
