/**
 * What the closed-enum design guarantees: reduced fractions are unique,
 * the arithmetic operators undo each other, factorial follows its
 * recurrence, the decimal parser and `Display` agree on integers, and one
 * pass of simplification is idempotent and keeps what the tree evaluates
 * to.
 */
module CalcProperties {
  import opened Prelude
  import opened Integers
  import opened Numerals
  import opened Calc

  // ---------------------------------------------------------------------
  // Canonical fractions

  /** Two reduced fractions of the same value whose denominators have the same sign are identical. */
  lemma CanonicalUnique(a: Value, b: Value)
    requires Canonical(a) && Canonical(b) && Eq(a, b)
    requires a.den != 0 && b.den != 0 && (a.den > 0 <==> b.den > 0)
    ensures a == b
  {
    var n1, d1, n2, d2 := a.num, a.den, b.num, b.den;
    AbsMul(n1, d2);
    AbsMul(n2, d1);
    DividesOther(Abs(d1), Abs(d2), Abs(n1), Abs(n2));
    DividesOther(Abs(d2), Abs(d1), Abs(n2), Abs(n1));
    DividesBounded(Abs(d1), Abs(d2));
    DividesBounded(Abs(d2), Abs(d1));
    assert d1 == d2;
    CancelFactor(n1, n2, d1);
  }

  lemma DividesOther(d1: nat, d2: nat, n1: nat, n2: nat)
    requires d1 > 0 && GcdNat(n1, d1) == 1 && n1 * d2 == n2 * d1
    ensures Divides(d1, d2)
  {
    MulDivExact(d1, n2);
    assert d2 * n1 == d1 * n2;
    CoprimeDivides(d1, n1, d2);
  }

  /** Two fractions equal to the same ratio `X / P` are equal to each other. */
  lemma SameRatio(rn: int, rd: int, sn: int, sd: int, p: int, x: int)
    requires p != 0 && rn * p == x * rd && sn * p == x * sd
    ensures rn * sd == sn * rd
  {
    calc {
      (rn * sd) * p;
      (rn * p) * sd;
      (x * rd) * sd;
      (x * sd) * rd;
      (sn * p) * rd;
      (sn * rd) * p;
    }
    CancelFactor(rn * sd, sn * rd, p);
  }

  /** Reducing a reduced fraction changes nothing. */
  lemma SimplifyCanonical(v: Value)
    requires Canonical(v)
    ensures SimplifyRational(v) == Ok(v)
  {
    TruncDivExact(v.num, 1, v.num);
    TruncDivExact(v.den, 1, v.den);
  }

  /** Reducing twice is reducing once. */
  lemma SimplifyRationalIdempotent(v: Value)
    requires v.Rational? && Reducible(v.num, v.den)
    ensures SimplifyRational(SimplifyRational(v).value) == SimplifyRational(v)
  {
    SimplifyCanonical(SimplifyRational(v).value);
  }

  /** `Eq` is transitive through a fraction with a nonzero denominator. */
  lemma EqTransitive(a: Value, b: Value, c: Value)
    requires Eq(a, b) && Eq(b, c) && b.den != 0
    ensures Eq(a, c)
  {
    RatioTransitive(a.num, a.den, b.num, b.den, c.num, c.den);
  }

  // ---------------------------------------------------------------------
  // Arithmetic

  lemma AddCommutative(a: Value, b: Value)
    requires HaveDenominators(a, b)
    ensures Add(a, b) == Add(b, a)
  {
    if a.Rational? && b.Rational? {
      var r, s := Add(a, b), Add(b, a);
      assert b.den * a.den == a.den * b.den;
      SameRatio(r.num, r.den, s.num, s.den, a.den * b.den, a.num * b.den + b.num * a.den);
      CanonicalUnique(r, s);
    }
  }

  lemma MulCommutative(a: Value, b: Value)
    requires MulDefined(a, b)
    ensures Mul(a, b) == Mul(b, a)
  {
    if a.Rational? && b.Rational? {
      assert a.num * b.num == b.num * a.num && a.den * b.den == b.den * a.den;
      assert Mul(a, b) == SimplifyRational(Rational(a.num * b.num, a.den * b.den)).value;
      assert Mul(b, a) == SimplifyRational(Rational(b.num * a.num, b.den * a.den)).value;
    }
  }

  /** Subtracting what was added gives back the same fraction. */
  lemma SubUndoesAdd(a: Value, b: Value)
    requires a.Rational? && b.Rational? && a.den != 0 && b.den != 0
    ensures Eq(Sub(Add(a, b), b), a)
    ensures Canonical(a) && a.den > 0 ==> Sub(Add(a, b), b) == a
  {
    var r := Add(a, b);
    var s := Sub(r, b);
    SubAfterAdd(a.num, a.den, b.num, b.den, r.num, r.den, s.num, s.den);
    if Canonical(a) && a.den > 0 {
      CanonicalUnique(s, a);
    }
  }

  lemma SubAfterAdd(na: int, da: int, nb: int, db: int, rn: int, rd: int, sn: int, sd: int)
    requires da != 0 && db != 0 && rd != 0
    requires rn * (da * db) == (na * db + nb * da) * rd
    requires sn * (rd * db) == (rn * db - nb * rd) * sd
    ensures sn * da == na * sd
  {
    // Both sides times `rd * db`, expanded and regrouped one step at a time.
    var x := rn * (da * db);
    calc {
      (sn * da) * (rd * db);
      { Regroup(sn, da, rd * db); }
      (sn * (rd * db)) * da;
      ((rn * db - nb * rd) * sd) * da;
      { ExpandDifference(rn, db, nb, rd, sd, da); }
      sd * x - sd * (nb * rd * da);
      sd * ((na * db + nb * da) * rd) - sd * (nb * rd * da);
      { ExpandSum(na, db, nb, da, rd, sd); }
      (na * sd) * (rd * db);
    }
    assert rd * db != 0;
    CancelFactor(sn * da, na * sd, rd * db);
  }

  lemma Regroup(x: int, y: int, z: int)
    ensures (x * y) * z == (x * z) * y
  {
  }

  lemma ExpandDifference(rn: int, db: int, nb: int, rd: int, sd: int, da: int)
    ensures ((rn * db - nb * rd) * sd) * da == sd * (rn * (da * db)) - sd * (nb * rd * da)
  {
    calc {
      ((rn * db - nb * rd) * sd) * da;
      (rn * db * sd - nb * rd * sd) * da;
      rn * db * sd * da - nb * rd * sd * da;
    }
  }

  lemma ExpandSum(na: int, db: int, nb: int, da: int, rd: int, sd: int)
    ensures sd * ((na * db + nb * da) * rd) - sd * (nb * rd * da) == (na * sd) * (rd * db)
  {
    calc {
      sd * ((na * db + nb * da) * rd);
      sd * (na * db * rd + nb * da * rd);
      sd * (na * db * rd) + sd * (nb * da * rd);
    }
  }

  /** Multiplying back by a nonzero divisor gives back the same fraction. */
  lemma MulUndoesDiv(a: Value, b: Value)
    requires a.Rational? && b.Rational? && a.den != 0 && b.den != 0 && b.num != 0
    ensures DivDefined(a, b) && MulDefined(Div(a, b), b)
    ensures Eq(Mul(Div(a, b), b), a)
  {
    assert a.den * b.num != 0;
    var r := Div(a, b);
    assert r.den != 0 && r.den * b.den != 0;
    var s := Mul(r, b);
    MulAfterDiv(a.num, a.den, b.num, b.den, r.num, r.den, s.num, s.den);
  }

  lemma MulAfterDiv(na: int, da: int, nb: int, db: int, rn: int, rd: int, sn: int, sd: int)
    requires da != 0 && db != 0 && nb != 0 && rd != 0
    requires rn * (da * nb) == (na * db) * rd
    requires sn * (rd * db) == (rn * nb) * sd
    ensures sn * da == na * sd
  {
    calc {
      (sn * da) * (rd * db * nb);
      (sn * (rd * db)) * (da * nb);
      ((rn * nb) * sd) * (da * nb);
      (rn * (da * nb)) * (sd * nb);
      ((na * db) * rd) * (sd * nb);
      (na * sd) * (rd * db * nb);
    }
    assert rd * db * nb != 0;
    CancelFactor(sn * da, na * sd, rd * db * nb);
  }

  /** A fraction minus itself is exactly `0/1`. */
  lemma SubSelfIsZero(a: Value)
    requires a.Rational? && a.den != 0
    ensures Sub(a, a) == FromInt(0)
  {
    var r := Sub(a, a);
    assert r.num * (a.den * a.den) == 0;
    assert a.den * a.den != 0;
  }

  /** Negating twice gives the reduced form of the original. */
  lemma NegInvolutive(a: Value)
    requires a.Rational? && a.den != 0
    ensures NegDefined(Neg(a)) && Neg(Neg(a)) == SimplifyRational(a).value
  {
    var r := Neg(a);
    var s := Neg(r);
    var t := SimplifyRational(a).value;
    assert (-r.num) * a.den == a.num * r.den;
    RatioTransitive(s.num, s.den, -r.num, r.den, a.num, a.den);
    RatioTransitive(s.num, s.den, a.num, a.den, t.num, t.den);
    CanonicalUnique(s, t);
  }

  /** Equality of ratios by cross-multiplication is transitive through a nonzero middle denominator. */
  lemma RatioTransitive(n1: int, d1: int, n2: int, d2: int, n3: int, d3: int)
    requires d2 != 0 && n1 * d2 == n2 * d1 && n2 * d3 == n3 * d2
    ensures n1 * d3 == n3 * d1
  {
    calc {
      (n1 * d3) * d2;
      (n1 * d2) * d3;
      (n2 * d1) * d3;
      (n2 * d3) * d1;
      (n3 * d2) * d1;
      (n3 * d1) * d2;
    }
    CancelFactor(n1 * d3, n3 * d1, d2);
  }

  /** Over a positive denominator, negation is subtraction from zero. */
  lemma NegIsSubFromZero(a: Value)
    requires a.Rational? && a.den > 0
    ensures Neg(a) == Sub(FromInt(0), a)
  {
    var r, s := Neg(a), Sub(FromInt(0), a);
    assert s.num * a.den == -a.num * s.den;
    SameRatio(r.num, r.den, s.num, s.den, a.den, -a.num);
    CanonicalUnique(r, s);
  }

  /** Division by a zero fraction is not caught: a positive integer over zero reduces to `1/0`. */
  lemma DivisionByZeroNotCaught(n: int)
    requires n > 0
    ensures DivDefined(FromInt(n), FromInt(0)) && Div(FromInt(n), FromInt(0)) == Rational(1, 0)
  {
    var r := Div(FromInt(n), FromInt(0));
    assert r.den == 0;
    assert Gcd(r.num, 0) == Abs(r.num);
  }

  /** `1/2 + 1/3` is `5/6`. */
  lemma AddExample()
    ensures Add(Rational(1, 2), Rational(1, 3)) == Rational(5, 6)
  {
    var r := Add(Rational(1, 2), Rational(1, 3));
    assert Gcd(5, 6) == 1;
    CanonicalUnique(r, Rational(5, 6));
  }

  // ---------------------------------------------------------------------
  // Factorial

  lemma GcdWithOne(n: int)
    ensures Gcd(n, 1) == 1
  {
    assert Abs(n) % 1 == 0;
  }

  /** `(n + 1)! == (n + 1) * n!`, as values. */
  lemma FactorialRecurrence(n: nat)
    ensures MulDefined(FromInt(n + 1), FactorialOf(FromInt(n)))
    ensures FactorialOf(FromInt(n + 1)) == Mul(FromInt(n + 1), FactorialOf(FromInt(n)))
  {
    var r := Mul(FromInt(n + 1), FactorialOf(FromInt(n)));
    GcdWithOne(Fact(n + 1));
    CanonicalUnique(FactorialOf(FromInt(n + 1)), r);
  }

  /**
   * The base cases and an example: 0! and 1! are 1, 5! is 120, and a
   * negative or fractional input is undefined.
   */
  lemma FactorialBase()
    ensures FactorialOf(FromInt(0)) == FromInt(1)
    ensures FactorialOf(FromInt(1)) == FromInt(1)
    ensures FactorialOf(FromInt(5)) == FromInt(120)
    ensures FactorialOf(FromInt(-1)) == Undefined
    ensures FactorialOf(Rational(1, 2)) == Undefined
  {
  }

  /** Every number from 1 to `n` divides `n!`. */
  lemma {:induction false} FactDivisible(n: nat, k: nat)
    requires 1 <= k <= n
    ensures Divides(k, Fact(n))
  {
    var f := Fact(n - 1);
    assert Fact(n) == n * f;
    if k == n {
      MulDivExact(n, f);
    } else {
      FactDivisible(n - 1, k);
      assert f * n == n * f;
      MulDivExact(f, n);
      DividesTransitive(k, f, Fact(n));
    }
  }

  // ---------------------------------------------------------------------
  // Text

  lemma IntToStringChars(n: int)
    ensures forall i :: 0 <= i < |IntToString(n)| ==> IsDigit(IntToString(n)[i]) || IntToString(n)[i] == '-'
    ensures forall i :: 1 <= i < |IntToString(n)| ==> IsDigit(IntToString(n)[i])
  {
    if n < 0 {
      var d := NatToString(-n);
      assert forall i :: 1 <= i < |IntToString(n)| ==> IntToString(n)[i] == d[i - 1];
    }
  }

  lemma {:induction false} SplitOnceFirst(a: string, c: char, b: string)
    requires c !in a
    ensures SplitOnce(a + [c] + b, c) == Some((a, b))
  {
    if a == [] {
      assert ([c] + b)[1..] == b;
    } else {
      assert (a + [c] + b)[1..] == a[1..] + [c] + b;
      SplitOnceFirst(a[1..], c, b);
      assert [a[0]] + a[1..] == a;
    }
  }

  /** The text of an integer value parses back to that value. */
  lemma IntegerDisplayParses(n: int)
    ensures FromStr(Display(FromInt(n))) == Ok(FromInt(n))
  {
    var s := IntToString(n);
    IntToStringChars(n);
    assert '.' !in s;
    IntToStringParses(n);
  }

  /**
   * The decimal rule: text `I.F` whose two parts parse as integers `i`
   * and `f` is `i * 10^k + f` over `10^k`, where `k` is `ilog10(f)` for a
   * positive `f` and 0 otherwise.
   */
  lemma DecimalRule(before: string, after: string, i: int, f: int)
    requires '.' !in before
    requires ParseI128(before) == Some(i) && ParseI128(after) == Some(f)
    ensures var k := if f > 0 then ILog10(f) else 0;
      FromStr(before + "." + after) == Ok(Rational(i * Pow10(k) + f, Pow10(k)))
  {
    SplitOnceFirst(before, '.', after);
    assert before + "." + after == before + ['.'] + after;
  }

  /**
   * A decimal `I.F`, with `F` written without leading zeros and positive,
   * parses to `I * 10^ilog10(F) + F` over `10^ilog10(F)`: the denominator is
   * the power of ten with `10^k <= F < 10^(k+1)`.
   */
  lemma DecimalParses(i: int, f: nat)
    requires f > 0
    ensures var r := FromStr(IntToString(i) + "." + NatToString(f));
      && r.Ok? && r.value.den == Pow10(ILog10(f))
      && r.value.num == i * Pow10(ILog10(f)) + f
      && r.value.den <= f < 10 * r.value.den
  {
    IntToStringChars(i);
    IntToStringParses(i);
    IntToStringParses(f);
    DecimalRule(IntToString(i), NatToString(f), i, f);
  }

  /** `1.5` parses to `6`: the digits after the point are added as an integer. */
  lemma DecimalExample()
    ensures FromStr("1.5") == Ok(Rational(6, 1))
  {
    DecimalParses(1, 5);
    assert IntToString(1) + "." + NatToString(5) == "1.5";
  }

  /** A zero fractional part adds nothing and leaves the denominator 1: `1.0` is `1`. */
  lemma ZeroFraction()
    ensures FromStr("1.0") == Ok(Rational(1, 1))
  {
    assert "0"[..0] == [];
    DecimalRule("1", "0", 1, 0);
    assert "1" + "." + "0" == "1.0";
  }

  /** Leading zeros after the point are lost: `1.05` parses like `1.5`, to `6`. */
  lemma LeadingZerosLost()
    ensures FromStr("1.05") == FromStr("1.5") == Ok(Rational(6, 1))
  {
    assert "05"[..1] == "0";
    assert DigitsValue("05") == 5;
    DecimalRule("1", "05", 1, 5);
    assert "1" + "." + "05" == "1.05";
    DecimalExample();
  }

  /** A signed fractional part is accepted and added with its sign: `1.-5` is `1 * 1 + (-5)`. */
  lemma NegativeFraction()
    ensures FromStr("1.-5") == Ok(Rational(-4, 1))
  {
    assert "-5"[1..] == "5";
    DecimalRule("1", "-5", 1, -5);
    assert "1" + "." + "-5" == "1.-5";
  }

  /** The text of a fraction whose denominator is not 1 is not accepted by the parser. */
  lemma FractionDisplayRejected(v: Value)
    requires v.Rational? && v.den != 1
    ensures FromStr(Display(v)).Err?
  {
    var s := Display(v);
    IntToStringChars(v.num);
    IntToStringChars(v.den);
    var k := |IntToString(v.num)|;
    assert s[k] == '/';
    assert '.' !in s;
    if s[0] == '+' || s[0] == '-' {
      assert s[1..][k - 1] == '/';
    } else {
      assert !IsDigit(s[k]);
    }
  }

  /** A product of two values is written by juxtaposition, so `1 * 2` renders as the number 12. */
  lemma JuxtapositionExample()
    ensures Render(Multiplication(Value(FromInt(1)), Value(FromInt(2)))) == Display(FromInt(12))
  {
    assert NatToString(12) == NatToString(1) + NatToString(2);
  }

  /** `PartialEq` holds only between two Rationals: symmetric, reflexive on fractions, never for `Undefined`. */
  lemma EqLaws(a: Value, b: Value)
    ensures Eq(a, b) == Eq(b, a)
    ensures Eq(a, a) <==> a.Rational?
    ensures !a.Rational? ==> !Eq(a, b)
    ensures !Eq(Undefined, Undefined)
  {
  }

  /** A product is written by juxtaposition when its left side is a value or both sides are variables. */
  predicate Juxtaposed(a: Expression, b: Expression)
  {
    a.Value? || (a.Variable? && b.Variable?)
  }

  /** The two ways `Display` writes a product. */
  lemma RenderProduct(a: Expression, b: Expression)
    ensures Juxtaposed(a, b) ==> Render(Multiplication(a, b)) == Render(a) + Render(b)
    ensures !Juxtaposed(a, b) ==> Render(Multiplication(a, b)) == "(" + Render(a) + " * " + Render(b) + ")"
  {
  }

  /** No variable name in the tree holds a parenthesis or an asterisk. */
  predicate PlainNames(e: Expression)
    decreases e
  {
    match e
    case Value(v) => PlainNamesIn(v)
    case Variable(n) => '(' !in n && ')' !in n && '*' !in n
    case Addition(a, b) => PlainNames(a) && PlainNames(b)
    case Subtraction(a, b) => PlainNames(a) && PlainNames(b)
    case Multiplication(a, b) => PlainNames(a) && PlainNames(b)
    case Division(a, b) => PlainNames(a) && PlainNames(b)
    case Negation(x) => PlainNames(x)
    case Factorial(x) => PlainNames(x)
    case Equals(a, b) => PlainNames(a) && PlainNames(b)
  }

  predicate PlainNamesIn(v: Value)
    decreases v
  {
    v.Expression? ==> PlainNames(v.expression)
  }

  /** How many nodes of the tree are written inside parentheses: all but variables, values and juxtaposed products. */
  function Parens(e: Expression): nat
    decreases e
  {
    match e
    case Value(v) => ParensIn(v)
    case Variable(_) => 0
    case Addition(a, b) => 1 + Parens(a) + Parens(b)
    case Subtraction(a, b) => 1 + Parens(a) + Parens(b)
    case Multiplication(a, b) => (if Juxtaposed(a, b) then 0 else 1) + Parens(a) + Parens(b)
    case Division(a, b) => 1 + Parens(a) + Parens(b)
    case Negation(x) => 1 + Parens(x)
    case Factorial(x) => 1 + Parens(x)
    case Equals(a, b) => 1 + Parens(a) + Parens(b)
  }

  function ParensIn(v: Value): nat
    decreases v
  {
    if v.Expression? then Parens(v.expression) else 0
  }

  /** How many products of the tree are not juxtaposed. */
  function Stars(e: Expression): nat
    decreases e
  {
    match e
    case Value(v) => StarsIn(v)
    case Variable(_) => 0
    case Addition(a, b) => Stars(a) + Stars(b)
    case Subtraction(a, b) => Stars(a) + Stars(b)
    case Multiplication(a, b) => (if Juxtaposed(a, b) then 0 else 1) + Stars(a) + Stars(b)
    case Division(a, b) => Stars(a) + Stars(b)
    case Negation(x) => Stars(x)
    case Factorial(x) => Stars(x)
    case Equals(a, b) => Stars(a) + Stars(b)
  }

  function StarsIn(v: Value): nat
    decreases v
  {
    if v.Expression? then Stars(v.expression) else 0
  }

  /** One of the three characters whose count `RenderCounts` gives. */
  predicate Marker(c: char)
  {
    c == '(' || c == ')' || c == '*'
  }

  /** The operator texts between the sides of a parenthesised node. */
  lemma OperatorCount(t: string, c: char)
    requires t in {" + ", " - ", " * ", " / ", " = "} && Marker(c)
    ensures Count(t, c) == (if t == " * " && c == '*' then 1 else 0)
  {
    if t == " * " && c == '*' {
      assert t == " " + "*" + " ";
      CountConcat(" " + "*", " ", c);
      CountConcat(" ", "*", c);
      assert Count(" ", c) == 0 && Count("*", c) == 1 by {
        assert " "[1..] == [] && "*"[1..] == [];
      }
    } else {
      CountAbsent(t, c);
    }
  }

  /** A parenthesised pair of sides adds one '(' and one ')' to theirs and no '*'. */
  lemma WrappedCount(x: string, t: string, y: string, c: char)
    requires Marker(c)
    ensures Count("(" + x + t + y + ")", c) == Count(x, c) + Count(t, c) + Count(y, c) + (if c == '*' then 0 else 1)
  {
    assert Count("(", c) + Count(")", c) == (if c == '*' then 0 else 1) by {
      assert "("[1..] == [] && ")"[1..] == [];
    }
    CountConcat("(", x, c);
    CountConcat("(" + x, t, c);
    CountConcat("(" + x + t, y, c);
    CountConcat("(" + x + t + y, ")", c);
  }

  /** `-(x)` and `(x)!` add one '(' and one ')' and no '*'. */
  lemma UnaryCount(x: string, c: char)
    requires Marker(c)
    ensures Count("-(" + x + ")", c) == Count(x, c) + (if c == '*' then 0 else 1)
    ensures Count("(" + x + ")!", c) == Count(x, c) + (if c == '*' then 0 else 1)
  {
    assert Count("-(", c) == Count("(", c) && Count(")!", c) == Count(")", c)
      && Count("(", c) + Count(")", c) == (if c == '*' then 0 else 1) by {
      assert "-("[1..] == "(" && "("[1..] == [] && ")!"[1..] == "!" && ")"[1..] == [] && "!"[1..] == [];
    }
    CountConcat("-(", x, c);
    CountConcat("-(" + x, ")", c);
    CountConcat("(", x, c);
    CountConcat("(" + x, ")!", c);
  }

  /**
   * `Display` writes one '(' and one ')' for every node it parenthesises
   * and one '*' for every product it does not juxtapose, as long as no
   * variable name holds those characters itself.
   */
  lemma {:induction false} RenderCounts(e: Expression, c: char)
    requires PlainNames(e) && Marker(c)
    ensures Count(Render(e), c) == (if c == '*' then Stars(e) else Parens(e))
    decreases e, 1
  {
    match e
    case Value(v) =>
      DisplayCounts(v, c);
    case Variable(n) =>
      CountAbsent(n, c);
    case Multiplication(a, b) =>
      ProductCounts(e, c);
    case Negation(x) =>
      UnaryCounts(e, c);
    case Factorial(x) =>
      UnaryCounts(e, c);
    case _ =>
      BinaryCounts(e, c);
  }

  /** The counts of a sum, difference, quotient or equation, from those of its sides. */
  lemma {:induction false} BinaryCounts(e: Expression, c: char)
    requires e.Addition? || e.Subtraction? || e.Division? || e.Equals?
    requires PlainNames(e) && Marker(c)
    ensures Count(Render(e), c) == (if c == '*' then Stars(e) else Parens(e))
    decreases e, 0
  {
    var a, b := e.lhs, e.rhs;
    var t := if e.Addition? then " + " else if e.Subtraction? then " - " else if e.Division? then " / " else " = ";
    assert Render(e) == "(" + Render(a) + t + Render(b) + ")";
    RenderCounts(a, c);
    RenderCounts(b, c);
    NodeCount(Render(a), t, Render(b), c);
  }

  /** The counts of a product: juxtaposed, it adds nothing to its sides; otherwise one pair and one '*'. */
  lemma {:induction false} ProductCounts(e: Expression, c: char)
    requires e.Multiplication? && PlainNames(e) && Marker(c)
    ensures Count(Render(e), c) == (if c == '*' then Stars(e) else Parens(e))
    decreases e, 0
  {
    var a, b := e.lhs, e.rhs;
    RenderProduct(a, b);
    RenderCounts(a, c);
    RenderCounts(b, c);
    if Juxtaposed(a, b) {
      CountConcat(Render(a), Render(b), c);
    } else {
      NodeCount(Render(a), " * ", Render(b), c);
    }
  }

  /** The counts of a negation or factorial: one pair more than its operand. */
  lemma {:induction false} UnaryCounts(e: Expression, c: char)
    requires (e.Negation? || e.Factorial?) && PlainNames(e) && Marker(c)
    ensures Count(Render(e), c) == (if c == '*' then Stars(e) else Parens(e))
    decreases e, 0
  {
    RenderCounts(e.inner, c);
    UnaryCount(Render(e.inner), c);
  }

  /** The text of a parenthesised binary node counts its sides, one pair and its operator. */
  lemma NodeCount(x: string, t: string, y: string, c: char)
    requires t in {" + ", " - ", " * ", " / ", " = "} && Marker(c)
    ensures Count("(" + x + t + y + ")", c)
      == Count(x, c) + Count(y, c) + (if c != '*' then 1 else if t == " * " then 1 else 0)
  {
    OperatorCount(t, c);
    WrappedCount(x, t, y, c);
  }

  /** A value's text: a fraction holds none of the three characters, an expression value counts as its tree. */
  lemma {:induction false} DisplayCounts(v: Value, c: char)
    requires PlainNamesIn(v) && Marker(c)
    ensures Count(Display(v), c) == (if c == '*' then StarsIn(v) else ParensIn(v))
    decreases v
  {
    match v
    case Rational(_, _) =>
      CountAbsent(Display(v), c);
    case Expression(e) =>
      RenderCounts(e, c);
    case Undefined =>
      CountAbsent("undefined", c);
  }

  // ---------------------------------------------------------------------
  // Simplification and evaluation

  /** A tree with nothing left to fold is its own simplification. */
  lemma {:induction false} SimplifiedIsFixpoint(e: Expression)
    requires Folded(e)
    ensures Simplified(e) == Returns(e)
  {
    match e
    case Value(_) =>
    case Variable(_) =>
    case Addition(a, b) => SimplifiedIsFixpoint(a); SimplifiedIsFixpoint(b);
    case Subtraction(a, b) => SimplifiedIsFixpoint(a); SimplifiedIsFixpoint(b);
    case Multiplication(a, b) => SimplifiedIsFixpoint(a); SimplifiedIsFixpoint(b);
    case Division(a, b) => SimplifiedIsFixpoint(a); SimplifiedIsFixpoint(b);
    case Negation(x) => SimplifiedIsFixpoint(x);
    case Factorial(x) => SimplifiedIsFixpoint(x);
    case Equals(a, b) => SimplifiedIsFixpoint(a); SimplifiedIsFixpoint(b);
  }

  /** A second pass of simplification changes nothing. */
  lemma SimplifiedIdempotent(e: Expression)
    requires Simplified(e).Returns?
    ensures Simplified(Simplified(e).value) == Simplified(e)
  {
    SimplifiedIsFixpoint(Simplified(e).value);
  }

  /** Simplifying in place twice leaves the tree of the first pass. */
  method SimplifyTwice(e: Expression) returns (once: Expression, twice: Expression)
    requires Simplified(e).Returns?
    ensures once == twice
  {
    once := Simplify(e);
    SimplifiedIsFixpoint(once);
    twice := Simplify(once);
  }

  /** Simplifying a binary node is combining its simplified children. */
  lemma SimplifiedRebuild(op: BinaryOp, a: Expression, b: Expression)
    ensures Simplified(Rebuild(op, a, b)) == Combine(op, Simplified(a), Simplified(b))
  {
    match op
    case Plus => assert Rebuild(op, a, b) == Addition(a, b);
    case Minus => assert Rebuild(op, a, b) == Subtraction(a, b);
    case Times => assert Rebuild(op, a, b) == Multiplication(a, b);
    case Over => assert Rebuild(op, a, b) == Division(a, b);
  }

  /** Evaluating a binary node is combining its children's evaluations. */
  lemma EvaluateRebuild(op: BinaryOp, a: Expression, b: Expression, m: VariableMap)
    ensures Evaluate(Rebuild(op, a, b), m) == EvaluateBinary(op, Evaluate(a, m), Evaluate(b, m))
  {
    match op
    case Plus =>
    case Minus =>
    case Times =>
    case Over =>
  }

  /** The node `Combine` returns evaluates as the operation applied to what its inputs evaluate to. */
  lemma CombineEvaluates(op: BinaryOp, sa: Run<Expression>, sb: Run<Expression>,
                         ra: Run<Result<Value, EvaluationError>>, rb: Run<Result<Value, EvaluationError>>, m: VariableMap)
    requires sa.Returns? ==> Evaluate(sa.value, m) == ra
    requires sb.Returns? ==> Evaluate(sb.value, m) == rb
    requires Combine(op, sa, sb).Returns?
    ensures Evaluate(Combine(op, sa, sb).value, m) == EvaluateBinary(op, ra, rb)
  {
    if !(sa.value.Value? && sb.value.Value?) {
      EvaluateRebuild(op, sa.value, sb.value, m);
    }
  }

  /** Where `Combine` panics and its inputs are evaluated without error, the operation panics too. */
  lemma CombinePanics(op: BinaryOp, sa: Run<Expression>, sb: Run<Expression>,
                      ra: Run<Result<Value, EvaluationError>>, rb: Run<Result<Value, EvaluationError>>, m: VariableMap)
    requires sa.Returns? ==> Evaluate(sa.value, m) == ra
    requires sb.Returns? ==> Evaluate(sb.value, m) == rb
    requires sa.Panics? ==> ra.Panics?
    requires sb.Panics? ==> rb.Panics?
    requires ra.Returns? ==> ra.value.Ok?
    requires Combine(op, sa, sb).Panics?
    ensures EvaluateBinary(op, ra, rb).Panics?
  {
  }

  lemma BinaryPreservesEvaluation(op: BinaryOp, a: Expression, b: Expression, m: VariableMap)
    requires Simplified(a).Returns? ==> Evaluate(Simplified(a).value, m) == Evaluate(a, m)
    requires Simplified(b).Returns? ==> Evaluate(Simplified(b).value, m) == Evaluate(b, m)
    requires Simplified(Rebuild(op, a, b)).Returns?
    ensures Evaluate(Simplified(Rebuild(op, a, b)).value, m) == Evaluate(Rebuild(op, a, b), m)
  {
    SimplifiedRebuild(op, a, b);
    EvaluateRebuild(op, a, b, m);
    CombineEvaluates(op, Simplified(a), Simplified(b), Evaluate(a, m), Evaluate(b, m), m);
  }

  /** Simplification keeps what the tree evaluates to, under every binding. */
  lemma {:induction false} SimplifyPreservesEvaluation(e: Expression, m: VariableMap)
    requires Simplified(e).Returns?
    ensures Evaluate(Simplified(e).value, m) == Evaluate(e, m)
  {
    match e
    case Value(_) =>
    case Variable(_) =>
    case Addition(a, b) =>
      if Simplified(a).Returns? { SimplifyPreservesEvaluation(a, m); }
      if Simplified(b).Returns? { SimplifyPreservesEvaluation(b, m); }
      BinaryPreservesEvaluation(Plus, a, b, m);
    case Subtraction(a, b) =>
      if Simplified(a).Returns? { SimplifyPreservesEvaluation(a, m); }
      if Simplified(b).Returns? { SimplifyPreservesEvaluation(b, m); }
      BinaryPreservesEvaluation(Minus, a, b, m);
    case Multiplication(a, b) =>
      if Simplified(a).Returns? { SimplifyPreservesEvaluation(a, m); }
      if Simplified(b).Returns? { SimplifyPreservesEvaluation(b, m); }
      BinaryPreservesEvaluation(Times, a, b, m);
    case Division(a, b) =>
      if Simplified(a).Returns? { SimplifyPreservesEvaluation(a, m); }
      if Simplified(b).Returns? { SimplifyPreservesEvaluation(b, m); }
      BinaryPreservesEvaluation(Over, a, b, m);
    case Negation(x) => SimplifyPreservesEvaluation(x, m);
    case Factorial(x) => SimplifyPreservesEvaluation(x, m);
    case Equals(_, _) =>
  }

  lemma BinaryPanics(op: BinaryOp, a: Expression, b: Expression, m: VariableMap)
    requires !ContainsEquals(a) && !ContainsEquals(b)
    requires Simplified(a).Panics? ==> Evaluate(a, m).Panics?
    requires Simplified(b).Panics? ==> Evaluate(b, m).Panics?
    requires Simplified(Rebuild(op, a, b)).Panics?
    ensures Evaluate(Rebuild(op, a, b), m).Panics?
  {
    SimplifiedRebuild(op, a, b);
    EvaluateRebuild(op, a, b, m);
    if Simplified(a).Returns? {
      SimplifyPreservesEvaluation(a, m);
    }
    if Simplified(b).Returns? {
      SimplifyPreservesEvaluation(b, m);
    }
    CombinePanics(op, Simplified(a), Simplified(b), Evaluate(a, m), Evaluate(b, m), m);
  }


  /**
   * Without `Equals` nodes, simplification panics only where evaluation
   * panics too, under every binding: it folds nothing evaluation would
   * not compute.
   */
  lemma {:induction false} SimplifyPanicsOnlyIfEvaluationDoes(e: Expression, m: VariableMap)
    requires !ContainsEquals(e) && Simplified(e).Panics?
    ensures Evaluate(e, m).Panics?
  {
    match e
    case Value(_) =>
    case Variable(_) =>
    case Addition(a, b) =>
      if Simplified(a).Panics? { SimplifyPanicsOnlyIfEvaluationDoes(a, m); }
      if Simplified(b).Panics? { SimplifyPanicsOnlyIfEvaluationDoes(b, m); }
      BinaryPanics(Plus, a, b, m);
    case Subtraction(a, b) =>
      if Simplified(a).Panics? { SimplifyPanicsOnlyIfEvaluationDoes(a, m); }
      if Simplified(b).Panics? { SimplifyPanicsOnlyIfEvaluationDoes(b, m); }
      BinaryPanics(Minus, a, b, m);
    case Multiplication(a, b) =>
      if Simplified(a).Panics? { SimplifyPanicsOnlyIfEvaluationDoes(a, m); }
      if Simplified(b).Panics? { SimplifyPanicsOnlyIfEvaluationDoes(b, m); }
      BinaryPanics(Times, a, b, m);
    case Division(a, b) =>
      if Simplified(a).Panics? { SimplifyPanicsOnlyIfEvaluationDoes(a, m); }
      if Simplified(b).Panics? { SimplifyPanicsOnlyIfEvaluationDoes(b, m); }
      BinaryPanics(Over, a, b, m);
    case Negation(x) => SimplifyPanicsOnlyIfEvaluationDoes(x, m);
    case Factorial(x) => SimplifyPanicsOnlyIfEvaluationDoes(x, m);
  }

  /** A tree of values under the four binary operators only. */
  predicate Arithmetic(e: Expression)
  {
    match e
    case Value(_) => true
    case Addition(a, b) => Arithmetic(a) && Arithmetic(b)
    case Subtraction(a, b) => Arithmetic(a) && Arithmetic(b)
    case Multiplication(a, b) => Arithmetic(a) && Arithmetic(b)
    case Division(a, b) => Arithmetic(a) && Arithmetic(b)
    case _ => false
  }

  /** One pass folds an arithmetic tree all the way down to one value. */
  lemma {:induction false} ArithmeticFoldsToValue(e: Expression)
    requires Arithmetic(e) && Simplified(e).Returns?
    ensures Simplified(e).value.Value?
  {
    match e
    case Value(_) =>
    case Addition(a, b) => ArithmeticFoldsToValue(a); ArithmeticFoldsToValue(b);
    case Subtraction(a, b) => ArithmeticFoldsToValue(a); ArithmeticFoldsToValue(b);
    case Multiplication(a, b) => ArithmeticFoldsToValue(a); ArithmeticFoldsToValue(b);
    case Division(a, b) => ArithmeticFoldsToValue(a); ArithmeticFoldsToValue(b);
  }

  /**
   * On an arithmetic tree, one pass of simplification is evaluation: it
   * panics exactly when evaluation does, and otherwise yields the value
   * evaluation computes.
   */
  lemma SimplifyEvaluatesArithmetic(e: Expression, m: VariableMap)
    requires Arithmetic(e)
    ensures Simplified(e).Panics? <==> Evaluate(e, m).Panics?
    ensures Simplified(e).Returns? ==>
      Simplified(e).value.Value? && Evaluate(e, m) == Returns(Ok(Simplified(e).value.value))
  {
    NoEquals(e);
    if Simplified(e).Returns? {
      ArithmeticFoldsToValue(e);
      SimplifyPreservesEvaluation(e, m);
    } else {
      SimplifyPanicsOnlyIfEvaluationDoes(e, m);
    }
  }

  lemma {:induction false} NoEquals(e: Expression)
    requires Arithmetic(e)
    ensures !ContainsEquals(e)
  {
    match e
    case Value(_) =>
    case Addition(a, b) => NoEquals(a); NoEquals(b);
    case Subtraction(a, b) => NoEquals(a); NoEquals(b);
    case Multiplication(a, b) => NoEquals(a); NoEquals(b);
    case Division(a, b) => NoEquals(a); NoEquals(b);
  }
}
