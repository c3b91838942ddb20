/**
 * What the trait-object design of values promises: the unit test of
 * src/value/rational.rs, `simplified` keeping the value, `cmp` as a
 * comparison of magnitudes, subtraction undoing addition and division
 * undoing multiplication (up to `cmp`), commutative addition, the
 * `Undefined` value absorbing every operation, and which texts
 * `from_str` reads back.
 */
module DynProperties {
  import opened Prelude
  import opened Integers
  import opened Numerals
  import CalcProperties
  import opened DynValue

  // ---------------------------------------------------------------------
  // Signs

  /** `From<bool>` undoes `Into<bool>`. */
  lemma SignBoolRoundTrip(s: Sign)
    ensures SignFromBool(s.ToBool()) == s
  {
  }

  /** Combining with the same sign twice gives back the first sign. */
  lemma XorCancels(s: Sign, t: Sign)
    ensures s.Xor(t).Xor(t) == s
  {
  }

  /** The numerical factor of a sign. */
  function Sgn(s: Sign): (k: int)
    ensures k == 1 || k == -1
  {
    if s == Negative then -1 else 1
  }

  /** The signed numerator is the sign's factor times the magnitude. */
  lemma SignedNumeratorSgn(x: RationalValue)
    ensures x.SignedNumerator() == Sgn(x.sign) * x.numerator
  {
  }

  /** `Xor` multiplies the signs' factors. */
  lemma XorSgn(s: Sign, t: Sign)
    ensures Sgn(s.Xor(t)) == Sgn(s) * Sgn(t)
  {
  }

  // ---------------------------------------------------------------------
  // Simplification and comparison

  /** The unit test of rational.rs: 6/4 simplifies to 3/2, which `cmp` finds equal. */
  lemma SimplifyTest()
    ensures RationalValue(Positive, 6, 4).Simplified() == RationalValue(Positive, 3, 2)
    ensures Rational(RationalValue(Positive, 6, 4).Simplified()).Cmp(Rational(RationalValue(Positive, 3, 2))) == Some(Equal)
  {
    assert GcdNat(6, 4) == 2 by {
      assert GcdNat(6, 4) == GcdNat(4, 2) == GcdNat(2, 0);
    }
  }

  /** Simplifying keeps the value: the result compares equal to the original. */
  lemma SimplifiedComparesEqual(x: RationalValue)
    requires Reducible(x.numerator, x.denominator)
    ensures Rational(x.Simplified()).Cmp(Rational(x)) == Some(Equal)
  {
  }

  /** `cmp` does not look at signs: `-x` compares with `y` exactly as `x` does. */
  lemma CmpIgnoresSign(x: RationalValue, y: RationalValue)
    ensures Rational(x.GetOpposite()).Cmp(Rational(y)) == Rational(x).Cmp(Rational(y))
    ensures Rational(x.GetOpposite()).Cmp(Rational(x)) == Some(Equal)
  {
  }

  /** The ordering seen from the other side. */
  function Flip(o: Ordering): (r: Ordering)
    ensures (r == Equal) <==> (o == Equal)
  {
    match o
    case Less => Greater
    case Equal => Equal
    case Greater => Less
  }

  /** Swapping the operands of `cmp` reverses the ordering. */
  lemma CmpAntisymmetric(a: Value, b: Value)
    ensures b.Cmp(a) == (if a.Cmp(b).Some? then Some(Flip(a.Cmp(b).value)) else None)
  {
    if a.Rational? && b.Rational? {
      var x, y := a.rational, b.rational;
      assert x.numerator * y.denominator == y.denominator * x.numerator;
      assert y.numerator * x.denominator == x.denominator * y.numerator;
    }
  }

  /** Comparing equal is transitive through a value whose denominator is not zero. */
  lemma CmpEqualTransitive(a: Value, b: Value, c: Value)
    requires b.Rational? && b.rational.denominator != 0
    requires a.Cmp(b) == Some(Equal) && b.Cmp(c) == Some(Equal)
    ensures a.Cmp(c) == Some(Equal)
  {
    var x, y, z := a.rational, b.rational, c.rational;
    CalcProperties.RatioTransitive(x.numerator, x.denominator, y.numerator, y.denominator, z.numerator, z.denominator);
  }

  // ---------------------------------------------------------------------
  // Arithmetic

  /** Addition is commutative wherever it is defined, including between a positive and a negative value. */
  lemma AddCommutative(a: Value, b: Value)
    requires a.AddDefined(b)
    ensures b.AddDefined(a) && a.Add(b) == b.Add(a)
  {
    if a.Rational? && b.Rational? {
      var x, y := a.rational, b.rational;
      if x.sign == Positive && y.sign == Positive {
        assert x.numerator * y.denominator + y.numerator * x.denominator
            == y.numerator * x.denominator + x.numerator * y.denominator;
        assert x.denominator * y.denominator == y.denominator * x.denominator;
      }
    }
  }

  /** A product of two nonzero naturals is not zero. */
  lemma ProductNonzero(m: nat, n: nat)
    requires m != 0 && n != 0
    ensures m * n != 0
  {
    MulMonotone(m, n);
  }

  lemma CancelAtMost(x: int, y: int, k: int)
    requires k > 0 && x * k >= y * k
    ensures x >= y
  {
    assert (x - y) * k == x * k - y * k;
  }

  /** The magnitude of a sum of two positives covers each summand. */
  lemma SumCoversSummand(s: int, d: int, a: int, b: int, c: int, e: int)
    requires b > 0 && e > 0 && a >= 0 && d >= 0
    requires s * (b * e) == (a * e + c * b) * d
    ensures s * e >= c * d
  {
    calc {
      (s * e) * b;
      s * (b * e);
      (a * e + c * b) * d;
      (a * e) * d + (c * d) * b;
    }
    assert (a * e) * d >= 0;
    CancelAtMost(s * e, c * d, b);
  }

  /**
   * Subtracting a positive value from its sum with another positive value
   * gives a value that compares equal to the other one; no step panics
   * when the denominators are not zero.
   */
  lemma SubUndoesAdd(x: RationalValue, y: RationalValue)
    requires x.sign == Positive && y.sign == Positive && x.denominator > 0 && y.denominator > 0
    ensures Rational(x).AddDefined(Rational(y))
    ensures Rational(x).Add(Rational(y)).SubDefined(Rational(y))
    ensures Rational(x).Add(Rational(y)).Sub(Rational(y)).Cmp(Rational(x)) == Some(Equal)
  {
    ProductNonzero(x.denominator, y.denominator);
    var s := Rational(x).Add(Rational(y));
    SumLeavesDifference(x, y, s.rational);
    var r := s.Sub(Rational(y));
    DifferenceOfSum(x, y, s.rational, r);
  }

  /** Taking `y` back from `x + y` neither underflows nor divides 0 by 0. */
  lemma SumLeavesDifference(x: RationalValue, y: RationalValue, t: RationalValue)
    requires x.sign == Positive && y.sign == Positive && x.denominator > 0 && y.denominator > 0
    requires SumResult(x, y, Rational(t))
    ensures DifferenceDefined(t, y)
  {
    ProductNonzero(x.denominator, y.denominator);
    ProductNonzero(t.denominator, y.denominator);
    SumCoversSummand(t.numerator, t.denominator, x.numerator, x.denominator, y.numerator, y.denominator);
  }

  /** `(x + y) - y` has the ratio of `x`. */
  lemma DifferenceOfSum(x: RationalValue, y: RationalValue, t: RationalValue, r: Value)
    requires x.sign == Positive && y.sign == Positive && x.denominator > 0 && y.denominator > 0
    requires SumResult(x, y, Rational(t)) && DifferenceResult(t, y, r)
    ensures r.Cmp(Rational(x)) == Some(Equal)
  {
    ProductNonzero(x.denominator, y.denominator);
    CalcProperties.SubAfterAdd(x.numerator, x.denominator, y.numerator, y.denominator,
                               t.numerator, t.denominator, r.rational.numerator, r.rational.denominator);
  }

  /**
   * Dividing a product by the factor, or multiplying a quotient by the
   * divisor, gives back the sign and a value that compares equal; `cmp`
   * cross-multiplies, so this holds even for a zero factor.
   */
  lemma MulAndDivUndo(a: Value, b: Value)
    requires a.Rational? && b.Rational?
    ensures a.Mul(b).Div(b).rational.sign == a.rational.sign && a.Mul(b).Div(b).Cmp(a) == Some(Equal)
    ensures a.Div(b).Mul(b).rational.sign == a.rational.sign && a.Div(b).Mul(b).Cmp(a) == Some(Equal)
  {
    var x, y := a.rational, b.rational;
    XorCancels(x.sign, y.sign);
    assert x.numerator * y.numerator * y.denominator * x.denominator
        == x.numerator * (x.denominator * y.denominator * y.numerator);
    assert x.numerator * y.denominator * y.numerator * x.denominator
        == x.numerator * (x.denominator * y.numerator * y.denominator);
  }

  /** `undefined.rs`: every operation on `Undefined` is `Undefined`, it compares with nothing and reads "undefined". */
  lemma UndefinedAbsorbs(v: Value)
    ensures Undefined.AddDefined(v) && Undefined.Add(v) == Undefined
    ensures Undefined.SubDefined(v) && Undefined.Sub(v) == Undefined
    ensures Undefined.Mul(v) == Undefined && Undefined.Div(v) == Undefined
    ensures Undefined.Cmp(v) == None && Undefined.ToString() == "undefined"
    ensures v.AddDefined(Undefined) && v.Add(Undefined) == Undefined
    ensures v.SubDefined(Undefined) && v.Sub(Undefined) == Undefined
    ensures v.Mul(Undefined) == Undefined && v.Div(Undefined) == Undefined && v.Cmp(Undefined) == None
  {
  }

  /** Two negative values have no sum: `add` and `sub` call each other forever. */
  lemma NegativeSumLoops(x: RationalValue, y: RationalValue)
    requires x.sign == Negative && y.sign == Negative
    ensures !Rational(x).AddDefined(Rational(y))
    ensures !Rational(x).SubDefined(Rational(y.GetOpposite()))
  {
  }

  /** A positive difference below zero underflows `BigUint`: 1 - 2 panics. */
  lemma UnderflowPanics()
    ensures !Rational(RationalValue(Positive, 1, 1)).SubDefined(Rational(RationalValue(Positive, 2, 1)))
  {
  }

  // ---------------------------------------------------------------------
  // Text

  /** A whole number's text parses back to it, sign included. */
  lemma WholeNumberRoundTrip(x: RationalValue)
    requires x.denominator == 1
    ensures FromStr(Rational(x).ToString()) == Ok(x)
  {
    var digits := NatToString(x.numerator);
    NatToStringParses(x.numerator);
    assert Rational(x).ToString() == (if x.sign == Negative then "-" else "") + digits;
    ReadWhole(x.sign, digits, x.numerator);
  }

  /** A sign and digits without a point are read as that sign over 1. */
  lemma ReadWhole(sign: Sign, digits: string, n: nat)
    requires digits != [] && AllDigits(digits) && ParseBigUint(digits) == Ok(n)
    ensures FromStr((if sign == Negative then "-" else "") + digits) == Ok(RationalValue(sign, n, 1))
  {
    forall i | 0 <= i < |digits|
      ensures digits[i] != '.'
    {
      assert IsDigit(digits[i]);
    }
    assert SplitOnce(digits, '.') == None;
    if sign == Negative {
      ReadNegated(digits, n);
    } else {
      assert IsDigit(digits[0]);
      ReadUnsigned(digits, n);
      assert "" + digits == digits;
    }
  }

  lemma ReadUnsigned(t: string, n: nat)
    requires t != [] && t[0] != '-' && SplitOnce(t, '.') == None && ParseBigUint(t) == Ok(n)
    ensures FromStr(t) == Ok(RationalValue(Positive, n, 1))
  {
  }

  lemma ReadNegated(t: string, n: nat)
    requires SplitOnce(t, '.') == None && ParseBigUint(t) == Ok(n)
    ensures FromStr("-" + t) == Ok(RationalValue(Negative, n, 1))
  {
    assert ("-" + t)[1..] == t;
  }

  /** A fraction's text "N/D" is not read back: `/` is not a digit. */
  lemma FractionTextRejected(x: RationalValue)
    requires x.denominator != 1
    ensures FromStr(Rational(x).ToString()) == Err(InvalidDigit)
  {
    var t := NatToString(x.numerator) + "/" + NatToString(x.denominator);
    FractionText(x);
    NoPoint(x.numerator);
    NoPoint(x.denominator);
    SlashRejected(NatToString(x.numerator), NatToString(x.denominator));
    EitherSignRejected(t);
  }

  /** The text of a fraction whose denominator is not 1: an optional '-', then "N/D". */
  lemma FractionText(x: RationalValue)
    requires x.denominator != 1
    ensures var t := NatToString(x.numerator) + "/" + NatToString(x.denominator);
      Rational(x).ToString() == if x.sign == Negative then "-" + t else t
  {
    var n, d := NatToString(x.numerator), NatToString(x.denominator);
    var minus := if x.sign == Negative then "-" else "";
    assert Rational(x).ToString() == minus + n + "/" + d;
    SlashJoin(minus, n, d);
    assert "" + (n + "/" + d) == n + "/" + d;
  }

  lemma SlashJoin(m: string, n: string, d: string)
    ensures m + n + "/" + d == m + (n + "/" + d)
  {
  }

  /** Unsigned text that is an invalid number without a point is one with a '-' before it, too. */
  lemma EitherSignRejected(t: string)
    requires t != [] && t[0] != '-'
    requires SplitOnce(t, '.') == None && ParseBigUint(t) == Err(InvalidDigit)
    ensures FromStr(t) == Err(InvalidDigit) && FromStr("-" + t) == Err(InvalidDigit)
  {
    assert ("-" + t)[1..] == t;
  }

  lemma NoPoint(k: nat)
    ensures '.' !in NatToString(k) && IsDigit(NatToString(k)[0])
  {
    NumberChars(k);
  }

  /** Digits, a '/' and more text without a point: no point to split at, and the '/' is an invalid digit. */
  lemma SlashRejected(n: string, d: string)
    requires n != [] && IsDigit(n[0]) && '.' !in n && '.' !in d
    ensures (n + "/" + d)[0] == n[0]
    ensures SplitOnce(n + "/" + d, '.') == None
    ensures ParseBigUint(n + "/" + d) == Err(InvalidDigit)
  {
    var t := n + "/" + d;
    assert '.' !in t;
    assert t[|n|] == '/' && !DigitOrUnderscore(t[|n|]);
    NonDigitRejected(t, |n|);
  }

  /** Text that starts with a digit and holds a character other than a digit or '_' is an invalid number. */
  lemma NonDigitRejected(t: string, k: nat)
    requires t != [] && IsDigit(t[0]) && k < |t| && !DigitOrUnderscore(t[k])
    ensures ParseBigUint(t) == Err(InvalidDigit)
  {
    assert !DigitsAndUnderscores(t);
  }


  /** Text made of digits only is the number they spell. */
  lemma DigitsParse(t: string)
    requires t != [] && AllDigits(t)
    ensures ParseBigUint(t) == Ok(DigitsValue(t))
  {
    assert IsDigit(t[0]);
    assert DigitsAndUnderscores(t);
    NoUnderscores(t);
  }

  /**
   * `from_str` joins the digits around the point and counts the digits
   * after it: "1.5" is 15/1, "-2.50" is -25/2, and "0.0", all zeros once
   * trailing zeros are cut, is an empty number.
   */
  lemma DecimalExamples()
    ensures FromStr("1.5") == Ok(RationalValue(Positive, 15, 1))
    ensures FromStr("-2.50") == Ok(RationalValue(Negative, 25, 2))
    ensures FromStr("0.0") == Err(Empty)
  {
    OneAndAHalf();
    TwoAndAHalf();
    ZeroPointZero();
  }

  lemma OneAndAHalf()
    ensures FromStr("1.5") == Ok(RationalValue(Positive, 15, 1))
  {
    assert "1.5" == "1" + ['.'] + "5";
    CalcProperties.SplitOnceFirst("1", '.', "5");
    assert "1" + "5" == "15";
    assert TrimTrailingZeros("15") == "15";
    assert DigitsValue("15") == 15 by {
      assert "15"[..1] == "1";
    }
    DigitsParse("15");
  }

  lemma TwoAndAHalf()
    ensures FromStr("-2.50") == Ok(RationalValue(Negative, 25, 2))
  {
    var t := "2.50";
    assert t == "-2.50"[1..];
    assert t == "2" + ['.'] + "50";
    CalcProperties.SplitOnceFirst("2", '.', "50");
    assert "2" + "50" == "250";
    assert TrimTrailingZeros("250") == "25" by {
      assert "250"[..2] == "25";
    }
    assert DigitsValue("25") == 25 by {
      assert "25"[..1] == "2";
    }
    DigitsParse("25");
  }

  lemma ZeroPointZero()
    ensures FromStr("0.0") == Err(Empty)
  {
    assert "0.0" == "0" + ['.'] + "0";
    CalcProperties.SplitOnceFirst("0", '.', "0");
    assert "0" + "0" == "00";
    assert TrimTrailingZeros("00") == [] by {
      assert "00"[..1] == "0";
      assert "0"[..0] == [];
    }
  }
}
