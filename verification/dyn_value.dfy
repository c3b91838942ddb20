/**
 * The trait-object design of values (src/value/rational.rs and
 * src/value/undefined.rs). `dyn Value` has exactly two implementations, so
 * it is a closed datatype here and each `downcast_ref::<RationalValue>()`
 * is a match on the variant.
 *
 * A rational value is a sign and two unbounded naturals (`BigUint`). Its
 * `add` and `sub` reduce mixed signs to each other by negating one side.
 * Two of those reductions never end (`sub` of a positive from a negative
 * calls `add`, which calls `sub` with the same arguments again, and the
 * sum of two negatives reaches that loop), and a positive difference that
 * would be negative underflows `BigUint` and panics. `AddDefined` and
 * `SubDefined` say exactly when neither happens; there, every sum and
 * difference is the exact signed result, stored with a positive sign,
 * which also means that a negative result is never produced.
 */
module DynValue {
  import opened Prelude
  import opened Integers
  import opened Numerals

  datatype Sign = Positive | Negative
  {
    /** `Sign::opposite`: the other sign. */
    function Opposite(): (r: Sign)
      ensures r != this
    {
      match this
      case Positive => Negative
      case Negative => Positive
    }

    /** `BitXor`: negative exactly when the two signs differ. */
    function Xor(rhs: Sign): (r: Sign)
      ensures r == Negative <==> this != rhs
    {
      match (this, rhs)
      case (Positive, Negative) => Negative
      case (Negative, Positive) => Negative
      case _ => Positive
    }

    /** `Into<bool>`: true for a negative sign. */
    function ToBool(): (b: bool)
      ensures b <==> this == Negative
    {
      match this
      case Positive => false
      case Negative => true
    }
  }

  /** `From<bool>`: the inverse of `ToBool`. */
  function SignFromBool(value: bool): (s: Sign)
    ensures s.ToBool() == value
  {
    if value then Negative else Positive
  }

  /** `RationalValue`: a sign with an unsigned numerator and denominator; `new` is the constructor. */
  datatype RationalValue = RationalValue(sign: Sign, numerator: nat, denominator: nat)
  {
    /** The numerator with the sign applied. */
    function SignedNumerator(): (n: int)
      ensures Abs(n) == numerator
      ensures n < 0 ==> sign == Negative
      ensures sign == Positive ==> n == numerator
    {
      if sign == Negative then -(numerator as int) else numerator
    }

    /**
     * `simplified`: numerator and denominator divided by their gcd; the
     * sign is kept, the ratio is kept, the parts become coprime, and a part
     * is zero only if it was. The gcd of 0 and 0 is 0, so 0/0 panics.
     */
    function Simplified(): (r: RationalValue)
      requires Reducible(numerator, denominator)
      ensures r.sign == sign && GcdNat(r.numerator, r.denominator) == 1
      ensures r.numerator * denominator == numerator * r.denominator
      ensures (r.numerator == 0 <==> numerator == 0) && (r.denominator == 0 <==> denominator == 0)
    {
      var g := GcdNat(numerator, denominator);
      GcdNatDivides(numerator, denominator);
      QuotientOfDivisor(g, numerator);
      QuotientOfDivisor(g, denominator);
      var n, d := numerator / g, denominator / g;
      GcdNatOfReduced(numerator, denominator, n, d);
      CrossOfCofactors(g, numerator, denominator, n, d);
      RationalValue(sign, n, d)
    }

    /** `get_opposite`: the same magnitude with the other sign. */
    function GetOpposite(): (r: RationalValue)
      ensures r.sign != sign && r.numerator == numerator && r.denominator == denominator
      ensures r.SignedNumerator() == -SignedNumerator()
    {
      RationalValue(sign.Opposite(), numerator, denominator)
    }

    /** `get_reciprocal`: numerator and denominator swapped, sign kept. */
    function GetReciprocal(): (r: RationalValue)
      ensures r.sign == sign && r.numerator == denominator && r.denominator == numerator
    {
      RationalValue(sign, denominator, numerator)
    }
  }

  /** `dyn Value`: one of its two implementations. */
  datatype Value = Rational(rational: RationalValue) | Undefined
  {
    /** How many of the two operands are negative: what the sign reductions of `add` and `sub` lower. */
    static function Negatives(a: Value, b: Value): nat
    {
      (if a.Rational? && a.rational.sign == Negative then 1 else 0)
        + (if b.Rational? && b.rational.sign == Negative then 1 else 0)
    }

    /**
     * `add` terminates without panic: never for two negatives; for mixed
     * signs, the positive side must be at least the negative one's
     * magnitude; for two positives only 0/0 is excluded.
     */
    predicate AddDefined(other: Value)
    {
      match (this, other)
      case (Rational(x), Rational(y)) =>
        (match (x.sign, y.sign)
         case (Positive, Positive) => SumDefined(x, y)
         case (Positive, Negative) => DifferenceDefined(x, y)
         case (Negative, Positive) => DifferenceDefined(y, x)
         case (Negative, Negative) => false)
      case _ => true
    }

    /**
     * `sub` terminates without panic: never for a positive taken from a
     * negative; otherwise as the `add` it reduces to.
     */
    predicate SubDefined(other: Value)
    {
      match (this, other)
      case (Rational(x), Rational(y)) =>
        (match (x.sign, y.sign)
         case (Positive, Positive) => DifferenceDefined(x, y)
         case (Positive, Negative) => SumDefined(x, y)
         case (Negative, Positive) => false
         case (Negative, Negative) => DifferenceDefined(y, x))
      case _ => true
    }

    /**
     * `add`: the exact signed sum, reduced, with a positive sign and a
     * denominator that is zero only if one operand's is; `Undefined` when
     * either side is not a rational value.
     */
    function Add(other: Value): (r: Value)
      requires AddDefined(other)
      ensures !(Rational? && other.Rational?) ==> r == Undefined
      ensures Rational? && other.Rational? ==> SumResult(rational, other.rational, r)
      decreases Negatives(this, other)
    {
      match (this, other)
      case (Rational(x), Rational(y)) =>
        if y.sign == Negative then
          var r := this.Sub(Rational(y.GetOpposite()));
          SumOfOpposite(x, y, r);
          r
        else if x.sign == Negative then
          var r := other.Sub(Rational(x.GetOpposite()));
          SumOfOpposite(y, x, r);
          SumCommutes(y, x, r);
          r
        else
          var r := RationalValue(Positive, x.numerator * y.denominator + y.numerator * x.denominator,
                                 x.denominator * y.denominator).Simplified();
          PositiveSum(x, y);
          Rational(r)
      case _ => Undefined
    }

    /**
     * `sub`: the exact signed difference, reduced, with a positive sign
     * and a denominator that is zero only if one operand's is; `Undefined`
     * when either side is not a rational value.
     */
    function Sub(other: Value): (r: Value)
      requires SubDefined(other)
      ensures !(Rational? && other.Rational?) ==> r == Undefined
      ensures Rational? && other.Rational? ==> DifferenceResult(rational, other.rational, r)
      decreases Negatives(this, other)
    {
      match (this, other)
      case (Rational(x), Rational(y)) =>
        if y.sign == Negative then
          var r := this.Add(Rational(y.GetOpposite()));
          DifferenceOfOpposite(x, y, r);
          r
        else if x.sign == Negative then
          // The loop case is excluded by `SubDefined`.
          assert false;
          Undefined
        else
          var r := RationalValue(Positive, x.numerator * y.denominator - y.numerator * x.denominator,
                                 x.denominator * y.denominator).Simplified();
          PositiveDifference(x, y);
          Rational(r)
      case _ => Undefined
    }

    /** `mul`: signs combined by `Xor`, parts multiplied, not reduced. */
    function Mul(other: Value): (r: Value)
      ensures !(Rational? && other.Rational?) ==> r == Undefined
      ensures Rational? && other.Rational? ==>
        && r.Rational?
        && r.rational.sign == rational.sign.Xor(other.rational.sign)
        && r.rational.numerator == rational.numerator * other.rational.numerator
        && r.rational.denominator == rational.denominator * other.rational.denominator
    {
      match (this, other)
      case (Rational(x), Rational(y)) =>
        Rational(RationalValue(x.sign.Xor(y.sign), x.numerator * y.numerator, x.denominator * y.denominator))
      case _ => Undefined
    }

    /** `div`: multiplication by the reciprocal; a zero divisor is not checked. */
    function Div(other: Value): (r: Value)
      ensures !(Rational? && other.Rational?) ==> r == Undefined
      ensures Rational? && other.Rational? ==>
        && r.Rational?
        && r.rational.sign == rational.sign.Xor(other.rational.sign)
        && r.rational.numerator == rational.numerator * other.rational.denominator
        && r.rational.denominator == rational.denominator * other.rational.numerator
    {
      match (this, other)
      case (Rational(_), Rational(y)) => this.Mul(Rational(y.GetReciprocal()))
      case _ => Undefined
    }

    /**
     * `cmp`: the magnitudes compared by cross-multiplication; the signs are
     * not looked at. `None` unless both sides are rational values.
     */
    function Cmp(other: Value): (r: Option<Ordering>)
      ensures r.Some? <==> Rational? && other.Rational?
      ensures r.Some? ==>
        var lhs, rhs := rational.numerator * other.rational.denominator, other.rational.numerator * rational.denominator;
        (r.value == Less <==> lhs < rhs) && (r.value == Equal <==> lhs == rhs) && (r.value == Greater <==> lhs > rhs)
    {
      match (this, other)
      case (Rational(x), Rational(y)) =>
        var lhs, rhs := x.numerator * y.denominator, y.numerator * x.denominator;
        Some(if lhs < rhs then Less else if lhs == rhs then Equal else Greater)
      case _ => None
    }

    /** `to_string`: "-" for a negative sign, then "N" over a denominator of 1 and "N/D" otherwise; "undefined". */
    function ToString(): (s: string)
      ensures s != [] && '(' !in s && ')' !in s
      ensures Rational? ==> ('/' in s <==> rational.denominator != 1)
      ensures Rational? ==> (s[0] == '-' <==> rational.sign == Negative)
      ensures Undefined? ==> s == "undefined"
    {
      match this
      case Rational(x) =>
        NumberChars(x.numerator);
        NumberChars(x.denominator);
        var minus := if x.sign.ToBool() then "-" else "";
        if x.denominator == 1 then minus + NatToString(x.numerator)
        else minus + NatToString(x.numerator) + "/" + NatToString(x.denominator)
      case Undefined => "undefined"
    }
  }

  /** The sum of two positive values is not 0/0. */
  predicate SumDefined(x: RationalValue, y: RationalValue)
  {
    Reducible(x.numerator * y.denominator + y.numerator * x.denominator, x.denominator * y.denominator)
  }

  /** `x - y` of two magnitudes does not underflow and is not 0/0. */
  predicate DifferenceDefined(x: RationalValue, y: RationalValue)
  {
    && x.numerator * y.denominator >= y.numerator * x.denominator
    && Reducible(x.numerator * y.denominator - y.numerator * x.denominator, x.denominator * y.denominator)
  }

  /** `r` is `x + y`, reduced, positive, over a denominator that is zero only with an operand's. */
  predicate SumResult(x: RationalValue, y: RationalValue, r: Value)
  {
    && r.Rational? && r.rational.sign == Positive
    && GcdNat(r.rational.numerator, r.rational.denominator) == 1
    && r.rational.numerator * (x.denominator * y.denominator)
       == (x.SignedNumerator() * y.denominator + y.SignedNumerator() * x.denominator) * r.rational.denominator
    && (r.rational.denominator == 0 <==> x.denominator * y.denominator == 0)
  }

  /** Subtracting the opposite is adding. */
  lemma SumOfOpposite(x: RationalValue, y: RationalValue, r: Value)
    requires DifferenceResult(x, y.GetOpposite(), r)
    ensures SumResult(x, y, r)
  {
    var sx, sy := x.SignedNumerator(), y.SignedNumerator();
    assert y.GetOpposite().SignedNumerator() * x.denominator == -(sy * x.denominator);
  }

  /** Adding the opposite is subtracting. */
  lemma DifferenceOfOpposite(x: RationalValue, y: RationalValue, r: Value)
    requires SumResult(x, y.GetOpposite(), r)
    ensures DifferenceResult(x, y, r)
  {
    var sx, sy := x.SignedNumerator(), y.SignedNumerator();
    assert y.GetOpposite().SignedNumerator() * x.denominator == -(sy * x.denominator);
  }

  /** The sum of two positive values over the product of their denominators, reduced. */
  lemma PositiveSum(x: RationalValue, y: RationalValue)
    requires x.sign == Positive && y.sign == Positive && SumDefined(x, y)
    ensures SumResult(x, y, Rational(RationalValue(Positive, x.numerator * y.denominator + y.numerator * x.denominator,
                                                   x.denominator * y.denominator).Simplified()))
  {
    var n, d := x.numerator * y.denominator + y.numerator * x.denominator, x.denominator * y.denominator;
    var r := RationalValue(Positive, n, d).Simplified();
    assert r.numerator * d == n * r.denominator;
  }

  /** The difference of two positive values over the product of their denominators, reduced. */
  lemma PositiveDifference(x: RationalValue, y: RationalValue)
    requires x.sign == Positive && y.sign == Positive && DifferenceDefined(x, y)
    ensures DifferenceResult(x, y, Rational(RationalValue(Positive, x.numerator * y.denominator - y.numerator * x.denominator,
                                                          x.denominator * y.denominator).Simplified()))
  {
    var n: nat, d := x.numerator * y.denominator - y.numerator * x.denominator, x.denominator * y.denominator;
    var r := RationalValue(Positive, n, d).Simplified();
    assert r.numerator * d == n * r.denominator;
  }

  lemma SumCommutes(x: RationalValue, y: RationalValue, r: Value)
    requires SumResult(x, y, r)
    ensures SumResult(y, x, r)
  {
    assert y.denominator * x.denominator == x.denominator * y.denominator;
  }

  /** `r` is `x - y`, reduced, positive, over a denominator that is zero only with an operand's. */
  predicate DifferenceResult(x: RationalValue, y: RationalValue, r: Value)
  {
    && r.Rational? && r.rational.sign == Positive
    && GcdNat(r.rational.numerator, r.rational.denominator) == 1
    && r.rational.numerator * (x.denominator * y.denominator)
       == (x.SignedNumerator() * y.denominator - y.SignedNumerator() * x.denominator) * r.rational.denominator
    && (r.rational.denominator == 0 <==> x.denominator * y.denominator == 0)
  }

  /**
   * `RationalValue::from_str`: an optional leading '-' gives the sign.
   * Without a '.', the rest is the numerator over 1. With one, the digits
   * before and after the first '.' are joined, trailing zeros are cut off,
   * and what is left is the numerator; the denominator is the NUMBER of
   * digits after the point, not a power of ten.
   */
  function FromStr(s: string): (r: Result<RationalValue, ParseBigIntError>)
    ensures r.Ok? && s != [] && s[0] == '-' ==> r.value.sign == Negative
    ensures r.Ok? && (s == [] || s[0] != '-') ==> r.value.sign == Positive
  {
    var (sign, t) := if |s| >= 1 && s[0] == '-' then (Negative, s[1..]) else (Positive, s);
    match SplitOnce(t, '.')
    case Some((before, after)) =>
      (match ParseBigUint(TrimTrailingZeros(before + after))
       case Ok(numerator) => Ok(RationalValue(sign, numerator, |after|))
       case Err(e) => Err(e))
    case None =>
      (match ParseBigUint(t)
       case Ok(numerator) => Ok(RationalValue(sign, numerator, 1))
       case Err(e) => Err(e))
  }
}
