/**
 * What the trait-object design of expressions promises: `simplified` is
 * idempotent, an undefined leaf and only an undefined leaf makes the
 * result undefined, the value it folds to is the exact fraction the tree
 * stands for whenever that fraction has no zero denominator on the way,
 * and `to_string` parenthesises every operator node.
 */
module DynExpressionProperties {
  import opened Prelude
  import opened Integers
  import opened DynValue
  import opened DynExpression
  import opened Numerals
  import DynProperties

  /** The operator of a binary node. */
  function OpOf(e: Expression): (op: BinaryOp)
    requires !e.ValueExpression?
    ensures e == Node(op, e.lhs, e.rhs)
  {
    match e
    case AdditionExpression(_, _) => Plus
    case SubtractionExpression(_, _) => Minus
    case MultiplicationExpression(_, _) => Times
    case DivisionExpression(_, _) => Over
  }

  /** A second pass of `simplified` gives back the first one's result. */
  lemma SimplifiedIdempotent(e: Expression)
    requires e.Simplified().Returns?
    ensures e.Simplified().value.Simplified() == e.Simplified()
  {
  }

  /** A binary node simplifies only if both of its sides do. */
  lemma FoldNeedsBothSides(op: BinaryOp, l: Expression, r: Expression)
    requires Node(op, l, r).Simplified().Returns?
    ensures l.Simplified().Returns? && r.Simplified().Returns?
    ensures Node(op, l, r).Simplified() == Fold(op, l.Simplified(), r.Simplified())
  {
    match op
    case Plus =>
    case Minus =>
    case Times =>
    case Over =>
  }

  // ---------------------------------------------------------------------
  // Undefined leaves

  /** Some leaf of the tree holds `Undefined`. */
  predicate HasUndefined(e: Expression)
  {
    if e.ValueExpression? then e.value.Undefined? else HasUndefined(e.lhs) || HasUndefined(e.rhs)
  }

  /** The value operations give `Undefined` exactly when an operand is `Undefined`. */
  lemma ApplyUndefined(op: BinaryOp, x: Value, y: Value)
    requires CanApply(op, x, y)
    ensures Apply(op, x, y).value.Undefined? <==> x.Undefined? || y.Undefined?
  {
  }

  /** A tree that simplifies is undefined exactly when one of its leaves is. */
  lemma {:induction false} UndefinedPropagates(e: Expression)
    requires e.Simplified().Returns?
    ensures e.Simplified().value.value.Undefined? <==> HasUndefined(e)
    decreases e
  {
    if !e.ValueExpression? {
      var op, l, r := OpOf(e), e.lhs, e.rhs;
      FoldNeedsBothSides(op, l, r);
      UndefinedPropagates(l);
      UndefinedPropagates(r);
      ApplyUndefined(op, l.Simplified().value.value, r.Simplified().value.value);
    }
  }

  // ---------------------------------------------------------------------
  // The exact fraction a tree stands for

  /**
   * The exact signed fraction (numerator, denominator) of a tree, computed
   * without reduction by the rules of fractions; `None` once a leaf is
   * undefined or a denominator on the way is zero.
   */
  function Exact(e: Expression): (q: Option<(int, int)>)
    ensures q.Some? ==> q.value.1 != 0
  {
    match e
    case ValueExpression(v) =>
      if v.Rational? && v.rational.denominator != 0 then Some((v.rational.SignedNumerator(), v.rational.denominator as int))
      else None
    case AdditionExpression(l, r) => ExactOp(Plus, Exact(l), Exact(r))
    case SubtractionExpression(l, r) => ExactOp(Minus, Exact(l), Exact(r))
    case MultiplicationExpression(l, r) => ExactOp(Times, Exact(l), Exact(r))
    case DivisionExpression(l, r) => ExactOp(Over, Exact(l), Exact(r))
  }

  /** One operation on exact fractions; `None` for a zero denominator. */
  function ExactOp(op: BinaryOp, a: Option<(int, int)>, b: Option<(int, int)>): (q: Option<(int, int)>)
    ensures q.Some? ==> a.Some? && b.Some? && q.value.1 != 0
  {
    if a.None? || b.None? then None
    else
      var n1, d1, n2, d2 := a.value.0, a.value.1, b.value.0, b.value.1;
      var f := match op
        case Plus => (n1 * d2 + n2 * d1, d1 * d2)
        case Minus => (n1 * d2 - n2 * d1, d1 * d2)
        case Times => (n1 * n2, d1 * d2)
        case Over => (n1 * d2, d1 * n2);
      if f.1 == 0 then None else Some(f)
  }

  /** `v` is a rational value with a nonzero denominator and the ratio of `q`. */
  predicate Represents(v: Value, q: (int, int))
  {
    v.Rational? && v.rational.denominator != 0
      && v.rational.SignedNumerator() * q.1 == q.0 * v.rational.denominator
  }

  lemma IntProductNonzero(a: int, b: int)
    requires a != 0 && b != 0
    ensures a * b != 0
  {
    if a > 0 && b > 0 {
      MulMonotone(a, b);
    } else if a > 0 {
      MulMonotone(a, -b);
      assert a * b == -(a * (-b));
    } else if b > 0 {
      MulMonotone(-a, b);
      assert a * b == -((-a) * b);
    } else {
      MulMonotone(-a, -b);
      assert a * b == (-a) * (-b);
    }
  }

  /** `(a * b) * (c * d)` regrouped as `(a * c) * (b * d)`. */
  lemma Regroup(a: int, b: int, c: int, d: int)
    ensures (a * b) * (c * d) == (a * c) * (b * d)
  {
  }

  /** `(a + b) * r` scaled by `k`, distributed. */
  lemma Distribute(a: int, b: int, r: int, k: int)
    ensures ((a + b) * r) * k == r * (a * k + b * k)
  {
  }

  /** One cross term of a sum, rewritten with `s * d == n * x`. */
  lemma CrossTerm(s: int, e: int, d: int, f: int, n: int, x: int)
    requires s * d == n * x
    ensures (s * e) * (d * f) == (n * f) * (x * e)
  {
    Regroup(s, e, d, f);
    Regroup(n, f, x, e);
    assert e * f == f * e;
  }

  /** A sum over a common denominator has the ratio of the exact sum of two fractions it agrees with. */
  lemma SumRepresents(sx: int, dx: int, sy: int, dy: int, n1: int, d1: int, n2: int, d2: int, rn: int, rd: int)
    requires dx != 0 && dy != 0 && sx * d1 == n1 * dx && sy * d2 == n2 * dy
    requires rn * (dx * dy) == (sx * dy + sy * dx) * rd
    ensures rn * (d1 * d2) == (n1 * d2 + n2 * d1) * rd
  {
    IntProductNonzero(dx, dy);
    var p, q := dx * dy, d1 * d2;
    var u, v := n1 * d2, n2 * d1;
    CrossTerm(sx, dy, d1, d2, n1, dx);
    CrossTerm(sy, dx, d2, d1, n2, dy);
    assert d2 * d1 == q && dy * dx == p;
    assert (sx * dy) * q == u * p && (sy * dx) * q == v * p;
    Regroup(rn, q, 1, p);
    assert (rn * q) * p == (rn * p) * q;
    Distribute(sx * dy, sy * dx, rd, q);
    Distribute(u, v, rd, p);
    assert (rn * q) * p == ((u + v) * rd) * p;
    CancelFactor(rn * q, (u + v) * rd, p);
  }

  /** The same for a difference: a sum with the second fraction negated. */
  lemma DifferenceRepresents(sx: int, dx: int, sy: int, dy: int, n1: int, d1: int, n2: int, d2: int, rn: int, rd: int)
    requires dx != 0 && dy != 0 && sx * d1 == n1 * dx && sy * d2 == n2 * dy
    requires rn * (dx * dy) == (sx * dy - sy * dx) * rd
    ensures rn * (d1 * d2) == (n1 * d2 - n2 * d1) * rd
  {
    assert sx * dy - sy * dx == sx * dy + (-sy) * dx;
    assert (-sy) * d2 == -(sy * d2) == -(n2 * dy) == (-n2) * dy;
    SumRepresents(sx, dx, -sy, dy, n1, d1, -n2, d2, rn, rd);
    assert n1 * d2 + (-n2) * d1 == n1 * d2 - n2 * d1;
  }

  /** A product of magnitudes with the signs' product has the ratio of the exact product. */
  lemma ProductRepresents(sx: int, dx: int, sy: int, dy: int, n1: int, d1: int, n2: int, d2: int)
    requires sx * d1 == n1 * dx && sy * d2 == n2 * dy
    ensures (sx * sy) * (d1 * d2) == (n1 * n2) * (dx * dy)
  {
    Regroup(sx, sy, d1, d2);
    Regroup(n1, n2, dx, dy);
  }

  /** Multiplying by the reciprocal has the ratio of the exact quotient. */
  lemma QuotientRepresents(gx: int, gy: int, xn: int, yn: int, dx: int, dy: int, n1: int, d1: int, n2: int, d2: int)
    requires gy * gy == 1
    requires (gx * xn) * d1 == n1 * dx && (gy * yn) * d2 == n2 * dy
    ensures ((gx * gy) * (xn * dy)) * (d1 * n2) == (n1 * d2) * (dx * yn)
  {
    var a, m := gx * xn, gy * dy;
    Regroup(gx, gy, xn, dy);
    Regroup(a, m, d1, n2);
    // so the left side is (n1 * dx) * (m * n2)
    var t := yn * d2;
    assert m * n2 == gy * (n2 * dy);
    assert n2 * dy == gy * t;
    SignSquared(gy, t);
    // so m * n2 == t, and the left side is (n1 * dx) * (yn * d2)
    Regroup(n1, dx, d2, yn);
  }

  /** A sign applied twice cancels. */
  lemma SignSquared(g: int, t: int)
    requires g * g == 1
    ensures g * (g * t) == t
  {
    assert g * (g * t) == (g * g) * t;
  }

  /** The precondition shared by the four cases of `ApplyRepresents`. */
  predicate Agree(op: BinaryOp, x: Value, y: Value, qx: (int, int), qy: (int, int))
  {
    Represents(x, qx) && Represents(y, qy) && qx.1 != 0 && qy.1 != 0
      && CanApply(op, x, y) && ExactOp(op, Some(qx), Some(qy)).Some?
  }

  /** One value operation on values that represent two exact fractions represents their exact result. */
  lemma ApplyRepresents(op: BinaryOp, x: Value, y: Value, qx: (int, int), qy: (int, int))
    requires Agree(op, x, y, qx, qy)
    ensures Represents(Apply(op, x, y).value, ExactOp(op, Some(qx), Some(qy)).value)
  {
    match op
    case Plus => AddRepresents(x, y, qx, qy);
    case Minus => SubRepresents(x, y, qx, qy);
    case Times => MulRepresents(x, y, qx, qy);
    case Over => DivRepresents(x, y, qx, qy);
  }

  lemma AddRepresents(x: Value, y: Value, qx: (int, int), qy: (int, int))
    requires Agree(Plus, x, y, qx, qy)
    ensures Represents(x.Add(y), (qx.0 * qy.1 + qy.0 * qx.1, qx.1 * qy.1))
  {
    var a, b, r := x.rational, y.rational, x.Add(y);
    DynProperties.ProductNonzero(a.denominator, b.denominator);
    SumRepresents(a.SignedNumerator(), a.denominator, b.SignedNumerator(), b.denominator,
      qx.0, qx.1, qy.0, qy.1, r.rational.numerator, r.rational.denominator);
  }

  lemma SubRepresents(x: Value, y: Value, qx: (int, int), qy: (int, int))
    requires Agree(Minus, x, y, qx, qy)
    ensures Represents(x.Sub(y), (qx.0 * qy.1 - qy.0 * qx.1, qx.1 * qy.1))
  {
    var a, b, r := x.rational, y.rational, x.Sub(y);
    DynProperties.ProductNonzero(a.denominator, b.denominator);
    DifferenceRepresents(a.SignedNumerator(), a.denominator, b.SignedNumerator(), b.denominator,
      qx.0, qx.1, qy.0, qy.1, r.rational.numerator, r.rational.denominator);
  }

  lemma MulRepresents(x: Value, y: Value, qx: (int, int), qy: (int, int))
    requires Agree(Times, x, y, qx, qy)
    ensures Represents(x.Mul(y), (qx.0 * qy.0, qx.1 * qy.1))
  {
    var a, b, r := x.rational, y.rational, x.Mul(y);
    DynProperties.ProductNonzero(a.denominator, b.denominator);
    DynProperties.XorSgn(a.sign, b.sign);
    DynProperties.SignedNumeratorSgn(a);
    DynProperties.SignedNumeratorSgn(b);
    DynProperties.SignedNumeratorSgn(r.rational);
    assert r.rational.SignedNumerator() == a.SignedNumerator() * b.SignedNumerator();
    ProductRepresents(a.SignedNumerator(), a.denominator, b.SignedNumerator(), b.denominator, qx.0, qx.1, qy.0, qy.1);
  }

  lemma DivRepresents(x: Value, y: Value, qx: (int, int), qy: (int, int))
    requires Agree(Over, x, y, qx, qy)
    ensures Represents(x.Div(y), (qx.0 * qy.1, qx.1 * qy.0))
  {
    var a, b, r := x.rational, y.rational, x.Div(y);
    var gx, gy := DynProperties.Sgn(a.sign), DynProperties.Sgn(b.sign);
    var dy: int := b.denominator;
    DynProperties.XorSgn(a.sign, b.sign);
    DynProperties.SignedNumeratorSgn(a);
    DynProperties.SignedNumeratorSgn(b);
    DynProperties.SignedNumeratorSgn(r.rational);
    IntProductNonzero(qy.0, dy);
    assert b.numerator != 0;
    DynProperties.ProductNonzero(a.denominator, b.numerator);
    QuotientRepresents(gx, gy, a.numerator, b.numerator, a.denominator, b.denominator, qx.0, qx.1, qy.0, qy.1);
  }

  /**
   * Whenever a tree simplifies and its exact fraction exists, the value it
   * folds to is a rational value with that exact ratio.
   */
  lemma {:induction false} SimplifiedIsExact(e: Expression)
    requires e.Simplified().Returns? && Exact(e).Some?
    ensures Represents(e.Simplified().value.value, Exact(e).value)
    decreases e
  {
    if !e.ValueExpression? {
      var op, l, r := OpOf(e), e.lhs, e.rhs;
      FoldNeedsBothSides(op, l, r);
      assert Exact(e) == ExactOp(op, Exact(l), Exact(r)) by {
        match op
        case Plus =>
        case Minus =>
        case Times =>
        case Over =>
      }
      SimplifiedIsExact(l);
      SimplifiedIsExact(r);
      ApplyRepresents(op, l.Simplified().value.value, r.Simplified().value.value, Exact(l).value, Exact(r).value);
    }
  }

  // ---------------------------------------------------------------------
  // Text

  /** The number of operator nodes. */
  function BinaryNodes(e: Expression): nat
  {
    if e.ValueExpression? then 0 else 1 + BinaryNodes(e.lhs) + BinaryNodes(e.rhs)
  }

  /** `s` holds neither parenthesis. */
  predicate Plain(s: string)
  {
    Count(s, '(') == 0 && Count(s, ')') == 0
  }

  lemma PlainConcat(a: string, b: string)
    requires Plain(a) && Plain(b)
    ensures Plain(a + b)
  {
    CountConcat(a, b, '(');
    CountConcat(a, b, ')');
  }

  lemma DigitsPlain(s: string)
    requires Numerals.AllDigits(s)
    ensures Plain(s)
  {
    assert '(' !in s && ')' !in s by {
      forall i | 0 <= i < |s|
        ensures s[i] != '(' && s[i] != ')'
      {
        assert Numerals.IsDigit(s[i]);
      }
    }
    CountAbsent(s, '(');
    CountAbsent(s, ')');
  }

  lemma LiteralPlain(s: string)
    requires '(' !in s && ')' !in s
    ensures Plain(s)
  {
    CountAbsent(s, '(');
    CountAbsent(s, ')');
  }

  /** A value's text holds no parenthesis. */
  lemma ValueTextPlain(v: Value)
    ensures Plain(v.ToString())
  {
    match v
    case Undefined =>
      LiteralPlain("undefined");
    case Rational(x) =>
      var minus := if x.sign.ToBool() then "-" else "";
      var n, d := Numerals.NatToString(x.numerator), Numerals.NatToString(x.denominator);
      LiteralPlain(minus);
      DigitsPlain(n);
      PlainConcat(minus, n);
      if x.denominator != 1 {
        LiteralPlain("/");
        DigitsPlain(d);
        PlainConcat(minus + n, "/");
        PlainConcat(minus + n + "/", d);
      }
  }

  /** The operator between the sides of a node's text. */
  function OpText(op: BinaryOp): string
  {
    match op
    case Plus => " + "
    case Minus => " - "
    case Times => " * "
    case Over => " / "
  }

  /** A node's text: both sides in one pair of parentheses around the operator. */
  lemma NodeText(op: BinaryOp, l: Expression, r: Expression)
    ensures Node(op, l, r).ToString() == "(" + l.ToString() + OpText(op) + r.ToString() + ")"
  {
    match op
    case Plus =>
    case Minus =>
    case Times =>
    case Over =>
  }

  /** Parentheses around `x`, `t` and `y` add one of each to theirs. */
  lemma WrappedCounts(x: string, t: string, y: string, c: char)
    requires c == '(' || c == ')'
    requires c !in t
    ensures Count("(" + x + t + y + ")", c) == Count(x, c) + Count(y, c) + 1
  {
    CountAbsent(t, c);
    assert Count("(", c) + Count(")", c) == 1;
    CountConcat("(", x, c);
    CountConcat("(" + x, t, c);
    CountConcat("(" + x + t, y, c);
    CountConcat("(" + x + t + y, ")", c);
  }

  /** `to_string` writes one pair of parentheses per operator node and no other. */
  lemma {:induction false} ToStringParentheses(e: Expression)
    ensures Count(e.ToString(), '(') == BinaryNodes(e)
    ensures Count(e.ToString(), ')') == BinaryNodes(e)
    decreases e
  {
    if e.ValueExpression? {
      ValueTextPlain(e.value);
    } else {
      var op, l, r := OpOf(e), e.lhs, e.rhs;
      NodeText(op, l, r);
      ToStringParentheses(l);
      ToStringParentheses(r);
      var t := OpText(op);
      assert '(' !in t && ')' !in t;
      WrappedCounts(l.ToString(), t, r.ToString(), '(');
      WrappedCounts(l.ToString(), t, r.ToString(), ')');
    }
  }

  // ---------------------------------------------------------------------
  // Examples

  function Whole(sign: Sign, n: nat): Expression
  {
    ValueExpression(Rational(RationalValue(sign, n, 1)))
  }

  /** `(-1) + (-1)` never ends: its `simplified` is `Panics`. */
  lemma NegativeSumPanics()
    ensures AdditionExpression(Whole(Negative, 1), Whole(Negative, 1)).Simplified() == Panics
  {
  }

  /** `1 - 2` underflows: its `simplified` is `Panics`. */
  lemma UnderflowPanicsInTree()
    ensures SubtractionExpression(Whole(Positive, 1), Whole(Positive, 2)).Simplified() == Panics
  {
  }

  /** `2 * 3 / 4` is 6/4: products and quotients are not reduced. */
  lemma ProductNotReduced()
    ensures DivisionExpression(MultiplicationExpression(Whole(Positive, 2), Whole(Positive, 3)), Whole(Positive, 4)).Simplified()
      == Returns(ValueExpression(Rational(RationalValue(Positive, 6, 4))))
  {
  }

  /** `1/2 + 1/3` is 5/6. */
  lemma SumOfFractions()
    ensures AdditionExpression(DivisionExpression(Whole(Positive, 1), Whole(Positive, 2)),
                               DivisionExpression(Whole(Positive, 1), Whole(Positive, 3))).Simplified()
      == Returns(ValueExpression(Rational(RationalValue(Positive, 5, 6))))
  {
    var half, third := RationalValue(Positive, 1, 2), RationalValue(Positive, 1, 3);
    assert DivisionExpression(Whole(Positive, 1), Whole(Positive, 2)).Simplified() == Returns(ValueExpression(Rational(half)));
    assert DivisionExpression(Whole(Positive, 1), Whole(Positive, 3)).Simplified() == Returns(ValueExpression(Rational(third)));
    assert GcdNat(5, 6) == 1 by {
      assert GcdNat(5, 6) == GcdNat(6, 5) == GcdNat(5, 1) == GcdNat(1, 0);
    }
  }
}
