/**
 * The integer toolkit both designs lean on: Rust's truncating `/`, the
 * `gcd` and `lcm` of the `num` crate, and powers and logarithms of ten.
 * Integers are unbounded here; the i128 overflow of the closed-enum design
 * is not modelled.
 */
module Integers {

  function Abs(x: int): nat
  {
    if x < 0 then -x else x
  }

  /** Rust's `/` on integers: the quotient truncated toward zero. */
  function TruncDiv(a: int, b: int): int
    requires b != 0
  {
    if (a < 0) == (b < 0) then Abs(a) / Abs(b) else -(Abs(a) / Abs(b))
  }

  /**
   * The truncated quotient has the magnitude of the quotient of the
   * magnitudes and is negative only when exactly one operand is.
   */
  lemma TruncDivTowardZero(a: int, b: int)
    requires b != 0
    ensures Abs(TruncDiv(a, b)) == Abs(a) / Abs(b)
    ensures TruncDiv(a, b) > 0 ==> (a < 0) == (b < 0)
    ensures TruncDiv(a, b) < 0 ==> (a < 0) != (b < 0)
  {
    DivNonnegative(Abs(a), Abs(b));
  }

  lemma DivNonnegative(x: nat, y: nat)
    requires y > 0
    ensures x / y >= 0
  {
  }

  /** Reducing `n/d` divides both by gcd(n, d), which is zero only for 0/0. */
  predicate Reducible(n: int, d: int)
  {
    n != 0 || d != 0
  }

  /** `d` divides `n`; only 0 is divisible by 0. */
  predicate Divides(d: nat, n: nat)
  {
    if d == 0 then n == 0 else n % d == 0
  }

  /** Euclid's algorithm on naturals; `GcdNat(0, 0) == 0`. */
  function GcdNat(a: nat, b: nat): (g: nat)
    ensures g == 0 <==> a == 0 && b == 0
    ensures a == 0 ==> g == b
    decreases b
  {
    if b == 0 then a else GcdNat(b, a % b)
  }

  /**
   * `num::integer::gcd`: never negative, `gcd(0, d) == |d|` and
   * `gcd(0, 0) == 0`.
   */
  function Gcd(a: int, b: int): (g: nat)
    ensures g == 0 <==> a == 0 && b == 0
    ensures a == 0 ==> g == Abs(b)
    ensures Divides(g, Abs(a)) && Divides(g, Abs(b))
  {
    GcdNatDivides(Abs(a), Abs(b));
    GcdNat(Abs(a), Abs(b))
  }

  /**
   * `num::integer::lcm`: `0` when both are `0`, otherwise
   * `|a * (b / gcd(a, b))|`; it is a common multiple, and it is zero exactly
   * when an argument is.
   */
  function Lcm(a: int, b: int): (l: nat)
    ensures l == 0 <==> a == 0 || b == 0
    ensures a != 0 ==> TruncDiv(l, a) * a == l
    ensures b != 0 ==> TruncDiv(l, b) * b == l
  {
    if a == 0 && b == 0 then 0
    else
      var g := Gcd(a, b);
      LcmIsCommonMultiple(a, b);
      Abs(a * TruncDiv(b, g))
  }

  function Pow10(k: nat): (p: nat)
    ensures p >= 1
  {
    if k == 0 then 1 else 10 * Pow10(k - 1)
  }

  /** `checked_ilog10` of a positive number: the largest `k` with `10^k <= n`. */
  function ILog10(n: nat): (k: nat)
    requires n > 0
    ensures Pow10(k) <= n < Pow10(k + 1)
  {
    if n < 10 then 0 else 1 + ILog10(n / 10)
  }

  // ---------------------------------------------------------------------
  // Divisibility facts

  lemma MulDivExact(y: nat, q: nat)
    requires y > 0
    ensures (y * q) / y == q && (y * q) % y == 0
  {
    var r := (y * q) % y;
    var d := (y * q) / y;
    assert y * q == y * d + r;
    assert y * (q - d) == r;
    MulMonotone(y, q - d);
  }

  /** A positive factor keeps a product of magnitude at least itself unless the other factor is zero. */
  lemma MulMonotone(y: int, m: int)
    requires y > 0
    ensures m >= 1 ==> y * m >= y
    ensures m <= -1 ==> y * m <= -y
    ensures m == 0 <==> y * m == 0
    ensures m > 0 <==> y * m > 0
  {
  }

  /** A divisor of `x` and of `y` divides `x + c * y`, whenever that is a natural number. */
  lemma DividesCombination(k: nat, x: nat, y: nat, c: int)
    requires k > 0 && Divides(k, x) && Divides(k, y) && x + c * y >= 0
    ensures Divides(k, x + c * y)
  {
    var qx, qy := x / k, y / k;
    assert x == k * qx;
    assert y == k * qy;
    var s := qx + c * qy;
    assert x + c * y == k * s by {
      assert c * y == c * (k * qy) == k * (c * qy);
    }
    MulMonotone(k, s);
    MulDivExact(k, s);
  }

  lemma DividesTransitive(a: nat, b: nat, c: nat)
    requires a > 0 && b > 0 && Divides(a, b) && Divides(b, c)
    ensures Divides(a, c)
  {
    var p, q := b / a, c / b;
    assert b == a * p;
    assert c == b * q;
    assert c == a * (p * q);
    MulDivExact(a, p * q);
  }

  lemma DividesBounded(k: nat, n: nat)
    requires n > 0 && Divides(k, n)
    ensures 0 < k <= n
  {
    var q := n / k;
    assert n == k * q;
    MulMonotone(k, q);
  }

  lemma {:induction false} GcdNatDivides(a: nat, b: nat)
    ensures Divides(GcdNat(a, b), a) && Divides(GcdNat(a, b), b)
    decreases b
  {
    if b != 0 {
      GcdNatDivides(b, a % b);
      var g := GcdNat(a, b);
      assert a == (a % b) + (a / b) * b;
      DividesCombination(g, a % b, b, a / b);
    }
  }

  /** Every common divisor divides the gcd: the gcd is the greatest one. */
  lemma {:induction false} GcdNatGreatest(a: nat, b: nat, k: nat)
    requires k > 0 && Divides(k, a) && Divides(k, b)
    ensures Divides(k, GcdNat(a, b))
    decreases b
  {
    if b != 0 {
      assert a % b == a + (-(a / b)) * b;
      DividesCombination(k, a, b, -(a / b));
      GcdNatGreatest(b, a % b, k);
    }
  }

  /** Dividing both arguments by their gcd leaves coprime numbers. */
  lemma GcdNatOfReduced(a: nat, b: nat, a': nat, b': nat)
    requires a != 0 || b != 0
    requires a == GcdNat(a, b) * a' && b == GcdNat(a, b) * b'
    ensures GcdNat(a', b') == 1
  {
    var g := GcdNat(a, b);
    MulMonotone(g, a');
    MulMonotone(g, b');
    var h := GcdNat(a', b');
    GcdNatDivides(a', b');
    ScaledDivisor(g, h, a');
    ScaledDivisor(g, h, b');
    GcdNatGreatest(a, b, g * h);
    DividesBounded(g * h, g);
    ProductBelowFactor(g, h);
  }

  /** `g` times the quotient by a divisor `g` gives back `n`, and zero only for zero. */
  /** Two numbers with a common factor, cross-multiplied with their cofactors. */
  lemma CrossOfCofactors(g: int, a: int, b: int, n: int, d: int)
    requires a == g * n && b == g * d
    ensures n * b == a * d
  {
    calc {
      n * b;
      n * (g * d);
      (g * n) * d;
      a * d;
    }
  }

  lemma QuotientOfDivisor(g: nat, n: nat)
    requires g > 0 && Divides(g, n)
    ensures g * (n / g) == n && (n / g == 0 <==> n == 0)
  {
  }

  lemma ProductBelowFactor(g: nat, h: nat)
    requires g > 0 && h > 0 && g * h <= g
    ensures h == 1
  {
    MulMonotone(g, h - 1);
  }

  /** If `h` divides `x`, then `g * h` divides `g * x`. */
  lemma ScaledDivisor(g: nat, h: nat, x: nat)
    requires g > 0 && h > 0 && Divides(h, x)
    ensures g * h > 0 && Divides(g * h, g * x)
  {
    var s := x / h;
    assert x == h * s;
    assert g * x == (g * h) * s;
    MulMonotone(g, h);
    MulDivExact(g * h, s);
  }

  /** Rust's `/` is exact on a multiple of the divisor. */
  lemma TruncDivExact(x: int, y: int, q: int)
    requires y != 0 && x == y * q
    ensures TruncDiv(x, y) == q
  {
    assert Abs(x) == Abs(y) * Abs(q) by {
      if y < 0 && q < 0 { assert x == (-y) * (-q); }
      else if y < 0 { assert -x == (-y) * q; }
      else if q < 0 { assert -x == y * (-q); }
    }
    MulDivExact(Abs(y), Abs(q));
    if q == 0 {
      assert x == 0;
    } else if q > 0 {
      assert (x < 0) == (y < 0) by {
        if y < 0 { assert y * q < 0; } else { assert y * q > 0; }
      }
    } else {
      assert (x < 0) != (y < 0) by {
        if y < 0 { assert (-y) * (-q) > 0; } else { assert y * (-q) > 0; }
      }
    }
  }

  /** Rust's `/` by a positive divisor of `|n|` is exact and keeps the sign. */
  lemma TruncDivByDivisor(n: int, g: nat)
    requires g > 0 && Divides(g, Abs(n))
    ensures TruncDiv(n, g) * g == n
    ensures Abs(TruncDiv(n, g)) == Abs(n) / g
    ensures (TruncDiv(n, g) < 0 <==> n < 0) && (TruncDiv(n, g) == 0 <==> n == 0)
  {
    var q := Abs(n) / g;
    assert Abs(n) == g * q;
    if n < 0 {
      assert n == g * (-q);
      TruncDivExact(n, g, -q);
    } else {
      TruncDivExact(n, g, q);
    }
  }

  lemma LcmIsCommonMultiple(a: int, b: int)
    requires a != 0 || b != 0
    ensures var l := Abs(a * TruncDiv(b, Gcd(a, b)));
      && (l == 0 <==> a == 0 || b == 0)
      && (a != 0 ==> TruncDiv(l, a) * a == l)
      && (b != 0 ==> TruncDiv(l, b) * b == l)
  {
    var g := Gcd(a, b);
    var a', b' := TruncDiv(a, g), TruncDiv(b, g);
    TruncDivByDivisor(a, g);
    TruncDivByDivisor(b, g);
    var l := Abs(a * b');
    AbsMul(a, b');
    MulMonotone(Abs(a) + 1, 0);
    assert l == 0 <==> a == 0 || b == 0 by {
      if a != 0 { MulMonotone(Abs(a), Abs(b')); }
    }
    if a != 0 {
      MultipleOfAbs(l, a, Abs(b'));
    }
    if b != 0 {
      AbsMul(a', g);
      AbsMul(b', g);
      SwapFactor(Abs(a'), Abs(b'), g);
      MultipleOfAbs(l, b, Abs(a'));
    }
  }

  lemma AbsMul(x: int, y: int)
    ensures Abs(x * y) == Abs(x) * Abs(y)
  {
    if x < 0 && y < 0 {
      assert x * y == (-x) * (-y);
    } else if x < 0 {
      assert -(x * y) == (-x) * y;
    } else if y < 0 {
      assert -(x * y) == x * (-y);
    }
  }

  lemma SwapFactor(p: nat, q: nat, g: nat)
    ensures (p * g) * q == p * (q * g)
  {
  }

  /** A multiple of `|x|` divided by `x` with Rust's `/` and multiplied back is unchanged. */
  lemma MultipleOfAbs(l: nat, x: int, m: nat)
    requires x != 0 && l == Abs(x) * m
    ensures TruncDiv(l, x) * x == l
  {
    var q: int := if x < 0 then -(m as int) else m;
    assert l == x * q;
    TruncDivExact(l, x, q);
  }

  /** Dividing both parts of a fraction by their gcd gives coprime parts of the same signs. */
  lemma DivideByGcd(n: int, d: int)
    requires n != 0 || d != 0
    ensures var g := Gcd(n, d);
      && g > 0
      && TruncDiv(n, g) * g == n && TruncDiv(d, g) * g == d
      && Gcd(TruncDiv(n, g), TruncDiv(d, g)) == 1
  {
    var g := Gcd(n, d);
    TruncDivByDivisor(n, g);
    TruncDivByDivisor(d, g);
    QuotientOfDivisor(g, Abs(n));
    QuotientOfDivisor(g, Abs(d));
    GcdNatOfReduced(Abs(n), Abs(d), Abs(n) / g, Abs(d) / g);
  }

  /** Cancelling a nonzero factor from both sides of a product equation. */
  lemma CancelFactor(x: int, y: int, k: int)
    requires k != 0 && x * k == y * k
    ensures x == y
  {
    assert (x - y) * k == 0;
  }

  /**
   * Truncating toward zero leaves a remainder smaller than the divisor in
   * magnitude and never of the opposite sign to the dividend.
   */
  lemma TruncDivRemainder(a: int, b: int)
    requires b != 0
    ensures var r := a - TruncDiv(a, b) * b;
      Abs(r) < Abs(b) && (r < 0 ==> a < 0) && (r > 0 ==> a > 0)
  {
    var m, k := TruncDivParts(a, b);
    var q := TruncDiv(a, b);
    RemainderOf(a, b, q, m, k);
    SignedRemainder(a, b, a - q * b, k);
  }

  /** The magnitude `m` of the truncated quotient and the remainder `k` of the magnitudes. */
  lemma TruncDivParts(a: int, b: int) returns (m: int, k: int)
    requires b != 0
    ensures TruncDiv(a, b) == (if (a < 0) == (b < 0) then m else -m)
    ensures Abs(a) == m * Abs(b) + k && 0 <= k < Abs(b) && k <= Abs(a)
  {
    m, k := Abs(a) / Abs(b), Abs(a) % Abs(b);
    DivModParts(Abs(a), Abs(b));
    DivNonnegative(Abs(a), Abs(b));
    assert m * Abs(b) >= 0;
  }

  lemma SignedRemainder(a: int, b: int, r: int, k: int)
    requires 0 <= k < Abs(b) && k <= Abs(a) && r == (if a < 0 then -k else k)
    ensures Abs(r) < Abs(b) && (r < 0 ==> a < 0) && (r > 0 ==> a > 0)
  {
  }

  lemma DivModParts(x: nat, y: nat)
    requires y > 0
    ensures x == (x / y) * y + x % y && 0 <= x % y < y
  {
  }

  /** The remainder of `a` by `b` for the quotient `q` of magnitude `m`. */
  lemma RemainderOf(a: int, b: int, q: int, m: int, k: int)
    requires b != 0 && Abs(a) == m * Abs(b) + k
    requires q == (if (a < 0) == (b < 0) then m else -m)
    ensures a - q * b == (if a < 0 then -k else k)
  {
    if b > 0 {
      assert Abs(b) == b;
    } else {
      assert Abs(b) == -b;
      Negated(m, b);
    }
  }

  lemma Negated(m: int, y: int)
    ensures m * -y == -(m * y) && -m * y == -(m * y)
  {
  }

  /** Quotient and remainder are the only pair with `x == y * q + r` and `0 <= r < y`. */
  lemma DivModUnique(x: int, y: int, q: int, r: int)
    requires y > 0 && x == y * q + r && 0 <= r < y
    ensures x / y == q && x % y == r
  {
    var q', r' := x / y, x % y;
    assert y * (q - q') == r' - r;
    MulMonotone(y, q - q');
  }

  /** Scaling both operands scales the remainder. */
  lemma ModScaled(k: nat, a: nat, b: nat)
    requires k > 0 && b > 0
    ensures k * b > 0 && (k * a) % (k * b) == k * (a % b)
  {
    MulMonotone(k, b);
    MulMonotone(k, b - a % b);
    assert k * a == (k * b) * (a / b) + k * (a % b) by {
      assert a == b * (a / b) + a % b;
    }
    DivModUnique(k * a, k * b, a / b, k * (a % b));
  }

  /** The gcd of two multiples of `k` is `k` times the gcd. */
  lemma {:induction false} GcdNatScaled(k: nat, a: nat, b: nat)
    ensures GcdNat(k * a, k * b) == k * GcdNat(a, b)
    decreases b
  {
    if b == 0 {
    } else if k == 0 {
    } else {
      ModScaled(k, a, b);
      GcdNatScaled(k, b, a % b);
    }
  }

  /** A number coprime to `n` that divides `m * n` divides `m`. */
  lemma CoprimeDivides(d: nat, n: nat, m: nat)
    requires d > 0 && GcdNat(n, d) == 1 && Divides(d, m * n)
    ensures Divides(d, m)
  {
    var mn, md := m * n, m * d;
    MultipleDivides(d, m);
    GcdNatScaled(m, n, d);
    DividesGcdOf(mn, md, d, m);
  }

  /** A common divisor of `a` and `b` divides `g`, their gcd. */
  lemma DividesGcdOf(a: nat, b: nat, k: nat, g: nat)
    requires k > 0 && Divides(k, a) && Divides(k, b) && g == GcdNat(a, b)
    ensures Divides(k, g)
  {
    GcdNatGreatest(a, b, k);
  }

  lemma MultipleDivides(d: nat, m: nat)
    requires d > 0
    ensures Divides(d, m * d)
  {
    MulDivExact(d, m);
    assert m * d == d * m;
  }

}
