/**
 * What the operator table of `parse_pairs` means for the trees it builds:
 * products bind tighter than sums, equal levels group to the left,
 * factorial binds tighter than negation, the whole input is consumed, and
 * an implicit product is built from every one of its factors.
 */
module CalcParseProperties {
  import opened Prelude
  import Calc
  import CalcProperties
  import opened CalcParse

  /** `p` is an operand pair whose primary mapping returns `x`. */
  predicate Operand(p: Pair, x: Calc.Expression)
  {
    Operator(p.rule).None? && MapPrimary(p) == Returns(x)
  }

  /** An operand at the end of the input stands alone, at every binding power. */
  lemma LastOperand(z: Pair, x: Calc.Expression, rbp: int)
    requires Operand(z, x)
    ensures Expr([z], rbp) == Returns((x, []))
  {
    assert [z][1..] == [];
  }

  /** At the top level the parser stops only at the end of the input. */
  lemma ParsesEverything(ps: seq<Pair>)
    requires Expr(ps, 0).Returns?
    ensures Expr(ps, 0).value.1 == []
  {
  }

  /** An operand first: pest maps it and goes on to the operator loop. */
  lemma OperandFirst(ps: seq<Pair>, x: Calc.Expression, rbp: int)
    requires ps != [] && Operand(ps[0], x)
    ensures Expr(ps, rbp) == ExprLoop(x, ps[1..], rbp)
  {
  }

  /** The operator loop ends at the end of the input. */
  lemma LoopEnds(lhs: Calc.Expression, rbp: int)
    ensures ExprLoop(lhs, [], rbp) == Returns((lhs, []))
  {
  }

  /** The operator loop stops before an operator that binds no tighter than `rbp`. */
  lemma LoopStops(lhs: Calc.Expression, rest: seq<Pair>, rbp: int)
    requires rest != [] && Operator(rest[0].rule).Some? && Operator(rest[0].rule).value.1 <= rbp
    ensures ExprLoop(lhs, rest, rbp) == Returns((lhs, rest))
  {
  }

  /**
   * A left-associative infix operator binding tighter than `rbp` takes the
   * expression after it at its own power and the loop goes on.
   */
  lemma LoopInfix(lhs: Calc.Expression, rest: seq<Pair>, rbp: int, rhs: Calc.Expression, after: seq<Pair>, e: Calc.Expression)
    requires rest != [] && Operator(rest[0].rule).Some?
    requires Operator(rest[0].rule).value.0 == Infix(Left) && Operator(rest[0].rule).value.1 > rbp
    requires Expr(rest[1..], Operator(rest[0].rule).value.1) == Returns((rhs, after))
    requires MapInfix(lhs, rest[0].rule, rhs) == Returns(e)
    ensures ExprLoop(lhs, rest, rbp) == ExprLoop(e, after, rbp)
  {
  }

  /** A postfix operator binding tighter than `rbp` is applied and the loop goes on. */
  lemma LoopPostfix(lhs: Calc.Expression, rest: seq<Pair>, rbp: int, e: Calc.Expression)
    requires rest != [] && Operator(rest[0].rule).Some?
    requires Operator(rest[0].rule).value.0 == Postfix && Operator(rest[0].rule).value.1 > rbp
    requires MapPostfix(lhs, rest[0].rule) == Returns(e)
    ensures ExprLoop(lhs, rest, rbp) == ExprLoop(e, rest[1..], rbp)
  {
  }

  /** A prefix operator first: its operand is parsed one below its own power, then the loop goes on. */
  lemma PrefixFirst(ps: seq<Pair>, rbp: int, prec: nat, rhs: Calc.Expression, after: seq<Pair>, e: Calc.Expression)
    requires ps != [] && Operator(ps[0].rule) == Some((Prefix, prec))
    requires Expr(ps[1..], prec - 1) == Returns((rhs, after))
    requires MapPrefix(ps[0].rule, rhs) == Returns(e)
    ensures Expr(ps, rbp) == ExprLoop(e, after, rbp)
  {
  }

  /** `x + y \cdot z` is `x + (y \cdot z)`. */
  lemma ProductBindsTighter(x: Pair, y: Pair, z: Pair, a: Calc.Expression, b: Calc.Expression, c: Calc.Expression, plus: Pair, cdot: Pair)
    requires Operand(x, a) && Operand(y, b) && Operand(z, c)
    requires plus.rule == Plus && cdot.rule == Cdot
    ensures ParsePairs([x, plus, y, cdot, z]) == Returns(Calc.Addition(a, Calc.Multiplication(b, c)))
  {
    var bc := Calc.Multiplication(b, c);
    LastOperand(z, c, 20);
    assert [cdot, z][1..] == [z];
    LoopInfix(b, [cdot, z], 10, c, [], bc);
    LoopEnds(bc, 10);
    assert [y, cdot, z][1..] == [cdot, z];
    OperandFirst([y, cdot, z], b, 10);
    assert [plus, y, cdot, z][1..] == [y, cdot, z];
    LoopInfix(a, [plus, y, cdot, z], 0, bc, [], Calc.Addition(a, bc));
    LoopEnds(Calc.Addition(a, bc), 0);
    assert [x, plus, y, cdot, z][1..] == [plus, y, cdot, z];
    OperandFirst([x, plus, y, cdot, z], a, 0);
  }

  /** `x \cdot y + z` is `(x \cdot y) + z`: the product closes before the sum. */
  lemma ProductClosesBeforeSum(x: Pair, y: Pair, z: Pair, a: Calc.Expression, b: Calc.Expression, c: Calc.Expression, cdot: Pair, plus: Pair)
    requires Operand(x, a) && Operand(y, b) && Operand(z, c)
    requires plus.rule == Plus && cdot.rule == Cdot
    ensures ParsePairs([x, cdot, y, plus, z]) == Returns(Calc.Addition(Calc.Multiplication(a, b), c))
  {
    var ab := Calc.Multiplication(a, b);
    LoopStops(b, [plus, z], 20);
    assert [y, plus, z][1..] == [plus, z];
    OperandFirst([y, plus, z], b, 20);
    LastOperand(z, c, 10);
    assert [plus, z][1..] == [z];
    LoopInfix(ab, [plus, z], 0, c, [], Calc.Addition(ab, c));
    LoopEnds(Calc.Addition(ab, c), 0);
    assert [cdot, y, plus, z][1..] == [y, plus, z];
    LoopInfix(a, [cdot, y, plus, z], 0, b, [plus, z], ab);
    assert [x, cdot, y, plus, z][1..] == [cdot, y, plus, z];
    OperandFirst([x, cdot, y, plus, z], a, 0);
  }

  /** `x - y - z` is `(x - y) - z`: operators of one level group to the left. */
  lemma SubtractionGroupsLeft(x: Pair, y: Pair, z: Pair, a: Calc.Expression, b: Calc.Expression, c: Calc.Expression, m1: Pair, m2: Pair)
    requires Operand(x, a) && Operand(y, b) && Operand(z, c)
    requires m1.rule == Minus && m2.rule == Minus
    ensures ParsePairs([x, m1, y, m2, z]) == Returns(Calc.Subtraction(Calc.Subtraction(a, b), c))
  {
    var ab := Calc.Subtraction(a, b);
    LoopStops(b, [m2, z], 10);
    assert [y, m2, z][1..] == [m2, z];
    OperandFirst([y, m2, z], b, 10);
    LastOperand(z, c, 10);
    assert [m2, z][1..] == [z];
    LoopInfix(ab, [m2, z], 0, c, [], Calc.Subtraction(ab, c));
    LoopEnds(Calc.Subtraction(ab, c), 0);
    assert [m1, y, m2, z][1..] == [y, m2, z];
    LoopInfix(a, [m1, y, m2, z], 0, b, [m2, z], ab);
    assert [x, m1, y, m2, z][1..] == [m1, y, m2, z];
    OperandFirst([x, m1, y, m2, z], a, 0);
  }

  /** `x / y / z` is `(x / y) / z`: division groups to the left. */
  lemma DivisionGroupsLeft(x: Pair, y: Pair, z: Pair, a: Calc.Expression, b: Calc.Expression, c: Calc.Expression, s1: Pair, s2: Pair)
    requires Operand(x, a) && Operand(y, b) && Operand(z, c)
    requires s1.rule == Slash && s2.rule == Slash
    ensures ParsePairs([x, s1, y, s2, z]) == Returns(Calc.Division(Calc.Division(a, b), c))
  {
    var ab := Calc.Division(a, b);
    LoopStops(b, [s2, z], 20);
    assert [y, s2, z][1..] == [s2, z];
    OperandFirst([y, s2, z], b, 20);
    LastOperand(z, c, 20);
    assert [s2, z][1..] == [z];
    LoopInfix(ab, [s2, z], 0, c, [], Calc.Division(ab, c));
    LoopEnds(Calc.Division(ab, c), 0);
    assert [s1, y, s2, z][1..] == [y, s2, z];
    LoopInfix(a, [s1, y, s2, z], 0, b, [s2, z], ab);
    assert [x, s1, y, s2, z][1..] == [s1, y, s2, z];
    OperandFirst([x, s1, y, s2, z], a, 0);
  }

  /** `x + y / z` is `x + (y / z)`: a quotient binds tighter than a sum. */
  lemma QuotientBindsTighter(x: Pair, y: Pair, z: Pair, a: Calc.Expression, b: Calc.Expression, c: Calc.Expression, plus: Pair, slash: Pair)
    requires Operand(x, a) && Operand(y, b) && Operand(z, c)
    requires plus.rule == Plus && slash.rule == Slash
    ensures ParsePairs([x, plus, y, slash, z]) == Returns(Calc.Addition(a, Calc.Division(b, c)))
  {
    var bc := Calc.Division(b, c);
    LastOperand(z, c, 20);
    assert [slash, z][1..] == [z];
    LoopInfix(b, [slash, z], 10, c, [], bc);
    LoopEnds(bc, 10);
    assert [y, slash, z][1..] == [slash, z];
    OperandFirst([y, slash, z], b, 10);
    assert [plus, y, slash, z][1..] == [y, slash, z];
    LoopInfix(a, [plus, y, slash, z], 0, bc, [], Calc.Addition(a, bc));
    LoopEnds(Calc.Addition(a, bc), 0);
    assert [x, plus, y, slash, z][1..] == [plus, y, slash, z];
    OperandFirst([x, plus, y, slash, z], a, 0);
  }

  /** `x - y * z` is `x - (y * z)`: the asterisk is a product like `\cdot`. */
  lemma AsteriskBindsTighter(x: Pair, y: Pair, z: Pair, a: Calc.Expression, b: Calc.Expression, c: Calc.Expression, minus: Pair, star: Pair)
    requires Operand(x, a) && Operand(y, b) && Operand(z, c)
    requires minus.rule == Minus && star.rule == Asterisk
    ensures ParsePairs([x, minus, y, star, z]) == Returns(Calc.Subtraction(a, Calc.Multiplication(b, c)))
  {
    var bc := Calc.Multiplication(b, c);
    LastOperand(z, c, 20);
    assert [star, z][1..] == [z];
    LoopInfix(b, [star, z], 10, c, [], bc);
    LoopEnds(bc, 10);
    assert [y, star, z][1..] == [star, z];
    OperandFirst([y, star, z], b, 10);
    assert [minus, y, star, z][1..] == [y, star, z];
    LoopInfix(a, [minus, y, star, z], 0, bc, [], Calc.Subtraction(a, bc));
    LoopEnds(Calc.Subtraction(a, bc), 0);
    assert [x, minus, y, star, z][1..] == [minus, y, star, z];
    OperandFirst([x, minus, y, star, z], a, 0);
  }

  /** `-x!` is `-(x!)`: the postfix factorial binds tighter than the prefix negation. */
  lemma FactorialBindsTighterThanNegation(neg: Pair, x: Pair, bang: Pair, a: Calc.Expression)
    requires Operand(x, a) && neg.rule == Negate && bang.rule == Factorial
    ensures ParsePairs([neg, x, bang]) == Returns(Calc.Negation(Calc.Factorial(a)))
  {
    var fa := Calc.Factorial(a);
    assert [bang][1..] == [];
    LoopPostfix(a, [bang], 29, fa);
    LoopEnds(fa, 29);
    assert [x, bang][1..] == [bang];
    OperandFirst([x, bang], a, 29);
    assert [neg, x, bang][1..] == [x, bang];
    PrefixFirst([neg, x, bang], 0, 30, fa, [], Calc.Negation(fa));
    LoopEnds(Calc.Negation(fa), 0);
  }


  /** `-x + y` is `(-x) + y`: negation binds tighter than a sum. */
  lemma NegationBindsTighterThanSum(neg: Pair, x: Pair, plus: Pair, y: Pair, a: Calc.Expression, b: Calc.Expression)
    requires Operand(x, a) && Operand(y, b) && neg.rule == Negate && plus.rule == Plus
    ensures ParsePairs([neg, x, plus, y]) == Returns(Calc.Addition(Calc.Negation(a), b))
  {
    LoopStops(a, [plus, y], 29);
    assert [x, plus, y][1..] == [plus, y];
    OperandFirst([x, plus, y], a, 29);
    LastOperand(y, b, 10);
    assert [plus, y][1..] == [y];
    LoopInfix(Calc.Negation(a), [plus, y], 0, b, [], Calc.Addition(Calc.Negation(a), b));
    LoopEnds(Calc.Addition(Calc.Negation(a), b), 0);
    assert Expr([x, plus, y], 29) == Returns((a, [plus, y]));
    assert [neg, x, plus, y][1..] == [x, plus, y];
    assert Operator([neg, x, plus, y][0].rule) == Some((Prefix, 30));
    assert Expr([neg, x, plus, y][1..], 30 - 1) == Returns((a, [plus, y]));
    assert MapPrefix([neg, x, plus, y][0].rule, a) == Returns(Calc.Negation(a));
    PrefixFirst([neg, x, plus, y], 0, 30, a, [plus, y], Calc.Negation(a));
  }

  /** Two operands in a row are not an expression: pest finds an operand where it expects an operator. */
  lemma AdjacentOperandsPanic(x: Pair, y: Pair, a: Calc.Expression, b: Calc.Expression)
    requires Operand(x, a) && Operand(y, b)
    ensures ParsePairs([x, y]) == Panics
  {
    assert [x, y][1..] == [y];
    OperandFirst([x, y], a, 0);
    assert ExprLoop(a, [y], 0) == Panics;
  }

  /** An implicit product fails exactly when it is empty or one of its factors fails. */
  lemma {:induction false} ImplicitProductPanics(inner: seq<Pair>)
    ensures ImplicitProduct(inner).Panics? <==>
      inner == [] || exists i :: 0 <= i < |inner| && ParsePairs([inner[i]]).Panics?
  {
    if |inner| > 1 {
      ImplicitProductPanics(inner[1..]);
      if exists i :: 0 <= i < |inner| && ParsePairs([inner[i]]).Panics? {
        var i :| 0 <= i < |inner| && ParsePairs([inner[i]]).Panics?;
        if i > 0 {
          assert inner[1..][i - 1] == inner[i];
        }
      }
      if exists j :: 0 <= j < |inner[1..]| && ParsePairs([inner[1..][j]]).Panics? {
        var j :| 0 <= j < |inner[1..]| && ParsePairs([inner[1..][j]]).Panics?;
        assert inner[1..][j] == inner[j + 1];
      }
    }
  }

  /** The number of factors along the right spine of nested products. */
  function SpineLength(e: Calc.Expression): (n: nat)
    ensures n >= 1
  {
    if e.Multiplication? then 1 + SpineLength(e.rhs) else 1
  }

  /**
   * A product of factors that are not products themselves has one factor
   * on its right spine per inner pair: none is dropped or merged.
   */
  lemma {:induction false} ImplicitProductKeepsFactors(inner: seq<Pair>)
    requires ImplicitProduct(inner).Returns?
    requires forall i :: 0 <= i < |inner| && ParsePairs([inner[i]]).Returns? ==> !ParsePairs([inner[i]]).value.Multiplication?
    ensures SpineLength(ImplicitProduct(inner).value) == |inner|
  {
    if |inner| > 1 {
      assert forall i :: 0 <= i < |inner[1..]| ==> inner[1..][i] == inner[i + 1];
      ImplicitProductKeepsFactors(inner[1..]);
    }
  }

  /** The pairs of `2xy`: an implicit product of a number and two variables. */
  function TwoXY(): seq<Pair>
  {
    [Pair(ImplicitMultiplication, "2xy",
          [Pair(Number, "2", []), Pair(Variable, "x", []), Pair(Variable, "y", [])])]
  }

  /** The tree `2xy` stands for: `2 * (x * y)`. */
  function TwoXYTree(): Calc.Expression
  {
    Calc.Multiplication(Calc.Value(Calc.Rational(2, 1)), Calc.Multiplication(Calc.Variable("x"), Calc.Variable("y")))
  }

  /** `2xy` parses to `2 * (x * y)`, renders back as `2xy`, and is 24 for x = 3, y = 4. */
  lemma TwoXYExample()
    ensures ParsePairs(TwoXY()) ==
      Returns(Calc.Multiplication(Calc.Value(Calc.Rational(2, 1)),
                                  Calc.Multiplication(Calc.Variable("x"), Calc.Variable("y"))))
    ensures Calc.Render(ParsePairs(TwoXY()).value) == "2xy"
    ensures Calc.Evaluate(ParsePairs(TwoXY()).value, map["x" := Calc.Rational(3, 1), "y" := Calc.Rational(4, 1)])
      == Returns(Ok(Calc.Rational(24, 1)))
  {
    TwoXYParses();
    TwoXYRenders();
    TwoXYEvaluates();
  }

  lemma TwoXYParses()
    ensures ParsePairs(TwoXY()) == Returns(TwoXYTree())
  {
    var two := Pair(Number, "2", []);
    var x := Pair(Variable, "x", []);
    var y := Pair(Variable, "y", []);
    CalcProperties.IntegerDisplayParses(2);
    assert Calc.Display(Calc.FromInt(2)) == "2";
    LastOperand(two, Calc.Value(Calc.Rational(2, 1)), 0);
    LastOperand(x, Calc.Variable("x"), 0);
    LastOperand(y, Calc.Variable("y"), 0);
    var inner := [two, x, y];
    assert inner[1..] == [x, y] && inner[1..][1..] == [y];
    assert ImplicitProduct([y]) == Returns(Calc.Variable("y"));
    assert ImplicitProduct([x, y]) == Returns(Calc.Multiplication(Calc.Variable("x"), Calc.Variable("y")));
    assert ImplicitProduct(inner) == Returns(TwoXYTree());
    var p := TwoXY()[0];
    assert TwoXY()[1..] == [];
    assert Operator(p.rule).None?;
    OperandFirst(TwoXY(), TwoXYTree(), 0);
    LoopEnds(TwoXYTree(), 0);
  }

  lemma TwoXYRenders()
    ensures Calc.Render(TwoXYTree()) == "2xy"
  {
  }

  lemma TwoXYEvaluates()
    ensures Calc.Evaluate(TwoXYTree(), map["x" := Calc.Rational(3, 1), "y" := Calc.Rational(4, 1)])
      == Returns(Ok(Calc.Rational(24, 1)))
  {
    var twelve := Calc.Mul(Calc.Rational(3, 1), Calc.Rational(4, 1));
    CalcProperties.GcdWithOne(12);
    CalcProperties.CanonicalUnique(twelve, Calc.Rational(12, 1));
    var product := Calc.Mul(Calc.Rational(2, 1), Calc.Rational(12, 1));
    CalcProperties.GcdWithOne(24);
    CalcProperties.CanonicalUnique(product, Calc.Rational(24, 1));
  }
}
