/**
 * `parse_pairs` (src/parse.rs): turns the pairs the LaTeX grammar produces
 * into an `Expression` with a Pratt parser. The grammar itself is not part
 * of this model: its output, a tree of pairs tagged with the grammar's
 * rules, is the input here.
 *
 * The Pratt parser is pest's `PrattParser`, written out: operators are
 * declared in four levels of binding power, 10 for `+` and `-`, 20 for
 * `\cdot`, `*` and `/` (all left-associative infix), 30 for the prefix
 * negation and 40 for the postfix factorial. A prefix operator parses its
 * operand with one less than its own power. Every `unwrap` and
 * `unreachable!` of the source, and each panic of pest's parser (empty
 * input, an operator where an operand belongs, an operand where an
 * operator belongs), is `Panics` here.
 */
module CalcParse {
  import opened Prelude
  import Calc

  /** The grammar rules a pair can be tagged with; `Other` is any rule this parser does not expect. */
  datatype Rule =
    | Number | Variable | ImplicitMultiplication | ParenExpression | Expression
    | Plus | Minus | Cdot | Asterisk | Slash | Negate | Factorial
    | Other(name: string)

  /** A pair of the grammar: its rule, the text it matched and the pairs nested in it. */
  datatype Pair = Pair(rule: Rule, text: string, inner: seq<Pair>)

  datatype Assoc = Left | Right

  datatype Affix = Prefix | Postfix | Infix(assoc: Assoc)

  /** The operator table `PARSER` is built with: affix and binding power, or `None` for an operand. */
  function Operator(r: Rule): (op: Option<(Affix, nat)>)
    ensures op.Some? ==> op.value.1 >= 10
    ensures op.Some? <==> r in {Plus, Minus, Cdot, Asterisk, Slash, Negate, Factorial}
  {
    match r
    case Plus => Some((Infix(Left), 10))
    case Minus => Some((Infix(Left), 10))
    case Cdot => Some((Infix(Left), 20))
    case Asterisk => Some((Infix(Left), 20))
    case Slash => Some((Infix(Left), 20))
    case Negate => Some((Prefix, 30))
    case Factorial => Some((Postfix, 40))
    case _ => None
  }

  function Size(p: Pair): (n: nat)
    ensures n >= 1
    decreases p
  {
    1 + SizeSeq(p.inner)
  }

  /** The number of pairs in a sequence of trees, counting nested ones. */
  function SizeSeq(ps: seq<Pair>): nat
    decreases ps
  {
    if ps == [] then 0 else Size(ps[0]) + SizeSeq(ps[1..])
  }

  /** The first tree of a sequence, alone, is no bigger than the sequence. */
  lemma SizeOfFirst(ps: seq<Pair>)
    requires ps != []
    ensures SizeSeq([ps[0]]) <= SizeSeq(ps)
  {
    assert [ps[0]][1..] == [];
  }

  /**
   * pest's stopping rule: the pairs left after a sub-expression at power
   * `rbp` are exhausted or start with an operator that binds no tighter.
   */
  predicate StopsAt(rest: seq<Pair>, rbp: int)
  {
    rest == [] || (Operator(rest[0].rule).Some? && Operator(rest[0].rule).value.1 <= rbp)
  }

  /** `parse_pairs`: a whole sequence of pairs as one expression. */
  function ParsePairs(ps: seq<Pair>): (r: Run<Calc.Expression>)
    ensures r.Returns? ==> ps != [] && (Operator(ps[0].rule).None? || Operator(ps[0].rule).value.0 == Prefix)
    decreases SizeSeq(ps), 3
  {
    match Expr(ps, 0)
    case Returns((e, _)) => Returns(e)
    case Panics => Panics
  }

  /** pest's `expr`: an operand or prefix operator, then operators binding tighter than `rbp`. */
  function Expr(ps: seq<Pair>, rbp: int): (r: Run<(Calc.Expression, seq<Pair>)>)
    ensures r.Returns? ==> SizeSeq(r.value.1) < SizeSeq(ps) && StopsAt(r.value.1, rbp)
    decreases SizeSeq(ps), 2
  {
    if ps == [] then Panics
    else
      var p := ps[0];
      match Operator(p.rule)
      case None =>
        (match MapPrimary(p)
         case Returns(lhs) => ExprLoop(lhs, ps[1..], rbp)
         case Panics => Panics)
      case Some((Prefix, prec)) =>
        (match Expr(ps[1..], prec - 1)
         case Returns((rhs, rest)) =>
           (match MapPrefix(p.rule, rhs)
            case Returns(lhs) => ExprLoop(lhs, rest, rbp)
            case Panics => Panics)
         case Panics => Panics)
      case Some(_) => Panics
  }

  /** pest's loop `while rbp < lbp { lhs = led(lhs) }`. */
  function ExprLoop(lhs: Calc.Expression, rest: seq<Pair>, rbp: int): (r: Run<(Calc.Expression, seq<Pair>)>)
    ensures r.Returns? ==> SizeSeq(r.value.1) <= SizeSeq(rest) && StopsAt(r.value.1, rbp)
    decreases SizeSeq(rest), 1
  {
    if rest == [] then Returns((lhs, rest))
    else
      var op := rest[0];
      match Operator(op.rule)
      case None => Panics
      case Some((affix, prec)) =>
        if prec <= rbp then Returns((lhs, rest))
        else
          match affix
          case Infix(assoc) =>
            (match Expr(rest[1..], if assoc == Left then prec else prec - 1)
             case Returns((rhs, rest')) =>
               (match MapInfix(lhs, op.rule, rhs)
                case Returns(e) => ExprLoop(e, rest', rbp)
                case Panics => Panics)
             case Panics => Panics)
          case Postfix =>
            (match MapPostfix(lhs, op.rule)
             case Returns(e) => ExprLoop(e, rest[1..], rbp)
             case Panics => Panics)
          case Prefix => Panics
  }

  /** The `map_primary` closure: numbers, variables, implicit products and parenthesised expressions. */
  function MapPrimary(p: Pair): (r: Run<Calc.Expression>)
    ensures p.rule == Variable ==> r == Returns(Calc.Variable(p.text))
    ensures p.rule == Number ==> (r.Returns? <==> Calc.FromStr(p.text).Ok?)
    ensures p.rule == Number && r.Returns? ==> r.value == Calc.Value(Calc.FromStr(p.text).value)
    ensures p.rule in {ParenExpression, Expression} ==> r == ParsePairs(p.inner)
    ensures p.rule == ImplicitMultiplication ==> r == ImplicitProduct(p.inner)
    ensures p.rule !in {Number, Variable, ImplicitMultiplication, ParenExpression, Expression} ==> r == Panics
    decreases Size(p), 1
  {
    match p.rule
    case Number =>
      (match Calc.FromStr(p.text)
       case Ok(v) => Returns(Calc.Value(v))
       case Err(_) => Panics)
    case Variable => Returns(Calc.Variable(p.text))
    case ImplicitMultiplication => ImplicitProduct(p.inner)
    case ParenExpression => ParsePairs(p.inner)
    case Expression => ParsePairs(p.inner)
    case _ => Panics
  }

  /**
   * The implicit multiplication arm of `map_primary`: each inner pair
   * parsed on its own, multiplied together from the right, so `a b c`
   * is `a * (b * c)`; no inner pair is an `unwrap` of `None`.
   */
  function ImplicitProduct(inner: seq<Pair>): (r: Run<Calc.Expression>)
    ensures r.Returns? ==> inner != []
    decreases SizeSeq(inner), 4
  {
    if inner == [] then Panics
    else
      SizeOfFirst(inner);
      var first := ParsePairs([inner[0]]);
      if |inner| == 1 then first
      else
        match (first, ImplicitProduct(inner[1..]))
        case (Returns(f), Returns(e)) => Returns(Calc.Multiplication(f, e))
        case _ => Panics
  }

  /** The implicit multiplication arm as the source runs it: from the last pair back to the first. */
  method ImplicitProductLoop(inner: seq<Pair>) returns (r: Run<Calc.Expression>)
    ensures r == ImplicitProduct(inner)
  {
    if inner == [] {
      return Panics;
    }
    var i := |inner| - 1;
    var expression := ParsePairs([inner[i]]);
    while i > 0
      invariant 0 <= i < |inner|
      invariant expression == ImplicitProduct(inner[i..])
    {
      i := i - 1;
      assert inner[i..][1..] == inner[i + 1..];
      expression :=
        match (ParsePairs([inner[i]]), expression)
        case (Returns(f), Returns(e)) => Returns(Calc.Multiplication(f, e))
        case _ => Panics;
    }
    assert inner[0..] == inner;
    r := expression;
  }

  /** The `map_infix` closure. */
  function MapInfix(lhs: Calc.Expression, op: Rule, rhs: Calc.Expression): (r: Run<Calc.Expression>)
    ensures r.Returns? <==> op in {Plus, Minus, Cdot, Asterisk, Slash}
    ensures r.Returns? ==> r.value in {Calc.Addition(lhs, rhs), Calc.Subtraction(lhs, rhs), Calc.Multiplication(lhs, rhs), Calc.Division(lhs, rhs)}
    ensures op == Plus ==> r.Returns? && r.value.Addition?
    ensures op == Minus ==> r.Returns? && r.value.Subtraction?
    ensures op in {Cdot, Asterisk} ==> r.Returns? && r.value.Multiplication?
    ensures op == Slash ==> r.Returns? && r.value.Division?
  {
    match op
    case Plus => Returns(Calc.Addition(lhs, rhs))
    case Minus => Returns(Calc.Subtraction(lhs, rhs))
    case Cdot => Returns(Calc.Multiplication(lhs, rhs))
    case Asterisk => Returns(Calc.Multiplication(lhs, rhs))
    case Slash => Returns(Calc.Division(lhs, rhs))
    case _ => Panics
  }

  /** The `map_prefix` closure. */
  function MapPrefix(op: Rule, rhs: Calc.Expression): (r: Run<Calc.Expression>)
    ensures r.Returns? <==> op == Negate
  {
    if op == Negate then Returns(Calc.Negation(rhs)) else Panics
  }

  /** The `map_postfix` closure. */
  function MapPostfix(lhs: Calc.Expression, op: Rule): (r: Run<Calc.Expression>)
    ensures r.Returns? <==> op == Factorial
  {
    if op == Factorial then Returns(Calc.Factorial(lhs)) else Panics
  }
}
