/**
 * The trait-object design of expressions (the files under src/expression/): a value
 * node and the four binary operators, each its own type in the source,
 * one variant each here; `downcast_ref::<ValueExpression>()` is a match.
 *
 * `simplified` folds bottom-up: each binary node simplifies both sides and,
 * when both became value nodes, applies the value operation. Every leaf is
 * a value, so a pass that does not panic always ends in one value node.
 */
module DynExpression {
  import opened Prelude
  import opened DynValue

  datatype BinaryOp = Plus | Minus | Times | Over

  datatype Expression =
    | ValueExpression(value: Value)
    | AdditionExpression(lhs: Expression, rhs: Expression)
    | SubtractionExpression(lhs: Expression, rhs: Expression)
    | MultiplicationExpression(lhs: Expression, rhs: Expression)
    | DivisionExpression(lhs: Expression, rhs: Expression)
  {
    /**
     * `simplified`: a value node is kept; a binary node folds its
     * simplified sides. The result is always a single value node.
     */
    function Simplified(): (r: Run<Expression>)
      ensures r.Returns? ==> r.value.ValueExpression?
      ensures ValueExpression? ==> r == Returns(this)
      decreases this
    {
      match this
      case ValueExpression(v) => Returns(ValueExpression(v))
      case AdditionExpression(l, r) => Fold(Plus, l.Simplified(), r.Simplified())
      case SubtractionExpression(l, r) => Fold(Minus, l.Simplified(), r.Simplified())
      case MultiplicationExpression(l, r) => Fold(Times, l.Simplified(), r.Simplified())
      case DivisionExpression(l, r) => Fold(Over, l.Simplified(), r.Simplified())
    }

    /** `to_string`: a value's text, or both sides in parentheses around the operator. */
    function ToString(): (s: string)
      ensures ValueExpression? <==> '(' !in s
      ensures !ValueExpression? ==> |s| >= 2 && s[0] == '(' && s[|s| - 1] == ')'
      decreases this
    {
      match this
      case ValueExpression(v) => v.ToString()
      case AdditionExpression(l, r) => "(" + l.ToString() + " + " + r.ToString() + ")"
      case SubtractionExpression(l, r) => "(" + l.ToString() + " - " + r.ToString() + ")"
      case MultiplicationExpression(l, r) => "(" + l.ToString() + " * " + r.ToString() + ")"
      case DivisionExpression(l, r) => "(" + l.ToString() + " / " + r.ToString() + ")"
    }
  }

  /** What the value operation of `op` needs in order to end without a panic. */
  predicate CanApply(op: BinaryOp, x: Value, y: Value)
  {
    match op
    case Plus => x.AddDefined(y)
    case Minus => x.SubDefined(y)
    case Times => true
    case Over => true
  }

  /** The value operation of `op`, or `Panics` where it panics or never returns. */
  function Apply(op: BinaryOp, x: Value, y: Value): (r: Run<Value>)
    ensures r.Returns? <==> CanApply(op, x, y)
  {
    if !CanApply(op, x, y) then Panics
    else
      match op
      case Plus => Returns(x.Add(y))
      case Minus => Returns(x.Sub(y))
      case Times => Returns(x.Mul(y))
      case Over => Returns(x.Div(y))
  }

  /** The node type of `op` over two sides. */
  function Node(op: BinaryOp, l: Expression, r: Expression): Expression
  {
    match op
    case Plus => AdditionExpression(l, r)
    case Minus => SubtractionExpression(l, r)
    case Times => MultiplicationExpression(l, r)
    case Over => DivisionExpression(l, r)
  }

  /**
   * The body shared by the four binary `simplified`s: two value nodes are
   * combined by the value operation, anything else is rebuilt.
   */
  function Fold(op: BinaryOp, sl: Run<Expression>, sr: Run<Expression>): (r: Run<Expression>)
    ensures sl.Returns? && sl.value.ValueExpression? && sr.Returns? && sr.value.ValueExpression? ==>
      (r.Returns? <==> CanApply(op, sl.value.value, sr.value.value))
    ensures r.Returns? && sl.Returns? && sl.value.ValueExpression? && sr.Returns? && sr.value.ValueExpression? ==>
      r.value.ValueExpression?
  {
    match (sl, sr)
    case (Returns(ValueExpression(x)), Returns(ValueExpression(y))) =>
      (match Apply(op, x, y)
       case Returns(v) => Returns(ValueExpression(v))
       case Panics => Panics)
    case (Returns(l), Returns(r)) => Returns(Node(op, l, r))
    case _ => Panics
  }
}
