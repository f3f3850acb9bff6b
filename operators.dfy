/** The operator enumerations of binary.rs and unary.rs and their advisory costs. */
module Operators {

  datatype BinaryOp = Add | Sub | Mul | Div | Pow

  datatype UnaryOp = Negative | Exp | Log | Sin | Cos | Tan

  /** `BinaryOp::cost`. */
  function BinaryCost(op: BinaryOp): nat {
    match op
    case Add => 3
    case Sub => 3
    case Mul => 5
    case Div => 20
    case Pow => 100
  }

  /** `UnaryOp::cost`. */
  function UnaryCost(op: UnaryOp): nat {
    match op
    case Negative => 3
    case Sin => 100
    case Cos => 100
    case Tan => 100
    case Exp => 100
    case Log => 100
  }

  /** Additive operators are cheapest, then Mul, then Div, and Pow is the dearest. */
  lemma BinaryCostOrder(op: BinaryOp)
    ensures BinaryCost(Add) == BinaryCost(Sub) < BinaryCost(Mul) < BinaryCost(Div) < BinaryCost(Pow)
    ensures BinaryCost(op) <= BinaryCost(Pow)
  {
  }

  /** Negation costs as much as an addition; every transcendental costs as much as Pow. */
  lemma UnaryCostLevels(u: UnaryOp)
    ensures UnaryCost(u) == if u == Negative then BinaryCost(Add) else BinaryCost(Pow)
  {
  }
}
