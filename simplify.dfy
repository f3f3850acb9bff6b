/** The algebraic identities the constructors apply (binary.rs `Binary::new`,
    unary.rs `Unary::new`), stated on trees. Operands are compared with the
    literals 0, 1, -1 and 2 exactly; `Sub` also compares its operands structurally. */
module Simplification {
  import opened Outcomes
  import opened Operators
  import opened Terms

  /** `Unary::new` on trees. */
  function SimplifyUnary(op: UnaryOp, a: Term): Term {
    match op
    case Exp => if a.Un? && a.uop == Log then a.arg else Un(Exp, a)
    case Log => if a.Un? && a.uop == Exp then a.arg else Un(Log, a)
    case Negative =>
      if a.Un? then (if a.uop == Negative then a.arg else Un(Negative, a))
      else if a.Num? then Num(-a.value)
      else Un(Negative, a)
    case _ => Un(op, a)
  }

  /** `Binary::new` on trees; `x / 0` is the one fatal case. */
  function SimplifyBinary(op: BinaryOp, l: Term, r: Term): Result<Term>
    decreases if op == Pow then 1 else 0
  {
    match op
    case Add =>
      if l == Num(0.0) then Ok(r)
      else if r == Num(0.0) then Ok(l)
      else Ok(Bin(Add, l, r))
    case Sub =>
      if l == Num(0.0) then Ok(SimplifyUnary(Negative, r))
      else if r == Num(0.0) then Ok(l)
      else if l == r then Ok(Num(0.0))
      else Ok(Bin(Sub, l, r))
    case Mul =>
      if l == Num(0.0) || r == Num(0.0) then Ok(Num(0.0))
      else if l == Num(1.0) then Ok(r)
      else if r == Num(1.0) then Ok(l)
      else if l == Num(-1.0) then Ok(SimplifyUnary(Negative, r))
      else if r == Num(-1.0) then Ok(SimplifyUnary(Negative, l))
      else Ok(Bin(Mul, l, r))
    case Div =>
      if l == Num(0.0) then Ok(Num(0.0))
      else if r == Num(1.0) then Ok(l)
      else if r == Num(-1.0) then Ok(SimplifyUnary(Negative, l))
      else if r == Num(0.0) then Fail(DivisionByZero)
      else Ok(Bin(Div, l, r))
    case Pow =>
      if l == Num(0.0) then Ok(Num(0.0))
      else if r == Num(0.0) then Ok(Num(1.0))
      else if r == Num(1.0) then Ok(l)
      else if r == Num(2.0) then SimplifyBinary(Mul, l, l)
      else Ok(Bin(Pow, l, r))
  }

  /** The unary rules that hand back a subtree of the operand: the store gains no node. */
  predicate UnaryReturnsInner(op: UnaryOp, a: Term) {
    a.Un? && ((op == Exp && a.uop == Log) || (op == Log && a.uop == Exp) || (op == Negative && a.uop == Negative))
  }

  /** The binary rules that hand back one operand unchanged: the store gains no node. */
  predicate BinaryReturnsOperand(op: BinaryOp, l: Term, r: Term) {
    match op
    case Add => l == Num(0.0) || r == Num(0.0)
    case Sub => l != Num(0.0) && r == Num(0.0)
    case Mul => l != Num(0.0) && r != Num(0.0) && (l == Num(1.0) || r == Num(1.0))
    case Div => l != Num(0.0) && r == Num(1.0)
    case Pow => l != Num(0.0) && r != Num(0.0) && r == Num(1.0)
  }

  /** The unary rules, and: a Unary node is built unchanged exactly when no rule applies. */
  lemma UnaryRules(op: UnaryOp, a: Term)
    ensures op == Exp && a.Un? && a.uop == Log ==> SimplifyUnary(op, a) == a.arg
    ensures op == Log && a.Un? && a.uop == Exp ==> SimplifyUnary(op, a) == a.arg
    ensures op == Negative && a.Un? && a.uop == Negative ==> SimplifyUnary(op, a) == a.arg
    ensures op == Negative && a.Num? ==> SimplifyUnary(op, a) == Num(-a.value)
    ensures op in {Sin, Cos, Tan} ==> SimplifyUnary(op, a) == Un(op, a)
    ensures SimplifyUnary(op, a) == Un(op, a) <==> !UnaryRedex(op, a)
  {
    if a.Un? {
      assert a.arg < a;
    }
  }

  /** Add: `0 + y` is `y`, otherwise `x + 0` is `x`. */
  lemma AddRules(l: Term, r: Term)
    ensures l == Num(0.0) ==> SimplifyBinary(Add, l, r) == Ok(r)
    ensures l != Num(0.0) && r == Num(0.0) ==> SimplifyBinary(Add, l, r) == Ok(l)
  {
  }

  /** Sub: `0 - y` is `-y`, `x - 0` is `x`, and `x - x` is `0`, checked in that order. */
  lemma SubRules(l: Term, r: Term)
    ensures l == Num(0.0) ==> SimplifyBinary(Sub, l, r) == Ok(SimplifyUnary(Negative, r))
    ensures l != Num(0.0) && r == Num(0.0) ==> SimplifyBinary(Sub, l, r) == Ok(l)
    ensures l != Num(0.0) && r != Num(0.0) && l == r ==> SimplifyBinary(Sub, l, r) == Ok(Num(0.0))
  {
  }

  /** Mul: a zero on either side wins, then a one, then a minus one, left before right. */
  lemma MulRules(l: Term, r: Term)
    ensures l == Num(0.0) || r == Num(0.0) ==> SimplifyBinary(Mul, l, r) == Ok(Num(0.0))
    ensures l != Num(0.0) && r != Num(0.0) ==>
      (l == Num(1.0) ==> SimplifyBinary(Mul, l, r) == Ok(r)) &&
      (l != Num(1.0) && r == Num(1.0) ==> SimplifyBinary(Mul, l, r) == Ok(l)) &&
      (l !in {Num(1.0)} && r != Num(1.0) && l == Num(-1.0) ==> SimplifyBinary(Mul, l, r) == Ok(SimplifyUnary(Negative, r))) &&
      (l !in {Num(1.0), Num(-1.0)} && r == Num(-1.0) ==> SimplifyBinary(Mul, l, r) == Ok(SimplifyUnary(Negative, l)))
  {
  }

  /** Div: `0 / y` is `0` even for `y = 0`; then `x / 1`, `x / -1`; a zero divisor is fatal. */
  lemma DivRules(l: Term, r: Term)
    ensures l == Num(0.0) ==> SimplifyBinary(Div, l, r) == Ok(Num(0.0))
    ensures l != Num(0.0) && r == Num(1.0) ==> SimplifyBinary(Div, l, r) == Ok(l)
    ensures l != Num(0.0) && r == Num(-1.0) ==> SimplifyBinary(Div, l, r) == Ok(SimplifyUnary(Negative, l))
    ensures l != Num(0.0) && r == Num(0.0) ==> SimplifyBinary(Div, l, r) == Fail(DivisionByZero)
  {
  }

  /** Pow: `0 ^ y` is `0` even for `y = 0`; then `x ^ 0`, `x ^ 1`, and `x ^ 2` goes through Mul. */
  lemma PowRules(l: Term, r: Term)
    ensures l == Num(0.0) ==> SimplifyBinary(Pow, l, r) == Ok(Num(0.0))
    ensures l != Num(0.0) && r == Num(0.0) ==> SimplifyBinary(Pow, l, r) == Ok(Num(1.0))
    ensures l != Num(0.0) && r == Num(1.0) ==> SimplifyBinary(Pow, l, r) == Ok(l)
    ensures l != Num(0.0) && r == Num(2.0) ==> SimplifyBinary(Pow, l, r) == SimplifyBinary(Mul, l, l)
  {
  }

  /** When no rule applies the Binary node is built unchanged, and only then;
      the one failure is a literal zero divisor under a non-zero dividend. */
  lemma BinaryNoRule(op: BinaryOp, l: Term, r: Term)
    ensures SimplifyBinary(op, l, r) == Ok(Bin(op, l, r)) <==> !BinaryRedex(op, l, r)
    ensures SimplifyBinary(op, l, r).Fail? <==> op == Div && l != Num(0.0) && r == Num(0.0)
    ensures SimplifyBinary(op, l, r).Fail? ==> SimplifyBinary(op, l, r).error == DivisionByZero
  {
    // A rewrite that returns an operand, or the negation of one, cannot rebuild the
    // node itself: the node is strictly larger than each of its operands.
    match op
    case Add =>
    case Sub =>
      if r.Un? {
        assert r.arg < r;
      }
    case Mul =>
      if l.Un? {
        assert l.arg < l;
      }
      if r.Un? {
        assert r.arg < r;
      }
    case Div =>
      if l.Un? {
        assert l.arg < l;
      }
    case Pow =>
      if l.Un? {
        assert l.arg < l;
      }
  }

  /** Rewriting a normal operand gives a normal tree. */
  lemma SimplifyUnaryNormal(op: UnaryOp, a: Term)
    requires Normal(a)
    ensures Normal(SimplifyUnary(op, a))
  {
  }

  /** Building from normal operands gives a normal tree: the constructors never
      produce a node one of their own rules would have rewritten. */
  lemma SimplifyBinaryNormal(op: BinaryOp, l: Term, r: Term)
    requires Normal(l) && Normal(r)
    ensures SimplifyBinary(op, l, r).Ok? ==> Normal(SimplifyBinary(op, l, r).value)
  {
    match op
    case Add =>
    case Sub =>
      SimplifyUnaryNormal(Negative, r);
    case Mul =>
      SimplifyUnaryNormal(Negative, l);
      SimplifyUnaryNormal(Negative, r);
    case Div =>
      SimplifyUnaryNormal(Negative, l);
    case Pow =>
      SimplifyUnaryNormal(Negative, l);
  }
}
