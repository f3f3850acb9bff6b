/** Symbolic differentiation on trees (mod.rs `Graph::differentiate`,
    binary.rs `Binary::differentiate`, unary.rs `Unary::differentiate`).
    Every intermediate result goes through the constructors' rules. */
module Differentiation {
  import opened Outcomes
  import opened Operators
  import opened Terms
  import opened Simplification
  import Variables

  /** The chain rule for a unary node with operand `u`, given `du`, the operand's derivative. */
  function DeriveUnary(op: UnaryOp, u: Term, du: Term): Result<Term> {
    match op
    case Negative => Ok(SimplifyUnary(Negative, du))
    case Exp => SimplifyBinary(Mul, du, SimplifyUnary(Exp, u))
    case Log => SimplifyBinary(Div, du, u)
    case Sin => SimplifyBinary(Mul, du, SimplifyUnary(Cos, u))
    case Cos => SimplifyBinary(Mul, du, SimplifyUnary(Negative, SimplifyUnary(Sin, u)))
    case Tan =>
      var sec2 :- SimplifyBinary(Pow, SimplifyUnary(Cos, u), Num(-2.0));
      SimplifyBinary(Mul, du, sec2)
  }

  /** The derivative of a binary node `l op r`, given both operand derivatives. */
  function DeriveBinary(op: BinaryOp, l: Term, r: Term, dl: Term, dr: Term): Result<Term> {
    match op
    case Add => SimplifyBinary(Add, dl, dr)
    case Sub => SimplifyBinary(Sub, dl, dr)
    case Mul =>
      var a :- SimplifyBinary(Mul, dl, r);
      var b :- SimplifyBinary(Mul, l, dr);
      SimplifyBinary(Add, a, b)
    case Div =>
      var a :- SimplifyBinary(Mul, dl, r);
      var b :- SimplifyBinary(Mul, l, dr);
      var numerator :- SimplifyBinary(Sub, a, b);
      var denominator :- SimplifyBinary(Mul, r, r);
      SimplifyBinary(Div, numerator, denominator)
    case Pow =>
      if r.Num? then
        var p :- SimplifyBinary(Pow, l, Num(r.value - 1.0));
        var d :- SimplifyBinary(Mul, r, p);
        SimplifyBinary(Mul, dl, d)
      else
        Fail(NonConstantExponent)
  }

  /** The derivative of `t` with respect to the variable `x` (compared by name and role).
      Both operand derivatives of a binary node are taken before its rule is applied. */
  function DeriveTerm(t: Term, x: Variables.Variable): Result<Term> {
    match t
    case Num(_) => Ok(Num(0.0))
    case Var(name, parameter) =>
      Ok(if name == x.name && parameter == x.parameter then Num(1.0) else Num(0.0))
    case Un(op, u) =>
      var du :- DeriveTerm(u, x);
      DeriveUnary(op, u, du)
    case Bin(op, l, r) =>
      var dl :- DeriveTerm(l, x);
      var dr :- DeriveTerm(r, x);
      DeriveBinary(op, l, r, dl, dr)
    case Arr(_) => Fail(CollectionDerivative)
    case Tup(_) => Fail(CollectionDerivative)
    case Rec(_, _, _) => Fail(CollectionDerivative)
  }

  /** Leaves: a constant gives 0, a variable 1 exactly when it is the target
      (name and role; the index plays no part), and a collection is fatal. */
  lemma DeriveLeaves(t: Term, x: Variables.Variable)
    ensures t.Num? ==> DeriveTerm(t, x) == Ok(Num(0.0))
    ensures t.Var? ==>
              DeriveTerm(t, x) ==
              Ok(if Variables.Same(Variables.Variable(t.name, t.parameter, x.index), x) then Num(1.0) else Num(0.0))
    ensures IsCollection(t) ==> DeriveTerm(t, x) == Fail(CollectionDerivative)
  {
  }

  /** Sum and difference rules: `d(l+r)` is `dl+dr` and `d(l-r)` is `dl-dr`, built through
      the simplifying constructor. */
  lemma SumDerivatives(l: Term, r: Term, x: Variables.Variable, dl: Term, dr: Term)
    requires DeriveTerm(l, x) == Ok(dl) && DeriveTerm(r, x) == Ok(dr)
    ensures DeriveTerm(Bin(Add, l, r), x) == SimplifyBinary(Add, dl, dr)
    ensures DeriveTerm(Bin(Sub, l, r), x) == SimplifyBinary(Sub, dl, dr)
  {
  }

  /** Product rule: `d(l*r)` is `dl*r + l*dr`, each product built through the simplifying
      constructor. */
  lemma ProductDerivative(l: Term, r: Term, x: Variables.Variable, dl: Term, dr: Term)
    requires DeriveTerm(l, x) == Ok(dl) && DeriveTerm(r, x) == Ok(dr)
    ensures DeriveTerm(Bin(Mul, l, r), x) ==
            SimplifyBinary(Add, SimplifyBinary(Mul, dl, r).value, SimplifyBinary(Mul, l, dr).value)
  {
    BinaryNoRule(Mul, dl, r);
    BinaryNoRule(Mul, l, dr);
  }

  /** Quotient rule: `d(l/r)` is `(dl*r - l*dr) / (r*r)`. */
  lemma QuotientDerivative(l: Term, r: Term, x: Variables.Variable, dl: Term, dr: Term)
    requires DeriveTerm(l, x) == Ok(dl) && DeriveTerm(r, x) == Ok(dr)
    ensures DeriveTerm(Bin(Div, l, r), x) ==
            SimplifyBinary(Div,
              SimplifyBinary(Sub, SimplifyBinary(Mul, dl, r).value, SimplifyBinary(Mul, l, dr).value).value,
              SimplifyBinary(Mul, r, r).value)
  {
    BinaryNoRule(Mul, dl, r);
    BinaryNoRule(Mul, l, dr);
    BinaryNoRule(Mul, r, r);
    BinaryNoRule(Sub, SimplifyBinary(Mul, dl, r).value, SimplifyBinary(Mul, l, dr).value);
  }

  /** Power rule: only a constant exponent `c` is supported, giving `dl * (c * l^(c-1))`;
      any other exponent is fatal, but only once both operand derivatives exist,
      so an operand's own failure is the one reported. */
  lemma PowDerivative(l: Term, r: Term, x: Variables.Variable)
    ensures DeriveTerm(l, x).Fail? ==> DeriveTerm(Bin(Pow, l, r), x) == Fail(DeriveTerm(l, x).error)
    ensures DeriveTerm(l, x).Ok? && DeriveTerm(r, x).Fail? ==>
      DeriveTerm(Bin(Pow, l, r), x) == Fail(DeriveTerm(r, x).error)
    ensures DeriveTerm(l, x).Ok? && DeriveTerm(r, x).Ok? && !r.Num? ==>
      DeriveTerm(Bin(Pow, l, r), x) == Fail(NonConstantExponent)
    ensures DeriveTerm(l, x).Ok? && r.Num? ==>
      DeriveTerm(Bin(Pow, l, r), x) ==
        SimplifyBinary(Mul, DeriveTerm(l, x).value,
          SimplifyBinary(Mul, r, SimplifyBinary(Pow, l, Num(r.value - 1.0)).value).value)
  {
    if DeriveTerm(l, x).Ok? && r.Num? {
      BinaryNoRule(Pow, l, Num(r.value - 1.0));
      BinaryNoRule(Mul, r, SimplifyBinary(Pow, l, Num(r.value - 1.0)).value);
    }
  }

  /** The chain rules for the unary operators. */
  lemma UnaryDerivatives(op: UnaryOp, u: Term, x: Variables.Variable, du: Term)
    requires DeriveTerm(u, x) == Ok(du)
    ensures op == Negative ==> DeriveTerm(Un(op, u), x) == Ok(SimplifyUnary(Negative, du))
    ensures op == Exp ==> DeriveTerm(Un(op, u), x) == SimplifyBinary(Mul, du, SimplifyUnary(Exp, u))
    ensures op == Log ==> DeriveTerm(Un(op, u), x) == SimplifyBinary(Div, du, u)
    ensures op == Sin ==> DeriveTerm(Un(op, u), x) == SimplifyBinary(Mul, du, Un(Cos, u))
    ensures op == Cos ==> DeriveTerm(Un(op, u), x) == SimplifyBinary(Mul, du, SimplifyUnary(Negative, Un(Sin, u)))
    ensures op == Tan ==> DeriveTerm(Un(op, u), x) == SimplifyBinary(Mul, du, Bin(Pow, Un(Cos, u), Num(-2.0)))
  {
  }

  /** A zero operand derivative makes every unary derivative collapse to the constant 0. */
  lemma UnaryZeroCollapses(op: UnaryOp, u: Term)
    ensures DeriveUnary(op, u, Num(0.0)) == Ok(Num(0.0))
  {
    if op == Tan {
      assert SimplifyBinary(Pow, SimplifyUnary(Cos, u), Num(-2.0)).Ok?;
    }
  }

  /** Zero operand derivatives make every binary derivative collapse to the constant 0,
      except that Pow still needs a constant exponent. */
  lemma BinaryZeroCollapses(op: BinaryOp, l: Term, r: Term)
    requires op == Pow ==> r.Num?
    ensures DeriveBinary(op, l, r, Num(0.0), Num(0.0)) == Ok(Num(0.0))
  {
    BinaryNoRule(Mul, r, r);
    if op == Pow {
      BinaryNoRule(Pow, l, Num(r.value - 1.0));
      BinaryNoRule(Mul, r, SimplifyBinary(Pow, l, Num(r.value - 1.0)).value);
    }
  }

  /** An expression that does not read `x` has derivative 0 with respect to `x`
      whenever its derivative exists: the zero rules of Add, Sub, Mul and Div
      absorb every intermediate result. */
  lemma {:induction false} DeriveIndependent(t: Term, x: Variables.Variable)
    requires (x.name, x.parameter) !in ScalarVars(t)
    requires DeriveTerm(t, x).Ok?
    ensures DeriveTerm(t, x).value == Num(0.0)
  {
    match t
    case Num(_) =>
    case Var(_, _) =>
    case Un(op, u) =>
      DeriveIndependent(u, x);
      UnaryZeroCollapses(op, u);
    case Bin(op, l, r) =>
      DeriveIndependent(l, x);
      DeriveIndependent(r, x);
      BinaryZeroCollapses(op, l, r);
  }

  /** The chain rule for a normal unary node yields a normal tree. */
  lemma DeriveUnaryNormal(op: UnaryOp, u: Term, du: Term)
    requires Normal(Un(op, u)) && Normal(du)
    ensures DeriveUnary(op, u, du).Ok? ==> Normal(DeriveUnary(op, u, du).value)
  {
    SimplifyUnaryNormal(Negative, du);
    SimplifyUnaryNormal(Exp, u);
    SimplifyUnaryNormal(Cos, u);
    SimplifyUnaryNormal(Sin, u);
    SimplifyUnaryNormal(Negative, SimplifyUnary(Sin, u));
    SimplifyBinaryNormal(Mul, du, SimplifyUnary(Exp, u));
    SimplifyBinaryNormal(Div, du, u);
    SimplifyBinaryNormal(Mul, du, SimplifyUnary(Cos, u));
    SimplifyBinaryNormal(Mul, du, SimplifyUnary(Negative, SimplifyUnary(Sin, u)));
    var sec2 := SimplifyBinary(Pow, SimplifyUnary(Cos, u), Num(-2.0));
    SimplifyBinaryNormal(Pow, SimplifyUnary(Cos, u), Num(-2.0));
    if sec2.Ok? {
      SimplifyBinaryNormal(Mul, du, sec2.value);
    }
  }

  /** The derivative of a normal binary node, from normal operand derivatives, is normal. */
  lemma DeriveBinaryNormal(op: BinaryOp, l: Term, r: Term, dl: Term, dr: Term)
    requires Normal(Bin(op, l, r)) && Normal(dl) && Normal(dr)
    ensures DeriveBinary(op, l, r, dl, dr).Ok? ==> Normal(DeriveBinary(op, l, r, dl, dr).value)
  {
    SimplifyBinaryNormal(Add, dl, dr);
    SimplifyBinaryNormal(Sub, dl, dr);
    var a := SimplifyBinary(Mul, dl, r);
    var b := SimplifyBinary(Mul, l, dr);
    SimplifyBinaryNormal(Mul, dl, r);
    SimplifyBinaryNormal(Mul, l, dr);
    SimplifyBinaryNormal(Mul, r, r);
    if a.Ok? && b.Ok? {
      SimplifyBinaryNormal(Add, a.value, b.value);
      SimplifyBinaryNormal(Sub, a.value, b.value);
      var n := SimplifyBinary(Sub, a.value, b.value);
      var d := SimplifyBinary(Mul, r, r);
      if n.Ok? && d.Ok? {
        SimplifyBinaryNormal(Div, n.value, d.value);
      }
    }
    if op == Pow && r.Num? {
      SimplifyBinaryNormal(Pow, l, Num(r.value - 1.0));
      var p := SimplifyBinary(Pow, l, Num(r.value - 1.0));
      if p.Ok? {
        SimplifyBinaryNormal(Mul, r, p.value);
        var d := SimplifyBinary(Mul, r, p.value);
        if d.Ok? {
          SimplifyBinaryNormal(Mul, dl, d.value);
        }
      }
    }
  }

  /** Differentiating a normal tree yields a normal tree. */
  lemma {:induction false} DeriveNormal(t: Term, x: Variables.Variable)
    requires Normal(t)
    ensures DeriveTerm(t, x).Ok? ==> Normal(DeriveTerm(t, x).value)
  {
    match t
    case Num(_) =>
    case Var(_, _) =>
    case Un(op, u) =>
      DeriveNormal(u, x);
      if DeriveTerm(u, x).Ok? {
        DeriveUnaryNormal(op, u, DeriveTerm(u, x).value);
      }
    case Bin(op, l, r) =>
      DeriveNormal(l, x);
      DeriveNormal(r, x);
      if DeriveTerm(l, x).Ok? && DeriveTerm(r, x).Ok? {
        DeriveBinaryNormal(op, l, r, DeriveTerm(l, x).value, DeriveTerm(r, x).value);
      }
    case Arr(_) =>
    case Tup(_) =>
    case Rec(_, _, _) =>
  }

  /** On a normal tree differentiation never divides by zero: its only failures are
      a collection and a non-constant exponent. */
  lemma {:induction false} DeriveErrors(t: Term, x: Variables.Variable)
    requires Normal(t)
    ensures DeriveTerm(t, x).Fail? ==> DeriveTerm(t, x).error in {CollectionDerivative, NonConstantExponent}
  {
    match t
    case Num(_) =>
    case Var(_, _) =>
    case Un(op, u) =>
      DeriveErrors(u, x);
      UnaryDeriveErrors(op, u, x);
    case Bin(op, l, r) =>
      DeriveErrors(l, x);
      DeriveErrors(r, x);
      BinaryDeriveErrors(op, l, r, x);
    case Arr(_) =>
    case Tup(_) =>
    case Rec(_, _, _) =>
  }

  /** The unary step of `DeriveErrors`: the chain rules add no failure of their own. */
  lemma UnaryDeriveErrors(op: UnaryOp, u: Term, x: Variables.Variable)
    requires Normal(Un(op, u))
    requires DeriveTerm(u, x).Fail? ==> DeriveTerm(u, x).error in {CollectionDerivative, NonConstantExponent}
    ensures DeriveTerm(Un(op, u), x).Fail? ==> DeriveTerm(Un(op, u), x).error in {CollectionDerivative, NonConstantExponent}
  {
    if DeriveTerm(u, x).Ok? {
      var du := DeriveTerm(u, x).value;
      if op == Log && u == Num(0.0) {
        assert du == Num(0.0);
      }
      BinaryNoRule(Div, du, u);
      BinaryNoRule(Mul, du, SimplifyUnary(Exp, u));
      BinaryNoRule(Mul, du, SimplifyUnary(Cos, u));
      BinaryNoRule(Mul, du, SimplifyUnary(Negative, SimplifyUnary(Sin, u)));
      BinaryNoRule(Pow, SimplifyUnary(Cos, u), Num(-2.0));
    }
  }

  /** The binary step of `DeriveErrors`: the sum, product, quotient and power rules add
      no failure of their own, since a normal quotient's divisor is not zero. */
  lemma BinaryDeriveErrors(op: BinaryOp, l: Term, r: Term, x: Variables.Variable)
    requires Normal(Bin(op, l, r))
    requires DeriveTerm(l, x).Fail? ==> DeriveTerm(l, x).error in {CollectionDerivative, NonConstantExponent}
    requires DeriveTerm(r, x).Fail? ==> DeriveTerm(r, x).error in {CollectionDerivative, NonConstantExponent}
    ensures DeriveTerm(Bin(op, l, r), x).Fail? ==> DeriveTerm(Bin(op, l, r), x).error in {CollectionDerivative, NonConstantExponent}
  {
    if DeriveTerm(l, x).Ok? && DeriveTerm(r, x).Ok? {
      var dl, dr := DeriveTerm(l, x).value, DeriveTerm(r, x).value;
      BinaryNoRule(Add, dl, dr);
      BinaryNoRule(Sub, dl, dr);
      BinaryNoRule(Mul, dl, r);
      BinaryNoRule(Mul, l, dr);
      BinaryNoRule(Mul, r, r);
      var a, b := SimplifyBinary(Mul, dl, r).value, SimplifyBinary(Mul, l, dr).value;
      BinaryNoRule(Add, a, b);
      BinaryNoRule(Sub, a, b);
      var den := SimplifyBinary(Mul, r, r).value;
      if op == Div {
        assert den != Num(0.0);
      }
      BinaryNoRule(Div, SimplifyBinary(Sub, a, b).value, den);
      if r.Num? {
        BinaryNoRule(Pow, l, Num(r.value - 1.0));
        var p := SimplifyBinary(Pow, l, Num(r.value - 1.0)).value;
        BinaryNoRule(Mul, r, p);
        BinaryNoRule(Mul, dl, SimplifyBinary(Mul, r, p).value);
      }
    }
  }
}
