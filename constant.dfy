/** Constant leaves (constant.rs). The source stores an IEEE `f64`; the model uses
    `real`, so there is no NaN and no signed zero, and the declared `Eq` holds. */
module Constants {

  datatype Constant = Constant(value: real)

  /** `impl PartialEq<f64> for Constant`: a constant equals a float literal when its value does. */
  predicate EqualsLiteral(c: Constant, literal: real) {
    c.value == literal
  }

  /** What `impl Hash for Constant` feeds the hasher (the value's text in the source). */
  function HashKey(c: Constant): real {
    c.value
  }

  lemma EqualsLiteralIsValueEquality(c: Constant, literal: real)
    ensures EqualsLiteral(c, literal) <==> c.value == literal
    ensures EqualsLiteral(Constant(literal), literal)
  {
  }

  /** The derived `PartialEq` compares values, and it is a full equivalence (`Eq`). */
  lemma EqualityIsValueEquality(a: Constant, b: Constant, c: Constant)
    ensures a == b <==> a.value == b.value
    ensures a == a
    ensures a == b ==> b == a
    ensures a == b && b == c ==> a == c
  {
  }

  /** Equal constants hash equally; over `real` the converse holds too. */
  lemma HashAgreesWithEquality(a: Constant, b: Constant)
    ensures a == b <==> HashKey(a) == HashKey(b)
  {
  }
}
