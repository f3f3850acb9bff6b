/** Variable leaves (variable.rs): a named input with a role, parameter or data. */
module Variables {

  /** `index` is the slot in the parameter or data array; it is not part of identity. */
  datatype Variable = Variable(name: string, parameter: bool, index: nat)

  /** `impl PartialEq for Variable`: name and role must match, the index is ignored. */
  predicate Same(a: Variable, b: Variable) {
    a.name == b.name && a.parameter == b.parameter
  }

  /** What `impl Hash for Variable` feeds the hasher: the name, then the role. */
  function HashKey(v: Variable): (string, bool) {
    (v.name, v.parameter)
  }

  /** `Variable::new`: a fresh variable always gets index 0. */
  function New(name: string, parameter: bool): (v: Variable)
    ensures v.index == 0
    ensures forall u: Variable :: u.name == name && u.parameter == parameter ==> Same(v, u)
  {
    Variable(name, parameter, 0)
  }

  /** Changing the index never changes identity. */
  lemma SameIgnoresIndex(v: Variable, index: nat)
    ensures Same(v, v.(index := index))
  {
  }

  /** `Same` is an equivalence relation, as `Eq` requires. */
  lemma SameIsEquivalence(a: Variable, b: Variable, c: Variable)
    ensures Same(a, a)
    ensures Same(a, b) ==> Same(b, a)
    ensures Same(a, b) && Same(b, c) ==> Same(a, c)
  {
  }

  /** Equal variables hash equally, and the hash input determines equality. */
  lemma HashAgreesWithSame(a: Variable, b: Variable)
    ensures Same(a, b) <==> HashKey(a) == HashKey(b)
  {
  }
}
