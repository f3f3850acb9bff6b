/** Fatal errors of the expression engine and the failure-compatible result type
    that replaces the source's panics. A failure aborts the whole compilation,
    so nothing is promised about the node store once a failure is returned. */
module Outcomes {

  /** The panics of the core, one constructor per `panic!`/`unwrap` site. */
  datatype Fatal =
    | DivisionByZero              // `x / 0` in the Div constructor
    | NonConstantExponent         // differentiating `x ^ y` with a non-constant `y`
    | CollectionDerivative        // differentiating an Array, Tuple or Struct
    | ArityMismatch(expected: nat, given: nat)  // splice with the wrong number of inputs
    | NonVariableArgument         // gradient w.r.t. an argument that is not a Variable node
    | UnboundVariable             // splice meets a variable that is not an argument
    | MissingField(field: string) // a Struct's `name_order` names a field it does not have

  datatype Option<+T> = None | Some(value: T)

  datatype Result<+T> = Ok(value: T) | Fail(error: Fatal) {
    predicate IsFailure() { Fail? }

    function PropagateFailure<U>(): Result<U>
      requires Fail?
    {
      Fail(error)
    }

    function Extract(): T
      requires Ok?
    {
      value
    }
  }
}
