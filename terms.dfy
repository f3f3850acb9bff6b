/** The tree view of the node store. A handle in the arena denotes the expression
    tree obtained by unfolding its children (`Store.Tree`); hash-consing makes this
    view injective. The simplification, differentiation and inlining rules are
    stated on trees, and the store-level operations are proved against them. */
module Terms {
  import opened Operators

  /** A variable's identity: its name and role (`true` for a parameter), never its index. */
  type VarKey = (string, bool)

  datatype Term =
    | Num(value: real)
    | Var(name: string, parameter: bool)
    | Un(uop: UnaryOp, arg: Term)
    | Bin(bop: BinaryOp, left: Term, right: Term)
    | Arr(items: seq<Term>)
    | Tup(items: seq<Term>)
    | Rec(name: string, nameOrder: seq<string>, fields: map<string, Term>)

  /** True for Array, Tuple and Struct trees. */
  predicate IsCollection(t: Term) {
    t.Arr? || t.Tup? || t.Rec?
  }

  /** The variables a scalar expression reads. Collections contribute nothing:
      a collection node carries neither flag, whatever its elements read. */
  function ScalarVars(t: Term): set<VarKey> {
    match t
    case Num(_) => {}
    case Var(name, parameter) => {(name, parameter)}
    case Un(_, a) => ScalarVars(a)
    case Bin(_, l, r) => ScalarVars(l) + ScalarVars(r)
    case Arr(_) => {}
    case Tup(_) => {}
    case Rec(_, _, _) => {}
  }

  /** Some variable of the given role (parameter or data) is read by `t`. */
  predicate ReadsRole(t: Term, parameter: bool) {
    exists k :: k in ScalarVars(t) && k.1 == parameter
  }

  /** Evaluation cost of the unfolded tree: shared subexpressions are counted once per use. */
  function TreeCost(t: Term): nat {
    match t
    case Num(_) => 1
    case Var(_, _) => 1
    case Un(op, a) => TreeCost(a) + UnaryCost(op)
    case Bin(op, l, r) => TreeCost(l) + TreeCost(r) + BinaryCost(op)
    case Arr(_) => 0
    case Tup(_) => 0
    case Rec(_, _, _) => 0
  }

  /** A unary application one of the unary constructor's rules rewrites. */
  predicate UnaryRedex(op: UnaryOp, a: Term) {
    match op
    case Exp => a.Un? && a.uop == Log
    case Log => a.Un? && a.uop == Exp
    case Negative => (a.Un? && a.uop == Negative) || a.Num?
    case _ => false
  }

  /** A binary application one of the binary constructor's rules rewrites or refuses. */
  predicate BinaryRedex(op: BinaryOp, l: Term, r: Term) {
    match op
    case Add => l == Num(0.0) || r == Num(0.0)
    case Sub => l == Num(0.0) || r == Num(0.0) || l == r
    case Mul => l in {Num(0.0), Num(1.0), Num(-1.0)} || r in {Num(0.0), Num(1.0), Num(-1.0)}
    case Div => l == Num(0.0) || r in {Num(0.0), Num(1.0), Num(-1.0)}
    case Pow => l == Num(0.0) || r in {Num(0.0), Num(1.0), Num(2.0)}
  }

  /** No subtree is a redex: the shape every node built by the constructors has. */
  predicate Normal(t: Term) {
    match t
    case Num(_) => true
    case Var(_, _) => true
    case Un(op, a) => Normal(a) && !UnaryRedex(op, a)
    case Bin(op, l, r) => Normal(l) && Normal(r) && !BinaryRedex(op, l, r)
    case Arr(items) => forall i :: 0 <= i < |items| ==> Normal(items[i])
    case Tup(items) => forall i :: 0 <= i < |items| ==> Normal(items[i])
    case Rec(_, _, fields) => forall k :: k in fields ==> Normal(fields[k])
  }
}
