# fastfit expression engine, modelled in Dafny

The `fastfit` procedural macro compiles a statistical model into Rust code. At its
centre is an expression graph (`macros/src/expression/`), and this project models
that graph and proves properties about it:

- **Node store.** A hash-consed set of immutable nodes. `Graph::insert` returns the
  existing node when structurally equal content is inserted again.
- **Simplifying constructors.** `Binary::new` and `Unary::new` apply a fixed list of
  algebraic identities before they insert anything.
- **Symbolic differentiator.** `Graph::differentiate`, `Binary::differentiate` and
  `Unary::differentiate` build every derivative through those same constructors.
- **Gradient and Hessian builder.** `Function::compute_derivatives` differentiates a
  compiled function with respect to each argument variable. It collects the gradient
  and the upper triangle of the Hessian, row by row, and publishes two new functions,
  `<name>_gradient` and `<name>_gradient_hessian`.
- **Scheduler and inliner.** `Function::order` is a depth-first post-order walk from
  a function's result. `Graph::splice` uses it to inline a function: each argument
  node is replaced by an input node, and every other node is rebuilt from its
  already rebuilt children.

## How the model is built

- **Handles.** Pointers (`*const Node`, and `Rc<Node>` in binary.rs) become handles:
  indices into an arena `seq<Node>`, one slot per stored node. Every child handle is
  smaller than its parent's. This invariant (`Store.Acyclic`) gives termination to
  everything that walks the graph.
- **Store invariant.** The arena also carries the flags and costs that `Node::new`
  computes (`Store.Consistent`). No two of its nodes are equal under node equality
  (`Store.Unique`), which is what the hash set guarantees.
- **Trees.** Each handle denotes an expression tree (`Store.Tree`, over
  `Terms.Term`). The algebraic rules are stated once, as functions on trees:
  `Simplification`, `Differentiation`, `Inlining` and `Derivatives`. The class
  `Graphs.Graph` holds the mutable store and the function table. Each of its
  constructors and its differentiator are proved to produce the handle of exactly
  the tree that the tree-level function prescribes (`Store.Realizes`); the splice
  methods are proved to succeed exactly when inlining succeeds and then to produce
  the inlined tree, but on failure they do not state which error is reported. Each method also keeps the store valid,
  and every earlier handle keeps denoting the same tree (`Store.Grows`).
- **Hash-consing on trees.** In a valid store, two handles that denote the same tree
  are the same handle (`Store.Canonical`).
- **Panics.** The source panics on division by a literal zero, on a non-constant
  exponent, on differentiating a collection, on an arity mismatch, on a
  non-variable argument and on a missing map entry. In the model these become
  `Fail` results (`Outcomes.Fatal`).
- **Constants.** Values are `real`.

Places where the code's behaviour is easy to misread:

- The variable case of `splice` looks the variable node itself up in the argument
  map. A variable that is not an argument therefore fails the call
  (`UnboundVariable`); it is not kept as it is.
- A struct is rebuilt with only the fields listed in its `name_order`.
- An argument that is not a variable node is mapped to its input, but the input is
  never read. If the argument node is reachable from the result, the post-order walk
  rebuilds it, and overwrites its map entry, before any parent looks it up; if it is
  not reachable, nothing looks it up. At tree level such an argument binds nothing
  (`Inlining.Bindings`).

## Model

| member | source | states |
|---|---|---|
| Constants.EqualsLiteralIsValueEquality | macros/src/expression/constant.rs:10-14 | a constant equals a float literal exactly when its value is that literal |
| Constants.EqualityIsValueEquality | macros/src/expression/constant.rs:3-8 | two constants are equal exactly when their values are equal, and this equality is reflexive, symmetric and transitive, as the declared `Eq` demands |
| Constants.HashAgreesWithEquality | macros/src/expression/constant.rs:16-20 | the hash input is the value alone, so equal constants hash equally, and over reals the converse also holds |
| Variables.New | macros/src/expression/variable.rs:23-30 | a new variable has index 0 and is the same variable as every variable with that name and role |
| Variables.SameIgnoresIndex | macros/src/expression/variable.rs:10-14 | changing a variable's index never changes its identity |
| Variables.SameIsEquivalence | macros/src/expression/variable.rs:10-14 | variable equality (name and role) is reflexive, symmetric and transitive |
| Variables.HashAgreesWithSame | macros/src/expression/variable.rs:16-21 | two variables are equal exactly when their hash inputs (name, then role) are equal |
| Collections.HashFeedDetermines | macros/src/expression/collection.rs:29-37 | two structs feed the hasher the same items exactly when they have the same name and `name_order` and their field maps give the same lookup (or the same absence) for every listed name |
| Collections.SequenceEqualityIsElementwise | macros/src/expression/collection.rs:12-20 | arrays and tuples are equal exactly when their element lists have the same length and agree position by position |
| Collections.ArrayIsNotTuple | macros/src/expression/collection.rs:5-10 | an array never equals a tuple, whatever their elements |
| Collections.StructEquality | macros/src/expression/collection.rs:22-27 | structs are equal exactly when their names, field orders and field maps are equal |
| Collections.EqualStructsHashEqually | macros/src/expression/collection.rs:22-37 | equal structs produce the same hash input, so the hand-written hash agrees with the derived equality |
| Collections.HashIgnoresUnlistedFields | macros/src/expression/collection.rs:29-37 | a field missing from `name_order` changes struct equality but not the hash input |
| Operators.BinaryCostOrder | macros/src/expression/binary.rs:119-128 | Add and Sub cost the same and are cheapest, then Mul, then Div, and Pow costs the most |
| Operators.UnaryCostLevels | macros/src/expression/unary.rs:90-100 | Negative costs as much as Add; Sin, Cos, Tan, Exp and Log cost as much as Pow |
| Simplification.UnaryRules | macros/src/expression/unary.rs:29-61 | `exp(log x)`, `log(exp x)` and `-(-x)` give `x`; `-c` for a constant `c` is the constant `-c`; Sin, Cos and Tan are kept as they are; a Unary node is built unchanged exactly when no rule applies |
| Simplification.AddRules | macros/src/expression/binary.rs:30-36 | `0 + y` is `y`; otherwise `x + 0` is `x` |
| Simplification.SubRules | macros/src/expression/binary.rs:37-45 | `0 - y` is `-y` (through the unary rules); otherwise `x - 0` is `x`; otherwise `x - x` is the constant 0 |
| Simplification.MulRules | macros/src/expression/binary.rs:46-58 | a zero on either side gives 0; then a one on the left, then on the right, returns the other side; then a minus one on the left, then on the right, negates the other side |
| Simplification.DivRules | macros/src/expression/binary.rs:59-69 | `0 / y` is 0 even when `y` is 0; otherwise `x / 1` is `x`, `x / -1` is `-x`, and a literal zero divisor is the fatal DivisionByZero |
| Simplification.PowRules | macros/src/expression/binary.rs:70-80 | `0 ^ y` is 0 even when `y` is 0; otherwise `x ^ 0` is 1, `x ^ 1` is `x`, and `x ^ 2` is whatever `x * x` simplifies to |
| Simplification.BinaryNoRule | macros/src/expression/binary.rs:28-84 | a Binary node is built unchanged exactly when no rule applies; the only failure is a literal zero divisor under a dividend that is not literally 0 |
| Simplification.SimplifyUnaryNormal | macros/src/expression/unary.rs:29-61 | the unary constructor never builds a node one of the constructor rules would rewrite |
| Simplification.SimplifyBinaryNormal | macros/src/expression/binary.rs:28-84 | the binary constructor never builds a node one of the constructor rules would rewrite |
| Differentiation.DeriveLeaves | macros/src/expression/mod.rs:223-231 | a constant differentiates to 0; a variable differentiates to 1 when its name and role match the target and to 0 otherwise; a collection is the fatal CollectionDerivative |
| Differentiation.SumDerivatives | macros/src/expression/binary.rs:86-92 | `d(l+r)` is `dl+dr` and `d(l-r)` is `dl-dr`, built through the simplifying constructor |
| Differentiation.ProductDerivative | macros/src/expression/binary.rs:93-97 | `d(l*r)` is `dl*r + l*dr`, each product and the sum built through the simplifying constructors |
| Differentiation.QuotientDerivative | macros/src/expression/binary.rs:98-104 | `d(l/r)` is `(dl*r - l*dr)/(r*r)`, every intermediate node built through the simplifying constructors |
| Differentiation.PowDerivative | macros/src/expression/binary.rs:86-116 | both operand derivatives are taken first and their failures come first; then a constant exponent `c` gives `dl * (c * l^(c-1))`, and any other exponent is the fatal NonConstantExponent |
| Differentiation.UnaryDerivatives | macros/src/expression/unary.rs:63-88 | `-u` gives `-du`, `exp u` gives `du*exp(u)`, `log u` gives `du/u`, `sin u` gives `du*cos(u)`, `cos u` gives `du*(-sin u)` and `tan u` gives `du*cos(u)^(-2)` |
| Differentiation.UnaryZeroCollapses | macros/src/expression/unary.rs:63-88 | when the operand's derivative is the constant 0, every unary derivative is the constant 0 |
| Differentiation.BinaryZeroCollapses | macros/src/expression/binary.rs:86-116 | when both operand derivatives are the constant 0, every binary derivative is the constant 0 (Pow still needs a constant exponent) |
| Differentiation.DeriveIndependent | macros/src/expression/mod.rs:223-231 | whenever differentiating succeeds, an expression that does not read the variable differentiates to the constant 0 (it can still fail, e.g. `2 ^ y` with respect to another variable is NonConstantExponent) |
| Differentiation.DeriveUnaryNormal | macros/src/expression/unary.rs:63-88 | the chain rule applied to a normal unary node and a normal operand derivative gives a normal tree |
| Differentiation.DeriveBinaryNormal | macros/src/expression/binary.rs:86-116 | the derivative of a normal binary node, from normal operand derivatives, is normal |
| Differentiation.DeriveNormal | macros/src/expression/mod.rs:223-231 | differentiating a tree the constructors built gives a tree the constructors could have built |
| Differentiation.DeriveErrors | macros/src/expression/mod.rs:223-231 | differentiating a tree the constructors built never divides by zero: the only possible failures are a collection and a non-constant exponent |
| Differentiation.UnaryDeriveErrors | macros/src/expression/unary.rs:63-88 | the chain rules of a normal unary node fail only where the operand's derivative does |
| Differentiation.BinaryDeriveErrors | macros/src/expression/binary.rs:86-116 | the sum, product, quotient and power rules of a normal binary node add no division by zero: any new failure is a non-constant exponent |
| Derivatives.RowStartClosedForm | macros/src/expression/mod.rs:258-264 | before row `i`, the flat Hessian holds `i(2n-i+1)/2` entries, and each earlier row ends by the time row `i` starts |
| Derivatives.HessianSize | macros/src/expression/mod.rs:258-264 | the flat upper-triangle Hessian of `n` variables has `n(n+1)/2` entries |
| Derivatives.RowSucceeds | macros/src/expression/mod.rs:260-262 | one Hessian row succeeds exactly when each of its derivatives does, and then holds `d g / d x_j` at position `j - i` |
| Derivatives.RowFails | macros/src/expression/mod.rs:260-262 | a failing Hessian row reports the error of its first failing derivative, every earlier one having succeeded |
| Derivatives.RowEntries | macros/src/expression/mod.rs:260-262 | one Hessian row succeeds exactly when each of its derivatives does; it then holds `d g / d x_j` at position `j - i`; on failure it reports the first failing derivative's error |
| Derivatives.RoundsSucceedExactly | macros/src/expression/mod.rs:258-264 | the outer loop succeeds exactly when every gradient entry and every later Hessian derivative succeeds |
| Derivatives.RoundsEntries | macros/src/expression/mod.rs:258-264 | after `i` rounds the gradient has `i` entries with entry `k` equal to `d t / d x_k`; for `k <= j`, Hessian entry `(k, j)` sits at `RowStart(n, k) + (j - k)` and is `d(d t / d x_k) / d x_j` |
| Derivatives.AllRounds | macros/src/expression/mod.rs:255-264 | when all rounds succeed, the gradient has `n` entries and the Hessian `n(n+1)/2` |
| Derivatives.RowFailureSticks | macros/src/expression/mod.rs:260-262 | once a row has failed, it stays failed with the same error |
| Derivatives.RoundsFailureSticks | macros/src/expression/mod.rs:258-264 | once a round has failed, every later round fails with the same error |
| Inlining.FirstMissing | macros/src/expression/mod.rs:159-162 | finds no name exactly when every name in `name_order` is a field; otherwise finds the first name that is not a field |
| Inlining.BindingsDomain | macros/src/expression/mod.rs:142-145 | a variable is bound exactly when some argument tree is that variable |
| Inlining.BindingsLastWins | macros/src/expression/mod.rs:142-145 | a variable is bound to the input of the last argument that is that variable |
| Inlining.InlineStep | macros/src/expression/mod.rs:148-174 | inlining succeeds at a node exactly when it succeeds on all the node's children (and, for a variable, when the variable is bound), and then rebuilds the node through the constructors |
| Inlining.InlineRecord | macros/src/expression/mod.rs:156-163 | a struct whose fields inline, and whose `name_order` names only fields, inlines to a struct with the same name and order and with the inlined fields of `name_order` |
| Inlining.InlineBindsAllVars | macros/src/expression/mod.rs:148-174 | a successful inlining has a binding for every variable the body mentions |
| Inlining.InlineIdentity | macros/src/expression/mod.rs:138-177 | inlining a constructor-built body whose structs each list exactly their fields in `name_order` (`ExactRecords`), with every variable bound to itself, gives the body back |
| Inlining.InlineNormal | macros/src/expression/mod.rs:148-174 | inlining normal inputs into a normal body yields a normal tree |
| Nodes.NewNode | macros/src/expression/mod.rs:37-60 | the node keeps its content; a variable node's `parameters` flag is its role and its `data` flag is the negation of its role |
| Nodes.GetChildren | macros/src/expression/mod.rs:63-75 | returns exactly the node's children: `[left, right]`, `[argument]`, none for leaves, the elements of an array or tuple, and for a struct the field handles listed under some order of its field names, each name once |
| Nodes.FieldChildren | macros/src/expression/mod.rs:68 | lists a struct's field handles, one entry per field name, each name once, in an order the map leaves open |
| Nodes.EqualsFloatOnlyConstants | macros/src/expression/mod.rs:78-86 | a node equals a float exactly when it is a constant node of that value |
| Nodes.SameNodeIsEquivalence | macros/src/expression/mod.rs:19-34 | node equality is an equivalence relation and ignores a variable's index |
| Store.Find | macros/src/expression/mod.rs:127-130 | the lookup finds a stored node equal to the new one, or shows that none is stored |
| Store.SameContentSameNode | macros/src/expression/mod.rs:37-60 | in a consistent store, nodes with equal content have equal flags and cost |
| Store.Canonical | macros/src/expression/mod.rs:127-136 | in a valid store, two handles that denote the same tree are equal |
| Store.SameNodeIffSameHandle | macros/src/expression/mod.rs:127-136 | in a valid store, two handles are equal exactly when their nodes are equal, and exactly when their trees are equal |
| Store.UnaryTreeShape | macros/src/expression/mod.rs:63-75 | a stored node denotes a unary tree exactly when it is a unary node, and then the operator applied to its argument's tree; it denotes a number exactly when it is a constant node |
| Store.EqualsFloatIsNum | macros/src/expression/mod.rs:78-86 | a stored node equals a float literal exactly when its tree is that constant |
| Store.FlagsReflectVariables | macros/src/expression/mod.rs:37-60 | a node's `parameters` (`data`) flag is set exactly when its scalar tree reads a parameter (data) variable, and its cost is the cost of its unfolded tree |
| Store.SameInteriorSameTree | macros/src/expression/mod.rs:127-130 | content equal to that of a stored node denotes the same tree as that node |
| Store.FoundDenotesContent | macros/src/expression/mod.rs:127-130 | when equal content is already stored, the handle found denotes the tree of the new content |
| Store.InsertKeepsValid | macros/src/expression/mod.rs:131-134 | appending new content keeps the store valid, changes no existing node, and the new handle denotes the content's tree |
| Schedule.TopologicalIsClosed | macros/src/expression/mod.rs:279-295 | a topologically ordered list contains everything reachable from each of its entries |
| Schedule.Dfs | macros/src/expression/mod.rs:283-292 | the walk adds exactly the not-yet-visited nodes reachable from `h` to `visited` and `sorted`, keeps `sorted` ordered with no duplicates, and ends with `h` when `h` was unvisited |
| Schedule.VisitChildren | macros/src/expression/mod.rs:288-290 | walking the children in turn adds exactly the nodes reachable from them, keeping `sorted` ordered with no duplicates |
| Schedule.Order | macros/src/expression/mod.rs:279-295 | the order lists every node reachable from the result exactly once, each after all of its children, with the result last |
| Splicing.ArgMapDomain | macros/src/expression/mod.rs:142-145 | the argument map's keys are exactly the argument handles |
| Splicing.ArgMapLastWins | macros/src/expression/mod.rs:142-145 | an argument handle maps to the input at its last position in the argument list |
| Splicing.VariableBinding | macros/src/expression/mod.rs:172 | a variable node of the function is in the argument map exactly when its variable is bound at tree level, and it maps to a handle of the bound tree |
| Splicing.FailurePropagates | macros/src/expression/mod.rs:148-175 | if inlining fails at a node reachable from the result, it fails at the result |
| Splicing.ChildFailure | macros/src/expression/mod.rs:148-174 | a node fails to inline whenever one of its children does |
| Splicing.SplicedExtend | macros/src/expression/mod.rs:174 | recording a new image in the map keeps every node already rebuilt correctly rebuilt |
| Splicing.SplicedChildren | macros/src/expression/mod.rs:148-150 | walking the schedule in order, every child of the current node has already been rebuilt correctly |
| Splicing.StructImage | macros/src/expression/mod.rs:156-163 | a struct rebuilt from its fields' images denotes the inlined struct |
| Splicing.SequenceImage | macros/src/expression/mod.rs:151-168 | an array or tuple rebuilt from its elements' images denotes the inlined collection |
| Splicing.StructInline | macros/src/expression/mod.rs:156-163 | a stored struct inlines to the struct of its inlined `name_order` fields |
| Splicing.RebuiltFields | macros/src/expression/mod.rs:159-162 | each rebuilt field handle denotes the inlined tree of that field |
| Graphs.Graph.constructor | macros/src/expression/mod.rs:101-104 | a new graph has no nodes and no functions |
| Graphs.Graph.Insert | macros/src/expression/mod.rs:127-136 | returns the stored equal node and leaves the store unchanged; otherwise it appends exactly the new node and returns its handle; either way the store stays valid and the handle denotes the content's tree |
| Graphs.Graph.NewConstant | macros/src/expression/mod.rs:110-112 | returns a handle to the constant's tree; an equal stored constant leaves the store unchanged, otherwise exactly the new node is appended |
| Graphs.Graph.NewVariable | macros/src/expression/mod.rs:114-117 | returns a handle to the variable with that name and role; a stored one leaves the store unchanged, otherwise exactly the new node, with index 0, is appended |
| Graphs.Graph.NewCollection | macros/src/expression/mod.rs:106-108 | returns a handle to the collection's tree; an equal stored collection leaves the store unchanged, otherwise exactly the new node is appended |
| Graphs.Graph.NewUnary | macros/src/expression/unary.rs:29-61 | returns a handle to the simplified unary tree; the rules that return the inner operand store nothing, and at most one node is appended |
| Graphs.Graph.NewBinary | macros/src/expression/binary.rs:28-84 | returns a handle to the simplified binary tree, or the same failure; the rules that return an operand, and the failure, store nothing, and at most one node is appended |
| Graphs.Graph.Differentiate | macros/src/expression/mod.rs:223-231 | returns a handle to the derivative tree, or the same failure |
| Graphs.Graph.DifferentiateBinary | macros/src/expression/binary.rs:86-116 | returns a handle to the derivative of a binary node, or the same failure |
| Graphs.Graph.ApplyDerivativeRule | macros/src/expression/binary.rs:90-115 | builds the operator's rule from the operand derivatives as the tree-level rule prescribes |
| Graphs.Graph.ProductRule | macros/src/expression/binary.rs:93-97 | builds `dl*r + l*dr` through the constructors |
| Graphs.Graph.QuotientRule | macros/src/expression/binary.rs:98-104 | builds `(dl*r - l*dr)/(r*r)` through the constructors |
| Graphs.Graph.PowerRule | macros/src/expression/binary.rs:105-113 | builds `dl*(c*l^(c-1))` for a constant exponent and fails for any other |
| Graphs.Graph.DifferentiateUnary | macros/src/expression/unary.rs:63-88 | returns a handle to the derivative of a unary node, or the same failure |
| Graphs.Graph.ApplyChainRule | macros/src/expression/unary.rs:65-87 | builds the chain rule from the operand derivative as the tree-level rule prescribes |
| Graphs.Graph.Splice | macros/src/expression/mod.rs:138-177 | a wrong number of inputs fails with ArityMismatch and stores nothing (the check of `validate_inputs`, mod.rs:235-239); otherwise the call succeeds exactly when inlining the result's tree, with argument trees bound to input trees, succeeds, and the returned handle denotes the inlined tree |
| Graphs.Graph.BindArguments | macros/src/expression/mod.rs:142-145 | builds the argument map: each argument maps to the input at its last position |
| Graphs.Graph.SpliceNode | macros/src/expression/mod.rs:149-174 | a variable node maps to its bound input (failing when unbound); any other node is rebuilt; either way the image is the inlined tree of the node |
| Graphs.Graph.Rebuild | macros/src/expression/mod.rs:149-171 | rebuilds a non-variable node from its children's images; it succeeds exactly when inlining succeeds, and then yields the inlined tree |
| Graphs.Graph.StructFields | macros/src/expression/mod.rs:157-162 | succeeds exactly when every name of `name_order` is a field, and then maps each such name to its field's image; otherwise it reports a name that is not a field |
| Graphs.Graph.RebuildSequence | macros/src/expression/mod.rs:152-155 | rebuilds an array or tuple from its elements' images, giving the inlined tree |
| Graphs.Graph.RebuildStruct | macros/src/expression/mod.rs:156-163 | rebuilds a struct from its `name_order` fields' images; it succeeds exactly when inlining succeeds, and then yields the inlined tree |
| Functions.ArgumentVariables | macros/src/expression/mod.rs:244-253 | succeeds exactly when every argument node is a variable, listing them in order; otherwise fails with NonVariableArgument |
| Functions.PublishedNamesDistinct | macros/src/expression/mod.rs:268-274 | `<name>_gradient` and `<name>_gradient_hessian` differ from each other and from the function's own name |
| Functions.UnflaggedDerivativeIsZero | macros/src/expression/mod.rs:37-60 | whenever differentiating succeeds, a node whose flag for the variable's role is clear differentiates to the constant 0 |
| Functions.ComputeDerivatives | macros/src/expression/mod.rs:241-277 | a non-variable argument fails before anything is stored; otherwise the call succeeds exactly when every gradient and Hessian derivative does, fails with the first failing one's error, and on success publishes `<name>_gradient` returning `(value, gradient)` and `<name>_gradient_hessian` returning `(value, gradient, hessian)` over the same arguments |
| Functions.Loops | macros/src/expression/mod.rs:258-264 | the nested loops yield handles to exactly the gradient and Hessian trees, in loop order, or the first failure |
| Functions.Round | macros/src/expression/mod.rs:259-263 | one outer round appends `d value / d x_i` to the gradient and row `i` to the Hessian |
| Functions.HessianRow | macros/src/expression/mod.rs:260-262 | the inner loop yields handles to `d g / d x_j` for `j = i .. n-1`, or the first failure |
| Functions.HessianStep | macros/src/expression/mod.rs:261 | one inner pass appends a handle to `d g / d x_j` to the row, or fails with that derivative's error |
| Functions.Publish | macros/src/expression/mod.rs:266-276 | stores the result collections and publishes both functions |
| Functions.PublishGradient | macros/src/expression/mod.rs:266-270 | stores the gradient array and the `(value, gradient)` tuple and adds `<name>_gradient` |
| Functions.PublishHessian | macros/src/expression/mod.rs:272-276 | stores the Hessian array and the `(value, gradient, hessian)` tuple and adds `<name>_gradient_hessian` |

## Left out

- IEEE `f64` semantics: NaN, the sign of zero, rounding, and the constant hash through `to_string`, under which `0.0` and `-0.0` compare equal but hash differently. Constants are `real`s, so constant equality is a true equivalence and agrees with the hash.
- The `usize` node cost can overflow in the source. Here it is an unbounded `nat`.
- Numerical correctness of the derivatives, such as agreement with finite differences, and symmetry of the Hessian. These would need real `exp`, `sin` and `log`; the model states the symbolic rules.
- Code emission: the `generate_rust` methods of binary.rs and unary.rs, translate.rs, parse.rs, model.rs and the proc-macro entry points. These are `syn` and `quote` token handling; they are not part of this model.
- Pointer identity, `Box` address stability and `unsafe` dereferences. Handles stand for both `*const Node` (mod.rs, unary.rs) and `Rc<Node>` (binary.rs), which the source mixes.
- Nodes.GetChildren: the order of a struct's children follows the iteration order of a `HashMap`, which is unspecified. The method states that they are the struct's field handles listed under some order of the field names, each name once, but not which order.
- Graphs.Graph.Splice: the function's nodes are read from a store passed as `source`, which must itself be valid; the source dereferences the function's node pointers wherever they live (mod.rs:149), and its only caller passes a separately built helper graph; `source == nodes` is allowed as one case. On failure the contract states that the call fails, but not which error it reports or which nodes were stored before it failed: the source panics at that point.
- The commented-out earlier version of `splice` in mod.rs is not modelled.
- Panics become `Fail` results. The state of the graph after a failure is left unspecified beyond the store invariant, because the source aborts.
