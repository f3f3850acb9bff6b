/** `Function::compute_derivatives` (mod.rs): for a compiled function `f`, differentiate
    its result with respect to each argument variable, and each of those once more with
    respect to the same and every later variable, then publish `<f>_gradient` (the value and
    the gradient) and `<f>_gradient_hessian` (the value, the gradient and the flat upper
    triangle of the Hessian) in the graph's function table. */
module Functions {
  import opened Outcomes
  import opened Terms
  import opened Nodes
  import opened Store
  import opened Differentiation
  import opened Derivatives
  import opened Splicing
  import opened Graphs
  import Variables
  import Collections

  /** The argument variables of `f`, in order; an argument that is not a variable node is
      fatal. */
  function ArgumentVariables(nodes: seq<Node>, arguments: seq<Handle>): (r: Result<seq<Variables.Variable>>)
    requires Acyclic(nodes) && forall i :: 0 <= i < |arguments| ==> arguments[i] < |nodes|
    ensures r.Ok? <==> forall i :: 0 <= i < |arguments| ==> Tree(nodes, arguments[i]).Var?
    ensures r.Fail? ==> r.error == NonVariableArgument
    ensures r.Ok? ==>
              |r.value| == |arguments| &&
              forall i :: 0 <= i < |arguments| ==>
                Tree(nodes, arguments[i]) == Var(r.value[i].name, r.value[i].parameter)
  {
    if exists i :: 0 <= i < |arguments| && !nodes[arguments[i]].interior.Variable? then
      var i :| 0 <= i < |arguments| && !nodes[arguments[i]].interior.Variable?;
      assert Tree(nodes, arguments[i]) == ContentTree(nodes, nodes[arguments[i]].interior, arguments[i]);
      Fail(NonVariableArgument)
    else
      var vs := seq(|arguments|, i requires 0 <= i < |arguments| => nodes[arguments[i]].interior.v);
      assert forall i :: 0 <= i < |arguments| ==>
               Tree(nodes, arguments[i]) == ContentTree(nodes, nodes[arguments[i]].interior, arguments[i]);
      Ok(vs)
  }

  /** `format!("{}_gradient", name)`. */
  function GradientName(name: string): string {
    name + "_gradient"
  }

  /** `format!("{}_gradient_hessian", name)`. */
  function HessianName(name: string): string {
    name + "_gradient_hessian"
  }

  /** The two published names differ from each other and from the function's own name,
      so publishing them never overwrites `f` or each other. */
  lemma PublishedNamesDistinct(name: string)
    ensures GradientName(name) != HessianName(name)
    ensures GradientName(name) != name && HessianName(name) != name
  {
    assert |GradientName(name)| != |HessianName(name)|;
  }

  /** The function table after publishing: `<f>_gradient` returns `(value, gradient)`,
      `<f>_gradient_hessian` returns `(value, gradient, hessian)`, both over `f`'s
      arguments; every other entry is as `before`. */
  ghost predicate Published(nodes: seq<Node>, functions: map<string, Function>, before: map<string, Function>,
                            f: Function, t: Term, g: Gathered)
    requires Acyclic(nodes)
  {
    var gn, hn := GradientName(f.name), HessianName(f.name);
    gn in functions && hn in functions &&
    functions == before[gn := functions[gn]][hn := functions[hn]] &&
    functions[gn].name == gn && functions[gn].arguments == f.arguments && functions[gn].result < |nodes| &&
    Tree(nodes, functions[gn].result) == Tup([t, Arr(g.gradient)]) &&
    functions[hn].name == hn && functions[hn].arguments == f.arguments && functions[hn].result < |nodes| &&
    Tree(nodes, functions[hn].result) == Tup([t, Arr(g.gradient), Arr(g.hessian)])
  }

  /** Growing the store keeps the trees of existing handles. */
  lemma TreesGrow(a: seq<Node>, b: seq<Node>, hs: seq<Handle>)
    requires Grows(a, b) && forall i :: 0 <= i < |hs| ==> hs[i] < |a|
    ensures forall i :: 0 <= i < |hs| ==> hs[i] < |b|
    ensures Trees(b, hs) == Trees(a, hs)
  {
  }

  /** `hs` are stored handles whose trees are `ts`, entry by entry. */
  ghost predicate Denote(nodes: seq<Node>, hs: seq<Handle>, ts: seq<Term>)
    requires Acyclic(nodes)
  {
    (forall k :: 0 <= k < |hs| ==> hs[k] < |nodes|) && Trees(nodes, hs) == ts
  }

  /** Growing the store keeps what stored handles denote. */
  lemma DenoteGrows(a: seq<Node>, b: seq<Node>, hs: seq<Handle>, ts: seq<Term>)
    requires Grows(a, b) && Denote(a, hs, ts)
    ensures Denote(b, hs, ts)
  {
    TreesGrow(a, b, hs);
  }

  /** Appending a handle appends its tree. */
  lemma DenoteAppend(nodes: seq<Node>, hs: seq<Handle>, ts: seq<Term>, h: Handle)
    requires Acyclic(nodes) && Denote(nodes, hs, ts) && h < |nodes|
    ensures Denote(nodes, hs + [h], ts + [Tree(nodes, h)])
  {
    assert Trees(nodes, hs + [h]) == Trees(nodes, hs) + [Tree(nodes, h)];
  }

  /** An Array node over stored handles denotes the array of their trees. */
  lemma ArrayTrees(nodes: seq<Node>, es: seq<Handle>)
    requires Acyclic(nodes) && forall i :: 0 <= i < |es| ==> es[i] < |nodes|
    ensures ChildrenBelow(Collection(Collections.Array(es)), |nodes|)
    ensures ContentTree(nodes, Collection(Collections.Array(es)), |nodes|) == Arr(Trees(nodes, es))
  {
    ElementsTree(nodes, es, |nodes|);
  }

  /** A Tuple node over stored handles denotes the tuple of their trees. */
  lemma TupleTrees(nodes: seq<Node>, es: seq<Handle>)
    requires Acyclic(nodes) && forall i :: 0 <= i < |es| ==> es[i] < |nodes|
    ensures ChildrenBelow(Collection(Collections.Tuple(es)), |nodes|)
    ensures ContentTree(nodes, Collection(Collections.Tuple(es)), |nodes|) == Tup(Trees(nodes, es))
  {
    ElementsTree(nodes, es, |nodes|);
  }

  /** The `parameters` and `data` flags of `Node::new` are sound for differentiation: a
      stored node flagged as reading no variable of `x`'s role has derivative zero with
      respect to `x` whenever differentiating it succeeds. */
  lemma UnflaggedDerivativeIsZero(nodes: seq<Node>, h: Handle, x: Variables.Variable)
    requires Store.Valid(nodes) && h < |nodes|
    requires if x.parameter then !nodes[h].parameters else !nodes[h].data
    requires DeriveTerm(Tree(nodes, h), x).Ok?
    ensures DeriveTerm(Tree(nodes, h), x).value == Num(0.0)
  {
    FlagsReflectVariables(nodes, h);
    assert (x.name, x.parameter) !in ScalarVars(Tree(nodes, h));
    DeriveIndependent(Tree(nodes, h), x);
  }

  /** `Function::compute_derivatives`. Non-variable arguments are rejected before anything
      is stored; otherwise the derivatives are taken in loop order (`Rounds`) and the call
      fails with the first failing derivative's error, or publishes both functions. */
  method ComputeDerivatives(f: Function, graph: Graph) returns (res: Result<()>)
    requires graph.Valid() && f.result < |graph.nodes|
    requires forall i :: 0 <= i < |f.arguments| ==> f.arguments[i] < |graph.nodes|
    modifies graph
    ensures graph.Valid() && Grows(old(graph.nodes), graph.nodes)
    ensures ArgumentVariables(old(graph.nodes), f.arguments).Fail? ==>
              res == Fail(NonVariableArgument) &&
              graph.nodes == old(graph.nodes) && graph.functions == old(graph.functions)
    ensures ArgumentVariables(old(graph.nodes), f.arguments).Ok? ==>
              var xs := ArgumentVariables(old(graph.nodes), f.arguments).value;
              var spec := Rounds(DeriveTerm, Tree(old(graph.nodes), f.result), xs, |xs|);
              (res.Ok? <==> spec.Ok?) &&
              (res.Fail? ==> res.error == spec.error && graph.functions == old(graph.functions)) &&
              (res.Ok? ==> Published(graph.nodes, graph.functions, old(graph.functions), f,
                                     Tree(old(graph.nodes), f.result), spec.value))
  {
    ExtendsGrows(graph.nodes, graph.nodes);
    ghost var n0 := graph.nodes;
    ghost var t := Tree(n0, f.result);
    var value := f.result;
    var variables := ArgumentVariables(graph.nodes, f.arguments);
    if variables.Fail? {
      return Fail(variables.error);
    }
    var xs := variables.value;
    var derivatives := Loops(graph, n0, DeriveTerm, t, value, xs);
    if derivatives.Fail? {
      return Fail(derivatives.error);
    }
    var gradient, hessian := derivatives.value.0, derivatives.value.1;
    res := Publish(f, graph, n0, t, xs, gradient, hessian);
  }

  /** `derive` is the differentiator `Graph::differentiate` implements. The loops below are
      stated for such a `derive`, which stands for `DeriveTerm` wherever a derivative of the
      graph is taken. */
  ghost predicate IsDeriveTerm(derive: Deriver) {
    forall t: Term, x: Variables.Variable {:trigger DeriveTerm(t, x)} :: derive(t, x) == DeriveTerm(t, x)
  }

  /** The two nested loops of `compute_derivatives` over the variables `xs`. */
  method Loops(graph: Graph, ghost n0: seq<Node>, ghost derive: Deriver, ghost t: Term, value: Handle, xs: seq<Variables.Variable>)
    returns (r: Result<(seq<Handle>, seq<Handle>)>)
    requires IsDeriveTerm(derive)
    requires graph.Valid() && Grows(n0, graph.nodes) && value < |n0| && Tree(n0, value) == t
    modifies graph`nodes
    ensures graph.Valid() && Grows(n0, graph.nodes)
    ensures r.Ok? <==> Rounds(derive, t, xs, |xs|).Ok?
    ensures r.Fail? ==> Rounds(derive, t, xs, |xs|) == Fail(r.error)
    ensures r.Ok? ==>
              Denote(graph.nodes, r.value.0, Rounds(derive, t, xs, |xs|).value.gradient) &&
              Denote(graph.nodes, r.value.1, Rounds(derive, t, xs, |xs|).value.hessian)
  {
    var gradient: seq<Handle> := [];
    var hessian: seq<Handle> := [];
    for i := 0 to |xs|
      invariant graph.Valid() && Grows(n0, graph.nodes)
      invariant Rounds(derive, t, xs, i).Ok?
      invariant Denote(graph.nodes, gradient, Rounds(derive, t, xs, i).value.gradient)
      invariant Denote(graph.nodes, hessian, Rounds(derive, t, xs, i).value.hessian)
    {
      var round := Round(graph, n0, derive, t, value, xs, i, gradient, hessian);
      if round.Fail? {
        RoundsFailureSticks(derive, t, xs, i + 1, |xs|);
        return Fail(round.error);
      }
      gradient, hessian := round.value.0, round.value.1;
    }
    return Ok((gradient, hessian));
  }

  /** One round `i` of the outer loop: `d value / d xs[i]`, then its derivatives with
      respect to `xs[i..]` appended to the Hessian, then the gradient entry appended. */
  method Round(graph: Graph, ghost n0: seq<Node>, ghost derive: Deriver, ghost t: Term, value: Handle, xs: seq<Variables.Variable>,
               i: nat, gradient: seq<Handle>, hessian: seq<Handle>)
    returns (r: Result<(seq<Handle>, seq<Handle>)>)
    requires IsDeriveTerm(derive)
    requires graph.Valid() && Grows(n0, graph.nodes) && value < |n0| && Tree(n0, value) == t
    requires i < |xs| && Rounds(derive, t, xs, i).Ok?
    requires Denote(graph.nodes, gradient, Rounds(derive, t, xs, i).value.gradient)
    requires Denote(graph.nodes, hessian, Rounds(derive, t, xs, i).value.hessian)
    modifies graph`nodes
    ensures graph.Valid() && Grows(n0, graph.nodes)
    ensures r.Ok? <==> Rounds(derive, t, xs, i + 1).Ok?
    ensures r.Fail? ==> Rounds(derive, t, xs, i + 1) == Fail(r.error)
    ensures r.Ok? ==>
              Denote(graph.nodes, r.value.0, Rounds(derive, t, xs, i + 1).value.gradient) &&
              Denote(graph.nodes, r.value.1, Rounds(derive, t, xs, i + 1).value.hessian)
  {
    ghost var n1 := graph.nodes;
    ghost var prev := Rounds(derive, t, xs, i).value;
    ExtendsGrows(n1, n1);
    var gi := graph.Differentiate(value, xs[i]);
    GrowsTransitive(n0, n1, graph.nodes);
    if gi.Fail? {
      return Fail(gi.error);
    }
    ghost var g := derive(t, xs[i]).value;
    ghost var n2 := graph.nodes;
    DenoteGrows(n1, n2, hessian, prev.hessian);
    var row := HessianRow(graph, n0, derive, g, gi.value, xs, i, prev.hessian, hessian);
    GrowsTransitive(n1, n2, graph.nodes);
    if row.Fail? {
      return Fail(row.error);
    }
    DenoteGrows(n1, graph.nodes, gradient, prev.gradient);
    var grown: seq<Handle> := gradient + [gi.value];
    DenoteAppend(graph.nodes, gradient, prev.gradient, gi.value);
    return Ok((grown, row.value));
  }

  /** The inner loop of round `i`: the derivatives of `gi` (denoting `g`) with respect to
      `xs[i..]`, appended to the Hessian gathered so far. */
  method HessianRow(graph: Graph, ghost n0: seq<Node>, ghost derive: Deriver, ghost g: Term, gi: Handle, xs: seq<Variables.Variable>,
                    i: nat, ghost before: seq<Term>, hessian: seq<Handle>)
    returns (r: Result<seq<Handle>>)
    requires IsDeriveTerm(derive)
    requires graph.Valid() && Grows(n0, graph.nodes) && gi < |graph.nodes| && Tree(graph.nodes, gi) == g
    requires i <= |xs| && Denote(graph.nodes, hessian, before)
    modifies graph`nodes
    ensures graph.Valid() && Grows(old(graph.nodes), graph.nodes) && Grows(n0, graph.nodes)
    ensures r.Ok? <==> Row(derive, g, xs, i, |xs|).Ok?
    ensures r.Fail? ==> Row(derive, g, xs, i, |xs|) == Fail(r.error)
    ensures r.Ok? ==> Denote(graph.nodes, r.value, before + Row(derive, g, xs, i, |xs|).value)
  {
    ghost var n1 := graph.nodes;
    ExtendsGrows(n1, n1);
    var row: seq<Handle> := hessian;
    for j := i to |xs|
      invariant graph.Valid() && Grows(n1, graph.nodes)
      invariant Row(derive, g, xs, i, j).Ok?
      invariant Denote(graph.nodes, row, before + Row(derive, g, xs, i, j).value)
    {
      var step := HessianStep(graph, n1, derive, g, gi, xs, i, j, before, row);
      if step.Fail? {
        RowFailureSticks(derive, g, xs, i, j + 1, |xs|);
        GrowsTransitive(n0, n1, graph.nodes);
        return Fail(step.error);
      }
      row := step.value;
    }
    GrowsTransitive(n0, n1, graph.nodes);
    return Ok(row);
  }

  /** One pass of the inner loop: append `d g / d xs[j]` to the row gathered so far. */
  method HessianStep(graph: Graph, ghost n1: seq<Node>, ghost derive: Deriver, ghost g: Term, gi: Handle, xs: seq<Variables.Variable>,
                     i: nat, j: nat, ghost before: seq<Term>, row: seq<Handle>)
    returns (r: Result<seq<Handle>>)
    requires IsDeriveTerm(derive)
    requires graph.Valid() && Grows(n1, graph.nodes) && gi < |n1| && Tree(n1, gi) == g
    requires i <= j < |xs| && Row(derive, g, xs, i, j).Ok?
    requires Denote(graph.nodes, row, before + Row(derive, g, xs, i, j).value)
    modifies graph`nodes
    ensures graph.Valid() && Grows(n1, graph.nodes)
    ensures r.Ok? <==> Row(derive, g, xs, i, j + 1).Ok?
    ensures r.Fail? ==> Row(derive, g, xs, i, j + 1) == Fail(r.error)
    ensures r.Ok? ==> Denote(graph.nodes, r.value, before + Row(derive, g, xs, i, j + 1).value)
  {
    ghost var n2 := graph.nodes;
    var d := graph.Differentiate(gi, xs[j]);
    GrowsTransitive(n1, n2, graph.nodes);
    if d.Fail? {
      return Fail(d.error);
    }
    DenoteGrows(n2, graph.nodes, row, before + Row(derive, g, xs, i, j).value);
    var grown: seq<Handle> := row + [d.value];
    DenoteAppend(graph.nodes, row, before + Row(derive, g, xs, i, j).value, d.value);
    return Ok(grown);
  }

  /** The tail of `compute_derivatives`: store the gradient array and the
      `(value, gradient)` tuple and publish `<f>_gradient`; then the Hessian array and the
      `(value, gradient, hessian)` tuple and publish `<f>_gradient_hessian`. */
  method Publish(f: Function, graph: Graph, ghost n0: seq<Node>, ghost t: Term, xs: seq<Variables.Variable>,
                 gradient: seq<Handle>, hessian: seq<Handle>)
    returns (res: Result<()>)
    requires graph.Valid() && Grows(n0, graph.nodes) && f.result < |n0| && Tree(n0, f.result) == t
    requires Rounds(DeriveTerm, t, xs, |xs|).Ok?
    requires Denote(graph.nodes, gradient, Rounds(DeriveTerm, t, xs, |xs|).value.gradient)
    requires Denote(graph.nodes, hessian, Rounds(DeriveTerm, t, xs, |xs|).value.hessian)
    modifies graph
    ensures graph.Valid() && Grows(old(graph.nodes), graph.nodes) && Grows(n0, graph.nodes)
    ensures res.Ok? && Published(graph.nodes, graph.functions, old(graph.functions), f, t, Rounds(DeriveTerm, t, xs, |xs|).value)
  {
    ghost var spec := Rounds(DeriveTerm, t, xs, |xs|).value;
    ghost var n1 := graph.nodes;
    var gradientArray, valueGradient := PublishGradient(f, graph, n0, t, gradient);
    ghost var n2 := graph.nodes;
    TreesGrow(n1, n2, hessian);
    var hessianArray, valueGradientHessian := PublishHessian(f, graph, n0, t, gradientArray, hessian);
    GrowsTransitive(n1, n2, graph.nodes);
    GrowsTransitive(n0, n1, graph.nodes);
    PublishedNamesDistinct(f.name);
    res := Ok(());
  }

  /** Store the gradient array and the `(value, gradient)` tuple; publish `<f>_gradient`. */
  method PublishGradient(f: Function, graph: Graph, ghost n0: seq<Node>, ghost t: Term, gradient: seq<Handle>)
    returns (gradientArray: Handle, valueGradient: Handle)
    requires graph.Valid() && Grows(n0, graph.nodes) && f.result < |n0| && Tree(n0, f.result) == t
    requires forall k :: 0 <= k < |gradient| ==> gradient[k] < |graph.nodes|
    modifies graph
    ensures graph.Valid() && Grows(old(graph.nodes), graph.nodes) && Grows(n0, graph.nodes)
    ensures gradientArray < |graph.nodes| && Tree(graph.nodes, gradientArray) == Arr(Trees(old(graph.nodes), gradient))
    ensures valueGradient < |graph.nodes|
    ensures Tree(graph.nodes, valueGradient) == Tup([t, Arr(Trees(old(graph.nodes), gradient))])
    ensures graph.functions == old(graph.functions)[GradientName(f.name) :=
              Function(GradientName(f.name), f.arguments, valueGradient)]
  {
    ghost var n1 := graph.nodes;
    ArrayTrees(graph.nodes, gradient);
    gradientArray := graph.NewCollection(Collections.Array(gradient));
    ghost var n2 := graph.nodes;
    TupleTrees(graph.nodes, [f.result, gradientArray]);
    valueGradient := graph.NewCollection(Collections.Tuple([f.result, gradientArray]));
    GrowsTransitive(n1, n2, graph.nodes);
    GrowsTransitive(n0, n1, graph.nodes);
    assert Trees(n2, [f.result, gradientArray]) == [t, Arr(Trees(n1, gradient))];
    var gradientName := GradientName(f.name);
    graph.functions := graph.functions[gradientName := Function(gradientName, f.arguments, valueGradient)];
  }

  /** Store the Hessian array and the `(value, gradient, hessian)` tuple; publish
      `<f>_gradient_hessian`. */
  method PublishHessian(f: Function, graph: Graph, ghost n0: seq<Node>, ghost t: Term, gradientArray: Handle,
                        hessian: seq<Handle>)
    returns (hessianArray: Handle, valueGradientHessian: Handle)
    requires graph.Valid() && Grows(n0, graph.nodes) && f.result < |n0| && Tree(n0, f.result) == t
    requires gradientArray < |graph.nodes|
    requires forall k :: 0 <= k < |hessian| ==> hessian[k] < |graph.nodes|
    modifies graph
    ensures graph.Valid() && Grows(old(graph.nodes), graph.nodes) && Grows(n0, graph.nodes)
    ensures valueGradientHessian < |graph.nodes|
    ensures Tree(graph.nodes, valueGradientHessian)
            == Tup([t, Tree(old(graph.nodes), gradientArray), Arr(Trees(old(graph.nodes), hessian))])
    ensures graph.functions == old(graph.functions)[HessianName(f.name) :=
              Function(HessianName(f.name), f.arguments, valueGradientHessian)]
  {
    ghost var n1 := graph.nodes;
    ArrayTrees(graph.nodes, hessian);
    hessianArray := graph.NewCollection(Collections.Array(hessian));
    ghost var n2 := graph.nodes;
    TupleTrees(graph.nodes, [f.result, gradientArray, hessianArray]);
    valueGradientHessian := graph.NewCollection(Collections.Tuple([f.result, gradientArray, hessianArray]));
    GrowsTransitive(n1, n2, graph.nodes);
    GrowsTransitive(n0, n1, graph.nodes);
    assert Trees(n2, [f.result, gradientArray, hessianArray])
           == [t, Tree(n1, gradientArray), Arr(Trees(n1, hessian))];
    var hessianName := HessianName(f.name);
    graph.functions := graph.functions[hessianName := Function(hessianName, f.arguments, valueGradientHessian)];
  }
}
