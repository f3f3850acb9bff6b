/** The expression graph (mod.rs `Graph`): a hash-consed node store plus the compiled
    functions, with the simplifying constructors (binary.rs `Binary::new`, unary.rs
    `Unary::new`) and symbolic differentiation. Every method is proved against the
    tree-level definitions of `Simplification` and `Differentiation`. */
module Graphs {
  import opened Outcomes
  import opened Operators
  import opened Terms
  import opened Nodes
  import opened Store
  import opened Simplification
  import opened Differentiation
  import opened Schedule
  import opened Inlining
  import opened Splicing
  import Constants
  import Variables
  import Collections

  class Graph {
    /** `vertices`: node `h` of the arena is the node behind handle `h`. */
    var nodes: seq<Node>
    var functions: map<string, Function>

    ghost predicate Valid()
      reads this
    {
      Store.Valid(nodes)
    }

    /** `Graph::new`: no nodes, no functions. */
    constructor ()
      ensures Valid() && nodes == [] && functions == map[]
    {
      nodes := [];
      functions := map[];
    }

    /** `Graph::insert`: hand back the stored node equal to `node` if there is one,
        otherwise store `node`. Callers always build `node` with `Node::new`. */
    method Insert(node: Node) returns (h: Handle)
      requires Valid() && ChildrenBelow(node.interior, |nodes|) && node == NewNode(nodes, node.interior)
      modifies this`nodes
      ensures Valid() && Grows(old(nodes), nodes)
      ensures Find(old(nodes), node).Some? ==> nodes == old(nodes) && h == Find(old(nodes), node).value
      ensures Find(old(nodes), node).None? ==> nodes == old(nodes) + [node] && h == |old(nodes)|
      ensures h < |nodes| && Tree(nodes, h) == ContentTree(old(nodes), node.interior, |old(nodes)|)
    {
      var existing := Find(nodes, node);
      ExtendsGrows(nodes, nodes);
      if existing.Some? {
        FoundDenotesContent(nodes, node.interior);
        h := existing.value;
      } else {
        InsertKeepsValid(nodes, node.interior);
        ExtendsGrows(nodes, nodes + [node]);
        h := |nodes|;
        nodes := nodes + [node];
      }
    }

    /** `Graph::new_constant`: an equal stored constant is handed back and nothing is
        stored; otherwise exactly the new constant node is appended. */
    method NewConstant(value: real) returns (h: Handle)
      requires Valid()
      modifies this`nodes
      ensures Valid() && Grows(old(nodes), nodes)
      ensures var node := NewNode(old(nodes), Constant(Constants.Constant(value)));
              (Find(old(nodes), node).Some? ==> nodes == old(nodes)) &&
              (Find(old(nodes), node).None? ==> nodes == old(nodes) + [node] && h == |old(nodes)|)
      ensures h < |nodes| && Tree(nodes, h) == Num(value)
    {
      h := Insert(NewNode(nodes, Constant(Constants.Constant(value))));
    }

    /** `Graph::new_variable`: a stored variable of that name and role is handed back and
        nothing is stored; otherwise a new variable with index 0 is appended. */
    method NewVariable(name: string, parameter: bool) returns (h: Handle)
      requires Valid()
      modifies this`nodes
      ensures Valid() && Grows(old(nodes), nodes)
      ensures var node := NewNode(old(nodes), Variable(Variables.New(name, parameter)));
              (Find(old(nodes), node).Some? ==> nodes == old(nodes)) &&
              (Find(old(nodes), node).None? ==> nodes == old(nodes) + [node] && h == |old(nodes)| &&
                                                 nodes[h].interior.v.index == 0)
      ensures h < |nodes| && Tree(nodes, h) == Var(name, parameter)
    {
      h := Insert(NewNode(nodes, Variable(Variables.New(name, parameter))));
    }

    /** `Graph::new_collection`: an equal stored collection is handed back and nothing is
        stored; otherwise exactly the new collection node is appended. */
    method NewCollection(c: Collections.Collection) returns (h: Handle)
      requires Valid() && ChildrenBelow(Collection(c), |nodes|)
      modifies this`nodes
      ensures Valid() && Grows(old(nodes), nodes)
      ensures var node := NewNode(old(nodes), Collection(c));
              (Find(old(nodes), node).Some? ==> nodes == old(nodes)) &&
              (Find(old(nodes), node).None? ==> nodes == old(nodes) + [node] && h == |old(nodes)|)
      ensures h < |nodes| && Tree(nodes, h) == ContentTree(old(nodes), Collection(c), |old(nodes)|)
    {
      h := Insert(NewNode(nodes, Collection(c)));
    }

    /** `Unary::new` (reached through `Graph::new_unary`): the unary rules, then insertion.
        A rule that hands back the operand's operand adds no node. */
    method NewUnary(op: UnaryOp, a: Handle) returns (h: Handle)
      requires Valid() && a < |nodes|
      modifies this`nodes
      ensures Valid() && Grows(old(nodes), nodes)
      ensures h < |nodes| && Tree(nodes, h) == SimplifyUnary(op, Tree(old(nodes), a))
      ensures UnaryReturnsInner(op, Tree(old(nodes), a)) ==> nodes == old(nodes)
      ensures |nodes| <= |old(nodes)| + 1
    {
      var arg := nodes[a].interior;
      UnaryTreeShape(nodes, a);
      match op {
        case Exp =>
          if arg.Unary? && arg.uop == Log {
            return arg.argument;
          }
        case Log =>
          if arg.Unary? && arg.uop == Exp {
            return arg.argument;
          }
        case Negative =>
          if arg.Unary? {
            if arg.uop == Negative {
              return arg.argument;
            }
          } else if arg.Constant? {
            h := NewConstant(-arg.k.value);
            return;
          }
        case _ =>
      }
      h := Insert(NewNode(nodes, Unary(op, a)));
    }

    /** `Binary::new` (reached through `Graph::new_binary`): the binary rules in source
        order, then insertion. A rule that returns an operand adds no node, and dividing
        by the constant 0 fails. */
    method NewBinary(op: BinaryOp, l: Handle, r: Handle) returns (res: Result<Handle>)
      requires Valid() && l < |nodes| && r < |nodes|
      modifies this`nodes
      decreases if op == Pow then 1 else 0
      ensures Valid() && Grows(old(nodes), nodes)
      ensures Realizes(nodes, res, SimplifyBinary(op, Tree(old(nodes), l), Tree(old(nodes), r)))
      ensures BinaryReturnsOperand(op, Tree(old(nodes), l), Tree(old(nodes), r)) || res.Fail? ==> nodes == old(nodes)
      ensures |nodes| <= |old(nodes)| + 1
    {
      EqualsFloatIsNum(nodes, l, 0.0);
      EqualsFloatIsNum(nodes, l, 1.0);
      EqualsFloatIsNum(nodes, l, -1.0);
      EqualsFloatIsNum(nodes, r, 0.0);
      EqualsFloatIsNum(nodes, r, 1.0);
      EqualsFloatIsNum(nodes, r, -1.0);
      EqualsFloatIsNum(nodes, r, 2.0);
      match op {
        case Add =>
          if EqualsFloat(nodes[l], 0.0) {
            return Ok(r);
          } else if EqualsFloat(nodes[r], 0.0) {
            return Ok(l);
          }
        case Sub =>
          if EqualsFloat(nodes[l], 0.0) {
            var h := NewUnary(Negative, r);
            return Ok(h);
          } else if EqualsFloat(nodes[r], 0.0) {
            return Ok(l);
          } else if SameNode(nodes[l], nodes[r]) {
            SameNodeIffSameHandle(nodes, l, r);
            var h := NewConstant(0.0);
            return Ok(h);
          }
          SameNodeIffSameHandle(nodes, l, r);
        case Mul =>
          if EqualsFloat(nodes[l], 0.0) || EqualsFloat(nodes[r], 0.0) {
            var h := NewConstant(0.0);
            return Ok(h);
          } else if EqualsFloat(nodes[l], 1.0) {
            return Ok(r);
          } else if EqualsFloat(nodes[r], 1.0) {
            return Ok(l);
          } else if EqualsFloat(nodes[l], -1.0) {
            var h := NewUnary(Negative, r);
            return Ok(h);
          } else if EqualsFloat(nodes[r], -1.0) {
            var h := NewUnary(Negative, l);
            return Ok(h);
          }
        case Div =>
          if EqualsFloat(nodes[l], 0.0) {
            var h := NewConstant(0.0);
            return Ok(h);
          } else if EqualsFloat(nodes[r], 1.0) {
            return Ok(l);
          } else if EqualsFloat(nodes[r], -1.0) {
            var h := NewUnary(Negative, l);
            return Ok(h);
          } else if EqualsFloat(nodes[r], 0.0) {
            return Fail(DivisionByZero);
          }
        case Pow =>
          if EqualsFloat(nodes[l], 0.0) {
            var h := NewConstant(0.0);
            return Ok(h);
          } else if EqualsFloat(nodes[r], 0.0) {
            var h := NewConstant(1.0);
            return Ok(h);
          } else if EqualsFloat(nodes[r], 1.0) {
            return Ok(l);
          } else if EqualsFloat(nodes[r], 2.0) {
            res := NewBinary(Mul, l, l);
            return;
          }
      }
      var h := Insert(NewNode(nodes, Binary(op, l, r)));
      return Ok(h);
    }
  
    /** `Graph::differentiate`: leaves directly, operator nodes through
        `DifferentiateBinary` and `DifferentiateUnary`; a collection is fatal. */
    method Differentiate(h: Handle, x: Variables.Variable) returns (res: Result<Handle>)
      requires Valid() && h < |nodes|
      modifies this`nodes
      decreases h, 1
      ensures Valid() && Grows(old(nodes), nodes)
      ensures Realizes(nodes, res, DeriveTerm(Tree(old(nodes), h), x))
    {
      ExtendsGrows(nodes, nodes);
      match nodes[h].interior {
        case Binary(_, _, _) =>
          res := DifferentiateBinary(h, x);
        case Collection(_) =>
          res := Fail(CollectionDerivative);
        case Constant(_) =>
          var zero := NewConstant(0.0);
          res := Ok(zero);
        case Unary(_, _) =>
          res := DifferentiateUnary(h, x);
        case Variable(v) =>
          var c := NewConstant(if Variables.Same(v, x) then 1.0 else 0.0);
          res := Ok(c);
      }
    }

    /** `Binary::differentiate`: both operand derivatives first, then the rule for the
        operator. */
    method DifferentiateBinary(h: Handle, x: Variables.Variable) returns (res: Result<Handle>)
      requires Valid() && h < |nodes| && nodes[h].interior.Binary?
      modifies this`nodes
      decreases h, 0
      ensures Valid() && Grows(old(nodes), nodes)
      ensures Realizes(nodes, res, DeriveTerm(Tree(old(nodes), h), x))
    {
      ghost var n0 := nodes;
      var b := nodes[h].interior;
      assert ChildrenBelow(b, h) && b.left in ChildSet(b) && b.right in ChildSet(b);
      var l, r := b.left, b.right;
      var left := Differentiate(l, x);
      if left.Fail? {
        return Fail(left.error);
      }
      ghost var n1 := nodes;
      var right := Differentiate(r, x);
      GrowsTransitive(n0, n1, nodes);
      if right.Fail? {
        return Fail(right.error);
      }
      ghost var n2 := nodes;
      res := ApplyDerivativeRule(b.bop, l, r, left.value, right.value);
      GrowsTransitive(n0, n2, nodes);
    }

    /** The derivative of `l op r` from the operand derivatives `dl` and `dr`
        (the `match self.operation` of `Binary::differentiate`). */
    method ApplyDerivativeRule(op: BinaryOp, l: Handle, r: Handle, dl: Handle, dr: Handle) returns (res: Result<Handle>)
      requires Valid() && l < |nodes| && r < |nodes| && dl < |nodes| && dr < |nodes|
      modifies this`nodes
      ensures Valid() && Grows(old(nodes), nodes)
      ensures Realizes(nodes, res, DeriveBinary(op, Tree(old(nodes), l), Tree(old(nodes), r),
                                                Tree(old(nodes), dl), Tree(old(nodes), dr)))
    {
      ghost var n0 := nodes;
      match op {
        case Add =>
          res := NewBinary(Add, dl, dr);
        case Sub =>
          res := NewBinary(Sub, dl, dr);
        case Mul =>
          res := ProductRule(l, r, dl, dr);
        case Div =>
          res := QuotientRule(l, r, dl, dr);
        case Pow =>
          if nodes[r].interior.Constant? {
            res := PowerRule(l, r, dl);
          } else {
            ExtendsGrows(nodes, nodes);
            res := Fail(NonConstantExponent);
          }
      }
    }

    /** `dl*r + l*dr`. */
    method ProductRule(l: Handle, r: Handle, dl: Handle, dr: Handle) returns (res: Result<Handle>)
      requires Valid() && l < |nodes| && r < |nodes| && dl < |nodes| && dr < |nodes|
      modifies this`nodes
      ensures Valid() && Grows(old(nodes), nodes)
      ensures Realizes(nodes, res, DeriveBinary(Mul, Tree(old(nodes), l), Tree(old(nodes), r),
                                                Tree(old(nodes), dl), Tree(old(nodes), dr)))
    {
      ghost var n0 := nodes;
      var left := NewBinary(Mul, dl, r);
      BinaryNoRule(Mul, Tree(n0, dl), Tree(n0, r));
      ghost var n1 := nodes;
      var right := NewBinary(Mul, l, dr);
      BinaryNoRule(Mul, Tree(n0, l), Tree(n0, dr));
      GrowsTransitive(n0, n1, nodes);
      ghost var n2 := nodes;
      res := NewBinary(Add, left.value, right.value);
      GrowsTransitive(n0, n2, nodes);
    }

    /** `(dl*r - l*dr) / (r*r)`. */
    method QuotientRule(l: Handle, r: Handle, dl: Handle, dr: Handle) returns (res: Result<Handle>)
      requires Valid() && l < |nodes| && r < |nodes| && dl < |nodes| && dr < |nodes|
      modifies this`nodes
      ensures Valid() && Grows(old(nodes), nodes)
      ensures Realizes(nodes, res, DeriveBinary(Div, Tree(old(nodes), l), Tree(old(nodes), r),
                                                Tree(old(nodes), dl), Tree(old(nodes), dr)))
    {
      ghost var n0 := nodes;
      var left := NewBinary(Mul, dl, r);
      BinaryNoRule(Mul, Tree(n0, dl), Tree(n0, r));
      ghost var n1 := nodes;
      var right := NewBinary(Mul, l, dr);
      BinaryNoRule(Mul, Tree(n0, l), Tree(n0, dr));
      GrowsTransitive(n0, n1, nodes);
      ghost var n2 := nodes;
      var numerator := NewBinary(Sub, left.value, right.value);
      BinaryNoRule(Sub, Tree(n2, left.value), Tree(n2, right.value));
      GrowsTransitive(n0, n2, nodes);
      ghost var n3 := nodes;
      var denominator := NewBinary(Mul, r, r);
      BinaryNoRule(Mul, Tree(n0, r), Tree(n0, r));
      GrowsTransitive(n0, n3, nodes);
      ghost var n4 := nodes;
      res := NewBinary(Div, numerator.value, denominator.value);
      GrowsTransitive(n0, n4, nodes);
    }

    /** `dl * (c * l^(c-1))` for a constant exponent `c` (the exponent's own
        derivative plays no part, so any tree may stand for it). */
    method PowerRule(l: Handle, r: Handle, dl: Handle) returns (res: Result<Handle>)
      requires Valid() && l < |nodes| && r < |nodes| && dl < |nodes| && nodes[r].interior.Constant?
      modifies this`nodes
      ensures Valid() && Grows(old(nodes), nodes)
      ensures Realizes(nodes, res, DeriveBinary(Pow, Tree(old(nodes), l), Tree(old(nodes), r),
                                                Tree(old(nodes), dl), Num(0.0)))
    {
      ghost var n0 := nodes;
      ghost var c := nodes[r].interior.k.value;
      assert Tree(nodes, r) == Num(c);
      var exponent := NewConstant(nodes[r].interior.k.value - 1.0);
      ghost var n1 := nodes;
      var power := NewBinary(Pow, l, exponent);
      BinaryNoRule(Pow, Tree(n0, l), Num(c - 1.0));
      GrowsTransitive(n0, n1, nodes);
      ghost var n2 := nodes;
      var derivative := NewBinary(Mul, r, power.value);
      BinaryNoRule(Mul, Tree(n0, r), Tree(n2, power.value));
      GrowsTransitive(n0, n2, nodes);
      ghost var n3 := nodes;
      res := NewBinary(Mul, dl, derivative.value);
      GrowsTransitive(n0, n3, nodes);
    }

    /** `Unary::differentiate`: the operand's derivative first, then the chain rule. */
    method DifferentiateUnary(h: Handle, x: Variables.Variable) returns (res: Result<Handle>)
      requires Valid() && h < |nodes| && nodes[h].interior.Unary?
      modifies this`nodes
      decreases h, 0
      ensures Valid() && Grows(old(nodes), nodes)
      ensures Realizes(nodes, res, DeriveTerm(Tree(old(nodes), h), x))
    {
      ghost var n0 := nodes;
      var u := nodes[h].interior;
      assert ChildrenBelow(u, h) && u.argument in ChildSet(u);
      var inner := Differentiate(u.argument, x);
      if inner.Fail? {
        return Fail(inner.error);
      }
      ghost var n1 := nodes;
      res := ApplyChainRule(u.uop, u.argument, inner.value);
      GrowsTransitive(n0, n1, nodes);
    }

    /** The chain rule for `op(a)` given `du`, the derivative of `a`
        (the `match self.operation` of `Unary::differentiate`). */
    method ApplyChainRule(op: UnaryOp, a: Handle, du: Handle) returns (res: Result<Handle>)
      requires Valid() && a < |nodes| && du < |nodes|
      modifies this`nodes
      ensures Valid() && Grows(old(nodes), nodes)
      ensures Realizes(nodes, res, DeriveUnary(op, Tree(old(nodes), a), Tree(old(nodes), du)))
    {
      ghost var n0 := nodes;
      match op {
        case Negative =>
          var n := NewUnary(Negative, du);
          res := Ok(n);
        case Exp =>
          var e := NewUnary(Exp, a);
          ghost var n1 := nodes;
          res := NewBinary(Mul, du, e);
          GrowsTransitive(n0, n1, nodes);
        case Log =>
          res := NewBinary(Div, du, a);
        case Sin =>
          var c := NewUnary(Cos, a);
          ghost var n1 := nodes;
          res := NewBinary(Mul, du, c);
          GrowsTransitive(n0, n1, nodes);
        case Cos =>
          var s := NewUnary(Sin, a);
          ghost var n1 := nodes;
          var negative := NewUnary(Negative, s);
          GrowsTransitive(n0, n1, nodes);
          ghost var n2 := nodes;
          res := NewBinary(Mul, du, negative);
          GrowsTransitive(n0, n2, nodes);
        case Tan =>
          var c := NewUnary(Cos, a);
          ghost var n1 := nodes;
          var p := NewConstant(-2.0);
          GrowsTransitive(n0, n1, nodes);
          ghost var n2 := nodes;
          var sec2 := NewBinary(Pow, c, p);
          BinaryNoRule(Pow, Tree(n2, c), Num(-2.0));
          GrowsTransitive(n0, n2, nodes);
          ghost var n3 := nodes;
          res := NewBinary(Mul, du, sec2.value);
          GrowsTransitive(n0, n3, nodes);
      }
    }
  
    /** `Graph::splice`: inline function `f`, whose nodes live in the store `source`, on the
        given input handles. A wrong number of inputs fails before anything is stored.
        Otherwise every node reachable from the result is rebuilt, children first, through
        the constructors, and the result is a handle to the inlined tree; the call fails
        exactly when inlining the result's tree fails. */
    method Splice(source: seq<Node>, f: Function, inputs: seq<Handle>) returns (res: Result<Handle>)
      requires Valid() && Store.Valid(source) && f.result < |source|
      requires forall i :: 0 <= i < |f.arguments| ==> f.arguments[i] < |source|
      requires forall i :: 0 <= i < |inputs| ==> inputs[i] < |nodes|
      modifies this`nodes
      ensures Valid() && Grows(old(nodes), nodes)
      ensures |inputs| != |f.arguments| ==> res == Fail(ArityMismatch(|f.arguments|, |inputs|)) && nodes == old(nodes)
      ensures |inputs| == |f.arguments| ==>
                var expected := Inline(Tree(source, f.result), CallBindings(source, f.arguments, old(nodes), inputs));
                (res.Ok? <==> expected.Ok?) &&
                (res.Ok? ==> res.value < |nodes| && Tree(nodes, res.value) == expected.value)
    {
      ExtendsGrows(nodes, nodes);
      var valid := ValidateInputs(f, inputs);
      if valid.Fail? {
        return Fail(valid.error);
      }
      ghost var n0 := nodes;
      ghost var env := CallBindings(source, f.arguments, nodes, inputs);
      var m: map<Handle, Handle> := BindArguments(f.arguments, inputs);
      ghost var args := m;
      var order := Order(f, source);
      for i := 0 to |order|
        invariant forall j :: 0 <= j < |order| ==> order[j] < |source|
        invariant Valid() && Grows(n0, nodes)
        invariant forall k :: k in m ==> m[k] < |nodes|
        invariant forall j :: i <= j < |order| ==>
                    var k := order[j]; (k in m <==> k in args) && (k in args ==> m[k] == args[k])
        invariant forall j :: 0 <= j < i ==> Spliced(nodes, source, order[j], m, env)
      {
        var node := order[i];
        SplicedChildren(nodes, source, order, i, m, env);
        ghost var before := nodes;
        var r := SpliceNode(source, f, inputs, n0, node, m);
        GrowsTransitive(n0, before, nodes);
        if r.Fail? {
          FailurePropagates(source, f.result, node, env);
          return Fail(r.error);
        }
        var spliced: Handle := r.value;
        SplicedExtend(before, nodes, source, order, i, m, env, spliced);
        m := m[node := spliced];
      }
      assert f.result == order[|order| - 1];
      var result: Handle := m[f.result];
      return Ok(result);
    }

    /** The first loop of `splice`: each argument handle is mapped to the input at its
        position, a later position overriding an earlier one. */
    static method BindArguments(arguments: seq<Handle>, inputs: seq<Handle>) returns (m: map<Handle, Handle>)
      requires |arguments| == |inputs|
      ensures m == ArgMap(arguments, inputs)
      ensures forall k :: k in m ==> m[k] in inputs
    {
      m := map[];
      for i := 0 to |inputs|
        invariant m == ArgMap(arguments[..i], inputs[..i])
        invariant forall k :: k in m ==> m[k] in inputs
      {
        assert arguments[..i + 1][..i] == arguments[..i] && inputs[..i + 1][..i] == inputs[..i];
        m := m[arguments[i] := inputs[i]];
      }
      assert arguments[..|inputs|] == arguments && inputs[..|inputs|] == inputs;
    }

    /** One step of the `for node in order` loop of `splice`: a variable node is sent to the
        input bound to it, and fails unbound when it is no argument; any other node is
        rebuilt. */
    method SpliceNode(source: seq<Node>, f: Function, inputs: seq<Handle>, ghost n0: seq<Node>, node: Handle,
                      m: map<Handle, Handle>)
      returns (r: Result<Handle>)
      requires Valid() && Store.Valid(source) && node < |source| && Grows(n0, nodes)
      requires |inputs| == |f.arguments| && forall i :: 0 <= i < |f.arguments| ==> f.arguments[i] < |source|
      requires forall i :: 0 <= i < |inputs| ==> inputs[i] < |n0|
      requires node in m <==> node in ArgMap(f.arguments, inputs)
      requires node in m ==> m[node] == ArgMap(f.arguments, inputs)[node]
      requires forall k :: k in m ==> m[k] < |nodes|
      requires forall c :: c in ChildSet(source[node].interior) ==>
                 c < |source| && Spliced(nodes, source, c, m, CallBindings(source, f.arguments, n0, inputs))
      modifies this`nodes
      ensures Valid() && Grows(old(nodes), nodes)
      ensures var env := CallBindings(source, f.arguments, n0, inputs);
              (r.Ok? <==> Inline(Tree(source, node), env).Ok?) &&
              (r.Ok? ==> r.value < |nodes| && Tree(nodes, r.value) == Inline(Tree(source, node), env).value)
    {
      ExtendsGrows(nodes, nodes);
      ghost var env := CallBindings(source, f.arguments, n0, inputs);
      if source[node].interior.Variable? {
        VariableBinding(source, f.arguments, n0, inputs, node);
        assert Tree(source, node) == ContentTree(source, source[node].interior, node);
        if node !in m {
          return Fail(UnboundVariable);
        }
        r := Ok(m[node]);
      } else {
        r := Rebuild(source, node, m, env);
      }
    }

    /** The step of `splice` for a node that is not a variable: rebuild it from its already rebuilt children. */
    method Rebuild(source: seq<Node>, node: Handle, m: map<Handle, Handle>, ghost env: map<VarKey, Terms.Term>)
      returns (r: Result<Handle>)
      requires Valid() && Acyclic(source) && node < |source| && !source[node].interior.Variable?
      requires forall k :: k in m ==> m[k] < |nodes|
      requires forall c :: c in ChildSet(source[node].interior) ==> c < |source| && Spliced(nodes, source, c, m, env)
      modifies this`nodes
      ensures Valid() && Grows(old(nodes), nodes)
      ensures r.Ok? <==> Inline(Tree(source, node), env).Ok?
      ensures r.Ok? ==> r.value < |nodes| && Tree(nodes, r.value) == Inline(Tree(source, node), env).value
    {
      var interior := source[node].interior;
      assert Tree(source, node) == ContentTree(source, interior, node);
      match interior {
        case Binary(op, left, right) =>
          assert left in ChildSet(interior) && right in ChildSet(interior);
          r := NewBinary(op, m[left], m[right]);
        case Unary(op, a) =>
          assert a in ChildSet(interior);
          var h := NewUnary(op, m[a]);
          r := Ok(h);
        case Constant(k) =>
          var h := NewConstant(k.value);
          r := Ok(h);
        case Collection(c) =>
          if c.Struct? {
            r := RebuildStruct(source, node, m, env);
          } else {
            var h := RebuildSequence(source, node, m, env);
            r := Ok(h);
          }
      }
    }

    /** The loop over `name_order` that collects a rebuilt struct's fields. */
    static method StructFields(order: seq<string>, fields: map<string, Handle>, m: map<Handle, Handle>)
      returns (res: Result<map<string, Handle>>)
      requires forall f :: f in fields ==> fields[f] in m
      ensures res.Ok? <==> forall i :: 0 <= i < |order| ==> order[i] in fields
      ensures res.Fail? ==> res.error.MissingField? && res.error.field !in fields && res.error.field in order
      ensures res.Ok? ==> res.value == map f | f in fields && f in order :: m[fields[f]]
    {
      var elements: map<string, Handle> := map[];
      for j := 0 to |order|
        invariant forall i :: 0 <= i < j ==> order[i] in fields
        invariant elements.Keys == set i | 0 <= i < j :: order[i]
        invariant forall f :: f in elements ==> f in fields && elements[f] == m[fields[f]]
      {
        if order[j] !in fields {
          return Fail(MissingField(order[j]));
        }
        elements := elements[order[j] := m[fields[order[j]]]];
      }
      assert forall f :: f in order ==> exists i :: 0 <= i < |order| && order[i] == f;
      return Ok(elements);
    }

    /** An Array or Tuple node: the same kind of collection over the rebuilt elements. */
    method RebuildSequence(source: seq<Node>, node: Handle, m: map<Handle, Handle>, ghost env: map<VarKey, Terms.Term>)
      returns (h: Handle)
      requires Valid() && Acyclic(source) && node < |source|
      requires source[node].interior.Collection? && !source[node].interior.coll.Struct?
      requires forall k :: k in m ==> m[k] < |nodes|
      requires forall c :: c in ChildSet(source[node].interior) ==> c < |source| && Spliced(nodes, source, c, m, env)
      modifies this`nodes
      ensures Valid() && Grows(old(nodes), nodes)
      ensures Inline(Tree(source, node), env).Ok?
      ensures h < |nodes| && Tree(nodes, h) == Inline(Tree(source, node), env).value
    {
      var interior := source[node].interior;
      var es := interior.coll.elements;
      assert forall j :: 0 <= j < |es| ==> es[j] in ChildSet(interior);
      var elements := seq(|es|, j requires 0 <= j < |es| => m[es[j]]);
      SequenceImage(nodes, source, node, m, env, elements);
      if interior.coll.Array? {
        h := NewCollection(Collections.Array(elements));
      } else {
        h := NewCollection(Collections.Tuple(elements));
      }
    }

    /** A Struct node: the fields named by `name_order`, in that order, each looked up in
        the field map (a missing name is fatal) and sent to its rebuilt child. */
    method RebuildStruct(source: seq<Node>, node: Handle, m: map<Handle, Handle>, ghost env: map<VarKey, Terms.Term>)
      returns (r: Result<Handle>)
      requires Valid() && Acyclic(source) && node < |source|
      requires source[node].interior.Collection? && source[node].interior.coll.Struct?
      requires forall k :: k in m ==> m[k] < |nodes|
      requires forall c :: c in ChildSet(source[node].interior) ==> c < |source| && Spliced(nodes, source, c, m, env)
      modifies this`nodes
      ensures Valid() && Grows(old(nodes), nodes)
      ensures r.Ok? <==> Inline(Tree(source, node), env).Ok?
      ensures r.Ok? ==> r.value < |nodes| && Tree(nodes, r.value) == Inline(Tree(source, node), env).value
    {
      ExtendsGrows(nodes, nodes);
      var s := source[node].interior.coll;
      assert forall f :: f in s.fields ==> s.fields[f] in ChildSet(source[node].interior);
      ghost var t := Tree(source, node);
      assert t == ContentTree(source, source[node].interior, node);
      InlineStep(t, env);
      var elements := StructFields(s.nameOrder, s.fields, m);
      if elements.Fail? {
        return Fail(elements.error);
      }
      StructImage(nodes, source, node, m, env, s.name, s.nameOrder, s.fields, elements.value);
      var h := NewCollection(Collections.Struct(s.name, s.nameOrder, elements.value));
      r := Ok(h);
    }
  }
}
