/** Graph nodes (mod.rs `NodeType`, `Node`, `Node::new`, `get_children`, and the
    float comparison). Child pointers are handles into the node arena. */
module Nodes {
  import opened Operators
  import Constants
  import Variables
  import Collections

  type Handle = Collections.Handle

  datatype NodeType =
    | Binary(bop: BinaryOp, left: Handle, right: Handle)
    | Constant(k: Constants.Constant)
    | Unary(uop: UnaryOp, argument: Handle)
    | Variable(v: Variables.Variable)
    | Collection(coll: Collections.Collection)

  /** A stored node: its content plus the flags and cost `Node::new` derives from it.
      The cost is a `usize` in the source; here it is unbounded. */
  datatype Node = Node(interior: NodeType, parameters: bool, data: bool, cost: nat)

  /** The set of handles a node points to. */
  function ChildSet(interior: NodeType): set<Handle> {
    match interior
    case Binary(_, l, r) => {l, r}
    case Constant(_) => {}
    case Unary(_, a) => {a}
    case Variable(_) => {}
    case Collection(c) =>
      match c
      case Array(elements) => set e | e in elements
      case Struct(_, _, fields) => fields.Values
      case Tuple(elements) => set e | e in elements
  }

  /** Every child of `interior` is already one of the first `n` stored nodes. */
  predicate ChildrenBelow(interior: NodeType, n: nat) {
    forall c :: c in ChildSet(interior) ==> c < n
  }

  /** An array or tuple node's children are its elements. */
  lemma ElementsBelow(es: seq<Handle>, n: nat)
    requires forall i :: 0 <= i < |es| ==> es[i] < n
    ensures ChildrenBelow(Collection(Collections.Array(es)), n)
    ensures ChildrenBelow(Collection(Collections.Tuple(es)), n)
  {
    forall c | c in es ensures c < n {
      var i :| 0 <= i < |es| && es[i] == c;
    }
  }

  /** `Node::new`: the flags and cost of a node, read from its children in `nodes`.
      What they mean on the unfolded tree is `Store.FlagsReflectVariables`. */
  function NewNode(nodes: seq<Node>, interior: NodeType): (node: Node)
    requires ChildrenBelow(interior, |nodes|)
    ensures node.interior == interior
    ensures interior.Variable? ==> node.parameters == interior.v.parameter && node.data == !interior.v.parameter
  {
    match interior
    case Binary(op, l, r) =>
      assert l in ChildSet(interior) && r in ChildSet(interior);
      Node(interior, nodes[l].parameters || nodes[r].parameters, nodes[l].data || nodes[r].data,
           nodes[l].cost + nodes[r].cost + BinaryCost(op))
    case Collection(_) => Node(interior, false, false, 0)
    case Constant(_) => Node(interior, false, false, 1)
    case Unary(op, a) =>
      assert a in ChildSet(interior);
      Node(interior, nodes[a].parameters, nodes[a].data, nodes[a].cost + UnaryCost(op))
    case Variable(v) => Node(interior, v.parameter, !v.parameter, 1)
  }

  /** `children` lists the handles of `fields` under the field names `names`, one entry per
      name, each name once. */
  ghost predicate ListsFields(children: seq<Handle>, fields: map<string, Handle>, names: seq<string>) {
    |names| == |children| &&
    (forall i, j :: 0 <= i < j < |names| ==> names[i] != names[j]) &&
    (forall i :: 0 <= i < |names| ==> names[i] in fields && children[i] == fields[names[i]]) &&
    (forall f :: f in fields ==> f in names)
  }

  /** `get_children`. A struct's children come out of its field map in an unspecified
      order, so this is a method that picks the next field arbitrarily. */
  method GetChildren(interior: NodeType) returns (children: seq<Handle>)
    ensures (set c | c in children) == ChildSet(interior)
    ensures interior.Binary? ==> children == [interior.left, interior.right]
    ensures interior.Unary? ==> children == [interior.argument]
    ensures interior.Constant? || interior.Variable? ==> children == []
    ensures interior.Collection? && !interior.coll.Struct? ==> children == interior.coll.elements
    ensures interior.Collection? && interior.coll.Struct? ==>
              |children| == |interior.coll.fields| &&
              exists names :: ListsFields(children, interior.coll.fields, names)
  {
    match interior
    case Binary(_, l, r) => children := [l, r];
    case Constant(_) => children := [];
    case Unary(_, a) => children := [a];
    case Variable(_) => children := [];
    case Collection(c) =>
      match c
      case Array(elements) => children := elements;
      case Tuple(elements) => children := elements;
      case Struct(_, _, fields) =>
        children := FieldChildren(fields);
  }

  /** The struct case of `get_children`: one child per field, taken from the field map in
      an order the map leaves open. */
  method FieldChildren(fields: map<string, Handle>) returns (children: seq<Handle>)
    ensures (set c | c in children) == (set f | f in fields :: fields[f])
    ensures |children| == |fields|
    ensures exists names :: ListsFields(children, fields, names)
  {
    children := [];
    ghost var names: seq<string> := [];
    var remaining := fields.Keys;
    while remaining != {}
      invariant remaining <= fields.Keys
      invariant |children| + |remaining| == |fields|
      invariant |names| == |children|
      invariant forall i, j :: 0 <= i < j < |names| ==> names[i] != names[j]
      invariant forall i :: 0 <= i < |names| ==>
                  names[i] in fields && names[i] !in remaining && children[i] == fields[names[i]]
      invariant forall f :: f in fields && f !in remaining ==> f in names
      decreases |remaining|
    {
      var k :| k in remaining;
      children := children + [fields[k]];
      names := names + [k];
      remaining := remaining - {k};
    }
    assert ListsFields(children, fields, names);
    ListedChildren(children, fields, names);
  }

  /** A listing of the fields holds exactly the field handles. */
  lemma ListedChildren(children: seq<Handle>, fields: map<string, Handle>, names: seq<string>)
    requires ListsFields(children, fields, names)
    ensures (set c | c in children) == (set f | f in fields :: fields[f])
  {
    forall c | c in children ensures c in (set f | f in fields :: fields[f]) {
      var i :| 0 <= i < |children| && children[i] == c;
      assert names[i] in fields;
    }
    forall f | f in fields ensures fields[f] in children {
      var i :| 0 <= i < |names| && names[i] == f;
      assert children[i] == fields[f];
    }
  }

  /** `impl PartialEq<f64> for Node`: only a constant node can equal a float. */
  predicate EqualsFloat(n: Node, x: real) {
    n.interior.Constant? && Constants.EqualsLiteral(n.interior.k, x)
  }

  /** The derived equality of node contents: variables compare by name and role,
      everything else (operators, child handles, collections, constants) exactly. */
  predicate SameInterior(a: NodeType, b: NodeType) {
    if a.Variable? && b.Variable? then Variables.Same(a.v, b.v) else a == b
  }

  /** The derived `PartialEq for Node`: contents, both flags and the cost. */
  predicate SameNode(a: Node, b: Node) {
    SameInterior(a.interior, b.interior) && a.parameters == b.parameters && a.data == b.data && a.cost == b.cost
  }

  /** A node equals a float exactly when it is a constant of that value. */
  lemma EqualsFloatOnlyConstants(n: Node, x: real)
    ensures EqualsFloat(n, x) <==> n.interior == Constant(Constants.Constant(x))
  {
  }

  /** Node equality is an equivalence relation, and it ignores a variable's index. */
  lemma SameNodeIsEquivalence(a: Node, b: Node, c: Node)
    ensures SameNode(a, a)
    ensures SameNode(a, b) ==> SameNode(b, a)
    ensures SameNode(a, b) && SameNode(b, c) ==> SameNode(a, c)
    ensures a.interior.Variable? ==> SameNode(a, a.(interior := Variable(a.interior.v.(index := 0))))
  {
  }

  /** A compiled function: its argument handles and its result handle. */
  datatype Function = Function(name: string, arguments: seq<Handle>, result: Handle)
}
