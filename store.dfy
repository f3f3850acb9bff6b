/** The node store of `Graph` (mod.rs `vertices` and `insert`) as an arena: a node is
    addressed by its position, and a node's children always sit at smaller positions.
    `Tree` unfolds a handle into the expression tree it denotes. */
module Store {
  import opened Outcomes
  import opened Operators
  import opened Terms
  import opened Nodes
  import Constants
  import Variables
  import Collections

  /** Every child handle is smaller than its parent's handle. */
  predicate Acyclic(nodes: seq<Node>) {
    forall h :: 0 <= h < |nodes| ==> ChildrenBelow(nodes[h].interior, h)
  }

  /** Every stored node carries the flags and cost `Node::new` gives its content. */
  predicate Consistent(nodes: seq<Node>)
    requires Acyclic(nodes)
  {
    forall h :: 0 <= h < |nodes| ==> nodes[h] == NewNode(nodes[..h], nodes[h].interior)
  }

  /** No two stored nodes are equal under the node equality the hash set uses. */
  predicate Unique(nodes: seq<Node>) {
    forall i, j {:trigger SameNode(nodes[i], nodes[j])} :: 0 <= i < j < |nodes| ==> !SameNode(nodes[i], nodes[j])
  }

  /** The store invariant `Graph::insert` maintains. */
  predicate Valid(nodes: seq<Node>) {
    Acyclic(nodes) && Consistent(nodes) && Unique(nodes)
  }

  /** `b` is `a` with nodes appended: every handle of `a` still denotes the same node. */
  predicate Extends(a: seq<Node>, b: seq<Node>) {
    Acyclic(a) && Acyclic(b) && |a| <= |b| && a == b[..|a|]
  }

  /** The tree a handle denotes. */
  function Tree(nodes: seq<Node>, h: Handle): Terms.Term
    requires Acyclic(nodes) && h < |nodes|
    decreases h, 2
  {
    ContentTree(nodes, nodes[h].interior, h)
  }

  /** The tree denoted by node content whose children lie below `below`. */
  function ContentTree(nodes: seq<Node>, interior: NodeType, below: nat): Terms.Term
    requires Acyclic(nodes) && below <= |nodes| && ChildrenBelow(interior, below)
    decreases below, 1
  {
    match interior
    case Binary(op, l, r) =>
      assert l in ChildSet(interior) && r in ChildSet(interior);
      Bin(op, Tree(nodes, l), Tree(nodes, r))
    case Constant(k) => Num(k.value)
    case Unary(op, a) =>
      assert a in ChildSet(interior);
      Un(op, Tree(nodes, a))
    case Variable(v) => Var(v.name, v.parameter)
    case Collection(c) =>
      match c
      case Array(es) =>
        assert forall i :: 0 <= i < |es| ==> es[i] in ChildSet(interior);
        Arr(TreesBelow(nodes, es, below))
      case Tuple(es) =>
        assert forall i :: 0 <= i < |es| ==> es[i] in ChildSet(interior);
        Tup(TreesBelow(nodes, es, below))
      case Struct(name, order, fields) =>
        assert forall f :: f in fields ==> fields[f] in ChildSet(interior);
        Rec(name, order, FieldTreesBelow(nodes, fields, below))
  }

  /** The trees of a list of handles that all lie below `below`, in order; the lemma
      `TreesBelowItems` gives them entry by entry. */
  function TreesBelow(nodes: seq<Node>, hs: seq<Handle>, below: nat): seq<Terms.Term>
    requires Acyclic(nodes) && below <= |nodes| && forall i :: 0 <= i < |hs| ==> hs[i] < below
    decreases below, 0
  {
    seq(|hs|, i requires 0 <= i < |hs| => Tree(nodes, hs[i]))
  }

  /** The trees of a struct's field handles, which all lie below `below`, by field name. */
  function FieldTreesBelow(nodes: seq<Node>, fields: map<string, Handle>, below: nat): map<string, Terms.Term>
    requires Acyclic(nodes) && below <= |nodes| && forall f :: f in fields ==> fields[f] < below
    decreases below, 0
  {
    map f | f in fields :: Tree(nodes, fields[f])
  }

  /** Entry `k` of `TreesBelow` is the tree of `hs[k]`. */
  lemma TreesBelowItems(nodes: seq<Node>, hs: seq<Handle>, below: nat)
    requires Acyclic(nodes) && below <= |nodes| && forall i :: 0 <= i < |hs| ==> hs[i] < below
    ensures |TreesBelow(nodes, hs, below)| == |hs|
    ensures forall k :: 0 <= k < |hs| ==> TreesBelow(nodes, hs, below)[k] == Tree(nodes, hs[k])
  {
  }

  /** An array or tuple node denotes the list of its elements' trees. */
  lemma ElementsTree(nodes: seq<Node>, es: seq<Handle>, below: nat)
    requires Acyclic(nodes) && below <= |nodes| && forall i :: 0 <= i < |es| ==> es[i] < below
    ensures ChildrenBelow(Collection(Collections.Array(es)), below)
    ensures ChildrenBelow(Collection(Collections.Tuple(es)), below)
    ensures ContentTree(nodes, Collection(Collections.Array(es)), below) == Arr(TreesBelow(nodes, es, below))
    ensures ContentTree(nodes, Collection(Collections.Tuple(es)), below) == Tup(TreesBelow(nodes, es, below))
  {
    ElementsBelow(es, below);
  }

  /** Field `f` of `FieldTreesBelow` is the tree of `fields[f]`. */
  lemma FieldTreesBelowFields(nodes: seq<Node>, fields: map<string, Handle>, below: nat)
    requires Acyclic(nodes) && below <= |nodes| && forall f :: f in fields ==> fields[f] < below
    ensures FieldTreesBelow(nodes, fields, below).Keys == fields.Keys
    ensures forall f :: f in fields ==> FieldTreesBelow(nodes, fields, below)[f] == Tree(nodes, fields[f])
  {
  }

  /** Appending nodes never changes the tree an existing handle denotes. */
  lemma {:induction false} TreeStable(a: seq<Node>, b: seq<Node>, h: Handle)
    requires Extends(a, b) && h < |a|
    ensures Tree(a, h) == Tree(b, h)
    decreases h, 2
  {
    assert b[h] == a[h];
    ContentTreeStable(a, b, a[h].interior, h);
  }

  lemma {:induction false} ContentTreeStable(a: seq<Node>, b: seq<Node>, interior: NodeType, below: nat)
    requires Extends(a, b) && below <= |a| && ChildrenBelow(interior, below)
    ensures ContentTree(a, interior, below) == ContentTree(b, interior, below)
    decreases below, 1
  {
    forall c | c in ChildSet(interior) ensures Tree(a, c) == Tree(b, c) {
      TreeStable(a, b, c);
    }
    match interior
    case Binary(_, l, r) =>
      assert l in ChildSet(interior) && r in ChildSet(interior);
    case Constant(_) =>
    case Unary(_, x) =>
      assert x in ChildSet(interior);
    case Variable(_) =>
    case Collection(c) =>
      match c
      case Array(es) =>
        assert forall i :: 0 <= i < |es| ==> es[i] in ChildSet(interior);
      case Tuple(es) =>
        assert forall i :: 0 <= i < |es| ==> es[i] in ChildSet(interior);
      case Struct(_, _, fields) =>
        assert forall f :: f in fields ==> fields[f] in ChildSet(interior);
  }

  /** Growing a store twice is growing it once. */
  lemma ExtendsTransitive(a: seq<Node>, b: seq<Node>, c: seq<Node>)
    requires Extends(a, b) && Extends(b, c)
    ensures Extends(a, c)
  {
    assert c[..|a|] == c[..|b|][..|a|];
  }

  /** `Graph::insert`'s lookup: a stored node equal to `n`, if any. */
  function Find(nodes: seq<Node>, n: Node): (r: Option<Handle>)
    ensures r.Some? ==> r.value < |nodes| && SameNode(nodes[r.value], n)
    ensures r.None? ==> forall i :: 0 <= i < |nodes| ==> !SameNode(nodes[i], n)
  {
    if |nodes| == 0 then None
    else if SameNode(nodes[|nodes| - 1], n) then Some(|nodes| - 1)
    else Find(nodes[..|nodes| - 1], n)
  }

  /** Equal contents in a consistent store carry equal flags and cost. */
  lemma SameContentSameNode(nodes: seq<Node>, i: Handle, j: Handle)
    requires Acyclic(nodes) && Consistent(nodes) && i < |nodes| && j < |nodes|
    requires SameInterior(nodes[i].interior, nodes[j].interior)
    ensures SameNode(nodes[i], nodes[j])
  {
    var a := nodes[i].interior;
    assert nodes[i] == NewNode(nodes[..i], a);
    assert nodes[j] == NewNode(nodes[..j], nodes[j].interior);
    match a
    case Binary(_, l, r) =>
      assert l in ChildSet(a) && r in ChildSet(a);
      assert nodes[..i][l] == nodes[l] == nodes[..j][l];
      assert nodes[..i][r] == nodes[r] == nodes[..j][r];
    case Unary(_, x) =>
      assert x in ChildSet(a);
      assert nodes[..i][x] == nodes[x] == nodes[..j][x];
    case Constant(_) =>
    case Variable(_) =>
    case Collection(_) =>
  }

  /** Hash-consing on trees: in a valid store, two handles denoting the same tree are
      the same handle. So the source's structural comparisons of nodes (`*left == *right`,
      the hash-set lookup) agree with comparing handles. */
  lemma {:induction false} Canonical(nodes: seq<Node>, i: Handle, j: Handle)
    requires Valid(nodes) && i < |nodes| && j < |nodes|
    requires Tree(nodes, i) == Tree(nodes, j)
    ensures i == j
    decreases i + j, 1
  {
    var a, b := nodes[i].interior, nodes[j].interior;
    assert ChildrenBelow(a, i) && ChildrenBelow(b, j);
    match a {
      case Binary(_, l, r) =>
        assert l in ChildSet(a) && r in ChildSet(a);
        assert b.left in ChildSet(b) && b.right in ChildSet(b);
        Canonical(nodes, l, b.left);
        Canonical(nodes, r, b.right);
      case Unary(_, x) =>
        assert x in ChildSet(a);
        assert b.argument in ChildSet(b);
        Canonical(nodes, x, b.argument);
      case Constant(_) =>
      case Variable(_) =>
      case Collection(c) =>
        assert Tree(nodes, i) == ContentTree(nodes, a, i) && Tree(nodes, j) == ContentTree(nodes, b, j);
        match c
        case Array(es) =>
          assert forall k :: 0 <= k < |es| ==> es[k] in ChildSet(a);
          assert forall k :: 0 <= k < |b.coll.elements| ==> b.coll.elements[k] in ChildSet(b);
          CanonicalItems(nodes, i, j, es, b.coll.elements);
        case Tuple(es) =>
          assert forall k :: 0 <= k < |es| ==> es[k] in ChildSet(a);
          assert forall k :: 0 <= k < |b.coll.elements| ==> b.coll.elements[k] in ChildSet(b);
          CanonicalItems(nodes, i, j, es, b.coll.elements);
        case Struct(_, _, fields) =>
          assert forall f :: f in fields ==> fields[f] in ChildSet(a);
          assert forall f :: f in b.coll.fields ==> b.coll.fields[f] in ChildSet(b);
          CanonicalFields(nodes, i, j, fields, b.coll.fields);
    }
    SameContentSameNode(nodes, i, j);
    SameNodeIsEquivalence(nodes[i], nodes[j], nodes[i]);
  }

  /** The element lists of two collection nodes `i` and `j` with the same trees are equal. */
  lemma {:induction false} CanonicalItems(nodes: seq<Node>, i: Handle, j: Handle, es: seq<Handle>, es': seq<Handle>)
    requires Valid(nodes) && i < |nodes| && j < |nodes|
    requires forall k :: 0 <= k < |es| ==> es[k] < i
    requires forall k :: 0 <= k < |es'| ==> es'[k] < j
    requires TreesBelow(nodes, es, i) == TreesBelow(nodes, es', j)
    ensures es == es'
    decreases i + j, 0
  {
    TreesBelowItems(nodes, es, i);
    TreesBelowItems(nodes, es', j);
    forall k | 0 <= k < |es| ensures es[k] == es'[k] {
      assert Tree(nodes, es[k]) == TreesBelow(nodes, es, i)[k];
      Canonical(nodes, es[k], es'[k]);
    }
  }

  /** The field maps of two struct nodes `i` and `j` with the same trees are equal. */
  lemma {:induction false} CanonicalFields(nodes: seq<Node>, i: Handle, j: Handle,
                                           fields: map<string, Handle>, fields': map<string, Handle>)
    requires Valid(nodes) && i < |nodes| && j < |nodes|
    requires forall f :: f in fields ==> fields[f] < i
    requires forall f :: f in fields' ==> fields'[f] < j
    requires FieldTreesBelow(nodes, fields, i) == FieldTreesBelow(nodes, fields', j)
    ensures fields == fields'
    decreases i + j, 0
  {
    FieldTreesBelowFields(nodes, fields, i);
    FieldTreesBelowFields(nodes, fields', j);
    forall f | f in fields ensures fields[f] == fields'[f] {
      assert Tree(nodes, fields[f]) == FieldTreesBelow(nodes, fields, i)[f];
      Canonical(nodes, fields[f], fields'[f]);
    }
  }

  /** A stored unary node denotes the operator applied to its argument's tree, and a
      stored constant its value; no other node denotes either shape. */
  lemma UnaryTreeShape(nodes: seq<Node>, h: Handle)
    requires Acyclic(nodes) && h < |nodes|
    ensures Tree(nodes, h).Un? <==> nodes[h].interior.Unary?
    ensures Tree(nodes, h).Num? <==> nodes[h].interior.Constant?
    ensures nodes[h].interior.Unary? ==>
              nodes[h].interior.argument < h &&
              Tree(nodes, h) == Un(nodes[h].interior.uop, Tree(nodes, nodes[h].interior.argument))
    ensures nodes[h].interior.Constant? ==> Tree(nodes, h) == Num(nodes[h].interior.k.value)
  {
    assert ChildrenBelow(nodes[h].interior, h);
    if nodes[h].interior.Unary? {
      assert nodes[h].interior.argument in ChildSet(nodes[h].interior);
    }
  }

  /** The float comparison the constructors make on a stored node is a comparison of
      its tree with a constant. */
  lemma EqualsFloatIsNum(nodes: seq<Node>, h: Handle, x: real)
    requires Acyclic(nodes) && h < |nodes|
    ensures EqualsFloat(nodes[h], x) <==> Tree(nodes, h) == Num(x)
  {
  }

  /** Node flags and cost mean what the code generator relies on: `parameters` (`data`)
      is set exactly when the tree reads a parameter (data) variable outside any
      collection, and `cost` is the cost of the unfolded tree. */
  lemma {:induction false} FlagsReflectVariables(nodes: seq<Node>, h: Handle)
    requires Acyclic(nodes) && Consistent(nodes) && h < |nodes|
    ensures nodes[h].parameters == ReadsRole(Tree(nodes, h), true)
    ensures nodes[h].data == ReadsRole(Tree(nodes, h), false)
    ensures nodes[h].cost == TreeCost(Tree(nodes, h))
  {
    var a := nodes[h].interior;
    assert nodes[h] == NewNode(nodes[..h], a);
    assert ChildrenBelow(a, h);
    match a
    case Binary(_, l, r) =>
      assert l in ChildSet(a) && r in ChildSet(a);
      assert nodes[..h][l] == nodes[l] && nodes[..h][r] == nodes[r];
      FlagsReflectVariables(nodes, l);
      FlagsReflectVariables(nodes, r);
      var tl, tr := Tree(nodes, l), Tree(nodes, r);
      assert ScalarVars(Tree(nodes, h)) == ScalarVars(tl) + ScalarVars(tr);
      assert ReadsRole(Tree(nodes, h), true) == (ReadsRole(tl, true) || ReadsRole(tr, true));
      assert ReadsRole(Tree(nodes, h), false) == (ReadsRole(tl, false) || ReadsRole(tr, false));
    case Unary(_, x) =>
      assert x in ChildSet(a);
      assert nodes[..h][x] == nodes[x];
      FlagsReflectVariables(nodes, x);
    case Constant(_) =>
    case Variable(v) =>
      assert (v.name, v.parameter) in ScalarVars(Tree(nodes, h));
    case Collection(_) =>
  }

  /** Content equal to a stored node denotes the same tree as that node. */
  lemma {:induction false} SameInteriorSameTree(nodes: seq<Node>, interior: NodeType, h: Handle)
    requires Acyclic(nodes) && h < |nodes| && ChildrenBelow(interior, |nodes|)
    requires SameInterior(nodes[h].interior, interior)
    ensures Tree(nodes, h) == ContentTree(nodes, interior, |nodes|)
  {
    if !interior.Variable? {
      ContentTreeBelow(nodes, interior, h, |nodes|);
    }
  }

  /** The tree of some content does not depend on the bound used to justify it. */
  lemma ContentTreeBelow(nodes: seq<Node>, interior: NodeType, b1: nat, b2: nat)
    requires Acyclic(nodes) && b1 <= |nodes| && b2 <= |nodes|
    requires ChildrenBelow(interior, b1) && ChildrenBelow(interior, b2)
    ensures ContentTree(nodes, interior, b1) == ContentTree(nodes, interior, b2)
  {
  }

  /** `Graph::insert` when equal content is stored: the stored handle denotes the
      inserted content. */
  lemma FoundDenotesContent(nodes: seq<Node>, interior: NodeType)
    requires Valid(nodes) && ChildrenBelow(interior, |nodes|)
    requires Find(nodes, NewNode(nodes, interior)).Some?
    ensures Tree(nodes, Find(nodes, NewNode(nodes, interior)).value) == ContentTree(nodes, interior, |nodes|)
  {
    SameInteriorSameTree(nodes, interior, Find(nodes, NewNode(nodes, interior)).value);
  }

  /** `Graph::insert` with new content: appending the node keeps the store valid, keeps
      every old handle's tree, and the new handle denotes the inserted content. */
  lemma InsertKeepsValid(nodes: seq<Node>, interior: NodeType)
    requires Valid(nodes) && ChildrenBelow(interior, |nodes|)
    requires Find(nodes, NewNode(nodes, interior)).None?
    ensures Valid(nodes + [NewNode(nodes, interior)])
    ensures Extends(nodes, nodes + [NewNode(nodes, interior)])
    ensures Tree(nodes + [NewNode(nodes, interior)], |nodes|) == ContentTree(nodes, interior, |nodes|)
  {
    var n := NewNode(nodes, interior);
    var grown := nodes + [n];
    assert grown[..|nodes|] == nodes;
    assert forall h :: 0 <= h < |nodes| ==> grown[..h] == nodes[..h];
    assert Acyclic(grown);
    assert Extends(nodes, grown);
    ContentTreeStable(nodes, grown, interior, |nodes|);
  }

  /** In a valid store, node equality, handle equality and tree equality coincide,
      so the source's deep comparison `*left == *right` is a handle comparison. */
  lemma SameNodeIffSameHandle(nodes: seq<Node>, i: Handle, j: Handle)
    requires Valid(nodes) && i < |nodes| && j < |nodes|
    ensures SameNode(nodes[i], nodes[j]) <==> i == j
    ensures Tree(nodes, i) == Tree(nodes, j) <==> i == j
  {
    if Tree(nodes, i) == Tree(nodes, j) {
      Canonical(nodes, i, j);
    }
  }

  /** A store operation's outcome agrees with a tree-level outcome: the same failure,
      or a handle denoting the expected tree. */
  predicate Realizes(nodes: seq<Node>, res: Result<Handle>, spec: Result<Terms.Term>)
    requires Acyclic(nodes)
  {
    match res
    case Ok(h) => spec.Ok? && h < |nodes| && Tree(nodes, h) == spec.value
    case Fail(e) => spec == Fail(e)
  }

  /** `b` extends `a` and every handle of `a` still denotes the same tree in `b`. */
  predicate Grows(a: seq<Node>, b: seq<Node>) {
    Extends(a, b) && forall k :: 0 <= k < |a| ==> Tree(b, k) == Tree(a, k)
  }

  lemma ExtendsGrows(a: seq<Node>, b: seq<Node>)
    requires Extends(a, b)
    ensures Grows(a, b)
  {
    forall k | 0 <= k < |a| ensures Tree(b, k) == Tree(a, k) {
      TreeStable(a, b, k);
    }
  }

  lemma GrowsTransitive(a: seq<Node>, b: seq<Node>, c: seq<Node>)
    requires Grows(a, b) && Grows(b, c)
    ensures Grows(a, c)
  {
    ExtendsTransitive(a, b, c);
  }
}
