/** The handle-level facts `Graph::splice` rests on (mod.rs `splice`, `validate_inputs`):
    the argument-to-input map it starts from, how that map agrees with the tree-level
    bindings of `Inlining`, and why one failing node makes the whole call fail. */
module Splicing {
  import opened Outcomes
  import opened Terms
  import opened Nodes
  import opened Store
  import opened Schedule
  import opened Inlining

  /** The map the first loop of `splice` builds: argument `i` to input `i`, a later
      argument overriding an earlier equal one. */
  function ArgMap(arguments: seq<Handle>, inputs: seq<Handle>): map<Handle, Handle>
    requires |arguments| == |inputs|
  {
    if |arguments| == 0 then map[]
    else ArgMap(arguments[..|arguments| - 1], inputs[..|inputs| - 1])[arguments[|arguments| - 1] := inputs[|inputs| - 1]]
  }

  /** `validate_inputs` as a check: the call's arity must match. */
  function ValidateInputs(f: Function, inputs: seq<Handle>): Result<()> {
    if |inputs| != |f.arguments| then Fail(ArityMismatch(|f.arguments|, |inputs|)) else Ok(())
  }

  lemma {:induction false} ArgMapDomain(arguments: seq<Handle>, inputs: seq<Handle>, k: Handle)
    requires |arguments| == |inputs|
    ensures k in ArgMap(arguments, inputs) <==> k in arguments
  {
    if |arguments| > 0 {
      var n := |arguments| - 1;
      ArgMapDomain(arguments[..n], inputs[..n], k);
      assert arguments == arguments[..n] + [arguments[n]];
    }
  }

  lemma {:induction false} ArgMapLastWins(arguments: seq<Handle>, inputs: seq<Handle>, i: nat)
    requires |arguments| == |inputs| && i < |arguments|
    requires forall j :: i < j < |arguments| ==> arguments[j] != arguments[i]
    ensures arguments[i] in ArgMap(arguments, inputs) && ArgMap(arguments, inputs)[arguments[i]] == inputs[i]
  {
    var n := |arguments| - 1;
    if i < n {
      var front := arguments[..n];
      forall j | i < j < n ensures front[j] != front[i] {
        assert front[j] == arguments[j];
      }
      ArgMapLastWins(front, inputs[..n], i);
      assert front[i] == arguments[i] && inputs[..n][i] == inputs[i];
    }
  }

  /** The trees of a list of handles. */
  function Trees(nodes: seq<Node>, hs: seq<Handle>): (ts: seq<Terms.Term>)
    requires Acyclic(nodes) && forall i :: 0 <= i < |hs| ==> hs[i] < |nodes|
    ensures |ts| == |hs| && forall i :: 0 <= i < |hs| ==> ts[i] == Tree(nodes, hs[i])
  {
    TreesBelowItems(nodes, hs, |nodes|);
    TreesBelow(nodes, hs, |nodes|)
  }

  /** The tree-level bindings of a call: the argument trees of `f` in `source` bound to
      the input trees in `nodes`. */
  function CallBindings(source: seq<Node>, arguments: seq<Handle>, nodes: seq<Node>, inputs: seq<Handle>): map<VarKey, Terms.Term>
    requires Acyclic(source) && forall i :: 0 <= i < |arguments| ==> arguments[i] < |source|
    requires Acyclic(nodes) && forall i :: 0 <= i < |inputs| ==> inputs[i] < |nodes|
    requires |arguments| == |inputs|
  {
    Bindings(Trees(source, arguments), Trees(nodes, inputs))
  }

  /** A variable node of a hash-consed function is found in the argument map exactly when
      its variable is bound, and then to a handle denoting the bound tree. */
  lemma VariableBinding(source: seq<Node>, arguments: seq<Handle>, nodes: seq<Node>, inputs: seq<Handle>, v: Handle)
    requires Store.Valid(source) && forall i :: 0 <= i < |arguments| ==> arguments[i] < |source|
    requires Acyclic(nodes) && forall i :: 0 <= i < |inputs| ==> inputs[i] < |nodes|
    requires |arguments| == |inputs| && v < |source| && source[v].interior.Variable?
    ensures var key := (source[v].interior.v.name, source[v].interior.v.parameter);
            var env := CallBindings(source, arguments, nodes, inputs);
            (v in ArgMap(arguments, inputs) <==> key in env) &&
            (v in ArgMap(arguments, inputs) ==>
               ArgMap(arguments, inputs)[v] < |nodes| && Tree(nodes, ArgMap(arguments, inputs)[v]) == env[key])
  {
    var key := (source[v].interior.v.name, source[v].interior.v.parameter);
    var argTrees, inputTrees := Trees(source, arguments), Trees(nodes, inputs);
    assert Tree(source, v) == Var(key.0, key.1);
    forall i | 0 <= i < |arguments| ensures argTrees[i] == Var(key.0, key.1) <==> arguments[i] == v {
      SameNodeIffSameHandle(source, arguments[i], v);
    }
    BindingsDomain(argTrees, inputTrees, key);
    ArgMapDomain(arguments, inputs, v);
    if v in arguments {
      var i := LastOccurrence(arguments, v);
      ArgMapLastWins(arguments, inputs, i);
      BindingsLastWins(argTrees, inputTrees, key, i);
    }
  }

  lemma LastOccurrence(s: seq<Handle>, v: Handle) returns (i: nat)
    requires v in s
    ensures i < |s| && s[i] == v && forall j :: i < j < |s| ==> s[j] != v
  {
    i := |s| - 1;
    while s[i] != v
      invariant 0 <= i < |s| && v in s[..i + 1]
      invariant forall j :: i < j < |s| ==> s[j] != v
      decreases i
    {
      assert s[..i + 1] == s[..i] + [s[i]];
      i := i - 1;
    }
  }

  /** If inlining fails at a node reachable from `h`, it fails at `h`. */
  lemma {:induction false} FailurePropagates(source: seq<Node>, h: Handle, k: Handle, env: map<VarKey, Terms.Term>)
    requires Acyclic(source) && h < |source|
    requires k < |source| && k in Reach(source, h) && Inline(Tree(source, k), env).Fail?
    ensures Inline(Tree(source, h), env).Fail?
    decreases h
  {
    if k != h {
      assert ChildrenBelow(source[h].interior, h);
      var c :| c in ChildSet(source[h].interior) && k in Reach(source, c);
      FailurePropagates(source, c, k, env);
      ChildFailure(source, h, c, env);
    }
  }

  /** Inlining a node fails when inlining one of its children does. */
  lemma ChildFailure(source: seq<Node>, h: Handle, c: Handle, env: map<VarKey, Terms.Term>)
    requires Acyclic(source) && h < |source| && c in ChildSet(source[h].interior)
    requires Inline(Tree(source, c), env).Fail?
    ensures Inline(Tree(source, h), env).Fail?
  {
    var interior := source[h].interior;
    assert ChildrenBelow(interior, h);
    var t := Tree(source, h);
    assert t == ContentTree(source, interior, h);
    InlineStep(t, env);
    match interior
    case Binary(_, l, r) =>
    case Unary(_, _) =>
    case Collection(coll) =>
      match coll
      case Array(es) =>
        assert c in es;
        var j :| 0 <= j < |es| && es[j] == c;
        assert t.items[j] == Tree(source, c);
      case Tuple(es) =>
        assert c in es;
        var j :| 0 <= j < |es| && es[j] == c;
        assert t.items[j] == Tree(source, c);
      case Struct(_, _, fields) =>
        var f :| f in fields && fields[f] == c;
        assert t.fields[f] == Tree(source, c);
  }

  /** Source node `k` has been rebuilt: `m` sends it to a handle of `nodes` denoting its
      inlined tree. */
  ghost predicate Spliced(nodes: seq<Node>, source: seq<Node>, k: Handle, m: map<Handle, Handle>,
                          env: map<VarKey, Terms.Term>)
    requires Acyclic(nodes) && Acyclic(source) && k < |source|
  {
    k in m && m[k] < |nodes| && Inline(Tree(source, k), env).Ok? &&
    Tree(nodes, m[k]) == Inline(Tree(source, k), env).value
  }

  /** In a topological order, the children of entry `i` come before it, so once the
      prefix `order[..i]` is rebuilt every child of `order[i]` is too. */
  lemma SplicedChildren(nodes: seq<Node>, source: seq<Node>, order: seq<Handle>, i: nat,
                        m: map<Handle, Handle>, env: map<VarKey, Terms.Term>)
    requires Acyclic(nodes) && Acyclic(source) && Topological(source, order) && i < |order|
    requires forall j :: 0 <= j < i ==> Spliced(nodes, source, order[j], m, env)
    ensures forall c :: c in ChildSet(source[order[i]].interior) ==>
              c < |source| && Spliced(nodes, source, c, m, env)
  {
    forall c | c in ChildSet(source[order[i]].interior)
      ensures c < |source| && Spliced(nodes, source, c, m, env)
    {
      assert c in order[..i];
      var j :| 0 <= j < i && order[j] == c;
    }
  }

  /** Growing the store and mapping the next node of `order` to a handle denoting its
      inlined tree extends the rebuilt prefix of `order` by one. */
  lemma SplicedExtend(a: seq<Node>, b: seq<Node>, source: seq<Node>, order: seq<Handle>, i: nat,
                      m: map<Handle, Handle>, env: map<VarKey, Terms.Term>, image: Handle)
    requires Grows(a, b) && Acyclic(source) && i < |order|
    requires forall j :: 0 <= j <= i ==> order[j] < |source|
    requires forall j :: 0 <= j < i ==> order[j] != order[i] && Spliced(a, source, order[j], m, env)
    requires image < |b| && Inline(Tree(source, order[i]), env).Ok?
    requires Tree(b, image) == Inline(Tree(source, order[i]), env).value
    ensures forall j :: 0 <= j <= i ==> Spliced(b, source, order[j], m[order[i] := image], env)
  {
  }

  /** The inlined fields of a struct, restricted to the names of its `name_order`. */
  ghost function InlinedFields(source: seq<Node>, order: seq<string>, fields: map<string, Handle>,
                               env: map<VarKey, Terms.Term>): map<string, Terms.Term>
    requires Acyclic(source)
    requires forall f :: f in fields ==> fields[f] < |source| && Inline(Tree(source, fields[f]), env).Ok?
  {
    map f | f in fields && f in order :: Inline(Tree(source, fields[f]), env).value
  }

  /** The trees of a struct's field handles. */
  ghost function FieldTrees(nodes: seq<Node>, elements: map<string, Handle>): map<string, Terms.Term>
    requires Acyclic(nodes) && forall f :: f in elements ==> elements[f] < |nodes|
  {
    FieldTreesBelow(nodes, elements, |nodes|)
  }

  /** A struct rebuilt field by field denotes the inlined struct tree. */
  lemma StructImage(nodes: seq<Node>, source: seq<Node>, node: Handle, m: map<Handle, Handle>,
                    env: map<VarKey, Terms.Term>, name: string, order: seq<string>,
                    fields: map<string, Handle>, elements: map<string, Handle>)
    requires Acyclic(nodes) && Acyclic(source) && node < |source|
    requires source[node].interior == Collection(Collections.Struct(name, order, fields))
    requires forall f :: f in fields ==> fields[f] < |source| && fields[f] in m
    requires forall f :: f in fields ==> Inline(Tree(source, fields[f]), env).Ok? && Spliced(nodes, source, fields[f], m, env)
    requires forall i :: 0 <= i < |order| ==> order[i] in fields
    requires elements == map f | f in fields && f in order :: m[fields[f]]
    ensures ChildrenBelow(Collection(Collections.Struct(name, order, elements)), |nodes|)
    ensures Inline(Tree(source, node), env).Ok?
    ensures ContentTree(nodes, Collection(Collections.Struct(name, order, elements)), |nodes|)
            == Inline(Tree(source, node), env).value
  {
    RebuiltFields(nodes, source, m, env, order, fields, elements);
    StructTree(nodes, name, order, elements);
    StructInline(source, node, env, name, order, fields);
  }

  /** An array or tuple rebuilt element by element denotes the inlined collection. */
  lemma SequenceImage(nodes: seq<Node>, source: seq<Node>, node: Handle, m: map<Handle, Handle>,
                      env: map<VarKey, Terms.Term>, elements: seq<Handle>)
    requires Acyclic(nodes) && Acyclic(source) && node < |source|
    requires source[node].interior.Collection? && !source[node].interior.coll.Struct?
    requires forall c :: c in ChildSet(source[node].interior) ==> c < |source| && Spliced(nodes, source, c, m, env)
    requires var es := source[node].interior.coll.elements;
             |elements| == |es| && forall j :: 0 <= j < |es| ==> es[j] in m && elements[j] == m[es[j]]
    ensures Inline(Tree(source, node), env).Ok?
    ensures source[node].interior.coll.Array? ==>
              ChildrenBelow(Collection(Collections.Array(elements)), |nodes|) &&
              ContentTree(nodes, Collection(Collections.Array(elements)), |nodes|) == Inline(Tree(source, node), env).value
    ensures source[node].interior.coll.Tuple? ==>
              ChildrenBelow(Collection(Collections.Tuple(elements)), |nodes|) &&
              ContentTree(nodes, Collection(Collections.Tuple(elements)), |nodes|) == Inline(Tree(source, node), env).value
  {
    var interior := source[node].interior;
    var es := interior.coll.elements;
    assert forall j :: 0 <= j < |es| ==> es[j] in ChildSet(interior);
    var t := Tree(source, node);
    assert t == ContentTree(source, interior, node);
    ElementsTree(source, es, node);
    TreesBelowItems(source, es, node);
    InlineStep(t, env);
    ElementsTree(nodes, elements, |nodes|);
    TreesBelowItems(nodes, elements, |nodes|);
    assert TreesBelow(nodes, elements, |nodes|) == Inline(t, env).value.items;
  }

  /** The tree of a stored struct is the struct of its fields' trees. */
  lemma StructTree(nodes: seq<Node>, name: string, order: seq<string>, elements: map<string, Handle>)
    requires Acyclic(nodes) && forall f :: f in elements ==> elements[f] < |nodes|
    ensures ChildrenBelow(Collection(Collections.Struct(name, order, elements)), |nodes|)
    ensures ContentTree(nodes, Collection(Collections.Struct(name, order, elements)), |nodes|)
            == Rec(name, order, FieldTrees(nodes, elements))
  {
    var image := Collection(Collections.Struct(name, order, elements));
    assert ChildrenBelow(image, |nodes|) by {
      forall c | c in ChildSet(image) ensures c < |nodes| {
        var f :| f in elements && elements[f] == c;
      }
    }
    assert ContentTree(nodes, image, |nodes|).fields == FieldTrees(nodes, elements);
  }

  /** Inlining a struct whose fields all inline and whose `name_order` names only fields. */
  lemma StructInline(source: seq<Node>, node: Handle, env: map<VarKey, Terms.Term>, name: string,
                     order: seq<string>, fields: map<string, Handle>)
    requires Acyclic(source) && node < |source|
    requires source[node].interior == Collection(Collections.Struct(name, order, fields))
    requires forall f :: f in fields ==> fields[f] < |source| && Inline(Tree(source, fields[f]), env).Ok?
    requires forall i :: 0 <= i < |order| ==> order[i] in fields
    ensures Inline(Tree(source, node), env) == Ok(Rec(name, order, InlinedFields(source, order, fields, env)))
  {
    assert ChildrenBelow(source[node].interior, node);
    assert forall f :: f in fields ==> fields[f] in ChildSet(source[node].interior);
    var tf := FieldTreesBelow(source, fields, node);
    assert Tree(source, node) == Rec(name, order, tf) by {
      assert Tree(source, node) == ContentTree(source, source[node].interior, node);
    }
    InlineRecord(name, order, tf, env, InlinedFields(source, order, fields, env));
  }

  /** Field by field, the rebuilt handles denote the inlined field trees. */
  lemma RebuiltFields(nodes: seq<Node>, source: seq<Node>, m: map<Handle, Handle>, env: map<VarKey, Terms.Term>,
                      order: seq<string>, fields: map<string, Handle>, elements: map<string, Handle>)
    requires Acyclic(nodes) && Acyclic(source)
    requires forall f :: f in fields ==> fields[f] < |source| && fields[f] in m
    requires forall f :: f in fields ==> Inline(Tree(source, fields[f]), env).Ok? && Spliced(nodes, source, fields[f], m, env)
    requires elements == map f | f in fields && f in order :: m[fields[f]]
    ensures forall f :: f in elements ==> elements[f] < |nodes|
    ensures FieldTrees(nodes, elements) == InlinedFields(source, order, fields, env)
  {
    var built := FieldTrees(nodes, elements);
    var inlined := InlinedFields(source, order, fields, env);
    assert built.Keys == inlined.Keys;
    forall f | f in built
      ensures built[f] == inlined[f]
    {
      assert Spliced(nodes, source, fields[f], m, env);
    }
  }
}
