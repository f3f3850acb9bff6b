/** Scheduling (mod.rs `Function::order`): a depth-first post-order walk from a
    function's result, so every node comes after its children. */
module Schedule {
  import opened Nodes
  import opened Store

  /** The handles reachable from `h`, `h` included. */
  ghost function Reach(nodes: seq<Node>, h: Handle): set<Handle>
    requires Acyclic(nodes) && h < |nodes|
    decreases h
  {
    assert ChildrenBelow(nodes[h].interior, h);
    {h} + (set c, k | c in ChildSet(nodes[h].interior) && k in Reach(nodes, c) :: k)
  }

  /** The handles reachable from any handle of `hs`. */
  ghost function ReachAll(nodes: seq<Node>, hs: seq<Handle>): set<Handle>
    requires Acyclic(nodes) && forall i :: 0 <= i < |hs| ==> hs[i] < |nodes|
  {
    if |hs| == 0 then {} else ReachAll(nodes, hs[..|hs| - 1]) + Reach(nodes, hs[|hs| - 1])
  }

  /** The set of entries of a list. */
  function Elems(s: seq<Handle>): set<Handle> {
    if |s| == 0 then {} else Elems(s[..|s| - 1]) + {s[|s| - 1]}
  }

  lemma {:induction false} ElemsMembership(s: seq<Handle>)
    ensures forall k :: k in Elems(s) <==> k in s
  {
    if |s| > 0 {
      ElemsMembership(s[..|s| - 1]);
      assert s == s[..|s| - 1] + [s[|s| - 1]];
    }
  }

  predicate NoDuplicates(s: seq<Handle>) {
    forall i, j :: 0 <= i < j < |s| ==> s[i] != s[j]
  }

  /** Every entry is a stored node whose children all appear before it. */
  predicate Topological(nodes: seq<Node>, s: seq<Handle>) {
    forall i :: 0 <= i < |s| ==> s[i] < |nodes| && forall c :: c in ChildSet(nodes[s[i]].interior) ==> c in s[..i]
  }

  /** Nothing reachable from `h` lies above `h`. */
  lemma {:induction false} ReachBelow(nodes: seq<Node>, h: Handle)
    requires Acyclic(nodes) && h < |nodes|
    ensures forall k :: k in Reach(nodes, h) ==> k <= h
    decreases h
  {
    assert ChildrenBelow(nodes[h].interior, h);
    forall c | c in ChildSet(nodes[h].interior) ensures forall k :: k in Reach(nodes, c) ==> k <= h {
      ReachBelow(nodes, c);
    }
  }

  /** A topologically ordered list holds everything reachable from each of its entries. */
  lemma {:induction false} TopologicalIsClosed(nodes: seq<Node>, s: seq<Handle>, h: Handle)
    requires Acyclic(nodes) && Topological(nodes, s) && h < |nodes| && h in s
    ensures Reach(nodes, h) <= Elems(s)
    decreases h
  {
    var i :| 0 <= i < |s| && s[i] == h;
    assert ChildrenBelow(nodes[h].interior, h);
    forall c | c in ChildSet(nodes[h].interior) ensures Reach(nodes, c) <= Elems(s) {
      assert c in s[..i];
      TopologicalIsClosed(nodes, s, c);
    }
    ElemsMembership(s);
  }

  /** The recursive `dfs` of `Function::order`. `stack` holds the nodes whose walk is
      in progress: they are visited but not yet in `sorted`, and lie above `h`. */
  method Dfs(nodes: seq<Node>, h: Handle, visited: set<Handle>, sorted: seq<Handle>, ghost stack: set<Handle>)
    returns (visited': set<Handle>, sorted': seq<Handle>)
    requires Acyclic(nodes) && h < |nodes|
    requires Topological(nodes, sorted) && NoDuplicates(sorted)
    requires visited == Elems(sorted) + stack
    requires forall s :: s in stack ==> s > h
    decreases h, 1
    ensures visited' == visited + Reach(nodes, h)
    ensures sorted <= sorted'
    ensures Elems(sorted') == Elems(sorted) + Reach(nodes, h)
    ensures Topological(nodes, sorted') && NoDuplicates(sorted')
    ensures h !in visited ==> |sorted'| > 0 && sorted'[|sorted'| - 1] == h
  {
    if h in visited {
      ElemsMembership(sorted);
      TopologicalIsClosed(nodes, sorted, h);
      assert visited + Reach(nodes, h) == visited;
      return visited, sorted;
    }
    assert ChildrenBelow(nodes[h].interior, h);
    var children := GetChildren(nodes[h].interior);
    assert forall i :: 0 <= i < |children| ==> children[i] in ChildSet(nodes[h].interior);
    visited', sorted' := VisitChildren(nodes, h, children, visited + {h}, sorted, stack + {h});
    ChildrenReach(nodes, h, children);
    ghost var below := ReachAll(nodes, children);
    Regroup(visited, below, Reach(nodes, h), h);
    Regroup(Elems(sorted), below, Reach(nodes, h), h);
    AppendKeepsOrder(nodes, sorted', h);
    sorted' := sorted' + [h];
  }

  /** The `for child in ...` loop of `dfs`: walk each child in turn. */
  method VisitChildren(nodes: seq<Node>, h: Handle, children: seq<Handle>,
                       visited: set<Handle>, sorted: seq<Handle>, ghost stack: set<Handle>)
    returns (visited': set<Handle>, sorted': seq<Handle>)
    requires Acyclic(nodes) && h < |nodes|
    requires forall i :: 0 <= i < |children| ==> children[i] in ChildSet(nodes[h].interior)
    requires Topological(nodes, sorted) && NoDuplicates(sorted)
    requires visited == Elems(sorted) + stack
    requires forall s :: s in stack ==> s >= h
    decreases h, 0
    ensures forall i :: 0 <= i < |children| ==> children[i] < |nodes|
    ensures visited' == visited + ReachAll(nodes, children)
    ensures sorted <= sorted'
    ensures Elems(sorted') == Elems(sorted) + ReachAll(nodes, children)
    ensures Topological(nodes, sorted') && NoDuplicates(sorted')
  {
    assert ChildrenBelow(nodes[h].interior, h);
    visited', sorted' := visited, sorted;
    for i := 0 to |children|
      invariant visited' == visited + ReachAll(nodes, children[..i])
      invariant sorted <= sorted'
      invariant Elems(sorted') == Elems(sorted) + ReachAll(nodes, children[..i])
      invariant Topological(nodes, sorted') && NoDuplicates(sorted')
    {
      assert children[..i + 1][..i] == children[..i];
      visited', sorted' := Dfs(nodes, children[i], visited', sorted', stack);
    }
    assert children[..|children|] == children;
  }

  lemma Regroup(a: set<Handle>, below: set<Handle>, reach: set<Handle>, h: Handle)
    requires below + {h} == reach
    ensures a + {h} + below == a + reach
    ensures a + below + {h} == a + reach
  {
  }

  /** Walking all children of `h` reaches everything `h` reaches except `h` itself. */
  lemma ChildrenReach(nodes: seq<Node>, h: Handle, children: seq<Handle>)
    requires Acyclic(nodes) && h < |nodes|
    requires (set c | c in children) == ChildSet(nodes[h].interior)
    ensures forall i :: 0 <= i < |children| ==> children[i] < |nodes|
    ensures ReachAll(nodes, children) + {h} == Reach(nodes, h)
    ensures h !in ReachAll(nodes, children)
    ensures forall c :: c in ChildSet(nodes[h].interior) ==> c in ReachAll(nodes, children)
  {
    assert ChildrenBelow(nodes[h].interior, h);
    assert forall i :: 0 <= i < |children| ==> children[i] in ChildSet(nodes[h].interior);
    forall k ensures k in ReachAll(nodes, children) <==> exists i :: 0 <= i < |children| && k in Reach(nodes, children[i]) {
      ReachAllMembers(nodes, children, k);
    }
    forall c | c in ChildSet(nodes[h].interior) ensures exists i :: 0 <= i < |children| && children[i] == c {
      assert c in (set x | x in children);
    }
    forall i | 0 <= i < |children| ensures h !in Reach(nodes, children[i]) {
      ReachBelow(nodes, children[i]);
    }
  }

  lemma {:induction false} ReachAllMembers(nodes: seq<Node>, hs: seq<Handle>, k: Handle)
    requires Acyclic(nodes) && forall i :: 0 <= i < |hs| ==> hs[i] < |nodes|
    ensures k in ReachAll(nodes, hs) <==> exists i :: 0 <= i < |hs| && k in Reach(nodes, hs[i])
  {
    if |hs| > 0 {
      var front := hs[..|hs| - 1];
      ReachAllMembers(nodes, front, k);
      if exists i :: 0 <= i < |hs| && k in Reach(nodes, hs[i]) {
        var i :| 0 <= i < |hs| && k in Reach(nodes, hs[i]);
        if i < |hs| - 1 {
          assert front[i] == hs[i];
        }
      }
      if exists i :: 0 <= i < |front| && k in Reach(nodes, front[i]) {
        var i :| 0 <= i < |front| && k in Reach(nodes, front[i]);
        assert front[i] == hs[i];
      }
    }
  }

  /** Appending a new node whose children are all listed keeps the list ordered. */
  lemma AppendKeepsOrder(nodes: seq<Node>, s: seq<Handle>, h: Handle)
    requires Topological(nodes, s) && NoDuplicates(s) && h < |nodes| && h !in Elems(s)
    requires forall c :: c in ChildSet(nodes[h].interior) ==> c in Elems(s)
    ensures Topological(nodes, s + [h]) && NoDuplicates(s + [h])
    ensures Elems(s + [h]) == Elems(s) + {h}
  {
    ElemsMembership(s);
    var t := s + [h];
    assert t[..|s|] == s;
    forall i | 0 <= i < |t|
      ensures t[i] < |nodes| && forall c :: c in ChildSet(nodes[t[i]].interior) ==> c in t[..i]
    {
      if i < |s| {
        assert t[..i] == s[..i];
      } else {
        assert t[..i] == s;
      }
    }
  }

  /** `Function::order`: every node reachable from the result exactly once, each after
      its children, the result last. */
  method Order(f: Function, nodes: seq<Node>) returns (sorted: seq<Handle>)
    requires Acyclic(nodes) && f.result < |nodes|
    ensures forall k :: k in sorted <==> k in Reach(nodes, f.result)
    ensures NoDuplicates(sorted) && Topological(nodes, sorted)
    ensures |sorted| > 0 && sorted[|sorted| - 1] == f.result
  {
    var visited;
    visited, sorted := Dfs(nodes, f.result, {}, [], {});
    ElemsMembership(sorted);
  }
}
