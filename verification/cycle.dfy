/**
 Cycle detection (`hasCyclicDependency` with `hasCyclicDependencyHelper`):
 a depth-first search from every key of the map, with a `visited` set that
 only grows and a recursion stack holding the current DFS path. Meeting a
 dependency that is on the stack (a back edge) reports a cycle at once.

 The recursion stack is kept as the list of names on the current call path.
 The source keeps it in a set that it only ever queries for membership, and
 a helper call that returns false has removed its own node again, so the
 stack seen by the caller is the stack it passed in; a call that returns
 true makes every caller return true at once. Passing the stack down as a
 parameter is therefore the same computation.
 */
module CycleDetection {
  import opened Seqs
  import opened DependencyGraph

  /** Outcome of one helper call: whether a back edge was met, and the grown `visited`. */
  datatype Search = Search(found: bool, visited: set<Name>)

  /**
   No cycle passes through a member of `done`. The search keeps this for its
   finished nodes: those visited and no longer on the stack.
   */
  ghost predicate NoCycleThrough(m: DepMap, done: set<Name>) {
    forall x | x in done :: !OnCycle(m, x)
  }

  ghost predicate OnCycle(m: DepMap, x: Name) {
    exists w, i :: IsCycle(m, w) && 0 <= i < |w| && w[i] == x
  }

  /** A dependency of the last stack node that is itself on the stack closes a cycle. */
  lemma BackEdgeIsCycle(m: DepMap, path: seq<Name>, y: Name)
    requires |path| > 0 && Walk(m, path)
    requires y in path && Edge(m, path[|path| - 1], y)
    ensures HasCycle(m)
  {
    var i :| 0 <= i < |path| && path[i] == y;
    var w := path[i..] + [y];
    assert Walk(m, w) by {
      forall k | 0 <= k < |w| - 1
        ensures Edge(m, w[k], w[k + 1])
      {
        if k < |w| - 2 {
          assert w[k] == path[i + k] && w[k + 1] == path[i + k + 1];
        }
      }
    }
    assert IsCycle(m, w);
  }

  /** A node all of whose dependencies are finished lies on no cycle either. */
  lemma FinishNode(m: DepMap, done: set<Name>, n: Name)
    requires NoCycleThrough(m, done)
    requires forall y | Edge(m, n, y) :: y in done
    ensures NoCycleThrough(m, done + {n})
  {
    forall w, i | IsCycle(m, w) && 0 <= i < |w| && w[i] == n
      ensures false
    {
      var j := if i < |w| - 1 then i + 1 else 1;
      assert Edge(m, w[j - 1], w[j]);
      assert w[j - 1] == n;
      assert OnCycle(m, w[j]);
    }
  }

  /** Once every key is finished, no cycle is left: each edge starts at a key. */
  lemma FinishedKeysAcyclic(m: DepMap, done: set<Name>)
    requires NoCycleThrough(m, done) && m.Keys <= done
    ensures !HasCycle(m)
  {
    forall w | IsCycle(m, w)
      ensures false
    {
      assert Edge(m, w[0], w[1]);
      assert OnCycle(m, w[0]);
    }
  }

  /**
   `hasCyclicDependencyHelper(n)`: mark `n` visited and push it, then scan its
   dependencies. A found cycle is real; when none is found, `n` and every node
   newly finished under it lie on no cycle.
   */
  function Visit(m: DepMap, n: Name, visited: set<Name>, stack: seq<Name>): (r: Search)
    requires n !in visited && Elems(stack) <= visited
    requires Walk(m, stack + [n])
    requires NoCycleThrough(m, visited - Elems(stack))
    ensures visited + {n} <= r.visited
    ensures r.found ==> HasCycle(m)
    ensures !r.found ==> n in r.visited - Elems(stack) && NoCycleThrough(m, r.visited - Elems(stack))
    decreases |Nodes(m) + {n} - visited|, 0
  {
    var path := stack + [n];
    PushNode(m, visited, stack, n);
    UnvisitedShrinks(Nodes(m), visited, n);
    var r := VisitDeps(m, Deps(m, n), visited + {n}, path);
    if r.found then r
    else
      PopNode(m, r.visited, stack, n);
      r
  }

  lemma PushNode(m: DepMap, visited: set<Name>, stack: seq<Name>, n: Name)
    requires n !in visited && Elems(stack) <= visited
    ensures Elems(stack + [n]) <= visited + {n}
    ensures visited + {n} - Elems(stack + [n]) == visited - Elems(stack)
    ensures (stack + [n])[|stack + [n]| - 1] == n
  {
    assert Elems(stack + [n]) == Elems(stack) + {n};
  }

  /** Popping a node whose dependencies are all finished makes it finished. */
  lemma PopNode(m: DepMap, visited: set<Name>, stack: seq<Name>, n: Name)
    requires n in visited && n !in stack
    requires NoCycleThrough(m, visited - Elems(stack + [n]))
    requires forall y | y in Deps(m, n) :: y in visited - Elems(stack + [n])
    ensures n in visited - Elems(stack) && NoCycleThrough(m, visited - Elems(stack))
  {
    assert Elems(stack + [n]) == Elems(stack) + {n};
    assert visited - Elems(stack) == (visited - Elems(stack + [n])) + {n};
    FinishNode(m, visited - Elems(stack + [n]), n);
  }

  /**
   The helper's loop over the dependencies `ns` of the node on top of `path`:
   an unvisited dependency is searched recursively, a visited one that is on
   the stack is a back edge.
   */
  function VisitDeps(m: DepMap, ns: seq<Name>, visited: set<Name>, path: seq<Name>): (r: Search)
    requires |path| > 0 && Elems(path) <= visited
    requires Walk(m, path)
    requires forall y | y in ns :: Edge(m, path[|path| - 1], y)
    requires NoCycleThrough(m, visited - Elems(path))
    ensures visited <= r.visited
    ensures r.found ==> HasCycle(m)
    ensures !r.found ==> NoCycleThrough(m, r.visited - Elems(path))
    ensures !r.found ==> forall y | y in ns :: y in r.visited - Elems(path)
    decreases |Nodes(m) - visited|, |ns| + 1
  {
    if ns == [] then Search(false, visited)
    else
      var y := ns[0];
      assert y in ns;
      assert forall z | z in ns[1..] :: z in ns;
      EdgeTargetIsNode(m, path[|path| - 1], y);
      if y !in visited then
        assert Nodes(m) + {y} == Nodes(m);
        assert Walk(m, path + [y]) by {
          var w := path + [y];
          forall k | 0 <= k < |w| - 1
            ensures Edge(m, w[k], w[k + 1])
          {
            if k < |path| - 1 {
              assert w[k] == path[k] && w[k + 1] == path[k + 1];
            }
          }
        }
        var sub := Visit(m, y, visited, path);
        if sub.found then sub
        else
          UnvisitedMonotone(Nodes(m), visited, sub.visited);
          VisitDeps(m, ns[1..], sub.visited, path)
      else if y in path then
        BackEdgeIsCycle(m, path, y);
        Search(true, visited)
      else
        VisitDeps(m, ns[1..], visited, path)
  }

  /**
   `hasCyclicDependency`: searches from every key of the map that is not yet
   visited, in whatever order the keys are enumerated, and stops at the first
   back edge. The answer is true exactly when the map has a cycle.
   */
  method HasCyclicDependency(m: DepMap) returns (cyclic: bool)
    ensures cyclic <==> HasCycle(m)
  {
    var visited: set<Name> := {};
    var todo := m.Keys;
    while todo != {}
      invariant todo <= m.Keys
      invariant m.Keys - todo <= visited
      invariant NoCycleThrough(m, visited)
      decreases todo
    {
      var k :| k in todo;
      todo := todo - {k};
      if k !in visited {
        var empty: seq<Name> := [];
        assert Elems(empty) == {};
        assert [] + [k] == [k];
        var r := Visit(m, k, visited, []);
        if r.found {
          return true;
        }
        visited := r.visited;
      }
    }
    FinishedKeysAcyclic(m, visited);
    return false;
  }
}
