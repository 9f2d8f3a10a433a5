/**
 Installation order (`getInstallationOrder` with `topologicalSortHelper`).
 The map is first checked for a cycle anywhere in it; a cyclic map yields the
 empty list. Otherwise the working set (the requested packages together with
 everything `getAllDependencies` lists for them) is collected into a hash set,
 and a post-order depth-first search is started from each member of that set
 that is not yet visited. The hash set's iteration order is unspecified, so
 the model lets the roots be taken in any order and proves its properties for
 all of them.
 */
module InstallationOrder {
  import opened Seqs
  import opened DependencyGraph
  import CycleDetection
  import TransitiveClosure

  /** The `visited` set and the result list threaded through the sort. */
  datatype Sorted = Sorted(visited: set<Name>, result: seq<Name>)

  /** Every dependency of a listed package is listed strictly before it. */
  ghost predicate DepsFirst(m: DepMap, s: seq<Name>) {
    forall i, d | 0 <= i < |s| && Edge(m, s[i], d) :: d in s[..i]
  }

  /**
   What the sort keeps between calls: the listed (finished) packages are
   visited, listed once each, and each after its dependencies.
   */
  ghost predicate SortInvariant(m: DepMap, visited: set<Name>, result: seq<Name>) {
    Elems(result) <= visited && NoDup(result) && DepsFirst(m, result)
  }

  /**
   `topologicalSortHelper(n)`: visit `n`, sort its unvisited dependencies,
   then append `n`. On an acyclic map every package visited but not yet
   listed is an ancestor of `n` on the current call path, so it reaches `n`.
   The call lists exactly the nodes it visits, all reachable from `n`, and
   keeps the invariant.
   */
  function TopoVisit(m: DepMap, n: Name, visited: set<Name>, result: seq<Name>): (r: Sorted)
    requires !HasCycle(m)
    requires n !in visited
    requires SortInvariant(m, visited, result)
    requires forall g | g in visited - Elems(result) :: ReachesStar(m, g, n)
    ensures visited + {n} <= r.visited
    ensures result <= r.result
    ensures Elems(r.result) == Elems(result) + (r.visited - visited)
    ensures SortInvariant(m, r.visited, r.result)
    ensures forall x | x in r.visited - visited :: ReachesStar(m, n, x)
    decreases |Nodes(m) + {n} - visited|, 0
  {
    UnvisitedShrinks(Nodes(m), visited, n);
    EnterNode(m, n, visited, result);
    var sub := TopoDeps(m, Deps(m, n), visited + {n}, result, n);
    FinishNode(m, n, visited, result, sub);
    Sorted(sub.visited, sub.result + [n])
  }

  lemma EnterNode(m: DepMap, n: Name, visited: set<Name>, result: seq<Name>)
    requires n !in visited
    requires SortInvariant(m, visited, result)
    requires forall g | g in visited - Elems(result) :: ReachesStar(m, g, n)
    ensures n !in result
    ensures SortInvariant(m, visited + {n}, result)
    ensures forall g | g in (visited + {n}) - Elems(result) :: ReachesStar(m, g, n)
    ensures forall y | y in Deps(m, n) :: Edge(m, n, y)
  {
  }

  lemma FinishNode(m: DepMap, n: Name, visited: set<Name>, result: seq<Name>, sub: Sorted)
    requires n !in visited && n !in result
    requires Elems(result) <= visited
    requires visited + {n} <= sub.visited && result <= sub.result
    requires Elems(sub.result) == Elems(result) + (sub.visited - (visited + {n}))
    requires SortInvariant(m, sub.visited, sub.result)
    requires forall y | y in Deps(m, n) :: y in sub.result
    requires forall x | x in sub.visited - (visited + {n}) :: Reaches(m, n, x)
    ensures result <= sub.result + [n]
    ensures Elems(sub.result + [n]) == Elems(result) + (sub.visited - visited)
    ensures SortInvariant(m, sub.visited, sub.result + [n])
    ensures forall x | x in sub.visited - visited :: ReachesStar(m, n, x)
  {
    var s := sub.result;
    var s' := s + [n];
    assert Elems(s') == Elems(s) + {n};
    assert n !in s;
    assert NoDup(s') by {
      forall i, j | 0 <= i < j < |s'|
        ensures s'[i] != s'[j]
      {
        if j < |s| {
          assert s'[i] == s[i] && s'[j] == s[j];
        } else {
          assert s'[i] == s[i];
        }
      }
    }
    assert DepsFirst(m, s') by {
      forall i, d | 0 <= i < |s'| && Edge(m, s'[i], d)
        ensures d in s'[..i]
      {
        if i < |s| {
          assert s'[i] == s[i] && s'[..i] == s[..i];
        } else {
          assert s'[..i] == s;
        }
      }
    }
    assert result <= s' by {
      assert result <= s && s <= s';
    }
  }

  /**
   The helper's loop over the dependencies `ns` of `parent`, which is visited
   and not yet listed: unvisited ones are sorted recursively. Afterwards every
   member of `ns` is listed; one visited but unlisted would reach `parent`
   while `parent` depends on it, closing a cycle.
   */
  function TopoDeps(m: DepMap, ns: seq<Name>, visited: set<Name>, result: seq<Name>, ghost parent: Name): (r: Sorted)
    requires !HasCycle(m)
    requires parent in visited && parent !in result
    requires forall y | y in ns :: Edge(m, parent, y)
    requires SortInvariant(m, visited, result)
    requires forall g | g in visited - Elems(result) :: ReachesStar(m, g, parent)
    ensures visited <= r.visited
    ensures result <= r.result
    ensures Elems(r.result) == Elems(result) + (r.visited - visited)
    ensures SortInvariant(m, r.visited, r.result)
    ensures forall y | y in ns :: y in r.result
    ensures forall x | x in r.visited - visited :: Reaches(m, parent, x)
    decreases |Nodes(m) - visited|, |ns| + 1
  {
    if ns == [] then Sorted(visited, result)
    else
      var y := ns[0];
      assert y in ns;
      assert forall z | z in ns[1..] :: z in ns;
      EdgeTargetIsNode(m, parent, y);
      assert Nodes(m) + {y} == Nodes(m);
      if y !in visited then
        GreyReachesChild(m, parent, y, visited, result);
        var sub := TopoVisit(m, y, visited, result);
        UnvisitedMonotone(Nodes(m), visited, sub.visited);
        ChildDone(m, parent, y, visited, result, sub);
        var r := TopoDeps(m, ns[1..], sub.visited, sub.result, parent);
        DepsDone(m, parent, y, visited, result, sub, r);
        r
      else
        VisitedChildListed(m, parent, y, visited, result);
        TopoDeps(m, ns[1..], visited, result, parent)
  }

  lemma GreyReachesChild(m: DepMap, parent: Name, y: Name, visited: set<Name>, result: seq<Name>)
    requires Edge(m, parent, y)
    requires forall g | g in visited - Elems(result) :: ReachesStar(m, g, parent)
    ensures forall g | g in visited - Elems(result) :: ReachesStar(m, g, y)
  {
    forall g | g in visited - Elems(result)
      ensures ReachesStar(m, g, y)
    {
      ReachesStep(m, g, parent, y);
    }
  }

  /** On an acyclic map a visited dependency of the node being sorted is already listed. */
  lemma VisitedChildListed(m: DepMap, parent: Name, y: Name, visited: set<Name>, result: seq<Name>)
    requires !HasCycle(m)
    requires Edge(m, parent, y) && y in visited
    requires forall g | g in visited - Elems(result) :: ReachesStar(m, g, parent)
    ensures y in result
  {
    if y !in Elems(result) {
      ReachesStep(m, y, parent, y);
      ReachesSelfIsCycle(m, y);
    }
  }

  /** After sorting child `y`, the grey nodes (visited, unlisted) are those before, all reaching `parent`. */
  lemma ChildDone(m: DepMap, parent: Name, y: Name, visited: set<Name>, result: seq<Name>, sub: Sorted)
    requires Edge(m, parent, y) && parent in visited && parent !in result
    requires y !in visited && Elems(result) <= visited
    requires visited + {y} <= sub.visited && result <= sub.result
    requires Elems(sub.result) == Elems(result) + (sub.visited - visited)
    requires forall g | g in visited - Elems(result) :: ReachesStar(m, g, parent)
    ensures parent in sub.visited && parent !in sub.result
    ensures forall g | g in sub.visited - Elems(sub.result) :: ReachesStar(m, g, parent)
    ensures y in sub.result
  {
    assert sub.visited - Elems(sub.result) == visited - Elems(result);
  }

  lemma DepsDone(m: DepMap, parent: Name, y: Name, visited: set<Name>, result: seq<Name>, sub: Sorted, r: Sorted)
    requires Edge(m, parent, y)
    requires visited <= sub.visited <= r.visited
    requires result <= sub.result <= r.result
    requires Elems(sub.result) == Elems(result) + (sub.visited - visited)
    requires Elems(r.result) == Elems(sub.result) + (r.visited - sub.visited)
    requires forall x | x in sub.visited - visited :: ReachesStar(m, y, x)
    requires forall x | x in r.visited - sub.visited :: Reaches(m, parent, x)
    ensures result <= r.result
    ensures Elems(r.result) == Elems(result) + (r.visited - visited)
    ensures forall x | x in r.visited - visited :: Reaches(m, parent, x)
  {
    forall x | x in r.visited - visited
      ensures Reaches(m, parent, x)
    {
      if x in sub.visited {
        StepReaches(m, parent, y, x);
      }
    }
  }

  /**
   The working set as the source collects it: each requested package, and
   every package `getAllDependencies` lists for it.
   */
  function CollectPackages(m: DepMap, packages: seq<Name>): (all: set<Name>)
    ensures forall x :: x in all <==> InWorkingSet(m, packages, x)
  {
    if packages == [] then {}
    else
      var p := packages[0];
      var rest := CollectPackages(m, packages[1..]);
      var deps := TransitiveClosure.GetAllDependencies(m, p);
      var all := {p} + Elems(deps) + rest;
      assert forall x | x in all :: InWorkingSet(m, packages, x) by {
        forall x | x in all
          ensures InWorkingSet(m, packages, x)
        {
          if x in rest {
            var q :| q in packages[1..] && ReachesStar(m, q, x);
            assert q in packages;
          } else {
            assert p in packages && ReachesStar(m, p, x);
          }
        }
      }
      assert forall x | InWorkingSet(m, packages, x) :: x in all by {
        forall x | InWorkingSet(m, packages, x)
          ensures x in all
        {
          var q :| q in packages && ReachesStar(m, q, x);
          if q != p {
            assert packages == [p] + packages[1..];
            assert q in packages[1..];
          } else if q != x {
            assert x in deps;
          }
        }
      }
      all
  }

  /**
   `getInstallationOrder(packages, dependencies)`. On a map with a cycle the
   result is empty. On an acyclic map it lists every requested package and
   every package reachable from one, each exactly once and nothing else, and
   every dependency of a listed package comes before it; this holds for every
   order in which the collected set hands out its members.
   */
  method GetInstallationOrder(m: DepMap, packages: seq<Name>) returns (order: seq<Name>)
    ensures HasCycle(m) ==> order == []
    ensures !HasCycle(m) ==> forall x :: x in order <==> InWorkingSet(m, packages, x)
    ensures !HasCycle(m) ==> NoDup(order)
    ensures !HasCycle(m) ==> DepsFirst(m, order)
  {
    var cyclic := CycleDetection.HasCyclicDependency(m);
    if cyclic {
      return [];
    }
    var all := CollectPackages(m, packages);
    var visited: set<Name> := {};
    order := [];
    var todo := all;
    while todo != {}
      invariant todo <= all
      invariant all - todo <= visited <= all
      invariant visited == Elems(order)
      invariant SortInvariant(m, visited, order)
      decreases todo
    {
      var p :| p in todo;
      todo := todo - {p};
      if p !in visited {
        var r := TopoVisit(m, p, visited, order);
        forall x | x in r.visited - visited
          ensures x in all
        {
          WorkingSetClosed(m, packages, p, x);
        }
        visited, order := r.visited, r.result;
      }
    }
    assert forall x :: x in order <==> x in all by {
      forall x
        ensures x in order <==> x in all
      {
        assert x in order <==> x in Elems(order);
      }
    }
  }
}
