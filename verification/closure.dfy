/**
 Recursive dependency listing (`getAllDependencies`): a depth-first search
 from one package, guarded by a `visited` set. Every dependency of a visited
 node is appended to the result BEFORE the visited check of the recursive
 call, so a dependency reachable along several paths is listed once per edge
 leading to it: the result is a list with possible duplicates, whose set of
 elements is exactly the set of packages reachable by one or more edges.
 */
module TransitiveClosure {
  import opened Seqs
  import opened DependencyGraph

  /** The `visited` set and the result list threaded through the search. */
  datatype Listing = Listing(visited: set<Name>, result: seq<Name>)

  /** Everything some member of `s` depends on directly. */
  ghost function Successors(m: DepMap, s: set<Name>): set<Name> {
    set x, y | x in s && x in m && y in m[x] :: y
  }

  lemma SuccessorsOf(m: DepMap, s: set<Name>, x: Name, y: Name)
    requires x in s && Edge(m, x, y)
    ensures y in Successors(m, s)
  {
  }

  /** Every node visited for the first time between `v0` and `v1` has all its dependencies in `v1`. */
  ghost predicate NewNodesFinished(m: DepMap, v0: set<Name>, v1: set<Name>) {
    forall x, y | x in v1 - v0 && Edge(m, x, y) :: y in v1
  }

  /**
   The search on one package `n`: nothing happens when `n` is already visited;
   otherwise `n` is visited, and every node the call visits for the first time
   is reachable from `n`, has all its dependencies visited, and contributes
   exactly its dependencies to the result.
   */
  function Dfs(m: DepMap, n: Name, visited: set<Name>, result: seq<Name>): (r: Listing)
    ensures visited + {n} <= r.visited
    ensures n in visited ==> r == Listing(visited, result)
    ensures forall x | x in r.visited - visited :: ReachesStar(m, n, x)
    ensures NewNodesFinished(m, visited, r.visited)
    ensures Elems(r.result) == Elems(result) + Successors(m, r.visited - visited)
    decreases |Nodes(m) + {n} - visited|, 0
  {
    if n in visited then Listing(visited, result)
    else
      UnvisitedShrinks(Nodes(m), visited, n);
      var r := DfsDeps(m, Deps(m, n), visited + {n}, result, n);
      DfsFinish(m, n, visited, result, r);
      r
  }

  lemma DfsFinish(m: DepMap, n: Name, visited: set<Name>, result: seq<Name>, r: Listing)
    requires n !in visited && visited + {n} <= r.visited
    requires forall y | y in Deps(m, n) :: y in r.visited
    requires forall x | x in r.visited - (visited + {n}) :: Reaches(m, n, x)
    requires NewNodesFinished(m, visited + {n}, r.visited)
    requires Elems(r.result) == Elems(result) + Elems(Deps(m, n)) + Successors(m, r.visited - (visited + {n}))
    ensures forall x | x in r.visited - visited :: ReachesStar(m, n, x)
    ensures NewNodesFinished(m, visited, r.visited)
    ensures Elems(r.result) == Elems(result) + Successors(m, r.visited - visited)
  {
    var s := r.visited - visited;
    var s' := r.visited - (visited + {n});
    assert s == s' + {n};
    forall y | y in Successors(m, s)
      ensures y in Elems(Deps(m, n)) + Successors(m, s')
    {
      var x :| x in s && x in m && y in m[x];
      if x != n {
        SuccessorsOf(m, s', x, y);
      }
    }
    forall y | y in Elems(Deps(m, n))
      ensures y in Successors(m, s)
    {
      SuccessorsOf(m, s, n, y);
    }
  }

  /**
   The loop over the dependencies `ns` of `parent`: each is appended to the
   result, then searched.
   */
  function DfsDeps(m: DepMap, ns: seq<Name>, visited: set<Name>, result: seq<Name>, ghost parent: Name): (r: Listing)
    requires forall y | y in ns :: Edge(m, parent, y)
    ensures visited <= r.visited
    ensures forall y | y in ns :: y in r.visited
    ensures forall x | x in r.visited - visited :: Reaches(m, parent, x)
    ensures NewNodesFinished(m, visited, r.visited)
    ensures Elems(r.result) == Elems(result) + Elems(ns) + Successors(m, r.visited - visited)
    decreases |Nodes(m) - visited|, |ns| + 1
  {
    if ns == [] then Listing(visited, result)
    else
      var y := ns[0];
      assert y in ns;
      assert forall z | z in ns[1..] :: z in ns;
      EdgeTargetIsNode(m, parent, y);
      assert Nodes(m) + {y} == Nodes(m);
      var sub := Dfs(m, y, visited, result + [y]);
      UnvisitedMonotone(Nodes(m), visited, sub.visited);
      var r := DfsDeps(m, ns[1..], sub.visited, sub.result, parent);
      DfsDepsReach(m, ns, visited, sub.visited, r.visited, parent);
      DfsDepsFinished(m, visited, sub.visited, r.visited);
      DfsDepsResult(m, ns, visited, result, sub, r);
      r
  }

  lemma DfsDepsReach(m: DepMap, ns: seq<Name>, v0: set<Name>, v1: set<Name>, v2: set<Name>, parent: Name)
    requires ns != [] && Edge(m, parent, ns[0])
    requires v0 <= v1 <= v2
    requires forall x | x in v1 - v0 :: ReachesStar(m, ns[0], x)
    requires forall x | x in v2 - v1 :: Reaches(m, parent, x)
    ensures forall x | x in v2 - v0 :: Reaches(m, parent, x)
  {
    forall x | x in v2 - v0
      ensures Reaches(m, parent, x)
    {
      if x in v1 - v0 {
        StepReaches(m, parent, ns[0], x);
      }
    }
  }

  lemma DfsDepsFinished(m: DepMap, v0: set<Name>, v1: set<Name>, v2: set<Name>)
    requires v0 <= v1 <= v2
    requires NewNodesFinished(m, v0, v1) && NewNodesFinished(m, v1, v2)
    ensures NewNodesFinished(m, v0, v2)
  {
  }

  lemma DfsDepsResult(m: DepMap, ns: seq<Name>, visited: set<Name>, result: seq<Name>, sub: Listing, r: Listing)
    requires ns != [] && visited <= sub.visited <= r.visited
    requires Elems(sub.result) == Elems(result + [ns[0]]) + Successors(m, sub.visited - visited)
    requires Elems(r.result) == Elems(sub.result) + Elems(ns[1..]) + Successors(m, r.visited - sub.visited)
    ensures Elems(r.result) == Elems(result) + Elems(ns) + Successors(m, r.visited - visited)
  {
    assert Elems(result + [ns[0]]) == Elems(result) + {ns[0]};
    assert Elems(ns) == {ns[0]} + Elems(ns[1..]) by {
      assert ns == [ns[0]] + ns[1..];
    }
    SuccessorsSplit(m, visited, sub.visited, r.visited);
  }

  lemma SuccessorsSplit(m: DepMap, v0: set<Name>, v1: set<Name>, v2: set<Name>)
    requires v0 <= v1 <= v2
    ensures Successors(m, v2 - v0) == Successors(m, v1 - v0) + Successors(m, v2 - v1)
  {
    forall y | y in Successors(m, v2 - v0)
      ensures y in Successors(m, v1 - v0) + Successors(m, v2 - v1)
    {
      var x :| x in v2 - v0 && x in m && y in m[x];
      if x in v1 {
        SuccessorsOf(m, v1 - v0, x, y);
      } else {
        SuccessorsOf(m, v2 - v1, x, y);
      }
    }
    forall y | y in Successors(m, v1 - v0) + Successors(m, v2 - v1)
      ensures y in Successors(m, v2 - v0)
    {
      if y in Successors(m, v1 - v0) {
        var x :| x in v1 - v0 && x in m && y in m[x];
        SuccessorsOf(m, v2 - v0, x, y);
      } else {
        var x :| x in v2 - v1 && x in m && y in m[x];
        SuccessorsOf(m, v2 - v0, x, y);
      }
    }
  }

  /**
   `getAllDependencies(package)`: a name is listed exactly when it is
   reachable from `package` by one or more edges; on an acyclic map the
   package itself is therefore never listed. Terminates on every map.
   */
  function GetAllDependencies(m: DepMap, package: Name): (deps: seq<Name>)
    ensures forall d :: d in deps <==> Reaches(m, package, d)
    ensures !HasCycle(m) ==> package !in deps
  {
    var r := Dfs(m, package, {}, []);
    assert r.visited - {} == r.visited;
    assert Elems(r.result) == Successors(m, r.visited);
    ListingIsReachable(m, package, r.visited, r.result);
    r.result
  }

  lemma ListingIsReachable(m: DepMap, package: Name, visited: set<Name>, result: seq<Name>)
    requires package in visited
    requires forall x | x in visited :: ReachesStar(m, package, x)
    requires NewNodesFinished(m, {}, visited)
    requires Elems(result) == Successors(m, visited)
    ensures forall d :: d in result <==> Reaches(m, package, d)
    ensures !HasCycle(m) ==> package !in result
  {
    forall d | d in result
      ensures Reaches(m, package, d)
    {
      assert d in Elems(result);
      var x :| x in visited && x in m && d in m[x];
      ReachesStep(m, package, x, d);
    }
    forall d | Reaches(m, package, d)
      ensures d in result
    {
      var w :| Walk(m, w) && |w| >= 2 && w[0] == package && w[|w| - 1] == d;
      var x := w[|w| - 2];
      assert Edge(m, x, d);
      WalkPrefixReaches(m, w, |w| - 2);
      assert ClosedUnderEdges(m, visited) by {
        assert visited - {} == visited;
      }
      ClosedContainsReachable(m, visited, package, x);
      SuccessorsOf(m, visited, x, d);
      assert d in Elems(result);
    }
    if package in result {
      ReachesSelfIsCycle(m, package);
    }
  }

  lemma WalkPrefixReaches(m: DepMap, w: seq<Name>, k: nat)
    requires Walk(m, w) && k < |w|
    ensures ReachesStar(m, w[0], w[k])
  {
    if k > 0 {
      var u := w[..k + 1];
      assert Walk(m, u) by {
        forall i | 0 <= i < |u| - 1
          ensures Edge(m, u[i], u[i + 1])
        {
          assert u[i] == w[i] && u[i + 1] == w[i + 1];
        }
      }
      assert u[0] == w[0] && u[|u| - 1] == w[k];
    }
  }

  /** The listing of anything in a listing adds nothing new: the dependencies of a dependency are dependencies. */
  lemma ListingClosed(m: DepMap, package: Name, x: Name)
    requires x in GetAllDependencies(m, package)
    ensures forall y | y in GetAllDependencies(m, x) :: y in GetAllDependencies(m, package)
  {
    forall y | y in GetAllDependencies(m, x)
      ensures y in GetAllDependencies(m, package)
    {
      ReachesTrans(m, package, x, y);
    }
  }

  /** A diamond: A depends on B and C, and both depend on D. */
  const Diamond: DepMap := map["A" := ["B", "C"], "B" := ["D"], "C" := ["D"]]

  /**
   A package reached along two paths is listed once per edge into it: in the
   diamond, the listing from A names D twice.
   */
  lemma DiamondListsSharedDependencyTwice()
    ensures GetAllDependencies(Diamond, "A") == ["B", "D", "C", "D"]
  {
    DiamondFromA();
  }

  lemma DiamondFromA()
    ensures Dfs(Diamond, "A", {}, []) == Listing({"A", "B", "D", "C"}, ["B", "D", "C", "D"])
  {
    DiamondDepsOfA();
    assert Deps(Diamond, "A") == ["B", "C"];
    var none: set<Name> := {};
    assert none + {"A"} == {"A"};
  }

  lemma DiamondDepsOfA()
    ensures DfsDeps(Diamond, ["B", "C"], {"A"}, [], "A") == Listing({"A", "B", "D", "C"}, ["B", "D", "C", "D"])
  {
    DiamondAfterB();
    DiamondAfterC();
    var empty: seq<Name> := [];
    assert empty + ["B"] == ["B"] && ["B", "C"][1..] == ["C"];
  }

  lemma DiamondAfterB()
    ensures Dfs(Diamond, "B", {"A"}, ["B"]) == Listing({"A", "B", "D"}, ["B", "D"])
  {
    var m := Diamond;
    var d := Listing({"A", "B", "D"}, ["B", "D"]);
    assert Deps(m, "D") == [];
    assert Dfs(m, "D", {"A", "B"}, ["B", "D"]) == d;
    assert DfsDeps(m, ["D"], {"A", "B"}, ["B"], "B") == d;
    assert {"A"} + {"B"} == {"A", "B"};
  }

  lemma DiamondAfterC()
    ensures DfsDeps(Diamond, ["C"], {"A", "B", "D"}, ["B", "D"], "A") == Listing({"A", "B", "D", "C"}, ["B", "D", "C", "D"])
  {
    var m := Diamond;
    var c := Listing({"A", "B", "D", "C"}, ["B", "D", "C", "D"]);
    assert Dfs(m, "D", {"A", "B", "D", "C"}, ["B", "D", "C", "D"]) == c;
    assert DfsDeps(m, ["D"], {"A", "B", "D", "C"}, ["B", "D", "C"], "C") == c;
    assert {"A", "B", "D"} + {"C"} == {"A", "B", "D", "C"};
    assert Dfs(m, "C", {"A", "B", "D"}, ["B", "D", "C"]) == c;
    assert ["B", "D"] + ["C"] == ["B", "D", "C"];
  }
}
