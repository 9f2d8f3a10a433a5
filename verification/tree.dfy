/**
 Annotated tree builder (`buildDependencyTree`). A depth-first walk from each
 requested package at level 0; the dependencies of a node at level L are
 walked at level L + 1. A name already in the tree stops the walk at once:
 the first visit fixes a node's level, installed status and dependency list,
 and is also what stops the walk on a cyclic map.

 The installed-status probe (`isPackageInstalled`, which runs `dpkg`/`rpm`)
 is a parameter `installed`. Its calls are recorded in order in `probed`, so
 that "probed once per created node" can be stated.
 */
module DependencyTree {
  import opened Seqs
  import opened DependencyGraph

  /** `DependencyNode` of dependencyanalyzer.h. The source's `int` level is never negative. */
  datatype DependencyNode = DependencyNode(name: Name, installed: bool, dependencies: seq<Name>, level: nat)

  /** The tree under construction, and the names the probe was called with, in call order. */
  datatype Build = Build(tree: map<Name, DependencyNode>, probed: seq<Name>)

  /**
   Each entry describes its own key: its name is the key, its status is the
   probe's answer and its dependencies are the declared ones; the probe was
   called once for each entry and for nothing else.
   */
  ghost predicate WellFormed(m: DepMap, installed: Name -> bool, b: Build) {
    && (forall k | k in b.tree ::
          b.tree[k].name == k && b.tree[k].installed == installed(k) && b.tree[k].dependencies == Deps(m, k))
    && NoDup(b.probed)
    && Elems(b.probed) == b.tree.Keys
  }

  /** `b'` keeps every entry of `b` unchanged, and extends its probe log. */
  ghost predicate Extends(b: Build, b': Build) {
    && (forall k | k in b.tree :: k in b'.tree && b'.tree[k] == b.tree[k])
    && b.probed <= b'.probed
  }

  /** A node at level 0, or one whose level is one more than that of a node depending on it. */
  ghost predicate LevelJustified(tree: map<Name, DependencyNode>, k: Name)
    requires k in tree
  {
    tree[k].level == 0 ||
    exists q :: q in tree && k in tree[q].dependencies && tree[k].level == tree[q].level + 1
  }

  /** Facts about the entries created between `b` and `b'`. */
  ghost predicate NewEntries(m: DepMap, b: Build, b': Build, from: Name, level: nat) {
    forall k | k in b'.tree && k !in b.tree ::
      && ReachesStar(m, from, k)
      && b'.tree[k].level >= level
      && (k != from ==> b'.tree[k].level > level && LevelJustified(b'.tree, k))
      && (forall y | Edge(m, k, y) :: y in b'.tree)
  }

  /**
   `buildTree(pkg, level)`. A name already in the tree leaves everything as
   it is (no new level, no new probe, no new walk). Otherwise `pkg` is created
   at `level` and probed once; every other node the call creates is reachable
   from `pkg`, sits deeper than `pkg` one level below a node depending on it,
   and has its own dependencies in the tree.
   */
  function BuildNode(m: DepMap, installed: Name -> bool, pkg: Name, level: nat, b: Build): (r: Build)
    requires WellFormed(m, installed, b)
    ensures WellFormed(m, installed, r)
    ensures Extends(b, r)
    ensures pkg in b.tree ==> r == b
    ensures pkg in r.tree
    ensures pkg !in b.tree ==> r.tree[pkg].level == level
    ensures NewEntries(m, b, r, pkg, level)
    decreases |Nodes(m) + {pkg} - b.tree.Keys|, 0
  {
    if pkg in b.tree then b
    else
      var node := DependencyNode(pkg, installed(pkg), Deps(m, pkg), level);
      var b1 := Build(b.tree[pkg := node], b.probed + [pkg]);
      CreateNode(m, installed, pkg, level, b, b1);
      UnvisitedShrinks(Nodes(m), b.tree.Keys, pkg);
      var r := BuildDeps(m, installed, node.dependencies, level + 1, b1, pkg);
      FinishBuild(m, installed, pkg, level, b, b1, r);
      r
  }

  lemma CreateNode(m: DepMap, installed: Name -> bool, pkg: Name, level: nat, b: Build, b1: Build)
    requires WellFormed(m, installed, b) && pkg !in b.tree
    requires b1 == Build(b.tree[pkg := DependencyNode(pkg, installed(pkg), Deps(m, pkg), level)], b.probed + [pkg])
    ensures WellFormed(m, installed, b1)
    ensures Extends(b, b1)
    ensures b1.tree.Keys == b.tree.Keys + {pkg}
  {
    assert Elems(b1.probed) == Elems(b.probed) + {pkg};
    assert pkg !in b.probed;
    assert NoDup(b1.probed) by {
      forall i, j | 0 <= i < j < |b1.probed|
        ensures b1.probed[i] != b1.probed[j]
      {
        assert b1.probed[i] == b.probed[i];
        if j < |b.probed| {
          assert b1.probed[j] == b.probed[j];
        }
      }
    }
  }

  lemma FinishBuild(m: DepMap, installed: Name -> bool, pkg: Name, level: nat, b: Build, b1: Build, r: Build)
    requires pkg !in b.tree && pkg in b1.tree && b1.tree[pkg].level == level
    requires b1.tree[pkg].dependencies == Deps(m, pkg)
    requires Extends(b, b1) && Extends(b1, r)
    requires b1.tree.Keys == b.tree.Keys + {pkg}
    requires forall y | y in Deps(m, pkg) :: y in r.tree
    requires NewEntries(m, b1, r, pkg, level)
    ensures Extends(b, r)
    ensures pkg in r.tree && r.tree[pkg].level == level
    ensures NewEntries(m, b, r, pkg, level)
  {
    forall k | k in r.tree && k !in b.tree && k != pkg
      ensures LevelJustified(r.tree, k)
    {
    }
    assert b.probed <= r.probed by {
      assert b.probed <= b1.probed && b1.probed <= r.probed;
    }
  }

  /**
   The loop over the dependency list `ns` of `parent`, each walked at `level`,
   one more than the level of `parent`.
   */
  function BuildDeps(m: DepMap, installed: Name -> bool, ns: seq<Name>, level: nat, b: Build, ghost parent: Name): (r: Build)
    requires WellFormed(m, installed, b)
    requires parent in b.tree && b.tree[parent].level + 1 == level
    requires forall y | y in ns :: y in b.tree[parent].dependencies && Edge(m, parent, y)
    ensures WellFormed(m, installed, r)
    ensures Extends(b, r)
    ensures forall y | y in ns :: y in r.tree
    ensures ns != [] && ns[0] !in b.tree ==> ns[0] in r.tree && r.tree[ns[0]].level == level
    ensures NewEntries(m, b, r, parent, level - 1)
    decreases |Nodes(m) - b.tree.Keys|, |ns| + 1
  {
    if ns == [] then b
    else
      var y := ns[0];
      assert y in ns;
      assert forall z | z in ns[1..] :: z in ns;
      EdgeTargetIsNode(m, parent, y);
      assert Nodes(m) + {y} == Nodes(m);
      var sub := BuildNode(m, installed, y, level, b);
      UnvisitedMonotone(Nodes(m), b.tree.Keys, sub.tree.Keys);
      var r := BuildDeps(m, installed, ns[1..], level, sub, parent);
      DepsBuilt(m, installed, ns, level, b, sub, r, parent);
      r
  }

  lemma DepsBuilt(m: DepMap, installed: Name -> bool, ns: seq<Name>, level: nat, b: Build, sub: Build, r: Build, parent: Name)
    requires ns != [] && parent in b.tree && b.tree[parent].level + 1 == level
    requires ns[0] in b.tree[parent].dependencies && Edge(m, parent, ns[0])
    requires Extends(b, sub) && Extends(sub, r)
    requires ns[0] in sub.tree
    requires ns[0] !in b.tree ==> sub.tree[ns[0]].level == level
    requires NewEntries(m, b, sub, ns[0], level)
    requires forall y | y in ns[1..] :: y in r.tree
    requires NewEntries(m, sub, r, parent, level - 1)
    ensures Extends(b, r)
    ensures forall y | y in ns :: y in r.tree
    ensures NewEntries(m, b, r, parent, level - 1)
  {
    assert b.probed <= r.probed by {
      assert b.probed <= sub.probed && sub.probed <= r.probed;
    }
    assert ns == [ns[0]] + ns[1..];
    forall k | k in r.tree && k !in b.tree
      ensures ReachesStar(m, parent, k)
      ensures k != parent ==> LevelJustified(r.tree, k)
    {
      if k in sub.tree {
        StepReaches(m, parent, ns[0], k);
        if k != ns[0] {
          var q :| q in sub.tree && k in sub.tree[q].dependencies && sub.tree[k].level == sub.tree[q].level + 1;
          assert r.tree[q] == sub.tree[q];
        } else {
          assert r.tree[parent] == b.tree[parent];
        }
      }
    }
  }

  /** The loop over the requested packages, each walked at level 0. */
  function BuildRoots(m: DepMap, installed: Name -> bool, packages: seq<Name>, b: Build, ghost requested: seq<Name>): (r: Build)
    requires WellFormed(m, installed, b)
    requires forall p | p in packages :: p in requested
    requires forall k | k in b.tree :: LevelJustified(b.tree, k) && (b.tree[k].level == 0 ==> k in requested)
    ensures WellFormed(m, installed, r)
    ensures Extends(b, r)
    ensures forall p | p in packages :: p in r.tree
    ensures forall k | k in r.tree && k !in b.tree :: InWorkingSet(m, packages, k)
    ensures forall k | k in r.tree && k !in b.tree :: forall y | Edge(m, k, y) :: y in r.tree
    ensures forall k | k in r.tree :: LevelJustified(r.tree, k) && (r.tree[k].level == 0 ==> k in requested)
  {
    if packages == [] then b
    else
      var p := packages[0];
      assert p in packages;
      assert forall q | q in packages[1..] :: q in packages;
      var sub := BuildNode(m, installed, p, 0, b);
      RootBuilt(m, p, b, sub, requested);
      var r := BuildRoots(m, installed, packages[1..], sub, requested);
      RootsBuilt(m, installed, packages, b, sub, r, requested);
      r
  }

  /**
   Each name of `ns` that is not yet in `b`, and that no name before it in
   `ns` reaches along names not yet in `b`, is still absent at its turn, so
   the loop creates it at `level`. The walks of the earlier names create
   only names they reach that way.
   */
  ghost predicate FirstReachedAt(m: DepMap, ns: seq<Name>, b: Build, r: Build, level: nat) {
    forall i | 0 <= i < |ns| && ns[i] !in b.tree && !ReachedAvoiding(m, ns[..i], ns[i], b.tree.Keys) ::
      ns[i] in r.tree && r.tree[ns[i]].level == level
  }

  /** Over the requested packages: each one no earlier requested package reaches is at level 0. */
  lemma {:induction false} RootsAtZero(m: DepMap, installed: Name -> bool, packages: seq<Name>, b: Build, requested: seq<Name>)
    requires WellFormed(m, installed, b)
    requires forall p | p in packages :: p in requested
    requires forall k | k in b.tree :: LevelJustified(b.tree, k) && (b.tree[k].level == 0 ==> k in requested)
    ensures FirstReachedAt(m, packages, b, BuildRoots(m, installed, packages, b, requested), 0)
    decreases |packages|
  {
    if packages != [] {
      var p := packages[0];
      assert p in packages;
      assert forall q | q in packages[1..] :: q in packages;
      var sub := BuildNode(m, installed, p, 0, b);
      RootBuilt(m, p, b, sub, requested);
      NodeAvoids(m, installed, p, 0, b);
      RootsAtZero(m, installed, packages[1..], sub, requested);
      var r := BuildRoots(m, installed, packages[1..], sub, requested);
      FirstReachedStep(m, packages, b, sub, r, 0);
    }
  }

  /**
   Over a dependency list walked at `level`: each dependency that is not yet
   in the tree, and that no dependency before it in the list reaches along
   names not yet in the tree, is created at `level`, one below its parent.
   */
  lemma {:induction false} DepsAtLevel(m: DepMap, installed: Name -> bool, ns: seq<Name>, level: nat, b: Build, parent: Name)
    requires WellFormed(m, installed, b)
    requires parent in b.tree && b.tree[parent].level + 1 == level
    requires forall y | y in ns :: y in b.tree[parent].dependencies && Edge(m, parent, y)
    ensures FirstReachedAt(m, ns, b, BuildDeps(m, installed, ns, level, b, parent), level)
    decreases |ns|
  {
    if ns != [] {
      var y := ns[0];
      assert y in ns;
      assert forall z | z in ns[1..] :: z in ns;
      var sub := BuildNode(m, installed, y, level, b);
      assert sub.tree[parent] == b.tree[parent];
      NodeAvoids(m, installed, y, level, b);
      DepsAtLevel(m, installed, ns[1..], level, sub, parent);
      var r := BuildDeps(m, installed, ns[1..], level, sub, parent);
      assert BuildDeps(m, installed, ns, level, b, parent) == r;
      FirstReachedStep(m, ns, b, sub, r, level);
    }
  }

  lemma FirstReachedStep(m: DepMap, ns: seq<Name>, b: Build, sub: Build, r: Build, level: nat)
    requires ns != []
    requires Extends(sub, r)
    requires ns[0] in sub.tree && (ns[0] !in b.tree ==> sub.tree[ns[0]].level == level)
    requires Extends(b, sub)
    requires forall k | k in sub.tree && k !in b.tree :: ReachesAvoiding(m, ns[0], k, b.tree.Keys)
    requires FirstReachedAt(m, ns[1..], sub, r, level)
    ensures FirstReachedAt(m, ns, b, r, level)
  {
    var tail := ns[1..];
    forall i | 0 <= i < |ns| && ns[i] !in b.tree && !ReachedAvoiding(m, ns[..i], ns[i], b.tree.Keys)
      ensures ns[i] in r.tree && r.tree[ns[i]].level == level
    {
      var x := ns[i];
      if i > 0 {
        EarlierReach(m, ns, i, x, b.tree.Keys, sub.tree.Keys);
        assert x !in sub.tree;
        assert tail[i - 1] == x;
      }
    }
  }

  /**
   A name reached avoiding `s` from the first of `ns`, or avoiding the larger
   `s'` from one of `ns[1..i]`, is reached avoiding `s` from one of `ns[..i]`.
   */
  lemma EarlierReach(m: DepMap, ns: seq<Name>, i: nat, x: Name, s: set<Name>, s': set<Name>)
    requires 0 < i <= |ns| && s <= s'
    ensures ReachesAvoiding(m, ns[0], x, s) ==> ReachedAvoiding(m, ns[..i], x, s)
    ensures ReachedAvoiding(m, ns[1..][..i - 1], x, s') ==> ReachedAvoiding(m, ns[..i], x, s)
  {
    assert ns[..i][0] == ns[0];
    if ReachedAvoiding(m, ns[1..][..i - 1], x, s') {
      var q :| q in ns[1..][..i - 1] && ReachesAvoiding(m, q, x, s');
      AvoidingMonotone(m, q, x, s, s');
      assert q in ns[..i];
    }
  }

  /** Every name a call creates is reached from its package along names that were not yet in the tree. */
  lemma {:induction false} NodeAvoids(m: DepMap, installed: Name -> bool, pkg: Name, level: nat, b: Build)
    requires WellFormed(m, installed, b)
    ensures forall k | k in BuildNode(m, installed, pkg, level, b).tree && k !in b.tree ::
      ReachesAvoiding(m, pkg, k, b.tree.Keys)
    decreases |Nodes(m) + {pkg} - b.tree.Keys|, 0
  {
    if pkg !in b.tree {
      var node := DependencyNode(pkg, installed(pkg), Deps(m, pkg), level);
      var b1 := Build(b.tree[pkg := node], b.probed + [pkg]);
      CreateNode(m, installed, pkg, level, b, b1);
      UnvisitedShrinks(Nodes(m), b.tree.Keys, pkg);
      DepsAvoid(m, installed, node.dependencies, level + 1, b1, pkg);
      var r := BuildDeps(m, installed, node.dependencies, level + 1, b1, pkg);
      assert BuildNode(m, installed, pkg, level, b) == r;
      CreatedAvoid(m, pkg, b.tree.Keys, b1.tree.Keys, r.tree.Keys);
    }
  }

  lemma CreatedAvoid(m: DepMap, pkg: Name, before: set<Name>, created: set<Name>, after: set<Name>)
    requires pkg !in before && created == before + {pkg}
    requires forall k | k in after && k !in created :: ReachedAvoiding(m, Deps(m, pkg), k, created)
    ensures forall k | k in after && k !in before :: ReachesAvoiding(m, pkg, k, before)
  {
    forall k | k in after && k !in before
      ensures ReachesAvoiding(m, pkg, k, before)
    {
      if k == pkg {
        AvoidingSelf(m, pkg, before);
      } else {
        var y :| y in Deps(m, pkg) && ReachesAvoiding(m, y, k, created);
        AvoidingMonotone(m, y, k, before, created);
        AvoidingStep(m, pkg, y, k, before);
      }
    }
  }

  /** Every name the loop over `ns` creates is reached from one of `ns` along names that were not yet in the tree. */
  lemma {:induction false} DepsAvoid(m: DepMap, installed: Name -> bool, ns: seq<Name>, level: nat, b: Build, parent: Name)
    requires WellFormed(m, installed, b)
    requires parent in b.tree && b.tree[parent].level + 1 == level
    requires forall y | y in ns :: y in b.tree[parent].dependencies && Edge(m, parent, y)
    ensures forall k | k in BuildDeps(m, installed, ns, level, b, parent).tree && k !in b.tree ::
      ReachedAvoiding(m, ns, k, b.tree.Keys)
    decreases |Nodes(m) - b.tree.Keys|, |ns| + 1
  {
    if ns != [] {
      var y := ns[0];
      assert y in ns;
      assert forall z | z in ns[1..] :: z in ns;
      EdgeTargetIsNode(m, parent, y);
      assert Nodes(m) + {y} == Nodes(m);
      NodeAvoids(m, installed, y, level, b);
      var sub := BuildNode(m, installed, y, level, b);
      assert sub.tree[parent] == b.tree[parent];
      UnvisitedMonotone(Nodes(m), b.tree.Keys, sub.tree.Keys);
      DepsAvoid(m, installed, ns[1..], level, sub, parent);
      var r := BuildDeps(m, installed, ns[1..], level, sub, parent);
      assert BuildDeps(m, installed, ns, level, b, parent) == r;
      forall k | k in r.tree && k !in b.tree
        ensures ReachedAvoiding(m, ns, k, b.tree.Keys)
      {
        if k !in sub.tree {
          var z :| z in ns[1..] && ReachesAvoiding(m, z, k, sub.tree.Keys);
          AvoidingMonotone(m, z, k, b.tree.Keys, sub.tree.Keys);
        }
      }
    }
  }

  lemma RootBuilt(m: DepMap, p: Name, b: Build, sub: Build, requested: seq<Name>)
    requires p in requested
    requires forall k | k in b.tree :: LevelJustified(b.tree, k) && (b.tree[k].level == 0 ==> k in requested)
    requires Extends(b, sub)
    requires p in sub.tree && (p !in b.tree ==> sub.tree[p].level == 0)
    requires NewEntries(m, b, sub, p, 0)
    ensures forall k | k in sub.tree :: LevelJustified(sub.tree, k) && (sub.tree[k].level == 0 ==> k in requested)
  {
    forall k | k in sub.tree
      ensures LevelJustified(sub.tree, k) && (sub.tree[k].level == 0 ==> k in requested)
    {
      if k in b.tree && sub.tree[k].level != 0 {
        var q :| q in b.tree && k in b.tree[q].dependencies && b.tree[k].level == b.tree[q].level + 1;
        assert sub.tree[q] == b.tree[q];
      }
    }
  }

  lemma ExtendsTrans(b: Build, sub: Build, r: Build)
    requires Extends(b, sub) && Extends(sub, r)
    ensures Extends(b, r)
  {
    assert b.probed <= r.probed by {
      assert b.probed <= sub.probed && sub.probed <= r.probed;
    }
  }

  lemma RootsBuilt(m: DepMap, installed: Name -> bool, packages: seq<Name>, b: Build, sub: Build, r: Build, requested: seq<Name>)
    requires packages != []
    requires Extends(b, sub) && Extends(sub, r)
    requires packages[0] in sub.tree
    requires NewEntries(m, b, sub, packages[0], 0)
    requires forall p | p in packages[1..] :: p in r.tree
    requires forall k | k in r.tree && k !in sub.tree :: InWorkingSet(m, packages[1..], k)
    requires forall k | k in r.tree && k !in sub.tree :: forall y | Edge(m, k, y) :: y in r.tree
    ensures Extends(b, r)
    ensures forall p | p in packages :: p in r.tree
    ensures forall k | k in r.tree && k !in b.tree :: InWorkingSet(m, packages, k)
    ensures forall k | k in r.tree && k !in b.tree :: forall y | Edge(m, k, y) :: y in r.tree
  {
    ExtendsTrans(b, sub, r);
    RootsPresent(packages, sub, r);
    RootsEdges(m, packages[0], b, sub, r);
    RootsWorkingSet(m, packages, b, sub, r);
  }

  lemma RootsPresent(packages: seq<Name>, sub: Build, r: Build)
    requires packages != []
    requires Extends(sub, r) && packages[0] in sub.tree
    requires forall p | p in packages[1..] :: p in r.tree
    ensures forall p | p in packages :: p in r.tree
  {
    forall p | p in packages
      ensures p in r.tree
    {
      var i :| 0 <= i < |packages| && packages[i] == p;
      if i > 0 {
        assert packages[1..][i - 1] == p;
      }
    }
  }

  lemma RootsEdges(m: DepMap, p: Name, b: Build, sub: Build, r: Build)
    requires Extends(sub, r)
    requires NewEntries(m, b, sub, p, 0)
    requires forall k | k in r.tree && k !in sub.tree :: forall y | Edge(m, k, y) :: y in r.tree
    ensures forall k | k in r.tree && k !in b.tree :: forall y | Edge(m, k, y) :: y in r.tree
  {
    forall k, y | k in r.tree && k !in b.tree && Edge(m, k, y)
      ensures y in r.tree
    {
      if k in sub.tree {
        assert y in sub.tree;
      }
    }
  }

  lemma RootsWorkingSet(m: DepMap, packages: seq<Name>, b: Build, sub: Build, r: Build)
    requires packages != []
    requires NewEntries(m, b, sub, packages[0], 0)
    requires forall k | k in r.tree && k !in sub.tree :: InWorkingSet(m, packages[1..], k)
    ensures forall k | k in r.tree && k !in b.tree :: InWorkingSet(m, packages, k)
  {
    forall k | k in r.tree && k !in b.tree
      ensures InWorkingSet(m, packages, k)
    {
      if k in sub.tree {
        assert packages[0] in packages && ReachesStar(m, packages[0], k);
      } else {
        var q :| q in packages[1..] && ReachesStar(m, q, k);
        assert q in packages;
      }
    }
  }

  /**
   `buildDependencyTree(packages, dependencies)`: one node per requested
   package and per package reachable from one, and no other; each node
   describes its own key; the probe was called exactly once per node; a node
   at level 0 is a requested package, and any other node sits one level below
   some node that depends on it. Terminates on cyclic maps too.
   */
  function BuildDependencyTree(m: DepMap, installed: Name -> bool, packages: seq<Name>): (r: Build)
    ensures forall k :: k in r.tree <==> InWorkingSet(m, packages, k)
    ensures forall k | k in r.tree ::
      r.tree[k].name == k && r.tree[k].installed == installed(k) && r.tree[k].dependencies == Deps(m, k)
    ensures NoDup(r.probed) && Elems(r.probed) == r.tree.Keys
    ensures forall k | k in r.tree :: LevelJustified(r.tree, k) && (r.tree[k].level == 0 ==> k in packages)
  {
    var empty := Build(map[], []);
    assert Elems(empty.probed) == {};
    var r := BuildRoots(m, installed, packages, empty, packages);
    TreeCoversWorkingSet(m, packages, r.tree);
    r
  }

  /**
   A requested package that no requested package before it reaches is the
   root of its own walk and sits at level 0, whatever walks come after it.
   */
  lemma RequestedRootsAtZero(m: DepMap, installed: Name -> bool, packages: seq<Name>)
    ensures var t := BuildDependencyTree(m, installed, packages).tree;
      forall i | 0 <= i < |packages| && !InWorkingSet(m, packages[..i], packages[i]) ::
        packages[i] in t && t[packages[i]].level == 0
  {
    var empty := Build(map[], []);
    assert Elems(empty.probed) == {};
    var r := BuildRoots(m, installed, packages, empty, packages);
    assert BuildDependencyTree(m, installed, packages) == r;
    RootsAtZero(m, installed, packages, empty, packages);
    assert empty.tree.Keys == {};
    forall i | 0 <= i < |packages|
      ensures ReachedAvoiding(m, packages[..i], packages[i], {}) ==> InWorkingSet(m, packages[..i], packages[i])
    {
      AvoidingNothing(m, packages[..i], packages[i]);
    }
  }

  lemma TreeCoversWorkingSet(m: DepMap, packages: seq<Name>, tree: map<Name, DependencyNode>)
    requires forall p | p in packages :: p in tree
    requires forall k | k in tree :: InWorkingSet(m, packages, k)
    requires forall k | k in tree :: forall y | Edge(m, k, y) :: y in tree
    ensures forall k :: k in tree <==> InWorkingSet(m, packages, k)
  {
    assert ClosedUnderEdges(m, tree.Keys);
    forall k | InWorkingSet(m, packages, k)
      ensures k in tree
    {
      var p :| p in packages && ReachesStar(m, p, k);
      ClosedContainsReachable(m, tree.Keys, p, k);
    }
  }

  /** A depends on B and C, and B depends on C as well. */
  const Chain: DepMap := map["A" := ["B", "C"], "B" := ["C"]]

  /**
   The first visit fixes a node's level, whatever shorter paths exist: C is
   a direct dependency of the requested A, yet it is reached first through B
   and so sits at level 2, not 1.
   */
  lemma FirstVisitFixesLevel(installed: Name -> bool)
    ensures var t := BuildDependencyTree(Chain, installed, ["A"]).tree; "C" in t && t["C"].level == 2
  {
    SingleRoot(Chain, installed, "A");
    ChainFromA(installed);
  }

  /** Asking for one package builds the tree of that package's walk alone. */
  lemma SingleRoot(m: DepMap, installed: Name -> bool, p: Name)
    ensures var e := Build(map[], []);
      WellFormed(m, installed, e) && BuildDependencyTree(m, installed, [p]) == BuildNode(m, installed, p, 0, e)
  {
    var e := Build(map[], []);
    assert Elems(e.probed) == {};
    var r := BuildNode(m, installed, p, 0, e);
    assert [p][1..] == [];
    assert BuildRoots(m, installed, [p], e, [p]) == BuildRoots(m, installed, [], r, [p]) == r;
  }

  lemma ChainFromA(installed: Name -> bool)
    ensures var r := BuildNode(Chain, installed, "A", 0, Build(map[], [])); "C" in r.tree && r.tree["C"].level == 2
  {
    var m := Chain;
    var e := Build(map[], []);
    assert Elems(e.probed) == {};
    var bA := Build(map["A" := DependencyNode("A", installed("A"), ["B", "C"], 0)], ["A"]);
    assert e.tree["A" := DependencyNode("A", installed("A"), ["B", "C"], 0)] == bA.tree;
    CreateNode(m, installed, "A", 0, e, bA);
    var sC := ChainFromB(installed, bA);
    var r := BuildDeps(m, installed, ["C"], 1, sC, "A");
    assert ["B", "C"][1..] == ["C"];
    assert BuildDeps(m, installed, ["B", "C"], 1, bA, "A") == r;
  }

  lemma ChainFromB(installed: Name -> bool, bA: Build) returns (sC: Build)
    requires bA == Build(map["A" := DependencyNode("A", installed("A"), ["B", "C"], 0)], ["A"])
    requires WellFormed(Chain, installed, bA)
    ensures WellFormed(Chain, installed, sC) && "A" in sC.tree && sC.tree["A"] == bA.tree["A"]
    ensures BuildNode(Chain, installed, "B", 1, bA) == sC
    ensures "C" in sC.tree && sC.tree["C"].level == 2
  {
    var bB := ChainCreatesB(installed, bA);
    assert "A" in bA.tree;
    sC := ChainCreatesC(installed, bB);
    assert sC.tree["A"] == bB.tree["A"];
  }

  lemma ChainCreatesB(installed: Name -> bool, bA: Build) returns (bB: Build)
    requires bA == Build(map["A" := DependencyNode("A", installed("A"), ["B", "C"], 0)], ["A"])
    requires WellFormed(Chain, installed, bA)
    ensures WellFormed(Chain, installed, bB) && Extends(bA, bB)
    ensures "B" in bB.tree && bB.tree["B"].level == 1 && bB.tree["B"].dependencies == ["C"]
    ensures "C" !in bB.tree && Edge(Chain, "B", "C")
    ensures BuildNode(Chain, installed, "B", 1, bA) == BuildDeps(Chain, installed, ["C"], 2, bB, "B")
  {
    var m := Chain;
    assert Deps(m, "B") == ["C"];
    bB := Build(bA.tree["B" := DependencyNode("B", installed("B"), ["C"], 1)], ["A", "B"]);
    assert bA.probed + ["B"] == ["A", "B"];
    assert "B" !in bA.tree;
    CreateNode(m, installed, "B", 1, bA, bB);
    assert "C" in Deps(m, "B");
  }

  lemma ChainCreatesC(installed: Name -> bool, bB: Build) returns (sC: Build)
    requires WellFormed(Chain, installed, bB)
    requires "B" in bB.tree && bB.tree["B"].level == 1 && bB.tree["B"].dependencies == ["C"]
    requires "C" !in bB.tree && Edge(Chain, "B", "C")
    ensures WellFormed(Chain, installed, sC) && Extends(bB, sC)
    ensures BuildDeps(Chain, installed, ["C"], 2, bB, "B") == sC
    ensures "C" in sC.tree && sC.tree["C"].level == 2
  {
    sC := BuildNode(Chain, installed, "C", 2, bB);
    assert ["C"][1..] == [];
  }

  /** P depends on Q, X and V; Q depends back on P, and V on X. */
  const Loop: DepMap := map["P" := ["Q", "X", "V"], "Q" := ["P"], "V" := ["X"]]

  /**
   On a cyclic map, a walk that runs into a name already in the tree stops
   there: Q's walk meets P at once, so X is still absent at its turn in P's
   list and is created one level below P, not below V.
   */
  lemma LoopKeepsSiblingLevel(installed: Name -> bool)
    ensures var t := BuildDependencyTree(Loop, installed, ["P"]).tree; "X" in t && t["X"].level == 1
  {
    SingleRoot(Loop, installed, "P");
    var bP := LoopCreatesP(installed);
    LoopX(BuildNode(Loop, installed, "P", 0, Build(map[], [])), bP);
  }

  /** X is second in P's list, and the only earlier entry, Q, cannot reach it without passing P. */
  lemma LoopX(r: Build, bP: Build)
    requires bP.tree.Keys == {"P"}
    requires FirstReachedAt(Loop, ["Q", "X", "V"], bP, r, 1)
    ensures "X" in r.tree && r.tree["X"].level == 1
  {
    var ns := ["Q", "X", "V"];
    assert ns[..1] == ["Q"] && ns[1] == "X";
    QStopsAtP();
  }

  /** The tree right after P is created, and the level fact for P's dependency list. */
  lemma LoopCreatesP(installed: Name -> bool) returns (bP: Build)
    ensures bP.tree.Keys == {"P"}
    ensures WellFormed(Loop, installed, Build(map[], []))
    ensures FirstReachedAt(Loop, ["Q", "X", "V"], bP, BuildNode(Loop, installed, "P", 0, Build(map[], [])), 1)
  {
    var e := Build(map[], []);
    assert Elems(e.probed) == {};
    assert Deps(Loop, "P") == ["Q", "X", "V"];
    bP := Build(map["P" := DependencyNode("P", installed("P"), ["Q", "X", "V"], 0)], ["P"]);
    assert e.tree["P" := DependencyNode("P", installed("P"), ["Q", "X", "V"], 0)] == bP.tree;
    assert e.probed + ["P"] == ["P"];
    CreateNode(Loop, installed, "P", 0, e, bP);
    assert BuildNode(Loop, installed, "P", 0, e) == BuildDeps(Loop, installed, ["Q", "X", "V"], 1, bP, "P");
    DepsAtLevel(Loop, installed, ["Q", "X", "V"], 1, bP, "P");
  }

  /** Every walk from Q that avoids P is just Q. */
  lemma QStopsAtP()
    ensures !ReachedAvoiding(Loop, ["Q"], "X", {"P"})
  {
    forall w | Walk(Loop, w) && |w| >= 1 && w[0] == "Q" && (forall i | 0 <= i < |w| :: w[i] !in {"P"})
      ensures w[|w| - 1] == "Q"
    {
      QStepsToP(w);
    }
  }

  lemma QStepsToP(w: seq<Name>)
    ensures Walk(Loop, w) && |w| >= 2 && w[0] == "Q" ==> w[1] == "P"
  {
    assert Loop["Q"] == ["P"];
    if Walk(Loop, w) && |w| >= 2 {
      assert Edge(Loop, w[0], w[1]);
    }
  }
}
