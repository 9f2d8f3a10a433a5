/**
 The dependency graph the analyser works on. A dependency map sends a package
 name to the ordered list of the packages it needs installed first; a name
 without an entry has no declared dependencies. Every edge p -> d therefore
 starts at a key of the map.

 Reachability and cycles are stated with walks (lists of names, consecutive
 names joined by edges), which gives the proofs explicit witnesses.
 */
module DependencyGraph {
  type Name = string
  type DepMap = map<Name, seq<Name>>

  /** Direct dependencies of `p`: its declared list, or none when `p` has no entry. */
  function Deps(m: DepMap, p: Name): seq<Name> {
    if p in m then m[p] else []
  }

  /** `p` depends directly on `d`. */
  predicate Edge(m: DepMap, p: Name, d: Name) {
    p in m && d in m[p]
  }

  /** Every name the map mentions, as a key or as a dependency. */
  ghost function Nodes(m: DepMap): set<Name> {
    m.Keys + set p, d | p in m && d in m[p] :: d
  }

  lemma EdgeTargetIsNode(m: DepMap, p: Name, d: Name)
    requires Edge(m, p, d)
    ensures d in Nodes(m) && p in Nodes(m)
  {
  }

  /** Consecutive names of `w` are joined by edges. */
  ghost predicate Walk(m: DepMap, w: seq<Name>) {
    forall i | 0 <= i < |w| - 1 :: Edge(m, w[i], w[i + 1])
  }

  /** `b` is reachable from `a` by one or more edges. */
  ghost predicate Reaches(m: DepMap, a: Name, b: Name) {
    exists w :: Walk(m, w) && |w| >= 2 && w[0] == a && w[|w| - 1] == b
  }

  /** `b` is reachable from `a` by zero or more edges. */
  ghost predicate ReachesStar(m: DepMap, a: Name, b: Name) {
    a == b || Reaches(m, a, b)
  }

  /** A closed walk of at least one edge; a self-dependency is a cycle of length one. */
  ghost predicate IsCycle(m: DepMap, w: seq<Name>) {
    |w| >= 2 && Walk(m, w) && w[0] == w[|w| - 1]
  }

  ghost predicate HasCycle(m: DepMap) {
    exists w :: IsCycle(m, w)
  }

  /** `x` is a requested package or reachable from one: the working set of an installation. */
  ghost predicate InWorkingSet(m: DepMap, roots: seq<Name>, x: Name) {
    exists r :: r in roots && ReachesStar(m, r, x)
  }

  /** Every edge leaving a member of `s` ends in `s`. */
  ghost predicate ClosedUnderEdges(m: DepMap, s: set<Name>) {
    forall x, y | x in s && Edge(m, x, y) :: y in s
  }

  /** `b` is reachable from `a` by zero or more edges along names none of which, `a` and `b` included, is in `s`. */
  ghost predicate ReachesAvoiding(m: DepMap, a: Name, b: Name, s: set<Name>) {
    exists w :: Walk(m, w) && |w| >= 1 && w[0] == a && w[|w| - 1] == b && (forall i | 0 <= i < |w| :: w[i] !in s)
  }

  /** Some name of `roots` reaches `x` while avoiding `s`. */
  ghost predicate ReachedAvoiding(m: DepMap, roots: seq<Name>, x: Name, s: set<Name>) {
    exists r :: r in roots && ReachesAvoiding(m, r, x, s)
  }

  lemma AvoidingSelf(m: DepMap, a: Name, s: set<Name>)
    requires a !in s
    ensures ReachesAvoiding(m, a, a, s)
  {
    var w := [a];
    assert Walk(m, w) && w[|w| - 1] == a;
  }

  /** Prefixing an avoiding walk by an edge from a name outside `s`. */
  lemma AvoidingStep(m: DepMap, a: Name, b: Name, c: Name, s: set<Name>)
    requires a !in s && Edge(m, a, b) && ReachesAvoiding(m, b, c, s)
    ensures ReachesAvoiding(m, a, c, s)
  {
    var w :| Walk(m, w) && |w| >= 1 && w[0] == b && w[|w| - 1] == c && (forall i | 0 <= i < |w| :: w[i] !in s);
    var w' := [a] + w;
    assert Walk(m, w') by {
      forall i | 0 <= i < |w'| - 1
        ensures Edge(m, w'[i], w'[i + 1])
      {
        if i > 0 {
          assert w'[i] == w[i - 1] && w'[i + 1] == w[i];
        }
      }
    }
    assert forall i | 0 < i < |w'| :: w'[i] == w[i - 1];
    assert w'[0] == a && w'[|w'| - 1] == c;
  }

  /** Avoiding more names is harder. */
  lemma AvoidingMonotone(m: DepMap, a: Name, b: Name, s: set<Name>, s': set<Name>)
    requires s <= s' && ReachesAvoiding(m, a, b, s')
    ensures ReachesAvoiding(m, a, b, s)
  {
  }

  /** Avoiding nothing is plain reachability. */
  lemma AvoidingNothing(m: DepMap, roots: seq<Name>, x: Name)
    ensures ReachedAvoiding(m, roots, x, {}) ==> InWorkingSet(m, roots, x)
  {
    if ReachedAvoiding(m, roots, x, {}) {
      var r :| r in roots && ReachesAvoiding(m, r, x, {});
      var w :| Walk(m, w) && |w| >= 1 && w[0] == r && w[|w| - 1] == x;
      assert ReachesStar(m, r, x);
    }
  }

  lemma EdgeReaches(m: DepMap, a: Name, b: Name)
    requires Edge(m, a, b)
    ensures Reaches(m, a, b)
  {
    var w := [a, b];
    assert Walk(m, w);
  }

  /** Extending a path by one more edge. */
  lemma ReachesStep(m: DepMap, a: Name, b: Name, c: Name)
    requires ReachesStar(m, a, b) && Edge(m, b, c)
    ensures Reaches(m, a, c)
  {
    if a == b {
      EdgeReaches(m, a, c);
    } else {
      var w :| Walk(m, w) && |w| >= 2 && w[0] == a && w[|w| - 1] == b;
      var w' := w + [c];
      assert Walk(m, w') by {
        forall i | 0 <= i < |w'| - 1
          ensures Edge(m, w'[i], w'[i + 1])
        {
          if i < |w| - 1 {
            assert w'[i] == w[i] && w'[i + 1] == w[i + 1];
          }
        }
      }
      assert w'[0] == a && w'[|w'| - 1] == c;
    }
  }

  /** Prefixing a path by one more edge. */
  lemma StepReaches(m: DepMap, a: Name, b: Name, c: Name)
    requires Edge(m, a, b) && ReachesStar(m, b, c)
    ensures Reaches(m, a, c)
  {
    if b == c {
      EdgeReaches(m, a, c);
    } else {
      var w :| Walk(m, w) && |w| >= 2 && w[0] == b && w[|w| - 1] == c;
      var w' := [a] + w;
      assert Walk(m, w') by {
        forall i | 0 <= i < |w'| - 1
          ensures Edge(m, w'[i], w'[i + 1])
        {
          if i > 0 {
            assert w'[i] == w[i - 1] && w'[i + 1] == w[i];
          }
        }
      }
      assert w'[0] == a && w'[|w'| - 1] == c;
    }
  }

  lemma {:induction false} ReachesTrans(m: DepMap, a: Name, b: Name, c: Name)
    requires ReachesStar(m, a, b) && Reaches(m, b, c)
    ensures Reaches(m, a, c)
  {
    var w :| Walk(m, w) && |w| >= 2 && w[0] == b && w[|w| - 1] == c;
    WalkReaches(m, a, w);
  }

  lemma {:induction false} WalkReaches(m: DepMap, a: Name, w: seq<Name>)
    requires Walk(m, w) && |w| >= 2 && ReachesStar(m, a, w[0])
    ensures Reaches(m, a, w[|w| - 1])
    decreases |w|
  {
    assert Edge(m, w[|w| - 2], w[|w| - 1]);
    if |w| == 2 {
      ReachesStep(m, a, w[0], w[1]);
    } else {
      var u := w[..|w| - 1];
      assert Walk(m, u) by {
        forall i | 0 <= i < |u| - 1
          ensures Edge(m, u[i], u[i + 1])
        {
          assert u[i] == w[i] && u[i + 1] == w[i + 1];
        }
      }
      WalkReaches(m, a, u);
      ReachesStep(m, a, w[|w| - 2], w[|w| - 1]);
    }
  }

  /** A set closed under edges contains everything reachable from its members. */
  lemma {:induction false} ClosedContainsReachable(m: DepMap, s: set<Name>, a: Name, b: Name)
    requires ClosedUnderEdges(m, s) && a in s && ReachesStar(m, a, b)
    ensures b in s
  {
    if a != b {
      var w :| Walk(m, w) && |w| >= 2 && w[0] == a && w[|w| - 1] == b;
      var k := 0;
      while k < |w| - 1
        invariant 0 <= k < |w| && w[k] in s
      {
        assert Edge(m, w[k], w[k + 1]);
        k := k + 1;
      }
    }
  }

  /** A path that returns to its start closes a cycle. */
  lemma ReachesSelfIsCycle(m: DepMap, a: Name)
    requires Reaches(m, a, a)
    ensures HasCycle(m)
  {
    var w :| Walk(m, w) && |w| >= 2 && w[0] == a && w[|w| - 1] == a;
    assert IsCycle(m, w);
  }

  /** The working set contains everything reachable from its members. */
  lemma WorkingSetClosed(m: DepMap, roots: seq<Name>, x: Name, y: Name)
    requires InWorkingSet(m, roots, x) && ReachesStar(m, x, y)
    ensures InWorkingSet(m, roots, y)
  {
    var r :| r in roots && ReachesStar(m, r, x);
    if x != y {
      ReachesTrans(m, r, x, y);
      assert ReachesStar(m, r, y);
    }
  }
}
