/**
 Sequence helpers shared by the installer and downloader models: the set of
 elements of a list, duplicate-freedom, order-preserving filtering (Qt's
 `removeAll`, JavaScript's `Array.prototype.filter`) and subsequences.
 */
module Seqs {

  /** The set of elements of a list. */
  function Elems<T>(s: seq<T>): set<T> {
    set x | x in s
  }

  /** No element occurs twice. */
  predicate NoDup<T(==)>(s: seq<T>) {
    forall i, j | 0 <= i < j < |s| :: s[i] != s[j]
  }

  /** `a` is obtained from `b` by deleting elements, keeping the order of the rest. */
  ghost predicate Subseq<T>(a: seq<T>, b: seq<T>)
    decreases |b|
  {
    if a == [] then true
    else if b == [] then false
    else (a[0] == b[0] && Subseq(a[1..], b[1..])) || Subseq(a, b[1..])
  }

  /** `s.filter(keep)`: the elements satisfying `keep`, in order. */
  function Filter<T>(s: seq<T>, keep: T -> bool): seq<T>
    decreases |s|
  {
    if s == [] then []
    else (if keep(s[0]) then [s[0]] else []) + Filter(s[1..], keep)
  }

  /** The filter keeps, in order, exactly the elements satisfying `keep`, each as often as in `s`. */
  lemma FilterSpec<T(!new)>(s: seq<T>, keep: T -> bool)
    ensures var r := Filter(s, keep);
      && (forall i | 0 <= i < |r| :: keep(r[i]))
      && (forall x :: x in r <==> x in s && keep(x))
      && (forall x | keep(x) :: multiset(r)[x] == multiset(s)[x])
      && Subseq(r, s)
      && |r| <= |s|
  {
    FilterMembers(s, keep);
    var r := Filter(s, keep);
    assert forall i | 0 <= i < |r| :: r[i] in r;
    FilterCounts(s, keep);
    FilterSubseq(s, keep);
  }

  lemma {:induction false} FilterMembers<T(!new)>(s: seq<T>, keep: T -> bool)
    ensures forall x :: x in Filter(s, keep) <==> x in s && keep(x)
    decreases |s|
  {
    if s != [] {
      FilterMembers(s[1..], keep);
      assert s == [s[0]] + s[1..];
    }
  }

  lemma {:induction false} FilterCounts<T(!new)>(s: seq<T>, keep: T -> bool)
    ensures forall x | keep(x) :: multiset(Filter(s, keep))[x] == multiset(s)[x]
    decreases |s|
  {
    if s != [] {
      FilterCounts(s[1..], keep);
      assert s == [s[0]] + s[1..];
      assert multiset(s) == multiset{s[0]} + multiset(s[1..]);
      var head := if keep(s[0]) then [s[0]] else [];
      assert multiset(Filter(s, keep)) == multiset(head) + multiset(Filter(s[1..], keep));
    }
  }

  lemma {:induction false} FilterSubseq<T>(s: seq<T>, keep: T -> bool)
    ensures Subseq(Filter(s, keep), s) && |Filter(s, keep)| <= |s|
    decreases |s|
  {
    if s != [] {
      FilterSubseq(s[1..], keep);
      var rest := Filter(s[1..], keep);
      if keep(s[0]) {
        assert Filter(s, keep) == [s[0]] + rest;
        assert ([s[0]] + rest)[1..] == rest;
      } else {
        assert Filter(s, keep) == rest;
        if rest != [] {
          assert Subseq(rest, s) by {
            assert Subseq(rest, s[1..]);
          }
        }
      }
    }
  }

  /** Removes every occurrence of `x`: Qt's `QStringList::removeAll`, or `filter(p => p !== x)`. */
  function RemoveAll<T(==,!new)>(s: seq<T>, x: T): (r: seq<T>)
    ensures x !in r
    ensures forall y | y != x :: multiset(r)[y] == multiset(s)[y]
    ensures forall y :: y in r <==> y in s && y != x
    ensures Subseq(r, s)
    ensures |r| <= |s|
    ensures x !in s ==> r == s
    ensures NoDup(s) ==> NoDup(r)
  {
    var keep := Unequal(x);
    FilterSpec(s, keep);
    if x !in s then
      FilterKeepsAll(s, keep);
      Filter(s, keep)
    else if NoDup(s) then
      FilterKeepsDistinct(s, keep, Identity);
      Filter(s, keep)
    else Filter(s, keep)
  }

  /** The test `y => y !== x`. */
  function Unequal<T(==)>(x: T): T -> bool {
    y => y != x
  }

  function Identity<T>(x: T): T {
    x
  }

  /** Filtering with a predicate every element satisfies changes nothing. */
  lemma {:induction false} FilterKeepsAll<T(!new)>(s: seq<T>, keep: T -> bool)
    requires forall i | 0 <= i < |s| :: keep(s[i])
    ensures Filter(s, keep) == s
    decreases |s|
  {
    if s != [] {
      FilterKeepsAll(s[1..], keep);
      assert s == [s[0]] + s[1..];
    }
  }

  /** Filtering distributes over concatenation. */
  lemma {:induction false} FilterAppend<T>(a: seq<T>, b: seq<T>, keep: T -> bool)
    ensures Filter(a + b, keep) == Filter(a, keep) + Filter(b, keep)
    decreases |a|
  {
    if a == [] {
      assert a + b == b;
    } else {
      var c := a + b;
      var head := if keep(a[0]) then [a[0]] else [];
      assert c != [] && c[0] == a[0] && c[1..] == a[1..] + b;
      assert Filter(c, keep) == head + Filter(a[1..] + b, keep);
      FilterAppend(a[1..], b, keep);
      assert Filter(a, keep) == head + Filter(a[1..], keep);
      assert head + (Filter(a[1..], keep) + Filter(b, keep)) == (head + Filter(a[1..], keep)) + Filter(b, keep);
    }
  }

  /** No two elements share a key. */
  ghost predicate DistinctKeys<T, K>(s: seq<T>, key: T -> K) {
    forall i, j | 0 <= i < j < |s| :: key(s[i]) != key(s[j])
  }

  /** Filtering keeps distinct keys distinct. */
  lemma {:induction false} FilterKeepsDistinct<T(!new), K>(s: seq<T>, keep: T -> bool, key: T -> K)
    requires DistinctKeys(s, key)
    ensures DistinctKeys(Filter(s, keep), key)
    decreases |s|
  {
    if s != [] {
      var tail := s[1..];
      assert DistinctKeys(tail, key) by {
        forall i, j | 0 <= i < j < |tail|
          ensures key(tail[i]) != key(tail[j])
        {
          assert tail[i] == s[i + 1] && tail[j] == s[j + 1];
        }
      }
      FilterKeepsDistinct(tail, keep, key);
      FilterSpec(tail, keep);
      var rest := Filter(tail, keep);
      if keep(s[0]) {
        forall k | 0 <= k < |rest|
          ensures key(rest[k]) != key(s[0])
        {
          assert rest[k] in tail;
          var j :| 0 <= j < |tail| && tail[j] == rest[k];
          assert tail[j] == s[j + 1];
        }
        KeyDistinctCons(s[0], rest, key);
        assert Filter(s, keep) == [s[0]] + rest;
      } else {
        assert Filter(s, keep) == rest;
      }
    }
  }

  lemma KeyDistinctCons<T, K>(x: T, rest: seq<T>, key: T -> K)
    requires forall k | 0 <= k < |rest| :: key(rest[k]) != key(x)
    requires DistinctKeys(rest, key)
    ensures DistinctKeys([x] + rest, key)
  {
    var r := [x] + rest;
    forall i, j | 0 <= i < j < |r|
      ensures key(r[i]) != key(r[j])
    {
      assert r[j] == rest[j - 1];
      if i > 0 {
        assert r[i] == rest[i - 1];
      }
    }
  }

  /** Number of occurrences of `x` in `s`. */
  function Count<T(==)>(s: seq<T>, x: T): nat {
    multiset(s)[x]
  }

  lemma {:induction false} SubsetCard<T>(a: set<T>, b: set<T>)
    requires a <= b
    ensures |a| <= |b|
    decreases |a|
  {
    if a != {} {
      var x :| x in a;
      SubsetCard(a - {x}, b - {x});
    }
  }

  /** Visiting one more node of the universe `u` shrinks the set of unvisited ones. */
  lemma UnvisitedShrinks<T>(u: set<T>, visited: set<T>, n: T)
    requires n !in visited
    ensures |u - (visited + {n})| < |u + {n} - visited|
  {
    assert u + {n} - visited == (u - (visited + {n})) + {n};
  }

  /** Visiting more nodes never grows the set of unvisited ones. */
  lemma UnvisitedMonotone<T>(u: set<T>, visited: set<T>, visited': set<T>)
    requires visited <= visited'
    ensures |u - visited'| <= |u - visited|
  {
    SubsetCard(u - visited', u - visited);
  }

  /** Position of the first occurrence of `x` in `s`. */
  function FirstIndex<T(==)>(s: seq<T>, x: T): (i: nat)
    requires x in s
    ensures i < |s| && s[i] == x && x !in s[..i]
  {
    if s[0] == x then 0
    else
      assert s == [s[0]] + s[1..];
      var j := FirstIndex(s[1..], x);
      assert s[..j + 1] == [s[0]] + s[1..][..j];
      j + 1
  }

  /** Appending never moves the first occurrence of an element already present. */
  lemma FirstIndexAppend<T>(s: seq<T>, x: T, y: T)
    requires y in s
    ensures y in s + [x] && FirstIndex(s + [x], y) == FirstIndex(s, y)
  {
    var i := FirstIndex(s, y);
    var j := FirstIndex(s + [x], y);
    assert (s + [x])[..i] == s[..i];
    assert (s + [x])[i] == y;
    assert forall k | 0 <= k < j :: (s + [x])[..j][k] == (s + [x])[k];
    assert j <= i;
    assert forall k | 0 <= k < i :: s[..i][k] == s[k];
    assert (s + [x])[j] == s[j];
  }

  /**
   The elements of `s` in order of first occurrence, each once: the order of a
   JavaScript `Set` built by inserting the elements of `s` one by one (`[...new Set(s)]`),
   where inserting an element already present changes nothing.
   */
  function InsertionOrder<T(==,!new)>(s: seq<T>): (r: seq<T>)
    ensures NoDup(r)
    ensures forall x :: x in r <==> x in s
    ensures forall i, j | 0 <= i < j < |r| :: FirstIndex(s, r[i]) < FirstIndex(s, r[j])
    decreases |s|
  {
    if s == [] then []
    else
      var init := s[..|s| - 1];
      var x := s[|s| - 1];
      assert s == init + [x];
      var r := InsertionOrder(init);
      forall y | y in init
        ensures FirstIndex(s, y) == FirstIndex(init, y) < |init|
      {
        FirstIndexAppend(init, x, y);
      }
      if x in r then r
      else
        var r' := r + [x];
        assert FirstIndex(s, x) == |init|;
        assert forall i | 0 <= i < |r| :: r'[i] == r[i] && r[i] in init;
        r'
  }

  /** A list without duplicates is its own insertion order. */
  lemma {:induction false} InsertionOrderNoDup<T(!new)>(s: seq<T>)
    requires NoDup(s)
    ensures InsertionOrder(s) == s
    decreases |s|
  {
    if s != [] {
      var init := s[..|s| - 1];
      assert s == init + [s[|s| - 1]];
      assert NoDup(init) by {
        forall i, j | 0 <= i < j < |init|
          ensures init[i] != init[j]
        {
          assert init[i] == s[i] && init[j] == s[j];
        }
      }
      InsertionOrderNoDup(init);
      assert s[|s| - 1] !in init;
    }
  }
}
