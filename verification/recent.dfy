/**
 The welcome screen's list of recently chosen package files
 (`onSelectPackageClicked`): the chosen path moves to the front, any earlier
 occurrence of it is dropped, and the list is cut back to ten entries by
 removing its last one. Cancelling the file dialog gives an empty path,
 which leaves the stored list alone.
 */
module RecentPackages {
  import opened Seqs

  /** The list keeps at most this many paths. */
  const RecentLimit: nat := 10

  /** The stored list after the user picks `fileName`. */
  function UpdateRecent(recent: seq<string>, fileName: string): (r: seq<string>)
    ensures fileName == "" ==> r == recent
    ensures fileName != "" ==>
      && |r| > 0 && r[0] == fileName && fileName !in r[1..] && Count(r, fileName) == 1
      && r[1..] <= RemoveAll(recent, fileName)
      && |RemoveAll(recent, fileName)| <= |r[1..]| + 1
    ensures fileName != "" && |recent| <= RecentLimit ==> |r| <= RecentLimit
    ensures NoDup(recent) ==> NoDup(r)
  {
    if fileName == "" then recent
    else
      var rest := RemoveAll(recent, fileName);
      var moved := [fileName] + rest;
      assert moved[1..] == rest;
      if |moved| > RecentLimit then
        var r := moved[..|moved| - 1];
        assert r[1..] == rest[..|rest| - 1];
        assert r == [fileName] + rest[..|rest| - 1];
        CountFront(fileName, rest[..|rest| - 1]);
        FrontNoDup(fileName, rest[..|rest| - 1], recent);
        r
      else
        FrontNoDup(fileName, rest, recent);
        CountFront(fileName, rest);
        moved
  }

  /** Putting a path in front of a duplicate-free list that lacks it keeps the list duplicate-free. */
  lemma FrontNoDup(f: string, rest: seq<string>, recent: seq<string>)
    requires f !in rest
    requires NoDup(recent) ==> NoDup(rest)
    ensures NoDup(recent) ==> NoDup([f] + rest)
  {
    if NoDup(recent) {
      var s := [f] + rest;
      forall i, j | 0 <= i < j < |s|
        ensures s[i] != s[j]
      {
        assert s[j] == rest[j - 1];
        if i > 0 {
          assert s[i] == rest[i - 1];
        }
      }
    }
  }

  lemma CountFront(f: string, rest: seq<string>)
    requires f !in rest
    ensures Count([f] + rest, f) == 1
  {
    assert multiset([f] + rest) == multiset{f} + multiset(rest);
  }

  /** A list the screen can have stored: at most ten paths, none twice. */
  predicate WellKept(recent: seq<string>) {
    |recent| <= RecentLimit && NoDup(recent)
  }

  /** Every pick keeps the stored list well kept. */
  lemma UpdateKeepsWellKept(recent: seq<string>, fileName: string)
    requires WellKept(recent)
    ensures WellKept(UpdateRecent(recent, fileName))
  {
  }

  /** Picking the same file twice in a row stores the same list as picking it once. */
  lemma {:induction false} UpdateIdempotent(recent: seq<string>, fileName: string)
    requires |recent| <= RecentLimit
    ensures UpdateRecent(UpdateRecent(recent, fileName), fileName) == UpdateRecent(recent, fileName)
  {
    if fileName != "" {
      var r := UpdateRecent(recent, fileName);
      assert r == [fileName] + r[1..];
      RemoveAllFront(fileName, r[1..]);
    }
  }

  /** Removing `f` from a list with `f` in front and nowhere else leaves the rest. */
  lemma RemoveAllFront(f: string, rest: seq<string>)
    requires f !in rest
    ensures RemoveAll([f] + rest, f) == rest
  {
    var s := [f] + rest;
    assert s[0] == f && s[1..] == rest;
    assert RemoveAll(rest, f) == rest;
  }

  /**
   A stored path other than the pick is only ever lost as the last entry of
   a full list that did not already hold the pick.
   */
  lemma {:induction false} OthersSurvive(recent: seq<string>, fileName: string, g: string)
    requires fileName != "" && |recent| <= RecentLimit && NoDup(recent)
    requires g in recent && g != fileName
    requires fileName in recent || g != recent[|recent| - 1] || |recent| < RecentLimit
    ensures g in UpdateRecent(recent, fileName)
  {
    var rest := RemoveAll(recent, fileName);
    var r := UpdateRecent(recent, fileName);
    assert g in rest;
    if fileName in recent {
      RemovePresentShortens(recent, fileName);
      assert r[1..] == rest;
    } else if |recent| < RecentLimit {
      assert r[1..] == rest;
    } else {
      assert rest == recent;
      var i :| 0 <= i < |recent| && recent[i] == g;
      assert i < |recent| - 1;
      assert r[1..] == recent[..|recent| - 1];
      assert r[1..][i] == g;
    }
  }

  lemma RemovePresentShortens(s: seq<string>, x: string)
    requires x in s
    ensures |RemoveAll(s, x)| < |s|
  {
    var rest := RemoveAll(s, x);
    assert multiset(rest)[x] == 0 < multiset(s)[x];
    MultisetSmaller(rest, s, x);
  }

  lemma MultisetSmaller(a: seq<string>, b: seq<string>, x: string)
    requires multiset(a)[x] < multiset(b)[x]
    requires forall y | y != x :: multiset(a)[y] <= multiset(b)[y]
    ensures |a| < |b|
  {
    assert multiset(a) <= multiset(b);
    assert multiset(a) != multiset(b);
    assert |multiset(a)| < |multiset(b)| by {
      var d := multiset(b) - multiset(a);
      assert multiset(b) == multiset(a) + d;
      assert x in d;
    }
  }
}
