/**
 The installation screen's main loop (`performInstallation`, which
 `startInstall` calls after setting `isInstalling`, from the dependency
 analysis on). An empty installation order stops the run as a
 failed dependency analysis; an undetected package manager stops it before
 any package is processed. Otherwise the packages are taken in order; before
 each one the screen's `isInstalling` flag is consulted, and a cleared flag
 ends the run as cancelled. Each processed package moves the progress bar to
 `(installedCount * 100) / totalPackages`, and a run that gets through the
 whole order sets the bar to 100 and reports success.

 The flag is cleared only by the Cancel button's handler. The loop runs on
 the GUI thread and processes no events, so as written every check reads the
 flag `startInstall` set. The model does not rely on that: the value each
 check reads is a parameter, `stillInstalling(k)` for the check before the
 package at position `k`, and every property holds for every such function.
 */
module InstallLoop {
  import opened DependencyGraph
  import InstallationOrder

  datatype Stage = DependencyAnalysis | PackageManagerDetection

  datatype Outcome = Failed(stage: Stage) | Cancelled | Completed

  /**
   What a run leaves behind: how it ended, the packages it processed in
   order, and the values written to the progress bar, in order.
   */
  datatype InstallRun = InstallRun(outcome: Outcome, processed: seq<Name>, progress: seq<int>)

  /**
   `(installedCount * 100) / totalPackages`: the percentage rounded down, the
   largest whole number of hundredths of `totalPackages` that fit in
   `installedCount`. Both operands are non-negative, so C++'s truncating
   division agrees with Dafny's.
   */
  function Progress(installedCount: nat, totalPackages: nat): (percent: int)
    requires totalPackages > 0
    ensures percent >= 0
    ensures percent * totalPackages <= installedCount * 100 < (percent + 1) * totalPackages
  {
    var q := (installedCount * 100) / totalPackages;
    var rem := (installedCount * 100) % totalPackages;
    assert installedCount * 100 == q * totalPackages + rem && 0 <= rem < totalPackages;
    q
  }

  /** After the `installedCount`-th of `totalPackages` packages the bar shows a percentage. */
  lemma ProgressBounds(installedCount: nat, totalPackages: nat)
    requires 0 < installedCount <= totalPackages
    ensures 0 <= Progress(installedCount, totalPackages) <= 100
    ensures installedCount == totalPackages ==> Progress(installedCount, totalPackages) == 100
  {
    var x := installedCount * 100;
    var q := x / totalPackages;
    assert x == q * totalPackages + x % totalPackages && 0 <= x % totalPackages < totalPackages;
    assert x <= 100 * totalPackages by {
      MulLeft(installedCount, totalPackages, 100);
    }
    assert q * totalPackages < 101 * totalPackages;
    MulCancel(q, 101, totalPackages);
    if installedCount == totalPackages {
      assert 99 * totalPackages < q * totalPackages;
      MulCancel(99, q, totalPackages);
    }
  }

  lemma MulLeft(a: nat, b: nat, c: nat)
    requires a <= b
    ensures a * c <= c * b
  {
  }

  /** The bar never moves backwards. */
  lemma {:induction false} ProgressMonotone(a: nat, b: nat, totalPackages: nat)
    requires a <= b && totalPackages > 0
    ensures Progress(a, totalPackages) <= Progress(b, totalPackages)
  {
    var q := Progress(a, totalPackages);
    assert q * totalPackages <= a * 100 by {
      assert a * 100 == q * totalPackages + (a * 100) % totalPackages;
    }
    assert a * 100 <= b * 100;
    DivLowerBound(b * 100, totalPackages, q);
  }

  lemma DivLowerBound(x: nat, n: nat, q: nat)
    requires n > 0 && q * n <= x
    ensures q <= x / n
  {
    var d := x / n;
    assert x == d * n + x % n && x % n < n;
    assert q * n < (d + 1) * n;
    MulCancel(q, d + 1, n);
  }

  lemma MulCancel(a: int, b: int, n: int)
    requires n > 0 && a * n < b * n
    ensures a < b
  {
    assert (b - a) * n > 0;
  }

  /** With at most 100 packages every processed package moves the bar to at least 1%. */
  lemma ProgressPositive(installedCount: nat, totalPackages: nat)
    requires 0 < installedCount <= totalPackages <= 100
    ensures Progress(installedCount, totalPackages) >= 1
  {
    assert installedCount * 100 >= totalPackages;
  }

  /** With more than 100 packages the first one leaves the bar at 0%. */
  lemma ProgressCanStayAtZero()
    ensures Progress(1, 101) == 0
  {
  }

  /** The first position whose check reads a cleared flag, or `|order|` if there is none. */
  function CancelPoint(order: seq<Name>, stillInstalling: nat -> bool, k: nat): (c: nat)
    requires k <= |order|
    ensures k <= c <= |order|
    ensures forall i | k <= i < c :: stillInstalling(i)
    ensures c < |order| ==> !stillInstalling(c)
    decreases |order| - k
  {
    if k == |order| || !stillInstalling(k) then k
    else CancelPoint(order, stillInstalling, k + 1)
  }

  /**
   The loop and the checks before it, given the installation order, whether a
   package manager was detected, and the flag's value at each check.
   */
  method RunInstallation(order: seq<Name>, managerDetected: bool, stillInstalling: nat -> bool)
    returns (run: InstallRun)
    ensures order == [] ==> run == InstallRun(Failed(DependencyAnalysis), [], [])
    ensures order != [] && !managerDetected ==> run == InstallRun(Failed(PackageManagerDetection), [], [])
    ensures order != [] && managerDetected ==>
      && !run.outcome.Failed?
      && run.processed <= order
      && (forall i | 0 <= i < |run.processed| :: stillInstalling(i))
      && (run.outcome == Completed <==> run.processed == order)
      && (run.outcome == Cancelled ==> !stillInstalling(|run.processed|))
      && |run.progress| == |run.processed| + (if run.outcome == Completed then 1 else 0)
      && (forall i | 0 <= i < |run.processed| :: run.progress[i] == Progress(i + 1, |order|))
      && (forall i | 0 <= i < |run.progress| :: 0 <= run.progress[i] <= 100)
      && (forall i, j | 0 <= i <= j < |run.progress| :: run.progress[i] <= run.progress[j])
      && (run.outcome == Completed ==> run.progress[|run.progress| - 1] == 100)
  {
    if order == [] {
      return InstallRun(Failed(DependencyAnalysis), [], []);
    }
    if !managerDetected {
      return InstallRun(Failed(PackageManagerDetection), [], []);
    }
    var totalPackages := |order|;
    var installedCount := 0;
    var progress: seq<int> := [];
    while installedCount < totalPackages
      invariant 0 <= installedCount <= totalPackages
      invariant forall i | 0 <= i < installedCount :: stillInstalling(i)
      invariant |progress| == installedCount
      invariant forall i | 0 <= i < installedCount :: progress[i] == Progress(i + 1, totalPackages)
      invariant forall i | 0 <= i < installedCount :: 0 <= progress[i] <= 100
      invariant forall i, j | 0 <= i <= j < installedCount :: progress[i] <= progress[j]
    {
      if !stillInstalling(installedCount) {
        return InstallRun(Cancelled, order[..installedCount], progress);
      }
      installedCount := installedCount + 1;
      var p := Progress(installedCount, totalPackages);
      ProgressBounds(installedCount, totalPackages);
      forall i | 0 <= i < |progress|
        ensures progress[i] <= p
      {
        ProgressMonotone(i + 1, installedCount, totalPackages);
      }
      progress := progress + [p];
    }
    assert order[..installedCount] == order;
    return InstallRun(Completed, order, progress + [100]);
  }

  /** A run is cancelled exactly when some check before a package reads a cleared flag, at the first such package. */
  lemma CancelledAtFirstClearedFlag(order: seq<Name>, stillInstalling: nat -> bool, run: InstallRun)
    requires order != []
    requires !run.outcome.Failed? && run.processed <= order
    requires forall i | 0 <= i < |run.processed| :: stillInstalling(i)
    requires run.outcome == Completed <==> run.processed == order
    requires run.outcome == Cancelled ==> !stillInstalling(|run.processed|)
    ensures |run.processed| == CancelPoint(order, stillInstalling, 0)
    ensures run.outcome == Cancelled <==> exists i | 0 <= i < |order| :: !stillInstalling(i)
  {
    var c := CancelPoint(order, stillInstalling, 0);
    if run.outcome == Completed {
      assert |run.processed| == |order|;
    }
  }

  /** A list with no members is empty (stated positively, for use where the empty case is the one at hand). */
  lemma HeadIsMember(s: seq<Name>)
    ensures |s| > 0 ==> s[0] in s
  {
  }

  /**
   The whole run from the requested packages: the order is the one
   `getInstallationOrder` computes. A map with a cycle, or an empty request,
   fails the dependency analysis before any package is processed; otherwise
   the processed packages are the start of a valid installation order.
   */
  method Install(m: DepMap, packages: seq<Name>, managerDetected: bool, stillInstalling: nat -> bool)
    returns (run: InstallRun)
    ensures run.outcome == Failed(DependencyAnalysis) <==> HasCycle(m) || packages == []
    ensures run.outcome.Failed? ==> run.processed == [] && run.progress == []
    ensures !run.outcome.Failed? ==>
      && (forall x | x in run.processed :: InWorkingSet(m, packages, x))
      && (forall i, d | 0 <= i < |run.processed| && Edge(m, run.processed[i], d) :: d in run.processed[..i])
    ensures run.outcome == Completed ==> forall x | InWorkingSet(m, packages, x) :: x in run.processed
  {
    var order := InstallationOrder.GetInstallationOrder(m, packages);
    if !HasCycle(m) && packages != [] {
      assert packages[0] in packages && ReachesStar(m, packages[0], packages[0]);
      assert InWorkingSet(m, packages, packages[0]);
    }
    if packages == [] {
      assert forall x :: !InWorkingSet(m, packages, x);
      HeadIsMember(order);
    }
    run := RunInstallation(order, managerDetected, stillInstalling);
    if !run.outcome.Failed? {
      forall i, d | 0 <= i < |run.processed| && Edge(m, run.processed[i], d)
        ensures d in run.processed[..i]
      {
        assert run.processed[i] == order[i] && run.processed[..i] == order[..i];
      }
    }
  }
}
