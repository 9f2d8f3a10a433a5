# Kylin software installer and downloader: a Dafny model of the core

This project models the logic at the heart of two companion tools. The
installer is a Qt application that installs an offline bundle of packages.
The downloader is a React Native app that assembles such bundles.

The model covers four pieces:

- **The dependency analyser** (`dependencyanalyzer.cpp`). It runs four
  depth-first traversals over a dependency map from package names to lists
  of package names:
  - cycle detection;
  - the recursive dependency listing;
  - the installation order, a post-order topological sort;
  - the annotated dependency tree. The tree builder's "is this package
    installed" probe is a function parameter.
- **The downloader's state reducer** (`downloadReducer`) and the guard in
  its `updateSource` helper.
- **The welcome screen's recent-files update.** It keeps a most-recently-used
  list of at most ten paths.
- **The installation screen's loop bookkeeping.** This covers the early
  failures, the cancel check before each package, and the progress
  percentage.

Files:

| file | module | what it holds |
|---|---|---|
| `seqs.dfy` | `Seqs` | list helpers: element sets, duplicate-freedom, order-preserving filter, `removeAll`, insertion-ordered dedup |
| `graph.dfy` | `DependencyGraph` | the dependency map, edges, walks, reachability, cycles, the working set |
| `cycle.dfy` | `CycleDetection` | `hasCyclicDependency` and its helper |
| `closure.dfy` | `TransitiveClosure` | `getAllDependencies` |
| `order.dfy` | `InstallationOrder` | `getInstallationOrder` and `topologicalSortHelper` |
| `tree.dfy` | `DependencyTree` | `buildDependencyTree` and `DependencyNode` |
| `download.dfy` | `DownloadReducer` | the downloader's state, actions, reducer and `updateSource` |
| `recent.dfy` | `RecentPackages` | the recent-files list update |
| `install.dfy` | `InstallLoop` | the installation loop |

`hasCyclicDependency` takes the roots from `QMap::keys()`, which lists the
keys in ascending order. Its answer does not depend on that order, so the
model picks each root with Dafny's `:|` and proves the answer for every
order. `getInstallationOrder` takes its roots from a `QSet`, whose iteration
order is unspecified, and the model proves its properties for every order in
the same way.

Where the code does something other than what its names and comments
suggest, the model follows the code:

- `hasCyclicDependency` searches from every key of the map. A cycle among
  packages nobody requested therefore still makes `getInstallationOrder`
  return the empty list.
- `getAllDependencies` appends each dependency before its recursive call
  checks `visited`. The result is a list that may hold duplicates; only its
  set of elements is the reachable set. `DiamondListsSharedDependencyTwice`
  shows a case.
- The requested packages are not sorted in the order they were given. The
  working set is collected into a `QSet` first, so any root order is
  possible.
- In `buildDependencyTree`, a node's level is the depth at which the walk
  first meets it, not its shortest distance from a requested package.
  `FirstVisitFixesLevel` shows a case.
- The progress percentage `(installedCount * 100) / totalPackages` is at
  least 1 after every package only when there are at most 100 packages.
  With 101 packages the first one leaves the bar at 0
  (`ProgressCanStayAtZero`).

## Model

| member | source | states |
|---|---|---|
| CycleDetection.HasCyclicDependency | kylin-software-installer/src/dependencyanalyzer.cpp:91-104 | The answer is true exactly when the dependency map has a cycle (self-loops included), whatever order the keys are searched in. |
| CycleDetection.Visit | kylin-software-installer/src/dependencyanalyzer.cpp:142-163 | The helper only grows `visited`. A reported cycle exists. When none is reported, the node and everything finished under it lie on no cycle. |
| CycleDetection.VisitDeps | kylin-software-installer/src/dependencyanalyzer.cpp:149-159 | The neighbour loop only grows `visited`. A reported cycle exists. Without one, every neighbour is finished and no finished node lies on a cycle. |
| CycleDetection.BackEdgeIsCycle | kylin-software-installer/src/dependencyanalyzer.cpp:155-157 | A dependency of the current node that is on the recursion stack closes a cycle. |
| CycleDetection.FinishNode | kylin-software-installer/src/dependencyanalyzer.cpp:161-162 | A node whose dependencies are all finished lies on no cycle once it leaves the stack. |
| CycleDetection.FinishedKeysAcyclic | kylin-software-installer/src/dependencyanalyzer.cpp:95-103 | Once every key is finished without a back edge, the map has no cycle. |
| TransitiveClosure.Dfs | kylin-software-installer/src/dependencyanalyzer.cpp:73-85 | A visited package is a no-op. Otherwise every newly visited node is reachable from the package and has its dependencies visited. The result gains exactly the dependencies of the newly visited nodes. |
| TransitiveClosure.DfsDeps | kylin-software-installer/src/dependencyanalyzer.cpp:79-84 | Every listed dependency ends up visited and appended. Newly visited nodes are reachable from the parent in one or more steps. |
| TransitiveClosure.GetAllDependencies | kylin-software-installer/src/dependencyanalyzer.cpp:68-89 | A name is in the result exactly when it is reachable from the package by one or more edges. On an acyclic map the package itself is not listed. Terminates on any map. |
| TransitiveClosure.ListingClosed | kylin-software-installer/src/dependencyanalyzer.cpp:68-89 | The listing of any name in a package's listing is contained in the package's listing. |
| TransitiveClosure.ListingIsReachable | kylin-software-installer/src/dependencyanalyzer.cpp:70-88 | The dependencies of a visited set that is closed under edges are exactly the names reachable in one or more steps. |
| TransitiveClosure.DiamondListsSharedDependencyTwice | kylin-software-installer/src/dependencyanalyzer.cpp:80-83 | With A depending on B and C, and both on D, the listing from A is B, D, C, D: D appears once per edge into it. |
| InstallationOrder.TopoVisit | kylin-software-installer/src/dependencyanalyzer.cpp:165-180 | On an acyclic map the sort lists exactly the nodes it newly visits, all reachable from the node. It appends the node last and keeps the list duplicate-free with dependencies first. |
| InstallationOrder.TopoDeps | kylin-software-installer/src/dependencyanalyzer.cpp:171-177 | After the neighbour loop every dependency of the node is listed, and the listing invariants hold. |
| InstallationOrder.VisitedChildListed | kylin-software-installer/src/dependencyanalyzer.cpp:173 | On an acyclic map a dependency that is already visited is already listed, so skipping it is safe. |
| InstallationOrder.CollectPackages | kylin-software-installer/src/dependencyanalyzer.cpp:25-32 | The collected set is exactly the requested packages and everything reachable from one. |
| InstallationOrder.GetInstallationOrder | kylin-software-installer/src/dependencyanalyzer.cpp:13-45 | A cyclic map gives the empty list. On an acyclic map the list holds each package of the working set exactly once and nothing else, every dependency comes before its dependent, and this holds for any root order. |
| DependencyTree.BuildNode | kylin-software-installer/src/dependencyanalyzer.cpp:112-128 | A name already in the tree changes nothing: no re-levelling, no second probe, no expansion. A new name gets the given level and one probe. Every node created under it is reachable, deeper, one level below a node depending on it, and has its dependencies in the tree. |
| DependencyTree.BuildDeps | kylin-software-installer/src/dependencyanalyzer.cpp:125-127 | Every dependency of the parent ends up in the tree. Existing entries are unchanged, and new ones sit below the parent's level. The first dependency, if not yet in the tree, is created exactly one level below the parent. |
| DependencyTree.DepsAtLevel | kylin-software-installer/src/dependencyanalyzer.cpp:112-127 | In a parent's dependency list, a dependency that is not yet in the tree, and that no earlier dependency reaches along names not yet in the tree, is created exactly one level below the parent. This holds on cyclic maps too. |
| DependencyTree.NodeAvoids | kylin-software-installer/src/dependencyanalyzer.cpp:112-127 | Every node one call creates is reachable from its package along names that were not in the tree before the call. |
| DependencyTree.DepsAvoid | kylin-software-installer/src/dependencyanalyzer.cpp:125-127 | Every node the loop over a dependency list creates is reachable from some listed dependency along names that were not in the tree before the loop. |
| DependencyTree.BuildRoots | kylin-software-installer/src/dependencyanalyzer.cpp:130-132 | Every requested package ends up in the tree. Every created node is in the working set with its dependencies present. Level 0 is held only by requested packages. |
| DependencyTree.RootsAtZero | kylin-software-installer/src/dependencyanalyzer.cpp:112-132 | In the loop over the requested packages, a package that is not yet in the tree, and that no earlier requested package reaches along names not yet in the tree, is created at level 0. |
| DependencyTree.BuildDependencyTree | kylin-software-installer/src/dependencyanalyzer.cpp:106-136 | The keys are exactly the working set. Each node carries its own name, the probe's answer and its declared dependencies (empty for an absent key). The probe is called exactly once per node. Level 0 means requested, and any other level is one more than that of a node depending on it. |
| DependencyTree.RequestedRootsAtZero | kylin-software-installer/src/dependencyanalyzer.cpp:106-136 | In the finished tree, a requested package that no earlier requested package reaches is at level 0, whatever the later walks do. |
| DependencyTree.LoopKeepsSiblingLevel | kylin-software-installer/src/dependencyanalyzer.cpp:112-127 | With P depending on Q, X and V, Q on P, and V on X, requesting P puts X at level 1. Q's walk stops at P, which is already in the tree, so it never reaches X. |
| DependencyTree.FirstVisitFixesLevel | kylin-software-installer/src/dependencyanalyzer.cpp:113-115 | With A depending on B and C, and B on C, requesting A puts C at level 2: the first visit fixes the level even though a shorter path exists. |
| DownloadReducer.Reduce | kylin-software-downloader/lib/contexts/download-context.tsx:78-146 | Each action changes only the state field it is about. Sources, selection, settings and history are each unchanged by every action not aimed at them. |
| DownloadReducer.ReplaceById | kylin-software-downloader/lib/contexts/download-context.tsx:86-90 | `UPDATE_SOURCE` keeps the length, order and ids. Exactly the entries whose id matches become the payload. |
| DownloadReducer.RemoveSource | kylin-software-downloader/lib/contexts/download-context.tsx:92-96 | `DELETE_SOURCE` leaves no source with the id. Every other source stays, as often as before and in the same relative order. An unknown id changes nothing. |
| DownloadReducer.Select | kylin-software-downloader/lib/contexts/download-context.tsx:104-108 | `SELECT_PACKAGE` gives a duplicate-free list of the old selection plus the id, in order of first occurrence. |
| DownloadReducer.SelectIdempotent | kylin-software-downloader/lib/contexts/download-context.tsx:104-108 | Selecting a package twice is the same as selecting it once. |
| DownloadReducer.SelectOnDuplicateFree | kylin-software-downloader/lib/contexts/download-context.tsx:104-108 | On a duplicate-free selection, a new id is appended at the end and a present one changes nothing. |
| DownloadReducer.DeselectUndoesSelect | kylin-software-downloader/lib/contexts/download-context.tsx:104-114 | Deselecting a package just selected restores a duplicate-free selection that lacked it. |
| Seqs.RemoveAll | kylin-software-downloader/lib/contexts/download-context.tsx:110-114 | `DESELECT_PACKAGE` removes every occurrence of the id. The other entries keep their counts and relative order, and a duplicate-free list stays duplicate-free. |
| DownloadReducer.MergeSettings | kylin-software-downloader/lib/contexts/download-context.tsx:128-132 | `UPDATE_SETTINGS` overwrites exactly the fields present in the patch and keeps the others. |
| DownloadReducer.SettingsPatchesCompose | kylin-software-downloader/lib/contexts/download-context.tsx:128-132 | Two settings updates in a row equal one update with their combined patch, the later field winning. |
| DownloadReducer.SettingsPatchIdempotent | kylin-software-downloader/lib/contexts/download-context.tsx:128-132 | An empty patch changes nothing, and a patch applied twice equals the patch applied once. |
| DownloadReducer.PrependCapped | kylin-software-downloader/lib/contexts/download-context.tsx:134-138 | `ADD_DOWNLOAD_HISTORY` puts the entry first and keeps min(old length + 1, 50) entries, followed by the older ones in order. |
| DownloadReducer.DeleteUndoesAdd | kylin-software-downloader/lib/contexts/download-context.tsx:80-96 | Deleting a source just added under a fresh id gives back the earlier state. |
| DownloadReducer.UpdateUnknownIdIsNoOp | kylin-software-downloader/lib/contexts/download-context.tsx:86-90 | An update whose id no source has leaves the state unchanged. |
| DownloadReducer.UpdateIdempotent | kylin-software-downloader/lib/contexts/download-context.tsx:86-90 | Applying the same update twice equals applying it once. |
| DownloadReducer.ReducePreservesValid | kylin-software-downloader/lib/contexts/download-context.tsx:78-146 | Every action keeps the state well kept, given a fresh id for a new source and well-kept wholesale replacements. Well kept means unique source ids, a duplicate-free selection and at most 50 history entries. |
| DownloadReducer.RunPreservesValid | kylin-software-downloader/lib/contexts/download-context.tsx:78-146 | A well-kept state stays well kept through any run of dispatches in which each action meets those payload conditions. |
| DownloadReducer.InitialStateValid | kylin-software-downloader/lib/contexts/download-context.tsx:62-74 | The provider's initial state is well kept, and so is every state reached from it by such a run. |
| DownloadReducer.PatchSource | kylin-software-downloader/lib/contexts/download-context.tsx:211 | The spread of the updates over the source: present properties win and absent ones are kept. |
| DownloadReducer.FindSource | kylin-software-downloader/lib/contexts/download-context.tsx:207 | Finds nothing exactly when no source has the id. Otherwise it returns the first source with the id. |
| DownloadReducer.UpdateSourceDispatch | kylin-software-downloader/lib/contexts/download-context.tsx:206-214 | `updateSource` dispatches nothing exactly when no source has the id. Otherwise it dispatches an `UPDATE_SOURCE` that keeps the id unless the updates change it. |
| DownloadReducer.UpdateSourceEffect | kylin-software-downloader/lib/contexts/download-context.tsx:206-214 | With no source carrying the id the state is unchanged. Otherwise, when the updates keep the id, every source with the id becomes the patched first match, and all else stays. |
| RecentPackages.UpdateRecent | kylin-software-installer/src/welcomescreen.cpp:123-132 | An empty path changes nothing. Otherwise the path comes first and occurs once. The rest is the old list without the path, in order, with at most its last entry dropped. A list of at most ten stays at most ten, and a duplicate-free list stays duplicate-free. |
| RecentPackages.UpdateKeepsWellKept | kylin-software-installer/src/welcomescreen.cpp:126-131 | A stored list of at most ten distinct paths stays so after any pick. |
| RecentPackages.UpdateIdempotent | kylin-software-installer/src/welcomescreen.cpp:126-131 | For a stored list of at most ten paths, picking the same file twice in a row stores the same list as picking it once. |
| RecentPackages.OthersSurvive | kylin-software-installer/src/welcomescreen.cpp:127-131 | For a stored list of at most ten distinct paths, a stored path other than a non-empty pick is only lost as the last entry of a full list that did not hold the pick. |
| InstallLoop.RunInstallation | kylin-software-installer/src/installscreen.cpp:124-178 | An empty order fails before any package. An undetected package manager fails before any package. Otherwise packages are processed in order as a prefix of it, and the run completes exactly when all are processed. The run is cancelled at a cleared flag. The bar after the k-th of n packages reads (k*100)/n, stays in [0,100], never decreases, and ends at 100 on completion. |
| InstallLoop.CancelPoint | kylin-software-installer/src/installscreen.cpp:149-155 | The first position whose check reads a cleared flag, or the end of the order if there is none. |
| InstallLoop.CancelledAtFirstClearedFlag | kylin-software-installer/src/installscreen.cpp:149-155 | A run stops at the first cleared flag, and it is cancelled exactly when some check reads a cleared flag. |
| InstallLoop.Progress | kylin-software-installer/src/installscreen.cpp:162 | The percentage rounded down: the largest non-negative p with p * n <= k * 100, so k * 100 < (p + 1) * n. |
| InstallLoop.ProgressBounds | kylin-software-installer/src/installscreen.cpp:162 | After k of n packages the percentage lies in [0,100], and it is 100 after the last one. |
| InstallLoop.ProgressMonotone | kylin-software-installer/src/installscreen.cpp:162-163 | The percentage never decreases as more packages are processed. |
| InstallLoop.ProgressPositive | kylin-software-installer/src/installscreen.cpp:162 | With at most 100 packages every processed package shows at least 1%. |
| InstallLoop.ProgressCanStayAtZero | kylin-software-installer/src/installscreen.cpp:162 | With 101 packages the first one shows 0%. |
| InstallLoop.Install | kylin-software-installer/src/installscreen.cpp:123-130 | A cyclic map or an empty request fails the dependency analysis before any package is processed. The processed packages come from the working set with dependencies first, and a completed run processes all of it. |

## Left out

- `isPackageInstalled` runs `dpkg`/`rpm` in a child process. It is a function parameter of the tree builder.
- The logger, the `errorMessage` field and all log and status-label text are not modelled.
- `packagemanager.cpp`, `packageparser.cpp`, the Qt screens other than the two loops modelled here, and the React screens are not part of this model. The dependency map, the parse result and the package-manager detection are inputs.
- The ascending order of `QMap::keys` and the iteration order of `QSet` are not modelled. Properties are proved for every order instead, which includes the ascending one.
- QSettings persistence of the recent list is not modelled. The stored list is a parameter and the result is what gets written back.
- `QThread::msleep`, progress-bar and label writes, and the Cancel button's event handling are not modelled. The `isInstalling` value seen at each check is the function parameter `stillInstalling`.
- The install loop runs on the GUI thread and processes no events (installscreen.cpp:149-169 only sleeps), so as written the Cancel handler cannot run during the loop and every check reads the `true` that `startInstall` set. Letting `stillInstalling` be any function over-approximates this: the cancellation properties cover a loop that can observe the flag, and they hold in particular for the constant `true`.
- The steps of `performInstallation` before line 123 (package parsing) are not modelled.
- AsyncStorage loading and saving, and the `addSource` wrapper's id made from `Date.now()` and `Math.random()`, are not modelled. Ids are part of the action payloads.
- JavaScript `number` fields (source priority, history timestamp) are unbounded integers.
- `UPDATE_SETTINGS` keys present with the value `undefined` are not modelled: a settings patch field is either absent or holds a value. For source updates, `username` and `password` do model a present `undefined`.
- The reducer's `default` branch is not modelled: the action type is closed, so it cannot occur.
- InstallLoop.Progress: does not model the 32-bit `int` overflow of `installedCount * 100`, which needs more than 21 million packages.
- DependencyTree.BuildDependencyTree: its contract does not give each level in closed form. It states that level 0 means requested and that any other level is one more than that of some node depending on it. The first-visit level is stated per loop instead. `RootsAtZero` and `DepsAtLevel` pin the level of every list entry that no earlier entry reaches along names not yet in the tree. `RequestedRootsAtZero` states the same for the finished tree, and `BuildNode` for a single call. For an entry that an earlier entry does reach, the level is set by that earlier walk and is not stated, because defining the walk's discovery depth independently would repeat the function.
- The tree node's level is a `nat` rather than a 32-bit `int`. Levels never exceed the number of nodes, so neither negative values nor overflow arise.
- InstallLoop.RunInstallation: states the bar in [0,100] rather than [1,100], because with more than 100 packages the first value written is 0 (`ProgressCanStayAtZero`). At least 1% is proved for at most 100 packages (`ProgressPositive`).
