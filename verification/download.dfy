/**
 The downloader's state reducer (`downloadReducer` in download-context.tsx)
 and the `updateSource` helper of its provider. The reducer is a pure
 function from a state and an action to the next state; each action rewrites
 one field of the state and leaves the others as they were.

 TypeScript's optional properties are `Option`s. A `Partial<...>` payload is
 a record of `Option`s, `None` standing for an absent property; for the two
 optional fields of a source, `Some(None)` stands for a property that is
 present with the value `undefined`, which the object spread copies.
 */
module DownloadReducer {
  import opened Seqs

  datatype Option<T> = None | Some(value: T)

  datatype SourceType = Apt | Yum | Dnf | Custom

  datatype DownloadSource = DownloadSource(
    id: string, name: string, url: string, kind: SourceType,
    username: Option<string>, password: Option<string>,
    enabled: bool, priority: int)

  datatype TargetSystem = Kylin | Other
  datatype Architecture = Arm64 | Armv7 | X86_64 | X86
  datatype PackageFormat = TarGz | Zip

  datatype DownloadSettings = DownloadSettings(
    targetSystem: TargetSystem, targetSystemVersion: string,
    targetArchitecture: Architecture, saveDirectory: string,
    analyzeDependencies: bool, autoPackAfterDownload: bool,
    packageFormat: PackageFormat)

  /** `Partial<DownloadSettings>`. */
  datatype SettingsPatch = SettingsPatch(
    targetSystem: Option<TargetSystem>, targetSystemVersion: Option<string>,
    targetArchitecture: Option<Architecture>, saveDirectory: Option<string>,
    analyzeDependencies: Option<bool>, autoPackAfterDownload: Option<bool>,
    packageFormat: Option<PackageFormat>)

  /** One element of `downloadHistory`; the timestamp is whole milliseconds. */
  datatype HistoryEntry = HistoryEntry(id: string, timestamp: int, packageNames: seq<string>, outputPath: string)

  datatype DownloadState = DownloadState(
    sources: seq<DownloadSource>,
    selectedPackages: seq<string>,
    settings: DownloadSettings,
    downloadHistory: seq<HistoryEntry>)

  datatype DownloadAction =
    | AddSource(source: DownloadSource)
    | UpdateSource(updated: DownloadSource)
    | DeleteSource(sourceId: string)
    | ReorderSources(reordered: seq<DownloadSource>)
    | SelectPackage(packageId: string)
    | DeselectPackage(packageId: string)
    | SelectAllPackages(packageIds: seq<string>)
    | DeselectAllPackages
    | UpdateSettings(patch: SettingsPatch)
    | AddDownloadHistory(entry: HistoryEntry)
    | LoadState(loaded: DownloadState)
  {
    predicate TouchesSources() {
      AddSource? || UpdateSource? || DeleteSource? || ReorderSources? || LoadState?
    }
    predicate TouchesSelection() {
      SelectPackage? || DeselectPackage? || SelectAllPackages? || DeselectAllPackages? || LoadState?
    }
    predicate TouchesSettings() {
      UpdateSettings? || LoadState?
    }
    predicate TouchesHistory() {
      AddDownloadHistory? || LoadState?
    }
  }

  /** The history keeps at most this many entries. */
  const HistoryLimit: nat := 50

  /** The state the provider starts from: no sources, nothing selected, default settings, no history. */
  const InitialState := DownloadState(
    [], [],
    DownloadSettings(Kylin, "10", Arm64, "", true, true, TarGz),
    [])

  /** Some source carries the id. */
  predicate HasSource(sources: seq<DownloadSource>, id: string) {
    exists i | 0 <= i < |sources| :: sources[i].id == id
  }

  /** `sources.map(s => s.id === updated.id ? updated : s)`. */
  function ReplaceById(sources: seq<DownloadSource>, updated: DownloadSource): (r: seq<DownloadSource>)
    ensures |r| == |sources|
    ensures forall i | 0 <= i < |r| :: r[i].id == sources[i].id
    ensures forall i | 0 <= i < |r| && sources[i].id == updated.id :: r[i] == updated
    ensures forall i | 0 <= i < |r| && sources[i].id != updated.id :: r[i] == sources[i]
  {
    seq(|sources|, i requires 0 <= i < |sources| => if sources[i].id == updated.id then updated else sources[i])
  }

  /** `{ ...settings, ...patch }`: the fields present in the patch win. */
  function MergeSettings(s: DownloadSettings, p: SettingsPatch): (r: DownloadSettings)
    ensures p.targetSystem.Some? ==> r.targetSystem == p.targetSystem.value
    ensures p.targetSystem.None? ==> r.targetSystem == s.targetSystem
    ensures p.targetSystemVersion.Some? ==> r.targetSystemVersion == p.targetSystemVersion.value
    ensures p.targetSystemVersion.None? ==> r.targetSystemVersion == s.targetSystemVersion
    ensures p.targetArchitecture.Some? ==> r.targetArchitecture == p.targetArchitecture.value
    ensures p.targetArchitecture.None? ==> r.targetArchitecture == s.targetArchitecture
    ensures p.saveDirectory.Some? ==> r.saveDirectory == p.saveDirectory.value
    ensures p.saveDirectory.None? ==> r.saveDirectory == s.saveDirectory
    ensures p.analyzeDependencies.Some? ==> r.analyzeDependencies == p.analyzeDependencies.value
    ensures p.analyzeDependencies.None? ==> r.analyzeDependencies == s.analyzeDependencies
    ensures p.autoPackAfterDownload.Some? ==> r.autoPackAfterDownload == p.autoPackAfterDownload.value
    ensures p.autoPackAfterDownload.None? ==> r.autoPackAfterDownload == s.autoPackAfterDownload
    ensures p.packageFormat.Some? ==> r.packageFormat == p.packageFormat.value
    ensures p.packageFormat.None? ==> r.packageFormat == s.packageFormat
  {
    DownloadSettings(
      Override(s.targetSystem, p.targetSystem),
      Override(s.targetSystemVersion, p.targetSystemVersion),
      Override(s.targetArchitecture, p.targetArchitecture),
      Override(s.saveDirectory, p.saveDirectory),
      Override(s.analyzeDependencies, p.analyzeDependencies),
      Override(s.autoPackAfterDownload, p.autoPackAfterDownload),
      Override(s.packageFormat, p.packageFormat))
  }

  /** A spread property: the later value when present, the earlier one otherwise. */
  function Override<T>(base: T, over: Option<T>): T {
    if over.Some? then over.value else base
  }

  /** `[entry, ...history].slice(0, 50)`. */
  function PrependCapped(entry: HistoryEntry, history: seq<HistoryEntry>): (r: seq<HistoryEntry>)
    ensures |r| == if |history| + 1 <= HistoryLimit then |history| + 1 else HistoryLimit
    ensures r[0] == entry
    ensures r[1..] == history[..|r| - 1]
  {
    var all := [entry] + history;
    if |all| <= HistoryLimit then all else all[..HistoryLimit]
  }

  /** `sources.filter(s => s.id !== id)`: no source keeps the id, the others stay in order. */
  function RemoveSource(sources: seq<DownloadSource>, id: string): (r: seq<DownloadSource>)
    ensures forall i | 0 <= i < |r| :: r[i].id != id
    ensures forall s: DownloadSource | s.id != id :: multiset(r)[s] == multiset(sources)[s]
    ensures Subseq(r, sources)
    ensures !HasSource(sources, id) ==> r == sources
  {
    var keep := (s: DownloadSource) => s.id != id;
    FilterSpec(sources, keep);
    if !HasSource(sources, id) then
      FilterKeepsAll(sources, keep);
      Filter(sources, keep)
    else Filter(sources, keep)
  }

  /**
   `[...new Set([...selected, id])]`: duplicate-free, holding the old selection
   and the id, in order of first occurrence in `selected + [id]`.
   */
  function Select(selected: seq<string>, id: string): (r: seq<string>)
    ensures NoDup(r)
    ensures forall p :: p in r <==> p in selected || p == id
    ensures forall i, j | 0 <= i < j < |r| ::
      FirstIndex(selected + [id], r[i]) < FirstIndex(selected + [id], r[j])
  {
    InsertionOrder(selected + [id])
  }

  /**
   `downloadReducer(state, action)`: each action rewrites only the field it
   is about and leaves the other three as they were; the per-field effect is
   the helper named for each action.
   */
  function Reduce(state: DownloadState, action: DownloadAction): (r: DownloadState)
    ensures !action.TouchesSources() ==> r.sources == state.sources
    ensures !action.TouchesSelection() ==> r.selectedPackages == state.selectedPackages
    ensures !action.TouchesSettings() ==> r.settings == state.settings
    ensures !action.TouchesHistory() ==> r.downloadHistory == state.downloadHistory
    ensures action.AddSource? ==> r.sources == state.sources + [action.source]
    ensures action.UpdateSource? ==> r.sources == ReplaceById(state.sources, action.updated)
    ensures action.DeleteSource? ==> r.sources == RemoveSource(state.sources, action.sourceId)
    ensures action.ReorderSources? ==> r.sources == action.reordered
    ensures action.SelectPackage? ==> r.selectedPackages == Select(state.selectedPackages, action.packageId)
    ensures action.DeselectPackage? ==> r.selectedPackages == RemoveAll(state.selectedPackages, action.packageId)
    ensures action.SelectAllPackages? ==> r.selectedPackages == action.packageIds
    ensures action.DeselectAllPackages? ==> r.selectedPackages == []
    ensures action.UpdateSettings? ==> r.settings == MergeSettings(state.settings, action.patch)
    ensures action.AddDownloadHistory? ==> r.downloadHistory == PrependCapped(action.entry, state.downloadHistory)
    ensures action.LoadState? ==> r == action.loaded
  {
    match action
    case AddSource(source) => state.(sources := state.sources + [source])
    case UpdateSource(updated) => state.(sources := ReplaceById(state.sources, updated))
    case DeleteSource(id) => state.(sources := RemoveSource(state.sources, id))
    case ReorderSources(reordered) => state.(sources := reordered)
    case SelectPackage(id) => state.(selectedPackages := Select(state.selectedPackages, id))
    case DeselectPackage(id) => state.(selectedPackages := RemoveAll(state.selectedPackages, id))
    case SelectAllPackages(ids) => state.(selectedPackages := ids)
    case DeselectAllPackages => state.(selectedPackages := [])
    case UpdateSettings(patch) => state.(settings := MergeSettings(state.settings, patch))
    case AddDownloadHistory(entry) => state.(downloadHistory := PrependCapped(entry, state.downloadHistory))
    case LoadState(loaded) => loaded
  }

  /** Deleting a source just added under a fresh id gives back the state before. */
  lemma DeleteUndoesAdd(state: DownloadState, source: DownloadSource)
    requires !HasSource(state.sources, source.id)
    ensures Reduce(Reduce(state, AddSource(source)), DeleteSource(source.id)) == state
  {
    var keep := (s: DownloadSource) => s.id != source.id;
    FilterAppend(state.sources, [source], keep);
    FilterKeepsAll(state.sources, keep);
    assert Filter([source], keep) == [];
    assert RemoveSource(state.sources + [source], source.id) == state.sources;
  }

  /** Selecting the same package twice is the same as selecting it once. */
  lemma SelectIdempotent(state: DownloadState, id: string)
    ensures Reduce(Reduce(state, SelectPackage(id)), SelectPackage(id)) == Reduce(state, SelectPackage(id))
  {
    var once := Reduce(state, SelectPackage(id)).selectedPackages;
    var twice := once + [id];
    assert id in once;
    InsertionOrderNoDup(once);
    assert twice[..|twice| - 1] == once;
  }

  /** On a duplicate-free selection, selecting appends the id if it is new and changes nothing otherwise. */
  lemma SelectOnDuplicateFree(state: DownloadState, id: string)
    requires NoDup(state.selectedPackages)
    ensures Reduce(state, SelectPackage(id)).selectedPackages
         == if id in state.selectedPackages then state.selectedPackages else state.selectedPackages + [id]
  {
    var s := state.selectedPackages + [id];
    assert s[..|s| - 1] == state.selectedPackages;
    InsertionOrderNoDup(state.selectedPackages);
  }

  /** Deselecting after selecting removes the id: the rest of a duplicate-free selection is back as it was. */
  lemma {:induction false} DeselectUndoesSelect(state: DownloadState, id: string)
    requires NoDup(state.selectedPackages) && id !in state.selectedPackages
    ensures Reduce(Reduce(state, SelectPackage(id)), DeselectPackage(id)).selectedPackages == state.selectedPackages
  {
    SelectOnDuplicateFree(state, id);
    RemoveAppended(state.selectedPackages, id);
  }

  lemma RemoveAppended(s: seq<string>, x: string)
    requires x !in s
    ensures RemoveAll(s + [x], x) == s
  {
    var keep := Unequal(x);
    FilterAppend(s, [x], keep);
    FilterKeepsAll(s, keep);
    assert Filter([x], keep) == [];
  }

  /** Updating a source whose id nobody has changes nothing. */
  lemma UpdateUnknownIdIsNoOp(state: DownloadState, updated: DownloadSource)
    requires !HasSource(state.sources, updated.id)
    ensures Reduce(state, UpdateSource(updated)) == state
  {
    var r := Reduce(state, UpdateSource(updated));
    assert r.sources == state.sources;
  }

  /** Updating twice with the same payload is the same as updating once. */
  lemma UpdateIdempotent(state: DownloadState, updated: DownloadSource)
    ensures Reduce(Reduce(state, UpdateSource(updated)), UpdateSource(updated)) == Reduce(state, UpdateSource(updated))
  {
    var once := Reduce(state, UpdateSource(updated));
    var twice := Reduce(once, UpdateSource(updated));
    assert twice.sources == once.sources;
  }

  /** Applying two settings patches in turn is applying their combination, the later one winning. */
  lemma SettingsPatchesCompose(state: DownloadState, p: SettingsPatch, q: SettingsPatch)
    ensures Reduce(Reduce(state, UpdateSettings(p)), UpdateSettings(q)) == Reduce(state, UpdateSettings(Combine(p, q)))
  {
  }

  /** `{ ...p, ...q }` for two partial settings records. */
  function Combine(p: SettingsPatch, q: SettingsPatch): SettingsPatch {
    SettingsPatch(
      Later(p.targetSystem, q.targetSystem), Later(p.targetSystemVersion, q.targetSystemVersion),
      Later(p.targetArchitecture, q.targetArchitecture), Later(p.saveDirectory, q.saveDirectory),
      Later(p.analyzeDependencies, q.analyzeDependencies), Later(p.autoPackAfterDownload, q.autoPackAfterDownload),
      Later(p.packageFormat, q.packageFormat))
  }

  function Later<T>(a: Option<T>, b: Option<T>): Option<T> {
    if b.Some? then b else a
  }

  /** An empty patch leaves the settings alone; applying a patch twice is applying it once. */
  lemma SettingsPatchIdempotent(state: DownloadState, p: SettingsPatch)
    ensures Reduce(state, UpdateSettings(SettingsPatch(None, None, None, None, None, None, None))) == state
    ensures Reduce(Reduce(state, UpdateSettings(p)), UpdateSettings(p)) == Reduce(state, UpdateSettings(p))
  {
  }

  /**
   A well-kept state: source ids are unique (so `UPDATE_SOURCE` and
   `DELETE_SOURCE` address one source), the selection has no duplicates, and
   the history holds at most 50 entries.
   */
  ghost predicate Valid(state: DownloadState) {
    && DistinctKeys(state.sources, SourceId)
    && NoDup(state.selectedPackages)
    && |state.downloadHistory| <= HistoryLimit
  }

  /** The conditions on an action's payload under which it keeps `Valid`: a new source brings a fresh id, and a whole list replacing a field is itself well kept. */
  ghost predicate KeepsValid(state: DownloadState, action: DownloadAction) {
    match action
    case AddSource(source) => !HasSource(state.sources, source.id)
    case ReorderSources(reordered) => DistinctKeys(reordered, SourceId)
    case SelectAllPackages(ids) => NoDup(ids)
    case LoadState(loaded) => Valid(loaded)
    case _ => true
  }

  lemma ReducePreservesValid(state: DownloadState, action: DownloadAction)
    requires Valid(state) && KeepsValid(state, action)
    ensures Valid(Reduce(state, action))
  {
    var r := Reduce(state, action);
    match action {
      case AddSource(source) =>
        AppendKeepsIdsUnique(state.sources, source);
      case DeleteSource(id) =>
        FilterKeepsDistinct(state.sources, (s: DownloadSource) => s.id != id, SourceId);
      case _ =>
    }
  }

  /** The state after dispatching `actions` in order, starting from `state`. */
  function Run(state: DownloadState, actions: seq<DownloadAction>): DownloadState
    decreases |actions|
  {
    if actions == [] then state else Run(Reduce(state, actions[0]), actions[1..])
  }

  /** Every action of the run meets `KeepsValid` in the state it is dispatched in. */
  ghost predicate Admissible(state: DownloadState, actions: seq<DownloadAction>)
    decreases |actions|
  {
    actions == [] || (KeepsValid(state, actions[0]) && Admissible(Reduce(state, actions[0]), actions[1..]))
  }

  /** Starting valid and dispatching only admissible actions ends valid. */
  lemma {:induction false} RunPreservesValid(state: DownloadState, actions: seq<DownloadAction>)
    requires Valid(state) && Admissible(state, actions)
    ensures Valid(Run(state, actions))
    decreases |actions|
  {
    if actions != [] {
      ReducePreservesValid(state, actions[0]);
      RunPreservesValid(Reduce(state, actions[0]), actions[1..]);
    }
  }

  /** The provider's initial state is valid, and so is every state an admissible run of dispatches leads it to. */
  lemma InitialStateValid(actions: seq<DownloadAction>)
    requires Admissible(InitialState, actions)
    ensures Valid(InitialState)
    ensures Valid(Run(InitialState, actions))
  {
    assert |InitialState.downloadHistory| == 0 <= HistoryLimit;
    RunPreservesValid(InitialState, actions);
  }

  function SourceId(s: DownloadSource): string {
    s.id
  }

  lemma AppendKeepsIdsUnique(sources: seq<DownloadSource>, source: DownloadSource)
    requires DistinctKeys(sources, SourceId) && !HasSource(sources, source.id)
    ensures DistinctKeys(sources + [source], SourceId)
  {
    var r := sources + [source];
    forall i, j | 0 <= i < j < |r|
      ensures r[i].id != r[j].id
    {
      assert r[i] == sources[i];
      if j < |sources| {
        assert r[j] == sources[j];
      }
    }
  }

  /** `Partial<DownloadSource>`: the updates handed to `updateSource`. */
  datatype SourcePatch = SourcePatch(
    id: Option<string>, name: Option<string>, url: Option<string>, kind: Option<SourceType>,
    username: Option<Option<string>>, password: Option<Option<string>>,
    enabled: Option<bool>, priority: Option<int>)

  /** `{ ...source, ...updates }`: the properties present in the updates win, the others are kept. */
  function PatchSource(s: DownloadSource, p: SourcePatch): (r: DownloadSource)
    ensures r.id == if p.id.Some? then p.id.value else s.id
    ensures r.name == if p.name.Some? then p.name.value else s.name
    ensures r.url == if p.url.Some? then p.url.value else s.url
    ensures r.kind == if p.kind.Some? then p.kind.value else s.kind
    ensures r.username == if p.username.Some? then p.username.value else s.username
    ensures r.password == if p.password.Some? then p.password.value else s.password
    ensures r.enabled == if p.enabled.Some? then p.enabled.value else s.enabled
    ensures r.priority == if p.priority.Some? then p.priority.value else s.priority
  {
    DownloadSource(
      Override(s.id, p.id), Override(s.name, p.name), Override(s.url, p.url), Override(s.kind, p.kind),
      Override(s.username, p.username), Override(s.password, p.password),
      Override(s.enabled, p.enabled), Override(s.priority, p.priority))
  }

  /** `sources.find(s => s.id === id)`: the first source with the id, if any. */
  function FindSource(sources: seq<DownloadSource>, id: string): (r: Option<DownloadSource>)
    ensures r.None? <==> !HasSource(sources, id)
    ensures r.Some? ==> exists i | 0 <= i < |sources| ::
      sources[i] == r.value && r.value.id == id && forall j | 0 <= j < i :: sources[j].id != id
  {
    if sources == [] then None
    else if sources[0].id == id then Some(sources[0])
    else
      var r := FindSource(sources[1..], id);
      assert HasSource(sources, id) <==> HasSource(sources[1..], id) by {
        if HasSource(sources, id) {
          var i :| 0 <= i < |sources| && sources[i].id == id;
          assert sources[1..][i - 1] == sources[i];
        }
        if HasSource(sources[1..], id) {
          var i :| 0 <= i < |sources[1..]| && sources[1..][i].id == id;
          assert sources[i + 1] == sources[1..][i];
        }
      }
      if r.Some? then
        var i :| 0 <= i < |sources[1..]| &&
          sources[1..][i] == r.value && r.value.id == id && forall j | 0 <= j < i :: sources[1..][j].id != id;
        assert sources[i + 1] == r.value;
        assert forall j | 1 <= j < i + 1 :: sources[j] == sources[1..][j - 1];
        r
      else r
  }

  /** What `updateSource(id, updates)` dispatches: nothing when no source has the id. */
  function UpdateSourceDispatch(state: DownloadState, id: string, updates: SourcePatch): (a: Option<DownloadAction>)
    ensures a.None? <==> !HasSource(state.sources, id)
    ensures a.Some? ==> a.value.UpdateSource? && (updates.id.None? ==> a.value.updated.id == id)
  {
    match FindSource(state.sources, id)
    case None => None
    case Some(source) => Some(UpdateSource(PatchSource(source, updates)))
  }

  /**
   The state after `updateSource(id, updates)`. Without a source carrying the
   id nothing changes. Otherwise, when the updates do not rename the source,
   every source with the id becomes the first such source patched, and the
   others stay.
   */
  function UpdateSourceEffect(state: DownloadState, id: string, updates: SourcePatch): (r: DownloadState)
    ensures !HasSource(state.sources, id) ==> r == state
    ensures r.selectedPackages == state.selectedPackages && r.settings == state.settings
    ensures r.downloadHistory == state.downloadHistory
    ensures |r.sources| == |state.sources|
    ensures HasSource(state.sources, id) && updates.id.None? ==>
      forall i | 0 <= i < |r.sources| ::
        if state.sources[i].id == id then r.sources[i] == PatchSource(FindSource(state.sources, id).value, updates)
        else r.sources[i] == state.sources[i]
  {
    match UpdateSourceDispatch(state, id, updates)
    case None => state
    case Some(action) => Reduce(state, action)
  }
}
