/**
 * The module life cycle shared by the two managers of the runner crate
 * (`FunctionManager` and `ModuleManager`): the status machine, the module
 * record, and one pure function per operation that says what the operation
 * does to the module map. The classes in functions.dfy and modules.dfy are
 * proved against these functions; the lemmas here say what they mean.
 *
 * The file system does not change while a manager runs: its only removal,
 * in `undeploy`, is of a file that is already missing.
 */
module Lifecycle {
  import opened Wrappers
  import opened Files
  import opened Watcher

  datatype Status = Deploy | Deployed | Undeploy | Undeployed

  /** `from_string`: the marker words; "running" means Deployed and any
      other word (such as "redeploy") means Undeployed. */
  function FromString(s: string): (r: Status)
    ensures r == Deploy <==> s == "deploy"
    ensures r == Undeploy <==> s == "undeploy"
    ensures r == Deployed <==> s == "running"
    ensures r == Undeployed <==> s != "deploy" && s != "undeploy" && s != "running"
  {
    if s == "deploy" then Deploy
    else if s == "undeploy" then Undeploy
    else if s == "running" then Deployed
    else Undeployed  // "undeployed" and every other word
  }

  /** `as_string` (functions.rs only). */
  function AsString(s: Status): string
  {
    match s
    case Deploy => "deploy"
    case Deployed => "deployed"
    case Undeploy => "undeploy"
    case Undeployed => "undeployed"
  }

  /** Printing a status and parsing it back gives it back, except for
      Deployed: it prints as "deployed", which parses as Undeployed. */
  lemma StatusRoundTrip(s: Status)
    ensures FromString(AsString(s)) == s <==> s != Deployed
    ensures FromString(AsString(Deployed)) == Undeployed
  {
  }

  /** Every state the watcher can report parses, "redeploy" as Undeployed. */
  lemma WatcherStatesParse()
    ensures FromString(AlternateStates[0]) == Deploy && FromString(AlternateStates[1]) == Undeploy
    ensures FromString(AlternateStates[2]) == Deployed && FromString(AlternateStates[3]) == Undeployed
    ensures FromString(AlternateStates[4]) == Undeployed
  {
  }

  datatype Module = Module(
    checksum: string,
    name: string,
    status: Status,
    filePath: Path,
    compilation: Option<CompilationUnit>)

  /** What `get_handle` hands out. */
  datatype ModuleHandle = ModuleHandle(name: string, unit: CompilationUnit)

  datatype ManagerError = UnavailableModule(name: string) | CompilationError(name: string, reason: string)

  type ModuleMap = map<string, Module>

  /** The map the managers keep: each module is stored under its own name,
      which is the stem of its file; its status is Undeployed (as inserted)
      or Deploy (as set by a successful deploy); nothing is ever compiled
      into it. */
  predicate WellFormed(m: ModuleMap)
  {
    forall k :: k in m ==>
      && m[k].name == k
      && FileStem(m[k].filePath.name) == k
      && (m[k].status == Undeployed || m[k].status == Deploy)
      && m[k].compilation == None
  }

  /** The names of the modules that `running_modules` reports. */
  function Running(m: ModuleMap): (r: set<string>)
    ensures forall k :: k in r <==> k in m && m[k].status == Deployed
  {
    set k | k in m && m[k].status == Deployed
  }

  /** The model's central consequence: no module of a well-formed map is
      ever Deployed, so none is reported running and no handle exists. */
  lemma NothingRuns(m: ModuleMap)
    requires WellFormed(m)
    ensures Running(m) == {}
  {
  }

  /** The message of a failed deploy, one per step of `deploy`. */
  function CompileReason(outcome: BuildOutcome): string
    requires !outcome.Compiled?
  {
    match outcome
    case ZipUnreadable => "cannot open zip archive"
    case MissingMeta => "cannot find meta.json file in zip archive"
    case MissingRunnable => "cannot find runnable.wasm file in zip archive"
    case CompileFailed(debug, _) => "couldn't JIT compile WASM: " + debug
  }

  /** `deploy`: the result and the map afterwards. */
  function DeploySpec(m: ModuleMap, name: string, fs: FileSystem): (out: (Result<Status, ManagerError>, ModuleMap))
    ensures out.0.Success? <==> name in m && fs.Build(m[name].filePath).Compiled?
    ensures name !in m ==> out.0 == Failure(UnavailableModule(name))
    ensures name in m && !fs.Build(m[name].filePath).Compiled? ==>
      out.0 == Failure(CompilationError(name, CompileReason(fs.Build(m[name].filePath))))
    ensures out.0.Failure? ==> out.1 == m
    ensures out.0.Success? ==> out.0.value == Deployed && out.1.Keys == m.Keys
    ensures out.0.Success? ==> out.1[name] == m[name].(status := Deploy)
    ensures forall k :: k in m && k != name ==> k in out.1 && out.1[k] == m[k]
  {
    if name !in m then (Failure(UnavailableModule(name)), m)
    else
      var outcome := fs.Build(m[name].filePath);
      if outcome.Compiled? then (Success(Deployed), m[name := m[name].(status := Deploy)])
      else (Failure(CompilationError(name, CompileReason(outcome))), m)
  }

  /** `deploy` as evidently intended: the module is stored with the status
      the call reports (Deployed) and the unit the compiler produced. */
  function DeployIntended(m: ModuleMap, name: string, fs: FileSystem): (out: (Result<Status, ManagerError>, ModuleMap))
    ensures out.0 == DeploySpec(m, name, fs).0
    ensures out.0.Failure? ==> out.1 == m
    ensures forall k :: k in m && k != name ==> k in out.1 && out.1[k] == m[k]
  {
    if name !in m then (Failure(UnavailableModule(name)), m)
    else
      var outcome := fs.Build(m[name].filePath);
      if outcome.Compiled? then
        (Success(Deployed), m[name := m[name].(status := Deployed, compilation := Some(outcome.unit))])
      else (Failure(CompilationError(name, CompileReason(outcome))), m)
  }

  /** With the intended deploy, a module whose archive builds is reported
      running and has a compilation unit to hand out; as written it is not. */
  lemma DeployedModuleRuns(m: ModuleMap, name: string, fs: FileSystem)
    requires name in m && fs.Build(m[name].filePath).Compiled?
    ensures name in Running(DeployIntended(m, name, fs).1)
    ensures DeployIntended(m, name, fs).1[name].compilation == Some(fs.Build(m[name].filePath).unit)
    ensures name !in Running(DeploySpec(m, name, fs).1)
  {
  }

  /** `undeploy`: a present module is dropped only once its file is gone. */
  function UndeploySpec(m: ModuleMap, name: string, fs: FileSystem): (out: (Result<Status, ManagerError>, ModuleMap))
    ensures name !in m ==> out == (Failure(UnavailableModule(name)), m)
    ensures name in m ==> out.0 == Success(Undeployed)
    ensures name in m && m[name].filePath in fs.files ==> out.1 == m
    ensures name in m && m[name].filePath !in fs.files ==> out.1 == m - {name}
  {
    if name !in m then (Failure(UnavailableModule(name)), m)
    else if m[name].filePath !in fs.files then (Success(Undeployed), m - {name})
    else (Success(Undeployed), m)
  }

  /** `load`: only `name` may change. An Undeployed module whose archive
      builds goes to Deploy; a Deploy module asked to undeploy (Undeploy or
      Undeployed) whose file is gone loses its entry; in every other case
      the map stays as it was. */
  function LoadSpec(m: ModuleMap, name: string, next: Status, fs: FileSystem): (r: ModuleMap)
    ensures r.Keys <= m.Keys
    ensures forall k :: k in m && k != name ==> k in r && r[k] == m[k]
    ensures name in r && r[name] != m[name] ==>
      m[name].status == Undeployed && r[name] == m[name].(status := Deploy) && fs.Build(m[name].filePath).Compiled?
    ensures name in m && name !in r ==>
      m[name].status == Deploy && (next == Undeploy || next == Undeployed) && m[name].filePath !in fs.files
    ensures name in m && m[name].status == Undeployed && fs.Build(m[name].filePath).Compiled? ==>
      r == m[name := m[name].(status := Deploy)]
    ensures name in m && m[name].status == Deploy && (next == Undeploy || next == Undeployed) && m[name].filePath !in fs.files ==>
      r == m - {name}
    ensures r == m <==>
      !(name in m && m[name].status == Undeployed && fs.Build(m[name].filePath).Compiled?) &&
      !(name in m && m[name].status == Deploy && (next == Undeploy || next == Undeployed) && m[name].filePath !in fs.files)
  {
    if name !in m then m
    else match m[name].status
      case Deploy =>
        if next == Undeploy || next == Undeployed then UndeploySpec(m, name, fs).1 else m
      case Deployed => m
      case Undeploy => m
      case Undeployed => DeploySpec(m, name, fs).1
  }

  /** The module record `tick` inserts for a new name. */
  function Fresh(checksum: string, name: string, path: Path): Module
  {
    Module(checksum, name, Undeployed, path, None)
  }

  /** What a tick does with one watcher entry: a file whose checksum cannot
      be computed is skipped; a new name is inserted Undeployed and loaded;
      a known name is loaded only when its checksum differs from the stored
      one, which is never updated. */
  function Admit(m: ModuleMap, e: WatcherEntry, fs: FileSystem): ModuleMap
  {
    var name := FileStem(e.path.name);
    var next := FromString(e.nextStatus);
    match fs.Checksum(e.path)
    case None => m
    case Some(c) =>
      if name in m then
        if c != m[name].checksum then LoadSpec(m, name, next, fs) else m
      else LoadSpec(m[name := Fresh(c, name, e.path)], name, next, fs)
  }

  /** The entries of `es`, admitted in order. */
  function AdmitAll(m: ModuleMap, es: seq<WatcherEntry>, fs: FileSystem): ModuleMap
  {
    if es == [] then m
    else Admit(AdmitAll(m, es[..|es| - 1], fs), es[|es| - 1], fs)
  }

  /** The variant whose checksum panics (`expect`) on an unreadable file:
      the entries are admitted in order up to the first such file, and the
      flag says whether the tick panicked there. */
  function AdmitUntilPanic(m: ModuleMap, es: seq<WatcherEntry>, fs: FileSystem): (out: (ModuleMap, bool))
    ensures !out.1 <==> forall i :: 0 <= i < |es| ==> fs.Checksum(es[i].path).Some?
    ensures !out.1 ==> out.0 == AdmitAll(m, es, fs)
  {
    if es == [] then (m, false)
    else
      var front := AdmitUntilPanic(m, es[..|es| - 1], fs);
      assert forall i :: 0 <= i < |es| - 1 ==> es[..|es| - 1][i] == es[i];
      if front.1 || fs.Checksum(es[|es| - 1].path).None? then (front.0, true)
      else (Admit(front.0, es[|es| - 1], fs), false)
  }

  /** A panic leaves the map as the entries before the first unreadable file
      made it. */
  lemma {:induction false} PanicKeepsPrefix(m: ModuleMap, es: seq<WatcherEntry>, fs: FileSystem, k: nat)
    requires k < |es| && fs.Checksum(es[k].path).None?
    requires forall i :: 0 <= i < k ==> fs.Checksum(es[i].path).Some?
    ensures AdmitUntilPanic(m, es, fs) == (AdmitAll(m, es[..k], fs), true)
  {
    var front := es[..|es| - 1];
    if k < |es| - 1 {
      assert forall i :: 0 <= i < k ==> front[i] == es[i];
      assert front[k] == es[k];
      PanicKeepsPrefix(m, front, fs, k);
      assert front[..k] == es[..k];
    } else {
      assert forall i :: 0 <= i < |front| ==> front[i] == es[i];
      assert front == es[..k];
    }
  }

  /** Undeploying every module whose file is missing: the map keeps exactly
      the modules whose files exist. */
  function Prune(m: ModuleMap, fs: FileSystem): (r: ModuleMap)
    ensures r.Keys <= m.Keys
    ensures forall k :: k in r ==> r[k] == m[k] && m[k].filePath in fs.files
    ensures forall k :: k in m && m[k].filePath in fs.files ==> k in r
  {
    map k | k in m && m[k].filePath in fs.files :: m[k]
  }

  /** The names whose files are missing (`get_to_undeploy`, as a set). */
  function Missing(m: ModuleMap, fs: FileSystem): (r: set<string>)
    ensures forall k :: k in r <==> k in m && m[k].filePath !in fs.files
  {
    set k | k in m && m[k].filePath !in fs.files
  }

  /** Removing every name whose file is missing is undeploying them all. */
  lemma MissingRemovedIsPrune(m: ModuleMap, fs: FileSystem)
    ensures m - Missing(m, fs) == Prune(m, fs)
  {
  }

  // ---------------------------------------------------------------------
  // What the operations preserve
  // ---------------------------------------------------------------------

  lemma LoadKeepsWellFormed(m: ModuleMap, name: string, next: Status, fs: FileSystem)
    requires WellFormed(m)
    ensures WellFormed(LoadSpec(m, name, next, fs))
  {
  }

  lemma AdmitKeepsWellFormed(m: ModuleMap, e: WatcherEntry, fs: FileSystem)
    requires WellFormed(m)
    ensures WellFormed(Admit(m, e, fs))
  {
    var name := FileStem(e.path.name);
    if fs.Checksum(e.path).Some? && name !in m {
      var c := fs.Checksum(e.path).value;
      LoadKeepsWellFormed(m[name := Fresh(c, name, e.path)], name, FromString(e.nextStatus), fs);
    } else if fs.Checksum(e.path).Some? {
      LoadKeepsWellFormed(m, name, FromString(e.nextStatus), fs);
    }
  }

  /** However many files a tick takes in, the map stays well formed. */
  lemma {:induction false} AdmitAllKeepsWellFormed(m: ModuleMap, es: seq<WatcherEntry>, fs: FileSystem)
    requires WellFormed(m)
    ensures WellFormed(AdmitAll(m, es, fs))
  {
    if es != [] {
      AdmitAllKeepsWellFormed(m, es[..|es| - 1], fs);
      AdmitKeepsWellFormed(AdmitAll(m, es[..|es| - 1], fs), es[|es| - 1], fs);
    }
  }

  lemma PruneKeepsWellFormed(m: ModuleMap, fs: FileSystem)
    requires WellFormed(m)
    ensures WellFormed(Prune(m, fs))
  {
  }

  /** Admitting entries whose files exist never drops a module whose file
      exists and never adds one whose file is missing. */
  lemma AdmitKeepsPresent(m: ModuleMap, e: WatcherEntry, fs: FileSystem)
    requires e.path in fs.files
    ensures forall k :: k in m && m[k].filePath in fs.files ==> k in Admit(m, e, fs)
    ensures forall k :: k in Admit(m, e, fs) && k !in m ==> Admit(m, e, fs)[k].filePath in fs.files
  {
  }

  lemma {:induction false} AdmitAllKeepsPresent(m: ModuleMap, es: seq<WatcherEntry>, fs: FileSystem)
    requires forall i :: 0 <= i < |es| ==> es[i].path in fs.files
    requires forall k :: k in m ==> m[k].filePath in fs.files
    ensures m.Keys <= AdmitAll(m, es, fs).Keys
    ensures forall k :: k in AdmitAll(m, es, fs) ==> AdmitAll(m, es, fs)[k].filePath in fs.files
  {
    if es != [] {
      var front := AdmitAll(m, es[..|es| - 1], fs);
      AdmitAllKeepsPresent(m, es[..|es| - 1], fs);
      AdmitKeepsPresent(front, es[|es| - 1], fs);
      AdmitPathsKept(front, es[|es| - 1], fs);
    }
  }

  /** A module admitted once keeps its file path. */
  lemma AdmitPathsKept(m: ModuleMap, e: WatcherEntry, fs: FileSystem)
    ensures forall k :: k in m && k in Admit(m, e, fs) ==> Admit(m, e, fs)[k].filePath == m[k].filePath
  {
  }

  // ---------------------------------------------------------------------
  // What a tick does to one module
  // ---------------------------------------------------------------------

  /** A file whose checksum matches the stored one changes nothing. */
  lemma UnchangedFileIgnored(m: ModuleMap, e: WatcherEntry, fs: FileSystem)
    requires FileStem(e.path.name) in m
    requires fs.Checksum(e.path) == Some(m[FileStem(e.path.name)].checksum)
    ensures Admit(m, e, fs) == m
  {
  }

  /** A new file is inserted under its stem with its checksum and path, and
      deployed whatever its marker says: it ends Deploy when its archive
      builds and Undeployed otherwise. */
  lemma NewFileIgnoresMarker(m: ModuleMap, e: WatcherEntry, fs: FileSystem)
    requires FileStem(e.path.name) !in m
    requires e.path in fs.files && fs.files[e.path].readable
    ensures FileStem(e.path.name) in Admit(m, e, fs)
    ensures Admit(m, e, fs)[FileStem(e.path.name)] ==
      Module(fs.Checksum(e.path).value, FileStem(e.path.name),
             if fs.Build(e.path).Compiled? then Deploy else Undeployed, e.path, None)
    ensures forall k :: k in m ==> k in Admit(m, e, fs) && Admit(m, e, fs)[k] == m[k]
  {
  }

  /** Once a module is Deploy and its file exists, no later file dropped
      under its name changes it: a changed archive is never redeployed,
      whatever its marker. */
  lemma DeployedModuleFrozen(m: ModuleMap, e: WatcherEntry, fs: FileSystem)
    requires FileStem(e.path.name) in m
    requires m[FileStem(e.path.name)].status == Deploy
    requires m[FileStem(e.path.name)].filePath in fs.files
    ensures Admit(m, e, fs) == m
  {
  }

  /** A module that failed to build is tried again on the next tick that
      sees a checksum different from the stored one. */
  lemma FailedModuleRetried(m: ModuleMap, e: WatcherEntry, fs: FileSystem)
    requires FileStem(e.path.name) in m
    requires m[FileStem(e.path.name)].status == Undeployed
    requires fs.Checksum(e.path).Some? && fs.Checksum(e.path).value != m[FileStem(e.path.name)].checksum
    ensures Admit(m, e, fs) == DeploySpec(m, FileStem(e.path.name), fs).1
  {
  }
}
