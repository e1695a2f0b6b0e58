/**
 * The older manager of the library crate (`src/lib.rs`): the same module
 * record and status words as the runner crate, but a successful deploy
 * stores the module as Deployed with its compilation unit, and `undeploy`
 * deletes the module's file before forgetting it. Its watcher looks for
 * ".zip" archives and four states, and builds marker names from the quoted
 * (`{:?}`) stem.
 */
module Legacy {
  import opened Wrappers
  import opened Files
  import opened Watcher
  import opened Lifecycle

  /** The states this watcher checks, in order ("redeploy" is not one). */
  const LegacyStates: seq<string> := ["deploy", "undeploy", "running", "undeployed"]

  /** `watcher::DirectoryWatcher` of the library crate. */
  class ZipWatcher {
    const dir: string

    constructor (p: string)
      ensures dir == p
    {
      dir := p;
    }

    /** `run`: one entry per ".zip" file; the marker of `module.zip` for
        state s is named `"module".s`, quotes included. */
    method Run(disk: Disk) returns (dropped: seq<WatcherEntry>)
      ensures Scanned(disk.fs, dir, "zip", LegacyStates, Debug, dropped)
    {
      dropped := Scan(disk, dir, "zip", LegacyStates, Debug);
    }
  }

  /** Every marker name this watcher looks for begins with a double quote. */
  lemma QuotedMarkerName(dir: string, stem: string, state: string)
    ensures Marker(dir, MarkerStem(stem, Debug), state).name[0] == '"'
  {
  }

  /** Unless some file of the directory has a name beginning with a double
      quote, every entry this watcher reports has status "deploy". */
  lemma UnquotedDirectoryMeansDeploy(fs: FileSystem, dir: string, dropped: seq<WatcherEntry>)
    requires forall p :: p in fs.files && p.dir == dir ==> p.name == [] || p.name[0] != '"'
    requires Scanned(fs, dir, "zip", LegacyStates, Debug, dropped)
    ensures forall i :: 0 <= i < |dropped| ==> dropped[i].nextStatus == "deploy"
  {
    forall i | 0 <= i < |dropped|
      ensures dropped[i].nextStatus == "deploy"
    {
      assert EntryOk(fs, dir, "zip", LegacyStates, Debug, dropped[i]);
      var ms := MarkerStem(FileStem(dropped[i].path.name), Debug);
      forall k | 0 <= k < |LegacyStates|
        ensures Marker(dir, ms, LegacyStates[k]) !in fs.files
      {
        QuotedMarkerName(dir, FileStem(dropped[i].path.name), LegacyStates[k]);
      }
      NoMarkerMeansDeploy(fs, dir, ms, LegacyStates);
    }
  }

  /** The map this manager keeps: each module under its own name, the stem
      of its file; Undeployed without a compilation unit or Deployed with one. */
  predicate WellFormedLegacy(m: ModuleMap)
  {
    forall k :: k in m ==>
      && m[k].name == k
      && FileStem(m[k].filePath.name) == k
      && (m[k].status == Undeployed || m[k].status == Deployed)
      && (m[k].compilation.Some? <==> m[k].status == Deployed)
  }

  /** The message of a failed deploy, one per step of `deploy`. */
  function LegacyCompileReason(outcome: BuildOutcome): string
    requires !outcome.Compiled?
  {
    match outcome
    case ZipUnreadable => "Cannot open zip archive"
    case MissingMeta => "Cannot find meta.json file in zip archive"
    case MissingRunnable => "Cannot find runnable.wasm file in zip archive"
    case CompileFailed(_, display) => "Cannot compile WASM: " + display
  }

  /** `deploy`: on success the module is stored Deployed with the unit the
      compiler produced; any failure leaves the map as it was. */
  function LegacyDeploySpec(m: ModuleMap, name: string, fs: FileSystem): (out: (Result<bool, string>, ModuleMap))
    ensures out.0.Success? <==> name in m && fs.Build(m[name].filePath).Compiled?
    ensures name !in m ==> out.0 == Failure("Cannot find module by name " + name + " during deploy")
    ensures name in m && !fs.Build(m[name].filePath).Compiled? ==>
      out.0 == Failure(LegacyCompileReason(fs.Build(m[name].filePath)))
    ensures out.0.Failure? ==> out.1 == m
    ensures out.0.Success? ==> out.0.value && out.1.Keys == m.Keys
    ensures out.0.Success? ==>
      out.1[name] == Module(m[name].checksum, name, Deployed, m[name].filePath, Some(fs.Build(m[name].filePath).unit))
    ensures forall k :: k in m && k != name ==> k in out.1 && out.1[k] == m[k]
  {
    if name !in m then (Failure("Cannot find module by name " + name + " during deploy"), m)
    else
      var item := m[name];
      var outcome := fs.Build(item.filePath);
      if !outcome.Compiled? then (Failure(LegacyCompileReason(outcome)), m)
      else (Success(true), m[name := Module(item.checksum, name, Deployed, item.filePath, Some(outcome.unit))])
  }

  /** `undeploy`: a present module loses its file (unless the removal fails)
      and its entry, whether or not the file still exists. */
  function LegacyUndeploySpec(m: ModuleMap, name: string, fs: FileSystem): (out: (Result<Status, string>, ModuleMap, FileSystem))
    ensures name !in m ==> out == (Failure("Cannot find module by name " + name + " during undeploy"), m, fs)
    ensures name in m ==> out == (Success(Undeployed), m - {name}, fs.Remove(m[name].filePath))
  {
    if name !in m then (Failure("Cannot find module by name " + name + " during undeploy"), m, fs)
    else (Success(Undeployed), m - {name}, fs.Remove(m[name].filePath))
  }

  /** `load`: an Undeployed module whose archive builds is stored Deployed
      with its unit; a Deployed one asked to go (Undeploy or Undeployed)
      loses its entry and its file; in every other case nothing changes. */
  function LegacyLoadSpec(m: ModuleMap, fs: FileSystem, name: string, next: Status): (out: (ModuleMap, FileSystem))
    ensures out.0.Keys <= m.Keys
    ensures forall k :: k in m && k != name ==> k in out.0 && out.0[k] == m[k]
    ensures out.1 == fs || (name in m && out.1 == fs.Remove(m[name].filePath))
    ensures out.1 != fs ==> name in m && name !in out.0
    ensures name in m && name !in out.0 <==>
      name in m && m[name].status == Deployed && (next == Undeploy || next == Undeployed)
    ensures name in m && m[name].status == Deployed && (next == Undeploy || next == Undeployed) ==>
      out == (m - {name}, fs.Remove(m[name].filePath))
    ensures name in out.0 && out.0[name] != m[name] ==>
      m[name].status == Undeployed && out.0[name].status == Deployed && fs.Build(m[name].filePath).Compiled?
    ensures name in m && m[name].status == Undeployed && fs.Build(m[name].filePath).Compiled? ==>
      out.1 == fs &&
      out.0 == m[name := Module(m[name].checksum, name, Deployed, m[name].filePath, Some(fs.Build(m[name].filePath).unit))]
    ensures out == (m, fs) <==>
      !(name in m && m[name].status == Undeployed && fs.Build(m[name].filePath).Compiled?) &&
      !(name in m && m[name].status == Deployed && (next == Undeploy || next == Undeployed))
  {
    if name !in m then (m, fs)
    else match m[name].status
      case Undeployed => (LegacyDeploySpec(m, name, fs).1, fs)
      case Undeploy => (m, fs)
      case Deployed =>
        if next == Undeploy || next == Undeployed then
          var u := LegacyUndeploySpec(m, name, fs);
          (u.1, u.2)
        else (m, fs)
      case Deploy => (m, fs)
  }

  /** One watcher entry whose checksum could be computed: as in the runner
      crate, a new name is inserted Undeployed and loaded, a known one is
      loaded only on a changed checksum. */
  function LegacyAdmit(m: ModuleMap, fs: FileSystem, e: WatcherEntry): (ModuleMap, FileSystem)
    requires fs.Checksum(e.path).Some?
  {
    var name := FileStem(e.path.name);
    var next := FromString(e.nextStatus);
    var c := fs.Checksum(e.path).value;
    if name in m then
      if c != m[name].checksum then LegacyLoadSpec(m, fs, name, next) else (m, fs)
    else LegacyLoadSpec(m[name := Fresh(c, name, e.path)], fs, name, next)
  }

  /** The entries admitted in order until a checksum panics (an unreadable
      or, by then, removed file): the map, the files, and whether it panicked. */
  function LegacyAdmitUntilPanic(m: ModuleMap, fs: FileSystem, es: seq<WatcherEntry>): (out: (ModuleMap, FileSystem, bool))
  {
    if es == [] then (m, fs, false)
    else
      var front := LegacyAdmitUntilPanic(m, fs, es[..|es| - 1]);
      var e := es[|es| - 1];
      if front.2 || front.1.Checksum(e.path).None? then (front.0, front.1, true)
      else
        var next := LegacyAdmit(front.0, front.1, e);
        (next.0, next.1, false)
  }

  /** `tick`: the entries, then `undeploy` for every module whose file is
      missing (whose removal changes no file). */
  function LegacyTickSpec(m: ModuleMap, fs: FileSystem, es: seq<WatcherEntry>): (out: (ModuleMap, FileSystem, bool))
  {
    var admitted := LegacyAdmitUntilPanic(m, fs, es);
    if admitted.2 then admitted else (Prune(admitted.0, admitted.1), admitted.1, false)
  }

  // ---------------------------------------------------------------------
  // What the operations preserve
  // ---------------------------------------------------------------------

  lemma LegacyLoadKeepsWellFormed(m: ModuleMap, fs: FileSystem, name: string, next: Status)
    requires WellFormedLegacy(m)
    ensures WellFormedLegacy(LegacyLoadSpec(m, fs, name, next).0)
  {
  }

  lemma LegacyAdmitKeepsWellFormed(m: ModuleMap, fs: FileSystem, e: WatcherEntry)
    requires WellFormedLegacy(m) && fs.Checksum(e.path).Some?
    ensures WellFormedLegacy(LegacyAdmit(m, fs, e).0)
  {
    var name := FileStem(e.path.name);
    var next := FromString(e.nextStatus);
    if name !in m {
      LegacyLoadKeepsWellFormed(m[name := Fresh(fs.Checksum(e.path).value, name, e.path)], fs, name, next);
    } else {
      LegacyLoadKeepsWellFormed(m, fs, name, next);
    }
  }

  lemma {:induction false} LegacyAdmitAllKeepsWellFormed(m: ModuleMap, fs: FileSystem, es: seq<WatcherEntry>)
    requires WellFormedLegacy(m)
    ensures WellFormedLegacy(LegacyAdmitUntilPanic(m, fs, es).0)
  {
    if es != [] {
      var front := LegacyAdmitUntilPanic(m, fs, es[..|es| - 1]);
      LegacyAdmitAllKeepsWellFormed(m, fs, es[..|es| - 1]);
      if !front.2 && front.1.Checksum(es[|es| - 1].path).Some? {
        LegacyAdmitKeepsWellFormed(front.0, front.1, es[|es| - 1]);
      }
    }
  }

  /** A tick leaves the map well formed, panic or not. */
  lemma LegacyTickKeepsWellFormed(m: ModuleMap, fs: FileSystem, es: seq<WatcherEntry>)
    requires WellFormedLegacy(m)
    ensures WellFormedLegacy(LegacyTickSpec(m, fs, es).0)
  {
    LegacyAdmitAllKeepsWellFormed(m, fs, es);
  }

  /** In a well-formed map the running count is positive exactly when some
      name has a handle. */
  lemma RunningIffHandle(m: ModuleMap)
    requires WellFormedLegacy(m)
    ensures |Running(m)| > 0 <==> exists k :: k in m && m[k].status == Deployed && m[k].compilation.Some?
  {
    if |Running(m)| > 0 {
      var k :| k in Running(m);
      assert k in m && m[k].status == Deployed;
    }
  }

  // ---------------------------------------------------------------------
  // What a tick does to one module
  // ---------------------------------------------------------------------

  /** A Deployed module whose archive changed but whose entry asks to deploy
      (as every entry does when no quoted marker exists) is not rebuilt. */
  lemma ChangedDeployedNotRebuilt(m: ModuleMap, fs: FileSystem, e: WatcherEntry)
    requires fs.Checksum(e.path).Some?
    requires FileStem(e.path.name) in m && m[FileStem(e.path.name)].status == Deployed
    requires e.nextStatus == "deploy"
    ensures LegacyAdmit(m, fs, e) == (m, fs)
  {
  }

  /** A Deployed module whose archive changed and whose entry asks to
      undeploy loses its entry and its file (unless the removal fails). */
  lemma UndeployDeletesArchive(m: ModuleMap, fs: FileSystem, e: WatcherEntry)
    requires fs.Checksum(e.path).Some?
    requires FileStem(e.path.name) in m && m[FileStem(e.path.name)].status == Deployed
    requires fs.Checksum(e.path).value != m[FileStem(e.path.name)].checksum
    requires FromString(e.nextStatus) == Undeploy || FromString(e.nextStatus) == Undeployed
    ensures LegacyAdmit(m, fs, e) == (m - {FileStem(e.path.name)}, fs.Remove(m[FileStem(e.path.name)].filePath))
  {
  }

  /** The crate's own test (`check_file_handling`), second tick: dropping a
      buildable `module.zip` into an empty directory gives one module,
      Deployed, counted as running. */
  lemma {:induction false} FileHandlingDrop(fs: FileSystem, dir: string, dropped: seq<WatcherEntry>)
    requires fs.files.Keys == {Path(dir, "module.zip")} && fs.files[Path(dir, "module.zip")].readable
    requires fs.Build(Path(dir, "module.zip")).Compiled?
    requires Scanned(fs, dir, "zip", LegacyStates, Debug, dropped)
    ensures LegacyTickSpec(map[], fs, dropped) ==
      (map["module" := Module(fs.Checksum(Path(dir, "module.zip")).value, "module", Deployed,
                              Path(dir, "module.zip"), Some(fs.Build(Path(dir, "module.zip")).unit))], fs, false)
    ensures |Running(LegacyTickSpec(map[], fs, dropped).0)| == 1
  {
    SingleArchiveScanned(fs, dir, dropped);
    JoinName("module", "zip");
    assert "module" + "." + "zip" == "module.zip";
    OnlyArchiveTick(fs, Path(dir, "module.zip"), dropped);
  }

  /** A tick over a single buildable archive marked "deploy" stores it
      Deployed with its unit under its stem, and that module runs. */
  lemma OnlyArchiveTick(fs: FileSystem, p: Path, dropped: seq<WatcherEntry>)
    requires fs.files.Keys == {p} && fs.files[p].readable && fs.Build(p).Compiled?
    requires dropped == [WatcherEntry(p, "deploy")]
    ensures LegacyTickSpec(map[], fs, dropped) ==
      (map[FileStem(p.name) := Module(fs.Checksum(p).value, FileStem(p.name), Deployed, p, Some(fs.Build(p).unit))], fs, false)
    ensures Running(LegacyTickSpec(map[], fs, dropped).0) == {FileStem(p.name)}
  {
    var name := FileStem(p.name);
    assert dropped[..0] == [];
    var c := fs.Checksum(p).value;
    var inserted := map[name := Fresh(c, name, p)];
    var deployed := map[name := Module(c, name, Deployed, p, Some(fs.Build(p).unit))];
    assert FromString("deploy") == Deploy;
    assert LegacyAdmit(map[], fs, dropped[0]) == LegacyLoadSpec(inserted, fs, name, Deploy);
    assert inserted[name].status == Undeployed && inserted[name].filePath == p;
    assert inserted[name := Module(c, name, Deployed, p, Some(fs.Build(p).unit))] == deployed;
    assert LegacyLoadSpec(inserted, fs, name, Deploy) == (deployed, fs);
    assert LegacyAdmitUntilPanic(map[], fs, dropped) == (deployed, fs, false);
    assert Prune(deployed, fs) == deployed;
    assert Running(deployed) == {name};
  }

  /** The scan of a directory whose only file is `module.zip` reports that
      file once, with status "deploy". */
  lemma SingleArchiveScanned(fs: FileSystem, dir: string, dropped: seq<WatcherEntry>)
    requires fs.files.Keys == {Path(dir, "module.zip")}
    requires Scanned(fs, dir, "zip", LegacyStates, Debug, dropped)
    ensures dropped == [WatcherEntry(Path(dir, "module.zip"), "deploy")]
  {
    JoinName("module", "zip");
    assert "module" + "." + "zip" == "module.zip";
    OnlyArchiveScanned(fs, dir, dropped, Path(dir, "module.zip"));
  }

  /** A directory whose only file is an archive not named with a leading
      double quote scans to that archive with status "deploy". */
  lemma OnlyArchiveScanned(fs: FileSystem, dir: string, dropped: seq<WatcherEntry>, p: Path)
    requires fs.files.Keys == {p} && p.dir == dir && Extension(p.name) == Some("zip") && p.name[0] != '"'
    requires Scanned(fs, dir, "zip", LegacyStates, Debug, dropped)
    ensures dropped == [WatcherEntry(p, "deploy")]
  {
    assert IsModuleFile(fs, dir, "zip", p);
    ScanOfOneFile(fs, dir, "zip", LegacyStates, Debug, dropped, p);
    UnquotedDirectoryMeansDeploy(fs, dir, dropped);
  }

  /** The same test, third tick: once the archive is removed, the tick
      forgets the module, so it has no handle. */
  lemma FileHandlingRemove(m: ModuleMap, fs: FileSystem, dir: string, dropped: seq<WatcherEntry>)
    requires fs.files == map[]
    requires Scanned(fs, dir, "zip", LegacyStates, Debug, dropped)
    ensures LegacyTickSpec(m, fs, dropped) == (map[], fs, false)
  {
    ScanOfNoFile(fs, dir, "zip", LegacyStates, Debug, dropped);
  }

  /** `ModuleManager` of the library crate. */
  class LegacyManager {
    const path: string
    const watcher: ZipWatcher
    var moduleMap: ModuleMap

    ghost predicate Valid()
      reads this
    {
      WellFormedLegacy(moduleMap)
    }

    constructor (p: string)
      ensures path == p && watcher.dir == p && moduleMap == map[]
      ensures Valid()
    {
      path := p;
      watcher := new ZipWatcher(p);
      moduleMap := map[];
    }

    /** `running_modules`: the number of Deployed modules, counted by a fold
        over the map. */
    method RunningModules() returns (n: int)
      ensures n == |Running(moduleMap)|
    {
      var remaining := moduleMap.Keys;
      n := 0;
      while remaining != {}
        invariant remaining <= moduleMap.Keys
        invariant n == |Running(moduleMap) - remaining|
        decreases remaining
      {
        var k :| k in remaining;
        if moduleMap[k].status == Deployed {
          assert Running(moduleMap) - (remaining - {k}) == (Running(moduleMap) - remaining) + {k};
          n := n + 1;
        } else {
          assert Running(moduleMap) - (remaining - {k}) == Running(moduleMap) - remaining;
        }
        remaining := remaining - {k};
      }
    }

    /** `get_handle`: a handle only for a present Deployed module. */
    function GetHandle(name: string): (r: Option<string>)
      reads this
      ensures r.Some? <==> name in Running(moduleMap)
      ensures r.Some? ==> r.value == name
    {
      if name !in moduleMap then None
      else if moduleMap[name].status == Deployed then Some(name)
      else None
    }

    /** `get_to_undeploy`: the names whose files no longer exist, each once. */
    method GetToUndeploy(disk: Disk) returns (names: seq<string>)
      ensures forall k :: k in names <==> k in Missing(moduleMap, disk.fs)
      ensures forall i, j :: 0 <= i < j < |names| ==> names[i] != names[j]
    {
      var remaining := moduleMap.Keys;
      names := [];
      while remaining != {}
        invariant remaining <= moduleMap.Keys
        invariant forall k :: k in names <==> k in Missing(moduleMap, disk.fs) && k !in remaining
        invariant forall i, j :: 0 <= i < j < |names| ==> names[i] != names[j]
        decreases remaining
      {
        var k :| k in remaining;
        if moduleMap[k].filePath !in disk.fs.files {
          names := names + [k];
        }
        remaining := remaining - {k};
      }
    }

    /** `deploy`. */
    method Deploy(disk: Disk, name: string) returns (r: Result<bool, string>)
      modifies this
      ensures (r, moduleMap) == LegacyDeploySpec(old(moduleMap), name, disk.fs)
    {
      if name !in moduleMap {
        return Failure("Cannot find module by name " + name + " during deploy");
      }
      var item := moduleMap[name];
      var outcome := disk.fs.Build(item.filePath);
      if !outcome.Compiled? {
        return Failure(LegacyCompileReason(outcome));
      }
      moduleMap := moduleMap[name := Module(item.checksum, name, Deployed, item.filePath, Some(outcome.unit))];
      r := Success(true);
    }

    /** `undeploy`: removes the file (its failure ignored) and the entry. */
    method Undeploy(disk: Disk, name: string) returns (r: Result<Status, string>)
      modifies this, disk
      ensures (r, moduleMap, disk.fs) == LegacyUndeploySpec(old(moduleMap), name, old(disk.fs))
    {
      if name !in moduleMap {
        return Failure("Cannot find module by name " + name + " during undeploy");
      }
      var _ := disk.RemoveFile(moduleMap[name].filePath);
      moduleMap := moduleMap - {name};
      r := Success(Undeployed);
    }

    /** `load`. The second arm for UNDEPLOYED in the source can never be
        reached and is not repeated here. */
    method Load(disk: Disk, name: string, next: Status)
      modifies this, disk
      ensures (moduleMap, disk.fs) == LegacyLoadSpec(old(moduleMap), old(disk.fs), name, next)
    {
      if name !in moduleMap {
        return;
      }
      match moduleMap[name].status
      case Undeployed =>
        var _ := Deploy(disk, name);
      case Undeploy =>
      case Deployed =>
        if next == Status.Undeploy || next == Status.Undeployed {
          var _ := Undeploy(disk, name);
        }
      case Deploy =>
    }

    /** `tick`: as the runner crate's ModuleManager, but a load may delete
        files, so later entries see the files as the earlier ones left them. */
    method Tick(disk: Disk) returns (panicked: bool, ghost dropped: seq<WatcherEntry>)
      requires Valid()
      modifies this, disk
      ensures Valid()
      ensures Scanned(old(disk.fs), watcher.dir, "zip", LegacyStates, Debug, dropped)
      ensures (moduleMap, disk.fs, panicked) == LegacyTickSpec(old(moduleMap), old(disk.fs), dropped)
    {
      ghost var m0 := moduleMap;
      ghost var fs0 := disk.fs;
      var entries := watcher.Run(disk);
      dropped := entries;
      panicked := AdmitEntries(disk, entries);
      LegacyTickKeepsWellFormed(m0, fs0, entries);
      if panicked {
        return;
      }
      UndeployMissing(disk);
    }

    /** The loop over the watcher's entries, stopping at the first panic. */
    method AdmitEntries(disk: Disk, entries: seq<WatcherEntry>) returns (panicked: bool)
      modifies this, disk
      ensures (moduleMap, disk.fs, panicked) == LegacyAdmitUntilPanic(old(moduleMap), old(disk.fs), entries)
    {
      ghost var fs0 := disk.fs;
      ghost var m0 := moduleMap;
      for i := 0 to |entries|
        invariant (moduleMap, disk.fs, false) == LegacyAdmitUntilPanic(m0, fs0, entries[..i])
      {
        assert entries[..i + 1][..i] == entries[..i];
        var entry := entries[i];
        var name := FileStem(entry.path.name);
        var next := FromString(entry.nextStatus);
        var checksum := disk.fs.Checksum(entry.path);
        if checksum.None? {
          PanicSticks(m0, fs0, entries, i);
          return true;
        }
        if name in moduleMap {
          if checksum.value != moduleMap[name].checksum {
            Load(disk, name, next);
          }
        } else {
          moduleMap := moduleMap[name := Fresh(checksum.value, name, entry.path)];
          Load(disk, name, next);
        }
      }
      assert entries[..|entries|] == entries;
      panicked := false;
    }

    /** `undeploy` for every name `get_to_undeploy` returns: each drops its
        entry, and the removal of its (missing) file changes nothing. */
    method UndeployMissing(disk: Disk)
      modifies this, disk
      ensures disk.fs == old(disk.fs)
      ensures moduleMap == Prune(old(moduleMap), disk.fs)
    {
      ghost var fs0 := disk.fs;
      ghost var m0 := moduleMap;
      var toUndeploy := GetToUndeploy(disk);
      ghost var removed: set<string> := {};
      for i := 0 to |toUndeploy|
        invariant disk.fs == fs0
        invariant removed <= Missing(m0, fs0)
        invariant moduleMap == m0 - removed
        invariant forall j :: 0 <= j < i ==> toUndeploy[j] in removed
        invariant forall j :: i <= j < |toUndeploy| ==> toUndeploy[j] !in removed
      {
        var x := toUndeploy[i];
        assert x in toUndeploy;
        assert forall j :: i < j < |toUndeploy| ==> toUndeploy[j] != x;
        var _ := Undeploy(disk, x);
        removed := removed + {x};
      }
      forall k | k in Missing(m0, fs0)
        ensures k in removed
      {
        assert k in toUndeploy;
      }
      MissingRemovedIsPrune(m0, fs0);
    }
  }

  /** Once the entries up to `k` went through, an unreadable entry `k`
      makes the whole fold panic with the state reached before it. */
  lemma {:induction false} PanicSticks(m: ModuleMap, fs: FileSystem, es: seq<WatcherEntry>, k: nat)
    requires k < |es|
    requires !LegacyAdmitUntilPanic(m, fs, es[..k]).2
    requires LegacyAdmitUntilPanic(m, fs, es[..k]).1.Checksum(es[k].path).None?
    ensures LegacyAdmitUntilPanic(m, fs, es) == (LegacyAdmitUntilPanic(m, fs, es[..k]).0, LegacyAdmitUntilPanic(m, fs, es[..k]).1, true)
  {
    assert es[..k + 1][..k] == es[..k];
    if k + 1 < |es| {
      var front := es[..|es| - 1];
      assert front[..k] == es[..k] && front[k] == es[k];
      PanicSticks(m, fs, front, k);
    } else {
      assert es[..k + 1] == es;
    }
  }
}
