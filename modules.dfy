/**
 * `ModuleManager` of the runner crate: the same life cycle as
 * `FunctionManager`, but `tick` takes in the watcher's entries first and
 * undeploys the modules whose files are gone afterwards, and computing a
 * checksum panics when the file cannot be read.
 */
module Modules {
  import opened Wrappers
  import opened Files
  import opened Watcher
  import opened Lifecycle

  class ModuleManager {
    const watcher: DirectoryWatcher
    var moduleMap: ModuleMap

    ghost predicate Valid()
      reads this
    {
      WellFormed(moduleMap)
    }

    constructor (path: string)
      ensures watcher.dir == path && moduleMap == map[]
      ensures Valid()
    {
      watcher := new DirectoryWatcher(path);
      moduleMap := map[];
    }

    /** `running_modules`: the Deployed modules, each once, in the map's
        iteration order (left open). */
    method RunningModules() returns (r: seq<Module>, ghost names: seq<string>)
      ensures |names| == |r|
      ensures forall i :: 0 <= i < |r| ==> names[i] in moduleMap && r[i] == moduleMap[names[i]]
      ensures forall k :: k in names <==> k in Running(moduleMap)
      ensures forall i, j :: 0 <= i < j < |names| ==> names[i] != names[j]
    {
      var remaining := moduleMap.Keys;
      r, names := [], [];
      while remaining != {}
        invariant remaining <= moduleMap.Keys
        invariant |names| == |r|
        invariant forall i :: 0 <= i < |r| ==> names[i] in moduleMap && r[i] == moduleMap[names[i]]
        invariant forall k :: k in names <==> k in Running(moduleMap) && k !in remaining
        invariant forall i, j :: 0 <= i < j < |names| ==> names[i] != names[j]
        decreases remaining
      {
        var k :| k in remaining;
        if moduleMap[k].status == Deployed {
          r, names := r + [moduleMap[k]], names + [k];
        }
        remaining := remaining - {k};
      }
    }

    /** `get_handle`: a handle only for a present Deployed module. A
        Deployed module without a compilation unit would panic (`unwrap`). */
    function GetHandle(name: string): (r: Option<ModuleHandle>)
      reads this
      requires name in moduleMap && moduleMap[name].status == Deployed ==> moduleMap[name].compilation.Some?
      ensures r.Some? <==> name in Running(moduleMap)
      ensures r.Some? ==> r.value == ModuleHandle(name, moduleMap[name].compilation.value)
    {
      if name !in moduleMap then None
      else if moduleMap[name].status == Deployed then Some(ModuleHandle(name, moduleMap[name].compilation.value))
      else None
    }

    /** `get_to_undeploy`: the names whose files no longer exist, each once. */
    method GetToUndeploy(disk: Disk) returns (names: seq<string>)
      ensures forall k :: k in names <==> k in Missing(moduleMap, disk.fs)
      ensures forall i, j :: 0 <= i < j < |names| ==> names[i] != names[j]
    {
      var remaining := moduleMap.Keys;
      names := [];
      while remaining != {}
        invariant remaining <= moduleMap.Keys
        invariant forall k :: k in names <==> k in Missing(moduleMap, disk.fs) && k !in remaining
        invariant forall i, j :: 0 <= i < j < |names| ==> names[i] != names[j]
        decreases remaining
      {
        var k :| k in remaining;
        if moduleMap[k].filePath !in disk.fs.files {
          names := names + [k];
        }
        remaining := remaining - {k};
      }
    }

    /** `change_status`: the module, with the new status, replaces the entry
        under `name`, which must exist (`unwrap`). */
    method ChangeStatus(name: string, item: Module, status: Status)
      requires name in moduleMap
      modifies this
      ensures moduleMap == old(moduleMap)[name := item.(status := status)]
    {
      moduleMap := moduleMap[name := item.(status := status)];
    }

    /** `deploy`: tries the build steps on the module's archive; only success
        changes the map. */
    method Deploy(disk: Disk, name: string) returns (r: Result<Status, ManagerError>)
      modifies this
      ensures (r, moduleMap) == DeploySpec(old(moduleMap), name, disk.fs)
    {
      var snapshot := moduleMap;
      if name !in snapshot {
        return Failure(UnavailableModule(name));
      }
      var item := snapshot[name];
      var outcome := disk.fs.Build(item.filePath);
      if !outcome.Compiled? {
        return Failure(CompilationError(name, CompileReason(outcome)));
      }
      ChangeStatus(name, item, Status.Deploy);
      r := Success(Deployed);
    }

    /** `undeploy`: drops a module whose file is gone, after a removal of
        that missing file (which changes nothing). */
    method Undeploy(disk: Disk, name: string) returns (r: Result<Status, ManagerError>)
      modifies this, disk
      ensures (r, moduleMap) == UndeploySpec(old(moduleMap), name, old(disk.fs))
      ensures disk.fs == old(disk.fs)
    {
      if name !in moduleMap {
        return Failure(UnavailableModule(name));
      }
      var path := moduleMap[name].filePath;
      if path !in disk.fs.files {
        var _ := disk.RemoveFile(path);
        moduleMap := moduleMap - {name};
      }
      r := Success(Undeployed);
    }

    /** `load`: dispatches on the stored status. */
    method Load(disk: Disk, name: string, next: Status)
      modifies this, disk
      ensures moduleMap == LoadSpec(old(moduleMap), name, next, old(disk.fs))
      ensures disk.fs == old(disk.fs)
    {
      if name !in moduleMap {
        return;
      }
      match moduleMap[name].status
      case Deploy =>
        if next == Status.Undeploy || next == Status.Undeployed {
          var r := Undeploy(disk, name);
          assert r.Success?;
        }
      case Deployed =>
      case Undeploy =>
      case Undeployed =>
        var _ := Deploy(disk, name);
    }

    /** `tick`: admit every entry the watcher reports, in its order, then
        undeploy the modules whose files are gone. An unreadable file makes
        the checksum panic: the tick stops there, `panicked` is set and the
        map is as the earlier entries left it. */
    method Tick(disk: Disk) returns (panicked: bool, ghost dropped: seq<WatcherEntry>)
      requires Valid()
      modifies this, disk
      ensures Valid()
      ensures disk.fs == old(disk.fs)
      ensures Scanned(disk.fs, watcher.dir, "wasm", AlternateStates, Plain, dropped)
      ensures panicked == AdmitUntilPanic(old(moduleMap), dropped, disk.fs).1
      ensures panicked ==> moduleMap == AdmitUntilPanic(old(moduleMap), dropped, disk.fs).0
      ensures !panicked ==> moduleMap == Prune(AdmitAll(old(moduleMap), dropped, disk.fs), disk.fs)
    {
      ghost var m0 := moduleMap;
      var entries := watcher.Run(disk);
      dropped := entries;
      panicked := AdmitEntries(disk, entries);
      AdmitAllPanicKeepsWellFormed(m0, entries, disk.fs);
      if panicked {
        return;
      }
      ghost var m1 := moduleMap;
      UndeployMissing(disk);
      PruneKeepsWellFormed(m1, disk.fs);
    }

    /** The loop over the watcher's entries, stopping at the first panic. */
    method AdmitEntries(disk: Disk, entries: seq<WatcherEntry>) returns (panicked: bool)
      modifies this, disk
      ensures disk.fs == old(disk.fs)
      ensures (moduleMap, panicked) == AdmitUntilPanic(old(moduleMap), entries, disk.fs)
    {
      ghost var fs0 := disk.fs;
      ghost var m0 := moduleMap;
      for i := 0 to |entries|
        invariant disk.fs == fs0
        invariant (moduleMap, false) == AdmitUntilPanic(m0, entries[..i], fs0)
      {
        assert entries[..i + 1][..i] == entries[..i];
        var entry := entries[i];
        var name := FileStem(entry.path.name);
        var next := FromString(entry.nextStatus);
        var checksum := disk.fs.Checksum(entry.path);
        if checksum.None? {
          forall j | 0 <= j < i
            ensures fs0.Checksum(entries[j].path).Some?
          {
            assert entries[..i][j] == entries[j];
          }
          PanicKeepsPrefix(m0, entries, fs0, i);
          return true;
        }
        if name in moduleMap {
          if checksum.value != moduleMap[name].checksum {
            Load(disk, name, next);
          }
        } else {
          moduleMap := moduleMap[name := Fresh(checksum.value, name, entry.path)];
          Load(disk, name, next);
        }
      }
      assert entries[..|entries|] == entries;
      panicked := false;
    }

    /** The loop after the entries: `undeploy` (which cannot fail here) for
        every name `get_to_undeploy` returns. */
    method UndeployMissing(disk: Disk)
      modifies this, disk
      ensures disk.fs == old(disk.fs)
      ensures moduleMap == Prune(old(moduleMap), disk.fs)
    {
      ghost var fs0 := disk.fs;
      ghost var m0 := moduleMap;
      var toUndeploy := GetToUndeploy(disk);
      ghost var removed: set<string> := {};
      for i := 0 to |toUndeploy|
        invariant disk.fs == fs0
        invariant removed <= Missing(m0, fs0)
        invariant moduleMap == m0 - removed
        invariant forall j :: 0 <= j < i ==> toUndeploy[j] in removed
        invariant forall j :: i <= j < |toUndeploy| ==> toUndeploy[j] !in removed
      {
        var x := toUndeploy[i];
        assert x in toUndeploy;
        assert forall j :: i < j < |toUndeploy| ==> toUndeploy[j] != x;
        var r := Undeploy(disk, x);
        assert r.Success?;
        removed := removed + {x};
      }
      forall k | k in Missing(m0, fs0)
        ensures k in removed
      {
        assert k in toUndeploy;
      }
      MissingRemovedIsPrune(m0, fs0);
    }
  }

  /** Whether or not the tick panics, the map stays well formed. */
  lemma {:induction false} AdmitAllPanicKeepsWellFormed(m: ModuleMap, es: seq<WatcherEntry>, fs: FileSystem)
    requires WellFormed(m)
    ensures WellFormed(AdmitUntilPanic(m, es, fs).0)
  {
    if es != [] {
      var front := es[..|es| - 1];
      AdmitAllPanicKeepsWellFormed(m, front, fs);
      AdmitKeepsWellFormed(AdmitUntilPanic(m, front, fs).0, es[|es| - 1], fs);
    }
  }

  /** The crate's test, second tick: with `module.zip` in the directory the
      watcher reports nothing, so the map stays empty and nothing runs. */
  lemma ZipDropLoadsNothing(fs: FileSystem, dir: string, dropped: seq<WatcherEntry>)
    requires fs.files.Keys == {Path(dir, "module.zip")}
    requires Scanned(fs, dir, "wasm", AlternateStates, Plain, dropped)
    ensures AdmitUntilPanic(map[], dropped, fs) == (map[], false)
    ensures Prune(map[], fs) == map[] && Running(map[]) == {}
  {
    JoinName("module", "zip");
    assert "module" + "." + "zip" == "module.zip";
    ScanOfNoFile(fs, dir, "wasm", AlternateStates, Plain, dropped);
  }
}
