/**
 * `FunctionManager` of the runner crate: a module map updated by `tick`,
 * which first undeploys the modules whose files are gone and then takes in
 * what the watcher reports.
 */
module Functions {
  import opened Wrappers
  import opened Files
  import opened Watcher
  import opened Lifecycle

  class FunctionManager {
    const watcher: DirectoryWatcher
    var moduleMap: ModuleMap

    ghost predicate Valid()
      reads this
    {
      WellFormed(moduleMap)
    }

    constructor (path: string)
      ensures watcher.dir == path && moduleMap == map[]
      ensures Valid()
    {
      watcher := new DirectoryWatcher(path);
      moduleMap := map[];
    }

    /** `running_modules`: the Deployed modules, each once, in the map's
        iteration order (left open). */
    method RunningModules() returns (r: seq<Module>, ghost names: seq<string>)
      ensures |names| == |r|
      ensures forall i :: 0 <= i < |r| ==> names[i] in moduleMap && r[i] == moduleMap[names[i]]
      ensures forall k :: k in names <==> k in Running(moduleMap)
      ensures forall i, j :: 0 <= i < j < |names| ==> names[i] != names[j]
    {
      var remaining := moduleMap.Keys;
      r, names := [], [];
      while remaining != {}
        invariant remaining <= moduleMap.Keys
        invariant |names| == |r|
        invariant forall i :: 0 <= i < |r| ==> names[i] in moduleMap && r[i] == moduleMap[names[i]]
        invariant forall k :: k in names <==> k in Running(moduleMap) && k !in remaining
        invariant forall i, j :: 0 <= i < j < |names| ==> names[i] != names[j]
        decreases remaining
      {
        var k :| k in remaining;
        if moduleMap[k].status == Deployed {
          r, names := r + [moduleMap[k]], names + [k];
        }
        remaining := remaining - {k};
      }
    }

    /** `get_handle`: a handle only for a present Deployed module. A
        Deployed module without a compilation unit would panic (`unwrap`). */
    function GetHandle(name: string): (r: Option<ModuleHandle>)
      reads this
      requires name in moduleMap && moduleMap[name].status == Deployed ==> moduleMap[name].compilation.Some?
      ensures r.Some? <==> name in Running(moduleMap)
      ensures r.Some? ==> r.value == ModuleHandle(name, moduleMap[name].compilation.value)
    {
      if name in moduleMap && moduleMap[name].status == Deployed then
        Some(ModuleHandle(name, moduleMap[name].compilation.value))
      else None
    }

    /** `get_to_undeploy`: the names whose files no longer exist, each once. */
    method GetToUndeploy(disk: Disk) returns (names: seq<string>)
      ensures forall k :: k in names <==> k in Missing(moduleMap, disk.fs)
      ensures forall i, j :: 0 <= i < j < |names| ==> names[i] != names[j]
    {
      var remaining := moduleMap.Keys;
      names := [];
      while remaining != {}
        invariant remaining <= moduleMap.Keys
        invariant forall k :: k in names <==> k in Missing(moduleMap, disk.fs) && k !in remaining
        invariant forall i, j :: 0 <= i < j < |names| ==> names[i] != names[j]
        decreases remaining
      {
        var k :| k in remaining;
        if moduleMap[k].filePath !in disk.fs.files {
          names := names + [k];
        }
        remaining := remaining - {k};
      }
    }

    /** `change_status`: the module, with the new status, replaces the entry
        under `name`, which must exist (`unwrap`). */
    method ChangeStatus(name: string, item: Module, status: Status)
      requires name in moduleMap
      modifies this
      ensures moduleMap == old(moduleMap)[name := item.(status := status)]
    {
      moduleMap := moduleMap[name := item.(status := status)];
    }

    /** `deploy`: tries the build steps on the module's archive; only success
        changes the map. */
    method Deploy(disk: Disk, name: string) returns (r: Result<Status, ManagerError>)
      modifies this
      ensures (r, moduleMap) == DeploySpec(old(moduleMap), name, disk.fs)
    {
      var snapshot := moduleMap;
      if name !in snapshot {
        return Failure(UnavailableModule(name));
      }
      var item := snapshot[name];
      var outcome := disk.fs.Build(item.filePath);
      if !outcome.Compiled? {
        return Failure(CompilationError(name, CompileReason(outcome)));
      }
      ChangeStatus(name, item, Status.Deploy);
      r := Success(Deployed);
    }

    /** `undeploy`: drops a module whose file is gone, after a removal of
        that missing file (which changes nothing). */
    method Undeploy(disk: Disk, name: string) returns (r: Result<Status, ManagerError>)
      modifies this, disk
      ensures (r, moduleMap) == UndeploySpec(old(moduleMap), name, old(disk.fs))
      ensures disk.fs == old(disk.fs)
    {
      if name !in moduleMap {
        return Failure(UnavailableModule(name));
      }
      var path := moduleMap[name].filePath;
      if path !in disk.fs.files {
        var _ := disk.RemoveFile(path);
        moduleMap := moduleMap - {name};
      }
      r := Success(Undeployed);
    }

    /** `load`: dispatches on the stored status. */
    method Load(disk: Disk, name: string, next: Status)
      modifies this, disk
      ensures moduleMap == LoadSpec(old(moduleMap), name, next, old(disk.fs))
      ensures disk.fs == old(disk.fs)
    {
      if name !in moduleMap {
        return;
      }
      match moduleMap[name].status
      case Deploy =>
        if next == Status.Undeploy || next == Status.Undeployed {
          var r := Undeploy(disk, name);
          assert r.Success?;
        }
      case Deployed =>
      case Undeploy =>
      case Undeployed =>
        var _ := Deploy(disk, name);
    }

    /** `tick`: undeploy the modules whose files are gone, then admit every
        entry the watcher reports, in its order. */
    method Tick(disk: Disk) returns (ghost dropped: seq<WatcherEntry>)
      requires Valid()
      modifies this, disk
      ensures Valid()
      ensures disk.fs == old(disk.fs)
      ensures Scanned(disk.fs, watcher.dir, "wasm", AlternateStates, Plain, dropped)
      ensures moduleMap == AdmitAll(Prune(old(moduleMap), disk.fs), dropped, disk.fs)
      ensures forall k :: k in moduleMap ==> moduleMap[k].filePath in disk.fs.files
      ensures forall k :: k in old(moduleMap) && old(moduleMap)[k].filePath in disk.fs.files ==> k in moduleMap
    {
      ghost var m0 := moduleMap;
      UndeployMissing(disk);
      PruneKeepsWellFormed(m0, disk.fs);
      var entries := watcher.Run(disk);
      dropped := entries;
      forall i | 0 <= i < |entries|
        ensures entries[i].path in disk.fs.files
      {
        assert EntryOk(disk.fs, watcher.dir, "wasm", AlternateStates, Plain, entries[i]);
      }
      ghost var m1 := moduleMap;
      AdmitEntries(disk, entries);
      AdmitAllKeepsWellFormed(m1, entries, disk.fs);
      AdmitAllKeepsPresent(m1, entries, disk.fs);
    }

    /** The first half of `tick`: `undeploy` (which cannot fail here) for
        every name `get_to_undeploy` returns. */
    method UndeployMissing(disk: Disk)
      modifies this, disk
      ensures disk.fs == old(disk.fs)
      ensures moduleMap == Prune(old(moduleMap), disk.fs)
    {
      ghost var fs0 := disk.fs;
      ghost var m0 := moduleMap;
      var toUndeploy := GetToUndeploy(disk);
      ghost var removed: set<string> := {};
      for i := 0 to |toUndeploy|
        invariant disk.fs == fs0
        invariant removed <= Missing(m0, fs0)
        invariant moduleMap == m0 - removed
        invariant forall j :: 0 <= j < i ==> toUndeploy[j] in removed
        invariant forall j :: i <= j < |toUndeploy| ==> toUndeploy[j] !in removed
      {
        var x := toUndeploy[i];
        assert x in toUndeploy;
        assert forall j :: i < j < |toUndeploy| ==> toUndeploy[j] != x;
        var r := Undeploy(disk, x);
        assert r.Success?;
        removed := removed + {x};
      }
      forall k | k in Missing(m0, fs0)
        ensures k in removed
      {
        assert k in toUndeploy;
      }
      MissingRemovedIsPrune(m0, fs0);
    }

    /** The second half of `tick`: each watcher entry in turn, as Admit says. */
    method AdmitEntries(disk: Disk, entries: seq<WatcherEntry>)
      modifies this, disk
      ensures disk.fs == old(disk.fs)
      ensures moduleMap == AdmitAll(old(moduleMap), entries, disk.fs)
    {
      ghost var fs0 := disk.fs;
      ghost var m1 := moduleMap;
      for i := 0 to |entries|
        invariant disk.fs == fs0
        invariant moduleMap == AdmitAll(m1, entries[..i], fs0)
      {
        assert entries[..i + 1][..i] == entries[..i];
        var entry := entries[i];
        var name := FileStem(entry.path.name);
        var next := FromString(entry.nextStatus);
        var checksum := disk.fs.Checksum(entry.path);
        if name in moduleMap {
          if checksum.Some? && checksum.value != moduleMap[name].checksum {
            Load(disk, name, next);
          }
        } else if checksum.Some? {
          moduleMap := moduleMap[name := Fresh(checksum.value, name, entry.path)];
          Load(disk, name, next);
        }
      }
      assert entries[..|entries|] == entries;
    }
  }

  /** The runner test drops `module.zip`: the watcher of this crate only
      takes ".wasm" files, so a tick over that directory admits nothing and
      an empty map stays empty. */
  lemma ZipDropIgnored(fs: FileSystem, dir: string, dropped: seq<WatcherEntry>)
    requires fs.files.Keys == {Path(dir, "module.zip")}
    requires Scanned(fs, dir, "wasm", AlternateStates, Plain, dropped)
    ensures dropped == []
    ensures AdmitAll(Prune(map[], fs), dropped, fs) == map[]
  {
    JoinName("module", "zip");
    assert "module" + "." + "zip" == "module.zip";
    ScanOfNoFile(fs, dir, "wasm", AlternateStates, Plain, dropped);
  }

  /** No marker of "module" is the file "module.wasm". */
  lemma NoMarkerIsModuleFile(dir: string)
    ensures forall k :: 0 <= k < |AlternateStates| ==> Marker(dir, "module", AlternateStates[k]) != Path(dir, "module.wasm")
  {
    forall k | 0 <= k < |AlternateStates|
      ensures Marker(dir, "module", AlternateStates[k]) != Path(dir, "module.wasm")
    {
      var s := AlternateStates[k];
      assert ("module" + "." + s)[7..] == s;
      assert "module.wasm"[7..] == "wasm";
    }
  }

  /** The scan of a directory whose only file is `module.wasm` reports that
      file once, with status "deploy". */
  lemma SingleModuleScanned(fs: FileSystem, dir: string, dropped: seq<WatcherEntry>)
    requires fs.files.Keys == {Path(dir, "module.wasm")}
    requires Scanned(fs, dir, "wasm", AlternateStates, Plain, dropped)
    ensures dropped == [WatcherEntry(Path(dir, "module.wasm"), "deploy")]
  {
    var p := Path(dir, "module.wasm");
    JoinName("module", "wasm");
    assert "module" + "." + "wasm" == "module.wasm";
    ScanOfOneFile(fs, dir, "wasm", AlternateStates, Plain, dropped, p);
    NoMarkerIsModuleFile(dir);
    NoMarkerMeansDeploy(fs, dir, "module", AlternateStates);
  }

  /** A tick over a directory holding one readable `module.wasm` and no
      marker, from an empty map: the module is stored as Deploy when its
      archive builds, so `running_modules` still reports nothing. */
  lemma WasmDropDeploysButDoesNotRun(fs: FileSystem, dir: string, dropped: seq<WatcherEntry>)
    requires fs.files.Keys == {Path(dir, "module.wasm")} && fs.files[Path(dir, "module.wasm")].readable
    requires fs.Build(Path(dir, "module.wasm")).Compiled?
    requires Scanned(fs, dir, "wasm", AlternateStates, Plain, dropped)
    ensures AdmitAll(Prune(map[], fs), dropped, fs) ==
      map["module" := Module(fs.Checksum(Path(dir, "module.wasm")).value, "module", Deploy, Path(dir, "module.wasm"), None)]
    ensures Running(AdmitAll(Prune(map[], fs), dropped, fs)) == {}
  {
    SingleModuleScanned(fs, dir, dropped);
    JoinName("module", "wasm");
    assert "module" + "." + "wasm" == "module.wasm";
    assert Prune(map[], fs) == map[];
    assert dropped[..0] == [];
    NewFileIgnoresMarker(map[], dropped[0], fs);
  }
}
