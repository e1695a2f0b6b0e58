/**
 * The hot-folder watcher of the runner crate: it lists a directory, keeps
 * the module files (extension "wasm") and gives each one the state named by
 * the last marker file `<stem>.<state>` found beside it.
 *
 * `Scan` is the loop shared with the older watcher of the library crate,
 * which differs only in the extension, the list of states and how the stem
 * is formatted into a marker name.
 */
module Watcher {
  import opened Wrappers
  import opened Files

  /** One module file found by the watcher, with the state its markers ask for. */
  datatype WatcherEntry = WatcherEntry(path: Path, nextStatus: string)

  /** The states a marker file may name, in the order they are checked. */
  const AlternateStates: seq<string> := ["deploy", "undeploy", "running", "undeployed", "redeploy"]

  /** How the stem goes into a marker name: `{}` (as is) or `{:?}` (quoted). */
  datatype StemFormat = Plain | Debug

  function MarkerStem(stem: string, format: StemFormat): string
  {
    match format
    case Plain => stem
    case Debug => DebugQuote(stem)
  }

  /** The marker file `<stem>.<state>` in `dir`. */
  function Marker(dir: string, markerStem: string, state: string): Path
  {
    Path(dir, markerStem + "." + state)
  }

  /** The state of the last marker in `states` that exists, "deploy" when none does. */
  function LatestMarker(fs: FileSystem, dir: string, markerStem: string, states: seq<string>): (r: string)
    ensures r == "deploy" || r in states
  {
    if states == [] then "deploy"
    else
      var last := states[|states| - 1];
      if Marker(dir, markerStem, last) in fs.files then last
      else LatestMarker(fs, dir, markerStem, states[..|states| - 1])
  }

  /** The later marker wins: the result is the state of the last existing
      marker, and "deploy" when no marker exists. */
  lemma {:induction false} LatestMarkerWins(fs: FileSystem, dir: string, markerStem: string, states: seq<string>, i: int)
    requires 0 <= i < |states|
    requires Marker(dir, markerStem, states[i]) in fs.files
    requires forall j :: i < j < |states| ==> Marker(dir, markerStem, states[j]) !in fs.files
    ensures LatestMarker(fs, dir, markerStem, states) == states[i]
  {
    if i < |states| - 1 {
      var front := states[..|states| - 1];
      assert forall j :: i < j < |front| ==> front[j] == states[j];
      LatestMarkerWins(fs, dir, markerStem, front, i);
    }
  }

  lemma {:induction false} NoMarkerMeansDeploy(fs: FileSystem, dir: string, markerStem: string, states: seq<string>)
    requires forall j :: 0 <= j < |states| ==> Marker(dir, markerStem, states[j]) !in fs.files
    ensures LatestMarker(fs, dir, markerStem, states) == "deploy"
  {
    if states != [] {
      var front := states[..|states| - 1];
      assert forall j :: 0 <= j < |front| ==> front[j] == states[j];
      NoMarkerMeansDeploy(fs, dir, markerStem, front);
    }
  }

  /** A module file of `dir`: its extension is exactly `ext`. */
  predicate IsModuleFile(fs: FileSystem, dir: string, ext: string, p: Path)
  {
    p in fs.files && p.dir == dir && Extension(p.name) == Some(ext)
  }

  /** The entry the scan makes for one module file is right: the file is a
      module file and its status is the one its latest marker names. */
  ghost predicate EntryOk(fs: FileSystem, dir: string, ext: string, states: seq<string>, format: StemFormat,
                          e: WatcherEntry)
  {
    IsModuleFile(fs, dir, ext, e.path) &&
    e.nextStatus == LatestMarker(fs, dir, MarkerStem(FileStem(e.path.name), format), states)
  }

  /** What a directory scan returns: one entry per module file, each file
      once, with the state its latest marker names. */
  ghost predicate Scanned(fs: FileSystem, dir: string, ext: string, states: seq<string>, format: StemFormat,
                          dropped: seq<WatcherEntry>)
  {
    && (forall i :: 0 <= i < |dropped| ==> EntryOk(fs, dir, ext, states, format, dropped[i]))
    && (forall p :: IsModuleFile(fs, dir, ext, p) ==> exists i :: 0 <= i < |dropped| && dropped[i].path == p)
    && (forall i, j :: 0 <= i < j < |dropped| ==> dropped[i].path != dropped[j].path)
  }

  /** The marker lookup for one file: every state is tried in order and the
      last marker that exists decides. */
  method LatestState(disk: Disk, dir: string, markerStem: string, states: seq<string>) returns (status: string)
    ensures status == LatestMarker(disk.fs, dir, markerStem, states)
  {
    status := "deploy";
    for k := 0 to |states|
      invariant status == LatestMarker(disk.fs, dir, markerStem, states[..k])
    {
      assert states[..k + 1][..k] == states[..k];
      if Marker(dir, markerStem, states[k]) in disk.fs.files {
        status := states[k];
      }
    }
    assert states[..|states|] == states;
  }

  /** The body of `DirectoryWatcher::run`: walk the directory (in an order
      the file system chooses), keep the files with extension `ext` and
      look for their markers. */
  method Scan(disk: Disk, dir: string, ext: string, states: seq<string>, format: StemFormat)
    returns (dropped: seq<WatcherEntry>)
    ensures Scanned(disk.fs, dir, ext, states, format, dropped)
  {
    var remaining := disk.fs.ListDir(dir);
    ghost var listed := remaining;
    ghost var seen: set<Path> := {};
    dropped := [];
    while remaining != {}
      invariant remaining + seen == listed && remaining !! seen
      invariant forall i :: 0 <= i < |dropped| ==> dropped[i].path in seen
      invariant forall i :: 0 <= i < |dropped| ==> EntryOk(disk.fs, dir, ext, states, format, dropped[i])
      invariant forall p :: p in seen && IsModuleFile(disk.fs, dir, ext, p) ==>
        exists i :: 0 <= i < |dropped| && dropped[i].path == p
      invariant forall i, j :: 0 <= i < j < |dropped| ==> dropped[i].path != dropped[j].path
      decreases remaining
    {
      var path :| path in remaining;
      assert path in disk.fs.files && path.dir == dir;
      remaining := remaining - {path};
      if Extension(path.name) == Some(ext) {
        var status := LatestState(disk, dir, MarkerStem(FileStem(path.name), format), states);
        var e := WatcherEntry(path, status);
        assert EntryOk(disk.fs, dir, ext, states, format, e);
        AppendEntry(dropped, e, seen);
        ghost var prev := dropped;
        dropped := dropped + [e];
        forall p | p in seen && IsModuleFile(disk.fs, dir, ext, p)
          ensures exists i :: 0 <= i < |dropped| && dropped[i].path == p
        {
          var i :| 0 <= i < |prev| && prev[i].path == p;
          assert dropped[i] == prev[i];
        }
        assert dropped[|prev|].path == path;
      } else {
        assert !IsModuleFile(disk.fs, dir, ext, path);
      }
      seen := seen + {path};
    }
    forall p | IsModuleFile(disk.fs, dir, ext, p)
      ensures p in seen
    {
      assert p in listed;
    }
  }

  /** Appending the entry of a file not seen before keeps the paths distinct
      and makes the file found. */
  lemma AppendEntry(dropped: seq<WatcherEntry>, e: WatcherEntry, seen: set<Path>)
    requires forall i :: 0 <= i < |dropped| ==> dropped[i].path in seen
    requires forall i, j :: 0 <= i < j < |dropped| ==> dropped[i].path != dropped[j].path
    requires e.path !in seen
    ensures forall i, j :: 0 <= i < j < |dropped + [e]| ==> (dropped + [e])[i].path != (dropped + [e])[j].path
    ensures (dropped + [e])[|dropped|].path == e.path
  {
  }

  /** A directory with a single module file: the scan reports it once,
      with the status of its latest marker. */
  lemma {:induction false} ScanOfOneFile(fs: FileSystem, dir: string, ext: string, states: seq<string>,
                                         format: StemFormat, dropped: seq<WatcherEntry>, p: Path)
    requires Scanned(fs, dir, ext, states, format, dropped)
    requires IsModuleFile(fs, dir, ext, p)
    requires forall q :: IsModuleFile(fs, dir, ext, q) ==> q == p
    ensures dropped == [WatcherEntry(p, LatestMarker(fs, dir, MarkerStem(FileStem(p.name), format), states))]
  {
    var j :| 0 <= j < |dropped| && dropped[j].path == p;
    forall i | 0 <= i < |dropped|
      ensures dropped[i].path == p
    {
      assert EntryOk(fs, dir, ext, states, format, dropped[i]);
    }
    FirstTwo(dropped);
    assert EntryOk(fs, dir, ext, states, format, dropped[0]);
  }

  /** Names the first two elements of a sequence, for the solver. */
  lemma FirstTwo<T>(s: seq<T>)
    ensures |s| > 1 ==> s[0] in s && s[1] in s
  {
  }

  /** A directory without module files: the scan reports nothing. */
  lemma ScanOfNoFile(fs: FileSystem, dir: string, ext: string, states: seq<string>,
                     format: StemFormat, dropped: seq<WatcherEntry>)
    requires Scanned(fs, dir, ext, states, format, dropped)
    requires forall q :: !IsModuleFile(fs, dir, ext, q)
    ensures dropped == []
  {
    assert |dropped| > 0 ==> EntryOk(fs, dir, ext, states, format, dropped[0]);
  }

  /** The markers `<stem>.<state>` of one stem, for every state. */
  ghost function StemMarkers(dir: string, stem: string): set<Path>
  {
    set s | s in AlternateStates :: Marker(dir, stem, s)
  }

  /** The markers of one stem for the first `k` states. */
  ghost function FirstMarkers(dir: string, stem: string, k: nat): set<Path>
    requires k <= |AlternateStates|
  {
    set s | s in AlternateStates[..k] :: Marker(dir, stem, s)
  }

  /** Every marker of every file in `listed`. */
  ghost function MarkersOf(dir: string, listed: set<Path>): set<Path>
  {
    set p, s | p in listed && s in AlternateStates :: Marker(dir, FileStem(p.name), s)
  }

  /** The first marker removals of one file: a marker that exists and is not
      locked is removed; a failed removal is ignored. */
  method RemoveStemMarkers(disk: Disk, dir: string, stem: string)
    modifies disk
    ensures disk.fs == old(disk.fs).(files := old(disk.fs.files) - (StemMarkers(dir, stem) - old(disk.fs.locked)))
  {
    ghost var fs0 := disk.fs;
    for k := 0 to |AlternateStates|
      invariant disk.fs == fs0.(files := fs0.files - (FirstMarkers(dir, stem, k) - fs0.locked))
    {
      var statePath := Marker(dir, stem, AlternateStates[k]);
      if statePath in disk.fs.files {
        var _ := disk.RemoveFile(statePath);
      }
      FirstMarkersStep(dir, stem, k);
      RemoveStep(fs0.files, FirstMarkers(dir, stem, k), statePath, fs0.locked);
    }
    assert AlternateStates[..|AlternateStates|] == AlternateStates;
  }

  lemma FirstMarkersStep(dir: string, stem: string, k: nat)
    requires k < |AlternateStates|
    ensures FirstMarkers(dir, stem, k + 1) == FirstMarkers(dir, stem, k) + {Marker(dir, stem, AlternateStates[k])}
  {
    assert AlternateStates[..k + 1] == AlternateStates[..k] + [AlternateStates[k]];
  }

  /** Removing one more path from a map that already lost `a` (except what is locked). */
  lemma RemoveStep<K, V>(m: map<K, V>, a: set<K>, p: K, locked: set<K>)
    ensures p in m - (a - locked) && p !in locked ==> (m - (a - locked)) - {p} == m - ((a + {p}) - locked)
    ensures !(p in m - (a - locked) && p !in locked) ==> m - (a - locked) == m - ((a + {p}) - locked)
  {
  }

  lemma RemoveUnion<K, V>(m: map<K, V>, a: set<K>, b: set<K>, locked: set<K>)
    ensures (m - (a - locked)) - (b - locked) == m - ((a + b) - locked)
  {
  }

  lemma MarkersOfAdd(dir: string, done: set<Path>, file: Path)
    ensures MarkersOf(dir, done + {file}) == MarkersOf(dir, done) + StemMarkers(dir, FileStem(file.name))
  {
  }

  /** The watcher of the runner crate. */
  class DirectoryWatcher {
    const dir: string

    constructor (p: string)
      ensures dir == p
    {
      dir := p;
    }

    /** `run`: one entry per ".wasm" file of the directory, whose next status
        is one of AlternateStates and "deploy" when no marker exists. */
    method Run(disk: Disk) returns (dropped: seq<WatcherEntry>)
      ensures Scanned(disk.fs, dir, "wasm", AlternateStates, Plain, dropped)
      ensures forall i :: 0 <= i < |dropped| ==> dropped[i].nextStatus in AlternateStates
    {
      dropped := Scan(disk, dir, "wasm", AlternateStates, Plain);
      forall i | 0 <= i < |dropped|
        ensures dropped[i].nextStatus in AlternateStates
      {
        assert EntryOk(disk.fs, dir, "wasm", AlternateStates, Plain, dropped[i]);
      }
    }

    /** `remove_next_states`: removes every existing marker of every file of
        the directory; a removal that fails is only logged, so a locked
        marker stays. */
    method RemoveNextStates(disk: Disk)
      modifies disk
      ensures disk.fs == old(disk.fs).(files := old(disk.fs.files) - (MarkersOf(dir, old(disk.fs.ListDir(dir))) - old(disk.fs.locked)))
    {
      ghost var fs0 := disk.fs;
      var remaining := disk.fs.ListDir(dir);
      ghost var done: set<Path> := {};
      while remaining != {}
        invariant remaining + done == fs0.ListDir(dir) && remaining !! done
        invariant disk.fs == fs0.(files := fs0.files - (MarkersOf(dir, done) - fs0.locked))
        decreases remaining
      {
        var file :| file in remaining;
        RemoveStemMarkers(disk, dir, FileStem(file.name));
        RemoveUnion(fs0.files, MarkersOf(dir, done), StemMarkers(dir, FileStem(file.name)), fs0.locked);
        MarkersOfAdd(dir, done, file);
        remaining := remaining - {file};
        done := done + {file};
      }
    }
  }
}
