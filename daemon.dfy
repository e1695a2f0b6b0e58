/**
 * The gRPC service of the daemon crate: `list` projects the manager's
 * running modules, `load` writes an uploaded archive chunk by chunk into
 * the watched directory, and `replace`/`unload` are fixed replies.
 *
 * A stream is the sequence of chunks the client sent, and whether asking
 * for the next chunk after them fails (a broken transport).
 */
module Daemon {
  import opened Wrappers
  import opened Files
  import opened Watcher
  import opened Lifecycle
  import Modules

  datatype Part = Part(fileName: string, zipFileBytes: seq<byte>)

  datatype Stream = Stream(parts: seq<Part>, broken: bool)

  datatype ModuleLoadReply = ModuleLoadReply(success: bool, errorMessage: Option<string>, time: int)

  /** How a call to `load` ends: a reply, an error status returned to the
      client (`?` on the stream or on the file), or a panic (`unwrap`). */
  datatype Outcome = Replied(reply: ModuleLoadReply) | Errored | Panicked

  // ---------------------------------------------------------------------
  // The upload as a fold over the chunks
  // ---------------------------------------------------------------------

  /** The bytes of all chunks, in order. */
  function Concat(parts: seq<Part>): seq<byte>
  {
    if parts == [] then [] else Concat(parts[..|parts| - 1]) + parts[|parts| - 1].zipFileBytes
  }

  /** The state of the handler between chunks: the files, the target path
      (fixed by the first chunk), the write offset, and whether a step failed. */
  datatype Upload = Upload(fs: FileSystem, target: Option<Path>, offset: nat, failed: bool)

  /** The path the handler writes to: the target, or for the first chunk
      its file name in the watched directory. */
  function TargetOf(u: Upload, dir: string, part: Part): Path
  {
    if u.target.Some? then u.target.value else Path(dir, part.fileName)
  }

  /** One chunk as written: an existing target (a file, or the directory
      an empty, "." or ".." name joins to) is opened read-only, so the write
      fails; a missing one is created and the chunk written at the offset. */
  function Receive(u: Upload, dir: string, part: Part): Upload
  {
    if u.failed then u
    else
      var path := TargetOf(u, dir, part);
      if u.fs.Exists(path) || path in u.fs.locked then u.(target := Some(path), failed := true)
      else
        var written := File(Overwrite([], u.offset, part.zipFileBytes), true);
        Upload(u.fs.(files := u.fs.files[path := written]), Some(path), u.offset + |part.zipFileBytes|, false)
  }

  function Received(fs: FileSystem, dir: string, parts: seq<Part>): Upload
  {
    if parts == [] then Upload(fs, None, 0, false)
    else Receive(Received(fs, dir, parts[..|parts| - 1]), dir, parts[|parts| - 1])
  }

  /** The end of `load` as written: the reply claims success (`!success` of
      a flag never set) yet carries an error message. */
  function UploadOutcome(fs: FileSystem, dir: string, s: Stream): (Outcome, FileSystem)
  {
    var u := Received(fs, dir, s.parts);
    if u.failed || s.broken then (Errored, u.fs)
    else if u.target.None? then (Panicked, u.fs)
    else (Replied(ModuleLoadReply(true, Some("Cannot load file at " + Display(u.target.value)), 0)), u.fs)
  }

  /** What the chunks do as written: the target is the first chunk's name;
      the upload fails as soon as a chunk finds the target existing or
      locked, which every chunk after the first does; when the target was
      new, it holds exactly the first chunk. */
  lemma {:induction false} ReceivedShape(fs: FileSystem, dir: string, parts: seq<Part>)
    requires parts != []
    ensures Received(fs, dir, parts).target == Some(Path(dir, parts[0].fileName))
    ensures Received(fs, dir, parts).failed <==>
      |parts| > 1 || fs.Exists(Path(dir, parts[0].fileName)) || Path(dir, parts[0].fileName) in fs.locked
    ensures Received(fs, dir, parts).fs ==
      if fs.Exists(Path(dir, parts[0].fileName)) || Path(dir, parts[0].fileName) in fs.locked then fs
      else fs.(files := fs.files[Path(dir, parts[0].fileName) := File(parts[0].zipFileBytes, true)])
  {
    if |parts| > 1 {
      var front := parts[..|parts| - 1];
      assert front[0] == parts[0];
      ReceivedShape(fs, dir, front);
    } else {
      assert parts[..0] == [];
      OverwriteEmpty(parts[0].zipFileBytes);
    }
  }

  lemma OverwriteEmpty(data: seq<byte>)
    ensures Overwrite([], 0, data) == data
  {
    assert Overwrite([], 0, data)[0..|data|] == data;
  }

  /** `load` as written replies only to a one-chunk upload of a new, unlocked
      file over an intact stream; any other upload ends in an error (or, with
      no chunk at all, a panic). */
  lemma UploadSucceedsOnlyForOneChunk(fs: FileSystem, dir: string, s: Stream)
    ensures UploadOutcome(fs, dir, s).0.Replied? <==>
      |s.parts| == 1 && !s.broken && !fs.Exists(Path(dir, s.parts[0].fileName)) && Path(dir, s.parts[0].fileName) !in fs.locked
    ensures s.parts == [] && !s.broken ==> UploadOutcome(fs, dir, s).0 == Panicked
    ensures UploadOutcome(fs, dir, s).0.Replied? ==>
      UploadOutcome(fs, dir, s).0.reply.success && UploadOutcome(fs, dir, s).0.reply.errorMessage.Some?
  {
    if s.parts != [] {
      ReceivedShape(fs, dir, s.parts);
    }
  }

  /** Two chunks "AB" then "CD" to a new file: the handler ends in an error
      and the file holds only "AB". */
  lemma TwoChunkUploadFails(fs: FileSystem, dir: string)
    requires Path(dir, "m.zip") !in fs.files && Path(dir, "m.zip") !in fs.locked
    ensures var s := Stream([Part("m.zip", [65, 66]), Part("m.zip", [67, 68])], false);
      UploadOutcome(fs, dir, s) == (Errored, fs.(files := fs.files[Path(dir, "m.zip") := File([65, 66], true)]))
  {
    ReceivedShape(fs, dir, [Part("m.zip", [65, 66]), Part("m.zip", [67, 68])]);
  }

  /** A one-chunk upload to a new file: the reply says success and carries
      the error message "Cannot load file at <path>" all the same. */
  lemma OneChunkReplyContradicts(fs: FileSystem, dir: string)
    requires Path(dir, "m.zip") !in fs.files && Path(dir, "m.zip") !in fs.locked
    ensures var s := Stream([Part("m.zip", [65, 66])], false);
      UploadOutcome(fs, dir, s).0 ==
        Replied(ModuleLoadReply(true, Some("Cannot load file at " + Display(Path(dir, "m.zip"))), 0))
  {
    ReceivedShape(fs, dir, [Part("m.zip", [65, 66])]);
  }

  // ---------------------------------------------------------------------
  // The upload as evidently intended
  // ---------------------------------------------------------------------

  /** One chunk as intended: the first chunk creates (or truncates) the
      target, later ones open it for writing; each is written at the
      offset. */
  function ReceiveFixed(u: Upload, dir: string, part: Part): Upload
  {
    if u.failed then u
    else
      var path := TargetOf(u, dir, part);
      if path in u.fs.locked || NamesDirectory(path) then u.(target := Some(path), failed := true)
      else
        var base := if u.target.None? || path !in u.fs.files then File([], true) else u.fs.files[path];
        var written := base.(bytes := Overwrite(base.bytes, u.offset, part.zipFileBytes));
        Upload(u.fs.(files := u.fs.files[path := written]), Some(path), u.offset + |part.zipFileBytes|, false)
  }

  function ReceivedFixed(fs: FileSystem, dir: string, parts: seq<Part>): Upload
  {
    if parts == [] then Upload(fs, None, 0, false)
    else ReceiveFixed(ReceivedFixed(fs, dir, parts[..|parts| - 1]), dir, parts[|parts| - 1])
  }

  /** The end of the corrected `load`: `success` is set once a chunk has
      been written, so a stream without chunks still takes the error-message
      branch and panics at `full_path.unwrap()`; any written upload replies
      success without a message. */
  function FixedOutcome(fs: FileSystem, dir: string, s: Stream): (Outcome, FileSystem)
  {
    var u := ReceivedFixed(fs, dir, s.parts);
    if u.failed || s.broken then (Errored, u.fs)
    else if u.target.None? then (Panicked, u.fs)
    else (Replied(ModuleLoadReply(true, None, 0)), u.fs)
  }

  lemma AppendAt(before: seq<byte>, data: seq<byte>)
    ensures Overwrite(before, |before|, data) == before + data
  {
    var r := Overwrite(before, |before|, data);
    assert r[..|before|] == before;
    assert r[|before|..] == data;
  }

  /** As intended, the uploaded file holds exactly the chunks in order and
      the offset is their total length; nothing else changes. */
  lemma {:induction false} ReceivedFixedConcat(fs: FileSystem, dir: string, parts: seq<Part>)
    requires parts != [] && Path(dir, parts[0].fileName) !in fs.locked && !NamesDirectory(Path(dir, parts[0].fileName))
    ensures ReceivedFixed(fs, dir, parts) ==
      Upload(fs.(files := fs.files[Path(dir, parts[0].fileName) := File(Concat(parts), true)]),
             Some(Path(dir, parts[0].fileName)), |Concat(parts)|, false)
  {
    var path := Path(dir, parts[0].fileName);
    var last := parts[|parts| - 1];
    if |parts| > 1 {
      var front := parts[..|parts| - 1];
      assert front[0] == parts[0];
      ReceivedFixedConcat(fs, dir, front);
      ReceiveFixedAppends(fs, path, Concat(front), dir, last);
    } else {
      assert parts[..0] == [];
      OverwriteEmpty(last.zipFileBytes);
      assert Concat(parts) == last.zipFileBytes;
    }
  }

  /** A later chunk of the corrected upload appends to what the target holds. */
  lemma ReceiveFixedAppends(fs: FileSystem, path: Path, before: seq<byte>, dir: string, part: Part)
    requires path !in fs.locked && !NamesDirectory(path)
    ensures ReceiveFixed(Upload(fs.(files := fs.files[path := File(before, true)]), Some(path), |before|, false), dir, part) ==
      Upload(fs.(files := fs.files[path := File(before + part.zipFileBytes, true)]), Some(path), |before + part.zipFileBytes|, false)
  {
    AppendAt(before, part.zipFileBytes);
    assert fs.files[path := File(before, true)][path := File(before + part.zipFileBytes, true)]
      == fs.files[path := File(before + part.zipFileBytes, true)];
  }

  /** The corrected `load` replies success without an error message to any
      intact upload of at least one chunk to an unlocked file, and the
      target then holds every chunk. */
  lemma FixedUploadStoresAll(fs: FileSystem, dir: string, s: Stream)
    requires s.parts != [] && !s.broken && Path(dir, s.parts[0].fileName) !in fs.locked
    requires !NamesDirectory(Path(dir, s.parts[0].fileName))
    ensures FixedOutcome(fs, dir, s) ==
      (Replied(ModuleLoadReply(true, None, 0)),
       fs.(files := fs.files[Path(dir, s.parts[0].fileName) := File(Concat(s.parts), true)]))
  {
    ReceivedFixedConcat(fs, dir, s.parts);
  }

  /** An upload whose file name is empty, "." or ".." targets a directory:
      as written the directory is opened read-only and the write fails; the
      corrected handler cannot create it. Both end in an error and write
      nothing. */
  lemma DirectoryTargetFails(fs: FileSystem, dir: string, s: Stream)
    requires s.parts != [] && NamesDirectory(Path(dir, s.parts[0].fileName))
    ensures UploadOutcome(fs, dir, s) == (Errored, fs)
    ensures FixedOutcome(fs, dir, s) == (Errored, fs)
  {
    ReceivedShape(fs, dir, s.parts);
    FixedDirectorySticks(fs, dir, s.parts);
  }

  lemma {:induction false} FixedDirectorySticks(fs: FileSystem, dir: string, parts: seq<Part>)
    requires parts != [] && NamesDirectory(Path(dir, parts[0].fileName))
    ensures ReceivedFixed(fs, dir, parts) == Upload(fs, Some(Path(dir, parts[0].fileName)), 0, true)
  {
    if |parts| > 1 {
      var front := parts[..|parts| - 1];
      assert front[0] == parts[0];
      FixedDirectorySticks(fs, dir, front);
    } else {
      assert parts[..0] == [];
    }
  }

  // ---------------------------------------------------------------------
  // The service
  // ---------------------------------------------------------------------

  datatype ModuleListReplyItem = ModuleListReplyItem(
    name: string, status: string, successes: int, failures: int, totalMessages: int, failRatePerMinute: real)

  datatype ModuleListReply = ModuleListReply(items: seq<ModuleListReplyItem>, itemNo: int)

  datatype ModuleReplaceReply = ModuleReplaceReply(success: bool, errorMessage: Option<string>, time: int)

  datatype ModuleUnloadReply = ModuleUnloadReply(success: bool, errorMessage: Option<string>, unloadedModuleName: string, time: int)

  /** `len() as i32`: the count modulo 2^32, read as a signed 32-bit value. */
  function AsI32(n: nat): (r: int)
    ensures -0x8000_0000 <= r < 0x8000_0000
    ensures n < 0x8000_0000 ==> r == n
    ensures (r - n) % 0x1_0000_0000 == 0
  {
    var low := n % 0x1_0000_0000;
    if low < 0x8000_0000 then low else low - 0x1_0000_0000
  }

  /** The reply items for the running modules, in their order: name and
      status word, every counter zero. */
  function Items(running: seq<Module>): (items: seq<ModuleListReplyItem>)
    ensures |items| == |running|
    ensures forall i :: 0 <= i < |items| ==>
      items[i].name == running[i].name && items[i].status == AsString(running[i].status)
    ensures forall i :: 0 <= i < |items| ==>
      items[i].successes == 0 && items[i].failures == 0 && items[i].totalMessages == 0 && items[i].failRatePerMinute == 0.0
  {
    seq(|running|, i requires 0 <= i < |running| =>
      ModuleListReplyItem(running[i].name, AsString(running[i].status), 0, 0, 0, 0.0))
  }

  /** `items` lists the running modules of `m` in the order `names` gives
      them: every running module once, no other. */
  ghost predicate ListsRunning(items: seq<ModuleListReplyItem>, m: ModuleMap, names: seq<string>)
  {
    && |names| == |items|
    && (forall i, j :: 0 <= i < j < |names| ==> names[i] != names[j])
    && (forall k :: k in names <==> k in Running(m))
    && forall i :: 0 <= i < |names| ==> names[i] in m && items[i].name == m[names[i]].name
  }

  class MyModules {
    const manager: Modules.ModuleManager

    constructor (m: Modules.ModuleManager)
      ensures manager == m
    {
      manager := m;
    }

    /** `list`: one item per running module, each with status "deployed";
        for a manager whose map is well formed there is none. */
    method List() returns (reply: ModuleListReply)
      ensures |reply.items| == |Running(manager.moduleMap)|
      ensures exists names :: ListsRunning(reply.items, manager.moduleMap, names)
      ensures forall i :: 0 <= i < |reply.items| ==>
        reply.items[i].status == "deployed" && exists k :: k in Running(manager.moduleMap) && reply.items[i].name == manager.moduleMap[k].name
      ensures forall i :: 0 <= i < |reply.items| ==>
        reply.items[i].successes == 0 && reply.items[i].failures == 0 &&
        reply.items[i].totalMessages == 0 && reply.items[i].failRatePerMinute == 0.0
      ensures reply.itemNo == AsI32(|reply.items|)
      ensures manager.Valid() ==> reply.items == []
    {
      var running, names := manager.RunningModules();
      var items := Items(running);
      ItemsListRunning(running, names, manager.moduleMap);
      if manager.Valid() {
        NothingRuns(manager.moduleMap);
      }
      reply := ModuleListReply(items, AsI32(|items|));
      assert ListsRunning(reply.items, manager.moduleMap, names);
    }

    /** `load` as written. */
    method Load(disk: Disk, stream: Stream) returns (outcome: Outcome)
      modifies disk
      ensures (outcome, disk.fs) == UploadOutcome(old(disk.fs), manager.watcher.dir, stream)
    {
      ghost var fs0 := disk.fs;
      var dir := manager.watcher.dir;
      var success := false;
      var fullPath: Option<Path> := None;
      var offset: nat := 0;
      var i := 0;
      while i < |stream.parts|
        invariant 0 <= i <= |stream.parts|
        invariant Received(fs0, dir, stream.parts[..i]) == Upload(disk.fs, fullPath, offset, false)
      {
        ReceivedStep(fs0, dir, stream.parts, i);
        var path, isOpen, written := WriteChunk(disk, dir, fullPath, offset, stream.parts[i]);
        fullPath := Some(path);
        if !isOpen {
          success := false;
        }
        if !written {
          UploadFailureSticks(fs0, dir, stream.parts, i + 1);
          return Errored;
        }
        offset := offset + |stream.parts[i].zipFileBytes|;
        i := i + 1;
      }
      assert stream.parts[..|stream.parts|] == stream.parts;
      assert Received(fs0, dir, stream.parts) == Upload(disk.fs, fullPath, offset, false);
      if stream.broken {
        return Errored;
      }
      if !success {
        if fullPath.None? {
          return Panicked;
        }
        outcome := Replied(ModuleLoadReply(!success, Some("Cannot load file at " + Display(fullPath.value)), 0));
      } else {
        outcome := Replied(ModuleLoadReply(!success, None, 0));
      }
    }

    /** `load` as evidently intended: the target is created (or truncated)
        by the first chunk and opened for writing for the others, and the
        reply reports success without an error message. */
    method LoadFixed(disk: Disk, stream: Stream) returns (outcome: Outcome)
      modifies disk
      ensures (outcome, disk.fs) == FixedOutcome(old(disk.fs), manager.watcher.dir, stream)
    {
      var fullPath, offset, failed := ReceiveAllFixed(disk, manager.watcher.dir, stream.parts);
      if failed || stream.broken {
        return Errored;
      }
      if fullPath.None? {
        return Panicked;
      }
      outcome := Replied(ModuleLoadReply(true, None, 0));
    }

    /** `replace`: not implemented; always the same reply. */
    method Replace() returns (reply: ModuleReplaceReply)
      ensures !reply.success && reply.errorMessage.None? && reply.time == 0
    {
      reply := ModuleReplaceReply(false, None, 0);
    }

    /** `unload`: not implemented; always the same reply, naming "proc". */
    method Unload() returns (reply: ModuleUnloadReply)
      ensures !reply.success && reply.errorMessage.None? && reply.unloadedModuleName == "proc" && reply.time == 0
    {
      reply := ModuleUnloadReply(false, None, "proc", 0);
    }
  }

  /** One pass of the upload loop as written: open the target (read-only if
      it exists, created otherwise), then write the chunk at the offset. */
  method WriteChunk(disk: Disk, dir: string, target: Option<Path>, offset: nat, item: Part)
    returns (path: Path, isOpen: bool, written: bool)
    modifies disk
    ensures Receive(Upload(old(disk.fs), target, offset, false), dir, item) ==
      Upload(disk.fs, Some(path), if written then offset + |item.zipFileBytes| else offset, !written)
    ensures written ==> isOpen
  {
    path := if target.Some? then target.value else Path(dir, item.fileName);
    var file: Result<Handle, IoError>;
    if disk.fs.Exists(path) {
      file := disk.Open(path);
    } else {
      file := disk.Create(path);
    }
    isOpen := file.Success?;
    written := false;
    if isOpen {
      var r := disk.WriteAt(file.value, item.zipFileBytes, offset);
      written := r.Success?;
      if written {
        assert old(disk.fs).files[path := File([], true)][path := File(Overwrite([], offset, item.zipFileBytes), true)]
          == old(disk.fs).files[path := File(Overwrite([], offset, item.zipFileBytes), true)];
      }
    }
  }

  /** One pass of the corrected loop: create the target for the first
      chunk, open it for writing for the others, then write at the offset. */
  method WriteChunkFixed(disk: Disk, dir: string, target: Option<Path>, offset: nat, item: Part)
    returns (path: Path, written: bool)
    modifies disk
    ensures ReceiveFixed(Upload(old(disk.fs), target, offset, false), dir, item) ==
      Upload(disk.fs, Some(path), if written then offset + |item.zipFileBytes| else offset, !written)
  {
    path := if target.Some? then target.value else Path(dir, item.fileName);
    var file: Result<Handle, IoError>;
    if target.None? {
      file := disk.Create(path);
    } else {
      file := disk.OpenForWrite(path);
    }
    written := false;
    if file.Success? {
      ghost var created := disk.fs;
      var _ := disk.WriteAt(file.value, item.zipFileBytes, offset);
      written := true;
      assert disk.fs.files == created.files[path := created.files[path].(bytes := Overwrite(created.files[path].bytes, offset, item.zipFileBytes))];
    }
  }

  /** The loop of the corrected `load` over the chunks delivered: it stops
      at the first chunk that cannot be written. */
  method ReceiveAllFixed(disk: Disk, dir: string, parts: seq<Part>) returns (fullPath: Option<Path>, offset: nat, failed: bool)
    modifies disk
    ensures ReceivedFixed(old(disk.fs), dir, parts) == Upload(disk.fs, fullPath, offset, failed)
  {
    ghost var fs0 := disk.fs;
    fullPath, offset, failed := None, 0, false;
    var i := 0;
    while i < |parts|
      invariant 0 <= i <= |parts|
      invariant ReceivedFixed(fs0, dir, parts[..i]) == Upload(disk.fs, fullPath, offset, false)
    {
      ReceivedFixedStep(fs0, dir, parts, i);
      var path, written := WriteChunkFixed(disk, dir, fullPath, offset, parts[i]);
      fullPath := Some(path);
      if !written {
        FixedFailureSticks(fs0, dir, parts, i + 1);
        failed := true;
        return;
      }
      offset := offset + |parts[i].zipFileBytes|;
      i := i + 1;
    }
    assert parts[..|parts|] == parts;
  }

  /** The items of the running modules, as `running_modules` returns them,
      name each running module once, all with status "deployed". */
  lemma ItemsListRunning(running: seq<Module>, names: seq<string>, m: ModuleMap)
    requires |names| == |running|
    requires forall i :: 0 <= i < |running| ==> names[i] in m && running[i] == m[names[i]]
    requires forall k :: k in names <==> k in Running(m)
    requires forall i, j :: 0 <= i < j < |names| ==> names[i] != names[j]
    ensures ListsRunning(Items(running), m, names)
    ensures |Items(running)| == |Running(m)|
    ensures forall i :: 0 <= i < |running| ==>
      Items(running)[i].status == "deployed" && exists k :: k in Running(m) && Items(running)[i].name == m[k].name
  {
    var items := Items(running);
    forall i | 0 <= i < |items|
      ensures items[i].status == "deployed"
      ensures exists k :: k in Running(m) && items[i].name == m[k].name
    {
      assert names[i] in names;
    }
    DistinctLength(names, Running(m));
  }

  /** One more chunk is one more step of the fold. */
  lemma ReceivedStep(fs: FileSystem, dir: string, parts: seq<Part>, i: nat)
    requires i < |parts|
    ensures Received(fs, dir, parts[..i + 1]) == Receive(Received(fs, dir, parts[..i]), dir, parts[i])
  {
    assert parts[..i + 1][..i] == parts[..i];
  }

  lemma ReceivedFixedStep(fs: FileSystem, dir: string, parts: seq<Part>, i: nat)
    requires i < |parts|
    ensures ReceivedFixed(fs, dir, parts[..i + 1]) == ReceiveFixed(ReceivedFixed(fs, dir, parts[..i]), dir, parts[i])
  {
    assert parts[..i + 1][..i] == parts[..i];
  }

  /** A sequence without repetitions listing exactly a set is as long as it. */
  lemma {:induction false} DistinctLength(names: seq<string>, s: set<string>)
    requires forall k :: k in names <==> k in s
    requires forall i, j :: 0 <= i < j < |names| ==> names[i] != names[j]
    ensures |names| == |s|
  {
    if names != [] {
      var last := names[|names| - 1];
      var front := names[..|names| - 1];
      assert forall k :: k in front <==> k in s - {last} by {
        forall k | k in front
          ensures k != last
        {
          var i :| 0 <= i < |front| && front[i] == k;
          assert names[i] == k;
        }
        forall k | k in s - {last}
          ensures k in front
        {
          var i :| 0 <= i < |names| && names[i] == k;
          assert i != |names| - 1;
          assert front[i] == k;
        }
      }
      DistinctLength(front, s - {last});
    }
  }

  /** Once a chunk fails, the rest of the stream changes nothing. */
  lemma {:induction false} UploadFailureSticks(fs: FileSystem, dir: string, parts: seq<Part>, k: nat)
    requires k <= |parts| && Received(fs, dir, parts[..k]).failed
    ensures Received(fs, dir, parts) == Received(fs, dir, parts[..k])
  {
    if k < |parts| {
      var front := parts[..|parts| - 1];
      assert front[..k] == parts[..k];
      UploadFailureSticks(fs, dir, front, k);
    } else {
      assert parts[..k] == parts;
    }
  }

  lemma {:induction false} FixedFailureSticks(fs: FileSystem, dir: string, parts: seq<Part>, k: nat)
    requires k <= |parts| && ReceivedFixed(fs, dir, parts[..k]).failed
    ensures ReceivedFixed(fs, dir, parts) == ReceivedFixed(fs, dir, parts[..k])
  {
    if k < |parts| {
      var front := parts[..|parts| - 1];
      assert front[..k] == parts[..k];
      FixedFailureSticks(fs, dir, front, k);
    } else {
      assert parts[..k] == parts;
    }
  }
}
