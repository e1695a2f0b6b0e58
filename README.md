# wasm-central: module hot folder, managers and upload service

This project models the module life cycle of wasm-central and proves properties of it.

Modules are deployed by dropping an archive into a watched directory. Marker files `<stem>.<state>` beside an archive ask for a state change. On every tick a manager:

- lists the directory through its watcher;
- checksums each dropped file;
- inserts new names and reloads changed files;
- undeploys modules whose file is gone.

The model covers the following parts of the source:

- **Runner crate** (`crates/runner`):
  - the directory watcher;
  - its two managers, `FunctionManager` and `ModuleManager`.
  - They share one status machine and one set of operation specifications.
- **Library crate** (`src/lib.rs`):
  - the older zip watcher, which quotes the stem in marker names;
  - its manager, which stores a compilation unit and deletes the archive on undeploy.
- **Daemon** (`crates/daemon/src/main.rs`):
  - the gRPC `list` and `load` handlers;
  - the stubs `replace` and `unload`.
- **Mediator** (`crates/mediator/src/typing.rs`):
  - the schema traversal, as the trace of calls a schema writer receives;
  - the typing registry.

Layout, one Dafny module per file:

- `wrappers.dfy`: `Option` and `Result`.
- `files.dfy`:
  - paths and `file_stem`/`extension`;
  - `{:?}` quoting;
  - the file system as a value (`FileSystem`), with SHA-256 and the zip-and-compile step as opaque oracles of a file's bytes;
  - the mutable `Disk` with `remove_file`, `File::open`, `File::create` and `write_at`.
- `watcher.dfy`:
  - the marker lookup (`LatestMarker`);
  - the shared directory scan (`Scan`, specified by `Scanned`);
  - the runner crate's `DirectoryWatcher`.
- `lifecycle.dfy`: the status machine and module record, plus one pure specification per manager operation (`DeploySpec`, `UndeploySpec`, `LoadSpec`, `Admit`, `Prune`), with lemmas on what they preserve.
- `functions.dfy` and `modules.dfy`: the two manager classes. Each method is proved equal to the specifications.
- `legacy.dfy`: the library crate's watcher, its manager class and its specifications.
- `daemon.dfy`:
  - the upload handler, proved equal to a fold over the chunks (`Received`);
  - the same handler as evidently intended (`LoadFixed`);
  - `list`, `replace` and `unload`.
- `typing.dfy`: `Schema`, `write`/`adapt` as event traces, and `TypingRegistry`.

Each class keeps the source's mutable state:

- the manager's `module_map` is a `map` field;
- the file system is a `Disk` object;
- loops over a `HashMap` or `read_dir` choose their next element with `:|`, since iteration order is unspecified.

Central facts proved about the code as written:

- **The runner crate never runs a module.** `deploy` stores status Deploy and never Deployed, so `running_modules` is always empty and `get_handle` never returns a handle (`NothingRuns`, `WasmDropDeploysButDoesNotRun`). The repository's tests expect one running module; the model follows the code.
- **The runner watcher ignores archives.** It only accepts the extension "wasm", so the `module.zip` the tests drop produces no entry at all (`ZipDropIgnored`, `ZipDropLoadsNothing`).
- **Deployed modules are frozen.** Once a module is Deploy and its file is present, no later drop under its name changes it (`DeployedModuleFrozen`).
- **The library watcher ignores markers.** It quotes the stem, so a marker whose name does not begin with `"` is never seen (`UnquotedDirectoryMeansDeploy`).
- **Multi-chunk uploads fail.** The daemon's upload handler succeeds only for a single-chunk upload of a new file (`UploadSucceedsOnlyForOneChunk`). The handler moves `offset` on by each chunk's length and writes each chunk at the old offset (crates/daemon/src/main.rs:99-104), so chunks "AB" and "CD" are meant to yield "ABCD". As written they yield an error and a file holding "AB" (`TwoChunkUploadFails`); the model follows the code.

## Model

| member | source | states |
|---|---|---|
| Files.SplitName | crates/runner/src/watcher.rs:53-55 | a file name with an extension is its non-empty stem, a dot and a dot-free extension |
| Files.JoinName | crates/runner/src/watcher.rs:58-59 | a name built as `<stem>.<ext>` splits back into that stem and extension |
| Files.DebugQuote | src/lib.rs:50 | `{:?}` of a stem begins and ends with a double quote; between them each character is escaped as `char::escape_debug` escapes ASCII (both quotes, backslash, `\n`, `\r`, `\t`, `\0`, `\u{..}` for other controls), as `EscapeRoundTrip` and `ApostropheEscaped` pin down |
| Files.ApostropheEscaped | src/lib.rs:50 | the stem `it's` is quoted as `"it\'s"`, so its markers carry the escaped apostrophe |
| Files.EscapeRoundTrip | src/lib.rs:50 | the escaping of `{:?}` loses nothing: unescaping gives the stem back |
| Files.FileSystem.ListDir | crates/runner/src/watcher.rs:48-52 | `read_dir` yields exactly the files of the directory |
| Files.FileSystem.Checksum | crates/runner/src/functions.rs:16-22 | a checksum exists exactly for a present, readable file |
| Files.FileSystem.Build | crates/runner/src/functions.rs:284-294 | an archive that cannot be opened fails at the first step |
| Files.FileSystem.Remove | crates/runner/src/watcher.rs:39-41 | `remove_file` removes an unlocked path and leaves every other file as it was |
| Files.Overwrite | crates/daemon/src/main.rs:103 | `write_at` puts the data at the offset, keeps the other bytes and zero-fills a gap |
| Files.Disk.RemoveFile | crates/runner/src/watcher.rs:39-41 | the removal succeeds exactly for a present, unlocked path |
| Files.Disk.Open | crates/daemon/src/main.rs:93-94 | `File::open` gives a read-only handle (also for a directory), or NotFound / PermissionDenied |
| Files.Disk.Create | crates/daemon/src/main.rs:95-96 | `File::create` makes an empty writable file unless the path is locked or names a directory |
| Files.Disk.OpenForWrite | crates/daemon/src/main.rs:91-98 | a writable open that keeps existing contents and fails on a directory (used by the corrected upload) |
| Files.Disk.WriteAt | crates/daemon/src/main.rs:103 | a write through a read-only handle fails and changes nothing; otherwise the file becomes `Overwrite` of its bytes |
| Watcher.LatestMarker | crates/runner/src/watcher.rs:56-63 | the status is "deploy" or one of the states tried |
| Watcher.LatestMarkerWins | crates/runner/src/watcher.rs:57-62 | the last state whose marker exists decides the status |
| Watcher.NoMarkerMeansDeploy | crates/runner/src/watcher.rs:56-63 | without any marker the status is "deploy" |
| Watcher.LatestState | crates/runner/src/watcher.rs:56-63 | the marker loop computes `LatestMarker` |
| Watcher.Scan | crates/runner/src/watcher.rs:47-74 | one entry per file with the extension, each file once, each with its latest marker's state |
| Watcher.ScanOfOneFile | crates/runner/src/watcher.rs:50-71 | a directory with a single module file yields exactly that file's entry |
| Watcher.ScanOfNoFile | crates/runner/src/watcher.rs:50-73 | a directory without module files yields no entry |
| Watcher.RemoveStemMarkers | crates/runner/src/watcher.rs:34-43 | every existing, unlocked marker of one stem is removed and nothing else |
| Watcher.DirectoryWatcher.constructor | crates/runner/src/watcher.rs:27-29 | the watcher watches the given directory |
| Watcher.DirectoryWatcher.Run | crates/runner/src/watcher.rs:47-74 | the scan for ".wasm" files; every status is one of the five alternate states |
| Watcher.DirectoryWatcher.RemoveNextStates | crates/runner/src/watcher.rs:31-45 | removes every unlocked marker of every file of the directory and nothing else |
| Lifecycle.FromString | crates/runner/src/functions.rs:305-313 | each marker word maps to its status ("running" to Deployed); every other word maps to Undeployed |
| Lifecycle.StatusRoundTrip | crates/runner/src/functions.rs:305-323 | parsing a printed status gives it back except for Deployed, which comes back Undeployed |
| Lifecycle.WatcherStatesParse | crates/runner/src/watcher.rs:24 | the five watcher states parse; "redeploy" parses as Undeployed |
| Lifecycle.Running | crates/runner/src/functions.rs:78-84 | a name is running exactly when its entry is Deployed |
| Lifecycle.NothingRuns | crates/runner/src/functions.rs:251-252 | a well-formed map (statuses only Undeployed or Deploy) has no running module |
| Lifecycle.DeploySpec | crates/runner/src/functions.rs:207-258 | success exactly when the name is present and its archive builds; the error for each failing step; failure leaves the map; success sets only that status to Deploy and returns Deployed |
| Lifecycle.DeployIntended | crates/runner/src/functions.rs:251-252 | corrected deploy: same result as written, and the same map on failure |
| Lifecycle.DeployedModuleRuns | crates/runner/src/functions.rs:251-252 | with the corrected deploy a built module is running with its unit; as written it is not |
| Lifecycle.UndeploySpec | crates/runner/src/functions.rs:260-271 | a missing name is an error; a present one yields Undeployed and loses its entry only if its file is gone |
| Lifecycle.LoadSpec | crates/runner/src/functions.rs:163-205 | only the named entry changes: an Undeployed entry whose archive builds becomes Deploy; a Deploy entry asked to undeploy (Undeploy or Undeployed) whose file is gone is removed; the map is unchanged exactly when neither applies |
| Lifecycle.AdmitUntilPanic | crates/runner/src/modules.rs:85-110 | no panic exactly when every dropped file can be checksummed, and then all entries are admitted |
| Lifecycle.PanicKeepsPrefix | crates/runner/src/modules.rs:15-21 | a panic at the first unreadable file keeps the map the earlier entries made |
| Lifecycle.Prune | crates/runner/src/functions.rs:87-90 | exactly the modules whose files exist are kept, unchanged |
| Lifecycle.Missing | crates/runner/src/functions.rs:134-142 | the names whose files are gone |
| Lifecycle.MissingRemovedIsPrune | crates/runner/src/functions.rs:86-90 | undeploying every missing name is pruning |
| Lifecycle.LoadKeepsWellFormed | crates/runner/src/functions.rs:163-205 | `load` keeps the map well formed |
| Lifecycle.AdmitKeepsWellFormed | crates/runner/src/functions.rs:93-131 | handling one dropped file keeps the map well formed |
| Lifecycle.AdmitAllKeepsWellFormed | crates/runner/src/functions.rs:92-131 | handling any sequence of dropped files keeps the map well formed |
| Lifecycle.PruneKeepsWellFormed | crates/runner/src/functions.rs:87-90 | undeploying the missing modules keeps the map well formed |
| Lifecycle.AdmitKeepsPresent | crates/runner/src/functions.rs:111-123 | a present file is never dropped from the map, and a new entry always has its file |
| Lifecycle.AdmitAllKeepsPresent | crates/runner/src/functions.rs:92-131 | after the drops every stored file exists and no existing module is lost |
| Lifecycle.AdmitPathsKept | crates/runner/src/functions.rs:273-281 | a module keeps its file path through any drop |
| Lifecycle.UnchangedFileIgnored | crates/runner/src/functions.rs:98-104 | a drop with the stored checksum changes nothing |
| Lifecycle.NewFileIgnoresMarker | crates/runner/src/functions.rs:111-123 | a new file is stored under its stem and ends Deploy when it builds, Undeployed otherwise, whatever its marker says |
| Lifecycle.DeployedModuleFrozen | crates/runner/src/functions.rs:172-181 | a Deploy module whose file exists is never changed by a drop |
| Lifecycle.FailedModuleRetried | crates/runner/src/functions.rs:98-104 | an Undeployed module with a changed checksum is deployed again |
| Functions.FunctionManager.constructor | crates/runner/src/functions.rs:64-72 | an empty, well-formed manager watching the given directory |
| Functions.FunctionManager.RunningModules | crates/runner/src/functions.rs:78-84 | lists each running module exactly once |
| Functions.FunctionManager.GetHandle | crates/runner/src/functions.rs:144-161 | a handle exactly for a running name, carrying its compilation unit |
| Functions.FunctionManager.GetToUndeploy | crates/runner/src/functions.rs:134-142 | lists each module whose file is missing exactly once |
| Functions.FunctionManager.ChangeStatus | crates/runner/src/functions.rs:273-281 | the entry is replaced by the module with the new status |
| Functions.FunctionManager.Deploy | crates/runner/src/functions.rs:207-258 | result and new map are `DeploySpec` |
| Functions.FunctionManager.Undeploy | crates/runner/src/functions.rs:260-271 | result and new map are `UndeploySpec`; the files do not change |
| Functions.FunctionManager.Load | crates/runner/src/functions.rs:163-205 | the new map is `LoadSpec`; the files do not change |
| Functions.FunctionManager.Tick | crates/runner/src/functions.rs:86-132 | prune first, then admit the scanned drops in order; the map stays well formed, every stored file exists, present modules are kept |
| Functions.FunctionManager.UndeployMissing | crates/runner/src/functions.rs:87-90 | the map becomes `Prune` of the old one |
| Functions.FunctionManager.AdmitEntries | crates/runner/src/functions.rs:92-131 | the map becomes `AdmitAll` of the entries |
| Functions.ZipDropIgnored | crates/runner/tests/runner_tests.rs:18-23 | a directory holding only module.zip yields no entry and the map stays empty |
| Functions.SingleModuleScanned | crates/runner/src/watcher.rs:47-74 | a directory holding only module.wasm yields one entry with status "deploy" |
| Functions.WasmDropDeploysButDoesNotRun | crates/runner/src/functions.rs:251-252 | a built module.wasm ends stored as Deploy without a unit, and nothing runs |
| Modules.ModuleManager.constructor | crates/runner/src/modules.rs:63-71 | an empty, well-formed manager watching the given directory |
| Modules.ModuleManager.RunningModules | crates/runner/src/modules.rs:77-83 | lists each running module exactly once |
| Modules.ModuleManager.GetHandle | crates/runner/src/modules.rs:127-150 | a handle exactly for a running name, carrying its compilation unit |
| Modules.ModuleManager.GetToUndeploy | crates/runner/src/modules.rs:117-125 | lists each module whose file is missing exactly once |
| Modules.ModuleManager.ChangeStatus | crates/runner/src/modules.rs:263-271 | the entry is replaced by the module with the new status |
| Modules.ModuleManager.Deploy | crates/runner/src/modules.rs:195-246 | result and new map are `DeploySpec` |
| Modules.ModuleManager.Undeploy | crates/runner/src/modules.rs:248-261 | result and new map are `UndeploySpec`; the files do not change |
| Modules.ModuleManager.Load | crates/runner/src/modules.rs:152-193 | the new map is `LoadSpec`; the files do not change |
| Modules.ModuleManager.Tick | crates/runner/src/modules.rs:85-115 | admit the scanned drops in order, then prune; a panic at an unreadable file leaves the map as the earlier drops made it |
| Modules.ModuleManager.AdmitEntries | crates/runner/src/modules.rs:86-110 | map and panic flag are `AdmitUntilPanic` |
| Modules.ModuleManager.UndeployMissing | crates/runner/src/modules.rs:111-114 | the map becomes `Prune` of the old one |
| Modules.AdmitAllPanicKeepsWellFormed | crates/runner/src/modules.rs:85-110 | a tick that panics still leaves a well-formed map |
| Modules.ZipDropLoadsNothing | crates/daemon/tests/modules_tests.rs:21-27 | a directory holding only module.zip loads nothing, so nothing runs |
| Legacy.ZipWatcher.constructor | src/lib.rs:31-33 | the watcher watches the given directory |
| Legacy.ZipWatcher.Run | src/lib.rs:35-71 | one entry per ".zip" file, markers looked up under the quoted stem among four states |
| Legacy.QuotedMarkerName | src/lib.rs:50 | every marker name the library watcher looks for starts with a double quote |
| Legacy.UnquotedDirectoryMeansDeploy | src/lib.rs:47-55 | if no file name starts with a quote, every entry has status "deploy" |
| Legacy.LegacyDeploySpec | src/lib.rs:380-433 | success exactly when present and built, storing Deployed with the unit; the message of each failing step; failure leaves the map |
| Legacy.LegacyUndeploySpec | src/lib.rs:435-447 | a present module loses its entry and its archive file; a missing one is an error |
| Legacy.LegacyLoadSpec | src/lib.rs:341-378 | only the named entry changes: an Undeployed entry whose archive builds becomes Deployed with its unit and the files stay; a Deployed entry asked to undeploy loses its entry and its file; the file goes only with the entry; map and files are unchanged exactly when neither applies |
| Legacy.LegacyLoadKeepsWellFormed | src/lib.rs:341-378 | `load` keeps statuses Undeployed/Deployed with a unit exactly when Deployed |
| Legacy.LegacyAdmitKeepsWellFormed | src/lib.rs:286-302 | handling one dropped file keeps that invariant |
| Legacy.LegacyAdmitAllKeepsWellFormed | src/lib.rs:279-303 | handling the drops, panicking or not, keeps that invariant |
| Legacy.LegacyTickKeepsWellFormed | src/lib.rs:278-308 | a whole tick keeps that invariant |
| Legacy.RunningIffHandle | src/lib.rs:320-339 | some module runs exactly when some entry is Deployed with a unit to hand out |
| Legacy.ChangedDeployedNotRebuilt | src/lib.rs:365-369 | a changed archive of a Deployed module with a "deploy" marker is not redeployed |
| Legacy.UndeployDeletesArchive | src/lib.rs:435-447 | a changed archive with an undeploy marker deletes the module and its file |
| Legacy.FileHandlingDrop | src/lib.rs:521-523 | dropping a built module.zip into an empty directory yields one Deployed module, and one runs |
| Legacy.OnlyArchiveTick | src/lib.rs:278-308 | a tick over one buildable archive marked "deploy" stores it Deployed with its unit under its stem, leaves the files alone, and that module runs |
| Legacy.SingleArchiveScanned | src/lib.rs:35-71 | a directory holding only module.zip yields one entry with status "deploy" |
| Legacy.OnlyArchiveScanned | src/lib.rs:38-66 | a directory holding a single archive whose name does not begin with a double quote scans to that archive with status "deploy" |
| Legacy.FileHandlingRemove | src/lib.rs:525-530 | once the directory is empty a tick leaves no module, so no handle |
| Legacy.PanicSticks | src/lib.rs:238-245 | after a checksum panic the rest of the drops change nothing |
| Legacy.LegacyManager.constructor | src/lib.rs:259-266 | an empty, well-formed manager watching the given directory |
| Legacy.LegacyManager.RunningModules | src/lib.rs:268-276 | the count of Deployed entries |
| Legacy.LegacyManager.GetHandle | src/lib.rs:320-339 | a handle exactly for a running name |
| Legacy.LegacyManager.GetToUndeploy | src/lib.rs:310-318 | lists each module whose file is missing exactly once |
| Legacy.LegacyManager.Deploy | src/lib.rs:380-433 | result and new map are `LegacyDeploySpec` |
| Legacy.LegacyManager.Undeploy | src/lib.rs:435-447 | result, new map and files are `LegacyUndeploySpec` |
| Legacy.LegacyManager.Load | src/lib.rs:341-378 | new map and files are `LegacyLoadSpec` |
| Legacy.LegacyManager.Tick | src/lib.rs:278-308 | the scanned drops then pruning, as `LegacyTickSpec`; the map stays well formed |
| Legacy.LegacyManager.AdmitEntries | src/lib.rs:279-303 | map, files and panic flag are `LegacyAdmitUntilPanic` |
| Legacy.LegacyManager.UndeployMissing | src/lib.rs:304-307 | the map becomes `Prune` of the old one |
| Daemon.ReceivedShape | crates/daemon/src/main.rs:84-111 | the target is the first chunk's name; the upload fails exactly when there are two chunks or the target exists (a file, or the directory an empty, "." or ".." name joins to) or is locked; a new target holds the first chunk |
| Daemon.UploadSucceedsOnlyForOneChunk | crates/daemon/src/main.rs:84-122 | a reply exactly for one chunk to a new, unlocked file on an intact stream; an empty stream panics; every reply claims success and carries a message |
| Daemon.TwoChunkUploadFails | crates/daemon/src/main.rs:93-94 | chunks "AB" then "CD" end in an error with the file holding "AB" |
| Daemon.OneChunkReplyContradicts | crates/daemon/src/main.rs:112-121 | a successful upload replies success together with "Cannot load file at <path>" |
| Daemon.UploadFailureSticks | crates/daemon/src/main.rs:110 | after a failed chunk the rest of the stream changes nothing |
| Daemon.ReceivedFixedConcat | crates/daemon/src/main.rs:99-104 | corrected upload: the offset is the total length so far and the file holds the chunks in order |
| Daemon.ReceiveFixedAppends | crates/daemon/src/main.rs:99-104 | corrected upload: a later chunk, written at the current length, appends to what the target holds |
| Daemon.FixedUploadStoresAll | crates/daemon/src/main.rs:84-122 | corrected upload: any intact non-empty upload to an unlocked file replies success without a message and stores all chunks |
| Daemon.DirectoryTargetFails | crates/daemon/src/main.rs:84-111 | a first chunk named "", "." or ".." targets a directory: as written and corrected, the upload errors and writes nothing |
| Daemon.AsI32 | crates/daemon/src/main.rs:72 | `len() as i32` wraps modulo 2^32 into the signed range and is the count below 2^31 |
| Daemon.Items | crates/daemon/src/main.rs:57-69 | one item per running module, in order, with its name and status word and zero counters |
| Daemon.MyModules.constructor | crates/daemon/src/main.rs:42-46 | the service wraps the given manager |
| Daemon.MyModules.List | crates/daemon/src/main.rs:51-73 | the items name every running module exactly once and no other, each "deployed" with all four counters 0, `item_no` their count; none for a well-formed manager |
| Daemon.MyModules.Load | crates/daemon/src/main.rs:76-123 | outcome and files are `UploadOutcome` of the stream |
| Daemon.WriteChunk | crates/daemon/src/main.rs:85-110 | one pass of the loop: files, target and failure are one step of `Received`; nothing is written unless the open succeeded |
| Daemon.WriteChunkFixed | crates/daemon/src/main.rs:91-104 | one pass of the corrected loop: one step of `ReceivedFixed` |
| Daemon.MyModules.LoadFixed | crates/daemon/src/main.rs:91-98 | outcome and files are `FixedOutcome`: create on the first chunk, open for writing after |
| Daemon.ReceiveAllFixed | crates/daemon/src/main.rs:83-111 | corrected upload: the loop over the delivered chunks computes `ReceivedFixed`, stopping at the first failed write |
| Daemon.MyModules.Replace | crates/daemon/src/main.rs:125-134 | always fails without a message, time 0 |
| Daemon.MyModules.Unload | crates/daemon/src/main.rs:136-146 | always fails without a message, naming "proc", time 0 |
| Typing.Write | crates/mediator/src/typing.rs:37-55 | one writer call per visited node, the node's own call first and carrying the node |
| Typing.WriteEach | crates/mediator/src/typing.rs:44-46 | the calls for the fields in order, as many as the visited nodes under them |
| Typing.Adapt | crates/mediator/src/typing.rs:33-35 | one writer call per visited node of the typing's schema, the schema's own call first; for a closed schema every record started is ended |
| Typing.WriteEachAppend | crates/mediator/src/typing.rs:44-46 | the calls for two field lists are those for each, one after the other |
| Typing.ClosedTraceBalanced | crates/mediator/src/typing.rs:42-53 | when every record's field list ends with its own RECORD_END, every record started is ended |
| Typing.ClosedEachBalanced | crates/mediator/src/typing.rs:44-46 | the same for a list of closed fields |
| Typing.TypingRegistry.constructor | crates/mediator/src/typing.rs:68-72 | an empty registry |
| Typing.TypingRegistry.AddType | crates/mediator/src/typing.rs:74-76 | the key (name, kind) now maps to the schema, replacing any earlier one; other keys unchanged |
| Typing.KindsAreSeparateKeys | crates/mediator/src/typing.rs:74-76 | after `add_type` of a name for In and then for Out (the registry map as `AddType` leaves it), both typings are kept |

## Left out

- Concurrency is not modelled: the `Arc<Mutex>` around the manager, the tick thread and its 1000 ms wait (crates/daemon/src/main.rs:149-178), and the async runtime. Each operation is one atomic step.
- Logging (`println!`, `eprintln!`) and the `SystemTime` measurements inside `load` have no effect on state, so they are not modelled.
- SHA-256 and the zip-and-compile step are opaque oracles of a file's bytes. Compilation, instantiation and execution (`runner.rs`) are not part of this model.
- File names are Dafny strings. The `to_str().unwrap()` panic on a non-UTF-8 name is not modelled.
- Failures of `read_dir` and of a directory entry (`expect`) are not modelled.
- Subdirectories of a watched directory are not modelled: the file system holds only files. A directory named like a module file (`x.wasm`, `x.zip`) would be listed by `read_dir` and become a watcher entry, and a directory named like a marker would count through `exists()`.
- Lifecycle.UndeploySpec, Lifecycle.Prune and Lifecycle.Missing test a module's file by membership in the files rather than `FileSystem.Exists`; the two differ only for the names "", "." and "..", which no watcher entry carries.
- Paths are a directory plus one name. The daemon joining an absolute or multi-component file name is not modelled; an empty, "." or ".." name is modelled as naming an existing directory.
- Files.DebugQuote: writes non-ASCII characters as they are, while `char::escape_debug` writes unprintable and grapheme-extending code points as `\u{..}`, because that needs the Unicode tables; ASCII is escaped exactly.
- Daemon.MyModules.Load:
  - does not model a short `write_at` or the `u64` offset overflow;
  - a broken stream fails only after the chunks it delivered.
- Daemon.MyModules.List: states which modules the items name, each once, but not their order, because `running_modules` follows `HashMap` order.
- `running_modules_map` is a clone of the map, so `deploy` reads the map itself.
- The daemon reads `watcher` (private in crates/runner/src/modules.rs) and `ModuleStatus::as_string` (absent there). The model uses `FunctionStatus::as_string` (crates/runner/src/functions.rs:315-323) for the status word.
- The second `UNDEPLOYED` arm of the library's `load` (src/lib.rs:370) is unreachable and is not modelled.
- The schema writer and object reader of the mediator are outside the model. The traversal is the sequence of calls the writer receives.
- The Java CLI and mediator, the Kafka subscription and the other crates' binaries are not part of this model.

## Findings

| source | as written | input that shows it | evidently intended | confidence | as-written member | corrected member |
|---|---|---|---|---|---|---|
| crates/daemon/src/main.rs:93-94 | a target that exists is reopened with `File::open`, which is read-only, so `write_at` of every chunk after the first fails | chunks "AB" then "CD" for a new file: the call fails and the file holds "AB" | reopen the target for writing, so that the file holds "ABCD" | not executed | Daemon.TwoChunkUploadFails | Daemon.FixedUploadStoresAll |
| crates/daemon/src/main.rs:112-121 | `success` is never set, so the reply says success with the message "Cannot load file at <path>" | one chunk "AB" for a new file | reply success without an error message | not executed | Daemon.OneChunkReplyContradicts | Daemon.FixedUploadStoresAll |
| crates/runner/src/functions.rs:251-252 | a deploy that builds stores status Deploy and no unit, while returning Deployed, so the module never runs | a module.wasm whose archive builds: after a tick `running_modules()` is empty | store Deployed with the compilation unit, as src/lib.rs:380-433 does | not executed | Functions.WasmDropDeploysButDoesNotRun | Lifecycle.DeployedModuleRuns |
