/**
 * The file system as the runner, the watcher and the daemon see it.
 *
 * A path is a directory plus one file name. The contents of files are bytes;
 * the SHA-256 checksum and the zip/JIT-compile step are oracles (`digest`,
 * `build`): opaque, deterministic functions of a file's bytes. Paths in
 * `locked` are ones the process may not remove or create (a permission error).
 */
module Files {
  import opened Wrappers

  newtype byte = b: int | 0 <= b < 256

  /** A path `dir/name`; `name` is one component (no separator). */
  datatype Path = Path(dir: string, name: string)

  /** `dir.join(name)` names a directory rather than a file in it when the
      name is empty, "." or "..": the directory itself or its parent, both
      of which exist while `dir` is watched. */
  predicate NamesDirectory(p: Path)
    ensures NamesDirectory(p) <==> p.name == "" || p.name == "." || p.name == ".."
  {
    |p.name| <= 2 && (p.name == [] || (p.name[0] == '.' && p.name[|p.name| - 1] == '.'))
  }

  // ---------------------------------------------------------------------
  // File names: std::path::Path::file_stem and extension
  // ---------------------------------------------------------------------

  /** The index of the last '.' in `name`, or -1 when there is none. */
  function LastDot(name: string): (i: int)
    ensures -1 <= i < |name|
    ensures 0 <= i ==> name[i] == '.'
    ensures forall j :: i < j < |name| ==> name[j] != '.'
  {
    if name == [] then -1
    else if name[|name| - 1] == '.' then |name| - 1
    else LastDot(name[..|name| - 1])
  }

  /** Rust splits a file name at its last dot, except for "..", a name
      without a dot, or a name whose only dot is its first character. */
  predicate HasExtension(name: string)
  {
    name != ".." && LastDot(name) > 0
  }

  /** `Path::file_stem`: the name before the last dot (all of it when there is no extension). */
  function FileStem(name: string): string
  {
    if HasExtension(name) then name[..LastDot(name)] else name
  }

  /** `Path::extension`: the part after the last dot. */
  function Extension(name: string): Option<string>
  {
    if HasExtension(name) then Some(name[LastDot(name) + 1..]) else None
  }

  /** A name with an extension is its stem, a dot and the extension; the
      extension holds no dot and the stem is not empty. */
  lemma SplitName(name: string)
    requires Extension(name).Some?
    ensures name == FileStem(name) + "." + Extension(name).value
    ensures FileStem(name) != [] && '.' !in Extension(name).value
  {
    var i := LastDot(name);
    assert name == name[..i] + [name[i]] + name[i + 1..];
  }

  lemma {:induction false} LastDotOfJoin(stem: string, ext: string)
    requires '.' !in ext
    ensures LastDot(stem + "." + ext) == |stem|
  {
    if ext != [] {
      var n := stem + "." + ext;
      assert n[|n| - 1] == ext[|ext| - 1];
      assert n[..|n| - 1] == stem + "." + ext[..|ext| - 1];
      LastDotOfJoin(stem, ext[..|ext| - 1]);
    }
  }

  /** Joining a stem and an extension and splitting again gives both back. */
  lemma JoinName(stem: string, ext: string)
    requires stem != [] && ext != [] && '.' !in ext
    ensures FileStem(stem + "." + ext) == stem
    ensures Extension(stem + "." + ext) == Some(ext)
  {
    var n := stem + "." + ext;
    LastDotOfJoin(stem, ext);
    assert n[..|stem|] == stem;
    assert n[|stem| + 1..] == ext;
  }

  // ---------------------------------------------------------------------
  // Formatting: `{}` of a PathBuf and `{:?}` of a string
  // ---------------------------------------------------------------------

  /** `path.display()`: the directory, a separator unless it already ends in one, and the name. */
  function Display(p: Path): string
  {
    if p.dir == [] then p.name
    else if p.dir[|p.dir| - 1] == '/' then p.dir + p.name
    else p.dir + "/" + p.name
  }

  /** A lower-case hexadecimal digit. */
  function HexDigit(d: nat): (c: char)
    requires d < 16
    ensures HexValue(c) == d
  {
    if d < 10 then ('0' as int + d) as char else ('a' as int + d - 10) as char
  }

  function HexValue(c: char): nat
  {
    if '0' <= c <= '9' then c as int - '0' as int
    else if 'a' <= c <= 'f' then c as int - 'a' as int + 10
    else 0
  }

  /** A code point below 0x80 in hexadecimal without leading zeros, as
      `char::escape_unicode` writes it. */
  function Hex(n: nat): (h: string)
    requires n < 0x80
    ensures 1 <= |h| <= 2 && (|h| == 1 <==> n < 16)
  {
    if n < 16 then [HexDigit(n)] else [HexDigit(n / 16), HexDigit(n % 16)]
  }

  /** The ASCII characters `char::escape_debug` does not print as they are
      and has no short escape for: the other control characters and DEL. */
  predicate AsciiUnprintable(c: char)
  {
    (c < ' ' && c !in ['\t', '\n', '\r', '\0']) || c as int == 0x7f
  }

  /** How `{:?}` of an `OsStr` escapes one character (`char::escape_debug`):
      the short escapes, including both quotes, and `\u{..}` for an
      unprintable ASCII character. */
  function EscapeChar(c: char): string
  {
    match c
    case '"' => "\\\""
    case '\'' => "\\'"
    case '\\' => "\\\\"
    case '\n' => "\\n"
    case '\r' => "\\r"
    case '\t' => "\\t"
    case '\0' => "\\0"
    case _ => if AsciiUnprintable(c) then UnicodeEscape(c) else [c]
  }

  /** `\u{..}` with the code point of an unprintable ASCII character. */
  function UnicodeEscape(c: char): (e: string)
    requires AsciiUnprintable(c)
    ensures |e| == 5 || |e| == 6
  {
    "\\u{" + Hex(c as int) + "}"
  }

  function EscapeDebug(s: string): string
  {
    if s == [] then [] else EscapeChar(s[0]) + EscapeDebug(s[1..])
  }

  /** `format!("{:?}", s)`: the string between double quotes, escaped. */
  function DebugQuote(s: string): (q: string)
    ensures |q| >= 2 && q[0] == '"' && q[|q| - 1] == '"'
  {
    "\"" + EscapeDebug(s) + "\""
  }

  /** An apostrophe in a stem is escaped, so `it's.zip` is looked up under
      the markers `"it\'s".<state>`. */
  lemma ApostropheEscaped()
    ensures DebugQuote("it's") == "\"it\\'s\""
  {
    assert EscapeDebug("it's") == EscapeChar('i') + EscapeDebug("t's") by {
      assert "it's"[1..] == "t's";
    }
    assert EscapeDebug("t's") == EscapeChar('t') + EscapeDebug("'s") by {
      assert "t's"[1..] == "'s";
    }
    assert EscapeDebug("'s") == EscapeChar('\'') + EscapeDebug("s") by {
      assert "'s"[1..] == "s";
    }
    assert EscapeDebug("s") == "s" by {
      assert "s"[1..] == [];
    }
  }

  /** Reads back one short escape written by EscapeChar. */
  function UnescapeChar(c: char): char
  {
    match c
    case 'n' => '\n'
    case 'r' => '\r'
    case 't' => '\t'
    case '0' => '\0'
    case _ => c
  }

  /** Undoes EscapeDebug: `\u{h}` and `\u{hh}` are read as code points,
      any other backslash as a short escape. */
  function Unescape(t: string): string
  {
    if t == [] then []
    else if t[0] == '\\' && |t| >= 5 && t[1] == 'u' && t[4] == '}' then
      [HexValue(t[3]) as char] + Unescape(t[5..])
    else if t[0] == '\\' && |t| >= 6 && t[1] == 'u' && t[5] == '}' then
      [(16 * HexValue(t[3]) + HexValue(t[4])) as char] + Unescape(t[6..])
    else if t[0] == '\\' && |t| >= 2 then [UnescapeChar(t[1])] + Unescape(t[2..])
    else [t[0]] + Unescape(t[1..])
  }

  /** One escaped character followed by anything is read back as that
      character followed by the reading of the rest. */
  lemma UnescapeOne(c: char, rest: string)
    ensures Unescape(EscapeChar(c) + rest) == [c] + Unescape(rest)
  {
    var e := EscapeChar(c);
    if AsciiUnprintable(c) {
      UnescapeUnicode(c, rest);
    } else if |e| == 2 {
      assert (e + rest)[2..] == rest;
    } else {
      assert (e + rest)[1..] == rest;
    }
  }

  /** A `\u{..}` escape is read back as its character. */
  lemma UnescapeUnicode(c: char, rest: string)
    requires AsciiUnprintable(c)
    ensures Unescape(UnicodeEscape(c) + rest) == [c] + Unescape(rest)
  {
    var e := UnicodeEscape(c);
    var n := c as int;
    if n < 16 {
      assert e == ['\\', 'u', '{', HexDigit(n), '}'];
      assert (e + rest)[5..] == rest;
    } else {
      assert e == ['\\', 'u', '{', HexDigit(n / 16), HexDigit(n % 16), '}'];
      assert (e + rest)[6..] == rest;
    }
  }

  /** The escaping done by `{:?}` loses nothing. */
  lemma {:induction false} EscapeRoundTrip(s: string)
    ensures Unescape(EscapeDebug(s)) == s
  {
    if s != [] {
      var rest := EscapeDebug(s[1..]);
      assert EscapeDebug(s) == EscapeChar(s[0]) + rest;
      EscapeRoundTrip(s[1..]);
      UnescapeOne(s[0], rest);
    }
  }

  // ---------------------------------------------------------------------
  // Files, the build oracle and the file system
  // ---------------------------------------------------------------------

  datatype File = File(bytes: seq<byte>, readable: bool)

  /** What the JIT compiler produced; opaque to this model. */
  datatype CompilationUnit = CompilationUnit(id: nat)

  /** The outcome of opening a module archive and compiling it, in the order
      the steps are tried: open the zip, find meta.json, find runnable.wasm,
      compile. */
  datatype BuildOutcome =
    | ZipUnreadable
    | MissingMeta
    | MissingRunnable
    | CompileFailed(debug: string, display: string)  // the compiler's error as `{:?}` and as `{}` render it
    | Compiled(unit: CompilationUnit)

  datatype IoError = NotFound | PermissionDenied | BadDescriptor | IsADirectory

  /** An open file: `writable` is false for `File::open`, which is read-only. */
  datatype Handle = Handle(path: Path, writable: bool)

  datatype FileSystem = FileSystem(
    files: map<Path, File>,
    digest: seq<byte> -> string,
    build: seq<byte> -> BuildOutcome,
    locked: set<Path>)
  {
    /** `Path::exists`: a file, or a path naming a directory. */
    predicate Exists(p: Path)
    {
      p in files || NamesDirectory(p)
    }

    /** `read_dir(dir)`, as a set: its iteration order is left open. */
    function ListDir(dir: string): (r: set<Path>)
      ensures forall p :: p in r <==> p in files && p.dir == dir
    {
      set p | p in files && p.dir == dir
    }

    /** `get_file_checksum`: fails when the file cannot be opened and read. */
    function Checksum(p: Path): (r: Option<string>)
      ensures r.Some? <==> p in files && files[p].readable
    {
      if p in files && files[p].readable then Some(digest(files[p].bytes)) else None
    }

    /** `open_zip` followed by the lookups and the compile: a file that
        cannot be opened is an unreadable archive. */
    function Build(p: Path): (r: BuildOutcome)
      ensures p !in files || !files[p].readable ==> r == ZipUnreadable
    {
      if p in files && files[p].readable then build(files[p].bytes) else ZipUnreadable
    }

    /** `fs::remove_file`, whose failure the callers ignore. */
    function Remove(p: Path): (r: FileSystem)
      ensures r.files.Keys == if p in locked then files.Keys else files.Keys - {p}
      ensures forall q :: q in r.files ==> r.files[q] == files[q]
      ensures r.digest == digest && r.build == build && r.locked == locked
    {
      if p in files && p !in locked then this.(files := files - {p}) else this
    }
  }

  function Max(a: int, b: int): int { if a < b then b else a }

  /** The contents after `write_at(data, offset)` on `before`: data replaces the bytes at
      `offset`, the file grows as needed and a gap is filled with zeros. */
  function Overwrite(before: seq<byte>, offset: nat, data: seq<byte>): (r: seq<byte>)
    ensures |r| == Max(|before|, offset + |data|)
    ensures r[offset..offset + |data|] == data
    ensures forall i :: 0 <= i < |before| && !(offset <= i < offset + |data|) ==> r[i] == before[i]
    ensures forall i :: |before| <= i < offset ==> r[i] == 0
  {
    var head := if offset <= |before| then before[..offset] else before + seq(offset - |before|, _ => 0 as byte);
    var tail := if offset + |data| < |before| then before[offset + |data|..] else [];
    assert |head| == offset;
    head + data + tail
  }

  /** The file system of the process, changed in place by removals and writes. */
  class Disk {
    var fs: FileSystem

    constructor (initial: FileSystem)
      ensures fs == initial
    {
      fs := initial;
    }

    /** `fs::remove_file`: fails for a missing or locked path. */
    method RemoveFile(p: Path) returns (ok: bool)
      modifies this
      ensures ok == (p in old(fs.files) && p !in old(fs.locked))
      ensures fs == old(fs).Remove(p)
    {
      ok := p in fs.files && p !in fs.locked;
      fs := fs.Remove(p);
    }

    /** `fs::File::open`: read-only; a directory opens too. */
    method Open(p: Path) returns (h: Result<Handle, IoError>)
      ensures NamesDirectory(p) ==> h == Success(Handle(p, false))
      ensures !fs.Exists(p) ==> h == Failure(NotFound)
      ensures !NamesDirectory(p) && p in fs.files && !fs.files[p].readable ==> h == Failure(PermissionDenied)
      ensures !NamesDirectory(p) && p in fs.files && fs.files[p].readable ==> h == Success(Handle(p, false))
    {
      if NamesDirectory(p) {
        h := Success(Handle(p, false));
      } else if p !in fs.files {
        h := Failure(NotFound);
      } else if !fs.files[p].readable {
        h := Failure(PermissionDenied);
      } else {
        h := Success(Handle(p, false));
      }
    }

    /** `fs::File::create`: write-only; creates the file or truncates it. */
    method Create(p: Path) returns (h: Result<Handle, IoError>)
      modifies this
      ensures NamesDirectory(p) ==> h == Failure(IsADirectory) && fs == old(fs)
      ensures !NamesDirectory(p) && p in old(fs.locked) ==> h == Failure(PermissionDenied) && fs == old(fs)
      ensures !NamesDirectory(p) && p !in old(fs.locked) ==>
        h == Success(Handle(p, true)) && fs == old(fs).(files := old(fs.files)[p := File([], true)])
    {
      if NamesDirectory(p) {
        h := Failure(IsADirectory);
      } else if p in fs.locked {
        h := Failure(PermissionDenied);
      } else {
        fs := fs.(files := fs.files[p := File([], true)]);
        h := Success(Handle(p, true));
      }
    }

    /** Opening for writing without truncation, creating a missing file. */
    method OpenForWrite(p: Path) returns (h: Result<Handle, IoError>)
      modifies this
      ensures NamesDirectory(p) ==> h == Failure(IsADirectory) && fs == old(fs)
      ensures !NamesDirectory(p) && p in old(fs.locked) ==> h == Failure(PermissionDenied) && fs == old(fs)
      ensures !NamesDirectory(p) && p !in old(fs.locked) && p in old(fs.files) ==> h == Success(Handle(p, true)) && fs == old(fs)
      ensures !NamesDirectory(p) && p !in old(fs.locked) && p !in old(fs.files) ==>
        h == Success(Handle(p, true)) && fs == old(fs).(files := old(fs.files)[p := File([], true)])
    {
      if NamesDirectory(p) {
        h := Failure(IsADirectory);
      } else if p in fs.locked {
        h := Failure(PermissionDenied);
      } else {
        if p !in fs.files {
          fs := fs.(files := fs.files[p := File([], true)]);
        }
        h := Success(Handle(p, true));
      }
    }

    /** `FileExt::write_at`: a write through a read-only handle fails. */
    method WriteAt(h: Handle, data: seq<byte>, offset: nat) returns (r: Result<nat, IoError>)
      modifies this
      ensures !h.writable || h.path !in old(fs.files) ==> r == Failure(BadDescriptor) && fs == old(fs)
      ensures h.writable && h.path in old(fs.files) ==>
        r == Success(|data|) &&
        fs == old(fs).(files := old(fs.files)[h.path := old(fs.files)[h.path].(bytes := Overwrite(old(fs.files)[h.path].bytes, offset, data))])
    {
      if !h.writable || h.path !in fs.files {
        r := Failure(BadDescriptor);
      } else {
        var f := fs.files[h.path];
        fs := fs.(files := fs.files[h.path := f.(bytes := Overwrite(f.bytes, offset, data))]);
        r := Success(|data|);
      }
    }
  }
}
