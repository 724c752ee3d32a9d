/** The file-system collaborator the replicator is written against. Its
    implementation is not part of this model: it is an abstract store from
    path to entry, a registry of watched directories, and a fixed set of calls
    that raise. Each call is a method of `FileSystem`. The seven calls on the
    store (`listdir`, `isfile`, `isdir`, `exists`, `readfile`, `makedirs`,
    `writefile`) are proved equal to functions of that state; `watchdir` and
    `unwatchdir` state their effect on the registry directly. */
module Fs {
  import opened Paths

  newtype byte = x: int | 0 <= x < 256

  type Bytes = seq<byte>

  /** What a path holds: a file with its content, or a directory with its
      listing in the order `listdir` returns it. */
  datatype Entry = File(content: Bytes) | Dir(names: seq<string>)

  type Entries = map<string, Entry>

  datatype Op = ListDir | IsFile | IsDir | Exists | ReadFile | WriteFile | MakeDirs | WatchDir | UnwatchDir

  /** A call of `op` on `path` raises whenever `(op, path)` is a fault: the
      model's stand-in for permission errors, vanished files and other I/O
      failures. Some calls also raise because of what the store holds: a
      missing path, a path that already exists for `makedirs`, a file where
      a directory is needed, or a directory where a file is needed. */
  type Faults = set<(Op, string)>

  datatype FsError =
    | Injected(op: Op, path: string)
    | NotFound(path: string)
    | NotADirectory(path: string)
    | IsADirectory(path: string)
    | FileExists(path: string)

  datatype Result<+T> = Ok(value: T) | Err(error: FsError)

  function ListDirOf(faults: Faults, entries: Entries, p: string): Result<seq<string>> {
    if (ListDir, p) in faults then Err(Injected(ListDir, p))
    else if p !in entries then Err(NotFound(p))
    else if entries[p].File? then Err(NotADirectory(p))
    else Ok(entries[p].names)
  }

  function IsFileOf(faults: Faults, entries: Entries, p: string): Result<bool> {
    if (IsFile, p) in faults then Err(Injected(IsFile, p))
    else Ok(p in entries && entries[p].File?)
  }

  function IsDirOf(faults: Faults, entries: Entries, p: string): Result<bool> {
    if (IsDir, p) in faults then Err(Injected(IsDir, p))
    else Ok(p in entries && entries[p].Dir?)
  }

  function ExistsOf(faults: Faults, entries: Entries, p: string): Result<bool> {
    if (Exists, p) in faults then Err(Injected(Exists, p))
    else Ok(p in entries)
  }

  function ReadFileOf(faults: Faults, entries: Entries, p: string): Result<Bytes> {
    if (ReadFile, p) in faults then Err(Injected(ReadFile, p))
    else if p !in entries then Err(NotFound(p))
    else if entries[p].Dir? then Err(IsADirectory(p))
    else Ok(entries[p].content)
  }

  /** Stores `e` at `p`. A path that is new is also appended to the listing of
      its parent directory, when that parent is a directory of the store. */
  function Insert(entries: Entries, p: string, e: Entry): (r: Entries)
    ensures r.Keys == entries.Keys + {p}
    ensures r[p] == e
    ensures forall q :: q in entries && q != p && q != Dirname(p) ==> r[q] == entries[q]
    ensures forall q :: q in entries && q != p ==> r[q].File? == entries[q].File?
    ensures forall q :: q in entries && q != p && entries[q].File? ==> r[q] == entries[q]
    ensures p in entries ==> r == entries[p := e]
    ensures var parent := Dirname(p);
      parent in entries && parent != p ==>
        r[parent] == if p !in entries && entries[parent].Dir?
                     then Dir(entries[parent].names + [Basename(p)])
                     else entries[parent]
  {
    var parent := Dirname(p);
    if p !in entries && parent != p && parent in entries && entries[parent].Dir? then
      entries[parent := Dir(entries[parent].names + [Basename(p)])][p := e]
    else
      entries[p := e]
  }

  /** `makedirs(p)`: creates an empty directory at a path that does not exist
      yet; an existing path raises. */
  function MakeDirsOf(faults: Faults, entries: Entries, p: string): Result<Entries> {
    if (MakeDirs, p) in faults then Err(Injected(MakeDirs, p))
    else if p in entries then Err(FileExists(p))
    else Ok(Insert(entries, p, Dir([])))
  }

  /** `writefile(p, content)`: creates or overwrites the file at `p`; a
      directory there raises. */
  function WriteFileOf(faults: Faults, entries: Entries, p: string, content: Bytes): Result<Entries> {
    if (WriteFile, p) in faults then Err(Injected(WriteFile, p))
    else if p in entries && entries[p].Dir? then Err(IsADirectory(p))
    else Ok(Insert(entries, p, File(content)))
  }

  /** Writing a file a second time with the same content changes nothing. */
  lemma WriteFileTwice(faults: Faults, entries: Entries, p: string, content: Bytes)
    requires WriteFileOf(faults, entries, p, content).Ok?
    ensures var once := WriteFileOf(faults, entries, p, content).value;
      WriteFileOf(faults, once, p, content) == Ok(once)
  {
    var once := WriteFileOf(faults, entries, p, content).value;
    assert once[p := File(content)] == once;
  }

  /** The state after a call that may change the store. */
  function After(r: Result<Entries>, before: Entries): Entries {
    if r.Ok? then r.value else before
  }

  /** What a call that returns nothing reports to its caller. */
  function Status<T>(r: Result<T>): Result<()> {
    if r.Ok? then Ok(()) else Err(r.error)
  }

  class FileSystem {
    var entries: Entries
    const faults: Faults
    /** Registered watches: each watched path with the object whose
        `handle_event` receives its events. */
    var watches: map<string, object>

    constructor (entries: Entries, faults: Faults)
      ensures this.entries == entries && this.faults == faults && watches == map[]
    {
      this.entries := entries;
      this.faults := faults;
      watches := map[];
    }

    method ListDir(p: string) returns (r: Result<seq<string>>)
      ensures r == ListDirOf(faults, entries, p)
    {
      r := ListDirOf(faults, entries, p);
    }

    method IsFile(p: string) returns (r: Result<bool>)
      ensures r == IsFileOf(faults, entries, p)
    {
      r := IsFileOf(faults, entries, p);
    }

    method IsDir(p: string) returns (r: Result<bool>)
      ensures r == IsDirOf(faults, entries, p)
    {
      r := IsDirOf(faults, entries, p);
    }

    method Exists(p: string) returns (r: Result<bool>)
      ensures r == ExistsOf(faults, entries, p)
    {
      r := ExistsOf(faults, entries, p);
    }

    method ReadFile(p: string) returns (r: Result<Bytes>)
      ensures r == ReadFileOf(faults, entries, p)
    {
      r := ReadFileOf(faults, entries, p);
    }

    method MakeDirs(p: string) returns (r: Result<()>)
      modifies this`entries
      ensures r == Status(MakeDirsOf(faults, old(entries), p))
      ensures entries == After(MakeDirsOf(faults, old(entries), p), old(entries))
    {
      var made := MakeDirsOf(faults, entries, p);
      entries := After(made, entries);
      r := Status(made);
    }

    method WriteFile(p: string, content: Bytes) returns (r: Result<()>)
      modifies this`entries
      ensures r == Status(WriteFileOf(faults, old(entries), p, content))
      ensures entries == After(WriteFileOf(faults, old(entries), p, content), old(entries))
    {
      var written := WriteFileOf(faults, entries, p, content);
      entries := After(written, entries);
      r := Status(written);
    }

    method WatchDir(p: string, callback: object) returns (r: Result<()>)
      modifies this`watches
      ensures (Op.WatchDir, p) in faults ==> r == Err(Injected(Op.WatchDir, p)) && watches == old(watches)
      ensures (Op.WatchDir, p) !in faults ==> r == Ok(()) && watches == old(watches)[p := callback]
    {
      if (Op.WatchDir, p) in faults {
        r := Err(Injected(Op.WatchDir, p));
      } else {
        watches := watches[p := callback];
        r := Ok(());
      }
    }

    method UnwatchDir(p: string) returns (r: Result<()>)
      modifies this`watches
      ensures (Op.UnwatchDir, p) in faults ==> r == Err(Injected(Op.UnwatchDir, p)) && watches == old(watches)
      ensures (Op.UnwatchDir, p) !in faults ==> r == Ok(()) && watches == old(watches) - {p}
    {
      if (Op.UnwatchDir, p) in faults {
        r := Err(Injected(Op.UnwatchDir, p));
      } else {
        watches := watches - {p};
        r := Ok(());
      }
    }
  }
}
