/** `ReplicatorSource` and `ReplicatorTarget`: the two ends of the one-way
    file replicator, written against the file-system collaborator and an RPC
    callback. */
module Replicator {
  import opened Paths
  import opened Fs
  import opened Requests
  import opened SyncWalk

  /** The recursion depth the initial sync may reach before the interpreter
      raises `RecursionError` (CPython's default limit). */
  const RecursionLimit: nat := 1000

  /** The `rpc_handle` callback: it records every request handed to it. What
      it returns is never used. */
  class Rpc {
    ghost var sent: seq<Request>

    constructor ()
      ensures sent == []
    {
      sent := [];
    }

    method Handle(req: Request)
      modifies this
      ensures sent == old(sent) + [req]
    {
      sent := sent + [req];
    }
  }

  /** What `stop_watching` does to the registered watches: the root is
      unwatched only when it still exists; a failure of `exists` or of
      `unwatchdir` is raised to the caller. */
  function StopWatchingOf(faults: Faults, entries: Entries, watches: map<string, object>, root: string): (r: (Outcome, map<string, object>))
    ensures r.0.Fail? ==> r.1 == watches
    ensures r.0.Pass? && root in entries ==> r.1 == watches - {root}
    ensures r.0.Pass? && root !in entries ==> r.1 == watches
    ensures r.0.Fail? <==> (Exists, root) in faults || (root in entries && (UnwatchDir, root) in faults)
  {
    match ExistsOf(faults, entries, root)
    case Err(e) => (Fail(FsFailure(e)), watches)
    case Ok(false) => (Pass, watches)
    case Ok(true) =>
      if (UnwatchDir, root) in faults then (Fail(FsFailure(Injected(UnwatchDir, root))), watches)
      else (Pass, watches - {root})
  }

  /** Stopping a second time raises nothing and changes nothing more. */
  lemma StopWatchingTwice(faults: Faults, entries: Entries, watches: map<string, object>, root: string)
    requires StopWatchingOf(faults, entries, watches, root).0.Pass?
    ensures var once := StopWatchingOf(faults, entries, watches, root).1;
      StopWatchingOf(faults, entries, once, root) == (Pass, once)
  {
    var once := StopWatchingOf(faults, entries, watches, root).1;
    if root in entries {
      assert once - {root} == once;
    }
  }

  /** What constructing a source returns: the source, or what `__init__`
      raised. */
  datatype Construction = Constructed(source: ReplicatorSource) | Raised(error: Error)

  class ReplicatorSource {
    const fs: FileSystem
    const dirPath: string
    const rpc: Rpc
    /** The item paths the initial sync has visited, in loop order. */
    ghost var visited: seq<string>
    /** The item paths whose handling raised, which the sync prints. */
    ghost var skipped: seq<string>

    /** The state the initial sync works on. */
    ghost function Progress(): WalkState
      reads this, fs, rpc
    {
      WalkState(fs.entries, rpc.sent, visited, skipped)
    }

    /** Stores the collaborators and the root; the work of `__init__` is in
        `Create`. */
    constructor (fs: FileSystem, dirPath: string, rpc: Rpc)
      ensures this.fs == fs && this.dirPath == dirPath && this.rpc == rpc
      ensures visited == [] && skipped == []
    {
      this.fs := fs;
      this.dirPath := dirPath;
      this.rpc := rpc;
      visited := [];
      skipped := [];
    }

    /** `ReplicatorSource(fs, dir_path, rpc_handle)`: normalises the root, runs
        the initial sync to its end, and only then registers the new source's
        `handle_event` as the watch on the root. When the sync raises, no
        watch is registered. Because the sync walks the root onto itself, it
        sends no request and leaves the store as it was. */
    static method Create(fs: FileSystem, dirPath: string, normpath: string -> string, rpc: Rpc) returns (r: Construction)
      modifies fs, rpc
      ensures fs.entries == old(fs.entries) && rpc.sent == old(rpc.sent)
      ensures var root := normpath(dirPath);
        var (outcome, after) := Walk(fs.faults, WalkState(old(fs.entries), old(rpc.sent), [], []), root, root, RecursionLimit);
        && (outcome.Fail? ==> r == Raised(outcome.error) && fs.watches == old(fs.watches))
        && (outcome.Pass? && (WatchDir, root) in fs.faults ==>
              r == Raised(FsFailure(Injected(WatchDir, root))) && fs.watches == old(fs.watches))
        && (outcome.Pass? && (WatchDir, root) !in fs.faults ==>
              && r.Constructed? && fresh(r.source)
              && r.source.fs == fs && r.source.dirPath == root && r.source.rpc == rpc
              && r.source.visited == after.visited && r.source.skipped == after.skipped
              && fs.watches == old(fs.watches)[root := r.source])
    {
      var source := new ReplicatorSource(fs, normpath(dirPath), rpc);
      ghost var before := source.Progress();
      var outcome := source.InitialSync();
      SameRootWalkIsInert(fs.faults, before, source.dirPath, RecursionLimit);
      if outcome.Fail? {
        return Raised(outcome.error);
      }
      var watched := fs.WatchDir(source.dirPath, source);
      if watched.Err? {
        return Raised(FsFailure(watched.error));
      }
      r := Constructed(source);
    }

    /** `_initial_sync`: the walk from the root onto itself. */
    method InitialSync() returns (outcome: Outcome)
      modifies this, fs`entries, rpc
      ensures (outcome, Progress()) == Walk(fs.faults, old(Progress()), dirPath, dirPath, RecursionLimit)
    {
      outcome := CopyFilesAndSubdirs(dirPath, dirPath, RecursionLimit);
    }

    /** `copy_files_and_subdirs(source_path, target_path)`, with `fuel` the
        recursion depth left. */
    method CopyFilesAndSubdirs(sourcePath: string, targetPath: string, fuel: nat) returns (outcome: Outcome)
      modifies this, fs`entries, rpc
      ensures (outcome, Progress()) == Walk(fs.faults, old(Progress()), sourcePath, targetPath, fuel)
      decreases fuel, 3, 0
    {
      if fuel == 0 {
        return Fail(RecursionError);
      }
      var listing := fs.ListDir(sourcePath);
      if listing.Err? {
        return Fail(FsFailure(listing.error));
      }
      var items := listing.value;
      ghost var start := Progress();
      for i := 0 to |items|
        invariant WalkItems(fs.faults, Progress(), sourcePath, targetPath, items[i..], fuel)
               == WalkItems(fs.faults, start, sourcePath, targetPath, items, fuel)
      {
        ghost var before := Progress();
        WalkItemsStep(fs.faults, before, sourcePath, targetPath, items, i, fuel);
        var itemSourcePath := Join(sourcePath, items[i]);
        var itemTargetPath := Join(targetPath, items[i]);
        visited := visited + [itemSourcePath];
        var entryOutcome := SyncEntry(itemSourcePath, itemTargetPath, fuel);
        if entryOutcome.Fail? {
          skipped := skipped + [itemSourcePath];
        }
        assert Progress() == Visit(fs.faults, before, sourcePath, targetPath, items[i], fuel);
      }
      assert items[|items|..] == [];
      outcome := Pass;
    }

    /** The `try` block of the walk's loop for one item. */
    method SyncEntry(itemSourcePath: string, itemTargetPath: string, fuel: nat) returns (outcome: Outcome)
      requires fuel > 0
      modifies this, fs`entries, rpc
      ensures (outcome, Progress()) == TryEntry(fs.faults, old(Progress()), itemSourcePath, itemTargetPath, fuel)
      decreases fuel, 0, 0
    {
      var isFile := fs.IsFile(itemSourcePath);
      if isFile.Err? {
        return Fail(FsFailure(isFile.error));
      }
      if isFile.value {
        var present := fs.Exists(itemTargetPath);
        if present.Err? {
          return Fail(FsFailure(present.error));
        }
        if !present.value {
          var fileContent := fs.ReadFile(itemSourcePath);
          if fileContent.Err? {
            return Fail(FsFailure(fileContent.error));
          }
          rpc.Handle(CopyRequest(itemTargetPath, fileContent.value));
        }
        return Pass;
      }
      var isDir := fs.IsDir(itemSourcePath);
      if isDir.Err? {
        return Fail(FsFailure(isDir.error));
      }
      if !isDir.value {
        return Pass;
      }
      var present := fs.Exists(itemTargetPath);
      if present.Err? {
        return Fail(FsFailure(present.error));
      }
      if !present.value {
        var made := fs.MakeDirs(itemTargetPath);
        if made.Err? {
          return Fail(FsFailure(made.error));
        }
      }
      outcome := CopyFilesAndSubdirs(itemSourcePath, itemTargetPath, fuel - 1);
    }

    /** `handle_event`: sends one request, without content, for a created,
        modified or deleted file, and nothing for any other event. */
    method HandleEvent(event: FileSystemEvent)
      modifies rpc
      ensures !event.kind.Other? ==> rpc.sent == old(rpc.sent) + [EventRequest(dirPath, event).value]
      ensures event.kind.Other? ==> rpc.sent == old(rpc.sent)
    {
      if event.kind == Created {
        var filePath := Join(dirPath, event.fileName);
        rpc.Handle(Request("copy", filePath, None));
      } else if event.kind == Modified {
        var filePath := Join(dirPath, event.fileName);
        rpc.Handle(Request("modify", filePath, None));
      } else if event.kind == Deleted {
        var filePath := Join(dirPath, event.fileName);
        rpc.Handle(Request("delete", filePath, None));
      }
    }

    /** `stop_watching`: unwatches the root if it still exists. */
    method StopWatching() returns (outcome: Outcome)
      modifies fs`watches
      ensures (outcome, fs.watches) == StopWatchingOf(fs.faults, fs.entries, old(fs.watches), dirPath)
    {
      var present := fs.Exists(dirPath);
      if present.Err? {
        return Fail(FsFailure(present.error));
      }
      if present.value {
        var unwatched := fs.UnwatchDir(dirPath);
        if unwatched.Err? {
          return Fail(FsFailure(unwatched.error));
        }
      }
      outcome := Pass;
    }
  }

  class ReplicatorTarget {
    const fs: FileSystem
    const dirPath: string

    /** `ReplicatorTarget(fs, dir_path)`: the root is kept as given. */
    constructor (fs: FileSystem, dirPath: string)
      ensures this.fs == fs && this.dirPath == dirPath
    {
      this.fs := fs;
      this.dirPath := dirPath;
    }

    /** `handle_request`: writes a copy's content under the root, at the
        basename of the request's path. */
    method HandleRequest(request: Request) returns (outcome: Outcome)
      modifies fs`entries
      ensures (outcome, fs.entries) == ApplyRequest(fs.faults, old(fs.entries), dirPath, request)
    {
      if request.action == "copy" {
        var (_, fileName) := Split(request.path);
        var targetPath := Join(dirPath, fileName);
        if request.content.None? {
          return Fail(KeyError("content"));
        }
        var written := fs.WriteFile(targetPath, request.content.value);
        if written.Err? {
          return Fail(FsFailure(written.error));
        }
      }
      outcome := Pass;
    }
  }
}
