# Remote file replicator, modelled in Dafny

This project models the core of a one-way remote file replicator. It has two ends.

- **`ReplicatorSource`**:
  - normalises its root directory;
  - runs an initial sync (`copy_files_and_subdirs`, a recursive pre-order walk);
  - then registers `handle_event` as the watch callback for the root.
  - It sends requests to an RPC callback: a `copy` request with the file's content for each file missing at the target, and content-less `copy`/`modify`/`delete` requests for live events.
  - `stop_watching` unwatches the root if it still exists.
- **`ReplicatorTarget`** applies a `copy` request. It writes the content to its own root, joined with the basename of the request's path.

Both ends work through a narrow file-system interface: `listdir`, `isfile`, `isdir`, `exists`, `readfile`, `makedirs`, `writefile`, `watchdir` and `unwatchdir`.

Files:

- `paths.dfy` (module `Paths`):
  - `posixpath.join` and `posixpath.split` as string functions;
  - the prefix relations that make a set of paths a tree.
- `file_system.dfy` (module `Fs`): the file-system collaborator.
  - The class `FileSystem` holds a store from path to `File(content)` or `Dir(listing)`, the registered watches, and a fixed set of `(call, path)` pairs that raise.
  - The calls that read or write the store (`listdir`, `isfile`, `isdir`, `exists`, `readfile`, `makedirs`, `writefile`) are methods proved equal to functions of that state.
  - `watchdir` and `unwatchdir` are methods whose contracts give the new watches directly.
- `requests.dfy` (module `Requests`):
  - request dicts, events, and the exceptions as values;
  - the event-to-request mapping;
  - what the target does with a request.
- `sync_walk.dfy` (module `SyncWalk`): the initial sync as functions (`Walk`, `WalkItems`, `Visit`, `TryEntry`) and everything proved about them.
  - **The constructor's walk.** The walk is modelled with separate source and target roots, as the code has it. The constructor's call uses the same root on both sides, and for that case the lemmas prove:
    - it sends nothing and changes nothing;
    - when nothing raises, it visits the tree in pre-order, each entry exactly once.
  - **The general walk.** For two separate trees, the lemmas prove that a walk where nothing raises sends exactly the copies a reference definition (`Mirror`) calls for, in order.
- `replicator.dfy` (module `Replicator`): the classes.
  - `Rpc`: the callback, which logs every request in a ghost sequence.
  - `ReplicatorSource`: its loop-based walk is proved equal to the `SyncWalk` functions.
  - `ReplicatorTarget`.

Exceptions are values:

- a file-system call returns `Ok` or `Err`;
- an operation returns `Pass` or `Fail(error)`;
- a call raises when its `(call, path)` pair is in the store's fault set;
- a call also raises when the store rules it out:
  - `listdir` on a missing path or a file;
  - `readfile` on a missing path or a directory;
  - `makedirs` on an existing path;
  - `writefile` on a directory.
- `isfile`, `isdir`, `exists`, `watchdir` and `unwatchdir` raise only on a fault.

Python's recursion limit is modelled as `fuel`:

- `RecursionLimit = 1000`, CPython's default limit.
- A nested walk that starts with no fuel left fails with `RecursionError`. Like any other exception, the parent's per-item `except` catches it.

Two consequences of the code as written are proved:

- The constructor's initial sync walks the root onto itself (`remote_file_replicator.py:51`), so it sends no copy at all (`SyncWalk.SameRootWalkIsInert`). The same walk between two separate trees sends exactly the copies the target lacks (`SyncWalk.WalkMirrors`).
- A created-file event's request has no content, so the target raises `KeyError('content')` on it (`Requests.EventRequestsAtTarget`).

## Model

| member | source | states |
|---|---|---|
| Paths.Join | remote_file_replicator.py:34-35 | `join(a, b)` is `b` when `b` is absolute; otherwise it is `a`, then nothing or one '/', then `b` (nothing when `a` is empty or ends with '/') |
| Paths.Split | remote_file_replicator.py:105 | (definition, no contract) `posixpath.split(p)`: the tail is what follows the last '/'. The head is what precedes it, with its trailing slashes removed unless it consists of slashes only |
| Paths.SplitParts | remote_file_replicator.py:105 | `split(p)`: the tail is the longest suffix of `p` without '/' and sits right after a '/'. The head is what precedes the tail with its trailing slashes dropped. When that prefix is all slashes, the head is the whole prefix |
| Paths.BasenameOfJoin | remote_file_replicator.py:105-106 | splitting `join(d, n)` gives back `n` for any single component `n` |
| Paths.DirnameOfJoin | remote_file_replicator.py:34-35 | the head of `join(d, n)` is `d` again when `d` has no trailing '/' or consists of slashes only |
| Paths.SiblingsApart | remote_file_replicator.py:34-35 | no path lies at or below two different children `join(d, n)` and `join(d, m)` of one directory |
| Fs.Insert | remote_file_replicator.py:45 | storing an entry adds exactly its path. Every other path is unchanged except the parent. The parent's listing gains the new basename at its end exactly when the path is new and the parent is a stored directory; otherwise the parent is unchanged. Files stay files with the same content |
| Fs.WriteFileTwice | remote_file_replicator.py:109 | a second `writefile` of the same content at the same path changes nothing |
| Fs.FileSystem.ListDir | remote_file_replicator.py:32 | `listdir` returns the directory's listing, or raises on a fault, a missing path or a file |
| Fs.FileSystem.IsFile | remote_file_replicator.py:37 | `isfile` holds exactly for a stored file; it raises only on a fault |
| Fs.FileSystem.IsDir | remote_file_replicator.py:42 | `isdir` holds exactly for a stored directory; it raises only on a fault |
| Fs.FileSystem.Exists | remote_file_replicator.py:39 | `exists` holds exactly for a stored path; it raises only on a fault |
| Fs.FileSystem.ReadFile | remote_file_replicator.py:40 | `readfile` returns the file's whole content, or raises on a fault, a missing path or a directory |
| Fs.FileSystem.MakeDirs | remote_file_replicator.py:45 | `makedirs` stores an empty directory at a new path. It raises and changes nothing on a fault or an existing path |
| Fs.FileSystem.WriteFile | remote_file_replicator.py:109 | `writefile` stores the content at the path, creating or overwriting the file. It raises and changes nothing on a fault or a directory there |
| Fs.FileSystem.WatchDir | remote_file_replicator.py:26 | `watchdir` registers the callback for the path, or raises and registers nothing |
| Fs.FileSystem.UnwatchDir | remote_file_replicator.py:92 | `unwatchdir` removes the path's watch, or raises and removes nothing |
| Requests.CopyRequest | remote_file_replicator.py:41 | (definition, no contract) the initial sync's request for a missing file: action `copy`, the target path and the file's content |
| Requests.ActionOf | remote_file_replicator.py:75-86 | (definition, no contract) the action string a handled event kind is sent as: `copy` for CREATED, `modify` for MODIFIED, `delete` for DELETED, and none for any other kind |
| Requests.TargetPath | remote_file_replicator.py:105-106 | (definition, no contract) where the target writes a copy: its root joined with the tail of `split` of the request's path |
| Requests.EventRequest | remote_file_replicator.py:70-87 | CREATED, MODIFIED and DELETED, and only they, give one request. Its action maps back to the event kind (`copy`, `modify`, `delete`), its path is `join(root, file_name)` and it has no content |
| Requests.ApplyRequest | remote_file_replicator.py:102-109 | a non-copy action changes nothing and passes. A copy without content raises `KeyError('content')` and changes nothing. A copy with content passes exactly when `writefile` at `join(root, basename(path))` has no fault and finds no directory there. It then puts the content at that path and changes no other path except the parent, whose listing gains the basename when the file is new. A failure changes nothing |
| Requests.ApplyRequestIdempotent | remote_file_replicator.py:102-109 | applying a request that succeeded a second time passes and changes nothing more |
| Requests.CopyLandsAtBasename | remote_file_replicator.py:105-106 | a copy for `join(dir, name)` lands at `join(root, name)` whatever `dir` is |
| Requests.EventRequestsAtTarget | remote_file_replicator.py:103-109 | at the target, a created-file event's request raises `KeyError` (it has no content); a modified or deleted file's request changes nothing |
| SyncWalk.Walk | remote_file_replicator.py:31-48 | (definition, no contract) `copy_files_and_subdirs(src, tgt)`: with no recursion depth left it raises `RecursionError`. A failing `listdir(src)` escapes. Otherwise it passes after running the loop over the listing |
| SyncWalk.WalkItems | remote_file_replicator.py:33-48 | (definition, no contract) the `for` loop: each item's iteration in listing order, each starting from the state the previous one left |
| SyncWalk.Visit | remote_file_replicator.py:34-48 | (definition, no contract) one iteration: the item's source and target paths are `join`ed, the `try` block runs, and the item is recorded as skipped when the block raised, keeping the effects made before the raise |
| SyncWalk.TryEntry | remote_file_replicator.py:36-46 | (definition, no contract) the `try` block: a file whose target is absent is read and sent as a `copy` request; a directory's missing target is created and then walked; anything else does nothing. The first raising call ends the block with the effects made before it |
| SyncWalk.FileEntry | remote_file_replicator.py:37-41 | a file entry never changes the store. It sends exactly one `copy` request with the file's whole content when the target is absent and reading succeeds. It sends nothing when the target exists. It fails with no effect when `exists` or `readfile` raises |
| SyncWalk.OtherEntry | remote_file_replicator.py:37-46 | an entry that is neither file nor directory passes with no effect |
| SyncWalk.DirectoryEntry | remote_file_replicator.py:42-46 | a directory entry creates the target only when it is absent, then walks the subdirectory into it; a failing `exists` or `makedirs` abandons the entry with no effect |
| SyncWalk.ListingFailureEscapes | remote_file_replicator.py:32 | the walk fails exactly when its own `listdir` fails (or the recursion limit is reached), and then it has done nothing |
| SyncWalk.WalkExtends | remote_file_replicator.py:31-48 | whatever raises, the walk removes and rewrites no file. It only adds directories. Every request copies the full content of a file present at the start to a path absent at the start |
| SyncWalk.WalkItemsExtends | remote_file_replicator.py:33-48 | the same for the loop over a listing |
| SyncWalk.VisitExtends | remote_file_replicator.py:34-48 | the same for one iteration, including its `except` clause |
| SyncWalk.TryEntryExtends | remote_file_replicator.py:36-46 | the same for the `try` block of one entry |
| SyncWalk.WalkVisitsEveryItem | remote_file_replicator.py:33-48 | once the root is listed, the walk passes and visits every item of the listing, whatever raises for earlier items or inside their subtrees |
| SyncWalk.WalkItemsVisitsEveryItem | remote_file_replicator.py:33-48 | every item of the loop's listing is visited |
| SyncWalk.WalkItemsStep | remote_file_replicator.py:33-48 | the loop from item `i` on is item `i`'s iteration, then the loop from item `i + 1` on |
| SyncWalk.SameRootWalkIsInert | remote_file_replicator.py:51 | walking the root onto itself sends no request and leaves the store as it was, whatever raises |
| SyncWalk.SameRootItemsAreInert | remote_file_replicator.py:51 | the same for the loop over the root's listing |
| SyncWalk.SameEntryIsInert | remote_file_replicator.py:51 | the same for one entry whose target is its own source |
| SyncWalk.SameRootWalkVisitsPreOrder | remote_file_replicator.py:31-46 | when nothing raises, the same-root walk visits the tree in pre-order and `listdir` order |
| SyncWalk.SameRootItemsVisitPreOrder | remote_file_replicator.py:33-46 | the same for the loop over a listing |
| SyncWalk.SameRootVisitsPreOrder | remote_file_replicator.py:34-46 | the same for one iteration: it visits its item, then the item's tree, and leaves the store as it was |
| SyncWalk.SameEntryVisitsPreOrder | remote_file_replicator.py:36-46 | the same for one entry |
| SyncWalk.PreOrderIsDistinct | remote_file_replicator.py:34 | when every listing holds distinct single components, the pre-order holds distinct paths, all strictly below the root |
| SyncWalk.PreOrderOfIsDistinct | remote_file_replicator.py:33-34 | the same for the entries of one listing; none of them lies below a name the listing lacks |
| SyncWalk.ChildPreOrderIsDistinct | remote_file_replicator.py:34-46 | one item followed by its own tree holds distinct paths. All of them lie at or below the item and strictly below the parent, and none lies at or below a sibling |
| SyncWalk.ListingConcat | remote_file_replicator.py:33-34 | the first item's part of a listing's pre-order, joined with the rest, keeps the paths distinct and below the parent. None of them lies below a name the listing lacks |
| SyncWalk.SameRootWalkVisitsEachEntryOnce | remote_file_replicator.py:31-51 | when nothing raises, the constructor's walk over a well-formed tree visits each entry below the root exactly once, in pre-order |
| SyncWalk.MirrorCongruent | remote_file_replicator.py:31-46 | what the walk from `s` to `t` calls for depends only on the source tree and on what lies strictly below `t` |
| SyncWalk.MirrorOfCongruent | remote_file_replicator.py:33-46 | the same for the items of a listing |
| SyncWalk.MirrorItemCongruent | remote_file_replicator.py:36-46 | the same for one item, given that the two stores agree at the item's source and target paths |
| SyncWalk.WalkMirrors | remote_file_replicator.py:31-46 | for two separate trees, when nothing raises, the walk sends exactly one copy for each source file whose mirrored path is missing, in pre-order and `listdir` order. It changes the store only at or below the target root |
| SyncWalk.WalkItemsMirror | remote_file_replicator.py:33-46 | the same for the loop over a listing |
| SyncWalk.VisitMirrors | remote_file_replicator.py:34-46 | one iteration sends the copies its item calls for, and changes only the target directory and the item's target tree |
| SyncWalk.TryEntryMirrors | remote_file_replicator.py:37-46 | the same for the `try` block of one entry. It changes no path outside the item's target tree except the entry of the target's parent |
| SyncWalk.LeafItemMirrors | remote_file_replicator.py:37-41 | a file sends its copy exactly when the target is absent, and a path that is neither file nor directory sends nothing. Neither changes the store |
| SyncWalk.DirectoryItemMirrors | remote_file_replicator.py:42-46 | a directory entry sends what its subtree calls for. It changes no path outside the target's tree except the entry of the target's parent |
| SyncWalk.DirectoryItemParent | remote_file_replicator.py:44-46 | a directory entry changes a stored parent of the target only when the target was missing and the parent is a directory, and then only by adding the target's basename at the end of the parent's listing |
| SyncWalk.DirectoryStep | remote_file_replicator.py:42-46 | when no call raises, a directory entry is the walk of the subdirectory into the target, after the target is created if it is missing |
| SyncWalk.DirectoryEntryMirrors | remote_file_replicator.py:43-46 | after the target directory is created if missing, the walk into it sends exactly what the subtree calls for in the store as it was before. Outside the target's tree only the parent's entry changes: its listing gains the target's basename at the end when the target was missing and the parent is a stored directory, and otherwise it stays as it was |
| SyncWalk.MakeDirFrame | remote_file_replicator.py:44-45 | creating a missing target directory changes only that path and its parent's entry, and leaves the source tree as it was. A stored parent gains the target's basename at the end of its listing when the target was missing and the parent is a directory; otherwise the parent stays as it was |
| SyncWalk.RestUntouched | remote_file_replicator.py:33-35 | what one item changes leaves the source tree and the target trees of the other items as they were |
| Replicator.StopWatchingOf | remote_file_replicator.py:89-92 | the root's watch is removed exactly when `exists(root)` holds and `unwatchdir` succeeds. A failure of either call raises and keeps the watches |
| Replicator.StopWatchingTwice | remote_file_replicator.py:89-92 | stopping a second time raises nothing and changes nothing more |
| Replicator.Rpc.Handle | remote_file_replicator.py:41 | the callback receives each request once, appended after those before it |
| Replicator.ReplicatorSource.constructor | remote_file_replicator.py:19-21 | the fields hold the file system, the root and the callback |
| Replicator.ReplicatorSource.Create | remote_file_replicator.py:18-26 | the root is `normpath(dir_path)`, and the store and the requests sent are unchanged. A raising sync is re-raised with no watch registered. Otherwise `watchdir(root)` registers the new source, or raises and registers nothing |
| Replicator.ReplicatorSource.InitialSync | remote_file_replicator.py:28-51 | `_initial_sync` does what `Walk` does from the root onto itself |
| Replicator.ReplicatorSource.CopyFilesAndSubdirs | remote_file_replicator.py:31-48 | the loop-based walk's outcome, store, requests and logs are those of `Walk` |
| Replicator.ReplicatorSource.SyncEntry | remote_file_replicator.py:36-46 | the `try` block's outcome and effects are those of `TryEntry` |
| Replicator.ReplicatorSource.HandleEvent | remote_file_replicator.py:70-87 | one request, the one `EventRequest` gives, for a created, modified or deleted file; nothing for any other event |
| Replicator.ReplicatorSource.StopWatching | remote_file_replicator.py:89-92 | the outcome and the new watches are those of `StopWatchingOf` |
| Replicator.ReplicatorTarget.constructor | remote_file_replicator.py:98-100 | the fields hold the file system and the root as given |
| Replicator.ReplicatorTarget.HandleRequest | remote_file_replicator.py:102-109 | the outcome and the new store are those of `ApplyRequest` |

## Left out

- The file-system implementation: `file_system` is not part of this model.
  - `FileSystem` is an abstract store whose failures are a fixed set of `(call, path)` pairs.
  - `makedirs` creates no missing intermediate directories in this store.
  - A new path is added to its parent's listing only when the parent is a stored directory.
- Watch delivery and concurrency.
  - Events reach `HandleEvent` as sequential calls.
  - `watches` maps each watched path to the object whose `handle_event` is the callback.
- The RPC transport. `rpc_handle` never raises, and what it returns is never used.
  - Its requests are a ghost log, so "the store and the requests are unchanged" is stated about that log.
- The debugging `print` in the `except` clause. Its paths are recorded in the ghost `skipped` log instead.
- `TASK_NUM`, which only gates a test harness.
- The first definitions of `handle_event` and `stop_watching` (lines 53-67). Python rebinds both names later in the class body, so those definitions never run.
- `posixpath.normpath`. It is a parameter of `Create`, and its internals are not modelled.
- Python's recursion limit is approximated by a fixed depth of 1000 nested walks. The interpreter's real stack depth also counts the caller's frames.
- Behaviour the code does not have is not modelled:
  - target-side `modify` and `delete`;
  - creating parent directories on the target;
  - content in live-event requests;
  - error results from `handle_request`.
- Replicator.StopWatchingTwice: relies on the modelled `unwatchdir` passing for a path that has no watch. The real `file_system` module is not part of this model. A second `stop_watching` calls `exists` and `unwatchdir` again, and whether that raises depends on that module.
- SyncWalk.WalkExtends: says a copy carries the content of some file present at the start, not of that item's own source file. The pairing is stated by `FileEntry` for one entry, and by `WalkMirrors` when nothing raises and the trees are separate.
- SyncWalk.SameRootWalkVisitsEachEntryOnce: is proved for trees whose listings hold distinct single components and whose depth is within the recursion limit. Entries that the listings omit are not visited and are not counted.
- SyncWalk.WalkMirrors: is proved when no call raises and the source and target trees share no path. The target root must not end with '/'. When the target lies inside the source, the walk can visit the directories it has just created; the model keeps that behaviour, and only the fuel bound limits it.
