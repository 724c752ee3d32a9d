/** The requests the replicator's source hands to its RPC callback, the
    file-system events it turns into requests, and what its target does with a
    request it receives. */
module Requests {
  import opened Paths
  import opened Fs

  datatype Option<+T> = None | Some(value: T)

  /** A request dict: its 'action' and 'path' keys, and its 'content' key,
      which only the copies of the initial sync carry. */
  datatype Request = Request(action: string, path: string, content: Option<Bytes>)

  /** What a call may raise: a file-system error, the interpreter's recursion
      limit, or a missing key of a request dict. */
  datatype Error = FsFailure(cause: FsError) | RecursionError | KeyError(key: string)

  datatype Outcome = Pass | Fail(error: Error)

  /** The request the initial sync sends for a file missing at the target. */
  function CopyRequest(path: string, content: Bytes): Request {
    Request("copy", path, Some(content))
  }

  /** The kinds of `FileSystemEvent`; `Other` stands for any kind the
      replicator does not handle. */
  datatype EventType = Created | Modified | Deleted | Other(name: string)

  datatype FileSystemEvent = FileSystemEvent(kind: EventType, fileName: string)

  /** The action string a live event of each handled kind is sent as. */
  function ActionOf(kind: EventType): Option<string> {
    match kind
    case Created => Some("copy")
    case Modified => Some("modify")
    case Deleted => Some("delete")
    case Other(_) => None
  }

  /** The kind of event an action string stands for; the inverse of
      `ActionOf`. */
  function KindOf(action: string): Option<EventType> {
    if action == "copy" then Some(Created)
    else if action == "modify" then Some(Modified)
    else if action == "delete" then Some(Deleted)
    else None
  }

  /** The request `handle_event` sends for `e` when the source is rooted at
      `root`: one request for a created, modified or deleted file, with no
      content, for the event's file name joined to the root; none otherwise. */
  function EventRequest(root: string, e: FileSystemEvent): (r: Option<Request>)
    ensures r.Some? <==> !e.kind.Other?
    ensures r.Some? ==> r.value.path == Join(root, e.fileName) && r.value.content == None
    ensures r.Some? ==> KindOf(r.value.action) == Some(e.kind)
  {
    match ActionOf(e.kind)
    case None => None
    case Some(action) => Some(Request(action, Join(root, e.fileName), None))
  }

  /** Where the target writes a copy: its root joined with the basename of the
      request's path. */
  function TargetPath(root: string, requestPath: string): string {
    Join(root, Basename(requestPath))
  }

  /** `ReplicatorTarget.handle_request`: a copy writes the request's content
      to `TargetPath`; a copy without content raises `KeyError`; every other
      action is ignored. Returns the outcome and the target's new store. */
  function ApplyRequest(faults: Faults, entries: Entries, root: string, req: Request): (r: (Outcome, Entries))
    ensures r.0.Fail? ==> r.1 == entries
    ensures req.action != "copy" ==> r == (Pass, entries)
    ensures req.action == "copy" && req.content.None? ==> r == (Fail(KeyError("content")), entries)
    ensures req.action == "copy" && req.content.Some? ==>
      var dest := TargetPath(root, req.path);
      (r.0.Pass? <==> (WriteFile, dest) !in faults && !(dest in entries && entries[dest].Dir?))
    ensures req.action == "copy" && r.0.Pass? ==>
      var dest := TargetPath(root, req.path);
      var parent := Dirname(dest);
      && r.1.Keys == entries.Keys + {dest}
      && r.1[dest] == File(req.content.value)
      && (forall q :: q in entries && q != dest && q != parent ==> r.1[q] == entries[q])
      && (parent in entries && parent != dest ==>
            r.1[parent] == if dest !in entries && entries[parent].Dir?
                           then Dir(entries[parent].names + [Basename(dest)])
                           else entries[parent])
  {
    if req.action != "copy" then (Pass, entries)
    else
      var dest := TargetPath(root, req.path);
      match req.content
      case None => (Fail(KeyError("content")), entries)
      case Some(c) =>
        match WriteFileOf(faults, entries, dest, c)
        case Err(e) => (Fail(FsFailure(e)), entries)
        case Ok(written) => (Pass, written)
  }

  /** Applying a request a second time changes nothing more: a copy that
      succeeded leaves its file in place, and writing the same content there
      again yields the same store. */
  lemma ApplyRequestIdempotent(faults: Faults, entries: Entries, root: string, req: Request)
    requires ApplyRequest(faults, entries, root, req).0.Pass?
    ensures var once := ApplyRequest(faults, entries, root, req).1;
      ApplyRequest(faults, once, root, req) == (Pass, once)
  {
    if req.action == "copy" {
      WriteFileTwice(faults, entries, TargetPath(root, req.path), req.content.value);
    }
  }

  /** A copy for `dir/name` lands at `root/name` whatever `dir` is: the target
      drops every directory component of the path it is sent. */
  lemma {:induction false} CopyLandsAtBasename(root: string, dir: string, name: string)
    requires NoSlash(name)
    ensures TargetPath(root, Join(dir, name)) == Join(root, name)
  {
    BasenameOfJoin(dir, name);
  }

  /** The target cannot apply what `handle_event` sends: a created file's
      request has no content and raises `KeyError`, and a modified or deleted
      file's request leaves the target's store as it was. */
  lemma EventRequestsAtTarget(faults: Faults, entries: Entries, root: string, targetRoot: string, e: FileSystemEvent)
    requires !e.kind.Other?
    ensures var req := EventRequest(root, e).value;
      ApplyRequest(faults, entries, targetRoot, req) ==
        if e.kind == Created then (Fail(KeyError("content")), entries) else (Pass, entries)
  {
  }
}
