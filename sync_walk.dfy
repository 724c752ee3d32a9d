/** The initial sync of `ReplicatorSource` as functions: the recursive walk
    `copy_files_and_subdirs(source_path, target_path)` over the source's file
    system, and what is proved about it. The methods of `Replicator` that run
    the walk are proved equal to these functions. */
module SyncWalk {
  import opened Paths
  import opened Fs
  import opened Requests

  /** What the walk has done so far: the file system's store, the requests
      handed to the RPC callback, the item paths visited in loop order, and
      the item paths whose handling raised (the ones the walk prints). */
  datatype WalkState = WalkState(entries: Entries, sent: seq<Request>, visited: seq<string>, skipped: seq<string>)

  /** `copy_files_and_subdirs(src, tgt)`. `fuel` is the recursion depth left
      before the interpreter raises `RecursionError`; a nested walk that starts
      without any raises it before doing anything. Only a failure to list `src`
      escapes: every entry's own failure is caught in the loop. */
  function Walk(faults: Faults, w: WalkState, src: string, tgt: string, fuel: nat): (Outcome, WalkState)
    decreases fuel, 3, 0
  {
    if fuel == 0 then (Fail(RecursionError), w)
    else
      match ListDirOf(faults, w.entries, src)
      case Err(e) => (Fail(FsFailure(e)), w)
      case Ok(items) => (Pass, WalkItems(faults, w, src, tgt, items, fuel))
  }

  /** The `for item in items` loop, from the given item on. */
  function WalkItems(faults: Faults, w: WalkState, src: string, tgt: string, items: seq<string>, fuel: nat): WalkState
    requires fuel > 0
    decreases fuel, 2, |items|
  {
    if items == [] then w
    else WalkItems(faults, Visit(faults, w, src, tgt, items[0], fuel), src, tgt, items[1..], fuel)
  }

  /** The loop from item `i` on is item `i`'s iteration followed by the loop
      from item `i + 1` on. */
  lemma WalkItemsStep(faults: Faults, w: WalkState, src: string, tgt: string, items: seq<string>, i: nat, fuel: nat)
    requires fuel > 0 && i < |items|
    ensures WalkItems(faults, w, src, tgt, items[i..], fuel)
         == WalkItems(faults, Visit(faults, w, src, tgt, items[i], fuel), src, tgt, items[i + 1..], fuel)
  {
    assert items[i..][1..] == items[i + 1..];
  }

  /** One iteration of the loop: the `try` block on one item, and the
      `except` clause that records the item when the block raised. */
  function Visit(faults: Faults, w: WalkState, src: string, tgt: string, item: string, fuel: nat): WalkState
    requires fuel > 0
    decreases fuel, 1, 0
  {
    var s := Join(src, item);
    var (outcome, w') := TryEntry(faults, w.(visited := w.visited + [s]), s, Join(tgt, item), fuel);
    if outcome.Pass? then w' else w'.(skipped := w'.skipped + [s])
  }

  /** The `try` block for the item at source path `s` and target path `t`: a
      file is copied when `t` does not exist; a directory is created at `t`
      when missing and then walked. The state returned with a failure holds the
      effects made before the call that raised. */
  function TryEntry(faults: Faults, w: WalkState, s: string, t: string, fuel: nat): (Outcome, WalkState)
    requires fuel > 0
    decreases fuel, 0, 0
  {
    match IsFileOf(faults, w.entries, s)
    case Err(e) => (Fail(FsFailure(e)), w)
    case Ok(true) =>
      (match ExistsOf(faults, w.entries, t)
       case Err(e) => (Fail(FsFailure(e)), w)
       case Ok(true) => (Pass, w)
       case Ok(false) =>
         match ReadFileOf(faults, w.entries, s)
         case Err(e) => (Fail(FsFailure(e)), w)
         case Ok(content) => (Pass, w.(sent := w.sent + [CopyRequest(t, content)])))
    case Ok(false) =>
      match IsDirOf(faults, w.entries, s)
      case Err(e) => (Fail(FsFailure(e)), w)
      case Ok(false) => (Pass, w)
      case Ok(true) =>
        match ExistsOf(faults, w.entries, t)
        case Err(e) => (Fail(FsFailure(e)), w)
        case Ok(present) =>
          var made := if present then Ok(w.entries) else MakeDirsOf(faults, w.entries, t);
          match made
          case Err(e) => (Fail(FsFailure(e)), w)
          case Ok(entries) => Walk(faults, w.(entries := entries), s, t, fuel - 1)
  }

  // ---------------------------------------------------------------------------
  // What one entry does

  /** A file entry sends exactly one copy request, carrying the file's whole
      content to the target path, when the target path does not exist; when it
      exists the entry does nothing. The store is never changed. */
  lemma FileEntry(faults: Faults, w: WalkState, s: string, t: string, fuel: nat)
    requires fuel > 0
    requires IsFileOf(faults, w.entries, s) == Ok(true)
    ensures var (outcome, r) := TryEntry(faults, w, s, t, fuel);
      && r.(sent := w.sent) == w
      && (ExistsOf(faults, w.entries, t) == Ok(true) ==> outcome == Pass && r.sent == w.sent)
      && (ExistsOf(faults, w.entries, t) == Ok(false) && (ReadFile, s) !in faults ==>
            outcome == Pass && r.sent == w.sent + [CopyRequest(t, w.entries[s].content)])
      && (ExistsOf(faults, w.entries, t).Err? || (ExistsOf(faults, w.entries, t) == Ok(false) && (ReadFile, s) in faults) ==>
            outcome.Fail? && r == w)
  {
  }

  /** An entry that is neither a file nor a directory is passed over. */
  lemma OtherEntry(faults: Faults, w: WalkState, s: string, t: string, fuel: nat)
    requires fuel > 0
    requires IsFileOf(faults, w.entries, s) == Ok(false) && IsDirOf(faults, w.entries, s) == Ok(false)
    ensures TryEntry(faults, w, s, t, fuel) == (Pass, w)
  {
  }

  /** A directory entry creates the target directory only when it is absent,
      then walks the source directory into it; a failure of `exists` or of
      `makedirs` abandons the entry before the walk. */
  lemma DirectoryEntry(faults: Faults, w: WalkState, s: string, t: string, fuel: nat)
    requires fuel > 0
    requires IsFileOf(faults, w.entries, s) == Ok(false) && IsDirOf(faults, w.entries, s) == Ok(true)
    ensures ExistsOf(faults, w.entries, t) == Ok(true) ==>
      TryEntry(faults, w, s, t, fuel) == Walk(faults, w, s, t, fuel - 1)
    ensures ExistsOf(faults, w.entries, t) == Ok(false) && MakeDirsOf(faults, w.entries, t).Ok? ==>
      TryEntry(faults, w, s, t, fuel) ==
        Walk(faults, w.(entries := Insert(w.entries, t, Dir([]))), s, t, fuel - 1)
    ensures ExistsOf(faults, w.entries, t).Err? || (ExistsOf(faults, w.entries, t) == Ok(false) && (MakeDirs, t) in faults) ==>
      TryEntry(faults, w, s, t, fuel).0.Fail? && TryEntry(faults, w, s, t, fuel).1 == w
  {
    if ExistsOf(faults, w.entries, t) == Ok(true) {
      assert w.(entries := w.entries) == w;
    }
  }

  /** Only a failure to list the walked directory escapes the walk; it
      escapes before anything is done. */
  lemma ListingFailureEscapes(faults: Faults, w: WalkState, src: string, tgt: string, fuel: nat)
    ensures Walk(faults, w, src, tgt, fuel).0.Fail? <==> fuel == 0 || ListDirOf(faults, w.entries, src).Err?
    ensures Walk(faults, w, src, tgt, fuel).0.Fail? ==> Walk(faults, w, src, tgt, fuel).1 == w
  {
  }

  // ---------------------------------------------------------------------------
  // What the whole walk does

  /** The request was sent for a file missing from `entries`, and carries the
      full content of a file that `entries` holds. */
  ghost predicate CopyOfFile(entries: Entries, r: Request) {
    && r.action == "copy"
    && r.content.Some?
    && r.path !in entries
    && exists s :: s in entries && entries[s] == File(r.content.value)
  }

  /** `b` is a later state of the walk than `a`: no entry is removed, no file
      is changed, a directory stays a directory, every new entry is a
      directory, the logs only grow, and every request sent since `a` copies a
      file of `a` to a path `a` lacks. */
  ghost predicate Extends(a: WalkState, b: WalkState) {
    && a.entries.Keys <= b.entries.Keys
    && (forall p :: p in a.entries && a.entries[p].File? ==> b.entries[p] == a.entries[p])
    && (forall p :: p in a.entries && a.entries[p].Dir? ==> b.entries[p].Dir?)
    && (forall p :: p in b.entries && p !in a.entries ==> b.entries[p].Dir?)
    && a.sent <= b.sent && a.visited <= b.visited && a.skipped <= b.skipped
    && (forall i :: |a.sent| <= i < |b.sent| ==> CopyOfFile(a.entries, b.sent[i]))
  }

  lemma ExtendsTransitive(a: WalkState, b: WalkState, c: WalkState)
    requires Extends(a, b) && Extends(b, c)
    ensures Extends(a, c)
  {
    forall i | |a.sent| <= i < |c.sent|
      ensures CopyOfFile(a.entries, c.sent[i])
    {
      if i < |b.sent| {
        assert c.sent[i] == b.sent[i];
      } else {
        var r := c.sent[i];
        assert CopyOfFile(b.entries, r);
        var s :| s in b.entries && b.entries[s] == File(r.content.value);
        assert s in a.entries;
      }
    }
  }

  /** The walk never writes, removes or replaces a file of the source's file
      system: its only change to the store is new directories (`makedirs`),
      and every request it sends copies the content of a file that was there
      when it started to a path that was not. */
  lemma {:induction false} WalkExtends(faults: Faults, w: WalkState, src: string, tgt: string, fuel: nat)
    ensures Extends(w, Walk(faults, w, src, tgt, fuel).1)
    decreases fuel, 3, 0
  {
    if fuel > 0 && ListDirOf(faults, w.entries, src).Ok? {
      WalkItemsExtends(faults, w, src, tgt, ListDirOf(faults, w.entries, src).value, fuel);
    }
  }

  lemma {:induction false} WalkItemsExtends(faults: Faults, w: WalkState, src: string, tgt: string, items: seq<string>, fuel: nat)
    requires fuel > 0
    ensures Extends(w, WalkItems(faults, w, src, tgt, items, fuel))
    decreases fuel, 2, |items|
  {
    if items != [] {
      var w1 := Visit(faults, w, src, tgt, items[0], fuel);
      VisitExtends(faults, w, src, tgt, items[0], fuel);
      WalkItemsExtends(faults, w1, src, tgt, items[1..], fuel);
      ExtendsTransitive(w, w1, WalkItems(faults, w1, src, tgt, items[1..], fuel));
    }
  }

  lemma {:induction false} VisitExtends(faults: Faults, w: WalkState, src: string, tgt: string, item: string, fuel: nat)
    requires fuel > 0
    ensures Extends(w, Visit(faults, w, src, tgt, item, fuel))
    decreases fuel, 1, 0
  {
    var s := Join(src, item);
    var w0 := w.(visited := w.visited + [s]);
    TryEntryExtends(faults, w0, s, Join(tgt, item), fuel);
    var (outcome, w') := TryEntry(faults, w0, s, Join(tgt, item), fuel);
    var w1 := if outcome.Pass? then w' else w'.(skipped := w'.skipped + [s]);
    assert Visit(faults, w, src, tgt, item, fuel) == w1;
    LogsOnly(w, w0);
    LogsOnly(w', w1);
    ExtendsTransitive(w, w0, w');
    ExtendsTransitive(w, w', w1);
  }

  /** A step that only appends to the logs extends the state. */
  lemma LogsOnly(a: WalkState, b: WalkState)
    requires b.entries == a.entries && b.sent == a.sent
    requires a.visited <= b.visited && a.skipped <= b.skipped
    ensures Extends(a, b)
  {
  }

  lemma {:induction false} TryEntryExtends(faults: Faults, w: WalkState, s: string, t: string, fuel: nat)
    requires fuel > 0
    ensures Extends(w, TryEntry(faults, w, s, t, fuel).1)
    decreases fuel, 0, 0
  {
    if IsFileOf(faults, w.entries, s) == Ok(true) {
      if ExistsOf(faults, w.entries, t) == Ok(false) && ReadFileOf(faults, w.entries, s).Ok? {
        var r := CopyRequest(t, ReadFileOf(faults, w.entries, s).value);
        assert w.entries[s] == File(r.content.value);
        assert CopyOfFile(w.entries, r);
      }
    } else if IsFileOf(faults, w.entries, s) == Ok(false) && IsDirOf(faults, w.entries, s) == Ok(true) {
      var present := ExistsOf(faults, w.entries, t);
      if present.Ok? {
        var made := if present.value then Ok(w.entries) else MakeDirsOf(faults, w.entries, t);
        if made.Ok? {
          var w1 := w.(entries := made.value);
          assert Extends(w, w1);
          WalkExtends(faults, w1, s, t, fuel - 1);
          ExtendsTransitive(w, w1, Walk(faults, w1, s, t, fuel - 1).1);
        }
      }
    }
  }

  /** Every item of a listed directory is visited, whatever happens to the
      items before it: a failure is caught per item and the loop goes on, and
      the walk itself does not raise. */
  lemma {:induction false} WalkVisitsEveryItem(faults: Faults, w: WalkState, src: string, tgt: string, fuel: nat)
    requires fuel > 0 && ListDirOf(faults, w.entries, src).Ok?
    ensures Walk(faults, w, src, tgt, fuel).0 == Pass
    ensures |w.visited| <= |Walk(faults, w, src, tgt, fuel).1.visited|
    ensures forall n :: n in ListDirOf(faults, w.entries, src).value ==>
      Join(src, n) in Walk(faults, w, src, tgt, fuel).1.visited[|w.visited|..]
  {
    WalkItemsExtends(faults, w, src, tgt, ListDirOf(faults, w.entries, src).value, fuel);
    WalkItemsVisitsEveryItem(faults, w, src, tgt, ListDirOf(faults, w.entries, src).value, fuel);
  }

  lemma {:induction false} WalkItemsVisitsEveryItem(faults: Faults, w: WalkState, src: string, tgt: string, items: seq<string>, fuel: nat)
    requires fuel > 0
    ensures |w.visited| <= |WalkItems(faults, w, src, tgt, items, fuel).visited|
    ensures forall n :: n in items ==> Join(src, n) in WalkItems(faults, w, src, tgt, items, fuel).visited[|w.visited|..]
    decreases |items|
  {
    WalkItemsExtends(faults, w, src, tgt, items, fuel);
    if items != [] {
      var w1 := Visit(faults, w, src, tgt, items[0], fuel);
      var r := WalkItems(faults, w1, src, tgt, items[1..], fuel);
      var s := Join(src, items[0]);
      var w0 := w.(visited := w.visited + [s]);
      TryEntryExtends(faults, w0, s, Join(tgt, items[0]), fuel);
      assert w1.visited[|w.visited|] == s;
      WalkItemsExtends(faults, w1, src, tgt, items[1..], fuel);
      assert r.visited[|w.visited|] == s;
      WalkItemsVisitsEveryItem(faults, w1, src, tgt, items[1..], fuel);
      forall n | n in items
        ensures Join(src, n) in r.visited[|w.visited|..]
      {
        if n != items[0] {
          assert n in items[1..];
          var k :| |w1.visited| <= k < |r.visited| && r.visited[k] == Join(src, n);
          assert r.visited[|w.visited|..][k - |w.visited|] == Join(src, n);
        } else {
          assert r.visited[|w.visited|..][0] == s;
        }
      }
    }
  }

  // ---------------------------------------------------------------------------
  // The walk with the same root on both sides, as the constructor runs it

  /** With the same directory as source and target, every item's target path
      is its own source path, which exists whenever it is a file or a
      directory: the walk sends no request and leaves the store as it was,
      whatever calls raise. */
  lemma {:induction false} SameRootWalkIsInert(faults: Faults, w: WalkState, root: string, fuel: nat)
    ensures Walk(faults, w, root, root, fuel).1.entries == w.entries
    ensures Walk(faults, w, root, root, fuel).1.sent == w.sent
    decreases fuel, 3, 0
  {
    if fuel > 0 && ListDirOf(faults, w.entries, root).Ok? {
      SameRootItemsAreInert(faults, w, root, ListDirOf(faults, w.entries, root).value, fuel);
    }
  }

  lemma {:induction false} SameRootItemsAreInert(faults: Faults, w: WalkState, root: string, items: seq<string>, fuel: nat)
    requires fuel > 0
    ensures WalkItems(faults, w, root, root, items, fuel).entries == w.entries
    ensures WalkItems(faults, w, root, root, items, fuel).sent == w.sent
    decreases fuel, 2, |items|
  {
    if items != [] {
      var s := Join(root, items[0]);
      SameEntryIsInert(faults, w.(visited := w.visited + [s]), s, fuel);
      SameRootItemsAreInert(faults, Visit(faults, w, root, root, items[0], fuel), root, items[1..], fuel);
    }
  }

  lemma {:induction false} SameEntryIsInert(faults: Faults, w: WalkState, s: string, fuel: nat)
    requires fuel > 0
    ensures TryEntry(faults, w, s, s, fuel).1.entries == w.entries
    ensures TryEntry(faults, w, s, s, fuel).1.sent == w.sent
    decreases fuel, 1, 0
  {
    if IsFileOf(faults, w.entries, s) == Ok(false) && IsDirOf(faults, w.entries, s) == Ok(true)
      && ExistsOf(faults, w.entries, s).Ok?
    {
      assert ExistsOf(faults, w.entries, s) == Ok(true);
      assert w.(entries := w.entries) == w;
      SameRootWalkIsInert(faults, w, s, fuel - 1);
    }
  }

  /** The entries below `p` in pre-order and listing order, as far down as
      `fuel` levels: each item's path, then, for a directory, its own entries. */
  function PreOrder(entries: Entries, p: string, fuel: nat): seq<string>
    decreases fuel, 1, 0
  {
    if fuel == 0 || p !in entries || entries[p].File? then []
    else PreOrderOf(entries, p, entries[p].names, fuel)
  }

  function PreOrderOf(entries: Entries, p: string, names: seq<string>, fuel: nat): seq<string>
    requires fuel > 0
    decreases fuel, 0, |names|
  {
    if names == [] then []
    else
      var s := Join(p, names[0]);
      [s] + PreOrder(entries, s, fuel - 1) + PreOrderOf(entries, p, names[1..], fuel)
  }

  /** When no call raises, the walk from the root visits exactly the entries
      of the tree below it, once each position of the pre-order, in listing
      order. */
  lemma {:induction false} SameRootWalkVisitsPreOrder(w: WalkState, root: string, fuel: nat)
    ensures Walk({}, w, root, root, fuel).1.visited == w.visited + PreOrder(w.entries, root, fuel)
    ensures Walk({}, w, root, root, fuel).1.entries == w.entries
    decreases fuel, 3, 0
  {
    if fuel > 0 && ListDirOf({}, w.entries, root).Ok? {
      SameRootItemsVisitPreOrder(w, root, w.entries[root].names, fuel);
    }
  }

  lemma {:induction false} SameRootItemsVisitPreOrder(w: WalkState, root: string, items: seq<string>, fuel: nat)
    requires fuel > 0
    ensures WalkItems({}, w, root, root, items, fuel).visited == w.visited + PreOrderOf(w.entries, root, items, fuel)
    ensures WalkItems({}, w, root, root, items, fuel).entries == w.entries
    decreases fuel, 2, |items|
  {
    if items != [] {
      var s := Join(root, items[0]);
      var k: nat := fuel - 1;
      SameRootVisitsPreOrder(w, root, items[0], k);
      var w1 := Visit({}, w, root, root, items[0], k + 1);
      var sub, rest := PreOrder(w.entries, s, k), PreOrderOf(w.entries, root, items[1..], fuel);
      SameRootItemsVisitPreOrder(w1, root, items[1..], fuel);
      var r := WalkItems({}, w1, root, root, items[1..], fuel);
      assert w1.entries == w.entries;
      assert r.visited == w1.visited + rest;
      assert WalkItems({}, w, root, root, items, fuel) == r;
      assert PreOrderOf(w.entries, root, items, fuel) == ([s] + sub) + rest;
      AppendAfter(w.visited, [s] + sub, rest, w1.visited, r.visited);
    } else {
      assert w.visited + [] == w.visited;
    }
  }

  /** One iteration of the loop visits its item and then the item's tree. */
  lemma {:induction false} SameRootVisitsPreOrder(w: WalkState, root: string, item: string, k: nat)
    ensures var s := Join(root, item);
      && Visit({}, w, root, root, item, k + 1).visited == w.visited + ([s] + PreOrder(w.entries, s, k))
      && Visit({}, w, root, root, item, k + 1).entries == w.entries
    decreases k + 1, 1, 1
  {
    var s := Join(root, item);
    var w0 := w.(visited := w.visited + [s]);
    SameEntryVisitsPreOrder(w0, s, k);
    AppendAfter(w.visited, [s], PreOrder(w.entries, s, k), w0.visited, Visit({}, w, root, root, item, k + 1).visited);
  }

  lemma {:induction false} SameEntryVisitsPreOrder(w: WalkState, s: string, k: nat)
    ensures TryEntry({}, w, s, s, k + 1).1.visited == w.visited + PreOrder(w.entries, s, k)
    ensures TryEntry({}, w, s, s, k + 1).1.entries == w.entries
    decreases k + 1, 1, 0
  {
    if s in w.entries && w.entries[s].Dir? {
      assert w.(entries := w.entries) == w;
      SameRootWalkVisitsPreOrder(w, s, k);
    }
  }

  // ---------------------------------------------------------------------------
  // Each entry exactly once

  predicate Distinct(s: seq<string>) {
    forall i, j :: 0 <= i < j < |s| ==> s[i] != s[j]
  }

  /** A listing as `listdir` returns it: distinct single path components. */
  predicate IsListing(names: seq<string>) {
    (forall i :: 0 <= i < |names| ==> IsName(names[i])) && Distinct(names)
  }

  /** Every directory at or below `root` lists distinct single components. */
  ghost predicate WellFormedBelow(entries: Entries, root: string) {
    forall d :: d in entries && entries[d].Dir? && AtOrBelow(d, root) ==> IsListing(entries[d].names)
  }

  /** The tree of a child lies inside the tree of its parent. */
  lemma ChildTree(d: string, n: string)
    requires IsName(n)
    ensures forall x :: AtOrBelow(x, Join(d, n)) ==> Below(x, d)
  {
    JoinName(d, n);
    forall x | AtOrBelow(x, Join(d, n))
      ensures Below(x, d)
    {
      BelowTransitive(x, Join(d, n), d);
    }
  }

  lemma WellFormedBelowChild(entries: Entries, root: string, n: string)
    requires WellFormedBelow(entries, root) && IsName(n)
    ensures WellFormedBelow(entries, Join(root, n))
  {
    ChildTree(root, n);
  }

  lemma DistinctConcat(a: seq<string>, b: seq<string>)
    requires Distinct(a) && Distinct(b)
    requires forall x :: x in a ==> x !in b
    ensures Distinct(a + b)
  {
    forall i, j | 0 <= i < j < |a + b|
      ensures (a + b)[i] != (a + b)[j]
    {
      if |a| <= i {
        assert (a + b)[i] == b[i - |a|] && (a + b)[j] == b[j - |a|];
      } else if |a| <= j {
        assert (a + b)[i] in a && (a + b)[j] in b;
      }
    }
  }

  /** In a well-formed tree the pre-order below `p` lists paths strictly below
      `p`, none of them twice. */
  lemma {:induction false} PreOrderIsDistinct(entries: Entries, p: string, fuel: nat)
    requires WellFormedBelow(entries, p)
    ensures forall x :: x in PreOrder(entries, p, fuel) ==> Below(x, p)
    ensures Distinct(PreOrder(entries, p, fuel))
    decreases fuel, 1, 0
  {
    if fuel > 0 && p in entries && entries[p].Dir? {
      PreOrderOfIsDistinct(entries, p, entries[p].names, fuel);
    }
  }

  lemma {:induction false} PreOrderOfIsDistinct(entries: Entries, p: string, names: seq<string>, fuel: nat)
    requires fuel > 0 && IsListing(names) && WellFormedBelow(entries, p)
    ensures forall x :: x in PreOrderOf(entries, p, names, fuel) ==> Below(x, p)
    ensures forall x, m :: x in PreOrderOf(entries, p, names, fuel) && IsName(m) && m !in names ==> !AtOrBelow(x, Join(p, m))
    ensures Distinct(PreOrderOf(entries, p, names, fuel))
    decreases fuel, 0, |names|
  {
    if names != [] {
      var n := names[0];
      var k: nat := fuel - 1;
      var first := [Join(p, n)] + PreOrder(entries, Join(p, n), k);
      var rest := PreOrderOf(entries, p, names[1..], fuel);
      assert PreOrderOf(entries, p, names, fuel) == first + rest;
      assert IsName(n);
      ChildPreOrderIsDistinct(entries, p, n, k);
      ListingTail(names);
      PreOrderOfIsDistinct(entries, p, names[1..], fuel);
      ListingConcat(p, names, first, rest);
    } else {
      assert PreOrderOf(entries, p, names, fuel) == [];
    }
  }

  /** Joining the first item's part of a pre-order to the rest keeps the
      three properties `PreOrderOfIsDistinct` states. */
  lemma ListingConcat(p: string, names: seq<string>, first: seq<string>, rest: seq<string>)
    requires names != [] && IsName(names[0]) && names[0] !in names[1..]
    requires forall x :: x in first ==> AtOrBelow(x, Join(p, names[0])) && Below(x, p)
    requires forall x, m :: x in first && IsName(m) && m != names[0] ==> !AtOrBelow(x, Join(p, m))
    requires forall x :: x in rest ==> Below(x, p)
    requires forall x, m :: x in rest && IsName(m) && m !in names[1..] ==> !AtOrBelow(x, Join(p, m))
    requires Distinct(first) && Distinct(rest)
    ensures forall x :: x in first + rest ==> Below(x, p)
    ensures forall x, m :: x in first + rest && IsName(m) && m !in names ==> !AtOrBelow(x, Join(p, m))
    ensures Distinct(first + rest)
  {
    var n := names[0];
    forall x | x in first
      ensures x !in rest
    {
      assert AtOrBelow(x, Join(p, n));
    }
    DistinctConcat(first, rest);
    forall x | x in first + rest
      ensures Below(x, p)
    {
      if x !in first {
        assert x in rest;
      }
    }
    forall x, m | x in first + rest && IsName(m) && m !in names
      ensures !AtOrBelow(x, Join(p, m))
    {
      if x in first {
        assert m != n;
      } else {
        assert x in rest && m !in names[1..];
      }
    }
  }

  /** The first part of a listing's pre-order, an item followed by its own
      tree, lies in that item's tree, apart from its siblings' trees, and
      holds no path twice. */
  lemma {:induction false} ChildPreOrderIsDistinct(entries: Entries, p: string, n: string, k: nat)
    requires IsName(n) && WellFormedBelow(entries, p)
    ensures var first := [Join(p, n)] + PreOrder(entries, Join(p, n), k);
      && (forall x :: x in first ==> AtOrBelow(x, Join(p, n)) && Below(x, p))
      && (forall x, m :: x in first && IsName(m) && m != n ==> !AtOrBelow(x, Join(p, m)))
      && Distinct(first)
    decreases k + 1, 0, 0
  {
    var s := Join(p, n);
    var sub := PreOrder(entries, s, k);
    var first := [s] + sub;
    ChildTree(p, n);
    WellFormedBelowChild(entries, p, n);
    PreOrderIsDistinct(entries, s, k);
    forall x | x in first
      ensures AtOrBelow(x, s) && Below(x, p)
    {
      if x == s {
        assert AtOrBelow(x, s);
      } else {
        assert x in sub;
        assert Below(x, s);
      }
    }
    forall x, m | x in first && IsName(m) && m != n
      ensures !AtOrBelow(x, Join(p, m))
    {
      SiblingsApart(p, n, m, x);
    }
    NotBelowItself(s);
    assert s !in sub;
    DistinctConcat([s], sub);
  }

  /** What is left of a listing after its first name is a listing without
      that name. */
  lemma ListingTail(names: seq<string>)
    requires IsListing(names) && names != []
    ensures IsListing(names[1..]) && names[0] !in names[1..]
  {
    forall i, j | 0 <= i < j < |names[1..]|
      ensures names[1..][i] != names[1..][j]
    {
      assert names[1..][i] == names[i + 1] && names[1..][j] == names[j + 1];
    }
    forall k | 0 <= k < |names[1..]|
      ensures names[1..][k] != names[0]
    {
      assert names[1..][k] == names[k + 1];
    }
  }

  /** When no call raises, the constructor's walk over a well-formed tree
      visits each entry below the root exactly once: its visits are the
      pre-order of the tree, which names every path at most once and only
      paths below the root. */
  lemma SameRootWalkVisitsEachEntryOnce(w: WalkState, root: string, fuel: nat)
    requires WellFormedBelow(w.entries, root)
    ensures Walk({}, w, root, root, fuel).1.visited == w.visited + PreOrder(w.entries, root, fuel)
    ensures var visits := Walk({}, w, root, root, fuel).1.visited[|w.visited|..];
      && Distinct(visits)
      && forall x :: x in visits ==> Below(x, root)
  {
    SameRootWalkVisitsPreOrder(w, root, fuel);
    PreOrderIsDistinct(w.entries, root, fuel);
    var po := PreOrder(w.entries, root, fuel);
    assert (w.visited + po)[|w.visited|..] == po;
  }

  // ---------------------------------------------------------------------------
  // The walk between two separate trees

  /** No path lies in both trees. */
  ghost predicate Apart(a: string, b: string) {
    forall x :: AtOrBelow(x, a) ==> !AtOrBelow(x, b)
  }

  /** Between `e1` and `e2`, the parent of a newly created `t` gained `t`'s
      basename at the end of its listing, and any other stored parent of `t`
      stayed as it was: what `makedirs(t)` does to the parent. */
  ghost predicate ParentGainsName(e1: Entries, e2: Entries, t: string) {
    var parent := Dirname(t);
    parent in e1 && parent != t ==>
      parent in e2 &&
      e2[parent] == if t !in e1 && e1[parent].Dir? then Dir(e1[parent].names + [Basename(t)]) else e1[parent]
  }

  /** What mirroring an item into `t` does outside `t`'s tree: only the
      parent of `t` changes, and only as `ParentGainsName` says. */
  ghost predicate OnlyParentChanges(e1: Entries, e2: Entries, t: string) {
    && (forall p :: p != Dirname(t) && !AtOrBelow(p, t) ==> Unchanged(e1, e2, p))
    && ParentGainsName(e1, e2, t)
  }

  /** `p` holds the same entry, or none, in both stores. */
  ghost predicate Unchanged(e1: Entries, e2: Entries, p: string) {
    (p in e1 <==> p in e2) && (p in e1 ==> e1[p] == e2[p])
  }

  lemma ApartChildren(s: string, t: string, n: string)
    requires Apart(s, t) && IsName(n)
    ensures Apart(Join(s, n), Join(t, n))
    ensures !AtOrBelow(t, Join(s, n))
  {
    ChildTree(s, n);
    ChildTree(t, n);
    forall x | AtOrBelow(x, Join(s, n))
      ensures !AtOrBelow(x, Join(t, n))
    {
      assert AtOrBelow(x, s);
    }
    assert AtOrBelow(t, t);
  }

  /** The copies that mirroring the tree at `s` onto `t` calls for, in
      pre-order and listing order: one for every file of the source tree whose
      mirrored path is missing from `entries`, with that file's content. */
  function Mirror(entries: Entries, s: string, t: string, fuel: nat): seq<Request>
    decreases fuel, 1, 0
  {
    if fuel == 0 || s !in entries || entries[s].File? then []
    else MirrorOf(entries, s, t, entries[s].names, fuel)
  }

  function MirrorOf(entries: Entries, s: string, t: string, names: seq<string>, fuel: nat): seq<Request>
    requires fuel > 0
    decreases fuel, 0, |names|
  {
    if names == [] then []
    else MirrorItem(entries, Join(s, names[0]), Join(t, names[0]), fuel) + MirrorOf(entries, s, t, names[1..], fuel)
  }

  /** The copies one item calls for: its own for a file, its tree's for a
      directory. */
  function MirrorItem(entries: Entries, s: string, t: string, fuel: nat): seq<Request>
    requires fuel > 0
    decreases fuel, 0, 0
  {
    if s in entries && entries[s].File? then
      if t in entries then [] else [CopyRequest(t, entries[s].content)]
    else Mirror(entries, s, t, fuel - 1)
  }

  /** What the mirror of `s` onto `t` calls for depends only on the source
      tree and on what lies strictly below `t`. */
  lemma {:induction false} MirrorCongruent(e1: Entries, e2: Entries, s: string, t: string, fuel: nat)
    requires WellFormedBelow(e1, s)
    requires forall p :: AtOrBelow(p, s) || Below(p, t) ==> Unchanged(e1, e2, p)
    ensures Mirror(e1, s, t, fuel) == Mirror(e2, s, t, fuel)
    decreases fuel, 1, 0
  {
    assert Unchanged(e1, e2, s);
    if fuel > 0 && s in e1 && e1[s].Dir? {
      forall p, m | m in e1[s].names && AtOrBelow(p, Join(t, m))
        ensures Unchanged(e1, e2, p)
      {
        ChildTree(t, m);
      }
      MirrorOfCongruent(e1, e2, s, t, e1[s].names, fuel);
    }
  }

  lemma {:induction false} MirrorOfCongruent(e1: Entries, e2: Entries, s: string, t: string, names: seq<string>, fuel: nat)
    requires fuel > 0
    requires forall i :: 0 <= i < |names| ==> IsName(names[i])
    requires WellFormedBelow(e1, s)
    requires forall p :: AtOrBelow(p, s) ==> Unchanged(e1, e2, p)
    requires forall p, m :: m in names && AtOrBelow(p, Join(t, m)) ==> Unchanged(e1, e2, p)
    ensures MirrorOf(e1, s, t, names, fuel) == MirrorOf(e2, s, t, names, fuel)
    decreases fuel, 0, |names|
  {
    if names != [] {
      ChildAgrees(e1, e2, s, t, names[0], names);
      MirrorItemCongruent(e1, e2, Join(s, names[0]), Join(t, names[0]), fuel);
      RestAgrees(e1, e2, t, names);
      MirrorOfCongruent(e1, e2, s, t, names[1..], fuel);
    }
  }

  lemma {:induction false} MirrorItemCongruent(e1: Entries, e2: Entries, s: string, t: string, fuel: nat)
    requires fuel > 0 && WellFormedBelow(e1, s)
    requires Unchanged(e1, e2, s) && Unchanged(e1, e2, t)
    requires forall p :: AtOrBelow(p, s) || Below(p, t) ==> Unchanged(e1, e2, p)
    ensures MirrorItem(e1, s, t, fuel) == MirrorItem(e2, s, t, fuel)
    decreases fuel, 0, 0
  {
    var k: nat := fuel - 1;
    MirrorCongruent(e1, e2, s, t, k);
    MirrorItemOfParts(e1, e2, s, t, k);
  }

  /** An item calls for the same copies in two stores that agree at both of
      its paths and on what its subtree calls for. */
  lemma MirrorItemOfParts(e1: Entries, e2: Entries, s: string, t: string, k: nat)
    requires Unchanged(e1, e2, s) && Unchanged(e1, e2, t)
    requires Mirror(e1, s, t, k) == Mirror(e2, s, t, k)
    ensures MirrorItem(e1, s, t, k + 1) == MirrorItem(e2, s, t, k + 1)
  {
  }

  /** Stores that agree on the source tree and on the target trees of a
      listing agree on the two trees of each of its items. */
  lemma ChildAgrees(e1: Entries, e2: Entries, s: string, t: string, n: string, names: seq<string>)
    requires n in names && IsName(n)
    requires WellFormedBelow(e1, s)
    requires forall p :: AtOrBelow(p, s) ==> Unchanged(e1, e2, p)
    requires forall p, m :: m in names && AtOrBelow(p, Join(t, m)) ==> Unchanged(e1, e2, p)
    ensures WellFormedBelow(e1, Join(s, n))
    ensures Unchanged(e1, e2, Join(s, n)) && Unchanged(e1, e2, Join(t, n))
    ensures forall p :: AtOrBelow(p, Join(s, n)) || Below(p, Join(t, n)) ==> Unchanged(e1, e2, p)
  {
    ChildTree(s, n);
    WellFormedBelowChild(e1, s, n);
    forall p | AtOrBelow(p, Join(s, n)) || Below(p, Join(t, n))
      ensures Unchanged(e1, e2, p)
    {
      if AtOrBelow(p, Join(s, n)) {
        assert AtOrBelow(p, s);
      } else {
        assert AtOrBelow(p, Join(t, n));
      }
    }
    assert AtOrBelow(Join(s, n), s);
    assert AtOrBelow(Join(t, n), Join(t, n));
  }

  lemma RestAgrees(e1: Entries, e2: Entries, t: string, names: seq<string>)
    requires names != []
    requires forall i :: 0 <= i < |names| ==> IsName(names[i])
    requires forall p, m :: m in names && AtOrBelow(p, Join(t, m)) ==> Unchanged(e1, e2, p)
    ensures forall i :: 0 <= i < |names[1..]| ==> IsName(names[1..][i])
    ensures forall p, m :: m in names[1..] && AtOrBelow(p, Join(t, m)) ==> Unchanged(e1, e2, p)
  {
    forall i | 0 <= i < |names[1..]|
      ensures IsName(names[1..][i])
    {
      assert names[1..][i] == names[i + 1];
    }
    forall p, m | m in names[1..] && AtOrBelow(p, Join(t, m))
      ensures Unchanged(e1, e2, p)
    {
      assert m in names;
    }
  }

  /** When no call raises and the two trees are apart, the walk from `s` to
      `t` sends exactly the copies `Mirror` calls for, in that order, and
      changes the store only at `t` and below it. */
  lemma {:induction false} WalkMirrors(w: WalkState, s: string, t: string, fuel: nat)
    requires Apart(s, t) && WellFormedBelow(w.entries, s) && !EndsWithSlash(t)
    ensures var r := Walk({}, w, s, t, fuel).1;
      && r.sent == w.sent + Mirror(w.entries, s, t, fuel)
      && forall p :: !AtOrBelow(p, t) ==> Unchanged(w.entries, r.entries, p)
    decreases fuel, 3, 0
  {
    if fuel > 0 && s in w.entries && w.entries[s].Dir? {
      WalkItemsMirror(w, s, t, w.entries[s].names, fuel);
    }
  }

  lemma {:induction false} WalkItemsMirror(w: WalkState, s: string, t: string, items: seq<string>, fuel: nat)
    requires fuel > 0 && IsListing(items)
    requires Apart(s, t) && WellFormedBelow(w.entries, s) && !EndsWithSlash(t)
    ensures var r := WalkItems({}, w, s, t, items, fuel);
      && r.sent == w.sent + MirrorOf(w.entries, s, t, items, fuel)
      && forall p :: !AtOrBelow(p, t) ==> Unchanged(w.entries, r.entries, p)
    decreases fuel, 2, |items|
  {
    if items != [] {
      var n := items[0];
      var rest := items[1..];
      var w1 := Visit({}, w, s, t, n, fuel);
      VisitMirrors(w, s, t, n, fuel);
      RestMirrorUnchanged(w.entries, w1.entries, s, t, items, fuel);
      WalkItemsMirror(w1, s, t, rest, fuel);
      var r := WalkItems({}, w1, s, t, rest, fuel);
      FrameChain(w.entries, w1.entries, r.entries, t, n);
      assert WalkItems({}, w, s, t, items, fuel) == r;
      AppendAfter(w.sent, MirrorItem(w.entries, Join(s, n), Join(t, n), fuel), MirrorOf(w.entries, s, t, rest, fuel), w1.sent, r.sent);
    }
  }

  lemma AppendAfter<T>(a: seq<T>, b: seq<T>, c: seq<T>, x: seq<T>, y: seq<T>)
    requires x == a + b && y == x + c
    ensures y == a + (b + c)
  {
  }

  /** After the first item of a listing, what the others call for is as it
      was before it. */
  lemma RestMirrorUnchanged(e: Entries, e1: Entries, s: string, t: string, items: seq<string>, fuel: nat)
    requires fuel > 0 && IsListing(items) && items != []
    requires Apart(s, t) && WellFormedBelow(e, s)
    requires forall p :: p != t && !AtOrBelow(p, Join(t, items[0])) ==> Unchanged(e, e1, p)
    ensures IsListing(items[1..]) && WellFormedBelow(e1, s)
    ensures MirrorOf(e1, s, t, items[1..], fuel) == MirrorOf(e, s, t, items[1..], fuel)
  {
    ListingTail(items);
    RestUntouched(e, e1, s, t, items[0], items[1..]);
    MirrorOfCongruent(e, e1, s, t, items[1..], fuel);
  }

  lemma FrameChain(e: Entries, e1: Entries, e2: Entries, t: string, n: string)
    requires IsName(n)
    requires forall p :: p != t && !AtOrBelow(p, Join(t, n)) ==> Unchanged(e, e1, p)
    requires forall p :: !AtOrBelow(p, t) ==> Unchanged(e1, e2, p)
    ensures forall p :: !AtOrBelow(p, t) ==> Unchanged(e, e2, p)
  {
    ChildTree(t, n);
    forall p | !AtOrBelow(p, t)
      ensures Unchanged(e, e2, p)
    {
      assert p != t && !AtOrBelow(p, Join(t, n));
    }
  }

  /** One iteration of the loop sends the copies its item calls for and
      changes the store only at `t` and in the item's target tree. */
  lemma {:induction false} VisitMirrors(w: WalkState, s: string, t: string, n: string, fuel: nat)
    requires fuel > 0 && IsName(n)
    requires Apart(s, t) && WellFormedBelow(w.entries, s) && !EndsWithSlash(t)
    ensures var w1 := Visit({}, w, s, t, n, fuel);
      && w1.sent == w.sent + MirrorItem(w.entries, Join(s, n), Join(t, n), fuel)
      && forall p :: p != t && !AtOrBelow(p, Join(t, n)) ==> Unchanged(w.entries, w1.entries, p)
    decreases fuel, 1, 1
  {
    var s', t' := Join(s, n), Join(t, n);
    JoinName(t, n);
    DirnameOfJoin(t, n);
    ApartChildren(s, t, n);
    WellFormedBelowChild(w.entries, s, n);
    TryEntryMirrors(w.(visited := w.visited + [s']), s', t', fuel);
  }

  /** Whatever the first item of a listing changes (`t` and the item's own
      target tree), the source tree and the target trees of the other items
      stay as they were. */
  lemma RestUntouched(e: Entries, e1: Entries, s: string, t: string, n: string, rest: seq<string>)
    requires Apart(s, t) && IsName(n) && IsListing(rest) && n !in rest
    requires forall p :: p != t && !AtOrBelow(p, Join(t, n)) ==> Unchanged(e, e1, p)
    ensures forall p :: AtOrBelow(p, s) ==> Unchanged(e, e1, p)
    ensures forall p, m :: m in rest && AtOrBelow(p, Join(t, m)) ==> Unchanged(e, e1, p)
    ensures WellFormedBelow(e, s) ==> WellFormedBelow(e1, s)
  {
    ChildTree(t, n);
    forall p | AtOrBelow(p, s)
      ensures p != t && !AtOrBelow(p, Join(t, n))
    {
      assert !AtOrBelow(p, t);
    }
    forall p, m | m in rest && AtOrBelow(p, Join(t, m))
      ensures p != t && !AtOrBelow(p, Join(t, n))
    {
      var k :| 0 <= k < |rest| && rest[k] == m;
      ChildTree(t, m);
      SiblingsApart(t, m, n, p);
    }
  }

  lemma {:induction false} TryEntryMirrors(w: WalkState, s: string, t: string, fuel: nat)
    requires fuel > 0
    requires Apart(s, t) && WellFormedBelow(w.entries, s) && !EndsWithSlash(t)
    requires !AtOrBelow(Dirname(t), s)
    ensures var r := TryEntry({}, w, s, t, fuel).1;
      && r.sent == w.sent + MirrorItem(w.entries, s, t, fuel)
      && forall p :: p != Dirname(t) && !AtOrBelow(p, t) ==> Unchanged(w.entries, r.entries, p)
    decreases fuel, 1, 0
  {
    if s in w.entries && w.entries[s].Dir? {
      DirectoryItemMirrors(w, s, t, fuel);
    } else {
      LeafItemMirrors(w, s, t, fuel);
    }
  }

  /** A file, or a path that is neither file nor directory, sends the copy
      its item calls for and changes nothing. */
  lemma LeafItemMirrors(w: WalkState, s: string, t: string, fuel: nat)
    requires fuel > 0 && !(s in w.entries && w.entries[s].Dir?)
    ensures var r := TryEntry({}, w, s, t, fuel).1;
      r.sent == w.sent + MirrorItem(w.entries, s, t, fuel) && r.entries == w.entries
  {
    if s in w.entries {
      FileEntry({}, w, s, t, fuel);
    } else {
      OtherEntry({}, w, s, t, fuel);
      assert MirrorItem(w.entries, s, t, fuel) == [];
    }
  }

  lemma {:induction false} DirectoryItemMirrors(w: WalkState, s: string, t: string, fuel: nat)
    requires fuel > 0 && s in w.entries && w.entries[s].Dir?
    requires Apart(s, t) && WellFormedBelow(w.entries, s) && !EndsWithSlash(t)
    requires !AtOrBelow(Dirname(t), s)
    ensures var r := TryEntry({}, w, s, t, fuel).1;
      && r.sent == w.sent + MirrorItem(w.entries, s, t, fuel)
      && forall p :: p != Dirname(t) && !AtOrBelow(p, t) ==> Unchanged(w.entries, r.entries, p)
    decreases fuel, 0, 1
  {
    var k: nat := fuel - 1;
    DirectoryStep(w, s, t, k);
    DirectoryEntryMirrors(w, s, t, k);
    assert MirrorItem(w.entries, s, t, k + 1) == Mirror(w.entries, s, t, k);
  }

  /** Mirroring a directory item into `t` changes the parent of `t` only by
      adding `t`'s basename to its listing, and only when `t` was missing. */
  lemma DirectoryItemParent(w: WalkState, s: string, t: string, fuel: nat)
    requires fuel > 0 && s in w.entries && w.entries[s].Dir?
    requires Apart(s, t) && WellFormedBelow(w.entries, s) && !EndsWithSlash(t)
    requires !AtOrBelow(Dirname(t), s)
    ensures ParentGainsName(w.entries, TryEntry({}, w, s, t, fuel).1.entries, t)
  {
    var k: nat := fuel - 1;
    DirectoryStep(w, s, t, k);
    DirectoryEntryMirrors(w, s, t, k);
  }

  lemma {:induction false} DirectoryEntryMirrors(w: WalkState, s: string, t: string, fuel: nat)
    requires Apart(s, t) && WellFormedBelow(w.entries, s) && !EndsWithSlash(t)
    requires !AtOrBelow(Dirname(t), s)
    ensures var e1 := if t in w.entries then w.entries else Insert(w.entries, t, Dir([]));
      var r := Walk({}, w.(entries := e1), s, t, fuel).1;
      && r.sent == w.sent + Mirror(w.entries, s, t, fuel)
      && OnlyParentChanges(w.entries, r.entries, t)
    decreases fuel, 4, 0
  {
    var e1 := if t in w.entries then w.entries else Insert(w.entries, t, Dir([]));
    var w1 := w.(entries := e1);
    MakeDirFrame(w.entries, e1, s, t);
    WalkMirrors(w1, s, t, fuel);
    MirrorCongruent(w.entries, e1, s, t, fuel);
    DirnameIsShorter(t);
    assert !AtOrBelow(Dirname(t), t) || Dirname(t) == t;
  }

  /** When no call raises, a directory entry creates its missing target and
      walks into it. */
  lemma DirectoryStep(w: WalkState, s: string, t: string, k: nat)
    requires s in w.entries && w.entries[s].Dir?
    ensures TryEntry({}, w, s, t, k + 1)
         == Walk({}, w.(entries := if t in w.entries then w.entries else Insert(w.entries, t, Dir([]))), s, t, k)
  {
    if t in w.entries {
      assert w.(entries := w.entries) == w;
    }
  }

  /** Creating the target directory, when it is missing, leaves the source
      tree and everything strictly below the target as they were. */
  lemma MakeDirFrame(entries: Entries, e1: Entries, s: string, t: string)
    requires e1 == if t in entries then entries else Insert(entries, t, Dir([]))
    requires Apart(s, t) && !AtOrBelow(Dirname(t), s)
    ensures forall p :: p != t && p != Dirname(t) ==> Unchanged(entries, e1, p)
    ensures forall p :: AtOrBelow(p, s) || Below(p, t) ==> Unchanged(entries, e1, p)
    ensures WellFormedBelow(entries, s) ==> WellFormedBelow(e1, s)
    ensures ParentGainsName(entries, e1, t)
  {
    InsertFrame(entries, e1, t);
    DirnameIsShorter(t);
    forall p | AtOrBelow(p, s) || Below(p, t)
      ensures p != t && p != Dirname(t)
    {
      if AtOrBelow(p, s) {
        assert !AtOrBelow(p, t);
      }
    }
  }

  lemma InsertFrame(entries: Entries, e1: Entries, t: string)
    requires e1 == if t in entries then entries else Insert(entries, t, Dir([]))
    ensures forall p :: p != t && p != Dirname(t) ==> Unchanged(entries, e1, p)
  {
  }
}
