/** The two POSIX path operations the replicator uses: `posixpath.join` with
    two arguments and `posixpath.split`. Paths are plain strings. */
module Paths {

  /** `s` is a single path component: it holds no separator. */
  predicate NoSlash(s: string) {
    forall k :: 0 <= k < |s| ==> s[k] != '/'
  }

  predicate IsAbsolute(s: string) {
    |s| > 0 && s[0] == '/'
  }

  predicate EndsWithSlash(s: string) {
    |s| > 0 && s[|s| - 1] == '/'
  }

  predicate AllSlashes(s: string) {
    forall k :: 0 <= k < |s| ==> s[k] == '/'
  }

  /** `posixpath.join(a, b)`: an absolute `b` replaces `a`; otherwise `b` is
      appended to `a`, with one '/' between them unless `a` is empty or already
      ends with '/'. */
  function Join(a: string, b: string): (r: string)
    ensures IsAbsolute(b) ==> r == b
    ensures !IsAbsolute(b) ==>
      |a| + |b| <= |r| && r[..|a|] == a && r[|r| - |b|..] == b &&
      r[|a|..|r| - |b|] == (if a == "" || EndsWithSlash(a) then "" else "/")
  {
    if IsAbsolute(b) then b
    else if a == "" || EndsWithSlash(a) then a + b
    else a + "/" + b
  }

  /** The index just after the last '/' of `p` (0 when there is none): the
      `p.rfind('/') + 1` of `posixpath.split`. */
  function TailStart(p: string): (i: nat)
    ensures i <= |p|
    ensures NoSlash(p[i..])
    ensures i > 0 ==> p[i - 1] == '/'
    decreases |p|
  {
    if p == [] then 0
    else if p[|p| - 1] == '/' then |p|
    else
      var i := TailStart(p[..|p| - 1]);
      assert p[i..] == p[..|p| - 1][i..] + [p[|p| - 1]];
      i
  }

  /** `s.rstrip('/')`. */
  function RStripSlashes(s: string): (r: string)
    ensures |r| <= |s| && s[..|r|] == r
    ensures !EndsWithSlash(r)
    ensures AllSlashes(s[|r|..])
    decreases |s|
  {
    if EndsWithSlash(s) then
      var r := RStripSlashes(s[..|s| - 1]);
      assert s[|r|..] == s[..|s| - 1][|r|..] + ['/'];
      r
    else s
  }

  /** `posixpath.split(p)`: the tail is everything after the last '/', the
      head everything before it, with trailing slashes removed unless the head
      consists of slashes only. */
  function Split(p: string): (string, string) {
    var i := TailStart(p);
    var head := p[..i];
    (if head != "" && !AllSlashes(head) then RStripSlashes(head) else head, p[i..])
  }

  /** What `Split` returns: the tail is the longest suffix of `p` without a
      separator, and the head is what precedes it, less trailing slashes,
      which are kept only when the head holds nothing else. */
  lemma SplitParts(p: string)
    ensures var (head, tail) := Split(p);
      && NoSlash(tail)
      && |tail| <= |p| && p[|p| - |tail|..] == tail
      && (|tail| == |p| || p[|p| - |tail| - 1] == '/')
      && |head| <= |p| - |tail| && p[..|head|] == head
      && AllSlashes(p[|head|..|p| - |tail|])
      && (EndsWithSlash(head) ==> AllSlashes(head) && |head| == |p| - |tail|)
      && (AllSlashes(p[..|p| - |tail|]) ==> head == p[..|p| - |tail|])
  {
    var i := TailStart(p);
    var head := p[..i];
    if head != "" && !AllSlashes(head) {
      var h := RStripSlashes(head);
      assert p[|h|..i] == head[|h|..];
    }
  }

  /** `posixpath.dirname(p)`, the head of `Split(p)`. */
  function Dirname(p: string): string {
    Split(p).0
  }

  /** `posixpath.basename(p)`, the tail of `Split(p)`. */
  function Basename(p: string): string {
    Split(p).1
  }

  lemma {:induction false} TailStartAfterSeparator(x: string, n: string)
    requires x == "" || EndsWithSlash(x)
    requires NoSlash(n)
    ensures TailStart(x + n) == |x|
    decreases |n|
  {
    if n == [] {
      assert x + n == x;
    } else {
      var p := x + n;
      assert p[..|p| - 1] == x + n[..|n| - 1];
      TailStartAfterSeparator(x, n[..|n| - 1]);
    }
  }

  /** Splitting what `Join` built returns the component that was joined on:
      the basename of `join(d, n)` is `n` for a single component `n`. */
  lemma {:induction false} BasenameOfJoin(d: string, n: string)
    requires NoSlash(n)
    ensures Basename(Join(d, n)) == n
  {
    if IsAbsolute(n) {
      // impossible: an absolute path starts with a separator
    } else if d == "" || EndsWithSlash(d) {
      TailStartAfterSeparator(d, n);
    } else {
      assert d + "/" + n == (d + "/") + n;
      TailStartAfterSeparator(d + "/", n);
    }
  }

  // ---------------------------------------------------------------------------
  // Trees of paths

  /** A single, non-empty path component, as `listdir` returns them. */
  predicate IsName(n: string) {
    n != "" && NoSlash(n)
  }

  /** What every child of `d` starts with: `d` itself when it is empty or ends
      with '/', and `d` followed by '/' otherwise. */
  function Sep(d: string): string {
    if d == "" || EndsWithSlash(d) then d else d + "/"
  }

  /** `x` lies strictly inside the directory `d`. */
  predicate Below(x: string, d: string) {
    |Sep(d)| < |x| && x[..|Sep(d)|] == Sep(d)
  }

  predicate AtOrBelow(x: string, d: string) {
    x == d || Below(x, d)
  }

  /** Joining a component to `d` names a child of `d`. */
  lemma JoinName(d: string, n: string)
    requires IsName(n)
    ensures Join(d, n) == Sep(d) + n
    ensures Below(Join(d, n), d) && !EndsWithSlash(Join(d, n))
  {
    assert n[0] != '/';
    assert (Sep(d) + n)[..|Sep(d)|] == Sep(d);
    assert (Sep(d) + n)[|Sep(d) + n| - 1] == n[|n| - 1];
  }

  lemma NotBelowItself(x: string)
    ensures !Below(x, x)
  {
  }

  lemma BelowTransitive(x: string, y: string, z: string)
    requires AtOrBelow(x, y) && Below(y, z)
    ensures Below(x, z)
  {
    if x != y {
      assert x[..|y|] == Sep(y)[..|y|] == y;
      assert x[..|Sep(z)|] == x[..|y|][..|Sep(z)|];
    }
  }

  /** Below a path that does not end with '/', a path starts with it and
      continues, if at all, with a '/'. */
  lemma AtOrBelowProper(x: string, q: string)
    requires q != "" && !EndsWithSlash(q)
    ensures AtOrBelow(x, q) ==> |q| <= |x| && x[..|q|] == q && (|q| < |x| ==> x[|q|] == '/')
  {
    assert Sep(q) == q + "/";
    if Below(x, q) {
      assert x[..|q|] == x[..|Sep(q)|][..|q|];
      assert x[|q|] == x[..|Sep(q)|][|q|];
    }
  }

  /** Two different children of a directory have no path in common below
      them. */
  lemma {:induction false} SiblingsApart(d: string, n: string, m: string, x: string)
    requires IsName(n) && IsName(m) && n != m
    requires AtOrBelow(x, Join(d, n))
    ensures !AtOrBelow(x, Join(d, m))
  {
    JoinName(d, n);
    JoinName(d, m);
    var p := Sep(d);
    var qn, qm := p + n, p + m;
    AtOrBelowProper(x, qn);
    AtOrBelowProper(x, qm);
    assert qn[|p|..] == n && qm[|p|..] == m;
    if |n| < |m| {
      IndexAfterPrefix(p, m, |n|);
    } else if |m| < |n| {
      IndexAfterPrefix(p, n, |m|);
      assert x[..|qn|][|qm|] == x[|qm|];
    }
  }

  lemma IndexAfterPrefix(p: string, n: string, i: nat)
    requires i < |n|
    ensures (p + n)[|p| + i] == n[i]
  {
  }

  /** The head of `join(d, n)` is `d` again, for a directory path without a
      trailing '/' and for one made of slashes only. */
  lemma {:induction false} DirnameOfJoin(d: string, n: string)
    requires IsName(n) && (!EndsWithSlash(d) || AllSlashes(d))
    ensures Dirname(Join(d, n)) == d
  {
    JoinName(d, n);
    TailStartAfterSeparator(Sep(d), n);
    var j := Sep(d) + n;
    assert j[..|Sep(d)|] == Sep(d);
    if d != "" && !EndsWithSlash(d) {
      assert !AllSlashes(d + "/") by { assert (d + "/")[|d| - 1] == d[|d| - 1]; }
      assert (d + "/")[..|d|] == d;
    }
  }

  lemma DirnameIsShorter(p: string)
    ensures |Dirname(p)| <= |p|
  {
    SplitParts(p);
  }
}
