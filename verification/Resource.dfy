/** The resource hierarchy: parents, the ancestor walk, and thread paths. */
module Resource {
  import opened Bytes

  datatype Kind = Spool | Thread | Context

  function KindName(k: Kind): string {
    match k
    case Spool => "spool"
    case Thread => "thread"
    case Context => "context"
  }

  function ParseKind(s: string): Option<Kind> {
    if s == "spool" then Some(Spool)
    else if s == "thread" then Some(Thread)
    else if s == "context" then Some(Context)
    else None
  }

  // ----- searching -----

  predicate OccursAt(pattern: string, s: string, i: nat) {
    i + |pattern| <= |s| && s[i..i + |pattern|] == pattern
  }

  /** The last place at or before `from` where `pattern` occurs. */
  function LastFrom(pattern: string, s: string, from: nat): (r: Option<nat>)
    ensures r.Some? ==> r.value <= from && OccursAt(pattern, s, r.value)
    ensures forall j | (if r.Some? then r.value < j else 0 <= j) && j <= from :: !OccursAt(pattern, s, j)
  {
    if OccursAt(pattern, s, from) then Some(from)
    else if from == 0 then None
    else LastFrom(pattern, s, from - 1)
  }

  /** `str::rfind`. */
  function RFind(pattern: string, s: string): (r: Option<nat>)
    ensures r.Some? ==> OccursAt(pattern, s, r.value) && forall j | r.value < j <= |s| :: !OccursAt(pattern, s, j)
    ensures r.None? ==> forall j: nat :: !OccursAt(pattern, s, j)
  {
    LastFrom(pattern, s, |s|)
  }

  function TrimSlashes(path: string): (t: string)
    ensures t <= path && (|t| > 0 ==> t[|t| - 1] != '/')
    ensures |path| > 0 && path[|path| - 1] != '/' ==> t == path
  {
    if |path| > 0 && path[|path| - 1] == '/' then TrimSlashes(path[..|path| - 1]) else path
  }

  // ----- parents and the walk -----

  function SpoolParent(path: string): (r: Option<string>)
    ensures r.Some? ==> 0 < |r.value| < |path|
  {
    var trimmed := TrimSlashes(path);
    match RFind("/", trimmed)
    case None => None
    case Some(cut) => if cut == 0 then None else Some(trimmed[..cut])
  }

  const THREADS := "/threads/"

  function ResolveParent(kind: Kind, path: string): (r: Option<(Kind, string)>)
    ensures r.Some? ==> r.value.0 == Spool && 0 < |r.value.1| && (kind == Spool ==> |r.value.1| < |path|)
  {
    match kind
    case Spool =>
      var parent :- SpoolParent(path);
      Some((Spool, parent))
    case Thread =>
      var trimmed := TrimSlashes(path);
      var cut :- RFind(THREADS, trimmed);
      if cut == 0 then None else Some((Spool, trimmed[..cut]))
    case Context =>
      var trimmed := TrimSlashes(path);
      if trimmed == "" then None else Some((Spool, trimmed))
  }

  /** Every ancestor, nearest first.  Defined, hence finite, for every kind and every string. */
  function WalkToRoot(kind: Kind, path: string): seq<(Kind, string)>
    decreases if kind == Spool then 0 else 1, |path|
  {
    match ResolveParent(kind, path)
    case None => []
    case Some(parent) => [parent] + WalkToRoot(parent.0, parent.1)
  }

  /** The walk as an iterator holding the resource it has reached. */
  class Ancestors {
    var current: (Kind, string)

    ghost function Remaining(): seq<(Kind, string)>
      reads this
    {
      WalkToRoot(current.0, current.1)
    }

    constructor (kind: Kind, path: string)
      ensures Remaining() == WalkToRoot(kind, path)
    {
      current := (kind, path);
    }

    method Next() returns (r: Option<(Kind, string)>)
      modifies this
      ensures old(Remaining()) == [] ==> r.None? && current == old(current)
      ensures old(Remaining()) != [] ==> r == Some(old(Remaining())[0]) && Remaining() == old(Remaining())[1..]
    {
      r := ResolveParent(current.0, current.1);
      if r.Some? {
        current := r.value;
      }
    }
  }

  // ----- the walk against prefixes -----

  /** No empty segment: no slash first, last, or twice in a row. */
  predicate WellFormed(p: string) {
    |p| > 0 && p[0] != '/' && p[|p| - 1] != '/' && forall i | 0 < i < |p| :: !(p[i - 1] == '/' && p[i] == '/')
  }

  /** The ceiling `delegation.rs` writes: the path itself, or anything under it. */
  predicate Covers(grant: string, path: string) { path == grant || grant + "/" <= path }

  lemma SlashOccurs(s: string, i: nat)
    ensures OccursAt("/", s, i) <==> i < |s| && s[i] == '/'
  {}

  /** One step strips exactly the last segment. */
  lemma ParentIsLastCut(p: string)
    requires WellFormed(p)
    ensures match SpoolParent(p)
            case None => '/' !in p
            case Some(q) => |q| < |p| && q == p[..|q|] && p[|q|] == '/' && WellFormed(q) &&
                            forall j | |q| < j < |p| :: p[j] != '/'
  {
    forall i: nat ensures OccursAt("/", p, i) <==> i < |p| && p[i] == '/' { SlashOccurs(p, i); }
  }

  lemma PrefixHasSlash(grant: string, path: string)
    requires grant + "/" <= path
    ensures |grant| < |path| && path[|grant|] == '/' && path[..|grant|] == grant
  {
    assert path[|grant|] == (grant + "/")[|grant|];
  }

  /** A grant covers a well-formed spool path by prefix exactly when the walk from that path meets it. */
  lemma {:induction false} PrefixCeilingIsAncestorWalk(grant: string, path: string)
    requires WellFormed(path)
    ensures Covers(grant, path) <==> grant == path || (Spool, grant) in WalkToRoot(Spool, path)
    decreases |path|
  {
    hide SpoolParent;
    ParentIsLastCut(path);
    match SpoolParent(path) {
      case None =>
        assert !(grant + "/" <= path) by {
          if grant + "/" <= path { PrefixHasSlash(grant, path); }
        }
      case Some(q) =>
        PrefixCeilingIsAncestorWalk(grant, q);
        CoversStep(grant, path, q);
    }
  }

  lemma CoversStep(grant: string, path: string, q: string)
    requires |q| < |path| && q == path[..|q|] && path[|q|] == '/' && forall j | |q| < j < |path| :: path[j] != '/'
    ensures grant + "/" <= path <==> Covers(grant, q)
  {
    if grant + "/" <= path {
      PrefixHasSlash(grant, path);
      if |grant| < |q| {
        assert grant + "/" == path[..|grant| + 1] == q[..|grant| + 1];
      }
    }
    if grant == q {
      assert grant + "/" == path[..|q| + 1];
    } else if grant + "/" <= q {
      assert grant + "/" == q[..|grant| + 1] == path[..|grant| + 1];
    }
  }

  // ----- the walk against segments -----

  predicate SegmentOk(s: string) { s != "" && '/' !in s }

  predicate SegmentsOk(segments: seq<string>) { |segments| > 0 && forall s | s in segments :: SegmentOk(s) }

  function Join(segments: seq<string>): string
    requires |segments| > 0
  {
    var last := |segments| - 1;
    if last == 0 then segments[0] else Join(segments[..last]) + "/" + segments[last]
  }

  lemma {:induction false} JoinWellFormed(segments: seq<string>)
    requires SegmentsOk(segments)
    ensures WellFormed(Join(segments))
    ensures SpoolParent(Join(segments)) == if |segments| == 1 then None else Some(Join(segments[..|segments| - 1]))
    decreases |segments|
  {
    hide SpoolParent;
    var p, last := Join(segments), |segments| - 1;
    if last > 0 {
      var q := Join(segments[..last]);
      JoinWellFormed(segments[..last]);
      assert segments[last] in segments && p == q + "/" + segments[last];
      assert WellFormed(p);
      ParentIsLastCut(p);
      assert p[|q|] == '/' && p[..|q|] == q;
    } else {
      assert segments[0] in segments;
      ParentIsLastCut(p);
    }
  }

  /** The walk from a joined path is its proper segment prefixes, longest first. */
  lemma {:induction false} WalkIsSegmentPrefixes(segments: seq<string>)
    requires SegmentsOk(segments)
    ensures |WalkToRoot(Spool, Join(segments))| == |segments| - 1
    ensures forall k | 0 <= k < |segments| - 1 ::
              WalkToRoot(Spool, Join(segments))[k] == (Spool, Join(segments[..|segments| - 1 - k]))
    decreases |segments|
  {
    hide SpoolParent, Join, SegmentOk;
    JoinWellFormed(segments);
    var n := |segments|;
    if n > 1 {
      var front := segments[..n - 1];
      WalkIsSegmentPrefixes(front);
      var walk := WalkToRoot(Spool, Join(segments));
      assert walk == [(Spool, Join(front))] + WalkToRoot(Spool, Join(front));
      forall k | 0 <= k < n - 1 ensures walk[k] == (Spool, Join(segments[..n - 1 - k])) {
        if k > 0 { assert front[..n - 1 - k] == segments[..n - 1 - k]; }
      }
    }
  }

  // ----- thread paths -----

  function ThreadPath(repo: string, thread: string): string { repo + THREADS + thread }

  function SplitThreadPath(path: string): Option<(string, string)> {
    var cut :- RFind(THREADS, path);
    var repo, thread := path[..cut], path[cut + |THREADS|..];
    if repo == "" || thread == "" then None else Some((repo, thread))
  }

  lemma SplitThenBuild(path: string)
    ensures SplitThreadPath(path).Some? ==>
              ThreadPath(SplitThreadPath(path).value.0, SplitThreadPath(path).value.1) == path
  {}

  ghost predicate Contains(s: string, pattern: string) { exists i: nat :: OccursAt(pattern, s, i) }

  /** Past the separator, `/threads/` can occur only where its closing slash begins another one. */
  lemma LaterOccurrences(repo: string, thread: string, j: nat)
    requires j > |repo|
    ensures OccursAt(THREADS, ThreadPath(repo, thread), j)
            <==> j >= |repo| + 8 && OccursAt(THREADS, "/" + thread, j - |repo| - 8)
  {
    hide OccursAt;
    var p := ThreadPath(repo, thread);
    AtSeparator(repo, thread);
    if j < |repo| + 8 {
      SeparatorHead(p, j);
      SeparatorTail(j - |repo|);
    } else {
      OccursFrom(THREADS, p, |repo| + 8, j);
    }
  }

  lemma OccursFrom(pattern: string, s: string, from: nat, j: nat)
    requires from <= |s| && from <= j
    ensures OccursAt(pattern, s, j) <==> OccursAt(pattern, s[from..], j - from)
  {
    if j + |pattern| <= |s| {
      assert s[j..j + |pattern|] == s[from..][j - from..j - from + |pattern|];
    }
  }

  lemma OccursWithin(pattern: string, s: string, i: nat)
    ensures OccursAt(pattern, s, i) ==> i + |pattern| <= |s|
  {}

  lemma AtSeparator(repo: string, thread: string)
    ensures var p := ThreadPath(repo, thread);
            OccursAt(THREADS, p, |repo|) && p[..|repo|] == repo && p[|repo| + 9..] == thread &&
            p[|repo| + 8..] == "/" + thread && forall k | 0 <= k < 9 :: p[|repo| + k] == THREADS[k]
  {
    var p := ThreadPath(repo, thread);
    assert p[|repo|..|repo| + 9] == THREADS;
  }

  lemma SeparatorHead(s: string, j: nat)
    ensures OccursAt(THREADS, s, j) ==> j < |s| && s[j] == '/'
  {
    assert OccursAt(THREADS, s, j) ==> s[j] == s[j..j + |THREADS|][0];
  }

  lemma SeparatorTail(k: nat)
    requires 0 < k < 8
    ensures THREADS[k] != '/'
  {}

  /** Splitting undoes building exactly when nothing after the separator looks like another one, the
      separator's own closing slash included. */
  lemma BuildThenSplit(repo: string, thread: string)
    requires repo != "" && thread != ""
    ensures SplitThreadPath(ThreadPath(repo, thread)) == Some((repo, thread)) <==> !Contains("/" + thread, THREADS)
  {
    hide OccursAt;
    var p := ThreadPath(repo, thread);
    AtSeparator(repo, thread);
    forall j: nat | j > |repo|
      ensures OccursAt(THREADS, p, j) <==> j >= |repo| + 8 && OccursAt(THREADS, "/" + thread, j - |repo| - 8)
    {
      LaterOccurrences(repo, thread, j);
    }
    var cut := RFind(THREADS, p).value;
    OccursWithin(THREADS, p, cut);
    if i: nat :| OccursAt(THREADS, "/" + thread, i) {
      assert OccursAt(THREADS, p, i + |repo| + 8);
      OccursWithin(THREADS, p, i + |repo| + 8);
    }
    assert cut > |repo| ==> OccursAt(THREADS, "/" + thread, cut - |repo| - 8);
  }

  function Slashes(n: nat): string { seq(n, _ => '/') }

  lemma {:induction false} TrimmedTail(t: string, n: nat)
    requires t != "" ==> t[|t| - 1] != '/'
    ensures TrimSlashes(t + Slashes(n)) == t
  {
    if n == 0 {
      assert t + Slashes(0) == t;
    } else {
      var path := t + Slashes(n);
      assert path[|path| - 1] == '/' && path[..|path| - 1] == t + Slashes(n - 1);
      TrimmedTail(t, n - 1);
    }
  }

  /** A context's parent is the spool at its own path, trailing slashes aside; a context at no path has none. */
  lemma ContextParent(t: string, slashes: nat)
    requires t != "" ==> t[|t| - 1] != '/'
    ensures ResolveParent(Context, t + Slashes(slashes)) == if t == "" then None else Some((Spool, t))
  {
    TrimmedTail(t, slashes);
  }

  /** A thread path with no separator, or with nothing before its last one, is an orphan. */
  lemma OrphanThread(t: string, slashes: nat)
    requires t != "" ==> t[|t| - 1] != '/'
    ensures (forall i: nat | i > 0 :: !OccursAt(THREADS, t, i)) ==> ResolveParent(Thread, t + Slashes(slashes)) == None
  {
    TrimmedTail(t, slashes);
  }

  /** The three kinds are known by their names and no others. */
  lemma KindsByName(s: string, k: Kind)
    ensures ParseKind(s) == Some(k) <==> s == KindName(k)
    ensures KindName(Spool) == "spool" && KindName(Thread) == "thread" && KindName(Context) == "context"
  {}

  /** An unambiguous thread path without a trailing slash has the spool it was built under as its parent. */
  lemma ThreadParent(repo: string, thread: string)
    requires repo != "" && thread != "" && thread[|thread| - 1] != '/' && !Contains("/" + thread, THREADS)
    ensures ResolveParent(Thread, ThreadPath(repo, thread)) == Some((Spool, repo))
  {
    BuildThenSplit(repo, thread);
    var p := ThreadPath(repo, thread);
    assert p[|p| - 1] == thread[|thread| - 1];
    assert TrimSlashes(p) == p;
    assert p[..RFind(THREADS, p).value] == repo;
  }
}
