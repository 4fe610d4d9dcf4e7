/** The scope summary shown for a token: one action for all its spool paths, never more than it holds. */
module ScopeString {
  import opened Bytes
  import opened Ordering

  /** What the rendered text says. */
  datatype Scope = Staff | Nothing | Spools(paths: set<string>, strength: nat)

  function Strength(action: string): (s: nat)
    ensures s <= 3
  {
    if action == "read" then 1 else if action == "write" then 2 else if action == "admin" then 3 else 0
  }

  predicate Rendered(right: Right<string>) { right.kind == "spool" && Strength(right.action) > 0 }

  /** The rights hold this strength on this path. */
  predicate Holds(rights: seq<Right<string>>, path: string, strength: nat) {
    exists i | 0 <= i < |rights| :: Rendered(rights[i]) && rights[i].path == path &&
        strength <= Strength(rights[i].action)
  }

  /** Each path's strongest action among the rights. */
  ghost predicate StrongestByPath(rights: seq<Right<string>>, strongest: map<string, nat>) {
    (forall i | 0 <= i < |rights| && Rendered(rights[i]) ::
       rights[i].path in strongest && Strength(rights[i].action) <= strongest[rights[i].path]) &&
    (forall path | path in strongest :: 1 <= strongest[path] <= 3 && Holds(rights, path, strongest[path]))
  }

  /** The summary names every path with a literal spool right, and its action is the greatest one held on all of
      them. */
  ghost predicate Summarizes(scope: Scope, rights: seq<Right<string>>) {
    match scope
    case Staff => false
    case Nothing => forall i | 0 <= i < |rights| :: !Rendered(rights[i])
    case Spools(paths, strength) =>
      paths != {} && 1 <= strength <= 3 &&
      (forall path :: path in paths <==> Holds(rights, path, 1)) &&
      (forall path | path in paths :: Holds(rights, path, strength)) &&
      (exists path | path in paths :: forall more: nat | more > strength :: !Holds(rights, path, more))
  }

  method StrongestActions(rights: seq<Right<string>>) returns (strongest: map<string, nat>)
    ensures StrongestByPath(rights, strongest)
  {
    hide Holds;
    strongest := map[];
    for i := 0 to |rights|
      invariant StrongestByPath(rights[..i], strongest)
    {
      var r := rights[i];
      assert rights[..i + 1] == rights[..i] + [r];
      ghost var before := strongest;
      if Rendered(r) {
        var current := if r.path in strongest then strongest[r.path] else 0;
        strongest := strongest[r.path := if current < Strength(r.action) then Strength(r.action) else current];
      }
      StrongestGrows(rights[..i], r, before, strongest);
    }
    assert rights[..|rights|] == rights;
  }

  lemma StrongestGrows(rights: seq<Right<string>>, r: Right<string>, before: map<string, nat>, after: map<string, nat>)
    requires StrongestByPath(rights, before)
    requires after == if !Rendered(r) then before
                      else
                        var kept := r.path in before && before[r.path] >= Strength(r.action);
                        before[r.path := if kept then before[r.path] else Strength(r.action)]
    ensures StrongestByPath(rights + [r], after)
  {
    hide Strength;
    var more := rights + [r];
    forall path | path in after ensures Holds(more, path, after[path]) {
      if path in before && after[path] == before[path] {
        var i :| 0 <= i < |rights| && Rendered(rights[i]) && rights[i].path == path &&
                before[path] <= Strength(rights[i].action);
        assert more[i] == rights[i];
      } else {
        assert more[|rights|] == r;
      }
    }
  }

  method RenderScope(rights: seq<Right<string>>, isStaff: bool) returns (scope: Scope)
    ensures isStaff ==> scope == Staff
    ensures !isStaff ==> Summarizes(scope, rights)
  {
    if isStaff {
      return Staff;
    }
    var strongest := StrongestActions(rights);
    if strongest == map[] {
      return Nothing;
    }
    var paths := strongest.Keys;
    var common := 4;
    var left := paths;
    ghost var weakest := "";
    while left != {}
      invariant left <= paths
      invariant left == paths ==> common == 4
      invariant left != paths ==> weakest in paths && common == strongest[weakest]
      invariant forall path | path in paths - left :: common <= strongest[path]
    {
      var path :| path in left;
      left := left - {path};
      if strongest[path] < common {
        common, weakest := strongest[path], path;
      }
    }
    scope := Spools(paths, common);
    WeakestSummarizes(rights, strongest, weakest);
  }

  lemma WeakestSummarizes(rights: seq<Right<string>>, strongest: map<string, nat>, weakest: string)
    requires StrongestByPath(rights, strongest) && weakest in strongest
    requires forall path | path in strongest :: strongest[weakest] <= strongest[path]
    ensures Summarizes(Spools(strongest.Keys, strongest[weakest]), rights)
  {
    forall path, more: nat | path in strongest && more <= strongest[path] ensures Holds(rights, path, more) {
      var i :| 0 <= i < |rights| && Rendered(rights[i]) && rights[i].path == path &&
              strongest[path] <= Strength(rights[i].action);
      assert more <= Strength(rights[i].action);
    }
    forall more: nat | more > strongest[weakest] ensures !Holds(rights, weakest, more) {}
  }

  // ----- the text -----

  function Codes(s: string): (codes: seq<int>)
    ensures |codes| == |s|
  {
    seq(|s|, i requires 0 <= i < |s| => s[i] as int)
  }

  predicate PathLess(a: string, b: string) { LexLess(Codes(a), Codes(b)) }

  lemma CodesInjective(a: string, b: string)
    requires Codes(a) == Codes(b)
    ensures a == b
  {
    forall i | 0 <= i < |a| ensures i < |b| && a[i] == b[i] {
      assert Codes(a)[i] == Codes(b)[i];
    }
  }

  lemma PathOrder()
    ensures StrictWeakOrder(PathLess) && Total(PathLess)
  {
    hide LexLess;
    forall x: string, y: string
      ensures x == y || PathLess(x, y) || PathLess(y, x)
      ensures !PathLess(x, x)
    {
      LexLessTrichotomy(Codes(x), Codes(y));
      LexLessTrichotomy(Codes(x), Codes(x));
      if Codes(x) == Codes(y) { CodesInjective(x, y); }
    }
    forall x: string, y: string, z: string | PathLess(x, y) && PathLess(y, z) ensures PathLess(x, z) {
      LexLessTransitive(Codes(x), Codes(y), Codes(z));
    }
  }

  /** The paths in order, each once. */
  ghost predicate Lists(listed: seq<string>, paths: set<string>) {
    StrictlySorted(PathLess, listed) && forall p :: p in listed <==> p in paths
  }

  function Joined(tokens: seq<string>): string {
    if |tokens| == 0 then ""
    else if |tokens| == 1 then tokens[0]
    else tokens[0] + " " + Joined(tokens[1..])
  }

  function Tokens(listed: seq<string>, action: string): seq<string> {
    seq(|listed|, i requires 0 <= i < |listed| => "spool:" + listed[i]) + [action]
  }

  function ActionName(strength: nat): string {
    if strength == 1 then "read" else if strength == 2 then "write" else "admin"
  }

  /** One token per path, in order, then the action. */
  ghost predicate Spells(paths: set<string>, action: string, text: string) {
    exists listed :: Lists(listed, paths) && text == Joined(Tokens(listed, action))
  }

  ghost predicate Renders(scope: Scope, text: string) {
    match scope
    case Staff => text == "spool:* staff"
    case Nothing => text == ""
    case Spools(paths, strength) => Spells(paths, ActionName(strength), text)
  }

  /** A set of paths and an action have one spelling. */
  lemma SpellingIsUnique(paths: set<string>, action: string, a: string, b: string)
    requires Spells(paths, action, a) && Spells(paths, action, b)
    ensures a == b
  {
    var s :| Lists(s, paths) && a == Joined(Tokens(s, action));
    var t :| Lists(t, paths) && b == Joined(Tokens(t, action));
    PathOrder();
    StrictlySortedUnique(PathLess, s, t);
  }

  /** Paths are listed by their code points: at the first place two differ, or the shorter first. */
  lemma ListedInTextOrder(listed: seq<string>, paths: set<string>, i: nat, j: nat)
    requires Lists(listed, paths) && i < j < |listed|
    ensures exists k :: ComesFirst(listed[i], listed[j], k)
  {
    hide LexLess;
    var a, b := Codes(listed[i]), Codes(listed[j]);
    LexLessParts(a, b);
    var k :| PartsAt(a, b, k);
    forall m | 0 <= m < k ensures listed[i][m] == listed[j][m] {
      assert a[m] == a[..k][m] == b[..k][m] == b[m];
    }
    assert ComesFirst(listed[i], listed[j], k);
  }

  predicate ComesFirst(a: string, b: string, k: int) {
    0 <= k <= |a| && k < |b| && a[..k] == b[..k] && (k == |a| || a[k] < b[k])
  }

  /** Each path as a spool token with a space after it. */
  function Run(listed: seq<string>): string {
    if |listed| == 0 then "" else "spool:" + listed[0] + " " + Run(listed[1..])
  }

  /** The text is the path tokens and then the action, with single spaces between. */
  lemma {:induction false} TextLayout(listed: seq<string>, action: string)
    ensures Joined(Tokens(listed, action)) == Run(listed) + action
  {
    if |listed| > 0 {
      TextLayout(listed[1..], action);
      assert Tokens(listed, action) == ["spool:" + listed[0]] + Tokens(listed[1..], action);
    }
  }

  /** The three actions by strength, anything else having none. */
  lemma ActionsByStrength(action: string)
    ensures action == "read" || action == "write" || action == "admin" <==> Strength(action) > 0
    ensures Strength(action) > 0 ==> ActionName(Strength(action)) == action
    ensures Strength("read") < Strength("write") < Strength("admin")
  {}

  method ListPaths(paths: set<string>) returns (listed: seq<string>)
    ensures Lists(listed, paths)
  {
    hide PathLess;
    var gathered: seq<string>, left := [], paths;
    while left != {}
      invariant left <= paths
      invariant forall p :: p in gathered <==> p in paths - left
    {
      var path :| path in left;
      gathered, left := gathered + [path], left - {path};
    }
    PathOrder();
    SortSorts(PathLess, gathered);
    DedupSorted(PathLess, Sort(PathLess, gathered));
    assert forall p :: p in gathered <==> p in multiset(gathered);
    assert forall p :: p in Sort(PathLess, gathered) <==> p in multiset(Sort(PathLess, gathered));
    listed := Dedup(Sort(PathLess, gathered));
  }

  method Spell(paths: set<string>, action: string) returns (text: string)
    ensures Spells(paths, action, text)
  {
    var listed := ListPaths(paths);
    text := Joined(Tokens(listed, action));
  }

  /** The summary as text. */
  method RenderScopeString(rights: seq<Right<string>>, isStaff: bool) returns (text: string, ghost scope: Scope)
    ensures if isStaff then scope == Staff else Summarizes(scope, rights)
    ensures Renders(scope, text)
  {
    var rendered := RenderScope(rights, isStaff);
    scope := rendered;
    match rendered {
      case Staff => text := "spool:* staff";
      case Nothing => text := "";
      case Spools(paths, strength) => text := Spell(paths, ActionName(strength));
    }
  }
}
