/** The bound on what caller identity observation may disclose under attenuation. */
module IdentityScope {
  import opened Bytes
  import opened Ceiling
  import opened Datalog
  import opened Authority
  import ScopeString

  const SELF_OBSERVATION := "ObserveIdentity"

  /** The exemption a ceiling check grants to self-observation. */
  predicate IsObservationQuery(query: Rule) {
    exists i | 0 <= i < |query.body| ::
      query.body[i].name == "operation" && query.body[i].terms == [Str(SELF_OBSERVATION)]
  }

  predicate Mentions(query: Rule, name: string) { exists i | 0 <= i < |query.body| :: query.body[i].name == name }

  /** The resource alternatives of a check that exempts self-observation. */
  function ResourceQueries(queries: seq<Rule>): seq<Rule> {
    if |queries| == 0 then []
    else
      (if !IsObservationQuery(queries[0]) && Mentions(queries[0], "resource") then [queries[0]] else []) +
      ResourceQueries(queries[1..])
  }

  predicate Exempting(check: Check) { exists i | 0 <= i < |check.queries| :: IsObservationQuery(check.queries[i]) }

  /** A check limits disclosure when it exempts self-observation and otherwise asks about operations or resources. */
  predicate Limits(check: Check) {
    Exempting(check) &&
    exists i | 0 <= i < |check.queries| ::
      !IsObservationQuery(check.queries[i]) &&
      (Mentions(check.queries[i], "operation") || Mentions(check.queries[i], "resource"))
  }

  /** One group of resource alternatives for each exempting check that has any. */
  function Groups(checks: seq<Check>): seq<seq<Rule>> {
    if |checks| == 0 then []
    else
      var resources := ResourceQueries(checks[0].queries);
      (if Exempting(checks[0]) && resources != [] then [resources] else []) + Groups(checks[1..])
  }

  // ----- candidates -----

  function StripSlash(s: string): string { if |s| > 0 && s[|s| - 1] == '/' then s[..|s| - 1] else s }

  function OpStrings(op: Op): set<string>
    decreases op, 0
  {
    match op
    case Value(Str(text)) => {StripSlash(text)}
    case Closure(_, ops) => CeilingStrings(ops)
    case _ => {}
  }

  function CeilingStrings(ops: seq<Op>): set<string>
    decreases ops, 1
  {
    if |ops| == 0 then {} else OpStrings(ops[0]) + CeilingStrings(ops[1..])
  }

  function ExpressionStrings(expressions: seq<seq<Op>>): set<string> {
    if |expressions| == 0 then {} else CeilingStrings(expressions[0]) + ExpressionStrings(expressions[1..])
  }

  function QueryStrings(queries: seq<Rule>): set<string> {
    if |queries| == 0 then {} else ExpressionStrings(queries[0].expressions) + QueryStrings(queries[1..])
  }

  function GroupStrings(groups: seq<seq<Rule>>): set<string> {
    if |groups| == 0 then {} else QueryStrings(groups[0]) + GroupStrings(groups[1..])
  }

  function RightStrings(rights: Rights): set<string> {
    if |rights| == 0 then {} else {rights[0].kind, rights[0].path} + RightStrings(rights[1..])
  }

  // ----- which resources qualify -----

  predicate Readable(rights: Rights, kind: string, path: string) {
    exists i | 0 <= i < |rights| ::
      rights[i].kind == kind && rights[i].path == path && rights[i].action in {"read", "write", "admin"}
  }

  predicate AuthorityCanRead(rights: Rights, isStaff: bool, kind: string, path: string) {
    isStaff || CoveredThroughInheritance(kind, path, (k, p) => Readable(rights, k, p))
  }

  predicate GroupAllows(group: seq<Rule>, kind: string, path: string) {
    exists i | 0 <= i < |group| :: ResourceQueryAllows(group[i], kind, path)
  }

  predicate WithinEveryCeiling(groups: seq<seq<Rule>>, kind: string, path: string) {
    forall i | 0 <= i < |groups| :: GroupAllows(groups[i], kind, path)
  }

  predicate Qualifies(groups: seq<seq<Rule>>, rights: Rights, isStaff: bool, kind: string, path: string) {
    AuthorityCanRead(rights, isStaff, kind, path) && WithinEveryCeiling(groups, kind, path)
  }

  // ----- the scope -----

  /** The disclosed scope: the token's own rights rendered in full, every spool for staff, or a list of spools to
      read. */
  datatype Scope = FullScope(isStaff: bool) | EverySpool | SpoolPaths(paths: set<string>)

  ghost function BoundedScope(checks: seq<Check>, rights: Rights, isStaff: bool): (bool, Scope) {
    var groups := Groups(checks);
    var candidates := RightStrings(rights) + GroupStrings(groups);
    if !(exists i | 0 <= i < |checks| :: Limits(checks[i])) then (false, FullScope(isStaff))
    else if groups == [] then (true, if isStaff then EverySpool else FullScope(false))
    else (true, SpoolPaths(if "spool" in candidates
                           then set p | p in candidates && Qualifies(groups, rights, isStaff, "spool", p) else {}))
  }

  method CollectCeilingStrings(ops: seq<Op>, candidates: set<string>) returns (r: set<string>)
    ensures r == candidates + CeilingStrings(ops)
    decreases ops
  {
    r := candidates;
    for i := 0 to |ops|
      invariant r + CeilingStrings(ops[i..]) == candidates + CeilingStrings(ops)
    {
      assert ops[i..][1..] == ops[i + 1..] && ops[i] in ops;
      match ops[i] {
        case Value(Str(text)) => r := r + {StripSlash(text)};
        case Closure(_, body) => r := CollectCeilingStrings(body, r);
        case _ =>
      }
    }
    assert ops[|ops|..] == [];
  }

  method CollectQueryStrings(queries: seq<Rule>, candidates: set<string>) returns (r: set<string>)
    ensures r == candidates + QueryStrings(queries)
  {
    r := candidates;
    for i := 0 to |queries|
      invariant r + QueryStrings(queries[i..]) == candidates + QueryStrings(queries)
    {
      assert queries[i..][1..] == queries[i + 1..];
      var expressions := queries[i].expressions;
      ghost var before := r;
      for j := 0 to |expressions|
        invariant r + ExpressionStrings(expressions[j..]) == before + ExpressionStrings(expressions)
      {
        assert expressions[j..][1..] == expressions[j + 1..];
        r := CollectCeilingStrings(expressions[j], r);
      }
      assert expressions[|expressions|..] == [];
    }
    assert queries[|queries|..] == [];
  }

  method CollectCandidates(rights: Rights, groups: seq<seq<Rule>>) returns (r: set<string>)
    ensures r == RightStrings(rights) + GroupStrings(groups)
  {
    r := {};
    for i := 0 to |rights|
      invariant r + RightStrings(rights[i..]) == RightStrings(rights)
    {
      assert rights[i..][1..] == rights[i + 1..];
      r := r + {rights[i].kind} + {rights[i].path};
    }
    assert rights[|rights|..] == [];
    for i := 0 to |groups|
      invariant r + GroupStrings(groups[i..]) == RightStrings(rights) + GroupStrings(groups)
    {
      assert groups[i..][1..] == groups[i + 1..];
      r := CollectQueryStrings(groups[i], r);
    }
    assert groups[|groups|..] == [];
  }

  /** The first pass: which checks limit disclosure, and their resource alternatives. */
  method SortChecks(checks: seq<Check>) returns (limited: bool, groups: seq<seq<Rule>>)
    ensures limited <==> exists i | 0 <= i < |checks| :: Limits(checks[i])
    ensures groups == Groups(checks)
  {
    hide ResourceQueries, Limits, Exempting, Groups;
    NoGroups(checks[|checks|..]);
    limited, groups := false, [];
    for i := 0 to |checks|
      invariant limited <==> exists j | 0 <= j < i :: Limits(checks[j])
      invariant groups + Groups(checks[i..]) == Groups(checks)
    {
      assert checks[i..][1..] == checks[i + 1..];
      GroupsHead(checks[i..]);
      LimitsExempts(checks[i]);
      if Exempting(checks[i]) {
        if Limits(checks[i]) {
          limited := true;
        }
        var resources := ResourceQueries(checks[i].queries);
        if resources != [] {
          groups := groups + [resources];
        }
      }
    }
    assert checks[|checks|..] == [];
  }

  lemma GroupsHead(checks: seq<Check>)
    requires |checks| > 0
    ensures var resources := ResourceQueries(checks[0].queries);
            Groups(checks) ==
            (if Exempting(checks[0]) && resources != [] then [resources] else []) + Groups(checks[1..])
  {
    hide ResourceQueries, Exempting;
  }

  lemma NoGroups(checks: seq<Check>)
    requires checks == []
    ensures Groups(checks) == []
  {}

  /** What the scope is written as. */
  ghost predicate WrittenAs(scope: Scope, rights: Rights, text: string) {
    match scope
    case FullScope(isStaff) =>
      exists summary ::
        (if isStaff then summary == ScopeString.Staff else ScopeString.Summarizes(summary, rights)) &&
        ScopeString.Renders(summary, text)
    case EverySpool => text == "spool:*"
    case SpoolPaths(paths) => if paths == {} then text == "" else ScopeString.Spells(paths, "read", text)
  }

  /** The scope as it is computed and written: sort the checks into groups, gather candidates, test every pair. */
  method IdentityObservationBounds(checks: seq<Check>, rights: Rights, isStaff: bool)
    returns (limited: bool, text: string, ghost scope: Scope)
    ensures (limited, scope) == BoundedScope(checks, rights, isStaff)
    ensures WrittenAs(scope, rights, text)
  {
    hide Qualifies, Limits, Groups, RightStrings, GroupStrings;
    hide ScopeString.Summarizes, ScopeString.Renders, ScopeString.Spells;
    var groups;
    limited, groups := SortChecks(checks);
    if !limited {
      text, scope := WriteRights(rights, isStaff);
      return;
    }
    if groups == [] {
      if isStaff {
        return limited, "spool:*", EverySpool;
      }
      text, scope := WriteRights(rights, false);
      return;
    }
    var candidates := CollectCandidates(rights, groups);
    var pairs := QualifyingPairs(candidates, groups, rights, isStaff);
    var paths := SpoolsAmong(pairs);
    scope := SpoolPaths(paths);
    assert paths == if "spool" in candidates
      then set p | p in candidates && Qualifies(groups, rights, isStaff, "spool", p) else {};
    if paths == {} {
      text := "";
    } else {
      text := ScopeString.Spell(paths, "read");
    }
  }

  method WriteRights(rights: Rights, isStaff: bool) returns (text: string, ghost scope: Scope)
    ensures scope == FullScope(isStaff) && WrittenAs(scope, rights, text)
  {
    ghost var summary;
    text, summary := ScopeString.RenderScopeString(rights, isStaff);
    scope := FullScope(isStaff);
  }

  function SpoolsAmong(pairs: set<(string, string)>): (paths: set<string>)
    ensures forall p :: p in paths <==> ("spool", p) in pairs
  {
    set pair | pair in pairs && pair.0 == "spool" :: pair.1
  }

  lemma LimitsExempts(check: Check)
    ensures Limits(check) ==> Exempting(check)
  {}

  /** Every candidate as a kind with every candidate as a path. */
  method QualifyingPairs(candidates: set<string>, groups: seq<seq<Rule>>, rights: Rights, isStaff: bool)
    returns (resources: set<(string, string)>)
    ensures forall k, p :: (k, p) in resources <==>
              k in candidates && p in candidates && Qualifies(groups, rights, isStaff, k, p)
  {
    hide Qualifies;
    resources := {};
    var kinds := candidates;
    while kinds != {}
      invariant kinds <= candidates
      invariant forall k, p :: (k, p) in resources <==>
                  k in candidates - kinds && p in candidates && Qualifies(groups, rights, isStaff, k, p)
      decreases kinds
    {
      var kind :| kind in kinds;
      ghost var before := resources;
      var paths := candidates;
      while paths != {}
        invariant paths <= candidates
        invariant forall k, p :: (k, p) in resources <==>
                    (k, p) in before ||
                    (k == kind && p in candidates - paths && Qualifies(groups, rights, isStaff, k, p))
        decreases paths
      {
        var path :| path in paths;
        if Qualifies(groups, rights, isStaff, kind, path) {
          resources := resources + {(kind, path)};
        }
        paths := paths - {path};
      }
      kinds := kinds - {kind};
    }
  }

  /** The bound asks what the read gate asks. */
  lemma ReadableIsCanRead(facts: BiscuitFacts, kind: string, path: string)
    ensures AuthorityCanRead(facts.rights, facts.isStaff, kind, path) <==> facts.CanRead(kind, path)
  {
    forall k, p ensures Readable(facts.rights, k, p) <==>
                          facts.HasRight(k, p, "read") || facts.HasRight(k, p, "write") || facts.HasRight(k, p, "admin")
    {
      ReadableIsHeld(facts, k, p);
    }
  }

  lemma ReadableIsHeld(facts: BiscuitFacts, k: string, p: string)
    ensures Readable(facts.rights, k, p) <==>
              facts.HasRight(k, p, "read") || facts.HasRight(k, p, "write") || facts.HasRight(k, p, "admin")
  {
    if i :| 0 <= i < |facts.rights| && facts.rights[i].kind == k && facts.rights[i].path == p &&
            facts.rights[i].action in {"read", "write", "admin"} {
      assert facts.rights[i] == Right(k, p, facts.rights[i].action);
    }
  }

  // ----- the scope read off the token -----

  /** A resource alternative: one that is not the exemption itself and asks about a resource. */
  predicate ResourceAlternative(q: Rule) { !IsObservationQuery(q) && Mentions(q, "resource") }

  /** A check that exempts self-observation and otherwise confines resources. */
  ghost predicate CeilingCheck(check: Check) {
    Exempting(check) && exists q :: q in check.queries && ResourceAlternative(q)
  }

  /** Some resource alternative with a single atom has, for this resource, only expressions of value true. */
  ghost predicate PassesCeiling(check: Check, kind: string, path: string) {
    exists q :: q in check.queries && ResourceAlternative(q) && StrictlyAllows(q, kind, path)
  }

  ghost predicate StrictlyAllows(q: Rule, kind: string, path: string) {
    RequestFor(q, kind, path).Some? &&
    forall i | 0 <= i < |q.expressions| :: Computes(Tidy(q.expressions[i]), RequestFor(q, kind, path).value, B(true))
  }

  /** The strings tried as kinds and as paths: those of the rights, and the literals of every resource alternative. */
  ghost predicate Candidate(checks: seq<Check>, rights: Rights, s: string) {
    (exists r :: r in rights && (s == r.kind || s == r.path)) ||
    exists c, q, ops :: c in checks && Exempting(c) && AlternativeExpression(c, q, ops) && s in CeilingStrings(ops)
  }

  ghost predicate AlternativeExpression(c: Check, q: Rule, ops: seq<Op>) {
    q in c.queries && ResourceAlternative(q) && ops in q.expressions
  }

  lemma {:induction false} AlternativesAreListed(queries: seq<Rule>, q: Rule)
    ensures q in ResourceQueries(queries) <==> q in queries && ResourceAlternative(q)
  {
    hide IsObservationQuery, Mentions;
    if |queries| > 0 {
      AlternativesAreListed(queries[1..], q);
      assert q in queries <==> q == queries[0] || q in queries[1..];
    }
  }

  lemma {:induction false} GroupsAreCeilings(checks: seq<Check>, group: seq<Rule>)
    ensures group in Groups(checks) <==>
              group != [] && exists c :: c in checks && Exempting(c) && ResourceQueries(c.queries) == group
  {
    hide Exempting, ResourceQueries;
    if |checks| > 0 {
      GroupsAreCeilings(checks[1..], group);
      assert forall c :: c in checks <==> c == checks[0] || c in checks[1..];
    }
  }

  lemma CeilingHasGroup(check: Check)
    ensures CeilingCheck(check) <==> Exempting(check) && ResourceQueries(check.queries) != []
  {
    hide Exempting, ResourceAlternative;
    var group := ResourceQueries(check.queries);
    forall q { AlternativesAreListed(check.queries, q); }
    if group != [] { assert group[0] in group; }
  }

  lemma GroupIsPassed(check: Check, kind: string, path: string)
    ensures GroupAllows(ResourceQueries(check.queries), kind, path) <==> PassesCeiling(check, kind, path)
  {
    hide ResourceQueryAllows, StrictlyAllows, ResourceAlternative, ResourceQueries;
    var group := ResourceQueries(check.queries);
    forall q ensures q in group <==> q in check.queries && ResourceAlternative(q) {
      AlternativesAreListed(check.queries, q);
    }
    forall q ensures ResourceQueryAllows(q, kind, path) <==> StrictlyAllows(q, kind, path) {
      StrictReading(q, kind, path);
    }
  }

  lemma StrictReading(q: Rule, kind: string, path: string)
    ensures ResourceQueryAllows(q, kind, path) <==> StrictlyAllows(q, kind, path)
  {
    hide Computes, Tidy, RequestFor, Evaluate;
    AllowsIsStrictReading(q, kind, path);
  }

  lemma EveryCeilingIsPassed(checks: seq<Check>, kind: string, path: string)
    ensures WithinEveryCeiling(Groups(checks), kind, path) <==>
              forall c | c in checks && CeilingCheck(c) :: PassesCeiling(c, kind, path)
  {
    hide GroupAllows, PassesCeiling, CeilingCheck, Exempting, ResourceQueries, Groups;
    forall c { CeilingHasGroup(c); }
    forall c { GroupIsPassed(c, kind, path); }
    forall group { GroupsAreCeilings(checks, group); }
    var groups := Groups(checks);
    if WithinEveryCeiling(groups, kind, path) {
      forall c | c in checks && CeilingCheck(c) ensures PassesCeiling(c, kind, path) {
        assert ResourceQueries(c.queries) in groups;
      }
    } else {
      var i :| 0 <= i < |groups| && !GroupAllows(groups[i], kind, path);
      assert groups[i] in groups;
      var c :| c in checks && Exempting(c) && ResourceQueries(c.queries) == groups[i];
      assert CeilingCheck(c) && !PassesCeiling(c, kind, path);
    }
  }

  lemma {:induction false} ExpressionStringsOf(expressions: seq<seq<Op>>, s: string)
    ensures s in ExpressionStrings(expressions) <==> exists ops :: ops in expressions && s in CeilingStrings(ops)
  {
    hide CeilingStrings;
    if |expressions| > 0 {
      ExpressionStringsOf(expressions[1..], s);
      if s in CeilingStrings(expressions[0]) { assert expressions[0] in expressions; }
      if ops :| ops in expressions[1..] && s in CeilingStrings(ops) { assert ops in expressions; }
      if ops :| ops in expressions && s in CeilingStrings(ops) {
        assert ops == expressions[0] || ops in expressions[1..];
      }
    }
  }

  ghost predicate QueryHas(q: Rule, s: string) { exists ops :: ops in q.expressions && s in CeilingStrings(ops) }

  lemma {:induction false} QueryStringsOf(queries: seq<Rule>, s: string)
    ensures s in QueryStrings(queries) <==> exists q :: q in queries && QueryHas(q, s)
  {
    hide CeilingStrings, ExpressionStrings;
    if |queries| > 0 {
      QueryStringsOf(queries[1..], s);
      ExpressionStringsOf(queries[0].expressions, s);
      if QueryHas(queries[0], s) { assert queries[0] in queries; }
      if q :| q in queries[1..] && QueryHas(q, s) { assert q in queries; }
      if q :| q in queries && QueryHas(q, s) { assert q == queries[0] || q in queries[1..]; }
    }
  }

  lemma {:induction false} GroupStringsOf(groups: seq<seq<Rule>>, s: string)
    ensures s in GroupStrings(groups) <==> exists g :: g in groups && s in QueryStrings(g)
  {
    hide QueryStrings;
    if |groups| > 0 {
      GroupStringsOf(groups[1..], s);
      if s in QueryStrings(groups[0]) { assert groups[0] in groups; }
      if g :| g in groups[1..] && s in QueryStrings(g) { assert g in groups; }
      if g :| g in groups && s in QueryStrings(g) { assert g == groups[0] || g in groups[1..]; }
    }
  }

  lemma {:induction false} RightStringsOf(rights: Rights, s: string)
    ensures s in RightStrings(rights) <==> exists r :: r in rights && (s == r.kind || s == r.path)
  {
    if |rights| > 0 {
      RightStringsOf(rights[1..], s);
      assert forall r :: r in rights <==> r == rights[0] || r in rights[1..];
    }
  }

  /** A list's strings are its text literals, less one closing slash, and those of the closures in it. */
  lemma {:induction false} StringsOfOps(ops: seq<Op>, s: string)
    ensures s in CeilingStrings(ops) <==>
              exists op | op in ops :: LiteralOf(op, s) || (op.Closure? && s in CeilingStrings(op.ops))
  {
    if |ops| > 0 {
      StringsOfOps(ops[1..], s);
      assert ops == [ops[0]] + ops[1..];
      if ops[0].Value? && ops[0].term.Str? {
        LiteralIsStripped(ops[0].term.text, s);
      }
    }
  }

  predicate LiteralOf(op: Op, s: string) {
    op == Value(Str(s + "/")) || (op == Value(Str(s)) && (s == "" || s[|s| - 1] != '/'))
  }

  lemma LiteralIsStripped(text: string, s: string)
    ensures StripSlash(text) == s <==> LiteralOf(Value(Str(text)), s)
  {
    if |text| > 0 && text[|text| - 1] == '/' {
      assert text == text[..|text| - 1] + "/";
    }
    assert (s + "/")[..|s|] == s;
  }

  lemma CandidatesAreStrings(checks: seq<Check>, rights: Rights, s: string)
    ensures s in RightStrings(rights) + GroupStrings(Groups(checks)) <==> Candidate(checks, rights, s)
  {
    hide RightStrings, GroupStrings, Groups, CeilingStrings, ResourceAlternative, Exempting, QueryStrings,
        ResourceQueries;
    RightStringsOf(rights, s);
    GroupStringsOf(Groups(checks), s);
    if s in GroupStrings(Groups(checks)) {
      var g :| g in Groups(checks) && s in QueryStrings(g);
      GroupsAreCeilings(checks, g);
      QueryStringsOf(g, s);
      var c :| c in checks && Exempting(c) && ResourceQueries(c.queries) == g;
      var q :| q in g && QueryHas(q, s);
      AlternativesAreListed(c.queries, q);
      var ops :| ops in q.expressions && s in CeilingStrings(ops);
      assert AlternativeExpression(c, q, ops);
    }
    if c, q, ops :| c in checks && Exempting(c) && AlternativeExpression(c, q, ops) && s in CeilingStrings(ops) {
      var g := ResourceQueries(c.queries);
      AlternativesAreListed(c.queries, q);
      assert QueryHas(q, s) && q in g;
      QueryStringsOf(g, s);
      GroupsAreCeilings(checks, g);
      assert g in Groups(checks);
    }
  }

  /** Disclosure is exact.  It is a list of spools precisely when the token carries a resource ceiling, and then a
      candidate path is on it precisely when the authority rights reach it through inheritance and, for every
      ceiling check, some single-atom resource alternative has value true for it throughout. */
  lemma DisclosureIsExact(checks: seq<Check>, rights: Rights, isStaff: bool, p: string)
    ensures var scope := BoundedScope(checks, rights, isStaff).1;
            (scope.SpoolPaths? <==> exists c :: c in checks && CeilingCheck(c)) &&
            (scope.SpoolPaths? ==>
               (p in scope.paths <==>
                Candidate(checks, rights, "spool") && Candidate(checks, rights, p) &&
                AuthorityCanRead(rights, isStaff, "spool", p) &&
                forall c | c in checks && CeilingCheck(c) :: PassesCeiling(c, "spool", p)))
  {
    hide AuthorityCanRead, WithinEveryCeiling, Groups, RightStrings, GroupStrings, CeilingCheck, PassesCeiling,
        Candidate,
      Limits, Exempting, ResourceQueries;
    CandidatesAreStrings(checks, rights, "spool");
    CandidatesAreStrings(checks, rights, p);
    EveryCeilingIsPassed(checks, "spool", p);
    CeilingsAreGroups(checks);
  }

  lemma CeilingsAreGroups(checks: seq<Check>)
    ensures Groups(checks) != [] <==> exists c :: c in checks && CeilingCheck(c)
    ensures Groups(checks) != [] ==> exists i | 0 <= i < |checks| :: Limits(checks[i])
  {
    hide Groups, CeilingCheck, Limits, Exempting, ResourceQueries;
    forall c { CeilingHasGroup(c); }
    forall group { GroupsAreCeilings(checks, group); }
    if Groups(checks) != [] {
      var group := Groups(checks)[0];
      assert group in Groups(checks);
      var c :| c in checks && Exempting(c) && ResourceQueries(c.queries) == group;
      ResourceQueryLimits(c);
    }
    if c :| c in checks && CeilingCheck(c) { assert ResourceQueries(c.queries) in Groups(checks); }
  }

  /** Disclosure is honest: a request for any disclosed path passes every resource ceiling the token carries, if the
      engine reads the ceilings' resource alternatives as the verifier does. */
  lemma DisclosedPathsPassTheirCeilings(
    checks: seq<Check>, rights: Rights, isStaff: bool, p: string, check: Check, world: set<Fact>)
    requires forall c, q | c in checks && q in c.queries && ResourceAlternative(q) :: SoundReading(q, "spool", p)
    requires ResourceFact("spool", p) in world
    requires BoundedScope(checks, rights, isStaff).1.SpoolPaths? && p in BoundedScope(checks, rights, isStaff).1.paths
    requires check in checks && CeilingCheck(check)
    ensures AuthorityCanRead(rights, isStaff, "spool", p)
    ensures CheckHolds(check, world)
  {
    hide AuthorityCanRead, BoundedScope, RuleHolds, Exempting, ResourceAlternative, SoundReading, StrictlyAllows,
        Candidate;
    DisclosureIsExact(checks, rights, isStaff, p);
    assert PassesCeiling(check, "spool", p);
    var q :| q in check.queries && ResourceAlternative(q) && StrictlyAllows(q, "spool", p);
    StrictReading(q, "spool", p);
    AllowedQueryHolds(q, "spool", p, world);
    var k :| 0 <= k < |check.queries| && check.queries[k] == q;
    assert RuleHolds(check.queries[k], world);
  }

  /** Disclosure is limited precisely when some check exempts self-observation and has another alternative that asks
      about an operation or a resource; unlimited, or limited without a resource ceiling, the token's own rights are
      shown, except that limited staff are shown every spool and no standing. */
  lemma LimitIsExact(checks: seq<Check>, rights: Rights, isStaff: bool)
    ensures BoundedScope(checks, rights, isStaff).0 <==>
              exists c, q :: c in checks && Exempting(c) && q in c.queries && !IsObservationQuery(q) &&
                             (Mentions(q, "operation") || Mentions(q, "resource"))
    ensures !BoundedScope(checks, rights, isStaff).0 ==> BoundedScope(checks, rights, isStaff).1 == FullScope(isStaff)
    ensures BoundedScope(checks, rights, isStaff).0 && !(exists c :: c in checks && CeilingCheck(c)) ==>
              BoundedScope(checks, rights, isStaff).1 == if isStaff then EverySpool else FullScope(false)
  {
    hide Groups, IsObservationQuery, Mentions, Exempting, Qualifies, RightStrings, GroupStrings, CeilingCheck;
    CeilingsAreGroups(checks);
    if i :| 0 <= i < |checks| && Limits(checks[i]) {
      var j :| 0 <= j < |checks[i].queries| && !IsObservationQuery(checks[i].queries[j]) &&
               (Mentions(checks[i].queries[j], "operation") || Mentions(checks[i].queries[j], "resource"));
      assert checks[i] in checks && checks[i].queries[j] in checks[i].queries;
    }
    if c, q :| c in checks && Exempting(c) && q in c.queries && !IsObservationQuery(q) &&
               (Mentions(q, "operation") || Mentions(q, "resource")) {
      var i :| 0 <= i < |checks| && checks[i] == c;
      var j :| 0 <= j < |c.queries| && c.queries[j] == q;
      assert Limits(checks[i]);
    }
  }

  lemma LiteralReaches(r: Right<string>)
    ensures Reaches(r, r.kind, r.path)
  {}

  /** What a scope summary shows is held: each path named can be read, and written or administered when the action
      says so. */
  lemma ShownIsHeld(facts: BiscuitFacts, scope: ScopeString.Scope, path: string)
    requires ScopeString.Summarizes(scope, facts.rights) && scope.Spools? && path in scope.paths
    ensures facts.CanRead("spool", path)
    ensures ScopeString.ActionName(scope.strength) == "write" ==> facts.CanWrite("spool", path)
    ensures ScopeString.ActionName(scope.strength) == "admin" ==> facts.IsAdminOn("spool", path)
  {
    hide Reaches, BiscuitFacts.CanRead, BiscuitFacts.CanWrite, BiscuitFacts.IsAdminOn, ScopeString.Strength;
    var i :| 0 <= i < |facts.rights| && ScopeString.Rendered(facts.rights[i]) && facts.rights[i].path == path &&
             scope.strength <= ScopeString.Strength(facts.rights[i].action);
    var r := facts.rights[i];
    ScopeString.ActionsByStrength(r.action);
    LiteralReaches(r);
    AccessIsExact(facts, "spool", path);
  }

  /** And nothing greater is held on all of them: on some path named no right gives more than the action shown. */
  lemma NothingGreaterIsHeld(rights: Rights, scope: ScopeString.Scope)
    requires ScopeString.Summarizes(scope, rights) && scope.Spools?
    ensures var shown := ScopeString.ActionName(scope.strength);
            shown == "admin" ||
            exists path | path in scope.paths :: forall r | r in rights && r.kind == "spool" && r.path == path ::
                r.action != "admin" && (shown == "read" ==> r.action != "write")
  {
    hide ScopeString.Holds;
    if scope.strength < 3 {
      var path :| path in scope.paths &&
                  forall more: nat | more > scope.strength :: !ScopeString.Holds(rights, path, more);
      forall r | r in rights && r.kind == "spool" && r.path == path
        ensures ScopeString.Strength(r.action) <= scope.strength
      {
        RightIsHeld(rights, r);
      }
      ScopeString.ActionsByStrength("read");
    }
  }

  lemma RightIsHeld(rights: Rights, r: Right<string>)
    requires r in rights && r.kind == "spool"
    ensures ScopeString.Strength(r.action) > 0 ==> ScopeString.Holds(rights, r.path, ScopeString.Strength(r.action))
  {
    var i :| 0 <= i < |rights| && rights[i] == r;
    assert ScopeString.Rendered(r) ==> ScopeString.Rendered(rights[i]);
  }

  /** A ceiling whose resource alternatives all have several atoms lets nothing be disclosed. */
  lemma MultiAtomCeilingDisclosesNothing(checks: seq<Check>, rights: Rights, isStaff: bool, i: int)
    requires 0 <= i < |checks| && Exempting(checks[i]) && ResourceQueries(checks[i].queries) != []
    requires forall q | q in ResourceQueries(checks[i].queries) :: |q.body| != 1
    ensures BoundedScope(checks, rights, isStaff) == (true, SpoolPaths({}))
  {
    hide AuthorityCanRead, ResourceQueryAllows, RightStrings, GroupStrings;
    var group := ResourceQueries(checks[i].queries);
    GroupsAreCeilings(checks, group);
    assert checks[i] in checks;
    assert Limits(checks[i]) by { ResourceQueryLimits(checks[i]); }
    forall p ensures !GroupAllows(group, "spool", p) {
      forall j | 0 <= j < |group| ensures !ResourceQueryAllows(group[j], "spool", p) {
        MultiAtomNeverAllows(group[j], "spool", p);
      }
    }
    var k :| 0 <= k < |Groups(checks)| && Groups(checks)[k] == group;
    forall p ensures !Qualifies(Groups(checks), rights, isStaff, "spool", p) {
      assert !GroupAllows(Groups(checks)[k], "spool", p);
    }
    NothingQualifies(checks, rights, isStaff);
  }

  lemma NothingQualifies(checks: seq<Check>, rights: Rights, isStaff: bool)
    requires Groups(checks) != [] && exists i | 0 <= i < |checks| :: Limits(checks[i])
    requires forall p :: !Qualifies(Groups(checks), rights, isStaff, "spool", p)
    ensures BoundedScope(checks, rights, isStaff) == (true, SpoolPaths({}))
  {
    hide Qualifies, Groups, RightStrings, GroupStrings, Limits;
    var r := BoundedScope(checks, rights, isStaff);
    assert r.0 && r.1.SpoolPaths?;
    assert forall p :: p !in r.1.paths;
    assert r.1.paths == {};
  }

  lemma ResourceQueryLimits(check: Check)
    requires Exempting(check) && ResourceQueries(check.queries) != []
    ensures Limits(check)
  {
    hide IsObservationQuery, Mentions;
    var q := ResourceQueries(check.queries)[0];
    AlternativesAreListed(check.queries, q);
    var i :| 0 <= i < |check.queries| && check.queries[i] == q;
  }
}
