/** The block that narrows a token for an agent, and what its checks admit. */
module Delegation {
  import opened Bytes
  import opened Ceiling
  import opened Datalog
  import opened Engine
  import opened Resource
  import opened IdentityScope

  /** `None` keeps the parent's ceiling on a dimension; an empty list denies all work on it. */
  datatype Attenuation = Attenuation(
    agentId: string, expiresAt: int,
    allowedOperations: Option<seq<string>>, allowedResources: Option<seq<(string, string)>>)

  /** The appended block: its two facts, the instant its expiry check demands be in the future, and its other checks. */
  datatype Block = Block(agent: string, agentExpiresAt: int, before: int, checks: seq<Check>)

  // ----- the predicates written into checks -----

  function OrAll(es: seq<Expr>): Expr {
    var last := |es| - 1;
    if |es| == 0 then Truth(false)
    else if last == 0 then es[0]
    else Apply(LazyOr, OrAll(es[..last]), Thunk([], es[last]))
  }

  function OperationClause(op: string): Expr { Apply(Equal, Var("op"), Text(op)) }

  function ResourceClause(kind: string, path: string): Expr {
    Paren(Apply(LazyAnd, Apply(Equal, Var("k"), Text(kind)),
      Thunk([], Paren(Apply(LazyOr, Apply(Equal, Var("p"), Text(path)),
        Thunk([], Apply(Prefix, Var("p"), Text(path + "/"))))))))
  }

  function OperationAtom(): Atom { Atom("operation", [Variable("op")]) }

  function ResourceAtom(): Atom { Atom("resource", [Variable("k"), Variable("p")]) }

  function OnlyOperation(name: string): Rule { Rule([Atom("operation", [Str(name)])], []) }

  function OperationCheck(ops: seq<string>, clauses: seq<Expr>): Check {
    var listed := Rule([OperationAtom()], [Postfix(OrAll(clauses))]);
    if SELF_OBSERVATION in ops then Check([listed]) else Check([OnlyOperation(SELF_OBSERVATION), listed])
  }

  const LIST_SPOOLS := "ListSpools"
  const OBSERVE_WORKSPACE := "ObserveWorkspace"

  function NotOperation(name: string): Expr { Apply(NotEqual, Var("op"), Text(name)) }

  function ResourceRule(clauses: seq<Expr>): Rule {
    Rule([ResourceAtom(), OperationAtom()],
      [Postfix(OrAll(clauses)), Postfix(NotOperation(LIST_SPOOLS)), Postfix(NotOperation(OBSERVE_WORKSPACE))])
  }

  function ResourceCheck(clauses: seq<Expr>): Check {
    Check([OnlyOperation("DescribeEndpoint"), OnlyOperation("GetIdentity"), OnlyOperation(SELF_OBSERVATION),
           ResourceRule(clauses)])
  }

  function OperationClauses(ops: seq<string>): seq<Expr> {
    seq(|ops|, i requires 0 <= i < |ops| => OperationClause(ops[i]))
  }

  function ResourceClauses(resources: seq<(string, string)>): seq<Expr> {
    seq(|resources|, i requires 0 <= i < |resources| => ResourceClause(resources[i].0, resources[i].1))
  }

  /** One check for each restricted dimension, operations first. */
  function AttenuationChecks(a: Attenuation): seq<Check> {
    (if a.allowedOperations.Some?
     then [OperationCheck(a.allowedOperations.value, OperationClauses(a.allowedOperations.value))] else []) +
    (if a.allowedResources.Some? then [ResourceCheck(ResourceClauses(a.allowedResources.value))] else [])
  }

  /** The block, built up one fact and check at a time. */
  method AgentAttenuationBlock(a: Attenuation) returns (block: Block)
    ensures block.agent == a.agentId && block.agentExpiresAt == block.before == a.expiresAt
    ensures block.checks == AttenuationChecks(a)
  {
    block := Block(a.agentId, a.expiresAt, a.expiresAt, []);
    if a.allowedOperations.Some? {
      var ops := a.allowedOperations.value;
      block := block.(checks := block.checks + [OperationCheck(ops, OperationClauses(ops))]);
    }
    if a.allowedResources.Some? {
      var resources := a.allowedResources.value;
      var clauses: seq<Expr> := [];
      for i := 0 to |resources|
        invariant |clauses| == i
        invariant forall j | 0 <= j < i :: clauses[j] == ResourceClause(resources[j].0, resources[j].1)
      {
        var (kind, path) := resources[i];
        clauses := clauses + [ResourceClause(kind, path)];
      }
      assert clauses == ResourceClauses(resources);
      block := block.(checks := block.checks + [ResourceCheck(clauses)]);
    }
  }

  // ----- what the engine makes of them -----

  /** An expression is true to the engine exactly when its tree is. */
  lemma TrueIsValue(e: Expr, env: Env)
    ensures True(Postfix(e), env) <==> EngineValue(e, env) == Some(B(true))
  {
    hide EngineValue, EngineResult;
    TreeResult(e, env);
  }

  // ----- what the checks admit -----

  /** The facts the verifier injects for a request; either may be missing. */
  function World(op: Option<string>, resource: Option<(string, string)>): set<Fact> {
    (if op.Some? then {Fact("operation", [op.value])} else {}) +
    (if resource.Some? then {ResourceFact(resource.value.0, resource.value.1)} else {})
  }

  ghost predicate AnyTrue(es: seq<Expr>, env: Env) {
    exists i :: 0 <= i < |es| && EngineValue(es[i], env) == Some(B(true))
  }

  lemma {:induction false} OrAllValue(es: seq<Expr>, env: Env)
    requires forall i | 0 <= i < |es| :: EngineValue(es[i], env).Some? && EngineValue(es[i], env).value.B?
    ensures EngineValue(OrAll(es), env) == Some(B(AnyTrue(es, env)))
    decreases |es|
  {
    var last := |es| - 1;
    if last > 0 {
      var front := es[..last];
      OrAllValue(front, env);
      assert AnyTrue(es, env) <==> AnyTrue(front, env) || EngineValue(es[last], env) == Some(B(true)) by {
        if i :| 0 <= i < |es| && EngineValue(es[i], env) == Some(B(true)) {
          assert i < last ==> EngineValue(front[i], env) == Some(B(true));
        }
        if i :| 0 <= i < |front| && EngineValue(front[i], env) == Some(B(true)) {
          assert EngineValue(es[i], env) == Some(B(true));
        }
      }
    } else if last == 0 {
      assert AnyTrue(es, env) <==> EngineValue(es[0], env) == Some(B(true));
    }
  }

  lemma OnlyOperationHolds(name: string, op: Option<string>, resource: Option<(string, string)>)
    ensures RuleHolds(OnlyOperation(name), World(op, resource)) <==> op == Some(name)
  {
    var rule, world := OnlyOperation(name), World(op, resource);
    assert rule.body == [rule.body[0]];
    forall f, env
      ensures f in world && Matches(rule.body[0], f, env) <==> op == Some(name) && f == Fact("operation", [name])
    {
      if f in world && Matches(rule.body[0], f, env) {
        assert TermMatches(rule.body[0].terms[0], f.args[0], env);
        assert f.args == [f.args[0]];
      }
    }
    if op == Some(name) {
      assert Matches(rule.body[0], Fact("operation", [name]), map[]);
      assert HoldsUnder(rule, world, map[]);
    }
    assert rule.body[0] in rule.body;
  }

  ghost predicate Met(atom: Atom, world: set<Fact>, env: Env) { exists f :: f in world && Matches(atom, f, env) }

  lemma OneAtom(a: Atom, ops: seq<Op>, world: set<Fact>, env: Env)
    ensures HoldsUnder(Rule([a], [ops]), world, env) <==> Met(a, world, env) && True(ops, env)
  {
    hide Matches, True;
    var rule := Rule([a], [ops]);
    assert a in rule.body && ops in rule.expressions;
    assert forall x :: x in rule.body <==> x == a;
    assert forall x :: x in rule.expressions <==> x == ops;
  }

  lemma TwoAtoms(a: Atom, b: Atom, x: seq<Op>, y: seq<Op>, z: seq<Op>, world: set<Fact>, env: Env)
    ensures HoldsUnder(Rule([a, b], [x, y, z]), world, env)
            <==> Met(a, world, env) && Met(b, world, env) && True(x, env) && True(y, env) && True(z, env)
  {
    hide Matches, True;
    var rule := Rule([a, b], [x, y, z]);
    assert a in rule.body && b in rule.body;
    assert x in rule.expressions && y in rule.expressions && z in rule.expressions;
    assert forall t :: t in rule.body <==> t == a || t == b;
    assert forall t :: t in rule.expressions <==> t == x || t == y || t == z;
  }

  /** An operation list admits exactly the operations on it, and observing oneself. */
  lemma OperationCheckMeaning(ops: seq<string>, op: Option<string>, resource: Option<(string, string)>)
    ensures CheckHolds(OperationCheck(ops, OperationClauses(ops)), World(op, resource))
            <==> op.Some? && (op.value in ops || op.value == SELF_OBSERVATION)
  {
    hide RuleHolds, OnlyOperation, OrAll;
    var check, world := OperationCheck(ops, OperationClauses(ops)), World(op, resource);
    OnlyOperationHolds(SELF_OBSERVATION, op, resource);
    ListedHolds(ops, op, resource);
    var listed := Rule([OperationAtom()], [Postfix(OrAll(OperationClauses(ops)))]);
    if SELF_OBSERVATION in ops {
      assert check.queries[0] == listed;
    } else {
      assert check.queries[0] == OnlyOperation(SELF_OBSERVATION) && check.queries[1] == listed;
    }
  }

  lemma ListedHolds(ops: seq<string>, op: Option<string>, resource: Option<(string, string)>)
    ensures RuleHolds(Rule([OperationAtom()], [Postfix(OrAll(OperationClauses(ops)))]), World(op, resource))
            <==> op.Some? && op.value in ops
  {
    hide OrAll, Postfix, True, HoldsUnder, Matches;
    var clauses := OperationClauses(ops);
    var rule, world := Rule([OperationAtom()], [Postfix(OrAll(clauses))]), World(op, resource);
    forall env ensures HoldsUnder(rule, world, env) <==> op.Some? && OperationBound(op.value, env) && op.value in ops {
      OperationMatches(op, resource, env);
      OneAtom(OperationAtom(), Postfix(OrAll(clauses)), world, env);
      if op.Some? && OperationBound(op.value, env) {
        forall i | 0 <= i < |clauses| ensures EngineValue(clauses[i], env) == Some(B(op.value == ops[i])) {}
        OrAllValue(clauses, env);
        TrueIsValue(OrAll(clauses), env);
        assert AnyTrue(clauses, env) <==> op.value in ops by {
          if op.value in ops {
            var i :| 0 <= i < |ops| && ops[i] == op.value;
            assert EngineValue(clauses[i], env) == Some(B(true));
          }
        }
      }
    }
    if op.Some? {
      assert OperationBound(op.value, map["op" := op.value]);
    }
  }

  predicate OperationBound(op: string, env: Env) { "op" in env && env["op"] == op }

  predicate ResourceBound(kind: string, path: string, env: Env) {
    "k" in env && env["k"] == kind && "p" in env && env["p"] == path
  }

  lemma OperationMatches(op: Option<string>, resource: Option<(string, string)>, env: Env)
    ensures Met(OperationAtom(), World(op, resource), env)
            <==> op.Some? && OperationBound(op.value, env)
  {
    if f :| f in World(op, resource) && Matches(OperationAtom(), f, env) {
      assert TermMatches(OperationAtom().terms[0], f.args[0], env);
    }
    if op.Some? && OperationBound(op.value, env) {
      assert Matches(OperationAtom(), Fact("operation", [op.value]), env);
    }
  }

  lemma ResourceMatches(op: Option<string>, resource: Option<(string, string)>, env: Env)
    ensures Met(ResourceAtom(), World(op, resource), env)
            <==> resource.Some? && ResourceBound(resource.value.0, resource.value.1, env)
  {
    if f :| f in World(op, resource) && Matches(ResourceAtom(), f, env) {
      assert TermMatches(ResourceAtom().terms[0], f.args[0], env) &&
              TermMatches(ResourceAtom().terms[1], f.args[1], env);
    }
    if resource.Some? && ResourceBound(resource.value.0, resource.value.1, env) {
      assert Matches(ResourceAtom(), ResourceFact(resource.value.0, resource.value.1), env);
    }
  }

  /** Some entry of the list is of the request's kind and covers its path by equality or prefix. */
  predicate Listed(resources: seq<(string, string)>, kind: string, path: string) {
    exists i | 0 <= i < |resources| :: resources[i].0 == kind && Covers(resources[i].1, path)
  }

  lemma ResourceClauseValue(entry: (string, string), kind: string, path: string, env: Env)
    requires ResourceBound(kind, path, env)
    ensures EngineValue(ResourceClause(entry.0, entry.1), env) == Some(B(entry.0 == kind && Covers(entry.1, path)))
  {
    var (k, g) := entry;
    var under := Apply(Prefix, Var("p"), Text(g + "/"));
    var within := Apply(LazyOr, Apply(Equal, Var("p"), Text(g)), Thunk([], under));
    var ofKind := Apply(Equal, Var("k"), Text(k));
    assert EngineValue(under, env) == Some(B(g + "/" <= path));
    assert EngineValue(Apply(Equal, Var("p"), Text(g)), env) == Some(B(path == g));
    assert EngineValue(within, env) == Some(B(Covers(g, path)));
    assert EngineValue(Paren(within), env) == Some(B(Covers(g, path)));
    assert EngineValue(ofKind, env) == Some(B(k == kind));
    assert EngineValue(Apply(LazyAnd, ofKind, Thunk([], Paren(within))), env)
           == Some(B(entry.0 == kind && Covers(entry.1, path)));
  }

  lemma ResourceRuleHolds(resources: seq<(string, string)>, op: Option<string>, resource: Option<(string, string)>)
    ensures RuleHolds(ResourceRule(ResourceClauses(resources)), World(op, resource))
            <==> op.Some? && op.value != LIST_SPOOLS && op.value != OBSERVE_WORKSPACE &&
                 resource.Some? && Listed(resources, resource.value.0, resource.value.1)
  {
    hide OrAll, Postfix, True, ResourceClause, Covers, HoldsUnder, Matches;
    var clauses := ResourceClauses(resources);
    var rule, world := ResourceRule(clauses), World(op, resource);
    forall env ensures HoldsUnder(rule, world, env) <==>
        op.Some? && OperationBound(op.value, env) && op.value != LIST_SPOOLS && op.value != OBSERVE_WORKSPACE &&
        resource.Some? && ResourceBound(resource.value.0, resource.value.1, env) &&
        Listed(resources, resource.value.0, resource.value.1)
    {
      OperationMatches(op, resource, env);
      ResourceMatches(op, resource, env);
      TwoAtoms(ResourceAtom(), OperationAtom(), Postfix(OrAll(clauses)), Postfix(NotOperation(LIST_SPOOLS)),
        Postfix(NotOperation(OBSERVE_WORKSPACE)), world, env);
      if op.Some? && OperationBound(op.value, env) && resource.Some? &&
         ResourceBound(resource.value.0, resource.value.1, env) {
        TrueIsValue(NotOperation(LIST_SPOOLS), env);
        TrueIsValue(NotOperation(OBSERVE_WORKSPACE), env);
        ClausesValue(resources, resource.value.0, resource.value.1, env);
        TrueIsValue(OrAll(clauses), env);
      }
    }
    if op.Some? && resource.Some? {
      var env := map["op" := op.value, "k" := resource.value.0, "p" := resource.value.1];
      assert OperationBound(op.value, env) && ResourceBound(resource.value.0, resource.value.1, env);
    }
  }

  lemma ClausesValue(resources: seq<(string, string)>, kind: string, path: string, env: Env)
    requires ResourceBound(kind, path, env)
    ensures EngineValue(OrAll(ResourceClauses(resources)), env) == Some(B(Listed(resources, kind, path)))
  {
    hide ResourceClause, Covers, OrAll, EngineValue;
    var clauses := ResourceClauses(resources);
    forall i | 0 <= i < |clauses|
      ensures EngineValue(clauses[i], env) == Some(B(resources[i].0 == kind && Covers(resources[i].1, path)))
    {
      ResourceClauseValue(resources[i], kind, path, env);
    }
    OrAllValue(clauses, env);
    assert AnyTrue(clauses, env) <==> Listed(resources, kind, path) by {
      if i :| 0 <= i < |resources| && resources[i].0 == kind && Covers(resources[i].1, path) {
        assert EngineValue(clauses[i], env) == Some(B(true));
      }
    }
  }

  /** A resource list admits the three resource-free operations, and otherwise exactly requests for a
      listed resource or something under it, account-wide inventory excepted. */
  lemma ResourceCheckMeaning(resources: seq<(string, string)>, op: Option<string>, resource: Option<(string, string)>)
    ensures CheckHolds(ResourceCheck(ResourceClauses(resources)), World(op, resource))
            <==> op.Some? &&
                 (op.value == "DescribeEndpoint" || op.value == "GetIdentity" || op.value == SELF_OBSERVATION ||
                  (op.value != LIST_SPOOLS && op.value != OBSERVE_WORKSPACE &&
                   resource.Some? && Listed(resources, resource.value.0, resource.value.1)))
  {
    hide RuleHolds, OnlyOperation, ResourceRule, Listed;
    OnlyOperationHolds("DescribeEndpoint", op, resource);
    OnlyOperationHolds("GetIdentity", op, resource);
    OnlyOperationHolds(SELF_OBSERVATION, op, resource);
    ResourceRuleHolds(resources, op, resource);
    var queries := ResourceCheck(ResourceClauses(resources)).queries;
    assert queries[0] == OnlyOperation("DescribeEndpoint") && queries[1] == OnlyOperation("GetIdentity");
    assert queries[2] == OnlyOperation(SELF_OBSERVATION) && queries[3] == ResourceRule(ResourceClauses(resources));
  }

  /** For a well-formed spool, being listed by prefix is having a listed spool on the ancestor walk: the
      ceiling written into tokens and the inheritance walk cannot disagree. */
  lemma CeilingAgreesWithInheritance(resources: seq<(string, string)>, path: string)
    requires WellFormed(path)
    ensures Listed(resources, "spool", path)
            <==> exists i :: 0 <= i < |resources| && resources[i].0 == "spool" &&
                   (resources[i].1 == path || (Spool, resources[i].1) in WalkToRoot(Spool, path))
  {
    hide Covers, WalkToRoot;
    forall grant ensures Covers(grant, path) <==> grant == path || (Spool, grant) in WalkToRoot(Spool, path) {
      PrefixCeilingIsAncestorWalk(grant, path);
    }
  }

  /** The resource ceiling pairs its resource atom with an operation atom, so under it self-observation
      discloses no spool at all, whatever the list and the rights. */
  lemma DelegatedCeilingDisclosesNothing(
    checks: seq<Check>, resources: seq<(string, string)>, rights: seq<Right<string>>, isStaff: bool)
    requires ResourceCheck(ResourceClauses(resources)) in checks
    ensures BoundedScope(checks, rights, isStaff) == (true, SpoolPaths({}))
  {
    hide BoundedScope, Postfix, OrAll;
    var check := ResourceCheck(ResourceClauses(resources));
    var i :| 0 <= i < |checks| && checks[i] == check;
    var rule := ResourceRule(ResourceClauses(resources));
    assert IsObservationQuery(check.queries[2]) by { assert check.queries[2].body[0].name == "operation"; }
    assert rule.body[0].name == "resource" && rule.body[1].terms[0] == Variable("op");
    CeilingQueries(check.queries[0], check.queries[1], check.queries[2], rule);
    assert check.queries == [check.queries[0], check.queries[1], check.queries[2], rule];
    assert |rule.body| == 2;
    MultiAtomCeilingDisclosesNothing(checks, rights, isStaff, i);
  }

  lemma CeilingQueries(a: Rule, b: Rule, c: Rule, rule: Rule)
    requires !Mentions(a, "resource") && !Mentions(b, "resource") && !Mentions(c, "resource")
    requires Mentions(rule, "resource") && !IsObservationQuery(rule)
    ensures ResourceQueries([a, b, c, rule]) == [rule]
  {
    hide Mentions, IsObservationQuery;
    assert [a, b, c, rule][1..] == [b, c, rule] && [b, c, rule][1..] == [c, rule] && [c, rule][1..] == [rule];
    assert ResourceQueries([rule][1..]) == [];
    assert ResourceQueries([rule]) == [rule];
    assert ResourceQueries([c, rule]) == [rule];
    assert ResourceQueries([b, c, rule]) == [rule];
  }

  // ----- what self-observation discloses under a delegation -----

  /** An operation ceiling that does not list self-observation always limits it. */
  lemma OperationCeilingLimits(checks: seq<Check>, ops: seq<string>, rights: seq<Right<string>>, isStaff: bool)
    requires OperationCheck(ops, OperationClauses(ops)) in checks && SELF_OBSERVATION !in ops
    ensures BoundedScope(checks, rights, isStaff).0
  {
    hide BoundedScope, Postfix, OrAll;
    var check := OperationCheck(ops, OperationClauses(ops));
    LimitIsExact(checks, rights, isStaff);
    assert check.queries[0].body[0].name == "operation" && IsObservationQuery(check.queries[0]);
    assert check.queries[1].body[0].terms == [Variable("op")] && !IsObservationQuery(check.queries[1]);
    assert check.queries[1].body[0].name == "operation" && check.queries[1] in check.queries;
  }

  /** One that lists it exempts nothing, limits nothing and confines no resource. */
  lemma OperationCheckKinds(ops: seq<string>)
    ensures Exempting(OperationCheck(ops, OperationClauses(ops))) <==> SELF_OBSERVATION !in ops
    ensures !CeilingCheck(OperationCheck(ops, OperationClauses(ops)))
  {
    hide Postfix, OrAll;
    var check := OperationCheck(ops, OperationClauses(ops));
    var listed := Rule([OperationAtom()], [Postfix(OrAll(OperationClauses(ops)))]);
    assert listed.body[0].terms == [Variable("op")] && !IsObservationQuery(listed);
    var only := OnlyOperation(SELF_OBSERVATION);
    assert only.body[0].name == "operation" && IsObservationQuery(only);
    if SELF_OBSERVATION in ops {
      assert check.queries == [listed];
    } else {
      assert check.queries == [only, listed] && IsObservationQuery(check.queries[0]);
      assert forall q | q in check.queries :: q == only || q == listed;
      assert !Mentions(only, "resource") && !Mentions(listed, "resource");
    }
  }

  /** The scope under one delegation, in full, whatever other checks that exempt nothing the token carries.  A resource
      ceiling hides every spool.  An operation ceiling alone limits disclosure unless it lists self-observation, and
      then shows the token's own rights without operator standing, or to staff every spool.  With neither, nothing is
      limited. */
  lemma AttenuatedScope(a: Attenuation, others: seq<Check>, rights: seq<Right<string>>, isStaff: bool)
    requires forall c | c in others :: !Exempting(c)
    ensures BoundedScope(others + AttenuationChecks(a), rights, isStaff) ==
            if a.allowedResources.Some? then (true, SpoolPaths({}))
            else if a.allowedOperations.Some? && SELF_OBSERVATION !in a.allowedOperations.value
              then (true, if isStaff then EverySpool else FullScope(false))
            else (false, FullScope(isStaff))
  {
    hide BoundedScope, OperationCheck, ResourceCheck, Exempting, CeilingCheck, IsObservationQuery, Mentions;
    var checks := others + AttenuationChecks(a);
    LimitIsExact(checks, rights, isStaff);
    if a.allowedResources.Some? {
      var resources := a.allowedResources.value;
      assert ResourceCheck(ResourceClauses(resources)) in AttenuationChecks(a);
      DelegatedCeilingDisclosesNothing(checks, resources, rights, isStaff);
    } else {
      forall c: Check { CeilingExempts(c); }
      if a.allowedOperations.Some? {
        var ops := a.allowedOperations.value;
        OperationCheckKinds(ops);
        assert OperationCheck(ops, OperationClauses(ops)) in AttenuationChecks(a);
        if SELF_OBSERVATION !in ops { OperationCeilingLimits(checks, ops, rights, isStaff); }
        var check := OperationCheck(ops, OperationClauses(ops));
        assert AttenuationChecks(a) == [check];
        assert forall c | c in checks :: c in others || c == check;
      } else {
        assert checks == others;
      }
    }
  }

  lemma CeilingExempts(c: Check)
    ensures CeilingCheck(c) ==> Exempting(c)
  {}
}
