/** Checks as the Datalog engine decides them, and the verifier's own reading of resource checks. */
module Datalog {
  import opened Bytes
  import opened Ceiling
  import opened Engine

  datatype Atom = Atom(name: string, terms: seq<Term>)

  /** One alternative of a check: atoms to match, then expressions that must all be true. */
  datatype Rule = Rule(body: seq<Atom>, expressions: seq<seq<Op>>)

  datatype Check = Check(queries: seq<Rule>)

  datatype Fact = Fact(name: string, args: seq<string>)

  predicate TermMatches(term: Term, arg: string, env: Env) {
    match term
    case Variable(name) => name in env && env[name] == arg
    case Str(text) => text == arg
    case _ => false
  }

  predicate Matches(atom: Atom, fact: Fact, env: Env) {
    atom.name == fact.name && |atom.terms| == |fact.args| &&
    forall i | 0 <= i < |atom.terms| :: TermMatches(atom.terms[i], fact.args[i], env)
  }

  /** The engine gives the expression the value true. */
  predicate True(ops: seq<Op>, env: Env) { EngineResult(ops, env) == Some(B(true)) }

  /** One assignment of the variables puts every atom among the facts and makes every expression true. */
  ghost predicate HoldsUnder(rule: Rule, world: set<Fact>, env: Env) {
    (forall a | a in rule.body :: exists f :: f in world && Matches(a, f, env)) &&
    forall ops | ops in rule.expressions :: True(ops, env)
  }

  ghost predicate RuleHolds(rule: Rule, world: set<Fact>) { exists env :: HoldsUnder(rule, world, env) }

  ghost predicate CheckHolds(check: Check, world: set<Fact>) {
    exists i :: 0 <= i < |check.queries| && RuleHolds(check.queries[i], world)
  }

  function ResourceFact(kind: string, path: string): Fact { Fact("resource", [kind, path]) }

  // ----- the verifier's reading -----

  /** The request a query of the one-atom form `resource($k, $p)` is read against. */
  function RequestFor(query: Rule, kind: string, path: string): Option<Request> {
    if |query.body| == 1 && query.body[0].name == "resource" && |query.body[0].terms| == 2 &&
       query.body[0].terms[0].Variable? && query.body[0].terms[1].Variable?
    then Some(Request(query.body[0].terms[0].name, kind, query.body[0].terms[1].name, path))
    else None
  }

  predicate ResourceQueryAllows(query: Rule, kind: string, path: string) {
    match RequestFor(query, kind, path)
    case None => false
    case Some(req) => forall i | 0 <= i < |query.expressions| :: Evaluate(query.expressions[i], req) == BoolValue(true)
  }

  predicate DistinctVariables(query: Rule) {
    |query.body| == 1 && |query.body[0].terms| == 2 ==> query.body[0].terms[0] != query.body[0].terms[1]
  }

  /** The query is one the engine reads as the verifier does: its two variables are distinct or stand for one
      value, and its expressions keep the engine's discipline. */
  predicate SoundReading(query: Rule, kind: string, path: string) {
    match RequestFor(query, kind, path)
    case None => true
    case Some(req) =>
      (DistinctVariables(query) || kind == path) &&
      forall i | 0 <= i < |query.expressions| :: Disciplined(query.expressions[i], req)
  }

  /** A query the verifier says allows a resource is one the engine satisfies for it, whatever else is known,
      when the two read it alike. */
  lemma AllowedQueryHolds(query: Rule, kind: string, path: string, world: set<Fact>)
    requires ResourceQueryAllows(query, kind, path) && SoundReading(query, kind, path)
    requires ResourceFact(kind, path) in world
    ensures RuleHolds(query, world)
  {
    hide Evaluate, EngineResult, Disciplined;
    var req := RequestFor(query, kind, path).value;
    var env := EnvOf(req);
    assert query.body == [query.body[0]];
    assert Matches(query.body[0], ResourceFact(kind, path), env);
    forall ops | ops in query.expressions ensures True(ops, env) {
      var i :| 0 <= i < |query.expressions| && query.expressions[i] == ops;
      EngineAgrees(ops, req, env);
    }
    assert HoldsUnder(query, world, env);
  }

  /** For a query the verifier allows, that is exactly when the engine agrees on the resource alone. */
  lemma AllowanceIsSoundExactly(query: Rule, kind: string, path: string)
    requires ResourceQueryAllows(query, kind, path)
    ensures RuleHolds(query, {ResourceFact(kind, path)}) <==> SoundReading(query, kind, path)
  {
    hide Evaluate, EngineResult, Disciplined;
    var fact := ResourceFact(kind, path);
    if SoundReading(query, kind, path) {
      AllowedQueryHolds(query, kind, path, {fact});
    }
    if env :| HoldsUnder(query, {fact}, env) {
      var req := RequestFor(query, kind, path).value;
      var atom := query.body[0];
      assert atom in query.body && Matches(atom, fact, env);
      assert TermMatches(atom.terms[0], kind, env) && TermMatches(atom.terms[1], path, env);
      forall i | 0 <= i < |query.expressions| ensures Disciplined(query.expressions[i], req) {
        assert query.expressions[i] in query.expressions;
        EngineAgrees(query.expressions[i], req, env);
      }
    }
  }

  /** A query written as text with distinct variables is always read alike where it is allowed. */
  lemma WrittenQueryIsSound(query: Rule, trees: seq<Expr>, kind: string, path: string)
    requires DistinctVariables(query) && ResourceQueryAllows(query, kind, path)
    requires |trees| == |query.expressions|
    requires forall i | 0 <= i < |trees| :: Written(trees[i]) && Postfix(trees[i]) == query.expressions[i]
    ensures SoundReading(query, kind, path)
  {
    hide Evaluate, Disciplined, Written, Postfix;
    var req := RequestFor(query, kind, path).value;
    forall i | 0 <= i < |query.expressions| ensures Disciplined(query.expressions[i], req) {
      WrittenIsDisciplined(trees[i], req);
    }
  }

  /** The verifier allows a resource exactly through the strict reading: one resource atom, and every
      expression, but for parentheses enclosing nothing, the program of a well-typed tree of supported operators
      with value true. */
  lemma AllowsIsStrictReading(query: Rule, kind: string, path: string)
    ensures ResourceQueryAllows(query, kind, path)
            <==> RequestFor(query, kind, path).Some? &&
                 forall i | 0 <= i < |query.expressions| ::
                   Computes(Tidy(query.expressions[i]), RequestFor(query, kind, path).value, B(true))
  {
    hide Evaluate, Computes, Tidy;
    if RequestFor(query, kind, path).Some? {
      var req := RequestFor(query, kind, path).value;
      forall i | 0 <= i < |query.expressions|
        ensures Evaluate(query.expressions[i], req) == BoolValue(true)
                <==> Computes(Tidy(query.expressions[i]), req, B(true))
      {
        MachineIsExact(query.expressions[i], req, B(true));
      }
    }
  }

  /** Distinctness matters: with one variable for both, a query is allowed where the engine refuses it,
      for every request whose kind and path differ. */
  lemma RepeatedVariableIsUnsound(x: string, kind: string, path: string)
    requires kind != path
    ensures var query := Rule([Atom("resource", [Variable(x), Variable(x)])], []);
            ResourceQueryAllows(query, kind, path) && !RuleHolds(query, {ResourceFact(kind, path)})
  {
    AllowanceIsSoundExactly(Rule([Atom("resource", [Variable(x), Variable(x)])], []), kind, path);
  }

  /** So does the discipline: an expression that is a bare closure, or begins with parentheses, is allowed where
      the engine refuses it, for every resource. */
  lemma UndisciplinedIsUnsound(kind: string, path: string, k: string, p: string, params: seq<string>)
    ensures var stray := Rule([Atom("resource", [Variable(k), Variable(p)])], [[UnaryOp(Parens), Value(Bool(true))]]);
            var closure := Rule([Atom("resource", [Variable(k), Variable(p)])],
                                [[Closure(params, [Value(Bool(true))])]]);
            ResourceQueryAllows(stray, kind, path) && !RuleHolds(stray, {ResourceFact(kind, path)}) &&
            ResourceQueryAllows(closure, kind, path) && !RuleHolds(closure, {ResourceFact(kind, path)})
  {
    hide Evaluate, EngineResult, Disciplined, Matches;
    var req := Request(k, kind, p, path);
    var stray, closure := [UnaryOp(Parens), Value(Bool(true))], [Closure(params, [Value(Bool(true))])];
    AnsweredButRefused(params, req, EnvOf(req));
    EngineAgrees(stray, req, EnvOf(req));
    EngineAgrees(closure, req, EnvOf(req));
    var atom := Atom("resource", [Variable(k), Variable(p)]);
    forall ops | ops in {stray, closure}
      ensures ResourceQueryAllows(Rule([atom], [ops]), kind, path)
      ensures !RuleHolds(Rule([atom], [ops]), {ResourceFact(kind, path)})
    {
      var query := Rule([atom], [ops]);
      assert RequestFor(query, kind, path) == Some(req) && !Disciplined(query.expressions[0], req);
      AllowanceIsSoundExactly(query, kind, path);
    }
  }

  lemma MultiAtomNeverAllows(query: Rule, kind: string, path: string)
    requires |query.body| != 1
    ensures !ResourceQueryAllows(query, kind, path)
  {}
}
