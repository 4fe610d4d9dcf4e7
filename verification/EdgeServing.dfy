/** The edge's entry point: what a token that pins the digest of an extent set lets the edge serve. */
module EdgeServing {
  import opened Bytes
  import opened Hex
  import opened EdgeExtents
  import opened EdgeOrder
  import opened EdgeCanonical
  import EdgeCodec
  import opened Ceiling
  import opened Engine
  import opened Datalog

  datatype Request = Request(
    repositoryId: Array16, facet: Text, audience: EdgeAudience, contentRoot: Array32,
    packId: Array32, etag: Text, offset: u64, length: u64)

  datatype AuthorizedExtent = AuthorizedExtent(extent: EdgeExtent, subject: string, audience: EdgeAudience)

  /** The four values of the injected request fact, which the scope check compares with its own. */
  datatype Pin = Pin(repository: bytes, facet: bytes, audience: bytes, digest: bytes)

  datatype ServingScope = ServingScope(repositoryId: Array16, facet: Text, audience: EdgeAudience,
      extentSetDigest: Array32)

  function ScopePin(scope: ServingScope): Pin {
    Pin(HexEncode(scope.repositoryId), scope.facet, AsCanonical(scope.audience), HexEncode(scope.extentSetDigest))
  }

  /** The digest is taken over the bytes as received. */
  function RequestPin(hash: bytes -> Array32, setBytes: bytes, request: Request): Pin {
    Pin(HexEncode(request.repositoryId), request.facet, AsCanonical(request.audience), HexEncode(hash(setBytes)))
  }

  ghost predicate Asked(request: Request, e: EdgeExtent) {
    EdgeOrder.Matches(e, request.packId, request.etag, request.offset, request.length)
  }

  /** The request is for this set's repository, facet, audience and one of its roots, before the set expires. */
  predicate InScope(s: EdgeExtentSet, request: Request, now: int) {
    s.repositoryId == request.repositoryId && s.facet == request.facet && s.audience == request.audience &&
    request.contentRoot in s.contentRoots && 0 <= now < s.expiresAt
  }

  /** `verify` is verifying the token with the request fact injected, which yields its subject. */
  ghost predicate Serves(verify: Pin -> Result<string>, hash: bytes -> Array32, setBytes: bytes, request: Request,
                         now: int, e: EdgeExtent) {
    DecodeCanonical(setBytes).Ok? && verify(RequestPin(hash, setBytes, request)).Ok? &&
    InScope(DecodeCanonical(setBytes).value, request, now) && e in DecodeCanonical(setBytes).value.extents &&
        Asked(request, e)
  }

  method AuthorizeExtentRequest(verify: Pin -> Result<string>, hash: bytes -> Array32, setBytes: bytes,
      request: Request, now: int)
    returns (r: Result<AuthorizedExtent>)
    ensures r.Ok? <==> exists e :: Serves(verify, hash, setBytes, request, now, e)
    ensures r.Ok? ==>
              Serves(verify, hash, setBytes, request, now, r.value.extent) && r.value.audience == request.audience &&
              verify(RequestPin(hash, setBytes, request)) == Ok(r.value.subject)
  {
    hide DecodeCanonical, MatchesIn, EdgeOrder.Matches, ExactExtent, PacksConsistent, ExtentsOk;
    var extentSet :- EdgeCodec.Decode(setBytes);
    var subject :- verify(RequestPin(hash, setBytes, request));
    if extentSet.repositoryId != request.repositoryId || extentSet.facet != request.facet ||
       extentSet.audience != request.audience || request.contentRoot !in extentSet.contentRoots {
      return Err;
    }
    if now < 0 || now >= extentSet.expiresAt {
      return Err;
    }
    DecodedExtentsOk(setBytes);
    var found := ExactExtent(extentSet.extents, request.packId, request.etag, request.offset, request.length);
    if found.None? {
      forall e ensures !(e in extentSet.extents && Asked(request, e)) {
        ExactExtentFindsExactly(extentSet.extents, e, request.packId, request.etag, request.offset, request.length);
      }
      return Err;
    }
    ExactExtentFindsExactly(
      extentSet.extents, found.value, request.packId, request.etag, request.offset, request.length);
    assert Serves(verify, hash, setBytes, request, now, found.value);
    r := Ok(AuthorizedExtent(found.value, subject, extentSet.audience));
  }

  // ----- the check a minted token carries -----

  const EDGE_REQUEST := "edge_extent_request_v1"

  /** Text as the Datalog engine compares it, byte by byte. */
  function Chars(b: bytes): string { seq(|b|, i requires 0 <= i < |b| => b[i] as char) }

  lemma CharsInjective(a: bytes, b: bytes)
    requires Chars(a) == Chars(b)
    ensures a == b
  {
    forall i | 0 <= i < |a| ensures i < |b| && a[i] == b[i] {
      assert Chars(a)[i] == Chars(b)[i];
    }
  }

  function Pinned(name: string, value: bytes): Expr { Apply(Equal, Var(name), Text(Chars(value))) }

  /** `check if edge_extent_request_v1($repo, $facet, $audience, $digest)` with each variable equal to its pin. */
  function ScopeCheck(scope: ServingScope): Check {
    var pin := ScopePin(scope);
    Check([Rule(
      [Atom(EDGE_REQUEST, [Variable("repo"), Variable("facet"), Variable("audience"), Variable("digest")])],
      [Postfix(Pinned("repo", pin.repository)), Postfix(Pinned("facet", pin.facet)),
       Postfix(Pinned("audience", pin.audience)), Postfix(Pinned("digest", pin.digest))])])
  }

  function RequestFact(pin: Pin): Fact {
    Fact(EDGE_REQUEST, [Chars(pin.repository), Chars(pin.facet), Chars(pin.audience), Chars(pin.digest)])
  }

  /** No block may assert the request predicate itself, so the injected fact is the only one of its name. */
  ghost predicate Injected(world: set<Fact>, pin: Pin) {
    forall f | f in world && f.name == EDGE_REQUEST :: f == RequestFact(pin)
  }

  /** A token verifies only if the facts at hand satisfy the scope check minted into it. */
  ghost predicate Enforces(verify: Pin -> Result<string>, scope: ServingScope) {
    forall pin :: verify(pin).Ok? ==> exists world :: Injected(world, pin) && CheckHolds(ScopeCheck(scope), world)
  }

  lemma PinnedHolds(name: string, value: bytes, actual: bytes, env: Env)
    requires name in env && env[name] == Chars(actual) && True(Postfix(Pinned(name, value)), env)
    ensures actual == value
  {
    TreeResult(Pinned(name, value), env);
    CharsInjective(actual, value);
  }

  /** So the check compares all four values of the request with its own. */
  lemma CheckPins(scope: ServingScope, pin: Pin, world: set<Fact>)
    requires Injected(world, pin) && CheckHolds(ScopeCheck(scope), world)
    ensures pin == ScopePin(scope)
  {
    hide True, ScopePin, Pinned, Postfix, Chars;
    var rule := ScopeCheck(scope).queries[0];
    var env :| HoldsUnder(rule, world, env);
    var atom := rule.body[0];
    assert atom in rule.body;
    var f :| f in world && Datalog.Matches(atom, f, env);
    assert f == RequestFact(pin);
    assert forall i | 0 <= i < 4 :: TermMatches(atom.terms[i], f.args[i], env);
    assert TermMatches(Variable("repo"), f.args[0], env) && TermMatches(Variable("facet"), f.args[1], env);
    assert TermMatches(Variable("audience"), f.args[2], env) && TermMatches(Variable("digest"), f.args[3], env);
    assert forall i | 0 <= i < 4 :: rule.expressions[i] in rule.expressions;
    var wanted := ScopePin(scope);
    PinnedHolds("repo", wanted.repository, pin.repository, env);
    PinnedHolds("facet", wanted.facet, pin.facet, env);
    PinnedHolds("audience", wanted.audience, pin.audience, env);
    PinnedHolds("digest", wanted.digest, pin.digest, env);
  }

  /** And it admits the request that agrees with it on all four. */
  lemma CheckAdmits(scope: ServingScope, world: set<Fact>)
    requires RequestFact(ScopePin(scope)) in world
    ensures CheckHolds(ScopeCheck(scope), world)
  {
    hide ScopePin, Pinned, Postfix, Chars, True;
    var pin := ScopePin(scope);
    var rule := ScopeCheck(scope).queries[0];
    var env := map["repo" := Chars(pin.repository), "facet" := Chars(pin.facet), "audience" := Chars(pin.audience),
                   "digest" := Chars(pin.digest)];
    assert Datalog.Matches(rule.body[0], RequestFact(pin), env);
    PinnedTrue("repo", pin.repository, env);
    PinnedTrue("facet", pin.facet, env);
    PinnedTrue("audience", pin.audience, env);
    PinnedTrue("digest", pin.digest, env);
    assert HoldsUnder(rule, world, env);
    assert RuleHolds(ScopeCheck(scope).queries[0], world);
  }

  lemma PinnedTrue(name: string, value: bytes, env: Env)
    requires name in env && env[name] == Chars(value)
    ensures True(Postfix(Pinned(name, value)), env)
  {
    TreeResult(Pinned(name, value), env);
  }

  function ScopeOf(hash: bytes -> Array32, minted: EdgeExtentSet): ServingScope
    requires CanonicalBytes(minted).Ok?
  {
    ServingScope(minted.repositoryId, minted.facet, minted.audience, hash(CanonicalBytes(minted).value))
  }

  /** Under a token minted for an extent set, the edge serves exactly the extents of that set, whatever bytes
      travel beside the token, unless the hash itself collides on them. */
  lemma ServesExactlyTheMintedSet(
    verify: Pin -> Result<string>, hash: bytes -> Array32, minted: EdgeExtentSet, setBytes: bytes, request: Request,
    now: int, e: EdgeExtent)
    requires CanonicalBytes(minted).Ok? && Enforces(verify, ScopeOf(hash, minted))
    requires hash(setBytes) == hash(CanonicalBytes(minted).value) ==> setBytes == CanonicalBytes(minted).value
    ensures Serves(verify, hash, setBytes, request, now, e)
            <==> verify(ScopePin(ScopeOf(hash, minted))).Ok? && setBytes == CanonicalBytes(minted).value &&
                 request.repositoryId == minted.repositoryId && request.facet == minted.facet &&
                 request.audience == minted.audience && request.contentRoot in minted.contentRoots &&
                 0 <= now && now < minted.expiresAt && e in minted.extents && request.packId == e.packId &&
                 request.etag == e.etag && request.offset == e.offset && request.length == e.length
  {
    hide DecodeCanonical, CanonicalBytes, WellFormed, HexEncode, AsCanonical, ScopeCheck, CheckHolds,
      Injected;
    DecodeEncode(minted);
    NormalIsSorted(minted);
    assert forall x :: x in minted.extents <==> x in multiset(Normal(minted).extents);
    var pin := RequestPin(hash, setBytes, request);
    if verify(pin).Ok? {
      var world :| Injected(world, pin) && CheckHolds(ScopeCheck(ScopeOf(hash, minted)), world);
      CheckPins(ScopeOf(hash, minted), pin, world);
      HexInjective(hash(setBytes), hash(CanonicalBytes(minted).value));
    }
  }

  /** Each byte of the extent served lies in exactly one record of the whole set. */
  lemma ServedBytesHaveOneOwner(setBytes: bytes, e: EdgeExtent, p: int)
    requires DecodeCanonical(setBytes).Ok? && e in DecodeCanonical(setBytes).value.extents &&
            Within(p, e.offset, e.End())
    ensures var extents := DecodeCanonical(setBytes).value.extents;
            (exists i, r :: Owns(extents, e.packId, p, i, r)) &&
            forall i, r, j, q :: Owns(extents, e.packId, p, i, r) && Owns(extents, e.packId, p, j, q) ==>
                i == j && r == q
  {
    hide DecodeCanonical, Owns, PacksConsistent, ExtentsOk;
    var extents := DecodeCanonical(setBytes).value.extents;
    DecodedExtentsOk(setBytes);
    var k :| 0 <= k < |extents| && extents[k] == e;
    AuthorizedBytesAreOwned(extents, e.packId, p);
    forall i, r, j, q | Owns(extents, e.packId, p, i, r) && Owns(extents, e.packId, p, j, q) ensures i == j && r == q {
      OneOwner(extents, e.packId, p, i, r, j, q);
    }
  }
}
