/** What a verified token may do, and why a client-minted token may do no more than its envelope says. */
module Authority {
  import opened Bytes
  import opened Resource
  import opened Envelope

  type Rights = seq<Right<string>>

  /** Does `holds` hold at the resource or at one of its ancestors?  A kind with no hierarchy gets the literal check
      only. */
  predicate CoveredThroughInheritance(kind: string, path: string, holds: (string, string) -> bool) {
    holds(kind, path) ||
    match ParseKind(kind)
    case None => false
    case Some(start) =>
      var walk := WalkToRoot(start, path);
      exists i | 0 <= i < |walk| :: holds(KindName(walk[i].0), walk[i].1)
  }

  /** Everything asserted by the token's blocks that the fence or the access checks look at. */
  datatype BiscuitFacts = BiscuitFacts(
    sub: string,
    rights: Rights,
    isStaff: bool,
    staffMarkerPresent: bool,
    serviceAccountId: Option<string>,
    credentialId: Option<string>,
    deviceId: Option<string>,
    authorityDevicePopKeyPresent: bool,
    agentProvider: Option<string>,
    agentModel: Option<string>,
    act: Option<string>,
    subjectUserUuid: Option<string>,
    signupBootstrapEmail: Option<string>,
    bootstrapSession: bool,
    requestSignedSession: bool,
    rootEstablished: bool)
  {
    predicate HasRight(kind: string, path: string, action: string) {
      exists i | 0 <= i < |rights| :: rights[i] == Right(kind, path, action)
    }

    predicate HasAction(kind: string, path: string, action: string) {
      CoveredThroughInheritance(kind, path, (k, p) => HasRight(k, p, action))
    }

    predicate CanRead(kind: string, path: string) {
      isStaff || HasAction(kind, path, "read") || HasAction(kind, path, "write") || HasAction(kind, path, "admin")
    }

    predicate CanWrite(kind: string, path: string) {
      isStaff || HasAction(kind, path, "write") || HasAction(kind, path, "admin")
    }

    predicate IsAdminOn(kind: string, path: string) { isStaff || HasAction(kind, path, "admin") }
  }

  // ----- access, in terms of the rights and the walk -----

  /** The right is on the resource itself or, where its kind is known, on a resource the walk from it meets. */
  ghost predicate Reaches(right: Right<string>, kind: string, path: string) {
    (right.kind == kind && right.path == path) ||
    (ParseKind(kind).Some? &&
     exists step :: step in WalkToRoot(ParseKind(kind).value, path) &&
                    right.kind == KindName(step.0) && right.path == step.1)
  }

  lemma ActionReaches(facts: BiscuitFacts, kind: string, path: string, action: string)
    ensures facts.HasAction(kind, path, action) <==>
              exists r :: r in facts.rights && r.action == action && Reaches(r, kind, path)
  {
    hide WalkToRoot, Reaches, BiscuitFacts.HasAction;
    if facts.HasAction(kind, path, action) {
      var r := ReachingRight(facts, kind, path, action);
      assert r in facts.rights;
    }
    if r :| r in facts.rights && r.action == action && Reaches(r, kind, path) { RightReaches(facts, kind, path, r); }
  }

  lemma ReachingRight(facts: BiscuitFacts, kind: string, path: string, action: string) returns (r: Right<string>)
    requires facts.HasAction(kind, path, action)
    ensures r in facts.rights && r.action == action && Reaches(r, kind, path)
  {
    hide WalkToRoot;
    if facts.HasRight(kind, path, action) {
      r := Right(kind, path, action);
    } else {
      var walk := WalkToRoot(ParseKind(kind).value, path);
      var i :| 0 <= i < |walk| && facts.HasRight(KindName(walk[i].0), walk[i].1, action);
      assert walk[i] in walk;
      r := Right(KindName(walk[i].0), walk[i].1, action);
    }
  }

  lemma RightReaches(facts: BiscuitFacts, kind: string, path: string, r: Right<string>)
    requires r in facts.rights && Reaches(r, kind, path)
    ensures facts.HasAction(kind, path, r.action)
  {
    hide WalkToRoot;
    var j :| 0 <= j < |facts.rights| && facts.rights[j] == r;
    if r.kind == kind && r.path == path {
      assert facts.HasRight(kind, path, r.action);
    } else {
      var walk := WalkToRoot(ParseKind(kind).value, path);
      var step :| step in walk && r.kind == KindName(step.0) && r.path == step.1;
      var i :| 0 <= i < |walk| && walk[i] == step;
      assert facts.HasRight(KindName(walk[i].0), walk[i].1, r.action);
    }
  }

  /** Staff may do anything; anyone else needs a right of a sufficient action that reaches the resource. */
  lemma AccessIsExact(facts: BiscuitFacts, kind: string, path: string)
    ensures facts.isStaff ==> facts.CanRead(kind, path) && facts.CanWrite(kind, path) && facts.IsAdminOn(kind, path)
    ensures !facts.isStaff ==>
              (facts.CanRead(kind, path) <==>
               exists r :: r in facts.rights && r.action in {"read", "write", "admin"} && Reaches(r, kind, path))
    ensures !facts.isStaff ==>
              (facts.CanWrite(kind, path) <==>
               exists r :: r in facts.rights && r.action in {"write", "admin"} && Reaches(r, kind, path))
    ensures !facts.isStaff ==>
              (facts.IsAdminOn(kind, path) <==>
               exists r :: r in facts.rights && r.action == "admin" && Reaches(r, kind, path))
  {
    hide Reaches, CoveredThroughInheritance, BiscuitFacts.HasAction;
    ActionReaches(facts, kind, path, "read");
    ActionReaches(facts, kind, path, "write");
    ActionReaches(facts, kind, path, "admin");
  }

  /** Rights to read alone let nobody write or administer anything, anywhere. */
  lemma ReadersCannotWrite(facts: BiscuitFacts, kind: string, path: string)
    requires !facts.isStaff && forall r | r in facts.rights :: r.action == "read"
    ensures !facts.CanWrite(kind, path) && !facts.IsAdminOn(kind, path)
  {
    hide Reaches, BiscuitFacts.CanWrite, BiscuitFacts.IsAdminOn, BiscuitFacts.CanRead;
    AccessIsExact(facts, kind, path);
  }

  // ----- staff standing as extracted from the blocks -----

  datatype BlockFact = BlockFact(name: string, truth: Option<bool>)

  /** The authority block first; an operator marker is a `staff` fact, trusted only there and only with one boolean. */
  predicate StaffMarkerPresent(blocks: seq<seq<BlockFact>>) {
    exists i | 0 <= i < |blocks| :: exists j | 0 <= j < |blocks[i]| :: blocks[i][j].name == "staff"
  }

  predicate IsStaff(blocks: seq<seq<BlockFact>>) {
    |blocks| > 0 && exists j | 0 <= j < |blocks[0]| :: blocks[0][j].name == "staff" && blocks[0][j].truth.Some?
  }

  ghost predicate Extracted(facts: BiscuitFacts, blocks: seq<seq<BlockFact>>) {
    facts.isStaff == IsStaff(blocks) && facts.staffMarkerPresent == StaffMarkerPresent(blocks)
  }

  // ----- client-minted tokens -----

  predicate ActionImplies(envelope: string, requested: string) {
    envelope == requested ||
    (envelope == "admin" && requested == "write") ||
    (envelope == "admin" && requested == "read") ||
    (envelope == "write" && requested == "read")
  }

  predicate EnvelopeCovers(envelope: Rights, right: Right<string>) {
    exists i | 0 <= i < |envelope| ::
      envelope[i].kind == right.kind && envelope[i].path == right.path &&
          ActionImplies(envelope[i].action, right.action)
  }

  /** No fact a client may not mint for itself. */
  predicate IdentityClean(facts: BiscuitFacts) {
    !facts.staffMarkerPresent && facts.serviceAccountId.None? && facts.credentialId.None? && facts.deviceId.None? &&
    !facts.authorityDevicePopKeyPresent && facts.agentProvider.None? && facts.agentModel.None? && facts.act.None? &&
    facts.subjectUserUuid.None? && facts.signupBootstrapEmail.None? && !facts.bootstrapSession &&
    !facts.requestSignedSession && !facts.rootEstablished
  }

  /** What the verifier is given besides the bytes received and the time: the range of its date library, its
      signature scheme and trusted keys, how bytes become text, and authorizing the token under a device key. */
  datatype Verifier = Verifier(
    representable: i64 -> bool, scheme: Scheme, trust: seq<bytes>, text: Text -> string,
    authorize: Array32 -> Result<BiscuitFacts>)

  predicate Before(a: Instant, b: Instant) { a.seconds < b.seconds || (a.seconds == b.seconds && a.nanos < b.nanos) }

  function RightsOf(v: Verifier, envelope: GrantEnvelope): (rights: Rights)
    ensures |rights| == |envelope.rights|
  {
    seq(|envelope.rights|, i requires 0 <= i < |envelope.rights| =>
      var r := envelope.rights[i];
      Right(v.text(r.kind), v.text(r.path), v.text(r.action)))
  }

  ghost predicate AllCovered(rights: Rights, facts: BiscuitFacts) {
    forall i | 0 <= i < |facts.rights| :: EnvelopeCovers(rights, facts.rights[i])
  }

  /** The bytes received are a grant envelope's, as received they were signed under a trusted key, and the envelope
      has not expired. */
  ghost predicate Granted(v: Verifier, raw: bytes, now: Instant) {
    FromBytes(raw, v.representable).Ok? &&
    SignedBy(v.scheme, v.trust, raw[..|raw| - SIGNATURE_LEN], raw[|raw| - SIGNATURE_LEN..]) &&
    Before(now, FromBytes(raw, v.representable).value.envelope.expiresAt)
  }

  ghost predicate Accepts(v: Verifier, raw: bytes, now: Instant, facts: BiscuitFacts) {
    Granted(v, raw, now) &&
    var envelope := FromBytes(raw, v.representable).value.envelope;
    v.authorize(envelope.devicePubkey) == Ok(facts) && IdentityClean(facts) &&
    facts.sub == v.text(envelope.subject) && AllCovered(RightsOf(v, envelope), facts)
  }

  /** The client-minted path, from the envelope's bytes. */
  method VerifyClientMinted(v: Verifier, raw: bytes, now: Instant) returns (r: Result<BiscuitFacts>)
    ensures r.Ok? <==> exists facts :: Accepts(v, raw, now, facts)
    ensures r.Ok? ==> Accepts(v, raw, now, r.value)
  {
    hide FromBytes, SignedBy, CanonicalPayload, IdentityClean, EnvelopeCovers;
    var received :- ReceiveBytes(raw, v.representable);
    ReceivedBytesAreWhatWasSigned(raw, v.representable, v.scheme, v.trust);
    var signed := VerifySignature(received, v.scheme, v.trust);
    if !signed || !Before(now, received.envelope.expiresAt) {
      return Err;
    }
    var facts :- v.authorize(received.envelope.devicePubkey);
    if !IdentityClean(facts) || facts.sub != v.text(received.envelope.subject) {
      return Err;
    }
    var rights := RightsOf(v, received.envelope);
    for i := 0 to |facts.rights|
      invariant forall j | 0 <= j < i :: EnvelopeCovers(rights, facts.rights[j])
    {
      if !EnvelopeCovers(rights, facts.rights[i]) {
        return Err;
      }
    }
    assert Accepts(v, raw, now, facts);
    r := Ok(facts);
  }

  // ----- containment -----

  /** Someone holding exactly these rights and no operator standing. */
  function Holder(rights: Rights): BiscuitFacts {
    BiscuitFacts("", rights, false, false, None, None, None, false, None, None, None, None, None, false, false, false)
  }

  /** An accepted token asserts nothing about who bears it but its subject: the rest is what a plain holder of its
      rights would have.  Operator standing is gone too, since no block carries the marker. */
  lemma AcceptedIsPlain(v: Verifier, raw: bytes, now: Instant, facts: BiscuitFacts, blocks: seq<seq<BlockFact>>)
    requires Extracted(facts, blocks) && Accepts(v, raw, now, facts)
    ensures facts == Holder(facts.rights).(sub := facts.sub)
    ensures forall i, j | 0 <= i < |blocks| && 0 <= j < |blocks[i]| :: blocks[i][j].name != "staff"
  {
    hide FromBytes, SignedBy, EnvelopeCovers;
  }

  /** Coverage is exact: of the three actions one covers another precisely when holding it gives every access that
      holding the other does. */
  lemma CoverageIsByAccess(envelope: string, requested: string, kind: string, path: string)
    requires envelope in {"read", "write", "admin"} && requested in {"read", "write", "admin"}
    ensures var more, less := Holder([Right(kind, path, envelope)]), Holder([Right(kind, path, requested)]);
            ActionImplies(envelope, requested) <==>
              (less.CanRead(kind, path) ==> more.CanRead(kind, path)) &&
              (less.CanWrite(kind, path) ==> more.CanWrite(kind, path)) &&
              (less.IsAdminOn(kind, path) ==> more.IsAdminOn(kind, path))
  {
    OneRight(kind, path, envelope);
    OneRight(kind, path, requested);
  }

  lemma OneRight(kind: string, path: string, action: string)
    ensures var holder := Holder([Right(kind, path, action)]);
            (holder.CanRead(kind, path) <==> action in {"read", "write", "admin"}) &&
            (holder.CanWrite(kind, path) <==> action in {"write", "admin"}) &&
            (holder.IsAdminOn(kind, path) <==> action == "admin")
  {
    hide BiscuitFacts.CanRead, BiscuitFacts.CanWrite, BiscuitFacts.IsAdminOn, WalkToRoot;
    var right := Right(kind, path, action);
    AccessIsExact(Holder([right]), kind, path);
    assert right in [right] && Reaches(right, kind, path);
    assert forall r :: r in [right] <==> r == right;
  }

  /** An envelope is good strictly before its expiry, to the nanosecond. */
  lemma BeforeIsEarlier(a: Instant, b: Instant)
    requires a.nanos < 1_000_000_000 && b.nanos < 1_000_000_000
    ensures Before(a, b) <==> a.seconds * 1_000_000_000 + a.nanos < b.seconds * 1_000_000_000 + b.nanos
  {}

  lemma CoverageSplits(kind: string, path: string, p: (string, string) -> bool, q: (string, string) -> bool,
                       r: (string, string) -> bool, s: (string, string) -> bool)
    requires forall k, t :: p(k, t) ==> q(k, t) || r(k, t) || s(k, t)
    ensures CoveredThroughInheritance(kind, path, p) ==>
              CoveredThroughInheritance(kind, path, q) || CoveredThroughInheritance(kind, path, r) ||
              CoveredThroughInheritance(kind, path, s)
  {}

  /** A covered right is held, in the same place, at one of the actions that imply it. */
  lemma HeldAtSomeStrength(facts: BiscuitFacts, rights: Rights, kind: string, path: string)
    requires AllCovered(rights, facts)
    ensures facts.HasRight(kind, path, "admin") ==> Holder(rights).HasRight(kind, path, "admin")
    ensures facts.HasRight(kind, path, "write") ==>
              Holder(rights).HasRight(kind, path, "write") || Holder(rights).HasRight(kind, path, "admin")
    ensures facts.HasRight(kind, path, "read") ==>
              Holder(rights).HasRight(kind, path, "read") || Holder(rights).HasRight(kind, path, "write") ||
              Holder(rights).HasRight(kind, path, "admin")
  {
    forall i | 0 <= i < |facts.rights| && facts.rights[i].kind == kind && facts.rights[i].path == path
      ensures exists j :: 0 <= j < |rights| && ActionImplies(rights[j].action, facts.rights[i].action) &&
                          rights[j] == Right(kind, path, rights[j].action)
    {
      assert EnvelopeCovers(rights, facts.rights[i]);
      var j :| 0 <= j < |rights| && rights[j].kind == kind && rights[j].path == path &&
               ActionImplies(rights[j].action, facts.rights[i].action);
      assert rights[j] == Right(kind, path, rights[j].action);
    }
  }

  /** Whatever an accepted client-minted token may read, write or administer, through the whole inheritance walk, a
      non-staff holder of the rights in the signed bytes received may too. */
  lemma ClientMintedIsContained(
    v: Verifier, raw: bytes, now: Instant, facts: BiscuitFacts, blocks: seq<seq<BlockFact>>, kind: string, path: string)
    requires Extracted(facts, blocks) && Accepts(v, raw, now, facts)
    ensures Granted(v, raw, now)
    ensures var holder := Holder(RightsOf(v, FromBytes(raw, v.representable).value.envelope));
            (facts.CanRead(kind, path) ==> holder.CanRead(kind, path)) &&
            (facts.CanWrite(kind, path) ==> holder.CanWrite(kind, path)) &&
            (facts.IsAdminOn(kind, path) ==> holder.IsAdminOn(kind, path))
  {
    hide CoveredThroughInheritance, EnvelopeCovers, FromBytes, SignedBy;
    var rights := RightsOf(v, FromBytes(raw, v.representable).value.envelope);
    var holder := Holder(rights);
    assert !facts.isStaff;
    var admin := (k, p) => holder.HasRight(k, p, "admin");
    var write := (k, p) => holder.HasRight(k, p, "write");
    var read := (k, p) => holder.HasRight(k, p, "read");
    forall k, p { HeldAtSomeStrength(facts, rights, k, p); }
    CoverageSplits(kind, path, (k, p) => facts.HasRight(k, p, "admin"), admin, admin, admin);
    CoverageSplits(kind, path, (k, p) => facts.HasRight(k, p, "write"), write, admin, admin);
    CoverageSplits(kind, path, (k, p) => facts.HasRight(k, p, "read"), read, write, admin);
  }
}
