/** Signed bodies determine what was signed: each layout is injective on the objects it accepts. */
module SigningInjectivity {
  import opened Bytes
  import opened SigningBodies

  /** The policy as signed: an absent recovery window is the default one. */
  function NormalPolicy(p: Option<RecoveryPolicy>): Option<RecoveryPolicy> {
    if p.Some? then Some(p.value.(windowSecs := Some(EffectiveWindow(p.value)))) else None
  }

  lemma KeyInjective()
    ensures InjectiveOn(PutKey, KeyOk)
  {
    hide PutI32, PutBlob;
  }

  lemma GuardianInjective()
    ensures InjectiveOn(PutGuardian, GuardianOk)
  {
    hide PutI32, PutKey;
    KeyInjective();
  }

  lemma PolicyInjective(p: RecoveryPolicy, q: RecoveryPolicy, r: bytes, s: bytes)
    requires |p.guardians| <= MAX_U32 && forall g | g in p.guardians :: GuardianOk(g)
    requires |q.guardians| <= MAX_U32 && forall g | g in q.guardians :: GuardianOk(g)
    requires PutPolicy(p, r) == PutPolicy(q, s)
    ensures NormalPolicy(Some(p)) == NormalPolicy(Some(q)) && r == s
  {
    hide PutU32, PutU64, PutGuardian, GuardianOk;
    GuardianInjective();
    PutManyInjective(PutGuardian, GuardianOk, p.guardians, q.guardians,
      PutU64(EffectiveWindow(p), r), PutU64(EffectiveWindow(q), s));
  }

  // ----- owner roots and key transitions -----

  function NormalRoot(root: OwnerRoot): OwnerRoot { root.(recoveryPolicy := NormalPolicy(root.recoveryPolicy)) }

  lemma RootAfterIdInjective(keyId: bytes -> Array32, x: OwnerRoot, y: OwnerRoot)
    requires RootOk(keyId, x) && RootOk(keyId, y)
    ensures PutRootAfterId(x, []) == PutRootAfterId(y, [])
            <==> NormalRoot(x) == NormalRoot(y).(formatVersion := x.formatVersion, ownerId := x.ownerId)
  {
    hide PutU8, PutI64, PutBlob, PutKey, KeyOk, PutPolicy, GuardiansOrdered;
    KeyInjective();
    var p, q := x.recoveryPolicy.value, y.recoveryPolicy.value;
    var r := PutBool(x.claimableDeferredHuman, PutBlob(x.nonce, PutI64(x.claimableUntil, [])));
    var s := PutBool(y.claimableDeferredHuman, PutBlob(y.nonce, PutI64(y.claimableUntil, [])));
    if PutRootAfterId(x, []) == PutRootAfterId(y, []) {
      assert PutKey(x.authorityKey.value, PutPolicy(p, r)) == PutKey(y.authorityKey.value, PutPolicy(q, s));
      PolicyInjective(p, q, r, s);
    }
    assert NormalPolicy(Some(p)) == NormalPolicy(Some(q)) ==> PutPolicy(p, r) == PutPolicy(q, r) by {
      SamePolicyBytes(p, q, r);
    }
  }

  lemma SamePolicyBytes(p: RecoveryPolicy, q: RecoveryPolicy, rest: bytes)
    ensures NormalPolicy(Some(p)) == NormalPolicy(Some(q)) ==> PutPolicy(p, rest) == PutPolicy(q, rest)
  {}

  /** An owner root's identifier and state hash each commit to exactly the root's fields. */
  lemma RootBodyInjective(keyId: bytes -> Array32, x: OwnerRoot, y: OwnerRoot)
    requires RootBody(keyId, x).Ok? && RootBody(keyId, y).Ok?
    ensures RootBody(keyId, x) == RootBody(keyId, y) <==> NormalRoot(x) == NormalRoot(y)
    ensures RootWithoutId(keyId, x).Ok? && RootWithoutId(keyId, y).Ok?
    ensures RootWithoutId(keyId, x) == RootWithoutId(keyId, y)
            <==> NormalRoot(x) == NormalRoot(y).(ownerId := x.ownerId)
  {
    hide PutU32, PutBlob, PutRootAfterId, RootOk;
    RootAfterIdInjective(keyId, x, y);
  }

  /** Both bodies are hashed under one domain.  They can coincide only if the account identifier of one is as long as
      the owner identifier of the other. */
  lemma RootBodiesApart(keyId: bytes -> Array32, x: OwnerRoot, y: OwnerRoot)
    requires RootWithoutId(keyId, x).Ok? && RootBody(keyId, y).Ok?
    ensures RootWithoutId(keyId, x) == RootBody(keyId, y) ==> x.accountUuid == y.ownerId
  {
    hide PutU32, PutBlob, PutRequired, PutI64, PutBool, KeyOk, PolicyOk;
    assert forall rest :: GetBlob(PutBlob(y.ownerId, rest)) == Some(Split(y.ownerId, rest));
    assert forall rest :: GetBlob(PutBlob(x.accountUuid, rest)) == Some(Split(x.accountUuid, rest));
  }

  /** Roots whose account and owner identifiers have these lengths, with one body for both uses. */
  ghost predicate RootsMeet(keyId: bytes -> Array32, account: nat, owner: nat) {
    exists x: OwnerRoot, y: OwnerRoot :: |x.accountUuid| == account && |y.ownerId| == owner &&
                   RootWithoutId(keyId, x).Ok? && RootWithoutId(keyId, x) == RootBody(keyId, y)
  }

  /** So the two uses are kept apart for all roots of given lengths if and only if those lengths differ. */
  lemma RootBodiesApartExactly(keyId: bytes -> Array32, account: nat, owner: nat)
    requires account <= MAX_U32 && owner <= MAX_U32
    ensures RootsMeet(keyId, account, owner) <==> account == owner
  {
    hide RootWithoutId, RootBody;
    if RootsMeet(keyId, account, owner) {
      var x: OwnerRoot, y: OwnerRoot :| |x.accountUuid| == account && |y.ownerId| == owner &&
                  RootWithoutId(keyId, x).Ok? && RootWithoutId(keyId, x) == RootBody(keyId, y);
      RootBodiesApart(keyId, x, y);
    }
    if account == owner {
      var policy := RecoveryPolicy(0, [], None);
      var root := OwnerRoot(0, [], seq(account, _ => 0), Some(Key(0, [])), Some(policy), false, [], 0);
      assert HasPolicy(keyId, Some(policy));
      RootBodiesMeet(keyId, root);
    }
  }

  /** From every root whose account identifier stands in for an owner identifier, two roots can be made whose bodies
      do coincide. */
  lemma RootBodiesMeet(keyId: bytes -> Array32, root: OwnerRoot)
    requires RootOk(keyId, root)
    ensures var x := root.(authorityKey := Some(Key(0, [0, 0, 0, 0])));
            var y := root.(ownerId := root.accountUuid, accountUuid := [], authorityKey := Some(Key(4, [])));
            RootWithoutId(keyId, x).Ok? && RootWithoutId(keyId, x) == RootBody(keyId, y)
  {
    hide PutPolicy, PolicyOk, PutI64, PutBool;
    var rest := PutPolicy(root.recoveryPolicy.value,
      PutBool(root.claimableDeferredHuman, PutBlob(root.nonce, PutI64(root.claimableUntil, []))));
    KeysMeet(rest);
  }

  lemma KeysMeet(rest: bytes)
    ensures PutKey(Key(0, [0, 0, 0, 0]), rest) == PutBlob([], PutKey(Key(4, []), rest))
  {
    hide PutInt, GetInt;
    ZeroWord(rest);
    assert PutRaw([0, 0, 0, 0], rest) == [0, 0, 0, 0] + rest;
    assert PutRaw([], PutKey(Key(4, []), rest)) == PutKey(Key(4, []), rest);
    assert PutRaw([], rest) == rest;
  }

  lemma ZeroWord(rest: bytes)
    ensures PutU32(0, rest) == [0, 0, 0, 0] + rest
  {
    assert ToBE(1, 0) == [0] && ToBE(2, 0) == [0, 0] && ToBE(3, 0) == [0, 0, 0] && ToBE(4, 0) == [0, 0, 0, 0];
  }

  function NormalTransition(t: Transition): Transition { t.(nextRecoveryPolicy := NormalPolicy(t.nextRecoveryPolicy)) }

  lemma TransitionBodyInjective(keyId: bytes -> Array32, x: Transition, y: Transition)
    requires TransitionBody(keyId, x).Ok? && TransitionBody(keyId, y).Ok?
    ensures TransitionBody(keyId, x) == TransitionBody(keyId, y) <==> NormalTransition(x) == NormalTransition(y)
  {
    hide PutU32, PutU64, PutI32, PutI64, PutBlob, PutKey, KeyOk, PutPolicy, GuardiansOrdered;
    KeyInjective();
    var p, q := x.nextRecoveryPolicy.value, y.nextRecoveryPolicy.value;
    var r := PutI64(x.validFrom, PutI64(x.previousKeyValidUntil, PutBlob(x.nonce, [])));
    var s := PutI64(y.validFrom, PutI64(y.previousKeyValidUntil, PutBlob(y.nonce, [])));
    if TransitionBody(keyId, x) == TransitionBody(keyId, y) {
      assert PutKey(x.nextAuthorityKey.value, PutPolicy(p, r)) == PutKey(y.nextAuthorityKey.value, PutPolicy(q, s));
      PolicyInjective(p, q, r, s);
    }
    SamePolicyBytes(p, q, r);
  }

  // ----- capabilities -----

  lemma SegmentInjective()
    ensures InjectiveOn(PutSegment, SegmentOk)
  {
    hide PutBlob, IsUtf8;
  }

  lemma SelectorInjective()
    ensures InjectiveOn(PutSelector, SelectorOk)
  {
    hide PutU8, PutU32, PutBlob, PutSegment, SegmentOk, PutMany;
    SegmentInjective();
    forall a, b, r, s | SelectorOk(a) && SelectorOk(b) && PutSelector(a, r) == PutSelector(b, s)
      ensures a == b && r == s
    {
      PutManyInjective(PutSegment, SegmentOk, a.pathSegments, b.pathSegments,
        PutBool(a.includeDescendants, r), PutBool(b.includeDescendants, s));
    }
  }

  lemma PrincipalInjective()
    ensures InjectiveOn(PutPrincipal, PrincipalOk)
  {
    hide PutU8, PutI32, PutBlob, PutKey, KeyOk;
    KeyInjective();
  }

  lemma IdentityInjective()
    ensures InjectiveOn(PutIdentity, IdentityOk)
  {
    hide PutU8, PutBlob;
  }

  lemma ScopeInjective()
    ensures InjectiveOn(PutScope, ScopeOk)
  {
    hide PutU32, PutBlob, PutIdentity, IdentityOk;
    IdentityInjective();
  }

  /** The action just written decides whether a scope follows, so its absence needs no marker. */
  lemma GrantInjective(acceptTimelineOrigin: i32)
    ensures InjectiveOn(PutGrant, g => GrantOk(acceptTimelineOrigin, g))
  {
    hide PutU8, PutI32, PutSelector, SelectorOk, PutScope, ScopeOk;
    SelectorInjective();
    ScopeInjective();
  }

  /** Without that rule the layout is ambiguous: some scopeless grant of the scoped action, followed by
      suitable bytes, reads as that grant with a scope. */
  lemma ScopelessAcceptWouldBeAmbiguous(acceptTimelineOrigin: i32, g: Grant, scope: TimelineScope, rest: bytes)
    requires g.action == acceptTimelineOrigin && g.timelineAcceptance.None?
    ensures PutGrant(g, PutBool(true, PutScope(scope, rest))) == PutGrant(g.(timelineAcceptance := Some(scope)), rest)
  {}

  lemma CapabilityLayoutInjective(accept: i32, x: Capability, y: Capability, r: bytes, s: bytes)
    requires CapabilityOk(accept, x) && CapabilityOk(accept, y)
    requires PutCapability(x, r) == PutCapability(y, s)
    ensures x == y.(capabilityId := x.capabilityId) && r == s
  {
    hide PutU32, PutI64, PutBlob, PutPrincipal, PrincipalOk, PutGrant, GrantOk, PutMany;
    PrincipalInjective();
    GrantInjective(accept);
    PutManyInjective(PutGrant, g => GrantOk(accept, g), x.grants, y.grants,
      PutI64(x.notBefore, PutI64(x.expiresAt, PutBlob(x.nonce, r))),
      PutI64(y.notBefore, PutI64(y.expiresAt, PutBlob(y.nonce, s))));
  }

  /** The signed body fixes a whole capability; the body its identifier is taken over fixes everything else. */
  lemma CapabilityBodyInjective(accept: i32, x: Capability, y: Capability)
    requires CapabilityFields(accept, x, true).Ok? && CapabilityFields(accept, y, true).Ok?
    ensures CapabilityFields(accept, x, true) == CapabilityFields(accept, y, true) <==> x == y
    ensures CapabilityFields(accept, x, false).Ok? && CapabilityFields(accept, y, false).Ok?
    ensures CapabilityFields(accept, x, false) == CapabilityFields(accept, y, false)
            <==> x == y.(capabilityId := x.capabilityId)
  {
    hide PutBlob, CapabilityOk;
    if CapabilityFields(accept, x, false) == CapabilityFields(accept, y, false) {
      CapabilityLayoutInjective(accept, x, y, [], []);
    }
    if CapabilityFields(accept, x, true) == CapabilityFields(accept, y, true) {
      CapabilityLayoutInjective(accept, x, y, PutBlob(x.capabilityId, []), PutBlob(y.capabilityId, []));
    }
  }

  /** Both bodies are hashed under one domain, and never coincide: the identifier is always written last. */
  lemma CapabilityBodiesApart(accept: i32, x: Capability, y: Capability)
    requires CapabilityFields(accept, x, false).Ok? && CapabilityFields(accept, y, true).Ok?
    ensures CapabilityFields(accept, x, false) != CapabilityFields(accept, y, true)
  {
    hide CapabilityOk, PutCapability;
    if CapabilityFields(accept, x, false) == CapabilityFields(accept, y, true) {
      CapabilityLayoutInjective(accept, x, y, [], PutBlob(y.capabilityId, []));
      assert false;
    }
  }

  // ----- bindings and transfers -----

  lemma BindingBodyInjective(x: OwnerBinding, y: OwnerBinding)
    requires BindingBody(x).Ok? && BindingBody(y).Ok?
    ensures BindingBody(x) == BindingBody(y) <==> x == y
  {
    hide PutU32, PutU64, PutI32, PutBlob, PutKey, KeyOk;
    KeyInjective();
  }

  lemma HandoffBodyInjective(x: Handoff, y: Handoff)
    requires HandoffBody(x).Ok? && HandoffBody(y).Ok?
    ensures HandoffBody(x) == HandoffBody(y) <==> x == y
  {
    hide PutU32, PutU64, PutBlob;
  }

  lemma CountersignedInjective(a: bytes, x: Option<Signature>, r: bytes, b: bytes, y: Option<Signature>, s: bytes)
    requires Countersigned(a, x, r).Ok? && Countersigned(a, x, r) == Countersigned(b, y, s)
    ensures a == b && x == y && r == s
  {
    hide PutBlob;
  }

  /** The destination's signature covers the source's handoff and the source's signature over it. */
  lemma AcceptanceBodyInjective(x: Transfer, y: Transfer)
    requires AcceptanceBody(x).Ok? && AcceptanceBody(y).Ok?
    ensures AcceptanceBody(x) == AcceptanceBody(y)
            <==> x.acceptance.value.signedHandoff == y.acceptance.value.signedHandoff
  {
    hide HandoffBody, Countersigned;
    var a, b := x.acceptance.value.signedHandoff.value, y.acceptance.value.signedHandoff.value;
    HandoffBodyInjective(a.handoff.value, b.handoff.value);
    if AcceptanceBody(x) == AcceptanceBody(y) {
      CountersignedInjective(HandoffBody(a.handoff.value).value, a.sourceSignature, [],
        HandoffBody(b.handoff.value).value, b.sourceSignature, []);
    }
  }

  /** The audit chain's hash covers the whole transfer, both signatures, and the record before it. */
  lemma AuditBodyInjective(x: AuditRecord, y: AuditRecord)
    requires AuditBody(x).Ok? && AuditBody(y).Ok?
    ensures AuditBody(x) == AuditBody(y) <==> x == y
  {
    hide PutI64, PutBlob, AcceptanceBody, Countersigned;
    if AuditBody(x) == AuditBody(y) {
      var a, b := x.transfer.value, y.transfer.value;
      CountersignedInjective(
        AcceptanceBody(a).value, a.acceptance.value.destinationSignature,
        PutI64(x.committedAt, PutBlob(x.previousAuditRecordHash, [])),
        AcceptanceBody(b).value, b.acceptance.value.destinationSignature,
        PutI64(y.committedAt, PutBlob(y.previousAuditRecordHash, [])));
      AcceptanceBodyInjective(a, b);
    }
  }

  // ----- creation statements and mint-root attachments -----

  lemma CreationBodyInjective(curve: Key -> bool, x: SpoolCreation, y: SpoolCreation)
    requires CreationBody(curve, x).Ok? && CreationBody(curve, y).Ok?
    ensures CreationBody(curve, x) == CreationBody(curve, y) <==> x == y
  {
    hide PutU32, PutU64, PutI64, PutBlob, PutKey, KeyOk, PutSegment, PutMany, IsUtf8, SegmentOk, AccountOk,
        PathSegmentOk;
    KeyInjective();
    SegmentInjective();
    if CreationBody(curve, x) == CreationBody(curve, y) {
      KeysFit(curve, x.creatorKey);
      KeysFit(curve, y.creatorKey);
      SegmentsFit(x.parentPathSegments, x.name);
      SegmentsFit(y.parentPathSegments, y.name);
      ParentsFit(x.accountUuid, x.parentSpoolUuid);
      ParentsFit(y.accountUuid, y.parentSpoolUuid);
      PutManyInjective(PutSegment, SegmentOk, x.parentPathSegments, y.parentPathSegments,
        PutBlob(x.name, PutI64(x.createdAt, [])), PutBlob(y.name, PutI64(y.createdAt, [])));
    }
  }

  lemma KeysFit(curve: Key -> bool, k: Option<Key>)
    ensures ValidKey(curve, k) ==> KeyOk(k.value)
  {}

  lemma SegmentsFit(segments: seq<Text>, name: Text)
    requires PathSegmentsOk(segments) && PathSegmentOk(name)
    ensures |segments| <= MAX_U32 && (forall s | s in segments :: SegmentOk(s)) && Fits(name)
  {
    hide IsUtf8;
  }

  lemma ParentsFit(account: bytes, parent: bytes)
    requires AccountOk(account) && (parent != [] ==> AccountOk(parent))
    ensures Fits(account) && Fits(parent)
  {}

  lemma MintRootBodyInjective(curve: Key -> bool, x: MintRoot, y: MintRoot)
    requires MintRootBody(curve, x).Ok? && MintRootBody(curve, y).Ok?
    ensures MintRootBody(curve, x) == MintRootBody(curve, y) <==> x == y
  {
    hide PutU32, PutU64, PutI64, PutBlob, PutKey, AccountOk;
    KeyInjective();
    ParentsFit(x.accountUuid, []);
    ParentsFit(y.accountUuid, []);
  }
}
