/** Readers of the signed bodies, field after field, and what each body says to them. */
module SigningReaders {
  import opened Bytes
  import opened SigningBodies
  import opened SigningInjectivity

  /** The whole of `b` must be read. */
  function All<T>(read: Option<Split<T>>): Option<T> {
    var Split(value, rest) :- read;
    if rest == [] then Some(value) else None
  }

  function GetBool(b: bytes): Option<Split<bool>> {
    var Split(n, rest) :- GetU8(b);
    if n > 1 then None else Some(Split(n == 1, rest))
  }

  lemma BoolReadsBack(v: bool, rest: bytes)
    ensures GetBool(PutBool(v, rest)) == Some(Split(v, rest))
  {}

  // ----- keys and policies -----

  function GetKey(b: bytes): Option<Split<Key>> {
    var Split(algorithm, b1) :- GetI32(b);
    var Split(publicKey, rest) :- GetBlob(b1);
    Some(Split(Key(algorithm, publicKey), rest))
  }

  lemma KeyReadsBack(k: Key, rest: bytes)
    requires KeyOk(k)
    ensures GetKey(PutKey(k, rest)) == Some(Split(k, rest))
  {
    hide PutI32, PutBlob, GetI32, GetBlob;
  }

  /** A key's digest is over its algorithm in four bytes and then the key itself, to the end. */
  lemma KeyBodyReadsBack(k: Key)
    ensures GetI32(KeyBody(k)) == Some(Split(k.algorithm, k.publicKey))
  {
    hide PutI32, GetI32;
  }

  function GetGuardian(b: bytes): Option<Split<Guardian>> {
    var Split(kind, b1) :- GetI32(b);
    var Split(key, rest) :- GetKey(b1);
    Some(Split(Guardian(kind, Some(key)), rest))
  }

  lemma GuardianReadsBack(g: Guardian, rest: bytes)
    requires GuardianOk(g)
    ensures GetGuardian(PutGuardian(g, rest)) == Some(Split(g, rest))
  {
    hide PutI32, GetI32, PutKey, GetKey, KeyOk;
    KeyReadsBack(g.key.value, rest);
  }

  function GetGuardians(b: bytes): Option<Split<seq<Guardian>>> {
    var Split(count, b1) :- GetU32(b);
    GetMany(GetGuardian, count, b1)
  }

  function GetPolicy(b: bytes): Option<Split<RecoveryPolicy>> {
    var Split(threshold, b1) :- GetU32(b);
    var Split(guardians, b2) :- GetGuardians(b1);
    var Split(windowSecs, rest) :- GetU64(b2);
    Some(Split(RecoveryPolicy(threshold, guardians, Some(windowSecs)), rest))
  }

  lemma PolicyReadsBack(keyId: bytes -> Array32, p: RecoveryPolicy, rest: bytes)
    requires PolicyOk(keyId, p)
    ensures GetPolicy(PutPolicy(p, rest)) == Some(Split(NormalPolicy(Some(p)).value, rest))
  {
    hide PutU32, GetU32, PutU64, GetU64, PutGuardian, GetGuardian, GuardianOk, GuardiansOrdered;
    forall g, more | g in p.guardians ensures GetGuardian(PutGuardian(g, more)) == Some(Split(g, more)) {
      GuardianReadsBack(g, more);
    }
    GetPutMany(PutGuardian, GetGuardian, p.guardians, PutU64(EffectiveWindow(p), rest));
  }

  // ----- owner roots and key transitions -----

  /** A root's fields after its version and, where it is written, its owner identifier. */
  function GetRootFields(formatVersion: u32, ownerId: bytes, b: bytes): Option<Split<OwnerRoot>> {
    var Split(accountUuid, b1) :- GetBlob(b);
    var Split(authorityKey, b2) :- GetKey(b1);
    var Split(recoveryPolicy, b3) :- GetPolicy(b2);
    var Split(claimableDeferredHuman, b4) :- GetBool(b3);
    var Split(nonce, b5) :- GetBlob(b4);
    var Split(claimableUntil, rest) :- GetI64(b5);
    Some(Split(OwnerRoot(formatVersion, ownerId, accountUuid, Some(authorityKey), Some(recoveryPolicy),
      claimableDeferredHuman, nonce, claimableUntil), rest))
  }

  function ReadRoot(b: bytes): Option<OwnerRoot> {
    var Split(formatVersion, b1) :- GetU32(b);
    var Split(ownerId, b2) :- GetBlob(b1);
    All(GetRootFields(formatVersion, ownerId, b2))
  }

  /** The body the owner identifier is taken over has everything but the identifier. */
  function ReadRootWithoutId(ownerId: bytes, b: bytes): Option<OwnerRoot> {
    var Split(formatVersion, b1) :- GetU32(b);
    All(GetRootFields(formatVersion, ownerId, b1))
  }

  lemma RootFieldsReadBack(keyId: bytes -> Array32, root: OwnerRoot)
    requires RootOk(keyId, root)
    ensures GetRootFields(root.formatVersion, root.ownerId, PutRootAfterId(root, [])) ==
            Some(Split(NormalRoot(root), []))
  {
    hide PutBlob, GetBlob, PutKey, GetKey, KeyOk, PutPolicy, GetPolicy, PolicyOk, PutBool, GetBool, PutI64, GetI64,
      NormalPolicy;
    var afterPolicy := PutBool(root.claimableDeferredHuman, PutBlob(root.nonce, PutI64(root.claimableUntil, [])));
    PolicyReadsBack(keyId, root.recoveryPolicy.value, afterPolicy);
    KeyReadsBack(root.authorityKey.value, PutPolicy(root.recoveryPolicy.value, afterPolicy));
    BoolReadsBack(root.claimableDeferredHuman, PutBlob(root.nonce, PutI64(root.claimableUntil, [])));
    NormalIsPresent(root.recoveryPolicy);
  }

  lemma NormalIsPresent(p: Option<RecoveryPolicy>)
    ensures p.Some? ==> NormalPolicy(p).Some?
  {}

  /** Both bodies of an owner root read back to the root, an absent recovery window as the default one. */
  lemma RootReadsBack(keyId: bytes -> Array32, root: OwnerRoot)
    requires RootBody(keyId, root).Ok?
    ensures ReadRoot(RootBody(keyId, root).value) == Some(NormalRoot(root))
    ensures RootWithoutId(keyId, root).Ok?
    ensures ReadRootWithoutId(root.ownerId, RootWithoutId(keyId, root).value) == Some(NormalRoot(root))
  {
    hide PutU32, GetU32, PutBlob, GetBlob, PutRootAfterId, GetRootFields, RootOk, NormalRoot;
    RootFieldsReadBack(keyId, root);
  }

  function ReadTransition(b: bytes): Option<Transition> {
    var Split(formatVersion, b1) :- GetU32(b);
    var Split(ownerId, b2) :- GetBlob(b1);
    var Split(previousStateHash, b3) :- GetBlob(b2);
    var Split(sequence, b4) :- GetU64(b3);
    var Split(kind, b5) :- GetI32(b4);
    var Split(nextAuthorityKey, b6) :- GetKey(b5);
    var Split(nextRecoveryPolicy, b7) :- GetPolicy(b6);
    var Split(validFrom, b8) :- GetI64(b7);
    var Split(previousKeyValidUntil, b9) :- GetI64(b8);
    var Split(nonce, rest) :- GetBlob(b9);
    All(Some(Split(Transition(formatVersion, ownerId, previousStateHash, sequence, kind, Some(nextAuthorityKey),
      Some(nextRecoveryPolicy), validFrom, previousKeyValidUntil, nonce), rest)))
  }

  lemma TransitionReadsBack(keyId: bytes -> Array32, t: Transition)
    requires TransitionBody(keyId, t).Ok?
    ensures ReadTransition(TransitionBody(keyId, t).value) == Some(NormalTransition(t))
  {
    hide PutU32, GetU32, PutU64, GetU64, PutI32, GetI32, PutI64, GetI64, PutBlob, GetBlob, PutKey, GetKey, KeyOk,
      PutPolicy, GetPolicy, PolicyOk, NormalPolicy;
    var afterPolicy := PutI64(t.validFrom, PutI64(t.previousKeyValidUntil, PutBlob(t.nonce, [])));
    PolicyReadsBack(keyId, t.nextRecoveryPolicy.value, afterPolicy);
    KeyReadsBack(t.nextAuthorityKey.value, PutPolicy(t.nextRecoveryPolicy.value, afterPolicy));
    NormalIsPresent(t.nextRecoveryPolicy);
  }

  // ----- capabilities -----

  function GetSegment(b: bytes): Option<Split<Text>> {
    var Split(segment, rest) :- GetBlob(b);
    if IsUtf8(segment) then Some(Split(segment, rest)) else None
  }

  function GetSegments(b: bytes): Option<Split<seq<Text>>> {
    var Split(count, b1) :- GetU32(b);
    GetMany(GetSegment, count, b1)
  }

  lemma SegmentsReadBack(segments: seq<Text>, rest: bytes)
    requires |segments| <= MAX_U32 && forall s | s in segments :: SegmentOk(s)
    ensures GetSegments(PutU32(Low32(|segments|), PutMany(PutSegment, segments, rest))) == Some(Split(segments, rest))
  {
    hide PutU32, GetU32, PutBlob, GetBlob, IsUtf8, Fits;
    GetPutMany(PutSegment, GetSegment, segments, rest);
  }

  function GetSelector(b: bytes): Option<Split<Selector>> {
    var Split(rootSpoolUuid, b1) :- GetBlob(b);
    var Split(pathSegments, b2) :- GetSegments(b1);
    var Split(includeDescendants, rest) :- GetBool(b2);
    Some(Split(Selector(rootSpoolUuid, pathSegments, includeDescendants), rest))
  }

  lemma SelectorReadsBack(s: Selector, rest: bytes)
    requires SelectorOk(s)
    ensures GetSelector(PutSelector(s, rest)) == Some(Split(s, rest))
  {
    hide PutBlob, GetBlob, GetSegments, PutMany, PutU32, PutBool, GetBool, SegmentOk, IsUtf8;
    SegmentsReadBack(s.pathSegments, PutBool(s.includeDescendants, rest));
    BoolReadsBack(s.includeDescendants, rest);
  }

  function GetPrincipal(b: bytes): Option<Split<Principal>> {
    var Split(kind, b1) :- GetI32(b);
    var Split(principalId, b2) :- GetBlob(b1);
    var Split(hasKey, b3) :- GetBool(b2);
    if hasKey then
      var Split(key, rest) :- GetKey(b3);
      Some(Split(Principal(kind, principalId, Some(key)), rest))
    else Some(Split(Principal(kind, principalId, None), b3))
  }

  lemma PrincipalReadsBack(p: Principal, rest: bytes)
    requires PrincipalOk(p)
    ensures GetPrincipal(PutPrincipal(p, rest)) == Some(Split(p, rest))
  {
    hide PutI32, GetI32, PutBlob, GetBlob, PutBool, GetBool, PutKey, GetKey, KeyOk;
    BoolReadsBack(p.key.Some?, PutRequired(PutKey, p.key, rest));
    if p.key.Some? { KeyReadsBack(p.key.value, rest); }
  }

  function GetIdentity(b: bytes): Option<Split<CredentialIdentity>> {
    var Split(variant, b1) :- GetU8(b);
    if variant == 1 then
      var Split(credentialId, rest) :- GetBlob(b1);
      Some(Split(ServerIssued(credentialId), rest))
    else if variant == 2 then
      var Split(issuedAncestorId, b2) :- GetBlob(b1);
      var Split(terminalRevocationId, b3) :- GetBlob(b2);
      var Split(derivationPathSha256, rest) :- GetBlob(b3);
      Some(Split(OfflineDerived(issuedAncestorId, terminalRevocationId, derivationPathSha256), rest))
    else None
  }

  lemma IdentityReadsBack(id: CredentialIdentity, rest: bytes)
    requires IdentityOk(id)
    ensures GetIdentity(PutIdentity(id, rest)) == Some(Split(id, rest))
  {
    hide PutU8, GetU8, PutBlob, GetBlob;
  }

  function GetScope(b: bytes): Option<Split<TimelineScope>> {
    var Split(principalAccountUuid, b1) :- GetBlob(b);
    var Split(identity, b2) :- GetIdentity(b1);
    var Split(effectivePopKeySha256, b3) :- GetBlob(b2);
    var Split(credentialClass, b4) :- GetU32(b3);
    var Split(threadId, b5) :- GetBlob(b4);
    var Split(originSha256, rest) :- GetBlob(b5);
    Some(Split(TimelineScope(principalAccountUuid, Some(Some(identity)), effectivePopKeySha256, credentialClass,
      threadId, originSha256), rest))
  }

  lemma ScopeReadsBack(s: TimelineScope, rest: bytes)
    requires ScopeOk(s)
    ensures GetScope(PutScope(s, rest)) == Some(Split(s, rest))
  {
    hide PutU32, GetU32, PutBlob, GetBlob, PutIdentity, GetIdentity, IdentityOk;
    IdentityReadsBack(IdentityOf(s).value, PutBlob(s.effectivePopKeySha256,
      PutU32(s.credentialClass, PutBlob(s.threadId, PutBlob(s.originSha256, rest)))));
  }

  /** The action read tells whether a scope follows; where one does, a marker byte precedes it. */
  function GetGrant(acceptTimelineOrigin: i32, b: bytes): Option<Split<Grant>> {
    var Split(selector, b1) :- GetSelector(b);
    var Split(action, b2) :- GetI32(b1);
    if action == acceptTimelineOrigin then
      var Split(marker, b3) :- GetBool(b2);
      var Split(scope, rest) :- GetScope(b3);
      if marker then Some(Split(Grant(Some(selector), action, Some(scope)), rest)) else None
    else Some(Split(Grant(Some(selector), action, None), b2))
  }

  lemma GrantReadsBack(accept: i32, g: Grant, rest: bytes)
    requires GrantOk(accept, g)
    ensures GetGrant(accept, PutGrant(g, rest)) == Some(Split(g, rest))
  {
    hide PutSelector, GetSelector, SelectorOk, PutI32, GetI32, PutBool, GetBool, PutScope, GetScope, ScopeOk;
    SelectorReadsBack(g.spool.value, PutI32(g.action, PutAcceptance(g.timelineAcceptance, rest)));
    if g.timelineAcceptance.Some? {
      ScopeReadsBack(g.timelineAcceptance.value, rest);
      BoolReadsBack(true, PutScope(g.timelineAcceptance.value, rest));
    }
  }

  function GetGrants(accept: i32, b: bytes): Option<Split<seq<Grant>>> {
    var Split(count, b1) :- GetU32(b);
    GetMany(more => GetGrant(accept, more), count, b1)
  }

  lemma GrantsReadBack(accept: i32, grants: seq<Grant>, rest: bytes)
    requires |grants| <= MAX_U32 && forall g | g in grants :: GrantOk(accept, g)
    ensures GetGrants(accept, PutU32(Low32(|grants|), PutMany(PutGrant, grants, rest))) == Some(Split(grants, rest))
  {
    hide PutU32, GetU32, PutGrant, GetGrant, GrantOk;
    forall g, more | g in grants ensures GetGrant(accept, PutGrant(g, more)) == Some(Split(g, more)) {
      GrantReadsBack(accept, g, more);
    }
    GetPutMany(PutGrant, more => GetGrant(accept, more), grants, rest);
  }

  /** A capability's fields; the identifier, where it is written, follows them. */
  function GetCapability(accept: i32, capabilityId: bytes, b: bytes): Option<Split<Capability>> {
    var Split(formatVersion, b1) :- GetU32(b);
    var Split(ownerId, b2) :- GetBlob(b1);
    var Split(issuerStateHash, b3) :- GetBlob(b2);
    var Split(parentCapabilityId, b4) :- GetBlob(b3);
    var Split(subject, b5) :- GetPrincipal(b4);
    var Split(grants, b6) :- GetGrants(accept, b5);
    var Split(notBefore, b7) :- GetI64(b6);
    var Split(expiresAt, b8) :- GetI64(b7);
    var Split(nonce, rest) :- GetBlob(b8);
    Some(Split(Capability(formatVersion, ownerId, issuerStateHash, parentCapabilityId, Some(subject), grants, notBefore,
      expiresAt, nonce, capabilityId), rest))
  }

  function ReadCapability(accept: i32, b: bytes): Option<Capability> {
    var Split(c, b1) :- GetCapability(accept, [], b);
    var Split(capabilityId, rest) :- GetBlob(b1);
    All(Some(Split(c.(capabilityId := capabilityId), rest)))
  }

  lemma CapabilityFieldsReadBack(accept: i32, c: Capability, id: bytes, rest: bytes)
    requires CapabilityOk(accept, c)
    ensures GetCapability(accept, id, PutCapability(c, rest)) == Some(Split(c.(capabilityId := id), rest))
  {
    hide PutU32, GetU32, PutI64, GetI64, PutBlob, GetBlob, PutPrincipal, GetPrincipal, PrincipalOk, PutMany, GetGrants,
      GrantOk;
    var afterGrants := PutI64(c.notBefore, PutI64(c.expiresAt, PutBlob(c.nonce, rest)));
    GrantsReadBack(accept, c.grants, afterGrants);
    PrincipalReadsBack(c.subject.value, PutU32(Low32(|c.grants|), PutMany(PutGrant, c.grants, afterGrants)));
  }

  /** The signed body reads back to the capability; so does the body its identifier is taken over, but for that. */
  lemma CapabilityReadsBack(accept: i32, c: Capability)
    requires CapabilityFields(accept, c, true).Ok?
    ensures ReadCapability(accept, CapabilityFields(accept, c, true).value) == Some(c)
    ensures CapabilityFields(accept, c, false).Ok?
    ensures All(GetCapability(accept, c.capabilityId, CapabilityFields(accept, c, false).value)) == Some(c)
  {
    hide PutBlob, GetBlob, PutCapability, GetCapability, CapabilityOk;
    CapabilityFieldsReadBack(accept, c, [], PutBlob(c.capabilityId, []));
    CapabilityFieldsReadBack(accept, c, c.capabilityId, []);
  }

  // ----- bindings and transfers -----

  function ReadBinding(b: bytes): Option<OwnerBinding> {
    var Split(formatVersion, b1) :- GetU32(b);
    var Split(stableOwnerUuid, b2) :- GetBlob(b1);
    var Split(rootPublicKey, b3) :- GetKey(b2);
    var Split(rootStateHash, b4) :- GetBlob(b3);
    var Split(kind, b5) :- GetI32(b4);
    var Split(bindingEpoch, b6) :- GetU64(b5);
    var Split(challengeNonce, rest) :- GetBlob(b6);
    All(Some(Split(OwnerBinding(formatVersion, stableOwnerUuid, Some(rootPublicKey), rootStateHash, kind, bindingEpoch,
      challengeNonce), rest)))
  }

  lemma BindingReadsBack(x: OwnerBinding)
    requires BindingBody(x).Ok?
    ensures ReadBinding(BindingBody(x).value) == Some(x)
  {
    hide PutU32, GetU32, PutU64, GetU64, PutI32, GetI32, PutBlob, GetBlob, PutKey, GetKey, KeyOk;
    KeyReadsBack(x.rootPublicKey.value, PutBlob(x.rootStateHash,
      PutI32(x.kind, PutU64(x.bindingEpoch, PutBlob(x.challengeNonce, [])))));
  }

  /** The source owner and its state come before the destination's. */
  function ReadHandoff(b: bytes): Option<Handoff> {
    var Split(formatVersion, b1) :- GetU32(b);
    var Split(resourceUuid, b2) :- GetBlob(b1);
    var Split(transferSequence, b3) :- GetU64(b2);
    var Split(sourceOwnerUuid, b4) :- GetBlob(b3);
    var Split(sourceOwnerKeyStateHash, b5) :- GetBlob(b4);
    var Split(destinationOwnerUuid, b6) :- GetBlob(b5);
    var Split(destinationOwnerKeyStateHash, b7) :- GetBlob(b6);
    var Split(nonce, rest) :- GetBlob(b7);
    All(Some(Split(Handoff(formatVersion, resourceUuid, transferSequence, sourceOwnerUuid, sourceOwnerKeyStateHash,
      destinationOwnerUuid, destinationOwnerKeyStateHash, nonce), rest)))
  }

  lemma HandoffReadsBack(h: Handoff)
    requires HandoffBody(h).Ok?
    ensures ReadHandoff(HandoffBody(h).value) == Some(h)
  {
    hide PutU32, GetU32, PutU64, GetU64, PutBlob, GetBlob;
  }

  function GetSignature(b: bytes): Option<Split<Signature>> {
    var Split(signerKeyId, b1) :- GetBlob(b);
    var Split(signature, rest) :- GetBlob(b1);
    Some(Split(Signature(signerKeyId, signature), rest))
  }

  function ReadAcceptance(b: bytes): Option<SignedHandoff> {
    var Split(body, b1) :- GetBlob(b);
    var handoff :- ReadHandoff(body);
    var sourceSignature :- All(GetSignature(b1));
    Some(SignedHandoff(Some(handoff), Some(sourceSignature)))
  }

  lemma CountersignedReadsBack(body: bytes, signature: Option<Signature>, rest: bytes)
    requires Countersigned(body, signature, rest).Ok?
    ensures GetBlob(Countersigned(body, signature, rest).value)
            == Some(Split(body, PutSignature(signature.value, rest)))
    ensures GetSignature(PutSignature(signature.value, rest)) == Some(Split(signature.value, rest))
  {
    hide PutBlob, GetBlob;
  }

  /** The destination signs the handoff and the source's signature over it. */
  lemma AcceptanceReadsBack(t: Transfer)
    requires AcceptanceBody(t).Ok?
    ensures t.acceptance.Some? && ReadAcceptance(AcceptanceBody(t).value) == t.acceptance.value.signedHandoff
  {
    hide Countersigned, HandoffBody, ReadHandoff, GetSignature, GetBlob, PutSignature;
    var signed := t.acceptance.value.signedHandoff.value;
    HandoffReadsBack(signed.handoff.value);
    CountersignedReadsBack(HandoffBody(signed.handoff.value).value, signed.sourceSignature, []);
    CountersignedIsSigned(HandoffBody(signed.handoff.value).value, signed.sourceSignature, []);
  }

  lemma CountersignedIsSigned(body: bytes, signature: Option<Signature>, rest: bytes)
    requires Countersigned(body, signature, rest).Ok?
    ensures signature.Some?
  {}

  function ReadAudit(b: bytes): Option<AuditRecord> {
    var Split(body, b1) :- GetBlob(b);
    var signedHandoff :- ReadAcceptance(body);
    var Split(destinationSignature, b2) :- GetSignature(b1);
    var Split(committedAt, b3) :- GetI64(b2);
    var Split(previousAuditRecordHash, rest) :- GetBlob(b3);
    All(Some(Split(AuditRecord(Some(Transfer(Some(Acceptance(Some(signedHandoff), Some(destinationSignature))))),
      committedAt, previousAuditRecordHash), rest)))
  }

  lemma AuditReadsBack(record: AuditRecord)
    requires AuditBody(record).Ok?
    ensures ReadAudit(AuditBody(record).value) == Some(record)
  {
    hide Countersigned, AcceptanceBody, ReadAcceptance, GetSignature, GetBlob, PutBlob, PutSignature, PutI64, GetI64;
    var t := record.transfer.value;
    var rest := PutI64(record.committedAt, PutBlob(record.previousAuditRecordHash, []));
    var body := AcceptanceBody(t).value;
    AcceptanceReadsBack(t);
    CountersignedReadsBack(body, t.acceptance.value.destinationSignature, rest);
    CountersignedIsSigned(body, t.acceptance.value.destinationSignature, rest);
    AcceptanceIsPresent(t);
  }

  lemma AcceptanceIsPresent(t: Transfer)
    requires AcceptanceBody(t).Ok?
    ensures t.acceptance.Some? && t.acceptance.value.signedHandoff.Some?
  {
    hide Countersigned, HandoffBody;
  }

  // ----- creation statements and mint-root attachments -----

  function ReadCreation(b: bytes): Option<SpoolCreation> {
    var Split(formatVersion, b1) :- GetU32(b);
    var Split(genesisDigest, b2) :- GetBlob(b1);
    var Split(accountUuid, b3) :- GetBlob(b2);
    var Split(ownerStateHash, b4) :- GetBlob(b3);
    var Split(ownerSequence, b5) :- GetU64(b4);
    var Split(creatorKey, b6) :- GetKey(b5);
    var Split(parentSpoolUuid, b7) :- GetBlob(b6);
    var Split(parentPathSegments, b8) :- GetSegments(b7);
    var Split(name, b9) :- GetSegment(b8);
    var Split(createdAt, rest) :- GetI64(b9);
    All(Some(Split(SpoolCreation(formatVersion, genesisDigest, accountUuid, ownerStateHash, ownerSequence,
      Some(creatorKey), parentSpoolUuid, parentPathSegments, name, createdAt), rest)))
  }

  lemma CreationReadsBack(curve: Key -> bool, c: SpoolCreation)
    requires CreationBody(curve, c).Ok?
    ensures ReadCreation(CreationBody(curve, c).value) == Some(c)
  {
    hide PutU32, GetU32, PutU64, GetU64, PutI64, GetI64, PutBlob, GetBlob, PutKey, GetKey, KeyOk, PutMany, GetSegments,
      IsUtf8, AccountOk, PathSegmentOk, PathSegmentsOk;
    var afterSegments := PutBlob(c.name, PutI64(c.createdAt, []));
    KeysFit(curve, c.creatorKey);
    SigningInjectivity.SegmentsFit(c.parentPathSegments, c.name);
    ParentsFit(c.accountUuid, c.parentSpoolUuid);
    SegmentsReadBack(c.parentPathSegments, afterSegments);
    KeyReadsBack(c.creatorKey.value, PutBlob(c.parentSpoolUuid,
      PutU32(Low32(|c.parentPathSegments|), PutMany(PutSegment, c.parentPathSegments, afterSegments))));
  }

  function ReadMintRoot(b: bytes): Option<MintRoot> {
    var Split(formatVersion, b1) :- GetU32(b);
    var Split(accountUuid, b2) :- GetBlob(b1);
    var Split(ownerStateHash, b3) :- GetBlob(b2);
    var Split(ownerSequence, b4) :- GetU64(b3);
    var Split(ownerKey, b5) :- GetKey(b4);
    var Split(mintRootKey, b6) :- GetKey(b5);
    var Split(notBefore, b7) :- GetI64(b6);
    var Split(expiresAt, b8) :- GetI64(b7);
    var Split(nonce, rest) :- GetBlob(b8);
    All(Some(Split(MintRoot(formatVersion, accountUuid, ownerStateHash, ownerSequence, Some(ownerKey),
      Some(mintRootKey), notBefore, expiresAt, nonce), rest)))
  }

  lemma MintRootReadsBack(curve: Key -> bool, m: MintRoot)
    requires MintRootBody(curve, m).Ok?
    ensures ReadMintRoot(MintRootBody(curve, m).value) == Some(m)
  {
    hide PutU32, GetU32, PutU64, GetU64, PutI64, GetI64, PutBlob, GetBlob, PutKey, GetKey, KeyOk, AccountOk;
    KeysFit(curve, m.ownerKey);
    KeysFit(curve, m.mintRootKey);
    ParentsFit(m.accountUuid, []);
    var afterKeys := PutI64(m.notBefore, PutI64(m.expiresAt, PutBlob(m.nonce, [])));
    KeyReadsBack(m.mintRootKey.value, afterKeys);
    KeyReadsBack(m.ownerKey.value, PutKey(m.mintRootKey.value, afterKeys));
  }
}
