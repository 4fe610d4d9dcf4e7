/** The canonical bodies that owner signatures cover, and why no two different objects share one. */
module SigningBodies {
  import opened Bytes
  import opened Ordering

  const DEFAULT_RECOVERY_WINDOW_SECS: u64 := 604_800

  // ----- the objects signed -----

  datatype Key = Key(algorithm: i32, publicKey: bytes)

  datatype Guardian = Guardian(kind: i32, key: Option<Key>)

  datatype RecoveryPolicy = RecoveryPolicy(threshold: u32, guardians: seq<Guardian>, windowSecs: Option<u64>)

  datatype OwnerRoot = OwnerRoot(
    formatVersion: u32, ownerId: bytes, accountUuid: bytes, authorityKey: Option<Key>,
    recoveryPolicy: Option<RecoveryPolicy>, claimableDeferredHuman: bool, nonce: bytes, claimableUntil: i64)

  datatype Transition = Transition(
    formatVersion: u32, ownerId: bytes, previousStateHash: bytes, sequence: u64, kind: i32,
    nextAuthorityKey: Option<Key>, nextRecoveryPolicy: Option<RecoveryPolicy>,
    validFrom: i64, previousKeyValidUntil: i64, nonce: bytes)

  datatype Selector = Selector(rootSpoolUuid: bytes, pathSegments: seq<Text>, includeDescendants: bool)

  datatype Principal = Principal(kind: i32, principalId: bytes, key: Option<Key>)

  datatype CredentialIdentity =
    | ServerIssued(credentialId: bytes)
    | OfflineDerived(issuedAncestorId: bytes, terminalRevocationId: bytes, derivationPathSha256: bytes)

  /** The credential identity message may be absent, or present with no variant set; both are refused. */
  datatype TimelineScope = TimelineScope(
    principalAccountUuid: bytes, credentialIdentity: Option<Option<CredentialIdentity>>,
    effectivePopKeySha256: bytes, credentialClass: u32, threadId: bytes, originSha256: bytes)

  datatype Grant = Grant(spool: Option<Selector>, action: i32, timelineAcceptance: Option<TimelineScope>)

  datatype Capability = Capability(
    formatVersion: u32, ownerId: bytes, issuerStateHash: bytes, parentCapabilityId: bytes,
    subject: Option<Principal>, grants: seq<Grant>, notBefore: i64, expiresAt: i64, nonce: bytes, capabilityId: bytes)

  datatype OwnerBinding = OwnerBinding(
    formatVersion: u32, stableOwnerUuid: bytes, rootPublicKey: Option<Key>, rootStateHash: bytes,
    kind: i32, bindingEpoch: u64, challengeNonce: bytes)

  datatype Handoff = Handoff(
    formatVersion: u32, resourceUuid: bytes, transferSequence: u64,
    sourceOwnerUuid: bytes, sourceOwnerKeyStateHash: bytes,
    destinationOwnerUuid: bytes, destinationOwnerKeyStateHash: bytes, nonce: bytes)

  datatype Signature = Signature(signerKeyId: bytes, signature: bytes)

  datatype SignedHandoff = SignedHandoff(handoff: Option<Handoff>, sourceSignature: Option<Signature>)

  datatype Acceptance = Acceptance(signedHandoff: Option<SignedHandoff>, destinationSignature: Option<Signature>)

  datatype Transfer = Transfer(acceptance: Option<Acceptance>)

  datatype AuditRecord = AuditRecord(transfer: Option<Transfer>, committedAt: i64, previousAuditRecordHash: bytes)

  // ----- layouts, and when every part they need is present and fits its length field -----

  function PutKey(k: Key, rest: bytes): bytes { PutI32(k.algorithm, PutBlob(k.publicKey, rest)) }

  predicate KeyOk(k: Key) { Fits(k.publicKey) }

  predicate HasKey(k: Option<Key>) { k.Some? && KeyOk(k.value) }

  /** A required part: written when present.  Bodies that lack it are refused, so the other case is never signed. */
  function PutRequired<T>(put: (T, bytes) -> bytes, part: Option<T>, rest: bytes): bytes {
    if part.Some? then put(part.value, rest) else rest
  }

  function PutGuardian(g: Guardian, rest: bytes): bytes { PutI32(g.kind, PutRequired(PutKey, g.key, rest)) }

  predicate GuardianOk(g: Guardian) { HasKey(g.key) }

  function EffectiveWindow(p: RecoveryPolicy): u64 {
    if p.windowSecs.Some? then p.windowSecs.value else DEFAULT_RECOVERY_WINDOW_SECS
  }

  function PutPolicy(p: RecoveryPolicy, rest: bytes): bytes {
    PutU32(p.threshold, PutU32(Low32(|p.guardians|), PutMany(PutGuardian, p.guardians,
      PutU64(EffectiveWindow(p), rest))))
  }

  /** What the digest of a key is taken over, after its domain. */
  function KeyBody(k: Key): bytes { PutI32(k.algorithm, k.publicKey) }

  /** The key identifiers guardians are ordered by; SHA-256 over the key domain is a parameter. */
  function GuardianId(keyId: bytes -> Array32, g: Guardian): Array32 {
    if g.key.Some? then keyId(KeyBody(g.key.value)) else seq(32, _ => 0)
  }

  predicate GuardiansOrdered(keyId: bytes -> Array32, guardians: seq<Guardian>) {
    forall i | 0 < i < |guardians| :: LexLess(GuardianId(keyId, guardians[i - 1]), GuardianId(keyId, guardians[i]))
  }

  predicate PolicyOk(keyId: bytes -> Array32, p: RecoveryPolicy) {
    GuardiansOrdered(keyId, p.guardians) && |p.guardians| <= MAX_U32 && forall g | g in p.guardians :: GuardianOk(g)
  }

  predicate HasPolicy(keyId: bytes -> Array32, p: Option<RecoveryPolicy>) { p.Some? && PolicyOk(keyId, p.value) }

  function PutRootAfterId(root: OwnerRoot, rest: bytes): bytes {
    PutBlob(root.accountUuid, PutRequired(PutKey, root.authorityKey, PutRequired(PutPolicy, root.recoveryPolicy,
      PutBool(root.claimableDeferredHuman, PutBlob(root.nonce, PutI64(root.claimableUntil, rest))))))
  }

  predicate RootOk(keyId: bytes -> Array32, root: OwnerRoot) {
    Fits(root.accountUuid) && HasKey(root.authorityKey) && HasPolicy(keyId, root.recoveryPolicy) && Fits(root.nonce)
  }

  function RootWithoutId(keyId: bytes -> Array32, root: OwnerRoot): Result<bytes> {
    if RootOk(keyId, root) then Ok(PutU32(root.formatVersion, PutRootAfterId(root, []))) else Err
  }

  function RootBody(keyId: bytes -> Array32, root: OwnerRoot): Result<bytes> {
    if Fits(root.ownerId) && RootOk(keyId, root)
    then Ok(PutU32(root.formatVersion, PutBlob(root.ownerId, PutRootAfterId(root, []))))
    else Err
  }

  function PutTransition(t: Transition, rest: bytes): bytes {
    PutU32(t.formatVersion, PutBlob(t.ownerId, PutBlob(t.previousStateHash, PutU64(t.sequence, PutI32(t.kind,
      PutRequired(PutKey, t.nextAuthorityKey, PutRequired(PutPolicy, t.nextRecoveryPolicy,
      PutI64(t.validFrom, PutI64(t.previousKeyValidUntil, PutBlob(t.nonce, rest))))))))))
  }

  predicate TransitionOk(keyId: bytes -> Array32, t: Transition) {
    Fits(t.ownerId) && Fits(t.previousStateHash) && HasKey(t.nextAuthorityKey) &&
    HasPolicy(keyId, t.nextRecoveryPolicy) && Fits(t.nonce)
  }

  function TransitionBody(keyId: bytes -> Array32, t: Transition): Result<bytes> {
    if TransitionOk(keyId, t) then Ok(PutTransition(t, [])) else Err
  }

  function PutSegment(s: Text, rest: bytes): bytes { PutBlob(s, rest) }

  predicate SegmentOk(s: Text) { Fits(s) }

  function PutSelector(s: Selector, rest: bytes): bytes {
    PutBlob(s.rootSpoolUuid, PutU32(Low32(|s.pathSegments|), PutMany(PutSegment, s.pathSegments,
      PutBool(s.includeDescendants, rest))))
  }

  predicate SelectorOk(s: Selector) {
    Fits(s.rootSpoolUuid) && |s.pathSegments| <= MAX_U32 && forall t | t in s.pathSegments :: SegmentOk(t)
  }

  function PutPrincipal(p: Principal, rest: bytes): bytes {
    PutI32(p.kind, PutBlob(p.principalId, PutBool(p.key.Some?, PutRequired(PutKey, p.key, rest))))
  }

  predicate PrincipalOk(p: Principal) { Fits(p.principalId) && (p.key.Some? ==> KeyOk(p.key.value)) }

  function PutIdentity(id: CredentialIdentity, rest: bytes): bytes {
    match id
    case ServerIssued(credentialId) => PutU8(1, PutBlob(credentialId, rest))
    case OfflineDerived(ancestor, terminal, path) => PutU8(2, PutBlob(ancestor, PutBlob(terminal, PutBlob(path, rest))))
  }

  predicate IdentityOk(id: CredentialIdentity) {
    match id
    case ServerIssued(credentialId) => Fits(credentialId)
    case OfflineDerived(ancestor, terminal, path) => Fits(ancestor) && Fits(terminal) && Fits(path)
  }

  function IdentityOf(s: TimelineScope): Option<CredentialIdentity> {
    if s.credentialIdentity.Some? then s.credentialIdentity.value else None
  }

  function PutScope(s: TimelineScope, rest: bytes): bytes {
    PutBlob(s.principalAccountUuid, PutRequired(PutIdentity, IdentityOf(s), PutBlob(s.effectivePopKeySha256,
      PutU32(s.credentialClass, PutBlob(s.threadId, PutBlob(s.originSha256, rest))))))
  }

  predicate ScopeOk(s: TimelineScope) {
    Fits(s.principalAccountUuid) && IdentityOf(s).Some? && IdentityOk(IdentityOf(s).value) &&
    Fits(s.effectivePopKeySha256) && Fits(s.threadId) && Fits(s.originSha256)
  }

  /** A scope follows the action behind a marker byte; when there is none, nothing marks its absence. */
  function PutAcceptance(scope: Option<TimelineScope>, rest: bytes): bytes {
    if scope.Some? then PutBool(true, PutScope(scope.value, rest)) else rest
  }

  function PutGrant(g: Grant, rest: bytes): bytes {
    PutRequired(PutSelector, g.spool, PutI32(g.action, PutAcceptance(g.timelineAcceptance, rest)))
  }

  /** The action that carries a timeline scope, and only that one, must carry it. */
  predicate GrantOk(acceptTimelineOrigin: i32, g: Grant) {
    g.spool.Some? && SelectorOk(g.spool.value) &&
    (g.timelineAcceptance.Some? <==> g.action == acceptTimelineOrigin) &&
    (g.timelineAcceptance.Some? ==> ScopeOk(g.timelineAcceptance.value))
  }

  function PutCapability(c: Capability, rest: bytes): bytes {
    PutU32(c.formatVersion, PutBlob(c.ownerId, PutBlob(c.issuerStateHash, PutBlob(c.parentCapabilityId,
      PutRequired(PutPrincipal, c.subject, PutU32(Low32(|c.grants|), PutMany(PutGrant, c.grants,
      PutI64(c.notBefore, PutI64(c.expiresAt, PutBlob(c.nonce, rest))))))))))
  }

  predicate CapabilityOk(acceptTimelineOrigin: i32, c: Capability) {
    Fits(c.ownerId) && Fits(c.issuerStateHash) && Fits(c.parentCapabilityId) &&
    c.subject.Some? && PrincipalOk(c.subject.value) &&
    |c.grants| <= MAX_U32 && (forall g | g in c.grants :: GrantOk(acceptTimelineOrigin, g)) && Fits(c.nonce)
  }

  function CapabilityFields(acceptTimelineOrigin: i32, c: Capability, includeId: bool): Result<bytes> {
    if CapabilityOk(acceptTimelineOrigin, c) && (includeId ==> Fits(c.capabilityId))
    then Ok(PutCapability(c, if includeId then PutBlob(c.capabilityId, []) else []))
    else Err
  }

  function PutBinding(b: OwnerBinding, rest: bytes): bytes {
    PutU32(b.formatVersion, PutBlob(b.stableOwnerUuid, PutRequired(PutKey, b.rootPublicKey, PutBlob(b.rootStateHash,
      PutI32(b.kind, PutU64(b.bindingEpoch, PutBlob(b.challengeNonce, rest)))))))
  }

  predicate BindingOk(b: OwnerBinding) {
    Fits(b.stableOwnerUuid) && HasKey(b.rootPublicKey) && Fits(b.rootStateHash) && Fits(b.challengeNonce)
  }

  function BindingBody(b: OwnerBinding): Result<bytes> { if BindingOk(b) then Ok(PutBinding(b, [])) else Err }

  function PutHandoff(h: Handoff, rest: bytes): bytes {
    PutU32(h.formatVersion, PutBlob(h.resourceUuid, PutU64(h.transferSequence, PutBlob(h.sourceOwnerUuid,
      PutBlob(h.sourceOwnerKeyStateHash, PutBlob(h.destinationOwnerUuid, PutBlob(h.destinationOwnerKeyStateHash,
      PutBlob(h.nonce, rest))))))))
  }

  predicate HandoffOk(h: Handoff) {
    Fits(h.resourceUuid) && Fits(h.sourceOwnerUuid) && Fits(h.sourceOwnerKeyStateHash) &&
    Fits(h.destinationOwnerUuid) && Fits(h.destinationOwnerKeyStateHash) && Fits(h.nonce)
  }

  function HandoffBody(h: Handoff): Result<bytes> { if HandoffOk(h) then Ok(PutHandoff(h, [])) else Err }

  function PutSignature(s: Signature, rest: bytes): bytes { PutBlob(s.signerKeyId, PutBlob(s.signature, rest)) }

  predicate SignatureOk(s: Signature) { Fits(s.signerKeyId) && Fits(s.signature) }

  /** An earlier body, embedded under its length, then the signature over it. */
  function Countersigned(body: bytes, signature: Option<Signature>, rest: bytes): Result<bytes> {
    if Fits(body) && signature.Some? && SignatureOk(signature.value)
    then Ok(PutBlob(body, PutSignature(signature.value, rest)))
    else Err
  }

  function AcceptanceBody(t: Transfer): Result<bytes> {
    if t.acceptance.None? || t.acceptance.value.signedHandoff.None? ||
       t.acceptance.value.signedHandoff.value.handoff.None? then Err
    else
      var signed := t.acceptance.value.signedHandoff.value;
      var handoff :- HandoffBody(signed.handoff.value);
      Countersigned(handoff, signed.sourceSignature, [])
  }

  function AuditBody(record: AuditRecord): Result<bytes> {
    if record.transfer.None? || record.transfer.value.acceptance.None? || !Fits(record.previousAuditRecordHash) then Err
    else
      var acceptance :- AcceptanceBody(record.transfer.value);
      Countersigned(acceptance, record.transfer.value.acceptance.value.destinationSignature,
        PutI64(record.committedAt, PutBlob(record.previousAuditRecordHash, [])))
  }

  // ----- creation statements and mint-root attachments -----

  const MAX_PATH_SEGMENTS := 64
  const MAX_PATH_SEGMENT_BYTES := 255

  datatype SpoolCreation = SpoolCreation(
    formatVersion: u32, genesisDigest: bytes, accountUuid: bytes, ownerStateHash: bytes, ownerSequence: u64,
    creatorKey: Option<Key>, parentSpoolUuid: bytes, parentPathSegments: seq<Text>, name: Text, createdAt: i64)

  datatype MintRoot = MintRoot(
    formatVersion: u32, accountUuid: bytes, ownerStateHash: bytes, ownerSequence: u64,
    ownerKey: Option<Key>, mintRootKey: Option<Key>, notBefore: i64, expiresAt: i64, nonce: bytes)

  predicate AccountOk(uuid: bytes) { |uuid| == 16 && exists i | 0 <= i < 16 :: uuid[i] != 0 }

  /** Not empty, not over-long, not "." or "..", and free of slashes and NULs. */
  predicate PathSegmentOk(s: Text) {
    0 < |s| <= MAX_PATH_SEGMENT_BYTES && s != [0x2E] && s != [0x2E, 0x2E] && 0x2F !in s && 0 !in s
  }

  predicate PathSegmentsOk(segments: seq<Text>) {
    |segments| <= MAX_PATH_SEGMENTS && forall s | s in segments :: PathSegmentOk(s)
  }

  /** A present 32-byte key; `curve` says whether the signature library takes it as a point. */
  predicate ValidKey(curve: Key -> bool, k: Option<Key>) {
    k.Some? && |k.value.publicKey| == 32 && curve(k.value)
  }

  predicate CreationOk(curve: Key -> bool, c: SpoolCreation) {
    c.formatVersion == 1 && |c.genesisDigest| == 32 && |c.ownerStateHash| == 32 && c.createdAt > 0 &&
    AccountOk(c.accountUuid) && (c.parentSpoolUuid != [] ==> AccountOk(c.parentSpoolUuid)) &&
    (c.parentSpoolUuid == [] <==> c.parentPathSegments == []) &&
    PathSegmentsOk(c.parentPathSegments) && PathSegmentOk(c.name) && ValidKey(curve, c.creatorKey)
  }

  function PutCreation(c: SpoolCreation, rest: bytes): bytes {
    PutU32(c.formatVersion, PutBlob(c.genesisDigest, PutBlob(c.accountUuid, PutBlob(c.ownerStateHash,
      PutU64(c.ownerSequence, PutRequired(PutKey, c.creatorKey, PutBlob(c.parentSpoolUuid,
      PutU32(Low32(|c.parentPathSegments|), PutMany(PutSegment, c.parentPathSegments,
      PutBlob(c.name, PutI64(c.createdAt, rest)))))))))))
  }

  function CreationBody(curve: Key -> bool, c: SpoolCreation): Result<bytes> {
    if CreationOk(curve, c) then Ok(PutCreation(c, [])) else Err
  }

  predicate MintRootOk(curve: Key -> bool, m: MintRoot) {
    m.formatVersion == 1 && |m.ownerStateHash| == 32 && |m.nonce| == 32 &&
    0 <= m.notBefore < m.expiresAt && AccountOk(m.accountUuid) &&
    ValidKey(curve, m.ownerKey) && ValidKey(curve, m.mintRootKey)
  }

  function PutMintRoot(m: MintRoot, rest: bytes): bytes {
    PutU32(m.formatVersion, PutBlob(m.accountUuid, PutBlob(m.ownerStateHash, PutU64(m.ownerSequence,
      PutRequired(PutKey, m.ownerKey, PutRequired(PutKey, m.mintRootKey,
      PutI64(m.notBefore, PutI64(m.expiresAt, PutBlob(m.nonce, rest)))))))))
  }

  function MintRootBody(curve: Key -> bool, m: MintRoot): Result<bytes> {
    if MintRootOk(curve, m) then Ok(PutMintRoot(m, [])) else Err
  }
}
