/** The signing encoders as they run: every part appended to one buffer, refused where a part is
    missing, out of order or too long. */
module SigningEncoder {
  import opened Bytes
  import opened Ordering
  import opened Buffers
  import opened SigningBodies
  import opened SigningInjectivity

  method WriteKey(encoder: Encoder, key: Key) returns (r: Result<()>)
    modifies encoder
    ensures r.Ok? <==> KeyOk(key)
    ensures r.Ok? ==> forall rest {:trigger encoder.out + rest} ::
                        encoder.out + rest == old(encoder.out) + PutKey(key, rest)
  {
    hide PutI32, PutBlob;
    encoder.I32(key.algorithm);
    var _ :- encoder.Blob(key.publicKey);
    r := Ok(());
  }

  method WriteRequiredKey(encoder: Encoder, key: Option<Key>) returns (r: Result<()>)
    modifies encoder
    ensures r.Ok? <==> HasKey(key)
    ensures r.Ok? ==> forall rest {:trigger encoder.out + rest} ::
                        encoder.out + rest == old(encoder.out) + PutRequired(PutKey, key, rest)
  {
    hide PutKey, KeyOk;
    if key.None? {
      return Err;
    }
    var _ :- WriteKey(encoder, key.value);
    r := Ok(());
  }

  method WriteGuardian(encoder: Encoder, guardian: Guardian) returns (r: Result<()>)
    modifies encoder
    ensures r.Ok? <==> GuardianOk(guardian)
    ensures r.Ok? ==> forall rest {:trigger encoder.out + rest} ::
                        encoder.out + rest == old(encoder.out) + PutGuardian(guardian, rest)
  {
    hide PutI32, PutRequired, HasKey;
    encoder.I32(guardian.kind);
    var _ :- WriteRequiredKey(encoder, guardian.key);
    r := Ok(());
  }

  method WriteGuardians(encoder: Encoder, guardians: seq<Guardian>) returns (r: Result<()>)
    modifies encoder
    ensures r.Ok? <==> forall x | x in guardians :: GuardianOk(x)
    ensures r.Ok? ==> forall rest {:trigger encoder.out + rest} ::
                        encoder.out + rest == old(encoder.out) + PutMany(PutGuardian, guardians, rest)
  {
    hide PutGuardian, GuardianOk;
    for i := 0 to |guardians|
      invariant forall j | 0 <= j < i :: GuardianOk(guardians[j])
      invariant forall rest {:trigger PutMany(PutGuardian, guardians, rest)} ::
                  encoder.out + PutMany(PutGuardian, guardians[i..], rest)
                      == old(encoder.out) + PutMany(PutGuardian, guardians, rest)
    {
      assert guardians[i..][1..] == guardians[i + 1..];
      var _ :- WriteGuardian(encoder, guardians[i]);
    }
    assert guardians[|guardians|..] == [];
    r := Ok(());
  }

  /** Guardians must come in strictly increasing order of key identifier. */
  method CheckOrder(keyId: bytes -> Array32, guardians: seq<Guardian>) returns (ordered: bool)
    ensures ordered <==> GuardiansOrdered(keyId, guardians)
  {
    hide LexLess, GuardianId;
    if |guardians| < 2 {
      return true;
    }
    for i := 1 to |guardians|
      invariant forall j | 0 < j < i :: LexLess(GuardianId(keyId, guardians[j - 1]), GuardianId(keyId, guardians[j]))
    {
      if !LexLess(GuardianId(keyId, guardians[i - 1]), GuardianId(keyId, guardians[i])) {
        return false;
      }
    }
    ordered := true;
  }

  method WritePolicy(encoder: Encoder, keyId: bytes -> Array32, policy: Option<RecoveryPolicy>) returns (r: Result<()>)
    modifies encoder
    ensures r.Ok? <==> HasPolicy(keyId, policy)
    ensures r.Ok? ==> forall rest {:trigger encoder.out + rest} ::
                        encoder.out + rest == old(encoder.out) + PutRequired(PutPolicy, policy, rest)
  {
    hide PutU32, PutU64, PutGuardian, GuardianOk, GuardiansOrdered, PutMany;
    if policy.None? {
      return Err;
    }
    var p := policy.value;
    var ordered := CheckOrder(keyId, p.guardians);
    if !ordered {
      return Err;
    }
    encoder.U32(p.threshold);
    var _ :- encoder.Count(|p.guardians|);
    var _ :- WriteGuardians(encoder, p.guardians);
    encoder.U64(EffectiveWindow(p));
    r := Ok(());
  }

  method WriteRootAfterId(encoder: Encoder, keyId: bytes -> Array32, root: OwnerRoot) returns (r: Result<()>)
    modifies encoder
    ensures r.Ok? <==> RootOk(keyId, root)
    ensures r.Ok? ==> forall rest {:trigger encoder.out + rest} ::
                        encoder.out + rest == old(encoder.out) + PutRootAfterId(root, rest)
  {
    hide PutBool, PutI64, PutBlob, PutRequired, HasKey, HasPolicy;
    var _ :- encoder.Blob(root.accountUuid);
    var _ :- WriteRequiredKey(encoder, root.authorityKey);
    var _ :- WritePolicy(encoder, keyId, root.recoveryPolicy);
    encoder.Bool(root.claimableDeferredHuman);
    var _ :- encoder.Blob(root.nonce);
    encoder.I64(root.claimableUntil);
    r := Ok(());
  }

  method OwnerRootWithoutId(keyId: bytes -> Array32, root: OwnerRoot) returns (r: Result<bytes>)
    ensures r == RootWithoutId(keyId, root)
  {
    hide PutU32, PutRootAfterId, RootOk;
    var encoder := new Encoder();
    encoder.U32(root.formatVersion);
    var _ :- WriteRootAfterId(encoder, keyId, root);
    ghost var body := PutU32(root.formatVersion, PutRootAfterId(root, []));
    assert encoder.out + [] == encoder.out && [] + body == body;
    r := Ok(encoder.out);
  }

  method OwnerRootBody(keyId: bytes -> Array32, root: OwnerRoot) returns (r: Result<bytes>)
    ensures r == RootBody(keyId, root)
  {
    hide PutU32, PutBlob, Fits, PutRootAfterId, RootOk;
    var encoder := new Encoder();
    encoder.U32(root.formatVersion);
    var _ :- encoder.Blob(root.ownerId);
    var _ :- WriteRootAfterId(encoder, keyId, root);
    ghost var body := PutU32(root.formatVersion, PutBlob(root.ownerId, PutRootAfterId(root, [])));
    assert encoder.out + [] == encoder.out && [] + body == body;
    r := Ok(encoder.out);
  }

  method WriteTransition(encoder: Encoder, keyId: bytes -> Array32, t: Transition) returns (r: Result<()>)
    modifies encoder
    ensures r.Ok? <==> TransitionOk(keyId, t)
    ensures r.Ok? ==> forall rest {:trigger encoder.out + rest} ::
                        encoder.out + rest == old(encoder.out) + PutTransition(t, rest)
  {
    hide PutU32, PutU64, PutI32, PutI64, PutBlob, Fits, PutRequired, HasKey, HasPolicy;
    encoder.U32(t.formatVersion);
    var _ :- encoder.Blob(t.ownerId);
    var _ :- encoder.Blob(t.previousStateHash);
    encoder.U64(t.sequence);
    encoder.I32(t.kind);
    var _ :- WriteRequiredKey(encoder, t.nextAuthorityKey);
    var _ :- WritePolicy(encoder, keyId, t.nextRecoveryPolicy);
    encoder.I64(t.validFrom);
    encoder.I64(t.previousKeyValidUntil);
    var _ :- encoder.Blob(t.nonce);
    r := Ok(());
  }

  method EncodeTransition(keyId: bytes -> Array32, t: Transition) returns (r: Result<bytes>)
    ensures r == TransitionBody(keyId, t)
  {
    hide PutTransition, TransitionOk;
    var encoder := new Encoder();
    var _ :- WriteTransition(encoder, keyId, t);
    assert encoder.out + [] == encoder.out && [] + PutTransition(t, []) == PutTransition(t, []);
    r := Ok(encoder.out);
  }

  method WriteSegments(encoder: Encoder, segments: seq<Text>) returns (r: Result<()>)
    modifies encoder
    ensures r.Ok? <==> forall x | x in segments :: SegmentOk(x)
    ensures r.Ok? ==> forall rest {:trigger encoder.out + rest} ::
                        encoder.out + rest == old(encoder.out) + PutMany(PutSegment, segments, rest)
  {
    hide PutBlob, IsUtf8, Fits;
    for i := 0 to |segments|
      invariant forall j | 0 <= j < i :: SegmentOk(segments[j])
      invariant forall rest {:trigger PutMany(PutSegment, segments, rest)} ::
                  encoder.out + PutMany(PutSegment, segments[i..], rest)
                      == old(encoder.out) + PutMany(PutSegment, segments, rest)
    {
      assert segments[i..][1..] == segments[i + 1..];
      assert SegmentOk(segments[i]) <==> Fits(segments[i]);
      var _ :- encoder.Blob(segments[i]);
    }
    assert segments[|segments|..] == [];
    r := Ok(());
  }

  method WriteSelector(encoder: Encoder, s: Option<Selector>) returns (r: Result<()>)
    modifies encoder
    ensures r.Ok? <==> s.Some? && SelectorOk(s.value)
    ensures r.Ok? ==> forall rest {:trigger encoder.out + rest} ::
                        encoder.out + rest == old(encoder.out) + PutRequired(PutSelector, s, rest)
  {
    hide PutU32, PutBool, PutBlob, Fits, PutMany, PutSegment, SegmentOk;
    if s.None? {
      return Err;
    }
    var selector := s.value;
    var _ :- encoder.Blob(selector.rootSpoolUuid);
    var _ :- encoder.Count(|selector.pathSegments|);
    var _ :- WriteSegments(encoder, selector.pathSegments);
    encoder.Bool(selector.includeDescendants);
    r := Ok(());
  }

  method WritePrincipal(encoder: Encoder, p: Option<Principal>) returns (r: Result<()>)
    modifies encoder
    ensures r.Ok? <==> p.Some? && PrincipalOk(p.value)
    ensures r.Ok? ==> forall rest {:trigger encoder.out + rest} ::
                        encoder.out + rest == old(encoder.out) + PutRequired(PutPrincipal, p, rest)
  {
    hide PutI32, PutBool, PutBlob, Fits, PutKey, KeyOk;
    if p.None? {
      return Err;
    }
    var principal := p.value;
    encoder.I32(principal.kind);
    var _ :- encoder.Blob(principal.principalId);
    match principal.key {
      case Some(key) =>
        encoder.Bool(true);
        var _ :- WriteKey(encoder, key);
      case None =>
        encoder.Bool(false);
    }
    r := Ok(());
  }

  method WriteIdentity(encoder: Encoder, identity: Option<CredentialIdentity>) returns (r: Result<()>)
    modifies encoder
    ensures r.Ok? <==> identity.Some? && IdentityOk(identity.value)
    ensures r.Ok? ==> forall rest {:trigger encoder.out + rest} ::
                        encoder.out + rest == old(encoder.out) + PutRequired(PutIdentity, identity, rest)
  {
    hide PutBlob, Fits;
    match identity {
      case None => return Err;
      case Some(ServerIssued(credentialId)) =>
        encoder.Raw([1]);
        var _ :- encoder.Blob(credentialId);
      case Some(OfflineDerived(ancestor, terminal, path)) =>
        encoder.Raw([2]);
        var _ :- encoder.Blob(ancestor);
        var _ :- encoder.Blob(terminal);
        var _ :- encoder.Blob(path);
    }
    r := Ok(());
  }

  method WriteScope(encoder: Encoder, scope: TimelineScope) returns (r: Result<()>)
    modifies encoder
    ensures r.Ok? <==> ScopeOk(scope)
    ensures r.Ok? ==> forall rest {:trigger encoder.out + rest} ::
                        encoder.out + rest == old(encoder.out) + PutScope(scope, rest)
  {
    hide PutU32, PutBlob, Fits, PutRequired, IdentityOk, IdentityOf;
    var _ :- encoder.Blob(scope.principalAccountUuid);
    var _ :- WriteIdentity(encoder, IdentityOf(scope));
    var _ :- encoder.Blob(scope.effectivePopKeySha256);
    encoder.U32(scope.credentialClass);
    var _ :- encoder.Blob(scope.threadId);
    var _ :- encoder.Blob(scope.originSha256);
    r := Ok(());
  }

  method WriteGrant(encoder: Encoder, accept: i32, grant: Grant) returns (r: Result<()>)
    modifies encoder
    ensures r.Ok? <==> GrantOk(accept, grant)
    ensures r.Ok? ==> forall rest {:trigger encoder.out + rest} ::
                        encoder.out + rest == old(encoder.out) + PutGrant(grant, rest)
  {
    hide PutI32, PutBool, PutRequired, SelectorOk, PutScope, ScopeOk;
    var _ :- WriteSelector(encoder, grant.spool);
    encoder.I32(grant.action);
    match grant.timelineAcceptance {
      case Some(scope) =>
        if grant.action != accept {
          return Err;
        }
        encoder.Bool(true);
        var _ :- WriteScope(encoder, scope);
      case None =>
        if grant.action == accept {
          return Err;
        }
    }
    r := Ok(());
  }

  method WriteGrants(encoder: Encoder, accept: i32, grants: seq<Grant>) returns (r: Result<()>)
    modifies encoder
    ensures r.Ok? <==> forall x | x in grants :: GrantOk(accept, x)
    ensures r.Ok? ==> forall rest {:trigger encoder.out + rest} ::
                        encoder.out + rest == old(encoder.out) + PutMany(PutGrant, grants, rest)
  {
    hide PutGrant, GrantOk;
    for i := 0 to |grants|
      invariant forall j | 0 <= j < i :: GrantOk(accept, grants[j])
      invariant forall rest {:trigger PutMany(PutGrant, grants, rest)} ::
                  encoder.out + PutMany(PutGrant, grants[i..], rest)
                      == old(encoder.out) + PutMany(PutGrant, grants, rest)
    {
      assert grants[i..][1..] == grants[i + 1..];
      var _ :- WriteGrant(encoder, accept, grants[i]);
    }
    assert grants[|grants|..] == [];
    r := Ok(());
  }

  method WriteCapability(encoder: Encoder, accept: i32, c: Capability) returns (r: Result<()>)
    modifies encoder
    ensures r.Ok? <==> CapabilityOk(accept, c)
    ensures r.Ok? ==> forall rest {:trigger encoder.out + rest} ::
                        encoder.out + rest == old(encoder.out) + PutCapability(c, rest)
  {
    hide PutU32, PutI64, PutBlob, Fits, PutRequired, PrincipalOk, PutMany, PutGrant, GrantOk;
    encoder.U32(c.formatVersion);
    var _ :- encoder.Blob(c.ownerId);
    var _ :- encoder.Blob(c.issuerStateHash);
    var _ :- encoder.Blob(c.parentCapabilityId);
    var _ :- WritePrincipal(encoder, c.subject);
    var _ :- encoder.Count(|c.grants|);
    var _ :- WriteGrants(encoder, accept, c.grants);
    encoder.I64(c.notBefore);
    encoder.I64(c.expiresAt);
    var _ :- encoder.Blob(c.nonce);
    r := Ok(());
  }

  method EncodeCapability(accept: i32, c: Capability, includeId: bool) returns (r: Result<bytes>)
    ensures r == CapabilityFields(accept, c, includeId)
  {
    hide PutBlob, Fits, PutCapability, CapabilityOk;
    var encoder := new Encoder();
    var _ :- WriteCapability(encoder, accept, c);
    if includeId {
      var _ :- encoder.Blob(c.capabilityId);
    }
    ghost var tail := if includeId then PutBlob(c.capabilityId, []) else [];
    assert encoder.out + [] == encoder.out && [] + PutCapability(c, tail) == PutCapability(c, tail);
    r := Ok(encoder.out);
  }

  method WriteBinding(encoder: Encoder, b: OwnerBinding) returns (r: Result<()>)
    modifies encoder
    ensures r.Ok? <==> BindingOk(b)
    ensures r.Ok? ==> forall rest {:trigger encoder.out + rest} ::
                        encoder.out + rest == old(encoder.out) + PutBinding(b, rest)
  {
    hide PutU32, PutU64, PutI32, PutBlob, Fits, PutRequired, HasKey;
    encoder.U32(b.formatVersion);
    var _ :- encoder.Blob(b.stableOwnerUuid);
    var _ :- WriteRequiredKey(encoder, b.rootPublicKey);
    var _ :- encoder.Blob(b.rootStateHash);
    encoder.I32(b.kind);
    encoder.U64(b.bindingEpoch);
    var _ :- encoder.Blob(b.challengeNonce);
    r := Ok(());
  }

  method EncodeBinding(b: OwnerBinding) returns (r: Result<bytes>)
    ensures r == BindingBody(b)
  {
    hide PutBinding, BindingOk;
    var encoder := new Encoder();
    var _ :- WriteBinding(encoder, b);
    assert encoder.out + [] == encoder.out && [] + PutBinding(b, []) == PutBinding(b, []);
    r := Ok(encoder.out);
  }

  method WriteHandoff(encoder: Encoder, h: Handoff) returns (r: Result<()>)
    modifies encoder
    ensures r.Ok? <==> HandoffOk(h)
    ensures r.Ok? ==> forall rest {:trigger encoder.out + rest} ::
                        encoder.out + rest == old(encoder.out) + PutHandoff(h, rest)
  {
    hide PutU32, PutU64, PutBlob, Fits;
    encoder.U32(h.formatVersion);
    var _ :- encoder.Blob(h.resourceUuid);
    encoder.U64(h.transferSequence);
    var _ :- encoder.Blob(h.sourceOwnerUuid);
    var _ :- encoder.Blob(h.sourceOwnerKeyStateHash);
    var _ :- encoder.Blob(h.destinationOwnerUuid);
    var _ :- encoder.Blob(h.destinationOwnerKeyStateHash);
    var _ :- encoder.Blob(h.nonce);
    r := Ok(());
  }

  method EncodeHandoff(h: Handoff) returns (r: Result<bytes>)
    ensures r == HandoffBody(h)
  {
    hide PutHandoff, HandoffOk;
    var encoder := new Encoder();
    var _ :- WriteHandoff(encoder, h);
    assert encoder.out + [] == encoder.out && [] + PutHandoff(h, []) == PutHandoff(h, []);
    r := Ok(encoder.out);
  }

  method WriteSignature(encoder: Encoder, s: Option<Signature>) returns (r: Result<()>)
    modifies encoder
    ensures r.Ok? <==> s.Some? && SignatureOk(s.value)
    ensures r.Ok? ==> forall rest {:trigger encoder.out + rest} ::
                        encoder.out + rest == old(encoder.out) + PutRequired(PutSignature, s, rest)
  {
    hide PutBlob, Fits;
    if s.None? {
      return Err;
    }
    var _ :- encoder.Blob(s.value.signerKeyId);
    var _ :- encoder.Blob(s.value.signature);
    r := Ok(());
  }

  method EncodeAcceptance(t: Transfer) returns (r: Result<bytes>)
    ensures r == AcceptanceBody(t)
  {
    hide PutBlob, Fits, PutSignature, SignatureOk, HandoffBody;
    if t.acceptance.None? || t.acceptance.value.signedHandoff.None? ||
       t.acceptance.value.signedHandoff.value.handoff.None? {
      return Err;
    }
    var signed := t.acceptance.value.signedHandoff.value;
    var handoff :- EncodeHandoff(signed.handoff.value);
    var encoder := new Encoder();
    var _ :- encoder.Blob(handoff);
    var _ :- WriteSignature(encoder, signed.sourceSignature);
    ghost var body := PutBlob(handoff, PutSignature(signed.sourceSignature.value, []));
    assert encoder.out + [] == encoder.out && [] + body == body;
    r := Ok(encoder.out);
  }

  method EncodeAudit(record: AuditRecord) returns (r: Result<bytes>)
    ensures r == AuditBody(record)
  {
    hide PutBlob, Fits, PutI64, PutSignature, SignatureOk, AcceptanceBody;
    if record.transfer.None? || record.transfer.value.acceptance.None? {
      return Err;
    }
    var transfer := record.transfer.value;
    var acceptance :- EncodeAcceptance(transfer);
    var encoder := new Encoder();
    var _ :- encoder.Blob(acceptance);
    var _ :- WriteSignature(encoder, transfer.acceptance.value.destinationSignature);
    encoder.I64(record.committedAt);
    var _ :- encoder.Blob(record.previousAuditRecordHash);
    ghost var body := PutBlob(acceptance, PutSignature(transfer.acceptance.value.destinationSignature.value,
      PutI64(record.committedAt, PutBlob(record.previousAuditRecordHash, []))));
    assert encoder.out + [] == encoder.out && [] + body == body;
    r := Ok(encoder.out);
  }

  // ----- creation statements and mint-root attachments: validated whole, then written -----

  method WriteCreation(encoder: Encoder, c: SpoolCreation) returns (r: Result<()>)
    modifies encoder
    ensures r.Ok? <==> Fits(c.genesisDigest) && Fits(c.accountUuid) && Fits(c.ownerStateHash) && HasKey(c.creatorKey) &&
                       Fits(c.parentSpoolUuid) && |c.parentPathSegments| <= MAX_U32 &&
                       (forall s | s in c.parentPathSegments :: SegmentOk(s)) && Fits(c.name)
    ensures r.Ok? ==> forall rest {:trigger encoder.out + rest} ::
                        encoder.out + rest == old(encoder.out) + PutCreation(c, rest)
  {
    hide PutU32, PutU64, PutI64, PutBlob, Fits, PutRequired, HasKey, PutMany, PutSegment, SegmentOk, IsUtf8;
    encoder.U32(c.formatVersion);
    var _ :- encoder.Blob(c.genesisDigest);
    var _ :- encoder.Blob(c.accountUuid);
    var _ :- encoder.Blob(c.ownerStateHash);
    encoder.U64(c.ownerSequence);
    var _ :- WriteRequiredKey(encoder, c.creatorKey);
    var _ :- encoder.Blob(c.parentSpoolUuid);
    var _ :- encoder.Count(|c.parentPathSegments|);
    var _ :- WriteSegments(encoder, c.parentPathSegments);
    var _ :- encoder.Blob(c.name);
    encoder.I64(c.createdAt);
    r := Ok(());
  }

  method EncodeCreation(curve: Key -> bool, c: SpoolCreation) returns (r: Result<bytes>)
    ensures r == CreationBody(curve, c)
  {
    hide PutCreation, AccountOk, PathSegmentOk, IsUtf8;
    if !CreationOk(curve, c) {
      return Err;
    }
    var encoder := new Encoder();
    var written := WriteCreation(encoder, c);
    assert written.Ok? by {
      SegmentsFit(c.parentPathSegments, c.name);
      ParentsFit(c.accountUuid, c.parentSpoolUuid);
    }
    assert encoder.out + [] == encoder.out && [] + PutCreation(c, []) == PutCreation(c, []);
    r := Ok(encoder.out);
  }

  method WriteMintRoot(encoder: Encoder, m: MintRoot) returns (r: Result<()>)
    modifies encoder
    ensures r.Ok? <==>
              Fits(m.accountUuid) && Fits(m.ownerStateHash) && HasKey(m.ownerKey) && HasKey(m.mintRootKey) &&
              Fits(m.nonce)
    ensures r.Ok? ==> forall rest {:trigger encoder.out + rest} ::
                        encoder.out + rest == old(encoder.out) + PutMintRoot(m, rest)
  {
    hide PutU32, PutU64, PutI64, PutBlob, Fits, PutRequired, HasKey;
    encoder.U32(m.formatVersion);
    var _ :- encoder.Blob(m.accountUuid);
    var _ :- encoder.Blob(m.ownerStateHash);
    encoder.U64(m.ownerSequence);
    var _ :- WriteRequiredKey(encoder, m.ownerKey);
    var _ :- WriteRequiredKey(encoder, m.mintRootKey);
    encoder.I64(m.notBefore);
    encoder.I64(m.expiresAt);
    var _ :- encoder.Blob(m.nonce);
    r := Ok(());
  }

  method EncodeMintRoot(curve: Key -> bool, m: MintRoot) returns (r: Result<bytes>)
    ensures r == MintRootBody(curve, m)
  {
    hide PutMintRoot, AccountOk;
    if !MintRootOk(curve, m) {
      return Err;
    }
    var encoder := new Encoder();
    var written := WriteMintRoot(encoder, m);
    assert written.Ok? by {
      ParentsFit(m.accountUuid, []);
    }
    assert encoder.out + [] == encoder.out && [] + PutMintRoot(m, []) == PutMintRoot(m, []);
    r := Ok(encoder.out);
  }
}
