# Heddle authorization kernel: a Dafny model

This project models the byte-exact authorization kernel of Heddle's token verifier and capability
verifier, with three smaller state machines beside it, and proves what their users rely on.

- **Edge extent sets.** `EdgeExtents`, `EdgeOrder`, `EdgeCanonical`, `EdgeCodec` and `EdgeServing` cover the binary
  encoder that sorts, deduplicates and checks tiling, the cursor decoder that re-encodes what it read, the
  exact-range lookup, and the edge's entry point. Encoding and decoding are inverse up to a normal form,
  encodings are prefix-free, a check on sorted neighbours is shown to settle every pair, and a token that pins
  a set's digest lets the edge serve exactly that set.
- **Signed bytes.** `Envelope`, `SigningBodies`, `SigningInjectivity`, `SigningReaders`, `SigningEncoder`, `Digests`,
  `GrantFacts` and `ProviderPlan` cover grant envelopes and the bodies owner signatures are taken over. Envelopes
  round-trip both ways, and each signing body is injective on the fields it writes and reads back field by field in
  the order signed. `Layouts` writes the same formats as plain concatenations.
- **Authority.** `Ceiling`, `Engine`, `Programs`, `Datalog`, `IdentityScope`, `Resource`, `Delegation`, `Authority`,
  `ScopeString` and `Chain` cover the three-valued postfix machine, its reference semantics and the Datalog engine it
  stands in for, bounded identity disclosure, the ancestor walk and the prefix ceilings written for agents,
  containment of client-minted tokens in the bytes of their envelope, and the proof-key delegation chain.
- **State machines.** `Outbox` is the session-report outbox with a crash possible between any two file
  operations; `Controls` and `ControlHooks` are ordered control delivery with failed writes and acknowledgements,
  hooks of several processes interleaving between reading a page, answering it and acknowledging it; `SemVer` and
  `Requirements` are version precedence and Cargo-style requirement matching.

`Bytes`, `Buffers`, `Ordering`, `Utf8` and `Hex` hold what these share. A writer `PutX(v, rest)` is the encoding of `v`
followed by `rest`, and a reader `GetX` splits a value off the front; the encoders and decoders that run over a
mutable buffer or cursor are methods proved equal to these functions.

## What the code turns out to do

Where the code and its documentation differ, or a promise holds only in part, the model follows the code.

- The envelope printer accepts right fields of up to 65535 bytes, the parser only of up to 1024
  (`Envelope.PrintParse`).
- The ceiling machine accepts parentheses with nothing before them and closures anywhere. What it answers is a
  well-formed postfix program exactly when no parentheses begin it or a closure's body
  (`Ceiling.AnswerIsPostfixExactly`), and the engine agrees exactly when its own discipline is kept
  (`Engine.EngineAgrees`), as it is by every expression written as text.
- A resource ceiling written by an agent delegation has two atoms in its resource body, so self-observation
  under it discloses no spool (`Delegation.DelegatedCeilingDisclosesNothing`).
- Allowing a resource is sound exactly when the query's two variables are distinct or the kind equals the path, and
  its expressions keep that discipline (`Datalog.AllowanceIsSoundExactly`).
- A control may be delivered more than once: a hook answers the page it read even if another hook has acknowledged
  its controls meanwhile (`ControlHooks.RedeliveryExactly`).
- An owner root's identifier and its state hash are taken over two bodies under one domain, which the encoders alone
  separate exactly when account and owner identifiers differ in length (`SigningInjectivity.RootBodiesApartExactly`);
  the verifier requires 16 and 32 bytes (`crates/capability-verifier/src/owner.rs:389-390`).
- The path text casts segment lengths to 32 bits and separates paths exactly below that length
  (`Digests.PathHexSeparatesExactly`).
- Prerelease numbers with leading zeros are accepted and can be incomparable (`SemVer.IncomparableExactly`), and a
  caret by itself admits prereleases of its upper bound (`SemVer.CaretMeaning`); the requirement as a whole admits
  them only if another comparator opts in.
- Synchronising the registry after the first save stores the new agent session, and a direct-transport save
  that follows writes the report without it, which is why the outbox property leaves that field out.

## Model

| member | source | states |
|---|---|---|
| `EdgeCanonical.DecodeEncode` | crates/biscuit-verifier/src/edge.rs:268-483 | every set that encodes decodes back to its normal form: extents sorted, content roots sorted and without repeats |
| `EdgeCanonical.EncodeDecode` | crates/biscuit-verifier/src/edge.rs:386-483 | every accepted byte string re-encodes to itself, and the decoder yields only sets in normal form |
| `EdgeCanonical.SameBytesSameNormalForm` | crates/biscuit-verifier/src/edge.rs:268-383 | two encodable sets share bytes, hence their digest preimage, if and only if their normal forms are equal |
| `EdgeCanonical.ListingDoesNotMatter` | crates/biscuit-verifier/src/edge.rs:285-315 | rearranging extents or rearranging and repeating content roots changes neither success nor the bytes |
| `EdgeCanonical.NormalIsStable` | crates/biscuit-verifier/src/edge.rs:285-315 | normalizing an encodable set a second time changes nothing |
| `EdgeCanonical.PrefixFree` | crates/biscuit-verifier/src/edge.rs:386-483 | no strict extension of an accepted byte string is accepted |
| `EdgeCanonical.NoAcceptedPrefix` | crates/biscuit-verifier/src/edge.rs:386-483 | no strict prefix of an accepted byte string is accepted |
| `EdgeCanonical.DecodedExtentsOk` | crates/biscuit-verifier/src/edge.rs:338-371 | an accepted set passed every check, its extents are sorted, and any two extents of one pack share an ETag and are disjoint |
| `EdgeCanonical.AcceptedSetIsUnambiguous` | crates/biscuit-verifier/src/edge.rs:338-371 | in an accepted set no byte of a pack lies in two records, anywhere in the set |
| `EdgeCanonical.DecodedOrder` | crates/biscuit-verifier/src/edge.rs:285-371 | in an accepted set the content roots ascend, and the extents ascend by pack, then ETag, then offset: at the first byte where two of them differ the earlier has the smaller byte, or its ETag has ended |
| `EdgeCanonical.ComparatorMeans` | crates/biscuit-verifier/src/edge.rs:285-291 | the sort key compares packs first, then ETags, a proper prefix first, then offsets, byte by byte |
| `EdgeCanonical.DecodedBounds` | crates/biscuit-verifier/src/edge.rs:268-356 | an accepted set has a facet, roots, ETags, scopes and record lists that are not empty and within their limits, expires after it is issued, and has no empty range |
| `Layouts.CanonicalLayout` | crates/biscuit-verifier/src/edge.rs:268-376 | the canonical bytes are the magic, the fields of the normal form and their lengths, concatenated in order, every integer big-endian at its width |
| `EdgeOrder.NeighbourCheckIsGlobal` | crates/biscuit-verifier/src/edge.rs:338-371 | the check on sorted neighbours settles every pair of extents, and makes sort keys strictly increase |
| `EdgeOrder.AnySortServes` | crates/biscuit-verifier/src/edge.rs:285-291 | of all sorted rearrangements either all fail the checks or all are one list, so the unstable sort is harmless |
| `EdgeOrder.AuthorizedBytesAreOwned` | crates/biscuit-verifier/src/edge.rs:193-240 | a byte lies in some record of a pack exactly when it lies in some extent of that pack |
| `EdgeOrder.OneOwner` | crates/biscuit-verifier/src/edge.rs:193-371 | a byte of a pack has at most one owning record across all extents |
| `EdgeOrder.OneMatch` | crates/biscuit-verifier/src/edge.rs:490-510 | at most one extent has a given pack, ETag and range, so the refusal of two matches is never reached |
| `EdgeOrder.ExactExtentFindsExactly` | crates/biscuit-verifier/src/edge.rs:490-510 | the lookup returns an extent if and only if exactly that range is in the set |
| `EdgeExtents.TilingIsExact` | crates/biscuit-verifier/src/edge.rs:193-240 | the guard that walks the records accepts if and only if they cover every byte of the range once, in order, and nothing outside it |
| `EdgeExtents.AudienceParsePrints` | crates/biscuit-verifier/src/edge.rs:116-141 | an audience string that parses prints back to itself |
| `EdgeExtents.AudiencePrintParses` | crates/biscuit-verifier/src/edge.rs:116-141 | a printed audience parses back to itself if and only if its scope, where it has one, is not empty |
| `EdgeCodec.ValidateTiling` | crates/biscuit-verifier/src/edge.rs:193-240 | the loop over records decides the tiling predicate, including overflow of the running end |
| `EdgeCodec.SortedRoots` | crates/biscuit-verifier/src/edge.rs:313-315 | sorting a clone of the roots and deduplicating it gives the strictly sorted list of the same roots |
| `EdgeCodec.Encode` | crates/biscuit-verifier/src/edge.rs:268-376 | the encoder over one output buffer, with its running previous extent, computes the canonical bytes of the sorted set or refuses, exactly as specified |
| `EdgeCodec.Decode` | crates/biscuit-verifier/src/edge.rs:386-483 | the cursor decoder, which re-encodes and compares, accepts exactly the strings the specification accepts |
| `EdgeServing.AuthorizeExtentRequest` | crates/biscuit-verifier/src/edge.rs:620-718 | the entry point serves if and only if the set decodes, the token verifies with the injected request, header and root and expiry agree, and exactly the asked extent is in the set |
| `EdgeServing.ServesExactlyTheMintedSet` | crates/biscuit-verifier/src/edge.rs:540-586 | under a token carrying the scope check minted for an extent set, and no hash collision on it, the edge serves exactly the extents of that set for its repository, facet, audience and roots before its expiry, whatever bytes travel beside the token |
| `EdgeServing.CheckPins` | crates/biscuit-verifier/src/edge.rs:566-586 | the scope check holds only of a request whose repository, facet, audience and digest are all the minted ones |
| `EdgeServing.CheckAdmits` | crates/biscuit-verifier/src/edge.rs:566-586 | the scope check holds of the request that agrees with it on all four |
| `EdgeServing.ServedBytesHaveOneOwner` | crates/biscuit-verifier/src/edge.rs:530-538 | each byte of a served extent lies in exactly one record of the whole set |
| `Buffers.Cursor.Take` | crates/biscuit-verifier/src/edge.rs:868-879 | taking bytes advances the offset by exactly that many, or fails without passing the end of the input |
| `Buffers.Cursor.BoundedString` | crates/biscuit-verifier/src/edge.rs:915-920 | a string under a two-byte length is read only when it is UTF-8 and within the caller's bound |
| `Buffers.Encoder.Blob` | crates/capability-verifier/src/canonical.rs:77-95 | a byte field is appended under its four-byte length, or refused when the length does not fit |
| `Buffers.Encoder.BoundedString` | crates/biscuit-verifier/src/edge.rs:850-856 | a string is appended under its two-byte length, or refused when the length does not fit |
| `Layouts.BigEndianOrder` | crates/capability-verifier/src/canonical.rs:61-75 | integers of one width compare as their big-endian bytes do, most significant byte first |
| `Layouts.SignedWord` | crates/biscuit-verifier/src/envelope.rs:167-198 | a signed integer is written as itself, or as itself plus 2^64 when it is negative |
| `Utf8.ValidIsSpelled` | crates/biscuit-verifier/src/edge.rs:915-920 | text is accepted exactly when it is a run of Unicode scalar values, each in its shortest form |
| `Ordering.SortUnstable` | crates/biscuit-verifier/src/edge.rs:285-291 | sorting turns the array into a sorted rearrangement of itself, and says nothing about ties |
| `Ordering.LexLessParts` | crates/biscuit-verifier/src/edge.rs:285-315 | one byte string comes before another exactly when, where they first part, it has ended or has the smaller byte |
| `Envelope.ParsePrint` | crates/biscuit-verifier/src/envelope.rs:167-246 | any payload that parses re-encodes to the same bytes |
| `Envelope.PrintParse` | crates/biscuit-verifier/src/envelope.rs:167-246 | parsing a printed envelope gives it back at whole seconds when every right field is at most 1024 bytes and its times are representable, and fails otherwise |
| `Envelope.PrintParseIdentity` | crates/biscuit-verifier/src/envelope.rs:98-103 | parsing what was printed gives back the identical envelope exactly under short fields, representable times and whole seconds |
| `Layouts.EnvelopeLayout` | crates/biscuit-verifier/src/envelope.rs:148-198 | the signed payload is the version, device key, subject, counted rights and the two times, concatenated in order, and is refused only for an over-long subject, too many rights or an over-long right |
| `Envelope.LongPathPrintsButDoesNotParse` | crates/biscuit-verifier/src/envelope.rs:435-456 | a right field of 1025 bytes is printed but not parsed: the two limits differ |
| `Envelope.WireRoundTrip` | crates/biscuit-verifier/src/envelope.rs:295-333 | the signed wire form, split 64 bytes before its end, gives back the payload and signature |
| `Envelope.WireParsePrint` | crates/biscuit-verifier/src/envelope.rs:306-333 | received wire bytes that parse are written back unchanged |
| `Envelope.VerifySignature` | crates/biscuit-verifier/src/envelope.rs:274-293 | verification accepts if and only if some trusted key verifies the re-encoded payload and every key before it is well formed |
| `Envelope.ReceivedBytesAreWhatWasSigned` | crates/biscuit-verifier/src/envelope.rs:274-333 | verifying the re-encoded payload is verifying the very bytes received |
| `Envelope.EncodePayload` | crates/biscuit-verifier/src/envelope.rs:167-198 | the printer over one buffer computes the specified payload or refuses as specified |
| `Envelope.ReceiveBytes` | crates/biscuit-verifier/src/envelope.rs:314-333 | received bytes are split 64 before their end and parsed as specified |
| `Envelope.DecodePayload` | crates/biscuit-verifier/src/envelope.rs:200-246 | the cursor parser accepts and yields exactly what the specification does, trailing bytes refused |
| `SigningInjectivity.PolicyInjective` | crates/capability-verifier/src/canonical.rs:118-143 | a recovery policy's bytes fix it, up to an absent window meaning the default one, and fix where it ends |
| `SigningInjectivity.RootBodyInjective` | crates/capability-verifier/src/canonical.rs:145-180 | both owner-root bodies agree exactly when the roots agree on the fields written, an absent window equal to the default |
| `SigningInjectivity.RootBodiesApart` | crates/capability-verifier/src/canonical.rs:145-180 | the body without identifier of one root and the full body of another, hashed under one domain, coincide only if an account identifier equals an owner identifier |
| `SigningInjectivity.RootBodiesApartExactly` | crates/capability-verifier/src/canonical.rs:145-180 | the two uses are kept apart for all roots of given identifier lengths if and only if the lengths differ |
| `SigningInjectivity.RootBodiesMeet` | crates/capability-verifier/src/canonical.rs:145-180 | where the lengths agree two roots exist whose bodies coincide |
| `SigningInjectivity.TransitionBodyInjective` | crates/capability-verifier/src/canonical.rs:182-207 | a key transition's body fixes the transition, up to an absent window meaning the default |
| `SigningInjectivity.GrantInjective` | crates/capability-verifier/src/canonical.rs:232-250 | the action alone decides whether a scope follows, so grants are told apart without an absence marker |
| `SigningInjectivity.ScopelessAcceptWouldBeAmbiguous` | crates/capability-verifier/src/canonical.rs:232-250 | without that rule a grant without its scope, followed by bytes that look like one, would share its bytes with a scoped grant |
| `SigningInjectivity.ScopeInjective` | crates/capability-verifier/src/canonical.rs:252-280 | a timeline scope's bytes fix the scope, whichever credential identity it carries |
| `SigningInjectivity.CapabilityBodyInjective` | crates/capability-verifier/src/canonical.rs:282-311 | the signed capability body fixes the capability, and the body its identifier is taken over fixes all but the identifier |
| `SigningInjectivity.CapabilityBodiesApart` | crates/capability-verifier/src/canonical.rs:282-311 | the body with identifier and the body without, hashed under one domain, never coincide |
| `SigningInjectivity.BindingBodyInjective` | crates/capability-verifier/src/canonical.rs:313-326 | an owner binding's body fixes the binding |
| `SigningInjectivity.HandoffBodyInjective` | crates/capability-verifier/src/canonical.rs:328-339 | a transfer handoff's body fixes the handoff |
| `SigningInjectivity.AcceptanceBodyInjective` | crates/capability-verifier/src/canonical.rs:341-358 | an acceptance body fixes the handoff and the source's signature over it |
| `SigningInjectivity.AuditBodyInjective` | crates/capability-verifier/src/canonical.rs:360-375 | an audit body fixes the whole transfer, both signatures and the record before it |
| `SigningInjectivity.CreationBodyInjective` | crates/capability-verifier/src/creation.rs:95-132 | a spool-creation body fixes the creation statement |
| `SigningInjectivity.MintRootBodyInjective` | crates/capability-verifier/src/creation.rs:134-163 | a mint-root attachment body fixes the attachment |
| `SigningReaders.KeyBodyReadsBack` | crates/capability-verifier/src/canonical.rs:33-38 | what a key identifier is taken over reads back as the algorithm and then the key |
| `SigningReaders.PolicyReadsBack` | crates/capability-verifier/src/canonical.rs:118-143 | a recovery policy reads back as its threshold, its guardians one by one and the effective window |
| `SigningReaders.RootReadsBack` | crates/capability-verifier/src/canonical.rs:145-180 | a reader that takes version, identifiers, key, policy, claimable flag, nonce and claimable-until off the front of a root body gets the root's own, and nothing is left |
| `SigningReaders.TransitionReadsBack` | crates/capability-verifier/src/canonical.rs:182-207 | a transition body reads back field by field: version, owner, previous state hash, sequence, kind, next key, next policy, both times, nonce |
| `SigningReaders.SelectorReadsBack` | crates/capability-verifier/src/canonical.rs:209-217 | a selector reads back as the spool, its path segments and the descendants flag |
| `SigningReaders.PrincipalReadsBack` | crates/capability-verifier/src/canonical.rs:219-230 | a principal reads back as kind, identifier, and a key exactly when it has one |
| `SigningReaders.ScopeReadsBack` | crates/capability-verifier/src/canonical.rs:252-280 | a timeline scope reads back as the account, the tagged credential identity, key hash, credential class, thread and origin |
| `SigningReaders.GrantReadsBack` | crates/capability-verifier/src/canonical.rs:232-250 | a grant reads back as its selector, its action and, for the action that carries one, its scope |
| `SigningReaders.CapabilityReadsBack` | crates/capability-verifier/src/canonical.rs:282-311 | a capability body reads back field by field, with its identifier last where it has one |
| `SigningReaders.BindingReadsBack` | crates/capability-verifier/src/canonical.rs:313-326 | an owner binding reads back as version, owner, root key, root state hash, kind, epoch and challenge nonce |
| `SigningReaders.HandoffReadsBack` | crates/capability-verifier/src/canonical.rs:328-339 | a handoff body reads back as version, resource, sequence, source owner and its state hash, destination owner and its state hash, nonce |
| `SigningReaders.AcceptanceReadsBack` | crates/capability-verifier/src/canonical.rs:341-358 | an acceptance body reads back as the handoff body and then the source's signature |
| `SigningReaders.AuditReadsBack` | crates/capability-verifier/src/canonical.rs:360-375 | an audit body reads back as the acceptance body, the destination's signature, the time and the previous record's hash |
| `SigningReaders.CreationReadsBack` | crates/capability-verifier/src/creation.rs:95-132 | a spool-creation body reads back field by field, parent path and name included |
| `SigningReaders.MintRootReadsBack` | crates/capability-verifier/src/creation.rs:134-163 | a mint-root body reads back field by field, owner key before mint key |
| `SigningEncoder.OwnerRootWithoutId` | crates/capability-verifier/src/canonical.rs:145-161 | the encoder appends the specified root body without identifier, or refuses a missing or unordered part |
| `SigningEncoder.OwnerRootBody` | crates/capability-verifier/src/canonical.rs:163-180 | the encoder appends the specified root body, or refuses |
| `SigningEncoder.CheckOrder` | crates/capability-verifier/src/canonical.rs:118-143 | the loop over guardians accepts if and only if their key identifiers strictly increase |
| `SigningEncoder.EncodeTransition` | crates/capability-verifier/src/canonical.rs:182-207 | the encoder appends the specified transition body, or refuses |
| `SigningEncoder.WriteGrant` | crates/capability-verifier/src/canonical.rs:232-250 | one grant is appended as specified, and refused when the scope's presence contradicts its action |
| `SigningEncoder.EncodeCapability` | crates/capability-verifier/src/canonical.rs:282-311 | the encoder appends the specified capability body, with or without identifier, or refuses |
| `SigningEncoder.EncodeBinding` | crates/capability-verifier/src/canonical.rs:313-326 | the encoder appends the specified binding body, or refuses |
| `SigningEncoder.EncodeHandoff` | crates/capability-verifier/src/canonical.rs:328-339 | the encoder appends the specified handoff body, or refuses |
| `SigningEncoder.EncodeAcceptance` | crates/capability-verifier/src/canonical.rs:341-358 | the encoder appends the specified acceptance body, or refuses |
| `SigningEncoder.EncodeAudit` | crates/capability-verifier/src/canonical.rs:360-375 | the encoder appends the specified audit body, or refuses |
| `SigningEncoder.EncodeCreation` | crates/capability-verifier/src/creation.rs:95-132 | the encoder appends the specified creation body, or refuses |
| `SigningEncoder.EncodeMintRoot` | crates/capability-verifier/src/creation.rs:134-163 | the encoder appends the specified mint-root body, or refuses |
| `Digests.DomainRecovered` | crates/capability-verifier/src/canonical.rs:16-31 | a digest's preimage begins with one domain only, which can be read off it |
| `Digests.DomainSeparation` | crates/capability-verifier/src/canonical.rs:16-31 | no domain is a prefix of another's preimage, so domain and body are both fixed by the bytes hashed |
| `Layouts.PreimageLayout` | crates/capability-verifier/src/canonical.rs:16-31 | a digest is taken over the domain's name and then the body, and no more |
| `Digests.PathHexSeparates` | crates/capability-verifier/src/capability.rs:229-236 | segment lists of at most 2^32 - 1 bytes per segment have equal hexadecimal texts if and only if they are equal |
| `Digests.LongSegmentCollides` | crates/capability-verifier/src/capability.rs:229-236 | the cast to 32 bits loses a longer length: one long segment and a list of empty ones share a text |
| `Digests.PathHexSeparatesExactly` | crates/capability-verifier/src/capability.rs:229-236 | the text separates all lists of segments up to n bytes if and only if n is below 2^32 |
| `GrantFacts.PathHexOf` | crates/capability-verifier/src/capability.rs:229-236 | the loop that fills the byte buffer computes that text |
| `Layouts.PathLayout` | crates/capability-verifier/src/capability.rs:229-236 | the text is the hexadecimal of each segment under its length in four bytes |
| `GrantFacts.FactReadsBack` | crates/capability-verifier/src/capability.rs:238-255 | a grant's fact decodes to its spool identifier and path, with its flag and action |
| `GrantFacts.ExpectedGrants` | crates/capability-verifier/src/capability.rs:238-255 | the expected set holds one fact per grant, and is refused if and only if a grant has no selector |
| `GrantFacts.FactSeparatesGrants` | crates/capability-verifier/src/capability.rs:238-255 | two grants make one fact if and only if they select alike and grant the same action |
| `GrantFacts.ExpectedGrantsSeparate` | crates/capability-verifier/src/capability.rs:238-255 | two capabilities expect the same facts if and only if they grant the same actions on the same selections |
| `Hex.HexRoundTrip` | crates/capability-verifier/src/capability.rs:229-236 | hexadecimal text decodes back to its bytes |
| `Layouts.HexDigits` | crates/capability-verifier/src/capability.rs:229-236 | hexadecimal digits are the sixteen lower-case characters in order, high half first |
| `ProviderPlan.PlanBytesInjective` | crates/biscuit-verifier/src/lib.rs:589-614 | the possession preimage fixes all six fields, whatever newlines, equals signs, colons or digits they hold |
| `ProviderPlan.DecimalPrefixUnique` | crates/biscuit-verifier/src/lib.rs:589-614 | a decimal length ends at the first colon, whatever follows it |
| `ProviderPlan.BuildPlanBytes` | crates/biscuit-verifier/src/lib.rs:589-614 | the loop that appends field after field computes that preimage |
| `Layouts.PlanLayout` | crates/biscuit-verifier/src/lib.rs:589-614 | the preimage is the header and six lines, each a name, the value's length in decimal and the value |
| `Layouts.DecimalDigits` | crates/biscuit-verifier/src/lib.rs:589-614 | decimal digits come most significant first, with no leading zero but in zero |
| `Ceiling.EvaluateOps` | crates/biscuit-verifier/src/facts.rs:1417-1461 | the stack machine, run in a loop, computes the fold of its steps, closures included |
| `Ceiling.MachineIsExact` | crates/biscuit-verifier/src/facts.rs:1417-1490 | the machine answers a value if and only if the list, apart from parentheses that begin it or a closure's body, is the postfix form of a well-typed tree of supported operators with that value |
| `Ceiling.AnswerIsPostfixExactly` | crates/biscuit-verifier/src/facts.rs:1417-1490 | an answered list is a well-formed postfix program if and only if no parentheses begin it or the body of a closure in it |
| `Ceiling.TreeIsExact` | crates/biscuit-verifier/src/facts.rs:1417-1490 | on the postfix form of any tree the machine yields the tree's value, or Unknown when it has none |
| `Ceiling.UnknownIsAbsorbing` | crates/biscuit-verifier/src/facts.rs:1417-1490 | once Unknown is on the stack no continuation yields anything else |
| `Ceiling.StrayParensAccepted` | crates/biscuit-verifier/src/facts.rs:1417-1461 | parentheses are accepted with nothing before them, so well-formedness holds only with parentheses set aside |
| `Engine.EngineAgrees` | crates/biscuit-verifier/src/facts.rs:1417-1490 | where the machine answers, the engine gives the same value if the list keeps the engine's discipline on parentheses and closures, and refuses the list if it does not |
| `Engine.AnsweredButRefused` | crates/biscuit-verifier/src/facts.rs:1440-1455 | parentheses around nothing and a closure left as the result are answered by the machine and refused by the engine |
| `Engine.WrittenIsDisciplined` | crates/biscuit-verifier/src/facts.rs:1417-1490 | every expression written as text keeps the discipline wherever the machine answers it |
| `Engine.TreeResult` | crates/biscuit-verifier/src/facts.rs:1417-1490 | the engine's stack machine gives a tree's program the tree's short-circuit value, or refuses it with the tree |
| `Engine.StrictIsShortCircuit` | crates/biscuit-verifier/src/facts.rs:1479-1490 | conjunction and disjunction of two computed sides agree with the engine's short-circuit forms |
| `Programs.ProgramsDetermineTrees` | crates/biscuit-verifier/src/facts.rs:1417-1490 | equal postfix programs come from equal trees |
| `Programs.AnswerHasOneTree` | crates/biscuit-verifier/src/facts.rs:1417-1490 | an answered list has exactly one tree once parentheses enclosing nothing are set aside |
| `Datalog.AllowsIsStrictReading` | crates/biscuit-verifier/src/facts.rs:1399-1415 | a query allows a resource if and only if it has one resource atom over two variables and every expression, but for parentheses enclosing nothing, is the program of a strict tree with value true |
| `Datalog.AllowedQueryHolds` | crates/biscuit-verifier/src/facts.rs:1399-1415 | an allowed query is satisfied by the engine in every world with the resource, if its variables are distinct or kind equals path, and its expressions keep the discipline |
| `Datalog.AllowanceIsSoundExactly` | crates/biscuit-verifier/src/facts.rs:1399-1415 | an allowed query holds of its resource alone if and only if its variables are distinct or kind equals path, and its expressions keep the discipline |
| `Datalog.WrittenQueryIsSound` | crates/biscuit-verifier/src/facts.rs:1399-1415 | a query written as text with distinct variables is always sound where it is allowed |
| `Datalog.UndisciplinedIsUnsound` | crates/biscuit-verifier/src/facts.rs:1399-1415 | a query whose expression begins with parentheses or is a bare closure is allowed where the engine refuses it, for every resource |
| `Datalog.RepeatedVariableIsUnsound` | crates/biscuit-verifier/src/facts.rs:1399-1415 | a query that uses one variable twice is allowed where the engine refuses it, for every kind different from the path |
| `Datalog.MultiAtomNeverAllows` | crates/biscuit-verifier/src/facts.rs:1399-1415 | a body with any number of atoms other than one allows nothing |
| `IdentityScope.IdentityObservationBounds` | crates/biscuit-verifier/src/facts.rs:1254-1350 | the loops over checks, candidates and pairs compute the specified limit and scope, and its text |
| `IdentityScope.SortChecks` | crates/biscuit-verifier/src/facts.rs:1254-1300 | the first pass finds whether any check limits disclosure and collects the resource alternatives of each |
| `IdentityScope.LimitIsExact` | crates/biscuit-verifier/src/facts.rs:1264-1310 | disclosure is limited if and only if some check exempts self-observation and has another alternative about an operation or a resource; unlimited or without resource ceilings the own rights are shown, except that limited staff are shown every spool and no standing |
| `IdentityScope.QualifyingPairs` | crates/biscuit-verifier/src/facts.rs:1300-1350 | exactly the candidate pairs that the rights reach and every group allows are kept |
| `IdentityScope.DisclosureIsExact` | crates/biscuit-verifier/src/facts.rs:1254-1415 | the scope is a list of spools if and only if the token carries a resource ceiling check, and then a candidate path is listed if and only if the rights reach it by inheritance and every ceiling check in the token has a single-atom resource alternative all of whose expressions are strictly true of it |
| `IdentityScope.DisclosedPathsPassTheirCeilings` | crates/biscuit-verifier/src/facts.rs:1254-1415 | a request for any disclosed path satisfies, in the engine, every resource ceiling check the token carries, if the engine reads their alternatives as the verifier does |
| `IdentityScope.CandidatesAreStrings` | crates/biscuit-verifier/src/facts.rs:1315-1330 | the candidates are the kinds and paths of the rights and the literals of every resource alternative, closures included |
| `IdentityScope.StringsOfOps` | crates/biscuit-verifier/src/facts.rs:1352-1365 | the literals gathered from an expression are its texts less one closing slash, those in closures included |
| `IdentityScope.ReadableIsCanRead` | crates/biscuit-verifier/src/facts.rs:1375-1390 | the bound on disclosure asks exactly what the read gate asks |
| `IdentityScope.EveryCeilingIsPassed` | crates/biscuit-verifier/src/facts.rs:1264-1345 | testing the collected groups is testing every ceiling check of the token, alternative by alternative |
| `IdentityScope.MultiAtomCeilingDisclosesNothing` | crates/biscuit-verifier/src/facts.rs:1399-1415 | a ceiling with only multi-atom resource alternatives discloses no spool |
| `Resource.SpoolParent` | crates/biscuit-verifier/src/resource.rs:86-94 | a parent is non-empty and strictly shorter than its child |
| `Resource.ResolveParent` | crates/biscuit-verifier/src/resource.rs:149-177 | every kind's parent is a non-empty spool path, shorter than the child where the child is a spool |
| `Resource.Ancestors.Next` | crates/biscuit-verifier/src/resource.rs:108-125 | the iterator yields the walk's next ancestor and stays finished once it ends |
| `Resource.PrefixCeilingIsAncestorWalk` | crates/biscuit-verifier/src/resource.rs:86-125 | a grant covers a well-formed path by equality or prefix if and only if it is the path or the walk from it meets the grant |
| `Resource.JoinWellFormed` | crates/biscuit-verifier/src/resource.rs:86-94 | joining non-empty segments gives a well-formed path whose parent drops the last segment |
| `Resource.WalkIsSegmentPrefixes` | crates/biscuit-verifier/src/resource.rs:108-125 | the walk yields exactly the proper segment prefixes, nearest first |
| `Resource.SplitThenBuild` | crates/biscuit-verifier/src/resource.rs:186-202 | whatever splits is rebuilt by joining the two parts |
| `Resource.BuildThenSplit` | crates/biscuit-verifier/src/resource.rs:186-202 | splitting undoes building if and only if a slash followed by the thread name contains no separator |
| `Resource.ThreadParent` | crates/biscuit-verifier/src/resource.rs:149-177 | an unambiguous thread path has the spool it was built under as its parent |
| `Resource.ContextParent` | crates/biscuit-verifier/src/resource.rs:149-177 | a context's parent is the spool at its own path, trailing slashes aside |
| `Resource.OrphanThread` | crates/biscuit-verifier/src/resource.rs:149-177 | a thread with no separator, or with nothing before its last one, has no parent |
| `Resource.KindsByName` | crates/biscuit-verifier/src/resource.rs:35-70 | the three kinds are known by their names and no others |
| `Delegation.AgentAttenuationBlock` | crates/biscuit-verifier/src/delegation.rs:65-140 | the block carries the agent facts, the expiry, and one check per restricted dimension |
| `Delegation.OperationCheckMeaning` | crates/biscuit-verifier/src/delegation.rs:82-105 | the operation check admits exactly the listed operations and observing oneself |
| `Delegation.ResourceCheckMeaning` | crates/biscuit-verifier/src/delegation.rs:106-140 | the resource check admits exactly the exempt operations, and requests on listed resources outside the two listing operations |
| `Delegation.CeilingAgreesWithInheritance` | crates/biscuit-verifier/src/delegation.rs:106-122 | a well-formed spool path is listed exactly when a listed spool is it or one of its ancestors |
| `Delegation.TrueIsValue` | crates/biscuit-verifier/src/delegation.rs:82-138 | an expression of a delegated check is true to the engine if and only if its tree is |
| `Delegation.DelegatedCeilingDisclosesNothing` | crates/biscuit-verifier/src/delegation.rs:125-140 | under a delegated resource ceiling self-observation discloses no spool, since its body has two atoms |
| `Delegation.OperationCeilingLimits` | crates/biscuit-verifier/src/facts.rs:1264-1310 | an operation ceiling that does not list self-observation limits disclosure, whatever else the token carries |
| `Delegation.OperationCheckKinds` | crates/biscuit-verifier/src/delegation.rs:82-105 | the operation check exempts self-observation if and only if it does not list it, and confines no resource |
| `Delegation.AttenuatedScope` | crates/biscuit-verifier/src/facts.rs:1254-1350 | what one delegation discloses, case by case: nothing under a resource ceiling, the rights without standing or every spool to staff under an operation ceiling that does not list self-observation, everything otherwise |
| `Authority.VerifyClientMinted` | crates/biscuit-verifier/src/lib.rs:385-441 | a client-minted token is accepted if and only if the received bytes parse as an envelope, as received they are signed under a trusted key, it has not expired, the token authorizes under its device key, asserts no reserved identity, names its subject, and every right is covered |
| `Authority.HeldAtSomeStrength` | crates/biscuit-verifier/src/lib.rs:661-676 | a covered right is held in the same place at that action or a stronger one |
| `Authority.CoverageIsByAccess` | crates/biscuit-verifier/src/lib.rs:670-676 | an action covers another if and only if holding it gives every access that holding the other does |
| `Authority.AccessIsExact` | crates/biscuit-verifier/src/facts.rs:650-751 | unless staff, one may read, write or administer a resource if and only if some right of a sufficient action is on it or, for a known kind, on a resource the walk from it meets |
| `Authority.ReadersCannotWrite` | crates/biscuit-verifier/src/facts.rs:686-700 | rights to read alone permit no writing and no administering anywhere |
| `Authority.AcceptedIsPlain` | crates/biscuit-verifier/src/lib.rs:412-441 | the facts of an accepted client-minted token are those of a plain holder of its rights, but for the subject |
| `Authority.BeforeIsEarlier` | crates/biscuit-verifier/src/lib.rs:397-403 | an envelope is good strictly before its expiry, to the nanosecond |
| `Authority.ClientMintedIsContained` | crates/biscuit-verifier/src/facts.rs:650-751 | whatever an accepted client-minted token may read, write or administer through the whole walk, a plain holder of the rights in the signed bytes received may too |
| `ScopeString.StrongestActions` | crates/biscuit-verifier/src/facts.rs:1507-1529 | the map filled in a loop holds each spool path's strongest canonical action and no other path |
| `ScopeString.RenderScope` | crates/biscuit-verifier/src/facts.rs:1507-1553 | the summary names every path with a spool right under the greatest action held on all of them, so it never shows more than is held |
| `ScopeString.RenderScopeString` | crates/biscuit-verifier/src/facts.rs:1507-1553 | the summary is written as one token per path in order and the action, or the fixed text for staff and for none |
| `ScopeString.SpellingIsUnique` | crates/biscuit-verifier/src/facts.rs:1507-1553 | a set of paths and an action have exactly one text |
| `ScopeString.ListedInTextOrder` | crates/biscuit-verifier/src/facts.rs:1530-1553 | paths are listed by code points, a shorter path before its extensions |
| `ScopeString.TextLayout` | crates/biscuit-verifier/src/facts.rs:1530-1553 | the text is one token per path with a single space after each, then the action |
| `ScopeString.ActionsByStrength` | crates/biscuit-verifier/src/facts.rs:1516-1521 | read, write and admin are of increasing strength, nothing else has any, and strengths are shown by the same names |
| `IdentityScope.ShownIsHeld` | crates/biscuit-verifier/src/facts.rs:1507-1553 | each path in the summary can be read, and written or administered when the action shown says so |
| `IdentityScope.NothingGreaterIsHeld` | crates/biscuit-verifier/src/facts.rs:1507-1553 | on some path in the summary no right gives more than the action shown |
| `Chain.VerifiedDelegationChain` | crates/biscuit-verifier/src/facts.rs:783-956 | the loop with its running key and agent computes the fold of the blocks |
| `Chain.DelegatedKeyIsHandOver` | crates/biscuit-verifier/src/facts.rs:858-928 | a key is handed over exactly when the only delegation names the preceding block and a child key under the running key's signature |
| `Chain.AcceptedIffLinked` | crates/biscuit-verifier/src/facts.rs:783-956 | a chain is accepted if and only if some sequence of keys from the anchor links every block in one of the three permitted ways |
| `Chain.PrefixAccepted` | crates/biscuit-verifier/src/facts.rs:783-956 | every non-empty prefix of an accepted chain is accepted, with the running key at that point |
| `Chain.AgentIsLastLabel` | crates/biscuit-verifier/src/facts.rs:930-956 | an accepted chain names the agent of the last delegating block that carries a label, and none if none does |
| `Chain.PopPayloadInjective` | crates/biscuit-verifier/src/lib.rs:86-96 | a delegation's signed payload fixes the parent identifier and the child key |
| `Chain.PopPayloadLayout` | crates/biscuit-verifier/src/lib.rs:86-96 | the signed payload is the domain in ASCII with a NUL, the parent identifier, and the child key |
| `Chain.PresenceIsMinted` | crates/biscuit-verifier/src/facts.rs:1026-1080 | a presence block is accepted exactly when it is the one minted for its subject, not empty, and a lifetime of one second to five minutes |
| `Chain.EdgeIsMarkerAndChecks` | crates/biscuit-verifier/src/facts.rs:975-998 | an edge block is accepted exactly when it asserts only its marker, derives nothing and carries a check |
| `Chain.LabelsLetThrough` | crates/biscuit-verifier/src/facts.rs:930-956 | a delegating block may carry no agent label, or one that is not empty |
| `SemVer.CompareLess` | scripts/check-published-api-graph.py:94-113 | the comparison that walks both prerelease lists computes the specified order |
| `SemVer.LessMeetsSpecification` | scripts/check-published-api-graph.py:94-113 | on all versions the coded order is that of section 11 of Semantic Versioning 2.0.0 |
| `SemVer.StrictTotalOrder` | scripts/check-published-api-graph.py:94-113 | without leading zeros the order is irreflexive, transitive, asymmetric and total, consistent with equality |
| `SemVer.IncomparableExactly` | scripts/check-published-api-graph.py:94-113 | two different versions are incomparable if and only if they share a core and first differ at two spellings of one number |
| `SemVer.LeadingZerosAreIncomparable` | scripts/check-published-api-graph.py:94-113 | 1.0.0-01 and 1.0.0-1 differ, and neither precedes the other |
| `SemVer.CaretMeaning` | scripts/check-published-api-graph.py:249-294 | a caret admits exactly the versions at or above it that agree up to its leftmost non-zero part, and prereleases of its upper bound |
| `SemVer.CaretOnReleases` | scripts/check-published-api-graph.py:249-294 | among releases a caret admits exactly those at or above it that agree up to that part |
| `SemVer.PivotIsLeftmostNonZero` | scripts/check-published-api-graph.py:249-255 | the part a caret pins is its leftmost non-zero one, or the last one given when all are zero |
| `Requirements.TildeMeaning` | scripts/check-published-api-graph.py:288-293 | a tilde admits exactly the versions at or above the one named that agree on its major and, where given, minor, and prereleases of its upper bound |
| `Requirements.ComparisonMeaning` | scripts/check-published-api-graph.py:273-287 | the comparing operators speak of precedence against the version named, equality aside, and a partial equals fixes the numbers given |
| `Requirements.WildcardMeaning` | scripts/check-published-api-graph.py:266-269 | a wildcard fixes the numbers before it and nothing else, whatever the operator |
| `Requirements.CorePrecedence` | scripts/check-published-api-graph.py:94-113 | core numbers decide at the first of major, minor and patch in which two versions differ |
| `Requirements.NumbersByDigits` | scripts/check-published-api-graph.py:94-113 | of two numeric identifiers without leading zeros the shorter comes first, then the one with the smaller digit where they first differ |
| `Requirements.WordsAsText` | scripts/check-published-api-graph.py:94-113 | numbers come before words, and words compare as text |
| `Requirements.SpecificationChain` | scripts/check-published-api-graph.py:94-113 | the eight versions of the example in section 11.4 of Semantic Versioning 2.0.0 ascend |
| `SemVer.RequirementMatches` | scripts/check-published-api-graph.py:297-320 | a version meets a requirement if and only if every comparator admits it and, for a prerelease, one names a prerelease of its core; malformed comparators are errors exactly when reached |
| `Requirements.MeetsExactly` | scripts/check-published-api-graph.py:297-320 | a requirement is met when every comparator admits the version and, for a prerelease, one gives its core and a prerelease of its own |
| `Outbox.EveryRunIsConsistent` | crates/agent-relay/src/relay.rs:1708-1753 | over every run of open, update, close and flush, stopped after any file operation, each stored report not pending has an outbox entry equal to it except in the flush fields and agent session |
| `Outbox.StoredIsPendingOrDelivered` | crates/agent-relay/src/relay.rs:1708-1753 | from an empty disk, whatever was run and wherever it crashed, each stored report is pending or in the outbox |
| `Outbox.CompletedFlushLeavesNothingPending` | crates/agent-relay/src/relay.rs:1708-1732 | a flush of all sessions that is not cut short leaves no stored report pending |
| `Outbox.CompletedOperations` | crates/agent-relay/src/relay.rs:1605-1697 | a completed update or close stores its content under the same session, and adds it to the outbox under direct transport, or at close under end transport, and not otherwise |
| `Outbox.SafeExecKeeps` | crates/agent-relay/src/relay.rs:2918-2926 | appending before saving keeps consistency however many of the writes complete |
| `Outbox.FlushClears` | crates/agent-relay/src/relay.rs:1708-1732 | flushing a list that names every pending session leaves none pending and adds no session |
| `Outbox.SessionReportStore.EnqueueReport` | crates/agent-relay/src/relay.rs:2918-2926 | one append and one save, in that order, stopping where the process dies |
| `Outbox.SessionReportStore.SyncRegistry` | crates/agent-relay/src/relay.rs:2028-2119 | the report is saved again, with its new agent session, exactly when a registry entry had to be created |
| `Outbox.SessionReportStore.PersistReport` | crates/agent-relay/src/relay.rs:1734-1753 | direct transport enqueues and the others save, then the registry is synchronised |
| `Outbox.SessionReportStore.OpenSession` | crates/agent-relay/src/relay.rs:1308-1313 | the report is saved and synchronised, and enqueued and synchronised again for direct transport |
| `Outbox.SessionReportStore.UpdateSession` | crates/agent-relay/src/relay.rs:1605-1652 | an update marks the report pending and persists it, and fails without writing when there is none |
| `Outbox.SessionReportStore.CloseSession` | crates/agent-relay/src/relay.rs:1655-1697 | closing enqueues for direct and end transport and saves for spool |
| `Outbox.SessionReportStore.ListPending` | crates/agent-relay/src/relay.rs:3147-3166 | listing finds exactly the pending sessions, sorted |
| `Outbox.SessionReportStore.FlushReports` | crates/agent-relay/src/relay.rs:1708-1732 | each listed pending session is enqueued and synchronised in turn, and the count is the number of outbox entries added |
| `Controls.ComposeTakesPrefix` | crates/agent-relay/src/device_runs.rs:330-353 | a response takes a prefix of what is waiting, all steers but for a final stop, within 128 KiB, and stops early only at a control that cannot join it |
| `Controls.HeadIsDelivered` | crates/agent-relay/src/device_runs.rs:330-353 | an accepted steer or stop at the head is delivered whatever its size when the extra context is under 64 KiB |
| `Controls.ExtendKeepsBoth` | crates/agent-relay/src/device_runs.rs:344-347 | the text so far is a prefix, the instruction a suffix, and two newlines stand between them |
| `Controls.JoinedSnoc` | crates/agent-relay/src/device_runs.rs:330-350 | steers are joined in the order they were requested |
| `Controls.LimitsInBytes` | crates/agent-relay/src/device_runs.rs:321-343 | a page is at most 32 controls, a response at most 131072 bytes, and a request above 65536 bytes is refused |
| `Controls.AcknowledgeKeepsPrefix` | crates/repo/src/device_runs.rs:743-765 | acknowledging only the oldest control not done keeps the done controls of every run a prefix of its queue |
| `Controls.AcknowledgeAt` | crates/repo/src/device_runs.rs:743-765 | acknowledging the first control not done succeeds and moves the done prefix by one |
| `Controls.ComposeResponse` | crates/agent-relay/src/device_runs.rs:326-353 | the loop over pending controls computes the specified response |
| `ControlHooks.EveryRunIsOrdered` | crates/agent-relay/src/device_runs.rs:308-374 | the ordering invariant holds over every interleaving of requests, page reads, responses, acknowledgements, failures and completions |
| `ControlHooks.DeliveryIsOrdered` | crates/agent-relay/src/device_runs.rs:308-374 | from an empty store: acknowledged controls are a prefix of each queue, each was in a flushed response or observed complete, every response is one block of a queue with nothing after a stop, and no acknowledgement owed is refused |
| `ControlHooks.FlushBlock` | crates/agent-relay/src/device_runs.rs:321-369 | a response to a page, however stale, is a block of its queue, with nothing undone before it |
| `ControlHooks.OwedIsAccepted` | crates/agent-relay/src/device_runs.rs:370-373 | an acknowledgement a hook owes is never refused, whatever other hooks did since it read its page |
| `ControlHooks.RedeliveryExactly` | crates/agent-relay/src/device_runs.rs:321-369 | a response repeats an acknowledged control if and only if its page's first control has been acknowledged since the page was read |
| `ControlHooks.StalePageRedelivers` | crates/agent-relay/src/device_runs.rs:321-373 | two hooks reading one control deliver it twice, the second time after it was acknowledged |
| `ControlHooks.Device.AcknowledgeControlDelivery` | crates/repo/src/device_runs.rs:743-765 | repeated acknowledgement changes nothing, one out of order is refused, and otherwise exactly that control becomes done |
| `ControlHooks.Device.AcknowledgeAll` | crates/agent-relay/src/device_runs.rs:370-373 | delivered controls are acknowledged in order up to the first failure, whatever others do in between, and none is refused |
| `ControlHooks.Device.ClaudeControls` | crates/agent-relay/src/device_runs.rs:308-374 | with others acting between its reads, its response and each acknowledgement, a hook answers the page it read, writes before it acknowledges, acknowledges nothing after a failed write, and the call is a run of the step system |
| `Controls.PendingIsSuffix` | crates/repo/src/device_runs.rs:719-742 | what is pending is the queue after its done prefix |

## Left out

- Ed25519, SHA-256, BLAKE3: key validity, verification and hashes are parameters; the collision assumption is written where it is used.
- Base64 and protobuf decoding, and the Biscuit token format: blocks are records of facts, checks and rules.
- The Datalog engine's parser and fixpoint: a query is a body of atoms and postfix expressions, satisfied by an assignment of its variables; rule heads and derived facts are not modelled.
- The Datalog engine is a library that is not part of this repository: its evaluation is modelled as the stack machine in `Engine`, with its demands on parentheses and closures, and values other than text and truth, and the operators on them, have no value here.
- Text escaping in generated Datalog, and the difference between the two equality operators there: both compare text with text.
- The date library's range is the parameter `representable`.
- The wire value of the timeline-acceptance action is a parameter, since the generated enum is not part of this model.
- Error messages and which of several errors is reported first: results are success or failure.
- UTF-8 text is a byte string with a validity predicate in the codecs and a sequence of characters in the authority modules.
- The edge cursor and the envelope cursor differ only in their error types and share one class here, and so do the output buffers.
- `authorize_native_provider_extent`, token inspection, the version-one signature format, key delegation and boundary authority: sequences of guards over library calls.
- The keyring and the replay of owner history: they rest on transition rules that are not part of this model.
- Authority.VerifyClientMinted: does not model parsing and authorizing the token itself, which is the parameter `authorize`, or the device key recorded in the accepted facts.
- Operator standing of a token is modelled only as far as the client-minted fence and the access checks consult it.
- The identity scope's entries of kinds other than spool: they are qualified like the others but not written, as in the source.
- Outbox.EveryRunIsConsistent: does not model an append torn in the middle of a line; a crash falls between file operations.
- Outbox: progress, usage and path updates are one update of opaque content; attach precedence, probing and worktree diffs are decided elsewhere.
- Digests.PathHexSeparates: does not cover segments of 2^32 bytes and more, because there the text collides; Digests.PathHexSeparatesExactly gives the exact bound.
- ControlHooks.Device.ClaudeControls: does not model the JSON text of the response or reading the run record, whose outcomes are parameters.
- ControlHooks.DeliveryIsOrdered: does not model responses cut short in transit, because only a write that was flushed counts as a response.
- ControlHooks.EveryRunIsOrdered: does not model the store's refusals of blank instructions, stale run versions or unsupported actions; runs with such requests are covered as well.
- SemVer: splitting requirement text into comparators and reading their numbers; parsed comparators, and parse failures, are the input.
- Harness probing, checkout creation, configuration, packaging and benchmark scripts, and conformance adapters.
