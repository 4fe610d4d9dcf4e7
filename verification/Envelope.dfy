/** Grant envelopes: the canonical signing payload, its parser, and the signed wire form. */
module Envelope {
  import opened Bytes
  import opened Buffers

  const ENVELOPE_VERSION: byte := 1
  const MAX_SUBJECT_LEN := 256
  const MAX_RIGHTS := 64
  const MAX_RIGHT_FIELD_LEN := 1024
  const SIGNATURE_LEN := 64

  type Signature = b: bytes | |b| == SIGNATURE_LEN witness seq(SIGNATURE_LEN, _ => 0)

  type EnvelopeRight = Right<Text>

  /** A UTC instant; the payload keeps whole seconds only. */
  datatype Instant = Instant(seconds: i64, nanos: nat)

  datatype GrantEnvelope = GrantEnvelope(
    devicePubkey: Array32,
    subject: Text,
    rights: seq<EnvelopeRight>,
    issuedAt: Instant,
    expiresAt: Instant)

  datatype SignedGrantEnvelope = SignedGrantEnvelope(envelope: GrantEnvelope, signature: Signature)

  // ----- layout -----

  function PutRight(r: EnvelopeRight, rest: bytes): bytes { PutText(r.kind, PutText(r.path, PutText(r.action, rest))) }

  function PutTimes(e: GrantEnvelope, rest: bytes): bytes {
    PutI64(e.issuedAt.seconds, PutI64(e.expiresAt.seconds, rest))
  }

  function PutEnvelope(e: GrantEnvelope, rest: bytes): bytes {
    PutU8(ENVELOPE_VERSION, PutRaw(e.devicePubkey, PutText(e.subject,
      PutU16(Low16(|e.rights|), PutMany(PutRight, e.rights, PutTimes(e, rest))))))
  }

  /** The right's fields all fit the two-byte length the printer writes, or the parser's tighter bound. */
  predicate FieldsUpTo(limit: nat, r: EnvelopeRight) { |r.kind| <= limit && |r.path| <= limit && |r.action| <= limit }

  predicate RightsUpTo(limit: nat, rights: seq<EnvelopeRight>) { forall r | r in rights :: FieldsUpTo(limit, r) }

  function CanonicalPayload(e: GrantEnvelope): Result<bytes> {
    if |e.subject| <= MAX_SUBJECT_LEN && |e.rights| <= MAX_RIGHTS && RightsUpTo(MAX_U16, e.rights)
    then Ok(PutEnvelope(e, []))
    else Err
  }

  // ----- parsing -----

  function GetRight(b: bytes): Option<Split<EnvelopeRight>> {
    var Split(kind, b1) :- GetTextUpTo(MAX_RIGHT_FIELD_LEN, b);
    var Split(path, b2) :- GetTextUpTo(MAX_RIGHT_FIELD_LEN, b1);
    var Split(action, rest) :- GetTextUpTo(MAX_RIGHT_FIELD_LEN, b2);
    Some(Split(Right(kind, path, action), rest))
  }

  function GetRights(b: bytes): Option<Split<seq<EnvelopeRight>>> {
    var Split(count, b1) :- GetU16(b);
    if count > MAX_RIGHTS then None else GetMany(GetRight, count, b1)
  }

  function GetEnvelope(b: bytes): Option<Split<GrantEnvelope>> {
    var Split(version, b1) :- GetU8(b);
    if version != ENVELOPE_VERSION then None else
    var Split(devicePubkey, b2) :- GetArray32(b1);
    var Split(subject, b3) :- GetTextUpTo(MAX_SUBJECT_LEN, b2);
    var Split(rights, b4) :- GetRights(b3);
    var Split(issuedAt, b5) :- GetI64(b4);
    var Split(expiresAt, rest) :- GetI64(b5);
    Some(Split(GrantEnvelope(devicePubkey, subject, rights, Instant(issuedAt, 0), Instant(expiresAt, 0)), rest))
  }

  /** Parse a whole payload.  `representable` says which second counts the date library can hold. */
  function FromCanonicalPayload(payload: bytes, representable: i64 -> bool): Result<GrantEnvelope> {
    match GetEnvelope(payload)
    case None => Err
    case Some(Split(e, rest)) =>
      if rest == [] && representable(e.issuedAt.seconds) && representable(e.expiresAt.seconds) then Ok(e) else Err
  }

  // ----- parse then print -----

  lemma RightWritesBack()
    ensures WritesBack(PutRight, GetRight)
  {
    hide PutText, GetTextUpTo;
    forall b | GetRight(b).Some?
      ensures PutRight(GetRight(b).value.value, GetRight(b).value.rest) == b
    {
      RightWritesBackAt(b);
    }
  }

  lemma RightWritesBackAt(b: bytes)
    requires GetRight(b).Some?
    ensures PutRight(GetRight(b).value.value, GetRight(b).value.rest) == b
    ensures FieldsUpTo(MAX_RIGHT_FIELD_LEN, GetRight(b).value.value)
  {
    hide PutText, GetTextUpTo;
    TextWritesBack(MAX_RIGHT_FIELD_LEN, b);
    var b1 := GetTextUpTo(MAX_RIGHT_FIELD_LEN, b).value.rest;
    TextWritesBack(MAX_RIGHT_FIELD_LEN, b1);
    TextWritesBack(MAX_RIGHT_FIELD_LEN, GetTextUpTo(MAX_RIGHT_FIELD_LEN, b1).value.rest);
  }

  lemma {:induction false} ParsedRightsShort(count: nat, b: bytes)
    ensures GetMany(GetRight, count, b).Some? ==>
              RightsUpTo(MAX_RIGHT_FIELD_LEN, GetMany(GetRight, count, b).value.value)
  {
    hide GetRight, PutRight, FieldsUpTo, IsUtf8;
    if count > 0 && GetMany(GetRight, count, b).Some? {
      RightWritesBackAt(b);
      ParsedRightsShort(count - 1, GetRight(b).value.rest);
    }
  }

  lemma RightsWriteBack(b: bytes)
    ensures var r := GetRights(b);
            r.Some? ==> |r.value.value| <= MAX_RIGHTS && RightsUpTo(MAX_RIGHT_FIELD_LEN, r.value.value) &&
                        PutU16(Low16(|r.value.value|), PutMany(PutRight, r.value.value, r.value.rest)) == b
  {
    hide PutU16, GetU16, PutRight, GetRight, PutMany, GetMany;
    PrimitivesWriteBack(b);
    RightWritesBack();
    if GetU16(b).Some? {
      var Split(count, b1) := GetU16(b).value;
      PutGetMany(PutRight, GetRight, count, b1);
      ParsedRightsShort(count, b1);
    }
  }

  /** Any payload that parses re-encodes to the same bytes, so a signature checked over the
      re-encoded fields is a signature over the bytes received. */
  lemma ParsePrint(payload: bytes, representable: i64 -> bool)
    requires FromCanonicalPayload(payload, representable).Ok?
    ensures CanonicalPayload(FromCanonicalPayload(payload, representable).value) == Ok(payload)
  {
    hide PutRaw, GetRaw, PutU8, GetU8, PutI64, GetI64, PutText, GetTextUpTo, GetRights, PutMany, IsUtf8, FieldsUpTo;
    var b1 := GetU8(payload).value.rest;
    var b2 := GetArray32(b1).value.rest;
    var b3 := GetTextUpTo(MAX_SUBJECT_LEN, b2).value.rest;
    var b4 := GetRights(b3).value.rest;
    PrimitivesWriteBack(payload);
    RawWritesBack(32, b1);
    TextWritesBack(MAX_SUBJECT_LEN, b2);
    RightsWriteBack(b3);
    PrimitivesWriteBack(b4);
    PrimitivesWriteBack(GetI64(b4).value.rest);
    FieldsFit(GetRights(b3).value.value);
  }

  lemma FieldsFit(rights: seq<EnvelopeRight>)
    requires RightsUpTo(MAX_RIGHT_FIELD_LEN, rights)
    ensures RightsUpTo(MAX_U16, rights)
  {}

  // ----- print then parse -----

  /** What survives the payload: the instants lose their fractions of a second. */
  function WholeSeconds(e: GrantEnvelope): GrantEnvelope {
    e.(issuedAt := Instant(e.issuedAt.seconds, 0), expiresAt := Instant(e.expiresAt.seconds, 0))
  }

  lemma RightReadsBack(r: EnvelopeRight, rest: bytes)
    requires FieldsUpTo(MAX_U16, r)
    ensures GetRight(PutRight(r, rest))
            == if FieldsUpTo(MAX_RIGHT_FIELD_LEN, r) then Some(Split(r, rest)) else None
  {
    hide PutText, GetTextUpTo, IsUtf8;
    TextUpTo(MAX_RIGHT_FIELD_LEN, r.action, rest);
    TextUpTo(MAX_RIGHT_FIELD_LEN, r.path, PutText(r.action, rest));
    TextUpTo(MAX_RIGHT_FIELD_LEN, r.kind, PutText(r.path, PutText(r.action, rest)));
  }

  lemma {:induction false} RightsReadBack(rights: seq<EnvelopeRight>, rest: bytes)
    requires RightsUpTo(MAX_U16, rights)
    ensures GetMany(GetRight, |rights|, PutMany(PutRight, rights, rest))
            == if RightsUpTo(MAX_RIGHT_FIELD_LEN, rights) then Some(Split(rights, rest)) else None
  {
    hide GetRight, PutRight, FieldsUpTo;
    if |rights| > 0 {
      RightReadsBack(rights[0], PutMany(PutRight, rights[1..], rest));
      RightsReadBack(rights[1..], rest);
      assert rights == [rights[0]] + rights[1..];
    }
  }

  /** Exactly what parsing a printed envelope gives: the envelope at whole seconds when every right
      field keeps to the parser's 1024 bytes and both times are representable, and a refusal otherwise. */
  lemma PrintParse(e: GrantEnvelope, representable: i64 -> bool)
    requires CanonicalPayload(e).Ok?
    ensures FromCanonicalPayload(CanonicalPayload(e).value, representable)
            == if RightsUpTo(MAX_RIGHT_FIELD_LEN, e.rights) &&
                  representable(e.issuedAt.seconds) && representable(e.expiresAt.seconds)
               then Ok(WholeSeconds(e)) else Err
  {
    hide PutRaw, GetRaw, PutU8, GetU8, PutU16, GetU16, PutI64, GetI64, PutText, GetTextUpTo, IsUtf8,
      PutMany, GetMany, RightsUpTo;
    var times := PutTimes(e, []);
    RightsReadBack(e.rights, times);
    var rights := PutU16(Low16(|e.rights|), PutMany(PutRight, e.rights, times));
    assert GetRights(rights) == if RightsUpTo(MAX_RIGHT_FIELD_LEN, e.rights)
            then Some(Split(e.rights, times)) else None;
    TextUpTo(MAX_SUBJECT_LEN, e.subject, rights);
  }

  /** So an envelope is its payload's parse exactly when its right fields are short, its times
      representable, and its times whole seconds. */
  lemma PrintParseIdentity(e: GrantEnvelope, representable: i64 -> bool)
    requires CanonicalPayload(e).Ok?
    ensures FromCanonicalPayload(CanonicalPayload(e).value, representable) == Ok(e)
            <==> RightsUpTo(MAX_RIGHT_FIELD_LEN, e.rights) &&
                 representable(e.issuedAt.seconds) && representable(e.expiresAt.seconds) &&
                 e.issuedAt.nanos == 0 && e.expiresAt.nanos == 0
  {
    hide CanonicalPayload, FromCanonicalPayload, RightsUpTo;
    PrintParse(e, representable);
  }

  lemma {:induction false} ZerosAreText(n: nat)
    ensures IsUtf8(seq(n, _ => 0))
  {
    if n > 0 {
      ZerosAreText(n - 1);
      assert seq<byte>(n, _ => 0)[1..] == seq<byte>(n - 1, _ => 0);
    }
  }

  /** The parser is not the printer's inverse on every envelope: one with a 1025-byte path prints but does not parse. */
  lemma LongPathPrintsButDoesNotParse()
    ensures exists e: GrantEnvelope :: CanonicalPayload(e).Ok? &&
              FromCanonicalPayload(CanonicalPayload(e).value, _ => true).Err?
  {
    hide IsUtf8, PutEnvelope, GetEnvelope;
    ZerosAreText(1025);
    ZerosAreText(0);
    var path: Text := seq(1025, _ => 0);
    var e := GrantEnvelope(seq(32, _ => 0), [], [Right([], path, [])], Instant(0, 0), Instant(0, 0));
    assert !FieldsUpTo(MAX_RIGHT_FIELD_LEN, e.rights[0]);
    PrintParse(e, _ => true);
  }

  // ----- signed envelopes -----

  function ToBytes(s: SignedGrantEnvelope): Result<bytes> {
    var payload :- CanonicalPayload(s.envelope);
    Ok(payload + s.signature)
  }

  /** Split the raw bytes 64 before their end and parse what comes first. */
  function FromBytes(raw: bytes, representable: i64 -> bool): Result<SignedGrantEnvelope> {
    if |raw| < SIGNATURE_LEN then Err
    else
      var split := |raw| - SIGNATURE_LEN;
      var envelope :- FromCanonicalPayload(raw[..split], representable);
      Ok(SignedGrantEnvelope(envelope, raw[split..]))
  }

  lemma WireRoundTrip(s: SignedGrantEnvelope, representable: i64 -> bool)
    requires ToBytes(s).Ok?
    ensures FromBytes(ToBytes(s).value, representable) == Ok(s)
            <==> RightsUpTo(MAX_RIGHT_FIELD_LEN, s.envelope.rights) &&
                 representable(s.envelope.issuedAt.seconds) && representable(s.envelope.expiresAt.seconds) &&
                 s.envelope.issuedAt.nanos == 0 && s.envelope.expiresAt.nanos == 0
  {
    hide CanonicalPayload, FromCanonicalPayload, RightsUpTo;
    var raw := ToBytes(s).value;
    assert raw[..|raw| - SIGNATURE_LEN] == CanonicalPayload(s.envelope).value;
    assert raw[|raw| - SIGNATURE_LEN..] == s.signature;
    PrintParseIdentity(s.envelope, representable);
  }

  lemma WireParsePrint(raw: bytes, representable: i64 -> bool)
    requires FromBytes(raw, representable).Ok?
    ensures ToBytes(FromBytes(raw, representable).value) == Ok(raw)
  {
    hide CanonicalPayload, FromCanonicalPayload;
    ParsePrint(raw[..|raw| - SIGNATURE_LEN], representable);
    assert raw[..|raw| - SIGNATURE_LEN] + raw[|raw| - SIGNATURE_LEN..] == raw;
  }

  // ----- signature check -----

  /** Ed25519 as the verifier sees it: which raw keys are keys, and which signatures they made. */
  datatype Scheme = Scheme(wellFormed: bytes -> bool, verifies: (bytes, bytes, Signature) -> bool)

  /** Some trusted key verifies, and every key before it is well formed. */
  ghost predicate SignedBy(scheme: Scheme, trust: seq<bytes>, payload: bytes, signature: Signature) {
    exists i :: 0 <= i < |trust| && scheme.verifies(trust[i], payload, signature) &&
                forall j | 0 <= j <= i :: scheme.wellFormed(trust[j])
  }

  /** Check the re-encoded payload against each trusted key in turn; a malformed key ends the scan. */
  method VerifySignature(s: SignedGrantEnvelope, scheme: Scheme, trust: seq<bytes>) returns (ok: bool)
    ensures ok <==> CanonicalPayload(s.envelope).Ok? &&
                    SignedBy(scheme, trust, CanonicalPayload(s.envelope).value, s.signature)
  {
    hide CanonicalPayload, IsUtf8;
    if trust == [] {
      return false;
    }
    var payload := EncodePayload(s.envelope);
    if payload.Err? {
      return false;
    }
    for i := 0 to |trust|
      invariant forall j | 0 <= j < i ::
                  scheme.wellFormed(trust[j]) && !scheme.verifies(trust[j], payload.value, s.signature)
    {
      if !scheme.wellFormed(trust[i]) {
        return false;
      }
      if scheme.verifies(trust[i], payload.value, s.signature) {
        return true;
      }
    }
    ok := false;
  }

  /** A received envelope passes exactly when the bytes received, as received, were signed. */
  lemma ReceivedBytesAreWhatWasSigned(raw: bytes, representable: i64 -> bool, scheme: Scheme, trust: seq<bytes>)
    requires FromBytes(raw, representable).Ok?
    ensures var s := FromBytes(raw, representable).value;
            CanonicalPayload(s.envelope).Ok? &&
            (SignedBy(scheme, trust, CanonicalPayload(s.envelope).value, s.signature)
             <==> SignedBy(scheme, trust, raw[..|raw| - SIGNATURE_LEN], raw[|raw| - SIGNATURE_LEN..]))
  {
    hide CanonicalPayload, FromCanonicalPayload, SignedBy;
    ParsePrint(raw[..|raw| - SIGNATURE_LEN], representable);
  }

  // ----- the printer and parser as they run -----

  method WriteEnvelope(encoder: Encoder, e: GrantEnvelope) returns (r: Result<()>)
    requires |e.subject| <= MAX_SUBJECT_LEN
    modifies encoder
    ensures r.Ok? <==> RightsUpTo(MAX_U16, e.rights)
    ensures r.Ok? ==> forall rest {:trigger encoder.out + rest} ::
                        encoder.out + rest == old(encoder.out) + PutEnvelope(e, rest)
  {
    hide PutRaw, PutU8, PutU16, PutI64, PutText, IsUtf8, PutMany, RightsUpTo, Low16;
    encoder.U8(ENVELOPE_VERSION);
    encoder.Raw(e.devicePubkey);
    WriteSubject(encoder, e.subject);
    encoder.U16(Low16(|e.rights|));
    var _ :- WriteRights(encoder, e.rights);
    encoder.I64(e.issuedAt.seconds);
    encoder.I64(e.expiresAt.seconds);
    r := Ok(());
  }

  method EncodePayload(e: GrantEnvelope) returns (r: Result<bytes>)
    ensures r == CanonicalPayload(e)
  {
    hide IsUtf8, PutEnvelope, RightsUpTo;
    if |e.subject| > MAX_SUBJECT_LEN || |e.rights| > MAX_RIGHTS {
      return Err;
    }
    var encoder := new Encoder();
    var _ :- WriteEnvelope(encoder, e);
    assert encoder.out + [] == encoder.out && [] + PutEnvelope(e, []) == PutEnvelope(e, []);
    r := Ok(encoder.out);
  }

  /** The subject's bound is below what its length field holds, so this write cannot be refused. */
  method WriteSubject(encoder: Encoder, subject: Text)
    requires |subject| <= MAX_SUBJECT_LEN
    modifies encoder
    ensures forall rest {:trigger encoder.out + rest} :: encoder.out + rest == old(encoder.out) + PutText(subject, rest)
  {
    hide IsUtf8, PutText;
    var _ := encoder.BoundedString(subject);
  }

  method WriteRight(encoder: Encoder, right: EnvelopeRight) returns (r: Result<()>)
    modifies encoder
    ensures r.Ok? <==> FieldsUpTo(MAX_U16, right)
    ensures r.Ok? ==> forall rest {:trigger encoder.out + rest} ::
                        encoder.out + rest == old(encoder.out) + PutRight(right, rest)
  {
    hide PutText, IsUtf8;
    var _ :- encoder.BoundedString(right.kind);
    var _ :- encoder.BoundedString(right.path);
    var _ :- encoder.BoundedString(right.action);
    r := Ok(());
  }

  method WriteRights(encoder: Encoder, rights: seq<EnvelopeRight>) returns (r: Result<()>)
    modifies encoder
    ensures r.Ok? <==> RightsUpTo(MAX_U16, rights)
    ensures r.Ok? ==> forall rest {:trigger encoder.out + rest} ::
                        encoder.out + rest == old(encoder.out) + PutMany(PutRight, rights, rest)
  {
    hide PutRight, FieldsUpTo;
    for i := 0 to |rights|
      invariant forall j | 0 <= j < i :: FieldsUpTo(MAX_U16, rights[j])
      invariant forall rest {:trigger PutMany(PutRight, rights, rest)} ::
                  encoder.out + PutMany(PutRight, rights[i..], rest)
                  == old(encoder.out) + PutMany(PutRight, rights, rest)
    {
      assert rights[i..][1..] == rights[i + 1..];
      var _ :- WriteRight(encoder, rights[i]);
    }
    assert rights[|rights|..] == [];
    r := Ok(());
  }

  method ReadRight(cursor: Cursor) returns (r: Result<EnvelopeRight>)
    requires cursor.Valid()
    modifies cursor`offset
    ensures cursor.Valid() && Reads(GetRight(old(cursor.Rest())), r, cursor.Rest())
  {
    hide GetTextUpTo, IsUtf8;
    var kind :- cursor.BoundedString(MAX_RIGHT_FIELD_LEN);
    var path :- cursor.BoundedString(MAX_RIGHT_FIELD_LEN);
    var action :- cursor.BoundedString(MAX_RIGHT_FIELD_LEN);
    r := Ok(Right(kind, path, action));
  }

  method ReadRights(cursor: Cursor) returns (r: Result<seq<EnvelopeRight>>)
    requires cursor.Valid()
    modifies cursor`offset
    ensures cursor.Valid() && Reads(GetRights(old(cursor.Rest())), r, cursor.Rest())
  {
    hide GetU16, GetRight, GetMany, Continues;
    var count :- cursor.U16();
    if count > MAX_RIGHTS {
      return Err;
    }
    ghost var whole := GetMany(GetRight, count, cursor.Rest());
    ContinuesStart(whole);
    var rights: seq<EnvelopeRight> := [];
    for i := 0 to count
      invariant cursor.Valid() && |rights| == i
      invariant Continues(whole, rights, GetMany(GetRight, count - i, cursor.Rest()))
    {
      ContinuesStep(GetRight, whole, rights, count - i, cursor.Rest());
      var right :- ReadRight(cursor);
      rights := rights + [right];
    }
    ContinuesStep(GetRight, whole, rights, 0, cursor.Rest());
    r := Ok(rights);
  }

  method ReadEnvelope(cursor: Cursor) returns (r: Result<GrantEnvelope>)
    requires cursor.Valid()
    modifies cursor`offset
    ensures cursor.Valid() && Reads(GetEnvelope(old(cursor.Rest())), r, cursor.Rest())
  {
    hide GetU8, GetArray32, GetTextUpTo, GetRights, GetI64, IsUtf8;
    var version :- cursor.U8();
    if version != ENVELOPE_VERSION {
      return Err;
    }
    var devicePubkey :- cursor.Array32();
    var subject :- cursor.BoundedString(MAX_SUBJECT_LEN);
    var rights :- ReadRights(cursor);
    var issuedAt :- cursor.I64();
    var expiresAt :- cursor.I64();
    r := Ok(GrantEnvelope(devicePubkey, subject, rights, Instant(issuedAt, 0), Instant(expiresAt, 0)));
  }

  method DecodePayload(payload: bytes, representable: i64 -> bool) returns (r: Result<GrantEnvelope>)
    ensures r == FromCanonicalPayload(payload, representable)
  {
    hide GetEnvelope;
    var cursor := new Cursor(payload);
    var e :- ReadEnvelope(cursor);
    var empty := cursor.IsEmpty();
    if !empty || !representable(e.issuedAt.seconds) || !representable(e.expiresAt.seconds) {
      return Err;
    }
    r := Ok(e);
  }

  /** The received bytes split 64 before their end, and what comes first parsed. */
  method ReceiveBytes(raw: bytes, representable: i64 -> bool) returns (r: Result<SignedGrantEnvelope>)
    ensures r == FromBytes(raw, representable)
  {
    hide FromCanonicalPayload;
    if |raw| < SIGNATURE_LEN {
      return Err;
    }
    var split := |raw| - SIGNATURE_LEN;
    var envelope :- DecodePayload(raw[..split], representable);
    r := Ok(SignedGrantEnvelope(envelope, raw[split..]));
  }
}
