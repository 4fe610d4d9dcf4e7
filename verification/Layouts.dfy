/** The wire formats as plain concatenations of their parts, apart from the encoders and decoders that handle them. */
module Layouts {
  import opened Bytes
  import opened Ordering
  import opened EdgeExtents
  import opened EdgeCanonical
  import opened Envelope
  import opened Hex
  import opened Digests
  import opened ProviderPlan

  // ----- integers -----

  /** Big-endian: integers of one width compare as their bytes do. */
  lemma {:induction false} BigEndianOrder(k: nat, m: nat, n: nat)
    requires m < Pow256(k) && n < Pow256(k)
    ensures LexLess(ToBE(k, m), ToBE(k, n)) <==> m < n
    decreases k
  {
    hide LexLess;
    if k == 0 {
      NothingLess();
    } else {
      BigEndianOrder(k - 1, m / 256, n / 256);
      FromToBE(k - 1, m / 256);
      FromToBE(k - 1, n / 256);
      LexLessSnoc(ToBE(k - 1, m / 256), ToBE(k - 1, n / 256), m % 256, n % 256);
    }
  }

  lemma NothingLess()
    ensures !LexLess([], [])
  {}

  lemma {:induction false} LexLessSnoc(a: seq<int>, b: seq<int>, x: int, y: int)
    requires |a| == |b|
    ensures LexLess(a + [x], b + [y]) <==> LexLess(a, b) || (a == b && x < y)
  {
    if |a| > 0 {
      assert (a + [x])[1..] == a[1..] + [x] && (b + [y])[1..] == b[1..] + [y];
      assert a == [a[0]] + a[1..] && b == [b[0]] + b[1..];
      LexLessSnoc(a[1..], b[1..], x, y);
    }
  }

  /** Signed integers are written modulo 2^64: a negative one as 2^64 more. */
  lemma SignedWord(v: i64, rest: bytes)
    ensures exists n: nat :: n < Pow256(8) && PutI64(v, rest) == ToBE(8, n) + rest &&
                             (n == v || n == v + 18_446_744_073_709_551_616)
  {
    Widths();
    var n := if v < 0 then v + 0x1_0000_0000_0000_0000 else v;
    assert PutI64(v, rest) == ToBE(8, n) + rest;
  }

  // ----- repeated parts -----

  function Flat<T>(part: T -> bytes, xs: seq<T>): bytes {
    if |xs| == 0 then [] else part(xs[0]) + Flat(part, xs[1..])
  }

  ghost predicate AreParts<T(!new)>(put: (T, bytes) -> bytes, part: T -> bytes, xs: seq<T>) {
    forall x, rest | x in xs :: put(x, rest) == part(x) + rest
  }

  lemma {:induction false} ManyAreFlat<T(!new)>(put: (T, bytes) -> bytes, part: T -> bytes, xs: seq<T>, rest: bytes)
    requires AreParts(put, part, xs)
    ensures PutMany(put, xs, rest) == Flat(part, xs) + rest
  {
    if |xs| > 0 {
      ManyAreFlat(put, part, xs[1..], rest);
      assert part(xs[0]) + (Flat(part, xs[1..]) + rest) == (part(xs[0]) + Flat(part, xs[1..])) + rest;
    }
  }

  // ----- extent sets -----

  /** A length in two bytes, then the text. */
  function TextPart(t: Text): bytes { ToBE(2, |t|) + t }

  lemma TextIsPart(t: Text, rest: bytes)
    requires |t| <= 65_535
    ensures PutText(t, rest) == TextPart(t) + rest
  {
    Widths();
    assert PutText(t, rest) == ToBE(2, |t|) + (t + rest);
  }

  lemma Join6(a: bytes, b: bytes, c: bytes, d: bytes, e: bytes, f: bytes, rest: bytes)
    ensures a + (b + (c + (d + (e + (f + rest))))) == (a + b + c + d + e + f) + rest
  {}

  function RecordPart(r: EdgeRecord): bytes {
    [r.objectType] + r.objectHash + ToBE(8, r.decodedSize) + ToBE(8, r.offset) + ToBE(8, r.length) + r.encodedDigest
  }

  lemma RecordIsPart(r: EdgeRecord, rest: bytes)
    ensures PutRecord(r, rest) == RecordPart(r) + rest
  {
    hide ToBE;
    Widths();
    assert PutRecord(r, rest) == [r.objectType] + (r.objectHash + (ToBE(8, r.decodedSize) + (ToBE(8, r.offset) +
      (ToBE(8, r.length) + (r.encodedDigest + rest)))));
    Join6([r.objectType], r.objectHash, ToBE(8, r.decodedSize), ToBE(8, r.offset), ToBE(8, r.length),
      r.encodedDigest, rest);
  }

  function ExtentPart(e: EdgeExtent): bytes {
    e.packId + TextPart(e.etag) + ToBE(8, e.offset) + ToBE(8, e.length) + ToBE(4, |e.records|) +
    Flat(RecordPart, e.records)
  }

  lemma ExtentIsPart(e: EdgeExtent, rest: bytes)
    requires |e.etag| <= 65_535 && |e.records| <= 65_536
    ensures PutExtent(e, rest) == ExtentPart(e) + rest
  {
    hide ToBE, PutRecord, RecordPart, PutText, TextPart, IsUtf8;
    Widths();
    forall r, more ensures PutRecord(r, more) == RecordPart(r) + more { RecordIsPart(r, more); }
    var records := Flat(RecordPart, e.records);
    ManyAreFlat(PutRecord, RecordPart, e.records, rest);
    var after := ToBE(8, e.offset) + (ToBE(8, e.length) + (ToBE(4, |e.records|) + (records + rest)));
    TextIsPart(e.etag, after);
    assert PutExtent(e, rest) == e.packId + (TextPart(e.etag) + after);
    Join6(e.packId, TextPart(e.etag), ToBE(8, e.offset), ToBE(8, e.length), ToBE(4, |e.records|), records, rest);
  }

  /** The tag, and for a team or a restricted audience its scope. */
  function AudiencePart(audience: EdgeAudience): bytes {
    match audience
    case Public => [0]
    case Internal => [1]
    case Team(scope) => [2] + TextPart(scope)
    case Restricted(scope) => [3] + TextPart(scope)
  }

  lemma AudienceIsPart(audience: EdgeAudience, rest: bytes)
    requires AudienceOk(audience)
    ensures PutAudience(audience, rest) == AudiencePart(audience) + rest
  {
    hide PutText, TextPart, IsUtf8;
    if audience.Team? || audience.Restricted? { TextIsPart(audience.scope, rest); }
  }

  /** "WEDG" and version 1, then the header, the roots, the extents and the trailer. */
  function SetBytes(s: EdgeExtentSet): bytes {
    [0x57, 0x45, 0x44, 0x47, 1] + s.repositoryId + TextPart(s.facet) + AudiencePart(s.audience) +
    ToBE(2, |s.contentRoots|) + Flat((root: Array32) => root, s.contentRoots) +
    ToBE(4, |s.extents|) + Flat(ExtentPart, s.extents) +
    ToBE(8, s.issuedAt) + ToBE(8, s.expiresAt) + s.nonce
  }

  /** The canonical bytes of a set are these, for its normal form. */
  lemma CanonicalLayout(s: EdgeExtentSet)
    requires CanonicalBytes(s).Ok?
    ensures CanonicalBytes(s) == Ok(SetBytes(Normal(s)))
  {
    hide PutSet, SetBytes, Normal, WellFormed;
    SetIsBytes(Normal(s));
  }

  lemma SetIsBytes(s: EdgeExtentSet)
    requires WellFormed(s)
    ensures PutSet(s, []) == SetBytes(s)
  {
    hide ToBE, PutExtent, ExtentPart, PutText, TextPart, PutAudience, AudiencePart, IsUtf8;
    Widths();
    forall e, more | e in s.extents ensures PutExtent(e, more) == ExtentPart(e) + more {
      var i :| 0 <= i < |s.extents| && s.extents[i] == e;
      ExtentIsPart(e, more);
    }
    var trailer := ToBE(8, s.issuedAt) + (ToBE(8, s.expiresAt) + (s.nonce + []));
    ManyAreFlat(PutExtent, ExtentPart, s.extents, trailer);
    var extents := ToBE(4, |s.extents|) + (Flat(ExtentPart, s.extents) + trailer);
    ManyAreFlat(PutRoot, (root: Array32) => root, s.contentRoots, extents);
    var roots := ToBE(2, |s.contentRoots|) + (Flat((root: Array32) => root, s.contentRoots) + extents);
    AudienceIsPart(s.audience, roots);
    TextIsPart(s.facet, AudiencePart(s.audience) + roots);
    assert PutRoots(s, []) == roots;
    assert PutSet(s, []) == MAGIC + ([1] + (s.repositoryId + (TextPart(s.facet) + (AudiencePart(s.audience) + roots))));
    Regrouped(s, trailer, extents, roots);
  }

  lemma Regrouped(s: EdgeExtentSet, trailer: bytes, extents: bytes, roots: bytes)
    requires trailer == ToBE(8, s.issuedAt) + (ToBE(8, s.expiresAt) + (s.nonce + []))
    requires extents == ToBE(4, |s.extents|) + (Flat(ExtentPart, s.extents) + trailer)
    requires roots == ToBE(2, |s.contentRoots|) + (Flat((root: Array32) => root, s.contentRoots) + extents)
    ensures MAGIC + ([1] + (s.repositoryId + (TextPart(s.facet) + (AudiencePart(s.audience) + roots)))) == SetBytes(s)
  {
    hide ToBE, Flat, TextPart, AudiencePart, IsUtf8;
    assert MAGIC + [1] == [0x57, 0x45, 0x44, 0x47, 1];
  }

  // ----- grant envelopes -----

  function RightPart(r: EnvelopeRight): bytes { TextPart(r.kind) + TextPart(r.path) + TextPart(r.action) }

  lemma RightIsPart(r: EnvelopeRight, rest: bytes)
    requires FieldsUpTo(MAX_U16, r)
    ensures PutRight(r, rest) == RightPart(r) + rest
  {
    hide PutText, TextPart, IsUtf8;
    TextIsPart(r.action, rest);
    TextIsPart(r.path, TextPart(r.action) + rest);
    TextIsPart(r.kind, TextPart(r.path) + (TextPart(r.action) + rest));
    assert PutRight(r, rest) == TextPart(r.kind) + (TextPart(r.path) + (TextPart(r.action) + rest));
    assert PutRight(r, rest) == RightPart(r) + rest;
  }

  /** Seconds modulo 2^64. */
  function SecondsPart(v: i64): bytes { ToBE(8, if v < 0 then v + 18_446_744_073_709_551_616 else v) }

  /** Version 1, the device key, the subject, the rights under their count, and the two times in whole seconds. */
  function EnvelopeBytes(e: GrantEnvelope): bytes {
    [1] + e.devicePubkey + TextPart(e.subject) + ToBE(2, |e.rights|) + Flat(RightPart, e.rights) +
    SecondsPart(e.issuedAt.seconds) + SecondsPart(e.expiresAt.seconds)
  }

  /** What is signed is these bytes; only an over-long subject, too many rights or an over-long right is refused. */
  lemma EnvelopeLayout(e: GrantEnvelope)
    ensures CanonicalPayload(e).Ok? <==>
              |e.subject| <= 256 && |e.rights| <= 64 &&
              forall r | r in e.rights :: |r.kind| <= 65_535 && |r.path| <= 65_535 && |r.action| <= 65_535
    ensures CanonicalPayload(e).Ok? ==> CanonicalPayload(e) == Ok(EnvelopeBytes(e))
  {
    hide ToBE, PutRight, RightPart, PutText, TextPart, PutI64, SecondsPart, IsUtf8;
    if CanonicalPayload(e).Ok? {
      Widths();
      forall r, more | r in e.rights ensures PutRight(r, more) == RightPart(r) + more { RightIsPart(r, more); }
      SecondsArePart(e.expiresAt.seconds, []);
      SecondsArePart(e.issuedAt.seconds, SecondsPart(e.expiresAt.seconds) + []);
      var times := SecondsPart(e.issuedAt.seconds) + (SecondsPart(e.expiresAt.seconds) + []);
      ManyAreFlat(PutRight, RightPart, e.rights, times);
      var rights := ToBE(2, |e.rights|) + (Flat(RightPart, e.rights) + times);
      TextIsPart(e.subject, rights);
      assert PutEnvelope(e, []) == [1] + (e.devicePubkey + (TextPart(e.subject) + rights));
      Join6([1], e.devicePubkey, TextPart(e.subject), ToBE(2, |e.rights|), Flat(RightPart, e.rights),
        SecondsPart(e.issuedAt.seconds), SecondsPart(e.expiresAt.seconds) + []);
      assert SecondsPart(e.expiresAt.seconds) + [] == SecondsPart(e.expiresAt.seconds);
    }
  }

  lemma SecondsArePart(v: i64, rest: bytes)
    ensures PutI64(v, rest) == SecondsPart(v) + rest
  {
    hide ToBE;
    Widths();
  }

  // ----- the provider plan -----

  /** `\nname=length:value`. */
  function LinePart(name: string, value: bytes): bytes {
    [0x0A] + Ascii(name) + [0x3D] + Decimal(|value|) + [0x3A] + value
  }

  lemma FieldIsPart(f: Field, rest: bytes)
    ensures PutField(f, rest) == LinePart(f.name, f.value) + rest
  {
    hide Ascii, Decimal;
  }

  /** The possession preimage, line by line. */
  lemma PlanLayout(p: Plan)
    ensures PlanBytes(p) ==
            Ascii("heddle-provider-plan-v1\nkind=11:exact-batch") + LinePart("identity", p.signingIdentity) +
            LinePart("stream_id", p.streamId) + LinePart("repository", p.repository) +
            LinePart("client_endpoint_id", p.clientEndpointId) + LinePart("plan_nonce", HexEncode(p.planNonce)) +
            LinePart("grant_batch_digest", HexEncode(p.grantBatchDigest))
  {
    hide Ascii, Decimal, PutField, LinePart, HexEncode, PutMany;
    var fs := Fields(p);
    forall f, rest ensures PutField(f, rest) == LinePart(f.name, f.value) + rest { FieldIsPart(f, rest); }
    SixFields(fs);
    var a, b, c := LinePart("identity", p.signingIdentity), LinePart("stream_id", p.streamId),
                   LinePart("repository", p.repository);
    var d, e, f := LinePart("client_endpoint_id", p.clientEndpointId), LinePart("plan_nonce", HexEncode(p.planNonce)),
                   LinePart("grant_batch_digest", HexEncode(p.grantBatchDigest));
    assert PlanBytes(p) == Ascii(HEADER) + (a + (b + (c + (d + (e + (f + []))))));
  }

  lemma SixFields(fs: seq<Field>)
    requires |fs| == 6
    ensures PutMany(PutField, fs, []) ==
            PutField(fs[0], PutField(fs[1], PutField(fs[2], PutField(fs[3], PutField(fs[4], PutField(fs[5], []))))))
  {
    hide PutField, PutMany;
    NextField(fs, 0);
    NextField(fs, 1);
    NextField(fs, 2);
    NextField(fs, 3);
    NextField(fs, 4);
    NextField(fs, 5);
    assert fs[0..] == fs;
  }

  lemma NextField(fs: seq<Field>, i: nat)
    requires i < |fs|
    ensures PutMany(PutField, fs[i..], []) == PutField(fs[i], PutMany(PutField, fs[i + 1..], []))
    ensures i + 1 == |fs| ==> PutMany(PutField, fs[i + 1..], []) == []
  {
    hide PutField;
    assert fs[i..][1..] == fs[i + 1..];
  }

  /** Decimal digits, most significant first, with no leading zero but in zero itself. */
  lemma {:induction false} DecimalDigits(n: nat)
    ensures forall c | c in Decimal(n) :: 0x30 <= c <= 0x39
    ensures Decimal(n)[0] == 0x30 ==> n == 0
    ensures Decimal(n)[|Decimal(n)| - 1] == 0x30 + n % 10
    ensures n >= 10 ==> Decimal(n)[..|Decimal(n)| - 1] == Decimal(n / 10)
  {
    if n >= 10 { DecimalDigits(n / 10); }
  }

  /** Hexadecimal digits are the sixteen lower-case characters in order, high half of each byte first. */
  lemma {:induction false} HexDigits(b: bytes, i: nat)
    requires i < |b|
    ensures HexEncode(b)[2 * i] == "0123456789abcdef"[b[i] / 16] as int
    ensures HexEncode(b)[2 * i + 1] == "0123456789abcdef"[b[i] % 16] as int
  {
    hide Digit;
    if i > 0 {
      HexDigits(b[1..], i - 1);
    } else {
      DigitIs(b[0] / 16);
      DigitIs(b[0] % 16);
    }
  }

  lemma DigitIs(n: nat)
    requires n < 16
    ensures Digit(n) == "0123456789abcdef"[n] as int
  {}

  /** A digest's preimage is the domain's name in ASCII, then the body, and no more. */
  lemma PreimageLayout(d: Domain, body: bytes)
    ensures Ascii(Name(d)) <= Preimage(d, body) && Preimage(d, body)[|Name(d)|..] == body
  {
    hide Name;
  }

  // ----- path texts -----

  /** A segment's length in four bytes, what exceeds them lost, then the segment. */
  function SegmentPart(s: Text): bytes { ToBE(4, |s| % 4_294_967_296) + s }

  /** A path's text is the hexadecimal of its segments one after another. */
  lemma PathLayout(segments: seq<Text>)
    ensures PathHex(segments) == HexEncode(Flat(SegmentPart, segments))
    ensures HexDecode(PathHex(segments)) == Some(Flat(SegmentPart, segments))
  {
    hide HexEncode, HexDecode, IsUtf8, ToBE, PutMany, Flat;
    forall s: Text, rest ensures PutCastSegment(s, rest) == SegmentPart(s) + rest {
      Widths();
      assert PutCastSegment(s, rest) == ToBE(4, |s| % 4_294_967_296) + (s + rest);
    }
    ManyAreFlat(PutCastSegment, SegmentPart, segments, []);
    assert PathBytes(segments) == Flat(SegmentPart, segments);
    HexRoundTrip(Flat(SegmentPart, segments));
  }
}
