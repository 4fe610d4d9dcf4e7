/** Domain-separated digests and the textual path commitment. */
module Digests {
  import opened Bytes
  import opened Hex

  datatype Domain =
    | OwnerRoot
    | OwnerTransition
    | OwnerCapability
    | OwnerCapabilityV3
    | OwnerBinding
    | TransferHandoff
    | TransferAcceptance
    | TransferAudit
    | PurgeOperation
    | KeyId
    | SpoolOwnerGenesis
    | SpoolCreation
    | MintRootAttachment

  function Name(d: Domain): string {
    match d
    case OwnerRoot => "heddle-owner-root-v1"
    case OwnerTransition => "heddle-owner-key-transition-v1"
    case OwnerCapability => "heddle-owner-capability-v1"
    case OwnerCapabilityV3 => "heddle-owner-capability-v3"
    case OwnerBinding => "heddle-owner-key-binding-v1"
    case TransferHandoff => "heddle-resource-transfer-handoff-v1"
    case TransferAcceptance => "heddle-resource-transfer-acceptance-v1"
    case TransferAudit => "heddle-resource-transfer-audit-v1"
    case PurgeOperation => "heddle-purge-operation-v2"
    case KeyId => "heddle-key-v1"
    case SpoolOwnerGenesis => "heddle-spool-owner-genesis-v1"
    case SpoolCreation => "heddle-spool-creation-v1"
    case MintRootAttachment => "heddle-mint-root-attachment-v1"
  }

  function Ascii(s: string): bytes {
    seq(|s|, i requires 0 <= i < |s| => if s[i] as int < 0x80 then s[i] as int else 0)
  }

  /** What SHA-256 is run over: the domain's name, then the body, with nothing between them. */
  function Preimage(d: Domain, body: bytes): bytes { Ascii(Name(d)) + body }

  /** The byte of a preimage at `i`, when it has one. */
  predicate At(p: bytes, i: nat, c: char) { i < |p| && p[i] == c as int }

  /** Tell the domain from the preimage, looking at no more than a few bytes of it. */
  function DomainOf(p: bytes): Domain {
    if At(p, 7, 'o') then
      if At(p, 13, 'r') then OwnerRoot
      else if At(p, 13, 'c') then (if At(p, 25, '1') then OwnerCapability else OwnerCapabilityV3)
      else if At(p, 17, 't') then OwnerTransition
      else OwnerBinding
    else if At(p, 7, 'r') then
      if At(p, 25, 'h') then TransferHandoff
      else if At(p, 26, 'c') then TransferAcceptance
      else TransferAudit
    else if At(p, 7, 'p') then PurgeOperation
    else if At(p, 7, 'k') then KeyId
    else if At(p, 7, 'm') then MintRootAttachment
    else if At(p, 13, 'o') then SpoolOwnerGenesis
    else SpoolCreation
  }

  lemma PreimageAt(d: Domain, body: bytes, i: nat, c: char)
    requires i < |Name(d)| && Name(d)[i] as int < 0x80
    ensures At(Preimage(d, body), i, c) <==> Name(d)[i] == c
  {
    hide Name;
  }

  // The bytes that tell the names apart.

  lemma Name7(d: Domain)
    ensures |Name(d)| > 7
    ensures Name(d)[7] == match d
            case PurgeOperation => 'p'
            case KeyId => 'k'
            case MintRootAttachment => 'm'
            case SpoolOwnerGenesis => 's'
            case SpoolCreation => 's'
            case TransferHandoff => 'r'
            case TransferAcceptance => 'r'
            case TransferAudit => 'r'
            case _ => 'o'
  {}

  lemma Name13(d: Domain)
    requires Name(d)[7] == 'o' || Name(d)[7] == 's'
    ensures |Name(d)| > 13
    ensures Name(d)[13] == match d
            case OwnerRoot => 'r'
            case OwnerTransition => 'k'
            case OwnerBinding => 'k'
            case SpoolOwnerGenesis => 'o'
            case _ => 'c'
  {}

  lemma Name17(d: Domain)
    requires d.OwnerTransition? || d.OwnerBinding?
    ensures |Name(d)| > 17 && Name(d)[17] == if d.OwnerTransition? then 't' else 'b'
  {}

  lemma Name25(d: Domain)
    requires d.OwnerCapability? || d.OwnerCapabilityV3? || d.TransferHandoff? || d.TransferAcceptance? ||
            d.TransferAudit?
    ensures |Name(d)| > 25
    ensures Name(d)[25] == match d
            case OwnerCapability => '1'
            case OwnerCapabilityV3 => '3'
            case TransferHandoff => 'h'
            case _ => 'a'
  {}

  lemma Name26(d: Domain)
    requires d.TransferAcceptance? || d.TransferAudit?
    ensures |Name(d)| > 26 && Name(d)[26] == if d.TransferAcceptance? then 'c' else 'u'
  {}

  lemma DomainRecovered(d: Domain, body: bytes)
    ensures DomainOf(Preimage(d, body)) == d
  {
    hide Preimage, At, Name;
    Name7(d);
    forall c ensures At(Preimage(d, body), 7, c) <==> Name(d)[7] == c { PreimageAt(d, body, 7, c); }
    if Name(d)[7] == 'o' || Name(d)[7] == 's' {
      Name13(d);
      forall c ensures At(Preimage(d, body), 13, c) <==> Name(d)[13] == c { PreimageAt(d, body, 13, c); }
    }
    match d {
      case OwnerTransition => Name17(d); PreimageAt(d, body, 17, 't');
      case OwnerBinding => Name17(d); PreimageAt(d, body, 17, 't');
      case OwnerCapability => Name25(d); PreimageAt(d, body, 25, '1');
      case OwnerCapabilityV3 => Name25(d); PreimageAt(d, body, 25, '1');
      case TransferHandoff => Name25(d); PreimageAt(d, body, 25, 'h');
      case TransferAcceptance => Name25(d); Name26(d); PreimageAt(d, body, 25, 'h'); PreimageAt(d, body, 26, 'c');
      case TransferAudit => Name25(d); Name26(d); PreimageAt(d, body, 25, 'h'); PreimageAt(d, body, 26, 'c');
      case _ =>
    }
  }

  /** No domain's name begins another's, so a digest's preimage fixes both its domain and its body. */
  lemma DomainSeparation(d: Domain, body: bytes, e: Domain, other: bytes)
    requires Preimage(d, body) == Preimage(e, other)
    ensures d == e && body == other
  {
    DomainRecovered(d, body);
    DomainRecovered(e, other);
    var n := |Ascii(Name(d))|;
    assert Preimage(d, body)[n..] == body;
    assert Preimage(e, other)[n..] == other;
  }

  // ----- paths as hexadecimal text -----

  /** One segment under its length cast to 32 bits, which keeps only the low bits of a longer length. */
  function PutCastSegment(segment: Text, rest: bytes): bytes {
    PutU32(|segment| % 0x1_0000_0000, PutRaw(segment, rest))
  }

  function PathBytes(segments: seq<Text>): bytes { PutMany(PutCastSegment, segments, []) }

  function PathHex(segments: seq<Text>): bytes { HexEncode(PathBytes(segments)) }

  predicate SegmentsFit(segments: seq<Text>) { forall s | s in segments :: Fits(s) }

  lemma CastSegmentInjective()
    ensures InjectiveOn(PutCastSegment, (s: Text) => Fits(s))
  {
    hide PutU32, PutRaw, GetRaw, IsUtf8;
    forall s: Text, t: Text, r, q | Fits(s) && Fits(t) && PutCastSegment(s, r) == PutCastSegment(t, q)
      ensures s == t && r == q
    {
      assert GetU32(PutCastSegment(s, r)) == Some(Split(|s| % 0x1_0000_0000, PutRaw(s, r)));
      assert |s| % 0x1_0000_0000 == |s| && |t| % 0x1_0000_0000 == |t|;
      assert GetRaw(|s|, PutRaw(s, r)) == Some(Split(s, r));
    }
  }

  lemma {:induction false} PathBytesInjective(a: seq<Text>, b: seq<Text>)
    requires SegmentsFit(a) && SegmentsFit(b) && PathBytes(a) == PathBytes(b)
    ensures a == b
  {
    hide PutCastSegment, IsUtf8;
    CastSegmentInjective();
    if |a| > 0 && |b| > 0 {
      assert PutCastSegment(a[0], PathBytes(a[1..])) == PutCastSegment(b[0], PathBytes(b[1..]));
      PathBytesInjective(a[1..], b[1..]);
      assert a == [a[0]] + a[1..] && b == [b[0]] + b[1..];
    } else if |a| > 0 {
      CastSegmentNonEmpty(a[0], PathBytes(a[1..]));
    } else if |b| > 0 {
      CastSegmentNonEmpty(b[0], PathBytes(b[1..]));
    }
  }

  lemma CastSegmentNonEmpty(s: Text, rest: bytes)
    ensures PutCastSegment(s, rest) != []
  {
    assert |PutCastSegment(s, rest)| == 4 + |s| + |rest|;
  }

  /** Segment lists whose lengths fit 32 bits are told apart, and none of their text is lost. */
  lemma PathHexSeparates(a: seq<Text>, b: seq<Text>)
    requires SegmentsFit(a) && SegmentsFit(b)
    ensures PathHex(a) == PathHex(b) <==> a == b
  {
    hide PathBytes;
    if PathHex(a) == PathHex(b) {
      HexInjective(PathBytes(a), PathBytes(b));
      PathBytesInjective(a, b);
    }
  }

  function Zeros(n: nat): bytes { seq(n, _ => 0) }

  lemma {:induction false} ZerosAreText(n: nat)
    ensures IsUtf8(Zeros(n))
  {
    if n > 0 {
      ZerosAreText(n - 1);
      assert Zeros(n)[1..] == Zeros(n - 1);
    }
  }

  function Empties(k: nat): (s: seq<Text>)
    ensures |s| == k
  {
    if k == 0 then [] else [[]] + Empties(k - 1)
  }

  lemma ZeroLength(rest: bytes)
    ensures PutU32(0, rest) == Zeros(4) + rest
  {
    assert ToBE(1, 0) == [0] && ToBE(2, 0) == [0, 0] && ToBE(3, 0) == [0, 0, 0] && ToBE(4, 0) == [0, 0, 0, 0];
  }

  lemma {:induction false} EmptySegmentsAreZeros(k: nat)
    ensures PathBytes(Empties(k)) == Zeros(4 * k)
  {
    hide PutU32;
    if k > 0 {
      assert Empties(k)[1..] == Empties(k - 1);
      EmptySegmentsAreZeros(k - 1);
      ZeroLength(Zeros(4 * (k - 1)));
      assert PutRaw([], Zeros(4 * (k - 1))) == Zeros(4 * (k - 1));
      assert Zeros(4) + Zeros(4 * (k - 1)) == Zeros(4 * k);
    }
  }

  /** Past that length the cast loses the count: one segment of 2^32 zero bytes and 2^30 + 1 empty
      segments have one text. */
  lemma LongSegmentCollides(long: Text, k: nat)
    requires long == Zeros(0x1_0000_0000) && 4 * k == 4 + |long|
    ensures [long] != Empties(k) && PathHex([long]) == PathHex(Empties(k))
  {
    hide IsUtf8, PutU32, PutMany;
    EmptySegmentsAreZeros(k);
    ZeroLength(long);
    OneSegment(long);
    assert PutRaw(long, []) == long;
    assert Zeros(4) + long == Zeros(4 * k);
  }

  lemma OneSegment(s: Text)
    ensures PathBytes([s]) == PutCastSegment(s, [])
  {
    hide PutCastSegment, IsUtf8;
    assert PutMany(PutCastSegment, [s][1..], []) == [];
  }

  lemma LongSegmentExists() returns (long: Text, k: nat)
    ensures long == Zeros(0x1_0000_0000) && 4 * k == 4 + |long|
  {
    ZerosAreText(0x1_0000_0000);
    long, k := Zeros(0x1_0000_0000), 0x4000_0001;
  }

  predicate UpTo(n: nat, segments: seq<Text>) { forall s | s in segments :: |s| <= n }

  ghost predicate SeparatesUpTo(n: nat) {
    forall a, b | UpTo(n, a) && UpTo(n, b) && PathHex(a) == PathHex(b) :: a == b
  }

  /** So the text tells segment lists apart precisely as long as every segment is shorter than 2^32 bytes. */
  lemma PathHexSeparatesExactly(n: nat)
    ensures SeparatesUpTo(n) <==> n < 0x1_0000_0000
  {
    hide PathHex, IsUtf8;
    if n < 0x1_0000_0000 {
      forall a, b | UpTo(n, a) && UpTo(n, b) && PathHex(a) == PathHex(b) ensures a == b {
        PathHexSeparates(a, b);
      }
    } else {
      var long, k := LongSegmentExists();
      LongSegmentCollides(long, k);
      EmptiesAreEmpty(k);
      assert UpTo(n, [long]) && UpTo(n, Empties(k));
    }
  }

  lemma {:induction false} EmptiesAreEmpty(k: nat)
    ensures forall s | s in Empties(k) :: s == []
  {
    if k > 0 {
      EmptiesAreEmpty(k - 1);
    }
  }
}
