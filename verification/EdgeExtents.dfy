/** Edge extent sets: what a set must satisfy, its normal form and its canonical layout. */
module EdgeExtents {
  import opened Bytes
  import opened Ordering

  const MAX_EXTENTS := 65_536
  const MAX_RECORDS_PER_EXTENT := 65_536
  const MAX_CONTENT_ROOTS := 4_096
  const MAX_U64: int := 0xFFFF_FFFF_FFFF_FFFF

  const MAGIC: bytes := [0x57, 0x45, 0x44, 0x47]
  const VERSION: byte := 1

  // ----- audiences -----

  datatype EdgeAudience =
    | Public
    | Internal
    | Team(scope: Text)
    | Restricted(scope: Text)
  {
    function Tag(): byte {
      match this
      case Public => 0
      case Internal => 1
      case Team(_) => 2
      case Restricted(_) => 3
    }
  }

  // "public", "internal", "team:" and "restricted:" in ASCII.
  const PUBLIC: bytes := [0x70, 0x75, 0x62, 0x6C, 0x69, 0x63]
  const INTERNAL: bytes := [0x69, 0x6E, 0x74, 0x65, 0x72, 0x6E, 0x61, 0x6C]
  const TEAM_PREFIX: bytes := [0x74, 0x65, 0x61, 0x6D, 0x3A]
  const RESTRICTED_PREFIX: bytes := [0x72, 0x65, 0x73, 0x74, 0x72, 0x69, 0x63, 0x74, 0x65, 0x64, 0x3A]

  function AsCanonical(audience: EdgeAudience): bytes {
    match audience
    case Public => PUBLIC
    case Internal => INTERNAL
    case Team(name) => TEAM_PREFIX + name
    case Restricted(scope) => RESTRICTED_PREFIX + scope
  }

  predicate IsAscii(b: bytes) { forall i | 0 <= i < |b| :: b[i] < 0x80 }

  lemma {:induction false} AsciiPrefix(prefix: bytes, rest: bytes)
    requires IsAscii(prefix)
    ensures IsUtf8(prefix + rest) <==> IsUtf8(rest)
  {
    if |prefix| > 0 {
      AsciiPrefix(prefix[1..], rest);
      assert (prefix + rest)[1..] == prefix[1..] + rest;
    } else {
      assert prefix + rest == rest;
    }
  }

  /** The rest of `value` after `prefix`, as `str::strip_prefix` gives it. */
  function StripPrefix(value: Text, prefix: bytes): (rest: Option<Text>)
    requires IsAscii(prefix)
    ensures rest.Some? ==> value == prefix + rest.value
    ensures rest.None? ==> !(prefix <= value)
  {
    if prefix <= value then
      AsciiPrefix(prefix, value[|prefix|..]);
      assert value == prefix + value[|prefix|..];
      Some(value[|prefix|..])
    else None
  }

  function ParseAudience(value: Text): Option<EdgeAudience> {
    if value == PUBLIC then Some(Public)
    else if value == INTERNAL then Some(Internal)
    else
      match StripPrefix(value, TEAM_PREFIX)
      case Some(name) => if name != [] then Some(Team(name)) else None
      case None =>
        match StripPrefix(value, RESTRICTED_PREFIX)
        case Some(name) => if name != [] then Some(Restricted(name)) else None
        case None => None
  }

  /** A string is accepted only as the canonical form of the tier it yields. */
  lemma AudienceParsePrints(value: Text)
    ensures ParseAudience(value).Some? ==> AsCanonical(ParseAudience(value).value) == value
  {}

  lemma CanonicalIsText(audience: EdgeAudience)
    ensures IsUtf8(AsCanonical(audience))
  {
    match audience {
      case Public => AsciiPrefix(PUBLIC, []); assert PUBLIC + [] == PUBLIC;
      case Internal => AsciiPrefix(INTERNAL, []); assert INTERNAL + [] == INTERNAL;
      case Team(name) => AsciiPrefix(TEAM_PREFIX, name);
      case Restricted(name) => AsciiPrefix(RESTRICTED_PREFIX, name);
    }
  }

  /** A tier round-trips through its canonical string exactly when it is not a nameless scoped tier. */
  lemma AudiencePrintParses(audience: EdgeAudience)
    ensures IsUtf8(AsCanonical(audience))
    ensures ParseAudience(AsCanonical(audience)) == Some(audience)
            <==> (audience.Team? || audience.Restricted? ==> audience.scope != [])
  {
    CanonicalIsText(audience);
    var value: Text := AsCanonical(audience);
    match audience {
      case Public =>
      case Internal => assert INTERNAL[0] != PUBLIC[0];
      case Team(name) =>
        assert value[0] == 0x74 != PUBLIC[0] && value[0] != INTERNAL[0];
        assert TEAM_PREFIX <= value && value[|TEAM_PREFIX|..] == name;
      case Restricted(name) =>
        assert value[0] == 0x72 != PUBLIC[0] && value[0] != INTERNAL[0] && value[0] != TEAM_PREFIX[0];
        assert RESTRICTED_PREFIX <= value && value[|RESTRICTED_PREFIX|..] == name;
    }
  }

  // ----- extents and their records -----

  datatype EdgeRecord = EdgeRecord(
    objectType: byte,
    objectHash: Array32,
    decodedSize: u64,
    offset: u64,
    length: u64,
    encodedDigest: Array32)

  datatype EdgeExtent = EdgeExtent(
    packId: Array32,
    etag: Text,
    offset: u64,
    length: u64,
    records: seq<EdgeRecord>)
  {
    function End(): int { offset + length }
  }

  datatype EdgeExtentSet = EdgeExtentSet(
    repositoryId: Array16,
    facet: Text,
    audience: EdgeAudience,
    contentRoots: seq<Array32>,
    extents: seq<EdgeExtent>,
    issuedAt: u64,
    expiresAt: u64,
    nonce: Array16)

  /** Where records laid end to end from `from` stop, if they do lie end to end below 2^64. */
  function TileEnd(records: seq<EdgeRecord>, from: u64): Option<u64> {
    if |records| == 0 then Some(from)
    else
      var r := records[0];
      if r.length == 0 || r.offset != from || from + r.length > MAX_U64 then None
      else TileEnd(records[1..], from + r.length)
  }

  predicate ValidTiling(extent: EdgeExtent) {
    extent.length > 0 &&
    0 < |extent.records| <= MAX_RECORDS_PER_EXTENT &&
    extent.etag != [] &&
    extent.End() <= MAX_U64 &&
    TileEnd(extent.records, extent.offset) == Some(extent.End())
  }

  predicate InRecord(r: EdgeRecord, p: int) { r.offset <= p < r.offset + r.length }

  predicate Within(p: int, from: int, end: int) { from <= p < end }

  ghost predicate Covered(records: seq<EdgeRecord>, p: int) {
    exists i :: 0 <= i < |records| && InRecord(records[i], p)
  }

  /** The bytes from `from` up to `end` are the records' bytes in order: none missing, none shared, none extra. */
  ghost predicate ExactlyTiled(records: seq<EdgeRecord>, from: int, end: int) {
    from <= end &&
    (forall i | 0 <= i < |records| :: records[i].length > 0) &&
    (forall i, j | 0 <= i < j < |records| :: records[i].offset + records[i].length <= records[j].offset) &&
    (forall p :: Within(p, from, end) <==> Covered(records, p))
  }

  /** The running-cursor walk accepts exactly the exact tilings. */
  lemma {:induction false} TilingIsExact(records: seq<EdgeRecord>, from: u64, end: u64)
    ensures TileEnd(records, from) == Some(end) <==> ExactlyTiled(records, from, end)
    decreases |records|
  {
    if |records| == 0 {
      assert Within(from, from, end) <==> from < end;
      assert forall p :: !Covered(records, p);
    } else {
      var r, tail := records[0], records[1..];
      if r.length > 0 && r.offset == from && from + r.length <= MAX_U64 {
        TilingIsExact(tail, from + r.length, end);
        if ExactlyTiled(tail, from + r.length, end) {
          TiledCons(records, from, end);
        }
      }
      if ExactlyTiled(records, from, end) {
        TiledUncons(records, from, end);
      }
    }
  }

  lemma CoveredCons(records: seq<EdgeRecord>, p: int)
    requires |records| > 0
    ensures Covered(records, p) <==> InRecord(records[0], p) || Covered(records[1..], p)
  {
    if i :| 0 <= i < |records[1..]| && InRecord(records[1..][i], p) {
      assert InRecord(records[i + 1], p);
    }
    if i :| 0 < i < |records| && InRecord(records[i], p) {
      assert InRecord(records[1..][i - 1], p);
    }
  }

  lemma TiledCons(records: seq<EdgeRecord>, from: u64, end: u64)
    requires |records| > 0 && records[0].length > 0 && records[0].offset == from
    requires ExactlyTiled(records[1..], from + records[0].length, end)
    ensures ExactlyTiled(records, from, end)
  {
    var r, tail := records[0], records[1..];
    forall j | 0 < j < |records| ensures r.offset + r.length <= records[j].offset {
      assert InRecord(tail[j - 1], records[j].offset);
      assert Within(records[j].offset, from + r.length, end);
    }
    forall p ensures Within(p, from, end) <==> Covered(records, p) {
      CoveredCons(records, p);
      assert Within(p, from + r.length, end) <==> Covered(tail, p);
    }
  }

  lemma TiledUncons(records: seq<EdgeRecord>, from: u64, end: u64)
    requires |records| > 0 && ExactlyTiled(records, from, end)
    ensures records[0].length > 0 && records[0].offset == from
    ensures ExactlyTiled(records[1..], from + records[0].length, end)
  {
    var r, tail := records[0], records[1..];
    assert InRecord(r, r.offset) && InRecord(r, r.offset + r.length - 1);
    assert Within(r.offset, from, end) && Within(r.offset + r.length - 1, from, end);
    assert Within(from, from, end);
    var k :| 0 <= k < |records| && InRecord(records[k], from);
    assert k == 0;
    forall p ensures Within(p, from + r.length, end) <==> Covered(tail, p) {
      CoveredCons(records, p);
      assert Within(p, from, end) <==> Covered(records, p);
      if i :| 0 <= i < |tail| && InRecord(tail[i], p) {
        assert records[i + 1] == tail[i];
      }
    }
  }
}
