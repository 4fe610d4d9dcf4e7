/** The encoder and decoder of extent sets as they run: one output buffer, one read cursor. */
module EdgeCodec {
  import opened Bytes
  import opened Ordering
  import opened Buffers
  import opened EdgeExtents
  import opened EdgeOrder
  import opened EdgeCanonical

  /** The tiling guard, walking a cursor over the records. */
  method ValidateTiling(extent: EdgeExtent) returns (ok: bool)
    ensures ok <==> ValidTiling(extent)
  {
    if extent.length == 0 || |extent.records| == 0 || |extent.records| > MAX_RECORDS_PER_EXTENT || extent.etag == []
       || extent.offset + extent.length > MAX_U64 {
      return false;
    }
    var cursor: u64 := extent.offset;
    assert extent.records[0..] == extent.records;
    for i := 0 to |extent.records|
      invariant TileEnd(extent.records[i..], cursor) == TileEnd(extent.records, extent.offset)
    {
      var record := extent.records[i];
      assert extent.records[i..][1..] == extent.records[i + 1..];
      if record.length == 0 || record.offset != cursor || cursor + record.length > MAX_U64 {
        return false;
      }
      cursor := cursor + record.length;
    }
    ok := cursor == extent.End();
  }

  method WriteRecords(encoder: Encoder, records: seq<EdgeRecord>)
    modifies encoder
    ensures forall rest {:trigger encoder.out + rest} ::
              encoder.out + rest == old(encoder.out) + PutMany(PutRecord, records, rest)
  {
    hide PutRaw, PutU8, PutU64;
    for i := 0 to |records|
      invariant forall rest {:trigger PutMany(PutRecord, records, rest)} ::
                  encoder.out + PutMany(PutRecord, records[i..], rest)
                  == old(encoder.out) + PutMany(PutRecord, records, rest)
    {
      var record := records[i];
      assert records[i..][1..] == records[i + 1..];
      encoder.U8(record.objectType);
      encoder.Raw(record.objectHash);
      encoder.U64(record.decodedSize);
      encoder.U64(record.offset);
      encoder.U64(record.length);
      encoder.Raw(record.encodedDigest);
    }
    assert records[|records|..] == [];
  }

  /** The last extent written: its pack, its ETag and where it ends. */
  datatype Previous = Nothing | Previous(packId: Array32, etag: Text, end: int)

  method WriteExtent(encoder: Encoder, extent: EdgeExtent) returns (r: Result<()>)
    modifies encoder
    ensures r.Ok? <==> |extent.etag| <= MAX_U16
    ensures r.Ok? ==> forall rest {:trigger encoder.out + rest} ::
                        encoder.out + rest == old(encoder.out) + PutExtent(extent, rest)
  {
    hide PutRaw, PutText, PutU32, PutU64, IsUtf8, PutMany, GetText, GetU32, GetU64, GetRaw;
    encoder.Raw(extent.packId);
    var _ :- encoder.BoundedString(extent.etag);
    encoder.U64(extent.offset);
    encoder.U64(extent.length);
    encoder.U32(Low32(|extent.records|));
    WriteRecords(encoder, extent.records);
    r := Ok(());
  }

  /** The main loop: validate each extent, compare it with the one before it, write it. */
  method WriteExtents(encoder: Encoder, extents: seq<EdgeExtent>) returns (r: Result<()>)
    modifies encoder
    ensures r.Ok? <==> ExtentsOk(extents)
    ensures r.Ok? ==> forall rest {:trigger encoder.out + rest} ::
                        encoder.out + rest == old(encoder.out) + PutMany(PutExtent, extents, rest)
  {
    hide PutExtent, ValidTiling, IsUtf8;
    var previous: Previous := Nothing;
    for i := 0 to |extents|
      invariant previous == if i == 0 then Nothing else
                            Previous(extents[i - 1].packId, extents[i - 1].etag, extents[i - 1].End())
      invariant forall j | 0 <= j < i :: ExtentOk(extents[j])
      invariant forall j | 0 < j < i :: NeighbourOk(extents[j - 1], extents[j])
      invariant forall rest {:trigger PutMany(PutExtent, extents, rest)} ::
                  encoder.out + PutMany(PutExtent, extents[i..], rest)
                  == old(encoder.out) + PutMany(PutExtent, extents, rest)
    {
      var extent := extents[i];
      assert extents[i..][1..] == extents[i + 1..];
      var valid := ValidateTiling(extent);
      if !valid {
        assert !ExtentOk(extents[i]);
        return Err;
      }
      if previous.Previous? && previous.packId == extent.packId &&
         (previous.etag != extent.etag || extent.offset < previous.end) {
        assert !NeighbourOk(extents[i - 1], extents[i]);
        return Err;
      }
      var written := WriteExtent(encoder, extent);
      if written.Err? {
        assert !ExtentOk(extents[i]);
        return Err;
      }
      previous := Previous(extent.packId, extent.etag, extent.End());
    }
    assert extents[|extents|..] == [];
    r := Ok(());
  }

  method WriteRoots(encoder: Encoder, roots: seq<Array32>)
    modifies encoder
    ensures forall rest {:trigger encoder.out + rest} ::
              encoder.out + rest == old(encoder.out) + PutMany(PutRoot, roots, rest)
  {
    hide PutRaw;
    for i := 0 to |roots|
      invariant forall rest {:trigger PutMany(PutRoot, roots, rest)} ::
                  encoder.out + PutMany(PutRoot, roots[i..], rest)
                  == old(encoder.out) + PutMany(PutRoot, roots, rest)
    {
      assert roots[i..][1..] == roots[i + 1..];
      encoder.Raw(roots[i]);
    }
    assert roots[|roots|..] == [];
  }

  method WriteAudience(encoder: Encoder, audience: EdgeAudience) returns (r: Result<()>)
    modifies encoder
    ensures r.Ok? <==> AudienceOk(audience)
    ensures r.Ok? ==> forall rest {:trigger encoder.out + rest} ::
                        encoder.out + rest == old(encoder.out) + PutAudience(audience, rest)
  {
    hide PutU8, PutText, IsUtf8;
    encoder.U8(audience.Tag());
    if audience.Team? || audience.Restricted? {
      if audience.scope == [] {
        return Err;
      }
      var _ :- encoder.BoundedString(audience.scope);
    }
    r := Ok(());
  }

  /** Sorted and deduplicated content roots are the roots of the normal form. */
  method SortedRoots(s: EdgeExtentSet) returns (roots: seq<Array32>)
    ensures roots == Normal(s).contentRoots
  {
    RootOrder();
    roots := SortedClone(RootLess, s.contentRoots);
    NormalIsSorted(s);
    DedupSorted(RootLess, roots);
    assert forall root :: root in roots <==> root in multiset(roots);
    assert forall root :: root in s.contentRoots <==> root in multiset(s.contentRoots);
    roots := Dedup(roots);
    StrictlySortedUnique(RootLess, roots, Normal(s).contentRoots);
  }

  method WriteHeader(encoder: Encoder, s: EdgeExtentSet) returns (r: Result<()>)
    modifies encoder
    ensures r.Ok? <==> |s.facet| <= MAX_U16 && AudienceOk(s.audience)
    ensures r.Ok? ==> forall rest {:trigger encoder.out + rest} ::
                        encoder.out + rest == old(encoder.out) + PutHeader(s.repositoryId, s.facet, s.audience, rest)
  {
    hide PutRaw, PutU8, PutText, IsUtf8, PutAudience, AudienceOk;
    encoder.Raw(MAGIC);
    encoder.U8(VERSION);
    encoder.Raw(s.repositoryId);
    var _ :- encoder.BoundedString(s.facet);
    r := WriteAudience(encoder, s.audience);
  }

  /** Everything after the audience.  Both counts have been checked against bounds that fit their fields. */
  method WriteBody(encoder: Encoder, s: EdgeExtentSet) returns (r: Result<()>)
    modifies encoder
    ensures r.Ok? <==> ExtentsOk(s.extents)
    ensures r.Ok? ==> forall rest {:trigger encoder.out + rest} ::
                        encoder.out + rest == old(encoder.out) + PutRoots(s, rest)
  {
    hide PutRaw, PutU16, PutU32, PutU64, ExtentsOk, PutMany, PutExtent, PutRoot;
    encoder.U16(Low16(|s.contentRoots|));
    WriteRoots(encoder, s.contentRoots);
    encoder.U32(Low32(|s.extents|));
    var _ :- WriteExtents(encoder, s.extents);
    encoder.U64(s.issuedAt);
    encoder.U64(s.expiresAt);
    encoder.Raw(s.nonce);
    r := Ok(());
  }

  /** The extents sorted: the normal form's, if they pass its checks at all. */
  method SortedExtents(s: EdgeExtentSet) returns (extents: seq<EdgeExtent>)
    ensures |extents| == |s.extents| == |Normal(s).extents|
    ensures ExtentsOk(extents) || ExtentsOk(Normal(s).extents) ==> extents == Normal(s).extents
  {
    hide ExtentsOk, Normal, LexLess, IsUtf8;
    ExtentOrder();
    NormalIsSorted(s);
    extents := SortedClone(ExtentLess, s.extents);
    AnySortServes(s.extents, extents, Normal(s).extents);
    assert |multiset(extents)| == |multiset(s.extents)| == |multiset(Normal(s).extents)|;
  }

  /** Normalizing touches nothing but the order of the extents and the list of roots. */
  lemma NormalKeeps(s: EdgeExtentSet)
    ensures |Normal(s).extents| == |s.extents|
    ensures Normal(s) == s.(extents := Normal(s).extents, contentRoots := Normal(s).contentRoots)
  {
    NormalIsSorted(s);
    assert |multiset(Normal(s).extents)| == |multiset(s.extents)|;
  }

  /** Canonical bytes, refused as soon as a check fails.  The sort may order ties as it likes: the
      outcome is the same. */
  method Encode(s: EdgeExtentSet) returns (r: Result<bytes>)
    ensures r == CanonicalBytes(s)
  {
    hide IsUtf8, PutHeader, PutRoots, AudienceOk, ExtentsOk, Normal;
    NormalKeeps(s);
    if s.facet == [] || s.expiresAt <= s.issuedAt || |s.extents| > MAX_EXTENTS {
      return Err;
    }
    var extents := SortedExtents(s);
    var encoder := new Encoder();
    var _ :- WriteHeader(encoder, s);
    var roots := SortedRoots(s);
    if roots == [] || |roots| > MAX_CONTENT_ROOTS {
      return Err;
    }
    var sorted := s.(extents := extents, contentRoots := roots);
    var _ :- WriteBody(encoder, sorted);
    assert sorted == Normal(s);
    assert encoder.out + [] == encoder.out && [] + PutSet(sorted, []) == PutSet(sorted, []);
    r := Ok(encoder.out);
  }

  // ----- decoding -----

  method ReadAudience(cursor: Cursor) returns (r: Result<EdgeAudience>)
    requires cursor.Valid()
    modifies cursor`offset
    ensures cursor.Valid() && Reads(GetAudience(old(cursor.Rest())), r, cursor.Rest())
  {
    hide GetU8, GetTextUpTo, IsUtf8;
    var tag :- cursor.U8();
    match tag {
      case 0 => r := Ok(Public);
      case 1 => r := Ok(Internal);
      case 2 =>
        var scope :- cursor.BoundedString(MAX_U16);
        r := Ok(Team(scope));
      case 3 =>
        var scope :- cursor.BoundedString(MAX_U16);
        r := Ok(Restricted(scope));
      case _ => r := Err;
    }
  }

  method ReadRoots(cursor: Cursor) returns (r: Result<seq<Array32>>)
    requires cursor.Valid()
    modifies cursor`offset
    ensures cursor.Valid() && Reads(GetRoots(old(cursor.Rest())), r, cursor.Rest())
  {
    hide GetU16, GetArray32, GetMany, Continues;
    var count :- cursor.U16();
    if count > MAX_CONTENT_ROOTS {
      return Err;
    }
    ghost var whole := GetMany(GetArray32, count, cursor.Rest());
    ContinuesStart(whole);
    var roots: seq<Array32> := [];
    for i := 0 to count
      invariant cursor.Valid() && |roots| == i
      invariant Continues(whole, roots, GetMany(GetArray32, count - i, cursor.Rest()))
    {
      ContinuesStep(GetArray32, whole, roots, count - i, cursor.Rest());
      var root :- cursor.Array32();
      roots := roots + [root];
    }
    ContinuesStep(GetArray32, whole, roots, 0, cursor.Rest());
    r := Ok(roots);
  }

  method ReadRecord(cursor: Cursor) returns (r: Result<EdgeRecord>)
    requires cursor.Valid()
    modifies cursor`offset
    ensures cursor.Valid() && Reads(GetRecord(old(cursor.Rest())), r, cursor.Rest())
  {
    hide GetU8, GetU64, GetArray32;
    var objectType :- cursor.U8();
    var objectHash :- cursor.Array32();
    var decodedSize :- cursor.U64();
    var offset :- cursor.U64();
    var length :- cursor.U64();
    var encodedDigest :- cursor.Array32();
    r := Ok(EdgeRecord(objectType, objectHash, decodedSize, offset, length, encodedDigest));
  }

  method ReadRecords(cursor: Cursor) returns (r: Result<seq<EdgeRecord>>)
    requires cursor.Valid()
    modifies cursor`offset
    ensures cursor.Valid() && Reads(GetRecords(old(cursor.Rest())), r, cursor.Rest())
  {
    hide GetU32, GetRecord, GetMany, Continues;
    var count :- cursor.U32();
    if count > MAX_RECORDS_PER_EXTENT {
      return Err;
    }
    ghost var whole := GetMany(GetRecord, count, cursor.Rest());
    ContinuesStart(whole);
    var records: seq<EdgeRecord> := [];
    for i := 0 to count
      invariant cursor.Valid() && |records| == i
      invariant Continues(whole, records, GetMany(GetRecord, count - i, cursor.Rest()))
    {
      ContinuesStep(GetRecord, whole, records, count - i, cursor.Rest());
      var record :- ReadRecord(cursor);
      records := records + [record];
    }
    ContinuesStep(GetRecord, whole, records, 0, cursor.Rest());
    r := Ok(records);
  }

  method ReadExtent(cursor: Cursor) returns (r: Result<EdgeExtent>)
    requires cursor.Valid()
    modifies cursor`offset
    ensures cursor.Valid() && Reads(GetExtent(old(cursor.Rest())), r, cursor.Rest())
  {
    hide GetU64, GetArray32, GetTextUpTo, GetRecords, IsUtf8;
    var packId :- cursor.Array32();
    var etag :- cursor.BoundedString(MAX_U16);
    var offset :- cursor.U64();
    var length :- cursor.U64();
    var records :- ReadRecords(cursor);
    r := Ok(EdgeExtent(packId, etag, offset, length, records));
  }

  method ReadExtents(cursor: Cursor) returns (r: Result<seq<EdgeExtent>>)
    requires cursor.Valid()
    modifies cursor`offset
    ensures cursor.Valid() && Reads(GetExtents(old(cursor.Rest())), r, cursor.Rest())
  {
    hide GetU32, GetExtent, GetMany, Continues;
    var count :- cursor.U32();
    if count > MAX_EXTENTS {
      return Err;
    }
    ghost var whole := GetMany(GetExtent, count, cursor.Rest());
    ContinuesStart(whole);
    var extents: seq<EdgeExtent> := [];
    for i := 0 to count
      invariant cursor.Valid() && |extents| == i
      invariant Continues(whole, extents, GetMany(GetExtent, count - i, cursor.Rest()))
    {
      ContinuesStep(GetExtent, whole, extents, count - i, cursor.Rest());
      var extent :- ReadExtent(cursor);
      extents := extents + [extent];
    }
    ContinuesStep(GetExtent, whole, extents, 0, cursor.Rest());
    r := Ok(extents);
  }

  method ReadSet(cursor: Cursor) returns (r: Result<EdgeExtentSet>)
    requires cursor.Valid()
    modifies cursor`offset
    ensures cursor.Valid() && Reads(GetSet(old(cursor.Rest())), r, cursor.Rest())
  {
    hide GetRaw, GetU8, GetU64, GetArray16, GetTextUpTo, GetAudience, GetRoots, GetExtents, IsUtf8;
    var magic :- cursor.Take(4);
    if magic != MAGIC {
      return Err;
    }
    var version :- cursor.U8();
    if version != VERSION {
      return Err;
    }
    var repositoryId :- cursor.Array16();
    var facet :- cursor.BoundedString(MAX_U16);
    var audience :- ReadAudience(cursor);
    var contentRoots :- ReadRoots(cursor);
    var extents :- ReadExtents(cursor);
    var issuedAt :- cursor.U64();
    var expiresAt :- cursor.U64();
    var nonce :- cursor.Array16();
    r := Ok(EdgeExtentSet(repositoryId, facet, audience, contentRoots, extents, issuedAt, expiresAt, nonce));
  }

  /** Read every field, insist nothing trails, and insist the result re-encodes to the same bytes. */
  method Decode(b: bytes) returns (r: Result<EdgeExtentSet>)
    ensures r == DecodeCanonical(b)
  {
    hide GetSet, CanonicalBytes;
    var cursor := new Cursor(b);
    var decoded :- ReadSet(cursor);
    var empty := cursor.IsEmpty();
    if !empty {
      return Err;
    }
    var again :- Encode(decoded);
    if again != b {
      return Err;
    }
    r := Ok(decoded);
  }
}
