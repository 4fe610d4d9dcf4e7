/** The canonical encoding of an extent set and its decoder, as functions on byte strings. */
module EdgeCanonical {
  import opened Bytes
  import opened Ordering
  import opened EdgeExtents
  import opened EdgeOrder

  // ----- layout -----

  function PutRecord(r: EdgeRecord, rest: bytes): bytes {
    PutU8(r.objectType, PutRaw(r.objectHash, PutU64(r.decodedSize,
      PutU64(r.offset, PutU64(r.length, PutRaw(r.encodedDigest, rest))))))
  }

  function PutExtent(e: EdgeExtent, rest: bytes): bytes {
    PutRaw(e.packId, PutText(e.etag, PutU64(e.offset, PutU64(e.length,
      PutU32(Low32(|e.records|), PutMany(PutRecord, e.records, rest))))))
  }

  function PutRoot(root: Array32, rest: bytes): bytes { PutRaw(root, rest) }

  function PutAudience(audience: EdgeAudience, rest: bytes): bytes {
    PutU8(audience.Tag(), if audience.Team? || audience.Restricted? then PutText(audience.scope, rest) else rest)
  }

  function PutTrailer(s: EdgeExtentSet, rest: bytes): bytes {
    PutU64(s.issuedAt, PutU64(s.expiresAt, PutRaw(s.nonce, rest)))
  }

  function PutExtents(s: EdgeExtentSet, rest: bytes): bytes {
    PutU32(Low32(|s.extents|), PutMany(PutExtent, s.extents, PutTrailer(s, rest)))
  }

  function PutRoots(s: EdgeExtentSet, rest: bytes): bytes {
    PutU16(Low16(|s.contentRoots|), PutMany(PutRoot, s.contentRoots, PutExtents(s, rest)))
  }

  function PutHeader(repositoryId: Array16, facet: Text, audience: EdgeAudience, rest: bytes): bytes {
    PutRaw(MAGIC, PutU8(VERSION, PutRaw(repositoryId, PutText(facet, PutAudience(audience, rest)))))
  }

  /** The bytes of `s`, fields in order, followed by `rest`. */
  function PutSet(s: EdgeExtentSet, rest: bytes): bytes {
    PutHeader(s.repositoryId, s.facet, s.audience, PutRoots(s, rest))
  }

  // ----- normal form -----

  predicate AudienceOk(audience: EdgeAudience) {
    audience.Team? || audience.Restricted? ==> 0 < |audience.scope| <= MAX_U16
  }

  /** Everything the encoder checks, of a set whose extents and roots are already in order. */
  predicate WellFormed(s: EdgeExtentSet) {
    0 < |s.facet| <= MAX_U16 && s.issuedAt < s.expiresAt && AudienceOk(s.audience) &&
    0 < |s.contentRoots| <= MAX_CONTENT_ROOTS &&
    |s.extents| <= MAX_EXTENTS && ExtentsOk(s.extents)
  }

  /** The set with extents sorted and content roots sorted without repeats. */
  function Normal(s: EdgeExtentSet): EdgeExtentSet {
    s.(extents := Sort(ExtentLess, s.extents), contentRoots := Dedup(Sort(RootLess, s.contentRoots)))
  }

  function CanonicalBytes(s: EdgeExtentSet): Result<bytes> {
    if WellFormed(Normal(s)) then Ok(PutSet(Normal(s), [])) else Err
  }

  // ----- decoding -----

  function GetAudience(b: bytes): Option<Split<EdgeAudience>> {
    var Split(tag, afterTag) :- GetU8(b);
    if tag == 0 then Some(Split(Public, afterTag))
    else if tag == 1 then Some(Split(Internal, afterTag))
    else if tag == 2 then
      var Split(scope, rest) :- GetText(afterTag);
      Some(Split(Team(scope), rest))
    else if tag == 3 then
      var Split(scope, rest) :- GetText(afterTag);
      Some(Split(Restricted(scope), rest))
    else None
  }

  function GetRecord(b: bytes): Option<Split<EdgeRecord>> {
    var Split(objectType, b1) :- GetU8(b);
    var Split(objectHash, b2) :- GetArray32(b1);
    var Split(decodedSize, b3) :- GetU64(b2);
    var Split(offset, b4) :- GetU64(b3);
    var Split(length, b5) :- GetU64(b4);
    var Split(encodedDigest, rest) :- GetArray32(b5);
    Some(Split(EdgeRecord(objectType, objectHash, decodedSize, offset, length, encodedDigest), rest))
  }

  function GetRecords(b: bytes): Option<Split<seq<EdgeRecord>>> {
    var Split(count, b1) :- GetU32(b);
    if count > MAX_RECORDS_PER_EXTENT then None else GetMany(GetRecord, count, b1)
  }

  function GetExtent(b: bytes): Option<Split<EdgeExtent>> {
    var Split(packId, b1) :- GetArray32(b);
    var Split(etag, b2) :- GetText(b1);
    var Split(offset, b3) :- GetU64(b2);
    var Split(length, b4) :- GetU64(b3);
    var Split(records, rest) :- GetRecords(b4);
    Some(Split(EdgeExtent(packId, etag, offset, length, records), rest))
  }

  function GetRoots(b: bytes): Option<Split<seq<Array32>>> {
    var Split(count, b1) :- GetU16(b);
    if count > MAX_CONTENT_ROOTS then None else GetMany(GetArray32, count, b1)
  }

  function GetExtents(b: bytes): Option<Split<seq<EdgeExtent>>> {
    var Split(count, b1) :- GetU32(b);
    if count > MAX_EXTENTS then None else GetMany(GetExtent, count, b1)
  }

  function GetSet(b: bytes): Option<Split<EdgeExtentSet>> {
    var Split(magic, b1) :- GetRaw(4, b);
    if magic != MAGIC then None else
    var Split(version, b2) :- GetU8(b1);
    if version != VERSION then None else
    var Split(repositoryId, b3) :- GetArray16(b2);
    var Split(facet, b4) :- GetText(b3);
    var Split(audience, b5) :- GetAudience(b4);
    var Split(contentRoots, b6) :- GetRoots(b5);
    var Split(extents, b7) :- GetExtents(b6);
    var Split(issuedAt, b8) :- GetU64(b7);
    var Split(expiresAt, b9) :- GetU64(b8);
    var Split(nonce, rest) :- GetArray16(b9);
    Some(Split(EdgeExtentSet(repositoryId, facet, audience, contentRoots, extents, issuedAt, expiresAt, nonce), rest))
  }

  /** Read a whole set, then insist that it re-encodes to the very bytes received. */
  function DecodeCanonical(b: bytes): Result<EdgeExtentSet> {
    match GetSet(b)
    case None => Err
    case Some(Split(s, rest)) => if rest == [] && CanonicalBytes(s) == Ok(b) then Ok(s) else Err
  }

  // ----- reading back -----

  lemma ExtentReadsBack(e: EdgeExtent, rest: bytes)
    requires ExtentOk(e)
    ensures GetExtent(PutExtent(e, rest)) == Some(Split(e, rest))
  {
    hide PutRaw, GetRaw, PutU32, GetU32, PutU64, GetU64, PutText, GetText, IsUtf8, PutRecord, GetRecord;
    assert forall r, more :: GetRecord(PutRecord(r, more)) == Some(Split(r, more)) by {
      RecordReadsBack();
    }
    GetPutMany(PutRecord, GetRecord, e.records, rest);
    assert GetRecords(PutU32(Low32(|e.records|), PutMany(PutRecord, e.records, rest))) == Some(Split(e.records, rest));
  }

  lemma RecordReadsBack()
    ensures forall r, more :: GetRecord(PutRecord(r, more)) == Some(Split(r, more))
  {
    hide PutRaw, GetRaw, PutU8, GetU8, PutU64, GetU64;
  }

  lemma ExtentsReadBack(s: EdgeExtentSet, rest: bytes)
    requires |s.extents| <= MAX_EXTENTS && ExtentsOk(s.extents)
    ensures GetExtents(PutExtents(s, rest)) == Some(Split(s.extents, PutTrailer(s, rest)))
  {
    hide PutU32, GetU32, PutExtent, GetExtent, ExtentOk, PutTrailer;
    forall e, more | e in s.extents ensures GetExtent(PutExtent(e, more)) == Some(Split(e, more)) {
      ExtentReadsBack(e, more);
    }
    GetPutMany(PutExtent, GetExtent, s.extents, PutTrailer(s, rest));
  }

  lemma RootsReadBack(s: EdgeExtentSet, rest: bytes)
    requires |s.contentRoots| <= MAX_CONTENT_ROOTS
    ensures GetRoots(PutRoots(s, rest)) == Some(Split(s.contentRoots, PutExtents(s, rest)))
  {
    hide PutU16, GetU16, PutExtents, PutRaw, GetRaw;
    GetPutMany(PutRoot, GetArray32, s.contentRoots, PutExtents(s, rest));
  }

  lemma SetReadsBack(s: EdgeExtentSet, rest: bytes)
    requires WellFormed(s)
    ensures GetSet(PutSet(s, rest)) == Some(Split(s, rest))
  {
    hide PutRaw, GetRaw, PutU8, GetU8, PutU64, GetU64, PutText, GetText, IsUtf8,
      PutRoots, GetRoots, PutExtents, GetExtents, ExtentsOk;
    RootsReadBack(s, rest);
    ExtentsReadBack(s, rest);
  }

  // ----- normal forms are fixed points and identify sets -----

  lemma NormalIsSorted(s: EdgeExtentSet)
    ensures Sorted(ExtentLess, Normal(s).extents) && multiset(Normal(s).extents) == multiset(s.extents)
    ensures StrictlySorted(RootLess, Normal(s).contentRoots)
    ensures forall root :: root in Normal(s).contentRoots <==> root in s.contentRoots
  {
    ExtentOrder();
    RootOrder();
    SortSorts(ExtentLess, s.extents);
    SortSorts(RootLess, s.contentRoots);
    DedupSorted(RootLess, Sort(RootLess, s.contentRoots));
    assert forall root :: root in s.contentRoots <==> root in multiset(s.contentRoots);
    assert forall root :: root in Sort(RootLess, s.contentRoots)
                          <==> root in multiset(Sort(RootLess, s.contentRoots));
  }

  /** Two listings of one set: the extents rearranged, the roots rearranged or repeated. */
  ghost predicate SameSet(s: EdgeExtentSet, t: EdgeExtentSet) {
    multiset(s.extents) == multiset(t.extents) &&
    (forall root :: root in s.contentRoots <==> root in t.contentRoots) &&
    s == t.(extents := s.extents, contentRoots := s.contentRoots)
  }

  /** Listing order and repeated roots change neither success nor the bytes. */
  lemma ListingDoesNotMatter(s: EdgeExtentSet, t: EdgeExtentSet)
    requires SameSet(s, t)
    ensures CanonicalBytes(s) == CanonicalBytes(t)
    ensures CanonicalBytes(s).Ok? ==> Normal(s) == Normal(t)
  {
    NormalIsSorted(s);
    NormalIsSorted(t);
    RootOrder();
    StrictlySortedUnique(RootLess, Normal(s).contentRoots, Normal(t).contentRoots);
    AnySortServes(s.extents, Normal(s).extents, Normal(t).extents);
  }

  /** Normalizing an encodable set twice changes nothing more. */
  lemma NormalIsStable(s: EdgeExtentSet)
    requires WellFormed(Normal(s))
    ensures Normal(Normal(s)) == Normal(s)
  {
    var n := Normal(s);
    NormalIsSorted(s);
    NormalIsSorted(n);
    AnySortServes(s.extents, n.extents, Normal(n).extents);
    RootOrder();
    StrictlySortedUnique(RootLess, n.contentRoots, Normal(n).contentRoots);
  }

  /** Decoding what was encoded gives the normal form of what was given. */
  lemma DecodeEncode(s: EdgeExtentSet)
    requires CanonicalBytes(s).Ok?
    ensures DecodeCanonical(CanonicalBytes(s).value) == Ok(Normal(s))
  {
    hide GetSet, PutSet, Normal, WellFormed;
    SetReadsBack(Normal(s), []);
    NormalIsStable(s);
  }

  /** Encoding what was decoded gives the bytes received, and only sets in normal form are decoded. */
  lemma EncodeDecode(b: bytes)
    requires DecodeCanonical(b).Ok?
    ensures CanonicalBytes(DecodeCanonical(b).value) == Ok(b)
    ensures Normal(DecodeCanonical(b).value) == DecodeCanonical(b).value
  {
    DecodeEncode(DecodeCanonical(b).value);
  }

  /** Encodable sets share their bytes, hence their digest preimage, exactly when they normalize alike. */
  lemma SameBytesSameNormalForm(s: EdgeExtentSet, t: EdgeExtentSet)
    requires CanonicalBytes(s).Ok? && CanonicalBytes(t).Ok?
    ensures CanonicalBytes(s) == CanonicalBytes(t) <==> Normal(s) == Normal(t)
  {
    DecodeEncode(s);
    DecodeEncode(t);
  }

  // ----- prefix-freeness -----

  lemma RecordExtends()
    ensures Extends(PutRecord)
  {
    hide PutRaw, GetRaw, PutU8, GetU8, PutU16, GetU16, PutU32, GetU32, PutU64, GetU64, PutText, GetText;
    PrimitivesExtend();
  }

  lemma ExtentExtends()
    ensures Extends(PutExtent)
  {
    hide PutRaw, GetRaw, PutU8, GetU8, PutU16, GetU16, PutU32, GetU32, PutU64, GetU64, PutText, GetText;
    PrimitivesExtend();
    RecordExtends();
    forall e: EdgeExtent, rest, more ensures PutExtent(e, rest) + more == PutExtent(e, rest + more) {
      PutManyExtends(PutRecord, e.records, rest, more);
    }
  }

  lemma SetExtends(s: EdgeExtentSet, more: bytes)
    ensures PutSet(s, []) + more == PutSet(s, more)
  {
    hide PutRaw, GetRaw, PutU8, GetU8, PutU16, GetU16, PutU32, GetU32, PutU64, GetU64, PutText, GetText;
    PrimitivesExtend();
    ExtentExtends();
    assert [] + more == more;
    PutManyExtends(PutExtent, s.extents, PutTrailer(s, []), more);
    assert PutExtents(s, []) + more == PutExtents(s, more);
    PutManyExtends(PutRoot, s.contentRoots, PutExtents(s, []), more);
  }

  /** No canonical encoding is a proper prefix of another: an accepted string has no accepted
      strict extension, and so no accepted strict prefix either. */
  lemma PrefixFree(b: bytes, more: bytes)
    requires DecodeCanonical(b).Ok? && more != []
    ensures DecodeCanonical(b + more).Err?
  {
    EncodeDecode(b);
    var s := DecodeCanonical(b).value;
    SetExtends(s, more);
    SetReadsBack(s, more);
  }

  lemma NoAcceptedPrefix(b: bytes, k: nat)
    requires DecodeCanonical(b).Ok? && k < |b|
    ensures DecodeCanonical(b[..k]).Err?
  {
    hide DecodeCanonical;
    assert b[..k] + b[k..] == b;
    if DecodeCanonical(b[..k]).Ok? {
      PrefixFree(b[..k], b[k..]);
    }
  }

  // ----- what an accepted set authorizes -----

  /** Every set the decoder accepts has sorted extents that passed every check. */
  lemma DecodedExtentsOk(b: bytes)
    requires DecodeCanonical(b).Ok?
    ensures var s := DecodeCanonical(b).value;
            WellFormed(s) && Sorted(ExtentLess, s.extents) && PacksConsistent(s.extents)
  {
    EncodeDecode(b);
    var s := DecodeCanonical(b).value;
    NormalIsSorted(s);
    NeighbourCheckIsGlobal(s.extents);
  }

  /** One string has the smaller byte where the two first differ. */
  ghost predicate SmallerFirst(a: Array32, b: Array32) {
    exists k :: 0 <= k < 32 && a[..k] == b[..k] && a[k] < b[k]
  }

  /** The order of an accepted set, byte by byte.  Of any two roots the earlier has the smaller byte where they first
      differ; of any two extents the earlier has the smaller pack, compared likewise, or the two are of one pack and
      one ETag and the earlier ends where the later begins, or before. */
  lemma DecodedOrder(b: bytes)
    requires DecodeCanonical(b).Ok?
    ensures var roots := DecodeCanonical(b).value.contentRoots;
            forall i, j | 0 <= i < j < |roots| :: SmallerFirst(roots[i], roots[j])
    ensures var extents := DecodeCanonical(b).value.extents;
            forall i, j | 0 <= i < j < |extents| ::
              SmallerFirst(extents[i].packId, extents[j].packId) ||
              (extents[i].packId == extents[j].packId && extents[i].etag == extents[j].etag &&
               extents[i].offset + extents[i].length <= extents[j].offset)
  {
    hide DecodeCanonical, Normal, SmallerFirst, ExtentsOk, LexLess, RootLess, PacksConsistent;
    EncodeDecode(b);
    NormalIsSorted(DecodeCanonical(b).value);
    DecodedExtentsOk(b);
    RootsInOrder(DecodeCanonical(b).value.contentRoots);
    ExtentsInOrder(DecodeCanonical(b).value.extents);
  }

  lemma RootsInOrder(roots: seq<Array32>)
    requires StrictlySorted(RootLess, roots)
    ensures forall i, j | 0 <= i < j < |roots| :: SmallerFirst(roots[i], roots[j])
  {
    hide LexLess, SmallerFirst;
    forall i, j | 0 <= i < j < |roots| ensures SmallerFirst(roots[i], roots[j]) {
      SameLengthParts(roots[i], roots[j]);
    }
  }

  lemma ExtentsInOrder(extents: seq<EdgeExtent>)
    requires Sorted(ExtentLess, extents) && ExtentsOk(extents)
    ensures forall i, j | 0 <= i < j < |extents| ::
              SmallerFirst(extents[i].packId, extents[j].packId) ||
              (extents[i].packId == extents[j].packId && extents[i].etag == extents[j].etag &&
               extents[i].offset + extents[i].length <= extents[j].offset)
  {
    hide LexLess, SmallerFirst, ExtentsOk;
    NeighbourCheckIsGlobal(extents);
    forall i, j | 0 <= i < j < |extents| && extents[i].packId != extents[j].packId
      ensures SmallerFirst(extents[i].packId, extents[j].packId)
    {
      SameLengthParts(extents[i].packId, extents[j].packId);
    }
  }

  lemma SameLengthParts(a: Array32, b: Array32)
    requires LexLess(a, b)
    ensures SmallerFirst(a, b)
  {
    LexLessParts(a, b);
    var k :| PartsAt(a, b, k);
    assert 0 <= k < 32 && a[..k] == b[..k] && a[k] < b[k];
  }

  /** The encoder's comparator, byte by byte: packs first, then ETags, of which a proper prefix comes first, then
      offsets. */
  lemma ComparatorMeans(x: EdgeExtent, y: EdgeExtent)
    ensures ExtentLess(x, y) <==>
              if x.packId != y.packId then
                exists k :: 0 <= k < 32 && x.packId[..k] == y.packId[..k] && x.packId[k] < y.packId[k]
              else if x.etag != y.etag then
                exists k :: 0 <= k <= |x.etag| && k < |y.etag| && x.etag[..k] == y.etag[..k] &&
                            (k == |x.etag| || x.etag[k] < y.etag[k])
              else x.offset < y.offset
  {
    hide LexLess, IsUtf8;
    LexLessTrichotomy(x.packId, y.packId);
    LexLessTrichotomy(x.etag, y.etag);
    LexLessParts(x.packId, y.packId);
    LexLessParts(x.etag, y.etag);
    if k :| PartsAt(x.packId, y.packId, k) { assert x.packId[..k] == y.packId[..k]; }
    if k :| 0 <= k < 32 && x.packId[..k] == y.packId[..k] && x.packId[k] < y.packId[k] {
      assert PartsAt(x.packId, y.packId, k);
    }
    if k :| PartsAt(x.etag, y.etag, k) { assert x.etag[..k] == y.etag[..k]; }
    if k :| 0 <= k <= |x.etag| && k < |y.etag| && x.etag[..k] == y.etag[..k] &&
            (k == |x.etag| || x.etag[k] < y.etag[k]) {
      assert PartsAt(x.etag, y.etag, k);
    }
  }

  /** What an accepted set is bounded by. */
  lemma DecodedBounds(b: bytes)
    requires DecodeCanonical(b).Ok?
    ensures var s := DecodeCanonical(b).value;
            0 < |s.facet| <= 65_535 && s.issuedAt < s.expiresAt && 0 < |s.contentRoots| <= 4_096 &&
            |s.extents| <= 65_536 &&
            (s.audience.Team? || s.audience.Restricted? ==> 0 < |s.audience.scope| <= 65_535) &&
            forall e | e in s.extents :: 0 < |e.etag| <= 65_535 && 0 < |e.records| <= 65_536 && e.length > 0
  {
    hide DecodeCanonical, TileEnd;
    DecodedExtentsOk(b);
    var s := DecodeCanonical(b).value;
    forall e | e in s.extents ensures 0 < |e.etag| <= 65_535 && 0 < |e.records| <= 65_536 && e.length > 0 {
      var i :| 0 <= i < |s.extents| && s.extents[i] == e;
      assert ExtentOk(s.extents[i]);
    }
  }

  /** In an accepted set: the lookup answers exactly for the listed ranges and never meets two of them;
      a pack byte is held by a record exactly when some extent spans it; and two holders are one. */
  lemma AcceptedSetIsUnambiguous(b: bytes, e: EdgeExtent, pack: Array32, etag: Text, offset: u64, length: u64, p: int)
    requires DecodeCanonical(b).Ok?
    ensures var extents := DecodeCanonical(b).value.extents;
            (ExactExtent(extents, pack, etag, offset, length) == Some(e)
             <==> e in extents && Matches(e, pack, etag, offset, length)) &&
            |MatchesIn(extents, pack, etag, offset, length)| <= 1
    ensures var extents := DecodeCanonical(b).value.extents;
            (exists i, r :: Owns(extents, pack, p, i, r))
            <==> exists i :: 0 <= i < |extents| && extents[i].packId == pack
                             && Within(p, extents[i].offset, extents[i].End())
    ensures var extents := DecodeCanonical(b).value.extents;
            forall i, r, j, q | Owns(extents, pack, p, i, r) && Owns(extents, pack, p, j, q) :: i == j && r == q
  {
    DecodedExtentsOk(b);
    var extents := DecodeCanonical(b).value.extents;
    ExactExtentFindsExactly(extents, e, pack, etag, offset, length);
    AuthorizedBytesAreOwned(extents, pack, p);
    forall i, r, j, q | Owns(extents, pack, p, i, r) && Owns(extents, pack, p, j, q) ensures i == j && r == q {
      OneOwner(extents, pack, p, i, r, j, q);
    }
  }
}
