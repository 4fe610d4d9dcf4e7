/** From the check on sorted neighbours to facts about the whole extent set. */
module EdgeOrder {
  import opened Bytes
  import opened Ordering
  import opened EdgeExtents

  /** The comparator the encoder sorts extents by: pack, then ETag, then offset. */
  predicate ExtentLess(a: EdgeExtent, b: EdgeExtent) {
    LexLess(a.packId, b.packId) ||
    (a.packId == b.packId && (LexLess(a.etag, b.etag) || (a.etag == b.etag && a.offset < b.offset)))
  }

  predicate RootLess(a: Array32, b: Array32) { LexLess(a, b) }

  lemma RootOrder()
    ensures StrictWeakOrder(RootLess) && Total(RootLess)
  {
    forall x: Array32, y: Array32
      ensures x == y || RootLess(x, y) || RootLess(y, x)
      ensures x == y ==> !RootLess(x, y)
    {
      LexLessTrichotomy(x, y);
    }
    forall x: Array32, y: Array32, z: Array32 | RootLess(x, y) && RootLess(y, z) ensures RootLess(x, z) {
      LexLessTransitive(x, y, z);
    }
  }

  lemma ExtentLessStep(a: EdgeExtent, b: EdgeExtent, c: EdgeExtent)
    ensures !ExtentLess(a, a)
    ensures ExtentLess(a, b) && ExtentLess(b, c) ==> ExtentLess(a, c)
    ensures ExtentLess(a, c) ==> ExtentLess(a, b) || ExtentLess(b, c)
  {
    LexTriple(a.packId, b.packId, c.packId);
    LexTriple(a.etag, b.etag, c.etag);
  }

  lemma LexTriple(a: bytes, b: bytes, c: bytes)
    ensures !LexLess(a, a)
    ensures LexLess(a, b) && LexLess(b, c) ==> LexLess(a, c)
    ensures LexLess(a, c) ==> LexLess(a, b) || LexLess(b, c)
    ensures a == b || LexLess(a, b) || LexLess(b, a)
    ensures b == c || LexLess(b, c) || LexLess(c, b)
  {
    LexLessTrichotomy(a, a);
    LexLessTrichotomy(a, b);
    LexLessTrichotomy(b, c);
    if LexLess(a, b) && LexLess(b, c) { LexLessTransitive(a, b, c); }
    if LexLess(a, c) && LexLess(c, b) { LexLessTransitive(a, c, b); }
    if LexLess(b, a) && LexLess(a, c) { LexLessTransitive(b, a, c); }
  }

  lemma ExtentOrder()
    ensures StrictWeakOrder(ExtentLess)
  {
    forall a, b, c
      ensures !ExtentLess(a, a)
      ensures ExtentLess(a, b) && ExtentLess(b, c) ==> ExtentLess(a, c)
      ensures ExtentLess(a, c) ==> ExtentLess(a, b) || ExtentLess(b, c)
    {
      ExtentLessStep(a, b, c);
    }
  }

  /** What the encoding loop requires of an extent and the one just before it. */
  predicate NeighbourOk(previous: EdgeExtent, extent: EdgeExtent) {
    previous.packId == extent.packId ==> previous.etag == extent.etag && previous.End() <= extent.offset
  }

  predicate ExtentOk(extent: EdgeExtent) { ValidTiling(extent) && |extent.etag| <= MAX_U16 }

  predicate ExtentsOk(extents: seq<EdgeExtent>) {
    (forall i | 0 <= i < |extents| :: ExtentOk(extents[i])) &&
    (forall i | 0 < i < |extents| :: NeighbourOk(extents[i - 1], extents[i]))
  }

  /** Any two extents of one pack share its ETag and do not overlap, however far apart they are listed. */
  ghost predicate PacksConsistent(extents: seq<EdgeExtent>) {
    forall i, j | 0 <= i < j < |extents| :: NeighbourOk(extents[i], extents[j])
  }

  lemma SortedPacksContiguous(extents: seq<EdgeExtent>, i: int, k: int, j: int)
    requires Sorted(ExtentLess, extents) && 0 <= i < k < j < |extents|
    requires extents[i].packId == extents[j].packId
    ensures extents[k].packId == extents[i].packId
  {
    assert !ExtentLess(extents[k], extents[i]) && !ExtentLess(extents[j], extents[k]);
    LexTriple(extents[i].packId, extents[k].packId, extents[j].packId);
    LexLessTrichotomy(extents[k].packId, extents[i].packId);
  }

  lemma {:induction false} NeighboursReach(extents: seq<EdgeExtent>, i: int, j: int)
    requires Sorted(ExtentLess, extents) && ExtentsOk(extents) && 0 <= i < j < |extents|
    ensures NeighbourOk(extents[i], extents[j])
    decreases j - i
  {
    if j - i > 1 && extents[i].packId == extents[j].packId {
      SortedPacksContiguous(extents, i, j - 1, j);
      NeighboursReach(extents, i, j - 1);
      assert NeighbourOk(extents[j - 1], extents[j]);
      assert ExtentOk(extents[j - 1]);
    }
  }

  /** Checking only sorted neighbours settles every pair, and makes the sort keys strictly increase. */
  lemma NeighbourCheckIsGlobal(extents: seq<EdgeExtent>)
    requires Sorted(ExtentLess, extents) && ExtentsOk(extents)
    ensures PacksConsistent(extents)
    ensures StrictlySorted(ExtentLess, extents)
  {
    forall i, j | 0 <= i < j < |extents|
      ensures NeighbourOk(extents[i], extents[j]) && ExtentLess(extents[i], extents[j])
    {
      NeighboursReach(extents, i, j);
      assert ExtentOk(extents[i]) && !ExtentLess(extents[j], extents[i]);
      LexLessTrichotomy(extents[i].packId, extents[j].packId);
    }
  }

  /** The unstable sort is harmless: of all sorted rearrangements either all pass and are one list, or none passes. */
  lemma AnySortServes(extents: seq<EdgeExtent>, s: seq<EdgeExtent>, t: seq<EdgeExtent>)
    requires Sorted(ExtentLess, s) && multiset(s) == multiset(extents)
    requires Sorted(ExtentLess, t) && multiset(t) == multiset(extents)
    ensures ExtentsOk(s) || ExtentsOk(t) ==> s == t
  {
    ExtentOrder();
    if ExtentsOk(s) {
      NeighbourCheckIsGlobal(s);
      SortedFormUnique(ExtentLess, s, t);
    } else if ExtentsOk(t) {
      NeighbourCheckIsGlobal(t);
      SortedFormUnique(ExtentLess, t, s);
    }
  }

  // ----- who owns a byte -----

  /** Record `r` of extent `i` holds byte `p` of pack `pack`. */
  predicate Owns(extents: seq<EdgeExtent>, pack: Array32, p: int, i: int, r: int) {
    0 <= i < |extents| && 0 <= r < |extents[i].records| &&
    extents[i].packId == pack && InRecord(extents[i].records[r], p)
  }

  lemma OwnedWithin(extents: seq<EdgeExtent>, pack: Array32, p: int, i: int)
    requires 0 <= i < |extents| && ExtentOk(extents[i]) && extents[i].packId == pack
    ensures Within(p, extents[i].offset, extents[i].End()) <==> exists r :: Owns(extents, pack, p, i, r)
    ensures forall r, q :: Owns(extents, pack, p, i, r) && Owns(extents, pack, p, i, q) ==> r == q
  {
    var records := extents[i].records;
    TilingIsExact(records, extents[i].offset, extents[i].End());
    assert Within(p, extents[i].offset, extents[i].End()) <==> Covered(records, p);
    if r :| 0 <= r < |records| && InRecord(records[r], p) {
      assert Owns(extents, pack, p, i, r);
    }
  }

  /** A byte of a pack is held by a record exactly when it lies inside some extent of that pack. */
  lemma AuthorizedBytesAreOwned(extents: seq<EdgeExtent>, pack: Array32, p: int)
    requires ExtentsOk(extents)
    ensures (exists i, r :: Owns(extents, pack, p, i, r))
            <==> exists i :: 0 <= i < |extents| && extents[i].packId == pack
                             && Within(p, extents[i].offset, extents[i].End())
  {
    if i, r :| Owns(extents, pack, p, i, r) {
      assert ExtentOk(extents[i]);
      OwnedWithin(extents, pack, p, i);
    }
    if i :| 0 <= i < |extents| && extents[i].packId == pack && Within(p, extents[i].offset, extents[i].End()) {
      assert ExtentOk(extents[i]);
      OwnedWithin(extents, pack, p, i);
    }
  }

  /** No byte of a pack lies in two records anywhere in the set. */
  lemma OneOwner(extents: seq<EdgeExtent>, pack: Array32, p: int, i: int, r: int, j: int, q: int)
    requires ExtentsOk(extents) && PacksConsistent(extents)
    requires Owns(extents, pack, p, i, r) && Owns(extents, pack, p, j, q)
    ensures i == j && r == q
  {
    assert ExtentOk(extents[i]) && ExtentOk(extents[j]);
    OwnedWithin(extents, pack, p, i);
    OwnedWithin(extents, pack, p, j);
  }

  // ----- exact lookup -----

  predicate Matches(e: EdgeExtent, pack: Array32, etag: Text, offset: u64, length: u64) {
    e.packId == pack && e.etag == etag && e.offset == offset && e.length == length
  }

  function MatchesIn(extents: seq<EdgeExtent>, pack: Array32, etag: Text, offset: u64, length: u64): seq<EdgeExtent> {
    if |extents| == 0 then []
    else
      (if Matches(extents[0], pack, etag, offset, length) then [extents[0]] else []) +
      MatchesIn(extents[1..], pack, etag, offset, length)
  }

  /** The extent whose range is exactly the one asked for; two of them are refused like none. */
  function ExactExtent(extents: seq<EdgeExtent>, pack: Array32, etag: Text, offset: u64,
      length: u64): Option<EdgeExtent> {
    var found := MatchesIn(extents, pack, etag, offset, length);
    if |found| == 1 then Some(found[0]) else None
  }

  lemma {:induction false} MatchesCount(
    extents: seq<EdgeExtent>, e: EdgeExtent, pack: Array32, etag: Text, offset: u64, length: u64)
    ensures multiset(MatchesIn(extents, pack, etag, offset, length))[e]
            == if Matches(e, pack, etag, offset, length) then multiset(extents)[e] else 0
  {
    if |extents| > 0 {
      assert extents == [extents[0]] + extents[1..];
      MatchesCount(extents[1..], e, pack, etag, offset, length);
    }
  }

  lemma NoMatch(extents: seq<EdgeExtent>, pack: Array32, etag: Text, offset: u64, length: u64)
    requires forall k | 0 <= k < |extents| :: !Matches(extents[k], pack, etag, offset, length)
    ensures MatchesIn(extents, pack, etag, offset, length) == []
  {}

  lemma {:induction false} OneMatch(extents: seq<EdgeExtent>, pack: Array32, etag: Text, offset: u64, length: u64)
    requires ExtentsOk(extents) && PacksConsistent(extents)
    ensures |MatchesIn(extents, pack, etag, offset, length)| <= 1
  {
    if |extents| > 0 {
      var tail := extents[1..];
      if Matches(extents[0], pack, etag, offset, length) {
        assert ExtentOk(extents[0]);
        forall k | 0 <= k < |tail| ensures !Matches(tail[k], pack, etag, offset, length) {
          assert NeighbourOk(extents[0], extents[k + 1]);
        }
        NoMatch(tail, pack, etag, offset, length);
      } else {
        forall i | 0 < i < |tail| ensures NeighbourOk(tail[i - 1], tail[i]) {
          assert NeighbourOk(extents[i], extents[i + 1]);
        }
        OneMatch(tail, pack, etag, offset, length);
      }
    }
  }

  /** In a consistent set the lookup returns an extent exactly when the set holds it at exactly that range. */
  lemma ExactExtentFindsExactly(
    extents: seq<EdgeExtent>, e: EdgeExtent, pack: Array32, etag: Text, offset: u64, length: u64)
    requires ExtentsOk(extents) && PacksConsistent(extents)
    ensures ExactExtent(extents, pack, etag, offset, length) == Some(e)
            <==> e in extents && Matches(e, pack, etag, offset, length)
    ensures |MatchesIn(extents, pack, etag, offset, length)| <= 1
  {
    var found := MatchesIn(extents, pack, etag, offset, length);
    OneMatch(extents, pack, etag, offset, length);
    MatchesCount(extents, e, pack, etag, offset, length);
    assert e in extents <==> multiset(extents)[e] > 0;
    if |found| == 1 {
      assert found == [found[0]];
      MatchesCount(extents, found[0], pack, etag, offset, length);
    }
  }
}
