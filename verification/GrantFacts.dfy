/** The grant facts a subject token must carry for its capability. */
module GrantFacts {
  import opened Bytes
  import opened Buffers
  import opened Hex
  import opened Digests
  import opened SigningBodies
  import Layouts

  /** One grant as a fact: the spool's identifier in hexadecimal, its path, whether descendants are included, the
      action. */
  datatype GrantFact = GrantFact(spool: bytes, path: bytes, includeDescendants: bool, action: i32)

  function FactOf(grant: Grant): GrantFact
    requires grant.spool.Some?
  {
    var selector := grant.spool.value;
    GrantFact(HexEncode(selector.rootSpoolUuid), PathHex(selector.pathSegments), selector.includeDescendants,
        grant.action)
  }

  predicate AllSelected(grants: seq<Grant>) { forall g | g in grants :: g.spool.Some? }

  /** Every segment of every selector is short enough for its length field. */
  predicate AllFit(grants: seq<Grant>) {
    forall g | g in grants :: g.spool.Some? && SegmentsFit(g.spool.value.pathSegments)
  }

  method PathHexOf(segments: seq<Text>) returns (text: bytes)
    ensures text == PathHex(segments)
  {
    hide PutCastSegment, HexEncode, PutU32, PutRaw;
    var encoder := new Encoder();
    for i := 0 to |segments|
      invariant encoder.out + PutMany(PutCastSegment, segments[i..], []) == PathBytes(segments)
    {
      assert segments[i..][0] == segments[i] && segments[i..][1..] == segments[i + 1..];
      WriteCastSegment(encoder, segments[i]);
    }
    assert encoder.out + [] == encoder.out;
    text := HexEncode(encoder.out);
  }

  method WriteCastSegment(encoder: Encoder, segment: Text)
    modifies encoder
    ensures forall rest {:trigger encoder.out + rest} ::
              encoder.out + rest == old(encoder.out) + PutCastSegment(segment, rest)
  {
    hide PutU32, PutRaw;
    encoder.U32(|segment| % 0x1_0000_0000);
    encoder.Raw(segment);
  }

  method ExpectedGrants(grants: seq<Grant>) returns (r: Result<set<GrantFact>>)
    ensures r.Ok? <==> AllSelected(grants)
    ensures r.Ok? ==> r.value == Facts(grants)
  {
    hide PathHex;
    var facts: set<GrantFact> := {};
    for i := 0 to |grants|
      invariant AllSelected(grants[..i])
      invariant facts == Facts(grants[..i])
    {
      assert grants[..i + 1] == grants[..i] + [grants[i]];
      if grants[i].spool.None? {
        return Err;
      }
      var selector := grants[i].spool.value;
      var path := PathHexOf(selector.pathSegments);
      facts := facts + {GrantFact(HexEncode(selector.rootSpoolUuid), path, selector.includeDescendants,
          grants[i].action)};
    }
    assert grants[..|grants|] == grants;
    r := Ok(facts);
  }

  /** A grant's fact reads back: the spool's identifier, the path with each segment under its length, and the
      descendants flag and action as they are. */
  lemma FactReadsBack(grant: Grant)
    requires grant.spool.Some?
    ensures var (fact, selector) := (FactOf(grant), grant.spool.value);
            HexDecode(fact.spool) == Some(selector.rootSpoolUuid) &&
            HexDecode(fact.path) == Some(Layouts.Flat(Layouts.SegmentPart, selector.pathSegments)) &&
            fact.includeDescendants == selector.includeDescendants && fact.action == grant.action
  {
    hide HexEncode, HexDecode;
    HexRoundTrip(grant.spool.value.rootSpoolUuid);
    Layouts.PathLayout(grant.spool.value.pathSegments);
  }

  /** Two grants produce one fact exactly when they agree on everything but the timeline scope. */
  lemma FactSeparatesGrants(a: Grant, b: Grant)
    requires a.spool.Some? && b.spool.Some?
    requires SegmentsFit(a.spool.value.pathSegments) && SegmentsFit(b.spool.value.pathSegments)
    ensures FactOf(a) == FactOf(b) <==> a.spool == b.spool && a.action == b.action
  {
    hide PathHex, HexEncode, SegmentsFit;
    PathHexSeparates(a.spool.value.pathSegments, b.spool.value.pathSegments);
    if FactOf(a) == FactOf(b) { HexInjective(a.spool.value.rootSpoolUuid, b.spool.value.rootSpoolUuid); }
  }

  /** A token carrying exactly one capability's grant facts fits another capability only if the two grant
      the same actions on the same selections. */
  lemma ExpectedGrantsSeparate(a: seq<Grant>, b: seq<Grant>)
    requires AllFit(a) && AllFit(b)
    ensures Facts(a) == Facts(b) <==> Selections(a) == Selections(b)
  {
    if Facts(a) == Facts(b) {
      FactsCover(a, b);
      FactsCover(b, a);
    }
    if Selections(a) == Selections(b) {
      SelectionsCover(a, b);
      SelectionsCover(b, a);
    }
  }

  function Facts(grants: seq<Grant>): set<GrantFact> { set g | g in grants && g.spool.Some? :: FactOf(g) }

  function Selections(grants: seq<Grant>): set<(Option<Selector>, i32)> { set g | g in grants :: (g.spool, g.action) }

  lemma FactsCover(a: seq<Grant>, b: seq<Grant>)
    requires AllFit(a) && AllFit(b) && Facts(a) <= Facts(b)
    ensures Selections(a) <= Selections(b)
  {
    hide FactOf, SegmentsFit;
    forall g | g in a ensures (g.spool, g.action) in Selections(b) {
      assert FactOf(g) in Facts(b);
      var other :| other in b && other.spool.Some? && FactOf(other) == FactOf(g);
      FactSeparatesGrants(g, other);
      assert (other.spool, other.action) in Selections(b);
    }
  }

  lemma SelectionsCover(a: seq<Grant>, b: seq<Grant>)
    requires AllFit(a) && AllFit(b) && Selections(a) <= Selections(b)
    ensures Facts(a) <= Facts(b)
  {
    hide SegmentsFit;
    forall g | g in a ensures FactOf(g) in Facts(b) {
      assert (g.spool, g.action) in Selections(b);
      var other :| other in b && other.spool == g.spool && other.action == g.action;
      assert FactOf(other) in Facts(b);
    }
  }
}
