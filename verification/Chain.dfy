/** The proof-key lineage of a token: which key may act after each appended block. */
module Chain {
  import opened Bytes
  import opened Hex
  import opened Digests

  // ----- blocks -----

  datatype Term = Str(text: bytes) | Date(seconds: nat) | OtherTerm

  datatype Fact = Fact(name: string, terms: seq<Term>)

  /** The two checks of a presence block, and any other. */
  datatype Check = ExpiresBefore(seconds: nat) | PresenceOperation | OtherCheck(id: int)

  /** `plain` says the block carries no scopes and no context. */
  datatype Block = Block(
    revocationId: bytes, externalKey: Option<bytes>,
    facts: seq<Fact>, rules: nat, checks: seq<Check>, plain: bool)

  const PRESENCE := "weft_presence_attenuation_v1"
  const EDGE := "weft_edge_serving_attenuation_v1"
  const POP_DELEGATION := "pop_delegation"
  const AGENT := "agent"
  const PRESENCE_TOKEN_TTL_SECS := 300

  function Named(facts: seq<Fact>, name: string): seq<Fact> {
    if |facts| == 0 then []
    else (if facts[0].name == name then [facts[0]] else []) + Named(facts[1..], name)
  }

  /** What the verifier brings: raw keys that are keys, who signed what, whose presence it trusts, and
      which instants its clock library can hold. */
  datatype Verifier = Verifier(
    wellFormed: bytes -> bool,
    verifies: (bytes, bytes, bytes) -> bool,
    trustedPresence: seq<bytes>,
    representable: nat -> bool)

  // ----- the three block shapes -----

  /** Exactly the block the presence minting function would have built from the marker's terms. */
  predicate PresenceShape(v: Verifier, block: Block) {
    var markers := Named(block.facts, PRESENCE);
    |markers| == 1 && |markers[0].terms| == 3 &&
    var (subject, issued, expires) := (markers[0].terms[0], markers[0].terms[1], markers[0].terms[2]);
    subject.Str? && issued.Date? && expires.Date? && subject.text != [] &&
    issued.seconds < expires.seconds <= issued.seconds + PRESENCE_TOKEN_TTL_SECS &&
    v.representable(issued.seconds) && v.representable(expires.seconds) &&
    block.facts == [markers[0], Fact(AGENT, [Str(Ascii("presence:") + subject.text)])] &&
    block.rules == 0 && block.checks == [ExpiresBefore(expires.seconds), PresenceOperation] && block.plain
  }

  /** A marker, at least one check, and nothing that asserts or derives. */
  predicate EdgeShape(block: Block) {
    |block.facts| == 1 && block.facts[0].name == EDGE && block.rules == 0 && block.checks != []
  }

  /** The presence block minted for a subject, carrying this identifier and third-party key. */
  function PresenceBlock(subject: bytes, issued: nat, expires: nat, id: bytes, key: Option<bytes>): Block {
    Block(id, key,
      [Fact("weft_presence_attenuation_v1", [Str(subject), Date(issued), Date(expires)]),
       Fact("agent", [Str(Ascii("presence:") + subject)])],
      0, [ExpiresBefore(expires), PresenceOperation], true)
  }

  /** The presence shape accepts exactly the blocks minted for a non-empty subject and at most five minutes. */
  lemma PresenceIsMinted(v: Verifier, block: Block)
    ensures PresenceShape(v, block) <==>
              exists subject, issued, expires ::
                block == PresenceBlock(subject, issued, expires, block.revocationId, block.externalKey) &&
                subject != [] && issued < expires <= issued + 300 && v.representable(issued) && v.representable(expires)
  {
    hide Ascii;
    var markers := Named(block.facts, PRESENCE);
    NamedAreNamed(block.facts, PRESENCE);
    if PresenceShape(v, block) {
      var t := markers[0].terms;
      assert markers[0] in markers && t == [t[0], t[1], t[2]];
      assert block == PresenceBlock(t[0].text, t[1].seconds, t[2].seconds, block.revocationId, block.externalKey);
    }
    if subject, issued, expires :|
        block == PresenceBlock(subject, issued, expires, block.revocationId, block.externalKey) &&
        subject != [] && issued < expires <= issued + 300 && v.representable(issued) && v.representable(expires) {
      var fs := block.facts;
      assert fs[1..][1..] == [] && Named(fs[1..][1..], PRESENCE) == [] && Named(fs[1..], PRESENCE) == [];
      assert markers == [fs[0]];
    }
  }

  /** The edge shape accepts exactly the blocks that assert their marker, derive nothing and carry a check: whatever
      else it says, such a block only narrows the token. */
  lemma EdgeIsMarkerAndChecks(block: Block)
    ensures EdgeShape(block) <==>
              block.rules == 0 && |block.checks| > 0 &&
              exists terms :: block.facts == [Fact("weft_edge_serving_attenuation_v1", terms)]
  {
    if EdgeShape(block) {
      assert block.facts == [Fact(EDGE, block.facts[0].terms)];
    }
  }

  const POP_DELEGATION_DOMAIN := "heddle-pop-delegation-v1"

  /** What a delegation's signature covers: the domain with its closing NUL, the parent block, the child key. */
  function PopPayload(parent: bytes, child: bytes): bytes { Ascii(POP_DELEGATION_DOMAIN) + [0] + parent + child }

  /** The domain in ASCII, a NUL and the parent identifier come first; what follows them is the child key. */
  lemma PopPayloadLayout(parent: bytes, child: bytes)
    ensures var start := Ascii("heddle-pop-delegation-v1") + [0] + parent;
            start <= PopPayload(parent, child) && PopPayload(parent, child)[|start|..] == child
  {
    hide Ascii;
  }

  lemma PopPayloadInjective(parent: bytes, child: bytes, parent': bytes, child': bytes)
    requires |child| == |child'|
    requires PopPayload(parent, child) == PopPayload(parent', child')
    ensures parent == parent' && child == child'
  {
    hide Ascii;
    var n := |Ascii(POP_DELEGATION_DOMAIN)| + 1;
    var p := PopPayload(parent, child);
    assert |parent| == |parent'|;
    assert p[n..n + |parent|] == parent && p[n + |parent|..] == child;
    assert p[n..n + |parent'|] == parent' && p[n + |parent'|..] == child';
  }

  function DecodeFixed(text: bytes, length: nat): Option<bytes> {
    var decoded :- HexDecode(text);
    if |decoded| == length then Some(decoded) else None
  }

  /** The key a delegating block hands over to, if it names the block before it and the running key signed it. */
  function DelegatedKey(v: Verifier, block: Block, previousId: bytes, key: Option<bytes>): Option<bytes> {
    var delegations := Named(block.facts, POP_DELEGATION);
    if |delegations| != 1 || |delegations[0].terms| != 3 then None else
    var terms := delegations[0].terms;
    if !terms[0].Str? || !terms[1].Str? || !terms[2].Str? then None else
    var parent :- DecodeFixed(terms[0].text, |previousId|);
    if parent != previousId then None else
    var child :- DecodeFixed(terms[1].text, 32);
    var signature :- DecodeFixed(terms[2].text, 64);
    var keyHex :- key;
    var parentKey :- DecodeFixed(keyHex, 32);
    if v.wellFormed(parentKey) && v.verifies(parentKey, PopPayload(parent, child), signature)
    then Some(HexEncode(child)) else None
  }

  /** The agent a delegating block names: at most one label, and not an empty one. */
  function AgentLabel(block: Block, current: Option<bytes>): Result<Option<bytes>> {
    var labels := Named(block.facts, AGENT);
    if |labels| == 0 then Ok(current)
    else if |labels| == 1 && |labels[0].terms| == 1 && labels[0].terms[0].Str? && labels[0].terms[0].text != []
      then Ok(Some(labels[0].terms[0].text))
    else Err
  }

  // ----- the walk -----

  /** The running key in hexadecimal, and the last agent named. */
  datatype Lineage = Lineage(key: Option<bytes>, agent: Option<bytes>)

  predicate HasPresence(block: Block) { Named(block.facts, PRESENCE) != [] }

  predicate HasEdge(block: Block) { Named(block.facts, EDGE) != [] }

  function Advance(v: Verifier, block: Block, previousId: bytes, terminal: bool, l: Lineage): Result<Lineage> {
    if block.externalKey.Some? && HasPresence(block) then
      if terminal && block.externalKey.value in v.trustedPresence && PresenceShape(v, block) then Ok(l) else Err
    else if HasPresence(block) then Err
    else if HasEdge(block) then
      if EdgeShape(block) then Ok(l) else Err
    else
      match DelegatedKey(v, block, previousId, l.key)
      case None => Err
      case Some(child) =>
        var agent :- AgentLabel(block, l.agent);
        Ok(Lineage(Some(child), agent))
  }

  /** The lineage after the blocks up to but not including `n`. */
  function Fold(v: Verifier, anchor: Option<bytes>, blocks: seq<Block>, n: nat): Result<Lineage>
    requires 0 < n <= |blocks|
  {
    if n == 1 then Ok(Lineage(anchor, None))
    else
      var l :- Fold(v, anchor, blocks, n - 1);
      Advance(v, blocks[n - 1], blocks[n - 2].revocationId, n == |blocks|, l)
  }

  function Anchor(authorityKey: Option<bytes>, initialKey: Option<bytes>): Option<bytes> {
    if authorityKey.Some? then authorityKey else initialKey
  }

  /** The authority block first.  With no block after it there is nothing to verify. */
  method VerifiedDelegationChain(v: Verifier, authorityKey: Option<bytes>, initialKey: Option<bytes>,
      blocks: seq<Block>)
    returns (r: Result<Lineage>)
    requires |blocks| > 0
    ensures r == Fold(v, Anchor(authorityKey, initialKey), blocks, |blocks|)
  {
    hide PresenceShape, EdgeShape, DelegatedKey, AgentLabel, HasPresence, HasEdge, Named;
    var key, agent := Anchor(authorityKey, initialKey), None;
    ghost var anchor := key;
    for index := 1 to |blocks|
      invariant Fold(v, anchor, blocks, index) == Ok(Lineage(key, agent))
    {
      var block := blocks[index];
      FoldStops(v, anchor, blocks, index + 1);
      if block.externalKey.Some? && HasPresence(block) {
        if index + 1 != |blocks| || block.externalKey.value !in v.trustedPresence || !PresenceShape(v, block) {
          return Err;
        }
      } else if HasPresence(block) {
        return Err;
      } else if HasEdge(block) {
        if !EdgeShape(block) {
          return Err;
        }
      } else {
        var child := DelegatedKey(v, block, blocks[index - 1].revocationId, key);
        if child.None? {
          return Err;
        }
        key := child;
        agent :- AgentLabel(block, agent);
      }
    }
    r := Ok(Lineage(key, agent));
  }

  lemma {:induction false} FoldStops(v: Verifier, anchor: Option<bytes>, blocks: seq<Block>, n: nat)
    requires 0 < n <= |blocks|
    ensures Fold(v, anchor, blocks, n).Err? ==> Fold(v, anchor, blocks, |blocks|).Err?
    decreases |blocks| - n
  {
    hide Advance;
    if n < |blocks| {
      FoldStops(v, anchor, blocks, n + 1);
    }
  }

  // ----- what acceptance means -----

  /** One hand-over: the block's only delegation names `previousId` and a child key, under a signature by
      the key in force over both. */
  ghost predicate HandsOver(v: Verifier, block: Block, previousId: bytes, key: Option<bytes>, next: Option<bytes>) {
    exists parent, child, signature :: HandsOverBy(v, block, previousId, key, next, parent, child, signature)
  }

  /** The three terms of the delegation, each decoded from hexadecimal. */
  ghost predicate HandsOverBy(v: Verifier, block: Block, previousId: bytes, key: Option<bytes>, next: Option<bytes>,
                              parent: bytes, child: bytes, signature: bytes) {
    Named(block.facts, POP_DELEGATION) == [Fact(POP_DELEGATION, [Str(parent), Str(child), Str(signature)])] &&
    HexDecode(parent) == Some(previousId) &&
    DecodeFixed(child, 32).Some? && DecodeFixed(signature, 64).Some? &&
    key.Some? && DecodeFixed(key.value, 32).Some? && v.wellFormed(HexDecode(key.value).value) &&
    v.verifies(HexDecode(key.value).value,
      Ascii("heddle-pop-delegation-v1") + [0] + previousId + HexDecode(child).value, HexDecode(signature).value) &&
    next == Some(HexEncode(HexDecode(child).value))
  }

  lemma {:induction false} NamedAreNamed(facts: seq<Fact>, name: string)
    ensures forall f | f in Named(facts, name) :: f.name == name && f in facts
  {
    if |facts| > 0 {
      NamedAreNamed(facts[1..], name);
    }
  }

  lemma DelegatedKeyIsHandOver(v: Verifier, block: Block, previousId: bytes, key: Option<bytes>, next: bytes)
    ensures DelegatedKey(v, block, previousId, key) == Some(next) <==> HandsOver(v, block, previousId, key, Some(next))
  {
    hide HexDecode, HexEncode, Ascii, Named;
    NamedAreNamed(block.facts, POP_DELEGATION);
    var d := Named(block.facts, POP_DELEGATION);
    if |d| == 1 && |d[0].terms| == 3 && d[0].terms[0].Str? && d[0].terms[1].Str? && d[0].terms[2].Str? {
      var t := d[0].terms;
      assert t == [t[0], t[1], t[2]] && d == [d[0]] && d[0] in d;
      assert d == [Fact(POP_DELEGATION, [Str(t[0].text), Str(t[1].text), Str(t[2].text)])];
      assert DelegatedKey(v, block, previousId, key) == Some(next)
             <==> HandsOverBy(v, block, previousId, key, Some(next), t[0].text, t[1].text, t[2].text);
    }
  }

  /** Block `i` takes the running key from `keys[i - 1]` to `keys[i]` in one of the three permitted ways. */
  ghost predicate Link(v: Verifier, blocks: seq<Block>, keys: seq<Option<bytes>>, i: int)
    requires 0 < i < |blocks| && |keys| == |blocks|
  {
    var block := blocks[i];
    if block.externalKey.Some? && HasPresence(block) then
      i == |blocks| - 1 && block.externalKey.value in v.trustedPresence && PresenceShape(v, block) &&
          keys[i] == keys[i - 1]
    else if HasEdge(block) then
      !HasPresence(block) && EdgeShape(block) && keys[i] == keys[i - 1]
    else
      !HasPresence(block) && HandsOver(v, block, blocks[i - 1].revocationId, keys[i - 1], keys[i]) &&
      AgentLabel(block, None).Ok?
  }

  ghost predicate Linked(v: Verifier, anchor: Option<bytes>, blocks: seq<Block>, keys: seq<Option<bytes>>) {
    |keys| == |blocks| > 0 && keys[0] == anchor && AllLinked(v, blocks, keys, |blocks|)
  }

  lemma AdvanceIsLink(v: Verifier, blocks: seq<Block>, keys: seq<Option<bytes>>, i: int, l: Lineage)
    requires 0 < i < |blocks| && |keys| == |blocks| && keys[i - 1] == l.key
    ensures var r := Advance(v, blocks[i], blocks[i - 1].revocationId, i + 1 == |blocks|, l);
            Link(v, blocks, keys, i) <==> r.Ok? && r.value.key == keys[i]
  {
    hide HandsOver, DelegatedKey, PresenceShape, EdgeShape, Named, HasPresence, HasEdge;
    var id := blocks[i - 1].revocationId;
    forall next: bytes { DelegatedKeyIsHandOver(v, blocks[i], id, l.key, next); }
    if keys[i].None? {
      assert !HandsOver(v, blocks[i], id, l.key, None) by { HandOverHasKey(v, blocks[i], id, l.key); }
    }
  }

  lemma HandOverHasKey(v: Verifier, block: Block, previousId: bytes, key: Option<bytes>)
    ensures !HandsOver(v, block, previousId, key, None)
  {}

  /** The fold accepts the first `n` blocks and leaves `key` in force. */
  ghost predicate Reaches(v: Verifier, anchor: Option<bytes>, blocks: seq<Block>, n: nat, key: Option<bytes>)
    requires 0 < n <= |blocks|
  {
    Fold(v, anchor, blocks, n).Ok? && Fold(v, anchor, blocks, n).value.key == key
  }

  ghost predicate AllReached(v: Verifier, anchor: Option<bytes>, blocks: seq<Block>, keys: seq<Option<bytes>>, n: nat)
    requires n <= |blocks| && |keys| == |blocks|
  {
    forall i | 0 <= i < n :: Reaches(v, anchor, blocks, i + 1, keys[i])
  }

  ghost predicate AllLinked(v: Verifier, blocks: seq<Block>, keys: seq<Option<bytes>>, n: nat)
    requires n <= |blocks| && |keys| == |blocks|
  {
    forall i | 0 < i < n :: Link(v, blocks, keys, i)
  }

  lemma {:induction false} LinkedFold(v: Verifier, anchor: Option<bytes>, blocks: seq<Block>,
      keys: seq<Option<bytes>>, n: nat)
    requires 0 < n <= |blocks| && |keys| == |blocks| && keys[0] == anchor
    ensures AllLinked(v, blocks, keys, n) <==> AllReached(v, anchor, blocks, keys, n)
  {
    hide Advance, Link;
    if n > 1 {
      LinkedFold(v, anchor, blocks, keys, n - 1);
      assert AllLinked(v, blocks, keys, n) <==> AllLinked(v, blocks, keys, n - 1) && Link(v, blocks, keys, n - 1);
      assert AllReached(v, anchor, blocks, keys, n) <==>
             AllReached(v, anchor, blocks, keys, n - 1) && Reaches(v, anchor, blocks, n, keys[n - 1]);
      if AllReached(v, anchor, blocks, keys, n - 1) {
        assert Reaches(v, anchor, blocks, n - 2 + 1, keys[n - 2]);
        AdvanceIsLink(v, blocks, keys, n - 1, Fold(v, anchor, blocks, n - 1).value);
      }
    }
  }

  function KeysOf(v: Verifier, anchor: Option<bytes>, blocks: seq<Block>): seq<Option<bytes>> {
    seq(|blocks|, i requires 0 <= i < |blocks| =>
      var l := Fold(v, anchor, blocks, i + 1);
      if l.Ok? then l.value.key else None)
  }

  /** A chain is accepted with a running key exactly when some sequence of keys links every block to the
      one before it and ends in that key. */
  lemma AcceptedIffLinked(v: Verifier, anchor: Option<bytes>, blocks: seq<Block>, key: Option<bytes>)
    requires |blocks| > 0
    ensures Reaches(v, anchor, blocks, |blocks|, key)
            <==> exists keys :: Linked(v, anchor, blocks, keys) && keys[|blocks| - 1] == key
  {
    hide Advance, Link;
    var n := |blocks|;
    if Reaches(v, anchor, blocks, n, key) {
      forall i | 0 <= i < n ensures Reaches(v, anchor, blocks, i + 1, KeysOf(v, anchor, blocks)[i]) {
        FoldStops(v, anchor, blocks, i + 1);
      }
      LinkedFold(v, anchor, blocks, KeysOf(v, anchor, blocks), n);
      assert Linked(v, anchor, blocks, KeysOf(v, anchor, blocks));
    }
    if keys :| Linked(v, anchor, blocks, keys) && keys[n - 1] == key {
      LinkedFold(v, anchor, blocks, keys, n);
      assert Reaches(v, anchor, blocks, n - 1 + 1, keys[n - 1]);
    }
  }

  /** Every non-empty prefix of an accepted chain is accepted, with the lineage reached at that point. */
  lemma PrefixAccepted(v: Verifier, anchor: Option<bytes>, blocks: seq<Block>, m: nat)
    requires 0 < m <= |blocks| && Fold(v, anchor, blocks, |blocks|).Ok?
    ensures Fold(v, anchor, blocks, m).Ok?
    ensures Fold(v, anchor, blocks[..m], m) == Fold(v, anchor, blocks, m)
  {
    FoldStops(v, anchor, blocks, m);
    PrefixFold(v, anchor, blocks, m, m);
  }

  lemma {:induction false} PrefixFold(v: Verifier, anchor: Option<bytes>, blocks: seq<Block>, m: nat, n: nat)
    requires 0 < n <= m <= |blocks| && Fold(v, anchor, blocks, |blocks|).Ok?
    ensures Fold(v, anchor, blocks[..m], n) == Fold(v, anchor, blocks, n)
  {
    hide DelegatedKey, PresenceShape, EdgeShape, Named, HasPresence, HasEdge, AgentLabel;
    if n > 1 {
      PrefixFold(v, anchor, blocks, m, n - 1);
      FoldStops(v, anchor, blocks, n);
      assert blocks[..m][n - 1] == blocks[n - 1] && blocks[..m][n - 2] == blocks[n - 2];
    }
  }

  // ----- the agent named -----

  /** The block hands the key over, and so may name an agent. */
  predicate Delegating(block: Block) { !HasPresence(block) && !HasEdge(block) }

  /** Its only agent fact carries this label. */
  predicate Carries(block: Block, text: bytes) { Named(block.facts, AGENT) == [Fact(AGENT, [Str(text)])] }

  /** The first `n` blocks leave `agent`: the label of the last delegating block among them that has one. */
  ghost predicate LastLabel(blocks: seq<Block>, n: nat, agent: Option<bytes>)
    requires n <= |blocks|
  {
    match agent
    case None => forall j | 0 < j < n && Delegating(blocks[j]) :: Named(blocks[j].facts, AGENT) == []
    case Some(text) =>
      exists i | 0 < i < n ::
        Delegating(blocks[i]) && Carries(blocks[i], text) &&
        forall j | i < j < n && Delegating(blocks[j]) :: Named(blocks[j].facts, AGENT) == []
  }

  lemma {:induction false} FoldNamesLast(v: Verifier, anchor: Option<bytes>, blocks: seq<Block>, n: nat)
    requires 0 < n <= |blocks| && Fold(v, anchor, blocks, n).Ok?
    ensures LastLabel(blocks, n, Fold(v, anchor, blocks, n).value.agent)
  {
    hide PresenceShape, EdgeShape, DelegatedKey, HasPresence, HasEdge, Named;
    if n > 1 {
      FoldNamesLast(v, anchor, blocks, n - 1);
      var block, l := blocks[n - 1], Fold(v, anchor, blocks, n - 1).value;
      var next := Fold(v, anchor, blocks, n).value;
      if Delegating(block) && Named(block.facts, AGENT) != [] {
        LabelCarried(block, l.agent);
        assert LastLabel(blocks, n, next.agent);
      } else {
        assert next.agent == l.agent;
        if l.agent.Some? {
          var i :| 0 < i < n - 1 && Delegating(blocks[i]) && Carries(blocks[i], l.agent.value) &&
                   forall j | i < j < n - 1 && Delegating(blocks[j]) :: Named(blocks[j].facts, AGENT) == [];
          assert forall j | i < j < n && Delegating(blocks[j]) :: Named(blocks[j].facts, AGENT) == [];
        }
      }
    }
  }

  lemma LabelCarried(block: Block, current: Option<bytes>)
    requires AgentLabel(block, current).Ok? && Named(block.facts, AGENT) != []
    ensures AgentLabel(block, current).value.Some? && Carries(block, AgentLabel(block, current).value.value)
  {
    hide Named;
    NamedAreNamed(block.facts, AGENT);
    var labels := Named(block.facts, AGENT);
    assert labels[0] in labels && labels == [labels[0]] && labels[0].terms == [labels[0].terms[0]];
  }

  /** A delegating block is let through with no agent fact, or with one whose only term is a text that is not empty. */
  lemma LabelsLetThrough(block: Block, current: Option<bytes>)
    ensures AgentLabel(block, current).Ok? <==>
              Named(block.facts, AGENT) == [] || exists text :: text != [] && Carries(block, text)
  {
    hide Named;
    if AgentLabel(block, current).Ok? && Named(block.facts, AGENT) != [] {
      LabelCarried(block, current);
    }
  }

  /** An accepted chain names the agent of the last delegating block that carries a label, and none if none does. */
  lemma AgentIsLastLabel(v: Verifier, anchor: Option<bytes>, blocks: seq<Block>)
    requires |blocks| > 0 && Fold(v, anchor, blocks, |blocks|).Ok?
    ensures LastLabel(blocks, |blocks|, Fold(v, anchor, blocks, |blocks|).value.agent)
  {
    FoldNamesLast(v, anchor, blocks, |blocks|);
  }
}
