/** The provider-plan possession proof: six fields under decimal length prefixes. */
module ProviderPlan {
  import opened Bytes
  import opened Buffers
  import opened Hex
  import opened Digests

  datatype Plan = Plan(
    signingIdentity: Text, streamId: Text, repository: Text, clientEndpointId: Text,
    planNonce: bytes, grantBatchDigest: bytes)

  /** A field's name and the bytes written for it. */
  datatype Field = Field(name: string, value: bytes)

  const COLON: byte := 0x3A

  function Decimal(n: nat): (s: bytes)
    ensures |s| > 0
  {
    if n < 10 then [0x30 + n] else Decimal(n / 10) + [0x30 + n % 10]
  }

  function FromDecimal(s: bytes): int {
    if |s| == 0 then 0 else 10 * FromDecimal(s[..|s| - 1]) + (s[|s| - 1] as int - 0x30)
  }

  lemma {:induction false} DecimalRoundTrip(n: nat)
    ensures FromDecimal(Decimal(n)) == n
    ensures COLON !in Decimal(n)
  {
    if n >= 10 {
      DecimalRoundTrip(n / 10);
      assert Decimal(n)[..|Decimal(n)| - 1] == Decimal(n / 10);
    } else {
      assert Decimal(n)[..0] == [];
    }
  }

  /** `\nname=length:value`, then `rest`. */
  function PutField(f: Field, rest: bytes): bytes {
    PutRaw([0x0A] + Ascii(f.name) + [0x3D], PutRaw(Decimal(|f.value|) + [COLON], PutRaw(f.value, rest)))
  }

  function Fields(p: Plan): seq<Field> {
    [Field("identity", p.signingIdentity), Field("stream_id", p.streamId), Field("repository", p.repository),
     Field("client_endpoint_id", p.clientEndpointId), Field("plan_nonce", HexEncode(p.planNonce)),
     Field("grant_batch_digest", HexEncode(p.grantBatchDigest))]
  }

  const HEADER := "heddle-provider-plan-v1\nkind=11:exact-batch"

  function PlanBytes(p: Plan): bytes { PutRaw(Ascii(HEADER), PutMany(PutField, Fields(p), [])) }

  /** A decimal number ends at the first colon, whatever follows the colon. */
  lemma DecimalPrefixUnique(m: nat, n: nat, a: bytes, b: bytes)
    requires PutRaw(Decimal(m) + [COLON], a) == PutRaw(Decimal(n) + [COLON], b)
    ensures m == n && a == b
  {
    DecimalRoundTrip(m);
    DecimalRoundTrip(n);
    var left, right := Decimal(m) + [COLON] + a, Decimal(n) + [COLON] + b;
    assert left[|Decimal(m)|] == COLON && right[|Decimal(n)|] == COLON;
    assert forall i | 0 <= i < |Decimal(m)| :: left[i] == Decimal(m)[i] != COLON;
    assert forall i | 0 <= i < |Decimal(n)| :: right[i] == Decimal(n)[i] != COLON;
    assert left[..|Decimal(m)|] == Decimal(m) && right[..|Decimal(n)|] == Decimal(n);
    assert left[|Decimal(m)| + 1..] == a && right[|Decimal(n)| + 1..] == b;
  }

  lemma FieldUnique(f: Field, g: Field, r: bytes, s: bytes)
    requires f.name == g.name && PutField(f, r) == PutField(g, s)
    ensures f == g && r == s
  {
    hide Ascii, PutRaw, GetRaw;
    var a, b := PutRaw(f.value, r), PutRaw(g.value, s);
    assert PutRaw(Decimal(|f.value|) + [COLON], a) == PutRaw(Decimal(|g.value|) + [COLON], b);
    DecimalPrefixUnique(|f.value|, |g.value|, a, b);
  }

  lemma {:induction false} FieldsUnique(fs: seq<Field>, gs: seq<Field>)
    requires |fs| == |gs| && forall i | 0 <= i < |fs| :: fs[i].name == gs[i].name
    requires PutMany(PutField, fs, []) == PutMany(PutField, gs, [])
    ensures fs == gs
  {
    hide PutField;
    if |fs| > 0 {
      FieldUnique(fs[0], gs[0], PutMany(PutField, fs[1..], []), PutMany(PutField, gs[1..], []));
      FieldsUnique(fs[1..], gs[1..]);
      assert fs == [fs[0]] + fs[1..] && gs == [gs[0]] + gs[1..];
    }
  }

  /** The signed preimage fixes all six fields, whatever bytes they hold. */
  lemma PlanBytesInjective(p: Plan, q: Plan)
    ensures PlanBytes(p) == PlanBytes(q) <==> p == q
  {
    hide PutMany, PutField, PutRaw, GetRaw, Ascii, HexEncode, IsUtf8;
    if PlanBytes(p) == PlanBytes(q) {
      FieldsUnique(Fields(p), Fields(q));
      assert forall i | 0 <= i < 6 :: Fields(p)[i].value == Fields(q)[i].value;
      HexInjective(p.planNonce, q.planNonce);
      HexInjective(p.grantBatchDigest, q.grantBatchDigest);
    }
  }

  /** The preimage as it is built, field after field. */
  method BuildPlanBytes(p: Plan) returns (output: bytes)
    ensures output == PlanBytes(p)
  {
    hide Ascii, Decimal, HexEncode, IsUtf8, PutRaw;
    var fields := Fields(p);
    var encoder := new Encoder();
    encoder.Raw(Ascii(HEADER));
    label Start:
    for i := 0 to |fields|
      invariant forall rest {:trigger PutMany(PutField, fields, rest)} ::
                  encoder.out + PutMany(PutField, fields[i..], rest)
                  == old@Start(encoder.out) + PutMany(PutField, fields, rest)
    {
      assert fields[i..][1..] == fields[i + 1..];
      encoder.Raw([0x0A] + Ascii(fields[i].name) + [0x3D]);
      encoder.Raw(Decimal(|fields[i].value|) + [COLON]);
      encoder.Raw(fields[i].value);
    }
    assert fields[|fields|..] == [];
    output := encoder.out;
    assert output + [] == output && [] + PlanBytes(p) == PlanBytes(p);
  }
}
