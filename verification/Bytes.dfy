/** Byte strings, fixed-width integers and the two directions of every primitive field.

    A writer `PutX(v, rest)` is the encoding of `v` followed by `rest`; a reader `GetX(b)`
    splits a value off the front of `b`.  Each writer's postcondition says that its reader
    undoes it, and each reader's postcondition says which bytes it consumed, so round trips of
    composite formats follow field by field.
 */
module Bytes {

  type byte = b: int | 0 <= b < 0x100
  type bytes = seq<byte>
  type u16 = n: int | 0 <= n < 0x1_0000
  type u32 = n: int | 0 <= n < 0x1_0000_0000
  type u64 = n: int | 0 <= n < 0x1_0000_0000_0000_0000
  type i32 = n: int | -0x8000_0000 <= n < 0x8000_0000
  type i64 = n: int | -0x8000_0000_0000_0000 <= n < 0x8000_0000_0000_0000
  type Array16 = b: bytes | |b| == 16 witness seq(16, _ => 0)
  type Array32 = b: bytes | |b| == 32 witness seq(32, _ => 0)

  datatype Option<+T> = None | Some(value: T) {
    predicate IsFailure() { None? }
    function PropagateFailure<U>(): Option<U> requires None? { None }
    function Extract(): T requires Some? { value }
  }

  /** The outcome of an operation that may refuse; which error it reports is not modelled. */
  datatype Result<+T> = Ok(value: T) | Err {
    predicate IsFailure() { Err? }
    function PropagateFailure<U>(): Result<U> requires Err? { Err }
    function Extract(): T requires Ok? { value }
  }

  /** An access right: a kind of resource, its path, and what may be done there. */
  datatype Right<+S> = Right(kind: S, path: S, action: S)

  /** A value read off the front of some bytes, and what follows it. */
  datatype Split<+T> = Split(value: T, rest: bytes)

  // ----- big-endian integers -----

  function Pow256(k: nat): (p: nat)
    ensures p > 0
  {
    if k == 0 then 1 else 256 * Pow256(k - 1)
  }

  function ToBE(k: nat, n: nat): (b: bytes)
    ensures |b| == k
    decreases k, n
  {
    if k == 0 then [] else ToBE(k - 1, n / 256) + [n % 256]
  }

  function FromBE(b: bytes): nat {
    if |b| == 0 then 0 else 256 * FromBE(b[..|b| - 1]) + b[|b| - 1]
  }

  lemma {:induction false} FromToBE(k: nat, n: nat)
    requires n < Pow256(k)
    ensures FromBE(ToBE(k, n)) == n
    decreases k
  {
    if k > 0 {
      FromToBE(k - 1, n / 256);
      assert ToBE(k, n)[..k - 1] == ToBE(k - 1, n / 256);
    }
  }

  lemma {:induction false} ToFromBE(b: bytes)
    ensures FromBE(b) < Pow256(|b|)
    ensures ToBE(|b|, FromBE(b)) == b
    decreases |b|
  {
    if |b| > 0 {
      ToFromBE(b[..|b| - 1]);
    }
  }

  // ----- primitive fields -----

  /** The first `count` bytes, when there are that many. */
  function GetRaw(count: nat, b: bytes): Option<Split<bytes>> {
    if count <= |b| then Some(Split(b[..count], b[count..])) else None
  }

  function PutRaw(v: bytes, rest: bytes): (b: bytes)
    ensures GetRaw(|v|, b) == Some(Split(v, rest))
  {
    v + rest
  }

  function GetInt(width: nat, b: bytes): (r: Option<Split<nat>>)
    ensures r.Some? ==> r.value.value < Pow256(width)
  {
    if width <= |b| then
      ToFromBE(b[..width]);
      Some(Split(FromBE(b[..width]), b[width..]))
    else
      None
  }

  function PutInt(width: nat, n: nat, rest: bytes): (b: bytes)
    requires n < Pow256(width)
    ensures GetInt(width, b) == Some(Split(n, rest))
  {
    FromToBE(width, n);
    var b := ToBE(width, n) + rest;
    assert b[..width] == ToBE(width, n) && b[width..] == rest;
    b
  }

  /** What an integer field reads, it writes back. */
  lemma PutGetInt(width: nat, b: bytes)
    ensures GetInt(width, b).Some? ==> PutInt(width, GetInt(width, b).value.value, GetInt(width, b).value.rest) == b
  {
    if width <= |b| {
      ToFromBE(b[..width]);
    }
  }

  lemma Widths()
    ensures Pow256(2) == 0x1_0000
    ensures Pow256(4) == 0x1_0000_0000
    ensures Pow256(8) == 0x1_0000_0000_0000_0000
  {}

  function GetArray16(b: bytes): Option<Split<Array16>> {
    var Split(v, rest) :- GetRaw(16, b);
    Some(Split(v, rest))
  }

  function GetArray32(b: bytes): Option<Split<Array32>> {
    var Split(v, rest) :- GetRaw(32, b);
    Some(Split(v, rest))
  }

  function GetU8(b: bytes): Option<Split<byte>> {
    if |b| >= 1 then Some(Split(b[0], b[1..])) else None
  }

  function PutU8(n: byte, rest: bytes): (b: bytes)
    ensures GetU8(b) == Some(Split(n, rest))
  {
    [n] + rest
  }

  function GetU16(b: bytes): Option<Split<u16>> {
    Widths();
    var Split(n, rest) :- GetInt(2, b);
    Some(Split(n, rest))
  }

  function PutU16(n: u16, rest: bytes): (b: bytes)
    ensures GetU16(b) == Some(Split(n, rest))
  {
    Widths();
    PutInt(2, n, rest)
  }

  function GetU32(b: bytes): Option<Split<u32>> {
    Widths();
    var Split(n, rest) :- GetInt(4, b);
    Some(Split(n, rest))
  }

  function PutU32(n: u32, rest: bytes): (b: bytes)
    ensures GetU32(b) == Some(Split(n, rest))
  {
    Widths();
    PutInt(4, n, rest)
  }

  function GetU64(b: bytes): Option<Split<u64>> {
    Widths();
    var Split(n, rest) :- GetInt(8, b);
    Some(Split(n, rest))
  }

  function PutU64(n: u64, rest: bytes): (b: bytes)
    ensures GetU64(b) == Some(Split(n, rest))
  {
    Widths();
    PutInt(8, n, rest)
  }

  /** Two's-complement big-endian, as `to_be_bytes` writes a signed integer. */
  function PutI64(v: i64, rest: bytes): (b: bytes)
    ensures GetI64(b) == Some(Split(v, rest))
  {
    PutU64(if v < 0 then v + 0x1_0000_0000_0000_0000 else v, rest)
  }

  function GetI64(b: bytes): Option<Split<i64>> {
    var Split(n, rest) :- GetU64(b);
    Some(Split(if n >= 0x8000_0000_0000_0000 then n - 0x1_0000_0000_0000_0000 else n, rest))
  }

  function PutI32(v: i32, rest: bytes): (b: bytes)
    ensures GetI32(b) == Some(Split(v, rest))
  {
    PutU32(if v < 0 then v + 0x1_0000_0000 else v, rest)
  }

  function GetI32(b: bytes): Option<Split<i32>> {
    var Split(n, rest) :- GetU32(b);
    Some(Split(if n >= 0x8000_0000 then n - 0x1_0000_0000 else n, rest))
  }

  function PutBool(v: bool, rest: bytes): (b: bytes)
    ensures GetU8(b) == Some(Split(if v then 1 else 0, rest))
  {
    PutU8(if v then 1 else 0, rest)
  }

  // ----- text -----

  /** How many continuation bytes a lead byte announces, with the range of the first of them. */
  datatype Lead = Lead(more: nat, low: byte, high: byte)

  function LeadOf(b: byte): Option<Lead> {
    if b < 0x80 then Some(Lead(0, 0x80, 0xBF))
    else if 0xC2 <= b < 0xE0 then Some(Lead(1, 0x80, 0xBF))
    else if b == 0xE0 then Some(Lead(2, 0xA0, 0xBF))
    else if b == 0xED then Some(Lead(2, 0x80, 0x9F))
    else if 0xE1 <= b < 0xF0 then Some(Lead(2, 0x80, 0xBF))
    else if b == 0xF0 then Some(Lead(3, 0x90, 0xBF))
    else if 0xF1 <= b < 0xF4 then Some(Lead(3, 0x80, 0xBF))
    else if b == 0xF4 then Some(Lead(3, 0x80, 0x8F))
    else None
  }

  /** Well-formed UTF-8 (section 4 of RFC 3629): no overlong form, no surrogate, at most U+10FFFF. */
  predicate IsUtf8(b: bytes) {
    |b| == 0 ||
    match LeadOf(b[0])
    case None => false
    case Some(lead) =>
      lead.more < |b| &&
      (lead.more >= 1 ==> lead.low <= b[1] <= lead.high) &&
      (lead.more >= 2 ==> 0x80 <= b[2] <= 0xBF) &&
      (lead.more >= 3 ==> 0x80 <= b[3] <= 0xBF) &&
      IsUtf8(b[1 + lead.more..])
  }

  /** A Rust `String`: its bytes, which are always well-formed UTF-8. */
  type Text = b: bytes | IsUtf8(b)

  const MAX_U16: nat := 0xFFFF
  const MAX_U32: nat := 0xFFFF_FFFF

  /** A length as a field of the layout.  Encoders refuse a length that does not fit its field. */
  function Low16(n: nat): u16 { if n <= MAX_U16 then n else 0 }

  function Low32(n: nat): u32 { if n <= MAX_U32 then n else 0 }

  /** A string under a two-byte length.  The length written is exact whenever it fits. */
  function PutText(t: Text, rest: bytes): (b: bytes)
    ensures |t| <= MAX_U16 ==> GetText(b) == Some(Split(t, rest))
  {
    PutU16(Low16(|t|), PutRaw(t, rest))
  }

  function GetText(b: bytes): Option<Split<Text>> { GetTextUpTo(MAX_U16, b) }

  /** A length-prefixed string whose announced length may not exceed `limit`. */
  function GetTextUpTo(limit: nat, b: bytes): Option<Split<Text>> {
    var Split(length, afterLength) :- GetU16(b);
    if length > limit then None else
    var Split(raw, rest) :- GetRaw(length, afterLength);
    if IsUtf8(raw) then Some(Split(raw, rest)) else None
  }

  lemma TextUpTo(limit: nat, t: Text, rest: bytes)
    requires |t| <= MAX_U16
    ensures GetTextUpTo(limit, PutText(t, rest)) == if |t| <= limit then Some(Split(t, rest)) else None
  {}

  predicate Fits(b: bytes) { |b| <= MAX_U32 }

  /** Bytes under a four-byte length. */
  function PutBlob(v: bytes, rest: bytes): (b: bytes)
    ensures Fits(v) ==> GetBlob(b) == Some(Split(v, rest))
  {
    PutU32(Low32(|v|), PutRaw(v, rest))
  }

  function GetBlob(b: bytes): Option<Split<bytes>> {
    var Split(length, afterLength) :- GetU32(b);
    GetRaw(length, afterLength)
  }

  // ----- what the primitives share -----

  /** Whatever a primitive reader accepts, its writer writes back. */
  lemma PrimitivesWriteBack(b: bytes)
    ensures GetU8(b).Some? ==> PutU8(GetU8(b).value.value, GetU8(b).value.rest) == b
    ensures GetU16(b).Some? ==> PutU16(GetU16(b).value.value, GetU16(b).value.rest) == b
    ensures GetI64(b).Some? ==> PutI64(GetI64(b).value.value, GetI64(b).value.rest) == b
  {
    PutGetInt(2, b);
    PutGetInt(8, b);
  }

  lemma RawWritesBack(count: nat, b: bytes)
    ensures GetRaw(count, b).Some? ==>
              |GetRaw(count, b).value.value| == count &&
              PutRaw(GetRaw(count, b).value.value, GetRaw(count, b).value.rest) == b
  {}

  lemma TextWritesBack(limit: nat, b: bytes)
    ensures var r := GetTextUpTo(limit, b);
            r.Some? ==>
              |r.value.value| <= limit && |r.value.value| <= MAX_U16 && PutText(r.value.value, r.value.rest) == b
  {
    hide PutU16, GetU16, PutRaw, GetRaw, IsUtf8;
    PrimitivesWriteBack(b);
    if GetU16(b).Some? {
      RawWritesBack(GetU16(b).value.value, GetU16(b).value.rest);
    }
  }

  /** No primitive looks at what follows it. */
  lemma PrimitivesExtend()
    ensures forall v, rest, more {:trigger PutRaw(v, rest) + more} :: PutRaw(v, rest) + more == PutRaw(v, rest + more)
    ensures forall n, rest, more {:trigger PutU8(n, rest) + more} :: PutU8(n, rest) + more == PutU8(n, rest + more)
    ensures forall n, rest, more {:trigger PutU16(n, rest) + more} :: PutU16(n, rest) + more == PutU16(n, rest + more)
    ensures forall n, rest, more {:trigger PutU32(n, rest) + more} :: PutU32(n, rest) + more == PutU32(n, rest + more)
    ensures forall n, rest, more {:trigger PutU64(n, rest) + more} :: PutU64(n, rest) + more == PutU64(n, rest + more)
    ensures forall t, rest, more {:trigger PutText(t, rest) + more} ::
              PutText(t, rest) + more == PutText(t, rest + more)
  {
    forall width: nat, n: nat, rest: bytes, more: bytes | n < Pow256(width)
      ensures PutInt(width, n, rest) + more == PutInt(width, n, rest + more)
    {
      assert (ToBE(width, n) + rest) + more == ToBE(width, n) + (rest + more);
    }
    Widths();
  }

  // ----- repeated fields -----

  function PutMany<T>(put: (T, bytes) -> bytes, xs: seq<T>, rest: bytes): bytes {
    if |xs| == 0 then rest else put(xs[0], PutMany(put, xs[1..], rest))
  }

  function GetMany<T>(get: bytes -> Option<Split<T>>, count: nat, b: bytes): (r: Option<Split<seq<T>>>)
    ensures r.Some? ==> |r.value.value| == count
  {
    if count == 0 then Some(Split([], b))
    else
      var Split(x, afterX) :- get(b);
      var Split(xs, rest) :- GetMany(get, count - 1, afterX);
      Some(Split([x] + xs, rest))
  }

  /** `get` undoes `put` on every element of `xs`. */
  ghost predicate ReadsBack<T(!new)>(put: (T, bytes) -> bytes, get: bytes -> Option<Split<T>>, xs: seq<T>) {
    forall x, rest | x in xs :: get(put(x, rest)) == Some(Split(x, rest))
  }

  lemma {:induction false} GetPutMany<T(!new)>(
    put: (T, bytes) -> bytes, get: bytes -> Option<Split<T>>, xs: seq<T>, rest: bytes)
    requires ReadsBack(put, get, xs)
    ensures GetMany(get, |xs|, PutMany(put, xs, rest)) == Some(Split(xs, rest))
  {
    if |xs| > 0 {
      assert xs == [xs[0]] + xs[1..];
      GetPutMany(put, get, xs[1..], rest);
    }
  }

  /** Whatever `get` reads, `put` writes back. */
  ghost predicate WritesBack<T>(put: (T, bytes) -> bytes, get: bytes -> Option<Split<T>>) {
    forall b :: get(b).Some? ==> put(get(b).value.value, get(b).value.rest) == b
  }

  lemma {:induction false} PutGetMany<T>(
    put: (T, bytes) -> bytes, get: bytes -> Option<Split<T>>, count: nat, b: bytes)
    requires WritesBack(put, get)
    ensures var r := GetMany(get, count, b);
            r.Some? ==> PutMany(put, r.value.value, r.value.rest) == b
  {
    if count > 0 && GetMany(get, count, b).Some? {
      var first := get(b).value;
      PutGetMany(put, get, count - 1, first.rest);
      var xs := GetMany(get, count, b).value.value;
      assert xs[1..] == GetMany(get, count - 1, first.rest).value.value;
    }
  }

  /** Encodings of values satisfying `ok`, followed by anything, agree only when the values do. */
  ghost predicate InjectiveOn<T(!new)>(put: (T, bytes) -> bytes, ok: T -> bool) {
    forall x, y, r, s {:trigger put(x, r), put(y, s)} ::
      ok(x) && ok(y) && put(x, r) == put(y, s) ==> x == y && r == s
  }

  lemma {:induction false} PutManyInjective<T(!new)>(
    put: (T, bytes) -> bytes, ok: T -> bool, xs: seq<T>, ys: seq<T>, r: bytes, s: bytes)
    requires InjectiveOn(put, ok) && |xs| == |ys|
    requires (forall x | x in xs :: ok(x)) && (forall y | y in ys :: ok(y))
    requires PutMany(put, xs, r) == PutMany(put, ys, s)
    ensures xs == ys && r == s
  {
    if |xs| > 0 {
      PutManyInjective(put, ok, xs[1..], ys[1..], r, s);
      assert xs == [xs[0]] + xs[1..] && ys == [ys[0]] + ys[1..];
    }
  }

  /** What follows an encoding can be extended: the encoder never looks at it. */
  ghost predicate Extends<T(!new)>(put: (T, bytes) -> bytes) {
    forall x, rest, more {:trigger put(x, rest) + more} :: put(x, rest) + more == put(x, rest + more)
  }

  lemma {:induction false} PutManyExtends<T(!new)>(put: (T, bytes) -> bytes, xs: seq<T>, rest: bytes, more: bytes)
    requires Extends(put)
    ensures PutMany(put, xs, rest) + more == PutMany(put, xs, rest + more)
  {
    if |xs| > 0 {
      PutManyExtends(put, xs[1..], rest, more);
    }
  }
}
