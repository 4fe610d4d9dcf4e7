/** Text validity against the definition of UTF-8: a run of encoded Unicode scalar values. */
module Utf8 {
  import opened Bytes

  /** A Unicode scalar value: a code point that is not a surrogate. */
  predicate Scalar(c: nat) { c <= 0x10FFFF && !(0xD800 <= c <= 0xDFFF) }

  predicate Tail(x: int) { 0x80 <= x < 0xC0 }

  /** The table of section 3 of RFC 3629: `c` in its shortest form. */
  predicate Encodes(c: nat, e: bytes) {
    match |e|
    case 1 => c < 0x80 && e[0] == c
    case 2 => 0x80 <= c < 0x800 && Tail(e[1]) && c == (e[0] as int - 0xC0) * 0x40 + (e[1] as int - 0x80)
    case 3 => 0x800 <= c < 0x10000 && Tail(e[1]) && Tail(e[2]) &&
              c == (e[0] as int - 0xE0) * 0x1000 + (e[1] as int - 0x80) * 0x40 + (e[2] as int - 0x80)
    case 4 => 0x10000 <= c < 0x110000 && Tail(e[1]) && Tail(e[2]) && Tail(e[3]) &&
              c == (e[0] as int - 0xF0) * 0x40000 + (e[1] as int - 0x80) * 0x1000 +
                   (e[2] as int - 0x80) * 0x40 + (e[3] as int - 0x80)
    case _ => false
  }

  /** The bytes are encoded scalar values, one after another. */
  ghost predicate Spells(points: seq<nat>, b: bytes)
    decreases |points|
  {
    if points == [] then b == []
    else exists n: nat :: 0 < n <= |b| && Scalar(points[0]) && Encodes(points[0], b[..n]) && Spells(points[1..], b[n..])
  }

  /** The bytes of the first character, if the validity check finds one. */
  function FirstLength(b: bytes): (n: nat)
    ensures n <= |b|
  {
    if |b| == 0 then 0 else
    match LeadOf(b[0])
    case None => 0
    case Some(lead) =>
      if lead.more < |b| && (lead.more >= 1 ==> lead.low <= b[1] <= lead.high) &&
         (lead.more >= 2 ==> Tail(b[2])) && (lead.more >= 3 ==> Tail(b[3])) then 1 + lead.more else 0
  }

  lemma FirstIsScalar(b: bytes) returns (c: nat)
    requires FirstLength(b) > 0
    ensures Scalar(c) && Encodes(c, b[..FirstLength(b)])
  {
    var e := b[..FirstLength(b)];
    c := if |e| == 1 then e[0]
         else if |e| == 2 then (e[0] as int - 0xC0) * 0x40 + (e[1] as int - 0x80)
         else if |e| == 3 then (e[0] as int - 0xE0) * 0x1000 + (e[1] as int - 0x80) * 0x40 + (e[2] as int - 0x80)
         else (e[0] as int - 0xF0) * 0x40000 + (e[1] as int - 0x80) * 0x1000 +
              (e[2] as int - 0x80) * 0x40 + (e[3] as int - 0x80);
  }

  lemma ScalarIsFirst(c: nat, b: bytes, n: nat)
    requires 0 < n <= |b| && Scalar(c) && Encodes(c, b[..n])
    ensures FirstLength(b) == n
  {
    var e := b[..n];
    assert forall i | 0 <= i < n :: e[i] == b[i];
  }

  /** Text is valid exactly when it spells a list of Unicode scalar values. */
  lemma {:induction false} ValidIsSpelled(b: bytes)
    ensures IsUtf8(b) <==> exists points: seq<nat> :: Spells(points, b)
    decreases |b|
  {
    hide FirstLength, Encodes;
    var n := FirstLength(b);
    if |b| == 0 {
      assert Spells([], b);
    } else {
      FirstUnfolds(b);
      if n > 0 { ValidIsSpelled(b[n..]); }
      if IsUtf8(b) {
        var c := FirstIsScalar(b);
        var points: seq<nat> :| Spells(points, b[n..]);
        assert ([c] + points)[1..] == points && ([c] + points)[0] == c;
        assert Spells([c] + points, b);
      }
      if points: seq<nat> :| Spells(points, b) {
        var m: nat :| 0 < m <= |b| && Scalar(points[0]) && Encodes(points[0], b[..m]) && Spells(points[1..], b[m..]);
        ScalarIsFirst(points[0], b, m);
        var later: seq<nat> := points[1..];
        assert m == n && Spells(later, b[n..]);
      }
    }
  }

  lemma FirstUnfolds(b: bytes)
    requires |b| > 0
    ensures IsUtf8(b) <==> FirstLength(b) > 0 && IsUtf8(b[FirstLength(b)..])
  {}
}
