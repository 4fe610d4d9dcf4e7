/** Lower-case hexadecimal text, and its decoder, which takes either case. */
module Hex {
  import opened Bytes

  function Digit(n: nat): byte
    requires n < 16
  {
    if n < 10 then 0x30 + n else 0x57 + n
  }

  function Nibble(c: byte): Option<nat> {
    if 0x30 <= c <= 0x39 then Some(c - 0x30)
    else if 0x61 <= c <= 0x66 then Some(c - 0x57)
    else if 0x41 <= c <= 0x46 then Some(c - 0x37)
    else None
  }

  function HexEncode(b: bytes): (s: bytes)
    ensures |s| == 2 * |b|
  {
    if |b| == 0 then [] else [Digit(b[0] / 16), Digit(b[0] % 16)] + HexEncode(b[1..])
  }

  function HexDecode(s: bytes): Option<bytes> {
    if |s| == 0 then Some([])
    else if |s| == 1 then None
    else
      var high :- Nibble(s[0]);
      var low :- Nibble(s[1]);
      var tail :- HexDecode(s[2..]);
      if high < 16 && low < 16 then Some([16 * high + low] + tail) else None
  }

  lemma {:induction false} HexRoundTrip(b: bytes)
    ensures HexDecode(HexEncode(b)) == Some(b)
  {
    if |b| > 0 {
      HexRoundTrip(b[1..]);
      assert HexEncode(b)[2..] == HexEncode(b[1..]);
      assert b == [b[0]] + b[1..];
    }
  }

  lemma HexInjective(a: bytes, b: bytes)
    requires HexEncode(a) == HexEncode(b)
    ensures a == b
  {
    HexRoundTrip(a);
    HexRoundTrip(b);
  }

  lemma {:induction false} DecodedLength(s: bytes)
    ensures HexDecode(s).Some? ==> |s| == 2 * |HexDecode(s).value|
  {
    if |s| >= 2 {
      DecodedLength(s[2..]);
    }
  }
}
