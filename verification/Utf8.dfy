/** UTF-8 (RFC 3629): each scalar value as one to four bytes. */
module Utf8 {

  type Byte = b: int | 0 <= b < 256

  function EncodeChar(c: char): (bs: seq<Byte>)
    ensures 1 <= |bs| <= 4
  {
    var n := c as int;
    if n < 0x80 then [n]
    else if n < 0x800 then [0xC0 + n / 0x40, 0x80 + n % 0x40]
    else if n < 0x1_0000 then [0xE0 + n / 0x1000, 0x80 + n / 0x40 % 0x40, 0x80 + n % 0x40]
    else [0xF0 + n / 0x4_0000, 0x80 + n / 0x1000 % 0x40, 0x80 + n / 0x40 % 0x40, 0x80 + n % 0x40]
  }

  function Encode(s: string): seq<Byte> {
    if s == [] then [] else EncodeChar(s[0]) + Encode(s[1..])
  }

  predicate Continues(bs: seq<Byte>, n: nat) {
    |bs| > n && forall i :: 1 <= i <= n ==> 0x80 <= bs[i] < 0xC0
  }

  predicate IsScalar(n: int) {
    0 <= n < 0xD800 || 0xE000 <= n < 0x11_0000
  }

  datatype Head = Malformed | Head(c: char, size: nat)

  /** The character at the start of `bs`, rejecting overlong forms, surrogates and values past 10FFFF. */
  function DecodeHead(bs: seq<Byte>): (h: Head)
    requires bs != []
    ensures h.Head? ==> 1 <= h.size <= |bs|
  {
    var b: int := bs[0];
    if b < 0x80 then Head(b as char, 1)
    else if 0xC0 <= b < 0xE0 && Continues(bs, 1) then Checked((b - 0xC0) * 0x40 + Low(bs[1]), 0x80, 2)
    else if 0xE0 <= b < 0xF0 && Continues(bs, 2) then
      Checked((b - 0xE0) * 0x1000 + Low(bs[1]) * 0x40 + Low(bs[2]), 0x800, 3)
    else if 0xF0 <= b < 0xF8 && Continues(bs, 3) then
      Checked((b - 0xF0) * 0x4_0000 + Low(bs[1]) * 0x1000 + Low(bs[2]) * 0x40 + Low(bs[3]), 0x1_0000, 4)
    else Malformed
  }

  /** The six bits of a continuation byte. */
  function Low(b: Byte): int {
    b as int - 0x80
  }

  function Checked(n: int, least: int, size: nat): (h: Head)
    ensures h.Head? ==> h.size == size
  {
    if n >= least && IsScalar(n) then Head(n as char, size) else Malformed
  }

  const REPLACEMENT := '\U{FFFD}'

  /** A malformed byte becomes a replacement character. */
  function Decode(bs: seq<Byte>): string {
    if bs == [] then []
    else
      var h := DecodeHead(bs);
      if h.Head? then [h.c] + Decode(bs[h.size..]) else [REPLACEMENT] + Decode(bs[1..])
  }

  lemma SixBitGroups(n: nat)
    ensures n == n / 0x40 * 0x40 + n % 0x40
    ensures n == n / 0x1000 * 0x1000 + n / 0x40 % 0x40 * 0x40 + n % 0x40
    ensures n == n / 0x4_0000 * 0x4_0000 + n / 0x1000 % 0x40 * 0x1000 + n / 0x40 % 0x40 * 0x40 + n % 0x40
  {
    assert n / 0x40 / 0x40 == n / 0x1000 && n / 0x1000 / 0x40 == n / 0x4_0000;
  }

  lemma DecodeEncodedHead(c: char, rest: seq<Byte>)
    ensures DecodeHead(EncodeChar(c) + rest) == Head(c, |EncodeChar(c)|)
  {
    var n, code, bs := c as int, EncodeChar(c), EncodeChar(c) + rest;
    assert forall i :: 0 <= i < |code| ==> bs[i] == code[i];
    SixBitGroups(n);
    assert IsScalar(n) && n as char == c;
  }

  lemma TwoGroups(n: int, a: int, b: int)
    requires n == a * 0x40 + b && 0 <= b < 0x40 && 0 <= a
    ensures n / 0x40 == a && n % 0x40 == b
  {
  }

  lemma ThreeGroups(n: int, a: int, b: int, c: int)
    requires n == a * 0x1000 + b * 0x40 + c && 0 <= a && 0 <= b < 0x40 && 0 <= c < 0x40
    ensures n / 0x1000 == a && n / 0x40 % 0x40 == b && n % 0x40 == c
  {
    TwoGroups(n, a * 0x40 + b, c);
    TwoGroups(n / 0x40, a, b);
    assert n / 0x40 / 0x40 == n / 0x1000;
  }

  lemma FourGroups(n: int, a: int, b: int, c: int, d: int)
    requires n == a * 0x4_0000 + b * 0x1000 + c * 0x40 + d && 0 <= a && 0 <= b < 0x40 && 0 <= c < 0x40 && 0 <= d < 0x40
    ensures n / 0x4_0000 == a && n / 0x1000 % 0x40 == b && n / 0x40 % 0x40 == c && n % 0x40 == d
  {
    TwoGroups(n, a * 0x1000 + b * 0x40 + c, d);
    ThreeGroups(n / 0x40, a, b, c);
    assert n / 0x40 / 0x1000 == n / 0x4_0000 && n / 0x40 / 0x40 == n / 0x1000;
  }

  /** What is decoded is what was encoded: every byte sequence that is no encoding is rejected. */
  lemma DecodedHeadIsEncoded(bs: seq<Byte>)
    requires bs != [] && DecodeHead(bs).Head?
    ensures var h := DecodeHead(bs); h.size == |EncodeChar(h.c)| && bs[..h.size] == EncodeChar(h.c)
  {
    var h := DecodeHead(bs);
    var n := h.c as int;
    if h.size == 2 {
      TwoGroups(n, bs[0] as int - 0xC0, Low(bs[1]));
    } else if h.size == 3 {
      ThreeGroups(n, bs[0] as int - 0xE0, Low(bs[1]), Low(bs[2]));
    } else if h.size == 4 {
      FourGroups(n, bs[0] as int - 0xF0, Low(bs[1]), Low(bs[2]), Low(bs[3]));
    }
  }

  /** Every string survives the codec. */
  lemma {:induction false} DecodeEncode(s: string)
    ensures Decode(Encode(s)) == s
  {
    if s != [] {
      var head, rest := EncodeChar(s[0]), Encode(s[1..]);
      DecodeEncodedHead(s[0], rest);
      assert (head + rest)[|head|..] == rest;
      DecodeEncode(s[1..]);
    }
  }
}
