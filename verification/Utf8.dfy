/** UTF-8 as Go's `unicode/utf8` reads and writes it (RFC 3629, section 4). */
module Utf8 {
  /** A byte of text, 0 to 255, and a code point. */
  type Byte = b: int | 0 <= b < 256
  type Bytes = seq<Byte>
  type Rune = int

  const RUNE_ERROR: Rune := 0xFFFD

  /** The Unicode scalar values: no surrogates, nothing above U+10FFFF. */
  predicate IsScalar(r: Rune) {
    0 <= r < 0xD800 || 0xE000 <= r <= 0x10FFFF
  }

  predicate IsContinuation(b: Byte) { 0x80 <= b < 0xC0 }

  /** Bounds of the second byte, which exclude overlong forms and surrogates. */
  predicate SecondOk(lead: Byte, b: Byte) {
    && IsContinuation(b)
    && (lead == 0xE0 ==> 0xA0 <= b) && (lead == 0xED ==> b < 0xA0)
    && (lead == 0xF0 ==> 0x90 <= b) && (lead == 0xF4 ==> b < 0x90)
  }

  datatype Decoded = Decoded(rune: Rune, size: int)

  const INVALID := Decoded(RUNE_ERROR, 1)

  /** The six payload bits of a continuation byte. */
  function Low(b: int): int { b - 0x80 }

  /** `utf8.DecodeRuneInString` of a non-empty string. */
  function Decode(s: Bytes): (d: Decoded)
    requires s != []
    ensures 1 <= d.size <= |s|
    ensures IsScalar(d.rune)
  {
    var lead: int := s[0];
    if lead < 0x80 then Decoded(lead, 1)
    else if 0xC2 <= lead < 0xE0 && |s| >= 2 && SecondOk(lead, s[1]) then
      Decoded((lead - 0xC0) * 0x40 + Low(s[1]), 2)
    else if 0xE0 <= lead < 0xF0 && |s| >= 3 && SecondOk(lead, s[1]) && IsContinuation(s[2]) then
      Decoded((lead - 0xE0) * 0x1000 + Low(s[1]) * 0x40 + Low(s[2]), 3)
    else if 0xF0 <= lead < 0xF5 && |s| >= 4 && SecondOk(lead, s[1]) && IsContinuation(s[2]) && IsContinuation(s[3]) then
      Decoded((lead - 0xF0) * 0x40000 + Low(s[1]) * 0x1000 + Low(s[2]) * 0x40 + Low(s[3]), 4)
    else INVALID
  }

  /** `utf8.EncodeRune`. */
  function Encode(r: Rune): (s: Bytes)
    requires IsScalar(r)
    ensures 1 <= |s| <= 4
    ensures r < 0x80 ==> s == [r]
    ensures r >= 0x80 ==> s[|s| - 1] >= 0x80
  {
    if r < 0x80 then [r]
    else if r < 0x800 then [0xC0 + r / 0x40, 0x80 + r % 0x40]
    else if r < 0x10000 then [0xE0 + r / 0x1000, 0x80 + r / 0x40 % 0x40, 0x80 + r % 0x40]
    else [0xF0 + r / 0x40000, 0x80 + r / 0x1000 % 0x40, 0x80 + r / 0x40 % 0x40, 0x80 + r % 0x40]
  }

  lemma DecodeEncode(r: Rune, rest: Bytes)
    requires IsScalar(r)
    ensures Decode(Encode(r) + rest) == Decoded(r, |Encode(r)|)
    ensures (Encode(r) + rest)[|Encode(r)|..] == rest
  {
    var s := Encode(r) + rest;
    if 0x80 <= r < 0x800 {
      assert s[0] == 0xC0 + r / 0x40 && s[1] == 0x80 + r % 0x40;
    } else if 0x800 <= r < 0x10000 {
      assert s[0] == 0xE0 + r / 0x1000 && s[1] == 0x80 + r / 0x40 % 0x40 && s[2] == 0x80 + r % 0x40;
      ThreeDigits(r);
    } else if 0x10000 <= r {
      assert s[0] == 0xF0 + r / 0x40000 && s[1] == 0x80 + r / 0x1000 % 0x40
          && s[2] == 0x80 + r / 0x40 % 0x40 && s[3] == 0x80 + r % 0x40;
      FourDigits(r);
    }
  }

  lemma ThreeDigits(r: int)
    requires 0x800 <= r < 0x10000
    ensures r == r / 0x1000 * 0x1000 + r / 0x40 % 0x40 * 0x40 + r % 0x40
    ensures r / 0x1000 == 0 ==> r / 0x40 % 0x40 >= 0x20
    ensures r / 0x1000 == 0xD && IsScalar(r) ==> r / 0x40 % 0x40 < 0x20
  {
  }

  lemma FourDigits(r: int)
    requires 0x10000 <= r <= 0x10FFFF
    ensures r == r / 0x40000 * 0x40000 + r / 0x1000 % 0x40 * 0x1000 + r / 0x40 % 0x40 * 0x40 + r % 0x40
    ensures r / 0x40000 == 0 ==> r / 0x1000 % 0x40 >= 0x10
    ensures r / 0x40000 == 4 ==> r / 0x1000 % 0x40 < 0x10
  {
    assert r / 0x1000 == r / 0x40 / 0x40 && r / 0x40000 == r / 0x1000 / 0x40;
  }

  // ----- whole texts ---------------------------------------------------------

  predicate AllScalar(runes: seq<Rune>) {
    forall i :: 0 <= i < |runes| ==> IsScalar(runes[i])
  }

  function EncodeAll(runes: seq<Rune>): Bytes
    requires AllScalar(runes)
  {
    if runes == [] then [] else Encode(runes[0]) + EncodeAll(runes[1..])
  }

  /** `[]rune(s)`. */
  function DecodeAll(s: Bytes): (runes: seq<Rune>)
    ensures AllScalar(runes)
  {
    if s == [] then [] else [Decode(s).rune] + DecodeAll(s[Decode(s).size..])
  }

  lemma {:induction false} EncodeAllConcat(a: seq<Rune>, b: seq<Rune>)
    requires AllScalar(a) && AllScalar(b)
    ensures EncodeAll(a + b) == EncodeAll(a) + EncodeAll(b)
  {
    if a == [] {
      assert a + b == b;
    } else {
      EncodeAllConcat(a[1..], b);
      assert (a + b)[1..] == a[1..] + b;
      assert Encode(a[0]) + (EncodeAll(a[1..]) + EncodeAll(b)) == (Encode(a[0]) + EncodeAll(a[1..])) + EncodeAll(b);
    }
  }

  /** Text written rune by rune reads back rune by rune. */
  lemma {:induction false} DecodeEncodeAll(runes: seq<Rune>)
    requires AllScalar(runes)
    ensures DecodeAll(EncodeAll(runes)) == runes
  {
    if runes != [] {
      hide Decode, Encode;
      DecodeEncode(runes[0], EncodeAll(runes[1..]));
      DecodeEncodeAll(runes[1..]);
    }
  }

  /** The section sign, the euro sign and an emoji in two, three and four bytes; overlong
      forms, surrogates, stray and missing continuation bytes are no text. */
  lemma KnownEncodings(rest: Bytes)
    ensures Encode(0xa7) == [0xc2, 0xa7] && Encode(0x20ac) == [0xe2, 0x82, 0xac]
    ensures Encode(0x1f600) == [0xf0, 0x9f, 0x98, 0x80]
    ensures Decode([0xc0, 0x80] + rest) == INVALID && Decode([0xe0, 0x9f, 0x80] + rest) == INVALID
    ensures Decode([0xed, 0xa0, 0x80] + rest) == INVALID && Decode([0xf4, 0x90, 0x80, 0x80] + rest) == INVALID
    ensures Decode([0x80] + rest) == INVALID && Decode([0xc2]) == INVALID && Decode([0xe2, 0x82]) == INVALID
    ensures INVALID == Decoded(0xfffd, 1)
  {
  }
}
