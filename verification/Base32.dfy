/**
  The unpadded lowercase base32 of section 6 of RFC 4648 that CRID v1 uses, and
  the Go decoder it is read back with, which ignores the trailing pad bits.
 */
module Base32 {
  import opened BitStream
  import opened OctetDigits

  const ALPHABET := "abcdefghijklmnopqrstuvwxyz234567"

  /** The alphabet position of a character: strings.IndexByte(alphabet, c) >= 0. */
  predicate InAlphabet(c: char) {
    'a' <= c <= 'z' || '2' <= c <= '7'
  }

  function Digit(c: char): (v: nat)
    requires InAlphabet(c)
    ensures v < 32
  {
    if c >= 'a' then (c - 'a') as nat else 26 + (c - '2') as nat
  }

  function Char(v: nat): (c: char)
    requires v < 32
    ensures InAlphabet(c) && Digit(c) == v
  {
    if v < 26 then 'a' + v as char else '2' + (v - 26) as char
  }

  lemma CharOfDigit(c: char)
    requires InAlphabet(c)
    ensures Char(Digit(c)) == c
  {
  }

  lemma CharIsAlphabet(v: nat)
    requires v < 32
    ensures Char(v) == ALPHABET[v]
  {
  }

  lemma AlphabetExact(c: char)
    ensures InAlphabet(c) <==> c in ALPHABET
  {
    if InAlphabet(c) {
      CharOfDigit(c);
      CharIsAlphabet(Digit(c));
    }
  }

  predicate IsText(t: string) {
    forall i :: 0 <= i < |t| ==> InAlphabet(t[i])
  }

  function Digits(t: string): (vs: seq<nat>)
    requires IsText(t)
    ensures |vs| == |t| && Fits(vs, 5)
    ensures forall i :: 0 <= i < |t| ==> vs[i] == Digit(t[i])
  {
    assert Pow2(5) == 32;
    seq(|t|, i requires 0 <= i < |t| => Digit(t[i]))
  }

  function Chars(vs: seq<nat>): (t: string)
    requires Fits(vs, 5)
    ensures |t| == |vs| && IsText(t) && Digits(t) == vs
  {
    assert Pow2(5) == 32;
    seq(|vs|, i requires 0 <= i < |vs| => Char(vs[i]))
  }

  lemma DigitsDetermineText(s: string, t: string)
    requires IsText(s) && IsText(t) && Digits(s) == Digits(t)
    ensures s == t
  {
    assert |s| == |Digits(s)| == |t|;
    forall i | 0 <= i < |s| ensures s[i] == t[i] {
      assert Digit(s[i]) == Digits(s)[i] == Digits(t)[i] == Digit(t[i]);
    }
  }

  function Encode(octets: seq<byte>): (t: string)
    ensures |t| == DigitCount(|octets|, 5) && IsText(t)
  {
    Chars(ToDigits(octets, 5))
  }

  function TextBits(t: string): (bits: seq<bool>)
    requires IsText(t)
    ensures |bits| == 5 * |t|
  {
    Stream(Digits(t), 5)
  }

  /** What Go's decoder makes of text in the alphabet: trailing bits are ignored. */
  function Decode(t: string): (octets: seq<byte>)
    requires IsText(t)
    ensures |octets| == 5 * |t| / 8
  {
    FromDigits(Digits(t), 5)
  }

  lemma EncodedBits(octets: seq<byte>)
    ensures TextBits(Encode(octets)) == PaddedBits(octets, 5)
  {
    DigitBits(octets, 5);
  }

  lemma DecodedBits(t: string)
    requires IsText(t)
    ensures Stream(Decode(t), 8) == TextBits(t)[..8 * (5 * |t| / 8)]
  {
    OctetDigits.OctetBits(Digits(t), 5);
  }

  /** Decoding inverts encoding on every octet string. */
  lemma DecodeEncode(octets: seq<byte>)
    ensures Decode(Encode(octets)) == octets
  {
    FromTo(octets, 5);
  }

  /** The text survives decoding and encoding exactly when no pad bit is set and no character is idle. */
  lemma EncodeDecode(t: string)
    requires IsText(t)
    ensures Encode(Decode(t)) == t <==> Canonical(Digits(t), 5)
  {
    hide ToDigits, FromDigits, Canonical;
    ToFrom(Digits(t), 5);
    if ToDigits(Decode(t), 5) == Digits(t) {
      DigitsDetermineText(Encode(Decode(t)), t);
    }
  }
}
