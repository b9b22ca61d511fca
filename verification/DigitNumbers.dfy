/**
  Digits as numbers: octets, base32 and base64 spell one number, the text with its
  pad bits behind it.
 */
module DigitNumbers {
  import opened BitStream
  import opened OctetDigits
  import BigEndian
  import Base32
  import Base64
  import Hexadecimal

  /** The number that digits of any base spell, the first one highest. */
  function Spelt(digits: seq<nat>, base: nat): nat {
    if digits == [] then 0 else Spelt(digits[..|digits| - 1], base) * base + digits[|digits| - 1]
  }

  function Bit(b: bool): nat {
    if b then 1 else 0
  }

  // ----- bit strings

  lemma NoBits()
    ensures Pow2(0) == 1
  {
  }

  lemma NextOctet(n: nat)
    ensures Pow2(n + 8) == 256 * Pow2(n)
  {
    assert Pow2(n + 2) == 4 * Pow2(n);
    assert Pow2(n + 4) == 4 * Pow2(n + 2);
    assert Pow2(n + 6) == 4 * Pow2(n + 4);
  }

  lemma Doubled(a: nat, p: nat)
    ensures a * (2 * p) == 2 * (a * p)
  {
  }

  lemma ValueSnoc(bits: seq<bool>, b: bool)
    ensures ValueOf(bits + [b]) == 2 * ValueOf(bits) + Bit(b)
  {
    assert (bits + [b])[..|bits|] == bits;
  }

  lemma {:induction false} ValueAppend(bits: seq<bool>, v: nat, w: nat)
    requires v < Pow2(w)
    ensures ValueOf(bits + BitsOf(v, w)) == ValueOf(bits) * Pow2(w) + v
    decreases w
  {
    hide ValueOf;
    if w == 0 {
      assert bits + BitsOf(v, w) == bits;
    } else {
      ValueAppend(bits, v / 2, w - 1);
      assert bits + BitsOf(v, w) == bits + BitsOf(v / 2, w - 1) + [v % 2 == 1];
      ValueSnoc(bits + BitsOf(v / 2, w - 1), v % 2 == 1);
      Doubled(ValueOf(bits), Pow2(w - 1));
      hide BitsOf;
    }
  }

  lemma {:induction false} ValuePadded(bits: seq<bool>, n: nat)
    ensures ValueOf(bits + Zeros(n)) == ValueOf(bits) * Pow2(n)
    decreases n
  {
    hide ValueOf;
    if n == 0 {
      assert bits + Zeros(n) == bits;
    } else {
      ValuePadded(bits, n - 1);
      assert bits + Zeros(n) == bits + Zeros(n - 1) + [false];
      ValueSnoc(bits + Zeros(n - 1), false);
      Doubled(ValueOf(bits), Pow2(n - 1));
    }
  }

  lemma StreamSnoc(digits: seq<nat>, v: nat, w: nat)
    ensures Stream(digits + [v], w) == Stream(digits, w) + BitsOf(v, w)
  {
    StreamConcat(digits, [v], w);
    StreamOne(v, w);
    hide Stream, BitsOf;
  }

  lemma StreamOne(v: nat, w: nat)
    ensures Stream([v], w) == BitsOf(v, w)
  {
    assert [v][1..] == [];
  }

  // ----- digits

  /** The digits spell the number of their bit string. */
  lemma {:induction false} SpeltValue(digits: seq<nat>, w: nat)
    requires Fits(digits, w)
    ensures Spelt(digits, Pow2(w)) == ValueOf(Stream(digits, w))
  {
    hide Stream, ValueOf, BitsOf, Pow2;
    if digits == [] {
      NoDigits(w);
    } else {
      var n := |digits| - 1;
      SpeltValue(digits[..n], w);
      StreamSnoc(digits[..n], digits[n], w);
      assert digits == digits[..n] + [digits[n]];
      ValueAppend(Stream(digits[..n], w), digits[n], w);
    }
  }

  lemma NoDigits(w: nat)
    ensures ValueOf(Stream([], w)) == 0
  {
  }

  lemma {:induction false} SpeltOctets(octets: seq<byte>)
    ensures BigEndian.Get(octets) == Spelt(octets, 256)
  {
    if octets != [] {
      SpeltOctets(octets[..|octets| - 1]);
    }
  }

  lemma BigEndianValue(octets: seq<byte>)
    ensures BigEndian.Get(octets) == ValueOf(Stream(octets, 8))
  {
    hide *;
    NoBits();
    NextOctet(0);
    SpeltOctets(octets);
    OctetsFit(octets);
    SpeltValue(octets, 8);
  }

  lemma OctetsFit(octets: seq<byte>)
    ensures Fits(octets, 8)
  {
    assert Pow2(8) == 256;
  }

  /** Regrouped into digits, octets spell the same number, shifted left by the pad bits. */
  lemma DigitsNumber(octets: seq<byte>, w: nat, pad: nat)
    requires IsWidth(w) && pad == DigitCount(|octets|, w) * w - 8 * |octets|
    ensures Spelt(ToDigits(octets, w), Pow2(w)) == BigEndian.Get(octets) * Pow2(pad)
  {
    DigitBits(octets, w);
    hide Stream, ValueOf, ToDigits, Spelt, BigEndian.Get, Pow2;
    SpeltValue(ToDigits(octets, w), w);
    ValuePadded(Stream(octets, 8), pad);
    BigEndianValue(octets);
  }

  // ----- the texts

  /** Base32 text is the octets' number with the pad bits behind it. */
  lemma Base32Number(octets: seq<byte>)
    ensures Spelt(Base32.Digits(Base32.Encode(octets)), 32)
            == BigEndian.Get(octets) * Pow2(5 * |Base32.Encode(octets)| - 8 * |octets|)
  {
    assert Pow2(5) == 32;
    hide ToDigits, Spelt, BigEndian.Get, Base32.Digits, Pow2;
    DigitsNumber(octets, 5, 5 * |Base32.Encode(octets)| - 8 * |octets|);
  }

  /** And so is base64 text. */
  lemma Base64Number(a: Base64.Alphabet, octets: seq<byte>)
    ensures Spelt(Base64.Digits(a, Base64.Encode(a, octets)), 64)
            == BigEndian.Get(octets) * Pow2(6 * |Base64.Encode(a, octets)| - 8 * |octets|)
  {
    assert Pow2(6) == 64;
    hide ToDigits, Spelt, BigEndian.Get, Base64.Digits, Base64.Encode, Pow2;
    DigitsNumber(octets, 6, 6 * |Base64.Encode(a, octets)| - 8 * |octets|);
    Base64.DigitsOfEncode(a, octets);
  }

  /** The digits are positions in the alphabet of section 6 of RFC 4648. */
  lemma Base32Letters(t: string, i: nat)
    requires Base32.IsText(t) && i < |t|
    ensures Base32.Digits(t)[i] < 32 && "abcdefghijklmnopqrstuvwxyz234567"[Base32.Digits(t)[i]] == t[i]
  {
    Base32.CharOfDigit(t[i]);
    Base32.CharIsAlphabet(Base32.Digit(t[i]));
    hide Base32.Digit, Base32.Char;
  }

  /** The characters of sections 4 and 5 of RFC 4648 in order. */
  function Letters(a: Base64.Alphabet): (letters: string)
    ensures |letters| == 64
  {
    "ABCDEFGHIJKLMNOPQRSTUVWXYZ" + ("abcdefghijklmnopqrstuvwxyz" + ("0123456789" + Specials(a)))
  }

  function Specials(a: Base64.Alphabet): (letters: string)
    ensures |letters| == 2
  {
    match a case Standard => "+/" case Url => "-_"
  }

  lemma UpperAt(v: nat)
    requires v < 26
    ensures "ABCDEFGHIJKLMNOPQRSTUVWXYZ"[v] == 'A' + v as char
  {
  }

  lemma LowerAt(v: nat)
    requires v < 26
    ensures "abcdefghijklmnopqrstuvwxyz"[v] == 'a' + v as char
  {
  }

  lemma FigureAt(v: nat)
    requires v < 10
    ensures "0123456789"[v] == '0' + v as char
  {
  }

  lemma LettersAt(upper: string, lower: string, figures: string, specials: string, v: nat)
    requires |upper| == |lower| == 26 && |figures| == 10 && |specials| == 2 && v < 64
    ensures (upper + (lower + (figures + specials)))[v]
            == if v < 26 then upper[v] else if v < 52 then lower[v - 26] else if v < 62 then figures[v - 52]
               else specials[v - 62]
  {
  }

  lemma LetterAt(a: Base64.Alphabet, v: nat)
    requires v < 64
    ensures Letters(a)[v] == Base64.Char(a, v)
  {
    LettersAt("ABCDEFGHIJKLMNOPQRSTUVWXYZ", "abcdefghijklmnopqrstuvwxyz", "0123456789", Specials(a), v);
    if v < 26 {
      UpperAt(v);
    } else if v < 52 {
      LowerAt(v - 26);
    } else if v < 62 {
      FigureAt(v - 52);
    }
  }

  lemma Base64Letters(a: Base64.Alphabet, t: string, i: nat)
    requires Base64.IsText(a, t) && i < |t|
    ensures Base64.Digits(a, t)[i] < 64 && Letters(a)[Base64.Digits(a, t)[i]] == t[i]
  {
    var v := Base64.Digit(a, t[i]);
    LetterAt(a, v);
    Base64.DigitDeterminesChar(a, t[i], Base64.Char(a, v));
    hide Letters, Base64.Char, Base64.Digit, Base64.InAlphabet;
  }

  // ----- hexadecimal

  lemma HexLetter(v: nat)
    requires v < 16
    ensures Hexadecimal.HexChar(v) == "0123456789abcdef"[v]
  {
  }

  /** Two lower-case digits for each octet, the high one first. */
  lemma {:induction false} HexPairs(octets: seq<byte>, i: nat)
    requires i < |octets|
    ensures |Hexadecimal.Encode(octets)| == 2 * |octets|
    ensures Hexadecimal.Encode(octets)[2 * i] == "0123456789abcdef"[octets[i] / 16]
    ensures Hexadecimal.Encode(octets)[2 * i + 1] == "0123456789abcdef"[octets[i] % 16]
  {
    hide Hexadecimal.HexChar;
    HexLetter(octets[i] / 16);
    HexLetter(octets[i] % 16);
    if i > 0 {
      HexPairs(octets[1..], i - 1);
    } else if |octets| > 1 {
      HexPairs(octets[1..], 0);
    } else {
      NoHex();
    }
  }

  lemma NoHex()
    ensures Hexadecimal.Encode([]) == ""
  {
  }
}
