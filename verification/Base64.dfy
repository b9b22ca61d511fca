/**
  The base64 alphabets of sections 4 and 5 of RFC 4648 and the strict decoding
  every caller applies: Go's decoder, which drops CR and LF wherever they stand,
  followed by a comparison of the re-encoding with the input.
 */
module Base64 {
  import opened BitStream
  import opened OctetDigits
  import opened Wrappers

  datatype Alphabet = Standard | Url
  predicate InAlphabet(a: Alphabet, c: char) {
    'A' <= c <= 'Z' || 'a' <= c <= 'z' || '0' <= c <= '9'
    || (a == Standard && (c == '+' || c == '/')) || (a == Url && (c == '-' || c == '_'))
  }

  function Digit(a: Alphabet, c: char): (v: nat)
    requires InAlphabet(a, c)
    ensures v < 64
  {
    if 'A' <= c <= 'Z' then (c - 'A') as nat
    else if 'a' <= c <= 'z' then 26 + (c - 'a') as nat
    else if '0' <= c <= '9' then 52 + (c - '0') as nat
    else if c == '+' || c == '-' then 62
    else 63
  }

  function Char(a: Alphabet, v: nat): (c: char)
    requires v < 64
    ensures InAlphabet(a, c) && Digit(a, c) == v
  {
    if v < 26 then 'A' + v as char
    else if v < 52 then 'a' + (v - 26) as char
    else if v < 62 then '0' + (v - 52) as char
    else if v == 62 then (if a == Standard then '+' else '-')
    else (if a == Standard then '/' else '_')
  }

  lemma DigitDeterminesChar(a: Alphabet, c: char, d: char)
    requires InAlphabet(a, c) && InAlphabet(a, d) && Digit(a, c) == Digit(a, d)
    ensures c == d
  {
  }

  predicate IsText(a: Alphabet, t: string) {
    forall i :: 0 <= i < |t| ==> InAlphabet(a, t[i])
  }

  function Digits(a: Alphabet, t: string): (vs: seq<nat>)
    requires IsText(a, t)
    ensures |vs| == |t| && Fits(vs, 6)
  {
    assert Pow2(6) == 64;
    seq(|t|, i requires 0 <= i < |t| => Digit(a, t[i]))
  }

  function Chars(a: Alphabet, vs: seq<nat>): (t: string)
    requires Fits(vs, 6)
    ensures |t| == |vs| && IsText(a, t) && Digits(a, t) == vs
  {
    assert Pow2(6) == 64;
    seq(|vs|, i requires 0 <= i < |vs| => Char(a, vs[i]))
  }

  lemma DigitsDetermineText(a: Alphabet, s: string, t: string)
    requires IsText(a, s) && IsText(a, t) && Digits(a, s) == Digits(a, t)
    ensures s == t
  {
    assert |s| == |Digits(a, s)| == |t|;
    forall i | 0 <= i < |s| ensures s[i] == t[i] {
      assert Digit(a, s[i]) == Digits(a, s)[i] == Digits(a, t)[i] == Digit(a, t[i]);
      DigitDeterminesChar(a, s[i], t[i]);
    }
  }

  /** Unpadded encoding. */
  function Encode(a: Alphabet, octets: seq<byte>): (t: string)
    ensures |t| == DigitCount(|octets|, 6) && IsText(a, t)
  {
    Chars(a, ToDigits(octets, 6))
  }

  function DropLineBreaks(t: string): (u: string)
    ensures (forall i :: 0 <= i < |t| ==> t[i] != '\r' && t[i] != '\n') ==> u == t
  {
    if t == "" then ""
    else if t[0] == '\r' || t[0] == '\n' then DropLineBreaks(t[1..])
    else [t[0]] + DropLineBreaks(t[1..])
  }

  /** RawURLEncoding.Strict() and RawStdEncoding.Strict(): line breaks vanish, stray pad bits do not. */
  function GoDecode(a: Alphabet, t: string): Option<seq<byte>> {
    var u := DropLineBreaks(t);
    if !IsText(a, u) || |u| % 4 == 1 then None
    else if exists i :: 8 * (6 * |u| / 8) <= i < 6 * |u| && Stream(Digits(a, u), 6)[i] then None
    else Some(FromDigits(Digits(a, u), 6))
  }

  function StrictDecode(a: Alphabet, t: string): Option<seq<byte>> {
    var decoded := GoDecode(a, t);
    if decoded.None? || Encode(a, decoded.value) != t then None else decoded
  }

  lemma NoLineBreaks(a: Alphabet, t: string)
    requires IsText(a, t)
    ensures DropLineBreaks(t) == t
  {
    hide DropLineBreaks;
    assert forall i :: 0 <= i < |t| ==> t[i] != '\r' && t[i] != '\n';
  }

  lemma DigitsOfEncode(a: Alphabet, octets: seq<byte>)
    ensures Digits(a, Encode(a, octets)) == ToDigits(octets, 6)
  {
    hide Digits, Chars, ToDigits;
  }

  /** The digits of an encoding are such as the decoder takes, and it recovers the octets from them. */
  lemma DecodableDigits(octets: seq<byte>)
    ensures var vs := ToDigits(octets, 6);
            |vs| % 4 != 1 && FromDigits(vs, 6) == octets
            && forall i :: 8 * (6 * |vs| / 8) <= i < 6 * |vs| ==> !Stream(vs, 6)[i]
  {
    FromTo(octets, 6);
    DigitBits(octets, 6);
    DigitCountRemainder(|octets|);
    hide Stream, ToDigits, FromDigits, DigitCount, PaddedBits;
    var vs := ToDigits(octets, 6);
    forall i | 8 * (6 * |vs| / 8) <= i < 6 * |vs| ensures !Stream(vs, 6)[i] {
      PadBitIsZero(octets, 6, i);
    }
  }

  lemma DigitCountRemainder(n: nat)
    ensures DigitCount(n, 6) % 4 != 1 && DigitCount(n, 6) * 6 / 8 == n
  {
  }

  lemma GoDecodeEncode(a: Alphabet, octets: seq<byte>)
    ensures GoDecode(a, Encode(a, octets)) == Some(octets)
  {
    hide Stream, ToDigits, FromDigits, Digits, Encode, DropLineBreaks, InAlphabet;
    NoLineBreaks(a, Encode(a, octets));
    DigitsOfEncode(a, octets);
    DecodableDigits(octets);
  }

  /** Decoding forgets line breaks and nothing else: encoding again gives the text without them. */
  lemma EncodeGoDecode(a: Alphabet, t: string)
    requires GoDecode(a, t).Some?
    ensures Encode(a, GoDecode(a, t).value) == DropLineBreaks(t)
  {
    hide Stream, ToDigits, FromDigits, Digits, Encode, DropLineBreaks, InAlphabet;
    var u := DropLineBreaks(t);
    DigitsAreCanonical(Digits(a, u));
    DigitsOfEncode(a, FromDigits(Digits(a, u), 6));
    DigitsDetermineText(a, Encode(a, FromDigits(Digits(a, u), 6)), u);
  }

  /** Digits that the decoder takes are the digits of the octets it makes of them. */
  lemma DigitsAreCanonical(vs: seq<nat>)
    requires Fits(vs, 6) && |vs| % 4 != 1
    requires forall i :: 8 * (6 * |vs| / 8) <= i < 6 * |vs| ==> !Stream(vs, 6)[i]
    ensures ToDigits(FromDigits(vs, 6), 6) == vs
  {
    WholeDigits(|vs|);
    hide Stream, ToDigits, FromDigits, DigitCount;
    assert Canonical(vs, 6);
    hide Canonical;
    ToFrom(vs, 6);
  }

  lemma WholeDigits(count: nat)
    requires count % 4 != 1
    ensures DigitCount(count * 6 / 8, 6) == count && count * 6 == 6 * count
  {
  }

  lemma {:induction false} DropShortens(t: string)
    ensures |DropLineBreaks(t)| <= |t|
    ensures |DropLineBreaks(t)| == |t| <==> forall i :: 0 <= i < |t| ==> t[i] != '\r' && t[i] != '\n'
  {
    if t != "" {
      DropShortens(t[1..]);
      assert t == [t[0]] + t[1..];
    }
  }

  /** The comparison with the re-encoding refuses exactly the line breaks the decoder let pass. */
  lemma StrictDecodeRefuses(a: Alphabet, t: string)
    ensures StrictDecode(a, t).Some?
            <==> GoDecode(a, t).Some? && forall i :: 0 <= i < |t| ==> t[i] != '\r' && t[i] != '\n'
  {
    DropShortens(t);
    hide GoDecode, Encode, DropLineBreaks;
    if GoDecode(a, t).Some? {
      EncodeGoDecode(a, t);
    }
  }

  /** Strict decoding accepts exactly the encodings, each for its own octets. */
  lemma StrictDecodeExact(a: Alphabet, t: string, octets: seq<byte>)
    ensures StrictDecode(a, t) == Some(octets) <==> t == Encode(a, octets)
  {
    GoDecodeEncode(a, octets);
    hide GoDecode, Encode;
  }

  lemma EncodeInjective(a: Alphabet, p: seq<byte>, q: seq<byte>)
    requires Encode(a, p) == Encode(a, q)
    ensures p == q
  {
    GoDecodeEncode(a, p);
    GoDecodeEncode(a, q);
    hide GoDecode, Encode;
  }

  // ----- request nonces

  const NONCE_OCTETS := 32

  function DecodeRequestNonce(value: string): Option<seq<byte>> {
    var decoded := GoDecode(Url, value);
    if decoded.None? || |decoded.value| != NONCE_OCTETS || Encode(Url, decoded.value) != value then None
    else decoded
  }

  /** One 43-character wire string for each nonce, and no other string for any. */
  lemma RequestNonceExact(value: string, nonce: seq<byte>)
    ensures DecodeRequestNonce(value) == Some(nonce) <==> |nonce| == NONCE_OCTETS && value == Encode(Url, nonce)
    ensures DecodeRequestNonce(value).Some? ==> |value| == 43 && IsText(Url, value)
  {
    GoDecodeEncode(Url, nonce);
    hide GoDecode;
  }

  // ----- padded standard encoding

  /** StdEncoding: "=" up to a multiple of four characters. */
  function EncodePadded(octets: seq<byte>): (t: string)
    ensures |octets| == 32 ==> |t| == 44
  {
    Encode(Standard, octets) + Padding(DigitCount(|octets|, 6))
  }

  /** What fills `n` characters up to a multiple of four. */
  function Padding(n: nat): (pad: string)
    ensures |pad| < 4 && (n + |pad|) % 4 == 0
    ensures n % 4 != 1 ==> |pad| <= 2
    ensures forall i :: 0 <= i < |pad| ==> pad[i] == '='
  {
    seq((4 - n % 4) % 4, _ => '=')
  }

  lemma PaddedIsAscii(octets: seq<byte>)
    ensures forall i :: 0 <= i < |EncodePadded(octets)| ==> EncodePadded(octets)[i] < 128 as char
  {
    hide Encode, Padding;
    var t := Encode(Standard, octets);
    assert forall i :: 0 <= i < |t| ==> InAlphabet(Standard, t[i]);
  }

  function Unpad(t: string): (core: string)
    ensures core <= t
  {
    if |t| >= 2 && t[|t| - 1] == '=' && t[|t| - 2] == '=' then t[..|t| - 2]
    else if |t| >= 1 && t[|t| - 1] == '=' then t[..|t| - 1]
    else t
  }

  /** StdEncoding.Strict(): at most two pad characters, which fill the last group of four. */
  function GoDecodePadded(t: string): Option<seq<byte>> {
    var u := DropLineBreaks(t);
    if |u| % 4 != 0 then None else GoDecode(Standard, Unpad(u))
  }

  lemma UnpadEncoded(t: string, pad: string)
    requires IsText(Standard, t) && |pad| <= 2 && forall i :: 0 <= i < |pad| ==> pad[i] == '='
    ensures Unpad(t + pad) == t
  {
    assert forall i :: 0 <= i < |t| ==> InAlphabet(Standard, t[i]) && t[i] != '=';
    hide InAlphabet;
    var u := t + pad;
    var n := |u|;
    assert u[..|t|] == t;
    assert n >= 1 ==> u[n - 1] == if |pad| >= 1 then pad[|pad| - 1] else t[|t| - 1];
    assert n >= 2 ==> u[n - 2] == if |pad| == 2 then pad[0] else t[n - 2];
  }

  lemma DropNothing(t: string)
    requires forall i :: 0 <= i < |t| ==> InAlphabet(Standard, t[i]) || t[i] == '='
    ensures DropLineBreaks(t) == t
  {
    hide DropLineBreaks;
    assert forall i :: 0 <= i < |t| ==> t[i] != '\r' && t[i] != '\n';
  }

  lemma DecodeEncodePadded(octets: seq<byte>)
    ensures GoDecodePadded(EncodePadded(octets)) == Some(octets)
  {
    hide GoDecode, Encode, Unpad, Padding, InAlphabet, DropLineBreaks, DigitCount;
    DigitCountRemainder(|octets|);
    DropNothing(Encode(Standard, octets) + Padding(DigitCount(|octets|, 6)));
    UnpadEncoded(Encode(Standard, octets), Padding(DigitCount(|octets|, 6)));
    GoDecodeEncode(Standard, octets);
  }

  lemma EncodePaddedInjective(p: seq<byte>, q: seq<byte>)
    requires |p| == |q| && EncodePadded(p) == EncodePadded(q)
    ensures p == q
  {
    hide Encode;
    var n := DigitCount(|p|, 6);
    assert Encode(Standard, p) == EncodePadded(p)[..n] == EncodePadded(q)[..n] == Encode(Standard, q);
    EncodeInjective(Standard, p, q);
  }
}
