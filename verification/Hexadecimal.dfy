/** Hexadecimal digits, and octets spelt in pairs of them. */
module Hexadecimal {
  import opened BitStream
  import opened Wrappers

  predicate IsHex(c: char) {
    '0' <= c <= '9' || 'a' <= c <= 'f' || 'A' <= c <= 'F'
  }

  function HexValue(c: char): (v: nat)
    requires IsHex(c)
    ensures v < 16
  {
    if c <= '9' then (c - '0') as nat else if c <= 'F' then 10 + (c - 'A') as nat else 10 + (c - 'a') as nat
  }

  function HexChar(v: nat): (c: char)
    requires v < 16
    ensures IsHex(c) && HexValue(c) == v
  {
    if v < 10 then '0' + v as char else 'a' + (v - 10) as char
  }

  function Encode(octets: seq<byte>): (s: string)
    ensures forall i :: 0 <= i < |s| ==> IsHex(s[i])
  {
    if octets == [] then "" else [HexChar(octets[0] / 16), HexChar(octets[0] % 16)] + Encode(octets[1..])
  }

  /** hex.DecodeString: either case, an even number of digits. */
  function Decode(s: string): Option<seq<byte>> {
    if s == "" then Some([])
    else if |s| == 1 || !IsHex(s[0]) || !IsHex(s[1]) then None
    else
      match Decode(s[2..])
      case None => None
      case Some(rest) => Some([16 * HexValue(s[0]) + HexValue(s[1])] + rest)
  }

  lemma {:induction false} DecodeEncode(octets: seq<byte>)
    ensures Decode(Encode(octets)) == Some(octets)
  {
    if octets != [] {
      DecodeEncode(octets[1..]);
      assert Encode(octets)[2..] == Encode(octets[1..]);
      assert [octets[0]] + octets[1..] == octets;
    }
  }

  lemma EncodeInjective(a: seq<byte>, b: seq<byte>)
    requires Encode(a) == Encode(b)
    ensures a == b
  {
    DecodeEncode(a);
    DecodeEncode(b);
  }
}
