/**
  RFC 4648 without its characters: octets regrouped into 5-bit or 6-bit digits,
  the last digit filled with zero bits, and the regrouping back into whole octets.
 */
module OctetDigits {
  import opened BitStream

  ghost predicate IsWidth(w: nat) {
    w == 5 || w == 6
  }

  function DigitCount(octets: nat, w: nat): (n: nat)
    requires IsWidth(w)
    ensures 8 * octets <= n * w < 8 * octets + w
  {
    if w == 5 then (8 * octets + 4) / 5 else (8 * octets + 5) / 6
  }

  function Zeros(n: nat): (bits: seq<bool>) {
    seq(n, _ => false)
  }

  /** The octets' bit string, zero-filled to whole digits. */
  function PaddedBits(octets: seq<byte>, w: nat): (bits: seq<bool>)
    requires IsWidth(w)
    ensures |bits| == DigitCount(|octets|, w) * w
  {
    Stream(octets, 8) + Zeros(DigitCount(|octets|, w) * w - 8 * |octets|)
  }

  lemma PadBitIsZero(octets: seq<byte>, w: nat, i: nat)
    requires IsWidth(w) && 8 * |octets| <= i < DigitCount(|octets|, w) * w
    ensures !PaddedBits(octets, w)[i]
  {
  }

  function ToDigits(octets: seq<byte>, w: nat): (digits: seq<nat>)
    requires IsWidth(w)
    ensures |digits| == DigitCount(|octets|, w) && Fits(digits, w)
  {
    Pack(PaddedBits(octets, w), w, DigitCount(|octets|, w))
  }

  function Octets(bits: seq<bool>, n: nat): (octets: seq<byte>)
    requires |bits| == n * 8
    ensures |octets| == n
  {
    assert Pow2(8) == 256;
    var vs := Pack(bits, 8, n);
    assert forall i :: 0 <= i < n ==> vs[i] < Pow2(8);
    seq(n, i requires 0 <= i < n => vs[i])
  }

  /** Whole octets of the digits' bit string; what is left over is not looked at. */
  function FromDigits(digits: seq<nat>, w: nat): (octets: seq<byte>)
    requires IsWidth(w)
    ensures |octets| == |digits| * w / 8
  {
    var n := |digits| * w / 8;
    Octets(Stream(digits, w)[..8 * n], n)
  }

  lemma OctetsStream(octets: seq<byte>)
    ensures Octets(Stream(octets, 8), |octets|) == octets
  {
    assert Pow2(8) == 256;
    PackStream(octets, 8);
  }

  lemma StreamOctets(bits: seq<bool>, n: nat)
    requires |bits| == n * 8
    ensures Stream(Octets(bits, n), 8) == bits
  {
    StreamPack(bits, 8, n);
    assert Octets(bits, n) == Pack(bits, 8, n);
  }

  lemma DigitBits(octets: seq<byte>, w: nat)
    requires IsWidth(w)
    ensures Stream(ToDigits(octets, w), w) == PaddedBits(octets, w)
  {
    StreamPack(PaddedBits(octets, w), w, DigitCount(|octets|, w));
  }

  lemma OctetBits(digits: seq<nat>, w: nat)
    requires IsWidth(w)
    ensures Stream(FromDigits(digits, w), 8) == Stream(digits, w)[..8 * (|digits| * w / 8)]
  {
    var n := |digits| * w / 8;
    StreamOctets(Stream(digits, w)[..8 * n], n);
  }

  lemma FromTo(octets: seq<byte>, w: nat)
    requires IsWidth(w)
    ensures FromDigits(ToDigits(octets, w), w) == octets
  {
    DigitBits(octets, w);
    hide Stream, ToDigits, Octets, DigitCount;
    var n := DigitCount(|octets|, w) * w / 8;
    assert n == |octets|;
    assert PaddedBits(octets, w)[..8 * n] == Stream(octets, 8);
    OctetsStream(octets);
  }

  /** No digit is idle and every bit past the last whole octet is zero. */
  ghost predicate Canonical(digits: seq<nat>, w: nat)
    requires IsWidth(w)
  {
    var n := |digits| * w / 8;
    && DigitCount(n, w) == |digits|
    && forall i :: 8 * n <= i < |digits| * w ==> !Stream(digits, w)[i]
  }

  lemma DigitsAgain(digits: seq<nat>, w: nat)
    requires IsWidth(w) && Fits(digits, w)
    ensures var n := |digits| * w / 8;
            Stream(ToDigits(FromDigits(digits, w), w), w)
              == Stream(digits, w)[..8 * n] + Zeros(DigitCount(n, w) * w - 8 * n)
  {
    OctetBits(digits, w);
    DigitBits(FromDigits(digits, w), w);
  }

  lemma ToFrom(digits: seq<nat>, w: nat)
    requires IsWidth(w) && Fits(digits, w)
    ensures ToDigits(FromDigits(digits, w), w) == digits <==> Canonical(digits, w)
  {
    DigitsAgain(digits, w);
    hide Stream, ToDigits, FromDigits, DigitCount, Pack;
    var n, bits := |digits| * w / 8, Stream(digits, w);
    var again := ToDigits(FromDigits(digits, w), w);
    if Canonical(digits, w) {
      assert Stream(again, w) == bits;
      PackStream(digits, w);
      PackStream(again, w);
    }
    if again == digits {
      assert bits == bits[..8 * n] + Zeros(DigitCount(n, w) * w - 8 * n);
      assert forall i :: 8 * n <= i < |digits| * w ==> bits[i] == Zeros(DigitCount(n, w) * w - 8 * n)[i - 8 * n];
    }
  }
}
