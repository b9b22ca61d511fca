/**
  Octets and bit strings.  RFC 4648 defines base32 and base64 on the bit string
  that the input octets spell, most significant bit first; this module supplies
  that bit string and its regrouping into values of any width.
 */
module BitStream {

  type byte = x: int | 0 <= x < 256

  function Ascii(s: string): (octets: seq<byte>)
    requires forall i :: 0 <= i < |s| ==> '\0' < s[i] < 128 as char
    ensures |octets| == |s| && 0 !in octets
    ensures forall i :: 0 <= i < |s| ==> octets[i] == s[i] as int
  {
    seq(|s|, i requires 0 <= i < |s| => s[i] as int)
  }

  function Pow2(w: nat): (p: nat)
    ensures p >= 1
  {
    if w == 0 then 1 else 2 * Pow2(w - 1)
  }

  /** The `w` low bits of `v`, most significant first. */
  function BitsOf(v: nat, w: nat): (bits: seq<bool>)
    ensures |bits| == w
    decreases w
  {
    if w == 0 then [] else BitsOf(v / 2, w - 1) + [v % 2 == 1]
  }

  function ValueOf(bits: seq<bool>): (v: nat)
    ensures v < Pow2(|bits|)
  {
    if bits == [] then 0
    else 2 * ValueOf(bits[..|bits| - 1]) + if bits[|bits| - 1] then 1 else 0
  }

  lemma {:induction false} ValueOfBitsOf(v: nat, w: nat)
    requires v < Pow2(w)
    ensures ValueOf(BitsOf(v, w)) == v
    decreases w
  {
    if w > 0 {
      ValueOfBitsOf(v / 2, w - 1);
      var bits := BitsOf(v, w);
      assert bits[..w - 1] == BitsOf(v / 2, w - 1);
    }
  }

  lemma {:induction false} BitsOfValueOf(bits: seq<bool>)
    ensures BitsOf(ValueOf(bits), |bits|) == bits
  {
    if bits != [] {
      BitsOfValueOf(bits[..|bits| - 1]);
    }
  }

  /** The concatenated `w`-bit spellings of `vs`. */
  function Stream(vs: seq<nat>, w: nat): (bits: seq<bool>)
    ensures |bits| == |vs| * w
  {
    if vs == [] then [] else BitsOf(vs[0], w) + Stream(vs[1..], w)
  }

  ghost predicate Fits(vs: seq<nat>, w: nat) {
    forall i :: 0 <= i < |vs| ==> vs[i] < Pow2(w)
  }

  /** Cuts a bit string into `n` values of `w` bits each. */
  function Pack(bits: seq<bool>, w: nat, n: nat): (vs: seq<nat>)
    requires |bits| == n * w
    ensures |vs| == n && Fits(vs, w)
    decreases n
  {
    if n == 0 then []
    else
      assert n * w == (n - 1) * w + w;
      [ValueOf(bits[..w])] + Pack(bits[w..], w, n - 1)
  }

  lemma {:induction false} PackStream(vs: seq<nat>, w: nat)
    requires Fits(vs, w)
    ensures Pack(Stream(vs, w), w, |vs|) == vs
  {
    if vs != [] {
      var bits := Stream(vs, w);
      PackStream(vs[1..], w);
      assert bits[..w] == BitsOf(vs[0], w) && bits[w..] == Stream(vs[1..], w);
      ValueOfBitsOf(vs[0], w);
    }
  }

  lemma StreamCons(v: nat, vs: seq<nat>, w: nat)
    ensures Stream([v] + vs, w) == BitsOf(v, w) + Stream(vs, w)
  {
    assert ([v] + vs)[1..] == vs;
  }

  lemma {:induction false} StreamPack(bits: seq<bool>, w: nat, n: nat)
    requires |bits| == n * w
    ensures Stream(Pack(bits, w, n), w) == bits
    decreases n
  {
    hide Stream, BitsOf, ValueOf;
    if n == 0 {
      assert |Stream(Pack(bits, w, 0), w)| == 0;
    } else {
      assert n * w == (n - 1) * w + w;
      StreamPack(bits[w..], w, n - 1);
      BitsOfValueOf(bits[..w]);
      StreamCons(ValueOf(bits[..w]), Pack(bits[w..], w, n - 1), w);
      assert bits == bits[..w] + bits[w..];
    }
  }

  /** Bits `i*w .. (i+1)*w` of the stream are the spelling of value `i`. */
  lemma {:induction false} StreamAt(vs: seq<nat>, w: nat, i: nat)
    requires i < |vs|
    ensures 0 <= i * w <= i * w + w <= |Stream(vs, w)|
    ensures Stream(vs, w)[i * w..i * w + w] == BitsOf(vs[i], w)
  {
    if i > 0 {
      StreamAt(vs[1..], w, i - 1);
      assert i * w == (i - 1) * w + w;
    }
  }

  lemma {:induction false} StreamConcat(a: seq<nat>, b: seq<nat>, w: nat)
    ensures Stream(a + b, w) == Stream(a, w) + Stream(b, w)
  {
    if a == [] {
      assert a + b == b;
    } else {
      assert (a + b)[1..] == a[1..] + b;
      StreamConcat(a[1..], b, w);
    }
  }
}
