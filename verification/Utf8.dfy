/**
  UTF-8 by the syntax of section 4 of RFC 3629, and cutting a string at a byte
  limit without splitting a character.
 */
module Utf8 {
  import opened BitStream

  predicate RuneStart(b: byte) {
    b < 0x80 || b >= 0xC0
  }

  /** Octets of the character at the front, and 0 if none stands there. */
  function RuneLength(s: seq<byte>): (n: nat)
    ensures n <= |s| && n <= 4
  {
    if s == [] then 0
    else if s[0] < 0x80 then 1
    else if 0xC2 <= s[0] <= 0xDF && |s| >= 2 && !RuneStart(s[1]) then 2
    else if 0xE0 <= s[0] <= 0xEF && |s| >= 3 && !RuneStart(s[1]) && !RuneStart(s[2])
            && (s[0] == 0xE0 ==> s[1] >= 0xA0) && (s[0] == 0xED ==> s[1] < 0xA0) then 3
    else if 0xF0 <= s[0] <= 0xF4 && |s| >= 4 && !RuneStart(s[1]) && !RuneStart(s[2]) && !RuneStart(s[3])
            && (s[0] == 0xF0 ==> s[1] >= 0x90) && (s[0] == 0xF4 ==> s[1] < 0x90) then 4
    else 0
  }

  predicate Valid(s: seq<byte>) {
    s == [] || (RuneLength(s) > 0 && Valid(s[RuneLength(s)..]))
  }

  /** The six payload bits of a continuation octet. */
  function Six(b: byte): nat {
    b % 0x40
  }

  function CodePoint(s: seq<byte>): (r: nat)
    requires RuneLength(s) > 0
  {
    var lead: nat := s[0];
    match RuneLength(s)
    case 1 => lead
    case 2 => 0x40 * (lead - 0xC0) + Six(s[1])
    case 3 => 0x1000 * (lead - 0xE0) + 0x40 * Six(s[1]) + Six(s[2])
    case _ => 0x40000 * (lead - 0xF0) + 0x1000 * Six(s[1]) + 0x40 * Six(s[2]) + Six(s[3])
  }

  function CodePoints(s: seq<byte>): seq<nat>
    requires Valid(s)
  {
    if s == [] then [] else [CodePoint(s)] + CodePoints(s[RuneLength(s)..])
  }

  // ----- section 3 of RFC 3629

  /** Code points but for the surrogates. */
  predicate IsScalar(r: nat) {
    r < 0xD800 || 0xE000 <= r < 0x11_0000
  }

  function EncodeRune(r: nat): (octets: seq<byte>)
    requires IsScalar(r)
    ensures 1 <= |octets| <= 4
  {
    if r < 0x80 then [r]
    else if r < 0x800 then [0xC0 + r / 0x40, 0x80 + r % 0x40]
    else if r < 0x1_0000 then [0xE0 + r / 0x40 / 0x40, 0x80 + r / 0x40 % 0x40, 0x80 + r % 0x40]
    else [0xF0 + r / 0x40 / 0x40 / 0x40, 0x80 + r / 0x40 / 0x40 % 0x40, 0x80 + r / 0x40 % 0x40, 0x80 + r % 0x40]
  }

  function EncodeAll(runes: seq<nat>): seq<byte>
    requires forall i :: 0 <= i < |runes| ==> IsScalar(runes[i])
  {
    if runes == [] then [] else EncodeRune(runes[0]) + EncodeAll(runes[1..])
  }

  lemma LastSix(q: nat, b: byte)
    requires 0x80 <= b < 0xC0
    ensures var r := 0x40 * q + Six(b); r / 0x40 == q && 0x80 + r % 0x40 == b
  {
  }

  /** Continuation octets stand behind the lead, and it bounds the number. */
  lemma Continued(s: seq<byte>)
    requires RuneLength(s) > 0
    ensures var n := RuneLength(s); forall i :: 1 <= i < n ==> 0x80 <= s[i] < 0xC0
    ensures RuneLength(s) == 3 && s[0] == 0xE0 ==> s[1] >= 0xA0
    ensures RuneLength(s) == 3 && s[0] == 0xED ==> s[1] < 0xA0
    ensures RuneLength(s) == 4 && s[0] == 0xF0 ==> s[1] >= 0x90
    ensures RuneLength(s) == 4 && s[0] == 0xF4 ==> s[1] < 0x90
    ensures RuneLength(s) == 1 ==> s[0] < 0x80
    ensures RuneLength(s) == 2 ==> 0xC2 <= s[0] <= 0xDF
    ensures RuneLength(s) == 3 ==> 0xE0 <= s[0] <= 0xEF
    ensures RuneLength(s) == 4 ==> 0xF0 <= s[0] <= 0xF4
  {
  }

  lemma EncodesTwo(a: byte, b: byte)
    requires 0xC2 <= a <= 0xDF && 0x80 <= b < 0xC0
    ensures var r := 0x40 * (a - 0xC0) + Six(b); IsScalar(r) && EncodeRune(r) == [a, b]
  {
    LastSix(a - 0xC0, b);
  }

  lemma EncodesThree(a: byte, b: byte, c: byte)
    requires 0xE0 <= a <= 0xEF && 0x80 <= b < 0xC0 && 0x80 <= c < 0xC0
    requires (a == 0xE0 ==> b >= 0xA0) && (a == 0xED ==> b < 0xA0)
    ensures var r := 0x1000 * (a - 0xE0) + 0x40 * Six(b) + Six(c); IsScalar(r) && EncodeRune(r) == [a, b, c]
  {
    ThreeInRange(a, b, c);
    LastSix(a - 0xE0, b);
    LastSix(0x40 * (a - 0xE0) + Six(b), c);
    hide Six;
  }

  lemma EncodesFour(a: byte, b: byte, c: byte, d: byte)
    requires 0xF0 <= a <= 0xF4 && 0x80 <= b < 0xC0 && 0x80 <= c < 0xC0 && 0x80 <= d < 0xC0
    requires (a == 0xF0 ==> b >= 0x90) && (a == 0xF4 ==> b < 0x90)
    ensures var r := 0x4_0000 * (a - 0xF0) + 0x1000 * Six(b) + 0x40 * Six(c) + Six(d);
            IsScalar(r) && EncodeRune(r) == [a, b, c, d]
  {
    FourInRange(a, b, c, d);
    LastSix(a - 0xF0, b);
    LastSix(0x40 * (a - 0xF0) + Six(b), c);
    LastSix(0x1000 * (a - 0xF0) + 0x40 * Six(b) + Six(c), d);
    hide Six;
  }

  lemma EncodesOne(a: byte)
    requires a < 0x80
    ensures IsScalar(a) && EncodeRune(a) == [a]
  {
  }

  /** The front of a string with a character there encodes its code point. */
  lemma RuneEncodes(s: seq<byte>)
    requires RuneLength(s) > 0
    ensures IsScalar(CodePoint(s)) && EncodeRune(CodePoint(s)) == s[..RuneLength(s)]
  {
    hide RuneLength, Six, EncodeRune, IsScalar;
    Continued(s);
    match RuneLength(s)
    case 1 =>
      EncodesOne(s[0]);
      assert s[..1] == [s[0]];
    case 2 =>
      EncodesTwo(s[0], s[1]);
      assert s[..2] == [s[0], s[1]];
    case 3 =>
      EncodesThree(s[0], s[1], s[2]);
      assert s[..3] == [s[0], s[1], s[2]];
    case _ =>
      EncodesFour(s[0], s[1], s[2], s[3]);
      assert s[..4] == [s[0], s[1], s[2], s[3]];
  }

  lemma ThreeInRange(a: byte, b: byte, c: byte)
    requires 0xE0 <= a <= 0xEF && 0x80 <= b < 0xC0 && 0x80 <= c < 0xC0
    requires (a == 0xE0 ==> b >= 0xA0) && (a == 0xED ==> b < 0xA0)
    ensures var r := 0x1000 * (a - 0xE0) + 0x40 * Six(b) + Six(c); 0x800 <= r < 0x1_0000 && IsScalar(r)
  {
  }

  lemma FourInRange(a: byte, b: byte, c: byte, d: byte)
    requires 0xF0 <= a <= 0xF4 && 0x80 <= b < 0xC0 && 0x80 <= c < 0xC0 && 0x80 <= d < 0xC0
    requires (a == 0xF0 ==> b >= 0x90) && (a == 0xF4 ==> b < 0x90)
    ensures var r := 0x4_0000 * (a - 0xF0) + 0x1000 * Six(b) + 0x40 * Six(c) + Six(d); 0x1_0000 <= r < 0x11_0000
  {
  }

  lemma SplitSix(r: nat)
    ensures r == 0x40 * (r / 0x40) + r % 0x40 && Six(0x80 + r % 0x40) == r % 0x40
  {
  }

  lemma ReadTwo(s: seq<byte>, r: nat)
    requires 0x80 <= r < 0x800 && |s| >= 2 && s[0] == 0xC0 + r / 0x40 && s[1] == 0x80 + r % 0x40
    ensures RuneLength(s) == 2 && CodePoint(s) == r
  {
    SplitSix(r);
    hide Six;
  }

  lemma ReadThree(s: seq<byte>, r: nat)
    requires 0x800 <= r < 0x1_0000 && IsScalar(r) && |s| >= 3
    requires s[0] == 0xE0 + r / 0x40 / 0x40 && s[1] == 0x80 + r / 0x40 % 0x40 && s[2] == 0x80 + r % 0x40
    ensures RuneLength(s) == 3 && CodePoint(s) == r
  {
    SplitSix(r);
    SplitSix(r / 0x40);
    hide Six;
  }

  lemma ReadFour(s: seq<byte>, r: nat)
    requires 0x1_0000 <= r < 0x11_0000 && |s| >= 4
    requires s[0] == 0xF0 + r / 0x40 / 0x40 / 0x40 && s[1] == 0x80 + r / 0x40 / 0x40 % 0x40
    requires s[2] == 0x80 + r / 0x40 % 0x40 && s[3] == 0x80 + r % 0x40
    ensures RuneLength(s) == 4 && CodePoint(s) == r
  {
    SplitSix(r);
    SplitSix(r / 0x40);
    SplitSix(r / 0x40 / 0x40);
    hide Six;
  }

  lemma RuneLengthOf(s: seq<byte>, r: nat)
    requires IsScalar(r) && EncodeRune(r) <= s
    ensures RuneLength(s) == |EncodeRune(r)| && CodePoint(s) == r
  {
    var e := EncodeRune(r);
    assert forall i :: 0 <= i < |e| ==> s[i] == e[i];
    if r < 0x80 {
      ReadOne(s);
    } else if r < 0x800 {
      ReadTwo(s, r);
    } else if r < 0x1_0000 {
      ReadThree(s, r);
    } else {
      ReadFour(s, r);
    }
    hide RuneLength, CodePoint;
  }

  lemma ReadOne(s: seq<byte>)
    requires s != [] && s[0] < 0x80
    ensures RuneLength(s) == 1 && CodePoint(s) == s[0]
  {
  }

  lemma EncodedRune(r: nat, more: seq<byte>)
    requires IsScalar(r)
    ensures RuneLength(EncodeRune(r) + more) == |EncodeRune(r)| && CodePoint(EncodeRune(r) + more) == r
  {
    hide *;
    RuneLengthOf(EncodeRune(r) + more, r);
  }

  /** A string is valid exactly if it encodes code points, and it encodes those it is decoded to. */
  lemma {:induction false} ValidEncodes(s: seq<byte>)
    requires Valid(s)
    ensures forall i :: 0 <= i < |CodePoints(s)| ==> IsScalar(CodePoints(s)[i])
    ensures EncodeAll(CodePoints(s)) == s
  {
    hide RuneLength, CodePoint, EncodeRune, IsScalar;
    if s != [] {
      var n := RuneLength(s);
      RuneEncodes(s);
      ValidEncodes(s[n..]);
      AllOf(CodePoint(s), CodePoints(s[n..]));
      assert s == s[..n] + s[n..];
    }
  }

  lemma AllOf(r: nat, runes: seq<nat>)
    requires IsScalar(r) && forall i :: 0 <= i < |runes| ==> IsScalar(runes[i])
    ensures forall i :: 0 <= i < |runes| + 1 ==> IsScalar(([r] + runes)[i])
    ensures EncodeAll([r] + runes) == EncodeRune(r) + EncodeAll(runes)
  {
    assert ([r] + runes)[1..] == runes;
  }

  lemma {:induction false} EncodedIsValid(runes: seq<nat>)
    requires forall i :: 0 <= i < |runes| ==> IsScalar(runes[i])
    ensures Valid(EncodeAll(runes)) && CodePoints(EncodeAll(runes)) == runes
  {
    if runes != [] {
      EncodedRune(runes[0], EncodeAll(runes[1..]));
      EncodedIsValid(runes[1..]);
    }
  }

  /** unicode.IsSpace. */
  predicate IsSpace(r: nat) {
    9 <= r <= 13 || r == 0x20 || r == 0x85 || r == 0xA0 || r == 0x1680 || 0x2000 <= r <= 0x200A
    || r == 0x2028 || r == 0x2029 || r == 0x202F || r == 0x205F || r == 0x3000
  }

  const MAX_BYTES := 256

  function CutAt(s: seq<byte>, cut: nat): (k: nat)
    requires cut < |s|
    ensures k <= cut
  {
    if cut == 0 || RuneStart(s[cut]) then cut else CutAt(s, cut - 1)
  }

  function Truncated(s: seq<byte>): (r: seq<byte>)
    ensures |r| <= MAX_BYTES && r <= s
  {
    if |s| <= MAX_BYTES then s else s[..CutAt(s, MAX_BYTES)]
  }

  method TruncateUserAgent(userAgent: seq<byte>) returns (r: seq<byte>)
    ensures r == Truncated(userAgent)
  {
    if |userAgent| <= MAX_BYTES {
      return userAgent;
    }
    var cut := MAX_BYTES;
    while cut > 0 && !RuneStart(userAgent[cut])
      invariant 0 <= cut <= MAX_BYTES
      invariant CutAt(userAgent, MAX_BYTES) == CutAt(userAgent, cut)
    {
      cut := cut - 1;
    }
    return userAgent[..cut];
  }

  // ----- prefixes of valid strings

  lemma RuneOfPrefix(s: seq<byte>, k: nat)
    requires RuneLength(s) > 0 && k <= |s|
    ensures RuneLength(s[..k]) == if k < RuneLength(s) then 0 else RuneLength(s)
    ensures RuneStart(s[0]) && forall j :: 0 < j < RuneLength(s) ==> !RuneStart(s[j])
  {
  }

  /** A prefix of a valid string is valid exactly if the next octet starts a character. */
  lemma {:induction false} BoundaryExact(s: seq<byte>, k: nat)
    requires Valid(s) && k < |s|
    ensures Valid(s[..k]) <==> RuneStart(s[k])
  {
    hide *;
    var n := RuneLength(s);
    ValidStep(s);
    RuneOfPrefix(s, k);
    if k == 0 {
      NothingValid();
      assert s[..0] == [];
    } else {
      ValidStep(s[..k]);
      if k >= n {
        BoundaryExact(s[n..], k - n);
        assert s[..k][n..] == s[n..][..k - n];
      }
    }
  }

  lemma ValidStep(s: seq<byte>)
    requires s != []
    ensures Valid(s) <==> RuneLength(s) > 0 && Valid(s[RuneLength(s)..])
  {
  }

  lemma NothingValid()
    ensures Valid([])
  {
  }

  /** No four neighbouring octets of a valid string are all continuations. */
  lemma {:induction false} StartNearby(s: seq<byte>, k: nat) returns (start: nat)
    requires Valid(s) && k < |s|
    ensures start <= k <= start + 3 && RuneStart(s[start])
  {
    var n := RuneLength(s);
    RuneOfPrefix(s, k);
    hide RuneLength, RuneStart;
    if k >= n {
      var inner := StartNearby(s[n..], k - n);
      start := n + inner;
    } else {
      start := 0;
    }
  }

  lemma {:induction false} CutIsLast(s: seq<byte>, cut: nat, k: nat)
    requires cut < |s| && k <= cut && RuneStart(s[k])
    ensures k <= CutAt(s, cut) && RuneStart(s[CutAt(s, cut)])
    decreases cut
  {
    if k < cut && !RuneStart(s[cut]) {
      CutIsLast(s, cut - 1, k);
    }
  }

  /** The longest valid prefix within the limit, at most three octets below it. */
  lemma TruncatedIsLongest(s: seq<byte>)
    requires Valid(s)
    ensures Valid(Truncated(s))
    ensures forall k :: 0 <= k <= |s| && k <= MAX_BYTES && Valid(s[..k]) ==> k <= |Truncated(s)|
    ensures |s| > MAX_BYTES ==> |Truncated(s)| >= MAX_BYTES - 3
  {
    if |s| > MAX_BYTES {
      hide Valid, RuneStart, CutAt;
      var cut := CutAt(s, MAX_BYTES);
      var start := StartNearby(s, MAX_BYTES);
      CutIsLast(s, MAX_BYTES, start);
      BoundaryExact(s, cut);
      forall k | 0 <= k <= MAX_BYTES && Valid(s[..k]) ensures k <= cut {
        BoundaryExact(s, k);
        CutIsLast(s, MAX_BYTES, k);
      }
    }
  }

  lemma TruncatedTwice(s: seq<byte>)
    ensures Truncated(Truncated(s)) == Truncated(s)
  {
  }

  /** Every octet below 0x80 is a character of its own. */
  lemma {:induction false} AsciiAreCodePoints(s: seq<byte>, i: nat)
    requires Valid(s) && i < |s| && s[i] < 0x80
    ensures s[i] in CodePoints(s)
  {
    var n := RuneLength(s);
    RuneOfPrefix(s, 0);
    if i >= n {
      AsciiAreCodePoints(s[n..], i - n);
    }
  }
}
