/**
  The Connector Hub return-routability cookie: the octets its MAC is taken over,
  the challenge body that carries it and the packet sizes that follow.
 */
module HubCookie {
  import opened BitStream
  import opened Base64
  import BigEndian
  import Decimal
  import opened Wrappers

  const DOMAIN := "nhp-connector-hub-lst-cookie-v1"
  const PEER_OCTETS := 32
  const KEY_OCTETS := 32
  const COOKIE_OCTETS := 32
  const HEADER_OCTETS := 240
  const TAG_OCTETS := 16
  const PACKET_OVERHEAD := HEADER_OCTETS + TAG_OCTETS
  const WINDOW_SECONDS := 30
  type uint64 = n: nat | n <= Decimal.MAX_UINT64

  // ----- addresses

  /** A parsed address; only an IPv6 address can carry a zone. */
  datatype Address = V4(octets: seq<byte>) | V6(octets: seq<byte>, zone: string) {
    ghost predicate Valid() {
      match this
      case V4(octets) => |octets| == 4
      case V6(octets, _) => |octets| == 16
    }

    predicate HasZone() {
      V6? && zone != ""
    }

    predicate IsMapped()
      requires Valid()
    {
      V6? && octets[..12] == [0, 0, 0, 0, 0, 0, 0, 0, 0, 0, 255, 255]
    }

    /** IPv4-mapped IPv6 addresses become the IPv4 address they stand for. */
    function Unmap(): (a: Address)
      requires Valid()
      ensures a.Valid()
    {
      if IsMapped() then V4(octets[12..]) else this
    }
  }

  /** The IPv6 spellings of an IPv4 address, and no other address, stand for it: ten zeros and two 0xFF before it. */
  lemma UnmapExact(a: Address, octets: seq<byte>)
    requires a.V6? && a.Valid() && |octets| == 4
    ensures a.Unmap() == V4(octets) <==> a.octets == seq(10, _ => 0) + [0xFF, 0xFF] + octets
    ensures a.Unmap().V6? ==> a.Unmap() == a
  {
    assert seq(10, _ => 0) == [0, 0, 0, 0, 0, 0, 0, 0, 0, 0];
    assert a.octets == a.octets[..12] + a.octets[12..];
    var mapped := [0, 0, 0, 0, 0, 0, 0, 0, 0, 0, 0xFF, 0xFF] + octets;
    assert mapped[..12] == [0, 0, 0, 0, 0, 0, 0, 0, 0, 0, 0xFF, 0xFF] && mapped[12..] == octets;
  }

  // ----- the MAC preimage

  function DomainOctets(): (octets: seq<byte>)
    ensures |octets| == 31
  {
    Ascii(DOMAIN)
  }

  /** The MAC input for an unmapped address, a 32-octet peer key and a window. */
  function Layout(source: Address, peer: seq<byte>, window: nat): seq<byte> {
    DomainOctets() + [0] + [if source.V4? then 4 else 6]
    + BigEndian.Put(|source.octets|, 4) + source.octets
    + BigEndian.Put(|peer|, 4) + peer
    + BigEndian.Put(window, 8)
  }

  /** `source` is the parsed address, absent when parsing failed. */
  function Preimage(source: Option<Address>, peer: seq<byte>, window: uint64): Option<seq<byte>>
    requires source.Some? ==> source.value.Valid()
  {
    if source.None? || source.value.HasZone() || |peer| != PEER_OCTETS then None
    else Some(Layout(source.value.Unmap(), peer, window))
  }

  /** Appends piece by piece, reusing one eight-octet frame for every number. */
  method BuildPreimage(source: Option<Address>, peer: seq<byte>, window: uint64) returns (result: Option<seq<byte>>)
    requires source.Some? ==> source.value.Valid()
    ensures result == Preimage(source, peer, window)
  {
    if source.None? || source.value.HasZone() {
      return None;
    }
    var address := source.value.Unmap();
    var family: byte := if address.V4? then 4 else 6;
    if |peer| != PEER_OCTETS {
      return None;
    }
    hide BigEndian.Put, DomainOctets;
    var preimage := DomainOctets();
    preimage := preimage + [0];
    preimage := preimage + [family];
    var frame := new byte[8](_ => 0);
    BigEndian.PutAt(frame, 0, 4, |address.octets|);
    preimage := preimage + frame[..4];
    preimage := preimage + address.octets;
    BigEndian.PutAt(frame, 0, 4, |peer|);
    preimage := preimage + frame[..4];
    preimage := preimage + peer;
    BigEndian.PutAt(frame, 0, 8, window);
    assert frame[..] == frame[..8];
    preimage := preimage + frame[..];
    assert preimage == Layout(address, peer, window);
    return Some(preimage);
  }

  /** Where everything stands: domain and NUL, family, framed address, framed peer, window. */
  lemma LayoutParts(a: Address, p: seq<byte>, v: nat)
    requires |p| == PEER_OCTETS
    ensures var x, n := Layout(a, p, v), |a.octets|;
            && |x| == 81 + n && x[..31] == Ascii("nhp-connector-hub-lst-cookie-v1") && x[31] == 0
            && x[32] == (if a.V4? then 4 else 6) && x[33..37] == BigEndian.Put(n, 4) && x[37..37 + n] == a.octets
            && x[37 + n..41 + n] == BigEndian.Put(32, 4) && x[41 + n..73 + n] == p
            && x[73 + n..] == BigEndian.Put(v, 8)
  {
    DomainSpelt();
    LayoutSplits(a, p, v);
    hide BigEndian.Put, DomainOctets, Layout;
    var n, head := |a.octets|, DomainOctets() + [0, if a.V4? then 4 else 6];
    var source, target := BigEndian.Put(n, 4) + a.octets, BigEndian.Put(32, 4) + p;
    HeadOf(DomainOctets(), if a.V4? then 4 else 6, source + (target + BigEndian.Put(v, 8)));
    PartOf(head, BigEndian.Put(n, 4), a.octets, target + BigEndian.Put(v, 8));
    PartOf(head + source, BigEndian.Put(32, 4), p, BigEndian.Put(v, 8));
  }

  lemma LayoutSplits(a: Address, p: seq<byte>, v: nat)
    requires |p| == PEER_OCTETS
    ensures var head := DomainOctets() + [0, if a.V4? then 4 else 6];
            var source, target := BigEndian.Put(|a.octets|, 4) + a.octets, BigEndian.Put(32, 4) + p;
            && Layout(a, p, v) == head + (source + (target + BigEndian.Put(v, 8)))
            && Layout(a, p, v) == head + source + (target + BigEndian.Put(v, 8))
  {
    hide BigEndian.Put, DomainOctets;
  }

  lemma HeadOf(domain: seq<byte>, family: byte, more: seq<byte>)
    requires |domain| == 31
    ensures var x := domain + [0, family] + more; x[..31] == domain && x[31] == 0 && x[32] == family
  {
  }

  /** A number and what it frames, behind some octets and before others. */
  lemma PartOf(before: seq<byte>, number: seq<byte>, part: seq<byte>, after: seq<byte>)
    requires |number| == 4
    ensures var x, i := before + (number + part + after), |before|;
            && x[i..i + 4] == number && x[i + 4..i + 4 + |part|] == part && x[i + 4 + |part|..] == after
  {
  }

  lemma DomainSpelt()
    ensures DomainOctets() == Ascii("nhp-connector-hub-lst-cookie-v1")
  {
  }

  lemma LayoutInjective(a: Address, p: seq<byte>, v: uint64, b: Address, q: seq<byte>, w: uint64)
    requires a.Valid() && b.Valid() && !a.HasZone() && !b.HasZone() && |p| == |q| == PEER_OCTETS
    requires Layout(a, p, v) == Layout(b, q, w)
    ensures a == b && p == q && v == w
  {
    assert BigEndian.Pow256(8) == Decimal.MAX_UINT64 + 1;
    BigEndian.GetPut(v, 8);
    BigEndian.GetPut(w, 8);
    LayoutParts(a, p, v);
    LayoutParts(b, q, w);
    hide BigEndian.Put, BigEndian.Get, Layout;
  }

  /** Two preimages are equal exactly when unmapped address, peer and window are. */
  lemma PreimageInjective(a: Address, p: seq<byte>, v: uint64, b: Address, q: seq<byte>, w: uint64)
    requires a.Valid() && b.Valid()
    requires Preimage(Some(a), p, v).Some? && Preimage(Some(b), q, w).Some?
    ensures Preimage(Some(a), p, v) == Preimage(Some(b), q, w) <==> a.Unmap() == b.Unmap() && p == q && v == w
  {
    if Preimage(Some(a), p, v) == Preimage(Some(b), q, w) {
      LayoutInjective(a.Unmap(), p, v, b.Unmap(), q, w);
    }
  }

  /** `mac` stands for HMAC-SHA-256 under the 32-octet signing key. */
  function DeriveCookie(mac: (seq<byte>, seq<byte>) -> seq<byte>, key: seq<byte>, source: Option<Address>,
                        peer: seq<byte>, window: uint64): Option<seq<byte>>
    requires source.Some? ==> source.value.Valid()
  {
    var preimage := Preimage(source, peer, window);
    if preimage.None? || |key| != KEY_OCTETS then None else Some(mac(key, preimage.value))
  }

  /**
    A cookie is derived exactly for a zone-free parsed address, a 32-octet peer and a
    32-octet key; equal cookies have equal inputs, unless the MAC collides on two
    different pairs of key and preimage.
   */
  lemma DeriveCookieExact(mac: (seq<byte>, seq<byte>) -> seq<byte>, key: seq<byte>, a: Address, p: seq<byte>, v: uint64,
                          other: seq<byte>, b: Address, q: seq<byte>, w: uint64)
    requires a.Valid() && b.Valid()
    ensures DeriveCookie(mac, key, Some(a), p, v).Some?
            <==> !a.HasZone() && |p| == PEER_OCTETS && |key| == KEY_OCTETS
    ensures DeriveCookie(mac, key, Some(a), p, v).Some?
            && DeriveCookie(mac, key, Some(a), p, v) == DeriveCookie(mac, other, Some(b), q, w) ==>
              (key == other && a.Unmap() == b.Unmap() && p == q && v == w)
              || var x, y := Preimage(Some(a), p, v).value, Preimage(Some(b), q, w).value;
                 (key, x) != (other, y) && mac(key, x) == mac(other, y)
  {
    if Preimage(Some(a), p, v).Some? && Preimage(Some(b), q, w).Some? {
      PreimageInjective(a, p, v, b, q, w);
    }
  }

  // ----- the challenge body

  function ChallengeBody(transactionId: uint64, cookie: seq<byte>): Option<string> {
    if |cookie| != COOKIE_OCTETS then None
    else Some("{\"trxId\":" + Decimal.Spell(transactionId) + ",\"cookie\":\"" + EncodePadded(cookie) + "\"}")
  }

  lemma {:induction false} CommaAfterDigits(d: string, e: string, s: string, t: string)
    requires Decimal.AllDigits(d) && Decimal.AllDigits(e)
    requires s != "" && t != "" && !Decimal.IsDigit(s[0]) && !Decimal.IsDigit(t[0])
    requires d + s == e + t
    ensures d == e && s == t
  {
    var u, v := d + s, e + t;
    assert u[0] == (if d == "" then s[0] else d[0]) && v[0] == (if e == "" then t[0] else e[0]);
    if d != "" && e != "" {
      assert d[1..] + s == u[1..] && e[1..] + t == v[1..];
      CommaAfterDigits(d[1..], e[1..], s, t);
      assert d == [d[0]] + d[1..] && e == [e[0]] + e[1..];
    } else {
      assert d == "" == e;
      assert u == s && v == t;
    }
  }

  /** A challenge body names one transaction and one cookie. */
  lemma ChallengeBodyInjective(i: uint64, c: seq<byte>, j: uint64, d: seq<byte>)
    requires |c| == |d| == COOKIE_OCTETS && ChallengeBody(i, c) == ChallengeBody(j, d)
    ensures i == j && c == d
  {
    hide Decimal.Spell, EncodePadded;
    var x, y := Decimal.Spell(i), Decimal.Spell(j);
    var s, t := ",\"cookie\":\"" + EncodePadded(c) + "\"}", ",\"cookie\":\"" + EncodePadded(d) + "\"}";
    var u, v := ChallengeBody(i, c).value, ChallengeBody(j, d).value;
    assert u == "{\"trxId\":" + (x + s) && v == "{\"trxId\":" + (y + t);
    assert x + s == u[9..] == v[9..] == y + t;
    CommaAfterDigits(x, y, s, t);
    Decimal.SpellInjective(i, j);
    assert EncodePadded(c) == s[11..55] == t[11..55] == EncodePadded(d);
    EncodePaddedInjective(c, d);
  }

  /** The sealed size of a challenge for a transaction. */
  function ChallengePacket(transactionId: uint64): (n: nat) {
    PACKET_OVERHEAD + 66 + |Decimal.Spell(transactionId)|
  }

  /** 322 octets and the decimal digits of the transaction, whatever the cookie; never more than 342. */
  lemma ChallengePacketSize(transactionId: uint64, cookie: seq<byte>)
    requires |cookie| == COOKIE_OCTETS
    ensures ChallengeBody(transactionId, cookie).Some?
    ensures PACKET_OVERHEAD + |ChallengeBody(transactionId, cookie).value| == ChallengePacket(transactionId)
    ensures ChallengePacket(transactionId) == 322 + |Decimal.Spell(transactionId)| <= 342
    ensures ChallengePacket(Decimal.MAX_UINT64) == 342
  {
    hide Decimal.Spell, EncodePadded;
    Decimal.TwentyDigits();
    Decimal.SpellLength(transactionId, 19);
    Decimal.SpellLength(Decimal.MAX_UINT64, 19);
  }
}
