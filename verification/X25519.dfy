/** The test that a 32-octet u-coordinate is reduced, as section 5 of RFC 7748 reads it. */
module X25519 {
  import opened BitStream
  import opened BigEndian

  function LittleEndian(octets: seq<byte>): nat {
    if octets == [] then 0 else octets[0] + 256 * LittleEndian(octets[1..])
  }

  /** 2^255 - 19. */
  function FieldPrime(): int {
    Pow2(255) - 19
  }

  lemma {:induction false} TopOctet(octets: seq<byte>)
    requires octets != []
    ensures var n := |octets| - 1;
            LittleEndian(octets) == LittleEndian(octets[..n]) + Pow256(n) * octets[n]
  {
    var n := |octets| - 1;
    if n == 0 {
      assert octets[1..] == [] && octets[..0] == [];
    } else {
      TopOctet(octets[1..]);
      assert octets[1..][..n - 1] == octets[..n][1..];
      var inner := LittleEndian(octets[..n][1..]);
      assert 256 * (inner + Pow256(n - 1) * octets[n]) == 256 * inner + 256 * Pow256(n - 1) * octets[n];
    }
  }

  lemma {:induction false} BelowPower(octets: seq<byte>)
    ensures LittleEndian(octets) < Pow256(|octets|)
  {
    if octets != [] {
      BelowPower(octets[1..]);
    }
  }

  lemma FourBits(e: nat)
    ensures Pow2(e + 4) == 16 * Pow2(e)
  {
    assert Pow2(e + 4) == 2 * Pow2(e + 3);
    assert Pow2(e + 2) == 2 * Pow2(e + 1);
  }

  lemma {:induction false} Pow256IsPow2(k: nat)
    ensures Pow2(8 * k) == Pow256(k)
  {
    if k > 0 {
      Pow256IsPow2(k - 1);
      FourBits(8 * (k - 1));
      FourBits(8 * (k - 1) + 4);
    }
  }

  lemma FieldPrimeOctets()
    ensures FieldPrime() == 0x80 * Pow256(31) - 19
  {
    Pow256IsPow2(31);
    hide Pow256;
    FourBits(248);
    assert Pow2(254) == 4 * Pow2(252);
    assert Pow2(255) == 2 * Pow2(254);
  }

  ghost predicate AllOnesAbove(octets: seq<byte>) {
    forall i :: 1 <= i < |octets| ==> octets[i] == 0xFF
  }

  /** Within 19 of the next power: every octet but the lowest is full, and the lowest is 0xed or more. */
  lemma {:induction false} NearTop(octets: seq<byte>)
    requires octets != []
    ensures LittleEndian(octets) >= Pow256(|octets|) - 19 <==> AllOnesAbove(octets) && octets[0] >= 0xED
  {
    var n := |octets| - 1;
    var low := octets[..n];
    TopOctet(octets);
    if n == 0 {
      assert low == [] && Pow256(1) == 256 && Pow256(0) == 1;
    } else {
      BelowPower(low);
      NearTop(low);
      FullTop(Pow256(n), octets[n], LittleEndian(low));
      assert Pow256(n) >= 256;
      assert AllOnesAbove(octets) <==> AllOnesAbove(low) && octets[n] == 0xFF;
    }
  }

  lemma FullTop(power: nat, top: byte, low: nat)
    requires power >= 256 && low < power
    ensures low + power * top >= 256 * power - 19 <==> top == 0xFF && low >= power - 19
  {
    if top < 0xFF {
      assert power * top <= power * 0xFE;
    }
  }

  /** The comparison octet by octet, from the top. */
  lemma BelowPrime(raw: seq<byte>)
    requires |raw| == 32
    ensures LittleEndian(raw) < FieldPrime()
            <==> raw[31] < 0x7F || (raw[31] == 0x7F && !(AllOnesAbove(raw[..31]) && raw[0] >= 0xED))
  {
    hide *;
    TopOctet(raw);
    BelowPower(raw[..31]);
    FieldPrimeOctets();
    NearTop(raw[..31]);
    if raw[31] == 0x7F {
      assert LittleEndian(raw) == LittleEndian(raw[..31]) + 0x7F * Pow256(31);
    } else {
      Pow256Big();
      OtherTop(Pow256(31), raw[31], LittleEndian(raw[..31]));
    }
  }

  lemma Pow256Big()
    ensures Pow256(31) >= 256
  {
    assert Pow256(31) == 256 * Pow256(30);
  }

  lemma OtherTop(power: nat, top: byte, low: nat)
    requires power >= 256 && low < power && top != 0x7F
    ensures low + power * top < 0x80 * power - 19 <==> top < 0x7F
  {
    if top < 0x7F {
      assert power * top <= power * 0x7E;
    } else {
      assert power * top >= power * 0x80;
    }
  }

  method IsCanonicalU(raw: seq<byte>) returns (canonical: bool)
    requires |raw| == 32
    ensures canonical <==> LittleEndian(raw) < FieldPrime()
  {
    BelowPrime(raw);
    hide LittleEndian, FieldPrime;
    if raw[31] != 0x7F {
      return raw[31] < 0x7F;
    }
    var index := 30;
    while index >= 1
      invariant 0 <= index <= 30
      invariant forall i :: index < i < 31 ==> raw[i] == 0xFF
    {
      if raw[index] != 0xFF {
        assert raw[..31][index] != 0xFF;
        return true;
      }
      index := index - 1;
    }
    assert AllOnesAbove(raw[..31]);
    return raw[0] < 0xED;
  }
}
