/**
  The same shifts on 32-bit words, and with them answers that are known: the residue
  that every sealed payload leaves, and the first example of RFC 3720, B.4.
 */
module CrcWords {
  import opened BitStream
  import opened OctetDigits
  import opened Crc32c
  import opened DigitNumbers
  import opened ReflectedCrc
  import Crid

  /** The word with bit `i` set. */
  function Power(i: nat): bv32 {
    if i == 0 then 1 else Power(i - 1) << 1
  }

  predicate BitAt(v: bv32, i: nat) {
    v & Power(i) != 0
  }

  function Halve(v: bv32): bv32 {
    if v & 1 == 0 then v >> 1 else (v >> 1) ^ 0x82F6_3B78
  }

  function Eight(v: bv32): bv32 {
    Halve(Halve(Halve(Halve(Halve(Halve(Halve(Halve(v))))))))
  }

  /** The word and the register hold the same bits. */
  ghost predicate Spells(v: bv32, c: Register) {
    forall i :: 0 <= i < 32 ==> BitAt(v, i) == c[i]
  }

  // ----- single bits

  lemma {:induction false} OneBit(i: nat)
    ensures Power(i) & (Power(i) - 1) == 0
  {
    if i > 0 {
      OneBit(i - 1);
      Doubled32(Power(i - 1));
    }
  }

  lemma Doubled32(p: bv32)
    requires p & (p - 1) == 0
    ensures (p << 1) & ((p << 1) - 1) == 0
  {
  }

  lemma {:induction false} ZeroStays(i: nat, j: nat)
    requires Power(i) == 0 && i <= j
    ensures Power(j) == 0
  {
    if i < j {
      ZeroStays(i, j - 1);
    }
  }

  lemma Four(i: nat)
    ensures Power(i + 4) == Power(i) << 4
  {
    hide Power;
    Next(i);
    Next(i + 1);
    Next(i + 2);
    Next(i + 3);
  }

  lemma Next(i: nat)
    ensures Power(i + 1) == Power(i) << 1
  {
  }

  lemma Powers()
    ensures Power(0) == 1 && Power(4) == 0x10 && Power(8) == 0x100 && Power(12) == 0x1000 && Power(16) == 0x1_0000
    ensures Power(20) == 0x10_0000 && Power(24) == 0x100_0000 && Power(28) == 0x1000_0000
    ensures Power(31) == 0x8000_0000
  {
    Four(0);
    Four(4);
    Four(8);
    Four(12);
    Four(16);
    Four(20);
    Four(24);
    assert Power(29) == 0x2000_0000;
  }

  lemma TopClear(i: nat)
    requires i < 31
    ensures Power(i) & 0x8000_0000 == 0
  {
    OneBit(i);
    Powers();
    if Power(i + 1) == 0 {
      ZeroStays(i + 1, 31);
    }
    OnlyTop(Power(i));
  }

  lemma OnlyTop(p: bv32)
    requires p & (p - 1) == 0
    ensures p & 0x8000_0000 != 0 ==> p << 1 == 0
  {
  }

  // ----- the word follows the register

  lemma ShiftedBit(v: bv32, p: bv32)
    requires p & 0x8000_0000 == 0
    ensures (v >> 1) & p != 0 <==> v & (p << 1) != 0
  {
  }

  lemma MixedBit(v: bv32, w: bv32, p: bv32)
    requires p & (p - 1) == 0
    ensures ((v ^ w) & p != 0) == ((v & p != 0) != (w & p != 0))
  {
  }

  lemma GeneratorWord(i: nat)
    requires i < 32
    ensures BitAt(0x82F6_3B78, i) == Generator(i)
  {
    Powers();
    assert Power(1) == 2 && Power(2) == 4 && Power(3) == 8;
  }

  lemma HalveSpells(v: bv32, c: Register)
    requires Spells(v, c)
    ensures Spells(Halve(v), Shift(c, false))
  {
    hide BitAt, Generator, Halve;
    forall i | 0 <= i < 32 ensures BitAt(Halve(v), i) == Shift(c, false)[i] {
      HalvedWord(v, c, i);
    }
  }

  lemma HalvedWord(v: bv32, c: Register, i: nat)
    requires Spells(v, c) && i < 32
    ensures BitAt(Halve(v), i) == Shift(c, false)[i]
  {
    hide BitAt, Generator, Halve;
    assert BitAt(v, 0) == c[0];
    if i == 31 {
      TopBit(v);
    } else {
      HalvedBit(v, i);
      GeneratorWord(i);
      assert BitAt(v, i + 1) == c[i + 1];
    }
  }

  lemma HalvedBit(v: bv32, i: nat)
    requires i < 31
    ensures BitAt(Halve(v), i) == (BitAt(v, i + 1) != (BitAt(v, 0) && BitAt(0x82F6_3B78, i)))
  {
    hide *;
    TopClear(i);
    OneBit(i);
    HalvedAt(v, Power(i));
    BitIs(Halve(v), i);
    BitIs(0x82F6_3B78, i);
    BitAfter(v, i);
    LowBit(v);
  }

  lemma BitIs(v: bv32, i: nat)
    ensures BitAt(v, i) == (v & Power(i) != 0)
  {
  }

  lemma BitAfter(v: bv32, i: nat)
    ensures BitAt(v, i + 1) == (v & (Power(i) << 1) != 0)
  {
    hide Power;
    Next(i);
  }

  lemma LowBit(v: bv32)
    ensures BitAt(v, 0) == (v & 1 != 0)
  {
  }

  lemma HalvedAt(v: bv32, p: bv32)
    requires p & (p - 1) == 0 && p & 0x8000_0000 == 0
    ensures (Halve(v) & p != 0) == ((v & (p << 1) != 0) != (v & 1 != 0 && 0x82F6_3B78 & p != 0))
  {
    hide Halve;
    ShiftedBit(v, p);
    MixedBit(v >> 1, 0x82F6_3B78, p);
    HalveOf(v);
  }

  lemma HalveOf(v: bv32)
    ensures v & 1 == 0 ==> Halve(v) == v >> 1
    ensures v & 1 != 0 ==> Halve(v) == (v >> 1) ^ 0x82F6_3B78
  {
  }

  lemma TopBit(v: bv32)
    ensures BitAt(Halve(v), 31) == BitAt(v, 0)
  {
    hide Power;
    Powers();
  }

  lemma {:induction false} EightSpells(v: bv32, c: Register)
    requires Spells(v, c)
    ensures Spells(Eight(v), Divide(c, Zeros(8)))
  {
    var c1 := Shift(c, false);
    var c2 := Shift(c1, false);
    var c3 := Shift(c2, false);
    var c4 := Shift(c3, false);
    var c5 := Shift(c4, false);
    var c6 := Shift(c5, false);
    var c7 := Shift(c6, false);
    EightShifts(c);
    hide Spells, Shift, Halve, Divide;
    HalveSpells(v, c);
    HalveSpells(Halve(v), c1);
    HalveSpells(Halve(Halve(v)), c2);
    HalveSpells(Halve(Halve(Halve(v))), c3);
    HalveSpells(Halve(Halve(Halve(Halve(v)))), c4);
    HalveSpells(Halve(Halve(Halve(Halve(Halve(v))))), c5);
    HalveSpells(Halve(Halve(Halve(Halve(Halve(Halve(v)))))), c6);
    HalveSpells(Halve(Halve(Halve(Halve(Halve(Halve(Halve(v))))))), c7);
  }

  lemma EightShifts(c: Register)
    ensures var half := Shift(Shift(Shift(Shift(c, false), false), false), false);
            Divide(c, Zeros(8)) == Shift(Shift(Shift(Shift(half, false), false), false), false)
  {
    hide Shift;
    assert Zeros(8)[1..] == Zeros(7) && Zeros(7)[1..] == Zeros(6) && Zeros(6)[1..] == Zeros(5);
    assert Zeros(5)[1..] == Zeros(4) && Zeros(4)[1..] == Zeros(3) && Zeros(3)[1..] == Zeros(2);
    assert Zeros(2)[1..] == Zeros(1) && Zeros(1)[1..] == Zeros(0);
  }

  // ----- many octets of zeros

  function Eights(v: bv32, n: nat): bv32 {
    if n == 0 then v else Eight(Eights(v, n - 1))
  }

  lemma {:induction false} EightsSpell(v: bv32, c: Register, n: nat)
    requires Spells(v, c)
    ensures Spells(Eights(v, n), Divide(c, Zeros(8 * n)))
  {
    hide Spells, Eight, Divide;
    if n == 0 {
      NothingDivided(c);
    } else {
      EightsSpell(v, c, n - 1);
      EightSpells(Eights(v, n - 1), Divide(c, Zeros(8 * (n - 1))));
      DivideConcat(c, Zeros(8 * (n - 1)), Zeros(8));
      assert Zeros(8 * n) == Zeros(8 * (n - 1)) + Zeros(8);
    }
  }

  lemma NothingDivided(c: Register)
    ensures Divide(c, Zeros(0)) == c
  {
  }

  lemma FourMore(v: bv32, n: nat)
    ensures Eights(v, n + 4) == Eight(Eight(Eight(Eight(Eights(v, n)))))
  {
    hide Eight;
    assert Eights(v, n + 2) == Eight(Eight(Eights(v, n)));
  }

  lemma ResidueWord()
    ensures Eights(0xFFFF_FFFF, 4) == 0xB798_B438
  {
    FourMore(0xFFFF_FFFF, 0);
  }

  // ----- the number a word stands for

  predicate Low(v: bv32) {
    v & 1 != 0
  }

  function Shifted(v: bv32): bv32 {
    v >> 1
  }

  function WordNumber(v: bv32, n: nat): nat {
    if n == 0 then 0 else Bit(Low(v)) + 2 * WordNumber(Shifted(v), n - 1)
  }

  lemma BitBelow(v: bv32, i: nat)
    requires i < 31
    ensures BitAt(v >> 1, i) == BitAt(v, i + 1)
  {
    hide *;
    TopClear(i);
    ShiftedBit(v, Power(i));
    BitIs(v >> 1, i);
    BitAfter(v, i);
  }

  lemma {:induction false} SpelledBits(v: bv32, bits: seq<bool>)
    requires |bits| <= 32 && forall i :: 0 <= i < |bits| ==> BitAt(v, i) == bits[i]
    ensures Number(bits) == WordNumber(v, |bits|)
    decreases |bits|
  {
    hide BitAt;
    if bits != [] {
      LowBit(v);
      forall i | 0 <= i < |bits| - 1 ensures BitAt(v >> 1, i) == bits[1..][i] {
        BitBelow(v, i);
      }
      SpelledBits(v >> 1, bits[1..]);
    }
  }

  lemma SpelledNumber(v: bv32, c: Register)
    requires Spells(v, c)
    ensures Number(c) == WordNumber(v, 32)
  {
    hide BitAt, Number, WordNumber;
    SpelledBits(v, c);
  }

  lemma OneMore(v: bv32, n: nat)
    ensures WordNumber(v, n + 1) == Bit(Low(v)) + 2 * WordNumber(Shifted(v), n)
  {
  }

  function Nibble(v: bv32): nat {
    Bit(Low(v)) + 2 * Bit(Low(Shifted(v))) + 4 * Bit(Low(Shifted(Shifted(v))))
    + 8 * Bit(Low(Shifted(Shifted(Shifted(v)))))
  }

  /** The lowest hexadecimal digit of a word, and the others. */
  lemma Digit(v: bv32, higher: bv32, digit: nat, n: nat)
    requires higher == Shifted(Shifted(Shifted(Shifted(v)))) && Nibble(v) == digit
    ensures WordNumber(v, n + 4) == digit + 16 * WordNumber(higher, n)
  {
    hide WordNumber, Bit, Low, Shifted;
    OneMore(v, n + 3);
    OneMore(Shifted(v), n + 2);
    OneMore(Shifted(Shifted(v)), n + 1);
    OneMore(Shifted(Shifted(Shifted(v))), n);
  }

  lemma NoWord(v: bv32)
    ensures WordNumber(v, 0) == 0
  {
  }

  lemma ResidueNumber()
    ensures WordNumber(0x4867_4BC7, 32) == 0x4867_4BC7
  {
    hide WordNumber;
    NoWord(0);
    Digit(0x48674BC7, 0x48674BC, 7, 28);
    Digit(0x48674BC, 0x48674B, 12, 24);
    Digit(0x48674B, 0x48674, 11, 20);
    Digit(0x48674, 0x4867, 4, 16);
    Digit(0x4867, 0x486, 7, 12);
    Digit(0x486, 0x48, 6, 8);
    Digit(0x48, 0x4, 8, 4);
    Digit(0x4, 0x0, 4, 0);
  }

  lemma ZerosNumber()
    ensures WordNumber(0x8A91_36AA, 32) == 0x8A91_36AA
  {
    hide WordNumber;
    NoWord(0);
    Digit(0x8A9136AA, 0x8A9136A, 10, 28);
    Digit(0x8A9136A, 0x8A9136, 10, 24);
    Digit(0x8A9136, 0x8A913, 6, 20);
    Digit(0x8A913, 0x8A91, 3, 16);
    Digit(0x8A91, 0x8A9, 1, 12);
    Digit(0x8A9, 0x8A, 9, 8);
    Digit(0x8A, 0x8, 10, 4);
    Digit(0x8, 0x0, 8, 0);
  }

  // ----- answers that are known

  lemma Complemented(v: bv32, c: Register)
    requires Spells(v, c)
    ensures Spells(v ^ 0xFFFF_FFFF, Differ(c, Ones()))
  {
    hide BitAt, Ones;
    forall i | 0 <= i < 32 ensures BitAt(v ^ 0xFFFF_FFFF, i) == Differ(c, Ones())[i] {
      ComplementedBit(v, i);
      OnesAt(i);
    }
  }

  lemma OnesAt(i: nat)
    requires i < 32
    ensures Ones()[i]
  {
  }

  lemma ComplementedBit(v: bv32, i: nat)
    requires i < 32
    ensures BitAt(v ^ 0xFFFF_FFFF, i) == !BitAt(v, i) && BitAt(0xFFFF_FFFF, i)
  {
    OneBit(i);
    NotZero(i);
    hide Power;
    MixedBit(v, 0xFFFF_FFFF, Power(i));
  }

  lemma NotZero(i: nat)
    requires i < 32
    ensures Power(i) != 0
  {
    Powers();
    hide Power;
    if Power(i) == 0 {
      ZeroStays(i, 31);
    }
  }

  lemma OnesSpelled()
    ensures Spells(0xFFFF_FFFF, Ones())
  {
    hide BitAt, Ones;
    forall i | 0 <= i < 32 ensures BitAt(0xFFFF_FFFF, i) == Ones()[i] {
      ComplementedBit(0, i);
      OnesAt(i);
    }
  }

  /** A message that ends in the register a word spells has the word's complement as its CRC. */
  lemma CrcOfWord(p: seq<byte>, v: bv32)
    requires Spells(v, Remainder(p))
    ensures Crc(p) == WordNumber(v ^ 0xFFFF_FFFF, 32)
  {
    hide Number, Spells, Divide, Message, Update, Xor, WordNumber, Differ;
    Complemented(v, Remainder(p));
    SpelledNumber(v ^ 0xFFFF_FFFF, Differ(Remainder(p), Ones()));
    CrcIsComplement(p);
  }

  lemma {:induction false} ZeroMessage(n: nat)
    ensures Message(seq(n, _ => 0)) == Zeros(8 * n)
  {
    if n > 0 {
      var p: seq<byte> := seq(n, _ => 0);
      assert p[1..] == seq(n - 1, _ => 0);
      ZeroMessage(n - 1);
      assert LowBitFirst(0) == Zeros(8);
    }
  }

  /** Four octets of zeros from a known word to the next. */
  lemma FourFrom(n: nat, v: bv32, w: bv32)
    requires Eights(0xFFFF_FFFF, n) == v && Eight(Eight(Eight(Eight(v)))) == w
    ensures Eights(0xFFFF_FFFF, n + 4) == w
  {
    hide *;
    FourMore(0xFFFF_FFFF, n);
  }

  lemma ZerosWord()
    ensures Eights(0xFFFF_FFFF, 32) == 0x756E_C955
  {
    NoEights();
    hide Eights;
    FourFrom(0, 0xFFFF_FFFF, 0xB798_B438);
    FourFrom(4, 0xB798_B438, 0x73D7_4D75);
    FourFrom(8, 0x73D7_4D75, 0xD49F_4AA2);
    FourFrom(12, 0xD49F_4AA2, 0xBD8F_6515);
    FourFrom(16, 0xBD8F_6515, 0x433A_A9C1);
    FourFrom(20, 0x433A_A9C1, 0x7B04_1311);
    FourFrom(24, 0x7B04_1311, 0x0836_3896);
    FourFrom(28, 0x0836_3896, 0x756E_C955);
  }

  lemma NoEights()
    ensures Eights(0xFFFF_FFFF, 0) == 0xFFFF_FFFF
  {
  }

  /** The 32 octets of zeros of RFC 3720, B.4. */
  lemma ThirtyTwoZeros()
    ensures Crc(seq(32, _ => 0)) == 0x8A91_36AA
  {
    hide Crc, Spells, Eights, Divide, Message, WordNumber;
    ZeroMessage(32);
    OnesSpelled();
    EightsSpell(0xFFFF_FFFF, Ones(), 32);
    ZerosWord();
    CrcOfWord(seq(32, _ => 0), 0x756E_C955);
    ZerosNumber();
  }

  // ----- the residue

  /** The checksum octets as they would be sent behind the payload. */
  function LowestFirst(octets: seq<byte>): (sent: seq<byte>)
    ensures |sent| == |octets|
  {
    if octets == [] then [] else LowestFirst(octets[1..]) + [octets[0]]
  }

  lemma {:induction false} LowestFirstBits(octets: seq<byte>)
    ensures Mirrored(Message(LowestFirst(octets)), Stream(octets, 8))
  {
    if octets != [] {
      LowestFirstBits(octets[1..]);
      MessageConcat(LowestFirst(octets[1..]), [octets[0]]);
      MessageOfOne(octets[0]);
      OctetMirrored(octets[0]);
      assert Stream(octets, 8) == BitsOf(octets[0], 8) + Stream(octets[1..], 8);
      hide *;
      MirroredConcat(Message(LowestFirst(octets[1..])), LowBitFirst(octets[0]), BitsOf(octets[0], 8),
                     Stream(octets[1..], 8));
    }
  }

  ghost predicate Mirrored(a: seq<bool>, b: seq<bool>) {
    |a| == |b| && forall i :: 0 <= i < |a| ==> a[i] == b[|a| - 1 - i]
  }

  lemma OctetMirrored(b: byte)
    ensures Mirrored(LowBitFirst(b), BitsOf(b, 8))
  {
    hide BitsOf;
  }

  lemma MirroredConcat(a: seq<bool>, b: seq<bool>, c: seq<bool>, d: seq<bool>)
    requires Mirrored(a, d) && Mirrored(b, c)
    ensures Mirrored(a + b, c + d)
  {
  }

  lemma MixedToOnes(c: Register, m: seq<bool>)
    requires |m| == 32 && forall i :: 0 <= i < 32 ==> m[i] == !c[i]
    ensures Divide(c, m) == Divide(Ones(), Zeros(32))
  {
    DivideMixed(c, m);
    assert Mixed(c, m) == Ones();
  }

  lemma SealedRemainder(p: seq<byte>)
    ensures Remainder(p + LowestFirst(Crid.ChecksumOctets(p))) == Divide(Ones(), Zeros(32))
  {
    var octets := Crid.ChecksumOctets(p);
    hide Message, Divide, Stream, Octets, LowestFirst;
    StreamOctets(Checksum(p), 4);
    LowestFirstBits(octets);
    MessageConcat(p, LowestFirst(octets));
    DivideConcat(Ones(), Message(p), Message(LowestFirst(octets)));
    forall i | 0 <= i < 32 ensures Message(LowestFirst(octets))[i] == !Remainder(p)[i] {
      assert Stream(octets, 8)[31 - i] == Checksum(p)[31 - i];
    }
    MixedToOnes(Remainder(p), Message(LowestFirst(octets)));
  }

  /** A payload with its checksum behind it, lowest octet first, has the same CRC whatever the payload. */
  lemma Residue(p: seq<byte>)
    ensures Crc(p + LowestFirst(Crid.ChecksumOctets(p))) == 0x4867_4BC7
  {
    hide Crc, Spells, Eights, Remainder, WordNumber, LowestFirst, Divide;
    SealedRemainder(p);
    OnesSpelled();
    EightsSpell(0xFFFF_FFFF, Ones(), 4);
    ResidueWord();
    CrcOfWord(p + LowestFirst(Crid.ChecksumOctets(p)), 0xB798_B438);
    ResidueNumber();
  }
}
