/**
  CRC32C as software computes it, on one number whose lowest bit is the highest
  coefficient, and the proof that the checksum in a CRID is that number.
 */
module ReflectedCrc {
  import opened BitStream
  import opened OctetDigits
  import opened Crc32c
  import opened DigitNumbers
  import BigEndian
  import Crid

  const POLY := 0x82F6_3B78
  const MASK := 0xFFFF_FFFF

  /** Exclusive or of two numbers, bit by bit. */
  function Xor(a: nat, b: nat): nat
    decreases a + b
  {
    if a == 0 then b
    else if b == 0 then a
    else 2 * Xor(a / 2, b / 2) + if a % 2 == b % 2 then 0 else 1
  }

  function ShiftRight(c: nat, count: nat): nat
    decreases count
  {
    if count == 0 then c
    else ShiftRight(if c % 2 == 0 then c / 2 else Xor(c / 2, POLY), count - 1)
  }

  /** Each octet is added to the low end, and eight shifts take it in. */
  function Update(c: nat, p: seq<byte>): nat
    decreases |p|
  {
    if p == [] then c else Update(ShiftRight(Xor(c, p[0]), 8), p[1..])
  }

  function Crc(p: seq<byte>): nat {
    Xor(Update(MASK, p), MASK)
  }

  // ----- numbers and registers

  /** The number whose lowest bit comes first. */
  function Number(bits: seq<bool>): (n: nat)
    ensures n < Pow2(|bits|)
    decreases |bits|
  {
    if bits == [] then 0 else 2 * Number(bits[1..]) + if bits[0] then 1 else 0
  }

  function Differ(c: seq<bool>, d: seq<bool>): (e: seq<bool>)
    requires |c| == |d|
    ensures |e| == |c| && forall i :: 0 <= i < |c| ==> e[i] == (c[i] != d[i])
  {
    seq(|c|, i requires 0 <= i < |c| => c[i] != d[i])
  }

  lemma {:induction false} XorZero(a: nat)
    ensures Xor(a, 0) == a && Xor(0, a) == a
  {
  }

  lemma XorHalves(a: nat, b: nat)
    ensures Xor(a, b) == 2 * Xor(a / 2, b / 2) + if a % 2 == b % 2 then 0 else 1
  {
  }

  lemma {:induction false} XorNumbers(c: seq<bool>, d: seq<bool>)
    requires |c| == |d|
    ensures Xor(Number(c), Number(d)) == Number(Differ(c, d))
    decreases |c|
  {
    if c != [] {
      XorNumbers(c[1..], d[1..]);
      assert Differ(c, d)[1..] == Differ(c[1..], d[1..]);
      XorHalves(Number(c), Number(d));
      NumberHalf(c);
      NumberHalf(d);
      NumberHalf(Differ(c, d));
      hide Xor, Number;
    } else {
      XorZero(0);
    }
  }

  lemma {:induction false} NumberPadded(bits: seq<bool>, n: nat)
    ensures Number(bits + Zeros(n)) == Number(bits)
    decreases |bits| + n
  {
    var padded := bits + Zeros(n);
    if bits != [] {
      assert padded[1..] == bits[1..] + Zeros(n);
      NumberPadded(bits[1..], n);
    } else if n > 0 {
      assert padded[1..] == bits + Zeros(n - 1);
      NumberPadded(bits, n - 1);
    }
  }

  // ----- one shift is one step of the division

  lemma NumberOfFour(bits: seq<bool>, more: seq<bool>)
    requires |bits| == 4
    ensures Number(bits + more)
            == Bit(bits[0]) + 2 * Bit(bits[1]) + 4 * Bit(bits[2]) + 8 * Bit(bits[3]) + 16 * Number(more)
  {
    var all := bits + more;
    assert all[1..][1..] == all[2..] && all[2..][1..] == all[3..] && all[3..][1..] == more;
    assert Number(all[3..]) == Bit(bits[3]) + 2 * Number(more);
    assert Number(all[2..]) == Bit(bits[2]) + 2 * Number(all[3..]);
    assert Number(all[1..]) == Bit(bits[1]) + 2 * Number(all[2..]);
  }

  lemma NumberOfEight(b: seq<bool>, more: seq<bool>)
    requires |b| == 8
    ensures Number(b + more)
            == Bit(b[0]) + 2 * Bit(b[1]) + 4 * Bit(b[2]) + 8 * Bit(b[3])
               + 16 * Bit(b[4]) + 32 * Bit(b[5]) + 64 * Bit(b[6]) + 128 * Bit(b[7]) + 256 * Number(more)
  {
    hide Number;
    assert b + more == b[..4] + (b[4..] + more);
    NumberOfFour(b[..4], b[4..] + more);
    NumberOfFour(b[4..], more);
  }

  lemma NumberFrom(c: Register, from: nat)
    requires from + 8 <= 32
    ensures Number(c[from..])
            == Bit(c[from]) + 2 * Bit(c[from + 1]) + 4 * Bit(c[from + 2]) + 8 * Bit(c[from + 3])
               + 16 * Bit(c[from + 4]) + 32 * Bit(c[from + 5]) + 64 * Bit(c[from + 6]) + 128 * Bit(c[from + 7])
               + 256 * Number(c[from + 8..])
  {
    hide Number;
    assert c[from..] == c[from..from + 8] + c[from + 8..];
    NumberOfEight(c[from..from + 8], c[from + 8..]);
  }

  function GeneratorBits(): Register {
    seq(32, i requires 0 <= i < 32 => Generator(i))
  }

  function Weigh(from: nat): nat {
    Bit(Generator(from)) + 2 * Bit(Generator(from + 1)) + 4 * Bit(Generator(from + 2)) + 8 * Bit(Generator(from + 3))
    + 16 * Bit(Generator(from + 4)) + 32 * Bit(Generator(from + 5)) + 64 * Bit(Generator(from + 6))
    + 128 * Bit(Generator(from + 7))
  }

  lemma GeneratorOctets()
    ensures Weigh(24) == 0x82 && Weigh(16) == 0xF6 && Weigh(8) == 0x3B && Weigh(0) == 0x78
  {
  }

  lemma GeneratorFrom(from: nat)
    requires from + 8 <= 32
    ensures Number(GeneratorBits()[from..]) == Weigh(from) + 256 * Number(GeneratorBits()[from + 8..])
  {
    hide Number, Generator;
    NumberFrom(GeneratorBits(), from);
  }

  lemma GeneratorNumber()
    ensures Number(GeneratorBits()) == POLY
  {
    hide Number, Weigh, Generator, GeneratorBits;
    GeneratorOctets();
    assert GeneratorBits()[32..] == [] && GeneratorBits()[0..] == GeneratorBits();
    NumberOfNothing();
    GeneratorFrom(24);
    GeneratorFrom(16);
    GeneratorFrom(8);
    GeneratorFrom(0);
  }

  lemma NumberOfNothing()
    ensures Number([]) == 0
  {
  }

  lemma NumberHalf(c: seq<bool>)
    requires c != []
    ensures Number(c) / 2 == Number(c[1..]) && Number(c) % 2 == Bit(c[0])
  {
  }

  lemma NumberShift(c: Register)
    ensures Number(Shift(c, false)) == if Number(c) % 2 == 0 then Number(c) / 2 else Xor(Number(c) / 2, POLY)
  {
    hide Number, Xor;
    var half := c[1..] + Zeros(1);
    NumberHalf(c);
    NumberPadded(c[1..], 1);
    if c[0] {
      GeneratorNumber();
      XorNumbers(half, GeneratorBits());
      assert Shift(c, false) == Differ(half, GeneratorBits());
    } else {
      assert Shift(c, false) == half;
    }
  }

  lemma {:induction false} ShiftsAreDivision(c: Register, n: nat)
    ensures ShiftRight(Number(c), n) == Number(Divide(c, Zeros(n)))
    decreases n
  {
    hide Number, Shift;
    if n > 0 {
      NumberShift(c);
      ShiftsAreDivision(Shift(c, false), n - 1);
      assert Zeros(n)[1..] == Zeros(n - 1);
    }
  }

  // ----- a message is taken in at once, or bit by bit

  function Mixed(c: Register, m: seq<bool>): Register
    requires |m| <= 32
  {
    Differ(c, m + Zeros(32 - |m|))
  }

  lemma ShiftMixed(c: Register, m: seq<bool>)
    requires 0 < |m| <= 32
    ensures Shift(Mixed(c, m), false) == Mixed(Shift(c, m[0]), m[1..])
  {
  }

  lemma {:induction false} DivideMixed(c: Register, m: seq<bool>)
    requires |m| <= 32
    ensures Divide(Mixed(c, m), Zeros(|m|)) == Divide(c, m)
    decreases |m|
  {
    if m == [] {
      assert Mixed(c, m) == c;
    } else {
      ShiftMixed(c, m);
      DivideMixed(Shift(c, m[0]), m[1..]);
      assert Zeros(|m|)[1..] == Zeros(|m| - 1);
    }
  }

  lemma OctetNumber(b: byte)
    ensures Number(LowBitFirst(b)) == b
  {
    hide BitsOf, ValueOf, Number;
    NumberReversed(BitsOf(b, 8), LowBitFirst(b));
    assert Pow2(8) == 256;
    ValueOfBitsOf(b, 8);
  }

  lemma {:induction false} NumberReversed(bits: seq<bool>, d: seq<bool>)
    requires |bits| == |d| && forall i :: 0 <= i < |d| ==> d[i] == bits[|d| - 1 - i]
    ensures Number(d) == ValueOf(bits)
    decreases |d|
  {
    if d != [] {
      NumberReversed(bits[..|d| - 1], d[1..]);
    }
  }

  lemma OctetUpdate(c: Register, b: byte)
    ensures ShiftRight(Xor(Number(c), b), 8) == Number(Divide(c, LowBitFirst(b)))
  {
    var m := LowBitFirst(b);
    hide Number, Divide, Shift, ShiftRight, Xor, LowBitFirst;
    OctetNumber(b);
    NumberPadded(m, 24);
    XorNumbers(c, m + Zeros(24));
    ShiftsAreDivision(Mixed(c, m), 8);
    DivideMixed(c, m);
  }

  lemma {:induction false} UpdateIsDivision(c: Register, p: seq<byte>)
    ensures Update(Number(c), p) == Number(Divide(c, Message(p)))
    decreases |p|
  {
    if p == [] {
    } else {
      hide Number, Divide, ShiftRight, Xor, LowBitFirst;
      OctetUpdate(c, p[0]);
      UpdateIsDivision(Divide(c, LowBitFirst(p[0])), p[1..]);
      DivideConcat(c, LowBitFirst(p[0]), Message(p[1..]));
    }
  }

  // ----- the checksum

  lemma {:induction false} AllOnes(bits: seq<bool>)
    requires forall i :: 0 <= i < |bits| ==> bits[i]
    ensures Number(bits) == Pow2(|bits|) - 1
    decreases |bits|
  {
    if bits != [] {
      AllOnes(bits[1..]);
    }
  }

  lemma OnesNumber()
    ensures Number(Ones()) == MASK
  {
    hide Number, Pow2;
    MaskIsFull();
    AllOnes(Ones());
  }

  lemma MaskIsFull()
    ensures Pow2(32) == MASK + 1
  {
    hide Pow2;
    NoBits();
    NextOctet(0);
    NextOctet(8);
    NextOctet(16);
    NextOctet(24);
  }

  lemma CrcIsComplement(p: seq<byte>)
    ensures Crc(p) == Number(Differ(Remainder(p), Ones()))
  {
    OnesNumber();
    hide Number, Divide, Message, ShiftRight, Xor, Update;
    UpdateIsDivision(Ones(), p);
    XorNumbers(Remainder(p), Ones());
  }

  /** The four octets a CRID carries spell, high octet first, the CRC32C of its payload. */
  lemma ChecksumIsCrc(p: seq<byte>)
    ensures BigEndian.Get(Crid.ChecksumOctets(p)) == Crc(p)
  {
    hide Number, Divide, Message, Crc, Stream, ValueOf, Octets;
    CrcIsComplement(p);
    NumberReversed(Checksum(p), Differ(Remainder(p), Ones()));
    StreamOctets(Checksum(p), 4);
    BigEndianValue(Crid.ChecksumOctets(p));
  }
}
