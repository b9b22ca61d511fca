/**
  CRC32C, the Castagnoli checksum of section 12.1 of RFC 3720: the remainder of
  polynomial division, with the bits of each octet taken least significant first,
  the register starting at all ones and the remainder complemented and written in
  reversed bit order.
 */
module Crc32c {
  import opened BitStream

  /** Position `i` of the generator, x^31 first; x^32 is implicit. */
  predicate Generator(i: int) {
    31 - i in {28, 27, 26, 25, 23, 22, 20, 19, 18, 14, 13, 11, 10, 9, 8, 6, 0}
  }

  type Register = c: seq<bool> | |c| == 32 witness seq(32, _ => true)

  function Ones(): Register { seq(32, _ => true) }

  /** One step of the division: multiply by x, add the message bit times x^32, reduce. */
  function Shift(c: Register, bit: bool): (r: Register)
    ensures r[31] == (c[0] != bit)
    ensures forall i :: 0 <= i < 31 ==> r[i] == (c[i + 1] != (r[31] && Generator(i)))
  {
    var carry := c[0] != bit;
    seq(32, i requires 0 <= i < 32 => if i == 31 then carry else c[i + 1] != (carry && Generator(i)))
  }

  function Divide(c: Register, message: seq<bool>): Register
    decreases |message|
  {
    if message == [] then c else Divide(Shift(c, message[0]), message[1..])
  }

  function LowBitFirst(b: byte): (bits: seq<bool>)
    ensures |bits| == 8
  {
    var s := BitsOf(b, 8);
    [s[7], s[6], s[5], s[4], s[3], s[2], s[1], s[0]]
  }

  function Message(p: seq<byte>): (bits: seq<bool>)
    ensures |bits| == 8 * |p|
  {
    if p == [] then [] else LowBitFirst(p[0]) + Message(p[1..])
  }

  function Remainder(p: seq<byte>): Register {
    Divide(Ones(), Message(p))
  }

  /** The checksum as the bit string of its big-endian spelling. */
  function Checksum(p: seq<byte>): (bits: seq<bool>)
    ensures |bits| == 32
  {
    var c := Remainder(p);
    seq(32, i requires 0 <= i < 32 => !c[31 - i])
  }

  lemma ChecksumDeterminesRemainder(p: seq<byte>, q: seq<byte>)
    requires Checksum(p) == Checksum(q)
    ensures Remainder(p) == Remainder(q)
  {
    forall i | 0 <= i < 32 ensures Remainder(p)[i] == Remainder(q)[i] {
      assert Checksum(p)[31 - i] == Checksum(q)[31 - i];
    }
  }

  lemma LowBitFirstInjective(a: byte, b: byte)
    requires LowBitFirst(a) == LowBitFirst(b)
    ensures a == b
  {
    var s, t := LowBitFirst(a), LowBitFirst(b);
    assert BitsOf(a, 8) == [s[7], s[6], s[5], s[4], s[3], s[2], s[1], s[0]];
    assert BitsOf(b, 8) == [t[7], t[6], t[5], t[4], t[3], t[2], t[1], t[0]];
    assert Pow2(8) == 256;
    ValueOfBitsOf(a, 8);
    ValueOfBitsOf(b, 8);
  }

  lemma {:induction false} MessageInjective(p: seq<byte>, q: seq<byte>)
    requires Message(p) == Message(q)
    ensures p == q
  {
    assert |p| == |q|;
    if p != [] {
      assert Message(p)[..8] == LowBitFirst(p[0]) && Message(p)[8..] == Message(p[1..]);
      assert Message(q)[..8] == LowBitFirst(q[0]) && Message(q)[8..] == Message(q[1..]);
      LowBitFirstInjective(p[0], q[0]);
      MessageInjective(p[1..], q[1..]);
    }
  }

  lemma MessageOfOne(b: byte)
    ensures Message([b]) == LowBitFirst(b)
  {
    assert [b][1..] == [];
  }

  lemma {:induction false} MessageConcat(p: seq<byte>, q: seq<byte>)
    ensures Message(p + q) == Message(p) + Message(q)
  {
    hide LowBitFirst;
    if p == [] {
      assert p + q == q;
    } else {
      MessageConcat(p[1..], q);
      MessageCons(p[0], p[1..]);
      MessageCons(p[0], p[1..] + q);
      hide Message;
      assert p == [p[0]] + p[1..] && p + q == [p[0]] + (p[1..] + q);
      assert LowBitFirst(p[0]) + (Message(p[1..]) + Message(q)) == LowBitFirst(p[0]) + Message(p[1..]) + Message(q);
    }
  }

  lemma MessageCons(b: byte, p: seq<byte>)
    ensures Message([b] + p) == LowBitFirst(b) + Message(p)
  {
    assert ([b] + p)[1..] == p;
  }

  lemma {:induction false} DivideConcat(c: Register, m: seq<bool>, n: seq<bool>)
    ensures Divide(c, m + n) == Divide(Divide(c, m), n)
    decreases |m|
  {
    if m == [] {
      assert m + n == n;
    } else {
      assert (m + n)[1..] == m[1..] + n;
      DivideConcat(Shift(c, m[0]), m[1..], n);
    }
  }

  // ----- running the division backwards

  ghost predicate AgreeFrom(c: Register, d: Register, j: nat) {
    forall i :: j <= i < 32 ==> c[i] == d[i]
  }

  /** Registers that agree after a step agreed before it, one position further up. */
  lemma UnshiftAgrees(c: Register, d: Register, a: bool, b: bool, j: nat)
    requires j < 32 && AgreeFrom(Shift(c, a), Shift(d, b), j)
    ensures AgreeFrom(c, d, j + 1) && (c[0] != a) == (d[0] != b)
  {
    var c', d' := Shift(c, a), Shift(d, b);
    assert c'[31] == d'[31];
    forall i | j + 1 <= i < 32 ensures c[i] == d[i] {
      assert c'[i - 1] == d'[i - 1];
    }
  }

  lemma {:induction false} UndivideAgrees(c: Register, d: Register, m: seq<bool>, n: seq<bool>)
    requires |m| == |n| <= 32 && Divide(c, m) == Divide(d, n)
    ensures AgreeFrom(c, d, |m|)
    decreases |m|
  {
    if m != [] {
      UndivideAgrees(Shift(c, m[0]), Shift(d, n[0]), m[1..], n[1..]);
      UnshiftAgrees(c, d, m[0], n[0], |m| - 1);
    }
  }

  /** From one register, at most 32 bits are determined by the register they lead to. */
  lemma {:induction false} ShortMessageDetermined(c: Register, m: seq<bool>, n: seq<bool>)
    requires |m| == |n| <= 32 && Divide(c, m) == Divide(c, n)
    ensures m == n
    decreases |m|
  {
    if m != [] {
      UndivideAgrees(Shift(c, m[0]), Shift(c, n[0]), m[1..], n[1..]);
      UnshiftAgrees(c, c, m[0], n[0], |m| - 1);
      ShortMessageDetermined(Shift(c, m[0]), m[1..], n[1..]);
    }
  }

  lemma {:induction false} DivideInjective(c: Register, d: Register, m: seq<bool>)
    requires Divide(c, m) == Divide(d, m)
    ensures c == d
    decreases |m|
  {
    if m != [] {
      DivideInjective(Shift(c, m[0]), Shift(d, m[0]), m[1..]);
      UnshiftAgrees(c, d, m[0], m[0], 0);
      forall i | 0 <= i < 32 ensures c[i] == d[i] {}
    }
  }

  // ----- burst detection

  ghost predicate DifferOnlyIn<T>(p: seq<T>, q: seq<T>, lo: nat, hi: nat) {
    |p| == |q| && forall i :: 0 <= i < |p| && !(lo <= i < hi) ==> p[i] == q[i]
  }

  lemma MiddleDetermined(c: Register, head: seq<bool>, u: seq<bool>, v: seq<bool>, tail: seq<bool>)
    requires |u| == |v| <= 32 && Divide(c, head + u + tail) == Divide(c, head + v + tail)
    ensures u == v
  {
    DivideConcat(c, head + u, tail);
    DivideConcat(c, head + v, tail);
    DivideConcat(c, head, u);
    DivideConcat(c, head, v);
    var d := Divide(c, head);
    DivideInjective(Divide(d, u), Divide(d, v), tail);
    ShortMessageDetermined(d, u, v);
  }

  lemma Splice<T>(p: seq<T>, q: seq<T>, lo: nat, hi: nat)
    requires lo <= hi <= |p| && DifferOnlyIn(p, q, lo, hi)
    ensures p == p[..lo] + p[lo..hi] + p[hi..]
    ensures q == p[..lo] + q[lo..hi] + p[hi..]
  {
  }

  /** Every change confined to 32 consecutive bits, as the division takes them, changes the checksum. */
  lemma BitBurstDetected(p: seq<byte>, q: seq<byte>, k: nat)
    requires DifferOnlyIn(Message(p), Message(q), k, k + 32) && p != q
    ensures Checksum(p) != Checksum(q)
  {
    hide Message, Divide;
    if Checksum(p) == Checksum(q) {
      ChecksumDeterminesRemainder(p, q);
      var m, n := Message(p), Message(q);
      var lo := if k <= |m| then k else |m|;
      var hi := if k + 32 <= |m| then k + 32 else |m|;
      Splice(m, n, lo, hi);
      MiddleDetermined(Ones(), m[..lo], m[lo..hi], n[lo..hi], m[hi..]);
      MessageInjective(p, q);
    }
  }

  lemma MessageBurst(head: seq<byte>, u: seq<byte>, v: seq<byte>, tail: seq<byte>)
    requires |u| == |v| <= 4
    ensures DifferOnlyIn(Message(head + u + tail), Message(head + v + tail), 8 * |head|, 8 * |head| + 32)
  {
    hide Message;
    MessageConcat(head + u, tail);
    MessageConcat(head, u);
    MessageConcat(head + v, tail);
    MessageConcat(head, v);
  }

  /** In particular every change confined to four consecutive octets. */
  lemma BurstDetected(p: seq<byte>, q: seq<byte>, k: nat)
    requires DifferOnlyIn(p, q, k, k + 4) && p != q
    ensures Checksum(p) != Checksum(q)
  {
    hide Message, Checksum;
    var lo := if k <= |p| then k else |p|;
    var hi := if k + 4 <= |p| then k + 4 else |p|;
    Splice(p, q, lo, hi);
    MessageBurst(p[..lo], p[lo..hi], q[lo..hi], p[hi..]);
    BitBurstDetected(p, q, 8 * lo);
  }

  // ----- the character that straddles payload and checksum

  /** The register after the first `k` bits. */
  function After(c: Register, m: seq<bool>, k: nat): Register
    requires k <= |m|
  {
    Divide(c, m[..k])
  }

  lemma AfterNext(c: Register, m: seq<bool>, k: nat)
    requires k < |m|
    ensures After(c, m, k + 1) == Shift(After(c, m, k), m[k])
  {
    assert m[..k + 1] == m[..k] + [m[k]];
    DivideConcat(c, m[..k], [m[k]]);
  }

  /**
    Octets that agree in their high four bits cannot lead from one register to two
    that differ in x^0 alone.
   */
  lemma LowNibbleNeverFlipsOnlyTheEnd(c: Register, m: seq<bool>, n: seq<bool>)
    requires |m| == |n| == 8 && forall i :: 4 <= i < 8 ==> m[i] == n[i]
    requires forall i :: 0 <= i < 31 ==> Divide(c, m)[i] == Divide(c, n)[i]
    ensures Divide(c, m) == Divide(c, n)
  {
    hide Shift, Divide, Generator;
    if Divide(c, m)[31] != Divide(c, n)[31] {
      var s := States(c, m);
      var t := States(c, n);
      UndoEnd(s[4..], t[4..], m[4], m[5], m[6], m[7]);
      UndoStart(c, s[..5], t[..5], m[..4], n[..4]);
    }
    forall i | 0 <= i < 32 ensures Divide(c, m)[i] == Divide(c, n)[i] {}
  }

  lemma States(c: Register, m: seq<bool>) returns (s: seq<Register>)
    requires |m| == 8
    ensures |s| == 9 && s[0] == c && s[8] == Divide(c, m)
    ensures s[1] == Shift(s[0], m[0]) && s[2] == Shift(s[1], m[1]) && s[3] == Shift(s[2], m[2])
            && s[4] == Shift(s[3], m[3])
    ensures s[5] == Shift(s[4], m[4]) && s[6] == Shift(s[5], m[5]) && s[7] == Shift(s[6], m[6])
            && s[8] == Shift(s[7], m[7])
  {
    s := seq(9, k requires 0 <= k <= 8 => After(c, m, k));
    assert m[..8] == m;
    forall k | 0 <= k < 8 ensures s[k + 1] == Shift(s[k], m[k]) {
      AfterNext(c, m, k);
    }
  }

  lemma GeneratorEnd()
    ensures !Generator(0) && Generator(25) && !Generator(26)
    ensures !Generator(27) && !Generator(28) && !Generator(29) && !Generator(30)
  {
  }

  /** Undoing four equal bits spreads a difference in x^0 into the generator, moved by three. */
  lemma UndoEnd(s: seq<Register>, t: seq<Register>, m0: bool, m1: bool, m2: bool, m3: bool)
    requires |s| == |t| == 5
    requires s[1] == Shift(s[0], m0) && s[2] == Shift(s[1], m1) && s[3] == Shift(s[2], m2) && s[4] == Shift(s[3], m3)
    requires t[1] == Shift(t[0], m0) && t[2] == Shift(t[1], m1) && t[3] == Shift(t[2], m2) && t[4] == Shift(t[3], m3)
    requires s[4][31] != t[4][31] && forall i :: 0 <= i < 31 ==> s[4][i] == t[4][i]
    ensures s[0][3] != t[0][3] && s[0][4] == t[0][4]
    ensures s[0][29] != t[0][29] && s[0][30] == t[0][30] && s[0][31] == t[0][31]
  {
    GeneratorEnd();
    hide Generator;
    var p, q := s[3], t[3];
    forall i | 0 <= i < 31 ensures (p[i + 1] != q[i + 1]) == Generator(i) {
      assert s[4][i] == t[4][i];
    }
    assert p[0] != q[0] && p[1] == q[1] && p[26] != q[26];
    assert p[27] == q[27] && p[28] == q[28] && p[29] == q[29] && p[30] == q[30] && p[31] == q[31];
    UndoPlain(s[2], t[2], m2, m2);
    assert s[2][1] != t[2][1] && s[2][2] == t[2][2] && s[2][27] != t[2][27];
    assert s[2][28] == t[2][28] && s[2][29] == t[2][29] && s[2][30] == t[2][30] && s[2][31] == t[2][31];
    UndoPlain(s[1], t[1], m1, m1);
    assert s[1][2] != t[1][2] && s[1][3] == t[1][3] && s[1][28] != t[1][28];
    assert s[1][29] == t[1][29] && s[1][30] == t[1][30] && s[1][31] == t[1][31];
    UndoPlain(s[0], t[0], m0, m0);
  }

  /** Four bits from one register make no such difference. */
  lemma UndoStart(c: Register, s: seq<Register>, t: seq<Register>, m: seq<bool>, n: seq<bool>)
    requires |s| == |t| == 5 && |m| == |n| == 4 && s[0] == c == t[0]
    requires s[1] == Shift(s[0], m[0]) && s[2] == Shift(s[1], m[1]) && s[3] == Shift(s[2], m[2])
            && s[4] == Shift(s[3], m[3])
    requires t[1] == Shift(t[0], n[0]) && t[2] == Shift(t[1], n[1]) && t[3] == Shift(t[2], n[2])
            && t[4] == Shift(t[3], n[3])
    requires s[4][3] != t[4][3]
    requires s[4][29] != t[4][29] && s[4][30] == t[4][30] && s[4][31] == t[4][31]
    ensures s[4][4] != t[4][4]
  {
    UndoMiddle(s[2], t[2], s[3], t[3], m[2], n[2], m[3], n[3]);
    FirstTwo(c, s[1], t[1], s[2], t[2], m[0], n[0], m[1], n[1]);
  }

  lemma UndoMiddle(s: Register, t: Register, s': Register, t': Register, a: bool, b: bool, a': bool, b': bool)
    requires s' == Shift(s, a) && t' == Shift(t, b)
    requires Shift(s', a')[3] != Shift(t', b')[3]
    requires Shift(s', a')[29] != Shift(t', b')[29]
    requires Shift(s', a')[30] == Shift(t', b')[30] && Shift(s', a')[31] == Shift(t', b')[31]
    ensures s[5] != t[5] && s[31] != t[31]
    ensures (s[6] != t[6]) == (Shift(s', a')[4] != Shift(t', b')[4])
  {
    UndoPlain(s', t', a', b');
    assert s'[4] != t'[4] && s'[30] != t'[30] && s'[31] == t'[31];
    UndoPlain(s, t, a, b);
  }

  lemma FirstTwo(c: Register, s: Register, t: Register, s': Register, t': Register,
                 a: bool, b: bool, a': bool, b': bool)
    requires s == Shift(c, a) && t == Shift(c, b) && s' == Shift(s, a') && t' == Shift(t, b')
    requires s'[31] != t'[31] && s'[5] != t'[5]
    ensures s'[6] != t'[6]
  {
    assert Generator(5) && Generator(6);
    assert (s'[5] != t'[5]) == ((s[6] != t[6]) != true);
    assert (s[6] != t[6]) == (a != b);
    assert (s'[6] != t'[6]) == ((s[7] != t[7]) != true);
  }

  /** A step whose results agree in x^0 only moved the difference. */
  lemma UndoPlain(c: Register, d: Register, a: bool, b: bool)
    requires Shift(c, a)[31] == Shift(d, b)[31]
    ensures forall i :: 0 <= i < 31 ==> (c[i + 1] != d[i + 1]) == (Shift(c, a)[i] != Shift(d, b)[i])
    ensures (c[0] != d[0]) == (a != b)
  {
  }
}
