/** Canonical decimal numerals, as strconv formats and strictly parses them. */
module Decimal {
  const MAX_UINT64 := 0xFFFF_FFFF_FFFF_FFFF

  predicate IsDigit(c: char) {
    '0' <= c <= '9'
  }

  predicate AllDigits(s: string) {
    forall i :: 0 <= i < |s| ==> IsDigit(s[i])
  }

  function DigitOf(c: char): (d: nat)
    requires IsDigit(c)
    ensures d < 10
  {
    (c - '0') as nat
  }

  function Spell(n: nat): (s: string)
    ensures |s| > 0 && AllDigits(s)
    ensures s[0] == '0' <==> n == 0
  {
    if n < 10 then ['0' + n as char] else Spell(n / 10) + ['0' + (n % 10) as char]
  }

  function Value(s: string): (n: nat)
    requires AllDigits(s)
  {
    if s == "" then 0 else 10 * Value(s[..|s| - 1]) + DigitOf(s[|s| - 1])
  }

  lemma FourDigits(s: string)
    requires AllDigits(s) && |s| == 4
    ensures Value(s) == 1000 * DigitOf(s[0]) + 100 * DigitOf(s[1]) + 10 * DigitOf(s[2]) + DigitOf(s[3])
  {
    assert s[..3][..2] == s[..2] && s[..2][..1] == s[..1] && s[..1][..0] == "";
    assert Value(s[..1]) == DigitOf(s[0]);
    assert Value(s[..2]) == 10 * Value(s[..1]) + DigitOf(s[1]);
    assert Value(s[..3]) == 10 * Value(s[..2]) + DigitOf(s[2]);
  }

  lemma FourMore(s: string, t: string)
    requires AllDigits(s) && AllDigits(t) && |t| == 4
    ensures Value(s + t) == 10_000 * Value(s) + 1000 * DigitOf(t[0]) + 100 * DigitOf(t[1]) + 10 * DigitOf(t[2])
            + DigitOf(t[3])
  {
    var n, u := |s|, s + t;
    assert u[..n + 3][..n + 2] == u[..n + 2] && u[..n + 2][..n + 1] == u[..n + 1] && u[..n + 1][..n] == s;
    assert Value(u[..n + 1]) == 10 * Value(s) + DigitOf(t[0]);
    assert Value(u[..n + 2]) == 10 * Value(u[..n + 1]) + DigitOf(t[1]);
    assert Value(u[..n + 3]) == 10 * Value(u[..n + 2]) + DigitOf(t[2]);
  }

  lemma {:induction false} ValueOfSpell(n: nat)
    ensures Value(Spell(n)) == n
  {
    var s := Spell(n);
    if n < 10 {
      assert s[..0] == "";
    } else {
      ValueOfSpell(n / 10);
      assert s[..|s| - 1] == Spell(n / 10);
    }
  }

  lemma {:induction false} ValuePositive(s: string)
    requires AllDigits(s) && s != "" && s[0] != '0'
    ensures Value(s) > 0
  {
    if |s| > 1 {
      ValuePositive(s[..|s| - 1]);
    }
  }

  lemma SpellMore(n: nat, c: char)
    requires IsDigit(c)
    ensures Spell(10 * n + DigitOf(c)) == if n == 0 then [c] else Spell(n) + [c]
  {
    assert '0' + DigitOf(c) as char == c;
    assert (10 * n + DigitOf(c)) / 10 == n && (10 * n + DigitOf(c)) % 10 == DigitOf(c);
  }

  lemma {:induction false} SpellOfValue(s: string)
    requires AllDigits(s) && s != "" && s[0] != '0'
    ensures Spell(Value(s)) == s
  {
    hide Spell;
    var init, last := s[..|s| - 1], s[|s| - 1];
    assert s == init + [last];
    SpellMore(Value(init), last);
    if |s| == 1 {
      assert init == "";
    } else {
      SpellOfValue(init);
      ValuePositive(init);
    }
  }

  lemma SpellInjective(m: nat, n: nat)
    requires Spell(m) == Spell(n)
    ensures m == n
  {
    ValueOfSpell(m);
    ValueOfSpell(n);
  }

  function Pow10(k: nat): (p: nat)
    ensures p >= 1
  {
    if k == 0 then 1 else 10 * Pow10(k - 1)
  }

  lemma {:induction false} Pow10Sum(a: nat, b: nat)
    ensures Pow10(a + b) == Pow10(a) * Pow10(b)
  {
    if a > 0 {
      Pow10Sum(a - 1, b);
    }
  }

  lemma TwentyDigits()
    ensures Pow10(19) == 10_000_000_000_000_000_000 && Pow10(20) == 100_000_000_000_000_000_000
  {
    assert Pow10(1) == 10 && Pow10(2) == 100 && Pow10(3) == 1000 && Pow10(4) == 10_000;
    Pow10Sum(1, 4);
    Pow10Sum(5, 5);
    Pow10Sum(10, 5);
    Pow10Sum(15, 4);
    Pow10Sum(19, 1);
  }

  /** A numeral has k + 1 digits exactly from 10^k up to 10^(k+1). */
  lemma {:induction false} SpellLength(n: nat, k: nat)
    requires n < Pow10(k + 1)
    ensures |Spell(n)| <= k + 1
    ensures n >= Pow10(k) ==> |Spell(n)| == k + 1
  {
    if k > 0 && n >= 10 {
      assert n / 10 < Pow10(k);
      SpellLength(n / 10, k - 1);
    }
  }
}
