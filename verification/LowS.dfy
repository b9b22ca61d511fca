/**
  ECDSA over an abstract group of odd order: what exchanging s for n - s means, and
  the three places where the low form is made or demanded.
 */
module LowS {
  import opened BitStream
  import opened Wrappers
  import BigEndian
  import Base64

  /** A commutative group with a generator and an affine x-coordinate. */
  datatype Curve<!P> = Curve(zero: P, add: (P, P) -> P, neg: P -> P, base: P, x: P -> nat)

  const ORDER: nat := 0xFFFFFFFF00000000FFFFFFFFFFFFFFFFBCE6FAADA7179E84F3B9CAC2FC632551
  const HALF_ORDER: nat := 0x7FFFFFFF800000007FFFFFFFFFFFFFFFDE737D56D38BCF4279DCE5617E3192A8

  function Times<P>(c: Curve<P>, k: nat, p: P): P {
    if k == 0 then c.zero else c.add(Times(c, k - 1, p), p)
  }

  ghost predicate IsGroup<P(!new)>(c: Curve<P>) {
    && (forall p, q, r :: c.add(c.add(p, q), r) == c.add(p, c.add(q, r)))
    && (forall p, q :: c.add(p, q) == c.add(q, p))
    && (forall p :: c.add(p, c.zero) == p)
    && (forall p :: c.add(p, c.neg(p)) == c.zero)
  }

  /** The group has the order of P-256, and a point and its negative share their x-coordinate. */
  ghost predicate IsCurve<P(!new)>(c: Curve<P>) {
    IsGroup(c) && (forall p :: Times(c, ORDER, p) == c.zero) && (forall p :: c.x(c.neg(p)) == c.x(p))
  }

  // ----- section 6.4.2 of FIPS 186-5

  predicate InRange(k: int) {
    0 < k < ORDER
  }

  predicate IsInverse(s: nat, w: nat) {
    w < ORDER && s * w % ORDER == 1
  }

  function PointFor<P>(c: Curve<P>, key: P, z: nat, r: nat, w: nat): P {
    c.add(Times(c, z * w % ORDER, c.base), Times(c, r * w % ORDER, key))
  }

  ghost predicate Verifies<P>(c: Curve<P>, key: P, z: nat, r: int, s: int) {
    InRange(r) && InRange(s)
    && exists w: nat :: IsInverse(s, w) && PointFor(c, key, z, r, w) != c.zero
        && c.x(PointFor(c, key, z, r, w)) % ORDER == r
  }

  // ----- the low form

  lemma Halves()
    ensures ORDER == 2 * HALF_ORDER + 1
  {
  }

  function LowForm(s: int): (low: int)
    requires InRange(s)
    ensures InRange(low) && low <= HALF_ORDER && (low == s || low == ORDER - s)
  {
    Halves();
    if s > HALF_ORDER then ORDER - s else s
  }

  // ----- group facts

  lemma Associate<P(!new)>(c: Curve<P>, p: P, q: P, r: P)
    requires IsGroup(c)
    ensures c.add(c.add(p, q), r) == c.add(p, c.add(q, r))
  {
  }

  lemma Commute<P(!new)>(c: Curve<P>, p: P, q: P)
    requires IsGroup(c)
    ensures c.add(p, q) == c.add(q, p)
  {
  }

  lemma Neutral<P(!new)>(c: Curve<P>, p: P)
    requires IsGroup(c)
    ensures c.add(p, c.zero) == p && c.add(c.zero, p) == p && c.add(p, c.neg(p)) == c.zero
  {
    Commute(c, p, c.zero);
  }

  lemma {:induction false} TimesSum<P(!new)>(c: Curve<P>, a: nat, b: nat, p: P)
    requires IsGroup(c)
    ensures Times(c, a + b, p) == c.add(Times(c, a, p), Times(c, b, p))
  {
    hide IsGroup;
    if b == 0 {
      Neutral(c, Times(c, a, p));
    } else {
      TimesSum(c, a, b - 1, p);
      Associate(c, Times(c, a, p), Times(c, b - 1, p), p);
    }
  }

  lemma {:induction false} TimesMultiple<P(!new)>(c: Curve<P>, n: nat, k: nat, p: P)
    requires IsGroup(c) && Times(c, n, p) == c.zero
    ensures Times(c, k * n, p) == c.zero
  {
    hide IsGroup;
    if k == 0 {
      assert k * n == 0;
    } else {
      TimesMultiple(c, n, k - 1, p);
      assert (k - 1) * n + n == k * n;
      OneMore(c, n, (k - 1) * n, k * n, p);
    }
  }

  lemma OneMore<P(!new)>(c: Curve<P>, n: nat, a: nat, b: nat, p: P)
    requires IsGroup(c) && Times(c, n, p) == c.zero && Times(c, a, p) == c.zero && b == a + n
    ensures Times(c, b, p) == c.zero
  {
    hide *;
    TimesSum(c, a, n, p);
    Neutral(c, c.zero);
  }

  /** What adds up to zero with `p` is its negative. */
  lemma NegativeUnique<P(!new)>(c: Curve<P>, p: P, q: P)
    requires IsGroup(c) && c.add(p, q) == c.zero
    ensures q == c.neg(p)
  {
    hide IsGroup;
    Neutral(c, q);
    Neutral(c, p);
    Neutral(c, c.neg(p));
    Commute(c, q, p);
    Commute(c, c.neg(p), p);
    Associate(c, c.neg(p), p, q);
  }

  lemma NegativeSum<P(!new)>(c: Curve<P>, p: P, q: P)
    requires IsGroup(c)
    ensures c.add(c.neg(p), c.neg(q)) == c.neg(c.add(p, q))
  {
    hide IsGroup;
    var m, n := c.neg(p), c.neg(q);
    Associate(c, p, q, c.add(m, n));
    Associate(c, q, m, n);
    Commute(c, q, m);
    Associate(c, m, q, n);
    Neutral(c, q);
    Neutral(c, m);
    Associate(c, p, m, c.zero);
    Neutral(c, p);
    Neutral(c, c.zero);
    NegativeUnique(c, c.add(p, q), c.add(m, n));
  }

  lemma NegativeZero<P(!new)>(c: Curve<P>, p: P)
    requires IsGroup(c)
    ensures c.neg(p) == c.zero <==> p == c.zero
  {
    hide IsGroup;
    Neutral(c, p);
    Neutral(c, c.neg(p));
  }

  lemma OrderVanishes<P(!new)>(c: Curve<P>, p: P)
    requires IsCurve(c)
    ensures IsGroup(c) && Times(c, ORDER, p) == c.zero
  {
    hide IsGroup, Times;
  }

  lemma Quotient(m: nat) returns (k: nat)
    requires m % ORDER == 0
    ensures k * ORDER == m
  {
    k := m / ORDER;
  }

  lemma ComplementaryTimes<P(!new)>(c: Curve<P>, a: nat, b: nat, p: P)
    requires IsCurve(c) && (a + b) % ORDER == 0
    ensures Times(c, b, p) == c.neg(Times(c, a, p))
  {
    hide *;
    OrderVanishes(c, p);
    var k := Quotient(a + b);
    TimesMultiple(c, ORDER, k, p);
    TimesSum(c, a, b, p);
    NegativeUnique(c, Times(c, a, p), Times(c, b, p));
  }

  // ----- modular facts

  lemma Remainder(n: int, q: int, r: int)
    requires 0 <= r < n
    ensures (q * n + r) % n == r
  {
    var a := q * n + r;
    assert a == a / n * n + a % n;
    var d := q - a / n;
    assert d * n == a % n - r;
    assert -n < d * n < n;
    assert d >= 1 ==> d * n >= n;
    assert d <= -1 ==> d * n <= -n;
  }

  lemma InversePositive(s: nat, w: nat)
    requires IsInverse(s, w)
    ensures w > 0
  {
    assert w == 0 ==> s * w == 0;
  }

  lemma InverseOfComplement(s: nat, w: nat)
    requires InRange(s) && IsInverse(s, w)
    ensures 0 < w && IsInverse(ORDER - s, ORDER - w)
  {
    InversePositive(s, w);
    assert 1 < ORDER;
    hide ORDER;
    var n := ORDER;
    var q := s * w / n;
    assert s * w == q * n + 1;
    assert (n - s) * (n - w) == n * n - n * w - s * n + s * w;
    assert n * n - n * w - s * n + q * n == (n - w - s + q) * n;
    Remainder(n, n - w - s + q, 1);
  }

  lemma ComplementaryScalars(m: nat, w: nat)
    requires 0 < w < ORDER
    ensures (m * w % ORDER + m * (ORDER - w) % ORDER) % ORDER == 0
  {
    hide ORDER;
    var n := ORDER;
    var a, b := m * w, m * (n - w);
    assert a + b == m * n;
    assert a == a / n * n + a % n && b == b / n * n + b % n;
    assert a % n + b % n == (m - a / n - b / n) * n;
    Remainder(n, m - a / n - b / n, 0);
  }

  // ----- such a curve, and a signature on it

  /** The integers modulo the order, a point and its negative folded onto the smaller of the two. */
  type Scalar = k: nat | k < ORDER

  function Sum(a: Scalar, b: Scalar): Scalar {
    if a + b < ORDER then a + b else a + b - ORDER
  }

  function Opposite(a: Scalar): Scalar {
    if a == 0 then 0 else ORDER - a
  }

  function Smaller(a: Scalar): nat {
    if a <= HALF_ORDER then a else ORDER - a
  }

  function ScalarCurve(): Curve<Scalar> {
    Curve(0, Sum, Opposite, 1, Smaller)
  }

  lemma ScalarGroup()
    ensures IsGroup(ScalarCurve())
  {
    hide ORDER;
  }

  lemma {:induction false} ScalarTimes(k: nat, p: Scalar)
    ensures Times(ScalarCurve(), k, p) == k * p % ORDER
  {
    assert 1 < ORDER;
    hide ORDER;
    var n := ORDER;
    if k == 0 {
      assert k * p == 0;
    } else {
      ScalarTimes(k - 1, p);
      var t, q := (k - 1) * p % n, (k - 1) * p / n;
      assert k * p == q * n + t + p;
      if t + p < n {
        Remainder(n, q, t + p);
      } else {
        assert k * p == (q + 1) * n + (t + p - n);
        Remainder(n, q + 1, t + p - n);
      }
    }
  }

  lemma ScalarOrder(p: Scalar)
    ensures Times(ScalarCurve(), ORDER, p) == ScalarCurve().zero
  {
    ScalarTimes(ORDER, p);
    Remainder(ORDER, p, 0);
  }

  lemma SmallerOfOpposite(p: Scalar)
    ensures ScalarCurve().x(ScalarCurve().neg(p)) == ScalarCurve().x(p)
  {
    Halves();
    hide ORDER, HALF_ORDER;
  }

  lemma ScalarIsCurve()
    ensures IsCurve(ScalarCurve())
  {
    hide IsGroup, Times, ORDER, ScalarCurve;
    ScalarGroup();
    forall p: Scalar ensures Times(ScalarCurve(), ORDER, p) == ScalarCurve().zero {
      ScalarOrder(p);
    }
    forall p: Scalar ensures ScalarCurve().x(ScalarCurve().neg(p)) == ScalarCurve().x(p) {
      SmallerOfOpposite(p);
    }
  }

  // ----- what verification computes

  lemma {:induction false} TimesTimes<P(!new)>(c: Curve<P>, a: nat, b: nat, p: P)
    requires IsGroup(c)
    ensures Times(c, a, Times(c, b, p)) == Times(c, a * b, p)
  {
    hide IsGroup;
    if a > 0 {
      TimesTimes(c, a - 1, b, p);
      assert (a - 1) * b + b == a * b;
      TimesSum(c, (a - 1) * b, b, p);
    } else {
      assert a * b == 0;
    }
  }

  lemma TimesReduced<P(!new)>(c: Curve<P>, a: nat, p: P)
    requires IsCurve(c)
    ensures Times(c, a, p) == Times(c, a % ORDER, p)
  {
    hide Times, IsCurve;
    OrderVanishes(c, p);
    AddedOrders(c, a / ORDER, a % ORDER, p);
  }

  lemma AddedOrders<P(!new)>(c: Curve<P>, q: nat, b: nat, p: P)
    requires IsCurve(c)
    ensures Times(c, q * ORDER + b, p) == Times(c, b, p)
  {
    hide *;
    OrderVanishes(c, p);
    TimesMultiple(c, ORDER, q, p);
    TimesSum(c, q * ORDER, b, p);
    Neutral(c, Times(c, b, p));
  }

  lemma DivMod(n: int, a: int)
    requires n > 0
    ensures a == a / n * n + a % n && 0 <= a % n < n
  {
  }

  /** Equal up to multiples of n. */
  lemma Equal(n: int, q: int, m: int, a: int)
    requires n > 0 && a == q * n + m
    ensures a % n == m % n
  {
    SameRemainder(n, q, m);
  }

  /** The two reduced scalars stand for (z + r d) w. */
  lemma ScalarsAdd(n: nat, z: nat, r: nat, w: nat, d: nat)
    requires n > 1
    ensures (z * w % n + r * w % n * d) % n == (z + r * d) * w % n
  {
    var a, b := z * w, r * w;
    Distribute(z, r, w, d);
    ReducedSum(n, a, b, d);
  }

  lemma ReducedSum(n: nat, a: nat, b: nat, d: nat)
    requires n > 1
    ensures (a % n + b % n * d) % n == (a + b * d) % n
  {
    DivMod(n, a);
    DivMod(n, b);
    SplitSum(n, a / n, a % n, b / n, b % n, d, a, b);
  }

  lemma SplitSum(n: nat, p: nat, x: nat, q: nat, y: nat, d: nat, a: nat, b: nat)
    requires n > 1 && a == p * n + x && b == q * n + y
    ensures (x + y * d) % n == (a + b * d) % n
  {
    Combine(n, p, x, q, y, d);
    Equal(n, p + q * d, x + y * d, a + b * d);
  }

  lemma Distribute(z: int, r: int, w: int, d: int)
    ensures (z + r * d) * w == z * w + r * w * d
  {
  }

  lemma Combine(n: int, p: int, a: int, q: int, b: int, d: int)
    ensures p * n + a + (q * n + b) * d == (p + q * d) * n + (a + b * d)
  {
  }

  lemma SameRemainder(n: int, q: int, m: int)
    requires n > 0
    ensures (q * n + m) % n == m % n
  {
    assert q * n + m == (q + m / n) * n + m % n by {
      assert m == m / n * n + m % n;
      assert (q + m / n) * n == q * n + m / n * n;
    }
    Remainder(n, q + m / n, m % n);
  }

  /** Under the key of the scalar `d`, verification recomputes (z + r d) / s times the generator. */
  lemma PointExact<P(!new)>(c: Curve<P>, d: nat, z: nat, r: nat, w: nat)
    requires IsCurve(c)
    ensures PointFor(c, Times(c, d, c.base), z, r, w) == Times(c, (z + r * d) * w % ORDER, c.base)
  {
    hide Times, IsCurve;
    ScalarsAdd(ORDER, z, r, w, d);
    CombinedPoint(c, z * w % ORDER, r * w % ORDER, d, (z + r * d) * w);
  }

  lemma CombinedPoint<P(!new)>(c: Curve<P>, u: nat, v: nat, d: nat, m: nat)
    requires IsCurve(c) && (u + v * d) % ORDER == m % ORDER
    ensures c.add(Times(c, u, c.base), Times(c, v, Times(c, d, c.base))) == Times(c, m % ORDER, c.base)
  {
    hide Times, IsCurve, IsGroup;
    OrderVanishes(c, c.base);
    TimesTimes(c, v, d, c.base);
    TimesSum(c, u, v * d, c.base);
    TimesReduced(c, u + v * d, c.base);
  }

  /** So r is good exactly if it is the x-coordinate of that point. */
  lemma VerifiesExact<P(!new)>(c: Curve<P>, d: nat, z: nat, r: nat, s: nat, w: nat)
    requires IsCurve(c) && InRange(r) && InRange(s) && IsInverse(s, w)
    ensures Verifies(c, Times(c, d, c.base), z, r, s)
            <==> var p := Times(c, (z + r * d) * w % ORDER, c.base); p != c.zero && c.x(p) % ORDER == r
  {
    hide Times, IsCurve, PointFor, Verifies, IsInverse;
    PointExact(c, d, z, r, w);
    VerifiesWith(c, Times(c, d, c.base), z, r, s, w);
  }

  lemma VerifiesWith<P(!new)>(c: Curve<P>, key: P, z: nat, r: nat, s: nat, w: nat)
    requires InRange(r) && InRange(s) && IsInverse(s, w)
    ensures Verifies(c, key, z, r, s)
            <==> PointFor(c, key, z, r, w) != c.zero && c.x(PointFor(c, key, z, r, w)) % ORDER == r
  {
    hide PointFor, IsInverse, ORDER;
    forall v: nat | IsInverse(s, v) ensures v == w {
      InverseUnique(s, v, w);
    }
  }

  /**
    A signature made with the scalar `d` and the nonce `k` verifies under the key of
    `d`, whatever the digest.  The order of P-256 is prime, so s has its inverse `w`.
   */
  lemma SignedVerifies<P(!new)>(c: Curve<P>, d: nat, k: nat, z: nat, r: nat, s: nat, w: nat)
    requires IsCurve(c) && InRange(r) && InRange(s) && IsInverse(s, w)
    requires Times(c, k, c.base) != c.zero && r == c.x(Times(c, k, c.base)) % ORDER
    requires s * k % ORDER == (z + r * d) % ORDER
    ensures Verifies(c, Times(c, d, c.base), z, r, s)
  {
    hide Times, IsCurve, PointFor, ORDER, InRange, IsInverse;
    SignedPoint(c, d, k, z, r, s, w);
  }

  ghost predicate Congruent(n: nat, a: int, b: int)
    requires n > 0
  {
    a % n == b % n
  }

  lemma TimesCongruent<P(!new)>(c: Curve<P>, a: nat, b: nat, p: P)
    requires IsCurve(c) && Congruent(ORDER, a, b)
    ensures Times(c, a, p) == Times(c, b, p)
  {
    hide Times, IsCurve;
    TimesReduced(c, a, p);
    TimesReduced(c, b, p);
  }

  lemma SignedPoint<P(!new)>(c: Curve<P>, d: nat, k: nat, z: nat, r: nat, s: nat, w: nat)
    requires IsCurve(c) && IsInverse(s, w) && Congruent(ORDER, s * k, z + r * d)
    ensures PointFor(c, Times(c, d, c.base), z, r, w) == Times(c, k, c.base)
  {
    hide *;
    InverseCongruent(s, w);
    NonceRecovered(ORDER, s, k, z + r * d, w);
    PointExact(c, d, z, r, w);
    TimesReduced(c, (z + r * d) * w, c.base);
    TimesCongruent(c, (z + r * d) * w, k, c.base);
  }

  lemma InverseCongruent(s: nat, w: nat)
    requires IsInverse(s, w)
    ensures ORDER > 1 && Congruent(ORDER, s * w, 1)
  {
  }

  lemma NonceRecovered(n: nat, s: nat, k: nat, m: nat, w: nat)
    requires n > 1 && Congruent(n, s * w, 1) && Congruent(n, s * k, m)
    ensures Congruent(n, m * w, k)
  {
    hide Congruent;
    var p, q, e := Quotients(n, s * k, m);
    var t := QuotientOfOne(n, s * w);
    Undone(n, s, k, m, w, p, q, t, e);
  }

  lemma Quotients(n: nat, a: nat, b: nat) returns (p: nat, q: nat, e: nat)
    requires n > 0 && Congruent(n, a, b)
    ensures a == p * n + e && b == q * n + e
  {
    p, q, e := a / n, b / n, a % n;
  }

  lemma QuotientOfOne(n: nat, a: nat) returns (t: nat)
    requires n > 1 && Congruent(n, a, 1)
    ensures a == t * n + 1
  {
    OneReduced(n);
    DivMod(n, a);
    t := a / n;
    IsQuotient(n, t, a % n, a);
  }

  lemma OneReduced(n: int)
    requires n > 1
    ensures 1 % n == 1
  {
    Remainder(n, 0, 1);
  }

  lemma IsQuotient(n: nat, t: nat, e: nat, a: nat)
    requires a == t * n + e && e == 1
    ensures a == t * n + 1
  {
  }

  lemma Undone(n: nat, s: nat, k: nat, m: nat, w: nat, p: nat, q: nat, t: nat, e: nat)
    requires n > 1 && s * k == p * n + e && m == q * n + e && s * w == t * n + 1
    ensures Congruent(n, m * w, k)
  {
    Spread(q - p, n, s * k, w);
    Regrouped(s, k, w);
    Spread(t, n, 1, k);
    Gathered((q - p) * w, t * k, n, k);
    Difference(n, q, p);
    assert m == (q - p) * n + s * k;
    Equal(n, (q - p) * w + t * k, k, m * w);
  }

  lemma Difference(n: int, q: int, p: int)
    ensures (q - p) * n == q * n - p * n
  {
  }

  lemma Spread(q: int, n: int, m: int, w: int)
    ensures (q * n + m) * w == q * w * n + m * w
  {
  }

  lemma Regrouped(s: int, k: int, w: int)
    ensures s * k * w == s * w * k
  {
  }

  lemma Gathered(a: int, b: int, n: int, k: int)
    ensures a * n + (b * n + k) == (a + b) * n + k
  {
  }

  /** The scalar 3 and the nonce 1 sign the digest 2 as (1, 5). */
  lemma ScalarSignature()
    ensures Verifies(ScalarCurve(), 3, 2, 1, 5)
  {
    var c, w := ScalarCurve(), INVERSE_OF_5;
    assert IsInverse(5, w);
    ScalarTimes(3, c.base);
    ScalarTimes(1, c.base);
    ScalarIsCurve();
    hide Times, IsCurve;
    SignedVerifies(c, 3, 1, 2, 1, 5, w);
  }

  const INVERSE_OF_5: nat := 0x3333333300000000333333333333333325C7CBBC549E52E763F1F55A327A3AAA

  // ----- the low form verifies exactly when the original does

  lemma MirrorPoint<P(!new)>(c: Curve<P>, key: P, z: nat, r: nat, w: nat)
    requires IsCurve(c) && 0 < w < ORDER
    ensures PointFor(c, key, z, r, ORDER - w) == c.neg(PointFor(c, key, z, r, w))
  {
    ComplementaryScalars(z, w);
    ComplementaryScalars(r, w);
    hide ORDER, IsCurve, Times;
    MirrorSum(c, z * w % ORDER, z * (ORDER - w) % ORDER, r * w % ORDER, r * (ORDER - w) % ORDER, key);
  }

  lemma MirrorSum<P(!new)>(c: Curve<P>, a: nat, b: nat, d: nat, e: nat, key: P)
    requires IsCurve(c) && (a + b) % ORDER == 0 && (d + e) % ORDER == 0
    ensures c.add(Times(c, b, c.base), Times(c, e, key)) == c.neg(c.add(Times(c, a, c.base), Times(c, d, key)))
  {
    hide *;
    ComplementaryTimes(c, a, b, c.base);
    ComplementaryTimes(c, d, e, key);
    OrderVanishes(c, key);
    NegativeSum(c, Times(c, a, c.base), Times(c, d, key));
  }

  lemma MirrorVerifies<P(!new)>(c: Curve<P>, key: P, z: nat, r: int, s: int)
    requires IsCurve(c) && Verifies(c, key, z, r, s)
    ensures Verifies(c, key, z, r, ORDER - s)
  {
    hide ORDER, IsGroup, Times, PointFor, IsInverse;
    var w: nat :| IsInverse(s, w) && PointFor(c, key, z, r, w) != c.zero && c.x(PointFor(c, key, z, r, w)) % ORDER == r;
    InverseOfComplement(s, w);
    InverseBelow(s, w);
    MirrorPoint(c, key, z, r, w);
    NegativeZero(c, PointFor(c, key, z, r, w));
    assert IsInverse(ORDER - s, ORDER - w);
  }

  lemma InverseBelow(s: nat, w: nat)
    requires IsInverse(s, w)
    ensures w < ORDER
  {
  }

  /** The inverse that verification uses is determined by s. */
  lemma InverseUnique(s: nat, v: nat, w: nat)
    requires IsInverse(s, v) && IsInverse(s, w)
    ensures v == w
  {
    ScaledInverse(s * v, w);
    ScaledInverse(s * w, v);
    assert s * v * w == s * w * v;
  }

  lemma ScaledInverse(m: nat, w: nat)
    requires m % ORDER == 1 && w < ORDER
    ensures m * w % ORDER == w
  {
    hide ORDER;
    var n := ORDER;
    var q := m / n;
    assert m == q * n + 1;
    assert m * w == q * w * n + w;
    Remainder(n, q * w, w);
  }

  lemma LowFormPreserves<P(!new)>(c: Curve<P>, key: P, z: nat, r: int, s: int)
    requires IsCurve(c) && InRange(s)
    ensures Verifies(c, key, z, r, LowForm(s)) <==> Verifies(c, key, z, r, s)
    ensures Verifies(c, key, z, r, ORDER - s) <==> Verifies(c, key, z, r, s)
    ensures LowForm(LowForm(s)) == LowForm(s) == LowForm(ORDER - s)
  {
    Halves();
    hide IsCurve, Verifies;
    if Verifies(c, key, z, r, s) {
      MirrorVerifies(c, key, z, r, s);
    }
    if Verifies(c, key, z, r, ORDER - s) {
      MirrorVerifies(c, key, z, r, ORDER - s);
      assert ORDER - (ORDER - s) == s;
    }
  }

  // ----- normalization of a provider signature

  function RawSignature(r: nat, s: nat): (raw: seq<byte>)
    ensures |raw| == 64
  {
    BigEndian.Put(r, 32) + BigEndian.Put(s, 32)
  }

  /** `parsed` is what the DER parser made of the whole input, if anything. */
  method NormalizeDer(parsed: Option<(int, int)>) returns (raw: Option<seq<byte>>)
    ensures raw == if parsed.None? || !InRange(parsed.value.0) || !InRange(parsed.value.1) then None
                   else Some(RawSignature(parsed.value.0, LowForm(parsed.value.1)))
  {
    if parsed.None? {
      return None;
    }
    var r, s := parsed.value.0, parsed.value.1;
    if r <= 0 || r >= ORDER || s <= 0 || s >= ORDER {
      return None;
    }
    if s > ORDER / 2 {
      s := ORDER - s;
    }
    var buffer := new byte[64](_ => 0);
    BigEndian.PutAt(buffer, 0, 32, r);
    BigEndian.PutAt(buffer, 32, 32, s);
    assert buffer[..] == buffer[..32] + buffer[32..64];
    assert buffer[..32] == buffer[0..32];
    return Some(buffer[..]);
  }

  // ----- the raw verifiers

  ghost predicate RawAccepts<P>(c: Curve<P>, key: P, z: nat, raw: seq<byte>) {
    |raw| == 64
    && var r, s := BigEndian.Get(raw[..32]), BigEndian.Get(raw[32..]);
       0 < r < ORDER && 0 < s <= HALF_ORDER && Verifies(c, key, z, r, s)
  }

  lemma RawScalars(r: int, s: int)
    requires InRange(r) && InRange(s)
    ensures BigEndian.Get(RawSignature(r, s)[..32]) == r && BigEndian.Get(RawSignature(r, s)[32..]) == s
  {
    Pow256Of32();
    BigEndian.GetPut(r, 32);
    BigEndian.GetPut(s, 32);
    hide BigEndian.Get, BigEndian.Put;
    assert RawSignature(r, s)[..32] == BigEndian.Put(r, 32) && RawSignature(r, s)[32..] == BigEndian.Put(s, 32);
  }

  lemma Pow256Of32()
    ensures BigEndian.Pow256(32) > ORDER
  {
    assert BigEndian.Pow256(8) == 0x1_0000_0000_0000_0000;
    assert BigEndian.Pow256(16) == 0x1_0000_0000_0000_0000_0000_0000_0000_0000;
    assert BigEndian.Pow256(24) == 0x1_0000_0000_0000_0000_0000_0000_0000_0000_0000_0000_0000_0000;
  }

  /** Of a pair and its mirror exactly one is accepted raw if either verifies, and none otherwise. */
  lemma RawAcceptsExactlyOne<P(!new)>(c: Curve<P>, key: P, z: nat, r: int, s: int)
    requires IsCurve(c) && InRange(r) && InRange(s)
    ensures Verifies(c, key, z, r, s) ==>
              RawAccepts(c, key, z, RawSignature(r, s)) != RawAccepts(c, key, z, RawSignature(r, ORDER - s))
    ensures !Verifies(c, key, z, r, s) ==>
              !RawAccepts(c, key, z, RawSignature(r, s)) && !RawAccepts(c, key, z, RawSignature(r, ORDER - s))
  {
    Halves();
    hide IsCurve, Verifies, RawSignature, BigEndian.Get;
    RawScalars(r, s);
    RawScalars(r, ORDER - s);
    LowFormPreserves(c, key, z, r, s);
  }

  /** What normalization emits is accepted exactly if the provider's signature was good. */
  lemma NormalizedIsAccepted<P(!new)>(c: Curve<P>, key: P, z: nat, r: int, s: int)
    requires IsCurve(c) && InRange(r) && InRange(s)
    ensures RawAccepts(c, key, z, RawSignature(r, LowForm(s))) <==> Verifies(c, key, z, r, s)
  {
    hide IsCurve, Verifies, RawSignature, BigEndian.Get;
    RawScalars(r, LowForm(s));
    LowFormPreserves(c, key, z, r, s);
  }

  /** A properly made signature, normalized, is accepted raw under the key it was made for. */
  lemma SignedIsAccepted<P(!new)>(c: Curve<P>, d: nat, k: nat, z: nat, r: nat, s: nat, w: nat)
    requires IsCurve(c) && InRange(r) && InRange(s) && IsInverse(s, w)
    requires Times(c, k, c.base) != c.zero && r == c.x(Times(c, k, c.base)) % ORDER
    requires s * k % ORDER == (z + r * d) % ORDER
    ensures RawAccepts(c, Times(c, d, c.base), z, RawSignature(r, LowForm(s)))
  {
    hide IsCurve, Times, Verifies, RawAccepts, RawSignature, LowForm;
    SignedVerifies(c, d, k, z, r, s, w);
    NormalizedIsAccepted(c, Times(c, d, c.base), z, r, s);
  }

  // ----- the private-upload classification

  datatype SignatureClass = Accepted | Encoding | Scalar | Malleability | Mismatch

  /** DER parsing and marshalling of the two scalars. */
  datatype Der = Der(parse: seq<byte> -> Option<(int, int)>, marshal: (int, int) -> seq<byte>)

  ghost function ClassifySignature<P>(c: Curve<P>, key: P, z: nat, der: Der, encoded: string): SignatureClass {
    var octets := Base64.StrictDecode(Base64.Url, encoded);
    if octets.None? then Encoding
    else
      var scalars := der.parse(octets.value);
      if scalars.None? || der.marshal(scalars.value.0, scalars.value.1) != octets.value then Encoding
      else
        var (r, s) := scalars.value;
        if !InRange(r) || !InRange(s) then Scalar
        else if s > HALF_ORDER then Malleability
        else if !Verifies(c, key, z, r, s) then Mismatch
        else Accepted
  }

  function Encoded(der: Der, r: int, s: int): string {
    Base64.Encode(Base64.Url, der.marshal(r, s))
  }

  /** Every signature has one accepted spelling: the low half, marshalled and encoded canonically. */
  lemma AcceptedSpelling<P(!new)>(c: Curve<P>, key: P, z: nat, der: Der, encoded: string)
    requires forall r, s :: der.parse(der.marshal(r, s)) == Some((r, s))
    ensures ClassifySignature(c, key, z, der, encoded) == Accepted
            <==> exists r, s :: encoded == Encoded(der, r, s) && s <= HALF_ORDER && Verifies(c, key, z, r, s)
  {
    hide Base64.StrictDecode, Base64.Encode, Verifies;
    if ClassifySignature(c, key, z, der, encoded) == Accepted {
      var octets := Base64.StrictDecode(Base64.Url, encoded).value;
      var (r, s) := der.parse(octets).value;
      Base64.StrictDecodeExact(Base64.Url, encoded, octets);
      assert encoded == Encoded(der, r, s);
    }
    if r, s :| encoded == Encoded(der, r, s) && s <= HALF_ORDER && Verifies(c, key, z, r, s) {
      Base64.StrictDecodeExact(Base64.Url, encoded, der.marshal(r, s));
      VerifiesInRange(c, key, z, r, s);
    }
  }

  lemma VerifiesInRange<P(!new)>(c: Curve<P>, key: P, z: nat, r: int, s: int)
    requires Verifies(c, key, z, r, s)
    ensures InRange(r) && InRange(s)
  {
  }

  /** A verifying pair and its mirror are classified apart, whichever comes first. */
  lemma MirrorIsMalleability<P(!new)>(c: Curve<P>, key: P, z: nat, der: Der, r: int, s: int)
    requires forall r, s :: der.parse(der.marshal(r, s)) == Some((r, s))
    requires IsCurve(c) && InRange(r) && InRange(s)
    ensures var here, there := ClassifySignature(c, key, z, der, Encoded(der, r, s)),
                               ClassifySignature(c, key, z, der, Encoded(der, r, ORDER - s));
            {here, there} == {Malleability, if Verifies(c, key, z, r, s) then Accepted else Mismatch}
  {
    Halves();
    hide Base64.StrictDecode, Base64.Encode, Verifies, IsCurve;
    Base64.StrictDecodeExact(Base64.Url, Encoded(der, r, s), der.marshal(r, s));
    Base64.StrictDecodeExact(Base64.Url, Encoded(der, r, ORDER - s), der.marshal(r, ORDER - s));
    LowFormPreserves(c, key, z, r, s);
  }
}
