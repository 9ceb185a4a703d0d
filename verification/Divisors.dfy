/** Sets of numbers closed under sums and differences, and the divisors of 32767 = 7 * 31 * 151. */
module Divisors {

  const PERIOD: nat := 32767

  ghost predicate Adds(p: nat -> bool, m: nat, n: nat) {
    p(m) ==> (p(m + n) <==> p(n))
  }

  /** `p` holds of a set of numbers closed under sums and differences. */
  ghost predicate Closed(p: nat -> bool) {
    p(0) && forall m: nat, n: nat :: Adds(p, m, n)
  }

  lemma {:induction false} MultipleIn(p: nat -> bool, m: nat, k: nat)
    requires Closed(p) && p(m)
    ensures p(k * m)
  {
    if k > 0 {
      MultipleIn(p, m, k - 1);
      assert Adds(p, m, (k - 1) * m);
      assert m + (k - 1) * m == k * m;
    }
  }

  lemma RemainderIn(p: nat -> bool, m: nat, q: nat, r: nat)
    requires Closed(p) && p(m) && p(q * m + r)
    ensures p(r)
  {
    MultipleIn(p, m, q);
    assert Adds(p, q * m, r);
  }

  lemma Multiples(d: nat, q: nat, t: nat, s: nat)
    ensures q * (d * t) + d * s == d * (q * t + s)
  {
  }

  /** Euclid's algorithm: two members have a common divisor that is a member too. */
  lemma {:induction false} CommonDivisorIn(p: nat -> bool, a: nat, b: nat) returns (d: nat, u: nat, v: nat)
    requires Closed(p) && p(a) && p(b) && a > 0
    ensures p(d) && d > 0 && a == d * u && b == d * v
    decreases a
  {
    var q, r := b / a, b % a;
    assert b == q * a + r;
    if r == 0 {
      d, u, v := a, 1, q;
    } else {
      RemainderIn(p, a, q, r);
      var s;
      d, s, u := CommonDivisorIn(p, r, a);
      v := q * u + s;
      Multiples(d, q, u, s);
    }
  }

  lemma ProductGrows(d: nat, m: nat, n: nat, k: nat)
    requires d >= n && m >= k
    ensures d * m >= n * k
  {
    assert d * m >= n * m >= n * k;
  }

  lemma SmallDivisor(d: nat, m: nat)
    requires d * m == PERIOD && d <= 181
    ensures d == 1 || d == 7 || d == 31 || d == 151
  {
  }

  /** A proper divisor of 32767 divides 217, 1057 or 4681. */
  lemma ProperDivisor(d: nat, m: nat) returns (k: nat)
    requires d * m == PERIOD && m > 1
    ensures k * d == 217 || k * d == 1057 || k * d == 4681
  {
    if d <= 181 {
      SmallDivisor(d, m);
      k := if d == 1 then 217 else if d == 7 then 31 else 7;
    } else {
      if m >= 182 {
        ProductGrows(d, m, 182, 182);
        assert false;
      }
      SmallDivisor(m, d);
      k := 1;
    }
  }

  /** If 32767 is a member and its maximal proper divisors are not, the members are its multiples. */
  lemma PeriodsAreMultiples(p: nat -> bool, n: nat)
    requires Closed(p) && p(PERIOD) && !p(217) && !p(1057) && !p(4681)
    ensures p(n) <==> n % PERIOD == 0
  {
    var q, r := n / PERIOD, n % PERIOD;
    assert n == q * PERIOD + r;
    MultipleIn(p, PERIOD, q);
    assert Adds(p, q * PERIOD, r);
    if r > 0 && p(r) {
      var d, u, m := CommonDivisorIn(p, r, PERIOD);
      if m <= 1 {
        ProductGrows(d, u, PERIOD, 1);
        assert false;
      }
      var k := ProperDivisor(d, m);
      MultipleIn(p, d, k);
    }
  }
}
