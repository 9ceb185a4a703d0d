/** The order of x modulo the generator is 32767, which decides every two-bit error. */
module Order {
  import opened Gf2
  import opened Crc
  import opened Registers
  import opened Divisors

  /** x^n, reduced. */
  function Power(n: nat): (r: Poly)
    ensures |r| == 16
  {
    Residue([true] + Zeros(n))
  }

  lemma PowerAdds(m: nat, n: nat)
    ensures Power(m + n) == Shifted(Power(m), n)
  {
    assert [true] + Zeros(m + n) == ([true] + Zeros(m)) + Zeros(n);
    ResidueTimes([true] + Zeros(m), n);
  }

  lemma PowerNext(n: nat)
    ensures Power(n + 1) == TimesX(Power(n))
  {
    PowerAdds(n, 1);
    assert Shifted(Power(n), 1) == TimesX(Shifted(Power(n), 0));
  }

  lemma PowerZero()
    ensures Power(0) == Unit(true)
  {
    assert [true] + Zeros(0) == [true];
    ResidueOfShort([true]);
  }

  // ----- Evaluating powers -----

  function View(r: Poly): Cells
    requires |r| == 16
  {
    Cells(r[15], r[14], r[13], r[12], r[11], r[10], r[9], r[8],
          r[7], r[6], r[5], r[4], r[3], r[2], r[1], r[0])
  }

  lemma ViewInjective(p: Poly, q: Poly)
    requires |p| == |q| == 16 && View(p) == View(q)
    ensures p == q
  {
  }

  lemma ViewOne()
    ensures View(Unit(true)) == Hex(0, 0, 0, 1)
  {
  }

  lemma TimesXAt(r: Poly, i: nat)
    requires |r| == 16 && i < 16
    ensures TimesX(r)[i] == ((i < 15 && r[i + 1]) != (r[0] && GeneratorTerm(15 - i)))
  {
  }

  lemma ViewTimesX(r: Poly)
    requires |r| == 16
    ensures View(TimesX(r)) == View(r).TimesX()
  {
    TimesXAt(r, 0); TimesXAt(r, 1); TimesXAt(r, 2); TimesXAt(r, 3);
    TimesXAt(r, 4); TimesXAt(r, 5); TimesXAt(r, 6); TimesXAt(r, 7);
    TimesXAt(r, 8); TimesXAt(r, 9); TimesXAt(r, 10); TimesXAt(r, 11);
    TimesXAt(r, 12); TimesXAt(r, 13); TimesXAt(r, 14); TimesXAt(r, 15);
  }

  lemma SquareStep(r: Poly, q: Poly)
    requires |r| == |q| == 16 && View(q) == View(r).Squared()
    ensures View(TimesX(TimesX(q))) == View(TimesX(r)).Squared()
  {
    SquaredTimesX(View(r));
    ViewTimesX(r);
    ViewTimesX(q);
    ViewTimesX(TimesX(q));
  }

  lemma PowerTwice(m: nat)
    ensures Power(2 * (m + 1)) == TimesX(TimesX(Power(2 * m)))
  {
    PowerNext(2 * m);
    PowerNext(2 * m + 1);
  }

  lemma {:induction false} PowerSquared(n: nat)
    ensures View(Power(2 * n)) == View(Power(n)).Squared()
  {
    if n == 0 {
      PowerZero();
      ViewOne();
    } else {
      var m := n - 1;
      PowerSquared(m);
      SquareStep(Power(m), Power(2 * m));
      PowerNext(m);
      PowerTwice(m);
    }
  }

  /** The power function as seen through `View`. */
  ghost function Viewed(): (f: nat -> Cells)
    ensures forall n: nat :: f(n) == View(Power(n))
  {
    (n: nat) => View(Power(n))
  }

  lemma ViewedPowers()
    ensures Powers(Viewed())
  {
    var f := Viewed();
    PowerZero();
    ViewOne();
    forall n: nat ensures Steps(f, n) {
      PowerNext(n);
      ViewTimesX(Power(n));
      PowerSquared(n);
    }
  }

  lemma PowerOfPeriod()
    ensures Power(PERIOD) == Power(0)
  {
    hide Power, TimesX;
    ViewedPowers();
    Power32768(Viewed());
    assert Steps(Viewed(), 0);
    ViewInjective(Power(32768), Power(1));
    PowerNext(PERIOD);
    PowerNext(0);
    CancelTimesX(Power(PERIOD), Power(0));
  }

  lemma CancelTimesX(a: Poly, b: Poly)
    requires |a| == |b| == 16 && TimesX(a) == TimesX(b)
    ensures a == b
  {
    TimesXLinear(a, b);
    AddZero(TimesX(a));
    TimesXInjective(Add(a, b));
    SumIsZeroIffEqual(a, b);
  }

  lemma {:induction false} CancelShift(a: Poly, b: Poly, n: nat)
    requires |a| == |b| == 16 && Shifted(a, n) == Shifted(b, n)
    ensures a == b
  {
    if n > 0 {
      CancelTimesX(Shifted(a, n - 1), Shifted(b, n - 1));
      CancelShift(a, b, n - 1);
    }
  }

  /** The maximal proper divisors of 32767 = 7 * 31 * 151 are not periods. */
  lemma NoShorterPeriod()
    ensures Power(217) != Power(0) && Power(1057) != Power(0) && Power(4681) != Power(0)
  {
    var f := Viewed();
    ViewedPowers();
    Power217(f);
    Power1057(f);
    Power4681(f);
  }

  ghost predicate IsPeriod(n: nat) {
    Power(n) == Power(0)
  }

  lemma PeriodSum(m: nat, n: nat)
    requires IsPeriod(m)
    ensures IsPeriod(m + n) <==> IsPeriod(n)
  {
    PowerAdds(m, n);
    PowerAdds(0, n);
  }

  /** x^n is 1 exactly for the multiples of 32767. */
  lemma OrderOfX(n: nat)
    ensures Power(n) == Power(0) <==> n % PERIOD == 0
  {
    var p: nat -> bool := Periods();
    forall m: nat, k: nat ensures Adds(p, m, k) {
      if p(m) {
        PeriodSum(m, k);
      }
    }
    PowerOfPeriod();
    NoShorterPeriod();
    PeriodsAreMultiples(p, n);
  }

  ghost function Periods(): (p: nat -> bool)
    ensures forall n: nat :: p(n) <==> IsPeriod(n)
  {
    (n: nat) => IsPeriod(n)
  }

  // ----- Two-bit errors -----

  /** Exactly the coefficients at positions `i` and `j` are set. */
  ghost predicate TwoBits(p: Poly, i: nat, j: nat) {
    i < j < |p| && forall k :: 0 <= k < |p| ==> (p[k] <==> k == i || k == j)
  }

  lemma TwoBitsSplit(p: Poly, i: nat, j: nat)
    requires TwoBits(p, i, j)
    ensures p == Zeros(i) + ([true] + Zeros(j - i - 1) + [true]) + Zeros(|p| - j - 1)
  {
  }

  /** x^n + 1 leaves no remainder exactly when n is a multiple of the period. */
  lemma ResidueOfTwoTerms(n: nat)
    requires n > 0
    ensures Residue([true] + Zeros(n - 1) + [true]) == Zeros(16) <==> n % PERIOD == 0
  {
    var p := [true] + Zeros(n - 1);
    assert (p + [true])[..n] == p;
    assert Residue(p + [true]) == Add(TimesX(Power(n - 1)), Unit(true));
    PowerNext(n - 1);
    PowerZero();
    SumIsZeroIffEqual(Power(n), Power(0));
    OrderOfX(n);
  }

  lemma ResidueOfTwoBits(p: Poly, i: nat, j: nat)
    requires TwoBits(p, i, j)
    ensures Residue(p) == Zeros(16) <==> (j - i) % PERIOD == 0
  {
    var m := [true] + Zeros(j - i - 1) + [true];
    TwoBitsSplit(p, i, j);
    ResidueOfPadded(i, m, |p| - j - 1);
    ShiftedInjective(Residue(m), |p| - j - 1);
    ResidueOfTwoTerms(j - i);
  }

  /**
   * In a good frame of any length, two flipped bits go unnoticed exactly when they are
   * a multiple of 32767 positions apart.
   */
  lemma TwoBitErrorUndetectedIff(body: seq<byte>, e: seq<byte>, i: nat, j: nat)
    requires |body| == |e| >= 2
    requires Sound(true, body) && TwoBits(Bits(e), i, j)
    ensures Sound(true, Corrupted(body, e)) <==> (j - i) % PERIOD == 0
  {
    UndetectedIffDivisible(body, e);
    ResidueOfTwoBits(Bits(e), i, j);
  }

  /** Flipping any one, two or three bits of a frame of up to 1024 payload bytes is noticed. */
  lemma FewFlippedBitsDetected(body: seq<byte>, e: seq<byte>)
    requires |body| == |e| && 2 <= |body| <= 1024 + 2
    requires Sound(true, body) && 1 <= Weight(Bits(e)) <= 3
    ensures !Sound(true, Corrupted(body, e))
  {
    hide Sound, Corrupted, Weight, Bits;
    if Weight(Bits(e)) == 2 {
      var i, j := TwoOfWeightTwo(Bits(e));
      TwoBitErrorUndetectedIff(body, e, i, j);
    } else {
      OddErrorDetected(body, e);
    }
  }

  lemma {:induction false} NoneOfWeightZero(p: Poly)
    requires Weight(p) == 0
    ensures forall k :: 0 <= k < |p| ==> !p[k]
  {
    if p != [] {
      NoneOfWeightZero(p[..|p| - 1]);
    }
  }

  lemma {:induction false} OneOfWeightOne(p: Poly) returns (i: nat)
    requires Weight(p) == 1
    ensures i < |p| && forall k :: 0 <= k < |p| ==> (p[k] <==> k == i)
  {
    var n := |p| - 1;
    if p[n] {
      NoneOfWeightZero(p[..n]);
      i := n;
    } else {
      i := OneOfWeightOne(p[..n]);
    }
  }

  lemma {:induction false} TwoOfWeightTwo(p: Poly) returns (i: nat, j: nat)
    requires Weight(p) == 2
    ensures TwoBits(p, i, j)
  {
    var n := |p| - 1;
    if p[n] {
      i := OneOfWeightOne(p[..n]);
      j := n;
    } else {
      i, j := TwoOfWeightTwo(p[..n]);
    }
  }
}
