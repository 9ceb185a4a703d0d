/** Polynomials over GF(2), and residues modulo the CRC-CCITT generator. */
module Gf2 {

  /** A polynomial over GF(2): its coefficients, highest power first. */
  type Poly = seq<bool>

  /** The exponents of x^16 + x^12 + x^5 + 1. */
  predicate GeneratorTerm(e: int) {
    e == 16 || e == 12 || e == 5 || e == 0
  }

  function Generator(): (g: Poly)
    ensures |g| == 17
  {
    seq(17, i requires 0 <= i < 17 => GeneratorTerm(16 - i))
  }

  function Zeros(n: nat): (p: Poly)
    ensures |p| == n
  {
    seq(n, _ => false)
  }

  function Add(p: Poly, q: Poly): (r: Poly)
    requires |p| == |q|
    ensures |r| == |p|
  {
    seq(|p|, i requires 0 <= i < |p| => p[i] != q[i])
  }

  /** `p` if `c` is 1, the zero polynomial otherwise. */
  function Scale(c: bool, p: Poly): (r: Poly)
    ensures |r| == |p|
  {
    if c then p else Zeros(|p|)
  }

  /** Schoolbook product: shift and add. */
  function Mul(p: Poly, g: Poly): (r: Poly)
    requires |g| > 0
    ensures |r| == |p| + |g| - 1
  {
    if p == [] then Zeros(|g| - 1)
    else
      var n := |p| - 1;
      Add(Mul(p[..n], g) + [false], Zeros(n) + Scale(p[n], g))
  }

  /** Quotient times generator plus remainder. */
  function Recombined(q: Poly, r: Poly): (p: Poly)
    requires |r| == 16
    ensures |p| == |q| + 16
  {
    Add(Mul(q, Generator()), Zeros(|q|) + r)
  }

  /** Dividing `p` by the generator leaves `r`. */
  ghost predicate IsRemainder(p: Poly, r: Poly)
    requires |p| >= 16 && |r| == 16
  {
    exists q: Poly :: |q| == |p| - 16 && Recombined(q, r) == p
  }

  /** `p` is a multiple of the generator. */
  ghost predicate Divisible(p: Poly) {
    exists q: Poly :: Mul(q, Generator()) == p
  }

  /** The number of non-zero coefficients. */
  function Weight(p: Poly): nat {
    if p == [] then 0 else Weight(p[..|p| - 1]) + if p[|p| - 1] then 1 else 0
  }

  // ----- Arithmetic of residues -----

  /** Multiplication by x, as a shift register does it. */
  function TimesX(r: Poly): (s: Poly)
    requires |r| == 16
    ensures |s| == 16
  {
    Add(r[1..] + [false], Scale(r[0], Generator()[1..]))
  }

  /** `n` multiplications by x. */
  function Shifted(r: Poly, n: nat): (s: Poly)
    requires |r| == 16
    ensures |s| == 16
  {
    if n == 0 then r else TimesX(Shifted(r, n - 1))
  }

  function Unit(c: bool): (r: Poly)
    ensures |r| == 16
  {
    Zeros(15) + [c]
  }

  /** Horner evaluation of `p` at x in the residue ring. */
  function Residue(p: Poly): (r: Poly)
    ensures |r| == 16
  {
    if p == [] then Zeros(16)
    else Add(TimesX(Residue(p[..|p| - 1])), Unit(p[|p| - 1]))
  }

  lemma AddZero(p: Poly)
    ensures Add(p, Zeros(|p|)) == p
    ensures Add(Zeros(|p|), p) == p
    ensures Add(p, p) == Zeros(|p|)
  {
  }

  lemma AddRegroups(a: Poly, b: Poly, c: Poly, d: Poly)
    requires |a| == |b| == |c| == |d|
    ensures Add(Add(a, b), Add(c, d)) == Add(Add(a, c), Add(b, d))
  {
  }

  lemma AddAssociates(a: Poly, b: Poly, c: Poly)
    requires |a| == |b| == |c|
    ensures Add(Add(a, b), c) == Add(a, Add(b, c))
  {
  }

  lemma TimesXLinear(a: Poly, b: Poly)
    requires |a| == |b| == 16
    ensures TimesX(Add(a, b)) == Add(TimesX(a), TimesX(b))
  {
    var g := Generator()[1..];
    assert Add(a, b)[1..] + [false] == Add(a[1..] + [false], b[1..] + [false]);
    assert Scale(Add(a, b)[0], g) == Add(Scale(a[0], g), Scale(b[0], g));
    AddRegroups(a[1..] + [false], b[1..] + [false], Scale(a[0], g), Scale(b[0], g));
  }

  /** The generator's constant term is 1, so no residue is lost. */
  lemma TimesXInjective(a: Poly)
    requires |a| == 16
    ensures TimesX(a) == Zeros(16) <==> a == Zeros(16)
  {
    assert TimesX(a)[15] == a[0];
    if TimesX(a) == Zeros(16) {
      assert !a[0];
      AddZero(a[1..] + [false]);
      assert forall i :: 1 <= i < 16 ==> a[i] == (a[1..] + [false])[i - 1];
    }
  }

  lemma {:induction false} ResidueLinear(p: Poly, q: Poly)
    requires |p| == |q|
    ensures Residue(Add(p, q)) == Add(Residue(p), Residue(q))
  {
    hide TimesX;
    if p != [] {
      var n := |p| - 1;
      assert Add(p, q)[..n] == Add(p[..n], q[..n]);
      ResidueLinear(p[..n], q[..n]);
      TimesXLinear(Residue(p[..n]), Residue(q[..n]));
      assert Unit(Add(p, q)[n]) == Add(Unit(p[n]), Unit(q[n]));
      AddRegroups(TimesX(Residue(p[..n])), TimesX(Residue(q[..n])), Unit(p[n]), Unit(q[n]));
    }
  }

  lemma {:induction false} ShiftedLinear(a: Poly, b: Poly, n: nat)
    requires |a| == |b| == 16
    ensures Shifted(Add(a, b), n) == Add(Shifted(a, n), Shifted(b, n))
  {
    if n > 0 {
      ShiftedLinear(a, b, n - 1);
      TimesXLinear(Shifted(a, n - 1), Shifted(b, n - 1));
    }
  }

  lemma {:induction false} ShiftedAdds(r: Poly, m: nat, n: nat)
    requires |r| == 16
    ensures Shifted(Shifted(r, m), n) == Shifted(r, m + n)
  {
    if n > 0 {
      ShiftedAdds(r, m, n - 1);
    }
  }

  lemma {:induction false} ShiftedInjective(r: Poly, n: nat)
    requires |r| == 16
    ensures Shifted(r, n) == Zeros(16) <==> r == Zeros(16)
  {
    if n > 0 {
      ShiftedInjective(r, n - 1);
      TimesXInjective(Shifted(r, n - 1));
    }
  }

  /** p ++ q is p times x^|q|, plus q. */
  lemma {:induction false} ResidueConcat(p: Poly, q: Poly)
    ensures Residue(p + q) == Add(Shifted(Residue(p), |q|), Residue(q))
  {
    hide TimesX, Add;
    if q == [] {
      assert p + q == p;
      AddZero(Residue(p));
    } else {
      var n := |q| - 1;
      assert (p + q)[..|p| + n] == p + q[..n];
      ResidueConcat(p, q[..n]);
      TimesXLinear(Shifted(Residue(p), n), Residue(q[..n]));
      AddAssociates(TimesX(Shifted(Residue(p), n)), TimesX(Residue(q[..n])), Unit(q[n]));
    }
  }

  lemma {:induction false} ResidueOfZeros(n: nat)
    ensures Residue(Zeros(n)) == Zeros(16)
  {
    if n > 0 {
      assert Zeros(n)[..n - 1] == Zeros(n - 1);
      ResidueOfZeros(n - 1);
      TimesXInjective(Zeros(16));
      AddZero(Zeros(16));
      assert Unit(false) == Zeros(16);
    }
  }

  /** Up to 16 coefficients need no reduction. */
  lemma {:induction false} ResidueOfShort(p: Poly)
    requires |p| <= 16
    ensures Residue(p) == Zeros(16 - |p|) + p
  {
    if p == [] {
      assert Zeros(16) + p == Zeros(16);
    } else {
      var n := |p| - 1;
      ResidueOfShort(p[..n]);
      var r := Residue(p[..n]);
      assert !r[0];
      AddZero(r[1..] + [false]);
      assert Add(r[1..] + [false], Unit(p[n])) == Zeros(16 - |p|) + p;
    }
  }

  // ----- Residue is the remainder of polynomial division -----

  /** The generator itself reduces to zero. */
  lemma ResidueOfGenerator()
    ensures Residue(Generator()) == Zeros(16)
  {
    var top := Generator()[..16];
    ResidueOfShort(top);
    assert Zeros(0) + top == top;
    assert top[0] && Generator()[1..][15];
    assert Add(TimesX(top), Unit(true)) == Zeros(16);
  }

  lemma {:induction false} ResidueOfMultiple(q: Poly)
    ensures Residue(Mul(q, Generator())) == Zeros(16)
  {
    if q == [] {
      ResidueOfZeros(16);
    } else {
      var n := |q| - 1;
      var m := Mul(q[..n], Generator());
      var s := Scale(q[n], Generator());
      ResidueLinear(m + [false], Zeros(n) + s);
      ResidueOfMultiple(q[..n]);
      assert (m + [false])[..|m|] == m;
      TimesXInjective(Zeros(16));
      assert Unit(false) == Zeros(16);
      AddZero(Zeros(16));
      ResidueConcat(Zeros(n), s);
      ResidueOfZeros(n);
      ShiftedInjective(Zeros(16), 17);
      ResidueOfGenerator();
      ResidueOfZeros(17);
    }
  }

  /** Long division, one quotient coefficient per step. */
  function Quotient(p: Poly): (q: Poly)
    requires |p| >= 16
    ensures |q| == |p| - 16
  {
    if |p| == 16 then []
    else
      var n := |p| - 1;
      Quotient(p[..n]) + [Residue(p[..n])[0]]
  }

  /** Shifting in one more coefficient: the bit pushed out is the next quotient bit. */
  lemma DivisionStep(r: Poly, c: bool)
    requires |r| == 16
    ensures Add(Scale(r[0], Generator()), [false] + Add(TimesX(r), Unit(c))) == r + [c]
  {
    var l := Add(Scale(r[0], Generator()), [false] + Add(TimesX(r), Unit(c)));
    forall i | 0 <= i < 17 ensures l[i] == (r + [c])[i] {
      if i > 0 {
        assert TimesX(r)[i - 1] == ((r[1..] + [false])[i - 1] != Scale(r[0], Generator()[1..])[i - 1]);
      }
    }
  }

  /** One long-division step, from 17 coefficients to the whole dividend. */
  lemma DivisionCarries(q: Poly, r: Poly, c: bool)
    requires |r| == 16
    ensures Recombined(q + [r[0]], Add(TimesX(r), Unit(c))) == Recombined(q, r) + [c]
  {
    var z, m, s, t := Zeros(|q|), Mul(q, Generator()), Scale(r[0], Generator()), Add(TimesX(r), Unit(c));
    assert (q + [r[0]])[..|q|] == q;
    assert Mul(q + [r[0]], Generator()) == Add(m + [false], z + s);
    DivisionStep(r, c);
    DivisionAssembles(z, m, s, r, t, c);
    assert Zeros(|q| + 1) + t == z + ([false] + t);
  }

  lemma DivisionAssembles(z: Poly, m: Poly, s: Poly, r: Poly, t: Poly, c: bool)
    requires |m| == |z| + 16 && |s| == 17 && |r| == |t| == 16
    requires Add(s, [false] + t) == r + [c] && z == Zeros(|z|)
    ensures Add(Add(m + [false], z + s), z + ([false] + t)) == Add(m, z + r) + [c]
  {
    AddAssociates(m + [false], z + s, z + ([false] + t));
    assert Add(z + s, z + ([false] + t)) == z + (r + [c]);
  }

  lemma RecombinedShort(p: Poly)
    requires |p| == 16
    ensures Recombined([], Residue(p)) == p
  {
    ResidueOfShort(p);
    assert Zeros(0) + Residue(p) == Residue(p) == p;
    AddZero(p);
  }

  lemma {:induction false} QuotientDivides(p: Poly)
    requires |p| >= 16
    ensures Recombined(Quotient(p), Residue(p)) == p
  {
    hide Recombined;
    if |p| == 16 {
      RecombinedShort(p);
    } else {
      var n := |p| - 1;
      QuotientDivides(p[..n]);
      DivisionCarries(Quotient(p[..n]), Residue(p[..n]), p[n]);
      assert p == p[..n] + [p[n]];
    }
  }

  /** Whatever was multiplied and added, the register recovers the low part. */
  lemma ResidueOfDecomposition(q: Poly, r: Poly)
    requires |r| == 16
    ensures Residue(Recombined(q, r)) == r
  {
    ResidueLinear(Mul(q, Generator()), Zeros(|q|) + r);
    ResidueOfMultiple(q);
    ResidueConcat(Zeros(|q|), r);
    ResidueOfZeros(|q|);
    ShiftedInjective(Zeros(16), 16);
    ResidueOfShort(r);
    assert Zeros(0) + r == r;
    AddZero(r);
  }

  /** The shift register computes the remainder: it is one, and it is the only one. */
  lemma ResidueIsRemainder(p: Poly, r: Poly)
    requires |p| >= 16 && |r| == 16
    ensures IsRemainder(p, r) <==> r == Residue(p)
  {
    QuotientDivides(p);
    if IsRemainder(p, r) {
      var q: Poly :| |q| == |p| - 16 && Recombined(q, r) == p;
      ResidueOfDecomposition(q, r);
    }
  }

  lemma RecombinedExactly(q: Poly)
    ensures Recombined(q, Zeros(16)) == Mul(q, Generator())
  {
    assert Zeros(|q|) + Zeros(16) == Zeros(|q| + 16);
    AddZero(Mul(q, Generator()));
  }

  lemma NoResidueIsDivisible(p: Poly)
    requires |p| >= 16 && Residue(p) == Zeros(16)
    ensures Divisible(p)
  {
    var q := Quotient(p);
    QuotientDivides(p);
    RecombinedExactly(q);
    assert Mul(q, Generator()) == p;
  }

  lemma DivisibleIffNoResidue(p: Poly)
    requires |p| >= 16
    ensures Divisible(p) <==> Residue(p) == Zeros(16)
  {
    if Divisible(p) {
      var q: Poly :| Mul(q, Generator()) == p;
      ResidueOfMultiple(q);
    } else if Residue(p) == Zeros(16) {
      NoResidueIsDivisible(p);
    }
  }

  // ----- Which polynomials the generator does not divide -----

  /** A non-zero polynomial whose non-zero coefficients lie within 16 positions of each other. */
  ghost predicate Burst(p: Poly) {
    true in p && exists lo: nat :: Within(p, lo)
  }

  ghost predicate Within(p: Poly, lo: nat) {
    forall i :: 0 <= i < |p| && p[i] ==> lo <= i < lo + 16
  }

  lemma ResidueOfPadded(lo: nat, p: Poly, n: nat)
    ensures Residue(Zeros(lo) + p + Zeros(n)) == Shifted(Residue(p), n)
  {
    ResidueConcat(Zeros(lo), p);
    ResidueOfZeros(lo);
    ShiftedInjective(Zeros(16), |p|);
    AddZero(Residue(p));
    ResidueConcat(Zeros(lo) + p, Zeros(n));
    ResidueOfZeros(n);
    AddZero(Shifted(Residue(p), n));
  }

  lemma BurstIsPadded(p: Poly, lo: nat, hi: nat)
    requires Within(p, lo) && lo <= hi <= |p|
    requires hi == lo + 16 || hi == |p|
    ensures Zeros(lo) + p[lo..hi] + Zeros(|p| - hi) == p
  {
  }

  lemma ShortLeavesResidue(p: Poly, k: nat)
    requires k < |p| <= 16 && p[k]
    ensures Residue(p) != Zeros(16)
  {
    ResidueOfShort(p);
    assert Residue(p)[16 - |p| + k] == p[k];
  }

  lemma PaddedLeavesResidue(lo: nat, p: Poly, n: nat)
    requires Residue(p) != Zeros(16)
    ensures Residue(Zeros(lo) + p + Zeros(n)) != Zeros(16)
  {
    ResidueOfPadded(lo, p, n);
    ShiftedInjective(Residue(p), n);
  }

  lemma BurstLeavesResidue(p: Poly)
    requires Burst(p)
    ensures Residue(p) != Zeros(16)
  {
    var lo: nat :| Within(p, lo);
    var k :| 0 <= k < |p| && p[k];
    var hi := if lo + 16 <= |p| then lo + 16 else |p|;
    assert p[lo..hi][k - lo] == p[k];
    ShortLeavesResidue(p[lo..hi], k - lo);
    BurstIsPadded(p, lo, hi);
    PaddedLeavesResidue(lo, p[lo..hi], |p| - hi);
  }

  predicate Odd(n: int) {
    n % 2 == 1
  }

  lemma {:induction false} WeightConcat(p: Poly, q: Poly)
    ensures Weight(p + q) == Weight(p) + Weight(q)
  {
    if q == [] {
      assert p + q == p;
    } else {
      var n := |q| - 1;
      assert (p + q)[..|p| + n] == p + q[..n];
      WeightConcat(p, q[..n]);
    }
  }

  lemma {:induction false} WeightOfSum(p: Poly, q: Poly)
    requires |p| == |q|
    ensures Odd(Weight(Add(p, q))) <==> Odd(Weight(p)) != Odd(Weight(q))
  {
    if p != [] {
      var n := |p| - 1;
      assert Add(p, q)[..n] == Add(p[..n], q[..n]);
      WeightOfSum(p[..n], q[..n]);
    }
  }

  lemma {:induction false} WeightOfZeros(n: nat)
    ensures Weight(Zeros(n)) == 0
  {
    if n > 0 {
      assert Zeros(n)[..n - 1] == Zeros(n - 1);
      WeightOfZeros(n - 1);
    }
  }

  lemma WeightOfOne(c: bool)
    ensures Weight([c]) == if c then 1 else 0
  {
    assert [c][..0] == [];
  }

  /** x + 1 divides the generator: its weight is even. */
  lemma WeightOfGenerator()
    ensures Weight(Generator()) == 4
  {
    var g := Generator();
    assert g == [true] + Zeros(3) + [true] + Zeros(6) + [true] + Zeros(4) + [true];
    WeightConcat([true] + Zeros(3) + [true] + Zeros(6) + [true] + Zeros(4), [true]);
    WeightConcat([true] + Zeros(3) + [true] + Zeros(6) + [true], Zeros(4));
    WeightConcat([true] + Zeros(3) + [true] + Zeros(6), [true]);
    WeightConcat([true] + Zeros(3) + [true], Zeros(6));
    WeightConcat([true] + Zeros(3), [true]);
    WeightConcat([true], Zeros(3));
    WeightOfOne(true);
    WeightOfZeros(3);
    WeightOfZeros(4);
    WeightOfZeros(6);
  }

  lemma {:induction false} MultiplesHaveEvenWeight(q: Poly)
    ensures !Odd(Weight(Mul(q, Generator())))
  {
    if q == [] {
      WeightOfZeros(16);
    } else {
      var n := |q| - 1;
      var m := Mul(q[..n], Generator());
      var s := Scale(q[n], Generator());
      MultiplesHaveEvenWeight(q[..n]);
      WeightOfSum(m + [false], Zeros(n) + s);
      WeightConcat(m, [false]);
      WeightOfOne(false);
      WeightConcat(Zeros(n), s);
      WeightOfZeros(n);
      WeightOfZeros(17);
      WeightOfGenerator();
    }
  }

  lemma OddWeightLeavesResidue(p: Poly)
    requires |p| >= 16
    requires Odd(Weight(p))
    ensures Residue(p) != Zeros(16)
  {
    if Residue(p) == Zeros(16) {
      DivisibleIffNoResidue(p);
      var q: Poly :| Mul(q, Generator()) == p;
      MultiplesHaveEvenWeight(q);
    }
  }
}
