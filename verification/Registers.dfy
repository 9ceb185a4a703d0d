/** Residues modulo the generator spelled out coefficient by coefficient, so that powers of x can be evaluated. */
module Registers {

  /** The sixteen coefficients, lowest power first. */
  datatype Cells = Cells(c0: bool, c1: bool, c2: bool, c3: bool, c4: bool, c5: bool, c6: bool, c7: bool,
                         c8: bool, c9: bool, c10: bool, c11: bool, c12: bool, c13: bool, c14: bool, c15: bool)
  {
    function TimesX(): Cells {
      Cells(c15, c0, c1, c2, c3, c4 != c15, c5, c6,
            c7, c8, c9, c10, c11 != c15, c12, c13, c14)
    }

    /** Double every exponent, then reduce those of 16 and more. */
    function Squared(): Cells {
      Cells(((((c0 != c8) != c10) != c12) != c14),
            c14,
            ((((c1 != c9) != c11) != c13) != c15),
            c15,
            (((c2 != c10) != c12) != c14),
            (((c8 != c10) != c12) != c14),
            ((((c3 != c11) != c13) != c14) != c15),
            (((c9 != c11) != c13) != c15),
            (((c4 != c12) != c14) != c15),
            ((c10 != c12) != c14),
            ((c5 != c13) != c15),
            ((c11 != c13) != c15),
            (((c6 != c8) != c10) != c12),
            c12,
            (((c7 != c9) != c11) != c13),
            c13)
    }
  }

  /** The residue whose coefficients are those of a four-digit hexadecimal number. */
  function Hex(h3: nat, h2: nat, h1: nat, h0: nat): Cells {
    Cells(h0 % 2 == 1, h0 / 2 % 2 == 1, h0 / 4 % 2 == 1, h0 >= 8,
          h1 % 2 == 1, h1 / 2 % 2 == 1, h1 / 4 % 2 == 1, h1 >= 8,
          h2 % 2 == 1, h2 / 2 % 2 == 1, h2 / 4 % 2 == 1, h2 >= 8,
          h3 % 2 == 1, h3 / 2 % 2 == 1, h3 / 4 % 2 == 1, h3 >= 8)
  }

  /** (x r)^2 = x^2 r^2. */
  lemma SquaredTimesX(c: Cells)
    ensures c.TimesX().Squared() == c.Squared().TimesX().TimesX()
  {
    SquaredTerms0to3(c);
    SquaredTerms4to5(c);
    SquaredTerms6to7(c);
    SquaredTerms8to9(c);
    SquaredTerms10to11(c);
    SquaredTerms12to15(c);
  }

  lemma SquaredTerms0to3(c: Cells)
    ensures c.TimesX().Squared().c0 == c.Squared().TimesX().TimesX().c0
    ensures c.TimesX().Squared().c1 == c.Squared().TimesX().TimesX().c1
    ensures c.TimesX().Squared().c2 == c.Squared().TimesX().TimesX().c2
    ensures c.TimesX().Squared().c3 == c.Squared().TimesX().TimesX().c3
  {
  }

  lemma SquaredTerms4to5(c: Cells)
    ensures c.TimesX().Squared().c4 == c.Squared().TimesX().TimesX().c4
    ensures c.TimesX().Squared().c5 == c.Squared().TimesX().TimesX().c5
  {
  }

  lemma SquaredTerms6to7(c: Cells)
    ensures c.TimesX().Squared().c6 == c.Squared().TimesX().TimesX().c6
    ensures c.TimesX().Squared().c7 == c.Squared().TimesX().TimesX().c7
  {
  }

  lemma SquaredTerms8to9(c: Cells)
    ensures c.TimesX().Squared().c8 == c.Squared().TimesX().TimesX().c8
    ensures c.TimesX().Squared().c9 == c.Squared().TimesX().TimesX().c9
  {
  }

  lemma SquaredTerms10to11(c: Cells)
    ensures c.TimesX().Squared().c10 == c.Squared().TimesX().TimesX().c10
    ensures c.TimesX().Squared().c11 == c.Squared().TimesX().TimesX().c11
  {
  }

  lemma SquaredTerms12to15(c: Cells)
    ensures c.TimesX().Squared().c12 == c.Squared().TimesX().TimesX().c12
    ensures c.TimesX().Squared().c13 == c.Squared().TimesX().TimesX().c13
    ensures c.TimesX().Squared().c14 == c.Squared().TimesX().TimesX().c14
    ensures c.TimesX().Squared().c15 == c.Squared().TimesX().TimesX().c15
  {
  }

  // ----- Square and multiply -----

  ghost predicate Steps(f: nat -> Cells, n: nat) {
    f(n + 1) == f(n).TimesX() && f(2 * n) == f(n).Squared()
  }

  /** `f(n)` is x^n for every `n`. */
  ghost predicate Powers(f: nat -> Cells) {
    f(0) == Hex(0, 0, 0, 1) && forall n: nat :: Steps(f, n)
  }

  lemma Power1(f: nat -> Cells)
    requires Powers(f)
    ensures f(1) == Hex(0x0, 0x0, 0x0, 0x2)
  {
    assert Steps(f, 0);
  }

  lemma Power2(f: nat -> Cells)
    requires Powers(f)
    ensures f(2) == Hex(0x0, 0x0, 0x0, 0x4)
  {
    Power1(f);
    assert Steps(f, 1);
  }

  lemma Power3(f: nat -> Cells)
    requires Powers(f)
    ensures f(3) == Hex(0x0, 0x0, 0x0, 0x8)
  {
    Power2(f);
    assert Steps(f, 2);
  }

  lemma Power4(f: nat -> Cells)
    requires Powers(f)
    ensures f(4) == Hex(0x0, 0x0, 0x1, 0x0)
  {
    Power2(f);
    assert Steps(f, 2);
  }

  lemma Power8(f: nat -> Cells)
    requires Powers(f)
    ensures f(8) == Hex(0x0, 0x1, 0x0, 0x0)
  {
    Power4(f);
    assert Steps(f, 4);
  }

  lemma Power16(f: nat -> Cells)
    requires Powers(f)
    ensures f(16) == Hex(0x1, 0x0, 0x2, 0x1)
  {
    Power8(f);
    assert Steps(f, 8) && f(16) == Hex(0x1, 0x0, 0x2, 0x1);
  }

  lemma Power256(f: nat -> Cells)
    requires Powers(f)
    ensures f(256) == Hex(0x8, 0xe, 0x2, 0x9)
  {
    Power16(f);
    assert Steps(f, 16) && f(32) == Hex(0x3, 0x7, 0x3, 0x0);
    assert Steps(f, 32) && f(64) == Hex(0xb, 0x8, 0x6, 0x1);
    assert Steps(f, 64) && f(128) == Hex(0xa, 0xe, 0xf, 0xc);
    assert Steps(f, 128) && f(256) == Hex(0x8, 0xe, 0x2, 0x9);
  }

  lemma Power4096(f: nat -> Cells)
    requires Powers(f)
    ensures f(4096) == Hex(0xa, 0xa, 0x9, 0xe)
  {
    Power256(f);
    assert Steps(f, 256) && f(512) == Hex(0x1, 0x3, 0xf, 0xc);
    assert Steps(f, 512) && f(1024) == Hex(0x3, 0x6, 0xc, 0x4);
    assert Steps(f, 1024) && f(2048) == Hex(0xf, 0xd, 0x5, 0x0);
    assert Steps(f, 2048) && f(4096) == Hex(0xa, 0xa, 0x9, 0xe);
  }

  lemma Power32768(f: nat -> Cells)
    requires Powers(f)
    ensures f(32768) == Hex(0x0, 0x0, 0x0, 0x2)
  {
    Power4096(f);
    assert Steps(f, 4096) && f(8192) == Hex(0x8, 0x8, 0x1, 0xc);
    assert Steps(f, 8192) && f(16384) == Hex(0x4, 0x4, 0x5, 0x8);
    assert Steps(f, 16384) && f(32768) == Hex(0x0, 0x0, 0x0, 0x2);
  }

  lemma Power27(f: nat -> Cells)
    requires Powers(f)
    ensures f(27) == Hex(0x8, 0x9, 0xa, 0x9)
  {
    Power3(f);
    assert Steps(f, 3) && f(6) == Hex(0x0, 0x0, 0x4, 0x0);
    assert Steps(f, 6) && f(12) == Hex(0x1, 0x0, 0x0, 0x0);
    assert Steps(f, 12) && f(13) == Hex(0x2, 0x0, 0x0, 0x0);
    assert Steps(f, 13) && f(26) == Hex(0xc, 0xc, 0xc, 0x4);
    assert Steps(f, 26) && f(27) == Hex(0x8, 0x9, 0xa, 0x9);
  }

  lemma Power217(f: nat -> Cells)
    requires Powers(f)
    ensures f(217) == Hex(0x4, 0x8, 0xe, 0x3)
  {
    Power27(f);
    assert Steps(f, 27) && f(54) == Hex(0x1, 0x1, 0x6, 0x8);
    assert Steps(f, 54) && f(108) == Hex(0x3, 0x7, 0x5, 0x0);
    assert Steps(f, 108) && f(216) == Hex(0xa, 0xc, 0x6, 0x1);
    assert Steps(f, 216) && f(217) == Hex(0x4, 0x8, 0xe, 0x3);
  }

  lemma Power132(f: nat -> Cells)
    requires Powers(f)
    ensures f(132) == Hex(0x4, 0xe, 0x8, 0xa)
  {
    Power16(f);
    assert Steps(f, 16) && f(32) == Hex(0x3, 0x7, 0x3, 0x0);
    assert Steps(f, 32) && f(33) == Hex(0x6, 0xe, 0x6, 0x0);
    assert Steps(f, 33) && f(66) == Hex(0xc, 0x1, 0xc, 0x6);
    assert Steps(f, 66) && f(132) == Hex(0x4, 0xe, 0x8, 0xa);
  }

  lemma Power1057(f: nat -> Cells)
    requires Powers(f)
    ensures f(1057) == Hex(0xf, 0x2, 0xa, 0xf)
  {
    Power132(f);
    assert Steps(f, 132) && f(264) == Hex(0x5, 0x9, 0x4, 0x6);
    assert Steps(f, 264) && f(528) == Hex(0x7, 0x8, 0xb, 0x3);
    assert Steps(f, 528) && f(1056) == Hex(0xf, 0x1, 0x4, 0x7);
    assert Steps(f, 1056) && f(1057) == Hex(0xf, 0x2, 0xa, 0xf);
  }

  lemma Power36(f: nat -> Cells)
    requires Powers(f)
    ensures f(36) == Hex(0x4, 0x3, 0x6, 0x3)
  {
    Power8(f);
    assert Steps(f, 8) && f(9) == Hex(0x0, 0x2, 0x0, 0x0);
    assert Steps(f, 9) && f(18) == Hex(0x4, 0x0, 0x8, 0x4);
    assert Steps(f, 18) && f(36) == Hex(0x4, 0x3, 0x6, 0x3);
  }

  lemma Power292(f: nat -> Cells)
    requires Powers(f)
    ensures f(292) == Hex(0x1, 0x3, 0x9, 0x6)
  {
    Power36(f);
    assert Steps(f, 36) && f(72) == Hex(0x4, 0x7, 0xd, 0x3);
    assert Steps(f, 72) && f(73) == Hex(0x8, 0xf, 0xa, 0x6);
    assert Steps(f, 73) && f(146) == Hex(0x4, 0x3, 0x8, 0x8);
    assert Steps(f, 146) && f(292) == Hex(0x1, 0x3, 0x9, 0x6);
  }

  lemma Power4681(f: nat -> Cells)
    requires Powers(f)
    ensures f(4681) == Hex(0x2, 0xc, 0x4, 0x2)
  {
    Power292(f);
    assert Steps(f, 292) && f(584) == Hex(0x2, 0x2, 0x8, 0x0);
    assert Steps(f, 584) && f(585) == Hex(0x4, 0x5, 0x0, 0x0);
    assert Steps(f, 585) && f(1170) == Hex(0x0, 0x1, 0x6, 0x3);
    assert Steps(f, 1170) && f(2340) == Hex(0x0, 0x4, 0x2, 0x4);
    assert Steps(f, 2340) && f(4680) == Hex(0x1, 0x6, 0x2, 0x1);
    assert Steps(f, 4680) && f(4681) == Hex(0x2, 0xc, 0x4, 0x2);
  }
}
