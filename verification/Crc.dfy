/** `crc16_ccitt` and the frame check of the receiver, against polynomial division over GF(2). */
module Crc {
  import opened Gf2
  import opened Sequences

  type byte = b: int | 0 <= b < 256

  // ----- Machine words as bits -----

  /** The low `n` bits of `v`, most significant first. */
  function BitsOf(v: nat, n: nat): (p: Poly)
    ensures |p| == n
  {
    if n == 0 then [] else BitsOf(v / 2, n - 1) + [v % 2 == 1]
  }

  function ValueOf(p: Poly): nat {
    if p == [] then 0 else 2 * ValueOf(p[..|p| - 1]) + if p[|p| - 1] then 1 else 0
  }

  function Pow2(n: nat): (r: nat)
    ensures r > 0
  {
    if n == 0 then 1 else 2 * Pow2(n - 1)
  }

  lemma {:induction false} BitsOfValue(p: Poly)
    ensures BitsOf(ValueOf(p), |p|) == p
    ensures ValueOf(p) < Pow2(|p|)
  {
    if p != [] {
      BitsOfValue(p[..|p| - 1]);
    }
  }

  lemma {:induction false} ValueOfBits(v: nat, n: nat)
    requires v < Pow2(n)
    ensures ValueOf(BitsOf(v, n)) == v
  {
    if n > 0 {
      ValueOfBits(v / 2, n - 1);
      assert BitsOf(v, n)[..n - 1] == BitsOf(v / 2, n - 1);
    }
  }

  /** `a` shifted left by `n` bits. */
  function Shl(a: nat, n: nat): nat
    decreases n
  {
    if n == 0 then a else 2 * Shl(a, n - 1)
  }

  /** Setting two bit fields side by side is shifting the left one. */
  lemma {:induction false} BitsOfPair(a: nat, b: nat, m: nat, n: nat)
    requires b < Pow2(n)
    ensures BitsOf(Shl(a, n) + b, m + n) == BitsOf(a, m) + BitsOf(b, n)
    decreases n
  {
    if n > 0 {
      BitsOfPair(a, b / 2, m, n - 1);
      assert (Shl(a, n) + b) / 2 == Shl(a, n - 1) + b / 2;
      Associates(BitsOf(a, m), BitsOf(b / 2, n - 1), [b % 2 == 1]);
    }
  }

  lemma Pow2Constants()
    ensures Pow2(8) == 0x100 && Pow2(15) == 0x8000 && Pow2(16) == 0x10000
  {
    assert Pow2(8) == 0x100;
    assert Pow2(9) == 0x200 && Pow2(10) == 0x400 && Pow2(11) == 0x800 && Pow2(12) == 0x1000;
    assert Pow2(13) == 0x2000 && Pow2(14) == 0x4000 && Pow2(15) == 0x8000;
  }

  lemma {:induction false} ShlIsTimes(a: nat, n: nat)
    ensures Shl(a, n) == a * Pow2(n)
    decreases n
  {
    if n > 0 {
      ShlIsTimes(a, n - 1);
      assert 2 * (a * Pow2(n - 1)) == a * (2 * Pow2(n - 1));
    }
  }

  // ----- The 16-bit register -----

  type word = w: int | 0 <= w < 0x10000

  const WIDTH: nat := 16

  /** The bits of a register, the highest first. */
  function Word(w: word): (p: Poly)
    ensures |p| == 16
  {
    BitsOf(w, WIDTH)
  }

  lemma WordValue(w: word)
    ensures ValueOf(Word(w)) == w
  {
    Pow2Constants();
    ValueOfBits(w, 16);
  }

  /** The exclusive-or of two words. */
  function Xor(a: word, b: word): (r: word)
    ensures Word(r) == Add(Word(a), Word(b))
  {
    Pow2Constants();
    BitsOfValue(Add(Word(a), Word(b)));
    ValueOf(Add(Word(a), Word(b)))
  }

  lemma TopBit(top: nat)
    requires top < 2
    ensures BitsOf(top, 1) == [top == 1]
  {
    assert BitsOf(top / 2, 0) == [];
  }

  lemma DoubledBits(v: nat, n: nat)
    ensures BitsOf(2 * v, n + 1) == BitsOf(v, n) + [false]
  {
  }

  lemma Halves(top: nat, low: nat)
    requires top < 2 && low < 0x8000
    ensures Word(0x8000 * top + low) == [top == 1] + BitsOf(low, 15)
  {
    hide Shl, Pow2, BitsOf;
    Pow2Constants();
    ShlIsTimes(top, 15);
    BitsOfPair(top, low, 1, 15);
    TopBit(top);
  }

  /** A 16-bit word shifted left by one: the high bit falls out. */
  lemma ShiftedWord(w: word)
    ensures Word(w)[0] <==> w >= 0x8000
    ensures Word((2 * w) % 0x10000) == Word(w)[1..] + [false]
  {
    if w >= 0x8000 {
      ShiftedHalves(w, 1, w - 0x8000);
    } else {
      ShiftedHalves(w, 0, w);
    }
  }

  lemma ShiftedHalves(w: word, top: nat, low: nat)
    requires top < 2 && low < 0x8000 && w == 0x8000 * top + low
    ensures Word(w)[0] <==> top == 1
    ensures Word((2 * w) % 0x10000) == Word(w)[1..] + [false]
  {
    Halves(top, low);
    TakesBack([top == 1], BitsOf(low, 15));
    HighBitFallsOut(w, top, low);
    DoubledBits(low, 15);
  }

  lemma HighBitFallsOut(w: word, top: nat, low: nat)
    requires top < 2 && low < 0x8000 && w == 0x8000 * top + low
    ensures (2 * w) % 0x10000 == 2 * low
  {
  }

  function ByteBits(b: byte): (p: Poly)
    ensures |p| == 8
  {
    BitsOf(b, 8)
  }

  /** The bits of a byte string in transmission order of the polynomial: first byte first, high bit first. */
  function Bits(m: seq<byte>): (p: Poly)
    ensures |p| == 8 * |m|
  {
    if m == [] then [] else Bits(m[..|m| - 1]) + ByteBits(m[|m| - 1])
  }

  lemma {:induction false} BitsConcat(a: seq<byte>, b: seq<byte>)
    ensures Bits(a + b) == Bits(a) + Bits(b)
  {
    if b == [] {
      assert a + b == a;
    } else {
      var n := |b| - 1;
      assert (a + b)[..|a| + n] == a + b[..n];
      BitsConcat(a, b[..n]);
    }
  }

  // ----- The checksum value -----

  /** The remainder of message times x^16; see `Crc16IsRemainder`. */
  function Crc16(m: seq<byte>): (r: Poly)
    ensures |r| == 16
  {
    Residue(Bits(m) + Zeros(16))
  }

  /** `Crc16` is the one polynomial of degree below 16 that polynomial division leaves over. */
  lemma Crc16IsRemainder(m: seq<byte>, r: Poly)
    requires |r| == 16
    ensures IsRemainder(Bits(m) + Zeros(16), r) <==> r == Crc16(m)
  {
    ResidueIsRemainder(Bits(m) + Zeros(16), r);
  }

  lemma ResidueTimes(p: Poly, n: nat)
    ensures Residue(p + Zeros(n)) == Shifted(Residue(p), n)
  {
    ResidueConcat(p, Zeros(n));
    ResidueOfZeros(n);
    AddZero(Shifted(Residue(p), n));
  }

  lemma Crc16Empty()
    ensures Crc16([]) == Zeros(16) == Word(0)
  {
    ResidueOfZeros(16);
    assert Bits([]) + Zeros(16) == Zeros(16);
    BitsOfNought(WIDTH);
  }

  /** One byte through the register: exclusive-or into the high half, then eight shifts. */
  lemma Crc16Step(m: seq<byte>, b: byte)
    ensures Shifted(Add(Crc16(m), ByteBits(b) + Zeros(8)), 8) == Crc16(m + [b])
  {
    var r, c := Residue(Bits(m)), Residue(ByteBits(b));
    ResidueTimes(Bits(m), 16);
    ShiftedAdds(r, 8, 8);
    ResidueTimes(ByteBits(b), 8);
    ResidueOfShort(ByteBits(b) + Zeros(8));
    assert Zeros(0) + (ByteBits(b) + Zeros(8)) == ByteBits(b) + Zeros(8);
    ShiftedLinear(Shifted(r, 8), c, 8);
    ResidueConcat(Bits(m), ByteBits(b));
    assert (m + [b])[..|m|] == m;
    ResidueTimes(Bits(m + [b]), 16);
    ShiftedAdds(Residue(Bits(m + [b])), 8, 8);
  }

  /** The constant 0x1021 is the generator without its leading term. */
  lemma TapsAreGenerator()
    ensures Word(0x1021) == Generator()[1..]
  {
    Pow2Constants();
    ShlIsTimes(0x10, 8);
    BitsOfPair(0x10, 0x21, 8, 8);
    HighTaps();
    LowTaps();
  }

  lemma HighTaps()
    ensures BitsOf(0x10, 8) == seq(8, i => GeneratorTerm(15 - i))
  {
  }

  lemma LowTaps()
    ensures BitsOf(0x21, 8) == seq(8, i => GeneratorTerm(7 - i))
  {
  }

  /** The body of the inner loop of `crc16_ccitt`. */
  function Turned(crc: word): word {
    if crc >= 0x8000 then Xor((2 * crc) % 0x10000, 0x1021) else (2 * crc) % 0x10000
  }

  /** One turn of the inner loop multiplies by x. */
  lemma TurnsByX(crc: word)
    ensures Word(Turned(crc)) == TimesX(Word(crc))
  {
    ShiftedWord(crc);
    TapsAreGenerator();
    AddZero(Word(crc)[1..] + [false]);
  }

  lemma {:induction false} BitsOfNought(n: nat)
    ensures BitsOf(0, n) == Zeros(n)
  {
    if n > 0 {
      BitsOfNought(n - 1);
    }
  }

  /** A byte in the high half of a word. */
  lemma HighByte(b: byte)
    ensures Word(b * 0x100) == ByteBits(b) + Zeros(8)
  {
    WordOfBytes(b, 0);
    BitsOfNought(8);
  }

  /** The body of the outer loop of `crc16_ccitt`: a byte into the high half, then eight turns. */
  method ShiftIn(crc: word, b: byte, ghost m: seq<byte>) returns (crc': word)
    requires Word(crc) == Crc16(m)
    ensures Word(crc') == Crc16(m + [b])
    ensures Word(crc') == Shifted(Add(Word(crc), ByteBits(b) + Zeros(8)), 8)
  {
    crc' := Xor(crc, b * 0x100);
    HighByte(b);
    Crc16Step(m, b);
    ghost var start := Word(crc');
    for i := 0 to 8
      invariant Word(crc') == Shifted(start, i)
    {
      TurnsByX(crc');
      crc' := Turned(crc');
    }
  }

  /** `crc16_ccitt` on `len` bytes of `buf` from `off` on. */
  method Crc16Ccitt(buf: array<byte>, off: nat, len: nat) returns (crc: word)
    requires off + len <= buf.Length
    ensures Word(crc) == Crc16(buf[off..off + len])
  {
    hide Crc16, Word, Residue, Bits, BitsOf;
    crc := 0;
    Crc16Empty();
    var p := off;
    var remain := len;
    ghost var data, done := buf[off..off + len], [];
    while remain > 0
      invariant p == off + |done| && |done| + remain == len && done <= data
      invariant Word(crc) == Crc16(done)
    {
      crc := ShiftIn(crc, buf[p], done);
      done := done + [buf[p]];
      p := p + 1;
      remain := remain - 1;
    }
    assert done == data;
  }

  // ----- The frame check -----

  function Sum(m: seq<byte>): nat {
    if m == [] then 0 else Sum(m[..|m| - 1]) + m[|m| - 1]
  }

  /** The number of trailer bytes after the payload. */
  function TrailerSize(isCrc: bool): nat {
    if isCrc then 2 else 1
  }

  /** `body` is a payload followed by the trailer that belongs to it. */
  predicate Sound(isCrc: bool, body: seq<byte>)
    requires |body| >= TrailerSize(isCrc)
  {
    var n := |body| - TrailerSize(isCrc);
    if isCrc then Crc16(body[..n]) == ByteBits(body[n]) + ByteBits(body[n + 1])
    else Sum(body[..n]) % 256 == body[n]
  }

  /** Two bytes as a word, the high one first. */
  function Paired(hi: byte, lo: byte): word {
    var high: int := hi;
    high * 0x100 + lo
  }

  lemma WordOfBytes(hi: byte, lo: byte)
    ensures Word(Paired(hi, lo)) == ByteBits(hi) + ByteBits(lo)
  {
    Pow2Constants();
    ShlIsTimes(hi, 8);
    BitsOfPair(hi, lo, 8, 8);
  }

  lemma SumStep(m: seq<byte>, b: byte)
    ensures Sum(m + [b]) == Sum(m) + b
  {
    assert (m + [b])[..|m|] == m;
  }

  /** The sum of the parts is the sum of the whole, from 0 on, and a single byte is its own sum. */
  lemma {:induction false} SumConcat(a: seq<byte>, b: seq<byte>)
    ensures Sum(a + b) == Sum(a) + Sum(b)
    ensures Sum([]) == 0
    ensures |b| == 1 ==> Sum(b) == b[0]
  {
    if b == [] {
      assert a + b == a;
    } else {
      var n := |b| - 1;
      assert (a + b)[..|a| + n] == a + b[..n];
      SumConcat(a, b[..n]);
    }
  }

  lemma {:induction false} SumOfSame(n: nat, b: byte)
    ensures Sum(seq(n, _ => b)) == n * b
  {
    if n > 0 {
      assert seq(n, _ => b)[..n - 1] == seq(n - 1, _ => b);
      SumOfSame(n - 1, b);
    }
  }

  /** `n` times the byte `b` as payload, in checksum mode: 128 zeros are accepted with the trailer 0 only. */
  lemma ChecksumOfSame(n: nat, b: byte, t: byte)
    ensures Sound(false, seq(n, _ => b) + [t]) <==> t == (n * b) % 256
    ensures Sound(false, seq(128, _ => 0) + [t]) <==> t == 0
    ensures Sound(false, [b, t]) <==> t == b
  {
    TakesBack(seq(n, _ => b), [t]);
    SumOfSame(n, b);
    TakesBack(seq(128, _ => 0), [t]);
    SumOfSame(128, 0);
    SumOfSame(1, b);
    assert [b, t][..1] == seq(1, _ => b);
  }

  /** The loop of `check` in checksum mode. */
  method Checksum(buf: array<byte>, off: nat, sz: nat) returns (cks: byte)
    requires off + sz <= buf.Length
    ensures cks == Sum(buf[off..off + sz]) % 256
  {
    cks := 0;
    ghost var data := buf[off..off + sz];
    for i := 0 to sz
      invariant cks == Sum(data[..i]) % 256
    {
      SumStep(data[..i], buf[off + i]);
      TakesOneMore(data, i);
      cks := (cks + buf[off + i]) % 256;
    }
    TakesAll(data);
  }

  /** The comparison of `check` in CRC mode. */
  lemma TrailerCompared(body: seq<byte>, crc: word, tcrc: word)
    requires |body| >= 2
    requires var n := |body| - 2; Word(crc) == Crc16(body[..n]) && tcrc == Paired(body[n], body[n + 1])
    ensures crc == tcrc <==> Sound(true, body)
  {
    WordOfBytes(body[|body| - 2], body[|body| - 1]);
    WordValue(crc);
    WordValue(tcrc);
  }

  /** `check`. */
  method Check(isCrc: bool, buf: array<byte>, off: nat, sz: nat) returns (ok: bool)
    requires off + sz + TrailerSize(isCrc) <= buf.Length
    ensures ok <==> Sound(isCrc, buf[off..off + sz + TrailerSize(isCrc)])
  {
    ghost var body := buf[off..off + sz + TrailerSize(isCrc)];
    assert body[..sz] == buf[off..off + sz];
    assert body[sz] == buf[off + sz];
    if isCrc {
      var crc := Crc16Ccitt(buf, off, sz);
      var tcrc := Paired(buf[off + sz], buf[off + sz + 1]);
      TrailerCompared(body, crc, tcrc);
      if crc == tcrc {
        return true;
      }
    } else {
      var cks := Checksum(buf, off, sz);
      if cks == buf[off + sz] {
        return true;
      }
    }
    return false;
  }

  /** The trailer a sender appends. */
  function Trailer(isCrc: bool, payload: seq<byte>): (t: seq<byte>)
    ensures |t| == TrailerSize(isCrc)
  {
    if isCrc then
      var crc := Crc16(payload);
      BitsOfValue(crc[..8]);
      BitsOfValue(crc[8..]);
      Pow2Constants();
      [ValueOf(crc[..8]), ValueOf(crc[8..])]
    else [Sum(payload) % 256]
  }

  /** A trailer passes the check exactly when it is the sender's. */
  lemma TrailerIsUnique(isCrc: bool, payload: seq<byte>, t: seq<byte>)
    requires |t| == TrailerSize(isCrc)
    ensures Sound(isCrc, payload + t) <==> t == Trailer(isCrc, payload)
  {
    var body := payload + t;
    assert body[..|payload|] == payload;
    if isCrc {
      var crc := Crc16(payload);
      BitsOfValue(crc[..8]);
      BitsOfValue(crc[8..]);
      Pow2Constants();
      ValueOfBits(t[0], 8);
      ValueOfBits(t[1], 8);
      assert crc == crc[..8] + crc[8..];
      if Sound(isCrc, body) {
        assert crc[..8] == ByteBits(t[0]) && crc[8..] == ByteBits(t[1]);
        assert t == [t[0], t[1]];
      }
    } else {
      assert t == [t[0]];
    }
  }

  // ----- Which errors the CRC lets through -----

  /** Payload and trailer as one polynomial: the remainder is what `check` compares. */
  lemma ResidueOfFrame(m: seq<byte>, hi: byte, lo: byte)
    ensures Residue(Bits(m + [hi, lo])) == Add(Crc16(m), ByteBits(hi) + ByteBits(lo))
  {
    var trailer := ByteBits(hi) + ByteBits(lo);
    BitsConcat(m, [hi, lo]);
    assert [hi, lo][..1] == [hi] && [hi][..0] == [];
    assert Bits([hi, lo]) == trailer;
    ResidueConcat(Bits(m), trailer);
    ResidueTimes(Bits(m), 16);
    ResidueOfShort(trailer);
    assert Zeros(0) + trailer == trailer;
  }

  /** A frame passes exactly when its polynomial is a multiple of the generator. */
  lemma SoundIffDivisible(body: seq<byte>)
    requires |body| >= 2
    ensures Sound(true, body) <==> Residue(Bits(body)) == Zeros(16)
    ensures Sound(true, body) <==> Divisible(Bits(body))
  {
    hide Residue, Bits, Divisible, Sound;
    var n := |body| - 2;
    assert body == body[..n] + [body[n], body[n + 1]];
    SoundPair(body[..n], body[n], body[n + 1]);
    DivisibleIffNoResidue(Bits(body));
  }

  lemma SoundPair(m: seq<byte>, hi: byte, lo: byte)
    ensures Sound(true, m + [hi, lo]) <==> Residue(Bits(m + [hi, lo])) == Zeros(16)
  {
    hide Crc16, Residue, Bits, ByteBits, Zeros;
    TakesBack(m, [hi, lo]);
    ResidueOfFrame(m, hi, lo);
    SumIsZeroIffEqual(Crc16(m), ByteBits(hi) + ByteBits(lo));
  }

  /** A frame passes exactly when the CRC taken over payload and trailer is 0. */
  lemma SoundIffCrcIsZero(body: seq<byte>)
    requires |body| >= 2
    ensures Sound(true, body) <==> Crc16(body) == Zeros(16)
  {
    SoundIffDivisible(body);
    ResidueTimes(Bits(body), 16);
    ShiftedInjective(Residue(Bits(body)), 16);
  }

  lemma SumIsZeroIffEqual(p: Poly, q: Poly)
    requires |p| == |q|
    ensures Add(p, q) == Zeros(|p|) <==> p == q
  {
    if Add(p, q) == Zeros(|p|) {
      forall i | 0 <= i < |p| ensures p[i] == q[i] {
        assert Add(p, q)[i] == Zeros(|p|)[i];
      }
    } else if p == q {
      AddZero(p);
    }
  }

  /** The byte whose bits are those of `a` with the bits of `e` flipped. */
  function Flip(a: byte, e: byte): byte {
    BitsOfValue(Add(ByteBits(a), ByteBits(e)));
    Pow2Constants();
    ValueOf(Add(ByteBits(a), ByteBits(e)))
  }

  /** `body` after a line error with pattern `e`. */
  function Corrupted(body: seq<byte>, e: seq<byte>): (r: seq<byte>)
    requires |body| == |e|
    ensures |r| == |body|
  {
    seq(|body|, i requires 0 <= i < |body| => Flip(body[i], e[i]))
  }

  lemma {:induction false} BitsOfCorrupted(body: seq<byte>, e: seq<byte>)
    requires |body| == |e|
    ensures Bits(Corrupted(body, e)) == Add(Bits(body), Bits(e))
  {
    if body != [] {
      var n := |body| - 1;
      assert Corrupted(body, e)[..n] == Corrupted(body[..n], e[..n]);
      BitsOfCorrupted(body[..n], e[..n]);
      BitsOfValue(Add(ByteBits(body[n]), ByteBits(e[n])));
    }
  }

  /** An error in a good frame goes unnoticed exactly when its pattern is a multiple of the generator. */
  lemma UndetectedIffDivisible(body: seq<byte>, e: seq<byte>)
    requires |body| == |e| >= 2
    requires Sound(true, body)
    ensures Sound(true, Corrupted(body, e)) <==> Divisible(Bits(e))
    ensures Sound(true, Corrupted(body, e)) <==> Residue(Bits(e)) == Zeros(16)
  {
    BitsOfCorrupted(body, e);
    ResidueLinear(Bits(body), Bits(e));
    SoundIffDivisible(body);
    SoundIffDivisible(Corrupted(body, e));
    AddZero(Residue(Bits(e)));
    DivisibleIffNoResidue(Bits(e));
  }

  /** Every burst of at most 16 bits is noticed, in a frame of any length. */
  lemma BurstDetected(body: seq<byte>, e: seq<byte>)
    requires |body| == |e| >= 2
    requires Sound(true, body) && Burst(Bits(e))
    ensures !Sound(true, Corrupted(body, e))
  {
    UndetectedIffDivisible(body, e);
    BurstLeavesResidue(Bits(e));
  }

  /** Every odd number of flipped bits is noticed, in a frame of any length. */
  lemma OddErrorDetected(body: seq<byte>, e: seq<byte>)
    requires |body| == |e| >= 2
    requires Sound(true, body) && Odd(Weight(Bits(e)))
    ensures !Sound(true, Corrupted(body, e))
  {
    UndetectedIffDivisible(body, e);
    OddWeightLeavesResidue(Bits(e));
  }

  // ----- One wrong byte -----

  lemma ByteBitsInjective(a: byte, b: byte)
    requires ByteBits(a) == ByteBits(b)
    ensures a == b
  {
    Pow2Constants();
    ValueOfBits(a, 8);
    ValueOfBits(b, 8);
  }

  lemma FlipBits(a: byte, e: byte)
    ensures ByteBits(Flip(a, e)) == Add(ByteBits(a), ByteBits(e))
  {
    BitsOfValue(Add(ByteBits(a), ByteBits(e)));
  }

  /** What has been flipped between two bytes, and what flipping nothing does. */
  lemma FlipBack(a: byte, x: byte)
    ensures Flip(a, Flip(a, x)) == x
    ensures Flip(a, 0) == a
    ensures Flip(a, x) == 0 ==> a == x
  {
    var d := Flip(a, x);
    FlipBits(a, x);
    FlipBits(a, d);
    FlipBits(a, 0);
    BitsOfNought(8);
    AddZero(ByteBits(a));
    AddTwice(ByteBits(a), ByteBits(x));
    ByteBitsInjective(Flip(a, d), x);
    ByteBitsInjective(Flip(a, 0), a);
    if d == 0 {
      SumIsZeroIffEqual(ByteBits(a), ByteBits(x));
      ByteBitsInjective(a, x);
    }
  }

  lemma AddTwice(p: Poly, q: Poly)
    requires |p| == |q|
    ensures Add(p, Add(p, q)) == q
  {
  }

  /** The error pattern that turns the byte at `k` into `x`. */
  function Pattern(body: seq<byte>, k: nat, x: byte): (e: seq<byte>)
    requires k < |body|
    ensures |e| == |body|
  {
    seq(|body|, i requires 0 <= i < |body| => if i == k then Flip(body[k], x) else 0)
  }

  lemma PatternCorrupts(body: seq<byte>, k: nat, x: byte)
    requires k < |body|
    ensures Corrupted(body, Pattern(body, k, x)) == body[k := x]
  {
    var e := Pattern(body, k, x);
    forall i | 0 <= i < |body| ensures Corrupted(body, e)[i] == body[k := x][i] {
      FlipBack(body[i], x);
    }
  }

  /** Where the bits of a byte are. */
  lemma {:induction false} BitsAt(m: seq<byte>, i: nat, j: nat)
    requires i < |m| && j < 8
    ensures Bits(m)[8 * i + j] == ByteBits(m[i])[j]
  {
    if i < |m| - 1 {
      BitsAt(m[..|m| - 1], i, j);
    }
  }

  lemma PatternIsBurst(body: seq<byte>, k: nat, x: byte)
    requires k < |body| && x != body[k]
    ensures Burst(Bits(Pattern(body, k, x)))
  {
    var e := Pattern(body, k, x);
    var p, d := Bits(e), Flip(body[k], x);
    FlipBack(body[k], x);
    SomeBit(d);
    var j: nat :| j < 8 && ByteBits(d)[j];
    BitsAt(e, k, j);
    assert p[8 * k + j];
    forall i | 0 <= i < |p| && p[i] ensures 8 * k <= i < 8 * k + 16 {
      BitsAt(e, i / 8, i % 8);
      BitsOfNought(8);
      assert i / 8 == k;
    }
    assert Within(p, 8 * k);
  }

  lemma SomeBit(d: byte)
    requires d != 0
    ensures exists j: nat :: j < 8 && ByteBits(d)[j]
  {
    if forall j: nat :: j < 8 ==> !ByteBits(d)[j] {
      BitsOfNought(8);
      assert ByteBits(d) == ByteBits(0);
      ByteBitsInjective(d, 0);
    }
  }

  /** Seven turns move the lowest bit of a byte in the high half to the top, the eighth turns it into the generator. */
  lemma EightTurns()
    ensures Shifted(Word(0x100), 8) == Word(0x1021)
  {
    hide Word, Xor, TimesX;
    FourTurns();
    TurnsByX(0x1000);
    TurnsByX(0x2000);
    TurnsByX(0x4000);
    TurnsByX(0x8000);
    XorNought(0x1021);
  }

  lemma FourTurns()
    ensures Shifted(Word(0x100), 4) == Word(0x1000)
  {
    hide Word, Xor, TimesX;
    TurnsByX(0x100);
    TurnsByX(0x200);
    TurnsByX(0x400);
    TurnsByX(0x800);
  }

  lemma XorNought(w: word)
    ensures Xor(0, w) == w
  {
    BitsOfNought(WIDTH);
    AddZero(Word(w));
    WordValue(w);
    WordValue(Xor(0, w));
  }

  lemma CrcOfOne()
    ensures Crc16([1]) == Word(0x1021)
  {
    hide Crc16, Word, Bits, Shifted, ByteBits, Add, Zeros;
    Crc16Empty();
    Crc16Step([], 1);
    HighByte(1);
    AddZero(Word(0x100));
    EightTurns();
    Empties<byte>([1]);
  }

  /** The message of the one byte 1 has the CRC 0x1021, sent high byte first. */
  lemma TrailerOfOne(t: seq<byte>)
    requires |t| == 2
    ensures Sound(true, [1] + t) <==> t == [0x10, 0x21]
  {
    hide Crc16, Word;
    CrcOfOne();
    TakesBack([1 as byte], t);
    WordOfBytes(t[0], t[1]);
    WordValue(Paired(t[0], t[1]));
    WordValue(0x1021);
  }

  lemma {:induction false} SumOfChanged(m: seq<byte>, k: nat, x: byte)
    requires k < |m|
    ensures Sum(m[k := x]) == Sum(m) - m[k] + x
  {
    var n := |m| - 1;
    if k < n {
      SumOfChanged(m[..n], k, x);
      assert m[k := x][..n] == m[..n][k := x];
    } else {
      assert m[k := x][..n] == m[..n];
    }
  }

  /** One wrong byte, in payload or trailer, is noticed in either mode and in a frame of any length. */
  lemma OneByteDetected(isCrc: bool, body: seq<byte>, k: nat, x: byte)
    requires k < |body| && |body| >= TrailerSize(isCrc) && Sound(isCrc, body) && x != body[k]
    ensures !Sound(isCrc, body[k := x])
  {
    hide Crc16, Bits, Burst, Flip;
    if isCrc {
      PatternCorrupts(body, k, x);
      PatternIsBurst(body, k, x);
      BurstDetected(body, Pattern(body, k, x));
    } else {
      var n := |body| - 1;
      if k < n {
        SumOfChanged(body[..n], k, x);
        assert body[k := x][..n] == body[..n][k := x];
      } else {
        assert body[k := x][..n] == body[..n];
      }
    }
  }
}
