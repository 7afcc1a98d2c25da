/** cl_half_to_float: widening a half to binary32 loses nothing. */
module HalfWidening {
  import opened Bits
  import opened Ieee754
  import opened Rounding
  import opened HalfConversion
  import Truncation

  /** A half that is a NaN, with its quiet bit set. */
  function Quieted(h: Half): Half
    requires HalfMag(h) > HALF_INFINITY
  {
    if HalfMag(h) < 0x7E00 then h + 0x200 else h
  }

  /** What widening must give: the same number or infinity with the same sign; for a NaN, its quieted
      payload in the leading fraction bits. */
  ghost predicate IsWidened(h: Half, b: nat) {
    && FLOAT.Holds(b)
    && Sign(FLOAT, b) == HalfSign(h)
    && if HalfMag(h) > HALF_INFINITY then
         Mag(FLOAT, b) == 0x7F80_0000 + (HalfMag(Quieted(h)) - HALF_INFINITY) * 0x2000
       else
         !IsNaN(FLOAT, b) && Denotes(FLOAT, b) == HalfDenotes(h)
  }

  lemma FloatFormat()
    ensures FLOAT.Width() == 32 && FLOAT.MaxExp() == 128
    ensures Pow2(32) == 0x1_0000_0000 && Pow2(31) == 0x8000_0000 && Pow2(23) == 0x80_0000 && Pow2(13) == 0x2000
    ensures Pow2(8) == 0x100 && Pow2(24) == 0x100_0000
    ensures FLOAT.Infinity() == 0x7F80_0000
  {
    Word32();
    assert Pow2(7) == 128 && Pow2(13) == 0x2000;
    Pow2Add(10, 13);
    assert Pow2(32) == 2 * Pow2(31);
  }

  /** The float pattern with the exponent field `e` and the leading fraction bits `t`. */
  function FloatBits(sign: nat, e: nat, t: nat): nat {
    sign * 0x8000_0000 + e * 0x80_0000 + t * 0x2000
  }

  /** The three fields of a float pattern packed by `|` do not overlap. */
  lemma FloatPack(sign: nat, e: nat, t: nat)
    requires sign < 2 && e < 0x100 && t < 0x400
    ensures Shl(32, sign, 31) == sign * 0x8000_0000
    ensures Shl(32, e, 23) == e * 0x80_0000
    ensures Shl(32, t, 13) == t * 0x2000
    ensures Or(Shl(32, sign, 31), e * 0x80_0000) == sign * 0x8000_0000 + e * 0x80_0000
    ensures Or(Or(Shl(32, sign, 31), Shl(32, e, 23)), t * 0x2000) == FloatBits(sign, e, t)
    ensures Or(Or(Shl(32, sign, 31), Shl(32, e, 23)), Shl(32, t, 13)) == FloatBits(sign, e, t)
  {
    FloatFormat();
    ShlFits(32, sign, 31);
    ShlFits(32, e, 23);
    ShlFits(32, t, 13);
    DivModUnique(sign * 0x8000_0000, 0x8000_0000, sign, 0);
    OrDisjoint(sign * 0x8000_0000, e * 0x80_0000, 31);
    DivModUnique(sign * 0x8000_0000 + e * 0x80_0000, 0x80_0000, sign * 0x100 + e, 0);
    OrDisjoint(sign * 0x8000_0000 + e * 0x80_0000, t * 0x2000, 23);
  }

  lemma FloatFields(sign: nat, e: nat, t: nat)
    requires sign < 2 && e < 0x100 && t < 0x400
    ensures var b := FloatBits(sign, e, t);
      && FLOAT.Holds(b)
      && Sign(FLOAT, b) == sign
      && Mag(FLOAT, b) == e * 0x80_0000 + t * 0x2000
      && Exponent(FLOAT, Mag(FLOAT, b)) == e
      && Fraction(FLOAT, Mag(FLOAT, b)) == t * 0x2000
  {
    var m := e * 0x80_0000 + t * 0x2000;
    FloatFormat();
    DivModUnique(sign * 0x8000_0000 + m, 0x8000_0000, sign, m);
    DivModUnique(m, 0x80_0000, e, t * 0x2000);
  }

  /** Moving factors of two between significand and exponent. */
  lemma SameNumber(n: nat, k: nat, j: int)
    ensures Ldexp((n * Pow2(k)) as real, j) == Ldexp(n as real, k + j)
  {
    LdexpNat(n, k);
    LdexpAdd(n as real, k, j);
  }

  /** A normal float with significand `n * 2^13` denotes `n` at the matching exponent. */
  lemma FloatValue(sign: nat, e: nat, t: nat)
    requires sign < 2 && 0 < e < 0xFF && t < 0x400
    ensures var b := FloatBits(sign, e, t);
      && !IsNaN(FLOAT, b)
      && Denotes(FLOAT, b) == Fin(var a := Ldexp((0x400 + t) as real, e - 137); if sign == 0 then a else -a)
  {
    FloatFormat();
    FloatFields(sign, e, t);
    assert (0x400 + t) * Pow2(13) == 0x80_0000 + t * 0x2000;
    SameNumber(0x400 + t, 13, e - 150);
  }

  /** The value of a finite half in the same terms. */
  lemma HalfTerms(h: Half)
    requires HalfFinite(h)
    ensures var e, t := HalfMag(h) / 0x400, HalfMag(h) % 0x400;
      && (e > 0 ==> Level(HalfMag(h)) == Ldexp((0x400 + t) as real, e - 25))
      && (e == 0 ==> Level(HalfMag(h)) == Ldexp(t as real, -24))
  {
    HalfFormat();
    HalfIsFormat(h);
  }

  // ---------------------------------------------------------------- the paths of the source

  lemma HalfFields(h: Half)
    ensures Shr(32, h, 15) == HalfSign(h) < 2
    ensures And(Shr(32, h, 10), 0x1F) == HalfMag(h) / 0x400 < 0x20
    ensures And(h, 0x3FF) == HalfMag(h) % 0x400
  {
    Word32();
    assert Pow2(5) == 0x20;
    AndMask(h / 0x400, 5);
    AndMask(h, 10);
    ThreeFields(h, 0x400, 0x20);
  }

  /** Setting the quiet bit of a float whose leading fraction bits are `t`. */
  lemma QuietFraction(t: nat)
    requires t < 0x400
    ensures Or(t * 0x2000, 0x40_0000) == (if t < 0x200 then t + 0x200 else t) * 0x2000
  {
    FloatFormat();
    assert Pow2(23) == 2 * Pow2(22);
    OrTopBit(t * 0x2000, 22);
  }

  lemma NaNBits(h: Half, sign: nat, q: nat)
    requires sign == HalfSign(h) && HalfMag(h) > HALF_INFINITY
    requires HalfMag(Quieted(h)) == HALF_INFINITY + q
    ensures IsWidened(h, FloatBits(sign, 0xFF, q))
  {
    FloatFormat();
    FloatFields(sign, 0xFF, q);
  }

  lemma NaNWidened(h: Half, sign: nat, t: nat)
    requires sign == HalfSign(h) && HalfMag(h) == HALF_INFINITY + t && 0 < t < 0x400
    ensures Shl(32, t, 13) == t * 0x2000
    ensures IsWidened(h, Or(Or(Shl(32, sign, 31), 0x7F80_0000), Or(t * 0x2000, 0x40_0000)))
  {
    var q := if t < 0x200 then t + 0x200 else t;
    NaNBits(h, sign, q);
    FloatPack(sign, 0xFF, t);
    FloatPack(sign, 0xFF, q);
    QuietFraction(t);
    assert Or(Or(Shl(32, sign, 31), 0x7F80_0000), Or(t * 0x2000, 0x40_0000)) == FloatBits(sign, 0xFF, q);
  }

  lemma InfinityWidened(h: Half, sign: nat)
    requires sign == HalfSign(h) && HalfMag(h) == HALF_INFINITY
    ensures IsWidened(h, Or(Shl(32, sign, 31), 0x7F80_0000))
  {
    FloatFormat();
    FloatPack(sign, 0xFF, 0);
    FloatFields(sign, 0xFF, 0);
    assert Or(Shl(32, sign, 31), 0x7F80_0000) == FloatBits(sign, 0xFF, 0);
  }

  lemma ZeroWidened(h: Half, sign: nat)
    requires sign == HalfSign(h) && HalfMag(h) == 0
    ensures IsWidened(h, FloatBits(sign, 0, 0))
  {
    var b := FloatBits(sign, 0, 0);
    FloatFormat();
    FloatFields(sign, 0, 0);
    Truncation.LdexpZero(-149);
    assert AbsValue(FLOAT, Mag(FLOAT, b)) == 0.0;
    assert Denotes(FLOAT, b) == Fin(0.0);
    LevelEnds();
    assert HalfDenotes(h) == Fin(0.0);
  }

  lemma NormalWidened(h: Half, sign: nat, e: nat, t: nat)
    requires sign == HalfSign(h) && HalfMag(h) == e * 0x400 + t && 0 < e < 0x1F && t < 0x400
    ensures IsWidened(h, FloatBits(sign, e + 112, t))
  {
    FloatFormat();
    DivModUnique(HalfMag(h), 0x400, e, t);
    HalfTerms(h);
    FloatValue(sign, e + 112, t);
    FloatFields(sign, e + 112, t);
  }

  lemma SubnormalWidened(h: Half, sign: nat, n: nat, shift: nat, t: nat)
    requires sign == HalfSign(h) && HalfMag(h) == n && 0 < n < 0x400
    requires n * Pow2(shift) == 0x400 + t && t < 0x400 && 1 <= shift <= 10
    ensures IsWidened(h, FloatBits(sign, 113 - shift, t))
  {
    FloatFormat();
    DivModUnique(HalfMag(h), 0x400, 0, n);
    HalfTerms(h);
    FloatValue(sign, 113 - shift, t);
    FloatFields(sign, 113 - shift, t);
    SameNumber(n, shift, -24 - shift);
  }

  /** The normalisation loop: no bit is lost, and the leading one reaches bit ten after one to
      ten steps. */
  method Normalise(n: nat) returns (hMant: nat, shift: nat)
    requires 0 < n < 0x400
    ensures hMant == n * Pow2(shift)
    ensures 0x400 <= hMant < 0x800
    ensures 1 <= shift <= 10
  {
    hMant, shift := n, 0;
    TopBitTest(n);
    while And(hMant, 0x400) == 0
      invariant hMant == n * Pow2(shift) && 0 < hMant < 0x800
      invariant shift == 0 ==> hMant < 0x400
      decreases 0x800 - hMant
    {
      TopBitTest(hMant);
      DoubledMantissa(hMant);
      Doubling(n, shift);
      hMant := U16(Shl(32, hMant, 1));
      shift := shift + 1;
    }
    TopBitTest(hMant);
    ShiftBound(n, shift);
  }

  lemma TopBitTest(hMant: nat)
    requires hMant < 0x800
    ensures And(hMant, 0x400) == 0 <==> hMant < 0x400
  {
    Word32();
    AndTopBit(hMant, 10);
  }

  lemma DoubledMantissa(hMant: nat)
    requires hMant < 0x400
    ensures U16(Shl(32, hMant, 1)) == 2 * hMant
  {
    Word32();
    assert Pow2(1) == 2;
    ShlFits(32, hMant, 1);
    U16Fits(2 * hMant);
  }

  lemma Doubling(n: nat, k: nat)
    ensures n * Pow2(k + 1) == 2 * (n * Pow2(k))
  {
  }

  lemma ShiftBound(n: nat, shift: nat)
    requires n > 0 && n * Pow2(shift) < 0x800
    ensures shift <= 10
  {
    if shift > 10 {
      Word32();
      Pow2Monotone(11, shift);
      MulGe(n, 1, Pow2(shift));
    }
  }

  /** Zeros, subnormal and normal halves. */
  method FiniteToFloat(ghost h: Half, sign: nat, hExp: nat, hMant0: nat, fExp0: nat) returns (b: nat)
    requires sign == HalfSign(h) < 2 && HalfMag(h) == hExp * 0x400 + hMant0
    requires hExp < 0x1F && hMant0 < 0x400 && fExp0 == hExp + 112
    ensures IsWidened(h, b)
  {
    var hMant, fExp := hMant0, fExp0;
    FloatFormat();
    if hExp == 0 {
      if hMant == 0 {
        fExp := 0;
        ZeroWidened(h, sign);
      } else {
        var shift;
        hMant, shift := Normalise(hMant);
        MantissaField(hMant);
        hMant := And(hMant, 0x3FF);
        WordFits(fExp - (shift - 1));
        fExp := Wrap(32, fExp - (shift - 1));
        SubnormalWidened(h, sign, hMant0, shift, hMant);
      }
    } else {
      NormalWidened(h, sign, hExp, hMant);
    }
    assert IsWidened(h, FloatBits(sign, fExp, hMant));
    FloatPack(sign, fExp, hMant);
    b := Or(Or(Shl(32, sign, 31), Shl(32, fExp, 23)), Shl(32, hMant, 13));
  }

  lemma MantissaField(hMant: nat)
    requires 0x400 <= hMant < 0x800
    ensures And(hMant, 0x3FF) == hMant - 0x400
  {
    Word32();
    AndMask(hMant, 10);
    DivModUnique(hMant, 0x400, 1, hMant - 0x400);
  }

  lemma WordFits(x: nat)
    requires x < 0x1_0000_0000
    ensures Wrap(32, x) == x
  {
    FloatFormat();
    ModSmall(x, Pow2(32));
  }

  /** cl_half_to_float */
  method HalfToFloat(h: Half) returns (b: nat)
    ensures IsWidened(h, b)
  {
    HalfFields(h);
    var sign := Shr(32, h, 15);
    var hExp := And(Shr(32, h, HALF_MANT_DIG - 1), 0x1F);
    var hMant := And(h, 0x3FF);
    var exp := hExp - HALF_MAX_EXP + 1;
    FloatFormat();
    WordFits(exp + FLOAT.MaxExp() - 1);
    var fExp := Wrap(32, exp + FLOAT.MaxExp() - 1);

    if hExp == 0x1F {
      if hMant != 0 {
        NaNWidened(h, sign, hMant);
        var fMant := Shl(32, hMant, FLOAT.mantDig - HALF_MANT_DIG);
        fMant := Or(fMant, 0x40_0000);
        b := Or(Or(Shl(32, sign, 31), 0x7F80_0000), fMant);
        return;
      } else {
        InfinityWidened(h, sign);
        b := Or(Shl(32, sign, 31), 0x7F80_0000);
        return;
      }
    }

    b := FiniteToFloat(h, sign, hExp, hMant, fExp);
  }
}
