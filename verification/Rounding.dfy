/** What it means to round a real number to half precision (section 4.3 of IEEE 754-2008),
    stated without reference to any algorithm, with proofs that every real number has exactly
    one correctly rounded result in every mode. */
module Rounding {
  import opened Bits
  import opened Ieee754

  datatype RoundingMode =
    | RTE // to nearest, ties to even
    | RTZ // towards zero
    | RTP // towards positive infinity
    | RTN // towards negative infinity

  type Half = h: nat | h < 0x10000

  const HALF_INFINITY := 0x7C00

  function HalfSign(h: Half): nat {
    h / 0x8000
  }

  function HalfMag(h: Half): nat {
    h % 0x8000
  }

  function HalfBits(neg: bool, m: nat): Half
    requires m < 0x8000
  {
    if neg then 0x8000 + m else m
  }

  ghost function Abs(x: real): real {
    if x < 0.0 then -x else x
  }

  /** `n` doubled `k` times. */
  function Doubled(n: nat, k: nat): nat {
    if k == 0 then n else 2 * Doubled(n, k - 1)
  }

  /** The absolute value of the unsigned pattern `m`: its significand at its exponent, in units of
      2^-24. */
  ghost function Level(m: nat): real {
    var (e, t) := (m / 0x400, m % 0x400);
    ((if e == 0 then t else Doubled(0x400 + t, e - 1)) as real) / 16777216.0
  }

  ghost function HalfValue(h: Half): real {
    if HalfSign(h) == 0 then Level(HalfMag(h)) else -Level(HalfMag(h))
  }

  predicate HalfFinite(h: Half) {
    HalfMag(h) < HALF_INFINITY
  }

  ghost function HalfDenotes(h: Half): Extended {
    if HalfMag(h) == HALF_INFINITY then (if HalfSign(h) == 0 then PosInf else NegInf)
    else Fin(HalfValue(h))
  }

  // ---------------------------------------------------------------- specification

  /** A result keeps the sign of the number it rounds; for zero either sign can be asked for. */
  ghost predicate SignFits(neg: bool, x: real) {
    (x < 0.0 ==> neg) && (x > 0.0 ==> !neg)
  }

  /** Nearest number with ties to the even pattern, and infinity from 65520 on. */
  ghost predicate IsNearestEven(x: real, h: Half) {
    if Abs(x) >= 65520.0 then HalfMag(h) == HALF_INFINITY
    else
      && HalfFinite(h)
      && forall g: Half | HalfFinite(g) :: AtLeastAsNear(x, h, g)
  }

  ghost predicate AtLeastAsNear(x: real, h: Half, g: Half) {
    && Abs(x - HalfValue(h)) <= Abs(x - HalfValue(g))
    && (Abs(x - HalfValue(h)) == Abs(x - HalfValue(g)) && HalfValue(h) != HalfValue(g)
        ==> HalfMag(h) % 2 == 0)
  }

  /** The finite number of largest magnitude not beyond `x`. */
  ghost predicate IsTowardZero(x: real, h: Half) {
    && HalfFinite(h)
    && Abs(HalfValue(h)) <= Abs(x)
    && forall g: Half | HalfFinite(g) && Abs(HalfValue(g)) <= Abs(x) ::
         Abs(HalfValue(g)) <= Abs(HalfValue(h))
  }

  /** The least number, infinities included, that is not below `x`. */
  ghost predicate IsLeastAbove(x: real, h: Half) {
    && HalfMag(h) <= HALF_INFINITY
    && Fin(x).Le(HalfDenotes(h))
    && forall g: Half | HalfMag(g) <= HALF_INFINITY && Fin(x).Le(HalfDenotes(g)) ::
         HalfDenotes(h).Le(HalfDenotes(g))
  }

  /** The greatest number, infinities included, that is not above `x`. */
  ghost predicate IsGreatestBelow(x: real, h: Half) {
    && HalfMag(h) <= HALF_INFINITY
    && HalfDenotes(h).Le(Fin(x))
    && forall g: Half | HalfMag(g) <= HALF_INFINITY && HalfDenotes(g).Le(Fin(x)) ::
         HalfDenotes(g).Le(HalfDenotes(h))
  }

  ghost predicate CorrectlyRounded(mode: RoundingMode, neg: bool, x: real, h: Half) {
    && (HalfSign(h) == 1 <==> neg)
    && match mode
       case RTE => IsNearestEven(x, h)
       case RTZ => IsTowardZero(x, h)
       case RTP => IsLeastAbove(x, h)
       case RTN => IsGreatestBelow(x, h)
  }

  // ---------------------------------------------------------------- the half format

  lemma HalfFormat()
    ensures HALF.Valid() && HALF.Infinity() == HALF_INFINITY
    ensures HALF.Width() == 16 && Pow2(16) == 0x10000 && Pow2(15) == 0x8000 && Pow2(10) == 0x400
    ensures HALF.MaxExp() == 16
  {
    assert Pow2(5) == 32 && Pow2(4) == 16;
  }

  lemma {:induction false} DoubledIsProduct(n: nat, k: nat)
    ensures Doubled(n, k) == n * Pow2(k)
  {
    if k > 0 {
      DoubledIsProduct(n, k - 1);
      assert n * Pow2(k) == 2 * (n * Pow2(k - 1));
    }
  }

  lemma LevelIsUnits(m: nat)
    ensures Level(m) == (Units(HALF, m) as real) / 16777216.0
  {
    HalfFormat();
    if m / 0x400 > 0 {
      DoubledIsProduct(0x400 + m % 0x400, m / 0x400 - 1);
    } else {
      assert Pow2(0) == 1;
    }
  }

  /** The definitions of this module agree with the general ones. */
  lemma HalfIsFormat(h: Half)
    ensures HALF.Holds(h)
    ensures Sign(HALF, h) == HalfSign(h) && Mag(HALF, h) == HalfMag(h)
    ensures AbsValue(HALF, HalfMag(h)) == Level(HalfMag(h))
    ensures Value(HALF, h) == HalfValue(h)
    ensures Denotes(HALF, h) == HalfDenotes(h)
    ensures IsFinite(HALF, h) == HalfFinite(h)
  {
    HalfFormat();
    LevelIsUnits(HalfMag(h));
    AbsValueIsUnits(HALF, HalfMag(h));
    LdexpDown24(Units(HALF, HalfMag(h)) as real);
  }

  lemma LdexpDown24(x: real)
    ensures Ldexp(x, -24) == x / 16777216.0
  {
    LdexpDown8(x);
    LdexpAdd(x, -8, -8);
    LdexpDown8(Ldexp(x, -8));
    LdexpAdd(x, -16, -8);
    LdexpDown8(Ldexp(x, -16));
  }

  lemma LdexpDown8(x: real)
    ensures Ldexp(x, -8) == x / 256.0
  {
    assert Ldexp(x, -4) == x / 16.0 by {
      assert Ldexp(x, -2) == x / 4.0;
      assert Ldexp(x, -3) == x / 8.0;
    }
    assert Ldexp(x, -6) == x / 64.0 by {
      assert Ldexp(x, -5) == x / 32.0;
    }
    assert Ldexp(x, -7) == x / 128.0;
  }

  lemma LevelIncreasing(m: nat, n: nat)
    requires m <= n
    ensures Level(m) <= Level(n)
    ensures m < n ==> Level(m) < Level(n)
  {
    if m < n {
      UnitsIncreasing(HALF, m, n);
      LevelIsUnits(m);
      LevelIsUnits(n);
    }
  }

  lemma LevelEnds()
    ensures Level(0) == 0.0
    ensures Level(0x7BFF) == 65504.0
    ensures Level(HALF_INFINITY) == 65536.0
  {
    DivModUnique(0x7BFF, 0x400, 30, 0x3FF);
    DivModUnique(0x7C00, 0x400, 31, 0);
    DoubledIsProduct(0x7FF, 29);
    DoubledIsProduct(0x400, 30);
    LargePowers();
  }

  lemma LargePowers()
    ensures Pow2(29) == 0x2000_0000 && Pow2(30) == 0x4000_0000
  {
    HalfFormat();
    Pow2Add(10, 10);
    Pow2Add(10, 20);
    assert Pow2(30) == 2 * Pow2(29);
  }
}
