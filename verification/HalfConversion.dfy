/** The conversions of include/CL/cl_half.h, statement by statement on bit patterns, proved
    against the rounding specification.

    cl_half_from_float and cl_half_from_double are one algorithm at two formats; `HalfFromFormat`
    is that algorithm at every format with at least 12 significand digits and MAX_EXP of at
    least 27, which for a masked exponent field is at least 6 exponent bits. */
module HalfConversion {
  import opened Bits
  import opened Ieee754
  import opened Rounding
  import opened Neighbours
  import opened Truncation

  const HALF_MANT_DIG := 11
  const HALF_MAX_EXP := 16
  const HALF_MIN_EXP := -13
  const HALF_EXP_MASK := 0x7C00
  const HALF_MAX_FINITE_MAG := 0x7BFF

  /** The source formats the algorithm is correct for. */
  predicate Convertible(f: Format) {
    f.mantDig >= 12 && f.expBits >= 6
  }

  // ---------------------------------------------------------------- specification

  /** The ten leading fraction bits of a NaN, with the quiet bit set. */
  function QuietPayload(f: Format, b: nat): (t: nat)
    requires Convertible(f)
    ensures 0x200 <= t < 0x400
  {
    var t := Fraction(f, Mag(f, b)) / Pow2(f.mantDig - HALF_MANT_DIG);
    FractionLead(f, Mag(f, b));
    if t < 0x200 then t + 0x200 else t
  }

  lemma FractionLead(f: Format, m: nat)
    requires Convertible(f)
    ensures 0 <= Fraction(f, m) / Pow2(f.mantDig - HALF_MANT_DIG) < 0x400
  {
    var d := Pow2(f.mantDig - HALF_MANT_DIG);
    HalfFormat();
    Pow2Add(10, f.mantDig - HALF_MANT_DIG);
    DivBounded(Fraction(f, m), d, 0x400);
  }

  lemma DivBounded(n: nat, d: int, q: int)
    requires d > 0 && n < q * d
    ensures 0 <= n / d < q
  {
    DivNonNegative(n, d);
    if n / d >= q {
      MulGe(n / d, q, d);
    }
  }

  lemma ValueSign(f: Format, b: nat)
    requires f.Valid() && f.Holds(b)
    ensures SignFits(Sign(f, b) == 1, Value(f, b))
    ensures Abs(Value(f, b)) == AbsValue(f, Mag(f, b)) >= 0.0
    ensures Sign(f, b) == 0 || Sign(f, b) == 1
  {
    Binade(f, Mag(f, b));
    DivBounded(b, Pow2(f.Width() - 1), 2);
  }

  /** What converting the pattern `b` must give: the correctly rounded value, infinities kept,
      NaNs kept and made quiet. */
  ghost function Converted(f: Format, b: nat, mode: RoundingMode): Half
    requires Convertible(f) && f.Holds(b)
  {
    var neg := Sign(f, b) == 1;
    if IsNaN(f, b) then HalfBits(neg, HALF_EXP_MASK + QuietPayload(f, b))
    else if IsInfinite(f, b) then HalfBits(neg, HALF_EXP_MASK)
    else
      ValueSign(f, b);
      Round(mode, neg, Value(f, b))
  }

  // ---------------------------------------------------------------- helpers of the source

  /** cl_half_handle_overflow; where the source shifts the constant one, `sign` is one. */
  function HandleOverflow(mode: RoundingMode, sign: nat): Half
    requires sign < 2
  {
    if mode == RTZ then U16(Or(Shl(32, sign, 15), HALF_MAX_FINITE_MAG))
    else if mode == RTP && sign != 0 then U16(Or(Shl(32, sign, 15), HALF_MAX_FINITE_MAG))
    else if mode == RTN && sign == 0 then HALF_MAX_FINITE_MAG
    else U16(Or(Shl(32, sign, 15), HALF_EXP_MASK))
  }

  /** cl_half_handle_underflow */
  function HandleUnderflow(mode: RoundingMode, sign: nat): Half
    requires sign < 2
  {
    if mode == RTP && sign == 0 then U16(Or(Shl(32, sign, 15), 1))
    else if mode == RTN && sign != 0 then U16(Or(Shl(32, sign, 15), 1))
    else U16(Shl(32, sign, 15))
  }

  lemma Word32()
    ensures Pow2(32) == 0x1_0000_0000 && Pow2(15) == 0x8000 && Pow2(10) == 0x400
    ensures Pow2(16) == 0x10000
  {
    HalfFormat();
    Pow2Add(16, 16);
  }

  /** The sign bit and the other fifteen bits do not overlap. */
  lemma SignPack(sign: nat, m: nat)
    requires sign < 2 && m < 0x8000
    ensures Shl(32, sign, 15) == sign * 0x8000
    ensures Or(Shl(32, sign, 15), m) == HalfBits(sign == 1, m)
    ensures U16(HalfBits(sign == 1, m)) == HalfBits(sign == 1, m)
  {
    U16Fits(HalfBits(sign == 1, m));
    Word32();
    ShlFits(32, sign, 15);
    DivModUnique(sign * 0x8000, 0x8000, sign, 0);
    OrDisjoint(sign * 0x8000, m, 15);
  }

  /** The three packed fields never overlap. */
  lemma FieldPack(sign: nat, hExp: nat, hMant: nat)
    requires sign < 2 && hExp <= 31 && hMant < 0x400
    ensures Or(Or(Shl(32, sign, 15), Shl(32, hExp, 10)), hMant) == HalfBits(sign == 1, hExp * 0x400 + hMant)
    ensures U16(HalfBits(sign == 1, hExp * 0x400 + hMant)) == HalfBits(sign == 1, hExp * 0x400 + hMant)
  {
    Word32();
    U16Fits(HalfBits(sign == 1, hExp * 0x400 + hMant));
    ShlFits(32, hExp, 10);
    SignPack(sign, hExp * 0x400);
    var top := Or(Shl(32, sign, 15), Shl(32, hExp, 10));
    assert top == (if sign == 1 then 32 + hExp else hExp) * 0x400;
    DivModUnique(top, 0x400, if sign == 1 then 32 + hExp else hExp, 0);
    OrDisjoint(top, hMant, 10);
  }

  /** Only a mantissa that has been rounded up to 0x400 has bit ten set. */
  lemma CarryBit(hMant: nat)
    requires hMant <= 0x400
    ensures And(hMant, 0x400) != 0 <==> hMant == 0x400
  {
    Word32();
    AndTopBit(hMant, 10);
  }

  lemma OverflowBits(mode: RoundingMode, sign: nat)
    requires sign < 2
    ensures HandleOverflow(mode, sign)
         == HalfBits(sign == 1, if mode == RTE || Away(mode, sign == 1) then HALF_EXP_MASK else HALF_MAX_FINITE_MAG)
  {
    SignPack(sign, HALF_MAX_FINITE_MAG);
    SignPack(sign, HALF_EXP_MASK);
  }

  /** The overflow exit gives what the specification gives for every number of at least 2^16. */
  lemma OverflowIsRounding(mode: RoundingMode, sign: nat, x: real)
    requires sign < 2 && SignFits(sign == 1, x) && Abs(x) >= 65536.0
    ensures Round(mode, sign == 1, x) == HandleOverflow(mode, sign)
  {
    OverflowBits(mode, sign);
    LevelEnds();
    if mode == RTE || Away(mode, sign == 1) {
      Climb(mode, sign == 1, Abs(x), HALF_MAX_FINITE_MAG);
      RoundIsRung(mode, sign == 1, x, HALF_EXP_MASK);
    } else {
      Stay(mode, sign == 1, Abs(x), HALF_MAX_FINITE_MAG);
      RoundIsRung(mode, sign == 1, x, HALF_MAX_FINITE_MAG);
    }
  }

  lemma UnderflowBits(mode: RoundingMode, sign: nat)
    requires sign < 2
    ensures HandleUnderflow(mode, sign) == HalfBits(sign == 1, if Away(mode, sign == 1) then 1 else 0)
  {
    SignPack(sign, 0);
    SignPack(sign, 1);
    assert Or(Shl(32, sign, 15), 0) == Shl(32, sign, 15);
  }

  /** The underflow exit gives what the specification gives for every non-zero number below
      2^-25. */
  lemma UnderflowIsRounding(mode: RoundingMode, sign: nat, x: real)
    requires sign < 2 && SignFits(sign == 1, x) && 0.0 < Abs(x) < 1.0 / 33554432.0
    ensures Round(mode, sign == 1, x) == HandleUnderflow(mode, sign)
  {
    UnderflowBits(mode, sign);
    LeastLevel();
    if Away(mode, sign == 1) {
      Climb(mode, sign == 1, Abs(x), 0);
      RoundIsRung(mode, sign == 1, x, 1);
    } else {
      Stay(mode, sign == 1, Abs(x), 0);
      RoundIsRung(mode, sign == 1, x, 0);
    }
  }

  lemma LeastLevel()
    ensures Level(0) == 0.0 && Level(1) == 1.0 / 16777216.0
  {
  }

  // ---------------------------------------------------------------- from a wider format

  /** A number below `2 * q * p` splits into a bit, a number below `q` and a number below `p`. */
  lemma ThreeFields(b: nat, p: nat, q: nat)
    requires p > 0 && q > 0 && b < 2 * (q * p)
    ensures var m := b % (q * p);
      && 0 <= b / (q * p) < 2
      && b / p == b / (q * p) * q + m / p
      && b % p == m % p
      && 0 <= m / p < q
      && b / p % q == m / p
      && m == m / p * p + m % p
  {
    var n := q * p;
    var s, m := b / n, b % n;
    DivBounded(b, n, 2);
    DivBounded(m, p, q);
    var e, t := m / p, m % p;
    SplitAgain(s, q, e, p, t);
    assert b == s * n + m;
    DivModUnique(b, p, s * q + e, t);
    DivModUnique(s * q + e, q, s, e);
  }

  lemma SplitAgain(s: int, q: int, e: int, p: int, t: int)
    ensures s * (q * p) + (e * p + t) == (s * q + e) * p + t
  {
    assert s * (q * p) == (s * q) * p;
    Distribute(s * q, e, p);
  }

  lemma LowMask(f: Format)
    requires Convertible(f)
    ensures Shl(f.Width(), 1, f.mantDig - 1) == Pow2(f.mantDig - 1)
    ensures Pow2(f.Width() - 1) == Pow2(f.expBits) * Pow2(f.mantDig - 1)
  {
    Pow2Add(f.expBits, f.mantDig - 1);
    Pow2Monotone(f.mantDig - 1, f.Width());
    ShlFits(f.Width(), 1, f.mantDig - 1);
  }

  lemma FieldPositions(f: Format, b: nat)
    requires Convertible(f) && f.Holds(b)
    ensures Sign(f, b) < 2 && Exponent(f, Mag(f, b)) < Pow2(f.expBits)
    ensures b / Pow2(f.mantDig - 1) % Pow2(f.expBits) == Exponent(f, Mag(f, b))
    ensures b % Pow2(f.mantDig - 1) == Fraction(f, Mag(f, b))
    ensures Mag(f, b) == Exponent(f, Mag(f, b)) * Pow2(f.mantDig - 1) + Fraction(f, Mag(f, b))
  {
    LowMask(f);
    ThreeFields(b, Pow2(f.mantDig - 1), Pow2(f.expBits));
  }

  /** Shifting and masking a pattern yields its three fields. */
  lemma FieldsExtracted(f: Format, b: nat)
    requires Convertible(f) && f.Holds(b)
    ensures U16(Shr(f.Width(), b, f.Width() - 1)) == Sign(f, b) < 2
    ensures And(Shr(f.Width(), b, f.mantDig - 1), Pow2(f.expBits) - 1) == Exponent(f, Mag(f, b)) < Pow2(f.expBits)
    ensures Shl(f.Width(), 1, f.mantDig - 1) == Pow2(f.mantDig - 1)
    ensures And(b, Pow2(f.mantDig - 1) - 1) == Fraction(f, Mag(f, b))
  {
    LowMask(f);
    FieldPositions(f, b);
    U16Fits(Sign(f, b));
    AndMask(Shr(f.Width(), b, f.mantDig - 1), f.expBits);
    AndMask(b, f.mantDig - 1);
  }

  lemma Classified(f: Format, b: nat)
    requires Convertible(f) && f.Holds(b)
    ensures var e, t := Exponent(f, Mag(f, b)), Fraction(f, Mag(f, b));
      && (IsNaN(f, b) <==> e == Pow2(f.expBits) - 1 && t != 0)
      && (IsInfinite(f, b) <==> e == Pow2(f.expBits) - 1 && t == 0)
      && (Mag(f, b) == 0 <==> e == 0 && t == 0)
  {
    FieldPositions(f, b);
    PackedOrder(Exponent(f, Mag(f, b)), Pow2(f.expBits) - 1, Pow2(f.mantDig - 1), Fraction(f, Mag(f, b)));
  }

  lemma PackedOrder(e: nat, top: nat, p: nat, t: nat)
    requires e <= top && t < p
    ensures e * p + t > top * p <==> e == top && t != 0
    ensures e * p + t == top * p <==> e == top && t == 0
    ensures e * p + t == 0 <==> e == 0 && t == 0
  {
    if e < top {
      MulGe(top, e + 1, p);
    }
    if e > 0 {
      MulGe(e, 1, p);
    }
  }

  /** Removing the bias in an unsigned word and reading the word as signed loses nothing. */
  lemma UnbiasedExponent(f: Format, e: nat)
    requires Convertible(f) && e < Pow2(f.expBits)
    ensures Signed(f.Width(), Wrap(f.Width(), e - f.MaxExp() + 1)) == e - f.MaxExp() + 1
    ensures f.MaxExp() >= 32
  {
    var w, x := f.Width(), e - f.MaxExp() + 1;
    Pow2Monotone(5, f.expBits - 1);
    Pow2Monotone(f.expBits, w - 1);
    if x >= 0 {
      ModSmall(x, Pow2(w));
    } else {
      DivModUnique(x, Pow2(w), -1, x + Pow2(w));
    }
  }

  /** The shift amount for a number with unbiased exponent `exp`. */
  function LsbPos(f: Format, exp: int): int {
    if exp < -14 then -exp + (f.mantDig - 25) else f.mantDig - HALF_MANT_DIG
  }

  /** Where the general path is taken, and the fields it has before rounding: `hExp`, `hMant` and the
      masked remainder `r`. */
  ghost predicate OnGeneralPath(f: Format, m: nat, exp: int, hExp: nat, hMant: nat, r: nat) {
    && Convertible(f) && 0 < Exponent(f, m) && exp == Exponent(f, m) - f.MaxExp() + 1
    && -25 <= exp < HALF_MAX_EXP
    && LsbPos(f, exp) > 0
    && var d := Pow2(LsbPos(f, exp));
       if exp < -14 then
         && hExp == 0
         && hMant == Significand(f, m) / d
         && r == Significand(f, m) % d
       else
         && hExp == exp + 15
         && hMant == Fraction(f, m) / d
         && r == Fraction(f, m) % d
  }

  /** The shift amount stays within the word, nothing is lost in narrowing the shifted
      significand, and the fields are a half pattern whose significand is the quotient. */
  lemma TruncatedPattern(f: Format, m: nat, exp: int, hExp: nat, hMant: nat, r: nat)
    requires OnGeneralPath(f, m, exp, hExp, hMant, r)
    ensures f.mantDig - HALF_MANT_DIG <= LsbPos(f, exp) <= f.mantDig
    ensures hMant < 0x400 && hExp < 31
    ensures Significand(HALF, hExp * 0x400 + hMant) * Pow2(LsbPos(f, exp)) + r == Significand(f, m)
    ensures Ulp(HALF, hExp * 0x400 + hMant) == if exp < -14 then 1 else Pow2(exp + 14)
  {
    if exp < -14 {
      TruncatedSubnormal(f, m, exp, hExp, hMant, r);
    } else {
      TruncatedNormal(f, m, exp, hExp, hMant, r);
    }
  }

  lemma HalfPattern(e: nat, t: nat)
    requires t < 0x400
    ensures Exponent(HALF, e * 0x400 + t) == e && Fraction(HALF, e * 0x400 + t) == t
    ensures Significand(HALF, e * 0x400 + t) == if e == 0 then t else 0x400 + t
    ensures Ulp(HALF, e * 0x400 + t) == if e == 0 then 1 else Pow2(e - 1)
  {
    HalfFormat();
    DivModUnique(e * 0x400 + t, 0x400, e, t);
    assert Pow2(0) == 1;
  }

  lemma SubnormalQuotient(s: nat, digits: nat, shift: nat)
    requires digits >= 10 && s < Pow2(digits) && shift >= digits - 10
    ensures 0 <= s / Pow2(shift) < 0x400
  {
    HalfFormat();
    Pow2Add(10, digits - 10);
    Pow2Monotone(digits - 10, shift);
    assert s < 0x400 * Pow2(digits - 10) <= 0x400 * Pow2(shift);
    DivBounded(s, Pow2(shift), 0x400);
  }

  lemma TruncatedSubnormal(f: Format, m: nat, exp: int, hExp: nat, hMant: nat, r: nat)
    requires OnGeneralPath(f, m, exp, hExp, hMant, r) && exp < -14
    ensures hMant < 0x400
    ensures Significand(HALF, hExp * 0x400 + hMant) * Pow2(LsbPos(f, exp)) + r == Significand(f, m)
    ensures Ulp(HALF, hExp * 0x400 + hMant) == 1
  {
    SubnormalQuotient(Significand(f, m), f.mantDig, LsbPos(f, exp));
    HalfPattern(hExp, hMant);
    QuotientAndRemainder(Significand(f, m), Pow2(LsbPos(f, exp)));
  }

  lemma QuotientAndRemainder(n: nat, d: nat)
    requires d > 0
    ensures n / d * d + n % d == n
  {
  }

  lemma NormalQuotient(p: nat, t: nat, d: nat, q: nat, r: nat)
    requires p == 0x400 * d && t == q * d + r
    ensures (0x400 + q) * d + r == p + t
  {
    Distribute(0x400, q, d);
  }

  lemma NormalTruncation(f: Format, m: nat, d: nat, q: nat, r: nat)
    requires Convertible(f) && Exponent(f, m) > 0 && d == Pow2(f.mantDig - HALF_MANT_DIG)
    requires q == Fraction(f, m) / d && r == Fraction(f, m) % d
    ensures q < 0x400 && (0x400 + q) * d + r == Significand(f, m)
  {
    HalfFormat();
    FractionLead(f, m);
    Pow2Add(10, f.mantDig - HALF_MANT_DIG);
    NormalQuotient(Pow2(f.mantDig - 1), Fraction(f, m), d, q, r);
  }

  lemma TruncatedNormal(f: Format, m: nat, exp: int, hExp: nat, hMant: nat, r: nat)
    requires OnGeneralPath(f, m, exp, hExp, hMant, r) && exp >= -14
    ensures hMant < 0x400
    ensures Significand(HALF, hExp * 0x400 + hMant) * Pow2(LsbPos(f, exp)) + r == Significand(f, m)
    ensures Ulp(HALF, hExp * 0x400 + hMant) == Pow2(exp + 14)
  {
    NormalTruncation(f, m, Pow2(LsbPos(f, exp)), hMant, r);
    HalfPattern(hExp, hMant);
  }

  /** The real number behind a general-path input, scaled so that its remainder is an integer. */
  lemma ScaledSignificand(f: Format, m: nat, exp: int)
    requires Convertible(f) && 0 < Exponent(f, m) && exp == Exponent(f, m) - f.MaxExp() + 1
    requires -25 <= exp < HALF_MAX_EXP
    ensures var g := if exp < -14 then 1 else Pow2(exp + 14);
      Ldexp(AbsValue(f, m) * 16777216.0, LsbPos(f, exp)) == (Significand(f, m) * g) as real
  {
    var s := Significand(f, m);
    var a := AbsValue(f, m);
    var shift := LsbPos(f, exp);
    var k := exp - (f.mantDig - 1);
    assert a == Ldexp(s as real, k);
    LdexpUp24(a);
    LdexpAdd(s as real, k, 24);
    LdexpAdd(s as real, k + 24, shift);
    if exp >= -14 {
      LdexpNat(s, exp + 14);
    }
  }

  lemma LdexpUp24(x: real)
    ensures Ldexp(x, 24) == x * 16777216.0
  {
    LdexpAdd(x, 24, -24);
    LdexpDown24(Ldexp(x, 24));
  }

  /** On the general path the masked remainder decides every comparison of the number with the
      truncated pattern, the next one, and the midpoint between them. */
  lemma GeneralPath(f: Format, m: nat, exp: int, hExp: nat, hMant: nat, r: nat)
    requires OnGeneralPath(f, m, exp, hExp, hMant, r)
    ensures var a, lo, halfway := AbsValue(f, m), hExp * 0x400 + hMant, Pow2(LsbPos(f, exp) - 1);
      && IsFloor(a, lo)
      && (a == Level(lo) <==> r == 0)
      && (Level(lo) + Level(lo + 1) < 2.0 * a <==> r > halfway)
      && (Level(lo) + Level(lo + 1) == 2.0 * a <==> r == halfway)
  {
    TruncatedPattern(f, m, exp, hExp, hMant, r);
    ScaledSignificand(f, m, exp);
    var lo := hExp * 0x400 + hMant;
    RemainderDecides(AbsValue(f, m), lo, LsbPos(f, exp), Significand(HALF, lo), r);
  }

  /** The result, from the comparisons that the remainder decides. */
  lemma RoundedPath(mode: RoundingMode, neg: bool, x: real, hExp: nat, truncated: nat, r: nat, halfway: nat, hMant: nat)
    requires SignFits(neg, x) && halfway > 0
    requires var lo := hExp * 0x400 + truncated;
      && IsFloor(Abs(x), lo)
      && (Abs(x) == Level(lo) <==> r == 0)
      && (Level(lo) + Level(lo + 1) < 2.0 * Abs(x) <==> r > halfway)
      && (Level(lo) + Level(lo + 1) == 2.0 * Abs(x) <==> r == halfway)
    requires hMant == if RoundsUp(mode, neg, truncated % 2 == 1, r, halfway) then truncated + 1 else truncated
    ensures hExp * 0x400 + hMant <= HALF_INFINITY
    ensures Round(mode, neg, x) == HalfBits(neg, hExp * 0x400 + hMant)
  {
    var lo := hExp * 0x400 + truncated;
    SameParity(hExp, truncated);
    if hMant == truncated {
      Stay(mode, neg, Abs(x), lo);
    } else {
      Climb(mode, neg, Abs(x), lo);
    }
    RoundIsRung(mode, neg, x, hExp * 0x400 + hMant);
  }

  lemma SameParity(hExp: nat, hMant: nat)
    ensures (hExp * 0x400 + hMant) % 2 == hMant % 2
  {
  }

  lemma ConvertedFinite(f: Format, b: nat, mode: RoundingMode)
    requires Convertible(f) && f.Holds(b) && IsFinite(f, b)
    ensures Sign(f, b) < 2 && SignFits(Sign(f, b) == 1, Value(f, b))
    ensures Abs(Value(f, b)) == AbsValue(f, Mag(f, b))
    ensures Converted(f, b, mode) == Round(mode, Sign(f, b) == 1, Value(f, b))
  {
    ValueSign(f, b);
  }

  /** The general path from the truncated fields to the result. */
  lemma GeneralResult(f: Format, b: nat, mode: RoundingMode, exp: int, hExp: nat, truncated: nat, r: nat, hMant: nat)
    requires Convertible(f) && f.Holds(b) && IsFinite(f, b)
    requires OnGeneralPath(f, Mag(f, b), exp, hExp, truncated, r)
    requires hMant == if RoundsUp(mode, Sign(f, b) == 1, truncated % 2 == 1, r, Pow2(LsbPos(f, exp) - 1))
                      then truncated + 1 else truncated
    ensures hExp * 0x400 + hMant <= HALF_INFINITY
    ensures Converted(f, b, mode) == HalfBits(Sign(f, b) == 1, hExp * 0x400 + hMant)
  {
    ConvertedFinite(f, b, mode);
    GeneralPath(f, Mag(f, b), exp, hExp, truncated, r);
    RoundedPath(mode, Sign(f, b) == 1, Value(f, b), hExp, truncated, r, Pow2(LsbPos(f, exp) - 1), hMant);
  }

  lemma QuietBit(t: nat)
    requires t < 0x400
    ensures Or(t, 0x200) == if t < 0x200 then t + 0x200 else t
    ensures U16(t) == t
  {
    assert Pow2(10) == 0x400 && Pow2(9) == 0x200;
    OrTopBit(t, 9);
    U16Fits(t);
  }

  /** A payload below an exponent field of ones. */
  lemma PayloadPack(sign: nat, q: nat)
    requires sign < 2 && q < 0x400
    ensures Or(Or(Shl(32, sign, 15), HALF_EXP_MASK), q) == HalfBits(sign == 1, HALF_EXP_MASK + q)
    ensures U16(HalfBits(sign == 1, HALF_EXP_MASK + q)) == HalfBits(sign == 1, HALF_EXP_MASK + q)
  {
    Word32();
    U16Fits(HalfBits(sign == 1, HALF_EXP_MASK + q));
    SignPack(sign, HALF_EXP_MASK);
    var top := Or(Shl(32, sign, 15), HALF_EXP_MASK);
    DivModUnique(top, 0x400, if sign == 1 then 63 else 31, 0);
    OrDisjoint(top, q, 10);
  }

  /** A NaN keeps its sign and its leading payload bits, and is made quiet. */
  lemma NaNPath(f: Format, b: nat, mode: RoundingMode, sign: nat, t: nat, q: nat)
    requires Convertible(f) && f.Holds(b) && IsNaN(f, b) && sign == Sign(f, b) < 2
    requires t == Fraction(f, Mag(f, b)) / Pow2(f.mantDig - HALF_MANT_DIG)
    requires q == Or(U16(t), 0x200)
    ensures U16(Or(Or(Shl(32, sign, 15), HALF_EXP_MASK), q)) == Converted(f, b, mode)
  {
    FractionLead(f, Mag(f, b));
    QuietBit(t);
    assert q == QuietPayload(f, b);
    PayloadPack(sign, q);
  }

  lemma InfinityPath(f: Format, b: nat, mode: RoundingMode, sign: nat)
    requires Convertible(f) && f.Holds(b) && IsInfinite(f, b) && sign == Sign(f, b) < 2
    ensures U16(Or(Shl(32, sign, 15), HALF_EXP_MASK)) == Converted(f, b, mode)
  {
    SignPack(sign, HALF_EXP_MASK);
  }

  lemma ZeroPath(f: Format, b: nat, mode: RoundingMode, sign: nat)
    requires Convertible(f) && f.Holds(b) && Mag(f, b) == 0 && sign == Sign(f, b) < 2
    ensures U16(Shl(32, sign, 15)) == Converted(f, b, mode)
  {
    var neg := Sign(f, b) == 1;
    ValueSign(f, b);
    assert Value(f, b) == 0.0 by {
      Binade(f, 1);
      assert Units(f, 0) == 0 by {
        DivModUnique(0, Pow2(f.mantDig - 1), 0, 0);
      }
      LdexpZero(3 - f.MaxExp() - f.mantDig);
      AbsValueIsUnits(f, 0);
    }
    assert f.Infinity() > 0 by {
      MulGe(Pow2(f.expBits) - 1, 1, Pow2(f.mantDig - 1));
    }
    LeastLevel();
    Stay(mode, neg, 0.0, 0);
    RoundIsRung(mode, neg, Value(f, b), 0);
    SignPack(sign, 0);
  }

  /** The overflow exit is taken from 2^16 on. */
  lemma OverflowPath(f: Format, b: nat, mode: RoundingMode)
    requires Convertible(f) && f.Holds(b) && IsFinite(f, b)
    requires Exponent(f, Mag(f, b)) - f.MaxExp() + 1 >= HALF_MAX_EXP
    ensures Sign(f, b) < 2 && Converted(f, b, mode) == HandleOverflow(mode, Sign(f, b))
  {
    ValueSign(f, b);
    Binade(f, Mag(f, b));
    LdexpConstants();
    LdexpOneMonotone(HALF_MAX_EXP, Exponent(f, Mag(f, b)) - f.MaxExp() + 1);
    OverflowIsRounding(mode, Sign(f, b), Value(f, b));
  }

  /** The underflow exit is taken below 2^-25, by every subnormal number among others. */
  lemma UnderflowPath(f: Format, b: nat, mode: RoundingMode)
    requires Convertible(f) && f.Holds(b) && IsFinite(f, b) && Mag(f, b) > 0
    requires Exponent(f, Mag(f, b)) - f.MaxExp() + 1 < -25
    ensures Sign(f, b) < 2 && Converted(f, b, mode) == HandleUnderflow(mode, Sign(f, b))
  {
    ValueSign(f, b);
    Binade(f, Mag(f, b));
    LdexpConstants();
    LdexpOneMonotone(Exponent(f, Mag(f, b)) - f.MaxExp() + 2, -25);
    UnderflowIsRounding(mode, Sign(f, b), Value(f, b));
  }

  /** The mask built from `halfway` keeps the bits below the shift amount. */
  lemma RemainderMask(w: nat, x: nat, shift: nat)
    requires 0 < shift < w
    ensures Shl(w, 1, shift - 1) == Pow2(shift - 1)
    ensures Wrap(w, Shl(w, Pow2(shift - 1), 1) - 1) == Pow2(shift) - 1
    ensures And(x, Pow2(shift) - 1) == x % Pow2(shift)
  {
    Pow2Monotone(shift, w);
    ShlFits(w, 1, shift - 1);
    assert Pow2(1) == 2;
    ShlFits(w, Pow2(shift - 1), 1);
    ModSmall(Pow2(shift) - 1, Pow2(w));
    AndMask(x, shift);
  }

  /** Does the mode move the truncated mantissa up, given the remainder that was shifted out? */
  predicate RoundsUp(mode: RoundingMode, neg: bool, odd: bool, r: nat, halfway: nat) {
    match mode
    case RTE => r > halfway || (r == halfway && odd)
    case RTZ => false
    case RTP => r != 0 && !neg
    case RTN => r != 0 && neg
  }

  /** The switch on the rounding mode. */
  method RoundMantissa(mode: RoundingMode, sign: nat, truncated: nat, fMant: nat, mask: nat, halfway: nat)
    returns (hMant: nat)
    requires sign < 2 && truncated < 0x400
    ensures hMant == if RoundsUp(mode, sign == 1, truncated % 2 == 1, And(fMant, mask), halfway)
                     then truncated + 1 else truncated
  {
    hMant := truncated;
    AndMask(hMant, 1);
    U16Fits(hMant + 1);
    match mode {
      case RTE =>
        if And(fMant, mask) > halfway {
          hMant := U16(hMant + 1);
        } else if And(fMant, mask) == halfway {
          if And(hMant, 1) != 0 {
            hMant := U16(hMant + 1);
          }
        }
      case RTZ =>
      case RTP =>
        if And(fMant, mask) != 0 && sign == 0 {
          hMant := U16(hMant + 1);
        }
      case RTN =>
        if And(fMant, mask) != 0 && sign != 0 {
          hMant := U16(hMant + 1);
        }
    }
  }

  /** The carry check, and the result put together from its fields. */
  method Pack(sign: nat, hExp0: nat, hMant0: nat) returns (h: Half)
    requires sign < 2 && hExp0 < 31 && hMant0 <= 0x400
    ensures h == HalfBits(sign == 1, hExp0 * 0x400 + hMant0)
  {
    var hExp, hMant := hExp0, hMant0;
    CarryBit(hMant);
    U16Fits(hExp + 1);
    if And(hMant, 0x400) != 0 {
      hExp := U16(hExp + 1);
      hMant := 0;
    }
    FieldPack(sign, hExp, hMant);
    h := U16(Or(Or(Shl(32, sign, 15), Shl(32, hExp, 10)), hMant));
  }

  /** The significand and the shift amount that the general path works with. */
  ghost predicate ReadyToShift(f: Format, b: nat, exp: int, hExp: nat, fMant: nat) {
    && Convertible(f) && f.Holds(b) && IsFinite(f, b) && Exponent(f, Mag(f, b)) > 0
    && exp == Exponent(f, Mag(f, b)) - f.MaxExp() + 1
    && -25 <= exp < HALF_MAX_EXP
    && if exp < -14 then hExp == 0 && fMant == Significand(f, Mag(f, b))
       else hExp == exp + 15 && fMant == Fraction(f, Mag(f, b))
  }

  lemma ReadyIsOnPath(f: Format, b: nat, exp: int, hExp: nat, fMant: nat)
    requires ReadyToShift(f, b, exp, hExp, fMant)
    ensures 0 < LsbPos(f, exp) < f.Width()
    ensures var q := Shr(f.Width(), fMant, LsbPos(f, exp));
      && OnGeneralPath(f, Mag(f, b), exp, hExp, q, fMant % Pow2(LsbPos(f, exp)))
      && q < 0x400 && U16(q) == q && hExp < 31
  {
    var shift := LsbPos(f, exp);
    var q := Shr(f.Width(), fMant, shift);
    assert OnGeneralPath(f, Mag(f, b), exp, hExp, q, fMant % Pow2(shift));
    TruncatedPattern(f, Mag(f, b), exp, hExp, q, fMant % Pow2(shift));
    U16Fits(q);
  }

  /** Shift, round and pack. */
  method ShiftAndRound(f: Format, ghost b: nat, mode: RoundingMode, sign: nat, ghost exp: int,
    hExp: nat, fMant: nat, lsbPos: nat) returns (h: Half)
    requires ReadyToShift(f, b, exp, hExp, fMant)
    requires sign == Sign(f, b) < 2 && lsbPos == LsbPos(f, exp)
    ensures h == Converted(f, b, mode)
  {
    var w := f.Width();
    ReadyIsOnPath(f, b, exp, hExp, fMant);
    RemainderMask(w, fMant, lsbPos);
    ghost var truncated := Shr(w, fMant, lsbPos);
    var hMant := U16(Shr(w, fMant, lsbPos));
    var halfway := Shl(w, 1, lsbPos - 1);
    var mask := Wrap(w, Shl(w, halfway, 1) - 1);
    hMant := RoundMantissa(mode, sign, hMant, fMant, mask, halfway);
    GeneralResult(f, b, mode, exp, hExp, truncated, fMant % Pow2(lsbPos), hMant);
    h := Pack(sign, hExp, hMant);
  }

  /** The inputs that take none of the early exits. */
  method GeneralInput(f: Format, ghost b: nat, mode: RoundingMode, sign: nat, exp: int, hExp0: nat, fMant0: nat)
    returns (h: Half)
    requires Convertible(f) && f.Holds(b) && IsFinite(f, b) && Exponent(f, Mag(f, b)) > 0
    requires sign == Sign(f, b) < 2 && exp == Exponent(f, Mag(f, b)) - f.MaxExp() + 1
    requires -25 <= exp < HALF_MAX_EXP
    requires fMant0 == Fraction(f, Mag(f, b)) && hExp0 == U16(exp + HALF_MAX_EXP - 1)
    ensures h == Converted(f, b, mode)
  {
    var w := f.Width();
    var hExp, fMant, lsbPos := hExp0, fMant0, f.mantDig - HALF_MANT_DIG;
    if exp < -14 {
      LowMask(f);
      ImplicitOne(f, fMant);
      ModSmall(-exp + (f.mantDig - 25), Pow2(w));
      hExp := 0;
      fMant := Or(fMant, Shl(w, 1, f.mantDig - 1));
      lsbPos := Wrap(w, -exp + (f.mantDig - 25));
    } else {
      U16Fits(exp + HALF_MAX_EXP - 1);
    }
    h := ShiftAndRound(f, b, mode, sign, exp, hExp, fMant, lsbPos);
  }

  /** Including the implicit one of a normal number. */
  lemma ImplicitOne(f: Format, t: nat)
    requires Convertible(f) && t < Pow2(f.mantDig - 1)
    ensures Or(t, Pow2(f.mantDig - 1)) == t + Pow2(f.mantDig - 1)
    ensures Pow2(f.Width()) > f.mantDig + 1
  {
    OrTopBit(t, f.mantDig - 1);
    Pow2Exceeds(f.Width());
  }

  lemma {:induction false} Pow2Exceeds(k: nat)
    ensures Pow2(k) > k
  {
    if k > 0 {
      Pow2Exceeds(k - 1);
    }
  }

  /** Finite inputs: zero, the two early exits and the general path. */
  method FiniteInput(f: Format, ghost b: nat, mode: RoundingMode, sign: nat, fExp: nat, fMant: nat, exp: int, hExp: nat)
    returns (h: Half)
    requires Convertible(f) && f.Holds(b) && IsFinite(f, b) && f.MaxExp() >= 32
    requires sign == Sign(f, b) < 2 && fExp == Exponent(f, Mag(f, b)) && fMant == Fraction(f, Mag(f, b))
    requires Mag(f, b) == 0 <==> fExp == 0 && fMant == 0
    requires exp == fExp - f.MaxExp() + 1 && hExp == U16(exp + HALF_MAX_EXP - 1)
    ensures h == Converted(f, b, mode)
  {
    if fExp == 0 && fMant == 0 {
      ZeroPath(f, b, mode, sign);
      h := U16(Shl(32, sign, 15));
      return;
    }

    if exp >= HALF_MAX_EXP {
      OverflowPath(f, b, mode);
      h := HandleOverflow(mode, sign);
      return;
    }

    if exp < HALF_MIN_EXP - HALF_MANT_DIG - 1 {
      UnderflowPath(f, b, mode);
      h := HandleUnderflow(mode, sign);
      return;
    }

    h := GeneralInput(f, b, mode, sign, exp, hExp, fMant);
  }

  /** cl_half_from_float and cl_half_from_double.  Words have the width of the format; `lsbPos`, which
      the source keeps in 32 bits, is at most the number of significand digits. */
  method HalfFromFormat(f: Format, b: nat, mode: RoundingMode) returns (h: Half)
    requires Convertible(f) && f.Holds(b)
    ensures h == Converted(f, b, mode)
  {
    var w := f.Width();
    FieldsExtracted(f, b);
    Classified(f, b);
    ghost var m := Mag(f, b);

    var sign := U16(Shr(w, b, w - 1));
    var fExp := And(Shr(w, b, f.mantDig - 1), Pow2(f.expBits) - 1);
    var fMant := And(b, Shl(w, 1, f.mantDig - 1) - 1);
    UnbiasedExponent(f, fExp);
    var exp := Signed(w, Wrap(w, fExp - f.MaxExp() + 1));
    var hExp := U16(exp + HALF_MAX_EXP - 1);
    var lsbPos := f.mantDig - HALF_MANT_DIG;

    if fExp == Pow2(f.expBits) - 1 {
      if fMant != 0 {
        var hMant := U16(Shr(w, fMant, lsbPos));
        hMant := Or(hMant, 0x200);
        NaNPath(f, b, mode, sign, Shr(w, fMant, lsbPos), hMant);
        h := U16(Or(Or(Shl(32, sign, 15), HALF_EXP_MASK), hMant));
        return;
      } else {
        InfinityPath(f, b, mode, sign);
        h := U16(Or(Shl(32, sign, 15), HALF_EXP_MASK));
        return;
      }
    }

    h := FiniteInput(f, b, mode, sign, fExp, fMant, exp, hExp);
  }
}
