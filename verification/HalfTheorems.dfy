/** What the half conversions promise, for every input of every convertible format. */
module HalfTheorems {
  import opened Bits
  import opened Ieee754
  import opened Rounding
  import opened Neighbours
  import opened Truncation
  import opened HalfConversion
  import opened HalfWidening

  // ---------------------------------------------------------------- the rungs of a number

  lemma RoundHasRung(mode: RoundingMode, neg: bool, x: real) returns (m: nat)
    requires SignFits(neg, x)
    ensures LocallyRounded(mode, neg, Abs(x), m)
    ensures Round(mode, neg, x) == HalfBits(neg, m)
  {
    m := LocalExists(mode, neg, Abs(x));
    RoundIsRung(mode, neg, x, m);
  }

  /** Moving away from zero lands on the floor itself, if the number is a rung, or one above. */
  lemma AwayRung(mode: RoundingMode, neg: bool, a: real, lo: nat, m: nat)
    requires IsFloor(a, lo) && Away(mode, neg) && LocallyRounded(mode, neg, a, m)
    ensures m == if a == Level(lo) then lo else lo + 1
  {
    if m > lo + 1 {
      LevelIncreasing(lo + 1, m - 1);
    } else if m < lo {
      LevelIncreasing(m, lo);
    }
  }

  lemma NearestRung(neg: bool, a: real, lo: nat, m: nat)
    requires IsFloor(a, lo) && LocallyRounded(RTE, neg, a, m)
    ensures m == lo || (m == lo + 1 && a != Level(lo))
  {
    if m > lo + 1 {
      LevelIncreasing(lo + 1, m - 1);
      LevelIncreasing(m - 1, m);
    } else if m == lo + 1 {
      assert m - 1 == lo;
      LevelIncreasing(lo, m);
    } else if m < lo {
      LevelIncreasing(m + 1, lo);
      LevelIncreasing(m, m + 1);
    }
  }

  lemma FloorUnique(a: real, lo: nat, m: nat)
    requires IsFloor(a, lo) && IsFloor(a, m)
    ensures m == lo
  {
    if m > lo {
      LevelIncreasing(lo + 1, m);
    } else if m < lo {
      LevelIncreasing(m + 1, lo);
    }
  }

  /** The four results for one number: all on two neighbouring rungs. */
  lemma FourModes(neg: bool, x: real) returns (lo: nat, near: nat)
    requires SignFits(neg, x)
    ensures IsFloor(Abs(x), lo)
    ensures var hi := if Abs(x) == Level(lo) then lo else lo + 1;
      && near <= hi <= HALF_INFINITY
      && Round(RTZ, neg, x) == HalfBits(neg, lo)
      && Round(if neg then RTN else RTP, neg, x) == HalfBits(neg, hi)
      && Round(if neg then RTP else RTN, neg, x) == HalfBits(neg, lo)
      && Round(RTE, neg, x) == HalfBits(neg, near)
      && (near == lo || near == hi)
    ensures LocallyRounded(RTE, neg, Abs(x), near)
  {
    lo := RoundHasRung(RTZ, neg, x);
    var hi := RoundHasRung(if neg then RTN else RTP, neg, x);
    AwayRung(if neg then RTN else RTP, neg, Abs(x), lo, hi);
    var low := RoundHasRung(if neg then RTP else RTN, neg, x);
    FloorUnique(Abs(x), lo, low);
    near := RoundHasRung(RTE, neg, x);
    NearestRung(neg, Abs(x), lo, near);
  }

  // ---------------------------------------------------------------- correct rounding

  /** For a finite number the conversion returns the correctly rounded half and nothing else does. */
  lemma ConversionIsCorrectRounding(f: Format, b: nat, mode: RoundingMode, h: Half)
    requires Convertible(f) && f.Holds(b) && IsFinite(f, b)
    ensures CorrectlyRounded(mode, Sign(f, b) == 1, Value(f, b), h) <==> h == Converted(f, b, mode)
  {
    ConvertedFinite(f, b, mode);
    if CorrectlyRounded(mode, Sign(f, b) == 1, Value(f, b), h) {
      RoundIs(mode, Sign(f, b) == 1, Value(f, b), h);
    }
  }

  /** A number is converted alike from every format that can hold it. */
  lemma FormatsAgree(f: Format, b: nat, g: Format, c: nat, mode: RoundingMode)
    requires Convertible(f) && f.Holds(b) && !IsNaN(f, b)
    requires Convertible(g) && g.Holds(c) && !IsNaN(g, c)
    requires Sign(f, b) == Sign(g, c) && Denotes(f, b) == Denotes(g, c)
    ensures Converted(f, b, mode) == Converted(g, c, mode)
  {
    if IsFinite(f, b) {
      ConvertedFinite(f, b, mode);
      ConvertedFinite(g, c, mode);
    }
  }

  // ---------------------------------------------------------------- monotonicity

  lemma TowardZeroMonotone(nx: bool, x: real, ny: bool, y: real, h: Half, k: Half)
    requires SignFits(nx, x) && SignFits(ny, y) && x <= y
    requires CorrectlyRounded(RTZ, nx, x, h) && CorrectlyRounded(RTZ, ny, y, k)
    ensures HalfValue(h) <= HalfValue(k)
  {
    RungOrder(0, HalfMag(h));
    RungOrder(0, HalfMag(k));
  }

  lemma NearestMonotone(nx: bool, x: real, ny: bool, y: real, h: Half, k: Half)
    requires SignFits(nx, x) && SignFits(ny, y) && x <= y
    requires CorrectlyRounded(RTE, nx, x, h) && CorrectlyRounded(RTE, ny, y, k)
    requires HalfFinite(h) && HalfFinite(k)
    ensures HalfValue(h) <= HalfValue(k)
  {
    LevelEnds();
    assert AtLeastAsNear(x, h, k) && AtLeastAsNear(y, k, h);
    if nx == ny && x == y {
      RoundedUnique(RTE, nx, x, h, k);
    } else if x == y {
      assert HalfValue(0) == 0.0;
      assert AtLeastAsNear(x, h, 0) && AtLeastAsNear(y, k, 0);
    }
  }

  /** Rounding keeps order, whatever the signs asked for at zero. */
  lemma RoundMonotone(mode: RoundingMode, nx: bool, x: real, ny: bool, y: real)
    requires SignFits(nx, x) && SignFits(ny, y) && x <= y
    ensures HalfDenotes(Round(mode, nx, x)).Le(HalfDenotes(Round(mode, ny, y)))
  {
    var h, k := Round(mode, nx, x), Round(mode, ny, y);
    match mode
    case RTE =>
      if HalfFinite(h) && HalfFinite(k) {
        NearestMonotone(nx, x, ny, y, h, k);
      }
    case RTZ => TowardZeroMonotone(nx, x, ny, y, h, k);
    case RTP => assert Fin(x).Le(HalfDenotes(k));
    case RTN => assert HalfDenotes(h).Le(Fin(y));
  }

  /** Infinities are kept, and only a NaN gives a NaN. */
  lemma ConvertedInfinite(f: Format, b: nat, mode: RoundingMode)
    requires Convertible(f) && f.Holds(b)
    ensures HalfMag(Converted(f, b, mode)) <= HALF_INFINITY <==> !IsNaN(f, b)
    ensures IsInfinite(f, b) ==> HalfDenotes(Converted(f, b, mode)) == Denotes(f, b)
    ensures HalfSign(Converted(f, b, mode)) == Sign(f, b)
  {
    ValueSign(f, b);
  }

  /** Conversion keeps order across formats and across every boundary: zeros, subnormal and normal
      numbers, binades, infinities. */
  lemma ConversionMonotone(f: Format, b: nat, g: Format, c: nat, mode: RoundingMode)
    requires Convertible(f) && f.Holds(b) && !IsNaN(f, b)
    requires Convertible(g) && g.Holds(c) && !IsNaN(g, c)
    requires Denotes(f, b).Le(Denotes(g, c))
    ensures HalfDenotes(Converted(f, b, mode)).Le(HalfDenotes(Converted(g, c, mode)))
  {
    if IsFinite(f, b) && IsFinite(g, c) {
      ConvertedFinite(f, b, mode);
      ConvertedFinite(g, c, mode);
      RoundMonotone(mode, Sign(f, b) == 1, Value(f, b), Sign(g, c) == 1, Value(g, c));
    } else {
      ConvertedInfinite(f, b, mode);
      ConvertedInfinite(g, c, mode);
    }
  }

  // ---------------------------------------------------------------- enclosure

  /** A finite half is the rounded value of the number it denotes, in every mode. */
  lemma HalfRoundsToItself(h: Half, mode: RoundingMode)
    requires HalfFinite(h)
    ensures SignFits(HalfSign(h) == 1, HalfValue(h))
    ensures Round(mode, HalfSign(h) == 1, HalfValue(h)) == h
  {
    var m := HalfMag(h);
    RungOrder(0, m);
    LevelIncreasing(m, m + 1);
    assert Abs(HalfValue(h)) == Level(m);
    Stay(mode, HalfSign(h) == 1, Level(m), m);
    RoundIsRung(mode, HalfSign(h) == 1, HalfValue(h), m);
    assert HalfBits(HalfSign(h) == 1, m) == h;
  }

  /** RTN and RTP enclose the number, the other modes return one of the two, the two coincide exactly on
      the numbers that are halves, and otherwise they are neighbours. */
  lemma Enclosure(neg: bool, x: real)
    requires SignFits(neg, x)
    ensures var dn, up := Round(RTN, neg, x), Round(RTP, neg, x);
      && HalfDenotes(dn).Le(Fin(x)) && Fin(x).Le(HalfDenotes(up))
      && Round(RTE, neg, x) in {dn, up} && Round(RTZ, neg, x) in {dn, up}
      && (dn == up <==> exists h: Half :: HalfFinite(h) && HalfValue(h) == x)
      && (dn != up ==> HalfMag(up) - HalfMag(dn) == if neg then -1 else 1)
  {
    var lo, near := FourModes(neg, x);
    LevelEnds();
    var h := HalfBits(neg, lo);
    if Abs(x) == Level(lo) {
      assert HalfFinite(h) && HalfValue(h) == x;
    } else {
      forall g: Half | HalfFinite(g) ensures HalfValue(g) != x {
        RungOrder(lo, HalfMag(g));
      }
    }
  }

  /** The same for the patterns of any format that are not NaNs, infinities included. */
  lemma ConversionEnclosure(f: Format, b: nat)
    requires Convertible(f) && f.Holds(b) && !IsNaN(f, b)
    ensures var dn, up := Converted(f, b, RTN), Converted(f, b, RTP);
      && HalfDenotes(dn).Le(Denotes(f, b)) && Denotes(f, b).Le(HalfDenotes(up))
      && Converted(f, b, RTE) in {dn, up} && Converted(f, b, RTZ) in {dn, up}
      && (dn == up <==> exists h: Half :: HalfMag(h) <= HALF_INFINITY && HalfDenotes(h) == Denotes(f, b))
      && (dn != up ==> HalfMag(up) - HalfMag(dn) == if Sign(f, b) == 1 then -1 else 1)
  {
    ValueSign(f, b);
    var dn := Converted(f, b, RTN);
    if IsFinite(f, b) {
      var neg, x := Sign(f, b) == 1, Value(f, b);
      Enclosure(neg, x);
      forall h: Half | HalfMag(h) <= HALF_INFINITY && HalfDenotes(h) == Fin(x) ensures HalfFinite(h) && HalfValue(h) == x {
      }
      if exists h: Half :: HalfFinite(h) && HalfValue(h) == x {
        var h: Half :| HalfFinite(h) && HalfValue(h) == x;
        assert HalfMag(h) <= HALF_INFINITY && HalfDenotes(h) == Denotes(f, b);
      }
    } else {
      ConvertedInfinite(f, b, RTN);
      assert HalfMag(dn) <= HALF_INFINITY && HalfDenotes(dn) == Denotes(f, b);
    }
  }

  // ---------------------------------------------------------------- error bounds

  /** To nearest, the error is at most 2^-25 below 2^-14 and at most 2^-11 of the number from there up to
      the overflow threshold. */
  lemma NearestError(neg: bool, x: real)
    requires SignFits(neg, x) && Abs(x) < 65520.0
    ensures HalfFinite(Round(RTE, neg, x))
    ensures var err := Abs(HalfValue(Round(RTE, neg, x)) - x);
      && (Abs(x) < 1.0 / 16384.0 ==> err <= 1.0 / 33554432.0)
      && (Abs(x) >= 1.0 / 16384.0 ==> err <= Abs(x) / 2048.0)
  {
    var lo, near := FourModes(neg, x);
    NearestOverflow(neg, Abs(x), near);
    RungError(neg, x, near);
    HalfGap(neg, Abs(x), lo, near);
    GapBound(Abs(x), lo);
  }

  lemma HalfGap(neg: bool, a: real, lo: nat, near: nat)
    requires IsFloor(a, lo) && LocallyRounded(RTE, neg, a, near) && (near == lo || near == lo + 1)
    requires near < HALF_INFINITY
    ensures Abs(Level(near) - a) <= (Level(lo + 1) - Level(lo)) / 2.0
  {
    assert near == lo + 1 ==> near - 1 == lo;
  }

  /** The gap above the floor of a number: one unit below 2^-14, at most 2^-10 of the number above. */
  lemma GapBound(a: real, lo: nat)
    requires IsFloor(a, lo)
    ensures Level(lo + 1) - Level(lo) == (Ulp(HALF, lo) as real) / 16777216.0
    ensures a < 1.0 / 16384.0 ==> Ulp(HALF, lo) == 1
    ensures a >= 1.0 / 16384.0 ==> Level(lo + 1) - Level(lo) <= a / 1024.0
  {
    HalfFormat();
    RungUnits(lo);
    assert Level(0x400) == 1.0 / 16384.0;
    if lo < 0x400 {
      DivModUnique(lo, 0x400, 0, lo);
      LevelIncreasing(lo + 1, 0x400);
    } else {
      LevelIncreasing(0x400, lo);
      assert Exponent(HALF, lo) > 0;
      MulGe(Significand(HALF, lo), 0x400, Ulp(HALF, lo));
    }
  }

  /** The result and the number lie between two neighbouring rungs. */
  lemma RoundedRung(mode: RoundingMode, neg: bool, x: real) returns (lo: nat, m: nat)
    requires SignFits(neg, x)
    ensures IsFloor(Abs(x), lo) && m <= HALF_INFINITY
    ensures Round(mode, neg, x) == HalfBits(neg, m)
    ensures m == lo || (m == lo + 1 && Abs(x) != Level(lo))
  {
    var near;
    lo, near := FourModes(neg, x);
    m := HalfMag(Round(mode, neg, x));
  }

  lemma RungError(neg: bool, x: real, m: nat)
    requires SignFits(neg, x) && m < HALF_INFINITY
    ensures Abs(HalfValue(HalfBits(neg, m)) - x) == Abs(Level(m) - Abs(x))
  {
  }

  /** In every mode the error is less than one unit in the last place of the rung below, as long as the
      number is not above the largest finite half. */
  lemma DirectedError(mode: RoundingMode, neg: bool, x: real) returns (lo: nat)
    requires SignFits(neg, x) && Abs(x) <= 65504.0
    ensures IsFloor(Abs(x), lo)
    ensures HalfFinite(Round(mode, neg, x))
    ensures Abs(HalfValue(Round(mode, neg, x)) - x) < (Ulp(HALF, lo) as real) / 16777216.0
  {
    var m;
    lo, m := RoundedRung(mode, neg, x);
    BelowTop(Abs(x), lo, m);
    RungError(neg, x, m);
    GapBound(Abs(x), lo);
    LessThanGap(Abs(x), lo, m);
  }

  lemma BelowTop(a: real, lo: nat, m: nat)
    requires a <= 65504.0 && IsFloor(a, lo) && (m == lo || (m == lo + 1 && a != Level(lo)))
    ensures m < HALF_INFINITY
  {
    LevelEnds();
  }

  lemma LessThanGap(a: real, lo: nat, m: nat)
    requires a <= 65504.0 && IsFloor(a, lo) && (m == lo || (m == lo + 1 && a != Level(lo)))
    ensures Abs(Level(m) - a) < Level(lo + 1) - Level(lo)
  {
    LevelIncreasing(lo, lo + 1);
    if lo == 0x7BFF {
      LevelEnds();
    }
  }

  // ---------------------------------------------------------------- sign symmetry

  function Mirror(mode: RoundingMode): RoundingMode {
    match mode
    case RTP => RTN
    case RTN => RTP
    case RTE => RTE
    case RTZ => RTZ
  }

  /** Flipping the sign bit. */
  function Negated(f: Format, b: nat): nat
    requires f.Valid()
  {
    if b < Pow2(f.Width() - 1) then b + Pow2(f.Width() - 1) else b - Pow2(f.Width() - 1)
  }

  function HalfNegated(h: Half): Half {
    if h < 0x8000 then h + 0x8000 else h - 0x8000
  }

  lemma RoundMirrored(mode: RoundingMode, neg: bool, x: real)
    requires SignFits(neg, x)
    ensures Round(Mirror(mode), !neg, -x) == HalfNegated(Round(mode, neg, x))
  {
    var m := RoundHasRung(mode, neg, x);
    RoundIsRung(Mirror(mode), !neg, -x, m);
  }

  /** Flipping the sign of any input, NaNs and infinities included, flips the sign of the result,
      with RTP and RTN exchanged. */
  lemma SignSymmetry(f: Format, b: nat, mode: RoundingMode)
    requires Convertible(f) && f.Holds(b)
    ensures f.Holds(Negated(f, b))
    ensures Converted(f, Negated(f, b), Mirror(mode)) == HalfNegated(Converted(f, b, mode))
  {
    NegatedFields(f, b);
    var c := Negated(f, b);
    if IsFinite(f, b) {
      ConvertedFinite(f, b, mode);
      ConvertedFinite(f, c, Mirror(mode));
      RoundMirrored(mode, Sign(f, b) == 1, Value(f, b));
    }
  }

  lemma NegatedFields(f: Format, b: nat)
    requires Convertible(f) && f.Holds(b)
    ensures f.Holds(Negated(f, b))
    ensures Sign(f, b) < 2 && Sign(f, Negated(f, b)) == 1 - Sign(f, b)
    ensures Mag(f, Negated(f, b)) == Mag(f, b)
    ensures Value(f, Negated(f, b)) == -Value(f, b)
  {
    var half := Pow2(f.Width() - 1);
    ValueSign(f, b);
    DivModUnique(Negated(f, b), half, 1 - Sign(f, b), Mag(f, b));
  }

  // ---------------------------------------------------------------- round trips

  /** A half survives the trip through any format that holds its value. */
  lemma RoundTripThrough(f: Format, b: nat, h: Half, mode: RoundingMode)
    requires Convertible(f) && f.Holds(b) && !IsNaN(f, b) && HalfMag(h) <= HALF_INFINITY
    requires Sign(f, b) == HalfSign(h) && Denotes(f, b) == HalfDenotes(h)
    ensures Converted(f, b, mode) == h
  {
    if IsFinite(f, b) {
      ConvertedFinite(f, b, mode);
      HalfRoundsToItself(h, mode);
    }
  }

  lemma PayloadOf(b: nat, q: nat)
    requires FLOAT.Holds(b) && Mag(FLOAT, b) == 0x7F80_0000 + q * 0x2000 && 0x200 <= q < 0x400
    ensures IsNaN(FLOAT, b) && QuietPayload(FLOAT, b) == q
  {
    FloatFormat();
    DivModUnique(Mag(FLOAT, b), 0x80_0000, 0xFF, q * 0x2000);
    DivModUnique(q * 0x2000, 0x2000, q, 0);
  }

  lemma QuietedFields(h: Half)
    requires HalfMag(h) > HALF_INFINITY
    ensures var q := HalfMag(Quieted(h)) - HALF_INFINITY;
      0x200 <= q < 0x400 && Quieted(h) == HalfBits(HalfSign(h) == 1, HALF_INFINITY + q)
  {
  }

  lemma NaNRoundTrip(h: Half, b: nat, mode: RoundingMode)
    requires IsWidened(h, b) && HalfMag(h) > HALF_INFINITY
    ensures Converted(FLOAT, b, mode) == Quieted(h)
  {
    QuietedFields(h);
    PayloadOf(b, HalfMag(Quieted(h)) - HALF_INFINITY);
  }

  /** cl_half_from_float after cl_half_to_float: bit for bit the same half; a NaN is made quiet. */
  method RoundTrip(h: Half, mode: RoundingMode) returns (k: Half)
    ensures k == if HalfMag(h) > HALF_INFINITY then Quieted(h) else h
  {
    var b := HalfToFloat(h);
    k := HalfFromFormat(FLOAT, b, mode);
    if HalfMag(h) > HALF_INFINITY {
      NaNRoundTrip(h, b, mode);
    } else {
      RoundTripThrough(FLOAT, b, h, mode);
    }
  }

  // ---------------------------------------------------------------- widening

  /** Widening is determined by its specification, and keeps order and distinctness. */
  lemma WideningUnique(h: Half, b: nat, c: nat)
    requires IsWidened(h, b) && IsWidened(h, c)
    ensures b == c
  {
    FloatFormat();
    var m, n := Mag(FLOAT, b), Mag(FLOAT, c);
    if m < n {
      AbsValueIncreasing(FLOAT, m, n);
    } else if n < m {
      AbsValueIncreasing(FLOAT, n, m);
    }
  }

  lemma WideningInjective(g: Half, h: Half, b: nat)
    requires IsWidened(g, b) && IsWidened(h, b)
    requires HalfMag(g) <= HALF_INFINITY && HalfMag(h) <= HALF_INFINITY
    ensures g == h
  {
    DenotesInjective(g, h);
  }

  /** The patterns of finite halves and of their widened floats are ordered alike. */
  lemma WideningKeepsOrder(g: Half, b: nat, h: Half, c: nat)
    requires HalfFinite(g) && HalfFinite(h) && IsWidened(g, b) && IsWidened(h, c)
    ensures HalfMag(g) < HalfMag(h) <==> Mag(FLOAT, b) < Mag(FLOAT, c)
  {
    WidenedAbs(g, b);
    WidenedAbs(h, c);
    RungOrder(HalfMag(g), HalfMag(h));
    FloatOrder(Mag(FLOAT, b), Mag(FLOAT, c));
  }

  lemma FloatOrder(m: nat, n: nat)
    ensures m < n <==> AbsValue(FLOAT, m) < AbsValue(FLOAT, n)
  {
    if m < n {
      AbsValueIncreasing(FLOAT, m, n);
    } else if n < m {
      AbsValueIncreasing(FLOAT, n, m);
    }
  }

  lemma WidenedAbs(h: Half, b: nat)
    requires HalfFinite(h) && IsWidened(h, b)
    ensures AbsValue(FLOAT, Mag(FLOAT, b)) == Level(HalfMag(h))
  {
  }

  // ---------------------------------------------------------------- the two instances

  /** What a conversion must give, told from the fields: whether the exponent field is all ones, the
      fraction field `t` and its ten leading bits, and the absolute value of a finite number. */
  ghost predicate ConvertsTo(mode: RoundingMode, neg: bool, h: Half, ones: bool, t: nat, lead: nat, a: real)
    requires lead < 0x400
  {
    if ones && t != 0 then h == HalfBits(neg, 0x7C00 + if lead < 0x200 then lead + 0x200 else lead)
    else if ones then h == HalfBits(neg, 0x7C00)
    else CorrectlyRounded(mode, neg, if neg then -a else a, h)
  }

  lemma FieldsDecide(f: Format, b: nat, mode: RoundingMode)
    requires Convertible(f) && f.Holds(b)
    ensures var e, t := Exponent(f, Mag(f, b)), Fraction(f, Mag(f, b));
      && 0 <= t / Pow2(f.mantDig - 11) < 0x400
      && ConvertsTo(mode, Sign(f, b) == 1, Converted(f, b, mode), e == Pow2(f.expBits) - 1, t,
           t / Pow2(f.mantDig - 11), AbsValue(f, Mag(f, b)))
  {
    ValueSign(f, b);
    Classified(f, b);
    FieldPositions(f, b);
    FractionLead(f, Mag(f, b));
    if IsFinite(f, b) {
      ConvertedFinite(f, b, mode);
    }
  }

  /** Where binary32 keeps its fields and what they denote. */
  lemma FloatLiterals(b: nat)
    requires b < 0x1_0000_0000
    ensures FLOAT.Holds(b) && FLOAT.MaxExp() == 128 && FLOAT.Infinity() == 0x7F80_0000
    ensures Sign(FLOAT, b) == b / 0x8000_0000
    ensures Exponent(FLOAT, Mag(FLOAT, b)) == b / 0x80_0000 % 0x100
    ensures Fraction(FLOAT, Mag(FLOAT, b)) == b % 0x80_0000
    ensures var e, t := b / 0x80_0000 % 0x100, b % 0x80_0000;
      AbsValue(FLOAT, Mag(FLOAT, b))
      == if e == 0 then Ldexp(t as real, -149) else Ldexp((0x80_0000 + t) as real, e - 150)
  {
    FloatFormat();
    FieldPositions(FLOAT, b);
  }

  lemma DoubleFormat()
    ensures DOUBLE.Width() == 64 && DOUBLE.MaxExp() == 1024
    ensures Pow2(64) == 0x1_0000_0000_0000_0000 && Pow2(63) == 0x8000_0000_0000_0000
    ensures Pow2(52) == 0x10_0000_0000_0000 && Pow2(42) == 0x400_0000_0000 && Pow2(11) == 0x800
    ensures DOUBLE.Infinity() == 0x7FF0_0000_0000_0000
  {
    FloatFormat();
    HalfFormat();
    Pow2Add(32, 32);
    assert Pow2(64) == 2 * Pow2(63);
    Pow2Add(10, 10);
    Pow2Add(32, 20);
    Pow2Add(32, 10);
  }

  /** Where binary64 keeps its fields and what they denote. */
  lemma DoubleLiterals(b: nat)
    requires b < 0x1_0000_0000_0000_0000
    ensures DOUBLE.Holds(b) && DOUBLE.MaxExp() == 1024 && DOUBLE.Infinity() == 0x7FF0_0000_0000_0000
    ensures Sign(DOUBLE, b) == b / 0x8000_0000_0000_0000
    ensures Exponent(DOUBLE, Mag(DOUBLE, b)) == b / 0x10_0000_0000_0000 % 0x800
    ensures Fraction(DOUBLE, Mag(DOUBLE, b)) == b % 0x10_0000_0000_0000
    ensures var e, t := b / 0x10_0000_0000_0000 % 0x800, b % 0x10_0000_0000_0000;
      AbsValue(DOUBLE, Mag(DOUBLE, b))
      == if e == 0 then Ldexp(t as real, -1074) else Ldexp((0x10_0000_0000_0000 + t) as real, e - 1075)
  {
    DoubleFormat();
    FieldPositions(DOUBLE, b);
  }

  /** cl_half_from_float: the result in terms of the 32-bit word alone. */
  method HalfFromFloat(b: nat, mode: RoundingMode) returns (h: Half)
    requires b < 0x1_0000_0000
    ensures FLOAT.Holds(b) && h == Converted(FLOAT, b, mode)
    ensures var e, t := b / 0x80_0000 % 0x100, b % 0x80_0000;
      ConvertsTo(mode, b / 0x8000_0000 == 1, h, e == 0xFF, t, t / 0x2000,
        if e == 0 then Ldexp(t as real, -149) else Ldexp((0x80_0000 + t) as real, e - 150))
  {
    FloatFormat();
    FloatLiterals(b);
    FieldsDecide(FLOAT, b, mode);
    h := HalfFromFormat(FLOAT, b, mode);
  }

  /** cl_half_from_double: the result in terms of the 64-bit word alone. */
  method HalfFromDouble(b: nat, mode: RoundingMode) returns (h: Half)
    requires b < 0x1_0000_0000_0000_0000
    ensures DOUBLE.Holds(b) && h == Converted(DOUBLE, b, mode)
    ensures var e, t := b / 0x10_0000_0000_0000 % 0x800, b % 0x10_0000_0000_0000;
      ConvertsTo(mode, b / 0x8000_0000_0000_0000 == 1, h, e == 0x7FF, t, t / 0x400_0000_0000,
        if e == 0 then Ldexp(t as real, -1074) else Ldexp((0x10_0000_0000_0000 + t) as real, e - 1075))
  {
    DoubleFormat();
    DoubleLiterals(b);
    FieldsDecide(DOUBLE, b, mode);
    h := HalfFromFormat(DOUBLE, b, mode);
  }
}
