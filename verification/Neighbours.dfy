/** Rounding decided by looking at neighbouring patterns only, and the proof that this local
    rule is the global specification.  The unsigned half patterns 0..0x7C00 are a ladder of
    levels, with the virtual level 65536 on top; rounding up is the next rung. */
module Neighbours {
  import opened Rounding
  import opened Ieee754

  /** Do these directed modes move a number of this sign away from zero? */
  predicate Away(mode: RoundingMode, neg: bool) {
    (mode == RTP && !neg) || (mode == RTN && neg)
  }

  /** `m` is the right rung for the absolute value `a`, judged against `m - 1` and `m + 1`. */
  ghost predicate LocallyRounded(mode: RoundingMode, neg: bool, a: real, m: nat) {
    && m <= HALF_INFINITY
    && if mode == RTE then
         && (m > 0 ==> Level(m - 1) + Level(m) <= 2.0 * a)
         && (m > 0 && Level(m - 1) + Level(m) == 2.0 * a ==> m % 2 == 0)
         && (m < HALF_INFINITY ==> 2.0 * a <= Level(m) + Level(m + 1))
         && (m < HALF_INFINITY && 2.0 * a == Level(m) + Level(m + 1) ==> m % 2 == 0)
       else if Away(mode, neg) then
         && (m > 0 ==> Level(m - 1) < a)
         && (m < HALF_INFINITY ==> a <= Level(m))
       else
         && m < HALF_INFINITY
         && Level(m) <= a
         && (m + 1 < HALF_INFINITY ==> a < Level(m + 1))
  }

  // ---------------------------------------------------------------- soundness

  lemma NearestOverflow(neg: bool, a: real, m: nat)
    requires LocallyRounded(RTE, neg, a, m)
    ensures m == HALF_INFINITY <==> a >= 65520.0
  {
    LevelEnds();
    if m < HALF_INFINITY {
      LevelIncreasing(m, 0x7BFF);
      LevelIncreasing(m + 1, HALF_INFINITY);
    }
  }

  /** Against a rung on the same side of zero. */
  lemma NearerThanSameSide(a: real, m: nat, n: nat)
    requires LocallyRounded(RTE, false, a, m) && m < HALF_INFINITY && n < HALF_INFINITY
    ensures Abs(a - Level(m)) <= Abs(a - Level(n))
    ensures Abs(a - Level(m)) == Abs(a - Level(n)) && Level(m) != Level(n) ==> m % 2 == 0
  {
    if n > m {
      LevelIncreasing(m, m + 1);
      LevelIncreasing(m + 1, n);
    } else if n < m {
      LevelIncreasing(n, m - 1);
      LevelIncreasing(m - 1, m);
    }
  }

  /** Against a rung on the other side of zero. */
  lemma NearerThanOtherSide(a: real, m: nat, n: nat)
    requires a >= 0.0 && LocallyRounded(RTE, false, a, m) && m < HALF_INFINITY
    ensures Abs(a - Level(m)) <= a + Level(n)
    ensures Abs(a - Level(m)) == a + Level(n) && Level(m) != -Level(n) ==> m % 2 == 0
  {
    RungOrder(0, n);
    RungOrder(0, m);
    if m > 0 {
      RungOrder(0, m - 1);
    }
  }

  lemma NearestSound(x: real, h: Half, g: Half)
    requires SignFits(HalfSign(h) == 1, x)
    requires LocallyRounded(RTE, HalfSign(h) == 1, Abs(x), HalfMag(h))
    requires HalfFinite(h) && HalfFinite(g)
    ensures AtLeastAsNear(x, h, g)
  {
    NearerThanSameSide(Abs(x), HalfMag(h), HalfMag(g));
    NearerThanOtherSide(Abs(x), HalfMag(h), HalfMag(g));
  }

  lemma TowardZeroSound(neg: bool, x: real, h: Half)
    requires LocallyRounded(RTZ, neg, Abs(x), HalfMag(h))
    ensures IsTowardZero(x, h)
  {
    RungOrder(0, HalfMag(h));
    forall g: Half | HalfFinite(g) && Abs(HalfValue(g)) <= Abs(x)
      ensures Abs(HalfValue(g)) <= Abs(HalfValue(h))
    {
      RungOrder(HalfMag(h), HalfMag(g));
    }
  }

  lemma LeastAboveSound(x: real, h: Half)
    requires SignFits(HalfSign(h) == 1, x)
    requires LocallyRounded(RTP, HalfSign(h) == 1, Abs(x), HalfMag(h))
    ensures IsLeastAbove(x, h)
  {
    var m := HalfMag(h);
    LevelEnds();
    LevelIncreasing(0, m);
    forall g: Half | HalfMag(g) <= HALF_INFINITY && Fin(x).Le(HalfDenotes(g))
      ensures HalfDenotes(h).Le(HalfDenotes(g))
    {
      RungOrder(m, HalfMag(g));
    }
  }

  lemma GreatestBelowSound(x: real, h: Half)
    requires SignFits(HalfSign(h) == 1, x)
    requires LocallyRounded(RTN, HalfSign(h) == 1, Abs(x), HalfMag(h))
    ensures IsGreatestBelow(x, h)
  {
    var m := HalfMag(h);
    LevelEnds();
    LevelIncreasing(0, m);
    forall g: Half | HalfMag(g) <= HALF_INFINITY && HalfDenotes(g).Le(Fin(x))
      ensures HalfDenotes(g).Le(HalfDenotes(h))
    {
      RungOrder(m, HalfMag(g));
    }
  }

  /** How `n` relates to `m` and to the neighbours of `m`. */
  lemma RungOrder(m: nat, n: nat)
    ensures Level(n) >= 0.0
    ensures n < m ==> Level(n) <= Level(m - 1)
    ensures n <= m ==> Level(n) <= Level(m)
    ensures n > m ==> Level(n) >= Level(m + 1) && Level(n) > Level(m)
  {
    LevelEnds();
    LevelIncreasing(0, n);
    if n < m {
      LevelIncreasing(n, m - 1);
      LevelIncreasing(n, m);
    } else if n > m {
      LevelIncreasing(m + 1, n);
      LevelIncreasing(m, n);
    }
  }

  /** The local rule meets the specification. */
  lemma LocalSound(mode: RoundingMode, neg: bool, x: real, h: Half)
    requires SignFits(neg, x)
    requires HalfSign(h) == 1 <==> neg
    requires LocallyRounded(mode, neg, Abs(x), HalfMag(h))
    ensures CorrectlyRounded(mode, neg, x, h)
  {
    match mode
    case RTE =>
      NearestOverflow(neg, Abs(x), HalfMag(h));
      if Abs(x) < 65520.0 {
        forall g: Half | HalfFinite(g) ensures AtLeastAsNear(x, h, g) {
          NearestSound(x, h, g);
        }
      }
    case RTZ => TowardZeroSound(neg, x, h);
    case RTP => LeastAboveSound(x, h);
    case RTN => GreatestBelowSound(x, h);
  }

  // ---------------------------------------------------------------- the two outcomes

  /** `lo` is the highest finite rung not above `a`. */
  ghost predicate IsFloor(a: real, lo: nat) {
    && lo < HALF_INFINITY
    && Level(lo) <= a
    && (lo + 1 < HALF_INFINITY ==> a < Level(lo + 1))
  }

  /** When the truncated pattern is the answer. */
  lemma Stay(mode: RoundingMode, neg: bool, a: real, lo: nat)
    requires IsFloor(a, lo)
    requires mode == RTE ==> 2.0 * a <= Level(lo) + Level(lo + 1)
    requires mode == RTE && 2.0 * a == Level(lo) + Level(lo + 1) ==> lo % 2 == 0
    requires Away(mode, neg) ==> a == Level(lo)
    ensures LocallyRounded(mode, neg, a, lo)
  {
    if lo > 0 {
      LevelIncreasing(lo - 1, lo);
    }
  }

  /** When the next pattern is the answer. */
  lemma Climb(mode: RoundingMode, neg: bool, a: real, lo: nat)
    requires IsFloor(a, lo)
    requires mode == RTE || Away(mode, neg)
    requires mode == RTE ==> 2.0 * a >= Level(lo) + Level(lo + 1)
    requires mode == RTE && 2.0 * a == Level(lo) + Level(lo + 1) ==> lo % 2 == 1
    requires Away(mode, neg) ==> a != Level(lo)
    ensures LocallyRounded(mode, neg, a, lo + 1)
  {
    assert lo + 1 - 1 == lo;
    if mode == RTE {
      LevelIncreasing(lo + 1, lo + 2);
    }
  }

  // ---------------------------------------------------------------- existence

  /** The highest finite rung not above `a`. */
  lemma {:induction false} FloorFrom(a: real, top: nat) returns (m: nat)
    requires a >= 0.0 && top < HALF_INFINITY
    requires top + 1 < HALF_INFINITY ==> a < Level(top + 1)
    ensures IsFloor(a, m)
    decreases top
  {
    LevelEnds();
    if Level(top) <= a {
      m := top;
    } else {
      m := FloorFrom(a, top - 1);
    }
  }

  lemma LocalExists(mode: RoundingMode, neg: bool, a: real) returns (m: nat)
    requires a >= 0.0
    ensures LocallyRounded(mode, neg, a, m)
  {
    LevelEnds();
    var lo := FloorFrom(a, 0x7BFF);
    var mid := Level(lo) + Level(lo + 1);
    if mode == RTE && (2.0 * a > mid || (2.0 * a == mid && lo % 2 == 1)) {
      m := lo + 1;
      Climb(mode, neg, a, lo);
    } else if Away(mode, neg) && a != Level(lo) {
      m := lo + 1;
      Climb(mode, neg, a, lo);
    } else {
      m := lo;
      Stay(mode, neg, a, lo);
    }
  }

  lemma RoundedExists(mode: RoundingMode, neg: bool, x: real)
    requires SignFits(neg, x)
    ensures exists h: Half :: CorrectlyRounded(mode, neg, x, h)
  {
    var m := LocalExists(mode, neg, Abs(x));
    var h := HalfBits(neg, m);
    LocalSound(mode, neg, x, h);
  }

  // ---------------------------------------------------------------- uniqueness

  lemma DenotesInjective(g: Half, h: Half)
    requires HalfSign(g) == HalfSign(h)
    requires HalfMag(g) <= HALF_INFINITY && HalfMag(h) <= HALF_INFINITY
    requires HalfDenotes(g) == HalfDenotes(h)
    ensures g == h
  {
    var m, n := HalfMag(g), HalfMag(h);
    if m < n {
      LevelIncreasing(m, n);
    } else if n < m {
      LevelIncreasing(n, m);
    }
  }

  /** The next pattern of the same sign. */
  lemma NextHalf(g: Half)
    requires HalfMag(g) + 1 < 0x8000
    ensures g + 1 < 0x10000 && HalfMag(g + 1) == HalfMag(g) + 1 && HalfSign(g + 1) == HalfSign(g)
  {
  }

  /** Of two different even patterns of one sign that are equally near, neither is nearest: the
      pattern between them is nearer. */
  lemma EvenTieIsBroken(x: real, g: Half, h: Half)
    requires HalfSign(g) == HalfSign(h) && HalfMag(g) < HalfMag(h)
    requires HalfMag(g) % 2 == 0 && HalfMag(h) % 2 == 0 && HalfFinite(h)
    requires Abs(x - HalfValue(g)) == Abs(x - HalfValue(h))
    ensures g + 1 < 0x10000 && HalfFinite(g + 1) && !AtLeastAsNear(x, g, g + 1)
  {
    var m, n := HalfMag(g), HalfMag(h);
    assert m + 1 < n;
    NextHalf(g);
    LevelIncreasing(m, m + 1);
    LevelIncreasing(m + 1, n);
    BetweenIsNearer(x, HalfValue(g), HalfValue(g + 1), HalfValue(h));
  }

  lemma BetweenIsNearer(x: real, u: real, v: real, w: real)
    requires u < v < w || w < v < u
    requires Abs(x - u) == Abs(x - w)
    ensures Abs(x - v) < Abs(x - u)
  {
  }

  lemma NearestNotBelow(x: real, g: Half, h: Half)
    requires HalfSign(g) == HalfSign(h) && Abs(x) < 65520.0
    requires IsNearestEven(x, g) && IsNearestEven(x, h)
    ensures HalfMag(g) >= HalfMag(h)
  {
    if HalfMag(g) < HalfMag(h) {
      LevelIncreasing(HalfMag(g), HalfMag(h));
      assert AtLeastAsNear(x, g, h) && AtLeastAsNear(x, h, g);
      EvenTieIsBroken(x, g, h);
    }
  }

  /** A real number has one correctly rounded result. */
  lemma RoundedUnique(mode: RoundingMode, neg: bool, x: real, g: Half, h: Half)
    requires CorrectlyRounded(mode, neg, x, g) && CorrectlyRounded(mode, neg, x, h)
    ensures g == h
  {
    match mode
    case RTE =>
      if Abs(x) >= 65520.0 {
        DenotesInjective(g, h);
      } else {
        NearestNotBelow(x, g, h);
        NearestNotBelow(x, h, g);
      }
    case RTZ =>
      RungOrder(HalfMag(g), HalfMag(h));
      RungOrder(HalfMag(h), HalfMag(g));
    case RTP => DenotesInjective(g, h);
    case RTN => DenotesInjective(g, h);
  }

  // ---------------------------------------------------------------- the rounding function

  /** The correctly rounded half of `x`. */
  ghost function Round(mode: RoundingMode, neg: bool, x: real): (h: Half)
    requires SignFits(neg, x)
    ensures CorrectlyRounded(mode, neg, x, h)
  {
    RoundedExists(mode, neg, x);
    var h: Half :| CorrectlyRounded(mode, neg, x, h);
    h
  }

  lemma RoundIs(mode: RoundingMode, neg: bool, x: real, h: Half)
    requires SignFits(neg, x)
    requires CorrectlyRounded(mode, neg, x, h)
    ensures Round(mode, neg, x) == h
  {
    RoundedUnique(mode, neg, x, Round(mode, neg, x), h);
  }

  lemma RoundIsLocal(mode: RoundingMode, neg: bool, x: real, h: Half)
    requires SignFits(neg, x)
    requires HalfSign(h) == 1 <==> neg
    requires LocallyRounded(mode, neg, Abs(x), HalfMag(h))
    ensures Round(mode, neg, x) == h
  {
    LocalSound(mode, neg, x, h);
    RoundIs(mode, neg, x, h);
  }

  lemma RoundIsRung(mode: RoundingMode, neg: bool, x: real, m: nat)
    requires SignFits(neg, x)
    requires LocallyRounded(mode, neg, Abs(x), m)
    ensures Round(mode, neg, x) == HalfBits(neg, m)
  {
    RoundIsLocal(mode, neg, x, HalfBits(neg, m));
  }
}
