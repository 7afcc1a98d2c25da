/** The arithmetic behind the conversion: what shifting a significand right says about the
    real number it stands for. */
module Truncation {
  import opened Bits
  import opened Ieee754
  import opened Rounding
  import opened Neighbours

  // ---------------------------------------------------------------- binades

  lemma LdexpPow2(k: nat, j: int)
    ensures Ldexp(Pow2(k) as real, j) == Ldexp(1.0, k + j)
  {
    LdexpNat(1, k);
    LdexpAdd(1.0, k, j);
  }

  lemma {:induction false} LdexpOneMonotone(j: int, k: int)
    requires j <= k
    ensures 0.0 < Ldexp(1.0, j) <= Ldexp(1.0, k)
    decreases k - j
  {
    LdexpOnePositive(j);
    if j < k {
      LdexpOneMonotone(j, k - 1);
      LdexpOnePositive(k - 1);
      assert Ldexp(1.0, k) == 2.0 * Ldexp(1.0, k - 1);
    }
  }

  lemma {:induction false} LdexpOnePositive(k: int)
    ensures Ldexp(1.0, k) > 0.0
    decreases if k < 0 then -k else k
  {
    if k > 0 {
      LdexpOnePositive(k - 1);
    } else if k < 0 {
      LdexpOnePositive(k + 1);
    }
  }

  /** A normal number lies in the binade its exponent names; a subnormal one lies below the
      first binade. */
  lemma Binade(f: Format, m: nat)
    requires f.Valid()
    ensures var e := Exponent(f, m) - f.MaxExp() + 1;
      if Exponent(f, m) > 0 then Ldexp(1.0, e) <= AbsValue(f, m) < Ldexp(1.0, e + 1)
      else 0.0 <= AbsValue(f, m) < Ldexp(1.0, e + 1)
    ensures m > 0 ==> AbsValue(f, m) > 0.0
  {
    var p := f.mantDig - 1;
    var e := Exponent(f, m) - f.MaxExp() + 1;
    var s := Significand(f, m);
    assert AbsValue(f, 0) == 0.0 by {
      assert Units(f, 0) == 0 by {
        DivModUnique(0, Pow2(p), 0, 0);
      }
      LdexpZero(3 - f.MaxExp() - f.mantDig);
      AbsValueIsUnits(f, 0);
    }
    if m > 0 {
      AbsValueIncreasing(f, 0, m);
    }
    if Exponent(f, m) > 0 {
      LdexpPow2(p, e - p);
      LdexpPow2(p + 1, e - p);
      if s > Pow2(p) {
        LdexpStrict(Pow2(p) as real, s as real, e - p);
      }
      LdexpStrict(s as real, Pow2(p + 1) as real, e - p);
    } else {
      LdexpPow2(p, e + 1 - p);
      LdexpStrict(s as real, Pow2(p) as real, e + 1 - p);
    }
  }

  lemma {:induction false} LdexpZero(k: int)
    ensures Ldexp(0.0, k) == 0.0
    decreases if k < 0 then -k else k
  {
    if k > 0 {
      LdexpZero(k - 1);
    } else if k < 0 {
      LdexpZero(k + 1);
    }
  }

  lemma LdexpConstants()
    ensures Ldexp(1.0, 16) == 65536.0
    ensures Ldexp(1.0, -25) == 1.0 / 33554432.0
  {
    LdexpNat(1, 16);
    HalfFormat();
    LdexpDown24(1.0);
    LdexpAdd(1.0, -24, -1);
  }

  // ---------------------------------------------------------------- comparisons

  /** Scaling up by `2^k` turns comparisons with integers into comparisons between integers. */
  lemma CompareScaled(u: real, k: nat, n: nat, c: nat)
    requires Ldexp(u, k) == n as real
    ensures c as real < u <==> c * Pow2(k) < n
    ensures c as real == u <==> c * Pow2(k) == n
  {
    LdexpNat(c, k);
    if c as real < u {
      LdexpStrict(c as real, u, k);
    } else if u < c as real {
      LdexpStrict(u, c as real, k);
    }
  }

  lemma LdexpDouble(x: real, k: nat)
    ensures Ldexp(2.0 * x, k) == 2.0 * Ldexp(x, k)
  {
    assert Ldexp(x, 1) == 2.0 * x;
    LdexpAdd(x, 1, k);
    assert Ldexp(x, 1 + k) == 2.0 * Ldexp(x, k);
  }

  /** Where the number `(k * d + r) * g` lies between `k` and `k + 1` steps of `g * d`. */
  lemma RemainderPosition(k: nat, d: nat, r: nat, g: nat)
    requires d > 0 && g > 0 && r < d
    ensures (k * g) * d <= (k * d + r) * g < (k * g + g) * d
    ensures (k * g) * d == (k * d + r) * g <==> r == 0
    ensures (2 * (k * g) + g) * d < 2 * ((k * d + r) * g) <==> d < 2 * r
    ensures (2 * (k * g) + g) * d == 2 * ((k * d + r) * g) <==> d == 2 * r
  {
    var p := k * g * d;
    assert (k * g) * d == p;
    assert (k * d + r) * g == p + r * g by {
      assert (k * d + r) * g == (k * d) * g + r * g;
      assert (k * d) * g == p;
    }
    assert (k * g + g) * d == p + g * d;
    assert (2 * (k * g) + g) * d == 2 * p + g * d;
    ScaledOrder(r, d, g);
    ScaledOrder(0, r, g);
    ScaledOrder(d, 2 * r, g);
    ScaledOrder(2 * r, d, g);
    assert 2 * (r * g) == (2 * r) * g;
    assert d * g == g * d;
  }

  lemma ScaledOrder(a: int, b: int, c: int)
    requires c > 0
    ensures a < b <==> a * c < b * c
  {
    if a < b {
      MulGe(b, a + 1, c);
    } else {
      MulGe(a, b, c);
    }
  }

  /** A number of `(k * d + r) * g / d` units, with `d` a power of two, lies between `k * g` and `(k + 1) * g`
      units; the remainder `r` decides where. */
  lemma RemainderInUnits(u: real, shift: nat, k: nat, r: nat, g: nat)
    requires shift > 0 && r < Pow2(shift) && g > 0
    requires Ldexp(u, shift) == ((k * Pow2(shift) + r) * g) as real
    ensures (k * g) as real <= u < (k * g + g) as real
    ensures (k * g) as real == u <==> r == 0
    ensures (2 * (k * g) + g) as real < 2.0 * u <==> r > Pow2(shift - 1)
    ensures (2 * (k * g) + g) as real == 2.0 * u <==> r == Pow2(shift - 1)
  {
    var d := Pow2(shift);
    var n := (k * d + r) * g;
    RemainderPosition(k, d, r, g);
    CompareScaled(u, shift, n, k * g);
    CompareScaled(u, shift, n, k * g + g);
    LdexpDouble(u, shift);
    CompareScaled(2.0 * u, shift, 2 * n, 2 * (k * g) + g);
  }

  /** The rungs around such a number, and what the remainder says about it. */
  lemma RemainderDecides(a: real, lo: nat, shift: nat, k: nat, r: nat)
    requires shift > 0 && r < Pow2(shift) && lo < HALF_INFINITY
    requires Significand(HALF, lo) == k
    requires Ldexp(a * 16777216.0, shift) == ((k * Pow2(shift) + r) * Ulp(HALF, lo)) as real
    ensures IsFloor(a, lo)
    ensures a == Level(lo) <==> r == 0
    ensures Level(lo) + Level(lo + 1) < 2.0 * a <==> r > Pow2(shift - 1)
    ensures Level(lo) + Level(lo + 1) == 2.0 * a <==> r == Pow2(shift - 1)
  {
    RemainderInUnits(a * 16777216.0, shift, k, r, Ulp(HALF, lo));
    RungUnits(lo);
  }

  lemma RungUnits(lo: nat)
    ensures Level(lo) == ((Significand(HALF, lo) * Ulp(HALF, lo)) as real) / 16777216.0
    ensures Level(lo + 1) == ((Significand(HALF, lo) * Ulp(HALF, lo) + Ulp(HALF, lo)) as real) / 16777216.0
  {
    LevelIsUnits(lo);
    LevelIsUnits(lo + 1);
    UnitsStep(HALF, lo);
  }
}
