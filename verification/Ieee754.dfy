/** Binary interchange formats: what a bit pattern denotes (section 3.4 of IEEE 754-2008). */
module Ieee754 {
  import opened Bits

  /** A format with `mantDig` significand digits, the implicit one included, and an exponent
      field of `expBits` bits. */
  datatype Format = Format(mantDig: nat, expBits: nat) {
    predicate Valid() {
      mantDig >= 2 && expBits >= 2
    }

    function Width(): nat {
      mantDig + expBits
    }

    /** The constant C calls MAX_EXP; the exponent bias is one less. */
    function MaxExp(): nat
      requires Valid()
    {
      Pow2(expBits - 1)
    }

    /** Is `b` a bit pattern of this format? */
    predicate Holds(b: nat) {
      b < Pow2(Width())
    }

    /** The pattern of infinity without its sign bit. */
    function Infinity(): nat
      requires Valid()
    {
      (Pow2(expBits) - 1) * Pow2(mantDig - 1)
    }
  }

  const HALF := Format(11, 5)
  const FLOAT := Format(24, 8)
  const DOUBLE := Format(53, 11)

  // ---------------------------------------------------------------- fields

  function Sign(f: Format, b: nat): (s: nat)
    requires f.Valid()
  {
    DivNonNegative(b, Pow2(f.Width() - 1));
    b / Pow2(f.Width() - 1)
  }

  /** The pattern without its sign bit: exponent field above trailing significand field. */
  function Mag(f: Format, b: nat): (m: nat)
    requires f.Valid()
  {
    b % Pow2(f.Width() - 1)
  }

  function Exponent(f: Format, m: nat): nat
    requires f.Valid()
  {
    DivNonNegative(m, Pow2(f.mantDig - 1));
    m / Pow2(f.mantDig - 1)
  }

  function Fraction(f: Format, m: nat): nat
    requires f.Valid()
  {
    m % Pow2(f.mantDig - 1)
  }

  predicate IsNaN(f: Format, b: nat)
    requires f.Valid()
  {
    Mag(f, b) > f.Infinity()
  }

  predicate IsInfinite(f: Format, b: nat)
    requires f.Valid()
  {
    Mag(f, b) == f.Infinity()
  }

  predicate IsFinite(f: Format, b: nat)
    requires f.Valid()
  {
    Mag(f, b) < f.Infinity()
  }

  // ---------------------------------------------------------------- values

  function Max(a: nat, b: nat): nat {
    if a < b then b else a
  }

  /** The integer significand; the implicit one is absent from subnormal numbers. */
  function Significand(f: Format, m: nat): nat
    requires f.Valid()
  {
    if Exponent(f, m) == 0 then Fraction(f, m) else Pow2(f.mantDig - 1) + Fraction(f, m)
  }

  /** `x` times two to the power `k`. */
  ghost function Ldexp(x: real, k: int): real
    decreases if k < 0 then -k else k
  {
    if k == 0 then x else if k > 0 then 2.0 * Ldexp(x, k - 1) else Ldexp(x, k + 1) / 2.0
  }

  /** The absolute value denoted by the unsigned pattern `m`. */
  ghost function AbsValue(f: Format, m: nat): real
    requires f.Valid()
  {
    var bias := f.MaxExp() - 1;
    Ldexp(Significand(f, m) as real, Max(Exponent(f, m), 1) - bias - (f.mantDig - 1))
  }

  ghost function Value(f: Format, b: nat): real
    requires f.Valid()
  {
    if Sign(f, b) == 0 then AbsValue(f, Mag(f, b)) else -AbsValue(f, Mag(f, b))
  }

  /** A real number or one of the two infinities. */
  datatype Extended = NegInf | Fin(v: real) | PosInf {
    predicate Le(that: Extended) {
      || this == NegInf
      || that == PosInf
      || (this.Fin? && that.Fin? && this.v <= that.v)
    }
  }

  /** What a pattern that is not a NaN denotes. */
  ghost function Denotes(f: Format, b: nat): Extended
    requires f.Valid()
  {
    if IsInfinite(f, b) then (if Sign(f, b) == 0 then PosInf else NegInf)
    else Fin(Value(f, b))
  }

  // ---------------------------------------------------------------- units

  /** The weight of the last place of `m`, in multiples of the least subnormal number. */
  function Ulp(f: Format, m: nat): nat
    requires f.Valid()
  {
    Pow2(Max(Exponent(f, m), 1) - 1)
  }

  /** The absolute value of `m` in multiples of the least subnormal number.  On the pattern of
      infinity this gives the number that the next binade would start with. */
  function Units(f: Format, m: nat): nat
    requires f.Valid()
  {
    Significand(f, m) * Ulp(f, m)
  }

  /** Adding one to the pattern adds one unit in the last place: within a binade, from the
      subnormal numbers to the normal ones, and from one binade to the next. */
  lemma UnitsStep(f: Format, m: nat)
    requires f.Valid()
    ensures Units(f, m + 1) == Units(f, m) + Ulp(f, m)
  {
    var p := Pow2(f.mantDig - 1);
    var e, t := Exponent(f, m), Fraction(f, m);
    if t + 1 < p {
      DivModUnique(m + 1, p, e, t + 1);
      Distribute(Significand(f, m), 1, Ulp(f, m));
    } else {
      CarryIntoExponent(m, p, e, t);
      BinadeStep(p, Ulp(f, m));
    }
  }

  lemma CarryIntoExponent(m: nat, p: nat, e: nat, t: nat)
    requires p > 0 && m == e * p + t && t == p - 1
    ensures (m + 1) / p == e + 1 && (m + 1) % p == 0
  {
    Distribute(e, 1, p);
    DivModUnique(m + 1, p, e + 1, 0);
  }

  /** The last number of a binade is one unit below the first of the next. */
  lemma BinadeStep(p: nat, u: nat)
    ensures p * (2 * u) == (2 * p - 1) * u + u
    ensures p * u == (p - 1) * u + u
  {
  }

  lemma Distribute(a: int, b: int, c: int)
    ensures (a + b) * c == a * c + b * c
  {
  }

  /** Patterns are ordered as the numbers they denote. */
  lemma {:induction false} UnitsIncreasing(f: Format, m: nat, n: nat)
    requires f.Valid() && m < n
    ensures Units(f, m) < Units(f, n)
    decreases n
  {
    UnitsStep(f, n - 1);
    if m < n - 1 {
      UnitsIncreasing(f, m, n - 1);
    }
  }

  // ---------------------------------------------------------------- scaling by powers of two

  lemma {:induction false} LdexpAdd(x: real, a: int, b: int)
    ensures Ldexp(Ldexp(x, a), b) == Ldexp(x, a + b)
    decreases if b < 0 then -b else b
  {
    if b > 0 {
      LdexpAdd(x, a, b - 1);
    } else if b < 0 {
      LdexpAdd(x, a, b + 1);
    }
  }

  lemma {:induction false} LdexpNat(n: nat, k: nat)
    ensures Ldexp(n as real, k) == (n * Pow2(k)) as real
  {
    if k > 0 {
      LdexpNat(n, k - 1);
      assert n * Pow2(k) == 2 * (n * Pow2(k - 1));
    }
  }

  lemma {:induction false} LdexpStrict(x: real, y: real, k: int)
    requires x < y
    ensures Ldexp(x, k) < Ldexp(y, k)
    decreases if k < 0 then -k else k
  {
    if k > 0 {
      LdexpStrict(x, y, k - 1);
    } else if k < 0 {
      LdexpStrict(x, y, k + 1);
    }
  }

  lemma AbsValueIsUnits(f: Format, m: nat)
    requires f.Valid()
    ensures AbsValue(f, m) == Ldexp(Units(f, m) as real, 3 - f.MaxExp() - f.mantDig)
  {
    var e := Max(Exponent(f, m), 1) - 1;
    LdexpNat(Significand(f, m), e);
    LdexpAdd(Significand(f, m) as real, e, 3 - f.MaxExp() - f.mantDig);
  }

  /** Patterns are ordered as the absolute values they denote. */
  lemma AbsValueIncreasing(f: Format, m: nat, n: nat)
    requires f.Valid() && m < n
    ensures AbsValue(f, m) < AbsValue(f, n)
  {
    UnitsIncreasing(f, m, n);
    AbsValueIsUnits(f, m);
    AbsValueIsUnits(f, n);
    LdexpStrict(Units(f, m) as real, Units(f, n) as real, 3 - f.MaxExp() - f.mantDig);
  }
}
