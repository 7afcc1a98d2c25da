/** Powers of two, and C's shift and bitwise operators read over natural numbers.

    The conversions in cl_half.h work on unsigned words.  A word of `w` bits is modelled as
    a natural number below `Pow2(w)`; every operator that can lose bits in C loses the same
    bits here, and a shift demands the shift amount C demands. */
module Bits {

  function Pow2(k: nat): (r: nat)
    ensures r > 0
  {
    if k == 0 then 1 else 2 * Pow2(k - 1)
  }

  /** The value of the integer `x` once stored in an unsigned word of `w` bits. */
  function Wrap(w: nat, x: int): (r: nat) {
    x % Pow2(w)
  }

  /** The two's complement reading of a word of `w` bits. */
  function Signed(w: nat, x: nat): int
    requires w > 0
  {
    if x < Pow2(w - 1) then x else x - Pow2(w)
  }

  /** Conversion to `uint16_t`. */
  function U16(x: int): (r: nat) {
    x % 0x10000
  }

  /** `a << k` in a word of `w` bits; a shift by the word's width or more is undefined in C. */
  function Shl(w: nat, a: nat, k: nat): nat
    requires k < w
  {
    a * Pow2(k) % Pow2(w)
  }

  /** `a >> k` in a word of `w` bits. */
  function Shr(w: nat, a: nat, k: nat): nat
    requires k < w
  {
    DivNonNegative(a, Pow2(k));
    a / Pow2(k)
  }

  /** `a & b` */
  function And(a: nat, b: nat): nat {
    if a == 0 || b == 0 then 0
    else 2 * And(a / 2, b / 2) + (if a % 2 == 1 && b % 2 == 1 then 1 else 0)
  }

  /** `a | b` */
  function Or(a: nat, b: nat): nat {
    if a == 0 then b
    else if b == 0 then a
    else 2 * Or(a / 2, b / 2) + (if a % 2 == 1 || b % 2 == 1 then 1 else 0)
  }

  // ---------------------------------------------------------------- powers of two

  lemma {:induction false} Pow2Add(a: nat, b: nat)
    ensures Pow2(a + b) == Pow2(a) * Pow2(b)
  {
    if a > 0 {
      Pow2Add(a - 1, b);
      assert Pow2(a + b) == 2 * Pow2(a - 1 + b);
    }
  }

  lemma {:induction false} Pow2Monotone(a: nat, b: nat)
    requires a <= b
    ensures Pow2(a) <= Pow2(b)
    ensures a < b ==> 2 * Pow2(a) <= Pow2(b)
  {
    if a < b {
      Pow2Monotone(a, b - 1);
    }
  }

  // ---------------------------------------------------------------- division

  /** Quotient and remainder are determined by the equation they satisfy. */
  lemma DivModUnique(n: int, d: int, q: int, r: int)
    requires d > 0 && 0 <= r < d && n == q * d + r
    ensures n / d == q && n % d == r
  {
    var q', r' := n / d, n % d;
    assert n == q' * d + r';
    assert (q - q') * d == r' - r;
    if q - q' >= 1 {
      MulGe(q - q', 1, d);
    } else if q - q' <= -1 {
      MulGe(-1, q - q', d);
    }
  }

  lemma DivNonNegative(n: nat, d: int)
    requires d > 0
    ensures 0 <= n / d <= n
  {
    var q := n / d;
    assert n == q * d + n % d;
    if q < 0 {
      MulGe(-1, q, d);
    } else {
      MulGe(d, 1, q);
    }
  }

  lemma ModByOne(n: int)
    ensures n % 1 == 0
  {
    DivModUnique(n, 1, n, 0);
  }

  lemma ModSmall(n: int, d: int)
    requires 0 <= n < d
    ensures n % d == n
  {
    DivModUnique(n, d, 0, n);
  }

  lemma MulGe(a: int, b: int, c: int)
    requires a >= b && c >= 0
    ensures a * c >= b * c
  {
  }

  /** Splitting off the lowest bit commutes with taking the low `k` bits. */
  lemma ModSplit(a: nat, k: nat)
    requires k > 0
    ensures a % Pow2(k) == 2 * (a / 2 % Pow2(k - 1)) + a % 2
  {
    var p := Pow2(k - 1);
    var q, r := a / 2 / p, a / 2 % p;
    assert a / 2 == q * p + r;
    assert a == q * (2 * p) + (2 * r + a % 2) by {
      assert 2 * (q * p) == q * (2 * p);
    }
    DivModUnique(a, Pow2(k), q, 2 * r + a % 2);
  }

  // ---------------------------------------------------------------- masks

  /** Masking with `2^k - 1` keeps the low `k` bits. */
  lemma {:induction false} AndMask(a: nat, k: nat)
    ensures And(a, Pow2(k) - 1) == a % Pow2(k)
  {
    if k == 0 {
      ModByOne(a);
    } else if a == 0 {
      ModSmall(a, Pow2(k));
    } else {
      var m := Pow2(k) - 1;
      assert m / 2 == Pow2(k - 1) - 1 && m % 2 == 1;
      AndMask(a / 2, k - 1);
      ModSplit(a, k);
    }
  }

  /** Masking a `k + 1` bit number with its top bit tests that bit. */
  lemma {:induction false} AndTopBit(a: nat, k: nat)
    requires a < Pow2(k + 1)
    ensures And(a, Pow2(k)) == if a < Pow2(k) then 0 else Pow2(k)
  {
    if k == 0 {
      assert a == 0 || a == 1;
    } else if a > 0 {
      assert Pow2(k) / 2 == Pow2(k - 1) && Pow2(k) % 2 == 0;
      AndTopBit(a / 2, k - 1);
    }
  }

  /** Fields that do not overlap are packed by `|` as if by addition. */
  lemma {:induction false} OrDisjoint(a: nat, b: nat, k: nat)
    requires a % Pow2(k) == 0 && b < Pow2(k)
    ensures Or(a, b) == a + b
  {
    if a != 0 && b != 0 {
      assert k > 0;
      ModSplit(a, k);
      OrDisjoint(a / 2, b / 2, k - 1);
    }
  }

  /** Setting the top bit of a `k + 1` bit number. */
  lemma {:induction false} OrTopBit(a: nat, k: nat)
    requires a < Pow2(k + 1)
    ensures Or(a, Pow2(k)) == if a < Pow2(k) then a + Pow2(k) else a
  {
    if k == 0 {
      assert a == 0 || a == 1;
    } else if a > 0 {
      assert Pow2(k) / 2 == Pow2(k - 1) && Pow2(k) % 2 == 0;
      OrTopBit(a / 2, k - 1);
    }
  }

  /** A shift left that fits its word multiplies. */
  lemma ShlFits(w: nat, a: nat, k: nat)
    requires k < w && a * Pow2(k) < Pow2(w)
    ensures Shl(w, a, k) == a * Pow2(k)
  {
    ModSmall(a * Pow2(k), Pow2(w));
  }

  /** A conversion to `uint16_t` that loses nothing. */
  lemma U16Fits(x: nat)
    requires x < 0x10000
    ensures U16(x) == x
  {
    ModSmall(x, 0x10000);
  }
}
