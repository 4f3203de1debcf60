/**
  Single-precision floats by their 32 bits: their values, and what their subtraction gives.
 */
module Floats {

  /** A number that a difference of type float holds, in some unit, or NaN. */
  datatype Difference = Number(n: int) | NaN

  function Exponent(u: nat): nat { u / 0x80_0000 % 0x100 }

  function Fraction(u: nat): nat { u % 0x80_0000 }

  predicate IsNaN(u: nat) { Exponent(u) == 0xFF && Fraction(u) != 0 }

  predicate IsInfinite(u: nat) { Exponent(u) == 0xFF && Fraction(u) == 0 }

  /** Two infinities of one sign. */
  predicate SameInfinity(u: nat, v: nat) { IsInfinite(u) && u == v }

  function Pow2(n: nat): (p: nat)
    ensures p >= 1
  {
    if n == 0 then 1 else 2 * Pow2(n - 1)
  }

  /** The size of a value in units of the smallest float: a subnormal counts the units, else there is one bit
      more and a power of 2.  An infinity is as if the exponents went on. */
  function Magnitude(u: nat): nat {
    if Exponent(u) == 0 then Fraction(u) else (0x80_0000 + Fraction(u)) * Pow2(Exponent(u) - 1)
  }

  /** The value of a float that is not NaN. */
  function Units(u: nat): int {
    if u < 0x8000_0000 then Magnitude(u) else 0 - Magnitude(u)
  }

  lemma {:induction false} Pow2Grows(m: nat, n: nat)
    requires m <= n
    ensures Pow2(m) <= Pow2(n)
    decreases n
  {
    if m < n {
      Pow2Grows(m, n - 1);
    }
  }

  lemma {:induction false} Scaled(a: nat, b: nat, p: nat)
    requires p >= 1
    ensures (a < b ==> a * p < b * p) && (a <= b ==> a * p <= b * p)
  {
    if a < b {
      assert (b - a) * p >= p by {
        assert (b - a - 1) * p >= 0;
      }
    }
  }

  /** Magnitudes are ordered as the bits without the sign: a float of every larger pattern is larger, and the
      infinity is above all finite ones. */
  lemma {:induction false} BitsOrder(u: nat, v: nat)
    requires u < v < 0x8000_0000
    ensures Magnitude(u) < Magnitude(v)
  {
    var e, f := Exponent(u), Exponent(v);
    assert e == u / 0x80_0000 && f == v / 0x80_0000;
    if e == f {
      assert Fraction(u) < Fraction(v);
      if e > 0 {
        Scaled(0x80_0000 + Fraction(u), 0x80_0000 + Fraction(v), Pow2(e - 1));
      }
    } else {
      BelowNext(u);
      Pow2Grows(e, f - 1);
      Scaled(0, Fraction(v), Pow2(f - 1));
      assert (0x80_0000 + Fraction(v)) * Pow2(f - 1) == 0x80_0000 * Pow2(f - 1) + Fraction(v) * Pow2(f - 1);
    }
  }

  lemma {:induction false} BelowNext(u: nat)
    ensures Magnitude(u) < 0x80_0000 * Pow2(Exponent(u))
  {
    var e := Exponent(u);
    if e > 0 {
      Scaled(0x80_0000 + Fraction(u), 0x100_0000, Pow2(e - 1));
    }
  }

  /** From one exponent to the next the values double. */
  lemma {:induction false} Doubles(u: nat)
    requires u < 0x8000_0000 && 1 <= u / 0x80_0000 < 0xFE
    ensures Magnitude(u + 0x80_0000) == 2 * Magnitude(u)
  {
    var e, m := Exponent(u), 0x80_0000 + Fraction(u);
    assert Exponent(u + 0x80_0000) == e + 1 && Fraction(u + 0x80_0000) == Fraction(u);
    TimesTwo(m, Pow2(e - 1));
  }

  lemma {:induction false} TimesTwo(m: int, p: int)
    ensures m * (2 * p) == 2 * (m * p) == 2 * m * p
  {}

  lemma {:induction false} SignBit(u: nat)
    requires u < 0x1_0000_0000
    ensures Units(u) == if u < 0x8000_0000 then Magnitude(u) else 0 - Magnitude(u - 0x8000_0000)
    ensures var a := if u < 0x8000_0000 then u else u - 0x8000_0000;
      a < 0x8000_0000 && (Magnitude(a) == 0 <==> a == 0)
  {
    var a := if u < 0x8000_0000 then u else u - 0x8000_0000;
    SameFields(a);
    assert Magnitude(0) == 0;
    if a > 0 {
      BitsOrder(0, a);
    }
  }

  lemma {:induction false} SameFields(a: nat)
    requires a < 0x8000_0000
    ensures Exponent(a + 0x8000_0000) == Exponent(a) == a / 0x80_0000 && Fraction(a + 0x8000_0000) == Fraction(a)
  {}

  /** Of two floats without their signs the one with the larger bits has the larger value. */
  lemma {:induction false} BitsDecide(a: nat, b: nat)
    requires a < 0x8000_0000 && b < 0x8000_0000
    ensures (Magnitude(a) < Magnitude(b) <==> a < b) && (Magnitude(a) == Magnitude(b) <==> a == b)
  {
    if a < b {
      BitsOrder(a, b);
    }
    if b < a {
      BitsOrder(b, a);
    }
  }

  /** By their bits: a float with the sign is below one without, but for the two zeros; without the sign the larger
      pattern is above, with the sign it is below. */
  lemma {:induction false} UnitsOrder(u: nat, v: nat)
    requires u < 0x1_0000_0000 && v < 0x1_0000_0000
    ensures Units(u) < Units(v) <==>
      if u < 0x8000_0000 && v < 0x8000_0000 then u < v
      else if u >= 0x8000_0000 && v >= 0x8000_0000 then v < u
      else u >= 0x8000_0000 && (u != 0x8000_0000 || v != 0)
    ensures Units(u) == Units(v) <==> u == v || (u in {0, 0x8000_0000} && v in {0, 0x8000_0000})
  {
    SignBit(u);
    SignBit(v);
    BitsDecide(if u < 0x8000_0000 then u else u - 0x8000_0000, if v < 0x8000_0000 then v else v - 0x8000_0000);
  }

  lemma {:induction false} NaNBits(u: nat)
    requires u < 0x1_0000_0000
    ensures IsNaN(u) <==> u % 0x8000_0000 > 0x7F80_0000
    ensures IsInfinite(u) <==> u % 0x8000_0000 == 0x7F80_0000
  {
    var a := u % 0x8000_0000;
    SameFields(a);
    assert u == a || u == a + 0x8000_0000;
  }

  // ---- Rounding ----

  /** m / ulp, rounded to the nearest integer, and to the even one of two. */
  function HalfEven(m: nat, ulp: nat): (q: nat)
    requires ulp >= 1
    ensures m / ulp <= q <= m / ulp + 1
  {
    var q, r := m / ulp, m % ulp;
    if 2 * r > ulp || (2 * r == ulp && q % 2 == 1) then q + 1 else q
  }

  /** m rounded to 24 significant bits, of which the last is worth at least ulp. */
  function Nearest(m: nat, ulp: nat): nat
    requires ulp >= 1
    decreases m - 0x100_0000 * ulp
  {
    if m < 0x100_0000 * ulp then HalfEven(m, ulp) * ulp else Nearest(m, 2 * ulp)
  }

  /** A number as a float holds it.  Numbers too large for a float are infinities of the same sign. */
  function Rounded(n: int): int {
    if n < 0 then 0 - Nearest(0 - n, 1) else Nearest(n, 1)
  }

  predicate SameSign(x: int, y: int) {
    (x < 0 <==> y < 0) && (x == 0 <==> y == 0)
  }

  lemma {:induction false} NearestPositive(m: nat, ulp: nat)
    requires m >= 1 && ulp >= 1 && (ulp == 1 || m >= 0x80_0000 * ulp)
    ensures Nearest(m, ulp) >= 1
    decreases m - 0x100_0000 * ulp
  {
    if m < 0x100_0000 * ulp {
      QuotientPositive(m, ulp);
      Scaled(1, HalfEven(m, ulp), ulp);
    } else {
      NearestPositive(m, 2 * ulp);
    }
  }

  lemma {:induction false} QuotientPositive(m: nat, ulp: nat)
    requires 1 <= ulp <= m
    ensures m / ulp >= 1
  {}

  /** Rounding does not lose the sign of a number, nor make it 0. */
  lemma {:induction false} RoundedSign(n: int)
    ensures SameSign(Rounded(n), n)
  {
    if n != 0 {
      NearestPositive(if n < 0 then -n else n, 1);
    }
  }

  /** u - v in float arithmetic: the difference of the values, rounded; but infinities of one sign have none. */
  function Minus(u: nat, v: nat): Difference {
    if IsNaN(u) || IsNaN(v) || SameInfinity(u, v) then NaN else Number(Rounded(Units(u) - Units(v)))
  }
}
