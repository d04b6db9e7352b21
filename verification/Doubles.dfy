/** IEEE 754 doubles by their bits, as far as the conversion through `uint64_t` in the AMF reader needs. */
module Doubles {
  import opened Arithmetic
  import opened Bytes
  import opened Wrappers

  const TWO52 := 0x10_0000_0000_0000
  const TWO63 := 0x8000_0000_0000_0000

  function Pow2(k: nat): (p: nat)
    ensures p > 0
  {
    if k == 0 then 1 else 2 * Pow2(k - 1)
  }

  function Exponent(bits: uint64): (e: nat)
    ensures e < 2048
  {
    bits / TWO52 % 2048
  }

  function Mantissa(bits: uint64): (m: nat)
    ensures m < TWO52
  {
    bits % TWO52
  }

  predicate Negative(bits: uint64) {
    bits >= TWO63
  }

  /** The magnitude of a finite double as a multiple of 2^-1074, the smallest there is. */
  function Scaled(bits: uint64): nat {
    if Exponent(bits) == 0 then Mantissa(bits) else (TWO52 + Mantissa(bits)) * Pow2(Exponent(bits) - 1)
  }

  /** The scaled value of one. */
  function One(): (n: nat)
    ensures n > 0
  {
    Pow2(1074)
  }

  /** A non-negative whole number below 2^64. */
  predicate Whole(bits: uint64) {
    !Negative(bits) && Exponent(bits) < 1087 && Scaled(bits) % One() == 0
  }

  /** The low bits of the mantissa, which stand for the fraction of the number. */
  function Fraction(bits: uint64): (f: nat)
    requires 1023 <= Exponent(bits) < 1075
    ensures f <= Mantissa(bits) <= bits
  {
    ModAtMost(Mantissa(bits), Pow2(1075 - Exponent(bits)));
    ModAtMost(bits, TWO52);
    Mantissa(bits) % Pow2(1075 - Exponent(bits))
  }

  /**
    `(double)(uint64_t)value`, which is what `ReadUint64T` and the assignment to a double make of the
    value sent: the fraction is cut off. Outside the range of `uint64_t` the conversion is undefined.
   */
  function Recode(bits: uint64): Option<uint64> {
    var e := Exponent(bits);
    if e < 1023 then Some(0)
    else if Negative(bits) || e >= 1087 then None
    else if e >= 1075 then Some(bits)
    else Some(bits - Fraction(bits))
  }

  lemma {:induction false} PowSum(a: nat, b: nat)
    ensures Pow2(a + b) == Pow2(a) * Pow2(b)
  {
    if a > 0 {
      PowSum(a - 1, b);
      MulAssoc(2, Pow2(a - 1), Pow2(b));
    }
  }

  lemma {:induction false} PowMonotone(a: nat, b: nat)
    requires a <= b
    ensures Pow2(a) <= Pow2(b)
  {
    if a < b {
      PowMonotone(a, b - 1);
    }
  }

  lemma SmallPowers()
    ensures Pow2(0) == 1 && Pow2(1) == 2 && Pow2(52) == TWO52 && Pow2(53) == 2 * TWO52
  {
    assert Pow2(13) == 0x2000;
    PowSum(13, 13);
    PowSum(26, 26);
    PowSum(1, 52);
  }

  /** For numbers of at least one, the fraction is what the scaled value has beyond a whole number. */
  lemma FractionIs(bits: uint64)
    requires 1023 <= Exponent(bits) < 1075
    ensures Scaled(bits) % One() == Fraction(bits) * Pow2(Exponent(bits) - 1)
  {
    var e, m := Exponent(bits), Mantissa(bits);
    var n, p, k := Pow2(1075 - e), Pow2(e - 1), Pow2(e - 1023);
    assert Scaled(bits) == (TWO52 + m) * p && Fraction(bits) == m % n;
    hide Pow2, Exponent, Mantissa, Scaled, Fraction;
    SmallPowers();
    PowSum(1075 - e, e - 1);
    PowSum(1075 - e, e - 1023);
    ModScale(TWO52 + m, n, p);
    ModShift(m, n, k);
  }

  lemma BelowOne(bits: uint64)
    requires Exponent(bits) < 1023
    ensures Scaled(bits) < One()
  {
    var e, m := Exponent(bits), Mantissa(bits);
    assert e > 0 ==> Scaled(bits) == (TWO52 + m) * Pow2(e - 1);
    assert e == 0 ==> Scaled(bits) == m;
    hide Pow2, Exponent, Mantissa, Scaled;
    SmallPowers();
    PowMonotone(52 + e, 1074);
    PowMonotone(52, 1074);
    if e > 0 {
      PowSum(53, e - 1);
      MulLess(TWO52 + m, 2 * TWO52, Pow2(e - 1));
    }
  }

  lemma FarAboveOne(bits: uint64)
    requires Exponent(bits) >= 1075
    ensures Scaled(bits) % One() == 0
  {
    var e, a := Exponent(bits), TWO52 + Mantissa(bits);
    assert Scaled(bits) == a * Pow2(e - 1);
    hide Pow2, Exponent, Mantissa, Scaled;
    PowSum(e - 1075, 1074);
    MulAssoc(a, Pow2(e - 1075), Pow2(1074));
    Remainder(Scaled(bits), Pow2(1074), a * Pow2(e - 1075), 0);
  }

  lemma ZeroIs(bits: uint64)
    ensures !Negative(bits) && Scaled(bits) == 0 <==> bits == 0
  {
    hide Pow2;
    if !Negative(bits) {
      assert bits / TWO52 < 2048;
    }
  }

  /** Cutting the fraction off changes nothing else, and leaves a whole number. */
  lemma CutOff(bits: uint64)
    requires 1023 <= Exponent(bits) < 1075
    ensures
      var b := bits - Fraction(bits);
      && Scaled(b) == Scaled(bits) - Scaled(bits) % One() && Scaled(b) % One() == 0
      && Exponent(b) == Exponent(bits) && (Negative(b) <==> Negative(bits))
  {
    var e, m, f, p := Exponent(bits), Mantissa(bits), Fraction(bits), Pow2(Exponent(bits) - 1);
    SameExponent(bits, f);
    assert Scaled(bits) == (TWO52 + m) * p && Scaled(bits - f) == (TWO52 + m - f) * p;
    hide Pow2, Exponent, Mantissa, Scaled, Fraction, One;
    FractionIs(bits);
    MulMinus(TWO52 + m, f, p);
    ModDrop(Scaled(bits), One());
  }

  lemma SameExponent(bits: uint64, f: nat)
    requires f <= Mantissa(bits)
    ensures f <= bits && Exponent(bits - f) == Exponent(bits) && Mantissa(bits - f) == Mantissa(bits) - f
    ensures Negative(bits - f) <==> Negative(bits)
  {
    var h, m := bits / TWO52, Mantissa(bits);
    assert bits == TWO52 * h + m;
    OneQuotient(TWO52, h, m - f, (bits - f) / TWO52, (bits - f) % TWO52);
  }

  /** The conversion cuts the number off towards zero, and the result is whole. */
  lemma RecodeTruncates(bits: uint64)
    requires Recode(bits).Some?
    ensures
      var b := Recode(bits).value;
      Whole(b) && Scaled(b) == Scaled(bits) - Scaled(bits) % One()
  {
    ZeroIs(0);
    assert Exponent(0) == 0;
    hide Pow2, Exponent, Mantissa, Scaled, Fraction, One;
    if Exponent(bits) < 1023 {
      BelowOne(bits);
      Remainder(Scaled(bits), One(), 0, Scaled(bits));
      Remainder(0, One(), 0, 0);
    } else if Exponent(bits) >= 1075 {
      FarAboveOne(bits);
    } else {
      CutOff(bits);
    }
  }

  /** A number arrives as it was sent if and only if it is whole, not negative and below 2^64. */
  lemma NumberSurvivesIff(bits: uint64)
    ensures Recode(bits) == Some(bits) <==> Whole(bits)
  {
    hide Pow2, Exponent, Mantissa, Scaled, Fraction, One;
    if Recode(bits) == Some(bits) {
      RecodeTruncates(bits);
    } else if Whole(bits) {
      if Exponent(bits) < 1023 {
        BelowOne(bits);
        Remainder(Scaled(bits), One(), 0, Scaled(bits));
        ZeroIs(bits);
      } else {
        FractionIs(bits);
        MulLess(0, Fraction(bits), Pow2(Exponent(bits) - 1));
      }
    }
  }

  // The doubles that the program's integer literals stand for.

  function Log2(n: nat): (k: nat)
    requires n > 0
    ensures Pow2(k) <= n < 2 * Pow2(k)
  {
    if n == 1 then 0 else Log2(n / 2) + 1
  }

  /** The mantissa of `n`, whose leading bit has place `k`. */
  function Shifted(n: nat, k: nat): (m: nat)
    requires n < 2 * TWO52 && Pow2(k) <= n < 2 * Pow2(k)
    ensures k <= 52 && m < TWO52
  {
    ShiftedFits(n, k);
    (n - Pow2(k)) * Pow2(52 - k)
  }

  lemma ShiftedFits(n: nat, k: nat)
    requires n < 2 * TWO52 && Pow2(k) <= n < 2 * Pow2(k)
    ensures k <= 52 && 0 <= (n - Pow2(k)) * Pow2(52 - k) < TWO52
  {
    hide Pow2;
    SmallPowers();
    if k > 52 {
      PowMonotone(53, k);
    }
    PowSum(k, 52 - k);
    MulLess(n - Pow2(k), Pow2(k), Pow2(52 - k));
    MulLess(-1, n - Pow2(k), Pow2(52 - k));
  }

  function Double(n: nat): (bits: uint64)
    requires n < 2 * TWO52
  {
    if n == 0 then 0 else (1023 + Log2(n)) * TWO52 + Shifted(n, Log2(n))
  }

  lemma DoubleParts(n: nat)
    requires 0 < n < 2 * TWO52
    ensures Exponent(Double(n)) == 1023 + Log2(n) && Mantissa(Double(n)) == Shifted(n, Log2(n))
    ensures !Negative(Double(n))
  {
    hide Pow2, Shifted, Log2;
    Quotient(Double(n), TWO52, 1023 + Log2(n), Shifted(n, Log2(n)));
  }

  lemma ScaledParts(n: nat)
    requires 0 < n < 2 * TWO52
    ensures
      var k := Log2(n);
      k <= 52 && Scaled(Double(n)) == (TWO52 + (n - Pow2(k)) * Pow2(52 - k)) * Pow2(1022 + k) && One() == Pow2(1074)
  {
    hide Pow2, Double, Log2, Exponent, Mantissa;
    DoubleParts(n);
  }

  lemma DoubleScaled(n: nat)
    requires 0 < n < 2 * TWO52
    ensures Scaled(Double(n)) == n * One()
  {
    hide Pow2, Double, Log2, Shifted, Exponent, Mantissa, Scaled, One;
    var k := Log2(n);
    ScaledParts(n);
    var a, b, c := Pow2(k), Pow2(52 - k), Pow2(1022 + k);
    SmallPowers();
    PowSum(k, 52 - k);
    PowSum(52 - k, 1022 + k);
    Rescaled(n, a, b, c);
  }

  lemma Rescaled(n: int, a: int, b: int, c: int)
    ensures (a * b + (n - a) * b) * c == n * (b * c)
  {
    MulMinus(n, a, b);
    MulAssoc(n, b, c);
  }

  /** Every integer below 2^53 has a double that denotes exactly it, and that arrives as it was sent. */
  lemma IntegersSurvive(n: nat)
    requires n < 2 * TWO52
    ensures Scaled(Double(n)) == n * One() && Whole(Double(n)) && Recode(Double(n)) == Some(Double(n))
  {
    NumberSurvivesIff(Double(n));
    if n == 0 {
      ZeroIs(0);
      assert Exponent(0) == 0 && Double(0) == 0;
    } else {
      DoubleScaled(n);
      DoubleParts(n);
    }
    hide Pow2, Double, Shifted, Log2, One, Scaled, Exponent, Mantissa, Recode;
    Remainder(n * One(), One(), n, 0);
  }
}
