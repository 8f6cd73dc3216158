/** What becomes of 64-bit floating-point values. The readers put the eight bytes together in an integer and
    convert that integer to double, instead of taking its bits for those of a double. */
module PlyDouble {
  import opened Wrappers
  import opened Arithmetic
  import opened Words
  import opened PlyScalar

  /** Two to the 52. */
  const HIDDEN: nat := 0x10_0000_0000_0000

  /** The integer that is converted. */
  function Pattern(v: Scalar): (q: nat)
    requires v.Wide?
    ensures q < 4096 * HIDDEN
  {
    Value(v.high) * TWO_TO_THE_32 + Value(v.low)
  }

  // ---- what the bits stand for: IEEE 754, section 3.4 ----

  function Negative(q: nat): bool {
    q / HIDDEN >= 2048
  }

  function Exponent(q: nat): nat {
    q / HIDDEN % 2048
  }

  function Fraction(q: nat): nat {
    q % HIDDEN
  }

  /** A number scaled by two to the n. */
  function Scaled(x: nat, n: int): real {
    if n >= 0 then (x * Pow2(n)) as real else x as real / Pow2(-n) as real
  }

  function Magnitude(q: nat): real {
    if Exponent(q) == 0 then Scaled(Fraction(q), -1074) else Scaled(HIDDEN + Fraction(q), Exponent(q) - 1075)
  }

  /** The number a pattern of 64 bits stands for, if it is neither an infinity nor a NaN. */
  function Meaning(q: nat): Option<real> {
    if Exponent(q) == 2047 then None
    else if Negative(q) then Some(-Magnitude(q))
    else Some(Magnitude(q))
  }

  // ---- the conversion of an integer to double ----

  /** The distance between doubles at this number. */
  function Spacing(q: nat): (u: nat)
    ensures u > 0
  {
    if q < 2 * HIDDEN then 1 else 2 * Spacing(q / 2)
  }

  /** To the nearest double, and to the even one halfway. */
  function Converted(q: nat): nat {
    var u := Spacing(q);
    var below := q / u * u;
    if 2 * (q - below) < u || (2 * (q - below) == u && q / u % 2 == 0) then below else below + u
  }

  /** The one pattern besides zero that is converted to the number it stands for. */
  const LUCKY: nat := 0x43D0_F43D_0F43_D0F4

  /** A 64-bit floating-point value of a body reaches the application as the number it stands for if and only
      if its bits are all zero, or one other pattern. */
  lemma ConvertedAsMeant(v: Scalar)
    requires v.Wide?
    ensures var q := Pattern(v); Meaning(q) == Some(Converted(q) as real) <==> q == 0 || q == LUCKY
  {
    hide Pattern, Converted, Magnitude, Negative, Exponent, Fraction;
    var q := Pattern(v);
    var e, m := Exponent(q), Fraction(q);
    Parts(q);
    Near(q);
    if Negative(q) {
      MagnitudeSmall(q);
    } else if e < 1075 {
      MagnitudeSmall(q);
    } else {
      MagnitudeLarge(q);
      if e == 1085 { Closest(q, m); } else { FarOff(m, e - 1075); }
    }
  }

  lemma Parts(q: nat)
    requires q < 4096 * HIDDEN
    ensures q == ((if Negative(q) then 2048 else 0) + Exponent(q)) * HIDDEN + Fraction(q)
    ensures Exponent(q) < 2048 && Fraction(q) < HIDDEN
  {
    DivMod(q, HIDDEN);
  }

  /** Where the exponent makes the number less than two to the 52. */
  lemma MagnitudeSmall(q: nat)
    ensures Magnitude(q) >= 0.0
    ensures Exponent(q) == 0 ==> Magnitude(q) <= Fraction(q) as real / 2.0
    ensures 0 < Exponent(q) < 1075 ==> Magnitude(q) <= (HIDDEN + Fraction(q)) as real / 2.0
  {
    if Exponent(q) == 0 {
      Halved(Fraction(q), -1074);
    } else if Exponent(q) < 1075 {
      Halved(HIDDEN + Fraction(q), Exponent(q) - 1075);
    }
  }

  lemma MagnitudeLarge(q: nat)
    requires Exponent(q) >= 1075
    ensures Magnitude(q) == ((HIDDEN + Fraction(q)) * Pow2(Exponent(q) - 1075)) as real
  {}

  lemma Halved(x: nat, n: int)
    requires n < 0
    ensures 0.0 <= Scaled(x, n) <= x as real / 2.0
  {
    RealHalved(x as real, Pow2(-n) as real);
  }

  lemma RealHalved(x: real, p: real)
    requires x >= 0.0 && p >= 2.0
    ensures 0.0 <= x / p <= x / 2.0
  {
    var y := x / p;
    assert y * p == x && y >= 0.0;
    assert y * 2.0 <= y * p;
  }

  lemma {:induction false} SpacingBound(q: nat, k: nat)
    requires q < 2 * HIDDEN * Pow2(k)
    ensures Spacing(q) <= Pow2(k) && (q >= HIDDEN * Pow2(k) ==> Spacing(q) == Pow2(k))
    decreases k
  {
    if k > 0 && q >= 2 * HIDDEN { SpacingBound(q / 2, k - 1); }
  }

  lemma Powers()
    ensures Pow2(9) == 512 && Pow2(10) == 1024 && Pow2(11) == 2048
  {}

  /** Rounding moves a number by half the spacing at most. */
  lemma Near(q: nat)
    requires q < 4096 * HIDDEN
    ensures q < 2 * HIDDEN ==> Converted(q) == q
    ensures q < 2048 * HIDDEN ==> q - 512 <= Converted(q) <= q + 512
    ensures q >= 2048 * HIDDEN ==> Converted(q) > 0
  {
    DivMod(q, Spacing(q));
    Powers();
    SpacingBound(q, 11);
    if q < 2048 * HIDDEN { SpacingBound(q, 10); }
  }

  /** With any other exponent the magnitude is on the wrong side of the power of two next to the pattern. */
  lemma FarOff(m: nat, k: nat)
    requires m < HIDDEN && k != 10
    ensures k < 10 ==> (HIDDEN + m) * Pow2(k) < 1024 * HIDDEN
    ensures k > 10 ==> (HIDDEN + m) * Pow2(k) >= 2048 * HIDDEN
  {
    Powers();
    if k < 10 {
      Pow2Monotone(k, 9);
      TimesMonotone(HIDDEN + m, Pow2(k), 512);
    } else {
      Pow2Monotone(11, k);
      TimesMonotone(HIDDEN + m, 2048, Pow2(k));
    }
  }

  lemma {:induction false} Pow2Monotone(a: nat, b: nat)
    requires a <= b
    ensures Pow2(a) <= Pow2(b)
  {
    if a < b { Pow2Monotone(a, b - 1); }
  }

  lemma TimesMonotone(x: nat, a: nat, b: nat)
    requires a <= b
    ensures x * a <= x * b
  {}

  /** With this exponent the number is a multiple of the spacing; it is the nearest one for one fraction. */
  lemma Closest(q: nat, m: nat)
    requires q == 1085 * HIDDEN + m && m < HIDDEN
    ensures Converted(q) == (HIDDEN + m) * Pow2(10) <==> q == LUCKY
  {
    Powers();
    SpacingBound(q, 10);
    Near(q);
    assert 61 * HIDDEN == 1023 * (LUCKY - 1085 * HIDDEN) + 244;
    if q == LUCKY { DivModUnique(q, 1024, HIDDEN + m, 244); }
  }
}
