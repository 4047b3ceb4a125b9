/**
 * Java's numeric primitives that the static-stability code relies on:
 * Math.abs, Math.round (round half up, saturated to the range of long),
 * the idiom Math.round(v * f) / f that keeps two or four decimals, and
 * the IEEE-754 behaviour of that idiom when it divides by zero.
 * Doubles are modelled as exact reals.
 */
module Numerics {

  const LONG_MIN: int := -9223372036854775808
  const LONG_MAX: int := 9223372036854775807

  /** Double.MAX_VALUE and Double.MIN_VALUE (the smallest positive double). */
  const DOUBLE_MAX: real := 1.7976931348623157e308
  const DOUBLE_MIN_VALUE: real := 4.9e-324

  const INT_MIN: int := -0x8000_0000
  const INT_MAX: int := 0x7FFF_FFFF

  function Abs(v: real): (r: real)
    ensures r >= 0.0 && (r == v || r == -v)
  {
    if v < 0.0 then -v else v
  }

  function Min(a: real, b: real): (r: real)
    ensures r <= a && r <= b && (r == a || r == b)
  {
    if a <= b then a else b
  }

  function Max(a: real, b: real): (r: real)
    ensures r >= a && r >= b && (r == a || r == b)
  {
    if a >= b then a else b
  }

  /**
   * A product of two doubles. Written as a function of its own so that
   * products of equal factors are equal without nonlinear reasoning.
   */
  function Times(x: real, y: real): real { x * y }

  /** Math.round(double) on a finite argument. */
  function MathRound(v: real): int
  {
    var f := (v + 0.5).Floor;
    if f < LONG_MIN then LONG_MIN else if f > LONG_MAX then LONG_MAX else f
  }

  /** Math.round stays in the range of long and, inside that range, is the nearest whole number, halves rounded up. */
  lemma MathRoundIsNearest(v: real)
    ensures LONG_MIN <= MathRound(v) <= LONG_MAX
    ensures LONG_MIN as real <= v <= LONG_MAX as real - 0.5 ==> v - 0.5 < MathRound(v) as real <= v + 0.5
  {
  }

  /** Math.round(v * 100) / 100.0: v rounded to two decimals. */
  function Round2(v: real): real
  {
    MathRound(v * 100.0) as real / 100.0
  }

  /** Math.round(v * 10000) / 10000.0: v rounded to four decimals. */
  function Round4(v: real): real
  {
    MathRound(v * 10000.0) as real / 10000.0
  }

  /**
   * The double quotient num / den as far as the rounding idioms see it: a
   * zero divisor gives +Infinity, -Infinity or NaN, which Math.round turns
   * into Long.MAX_VALUE, Long.MIN_VALUE and 0.
   */
  datatype Quotient = Finite(value: real) | PositiveInfinity | NegativeInfinity | NaN

  function Divide(num: real, den: real): Quotient
  {
    if den != 0.0 then Finite(num / den)
    else if num > 0.0 then PositiveInfinity
    else if num < 0.0 then NegativeInfinity
    else NaN
  }

  /** Math.round(num / den * 100) / 100.0 */
  function QuotientRound2(num: real, den: real): real
  {
    match Divide(num, den)
    case Finite(q) => Round2(q)
    case PositiveInfinity => LONG_MAX as real / 100.0
    case NegativeInfinity => LONG_MIN as real / 100.0
    case NaN => 0.0
  }

  /** Math.round(num / den * 10000) / 10000.0 */
  function QuotientRound4(num: real, den: real): real
  {
    match Divide(num, den)
    case Finite(q) => Round4(q)
    case PositiveInfinity => LONG_MAX as real / 10000.0
    case NegativeInfinity => LONG_MIN as real / 10000.0
    case NaN => 0.0
  }

  /** Rounding to two decimals moves a value by at most half a cent. */
  lemma Round2IsClose(v: real)
    requires -1.0e16 <= v <= 1.0e16
    ensures v - 0.005 < Round2(v) <= v + 0.005
  {
    MathRoundIsNearest(v * 100.0);
  }

  /** Rounding to four decimals moves a value by at most 0.00005. */
  lemma Round4IsClose(v: real)
    requires -1.0e14 <= v <= 1.0e14
    ensures v - 0.00005 < Round4(v) <= v + 0.00005
  {
    MathRoundIsNearest(v * 10000.0);
  }

  /** Java's 32-bit int multiplication: the exact product wrapped into [INT_MIN, INT_MAX]. */
  function IntTimes(a: int, b: int): (r: int)
    ensures INT_MIN <= r <= INT_MAX
    ensures (a * b - r) % 0x1_0000_0000 == 0
    ensures INT_MIN <= a * b <= INT_MAX ==> r == a * b
  {
    var m := (a * b) % 0x1_0000_0000;
    if m > INT_MAX then m - 0x1_0000_0000 else m
  }

  /** Java's 32-bit int addition: the exact sum wrapped into [INT_MIN, INT_MAX]. */
  function IntPlus(a: int, b: int): (r: int)
    ensures INT_MIN <= r <= INT_MAX
    ensures (a + b - r) % 0x1_0000_0000 == 0
    ensures INT_MIN <= a + b <= INT_MAX ==> r == a + b
  {
    var m := (a + b) % 0x1_0000_0000;
    if m > INT_MAX then m - 0x1_0000_0000 else m
  }

  /**
   * Double addition on possibly non-finite values: NaN absorbs everything,
   * and the sum of the two infinities of opposite sign is NaN.
   */
  function Add(a: Quotient, b: Quotient): (r: Quotient)
    ensures a.Finite? && b.Finite? ==> r == Finite(a.value + b.value)
    ensures (a.NaN? || b.NaN?) ==> r.NaN?
  {
    match (a, b)
    case (NaN, _) => NaN
    case (_, NaN) => NaN
    case (Finite(x), Finite(y)) => Finite(x + y)
    case (PositiveInfinity, NegativeInfinity) => NaN
    case (NegativeInfinity, PositiveInfinity) => NaN
    case (PositiveInfinity, _) => PositiveInfinity
    case (_, PositiveInfinity) => PositiveInfinity
    case (NegativeInfinity, _) => NegativeInfinity
    case (_, NegativeInfinity) => NegativeInfinity
  }

  /** The double comparison v < t: false for NaN and +Infinity, true for -Infinity. */
  predicate LessThan(v: Quotient, t: real)
  {
    match v
    case Finite(x) => x < t
    case NegativeInfinity => true
    case _ => false
  }

  /** Math.abs(v - t) <= eps on a possibly non-finite v: only a finite v can be that close. */
  predicate Within(v: Quotient, t: real, eps: real)
  {
    v.Finite? && Abs(v.value - t) <= eps
  }
}
