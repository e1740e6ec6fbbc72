/** What the digits of Grisu say in plain arithmetic: products, powers of ten and of two, and nothing else. */
module GrisuMeaning {
  import opened Bytes
  import opened Decimal
  import opened Fp
  import opened Grisu

  /** `n` units are in the interval. */
  predicate Inside(n: nat, unit: nat, lower: nat, upper: nat) {
    lower <= n * unit <= upper
  }

  /** `a` is no farther from `v` than `b`. */
  predicate NoFarther(a: nat, b: nat, v: nat) {
    (if a < v then v - a else a - v) <= (if b < v then v - b else b - v)
  }

  lemma WithinMeans(n: nat, unit: nat, lower: nat, upper: nat)
    ensures Within(n, unit, lower, upper) <==> Inside(n, unit, lower, upper)
    ensures InUpper(n, unit, lower, upper) <==> lower < n * unit <= upper
  {
    MultipleIsProduct(n, unit);
  }

  lemma BestMeans(n: nat, unit: nat, lower: nat, upper: nat, value: nat, m: nat)
    requires Best(true, n, unit, lower, upper, value)
    ensures Inside(n, unit, lower, upper)
    ensures Inside(m, unit, lower, upper) ==> NoFarther(n * unit, m * unit, value)
    ensures !(lower < m * (10 * unit) <= upper)
  {
    WithinMeans(n, unit, lower, upper);
    WithinMeans(m, unit, lower, upper);
    WithinMeans(m, 10 * unit, lower, upper);
    MultipleIsProduct(n, unit);
    MultipleIsProduct(m, unit);
    assert !InUpper(m, 10 * unit, lower, upper);
  }

  /**
   * Digits that fit, read as a number n, times 10^exp: x / 2^k stands for a quantity x. The decimal is in the closed
   * interval; no decimal m * 10^exp in it is closer to the value; and no decimal m * 10^(exp + 1) is in it, above its
   * lower end. With a negative exponent everything is multiplied by 10^-exp.
   */
  lemma FitsMeans(digits: seq<byte>, exp: int, maxDigits: nat, k: nat, lower: nat, upper: nat, value: nat, m: nat)
    requires Good(Fits(digits, exp), maxDigits, k, lower, upper, value)
    ensures AllDigits(digits) && |digits| <= maxDigits
    ensures exp >= 0 ==>
              var n, unit := Value(digits), Pow10(exp) * Shl(1, k);
              && Inside(n, unit, lower, upper) && !(lower < m * (10 * unit) <= upper)
              && (Inside(m, unit, lower, upper) ==> NoFarther(n * unit, m * unit, value))
    ensures exp < 0 ==>
              var n, one, s := Value(digits), Shl(1, k), Pow10(0 - exp);
              && Inside(n, one, lower * s, upper * s) && !(lower * s < m * (10 * one) <= upper * s)
              && (Inside(m, one, lower * s, upper * s) ==> NoFarther(n * one, m * one, value * s))
  {
    UnitIs(exp, k);
    ScaledIs(exp, lower);
    ScaledIs(exp, upper);
    ScaledIs(exp, value);
    BestMeans(Value(digits), Unit(exp, k), Multiple(lower, Scale(exp)), Multiple(upper, Scale(exp)),
              Multiple(value, Scale(exp)), m);
  }

  /** Digits cut off where nothing fits are the largest below an interval that holds no such decimal. */
  lemma FallsShortMeans(n: nat, unit: nat, lower: nat, upper: nat)
    ensures FallsShort(n, unit, lower, upper) <==> n * unit < lower && upper < n * unit + unit
  {
    MultipleIsProduct(n, unit);
  }

  lemma UnitIs(exp: int, k: nat)
    ensures Unit(exp, k) == if exp >= 0 then Pow10(exp) * Shl(1, k) else Shl(1, k)
  {
    if exp >= 0 {
      MultipleIsProduct(Pow10(exp), Shl(1, k));
    }
  }

  lemma ScaledIs(exp: int, x: nat)
    ensures Multiple(x, Scale(exp)) == if exp >= 0 then x else x * Pow10(0 - exp)
  {
    MultipleIsProduct(x, Scale(exp));
  }

  /** Where the code leaves its table no decimal with nine fractional digits would do, and more digits are allowed. */
  lemma NeedsMoreMeans(maxDigits: nat, k: nat, lower: nat, upper: nat, m: nat)
    requires NeedsMore(maxDigits, k, lower, upper)
    ensures !(lower * 1_000_000_000 < m * Shl(1, k) <= upper * 1_000_000_000)
    ensures upper * 1_000_000_000 < Pow10(maxDigits) * Shl(1, k)
  {
    PowersOfTen();
    UnitIs(-9, k);
    ScaledIs(-9, lower);
    ScaledIs(-9, upper);
    MultipleIsProduct(Pow10(maxDigits), Unit(-9, k));
    WithinMeans(m, Unit(-9, k), lower * 1_000_000_000, upper * 1_000_000_000);
    assert !InUpper(m, Unit(-9, k), Multiple(lower, Scale(-9)), Multiple(upper, Scale(-9)));
  }
}
