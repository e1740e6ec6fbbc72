/**
 * Digit generation of Grisu2 (format-inl.h). The numbers to print between are fixed-point: a quantity x stands for
 * x / 2^k, where k is minus the exponent of `one`.
 */
module Grisu {
  import opened Bytes
  import opened Decimal
  import opened Fp

  function Pow10(n: nat): (r: nat)
    ensures r > 0
  {
    if n == 0 then 1 else 10 * Pow10(n - 1)
  }

  /**
   * The digits in `digits`, times 10^exp; or those followed by `next`, one digit more than wanted, which the program
   * accepts when `next` is below 5 and hands to its fallback otherwise.
   */
  datatype Generated =
    | Fits(digits: seq<byte>, exp: int)
    | Cut(digits: seq<byte>, exp: int, next: nat)
    | NoPower

  // ---------- multiples ----------

  /** n times `unit`, as a sum: keeps products out of the proofs. */
  function Multiple(n: nat, unit: nat): nat {
    if n == 0 then 0 else unit + Multiple(n - 1, unit)
  }

  lemma {:induction false} MultipleIsProduct(n: nat, unit: nat)
    ensures Multiple(n, unit) == n * unit
  {
    if n > 0 {
      MultipleIsProduct(n - 1, unit);
      assert n * unit == unit + (n - 1) * unit;
    }
  }

  lemma {:induction false} MultipleSum(a: nat, b: nat, unit: nat)
    ensures Multiple(a + b, unit) == Multiple(a, unit) + Multiple(b, unit)
    decreases a
  {
    if a > 0 {
      MultipleSum(a - 1, b, unit);
    }
  }

  lemma Monotone(a: nat, b: nat, unit: nat)
    requires a <= b
    ensures Multiple(b, unit) == Multiple(a, unit) + Multiple(b - a, unit)
  {
    MultipleSum(a, b - a, unit);
  }

  lemma Cancel(s: nat, t: nat, unit: nat)
    requires unit > 0 && Multiple(s, unit) <= Multiple(t, unit)
    ensures s <= t
  {
    if s > t {
      Monotone(t, s, unit);
    }
  }

  lemma {:induction false} TenUnits(n: nat, digit: nat, unit: nat)
    ensures Multiple(10 * n + digit, unit) == Multiple(n, 10 * unit) + Multiple(digit, unit)
    decreases n
  {
    if n > 0 {
      TenUnits(n - 1, digit, unit);
      MultipleSum(10, 10 * (n - 1) + digit, unit);
      MultipleIsProduct(10, unit);
    }
  }

  lemma {:induction false} MultipleTen(n: nat, unit: nat)
    ensures Multiple(n, 10 * unit) == 10 * Multiple(n, unit)
  {
    if n > 0 {
      MultipleTen(n - 1, unit);
    }
  }

  lemma {:induction false} MultipleNest(a: nat, b: nat, unit: nat)
    ensures Multiple(Multiple(a, b), unit) == Multiple(a, Multiple(b, unit))
  {
    if a > 0 {
      MultipleNest(a - 1, b, unit);
      MultipleSum(b, Multiple(a - 1, b), unit);
    }
  }

  // ---------- rounding ----------

  function Dist(a: nat, b: nat): nat {
    if a < b then b - a else a - b
  }

  /** The guard of grisu2_round: one unit less stays within `delta` and comes strictly closer to `diff`. */
  predicate Closer(remainder: nat, unit: nat, delta: nat, diff: nat) {
    && remainder < diff && delta - remainder >= unit
    && (remainder + unit < diff || diff - remainder > remainder + unit - diff)
  }

  /** How many units grisu2_round takes off. */
  function Steps(remainder: nat, unit: nat, delta: nat, diff: nat): nat
    requires unit > 0
    decreases diff - remainder
  {
    if Closer(remainder, unit, delta, diff) then 1 + Steps(remainder + unit, unit, delta, diff) else 0
  }

  lemma {:induction false} StepsFit(remainder: nat, unit: nat, delta: nat, diff: nat)
    requires unit > 0 && remainder <= delta
    ensures remainder + Multiple(Steps(remainder, unit, delta, diff), unit) <= delta
    decreases diff - remainder
  {
    if Closer(remainder, unit, delta, diff) {
      StepsFit(remainder + unit, unit, delta, diff);
    }
  }

  /** No number of units that stays within `delta` comes closer to `diff`. */
  lemma {:induction false} StepsClosest(remainder: nat, unit: nat, delta: nat, diff: nat, t: nat)
    requires unit > 0 && diff <= delta && remainder + Multiple(t, unit) <= delta
    ensures Dist(remainder + Multiple(Steps(remainder, unit, delta, diff), unit), diff)
            <= Dist(remainder + Multiple(t, unit), diff)
    decreases diff - remainder
  {
    if Closer(remainder, unit, delta, diff) {
      StepsClosest(remainder + unit, unit, delta, diff, if t > 0 then t - 1 else 0);
    }
  }

  /** `digits` with `t` taken off the last digit. */
  function Lowered(digits: seq<byte>, t: nat): seq<byte>
    requires digits != [] && AllDigits(digits) && t <= digits[|digits| - 1] - ZERO
  {
    digits[|digits| - 1 := digits[|digits| - 1] - t]
  }

  /** The end of grisu2_round: a digit too many is cut off. */
  function Finish(digits: seq<byte>, maxDigits: nat, exp10: int): Generated
    requires digits != [] && AllDigits(digits)
  {
    var last := |digits| - 1;
    if |digits| > maxDigits then Cut(digits[..last], exp10 + 1, digits[last] - ZERO) else Fits(digits, exp10)
  }

  /** The step before did not fit, so the last digit has all the units that can be taken. */
  lemma StepsInDigit(remainder: nat, unit: nat, delta: nat, diff: nat, digit: nat)
    requires unit > 0 && diff <= delta <= remainder + Multiple(digit, unit)
    ensures Steps(remainder, unit, delta, diff) <= digit
  {
    if remainder <= delta {
      StepsFit(remainder, unit, delta, diff);
      Cancel(Steps(remainder, unit, delta, diff), digit, unit);
    }
  }

  /** `r` is what grisu2_round makes of `digits`. */
  predicate IsRounded(r: Generated, digits: seq<byte>, maxDigits: nat, exp: int, unit: nat, remainder: nat,
                      delta: nat, diff: nat)
    requires digits != [] && AllDigits(digits) && unit > 0
  {
    && Steps(remainder, unit, delta, diff) <= digits[|digits| - 1] - ZERO
    && r == Finish(Lowered(digits, Steps(remainder, unit, delta, diff)), maxDigits, exp)
  }

  /** grisu2_round. */
  method Round(digits: seq<byte>, maxDigits: nat, delta: u64, remainder: u64, unit: u64, diff: u64, exp10: int)
    returns (r: Generated)
    requires digits != [] && AllDigits(digits) && unit > 0
    requires diff <= delta <= remainder + Multiple(digits[|digits| - 1] - ZERO, unit)
    ensures IsRounded(r, digits, maxDigits, exp10, unit, remainder, delta, diff)
  {
    var buf: seq<byte> := digits;
    var rest: u64 := remainder;
    var last := |digits| - 1;
    StepsInDigit(remainder, unit, delta, diff, digits[last] - ZERO);
    while Closer(rest, unit, delta, diff)
      invariant |buf| == |digits| && AllDigits(buf) && buf[..last] == digits[..last]
      invariant Steps(rest, unit, delta, diff) <= buf[last] - ZERO
      invariant buf[last] - Steps(rest, unit, delta, diff) == digits[last] - Steps(remainder, unit, delta, diff)
      decreases diff - rest
    {
      buf := buf[last := buf[last] - 1];
      rest := rest + unit;
    }
    assert buf == Lowered(digits, Steps(remainder, unit, delta, diff));
    r := Finish(buf, maxDigits, exp10);
  }

  // ---------- what the digits mean ----------

  predicate Within(n: nat, unit: nat, lower: nat, upper: nat) {
    lower <= Multiple(n, unit) <= upper
  }

  /** `n` units lie in the interval, at least as close to `value` as any other whole number of units there. */
  ghost predicate Closest(n: nat, unit: nat, lower: nat, upper: nat, value: nat) {
    && Within(n, unit, lower, upper)
    && forall m: nat {:trigger Within(m, unit, lower, upper)} ::
         Within(m, unit, lower, upper) ==> Dist(Multiple(n, unit), value) <= Dist(Multiple(m, unit), value)
  }

  /** `n` is the largest number of units up to `upper`, and the interval holds none. */
  predicate FallsShort(n: nat, unit: nat, lower: nat, upper: nat) {
    Multiple(n, unit) < lower && upper < Multiple(n, unit) + unit
  }

  predicate InUpper(m: nat, unit: nat, lower: nat, upper: nat) {
    lower < Multiple(m, unit) <= upper
  }

  /** No whole number of `unit`s lies in the interval above its lower end. */
  ghost predicate NoneWithin(unit: nat, lower: nat, upper: nat) {
    forall m: nat {:trigger InUpper(m, unit, lower, upper)} :: !InUpper(m, unit, lower, upper)
  }

  /** Digit generation has reached `n` units with `remainder` left of `upper`. */
  predicate Reached(n: nat, unit: nat, remainder: nat, upper: nat) {
    Multiple(n, unit) + remainder == upper && remainder < unit
  }

  lemma LastMultiple(n: nat, unit: nat, remainder: nat, upper: nat, m: nat)
    requires unit > 0 && Reached(n, unit, remainder, upper) && Multiple(m, unit) <= upper
    ensures m <= n && Multiple(m, unit) == upper - (remainder + Multiple(n - m, unit))
  {
    if m > n {
      Monotone(n, m, unit);
    } else {
      Monotone(m, n, unit);
    }
  }

  /** Rounding makes the best of the digits reached. */
  lemma RoundingIsBest(n: nat, unit: nat, remainder: nat, upper: nat, delta: nat, diff: nat)
    requires unit > 0 && Reached(n, unit, remainder, upper) && diff <= delta <= upper
    requires Steps(remainder, unit, delta, diff) <= n
    ensures var t := Steps(remainder, unit, delta, diff);
            if remainder <= delta then Closest(n - t, unit, upper - delta, upper, upper - diff)
            else FallsShort(n - t, unit, upper - delta, upper)
  {
    var t := Steps(remainder, unit, delta, diff);
    if remainder <= delta {
      StepsFit(remainder, unit, delta, diff);
      Monotone(n - t, n, unit);
      forall m: nat | Within(m, unit, upper - delta, upper)
        ensures Dist(Multiple(n - t, unit), upper - diff) <= Dist(Multiple(m, unit), upper - diff)
      {
        LastMultiple(n, unit, remainder, upper, m);
        StepsClosest(remainder, unit, delta, diff, n - m);
      }
    }
  }

  /** If the step before did not fit, no number with one digit less does. */
  lemma NoneShorter(n: nat, digit: nat, unit: nat, remainder: nat, upper: nat, delta: nat)
    requires unit > 0 && digit <= 9 && Reached(10 * n + digit, unit, remainder, upper)
    requires delta <= remainder + Multiple(digit, unit) && delta <= upper
    ensures NoneWithin(10 * unit, upper - delta, upper)
  {
    var before := remainder + Multiple(digit, unit);
    TenUnits(n, digit, unit);
    Monotone(digit, 9, unit);
    MultipleIsProduct(9, unit);
    var tens, lower := 10 * unit, upper - delta;
    assert before < tens;
    forall m: nat
      ensures !InUpper(m, tens, lower, upper)
    {
      if Multiple(m, tens) <= upper {
        LastMultiple(n, tens, before, upper, m);
      }
    }
  }

  // ---------- digit generation ----------

  /** The unit of the last digit at exponent `exp`, in quantities scaled by Scale(exp). */
  function Unit(exp: int, k: nat): (u: nat)
    ensures u > 0
  {
    if exp >= 0 then Multiple(Pow10(exp), Shl(1, k)) else Shl(1, k)
  }

  function Scale(exp: int): (s: nat)
    ensures s > 0
  {
    if exp >= 0 then 1 else Pow10(0 - exp)
  }

  /**
   * No decimal with a unit ten times as large is in the interval; and `n` units are, if one `fits`, the closest to
   * `value` of all those that do.
   */
  ghost predicate Best(fits: bool, n: nat, unit: nat, lower: nat, upper: nat, value: nat) {
    && NoneWithin(10 * unit, lower, upper)
    && if fits then Closest(n, unit, lower, upper, value) else FallsShort(n, unit, lower, upper)
  }

  /** The same for n * 10^exp and quantities of fixed point 2^k. */
  ghost predicate BestAt(fits: bool, n: nat, exp: int, k: nat, lower: nat, upper: nat, value: nat) {
    Best(fits, n, Unit(exp, k), Multiple(lower, Scale(exp)), Multiple(upper, Scale(exp)), Multiple(value, Scale(exp)))
  }

  /** Nine fractional digits are too few: no decimal with that many is in the interval, and `maxDigits` allows more. */
  ghost predicate NeedsMore(maxDigits: nat, k: nat, lower: nat, upper: nat) {
    && NoneWithin(Unit(-9, k), Multiple(lower, Scale(-9)), Multiple(upper, Scale(-9)))
    && Multiple(upper, Scale(-9)) < Multiple(Pow10(maxDigits), Unit(-9, k))
  }

  /** What grisu2_gen_digits promises; NoPower is a stop past 10^9, the last entry of its table of powers of ten. */
  ghost predicate Good(r: Generated, maxDigits: nat, k: nat, lower: nat, upper: nat, value: nat) {
    match r
    case Fits(digits, exp) =>
      AllDigits(digits) && |digits| <= maxDigits && exp >= -9
          && BestAt(true, Value(digits), exp, k, lower, upper, value)
    case Cut(digits, exp, next) =>
      AllDigits(digits) && |digits| == maxDigits && next <= 9 && exp - 1 >= -9
      && (BestAt(true, 10 * Value(digits) + next, exp - 1, k, lower, upper, value)
          || BestAt(false, 10 * Value(digits) + next, exp - 1, k, lower, upper, value))
    case NoPower => NeedsMore(maxDigits, k, lower, upper)
  }

  lemma ValueSnoc(digits: seq<byte>, d: byte)
    requires AllDigits(digits) && IsDigit(d)
    ensures Value(digits + [d]) == 10 * Value(digits) + (d - ZERO)
  {
    assert (digits + [d])[..|digits|] == digits;
  }

  lemma ValueLowered(digits: seq<byte>, t: nat)
    requires digits != [] && AllDigits(digits) && t <= digits[|digits| - 1] - ZERO
    ensures Value(Lowered(digits, t)) == Value(digits) - t
  {
    var last := |digits| - 1;
    assert Lowered(digits, t)[..last] == digits[..last];
  }

  /** The state in which grisu2_round is called, with `s` applied to every quantity. */
  ghost predicate Stopped(digits: seq<byte>, maxDigits: nat, unit: nat, remainder: nat, upper: nat, delta: nat,
                          diff: nat)
    requires digits != [] && AllDigits(digits) && unit > 0
  {
    var last := digits[|digits| - 1] - ZERO;
    && |digits| <= maxDigits + 1 && (remainder <= delta || |digits| > maxDigits)
    && diff <= delta <= upper && delta <= remainder + Multiple(last, unit)
    && Reached(Value(digits), unit, remainder, upper) && Steps(remainder, unit, delta, diff) <= last
  }

  lemma StoppedIsBest(digits: seq<byte>, maxDigits: nat, unit: nat, remainder: nat, upper: nat, delta: nat, diff: nat,
                      lower: nat, value: nat)
    requires digits != [] && AllDigits(digits) && unit > 0
    requires Stopped(digits, maxDigits, unit, remainder, upper, delta, diff)
    requires lower == upper - delta && value == upper - diff
    ensures Best(remainder <= delta, Value(Lowered(digits, Steps(remainder, unit, delta, diff))), unit,
                 lower, upper, value)
  {
    var last := digits[|digits| - 1] - ZERO;
    RoundingIsBest(Value(digits), unit, remainder, upper, delta, diff);
    NoneShorter(Value(digits[..|digits| - 1]), last, unit, remainder, upper, delta);
    ValueLowered(digits, Steps(remainder, unit, delta, diff));
  }

  /** Cutting off the last digit if there is one too many. */
  lemma FinishKeeps(fits: bool, digits: seq<byte>, maxDigits: nat, exp: int, k: nat, lower: nat, upper: nat, value: nat)
    requires digits != [] && AllDigits(digits) && |digits| <= maxDigits + 1 && exp >= -9
    requires fits || |digits| > maxDigits
    requires BestAt(fits, Value(digits), exp, k, lower, upper, value)
    ensures Good(Finish(digits, maxDigits, exp), maxDigits, k, lower, upper, value)
  {
    var n := 10 * Value(digits[..|digits| - 1]) + (digits[|digits| - 1] - ZERO);
    assert Value(digits) == n;
    assert BestAt(fits, n, exp, k, lower, upper, value);
  }

  lemma RoundedIsGood(r: Generated, digits: seq<byte>, maxDigits: nat, exp: int, k: nat, unit: nat, scale: nat,
                      remainder: nat, lower: nat, upper: nat, value: nat, delta: nat, diff: nat)
    requires digits != [] && AllDigits(digits) && lower <= value <= upper && exp >= -9
    requires unit == Unit(exp, k) && scale == Scale(exp)
    requires delta == Multiple(upper - lower, scale) && diff == Multiple(upper - value, scale)
    requires Stopped(digits, maxDigits, unit, remainder, Multiple(upper, scale), delta, diff)
    requires IsRounded(r, digits, maxDigits, exp, unit, remainder, delta, diff)
    ensures Good(r, maxDigits, k, lower, upper, value) && !r.NoPower?
  {
    MultipleDifference(upper, upper - lower, scale);
    MultipleDifference(upper, upper - value, scale);
    var steps := Steps(remainder, unit, delta, diff);
    StoppedIsBest(digits, maxDigits, unit, remainder, Multiple(upper, scale), delta, diff,
                  Multiple(lower, scale), Multiple(value, scale));
    FinishKeeps(remainder <= delta, Lowered(digits, steps), maxDigits, exp, k, lower, upper, value);
  }

  lemma MultipleDifference(a: nat, b: nat, unit: nat)
    requires b <= a
    ensures Multiple(a - b, unit) == Multiple(a, unit) - Multiple(b, unit)
  {
    Monotone(b, a, unit);
  }

  // ---------- the integer digits ----------

  /** Decimal digits without a leading zero. */
  predicate Proper(digits: seq<byte>) {
    AllDigits(digits) && (digits != [] ==> digits[0] != ZERO)
  }

  lemma {:induction false} ProperValue(digits: seq<byte>)
    requires Proper(digits) && digits != []
    ensures Value(digits) >= Pow10(|digits| - 1)
    decreases |digits|
  {
    if |digits| > 1 {
      ProperValue(digits[..|digits| - 1]);
    } else {
      assert digits[..0] == [];
    }
  }

  /** A digit stored after `digits`, unless it would lead with a zero. */
  function Pushed(digits: seq<byte>, digit: nat): (r: seq<byte>)
    requires digit <= 9
  {
    if digit != 0 || |digits| != 0 then digits + [ZERO + digit] else digits
  }

  lemma PushedValue(digits: seq<byte>, digit: nat)
    requires digit <= 9 && Proper(digits)
    ensures var r := Pushed(digits, digit);
            && Proper(r) && Value(r) == 10 * Value(digits) + digit && |digits| <= |r| <= |digits| + 1
            && (r != [] ==> |r| == |digits| + 1 && r[|digits|] == ZERO + digit)
  {
    if digit != 0 || |digits| != 0 {
      ValueSnoc(digits, ZERO + digit);
    }
  }

  lemma ShlIsMultiple(h: nat, k: nat)
    ensures Shl(h, k) == Multiple(h, Shl(1, k))
  {
    ShlTimes(h, k);
    MultipleIsProduct(h, Shl(1, k));
  }

  lemma UnitTen(exp: nat, k: nat)
    ensures Unit(exp + 1, k) == 10 * Unit(exp, k)
  {
    MultipleIsProduct(10, Pow10(exp));
    MultipleNest(10, Pow10(exp), Shl(1, k));
    MultipleIsProduct(10, Unit(exp, k));
  }

  lemma PowersOfTen()
    ensures Pow10(0) == 1 && Pow10(1) == 10 && Pow10(2) == 100 && Pow10(3) == 1_000 && Pow10(4) == 10_000
    ensures Pow10(5) == 100_000 && Pow10(6) == 1_000_000 && Pow10(7) == 10_000_000 && Pow10(8) == 100_000_000
    ensures Pow10(9) == 1_000_000_000 && Pow10(10) == 10_000_000_000
  {
  }

  /** The switch of the first loop: the leading digit of a number below 10^(exp + 1), and the rest. */
  method TakeDigit(hi: nat, exp: nat) returns (digit: nat, rest: nat)
    requires exp <= 9 && hi < Pow10(exp + 1)
    ensures digit <= 9 && rest < Pow10(exp) && hi == Multiple(digit, Pow10(exp)) + rest
  {
    PowersOfTen();
    if exp == 9 {
      digit, rest := hi / 1_000_000_000, hi % 1_000_000_000;
    } else if exp == 8 {
      digit, rest := hi / 100_000_000, hi % 100_000_000;
    } else if exp == 7 {
      digit, rest := hi / 10_000_000, hi % 10_000_000;
    } else if exp == 6 {
      digit, rest := hi / 1_000_000, hi % 1_000_000;
    } else if exp == 5 {
      digit, rest := hi / 100_000, hi % 100_000;
    } else if exp == 4 {
      digit, rest := hi / 10_000, hi % 10_000;
    } else if exp == 3 {
      digit, rest := hi / 1_000, hi % 1_000;
    } else if exp == 2 {
      digit, rest := hi / 100, hi % 100;
    } else if exp == 1 {
      digit, rest := hi / 10, hi % 10;
    } else {
      digit, rest := hi, 0;
    }
    MultipleIsProduct(digit, Pow10(exp));
  }

  /** One digit of the integer part. */
  lemma UnitHigh(exp: nat, k: nat)
    ensures Unit(exp, k) == Multiple(Pow10(exp), Shl(1, k))
  {
  }

  lemma HighPart(hi: nat, digit: nat, p: nat, rest: nat, one: nat)
    requires hi == Multiple(digit, p) + rest
    ensures Multiple(hi, one) == Multiple(rest, one) + Multiple(digit, Multiple(p, one))
  {
    MultipleSum(Multiple(digit, p), rest, one);
    MultipleNest(digit, p, one);
  }

  lemma LowPart(n: nat, n': nat, digit: nat, unit: nat, unit': nat)
    requires n' == 10 * n + digit && unit' == 10 * unit
    ensures Multiple(n', unit) == Multiple(n, unit') + Multiple(digit, unit)
  {
    TenUnits(n, digit, unit);
  }

  lemma IntegerStep(n: nat, n': nat, hi: nat, digit: nat, rest: nat, exp: nat, k: nat, lo: nat, upper: nat)
    requires digit <= 9 && rest < Pow10(exp) && lo < Shl(1, k)
    requires hi == Multiple(digit, Pow10(exp)) + rest && n' == 10 * n + digit
    requires Reached(n, Unit(exp + 1, k), Multiple(hi, Shl(1, k)) + lo, upper)
    ensures Reached(n', Unit(exp, k), Multiple(rest, Shl(1, k)) + lo, upper)
    ensures Multiple(hi, Shl(1, k)) == Multiple(rest, Shl(1, k)) + Multiple(digit, Unit(exp, k))
  {
    var one, unit := Shl(1, k), Unit(exp, k);
    HighPart(hi, digit, Pow10(exp), rest, one);
    UnitHigh(exp, k);
    UnitTen(exp, k);
    LowPart(n, n', digit, unit, Unit(exp + 1, k));
    RemainderSmall(rest, Pow10(exp), one, lo);
  }

  lemma RemainderSmall(rest: nat, p: nat, one: nat, lo: nat)
    requires rest < p && lo < one
    ensures Multiple(rest, one) + lo < Multiple(p, one)
  {
    Monotone(rest, p, one);
  }

  // ---------- stops that need no more than nine fractional digits ----------

  lemma {:induction false} MultipleGrows(n: nat, a: nat, b: nat)
    requires a <= b
    ensures Multiple(n, a) <= Multiple(n, b)
  {
    if n > 0 {
      MultipleGrows(n - 1, a, b);
    }
  }

  lemma {:induction false} UnitSum(c: nat, a: nat, b: nat)
    ensures Multiple(c, a + b) == Multiple(c, a) + Multiple(c, b)
  {
    if c > 0 {
      UnitSum(c - 1, a, b);
    }
  }

  lemma {:induction false} Exchange(n: nat, c: nat, p: nat)
    ensures Multiple(n, Multiple(c, p)) == Multiple(c, Multiple(n, p))
    decreases n
  {
    if n > 0 {
      Exchange(n - 1, c, p);
      UnitSum(c, p, Multiple(n - 1, p));
    } else {
      MultipleIsProduct(c, 0);
    }
  }

  lemma {:induction false} Pow10Sum(a: nat, b: nat)
    ensures Pow10(a + b) == Multiple(Pow10(a), Pow10(b))
  {
    if a > 0 {
      Pow10Sum(a - 1, b);
      TenUnits(Pow10(a - 1), 0, Pow10(b));
      MultipleTen(Pow10(a - 1), Pow10(b));
    }
  }

  lemma {:induction false} Ordered(c: nat, l: nat, m: nat)
    requires l < m && c > 0
    ensures Multiple(c, l) < Multiple(c, m)
    decreases c
  {
    if c > 1 {
      Ordered(c - 1, l, m);
    }
  }

  lemma ScaleNine(n: nat, j: nat)
    requires j <= 9
    ensures Multiple(n, Pow10(9)) == Multiple(Pow10(9 - j), Multiple(n, Pow10(j)))
  {
    Pow10Sum(9 - j, j);
    Exchange(n, Pow10(9 - j), Pow10(j));
  }

  lemma {:induction false} Pow10Grows(a: nat, b: nat)
    requires a <= b
    ensures Pow10(a) <= Pow10(b)
    decreases b
  {
    if a < b {
      Pow10Grows(a, b - 1);
    }
  }

  /** A decimal with at most nine fractional digits in the interval above its lower end. */
  lemma FitsInNine(n: nat, j: nat, maxDigits: nat, k: nat, lower: nat, upper: nat)
    requires j <= 9 && Multiple(lower, Pow10(j)) < Multiple(n, Shl(1, k)) <= Multiple(upper, Pow10(j))
    ensures !NeedsMore(maxDigits, k, lower, upper)
  {
    var c := Pow10(9 - j);
    ScaleNine(lower, j);
    ScaleNine(upper, j);
    MultipleNest(c, n, Shl(1, k));
    Ordered(c, Multiple(lower, Pow10(j)), Multiple(n, Shl(1, k)));
    MultipleGrows(c, Multiple(n, Shl(1, k)), Multiple(upper, Pow10(j)));
    assert InUpper(Multiple(c, n), Unit(-9, k), Multiple(lower, Scale(-9)), Multiple(upper, Scale(-9)));
  }

  /** More than `maxDigits` digits have been made with at most nine of them fractional. */
  lemma LongInNine(buf: seq<byte>, j: nat, maxDigits: nat, k: nat, lower: nat, upper: nat)
    requires j <= 9 && Proper(buf) && |buf| > maxDigits && Multiple(Value(buf), Shl(1, k)) <= Multiple(upper, Pow10(j))
    ensures !NeedsMore(maxDigits, k, lower, upper)
  {
    ProperValue(buf);
    Pow10Grows(maxDigits, |buf| - 1);
    Monotone(Pow10(maxDigits), Value(buf), Shl(1, k));
    Pow10Grows(j, 9);
    MultipleGrows(upper, Pow10(j), Pow10(9));
  }

  /** A stop among the integer digits: a whole number in the interval, at its lower end or above it, or too many
      digits. */
  lemma IntegerStopSuffices(buf: seq<byte>, maxDigits: nat, exp: nat, remainder: nat, delta: nat, k: nat, upper: nat)
    requires Proper(buf) && delta < upper && Reached(Value(buf), Unit(exp, k), remainder, upper)
    requires remainder <= delta || |buf| > maxDigits
    ensures NeedsMore(maxDigits, k, upper - delta, upper) ==> (upper - delta) % Shl(1, k) == 0
  {
    var one, n, lower := Shl(1, k), Multiple(Value(buf), Pow10(exp)), upper - delta;
    MultipleNest(Value(buf), Pow10(exp), one);
    Unscaled(upper, lower, 0);
    if |buf| > maxDigits {
      MultipleIsProduct(Value(buf), 1);
      MultipleGrows(Value(buf), 1, Pow10(exp));
      Monotone(Value(buf), n, one);
      LongInNine(buf, 0, maxDigits, k, lower, upper);
    } else if Multiple(n, one) > lower {
      FitsInNine(n, 0, maxDigits, k, lower, upper);
    } else {
      MultipleModulo(n, one, 0);
    }
  }

  lemma MultipleModulo(n: nat, unit: nat, rest: nat)
    requires rest < unit
    ensures (Multiple(n, unit) + rest) % unit == rest
  {
    var x := Multiple(n, unit) + rest;
    Division(x, unit);
    MultipleIsProduct(x / unit, unit);
    LastMultiple(n, unit, rest, x, x / unit);
    LastMultiple(x / unit, unit, x % unit, x, n);
  }

  /** When none lies above the lower end, a whole number of units lies in the closed interval just if one is its
      lower end. */
  lemma OnlyTheLowerEnd(unit: nat, lower: nat, upper: nat)
    requires unit > 0 && lower <= upper && NoneWithin(unit, lower, upper)
    ensures (exists m: nat :: Within(m, unit, lower, upper)) <==> lower % unit == 0
  {
    if m: nat :| Within(m, unit, lower, upper) {
      assert !InUpper(m, unit, lower, upper);
      MultipleModulo(m, unit, 0);
    }
    if lower % unit == 0 {
      Division(lower, unit);
      MultipleIsProduct(lower / unit, unit);
      assert Within(lower / unit, unit, lower, upper);
    }
  }

  lemma Division(h: nat, p: nat)
    requires p > 0
    ensures h == (h / p) * p + h % p && 0 <= h % p < p && h / p >= 0
  {
  }

  /** The first loop has produced `buf` down to exponent `exp` and has `hi` and `lo` left. */
  ghost predicate InInteger(buf: seq<byte>, hi: nat, exp: nat, lo: nat, k: nat, upper: nat) {
    Proper(buf) && hi < Pow10(exp) && Reached(Value(buf), Unit(exp, k), Multiple(hi, Shl(1, k)) + lo, upper)
  }

  /** The last digit of `buf`, if there is one, is what `hi` had above `hi'`. */
  ghost predicate LastDigit(buf: seq<byte>, hi: nat, hi': nat, exp: nat, k: nat) {
    buf != [] ==>
      && ZERO <= buf[|buf| - 1]
      && Multiple(hi, Shl(1, k)) == Multiple(hi', Shl(1, k)) + Multiple(buf[|buf| - 1] - ZERO, Unit(exp, k))
  }

  lemma IntegerTurn(buf: seq<byte>, buf': seq<byte>, hi: nat, digit: nat, hi': nat, exp: nat, k: nat, lo: nat,
                    upper: nat)
    requires lo < Shl(1, k) && InInteger(buf, hi, exp + 1, lo, k, upper)
    requires digit <= 9 && hi' < Pow10(exp) && hi == Multiple(digit, Pow10(exp)) + hi' && buf' == Pushed(buf, digit)
    ensures InInteger(buf', hi', exp, lo, k, upper) && |buf'| <= |buf| + 1 && LastDigit(buf', hi, hi', exp, k)
  {
    PushedValue(buf, digit);
    IntegerStep(Value(buf), Value(buf'), hi, digit, hi', exp, k, lo, upper);
  }

  /** One turn of the first loop, up to its test. */
  method NextInteger(buf: seq<byte>, hi: nat, exp: nat, k: nat, ghost lo: nat, ghost upper: nat)
    returns (buf': seq<byte>, hi': nat)
    requires exp <= 9 && lo < Shl(1, k) && InInteger(buf, hi, exp + 1, lo, k, upper)
    ensures InInteger(buf', hi', exp, lo, k, upper) && |buf'| <= |buf| + 1 && LastDigit(buf', hi, hi', exp, k)
  {
    var digit;
    digit, hi' := TakeDigit(hi, exp);
    buf' := Pushed(buf, digit);
    IntegerTurn(buf, buf', hi, digit, hi', exp, k, lo, upper);
  }

  /**
   * The first loop of grisu2_gen_digits: digits of `hi`, while the stop condition fails. `None` when all of them have
   * been produced.
   */
  method IntegerDigits(maxDigits: nat, hi0: nat, lo: u64, exp0: nat, delta: u64, diff: u64, k: nat, ghost upper: nat)
    returns (r: Option<Generated>, buf: seq<byte>)
    requires 32 <= k <= 60 && exp0 <= 10 && hi0 < Pow10(exp0) && lo < Shl(1, k)
    requires upper == Multiple(hi0, Shl(1, k)) + lo < TWO64 && diff <= delta < upper
    ensures r.Some? ==> Good(r.value, maxDigits, k, upper - delta, upper, upper - diff) && !r.value.NoPower?
    ensures r.Some? ==> (NeedsMore(maxDigits, k, upper - delta, upper) ==> (upper - delta) % Shl(1, k) == 0)
    ensures r.None? ==> Proper(buf) && |buf| <= maxDigits && Multiple(Value(buf), Shl(1, k)) + lo == upper && delta < lo
  {
    buf := [];
    var hi: nat := hi0;
    var exp: nat := exp0;
    RemainderSmall(hi, Pow10(exp), Shl(1, k), lo);
    while exp > 0
      invariant exp <= exp0 && InInteger(buf, hi, exp, lo, k, upper) && |buf| <= maxDigits
      invariant delta < Multiple(hi, Shl(1, k)) + lo
    {
      exp := exp - 1;
      buf, hi := NextInteger(buf, hi, exp, k, lo, upper);
      ShlIsMultiple(hi, k);
      var remainder: u64 := Shl(hi, k) + lo;
      if remainder <= delta || |buf| > maxDigits {
        IntegerStopSuffices(buf, maxDigits, exp, remainder, delta, k, upper);
        var g := StopInteger(buf, maxDigits, exp, remainder, delta, diff, k, upper);
        return Some(g), buf;
      }
    }
    r := None;
  }

  /** The call of grisu2_round in the first loop. */
  method StopInteger(buf: seq<byte>, maxDigits: nat, exp: nat, remainder: u64, delta: u64, diff: u64,
                     k: nat, ghost upper: nat)
    returns (r: Generated)
    requires Proper(buf) && |buf| <= maxDigits + 1 && diff <= delta < upper < TWO64
    requires remainder <= delta || |buf| > maxDigits
    requires Reached(Value(buf), Unit(exp, k), remainder, upper)
    requires buf != [] ==> delta <= remainder + Multiple(buf[|buf| - 1] - ZERO, Unit(exp, k))
    ensures Good(r, maxDigits, k, upper - delta, upper, upper - diff) && !r.NoPower?
  {
    assert buf != [];
    ProperValue(buf);
    ShlIsMultiple(Pow10(exp), k);
    var unit: u64 := Shl(Pow10(exp), k);
    r := Round(buf, maxDigits, delta, remainder, unit, diff, exp);
    Unscaled(upper, delta, diff);
    RoundedIsGood(r, buf, maxDigits, exp, k, unit, 1, remainder, upper - delta, upper, upper - diff, delta, diff);
  }

  lemma Unscaled(upper: nat, delta: nat, diff: nat)
    ensures Multiple(upper, 1) == upper && Multiple(delta, 1) == delta && Multiple(diff, 1) == diff
  {
    MultipleIsProduct(upper, 1);
    MultipleIsProduct(delta, 1);
    MultipleIsProduct(diff, 1);
  }

  // ---------- the fractional digits ----------

  lemma FractionDigit(scaled: nat, one: nat)
    requires one > 0 && scaled < 10 * one
    ensures 0 <= scaled / one <= 9 && 0 <= scaled % one < one
    ensures scaled == Multiple(scaled / one, one) + scaled % one
  {
    Division(scaled, one);
    MultipleIsProduct(scaled / one, one);
    MultipleIsProduct(10, one);
    if scaled / one >= 10 {
      Monotone(10, scaled / one, one);
    }
  }

  /** The second loop has made `j` digits of the fraction, and has `lo` left to compare with `delta`. */
  ghost predicate InFraction(buf: seq<byte>, j: nat, lo: nat, delta: nat, k: nat, upper: nat, delta0: nat) {
    && Proper(buf) && lo < Shl(1, k)
    && Multiple(Value(buf), Shl(1, k)) + lo == Multiple(upper, Pow10(j)) && delta == Multiple(delta0, Pow10(j))
  }

  lemma FractionStep(n: nat, digit: nat, rest: nat, lo: nat, one: nat, upper: nat, scale: nat)
    requires Multiple(n, one) + lo == Multiple(upper, scale) && 10 * lo == Multiple(digit, one) + rest
    ensures Multiple(10 * n + digit, one) + rest == Multiple(upper, 10 * scale)
  {
    TenUnits(n, digit, one);
    MultipleTen(n, one);
    MultipleTen(upper, scale);
  }

  /** One turn of the second loop, up to its test. */
  method NextFraction(buf: seq<byte>, lo: u64, delta: u64, k: nat, ghost j: nat, ghost upper: nat, ghost delta0: nat)
    returns (buf': seq<byte>, lo': u64, delta': u64)
    requires 32 <= k <= 60 && delta <= lo && InFraction(buf, j, lo, delta, k, upper, delta0)
    ensures InFraction(buf', j + 1, lo', delta', k, upper, delta0) && |buf| <= |buf'| <= |buf| + 1
    ensures buf' != [] ==> delta' <= lo' + Multiple(buf'[|buf'| - 1] - ZERO, Shl(1, k))
    ensures buf' == [] ==> lo' == 10 * lo
    ensures buf != [] ==> |buf'| == |buf| + 1
  {
    ShlSixty(k);
    var scaled: u64 := lo * 10;
    delta' := delta * 10;
    FractionDigit(scaled, Shl(1, k));
    var digit := scaled / Shl(1, k);
    lo' := scaled % Shl(1, k);
    FractionStep(Value(buf), digit, lo', lo, Shl(1, k), upper, Pow10(j));
    MultipleTen(delta0, Pow10(j));
    PushedValue(buf, digit);
    buf' := Pushed(buf, digit);
  }

  lemma ShlSixty(k: nat)
    requires k <= 60
    ensures Shl(1, k) <= 0x1000_0000_0000_0000
  {
    ShlExactlySixty();
    ShlShl(1, k, 60 - k);
  }

  lemma ShlTen(n: nat, p: nat)
    requires Shl(1, n) == p
    ensures Shl(1, n + 10) == 1024 * p
  {
    ShlShl(1, n, 10);
    ShlEleven(Shl(1, n));
  }

  lemma {:induction false} ValueBelow(digits: seq<byte>)
    requires AllDigits(digits)
    ensures Value(digits) < Pow10(|digits|)
    decreases |digits|
  {
    if digits != [] {
      ValueBelow(digits[..|digits| - 1]);
    }
  }

  /** Nine fractional digits made without a stop. */
  lemma NineTooFew(buf: seq<byte>, maxDigits: nat, lo: nat, delta: nat, k: nat, upper: nat, delta0: nat)
    requires InFraction(buf, 9, lo, delta, k, upper, delta0) && delta <= lo && |buf| <= maxDigits && delta0 <= upper
    ensures NeedsMore(maxDigits, k, upper - delta0, upper)
  {
    var one, scaled := Shl(1, k), Multiple(upper, Pow10(9));
    var low := scaled - delta;
    MultipleDifference(upper, delta0, Pow10(9));
    forall m: nat
      ensures !InUpper(m, one, low, scaled)
    {
      if Multiple(m, one) <= scaled {
        LastMultiple(Value(buf), one, lo, scaled, m);
      }
    }
    ValueBelow(buf);
    Pow10Grows(|buf|, maxDigits);
    RemainderSmall(Value(buf), Pow10(maxDigits), one, lo);
  }

  /** A stop after at most nine fractional digits. */
  lemma FractionStopSuffices(buf: seq<byte>, maxDigits: nat, j: nat, lo: nat, delta: nat, k: nat, upper: nat,
                             delta0: nat)
    requires j <= 9 && delta0 <= upper && InFraction(buf, j, lo, delta, k, upper, delta0)
             && (lo < delta || |buf| > maxDigits)
    ensures !NeedsMore(maxDigits, k, upper - delta0, upper)
  {
    if |buf| > maxDigits {
      LongInNine(buf, j, maxDigits, k, upper - delta0, upper);
    } else {
      MultipleDifference(upper, delta0, Pow10(j));
      FitsInNine(Value(buf), j, maxDigits, k, upper - delta0, upper);
    }
  }

  /** The call of grisu2_round in the second loop; its table of powers has entries up to 10^9. */
  method StopFraction(buf: seq<byte>, maxDigits: nat, j: nat, lo: u64, delta: u64, diff: u64,
                      k: nat, ghost upper: nat, ghost delta0: nat)
    returns (r: Generated)
    requires 32 <= k <= 60 && 0 < j && |buf| <= maxDigits + 1 && diff <= delta0 < upper
    requires InFraction(buf, j, lo, delta, k, upper, delta0) && (lo < delta || |buf| > maxDigits)
    requires buf != [] ==> delta <= lo + Multiple(buf[|buf| - 1] - ZERO, Shl(1, k))
    requires j > 9 ==> NeedsMore(maxDigits, k, upper - delta0, upper)
    ensures Good(r, maxDigits, k, upper - delta0, upper, upper - diff)
    ensures r.NoPower? <==> NeedsMore(maxDigits, k, upper - delta0, upper)
  {
    if j > 9 {
      return NoPower;
    }
    FractionStopSuffices(buf, maxDigits, j, lo, delta, k, upper, delta0);
    r := StopInTable(buf, maxDigits, j, lo, delta, diff, k, upper, delta0);
  }

  method StopInTable(buf: seq<byte>, maxDigits: nat, j: nat, lo: u64, delta: u64, diff: u64,
                     k: nat, ghost upper: nat, ghost delta0: nat)
    returns (r: Generated)
    requires 32 <= k <= 60 && 0 < j <= 9 && |buf| <= maxDigits + 1 && diff <= delta0 < upper
    requires InFraction(buf, j, lo, delta, k, upper, delta0) && (lo < delta || |buf| > maxDigits)
    requires buf != [] ==> delta <= lo + Multiple(buf[|buf| - 1] - ZERO, Shl(1, k))
    ensures Good(r, maxDigits, k, upper - delta0, upper, upper - diff) && !r.NoPower?
  {
    ShlSixty(k);
    Monotone(diff, delta0, Pow10(j));
    MultipleIsProduct(diff, Pow10(j));
    if lo < delta {
      SomeDigit(buf, j, lo, delta, k, upper, delta0);
    }
    var scaledDiff: u64 := diff * Pow10(j);
    r := Round(buf, maxDigits, delta, lo, Shl(1, k), scaledDiff, 0 - j);
    FractionIsGood(r, buf, maxDigits, j, lo, delta, diff, scaledDiff, k, upper - delta0, upper, upper - diff);
  }

  lemma SomeDigit(buf: seq<byte>, j: nat, lo: nat, delta: nat, k: nat, upper: nat, delta0: nat)
    requires InFraction(buf, j, lo, delta, k, upper, delta0) && lo < delta && delta0 < upper
    ensures buf != []
  {
    Monotone(delta0, upper, Pow10(j));
  }

  lemma FractionStopped(buf: seq<byte>, maxDigits: nat, lo: nat, one: nat, delta: nat, scaledDiff: nat, scale: nat,
                        lower: nat, upper: nat, diff: nat)
    requires buf != [] && AllDigits(buf) && |buf| <= maxDigits + 1 && lower <= upper && diff <= upper - lower
             && lo < one
    requires Multiple(Value(buf), one) + lo == Multiple(upper, scale) && delta == Multiple(upper - lower, scale)
    requires scaledDiff == Multiple(diff, scale) && (lo < delta || |buf| > maxDigits)
    requires delta <= lo + Multiple(buf[|buf| - 1] - ZERO, one)
    requires Steps(lo, one, delta, scaledDiff) <= buf[|buf| - 1] - ZERO
    ensures Stopped(buf, maxDigits, one, lo, Multiple(upper, scale), delta, scaledDiff)
  {
    Monotone(diff, upper - lower, scale);
    Monotone(upper - lower, upper, scale);
  }

  lemma FractionIsGood(r: Generated, buf: seq<byte>, maxDigits: nat, j: nat, lo: nat, delta: nat, diff: nat,
                       scaledDiff: nat, k: nat, lower: nat, upper: nat, value: nat)
    requires 0 < j <= 9 && 0 < lower <= value <= upper && diff == upper - value && buf != [] && |buf| <= maxDigits + 1
    requires InFraction(buf, j, lo, delta, k, upper, upper - lower) && (lo < delta || |buf| > maxDigits)
    requires delta <= lo + Multiple(buf[|buf| - 1] - ZERO, Shl(1, k)) && scaledDiff == Multiple(diff, Pow10(j))
    requires IsRounded(r, buf, maxDigits, 0 - j, Shl(1, k), lo, delta, scaledDiff)
    ensures Good(r, maxDigits, k, lower, upper, value) && !r.NoPower?
  {
    FractionStopped(buf, maxDigits, lo, Shl(1, k), delta, scaledDiff, Pow10(j), lower, upper, diff);
    assert Unit(0 - j, k) == Shl(1, k) && Scale(0 - j) == Pow10(j);
    RoundedIsGood(r, buf, maxDigits, 0 - j, k, Shl(1, k), Pow10(j), lo, lower, upper, value, delta, scaledDiff);
  }

  /** The second loop of grisu2_gen_digits. */
  method FractionDigits(buf0: seq<byte>, maxDigits: nat, lo0: u64, delta0: u64, diff: u64, k: nat, ghost upper: nat)
    returns (r: Generated)
    requires 32 <= k <= 60 && |buf0| <= maxDigits && diff <= delta0 < lo0 && delta0 < upper
    requires Proper(buf0) && Multiple(Value(buf0), Shl(1, k)) + lo0 == upper && lo0 < Shl(1, k)
    ensures Good(r, maxDigits, k, upper - delta0, upper, upper - diff)
    ensures r.NoPower? <==> NeedsMore(maxDigits, k, upper - delta0, upper)
  {
    var buf, lo: u64, delta: u64, j: nat := buf0, lo0, delta0, 0;
    Unscaled(upper, delta0, diff);
    while true
      invariant InFraction(buf, j, lo, delta, k, upper, delta0) && |buf| <= maxDigits && delta <= lo
      invariant j > 9 ==> NeedsMore(maxDigits, k, upper - delta0, upper)
      decreases maxDigits - |buf|, Shl(1, k) - lo
    {
      if j == 9 {
        NineTooFew(buf, maxDigits, lo, delta, k, upper, delta0);
      }
      assert buf == [] ==> lo >= Pow10(j);
      buf, lo, delta := NextFraction(buf, lo, delta, k, j, upper, delta0);
      j := j + 1;
      if lo < delta || |buf| > maxDigits {
        r := StopFraction(buf, maxDigits, j, lo, delta, diff, k, upper, delta0);
        return;
      }
    }
  }

  /**
   * grisu2_gen_digits. When it stops with at most `maxDigits` digits they are the shortest decimal in the interval
   * above its lower end, and the closest to the value among those as short; every digit is 0..9 and no 64-bit
   * operation wraps. It goes past its table of powers if and only if nine fractional digits are too few and the lower
   * end is not a whole number, at which the first loop would stop.
   */
  method GenDigits(maxDigits: nat, hi: nat, lo: u64, exp: nat, delta: u64, diff: u64, k: nat) returns (r: Generated)
    requires 32 <= k <= 60 && exp <= 10 && hi < Pow10(exp) && lo < Shl(1, k)
    requires hi * Shl(1, k) + lo < TWO64 && diff <= delta < hi * Shl(1, k) + lo
    ensures var upper := hi * Shl(1, k) + lo;
            && Good(r, maxDigits, k, upper - delta, upper, upper - diff)
            && (r.NoPower? <==> NeedsMore(maxDigits, k, upper - delta, upper) && (upper - delta) % Shl(1, k) != 0)
  {
    MultipleIsProduct(hi, Shl(1, k));
    ghost var upper := hi * Shl(1, k) + lo;
    var done, buf := IntegerDigits(maxDigits, hi, lo, exp, delta, diff, k, upper);
    if done.Some? {
      return done.value;
    }
    r := FractionDigits(buf, maxDigits, lo, delta, diff, k, upper);
    MultipleModulo(Value(buf), Shl(1, k), lo - delta);
  }

  lemma ShlExactlySixty()
    ensures Shl(1, 60) == 0x1000_0000_0000_0000
  {
    ShlTen(0, 1);
    ShlTen(10, 0x400);
    ShlTen(20, 0x10_0000);
    ShlTen(30, 0x4000_0000);
    ShlTen(40, 0x100_0000_0000);
    ShlTen(50, 0x4_0000_0000_0000);
  }

  lemma BetweenMultiples(q: nat, unit: nat, lower: nat, upper: nat)
    requires Multiple(q, unit) <= lower && upper < Multiple(q + 1, unit)
    ensures NoneWithin(unit, lower, upper)
  {
    forall m: nat
      ensures !InUpper(m, unit, lower, upper)
    {
      if m <= q {
        Monotone(m, q, unit);
      } else {
        Monotone(q + 1, m, unit);
      }
    }
  }

  /**
   * Between 4 + 1000/2^60 and 4 + 2000/2^60, an interval as wide as that around a double, there is no decimal with nine
   * fractional digits, and 17 digits are allowed.
   */
  lemma NarrowInterval()
    ensures var one := 0x1000_0000_0000_0000;
            Shl(1, 60) == one && NeedsMore(17, 60, 4 * one + 1000, 4 * one + 2000) && (4 * one + 1000) % one != 0
  {
    var one := 0x1000_0000_0000_0000;
    ShlExactlySixty();
    PowersOfTen();
    MultipleIsProduct(4 * one + 1000, Pow10(9));
    MultipleIsProduct(4 * one + 2000, Pow10(9));
    MultipleIsProduct(4_000_000_000, one);
    MultipleIsProduct(4_000_000_001, one);
    BetweenMultiples(4_000_000_000, one, Multiple(4 * one + 1000, Pow10(9)), Multiple(4 * one + 2000, Pow10(9)));
    Pow10Grows(10, 17);
    MultipleIsProduct(Pow10(10), one);
    Monotone(Pow10(10), Pow10(17), one);
  }

  /** On that input digit generation goes past its table of powers. */
  method PastTheTable() returns (r: Generated)
    ensures r == NoPower
  {
    NarrowInterval();
    r := GenDigits(17, 4, 2000, 1, 1000, 500, 60);
  }
}
