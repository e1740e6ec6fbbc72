/** The handmade floating-point numbers of format-inl.h: f * 2^e with a 64-bit significand. */
module Fp {
  import opened Decimal

  const TWO32: nat := 0x1_0000_0000
  const TWO63: nat := 0x8000_0000_0000_0000
  const TWO64: nat := 0x1_0000_0000_0000_0000
  const IMPLICIT_BIT: nat := 0x10_0000_0000_0000

  type u64 = x: int | 0 <= x < 0x1_0000_0000_0000_0000

  datatype Float = Float(f: u64, e: int)

  /** `f` shifted left by `n` bits, without wrapping. */
  function Shl(f: nat, n: nat): (r: nat)
    ensures r >= f
    decreases n
  {
    if n == 0 then f else 2 * Shl(f, n - 1)
  }

  lemma {:induction false} ShlShl(f: nat, a: nat, b: nat)
    ensures Shl(f, a + b) == Shl(Shl(f, a), b)
    decreases b
  {
    if b > 0 {
      ShlShl(f, a, b - 1);
    }
  }

  lemma {:induction false} ShlSum(a: nat, b: nat, n: nat)
    ensures Shl(a + b, n) == Shl(a, n) + Shl(b, n)
    decreases n
  {
    if n > 0 {
      ShlSum(a, b, n - 1);
    }
  }

  lemma {:induction false} ShlTimes(f: nat, n: nat)
    ensures Shl(f, n) == f * Shl(1, n)
    decreases n
  {
    if n > 0 {
      ShlTimes(f, n - 1);
      assert 2 * (f * Shl(1, n - 1)) == f * (2 * Shl(1, n - 1));
    }
  }

  // ---------- multiplication ----------

  /** The second half of operator*, from the four 32-bit products; every operation is wrapped as a register would. */
  function Combine(ac: nat, bc: nat, ad: nat, bd: nat): u64 {
    var mid := Wrap64(bd / TWO32 + ad % TWO32 + bc % TWO32 + 0x8000_0000);
    Wrap64(ac + ad / TWO32 + bc / TWO32 + mid / TWO32)
  }

  /** operator*. */
  function Times(x: Float, y: Float): Float {
    var a, b := x.f / TWO32, x.f % TWO32;
    var c, d := y.f / TWO32, y.f % TWO32;
    Float(Combine(Wrap64(a * c), Wrap64(b * c), Wrap64(a * d), Wrap64(b * d)), x.e + y.e + 64)
  }

  lemma MulLe(a: nat, c: nat, m: nat)
    requires a <= m && c <= m
    ensures a * c <= m * m
  {
    assert m * m - a * c == (m - a) * m + a * (m - c);
  }

  lemma WrapFits(x: nat)
    requires x < TWO64
    ensures Wrap64(x) == x
  {
  }

  /** A quotient and remainder by 2^64. */
  lemma QuotientIs(x: nat, q: nat, r: nat)
    requires x == q * TWO64 + r && r < TWO64
    ensures x / TWO64 == q
  {
  }

  predicate Part(p: nat) {
    p <= 0xffff_fffe_0000_0001
  }

  lemma PartsFit(a: nat, c: nat)
    requires a < TWO32 && c < TWO32
    ensures Part(a * c) && Wrap64(a * c) == a * c
  {
    MulLe(a, c, 0xffff_ffff);
    WrapFits(a * c);
  }

  lemma CombineRounds(ac: nat, bc: nat, ad: nat, bd: nat)
    requires Part(ac) && Part(bc) && Part(ad) && Part(bd)
    ensures Combine(ac, bc, ad, bd) == (ac * TWO64 + (ad + bc) * TWO32 + bd + TWO63) / TWO64
  {
    var adh, adl, bch, bcl, bdh, bdl := ad / TWO32, ad % TWO32, bc / TWO32, bc % TWO32, bd / TWO32, bd % TWO32;
    var mid := bdh + adl + bcl + 0x8000_0000;
    WrapFits(mid);
    var q := ac + adh + bch + mid / TWO32;
    WrapFits(q);
    QuotientIs(ac * TWO64 + (ad + bc) * TWO32 + bd + TWO63, q, (mid % TWO32) * TWO32 + bdl);
  }

  lemma Expand(a: nat, b: nat, c: nat, d: nat)
    ensures (a * TWO32 + b) * (c * TWO32 + d) == (a * c) * TWO64 + (a * d + b * c) * TWO32 + b * d
  {
    var x := a * TWO32;
    assert (x + b) * (c * TWO32 + d) == x * (c * TWO32 + d) + b * (c * TWO32 + d);
    assert x * (c * TWO32 + d) == x * c * TWO32 + x * d;
    assert b * (c * TWO32 + d) == b * c * TWO32 + b * d;
    assert x * c == (a * c) * TWO32 && x * d == (a * d) * TWO32;
  }

  /** The product of the significands divided by 2^64, rounded half up; no operation on the way wraps. */
  lemma TimesRounds(x: Float, y: Float)
    ensures Times(x, y).f == (x.f * y.f + TWO63) / TWO64 && Times(x, y).e == x.e + y.e + 64
  {
    var a, b := x.f / TWO32, x.f % TWO32;
    var c, d := y.f / TWO32, y.f % TWO32;
    PartsFit(a, c);
    PartsFit(b, c);
    PartsFit(a, d);
    PartsFit(b, d);
    CombineRounds(a * c, b * c, a * d, b * d);
    Expand(a, b, c, d);
  }

  // ---------- normalization and boundaries ----------

  lemma TopBit(f: nat, bit: nat)
    requires bit > 0 && f < 2 * bit
    ensures (f / bit) % 2 == 0 <==> f < bit
  {
    if f < bit {
      assert f / bit == 0;
    } else {
      assert f / bit == 1;
    }
  }

  lemma ShlEleven(f: nat)
    ensures Shl(f, 10) == 1024 * f && Shl(f, 11) == 2048 * f
  {
    assert Shl(f, 2) == 4 * f;
    assert Shl(f, 4) == 16 * f;
    assert Shl(f, 6) == 64 * f;
    assert Shl(f, 8) == 256 * f;
  }

  function LeadingBit(shift: nat): nat
    requires shift <= 1
  {
    if shift == 0 then IMPLICIT_BIT else IMPLICIT_BIT * 2
  }

  lemma ShlToTop(f: nat, shift: nat)
    requires shift <= 1 && LeadingBit(shift) <= f < 2 * LeadingBit(shift)
    ensures TWO63 <= Shl(f, 11 - shift) < TWO64
  {
    ShlEleven(f);
  }

  /** normalize: shifts the leading bit, known to be at most bit 52 + `shift`, up to bit 63. */
  method Normalize(x: Float, shift: nat) returns (r: Float)
    requires shift <= 1 && 0 < x.f < 2 * LeadingBit(shift)
    ensures TWO63 <= r.f && r.e <= x.e - 11 + shift && r.f == Shl(x.f, x.e - r.e)
    ensures x.f >= LeadingBit(shift) ==> r.e == x.e - 11 + shift
  {
    var f, e := x.f, x.e;
    var bit := LeadingBit(shift);
    while (f / bit) % 2 == 0
      invariant 0 < f < 2 * bit && e <= x.e && f == Shl(x.f, x.e - e)
      invariant x.f >= bit ==> e == x.e
      decreases 2 * bit - f
    {
      TopBit(f, bit);
      f, e := Wrap64(f * 2), e - 1;
    }
    TopBit(f, bit);
    var offset := 64 - 52 - shift - 1;
    ShlToTop(f, shift);
    ShlShl(x.f, x.e - e, offset);
    r := Float(Wrap64(Shl(f, offset)), e - offset);
  }

  /** The exponent of the smallest doubles. */
  const MIN_EXPONENT: int := -1074

  /** What fp(double) produces from a positive double: subnormals have the smallest exponent. */
  predicate IsDouble(v: Float) {
    0 < v.f < 2 * IMPLICIT_BIT && v.e >= MIN_EXPONENT && (v.f < IMPLICIT_BIT ==> v.e == MIN_EXPONENT)
  }

  /** The double next below, or zero. */
  function Predecessor(v: Float): (p: Float)
    requires 0 < v.f < 2 * IMPLICIT_BIT
    ensures v.e - 1 <= p.e <= v.e
  {
    if v.f == IMPLICIT_BIT && v.e != MIN_EXPONENT then Float(2 * v.f - 1, v.e - 1) else Float(v.f - 1, v.e)
  }

  /** A double in units of the smallest one. */
  function Units(v: Float): nat
    requires v.e >= MIN_EXPONENT
  {
    Shl(v.f, v.e - MIN_EXPONENT)
  }

  /** The significand of the smallest normal double is the one that compute_boundaries takes for that of a power of two
      with doubles twice as dense below it. */
  predicate SmallestNormal(v: Float) {
    v.f == IMPLICIT_BIT && v.e == MIN_EXPONENT
  }

  /**
   * compute_boundaries: both boundaries at one exponent, the upper one normalized, neither losing a bit. In units of
   * 2^(upper.e) the upper boundary is exactly midway between the value and the next significand. The lower one is
   * exactly midway between the value and the double below it if and only if the value is not the smallest normal
   * double; there it is a quarter of the spacing below the value instead of half of it.
   */
  method ComputeBoundaries(v: Float) returns (lower: Float, upper: Float)
    requires 0 < v.f < 2 * IMPLICIT_BIT
    ensures lower.e == upper.e <= v.e - 11 && TWO63 <= upper.f
    ensures var n := v.e - upper.e;
            2 * upper.f == Shl(v.f, n) + Shl(v.f + 1, n)
    ensures var n, p := v.e - upper.e, Predecessor(v);
            2 * lower.f == Shl(v.f, n) + Shl(p.f, p.e - upper.e) <==> !SmallestNormal(v)
    ensures SmallestNormal(v) ==> lower.f + Shl(1, v.e - 2 - upper.e) == Shl(v.f, v.e - upper.e)
  {
    WrapFits(v.f * 4);
    WrapFits(v.f * 2);
    WrapFits(v.f * 2 + 1);
    lower := if v.f == IMPLICIT_BIT then Float(Wrap64(v.f * 4) - 1, v.e - 2) else Float(Wrap64(v.f * 2) - 1, v.e - 1);
    upper := Normalize(Float(Wrap64(Wrap64(v.f * 2) + 1), v.e - 1), 1);
    ghost var n := v.e - upper.e;
    UpperMidway(v.f, n);
    LowerExact(v, n, lower.f, lower.e - upper.e);
    WrapFits(Shl(lower.f, lower.e - upper.e));
    lower := Float(Wrap64(Shl(lower.f, lower.e - upper.e)), upper.e);
  }

  lemma Midway(a: nat, b: nat, n: nat)
    ensures 2 * Shl(a + b, n) == Shl(a, n + 1) + Shl(b, n + 1)
  {
    ShlSum(a, b, n);
  }

  lemma ShlMonotone(a: nat, b: nat, n: nat)
    requires a <= b
    ensures Shl(a, n) <= Shl(b, n)
    ensures a < b ==> Shl(a, n) < Shl(b, n)
  {
    ShlSum(a, b - a, n);
  }

  lemma ShlOnce(f: nat, n: nat)
    ensures Shl(2 * f, n) == Shl(f, n + 1)
  {
    ShlShl(f, 1, n);
    assert Shl(f, 1) == 2 * f;
  }

  lemma UpperMidway(f: nat, n: nat)
    requires n > 0
    ensures 2 * Shl(2 * f + 1, n - 1) == Shl(f, n) + Shl(f + 1, n)
  {
    Midway(f, f + 1, n - 1);
  }

  /** The significand and shift of the lower boundary: nearer when the significand is that of a power of two. */
  predicate LowerIs(f: nat, n: nat, lowerF: nat, shift: nat)
    requires f > 0 && n > 1
  {
    if f == IMPLICIT_BIT then lowerF == 4 * f - 1 && shift == n - 2 else lowerF == 2 * f - 1 && shift == n - 1
  }

  lemma LowerMidway(f: nat, n: nat, lowerF: nat, shift: nat)
    requires f > 0 && n > 1 && LowerIs(f, n, lowerF, shift)
    ensures 2 * Shl(lowerF, shift) == Shl(f, n) + if f == IMPLICIT_BIT then Shl(2 * f - 1, n - 1) else Shl(f - 1, n)
    ensures Shl(lowerF, shift) <= Shl(2 * f + 1, n - 1)
  {
    if f == IMPLICIT_BIT {
      Midway(2 * f, 2 * f - 1, n - 2);
      ShlOnce(f, n - 1);
      ShlOnce(2 * f + 1, n - 2);
      ShlMonotone(4 * f - 1, 2 * (2 * f + 1), n - 2);
    } else {
      Midway(f, f - 1, n - 1);
      ShlMonotone(2 * f - 1, 2 * f + 1, n - 1);
    }
  }

  /** Where the lower boundary misses the middle. */
  lemma LowerExact(v: Float, n: nat, lowerF: nat, shift: nat)
    requires 0 < v.f < 2 * IMPLICIT_BIT && n > 1 && LowerIs(v.f, n, lowerF, shift)
    ensures Shl(lowerF, shift) <= Shl(2 * v.f + 1, n - 1)
    ensures var p := Predecessor(v);
            2 * Shl(lowerF, shift) == Shl(v.f, n) + Shl(p.f, n + p.e - v.e) <==> !SmallestNormal(v)
    ensures SmallestNormal(v) ==> Shl(lowerF, shift) + Shl(1, n - 2) == Shl(v.f, n)
  {
    LowerMidway(v.f, n, lowerF, shift);
    if SmallestNormal(v) {
      ShlOnce(v.f - 1, n - 1);
      ShlMonotone(2 * (v.f - 1), 2 * v.f - 1, n - 1);
      ShlSum(4 * v.f - 1, 1, n - 2);
      ShlOnce(2 * v.f, n - 2);
      ShlOnce(v.f, n - 1);
    }
  }

  lemma ShlDeeper(f: nat, a: nat, b: nat)
    requires a <= b
    ensures Shl(f, a) <= Shl(f, b)
  {
    ShlShl(f, a, b - a);
  }

  /** No double lies between one and its predecessor. */
  lemma PredecessorIsNext(v: Float, w: Float)
    requires IsDouble(v) && IsDouble(w) && Units(w) < Units(v)
    ensures Units(w) <= Units(Predecessor(v)) < Units(v)
  {
    var p, i, j := Predecessor(v), v.e - MIN_EXPONENT, w.e - MIN_EXPONENT;
    if p.e < v.e {
      ShlOnce(v.f, i - 1);
      ShlMonotone(p.f, 2 * v.f, i - 1);
    } else {
      ShlMonotone(p.f, v.f, i);
    }
    if j > i {
      LargerExponent(v, w);
    } else if j == i {
      ShlOrder(w.f, v.f, i);
      ShlMonotone(w.f, p.f, i);
    } else {
      ShlMonotone(w.f, 2 * IMPLICIT_BIT - 1, j);
      ShlDeeper(2 * IMPLICIT_BIT - 1, j, i - 1);
      if p.e == v.e {
        ShlMonotone(2 * IMPLICIT_BIT - 1, 2 * p.f, i - 1);
        ShlOnce(p.f, i - 1);
      }
    }
  }

  lemma ShlOrder(a: nat, b: nat, n: nat)
    requires Shl(a, n) < Shl(b, n)
    ensures a < b
  {
    if b <= a {
      ShlMonotone(b, a, n);
    }
  }

  lemma LargerExponent(v: Float, w: Float)
    requires IsDouble(v) && IsDouble(w) && v.e < w.e
    ensures Units(v) < Units(w)
  {
    var i, j := v.e - MIN_EXPONENT, w.e - MIN_EXPONENT;
    ShlMonotone(v.f, 2 * w.f, i);
    ShlOnce(w.f, i);
    ShlDeeper(w.f, i + 1, j);
  }
}
