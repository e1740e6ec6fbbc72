/** Decimal text of integers: string2ll (read.c), sdsll2str (sds.c) and countDigits (hiredis.c). */
module Decimal {
  import opened Bytes

  const INT64_MAX: int := 0x7fff_ffff_ffff_ffff
  const INT64_MIN: int := -0x8000_0000_0000_0000
  const UINT64_MAX: int := 0xffff_ffff_ffff_ffff
  const INT_MAX: int := 0x7fff_ffff
  const INT_MIN: int := -0x8000_0000

  predicate InInt64(v: int) {
    INT64_MIN <= v <= INT64_MAX
  }

  /** What a 64-bit unsigned register holds after computing `v`. */
  function Wrap64(v: int): nat {
    v % 0x1_0000_0000_0000_0000
  }

  /** What a 64-bit signed register holds after computing `v` in two's complement. */
  function Signed64(v: int): (r: int)
    ensures InInt64(r)
    ensures InInt64(v) ==> r == v
  {
    var w := Wrap64(v);
    if w > INT64_MAX then w - 0x1_0000_0000_0000_0000 else w
  }

  predicate InInt(v: int) {
    INT_MIN <= v <= INT_MAX
  }

  /** What a C int holds after `v` has been assigned to it, in two's complement. */
  function Signed32(v: int): (r: int)
    ensures InInt(r) && (InInt(v) ==> r == v)
    ensures INT_MAX < v < 0x1_0000_0000 ==> r == v - 0x1_0000_0000
  {
    var w := v % 0x1_0000_0000;
    if w > INT_MAX then w - 0x1_0000_0000 else w
  }

  lemma DivMod(n: nat, m: nat, q: nat, r: nat)
    requires r < m && n == m * q + r
    ensures n / m == q && n % m == r
  {
    var d := n / m - q;
    assert n == m * (n / m) + n % m;
    assert m * d == r - n % m;
    Outside(m, d);
  }

  lemma Outside(m: nat, d: int)
    ensures (d >= 1 ==> m * d >= m) && (d <= -1 ==> m * d + m <= 0)
  {
  }

  /** The decimal digits of `n`, without leading zeros. */
  function Digits(n: nat): (s: seq<byte>)
    ensures |s| >= 1
  {
    if n < 10 then [ZERO + n] else Digits(n / 10) + [ZERO + n % 10]
  }

  /** The decimal text of `v`, as printf's %lld writes it. */
  function Text(v: int): seq<byte> {
    if v < 0 then [MINUS] + Digits(-v) else Digits(v)
  }

  function Value(s: seq<byte>): nat
    requires AllDigits(s)
  {
    if s == [] then 0 else Value(s[..|s| - 1]) * 10 + (s[|s| - 1] - ZERO)
  }

  predicate CanonicalNat(s: seq<byte>) {
    |s| >= 1 && AllDigits(s) && (s[0] == ZERO ==> |s| == 1)
  }

  /** The signed 64-bit number that the whole of `s` spells canonically, if any. */
  function Int64Of(s: seq<byte>): Option<int> {
    if CanonicalNat(s) then
      if Value(s) <= INT64_MAX then Some(Value(s)) else None
    else if |s| >= 2 && s[0] == MINUS && s[1] != ZERO && CanonicalNat(s[1..]) then
      var v := 0 - Value(s[1..]);
      if v >= INT64_MIN then Some(v) else None
    else None
  }

  lemma {:induction false} DigitsDenote(n: nat)
    ensures CanonicalNat(Digits(n)) && Value(Digits(n)) == n
    ensures n > 0 ==> Digits(n)[0] != ZERO
  {
    if n >= 10 {
      DigitsDenote(n / 10);
      var s := Digits(n / 10);
      assert (s + [ZERO + n % 10])[..|s|] == s;
    } else {
      assert [ZERO + n][..0] == [];
    }
  }

  lemma {:induction false} CanonicalIsDigits(s: seq<byte>)
    requires CanonicalNat(s)
    ensures Digits(Value(s)) == s
    ensures s[0] != ZERO ==> Value(s) > 0
  {
    var t := s[..|s| - 1];
    assert s == t + [s[|s| - 1]];
    if t != [] {
      CanonicalIsDigits(t);
    }
  }

  /** Int64Of accepts exactly the decimal texts of the 64-bit signed values. */
  lemma Int64OfText(s: seq<byte>, v: int)
    ensures Int64Of(s) == Some(v) <==> InInt64(v) && s == Text(v)
  {
    if InInt64(v) && s == Text(v) {
      DigitsDenote(if v < 0 then -v else v);
      if v < 0 {
        assert s[1..] == Digits(-v);
      }
    }
    if Int64Of(s) == Some(v) {
      if CanonicalNat(s) {
        CanonicalIsDigits(s);
      } else {
        CanonicalIsDigits(s[1..]);
        assert s == [MINUS] + s[1..];
      }
    }
  }

  /** More digits on the right never make the value smaller. */
  lemma {:induction false} ValuePrefix(s: seq<byte>, k: nat)
    requires AllDigits(s) && k <= |s|
    ensures Value(s[..k]) <= Value(s)
  {
    if k < |s| {
      ValuePrefix(s[..|s| - 1], k);
      assert s[..|s| - 1][..k] == s[..k];
    } else {
      assert s[..k] == s;
    }
  }

  /** Strict text-to-number conversion, with the 64-bit unsigned accumulator the source uses. */
  method String2ll(s: seq<byte>) returns (r: Option<int>)
    ensures r == Int64Of(s)
  {
    var plen := 0;
    var negative := false;
    if plen == |s| {
      return None;
    }
    if |s| == 1 && s[0] == ZERO {
      assert s[..|s| - 1] == [];
      assert Value(s) == 0;
      return Some(0);
    }
    if s[0] == MINUS {
      negative := true;
      plen := 1;
      if plen == |s| {
        return None;
      }
    }
    if !(49 <= s[plen] <= 57) {
      return None;
    }
    ghost var d := s[plen..];
    var v, ok := Accumulate(s, plen);
    if !ok {
      return None;
    }
    if negative {
      if v > Wrap64(-(INT64_MIN + 1)) + 1 {
        return None;
      }
      // the unsigned negation, read back as a signed register
      var w: int := Wrap64(0 - v);
      return Some(if w > INT64_MAX then w - (UINT64_MAX + 1) else w);
    } else {
      assert d == s;
      if v > INT64_MAX {
        return None;
      }
      return Some(v);
    }
  }

  /** The digit loop: `ok` when every byte from `start` on is a digit and no step left 64 bits. */
  method Accumulate(s: seq<byte>, start: nat) returns (v: nat, ok: bool)
    requires start < |s| && IsDigit(s[start])
    ensures ok <==> AllDigits(s[start..]) && Value(s[start..]) <= UINT64_MAX
    ensures ok ==> v == Value(s[start..])
  {
    ghost var d := s[start..];
    v := s[start] - ZERO;
    var plen := start + 1;
    assert d[..1] == [d[0]] && d[..1][..0] == [];
    while plen < |s| && IsDigit(s[plen])
      invariant start < plen <= |s|
      invariant AllDigits(d[..plen - start])
      invariant v == Value(d[..plen - start]) <= UINT64_MAX
    {
      ghost var k := plen - start;
      assert d[..k + 1][..k] == d[..k] && d[k] == s[plen];
      if v > UINT64_MAX / 10 || Wrap64(v * 10) > UINT64_MAX - (s[plen] - ZERO) {
        if AllDigits(d) { ValuePrefix(d, k + 1); }
        return v, false;
      }
      v := Wrap64(v * 10) + (s[plen] - ZERO);
      plen := plen + 1;
    }
    if plen < |s| {
      assert d[plen - start] == s[plen];
      return v, false;
    }
    assert d[..|d|] == d;
    return v, true;
  }

  lemma DigitsLength(n: nat)
    ensures n < 10 ==> |Digits(n)| == 1
    ensures 10 <= n < 100 ==> |Digits(n)| == 2
    ensures 100 <= n < 1000 ==> |Digits(n)| == 3
    ensures 1000 <= n < 10000 ==> |Digits(n)| == 4
    ensures n >= 10000 ==> |Digits(n)| == |Digits(n / 10000)| + 4
  {
    if n >= 10 { assert |Digits(n)| == |Digits(n / 10)| + 1; }
    if n >= 100 { assert n / 10 / 10 == n / 100; assert |Digits(n / 10)| == |Digits(n / 100)| + 1; }
    if n >= 1000 { assert n / 100 / 10 == n / 1000; assert |Digits(n / 100)| == |Digits(n / 1000)| + 1; }
    if n >= 10000 { assert n / 1000 / 10 == n / 10000; assert |Digits(n / 1000)| == |Digits(n / 10000)| + 1; }
  }

  /** countDigits: four digits are peeled off per round. */
  method CountDigits(value: nat) returns (result: nat)
    ensures result == |Digits(value)|
  {
    var v := value;
    result := 1;
    while true
      invariant result + |Digits(v)| == |Digits(value)| + 1
      decreases v
    {
      DigitsLength(v);
      if v < 10 { return result; }
      if v < 100 { return result + 1; }
      if v < 1000 { return result + 2; }
      if v < 10000 { return result + 3; }
      v := v / 10000;
      result := result + 4;
    }
  }

  /** At most nineteen digits are needed for a magnitude that fits 63 bits, or is 2^63. */
  lemma Int64Length(n: nat)
    requires n <= -INT64_MIN
    ensures |Digits(n)| <= 19
  {
    var m := n / 10000;
    DigitsLength(n);
    DigitsLength(m);
    DigitsLength(m / 10000);
    DigitsLength(m / 10000 / 10000);
    DigitsLength(m / 10000 / 10000 / 10000);
  }

  /** sdsll2str: digits are produced backwards into `s`, then reversed in place. */
  method LlToStr(s: array<byte>, value: int) returns (l: nat)
    requires s.Length >= 21 && InInt64(value)
    modifies s
    ensures l <= 20 && s[..l] == Text(value) && s[l] == 0
    ensures forall k :: l < k < s.Length ==> s[k] == old(s[k])
  {
    // two's-complement negation, so that the smallest value is covered too
    var v: nat := if value < 0 then Wrap64(0 - value) else value;
    Int64Length(v);
    l := DigitsBackwards(s, v);
    if value < 0 {
      ghost var before := s[..l];
      s[l] := MINUS;
      assert s[..l + 1] == before + [MINUS];
      ReversedSnoc(before, MINUS);
      l := l + 1;
    }
    ghost var text := s[..l];
    assert Reversed(text) == Text(value);
    s[l] := 0;
    assert s[..l] == text;
    ReverseInPlace(s, l);
  }

  /** The digits still to be written when `v` remains to be divided. */
  function Leading(v: nat): seq<byte> {
    if v == 0 then [] else Digits(v)
  }

  lemma PeelDigit(v: nat, r: seq<byte>)
    requires v > 0
    ensures Leading(v) + r == Leading(v / 10) + ([ZERO + v % 10] + r)
    ensures |Leading(v)| == |Leading(v / 10)| + 1
  {
    assert Leading(v) == Leading(v / 10) + [ZERO + v % 10];
  }

  method DigitsBackwards(s: array<byte>, n: nat) returns (p: nat)
    requires s.Length >= |Digits(n)|
    modifies s
    ensures p == |Digits(n)| && Reversed(s[..p]) == Digits(n)
    ensures forall k :: p <= k < s.Length ==> s[k] == old(s[k])
  {
    var v := n;
    s[0] := ZERO + v % 10;
    v, p := v / 10, 1;
    assert s[..1] == [s[0]] && Reversed(s[..1]) == [s[0]];
    while v != 0
      invariant 1 <= p && p + |Leading(v)| == |Digits(n)|
      invariant Leading(v) + Reversed(s[..p]) == Digits(n)
      invariant forall k :: p <= k < s.Length ==> s[k] == old(s[k])
    {
      PeelDigit(v, Reversed(s[..p]));
      v, p := AppendDigit(s, p, v);
    }
  }

  method AppendDigit(s: array<byte>, p: nat, v: nat) returns (rest: nat, q: nat)
    requires p < s.Length
    modifies s
    ensures q == p + 1 && rest == v / 10
    ensures Reversed(s[..q]) == [ZERO + v % 10] + Reversed(old(s[..p]))
    ensures forall k :: q <= k < s.Length ==> s[k] == old(s[k])
  {
    s[p] := ZERO + v % 10;
    assert s[..p + 1] == old(s[..p]) + [s[p]];
    ReversedSnoc(old(s[..p]), s[p]);
    return v / 10, p + 1;
  }

  method ReverseInPlace(s: array<byte>, l: nat)
    requires l <= s.Length
    modifies s
    ensures s[..l] == Reversed(old(s[..l]))
    ensures forall k :: l <= k < s.Length ==> s[k] == old(s[k])
  {
    var i, j := 0, l - 1;
    while i < j
      invariant 0 <= i <= l && j == l - 1 - i && i <= j + 2
      invariant forall k :: 0 <= k < i ==> s[k] == old(s[l - 1 - k]) && s[l - 1 - k] == old(s[k])
      invariant forall k :: i <= k <= j ==> s[k] == old(s[k])
      invariant forall k :: l <= k < s.Length ==> s[k] == old(s[k])
    {
      s[i], s[j] := s[j], s[i];
      i, j := i + 1, j - 1;
    }
    forall k | 0 <= k < l
      ensures s[..l][k] == Reversed(old(s[..l]))[k]
    {
      ReversedAt(old(s[..l]), k);
    }
  }

  /** sdsll2str and string2ll are inverse to each other on all 64-bit signed values. */
  lemma TextRoundTrip(v: int, s: seq<byte>)
    requires InInt64(v)
    ensures Int64Of(Text(v)) == Some(v)
    ensures Int64Of(s).Some? ==> Text(Int64Of(s).value) == s
  {
    Int64OfText(Text(v), v);
    if Int64Of(s).Some? {
      Int64OfText(s, Int64Of(s).value);
    }
  }
}
