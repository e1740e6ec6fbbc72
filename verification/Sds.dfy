/** The dynamic strings of sds.c and sds.h: five header encodings over one buffer, and splitting and joining. */
module Sds {
  import opened Bytes
  import opened Decimal

  const MAX_PREALLOC: nat := 0x10_0000

  /** The header type stored in the flags byte. */
  datatype Header = Type5 | Type8 | Type16 | Type32 | Type64

  /** The largest length that the fields of a header can hold. */
  function Limit(h: Header): nat {
    match h
    case Type5 => 31
    case Type8 => 0xff
    case Type16 => 0xffff
    case Type32 => 0xffff_ffff
    case Type64 => UINT64_MAX
  }

  /** sdsReqType. */
  function ReqType(size: nat): (h: Header)
    requires size <= UINT64_MAX
    ensures size <= Limit(h)
  {
    if size < 32 then Type5
    else if size < 0xff then Type8
    else if size < 0xffff then Type16
    else if size < 0xffff_ffff then Type32
    else Type64
  }

  /** The positions that sdsrange keeps: `start` to `end` inclusive, negative ones counted from the end. */
  function FromEnd(i: int, len: nat): nat {
    if i >= 0 then i else if len + i >= 0 then len + i else 0
  }

  function Kept(s: seq<byte>, start: int, end: int): (r: seq<byte>)
    ensures |r| <= |s| && forall b :: b in r ==> b in s
  {
    var lo, hi := FromEnd(start, |s|), FromEnd(end, |s|);
    var stop := if hi < |s| then hi + 1 else |s|;
    if lo < stop then s[lo..stop] else []
  }

  /** The length as sdsrange reads it, an int; a negative one leaves nothing in range. */
  function SignedLength(len: nat): (n: nat)
    ensures n <= len && n <= INT_MAX && (n == len <==> len <= INT_MAX)
  {
    if Signed32(len) > 0 then Signed32(len) else 0
  }

  lemma SignedPredecessor(len: nat)
    requires len > 0
    ensures SignedLength(len) > 0 ==> Signed32(len) == SignedLength(len) && Signed32(len - 1) == SignedLength(len) - 1
    ensures SignedLength(len) == 0 ==> Signed32(len) <= 0
  {
  }

  /** Both ends are kept; one counted from the end is the same place; what lies outside is left out. */
  lemma KeptExactly(s: seq<byte>, i: int, j: int)
    ensures 0 <= i <= j < |s| ==> Kept(s, i, j) == s[i..j + 1]
    ensures 0 <= i < |s| <= j ==> Kept(s, i, j) == s[i..]
    ensures 0 <= j < i || i >= |s| ==> Kept(s, i, j) == []
    ensures -|s| <= i < 0 ==> Kept(s, i, j) == Kept(s, |s| + i, j)
    ensures -|s| <= j < 0 ==> Kept(s, i, j) == Kept(s, i, |s| + j)
    ensures i < -|s| ==> Kept(s, i, j) == Kept(s, 0, j)
    ensures j < -|s| ==> Kept(s, i, j) == Kept(s, i, 0)
  {
  }

  class Sds {
    var header: Header
    var len: nat
    var alloc: nat
    var buf: array<byte>

    /** A type 5 header has no room for `alloc`: its capacity is its length. */
    ghost predicate Valid()
      reads this, buf
    {
      && len <= alloc <= Limit(header) && (header == Type5 ==> alloc == len)
      && alloc < buf.Length && buf[len] == 0
    }

    ghost function Contents(): seq<byte>
      reads this, buf
      requires Valid()
    {
      buf[..len]
    }

    /** sdsnewlen. */
    constructor (init: seq<byte>)
      requires |init| < UINT64_MAX
      ensures Valid() && Contents() == init && fresh(buf)
      ensures alloc == |init| && (init == [] ==> header == Type8)
    {
      header := if |init| == 0 then Type8 else ReqType(|init|);
      len, alloc := |init|, |init|;
      buf := new byte[|init| + 1](i => if 0 <= i < |init| then init[i] else 0);
      new;
      assert buf[..len] == init;
    }

    /** Reallocates the buffer with another header, keeping the string. */
    method Reallocate(h: Header, capacity: nat)
      requires Valid() && len <= capacity <= Limit(h) && (h == Type5 ==> capacity == len)
      modifies this
      ensures Valid() && Contents() == old(Contents()) && header == h && alloc == capacity && fresh(buf)
    {
      var size, from := len, buf;
      var newsh := new byte[capacity + 1](i => 0);
      for i := 0 to size
        invariant newsh[..i] == from[..i] && newsh[size] == 0
        invariant unchanged(this) && unchanged(from)
      {
        newsh[i] := from[i];
      }
      header, alloc, buf := h, capacity, newsh;
    }

    /** sdsMakeRoomFor. */
    method MakeRoomFor(addlen: nat)
      requires Valid() && len + addlen <= INT64_MAX
      modifies this
      ensures Valid() && Contents() == old(Contents()) && alloc - len >= addlen
      ensures if old(alloc - len) >= addlen then buf == old(buf) else fresh(buf) && header != Type5
      ensures old(alloc - len) < addlen ==>
                alloc == if len + addlen < 0x10_0000 then 2 * (len + addlen) else len + addlen + 0x10_0000
    {
      if alloc - len >= addlen {
        return;
      }
      var newlen := len + addlen;
      newlen := if newlen < MAX_PREALLOC then newlen * 2 else newlen + MAX_PREALLOC;
      var h := ReqType(newlen);
      if h == Type5 {
        h := Type8;
      }
      Reallocate(h, newlen);
    }

    /** sdsRemoveFreeSpace. */
    method RemoveFreeSpace()
      requires Valid()
      modifies this
      ensures Valid() && Contents() == old(Contents()) && alloc == len && fresh(buf)
    {
      Reallocate(ReqType(len), len);
    }

    /** sdssetlen, with the terminating zero; a type 5 header forgets the room behind it. */
    method SetLen(newlen: nat)
      requires newlen <= alloc <= Limit(header) && alloc < buf.Length
      modifies `len, `alloc, buf
      ensures Valid() && Contents() == old(buf[..newlen]) && (header != Type5 ==> alloc == old(alloc))
    {
      buf[newlen] := 0;
      len := newlen;
      if header == Type5 {
        alloc := newlen;
      }
      assert buf[..newlen] == old(buf[..newlen]);
    }

    /** memcpy of `t` to position `at`. */
    method Write(at: nat, t: seq<byte>)
      requires at + |t| <= buf.Length
      modifies buf
      ensures buf[..at + |t|] == old(buf[..at]) + t
    {
      ghost var before := buf[..at];
      for i := 0 to |t|
        invariant buf[..at] == before && buf[at..at + i] == t[..i]
      {
        buf[at + i] := t[i];
      }
      assert t[..|t|] == t;
      assert buf[..at + |t|] == buf[..at] + buf[at..at + |t|];
    }

    /** sdscatlen. */
    method CatLen(t: seq<byte>)
      requires Valid() && len + |t| <= INT64_MAX
      modifies this, buf
      ensures Valid() && Contents() == old(Contents()) + t
    {
      var curlen := len;
      MakeRoomFor(|t|);
      Write(curlen, t);
      SetLen(curlen + |t|);
    }

    /** sdscpylen. */
    method CpyLen(t: seq<byte>)
      requires Valid() && |t| <= INT64_MAX
      modifies this, buf
      ensures Valid() && Contents() == t
    {
      if alloc < |t| {
        MakeRoomFor(|t| - len);
      }
      Write(0, t);
      assert buf[..0] == [];
      SetLen(|t|);
    }

    /** memmove of `n` bytes from `start` to the front. */
    method MoveFront(start: nat, n: nat)
      requires start + n <= buf.Length
      modifies buf
      ensures buf[..n] == old(buf[start..start + n])
    {
      for i := 0 to n
        invariant buf[..i] == old(buf[start..start + n])[..i]
        invariant forall j :: start + i <= j < buf.Length ==> buf[j] == old(buf[j])
      {
        buf[i] := buf[start + i];
      }
    }

    /** The first half of sdsrange, in C ints: where the kept bytes start, and how many there are. */
    method RangeBounds(start0: int, end0: int, ghost s: seq<byte>) returns (start: nat, newlen: nat)
      requires 0 < len && InInt(start0) && InInt(end0) && |s| == SignedLength(len)
      ensures start + newlen <= SignedLength(len) || newlen == 0
      ensures Kept(s, start0, end0) == if newlen == 0 then [] else s[start..start + newlen]
    {
      SignedPredecessor(len);
      start := FromEndSigned(start0);
      var end := FromEndSigned(end0);
      var n: int := if start > end then 0 else end - start + 1;
      if n != 0 {
        if start >= Signed32(len) {
          n := 0;
        } else if end >= Signed32(len) {
          end := Signed32(len - 1);
          n := if start > end then 0 else end - start + 1;
        }
      } else {
        start := 0;
      }
      newlen := n;
    }

    method FromEndSigned(i0: int) returns (i: nat)
      requires 0 < len && InInt(i0)
      ensures SignedLength(len) > 0 || i0 >= 0 ==> i == FromEnd(i0, SignedLength(len))
    {
      i := if i0 >= 0 then i0 else if Signed32(len + i0) >= 0 then Signed32(len + i0) else 0;
    }

    /** sdsrange: the bytes kept are those of the string cut to the length that an int makes of its length. */
    method Range(start0: int, end0: int)
      requires Valid() && InInt(start0) && InInt(end0)
      modifies `len, `alloc, buf
      ensures Valid() && Contents() == Kept(old(Contents())[..SignedLength(old(len))], start0, end0)
      ensures 0 <= start0 <= end0 < old(len) <= INT_MAX ==> Contents() == old(Contents())[start0..end0 + 1]
      ensures 0 <= start0 < old(len) <= INT_MAX && (end0 == -1 || old(len) <= end0) ==>
                Contents() == old(Contents())[start0..]
      ensures 0 <= end0 < start0 || old(len) <= start0 ==> Contents() == []
    {
      if len == 0 {
        assert Contents() == [];
        return;
      }
      ghost var all := Contents();
      ghost var s := all[..SignedLength(len)];
      RangeIs(all, start0, end0);
      var start, newlen := RangeBounds(start0, end0, s);
      if newlen != 0 {
        SliceOfFront(all, |s|, start, start + newlen);
      }
      Keep(start, newlen);
    }

    /** The second half: the kept bytes move to the front. */
    method Keep(start: nat, newlen: nat)
      requires Valid() && (newlen != 0 ==> start + newlen <= len)
      modifies `len, `alloc, buf
      ensures Valid() && Contents() == if newlen == 0 then [] else old(Contents()[start..start + newlen])
    {
      ghost var b := buf[..];
      if newlen != 0 {
        assert b[..len][start..start + newlen] == b[start..start + newlen];
      }
      if start != 0 && newlen != 0 {
        MoveFront(start, newlen);
      }
      SetLen(newlen);
    }
  }

  /** What sdsrange keeps of a string whose length is an int, and of none. */
  lemma RangeIs(all: seq<byte>, i: int, j: int)
    ensures var kept := Kept(all[..SignedLength(|all|)], i, j);
            && (0 <= i <= j < |all| <= INT_MAX ==> kept == all[i..j + 1])
            && (0 <= i < |all| <= INT_MAX && (j == -1 || |all| <= j) ==> kept == all[i..])
            && (0 <= j < i || |all| <= i ==> kept == [])
  {
    var s := all[..SignedLength(|all|)];
    KeptExactly(s, i, j);
    KeptExactly(s, i, |s| - 1);
    assert |all| <= INT_MAX ==> s == all;
  }

  lemma SliceOfFront(s: seq<byte>, m: nat, i: nat, j: nat)
    requires i <= j <= m <= |s|
    ensures s[..m][i..j] == s[i..j]
  {
  }

  /** A range is kept rightly, whatever its ends, if and only if the length is an int. */
  lemma RangeExact(s: seq<byte>)
    ensures |s| <= INT_MAX
            <==> forall i, j :: InInt(i) && InInt(j) ==> Kept(s[..SignedLength(|s|)], i, j) == Kept(s, i, j)
  {
    if |s| <= INT_MAX {
      assert s[..SignedLength(|s|)] == s;
    } else {
      var t := s[..SignedLength(|s|)];
      assert Kept(s, 0, -1) == s && |Kept(t, 0, -1)| <= |t| <= INT_MAX;
    }
  }

  // ---------- splitting and joining ----------

  function Join(tokens: seq<seq<byte>>, sep: seq<byte>): seq<byte> {
    if tokens == [] then []
    else if |tokens| == 1 then tokens[0]
    else tokens[0] + sep + Join(tokens[1..], sep)
  }

  /** `sep` stands at position `p` of `s`. */
  predicate At(s: seq<byte>, sep: seq<byte>, p: nat) {
    p + |sep| <= |s| && s[p..p + |sep|] == sep
  }

  ghost predicate Free(s: seq<byte>, sep: seq<byte>) {
    forall p: nat :: !At(s, sep, p)
  }

  lemma {:induction false} JoinSnoc(tokens: seq<seq<byte>>, sep: seq<byte>, a: seq<byte>, b: seq<byte>)
    ensures Join(tokens + [a, b], sep) == Join(tokens + [a + sep + b], sep)
  {
    if tokens == [] {
      assert [] + [a, b] == [a, b] && [a, b][1..] == [b] && [] + [a + sep + b] == [a + sep + b];
    } else {
      JoinSnoc(tokens[1..], sep, a, b);
      assert (tokens + [a, b])[1..] == tokens[1..] + [a, b];
      assert (tokens + [a + sep + b])[1..] == tokens[1..] + [a + sep + b];
    }
  }

  /** Without a separator, joining is concatenation; and each part is followed by one separator but the last. */
  lemma {:induction false} JoinIs(tokens: seq<seq<byte>>, sep: seq<byte>, last: seq<byte>)
    ensures Join(tokens, []) == Concat(tokens)
    ensures Join(tokens + [last], sep) == Concat(seq(|tokens|, i requires 0 <= i < |tokens| => tokens[i] + sep)) + last
  {
    var parts := seq(|tokens|, i requires 0 <= i < |tokens| => tokens[i] + sep);
    if tokens == [] {
      assert tokens + [last] == [last] && Concat(parts) == [] && [] + last == last;
    } else {
      JoinIs(tokens[1..], sep, last);
      assert (tokens + [last])[1..] == tokens[1..] + [last];
      var more := seq(|tokens| - 1, i requires 0 <= i < |tokens| - 1 => tokens[1..][i] + sep);
      assert parts[1..] == more;
      assert Concat(parts) == parts[0] + Concat(more);
      Regroup(parts[0], Concat(more), last);
      if |tokens| == 1 {
        assert tokens[1..] == [] && Concat([]) == [] && tokens[0] + [] == tokens[0];
      } else {
        assert tokens[0] + [] + Join(tokens[1..], []) == tokens[0] + Join(tokens[1..], []);
      }
    }
  }

  /** sdsjoinsds. */
  method JoinSds(argv: seq<seq<byte>>, sep: seq<byte>) returns (join: seq<byte>)
    ensures join == Join(argv, sep)
  {
    join := [];
    if argv == [] {
      return;
    }
    for j := 0 to |argv|
      invariant j < |argv| ==> join + Join(argv[j..], sep) == Join(argv, sep)
      invariant j == |argv| ==> join == Join(argv, sep)
    {
      assert argv[j..][1..] == argv[j + 1..] && argv[j..][0] == argv[j];
      ghost var before := join;
      join := join + argv[j];
      if j != |argv| - 1 {
        join := join + sep;
        assert before + (argv[j] + sep + Join(argv[j + 1..], sep)) == join + Join(argv[j + 1..], sep);
      }
    }
  }

  /**
   * Joining the tokens gives the string back, no token holds the separator, and each but the last ends at the first
   * separator that follows.
   */
  ghost predicate IsSplit(tokens: seq<seq<byte>>, s: seq<byte>, sep: seq<byte>) {
    && Join(tokens, sep) == s && tokens != []
    && (forall t :: t in tokens ==> Free(t, sep))
    && Leftmost(tokens, s, sep, 0)
  }

  /** sdssplitlen: None for an empty separator, and no tokens for an empty string. */
  method SplitLen(s: seq<byte>, sep: seq<byte>) returns (tokens: Option<seq<seq<byte>>>)
    ensures tokens == None <==> |sep| < 1
    ensures tokens.Some? && s == [] ==> tokens.value == []
    ensures tokens.Some? && s != [] ==> IsSplit(tokens.value, s, sep)
  {
    if |sep| < 1 {
      return None;
    }
    var elements: seq<seq<byte>> := [];
    if |s| == 0 {
      return Some(elements);
    }
    var start: nat, j: nat := 0, 0;
    SplittingStarts(s, sep);
    while j < |s| - (|sep| - 1)
      invariant Splitting(elements, s, sep, start, j)
      decreases |s| - j
    {
      if s[j..j + |sep|] == sep {
        SplittingOn(elements, s, sep, start, j);
        elements := elements + [s[start..j]];
        start := j + |sep|;
        j := j + |sep| - 1;
      } else {
        SplittingPast(elements, s, sep, start, j);
      }
      j := j + 1;
    }
    SplitDone(elements, s, sep, start, j);
    return Some(elements + [s[start..]]);
  }

  /** The tokens are cut out of `s` from `from` on, each at the first separator that follows, the last at the end. */
  ghost predicate Leftmost(tokens: seq<seq<byte>>, s: seq<byte>, sep: seq<byte>, from: nat)
    decreases |tokens|
  {
    tokens != [] && from <= |s| &&
    if |tokens| == 1 then tokens[0] == s[from..] && forall p: nat :: from <= p ==> !At(s, sep, p)
    else First(tokens[0], s, sep, from) && Leftmost(tokens[1..], s, sep, from + |tokens[0]| + |sep|)
  }

  /** From `from` on, `s` has the token and then a separator, and none before it. */
  ghost predicate First(token: seq<byte>, s: seq<byte>, sep: seq<byte>, from: nat) {
    var to := from + |token|;
    At(s, sep, to) && s[from..to] == token && forall p: nat :: from <= p < to ==> !At(s, sep, p)
  }

  /** There is only one way to cut so. */
  lemma {:induction false} LeftmostIsUnique(a: seq<seq<byte>>, b: seq<seq<byte>>, s: seq<byte>, sep: seq<byte>,
                                            from: nat)
    requires Leftmost(a, s, sep, from) && Leftmost(b, s, sep, from)
    ensures a == b
    decreases |a|
  {
    if |a| > 1 && |b| > 1 {
      assert |a[0]| == |b[0]|;
      LeftmostIsUnique(a[1..], b[1..], s, sep, from + |a[0]| + |sep|);
      assert a == [a[0]] + a[1..] && b == [b[0]] + b[1..];
    } else {
      assert |a| == 1 <==> |b| == 1;
      assert a == [a[0]] && b == [b[0]];
    }
  }

  /** The cuts up to `to`. */
  ghost predicate CutTo(elements: seq<seq<byte>>, s: seq<byte>, sep: seq<byte>, from: nat, to: nat)
    decreases |elements|
  {
    if elements == [] then from == to
    else First(elements[0], s, sep, from) && CutTo(elements[1..], s, sep, from + |elements[0]| + |sep|, to)
  }

  lemma {:induction false} CutMore(elements: seq<seq<byte>>, s: seq<byte>, sep: seq<byte>, from: nat, to: nat, j: nat)
    requires CutTo(elements, s, sep, from, to) && to <= j && At(s, sep, j)
    requires forall p: nat :: to <= p < j ==> !At(s, sep, p)
    ensures CutTo(elements + [s[to..j]], s, sep, from, j + |sep|)
    decreases |elements|
  {
    var longer := elements + [s[to..j]];
    if elements != [] {
      CutMore(elements[1..], s, sep, from + |elements[0]| + |sep|, to, j);
      assert longer[0] == elements[0] && longer[1..] == elements[1..] + [s[to..j]];
    } else {
      assert longer[1..] == [];
    }
  }

  lemma {:induction false} CutLast(elements: seq<seq<byte>>, s: seq<byte>, sep: seq<byte>, from: nat, to: nat)
    requires CutTo(elements, s, sep, from, to) && to <= |s| && forall p: nat :: to <= p ==> !At(s, sep, p)
    ensures Leftmost(elements + [s[to..]], s, sep, from)
    decreases |elements|
  {
    var tokens := elements + [s[to..]];
    if elements != [] {
      CutLast(elements[1..], s, sep, from + |elements[0]| + |sep|, to);
      assert tokens[1..] == elements[1..] + [s[to..]];
    }
  }

  /** The tokens found so far, the rest from `start` on, and no separator between `start` and `j`. */
  ghost predicate SplitSoFar(elements: seq<seq<byte>>, s: seq<byte>, sep: seq<byte>, start: nat, j: nat) {
    && start <= j && start <= |s|
    && Join(elements + [s[start..]], sep) == s
    && (forall t :: t in elements ==> Free(t, sep))
    && (forall p: nat :: start <= p < j ==> !At(s, sep, p))
  }

  lemma SplitCut(elements: seq<seq<byte>>, s: seq<byte>, sep: seq<byte>, start: nat, j: nat)
    requires SplitSoFar(elements, s, sep, start, j) && At(s, sep, j) && sep != []
    ensures SplitSoFar(elements + [s[start..j]], s, sep, j + |sep|, j + |sep|)
  {
    CutOut(s, sep, start, j);
    JoinCut(elements, sep, s[start..j], s[j + |sep|..], s[start..]);
    FreeBetween(s, sep, start, j);
  }

  ghost predicate Splitting(elements: seq<seq<byte>>, s: seq<byte>, sep: seq<byte>, start: nat, j: nat) {
    SplitSoFar(elements, s, sep, start, j) && CutTo(elements, s, sep, 0, start)
  }

  lemma SplittingStarts(s: seq<byte>, sep: seq<byte>)
    ensures Splitting([], s, sep, 0, 0)
  {
    assert [] + [s[0..]] == [s];
  }

  lemma SplittingPast(elements: seq<seq<byte>>, s: seq<byte>, sep: seq<byte>, start: nat, j: nat)
    requires Splitting(elements, s, sep, start, j) && !At(s, sep, j)
    ensures Splitting(elements, s, sep, start, j + 1)
  {
  }

  lemma SplittingOn(elements: seq<seq<byte>>, s: seq<byte>, sep: seq<byte>, start: nat, j: nat)
    requires Splitting(elements, s, sep, start, j) && At(s, sep, j) && sep != []
    ensures Splitting(elements + [s[start..j]], s, sep, j + |sep|, j + |sep|)
  {
    SplitCut(elements, s, sep, start, j);
    CutMore(elements, s, sep, 0, start, j);
  }

  lemma SplitDone(elements: seq<seq<byte>>, s: seq<byte>, sep: seq<byte>, start: nat, j: nat)
    requires Splitting(elements, s, sep, start, j) && |s| - (|sep| - 1) <= j && sep != []
    ensures IsSplit(elements + [s[start..]], s, sep)
  {
    CutLast(elements, s, sep, 0, start);
    assert s[start..] == s[start..|s|];
    FreeBetween(s, sep, start, |s|);
  }

  lemma CutOut(s: seq<byte>, sep: seq<byte>, start: nat, j: nat)
    requires start <= j && At(s, sep, j)
    ensures s[start..] == s[start..j] + sep + s[j + |sep|..]
  {
    assert s[start..] == s[start..j] + s[j..j + |sep|] + s[j + |sep|..];
  }

  /** Cutting the last part of a joined string in two at the separator. */
  lemma JoinCut(tokens: seq<seq<byte>>, sep: seq<byte>, a: seq<byte>, b: seq<byte>, whole: seq<byte>)
    requires whole == a + sep + b
    ensures Join(tokens + [a] + [b], sep) == Join(tokens + [whole], sep)
  {
    JoinSnoc(tokens, sep, a, b);
    assert tokens + [a] + [b] == tokens + [a, b];
  }

  lemma FreeBetween(s: seq<byte>, sep: seq<byte>, start: nat, end: nat)
    requires start <= end <= |s| && sep != []
    requires forall p: nat :: start <= p && p + |sep| <= end ==> !At(s, sep, p)
    ensures Free(s[start..end], sep)
  {
    forall p: nat
      ensures !At(s[start..end], sep, p)
    {
      AtWithin(s, sep, start, end, p);
    }
  }

  lemma AtWithin(s: seq<byte>, sep: seq<byte>, start: nat, end: nat, p: nat)
    requires start <= end <= |s|
    ensures At(s[start..end], sep, p) ==> At(s, sep, start + p) && start + p + |sep| <= end
  {
    if At(s[start..end], sep, p) {
      var found := s[start + p..start + p + |sep|];
      forall k | 0 <= k < |sep|
        ensures found[k] == sep[k]
      {
        assert s[start..end][p..p + |sep|][k] == sep[k];
      }
      assert found == sep;
    }
  }

  /** With a separator of one byte there is only one way to split, so splitting undoes joining as well. */
  lemma {:induction false} SplitIsUnique(a: seq<seq<byte>>, b: seq<seq<byte>>, sep: seq<byte>)
    requires |sep| == 1 && a != [] && b != [] && Join(a, sep) == Join(b, sep)
    requires (forall t :: t in a ==> Free(t, sep)) && (forall t :: t in b ==> Free(t, sep))
    ensures a == b
    decreases |a|
  {
    Heads(a, sep);
    Heads(b, sep);
    FirstToken(a, b, sep);
    FirstToken(b, a, sep);
    if |a| == 1 || |b| == 1 {
      assert a == [a[0]] && b == [b[0]];
    } else {
      SplitIsUnique(a[1..], b[1..], sep);
      assert a == [a[0]] + a[1..] && b == [b[0]] + b[1..];
    }
  }

  /** What a joined string starts with. */
  lemma Heads(a: seq<seq<byte>>, sep: seq<byte>)
    requires |sep| == 1 && a != []
    ensures var s := Join(a, sep);
            && |a[0]| <= |s| && s[..|a[0]|] == a[0]
            && if |a| == 1 then s == a[0]
               else |s| > |a[0]| && s[|a[0]|] == sep[0] && s[|a[0]| + 1..] == Join(a[1..], sep)
  {
    if |a| > 1 {
      var t := Join(a[1..], sep);
      assert (a[0] + sep + t)[|a[0]| + 1..] == t;
    }
  }

  lemma OneByteAt(s: seq<byte>, sep: seq<byte>, p: nat)
    requires |sep| == 1
    ensures At(s, sep, p) <==> p < |s| && s[p] == sep[0]
  {
    if p < |s| {
      assert s[p..p + 1] == [s[p]] && sep == [sep[0]];
    }
  }

  /** A separator of one byte comes after a front part without one. */
  lemma FreeFront(s: seq<byte>, front: seq<byte>, sep: seq<byte>, p: nat)
    requires |sep| == 1 && Free(front, sep) && front <= s && p < |s| && s[p] == sep[0]
    ensures |front| <= p
  {
    OneByteAt(front, sep, p);
  }

  /** The first token of one way to split is no longer than that of another. */
  lemma FirstToken(a: seq<seq<byte>>, b: seq<seq<byte>>, sep: seq<byte>)
    requires |sep| == 1 && a != [] && b != [] && Join(a, sep) == Join(b, sep) && Free(a[0], sep)
    ensures |a[0]| <= |b[0]|
  {
    Heads(a, sep);
    Heads(b, sep);
    if |b| > 1 {
      FreeFront(Join(a, sep), a[0], sep, |b[0]|);
    }
  }
}
