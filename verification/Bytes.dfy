/** Bytes and the handful of byte constants the protocol code compares against. */
module Bytes {

  type byte = b: int | 0 <= b < 256

  const CR: byte := 13
  const LF: byte := 10
  const MINUS: byte := 45
  const ZERO: byte := 48
  const CRLF: seq<byte> := [CR, LF]

  datatype Option<+T> = None | Some(value: T)

  predicate IsDigit(b: byte) {
    48 <= b <= 57
  }

  predicate AllDigits(s: seq<byte>) {
    forall i :: 0 <= i < |s| ==> IsDigit(s[i])
  }

  lemma Regroup(a: seq<byte>, b: seq<byte>, c: seq<byte>)
    ensures a + b + c == a + (b + c)
  {
  }

  /** The concatenation of a sequence of byte strings. */
  function Concat(ss: seq<seq<byte>>): seq<byte> {
    if ss == [] then [] else ss[0] + Concat(ss[1..])
  }

  lemma {:induction false} ConcatSnoc(ss: seq<seq<byte>>, k: nat)
    requires k < |ss|
    ensures Concat(ss[..k + 1]) == Concat(ss[..k]) + ss[k]
  {
    if k > 0 {
      ConcatSnoc(ss[1..], k - 1);
      assert ss[..k + 1][1..] == ss[1..][..k] && ss[..k][1..] == ss[1..][..k - 1];
      assert ss[0] + (Concat(ss[1..][..k - 1]) + ss[k]) == ss[0] + Concat(ss[1..][..k - 1]) + ss[k];
    } else {
      assert ss[..1][1..] == [] && ss[..0] == [];
    }
  }

  lemma {:induction false} ConcatPrefix(ss: seq<seq<byte>>, k: nat)
    requires k <= |ss|
    ensures |Concat(ss[..k])| <= |Concat(ss)|
    decreases |ss| - k
  {
    if k < |ss| {
      ConcatSnoc(ss, k);
      ConcatPrefix(ss, k + 1);
    } else {
      assert ss[..k] == ss;
    }
  }

  /** The bytes in the opposite order. */
  function Reversed(s: seq<byte>): (r: seq<byte>)
    ensures |r| == |s|
  {
    if s == [] then [] else Reversed(s[1..]) + [s[0]]
  }

  lemma {:induction false} ReversedAt(s: seq<byte>, k: nat)
    requires k < |s|
    ensures Reversed(s)[k] == s[|s| - 1 - k]
  {
    if k < |s| - 1 {
      ReversedAt(s[1..], k);
    }
  }

  lemma {:induction false} ReversedSnoc(s: seq<byte>, b: byte)
    ensures Reversed(s + [b]) == [b] + Reversed(s)
  {
    if s != [] {
      ReversedSnoc(s[1..], b);
      assert (s + [b])[1..] == s[1..] + [b];
    }
  }
}
