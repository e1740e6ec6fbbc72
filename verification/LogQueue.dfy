/** The bounded queue of the asynchronous logger: circular_q.h and mpmc_blocking_q.h. */
module LogQueue {
  import opened Bytes

  /** The position after `k` in a ring of `m` slots. */
  function Next(k: nat, m: nat): (r: nat)
    requires k < m
    ensures r == (k + 1) % m && r < m
  {
    if k + 1 == m then 0 else k + 1
  }

  function Slot(head: nat, i: nat, m: nat): (r: nat)
    requires head < m && i < m
    ensures r < m
  {
    if head + i < m then head + i else head + i - m
  }

  function Size(head: nat, tail: nat, m: nat): (r: nat)
    requires head < m && tail < m
    ensures r < m
  {
    if head <= tail then tail - head else tail + m - head
  }

  lemma FullSize(head: nat, tail: nat, m: nat)
    requires head < m && tail < m
    ensures Size(head, tail, m) == m - 1 <==> (tail + 1) % m == head
  {
    assert (tail + 1) % m == Next(tail, m);
  }

  /** The items between `head` and `tail`, oldest first. */
  function Ring<T>(v: seq<T>, head: nat, tail: nat): (r: seq<T>)
    requires head < |v| && tail < |v|
    ensures |r| == Size(head, tail, |v|)
  {
    seq(Size(head, tail, |v|), i requires 0 <= i < Size(head, tail, |v|) => v[Slot(head, i, |v|)])
  }

  /** The newest `cap` items. */
  function Newest<T>(s: seq<T>, cap: nat): seq<T> {
    if |s| > cap then s[|s| - cap..] else s
  }

  lemma NewestPush<T>(s: seq<T>, x: T, cap: nat)
    requires |s| <= cap
    ensures |s| < cap ==> Newest(s + [x], cap) == s + [x]
    ensures |s| == cap > 0 ==> Newest(s + [x], cap) == s[1..] + [x]
    ensures cap == 0 ==> Newest(s + [x], cap) == []
  {
  }

  lemma RingPush<T>(v: seq<T>, head: nat, tail: nat, x: T)
    requires head < |v| && tail < |v|
    ensures var w := v[tail := x];
            var t := Next(tail, |v|);
            Ring(w, if t == head then Next(head, |v|) else head, t) == Newest(Ring(v, head, tail) + [x], |v| - 1)
  {
    var w, t := v[tail := x], Next(tail, |v|);
    if t != head {
      assert Ring(w, head, t) == Ring(v, head, tail) + [x];
    } else {
      assert Ring(w, Next(head, |v|), t) == (Ring(v, head, tail) + [x])[1..];
    }
  }

  lemma RingPop<T>(v: seq<T>, head: nat, tail: nat)
    requires head < |v| && tail < |v| && head != tail
    ensures [v[head]] + Ring(v, Next(head, |v|), tail) == Ring(v, head, tail)
  {
  }

  class CircularQ<T(0)> {
    const v: array<T>
    var head: nat
    var tail: nat
    var overrun: nat

    ghost predicate Valid()
      reads this
    {
      head < v.Length && tail < v.Length
    }

    ghost function Contents(): seq<T>
      reads this, v
      requires Valid()
    {
      Ring(v[..], head, tail)
    }

    ghost function Capacity(): int {
      v.Length - 1
    }

    constructor (maxItems: nat)
      ensures Valid() && fresh(v) && Capacity() == maxItems && Contents() == [] && overrun == 0
    {
      v := new T[maxItems + 1];
      head, tail, overrun := 0, 0, 0;
    }

    /** push_back: overruns the oldest item when there is no room. */
    method PushBack(item: T)
      requires Valid()
      modifies this, v
      ensures Valid()
      ensures Contents() == Newest(old(Contents()) + [item], Capacity())
      ensures |old(Contents())| < Capacity() ==> Contents() == old(Contents()) + [item]
      ensures |old(Contents())| == Capacity() > 0 ==> Contents() == old(Contents())[1..] + [item]
      ensures Capacity() == 0 ==> Contents() == []
      ensures overrun == old(overrun) + |old(Contents())| + 1 - |Contents()|
    {
      RingPush(v[..], head, tail, item);
      NewestPush(Contents(), item, Capacity());
      ghost var before := v[..];
      v[tail] := item;
      assert v[..] == before[tail := item];
      tail := (tail + 1) % v.Length;
      if tail == head {
        head := (head + 1) % v.Length;
        overrun := overrun + 1;
      }
    }

    method PopFront() returns (item: T)
      requires Valid() && Contents() != []
      modifies this
      ensures Valid() && [item] + Contents() == old(Contents()) && overrun == old(overrun)
    {
      RingPop(v[..], head, tail);
      item := v[head];
      head := (head + 1) % v.Length;
    }

    method Empty() returns (b: bool)
      requires Valid()
      ensures b == (Contents() == [])
    {
      b := tail == head;
    }

    method Full() returns (b: bool)
      requires Valid()
      ensures b == (|Contents()| == Capacity())
    {
      FullSize(head, tail, v.Length);
      b := (tail + 1) % v.Length == head;
    }
  }

  /** Each method is one critical section; a blocked call is reported and leaves the queue alone. */
  class BlockingQueue<T(0)> {
    const q: CircularQ<T>

    ghost predicate Valid()
      reads this, q
    {
      q.Valid()
    }

    ghost function Contents(): seq<T>
      reads this, q, q.v
      requires Valid()
    {
      q.Contents()
    }

    constructor (maxItems: nat)
      ensures Valid() && fresh(q) && fresh(q.v) && q.Capacity() == maxItems && Contents() == [] && q.overrun == 0
    {
      q := new CircularQ(maxItems);
    }

    /** enqueue: never overruns. */
    method Enqueue(item: T) returns (blocked: bool)
      requires Valid()
      modifies q, q.v
      ensures Valid() && q.overrun == old(q.overrun)
      ensures blocked == (|old(Contents())| == q.Capacity())
      ensures Contents() == old(Contents()) + if blocked then [] else [item]
    {
      blocked := q.Full();
      if !blocked {
        q.PushBack(item);
      }
    }

    /** enqueue_nowait. */
    method EnqueueNowait(item: T)
      requires Valid()
      modifies q, q.v
      ensures Valid() && Contents() == Newest(old(Contents()) + [item], q.Capacity())
      ensures q.overrun == old(q.overrun) + if |old(Contents())| == q.Capacity() then 1 else 0
    {
      q.PushBack(item);
    }

    /** dequeue_for; None is the timeout. */
    method DequeueFor() returns (item: Option<T>)
      requires Valid()
      modifies q
      ensures Valid() && q.overrun == old(q.overrun)
      ensures old(Contents()) == [] ==> item == None && Contents() == []
      ensures old(Contents()) != [] ==> item.Some? && [item.value] + Contents() == old(Contents())
    {
      var empty := q.Empty();
      if empty {
        return None;
      }
      var popped := q.PopFront();
      return Some(popped);
    }
  }
}
