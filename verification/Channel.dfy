/** The bounded channel between chroutines of one kernel thread (channel.hpp): a ring and two waiting queues. */
module Channel {
  import opened Bytes
  import opened LogQueue

  /** A chroutine waiting to write, with its value. */
  datatype Writer<T> = Writer(id: nat, data: T)

  /** A chroutine waiting to read; `ticket` numbers the read call whose output variable it holds. */
  datatype Reader = Reader(id: nat, ticket: nat)

  /** Refused by a try call, blocked until awoken, or done, with the chroutine awoken. */
  datatype Outcome = Refused | Blocked | Done(awoken: Option<nat>)

  function Min(a: nat, b: nat): nat {
    if a < b then a else b
  }

  /** The position `n` places after `r`. */
  function After(r: nat, n: nat, m: nat): (w: nat)
    requires r < m && n <= m
    ensures w < m
  {
    if r + n < m then r + n else r + n - m
  }

  /** The unread values of the ring, oldest first. */
  function Unread<T>(v: seq<T>, r: nat, n: nat): (s: seq<T>)
    requires r < |v| && n <= |v|
    ensures |s| == n
  {
    seq(n, i requires 0 <= i < n => v[After(r, i, |v|)])
  }

  lemma UnreadPut<T>(v: seq<T>, r: nat, n: nat, x: T)
    requires r < |v| && n < |v|
    ensures Unread(v[After(r, n, |v|) := x], r, n + 1) == Unread(v, r, n) + [x]
    ensures Next(After(r, n, |v|), |v|) == After(r, n + 1, |v|)
  {
  }

  lemma UnreadTake<T>(v: seq<T>, r: nat, n: nat)
    requires r < |v| && 0 < n <= |v|
    ensures Unread(v, r, n) == [v[r]] + Unread(v, Next(r, |v|), n - 1)
    ensures After(r, n, |v|) == After(Next(r, |v|), n - 1, |v|)
  {
  }

  lemma AfterIsModulo(r: nat, n: nat, m: nat)
    requires r < m && n <= m
    ensures After(r, n, m) == (r + n) % m
  {
  }

  /**
   * What has gone through a channel: the ring's values, the waiting chroutines, the output variables of the read
   * calls that have a value, and the accepted calls so far.
   */
  datatype Flow<T> = Flow(
    buffered: seq<T>, writers: seq<Writer<T>>, readers: seq<Reader>, outs: map<nat, T>, written: seq<T>, readCalls: nat)

  function Values<T>(writers: seq<Writer<T>>): (r: seq<T>)
    ensures |r| == |writers|
  {
    seq(|writers|, i requires 0 <= i < |writers| => writers[i].data)
  }

  /** How many accepted reads have their value. */
  function Handed<T>(f: Flow<T>): int {
    f.readCalls - |f.readers|
  }

  /**
   * The k-th accepted read has the k-th accepted value, the rest waits in order in the ring and then with the
   * writers; readers wait only on an empty ring and writers only on a full one.
   */
  ghost predicate Balanced<T>(f: Flow<T>, cap: nat) {
    && |f.buffered| <= cap
    && (f.readers != [] ==> f.buffered == [])
    && (f.writers != [] ==> |f.buffered| == cap)
    && 0 <= Handed(f) <= |f.written|
    && f.written[Handed(f)..] == f.buffered + Values(f.writers)
    && (forall k: nat :: k in f.outs <==> k < Handed(f))
    && (forall k: nat :: k in f.outs ==> f.outs[k] == f.written[k])
    && (forall i :: 0 <= i < |f.readers| ==> f.readers[i].ticket == Handed(f) + i)
  }

  /** A write that finds room. */
  function Put<T>(f: Flow<T>, value: T): Flow<T> {
    var g := f.(written := f.written + [value]);
    if f.readers == [] then g.(buffered := f.buffered + [value])
    else g.(outs := f.outs[f.readers[0].ticket := value], readers := f.readers[1..])
  }

  function WriterWaits<T>(f: Flow<T>, id: nat, value: T): Flow<T> {
    f.(written := f.written + [value], writers := f.writers + [Writer(id, value)])
  }

  function ReaderWaits<T>(f: Flow<T>, id: nat): Flow<T> {
    f.(readers := f.readers + [Reader(id, f.readCalls)], readCalls := f.readCalls + 1)
  }

  /** A read that finds a value; the first waiting writer's value refills the ring. */
  function Get<T>(f: Flow<T>): Flow<T>
    requires f.buffered != []
  {
    var g := f.(outs := f.outs[f.readCalls := f.buffered[0]], readCalls := f.readCalls + 1,
        buffered := f.buffered[1..]);
    if f.writers == [] then g
    else g.(buffered := g.buffered + [f.writers[0].data], writers := f.writers[1..])
  }

  lemma PutBalances<T>(f: Flow<T>, cap: nat, value: T)
    requires Balanced(f, cap) && |f.buffered| < cap
    ensures Balanced(Put(f, value), cap)
  {
    var g := Put(f, value);
    assert Values(f.writers) == [];
    if f.readers == [] {
      assert g.written[Handed(g)..] == f.written[Handed(f)..] + [value];
    } else {
      assert g.written[Handed(g)..] == [];
    }
  }

  lemma WriterWaitsBalances<T>(f: Flow<T>, cap: nat, id: nat, value: T)
    requires Balanced(f, cap) && |f.buffered| == cap && cap > 0
    ensures Balanced(WriterWaits(f, id, value), cap)
  {
    var g := WriterWaits(f, id, value);
    assert Values(g.writers) == Values(f.writers) + [value];
    assert g.written[Handed(g)..] == f.written[Handed(f)..] + [value];
  }

  lemma ReaderWaitsBalances<T>(f: Flow<T>, cap: nat, id: nat)
    requires Balanced(f, cap) && f.buffered == [] && cap > 0
    ensures Balanced(ReaderWaits(f, id), cap)
  {
  }

  lemma GetBalances<T>(f: Flow<T>, cap: nat)
    requires Balanced(f, cap) && f.buffered != []
    ensures Balanced(Get(f), cap)
  {
    var g := Get(f);
    assert f.written[Handed(f)..][0] == f.buffered[0];
    assert g.written[Handed(g)..] == f.written[Handed(f)..][1..];
    if f.writers != [] {
      assert Values(f.writers) == [f.writers[0].data] + Values(g.writers);
    }
  }

  /** As many reads have a value as the accepted calls allow, and the ring holds as much of the rest as it can. */
  lemma AsMuchAsPossible<T>(f: Flow<T>, cap: nat)
    requires Balanced(f, cap) && cap > 0
    ensures Handed(f) == Min(|f.written|, f.readCalls)
    ensures |f.buffered| == Min(|f.written| - Handed(f), cap)
    ensures f.readers == [] || f.writers == []
  {
  }

  class Channel<T(0)> {
    const maxSize: nat
    const data: array<T>
    var wIndex: nat
    var rIndex: nat
    var unread: nat
    var writers: seq<Writer<T>>
    var readers: seq<Reader>
    /** The output variables of the read calls that have been given a value. */
    var outs: map<nat, T>
    /** The accepted read calls so far; it names the output variable of the next one. */
    var readCalls: nat
    /** The values of the accepted write calls. */
    ghost var written: seq<T>

    ghost predicate Indices()
      reads this
    {
      data.Length == maxSize && rIndex < maxSize && unread <= maxSize && wIndex == After(rIndex, unread, maxSize)
    }

    /** The values in the ring, oldest first. */
    ghost function Buffered(): seq<T>
      reads this, data
      requires Indices()
    {
      Unread(data[..], rIndex, unread)
    }

    ghost function Abs(): Flow<T>
      reads this, data
      requires Indices()
    {
      Flow(Buffered(), writers, readers, outs, written, readCalls)
    }

    ghost predicate Valid()
      reads this, data
    {
      Indices() && Balanced(Abs(), maxSize)
    }

    constructor (size: int)
      ensures Valid() && fresh(data) && Abs() == Flow([], [], [], map[], [], 0)
      ensures maxSize == if size <= 0 then 1 else size
    {
      var slots: nat := if size <= 0 then 1 else size;
      maxSize := slots;
      data := new T[slots];
      wIndex, rIndex, unread := 0, 0, 0;
      writers, readers, outs, written, readCalls := [], [], map[], [], 0;
      new;
      assert Buffered() == [] && Values(writers) == [];
    }

    /** The body of `write`, with the lock held; `read` runs it too, to refill the ring. */
    method WriteLocked(id: nat, value: T, try_: bool) returns (r: Outcome)
      requires Indices()
      modifies this`wIndex, this`unread, this`writers, this`readers, this`outs, data
      ensures Indices()
      ensures r == if old(unread) < maxSize then Done(if old(readers) == [] then None else Some(old(readers)[0].id))
                   else if try_ then Refused else Blocked
      ensures writers == old(writers) + if r.Blocked? then [Writer(id, value)] else []
      ensures r.Done? && old(readers) == [] ==>
                Buffered() == old(Buffered()) + [value] && readers == [] && outs == old(outs)
      ensures r.Done? && old(readers) != [] ==>
                Buffered() == old(Buffered()) && readers == old(readers)[1..]
                && outs == old(outs)[old(readers)[0].ticket := value]
      ensures !r.Done? ==> Buffered() == old(Buffered()) && readers == old(readers) && outs == old(outs)
    {
      if maxSize - unread < 1 {
        if !try_ {
          writers := writers + [Writer(id, value)];
        }
        return if try_ then Refused else Blocked;
      }
      if readers != [] {
        var context := readers[0];
        outs := outs[context.ticket := value];
        readers := readers[1..];
        return Done(Some(context.id));
      }
      UnreadPut(data[..], rIndex, unread, value);
      ghost var before := data[..];
      data[wIndex] := value;
      assert data[..] == before[wIndex := value];
      unread := unread + 1;
      wIndex := (wIndex + 1) % maxSize;
      return Done(None);
    }

    /** write: accepted unless it is a try call and the ring is full. */
    method Write(id: nat, value: T, try_: bool) returns (r: Outcome)
      requires Valid()
      modifies this, data
      ensures Valid() && wIndex == (rIndex + unread) % maxSize
      ensures r.Refused? <==> |old(Buffered())| == maxSize && try_
      ensures r.Blocked? <==> |old(Buffered())| == maxSize && !try_
      ensures r.Done? ==> r.awoken == if old(readers) == [] then None else Some(old(readers)[0].id)
      ensures r.Blocked? ==> writers == old(writers) + [Writer(id, value)]
      ensures Abs() == if r.Refused? then old(Abs()) else if r.Blocked? then WriterWaits(old(Abs()), id, value)
                       else Put(old(Abs()), value)
    {
      ghost var before := Abs();
      r := WriteLocked(id, value, try_);
      if r.Done? {
        PutBalances(before, maxSize, value);
        written := written + [value];
      } else if r.Blocked? {
        WriterWaitsBalances(before, maxSize, id, value);
        written := written + [value];
      }
      AfterIsModulo(rIndex, unread, maxSize);
    }

    /** Takes the oldest value out of the ring. */
    method Take() returns (value: T)
      requires Indices() && unread > 0
      modifies this`rIndex, this`unread
      ensures Indices() && [value] + Buffered() == old(Buffered())
    {
      UnreadTake(data[..], rIndex, unread);
      value := data[rIndex];
      unread := unread - 1;
      rIndex := (rIndex + 1) % maxSize;
    }

    /** read: accepted unless it is a try call and the ring is empty. */
    method Read(id: nat, try_: bool) returns (r: Outcome)
      requires Valid()
      modifies this, data
      ensures Valid() && wIndex == (rIndex + unread) % maxSize
      ensures r.Refused? <==> old(Buffered()) == [] && try_
      ensures r.Blocked? <==> old(Buffered()) == [] && !try_
      ensures r.Done? ==> r.awoken == if old(writers) == [] then None else Some(old(writers)[0].id)
      ensures r.Blocked? ==> readers == old(readers) + [Reader(id, old(readCalls))]
      ensures r.Done? ==> outs == old(outs)[old(readCalls) := old(Buffered())[0]] && readCalls == old(readCalls) + 1
      ensures Abs() == if r.Refused? then old(Abs()) else if r.Blocked? then ReaderWaits(old(Abs()), id)
                       else Get(old(Abs()))
    {
      ghost var before := Abs();
      if unread < 1 {
        if !try_ {
          ReaderWaitsBalances(before, maxSize, id);
          readers := readers + [Reader(id, readCalls)];
          readCalls := readCalls + 1;
        }
        AfterIsModulo(rIndex, unread, maxSize);
        return if try_ then Refused else Blocked;
      }
      GetBalances(before, maxSize);
      var value := Take();
      outs := outs[readCalls := value];
      readCalls := readCalls + 1;
      r := Refill();
      assert Abs() == Get(before);
      AfterIsModulo(rIndex, unread, maxSize);
    }

    /** The end of `read`: a waiting writer's value goes into the ring by way of `write`. */
    method Refill() returns (r: Outcome)
      requires Indices() && unread < maxSize && readers == []
      modifies this`wIndex, this`unread, this`writers, this`readers, this`outs, data
      ensures Indices() && readers == old(readers) && outs == old(outs)
      ensures r == Done(if old(writers) == [] then None else Some(old(writers)[0].id))
      ensures writers == if old(writers) == [] then [] else old(writers)[1..]
      ensures Buffered() == old(Buffered()) + if old(writers) == [] then [] else [old(writers)[0].data]
    {
      if writers == [] {
        return Done(None);
      }
      var context := writers[0];
      var _ := WriteLocked(context.id, context.data, false);
      writers := writers[1..];
      return Done(Some(context.id));
    }
  }
}
