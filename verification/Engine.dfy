/** engine_t::check_threads over the pool: which threads are blocked, and where their chroutines go. */
module Engine {
  import opened Decimal
  import opened Schedule
  import opened Migration
  import opened Threads

  const MAX_ENTRY_CALL_TIME_MS := 500

  /** A thread of the pool as the monitor sees it. */
  datatype Worker = Worker(state: ThreadState, entryTime: int, sched: Sched)

  /** The thread has been inside one chroutine for too long. */
  predicate Overdue(w: Worker, now: int) {
    w.entryTime != 0 && now > MAX_ENTRY_CALL_TIME_MS + w.entryTime
  }

  predicate IsBad(w: Worker, now: int) {
    Overdue(w, now) && w.state == RunningThread
  }

  predicate IsGood(w: Worker, now: int) {
    !Overdue(w, now) && w.state != Blocking
  }

  /** A thread that answers again is running again. */
  function Recovered(w: Worker, now: int): Worker {
    if !Overdue(w, now) && w.state == Blocking then w.(state := RunningThread) else w
  }

  /** move_chroutines_to_thread between two pool threads. */
  function Moved(pool: seq<Worker>, bad: nat, good: nat): seq<Worker>
    requires bad < |pool| && good < |pool|
  {
    if bad == good then pool
    else pool[bad := pool[bad].(sched := Source(pool[bad].sched), state := Blocking)]
             [good := pool[good].(sched := Target(pool[bad].sched, pool[good].sched))]
  }

  /** Those of the first `n` threads that are good, or bad, in pool order. */
  function Goods(pool: seq<Worker>, now: int, n: nat): seq<nat>
    requires n <= |pool|
    decreases n
  {
    if n == 0 then [] else Goods(pool, now, n - 1) + if IsGood(pool[n - 1], now) then [n - 1] else []
  }

  function Bads(pool: seq<Worker>, now: int, n: nat): seq<nat>
    requires n <= |pool|
    decreases n
  {
    if n == 0 then [] else Bads(pool, now, n - 1) + if IsBad(pool[n - 1], now) then [n - 1] else []
  }

  predicate Ascending(list: seq<nat>) {
    forall k, l :: 0 <= k < l < |list| ==> list[k] < list[l]
  }

  lemma OneHigher(list: seq<nat>, x: nat)
    requires Ascending(list) && forall i :: i in list ==> i < x
    ensures Ascending(list + [x])
  {
    forall k, l | 0 <= k < l < |list + [x]|
      ensures (list + [x])[k] < (list + [x])[l]
    {
      assert list[k] in list;
    }
  }

  /** Both lists hold exactly those threads, in pool order. */
  lemma {:induction false} GoodsInOrder(pool: seq<Worker>, now: int, n: nat)
    requires n <= |pool|
    ensures Ascending(Goods(pool, now, n))
    ensures forall i: nat :: i in Goods(pool, now, n) <==> i < n && IsGood(pool[i], now)
    decreases n
  {
    if n > 0 {
      GoodsInOrder(pool, now, n - 1);
      OneHigher(Goods(pool, now, n - 1), n - 1);
      assert Goods(pool, now, n - 1) + [] == Goods(pool, now, n - 1);
    }
  }

  lemma {:induction false} BadsInOrder(pool: seq<Worker>, now: int, n: nat)
    requires n <= |pool|
    ensures Ascending(Bads(pool, now, n))
    ensures forall i: nat :: i in Bads(pool, now, n) <==> i < n && IsBad(pool[i], now)
    decreases n
  {
    if n > 0 {
      BadsInOrder(pool, now, n - 1);
      OneHigher(Bads(pool, now, n - 1), n - 1);
      assert Bads(pool, now, n - 1) + [] == Bads(pool, now, n - 1);
    }
  }

  /** The good threads take turns. */
  function Turn(goods: seq<nat>, k: nat): (g: nat)
    requires goods != []
    ensures g in goods
  {
    goods[k % |goods|]
  }

  /** The first `n` bad threads have been emptied, the k-th one into the k-th good thread, in turn. */
  function Spread(pool: seq<Worker>, bads: seq<nat>, goods: seq<nat>, n: nat): (r: seq<Worker>)
    requires n <= |bads| && goods != [] && forall i :: i in bads || i in goods ==> i < |pool|
    ensures |r| == |pool|
    decreases n
  {
    if n == 0 then pool
    else
      assert bads[n - 1] in bads;
      Moved(Spread(pool, bads, goods, n - 1), bads[n - 1], Turn(goods, n - 1))
  }

  /** All schedules are sound and no chroutine is on two of them. */
  ghost predicate PoolInv(pool: seq<Worker>) {
    && (forall i :: 0 <= i < |pool| ==> Inv(pool[i].sched))
    && (forall i, j :: 0 <= i < j < |pool| ==> Disjoint(pool[i].sched, pool[j].sched))
  }

  /** `id` is on some thread of the pool. */
  ghost predicate Scheduled(pool: seq<Worker>, id: Id) {
    exists i :: 0 <= i < |pool| && id in pool[i].sched.cos
  }

  /** The pool as a whole has the same chroutines, soundly scheduled. */
  ghost predicate Conserved(pool: seq<Worker>, pool': seq<Worker>) {
    PoolInv(pool') && |pool'| == |pool| && forall id :: Scheduled(pool', id) <==> Scheduled(pool, id)
  }

  /** One migration keeps every schedule sound and the whole pool's set of chroutines. */
  lemma MovedConserves(pool: seq<Worker>, bad: nat, good: nat)
    requires PoolInv(pool) && bad < |pool| && good < |pool|
    ensures Conserved(pool, Moved(pool, bad, good))
  {
    if bad != good {
      var s, t := pool[bad].sched, pool[good].sched;
      assert Disjoint(s, t);
      SourceKeepsRunning(s);
      TargetInv(s, t);
      MigrationConserves(s, t);
      assert forall id :: Either(Source(s), Target(s, t), id) <==> Either(s, t, id);
      TwoReplaced(pool, Moved(pool, bad, good), bad, good);
    }
  }

  predicate Either(s: Sched, t: Sched, id: Id) {
    id in s.cos || id in t.cos
  }

  /** Two schedules of the pool are exchanged for two others that share the same chroutines. */
  lemma TwoReplaced(pool: seq<Worker>, pool': seq<Worker>, a: nat, b: nat)
    requires PoolInv(pool) && a < |pool| == |pool'| && b < |pool| && a != b
    requires forall i :: 0 <= i < |pool| && i != a && i != b ==> pool'[i] == pool[i]
    requires Inv(pool'[a].sched) && Inv(pool'[b].sched) && Disjoint(pool'[a].sched, pool'[b].sched)
    requires forall id :: Either(pool'[a].sched, pool'[b].sched, id) <==> Either(pool[a].sched, pool[b].sched, id)
    ensures Conserved(pool, pool')
  {
    forall i | 0 <= i < |pool| && i != a && i != b
      ensures Disjoint(pool[i].sched, pool'[a].sched) && Disjoint(pool[i].sched, pool'[b].sched)
    {
      assert Disjoint(pool[i].sched, pool[a].sched) && Disjoint(pool[i].sched, pool[b].sched);
      forall id | id in pool[i].sched.cos
        ensures id !in pool'[a].sched.cos && id !in pool'[b].sched.cos
      {
        assert !Either(pool[a].sched, pool[b].sched, id);
      }
    }
    forall id ensures Scheduled(pool', id) <==> Scheduled(pool, id) {
      if Scheduled(pool, id) {
        var i :| 0 <= i < |pool| && id in pool[i].sched.cos;
        assert id in pool'[i].sched.cos || Either(pool'[a].sched, pool'[b].sched, id);
      }
      if Scheduled(pool', id) {
        var i :| 0 <= i < |pool| && id in pool'[i].sched.cos;
        assert id in pool[i].sched.cos || Either(pool[a].sched, pool[b].sched, id);
      }
    }
  }

  /** The good/bad split: blocked threads that answer again are set running, and are in neither. */
  method Classify(pool: seq<Worker>, now: int) returns (pool': seq<Worker>, goods: seq<nat>, bads: seq<nat>)
    ensures |pool'| == |pool| && forall i :: 0 <= i < |pool| ==> pool'[i] == Recovered(pool[i], now)
    ensures forall i: nat :: i in goods <==>
              i < |pool| && (pool[i].entryTime == 0 || now - pool[i].entryTime <= 500) && pool[i].state != Blocking
    ensures forall i: nat :: i in bads <==>
              i < |pool| && pool[i].entryTime != 0 && now - pool[i].entryTime > 500 && pool[i].state == RunningThread
    ensures forall i :: 0 <= i < |pool| ==>
              pool'[i].sched == pool[i].sched && pool'[i].entryTime == pool[i].entryTime
              && pool'[i].state == (if pool[i].state != Blocking then pool[i].state
                                    else if pool[i].entryTime == 0 || now - pool[i].entryTime <= 500 then RunningThread
                                    else Blocking)
    ensures Ascending(goods) && Ascending(bads)
    ensures goods == Goods(pool, now, |pool|) && bads == Bads(pool, now, |pool|)
  {
    pool', goods, bads := pool, [], [];
    for i := 0 to |pool|
      invariant |pool'| == |pool|
      invariant forall j :: 0 <= j < |pool| ==> pool'[j] == if j < i then Recovered(pool[j], now) else pool[j]
      invariant goods == Goods(pool, now, i) && bads == Bads(pool, now, i)
    {
      var w := pool[i];
      if w.entryTime != 0 && now > MAX_ENTRY_CALL_TIME_MS + w.entryTime {
        if w.state == RunningThread {
          bads := bads + [i];
        }
      } else if w.state == Blocking {
        pool' := pool'[i := w.(state := RunningThread)];
      } else {
        goods := goods + [i];
      }
    }
    GoodsInOrder(pool, now, |pool|);
    BadsInOrder(pool, now, |pool|);
  }

  /** What CheckThreads needs of the split. */
  method Split(pool: seq<Worker>, now: int) returns (pool': seq<Worker>, goods: seq<nat>, bads: seq<nat>)
    ensures pool' == seq(|pool|, i requires 0 <= i < |pool| => Recovered(pool[i], now))
    ensures goods == Goods(pool, now, |pool|) && bads == Bads(pool, now, |pool|)
    ensures forall i: nat :: i in goods <==> i < |pool| && IsGood(pool[i], now)
    ensures forall i: nat :: i in bads <==> i < |pool| && IsBad(pool[i], now)
    ensures Ascending(bads)
  {
    pool', goods, bads := Classify(pool, now);
    assert forall i :: 0 <= i < |pool| ==> pool'[i] == Recovered(pool[i], now);
    GoodsInOrder(pool, now, |pool|);
    BadsInOrder(pool, now, |pool|);
  }

  /** Some thread answers. */
  ghost predicate AnyGood(pool: seq<Worker>, now: int) {
    exists g :: 0 <= g < |pool| && IsGood(pool[g], now)
  }

  /** The chroutines of every blocked thread go to the threads that answer, in turn.  Nobody is
      lost or duplicated, a blocked thread keeps just what it is running, and a thread that is
      itself blocked never receives anything. */
  method CheckThreads(pool: seq<Worker>, now: int) returns (pool': seq<Worker>)
    requires PoolInv(pool)
    ensures Conserved(pool, pool')
    ensures AnyGood(pool, now) ==> forall i :: 0 <= i < |pool| && IsBad(pool[i], now) ==>
      pool'[i].state == Blocking && pool'[i].sched == Source(pool[i].sched)
    ensures forall i :: 0 <= i < |pool| && !IsGood(pool[i], now) && (AnyGood(pool, now) ==> !IsBad(pool[i], now)) ==>
      pool'[i] == Recovered(pool[i], now)
    ensures var goods, bads := Goods(pool, now, |pool|), Bads(pool, now, |pool|);
            && (forall i :: i in bads || i in goods ==> i < |pool|)
            && var recovered := seq(|pool|, i requires 0 <= i < |pool| => Recovered(pool[i], now));
               pool' == if goods == [] then recovered else Spread(recovered, bads, goods, |bads|)
    ensures var goods, bads := Goods(pool, now, |pool|), Bads(pool, now, |pool|);
            goods != [] ==>
              forall k :: 0 <= k < |bads| ==>
                && bads[k] < |pool| && goods[k % |goods|] < |pool'|
                && Landed(pool[bads[k]].sched, pool'[goods[k % |goods|]].sched)
  {
    var goods, bads;
    pool', goods, bads := Split(pool, now);
    SameSchedules(pool, pool');
    ghost var recovered := seq(|pool|, i requires 0 <= i < |pool| => Recovered(pool[i], now));
    assert pool' == recovered;
    if |goods| == 0 {
      // threads may need switching, but no good threads are left
      assert forall g: nat :: g < |pool| ==> !IsGood(pool[g], now);
      return;
    }
    assert goods[0] in goods && IsGood(pool[goods[0]], now);
    SpreadKeeps(pool', bads, goods, |bads|);
    assert bads[..|bads|] == bads;
    pool' := MoveAll(pool', bads, goods);
    SpreadInTurn(recovered, bads, goods, |bads|);
    TurnByIndex(recovered, pool', bads, goods);
  }

  method MoveAll(pool: seq<Worker>, bads: seq<nat>, goods: seq<nat>) returns (pool': seq<Worker>)
    requires |goods| > 0 && forall i :: i in bads || i in goods ==> i < |pool|
    ensures pool' == Spread(pool, bads, goods, |bads|)
  {
    pool' := pool;
    var goodIndex := 0;
    for b := 0 to |bads|
      invariant goodIndex == b && pool' == Spread(pool, bads, goods, b)
    {
      assert bads[b] in bads && goods[goodIndex % |goods|] == Turn(goods, b);
      pool' := Moved(pool', bads[b], goods[goodIndex % |goods|]);
      goodIndex := goodIndex + 1;
    }
  }

  /** All but the running chroutine of `s` are on `t`. */
  ghost predicate Landed(s: Sched, t: Sched) {
    forall id :: id in s.cos && id != s.running ==> id in t.cos
  }

  /** How many of the numbers below `n` fall to number `i` of `m`, counting round and round. */
  function Share(n: nat, m: nat, i: nat): nat
    requires m > 0
  {
    if n == 0 then 0 else Share(n - 1, m, i) + if (n - 1) % m == i then 1 else 0
  }

  lemma {:induction false} ShareIs(n: nat, m: nat, i: nat)
    requires i < m
    ensures Share(n, m, i) == n / m + if i < n % m then 1 else 0
  {
    if n > 0 {
      ShareIs(n - 1, m, i);
      NextInTurn(n, m);
    }
  }

  lemma NextInTurn(n: nat, m: nat)
    requires n > 0 && m > 0
    ensures if (n - 1) % m == m - 1 then n % m == 0 && n / m == (n - 1) / m + 1
            else n % m == (n - 1) % m + 1 && n / m == (n - 1) / m
  {
    var q, r := (n - 1) / m, (n - 1) % m;
    assert n == m * q + r + 1;
    if r == m - 1 {
      assert n == m * (q + 1);
      DivMod(n, m, q + 1, 0);
    } else {
      DivMod(n, m, q, r + 1);
    }
  }

  /** Taking turns, no good thread is given the chroutines of two more bad threads than another. */
  lemma EvenTurns(n: nat, m: nat, i: nat, j: nat)
    requires i < m && j < m
    ensures Share(n, m, i) <= Share(n, m, j) + 1
  {
    ShareIs(n, m, i);
    ShareIs(n, m, j);
  }

  /** `r` is the pool after the first `n` bad threads have been emptied. */
  ghost predicate Emptied(pool: seq<Worker>, r: seq<Worker>, bads: seq<nat>, goods: seq<nat>, n: nat) {
    && n <= |bads| && Conserved(pool, r)
    && (forall i: nat :: i < |pool| && i !in goods && i !in bads[..n] ==> r[i] == pool[i])
    && (forall i: nat :: i < |pool| && i in bads[..n] ==> r[i].state == Blocking && r[i].sched == Source(pool[i].sched))
  }

  /** Bad thread number `k` has been emptied into good thread number `k`, counting round and round. */
  ghost predicate InTurn(pool: seq<Worker>, r: seq<Worker>, bads: seq<nat>, goods: seq<nat>, n: nat) {
    goods != [] && n <= |bads| &&
    forall k :: 0 <= k < n ==>
      bads[k] < |pool| && Turn(goods, k) < |r| && Landed(pool[bads[k]].sched, r[Turn(goods, k)].sched)
  }

  lemma TurnByIndex(pool: seq<Worker>, r: seq<Worker>, bads: seq<nat>, goods: seq<nat>)
    requires InTurn(pool, r, bads, goods, |bads|)
    ensures forall k :: 0 <= k < |bads| ==>
              && bads[k] < |pool| && goods[k % |goods|] < |r|
              && Landed(pool[bads[k]].sched, r[goods[k % |goods|]].sched)
  {
    forall k | 0 <= k < |bads|
      ensures bads[k] < |pool| && goods[k % |goods|] < |r|
      ensures Landed(pool[bads[k]].sched, r[goods[k % |goods|]].sched)
    {
      assert Turn(goods, k) == goods[k % |goods|];
    }
  }

  lemma TurnTaken(pool: seq<Worker>, q: seq<Worker>, bads: seq<nat>, goods: seq<nat>, n: nat)
    requires 0 < n <= |bads| && |q| == |pool| && InTurn(pool, q, bads, goods, n - 1) && PoolInv(q)
    requires Chosen(pool, bads, goods)
    requires bads[n - 1] < |pool| && Turn(goods, n - 1) < |pool|
    requires q[bads[n - 1]].sched == pool[bads[n - 1]].sched
    ensures InTurn(pool, Moved(q, bads[n - 1], Turn(goods, n - 1)), bads, goods, n)
  {
    var bad, good := bads[n - 1], Turn(goods, n - 1);
    var r := Moved(q, bad, good);
    assert bad in bads && good in goods;
    TargetAppends(q[bad].sched, q[good].sched);
    forall k | 0 <= k < n
      ensures bads[k] < |pool| && Turn(goods, k) < |r| && Landed(pool[bads[k]].sched, r[Turn(goods, k)].sched)
    {
      assert bads[k] in bads && Turn(goods, k) in goods;
      if k < n - 1 {
        assert Landed(pool[bads[k]].sched, q[Turn(goods, k)].sched);
      }
    }
  }

  /** Good and bad threads of the pool. */
  ghost predicate Chosen(pool: seq<Worker>, bads: seq<nat>, goods: seq<nat>) {
    && goods != [] && Ascending(bads)
    && (forall i :: i in bads || i in goods ==> i < |pool|) && (forall i :: i in bads ==> i !in goods)
  }

  lemma {:induction false} SpreadInTurn(pool: seq<Worker>, bads: seq<nat>, goods: seq<nat>, n: nat)
    requires PoolInv(pool) && n <= |bads| && Chosen(pool, bads, goods)
    ensures InTurn(pool, Spread(pool, bads, goods, n), bads, goods, n)
    decreases n
  {
    if n > 0 {
      SpreadInTurn(pool, bads, goods, n - 1);
      ChosenInPool(pool, bads, goods, n - 1);
      SpreadLeaves(pool, bads, goods, n);
      TurnTaken(pool, Spread(pool, bads, goods, n - 1), bads, goods, n);
    }
  }

  /** Before its turn a bad thread is as it was. */
  lemma SpreadLeaves(pool: seq<Worker>, bads: seq<nat>, goods: seq<nat>, n: nat)
    requires PoolInv(pool) && 0 < n <= |bads| && Chosen(pool, bads, goods) && bads[n - 1] < |pool|
    ensures PoolInv(Spread(pool, bads, goods, n - 1))
    ensures Spread(pool, bads, goods, n - 1)[bads[n - 1]] == pool[bads[n - 1]]
  {
    SpreadKeeps(pool, bads, goods, n - 1);
    NextBad(bads, n);
    assert bads[n - 1] in bads;
  }

  lemma ChosenInPool(pool: seq<Worker>, bads: seq<nat>, goods: seq<nat>, k: nat)
    requires Chosen(pool, bads, goods) && k < |bads|
    ensures bads[k] < |pool| && Turn(goods, k) < |pool|
  {
    assert bads[k] in bads && Turn(goods, k) in goods;
  }

  /** Emptying bad threads into good ones keeps the pool's chroutines, and does each bad thread once. */
  lemma {:induction false} SpreadKeeps(pool: seq<Worker>, bads: seq<nat>, goods: seq<nat>, n: nat)
    requires PoolInv(pool) && n <= |bads| && Chosen(pool, bads, goods)
    ensures Emptied(pool, Spread(pool, bads, goods, n), bads, goods, n)
    decreases n
  {
    if n > 0 {
      ChosenInPool(pool, bads, goods, n - 1);
      SpreadKeeps(pool, bads, goods, n - 1);
      SpreadOne(pool, Spread(pool, bads, goods, n - 1), bads, goods, n, Turn(goods, n - 1));
    }
  }

  lemma SpreadOne(pool: seq<Worker>, q: seq<Worker>, bads: seq<nat>, goods: seq<nat>, n: nat, good: nat)
    requires 0 < n <= |bads| && Chosen(pool, bads, goods)
    requires good == Turn(goods, n - 1) && good < |pool| && bads[n - 1] < |pool|
    requires Emptied(pool, q, bads, goods, n - 1)
    ensures Emptied(pool, Moved(q, bads[n - 1], good), bads, goods, n)
  {
    var bad := bads[n - 1];
    var r := Moved(q, bad, good);
    NextBad(bads, n);
    assert bad in bads;
    MovedConserves(q, bad, good);
    assert Conserved(pool, r);
    forall i: nat | i < |pool| && i in bads[..n]
      ensures r[i].state == Blocking && r[i].sched == Source(pool[i].sched)
    {
      assert i in bads;
      assert i in bads[..n - 1] || i == bad;
    }
  }

  lemma NextBad(bads: seq<nat>, n: nat)
    requires 0 < n <= |bads| && Ascending(bads)
    ensures bads[n - 1] !in bads[..n - 1]
    ensures forall i :: i in bads[..n] <==> i in bads[..n - 1] || i == bads[n - 1]
    ensures forall i :: i in bads[..n] ==> i in bads
  {
    assert bads[..n] == bads[..n - 1] + [bads[n - 1]];
  }

  lemma SameSchedules(pool: seq<Worker>, pool': seq<Worker>)
    requires PoolInv(pool) && |pool'| == |pool| && forall i :: 0 <= i < |pool| ==> pool'[i].sched == pool[i].sched
    ensures Conserved(pool, pool')
  {
    forall id ensures Scheduled(pool', id) <==> Scheduled(pool, id) {
      assert forall i :: 0 <= i < |pool| ==> (id in pool'[i].sched.cos <==> id in pool[i].sched.cos);
    }
  }
}
