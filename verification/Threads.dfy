/** chroutine_t, its reporter and chroutine_thread_t: the objects, each method proved to take the
    step of module Schedule.  The body of a chroutine between two switches is the environment. */
module Threads {
  import opened Bytes
  import opened Schedule
  import opened Migration

  class Reporter {
    const rid: nat
    var result: SonResult

    constructor (rid: nat)
      ensures this.rid == rid && result == ResultReady
    {
      this.rid, result := rid, ResultReady;
    }
  }

  class Chroutine {
    const me: Id
    var state: CoState
    var yieldWait: int
    var yieldTo: int
    var father: Id
    var son: Id
    var reporter: Reporter?
    var stopSon: bool
    var moved: bool

    constructor (id: Id)
      ensures me == id && Value() == NEW_CO && reporter == null
    {
      me := id;
      state, yieldWait, yieldTo := Ready, 0, 0;
      father, son, reporter := INVALID, INVALID, null;
      stopSon, moved := false, false;
    }

    function Value(): Co
      reads this
    {
      Co(state, yieldWait, yieldTo, father, son, if reporter == null then None else Some(reporter.rid), stopSon, moved)
    }

    /** If the wait is over, returns 0; a pending tick is consumed. */
    method Wait(now: int) returns (left: int)
      modifies `yieldWait
      ensures yieldWait == if old(yieldWait) > 0 then old(yieldWait) - 1 else old(yieldWait)
      ensures left > 0 <==> !Runnable(old(Value()).(moved := false), now)
    {
      if yieldWait > 0 {
        yieldWait := yieldWait - 1;
        return yieldWait + 1;
      }
      if yieldTo != 0 && yieldTo > now {
        return 1;
      }
      return 0;
    }

    /** Called on resumption: ends the wait and returns the son to be stopped, if any. */
    method YieldOver(result: SonResult) returns (stopped: Id)
      modifies this, reporter
      ensures Value() == Resumed(old(Value())) && stopped == Orphan(old(Value())) && reporter == old(reporter)
      ensures reporter != null ==> reporter.result == if StopsSon(old(Value())) then result else old(reporter.result)
    {
      stopped := INVALID;
      if yieldTo != 0 && stopSon {
        if reporter != null {
          reporter.result := result;
        }
        stopped := son;
        son := INVALID;
        stopSon := false;
      }
      yieldTo := 0;
    }

    method SonFinished()
      modifies `yieldTo, reporter
      ensures Value() == old(Value()).(yieldTo := 0) && reporter == old(reporter)
      ensures reporter != null ==> reporter.result == ResultDone
    {
      if reporter != null {
        reporter.result := ResultDone;
      }
      yieldTo := 0;
    }
  }

  datatype ThreadState = Init | RunningThread | Shifting | Blocking | Finished

  function Ids(cs: seq<Chroutine>): seq<Id> {
    seq(|cs|, i requires 0 <= i < |cs| => cs[i].me)
  }

  class ChroutineThread {
    var chroutines: map<Id, Chroutine>
    var phantoms: set<Id>
    var sched: seq<Chroutine>
    var iter: Chroutine?           // null is the list's end
    var toFree: seq<Chroutine>
    var running: Id
    var state: ThreadState
    var entryTime: int
    ghost var father: Id           // the father in the record that entry holds of the running chroutine
    ghost var log: seq<(nat, SonResult)>

    ghost function Cos(): set<Chroutine>
      reads `chroutines
    {
      set id | id in chroutines :: chroutines[id]
    }

    ghost function Reporters(): set<Reporter>
      reads `chroutines, Cos()
    {
      set c | c in Cos() && c.reporter != null :: c.reporter
    }

    /** The map and the list hold the same objects under their own ids. */
    ghost predicate Valid()
      reads `chroutines, `sched, `iter
    {
      && NoDup(Ids(sched))
      && (forall i :: 0 <= i < |sched| ==> sched[i].me in chroutines && chroutines[sched[i].me] == sched[i])
      && (forall id :: id in chroutines ==> chroutines[id] in sched && chroutines[id].me == id)
      && (iter != null ==> iter in sched)
    }

    /** The schedule these objects stand for. */
    ghost function Abs(): Sched
      reads `chroutines, `sched, `iter, `running, `father, `toFree, `phantoms, `log, Cos()
    {
      Sched(map id | id in chroutines :: chroutines[id].Value(), Ids(sched),
            if iter == null then None else Some(iter.me), running, father, Ids(toFree), phantoms, log)
    }

    lemma Registered(id: Id)
      requires Valid() && id in chroutines
      ensures chroutines[id] in sched && chroutines[id].me == id && chroutines[id] in Cos()
    {
    }

    /** A chroutine of this thread is running. */
    ghost predicate Runs()
      reads this, Cos()
    {
      running != INVALID && running in chroutines && chroutines[running].state == Running
    }

    /** When only the chroutine `c` has changed, only its record differs. */
    twostate lemma OnlyChanged(c: Chroutine)
      requires old(Valid()) && Valid() && c in sched
      requires chroutines == old(chroutines)
      requires forall x :: x in old(sched) && x != c ==> x.Value() == old(x.Value())
      ensures Abs().cos == old(Abs()).cos[c.me := c.Value()]
    {
      forall id | id in chroutines
        ensures chroutines[id].Value() == (if id == c.me then c.Value() else old(chroutines[id].Value()))
      {
        assert chroutines[id] in sched && chroutines[id].me == id;
      }
    }

    constructor ()
      ensures Valid() && Abs() == EMPTY && state == Init && entryTime == 0
    {
      chroutines, phantoms, sched, iter, toFree := map[], {}, [], null, [];
      running, father, state, entryTime, log := INVALID, INVALID, Init, 0, [];
    }

    function GetChroutine(id: Id): (c: Chroutine?)
      requires Valid()
      reads `chroutines, `sched, `iter
      ensures c == null <==> id !in chroutines
      ensures c != null ==> c.me == id && c in sched
    {
      if id in chroutines then chroutines[id] else null
    }

    /** remove_chroutine. */
    method RemoveChroutine(id: Id)
      requires Valid()
      modifies this
      ensures Valid() && Abs() == Remove(old(Abs()), id)
      ensures Cos() <= old(Cos()) && state == old(state) && entryTime == old(entryTime)
      ensures forall x :: x in chroutines ==> x in old(chroutines) && chroutines[x] == old(chroutines)[x]
    {
      if id in chroutines {
        RemoveFound(id);
      } else {
        phantoms := phantoms - {id};
      }
    }

    method RemoveFound(id: Id)
      requires Valid() && id in chroutines
      modifies `toFree, `chroutines, `iter, `sched
      ensures Valid() && Abs() == Remove(old(Abs()), id)
      ensures Cos() <= old(Cos())
      ensures forall x :: x in chroutines ==> x in old(chroutines) && chroutines[x] == old(chroutines)[x]
    {
      ghost var before := Abs();
      var k := FindNode(chroutines[id]);
      EraseNode(sched, k);
      Erase(k);
      assert Abs().toFree == before.toFree + [id];
      assert Abs().cos == before.cos - {id};
      assert Abs().iter == After(before.list, id);
    }

    /** Takes the node at position `k` out of list and map; the iterator goes to the next node. */
    method Erase(k: nat)
      requires Valid() && k < |sched|
      modifies `toFree, `chroutines, `iter, `sched
      ensures Valid()
      ensures sched == old(sched[..k] + sched[k + 1..]) && Ids(sched) == Without(old(Ids(sched)), old(sched[k].me))
      ensures chroutines == old(chroutines) - {old(sched[k].me)}
      ensures iter == if k + 1 < |old(sched)| then old(sched[k + 1]) else null
      ensures toFree == old(toFree) + [old(sched[k])]
    {
      EraseNode(sched, k);
      toFree := toFree + [sched[k]];
      chroutines := chroutines - {sched[k].me};
      iter := if k + 1 < |sched| then sched[k + 1] else null;
      assert iter != null ==> Ids(sched)[k + 1] != Ids(sched)[k];
      sched := sched[..k] + sched[k + 1..];
    }

    method FindNode(c: Chroutine) returns (k: nat)
      requires Valid() && c in sched
      ensures k < |sched| && sched[k] == c
    {
      ghost var p: nat :| p < |sched| && sched[p] == c;
      k := 0;
      while sched[k].me != c.me
        invariant k <= p < |sched|
        decreases p - k
      {
        k := k + 1;
      }
      assert chroutines[sched[k].me] == sched[k];
    }

    /** remove_chroutine(c->yield_over(result)). */
    method EndWaitOf(c: Chroutine, result: SonResult)
      requires Valid() && c in sched
      modifies this, c, c.reporter
      ensures Valid() && Abs() == EndWait(old(Abs()), c.me, result)
      ensures Cos() <= old(Cos()) && state == old(state) && entryTime == old(entryTime)
      ensures forall x :: x in chroutines ==> x in old(chroutines) && chroutines[x] == old(chroutines)[x]
    {
      log := if StopsSon(c.Value()) then Report(log, c.Value(), result) else log;
      var stopped := c.YieldOver(result);
      OnlyChanged(c);
      RemoveChroutine(stopped);
    }

    /** One round of the pass: the node's pending tick is consumed unless it has been moved. */
    method Visit(node: Chroutine, now: int) returns (eligible: bool)
      requires Valid() && node in sched
      modifies node`yieldWait
      ensures Valid() && Abs() == old(Abs()).(cos := old(Abs()).cos[node.me := Tick(old(node.Value()))])
      ensures eligible == Runnable(old(node.Value()), now)
    {
      eligible := !node.moved;
      if eligible {
        var left := node.Wait(now);
        eligible := left <= 0;
      }
      OnlyChanged(node);
    }

    /** The pass of pick_run_chroutine over the list: returns the first eligible chroutine, and
        leaves the iterator after it, or at the end if there is none. */
    method Pass(now: int) returns (picked: Chroutine?)
      requires Valid() && |sched| > 0
      modifies `toFree, `iter, Cos()`yieldWait
      ensures Valid() && Abs() == Passed(old(Abs()), now)
      ensures Choice(old(Abs()), now).None? <==> picked == null
      ensures picked != null ==> picked in sched && Choice(old(Abs()), now) == Some(picked.me)
    {
      ghost var s := Abs();
      var from := 0;
      if iter != null {
        from := FindNode(iter);
        FindAt(s.list, from);
      }
      PassedStart(s, now, from);
      ghost var goal, choice := Passed(s, now), Choice(s, now);
      ghost var first;
      picked, first := PassFrom(from, now);
      assert Abs() == goal && choice == if first.Some? then Some(s.list[first.value]) else None;
    }

    method PassFrom(from: nat, now: int) returns (picked: Chroutine?, ghost first: Option<nat>)
      requires Valid() && from <= |sched|
      modifies `toFree, `iter, Cos()`yieldWait
      ensures Valid() && first == FirstRunnable(old(Abs()).cos, old(Abs()).list, from, now)
      ensures Abs() == Advanced(old(Abs()).(cos := Ticked(old(Abs()).cos, old(Abs()).list, from, |sched|)), first)
      ensures picked == null <==> first.None?
      ensures picked != null ==> picked in sched && picked.me == old(Abs()).list[first.value]
    {
      var at := Scan(from, now);
      first := at;
      picked := AdvanceTo(at);
    }

    /** Leaves the iterator after position `first`, or at the end; finished chroutines are freed. */
    method AdvanceTo(first: Option<nat>) returns (picked: Chroutine?)
      requires Valid() && (first.Some? ==> first.value < |sched|)
      modifies `toFree, `iter
      ensures Valid()
      ensures Abs() == Advanced(old(Abs()), first)
      ensures picked == null <==> first.None?
      ensures picked != null ==> picked in sched && picked.me == Abs().list[first.value]
    {
      toFree := [];
      picked := if first.Some? then sched[first.value] else null;
      iter := if first.Some? && first.value + 1 < |sched| then sched[first.value + 1] else null;
      assert Abs().cos == old(Abs()).cos;
    }

    /** Visits every node from position `from` on; the first eligible one is remembered. */
    method Scan(from: nat, now: int) returns (first: Option<nat>)
      requires Valid() && from <= |sched|
      modifies Cos()`yieldWait
      ensures Valid() && Abs() == old(Abs()).(cos := Ticked(old(Abs()).cos, old(Abs()).list, from, |sched|))
      ensures first == FirstRunnable(old(Abs()).cos, old(Abs()).list, from, now)
    {
      ghost var s := Abs();
      HalfwayStart(s, from, now);
      var i := from;
      first := None;
      while i < |sched|
        invariant i <= |sched| == |s.list| && Valid()
        invariant Halfway(s, from, i, now, first, Abs())
      {
        first := VisitAt(s, from, i, now, first);
        i := i + 1;
      }
      HalfwayEnd(s, from, now, first, Abs());
    }

    /** Visits the node at position `i` of a pass over `s` that began at `from`. */
    method VisitAt(ghost s: Sched, ghost from: nat, i: nat, now: int, first: Option<nat>) returns (first': Option<nat>)
      requires Valid() && i < |sched| == |s.list| && Halfway(s, from, i, now, first, Abs())
      modifies Cos()`yieldWait
      ensures Valid() && Halfway(s, from, i + 1, now, first', Abs())
    {
      assert s.list[i] == sched[i].me && sched[i].me in chroutines;
      TickedStep(s.cos, s.list, from, i);
      FoundStep(s, from, i, now, first);
      var eligible := Visit(sched[i], now);
      first' := if eligible && first.None? then Some(i) else first;
    }

    /** pick_run_chroutine up to its swapcontext. */
    method PickRunChroutine(now: int) returns (picks: nat)
      requires Valid()
      modifies this, Cos(), Reporters()
      ensures Valid() && Abs() == Pick(old(Abs()), now)
      ensures picks == if old(running) != INVALID || (|old(sched)| > 0 && Choice(old(Abs()), now).Some?) then 1 else 0
      ensures entryTime == if picks == 1 && old(running) == INVALID then now else old(entryTime)
      ensures Cos() <= old(Cos()) && state == old(state)
      ensures old(running) == INVALID && picks == 1 ==>
                running in old(chroutines) && IsFirstReady(old(Abs()), running, now)
    {
      if running != INVALID {
        return 1;
      }
      if |sched| == 0 {
        toFree := [];
        assert Abs() == old(Abs()).(toFree := []);
        return 0;
      }
      picks := PassAndSwitch(now);
    }

    method PassAndSwitch(now: int) returns (picks: nat)
      requires Valid() && |sched| > 0 && running == INVALID
      modifies this, Cos(), Reporters()
      ensures Valid() && Abs() == Pick(old(Abs()), now)
      ensures picks == if Choice(old(Abs()), now).Some? then 1 else 0
      ensures entryTime == if picks == 1 then now else old(entryTime)
      ensures Cos() <= old(Cos()) && state == old(state)
      ensures picks == 1 ==> running in old(chroutines) && IsFirstReady(old(Abs()), running, now)
    {
      ghost var s := Abs();
      assert Pick(s, now) ==
             if Choice(s, now).Some? then Switch(Passed(s, now), Choice(s, now).value) else Passed(s, now);
      var picked := Pass(now);
      if picked == null {
        return 0;
      }
      ChoiceIsFirst(s, now);
      SwitchTo(picked, now);
      return 1;
    }

    /** The chosen chroutine's wait is over and it gets the thread. */
    method SwitchTo(c: Chroutine, now: int)
      requires Valid() && c in sched && running == INVALID
      modifies this, c, c.reporter
      ensures Valid() && Abs() == Switch(old(Abs()), c.me) && entryTime == now && running == c.me
      ensures Cos() <= old(Cos()) && state == old(state)
    {
      EndWaitOf(c, ResultTimeout);
      StartChroutine(c, now);
    }

    method StartChroutine(c: Chroutine, now: int)
      requires Valid() && (c.me in chroutines ==> chroutines[c.me] == c)
      modifies `running, `father, `entryTime, c`state
      ensures Valid() && Abs() == Start(old(Abs()), c.me) && entryTime == now && running == c.me
    {
      c.state := Running;
      running := c.me;
      entryTime := now;
      if c.me in chroutines {
        father := c.father;
        OnlyChanged(c);
      } else {
        assert forall id :: id in chroutines ==> chroutines[id].me == id;
        assert forall id :: id in chroutines ==> chroutines[id] != c;
        assert Abs().cos == old(Abs()).cos;
      }
    }

    /** The switch back to the scheduler: clear_entry_time. */
    method ClearEntryTime()
      requires Valid()
      modifies `entryTime
      ensures Valid() && entryTime == 0 && Abs() == old(Abs())
    {
      entryTime := 0;
      assert Abs().cos == old(Abs()).cos;
    }

    /** create_chroutine; `id` is the next value of the id generator. */
    method CreateChroutine(id: Id, hasFunc: bool) returns (created: Id)
      requires Valid() && id !in chroutines && id != INVALID
      modifies `chroutines, `sched
      ensures Valid()
      ensures if hasFunc && (state == Init || state == RunningThread)
        then created == id && id in chroutines && Abs() == Create(old(Abs()), id) && fresh(chroutines[id])
        else created == INVALID && Abs() == old(Abs())
      ensures forall x :: x in old(chroutines) ==> x in chroutines && chroutines[x] == old(chroutines)[x]
    {
      if !(state == Init || state == RunningThread) || !hasFunc {
        return INVALID;
      }
      ghost var before := Abs();
      var c := new Chroutine(id);
      NewNode(sched, c);
      chroutines := chroutines[id := c];
      sched := sched + [c];
      assert Abs().cos == before.cos[id := NEW_CO];
      return id;
    }

    /** create_son_chroutine, called by the running chroutine. */
    method CreateSonChroutine(id: Id, hasFunc: bool, reporter: Reporter) returns (son: Id)
      requires Valid() && id !in chroutines && id != INVALID
      modifies `chroutines, `sched, Cos()
      ensures Valid()
      ensures Abs() == TryCreateSon(old(Abs()), state == Init || state == RunningThread, hasFunc, id, reporter.rid)
      ensures son == if (state == Init || state == RunningThread) && old(running in chroutines) && hasFunc then id
              else INVALID
    {
      if !(state == Init || state == RunningThread) || running !in chroutines {
        return INVALID;
      }
      var father := chroutines[running];
      Registered(running);
      TakeReporter(father, reporter);
      son := CreateChroutine(id, hasFunc);
      if son == INVALID {
        return;
      }
      BindSon(father, chroutines[son]);
    }

    method TakeReporter(father: Chroutine, reporter: Reporter)
      requires Valid() && father in sched && running == father.me
      modifies father`reporter
      ensures Valid() && Abs() == WithReporter(old(Abs()), reporter.rid)
    {
      father.reporter := reporter;
      OnlyChanged(father);
    }

    method BindSon(father: Chroutine, son: Chroutine)
      requires Valid() && father in sched && son in sched && father != son && running == father.me
      modifies father`son, son`father
      ensures Valid()
      ensures Abs() == Bound(old(Abs()), father.me, son.me)
    {
      ghost var s := Abs();
      son.father := running;
      father.son := son.me;
      assert forall id :: id in chroutines ==> chroutines[id].me == id;
      forall id | id in chroutines
        ensures chroutines[id].Value() == Bound(s, father.me, son.me).cos[id]
      {
        assert chroutines[id] == father || chroutines[id] == son || (id != father.me && id != son.me);
      }
      assert Abs().cos == Bound(s, father.me, son.me).cos;
    }

    /** yield_current: the running chroutine gives way for `tick` passes. */
    method YieldCurrent(tick: int)
      requires Valid()
      modifies `running, `phantoms, Cos()
      ensures Valid() && Abs() == Schedule.Yield(old(Abs()), tick)
      ensures tick > 0 && old(Runs()) ==>
                running == INVALID && old(running) in chroutines
                && chroutines[old(running)].yieldWait == old(chroutines[running].yieldWait) + tick
    {
      if tick <= 0 || running == INVALID {
        return;
      }
      if running !in chroutines {
        phantoms := phantoms + {running};
        assert Abs().cos == old(Abs()).cos;
        return;
      }
      var co := chroutines[running];
      if co.state != Running {
        return;
      }
      SuspendRunning(co, co.yieldWait + tick, co.yieldTo, co.stopSon);
    }

    /** wait_current, for wait and sleep. */
    method WaitCurrent(ms: int, stopSonAfterWait: bool, now: int)
      requires Valid()
      modifies `running, `phantoms, Cos()
      ensures Valid() && Abs() == Schedule.Wait(old(Abs()), ms, stopSonAfterWait, now)
      ensures ms > 0 && old(Runs()) ==>
                running == INVALID && old(running) in chroutines
                && chroutines[old(running)].yieldTo == now + ms && chroutines[old(running)].stopSon == stopSonAfterWait
    {
      if ms <= 0 || running == INVALID {
        return;
      }
      if running !in chroutines {
        phantoms := phantoms + {running};
        assert Abs().cos == old(Abs()).cos;
        return;
      }
      var co := chroutines[running];
      if co.state != Running {
        return;
      }
      SuspendRunning(co, co.yieldWait, now + ms, stopSonAfterWait);
    }

    method SuspendRunning(co: Chroutine, yieldWait: int, yieldTo: int, stopSon: bool)
      requires Valid() && running in chroutines && chroutines[running] == co
      modifies `running, co
      ensures Valid()
      ensures Abs() == Suspend(old(Abs()), old(co.Value()).(yieldWait := yieldWait, yieldTo := yieldTo,
              stopSon := stopSon))
    {
      co.state := Suspended;
      co.yieldWait, co.yieldTo, co.stopSon := yieldWait, yieldTo, stopSon;
      Registered(running);
      running := INVALID;
      OnlyChanged(co);
    }

    /** awake_chroutine. */
    method AwakeChroutine(id: Id) returns (r: int)
      requires Valid()
      modifies this, Cos(), Reporters()
      ensures Valid() && Abs() == Schedule.Awake(old(Abs()), id)
      ensures r == if id in old(chroutines) then 0 else -1
    {
      var c := GetChroutine(id);
      if c == null {
        return -1;
      }
      EndWaitOf(c, ResultDone);
      return 0;
    }

    /** The end of entry(): the function of `c`, the running chroutine, has returned.  `c` need no longer be on the
        schedule. */
    method EntryReturns(c: Chroutine)
      requires Valid() && c.me == running != INVALID
      modifies this, Cos(), Reporters()
      ensures Valid() && Abs() == Finish(old(Abs()), old(c.father))
      ensures old(c.father) == old(father) ==> Abs() == Step(old(Abs()), EFinish)
    {
      var fatherId := c.father;
      ghost var s := Abs();
      RemoveChroutine(c.me);
      running := INVALID;
      assert Abs().cos == Remove(s, c.me).cos;
      if fatherId != INVALID {
        var father := GetChroutine(fatherId);
        if father != null {
          SonFinishedFor(father);
        }
      }
    }

    method SonFinishedFor(father: Chroutine)
      requires Valid() && father in sched && father.me != INVALID
      modifies `log, father, father.reporter
      ensures Valid() && Abs() == Answer(old(Abs()), father.me)
    {
      log := Report(log, father.Value(), ResultDone);
      father.SonFinished();
      OnlyChanged(father);
    }

    /** resettle: takes over the chroutine held by `c`, under its id. */
    method ResettleChroutine(c: Chroutine) returns (id: Id)
      requires Valid() && c.me !in chroutines
      modifies `chroutines, `sched
      ensures Valid() && id == c.me && Abs() == Resettle(old(Abs()), c.me, old(c.Value()))
      ensures id in chroutines && fresh(chroutines[id])
    {
      ghost var s, co := Abs(), c.Value();
      var copy := new Chroutine(c.me);
      copy.state, copy.yieldWait, copy.yieldTo := c.state, c.yieldWait, c.yieldTo;
      copy.father, copy.son, copy.reporter, copy.stopSon := c.father, c.son, c.reporter, c.stopSon;
      NewNode(sched, copy);
      chroutines := chroutines[c.me := copy];
      sched := sched + [copy];
      assert copy.Value() == co.(moved := false);
      assert Abs().cos == s.cos[c.me := co.(moved := false)];
      return c.me;
    }

    /** move_chroutines_to_thread: all but the running chroutine go to `other`. */
    method MoveChroutinesTo(other: ChroutineThread)
      requires Valid() && other.Valid() && (other != this ==> chroutines.Keys !! other.chroutines.Keys)
      modifies this, Cos()`moved, other`chroutines, other`sched
      ensures Valid() && other.Valid()
      ensures other == this ==> Abs() == old(Abs())
      ensures other != this ==>
                Abs() == Source(old(Abs())) && other.Abs() == Target(old(Abs()), old(other.Abs())) && state == Blocking
    {
      if other != this {
        ghost var s, t := Abs(), other.Abs();
        ghost var source, target := Source(s), Target(s, t);
        SetState(Shifting, other);
        var ids := MoveAway(other);
        SourceIs(s, t, ids);
        SetState(Blocking, other);
        assert Abs() == source && other.Abs() == target;
      }
    }

    method SetState(st: ThreadState, other: ChroutineThread)
      requires Valid() && other.Valid()
      modifies `state
      ensures Valid() && other.Valid() && state == st && Abs() == old(Abs()) && other.Abs() == old(other.Abs())
    {
      state := st;
      assert Abs().cos == old(Abs()).cos && other.Abs().cos == old(other.Abs()).cos;
    }

    method MoveAway(other: ChroutineThread) returns (ids: seq<Id>)
      requires Valid() && other.Valid() && other != this && chroutines.Keys !! other.chroutines.Keys
      modifies this, Cos()`moved, other`chroutines, other`sched
      ensures Valid() && other.Valid()
      ensures ids == Movable(old(Abs()).list, old(running))
      ensures Abs() == RemoveAll(Flagged(old(Abs()), ids), ids)
      ensures other.Abs() == ResettleAll(old(other.Abs()), old(Abs()).cos, ids)
    {
      ids := ResettleIn(other);
      RemoveMoved(ids, other);
    }

    method ResettleIn(other: ChroutineThread) returns (ids: seq<Id>)
      requires Valid() && other.Valid() && other != this && chroutines.Keys !! other.chroutines.Keys
      modifies Cos()`moved, other`chroutines, other`sched
      ensures Valid() && other.Valid()
      ensures ids == Movable(old(Abs()).list, running) && Abs() == Flagged(old(Abs()), ids)
      ensures other.Abs() == ResettleAll(old(other.Abs()), old(Abs()).cos, ids)
    {
      ghost var s, t := Abs(), other.Abs();
      ids := [];
      FlaggedNone(s);
      for i := 0 to |sched|
        invariant Valid() && other.Valid()
        invariant ids == Movable(s.list[..i], running)
        invariant Abs() == Flagged(s, ids) && other.Abs() == ResettleAll(t, s.cos, ids)
      {
        var c := sched[i];
        MovableStep(s.list, i, running);
        assert s.list[i] == c.me && c.me in chroutines && c.me !in t.cos;
        if c.me != running {
          MoveOne(s, t, ids, c, other);
          ids := ids + [c.me];
        }
      }
      assert s.list[..|sched|] == s.list;
    }

    /** One chroutine is resettled, and its original flagged as moved. */
    method MoveOne(ghost s: Sched, ghost t: Sched, ghost ids: seq<Id>, c: Chroutine, other: ChroutineThread)
      requires Valid() && other.Valid() && other != this && c in sched && c.me in s.cos && c.me !in ids
               && c.me !in t.cos
      requires NoDup(ids) && forall id :: id in ids ==> id in s.cos
      requires Abs() == Flagged(s, ids) && other.Abs() == ResettleAll(t, s.cos, ids)
      modifies c`moved, other`chroutines, other`sched
      ensures Valid() && other.Valid()
      ensures Abs() == Flagged(s, ids + [c.me]) && other.Abs() == ResettleAll(t, s.cos, ids + [c.me])
    {
      ResettleAllIs(t, s.cos, ids);
      assert c.me !in other.Abs().cos;
      assert (ids + [c.me])[..|ids|] == ids;
      FlaggedMore(s, ids, c.me);
      assert c.Value() == Flagged(s, ids).cos[c.me];
      var resettled := other.ResettleChroutine(c);
      assert Abs() == Flagged(s, ids) && c !in other.Cos();
      FlagMoved(s, ids, c, other);
    }

    method FlagMoved(ghost s: Sched, ghost ids: seq<Id>, c: Chroutine, other: ChroutineThread)
      requires Valid() && c in sched && c !in other.Cos() && c.me in s.cos && c.me !in ids
      requires Abs() == Flagged(s, ids)
      modifies c`moved
      ensures Valid() && other.Abs() == old(other.Abs())
      ensures Abs() == Flagged(s, ids + [c.me])
    {
      assert c.Value() == Flagged(s, ids).cos[c.me];
      c.moved := true;
      OnlyChanged(c);
      FlaggedMore(s, ids, c.me);
    }

    method RemoveMoved(ids: seq<Id>, other: ChroutineThread)
      requires Valid() && other != this
      modifies this
      ensures Valid() && Abs() == RemoveAll(old(Abs()), ids) && other.Abs() == old(other.Abs())
    {
      for j := 0 to |ids|
        invariant Valid() && Abs() == RemoveAll(old(Abs()), ids[..j]) && other.Abs() == old(other.Abs())
      {
        assert ids[..j + 1][..j] == ids[..j];
        RemoveChroutine(ids[j]);
      }
      assert ids[..|ids|] == ids;
    }
  }

  /** `co` has no tick to consume and its deadline, if it has one, has passed. */
  predicate IsReady(co: Co, now: int) {
    !co.moved && co.yieldWait <= 0 && (co.yieldTo == 0 || co.yieldTo <= now)
  }

  /** Of the chroutines from the iterator on, or from the front if it is at the end, `id` is the first that is ready. */
  ghost predicate IsFirstReady(s: Sched, id: Id, now: int) {
    exists k, from ::
      && 0 <= from <= k < |s.list| && s.list[k] == id && id in s.cos && IsReady(s.cos[id], now)
      && (if s.iter.Some? && s.iter.value in s.list then s.list[from] == s.iter.value else from == 0)
      && forall j :: from <= j < k && s.list[j] in s.cos ==> !IsReady(s.cos[s.list[j]], now)
  }

  lemma ChoiceIsFirst(s: Sched, now: int)
    requires Choice(s, now).Some?
    ensures IsFirstReady(s, Choice(s, now).value, now)
  {
    var from := StartOf(s);
    var k := FirstRunnable(s.cos, s.list, from, now).value;
    assert 0 <= from <= k < |s.list| && s.list[k] == Choice(s, now).value;
  }

  /** create_son_chroutine with its refusals: without a function to run, the father has taken the
      new reporter although no son exists. */
  function TryCreateSon(s: Sched, accepting: bool, hasFunc: bool, id: Id, reporter: nat): Sched {
    if !accepting then s else if hasFunc then CreateSon(s, id, reporter) else WithReporter(s, reporter)
  }

  function WithReporter(s: Sched, reporter: nat): Sched {
    if s.running in s.cos then s.(cos := s.cos[s.running := s.cos[s.running].(reporter := Some(reporter))]) else s
  }

  function Bound(s: Sched, father: Id, son: Id): Sched
    requires father in s.cos && son in s.cos
  {
    var s' := s.(cos := s.cos[son := s.cos[son].(father := father)]);
    s'.(cos := s'.cos[father := s'.cos[father].(son := son)])
  }

  lemma NewNode(cs: seq<Chroutine>, c: Chroutine)
    requires NoDup(Ids(cs)) && forall i :: 0 <= i < |cs| ==> cs[i].me != c.me
    ensures NoDup(Ids(cs + [c])) && Ids(cs + [c]) == Ids(cs) + [c.me]
  {
    var ids := Ids(cs + [c]);
    assert ids == Ids(cs) + [c.me];
    forall i, j | 0 <= i < j < |ids| ensures ids[i] != ids[j] {
      assert ids[i] == cs[i].me;
    }
  }

  function Advanced(s: Sched, first: Option<nat>): Sched {
    s.(toFree := [], iter := if first.Some? && first.value + 1 < |s.list| then Some(s.list[first.value + 1]) else None)
  }

  lemma PassedStart(s: Sched, now: int, from: nat)
    requires from == StartOf(s) <= |s.list|
    ensures var first := FirstRunnable(s.cos, s.list, from, now);
      Passed(s, now) == Advanced(s.(cos := Ticked(s.cos, s.list, from, |s.list|)), first)
      && Choice(s, now) == if first.Some? then Some(s.list[first.value]) else None
  {
  }

  /** `first` is the first eligible position between `from` and `i`, if any. */
  ghost predicate FoundBefore(s: Sched, from: nat, i: nat, now: int, first: Option<nat>) {
    if first.None? then FirstRunnable(s.cos, s.list, from, now) == FirstRunnable(s.cos, s.list, i, now)
    else first.value < i && FirstRunnable(s.cos, s.list, from, now) == first
  }

  lemma SourceIs(s: Sched, t: Sched, ids: seq<Id>)
    requires ids == Movable(s.list, s.running)
    ensures Source(s) == RemoveAll(Flagged(s, ids), ids) && Target(s, t) == ResettleAll(t, s.cos, ids)
  {
  }

  lemma FlaggedNone(s: Sched)
    ensures Flagged(s, []) == s
  {
    assert Flagged(s, []).cos == s.cos;
  }

  lemma FlaggedMore(s: Sched, ids: seq<Id>, id: Id)
    requires id in s.cos && id !in ids
    ensures Flagged(s, ids).cos[id] == s.cos[id]
    ensures var f := Flagged(s, ids); Flagged(s, ids + [id]) == f.(cos := f.cos[id := s.cos[id].(moved := true)])
  {
    var f := Flagged(s, ids);
    assert Flagged(s, ids + [id]).cos == f.cos[id := s.cos[id].(moved := true)];
  }

  /** A pass over `s` from position `from` has reached position `i`, and the schedule is now `a`. */
  ghost predicate Halfway(s: Sched, from: nat, i: nat, now: int, first: Option<nat>, a: Sched) {
    from <= i <= |s.list| && a == s.(cos := Ticked(s.cos, s.list, from, i)) && FoundBefore(s, from, i, now, first)
  }

  lemma HalfwayStart(s: Sched, from: nat, now: int)
    requires from <= |s.list|
    ensures Halfway(s, from, from, now, None, s)
  {
    assert Ticked(s.cos, s.list, from, from) == s.cos;
  }

  lemma HalfwayEnd(s: Sched, from: nat, now: int, first: Option<nat>, a: Sched)
    requires Halfway(s, from, |s.list|, now, first, a)
    ensures a == s.(cos := Ticked(s.cos, s.list, from, |s.list|)) && first == FirstRunnable(s.cos, s.list, from, now)
  {
  }

  lemma FoundStep(s: Sched, from: nat, i: nat, now: int, first: Option<nat>)
    requires FoundBefore(s, from, i, now, first) && i < |s.list| && s.list[i] in s.cos
    ensures FoundBefore(s, from, i + 1, now, if Runnable(s.cos[s.list[i]], now) && first.None? then Some(i) else first)
  {
  }

  lemma TickedStep(cos: map<Id, Co>, list: seq<Id>, from: nat, i: nat)
    requires NoDup(list) && from <= i < |list| && list[i] in cos
    ensures Ticked(cos, list, from, i)[list[i]] == cos[list[i]]
    ensures Ticked(cos, list, from, i + 1) == Ticked(cos, list, from, i)[list[i] := Tick(cos[list[i]])]
  {
    assert list[from..i + 1] == list[from..i] + [list[i]];
    assert list[i] !in list[from..i];
  }

  /** Erasing a list node takes its id out of the list of ids, and leaves the other nodes. */
  lemma EraseNode(cs: seq<Chroutine>, k: nat)
    requires k < |cs| && NoDup(Ids(cs))
    ensures var cs' := cs[..k] + cs[k + 1..];
      Ids(cs') == Without(Ids(cs), cs[k].me) && NoDup(Ids(cs')) && cs[k] !in cs'
      && (forall c :: c in cs' ==> c in cs) && (forall c :: c in cs && c != cs[k] ==> c in cs')
      && After(Ids(cs), cs[k].me) == (if k + 1 < |cs| then Some(cs[k + 1].me) else None)
  {
    var ids, cs' := Ids(cs), cs[..k] + cs[k + 1..];
    assert ids[k] == cs[k].me && Find(ids, ids[k]) == k;
    assert Ids(cs') == Without(ids, cs[k].me);
    WithoutFacts(ids, cs[k].me);
    forall c | c in cs' ensures c in cs && c != cs[k] {
      var i :| 0 <= i < |cs'| && cs'[i] == c;
      assert Ids(cs')[i] == c.me;
      assert c == cs[if i < k then i else i + 1];
    }
    forall c | c in cs && c != cs[k] ensures c in cs' {
      var i :| 0 <= i < |cs| && cs[i] == c;
      assert c == cs'[if i < k then i else i - 1];
    }
  }
}
