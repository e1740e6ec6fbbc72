/** How long a chroutine rests that has yielded, waits or sleeps: over whole runs, until its ticks and its deadline
    are over. */
module Resting {
  import opened Bytes
  import opened Schedule
  import opened FatherSon

  /** Ticks still to be consumed are never negative, and the running chroutine has none. */
  ghost predicate Ticking(s: Sched) {
    && (forall id :: id in s.cos ==> s.cos[id].yieldWait >= 0)
    && (s.running in s.cos ==> s.cos[s.running].yieldWait == 0)
  }

  ghost predicate NoDebt(s: Sched) {
    forall id :: id in s.cos ==> s.cos[id].yieldWait >= 0
  }

  lemma PassedTicks(s: Sched, now: int)
    requires NoDebt(s)
    ensures NoDebt(Passed(s, now))
    ensures Choice(s, now).Some? ==>
              Choice(s, now).value in Passed(s, now).cos && Passed(s, now).cos[Choice(s, now).value].yieldWait == 0
  {
    var cos := Passed(s, now).cos;
    assert cos.Keys == s.cos.Keys;
    assert forall id :: id in cos ==> cos[id] == s.cos[id] || cos[id] == Tick(s.cos[id]);
    if Choice(s, now).Some? {
      var c := Choice(s, now).value;
      assert Tick(s.cos[c]) == s.cos[c] && c in cos;
    }
  }

  lemma SwitchTicks(s: Sched, d: Id)
    requires NoDebt(s) && d in s.cos && s.cos[d].yieldWait == 0
    ensures Ticking(Switch(s, d))
  {
    var s' := EndWait(s, d, ResultTimeout);
    assert NoDebt(s') && (d in s'.cos ==> s'.cos[d].yieldWait == 0);
  }

  lemma PickTicking(s: Sched, now: int)
    requires Ticking(s)
    ensures Ticking(Pick(s, now))
  {
    if s.running == INVALID && s.list != [] {
      PassedTicks(s, now);
      if Choice(s, now).Some? {
        SwitchTicks(Passed(s, now), Choice(s, now).value);
      } else {
        assert INVALID in Passed(s, now).cos ==> INVALID in s.cos;
      }
    }
  }

  lemma StepTicking(s: Sched, e: Event)
    requires Sane(s) && Ticking(s) && NeverUsed(s, e)
    ensures Ticking(Step(s, e))
  {
    match e {
      case EPick(now) => PickTicking(s, now);
      case ECreate(_) =>
      case ECreateSon(_, _) =>
      case _ => assert NoDebt(Step(s, e));
    }
  }

  /** The pass of this step goes over the node of `c`. */
  predicate PassesOver(s: Sched, e: Event, c: Id) {
    e.EPick? && s.running == INVALID && c in s.list && StartOf(s) <= Find(s.list, c)
  }

  /** This step wakes `c`, or answers it. */
  predicate Ends(s: Sched, e: Event, c: Id) {
    e == EAwake(c) || (e.EFinish? && s.running != INVALID && s.father == c)
  }

  /**
   * Until `c` runs again or leaves: it is ready at a time `t` if and only if `ticks` passes have gone over its node and
   * `t` has reached its deadline, or it has none or was woken or answered; and it runs again only by a pass that finds
   * it ready.
   */
  ghost predicate RestsUntil(s: Sched, es: seq<Event>, c: Id, ticks: int, deadline: Option<int>)
    requires c in s.cos
    decreases |es|
  {
    && (forall t :: Runnable(s.cos[c], t) <==> ticks <= 0 && (deadline == None || deadline.value <= t))
    && (es == [] ||
        var s', e := Step(s, es[0]), es[0];
        || c !in s'.cos
        || (s'.running == c && e.EPick? && ticks <= 0 && (deadline == None || deadline.value <= e.now))
        || (s'.running != c
            && RestsUntil(s', es[1..], c, if PassesOver(s, e, c) then ticks - 1 else ticks,
                          if Ends(s, e, c) then None else deadline)))
  }

  /** `c` rests with that much left. */
  ghost predicate Rests(s: Sched, c: Id, ticks: int, deadline: Option<int>) {
    && Sane(s) && Ticking(s) && c in s.cos && s.running != c
    && s.cos[c].yieldWait == (if ticks > 0 then ticks else 0)
    && (deadline.Some? ==> deadline.value != 0)
    && s.cos[c].yieldTo == (if deadline.Some? then deadline.value else 0)
  }

  /** What a step leaves of it. */
  ghost predicate Rested(s: Sched, e: Event, s': Sched, c: Id, ticks: int, deadline: Option<int>) {
    || c !in s'.cos
    || (s'.running == c && e.EPick? && ticks <= 0 && (deadline == None || deadline.value <= e.now))
    || Rests(s', c, if PassesOver(s, e, c) then ticks - 1 else ticks, if Ends(s, e, c) then None else deadline)
  }

  lemma TickOnce(s: Sched, now: int, c: Id, ticks: int, deadline: Option<int>)
    requires Rests(s, c, ticks, deadline) && s.running == INVALID
    ensures var p := Passed(s, now);
            && c in p.cos && p.cos[c].yieldTo == s.cos[c].yieldTo && p.cos[c].son == s.cos[c].son
            && p.cos[c].yieldWait == (var left := if PassesOver(s, EPick(now), c) then ticks - 1 else ticks;
                                      if left > 0 then left else 0)
  {
    var from, at := StartOf(s), Find(s.list, c);
    if at >= from {
      assert s.list[from..][at - from] == c;
    } else {
      assert forall j :: from <= j < |s.list| ==> s.list[j] != c;
    }
    assert s.list[from..] == s.list[from..|s.list|];
  }

  lemma EndWaitOfOther(s: Sched, d: Id, result: SonResult, c: Id)
    requires d in s.cos && c in s.cos && c != d
    ensures var s' := EndWait(s, d, result); s'.running == s.running && (c in s'.cos ==> s'.cos[c] == s.cos[c])
  {
  }

  lemma PickRested(s: Sched, now: int, c: Id, ticks: int, deadline: Option<int>)
    requires Rests(s, c, ticks, deadline)
    ensures Rested(s, EPick(now), Pick(s, now), c, ticks, deadline)
  {
    StepSane(s, EPick(now));
    StepTicking(s, EPick(now));
    if s.running == INVALID {
      TickOnce(s, now, c, ticks, deadline);
      var d := Choice(s, now);
      if d.Some? && d.value != c {
        EndWaitOfOther(Passed(s, now), d.value, ResultTimeout, c);
      }
    }
  }

  lemma AwakeRested(s: Sched, id: Id, c: Id, ticks: int, deadline: Option<int>)
    requires Rests(s, c, ticks, deadline)
    ensures Rested(s, EAwake(id), Awake(s, id), c, ticks, deadline)
  {
    StepSane(s, EAwake(id));
    StepTicking(s, EAwake(id));
    if id == c {
      EndWaitSelf(s, c, ResultDone);
    } else if id in s.cos {
      EndWaitOfOther(s, id, ResultDone, c);
    }
  }

  lemma StepRested(s: Sched, e: Event, c: Id, ticks: int, deadline: Option<int>)
    requires Rests(s, c, ticks, deadline) && NeverUsed(s, e)
    ensures Rested(s, e, Step(s, e), c, ticks, deadline)
  {
    match e {
      case EPick(now) => PickRested(s, now, c, ticks, deadline);
      case EAwake(id) => AwakeRested(s, id, c, ticks, deadline);
      case _ =>
        StepSane(s, e);
        StepTicking(s, e);
    }
  }

  lemma {:induction false} RunRests(s: Sched, es: seq<Event>, c: Id, ticks: int, deadline: Option<int>, ids: set<Id>,
                                    reps: set<nat>)
    requires Rests(s, c, ticks, deadline) && Owned(s, ids, reps) && NewNames(es, ids, reps)
    ensures RestsUntil(s, es, c, ticks, deadline)
    decreases |es|
  {
    if es != [] {
      var e := es[0];
      OwnedIsFresh(s, e, ids, reps);
      StepOwned(s, e, ids, reps);
      StepRested(s, e, c, ticks, deadline);
      var s' := Step(s, e);
      if c in s'.cos && s'.running != c {
        RunRests(s', es[1..], c, if PassesOver(s, e, c) then ticks - 1 else ticks,
                 if Ends(s, e, c) then None else deadline, ids + NewIds(e), reps + NewReporters(e));
      }
    }
  }

  lemma {:induction false} RunTicking(s: Sched, es: seq<Event>, ids: set<Id>, reps: set<nat>)
    requires Sane(s) && Ticking(s) && Owned(s, ids, reps) && NewNames(es, ids, reps)
    ensures Ticking(Run(s, es))
    decreases |es|
  {
    if es != [] {
      OwnedIsFresh(s, es[0], ids, reps);
      StepOwned(s, es[0], ids, reps);
      StepSane(s, es[0]);
      StepTicking(s, es[0]);
      RunTicking(Step(s, es[0]), es[1..], ids + NewIds(es[0]), reps + NewReporters(es[0]));
    }
  }

  /** New names in a run are new in its front. */
  lemma {:induction false} NewNamesFront(es0: seq<Event>, es: seq<Event>, ids: set<Id>, reps: set<nat>)
    requires NewNames(es0 + es, ids, reps)
    ensures NewNames(es0, ids, reps)
    decreases |es0|
  {
    if es0 != [] {
      assert (es0 + es)[1..] == es0[1..] + es;
      NewNamesFront(es0[1..], es, ids + NewIds(es0[0]), reps + NewReporters(es0[0]));
    }
  }

  /** What holds after the events `es0`, with `es` still to come. */
  lemma Started(es0: seq<Event>, es: seq<Event>) returns (ids: set<Id>, reps: set<nat>)
    requires NewNames(es0 + es, {}, {})
    ensures var s := Run(EMPTY, es0); Sane(s) && Ticking(s) && Owned(s, ids, reps) && NewNames(es, ids, reps)
  {
    ids, reps := RunOwned(EMPTY, es0, es, {}, {});
    NewNamesFront(es0, es, {}, {});
    RunTicking(EMPTY, es0, {}, {});
  }

  /**
   * Over every run from an empty schedule, with new names: a chroutine that waits or sleeps for `ms` at time `now`,
   * and is neither woken nor answered, is ready from the time now + ms on and not before, and does not run before a
   * pass at such a time.
   */
  lemma WaitsItsTime(es0: seq<Event>, es: seq<Event>, ms: int, stopSon: bool, now: int)
    requires NewNames(es0 + es, {}, {}) && ms > 0 && now >= 0 && Run(EMPTY, es0).running in Run(EMPTY, es0).cos
    ensures var s := Run(EMPTY, es0);
            var s' := Wait(s, ms, stopSon, now);
            s.running in s'.cos && RestsUntil(s', es, s.running, 0, Some(now + ms))
  {
    var s := Run(EMPTY, es0);
    var ids, reps := Started(es0, es);
    SuspendRests(s, EWait(ms, stopSon, now), ids, reps);
    RunRests(Wait(s, ms, stopSon, now), es, s.running, 0, Some(now + ms), ids, reps);
  }

  /** One that yields `tick` times is ready once exactly that many passes have gone over its node, and not before. */
  lemma YieldsItsTicks(es0: seq<Event>, es: seq<Event>, tick: int)
    requires NewNames(es0 + es, {}, {}) && tick > 0 && Run(EMPTY, es0).running in Run(EMPTY, es0).cos
    ensures var s := Run(EMPTY, es0);
            var s' := Yield(s, tick);
            s.running in s'.cos && RestsUntil(s', es, s.running, tick, None)
  {
    var s := Run(EMPTY, es0);
    var ids, reps := Started(es0, es);
    SuspendRests(s, EYield(tick), ids, reps);
    RunRests(Yield(s, tick), es, s.running, tick, None, ids, reps);
  }

  lemma SuspendRests(s: Sched, e: Event, ids: set<Id>, reps: set<nat>)
    requires Sane(s) && Ticking(s) && Owned(s, ids, reps) && s.running in s.cos
    requires (e.EWait? && e.ms > 0 && e.now >= 0) || (e.EYield? && e.tick > 0)
    ensures Owned(Step(s, e), ids, reps)
    ensures Rests(Step(s, e), s.running, if e.EYield? then e.tick else 0, if e.EWait? then Some(e.now + e.ms) else None)
  {
    StepSane(s, e);
    StepTicking(s, e);
    SuspendInherits(s, e);
    InheritsOwned(s, Step(s, e), ids, reps);
  }
}
