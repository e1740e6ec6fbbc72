/** Two runs from an empty schedule that show what can end a wait for a son in another way than FatherSon.WaitForSon
    asks. */
module Scenarios {
  import opened Bytes
  import opened Schedule
  import opened FatherSon

  lemma RunStep(s: Sched, e: Event, es: seq<Event>)
    ensures Run(s, [e] + es) == Run(Step(s, e), es)
  {
    assert ([e] + es)[1..] == es;
  }

  lemma {:induction false} FirstIs(cos: map<Id, Co>, list: seq<Id>, from: nat, k: nat, now: int)
    requires from <= k < |list| && list[k] in cos && Runnable(cos[list[k]], now)
    requires forall j :: from <= j < k ==> list[j] in cos && !Runnable(cos[list[j]], now)
    ensures FirstRunnable(cos, list, from, now) == Some(k)
    decreases k - from
  {
    if from < k {
      FirstIs(cos, list, from + 1, k, now);
    }
  }

  lemma NoTicks(s: Sched, now: int)
    requires forall id :: id in s.cos ==> s.cos[id].yieldWait == 0
    ensures Passed(s, now).cos == s.cos
  {
    var m := Ticked(s.cos, s.list, StartOf(s), |s.list|);
    assert m.Keys == s.cos.Keys;
    assert forall id :: id in m ==> m[id] == s.cos[id];
    assert m == s.cos;
  }

  lemma EndNoWait(s: Sched, d: Id)
    requires d in s.cos && s.cos[d].yieldTo == 0 && s.phantoms == {} && INVALID !in s.cos
    ensures EndWait(s, d, ResultTimeout) == s
  {
    var co := s.cos[d];
    assert Resumed(co) == co.(yieldTo := 0);
    assert s.cos[d := co] == s.cos && s.phantoms - {INVALID} == s.phantoms;
  }

  /** A pass from the front picks the first runnable chroutine, when nobody has ticks to consume and it was not
      waiting. */
  lemma PickFirst(s: Sched, now: int, k: nat)
    requires s.running == INVALID && s.iter == None && s.phantoms == {} && INVALID !in s.cos && k < |s.list|
    requires s.list[k] in s.cos && s.cos[s.list[k]].yieldTo == 0 && Runnable(s.cos[s.list[k]], now)
    requires forall j :: 0 <= j < k ==> s.list[j] in s.cos && !Runnable(s.cos[s.list[j]], now)
    requires forall id :: id in s.cos ==> s.cos[id].yieldWait == 0
    ensures var d := s.list[k];
            Pick(s, now) == s.(toFree := [], cos := s.cos[d := s.cos[d].(state := Running)], running := d,
                               father := s.cos[d].father,
                               iter := if k + 1 < |s.list| then Some(s.list[k + 1]) else None)
  {
    FirstIs(s.cos, s.list, 0, k, now);
    var d, p := s.list[k], Passed(s, now);
    NoTicks(s, now);
    EndNoWait(p, d);
  }

  const WAITER := Co(Suspended, 0, 10, INVALID, 2, Some(7), true, false)
  const SON := Co(Ready, 0, 0, 1, INVALID, None, false, false)

  const CREATED := Sched(map[1 := NEW_CO], [1], None, INVALID, INVALID, [], {}, [])
  const PICKED := Sched(map[1 := NEW_CO.(state := Running)], [1], None, 1, INVALID, [], {}, [])

  /** The father has just created its first son. */
  const FATHER_RUNS := Sched(map[1 := NEW_CO.(state := Running, reporter := Some(7), son := 2), 2 := SON], [1, 2], None,
                             1, INVALID, [], {}, [])

  const FIRST_SON := [ECreate(1), EPick(0), ECreateSon(2, 7)]

  lemma FatherCreated(es: seq<Event>)
    ensures Run(EMPTY, [ECreate(1)] + es) == Run(CREATED, es)
  {
    RunStep(EMPTY, ECreate(1), es);
    assert Step(EMPTY, ECreate(1)) == CREATED;
  }

  lemma FatherPicked(es: seq<Event>)
    ensures Run(CREATED, [EPick(0)] + es) == Run(PICKED, es)
  {
    RunStep(CREATED, EPick(0), es);
    PickFirst(CREATED, 0, 0);
    assert Step(CREATED, EPick(0)).cos == PICKED.cos;
  }

  lemma SonCreated(es: seq<Event>)
    ensures Run(PICKED, [ECreateSon(2, 7)] + es) == Run(FATHER_RUNS, es)
  {
    RunStep(PICKED, ECreateSon(2, 7), es);
    assert [1] + [2] == [1, 2];
    assert Step(PICKED, ECreateSon(2, 7)).cos == FATHER_RUNS.cos;
  }

  lemma FatherRunsReached(es: seq<Event>)
    ensures Run(EMPTY, FIRST_SON + es) == Run(FATHER_RUNS, es)
  {
    assert FIRST_SON + es == [ECreate(1)] + ([EPick(0)] + ([ECreateSon(2, 7)] + es));
    FatherCreated([EPick(0)] + ([ECreateSon(2, 7)] + es));
    FatherPicked([ECreateSon(2, 7)] + es);
    SonCreated(es);
  }

  // ---------- a son wakes its father ----------

  const FATHER_WAITS := Sched(map[1 := WAITER, 2 := SON], [1, 2], None, INVALID, INVALID, [], {}, [])
  const SON_RUNS := Sched(map[1 := WAITER, 2 := SON.(state := Running)], [1, 2], None, 2, 1, [], {}, [])

  /** The son has woken its father: its record waits to be freed while it runs. */
  const SON_STOPPED := Sched(map[1 := WAITER.(son := INVALID, stopSon := false, yieldTo := 0)], [1], None,
                             2, 1, [2], {},
                             [(7, ResultDone)])

  lemma FatherWaits(es: seq<Event>)
    ensures Run(FATHER_RUNS, [EWait(10, true, 0)] + es) == Run(FATHER_WAITS, es)
  {
    RunStep(FATHER_RUNS, EWait(10, true, 0), es);
    assert Step(FATHER_RUNS, EWait(10, true, 0)).cos == FATHER_WAITS.cos;
  }

  lemma SonPicked(es: seq<Event>)
    ensures Run(FATHER_WAITS, [EPick(1)] + es) == Run(SON_RUNS, es)
  {
    RunStep(FATHER_WAITS, EPick(1), es);
    PickFirst(FATHER_WAITS, 1, 1);
    assert Step(FATHER_WAITS, EPick(1)).cos == SON_RUNS.cos;
  }

  lemma FatherWoken()
    ensures Awake(SON_RUNS, 1) == SON_STOPPED
  {
    var s1 := SON_RUNS.(cos := SON_RUNS.cos[1 := Resumed(WAITER)], log := Report([], WAITER, ResultDone));
    assert Orphan(WAITER) == 2 && s1.log == [(7, ResultDone)];
    assert Find([1, 2], 2) == 1;
    assert Without([1, 2], 2) == [1];
    assert s1.cos - {2} == SON_STOPPED.cos && [] + [2] == [2];
    assert Awake(SON_RUNS, 1) == Remove(s1, 2);
  }

  lemma SonWakes(es: seq<Event>)
    ensures Run(SON_RUNS, [EAwake(1)] + es) == Run(SON_STOPPED, es)
  {
    RunStep(SON_RUNS, EAwake(1), es);
    FatherWoken();
  }

  const SON_WAKES := FIRST_SON + [EWait(10, true, 0), EPick(1), EAwake(1)]

  lemma SonStoppedReached(es: seq<Event>)
    ensures Run(EMPTY, SON_WAKES + es) == Run(SON_STOPPED, es)
  {
    var rest := [EWait(10, true, 0)] + ([EPick(1)] + ([EAwake(1)] + es));
    assert SON_WAKES + es == FIRST_SON + rest;
    FatherRunsReached(rest);
    FatherWaits([EPick(1)] + ([EAwake(1)] + es));
    SonPicked([EAwake(1)] + es);
    SonWakes(es);
  }

  lemma SonGoesOn(es: seq<Event>)
    ensures Run(SON_STOPPED, [EYield(1)] + es) == Run(SON_STOPPED.(phantoms := {2}), es)
  {
    RunStep(SON_STOPPED, EYield(1), es);
    assert Step(SON_STOPPED, EYield(1)) == SON_STOPPED.(phantoms := {2});
  }

  lemma SonEnds()
    ensures Step(SON_STOPPED.(phantoms := {2}), EFinish).log == SON_STOPPED.log + [(7, ResultDone)]
  {
    var s := SON_STOPPED.(phantoms := {2});
    assert 2 !in s.cos && s.father == 1 && s.cos[1].reporter == Some(7);
    assert Remove(s, 2).cos == s.cos && Remove(s, 2).log == s.log;
  }

  lemma TwoOutcomes(log: seq<(nat, SonResult)>)
    requires log == [(7, ResultDone)]
    ensures Outcomes(log, 7) == [ResultDone] && Outcomes(log + [(7, ResultDone)], 7) == [ResultDone, ResultDone]
  {
    assert log == [] + [(7, ResultDone)];
    OutcomesSnoc([], (7, ResultDone), 7);
    OutcomesSnoc(log, (7, ResultDone), 7);
  }

  /**
   * A son that wakes its father out of the wait for it is taken off the schedule while it runs: its next yield does not
   * suspend it, and enters a null record into the map. When it ends, its father's reporter is written a second time.
   */
  lemma SonWakesFather()
    ensures var s := Run(EMPTY, SON_WAKES + [EYield(1)]);
            s.running == 2 && 2 !in s.list && s.phantoms == {2} && Outcomes(s.log, 7) == [ResultDone]
    ensures Outcomes(Run(EMPTY, SON_WAKES + [EYield(1), EFinish]).log, 7) == [ResultDone, ResultDone]
  {
    SonStoppedReached([EYield(1)]);
    SonStoppedReached([EYield(1), EFinish]);
    assert [EYield(1)] + [] == [EYield(1)] && [EYield(1)] + [EFinish] == [EYield(1), EFinish]
           && [EFinish] + [] == [EFinish];
    SonGoesOn([]);
    SonGoesOn([EFinish]);
    RunStep(SON_STOPPED.(phantoms := {2}), EFinish, []);
    SonEnds();
    TwoOutcomes(SON_STOPPED.log);
  }

  // ---------- an older son ends ----------

  const WAITER_OF_TWO := WAITER.(son := 3, reporter := Some(8))

  /** The same father has a second son, 3, and waits for it. */
  const TWO_SONS := Sched(map[1 := NEW_CO.(state := Running, reporter := Some(8), son := 3), 2 := SON, 3 := SON],
                          [1, 2, 3], None, 1, INVALID, [], {}, [])
  const FATHER_OF_TWO := Sched(map[1 := WAITER_OF_TWO, 2 := SON, 3 := SON], [1, 2, 3], None,
                               INVALID, INVALID, [], {}, [])
  const OLDER_RUNS := Sched(map[1 := WAITER_OF_TWO, 2 := SON.(state := Running), 3 := SON], [1, 2, 3], Some(3), 2, 1,
                            [], {}, [])
  const OLDER_ENDED := Sched(map[1 := WAITER_OF_TWO.(yieldTo := 0), 3 := SON], [1, 3], Some(3), INVALID, 1, [2], {},
                             [(8, ResultDone)])

  lemma SecondSonCreated(es: seq<Event>)
    ensures Run(FATHER_RUNS, [ECreateSon(3, 8)] + es) == Run(TWO_SONS, es)
  {
    RunStep(FATHER_RUNS, ECreateSon(3, 8), es);
    assert [1, 2] + [3] == [1, 2, 3];
    assert Step(FATHER_RUNS, ECreateSon(3, 8)).cos == TWO_SONS.cos;
  }

  lemma FatherOfTwoWaits(es: seq<Event>)
    ensures Run(TWO_SONS, [EWait(10, true, 0)] + es) == Run(FATHER_OF_TWO, es)
  {
    RunStep(TWO_SONS, EWait(10, true, 0), es);
    assert Step(TWO_SONS, EWait(10, true, 0)).cos == FATHER_OF_TWO.cos;
  }

  lemma PickOlder()
    ensures Pick(FATHER_OF_TWO, 1) == OLDER_RUNS
  {
    FatherOfTwoReady();
    PickFirst(FATHER_OF_TWO, 1, 1);
    assert FATHER_OF_TWO.cos[2 := SON.(state := Running)] == OLDER_RUNS.cos;
  }

  lemma FatherOfTwoReady()
    ensures var s := FATHER_OF_TWO;
            && s.list[0] == 1 && s.list[1] == 2 && s.cos[1] == WAITER_OF_TWO && s.cos[2] == SON
            && forall id :: id in s.cos ==> s.cos[id].yieldWait == 0
    ensures !Runnable(WAITER_OF_TWO, 1) && Runnable(SON, 1)
  {
  }

  lemma OlderPicked(es: seq<Event>)
    ensures Run(FATHER_OF_TWO, [EPick(1)] + es) == Run(OLDER_RUNS, es)
  {
    RunStep(FATHER_OF_TWO, EPick(1), es);
    PickOlder();
  }

  lemma OlderEnds()
    ensures Step(OLDER_RUNS, EFinish) == OLDER_ENDED
  {
    var s := Step(OLDER_RUNS, EFinish);
    assert Find([1, 2, 3], 2) == 1;
    assert Without([1, 2, 3], 2) == [1, 3];
    assert s.cos == OLDER_ENDED.cos;
    assert s.log == [(8, ResultDone)];
  }

  const OLDER_SON_ENDS := FIRST_SON + [ECreateSon(3, 8), EWait(10, true, 0), EPick(1), EFinish]

  /** When the older son finishes, its outcome is written to the younger son's reporter and ends
      the father's wait, although the younger son is still on the schedule. */
  lemma OlderSonAnswers()
    ensures var s := Run(EMPTY, OLDER_SON_ENDS);
            Outcomes(s.log, 8) == [ResultDone] && s.cos.Keys == {1, 3} && s.cos[1].yieldTo == 0
  {
    var rest := [ECreateSon(3, 8)] + ([EWait(10, true, 0)] + ([EPick(1)] + ([EFinish] + [])));
    assert OLDER_SON_ENDS == FIRST_SON + rest;
    FatherRunsReached(rest);
    SecondSonCreated([EWait(10, true, 0)] + ([EPick(1)] + ([EFinish] + [])));
    FatherOfTwoWaits([EPick(1)] + ([EFinish] + []));
    OlderPicked([EFinish] + []);
    RunStep(OLDER_RUNS, EFinish, []);
    OlderEnds();
    OutcomesSnoc([], (8, ResultDone), 8);
    assert [] + [(8, ResultDone)] == [(8, ResultDone)];
  }
}
