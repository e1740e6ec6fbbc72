/** A father waiting for its son on one thread: one outcome, and no son left behind. */
module FatherSon {
  import opened Bytes
  import opened Schedule

  /** The outcomes written to reporter `rep` so far. */
  function Outcomes(log: seq<(nat, SonResult)>, rep: nat): seq<SonResult> {
    if log == [] then [] else
    var last := log[|log| - 1];
    Outcomes(log[..|log| - 1], rep) + (if last.0 == rep then [last.1] else [])
  }

  lemma OutcomesSnoc(log: seq<(nat, SonResult)>, entry: (nat, SonResult), rep: nat)
    ensures Outcomes(log + [entry], rep) == Outcomes(log, rep) + (if entry.0 == rep then [entry.1] else [])
  {
    assert (log + [entry])[..|log|] == log;
  }

  /** Father, son and the reporter between them, and when the father's wait for the son is due to end. */
  datatype Bond = Bond(father: Id, son: Id, rep: nat, deadline: int)

  /** Nobody else uses the reporter or has this son. */
  ghost predicate Exclusive(s: Sched, b: Bond) {
    && b.father != INVALID && b.son != INVALID && b.father != b.son
    && (forall c :: c in s.cos && c != b.father ==> s.cos[c].reporter != Some(b.rep) && s.cos[c].son != b.son)
  }

  /** The father waits for the living son and nothing has been reported. */
  ghost predicate Pending(s: Sched, b: Bond) {
    && Exclusive(s, b) && b.father in s.cos && b.son in s.cos && s.running != b.father
    && Outcomes(s.log, b.rep) == []
    && var f := s.cos[b.father];
    f.yieldTo == b.deadline != 0 && f.stopSon && f.son == b.son && f.reporter == Some(b.rep)
        && s.cos[b.son].father == b.father
  }

  /** Exactly `outcome` has been written and the son has left the schedule. */
  ghost predicate Settled(s: Sched, b: Bond, outcome: SonResult) {
    b.son !in s.cos && Outcomes(s.log, b.rep) == [outcome]
  }

  /** The wait is over but the father has not been picked yet. */
  ghost predicate Due(s: Sched, b: Bond) {
    && Settled(s, b, ResultDone) && Exclusive(s, b) && b.father in s.cos && s.running != b.father
    && s.cos[b.father].yieldTo == 0 && s.cos[b.father].reporter == Some(b.rep)
  }

  /** Events as the program can issue them: new ids and reporters are new. */
  ghost predicate Admissible(s: Sched, e: Event, b: Bond) {
    && NeverUsed(s, e)
    && (e.ECreate? ==> e.id != b.son)
    && (e.ECreateSon? ==> e.id != b.son && e.reporter != b.rep)
  }

  /** A son of the waiting father ends that is not the one it waits for, or no longer: an older son, or that very son
      after it has woken its father while it ran.  son_finished asks whose son it is, but not which. */
  predicate Usurped(s: Sched, e: Event, b: Bond) {
    e.EFinish? && s.running != INVALID && s.father == b.father && !(s.running == b.son && b.son in s.cos)
  }

  /** Where a wait can be after a step from `s` to `s'`: still pending, over, resumed from, or its
      father is gone.  A father whose wait was already over finds `done`, the others `timeout`. */
  ghost predicate Phase(s: Sched, s': Sched, b: Bond)
    requires b.father in s.cos
  {
    || Pending(s', b) || Due(s', b) || b.father !in s'.cos
    || (s'.running == b.father && Settled(s', b, if s.cos[b.father].yieldTo == 0 then ResultDone else ResultTimeout))
  }

  /** Before the father runs again: nothing is reported while the wait is on, and the son lives; when it is over,
      exactly done has been reported and the son is gone. */
  ghost predicate Intact(s: Sched, b: Bond)
    requires b.father in s.cos
  {
    if s.cos[b.father].yieldTo != 0 then Outcomes(s.log, b.rep) == [] && b.son in s.cos else Settled(s, b, ResultDone)
  }

  /** What changes for the bond when some other chroutine's wait ends: at most the father leaves. */
  ghost predicate SameBond(s: Sched, s': Sched, b: Bond) {
    && Exclusive(s', b) && Outcomes(s'.log, b.rep) == Outcomes(s.log, b.rep)
    && (b.son in s.cos <==> b.son in s'.cos)
    && (b.father in s'.cos ==> b.father in s.cos && s'.cos[b.father] == s.cos[b.father])
    && (b.son in s'.cos ==> s'.cos[b.son].father == s.cos[b.son].father)
  }

  lemma ReportOther(log: seq<(nat, SonResult)>, co: Co, result: SonResult, rep: nat)
    requires co.reporter != Some(rep)
    ensures Outcomes(Report(log, co, result), rep) == Outcomes(log, rep)
  {
    if co.reporter.Some? {
      OutcomesSnoc(log, (co.reporter.value, result), rep);
    }
  }

  lemma RemoveOther(s: Sched, id: Id, b: Bond)
    requires Exclusive(s, b) && id != b.son
    ensures SameBond(s, Remove(s, id), b)
  {
    assert Remove(s, id).log == s.log && Remove(s, id).cos == s.cos - {id};
  }

  lemma ResumeOther(s: Sched, id: Id, result: SonResult, b: Bond)
    requires Exclusive(s, b) && id in s.cos && id != b.father
    ensures var co := s.cos[id];
      SameBond(s, s.(cos := s.cos[id := Resumed(co)],
                     log := if StopsSon(co) then Report(s.log, co, result) else s.log), b)
  {
    ReportOther(s.log, s.cos[id], result, b.rep);
  }

  lemma EndWaitOther(s: Sched, id: Id, result: SonResult, b: Bond)
    requires Exclusive(s, b) && id in s.cos && id != b.father
    ensures SameBond(s, EndWait(s, id, result), b)
  {
    var co := s.cos[id];
    ResumeOther(s, id, result, b);
    var log := if StopsSon(co) then Report(s.log, co, result) else s.log;
    RemoveOther(s.(cos := s.cos[id := Resumed(co)], log := log), Orphan(co), b);
  }

  lemma EndWaitFather(s: Sched, result: SonResult, b: Bond)
    requires Pending(s, b) || Due(s, b)
    ensures var s' := EndWait(s, b.father, result);
      Exclusive(s', b) && b.father in s'.cos && s'.cos[b.father].yieldTo == 0
      && Settled(s', b, if Pending(s, b) then result else ResultDone)
  {
    var f := s.cos[b.father];
    var s' := EndWait(s, b.father, result);
    assert s'.cos == s.cos[b.father := Resumed(f)] - {Orphan(f)};
    if StopsSon(f) {
      OutcomesSnoc(s.log, (b.rep, result), b.rep);
    }
  }

  /** A change that leaves the bond alone leaves the wait in its phase. */
  lemma SameBondPhase(s: Sched, s': Sched, b: Bond)
    requires (Pending(s, b) || Due(s, b)) && SameBond(s, s', b) && s'.running != b.father
    ensures Phase(s, s', b) && (Pending(s, b) ==> !Due(s', b))
  {
  }

  lemma AwakePhase(s: Sched, id: Id, b: Bond)
    requires Pending(s, b) || Due(s, b)
    ensures Phase(s, Awake(s, id), b)
    ensures Pending(s, b) && Due(Awake(s, id), b) ==> id == b.father
  {
    if id == b.father {
      EndWaitFather(s, ResultDone, b);
    } else if id in s.cos {
      EndWaitOther(s, id, ResultDone, b);
    }
  }

  lemma PassedPhase(s: Sched, now: int, b: Bond)
    requires (Pending(s, b) || Due(s, b)) && s.running == INVALID && StartOf(s) <= |s.list|
    ensures Pending(s, b) ==> Pending(Passed(s, now), b)
    ensures Due(s, b) ==> Due(Passed(s, now), b)
    ensures b.father in Passed(s, now).cos && Passed(s, now).cos[b.father].yieldTo == s.cos[b.father].yieldTo
  {
    assert Passed(s, now).cos.Keys == s.cos.Keys;
  }

  lemma SwitchPhase(s: Sched, d: Id, b: Bond)
    requires (Pending(s, b) || Due(s, b)) && s.running == INVALID && d in s.cos
    ensures Phase(s, Switch(s, d), b)
    ensures Pending(s, b) ==> !Due(Switch(s, d), b)
  {
    if d == b.father {
      EndWaitFather(s, ResultTimeout, b);
    } else {
      EndWaitOther(s, d, ResultTimeout, b);
      StartOther(EndWait(s, d, ResultTimeout), d, b);
      SameBondPhase(s, Switch(s, d), b);
    }
  }

  lemma StartOther(s: Sched, d: Id, b: Bond)
    requires Exclusive(s, b) && d != b.father
    ensures SameBond(s, Start(s, d), b)
  {
  }

  lemma PickPhase(s: Sched, now: int, b: Bond)
    requires Pending(s, b) || Due(s, b)
    ensures Phase(s, Pick(s, now), b)
    ensures Pending(s, b) ==> !Due(Pick(s, now), b)
    ensures Pick(s, now).running == b.father ==> s.cos[b.father].yieldTo <= now || s.cos[b.father].yieldTo == 0
  {
    if s.running == INVALID {
      PassedPhase(s, now, b);
      if s.list != [] && Choice(s, now).Some? {
        SwitchPhase(Passed(s, now), Choice(s, now).value, b);
      }
    }
  }

  lemma SonFinishes(s: Sched, b: Bond)
    requires Pending(s, b) && s.running == b.son
    ensures Due(Finish(s, b.father), b)
  {
    var s1 := Remove(s, b.son).(running := INVALID);
    var f := s.cos[b.father];
    assert s1.cos == s.cos - {b.son} && s1.log == s.log && s1.cos[b.father] == f;
    AnswerFather(s1, b);
  }

  /** son_finished on the waiting father. */
  lemma AnswerFather(s: Sched, b: Bond)
    requires Exclusive(s, b) && b.father in s.cos && b.son !in s.cos && s.running == INVALID
    requires s.cos[b.father].reporter == Some(b.rep) && Outcomes(s.log, b.rep) == []
    ensures Due(Answer(s, b.father), b)
  {
    OutcomesSnoc(s.log, (b.rep, ResultDone), b.rep);
  }

  lemma AnswerOther(s: Sched, father: Id, b: Bond)
    requires Exclusive(s, b) && father != b.father
    ensures SameBond(s, Answer(s, father), b)
  {
    if father in s.cos {
      ReportOther(s.log, s.cos[father], ResultDone, b.rep);
    }
  }

  lemma OtherFinishes(s: Sched, b: Bond)
    requires (Pending(s, b) || Due(s, b)) && Sane(s) && s.running != INVALID
    requires s.running != b.son && s.father != b.father
    ensures Phase(s, Finish(s, s.father), b)
    ensures Pending(s, b) ==> !Due(Finish(s, s.father), b)
  {
    RemoveOther(s, s.running, b);
    var s1 := Remove(s, s.running).(running := INVALID);
    AnswerOther(s1, s.father, b);
    SameBondPhase(s, Answer(s1, s.father), b);
  }

  /** The end of that son writes to the reporter and ends the wait while the awaited son lives, or writes twice. */
  lemma UsurperFinishes(s: Sched, b: Bond)
    requires (Pending(s, b) || Due(s, b)) && Usurped(s, EFinish, b) && Sane(s)
    ensures !Phase(s, Finish(s, b.father), b) && b.father in Finish(s, b.father).cos && !Intact(Finish(s, b.father), b)
  {
    UsurperAnswers(s, b);
  }

  lemma UsurperAnswers(s: Sched, b: Bond)
    requires (Pending(s, b) || Due(s, b)) && Usurped(s, EFinish, b) && Sane(s)
    ensures var t := Finish(s, b.father);
            && Outcomes(t.log, b.rep) == Outcomes(s.log, b.rep) + [ResultDone] && t.running == INVALID
            && b.father in t.cos && t.cos[b.father].yieldTo == 0 && (b.son in t.cos <==> b.son in s.cos)
  {
    var s1 := Remove(s, s.running).(running := INVALID);
    assert s1.cos == s.cos - {s.running} && s1.log == s.log;
    assert Finish(s, b.father).log == s.log + [(b.rep, ResultDone)];
    OutcomesSnoc(s.log, (b.rep, ResultDone), b.rep);
  }

  /** A son that is off the schedule and is not one of this father. */
  lemma StrangerFinishes(s: Sched, b: Bond)
    requires Due(s, b) && Sane(s) && s.running == b.son && s.father != b.father
    ensures Due(Finish(s, s.father), b)
  {
    var s1 := Remove(s, s.running).(running := INVALID);
    assert s1.cos == s.cos && s1.log == s.log;
    AnswerOther(s1, s.father, b);
  }

  lemma FinishPhase(s: Sched, b: Bond)
    requires (Pending(s, b) || Due(s, b)) && Sane(s) && s.running != INVALID
    ensures Phase(s, Finish(s, s.father), b) <==> !Usurped(s, EFinish, b)
    ensures Pending(s, b) ==> (Due(Finish(s, s.father), b) <==> s.running == b.son)
  {
    if Usurped(s, EFinish, b) {
      UsurperFinishes(s, b);
    } else if s.running != b.son {
      OtherFinishes(s, b);
    } else if b.son in s.cos {
      SonFinishes(s, b);
    } else {
      StrangerFinishes(s, b);
    }
  }

  lemma CreatePhase(s: Sched, e: Event, b: Bond)
    requires (Pending(s, b) || Due(s, b)) && Admissible(s, e, b) && (e.ECreate? || e.ECreateSon?)
    ensures Phase(s, Step(s, e), b) && (Pending(s, b) ==> !Due(Step(s, e), b))
  {
  }

  lemma SuspendPhase(s: Sched, e: Event, b: Bond)
    requires (Pending(s, b) || Due(s, b)) && (e.EYield? || e.EWait?)
    ensures Phase(s, Step(s, e), b) && (Pending(s, b) ==> !Due(Step(s, e), b))
  {
  }

  /** The event by which a pending wait is over before its deadline. */
  predicate Answers(s: Sched, e: Event, b: Bond) {
    (e.EFinish? && s.running == b.son) || e == EAwake(b.father)
  }

  /** A step keeps the wait in one of its phases if and only if it is not the end of a usurper: the wait is over
      before its deadline just when the son finishes or the father is woken, and the father runs again early only
      then. */
  lemma StepPhase(s: Sched, e: Event, b: Bond)
    requires Sane(s) && (Pending(s, b) || Due(s, b)) && Admissible(s, e, b)
    ensures Phase(s, Step(s, e), b) <==> !Usurped(s, e, b)
    ensures Usurped(s, e, b) ==> b.father in Step(s, e).cos && Step(s, e).running != b.father && !Intact(Step(s, e), b)
    ensures Pending(s, b) && Due(Step(s, e), b) ==> Answers(s, e, b)
    ensures Step(s, e).running == b.father ==>
      e.EPick? && (s.cos[b.father].yieldTo == 0 || s.cos[b.father].yieldTo <= e.now)
  {
    match e {
      case EPick(now) => PickPhase(s, now, b);
      case EAwake(id) => AwakePhase(s, id, b);
      case EFinish =>
        if s.running != INVALID {
          FinishPhase(s, b);
          if Usurped(s, e, b) {
            UsurperFinishes(s, b);
          }
        }
      case ECreate(id) => CreatePhase(s, e, b);
      case ECreateSon(id, reporter) => CreatePhase(s, e, b);
      case _ => SuspendPhase(s, e, b);
    }
  }

  // ---------- whole runs ----------

  ghost predicate AllAdmissible(s: Sched, es: seq<Event>, b: Bond)
    decreases |es|
  {
    es == [] || (Admissible(s, es[0], b) && AllAdmissible(Step(s, es[0]), es[1..], b))
  }

  /** Before the father first runs again, a usurper ends. */
  ghost predicate Usurps(s: Sched, es: seq<Event>, b: Bond)
    decreases |es|
  {
    es != [] &&
    (|| Usurped(s, es[0], b)
     || (var s' := Step(s, es[0]); b.father in s'.cos && s'.running != b.father && Usurps(s', es[1..], b)))
  }

  /** `id` is in neither map nor list, and does not run, at any point of the run. */
  ghost predicate GoneForGood(s: Sched, es: seq<Event>, id: Id)
    decreases |es|
  {
    id !in s.cos && id !in s.list && s.running != id && (es == [] || GoneForGood(Step(s, es[0]), es[1..], id))
  }

  /** When the father first runs again, exactly one outcome is there (done if the wait had been
      answered, timeout if its deadline has passed) and the son is gone for good; until then the wait is intact. */
  ghost predicate ResumesSettled(s: Sched, es: seq<Event>, b: Bond)
    requires b.father in s.cos
    decreases |es|
  {
    es == [] ||
    var s', yieldTo := Step(s, es[0]), s.cos[b.father].yieldTo;
    if b.father !in s'.cos then true
    else if s'.running == b.father then
      && Settled(s', b, if yieldTo == 0 then ResultDone else ResultTimeout)
      && (yieldTo != 0 ==> es[0].EPick? && b.deadline <= es[0].now)
      && GoneForGood(s', es[1..], b.son)
    else
      && Intact(s', b) && (yieldTo != 0 && s'.cos[b.father].yieldTo == 0 ==> Answers(s, es[0], b))
      && ResumesSettled(s', es[1..], b)
  }

  lemma {:induction false} StaysGone(s: Sched, es: seq<Event>, b: Bond)
    requires Sane(s) && AllAdmissible(s, es, b) && b.son !in s.cos && b.son != INVALID && s.running != b.son
    ensures GoneForGood(s, es, b.son)
    decreases |es|
  {
    if es != [] {
      StepSane(s, es[0]);
      StepAddsNobody(s, es[0], b.son);
      StaysGone(Step(s, es[0]), es[1..], b);
    }
  }

  lemma StepAddsNobody(s: Sched, e: Event, id: Id)
    requires Sane(s) && id !in s.cos && s.running != id && id != INVALID && (e.ECreate? || e.ECreateSon? ==> e.id != id)
    ensures id !in Step(s, e).cos && Step(s, e).running != id
  {
    match e {
      case EPick(now) => PickAddsNobody(s, now, id);
      case _ =>
    }
  }

  lemma PickAddsNobody(s: Sched, now: int, id: Id)
    requires id !in s.cos && s.running != id && id != INVALID
    ensures id !in Pick(s, now).cos && Pick(s, now).running != id
  {
    if s.running == INVALID && s.list != [] && Choice(s, now).Some? {
      assert Passed(s, now).cos.Keys == s.cos.Keys;
    }
  }

  lemma {:induction false} PhasesToResumption(s: Sched, es: seq<Event>, b: Bond)
    requires Sane(s) && (Pending(s, b) || Due(s, b)) && AllAdmissible(s, es, b)
    ensures ResumesSettled(s, es, b) <==> !Usurps(s, es, b)
    decreases |es|
  {
    if es != [] {
      StepPhase(s, es[0], b);
      StepSane(s, es[0]);
      var s' := Step(s, es[0]);
      if !Usurped(s, es[0], b) && b.father in s'.cos {
        if s'.running == b.father {
          StaysGone(s', es[1..], b);
        } else {
          PhasesToResumption(s', es[1..], b);
        }
      }
    }
  }

  /** A father that waits for its living son with a positive timeout, and nothing yet reported, resumes with exactly
      one outcome in the reporter, done or timeout, and with the son gone for good, if and only if no usurper ends
      before that. */
  lemma WaitForSon(s: Sched, b: Bond, ms: int, now: int, es: seq<Event>)
    requires Sane(s) && Exclusive(s, b) && s.running == b.father && b.father in s.cos && b.son in s.cos
    requires s.cos[b.father].son == b.son && s.cos[b.father].reporter == Some(b.rep)
    requires s.cos[b.son].father == b.father && Outcomes(s.log, b.rep) == []
    requires ms > 0 && now >= 0 && b.deadline == now + ms
    requires AllAdmissible(Wait(s, ms, true, now), es, b)
    ensures var s' := Wait(s, ms, true, now);
            b.father in s'.cos && (ResumesSettled(s', es, b) <==> !Usurps(s', es, b))
  {
    PhasesToResumption(Wait(s, ms, true, now), es, b);
  }

  // ---------- no two fathers share a son or a reporter ----------

  /** The ids and reporters that the events of a run bring in are new each time. */
  ghost predicate NewNames(es: seq<Event>, ids: set<Id>, reps: set<nat>)
    decreases |es|
  {
    es == [] ||
    (&& (es[0].ECreate? || es[0].ECreateSon? ==> es[0].id !in ids && es[0].id != INVALID)
     && (es[0].ECreateSon? ==> es[0].reporter !in reps)
     && NewNames(es[1..], ids + NewIds(es[0]), reps + NewReporters(es[0])))
  }

  function NewIds(e: Event): set<Id> {
    if e.ECreate? || e.ECreateSon? then {e.id} else {}
  }

  function NewReporters(e: Event): set<nat> {
    if e.ECreateSon? then {e.reporter} else {}
  }

  /** Every id and reporter in use has been brought in before, and nobody else has the same son or reporter. */
  ghost predicate Owned(s: Sched, ids: set<Id>, reps: set<nat>) {
    && INVALID !in s.cos && (forall c :: c in s.toFree ==> c in ids)
    && (forall c :: c in s.cos ==> c in ids && s.cos[c].son != c && (s.cos[c].son != INVALID ==> s.cos[c].son in ids))
    && (forall c :: c in s.cos && s.cos[c].reporter.Some? ==> s.cos[c].reporter.value in reps)
    && (forall entry :: entry in s.log ==> entry.0 in reps)
    && (forall c, d :: c in s.cos && d in s.cos && c != d ==>
      && (s.cos[c].son == s.cos[d].son ==> s.cos[c].son == INVALID)
      && (s.cos[c].reporter == s.cos[d].reporter ==> s.cos[c].reporter == None))
  }

  ghost predicate UsesReporter(s: Sched, rep: nat) {
    exists c :: c in s.cos && s.cos[c].reporter == Some(rep)
  }

  /** No chroutine is new, and each keeps its reporter and keeps or loses its son. */
  ghost predicate Inherits(s: Sched, s': Sched) {
    && (forall c :: c in s'.toFree ==> c in s.toFree || c in s.cos)
    && (forall entry :: entry in s'.log ==> entry in s.log || UsesReporter(s, entry.0))
    && forall c :: c in s'.cos ==>
      c in s.cos && s'.cos[c].reporter == s.cos[c].reporter
          && (s'.cos[c].son == s.cos[c].son || s'.cos[c].son == INVALID)
  }

  lemma EndWaitInherits(s: Sched, id: Id, result: SonResult)
    requires id in s.cos
    ensures Inherits(s, EndWait(s, id, result))
  {
  }

  lemma PickInherits(s: Sched, now: int)
    ensures Inherits(s, Pick(s, now))
  {
    if s.running == INVALID && s.list != [] {
      assert Inherits(s, Passed(s, now));
      if Choice(s, now).Some? {
        EndWaitInherits(Passed(s, now), Choice(s, now).value, ResultTimeout);
      }
    }
  }

  lemma CreateOwned(s: Sched, id: Id, ids: set<Id>, reps: set<nat>)
    requires Owned(s, ids, reps) && id !in ids && id != INVALID
    ensures Owned(Create(s, id), ids + {id}, reps)
  {
  }

  lemma CreateSonOwned(s: Sched, id: Id, reporter: nat, ids: set<Id>, reps: set<nat>)
    requires Owned(s, ids, reps) && id !in ids && id != INVALID && reporter !in reps
    ensures Owned(CreateSon(s, id, reporter), ids + {id}, reps + {reporter})
  {
  }

  lemma StepOwned(s: Sched, e: Event, ids: set<Id>, reps: set<nat>)
    requires Owned(s, ids, reps) && NewNames([e], ids, reps)
    ensures Owned(Step(s, e), ids + NewIds(e), reps + NewReporters(e))
  {
    match e {
      case EPick(now) => PickInherits(s, now);
      case EAwake(id) =>
        if id in s.cos {
          EndWaitInherits(s, id, ResultDone);
        }
      case ECreate(id) => CreateOwned(s, id, ids, reps);
      case ECreateSon(id, reporter) => CreateSonOwned(s, id, reporter, ids, reps);
      case EFinish => FinishInherits(s);
      case _ => SuspendInherits(s, e);
    }
    if !e.ECreate? && !e.ECreateSon? {
      InheritsOwned(s, Step(s, e), ids, reps);
    }
  }

  lemma FinishInherits(s: Sched)
    ensures Inherits(s, Finish(s, s.father))
  {
  }

  lemma SuspendInherits(s: Sched, e: Event)
    requires e.EYield? || e.EWait?
    ensures Inherits(s, Step(s, e))
  {
  }

  lemma InheritsOwned(s: Sched, s': Sched, ids: set<Id>, reps: set<nat>)
    requires Owned(s, ids, reps) && Inherits(s, s')
    ensures Owned(s', ids, reps) && ids + {} == ids && reps + {} == reps
  {
  }

  lemma OwnedIsFresh(s: Sched, e: Event, ids: set<Id>, reps: set<nat>)
    requires Owned(s, ids, reps) && (e.ECreate? || e.ECreateSon? ==> e.id !in ids && e.id != INVALID)
    ensures NeverUsed(s, e)
  {
  }

  /** What holds after the events `es`, with `rest` still to come. */
  lemma {:induction false} RunOwned(s: Sched, es: seq<Event>, rest: seq<Event>, ids: set<Id>, reps: set<nat>)
    returns (ids': set<Id>, reps': set<nat>)
    requires Sane(s) && Owned(s, ids, reps) && NewNames(es + rest, ids, reps)
    ensures Sane(Run(s, es)) && Owned(Run(s, es), ids', reps') && NewNames(rest, ids', reps')
    decreases |es|
  {
    if es == [] {
      assert es + rest == rest;
      return ids, reps;
    }
    assert (es + rest)[1..] == es[1..] + rest;
    OwnedIsFresh(s, es[0], ids, reps);
    StepSane(s, es[0]);
    StepOwned(s, es[0], ids, reps);
    ids', reps' := RunOwned(Step(s, es[0]), es[1..], rest, ids + NewIds(es[0]), reps + NewReporters(es[0]));
  }

  lemma {:induction false} NewNamesAdmissible(s: Sched, es: seq<Event>, ids: set<Id>, reps: set<nat>, b: Bond)
    requires Owned(s, ids, reps) && NewNames(es, ids, reps) && b.son in ids && b.rep in reps
    ensures AllAdmissible(s, es, b)
    decreases |es|
  {
    if es != [] {
      OwnedIsFresh(s, es[0], ids, reps);
      StepOwned(s, es[0], ids, reps);
      NewNamesAdmissible(Step(s, es[0]), es[1..], ids + NewIds(es[0]), reps + NewReporters(es[0]), b);
    }
  }

  lemma {:induction false} NothingReported(log: seq<(nat, SonResult)>, rep: nat)
    requires forall entry :: entry in log ==> entry.0 != rep
    ensures Outcomes(log, rep) == []
    decreases |log|
  {
    if log != [] {
      assert log[|log| - 1] in log;
      assert forall entry :: entry in log[..|log| - 1] ==> entry in log;
      NothingReported(log[..|log| - 1], rep);
    }
  }

  /** Over whole runs from an empty schedule, nobody but the latest son of a father has that son's name or reporter. */
  lemma ExclusiveInRuns(es: seq<Event>, b: Bond)
    requires NewNames(es, {}, {})
    requires var s := Run(EMPTY, es);
             b.father in s.cos && s.cos[b.father].son == b.son != INVALID && s.cos[b.father].reporter == Some(b.rep)
    ensures Exclusive(Run(EMPTY, es), b)
  {
    assert es + [] == es;
    var ids, reps := RunOwned(EMPTY, es, [], {}, {});
    OwnedExclusive(Run(EMPTY, es), b, ids, reps);
  }

  lemma OwnedExclusive(s: Sched, b: Bond, ids: set<Id>, reps: set<nat>)
    requires Owned(s, ids, reps) && b.father in s.cos
    requires s.cos[b.father].son == b.son != INVALID && s.cos[b.father].reporter == Some(b.rep)
    ensures Exclusive(s, b) && b.son in ids && b.rep in reps
  {
  }

  lemma WaitOwned(s: Sched, ms: int, now: int, ids: set<Id>, reps: set<nat>)
    requires Owned(s, ids, reps)
    ensures Owned(Wait(s, ms, true, now), ids, reps)
  {
    SuspendInherits(s, EWait(ms, true, now));
    InheritsOwned(s, Wait(s, ms, true, now), ids, reps);
  }

  /**
   * WaitForSon over whole runs from an empty schedule: with new ids and reporters each time, it holds of every father
   * that waits for its living latest son.
   */
  lemma WaitForSonInRuns(es0: seq<Event>, es: seq<Event>, b: Bond, ms: int, now: int)
    requires NewNames(es0 + es, {}, {}) && ms > 0 && now >= 0 && b.deadline == now + ms
    requires var s := Run(EMPTY, es0);
             && s.running == b.father && b.father in s.cos && s.cos[b.father].son == b.son
             && s.cos[b.father].reporter == Some(b.rep) && b.son in s.cos && s.cos[b.son].father == b.father
             && Outcomes(s.log, b.rep) == []
    ensures var s' := Wait(Run(EMPTY, es0), ms, true, now);
            b.father in s'.cos && (ResumesSettled(s', es, b) <==> !Usurps(s', es, b))
  {
    var s := Run(EMPTY, es0);
    var ids, reps := RunOwned(EMPTY, es0, es, {}, {});
    OwnedExclusive(s, b, ids, reps);
    WaitOwned(s, ms, now, ids, reps);
    NewNamesAdmissible(Wait(s, ms, true, now), es, ids, reps, b);
    WaitForSon(s, b, ms, now, es);
  }

  /**
   * The use that the waiting is for: in any run, the running chroutine creates a son with a new reporter and waits for
   * it. It resumes with exactly one outcome, done, or timeout from the deadline on, and with the son gone for good, if
   * and only if no usurper ends before that.
   */
  lemma CreateAndWait(es0: seq<Event>, id: Id, rep: nat, ms: int, now: int, es: seq<Event>)
    requires NewNames(es0 + [ECreateSon(id, rep)] + es, {}, {}) && ms > 0 && now >= 0
    requires Run(EMPTY, es0).running in Run(EMPTY, es0).cos
    ensures var s := CreateSon(Run(EMPTY, es0), id, rep);
            var s', b := Wait(s, ms, true, now), Bond(s.running, id, rep, now + ms);
            b.father in s'.cos && (ResumesSettled(s', es, b) <==> !Usurps(s', es, b))
  {
    var s0, e := Run(EMPTY, es0), ECreateSon(id, rep);
    assert es0 + [e] + es == es0 + ([e] + es) && ([e] + es)[1..] == es && ([e] + es)[0] == e;
    var ids, reps := RunOwned(EMPTY, es0, [e] + es, {}, {});
    OwnedIsFresh(s0, e, ids, reps);
    NothingReported(s0.log, rep);
    CreateSonLinks(s0, id, rep);
    StepSane(s0, e);
    StepOwned(s0, e, ids, reps);
    CreatedWaits(s0, id, rep, ms, now, es, ids + NewIds(e), reps + NewReporters(e));
  }

  lemma CreatedWaits(s0: Sched, id: Id, rep: nat, ms: int, now: int, es: seq<Event>, ids: set<Id>, reps: set<nat>)
    requires s0.running in s0.cos && id !in s0.cos && id != INVALID && Outcomes(s0.log, rep) == []
    requires var s := CreateSon(s0, id, rep); Sane(s) && Owned(s, ids, reps) && NewNames(es, ids, reps)
    requires ms > 0 && now >= 0
    ensures var s := CreateSon(s0, id, rep);
            var s', b := Wait(s, ms, true, now), Bond(s.running, id, rep, now + ms);
            b.father in s'.cos && (ResumesSettled(s', es, b) <==> !Usurps(s', es, b))
  {
    var s := CreateSon(s0, id, rep);
    var b := Bond(s.running, id, rep, now + ms);
    CreateSonLinks(s0, id, rep);
    OwnedExclusive(s, b, ids, reps);
    WaitOwned(s, ms, now, ids, reps);
    NewNamesAdmissible(Wait(s, ms, true, now), es, ids, reps, b);
    WaitForSon(s, b, ms, now, es);
  }

  /**
   * Over whole runs from an empty schedule, a chroutine that waits to be freed is in neither map nor list. It runs only
   * if it has been taken off the schedule while it ran, and what has been taken off so waits to be freed.
   */
  lemma FreedInRuns(es: seq<Event>)
    requires NewNames(es, {}, {})
    ensures var s := Run(EMPTY, es);
            && Sane(s) && (forall id :: id in s.toFree ==> id !in s.cos && id !in s.list)
            && (Stopped(s) <==> s.running in s.toFree) && (!Stopped(s) <==> Inv(s) && FreeGone(s))
  {
    assert es + [] == es;
    var _, _ := RunOwned(EMPTY, es, [], {}, {});
    SaneIsInv(Run(EMPTY, es));
  }
}
