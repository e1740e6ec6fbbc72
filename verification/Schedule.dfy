/** One kernel thread's schedule (schedule_t) and what each scheduler operation does to it, as
    values.  A swapcontext ends a step, so the operations below are the atomic steps. */
module Schedule {
  import opened Bytes

  type Id = int
  const INVALID: Id := -1

  datatype CoState = Ready | Running | Suspended
  datatype SonResult = ResultReady | ResultDone | ResultError | ResultTimeout

  /** chroutine_t; `reporter` names the reporter object, if any. */
  datatype Co = Co(
    state: CoState, yieldWait: int, yieldTo: int, father: Id, son: Id,
    reporter: Option<nat>, stopSon: bool, moved: bool)

  /** `list` is the scheduling order, `iter` the roving iterator (None is End), `father` the father in
      the record that entry holds of the running chroutine, `phantoms` are the ids that the map's
      operator[] has entered with a null pointer, and `log` records every outcome written to a reporter. */
  datatype Sched = Sched(
    cos: map<Id, Co>, list: seq<Id>, iter: Option<Id>, running: Id, father: Id,
    toFree: seq<Id>, phantoms: set<Id>, log: seq<(nat, SonResult)>)

  const EMPTY := Sched(map[], [], None, INVALID, INVALID, [], {}, [])

  predicate NoDup(list: seq<Id>) {
    forall i, j :: 0 <= i < j < |list| ==> list[i] != list[j]
  }

  function Find(list: seq<Id>, id: Id): (k: nat)
    requires id in list
    ensures k < |list| && list[k] == id && id !in list[..k]
  {
    if list[0] == id then 0 else Find(list[1..], id) + 1
  }

  lemma FindAt(list: seq<Id>, k: nat)
    requires NoDup(list) && k < |list|
    ensures Find(list, list[k]) == k
  {
  }

  function Without(list: seq<Id>, id: Id): seq<Id> {
    if id in list then list[..Find(list, id)] + list[Find(list, id) + 1..] else list
  }

  /** The list node after `id`, None when `id` is the last. */
  function After(list: seq<Id>, id: Id): Option<Id>
    requires id in list
  {
    var k := Find(list, id);
    if k + 1 < |list| then Some(list[k + 1]) else None
  }

  // ---------- chroutine_t::wait, yield_over, son_finished ----------

  /** Whether wait(now) returns 0, which is what makes a chroutine eligible. */
  predicate Runnable(co: Co, now: int) {
    !co.moved && co.yieldWait <= 0 && !(co.yieldTo != 0 && co.yieldTo > now)
  }

  /** The side effect of wait: a pending tick is consumed. */
  function Tick(co: Co): Co {
    if !co.moved && co.yieldWait > 0 then co.(yieldWait := co.yieldWait - 1) else co
  }

  /** Whether ending the wait of `co` reports an outcome and stops its son. */
  predicate StopsSon(co: Co) {
    co.yieldTo != 0 && co.stopSon
  }

  function Resumed(co: Co): Co {
    if StopsSon(co) then co.(son := INVALID, stopSon := false, yieldTo := 0) else co.(yieldTo := 0)
  }

  /** The son that yield_over asks its caller to remove. */
  function Orphan(co: Co): Id {
    if StopsSon(co) then co.son else INVALID
  }

  function Report(log: seq<(nat, SonResult)>, co: Co, result: SonResult): seq<(nat, SonResult)> {
    if co.reporter.Some? then log + [(co.reporter.value, result)] else log
  }

  // ---------- chroutine_thread_t ----------

  /** remove_chroutine: whenever a list node goes, the iterator moves to the node after it. */
  function Remove(s: Sched, id: Id): Sched {
    if id in s.cos then
      s.(cos := s.cos - {id}, list := Without(s.list, id), toFree := s.toFree + [id],
         iter := if id in s.list then After(s.list, id) else s.iter)
    else s.(phantoms := s.phantoms - {id})
  }

  /** Ends the wait of chroutine `id` with `result`, and removes the son this orphans. */
  function EndWait(s: Sched, id: Id, result: SonResult): Sched
    requires id in s.cos
  {
    var co := s.cos[id];
    var s' := s.(cos := s.cos[id := Resumed(co)], log := if StopsSon(co) then Report(s.log, co, result) else s.log);
    Remove(s', Orphan(co))
  }

  /** The list position at which a pass starts. */
  function StartOf(s: Sched): (k: nat)
    ensures k <= |s.list|
  {
    if s.iter.Some? && s.iter.value in s.list then Find(s.list, s.iter.value) else 0
  }

  /** The first eligible position from `from` on. */
  function FirstRunnable(cos: map<Id, Co>, list: seq<Id>, from: nat, now: int): (r: Option<nat>)
    ensures r.Some? ==> from <= r.value < |list| && list[r.value] in cos && Runnable(cos[list[r.value]], now)
    ensures forall j :: from <= j < (if r.Some? then r.value else |list|) && list[j] in cos ==>
              !Runnable(cos[list[j]], now)
    decreases |list| - from
  {
    if from >= |list| then None
    else if list[from] in cos && Runnable(cos[list[from]], now) then Some(from)
    else FirstRunnable(cos, list, from + 1, now)
  }

  /** Every chroutine from position `from` on has consumed a tick. */
  function Ticked(cos: map<Id, Co>, list: seq<Id>, from: nat, upto: nat): (m: map<Id, Co>)
    ensures m.Keys == cos.Keys
  {
    if from <= upto <= |list| then
      map id | id in cos :: if id in list[from..upto] then Tick(cos[id]) else cos[id]
    else cos
  }

  /** The pass over the list: who is eligible first, and where the iterator goes. */
  function Passed(s: Sched, now: int): Sched {
    var from := StartOf(s);
    var p := FirstRunnable(s.cos, s.list, from, now);
    s.(toFree := [], cos := Ticked(s.cos, s.list, from, |s.list|),
       iter := if p.Some? && p.value + 1 < |s.list| then Some(s.list[p.value + 1]) else None)
  }

  /** Whom a pass over `s` at time `now` selects. */
  function Choice(s: Sched, now: int): (r: Option<Id>)
    ensures r.Some? ==> r.value in s.cos && Runnable(s.cos[r.value], now)
  {
    var p := FirstRunnable(s.cos, s.list, StartOf(s), now);
    if p.Some? then Some(s.list[p.value]) else None
  }

  /** Chroutine `id` gets the thread. */
  function Start(s: Sched, id: Id): Sched {
    if id in s.cos then s.(cos := s.cos[id := s.cos[id].(state := Running)], running := id, father := s.cos[id].father)
    else s.(running := id)
  }

  /** The chosen chroutine is switched to, its wait being over. */
  function Switch(s: Sched, id: Id): Sched
    requires id in s.cos
  {
    Start(EndWait(s, id, ResultTimeout), id)
  }

  /** pick_run_chroutine up to the switch: a pass happens only when nothing is running. */
  function Pick(s: Sched, now: int): Sched {
    if s.running != INVALID then s
    else if s.list == [] then s.(toFree := [])
    else
      var c := Choice(s, now);
      if c.Some? then Switch(Passed(s, now), c.value) else Passed(s, now)
  }

  const NEW_CO := Co(Ready, 0, 0, INVALID, INVALID, None, false, false)

  /** create_chroutine on a thread that accepts chroutines; `id` comes from the id generator. */
  function Create(s: Sched, id: Id): Sched {
    s.(cos := s.cos[id := NEW_CO], list := s.list + [id])
  }

  /** create_son_chroutine by the running chroutine. */
  function CreateSon(s: Sched, id: Id, reporter: nat): Sched {
    if s.running !in s.cos then s else
    var s' := Create(s.(cos := s.cos[s.running := s.cos[s.running].(reporter := Some(reporter))]), id);
    var s'' := s'.(cos := s'.cos[id := s'.cos[id].(father := s.running)]);
    s''.(cos := s''.cos[s.running := s''.cos[s.running].(son := id)])
  }

  /** The running chroutine gives up the thread with its record changed to `co`. */
  function Suspend(s: Sched, co: Co): Sched
    requires s.running in s.cos
  {
    s.(cos := s.cos[s.running := co.(state := Suspended)], running := INVALID)
  }

  /** yield_current; operator[] on a missing id leaves a null entry behind. */
  function Yield(s: Sched, tick: int): Sched {
    if tick <= 0 || s.running == INVALID then s
    else if s.running !in s.cos then s.(phantoms := s.phantoms + {s.running})
    else
      var co := s.cos[s.running];
      if !co.state.Running? then s else Suspend(s, co.(yieldWait := co.yieldWait + tick))
  }

  /** wait_current, for both wait (stopSon) and sleep. */
  function Wait(s: Sched, ms: int, stopSon: bool, now: int): Sched {
    if ms <= 0 || s.running == INVALID then s
    else if s.running !in s.cos then s.(phantoms := s.phantoms + {s.running})
    else
      var co := s.cos[s.running];
      if !co.state.Running? then s else Suspend(s, co.(yieldTo := now + ms, stopSon := stopSon))
  }

  /** awake_chroutine. */
  function Awake(s: Sched, id: Id): Sched {
    if id in s.cos then EndWait(s, id, ResultDone) else s
  }

  /** son_finished on chroutine `father`, if it is on this thread. */
  function Answer(s: Sched, father: Id): Sched {
    if father != INVALID && father in s.cos then
      var co := s.cos[father];
      s.(cos := s.cos[father := co.(yieldTo := 0)], log := Report(s.log, co, ResultDone))
    else s
  }

  /** The end of entry(): the running chroutine's function has returned; `father` is its father. */
  function Finish(s: Sched, father: Id): Sched {
    if s.running == INVALID then s else Answer(Remove(s, s.running).(running := INVALID), father)
  }

  // ---------- runs ----------

  datatype Event =
    | EPick(now: int)
    | ECreate(id: Id)
    | ECreateSon(id: Id, reporter: nat)
    | EYield(tick: int)
    | EWait(ms: int, stopSon: bool, now: int)
    | EAwake(id: Id)
    | EFinish

  function Step(s: Sched, e: Event): Sched {
    match e
    case EPick(now) => Pick(s, now)
    case ECreate(id) => Create(s, id)
    case ECreateSon(id, reporter) => CreateSon(s, id, reporter)
    case EYield(tick) => Yield(s, tick)
    case EWait(ms, stopSon, now) => Wait(s, ms, stopSon, now)
    case EAwake(id) => Awake(s, id)
    case EFinish => Finish(s, s.father)
  }

  function Run(s: Sched, es: seq<Event>): Sched
    decreases |es|
  {
    if es == [] then s else Run(Step(s, es[0]), es[1..])
  }

  // ---------- the structure of a schedule ----------

  /** Map and list hold the same ids, once each; the iterator is one of them or End; only the
      chroutine with running_id runs. */
  ghost predicate Inv(s: Sched) {
    && NoDup(s.list) && s.phantoms == {} && INVALID !in s.cos
    && (forall id :: id in s.cos <==> id in s.list)
    && (s.iter.Some? ==> s.iter.value in s.list)
    && (s.running != INVALID ==> s.running in s.cos)
    && (forall id :: id in s.cos ==> (s.cos[id].state.Running? <==> id == s.running))
    && (forall id :: id in s.cos ==> !s.cos[id].moved && s.cos[id].son != id)
    && (s.running != INVALID ==> s.cos[s.running].yieldTo == 0 && s.father == s.cos[s.running].father)
  }

  /** New ids are fresh, as the id generator guarantees. */
  ghost predicate FreshIds(s: Sched, e: Event) {
    e.ECreate? || e.ECreateSon? ==> e.id !in s.cos && e.id != INVALID
  }

  /** Waking `id` would stop the very chroutine that is running. */
  predicate StopsRunning(s: Sched, id: Id) {
    id in s.cos && StopsSon(s.cos[id]) && s.cos[id].son == s.running && s.running != INVALID
  }

  lemma WithoutAt(list: seq<Id>, id: Id, i: nat)
    requires id in list && i < |list| - 1
    ensures Without(list, id)[i] == list[if i < Find(list, id) then i else i + 1]
  {
    CutAt(list, Find(list, id), i);
  }

  lemma CutAt(list: seq<Id>, k: nat, i: nat)
    requires k < |list| && i < |list| - 1
    ensures (list[..k] + list[k + 1..])[i] == list[if i < k then i else i + 1]
  {
  }

  lemma WithoutFacts(list: seq<Id>, id: Id)
    requires NoDup(list)
    ensures NoDup(Without(list, id)) && |Without(list, id)| == |list| - (if id in list then 1 else 0)
    ensures forall x :: x in Without(list, id) <==> x in list && x != id
    ensures id in list && After(list, id).Some? ==> After(list, id).value in Without(list, id)
  {
    if id in list {
      var k := Find(list, id);
      var w := Without(list, id);
      forall x | x in list && x != id ensures x in w {
        var i := Find(list, x);
        assert w[if i < k then i else i - 1] == x;
      }
      forall x | x in w ensures x in list && x != id {
        var i := Find(w, x);
        WithoutAt(list, id, i);
      }
      forall i, j | 0 <= i < j < |w| ensures w[i] != w[j] {
        WithoutAt(list, id, i);
        WithoutAt(list, id, j);
      }
    }
  }

  /** What remove_chroutine does to the list and the iterator, by position. */
  lemma RemoveExactly(s: Sched, k: nat)
    requires NoDup(s.list) && k < |s.list| && s.list[k] in s.cos
    ensures var s' := Remove(s, s.list[k]);
            && s'.list == s.list[..k] + s.list[k + 1..]
            && s'.iter == (if k + 1 < |s.list| then Some(s.list[k + 1]) else None)
            && s'.cos == s.cos - {s.list[k]} && s'.toFree == s.toFree + [s.list[k]] && s'.running == s.running
  {
    FindAt(s.list, k);
  }

  lemma RemoveInv(s: Sched, id: Id)
    requires Inv(s) && (id == INVALID || id != s.running)
    ensures Inv(Remove(s, id))
  {
    WithoutFacts(s.list, id);
  }

  lemma EndWaitInv(s: Sched, id: Id, result: SonResult)
    requires Inv(s) && id in s.cos && !StopsRunning(s, id)
    ensures Inv(EndWait(s, id, result)) && id in EndWait(s, id, result).cos
  {
    var co := s.cos[id];
    var s' := s.(cos := s.cos[id := Resumed(co)], log := if StopsSon(co) then Report(s.log, co, result) else s.log);
    assert Inv(s');
    RemoveInv(s', Orphan(co));
  }

  lemma PassedInv(s: Sched, now: int)
    requires Inv(s) && s.running == INVALID
    ensures Inv(Passed(s, now))
  {
  }

  lemma StartInv(s: Sched, id: Id)
    requires Inv(s) && id in s.cos && s.running == INVALID && s.cos[id].yieldTo == 0
    ensures Inv(Start(s, id)) && Start(s, id).running == id
  {
  }

  lemma SwitchInv(s: Sched, id: Id)
    requires Inv(s) && id in s.cos && s.running == INVALID
    ensures Inv(Switch(s, id)) && Switch(s, id).running == id
  {
    EndWaitInv(s, id, ResultTimeout);
    EndWaitSelf(s, id, ResultTimeout);
    StartInv(EndWait(s, id, ResultTimeout), id);
  }

  lemma EndWaitSelf(s: Sched, id: Id, result: SonResult)
    requires id in s.cos && Orphan(s.cos[id]) != id
    ensures var s' := EndWait(s, id, result);
            id in s'.cos && s'.cos[id] == Resumed(s.cos[id]) && s'.running == s.running
  {
  }

  lemma PickInv(s: Sched, now: int)
    requires Inv(s)
    ensures Inv(Pick(s, now))
  {
    if s.running == INVALID && s.list != [] {
      PassedInv(s, now);
      var c := Choice(s, now);
      if c.Some? {
        SwitchInv(Passed(s, now), c.value);
      }
    }
  }

  lemma CreateInv(s: Sched, id: Id)
    requires Inv(s) && id !in s.cos && id != INVALID
    ensures Inv(Create(s, id))
  {
    assert forall x :: x in s.list + [id] <==> x in s.list || x == id;
  }

  lemma CreateSonInv(s: Sched, id: Id, reporter: nat)
    requires Inv(s) && id !in s.cos && id != INVALID
    ensures Inv(CreateSon(s, id, reporter))
  {
    if s.running in s.cos {
      CreateInv(s.(cos := s.cos[s.running := s.cos[s.running].(reporter := Some(reporter))]), id);
    }
  }

  lemma FinishInv(s: Sched, father: Id)
    requires Inv(s)
    ensures Inv(Finish(s, father))
  {
    WithoutFacts(s.list, s.running);
  }

  /** Every step keeps the structure, unless it wakes the father of the running chroutine in a way
      that stops that chroutine. */
  lemma StepInv(s: Sched, e: Event)
    requires Inv(s) && FreshIds(s, e)
    ensures e.EAwake? && StopsRunning(s, e.id) <==> !Inv(Step(s, e))
  {
    match e {
      case EPick(now) => PickInv(s, now);
      case ECreate(id) => CreateInv(s, id);
      case ECreateSon(id, reporter) => CreateSonInv(s, id, reporter);
      case EYield(tick) =>
      case EWait(ms, stopSon, now) =>
      case EAwake(id) =>
        if StopsRunning(s, id) {
          assert s.running !in Awake(s, id).cos;
        } else if id in s.cos {
          EndWaitInv(s, id, ResultDone);
        }
      case EFinish =>
        if s.running != INVALID { FinishInv(s, s.father); }
    }
  }

  // ---------- removed chroutines ----------

  /** A chroutine that waits to be freed is in neither map nor list, and does not run. */
  ghost predicate FreeGone(s: Sched) {
    forall id :: id in s.toFree ==> id != INVALID && id !in s.cos && id !in s.list && s.running != id
  }

  /** New ids are not those of chroutines still to be freed either. */
  ghost predicate NeverUsed(s: Sched, e: Event) {
    FreshIds(s, e) && (e.ECreate? || e.ECreateSon? ==> e.id !in s.toFree)
  }

  lemma RemoveFreeGone(s: Sched, id: Id)
    requires Inv(s) && FreeGone(s)
    ensures FreeGone(Remove(s, id)) <==> !(id in s.cos && id == s.running)
  {
    WithoutFacts(s.list, id);
    if id in s.cos {
      assert Remove(s, id).toFree[|s.toFree|] == id;
    }
  }

  lemma EndWaitFreeGone(s: Sched, id: Id, result: SonResult)
    requires Inv(s) && FreeGone(s) && id in s.cos
    ensures FreeGone(EndWait(s, id, result)) <==> !StopsRunning(s, id)
  {
    var co := s.cos[id];
    var s' := s.(cos := s.cos[id := Resumed(co)], log := if StopsSon(co) then Report(s.log, co, result) else s.log);
    RemoveFreeGone(s', Orphan(co));
  }

  lemma PickFreeGone(s: Sched, now: int)
    requires Inv(s) && FreeGone(s)
    ensures FreeGone(Pick(s, now))
  {
    if s.running == INVALID && s.list != [] && Choice(s, now).Some? {
      var d := Choice(s, now).value;
      PassedInv(s, now);
      EndWaitFreeGone(Passed(s, now), d, ResultTimeout);
      EndWaitSelf(Passed(s, now), d, ResultTimeout);
    }
  }

  /**
   * Removed chroutines pile up in order and are freed only at the start of a pass, when none is running; and no step
   * puts one that still runs, or is still scheduled, among them, except exactly a wake-up that stops the running one.
   */
  lemma FreedAreGone(s: Sched, e: Event)
    requires Inv(s) && FreeGone(s) && NeverUsed(s, e)
    ensures FreeGone(Step(s, e)) <==> !(e.EAwake? && StopsRunning(s, e.id))
    ensures s.toFree <= Step(s, e).toFree || (e.EPick? && s.running == INVALID)
  {
    match e {
      case EPick(now) => PickFreeGone(s, now);
      case EAwake(id) =>
        if id in s.cos {
          EndWaitFreeGone(s, id, ResultDone);
        }
      case EFinish =>
        if s.running != INVALID {
          FinishFreeGone(s);
        }
      case _ =>
    }
  }

  lemma FinishFreeGone(s: Sched)
    requires Inv(s) && FreeGone(s) && s.running != INVALID
    ensures FreeGone(Finish(s, s.father)) && s.toFree <= Finish(s, s.father).toFree
  {
    WithoutFacts(s.list, s.running);
    var s1 := Remove(s, s.running).(running := INVALID);
    assert s1.toFree == s.toFree + [s.running] && s1.cos == s.cos - {s.running};
    assert FreeGone(s1);
  }

  /** create_son_chroutine links father, son and reporter, schedules the son last, and touches nobody else. */
  lemma CreateSonLinks(s: Sched, id: Id, reporter: nat)
    requires s.running in s.cos && id !in s.cos
    ensures var s' := CreateSon(s, id, reporter);
            && s'.list == s.list + [id] && s'.cos.Keys == s.cos.Keys + {id}
            && s'.cos[id] == Co(Ready, 0, 0, s.running, INVALID, None, false, false)
            && s'.cos[s.running] == s.cos[s.running].(son := id, reporter := Some(reporter))
            && (forall c :: c in s.cos && c != s.running ==> s'.cos[c] == s.cos[c])
            && s'.running == s.running && s'.log == s.log
  {
  }

  // ---------- runs in which a wake-up stops the running chroutine ----------

  /**
   * What every step keeps: as in Inv, except that the running chroutine may have been taken off map and list. Its
   * record then waits to be freed, and nothing else can be a null record.
   */
  ghost predicate Sane(s: Sched) {
    && NoDup(s.list) && INVALID !in s.cos
    && (forall id :: id in s.cos <==> id in s.list)
    && (s.iter.Some? ==> s.iter.value in s.list)
    && (forall id :: id in s.cos ==> (s.cos[id].state.Running? <==> id == s.running))
    && (forall id :: id in s.cos ==> !s.cos[id].moved && s.cos[id].son != id)
    && (forall id :: id in s.toFree ==> id != INVALID && id !in s.cos)
    && (s.running in s.cos ==> s.cos[s.running].yieldTo == 0 && s.father == s.cos[s.running].father)
    && (Stopped(s) ==> s.running in s.toFree)
    && s.phantoms <= (if Stopped(s) then {s.running} else {})
  }

  /** The running chroutine has been taken off the schedule. */
  predicate Stopped(s: Sched) {
    s.running != INVALID && s.running !in s.cos
  }

  lemma SaneIsInv(s: Sched)
    ensures Sane(s) && !Stopped(s) <==> Inv(s) && FreeGone(s)
  {
    assert s.phantoms <= {} <==> s.phantoms == {};
  }

  lemma RemoveSane(s: Sched, id: Id)
    requires Sane(s)
    ensures Sane(Remove(s, id))
  {
    WithoutFacts(s.list, id);
    if id in s.cos {
      var s' := Remove(s, id);
      assert s'.cos == s.cos - {id} && s'.toFree == s.toFree + [id] && s'.list == Without(s.list, id);
    }
  }

  lemma EndWaitSane(s: Sched, id: Id, result: SonResult)
    requires Sane(s) && id in s.cos
    ensures Sane(EndWait(s, id, result))
  {
    var co := s.cos[id];
    var s' := s.(cos := s.cos[id := Resumed(co)], log := if StopsSon(co) then Report(s.log, co, result) else s.log);
    assert Sane(s');
    RemoveSane(s', Orphan(co));
  }

  lemma SwitchSane(s: Sched, id: Id)
    requires Sane(s) && id in s.cos && s.running == INVALID
    ensures Sane(Switch(s, id)) && Switch(s, id).running == id
  {
    EndWaitSane(s, id, ResultTimeout);
    EndWaitSelf(s, id, ResultTimeout);
    StartSane(EndWait(s, id, ResultTimeout), id);
  }

  lemma StartSane(s: Sched, id: Id)
    requires Sane(s) && id in s.cos && s.running == INVALID && s.cos[id].yieldTo == 0
    ensures Sane(Start(s, id))
  {
  }

  /** Once the running chroutine is off the schedule, only its end brings back the structure. */
  lemma StoppedStep(s: Sched, e: Event)
    requires Sane(s) && Stopped(s) && NeverUsed(s, e)
    ensures Sane(Step(s, e)) && Step(s, e).running == (if e.EFinish? then INVALID else s.running)
    ensures Stopped(Step(s, e)) <==> !e.EFinish?
  {
    match e {
      case EAwake(id) =>
        if id in s.cos {
          EndWaitSane(s, id, ResultDone);
        }
      case ECreate(id) => assert forall x :: x in s.list + [id] <==> x in s.list || x == id;
      case EFinish => FinishSane(s);
      case _ =>
    }
  }

  lemma FinishSane(s: Sched)
    requires Sane(s) && Stopped(s)
    ensures Sane(Finish(s, s.father)) && Finish(s, s.father).running == INVALID
  {
    var s1 := Remove(s, s.running).(running := INVALID);
    assert s1.phantoms == {} && s1.cos == s.cos;
  }

  /**
   * Every step keeps what Sane says. The running chroutine is taken off the schedule exactly by a wake-up that stops
   * it, and its record is not freed before it has ended.
   */
  lemma StepSane(s: Sched, e: Event)
    requires Sane(s) && NeverUsed(s, e)
    ensures Sane(Step(s, e))
    ensures Stopped(Step(s, e)) <==> (if Stopped(s) then !e.EFinish? else e.EAwake? && StopsRunning(s, e.id))
  {
    SaneIsInv(s);
    SaneIsInv(Step(s, e));
    if Stopped(s) {
      StoppedStep(s, e);
    } else if e.EAwake? && StopsRunning(s, e.id) {
      EndWaitSane(s, e.id, ResultDone);
    } else {
      StepInv(s, e);
      FreedAreGone(s, e);
    }
  }
}
