/** No chroutine that stays ready is starved, whatever the others do, as long as none is added. */
module Fairness {
  import opened Bytes
  import opened Schedule

  /** `c` is in the schedule, is not running, and nothing but the scheduler keeps it from running
      from time `now` on. */
  ghost predicate Waiting(s: Sched, c: Id, now: int) {
    Sane(s) && c in s.cos && s.running != c && Runnable(s.cos[c], now)
  }

  /** The position of the iterator, End being one past the last node. */
  function IterAt(s: Sched): nat {
    if s.iter.Some? && s.iter.value in s.list then Find(s.list, s.iter.value) else |s.list|
  }

  /** How many passes over an unchanged list it takes at most until `c` is picked. */
  function Distance(s: Sched, c: Id): nat
    requires c in s.list
  {
    var k, p := IterAt(s), Find(s.list, c);
    if k <= p then p - k + 1 else |s.list| - k + p + 1
  }

  /** The bound on the passes that can go by without `c`: it allows for the iterator jumping each
      time the list loses a node. */
  function Rank(s: Sched, c: Id): nat
    requires c in s.list
  {
    |s.list| * |s.list| + Distance(s, c)
  }

  predicate IsPass(s: Sched, e: Event) {
    e.EPick? && s.running == INVALID
  }

  lemma DistanceBounds(s: Sched, c: Id)
    requires Sane(s) && c in s.list
    ensures 1 <= Distance(s, c) <= |s.list|
  {
  }

  lemma SquareGap(m: nat, n: nat)
    requires m < n
    ensures m * m + m <= n * n - n
  {
    var k := n - m;
    assert n * n - n == m * m + 2 * m * k + k * k - m - k;
    assert k * k >= k && m * k >= m;
  }

  /** Shorter lists have lower rank, wherever the iterator is. */
  lemma ShorterRank(s: Sched, s': Sched, c: Id)
    requires Sane(s) && Sane(s') && c in s.list && c in s'.list && |s'.list| < |s.list|
    ensures Rank(s', c) < Rank(s, c)
  {
    DistanceBounds(s, c);
    DistanceBounds(s', c);
    SquareGap(|s'.list|, |s.list|);
  }

  lemma PassedSane(s: Sched, now: int)
    requires Sane(s) && s.running == INVALID
    ensures Sane(Passed(s, now))
  {
    SaneIsInv(s);
    PassedInv(s, now);
    SaneIsInv(Passed(s, now));
  }

  /** A pass that does not choose `c` brings the iterator closer to it. */
  lemma PassedCloser(s: Sched, c: Id, now: int)
    requires Waiting(s, c, now) && s.running == INVALID && Choice(s, now) != Some(c)
    ensures Distance(Passed(s, now), c) < Distance(s, c)
    ensures Waiting(Passed(s, now), c, now) && Passed(s, now).list == s.list
  {
    PassedSane(s, now);
    var from, p := StartOf(s), FirstRunnable(s.cos, s.list, StartOf(s), now);
    var at := Find(s.list, c);
    if p.Some? && p.value + 1 < |s.list| {
      FindAt(s.list, p.value + 1);
    }
    if p.Some? {
      FindAt(s.list, p.value);
    }
    assert s.list[at] == c && (p.None? || p.value != at);
    assert at >= from ==> p.Some? && p.value < at;
  }

  lemma EndWaitOther(s: Sched, id: Id, result: SonResult, c: Id, now: int)
    requires Sane(s) && id in s.cos && c in s.cos && Runnable(s.cos[c], now)
    ensures var s' := EndWait(s, id, result);
      (c in s'.cos ==> Runnable(s'.cos[c], now)) && ((s'.list == s.list && s'.iter == s.iter) || |s'.list| < |s.list|)
  {
    WithoutFacts(s.list, Orphan(s.cos[id]));
  }

  /** From `s` to `s'`, `c` has been served or is still waiting with no higher a rank, and with a
      lower one if the step was a pass. */
  ghost predicate Closer(s: Sched, s': Sched, c: Id, now: int, pass: bool)
    requires c in s.list
  {
    s'.running == c || c !in s'.cos ||
    (&& Waiting(s', c, now)
     && Rank(s', c) + (if pass then 1 else 0) <= Rank(s, c)
     && (s'.list == s.list ==> Distance(s', c) + (if pass then 1 else 0) <= Distance(s, c)))
  }

  lemma PickRank(s: Sched, c: Id, now: int)
    requires Waiting(s, c, now)
    ensures Closer(s, Pick(s, now), c, now, s.running == INVALID)
  {
    if s.running == INVALID {
      if Choice(s, now) == Some(c) {
        PassedSane(s, now);
        SwitchSane(Passed(s, now), c);
      } else {
        PassedCloser(s, c, now);
        var d := Choice(s, now);
        if d.Some? {
          SwitchRank(s, Passed(s, now), d.value, c, now);
        }
      }
    }
  }

  lemma SwitchRank(s: Sched, s1: Sched, d: Id, c: Id, now: int)
    requires Sane(s) && c in s.list && Waiting(s1, c, now) && s1.running == INVALID && d in s1.cos
    requires s1.list == s.list && Distance(s1, c) < Distance(s, c)
    ensures Closer(s, Switch(s1, d), c, now, true)
  {
    var s' := Switch(s1, d);
    SwitchSane(s1, d);
    EndWaitOther(s1, d, ResultTimeout, c, now);
    if c in s'.cos && |s'.list| < |s.list| {
      ShorterRank(s, s', c);
    }
  }

  lemma AwakeRank(s: Sched, id: Id, c: Id, now: int)
    requires Waiting(s, c, now)
    ensures Closer(s, Awake(s, id), c, now, false)
  {
    if id in s.cos {
      var s' := Awake(s, id);
      EndWaitSane(s, id, ResultDone);
      EndWaitOther(s, id, ResultDone, c, now);
      if c in s'.cos && |s'.list| < |s.list| {
        ShorterRank(s, s', c);
      }
    }
  }

  lemma FinishRank(s: Sched, c: Id, now: int)
    requires Waiting(s, c, now)
    ensures Closer(s, Finish(s, s.father), c, now, false)
  {
    StepSane(s, EFinish);
    FinishOther(s, c, now);
    if s.running in s.cos {
      ShorterRank(s, Finish(s, s.father), c);
    }
  }

  lemma FinishOther(s: Sched, c: Id, now: int)
    requires Waiting(s, c, now)
    ensures var s' := Finish(s, s.father);
            && c in s'.cos && c in s'.list && s'.running != c && Runnable(s'.cos[c], now)
            && if s.running in s.cos then |s'.list| < |s.list| else s'.list == s.list && s'.iter == s.iter
  {
    WithoutFacts(s.list, s.running);
  }

  /** Every step that adds nobody serves `c` or brings its turn closer. */
  lemma StepRank(s: Sched, e: Event, c: Id, now: int)
    requires Waiting(s, c, now) && !e.ECreate? && !e.ECreateSon?
    requires e.EPick? ==> now <= e.now
    ensures Closer(s, Step(s, e), c, if e.EPick? then e.now else now, IsPass(s, e))
  {
    match e {
      case EPick(t) => PickRank(s, c, t);
      case EAwake(id) => AwakeRank(s, id, c, now);
      case EFinish => FinishRank(s, c, now);
      case _ => StepSane(s, e);
    }
  }

  // ---------- whole runs ----------

  /** No chroutine is added and time does not go back. */
  ghost predicate Steady(s: Sched, es: seq<Event>, now: int)
    decreases |es|
  {
    es == [] ||
    (&& !es[0].ECreate? && !es[0].ECreateSon?
     && (es[0].EPick? ==> now <= es[0].now)
     && Steady(Step(s, es[0]), es[1..], if es[0].EPick? then es[0].now else now))
  }

  /** Somewhere in the run, `c` gets to run or leaves the schedule. */
  ghost predicate Served(s: Sched, es: seq<Event>, c: Id)
    decreases |es|
  {
    es != [] && (Step(s, es[0]).running == c || c !in Step(s, es[0]).cos || Served(Step(s, es[0]), es[1..], c))
  }

  function Passes(s: Sched, es: seq<Event>): nat
    decreases |es|
  {
    if es == [] then 0 else (if IsPass(s, es[0]) then 1 else 0) + Passes(Step(s, es[0]), es[1..])
  }

  /** The list is the same all through the run. */
  ghost predicate SameList(s: Sched, es: seq<Event>)
    decreases |es|
  {
    es == [] || (Step(s, es[0]).list == s.list && SameList(Step(s, es[0]), es[1..]))
  }

  /** No starvation: on a list of n chroutines, at most n*n + n passes go by before a chroutine
      that stays ready gets to run, no matter who else runs, yields, waits, finishes or is stopped. */
  lemma {:induction false} NoStarvation(s: Sched, es: seq<Event>, c: Id, now: int)
    requires Waiting(s, c, now) && Steady(s, es, now)
    ensures Served(s, es, c) || Passes(s, es) < Rank(s, c) <= |s.list| * |s.list| + |s.list|
    decreases |es|
  {
    DistanceBounds(s, c);
    if es != [] {
      StepRank(s, es[0], c, now);
      var s' := Step(s, es[0]);
      if s'.running != c && c in s'.cos {
        NoStarvation(s', es[1..], c, if es[0].EPick? then es[0].now else now);
      }
    }
  }

  /** While the list stays the same, n passes suffice. */
  lemma {:induction false} PickedWithinOneRound(s: Sched, es: seq<Event>, c: Id, now: int)
    requires Waiting(s, c, now) && Steady(s, es, now) && SameList(s, es)
    ensures Served(s, es, c) || Passes(s, es) < Distance(s, c) <= |s.list|
    decreases |es|
  {
    DistanceBounds(s, c);
    if es != [] {
      StepRank(s, es[0], c, now);
      var s' := Step(s, es[0]);
      if s'.running != c && c in s'.cos {
        PickedWithinOneRound(s', es[1..], c, if es[0].EPick? then es[0].now else now);
      }
    }
  }

  /** Nobody would stop `c` on giving up a wait. */
  ghost predicate NobodysSon(s: Sched, c: Id) {
    forall x :: x in s.cos ==> s.cos[x].son != c
  }

  lemma EndWaitKeeps(s: Sched, id: Id, result: SonResult, c: Id)
    requires id in s.cos && c in s.cos && NobodysSon(s, c) && c != INVALID
    ensures c in EndWait(s, id, result).cos && NobodysSon(EndWait(s, id, result), c)
  {
  }

  lemma SwitchKeeps(s: Sched, d: Id, c: Id)
    requires d in s.cos && c in s.cos && NobodysSon(s, c) && c != INVALID
    ensures c in Switch(s, d).cos && NobodysSon(Switch(s, d), c)
  {
    EndWaitKeeps(s, d, ResultTimeout, c);
  }

  lemma PassedKeeps(s: Sched, c: Id, now: int)
    requires StartOf(s) <= |s.list| && c in s.cos && NobodysSon(s, c)
    ensures Passed(s, now).cos.Keys == s.cos.Keys && NobodysSon(Passed(s, now), c)
  {
    var cos := Ticked(s.cos, s.list, StartOf(s), |s.list|);
    forall x | x in cos ensures cos[x].son != c {
      assert cos[x].son == s.cos[x].son;
    }
  }

  lemma PickKeeps(s: Sched, c: Id, now: int)
    requires c in s.cos && NobodysSon(s, c) && c != INVALID
    ensures c in Pick(s, now).cos && NobodysSon(Pick(s, now), c)
  {
    if s.running == INVALID && s.list != [] {
      PassedKeeps(s, c, now);
      if Choice(s, now).Some? {
        SwitchKeeps(Passed(s, now), Choice(s, now).value, c);
      }
    }
  }

  lemma StepKeeps(s: Sched, e: Event, c: Id, now: int)
    requires Waiting(s, c, now) && NobodysSon(s, c) && !e.ECreate? && !e.ECreateSon?
    ensures c in Step(s, e).cos && NobodysSon(Step(s, e), c)
  {
    match e {
      case EPick(t) => PickKeeps(s, c, t);
      case EAwake(id) => if id in s.cos { EndWaitKeeps(s, id, ResultDone, c); }
      case _ =>
    }
  }

  /** Somewhere in the run, `c` gets to run. */
  ghost predicate GetsToRun(s: Sched, es: seq<Event>, c: Id)
    decreases |es|
  {
    es != [] && (Step(s, es[0]).running == c || GetsToRun(Step(s, es[0]), es[1..], c))
  }

  /** A ready chroutine that is nobody's son is always picked in the end. */
  lemma {:induction false} AlwaysPicked(s: Sched, es: seq<Event>, c: Id, now: int)
    requires Waiting(s, c, now) && Steady(s, es, now) && NobodysSon(s, c)
    ensures GetsToRun(s, es, c) || Passes(s, es) < Rank(s, c) <= |s.list| * |s.list| + |s.list|
    decreases |es|
  {
    DistanceBounds(s, c);
    if es != [] {
      StepRank(s, es[0], c, now);
      StepKeeps(s, es[0], c, now);
      var s' := Step(s, es[0]);
      if s'.running != c {
        AlwaysPicked(s', es[1..], c, if es[0].EPick? then es[0].now else now);
      }
    }
  }
}
