/** The asynchronous logger's worker pool (thread_pool.h) as interleaved atomic steps on its queue. */
module ThreadPool {
  import opened Bytes
  import opened LogQueue

  datatype Msg = Log(text: seq<byte>) | Flush | Terminate

  /** A worker waits for a message, handles one, or has left its loop. */
  datatype Worker = Waiting | Holding(pos: nat, msg: Msg) | Exited

  /**
   * `closing` once the destructor runs and `posted` the terminate messages it has queued. The rest is history:
   * everything enqueued, everything dequeued with its place in `enqueued` and the worker that took it, and the
   * positions in `dequeued` whose handling has finished, in order of completion.
   */
  datatype Pool = Pool(
    cap: nat, queue: seq<Msg>, overrun: nat, workers: seq<Worker>, closing: bool, posted: nat, joined: bool,
    enqueued: seq<Msg>, dequeued: seq<Msg>, taken: seq<nat>, takers: seq<nat>, handled: seq<nat>)

  function Start(cap: nat, n: nat): Pool {
    Pool(cap, [], 0, seq(n, _ => Waiting), false, 0, false, [], [], [], [], [])
  }

  datatype Step =
    | Post(msg: Msg, block: bool)
    | Close
    | PostTerminate
    | Dequeue(w: nat)
    | Timeout(w: nat)
    | Finish(w: nat)
    | Join

  predicate AllExited(workers: seq<Worker>) {
    forall w :: 0 <= w < |workers| ==> workers[w].Exited?
  }

  /** A call that would block is not enabled; no producer posts once the destructor runs. */
  predicate Enabled(s: Pool, step: Step) {
    match step
    case Post(msg, block) => !s.closing && msg != Terminate && (block ==> |s.queue| < s.cap)
    case Close => !s.closing
    case PostTerminate => s.closing && s.posted < |s.workers| && |s.queue| < s.cap
    case Dequeue(w) => w < |s.workers| && s.workers[w].Waiting? && s.queue != []
    case Timeout(w) => w < |s.workers| && s.workers[w].Waiting? && s.queue == []
    case Finish(w) => w < |s.workers| && s.workers[w].Holding?
    case Join => s.closing && s.posted == |s.workers| && AllExited(s.workers) && !s.joined
  }

  /** push_back, as CircularQ.PushBack states it. */
  function Push(s: Pool, msg: Msg): Pool {
    var queue := Newest(s.queue + [msg], s.cap);
    s.(queue := queue, overrun := s.overrun + |s.queue| + 1 - |queue|, enqueued := s.enqueued + [msg])
  }

  /** How many messages have left the queue, one way or the other. */
  function Gone(s: Pool): int {
    |s.enqueued| - |s.queue|
  }

  function Apply(s: Pool, step: Step): Pool
    requires Enabled(s, step) && |s.queue| <= |s.enqueued|
  {
    match step
    case Post(msg, block) => Push(s, msg)
    case Close => s.(closing := true)
    case PostTerminate => Push(s, Terminate).(posted := s.posted + 1)
    case Dequeue(w) =>
      s.(queue := s.queue[1..], workers := s.workers[w := Holding(|s.dequeued|, s.queue[0])],
        dequeued := s.dequeued + [s.queue[0]], taken := s.taken + [Gone(s)], takers := s.takers + [w])
    case Timeout(w) => s
    case Finish(w) =>
      s.(workers := s.workers[w := if s.workers[w].msg.Terminate? then Exited else Waiting],
        handled := s.handled + [s.workers[w].pos])
    case Join => s.(joined := true)
  }

  // ---------- counting workers ----------

  function Count(workers: seq<Worker>, p: Worker -> bool): (r: nat)
    ensures r <= |workers|
  {
    if workers == [] then 0 else Count(workers[..|workers| - 1], p) + if p(workers[|workers| - 1]) then 1 else 0
  }

  lemma {:induction false} CountUpdate(workers: seq<Worker>, p: Worker -> bool, w: nat, x: Worker)
    requires w < |workers|
    ensures Count(workers[w := x], p) == Count(workers, p) - (if p(workers[w]) then 1 else 0) + (if p(x) then 1 else 0)
    decreases |workers|
  {
    var k := |workers| - 1;
    if w < k {
      CountUpdate(workers[..k], p, w, x);
      assert workers[w := x][..k] == workers[..k][w := x];
    } else {
      assert workers[w := x][..k] == workers[..k];
    }
  }

  lemma {:induction false} CountAll(workers: seq<Worker>, p: Worker -> bool)
    requires forall w :: 0 <= w < |workers| ==> p(workers[w])
    ensures Count(workers, p) == |workers|
    decreases |workers|
  {
    if workers != [] {
      CountAll(workers[..|workers| - 1], p);
    }
  }

  lemma {:induction false} CountNotAll(workers: seq<Worker>, p: Worker -> bool, w: nat)
    requires w < |workers| && !p(workers[w])
    ensures Count(workers, p) < |workers|
    decreases |workers|
  {
    if w < |workers| - 1 {
      CountNotAll(workers[..|workers| - 1], p, w);
    }
  }

  lemma {:induction false} CountNone(workers: seq<Worker>, p: Worker -> bool)
    requires forall w :: 0 <= w < |workers| ==> !p(workers[w])
    ensures Count(workers, p) == 0
    decreases |workers|
  {
    if workers != [] {
      CountNone(workers[..|workers| - 1], p);
    }
  }

  /** Has taken a terminate message. */
  predicate Leaving(x: Worker) {
    x.Exited? || (x.Holding? && x.msg.Terminate?)
  }

  predicate Busy(x: Worker) {
    x.Holding?
  }

  // ---------- the invariant ----------

  /** The queue is the newest part of what was enqueued. */
  predicate QueueIsSuffix(s: Pool) {
    |s.queue| <= s.cap && |s.queue| <= |s.enqueued| && s.queue == s.enqueued[Gone(s)..]
  }

  /** Dequeued messages are an in-order subsequence of the enqueued ones; the others that left were overrun. */
  predicate InOrder(s: Pool) {
    && |s.taken| == |s.dequeued| == |s.takers|
    && Gone(s) == |s.dequeued| + s.overrun
    && (forall p :: 0 <= p < |s.taken| ==>
          s.taken[p] < |s.enqueued| - |s.queue| && s.enqueued[s.taken[p]] == s.dequeued[p])
    && (forall p, q :: 0 <= p < q < |s.taken| ==> s.taken[p] < s.taken[q])
  }

  predicate Distinct(s: seq<nat>) {
    forall i, j :: 0 <= i < j < |s| ==> s[i] != s[j]
  }

  predicate HeldBy(s: Pool, w: nat, p: nat) {
    w < |s.workers| && s.workers[w].Holding? && s.workers[w].pos == p
  }

  /** Each dequeued message is either handled, once, or in the hands of the worker that took it. */
  ghost predicate OneHandler(s: Pool) {
    && Distinct(s.handled)
    && (forall i :: 0 <= i < |s.handled| ==> s.handled[i] < |s.dequeued|)
    && |s.takers| == |s.dequeued|
    && (forall p: nat :: p < |s.dequeued| ==> p in s.handled || HeldBy(s, s.takers[p], p))
    && (forall w: nat, p: nat :: HeldBy(s, w, p) ==>
      p < |s.dequeued| && p !in s.handled && s.takers[p] == w && s.workers[w].msg == s.dequeued[p])
  }

  /** Terminate messages are exactly the last `posted` ones, and each one taken has its own worker leaving. */
  predicate Terminating(s: Pool) {
    && s.posted <= |s.workers| && s.posted <= |s.enqueued|
    && (s.posted > 0 ==> s.closing && s.cap > 0)
    && (s.cap == 0 ==> s.dequeued == [])
    && (s.joined ==> s.closing && AllExited(s.workers))
    && (forall i :: 0 <= i < |s.enqueued| ==> (s.enqueued[i].Terminate? <==> i >= |s.enqueued| - s.posted))
    && Count(s.workers, Leaving) == if |s.queue| <= s.posted then s.posted - |s.queue| else 0
  }

  ghost predicate Inv(s: Pool) {
    QueueIsSuffix(s) && InOrder(s) && OneHandler(s) && Terminating(s)
  }

  lemma InvStart(cap: nat, n: nat)
    ensures Inv(Start(cap, n))
  {
    CountNone(Start(cap, n).workers, Leaving);
  }

  lemma PushKeeps(s: Pool, msg: Msg)
    requires QueueIsSuffix(s) && InOrder(s)
    ensures QueueIsSuffix(Push(s, msg)) && InOrder(Push(s, msg))
  {
    var t := Push(s, msg);
    assert s.enqueued[Gone(s)..] + [msg] == t.enqueued[Gone(s)..];
  }

  lemma PostKeeps(s: Pool, msg: Msg, block: bool)
    requires Inv(s) && Enabled(s, Post(msg, block))
    ensures Inv(Apply(s, Post(msg, block)))
  {
    PushKeeps(s, msg);
    HandlersStay(s, Push(s, msg));
  }

  lemma PostTerminateKeeps(s: Pool)
    requires Inv(s) && Enabled(s, PostTerminate)
    ensures Inv(Apply(s, PostTerminate))
  {
    PushKeeps(s, Terminate);
    HandlersStay(s, Apply(s, PostTerminate));
  }

  lemma DequeueKeeps(s: Pool, w: nat)
    requires Inv(s) && Enabled(s, Dequeue(w))
    ensures Inv(Apply(s, Dequeue(w)))
  {
    var t := Apply(s, Dequeue(w));
    assert s.queue[0] == s.enqueued[Gone(s)];
    assert QueueIsSuffix(t) && InOrder(t);
    forall p: nat | p < |t.dequeued|
      ensures p in t.handled || HeldBy(t, t.takers[p], p)
    {
      if p < |s.dequeued| && p !in s.handled {
        assert HeldBy(s, s.takers[p], p);
      }
    }
    forall v: nat, p: nat | HeldBy(t, v, p)
      ensures p < |t.dequeued| && p !in t.handled && t.takers[p] == v && t.workers[v].msg == t.dequeued[p]
    {
      if v != w {
        assert HeldBy(s, v, p);
      }
    }
    CountUpdate(s.workers, Leaving, w, Holding(|s.dequeued|, s.queue[0]));
  }

  lemma FinishKeeps(s: Pool, w: nat)
    requires Inv(s) && Enabled(s, Finish(w))
    ensures Inv(Apply(s, Finish(w)))
  {
    var t := Apply(s, Finish(w));
    assert HeldBy(s, w, s.workers[w].pos);
    forall p: nat | p < |t.dequeued|
      ensures p in t.handled || HeldBy(t, t.takers[p], p)
    {
      if p !in s.handled {
        assert HeldBy(s, s.takers[p], p);
        assert t.handled[|s.handled|] == s.workers[w].pos;
      }
    }
    forall v: nat, p: nat | HeldBy(t, v, p)
      ensures p < |t.dequeued| && p !in t.handled && t.takers[p] == v && t.workers[v].msg == t.dequeued[p]
    {
      assert HeldBy(s, v, p);
    }
    CountUpdate(s.workers, Leaving, w, t.workers[w]);
  }

  lemma StepKeeps(s: Pool, step: Step)
    requires Inv(s) && Enabled(s, step)
    ensures Inv(Apply(s, step))
  {
    match step {
      case Post(msg, block) => PostKeeps(s, msg, block);
      case PostTerminate => PostTerminateKeeps(s);
      case Dequeue(w) => DequeueKeeps(s, w);
      case Finish(w) => FinishKeeps(s, w);
      case Timeout(w) =>
      case _ => HandlersStay(s, Apply(s, step));
    }
  }

  lemma HandlersStay(s: Pool, t: Pool)
    requires OneHandler(s)
    requires t.workers == s.workers && t.dequeued == s.dequeued && t.takers == s.takers && t.handled == s.handled
    ensures OneHandler(t)
  {
    assert forall w: nat, p: nat :: HeldBy(t, w, p) <==> HeldBy(s, w, p);
  }

  // ---------- whole runs ----------

  ghost predicate Reaches(s: Pool, steps: seq<Step>, t: Pool)
    decreases |steps|
  {
    if steps == [] then s == t
    else |s.queue| <= |s.enqueued| && Enabled(s, steps[0]) && Reaches(Apply(s, steps[0]), steps[1..], t)
  }

  lemma {:induction false} RunKeeps(s: Pool, steps: seq<Step>, t: Pool)
    requires Inv(s) && Reaches(s, steps, t)
    ensures Inv(t) && |t.workers| == |s.workers| && t.cap == s.cap
    decreases |steps|
  {
    if steps != [] {
      StepKeeps(s, steps[0]);
      RunKeeps(Apply(s, steps[0]), steps[1..], t);
    }
  }

  /** Every message enqueued was dequeued, was overrun or is still queued, and the dequeued ones came out in order. */
  lemma Conservation(cap: nat, n: nat, steps: seq<Step>, t: Pool)
    requires Reaches(Start(cap, n), steps, t)
    ensures |t.enqueued| == |t.dequeued| + t.overrun + |t.queue|
    ensures InOrder(t) && QueueIsSuffix(t)
  {
    InvStart(cap, n);
    RunKeeps(Start(cap, n), steps, t);
  }

  /** The messages handled so far by a pool's only worker are the first ones dequeued, in order. */
  predicate HandledInOrder(s: Pool) {
    && |s.workers| == 1
    && (forall i :: 0 <= i < |s.handled| ==> s.handled[i] == i)
    && match s.workers[0]
       case Holding(pos, _) => pos == |s.handled| && |s.dequeued| == |s.handled| + 1
       case _ => |s.dequeued| == |s.handled|
  }

  lemma {:induction false} OneWorkerInOrder(s: Pool, steps: seq<Step>, t: Pool)
    requires HandledInOrder(s) && Reaches(s, steps, t)
    ensures HandledInOrder(t)
    decreases |steps|
  {
    if steps != [] {
      OneWorkerInOrder(Apply(s, steps[0]), steps[1..], t);
    }
  }

  /** With the blocking policy nothing is dropped. */
  lemma {:induction false} BlockingNeverDrops(s: Pool, steps: seq<Step>, t: Pool)
    requires Inv(s) && Reaches(s, steps, t)
    requires forall i :: 0 <= i < |steps| ==> !(steps[i].Post? && !steps[i].block)
    ensures t.overrun == s.overrun
    decreases |steps|
  {
    if steps != [] {
      assert steps[0].Post? ==> steps[0].block;
      StepKeeps(s, steps[0]);
      BlockingNeverDrops(Apply(s, steps[0]), steps[1..], t);
    }
  }

  /** From `s` to `t` nothing was overrun, and whatever left the queue was dequeued in turn. */
  ghost predicate NothingLost(s: Pool, t: Pool) {
    && s.enqueued <= t.enqueued && s.dequeued <= t.dequeued
    && |s.taken| == |s.dequeued| && |t.taken| == |t.dequeued|
    && Gone(t) - |t.taken| == Gone(s) - |s.taken|
    && forall p :: |s.taken| <= p < |t.taken| ==> t.taken[p] == p - |s.taken| + Gone(s)
  }

  lemma {:induction false} ClosingLosesNothing(s: Pool, u: Pool, steps: seq<Step>, t: Pool)
    requires Inv(u) && u.closing && NothingLost(s, u) && Reaches(u, steps, t)
    ensures NothingLost(s, t) && t.closing
    decreases |steps|
  {
    if steps != [] {
      StepKeeps(u, steps[0]);
      assert NothingLost(s, Apply(u, steps[0]));
      ClosingLosesNothing(s, Apply(u, steps[0]), steps[1..], t);
    }
  }

  /** Once all the workers have left, the queue is empty and every dequeued message has been handled. */
  lemma ExitedMeansDrained(t: Pool)
    requires Inv(t) && AllExited(t.workers) && t.workers != []
    ensures t.queue == [] && t.posted == |t.workers|
    ensures forall p: nat :: p < |t.dequeued| ==> p in t.handled
  {
    CountAll(t.workers, Leaving);
    forall p: nat | p < |t.dequeued|
      ensures p in t.handled
    {
      assert !HeldBy(t, t.takers[p], p);
    }
  }

  /**
   * The destructor drains the queue: every message in the queue when it starts has been dequeued and handled, exactly
   * once, by the time all the workers have left.
   */
  lemma DestructorDrains(s: Pool, steps: seq<Step>, t: Pool, i: nat)
    requires Inv(s) && s.closing && Reaches(s, steps, t)
    requires AllExited(t.workers) && t.workers != []
    requires Gone(s) <= i < |s.enqueued|
    ensures var p := |s.dequeued| + i - Gone(s);
            p < |t.dequeued| == |t.taken| && t.taken[p] == i && t.dequeued[p] == s.enqueued[i] && p in t.handled
                && Distinct(t.handled)
  {
    RunKeeps(s, steps, t);
    ClosingLosesNothing(s, s, steps, t);
    ExitedMeansDrained(t);
  }

  // ---------- the destructor ends, if the queue has room for anything ----------

  /** A step that does something: anything but a worker's timeout. */
  predicate Progress(s: Pool, step: Step) {
    Enabled(s, step) && !step.Timeout?
  }

  /** Steps left before the destructor is done. */
  function Work(s: Pool): int {
    3 * (|s.workers| - s.posted) + 2 * |s.queue| + Count(s.workers, Busy) + if s.joined then 0 else 1
  }

  lemma WorkFalls(s: Pool, step: Step)
    requires Inv(s) && s.closing && Enabled(s, step)
    ensures Apply(s, step).closing
    ensures Work(Apply(s, step)) == Work(s) - if Progress(s, step) then 1 else 0
  {
    match step {
      case Dequeue(w) => CountUpdate(s.workers, Busy, w, Apply(s, step).workers[w]);
      case Finish(w) => CountUpdate(s.workers, Busy, w, Apply(s, step).workers[w]);
      case _ =>
    }
  }

  function ProgressSteps(steps: seq<Step>): nat {
    if steps == [] then 0 else (if steps[0].Timeout? then 0 else 1) + ProgressSteps(steps[1..])
  }

  /** Whatever the order of events, at most `Work` steps other than timeouts follow the start of the destructor. */
  lemma {:induction false} ClosingIsBounded(s: Pool, steps: seq<Step>, t: Pool)
    requires Inv(s) && s.closing && Reaches(s, steps, t)
    ensures ProgressSteps(steps) + Work(t) == Work(s) && Work(t) >= 0
    decreases |steps|
  {
    if steps == [] {
      assert s.posted <= |s.workers|;
    } else {
      StepKeeps(s, steps[0]);
      WorkFalls(s, steps[0]);
      ClosingIsBounded(Apply(s, steps[0]), steps[1..], t);
    }
  }

  lemma SomeWorker(workers: seq<Worker>) returns (w: nat)
    requires !AllExited(workers)
    ensures w < |workers| && !workers[w].Exited?
  {
    w :| w < |workers| && !workers[w].Exited?;
  }

  /** Until it is done the destructor or a worker can go on, exactly when the queue has a capacity. */
  lemma NeverStuck(s: Pool)
    requires Inv(s) && s.closing && !s.joined && s.workers != []
    ensures s.cap > 0 ==> exists step :: Progress(s, step)
    ensures s.cap == 0 ==> forall step :: !Progress(s, step)
  {
    if s.cap > 0 {
      if AllExited(s.workers) {
        ExitedMeansDrained(s);
        assert Progress(s, Join);
      } else {
        var w := SomeWorker(s.workers);
        if s.workers[w].Holding? {
          assert Progress(s, Finish(w));
        } else if s.queue != [] {
          assert Progress(s, Dequeue(w));
        } else {
          if s.posted == |s.workers| {
            CountNotAll(s.workers, Leaving, w);
          }
          assert Progress(s, PostTerminate);
        }
      }
    } else {
      forall step
        ensures !Progress(s, step)
      {
        if step.Finish? && Progress(s, step) {
          assert HeldBy(s, step.w, s.workers[step.w].pos);
        }
        if step.Join? && AllExited(s.workers) {
          ExitedMeansDrained(s);
        }
      }
    }
  }
}
