/** The reply queue of an asynchronous connection (async.c, regular commands), as operations on values. */
module AsyncReplies {
  import opened Bytes
  import opened Resp
  import opened Format

  /** An accepted command: its arguments, whether its callback function is non-null, and its privdata. */
  datatype Command = Command(args: seq<seq<byte>>, fn: bool, tag: nat)

  /** What a callback may do to its own connection. */
  datatype Action = Issue(cmd: Command) | Disconnect | Free

  /** One call of a user callback; None is the null reply. */
  datatype Call = Call(cmd: Command, reply: Option<Reply>)

  /**
   * The connection. `issued`, `received` and `sent` are its history: commands accepted, replies handed to
   * regular commands, bytes written. `freed` counts the times its memory was released; `aborted` records a
   * failed run-time assertion.
   */
  datatype Context = Context(
    pending: seq<Command>, obuf: seq<byte>, inCallback: bool, disconnecting: bool, freeing: bool, err: bool,
    freed: nat, aborted: bool, calls: seq<Call>, issued: seq<Command>, received: seq<Reply>, sent: seq<byte>)

  /** What each callback does, by the number of callbacks run before it: any behaviour of the user is one of these. */
  type User = nat -> seq<Action>

  function Fresh(err: bool): Context {
    Context([], [], false, false, false, err, 0, false, [], [], [], [])
  }

  predicate Refusing(c: Context) {
    c.disconnecting || c.freeing
  }

  // ---------- operations ----------

  /** __redisAsyncCommand. */
  function Append(c: Context, cmd: Command): Context {
    if Refusing(c) then c
    else c.(pending := c.pending + [cmd], issued := c.issued + [cmd], obuf := c.obuf + Encode(cmd.args))
  }

  /** An action taken inside a callback: redisAsyncFree and redisAsyncDisconnect only set their flags there. */
  function Act(c: Context, a: Action): Context {
    match a
    case Issue(cmd) => Append(c, cmd)
    case Disconnect => c.(disconnecting := true)
    case Free => c.(freeing := true)
  }

  function Acts(c: Context, actions: seq<Action>): (r: Context)
    ensures Refusing(c) ==> Refusing(r) && r.pending == c.pending
    ensures r.inCallback == c.inCallback
    decreases |actions|
  {
    if actions == [] then c else Act(Acts(c, actions[..|actions| - 1]), actions[|actions| - 1])
  }

  /** __redisRunCallback. */
  function RunCallback(c: Context, cmd: Command, reply: Option<Reply>, user: User): (r: Context)
    ensures Refusing(c) ==> Refusing(r) && r.pending == c.pending
  {
    if !cmd.fn then c
    else Acts(Called(c, cmd, reply), user(|c.calls|)).(inCallback := false)
  }

  /** Inside the callback of `cmd`. */
  function Called(c: Context, cmd: Command, reply: Option<Reply>): Context {
    c.(inCallback := true, calls := c.calls + [Call(cmd, reply)])
  }

  /** __redisAsyncFree. */
  function Teardown(c: Context, user: User): Context
    requires Refusing(c)
    decreases |c.pending|
  {
    if c.pending == [] then c.(freed := c.freed + 1)
    else Teardown(RunCallback(c.(pending := c.pending[1..]), c.pending[0], None, user), user)
  }

  /** __redisAsyncDisconnect, whose assertion is the second requires. */
  function DisconnectNow(c: Context, user: User): Context
    requires Refusing(c) || c.err
    requires !c.err ==> c.pending == []
  {
    Teardown(if c.err then c.(disconnecting := true) else c, user)
  }

  /** redisAsyncFree outside a callback. */
  function FreeOutside(c: Context, user: User): Context {
    Teardown(c.(freeing := true), user)
  }

  /** redisAsyncDisconnect outside a callback. */
  function DisconnectOutside(c: Context, user: User): Context {
    var d := c.(disconnecting := true);
    if d.pending == [] then DisconnectNow(d, user) else d
  }

  /** The context after taking `reply` for the oldest pending command and running its callback. */
  function Answered(c: Context, reply: Reply, user: User): Context
    requires c.pending != []
  {
    RunCallback(c.(pending := c.pending[1..], received := c.received + [reply]), c.pending[0], Some(reply), user)
  }

  /** redisProcessCallbacks on the replies the reader holds, after which it reports an error if `broken`. */
  function Process(c: Context, replies: seq<Reply>, broken: bool, user: User): Context
    decreases |replies|
  {
    if replies == [] then
      if broken then DisconnectNow(c.(err := true), user)
      else if c.disconnecting && c.obuf == [] && c.pending == [] then DisconnectNow(c, user)
      else c
    else if c.pending == [] then
      if replies[0].Error? then DisconnectNow(c.(err := true), user) else c.(aborted := true)
    else
      var d := Answered(c, replies[0], user);
      if c.pending[0].fn && d.freeing then Teardown(d, user) else Process(d, replies[1..], broken, user)
  }

  /** What the event loop or the user does to the connection from outside its callbacks. */
  datatype Event =
    | UserCommand(cmd: Command)
    | UserDisconnect
    | UserFree
    | Readable(replies: seq<Reply>, broken: bool)
    | Writable(n: nat)
    | IOError

  /** redisBufferWrite moving `n` bytes, or all that there are. */
  function Written(c: Context, n: nat): Context {
    var k := if n < |c.obuf| then n else |c.obuf|;
    c.(sent := c.sent + c.obuf[..k], obuf := c.obuf[k..])
  }

  function Apply(c: Context, e: Event, user: User): Context {
    match e
    case UserCommand(cmd) => Append(c, cmd)
    case UserDisconnect => DisconnectOutside(c, user)
    case UserFree => FreeOutside(c, user)
    case Readable(replies, broken) => if c.err then DisconnectNow(c, user) else Process(c, replies, broken, user)
    case Writable(n) => if c.err then DisconnectNow(c, user) else Written(c, n)
    case IOError => DisconnectNow(c.(err := true), user)
  }

  predicate Over(c: Context) {
    c.freed > 0 || c.aborted
  }

  /** A whole run; the context is not touched once it is freed or the program has aborted. */
  function Run(c: Context, events: seq<Event>, user: User): Context
    decreases |events|
  {
    if events == [] || Over(c) then c else Run(Apply(c, events[0], user), events[1..], user)
  }

  // ---------- what is owed ----------

  /** The reply of command number `k`: its own, or none. */
  function Answer(received: seq<Reply>, k: nat): Option<Reply> {
    if k < |received| then Some(received[k]) else None
  }

  /** Exactly one call for each of the first `n` accepted commands that has a callback, in the order of issue. */
  function Owed(issued: seq<Command>, received: seq<Reply>, n: nat): seq<Call>
    requires n <= |issued|
    decreases n
  {
    if n == 0 then []
    else
      Owed(issued, received, n - 1)
      + if issued[n - 1].fn then [Call(issued[n - 1], Answer(received, n - 1))] else []
  }

  lemma {:induction false} OwedLonger(issued: seq<Command>, more: seq<Command>, received: seq<Reply>, n: nat)
    requires n <= |issued|
    ensures Owed(issued + more, received, n) == Owed(issued, received, n)
    decreases n
  {
    if n > 0 {
      OwedLonger(issued, more, received, n - 1);
    }
  }

  lemma {:induction false} OwedAnswered(issued: seq<Command>, received: seq<Reply>, r: Reply, n: nat)
    requires n <= |issued| && n <= |received|
    ensures Owed(issued, received + [r], n) == Owed(issued, received, n)
    decreases n
  {
    if n > 0 {
      OwedAnswered(issued, received, r, n - 1);
    }
  }

  function Arguments(cs: seq<Command>): seq<seq<seq<byte>>> {
    seq(|cs|, i requires 0 <= i < |cs| => cs[i].args)
  }

  /** How many accepted commands are no longer waiting. */
  function Settled(c: Context): int {
    |c.issued| - |c.pending|
  }

  /** What holds even in the middle of a teardown. */
  ghost predicate Accounts(c: Context) {
    && |c.received| <= Settled(c)
    && c.pending == c.issued[Settled(c)..]
    && c.calls == Owed(c.issued, c.received, Settled(c))
    && c.sent + c.obuf == EncodeAll(Arguments(c.issued))
  }

  /** In use: every command that is no longer waiting got its own reply. */
  ghost predicate Alive(c: Context) {
    Accounts(c) && |c.received| == Settled(c) && c.freed == 0 && !c.aborted && !c.freeing && !c.inCallback
  }

  ghost predicate Inv(c: Context) {
    || Alive(c)
    || (Accounts(c) && c.freed == 1 && !c.aborted && c.pending == [])
    || (Accounts(c) && c.freed == 0 && c.aborted && c.pending == [])
  }

  // ---------- every operation keeps the accounts ----------

  lemma {:induction false} EncodeAllSnoc(cs: seq<seq<seq<byte>>>, c: seq<seq<byte>>)
    ensures EncodeAll(cs + [c]) == EncodeAll(cs) + Encode(c)
  {
    if cs == [] {
      assert ([c])[1..] == [];
      assert Encode(c) + [] == Encode(c) && [] + Encode(c) == Encode(c) && cs + [c] == [c];
    } else {
      EncodeAllSnoc(cs[1..], c);
      assert (cs + [c])[1..] == cs[1..] + [c];
      assert Encode(cs[0]) + (EncodeAll(cs[1..]) + Encode(c)) == Encode(cs[0]) + EncodeAll(cs[1..]) + Encode(c);
    }
  }

  lemma AppendKeeps(c: Context, cmd: Command)
    requires Accounts(c)
    ensures Accounts(Append(c, cmd)) && Settled(Append(c, cmd)) == Settled(c)
  {
    if !Refusing(c) {
      OwedLonger(c.issued, [cmd], c.received, Settled(c));
      EncodeAllSnoc(Arguments(c.issued), cmd.args);
      assert Arguments(c.issued + [cmd]) == Arguments(c.issued) + [cmd.args];
      assert c.sent + (c.obuf + Encode(cmd.args)) == c.sent + c.obuf + Encode(cmd.args);
    }
  }

  /** What actions inside a callback cannot touch. */
  predicate Steady(c: Context, d: Context) {
    && d.received == c.received && d.freed == c.freed && d.aborted == c.aborted && d.inCallback == c.inCallback
    && d.err == c.err && d.calls == c.calls && Settled(d) == Settled(c) && c.issued <= d.issued
  }

  lemma ActKeeps(c: Context, a: Action)
    requires Accounts(c)
    ensures Accounts(Act(c, a)) && Steady(c, Act(c, a))
  {
    if a.Issue? {
      AppendKeeps(c, a.cmd);
    }
  }

  lemma {:induction false} ActsKeep(c: Context, actions: seq<Action>)
    requires Accounts(c)
    ensures Accounts(Acts(c, actions)) && Steady(c, Acts(c, actions))
    decreases |actions|
  {
    if actions != [] {
      ActsKeep(c, actions[..|actions| - 1]);
      ActKeeps(Acts(c, actions[..|actions| - 1]), actions[|actions| - 1]);
    }
  }

  /** The state between shifting `cmd` off the queue and running its callback. */
  ghost predicate Shifted(c: Context, cmd: Command, reply: Option<Reply>) {
    && |c.received| <= Settled(c) && 0 < Settled(c)
    && c.pending == c.issued[Settled(c)..]
    && cmd == c.issued[Settled(c) - 1] && reply == Answer(c.received, Settled(c) - 1)
    && c.calls == Owed(c.issued, c.received, Settled(c) - 1)
    && c.sent + c.obuf == EncodeAll(Arguments(c.issued))
  }

  lemma RunCallbackKeeps(c: Context, cmd: Command, reply: Option<Reply>, user: User)
    requires Shifted(c, cmd, reply) && !c.inCallback
    ensures var d := RunCallback(c, cmd, reply, user);
            Accounts(d) && Steady(c.(calls := d.calls), d)
  {
    if cmd.fn {
      var called := c.(inCallback := true, calls := c.calls + [Call(cmd, reply)]);
      assert Accounts(called);
      ActsKeep(called, user(|c.calls|));
    }
  }

  lemma {:induction false} TeardownSettles(c: Context, user: User)
    requires Accounts(c) && Refusing(c) && !c.inCallback && c.freed == 0 && !c.aborted
    ensures var d := Teardown(c, user);
            Inv(d) && d.freed == 1 && d.received == c.received && c.issued <= d.issued
    decreases |c.pending|
  {
    if c.pending != [] {
      var s := c.(pending := c.pending[1..]);
      assert Shifted(s, c.pending[0], None);
      RunCallbackKeeps(s, c.pending[0], None, user);
      TeardownSettles(RunCallback(s, c.pending[0], None, user), user);
    }
  }

  lemma DisconnectSettles(c: Context, user: User)
    requires Alive(c) && (c.err || (c.disconnecting && c.pending == []))
    ensures var d := DisconnectNow(c, user);
            Inv(d) && d.freed == 1 && d.received == c.received && c.issued <= d.issued
  {
    TeardownSettles(if c.err then c.(disconnecting := true) else c, user);
  }

  lemma AnsweredKeeps(c: Context, reply: Reply, user: User)
    requires Alive(c) && c.pending != []
    ensures var d := Answered(c, reply, user);
            Accounts(d) && |d.received| == Settled(d) && d.received == c.received + [reply] && !d.inCallback
                && d.freed == 0
            && !d.aborted && c.issued <= d.issued && d.err == c.err && (!c.pending[0].fn ==> !d.freeing)
  {
    var s := c.(pending := c.pending[1..], received := c.received + [reply]);
    OwedAnswered(c.issued, c.received, reply, Settled(c));
    assert Shifted(s, c.pending[0], Some(reply));
    RunCallbackKeeps(s, c.pending[0], Some(reply), user);
  }

  lemma ReaderEmpty(c: Context, broken: bool, user: User)
    requires Alive(c)
    ensures var d := Process(c, [], broken, user);
            && Inv(d) && c.issued <= d.issued && d.received == c.received && (Over(d) || !broken) && !d.aborted
            && (d.freed == 1 <==> broken || (c.disconnecting && c.obuf == [] && c.pending == []))
  {
    if broken {
      DisconnectSettles(c.(err := true), user);
    } else if c.disconnecting && c.obuf == [] && c.pending == [] {
      DisconnectSettles(c, user);
    }
  }

  lemma NothingWaits(c: Context, replies: seq<Reply>, broken: bool, user: User)
    requires Alive(c) && replies != [] && c.pending == []
    ensures var d := Process(c, replies, broken, user);
            Inv(d) && c.issued <= d.issued && d.received == c.received && Over(d) && d.aborted == !replies[0].Error?
  {
    if replies[0].Error? {
      DisconnectSettles(c.(err := true), user);
    }
  }

  lemma {:induction false} ProcessKeeps(c: Context, replies: seq<Reply>, broken: bool, user: User)
    requires Alive(c)
    ensures var d := Process(c, replies, broken, user);
            Inv(d) && c.issued <= d.issued && c.received <= d.received <= c.received + replies
    decreases |replies|
  {
    if replies == [] {
      ReaderEmpty(c, broken, user);
    } else if c.pending == [] {
      NothingWaits(c, replies, broken, user);
    } else {
      var d := Answered(c, replies[0], user);
      AnsweredKeeps(c, replies[0], user);
      assert c.received + [replies[0]] + replies[1..] == c.received + replies;
      if c.pending[0].fn && d.freeing {
        TeardownSettles(d, user);
      } else {
        ProcessKeeps(d, replies[1..], broken, user);
      }
    }
  }

  lemma ApplyKeeps(c: Context, e: Event, user: User)
    requires Alive(c)
    ensures Inv(Apply(c, e, user)) && c.issued <= Apply(c, e, user).issued
  {
    match e {
      case UserCommand(cmd) => AppendKeeps(c, cmd);
      case UserDisconnect =>
        if c.pending == [] {
          DisconnectSettles(c.(disconnecting := true), user);
        }
      case UserFree => TeardownSettles(c.(freeing := true), user);
      case Readable(replies, broken) =>
        if c.err {
          DisconnectSettles(c, user);
        } else {
          ProcessKeeps(c, replies, broken, user);
        }
      case Writable(n) =>
        if c.err {
          DisconnectSettles(c, user);
        } else {
          WrittenKeeps(c, n);
        }
      case IOError => DisconnectSettles(c.(err := true), user);
    }
  }

  lemma WrittenKeeps(c: Context, n: nat)
    requires Alive(c)
    ensures Alive(Written(c, n)) && Written(c, n).issued == c.issued
  {
    var k := if n < |c.obuf| then n else |c.obuf|;
    assert c.sent + c.obuf[..k] + c.obuf[k..] == c.sent + c.obuf;
  }

  lemma {:induction false} RunKeeps(c: Context, events: seq<Event>, user: User)
    requires Inv(c)
    ensures Inv(Run(c, events, user))
    decreases |events|
  {
    if events != [] && !Over(c) {
      ApplyKeeps(c, events[0], user);
      RunKeeps(Apply(c, events[0], user), events[1..], user);
    }
  }

  /**
   * Whatever the event loop and the callbacks do, the callbacks run are exactly one per settled command, in the
   * order of issue, each with its own reply while the connection is in use; the context is freed at most once, and
   * once it is freed every accepted command has had its call, those without a reply with null.
   */
  lemma EveryCallbackOnce(err: bool, events: seq<Event>, user: User)
    ensures var c := Run(Fresh(err), events, user);
            && 0 <= Settled(c) <= |c.issued|
            && c.calls == Owed(c.issued, c.received, Settled(c))
            && c.freed <= 1
            && (c.freed == 1 ==> Settled(c) == |c.issued|)
            && (!Over(c) ==> |c.received| == Settled(c))
  {
    var c := Fresh(err);
    assert Arguments([]) == [];
    assert Alive(c);
    RunKeeps(c, events, user);
  }

  /** With no null callbacks the k-th call is that of the k-th command. */
  lemma {:induction false} OwedInOrder(issued: seq<Command>, received: seq<Reply>, n: nat)
    requires n <= |issued| && forall k :: 0 <= k < n ==> issued[k].fn
    ensures |Owed(issued, received, n)| == n
    ensures forall k :: 0 <= k < n ==> Owed(issued, received, n)[k] == Call(issued[k], Answer(received, k))
    decreases n
  {
    if n > 0 {
      OwedInOrder(issued, received, n - 1);
    }
  }

  /** Once the output buffer is empty, what was written reads as one array per accepted command, in order. */
  lemma WrittenInOrder(err: bool, events: seq<Event>, user: User)
    requires var c := Run(Fresh(err), events, user);
             c.obuf == [] && forall k :: 0 <= k < |c.issued| ==> Sendable(c.issued[k].args)
    ensures var c := Run(Fresh(err), events, user);
            ParseAll(c.sent) == (Arrays(Arguments(c.issued)), Open) && Residue(c.sent) == []
  {
    var c := Run(Fresh(err), events, user);
    assert Arguments([]) == [];
    assert Alive(Fresh(err));
    RunKeeps(Fresh(err), events, user);
    assert c.sent + [] == c.sent;
    CommandsRead(Arguments(c.issued));
  }

  /**
   * A clean disconnect completes: once everything is written, reading a reply for each waiting command frees the
   * context, and unless a callback freed it earlier every command got its own reply.
   */
  lemma {:induction false} CleanDisconnect(c: Context, replies: seq<Reply>, user: User)
    requires Alive(c) && c.disconnecting && !c.err && c.obuf == [] && |replies| == |c.pending|
    ensures var d := Process(c, replies, false, user);
            d.freed == 1 && d.issued == c.issued && (!d.freeing ==> d.received == c.received + replies)
    decreases |replies|
  {
    if replies == [] {
      TeardownSettles(c, user);
    } else {
      var d := Answered(c, replies[0], user);
      AnsweredKeeps(c, replies[0], user);
      RefusingRuns(c.(pending := c.pending[1..], received := c.received + [replies[0]]), c.pending[0],
          Some(replies[0]), user);
      assert c.received + [replies[0]] + replies[1..] == c.received + replies;
      if c.pending[0].fn && d.freeing {
        TeardownSettles(d, user);
        TeardownRefuses(d, user);
      } else {
        CleanDisconnect(d, replies[1..], user);
      }
    }
  }

  /** While replies are handed out, one arrives that nothing waits for and that is not an error. */
  predicate Unmatched(c: Context, replies: seq<Reply>, user: User)
    decreases |replies|
  {
    replies != [] &&
    if c.pending == [] then !replies[0].Error?
    else
      var d := Answered(c, replies[0], user);
      !(c.pending[0].fn && d.freeing) && Unmatched(d, replies[1..], user)
  }

  /** That is exactly when the run-time assertion on an unmatched reply fails. */
  lemma {:induction false} AbortsExactly(c: Context, replies: seq<Reply>, broken: bool, user: User)
    requires Alive(c)
    ensures Process(c, replies, broken, user).aborted <==> Unmatched(c, replies, user)
    decreases |replies|
  {
    if replies == [] {
      ReaderEmpty(c, broken, user);
    } else if c.pending == [] {
      NothingWaits(c, replies, broken, user);
    } else {
      var d := Answered(c, replies[0], user);
      AnsweredKeeps(c, replies[0], user);
      if c.pending[0].fn && d.freeing {
        TeardownSettles(d, user);
      } else {
        AbortsExactly(d, replies[1..], broken, user);
      }
    }
  }

  /** A server that sends no more replies than commands wait cannot make it fail. */
  lemma {:induction false} NoMoreThanWaiting(c: Context, replies: seq<Reply>, user: User)
    requires Alive(c) && |replies| <= |c.pending|
    ensures !Unmatched(c, replies, user)
    decreases |replies|
  {
    if replies != [] {
      var d := Answered(c, replies[0], user);
      AnsweredKeeps(c, replies[0], user);
      if !(c.pending[0].fn && d.freeing) {
        NoMoreThanWaiting(d, replies[1..], user);
      }
    }
  }

  /** Unless the connection ends, every reply read has been handed to a command. */
  lemma {:induction false} ProcessTakesAll(c: Context, replies: seq<Reply>, broken: bool, user: User)
    requires Alive(c)
    ensures var d := Process(c, replies, broken, user);
            Over(d) || (d.received == c.received + replies && !broken)
    decreases |replies|
  {
    if replies == [] {
      ReaderEmpty(c, broken, user);
      assert c.received + [] == c.received;
    } else if c.pending == [] {
      NothingWaits(c, replies, broken, user);
    } else {
      var d := Answered(c, replies[0], user);
      AnsweredKeeps(c, replies[0], user);
      assert c.received + [replies[0]] + replies[1..] == c.received + replies;
      if c.pending[0].fn && d.freeing {
        TeardownSettles(d, user);
      } else {
        ProcessTakesAll(d, replies[1..], broken, user);
      }
    }
  }

  lemma {:induction false} RefusingActs(c: Context, actions: seq<Action>)
    requires Refusing(c)
    ensures var d := Acts(c, actions);
            d.issued == c.issued && d.obuf == c.obuf && (c.disconnecting ==> d.disconnecting)
                && (c.freeing ==> d.freeing)
    decreases |actions|
  {
    if actions != [] {
      RefusingActs(c, actions[..|actions| - 1]);
    }
  }

  lemma RefusingRuns(c: Context, cmd: Command, reply: Option<Reply>, user: User)
    requires Refusing(c)
    ensures var d := RunCallback(c, cmd, reply, user);
            d.issued == c.issued && d.obuf == c.obuf && (c.disconnecting ==> d.disconnecting)
                && (c.freeing ==> d.freeing)
  {
    if cmd.fn {
      RefusingActs(c.(inCallback := true, calls := c.calls + [Call(cmd, reply)]), user(|c.calls|));
    }
  }

  lemma {:induction false} TeardownRefuses(c: Context, user: User)
    requires Refusing(c)
    ensures Teardown(c, user).issued == c.issued && (c.freeing ==> Teardown(c, user).freeing)
    decreases |c.pending|
  {
    if c.pending != [] {
      var s := c.(pending := c.pending[1..]);
      RefusingRuns(s, c.pending[0], None, user);
      TeardownRefuses(RunCallback(s, c.pending[0], None, user), user);
    }
  }
}
