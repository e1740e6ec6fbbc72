/** How an asynchronous connection ends: which events release it, and which commands are told so with a null reply. */
module AsyncEndings {
  import opened Bytes
  import opened Resp
  import opened Format
  import opened AsyncReplies

  // ---------- a teardown ----------

  /** One null call for each waiting command that has a callback. */
  function Nulls(pending: seq<Command>): seq<Call> {
    if pending == [] then []
    else (if pending[0].fn then [Call(pending[0], None)] else []) + Nulls(pending[1..])
  }

  lemma {:induction false} ActsTouch(c: Context, actions: seq<Action>)
    ensures var d := Acts(c, actions); d.calls == c.calls && d.freed == c.freed && d.received == c.received
    decreases |actions|
  {
    if actions != [] {
      ActsTouch(c, actions[..|actions| - 1]);
    }
  }

  lemma RunCallbackTouches(c: Context, cmd: Command, reply: Option<Reply>, user: User)
    ensures var d := RunCallback(c, cmd, reply, user);
            d.calls == c.calls + (if cmd.fn then [Call(cmd, reply)] else []) && d.freed == c.freed
                && d.received == c.received
  {
    if cmd.fn {
      ActsTouch(Called(c, cmd, reply), user(|c.calls|));
    }
  }

  /** A teardown releases the context once and tells every waiting command so, in order, whatever their callbacks do. */
  lemma {:induction false} TeardownTells(c: Context, user: User)
    requires Refusing(c)
    ensures var d := Teardown(c, user);
            && d.freed == c.freed + 1 && d.pending == [] && d.received == c.received
            && d.calls == c.calls + Nulls(c.pending)
    decreases |c.pending|
  {
    if c.pending != [] {
      var s := c.(pending := c.pending[1..]);
      var d := RunCallback(s, c.pending[0], None, user);
      RunCallbackTouches(s, c.pending[0], None, user);
      TeardownTells(d, user);
      assert c.calls + Nulls(c.pending) == d.calls + Nulls(c.pending[1..]);
    } else {
      assert c.calls + [] == c.calls;
    }
  }

  // ---------- redisAsyncDisconnect ----------

  /**
   * A disconnect from outside a callback releases a connection for which nothing waits, and runs no callback; otherwise
   * it only keeps further commands out.
   */
  lemma DisconnectExactly(c: Context, user: User)
    requires Alive(c)
    ensures var d := Apply(c, UserDisconnect, user);
            && d.disconnecting && d.calls == c.calls && d.pending == c.pending && d.received == c.received
            && (d.freed == 1 <==> c.pending == []) && (d.freed == 0 <==> c.pending != [])
  {
    if c.pending == [] {
      TeardownTells(c.(disconnecting := true), user);
      assert c.calls + [] == c.calls;
    }
  }

  /**
   * With replies outstanding, once the output is written and each waiting command has its reply, the connection is
   * released, and unless a callback frees it earlier every command got its own reply.
   */
  lemma DisconnectAwaitsReplies(c: Context, n: nat, replies: seq<Reply>, user: User)
    requires Alive(c) && !c.err && c.pending != [] && n >= |c.obuf| && |replies| == |c.pending|
    ensures var written := Apply(Apply(c, UserDisconnect, user), Writable(n), user);
            && !Over(Apply(c, UserDisconnect, user)) && !Over(written)
            && written.calls == c.calls && written.pending == c.pending
            && written.sent == c.sent + c.obuf && written.obuf == []
            && var d := Apply(written, Readable(replies, false), user);
               d.freed == 1 && d.issued == c.issued
               && (!d.freeing ==> d.received == c.received + replies && |d.received| == |d.issued|)
  {
    var c1 := Apply(c, UserDisconnect, user);
    DisconnectExactly(c, user);
    AllWritten(c1, n);
    CleanDisconnect(Written(c1, n), replies, user);
  }

  lemma AllWritten(c: Context, n: nat)
    requires Alive(c) && n >= |c.obuf|
    ensures Written(c, n) == c.(sent := c.sent + c.obuf, obuf := []) && Alive(Written(c, n))
  {
    WrittenKeeps(c, n);
    assert c.obuf[..|c.obuf|] == c.obuf;
  }

  // ---------- what releases a connection ----------

  /** Outside reading, exactly this releases a connection; and all that wait are then told so. */
  lemma ReleasedExactly(c: Context, e: Event, user: User)
    requires Alive(c) && !(e.Readable? && !c.err)
    ensures var d := Apply(c, e, user);
            && (d.freed == 1 <==>
                  match e
                  case UserCommand(_) => false
                  case UserDisconnect => c.pending == []
                  case UserFree => true
                  case Readable(_, _) => c.err
                  case Writable(_) => c.err
                  case IOError => true)
            && (d.freed == 1 ==> d.calls == c.calls + Nulls(c.pending))
            && (d.freed == 0 ==> d.calls == c.calls)
  {
    match e {
      case UserCommand(_) =>
      case UserDisconnect => DisconnectExactly(c, user);
      case UserFree => TeardownTells(c.(freeing := true), user);
      case Readable(_, _) => TeardownTells(c.(disconnecting := true), user);
      case Writable(n) =>
        if c.err {
          TeardownTells(c.(disconnecting := true), user);
        }
      case IOError => TeardownTells(c.(err := true, disconnecting := true), user);
    }
    assert c.calls + [] == c.calls;
  }

  lemma {:induction false} ActsKeepFreeing(c: Context, actions: seq<Action>)
    ensures (c.freeing || Free in actions) <==> Acts(c, actions).freeing
    ensures (c.disconnecting || Disconnect in actions) <==> Acts(c, actions).disconnecting
    decreases |actions|
  {
    if actions != [] {
      var k := |actions| - 1;
      ActsKeepFreeing(c, actions[..k]);
      assert actions == actions[..k] + [actions[k]];
    }
  }

  /** The commands issued before a callback disconnects or frees. */
  function Accepted(actions: seq<Action>): seq<Command> {
    if actions == [] || !actions[0].Issue? then [] else [actions[0].cmd] + Accepted(actions[1..])
  }

  lemma {:induction false} AcceptedSnoc(actions: seq<Action>, a: Action)
    ensures Accepted(actions + [a]) ==
            Accepted(actions)
            + if a.Issue? && (forall b :: b in actions ==> b.Issue?) then [a.cmd] else []
  {
    if actions == [] {
      assert [] + [a] == [a] && [a][1..] == [] && Accepted([]) == [];
    } else {
      assert (actions + [a])[1..] == actions[1..] + [a] && (actions + [a])[0] == actions[0];
      if actions[0].Issue? {
        AcceptedSnoc(actions[1..], a);
        assert (forall b :: b in actions ==> b.Issue?) <==> forall b :: b in actions[1..] ==> b.Issue?;
      } else {
        assert actions[0] in actions;
      }
    }
  }

  /** Of the commands that a callback issues, exactly these are queued and written out, in order. */
  lemma {:induction false} CallbackIssues(c: Context, actions: seq<Action>)
    requires !Refusing(c)
    ensures var d, more := Acts(c, actions), Accepted(actions);
            && d.pending == c.pending + more && d.issued == c.issued + more
            && d.obuf == c.obuf + EncodeAll(Arguments(more))
            && (Refusing(d) <==> exists a :: a in actions && !a.Issue?)
    decreases |actions|
  {
    if actions == [] {
      assert c.pending + [] == c.pending && c.issued + [] == c.issued && c.obuf + [] == c.obuf && Arguments([]) == [];
    } else {
      var front, a := actions[..|actions| - 1], actions[|actions| - 1];
      assert actions == front + [a];
      CallbackIssues(c, front);
      AcceptedSnoc(front, a);
      ActIssues(c, Acts(c, front), a, Accepted(front));
      assert (exists b :: b in actions && !b.Issue?) <==> (exists b :: b in front && !b.Issue?) || !a.Issue?;
    }
  }

  lemma Snoc(cs: seq<Command>, more: seq<Command>, cmd: Command)
    ensures cs + more + [cmd] == cs + (more + [cmd])
  {
  }

  lemma ActIssues(c: Context, d: Context, a: Action, more: seq<Command>)
    requires d.pending == c.pending + more && d.issued == c.issued + more
             && d.obuf == c.obuf + EncodeAll(Arguments(more))
    ensures var e, more' := Act(d, a), more + (if a.Issue? && !Refusing(d) then [a.cmd] else []);
            && e.pending == c.pending + more' && e.issued == c.issued + more'
            && e.obuf == c.obuf + EncodeAll(Arguments(more'))
            && (Refusing(e) <==> Refusing(d) || !a.Issue?)
  {
    if a.Issue? && !Refusing(d) {
      EncodeAllSnoc(Arguments(more), a.cmd.args);
      assert Arguments(more + [a.cmd]) == Arguments(more) + [a.cmd.args];
      Regroup(c.obuf, EncodeAll(Arguments(more)), Encode(a.cmd.args));
      Snoc(c.pending, more, a.cmd);
      Snoc(c.issued, more, a.cmd);
    } else {
      assert more + [] == more;
    }
  }

  /** A callback that frees its context has it released right after, with one reply used; one that does not, has not. */
  lemma FreedInCallback(c: Context, replies: seq<Reply>, broken: bool, user: User)
    requires Alive(c) && c.pending != [] && replies != [] && c.pending[0].fn
    ensures Free in user(|c.calls|) ==>
              var d := Process(c, replies, broken, user);
              d.freed == 1 && d.received == c.received + [replies[0]] && d.pending == []
              && c.calls + [Call(c.pending[0], Some(replies[0]))] <= d.calls
    ensures Free !in user(|c.calls|) ==>
              Process(c, replies, broken, user) == Process(Answered(c, replies[0], user), replies[1..], broken, user)
  {
    var s := c.(pending := c.pending[1..], received := c.received + [replies[0]]);
    var called := Called(s, c.pending[0], Some(replies[0]));
    var d := Answered(c, replies[0], user);
    ActsKeepFreeing(called, user(|s.calls|));
    RunCallbackTouches(s, c.pending[0], Some(replies[0]), user);
    if d.freeing {
      AnsweredKeeps(c, replies[0], user);
      TeardownTells(d, user);
    }
  }

  // ---------- lives without failures ----------

  /** The socket works, the server keeps to the protocol, and nobody frees the context. */
  ghost predicate Gentle(events: seq<Event>, user: User) {
    && (forall e :: e in events ==> !e.UserFree? && !e.IOError? && (e.Readable? ==> !e.broken))
    && forall n :: Free !in user(n)
  }

  /** In use and not failing, or over with every settled command answered. */
  ghost predicate Answering(c: Context) {
    Inv(c) && |c.received| == Settled(c) && (!Over(c) ==> !c.err && !c.freeing)
  }

  lemma {:induction false} ActsNeverFree(c: Context, actions: seq<Action>)
    requires Free !in actions
    ensures Acts(c, actions).freeing == c.freeing
    decreases |actions|
  {
    if actions != [] {
      ActsNeverFree(c, actions[..|actions| - 1]);
    }
  }

  lemma AnsweredNeverFrees(c: Context, reply: Reply, user: User)
    requires c.pending != [] && forall n :: Free !in user(n)
    ensures Answered(c, reply, user).freeing == c.freeing
  {
    var s := c.(pending := c.pending[1..], received := c.received + [reply]);
    if c.pending[0].fn {
      ActsNeverFree(Called(s, c.pending[0], Some(reply)), user(|s.calls|));
    }
  }

  lemma {:induction false} ProcessAnswers(c: Context, replies: seq<Reply>, user: User)
    requires Alive(c) && !c.err && forall n :: Free !in user(n)
    ensures Answering(Process(c, replies, false, user))
    decreases |replies|
  {
    if replies == [] {
      if c.disconnecting && c.obuf == [] && c.pending == [] {
        DisconnectSettles(c, user);
      }
    } else if c.pending == [] {
      NothingWaits(c, replies, false, user);
    } else {
      AnsweredKeeps(c, replies[0], user);
      AnsweredNeverFrees(c, replies[0], user);
      ProcessAnswers(Answered(c, replies[0], user), replies[1..], user);
    }
  }

  lemma ApplyAnswers(c: Context, e: Event, user: User)
    requires Answering(c) && !Over(c) && Gentle([e], user)
    ensures Answering(Apply(c, e, user))
  {
    assert e in [e];
    match e {
      case UserCommand(cmd) => AppendKeeps(c, cmd);
      case UserDisconnect =>
        ApplyKeeps(c, e, user);
        DisconnectExactly(c, user);
      case Readable(replies, _) => ProcessAnswers(c, replies, user);
      case Writable(n) => WrittenKeeps(c, n);
      case _ =>
    }
  }

  lemma {:induction false} RunAnswers(c: Context, events: seq<Event>, user: User)
    requires Answering(c) && Gentle(events, user)
    ensures Answering(Run(c, events, user))
    decreases |events|
  {
    if events != [] && !Over(c) {
      assert events[0] in events;
      ApplyAnswers(c, events[0], user);
      RunAnswers(Apply(c, events[0], user), events[1..], user);
    }
  }

  /**
   * Over every such life, with commands and disconnects at any time from anywhere: no callback gets a null reply, and
   * the connection is released only when every command has had its own.
   */
  lemma NobodyToldNull(events: seq<Event>, user: User)
    requires Gentle(events, user)
    ensures var c := Run(Fresh(false), events, user);
            && (c.freed == 1 ==> |c.received| == |c.issued|)
            && forall call :: call in c.calls ==> call.reply.Some?
  {
    var c := Fresh(false);
    assert Arguments([]) == [];
    assert Alive(c);
    RunAnswers(c, events, user);
    var d := Run(c, events, user);
    OwedAreReplies(d.issued, d.received, Settled(d));
  }

  lemma {:induction false} OwedAreReplies(issued: seq<Command>, received: seq<Reply>, n: nat)
    requires n <= |issued| && n <= |received|
    ensures forall call :: call in Owed(issued, received, n) ==> call.reply.Some?
    decreases n
  {
    if n > 0 {
      OwedAreReplies(issued, received, n - 1);
    }
  }
}
