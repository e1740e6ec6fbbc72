/** The asynchronous connection of async.c as objects: the linked callback queue and the context that owns it. */
module Async {
  import opened Bytes
  import opened Resp
  import opened Format
  import opened AsyncReplies
  import opened AsyncEndings

  class Callback {
    const cmd: Command
    var next: Callback?

    constructor (cmd: Command)
      ensures this.cmd == cmd && next == null
    {
      this.cmd := cmd;
      next := null;
    }
  }

  /** The node at position `i`, or null past the end. */
  ghost function At(nodes: seq<Callback>, i: nat): Callback? {
    if i < |nodes| then nodes[i] else null
  }

  /** Links in list order, and the commands they carry. */
  ghost predicate Linked(nodes: seq<Callback>)
    reads nodes
  {
    && (forall i :: 0 <= i < |nodes| ==> nodes[i].next == At(nodes, i + 1))
    && (forall i, j :: 0 <= i < j < |nodes| ==> nodes[i] != nodes[j])
  }

  ghost function Carried(nodes: seq<Callback>): (r: seq<Command>)
    ensures |r| == |nodes|
  {
    seq(|nodes|, i requires 0 <= i < |nodes| => nodes[i].cmd)
  }

  lemma LinkedTail(nodes: seq<Callback>)
    requires nodes != [] && Linked(nodes)
    ensures Linked(nodes[1..]) && Carried(nodes[1..]) == Carried(nodes)[1..]
    ensures |nodes| > 1 ==> nodes[0] != nodes[|nodes| - 1]
  {
    forall i | 0 <= i < |nodes| - 1
      ensures nodes[1..][i] == nodes[i + 1] && nodes[i + 1].next == At(nodes, i + 2) == At(nodes[1..], i + 1)
    {
    }
    assert Carried(nodes[1..]) == Carried(nodes)[1..];
  }

  /** redisCallbackList. */
  class CallbackList {
    var head: Callback?
    var tail: Callback?
    ghost var nodes: seq<Callback>
    ghost var repr: set<Callback>

    ghost predicate Valid()
      reads this, repr
    {
      && (forall i :: 0 <= i < |nodes| ==> nodes[i] in repr)
      && head == (if nodes == [] then null else nodes[0])
      && tail == (if nodes == [] then null else nodes[|nodes| - 1])
      && Linked(nodes)
    }

    constructor ()
      ensures Valid() && nodes == [] && repr == {}
    {
      head, tail, nodes, repr := null, null, [], {};
    }

    /** __redisPushCallback. */
    method Push(cmd: Command)
      requires Valid()
      modifies this, repr
      ensures Valid() && Carried(nodes) == old(Carried(nodes)) + [cmd]
      ensures fresh(repr - old(repr))
    {
      var cb := new Callback(cmd);
      if head == null {
        head := cb;
      }
      if tail != null {
        tail.next := cb;
      }
      tail := cb;
      nodes, repr := nodes + [cb], repr + {cb};
    }

    /** __redisShiftCallback. */
    method Shift() returns (cmd: Option<Command>)
      requires Valid()
      modifies `head, `tail, `nodes
      ensures Valid()
      ensures cmd == if old(nodes) == [] then None else Some(old(nodes)[0].cmd)
      ensures Carried(nodes) == if old(nodes) == [] then [] else old(Carried(nodes))[1..]
    {
      var cb := head;
      if cb == null {
        return None;
      }
      head := cb.next;
      if cb == tail {
        tail := null;
      }
      LinkedTail(nodes);
      assert nodes[0].next == At(nodes, 1);
      nodes := nodes[1..];
      return Some(cb.cmd);
    }
  }

  /** redisAsyncContext, with its history in ghost fields. */
  class AsyncContext {
    const replies: CallbackList
    const user: User
    var obuf: seq<byte>
    var inCallback: bool
    var disconnecting: bool
    var freeing: bool
    var err: bool
    var freed: nat
    var aborted: bool
    var calls: seq<Call>
    ghost var issued: seq<Command>
    ghost var received: seq<Reply>
    ghost var sent: seq<byte>

    ghost predicate Valid()
      reads this, replies, replies.repr
    {
      replies.Valid()
    }

    ghost function Abs(): Context
      reads this, replies
    {
      Context(Carried(replies.nodes), obuf, inCallback, disconnecting, freeing, err, freed, aborted, calls, issued,
          received, sent)
    }

    constructor (user: User, err: bool)
      ensures Valid() && Abs() == Fresh(err) && this.user == user && fresh(replies) && replies.repr == {}
    {
      replies := new CallbackList();
      this.user := user;
      obuf, calls, issued, received, sent := [], [], [], [], [];
      inCallback, disconnecting, freeing, aborted, this.err := false, false, false, false, err;
      freed := 0;
    }

    /** __redisAsyncCommand. */
    method Command(cmd: Command) returns (ok: bool)
      requires Valid()
      modifies this, replies, replies.repr
      ensures Valid() && Abs() == Append(old(Abs()), cmd)
      ensures ok == !(old(disconnecting) || old(freeing))
      ensures ok ==> Abs().pending == old(Abs()).pending + [cmd] && obuf == old(obuf) + Encode(cmd.args)
      ensures !ok ==> Abs() == old(Abs())
      ensures fresh(replies.repr - old(replies.repr))
    {
      if disconnecting || freeing {
        return false;
      }
      replies.Push(cmd);
      obuf := obuf + Encode(cmd.args);
      issued := issued + [cmd];
      return true;
    }

    /** One thing that a callback does to its own context. */
    method Perform(a: Action)
      requires Valid() && inCallback
      modifies this, replies, replies.repr
      ensures Valid() && Abs() == Act(old(Abs()), a)
      ensures fresh(replies.repr - old(replies.repr))
      decreases 1
    {
      match a {
        case Issue(cmd) =>
          var _ := Command(cmd);
        case Disconnect => AsyncDisconnect();
        case Free => AsyncFree();
      }
    }

    /** The body of a user callback. */
    method PerformAll(actions: seq<Action>)
      requires Valid() && inCallback
      modifies this, replies, replies.repr
      ensures Valid() && Abs() == Acts(old(Abs()), actions)
      ensures fresh(replies.repr - old(replies.repr))
      decreases 2
    {
      for i := 0 to |actions|
        invariant Valid() && inCallback && Abs() == Acts(old(Abs()), actions[..i])
        invariant fresh(replies.repr - old(replies.repr))
      {
        assert actions[..i + 1][..i] == actions[..i];
        Perform(actions[i]);
      }
      assert actions[..|actions|] == actions;
    }

    /** __redisRunCallback: the callback may issue commands, disconnect or free. */
    method RunCallback(cmd: Command, reply: Option<Reply>)
      requires Valid() && !inCallback
      modifies this, replies, replies.repr
      ensures Valid() && Abs() == AsyncReplies.RunCallback(old(Abs()), cmd, reply, user)
      ensures fresh(replies.repr - old(replies.repr))
      decreases 4
    {
      if cmd.fn {
        CallUser(cmd, reply);
      }
    }

    method CallUser(cmd: Command, reply: Option<Reply>)
      requires Valid() && !inCallback
      modifies this, replies, replies.repr
      ensures Valid() && fresh(replies.repr - old(replies.repr))
      ensures var c := old(Abs()); Abs() == Acts(Called(c, cmd, reply), user(|c.calls|)).(inCallback := false)
      decreases 3
    {
      var actions := user(|calls|);
      ghost var before := Abs();
      BeginCall(cmd, reply);
      PerformAll(actions);
      assert Abs() == Acts(Called(before, cmd, reply), actions);
      EndCall();
    }

    method BeginCall(cmd: Command, reply: Option<Reply>)
      requires Valid()
      modifies `inCallback, `calls
      ensures Valid() && Abs() == Called(old(Abs()), cmd, reply)
    {
      inCallback := true;
      calls := calls + [Call(cmd, reply)];
    }

    method EndCall()
      requires Valid()
      modifies `inCallback
      ensures Valid() && Abs() == old(Abs()).(inCallback := false)
    {
      inCallback := false;
    }

    /** Shifts the oldest waiting command off the queue. */
    method TakeOldest() returns (cmd: Option<Command>)
      requires Valid()
      modifies replies`head, replies`tail, replies`nodes
      ensures Valid()
      ensures old(Abs()).pending == [] ==> cmd == None && Abs() == old(Abs())
      ensures old(Abs()).pending != [] ==> cmd == Some(old(Abs()).pending[0])
                                           && Abs() == old(Abs()).(pending := old(Abs()).pending[1..])
    {
      cmd := replies.Shift();
    }

    /** __redisAsyncFree. */
    method FreeContext()
      requires Valid() && Refusing(Abs()) && !inCallback
      modifies this, replies, replies.repr
      ensures Valid() && Abs() == Teardown(old(Abs()), user)
      ensures freed == old(freed) + 1 && Abs().pending == [] && calls == old(calls) + Nulls(old(Abs()).pending)
      ensures fresh(replies.repr - old(replies.repr))
      decreases 5
    {
      ghost var before := Abs();
      TeardownTells(before, user);
      while true
        invariant Valid() && !inCallback && Refusing(Abs()) && Teardown(Abs(), user) == Teardown(before, user)
        invariant fresh(replies.repr - old(replies.repr))
        decreases |Abs().pending|
      {
        var cb := TakeOldest();
        if cb.None? {
          break;
        }
        RunCallback(cb.value, None);
      }
      freed := freed + 1;
    }

    /** redisAsyncFree. */
    method AsyncFree()
      requires Valid()
      modifies this, replies, replies.repr
      ensures Valid()
      ensures old(inCallback) ==> Abs() == old(Abs()).(freeing := true)
      ensures !old(inCallback) ==> Abs() == FreeOutside(old(Abs()), user)
      ensures !old(inCallback) ==>
                freed == old(freed) + 1 && Abs().pending == [] && calls == old(calls) + Nulls(old(Abs()).pending)
      ensures fresh(replies.repr - old(replies.repr))
      decreases if inCallback then 0 else 6
    {
      freeing := true;
      if !inCallback {
        FreeContext();
      }
    }

    /** __redisAsyncDisconnect. */
    method DisconnectContext()
      requires Valid() && !inCallback && (Refusing(Abs()) || err) && (!err ==> Abs().pending == [])
      modifies this, replies, replies.repr
      ensures Valid() && Abs() == DisconnectNow(old(Abs()), user)
      ensures fresh(replies.repr - old(replies.repr))
      decreases 6
    {
      if !err {
        var ret := TakeOldest();
        assert ret.None?;
      } else {
        disconnecting := true;
      }
      FreeContext();
    }

    /** redisAsyncDisconnect. */
    method AsyncDisconnect()
      requires Valid()
      modifies this, replies, replies.repr
      ensures Valid()
      ensures Abs() == if old(inCallback) || old(Abs()).pending != [] then old(Abs()).(disconnecting := true)
                       else old(Abs()).(disconnecting := true, freed := old(freed) + 1)
      ensures fresh(replies.repr - old(replies.repr))
      decreases if inCallback then 0 else 7
    {
      disconnecting := true;
      if !inCallback && replies.head == null {
        DisconnectContext();
      }
    }

    /** The branch of redisProcessCallbacks for a reply that nothing waits for. */
    method Spontaneous(reply: Reply)
      requires Valid() && !inCallback && Abs().pending == []
      modifies this, replies, replies.repr
      ensures Valid() && fresh(replies.repr - old(replies.repr))
      ensures Abs() == if reply.Error? then DisconnectNow(old(Abs()).(err := true), user)
              else old(Abs()).(aborted := true)
    {
      if reply.Error? {
        err := true;
        DisconnectContext();
      } else {
        aborted := true;
      }
    }

    /** The branch for a reply that answers `cmd`; `stop` when the callback freed the context. */
    method Settle(cmd: Command, reply: Reply) returns (stop: bool)
      requires Valid() && !inCallback
      modifies this, replies, replies.repr
      ensures Valid() && fresh(replies.repr - old(replies.repr))
      ensures var c := old(Abs());
              var d := AsyncReplies.RunCallback(c.(received := c.received + [reply]), cmd, Some(reply), user);
              stop == (cmd.fn && d.freeing) && Abs() == if stop then Teardown(d, user) else d
    {
      received := received + [reply];
      RunCallback(cmd, Some(reply));
      stop := cmd.fn && freeing;
      if stop {
        FreeContext();
      }
    }

    /** redisProcessCallbacks. */
    method ProcessCallbacks(incoming: seq<Reply>, broken: bool)
      requires Valid() && !inCallback
      modifies this, replies, replies.repr
      ensures Valid() && Abs() == Process(old(Abs()), incoming, broken, user)
      ensures fresh(replies.repr - old(replies.repr))
    {
      for i := 0 to |incoming|
        invariant Valid() && !inCallback
        invariant Process(Abs(), incoming[i..], broken, user) == Process(old(Abs()), incoming, broken, user)
        invariant fresh(replies.repr - old(replies.repr))
      {
        assert incoming[i..][1..] == incoming[i + 1..];
        var cb := TakeOldest();
        if cb.None? {
          Spontaneous(incoming[i]);
          return;
        }
        var stop := Settle(cb.value, incoming[i]);
        if stop {
          return;
        }
      }
      assert incoming[|incoming|..] == [];
      NoMoreReplies(broken);
    }

    /** The end of redisProcessCallbacks: the reader has no reply left, or an error. */
    method NoMoreReplies(broken: bool)
      requires Valid() && !inCallback
      modifies this, replies, replies.repr
      ensures Valid() && Abs() == Process(old(Abs()), [], broken, user)
      ensures fresh(replies.repr - old(replies.repr))
    {
      if broken {
        err := true;
        DisconnectContext();
      } else if disconnecting && |obuf| == 0 && replies.head == null {
        DisconnectContext();
      }
    }

    /** redisAsyncHandleRead; `ok` is whether the read succeeded. */
    method HandleRead(ok: bool, incoming: seq<Reply>, broken: bool)
      requires Valid() && !inCallback
      modifies this, replies, replies.repr
      ensures Valid() && Abs() == Apply(old(Abs()), if ok then Readable(incoming, broken) else IOError, user)
      ensures fresh(replies.repr - old(replies.repr))
    {
      if err || !ok {
        err := true;
        DisconnectContext();
      } else {
        ProcessCallbacks(incoming, broken);
      }
    }

    /** redisAsyncHandleWrite; the socket takes at most `n` bytes. */
    method HandleWrite(ok: bool, n: nat)
      requires Valid() && !inCallback
      modifies this, replies, replies.repr
      ensures Valid() && Abs() == Apply(old(Abs()), if ok then Writable(n) else IOError, user)
      ensures ok && !old(err) ==>
                sent + obuf == old(sent + obuf) && |obuf| == if n < |old(obuf)| then |old(obuf)| - n else 0
      ensures fresh(replies.repr - old(replies.repr))
    {
      if err || !ok {
        err := true;
        DisconnectContext();
      } else {
        var nwritten := if n < |obuf| then n else |obuf|;
        sent := sent + obuf[..nwritten];
        obuf := obuf[nwritten..];
      }
    }

    /** One call into the library from outside its callbacks. */
    method Handle(e: Event)
      requires Valid() && !inCallback
      modifies this, replies, replies.repr
      ensures Valid() && Abs() == Apply(old(Abs()), e, user)
      ensures fresh(replies.repr - old(replies.repr))
    {
      match e {
        case UserCommand(cmd) =>
          var _ := Command(cmd);
        case UserDisconnect => AsyncDisconnect();
        case UserFree => AsyncFree();
        case Readable(incoming, broken) => HandleRead(true, incoming, broken);
        case Writable(n) => HandleWrite(true, n);
        case IOError => HandleRead(false, [], false);
      }
    }
  }

  /** The life of one connection: it is left alone once freed or once the program has aborted. */
  method Serve(user: User, err: bool, events: seq<Event>) returns (ac: AsyncContext)
    ensures ac.Valid() && ac.Abs() == Run(Fresh(err), events, user)
    ensures Inv(ac.Abs())
  {
    ac := new AsyncContext(user, err);
    assert Arguments([]) == [];
    var i := 0;
    while i < |events| && ac.freed == 0 && !ac.aborted
      invariant i <= |events| && ac.Valid() && ac.user == user && Inv(ac.Abs())
      invariant fresh(ac) && fresh(ac.replies) && fresh(ac.replies.repr)
      invariant Run(ac.Abs(), events[i..], user) == Run(Fresh(err), events, user)
    {
      assert events[i..][1..] == events[i + 1..];
      ApplyKeeps(ac.Abs(), events[i], user);
      ac.Handle(events[i]);
      i := i + 1;
    }
  }
}
