/** An asynchronous connection fed by a byte stream: the reader and the callback queue together. */
module AsyncStream {
  import opened Bytes
  import opened Resp
  import opened AsyncReplies

  /** Bytes arrive from the socket, or something else happens to the connection. */
  datatype Arrival = Chunk(bytes: seq<byte>) | Other(e: Event)

  /** A chunk arrives when the reader still holds `rest`: all complete replies go to redisProcessCallbacks. */
  function Receive(c: Context, rest: seq<byte>, chunk: seq<byte>, user: User): Context {
    var (replies, ending) := ParseAll(rest + chunk);
    Apply(c, Readable(replies, ending.Refused?), user)
  }

  /** The next state of the connection, and what its reader then holds. */
  function Turn(c: Context, rest: seq<byte>, a: Arrival, user: User): (Context, seq<byte>) {
    match a
    case Chunk(bytes) => (Receive(c, rest, bytes, user), Rest(rest + bytes))
    case Other(e) => (Apply(c, e, user), rest)
  }

  /** The life of a connection whose reader holds `rest`. */
  function Live(c: Context, rest: seq<byte>, arrivals: seq<Arrival>, user: User): Context
    decreases |arrivals|
  {
    if arrivals == [] || Over(c) then c
    else var (d, left) := Turn(c, rest, arrivals[0], user); Live(d, left, arrivals[1..], user)
  }

  /** What the reader keeps; after an error it reads no more. */
  function Rest(s: seq<byte>): seq<byte> {
    if ParseAll(s).1.Open? then Residue(s) else []
  }

  function BytesOf(a: Arrival): seq<byte> {
    if a.Chunk? then a.bytes else []
  }

  /** The bytes of a run. */
  function Stream(arrivals: seq<Arrival>): seq<byte> {
    if arrivals == [] then [] else BytesOf(arrivals[0]) + Stream(arrivals[1..])
  }

  /** Replies come from the socket only. */
  predicate Honest(arrivals: seq<Arrival>) {
    forall a :: a in arrivals && a.Other? ==> !a.e.Readable?
  }

  /** In use, with every reply of the bytes `fed` so far handed out, in order. */
  ghost predicate InStep(c: Context, rest: seq<byte>, fed: seq<byte>) {
    Alive(c) && c.received == ParseAll(fed).0 && ParseAll(fed).1.Open? && rest == Residue(fed)
  }

  /** After an end, the replies handed out are the first ones of the stream. */
  ghost predicate Ended(c: Context, fed: seq<byte>) {
    Inv(c) && Over(c) && c.received <= ParseAll(fed).0
  }

  lemma ChunkInStep(c: Context, rest: seq<byte>, fed: seq<byte>, chunk: seq<byte>, user: User)
    requires InStep(c, rest, fed)
    ensures var d := Receive(c, rest, chunk, user);
            InStep(d, Rest(rest + chunk), fed + chunk) || Ended(d, fed + chunk)
  {
    ParseAllSplit(fed, chunk);
    var (replies, ending) := ParseAll(rest + chunk);
    ApplyKeeps(c, Readable(replies, ending.Refused?), user);
    if c.err {
      DisconnectSettles(c, user);
    } else {
      ProcessKeeps(c, replies, ending.Refused?, user);
      ProcessTakesAll(c, replies, ending.Refused?, user);
    }
  }

  lemma OtherInStep(c: Context, rest: seq<byte>, fed: seq<byte>, e: Event, user: User)
    requires InStep(c, rest, fed) && !e.Readable?
    ensures var d := Apply(c, e, user);
            InStep(d, rest, fed) || Ended(d, fed)
  {
    ApplyKeeps(c, e, user);
    OtherReceivesNothing(c, e, user);
  }

  lemma OtherReceivesNothing(c: Context, e: Event, user: User)
    requires Alive(c) && !e.Readable?
    ensures Apply(c, e, user).received == c.received
  {
    match e {
      case UserDisconnect =>
        if c.pending == [] {
          DisconnectSettles(c.(disconnecting := true), user);
        }
      case UserFree => TeardownSettles(c.(freeing := true), user);
      case Writable(n) =>
        if c.err {
          DisconnectSettles(c, user);
        }
      case IOError => DisconnectSettles(c.(err := true), user);
      case UserCommand(_) =>
    }
  }

  lemma TurnInStep(c: Context, rest: seq<byte>, fed: seq<byte>, a: Arrival, user: User)
    requires InStep(c, rest, fed) && (a.Other? ==> !a.e.Readable?)
    ensures var (d, left) := Turn(c, rest, a, user);
            InStep(d, left, fed + BytesOf(a)) || Ended(d, fed + BytesOf(a))
  {
    match a {
      case Chunk(bytes) => ChunkInStep(c, rest, fed, bytes, user);
      case Other(e) =>
        OtherInStep(c, rest, fed, e, user);
        assert fed + [] == fed;
    }
  }

  lemma EndedFollows(c: Context, fed: seq<byte>, more: seq<byte>)
    requires Ended(c, fed)
    ensures Ended(c, fed + more)
  {
    ParseAllSplit(fed, more);
  }

  /** At an end, or with every reply of the bytes `fed` handed out. */
  ghost predicate Followed(c: Context, fed: seq<byte>) {
    Ended(c, fed) || (Alive(c) && c.received == ParseAll(fed).0)
  }

  lemma StreamTurn(fed: seq<byte>, arrivals: seq<Arrival>)
    requires arrivals != []
    ensures fed + Stream(arrivals) == fed + BytesOf(arrivals[0]) + Stream(arrivals[1..])
  {
    Regroup(fed, BytesOf(arrivals[0]), Stream(arrivals[1..]));
  }

  lemma {:induction false} LiveFollows(c: Context, rest: seq<byte>, fed: seq<byte>, arrivals: seq<Arrival>, user: User)
    requires Honest(arrivals) && (InStep(c, rest, fed) || Ended(c, fed))
    ensures Followed(Live(c, rest, arrivals, user), fed + Stream(arrivals))
    decreases |arrivals|
  {
    if Ended(c, fed) {
      EndedFollows(c, fed, Stream(arrivals));
    } else if arrivals == [] {
      assert fed + [] == fed;
    } else {
      assert arrivals[0] in arrivals;
      TurnInStep(c, rest, fed, arrivals[0], user);
      StreamTurn(fed, arrivals);
      var (d, left) := Turn(c, rest, arrivals[0], user);
      LiveFollows(d, left, fed + BytesOf(arrivals[0]), arrivals[1..], user);
    }
  }

  /**
   * Bytes arrive in any chunks, between any other events, and callbacks do anything to their connection: the calls are
   * exactly one per settled command, in issue order, the k-th with the k-th reply of the whole stream as the reference
   * parser reads it. While the connection lives, all the replies of the stream have been handed out.
   */
  lemma CallbacksFollowStream(err: bool, arrivals: seq<Arrival>, user: User)
    requires Honest(arrivals)
    ensures var c, all := Live(Fresh(err), [], arrivals, user), ParseAll(Stream(arrivals)).0;
            && 0 <= Settled(c) <= |c.issued| && c.received <= all && (!Over(c) ==> c.received == all)
            && c.calls == Owed(c.issued, c.received, Settled(c))
  {
    assert Arguments([]) == [];
    assert Alive(Fresh(err));
    assert [] + Stream(arrivals) == Stream(arrivals);
    LiveFollows(Fresh(err), [], [], arrivals, user);
  }
}
