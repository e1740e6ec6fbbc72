/** The pushdown control of the resumable reader, as values: the open arrays from the outermost
    in, and what one processItem call does to them. */
module ReaderStack {
  import opened Bytes
  import opened Resp

  /** An open array of `n` elements of which `items` have arrived. */
  datatype Frame = Frame(n: nat, items: seq<Reply>)

  ghost predicate AllOpen(frames: seq<Frame>) {
    forall i :: 0 <= i < |frames| ==> |frames[i].items| < frames[i].n
  }

  /** The effect of one item: another item is due, the root is complete, input ran out, or error. */
  datatype Move =
    | Next(frames: seq<Frame>, rest: seq<byte>)
    | Emit(reply: Reply, rest: seq<byte>)
    | Stuck
    | Fail(error: ReaderError)

  /** moveToNextTask: the finished item `v` closes every array it completes. */
  function Fill(frames: seq<Frame>, v: Reply, rest: seq<byte>): Move {
    if frames == [] then Emit(v, rest)
    else
      var k := |frames| - 1;
      var f := Frame(frames[k].n, frames[k].items + [v]);
      if |f.items| == f.n then Fill(frames[..k], Array(f.items), rest)
      else Next(frames[..k] + [f], rest)
  }

  function Settle(frames: seq<Frame>, o: Outcome<Reply>): Move {
    match o
    case More => Stuck
    case Bad(e) => Fail(e)
    case Done(v, rest) => Fill(frames, v, rest)
  }

  /** processItem once the type byte is known. */
  function StepTyped(frames: seq<Frame>, kind: Kind, s: seq<byte>): Move {
    if kind == ArrayKind then
      match ParseCount(s, |frames|)
      case More => Stuck
      case Bad(e) => Fail(e)
      case Done(None, rest) => Fill(frames, Nil, rest)
      case Done(Some(n), rest) =>
        if n == 0 then Fill(frames, Array([]), rest) else Next(frames + [Frame(n, [])], rest)
    else Settle(frames, ParseTyped(kind, s, |frames|))
  }

  /** What the whole reply will be, given the outcome of the innermost pending item. */
  function Close(frames: seq<Frame>, o: Outcome<Reply>): Outcome<Reply>
    requires AllOpen(frames)
  {
    if frames == [] then o else
    var k := |frames| - 1;
    match o
    case More => More
    case Bad(e) => Bad(e)
    case Done(v, rest) =>
      var f := frames[k];
      Close(frames[..k], AsArray(f.items + [v], ParseItems(rest, f.n - |f.items| - 1, |frames|)))
  }

  /** The reply that a paused reader stands for, read to the end by the reference parser. */
  ghost function Meaning(frames: seq<Frame>, kind: Option<Kind>, s: seq<byte>): Outcome<Reply>
    requires AllOpen(frames)
  {
    Close(frames, match kind
                  case None => ParseItem(s, |frames|)
                  case Some(k) => ParseTyped(k, s, |frames|))
  }

  lemma CloseUndecided(frames: seq<Frame>, o: Outcome<Reply>)
    requires AllOpen(frames) && !o.Done?
    ensures Close(frames, o) == o
  {
  }

  /** The control reached by `m` stands for the same reply as outcome `o`, whatever `t` follows. */
  ghost predicate Agrees(m: Move, t: seq<byte>, o: Outcome<Reply>) {
    match m
    case Next(frames, rest) => AllOpen(frames) && o == Meaning(frames, None, rest + t)
    case Emit(v, rest) => o == Done(v, rest + t)
    case Fail(e) => o == Bad(e)
    case Stuck => true
  }

  lemma {:induction false} FillMeaning(frames: seq<Frame>, v: Reply, rest: seq<byte>, t: seq<byte>)
    requires AllOpen(frames)
    ensures Agrees(Fill(frames, v, rest), t, Close(frames, Done(v, rest + t)))
    decreases |frames|
  {
    if frames != [] {
      var k := |frames| - 1;
      var f := Frame(frames[k].n, frames[k].items + [v]);
      var m := f.n - |f.items|;
      if m == 0 {
        assert f.items + [] == f.items;
        FillMeaning(frames[..k], Array(f.items), rest, t);
      } else {
        var frames' := frames[..k] + [f];
        assert frames'[..k] == frames[..k] && frames'[k] == f;
        match ParseItem(rest + t, |frames|) {
          case Done(w, rest') =>
            match ParseItems(rest', m - 1, |frames|) {
              case Done(ws, _) => assert f.items + ([w] + ws) == f.items + [w] + ws;
              case _ =>
            }
          case _ => CloseUndecided(frames[..k], AsArray(f.items, ParseItems(rest + t, m, |frames|)));
        }
      }
    }
  }

  /** One processItem step keeps the meaning of the reader, for every continuation of the input. */
  lemma StepMeaning(frames: seq<Frame>, kind: Kind, s: seq<byte>, t: seq<byte>)
    requires AllOpen(frames)
    ensures Agrees(StepTyped(frames, kind, s), t, Meaning(frames, Some(kind), s + t))
  {
    ParseTypedExtend(kind, s, t, |frames|);
    if kind == ArrayKind {
      LineExtend(s, t);
      match ParseCount(s, |frames|) {
        case More =>
        case Bad(e) => CloseUndecided(frames, Bad(e));
        case Done(None, rest) => FillMeaning(frames, Nil, rest, t);
        case Done(Some(n), rest) =>
          if n == 0 {
            var none: seq<Reply> := [];
            assert none + none == none && Array([]) == Array(none);
            assert ParseItems(rest + t, 0, |frames| + 1) == Done(none, rest + t);
            assert ParseTyped(kind, s + t, |frames|) == Done(Array(none), rest + t);
            FillMeaning(frames, Array(none), rest, t);
          } else {
            OpenMeaning(frames, n, rest + t);
          }
      }
    } else {
      match ParseTyped(kind, s, |frames|) {
        case More =>
        case Bad(e) => CloseUndecided(frames, Bad(e));
        case Done(v, rest) => FillMeaning(frames, v, rest, t);
      }
    }
  }

  /** Opening an array: its elements are parsed one level further in. */
  lemma OpenMeaning(frames: seq<Frame>, n: nat, s: seq<byte>)
    requires AllOpen(frames) && n > 0
    ensures AllOpen(frames + [Frame(n, [])])
    ensures Meaning(frames + [Frame(n, [])], None, s) == Close(frames, AsArray([], ParseItems(s, n, |frames| + 1)))
  {
    var frames' := frames + [Frame(n, [])];
    assert frames'[..|frames|] == frames;
    match ParseItem(s, |frames| + 1) {
      case Done(w, rest) =>
        match ParseItems(rest, n - 1, |frames| + 1) {
          case Done(ws, _) => assert [] + ([w] + ws) == ([] + [w]) + ws;
          case _ =>
        }
      case o =>
        CloseUndecided(frames', o);
        CloseUndecided(frames, AsArray([], ParseItems(s, n, |frames| + 1)));
    }
  }

  /** Reading the type byte keeps the meaning. */
  lemma TypeByteMeaning(frames: seq<Frame>, s: seq<byte>, t: seq<byte>)
    requires AllOpen(frames) && s != []
    ensures match KindOf(s[0])
            case None => Meaning(frames, None, s + t) == Bad(BadTypeByte(s[0]))
            case Some(kind) => Meaning(frames, None, s + t) == Meaning(frames, Some(kind), s[1..] + t)
  {
    assert (s + t)[0] == s[0] && (s + t)[1..] == s[1..] + t;
    if KindOf(s[0]).None? {
      CloseUndecided(frames, Bad(BadTypeByte(s[0])));
    }
  }

  /** A reader out of input stands for an incomplete reply. */
  lemma StuckMeaning(frames: seq<Frame>, kind: Option<Kind>, s: seq<byte>)
    requires AllOpen(frames)
    requires if kind.None? then s == [] else StepTyped(frames, kind.value, s) == Stuck
    ensures Meaning(frames, kind, s) == More
  {
    if kind.Some? && kind.value != ArrayKind {
      FillNeverStuck(frames, kind.value, s);
    } else if kind.Some? {
      match ParseCount(s, |frames|) {
        case Done(None, rest) => NeverStuck(frames, Nil, rest);
        case Done(Some(n), rest) => if n == 0 { NeverStuck(frames, Array([]), rest); }
        case _ =>
      }
    }
    CloseUndecided(frames, More);
  }

  lemma FillNeverStuck(frames: seq<Frame>, kind: Kind, s: seq<byte>)
    requires kind != ArrayKind && StepTyped(frames, kind, s) == Stuck
    ensures ParseTyped(kind, s, |frames|) == More
  {
    match ParseTyped(kind, s, |frames|) {
      case Done(v, rest) => NeverStuck(frames, v, rest);
      case _ =>
    }
  }

  lemma {:induction false} NeverStuck(frames: seq<Frame>, v: Reply, rest: seq<byte>)
    ensures Fill(frames, v, rest).Next? || Fill(frames, v, rest).Emit?
    ensures Fill(frames, v, rest).rest == rest
    ensures AllOpen(frames) && Fill(frames, v, rest).Next? ==> AllOpen(Fill(frames, v, rest).frames)
    decreases |frames|
  {
    if frames != [] {
      var k := |frames| - 1;
      var f := Frame(frames[k].n, frames[k].items + [v]);
      if |f.items| == f.n {
        NeverStuck(frames[..k], Array(f.items), rest);
      }
    }
  }

  /** The control (frames, kind, s) is what is left of reading a reply whose bytes so far are `origin`. */
  ghost predicate Tracks(origin: seq<byte>, frames: seq<Frame>, kind: Option<Kind>, s: seq<byte>)
    requires AllOpen(frames)
  {
    forall t: seq<byte> :: Meaning(frames, kind, Then(s, t)) == ParseItem(Then(origin, t), 0)
  }

  function Then(s: seq<byte>, t: seq<byte>): seq<byte> {
    s + t
  }

  /** What the move `m` says about the reply whose bytes so far are `origin`. */
  ghost predicate Decides(origin: seq<byte>, m: Move) {
    match m
    case Next(frames, rest) => AllOpen(frames) && Tracks(origin, frames, None, rest)
    case Emit(v, rest) => ParseItem(origin, 0) == Done(v, rest)
    case Fail(e) => ParseItem(origin, 0) == Bad(e)
    case Stuck => ParseItem(origin, 0) == More
  }

  /** One step keeps track of the reply being read, and decides it when it is decided. */
  lemma TracksStep(origin: seq<byte>, frames: seq<Frame>, kind: Kind, s: seq<byte>)
    requires AllOpen(frames) && Tracks(origin, frames, Some(kind), s)
    ensures Decides(origin, StepTyped(frames, kind, s))
  {
    var m := StepTyped(frames, kind, s);
    forall t: seq<byte> ensures Agrees(m, t, ParseItem(Then(origin, t), 0)) {
      assert Meaning(frames, Some(kind), Then(s, t)) == ParseItem(Then(origin, t), 0);
      StepMeaning(frames, kind, s, t);
    }
    assert Agrees(m, [], ParseItem(Then(origin, []), 0)) && Then(origin, []) == origin && Then(s, []) == s;
    match m {
      case Next(frames', rest) =>
        forall t: seq<byte> ensures Meaning(frames', None, Then(rest, t)) == ParseItem(Then(origin, t), 0) {
          assert Agrees(m, t, ParseItem(Then(origin, t), 0));
        }
      case Emit(v, rest) => assert rest + [] == rest;
      case Fail(e) =>
      case Stuck =>
        assert Meaning(frames, Some(kind), Then(s, [])) == ParseItem(Then(origin, []), 0);
        StuckMeaning(frames, Some(kind), s);
    }
  }

  lemma TracksTypeByte(origin: seq<byte>, frames: seq<Frame>, s: seq<byte>)
    requires AllOpen(frames) && Tracks(origin, frames, None, s) && s != []
    ensures match KindOf(s[0])
            case None => ParseItem(origin, 0) == Bad(BadTypeByte(s[0]))
            case Some(kind) => Tracks(origin, frames, Some(kind), s[1..])
  {
    forall t: seq<byte>
      ensures match KindOf(s[0])
              case None => ParseItem(Then(origin, t), 0) == Bad(BadTypeByte(s[0]))
              case Some(kind) => Meaning(frames, Some(kind), Then(s[1..], t)) == ParseItem(Then(origin, t), 0)
    {
      assert Meaning(frames, None, Then(s, t)) == ParseItem(Then(origin, t), 0);
      TypeByteMeaning(frames, s, t);
    }
    if KindOf(s[0]).None? {
      assert ParseItem(Then(origin, []), 0) == Bad(BadTypeByte(s[0])) && Then(origin, []) == origin;
    }
  }

  /** A paused reader without unread input stands for an incomplete reply. */
  lemma TracksNothing(origin: seq<byte>, frames: seq<Frame>, kind: Option<Kind>)
    requires AllOpen(frames) && Tracks(origin, frames, kind, [])
    requires kind == Some(ArrayKind) ==> |frames| < MAX_DEPTH
    ensures ParseItem(origin, 0) == More
  {
    StuckMeaning(frames, kind, []);
    var none: seq<byte> := [];
    assert Meaning(frames, kind, Then(none, none)) == ParseItem(Then(origin, none), 0) && Then(none, none) == none
           && Then(origin, none) == origin;
  }

  /** Bytes fed to the reader extend both what it has been sent and what it has yet to read. */
  lemma TracksFeed(origin: seq<byte>, frames: seq<Frame>, kind: Option<Kind>, s: seq<byte>, chunk: seq<byte>)
    requires AllOpen(frames) && Tracks(origin, frames, kind, s)
    ensures Tracks(origin + chunk, frames, kind, s + chunk)
  {
    forall t: seq<byte> ensures Meaning(frames, kind, Then(s + chunk, t)) == ParseItem(Then(origin + chunk, t), 0) {
      ThenMore(s, chunk, t);
      ThenMore(origin, chunk, t);
    }
  }

  lemma ThenMore(s: seq<byte>, chunk: seq<byte>, t: seq<byte>)
    ensures Then(s + chunk, t) == Then(s, chunk + t)
  {
    assert s + chunk + t == s + (chunk + t);
  }

  /** Every step that succeeds consumes input, so draining terminates. */
  lemma StepAdvances(frames: seq<Frame>, kind: Kind, s: seq<byte>)
    ensures var m := StepTyped(frames, kind, s); m.Next? || m.Emit? ==> |m.rest| < |s|
  {
    if kind == ArrayKind {
      match ParseCount(s, |frames|) {
        case Done(None, rest) => NeverStuck(frames, Nil, rest);
        case Done(Some(n), rest) => if n == 0 { NeverStuck(frames, Array([]), rest); }
        case _ =>
      }
    } else {
      match ParseTyped(kind, s, |frames|) {
        case Done(v, rest) => NeverStuck(frames, v, rest);
        case _ =>
      }
    }
  }
}
