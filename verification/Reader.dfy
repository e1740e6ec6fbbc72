/** The resumable reply reader of read.c: a byte buffer, a cursor and a task stack of nine slots,
    building reply objects whose array slots are filled in place. */
module Reader {
  import opened Bytes
  import opened Decimal
  import opened Resp
  import opened ReaderStack

  const STACK_SIZE := 9

  /** redisReply: an array reply is created empty and its slots are filled as its elements arrive. */
  class RedisReply {
    const kind: Kind
    const str: seq<byte>
    const integer: int
    const elements: nat
    var element: seq<RedisReply?>

    constructor (kind: Kind, str: seq<byte>, integer: int, elements: nat)
      ensures this.kind == kind && this.str == str && this.integer == integer && this.elements == elements
      ensures element == seq(elements, _ => null)
    {
      this.kind, this.str, this.integer, this.elements := kind, str, integer, elements;
      element := seq(elements, _ => null);
    }

    /** This object graph, all of whose nodes are in `fp`, spells the reply `v`. */
    ghost predicate Denotes(v: Reply, fp: set<RedisReply>)
      reads fp
      decreases v
    {
      this in fp &&
      match v
      case Bulk(s) => kind == StringKind && str == s
      case Status(s) => kind == StatusKind && str == s
      case Error(s) => kind == ErrorKind && str == s
      case Integer(n) => kind == IntegerKind && integer == n
      case Nil => kind == NilKind
      case Array(vs) =>
        kind == ArrayKind && elements == |vs| == |element| &&
        forall i :: 0 <= i < |vs| ==> element[i] != null && element[i] in fp && element[i].Denotes(vs[i], fp)
    }
  }

  lemma {:induction false} DenotesMono(r: RedisReply, v: Reply, fp: set<RedisReply>, fp': set<RedisReply>)
    requires r.Denotes(v, fp) && fp <= fp'
    ensures r.Denotes(v, fp')
    decreases v
  {
    if v.Array? {
      forall i | 0 <= i < |v.items| ensures r.element[i].Denotes(v.items[i], fp') {
        DenotesMono(r.element[i], v.items[i], fp, fp');
      }
    }
  }

  /** The first slots of `a` hold finished objects for `items`. */
  ghost predicate Holds(a: RedisReply, items: seq<Reply>, done: set<RedisReply>)
    reads a, done
  {
    |items| <= |a.element| &&
    forall j :: 0 <= j < |items| ==>
      a.element[j] != null && a.element[j] in done && a.element[j].Denotes(items[j], done)
  }

  lemma HoldsMono(a: RedisReply, items: seq<Reply>, fp: set<RedisReply>, fp': set<RedisReply>)
    requires Holds(a, items, fp) && fp <= fp'
    ensures Holds(a, items, fp')
  {
    forall j | 0 <= j < |items| ensures a.element[j].Denotes(items[j], fp') {
      DenotesMono(a.element[j], items[j], fp, fp');
    }
  }

  /** redisReadTask; `parent` is the stack slot of the enclosing array. */
  datatype ReadTask = ReadTask(kind: Option<Kind>, elements: int, idx: int, obj: RedisReply?, parent: Option<nat>)

  datatype Status = OK | ERR

  class RedisReader {
    var err: Option<ReaderError>
    var buf: seq<byte>
    var pos: nat
    var len: nat
    const rstack: array<ReadTask>
    var ridx: int
    var reply: RedisReply?

    ghost var origin: seq<byte>          // the bytes received since the last emitted reply
    ghost var frames: seq<Frame>         // the arrays being filled, outermost first
    ghost var open: seq<RedisReply>      // their objects
    ghost var done: set<RedisReply>      // the finished objects of the reply in progress
    ghost var nodes: set<RedisReply>     // all objects of the reply in progress

    /** Level `i` of the stack is an array object with `frames[i].items` in its first slots,
        the object of the next level (or `top`) in the next one and nothing in the others. */
    ghost predicate Level(i: nat, top: RedisReply?)
      requires i < |frames| == |open| < rstack.Length
      reads `frames, `open, `done, `nodes, rstack, nodes, done
    {
      var f, a := frames[i], open[i];
      && |f.items| < f.n <= INT_MAX
      && rstack[i].kind == Some(ArrayKind) && rstack[i].elements == f.n && rstack[i].obj == a
      && rstack[i + 1].idx == |f.items| && rstack[i + 1].parent == Some(i)
      && a in nodes && a !in done
      && a.kind == ArrayKind && a.elements == |a.element| == f.n
      && Holds(a, f.items, done)
      && a.element[|f.items|] == Slot(i + 1, top)
      && (forall j :: |f.items| < j < f.n ==> a.element[j] == null)
    }

    /** What the pending slot of level `i` holds when `top` is in the innermost pending slot. */
    ghost function Slot(i: nat, top: RedisReply?): RedisReply?
      requires i <= |open|
      reads `open
    {
      if i < |open| then open[i] else top
    }

    /** The stack of read tasks mirrors `frames`. */
    ghost predicate Stack(top: RedisReply?)
      reads `ridx, `reply, `frames, `open, `done, `nodes, rstack, nodes, done
    {
      && rstack.Length == STACK_SIZE && 0 <= ridx < STACK_SIZE && |frames| == |open| == ridx
      && done <= nodes
      && (forall i :: 0 <= i < |frames| ==> Level(i, top))
      && (forall i, j :: 0 <= i < j < |frames| ==> open[i] != open[j])
      && rstack[0].idx == -1 && rstack[0].parent == None
      && reply == Slot(0, top)
    }

    ghost predicate Buffer()
      reads `buf, `pos, `len
    {
      len == |buf| <= INT_MAX && pos <= len
    }

    ghost function Unread(): seq<byte>
      requires Buffer()
      reads `buf, `pos, `len
    {
      buf[pos..]
    }

    /** A reply is in progress: the stack and the unread bytes are what is left of reading `origin`. */
    ghost predicate Reading()
      reads this, rstack, nodes, done
    {
      && Buffer() && err.None? && Stack(null) && AllOpen(frames)
      && rstack[ridx].kind != Some(NilKind)
      && Tracks(origin, frames, rstack[ridx].kind, Unread())
    }

    /** Between calls, an array already announced is never the one that nests too deeply. */
    ghost predicate Paused()
      reads this, rstack, nodes, done
    {
      Reading() && (rstack[ridx].kind == Some(ArrayKind) ==> ridx < MAX_DEPTH)
    }

    /** The reply in `reply` is complete and is the one that the bytes of `origin` spell. */
    ghost predicate Complete()
      reads this, rstack, nodes, done
    {
      && Buffer() && err.None? && ridx == -1 && frames == [] && open == [] && done <= nodes
      && var o := ParseItem(origin, 0);
      && o.Done? && o.rest == Unread()
      && reply != null && reply.Denotes(o.value, done)
    }

    ghost predicate Valid()
      reads this, rstack, nodes, done
    {
      && Buffer() && rstack.Length == STACK_SIZE && -1 <= ridx < STACK_SIZE
      && (err.Some? ==> ridx == -1)
      && (ridx == -1 ==> nodes == {} && reply == null && frames == [] && open == [] && done == {})
      && (ridx == -1 && err.None? ==> origin == Unread())
      && (ridx >= 0 ==> Paused())
    }

    constructor ()
      ensures Valid() && err == None && origin == [] && buf == [] && nodes == {}
      ensures fresh(rstack)
    {
      err, buf, pos, len := None, [], 0, 0;
      rstack := new ReadTask[STACK_SIZE](_ => ReadTask(None, 0, 0, null, None));
      ridx, reply := -1, null;
      origin, frames, open, done, nodes := [], [], [], {}, {};
    }

    /** The reader is where the move `m` of its control leads. */
    ghost predicate At(m: Move)
      reads this, rstack, nodes, done
    {
      Buffer() && rstack.Length == STACK_SIZE &&
      match m
      case Next(frames', rest) =>
        err.None? && Stack(null) && frames == frames' && rstack[ridx].kind == None && Unread() == rest
      case Emit(v, rest) =>
        && err.None? && ridx == -1 && frames == [] && open == [] && done <= nodes && Unread() == rest
        && reply != null && reply.Denotes(v, done)
      case Fail(e) => err == Some(e) && Valid()
      case Stuck => err.None? && Stack(null)
    }

    /** __redisReaderSetError: the partial reply and the buffer are dropped, the stack is emptied. */
    method SetError(e: ReaderError)
      requires rstack.Length == STACK_SIZE
      modifies this
      ensures Valid() && err == Some(e) && origin == old(origin) && nodes == {} && buf == []
    {
      reply := null;
      buf, pos, len := [], 0, 0;
      ridx := -1;
      err := Some(e);
      frames, open, done, nodes := [], [], {}, {};
    }

    static method SeekNewline(s: seq<byte>) returns (r: Option<nat>)
      ensures r == FirstNewline(s)
    {
      var p, last := 0, |s| - 1;
      while p < last
        invariant 0 <= p && (p <= last || last == -1)
        invariant forall j: nat :: j < p ==> !NewlineAt(s, j)
      {
        while p < last && s[p] != CR
          invariant 0 <= p <= last
          invariant forall j: nat :: j < p ==> !NewlineAt(s, j)
        {
          p := p + 1;
        }
        if p == last {
          assert forall j: nat :: !NewlineAt(s, j);
          return None;
        } else if s[p + 1] == LF {
          FirstNewlineUnique(s, p);
          return Some(p);
        } else {
          p := p + 1;
        }
      }
      assert forall j: nat :: !NewlineAt(s, j);
      return None;
    }

    method ReadLine() returns (line: Option<seq<byte>>)
      requires Buffer()
      modifies this`pos
      ensures Buffer()
      ensures match Line(old(Unread()))
              case Done(l, rest) => line == Some(l) && Unread() == rest
              case _ => line == None && pos == old(pos)
    {
      var s := SeekNewline(buf[pos..]);
      if s.Some? {
        line := Some(buf[pos..][..s.value]);
        assert buf[pos..][s.value + 2..] == buf[pos + s.value + 2..];
        pos := pos + s.value + 2;
      } else {
        line := None;
      }
    }

    /** The four create*Object builders: a new reply object is put into the pending slot of the
        enclosing array, which is still empty, or becomes the root. */
    method CreateObject(kind: Kind, str: seq<byte>, integer: int, elements: nat) returns (r: RedisReply)
      requires Stack(null)
      modifies this`reply, nodes
      ensures fresh(r) && Stack(r)
      ensures r.kind == kind && r.str == str && r.integer == integer && r.elements == elements
      ensures r.element == seq(elements, _ => null)
    {
      r := new RedisReply(kind, str, integer, elements);
      var task := rstack[ridx];
      assert ridx > 0 ==> Level(ridx - 1, null);
      if task.parent.Some? {
        var parent := rstack[task.parent.value].obj;
        assert parent.kind == ArrayKind && parent.element[task.idx] == null;
        parent.element := parent.element[task.idx := r];
      }
      if ridx == 0 {
        reply := r;
      }
      forall i | 0 <= i < |frames| ensures Level(i, r) {
        assert old(Level(i, null));
      }
    }

    /** The finished object `r` joins `done`; nothing else changes. */
    ghost method Finish(r: RedisReply)
      requires Stack(r) && r !in open
      modifies this`done, this`nodes
      ensures Stack(r) && done == old(done) + {r} && nodes == old(nodes) + {r}
    {
      done, nodes := done + {r}, nodes + {r};
      forall i | 0 <= i < |frames| ensures Level(i, r) {
        assert old(Level(i, r));
        HoldsMono(open[i], frames[i].items, old(done), done);
      }
    }

    /** The innermost array has got its last element `o`, so it is finished too. */
    ghost method CloseArray(w: Reply, o: RedisReply) returns (w': Reply, o': RedisReply)
      requires Stack(o) && ridx > 0 && o in done && o.Denotes(w, done)
      requires |frames[ridx - 1].items| == frames[ridx - 1].n - 1
      modifies this`done
      ensures w' == Array(frames[ridx - 1].items + [w]) && o' == open[ridx - 1]
      ensures done == old(done) + {o'} <= nodes && o'.Denotes(w', done)
      ensures forall i :: 0 <= i < ridx - 1 ==> Level(i, o)
    {
      ghost var k := ridx - 1;
      assert Level(k, o);
      w', o' := Array(frames[k].items + [w]), open[k];
      done := done + {o'};
      forall i | 0 <= i < ridx ensures Holds(open[i], frames[i].items, done) {
        assert old(Level(i, o));
        HoldsMono(open[i], frames[i].items, old(done), done);
      }
      DenotesMono(o, w, old(done), done);
      forall i | 0 <= i < k ensures Level(i, o) {
        assert old(Level(i, o));
      }
    }

    /** moveToNextTask on a full array: the level below becomes current. */
    method LeaveTask(ghost w: Reply, ghost o: RedisReply) returns (ghost w': Reply, ghost o': RedisReply)
      requires Stack(o) && ridx > 0 && o in done && o.Denotes(w, done)
      requires |frames[ridx - 1].items| == frames[ridx - 1].n - 1
      modifies this`ridx, this`frames, this`open, this`done
      ensures Stack(o') && o' in done && o'.Denotes(w', done)
      ensures ridx == old(ridx) - 1 && frames == old(frames[..ridx - 1])
      ensures w' == Array(old(frames[ridx - 1].items) + [w])
    {
      w', o' := CloseArray(w, o);
      label Closed:
      ridx := ridx - 1;
      frames, open := frames[..ridx], open[..ridx];
      forall i | 0 <= i < ridx ensures Level(i, o') {
        assert old@Closed(Level(i, o));
      }
    }

    /** The innermost array gets an element and awaits the next one. */
    method NextTask(ghost w: Reply, ghost o: RedisReply)
      requires Buffer() && err.None? && Stack(o) && ridx > 0 && o in done && o.Denotes(w, done)
      requires |frames[ridx - 1].items| < frames[ridx - 1].n - 1
      modifies this`frames, rstack
      ensures At(Next(old(frames[..ridx - 1]) + [Frame(old(frames[ridx - 1].n), old(frames[ridx - 1].items) + [w])],
              Unread()))
    {
      ghost var k := ridx - 1;
      assert Level(k, o);
      var cur := rstack[ridx];
      rstack[ridx] := cur.(kind := None, elements := -1, idx := cur.idx + 1);
      frames := frames[..k] + [Frame(frames[k].n, frames[k].items + [w])];
      forall i | 0 <= i <= k ensures Level(i, null) {
        assert old(Level(i, o));
      }
    }

    /** moveToNextTask: arrays completed by the item just created are left behind. */
    method MoveToNextTask(ghost v: Reply, ghost r: RedisReply)
      requires Buffer() && err.None? && Stack(r) && r in done && r.Denotes(v, done)
      modifies this`ridx, this`frames, this`open, this`done, rstack
      ensures At(Fill(old(frames), v, Unread()))
      ensures done <= nodes
    {
      ghost var w, o := v, r;
      while ridx >= 0
        invariant Stack(o) && o in done && o.Denotes(w, done) && Buffer() && err.None?
        invariant Fill(frames, w, Unread()) == Fill(old(frames), v, Unread())
        decreases ridx
      {
        if ridx == 0 {
          ridx := ridx - 1;
          return;
        }
        assert Level(ridx - 1, o);
        var cur, prv := rstack[ridx], rstack[ridx - 1];
        assert prv.kind == Some(ArrayKind);
        if cur.idx == prv.elements - 1 {
          w, o := LeaveTask(w, o);
        } else {
          assert cur.idx < prv.elements;
          NextTask(w, o);
          return;
        }
      }
    }

    /** The common tail of the process*Item functions: create the object, make it the reply if it is
        the root, and move on. */
    method Deliver(kind: Kind, str: seq<byte>, integer: int, ghost v: Reply)
      requires Buffer() && err.None? && Stack(null)
      requires match v
               case Bulk(s) => kind == StringKind && str == s
               case Status(s) => kind == StatusKind && str == s
               case Error(s) => kind == ErrorKind && str == s
               case Integer(n) => kind == IntegerKind && integer == n
               case Nil => kind == NilKind
               case Array(vs) => kind == ArrayKind && vs == []
      modifies this`reply, this`ridx, this`frames, this`open, this`done, this`nodes, rstack, nodes
      ensures At(Fill(old(frames), v, Unread())) && fresh(nodes - old(nodes))
      ensures Fill(old(frames), v, Unread()).Next? || Fill(old(frames), v, Unread()).Emit?
    {
      NeverStuck(frames, v, Unread());
      var r := CreateObject(kind, str, integer, 0);
      Finish(r);
      MoveToNextTask(v, r);
    }

    /** The call that processed the current item took the step its control prescribes. */
    twostate predicate Took(status: Status, m: Move)
      reads this, rstack, nodes, done
    {
      && At(m) && (status == OK <==> m.Next? || m.Emit?)
      && origin == old(origin) && fresh(nodes - old(nodes)) && |buf| <= old(|buf|)
      && (m.Stuck? ==> unchanged(this) && unchanged(rstack))
    }

    /** A task of kind `kind` is current and nothing of its item has been created yet. */
    ghost predicate Current(kind: Kind)
      reads this, rstack, nodes, done
    {
      Buffer() && err.None? && Stack(null) && rstack[ridx].kind == Some(kind)
    }

    method ProcessLineItem() returns (status: Status)
      requires rstack.Length == STACK_SIZE && 0 <= ridx < STACK_SIZE && rstack[ridx].kind.Some?
               && Current(rstack[ridx].kind.value)
      requires rstack[ridx].kind.value in {ErrorKind, StatusKind, IntegerKind}
      modifies this, rstack, nodes
      ensures Took(status, StepTyped(old(frames), old(rstack[ridx].kind.value), old(Unread())))
    {
      var cur := rstack[ridx];
      var p := ReadLine();
      if p.Some? {
        if cur.kind == Some(IntegerKind) {
          var v := String2ll(p.value);
          if v.None? {
            SetError(BadInteger);
            return ERR;
          }
          Deliver(IntegerKind, [], v.value, Integer(v.value));
        } else {
          Deliver(cur.kind.value, p.value, 0,
                  if cur.kind == Some(StatusKind) then Resp.Status(p.value) else Error(p.value));
        }
        return OK;
      }
      return ERR;
    }

    /** Reads the length line of a bulk item and finds where the item ends, without consuming it. */
    method ScanBulk() returns (o: Outcome<Reply>, bytelen: nat)
      requires Buffer()
      ensures o == ParseBulk(Unread())
      ensures o.Done? ==> pos + bytelen <= len && o.rest == Unread()[bytelen..] && (o.value.Nil? || o.value.Bulk?)
    {
      var s := SeekNewline(buf[pos..]);
      if s.None? {
        return More, 0;
      }
      bytelen := s.value + 2;
      var text := buf[pos..][..s.value];
      ghost var rest := Unread()[bytelen..];
      assert Line(Unread()) == Done(text, rest);
      var size := String2ll(text);
      if size.None? {
        return Bad(BadBulkLength), 0;
      }
      if size.value < -1 {
        return Bad(BulkLengthOutOfRange), 0;
      }
      if size.value == -1 {
        return Done(Nil, buf[pos..][bytelen..]), bytelen;
      }
      // payload and terminator have to be there before anything is consumed
      var start := bytelen;
      var complete;
      bytelen, complete := BulkEndsBy(start, size.value);
      if !complete {
        return More, 0;
      }
      assert buf[pos..][start..] == rest && rest[size.value + 2..] == buf[pos..][bytelen..];
      return Done(Bulk(buf[pos..][start..][..size.value]), buf[pos..][bytelen..]), bytelen;
    }

    method ProcessBulkItem() returns (status: Status)
      requires Current(StringKind)
      modifies this, rstack, nodes
      ensures Took(status, Settle(old(frames), ParseBulk(old(Unread()))))
    {
      var o, bytelen := ScanBulk();
      match o {
        case More =>
          return ERR;
        case Bad(e) =>
          SetError(e);
          return ERR;
        case Done(v, _) =>
          Skip(bytelen);
          Deliver(if v.Nil? then NilKind else StringKind, if v.Nil? then [] else v.str, 0, v);
          return OK;
      }
    }

    /** The end of a bulk item: `size + 2` is a signed sum, which overflows for the two largest sizes and is then
        added to an unsigned length. With signed sums in two's complement the result is exact for every size. */
    static function BulkEnd(bytelen: nat, size: int): (end: nat)
      requires bytelen <= INT_MAX && 0 <= size <= INT64_MAX
      ensures end == bytelen + size + 2
    {
      Wrap64(bytelen + Wrap64(Signed64(size + 2)))
    }

    /** Whether the buffer holds the item up to its end. */
    method BulkEndsBy(start: nat, size: int) returns (bytelen: nat, complete: bool)
      requires Buffer() && start <= len && 0 <= size <= INT64_MAX
      ensures bytelen == start + size + 2 && complete == (pos + bytelen <= len)
    {
      bytelen := BulkEnd(start, size);
      complete := Wrap64(pos + bytelen) <= len;
    }

    /** Where the signed sum overflows. */
    lemma BulkEndOverflows(size: int)
      requires 0 <= size <= INT64_MAX
      ensures Signed64(size + 2) != size + 2 <==> size >= INT64_MAX - 1
    {
    }

    method Skip(n: nat)
      requires Buffer() && pos + n <= len
      modifies `pos
      ensures pos == old(pos) + n && Buffer() && Unread() == old(Unread())[n..]
    {
      pos := pos + n;
    }

    /** A non-empty array: its object is put in place and becomes the innermost open one. */
    method OpenArray(n: nat)
      requires Buffer() && err.None? && Stack(null) && 0 < n <= INT_MAX && ridx < MAX_DEPTH
      requires rstack[ridx].kind == Some(ArrayKind)
      modifies `reply, `ridx, `frames, `open, `nodes, rstack, nodes
      ensures At(Next(old(frames) + [Frame(n, [])], Unread())) && fresh(nodes - old(nodes))
    {
      var obj := CreateObject(ArrayKind, [], 0, n);
      PushTask(n, obj);
    }

    method PushTask(n: nat, obj: RedisReply)
      requires Buffer() && err.None? && Stack(obj) && 0 < n <= INT_MAX && ridx < MAX_DEPTH
      requires rstack[ridx].kind == Some(ArrayKind) && obj.kind == ArrayKind && obj.elements == n
      requires obj.element == seq(n, _ => null) && obj !in nodes
      modifies `ridx, `frames, `open, `nodes, rstack
      ensures At(Next(old(frames) + [Frame(n, [])], Unread())) && nodes == old(nodes) + {obj}
    {
      NotOpen(obj);
      nodes := nodes + {obj};
      rstack[ridx] := rstack[ridx].(elements := n, obj := obj);
      ridx := ridx + 1;
      rstack[ridx] := ReadTask(None, -1, 0, null, Some(ridx - 1));
      frames, open := frames + [Frame(n, [])], open + [obj];
      assert Stack(null) by {
        forall i | 0 <= i < |frames| - 1 ensures Level(i, null) {
          assert old(Level(i, obj));
        }
        assert Level(|frames| - 1, null);
      }
    }

    lemma NotOpen(obj: RedisReply)
      requires Buffer() && Stack(obj) && obj !in nodes && 0 <= ridx
      ensures forall i :: 0 <= i < |frames| ==> open[i] != obj
    {
      forall i | 0 <= i < |frames|
        ensures open[i] != obj
      {
        assert Level(i, obj);
      }
    }

    /** Reads the element count of an array, None for the nil array. */
    method ReadCount() returns (o: Outcome<Option<nat>>)
      requires Buffer() && 0 <= ridx <= MAX_DEPTH
      modifies `pos
      ensures Buffer() && o == ParseCount(old(Unread()), ridx)
      ensures if o.Done? then Unread() == o.rest && (o.value.Some? ==> o.value.value <= INT_MAX)
              else o.More? ==> pos == old(pos)
    {
      // no support for arrays nested deeper than seven levels
      if ridx == 8 {
        return Bad(TooDeep);
      }
      var p := ReadLine();
      if p.None? {
        return More;
      }
      var elements := String2ll(p.value);
      if elements.None? {
        return Bad(BadMultiBulkLength);
      }
      if elements.value < -1 || elements.value > INT_MAX {
        return Bad(MultiBulkLengthOutOfRange);
      }
      return Done(if elements.value == -1 then None else Some(elements.value), buf[pos..]);
    }

    method ProcessMultiBulkItem() returns (status: Status)
      requires Current(ArrayKind)
      modifies this, rstack, nodes
      ensures Took(status, StepTyped(old(frames), ArrayKind, old(Unread())))
    {
      var elements := ReadCount();
      match elements {
        case More =>
          return ERR;
        case Bad(e) =>
          SetError(e);
          return ERR;
        case Done(n, _) =>
          if n.None? || n.value == 0 {
            Deliver(if n.None? then NilKind else ArrayKind, [], 0, if n.None? then Nil else Array([]));
          } else {
            OpenArray(n.value);
          }
          return OK;
      }
    }

    /** Reads the type byte of the current item if it is still due. */
    method ReadType() returns (status: Status)
      requires Reading()
      modifies this, rstack
      ensures nodes <= old(nodes) && origin == old(origin) && |buf| <= old(|buf|)
      ensures status == OK ==> Reading() && rstack[ridx].kind.Some? && |Unread()| <= old(|Unread()|)
      ensures status == OK ==> frames == old(frames) && nodes == old(nodes)
      ensures status == ERR ==>
        if err.Some? then Valid() && ParseItem(origin, 0) == Bad(err.value)
        else Paused() && ParseItem(origin, 0) == More && nodes == old(nodes)
    {
      if rstack[ridx].kind.Some? {
        return OK;
      }
      if len - pos < 1 {
        TracksNothing(origin, frames, None);
        return ERR;
      }
      ghost var s := Unread();
      var b := buf[pos];
      TracksTypeByte(origin, frames, s);
      pos := pos + 1;
      assert Unread() == s[1..];
      var kind := KindOf(b);
      if kind.None? {
        SetError(BadTypeByte(b));
        return ERR;
      }
      rstack[ridx] := rstack[ridx].(kind := kind);
      forall i | 0 <= i < |frames| ensures Level(i, null) {
        assert old(Level(i, null));
      }
      return OK;
    }

    method ProcessItem() returns (status: Status)
      requires Reading()
      modifies this, rstack, nodes
      ensures origin == old(origin) && fresh(nodes - old(nodes)) && |buf| <= old(|buf|)
      ensures status == OK ==> (if ridx >= 0 then Paused() else Complete()) && |Unread()| < old(|Unread()|)
      ensures status == ERR ==>
        if err.Some? then Valid() && ParseItem(origin, 0) == Bad(err.value)
        else Paused() && ParseItem(origin, 0) == More
    {
      status := ReadType();
      if status == ERR {
        return;
      }
      label TypeRead:
      var kind := rstack[ridx].kind.value;
      ghost var m := StepTyped(frames, kind, Unread());
      TracksStep(origin, frames, kind, Unread());
      StepAdvances(frames, kind, Unread());
      if kind == StringKind {
        status := ProcessBulkItem();
      } else if kind == ArrayKind {
        status := ProcessMultiBulkItem();
      } else {
        status := ProcessLineItem();
      }
      assert Took@TypeRead(status, m);
    }

    /** redisReaderFeed: new bytes are appended, unless the reader has already failed. */
    method Feed(chunk: seq<byte>) returns (status: Status)
      requires Valid() && |buf| + |chunk| <= INT_MAX
      modifies this
      ensures Valid() && err == old(err) && nodes == old(nodes)
      ensures err.Some? ==> status == ERR && unchanged(this)
      ensures err.None? ==> status == OK && origin == old(origin) + chunk && |buf| == old(|buf|) + |chunk|
    {
      if err.Some? {
        return ERR;
      }
      if |chunk| >= 1 {
        if ridx >= 0 {
          TracksFeed(origin, frames, rstack[ridx].kind, Unread(), chunk);
        }
        ghost var unread := Unread();
        buf := buf + chunk;
        len := |buf|;
        origin := origin + chunk;
        assert Unread() == unread + chunk;
      } else {
        assert origin + chunk == origin;
      }
      return OK;
    }

    /** redisReaderGetReply: the next complete reply if its bytes have all arrived, null if they
        have not, and an error as soon as the bytes that have arrived cannot be a reply. */
    method GetReply() returns (status: Status, r: RedisReply?, ghost fp: set<RedisReply>)
      requires Valid()
      modifies this, rstack, nodes
      ensures Valid() && |buf| <= old(|buf|)
      ensures fresh(nodes - old(nodes)) && fp !! nodes && fresh(fp - old(nodes))
      ensures old(err).Some? ==> status == ERR && err == old(err) && r == null && origin == old(origin)
      ensures old(err).None? ==> Answers(ParseItem(old(origin), 0), status, r, fp, old(origin))
    {
      if err.Some? || len == 0 {
        NothingToRead();
        return if err.Some? then ERR else OK, null, {};
      }
      ProcessAll();
      if err.Some? {
        return ERR, null, {};
      }
      if ridx == -1 {
        r, fp := EmitReply();
        return OK, r, fp;
      }
      return OK, null, {};
    }

    /** The middle of redisReaderGetReply: processes items, and discards what they consumed if all went well. */
    method ProcessAll()
      requires Valid() && err.None?
      modifies this, rstack, nodes
      ensures origin == old(origin) && fresh(nodes - old(nodes)) && |buf| <= old(|buf|)
      ensures ParseItem(origin, 0).Done? ==> Complete()
      ensures ParseItem(origin, 0).More? ==> Paused()
      ensures ParseItem(origin, 0).Bad? ==> err == Some(ParseItem(origin, 0).error) && Valid()
    {
      StartTask();
      var _ := ProcessItems();
      if err.None? {
        Trim();
      }
    }

    /** Without unread bytes no outcome can be decided. */
    lemma NothingToRead()
      requires Valid()
      ensures err.None? && len == 0 ==> ParseItem(origin, 0) == More
    {
      if err.None? && len == 0 {
        assert Unread() == [];
        if ridx >= 0 {
          TracksNothing(origin, frames, rstack[ridx].kind);
        }
      }
    }

    /** What redisReaderGetReply tells its caller about the outcome `o` of reading `before`. */
    ghost predicate Answers(o: Outcome<Reply>, status: Status, r: RedisReply?, fp: set<RedisReply>, before: seq<byte>)
      reads this, fp
    {
      if o.Done? then status == OK && err == None && r != null && r.Denotes(o.value, fp) && origin == o.rest
      else if o.More? then status == OK && err == None && r == null && origin == before
      else status == ERR && err == Some(o.error) && r == null
    }

    /** Hands over the complete reply; the bytes after it start the next one. */
    method EmitReply() returns (r: RedisReply?, ghost fp: set<RedisReply>)
      requires Complete() && rstack.Length == STACK_SIZE
      modifies `reply, `origin, `done, `nodes
      ensures Valid() && nodes == {} && fp == old(done)
      ensures r != null && ParseItem(old(origin), 0) == Done(ParseItem(old(origin), 0).value, origin)
      ensures r.Denotes(ParseItem(old(origin), 0).value, fp)
    {
      r, fp := reply, done;
      reply := null;
      origin, done, nodes := Unread(), {}, {};
    }

    /** A reader between two replies opens the stack for the next one. */
    method StartTask()
      requires Valid() && err.None?
      modifies `ridx, rstack
      ensures Paused()
    {
      if ridx == -1 {
        rstack[0] := ReadTask(None, -1, -1, null, None);
        ridx := 0;
      }
    }

    /** Processes items until the reply is complete or one of them cannot be processed. */
    method ProcessItems() returns (status: Status)
      requires Paused()
      modifies this, rstack, nodes
      ensures origin == old(origin) && fresh(nodes - old(nodes)) && |buf| <= old(|buf|)
      ensures ParseItem(origin, 0).Done? ==> Complete()
      ensures ParseItem(origin, 0).More? ==> Paused()
      ensures ParseItem(origin, 0).Bad? ==> err == Some(ParseItem(origin, 0).error) && Valid()
    {
      while ridx >= 0
        invariant rstack.Length == STACK_SIZE && origin == old(origin) && fresh(nodes - old(nodes))
        invariant |buf| <= old(|buf|) && ridx >= -1
        invariant if ridx >= 0 then Paused() else Complete()
        decreases if Buffer() then |Unread()| else 0, ridx
      {
        status := ProcessItem();
        if status == ERR {
          return;
        }
      }
      status := OK;
    }

    /** Discards the consumed part of the buffer once it is at least 1k. */
    method Trim()
      requires Buffer()
      modifies `buf, `pos, `len
      ensures Buffer() && Unread() == old(Unread()) && |buf| <= old(|buf|)
    {
      if pos >= 1024 {
        buf := buf[pos..];
        pos := 0;
        len := |buf|;
      }
    }

    /** Takes replies off the reader until none is complete, as redisProcessCallbacks does. */
    method Drain() returns (status: Status, replies: seq<RedisReply>, ghost fp: set<RedisReply>)
      requires Valid()
      modifies this, rstack, nodes
      ensures Valid() && |buf| <= old(|buf|)
      ensures fresh(nodes - old(nodes)) && fp !! nodes && fresh(fp - old(nodes))
      ensures old(err.Some?) ==> replies == [] && err == old(err)
      ensures old(err.None?) ==> Spell(replies, ParseAll(old(origin)).0, fp)
      ensures old(err.None?) ==> match ParseAll(old(origin)).1
                                 case Open => err.None? && origin == Residue(old(origin))
                                 case Refused(e) => err == Some(e)
    {
      replies, fp := [], {};
      ghost var vs: seq<Reply> := [];
      YieldsNone(origin);
      status := OK;
      var more := true;
      while more
        invariant Valid() && |buf| <= old(|buf|)
        invariant fresh(nodes - old(nodes)) && fp !! nodes && fresh(fp - old(nodes))
        invariant old(err.Some?) ==> replies == [] && err == old(err)
        invariant old(err.None?) ==> Spell(replies, vs, fp)
        invariant old(err.None?) ==> if more then err.None? && Yields(old(origin), vs, origin)
                  else Drained(old(origin), vs)
        decreases more, |origin|
      {
        status, more, replies, fp, vs := DrainOne(replies, fp, vs, old(origin));
      }
    }

    /** Taking replies ended as the reference parser does on `before`, whose replies are `vs`. */
    ghost predicate Drained(before: seq<byte>, vs: seq<Reply>)
      reads `err, `origin
    {
      vs == ParseAll(before).0
      && match ParseAll(before).1
         case Open => err.None? && origin == Residue(before)
         case Refused(e) => err == Some(e)
    }

    method DrainOne(replies0: seq<RedisReply>, ghost fp0: set<RedisReply>, ghost vs0: seq<Reply>,
                    ghost before: seq<byte>)
      returns (status: Status, more: bool, replies: seq<RedisReply>, ghost fp: set<RedisReply>, ghost vs: seq<Reply>)
      requires Valid() && fp0 !! nodes
      requires err.None? ==> Spell(replies0, vs0, fp0) && Yields(before, vs0, origin)
      modifies this, rstack, nodes
      ensures Valid() && |buf| <= old(|buf|) && fresh(nodes - old(nodes)) && fp !! nodes && fresh(fp - old(nodes) - fp0)
      ensures fp0 <= fp
      ensures old(err.Some?) ==> !more && replies == replies0 && err == old(err)
      ensures old(err.None?) ==> Spell(replies, vs, fp)
      ensures old(err.None?) && more ==> err.None? && Yields(before, vs, origin) && |origin| < old(|origin|)
      ensures old(err.None?) && !more ==> Drained(before, vs)
    {
      ghost var o := ParseItem(origin, 0);
      if err.None? {
        YieldsMore(before, vs0, origin);
      }
      replies, fp, vs := replies0, fp0, vs0;
      var r: RedisReply?;
      ghost var fp1;
      status, r, fp1 := GetReply();
      more := status == OK && r != null;
      if more {
        SpellConcat(replies, vs, fp, [r], [o.value], fp1);
        replies, vs, fp := replies + [r], vs + [o.value], fp + fp1;
      }
    }
  }

  /** The stream `fed` so far gave the replies `rs`, and `r` holds what is left of it. */
  ghost predicate InStep(r: RedisReader, fed: seq<byte>, rs: seq<RedisReply>, fp: set<RedisReply>)
    reads r, fp
  {
    && Spell(rs, ParseAll(fed).0, fp)
    && match ParseAll(fed).1
       case Open => r.err.None? && r.origin == Residue(fed)
       case Refused(e) => r.err == Some(e)
  }

  /** The objects `rs` spell the replies `vs`, in order. */
  ghost predicate Spell(rs: seq<RedisReply>, vs: seq<Reply>, fp: set<RedisReply>)
    reads fp
  {
    |rs| == |vs| && forall i :: 0 <= i < |rs| ==> rs[i].Denotes(vs[i], fp)
  }

  lemma SpellConcat(rs: seq<RedisReply>, vs: seq<Reply>, fp: set<RedisReply>, rs1: seq<RedisReply>, vs1: seq<Reply>,
                    fp1: set<RedisReply>)
    requires Spell(rs, vs, fp) && Spell(rs1, vs1, fp1)
    ensures Spell(rs + rs1, vs + vs1, fp + fp1)
  {
    forall i | 0 <= i < |rs| ensures rs[i].Denotes(vs[i], fp + fp1) {
      DenotesMono(rs[i], vs[i], fp, fp + fp1);
    }
    forall i | 0 <= i < |rs1| ensures rs1[i].Denotes(vs1[i], fp + fp1) {
      DenotesMono(rs1[i], vs1[i], fp1, fp + fp1);
    }
  }

  /** A whole connection: bytes arrive in chunks, and all complete replies are taken after each.
      Whatever the chunks, the replies and the error are those of the reference parser on the
      whole stream. */
  method Session(chunks: seq<seq<byte>>)
    returns (replies: seq<RedisReply>, err: Option<ReaderError>, ghost fp: set<RedisReply>)
    requires |Concat(chunks)| <= INT_MAX
    ensures Spell(replies, ParseAll(Concat(chunks)).0, fp)
    ensures err == match ParseAll(Concat(chunks)).1 case Open => None case Refused(e) => Some(e)
  {
    var r := new RedisReader();
    assert chunks[..0] == [];
    replies, fp := ReceiveFrom(r, chunks, 0, [], {});
    err := r.err;
  }

  /** The chunks from number `i` on arrive. */
  method ReceiveFrom(r: RedisReader, chunks: seq<seq<byte>>, i: nat, replies0: seq<RedisReply>,
                     ghost fp0: set<RedisReply>)
    returns (replies: seq<RedisReply>, ghost fp: set<RedisReply>)
    requires i <= |chunks| && |Concat(chunks)| <= INT_MAX
    requires r.Valid() && fp0 !! r.nodes && InStep(r, Concat(chunks[..i]), replies0, fp0)
    requires |r.buf| <= |Concat(chunks[..i])|
    modifies r, r.rstack, r.nodes
    ensures InStep(r, Concat(chunks), replies, fp)
    decreases |chunks| - i
  {
    if i == |chunks| {
      assert chunks[..i] == chunks;
      return replies0, fp0;
    }
    ConcatSnoc(chunks, i);
    ConcatPrefix(chunks, i + 1);
    replies, fp := Receive(r, chunks[i], Concat(chunks[..i]), replies0, fp0);
    replies, fp := ReceiveFrom(r, chunks, i + 1, replies, fp);
  }

  /** One chunk arrives: it is fed to the reader and all complete replies are taken. */
  method Receive(r: RedisReader, chunk: seq<byte>, ghost fed: seq<byte>, replies: seq<RedisReply>,
                 ghost fp: set<RedisReply>)
    returns (replies': seq<RedisReply>, ghost fp': set<RedisReply>)
    requires r.Valid() && |r.buf| + |chunk| <= INT_MAX && fp !! r.nodes && InStep(r, fed, replies, fp)
    modifies r, r.rstack, r.nodes
    ensures r.Valid() && |r.buf| <= old(|r.buf|) + |chunk|
    ensures fresh(r.nodes - old(r.nodes)) && fp' !! r.nodes
    ensures InStep(r, fed + chunk, replies', fp')
  {
    ParseAllSplit(fed, chunk);
    var status := r.Feed(chunk);
    var more: seq<RedisReply>;
    ghost var fp1;
    status, more, fp1 := r.Drain();
    if ParseAll(fed).1.Open? {
      SpellConcat(replies, ParseAll(fed).0, fp, more, ParseAll(Residue(fed) + chunk).0, fp1);
    } else {
      SpellConcat(replies, ParseAll(fed).0, fp, [], [], fp1);
      assert replies + [] == replies && ParseAll(fed).0 + [] == ParseAll(fed).0;
    }
    replies', fp' := replies + more, fp + fp1;
  }
}
