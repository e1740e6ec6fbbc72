/** The reply grammar as a recursive-descent parser over a whole input: the reference that the
    resumable reader is measured against.  It follows read.c, so the two bytes after a bulk
    payload are skipped without being looked at, and an array at nesting level 8 is an error. */
module Resp {
  import opened Bytes
  import opened Decimal

  const MAX_DEPTH := 8

  datatype Kind = StringKind | ArrayKind | IntegerKind | NilKind | StatusKind | ErrorKind

  datatype Reply =
    | Bulk(str: seq<byte>)
    | Array(items: seq<Reply>)
    | Integer(v: int)
    | Nil
    | Status(line: seq<byte>)
    | Error(line: seq<byte>)

  datatype ReaderError =
    | BadTypeByte(b: byte)
    | BadInteger
    | BadBulkLength
    | BulkLengthOutOfRange
    | BadMultiBulkLength
    | MultiBulkLengthOutOfRange
    | TooDeep

  /** A complete item and the input after it, or a need for more input, or a protocol error. */
  datatype Outcome<+T> = Done(value: T, rest: seq<byte>) | More | Bad(error: ReaderError)

  predicate NewlineAt(s: seq<byte>, k: nat) {
    k + 1 < |s| && s[k] == CR && s[k + 1] == LF
  }

  /** The position of the first CR LF pair. */
  function FirstNewline(s: seq<byte>): (r: Option<nat>)
    ensures r.Some? ==> NewlineAt(s, r.value) && forall k: nat :: k < r.value ==> !NewlineAt(s, k)
    ensures r.None? ==> forall k: nat :: !NewlineAt(s, k)
  {
    if |s| < 2 then None
    else if NewlineAt(s, 0) then Some(0)
    else
      assert forall k: nat :: k > 0 ==> NewlineAt(s, k) == NewlineAt(s[1..], k - 1);
      match FirstNewline(s[1..])
      case None => None
      case Some(k) => Some(k + 1)
  }

  lemma FirstNewlineUnique(s: seq<byte>, k: nat)
    requires NewlineAt(s, k) && forall j: nat :: j < k ==> !NewlineAt(s, j)
    ensures FirstNewline(s) == Some(k)
  {
    var r := FirstNewline(s);
    assert r.Some? && !(r.value < k) && !(k < r.value);
  }

  lemma FirstNewlineExtend(s: seq<byte>, t: seq<byte>)
    requires FirstNewline(s).Some?
    ensures FirstNewline(s + t) == FirstNewline(s)
  {
    var k := FirstNewline(s).value;
    assert forall j: nat :: j < k ==> NewlineAt(s + t, j) == NewlineAt(s, j);
    FirstNewlineUnique(s + t, k);
  }

  function KindOf(b: byte): Option<Kind> {
    if b == 45 then Some(ErrorKind)            // '-'
    else if b == 43 then Some(StatusKind)      // '+'
    else if b == 58 then Some(IntegerKind)     // ':'
    else if b == 36 then Some(StringKind)      // '$'
    else if b == 42 then Some(ArrayKind)       // '*'
    else None
  }

  /** The first line without its CR LF, and everything after it. */
  function Line(s: seq<byte>): (r: Outcome<seq<byte>>)
    ensures r.Done? ==> |r.rest| < |s|
  {
    match FirstNewline(s)
    case None => More
    case Some(k) => Done(s[..k], s[k + 2..])
  }

  function ParseLine(kind: Kind, s: seq<byte>): (r: Outcome<Reply>)
    ensures r.Done? ==> |r.rest| < |s|
  {
    match Line(s)
    case More => More
    case Bad(e) => Bad(e)
    case Done(line, rest) =>
      if kind == IntegerKind then
        match Int64Of(line)
        case None => Bad(BadInteger)
        case Some(v) => Done(Integer(v), rest)
      else if kind == StatusKind then Done(Status(line), rest)
      else Done(Error(line), rest)
  }

  function ParseBulk(s: seq<byte>): (r: Outcome<Reply>)
    ensures r.Done? ==> |r.rest| < |s|
  {
    match Line(s)
    case More => More
    case Bad(e) => Bad(e)
    case Done(line, rest) =>
      match Int64Of(line)
      case None => Bad(BadBulkLength)
      case Some(n) =>
        if n < -1 then Bad(BulkLengthOutOfRange)
        else if n == -1 then Done(Nil, rest)
        else if n + 2 <= |rest| then Done(Bulk(rest[..n]), rest[n + 2..])
        else More
  }

  /** The header of an array: its element count, or None for the nil array. */
  function ParseCount(s: seq<byte>, depth: nat): (r: Outcome<Option<nat>>)
    ensures r.Done? ==> |r.rest| < |s|
  {
    if depth >= MAX_DEPTH then Bad(TooDeep) else
    match Line(s)
    case More => More
    case Bad(e) => Bad(e)
    case Done(line, rest) =>
      match Int64Of(line)
      case None => Bad(BadMultiBulkLength)
      case Some(n) =>
        if n < -1 || n > INT_MAX then Bad(MultiBulkLengthOutOfRange)
        else Done(if n == -1 then None else Some(n), rest)
  }

  /** The body of an item of a known kind, nested `depth` arrays deep. */
  function ParseTyped(kind: Kind, s: seq<byte>, depth: nat): (r: Outcome<Reply>)
    ensures r.Done? ==> |r.rest| < |s|
    decreases |s|, 0
  {
    if kind == StringKind then ParseBulk(s)
    else if kind == ArrayKind then
      match ParseCount(s, depth)
      case More => More
      case Bad(e) => Bad(e)
      case Done(None, rest) => Done(Nil, rest)
      case Done(Some(n), rest) => AsArray([], ParseItems(rest, n, depth + 1))
    else ParseLine(kind, s)
  }

  function ParseItem(s: seq<byte>, depth: nat): (r: Outcome<Reply>)
    ensures r.Done? ==> |r.rest| < |s|
    decreases |s|, 0
  {
    if s == [] then More else
    match KindOf(s[0])
    case None => Bad(BadTypeByte(s[0]))
    case Some(kind) => ParseTyped(kind, s[1..], depth)
  }

  function ParseItems(s: seq<byte>, n: nat, depth: nat): (r: Outcome<seq<Reply>>)
    ensures r.Done? ==> |r.rest| <= |s| && |r.value| == n
    decreases |s|, 1
  {
    if n == 0 then Done([], s) else
    match ParseItem(s, depth)
    case More => More
    case Bad(e) => Bad(e)
    case Done(v, rest) => Prepend([v], ParseItems(rest, n - 1, depth))
  }

  function Prepend(pre: seq<Reply>, o: Outcome<seq<Reply>>): Outcome<seq<Reply>> {
    match o
    case Done(vs, rest) => Done(pre + vs, rest)
    case More => More
    case Bad(e) => Bad(e)
  }

  function AsArray(pre: seq<Reply>, o: Outcome<seq<Reply>>): Outcome<Reply> {
    match o
    case Done(vs, rest) => Done(Array(pre + vs), rest)
    case More => More
    case Bad(e) => Bad(e)
  }

  /** How a stream ends: awaiting more bytes, or refused for good. */
  datatype Ending = Open | Refused(error: ReaderError)

  /** All the replies of a whole stream, in order, and how the stream ends. */
  function ParseAll(s: seq<byte>): (seq<Reply>, Ending)
    decreases |s|
  {
    match ParseItem(s, 0)
    case More => ([], Open)
    case Bad(e) => ([], Refused(e))
    case Done(v, rest) => var (vs, end) := ParseAll(rest); ([v] + vs, end)
  }

  /** `o2` is `o1` with `t` more bytes to come: decided outcomes stay what they are. */
  predicate Extends<T(==)>(o1: Outcome<T>, t: seq<byte>, o2: Outcome<T>) {
    match o1
    case More => true
    case Bad(e) => o2 == Bad(e)
    case Done(v, rest) => o2 == Done(v, rest + t)
  }

  lemma LineExtend(s: seq<byte>, t: seq<byte>)
    ensures Extends(Line(s), t, Line(s + t))
  {
    if FirstNewline(s).Some? {
      FirstNewlineExtend(s, t);
      var k := FirstNewline(s).value;
      assert (s + t)[..k] == s[..k] && (s + t)[k + 2..] == s[k + 2..] + t;
    }
  }

  lemma ParseBulkExtend(s: seq<byte>, t: seq<byte>)
    ensures Extends(ParseBulk(s), t, ParseBulk(s + t))
  {
    LineExtend(s, t);
    match Line(s) {
      case More =>
      case Done(line, rest) =>
        match Int64Of(line) {
          case None =>
          case Some(n) =>
            if 0 <= n && n + 2 <= |rest| {
              assert (rest + t)[..n] == rest[..n] && (rest + t)[n + 2..] == rest[n + 2..] + t;
            }
        }
    }
  }

  lemma {:induction false} ParseTypedExtend(kind: Kind, s: seq<byte>, t: seq<byte>, depth: nat)
    ensures Extends(ParseTyped(kind, s, depth), t, ParseTyped(kind, s + t, depth))
    decreases |s|, 0
  {
    LineExtend(s, t);
    if kind == StringKind {
      ParseBulkExtend(s, t);
    } else if kind == ArrayKind {
      match ParseCount(s, depth) {
        case Done(Some(n), rest) => ParseItemsExtend(rest, t, n, depth + 1);
        case _ =>
      }
    }
  }

  /** More input never revises a decided item: a complete reply or an error is final. */
  lemma {:induction false} ParseItemExtend(s: seq<byte>, t: seq<byte>, depth: nat)
    ensures Extends(ParseItem(s, depth), t, ParseItem(s + t, depth))
    decreases |s|, 0
  {
    if s != [] {
      assert (s + t)[1..] == s[1..] + t;
      match KindOf(s[0]) {
        case None =>
        case Some(kind) => ParseTypedExtend(kind, s[1..], t, depth);
      }
    }
  }

  lemma {:induction false} ParseItemsExtend(s: seq<byte>, t: seq<byte>, n: nat, depth: nat)
    ensures Extends(ParseItems(s, n, depth), t, ParseItems(s + t, n, depth))
    decreases |s|, 1
  {
    if n != 0 {
      ParseItemExtend(s, t, depth);
      match ParseItem(s, depth) {
        case Done(v, rest) => ParseItemsExtend(rest, t, n - 1, depth);
        case _ =>
      }
    }
  }

  /** What remains to be parsed once the replies of `s` have been taken off. */
  function Residue(s: seq<byte>): seq<byte>
    decreases |s|
  {
    match ParseItem(s, 0)
    case Done(_, rest) => Residue(rest)
    case _ => s
  }

  /** A stream may be cut anywhere: parse the first part, then its residue with the second part. */
  lemma {:induction false} ParseAllSplit(s: seq<byte>, t: seq<byte>)
    ensures ParseAll(s + t) ==
            match ParseAll(s)
            case (vs, Refused(e)) => (vs, Refused(e))
            case (vs, Open) => (vs + ParseAll(Residue(s) + t).0, ParseAll(Residue(s) + t).1)
    ensures ParseAll(s).1.Open? ==> Residue(s + t) == Residue(Residue(s) + t)
    decreases |s|
  {
    ParseItemExtend(s, t, 0);
    match ParseItem(s, 0) {
      case More => assert [] + ParseAll(s + t).0 == ParseAll(s + t).0;
      case Bad(e) =>
      case Done(v, rest) =>
        ParseAllSplit(rest, t);
        var vs := ParseAll(rest).0;
        var w := ParseAll(Residue(rest) + t).0;
        assert ([v] + vs) + w == [v] + (vs + w);
    }
  }

  /** Taking the replies `vs` off the stream `s` leaves `rest`. */
  ghost predicate Yields(s: seq<byte>, vs: seq<Reply>, rest: seq<byte>) {
    ParseAll(s) == (vs + ParseAll(rest).0, ParseAll(rest).1) && Residue(s) == Residue(rest)
  }

  lemma YieldsNone(s: seq<byte>)
    ensures Yields(s, [], s)
  {
    assert [] + ParseAll(s).0 == ParseAll(s).0;
  }

  lemma YieldsMore(s: seq<byte>, vs: seq<Reply>, rest: seq<byte>)
    requires Yields(s, vs, rest)
    ensures ParseItem(rest, 0).Done? ==> Yields(s, vs + [ParseItem(rest, 0).value], ParseItem(rest, 0).rest)
    ensures ParseItem(rest, 0).More? ==> ParseAll(s) == (vs, Open) && Residue(s) == rest
    ensures ParseItem(rest, 0).Bad? ==> ParseAll(s) == (vs, Refused(ParseItem(rest, 0).error))
  {
    match ParseItem(rest, 0) {
      case Done(v, rest') => assert vs + ([v] + ParseAll(rest').0) == vs + [v] + ParseAll(rest').0;
      case _ => assert vs + [] == vs;
    }
  }
}
