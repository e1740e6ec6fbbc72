/** The RESP2 grammar, stated apart from any parser: which bytes spell which reply. */
module Wire {
  import opened Bytes
  import opened Decimal
  import opened Resp

  /** No CR LF pair starts inside `line`. */
  ghost predicate OneLine(line: seq<byte>) {
    forall k: nat :: !NewlineAt(line, k)
  }

  /**
   * The bytes `w` spell the reply `r`, `depth` arrays deep: a type byte ('+', '-', ':', '$' or '*'), then a line, a
   * number or a length, and CR LF. The two bytes that end a bulk payload are any.
   */
  ghost predicate Spelt(r: Reply, w: seq<byte>, depth: nat)
    decreases r
  {
    match r
    case Status(line) => OneLine(line) && w == [43] + (line + [13, 10])
    case Error(line) => OneLine(line) && w == [45] + (line + [13, 10])
    case Integer(v) => InInt64(v) && w == [58] + (Text(v) + [13, 10])
    case Bulk(str) =>
      |str| <= INT64_MAX && |w| >= 2 && w[..|w| - 2] == [36] + (Text(|str|) + [13, 10] + str)
    case Nil => w == [36, 45, 49, 13, 10] || (depth <= 7 && w == [42, 45, 49, 13, 10])
    case Array(items) =>
      && depth <= 7 && |items| <= 0x7fff_ffff
      && exists ws: seq<seq<byte>> ::
           && |ws| == |items| && w == [42] + (Text(|items|) + [13, 10] + Concat(ws))
           && forall i :: 0 <= i < |items| ==> Spelt(items[i], ws[i], depth + 1)
  }

  ghost predicate AllSpelt(rs: seq<Reply>, ws: seq<seq<byte>>, depth: nat) {
    |rs| == |ws| && forall i :: 0 <= i < |rs| ==> Spelt(rs[i], ws[i], depth)
  }

  /** `s` is `w` and then `t`. */
  ghost predicate Front(s: seq<byte>, w: seq<byte>, t: seq<byte>) {
    s == w + t
  }

  // ---------- lines ----------

  lemma LineReads(line: seq<byte>, t: seq<byte>)
    requires OneLine(line)
    ensures Line(line + [13, 10] + t) == Done(line, t)
  {
    var s := line + [13, 10] + t;
    assert forall k: nat :: k < |line| - 1 ==> NewlineAt(s, k) == NewlineAt(line, k);
    assert s[|line|] == 13 && s[|line| + 1] == 10;
    FirstNewlineUnique(s, |line|);
    assert s[..|line|] == line && s[|line| + 2..] == t;
  }

  lemma LineSpelt(s: seq<byte>)
    requires Line(s).Done?
    ensures OneLine(Line(s).value) && s == Line(s).value + [13, 10] + Line(s).rest
  {
    var k := FirstNewline(s).value;
    assert forall j: nat :: NewlineAt(s[..k], j) ==> NewlineAt(s, j);
  }

  lemma TextIsLine(v: int)
    ensures OneLine(Text(v))
  {
    DigitsDenote(if v < 0 then -v else v);
  }

  lemma NumberReads(v: int, t: seq<byte>)
    requires InInt64(v)
    ensures Line(Text(v) + [13, 10] + t) == Done(Text(v), t) && Int64Of(Text(v)) == Some(v)
  {
    TextIsLine(v);
    LineReads(Text(v), t);
    Int64OfText(Text(v), v);
  }

  lemma NumberSpelt(s: seq<byte>)
    requires Line(s).Done? && Int64Of(Line(s).value).Some?
    ensures var v := Int64Of(Line(s).value).value;
            InInt64(v) && Line(s).value == Text(v) && s == Text(v) + [13, 10] + Line(s).rest
  {
    LineSpelt(s);
    Int64OfText(Line(s).value, Int64Of(Line(s).value).value);
  }

  // ---------- what is spelt is read ----------

  lemma TypeByte(b: byte, kind: Kind, body: seq<byte>, depth: nat)
    requires KindOf(b) == Some(kind)
    ensures ParseItem([b] + body, depth) == ParseTyped(kind, body, depth)
  {
    assert ([b] + body)[1..] == body;
  }

  /** Bytes `t` after an item that is a type byte, a line and more. */
  lemma Shift(b: byte, line: seq<byte>, more: seq<byte>, t: seq<byte>)
    ensures [b] + (line + [13, 10] + more) + t == [b] + (line + [13, 10] + (more + t))
  {
  }

  lemma LineItemReads(r: Reply, line: seq<byte>, t: seq<byte>, depth: nat)
    requires Line(line + [13, 10] + t) == Done(line, t)
    ensures ParseItem([43] + (line + [13, 10] + t), depth) == Done(Status(line), t)
    ensures ParseItem([45] + (line + [13, 10] + t), depth) == Done(Error(line), t)
    ensures Int64Of(line).Some? ==>
              ParseItem([58] + (line + [13, 10] + t), depth) == Done(Integer(Int64Of(line).value), t)
  {
    TypeByte(43, StatusKind, line + [13, 10] + t, depth);
    TypeByte(45, ErrorKind, line + [13, 10] + t, depth);
    TypeByte(58, IntegerKind, line + [13, 10] + t, depth);
  }

  lemma LineSpeltReads(r: Reply, w: seq<byte>, t: seq<byte>, depth: nat)
    requires Spelt(r, w, depth) && (r.Status? || r.Error? || r.Integer?)
    ensures ParseItem(w + t, depth) == Done(r, t)
  {
    var line := if r.Integer? then Text(r.v) else r.line;
    if r.Integer? {
      NumberReads(r.v, t);
    } else {
      LineReads(line, t);
    }
    Shift(w[0], line, [], t);
    assert line + [13, 10] + [] == line + [13, 10] && [] + t == t;
    LineItemReads(r, line, t, depth);
  }

  lemma BulkSpeltReads(str: seq<byte>, w: seq<byte>, t: seq<byte>, depth: nat)
    requires Spelt(Bulk(str), w, depth)
    ensures ParseItem(w + t, depth) == Done(Bulk(str), t)
  {
    var ending := w[|w| - 2..];
    var payload := str + ending;
    assert w == w[..|w| - 2] + ending;
    Shift(36, Text(|str|), str, ending);
    Shift(36, Text(|str|), payload, t);
    NumberReads(|str|, payload + t);
    TypeByte(36, StringKind, Text(|str|) + [13, 10] + (payload + t), depth);
    assert (payload + t)[..|str|] == str && (payload + t)[|str| + 2..] == t;
  }

  lemma NilReads(w: seq<byte>, t: seq<byte>, depth: nat)
    requires Spelt(Nil, w, depth)
    ensures ParseItem(w + t, depth) == Done(Nil, t)
  {
    assert Text(-1) == [45, 49];
    assert w + t == [w[0]] + (Text(-1) + [13, 10] + t);
    NumberReads(-1, t);
    TypeByte(w[0], if w[0] == 36 then StringKind else ArrayKind, Text(-1) + [13, 10] + t, depth);
  }

  /** Every spelling of a reply reads as that reply, and takes no more bytes than it has. */
  lemma {:induction false} SpeltReads(r: Reply, w: seq<byte>, t: seq<byte>, depth: nat)
    requires Spelt(r, w, depth)
    ensures ParseItem(w + t, depth) == Done(r, t)
    decreases r, 1, 0
  {
    match r {
      case Bulk(str) => BulkSpeltReads(str, w, t, depth);
      case Nil => NilReads(w, t, depth);
      case Array(items) =>
        var ws: seq<seq<byte>> :| |ws| == |items| && w == [42] + (Text(|items|) + [13, 10] + Concat(ws))
                                  && forall i :: 0 <= i < |items| ==> Spelt(items[i], ws[i], depth + 1);
        assert AllSpelt(items, ws, depth + 1);
        ItemsRead(r, items, ws, t, depth + 1);
        ArrayReads(items, ws, t, depth);
      case _ => LineSpeltReads(r, w, t, depth);
    }
  }

  lemma ArrayReads(items: seq<Reply>, ws: seq<seq<byte>>, t: seq<byte>, depth: nat)
    requires depth <= 7 && |items| <= INT_MAX && ParseItems(Concat(ws) + t, |items|, depth + 1) == Done(items, t)
    ensures ParseItem([42] + (Text(|items|) + [13, 10] + Concat(ws)) + t, depth) == Done(Array(items), t)
  {
    Shift(42, Text(|items|), Concat(ws), t);
    NumberReads(|items|, Concat(ws) + t);
    TypeByte(42, ArrayKind, Text(|items|) + [13, 10] + (Concat(ws) + t), depth);
    assert [] + items == items;
  }

  lemma {:induction false} ItemsRead(r: Reply, items: seq<Reply>, ws: seq<seq<byte>>, t: seq<byte>, depth: nat)
    requires AllSpelt(items, ws, depth) && forall j :: 0 <= j < |items| ==> items[j] < r
    ensures ParseItems(Concat(ws) + t, |items|, depth) == Done(items, t)
    decreases r, 0, |items|
  {
    if items == [] {
      assert [] + t == t;
    } else {
      SpeltReads(items[0], ws[0], Concat(ws[1..]) + t, depth);
      ItemsRead(r, items[1..], ws[1..], t, depth);
      OneMore(items[0], items[1..], ws[0], Concat(ws[1..]), t, depth);
      assert [items[0]] + items[1..] == items;
    }
  }

  lemma OneMore(item: Reply, items: seq<Reply>, w: seq<byte>, tail: seq<byte>, t: seq<byte>, depth: nat)
    requires ParseItem(w + (tail + t), depth) == Done(item, tail + t)
    requires ParseItems(tail + t, |items|, depth) == Done(items, t)
    ensures ParseItems(w + tail + t, |items| + 1, depth) == Done([item] + items, t)
  {
    Regroup(w, tail, t);
  }

  // ---------- what is read was spelt ----------

  lemma LineItemSpelt(s: seq<byte>, depth: nat)
    requires s != [] && s[0] in {43, 45, 58} && ParseItem(s, depth).Done?
    ensures var r, t := ParseItem(s, depth).value, ParseItem(s, depth).rest;
            exists w :: Front(s, w, t) && Spelt(r, w, depth)
  {
    var r, t := ParseItem(s, depth).value, ParseItem(s, depth).rest;
    LineSpelt(s[1..]);
    var line := Line(s[1..]).value;
    if r.Integer? {
      NumberSpelt(s[1..]);
    }
    assert s == [s[0]] + (line + [13, 10] + t);
    LineIsSpelt(s, r, line, t, depth);
  }

  lemma LineIsSpelt(s: seq<byte>, r: Reply, line: seq<byte>, t: seq<byte>, depth: nat)
    requires s != [] && s == [s[0]] + (line + [13, 10] + t) && OneLine(line)
    requires || (s[0] == 43 && r == Status(line)) || (s[0] == 45 && r == Error(line))
             || (s[0] == 58 && r.Integer? && InInt64(r.v) && line == Text(r.v))
    ensures exists w :: Front(s, w, t) && Spelt(r, w, depth)
  {
    var w := [s[0]] + (line + [13, 10]);
    assert Front(s, w, t) && Spelt(r, w, depth);
  }

  lemma BulkItemSpelt(s: seq<byte>, depth: nat)
    requires s != [] && s[0] == 36 && ParseItem(s, depth).Done?
    ensures var r, t := ParseItem(s, depth).value, ParseItem(s, depth).rest;
            exists w :: Front(s, w, t) && Spelt(r, w, depth)
  {
    var r, t := ParseItem(s, depth).value, ParseItem(s, depth).rest;
    NumberSpelt(s[1..]);
    var n, rest := Int64Of(Line(s[1..]).value).value, Line(s[1..]).rest;
    assert s == [36] + (Text(n) + [13, 10] + rest);
    if n == -1 {
      var w := [36, 45, 49, 13, 10];
      assert Text(-1) == [45, 49];
      assert Front(s, w, t) && Spelt(r, w, depth);
    } else {
      PayloadSpelt(s, n, rest, depth);
    }
  }

  lemma PayloadSpelt(s: seq<byte>, n: nat, rest: seq<byte>, depth: nat)
    requires n <= INT64_MAX && n + 2 <= |rest| && s == [36] + (Text(n) + [13, 10] + rest)
    ensures exists w :: Front(s, w, rest[n + 2..]) && Spelt(Bulk(rest[..n]), w, depth)
  {
    var w := [36] + (Text(n) + [13, 10] + rest[..n + 2]);
    assert rest == rest[..n + 2] + rest[n + 2..];
    Shift(36, Text(n), rest[..n + 2], rest[n + 2..]);
    assert rest[..n + 2][..n] == rest[..n];
    assert w[..|w| - 2] == [36] + (Text(n) + [13, 10] + rest[..n]);
    assert Front(s, w, rest[n + 2..]) && Spelt(Bulk(rest[..n]), w, depth);
  }

  lemma {:induction false} ArrayItemSpelt(s: seq<byte>, depth: nat)
    requires s != [] && s[0] == 42 && ParseItem(s, depth).Done?
    ensures var r, t := ParseItem(s, depth).value, ParseItem(s, depth).rest;
            exists w :: Front(s, w, t) && Spelt(r, w, depth)
    decreases |s|, 0
  {
    NumberSpelt(s[1..]);
    var n, rest := Int64Of(Line(s[1..]).value).value, Line(s[1..]).rest;
    assert s == [42] + (Text(n) + [13, 10] + rest);
    if n == -1 {
      NilArraySpelt(s, rest, depth);
    } else {
      var ws := ItemsSpelt(rest, n, depth + 1);
      var o := ParseItems(rest, n, depth + 1);
      assert [] + o.value == o.value;
      ArraySpelt(s, rest, o.value, ws, o.rest, depth);
    }
  }

  lemma NilArraySpelt(s: seq<byte>, rest: seq<byte>, depth: nat)
    requires depth <= 7 && s == [42] + (Text(-1) + [13, 10] + rest)
    ensures exists w :: Front(s, w, rest) && Spelt(Nil, w, depth)
  {
    assert Text(-1) == [45, 49];
    var w := [42, 45, 49, 13, 10];
    assert Front(s, w, rest) && Spelt(Nil, w, depth);
  }

  lemma ArraySpelt(s: seq<byte>, rest: seq<byte>, items: seq<Reply>, ws: seq<seq<byte>>, t: seq<byte>, depth: nat)
    requires depth <= 7 && |items| <= INT_MAX && s == [42] + (Text(|items|) + [13, 10] + rest)
    requires Front(rest, Concat(ws), t) && AllSpelt(items, ws, depth + 1)
    ensures exists w :: Front(s, w, t) && Spelt(Array(items), w, depth)
  {
    var w := [42] + (Text(|items|) + [13, 10] + Concat(ws));
    Shift(42, Text(|items|), Concat(ws), t);
    assert Front(s, w, t) && Spelt(Array(items), w, depth);
  }

  lemma {:induction false} ItemsSpelt(s: seq<byte>, n: nat, depth: nat) returns (ws: seq<seq<byte>>)
    requires ParseItems(s, n, depth).Done?
    ensures AllSpelt(ParseItems(s, n, depth).value, ws, depth)
    ensures Front(s, Concat(ws), ParseItems(s, n, depth).rest)
    decreases |s|, 2, n
  {
    ws := [];
    if n > 0 {
      ItemSpelt(s, depth);
      var r, rest := ParseItem(s, depth).value, ParseItem(s, depth).rest;
      var w :| Front(s, w, rest) && Spelt(r, w, depth);
      var more := ItemsSpelt(rest, n - 1, depth);
      ws := OneMoreSpelt(s, r, w, rest, ParseItems(rest, n - 1, depth), more, depth);
    }
  }

  lemma OneMoreSpelt(s: seq<byte>, r: Reply, w: seq<byte>, rest: seq<byte>, o: Outcome<seq<Reply>>,
                     more: seq<seq<byte>>, depth: nat)
    returns (ws: seq<seq<byte>>)
    requires Front(s, w, rest) && Spelt(r, w, depth) && o.Done?
    requires AllSpelt(o.value, more, depth) && Front(rest, Concat(more), o.rest)
    ensures AllSpelt([r] + o.value, ws, depth) && Front(s, Concat(ws), o.rest)
  {
    ws := [w] + more;
    assert ws[1..] == more;
    Regroup(w, Concat(more), o.rest);
  }

  /** Whatever is read as a reply was a spelling of it. */
  lemma {:induction false} ItemSpelt(s: seq<byte>, depth: nat)
    requires ParseItem(s, depth).Done?
    ensures var r, t := ParseItem(s, depth).value, ParseItem(s, depth).rest;
            exists w :: Front(s, w, t) && Spelt(r, w, depth)
    decreases |s|, 1
  {
    if s[0] == 42 {
      ArrayItemSpelt(s, depth);
    } else if s[0] == 36 {
      BulkItemSpelt(s, depth);
    } else {
      LineItemSpelt(s, depth);
    }
  }

  /** A reply is read off a stream, leaving `t`, if and only if the stream is a spelling of it and then `t`. */
  lemma ReadsExactly(s: seq<byte>, depth: nat, r: Reply, t: seq<byte>)
    ensures ParseItem(s, depth) == Done(r, t) <==> exists w :: Front(s, w, t) && Spelt(r, w, depth)
  {
    if ParseItem(s, depth) == Done(r, t) {
      ItemSpelt(s, depth);
    }
    if w :| Front(s, w, t) && Spelt(r, w, depth) {
      SpeltReads(r, w, t, depth);
    }
  }

  // ---------- whole streams ----------

  /** All the replies of a stream of spelt replies, and its end. */
  lemma StreamIs(rs: seq<Reply>, ws: seq<seq<byte>>)
    requires AllSpelt(rs, ws, 0)
    ensures ParseAll(Concat(ws)) == (rs, Open) && Residue(Concat(ws)) == []
  {
    StreamReads(rs, ws, []);
    assert Concat(ws) + [] == Concat(ws) && rs + [] == rs;
  }

  /** Spelt replies one after another read back in order, and nothing is left. */
  lemma {:induction false} StreamReads(rs: seq<Reply>, ws: seq<seq<byte>>, t: seq<byte>)
    requires AllSpelt(rs, ws, 0)
    ensures ParseAll(Concat(ws) + t) == (rs + ParseAll(t).0, ParseAll(t).1)
    ensures Residue(Concat(ws) + t) == Residue(t)
    decreases |rs|
  {
    if rs == [] {
      assert [] + t == t && [] + ParseAll(t).0 == ParseAll(t).0;
    } else {
      SpeltReads(rs[0], ws[0], Concat(ws[1..]) + t, 0);
      StreamReads(rs[1..], ws[1..], t);
      FirstReads(ws[0], Concat(ws[1..]), t, rs[0], rs[1..]);
      assert [rs[0]] + rs[1..] == rs;
    }
  }

  lemma FirstReads(w: seq<byte>, tail: seq<byte>, t: seq<byte>, v: Reply, vs: seq<Reply>)
    requires ParseItem(w + (tail + t), 0) == Done(v, tail + t)
    requires ParseAll(tail + t) == (vs + ParseAll(t).0, ParseAll(t).1) && Residue(tail + t) == Residue(t)
    ensures ParseAll(w + tail + t) == ([v] + vs + ParseAll(t).0, ParseAll(t).1)
    ensures Residue(w + tail + t) == Residue(t)
  {
    Regroup(w, tail, t);
    ParseAllFirst(w + (tail + t), v, tail + t);
    assert [v] + (vs + ParseAll(t).0) == [v] + vs + ParseAll(t).0;
  }

  lemma ParseAllFirst(s: seq<byte>, v: Reply, rest: seq<byte>)
    requires ParseItem(s, 0) == Done(v, rest)
    ensures ParseAll(s) == ([v] + ParseAll(rest).0, ParseAll(rest).1) && Residue(s) == Residue(rest)
  {
  }

  /** What refuses a stream, by its first bytes. */
  lemma Refused(line: seq<byte>, t: seq<byte>, depth: nat)
    requires OneLine(line)
    ensures Int64Of(line) == None ==> ParseItem([58] + (line + [13, 10] + t), depth) == Bad(BadInteger)
    ensures var o := ParseItem([36] + (line + [13, 10] + t), depth);
            match Int64Of(line)
            case None => o == Bad(BadBulkLength)
            case Some(n) => o == Bad(BulkLengthOutOfRange) <==> n <= -2
    ensures var o := ParseItem([42] + (line + [13, 10] + t), depth);
            if depth >= 8 then o == Bad(TooDeep)
            else
              match Int64Of(line)
              case None => o == Bad(BadMultiBulkLength)
              case Some(n) => n <= -2 || n >= 0x8000_0000 ==> o == Bad(MultiBulkLengthOutOfRange)
  {
    LineReads(line, t);
    var body := line + [13, 10] + t;
    assert ([58] + body)[1..] == body && ([36] + body)[1..] == body && ([42] + body)[1..] == body;
  }

  /** A first byte that is none of the five type bytes is refused as such. */
  lemma BadTypeExactly(s: seq<byte>, depth: nat)
    requires s != []
    ensures s[0] !in {43, 45, 58, 36, 42} <==> ParseItem(s, depth) == Bad(BadTypeByte(s[0]))
  {
    if s[0] in {43, 45, 58, 36, 42} {
      TypeByteAccepted(s, s[0], depth);
    }
  }

  lemma {:induction false} TypeByteAccepted(s: seq<byte>, b: byte, depth: nat)
    requires b in {43, 45, 58, 36, 42}
    ensures ParseItem(s, depth) != Bad(BadTypeByte(b))
    decreases |s|, 0
  {
    if s != [] && s[0] == 42 {
      match ParseCount(s[1..], depth) {
        case Done(Some(n), rest) => TypeBytesAccepted(rest, n, b, depth + 1);
        case _ =>
      }
    }
  }

  lemma {:induction false} TypeBytesAccepted(s: seq<byte>, n: nat, b: byte, depth: nat)
    requires b in {43, 45, 58, 36, 42}
    ensures ParseItems(s, n, depth) != Bad(BadTypeByte(b))
    decreases |s|, 1, n
  {
    if n > 0 {
      TypeByteAccepted(s, b, depth);
      match ParseItem(s, depth) {
        case Done(_, rest) => TypeBytesAccepted(rest, n - 1, b, depth);
        case _ =>
      }
    }
  }
}
