/** What a format string means, read off its pieces: characters, "%%", "%s" and "%b", and blanks between arguments. */
module FormatPieces {
  import opened Bytes
  import opened Format

  /** A character, or one of the directives "%%", "%s" and "%b". */
  datatype Piece = Char(b: byte) | Percent | Str | Bin

  predicate Plain(ps: seq<Piece>) {
    forall p :: p in ps && p.Char? ==> p.b != '%' as int
  }

  function Spelling(p: Piece): seq<byte> {
    match p
    case Char(b) => [b]
    case Percent => ['%' as int, '%' as int]
    case Str => ['%' as int, 's' as int]
    case Bin => ['%' as int, 'b' as int]
  }

  function Written(ps: seq<Piece>): seq<byte> {
    if ps == [] then [] else Spelling(ps[0]) + Written(ps[1..])
  }

  /** How many values the pieces take. */
  function Takes(ps: seq<Piece>): nat {
    if ps == [] then 0 else (if ps[0].Str? || ps[0].Bin? then 1 else 0) + Takes(ps[1..])
  }

  /** Blanks separate, "%%" is a percent sign, and each "%s" or "%b" is the next value, whole. */
  function Meant(ps: seq<Piece>, values: seq<seq<byte>>): seq<Item>
    requires Takes(ps) <= |values|
  {
    if ps == [] then []
    else
      match ps[0]
      case Char(b) => [if b == ' ' as int then Space else Bytes([b])] + Meant(ps[1..], values)
      case Percent => [Bytes(['%' as int])] + Meant(ps[1..], values)
      case _ => [Bytes(values[0])] + Meant(ps[1..], values[1..])
  }

  function Left(p: Piece, values: seq<seq<byte>>): seq<seq<byte>>
    requires p.Str? || p.Bin? ==> values != []
  {
    if p.Str? || p.Bin? then values[1..] else values
  }

  function ItemOf(p: Piece, values: seq<seq<byte>>): Item
    requires p.Str? || p.Bin? ==> values != []
  {
    match p
    case Char(b) => if b == ' ' as int then Space else Bytes([b])
    case Percent => Bytes(['%' as int])
    case _ => Bytes(values[0])
  }

  lemma FirstPiece(p: Piece, more: seq<byte>, values: seq<seq<byte>>)
    requires (p.Char? ==> p.b != '%' as int) && (p.Str? || p.Bin? ==> values != [])
    requires Directives(more) <= |Left(p, values)|
    ensures var f := Spelling(p) + more;
            && Directives(f) == Directives(more) + (if p.Str? || p.Bin? then 1 else 0)
            && Items(f, values) == Cons(ItemOf(p, values), Items(more, Left(p, values)))
  {
    var f := Spelling(p) + more;
    assert f[|Spelling(p)|..] == more;
    assert |Spelling(p)| == 2 ==> f[0] == Spelling(p)[0] && f[1] == Spelling(p)[1];
  }

  /** A format that spells these pieces means what they mean. */
  lemma {:induction false} WrittenMeans(ps: seq<Piece>, values: seq<seq<byte>>)
    requires Plain(ps) && Takes(ps) <= |values|
    ensures Directives(Written(ps)) == Takes(ps) && Items(Written(ps), values) == Some(Meant(ps, values))
    decreases |ps|
  {
    if ps != [] {
      assert ps[0] in ps;
      WrittenMeans(ps[1..], Left(ps[0], values));
      FirstPiece(ps[0], Written(ps[1..]), values);
    }
  }

  /** A percent sign at the very end is itself; before any other character it is a directive that is not modelled. */
  lemma {:induction false} PercentElsewhere(ps: seq<Piece>, values: seq<seq<byte>>, t: seq<byte>)
    requires Plain(ps) && Takes(ps) <= |values| && (t != [] ==> t[0] !in {'%' as int, 's' as int, 'b' as int})
    ensures var f := Written(ps) + (['%' as int] + t);
            && Directives(f) == Takes(ps)
            && Items(f, values) == if t == [] then Some(Meant(ps, values) + [Bytes(['%' as int])]) else None
    decreases |ps|
  {
    var ending := ['%' as int] + t;
    if ps != [] {
      assert ps[0] in ps;
      PercentElsewhere(ps[1..], Left(ps[0], values), t);
      Regroup(Spelling(ps[0]), Written(ps[1..]), ending);
      FirstPiece(ps[0], Written(ps[1..]) + ending, values);
      LongerMeaning(ps, values, [Bytes(['%' as int])]);
    } else {
      PercentAlone(t, values);
      assert [] + ending == ending && [] + [Bytes(['%' as int])] == [Bytes(['%' as int])];
    }
  }

  lemma LongerMeaning(ps: seq<Piece>, values: seq<seq<byte>>, more: seq<Item>)
    requires ps != [] && Takes(ps) <= |values|
    ensures Meant(ps, values) + more == [ItemOf(ps[0], values)] + (Meant(ps[1..], Left(ps[0], values)) + more)
  {
  }

  lemma PercentAlone(t: seq<byte>, values: seq<seq<byte>>)
    requires t != [] ==> t[0] !in {'%' as int, 's' as int, 'b' as int}
    ensures var f := ['%' as int] + t;
            && Directives(f) == 0
            && Items(f, values) == if t != [] then None else Some([Bytes(['%' as int])])
  {
    var f := ['%' as int] + t;
    assert f[1..] == t;
    assert Directives([]) == 0 && Items([], values) == Some([]);
    assert [Bytes([f[0]])] + [] == [Bytes([f[0]])];
    assert t != [] ==> f[1] == t[0];
  }

  // ---------- words ----------

  predicate NoBlank(run: seq<Item>) {
    forall item :: item in run ==> !item.Space?
  }

  lemma {:induction false} RunEndShift(pre: seq<Item>, s: seq<Item>, at: nat)
    requires at <= |s|
    ensures RunEnd(pre + s, |pre| + at) == |pre| + RunEnd(s, at)
    decreases |s| - at
  {
    if at < |s| && !s[at].Space? {
      RunEndShift(pre, s, at + 1);
    }
  }

  lemma {:induction false} WordsShift(pre: seq<Item>, s: seq<Item>, at: nat)
    requires at <= |s|
    ensures WordsFrom(pre + s, |pre| + at) == WordsFrom(s, at)
    decreases |s| - at
  {
    if at < |s| {
      RunEndShift(pre, s, at);
      var end := RunEnd(s, at);
      WordsShift(pre, s, if s[at].Space? then at + 1 else end);
      SliceShift(pre, s, at, end);
    }
  }

  lemma SliceShift(pre: seq<Item>, s: seq<Item>, i: nat, j: nat)
    requires i <= j <= |s|
    ensures (pre + s)[|pre| + i..|pre| + j] == s[i..j]
  {
  }

  lemma {:induction false} RunEndIs(run: seq<Item>, rest: seq<Item>, at: nat)
    requires NoBlank(run) && at <= |run| && (rest != [] ==> rest[0].Space?)
    ensures RunEnd(run + rest, at) == |run|
    decreases |run| - at
  {
    if at < |run| {
      assert run[at] in run;
      RunEndIs(run, rest, at + 1);
    }
  }

  /** Leading blanks do not matter. */
  lemma BlankFirst(rest: seq<Item>)
    ensures Words([Space] + rest) == Words(rest)
  {
    WordsShift([Space], rest, 0);
  }

  /** A run of items up to a blank or the end is one argument, the concatenation of what they contribute. */
  lemma RunFirst(run: seq<Item>, rest: seq<Item>)
    requires run != [] && NoBlank(run) && (rest != [] ==> rest[0].Space?)
    ensures Words(run + rest) == [Join(run)] + Words(rest)
  {
    assert run[0] in run;
    RunEndIs(run, rest, 0);
    assert (run + rest)[0..|run|] == run;
    WordsShift(run, rest, 0);
  }

  /** Concatenation it is. */
  lemma {:induction false} JoinIs(a: seq<Item>, b: seq<Item>, str: seq<byte>)
    ensures Join([]) == [] && Join([Bytes(str)]) == str && Join(a + b) == Join(a) + Join(b)
    decreases |a|
  {
    assert Join([Bytes(str)]) == str + Join([]);
    if a == [] {
      assert a + b == b;
    } else {
      JoinIs(a[1..], b, str);
      assert (a + b)[1..] == a[1..] + b;
    }
  }
}
