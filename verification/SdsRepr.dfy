/** Quoting and splitting of argument lines in sds.c, in the C locale. */
module SdsRepr {
  import opened Bytes

  const BACKSLASH: byte := 92
  const QUOTE: byte := 34
  const SINGLE: byte := 39
  const SPACE: byte := 32
  const LETTER_X: byte := 120

  predicate IsPrint(b: byte) {
    32 <= b < 127
  }

  predicate IsSpace(b: byte) {
    b == 32 || 9 <= b <= 13
  }

  predicate IsHexDigit(b: byte) {
    48 <= b <= 57 || 97 <= b <= 102 || 65 <= b <= 70
  }

  function HexDigitToInt(b: byte): (n: nat)
    ensures n < 16
  {
    if 48 <= b <= 57 then b - 48 else if 97 <= b <= 102 then b - 87 else if 65 <= b <= 70 then b - 55 else 0
  }

  /** printf's %02x. */
  function HexDigit(n: nat): (b: byte)
    requires n < 16
    ensures IsHexDigit(b) && HexDigitToInt(b) == n
  {
    if n < 10 then 48 + n else 87 + n
  }

  // ---------- sdscatrepr ----------

  /** The letter that stands for `b` after a backslash, for the bytes that have one. */
  function Letter(b: byte): Option<byte> {
    if b == 92 || b == 34 then Some(b)
    else if b == 10 then Some(110)       // \n
    else if b == 13 then Some(114)       // \r
    else if b == 9 then Some(116)        // \t
    else if b == 7 then Some(97)         // \a
    else if b == 8 then Some(98)         // \b
    else None
  }

  function Escape(b: byte): seq<byte> {
    match Letter(b)
    case Some(c) => [BACKSLASH, c]
    case None => if IsPrint(b) then [b] else [BACKSLASH, LETTER_X, HexDigit(b / 16), HexDigit(b % 16)]
  }

  function EscapeAll(s: seq<byte>): seq<byte> {
    if s == [] then [] else Escape(s[0]) + EscapeAll(s[1..])
  }

  function Repr(s: seq<byte>): seq<byte> {
    [QUOTE] + EscapeAll(s) + [QUOTE]
  }

  /** sdscatrepr: appends the quoted form of `t` to `s`. */
  method CatRepr(s: seq<byte>, t: seq<byte>) returns (r: seq<byte>)
    ensures r == s + Repr(t)
  {
    r := s + [QUOTE];
    for i := 0 to |t|
      invariant r + EscapeAll(t[i..]) == s + [QUOTE] + EscapeAll(t)
    {
      var b := t[i];
      assert t[i..][1..] == t[i + 1..];
      assert r + (Escape(b) + EscapeAll(t[i + 1..])) == (r + Escape(b)) + EscapeAll(t[i + 1..]);
      if b == 92 || b == 34 {
        r := r + [BACKSLASH, b];
      } else if b == 10 {
        r := r + [BACKSLASH, 110];
      } else if b == 13 {
        r := r + [BACKSLASH, 114];
      } else if b == 9 {
        r := r + [BACKSLASH, 116];
      } else if b == 7 {
        r := r + [BACKSLASH, 97];
      } else if b == 8 {
        r := r + [BACKSLASH, 98];
      } else if IsPrint(b) {
        r := r + [b];
      } else {
        r := r + [BACKSLASH, LETTER_X, HexDigit(b / 16), HexDigit(b % 16)];
      }
    }
    assert t[|t|..] == [] && r + [] == r;
    r := r + [QUOTE];
    assert s + [QUOTE] + EscapeAll(t) + [QUOTE] == s + Repr(t);
  }

  // ---------- sdssplitargs ----------

  /** The byte at the head of a C string: its end reads as zero. */
  function Head(s: seq<byte>): byte {
    if s == [] then 0 else s[0]
  }

  function Unescape(b: byte): byte {
    if b == 110 then 10 else if b == 114 then 13 else if b == 116 then 9 else if b == 98 then 8 else if b == 97 then 7
        else b
  }

  predicate HexEscape(s: seq<byte>) {
    |s| >= 4 && s[0] == BACKSLASH && s[1] == LETTER_X && IsHexDigit(s[2]) && IsHexDigit(s[3])
  }

  predicate EndsToken(s: seq<byte>) {
    Head(s) == 0 || IsSpace(Head(s))
  }

  /** A token and the input after it; None for unbalanced or badly closed quotes. */
  type Token = Option<(seq<byte>, seq<byte>)>

  /** Inside double quotes, with `cur` read so far. */
  function Quoted(s: seq<byte>, cur: seq<byte>): (r: Token)
    ensures r.Some? ==> |r.value.1| < |s|
    decreases |s|
  {
    if HexEscape(s) then Quoted(s[4..], cur + [HexDigitToInt(s[2]) * 16 + HexDigitToInt(s[3])])
    else if |s| >= 2 && s[0] == BACKSLASH && s[1] != 0 then Quoted(s[2..], cur + [Unescape(s[1])])
    else if Head(s) == QUOTE then if EndsToken(s[1..]) then Some((cur, s[1..])) else None
    else if Head(s) == 0 then None
    else Quoted(s[1..], cur + [s[0]])
  }

  /** Inside single quotes. */
  function SingleQuoted(s: seq<byte>, cur: seq<byte>): (r: Token)
    ensures r.Some? ==> |r.value.1| < |s|
    decreases |s|
  {
    if |s| >= 2 && s[0] == BACKSLASH && s[1] == SINGLE then SingleQuoted(s[2..], cur + [SINGLE])
    else if Head(s) == SINGLE then if EndsToken(s[1..]) then Some((cur, s[1..])) else None
    else if Head(s) == 0 then None
    else SingleQuoted(s[1..], cur + [s[0]])
  }

  predicate Delimiter(b: byte) {
    b == 32 || b == 10 || b == 13 || b == 9
  }

  /** Outside quotes. */
  function Bare(s: seq<byte>, cur: seq<byte>): (r: Token)
    ensures r.Some? ==> |r.value.1| <= |s| && (Head(s) != 0 ==> |r.value.1| < |s|)
    decreases |s|
  {
    if Head(s) == 0 then Some((cur, s))
    else if Delimiter(s[0]) then Some((cur, s[1..]))
    else if s[0] == QUOTE then Quoted(s[1..], cur)
    else if s[0] == SINGLE then SingleQuoted(s[1..], cur)
    else Bare(s[1..], cur + [s[0]])
  }

  function SkipBlanks(s: seq<byte>): (r: seq<byte>)
    ensures |r| <= |s|
  {
    if Head(s) != 0 && IsSpace(Head(s)) then SkipBlanks(s[1..]) else s
  }

  /** The arguments of a line. */
  function Args(s: seq<byte>): Option<seq<seq<byte>>>
    decreases |s|
  {
    var r := SkipBlanks(s);
    if Head(r) == 0 then Some([])
    else
      match Bare(r, [])
      case None => None
      case Some((token, rest)) =>
        match Args(rest)
        case None => None
        case Some(more) => Some([token] + more)
  }

  // ---------- splitting undoes quoting ----------

  lemma EscapeReads(b: byte, t: seq<byte>, cur: seq<byte>)
    ensures Quoted(Escape(b) + t, cur) == Quoted(t, cur + [b])
  {
    var s := Escape(b) + t;
    match Letter(b) {
      case Some(c) => assert s[2..] == t && s[1] == c && Unescape(c) == b;
      case None =>
        if IsPrint(b) {
          assert s[1..] == t;
        } else {
          assert s[4..] == t && s[2] == HexDigit(b / 16) && s[3] == HexDigit(b % 16);
        }
    }
  }

  lemma {:induction false} EscapeAllReads(x: seq<byte>, t: seq<byte>, cur: seq<byte>)
    requires EndsToken(t)
    ensures Quoted(EscapeAll(x) + ([QUOTE] + t), cur) == Some((cur + x, t))
    decreases |x|
  {
    var tail := [QUOTE] + t;
    if x == [] {
      assert EscapeAll(x) + tail == tail && tail[1..] == t && cur + x == cur;
    } else {
      assert EscapeAll(x) + tail == Escape(x[0]) + (EscapeAll(x[1..]) + tail);
      EscapeReads(x[0], EscapeAll(x[1..]) + tail, cur);
      EscapeAllReads(x[1..], t, cur + [x[0]]);
      assert cur + [x[0]] + x[1..] == cur + x;
    }
  }

  lemma ReprReads(x: seq<byte>, t: seq<byte>)
    requires EndsToken(t)
    ensures Bare(Repr(x) + t, []) == Some((x, t)) && SkipBlanks(Repr(x) + t) == Repr(x) + t
  {
    var s := Repr(x) + t;
    assert s[1..] == EscapeAll(x) + ([QUOTE] + t);
    EscapeAllReads(x, t, []);
    assert [] + x == x;
  }

  /** The quoted forms of `args`, joined by single spaces. */
  function Line(args: seq<seq<byte>>): seq<byte> {
    if args == [] then [] else Repr(args[0]) + (if |args| == 1 then [] else [SPACE] + Line(args[1..]))
  }

  /** For any list of byte strings, splitting their quoted forms gives back exactly that list. */
  lemma {:induction false} SplitUndoesRepr(args: seq<seq<byte>>)
    ensures Args(Line(args)) == Some(args)
  {
    if args != [] {
      var rest := args[1..];
      var t := if |args| == 1 then [] else [SPACE] + Line(rest);
      ReprReads(args[0], t);
      if rest == [] {
        assert Line(args) == Repr(args[0]) + t;
        assert Args([]) == Some([]);
        assert [args[0]] + [] == args;
      } else {
        SplitUndoesRepr(rest);
        BlankFirst(Line(rest));
        assert [args[0]] + rest == args;
      }
    }
  }

  /** A leading space changes nothing. */
  lemma BlankFirst(s: seq<byte>)
    ensures Args([SPACE] + s) == Args(s)
  {
    assert ([SPACE] + s)[1..] == s;
    assert SkipBlanks([SPACE] + s) == SkipBlanks(s);
  }

  // ---------- the scanner ----------

  /** The token that the scanner will find from one of its states. */
  function Scan(inq: bool, insq: bool, s: seq<byte>, cur: seq<byte>): Token {
    if inq then Quoted(s, cur) else if insq then SingleQuoted(s, cur) else Bare(s, cur)
  }

  /** sdssplitargs. */
  method SplitArgs(line: seq<byte>) returns (vector: Option<seq<seq<byte>>>)
    ensures vector == Args(line)
  {
    var p := 0;
    var argv: seq<seq<byte>> := [];
    assert line[0..] == line;
    FoundNothing(Args(line));
    while true
      invariant p <= |line| && Found(argv, Args(line[p..])) == Args(line)
      decreases |line| - p
    {
      ghost var before := line[p..];
      while p < |line| && line[p] != 0 && IsSpace(line[p])
        invariant p <= |line| && SkipBlanks(line[p..]) == SkipBlanks(before) && |line[p..]| <= |before|
      {
        assert line[p..][1..] == line[p + 1..];
        p := p + 1;
      }
      if p == |line| || line[p] == 0 {
        assert argv + [] == argv;
        return Some(argv);
      }
      var current;
      current, p := ScanToken(line, p);
      if current.None? {
        return None;
      }
      FoundMore(argv, current.value, line[p..]);
      argv := argv + [current.value];
    }
  }

  /** Arguments already found, followed by those still to come. */
  function Found(argv: seq<seq<byte>>, rest: Option<seq<seq<byte>>>): Option<seq<seq<byte>>> {
    if rest.None? then None else Some(argv + rest.value)
  }

  lemma FoundNothing(rest: Option<seq<seq<byte>>>)
    ensures Found([], rest) == rest
  {
    if rest.Some? {
      assert [] + rest.value == rest.value;
    }
  }

  lemma FoundMore(argv: seq<seq<byte>>, token: seq<byte>, rest: seq<byte>)
    ensures Found(argv, Found([token], Args(rest))) == Found(argv + [token], Args(rest))
  {
    if Args(rest).Some? {
      assert argv + ([token] + Args(rest).value) == argv + [token] + Args(rest).value;
    }
  }

  /** Reads one token from position `start`, in one of three states. */
  method ScanToken(line: seq<byte>, start: nat) returns (token: Option<seq<byte>>, p: nat)
    requires start < |line| && line[start] != 0
    ensures p <= |line|
    ensures token.None? ==> Bare(line[start..], []) == None
    ensures token.Some? ==> Bare(line[start..], []) == Some((token.value, line[p..])) && p > start
  {
    var inq, insq, done := false, false, false;
    var current: seq<byte> := [];
    p := start;
    while !done
      invariant start <= p <= |line|
      invariant !done ==> Scan(inq, insq, line[p..], current) == Bare(line[start..], [])
      invariant done ==> Bare(line[start..], []) == Some((current, line[p..]))
      decreases !done, |line| - p
    {
      ghost var s := line[p..];
      var c := if p < |line| then line[p] else 0;
      var d := if p + 1 < |line| then line[p + 1] else 0;
      assert p < |line| ==> s[1..] == line[p + 1..] && s[0] == c;
      assert p + 1 < |line| ==> s[2..] == line[p + 2..] && s[1] == d;
      assert p + 3 < |line| ==> s[4..] == line[p + 4..];
      if inq {
        if c == BACKSLASH && d == LETTER_X && p + 3 < |line| && IsHexDigit(line[p + 2]) && IsHexDigit(line[p + 3]) {
          current := current + [HexDigitToInt(line[p + 2]) * 16 + HexDigitToInt(line[p + 3])];
          p := p + 3;
        } else if c == BACKSLASH && d != 0 {
          p := p + 1;
          current := current + [Unescape(d)];
        } else if c == QUOTE {
          if d != 0 && !IsSpace(d) {
            return None, p;
          }
          done := true;
        } else if c == 0 {
          return None, p;
        } else {
          current := current + [c];
        }
      } else if insq {
        if c == BACKSLASH && d == SINGLE {
          p := p + 1;
          current := current + [SINGLE];
        } else if c == SINGLE {
          if d != 0 && !IsSpace(d) {
            return None, p;
          }
          done := true;
        } else if c == 0 {
          return None, p;
        } else {
          current := current + [c];
        }
      } else {
        if c == 0 || Delimiter(c) {
          done := true;
        } else if c == QUOTE {
          inq := true;
        } else if c == SINGLE {
          insq := true;
        } else {
          current := current + [c];
        }
      }
      if p < |line| && line[p] != 0 {
        p := p + 1;
      }
    }
    token := Some(current);
  }
}
