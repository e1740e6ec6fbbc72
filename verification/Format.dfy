/** Command formatting of hiredis.c, the printer of the wire format that the reader parses. */
module Format {
  import opened Bytes
  import opened Decimal
  import opened Resp

  const STAR: byte := 42
  const DOLLAR: byte := 36
  const PERCENT: byte := 37
  const SPACE: byte := 32
  const LETTER_S: byte := 115
  const LETTER_B: byte := 98

  function EncodeBulk(arg: seq<byte>): seq<byte> {
    [DOLLAR] + Digits(|arg|) + CRLF + arg + CRLF
  }

  function EncodeArgs(args: seq<seq<byte>>): seq<byte> {
    if args == [] then [] else EncodeBulk(args[0]) + EncodeArgs(args[1..])
  }

  /** The wire form of one command: an array of bulk strings. */
  function Encode(args: seq<seq<byte>>): seq<byte> {
    [STAR] + Digits(|args|) + CRLF + EncodeArgs(args)
  }

  function EncodeAll(commands: seq<seq<seq<byte>>>): seq<byte> {
    if commands == [] then [] else Encode(commands[0]) + EncodeAll(commands[1..])
  }

  function Bulks(args: seq<seq<byte>>): (r: seq<Reply>) {
    seq(|args|, i requires 0 <= i < |args| => Bulk(args[i]))
  }

  function Arrays(commands: seq<seq<seq<byte>>>): seq<Reply> {
    seq(|commands|, i requires 0 <= i < |commands| => Array(Bulks(commands[i])))
  }

  // ---------- the reader undoes the formatter ----------

  lemma DigitsLine(n: nat, t: seq<byte>)
    ensures Line(Digits(n) + CRLF + t) == Done(Digits(n), t)
  {
    var d := Digits(n);
    var s := d + CRLF + t;
    DigitsDenote(n);
    FirstNewlineUnique(s, |d|);
    assert s[..|d|] == d && s[|d| + 2..] == t;
  }

  lemma BulkReads(arg: seq<byte>, t: seq<byte>, depth: nat)
    requires |arg| <= INT64_MAX
    ensures ParseItem(EncodeBulk(arg) + t, depth) == Done(Bulk(arg), t)
  {
    var s := EncodeBulk(arg) + t;
    var body := arg + CRLF + t;
    assert s[1..] == Digits(|arg|) + CRLF + body;
    assert s[0] == DOLLAR;
    BulkBodyReads(arg, t);
  }

  lemma BulkBodyReads(arg: seq<byte>, t: seq<byte>)
    requires |arg| <= INT64_MAX
    ensures ParseBulk(Digits(|arg|) + CRLF + (arg + CRLF + t)) == Done(Bulk(arg), t)
  {
    var body := arg + CRLF + t;
    DigitsLine(|arg|, body);
    Int64OfText(Digits(|arg|), |arg|);
    assert body[..|arg|] == arg && body[|arg| + 2..] == t;
  }

  lemma {:induction false} ArgsRead(args: seq<seq<byte>>, t: seq<byte>, depth: nat)
    requires forall i :: 0 <= i < |args| ==> |args[i]| <= INT64_MAX
    ensures ParseItems(EncodeArgs(args) + t, |args|, depth) == Done(Bulks(args), t)
  {
    if args == [] {
      assert EncodeArgs(args) + t == t;
    } else {
      var x, xs := args[0], args[1..];
      var t' := EncodeArgs(xs) + t;
      Regroup(EncodeBulk(x), EncodeArgs(xs), t);
      BulkReads(x, t', depth);
      ArgsRead(xs, t, depth);
      assert [Bulk(x)] + Bulks(xs) == Bulks(args);
    }
  }

  ghost predicate Sendable(args: seq<seq<byte>>) {
    |args| <= INT_MAX && forall i :: 0 <= i < |args| ==> |args[i]| <= INT64_MAX
  }

  lemma CommandReads(args: seq<seq<byte>>, t: seq<byte>)
    requires Sendable(args)
    ensures ParseItem(Encode(args) + t, 0) == Done(Array(Bulks(args)), t)
  {
    var s := Encode(args) + t;
    var body := EncodeArgs(args) + t;
    assert s[0] == STAR && s[1..] == Digits(|args|) + CRLF + body;
    CountReads(|args|, body);
    ArgsRead(args, t, 1);
    assert [] + Bulks(args) == Bulks(args);
  }

  lemma CountReads(n: nat, t: seq<byte>)
    requires n <= INT_MAX
    ensures ParseCount(Digits(n) + CRLF + t, 0) == Done(Some(n), t)
  {
    DigitsLine(n, t);
    Int64OfText(Digits(n), n);
  }

  /** Any list of formatted commands reads back as one array reply per command, in order, with the
      arguments byte for byte and no byte left over. */
  lemma {:induction false} CommandsRead(commands: seq<seq<seq<byte>>>)
    requires forall c :: c in commands ==> Sendable(c)
    ensures ParseAll(EncodeAll(commands)) == (Arrays(commands), Open)
    ensures Residue(EncodeAll(commands)) == []
  {
    if commands != [] {
      var t := EncodeAll(commands[1..]);
      CommandReads(commands[0], t);
      CommandsRead(commands[1..]);
      assert Arrays(commands) == [Array(Bulks(commands[0]))] + Arrays(commands[1..]);
    }
  }

  // ---------- redisFormatCommandArgv ----------

  function BulkLen(len: nat, digits: nat): nat {
    1 + digits + 2 + len + 2
  }

  lemma EncodedLength(args: seq<seq<byte>>, k: nat)
    requires k < |args|
    ensures |EncodeArgs(args[..k + 1])| == |EncodeArgs(args[..k])| + BulkLen(|args[k]|, |Digits(|args[k]|)|)
    ensures EncodeArgs(args[..k + 1]) == EncodeArgs(args[..k]) + EncodeBulk(args[k])
  {
    EncodeArgsSnoc(args[..k], args[k]);
    assert args[..k + 1] == args[..k] + [args[k]];
  }

  lemma {:induction false} EncodeArgsSnoc(args: seq<seq<byte>>, a: seq<byte>)
    ensures EncodeArgs(args + [a]) == EncodeArgs(args) + EncodeBulk(a)
  {
    if args == [] {
      assert [a][1..] == [];
      assert EncodeArgs([a]) == EncodeBulk(a);
    } else {
      assert (args + [a])[1..] == args[1..] + [a];
      EncodeArgsSnoc(args[1..], a);
    }
  }

  lemma {:induction false} EncodeArgsPrefix(args: seq<seq<byte>>, k: nat)
    requires k <= |args|
    ensures |EncodeArgs(args[..k])| <= |EncodeArgs(args)|
    decreases |args| - k
  {
    if k < |args| {
      EncodedLength(args, k);
      EncodeArgsPrefix(args, k + 1);
    } else {
      assert args[..k] == args;
    }
  }

  /** sprintf and memcpy into the command buffer. */
  method Put(cmd: array<byte>, pos: nat, s: seq<byte>) returns (end: nat)
    requires pos + |s| <= cmd.Length
    modifies cmd
    ensures end == pos + |s| && cmd[..end] == old(cmd[..pos]) + s
  {
    forall i | 0 <= i < |s| {
      cmd[pos + i] := s[i];
    }
    end := pos + |s|;
  }

  /** The bytes needed for a command: the buffer size computed before anything is written. */
  method TotalLength(args: seq<seq<byte>>) returns (totlen: nat)
    ensures totlen == |Encode(args)|
  {
    var digits := CountDigits(|args|);
    totlen := 1 + digits + 2;
    for j := 0 to |args|
      invariant totlen == 1 + |Digits(|args|)| + 2 + |EncodeArgs(args[..j])|
    {
      digits := CountDigits(|args[j]|);
      totlen := totlen + BulkLen(|args[j]|, digits);
      EncodedLength(args, j);
    }
    assert args[..|args|] == args;
  }

  /** Writes the command at protocol level into a buffer of exactly the computed size. */
  method WriteCommand(args: seq<seq<byte>>, totlen: nat) returns (cmd: array<byte>)
    requires totlen == |Encode(args)|
    ensures fresh(cmd) && cmd.Length == totlen + 1
    ensures cmd[..totlen] == Encode(args) && cmd[totlen] == 0
  {
    cmd := new byte[totlen + 1](_ => 0);
    ghost var header := [STAR] + Digits(|args|) + CRLF;
    var pos: nat := Put(cmd, 0, [STAR] + Digits(|args|) + CRLF);
    for j := 0 to |args|
      invariant pos <= totlen && cmd[..pos] == header + EncodeArgs(args[..j])
    {
      EncodedLength(args, j);
      EncodeArgsPrefix(args, j + 1);
      Regroup(header, EncodeArgs(args[..j]), EncodeBulk(args[j]));
      pos := PutBulk(cmd, pos, args[j]);
    }
    assert args[..|args|] == args;
    cmd[pos] := 0;
    assert cmd[..pos] == header + EncodeArgs(args);
  }

  method PutBulk(cmd: array<byte>, start: nat, arg: seq<byte>) returns (pos: nat)
    requires start + |EncodeBulk(arg)| <= cmd.Length
    modifies cmd
    ensures pos == start + |EncodeBulk(arg)| && cmd[..pos] == old(cmd[..start]) + EncodeBulk(arg)
  {
    ghost var before := cmd[..start];
    var header := [DOLLAR] + Digits(|arg|) + CRLF;
    pos := Put(cmd, start, header);
    pos := Put(cmd, pos, arg);
    pos := Put(cmd, pos, CRLF);
    assert before + header + arg + CRLF == before + EncodeBulk(arg);
  }

  /** redisFormatCommandArgv: the length written always equals the length computed beforehand. */
  method FormatCommandArgv(args: seq<seq<byte>>) returns (cmd: array<byte>, totlen: nat)
    requires |Encode(args)| <= INT_MAX
    ensures fresh(cmd) && cmd.Length == totlen + 1
    ensures cmd[..totlen] == Encode(args) && cmd[totlen] == 0
  {
    totlen := TotalLength(args);
    cmd := WriteCommand(args, totlen);
  }

  // ---------- redisFormatSdsCommandArgv ----------

  /** sdscatfmt's %u reads its argument as a 32-bit unsigned integer. */
  function Unsigned32(n: nat): nat {
    n % 0x1_0000_0000
  }

  function SdsHeader(arg: seq<byte>): seq<byte> {
    [DOLLAR] + Digits(Unsigned32(|arg|)) + CRLF
  }

  function SdsBulk(arg: seq<byte>): seq<byte> {
    SdsHeader(arg) + arg + CRLF
  }

  function SdsArgs(args: seq<seq<byte>>): seq<byte> {
    if args == [] then [] else SdsBulk(args[0]) + SdsArgs(args[1..])
  }

  function SdsCommand(args: seq<seq<byte>>): seq<byte> {
    [STAR] + Digits(|args|) + CRLF + SdsArgs(args)
  }

  /** sdscatfmt keeps its position in an `int`: every length line must end within INT_MAX bytes. */
  predicate LinesFit(at: nat, args: seq<seq<byte>>)
    decreases |args|
  {
    args == [] || (at + |SdsHeader(args[0])| <= INT_MAX && LinesFit(at + |SdsBulk(args[0])|, args[1..]))
  }

  /** Where the lines of the arguments start. */
  function LinesStart(args: seq<seq<byte>>): nat {
    1 + |Digits(|args|)| + 2
  }

  /** The command and the value returned; or bytes are written to a wrong position; or the assertion on the length
      fails. */
  datatype SdsFormatted = Sent(cmd: seq<byte>, returned: int) | Misplaced | Aborted

  function SdsOutcome(args: seq<seq<byte>>): SdsFormatted {
    if !LinesFit(LinesStart(args), args) then Misplaced
    else if |SdsCommand(args)| != |Encode(args)| then Aborted
    else Sent(SdsCommand(args), Signed32(|Encode(args)|))
  }

  method FormatSdsCommandArgv(args: seq<seq<byte>>) returns (r: SdsFormatted)
    requires |args| <= INT_MAX && |Encode(args)| <= INT64_MAX
    ensures r == SdsOutcome(args)
    ensures |Encode(args)| <= INT_MAX <==> r == Sent(Encode(args), |Encode(args)|)
  {
    SdsReturnsExactly(args);
    var totlen := TotalLength(args);
    var cmd := [STAR] + Digits(|args|) + CRLF;
    assert args[0..] == args;
    for j := 0 to |args|
      invariant cmd + SdsArgs(args[j..]) == SdsCommand(args)
      invariant LinesFit(|cmd|, args[j..]) <==> LinesFit(LinesStart(args), args)
    {
      SdsArgsFrom(cmd, args, j);
      var line := SdsHeader(args[j]);
      if |cmd| + |line| > INT_MAX {
        return Misplaced;
      }
      cmd := cmd + line + args[j] + CRLF;
    }
    assert args[|args|..] == [] && cmd + [] == cmd;
    if |cmd| != totlen {
      return Aborted;
    }
    return Sent(cmd, Signed32(totlen));
  }

  /** What is left to write after `cmd` begins with argument `j`. */
  lemma SdsArgsFrom(cmd: seq<byte>, args: seq<seq<byte>>, j: nat)
    requires j < |args|
    ensures cmd + SdsArgs(args[j..]) == (cmd + SdsHeader(args[j]) + args[j] + CRLF) + SdsArgs(args[j + 1..])
    ensures LinesFit(|cmd|, args[j..])
            <==> |cmd| + |SdsHeader(args[j])| <= INT_MAX
                 && LinesFit(|cmd + SdsHeader(args[j]) + args[j] + CRLF|, args[j + 1..])
  {
    assert args[j..][1..] == args[j + 1..];
    var rest := SdsArgs(args[j + 1..]);
    assert cmd + (SdsBulk(args[j]) + rest) == (cmd + SdsBulk(args[j])) + rest;
    assert cmd + SdsBulk(args[j]) == cmd + SdsHeader(args[j]) + args[j] + CRLF;
  }

  lemma {:induction false} ArgumentFits(args: seq<seq<byte>>, a: seq<byte>)
    requires a in args
    ensures |a| <= |EncodeArgs(args)|
  {
    if a != args[0] {
      ArgumentFits(args[1..], a);
    }
  }

  lemma SameBulk(arg: seq<byte>, at: nat)
    requires at + |EncodeBulk(arg)| <= INT_MAX
    ensures EncodeBulk(arg) == SdsBulk(arg) && at + |SdsHeader(arg)| <= INT_MAX
  {
    assert Unsigned32(|arg|) == |arg|;
    var header := [DOLLAR] + Digits(|arg|) + CRLF;
    assert SdsHeader(arg) == header && EncodeBulk(arg) == header + arg + CRLF;
  }

  lemma {:induction false} ShortLinesFit(at: nat, args: seq<seq<byte>>)
    requires at + |EncodeArgs(args)| <= INT_MAX
    ensures LinesFit(at, args) && SdsArgs(args) == EncodeArgs(args)
    decreases |args|
  {
    if args != [] {
      var rest := EncodeArgs(args[1..]);
      assert EncodeArgs(args) == EncodeBulk(args[0]) + rest;
      SameBulk(args[0], at);
      ShortLinesFit(at + |EncodeBulk(args[0])|, args[1..]);
    }
  }

  /** The command goes out with its length if and only if that length is an `int`. */
  lemma SdsReturnsExactly(args: seq<seq<byte>>)
    ensures SdsOutcome(args) == Sent(Encode(args), |Encode(args)|) <==> |Encode(args)| <= INT_MAX
  {
    if |Encode(args)| <= INT_MAX {
      ShortLinesFit(LinesStart(args), args);
    }
  }

  /**
   * Whatever value is returned, the bytes are those of the command if and only if every argument is shorter than 4 GiB,
   * a longer one being announced with its length modulo 2^32, and all length lines end within INT_MAX bytes.
   */
  lemma SdsBytesExact(args: seq<seq<byte>>)
    ensures SdsOutcome(args).Sent? && SdsOutcome(args).cmd == Encode(args)
            <==> LinesFit(LinesStart(args), args) && forall a :: a in args ==> |a| < 0x1_0000_0000
  {
    SdsArgsExact(args);
    var header := [STAR] + Digits(|args|) + CRLF;
    assert SdsCommand(args)[|header|..] == SdsArgs(args) && Encode(args)[|header|..] == EncodeArgs(args);
  }

  /**
   * One argument of 5_794_967_296 bytes: the lengths agree, so the assertion holds, a wrong command goes out, and the
   * value returned is positive, so that no caller can tell.
   */
  lemma SdsWrongUnnoticed(x: seq<byte>)
    requires |x| == 5_794_967_296
    ensures SdsOutcome([x]).Sent? && SdsOutcome([x]).cmd != Encode([x]) && SdsOutcome([x]).returned == 1_500_000_019
  {
    LongArgument(x);
    SdsBytesExact([x]);
    assert x in [x];
  }

  lemma LongArgument(x: seq<byte>)
    requires |x| == 5_794_967_296
    ensures LinesFit(LinesStart([x]), [x]) && |SdsCommand([x])| == |Encode([x])| == 5_794_967_315
  {
    assert Unsigned32(5_794_967_296) == 1_500_000_000;
    TenDigits(5_794_967_296);
    TenDigits(1_500_000_000);
    OneArgument(x);
    assert |Digits(1)| == 1;
    assert |SdsHeader(x)| == 13;
  }

  lemma OneArgument(x: seq<byte>)
    ensures |SdsCommand([x])| == 3 + |Digits(1)| + |SdsBulk(x)| && |Encode([x])| == 3 + |Digits(1)| + |EncodeBulk(x)|
    ensures LinesFit(LinesStart([x]), [x]) <==> 3 + |Digits(1)| + |SdsHeader(x)| <= INT_MAX
  {
    assert [x][1..] == [];
    assert SdsArgs([]) == [] && EncodeArgs([]) == [];
  }

  lemma TenDigits(n: nat)
    requires 1_000_000_000 <= n < 10_000_000_000
    ensures |Digits(n)| == 10
  {
    DigitsLength(n);
    DigitsLength(n / 10000);
    DigitsLength(n / 10000 / 10000);
  }

  lemma {:induction false} SdsArgsExact(args: seq<seq<byte>>)
    ensures SdsArgs(args) == EncodeArgs(args) <==> forall a :: a in args ==> |a| < 0x1_0000_0000
  {
    if args != [] {
      var x, xs := args[0], args[1..];
      SdsArgsExact(xs);
      assert forall a :: a in args <==> a == x || a in xs;
      SdsBulkExact(x, SdsArgs(xs), EncodeArgs(xs));
    }
  }

  lemma SameLine(m: nat, a: seq<byte>, n: nat, b: seq<byte>)
    requires Digits(m) + CRLF + a == Digits(n) + CRLF + b
    ensures m == n && a == b
  {
    DigitsLine(m, a);
    DigitsLine(n, b);
    DigitsDenote(m);
    DigitsDenote(n);
  }

  lemma SdsBulkExact(x: seq<byte>, s: seq<byte>, t: seq<byte>)
    ensures SdsBulk(x) + s == EncodeBulk(x) + t <==> |x| < 0x1_0000_0000 && s == t
  {
    var m, n := Unsigned32(|x|), |x|;
    var a, b := x + CRLF + s, x + CRLF + t;
    assert SdsBulk(x) + s == [DOLLAR] + (Digits(m) + CRLF + a);
    assert EncodeBulk(x) + t == [DOLLAR] + (Digits(n) + CRLF + b);
    if SdsBulk(x) + s == EncodeBulk(x) + t {
      assert ([DOLLAR] + (Digits(m) + CRLF + a))[1..] == Digits(m) + CRLF + a;
      assert ([DOLLAR] + (Digits(n) + CRLF + b))[1..] == Digits(n) + CRLF + b;
      SameLine(m, a, n, b);
      assert a == b && a[|x| + 2..] == s && b[|x| + 2..] == t;
    }
  }

  // ---------- redisvFormatCommand: literals, %s, %b and %% ----------

  /** What a format string contributes, in order: an argument separator or bytes of an argument. */
  datatype Item = Space | Bytes(str: seq<byte>)

  /** The items of a format whose directives take their values from `values`; None when it holds any other
      directive, which the program passes on to vsnprintf or refuses as a format error. */
  function Items(format: seq<byte>, values: seq<seq<byte>>): Option<seq<Item>>
    requires Directives(format) <= |values|
  {
    if format == [] then Some([])
    else if format[0] != PERCENT || |format| == 1 then
      Cons(if format[0] == SPACE then Space else Bytes([format[0]]), Items(format[1..], values))
    else if format[1] == PERCENT then Cons(Bytes([PERCENT]), Items(format[2..], values))
    else if format[1] == LETTER_S || format[1] == LETTER_B then Cons(Bytes(values[0]), Items(format[2..], values[1..]))
    else None
  }

  function Cons(item: Item, items: Option<seq<Item>>): Option<seq<Item>> {
    if items.None? then None else Some([item] + items.value)
  }

  /** How many values a format consumes before it ends or leaves the modelled directives. */
  function Directives(format: seq<byte>): nat {
    if format == [] then 0
    else if format[0] != PERCENT || |format| == 1 then Directives(format[1..])
    else if format[1] == PERCENT then Directives(format[2..])
    else if format[1] == LETTER_S || format[1] == LETTER_B then 1 + Directives(format[2..])
    else 0
  }

  function Join(items: seq<Item>): seq<byte> {
    if items == [] then [] else (if items[0].Space? then [] else items[0].str) + Join(items[1..])
  }

  /** The end of the run of items without a space that starts at `at`. */
  function RunEnd(items: seq<Item>, at: nat): (end: nat)
    requires at <= |items|
    ensures at <= end <= |items| && (end == at <==> at == |items| || items[at].Space?)
    decreases |items| - at
  {
    if at == |items| || items[at].Space? then at else RunEnd(items, at + 1)
  }

  /** The index ranges of the maximal runs between spaces: the boundaries of the arguments. */
  function Bounds(items: seq<Item>, at: nat): seq<(nat, nat)>
    requires at <= |items|
    decreases |items| - at
  {
    if at == |items| then []
    else if items[at].Space? then Bounds(items, at + 1)
    else [(at, RunEnd(items, at))] + Bounds(items, RunEnd(items, at))
  }

  /** The arguments from `at` on: one for every maximal run of items between spaces. */
  function WordsFrom(items: seq<Item>, at: nat): seq<seq<byte>>
    requires at <= |items|
    decreases |items| - at
  {
    if at == |items| then []
    else if items[at].Space? then WordsFrom(items, at + 1)
    else [Join(items[at..RunEnd(items, at)])] + WordsFrom(items, RunEnd(items, at))
  }

  function Words(items: seq<Item>): seq<seq<byte>> {
    WordsFrom(items, 0)
  }

  /** The scanning loop seen from one of its rounds: `cur` is the current argument. */
  function Scan(cur: seq<byte>, touched: bool, items: seq<Item>): seq<seq<byte>>
    decreases |items|
  {
    if items == [] then if touched then [cur] else []
    else if items[0].Space? then
      if touched then [cur] + Scan([], false, items[1..]) else Scan(cur, false, items[1..])
    else Scan(cur + items[0].str, true, items[1..])
  }

  lemma WordGrows(cur: seq<byte>, all: seq<Item>, at: nat)
    requires at < |all| && !all[at].Space?
    ensures RunEnd(all, at + 1) == RunEnd(all, at)
    ensures cur + all[at].str + Join(all[at + 1..RunEnd(all, at)]) == cur + Join(all[at..RunEnd(all, at)])
    ensures cur == [] ==> cur + Join(all[at..RunEnd(all, at)]) == Join(all[at..RunEnd(all, at)])
  {
    var run := all[at..RunEnd(all, at)];
    assert run[1..] == all[at + 1..RunEnd(all, at)];
    assert Join(run) == all[at].str + Join(run[1..]);
  }

  lemma {:induction false} ScanIsWords(cur: seq<byte>, touched: bool, all: seq<Item>, at: nat)
    requires at <= |all| && (!touched ==> cur == [])
    ensures !touched ==> Scan(cur, touched, all[at..]) == WordsFrom(all, at)
    ensures touched ==> Scan(cur, touched, all[at..]) ==
                        [cur + Join(all[at..RunEnd(all, at)])] + WordsFrom(all, RunEnd(all, at))
    decreases |all| - at
  {
    if at == |all| {
      assert cur + [] == cur;
    } else {
      assert all[at..][1..] == all[at + 1..];
      if all[at].Space? {
        ScanIsWords([], false, all, at + 1);
        assert all[at..at] == [] && cur + [] == cur;
      } else {
        ScanIsWords(cur + all[at].str, true, all, at + 1);
        WordGrows(cur, all, at);
      }
    }
  }

  predicate SameShape(a: seq<Item>, b: seq<Item>) {
    |a| == |b| && forall i :: 0 <= i < |a| ==> a[i].Space? == b[i].Space?
  }

  lemma {:induction false} ItemsShape(format: seq<byte>, vs: seq<seq<byte>>, ws: seq<seq<byte>>)
    requires Directives(format) <= |vs| && Directives(format) <= |ws|
    ensures Items(format, vs).Some? == Items(format, ws).Some?
    ensures Items(format, vs).Some? ==> SameShape(Items(format, vs).value, Items(format, ws).value)
  {
    if format != [] {
      if format[0] != PERCENT || |format| == 1 {
        ItemsShape(format[1..], vs, ws);
      } else if format[1] == PERCENT {
        ItemsShape(format[2..], vs, ws);
      } else if format[1] == LETTER_S || format[1] == LETTER_B {
        ItemsShape(format[2..], vs[1..], ws[1..]);
      }
    }
  }

  lemma {:induction false} RunShape(a: seq<Item>, b: seq<Item>, at: nat)
    requires SameShape(a, b) && at <= |a|
    ensures RunEnd(a, at) == RunEnd(b, at)
    decreases |a| - at
  {
    if at < |a| && !a[at].Space? {
      RunShape(a, b, at + 1);
    }
  }

  lemma {:induction false} BoundsShape(a: seq<Item>, b: seq<Item>, at: nat)
    requires SameShape(a, b) && at <= |a|
    ensures Bounds(a, at) == Bounds(b, at)
    decreases |a| - at
  {
    if at < |a| {
      RunShape(a, b, at);
      BoundsShape(a, b, if a[at].Space? then at + 1 else RunEnd(a, at));
    }
  }

  /** Argument `word` is exactly the items of the range `r` of `all`, spaces in values and all. */
  predicate Spans(all: seq<Item>, r: (nat, nat), word: seq<byte>) {
    r.0 < r.1 <= |all| && word == Join(all[r.0..r.1])
  }

  lemma {:induction false} WordsAtBounds(all: seq<Item>, at: nat)
    requires at <= |all|
    ensures |WordsFrom(all, at)| == |Bounds(all, at)|
    ensures forall k :: 0 <= k < |Bounds(all, at)| ==> Spans(all, Bounds(all, at)[k], WordsFrom(all, at)[k])
    decreases |all| - at
  {
    if at < |all| {
      var end := RunEnd(all, at);
      WordsAtBounds(all, if all[at].Space? then at + 1 else end);
      assert !all[at].Space? ==> Spans(all, (at, end), Join(all[at..end]));
    }
  }

  /** The number of arguments and the items each is made of depend on the format string alone:
      no byte of a value, be it a space, CR, LF or zero, splits or merges arguments. */
  lemma ArgumentsFollowFormat(format: seq<byte>, vs: seq<seq<byte>>, ws: seq<seq<byte>>)
    requires Directives(format) <= |vs| && Directives(format) <= |ws|
    requires Items(format, vs).Some?
    ensures Items(format, ws).Some?
    ensures var a, b := Items(format, vs).value, Items(format, ws).value;
      && |Words(a)| == |Words(b)| == |Bounds(a, 0)|
      && forall k :: 0 <= k < |Words(a)| ==>
           Spans(a, Bounds(a, 0)[k], Words(a)[k]) && Spans(b, Bounds(a, 0)[k], Words(b)[k])
  {
    ItemsShape(format, vs, ws);
    var a, b := Items(format, vs).value, Items(format, ws).value;
    BoundsShape(a, b, 0);
    WordsAtBounds(a, 0);
    WordsAtBounds(b, 0);
  }

  datatype Formatted = Command(cmd: array<byte>, totlen: nat) | OtherDirective

  /** redisvFormatCommand on a format without its terminating zero. */
  method FormatCommand(format: seq<byte>, values: seq<seq<byte>>) returns (r: Formatted)
    requires Directives(format) <= |values|
    requires Items(format, values).Some? ==> |Encode(Words(Items(format, values).value))| <= INT_MAX
    ensures r.OtherDirective? <==> Items(format, values).None?
    ensures r.Command? ==>
      && fresh(r.cmd) && r.cmd.Length == r.totlen + 1 && r.cmd[r.totlen] == 0
      && r.cmd[..r.totlen] == Encode(Words(Items(format, values).value))
  {
    var c, v := 0, 0;
    var curarg: seq<byte>, touched, argv: seq<seq<byte>> := [], false, [];
    var length := 0;
    ghost var all := Items(format, values);
    if all.Some? {
      ScanIsWords([], false, all.value, 0);
      assert all.value[0..] == all.value;
    }
    while c < |format|
      invariant c <= |format| && v <= |values| && (!touched ==> curarg == [])
      invariant Directives(format[c..]) <= |values| - v
      invariant Progress(all, argv, curarg, touched, Items(format[c..], values[v..]))
      invariant length == |EncodeArgs(argv)|
    {
      ghost var f, vs := format[c..], values[v..];
      ProgressStep(all, argv, curarg, touched, f, vs);
      if format[c] != PERCENT || c + 1 == |format| {
        assert f[1..] == format[c + 1..];
        if format[c] == SPACE {
          if touched {
            argv, length := AddArgument(argv, length, curarg);
            curarg, touched := [], false;
          }
        } else {
          curarg, touched := curarg + [format[c]], true;
        }
      } else {
        assert f[2..] == format[c + 2..];
        if format[c + 1] == LETTER_S || format[c + 1] == LETTER_B {
          assert vs[1..] == values[v + 1..];
          curarg := curarg + values[v];
          v := v + 1;
        } else if format[c + 1] == PERCENT {
          curarg := curarg + [PERCENT];
        } else {
          return OtherDirective;
        }
        touched := true;
        c := c + 1;
      }
      c := c + 1;
    }
    assert format[c..] == [];
    if touched {
      argv, length := AddArgument(argv, length, curarg);
    }
    assert argv + [] == argv;
    assert argv == Words(all.value);
    var digits := CountDigits(|argv|);
    length := length + 1 + digits + 2;
    var cmd := WriteCommand(argv, length);
    r := Command(cmd, length);
  }

  method AddArgument(argv: seq<seq<byte>>, length: nat, arg: seq<byte>) returns (argv': seq<seq<byte>>, length': nat)
    requires length == |EncodeArgs(argv)|
    ensures argv' == argv + [arg] && length' == |EncodeArgs(argv')|
  {
    EncodeArgsSnoc(argv, arg);
    var digits := CountDigits(|arg|);
    return argv + [arg], length + BulkLen(|arg|, digits);
  }

  /** Scanning `items` after `argv` has been completed and `cur` begun gives the words of `all`. */
  ghost predicate Progress(all: Option<seq<Item>>, argv: seq<seq<byte>>, cur: seq<byte>, touched: bool,
                           items: Option<seq<Item>>) {
    all.Some? == items.Some? && (all.Some? ==> argv + Scan(cur, touched, items.value) == Words(all.value))
  }

  lemma ProgressStep(all: Option<seq<Item>>, argv: seq<seq<byte>>, cur: seq<byte>, touched: bool, f: seq<byte>,
                     vs: seq<seq<byte>>)
    requires f != [] && Directives(f) <= |vs| && Progress(all, argv, cur, touched, Items(f, vs))
    ensures f[0] != PERCENT || |f| == 1 ==>
      if f[0] == SPACE then
        Progress(all, if touched then argv + [cur] else argv, if touched then [] else cur, false, Items(f[1..], vs))
      else Progress(all, argv, cur + [f[0]], true, Items(f[1..], vs))
    ensures f[0] == PERCENT && |f| > 1 ==>
      if f[1] == PERCENT then Progress(all, argv, cur + [PERCENT], true, Items(f[2..], vs))
      else if f[1] == LETTER_S || f[1] == LETTER_B then Progress(all, argv, cur + vs[0], true, Items(f[2..], vs[1..]))
      else all.None?
  {
    if all.Some? {
      var items := Items(f, vs).value;
      assert argv + ([cur] + Scan([], false, items[1..])) == argv + [cur] + Scan([], false, items[1..]);
    }
  }
}
