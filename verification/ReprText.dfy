/** Quoting and splitting spelt out in characters, apart from the tables of the quoter and of the scanner. */
module ReprText {
  import opened Bytes
  import opened SdsRepr

  const HEX := "0123456789abcdef"
  const HEX_UPPER := "0123456789ABCDEF"

  // ---------- the quoted form ----------

  /** Letters for five control characters, a backslash before quotes, printable ASCII as it is, else hexadecimal. */
  lemma EscapeSpelt(b: byte)
    ensures b == '\n' as int ==> Escape(b) == ['\\' as int, 'n' as int]
    ensures b == '\r' as int ==> Escape(b) == ['\\' as int, 'r' as int]
    ensures b == '\t' as int ==> Escape(b) == ['\\' as int, 't' as int]
    ensures b == 7 ==> Escape(b) == ['\\' as int, 'a' as int]
    ensures b == 8 ==> Escape(b) == ['\\' as int, 'b' as int]
    ensures b == '\\' as int || b == '\"' as int ==> Escape(b) == ['\\' as int, b]
    ensures ' ' as int <= b <= '~' as int && b != '\\' as int && b != '\"' as int ==> Escape(b) == [b]
    ensures (b < ' ' as int || b > '~' as int) && b !in {7, 8, 9, 10, 13} ==>
              Escape(b) == ['\\' as int, 'x' as int, HEX[b / 16] as int, HEX[b % 16] as int]
  {
  }

  // ---------- inside double quotes ----------

  /** A backslash, x and two hexadecimal digits in either case are one byte. */
  lemma HexReads(i: nat, j: nat, hi: byte, lo: byte, t: seq<byte>, cur: seq<byte>)
    requires i < 16 && j < 16
    requires hi in {HEX[i] as int, HEX_UPPER[i] as int} && lo in {HEX[j] as int, HEX_UPPER[j] as int}
    ensures Quoted(['\\' as int, 'x' as int, hi, lo] + t, cur) == Quoted(t, cur + [16 * i + j])
  {
    var s := ['\\' as int, 'x' as int, hi, lo] + t;
    assert s[4..] == t && HexDigitToInt(hi) == i && HexDigitToInt(lo) == j;
  }

  /** A backslash and a letter are the character it stands for; before anything else a backslash is dropped. */
  lemma BackslashReads(c: byte, t: seq<byte>, cur: seq<byte>)
    requires c != 0 && !HexEscape(['\\' as int, c] + t)
    ensures var s := ['\\' as int, c] + t;
            && (c == 'n' as int ==> Quoted(s, cur) == Quoted(t, cur + ['\n' as int]))
            && (c == 'r' as int ==> Quoted(s, cur) == Quoted(t, cur + ['\r' as int]))
            && (c == 't' as int ==> Quoted(s, cur) == Quoted(t, cur + ['\t' as int]))
            && (c == 'a' as int ==> Quoted(s, cur) == Quoted(t, cur + [7]))
            && (c == 'b' as int ==> Quoted(s, cur) == Quoted(t, cur + [8]))
            && (c !in {'n' as int, 'r' as int, 't' as int, 'a' as int, 'b' as int} ==>
                  Quoted(s, cur) == Quoted(t, cur + [c]))
  {
    assert (['\\' as int, c] + t)[2..] == t;
  }

  // ---------- plain text ----------

  /** Text without quotes, backslashes, white space and zero. */
  predicate Plain(text: seq<byte>) {
    forall b :: b in text ==> b !in {0, 9, 10, 11, 12, 13, ' ' as int, '\"' as int, '\'' as int, '\\' as int}
  }

  /** Text without quotes, backslashes and zero, blanks allowed. */
  predicate Quotable(text: seq<byte>) {
    forall b :: b in text ==> b !in {0, '\"' as int, '\'' as int, '\\' as int}
  }

  /** In quotes of either kind such text is itself, up to the closing quote, which must end the argument. */
  lemma {:induction false} DoubleQuotedText(text: seq<byte>, t: seq<byte>, cur: seq<byte>)
    requires Quotable(text)
    ensures Quoted(text + (['\"' as int] + t), cur) == if EndsToken(t) then Some((cur + text, t)) else None
    ensures Quoted(text, cur) == None
    decreases |text|
  {
    var ending := ['\"' as int] + t;
    if text == [] {
      assert [] + ending == ending && ending[1..] == t && cur + [] == cur;
    } else {
      assert text[0] in text && forall b :: b in text[1..] ==> b in text;
      DoubleQuotedText(text[1..], t, cur + [text[0]]);
      assert cur + [text[0]] + text[1..] == cur + text;
      assert (text + ending)[1..] == text[1..] + ending;
    }
  }

  lemma {:induction false} SingleQuotedText(text: seq<byte>, t: seq<byte>, cur: seq<byte>)
    requires Quotable(text)
    ensures SingleQuoted(text + (['\'' as int] + t), cur) == if EndsToken(t) then Some((cur + text, t)) else None
    ensures SingleQuoted(text, cur) == None
    decreases |text|
  {
    var ending := ['\'' as int] + t;
    if text == [] {
      assert [] + ending == ending && ending[1..] == t && cur + [] == cur;
    } else {
      assert text[0] in text && forall b :: b in text[1..] ==> b in text;
      SingleQuotedText(text[1..], t, cur + [text[0]]);
      assert cur + [text[0]] + text[1..] == cur + text;
      assert (text + ending)[1..] == text[1..] + ending;
    }
  }

  /** In single quotes only a backslash and a quote are special. */
  lemma SingleQuoteReads(t: seq<byte>, cur: seq<byte>)
    ensures SingleQuoted(['\\' as int, '\'' as int] + t, cur) == SingleQuoted(t, cur + ['\'' as int])
  {
    assert (['\\' as int, '\'' as int] + t)[2..] == t;
  }

  /** Outside quotes plain text runs to the next blank or the end. */
  lemma {:induction false} PlainReads(text: seq<byte>, t: seq<byte>, cur: seq<byte>)
    requires Plain(text) && (t != [] ==> t[0] in {' ' as int, '\n' as int, '\r' as int, '\t' as int})
    ensures Bare(text + t, cur) == Some((cur + text, if t == [] then [] else t[1..]))
    decreases |text|
  {
    if text == [] {
      assert [] + t == t && cur + [] == cur;
    } else {
      assert text[0] in text && forall b :: b in text[1..] ==> b in text;
      PlainReads(text[1..], t, cur + [text[0]]);
      assert (text + t)[1..] == text[1..] + t;
      assert cur + [text[0]] + text[1..] == cur + text;
    }
  }

  /** Any other byte outside quotes is kept, a backslash among them. */
  lemma BareByte(b: byte, t: seq<byte>, cur: seq<byte>)
    requires b !in {0, ' ' as int, '\n' as int, '\r' as int, '\t' as int, '\"' as int, '\'' as int}
    ensures Bare([b] + t, cur) == Bare(t, cur + [b])
    ensures Bare(['\"' as int] + t, cur) == Quoted(t, cur) && Bare(['\'' as int] + t, cur) == SingleQuoted(t, cur)
  {
    assert ([b] + t)[1..] == t && (['\"' as int] + t)[1..] == t && (['\'' as int] + t)[1..] == t;
  }

  function Blanked(words: seq<seq<byte>>): seq<byte> {
    if words == [] then [] else [' ' as int] + (words[0] + Blanked(words[1..]))
  }

  /** A line of plain words with blanks before them splits into just these words. */
  lemma {:induction false} PlainWords(words: seq<seq<byte>>)
    requires forall w :: w in words ==> w != [] && Plain(w)
    ensures Args(Blanked(words)) == Some(words)
    decreases |words|
  {
    if words != [] {
      var w, t := words[0], Blanked(words[1..]);
      assert w in words && w[0] in w && forall x :: x in words[1..] ==> x in words;
      PlainWords(words[1..]);
      BlankFirst(w + t);
      WordFirst(w, t);
      assert [w] + words[1..] == words;
    }
  }

  lemma WordFirst(w: seq<byte>, t: seq<byte>)
    requires w != [] && Plain(w) && (t != [] ==> t[0] == ' ' as int)
    ensures Args(w + t) == if Args(t) == None then None else Some([w] + Args(t).value)
  {
    assert w[0] in w;
    PlainReads(w, t, []);
    assert SkipBlanks(w + t) == w + t && [] + w == w;
    if t != [] {
      AfterBlank(t);
    }
  }

  lemma AfterBlank(t: seq<byte>)
    requires t != [] && t[0] == ' ' as int
    ensures Args(t[1..]) == Args(t)
  {
    BlankFirst(t[1..]);
    assert [' ' as int] + t[1..] == t;
  }
}
