/** Instance key text: HCL quoting of string keys (`toHCLQuotedString`), decimal and hexadecimal
    digits, and a reference reader for the text they produce.

    The reader follows the "Template Literals" section of the HCL Native Syntax
    Specification. `unicode.IsPrint` is an arbitrary predicate. */
module Quoting {
  import opened Addresses

  // ---------------------------------------------------------------- hexadecimal

  function HexDigit(d: int): (c: char)
    requires 0 <= d < 16
  {
    "0123456789abcdef"[d]
  }

  function HexValue(c: char): Option<int> {
    if '0' <= c <= '9' then Some(c as int - '0' as int)
    else if 'a' <= c <= 'f' then Some(c as int - 'a' as int + 10)
    else if 'A' <= c <= 'F' then Some(c as int - 'A' as int + 10)
    else None
  }

  function Pow16(n: nat): (p: int)
    ensures p >= 1
  {
    if n == 0 then 1 else 16 * Pow16(n - 1)
  }

  /** `%0<width>x` for a number that fits. */
  function ToHex(n: nat, width: nat): (s: string)
    ensures |s| == width
  {
    if width == 0 then "" else ToHex(n / 16, width - 1) + [HexDigit(n % 16)]
  }

  function FromHex(s: string): Option<nat> {
    if s == "" then Some(0)
    else
      match (FromHex(s[..|s| - 1]), HexValue(s[|s| - 1]))
      case (Some(hi), Some(lo)) => if lo >= 0 then Some(hi * 16 + lo) else None
      case _ => None
  }

  lemma {:induction false} HexRoundTrip(n: nat, width: nat)
    requires n < Pow16(width)
    ensures FromHex(ToHex(n, width)) == Some(n)
  {
    if width > 0 {
      HexRoundTrip(n / 16, width - 1);
      var s := ToHex(n, width);
      assert s[..|s| - 1] == ToHex(n / 16, width - 1);
      assert HexValue(HexDigit(n % 16)) == Some(n % 16);
    }
  }

  // ---------------------------------------------------------------- quoting

  /** What the quoting loop writes for one character, given whether `{` follows it. */
  function QuoteChar(isPrint: char -> bool, c: char, beforeBrace: bool): string {
    if c == '\n' then "\\n"
    else if c == '\r' then "\\r"
    else if c == '\t' then "\\t"
    else if c == '"' then "\\\""
    else if c == '\\' then "\\\\"
    else if c == '$' || c == '%' then if beforeBrace then [c, c] else [c]
    else if isPrint(c) then [c]
    else EscapeIntroducer(c) + ToHex(c as int, EscapeWidth(c))
  }

  function EscapeIntroducer(c: char): string {
    if c as int < 65536 then "\\u" else "\\U"
  }

  function EscapeWidth(c: char): nat {
    if c as int < 65536 then 4 else 8
  }

  predicate BraceAt(s: string, i: nat) {
    i < |s| && s[i] == '{'
  }

  function QuoteBody(isPrint: char -> bool, s: string): string {
    if s == "" then "" else QuoteChar(isPrint, s[0], BraceAt(s, 1)) + QuoteBody(isPrint, s[1..])
  }

  function Quoted(isPrint: char -> bool, s: string): string {
    "\"" + QuoteBody(isPrint, s) + "\""
  }

  lemma {:induction false} QuoteBodyPrefix(isPrint: char -> bool, s: string, i: nat)
    requires i < |s|
    ensures QuoteBody(isPrint, s[i..]) == QuoteChar(isPrint, s[i], BraceAt(s, i + 1)) + QuoteBody(isPrint, s[i + 1..])
  {
    assert s[i..][1..] == s[i + 1..];
  }

  /** The body of the quoting loop: what one rune adds to the buffer. */
  method WriteRune(isPrint: char -> bool, s: string, i: nat) returns (w: string)
    requires i < |s|
    ensures w == QuoteChar(isPrint, s[i], BraceAt(s, i + 1))
  {
    var r := s[i];
    if r == '\n' {
      w := "\\n";
    } else if r == '\r' {
      w := "\\r";
    } else if r == '\t' {
      w := "\\t";
    } else if r == '"' {
      w := "\\\"";
    } else if r == '\\' {
      w := "\\\\";
    } else if r == '$' || r == '%' {
      w := [r];
      var remain := s[i + 1..];
      if |remain| > 0 && remain[0] == '{' {
        w := w + [r];
      }
    } else if !isPrint(r) {
      if r as int < 65536 {
        w := "\\u" + ToHex(r as int, 4);
      } else {
        w := "\\U" + ToHex(r as int, 8);
      }
    } else {
      w := [r];
    }
  }

  method ToHCLQuotedString(isPrint: char -> bool, s: string) returns (out: string)
    ensures out == Quoted(isPrint, s)
  {
    if |s| == 0 {
      return "\"\"";
    }
    out := "\"";
    for i := 0 to |s|
      invariant out + QuoteBody(isPrint, s[i..]) == "\"" + QuoteBody(isPrint, s)
    {
      QuoteBodyPrefix(isPrint, s, i);
      var w := WriteRune(isPrint, s, i);
      assert (out + w) + QuoteBody(isPrint, s[i + 1..]) == out + (w + QuoteBody(isPrint, s[i + 1..]));
      out := out + w;
    }
    assert s[|s|..] == "";
    out := out + "\"";
  }

  // ---------------------------------------------------------------- reference reader

  function ScalarValue(v: int): Option<char> {
    if 0 <= v < 0xD800 || 0xE000 <= v < 0x11_0000 then Some(v as char) else None
  }

  /** The character named by `digits`, which follow a `\u` or `\U`. */
  function UnicodeEscape(digits: string): Option<char> {
    match FromHex(digits)
    case Some(v) => ScalarValue(v)
    case None => None
  }

  datatype Unit = Unit(value: string, length: nat) | NotLiteral

  /** The first literal unit of a quoted template: the text it stands for and how many
      characters it takes. An unescaped `${` or `%{` starts a template sequence, which
      is not literal text, and a raw line break may not appear. */
  function FirstUnit(s: string): (u: Unit)
    requires s != ""
    ensures u.Unit? ==> 0 < u.length <= |s|
  {
    var c := s[0];
    if c == '\n' || c == '\r' then NotLiteral
    else if c == '\\' then
      if |s| < 2 then NotLiteral
      else if s[1] == 'n' then Unit("\n", 2)
      else if s[1] == 'r' then Unit("\r", 2)
      else if s[1] == 't' then Unit("\t", 2)
      else if s[1] == '"' then Unit("\"", 2)
      else if s[1] == '\\' then Unit("\\", 2)
      else if s[1] == 'u' && |s| >= 6 then
        match UnicodeEscape(s[2..6])
        case Some(r) => Unit([r], 6)
        case None => NotLiteral
      else if s[1] == 'U' && |s| >= 10 then
        match UnicodeEscape(s[2..10])
        case Some(r) => Unit([r], 10)
        case None => NotLiteral
      else NotLiteral
    else if (c == '$' || c == '%') && |s| >= 3 && s[1] == c && s[2] == '{' then Unit([c, '{'], 3)
    else if (c == '$' || c == '%') && BraceAt(s, 1) then NotLiteral
    else Unit([c], 1)
  }

  /** Read a quoted template up to its closing quote; `s` starts after the opening one.
      The result is the literal text and what follows the closing quote. */
  function Unquote(s: string): (r: Option<(string, string)>)
    ensures r.Some? ==> |r.value.1| < |s|
  {
    if s == "" then None
    else if s[0] == '"' then Some(("", s[1..]))
    else
      var u := FirstUnit(s);
      if u.NotLiteral? then None
      else
        match Unquote(s[u.length..])
        case Some((text, rest)) => Some((u.value + text, rest))
        case None => None
  }

  // ---------------------------------------------------------------- round trip

  /** Quoted text never begins by accident with a brace, nor with a template introducer. */
  lemma QuotedStart(isPrint: char -> bool, s: string, tail: string, c: char)
    requires isPrint('{') && (c == '$' || c == '%')
    ensures var t := QuoteBody(isPrint, s) + "\"" + tail;
            && (BraceAt(t, 0) <==> BraceAt(s, 0))
            && !(t[0] == c && BraceAt(t, 1))
  {
    var t := QuoteBody(isPrint, s) + "\"" + tail;
    if s != "" {
      var q := QuoteChar(isPrint, s[0], BraceAt(s, 1));
      assert t == q + (QuoteBody(isPrint, s[1..]) + "\"" + tail);
      assert t[0] == q[0];
      if s[0] == c && !BraceAt(s, 1) {
        var rest := QuoteBody(isPrint, s[1..]) + "\"" + tail;
        assert t[1] == rest[0];
        if |s| > 1 {
          assert rest[0] == QuoteChar(isPrint, s[1], BraceAt(s[1..], 1))[0];
        }
      }
    }
  }

  /** A character outside the template introducers reads back as itself. */
  lemma FirstUnitOfPlain(isPrint: char -> bool, c: char, rest: string)
    requires c != '$' && c != '%'
    ensures var q := QuoteChar(isPrint, c, false);
            |q| > 0 && q[0] != '"' && FirstUnit(q + rest) == Unit([c], |q|)
  {
    var q := QuoteChar(isPrint, c, false);
    var t := q + rest;
    if c !in {'\n', '\r', '\t', '"', '\\'} && !isPrint(c) {
      var width := EscapeWidth(c);
      HexFits();
      HexRoundTrip(c as int, width);
      assert t[2..2 + width] == ToHex(c as int, width);
      assert UnicodeEscape(t[2..2 + width]) == Some(c);
    }
  }

  lemma HexFits()
    ensures Pow16(4) == 65536 && Pow16(8) == 65536 * 65536
  {
    assert Pow16(2) == 256;
    assert Pow16(4) == 16 * Pow16(3) && Pow16(3) == 16 * Pow16(2);
    assert Pow16(6) == 16 * Pow16(5) && Pow16(5) == 16 * Pow16(4);
    assert Pow16(8) == 16 * Pow16(7) && Pow16(7) == 16 * Pow16(6);
  }

  /** An introducer that opens no template reads back as itself. */
  lemma FirstUnitOfLoneIntroducer(isPrint: char -> bool, c: char, s: string, tail: string)
    requires isPrint('{') && (c == '$' || c == '%') && !BraceAt(s, 0)
    ensures FirstUnit([c] + (QuoteBody(isPrint, s) + "\"" + tail)) == Unit([c], 1)
  {
    QuotedStart(isPrint, s, tail, c);
    var rest := QuoteBody(isPrint, s) + "\"" + tail;
    var t := [c] + rest;
    assert t[1] == rest[0] && (|t| >= 3 ==> t[2] == rest[1]);
  }

  /** A printable brace is quoted as itself, whatever follows. */
  lemma QuoteOfBrace(isPrint: char -> bool, s: string)
    requires isPrint('{') && BraceAt(s, 0)
    ensures QuoteBody(isPrint, s) == "{" + QuoteBody(isPrint, s[1..])
  {
  }

  lemma QuoteOfOpening(isPrint: char -> bool, s: string)
    requires s != "" && (s[0] == '$' || s[0] == '%') && BraceAt(s, 1)
    ensures QuoteBody(isPrint, s) == [s[0], s[0]] + QuoteBody(isPrint, s[1..])
  {
  }

  lemma JoinOpening(c: char, rest: string)
    ensures [c, c] + ("{" + rest) == [c, c, '{'] + rest
  {
  }

  /** A doubled introducer and its brace read back as the two characters they escape. */
  lemma QuoteOfIntroducer(isPrint: char -> bool, s: string)
    requires isPrint('{') && |s| >= 2 && (s[0] == '$' || s[0] == '%') && s[1] == '{'
    ensures QuoteBody(isPrint, s) == [s[0], s[0], '{'] + QuoteBody(isPrint, s[2..])
  {
    assert s[1..][1..] == s[2..];
    QuoteOfOpening(isPrint, s);
    QuoteOfBrace(isPrint, s[1..]);
    JoinOpening(s[0], QuoteBody(isPrint, s[2..]));
  }

  lemma FirstUnitOfDoubled(c: char, rest: string)
    requires c == '$' || c == '%'
    ensures FirstUnit([c, c, '{'] + rest) == Unit([c, '{'], 3)
  {
  }

  lemma QuoteOfOther(isPrint: char -> bool, s: string)
    requires s != "" && !((s[0] == '$' || s[0] == '%') && BraceAt(s, 1))
    ensures QuoteBody(isPrint, s) == QuoteChar(isPrint, s[0], false) + QuoteBody(isPrint, s[1..])
  {
  }

  ghost predicate HeadReads(isPrint: char -> bool, s: string, tail: string, k: nat, n: nat) {
    var t := QuoteBody(isPrint, s) + "\"" + tail;
    && 0 < k <= |s| && n <= |t|
    && t[0] != '"' && FirstUnit(t) == Unit(s[..k], n)
    && t[n..] == QuoteBody(isPrint, s[k..]) + "\"" + tail
  }

  /** The first unit of quoted text stands for the first one or two characters quoted. */
  lemma QuotedHead(isPrint: char -> bool, s: string, tail: string) returns (k: nat, n: nat)
    requires isPrint('{') && s != ""
    ensures HeadReads(isPrint, s, tail, k, n)
  {
    var c := s[0];
    var end := "\"" + tail;
    var q;
    if (c == '$' || c == '%') && BraceAt(s, 1) {
      k, q := 2, [c, c, '{'];
      QuoteOfIntroducer(isPrint, s);
      FirstUnitOfDoubled(c, QuoteBody(isPrint, s[k..]) + end);
      assert s[..2] == [c, '{'];
    } else {
      k, q := 1, QuoteChar(isPrint, c, false);
      QuoteOfOther(isPrint, s);
      assert QuoteBody(isPrint, s[1..]) + end == QuoteBody(isPrint, s[1..]) + "\"" + tail;
      if c == '$' || c == '%' {
        FirstUnitOfLoneIntroducer(isPrint, c, s[1..], tail);
      } else {
        FirstUnitOfPlain(isPrint, c, QuoteBody(isPrint, s[1..]) + end);
      }
      assert s[..1] == [c];
    }
    n := |q|;
    SplitText(q, QuoteBody(isPrint, s[k..]), "\"", tail);
  }

  /** Cutting off the front of a text leaves its back. */
  lemma SplitText(front: string, back: string, quote: string, tail: string)
    ensures var t := front + back + quote + tail;
            t == front + (back + (quote + tail)) && t[|front|..] == back + quote + tail
  {
  }

  lemma UnquoteStep(t: string, u: Unit, after: string, text: string, rest: string)
    requires t != "" && t[0] != '"' && u.Unit? && FirstUnit(t) == u
    requires t[u.length..] == after && Unquote(after) == Some((text, rest))
    ensures Unquote(t) == Some((u.value + text, rest))
  {
  }

  lemma UnquoteEnd(tail: string)
    ensures Unquote("" + "\"" + tail) == Some(("", tail))
  {
    assert "" + "\"" + tail == "\"" + tail;
  }

  /** If the rest of the quoted text reads back, so does the whole. */
  lemma HeadReadsStep(isPrint: char -> bool, s: string, tail: string, k: nat, n: nat)
    requires HeadReads(isPrint, s, tail, k, n)
    requires Unquote(QuoteBody(isPrint, s[k..]) + "\"" + tail) == Some((s[k..], tail))
    ensures Unquote(QuoteBody(isPrint, s) + "\"" + tail) == Some((s, tail))
  {
    ReadsOn(QuoteBody(isPrint, s) + "\"" + tail, s, k, n, QuoteBody(isPrint, s[k..]) + "\"" + tail, tail);
  }

  lemma ReadsOn(t: string, s: string, k: nat, n: nat, after: string, tail: string)
    requires 0 < k <= |s| && t != "" && t[0] != '"' && FirstUnit(t) == Unit(s[..k], n)
    requires t[n..] == after && Unquote(after) == Some((s[k..], tail))
    ensures Unquote(t) == Some((s, tail))
  {
    UnquoteStep(t, Unit(s[..k], n), after, s[k..], tail);
    assert s[..k] + s[k..] == s;
  }

  /** Unquoting undoes quoting for every string content and whatever follows the
      closing quote. */
  lemma {:induction false} QuoteRoundTrip(isPrint: char -> bool, s: string, tail: string)
    requires isPrint('{')
    ensures Unquote(QuoteBody(isPrint, s) + "\"" + tail) == Some((s, tail))
    decreases |s|
  {
    if s == "" {
      UnquoteEnd(tail);
    } else {
      var k, n := QuotedHead(isPrint, s, tail);
      QuoteRoundTrip(isPrint, s[k..], tail);
      HeadReadsStep(isPrint, s, tail, k, n);
    }
  }

  /** The assumption that `{` is printable is necessary: without it the doubled introducer is
      followed by a `\u` escape and the string gains a character. */
  lemma BraceMustPrint(isPrint: char -> bool)
    requires !isPrint('{')
    ensures Unquote(QuoteBody(isPrint, "${") + "\"") != Some(("${", ""))
  {
    assert QuoteBody(isPrint, "{") == "\\u" + ToHex('{' as int, 4) by {
      assert "{"[1..] == "";
    }
    var rest := "\\u" + ToHex('{' as int, 4) + "\"";
    assert "${"[1..] == "{";
    var t := QuoteBody(isPrint, "${") + "\"";
    assert t == "$$" + rest;
    assert FirstUnit(t) == Unit("$", 1);
    var t1 := t[1..];
    assert t1 == "$" + rest;
    assert FirstUnit(t1) == Unit("$", 1);
    if Unquote(t).Some? {
      assert Unquote(t1).Some? && Unquote(t).value.0 == "$" + Unquote(t1).value.0;
      assert Unquote(t1).value.0[0] == '$';
      assert Unquote(t).value.0[1] == '$';
    }
  }

  // ---------------------------------------------------------------- shortest text

  /** The first `n` characters of a text are printable, and none is a tab. */
  predicate PlainUpTo(isPrint: char -> bool, t: string, n: int) {
    forall i :: 0 <= i < n && i < |t| ==> isPrint(t[i]) && t[i] != '\t'
  }

  /** The characters every terminal prints. */
  predicate PrintsAscii(isPrint: char -> bool) {
    forall c :: ' ' <= c <= '~' ==> isPrint(c)
  }

  lemma {:induction false} HexIsLowerCase(n: nat, width: nat)
    ensures forall i :: 0 <= i < width ==> ToHex(n, width)[i] in "0123456789abcdef"
  {
    if width > 0 {
      HexIsLowerCase(n / 16, width - 1);
    }
  }

  /** Quoting prints nothing unprintable. */
  lemma {:induction false} QuotedIsPlain(isPrint: char -> bool, s: string)
    requires PrintsAscii(isPrint)
    ensures PlainUpTo(isPrint, QuoteBody(isPrint, s), |QuoteBody(isPrint, s)|)
  {
    if s != "" {
      QuotedCharIsPlain(isPrint, s[0], BraceAt(s, 1));
      QuotedIsPlain(isPrint, s[1..]);
    }
  }

  lemma QuotedCharIsPlain(isPrint: char -> bool, c: char, beforeBrace: bool)
    requires PrintsAscii(isPrint)
    ensures var q := QuoteChar(isPrint, c, beforeBrace); PlainUpTo(isPrint, q, |q|)
  {
    HexIsLowerCase(c as int, EscapeWidth(c));
  }

  /** What a brace can save: written as itself it may turn the character before it into an opening. */
  function EscapedBrace(s: string, t: string): nat {
    if BraceAt(s, 0) && !BraceAt(t, 0) then 1 else 0
  }

  lemma {:induction false} HexBelow(s: string)
    ensures FromHex(s).Some? ==> FromHex(s).value < Pow16(|s|)
  {
    if s != "" {
      HexBelow(s[..|s| - 1]);
    }
  }

  lemma QuotedLength(isPrint: char -> bool, v: string)
    requires v != ""
    ensures |QuoteBody(isPrint, v)| == |QuoteChar(isPrint, v[0], BraceAt(v, 1))| + |QuoteBody(isPrint, v[1..])|
  {
  }

  /** A unit takes no fewer characters than quoting what it stands for. */
  lemma UnitIsNoShorter(isPrint: char -> bool, t: string, u: Unit, s: string)
    requires isPrint('{') && t != "" && t[0] != '"' && u == FirstUnit(t) && u.Unit? && PlainUpTo(isPrint, t, u.length)
    ensures |QuoteBody(isPrint, u.value + s)| + EscapedBrace(u.value + s, t) <=
              u.length + EscapedBrace(s, t[u.length..]) + |QuoteBody(isPrint, s)|
  {
    var v := u.value + s;
    assert u.value != "" && v[0] == u.value[0];
    if |u.value| == 2 {
      assert v == [v[0], '{'] + s && v[2..] == s;
      QuoteOfIntroducer(isPrint, v);
    } else {
      assert v[1..] == s;
      QuotedLength(isPrint, v);
      if u.length == 6 {
        HexBelow(t[2..6]);
        HexFits();
      }
    }
  }

  /** No text of printable characters that reads as a string is shorter than the quoted one: nothing
      is escaped that need not be, and no escape is longer than it has to be. */
  lemma {:induction false} QuotedIsShortest(isPrint: char -> bool, t: string, s: string, rest: string)
    requires isPrint('{') && Unquote(t) == Some((s, rest)) && PlainUpTo(isPrint, t, |t| - |rest| - 1)
    ensures |QuoteBody(isPrint, s)| + EscapedBrace(s, t) + 1 + |rest| <= |t|
    decreases |t|
  {
    if t[0] != '"' {
      var u := FirstUnit(t);
      var later := Unquote(t[u.length..]).value.0;
      QuotedIsShortest(isPrint, t[u.length..], later, rest);
      UnitIsNoShorter(isPrint, t, u, later);
    }
  }

  // ---------------------------------------------------------------- decimal

  predicate IsDigit(c: char) {
    '0' <= c <= '9'
  }

  function DigitChar(d: int): (c: char)
    requires 0 <= d < 10
    ensures IsDigit(c) && c as int - '0' as int == d
  {
    ('0' as int + d) as char
  }

  /** `%d` for a non-negative number. */
  function Decimal(n: nat): (s: string)
    ensures |s| > 0 && forall i :: 0 <= i < |s| ==> IsDigit(s[i])
  {
    if n < 10 then [DigitChar(n)] else Decimal(n / 10) + [DigitChar(n % 10)]
  }

  function FromDecimal(s: string): nat
    requires forall i :: 0 <= i < |s| ==> IsDigit(s[i])
  {
    if s == "" then 0
    else
      var low := s[|s| - 1];
      assert IsDigit(low);
      FromDecimal(s[..|s| - 1]) * 10 + (low as int - '0' as int)
  }

  lemma {:induction false} DecimalRoundTrip(n: nat)
    ensures FromDecimal(Decimal(n)) == n
  {
    var s := Decimal(n);
    if n >= 10 {
      assert s[..|s| - 1] == Decimal(n / 10);
      DecimalRoundTrip(n / 10);
    } else {
      assert s[..0] == "";
    }
  }

  predicate Digits(s: string) {
    s != "" && forall i :: 0 <= i < |s| ==> IsDigit(s[i])
  }

  /** Of the digit texts of a number the decimal one is the shortest, the only one without a leading
      zero. */
  lemma {:induction false} DecimalIsShortest(s: string)
    requires Digits(s)
    ensures var d := Decimal(FromDecimal(s));
            |d| <= |s| && (d == s <==> |s| == 1 || s[0] != '0')
  {
    var front, low := s[..|s| - 1], s[|s| - 1];
    assert IsDigit(low);
    if front == "" {
      assert s == [low];
      assert FromDecimal(front) == 0;
    } else {
      DecimalIsShortest(front);
      assert front[0] == s[0] && s == front + [low];
    }
  }

  /** `%d` for any int. */
  function DecimalInt(n: int): string {
    if n < 0 then "-" + Decimal(-n) else Decimal(n)
  }

  /** The number a text of digits after an optional minus sign stands for. */
  function ReadInt(s: string): Option<int> {
    if Digits(s) then Some(FromDecimal(s))
    else if s != "" && s[0] == '-' && Digits(s[1..]) then Some(0 - FromDecimal(s[1..]))
    else None
  }

  lemma ReadIntSigned(s: string)
    requires Digits(s)
    ensures ReadInt(s) == Some(FromDecimal(s)) && ReadInt("-" + s) == Some(0 - FromDecimal(s)) && !Digits("-" + s)
  {
    var t := "-" + s;
    assert t[1..] == s && !IsDigit(t[0]);
  }

  /** The text of an int reads back. */
  lemma IntTextReadsBack(n: int)
    ensures ReadInt(DecimalInt(n)) == Some(n)
  {
    var size: nat := if n < 0 then -n else n;
    DecimalRoundTrip(size);
    ReadIntSigned(Decimal(size));
  }

  lemma OneDigit(s: string)
    requires Digits(s)
    ensures |s| == 1 ==> (FromDecimal(s) == 0 <==> s[0] == '0')
    ensures Decimal(0) == "0"
  {
    assert IsDigit(s[0]) && FromDecimal("") == 0;
  }

  lemma SameAfterSign(a: string, b: string)
    ensures "-" + a == "-" + b <==> a == b
  {
    assert ("-" + a)[1..] == a && ("-" + b)[1..] == b;
  }

  /** Of the texts of an int the printed one is the shortest, the only one without a leading zero or a
      sign before zero. */
  lemma IntTextIsShortest(s: string)
    requires ReadInt(s).Some?
    ensures var d := DecimalInt(ReadInt(s).value);
            && |d| <= |s|
            && (d == s <==> if Digits(s) then |s| == 1 || s[0] != '0' else s[1] != '0')
  {
    if Digits(s) {
      DecimalIsShortest(s);
    } else {
      var digits := s[1..];
      assert s == "-" + digits;
      DecimalIsShortest(digits);
      OneDigit(digits);
      SameAfterSign(Decimal(FromDecimal(digits)), digits);
    }
  }
}
