/** The per-page --query guard (live/awspagequery.go). The regular expressions are abstract: a
    `Scanner` supplies their matches as ordered, non-overlapping positions. */
module PageQueries {
  import opened Addresses
  import Ordering

  // ---------------------------------------------------------------- logical lines

  datatype LogicalLine = LogicalLine(start: nat, text: string)

  /** `^\s*#` */
  predicate IsComment(line: string) {
    line != "" && (line[0] == '#' || (line[0] in " \t\n\r\U{0c}" && IsComment(line[1..])))
  }

  /** strings.TrimRight(line, " \t") */
  function TrimRight(line: string): (r: string)
    ensures r <= line
  {
    if line != "" && line[|line| - 1] in " \t" then TrimRight(line[..|line| - 1]) else line
  }

  /** Whole-line comments are blanked before anything else. */
  function Blanked(raw: string): string {
    if IsComment(raw) then "" else raw
  }

  /** A physical line as the loop sees it: what it adds to its logical line, and whether the next
      line goes on with it. */
  datatype Physical = Physical(piece: string, more: bool)

  /** A line goes on when it ends in a backslash, up to trailing blanks; the backslash becomes a
      space. */
  function Read(raw: string): (r: Physical)
    ensures r.more ==> r.piece != ""
  {
    var t := TrimRight(Blanked(raw));
    if t != "" && t[|t| - 1] == '\\' then Physical(t[..|t| - 1] + " ", true) else Physical(Blanked(raw), false)
  }

  function ReadAll(raws: seq<string>): (r: seq<Physical>)
    ensures |r| == |raws|
  {
    seq(|raws|, i requires 0 <= i < |raws| => Read(raws[i]))
  }

  function RunText(lines: seq<Physical>, from: nat, to: nat): string
    requires from <= to <= |lines|
  {
    if from == to then "" else RunText(lines, from, to - 1) + lines[to - 1].piece
  }

  /** The end of the run that starts at `i`: just past the first line that does not continue. */
  function RunEnd(lines: seq<Physical>, i: nat): (e: nat)
    requires i < |lines|
    ensures i < e <= |lines|
    decreases |lines| - i
  {
    if i + 1 == |lines| || !lines[i].more then i + 1 else RunEnd(lines, i + 1)
  }

  function Logical(lines: seq<Physical>, i: nat): seq<LogicalLine>
    requires i <= |lines|
    decreases |lines| - i
  {
    if i == |lines| then []
    else [LogicalLine(i + 1, RunText(lines, i, RunEnd(lines, i)))] + Logical(lines, RunEnd(lines, i))
  }

  lemma {:induction false} RunEndAt(lines: seq<Physical>, i: nat, e: nat)
    requires i < e <= |lines|
    requires forall j :: i <= j < e - 1 ==> lines[j].more
    requires e == |lines| || !lines[e - 1].more
    ensures RunEnd(lines, i) == e
    decreases e - i
  {
    if i + 1 < e {
      RunEndAt(lines, i + 1, e);
    }
  }

  /** Closing the run from `p` to `e` extends what has been produced so far. */
  lemma LogicalCons(lines: seq<Physical>, out: seq<LogicalLine>, p: nat, e: nat, text: string)
    requires p < e <= |lines| && text == RunText(lines, p, e)
    requires forall j :: p <= j < e - 1 ==> lines[j].more
    requires e == |lines| || !lines[e - 1].more
    requires Logical(lines, 0) == out + Logical(lines, p)
    ensures Logical(lines, 0) == (out + [LogicalLine(p + 1, text)]) + Logical(lines, e)
  {
    RunEndAt(lines, p, e);
    assert Logical(lines, p) == [LogicalLine(p + 1, text)] + Logical(lines, e);
    ConcatAssociative(out, [LogicalLine(p + 1, text)], Logical(lines, e));
  }

  lemma ConcatAssociative<T>(a: seq<T>, b: seq<T>, c: seq<T>)
    ensures (a + b) + c == a + (b + c)
  {
  }

  /** The state of the logicalLines loop before line `i`: the output so far, and a buffer holding
      the unfinished run that starts at `p`. */
  ghost predicate Building(lines: seq<Physical>, out: seq<LogicalLine>, p: nat, i: nat, buf: string) {
    && p <= i <= |lines|
    && (forall j :: p <= j < i ==> lines[j].more)
    && buf == RunText(lines, p, i)
    && (buf == "" <==> p == i)
    && Logical(lines, 0) == out + Logical(lines, p)
  }

  lemma BuildingStep(lines: seq<Physical>, out: seq<LogicalLine>, p: nat, i: nat, buf: string)
    requires Building(lines, out, p, i, buf) && i < |lines|
    requires lines[i].more ==> lines[i].piece != ""
    ensures var text := buf + lines[i].piece;
            if lines[i].more then Building(lines, out, p, i + 1, text)
            else Building(lines, out + [LogicalLine(p + 1, text)], i + 1, i + 1, "")
  {
    var text := buf + lines[i].piece;
    assert RunText(lines, p, i + 1) == text;
    if !lines[i].more {
      LogicalCons(lines, out, p, i + 1, text);
    }
  }

  /** The part of the logicalLines loop that looks at one line. */
  method ReadLine(raw: string) returns (r: Physical)
    ensures r == Read(raw)
  {
    var line := raw;
    if IsComment(line) {
      line := "";
    }
    var trimmed := TrimRight(line);
    if |trimmed| > 0 && trimmed[|trimmed| - 1] == '\\' {
      return Physical(trimmed[..|trimmed| - 1] + " ", true);
    }
    return Physical(line, false);
  }

  method ReadLines(raws: seq<string>) returns (lines: seq<Physical>)
    ensures lines == ReadAll(raws)
  {
    lines := [];
    for i := 0 to |raws|
      invariant lines == ReadAll(raws)[..i]
    {
      var line := ReadLine(raws[i]);
      lines := lines + [line];
    }
  }

  /** A continued line leaves at least the blank that joins it to the next one. */
  ghost predicate ContinuedNotEmpty(lines: seq<Physical>) {
    forall j :: 0 <= j < |lines| && lines[j].more ==> lines[j].piece != ""
  }

  /** The buffer loop of logicalLines. */
  method Assemble(lines: seq<Physical>) returns (out: seq<LogicalLine>)
    requires ContinuedNotEmpty(lines)
    ensures out == Logical(lines, 0)
  {
    out := [];
    var buf, start := "", 0;
    ghost var p := 0;  // the first physical line of the logical line under construction
    for i := 0 to |lines|
      invariant Building(lines, out, p, i, buf)
      invariant p < i ==> start == p + 1
    {
      if |buf| == 0 {
        start := i + 1;
      }
      BuildingStep(lines, out, p, i, buf);
      buf := buf + lines[i].piece;
      if !lines[i].more {
        out := out + [LogicalLine(start, buf)];
        buf := "";
        p := i + 1;
      }
    }
    if |buf| > 0 {
      LogicalCons(lines, out, p, |lines|, buf);
      out := out + [LogicalLine(start, buf)];
    }
    assert Logical(lines, |lines|) == [];
  }

  /** logicalLines, on the physical lines of the script. */
  method LogicalLines(raws: seq<string>) returns (out: seq<LogicalLine>)
    ensures out == Logical(ReadAll(raws), 0)
  {
    var lines := ReadLines(raws);
    out := Assemble(lines);
  }

  /** The physical line after the last one of logical line `k`. */
  function LineEnd(lines: seq<Physical>, out: seq<LogicalLine>, k: nat): int
    requires k < |out|
  {
    if k + 1 < |out| then out[k + 1].start - 1 else |lines|
  }

  /** The run from `b` to `e` goes on exactly up to `e`, and has the given text. */
  ghost predicate RunOf(lines: seq<Physical>, b: int, e: int, text: string) {
    && 0 <= b < e <= |lines|
    && text == RunText(lines, b, e)
    && (forall j :: b <= j < e - 1 ==> lines[j].more)
    && (e < |lines| ==> !lines[e - 1].more)
  }

  /** `out` splits the physical lines from `i` on into consecutive runs. */
  ghost predicate Partition(lines: seq<Physical>, i: nat, out: seq<LogicalLine>) {
    && (out == [] <==> i == |lines|)
    && (out != [] ==> out[0].start == i + 1)
    && forall k :: 0 <= k < |out| ==> RunAt(lines, out, k)
  }

  ghost predicate RunAt(lines: seq<Physical>, out: seq<LogicalLine>, k: nat)
    requires k < |out|
  {
    RunOf(lines, out[k].start - 1, LineEnd(lines, out, k), out[k].text)
  }

  lemma {:induction false} RunEndStops(lines: seq<Physical>, i: nat)
    requires i < |lines|
    ensures var e := RunEnd(lines, i);
            && (forall j :: i <= j < e - 1 ==> lines[j].more)
            && (e < |lines| ==> !lines[e - 1].more)
    decreases |lines| - i
  {
    if i + 1 < |lines| && lines[i].more {
      RunEndStops(lines, i + 1);
    }
  }

  /** Logical lines partition the physical lines: runs are consecutive, start at the recorded line,
      and end exactly where a line does not continue. */
  lemma {:induction false} LogicalPartitions(lines: seq<Physical>, i: nat)
    requires i <= |lines|
    ensures Partition(lines, i, Logical(lines, i))
    decreases |lines| - i
  {
    if i < |lines| {
      var e := RunEnd(lines, i);
      RunEndStops(lines, i);
      LogicalPartitions(lines, e);
      PartitionCons(lines, i, e, RunText(lines, i, e), Logical(lines, e));
    }
  }

  lemma PartitionCons(lines: seq<Physical>, i: nat, e: nat, text: string, rest: seq<LogicalLine>)
    requires RunOf(lines, i, e, text) && Partition(lines, e, rest)
    ensures Partition(lines, i, [LogicalLine(i + 1, text)] + rest)
  {
    var head := LogicalLine(i + 1, text);
    var out := [head] + rest;
    forall k | 0 <= k < |out| ensures RunAt(lines, out, k) {
      if k > 0 {
        assert RunAt(lines, rest, k - 1);
        RunAtShift(lines, head, rest, k);
      }
    }
  }

  lemma RunAtShift(lines: seq<Physical>, head: LogicalLine, rest: seq<LogicalLine>, k: nat)
    requires 0 < k <= |rest| && RunAt(lines, rest, k - 1)
    ensures RunAt(lines, [head] + rest, k)
  {
    var out := [head] + rest;
    assert out[k] == rest[k - 1] && (k + 1 < |out| ==> out[k + 1] == rest[k]);
  }

  function AllText(out: seq<LogicalLine>): string {
    if out == [] then "" else out[0].text + AllText(out[1..])
  }

  lemma {:induction false} RunTextSplits(lines: seq<Physical>, a: nat, b: nat, c: nat)
    requires a <= b <= c <= |lines|
    ensures RunText(lines, a, c) == RunText(lines, a, b) + RunText(lines, b, c)
    decreases c - b
  {
    if b < c {
      RunTextSplits(lines, a, b, c - 1);
    }
  }

  /** No text is lost or repeated: the logical lines together are the pieces of all physical
      lines in order. */
  lemma {:induction false} LogicalKeepsText(lines: seq<Physical>, i: nat)
    requires i <= |lines|
    ensures AllText(Logical(lines, i)) == RunText(lines, i, |lines|)
    decreases |lines| - i
  {
    if i < |lines| {
      var e := RunEnd(lines, i);
      LogicalKeepsText(lines, e);
      RunTextSplits(lines, i, e, |lines|);
      assert Logical(lines, i)[1..] == Logical(lines, e);
    }
  }

  // ---------------------------------------------------------------- call sites

  /** A command word: where the word starts and ends. */
  datatype CommandWord = CommandWord(from: nat, to: nat)

  /** A --query: where the flag starts, and where its argument lies. */
  datatype QueryMatch = QueryMatch(at: nat, argFrom: nat, argTo: nat)

  datatype Scanner = Scanner(
    starts: string -> seq<CommandWord>,
    queries: string -> seq<QueryMatch>,
    tokens: string -> seq<string>,
    cliWord: string -> bool,
    reducing: string -> bool,
    flagsWithValue: set<string>,
    flagsWithoutValue: set<string>)
  {
    /** Matches are in range and in order, words are not empty, and a --query match needs the text
        `--query`. */
    ghost predicate Valid() {
      && (forall text: string :: WordsInOrder(starts(text), |text|))
      && (forall text: string, k :: 0 <= k < |queries(text)| ==>
            var q := queries(text)[k]; q.at <= q.argFrom <= q.argTo <= |text| && q.at < |text|)
      && (forall text: string :: !Contains(text, "--query") ==> queries(text) == [])
      && !cliWord("")
    }
  }

  predicate WordsInOrder(words: seq<CommandWord>, n: nat) {
    && (forall i :: 0 <= i < |words| ==> words[i].from <= words[i].to <= n)
    && (forall i, j :: 0 <= i < j < |words| ==> words[i].to <= words[j].from)
    && (forall i, j :: 0 <= i < j < |words| ==> words[i].from < words[j].from)
  }

  predicate Contains(s: string, sub: string) {
    sub <= s || (s != "" && Contains(s[1..], sub))
  }

  /** The AWS CLI's global options, a closed set. */
  const FLAGS_WITH_VALUE: set<string> := {
    "--endpoint-url", "--output", "--query", "--profile", "--region", "--color", "--ca-bundle",
    "--cli-read-timeout", "--cli-connect-timeout", "--cli-binary-format"
  }

  const FLAGS_WITHOUT_VALUE: set<string> := {
    "--debug", "--no-verify-ssl", "--no-paginate", "--no-sign-request", "--no-cli-pager",
    "--cli-auto-prompt", "--no-cli-auto-prompt", "--version"
  }

  predicate WordChar(c: char) {
    'a' <= c <= 'z' || '0' <= c <= '9'
  }

  /** `^[a-z0-9][a-z0-9-]*$` */
  predicate CliWord(tok: string) {
    tok != "" && WordChar(tok[0]) && forall i :: 0 <= i < |tok| ==> WordChar(tok[i]) || tok[i] == '-'
  }

  /** The scanner for AWS CLI calls; the other regular expressions stay abstract. */
  function AwsScanner(
      starts: string -> seq<CommandWord>, queries: string -> seq<QueryMatch>, tokens: string -> seq<string>,
      reducing: string -> bool): Scanner
  {
    Scanner(starts, queries, tokens, CliWord, reducing, FLAGS_WITH_VALUE, FLAGS_WITHOUT_VALUE)
  }

  datatype Invocation = Invocation(service: string, operation: string) | Unreadable

  /** How many tokens an option takes up before the service and operation have both been read, or
      None when it is not a global option. */
  function OptionWidth(sc: Scanner, tok: string): (n: Option<nat>)
    ensures n.Some? ==> n.value > 0
  {
    if '=' in tok then Some(1)
    else if tok in sc.flagsWithValue then Some(2)
    else if tok in sc.flagsWithoutValue then Some(1)
    else None
  }

  predicate BareOption(f: string) {
    "-" <= f && '=' !in f
  }

  lemma OptionsWithValueAreBare(f: string)
    requires f in FLAGS_WITH_VALUE
    ensures BareOption(f)
  {
  }

  lemma OptionsWithoutValueAreBare(f: string)
    requires f in FLAGS_WITHOUT_VALUE
    ensures BareOption(f) && f !in FLAGS_WITH_VALUE
  {
  }

  /** The service and operation in what follows a command word, from token `i` on. */
  function ReadInvocation(sc: Scanner, tokens: seq<string>, i: nat, service: string): Invocation
    decreases |tokens| - i
  {
    if i >= |tokens| then Unreadable
    else
      var tok := tokens[i];
      if "-" <= tok then
        match OptionWidth(sc, tok)
        case Some(n) => ReadInvocation(sc, tokens, i + n, service)
        case None => Unreadable
      else if !sc.cliWord(tok) then Unreadable
      else if service == "" then ReadInvocation(sc, tokens, i + 1, tok)
      else Invocation(service, tok)
  }

  // ---------------------------------------------------------------- the grammar of a call

  /** A global option as the tokens spell it: alone, before its value, or with the value attached. */
  datatype GlobalOption = Flag(name: string) | WithValue(name: string, value: string) | Attached(text: string) {
    predicate In(sc: Scanner) {
      match this
      case Flag(n) => n in sc.flagsWithoutValue
      case WithValue(n, _) => n in sc.flagsWithValue
      case Attached(t) => "-" <= t && '=' in t
    }

    function Tokens(): seq<string> {
      match this
      case Flag(n) => [n]
      case WithValue(n, v) => [n, v]
      case Attached(t) => [t]
    }
  }

  predicate AllIn(sc: Scanner, os: seq<GlobalOption>) {
    forall i :: 0 <= i < |os| ==> os[i].In(sc)
  }

  function TokensOf(os: seq<GlobalOption>): seq<string> {
    if os == [] then [] else os[0].Tokens() + TokensOf(os[1..])
  }

  /** No option has a value attached or is on both lists, and no command word looks like an option. */
  ghost predicate OptionsClosed(sc: Scanner) {
    && (forall f :: f in sc.flagsWithValue ==> BareOption(f))
    && (forall f :: f in sc.flagsWithoutValue ==> BareOption(f) && f !in sc.flagsWithValue)
    && (forall w :: sc.cliWord(w) ==> w != "" && !("-" <= w))
  }

  lemma AwsOptionsClosed(sc: Scanner)
    requires sc == AwsScanner(sc.starts, sc.queries, sc.tokens, sc.reducing)
    ensures OptionsClosed(sc)
  {
    forall f | f in sc.flagsWithValue ensures BareOption(f) {
      OptionsWithValueAreBare(f);
    }
    forall f | f in sc.flagsWithoutValue ensures BareOption(f) && f !in sc.flagsWithValue {
      OptionsWithoutValueAreBare(f);
    }
  }

  /** Reading from a position is reading what is left there. */
  lemma {:induction false} ReadShift(sc: Scanner, tokens: seq<string>, i: nat, k: nat, service: string)
    requires k <= i
    ensures k <= |tokens| ==> ReadInvocation(sc, tokens, i, service) == ReadInvocation(sc, tokens[k..], i - k, service)
    decreases |tokens| - i
  {
    if k <= |tokens| && i < |tokens| {
      var tok := tokens[i];
      assert tokens[k..][i - k] == tok;
      if "-" <= tok {
        if OptionWidth(sc, tok).Some? {
          ReadShift(sc, tokens, i + OptionWidth(sc, tok).value, k, service);
        }
      } else if service == "" {
        ReadShift(sc, tokens, i + 1, k, tok);
      }
    }
  }

  lemma OptionSkipped(sc: Scanner, o: GlobalOption, rest: seq<string>, service: string)
    requires OptionsClosed(sc) && o.In(sc)
    ensures ReadInvocation(sc, o.Tokens() + rest, 0, service) == ReadInvocation(sc, rest, 0, service)
  {
    var n := |o.Tokens()|;
    var tokens := o.Tokens() + rest;
    assert tokens[n..] == rest && tokens[0] == o.Tokens()[0];
    assert OptionWidth(sc, tokens[0]) == Some(n);
    ReadShift(sc, tokens, n, n, service);
  }

  /** Global options are transparent: however many there are, what follows is read as if they were not
      there, before the service and between it and the operation. */
  lemma {:induction false} OptionsSkipped(sc: Scanner, os: seq<GlobalOption>, rest: seq<string>, service: string)
    requires OptionsClosed(sc) && AllIn(sc, os)
    ensures ReadInvocation(sc, TokensOf(os) + rest, 0, service) == ReadInvocation(sc, rest, 0, service)
    decreases |os|
  {
    if os == [] {
      assert TokensOf(os) + rest == rest;
    } else {
      ConcatAssociative(os[0].Tokens(), TokensOf(os[1..]), rest);
      OptionSkipped(sc, os[0], TokensOf(os[1..]) + rest, service);
      OptionsSkipped(sc, os[1..], rest, service);
    }
  }

  lemma WordRead(sc: Scanner, word: string, rest: seq<string>, service: string)
    requires OptionsClosed(sc) && sc.cliWord(word)
    ensures ReadInvocation(sc, [word] + rest, 0, service) ==
            if service == "" then ReadInvocation(sc, rest, 0, word) else Invocation(service, word)
  {
    assert ([word] + rest)[1..] == rest;
    ReadShift(sc, [word] + rest, 1, 1, word);
  }

  /** `[options] service [options] operation ...` */
  predicate CallTokens(
      sc: Scanner, tokens: seq<string>, inv: Invocation,
      before: seq<GlobalOption>, between: seq<GlobalOption>, rest: seq<string>)
  {
    && inv.Invocation? && sc.cliWord(inv.service) && sc.cliWord(inv.operation)
    && AllIn(sc, before) && AllIn(sc, between)
    && tokens == TokensOf(before) + ([inv.service] + (TokensOf(between) + ([inv.operation] + rest)))
  }

  ghost predicate IsCall(sc: Scanner, tokens: seq<string>, inv: Invocation) {
    exists before, between, rest :: CallTokens(sc, tokens, inv, before, between, rest)
  }

  /** The options in front of the next command word. */
  lemma {:induction false} SplitAtWord(sc: Scanner, tokens: seq<string>, service: string)
    returns (os: seq<GlobalOption>, word: string, rest: seq<string>)
    requires OptionsClosed(sc) && ReadInvocation(sc, tokens, 0, service).Invocation?
    ensures AllIn(sc, os) && sc.cliWord(word) && tokens == TokensOf(os) + ([word] + rest)
    decreases |tokens|
  {
    var tok := tokens[0];
    if "-" <= tok {
      var n := OptionWidth(sc, tok).value;
      assert n <= |tokens|;
      ReadShift(sc, tokens, n, n, service);
      os, word, rest := SplitAtWord(sc, tokens[n..], service);
      var o := if '=' in tok then Attached(tok) else if n == 2 then WithValue(tok, tokens[1]) else Flag(tok);
      assert o.Tokens() == tokens[..n];
      assert ([o] + os)[1..] == os;
      ConcatAssociative(o.Tokens(), TokensOf(os), [word] + rest);
      assert tokens == tokens[..n] + tokens[n..];
      os := [o] + os;
    } else {
      os, word, rest := [], tok, tokens[1..];
      assert tokens == [tok] + rest == TokensOf([]) + ([tok] + rest);
    }
  }

  /** The token loop accepts exactly the calls the grammar describes, and reads the service and the
      operation where the grammar puts them. */
  lemma ReadsExactlyCalls(sc: Scanner, tokens: seq<string>, inv: Invocation)
    requires OptionsClosed(sc) && inv.Invocation?
    ensures ReadInvocation(sc, tokens, 0, "") == inv <==> IsCall(sc, tokens, inv)
  {
    if IsCall(sc, tokens, inv) {
      var before, between, rest :| CallTokens(sc, tokens, inv, before, between, rest);
      CallIsRead(sc, tokens, inv, before, between, rest);
    }
    if ReadInvocation(sc, tokens, 0, "") == inv {
      var before, service, more := SplitAtWord(sc, tokens, "");
      OptionsSkipped(sc, before, [service] + more, "");
      WordRead(sc, service, more, "");
      var between, operation, rest := SplitAtWord(sc, more, service);
      CallIsRead(sc, tokens, Invocation(service, operation), before, between, rest);
      assert CallTokens(sc, tokens, inv, before, between, rest);
    }
  }

  lemma CallIsRead(
      sc: Scanner, tokens: seq<string>, inv: Invocation,
      before: seq<GlobalOption>, between: seq<GlobalOption>, rest: seq<string>)
    requires OptionsClosed(sc) && CallTokens(sc, tokens, inv, before, between, rest)
    ensures ReadInvocation(sc, tokens, 0, "") == inv
  {
    var end := [inv.operation] + rest;
    OptionsSkipped(sc, before, [inv.service] + (TokensOf(between) + end), "");
    WordRead(sc, inv.service, TokensOf(between) + end, "");
    OptionsSkipped(sc, between, end, inv.service);
    WordRead(sc, inv.operation, rest, inv.service);
  }

  method ParseInvocation(sc: Scanner, rest: string) returns (r: Invocation)
    requires sc.Valid()
    ensures r == ReadInvocation(sc, sc.tokens(rest), 0, "")
  {
    var tokens := sc.tokens(rest);
    var service, operation := "", "";
    var i := 0;
    while i < |tokens|
      invariant operation == ""
      invariant ReadInvocation(sc, tokens, 0, "") == ReadInvocation(sc, tokens, i, service)
      decreases |tokens| - i
    {
      var tok := tokens[i];
      if "-" <= tok {
        if '=' in tok {
          i := i + 1;
        } else if tok in sc.flagsWithValue {
          i := i + 2;
        } else if tok in sc.flagsWithoutValue {
          i := i + 1;
        } else {
          return Unreadable;
        }
        continue;
      }
      if !sc.cliWord(tok) {
        return Unreadable;
      }
      if service == "" {
        service := tok;
        i := i + 1;
        continue;
      }
      return Invocation(service, tok);
    }
    return Unreadable;
  }

  lemma {:induction false} InvocationNames(sc: Scanner, tokens: seq<string>, i: nat, service: string)
    requires sc.Valid() && (service == "" || (sc.cliWord(service) && service in tokens))
    ensures var r := ReadInvocation(sc, tokens, i, service);
            r.Invocation? ==>
              && sc.cliWord(r.service) && sc.cliWord(r.operation)
              && r.service != "" && r.operation != ""
              && r.service in tokens && r.operation in tokens
    decreases |tokens| - i
  {
    if i < |tokens| {
      var tok := tokens[i];
      if "-" <= tok {
        if OptionWidth(sc, tok).Some? {
          InvocationNames(sc, tokens, i + OptionWidth(sc, tok).value, service);
        }
      } else if sc.cliWord(tok) && service == "" {
        InvocationNames(sc, tokens, i + 1, tok);
      }
    }
  }

  /** AWSQueryUse; an unattributed use has no service. */
  datatype Use = Use(line: nat, service: string, operation: string, query: string, reducing: bool)

  function Unquote(s: string): string {
    if |s| >= 2 && ((s[0] == '"' && s[|s| - 1] == '"') || (s[0] == '\'' && s[|s| - 1] == '\''))
    then s[1..|s| - 1]
    else s
  }

  /** The text a command word owns: from after the word to the next command word. */
  function Tail(sc: Scanner, text: string, i: nat): string
    requires i < |sc.starts(text)| && WordsInOrder(sc.starts(text), |text|)
  {
    var words := sc.starts(text);
    text[words[i].to..if i + 1 < |words| then words[i + 1].from else |text|]
  }

  /** The nearest command word at or before a position. */
  function Owner(words: seq<CommandWord>, at: nat): (r: Option<nat>)
    ensures match r
            case Some(i) => i < |words| && words[i].from <= at && forall j :: i < j < |words| ==> at < words[j].from
            case None => forall j :: 0 <= j < |words| ==> at < words[j].from
  {
    if words == [] then None
    else if words[|words| - 1].from <= at then Some(|words| - 1)
    else Owner(words[..|words| - 1], at)
  }

  /** The invocation a --query belongs to. */
  function Attributed(sc: Scanner, text: string, at: nat): Invocation
    requires WordsInOrder(sc.starts(text), |text|)
  {
    match Owner(sc.starts(text), at)
    case Some(i) => ReadInvocation(sc, sc.tokens(Tail(sc, text, i)), 0, "")
    case None => Unreadable
  }

  predicate InRange(q: QueryMatch, text: string) {
    q.at <= q.argFrom <= q.argTo <= |text| && q.at < |text|
  }

  function UseOf(sc: Scanner, ll: LogicalLine, q: QueryMatch): Use
    requires WordsInOrder(sc.starts(ll.text), |ll.text|) && InRange(q, ll.text)
  {
    var query := Unquote(ll.text[q.argFrom..q.argTo]);
    match Attributed(sc, ll.text, q.at)
    case Invocation(s, o) => Use(ll.start, s, o, query, sc.reducing(query))
    case Unreadable => Use(ll.start, "", "", query, sc.reducing(query))
  }

  ghost predicate Scannable(sc: Scanner, text: string) {
    && WordsInOrder(sc.starts(text), |text|)
    && forall k :: 0 <= k < |sc.queries(text)| ==> InRange(sc.queries(text)[k], text)
  }

  /** One use per --query match of a logical line, in order. */
  ghost function LineUses(sc: Scanner, ll: LogicalLine): (r: seq<Use>)
    requires Scannable(sc, ll.text)
    ensures |r| == |sc.queries(ll.text)|
  {
    seq(|sc.queries(ll.text)|, k requires 0 <= k < |sc.queries(ll.text)| => UseOf(sc, ll, sc.queries(ll.text)[k]))
  }

  ghost function UsesOf(sc: Scanner, lls: seq<LogicalLine>): seq<Use>
    requires sc.Valid()
  {
    if lls == [] then []
    else
      var last := lls[|lls| - 1];
      UsesOf(sc, lls[..|lls| - 1]) + LineUses(sc, last)
  }

  /** The lines of the uses nobody owns. */
  function Unowned(uses: seq<Use>): seq<nat> {
    if uses == [] then []
    else Unowned(uses[..|uses| - 1]) + if uses[|uses| - 1].service == "" then [uses[|uses| - 1].line] else []
  }

  lemma {:induction false} UnownedConcat(a: seq<Use>, b: seq<Use>)
    ensures Unowned(a + b) == Unowned(a) + Unowned(b)
  {
    if b == [] {
      assert a + b == a;
    } else {
      assert (a + b)[..|a + b| - 1] == a + b[..|b| - 1];
      UnownedConcat(a, b[..|b| - 1]);
    }
  }

  /** The owner loop: the last command word whose span contains the position. */
  method FindOwner(words: seq<CommandWord>, n: nat, at: nat) returns (owner: int)
    requires WordsInOrder(words, n) && at < n
    ensures owner == match Owner(words, at) case Some(i) => i case None => -1
  {
    owner := -1;
    for i := 0 to |words|
      invariant -1 <= owner < i
      invariant owner >= 0 ==> words[owner].from <= at < (if owner + 1 < |words| then words[owner + 1].from else n)
      invariant owner < 0 && i > 0 ==> at < words[0].from || (i < |words| && at >= words[i].from)
    {
      var to := if i + 1 < |words| then words[i + 1].from else n;
      if at >= words[i].from && at < to {
        owner := i;
      }
    }
  }

  /** The spans of a line's command words. */
  method ParseSpans(sc: Scanner, text: string) returns (spans: seq<Invocation>)
    requires sc.Valid()
    ensures WordsInOrder(sc.starts(text), |text|) && |spans| == |sc.starts(text)|
    ensures forall j :: 0 <= j < |spans| ==> spans[j] == ReadInvocation(sc, sc.tokens(Tail(sc, text, j)), 0, "")
  {
    var words := sc.starts(text);
    spans := [];
    for i := 0 to |words|
      invariant |spans| == i
      invariant forall j :: 0 <= j < i ==> spans[j] == ReadInvocation(sc, sc.tokens(Tail(sc, text, j)), 0, "")
    {
      var inv := ParseInvocation(sc, Tail(sc, text, i));
      spans := spans + [inv];
    }
  }

  /** One --query match of a line, given the line's spans. */
  method AttributeQuery(sc: Scanner, ll: LogicalLine, spans: seq<Invocation>, q: QueryMatch)
    returns (use: Use, owned: bool)
    requires sc.Valid() && WordsInOrder(sc.starts(ll.text), |ll.text|) && InRange(q, ll.text)
    requires |spans| == |sc.starts(ll.text)|
    requires forall j :: 0 <= j < |spans| ==> spans[j] == ReadInvocation(sc, sc.tokens(Tail(sc, ll.text, j)), 0, "")
    ensures use == UseOf(sc, ll, q) && owned == (use.service != "") && use.line == ll.start
  {
    var owner := FindOwner(sc.starts(ll.text), |ll.text|, q.at);
    var query := Unquote(ll.text[q.argFrom..q.argTo]);
    if owner >= 0 && spans[owner].Invocation? {
      InvocationNames(sc, sc.tokens(Tail(sc, ll.text, owner)), 0, "");
      return Use(ll.start, spans[owner].service, spans[owner].operation, query, sc.reducing(query)), true;
    }
    return Use(ll.start, "", "", query, sc.reducing(query)), false;
  }

  /** The inner loop of AnalyzeAWSPageQueries, for one logical line. */
  method AnalyzeLine(sc: Scanner, ll: LogicalLine) returns (uses: seq<Use>, unparsed: seq<nat>)
    requires sc.Valid()
    ensures Scannable(sc, ll.text) && uses == LineUses(sc, ll) && unparsed == Unowned(uses)
  {
    uses, unparsed := [], [];
    var spans := ParseSpans(sc, ll.text);
    var queries := sc.queries(ll.text);
    assert Scannable(sc, ll.text);
    for k := 0 to |queries|
      invariant uses == LineUses(sc, ll)[..k]
      invariant unparsed == Unowned(uses)
    {
      var use, owned := AttributeQuery(sc, ll, spans, queries[k]);
      UnownedSnoc(uses, use);
      LineUsesPrefix(sc, ll, k);
      if !owned {
        unparsed := unparsed + [ll.start];
      }
      uses := uses + [use];
    }
  }

  lemma LineUsesPrefix(sc: Scanner, ll: LogicalLine, k: nat)
    requires Scannable(sc, ll.text) && k < |sc.queries(ll.text)|
    ensures InRange(sc.queries(ll.text)[k], ll.text)
    ensures LineUses(sc, ll)[..k + 1] == LineUses(sc, ll)[..k] + [UseOf(sc, ll, sc.queries(ll.text)[k])]
  {
  }

  lemma UnownedSnoc(uses: seq<Use>, u: Use)
    ensures Unowned(uses + [u]) == Unowned(uses) + if u.service == "" then [u.line] else []
  {
    var all := uses + [u];
    assert all[..|all| - 1] == uses;
  }

  lemma UsesOfSnoc(sc: Scanner, lls: seq<LogicalLine>, i: nat)
    requires sc.Valid() && i < |lls|
    ensures Scannable(sc, lls[i].text)
    ensures UsesOf(sc, lls[..i + 1]) == UsesOf(sc, lls[..i]) + LineUses(sc, lls[i])
  {
    var all := lls[..i + 1];
    assert all[..|all| - 1] == lls[..i] && all[|all| - 1] == lls[i];
  }

  method AnalyzeAWSPageQueries(sc: Scanner, raws: seq<string>) returns (uses: seq<Use>, unparsed: seq<nat>)
    requires sc.Valid()
    ensures uses == UsesOf(sc, Logical(ReadAll(raws), 0)) && unparsed == Unowned(uses)
  {
    uses, unparsed := [], [];
    var lls := LogicalLines(raws);
    for i := 0 to |lls|
      invariant uses == UsesOf(sc, lls[..i]) && unparsed == Unowned(uses)
    {
      var us, ps := AnalyzeLineIfQuery(sc, lls[i]);
      UsesOfSnoc(sc, lls, i);
      UnownedConcat(uses, us);
      uses, unparsed := uses + us, unparsed + ps;
    }
    assert lls[..|lls|] == lls;
  }

  method AnalyzeLineIfQuery(sc: Scanner, ll: LogicalLine) returns (uses: seq<Use>, unparsed: seq<nat>)
    requires sc.Valid()
    ensures Scannable(sc, ll.text) && uses == LineUses(sc, ll) && unparsed == Unowned(uses)
  {
    if !Contains(ll.text, "--query") {
      return [], [];
    }
    uses, unparsed := AnalyzeLine(sc, ll);
  }

  // ---------------------------------------------------------------- classification

  datatype ApiName = Api(name: string) | UnknownService

  datatype Finding = Paginates(use: Use, api: string) | Unattributed(use: Use)

  /** What the guard makes of one use. */
  function Classify(api: (string, string) -> ApiName, u: Use): seq<Finding> {
    if !u.reducing then []
    else if u.service == "" then [Unattributed(u)]
    else
      match api(u.service, u.operation)
      case Api(name) => if name != "" then [Paginates(u, name)] else []
      case UnknownService => []
  }

  function Findings(api: (string, string) -> ApiName, uses: seq<Use>): seq<Finding> {
    if uses == [] then [] else Findings(api, uses[..|uses| - 1]) + Classify(api, uses[|uses| - 1])
  }

  predicate Unresolved(api: (string, string) -> ApiName, u: Use) {
    u.service != "" && u.reducing && api(u.service, u.operation).UnknownService?
  }

  /** The lines of the uses nobody owns that reduce nothing, in order. */
  function NonReducing(uses: seq<Use>): seq<nat> {
    if uses == [] then []
    else
      var last := uses[|uses| - 1];
      NonReducing(uses[..|uses| - 1]) + if last.service == "" && !last.reducing then [last.line] else []
  }

  predicate NamedUnresolved(api: (string, string) -> ApiName, uses: seq<Use>, s: string) {
    exists i :: 0 <= i < |uses| && Unresolved(api, uses[i]) && uses[i].service == s
  }

  predicate Distinct(xs: seq<string>) {
    forall i, j :: 0 <= i < j < |xs| ==> xs[i] != xs[j]
  }

  predicate StrictlySorted(xs: seq<string>) {
    forall i, j :: 0 <= i < j < |xs| ==> Ordering.StringLess(xs[i], xs[j])
  }

  function Insert(x: string, sorted: seq<string>): seq<string> {
    if sorted == [] then [x]
    else if Ordering.StringLess(x, sorted[0]) then [x] + sorted
    else [sorted[0]] + Insert(x, sorted[1..])
  }

  /** sort.Strings */
  function SortStrings(xs: seq<string>): seq<string> {
    if xs == [] then [] else Insert(xs[0], SortStrings(xs[1..]))
  }

  lemma {:induction false} InsertElements(x: string, sorted: seq<string>)
    ensures forall s :: s in Insert(x, sorted) <==> s == x || s in sorted
  {
    if sorted != [] && !Ordering.StringLess(x, sorted[0]) {
      InsertElements(x, sorted[1..]);
      assert sorted == [sorted[0]] + sorted[1..];
    }
  }

  lemma SortedCons(x: string, xs: seq<string>)
    requires StrictlySorted(xs) && forall s :: s in xs ==> Ordering.StringLess(x, s)
    ensures StrictlySorted([x] + xs)
  {
    var all := [x] + xs;
    forall i, j | 0 <= i < j < |all| ensures Ordering.StringLess(all[i], all[j]) {
      assert all[j] == xs[j - 1] && xs[j - 1] in xs;
    }
  }

  lemma {:induction false} InsertSorted(x: string, sorted: seq<string>)
    requires StrictlySorted(sorted) && x !in sorted
    ensures StrictlySorted(Insert(x, sorted))
  {
    if sorted == [] {
    } else if Ordering.StringLess(x, sorted[0]) {
      forall s | s in sorted ensures Ordering.StringLess(x, s) {
        var i :| 0 <= i < |sorted| && sorted[i] == s;
        if i > 0 {
          Ordering.StringLessTransitive(x, sorted[0], s);
        }
      }
      SortedCons(x, sorted);
    } else {
      var rest := sorted[1..];
      Ordering.StringLessTotal(x, sorted[0]);
      InsertSorted(x, rest);
      InsertElements(x, rest);
      forall s | s in Insert(x, rest) ensures Ordering.StringLess(sorted[0], s) {
        if s != x {
          var i :| 0 <= i < |rest| && rest[i] == s;
          assert sorted[i + 1] == s;
        }
      }
      SortedCons(sorted[0], Insert(x, rest));
    }
  }

  /** Sorting strings that are all different keeps each of them and puts them in strict order. */
  lemma {:induction false} SortStringsSorts(xs: seq<string>)
    requires Distinct(xs)
    ensures StrictlySorted(SortStrings(xs)) && forall s :: s in SortStrings(xs) <==> s in xs
  {
    if xs != [] {
      var rest := xs[1..];
      SortStringsSorts(rest);
      assert xs[0] !in rest by {
        assert forall i :: 0 <= i < |rest| ==> rest[i] == xs[i + 1];
      }
      InsertSorted(xs[0], SortStrings(rest));
      InsertElements(xs[0], SortStrings(rest));
      assert xs == [xs[0]] + rest;
    }
  }

  lemma DistinctSnoc(xs: seq<string>, x: string)
    requires Distinct(xs) && x !in xs
    ensures Distinct(xs + [x])
  {
  }

  lemma UnresolvedSnoc(api: (string, string) -> ApiName, uses: seq<Use>, i: nat, s: string)
    requires i < |uses|
    ensures NamedUnresolved(api, uses[..i + 1], s) <==>
            NamedUnresolved(api, uses[..i], s) || (Unresolved(api, uses[i]) && uses[i].service == s)
  {
    var a, b := uses[..i], uses[..i + 1];
    assert b[i] == uses[i] && forall j :: 0 <= j < i ==> a[j] == b[j];
  }

  /** The part of the loop that classifies one use. */
  method ClassifyUse(api: (string, string) -> ApiName, u: Use) returns (found: seq<Finding>, unresolved: bool)
    requires u.service != ""
    ensures found == Classify(api, u) && unresolved == Unresolved(api, u)
  {
    if !u.reducing {
      return [], false;
    }
    match api(u.service, u.operation)
    case UnknownService => return [], true;
    case Api(name) =>
      if name != "" {
        return [Paginates(u, name)], false;
      }
      return [], false;
  }

  /** The loop of PageQueryFindings: the findings in order, each unknown service once and
      sorted, and the lines of the unowned uses that reduce nothing. */
  method ClassifyUses(api: (string, string) -> ApiName, uses: seq<Use>)
    returns (findings: seq<Finding>, unknown: seq<string>, nonReducing: seq<nat>)
    ensures findings == Findings(api, uses)
    ensures StrictlySorted(unknown) && forall s :: s in unknown <==> NamedUnresolved(api, uses, s)
    ensures nonReducing == NonReducing(uses)
  {
    findings, nonReducing := [], [];
    var seen: seq<string> := [];
    for i := 0 to |uses|
      invariant findings == Findings(api, uses[..i]) && nonReducing == NonReducing(uses[..i])
      invariant Distinct(seen) && forall s :: s in seen <==> NamedUnresolved(api, uses[..i], s)
    {
      var u := uses[i];
      assert uses[..i + 1][..i] == uses[..i];
      forall s ensures NamedUnresolved(api, uses[..i + 1], s) <==>
                       NamedUnresolved(api, uses[..i], s) || (Unresolved(api, u) && u.service == s) {
        UnresolvedSnoc(api, uses, i, s);
      }
      if u.service == "" {
        if u.reducing {
          findings := findings + [Unattributed(u)];
        } else {
          nonReducing := nonReducing + [u.line];
        }
        continue;
      }
      var found, unresolved := ClassifyUse(api, u);
      findings := findings + found;
      if unresolved && u.service !in seen {
        DistinctSnoc(seen, u.service);
        seen := seen + [u.service];
      }
    }
    assert uses[..|uses|] == uses;
    SortStringsSorts(seen);
    unknown := SortStrings(seen);
  }

  /** PageQueryFindings, on the lines of a script. */
  method PageQueryFindings(sc: Scanner, api: (string, string) -> ApiName, raws: seq<string>)
    returns (findings: seq<Finding>, unknown: seq<string>, nonReducing: seq<nat>)
    requires sc.Valid()
    ensures var uses := UsesOf(sc, Logical(ReadAll(raws), 0));
            && findings == Findings(api, uses)
            && StrictlySorted(unknown) && (forall s :: s in unknown <==> NamedUnresolved(api, uses, s))
            && nonReducing == NonReducing(uses)
  {
    var uses, _ := AnalyzeAWSPageQueries(sc, raws);
    findings, unknown, nonReducing := ClassifyUses(api, uses);
  }

  lemma {:induction false} FindingsCover(api: (string, string) -> ApiName, uses: seq<Use>, i: nat)
    requires i < |uses|
    ensures forall f :: f in Classify(api, uses[i]) ==> f in Findings(api, uses)
  {
    if i < |uses| - 1 {
      FindingsCover(api, uses[..|uses| - 1], i);
    }
  }

  lemma {:induction false} UsesCover(sc: Scanner, lls: seq<LogicalLine>, n: nat, k: nat)
    requires sc.Valid() && n < |lls| && k < |sc.queries(lls[n].text)|
    ensures Scannable(sc, lls[n].text)
    ensures UseOf(sc, lls[n], sc.queries(lls[n].text)[k]) in UsesOf(sc, lls)
  {
    assert InRange(sc.queries(lls[n].text)[k], lls[n].text);
    if n == |lls| - 1 {
      assert LineUses(sc, lls[n])[k] == UseOf(sc, lls[n], sc.queries(lls[n].text)[k]);
    } else {
      UsesCover(sc, lls[..|lls| - 1], n, k);
    }
  }

  /** Nothing is dropped: every reducing --query of a script ends up as a finding, or its service is
      named unknown, or its operation resolved and has no paginator. */
  lemma NoReducingQueryDropped(sc: Scanner, api: (string, string) -> ApiName, lines: seq<Physical>, n: nat, k: nat)
    requires sc.Valid() && n < |Logical(lines, 0)| && k < |sc.queries(Logical(lines, 0)[n].text)|
    ensures Scannable(sc, Logical(lines, 0)[n].text)
    ensures var ll := Logical(lines, 0)[n];
            var u := UseOf(sc, ll, sc.queries(ll.text)[k]);
            var uses := UsesOf(sc, Logical(lines, 0));
            && u in uses
            && (u.reducing ==>
                  || (exists f :: f in Findings(api, uses) && f.use == u)
                  || (u.service != "" && api(u.service, u.operation) == UnknownService)
                  || (u.service != "" && api(u.service, u.operation) == Api("")))
  {
    var lls := Logical(lines, 0);
    UsesCover(sc, lls, n, k);
    var u := UseOf(sc, lls[n], sc.queries(lls[n].text)[k]);
    var uses := UsesOf(sc, lls);
    var i :| 0 <= i < |uses| && uses[i] == u;
    FindingsCover(api, uses, i);
    if Classify(api, u) != [] {
      assert Classify(api, u)[0] in Findings(api, uses);
    }
  }

  lemma {:induction false} FindingsOnly(api: (string, string) -> ApiName, uses: seq<Use>, f: Finding)
    requires f in Findings(api, uses)
    ensures f.use in uses && f.use.reducing
    ensures f.Unattributed? <==> f.use.service == ""
    ensures f.Paginates? ==> f.api != "" && api(f.use.service, f.use.operation) == Api(f.api)
  {
    var last := uses[|uses| - 1];
    if f !in Classify(api, last) {
      FindingsOnly(api, uses[..|uses| - 1], f);
    }
  }
}
