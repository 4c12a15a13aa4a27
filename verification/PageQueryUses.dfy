/** What the page-query guard reads out of a script: which lines are comments or go on, which call a
    `--query` belongs to, and what each line adds to the report. */
module PageQueryUses {
  import opened Addresses
  import opened PageQueries

  // ---------------------------------------------------------------- physical lines

  /** White space and then a `#` at position `i`. */
  predicate CommentAt(line: string, i: nat) {
    i < |line| && line[i] == '#' && forall j :: 0 <= j < i ==> line[j] in " \t\n\r\U{0c}"
  }

  lemma {:induction false} CommentIff(line: string)
    ensures IsComment(line) <==> exists i: nat :: CommentAt(line, i)
  {
    if line != "" {
      CommentIff(line[1..]);
      assert CommentAt(line, 0) <==> line[0] == '#';
      if i: nat :| CommentAt(line[1..], i) {
        CommentCons(line, i);
      }
      if i: nat :| CommentAt(line, i) {
        if i > 0 {
          CommentCons(line, i - 1);
        }
      }
    }
  }

  lemma CommentCons(line: string, i: nat)
    requires line != ""
    ensures CommentAt(line, i + 1) <==> line[0] in " \t\n\r\U{0c}" && CommentAt(line[1..], i)
  {
    if CommentAt(line, i + 1) {
      forall j | 0 <= j < i ensures line[1..][j] in " \t\n\r\U{0c}" {
        assert line[1..][j] == line[j + 1];
      }
    }
  }

  /** A backslash at position `i` and only blanks after it. */
  predicate BackslashLast(line: string, i: nat) {
    i < |line| && line[i] == '\\' && forall j :: i < j < |line| ==> line[j] in " \t"
  }

  lemma {:induction false} TrimmedBlanks(line: string)
    ensures var t := TrimRight(line);
            && (t != "" ==> t[|t| - 1] !in " \t")
            && forall j :: |t| <= j < |line| ==> line[j] in " \t"
  {
    if line != "" && line[|line| - 1] in " \t" {
      TrimmedBlanks(line[..|line| - 1]);
    }
  }

  lemma BackslashIsLast(line: string, i: nat)
    ensures var t := TrimRight(line);
            BackslashLast(line, i) <==> t != "" && t[|t| - 1] == '\\' && i == |t| - 1
  {
    var t := TrimRight(line);
    TrimmedBlanks(line);
    assert t != "" ==> t[|t| - 1] == line[|t| - 1];
  }

  /** How a physical line is read: a comment adds nothing and ends its logical line; a line whose last
      character before trailing blanks is a backslash goes on, with a blank for the backslash
      and what follows it; any other line is taken as it is. */
  lemma ReadIs(raw: string)
    ensures (exists i: nat :: CommentAt(raw, i)) ==> Read(raw) == Physical("", false)
    ensures !(exists i: nat :: CommentAt(raw, i)) ==>
              && (forall i: nat :: BackslashLast(raw, i) ==> Read(raw) == Physical(raw[..i] + " ", true))
              && ((forall i: nat :: !BackslashLast(raw, i)) ==> Read(raw) == Physical(raw, false))
  {
    CommentIff(raw);
    var t := TrimRight(raw);
    forall i: nat
      ensures BackslashLast(raw, i) <==> t != "" && t[|t| - 1] == '\\' && i == |t| - 1
    {
      BackslashIsLast(raw, i);
    }
    if t != "" && t[|t| - 1] == '\\' {
      assert BackslashLast(raw, |t| - 1);
    }
  }

  predicate OccursAt(s: string, sub: string, i: nat) {
    i + |sub| <= |s| && s[i..i + |sub|] == sub
  }

  lemma OccursCons(s: string, sub: string, i: nat)
    requires s != ""
    ensures OccursAt(s, sub, i + 1) <==> OccursAt(s[1..], sub, i)
  {
    if i + 1 + |sub| <= |s| {
      assert s[i + 1..i + 1 + |sub|] == s[1..][i..i + |sub|];
    }
  }

  lemma OccursFirst(s: string, sub: string)
    ensures OccursAt(s, sub, 0) <==> sub <= s
  {
  }

  lemma {:induction false} ContainsIff(s: string, sub: string)
    ensures Contains(s, sub) <==> exists i: nat :: OccursAt(s, sub, i)
  {
    OccursFirst(s, sub);
    if s != "" {
      ContainsIff(s[1..], sub);
      if i: nat :| OccursAt(s[1..], sub, i) {
        OccursCons(s, sub, i);
      }
      if i: nat :| OccursAt(s, sub, i) {
        if i > 0 {
          OccursCons(s, sub, i - 1);
        }
      }
    }
  }

  // ---------------------------------------------------------------- one query

  predicate QuotedAs(s: string, q: string) {
    s == "\"" + q + "\"" || s == "'" + q + "'"
  }

  /** Exactly one pair of matching quotes around the whole argument is removed. */
  lemma UnquoteIff(s: string, q: string)
    ensures QuotedAs(s, q) ==> Unquote(s) == q
    ensures !QuotedAs(s, Unquote(s)) ==> Unquote(s) == s && !QuotedAs(s, q)
  {
    if QuotedAs(s, q) {
      assert s[1..|s| - 1] == q;
    }
    if Unquote(s) != s {
      assert s == [s[0]] + s[1..|s| - 1] + [s[|s| - 1]];
    }
  }

  /** The position lies between the start of command word `i` and `end`, where the next one starts. */
  predicate Owns(words: seq<CommandWord>, n: nat, i: nat, end: nat, at: nat) {
    && i < |words| && words[i].from <= at < end
    && (end == n || exists j :: 0 <= j < |words| && words[j].from == end)
    && forall j :: 0 <= j < |words| ==> words[j].from <= words[i].from || end <= words[j].from
  }

  lemma OwnerIff(words: seq<CommandWord>, n: nat, i: nat, end: nat, at: nat)
    requires WordsInOrder(words, n) && at < n
    ensures Owns(words, n, i, end, at) <==>
            Owner(words, at) == Some(i) && end == if i + 1 < |words| then words[i + 1].from else n
  {
    if Owns(words, n, i, end, at) {
      OwnsNext(words, n, i, end, at);
    }
  }

  /** The span of a command word ends where the next one starts. */
  lemma OwnsNext(words: seq<CommandWord>, n: nat, i: nat, end: nat, at: nat)
    requires WordsInOrder(words, n) && at < n && Owns(words, n, i, end, at)
    ensures end == if i + 1 < |words| then words[i + 1].from else n
    ensures forall j :: i < j < |words| ==> at < words[j].from
  {
    if i + 1 < |words| {
      assert words[i].from < words[i + 1].from;
    }
  }

  /** A `--query` is attributed to the call that the text between the nearest command word before it and
      the next one spells, and to none when that text spells none or no command word precedes it;
      it carries the line its logical line starts on, and its argument without quotes. */
  lemma UseExact(sc: Scanner, ll: LogicalLine, q: QueryMatch)
    requires sc.Valid() && OptionsClosed(sc) && InRange(q, ll.text)
    ensures WordsInOrder(sc.starts(ll.text), |ll.text|)
    ensures var u, words, arg := UseOf(sc, ll, q), sc.starts(ll.text), ll.text[q.argFrom..q.argTo];
            && u.line == ll.start
            && (QuotedAs(arg, u.query) || (u.query == arg && forall x :: !QuotedAs(arg, x)))
            && u.reducing == sc.reducing(u.query)
            && (u.service == "" <==> u.operation == "")
            && (u.service != "" ==>
                  exists i: nat, end: nat :: Owns(words, |ll.text|, i, end, q.at) && words[i].to <= end <= |ll.text|)
            && forall i: nat, end: nat | Owns(words, |ll.text|, i, end, q.at) && words[i].to <= end <= |ll.text| ::
                 SpelledCall(sc, ll.text[words[i].to..end], u)
  {
    var u, words, n := UseOf(sc, ll, q), sc.starts(ll.text), |ll.text|;
    UnquotedQuery(ll.text[q.argFrom..q.argTo]);
    OwnedUse(sc, ll, q);
    forall i: nat, end: nat | Owns(words, n, i, end, q.at) && words[i].to <= end <= n
      ensures SpelledCall(sc, ll.text[words[i].to..end], u)
    {
      OwnerSpells(sc, ll, q, i, end);
    }
  }

  lemma UnquotedQuery(arg: string)
    ensures QuotedAs(arg, Unquote(arg)) || (Unquote(arg) == arg && forall x :: !QuotedAs(arg, x))
  {
    forall x ensures QuotedAs(arg, Unquote(arg)) || (Unquote(arg) == arg && !QuotedAs(arg, x)) {
      UnquoteIff(arg, x);
    }
  }

  lemma OwnerSpells(sc: Scanner, ll: LogicalLine, q: QueryMatch, i: nat, end: nat)
    requires sc.Valid() && OptionsClosed(sc) && InRange(q, ll.text) && WordsInOrder(sc.starts(ll.text), |ll.text|)
    requires Owns(sc.starts(ll.text), |ll.text|, i, end, q.at) && sc.starts(ll.text)[i].to <= end <= |ll.text|
    ensures SpelledCall(sc, ll.text[sc.starts(ll.text)[i].to..end], UseOf(sc, ll, q))
  {
    OwnerIff(sc.starts(ll.text), |ll.text|, i, end, q.at);
    ReadIsCall(sc, sc.tokens(ll.text[sc.starts(ll.text)[i].to..end]));
    InvocationNames(sc, sc.tokens(Tail(sc, ll.text, i)), 0, "");
  }

  /** The text spells the call a use is attributed to, or none. */
  ghost predicate SpelledCall(sc: Scanner, text: string, u: Use) {
    && (u.service != "" ==> IsCall(sc, sc.tokens(text), Invocation(u.service, u.operation)))
    && (u.service == "" ==> forall inv :: !IsCall(sc, sc.tokens(text), inv))
  }

  lemma OwnedUse(sc: Scanner, ll: LogicalLine, q: QueryMatch)
    requires sc.Valid() && InRange(q, ll.text)
    requires WordsInOrder(sc.starts(ll.text), |ll.text|)
    ensures var u, words := UseOf(sc, ll, q), sc.starts(ll.text);
            && (u.service == "" <==> u.operation == "")
            && (u.service != "" ==>
                  exists i: nat, end: nat :: Owns(words, |ll.text|, i, end, q.at) && words[i].to <= end <= |ll.text|)
  {
    var words := sc.starts(ll.text);
    match Owner(words, q.at) {
      case None =>
      case Some(i) =>
        InvocationNames(sc, sc.tokens(Tail(sc, ll.text, i)), 0, "");
        var end := if i + 1 < |words| then words[i + 1].from else |ll.text|;
        OwnerIff(words, |ll.text|, i, end, q.at);
        assert words[i].to <= end;
    }
  }

  lemma ReadIsCall(sc: Scanner, tokens: seq<string>)
    requires OptionsClosed(sc)
    ensures var r := ReadInvocation(sc, tokens, 0, "");
            && (r.Invocation? ==> IsCall(sc, tokens, r))
            && (r.Unreadable? ==> forall inv :: !IsCall(sc, tokens, inv))
  {
    var r := ReadInvocation(sc, tokens, 0, "");
    if r.Invocation? {
      ReadsExactlyCalls(sc, tokens, r);
    } else {
      forall inv ensures !IsCall(sc, tokens, inv) {
        if IsCall(sc, tokens, inv) {
          ReadsExactlyCalls(sc, tokens, inv);
        }
      }
    }
  }

  // ---------------------------------------------------------------- the report

  lemma {:induction false} UsesConcat(sc: Scanner, a: seq<LogicalLine>, b: seq<LogicalLine>)
    requires sc.Valid()
    ensures UsesOf(sc, a + b) == UsesOf(sc, a) + UsesOf(sc, b)
  {
    if b == [] {
      assert a + b == a;
      assert UsesOf(sc, a) + [] == UsesOf(sc, a);
    } else {
      var front, last := b[..|b| - 1], b[|b| - 1];
      assert b == front + [last];
      ConcatAssociative(a, front, [last]);
      UsesConcat(sc, a, front);
      UsesSnoc(sc, a + front, last);
      UsesSnoc(sc, front, last);
      ConcatAssociative(UsesOf(sc, a), UsesOf(sc, front), LineUses(sc, last));
    }
  }

  lemma UsesSnoc(sc: Scanner, a: seq<LogicalLine>, last: LogicalLine)
    requires sc.Valid()
    ensures Scannable(sc, last.text) && UsesOf(sc, a + [last]) == UsesOf(sc, a) + LineUses(sc, last)
  {
    assert (a + [last])[..|a|] == a;
  }

  lemma ReportSnoc(api: (string, string) -> ApiName, a: seq<Use>, u: Use)
    ensures Findings(api, a + [u]) == Findings(api, a) + Classify(api, u)
    ensures NonReducing(a + [u]) == NonReducing(a) + if u.service == "" && !u.reducing then [u.line] else []
  {
    assert (a + [u])[..|a|] == a;
  }

  lemma {:induction false} ReportConcat(api: (string, string) -> ApiName, a: seq<Use>, b: seq<Use>)
    ensures Findings(api, a + b) == Findings(api, a) + Findings(api, b)
    ensures NonReducing(a + b) == NonReducing(a) + NonReducing(b)
    ensures Unowned(a + b) == Unowned(a) + Unowned(b)
  {
    UnownedConcat(a, b);
    if b == [] {
      assert a + b == a;
      assert Findings(api, a) + [] == Findings(api, a) && NonReducing(a) + [] == NonReducing(a);
    } else {
      var front, last := b[..|b| - 1], b[|b| - 1];
      assert b == front + [last];
      ConcatAssociative(a, front, [last]);
      ReportConcat(api, a, front);
      ReportSnoc(api, a + front, last);
      ReportSnoc(api, front, last);
      ConcatAssociative(Findings(api, a), Findings(api, front), Classify(api, last));
      ConcatAssociative(NonReducing(a), NonReducing(front),
                        if last.service == "" && !last.reducing then [last.line] else []);
    }
  }

  /** What a logical line adds to the report stands in its place, whatever lines come before and
      after it. */
  lemma LinesReportInOrder(
      sc: Scanner, api: (string, string) -> ApiName,
      before: seq<LogicalLine>, ll: LogicalLine, after: seq<LogicalLine>)
    requires sc.Valid()
    ensures Scannable(sc, ll.text)
    ensures var uses, pre, own, post :=
              UsesOf(sc, before + [ll] + after), UsesOf(sc, before), LineUses(sc, ll), UsesOf(sc, after);
            && uses == pre + own + post
            && Findings(api, uses) == Findings(api, pre) + Findings(api, own) + Findings(api, post)
            && NonReducing(uses) == NonReducing(pre) + NonReducing(own) + NonReducing(post)
            && Unowned(uses) == Unowned(pre) + Unowned(own) + Unowned(post)
  {
    UsesConcat(sc, before + [ll], after);
    UsesConcat(sc, before, [ll]);
    assert UsesOf(sc, [ll]) == LineUses(sc, ll) by {
      assert [ll][..0] == [] && UsesOf(sc, []) + LineUses(sc, ll) == LineUses(sc, ll);
    }
    var pre, own, post := UsesOf(sc, before), LineUses(sc, ll), UsesOf(sc, after);
    ReportConcat(api, pre + own, post);
    ReportConcat(api, pre, own);
  }

  /** Each use adds to the report once or not at all: a reducing one is a finding unless its service is
      unknown or its operation has no paginator; an unowned one has its line listed, and again
      among those that reduce nothing when it does not. */
  lemma UseReportsOnce(api: (string, string) -> ApiName, before: seq<Use>, u: Use, after: seq<Use>)
    ensures Findings(api, before + [u] + after) ==
            Findings(api, before) +
            (if u.reducing && u.service == "" then [Unattributed(u)]
             else if u.reducing && api(u.service, u.operation) !in {UnknownService, Api("")} then
               [Paginates(u, api(u.service, u.operation).name)]
             else []) +
            Findings(api, after)
    ensures NonReducing(before + [u] + after) ==
            NonReducing(before) + (if u.service == "" && !u.reducing then [u.line] else []) + NonReducing(after)
    ensures Unowned(before + [u] + after) ==
            Unowned(before) + (if u.service == "" then [u.line] else []) + Unowned(after)
  {
    ReportConcat(api, before + [u], after);
    ReportConcat(api, before, [u]);
    assert [u][..0] == [];
    assert Findings(api, [u]) == Findings(api, []) + Classify(api, u);
  }
}
