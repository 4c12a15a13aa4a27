/** What an override trie means (override_trie.go), without its nodes: the model that `Set` builds,
    the search that `Get` makes, the list of patterns it must agree with, and concurrent
    `Get` calls as interleavings of atomic steps. */
module OverrideSpec {
  import opened Addresses

  type KeyPath = seq<InstanceKey>

  const WILD: InstanceKey := WildcardKey(UnknownKeyType)

  /** One Set call: the address keys, the value and the identity of its source range. */
  datatype Call<T> = Call(keys: KeyPath, val: T, src: nat)

  /** `stored` holds the values by pattern. An empty `evidence` is Go's nil table; otherwise it has
      one list of source ranges per key position. */
  datatype TrieModel<T> = TrieModel(stored: map<KeyPath, T>, modern: bool, evidence: seq<seq<nat>>)

  /** The diagnostic of a lookup; `OutOfRange` is the panic of indexing past the evidence table. */
  datatype Diag = Clean | WildcardQuery | MixedUsage(ranges: seq<nat>) | OutOfRange

  function Normal(k: InstanceKey): InstanceKey {
    if k == NoKey then WILD else k
  }

  function Pattern(keys: KeyPath): (p: KeyPath)
    ensures |p| == |keys|
  {
    seq(|keys|, i requires 0 <= i < |keys| => Normal(keys[i]))
  }

  /** The evidence table once the first `i` keys have been recorded; None when that panics. */
  function EvidenceAfter(evidence: seq<seq<nat>>, keys: KeyPath, i: nat, src: nat): Option<seq<seq<nat>>>
    requires i <= |keys|
  {
    if i == 0 then Some(evidence)
    else
      match EvidenceAfter(evidence, keys, i - 1, src)
      case None => None
      case Some(before) =>
        if keys[i - 1] == NoKey then AddEvidence(before, |keys|, i - 1, src) else Some(before)
  }

  /** setNoKeyEvidence: the table gets its size from the first address recorded, and a later one that
      is deeper indexes past it. */
  function AddEvidence(evidence: seq<seq<nat>>, size: nat, i: nat, src: nat): Option<seq<seq<nat>>> {
    var sized := if evidence == [] then seq(size, _ => []) else evidence;
    if i < |sized| then Some(sized[i := sized[i] + [src]]) else None
  }

  predicate UsesWildcard(keys: KeyPath) {
    exists i :: 0 <= i < |keys| && keys[i].WildcardKey?
  }

  /** The model after one Set; None when it panics. */
  function AfterSet<T>(m: TrieModel<T>, c: Call<T>): Option<TrieModel<T>> {
    match EvidenceAfter(m.evidence, c.keys, |c.keys|, c.src)
    case None => None
    case Some(evidence) =>
      Some(TrieModel(m.stored[Pattern(c.keys) := c.val], m.modern || UsesWildcard(c.keys), evidence))
  }

  /** The model after a history of Set calls on a new trie, of any depths. */
  function AfterAll<T>(history: seq<Call<T>>): Option<TrieModel<T>> {
    if history == [] then Some(TrieModel(map[], false, []))
    else
      match AfterAll(history[..|history| - 1])
      case None => None
      case Some(m) => AfterSet(m, history[|history| - 1])
  }

  // ---------------------------------------------------------------- the search

  /** A trie has a node for every prefix of a stored pattern. */
  ghost predicate NodeExists<T>(stored: map<KeyPath, T>, p: KeyPath) {
    p == [] || exists s :: s in stored && p <= s
  }

  /** checkKey: the diagnostic, and the new value of the one-shot flag. */
  function CheckKey<T>(m: TrieModel<T>, refuse: bool, i: nat, key: InstanceKey): (Diag, bool) {
    if key.WildcardKey? then (WildcardQuery, refuse)
    else if m.evidence == [] || !m.modern || key == NoKey then (Clean, refuse)
    else if i >= |m.evidence| then (OutOfRange, refuse)
    else if m.evidence[i] != [] then
      if refuse then (Clean, refuse) else (MixedUsage(m.evidence[i]), true)
    else (Clean, refuse)
  }

  datatype Result<+T> = Result(value: Option<T>, diag: Diag, refuse: bool)

  /** recursiveGet from the node at `p`. */
  ghost function Walk<T>(m: TrieModel<T>, refuse: bool, p: KeyPath, keys: KeyPath): (r: Result<T>)
    requires |p| <= |keys|
    decreases |keys| - |p|
  {
    if !NodeExists(m.stored, p) then Result(None, Clean, refuse)
    else if |p| == |keys| then Result(if p in m.stored then Some(m.stored[p]) else None, Clean, refuse)
    else
      var key := keys[|p|];
      var (diag, flag) := CheckKey(m, refuse, |p|, key);
      if diag != Clean then Result(None, diag, flag)
      else
        var exact := Walk(m, flag, p + [key], keys);
        if exact.diag != Clean || exact.value.Some? then exact
        else Walk(m, exact.refuse, p + [WILD], keys)
  }

  /** The first half of the search at an inner node: its key is checked and followed. */
  ghost function WalkExact<T>(m: TrieModel<T>, refuse: bool, p: KeyPath, keys: KeyPath): Result<T>
    requires |p| < |keys|
  {
    var (diag, flag) := CheckKey(m, refuse, |p|, keys[|p|]);
    if diag != Clean then Result(None, diag, flag) else Walk(m, flag, p + [keys[|p|]], keys)
  }

  lemma WalkSplit<T>(m: TrieModel<T>, refuse: bool, p: KeyPath, keys: KeyPath)
    requires |p| < |keys| && NodeExists(m.stored, p)
    ensures var exact := WalkExact(m, refuse, p, keys);
            Walk(m, refuse, p, keys) ==
            if exact.diag != Clean || exact.value.Some? then exact else Walk(m, exact.refuse, p + [WILD], keys)
  {
  }

  /** Get on a trie whose flag is `refuse`. */
  ghost function GetResult<T>(m: TrieModel<T>, refuse: bool, keys: KeyPath): Result<T>
  {
    if refuse then Result(None, Clean, true) else Walk(m, false, [], keys)
  }

  // ---------------------------------------------------------------- the list it must agree with

  predicate ConcreteKeys(keys: KeyPath) {
    forall i :: 0 <= i < |keys| ==> !keys[i].WildcardKey?
  }

  predicate Matches(pattern: KeyPath, keys: KeyPath) {
    |pattern| == |keys| && forall i :: 0 <= i < |keys| ==> pattern[i] == keys[i] || pattern[i] == WILD
  }

  predicate ExactFirstAt(a: KeyPath, b: KeyPath, keys: KeyPath, i: nat)
    requires |a| == |b| == |keys| && i < |keys|
  {
    a[..i] == b[..i] && a[i] == keys[i] && b[i] != keys[i]
  }

  /** `a` is exact at the earliest position where the two differ. */
  predicate Prefers(a: KeyPath, b: KeyPath, keys: KeyPath)
    requires |a| == |b| == |keys|
  {
    exists i :: 0 <= i < |keys| && ExactFirstAt(a, b, keys, i)
  }

  /** The call whose value an override lookup must return: its pattern matches, it is preferred
      over every other matching pattern, and it is the last call with its pattern. */
  predicate BestCall<T>(history: seq<Call<T>>, keys: KeyPath, j: nat) {
    && j < |history| && Matches(Pattern(history[j].keys), keys)
    && forall l :: 0 <= l < |history| && Matches(Pattern(history[l].keys), keys) ==>
         if Pattern(history[l].keys) == Pattern(history[j].keys) then l <= j
         else Prefers(Pattern(history[j].keys), Pattern(history[l].keys), keys)
  }

  /** The search without diagnostics. */
  ghost function Find<T>(stored: map<KeyPath, T>, p: KeyPath, keys: KeyPath): Option<T>
    requires |p| <= |keys|
    decreases |keys| - |p|
  {
    if !NodeExists(stored, p) then None
    else if |p| == |keys| then if p in stored then Some(stored[p]) else None
    else
      var exact := Find(stored, p + [keys[|p|]], keys);
      if exact.Some? then exact else Find(stored, p + [WILD], keys)
  }

  lemma {:induction false} WalkIsFind<T>(m: TrieModel<T>, refuse: bool, p: KeyPath, keys: KeyPath)
    requires |p| <= |keys|
    ensures var r := Walk(m, refuse, p, keys); r.diag == Clean ==> r.value == Find(m.stored, p, keys)
    decreases |keys| - |p|
  {
    if NodeExists(m.stored, p) && |p| < |keys| {
      var (diag, flag) := CheckKey(m, refuse, |p|, keys[|p|]);
      WalkIsFind(m, flag, p + [keys[|p|]], keys);
      WalkIsFind(m, Walk(m, flag, p + [keys[|p|]], keys).refuse, p + [WILD], keys);
    }
  }

  ghost predicate BestUnder<T>(stored: map<KeyPath, T>, p: KeyPath, keys: KeyPath, best: KeyPath) {
    && best in stored && p <= best && Matches(best, keys)
    && forall s :: s in stored && p <= s && s != best && Matches(s, keys) ==> Prefers(best, s, keys)
  }

  lemma NextKey(s: KeyPath, p: KeyPath, keys: KeyPath)
    requires p <= s && |p| < |keys| && Matches(s, keys)
    ensures p + [keys[|p|]] <= s || p + [WILD] <= s
  {
    assert s[..|p|] == p;
    assert s == s[..|p|] + [s[|p|]] + s[|p| + 1..];
  }

  lemma ExactBranchPreferred(best: KeyPath, s: KeyPath, p: KeyPath, keys: KeyPath)
    requires |p| < |keys| && ConcreteKeys(keys) && Matches(best, keys) && Matches(s, keys)
    requires p + [keys[|p|]] <= best && p + [WILD] <= s
    ensures Prefers(best, s, keys)
  {
    var i := |p|;
    assert best[..i] == (p + [keys[i]])[..i] == p && s[..i] == (p + [WILD])[..i] == p;
    assert best[i] == (p + [keys[i]])[i] && s[i] == (p + [WILD])[i];
    assert ExactFirstAt(best, s, keys, i);
  }

  predicate MatchesSoFar(p: KeyPath, keys: KeyPath) {
    |p| <= |keys| && forall i :: 0 <= i < |p| ==> p[i] == keys[i] || p[i] == WILD
  }

  lemma DeeperPrefix(p: KeyPath, k: InstanceKey, s: KeyPath)
    requires p + [k] <= s
    ensures p <= s
  {
    assert s[..|p|] == (p + [k])[..|p|] == p;
  }

  /** Below `p` the search finds the preferred match, dead ends notwithstanding, and finds nothing
      only when nothing matches. */
  lemma {:induction false} FindIsBest<T>(stored: map<KeyPath, T>, p: KeyPath, keys: KeyPath)
    requires MatchesSoFar(p, keys) && ConcreteKeys(keys)
    ensures match Find(stored, p, keys)
            case Some(v) => exists best :: BestUnder(stored, p, keys, best) && stored[best] == v
            case None => forall s :: s in stored && p <= s ==> !Matches(s, keys)
    decreases |keys| - |p|
  {
    if NodeExists(stored, p) {
      if |p| == |keys| {
        forall s | s in stored && p <= s && Matches(s, keys) ensures s == p {
          assert s[..|p|] == s;
        }
        assert p in stored ==> BestUnder(stored, p, keys, p);
      } else {
        FindIsBestStep(stored, p, keys);
      }
    }
  }

  lemma {:induction false} FindIsBestStep<T>(stored: map<KeyPath, T>, p: KeyPath, keys: KeyPath)
    requires MatchesSoFar(p, keys) && ConcreteKeys(keys) && |p| < |keys| && NodeExists(stored, p)
    ensures match Find(stored, p, keys)
            case Some(v) => exists best :: BestUnder(stored, p, keys, best) && stored[best] == v
            case None => forall s :: s in stored && p <= s ==> !Matches(s, keys)
    decreases |keys| - |p|, 0
  {
    var exact, wild := p + [keys[|p|]], p + [WILD];
    FindIsBest(stored, exact, keys);
    FindIsBest(stored, wild, keys);
    forall s | s in stored && p <= s && Matches(s, keys) ensures exact <= s || wild <= s {
      NextKey(s, p, keys);
    }
    if Find(stored, exact, keys).Some? {
      var best :| BestUnder(stored, exact, keys, best) && stored[best] == Find(stored, exact, keys).value;
      DeeperPrefix(p, keys[|p|], best);
      forall s | s in stored && p <= s && s != best && Matches(s, keys) ensures Prefers(best, s, keys) {
        if wild <= s {
          ExactBranchPreferred(best, s, p, keys);
        }
      }
      assert BestUnder(stored, p, keys, best);
    } else if Find(stored, wild, keys).Some? {
      var best :| BestUnder(stored, wild, keys, best) && stored[best] == Find(stored, wild, keys).value;
      DeeperPrefix(p, WILD, best);
      assert BestUnder(stored, p, keys, best);
    }
  }

  // ---------------------------------------------------------------- the list result

  /** The leaf of a pattern holds the value of the last call with that pattern. */
  lemma {:induction false} StoredIsLast<T>(history: seq<Call<T>>, pattern: KeyPath) returns (j: int)
    requires AfterAll(history).Some?
    ensures var stored := AfterAll(history).value.stored;
            if pattern in stored
            then 0 <= j < |history| && Pattern(history[j].keys) == pattern && stored[pattern] == history[j].val &&
                 forall l :: j < l < |history| ==> Pattern(history[l].keys) != pattern
            else forall l :: 0 <= l < |history| ==> Pattern(history[l].keys) != pattern
  {
    if history == [] {
      j := -1;
    } else {
      var last := |history| - 1;
      j := StoredIsLast(history[..last], pattern);
      if Pattern(history[last].keys) == pattern {
        j := last;
      }
    }
  }

  lemma FindAgreesWithList<T>(history: seq<Call<T>>, keys: KeyPath)
    requires AfterAll(history).Some? && ConcreteKeys(keys)
    ensures match Find(AfterAll(history).value.stored, [], keys)
            case Some(v) => exists j: nat :: BestCall(history, keys, j) && history[j].val == v
            case None => forall j :: 0 <= j < |history| ==> !Matches(Pattern(history[j].keys), keys)
  {
    var stored := AfterAll(history).value.stored;
    FindIsBest(stored, [], keys);
    forall l | 0 <= l < |history| ensures Pattern(history[l].keys) in stored {
      var _ := StoredIsLast(history, Pattern(history[l].keys));
    }
    if Find(stored, [], keys).Some? {
      var best :| BestUnder(stored, [], keys, best) && stored[best] == Find(stored, [], keys).value;
      var j := StoredIsLast(history, best);
      assert BestCall(history, keys, j);
    }
  }

  /** After any accepted sequence of Set calls, of whatever depths, a lookup on concrete keys that raises no
      diagnostic returns the value of the best call, and nothing exactly when no call
      matches. */
  lemma GetAgreesWithList<T>(history: seq<Call<T>>, keys: KeyPath)
    requires AfterAll(history).Some? && ConcreteKeys(keys)
    ensures var r := GetResult(AfterAll(history).value, false, keys);
            r.diag == Clean ==>
              match r.value
              case Some(v) => exists j: nat :: BestCall(history, keys, j) && history[j].val == v
              case None => forall j :: 0 <= j < |history| ==> !Matches(Pattern(history[j].keys), keys)
  {
    WalkIsFind(AfterAll(history).value, false, [], keys);
    FindAgreesWithList(history, keys);
  }

  /** Mixed usage is reported only while the flag is down, only when both wildcard and unkeyed
      patterns were recorded, and always names the offending sources; reporting it is
      the only thing that raises the flag. */
  lemma {:induction false} MixedUsageNeedsEvidence<T>(m: TrieModel<T>, refuse: bool, p: KeyPath, keys: KeyPath)
    requires |p| <= |keys|
    ensures var r := Walk(m, refuse, p, keys);
            && (r.diag.MixedUsage? ==>
                  && m.modern && m.evidence != [] && !refuse
                  && r.diag.ranges in m.evidence && r.diag.ranges != [])
            && (r.refuse <==> refuse || r.diag.MixedUsage?)
    decreases |keys| - |p|
  {
    if NodeExists(m.stored, p) && |p| < |keys| {
      var (diag, flag) := CheckKey(m, refuse, |p|, keys[|p|]);
      MixedUsageNeedsEvidence(m, flag, p + [keys[|p|]], keys);
      MixedUsageNeedsEvidence(m, Walk(m, flag, p + [keys[|p|]], keys).refuse, p + [WILD], keys);
    }
  }

  // ---------------------------------------------------------------- rewriting unkeyed calls

  function Rewritten<T>(history: seq<Call<T>>): (r: seq<Call<T>>)
    ensures |r| == |history|
  {
    seq(|history|, i requires 0 <= i < |history| => history[i].(keys := Pattern(history[i].keys)))
  }

  lemma {:induction false} NoEvidence(evidence: seq<seq<nat>>, keys: KeyPath, i: nat, src: nat)
    requires i <= |keys|
    requires forall k :: 0 <= k < |keys| ==> keys[k] != NoKey
    ensures EvidenceAfter(evidence, keys, i, src) == Some(evidence)
  {
    if i > 0 {
      NoEvidence(evidence, keys, i - 1, src);
    }
  }

  lemma {:induction false} RewrittenModel<T>(history: seq<Call<T>>)
    requires AfterAll(history).Some?
    ensures AfterAll(Rewritten(history)).Some?
    ensures var m := AfterAll(Rewritten(history)).value;
            m.evidence == [] && m.stored == AfterAll(history).value.stored
  {
    if history != [] {
      var last, all := |history| - 1, Rewritten(history);
      RewrittenModel(history[..last]);
      assert all[..last] == Rewritten(history[..last]);
      var keys := all[last].keys;
      NoEvidence([], keys, |keys|, all[last].src);
      assert Pattern(keys) == keys;
    }
  }

  lemma {:induction false} WalkWithoutEvidence<T>(
      m: TrieModel<T>, m': TrieModel<T>, refuse: bool, flag: bool, p: KeyPath, keys: KeyPath)
    requires |p| <= |keys|
    requires m.stored == m'.stored && m'.evidence == []
    ensures var r, r' := Walk(m, refuse, p, keys), Walk(m', flag, p, keys);
            && !r'.diag.MixedUsage? && !r'.diag.OutOfRange?
            && (r.diag.MixedUsage? || r.diag.OutOfRange? || (r'.value == r.value && r'.diag == r.diag))
    decreases |keys| - |p|
  {
    if NodeExists(m.stored, p) && |p| < |keys| {
      var exact := p + [keys[|p|]];
      var (_, f) := CheckKey(m, refuse, |p|, keys[|p|]);
      var (_, f') := CheckKey(m', flag, |p|, keys[|p|]);
      WalkWithoutEvidence(m, m', f, f', exact, keys);
      WalkWithoutEvidence(m, m', Walk(m, f, exact, keys).refuse, Walk(m', f', exact, keys).refuse, p + [WILD], keys);
    }
  }

  /** Writing every unkeyed Set with wildcards removes the mixed-usage error and changes nothing
      else that a lookup can return. */
  lemma RewritingRemovesOnlyTheError<T>(history: seq<Call<T>>, keys: KeyPath)
    requires AfterAll(history).Some?
    ensures AfterAll(Rewritten(history)).Some?
    ensures var r := GetResult(AfterAll(history).value, false, keys);
            var r' := GetResult(AfterAll(Rewritten(history)).value, false, keys);
            && !r'.diag.MixedUsage? && !r'.diag.OutOfRange?
            && (r.diag.MixedUsage? || r.diag.OutOfRange? || (r'.value == r.value && r'.diag == r.diag))
  {
    RewrittenModel(history);
    WalkWithoutEvidence(AfterAll(history).value, AfterAll(Rewritten(history)).value, false, false, [], keys);
  }

  // ---------------------------------------------------------------- concurrent lookups

  datatype Outcome<+T> = Refused | Answer(value: Option<T>) | Failed(diag: Diag)

  /** A lookup between atomic steps. `stack` lists the nodes still to try, first one next. */
  datatype Phase<+T> = Idle | Running(stack: seq<KeyPath>) | Done(outcome: Outcome<T>)

  datatype Thread<+T> = Thread(keys: KeyPath, phase: Phase<T>)

  /** One atomic step: loading the flag, or visiting one node with at most one swap of the flag. */
  ghost function StepThread<T>(m: TrieModel<T>, refuse: bool, t: Thread<T>): (Thread<T>, bool)
  {
    match t.phase
    case Done(_) => (t, refuse)
    case Idle => (t.(phase := if refuse then Done(Refused) else Running([[]])), refuse)
    case Running(stack) =>
      if stack == [] then (t.(phase := Done(Answer(None))), refuse)
      else
        var p, rest := stack[0], stack[1..];
        if |p| > |t.keys| || !NodeExists(m.stored, p) then (t.(phase := Running(rest)), refuse)
        else if |p| == |t.keys| then
          (t.(phase := if p in m.stored then Done(Answer(Some(m.stored[p]))) else Running(rest)), refuse)
        else
          var key := t.keys[|p|];
          var (diag, flag) := CheckKey(m, refuse, |p|, key);
          (t.(phase := if diag == Clean then Running([p + [key], p + [WILD]] + rest) else Done(Failed(diag))), flag)
  }

  datatype System<+T> = System(refuse: bool, threads: seq<Thread<T>>)

  /** The scheduler lets thread `i` take one step. */
  ghost function StepSystem<T>(m: TrieModel<T>, s: System<T>, i: nat): (r: System<T>)
  {
    if i >= |s.threads| then s
    else
      var (t, flag) := StepThread(m, s.refuse, s.threads[i]);
      System(flag, s.threads[i := t])
  }

  ghost function Run<T>(m: TrieModel<T>, s: System<T>, schedule: seq<nat>): (r: System<T>)
    decreases |schedule|
  {
    if schedule == [] then s else Run(m, StepSystem(m, s, schedule[0]), schedule[1..])
  }

  predicate Reported<T>(t: Thread<T>) {
    t.phase.Done? && t.phase.outcome.Failed? && t.phase.outcome.diag.MixedUsage?
  }

  /** At most one lookup has reported mixed usage, and then the flag is up. */
  predicate OneReport<T>(s: System<T>) {
    && (forall i, j | 0 <= i < |s.threads| && 0 <= j < |s.threads| ::
          Reported(s.threads[i]) && Reported(s.threads[j]) ==> i == j)
    && (forall i :: 0 <= i < |s.threads| && Reported(s.threads[i]) ==> s.refuse)
  }

  lemma {:induction false} OneReportKept<T>(m: TrieModel<T>, s: System<T>, schedule: seq<nat>)
    requires OneReport(s)
    ensures OneReport(Run(m, s, schedule))
    ensures s.refuse ==> Run(m, s, schedule).refuse
    decreases |schedule|
  {
    if schedule != [] {
      OneReportKept(m, StepSystem(m, s, schedule[0]), schedule[1..]);
    }
  }

  /** In every interleaving of lookups on one trie at most one reports mixed usage. */
  lemma AtMostOneReport<T>(m: TrieModel<T>, s: System<T>, schedule: seq<nat>, i: nat, j: nat)
    requires forall k :: 0 <= k < |s.threads| ==> s.threads[k].phase.Idle?
    requires i < j < |Run(m, s, schedule).threads|
    ensures !(Reported(Run(m, s, schedule).threads[i]) && Reported(Run(m, s, schedule).threads[j]))
  {
    OneReportKept(m, s, schedule);
  }

  lemma {:induction false} RefusedFromNowOn<T>(m: TrieModel<T>, s: System<T>, schedule: seq<nat>, i: nat)
    requires s.refuse && i < |s.threads|
    requires s.threads[i].phase.Idle? || s.threads[i].phase == Done(Refused)
    ensures var r := Run(m, s, schedule);
            i < |r.threads| && (r.threads[i].phase.Idle? || r.threads[i].phase == Done(Refused))
    decreases |schedule|
  {
    if schedule != [] {
      RefusedFromNowOn(m, StepSystem(m, s, schedule[0]), schedule[1..], i);
    }
  }

  lemma {:induction false} RunConcat<T>(m: TrieModel<T>, s: System<T>, a: seq<nat>, b: seq<nat>)
    ensures Run(m, s, a + b) == Run(m, Run(m, s, a), b)
    decreases |a|
  {
    if a == [] {
      assert a + b == b;
    } else {
      assert (a + b)[1..] == a[1..] + b;
      RunConcat(m, StepSystem(m, s, a[0]), a[1..], b);
    }
  }

  /** Once one lookup has reported mixed usage, every lookup started later returns nothing. */
  lemma LaterLookupsRefused<T>(m: TrieModel<T>, s: System<T>, before: seq<nat>, after: seq<nat>, i: nat, j: nat)
    requires forall k :: 0 <= k < |s.threads| ==> s.threads[k].phase.Idle?
    requires i < |s.threads| && j < |s.threads|
    requires var mid := Run(m, s, before);
             i < |mid.threads| && j < |mid.threads| && Reported(mid.threads[i]) && mid.threads[j].phase.Idle?
    ensures var end := Run(m, s, before + after);
            j < |end.threads| && (end.threads[j].phase.Idle? || end.threads[j].phase == Done(Refused))
  {
    OneReportKept(m, s, before);
    RunConcat(m, s, before, after);
    RefusedFromNowOn(m, Run(m, s, before), after, j);
  }

  // ---------------------------------------------------------------- no report is lost

  /** The search of the nodes on a stack, one after the other, with the flag down. */
  ghost function SearchStack<T>(m: TrieModel<T>, stack: seq<KeyPath>, keys: KeyPath): Result<T> {
    if stack == [] then Result(None, Clean, false)
    else
      var first := if |stack[0]| <= |keys| then Walk(m, false, stack[0], keys) else Result(None, Clean, false);
      if first.diag != Clean || first.value.Some? then first else SearchStack(m, stack[1..], keys)
  }

  /** The outcome of a lookup that ran alone. */
  ghost function OutcomeOf<T>(r: Result<T>): Outcome<T> {
    if r.diag != Clean then Failed(r.diag) else Answer(r.value)
  }

  /** A lookup that will end as if it ran alone, if the flag stays down. */
  ghost predicate Undisturbed<T>(m: TrieModel<T>, t: Thread<T>) {
    match t.phase
    case Idle => true
    case Running(stack) => OutcomeOf(SearchStack(m, stack, t.keys)) == OutcomeOf(GetResult(m, false, t.keys))
    case Done(o) => o == OutcomeOf(GetResult(m, false, t.keys))
  }

  /** What a step makes of a stack is searched like the stack, or is where its search ends. */
  ghost predicate SameEnd<T>(m: TrieModel<T>, stack: seq<KeyPath>, keys: KeyPath, after: Phase<T>) {
    match after
    case Idle => false
    case Running(next) => OutcomeOf(SearchStack(m, next, keys)) == OutcomeOf(SearchStack(m, stack, keys))
    case Done(o) => o == OutcomeOf(SearchStack(m, stack, keys))
  }

  lemma SearchStackCons<T>(m: TrieModel<T>, p: KeyPath, rest: seq<KeyPath>, keys: KeyPath)
    requires |p| <= |keys|
    ensures var first := Walk(m, false, p, keys);
            SearchStack(m, [p] + rest, keys) ==
            if first.diag != Clean || first.value.Some? then first else SearchStack(m, rest, keys)
  {
    assert ([p] + rest)[1..] == rest;
  }

  /** Going down to the two children of an inner node. */
  lemma SearchChildrenFirst<T>(m: TrieModel<T>, stack: seq<KeyPath>, keys: KeyPath)
    requires stack != [] && |stack[0]| < |keys| && NodeExists(m.stored, stack[0])
    requires CheckKey(m, false, |stack[0]|, keys[|stack[0]|]) == (Clean, false)
    ensures var p := stack[0];
            OutcomeOf(SearchStack(m, [p + [keys[|p|]], p + [WILD]] + stack[1..], keys)) ==
            OutcomeOf(SearchStack(m, stack, keys))
  {
    var p, rest := stack[0], stack[1..];
    var exact, wild := p + [keys[|p|]], p + [WILD];
    assert [exact, wild] + rest == [exact] + ([wild] + rest) && stack == [p] + rest;
    SearchStackCons(m, exact, [wild] + rest, keys);
    SearchStackCons(m, wild, rest, keys);
    SearchStackCons(m, p, rest, keys);
    WalkSplit(m, false, p, keys);
    MixedUsageNeedsEvidence(m, false, exact, keys);
  }

  /** A step taken with the flag down leads where the search alone would; it raises the flag exactly
      when it reports mixed usage. */
  lemma StepSameEnd<T>(m: TrieModel<T>, stack: seq<KeyPath>, keys: KeyPath)
    ensures var (t, flag) := StepThread(m, false, Thread(keys, Running(stack)));
            SameEnd(m, stack, keys, t.phase) && (flag <==> Reported(t))
  {
    if stack != [] && |stack[0]| < |keys| && NodeExists(m.stored, stack[0]) {
      if CheckKey(m, false, |stack[0]|, keys[|stack[0]|]).0 == Clean {
        SearchChildrenFirst(m, stack, keys);
      }
    }
  }

  lemma StepUndisturbed<T>(m: TrieModel<T>, t: Thread<T>)
    requires Undisturbed(m, t) && !Reported(t)
    ensures var (u, flag) := StepThread(m, false, t); Undisturbed(m, u) && (flag <==> Reported(u))
  {
    match t.phase
    case Running(stack) => StepSameEnd(m, stack, t.keys);
    case Idle =>
      var start: seq<KeyPath> := [[]];
      assert start[1..] == [] && start[0] == [];
    case Done(_) =>
  }

  /** With the flag up no step reports. */
  lemma StepRefusedReportsNothing<T>(m: TrieModel<T>, t: Thread<T>)
    ensures var (u, flag) := StepThread(m, true, t); flag && (Reported(u) ==> u == t)
  {
  }

  /** A report names the sources the lookup would have named alone. */
  ghost predicate TrueReport<T>(m: TrieModel<T>, t: Thread<T>) {
    Reported(t) ==> t.phase.outcome.diag == GetResult(m, false, t.keys).diag
  }

  /** As long as the flag is down every lookup runs as if alone; the flag is up exactly when one has
      reported; and every report is the lookup's own. */
  ghost predicate ReportsKept<T>(m: TrieModel<T>, s: System<T>) {
    && (!s.refuse ==> forall k :: 0 <= k < |s.threads| ==> Undisturbed(m, s.threads[k]))
    && (s.refuse <==> exists k :: 0 <= k < |s.threads| && Reported(s.threads[k]))
    && (forall k :: 0 <= k < |s.threads| ==> TrueReport(m, s.threads[k]))
  }

  lemma StepKeepsReports<T>(m: TrieModel<T>, s: System<T>, i: nat)
    requires ReportsKept(m, s)
    ensures ReportsKept(m, StepSystem(m, s, i))
  {
    if i < |s.threads| {
      var t, next := s.threads[i], StepSystem(m, s, i);
      if s.refuse {
        StepRefusedReportsNothing(m, t);
        var r :| 0 <= r < |s.threads| && Reported(s.threads[r]);
        assert Reported(next.threads[r]);
      } else {
        StepUndisturbed(m, t);
        assert forall k :: 0 <= k < |s.threads| && k != i ==> next.threads[k] == s.threads[k];
        assert Reported(next.threads[i]) ==> next.refuse;
        assert next.refuse ==> Reported(next.threads[i]);
      }
      StepReportsTruly(m, s.refuse, t);
      forall k | 0 <= k < |next.threads| ensures TrueReport(m, next.threads[k]) {
        assert k != i ==> next.threads[k] == s.threads[k] && TrueReport(m, s.threads[k]);
      }
    }
  }

  /** A step keeps a report as it is, and makes only true ones. */
  lemma StepReportsTruly<T>(m: TrieModel<T>, refuse: bool, t: Thread<T>)
    requires TrueReport(m, t) && (!refuse ==> Undisturbed(m, t) && !Reported(t))
    ensures TrueReport(m, StepThread(m, refuse, t).0)
  {
    if refuse {
      StepRefusedReportsNothing(m, t);
    } else {
      StepUndisturbed(m, t);
    }
  }

  lemma {:induction false} RunKeepsReports<T>(m: TrieModel<T>, s: System<T>, schedule: seq<nat>)
    requires ReportsKept(m, s)
    ensures ReportsKept(m, Run(m, s, schedule))
    decreases |schedule|
  {
    if schedule != [] {
      StepKeepsReports(m, s, schedule[0]);
      RunKeepsReports(m, StepSystem(m, s, schedule[0]), schedule[1..]);
    }
  }

  /** No report is lost: in every interleaving, once a lookup has ended that would report mixed usage
      if it ran alone, exactly one lookup has reported, with the sources it would name alone. */
  lemma ExactlyOneReport<T>(m: TrieModel<T>, s: System<T>, schedule: seq<nat>, k: nat) returns (i: nat)
    requires !s.refuse && forall j :: 0 <= j < |s.threads| ==> s.threads[j].phase.Idle?
    requires var r := Run(m, s, schedule);
             && k < |r.threads| && r.threads[k].phase.Done?
             && GetResult(m, false, r.threads[k].keys).diag.MixedUsage?
    ensures var threads := Run(m, s, schedule).threads;
            && i < |threads| && Reported(threads[i])
            && threads[i].phase.outcome.diag == GetResult(m, false, threads[i].keys).diag
            && forall j :: 0 <= j < |threads| && Reported(threads[j]) ==> j == i
  {
    var r := Run(m, s, schedule);
    RunKeepsReports(m, s, schedule);
    OneReportKept(m, s, schedule);
    if r.refuse {
      i :| 0 <= i < |r.threads| && Reported(r.threads[i]);
    } else {
      assert Undisturbed(m, r.threads[k]);
      i := k;
    }
    assert TrueReport(m, r.threads[i]);
  }

  // ---------------------------------------------------------------- answers under concurrency

  ghost function FindFirst<T>(stored: map<KeyPath, T>, stack: seq<KeyPath>, keys: KeyPath): Option<T> {
    if stack == [] then None
    else
      var first := if |stack[0]| <= |keys| then Find(stored, stack[0], keys) else None;
      if first.Some? then first else FindFirst(stored, stack[1..], keys)
  }

  ghost predicate OnCourse<T>(stored: map<KeyPath, T>, t: Thread<T>) {
    match t.phase
    case Running(stack) => FindFirst(stored, stack, t.keys) == Find(stored, [], t.keys)
    case Done(Answer(v)) => v == Find(stored, [], t.keys)
    case _ => true
  }

  lemma ExpandStack<T>(stored: map<KeyPath, T>, stack: seq<KeyPath>, keys: KeyPath)
    requires stack != [] && |stack[0]| < |keys| && NodeExists(stored, stack[0])
    ensures var p := stack[0];
            FindFirst(stored, [p + [keys[|p|]], p + [WILD]] + stack[1..], keys) == FindFirst(stored, stack, keys)
  {
    var p := stack[0];
    var exact, wild := p + [keys[|p|]], p + [WILD];
    var s := [exact, wild] + stack[1..];
    assert s[1..] == [wild] + stack[1..] && s[1..][1..] == stack[1..];
  }

  lemma StepOnCourse<T>(m: TrieModel<T>, refuse: bool, t: Thread<T>)
    requires OnCourse(m.stored, t)
    ensures OnCourse(m.stored, StepThread(m, refuse, t).0)
  {
    match t.phase
    case Idle =>
      var start: seq<KeyPath> := [[]];
      assert start[1..] == [] && start[0] == [];
      assert FindFirst(m.stored, start, t.keys) == Find(m.stored, [], t.keys);
    case Running(stack) =>
      if stack != [] && |stack[0]| < |t.keys| && NodeExists(m.stored, stack[0]) {
        ExpandStack(m.stored, stack, t.keys);
      }
    case Done(_) =>
  }

  ghost predicate AllOnCourse<T>(m: TrieModel<T>, s: System<T>) {
    forall k :: 0 <= k < |s.threads| ==> OnCourse(m.stored, s.threads[k])
  }

  /** Whatever the interleaving, a lookup that ends with an answer ends with the answer of the
      plain search, so concurrency can only turn answers into refusals or reports. */
  lemma {:induction false} AnswersAreFind<T>(m: TrieModel<T>, s: System<T>, schedule: seq<nat>)
    requires AllOnCourse(m, s)
    ensures AllOnCourse(m, Run(m, s, schedule))
    decreases |schedule|
  {
    if schedule != [] {
      var i := schedule[0];
      if i < |s.threads| {
        StepOnCourse(m, s.refuse, s.threads[i]);
      }
      var next := StepSystem(m, s, i);
      forall k | 0 <= k < |next.threads| ensures OnCourse(m.stored, next.threads[k]) {
        assert k != i ==> next.threads[k] == s.threads[k];
      }
      AnswersAreFind(m, next, schedule[1..]);
    }
  }

  /** In every interleaving, a lookup on concrete keys that ends with an answer ends with the best
      call's value, or with nothing when no call matches. */
  lemma ConcurrentAnswersAgreeWithList<T>(history: seq<Call<T>>, s: System<T>, schedule: seq<nat>, k: nat)
    requires AfterAll(history).Some?
    requires forall i :: 0 <= i < |s.threads| ==> s.threads[i].phase.Idle?
    requires var r := Run(AfterAll(history).value, s, schedule);
             && k < |r.threads| && r.threads[k].phase.Done? && r.threads[k].phase.outcome.Answer?
             && ConcreteKeys(r.threads[k].keys)
    ensures var t := Run(AfterAll(history).value, s, schedule).threads[k];
            match t.phase.outcome.value
            case Some(v) => exists j: nat :: BestCall(history, t.keys, j) && history[j].val == v
            case None => forall j :: 0 <= j < |history| ==> !Matches(Pattern(history[j].keys), t.keys)
  {
    var m := AfterAll(history).value;
    AnswersAreFind(m, s, schedule);
    var r := Run(m, s, schedule);
    assert OnCourse(m.stored, r.threads[k]);
    FindAgreesWithList(history, r.threads[k].keys);
  }

  /** Taking `n` steps alone. */
  ghost function Alone<T>(m: TrieModel<T>, refuse: bool, t: Thread<T>, n: nat): (r: (Thread<T>, bool))
    ensures r.0.keys == t.keys
    decreases n
  {
    if n == 0 then (t, refuse)
    else
      var (u, flag) := StepThread(m, refuse, t);
      Alone(m, flag, u, n - 1)
  }

  lemma {:induction false} AloneConcat<T>(m: TrieModel<T>, refuse: bool, t: Thread<T>, a: nat, b: nat)
    ensures Alone(m, refuse, t, a + b) == var (u, flag) := Alone(m, refuse, t, a); Alone(m, flag, u, b)
    decreases a
  {
    if a > 0 {
      var (u, flag) := StepThread(m, refuse, t);
      AloneConcat(m, flag, u, a - 1, b);
    }
  }

  function Finished<T>(r: Result<T>, rest: seq<KeyPath>): Phase<T> {
    if r.diag != Clean then Done(Failed(r.diag))
    else if r.value.Some? then Done(Answer(r.value))
    else Running(rest)
  }

  /** The node at `p` exists, is not a leaf, and its next key passes the check. */
  ghost predicate Descends<T>(m: TrieModel<T>, refuse: bool, p: KeyPath, keys: KeyPath)
    requires |p| <= |keys|
  {
    NodeExists(m.stored, p) && |p| < |keys| && CheckKey(m, refuse, |p|, keys[|p|]).0 == Clean
  }

  lemma StepSettles<T>(m: TrieModel<T>, refuse: bool, p: KeyPath, rest: seq<KeyPath>, keys: KeyPath)
    requires |p| <= |keys| && !Descends(m, refuse, p, keys)
    ensures var r := Walk(m, refuse, p, keys);
            Alone(m, refuse, Thread(keys, Running([p] + rest)), 1) == (Thread(keys, Finished(r, rest)), r.refuse)
  {
    var t := Thread(keys, Running([p] + rest));
    assert ([p] + rest)[1..] == rest;
    var (u, flag) := StepThread(m, refuse, t);
    assert Alone(m, flag, u, 0) == (u, flag);
  }

  lemma StepDescends<T>(m: TrieModel<T>, refuse: bool, p: KeyPath, rest: seq<KeyPath>, keys: KeyPath)
    requires |p| <= |keys| && Descends(m, refuse, p, keys)
    ensures var exact, wild := p + [keys[|p|]], p + [WILD];
            Alone(m, refuse, Thread(keys, Running([p] + rest)), 1) ==
            (Thread(keys, Running([exact] + ([wild] + rest))), CheckKey(m, refuse, |p|, keys[|p|]).1)
  {
    var t := Thread(keys, Running([p] + rest));
    var exact, wild := p + [keys[|p|]], p + [WILD];
    assert ([p] + rest)[1..] == rest;
    assert [exact, wild] + rest == [exact] + ([wild] + rest);
    var (u, flag) := StepThread(m, refuse, t);
    assert Alone(m, flag, u, 0) == (u, flag);
  }

  /** The atomic steps, taken without interference, are the recursive search: same diagnostic,
      same value, same flag, and the pending nodes untouched when nothing is found. */
  lemma {:induction false} WalkIsSteps<T>(
      m: TrieModel<T>, refuse: bool, p: KeyPath, rest: seq<KeyPath>, keys: KeyPath)
    returns (n: nat)
    requires |p| <= |keys|
    ensures var r := Walk(m, refuse, p, keys);
            Alone(m, refuse, Thread(keys, Running([p] + rest)), n) == (Thread(keys, Finished(r, rest)), r.refuse)
    decreases |keys| - |p|
  {
    n := 1;
    if !Descends(m, refuse, p, keys) {
      StepSettles(m, refuse, p, rest, keys);
      return;
    }
    var t := Thread(keys, Running([p] + rest));
    var exact, wild, flag := p + [keys[|p|]], p + [WILD], CheckKey(m, refuse, |p|, keys[|p|]).1;
    StepDescends(m, refuse, p, rest, keys);
    var a := WalkIsSteps(m, flag, exact, [wild] + rest, keys);
    var r := Walk(m, flag, exact, keys);
    WalkSplit(m, refuse, p, keys);
    AloneConcat(m, refuse, t, 1, a);
    n := 1 + a;
    if r.diag == Clean && r.value.None? {
      var b := WalkIsSteps(m, r.refuse, wild, rest, keys);
      AloneConcat(m, refuse, t, 1 + a, b);
      n := 1 + a + b;
    }
  }
}
