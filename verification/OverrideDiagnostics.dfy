/** Exactly when recording an override or looking one up fails (`setNoKeyEvidence` and `checkKey` of
    override_trie.go), and how, in terms of the Set calls made. */
module OverrideDiagnostics {
  import opened Addresses
  import opened OverrideSpec

  // ---------------------------------------------------------------- what the tables record

  function EvidenceAt(evidence: seq<seq<nat>>, i: nat): seq<nat> {
    if i < |evidence| then evidence[i] else []
  }

  /** The sources of the calls that leave position `i` unkeyed, in order. */
  function Sources<T>(history: seq<Call<T>>, i: nat): seq<nat> {
    if history == [] then []
    else
      var last := history[|history| - 1];
      Sources(history[..|history| - 1], i) + if i < |last.keys| && last.keys[i] == NoKey then [last.src] else []
  }

  ghost predicate SomeWildcard<T>(history: seq<Call<T>>) {
    exists c :: 0 <= c < |history| && UsesWildcard(history[c].keys)
  }

  predicate Unkeyed(keys: KeyPath) {
    exists i :: 0 <= i < |keys| && keys[i] == NoKey
  }

  /** The size of the evidence table: the number of keys of the first call that leaves one out. */
  function TableWidth<T>(history: seq<Call<T>>): nat {
    if history == [] then 0
    else
      var before, keys := TableWidth(history[..|history| - 1]), history[|history| - 1].keys;
      if before == 0 && Unkeyed(keys) then |keys| else before
  }

  /** Where the table is when the first `n` keys of a call have been recorded. */
  function WidthAfter(width: nat, keys: KeyPath, n: nat): nat
    requires n <= |keys|
  {
    if width == 0 && Unkeyed(keys[..n]) then |keys| else width
  }

  predicate FitsUpTo(width: nat, keys: KeyPath, n: nat)
    requires n <= |keys|
  {
    forall i :: 0 <= i < n && keys[i] == NoKey ==> i < (if width == 0 then |keys| else width)
  }

  lemma UnkeyedSnoc(keys: KeyPath, n: nat)
    requires n < |keys|
    ensures Unkeyed(keys[..n + 1]) <==> Unkeyed(keys[..n]) || keys[n] == NoKey
  {
    var s, t := keys[..n], keys[..n + 1];
    assert t[n] == keys[n] && forall j :: 0 <= j < n ==> t[j] == s[j];
  }

  lemma EvidenceAdded(evidence: seq<seq<nat>>, size: nat, i: nat, src: nat)
    ensures var r := AddEvidence(evidence, size, i, src);
            r.Some? ==>
              forall k: nat :: EvidenceAt(r.value, k) == EvidenceAt(evidence, k) + if k == i then [src] else []
  {
  }

  /** The table `after` has taken up the first `n` keys of a call. */
  ghost predicate Records(evidence: seq<seq<nat>>, keys: KeyPath, n: nat, src: nat, after: seq<seq<nat>>)
    requires n <= |keys|
  {
    && |after| == WidthAfter(|evidence|, keys, n)
    && forall i: nat :: EvidenceAt(after, i) ==
                   EvidenceAt(evidence, i) + if i < n && keys[i] == NoKey then [src] else []
  }

  lemma EvidenceStep(evidence: seq<seq<nat>>, keys: KeyPath, n: nat, src: nat, before: seq<seq<nat>>)
    requires n < |keys| && Records(evidence, keys, n, src, before) && FitsUpTo(|evidence|, keys, n)
    ensures var r := if keys[n] == NoKey then AddEvidence(before, |keys|, n, src) else Some(before);
            && (r.Some? <==> FitsUpTo(|evidence|, keys, n + 1))
            && (r.Some? ==> Records(evidence, keys, n + 1, src, r.value))
  {
    UnkeyedSnoc(keys, n);
    EvidenceAdded(before, |keys|, n, src);
  }

  /** Recording a call, key by key: it fails exactly when a key is left out beyond the table. */
  lemma {:induction false} EvidenceOfCall(evidence: seq<seq<nat>>, keys: KeyPath, n: nat, src: nat)
    requires n <= |keys|
    ensures var r := EvidenceAfter(evidence, keys, n, src);
            && (r.Some? <==> FitsUpTo(|evidence|, keys, n))
            && (r.Some? ==> Records(evidence, keys, n, src, r.value))
  {
    if n > 0 {
      EvidenceOfCall(evidence, keys, n - 1, src);
      var before := EvidenceAfter(evidence, keys, n - 1, src);
      if before.Some? {
        EvidenceStep(evidence, keys, n - 1, src, before.value);
      }
    }
  }

  /** No call leaves out a key beyond the table. */
  predicate AllFit<T>(history: seq<Call<T>>) {
    forall c :: 0 <= c < |history| ==> FitsUpTo(TableWidth(history), history[c].keys, |history[c].keys|)
  }

  lemma {:induction false} WidthOfUnkeyed<T>(history: seq<Call<T>>)
    ensures TableWidth(history) == 0 ==> forall c :: 0 <= c < |history| ==> !Unkeyed(history[c].keys)
  {
    if history != [] {
      WidthOfUnkeyed(history[..|history| - 1]);
    }
  }

  lemma AllFitSnoc<T>(history: seq<Call<T>>)
    requires history != []
    ensures var last := |history| - 1;
            AllFit(history) <==>
              && AllFit(history[..last])
              && FitsUpTo(TableWidth(history[..last]), history[last].keys, |history[last].keys|)
  {
    var last := |history| - 1;
    var start := history[..last];
    WidthOfUnkeyed(start);
    assert forall c :: 0 <= c < last ==> start[c] == history[c];
    assert history[last].keys[..|history[last].keys|] == history[last].keys;
    if AllFit(start) && FitsUpTo(TableWidth(start), history[last].keys, |history[last].keys|) {
      forall c | 0 <= c < |history| ensures FitsUpTo(TableWidth(history), history[c].keys, |history[c].keys|) {
        assert c < last ==> FitsUpTo(TableWidth(start), start[c].keys, |start[c].keys|);
      }
    }
    if AllFit(history) {
      assert FitsUpTo(TableWidth(history), history[last].keys, |history[last].keys|);
      forall c | 0 <= c < last ensures FitsUpTo(TableWidth(start), start[c].keys, |start[c].keys|) {
        assert FitsUpTo(TableWidth(history), history[c].keys, |history[c].keys|);
      }
    }
  }

  /** A history of Set calls is accepted exactly when no call leaves out a key at a position where the
      first call to leave one out has no key at all; the table then lists, for every position, the
      calls that left it out. */
  lemma {:induction false} AcceptedIffAllFit<T>(history: seq<Call<T>>)
    ensures AfterAll(history).Some? <==> AllFit(history)
    ensures AfterAll(history).Some? ==>
              var evidence := AfterAll(history).value.evidence;
              |evidence| == TableWidth(history) && forall i: nat :: EvidenceAt(evidence, i) == Sources(history, i)
  {
    if history != [] {
      var last := |history| - 1;
      AcceptedIffAllFit(history[..last]);
      AllFitSnoc(history);
      if AfterAll(history[..last]).Some? {
        var keys := history[last].keys;
        EvidenceOfCall(AfterAll(history[..last]).value.evidence, keys, |keys|, history[last].src);
        assert keys[..|keys|] == keys;
      }
    }
  }

  /** Calls of one depth are always accepted. */
  lemma OneDepthAccepted<T>(history: seq<Call<T>>, depth: nat)
    requires forall c :: 0 <= c < |history| ==> |history[c].keys| == depth
    ensures AfterAll(history).Some? && TableWidth(history) in {0, depth}
  {
    OneDepthWidth(history, depth);
    AcceptedIffAllFit(history);
  }

  lemma {:induction false} OneDepthWidth<T>(history: seq<Call<T>>, depth: nat)
    requires forall c :: 0 <= c < |history| ==> |history[c].keys| == depth
    ensures TableWidth(history) in {0, depth}
  {
    if history != [] {
      OneDepthWidth(history[..|history| - 1], depth);
    }
  }

  /** Two calls of different depths, of which the second panics. */
  lemma DeeperCallPanics<T>(val: T)
    ensures AfterAll([Call([NoKey], val, 0), Call([NoKey, NoKey], val, 1)]).None?
  {
    var history := [Call([NoKey], val, 0), Call([NoKey, NoKey], val, 1)];
    AcceptedIffAllFit(history);
    AllFitSnoc(history);
    var first := history[..1];
    assert first == [Call([NoKey], val, 0)] && first[..0] == [];
    assert first[0].keys[0] == NoKey && TableWidth(first) == 1;
    assert history[1].keys[1] == NoKey;
  }

  lemma {:induction false} ModernIsSomeWildcard<T>(history: seq<Call<T>>)
    requires AfterAll(history).Some?
    ensures AfterAll(history).value.modern <==> SomeWildcard(history)
  {
    if history != [] {
      var last := |history| - 1;
      ModernIsSomeWildcard(history[..last]);
      assert forall c :: 0 <= c < last ==> history[..last][c] == history[c];
    }
  }

  lemma NodesAreCalls<T>(history: seq<Call<T>>, p: KeyPath)
    requires AfterAll(history).Some? && p != []
    ensures NodeExists(AfterAll(history).value.stored, p) <==>
            exists c :: 0 <= c < |history| && p <= Pattern(history[c].keys)
  {
    var stored := AfterAll(history).value.stored;
    if s :| s in stored && p <= s {
      var c := StoredIsLast(history, s);
      assert p <= Pattern(history[c].keys);
    }
    if c :| 0 <= c < |history| && p <= Pattern(history[c].keys) {
      var _ := StoredIsLast(history, Pattern(history[c].keys));
    }
  }

  // ---------------------------------------------------------------- which node stops a search

  /** What checking position `i` says while the flag is down. */
  function Objection<T>(m: TrieModel<T>, keys: KeyPath, i: nat): Diag
    requires i < |keys|
  {
    CheckKey(m, false, i, keys[i]).0
  }

  /** The first position from `i` on that objects to its key, or the number of keys. */
  function FirstStop<T>(m: TrieModel<T>, keys: KeyPath, i: nat): (j: nat)
    requires i <= |keys|
    ensures i <= j <= |keys|
    ensures j < |keys| ==> Objection(m, keys, j) != Clean
    ensures forall k :: i <= k < j ==> Objection(m, keys, k) == Clean
    decreases |keys| - i
  {
    if i == |keys| || Objection(m, keys, i) != Clean then i else FirstStop(m, keys, i + 1)
  }

  /** A node at depth `j` that lies below `p` and matches the keys from there on. */
  ghost predicate ReachedBy<T>(stored: map<KeyPath, T>, p: KeyPath, keys: KeyPath, j: nat, q: KeyPath) {
    && p <= q && |q| == j <= |keys| && NodeExists(stored, q)
    && forall k :: |p| <= k < j ==> q[k] == keys[k] || q[k] == WILD
  }

  ghost predicate Reached<T>(stored: map<KeyPath, T>, p: KeyPath, keys: KeyPath, j: nat) {
    exists q :: ReachedBy(stored, p, keys, j, q)
  }

  lemma PrefixNode<T>(stored: map<KeyPath, T>, q: KeyPath, i: nat)
    requires NodeExists(stored, q) && i <= |q|
    ensures NodeExists(stored, q[..i])
  {
    if q != [] {
      var s :| s in stored && q <= s;
      assert q[..i] == s[..i];
    } else {
      assert q[..i] == [];
    }
  }

  /** Whatever lies deeper is reached through every depth above it. */
  lemma ReachedAbove<T>(stored: map<KeyPath, T>, p: KeyPath, keys: KeyPath, i: nat, j: nat)
    requires Reached(stored, p, keys, j) && |p| <= i <= j
    ensures Reached(stored, p, keys, i)
  {
    var q :| ReachedBy(stored, p, keys, j, q);
    PrefixNode(stored, q, i);
    assert p == q[..|p|] == q[..i][..|p|];
    assert ReachedBy(stored, p, keys, i, q[..i]);
  }

  lemma ReachedFromChild<T>(stored: map<KeyPath, T>, p: KeyPath, keys: KeyPath, j: nat, key: InstanceKey)
    requires |p| < |keys| && key in {keys[|p|], WILD} && Reached(stored, p + [key], keys, j)
    ensures Reached(stored, p, keys, j)
  {
    var q :| ReachedBy(stored, p + [key], keys, j, q);
    assert q[..|p| + 1] == p + [key];
    assert q[..|p|] == q[..|p| + 1][..|p|] == p;
    assert q[|p|] == q[..|p| + 1][|p|] == key;
    assert ReachedBy(stored, p, keys, j, q);
  }

  /** Below a node the search goes on through the exact child or the wildcard child. */
  lemma ReachedThroughChild<T>(stored: map<KeyPath, T>, p: KeyPath, keys: KeyPath, j: nat)
    requires |p| < |keys| && |p| < j
    ensures Reached(stored, p, keys, j) <==>
            Reached(stored, p + [keys[|p|]], keys, j) || Reached(stored, p + [WILD], keys, j)
  {
    if Reached(stored, p, keys, j) {
      var q :| ReachedBy(stored, p, keys, j, q);
      assert q[..|p| + 1] == p + [q[|p|]];
      assert ReachedBy(stored, p + [q[|p|]], keys, j, q);
    }
    if Reached(stored, p + [keys[|p|]], keys, j) {
      ReachedFromChild(stored, p, keys, j, keys[|p|]);
    }
    if Reached(stored, p + [WILD], keys, j) {
      ReachedFromChild(stored, p, keys, j, WILD);
    }
  }

  lemma ReachedNode<T>(stored: map<KeyPath, T>, p: KeyPath, keys: KeyPath, j: nat)
    requires Reached(stored, p, keys, j)
    ensures NodeExists(stored, p)
  {
    var q :| ReachedBy(stored, p, keys, j, q);
    assert q[..|p|] == p;
    PrefixNode(stored, q, |p|);
  }

  /** The diagnostic of the search below `p`, given the first position that objects. */
  ghost function StopDiag<T>(m: TrieModel<T>, p: KeyPath, keys: KeyPath): Diag
    requires |p| <= |keys|
  {
    var j := FirstStop(m, keys, |p|);
    if j < |keys| && Reached(m.stored, p, keys, j) then Objection(m, keys, j) else Clean
  }

  /** The search raises the objection of the first position that objects exactly when it can get
      there: a value found on the way would lie beyond that position. */
  lemma {:induction false} WalkDiag<T>(m: TrieModel<T>, p: KeyPath, keys: KeyPath)
    requires |p| <= |keys|
    ensures var r := Walk(m, false, p, keys);
            r.diag == StopDiag(m, p, keys) && (r.value.Some? ==> r.diag == Clean && Reached(m.stored, p, keys, |keys|))
    decreases |keys| - |p|
  {
    if !NodeExists(m.stored, p) {
      if Reached(m.stored, p, keys, FirstStop(m, keys, |p|)) {
        ReachedNode(m.stored, p, keys, FirstStop(m, keys, |p|));
      }
    } else {
      assert ReachedBy(m.stored, p, keys, |p|, p);
      if |p| < |keys| && Objection(m, keys, |p|) == Clean {
        WalkDiagStep(m, p, keys);
      }
    }
  }

  lemma {:induction false} WalkDiagStep<T>(m: TrieModel<T>, p: KeyPath, keys: KeyPath)
    requires |p| < |keys| && NodeExists(m.stored, p) && Objection(m, keys, |p|) == Clean
    ensures var r := Walk(m, false, p, keys);
            r.diag == StopDiag(m, p, keys) && (r.value.Some? ==> r.diag == Clean && Reached(m.stored, p, keys, |keys|))
    decreases |keys| - |p|, 0
  {
    var exact, wild, j := p + [keys[|p|]], p + [WILD], FirstStop(m, keys, |p|);
    var first := Walk(m, false, exact, keys);
    WalkDiag(m, exact, keys);
    WalkDiag(m, wild, keys);
    MixedUsageNeedsEvidence(m, false, exact, keys);
    WalkSplit(m, false, p, keys);
    ReachedThroughChild(m.stored, p, keys, j);
    ReachedThroughChild(m.stored, p, keys, |keys|);
    if first.value.Some? && j < |keys| {
      ReachedAbove(m.stored, exact, keys, j, |keys|);
    }
  }

  // ---------------------------------------------------------------- the diagnostic of a lookup

  /** Some call agrees with the lookup before position `i`. */
  ghost predicate AgreesBefore<T>(history: seq<Call<T>>, keys: KeyPath, i: nat) {
    exists c :: 0 <= c < |history| && i <= |history[c].keys| && MatchesSoFar(Pattern(history[c].keys)[..i], keys)
  }

  /** The lookup has a key where some call left it out, at a position some call leads to. */
  ghost predicate Offends<T>(history: seq<Call<T>>, keys: KeyPath, i: nat) {
    i < |keys| && keys[i] != NoKey && Sources(history, i) != [] && AgreesBefore(history, keys, i)
  }

  /** The lookup has a key beyond the evidence table, at a position some call leads to. */
  ghost predicate Overruns<T>(history: seq<Call<T>>, keys: KeyPath, i: nat) {
    i < |keys| && keys[i] != NoKey && 0 < TableWidth(history) <= i && AgreesBefore(history, keys, i)
  }

  lemma ReachedIsAgreement<T>(history: seq<Call<T>>, keys: KeyPath, i: nat)
    requires AfterAll(history).Some? && i < |keys| && history != []
    ensures Reached(AfterAll(history).value.stored, [], keys, i) <==> AgreesBefore(history, keys, i)
  {
    var stored := AfterAll(history).value.stored;
    if Reached(stored, [], keys, i) {
      var q :| ReachedBy(stored, [], keys, i, q);
      var c := 0;
      if q != [] {
        NodesAreCalls(history, q);
        c :| 0 <= c < |history| && q <= Pattern(history[c].keys);
      }
      assert Pattern(history[c].keys)[..i] == q;
    }
    if AgreesBefore(history, keys, i) {
      var c :| 0 <= c < |history| && i <= |history[c].keys| && MatchesSoFar(Pattern(history[c].keys)[..i], keys);
      var q := Pattern(history[c].keys)[..i];
      if q != [] {
        NodesAreCalls(history, q);
      }
      assert ReachedBy(stored, [], keys, i, q);
    }
  }

  lemma AgreesEarlier<T>(history: seq<Call<T>>, keys: KeyPath, i: nat, j: nat)
    requires AgreesBefore(history, keys, j) && i <= j
    ensures AgreesBefore(history, keys, i)
  {
    var c :| 0 <= c < |history| && j <= |history[c].keys| && MatchesSoFar(Pattern(history[c].keys)[..j], keys);
    var p := Pattern(history[c].keys);
    assert forall k :: 0 <= k < i ==> p[..i][k] == p[..j][k];
    assert MatchesSoFar(p[..i], keys);
  }

  lemma ObjectionIs<T>(history: seq<Call<T>>, keys: KeyPath, i: nat)
    requires AfterAll(history).Some? && i < |keys| && ConcreteKeys(keys)
    ensures Objection(AfterAll(history).value, keys, i) ==
            if !SomeWildcard(history) || keys[i] == NoKey || TableWidth(history) == 0 then Clean
            else if i >= TableWidth(history) then OutOfRange
            else if Sources(history, i) != [] then MixedUsage(Sources(history, i))
            else Clean
  {
    AcceptedIffAllFit(history);
    ModernIsSomeWildcard(history);
    assert EvidenceAt(AfterAll(history).value.evidence, i) == Sources(history, i);
  }

  lemma SourcesInTable<T>(history: seq<Call<T>>, i: nat)
    requires AfterAll(history).Some? && Sources(history, i) != []
    ensures i < TableWidth(history)
  {
    AcceptedIffAllFit(history);
    assert EvidenceAt(AfterAll(history).value.evidence, i) == Sources(history, i);
  }

  /** The diagnostic at the first position that objects. */
  lemma LookupDiag<T>(history: seq<Call<T>>, keys: KeyPath)
    requires AfterAll(history).Some? && ConcreteKeys(keys)
    ensures var m := AfterAll(history).value;
            var diag, j := GetResult(m, false, keys).diag, FirstStop(m, keys, 0);
            diag == if SomeWildcard(history) && Offends(history, keys, j) then MixedUsage(Sources(history, j))
                    else if SomeWildcard(history) && Overruns(history, keys, j) then OutOfRange
                    else Clean
  {
    var m := AfterAll(history).value;
    var j := FirstStop(m, keys, 0);
    WalkDiag(m, [], keys);
    if j < |keys| {
      ObjectionIs(history, keys, j);
      ReachedIsAgreement(history, keys, j);
      if Sources(history, j) != [] {
        SourcesInTable(history, j);
      }
    }
  }

  ghost predicate Stops<T>(history: seq<Call<T>>, keys: KeyPath, i: nat) {
    Offends(history, keys, i) || Overruns(history, keys, i)
  }

  /** No position stops the lookup before the first that objects, and that one does if any does. */
  lemma FirstStopStops<T>(history: seq<Call<T>>, keys: KeyPath, k: nat)
    requires AfterAll(history).Some? && ConcreteKeys(keys)
    requires SomeWildcard(history) && Stops(history, keys, k)
    ensures var j := FirstStop(AfterAll(history).value, keys, 0); j <= k && Stops(history, keys, j)
  {
    var j := FirstStop(AfterAll(history).value, keys, 0);
    ObjectionIs(history, keys, k);
    if Sources(history, k) != [] {
      SourcesInTable(history, k);
    }
    AgreesEarlier(history, keys, j, k);
    ObjectionIs(history, keys, j);
  }

  /** After any accepted calls a lookup on concrete keys fails only in two ways, and only if some call
      used a wildcard. It reports mixed usage exactly when it offends at some position, and then names
      all the calls that left out the key at the first such position; and it panics exactly when it
      offends nowhere and has a key beyond the evidence table. */
  lemma LookupFailsIff<T>(history: seq<Call<T>>, keys: KeyPath)
    requires AfterAll(history).Some? && ConcreteKeys(keys)
    ensures var diag := GetResult(AfterAll(history).value, false, keys).diag;
            && diag != WildcardQuery
            && (diag.MixedUsage? <==> SomeWildcard(history) && exists i: nat :: Offends(history, keys, i))
            && (diag.MixedUsage? ==>
                  exists i: nat :: Offends(history, keys, i) && diag.ranges == Sources(history, i) &&
                                   forall k: nat :: k < i ==> !Offends(history, keys, k))
            && (diag.OutOfRange? <==>
                  && SomeWildcard(history) && (forall i: nat :: !Offends(history, keys, i))
                  && exists i: nat :: Overruns(history, keys, i))
  {
    LookupDiag(history, keys);
    var j := FirstStop(AfterAll(history).value, keys, 0);
    if SomeWildcard(history) {
      forall k: nat | Stops(history, keys, k) ensures j <= k && Stops(history, keys, j) {
        FirstStopStops(history, keys, k);
      }
      forall k: nat | Offends(history, keys, k) ensures j <= k && Offends(history, keys, j) {
        assert Stops(history, keys, k);
        SourcesInTable(history, k);
      }
      if i: nat :| Overruns(history, keys, i) {
        assert Stops(history, keys, i);
      }
    }
  }

  /** Two calls of different depths that are accepted, and a lookup that panics. */
  lemma DeeperLookupPanics<T>(val: T)
    ensures var history := [Call([NoKey], val, 0), Call([WILD, IntKey(0)], val, 1)];
            AfterAll(history).Some? && GetResult(AfterAll(history).value, false, [NoKey, IntKey(0)]).diag == OutOfRange
  {
    var history := [Call([NoKey], val, 0), Call([WILD, IntKey(0)], val, 1)];
    var first, keys := history[..1], [NoKey, IntKey(0)];
    assert first == [Call([NoKey], val, 0)] && first[..0] == [];
    assert first[0].keys[0] == NoKey && TableWidth(first) == 1;
    assert TableWidth(history) == 1;
    assert Sources(history, 1) == [] by {
      assert Sources(first, 1) == Sources(first[..0], 1) == [];
    }
    AcceptedIffAllFit(history);
    LookupFailsIff(history, keys);
    assert history[1].keys[0].WildcardKey? && UsesWildcard(history[1].keys);
    assert Pattern(history[1].keys)[..1] == [WILD];
    assert AgreesBefore(history, keys, 1);
    assert Overruns(history, keys, 1);
  }

  /** Within the depth of calls of one depth no lookup panics. */
  lemma OneDepthNeverPanics<T>(history: seq<Call<T>>, depth: nat, keys: KeyPath)
    requires forall c :: 0 <= c < |history| ==> |history[c].keys| == depth
    requires |keys| <= depth && ConcreteKeys(keys)
    ensures AfterAll(history).Some? && GetResult(AfterAll(history).value, false, keys).diag != OutOfRange
  {
    OneDepthAccepted(history, depth);
    LookupFailsIff(history, keys);
  }
}
