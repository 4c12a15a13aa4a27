/** What an override trie means in terms of addresses (`Set` and `Get` of override_trie.go): which of
    the addresses written a looked-up address takes its value from. */
module OverrideAddresses {
  import opened Addresses
  import opened OverrideDiagnostics
  import opened OverrideSpec
  import opened OverrideTries

  /** One Set call, with the address it was given. */
  datatype AddressCall<T> = AddressCall(addr: AbsResourceInstance, val: T, src: nat)

  /** The calls as the trie records them. */
  function Calls<T>(history: seq<AddressCall<T>>): (r: seq<Call<T>>)
    ensures |r| == |history|
  {
    seq(|history|, i requires 0 <= i < |history| =>
      Call(KeyList(history[i].addr), history[i].val, history[i].src))
  }

  /** The key of the module step at `i`, and after the last step the key of the instance itself. */
  function KeyAt(a: AbsResourceInstance, i: nat): InstanceKey
    requires i <= |a.path|
  {
    if i < |a.path| then a.path[i].key else a.instance.key
  }

  /** A key left out when writing an override stands for every key, like the wildcard. */
  predicate AnyInstance(k: InstanceKey) {
    k == NoKey || k == WildcardKey(UnknownKeyType)
  }

  predicate KeyMatches(written: InstanceKey, looked: InstanceKey) {
    AnyInstance(written) || written == looked
  }

  /** The address written covers the address looked up: as many module steps, and at every step and at
      the instance the same key or any. */
  predicate AddressMatches(written: AbsResourceInstance, looked: AbsResourceInstance) {
    && |written.path| == |looked.path|
    && (forall i :: 0 <= i < |looked.path| ==> KeyMatches(written.path[i].key, looked.path[i].key))
    && KeyMatches(written.instance.key, looked.instance.key)
  }

  predicate NamesKey(written: AbsResourceInstance, looked: AbsResourceInstance, i: nat)
    requires |written.path| == |looked.path| && i <= |looked.path|
  {
    !AnyInstance(KeyAt(written, i)) && KeyAt(written, i) == KeyAt(looked, i)
  }

  predicate SameKey(k: InstanceKey, l: InstanceKey) {
    k == l || (AnyInstance(k) && AnyInstance(l))
  }

  predicate SameBefore(a: AbsResourceInstance, b: AbsResourceInstance, i: nat)
    requires |a.path| == |b.path| && i <= |a.path| + 1
  {
    forall j :: 0 <= j < i ==> SameKey(KeyAt(a, j), KeyAt(b, j))
  }

  /** Two addresses that override the same instances. */
  predicate SameOverride(a: AbsResourceInstance, b: AbsResourceInstance) {
    |a.path| == |b.path| && SameBefore(a, b, |a.path| + 1)
  }

  predicate FirstNamedAt(a: AbsResourceInstance, b: AbsResourceInstance, looked: AbsResourceInstance, i: nat)
    requires |a.path| == |b.path| == |looked.path| && i <= |looked.path|
  {
    SameBefore(a, b, i) && NamesKey(a, looked, i) && !NamesKey(b, looked, i)
  }

  /** `a` names the key looked up at the outermost position where the two differ. */
  predicate MoreSpecific(a: AbsResourceInstance, b: AbsResourceInstance, looked: AbsResourceInstance)
    requires |a.path| == |b.path| == |looked.path|
  {
    exists i :: 0 <= i <= |looked.path| && FirstNamedAt(a, b, looked, i)
  }

  /** The call an address takes its value from: it matches, it is more specific than every other
      matching override, and it is the last call for its own. */
  predicate Decides<T>(history: seq<AddressCall<T>>, looked: AbsResourceInstance, j: nat) {
    && j < |history| && AddressMatches(history[j].addr, looked)
    && forall l :: 0 <= l < |history| && AddressMatches(history[l].addr, looked) ==>
         if SameOverride(history[l].addr, history[j].addr) then l <= j
         else MoreSpecific(history[j].addr, history[l].addr, looked)
  }

  /** No key of the address is a wildcard. */
  predicate NoWildcards(a: AbsResourceInstance) {
    (forall i :: 0 <= i < |a.path| ==> !a.path[i].key.WildcardKey?) && !a.instance.key.WildcardKey?
  }

  // ---------------------------------------------------------------- addresses and key lists

  lemma KeyListAt(a: AbsResourceInstance)
    ensures forall i :: 0 <= i <= |a.path| ==> KeyList(a)[i] == KeyAt(a, i)
  {
  }

  lemma NoWildcardsIsConcrete(a: AbsResourceInstance)
    ensures NoWildcards(a) <==> ConcreteKeys(KeyList(a))
  {
    KeyListAt(a);
    if ConcreteKeys(KeyList(a)) {
      forall i | 0 <= i < |a.path| ensures !a.path[i].key.WildcardKey? {
        assert KeyList(a)[i] == KeyAt(a, i);
      }
      assert KeyList(a)[|a.path|] == KeyAt(a, |a.path|);
    }
  }

  lemma MatchesIff(written: AbsResourceInstance, looked: AbsResourceInstance)
    requires NoWildcards(looked)
    ensures AddressMatches(written, looked) <==> Matches(Pattern(KeyList(written)), KeyList(looked))
  {
    KeyListAt(written);
    KeyListAt(looked);
    var p, keys := Pattern(KeyList(written)), KeyList(looked);
    if Matches(p, keys) {
      forall i | 0 <= i <= |looked.path| ensures KeyMatches(KeyAt(written, i), KeyAt(looked, i)) {
        assert p[i] == keys[i] || p[i] == WILD;
      }
      forall i | 0 <= i < |looked.path| ensures KeyMatches(written.path[i].key, looked.path[i].key) {
        assert KeyMatches(KeyAt(written, i), KeyAt(looked, i));
      }
      assert KeyMatches(KeyAt(written, |looked.path|), KeyAt(looked, |looked.path|));
    }
    if AddressMatches(written, looked) {
      forall i | 0 <= i < |keys| ensures p[i] == keys[i] || p[i] == WILD {
        assert KeyMatches(KeyAt(written, i), KeyAt(looked, i));
      }
    }
  }

  lemma SameBeforeIff(a: AbsResourceInstance, b: AbsResourceInstance, i: nat)
    requires |a.path| == |b.path| && i <= |a.path| + 1
    ensures SameBefore(a, b, i) <==> Pattern(KeyList(a))[..i] == Pattern(KeyList(b))[..i]
  {
    KeyListAt(a);
    KeyListAt(b);
    var p, q := Pattern(KeyList(a)), Pattern(KeyList(b));
    assert forall j :: 0 <= j <= |a.path| ==> (SameKey(KeyAt(a, j), KeyAt(b, j)) <==> p[j] == q[j]);
    if p[..i] == q[..i] {
      forall j | 0 <= j < i ensures SameKey(KeyAt(a, j), KeyAt(b, j)) {
        assert p[..i][j] == q[..i][j];
      }
    }
  }

  lemma SameOverrideIff(a: AbsResourceInstance, b: AbsResourceInstance)
    ensures SameOverride(a, b) <==> Pattern(KeyList(a)) == Pattern(KeyList(b))
  {
    var p, q := Pattern(KeyList(a)), Pattern(KeyList(b));
    assert p[..|p|] == p && q[..|q|] == q;
    if |a.path| == |b.path| {
      SameBeforeIff(a, b, |a.path| + 1);
    }
  }

  lemma PreferredIsMoreSpecific(a: AbsResourceInstance, b: AbsResourceInstance, looked: AbsResourceInstance)
    requires |a.path| == |b.path| == |looked.path| && NoWildcards(looked)
    requires Prefers(Pattern(KeyList(a)), Pattern(KeyList(b)), KeyList(looked))
    ensures MoreSpecific(a, b, looked)
  {
    NoWildcardsIsConcrete(looked);
    KeyListAt(a);
    KeyListAt(b);
    KeyListAt(looked);
    var p, q, keys := Pattern(KeyList(a)), Pattern(KeyList(b)), KeyList(looked);
    var i :| 0 <= i < |keys| && ExactFirstAt(p, q, keys, i);
    SameBeforeIff(a, b, i);
    assert FirstNamedAt(a, b, looked, i);
  }

  /** What the best of the recorded calls is, among the addresses written. */
  lemma BestCallDecides<T>(history: seq<AddressCall<T>>, looked: AbsResourceInstance, j: nat)
    requires NoWildcards(looked) && BestCall(Calls(history), KeyList(looked), j)
    ensures Decides(history, looked, j)
  {
    var calls, keys := Calls(history), KeyList(looked);
    MatchesIff(history[j].addr, looked);
    forall l | 0 <= l < |history| && AddressMatches(history[l].addr, looked)
      ensures if SameOverride(history[l].addr, history[j].addr) then l <= j
              else MoreSpecific(history[j].addr, history[l].addr, looked)
    {
      MatchesIff(history[l].addr, looked);
      SameOverrideIff(history[l].addr, history[j].addr);
      assert Matches(Pattern(calls[l].keys), keys);
      if !SameOverride(history[l].addr, history[j].addr) {
        PreferredIsMoreSpecific(history[j].addr, history[l].addr, looked);
      }
    }
  }

  /** The value an address must get: that of the call that decides, or none when no call matches. */
  ghost predicate RightValue<T>(history: seq<AddressCall<T>>, looked: AbsResourceInstance, value: Option<T>) {
    match value
    case Some(v) => exists j: nat :: Decides(history, looked, j) && history[j].val == v
    case None => forall j :: 0 <= j < |history| ==> !AddressMatches(history[j].addr, looked)
  }

  lemma ListValueIsRight<T>(history: seq<AddressCall<T>>, looked: AbsResourceInstance, value: Option<T>)
    requires NoWildcards(looked)
    requires match value
             case Some(v) => exists j: nat :: BestCall(Calls(history), KeyList(looked), j) && Calls(history)[j].val == v
             case None =>
               forall j :: 0 <= j < |history| ==> !Matches(Pattern(Calls(history)[j].keys), KeyList(looked))
    ensures RightValue(history, looked, value)
  {
    if value.Some? {
      var j: nat :| BestCall(Calls(history), KeyList(looked), j) && Calls(history)[j].val == value.value;
      BestCallDecides(history, looked, j);
    } else {
      forall j | 0 <= j < |history| ensures !AddressMatches(history[j].addr, looked) {
        MatchesIff(history[j].addr, looked);
        assert !Matches(Pattern(Calls(history)[j].keys), KeyList(looked));
      }
    }
  }

  /** After any accepted sequence of Set calls a lookup of an address without wildcards that raises no
      diagnostic returns the value of the call that decides, and nothing exactly when none
      matches. */
  lemma LookupByAddress<T>(history: seq<AddressCall<T>>, looked: AbsResourceInstance)
    requires AfterAll(Calls(history)).Some? && NoWildcards(looked)
    ensures var r := GetResult(AfterAll(Calls(history)).value, false, KeyList(looked));
            r.diag == Clean ==> RightValue(history, looked, r.value)
  {
    NoWildcardsIsConcrete(looked);
    GetAgreesWithList(Calls(history), KeyList(looked));
    var r := GetResult(AfterAll(Calls(history)).value, false, KeyList(looked));
    if r.diag == Clean {
      ListValueIsRight(history, looked, r.value);
    }
  }

  /** In every interleaving, a lookup of an address without wildcards that ends with an answer has the
      value of the call that decides. */
  lemma ConcurrentLookupByAddress<T>(
      history: seq<AddressCall<T>>, s: System<T>, schedule: seq<nat>, k: nat, looked: AbsResourceInstance)
    requires AfterAll(Calls(history)).Some? && NoWildcards(looked)
    requires forall i :: 0 <= i < |s.threads| ==> s.threads[i].phase.Idle?
    requires var r := Run(AfterAll(Calls(history)).value, s, schedule);
             && k < |r.threads| && r.threads[k].keys == KeyList(looked)
             && r.threads[k].phase.Done? && r.threads[k].phase.outcome.Answer?
    ensures var t := Run(AfterAll(Calls(history)).value, s, schedule).threads[k];
            RightValue(history, looked, t.phase.outcome.value)
  {
    NoWildcardsIsConcrete(looked);
    ConcurrentAnswersAgreeWithList(Calls(history), s, schedule, k);
    var t := Run(AfterAll(Calls(history)).value, s, schedule).threads[k];
    ListValueIsRight(history, looked, t.phase.outcome.value);
  }

  /** A trie that stands for a history stands for it extended by each Set it accepts. */
  lemma HistoryGrows<T>(history: seq<AddressCall<T>>, m: TrieModel<T>, c: AddressCall<T>)
    requires AfterAll(Calls(history)) == Some(m)
    ensures AfterAll(Calls(history + [c])) == AfterSet(m, Call(KeyList(c.addr), c.val, c.src))
  {
    var all := Calls(history + [c]);
    assert all[..|history|] == Calls(history);
  }

  // ---------------------------------------------------------------- diagnostics

  predicate WritesWildcard(a: AbsResourceInstance) {
    (exists i :: 0 <= i < |a.path| && a.path[i].key.WildcardKey?) || a.instance.key.WildcardKey?
  }

  lemma WritesWildcardIff(a: AbsResourceInstance)
    ensures WritesWildcard(a) <==> UsesWildcard(KeyList(a))
  {
    NoWildcardsIsConcrete(a);
  }

  /** The address leaves out the key at position `i`. */
  predicate LeavesOut(a: AbsResourceInstance, i: nat) {
    i <= |a.path| && KeyAt(a, i) == NoKey
  }

  /** The address covers the address looked up as far as position `i`. */
  predicate LeadsTo(written: AbsResourceInstance, looked: AbsResourceInstance, i: nat)
    requires i <= |looked.path|
  {
    i <= |written.path| && forall j :: 0 <= j < i ==> KeyMatches(written.path[j].key, looked.path[j].key)
  }

  /** The lookup has a key at a position where some call left it out, and some call leads there. */
  predicate MixesAt<T>(history: seq<AddressCall<T>>, looked: AbsResourceInstance, i: nat) {
    && i <= |looked.path| && KeyAt(looked, i) != NoKey
    && (exists c :: 0 <= c < |history| && LeavesOut(history[c].addr, i))
    && (exists c :: 0 <= c < |history| && LeadsTo(history[c].addr, looked, i))
  }

  lemma {:induction false} SourcesIff<T>(history: seq<AddressCall<T>>, i: nat)
    ensures Sources(Calls(history), i) != [] <==> exists c :: 0 <= c < |history| && LeavesOut(history[c].addr, i)
  {
    if history != [] {
      var last := |history| - 1;
      SourcesIff(history[..last], i);
      KeyListAt(history[last].addr);
      assert Calls(history)[..last] == Calls(history[..last]);
      assert forall c :: 0 <= c < last ==> history[..last][c] == history[c];
    }
  }

  lemma LeadsToIff(written: AbsResourceInstance, looked: AbsResourceInstance, i: nat)
    requires i <= |looked.path| && NoWildcards(looked)
    ensures LeadsTo(written, looked, i) <==>
            i <= |written.path| && MatchesSoFar(Pattern(KeyList(written))[..i], KeyList(looked))
  {
    KeyListAt(written);
    KeyListAt(looked);
    if i <= |written.path| {
      var p := Pattern(KeyList(written));
      assert forall j :: 0 <= j < i ==> p[..i][j] == p[j];
      assert forall j :: 0 <= j < i ==>
        (KeyMatches(written.path[j].key, looked.path[j].key) <==> p[j] == KeyList(looked)[j] || p[j] == WILD);
    }
  }

  lemma MixesAtIff<T>(history: seq<AddressCall<T>>, looked: AbsResourceInstance, i: nat)
    requires NoWildcards(looked)
    requires forall c :: 0 <= c < |history| ==> |history[c].addr.path| == |looked.path|
    ensures MixesAt(history, looked, i) <==> Offends(Calls(history), KeyList(looked), i)
  {
    var calls, keys := Calls(history), KeyList(looked);
    SourcesIff(history, i);
    if i <= |looked.path| {
      KeyListAt(looked);
      forall c | 0 <= c < |history|
        ensures LeadsTo(history[c].addr, looked, i) <==>
                i <= |calls[c].keys| && MatchesSoFar(Pattern(calls[c].keys)[..i], keys)
      {
        LeadsToIff(history[c].addr, looked, i);
      }
    }
  }

  /** Among addresses of one depth, a lookup without wildcards is refused as mixed usage exactly when
      some call wrote a wildcard and the lookup mixes at some position; otherwise it raises no
      diagnostic, and returns the value of the call that decides. */
  lemma LookupByAddressFails<T>(history: seq<AddressCall<T>>, looked: AbsResourceInstance)
    requires NoWildcards(looked)
    requires forall c :: 0 <= c < |history| ==> |history[c].addr.path| == |looked.path|
    ensures AfterAll(Calls(history)).Some?
    ensures var r := GetResult(AfterAll(Calls(history)).value, false, KeyList(looked));
            if (exists c :: 0 <= c < |history| && WritesWildcard(history[c].addr)) &&
               (exists i: nat :: MixesAt(history, looked, i))
            then r.diag.MixedUsage? && r.value == None
            else r.diag == Clean && RightValue(history, looked, r.value)
  {
    var calls, keys := Calls(history), KeyList(looked);
    NoWildcardsIsConcrete(looked);
    OneDepthNeverPanics(calls, |looked.path| + 1, keys);
    LookupFailsIff(calls, keys);
    LookupByAddress(history, looked);
    WalkDiag(AfterAll(calls).value, [], keys);
    forall i: nat ensures MixesAt(history, looked, i) <==> Offends(calls, keys, i) {
      MixesAtIff(history, looked, i);
    }
    SomeWildcardIff(history);
  }

  lemma SomeWildcardIff<T>(history: seq<AddressCall<T>>)
    ensures SomeWildcard(Calls(history)) <==> exists c :: 0 <= c < |history| && WritesWildcard(history[c].addr)
  {
    forall c | 0 <= c < |history| ensures WritesWildcard(history[c].addr) <==> UsesWildcard(Calls(history)[c].keys) {
      WritesWildcardIff(history[c].addr);
    }
  }

  /** The instance an override was written for gets its value, and its neighbour gets nothing. */
  lemma NeighbourUntouched<T>(r: AbsResource, val: T)
    requires NoWildcards(r.Instance(NoKey))
    ensures var calls := Calls([AddressCall(r.Instance(IntKey(0)), val, 0)]);
            && AfterAll(calls).Some?
            && GetResult(AfterAll(calls).value, false, KeyList(r.Instance(IntKey(0)))).value == Some(val)
            && GetResult(AfterAll(calls).value, false, KeyList(r.Instance(IntKey(1)))) == Result(None, Clean, false)
  {
    var history := [AddressCall(r.Instance(IntKey(0)), val, 0)];
    LookupByAddressFails(history, r.Instance(IntKey(0)));
    LookupByAddressFails(history, r.Instance(IntKey(1)));
    assert AddressMatches(history[0].addr, r.Instance(IntKey(0)));
    MixedUsageNeedsEvidence(AfterAll(Calls(history)).value, false, [], KeyList(r.Instance(IntKey(1))));
  }
}
