/** The checks State object and its methods (internal/checks/state.go, state_report.go). The mutex
    makes each method atomic. Go maps are visited in an arbitrary order. */
module CheckState {
  import opened Addresses
  import opened CheckReports

  class State {
    var statuses: map<string, ConfigState>
    var failureMsgs: map<Rule, string>

    function Contents(): Store
      reads this
    {
      Store(statuses, failureMsgs)
    }

    /** NewState: every configuration object is known, none has been expanded. */
    constructor (config: map<string, map<RuleType, nat>>)
      ensures Contents() == Store(InitialStatuses(config), map[])
      ensures Consistent(Contents())
    {
      statuses := InitialStatuses(config);
      failureMsgs := map[];
    }

    /** Seeds one object with pending checks. */
    method MakeChecks(types: map<RuleType, nat>) returns (checks: Checks)
      ensures checks == FreshChecks(types)
    {
      checks := map[];
      var left := types.Keys;
      while left != {}
        invariant left <= types.Keys
        invariant checks.Keys == types.Keys - left
        invariant forall t :: t in checks ==> checks[t] == FreshChecks(types)[t]
        decreases left
      {
        var t :| t in left;
        checks := checks[t := seq(types[t], _ => Unknown)];
        left := left - {t};
      }
      assert checks.Keys == FreshChecks(types).Keys;
    }

    /** ReportCheckableObjects. On a panic the objects before the first foreign one have been
        recorded. */
    method ReportCheckableObjects(config: string, objs: seq<Checkable>) returns (ok: bool)
      modifies this
      ensures ok <==> Apply(old(Contents()), Objects(config, objs)).Some?
      ensures ok ==> Contents() == Apply(old(Contents()), Objects(config, objs)).value
      ensures !ok && config !in old(statuses) ==> Contents() == old(Contents())
      ensures !ok && config in old(statuses) ==>
                exists k :: 0 <= k < |objs| && objs[k].config != config &&
                  (forall j :: 0 <= j < k ==> objs[j].config == config) &&
                  Contents() == old(Contents()).(statuses := Expanded(old(statuses), config, objs[..k]))
    {
      if config !in statuses {
        return false;
      }
      var st := statuses[config];
      if st.objects.Some? {
        return true;
      }
      var objects: map<Checkable, Checks> := map[];
      statuses := statuses[config := st.(objects := Some(objects))];
      for i := 0 to |objs|
        invariant forall j :: 0 <= j < i ==> objs[j].config == config
        invariant objects == Expand(st.checkTypes, objs[..i])
        invariant statuses == old(statuses)[config := st.(objects := Some(objects))]
        invariant failureMsgs == old(failureMsgs)
      {
        if objs[i].config != config {
          assert objs[i] in objs;
          return false;
        }
        var checks := MakeChecks(st.checkTypes);
        ExpandOneMore(st.checkTypes, objs, i);
        objects := objects[objs[i] := checks];
        statuses := statuses[config := st.(objects := Some(objects))];
      }
      assert objs[..|objs|] == objs;
      return true;
    }

    /** reportCheckResult, which leaves everything alone when it panics. */
    method SetResult(c: Rule, status: Status) returns (ok: bool)
      modifies this`statuses
      ensures ok <==> Pending(old(Contents()), c)
      ensures Contents() == if ok then SetStatus(old(Contents()), c, status) else old(Contents())
    {
      if c.subject.config !in statuses {
        return false;
      }
      var st := statuses[c.subject.config];
      if st.objects.None? || c.subject !in st.objects.value {
        return false;
      }
      var checks := st.objects.value[c.subject];
      var slots := if c.ruleType in checks then checks[c.ruleType] else [];
      if c.index >= |slots| || c.index < 0 {
        return false;
      }
      if slots[c.index] != Unknown {
        return false;
      }
      var updated := checks[c.ruleType := slots[c.index := status]];
      statuses := statuses[c.subject.config := st.(objects := Some(st.objects.value[c.subject := updated]))];
      return true;
    }

    method ReportCheckResult(c: Rule, status: Status) returns (ok: bool)
      modifies this
      ensures ok <==> Apply(old(Contents()), Result(c, status)).Some?
      ensures Contents() == if ok then Apply(old(Contents()), Result(c, status)).value else old(Contents())
    {
      ok := SetResult(c, status);
    }

    method ReportCheckFailure(c: Rule, message: string) returns (ok: bool)
      modifies this
      ensures ok <==> Apply(old(Contents()), Failure(c, message)).Some?
      ensures Contents() == if ok then Apply(old(Contents()), Failure(c, message)).value else old(Contents())
    {
      ok := SetResult(c, Fail);
      if ok {
        failureMsgs := failureMsgs[c := message];
      }
    }

    /** The counting loops of AggregateCheckStatus; unknown configuration objects panic. */
    method AggregateCheckStatus(config: string) returns (status: Option<Status>)
      ensures status == if config in statuses then Some(Aggregate(statuses[config])) else None
    {
      if config !in statuses {
        return None;
      }
      if statuses[config].objects.None? {
        return Some(Unknown);
      }
      var objects := statuses[config].objects.value;
      var errors, fails, unknowns := 0, 0, 0;
      var left := objects.Keys;
      while left != {}
        invariant left <= objects.Keys
        invariant errors >= 0 && fails >= 0 && unknowns >= 0
        invariant errors > 0 <==> exists o :: o in objects.Keys - left && ChecksHave(objects[o], Error)
        invariant fails > 0 <==> exists o :: o in objects.Keys - left && ChecksHave(objects[o], Fail)
        invariant unknowns > 0 <==> exists o :: o in objects.Keys - left && ChecksHave(objects[o], Unknown)
        decreases left
      {
        var o :| o in left;
        var e, f, u := Count(objects[o]);
        errors, fails, unknowns := errors + e, fails + f, unknowns + u;
        left := left - {o};
        assert objects.Keys - left == (objects.Keys - left - {o}) + {o};
      }
      assert objects.Keys - {} == objects.Keys;
      return Some(Summary(errors > 0, fails > 0, unknowns > 0));
    }

    /** ObjectCheckStatus, with None for its panics. */
    method ObjectCheckStatus(addr: Checkable) returns (status: Option<Status>)
      ensures status.Some? <==>
                addr.config in statuses && statuses[addr.config].objects.Some? &&
                addr in statuses[addr.config].objects.value
      ensures status.Some? ==> status.value == ObjectStatus(statuses[addr.config].objects.value[addr])
    {
      if addr.config !in statuses || statuses[addr.config].objects.None? ||
         addr !in statuses[addr.config].objects.value
      {
        return None;
      }
      var e, f, u := Count(statuses[addr.config].objects.value[addr]);
      return Some(Summary(e > 0, f > 0, u > 0));
    }
  }

  /** initialStatuses, given the number of checks of each type for every configuration object. */
  function InitialStatuses(config: map<string, map<RuleType, nat>>): map<string, ConfigState> {
    map c | c in config :: ConfigState(config[c], None)
  }

  /** A new store has no check at all, and every configuration object awaits its expansion; once that is
      reported exactly the checks declared for it are there, for exactly the objects reported, all of
      them pending. */
  lemma NewStorePends(config: map<string, map<RuleType, nat>>, name: string, objs: seq<Checkable>, c: Rule)
    requires name in config && forall i :: 0 <= i < |objs| ==> objs[i].config == name
    ensures var s := Store(InitialStatuses(config), map[]);
            && s.statuses.Keys == config.Keys && Aggregate(s.statuses[name]) == Unknown
            && !Has(s, c)
            && Apply(s, Objects(name, objs)).Some?
            && var t := Apply(s, Objects(name, objs)).value;
               && t.messages == map[]
               && (Has(t, c) <==> c.subject in objs && c.ruleType in config[name] &&
                                  0 <= c.index < config[name][c.ruleType])
               && (Has(t, c) ==> Pending(t, c))
  {
    var s := Store(InitialStatuses(config), map[]);
    ExpansionAcceptedIff(s, name, objs, objs);
    ExpansionPends(s, name, objs, c);
  }

  /** Two orders of the same reports on one check of a new store: with Unknown first both are accepted,
      with Unknown last the second one is not. */
  lemma UnknownAfterKnownIsRefused()
    ensures var c := Rule(Checkable("a", "a"), CheckAssertion, 0);
            var s := Store(InitialStatuses(map["a" := map[CheckAssertion := 1]]), map[]);
            var unknown, known := Result(c, Unknown), Result(c, Pass);
            && Run(s, [Objects("a", [c.subject]), unknown, known]).Some?
            && Run(s, [Objects("a", [c.subject]), known, unknown]).None?
  {
    var c := Rule(Checkable("a", "a"), CheckAssertion, 0);
    var s := Store(InitialStatuses(map["a" := map[CheckAssertion := 1]]), map[]);
    var expand, unknown, known := Objects("a", [c.subject]), Result(c, Unknown), Result(c, Pass);
    var t := Apply(s, expand).value;
    ExpansionPends(s, "a", [c.subject], c);
    RunPair(s, expand, unknown, known);
    RunPair(s, expand, known, unknown);
    SetStatusView(t, c, Unknown);
    SetStatusView(t, c, Pass);
  }

  lemma RunPair(s: Store, first: Report, a: Report, b: Report)
    requires Apply(s, first).Some?
    ensures var t := Apply(s, first).value;
            Run(s, [first, a, b]) == match Apply(t, a) case Some(u) => Apply(u, b) case None => None
  {
    assert [first, a, b][1..] == [a, b] && [a, b][1..] == [b] && [b][1..] == [];
    assert Run(s, [first, a, b]) == Run(Apply(s, first).value, [a, b]);
    var t := Apply(s, first).value;
    if Apply(t, a).Some? {
      var u := Apply(t, a).value;
      assert Run(t, [a, b]) == Run(u, [b]);
      assert Apply(u, b).Some? ==> Run(Apply(u, b).value, []) == Apply(u, b);
    }
  }

  /** A configuration object's first expansion. */
  function Expanded(statuses: map<string, ConfigState>, config: string, objs: seq<Checkable>): map<string, ConfigState>
    requires config in statuses
  {
    statuses[config := statuses[config].(objects := Some(Expand(statuses[config].checkTypes, objs)))]
  }

  lemma ExpandOneMore(types: map<RuleType, nat>, objs: seq<Checkable>, i: nat)
    requires i < |objs|
    ensures Expand(types, objs[..i + 1]) == Expand(types, objs[..i])[objs[i] := FreshChecks(types)]
  {
    assert objs[..i + 1] == objs[..i] + [objs[i]];
  }

  /** How often a status occurs in a run of checks. */
  function Occurrences(statuses: seq<Status>, s: Status): nat {
    multiset(statuses)[s]
  }

  method CountSlots(statuses: seq<Status>) returns (errors: nat, fails: nat, unknowns: nat)
    ensures errors == Occurrences(statuses, Error)
    ensures fails == Occurrences(statuses, Fail)
    ensures unknowns == Occurrences(statuses, Unknown)
  {
    errors, fails, unknowns := 0, 0, 0;
    for i := 0 to |statuses|
      invariant errors == Occurrences(statuses[..i], Error)
      invariant fails == Occurrences(statuses[..i], Fail)
      invariant unknowns == Occurrences(statuses[..i], Unknown)
    {
      assert statuses[..i + 1] == statuses[..i] + [statuses[i]];
      match statuses[i]
      case Pass =>
      case Fail => fails := fails + 1;
      case Error => errors := errors + 1;
      case Unknown => unknowns := unknowns + 1;
    }
    assert statuses[..|statuses|] == statuses;
  }

  /** The inner loops of both status views. */
  method Count(checks: Checks) returns (errors: nat, fails: nat, unknowns: nat)
    ensures errors > 0 <==> ChecksHave(checks, Error)
    ensures fails > 0 <==> ChecksHave(checks, Fail)
    ensures unknowns > 0 <==> ChecksHave(checks, Unknown)
  {
    errors, fails, unknowns := 0, 0, 0;
    var left := checks.Keys;
    while left != {}
      invariant left <= checks.Keys
      invariant errors > 0 <==> exists t :: t in checks.Keys - left && Error in checks[t]
      invariant fails > 0 <==> exists t :: t in checks.Keys - left && Fail in checks[t]
      invariant unknowns > 0 <==> exists t :: t in checks.Keys - left && Unknown in checks[t]
      decreases left
    {
      var t :| t in left;
      var e, f, u := CountSlots(checks[t]);
      InCounts(checks[t], Error);
      InCounts(checks[t], Fail);
      InCounts(checks[t], Unknown);
      errors, fails, unknowns := errors + e, fails + f, unknowns + u;
      left := left - {t};
      assert checks.Keys - left == (checks.Keys - left - {t}) + {t};
    }
    assert checks.Keys - {} == checks.Keys;
    HaveIsIn(checks, Error);
    HaveIsIn(checks, Fail);
    HaveIsIn(checks, Unknown);
  }

  lemma InCounts(statuses: seq<Status>, s: Status)
    ensures Occurrences(statuses, s) > 0 <==> s in statuses
  {
    assert s in statuses <==> s in multiset(statuses);
  }

  lemma HaveIsIn(checks: Checks, s: Status)
    ensures ChecksHave(checks, s) <==> exists t :: t in checks && s in checks[t]
  {
    if t :| t in checks && s in checks[t] {
      var i :| 0 <= i < |checks[t]| && checks[t][i] == s;
      assert ChecksHave(checks, s);
    }
  }
}
