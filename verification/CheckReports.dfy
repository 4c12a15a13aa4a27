/** The check-tracking state as values: reports, accepted runs of reports and the aggregate views
    (internal/checks/state.go and state_report.go). A panic of the source is the outcome
    `None`. */
module CheckReports {
  import opened Addresses

  datatype Status = Unknown | Pass | Fail | Error

  /** CheckRuleType */
  datatype RuleType =
    | InvalidCondition
    | ResourcePrecondition
    | ResourcePostcondition
    | OutputPrecondition
    | CheckDataResource
    | CheckAssertion
    | InputValidation

  /** A checkable object knows the configuration object it belongs to. */
  datatype Checkable = Checkable(config: string, id: string)

  /** One check: an object, a check type and an index. */
  datatype Rule = Rule(subject: Checkable, ruleType: RuleType, index: int)

  type Checks = map<RuleType, seq<Status>>

  /** configCheckableState; no objects until the expansion has been reported. */
  datatype ConfigState = ConfigState(checkTypes: map<RuleType, nat>, objects: Option<map<Checkable, Checks>>)

  datatype Store = Store(statuses: map<string, ConfigState>, messages: map<Rule, string>)

  datatype Report =
    | Objects(config: string, objs: seq<Checkable>)
    | Result(rule: Rule, status: Status)
    | Failure(rule: Rule, message: string)
  {
    predicate IsResult() {
      Result? || Failure?
    }

    /** The status a result report asks for. */
    function Outcome(): Status
      requires IsResult()
    {
      if Failure? then Fail else status
    }
  }

  // ---------------------------------------------------------------- single reports

  function FreshChecks(types: map<RuleType, nat>): Checks {
    map t | t in types :: seq(types[t], _ => Unknown)
  }

  function Expand(types: map<RuleType, nat>, objs: seq<Checkable>): map<Checkable, Checks> {
    map o | o in objs :: FreshChecks(types)
  }

  /** The check exists: its object has been reported and the index is in range. */
  predicate Has(s: Store, c: Rule) {
    && c.subject.config in s.statuses
    && var objects := s.statuses[c.subject.config].objects;
       objects.Some? && c.subject in objects.value && c.ruleType in objects.value[c.subject] &&
       0 <= c.index < |objects.value[c.subject][c.ruleType]|
  }

  function StatusOf(s: Store, c: Rule): Status
    requires Has(s, c)
  {
    s.statuses[c.subject.config].objects.value[c.subject][c.ruleType][c.index]
  }

  function SetStatus(s: Store, c: Rule, status: Status): Store
    requires Has(s, c)
  {
    var cs := s.statuses[c.subject.config];
    var checks := cs.objects.value[c.subject];
    var updated := checks[c.ruleType := checks[c.ruleType][c.index := status]];
    s.(statuses := s.statuses[c.subject.config := cs.(objects := Some(cs.objects.value[c.subject := updated]))])
  }

  function Apply(s: Store, r: Report): Option<Store> {
    match r
    case Objects(config, objs) =>
      if config !in s.statuses then None
      else if s.statuses[config].objects.Some? then Some(s)
      else if exists o :: o in objs && o.config != config then None
      else
        var cs := s.statuses[config];
        Some(s.(statuses := s.statuses[config := cs.(objects := Some(Expand(cs.checkTypes, objs)))]))
    case Result(c, status) =>
      if Has(s, c) && StatusOf(s, c) == Unknown then Some(SetStatus(s, c, status)) else None
    case Failure(c, message) =>
      if Has(s, c) && StatusOf(s, c) == Unknown then
        Some(SetStatus(s, c, Fail).(messages := s.messages[c := message]))
      else None
  }

  /** A run is accepted when no report panics. */
  function Run(s: Store, rs: seq<Report>): Option<Store>
    decreases |rs|
  {
    if rs == [] then Some(s)
    else
      match Apply(s, rs[0])
      case Some(t) => Run(t, rs[1..])
      case None => None
  }

  // ---------------------------------------------------------------- invariants of runs

  /** Objects are filed under their own configuration object, and every recorded failure message
      belongs to a check whose status is Fail. */
  predicate Consistent(s: Store) {
    && (forall config | config in s.statuses && s.statuses[config].objects.Some? ::
          forall o :: o in s.statuses[config].objects.value ==> o.config == config)
    && (forall c :: c in s.messages ==> Has(s, c) && StatusOf(s, c) == Fail)
  }

  lemma SetStatusView(s: Store, c: Rule, status: Status)
    requires Has(s, c)
    ensures var t := SetStatus(s, c, status);
            && t.messages == s.messages
            && (forall d :: Has(t, d) <==> Has(s, d))
            && (forall d :: Has(s, d) ==> StatusOf(t, d) == if d == c then status else StatusOf(s, d))
  {
  }

  lemma ApplyView(s: Store, r: Report)
    requires Consistent(s) && Apply(s, r).Some?
    ensures var t := Apply(s, r).value;
            && Consistent(t)
            && (forall c :: Has(s, c) ==> Has(t, c) && (StatusOf(s, c) != Unknown ==> StatusOf(t, c) == StatusOf(s, c)))
            && (forall config :: config in s.statuses && s.statuses[config].objects.Some? ==>
                  config in t.statuses && t.statuses[config].objects.Some? &&
                  t.statuses[config].objects.value.Keys == s.statuses[config].objects.value.Keys)
            && (forall c :: c in s.messages ==> c in t.messages && t.messages[c] == s.messages[c])
  {
    if r.IsResult() {
      SetStatusView(s, r.rule, r.Outcome());
    } else if s.statuses[r.config].objects.None? {
      var t := Apply(s, r).value;
      forall c | Has(s, c) ensures Has(t, c) && StatusOf(t, c) == StatusOf(s, c) {
        assert c.subject.config != r.config;
      }
    }
  }

  /** The first expansion makes exactly the declared checks of exactly the reported objects
      pending; other configuration objects are untouched. */
  lemma ExpansionPends(s: Store, config: string, objs: seq<Checkable>, c: Rule)
    requires config in s.statuses && s.statuses[config].objects.None? && Apply(s, Objects(config, objs)).Some?
    ensures var t := Apply(s, Objects(config, objs)).value;
            var types := s.statuses[config].checkTypes;
            if c.subject.config == config
            then (Has(t, c) <==> c.subject in objs && c.ruleType in types && 0 <= c.index < types[c.ruleType]) &&
                 (Has(t, c) ==> StatusOf(t, c) == Unknown)
            else (Has(t, c) <==> Has(s, c)) && (Has(s, c) ==> StatusOf(t, c) == StatusOf(s, c))
  {
    if c.subject.config == config && c.subject in objs {
      assert FreshChecks(s.statuses[config].checkTypes).Keys == s.statuses[config].checkTypes.Keys;
    }
  }

  /** An expansion is accepted exactly when the configuration object is known and either has been expanded
      before or all the objects reported are its own; and of two accepted ones for the same
      configuration object the second changes nothing, whatever it reports. */
  lemma ExpansionAcceptedIff(s: Store, config: string, objs: seq<Checkable>, again: seq<Checkable>)
    ensures Apply(s, Objects(config, objs)).Some? <==>
              && config in s.statuses
              && (s.statuses[config].objects.Some? || forall i :: 0 <= i < |objs| ==> objs[i].config == config)
    ensures Apply(s, Objects(config, objs)).Some? ==>
              Run(s, [Objects(config, objs), Objects(config, again)]) == Apply(s, Objects(config, objs))
  {
    if i :| 0 <= i < |objs| && objs[i].config != config {
      assert objs[i] in objs;
    }
    if Apply(s, Objects(config, objs)).Some? {
      var t := Apply(s, Objects(config, objs)).value;
      var two := [Objects(config, objs), Objects(config, again)];
      assert two[1..] == [Objects(config, again)] && two[1..][1..] == [];
      assert Apply(t, Objects(config, again)) == Some(t);
      assert Run(t, [Objects(config, again)]) == Run(t, []);
    }
  }

  /** Over every accepted run: a known status never changes, the first expansion of a configuration
      object is final, recorded messages stay and belong to failed checks. */
  lemma {:induction false} RunKeeps(s: Store, rs: seq<Report>)
    requires Consistent(s) && Run(s, rs).Some?
    ensures var t := Run(s, rs).value;
            && Consistent(t)
            && (forall c :: Has(s, c) ==> Has(t, c) && (StatusOf(s, c) != Unknown ==> StatusOf(t, c) == StatusOf(s, c)))
            && (forall config :: config in s.statuses && s.statuses[config].objects.Some? ==>
                  config in t.statuses && t.statuses[config].objects.Some? &&
                  t.statuses[config].objects.value.Keys == s.statuses[config].objects.value.Keys)
            && (forall c :: c in s.messages ==> c in t.messages && t.messages[c] == s.messages[c])
    decreases |rs|
  {
    if rs != [] {
      ApplyView(s, rs[0]);
      RunKeeps(Apply(s, rs[0]).value, rs[1..]);
    }
  }

  // ---------------------------------------------------------------- reordering

  predicate AllResults(rs: seq<Report>) {
    forall i :: 0 <= i < |rs| ==> rs[i].IsResult()
  }

  predicate Known(r: Report) {
    r.IsResult() && r.Outcome() != Unknown
  }

  predicate Pending(s: Store, c: Rule) {
    Has(s, c) && StatusOf(s, c) == Unknown
  }

  /** When a run of result reports is accepted: each report finds its check pending, and no earlier
      report has settled it. */
  predicate Acceptable(s: Store, rs: seq<Report>)
    requires AllResults(rs)
  {
    && (forall i :: 0 <= i < |rs| ==> Pending(s, rs[i].rule))
    && (forall i, j :: 0 <= j < i < |rs| && rs[j].rule == rs[i].rule ==> !Known(rs[j]))
  }

  /** An accepted result settles its own check when it is a known one, and no other. */
  lemma PendingAfter(s: Store, r: Report)
    requires r.IsResult() && Apply(s, r).Some?
    ensures forall d :: Pending(Apply(s, r).value, d) <==> Pending(s, d) && !(d == r.rule && Known(r))
  {
    SetStatusView(s, r.rule, r.Outcome());
  }

  lemma AcceptableCons(s: Store, t: Store, rs: seq<Report>)
    requires rs != [] && AllResults(rs) && Pending(s, rs[0].rule)
    requires forall d :: Pending(t, d) <==> Pending(s, d) && !(d == rs[0].rule && Known(rs[0]))
    ensures Acceptable(t, rs[1..]) <==> Acceptable(s, rs)
  {
    var rest := rs[1..];
    if Acceptable(t, rest) {
      forall i | 0 <= i < |rs| ensures Pending(s, rs[i].rule) {
        assert i > 0 ==> rs[i] == rest[i - 1] && Pending(t, rest[i - 1].rule);
      }
      forall i, j | 0 <= j < i < |rs| && rs[j].rule == rs[i].rule ensures !Known(rs[j]) {
        assert rs[i] == rest[i - 1] && Pending(t, rest[i - 1].rule);
        assert j > 0 ==> rs[j] == rest[j - 1];
      }
    }
    if Acceptable(s, rs) {
      forall i | 0 <= i < |rest| ensures Pending(t, rest[i].rule) {
        assert rest[i] == rs[i + 1] && Pending(s, rs[i + 1].rule);
      }
    }
  }

  lemma {:induction false} AcceptedIff(s: Store, rs: seq<Report>)
    requires AllResults(rs)
    ensures Run(s, rs).Some? <==> Acceptable(s, rs)
    decreases |rs|
  {
    if rs != [] {
      if Apply(s, rs[0]).Some? {
        PendingAfter(s, rs[0]);
        AcceptedIff(Apply(s, rs[0]).value, rs[1..]);
        AcceptableCons(s, Apply(s, rs[0]).value, rs);
      } else {
        assert !Pending(s, rs[0].rule);
      }
    }
  }

  /** Same configuration objects, expansions and check counts. */
  predicate SameShape(s: Store, t: Store) {
    && s.statuses.Keys == t.statuses.Keys
    && forall config :: config in s.statuses ==> SameConfigShape(s.statuses[config], t.statuses[config])
  }

  predicate SameConfigShape(a: ConfigState, b: ConfigState) {
    && a.checkTypes == b.checkTypes
    && (a.objects.Some? <==> b.objects.Some?)
    && (a.objects.Some? ==>
          && a.objects.value.Keys == b.objects.value.Keys
          && forall o :: o in a.objects.value ==> SameChecksShape(a.objects.value[o], b.objects.value[o]))
  }

  predicate SameChecksShape(a: Checks, b: Checks) {
    a.Keys == b.Keys && forall t :: t in a ==> |a[t]| == |b[t]|
  }

  /** A store is determined by its shape, its statuses and its messages. */
  lemma StoreFromView(s: Store, t: Store)
    requires Consistent(s) && SameShape(s, t) && s.messages == t.messages
    requires forall c :: Has(s, c) ==> Has(t, c) && StatusOf(t, c) == StatusOf(s, c)
    ensures s == t
  {
    forall config | config in s.statuses ensures s.statuses[config] == t.statuses[config] {
      var a, b := s.statuses[config], t.statuses[config];
      assert SameConfigShape(a, b);
      if a.objects.Some? {
        forall o | o in a.objects.value ensures a.objects.value[o] == b.objects.value[o] {
          var x, y := a.objects.value[o], b.objects.value[o];
          assert SameChecksShape(x, y);
          forall ty | ty in x ensures x[ty] == y[ty] {
            forall i | 0 <= i < |x[ty]| ensures x[ty][i] == y[ty][i] {
              assert Has(s, Rule(o, ty, i));
            }
          }
          assert x == y;
        }
        assert a.objects.value == b.objects.value;
      }
    }
    assert s.statuses == t.statuses;
  }

  /** What a run of results does, independent of order: a check takes the known status reported for
      it, if any, and a message comes from the failure reported for it, if any. */
  ghost predicate Reflects(s: Store, rs: seq<Report>, t: Store)
    requires AllResults(rs)
  {
    SameShape(s, t) && ReflectsStatuses(s, rs, t) && ReflectsMessages(s, rs, t)
  }

  ghost predicate ReflectsStatuses(s: Store, rs: seq<Report>, t: Store)
    requires AllResults(rs)
  {
    && (forall c :: Has(s, c) <==> Has(t, c))
    && (forall r :: r in rs && Known(r) ==> Has(t, r.rule) && StatusOf(t, r.rule) == r.Outcome())
    && (forall c :: Has(s, c) && (forall r :: r in rs && Known(r) ==> r.rule != c) ==> StatusOf(t, c) == StatusOf(s, c))
  }

  ghost predicate ReflectsMessages(s: Store, rs: seq<Report>, t: Store)
    requires AllResults(rs)
  {
    && (forall r :: r in rs && r.Failure? ==> r.rule in t.messages && t.messages[r.rule] == r.message)
    && (forall c :: (forall r :: r in rs && r.Failure? ==> r.rule != c) ==>
          (c in t.messages <==> c in s.messages) && (c in s.messages ==> t.messages[c] == s.messages[c]))
  }

  lemma SetStatusShape(s: Store, c: Rule, status: Status)
    requires Has(s, c)
    ensures SameShape(s, SetStatus(s, c, status))
  {
  }

  lemma SameShapeTransitive(s: Store, t: Store, u: Store)
    requires SameShape(s, t) && SameShape(t, u)
    ensures SameShape(s, u)
  {
    forall config | config in s.statuses ensures SameConfigShape(s.statuses[config], u.statuses[config]) {
      assert SameConfigShape(s.statuses[config], t.statuses[config]);
      assert SameConfigShape(t.statuses[config], u.statuses[config]);
    }
  }

  lemma ApplyReflects(s: Store, r: Report)
    requires r.IsResult() && Apply(s, r).Some?
    ensures Reflects(s, [r], Apply(s, r).value)
  {
    SetStatusView(s, r.rule, r.Outcome());
    SetStatusShape(s, r.rule, r.Outcome());
  }

  lemma ReflectsConsStatuses(s: Store, r: Report, rest: seq<Report>, t: Store, u: Store)
    requires r.IsResult() && AllResults(rest)
    requires ReflectsStatuses(s, [r], t) && ReflectsStatuses(t, rest, u)
    requires forall x :: x in rest && Known(r) ==> x.rule != r.rule
    ensures AllResults([r] + rest) && ReflectsStatuses(s, [r] + rest, u)
  {
    var all, one := [r] + rest, [r];
    assert r in one && r in all;
    assert forall x :: x in all <==> x == r || x in rest;
  }

  lemma ReflectsConsMessages(s: Store, r: Report, rest: seq<Report>, t: Store, u: Store)
    requires r.IsResult() && AllResults(rest)
    requires ReflectsMessages(s, [r], t) && ReflectsMessages(t, rest, u)
    requires forall x :: x in rest && r.Failure? ==> x.rule != r.rule
    ensures AllResults([r] + rest) && ReflectsMessages(s, [r] + rest, u)
  {
    var all, one := [r] + rest, [r];
    assert r in one && r in all;
    assert forall x :: x in all <==> x == r || x in rest;
  }

  /** Once a check is settled, an accepted run has no further report for it. */
  lemma LaterReportsElsewhere(s: Store, r: Report, rest: seq<Report>)
    requires r.IsResult() && AllResults(rest) && Apply(s, r).Some? && Run(Apply(s, r).value, rest).Some?
    ensures forall x :: x in rest && (Known(r) || r.Failure?) ==> x.rule != r.rule
  {
    var t := Apply(s, r).value;
    AcceptedIff(t, rest);
    SetStatusView(s, r.rule, r.Outcome());
    forall x | x in rest && (Known(r) || r.Failure?) ensures x.rule != r.rule {
      assert Pending(t, x.rule);
    }
  }

  /** Every accepted run of results has the order-independent effect. */
  lemma {:induction false} RunReflects(s: Store, rs: seq<Report>)
    requires AllResults(rs) && Run(s, rs).Some?
    ensures Reflects(s, rs, Run(s, rs).value)
    decreases |rs|
  {
    if rs == [] {
      forall config | config in s.statuses ensures SameConfigShape(s.statuses[config], s.statuses[config]) {
      }
    } else {
      var r, rest, t := rs[0], rs[1..], Apply(s, rs[0]).value;
      ApplyReflects(s, r);
      RunReflects(t, rest);
      LaterReportsElsewhere(s, r, rest);
      SameShapeTransitive(s, t, Run(t, rest).value);
      ReflectsConsStatuses(s, r, rest, t, Run(t, rest).value);
      ReflectsConsMessages(s, r, rest, t, Run(t, rest).value);
      assert rs == [r] + rest;
    }
  }

  lemma ReflectedMessages(s: Store, rs: seq<Report>, t: Store, u: Store)
    requires AllResults(rs) && Reflects(s, rs, t) && Reflects(s, rs, u)
    ensures t.messages == u.messages
  {
    forall c ensures (c in t.messages <==> c in u.messages) && (c in t.messages ==> t.messages[c] == u.messages[c]) {
      if r :| r in rs && r.Failure? && r.rule == c {
      }
    }
  }

  /** The effect of a run determines the store it reaches. */
  lemma ReflectedOnce(s: Store, rs: seq<Report>, t: Store, u: Store)
    requires AllResults(rs) && Reflects(s, rs, t) && Reflects(s, rs, u) && Consistent(t)
    ensures t == u
  {
    forall config | config in t.statuses ensures SameConfigShape(t.statuses[config], u.statuses[config]) {
      assert SameConfigShape(s.statuses[config], t.statuses[config]);
      assert SameConfigShape(s.statuses[config], u.statuses[config]);
    }
    ReflectedMessages(s, rs, t, u);
    forall c | Has(t, c) ensures StatusOf(u, c) == StatusOf(t, c) {
      if r :| r in rs && Known(r) && r.rule == c {
      } else {
        assert StatusOf(t, c) == StatusOf(s, c);
      }
    }
    StoreFromView(t, u);
  }

  lemma ReflectsPermuted(s: Store, rs: seq<Report>, ts: seq<Report>, t: Store)
    requires AllResults(rs) && AllResults(ts) && Reflects(s, ts, t)
    requires forall r :: r in rs <==> r in ts
    ensures Reflects(s, rs, t)
  {
  }

  /** Two accepted runs of the same result reports reach the same state, whatever their order. */
  lemma ReorderingReachesSameState(s: Store, rs: seq<Report>, ts: seq<Report>)
    requires Consistent(s) && AllResults(rs) && multiset(rs) == multiset(ts)
    requires Run(s, rs).Some? && Run(s, ts).Some?
    ensures Run(s, rs) == Run(s, ts)
  {
    SameElements(rs, ts);
    RunReflects(s, rs);
    RunReflects(s, ts);
    RunKeeps(s, rs);
    ReflectsPermuted(s, rs, ts, Run(s, ts).value);
    ReflectedOnce(s, rs, Run(s, rs).value, Run(s, ts).value);
  }

  lemma SameElements(rs: seq<Report>, ts: seq<Report>)
    requires multiset(rs) == multiset(ts)
    ensures forall r :: r in rs <==> r in ts
    ensures AllResults(rs) <==> AllResults(ts)
  {
    forall r ensures r in rs <==> r in ts {
      assert r in rs <==> r in multiset(rs);
      assert r in ts <==> r in multiset(ts);
    }
    if AllResults(rs) {
      forall i | 0 <= i < |ts| ensures ts[i].IsResult() {
        assert ts[i] in rs;
      }
    }
    if AllResults(ts) {
      forall i | 0 <= i < |rs| ensures rs[i].IsResult() {
        assert rs[i] in ts;
      }
    }
  }

  /** A check that gets a known report gets no other report. */
  predicate SettledOnce(rs: seq<Report>)
  {
    forall i, j | 0 <= i < |rs| && 0 <= j < |rs| && i != j && rs[i].IsResult() && rs[j].IsResult() ::
      rs[i].rule == rs[j].rule ==> !Known(rs[i])
  }

  lemma {:induction false} CountTwo(rs: seq<Report>, r: Report) returns (i: nat, j: nat)
    requires multiset(rs)[r] >= 2
    ensures i < j < |rs| && rs[i] == r && rs[j] == r
  {
    assert rs == [rs[0]] + rs[1..];
    if rs[0] == r {
      assert r in multiset(rs[1..]);
      j :| 0 <= j < |rs[1..]| && rs[1..][j] == r;
      i, j := 0, j + 1;
    } else {
      i, j := CountTwo(rs[1..], r);
      i, j := i + 1, j + 1;
    }
  }

  lemma CountOfPair(rs: seq<Report>, i: nat, j: nat)
    requires i < j < |rs| && rs[i] == rs[j]
    ensures multiset(rs)[rs[i]] >= 2
  {
    assert rs == rs[..j] + [rs[j]] + rs[j + 1..];
    assert rs[i] in rs[..j];
    assert multiset(rs) == multiset(rs[..j]) + multiset{rs[j]} + multiset(rs[j + 1..]);
  }

  lemma SettledOnceIsOrderFree(rs: seq<Report>, ts: seq<Report>)
    requires multiset(rs) == multiset(ts) && SettledOnce(rs)
    ensures SettledOnce(ts)
  {
    SameElements(rs, ts);
    forall i, j | 0 <= i < |ts| && 0 <= j < |ts| && i != j && ts[i].IsResult() && ts[j].IsResult() &&
                  ts[i].rule == ts[j].rule
      ensures !Known(ts[i])
    {
      assert ts[i] in rs && ts[j] in rs;
      if ts[i] == ts[j] {
        CountOfPair(ts, if i < j then i else j, if i < j then j else i);
        var a, b := CountTwo(rs, ts[i]);
      }
    }
  }

  lemma SettledReorderingAccepted(s: Store, rs: seq<Report>, ts: seq<Report>)
    requires AllResults(rs) && Acceptable(s, rs) && SettledOnce(rs) && multiset(ts) == multiset(rs)
    ensures AllResults(ts) && Acceptable(s, ts)
  {
    SameElements(rs, ts);
    SettledOnceIsOrderFree(rs, ts);
    forall i | 0 <= i < |ts| ensures Pending(s, ts[i].rule) {
      assert ts[i] in rs;
    }
  }

  /** If a check gets a known report and another one, swapping the two breaks the run. */
  lemma UnsettledReorderingRefused(s: Store, rs: seq<Report>) returns (ts: seq<Report>)
    requires AllResults(rs) && Acceptable(s, rs) && !SettledOnce(rs)
    ensures multiset(ts) == multiset(rs) && AllResults(ts) && !Acceptable(s, ts)
  {
    var i, j :| 0 <= i < |rs| && 0 <= j < |rs| && i != j && rs[i].rule == rs[j].rule && Known(rs[i]);
    ts := rs[i := rs[j]][j := rs[i]];
    SwapKeepsElements(rs, i, j);
    SameElements(rs, ts);
    assert j < i;
    assert ts[j].rule == ts[i].rule && Known(ts[j]);
  }

  /** Exactly which accepted runs survive every reordering: those where a check that gets a known
      status gets exactly one report. An Unknown report before a known one is accepted,
      the other way round it is not. */
  lemma EveryReorderingAcceptedIff(s: Store, rs: seq<Report>)
    requires AllResults(rs) && Run(s, rs).Some?
    ensures SettledOnce(rs) <==> forall ts :: multiset(ts) == multiset(rs) ==> Run(s, ts).Some?
  {
    AcceptedIff(s, rs);
    if SettledOnce(rs) {
      forall ts: seq<Report> | multiset(ts) == multiset(rs) ensures Run(s, ts).Some? {
        SettledReorderingAccepted(s, rs, ts);
        AcceptedIff(s, ts);
      }
    } else {
      var ts := UnsettledReorderingRefused(s, rs);
      AcceptedIff(s, ts);
    }
  }

  lemma SwapKeepsElements(rs: seq<Report>, i: nat, j: nat)
    requires i < |rs| && j < |rs|
    ensures multiset(rs[i := rs[j]][j := rs[i]]) == multiset(rs)
  {
  }

  // ---------------------------------------------------------------- aggregate views

  /** Pass < Unknown < Fail < Error */
  function Severity(s: Status): nat {
    match s
    case Pass => 0
    case Unknown => 1
    case Fail => 2
    case Error => 3
  }

  predicate ChecksHave(checks: Checks, status: Status) {
    exists t, i :: t in checks && 0 <= i < |checks[t]| && checks[t][i] == status
  }

  predicate ObjectsHave(objects: map<Checkable, Checks>, status: Status) {
    exists o :: o in objects && ChecksHave(objects[o], status)
  }

  /** summarizeCheckStatuses, on whether each count is positive. */
  function Summary(errors: bool, fails: bool, unknowns: bool): Status {
    if errors then Error else if fails then Fail else if unknowns then Unknown else Pass
  }

  function ObjectStatus(checks: Checks): Status {
    Summary(ChecksHave(checks, Error), ChecksHave(checks, Fail), ChecksHave(checks, Unknown))
  }

  function Aggregate(cs: ConfigState): Status {
    match cs.objects
    case None => Unknown
    case Some(objects) =>
      Summary(ObjectsHave(objects, Error), ObjectsHave(objects, Fail), ObjectsHave(objects, Unknown))
  }

  /** An object's status is the most severe among its checks; with no check it passes. */
  lemma ObjectStatusIsMostSevere(checks: Checks)
    ensures forall s :: ChecksHave(checks, s) ==> Severity(s) <= Severity(ObjectStatus(checks))
    ensures ChecksHave(checks, ObjectStatus(checks)) ||
            (ObjectStatus(checks) == Pass && forall t :: t in checks ==> checks[t] == [])
  {
    forall t | t in checks && checks[t] != []
      ensures exists s :: ChecksHave(checks, s)
    {
      assert ChecksHave(checks, checks[t][0]);
    }
  }

  /** The aggregate of an expanded configuration object is the most severe of its objects'
      statuses, and Pass when there are none. */
  lemma AggregateIsMostSevere(cs: ConfigState)
    requires cs.objects.Some?
    ensures var objects := cs.objects.value;
            && (forall o :: o in objects ==> Severity(ObjectStatus(objects[o])) <= Severity(Aggregate(cs)))
            && (if objects == map[] then Aggregate(cs) == Pass
                else exists o :: o in objects && ObjectStatus(objects[o]) == Aggregate(cs))
  {
    var objects, agg := cs.objects.value, Aggregate(cs);
    if objects != map[] {
      if agg == Pass {
        var o :| o in objects;
        assert ObjectStatus(objects[o]) == Pass;
      } else {
        var o :| o in objects && ChecksHave(objects[o], agg);
        assert ObjectStatus(objects[o]) == agg;
      }
    }
  }

  /** The ways an aggregate may evolve. */
  predicate Forward(before: Status, after: Status) {
    before == after || before == Unknown || (before == Fail && after == Error)
  }

  lemma KeptStatusShows(s: Store, t: Store, config: string, status: Status)
    requires Consistent(s) && config in s.statuses && config in t.statuses
    requires s.statuses[config].objects.Some? && t.statuses[config].objects.Some?
    requires forall c :: Has(s, c) ==> Has(t, c) && (StatusOf(s, c) != Unknown ==> StatusOf(t, c) == StatusOf(s, c))
    requires status != Unknown && ObjectsHave(s.statuses[config].objects.value, status)
    ensures ObjectsHave(t.statuses[config].objects.value, status)
  {
    var objects := s.statuses[config].objects.value;
    var o :| o in objects && ChecksHave(objects[o], status);
    var ty, i :| ty in objects[o] && 0 <= i < |objects[o][ty]| && objects[o][ty][i] == status;
    var c := Rule(o, ty, i);
    assert Has(s, c) && StatusOf(s, c) == status;
    assert Has(t, c) && StatusOf(t, c) == status;
    assert ChecksHave(t.statuses[config].objects.value[o], status);
  }

  /** One report moves an aggregate forward, if at all. */
  lemma ApplyMovesForward(s: Store, r: Report, config: string)
    requires Consistent(s) && config in s.statuses && Apply(s, r).Some?
    ensures config in Apply(s, r).value.statuses
    ensures Forward(Aggregate(s.statuses[config]), Aggregate(Apply(s, r).value.statuses[config]))
  {
    var t := Apply(s, r).value;
    var before := s.statuses[config];
    if before.objects.Some? && t.statuses[config] != before {
      ApplyView(s, r);
      var c := r.rule;
      assert c.subject.config == config && StatusOf(s, c) == Unknown;
      assert ChecksHave(before.objects.value[c.subject], Unknown);
      assert ObjectsHave(before.objects.value, Unknown);
      if ObjectsHave(before.objects.value, Error) {
        KeptStatusShows(s, t, config, Error);
      }
      if ObjectsHave(before.objects.value, Fail) {
        KeptStatusShows(s, t, config, Fail);
      }
    }
  }

  /** Over every accepted run the aggregate only moves forward: Error is absorbing, Fail can only
      become Error, and Pass is final. */
  lemma {:induction false} AggregateMovesForward(s: Store, rs: seq<Report>, config: string)
    requires Consistent(s) && config in s.statuses && Run(s, rs).Some?
    ensures config in Run(s, rs).value.statuses
    ensures Forward(Aggregate(s.statuses[config]), Aggregate(Run(s, rs).value.statuses[config]))
    decreases |rs|
  {
    if rs != [] {
      ApplyMovesForward(s, rs[0], config);
      ApplyView(s, rs[0]);
      AggregateMovesForward(Apply(s, rs[0]).value, rs[1..], config);
    }
  }
}
