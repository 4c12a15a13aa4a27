/** Move endpoints as patterns over concrete addresses (move_endpoint_module.go).

    One denotation, `Denotes`, says which concrete objects an endpoint selects: it places the
    relative subject in every instance of the declaring module. The hand-written scans
    of the source (`SelectsModule`, `SelectsResource`, `CanChainFrom`, `NestedWithin`) are each
    proved exact against it. */
module MovePatterns {
  import opened Addresses

  /** The four address types that implement AbsMoveable, relative or absolute. */
  datatype Subject =
    | ModuleInst(path: ModuleInstance)
    | ModuleCall(caller: ModuleInstance, call: string)
    | WholeResource(resource: AbsResource)
    | OneInstance(instance: AbsResourceInstance)
  {
    /** ObjectKind() == MoveEndpointModule */
    predicate IsModuleKind() {
      ModuleInst? || ModuleCall?
    }
  }

  datatype Endpoint = Endpoint(declared: Module, rel: Subject) {
    /** Relative subjects come from configuration or from a real address, so every
        key in them is exact. */
    predicate WellFormed() {
      match rel
      case ModuleInst(p) => ConcretePath(p)
      case ModuleCall(c, _) => ConcretePath(c)
      case WholeResource(r) => ConcretePath(r.path)
      case OneInstance(i) => ConcretePath(i.path) && i.instance.key != AnyKey
    }
  }

  // ---------------------------------------------------------------- denotation

  /** A concrete object that a state can hold and a move statement can act on. */
  datatype Object =
    | ModuleObject(path: ModuleInstance)
    | ResourceObject(resource: AbsResource)
    | InstanceObject(instance: AbsResourceInstance)
  {
    /** The module the object is, or lives directly in. */
    function Path(): ModuleInstance {
      match this
      case ModuleObject(p) => p
      case ResourceObject(r) => r.path
      case InstanceObject(i) => i.path
    }

    /** Containment of concrete objects: a module holds everything below it, a resource
        holds its instances, and everything holds itself. */
    predicate Holds(inner: Object) {
      match this
      case ModuleObject(p) => p <= inner.Path()
      case ResourceObject(r) =>
        inner == this || (inner.InstanceObject? && inner.instance.ContainingResource() == r)
      case InstanceObject(_) => inner == this
    }
  }

  /** The endpoint's subject placed in one instance of the declaring module. */
  function InModuleInstance(e: Endpoint, at: ModuleInstance): Subject
    requires |at| == |e.declared|
  {
    match e.rel
    case ModuleInst(p) => ModuleInst(at + p)
    case ModuleCall(c, n) => ModuleCall(at + c, n)
    case WholeResource(r) => WholeResource(AbsResource(at + r.path, r.resource))
    case OneInstance(i) => OneInstance(AbsResourceInstance(at + i.path, i.instance))
  }

  /** An absolute subject stands for one object, except a module call, which stands for
      all of its instances. */
  predicate Stands(s: Subject, o: Object) {
    match s
    case ModuleInst(p) => o == ModuleObject(p)
    case ModuleCall(c, n) =>
      o.ModuleObject? && |o.path| == |c| + 1 && o.path[..|c|] == c && o.path[|c|].name == n &&
      o.path[|c|].key != AnyKey
    case WholeResource(r) => o == ResourceObject(r)
    case OneInstance(i) => o == InstanceObject(i)
  }

  predicate DenotesAt(e: Endpoint, at: ModuleInstance, o: Object) {
    ConcretePath(at) && ModuleOf(at) == e.declared && Stands(InModuleInstance(e, at), o)
  }

  /** The objects selected by `e`, over all instances of the declaring module. */
  ghost predicate Denotes(e: Endpoint, o: Object) {
    exists at: ModuleInstance :: DenotesAt(e, at, o)
  }

  // ---------------------------------------------------------------- the source's scans

  function WildSteps(m: Module): ModuleInstance {
    seq(|m|, i requires 0 <= i < |m| => Step(m[i], AnyKey))
  }

  /** synthModuleInstance, as a value. */
  function Synth(e: Endpoint): ModuleInstance {
    WildSteps(e.declared) +
    match e.rel
    case ModuleInst(p) => p
    case ModuleCall(c, n) => c + [Step(n, AnyKey)]
    case WholeResource(r) => r.path
    case OneInstance(i) => i.path
  }

  method SynthModuleInstance(e: Endpoint) returns (inst: ModuleInstance)
    ensures inst == Synth(e)
  {
    inst := [];
    for i := 0 to |e.declared|
      invariant inst == WildSteps(e.declared)[..i]
    {
      inst := inst + [Step(e.declared[i], AnyKey)];
    }
    match e.rel
    case ModuleInst(p) => inst := inst + p;
    case ModuleCall(c, n) => inst := inst + c; inst := inst + [Step(n, AnyKey)];
    case WholeResource(r) => inst := inst + r.path;
    case OneInstance(i) => inst := inst + i.path;
  }

  predicate StepSelects(pattern: Step, step: Step) {
    if pattern.key == AnyKey then pattern.name == step.name else pattern == step
  }

  /** The steps of a pattern select the steps of a path, one by one. */
  predicate StepsSelect(pattern: ModuleInstance, m: ModuleInstance) {
    |pattern| == |m| && forall i :: 0 <= i < |pattern| ==> StepSelects(pattern[i], m[i])
  }

  predicate SelectsModule(e: Endpoint, addr: ModuleInstance) {
    StepsSelect(Synth(e), addr)
  }

  method SelectsModuleScan(e: Endpoint, addr: ModuleInstance) returns (selects: bool)
    ensures selects == SelectsModule(e, addr)
  {
    var synth := SynthModuleInstance(e);
    if |synth| != |addr| {
      return false;
    }
    for i := 0 to |synth|
      invariant forall j :: 0 <= j < i ==> StepSelects(synth[j], addr[j])
    {
      if synth[i].key == AnyKey {
        if synth[i].name != addr[i].name {
          return false;
        }
      } else if synth[i] != addr[i] {
        return false;
      }
    }
    return true;
  }

  predicate SelectsResource(e: Endpoint, r: AbsResource) {
    match e.rel
    case WholeResource(s) => SelectsModule(e, r.path) && r.resource == s.resource
    case OneInstance(s) => SelectsModule(e, r.path) && r.resource == s.instance.resource
    case _ => false
  }

  predicate StepsCanMeet(a: Step, b: Step) {
    if a.key == AnyKey || b.key == AnyKey then a.name == b.name else a == b
  }

  predicate CanMatch(a: ModuleInstance, b: ModuleInstance)
    requires |a| <= |b|
  {
    forall i :: 0 <= i < |a| ==> StepsCanMeet(a[i], b[i])
  }

  method ModuleInstanceCanMatch(a: ModuleInstance, b: ModuleInstance) returns (r: bool)
    requires |a| <= |b|
    ensures r == CanMatch(a, b)
  {
    for i := 0 to |a|
      invariant forall j :: 0 <= j < i ==> StepsCanMeet(a[j], b[j])
    {
      if a[i].key == AnyKey || b[i].key == AnyKey {
        if a[i].name != b[i].name {
          return false;
        }
      } else if a[i] != b[i] {
        return false;
      }
    }
    return true;
  }

  predicate CanChainFrom(e: Endpoint, other: Endpoint) {
    var eMod, oMod := Synth(e), Synth(other);
    |eMod| == |oMod| && CanMatch(oMod, eMod) &&
    match other.rel
    case ModuleCall(_, _) => e.rel.IsModuleKind()
    case ModuleInst(_) => e.rel.IsModuleKind()
    case WholeResource(o) => e.rel.WholeResource? && e.rel.resource.resource == o.resource
    case OneInstance(o) => e.rel.OneInstance? && e.rel.instance.instance == o.instance
  }

  predicate NestedWithin(e: Endpoint, other: Endpoint) {
    var eMod, oMod := Synth(e), Synth(other);
    |oMod| <= |eMod| && CanMatch(oMod, eMod) &&
    match other.rel
    case ModuleCall(_, _) => e.rel.ModuleCall? ==> |eMod| > |oMod|
    case ModuleInst(_) => e.rel.IsModuleKind() ==> |eMod| > |oMod|
    case WholeResource(o) =>
      |eMod| == |oMod| && e.rel.OneInstance? && e.rel.instance.instance.resource == o.resource
    case OneInstance(_) => false
  }

  // ---------------------------------------------------------------- exactness

  /** What an endpoint says about an object besides its module path. */
  predicate SubjectAgrees(s: Subject, o: Object) {
    match s
    case ModuleInst(_) => o.ModuleObject?
    case ModuleCall(_, _) => o.ModuleObject?
    case WholeResource(r) => o.ResourceObject? && o.resource.resource == r.resource
    case OneInstance(i) => o.InstanceObject? && o.instance.instance == i.instance
  }

  /** The path starts with an instance of the declaring module. */
  predicate PrefixMatches(declared: Module, m: ModuleInstance) {
    |declared| <= |m| && ModuleOf(m[..|declared|]) == declared
  }

  /** The part of a path below the declaring module is what the relative subject names. */
  predicate SubjectSelects(s: Subject, rel: ModuleInstance) {
    match s
    case ModuleInst(p) => rel == p
    case ModuleCall(c, n) => |rel| == |c| + 1 && c < rel && rel[|c|].name == n
    case WholeResource(r) => rel == r.path
    case OneInstance(i) => rel == i.path
  }

  /** Exact steps select only themselves. */
  lemma ExactStepsSelectThemselves(pattern: ModuleInstance, rel: ModuleInstance)
    requires ConcretePath(pattern)
    ensures StepsSelect(pattern, rel) <==> rel == pattern
  {
  }

  /** The steps of a pattern can be checked on either side of any cut. */
  lemma SelectionSplits(a: ModuleInstance, b: ModuleInstance, m: ModuleInstance)
    ensures StepsSelect(a + b, m) <==>
            |a| <= |m| && StepsSelect(a, m[..|a|]) && StepsSelect(b, m[|a|..])
  {
    if StepsSelect(a + b, m) {
      forall i | 0 <= i < |a| ensures StepSelects(a[i], m[..|a|][i]) {
        assert StepSelects((a + b)[i], m[i]);
      }
      forall i | 0 <= i < |b| ensures StepSelects(b[i], m[|a|..][i]) {
        assert StepSelects((a + b)[|a| + i], m[|a| + i]);
      }
    }
  }

  lemma WildStepsSelect(declared: Module, m: ModuleInstance)
    ensures StepsSelect(WildSteps(declared), m) <==> ModuleOf(m) == declared
  {
    if StepsSelect(WildSteps(declared), m) {
      forall i | 0 <= i < |m| ensures ModuleOf(m)[i] == declared[i] {
        assert StepSelects(WildSteps(declared)[i], m[i]);
      }
    }
  }

  lemma SelectsAcrossDeclaration(e: Endpoint, tail: ModuleInstance, m: ModuleInstance)
    requires Synth(e) == WildSteps(e.declared) + tail
    ensures SelectsModule(e, m) <==> PrefixMatches(e.declared, m) && StepsSelect(tail, m[|e.declared|..])
  {
    SelectionSplits(WildSteps(e.declared), tail, m);
    if |e.declared| <= |m| {
      WildStepsSelect(e.declared, m[..|e.declared|]);
    }
  }

  /** A call endpoint selects every instance of its call. */
  lemma CallStepsSelect(c: ModuleInstance, n: string, rel: ModuleInstance)
    requires ConcretePath(c)
    ensures StepsSelect(c + [Step(n, AnyKey)], rel) <==> SubjectSelects(ModuleCall(c, n), rel)
  {
    SelectionSplits(c, [Step(n, AnyKey)], rel);
    if |rel| == |c| + 1 {
      ExactStepsSelectThemselves(c, rel[..|c|]);
      assert rel[|c|..] == [rel[|c|]];
    }
  }

  /** Where a well-formed endpoint selects a module, read against the split at the declaring
      module. */
  lemma SelectsModuleSplit(e: Endpoint, m: ModuleInstance)
    requires e.WellFormed()
    ensures SelectsModule(e, m) <==> PrefixMatches(e.declared, m) && SubjectSelects(e.rel, m[|e.declared|..])
  {
    if |m| < |e.declared| {
      return;
    }
    var rel := m[|e.declared|..];
    match e.rel {
      case ModuleCall(c, n) =>
        SelectsAcrossDeclaration(e, c + [Step(n, AnyKey)], m);
        CallStepsSelect(c, n, rel);
      case ModuleInst(p) => SelectsAcrossDeclaration(e, p, m); ExactStepsSelectThemselves(p, rel);
      case WholeResource(r) => SelectsAcrossDeclaration(e, r.path, m); ExactStepsSelectThemselves(r.path, rel);
      case OneInstance(i) => SelectsAcrossDeclaration(e, i.path, m); ExactStepsSelectThemselves(i.path, rel);
    }
  }

  lemma ConcreteConcat(a: ModuleInstance, b: ModuleInstance)
    ensures ConcretePath(a + b) <==> ConcretePath(a) && ConcretePath(b)
  {
    assert forall i :: 0 <= i < |a| ==> (a + b)[i] == a[i];
    assert forall i :: 0 <= i < |b| ==> (a + b)[|a| + i] == b[i];
  }

  /** The subject placed at `at` stands for an object exactly when the object's path is `at` and then
      what the subject names. */
  lemma StandsIffSelects(e: Endpoint, at: ModuleInstance, o: Object)
    requires e.WellFormed() && |at| == |e.declared| && ConcretePath(at)
    ensures Stands(InModuleInstance(e, at), o) <==>
            && at <= o.Path() && SubjectSelects(e.rel, o.Path()[|at|..])
            && ConcretePath(o.Path()) && SubjectAgrees(e.rel, o)
  {
    var path := o.Path();
    if at <= path {
      var rel := path[|at|..];
      assert path == at + rel;
      ConcreteConcat(at, rel);
    }
    match e.rel {
      case ModuleInst(p) => ConcreteConcat(at, p); assert (at + p)[|at|..] == p;
      case WholeResource(r) => ConcreteConcat(at, r.path); assert (at + r.path)[|at|..] == r.path;
      case OneInstance(i) => ConcreteConcat(at, i.path); assert (at + i.path)[|at|..] == i.path;
      case ModuleCall(c, n) => CallStands(at, c, n, o);
    }
  }

  lemma CallStands(at: ModuleInstance, c: ModuleInstance, n: string, o: Object)
    requires ConcretePath(at) && ConcretePath(c)
    ensures Stands(ModuleCall(at + c, n), o) <==>
            && at <= o.Path() && SubjectSelects(ModuleCall(c, n), o.Path()[|at|..])
            && ConcretePath(o.Path()) && o.ModuleObject?
  {
    var path := o.Path();
    var last := |at| + |c|;
    if |path| == last + 1 {
      assert path[..last] + [path[last]] == path;
      ConcreteConcat(path[..last], [path[last]]);
      ConcreteConcat(at, c);
      if path[..last] == at + c {
        assert path[|at|..][..|c|] == c;
      }
      if at <= path && c < path[|at|..] {
        assert path[..last] == at + path[|at|..][..|c|];
      }
    }
  }

  /** The existential denotation has a step-by-step reading. */
  lemma DenotesIffScan(e: Endpoint, o: Object)
    requires e.WellFormed()
    ensures Denotes(e, o) <==> ConcretePath(o.Path()) && SelectsModule(e, o.Path()) && SubjectAgrees(e.rel, o)
  {
    var path, d := o.Path(), |e.declared|;
    SelectsModuleSplit(e, path);
    if Denotes(e, o) {
      var at :| DenotesAt(e, at, o);
      StandsIffSelects(e, at, o);
      assert path[..d] == at;
    }
    if ConcretePath(path) && SelectsModule(e, path) && SubjectAgrees(e.rel, o) {
      StandsIffSelects(e, path[..d], o);
      assert DenotesAt(e, path[..d], o);
    }
  }

  /** The object of `e`'s kind that sits at `path`. */
  function ObjectAt(s: Subject, path: ModuleInstance): (o: Object)
    ensures o.Path() == path && SubjectAgrees(s, o)
  {
    match s
    case ModuleInst(_) => ModuleObject(path)
    case ModuleCall(_, _) => ModuleObject(path)
    case WholeResource(r) => ResourceObject(AbsResource(path, r.resource))
    case OneInstance(i) => InstanceObject(AbsResourceInstance(path, i.instance))
  }

  /** `SelectsModule` is exact: it answers whether some object selected by the endpoint is
      the module, or lives directly in it. */
  lemma SelectsModuleExact(e: Endpoint, addr: ModuleInstance)
    requires e.WellFormed() && ConcretePath(addr)
    ensures SelectsModule(e, addr) <==> exists o :: Denotes(e, o) && o.Path() == addr
  {
    if SelectsModule(e, addr) {
      DenotesIffScan(e, ObjectAt(e.rel, addr));
    }
    if o: Object :| Denotes(e, o) && o.Path() == addr {
      DenotesIffScan(e, o);
    }
  }

  /** `SelectsResource` is exact: the endpoint selects the resource or one of its instances. */
  lemma SelectsResourceExact(e: Endpoint, r: AbsResource)
    requires e.WellFormed() && ConcretePath(r.path)
    ensures SelectsResource(e, r) <==>
            exists o :: Denotes(e, o) && !o.ModuleObject? && ResourceObject(r).Holds(o)
  {
    if SelectsResource(e, r) {
      var o := ObjectAt(e.rel, r.path);
      DenotesIffScan(e, o);
      assert Denotes(e, o) && ResourceObject(r).Holds(o);
    }
    if o: Object :| Denotes(e, o) && !o.ModuleObject? && ResourceObject(r).Holds(o) {
      DenotesIffScan(e, o);
    }
  }

  /** A concrete path inside both patterns, taken step by step; `b` may go deeper. */
  function Meet(a: ModuleInstance, b: ModuleInstance): (m: ModuleInstance)
    requires |a| <= |b|
    ensures |m| == |b|
    ensures ConcretePath(m)
  {
    seq(|b|, i requires 0 <= i < |b| =>
      var key := if b[i].key == AnyKey && i < |a| then a[i].key else b[i].key;
      Step(b[i].name, if key == AnyKey then NoKey else key))
  }

  lemma MeetSelected(a: ModuleInstance, b: ModuleInstance)
    requires |a| <= |b|
    requires CanMatch(a, b)
    ensures forall i :: 0 <= i < |a| ==> StepSelects(a[i], Meet(a, b)[i])
    ensures forall i :: 0 <= i < |b| ==> StepSelects(b[i], Meet(a, b)[i])
  {
    forall i | 0 <= i < |a|
      ensures StepSelects(a[i], Meet(a, b)[i])
    {
      assert StepsCanMeet(a[i], b[i]);
    }
    forall i | 0 <= i < |b|
      ensures StepSelects(b[i], Meet(a, b)[i])
    {
      assert i < |a| ==> StepsCanMeet(a[i], b[i]);
    }
  }

  /** Any two paths selected by the patterns make the patterns compatible. */
  lemma SelectedCanMatch(a: ModuleInstance, b: ModuleInstance, path: ModuleInstance)
    requires |a| <= |b| <= |path|
    requires forall i :: 0 <= i < |a| ==> StepSelects(a[i], path[i])
    requires forall i :: 0 <= i < |b| ==> StepSelects(b[i], path[i])
    ensures CanMatch(a, b)
  {
    forall i | 0 <= i < |a|
      ensures StepsCanMeet(a[i], b[i])
    {
      assert StepSelects(a[i], path[i]) && StepSelects(b[i], path[i]);
    }
  }

  /** `CanChainFrom` holds exactly when some concrete object is selected by both endpoints,
      for every pair of subject kinds and every mix of wildcard and exact steps. */
  lemma CanChainFromExact(e: Endpoint, other: Endpoint)
    requires e.WellFormed() && other.WellFormed()
    ensures CanChainFrom(e, other) <==> exists o :: Denotes(e, o) && Denotes(other, o)
  {
    var eMod, oMod := Synth(e), Synth(other);
    if CanChainFrom(e, other) {
      MeetSelected(oMod, eMod);
      var o := ObjectAt(e.rel, Meet(oMod, eMod));
      DenotesIffScan(e, o);
      DenotesIffScan(other, o);
      assert Denotes(e, o) && Denotes(other, o);
    }
    if o: Object :| Denotes(e, o) && Denotes(other, o) {
      DenotesIffScan(e, o);
      DenotesIffScan(other, o);
      SelectedCanMatch(oMod, eMod, o.Path());
    }
  }

  lemma CanChainFromSymmetric(e: Endpoint, other: Endpoint)
    requires e.WellFormed() && other.WellFormed()
    ensures CanChainFrom(e, other) <==> CanChainFrom(other, e)
  {
    CanChainFromExact(e, other);
    CanChainFromExact(other, e);
  }

  /** Kinds by how deep they reach: a call holds its instances, an instance holds resources. */
  function KindRank(s: Subject): nat {
    match s
    case ModuleCall(_, _) => 0
    case ModuleInst(_) => 1
    case WholeResource(_) => 2
    case OneInstance(_) => 3
  }

  /** (path length, subject kind), compared lexicographically. */
  predicate RankBelow(a: Endpoint, b: Endpoint) {
    |Synth(a)| < |Synth(b)| || (|Synth(a)| == |Synth(b)| && KindRank(a.rel) < KindRank(b.rel))
  }

  ghost predicate SomeHeld(inner: Endpoint, outer: Endpoint) {
    exists c, x :: Denotes(outer, c) && Denotes(inner, x) && c.Holds(x)
  }

  /** `NestedWithin` is exact: some object of the inner endpoint is held by one of the outer
      endpoint, and the inner endpoint ranks strictly deeper. */
  lemma NestedWithinExact(e: Endpoint, other: Endpoint)
    requires e.WellFormed() && other.WellFormed()
    ensures NestedWithin(e, other) <==> RankBelow(other, e) && SomeHeld(e, other)
  {
    var eMod, oMod := Synth(e), Synth(other);
    if NestedWithin(e, other) {
      MeetSelected(oMod, eMod);
      var path := Meet(oMod, eMod);
      var x, c := ObjectAt(e.rel, path), ObjectAt(other.rel, path[..|oMod|]);
      DenotesIffScan(e, x);
      DenotesIffScan(other, c);
      if other.rel.WholeResource? {
        assert path[..|oMod|] == path;
      }
      assert Denotes(other, c) && Denotes(e, x) && c.Holds(x);
    }
    if RankBelow(other, e) && SomeHeld(e, other) {
      var c, x :| Denotes(other, c) && Denotes(e, x) && c.Holds(x);
      DenotesIffScan(e, x);
      DenotesIffScan(other, c);
      SelectedCanMatch(oMod, eMod, x.Path());
    }
  }

  /** Each endpoint in the sequence is nested in the next one. */
  predicate NestingChain(es: seq<Endpoint>) {
    forall i :: 0 <= i < |es| - 1 ==> NestedWithin(es[i], es[i + 1])
  }

  /** Nesting never loops: along a chain of any length the rank falls, so no endpoint recurs. */
  lemma {:induction false} NestingHasNoCycle(es: seq<Endpoint>)
    requires |es| >= 2 && NestingChain(es)
    ensures RankBelow(es[|es| - 1], es[0])
    ensures es[0] != es[|es| - 1]
  {
    assert NestedWithin(es[0], es[1]);
    if |es| > 2 {
      var rest := es[1..];
      forall i | 0 <= i < |rest| - 1
        ensures NestedWithin(rest[i], rest[i + 1])
      {
        assert NestedWithin(es[i + 1], es[i + 1 + 1]);
      }
      NestingHasNoCycle(rest);
    }
  }
}
