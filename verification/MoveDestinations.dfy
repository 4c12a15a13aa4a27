/** Unifying the two endpoints of a `moved` block, and where objects move
    (move_endpoint.go and the MoveDestination methods of move_endpoint_module.go).

    A failed type assertion or an explicit panic is the outcome `Panics`, so that its absence
    can be proved. */
module MoveDestinations {
  import opened Addresses
  import opened MovePatterns

  datatype Outcome<+T> = NoMatch | Moved(to: T) | Panics

  // ---------------------------------------------------------------- unification

  /** What ParseMoveEndpoint produces: a module instance or a resource instance. */
  datatype MoveEndpoint = ParsedModule(path: ModuleInstance) | ParsedInstance(instance: AbsResourceInstance)

  datatype AddrType = ModuleCallType | ModuleInstanceType | ResourceType | ResourceInstanceType

  function InternalAddrType(e: MoveEndpoint): AddrType {
    match e
    case ParsedModule(p) => if p != [] && p[|p| - 1].key == NoKey then ModuleCallType else ModuleInstanceType
    case ParsedInstance(i) => if i.instance.key == NoKey then ResourceType else ResourceInstanceType
  }

  datatype Prepared = Ready(endpoint: Endpoint) | Unsuitable | RootCallPanic

  function Prepare(e: MoveEndpoint, declared: Module, want: AddrType): Prepared {
    match e
    case ParsedModule(p) =>
      if want.ModuleInstanceType? then Ready(Endpoint(declared, ModuleInst(p)))
      else if want.ModuleCallType? then
        if p == [] then RootCallPanic
        else Ready(Endpoint(declared, ModuleCall(p[..|p| - 1], p[|p| - 1].name)))
      else Unsuitable
    case ParsedInstance(i) =>
      if want.ResourceInstanceType? then Ready(Endpoint(declared, OneInstance(i)))
      else if want.ResourceType? then Ready(Endpoint(declared, WholeResource(i.ContainingResource())))
      else Unsuitable
  }

  datatype Unified = Unified(from: Endpoint, to: Endpoint) | Incompatible | UnifyPanics

  function WantType(a: AddrType, b: AddrType): AddrType {
    if a.ResourceInstanceType? || b.ResourceInstanceType? then ResourceInstanceType
    else if a.ResourceType? || b.ResourceType? then ResourceType
    else if a.ModuleInstanceType? || b.ModuleInstanceType? then ModuleInstanceType
    else ModuleCallType
  }

  function UnifyMoveEndpoints(declared: Module, from: MoveEndpoint, to: MoveEndpoint): Unified {
    var want := WantType(InternalAddrType(from), InternalAddrType(to));
    match (Prepare(from, declared, want), Prepare(to, declared, want))
    case (RootCallPanic, _) => UnifyPanics
    case (_, RootCallPanic) => UnifyPanics
    case (Ready(f), Ready(t)) => Unified(f, t)
    case _ => Incompatible
  }

  /** MightUnifyWith tries the root module as the declaring module. */
  predicate MightUnifyWith(from: MoveEndpoint, to: MoveEndpoint) {
    UnifyMoveEndpoints([], from, to).Unified?
  }

  /** Two endpoints that belong to one statement: same declaring module, same subject type. */
  predicate SameStatement(from: Endpoint, to: Endpoint) {
    from.declared == to.declared && KindRank(from.rel) == KindRank(to.rel)
  }

  predicate HasLastKey(e: MoveEndpoint) {
    match e
    case ParsedModule(p) => p == [] || p[|p| - 1].key != NoKey
    case ParsedInstance(i) => i.instance.key != NoKey
  }

  /** Unification succeeds exactly for two modules or two resources, never panics, depends only
      on the relative parts, and widens to a whole object exactly when neither side
      names an instance. */
  lemma UnifyExact(declared: Module, from: MoveEndpoint, to: MoveEndpoint)
    ensures UnifyMoveEndpoints(declared, from, to) != UnifyPanics
    ensures UnifyMoveEndpoints(declared, from, to).Unified? <==> (from.ParsedModule? <==> to.ParsedModule?)
    ensures MightUnifyWith(from, to) <==> UnifyMoveEndpoints(declared, from, to).Unified?
    ensures var u := UnifyMoveEndpoints(declared, from, to);
            u.Unified? ==>
              && SameStatement(u.from, u.to)
              && u.from.declared == declared
              && u.from.rel.IsModuleKind() == from.ParsedModule?
              && ((u.from.rel.ModuleCall? || u.from.rel.WholeResource?) <==> !HasLastKey(from) && !HasLastKey(to))
  {
    assert InternalAddrType(from).ModuleCallType? || InternalAddrType(from).ModuleInstanceType? <==> from.ParsedModule?;
    assert InternalAddrType(to).ModuleCallType? || InternalAddrType(to).ModuleInstanceType? <==> to.ParsedModule?;
  }

  /** In the module instance `at`, the address that was written is among the objects the endpoint
      denotes, or is an instance of a resource it denotes. */
  ghost predicate KeepsMeaning(e: Endpoint, written: MoveEndpoint, at: ModuleInstance) {
    match written
    case ParsedModule(p) => (ConcretePath(p) ==> Denotes(e, ModuleObject(at + p)))
    case ParsedInstance(i) =>
      var inst := AbsResourceInstance(at + i.path, i.instance);
      Denotes(e, InstanceObject(inst)) || Denotes(e, ResourceObject(inst.ContainingResource()))
  }

  lemma PreparedKeepsMeaning(declared: Module, written: MoveEndpoint, want: AddrType, at: ModuleInstance)
    requires ModuleOf(at) == declared && ConcretePath(at)
    requires Prepare(written, declared, want).Ready?
    ensures KeepsMeaning(Prepare(written, declared, want).endpoint, written, at)
  {
    var e := Prepare(written, declared, want).endpoint;
    match written
    case ParsedModule(p) =>
      if ConcretePath(p) {
        if e.rel.ModuleCall? {
          assert p == p[..|p| - 1] + [p[|p| - 1]];
          assert (at + p)[..|at| + |p| - 1] == at + p[..|p| - 1];
        }
        assert DenotesAt(e, at, ModuleObject(at + p));
      }
    case ParsedInstance(i) =>
      var inst := AbsResourceInstance(at + i.path, i.instance);
      if e.rel.OneInstance? {
        assert DenotesAt(e, at, InstanceObject(inst));
      } else {
        assert DenotesAt(e, at, ResourceObject(inst.ContainingResource()));
      }
  }

  /** Unified endpoints still select what was written, on both sides and in every instance of the
      declaring module. */
  lemma UnifyKeepsMeaning(declared: Module, from: MoveEndpoint, to: MoveEndpoint, at: ModuleInstance)
    requires UnifyMoveEndpoints(declared, from, to).Unified?
    requires ModuleOf(at) == declared && ConcretePath(at)
    ensures var u := UnifyMoveEndpoints(declared, from, to);
            KeepsMeaning(u.from, from, at) && KeepsMeaning(u.to, to, at)
  {
    var want := WantType(InternalAddrType(from), InternalAddrType(to));
    PreparedKeepsMeaning(declared, from, want, at);
    PreparedKeepsMeaning(declared, to, want, at);
  }

  // ---------------------------------------------------------------- moving modules

  /** Where a module path moves, as a value. */
  function MoveModule(m: ModuleInstance, from: Endpoint, to: Endpoint): Outcome<ModuleInstance> {
    var d := |from.declared|;
    if m == [] || !from.rel.IsModuleKind() || !PrefixMatches(from.declared, m) then NoMatch
    else
      var rel := m[d..];
      match from.rel
      case ModuleInst(p) =>
        if !(p <= rel) then NoMatch
        else if !to.rel.ModuleInst? then Panics
        else Moved(m[..d] + to.rel.path + rel[|p|..])
      case ModuleCall(c, n) =>
        if !(c < rel) || rel[|c|].name != n then NoMatch
        else if !to.rel.ModuleCall? then Panics
        else Moved(m[..d] + (to.rel.caller + [Step(to.rel.call, rel[|c|].key)]) + rel[|c| + 1..])
      case _ => assert false; NoMatch
  }

  /** matchModuleInstancePrefix: split an address at the declaring module. */
  method MatchModuleInstancePrefix(e: Endpoint, m: ModuleInstance)
    returns (prefix: ModuleInstance, rel: ModuleInstance, matched: bool)
    ensures matched == PrefixMatches(e.declared, m)
    ensures matched ==> prefix == m[..|e.declared|] && rel == m[|e.declared|..]
  {
    var d := |e.declared|;
    if d > |m| {
      return [], [], false;
    }
    for i := 0 to d
      invariant forall j :: 0 <= j < i ==> e.declared[j] == m[j].name
    {
      if e.declared[i] != m[i].name {
        assert ModuleOf(m[..d])[i] != e.declared[i];
        return [], [], false;
      }
    }
    assert ModuleOf(m[..d]) == e.declared;
    return m[..d], m[d..], true;
  }

  /** The exact-step scan that the MoveDestination methods repeat. */
  method StartsWith(m: ModuleInstance, p: ModuleInstance) returns (r: bool)
    requires |p| <= |m|
    ensures r == (p <= m)
  {
    for i := 0 to |p|
      invariant p[..i] == m[..i]
    {
      if p[i] != m[i] {
        return false;
      }
    }
    assert p == p[..|p|] == m[..|p|];
    return true;
  }

  method MoveDestinationOfModule(m: ModuleInstance, from: Endpoint, to: Endpoint)
    returns (r: Outcome<ModuleInstance>)
    ensures r == MoveModule(m, from, to)
  {
    if m == [] || !from.rel.IsModuleKind() {
      return NoMatch;
    }
    var prefix, rel, matched := MatchModuleInstancePrefix(from, m);
    if !matched {
      return NoMatch;
    }
    var suffix, newMatch;
    if from.rel.ModuleInst? {
      var p := from.rel.path;
      if |p| > |rel| {
        return NoMatch;
      }
      var same := StartsWith(rel, p);
      if !same {
        return NoMatch;
      }
      if !to.rel.ModuleInst? {
        return Panics;
      }
      newMatch, suffix := to.rel.path, rel[|p|..];
    } else {
      var c := from.rel.caller;
      if |c| > |rel| - 1 {
        return NoMatch;
      }
      var same := StartsWith(rel, c);
      if !same || rel[|c|].name != from.rel.call {
        return NoMatch;
      }
      if !to.rel.ModuleCall? {
        return Panics;
      }
      newMatch, suffix := to.rel.caller + [Step(to.rel.call, rel[|c|].key)], rel[|c| + 1..];
    }
    var ret := prefix;
    ret := ret + newMatch;
    ret := ret + suffix;
    return Moved(ret);
  }

  // ---------------------------------------------------------------- moving resources

  predicate ExactlyAt(declared: Module, relPath: ModuleInstance, m: ModuleInstance) {
    PrefixMatches(declared, m) && m[|declared|..] == relPath
  }

  function MoveResource(r: AbsResource, from: Endpoint, to: Endpoint): Outcome<AbsResource> {
    match from.rel
    case ModuleInst(_) => MoveResourceWithModule(r, MoveModule(r.path, from, to))
    case ModuleCall(_, _) => MoveResourceWithModule(r, MoveModule(r.path, from, to))
    case OneInstance(_) => NoMatch
    case WholeResource(f) =>
      if f.resource != r.resource || !ExactlyAt(from.declared, f.path, r.path) then NoMatch
      else if !to.rel.WholeResource? then Panics
      else Moved(AbsResource(r.path[..|from.declared|] + to.rel.resource.path, to.rel.resource.resource))
  }

  function MoveResourceWithModule(r: AbsResource, o: Outcome<ModuleInstance>): Outcome<AbsResource> {
    match o
    case NoMatch => NoMatch
    case Panics => Panics
    case Moved(p) => Moved(AbsResource(p, r.resource))
  }

  function MoveInstance(r: AbsResourceInstance, from: Endpoint, to: Endpoint): Outcome<AbsResourceInstance> {
    match from.rel
    case OneInstance(f) =>
      if f.instance != r.instance || !ExactlyAt(from.declared, f.path, r.path) then NoMatch
      else if !to.rel.OneInstance? then Panics
      else Moved(AbsResourceInstance(r.path[..|from.declared|] + to.rel.instance.path, to.rel.instance.instance))
    case _ =>
      match MoveResource(r.ContainingResource(), from, to)
      case NoMatch => NoMatch
      case Panics => Panics
      case Moved(moved) => Moved(moved.Instance(r.instance.key))
  }

  method MoveDestinationOfResource(r: AbsResource, from: Endpoint, to: Endpoint)
    returns (o: Outcome<AbsResource>)
    ensures o == MoveResource(r, from, to)
  {
    if from.rel.IsModuleKind() {
      var moved := MoveDestinationOfModule(r.path, from, to);
      return MoveResourceWithModule(r, moved);
    }
    if !from.rel.WholeResource? {
      return NoMatch;
    }
    var f := from.rel.resource;
    if f.resource != r.resource {
      return NoMatch;
    }
    var prefix, rel, matched := MatchModuleInstancePrefix(from, r.path);
    if !matched || |rel| != |f.path| {
      return NoMatch;
    }
    var same := StartsWith(rel, f.path);
    if !same {
      return NoMatch;
    }
    assert rel == f.path;
    if !to.rel.WholeResource? {
      return Panics;
    }
    return Moved(AbsResource(prefix + to.rel.resource.path, to.rel.resource.resource));
  }

  method MoveDestinationOfInstance(r: AbsResourceInstance, from: Endpoint, to: Endpoint)
    returns (o: Outcome<AbsResourceInstance>)
    ensures o == MoveInstance(r, from, to)
  {
    if !from.rel.OneInstance? {
      var moved := MoveDestinationOfResource(r.ContainingResource(), from, to);
      match moved
      case NoMatch => return NoMatch;
      case Panics => return Panics;
      case Moved(m) => return Moved(m.Instance(r.instance.key));
    }
    var f := from.rel.instance;
    if f.instance != r.instance {
      return NoMatch;
    }
    var prefix, rel, matched := MatchModuleInstancePrefix(from, r.path);
    if !matched || |rel| != |f.path| {
      return NoMatch;
    }
    var same := StartsWith(rel, f.path);
    if !same {
      return NoMatch;
    }
    assert rel == f.path;
    if !to.rel.OneInstance? {
      return Panics;
    }
    return Moved(AbsResourceInstance(prefix + to.rel.instance.path, to.rel.instance.instance));
  }

  // ---------------------------------------------------------------- no panics

  /** Within one statement no MoveDestination can fail a type assertion. */
  lemma OneStatementNeverPanics(m: ModuleInstance, r: AbsResource, i: AbsResourceInstance, from: Endpoint, to: Endpoint)
    requires SameStatement(from, to)
    ensures MoveModule(m, from, to) != Panics
    ensures MoveResource(r, from, to) != Panics
    ensures MoveInstance(i, from, to) != Panics
  {
  }

  /** From parsed endpoints to a moved object, nothing panics. */
  lemma UnifiedMovesNeverPanic(
      declared: Module, relFrom: MoveEndpoint, relTo: MoveEndpoint,
      m: ModuleInstance, r: AbsResource, i: AbsResourceInstance)
    ensures match UnifyMoveEndpoints(declared, relFrom, relTo)
            case UnifyPanics => false
            case Incompatible => true
            case Unified(from, to) =>
              && MoveModule(m, from, to) != Panics
              && MoveResource(r, from, to) != Panics
              && MoveInstance(i, from, to) != Panics
  {
    UnifyExact(declared, relFrom, relTo);
    var u := UnifyMoveEndpoints(declared, relFrom, relTo);
    if u.Unified? {
      OneStatementNeverPanics(m, r, i, u.from, u.to);
    }
  }

  // ---------------------------------------------------------------- which objects move

  /** A module path moves exactly when the `from` endpoint selects one of its ancestors or the
      path itself; only the root module never moves. */
  lemma ModuleMovesIffPrefixSelected(m: ModuleInstance, from: Endpoint, to: Endpoint)
    requires from.WellFormed() && SameStatement(from, to)
    ensures MoveModule(m, from, to).Moved? <==>
            m != [] && from.rel.IsModuleKind() && exists k :: 0 <= k <= |m| && SelectsModule(from, m[..k])
  {
    var d := |from.declared|;
    if MoveModule(m, from, to).Moved? {
      var k := |Synth(from)|;
      SelectsModuleSplit(from, m[..k]);
      assert m[..k][..d] == m[..d];
      assert m[..k][d..] == m[d..][..k - d];
      assert SelectsModule(from, m[..k]);
    }
    if m != [] && from.rel.IsModuleKind() {
      if k :| 0 <= k <= |m| && SelectsModule(from, m[..k]) {
        SelectsModuleSplit(from, m[..k]);
        assert m[..k][..d] == m[..d];
        assert m[..k][d..] == m[d..][..k - d];
      }
    }
  }

  /** A whole resource moves under a resource endpoint exactly when SelectsResource says so. */
  lemma ResourceMovesIffSelected(r: AbsResource, from: Endpoint, to: Endpoint)
    requires from.WellFormed() && SameStatement(from, to) && from.rel.WholeResource?
    ensures MoveResource(r, from, to).Moved? <==> SelectsResource(from, r)
  {
    SelectsModuleSplit(from, r.path);
  }

  /** An instance moves under a resource endpoint exactly when its resource is selected, or, for
      an instance endpoint, when the endpoint denotes that instance itself. */
  lemma InstanceMovesIffSelected(r: AbsResourceInstance, from: Endpoint, to: Endpoint)
    requires from.WellFormed() && SameStatement(from, to) && !from.rel.IsModuleKind()
    ensures from.rel.WholeResource? ==>
              (MoveInstance(r, from, to).Moved? <==> SelectsResource(from, r.ContainingResource()))
    ensures from.rel.OneInstance? && ConcretePath(r.path) ==>
              (MoveInstance(r, from, to).Moved? <==> Denotes(from, InstanceObject(r)))
  {
    SelectsModuleSplit(from, r.path);
    DenotesIffScan(from, InstanceObject(r));
  }

  // ---------------------------------------------------------------- what a move keeps

  /** A module move rewrites the matched part and keeps everything before and after it. */
  lemma ModuleMoveKeepsContext(m: ModuleInstance, from: Endpoint, to: Endpoint)
    requires SameStatement(from, to) && MoveModule(m, from, to).Moved?
    ensures var r, d, cut, put := MoveModule(m, from, to).to, |from.declared|, |Synth(from)|, |Synth(to)|;
            && d <= cut <= |m| && put <= |r|
            && r[..d] == m[..d]
            && r[put..] == m[cut..]
            && (from.rel.ModuleCall? ==> r[put - 1].key == m[cut - 1].key)
            && |r| - |m| == put - cut
  {
  }

  /** Commuting with instantiation: in every instance of the declaring module the object named by
      `from` moves to the object named by `to`. The root module is the one
      exception. */
  lemma ModuleMoveCommutes(at: ModuleInstance, key: InstanceKey, from: Endpoint, to: Endpoint)
    requires SameStatement(from, to) && from.rel.IsModuleKind() && ModuleOf(at) == from.declared
    ensures match (InModuleInstance(from, at), InModuleInstance(to, at))
            case (ModuleInst(p), ModuleInst(q)) => MoveModule(p, from, to) == if p == [] then NoMatch else Moved(q)
            case (ModuleCall(c, n), ModuleCall(c', n')) =>
              MoveModule(c + [Step(n, key)], from, to) == Moved(c' + [Step(n', key)])
            case _ => false
  {
    var d := |at|;
    match (from.rel, to.rel)
    case (ModuleInst(p), ModuleInst(q)) =>
      var m := at + p;
      assert m[..d] == at && m[d..] == p && p[|p|..] == [];
      assert at + q + [] == at + q;
    case (ModuleCall(c, n), ModuleCall(c', n')) =>
      var m := (at + c) + [Step(n, key)];
      var rel := m[d..];
      assert m[..d] == at && rel == c + [Step(n, key)];
      assert c < rel && rel[|c|] == Step(n, key) && rel[|c| + 1..] == [];
      assert at + (c' + [Step(n', key)]) + [] == (at + c') + [Step(n', key)];
  }

  lemma ResourceMoveCommutes(at: ModuleInstance, from: Endpoint, to: Endpoint)
    requires SameStatement(from, to) && !from.rel.IsModuleKind() && ModuleOf(at) == from.declared
    ensures match (InModuleInstance(from, at), InModuleInstance(to, at))
            case (WholeResource(p), WholeResource(q)) =>
              MoveResource(p, from, to) == Moved(q) &&
              forall key :: MoveInstance(p.Instance(key), from, to) == Moved(q.Instance(key))
            case (OneInstance(p), OneInstance(q)) => MoveInstance(p, from, to) == Moved(q)
            case _ => false
  {
    var d := |at|;
    match (from.rel, to.rel)
    case (WholeResource(p), WholeResource(q)) =>
      assert (at + p.path)[..d] == at && (at + p.path)[d..] == p.path;
    case (OneInstance(p), OneInstance(q)) =>
      assert (at + p.path)[..d] == at && (at + p.path)[d..] == p.path;
  }

  /** Under a module endpoint a resource or an instance moves exactly when its module does, to the place
      its module moves to, and nothing else about it changes; within one statement that is when the
      endpoint selects a prefix of its module path. */
  lemma ContentsMoveWithModule(m: ModuleInstance, r: Resource, i: ResourceInstance, from: Endpoint, to: Endpoint)
    requires from.rel.IsModuleKind()
    ensures var moved := MoveModule(m, from, to);
            && MoveResource(AbsResource(m, r), from, to) ==
                 (if moved.Moved? then Moved(AbsResource(moved.to, r)) else if moved.NoMatch? then NoMatch else Panics)
            && MoveInstance(AbsResourceInstance(m, i), from, to) ==
                 (if moved.Moved? then Moved(AbsResourceInstance(moved.to, i))
                  else if moved.NoMatch? then NoMatch else Panics)
    ensures from.WellFormed() && SameStatement(from, to) ==>
              (MoveInstance(AbsResourceInstance(m, i), from, to).Moved? <==>
                 m != [] && exists k :: 0 <= k <= |m| && SelectsModule(from, m[..k]))
  {
    if from.WellFormed() && SameStatement(from, to) {
      ModuleMovesIffPrefixSelected(m, from, to);
    }
  }

  /** The module `m` and everything in it move to `m'`. */
  ghost predicate MovesWhole(m: ModuleInstance, m': ModuleInstance, from: Endpoint, to: Endpoint) {
    && MoveModule(m, from, to) == Moved(m')
    && (forall r :: MoveResource(AbsResource(m, r), from, to) == Moved(AbsResource(m', r)))
    && (forall i :: MoveInstance(AbsResourceInstance(m, i), from, to) == Moved(AbsResourceInstance(m', i)))
  }

  /** Commuting below the moved module: in every instance of the declaring module each module at or
      below the one named by `from` moves, with all its resources and instances, to the same place
      below the one named by `to`. */
  lemma NestedMoveCommutes(at: ModuleInstance, key: InstanceKey, below: ModuleInstance, from: Endpoint, to: Endpoint)
    requires SameStatement(from, to) && from.rel.IsModuleKind() && ModuleOf(at) == from.declared
    ensures match (InModuleInstance(from, at), InModuleInstance(to, at))
            case (ModuleInst(p), ModuleInst(q)) =>
              p + below != [] ==> MovesWhole(p + below, q + below, from, to)
            case (ModuleCall(c, n), ModuleCall(c', n')) =>
              MovesWhole(c + [Step(n, key)] + below, c' + [Step(n', key)] + below, from, to)
            case _ => false
  {
    var d := |at|;
    match (from.rel, to.rel)
    case (ModuleInst(p), ModuleInst(q)) =>
      var m := at + p + below;
      assert m[..d] == at && m[d..] == p + below && (p + below)[|p|..] == below;
    case (ModuleCall(c, n), ModuleCall(c', n')) =>
      var m := at + c + [Step(n, key)] + below;
      var rel := m[d..];
      assert m[..d] == at && rel == c + [Step(n, key)] + below;
      assert c < rel && rel[|c|] == Step(n, key) && rel[|c| + 1..] == below;
      assert at + (c' + [Step(n', key)]) + below == at + c' + [Step(n', key)] + below;
  }

  // ---------------------------------------------------------------- inverses

  /** Replacing a part that follows the first `d` steps can be undone. */
  lemma SpliceInvertible(m: ModuleInstance, d: nat, cut: ModuleInstance, put: ModuleInstance)
    requires d <= |m| && cut <= m[d..]
    ensures var r := m[..d] + put + m[d..][|cut|..];
            && d <= |r| && r[..d] == m[..d]
            && put <= r[d..]
            && r[..d] + cut + r[d..][|put|..] == m
  {
    var r := m[..d] + put + m[d..][|cut|..];
    assert r[d..] == put + m[d..][|cut|..];
    assert cut + m[d..][|cut|..] == m[d..];
  }

  /** A path that starts with a call's steps and one instance of it, in the terms of the scan. */
  lemma CallPrefix(c: ModuleInstance, s: Step, rel: ModuleInstance)
    ensures c + [s] <= rel <==> c < rel && rel[|c|] == s
    ensures |c + [s]| == |c| + 1
  {
    if c < rel && rel[|c|] == s {
      assert rel[..|c| + 1] == c + [s];
    }
  }

  /** A module moves to the root module exactly when it is the one `from` names and `to` names the
      root module. */
  lemma MovesToRootIff(m: ModuleInstance, from: Endpoint, to: Endpoint)
    requires SameStatement(from, to) && MoveModule(m, from, to).Moved?
    ensures MoveModule(m, from, to).to == [] <==> from.rel.ModuleInst? && NamesRoot(to) && m == from.rel.path
  {
    var d := |from.declared|;
    assert d == 0 ==> m[..d] == [] && m[d..] == m;
    if from.rel.ModuleInst? && from.rel.path <= m {
      assert m == from.rel.path + m[|from.rel.path|..];
    }
  }

  /** Swapping the endpoints undoes a module move, unless the move produced the root module,
      which never moves. */
  lemma ModuleMoveInvertible(m: ModuleInstance, from: Endpoint, to: Endpoint)
    requires SameStatement(from, to) && MoveModule(m, from, to).Moved?
    ensures var r := MoveModule(m, from, to).to;
            MoveModule(r, to, from) == if r == [] then NoMatch else Moved(m)
  {
    var d, r := |from.declared|, MoveModule(m, from, to).to;
    var rel := m[d..];
    match (from.rel, to.rel)
    case (ModuleInst(p), ModuleInst(q)) =>
      SpliceInvertible(m, d, p, q);
    case (ModuleCall(c, n), ModuleCall(c', n')) =>
      var s, s' := Step(n, rel[|c|].key), Step(n', rel[|c|].key);
      CallPrefix(c, s, rel);
      SpliceInvertible(m, d, c + [s], c' + [s']);
      CallPrefix(c', s', r[d..]);
  }

  /** Parsed module endpoints have at least one step, so their moves always invert. */
  lemma ParsedModuleMoveInvertible(m: ModuleInstance, from: Endpoint, to: Endpoint)
    requires SameStatement(from, to) && MoveModule(m, from, to).Moved?
    requires to.rel.ModuleInst? ==> to.rel.path != []
    ensures MoveModule(MoveModule(m, from, to).to, to, from) == Moved(m)
  {
    ModuleMoveInvertible(m, from, to);
    ModuleMoveKeepsContext(m, from, to);
  }

  /** Resources inside a module that becomes the root module are the only ones that cannot
      move back. */
  lemma ResourceMoveInvertible(r: AbsResource, from: Endpoint, to: Endpoint)
    requires SameStatement(from, to) && MoveResource(r, from, to).Moved?
    ensures var moved := MoveResource(r, from, to).to;
            MoveResource(moved, to, from) == if from.rel.IsModuleKind() && moved.path == [] then NoMatch else Moved(r)
  {
    if from.rel.IsModuleKind() {
      ModuleMoveInvertible(r.path, from, to);
    } else {
      var d, moved := |from.declared|, MoveResource(r, from, to).to;
      assert moved.path[..d] == r.path[..d];
      assert moved.path[d..] == to.rel.resource.path;
      assert r.path[..d] + r.path[d..] == r.path;
    }
  }

  lemma InstanceMoveInvertible(r: AbsResourceInstance, from: Endpoint, to: Endpoint)
    requires SameStatement(from, to) && MoveInstance(r, from, to).Moved?
    ensures var moved := MoveInstance(r, from, to).to;
            MoveInstance(moved, to, from) == if from.rel.IsModuleKind() && moved.path == [] then NoMatch else Moved(r)
  {
    if from.rel.OneInstance? {
      var d, moved := |from.declared|, MoveInstance(r, from, to).to;
      assert moved.path[..d] == r.path[..d];
      assert moved.path[d..] == to.rel.instance.path;
      assert r.path[..d] + r.path[d..] == r.path;
    } else {
      ResourceMoveInvertible(r.ContainingResource(), from, to);
    }
  }

  /** A move never merges two modules, the root result included. */
  lemma ModuleMoveInjective(m: ModuleInstance, n: ModuleInstance, from: Endpoint, to: Endpoint)
    requires SameStatement(from, to)
    requires MoveModule(m, from, to).Moved? && MoveModule(m, from, to) == MoveModule(n, from, to)
    ensures m == n
  {
    ModuleMoveInvertible(m, from, to);
    ModuleMoveInvertible(n, from, to);
    var r := MoveModule(m, from, to).to;
    if r == [] {
      ModuleMoveKeepsContext(m, from, to);
      ModuleMoveKeepsContext(n, from, to);
      assert m[|from.declared|..] == m && n[|from.declared|..] == n;
    }
  }

  /** A move never merges two resources. */
  lemma ResourceMoveInjective(r: AbsResource, s: AbsResource, from: Endpoint, to: Endpoint)
    requires SameStatement(from, to)
    requires MoveResource(r, from, to).Moved? && MoveResource(r, from, to) == MoveResource(s, from, to)
    ensures r == s
  {
    if from.rel.IsModuleKind() {
      ModuleMoveInjective(r.path, s.path, from, to);
    } else {
      ResourceMoveInvertible(r, from, to);
      ResourceMoveInvertible(s, from, to);
    }
  }

  /** A move never merges two resource instances. */
  lemma InstanceMoveInjective(r: AbsResourceInstance, s: AbsResourceInstance, from: Endpoint, to: Endpoint)
    requires SameStatement(from, to)
    requires MoveInstance(r, from, to).Moved? && MoveInstance(r, from, to) == MoveInstance(s, from, to)
    ensures r == s
  {
    if from.rel.IsModuleKind() {
      ModuleMoveInjective(r.path, s.path, from, to);
    } else {
      InstanceMoveInvertible(r, from, to);
      InstanceMoveInvertible(s, from, to);
    }
  }

  /** A module that moves to the root module and cannot move back. */
  lemma MoveToRootIsOneWay()
    ensures var from, to := Endpoint([], ModuleInst([Step("a", NoKey)])), Endpoint([], ModuleInst([]));
            MoveModule([Step("a", NoKey)], from, to) == Moved([]) && MoveModule([], to, from) == NoMatch
  {
    var m := [Step("a", NoKey)];
    assert ModuleOf(m[..0]) == [] && m[0..] == m;
    assert m[..0] + [] + m[0..][1..] == [];
  }

  // ---------------------------------------------------------------- chains of statements

  /** Where an object moves. */
  function MoveObject(o: Object, from: Endpoint, to: Endpoint): Outcome<Object> {
    match o
    case ModuleObject(p) =>
      (match MoveModule(p, from, to)
       case Moved(q) => Moved(ModuleObject(q))
       case NoMatch => NoMatch
       case Panics => Panics)
    case ResourceObject(r) =>
      (match MoveResource(r, from, to)
       case Moved(s) => Moved(ResourceObject(s))
       case NoMatch => NoMatch
       case Panics => Panics)
    case InstanceObject(r) =>
      (match MoveInstance(r, from, to)
       case Moved(s) => Moved(InstanceObject(s))
       case NoMatch => NoMatch
       case Panics => Panics)
  }

  /** The endpoint names the root module, which never moves. */
  predicate NamesRoot(e: Endpoint) {
    e.rel.ModuleInst? && Synth(e) == []
  }

  lemma PlacedCall(at: ModuleInstance, c: ModuleInstance, n: string, p: ModuleInstance)
    requires Stands(ModuleCall(at + c, n), ModuleObject(p))
    ensures p == (at + c) + [Step(n, p[|at + c|].key)] && p[|at + c|].key != AnyKey
  {
    assert p == p[..|at + c|] + [p[|at + c|]];
  }

  lemma CallObjectStands(at: ModuleInstance, c: ModuleInstance, n: string, key: InstanceKey)
    requires key != AnyKey
    ensures Stands(ModuleCall(at + c, n), ModuleObject((at + c) + [Step(n, key)]))
  {
  }

  /** What `from` denotes in one instance of the declaring module moves to what `to` denotes there,
      and everything `to` denotes there is moved from something; only the root module
      stays. */
  lemma LandsAt(from: Endpoint, to: Endpoint, at: ModuleInstance, o: Object)
    requires SameStatement(from, to) && DenotesAt(from, at, o) && !NamesRoot(from)
    ensures var r := MoveObject(o, from, to); r.Moved? && DenotesAt(to, at, r.to)
  {
    if from.rel.IsModuleKind() {
      if from.rel.ModuleCall? {
        var c, n, c', n' := from.rel.caller, from.rel.call, to.rel.caller, to.rel.call;
        PlacedCall(at, c, n, o.path);
        var key := o.path[|at + c|].key;
        ModuleMoveCommutes(at, key, from, to);
        CallObjectStands(at, c', n', key);
      } else {
        ModuleMoveCommutes(at, NoKey, from, to);
        assert |Synth(from)| == |at + from.rel.path|;
      }
    } else {
      ResourceMoveCommutes(at, from, to);
    }
  }

  lemma ComesFromAt(from: Endpoint, to: Endpoint, at: ModuleInstance, o': Object) returns (o: Object)
    requires SameStatement(from, to) && DenotesAt(to, at, o') && !NamesRoot(from)
    ensures DenotesAt(from, at, o) && MoveObject(o, from, to) == Moved(o')
  {
    match from.rel {
      case ModuleInst(p) =>
        o := ModuleObject(at + p);
        assert |Synth(from)| == |at + p|;
        ModuleMoveCommutes(at, NoKey, from, to);
      case ModuleCall(c, n) =>
        PlacedCall(at, to.rel.caller, to.rel.call, o'.path);
        var key := o'.path[|at + to.rel.caller|].key;
        CallObjectStands(at, c, n, key);
        o := ModuleObject((at + c) + [Step(n, key)]);
        ModuleMoveCommutes(at, key, from, to);
      case WholeResource(r) =>
        o := ResourceObject(AbsResource(at + r.path, r.resource));
        ResourceMoveCommutes(at, from, to);
      case OneInstance(i) =>
        o := InstanceObject(AbsResourceInstance(at + i.path, i.instance));
        ResourceMoveCommutes(at, from, to);
    }
  }

  /** Something the first statement moves lands on an object the second one selects. */
  ghost predicate Composes(from: Endpoint, to: Endpoint, next: Endpoint) {
    exists o :: Denotes(from, o) && MoveObject(o, from, to).Moved? && Denotes(next, MoveObject(o, from, to).to)
  }

  /** Chaining is composition of statements: the `to` of one chains to the `from` of another exactly
      when some object named by the first one's `from` moves to an object that the second
      selects. Only a statement that moves the root module itself never composes. */
  lemma ChainsIffComposes(from: Endpoint, to: Endpoint, next: Endpoint)
    requires from.WellFormed() && to.WellFormed() && next.WellFormed() && SameStatement(from, to)
    ensures Composes(from, to, next) <==> CanChainFrom(to, next) && !NamesRoot(from)
  {
    CanChainFromExact(to, next);
    if Composes(from, to, next) {
      var o :| Denotes(from, o) && MoveObject(o, from, to).Moved? && Denotes(next, MoveObject(o, from, to).to);
      var at :| DenotesAt(from, at, o);
      assert NamesRoot(from) ==> o == ModuleObject([]);
      LandsAt(from, to, at, o);
      assert Denotes(to, MoveObject(o, from, to).to);
    }
    if CanChainFrom(to, next) && !NamesRoot(from) {
      var o' :| Denotes(to, o') && Denotes(next, o');
      var at :| DenotesAt(to, at, o');
      var o := ComesFromAt(from, to, at, o');
      assert Denotes(from, o);
    }
  }

  // ---------------------------------------------------------------- re-indexing

  /** IsModuleReIndex; the source panics when the declaring modules differ. */
  predicate IsModuleReIndex(from: Endpoint, to: Endpoint)
    requires from.declared == to.declared
  {
    match (from.rel, to.rel)
    case (ModuleCall(c, n), ModuleInst(t)) => ModuleOf(t) == ModuleOf(c + [Step(n, NoKey)])
    case (ModuleInst(f), ModuleCall(c, n)) => ModuleOf(f) == ModuleOf(c + [Step(n, NoKey)])
    case (ModuleInst(f), ModuleInst(t)) => ModuleOf(t) == ModuleOf(f)
    case _ => false
  }

  lemma ModuleOfConcat(a: ModuleInstance, b: ModuleInstance)
    ensures ModuleOf(a + b) == ModuleOf(a) + ModuleOf(b)
  {
  }

  /** All modules that two endpoints select have the same static path. */
  ghost predicate SameStaticPath(from: Endpoint, to: Endpoint) {
    forall m, n :: SelectsModule(from, m) && SelectsModule(to, n) ==> ModuleOf(m) == ModuleOf(n)
  }

  /** The path of an endpoint has the names of everything it selects. */
  lemma SelectedNames(e: Endpoint, m: ModuleInstance)
    requires SelectsModule(e, m)
    ensures ModuleOf(m) == ModuleOf(Synth(e))
  {
    assert forall i :: 0 <= i < |m| ==> StepSelects(Synth(e)[i], m[i]);
  }

  lemma SynthSelected(e: Endpoint)
    ensures SelectsModule(e, Synth(e))
  {
  }

  /** Re-indexing holds exactly when two endpoints for modules, at least one of them for instances,
      select modules of one static path only; for two calls it never does. */
  lemma ReIndexIff(from: Endpoint, to: Endpoint)
    requires from.declared == to.declared
    ensures IsModuleReIndex(from, to) <==>
            && from.rel.IsModuleKind() && to.rel.IsModuleKind() && !(from.rel.ModuleCall? && to.rel.ModuleCall?)
            && SameStaticPath(from, to)
  {
    SynthSelected(from);
    SynthSelected(to);
    forall m, n | SelectsModule(from, m) && SelectsModule(to, n)
      ensures ModuleOf(m) == ModuleOf(n) <==> ModuleOf(Synth(from)) == ModuleOf(Synth(to))
    {
      SelectedNames(from, m);
      SelectedNames(to, n);
    }
    if from.rel.IsModuleKind() && to.rel.IsModuleKind() {
      SynthNames(from);
      SynthNames(to);
      SameTail(ModuleOf(WildSteps(from.declared)), SubjectNames(from.rel), SubjectNames(to.rel));
    }
  }

  /** The static path a relative module subject adds to the declaring module. */
  function SubjectNames(s: Subject): Module {
    match s
    case ModuleInst(p) => ModuleOf(p)
    case ModuleCall(c, n) => ModuleOf(c + [Step(n, NoKey)])
    case _ => []
  }

  lemma SynthNames(e: Endpoint)
    requires e.rel.IsModuleKind()
    ensures ModuleOf(Synth(e)) == ModuleOf(WildSteps(e.declared)) + SubjectNames(e.rel)
  {
    if e.rel.ModuleCall? {
      assert ModuleOf(e.rel.caller + [Step(e.rel.call, AnyKey)]) == ModuleOf(e.rel.caller + [Step(e.rel.call, NoKey)]);
      ModuleOfConcat(WildSteps(e.declared), e.rel.caller + [Step(e.rel.call, AnyKey)]);
    } else {
      ModuleOfConcat(WildSteps(e.declared), e.rel.path);
    }
  }

  lemma SameTail(a: Module, b: Module, c: Module)
    ensures a + b == a + c <==> b == c
  {
    if a + b == a + c {
      assert b == (a + b)[|a|..] == (a + c)[|a|..] == c;
    }
  }

  /** Within one statement, re-indexing is exactly keeping every moved object's static module
      path, for instance endpoints; moves of whole calls are never reported as
      re-indexing. */
  lemma ReIndexKeepsStaticPath(m: ModuleInstance, from: Endpoint, to: Endpoint)
    requires SameStatement(from, to) && MoveModule(m, from, to).Moved?
    ensures from.rel.ModuleInst? ==>
              (IsModuleReIndex(from, to) <==> ModuleOf(MoveModule(m, from, to).to) == ModuleOf(m))
    ensures from.rel.ModuleCall? ==> !IsModuleReIndex(from, to)
  {
    var d, r := |from.declared|, MoveModule(m, from, to).to;
    match (from.rel, to.rel)
    case (ModuleInst(p), ModuleInst(q)) =>
      var rest := m[d..][|p|..];
      assert m == m[..d] + p + rest;
      ModuleOfConcat(m[..d] + p, rest);
      ModuleOfConcat(m[..d], p);
      ModuleOfConcat(m[..d] + q, rest);
      ModuleOfConcat(m[..d], q);
      var pre, post := ModuleOf(m[..d]), ModuleOf(rest);
      assert ModuleOf(m) == pre + ModuleOf(p) + post && ModuleOf(r) == pre + ModuleOf(q) + post;
      if ModuleOf(r) == ModuleOf(m) {
        assert |p| == |q|;
        assert ModuleOf(p) == ModuleOf(m)[d..d + |p|];
        assert ModuleOf(q) == ModuleOf(r)[d..d + |q|];
      }
    case (ModuleCall(_, _), ModuleCall(_, _)) =>
  }
}
