/** Target containment (the TargetContains methods), against the instances a target covers. */
module Targets {
  import opened Addresses
  import opened AddressText

  function ConfigOf(r: AbsResource): ConfigResource {
    ConfigResource(ModuleOf(r.path), r.resource)
  }

  /** A static path as an instance path without keys. */
  function Unkeyed(m: Module): (r: ModuleInstance)
    ensures ModuleOf(r) == m
  {
    seq(|m|, i requires 0 <= i < |m| => Step(m[i], NoKey))
  }

  /** Static addresses print like unkeyed ones. */
  function ConfigText(lex: Lexicon, c: ConfigResource): string {
    AbsResourceText(lex, AbsResource(Unkeyed(c.path), c.resource))
  }

  predicate StepContains(ours: Step, theirs: Step, last: bool) {
    ours.name == theirs.name && ((last && ours.key == NoKey) || ours.key == theirs.key)
  }

  predicate PathContains(m: ModuleInstance, to: ModuleInstance) {
    |m| <= |to| && forall i :: 0 <= i < |m| ==> StepContains(m[i], to[i], i == |m| - 1)
  }

  method PathContainsScan(m: ModuleInstance, to: ModuleInstance) returns (r: bool)
    ensures r == PathContains(m, to)
  {
    if |to| < |m| {
      return false;
    }
    for i := 0 to |m|
      invariant forall j :: 0 <= j < i ==> StepContains(m[j], to[j], j == |m| - 1)
    {
      if m[i].name != to[i].name {
        assert !StepContains(m[i], to[i], i == |m| - 1);
        return false;
      }
      if i == |m| - 1 && m[i].key == NoKey {
        return true;
      }
      if m[i].key != to[i].key {
        assert !StepContains(m[i], to[i], i == |m| - 1);
        return false;
      }
    }
    return true;
  }

  predicate PathContainsStatic(m: ModuleInstance, to: Module) {
    |m| <= |to| && forall i :: 0 <= i < |m| ==> m[i].key == NoKey && m[i].name == to[i]
  }

  predicate TargetContains(lex: Lexicon, a: Targetable, b: Targetable) {
    match a
    case StaticModule(m) => (
      match b
      case StaticModule(to) => m <= to
      case ModuleTarget(to) => m <= ModuleOf(to)
      case ConfigTarget(to) => m <= to.path
      case ResourceTarget(to) => m <= ModuleOf(to.path)
      case InstanceTarget(to) => m <= ModuleOf(to.path))
    case ModuleTarget(m) => (
      match b
      case StaticModule(to) => PathContainsStatic(m, to)
      case ModuleTarget(to) => PathContains(m, to)
      case ConfigTarget(to) => PathContainsStatic(m, to.path)
      case ResourceTarget(to) => PathContains(m, to.path)
      case InstanceTarget(to) => PathContains(m, to.path))
    case ConfigTarget(c) => (
      match b
      case ConfigTarget(to) => ConfigText(lex, to) == ConfigText(lex, c)
      case ResourceTarget(to) => ConfigText(lex, ConfigOf(to)) == ConfigText(lex, c)
      case InstanceTarget(to) => ConfigText(lex, ConfigOf(to.ContainingResource())) == ConfigText(lex, c)
      case _ => false)
    case ResourceTarget(r) => (
      match b
      case ResourceTarget(to) => AbsResourceText(lex, to) == AbsResourceText(lex, r)
      case ConfigTarget(to) => ConfigText(lex, to) == AbsResourceText(lex, r)
      case InstanceTarget(to) => AbsResourceText(lex, to.ContainingResource()) == AbsResourceText(lex, r)
      case _ => false)
    case InstanceTarget(r) => (
      match b
      case InstanceTarget(to) => InstanceText(lex, to) == InstanceText(lex, r)
      case ConfigTarget(to) => ConfigText(lex, to) == InstanceText(lex, r)
      case ResourceTarget(to) => AbsResourceText(lex, to) == InstanceText(lex, r)
      case _ => false)
  }

  // ---------------------------------------------------------------- parser subjects

  /** What ParseTarget can produce: module instances, whole resources and keyed instances, with
      identifiers for names. */
  predicate ParserSubject(lex: Lexicon, t: Targetable) {
    MadeOfParsed(lex, true, t)
  }

  /** Parsing a target yields one of the three subject kinds. */
  lemma ParseTargetSubjects(lex: Lexicon, t: Traversal, allowRanges: bool)
    requires AllLexical(lex, true, t) && ParseTarget(t, allowRanges).Some?
    ensures ParserSubject(lex, ParseTarget(t, allowRanges).value)
  {
    ParsedKeysOf(lex, true, t, allowRanges);
  }

  /** Whatever text a target is written as, its subject is a parser subject. */
  lemma ParsedTextIsSubject(lex: Lexicon, text: string, allowRanges: bool)
    requires LexAddress(lex, text).Some? && ParseTarget(LexAddress(lex, text).value, allowRanges).Some?
    ensures ParserSubject(lex, ParseTarget(LexAddress(lex, text).value, allowRanges).value)
  {
    var steps := LexSteps(lex, false, "." + text).value;
    LexedIsLexical(lex, false, "." + text);
    assert AllLexical(lex, true, steps);
    RootedIsLexical(lex, true, steps);
    ParseTargetSubjects(lex, LexAddress(lex, text).value, allowRanges);
  }

  // ---------------------------------------------------------------- what a target covers

  /** The resource instances a target stands for. A module address whose last step has no key
      stands for every instance of that call. */
  predicate Covers(t: Targetable, i: AbsResourceInstance) {
    match t
    case ModuleTarget(m) =>
      |m| <= |i.path| &&
      (i.path[..|m|] == m ||
       (m != [] && m[|m| - 1].key == NoKey &&
        i.path[..|m| - 1] == m[..|m| - 1] && i.path[|m| - 1].name == m[|m| - 1].name))
    case ResourceTarget(r) => i.ContainingResource() == r
    case InstanceTarget(x) => i == x
    case _ => false
  }

  ghost predicate CoversAll(a: Targetable, b: Targetable) {
    forall i :: Covers(b, i) ==> Covers(a, i)
  }

  lemma PathContainsIsCover(m: ModuleInstance, i: AbsResourceInstance)
    ensures PathContains(m, i.path) <==> Covers(ModuleTarget(m), i)
  {
    var last := |m| - 1;
    if PathContains(m, i.path) && m != [] {
      forall j | 0 <= j < last ensures i.path[j] == m[j] {
        assert StepContains(m[j], i.path[j], false);
      }
      assert StepContains(m[last], i.path[last], true);
      assert i.path[..last] == m[..last];
      if m[last].key != NoKey {
        assert i.path[..|m|] == m;
      }
    }
    if Covers(ModuleTarget(m), i) {
      forall j | 0 <= j < |m| ensures StepContains(m[j], i.path[j], j == last) {
        if i.path[..|m|] == m {
          assert i.path[..|m|][j] == m[j];
        } else if j < last {
          assert i.path[..last][j] == m[..last][j];
        }
      }
    }
  }

  lemma PathContainsTransitive(a: ModuleInstance, b: ModuleInstance, c: ModuleInstance)
    requires PathContains(a, b) && PathContains(b, c)
    ensures PathContains(a, c)
  {
    forall i | 0 <= i < |a| ensures StepContains(a[i], c[i], i == |a| - 1) {
      assert StepContains(a[i], b[i], i == |a| - 1);
      assert StepContains(b[i], c[i], i == |b| - 1);
    }
  }

  /** A resource instance in `path` other than those of `r`. */
  function Elsewhere(path: ModuleInstance, r: Resource): (i: AbsResourceInstance)
    ensures i.path == path && i.instance.resource != r
  {
    AbsResource(path, r.(name := r.name + "_")).Instance(NoKey)
  }

  /** Containment in a module target, for a module, a resource or an instance. */
  lemma ModuleContainsIffCovers(lex: Lexicon, m: ModuleInstance, b: Targetable)
    requires lex.Valid() && ParserSubject(lex, b)
    ensures TargetContains(lex, ModuleTarget(m), b) <==> CoversAll(ModuleTarget(m), b)
  {
    var a := ModuleTarget(m);
    var inside := match b
      case ModuleTarget(to) => AbsResource(to, Resource(Managed, "t", "n")).Instance(NoKey)
      case ResourceTarget(to) => to.Instance(NoKey)
      case InstanceTarget(to) => to
      case _ => AbsResource([], Resource(Managed, "t", "n")).Instance(NoKey);
    PathContainsIsCover(m, inside);
    if b.ModuleTarget? {
      assert inside.path[..|b.path|] == b.path;
    }
    assert Covers(b, inside);
    if TargetContains(lex, a, b) {
      forall i | Covers(b, i) ensures Covers(a, i) {
        PathContainsIsCover(m, i);
        if b.ModuleTarget? {
          PathContainsIsCover(b.path, i);
          PathContainsTransitive(m, b.path, i.path);
        }
      }
    }
  }

  lemma ResourceContainsIffCovers(lex: Lexicon, r: AbsResource, b: Targetable)
    requires lex.Valid() && ParserSubject(lex, ResourceTarget(r)) && ParserSubject(lex, b)
    ensures TargetContains(lex, ResourceTarget(r), b) <==> CoversAll(ResourceTarget(r), b)
  {
    var a := ResourceTarget(r);
    match b {
      case ModuleTarget(to) =>
        var i := Elsewhere(to, r.resource);
        assert i.path[..|to|] == to;
        assert Covers(b, i) && !Covers(a, i);
      case ResourceTarget(to) =>
        AbsResourceTextInjective(lex, to, r);
        assert Covers(b, to.Instance(NoKey));
      case InstanceTarget(to) =>
        AbsResourceTextInjective(lex, to.ContainingResource(), r);
        assert Covers(b, to);
      case _ =>
    }
  }

  lemma InstanceContainsIffCovers(lex: Lexicon, x: AbsResourceInstance, b: Targetable)
    requires lex.Valid() && ParserSubject(lex, InstanceTarget(x)) && ParserSubject(lex, b)
    ensures TargetContains(lex, InstanceTarget(x), b) <==> CoversAll(InstanceTarget(x), b)
  {
    var a := InstanceTarget(x);
    match b {
      case ModuleTarget(to) =>
        var i := Elsewhere(to, x.instance.resource);
        assert i.path[..|to|] == to;
        assert Covers(b, i) && !Covers(a, i);
      case ResourceTarget(to) =>
        ResourceTextIsUnkeyed(lex, to);
        InstanceTextInjective(lex, to.Instance(NoKey), x);
        assert Covers(b, to.Instance(NoKey)) && !Covers(a, to.Instance(NoKey));
      case InstanceTarget(to) =>
        InstanceTextInjective(lex, to, x);
        assert Covers(b, to);
      case _ =>
    }
  }

  /** On parser subjects containment, strings compared and all, is exactly covering every
      instance the other target covers. */
  lemma ContainsIffCovers(lex: Lexicon, a: Targetable, b: Targetable)
    requires lex.Valid() && ParserSubject(lex, a) && ParserSubject(lex, b)
    ensures TargetContains(lex, a, b) <==> CoversAll(a, b)
  {
    match a
    case ModuleTarget(m) => ModuleContainsIffCovers(lex, m, b);
    case ResourceTarget(r) => ResourceContainsIffCovers(lex, r, b);
    case InstanceTarget(x) => InstanceContainsIffCovers(lex, x, b);
    case _ =>
  }

  /** Containment is a preorder on parser subjects, across subject kinds. */
  lemma TargetContainsPreorder(lex: Lexicon, a: Targetable, b: Targetable, c: Targetable)
    requires lex.Valid() && ParserSubject(lex, a) && ParserSubject(lex, b) && ParserSubject(lex, c)
    ensures TargetContains(lex, a, a)
    ensures TargetContains(lex, a, b) && TargetContains(lex, b, c) ==> TargetContains(lex, a, c)
  {
    ContainsIffCovers(lex, a, a);
    ContainsIffCovers(lex, a, b);
    ContainsIffCovers(lex, b, c);
    ContainsIffCovers(lex, a, c);
  }

  // ---------------------------------------------------------------- static and unkeyed targets

  predicate IsModule(t: Targetable) {
    t.StaticModule? || t.ModuleTarget?
  }

  /** A resource target as an instance; what it does not say about keys is left unkeyed. */
  function AsInstance(t: Targetable): AbsResourceInstance
    requires !IsModule(t)
  {
    match t
    case ConfigTarget(c) => AbsResource(Unkeyed(c.path), c.resource).Instance(NoKey)
    case ResourceTarget(r) => r.Instance(NoKey)
    case InstanceTarget(i) => i
  }

  /** The module path of a target. */
  function PathOf(t: Targetable): ModuleInstance {
    match t
    case StaticModule(m) => Unkeyed(m)
    case ModuleTarget(m) => m
    case _ => AsInstance(t).path
  }

  predicate NamedByIdentifiers(lex: Lexicon, t: Targetable) {
    !IsModule(t) ==> HasIdentifiers(lex, AsInstance(t))
  }

  function WithoutKeys(i: AbsResourceInstance): AbsResourceInstance {
    AbsResource(Unkeyed(ModuleOf(i.path)), i.instance.resource).Instance(NoKey)
  }

  function WithoutInstance(i: AbsResourceInstance): AbsResourceInstance {
    i.ContainingResource().Instance(NoKey)
  }

  /** Containment with the text taken out: each kind of target ignores the keys it does not have. */
  predicate Reaches(a: Targetable, b: Targetable) {
    match a
    case StaticModule(m) => m <= ModuleOf(PathOf(b))
    case ModuleTarget(m) => PathContains(m, PathOf(b))
    case ConfigTarget(_) => !IsModule(b) && WithoutKeys(AsInstance(b)) == WithoutKeys(AsInstance(a))
    case ResourceTarget(r) => !IsModule(b) && Erase(WithoutInstance(AsInstance(b))) == Erase(r.Instance(NoKey))
    case InstanceTarget(i) => !IsModule(b) && Erase(AsInstance(b)) == Erase(i)
  }

  lemma StaticPathContains(m: ModuleInstance, to: Module)
    ensures PathContainsStatic(m, to) <==> PathContains(m, Unkeyed(to))
  {
    if PathContains(m, Unkeyed(to)) {
      forall i | 0 <= i < |m| ensures m[i].key == NoKey && m[i].name == to[i] {
        assert StepContains(m[i], Unkeyed(to)[i], i == |m| - 1);
      }
    }
  }

  lemma ModuleReaches(lex: Lexicon, a: Targetable, b: Targetable)
    requires IsModule(a)
    ensures TargetContains(lex, a, b) <==> Reaches(a, b)
  {
    if a.ModuleTarget? && b.StaticModule? {
      StaticPathContains(a.path, b.m);
    } else if a.ModuleTarget? && b.ConfigTarget? {
      StaticPathContains(a.path, b.config.path);
    }
  }

  lemma UnkeyedErase(m: Module)
    ensures ErasePath(Unkeyed(m)) == Unkeyed(m)
  {
  }

  /** The text of a resource target that a containing target compares with its own. */
  lemma ConfigReaches(lex: Lexicon, a: Targetable, b: Targetable)
    requires lex.Valid() && NamedByIdentifiers(lex, a) && NamedByIdentifiers(lex, b) && a.ConfigTarget?
    ensures TargetContains(lex, a, b) <==> Reaches(a, b)
  {
    if !IsModule(b) {
      var i := AsInstance(b);
      var c := AbsResource(Unkeyed(a.config.path), a.config.resource);
      var d := AbsResource(Unkeyed(ModuleOf(i.path)), i.instance.resource);
      UnkeyedErase(a.config.path);
      UnkeyedErase(ModuleOf(i.path));
      AbsResourceTextInjective(lex, d, c);
    }
  }

  lemma ResourceReaches(lex: Lexicon, a: Targetable, b: Targetable)
    requires lex.Valid() && NamedByIdentifiers(lex, a) && NamedByIdentifiers(lex, b) && a.ResourceTarget?
    ensures TargetContains(lex, a, b) <==> Reaches(a, b)
  {
    if !IsModule(b) {
      AbsResourceTextInjective(lex, AsInstance(b).ContainingResource(), a.resource);
    }
  }

  lemma InstanceReaches(lex: Lexicon, a: Targetable, b: Targetable)
    requires lex.Valid() && NamedByIdentifiers(lex, a) && NamedByIdentifiers(lex, b) && a.InstanceTarget?
    ensures TargetContains(lex, a, b) <==> Reaches(a, b)
  {
    if !IsModule(b) {
      var i := AsInstance(b);
      ResourceTextIsUnkeyed(lex, i.ContainingResource());
      InstanceTextInjective(lex, i, a.instance);
    }
  }

  /** Containment of any two targets, string comparisons resolved. */
  lemma ContainsIffReaches(lex: Lexicon, a: Targetable, b: Targetable)
    requires lex.Valid() && NamedByIdentifiers(lex, a) && NamedByIdentifiers(lex, b)
    ensures TargetContains(lex, a, b) <==> Reaches(a, b)
  {
    match a
    case ConfigTarget(_) => ConfigReaches(lex, a, b);
    case ResourceTarget(_) => ResourceReaches(lex, a, b);
    case InstanceTarget(_) => InstanceReaches(lex, a, b);
    case _ => ModuleReaches(lex, a, b);
  }

  lemma ErasedNames(m: ModuleInstance, o: ModuleInstance)
    ensures ModuleOf(ErasePath(m)) == ModuleOf(m)
    ensures ErasePath(m) == ErasePath(o) ==> ModuleOf(m) == ModuleOf(o)
  {
    assert ModuleOf(ErasePath(m)) == ModuleOf(m) && ModuleOf(ErasePath(o)) == ModuleOf(o);
  }

  /** Whatever contains a target has a prefix of its module names. */
  lemma ReachesNames(a: Targetable, b: Targetable)
    requires Reaches(a, b)
    ensures ModuleOf(PathOf(a)) <= ModuleOf(PathOf(b))
    ensures !IsModule(a) ==> ModuleOf(PathOf(a)) == ModuleOf(PathOf(b))
  {
    match a
    case ModuleTarget(m) =>
      forall i | 0 <= i < |m| ensures ModuleOf(m)[i] == ModuleOf(PathOf(b))[i] {
        assert StepContains(m[i], PathOf(b)[i], i == |m| - 1);
      }
    case StaticModule(_) =>
    case ConfigTarget(c) => assert Unkeyed(ModuleOf(PathOf(b))) == Unkeyed(ModuleOf(PathOf(a)));
    case ResourceTarget(r) => ErasedNames(PathOf(b), r.path);
    case InstanceTarget(i) => ErasedNames(PathOf(b), i.path);
  }

  /** A step whose key a path insists on: every step but an unkeyed last one. */
  predicate ExactStep(m: ModuleInstance, i: nat) {
    i < |m| && (i < |m| - 1 || m[i].key != NoKey)
  }

  predicate KeysDiffer(a: ModuleInstance, b: ModuleInstance, c: ModuleInstance) {
    exists i :: 0 <= i < |a| && i < |b| && i < |c| && ExactStep(a, i) && b[i].key != c[i].key
  }

  /** Along names that agree, a path contains what another one does unless their keys differ at a step
      it insists on. */
  lemma PathContainsAlong(a: ModuleInstance, b: ModuleInstance, c: ModuleInstance)
    requires PathContains(a, b) && ModuleOf(b) <= ModuleOf(c)
    ensures PathContains(a, c) <==> !KeysDiffer(a, b, c)
  {
    assert forall i :: 0 <= i < |a| ==> StepContains(a[i], b[i], i == |a| - 1);
    assert forall i :: 0 <= i < |b| ==> ModuleOf(b)[i] == ModuleOf(c)[i];
    if PathContains(a, c) {
      assert forall i :: 0 <= i < |a| ==> StepContains(a[i], c[i], i == |a| - 1);
    } else {
      var i :| 0 <= i < |a| && !StepContains(a[i], c[i], i == |a| - 1);
      assert ExactStep(a, i) && b[i].key != c[i].key;
    }
  }

  predicate HasKey(m: ModuleInstance) {
    exists i :: 0 <= i < |m| && m[i].key != NoKey
  }

  predicate HasKeyBefore(m: ModuleInstance, n: int) {
    exists i :: 0 <= i < |m| && i < n && m[i].key != NoKey
  }

  /** How a chain of containments can break: in the middle stands a target that ignores keys, and the
      outer one insists on a step or key being unkeyed that the inner one has. The last
      case needs placeholder keys of different kinds, which print alike. */
  predicate Breaks(a: Targetable, b: Targetable, c: Targetable) {
    || (a.ModuleTarget? && (b.StaticModule? || b.ConfigTarget?) && HasKeyBefore(PathOf(c), |a.path| - 1))
    || (a.ResourceTarget? && b.ConfigTarget? && HasKey(PathOf(c)))
    || (a.InstanceTarget? && b.ConfigTarget? &&
        (HasKey(PathOf(c)) || (c.InstanceTarget? && c.instance.instance.key != NoKey)))
    || (a.InstanceTarget? && b.ResourceTarget? && c.InstanceTarget? && c.instance.instance.key != NoKey)
    || (a.ModuleTarget? && (b.ResourceTarget? || b.InstanceTarget?) && KeysDiffer(a.path, PathOf(b), PathOf(c)))
  }

  /** A path inside a static one has no keys but possibly on its last step. */
  lemma UnkeyedKeysDiffer(a: ModuleInstance, m: Module, c: ModuleInstance)
    requires PathContains(a, Unkeyed(m)) && m <= ModuleOf(c)
    ensures KeysDiffer(a, Unkeyed(m), c) <==> HasKeyBefore(c, |a| - 1)
  {
    assert forall i :: 0 <= i < |a| ==> StepContains(a[i], Unkeyed(m)[i], i == |a| - 1);
    if HasKeyBefore(c, |a| - 1) {
      var i :| 0 <= i < |c| && i < |a| - 1 && c[i].key != NoKey;
      assert ExactStep(a, i) && Unkeyed(m)[i].key != c[i].key;
    }
  }

  lemma ModuleChain(a: Targetable, b: Targetable, c: Targetable)
    requires a.ModuleTarget? && Reaches(a, b) && Reaches(b, c)
    ensures Reaches(a, c) <==> !Breaks(a, b, c)
  {
    var m, p, q := a.path, PathOf(b), PathOf(c);
    ReachesNames(b, c);
    PathContainsAlong(m, p, q);
    if b.StaticModule? || b.ConfigTarget? {
      UnkeyedKeysDiffer(m, if b.StaticModule? then b.m else b.config.path, q);
    } else if b.ModuleTarget? {
      PathContainsTransitive(m, p, q);
    }
  }

  lemma HasKeyIff(m: ModuleInstance)
    ensures HasKey(m) <==> ErasePath(m) != Unkeyed(ModuleOf(m))
  {
    var e, u := ErasePath(m), Unkeyed(ModuleOf(m));
    if HasKey(m) {
      var i :| 0 <= i < |m| && m[i].key != NoKey;
      assert e[i] != u[i];
    }
  }

  /** What a static resource contains, seen by a target that keeps keys. */
  lemma ConfigChain(a: Targetable, b: Targetable, c: Targetable)
    requires (a.ResourceTarget? || a.InstanceTarget?) && b.ConfigTarget? && Reaches(a, b) && Reaches(b, c)
    ensures Reaches(a, c) <==> !Breaks(a, b, c)
  {
    var i, j := AsInstance(a), AsInstance(c);
    UnkeyedErase(b.config.path);
    HasKeyIff(j.path);
    assert Erase(i) == AsInstance(b);
    assert Unkeyed(ModuleOf(j.path)) == Unkeyed(b.config.path) && j.instance.resource == b.config.resource;
  }

  lemma KeyedChain(a: Targetable, b: Targetable, c: Targetable)
    requires (a.ResourceTarget? || a.InstanceTarget?) && (b.ResourceTarget? || b.InstanceTarget?)
    requires Reaches(a, b) && Reaches(b, c)
    ensures Reaches(a, c) <==> !Breaks(a, b, c)
  {
    var i, j, k := AsInstance(a), AsInstance(b), AsInstance(c);
    assert Erase(WithoutInstance(i)) == Erase(WithoutInstance(j)) == Erase(WithoutInstance(k));
    if a.InstanceTarget? && b.ResourceTarget? {
      assert Erase(k) == Erase(i) <==> EraseKey(k.instance.key) == NoKey;
    }
  }

  /** What a static resource contains is what every static resource containing it contains. */
  lemma StaticChain(a: Targetable, b: Targetable, c: Targetable)
    requires a.ConfigTarget? && Reaches(a, b) && Reaches(b, c)
    ensures Reaches(a, c)
  {
    ReachesNames(b, c);
    assert AsInstance(b).instance.resource == AsInstance(c).instance.resource;
  }

  /** Containment over all targets named by identifiers: every target contains itself, and one that
      contains a second that contains a third contains the third exactly unless the chain breaks. */
  lemma TransitiveIff(lex: Lexicon, a: Targetable, b: Targetable, c: Targetable)
    requires lex.Valid() && NamedByIdentifiers(lex, a) && NamedByIdentifiers(lex, b) && NamedByIdentifiers(lex, c)
    ensures TargetContains(lex, a, a)
    ensures TargetContains(lex, a, b) && TargetContains(lex, b, c) ==> (TargetContains(lex, a, c) <==> !Breaks(a, b, c))
  {
    if !(TargetContains(lex, a, b) && TargetContains(lex, b, c)) {
      return;
    }
    ContainsIffReaches(lex, a, b);
    ContainsIffReaches(lex, b, c);
    ContainsIffReaches(lex, a, c);
    if a.ModuleTarget? {
      ModuleChain(a, b, c);
    } else if a.StaticModule? {
      ReachesNames(b, c);
    } else if a.ConfigTarget? {
      StaticChain(a, b, c);
    } else if b.ConfigTarget? {
      ConfigChain(a, b, c);
    } else {
      KeyedChain(a, b, c);
    }
  }

  /** Without placeholder keys of a known type only targets that ignore keys break a chain. */
  lemma DistinctKeysNeverDiffer(a: ModuleInstance, b: Targetable, c: Targetable)
    requires (b.ResourceTarget? || b.InstanceTarget?) && Reaches(b, c)
    requires DistinctKeys(WithoutInstance(AsInstance(b))) && DistinctKeys(WithoutInstance(AsInstance(c)))
    ensures !KeysDiffer(a, PathOf(b), PathOf(c))
  {
    EraseDistinct(WithoutInstance(AsInstance(b)));
    EraseDistinct(WithoutInstance(AsInstance(c)));
    assert PathOf(b) == ErasePath(PathOf(b)) == ErasePath(PathOf(c)) == PathOf(c);
  }

  /** A chain that breaks: an unkeyed instance path
      contains the static module, which contains a keyed path the first does not contain. */
  lemma StaticModulesBreakTransitivity(lex: Lexicon)
    ensures var unkeyed := ModuleTarget([Step("a", NoKey), Step("b", NoKey)]);
            var static_ := StaticModule(["a", "b"]);
            var keyed := ModuleTarget([Step("a", IntKey(0)), Step("b", NoKey)]);
            && TargetContains(lex, unkeyed, static_)
            && TargetContains(lex, static_, keyed)
            && !TargetContains(lex, unkeyed, keyed)
  {
    var k := [Step("a", IntKey(0)), Step("b", NoKey)];
    assert ModuleOf(k) == ["a", "b"];
    assert !StepContains(Step("a", NoKey), k[0], false);
  }
}
