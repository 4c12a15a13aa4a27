/** Which traversals the address parsers read as which address: exactly the steps of the address, and
    nothing else. */
module AddressGrammar {
  import opened Addresses
  import opened AddressText
  import opened MoveDestinations
  import MoveParsing

  /** All names are attributes, as before the first one is made a root. */
  predicate NoRoots(t: Traversal) {
    forall i :: 0 <= i < |t| ==> !t[i].Root?
  }

  predicate PathParses(m: ModuleInstance, allowRanges: bool) {
    forall i :: 0 <= i < |m| ==> KeyParses(m[i].key, allowRanges)
  }

  predicate InstanceParses(a: AbsResourceInstance, allowRanges: bool) {
    PathParses(a.path, allowRanges) && KeyParses(a.instance.key, allowRanges) && !ReservedType(a)
  }

  // ---------------------------------------------------------------- the module prefix

  ghost predicate PrefixExact(t: Traversal, p: Prefix, allowRanges: bool) {
    p.Prefix? ==>
      && t == PathSteps(p.path) + p.remain && PathParses(p.path, allowRanges) && NoRoots(p.remain)
      && (p.remain != [] ==> p.remain[0].Attr? && p.remain[0].name != "module")
  }

  lemma PrependExact(name: string, key: InstanceKey, rest: Traversal, p: Prefix, allowRanges: bool)
    requires PrefixExact(rest, p, allowRanges) && KeyParses(key, allowRanges)
    ensures PrefixExact([Attr("module"), Attr(name)] + KeySteps(key) + rest, p.Prepend([Step(name, key)]), allowRanges)
  {
    if p.Prefix? {
      var front, m := [Attr("module"), Attr(name)] + KeySteps(key), [Step(name, key)] + p.path;
      assert m[1..] == p.path && PathSteps(m) == front + PathSteps(p.path);
      ConcatAssociative(front, PathSteps(p.path), p.remain);
    }
  }

  /** What the prefix parser has read spells the path it returns. */
  lemma {:induction false} PrefixIsExact(t: Traversal, allowRanges: bool)
    requires NoRoots(t)
    ensures PrefixExact(t, PrefixOf(t, allowRanges), allowRanges)
  {
    match GetModuleName(t)
    case NotModule => assert PathSteps([]) + t == t;
    case BadName =>
    case Named(name) =>
      var rest := t[2..];
      assert t == [Attr("module"), Attr(name)] + rest;
      if rest != [] && (rest[0].Index? || (rest[0].Splat? && allowRanges)) {
        var key := if rest[0].Splat? then Some(WildcardKey(UnknownKeyType)) else KeyOfIndex(rest[0].key);
        PrefixIsExact(rest[1..], allowRanges);
        if key.Some? {
          PrependExact(name, key.value, rest[1..], PrefixOf(rest[1..], allowRanges), allowRanges);
          assert KeySteps(key.value) == [rest[0]];
          assert t == [Attr("module"), Attr(name)] + [rest[0]] + rest[1..];
        }
      } else {
        PrefixIsExact(rest, allowRanges);
        PrependExact(name, NoKey, rest, PrefixOf(rest, allowRanges), allowRanges);
        assert t == [Attr("module"), Attr(name)] + [] + rest;
      }
  }

  /** What follows the prefix spells the resource and the key that are read from it. */
  lemma ResourceIsExact(path: ModuleInstance, remain: Traversal, allowRanges: bool)
    requires remain != [] && remain[0].Attr? && remain[0].name != "module" && NoRoots(remain)
    ensures var a := ResourceUnder(path, Rooted(remain), allowRanges);
            a.Some? ==>
              && a.value.path == path && KeyParses(a.value.instance.key, allowRanges) && !ReservedType(a.value)
              && remain == ResourceSteps(a.value.instance.resource) + KeySteps(a.value.instance.key)
  {
    var a := ResourceUnder(path, Rooted(remain), allowRanges);
    if a.Some? {
      var i := a.value.instance;
      var key := KeySteps(i.key);
      var rel := if i.resource.mode.Managed? then Rooted(remain) else Rooted(remain)[1..];
      assert |rel| == 2 + |key| && (key != [] ==> rel[2] == key[0]);
      assert rel[1] == Attr(i.resource.name);
      NamesAndKey(remain, i.resource, key);
    }
  }

  lemma NamesAndKey(remain: Traversal, r: Resource, key: Traversal)
    requires remain != [] && remain[0].Attr? && |key| <= 1 && NoRoots(remain)
    requires var rel := if r.mode.Managed? then Rooted(remain) else Rooted(remain)[1..];
             && |rel| == 2 + |key| && (key != [] ==> rel[2] == key[0])
             && rel[0].IsName() && rel[0].name == r.typeName && rel[1] == Attr(r.name)
    requires r.mode != Managed ==> remain[0].name == if r.mode == Data then "data" else "ephemeral"
    ensures remain == ResourceSteps(r) + key
  {
    var names := ResourceSteps(r);
    assert forall k :: 1 <= k < |remain| ==> Rooted(remain)[k] == remain[k];
    assert |remain| == |names| + |key|;
    assert forall k :: 0 <= k < |names| ==> remain[k] == names[k];
  }

  // ---------------------------------------------------------------- targets

  /** The steps that spell a target. */
  function TargetSteps(target: Targetable): Traversal {
    match target
    case ModuleTarget(m) => PathSteps(m)
    case ResourceTarget(r) => AddressSteps(r.Instance(NoKey))
    case InstanceTarget(i) => AddressSteps(i)
    case _ => []
  }

  predicate TargetParses(target: Targetable, allowRanges: bool) {
    match target
    case ModuleTarget(m) => PathParses(m, allowRanges)
    case ResourceTarget(r) => InstanceParses(r.Instance(NoKey), allowRanges)
    case InstanceTarget(i) => InstanceParses(i, allowRanges) && i.instance.key != NoKey
    case _ => false
  }

  lemma InstanceStepsParse(a: AbsResourceInstance, allowRanges: bool)
    requires InstanceParses(a, allowRanges)
    ensures var tail := ResourceSteps(a.instance.resource) + KeySteps(a.instance.key);
            && PrefixOf(AddressSteps(a), allowRanges) == Prefix(a.path, tail)
            && ResourceUnder(a.path, Rooted(tail), allowRanges) == Some(a)
  {
    var tail := ResourceSteps(a.instance.resource) + KeySteps(a.instance.key);
    PrefixOfAddressSteps(a, allowRanges);
    ResourceUnderSteps(a.path, a.instance, allowRanges);
  }

  lemma InstanceTargetParses(a: AbsResourceInstance, allowRanges: bool)
    requires InstanceParses(a, allowRanges)
    ensures ParseTarget(AddressSteps(a), allowRanges) ==
            Some(if a.instance.key == NoKey then ResourceTarget(a.ContainingResource()) else InstanceTarget(a))
  {
    InstanceStepsParse(a, allowRanges);
    assert Rooted(ResourceSteps(a.instance.resource) + KeySteps(a.instance.key)) != [];
  }

  /** The steps of a target are read as that target. */
  lemma StepsParse(target: Targetable, allowRanges: bool)
    requires TargetParses(target, allowRanges)
    ensures ParseTarget(TargetSteps(target), allowRanges) == Some(target)
  {
    if target.ModuleTarget? {
      PrefixOfPathSteps(target.path, [], allowRanges);
      assert PathSteps(target.path) + [] == PathSteps(target.path);
    } else {
      InstanceTargetParses(
        if target.ResourceTarget? then target.resource.Instance(NoKey) else target.instance, allowRanges);
    }
  }

  /** A traversal is read as a target exactly when it is the steps of that target, every key can be
      read, and no managed resource type is a reserved word. */
  lemma TargetParsedIff(t: Traversal, target: Targetable, allowRanges: bool)
    requires NoRoots(t)
    ensures ParseTarget(t, allowRanges) == Some(target) <==>
            TargetParses(target, allowRanges) && t == TargetSteps(target)
  {
    if TargetParses(target, allowRanges) {
      StepsParse(target, allowRanges);
    }
    if ParseTarget(t, allowRanges) == Some(target) {
      var p := PrefixOf(t, allowRanges);
      PrefixIsExact(t, allowRanges);
      if p.remain == [] {
        assert PathSteps(p.path) + [] == PathSteps(p.path);
      } else {
        ResourceIsExact(p.path, p.remain, allowRanges);
      }
    }
  }

  lemma {:induction false} LexedHasNoRoots(lex: Lexicon, signed: bool, s: string)
    ensures var t := LexSteps(lex, signed, s); t.Some? ==> NoRoots(t.value)
    decreases |s|
  {
    if s != "" && LexSteps(lex, signed, s).Some? {
      if s[0] == '.' {
        LexedHasNoRoots(lex, signed, s[1 + IdentLength(lex, s[1..])..]);
      } else {
        LexedHasNoRoots(lex, signed, LexIndex(signed, s[1..]).value.1);
      }
    }
  }

  /** A text is read as an instance exactly when it lexes to the steps of that instance, every key can be
      read, and a managed type is no reserved word. */
  lemma InstanceTextParsedIff(lex: Lexicon, s: string, a: AbsResourceInstance, allowRanges: bool)
    ensures ParseInstanceText(lex, s, allowRanges) == Some(a) <==>
            LexSteps(lex, false, "." + s) == Some(AddressSteps(a)) && InstanceParses(a, allowRanges)
  {
    LexedHasNoRoots(lex, false, "." + s);
    var steps := LexSteps(lex, false, "." + s);
    if steps.Some? {
      ParseRooted(steps.value, allowRanges);
      TargetParsedIff(steps.value, InstanceTarget(a), allowRanges);
      TargetParsedIff(steps.value, ResourceTarget(a.ContainingResource()), allowRanges);
    }
  }

  // ---------------------------------------------------------------- endpoints of moves

  predicate EndpointParses(e: MoveEndpoint) {
    match e
    case ParsedModule(p) => PathParses(p, false)
    case ParsedInstance(i) => InstanceParses(i, false)
  }

  function EndpointSteps(e: MoveEndpoint): Traversal {
    match e
    case ParsedModule(p) => PathSteps(p)
    case ParsedInstance(i) => AddressSteps(i)
  }

  lemma EndpointStepsParse(e: MoveEndpoint)
    requires EndpointParses(e)
    ensures MoveParsing.ParseMoveEndpoint(EndpointSteps(e)) == Some(e)
  {
    match e
    case ParsedModule(m) =>
      PrefixOfPathSteps(m, [], false);
      assert PathSteps(m) + [] == PathSteps(m);
    case ParsedInstance(i) => InstanceStepsParse(i, false);
  }

  /** A traversal is read as an endpoint of a move exactly when it is the steps of a module path or of a
      resource instance, with keys spelled out and no reserved word for a managed type. */
  lemma EndpointParsedIff(t: Traversal, e: MoveEndpoint)
    requires NoRoots(t)
    ensures MoveParsing.ParseMoveEndpoint(t) == Some(e) <==> EndpointParses(e) && t == EndpointSteps(e)
  {
    if EndpointParses(e) {
      EndpointStepsParse(e);
    }
    if MoveParsing.ParseMoveEndpoint(t) == Some(e) {
      PrefixIsExact(t, false);
      var p := PrefixOf(t, false);
      if p.remain == [] {
        assert PathSteps(p.path) + [] == PathSteps(p.path);
      } else {
        ResourceIsExact(p.path, p.remain, false);
      }
    }
  }
}
