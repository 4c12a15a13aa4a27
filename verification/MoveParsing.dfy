/** From the text of a `moved` block to its endpoints (ParseMoveEndpoint in move_endpoint.go): parsed
    endpoints meet every assumption of the move results. */
module MoveParsing {
  import opened Addresses
  import opened AddressText
  import opened MovePatterns
  import opened MoveDestinations

  /** ParseMoveEndpoint on a traversal, which HCL never leaves empty. */
  function ParseMoveEndpoint(t: Traversal): Option<MoveEndpoint> {
    match PrefixOf(t, false)
    case PrefixError => None
    case Prefix(path, rest) =>
      if rest == [] then Some(ParsedModule(path))
      else
        PrefixRemainStartsWithName(t, false);
        match ResourceUnder(path, Rooted(rest), false)
        case Some(ri) => Some(ParsedInstance(ri))
        case None => None
  }

  /** Only keys that configuration can spell out. */
  predicate SpelledOut(k: InstanceKey) {
    k.NoKey? || k.IntKey? || k.StringKey?
  }

  lemma {:induction false} PrefixSpelledOut(t: Traversal)
    ensures var p := PrefixOf(t, false);
            p.Prefix? ==>
              && (forall s :: s in p.path ==> SpelledOut(s.key))
              && (t != [] && p.remain == [] ==> p.path != [])
  {
    if GetModuleName(t).Named? {
      var rest := t[2..];
      PrefixSpelledOut(rest);
      if rest != [] {
        PrefixSpelledOut(rest[1..]);
      }
    }
  }

  /** A parsed endpoint is a non-empty module path or a resource instance, with spelled-out keys. */
  lemma ParsedEndpointShape(t: Traversal)
    requires t != [] && ParseMoveEndpoint(t).Some?
    ensures match ParseMoveEndpoint(t).value
            case ParsedModule(p) => p != [] && ConcretePath(p)
            case ParsedInstance(i) => ConcretePath(i.path) && SpelledOut(i.instance.key)
  {
    PrefixSpelledOut(t);
    var path := PrefixOf(t, false).path;
    forall i | 0 <= i < |path| ensures path[i].key != AnyKey {
      assert path[i] in path;
    }
  }

  /** For every `moved` block that parses and unifies, moving is free of panics and undone by the
      reversed block, with no exception for the root module. */
  lemma ParsedMovesInvert(
      declared: Module, fromText: Traversal, toText: Traversal, m: ModuleInstance, r: AbsResourceInstance)
    requires fromText != [] && toText != []
    requires ParseMoveEndpoint(fromText).Some? && ParseMoveEndpoint(toText).Some?
    requires UnifyMoveEndpoints(declared, ParseMoveEndpoint(fromText).value, ParseMoveEndpoint(toText).value).Unified?
    ensures var u := UnifyMoveEndpoints(declared, ParseMoveEndpoint(fromText).value, ParseMoveEndpoint(toText).value);
            && u.from.WellFormed() && u.to.WellFormed() && SameStatement(u.from, u.to)
            && MoveModule(m, u.from, u.to) != Panics && MoveInstance(r, u.from, u.to) != Panics
            && (MoveModule(m, u.from, u.to).Moved? ==>
                  MoveModule(MoveModule(m, u.from, u.to).to, u.to, u.from) == Moved(m))
            && (MoveInstance(r, u.from, u.to).Moved? ==>
                  MoveInstance(MoveInstance(r, u.from, u.to).to, u.to, u.from) == Moved(r))
  {
    var f, t := ParseMoveEndpoint(fromText).value, ParseMoveEndpoint(toText).value;
    ParsedEndpointShape(fromText);
    ParsedEndpointShape(toText);
    UnifyExact(declared, f, t);
    var u := UnifyMoveEndpoints(declared, f, t);
    OneStatementNeverPanics(m, r.ContainingResource(), r, u.from, u.to);
    if MoveModule(m, u.from, u.to).Moved? {
      ParsedModuleMoveInvertible(m, u.from, u.to);
    }
    if MoveInstance(r, u.from, u.to).Moved? {
      InstanceMoveInvertible(r, u.from, u.to);
      if u.from.rel.IsModuleKind() {
        ModuleMoveKeepsContext(r.path, u.from, u.to);
      }
    }
  }
}
