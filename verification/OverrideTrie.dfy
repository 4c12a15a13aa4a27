/** The override trie as a mutable object (override_trie.go). The ghost table `nodes` lists every
    node by its key path from the root. */
module OverrideTries {
  import opened Addresses
  import opened OverrideSpec

  function KeyList(addr: AbsResourceInstance): (keys: KeyPath)
    ensures |keys| == |addr.path| + 1
  {
    seq(|addr.path|, i requires 0 <= i < |addr.path| => addr.path[i].key) + [addr.instance.key]
  }

  /** The children recorded at `p` are exactly the nodes one key further. */
  ghost predicate LinkedAt<N>(nodes: map<KeyPath, N>, kids: map<InstanceKey, N>, p: KeyPath) {
    && (forall k :: k in kids <==> p + [k] in nodes)
    && (forall k :: k in kids ==> kids[k] == nodes[p + [k]])
  }

  /** A table of nodes and the child maps they hold describe one tree. */
  ghost predicate Linked<N>(nodes: map<KeyPath, N>, tries: map<KeyPath, map<InstanceKey, N>>) {
    && nodes.Keys == tries.Keys
    && (forall p, k :: p + [k] in nodes ==> p in nodes)
    && (forall p {:trigger LinkedAt(nodes, tries[p], p)} :: p in nodes ==> LinkedAt(nodes, tries[p], p))
  }

  /** At most the node at `q` was added. */
  ghost predicate Grown<N>(before: map<KeyPath, N>, after: map<KeyPath, N>, q: KeyPath) {
    && q in after
    && (forall p :: p in after <==> p in before || p == q)
    && (forall p :: p in before ==> after[p] == before[p])
  }

  lemma SnocInjective(p: KeyPath, k: InstanceKey, q: KeyPath, l: InstanceKey)
    ensures p + [k] == q + [l] ==> p == q && k == l
  {
    if p + [k] == q + [l] {
      assert p == (p + [k])[..|p|] == (q + [l])[..|p|] == q;
      assert (p + [k])[|p|] == k;
    }
  }

  /** Hanging an empty node below `p` keeps the tree linked. */
  lemma LinkedGrows<N>(
      nodes: map<KeyPath, N>, tries: map<KeyPath, map<InstanceKey, N>>, p: KeyPath, k: InstanceKey, n: N)
    requires Linked(nodes, tries) && p in nodes && k !in tries[p]
    ensures var q := p + [k];
            && q !in nodes && p != q
            && Linked(nodes[q := n], tries[p := tries[p][k := n]][q := map[]])
  {
    var q := p + [k];
    var nodes', tries' := nodes[q := n], tries[p := tries[p][k := n]][q := map[]];
    assert LinkedAt(nodes, tries[p], p);
    forall r, k' | r + [k'] in nodes' ensures r in nodes' {
      SnocInjective(r, k', p, k);
    }
    forall r | r in nodes' ensures LinkedAt(nodes', tries'[r], r) {
      forall k' ensures r + [k'] == q ==> r == p && k' == k {
        SnocInjective(r, k', p, k);
      }
      if r != q {
        assert LinkedAt(nodes, tries[r], r);
      } else {
        assert forall k' :: q + [k'] in nodes ==> q in nodes;
      }
    }
  }

  /** The ghost tables of a root describe one tree, with values at its nodes. */
  ghost predicate TableOk<N, T>(
      self: N, nodes: map<KeyPath, N>, tries: map<KeyPath, map<InstanceKey, N>>, stored: map<KeyPath, T>)
  {
    && [] in nodes && nodes[[]] == self
    && (forall p :: p in stored ==> p in nodes)
    && Linked(nodes, tries)
  }

  lemma TableGrows<N, T>(
      self: N, nodes: map<KeyPath, N>, tries: map<KeyPath, map<InstanceKey, N>>, stored: map<KeyPath, T>,
      p: KeyPath, k: InstanceKey, n: N)
    requires TableOk(self, nodes, tries, stored)
    requires p in nodes && k !in tries[p]
    ensures var q := p + [k];
            && q !in nodes && q !in stored && p != q
            && TableOk(self, nodes[q := n], tries[p := tries[p][k := n]][q := map[]], stored)
  {
    LinkedGrows(nodes, tries, p, k, n);
  }

  class OverrideTrie<T> {
    var trie: map<InstanceKey, OverrideTrie<T>>
    var value: Option<T>
    var usesModernAddresses: bool
    var noKeyEvidence: seq<seq<nat>>
    var refuse: bool
    var root: OverrideTrie?<T>

    // Kept by the root of a trie: every node by its key path, the child map each node holds, and
    // the values stored.
    ghost var here: KeyPath  // of every node: its own path
    ghost var nodes: map<KeyPath, OverrideTrie<T>>
    ghost var tries: map<KeyPath, map<InstanceKey, OverrideTrie<T>>>
    ghost var stored: map<KeyPath, T>

    ghost predicate Table()
      reads this`nodes, this`tries, this`stored
    {
      TableOk(this, nodes, tries, stored)
    }

    /** The node at `p` holds what the tables say. */
    ghost predicate Mirrors(p: KeyPath)
      requires p in nodes && p in tries
      reads this`nodes, this`tries, this`stored
      reads nodes.Values`trie, nodes.Values`value, nodes.Values`root, nodes.Values`here
    {
      && nodes[p].here == p
      && nodes[p].trie == tries[p]
      && nodes[p].value == (if p in stored then Some(stored[p]) else None)
      && nodes[p].root == (if p == [] then null else this)
    }

    ghost predicate Tree()
      reads this`nodes, this`tries, this`stored
      reads nodes.Values`trie, nodes.Values`value, nodes.Values`root, nodes.Values`here
    {
      Table() && AllMirror()
    }

    ghost predicate AllMirror()
      reads this`nodes, this`tries, this`stored
      reads nodes.Values`trie, nodes.Values`value, nodes.Values`root, nodes.Values`here
    {
      nodes.Keys == tries.Keys && forall p {:trigger Mirrors(p)} :: p in nodes ==> Mirrors(p)
    }

    ghost function Model(): TrieModel<T>
      reads this`stored, this`usesModernAddresses, this`noKeyEvidence
    {
      TrieModel(stored, usesModernAddresses, noKeyEvidence)
    }

    /** Between calls every node lies on the way to a stored value. */
    ghost predicate Valid()
      reads this`nodes, this`tries, this`stored, this`noKeyEvidence
      reads nodes.Values`trie, nodes.Values`value, nodes.Values`root, nodes.Values`here
    {
      Tree() && forall p :: p in nodes <==> NodeExists(stored, p)
    }

    constructor ()
      ensures Valid() && fresh(nodes.Values)
      ensures Some(Model()) == AfterAll([]) && !refuse
    {
      trie := map[];
      value := None;
      usesModernAddresses := false;
      noKeyEvidence := [];
      refuse := false;
      root := null;
      here := [];
      tries := map[[] := map[]];
      stored := map[];
      new;
      nodes := map[[] := this];
    }

    /** A child node, as NewOverrideTrie makes it before the parent links it. */
    constructor Child(top: OverrideTrie<T>, ghost p: KeyPath)
      ensures trie == map[] && value == None && root == top && here == p
    {
      trie := map[];
      value := None;
      usesModernAddresses := false;
      noKeyEvidence := [];
      refuse := false;
      root := top;
      here := p;
      nodes, tries, stored := map[], map[], map[];
    }

    /** subSet: one step of the key chain, created when missing. */
    method SubSet(current: OverrideTrie<T>, key: InstanceKey, ghost p: KeyPath)
      returns (next: OverrideTrie<T>, usesNoKey: bool)
      requires Tree() && p in nodes && nodes[p] == current
      modifies this`nodes, this`tries, current`trie
      ensures Tree()
      ensures usesNoKey <==> key == NoKey
      ensures var q := p + [Normal(key)];
              && q in nodes && nodes[q] == next
              && Grown(old(nodes), nodes, q)
              && (q in old(nodes) || fresh(next))
    {
      var k := key;
      usesNoKey := false;
      if k == NoKey {
        k := WILD;
        usesNoKey := true;
      }
      assert Mirrors(p) && LinkedAt(nodes, tries[p], p);
      if k in current.trie {
        next := current.trie[k];
      } else {
        next := new OverrideTrie<T>.Child(this, p + [k]);
        LinkChild(current, k, next, p);
      }
    }

    /** Hang a new, empty node below the node at `p`. */
    method LinkChild(current: OverrideTrie<T>, k: InstanceKey, next: OverrideTrie<T>, ghost p: KeyPath)
      requires Tree() && p in nodes && nodes[p] == current && k !in current.trie
      requires next.trie == map[] && next.value == None && next.root == this && next.here == p + [k]
      modifies this`nodes, this`tries, current`trie
      ensures Tree()
      ensures nodes == old(nodes)[p + [k] := next]
    {
      assert Mirrors(p);
      assert current.here != next.here;
      TableGrows(this, nodes, tries, stored, p, k, next);
      Hang(current, k, next, p);
    }

    method Hang(current: OverrideTrie<T>, k: InstanceKey, next: OverrideTrie<T>, ghost p: KeyPath)
      requires AllMirror() && p in nodes && nodes[p] == current
      requires p + [k] !in nodes && p + [k] !in stored && next != current
      requires next.trie == map[] && next.value == None && next.root == this && next.here == p + [k]
      modifies this`nodes, this`tries, current`trie
      ensures AllMirror()
      ensures nodes == old(nodes)[p + [k] := next]
      ensures tries == old(tries)[p := old(tries)[p][k := next]][p + [k] := map[]]
    {
      SetKid(current, k, next, p);
      AddNode(next, p + [k]);
    }

    method SetKid(current: OverrideTrie<T>, k: InstanceKey, next: OverrideTrie<T>, ghost p: KeyPath)
      requires AllMirror() && p in nodes && nodes[p] == current
      modifies this`tries, current`trie
      ensures AllMirror() && tries == old(tries)[p := old(tries)[p][k := next]]
    {
      assert Mirrors(p);
      var kids := current.trie[k := next];
      current.trie := kids;
      tries := tries[p := kids];
      forall r | r in nodes ensures Mirrors(r) {
        assert old(Mirrors(r));
        if r != p {
          assert nodes[r] != current;
        }
      }
    }

    ghost method AddNode(next: OverrideTrie<T>, q: KeyPath)
      requires AllMirror() && q !in nodes && q !in stored && q != []
      requires next.trie == map[] && next.value == None && next.root == this && next.here == q
      modifies this`nodes, this`tries
      ensures AllMirror() && nodes == old(nodes)[q := next] && tries == old(tries)[q := map[]]
    {
      nodes, tries := nodes[q := next], tries[q := map[]];
      forall r | r in nodes ensures Mirrors(r) {
        assert r != q ==> old(Mirrors(r));
      }
    }

    /** setNoKeyEvidence, for position `i` of an address of `size` keys; false when the index is out of
        range. */
    method SetNoKeyEvidence(i: nat, size: nat, src: nat) returns (ok: bool)
      modifies this`noKeyEvidence
      ensures ok <==> AddEvidence(old(noKeyEvidence), size, i, src).Some?
      ensures ok ==> noKeyEvidence == AddEvidence(old(noKeyEvidence), size, i, src).value
    {
      if noKeyEvidence == [] {
        noKeyEvidence := seq(size, _ => []);
      }
      if i >= |noKeyEvidence| {
        return false;
      }
      noKeyEvidence := noKeyEvidence[i := noKeyEvidence[i] + [src]];
      return true;
    }

    /** What Set records about one key, after stepping to its node. */
    method Track(key: InstanceKey, usesNoKey: bool, i: nat, size: nat, src: nat) returns (ok: bool)
      modifies this`usesModernAddresses, this`noKeyEvidence
      ensures ok <==> !usesNoKey || AddEvidence(old(noKeyEvidence), size, i, src).Some?
      ensures ok ==> usesModernAddresses == (old(usesModernAddresses) || key.WildcardKey?)
      ensures ok ==>
                noKeyEvidence ==
                if usesNoKey then AddEvidence(old(noKeyEvidence), size, i, src).value else old(noKeyEvidence)
    {
      if usesNoKey {
        ok := SetNoKeyEvidence(i, size, src);
        if !ok {
          return;
        }
      }
      usesModernAddresses := usesModernAddresses || key.WildcardKey?;
      return true;
    }

    /** One key of Set: step to the child and record what the key says. */
    method Advance(current: OverrideTrie<T>, i: nat, src: nat, keys: KeyPath) returns (next: OverrideTrie<T>, ok: bool)
      requires Tree() && i < |keys|
      requires Pattern(keys)[..i] in nodes && nodes[Pattern(keys)[..i]] == current
      modifies this`nodes, this`tries, this`usesModernAddresses, this`noKeyEvidence, current`trie
      ensures Tree()
      ensures var q := Pattern(keys)[..i + 1];
              && q in nodes && nodes[q] == next
              && Grown(old(nodes), nodes, q)
              && (q in old(nodes) || fresh(next))
      ensures var r := KeyRecorded(old(noKeyEvidence), keys, i, src);
              (ok <==> r.Some?) && (ok ==> noKeyEvidence == r.value)
      ensures ok ==> usesModernAddresses == (old(usesModernAddresses) || keys[i].WildcardKey?)
    {
      ghost var p := Pattern(keys)[..i];
      var usesNoKey;
      next, usesNoKey := SubSet(current, keys[i], p);
      assert Pattern(keys)[..i + 1] == p + [Normal(keys[i])];
      ok := Track(keys[i], usesNoKey, i, |keys|, src);
    }

    /** Storing a value at a node. */
    method StoreLeaf(leaf: OverrideTrie<T>, val: T, ghost p: KeyPath)
      requires Tree() && p in nodes && nodes[p] == leaf
      modifies this`stored, leaf`value
      ensures Tree() && stored == old(stored)[p := val]
    {
      assert Mirrors(p);
      leaf.value := Some(val);
      stored := stored[p := val];
      forall r | r in nodes ensures Mirrors(r) {
        assert old(Mirrors(r));
      }
    }

    /** The loop of Set: walk the keys, creating nodes on the way. */
    method WalkKeys(keys: KeyPath, src: nat) returns (leaf: OverrideTrie<T>, ok: bool)
      requires Tree()
      modifies this, nodes.Values
      ensures Tree() && refuse == old(refuse) && stored == old(stored)
      ensures var r := EvidenceAfter(old(noKeyEvidence), keys, |keys|, src);
              (ok <==> r.Some?) && (ok ==> noKeyEvidence == r.value)
      ensures ok ==> var q := Pattern(keys); q in nodes && nodes[q] == leaf && NodesUpTo(old(nodes), nodes, q)
      ensures ok ==> usesModernAddresses == (old(usesModernAddresses) || UsesWildcard(keys))
      ensures forall p :: p in nodes ==> fresh(nodes[p]) || (p in old(nodes) && nodes[p] == old(nodes)[p])
    {
      ghost var pattern := Pattern(keys);
      leaf := this;
      for i := 0 to |keys|
        invariant Tree()
        invariant pattern[..i] in nodes && nodes[pattern[..i]] == leaf
        invariant NodesUpTo(old(nodes), nodes, pattern[..i])
        invariant usesModernAddresses == (old(usesModernAddresses) || UsesWildcard(keys[..i]))
        invariant EvidenceAfter(old(noKeyEvidence), keys, i, src) == Some(noKeyEvidence)
        invariant refuse == old(refuse) && stored == old(stored)
        invariant forall p :: p in nodes ==> fresh(nodes[p]) || (p in old(nodes) && nodes[p] == old(nodes)[p])
      {
        ghost var before := nodes;
        EvidenceStep(old(noKeyEvidence), noKeyEvidence, keys, i, src);
        leaf, ok := Advance(leaf, i, src, keys);
        if !ok {
          EvidenceFails(old(noKeyEvidence), keys, i + 1, |keys|, src);
          return;
        }
        WildcardInLonger(keys, i);
        NodesUpToNext(old(nodes), before, nodes, pattern, i);
      }
      assert pattern[..|keys|] == pattern && keys[..|keys|] == keys;
      ok := true;
    }

    /** Set, for an address of any depth; false when it panics, with nothing stored. */
    method Set(addr: AbsResourceInstance, val: T, src: nat) returns (ok: bool)
      requires Valid()
      modifies this, nodes.Values
      ensures refuse == old(refuse) && fresh(nodes.Values - old(nodes.Values))
      ensures var r := AfterSet(old(Model()), Call(KeyList(addr), val, src));
              (ok <==> r.Some?) && (ok ==> Valid() && Model() == r.value)
      ensures !ok ==> Tree() && stored == old(stored)
    {
      var keys := KeyList(addr);
      ghost var before := stored;
      var leaf;
      leaf, ok := WalkKeys(keys, src);
      if !ok {
        return;
      }
      StoreLeaf(leaf, val, Pattern(keys));
      PrefixesAfterStore(before, Pattern(keys), val);
    }

    /** The child of a node, nil when there is none. */
    method ChildOf(node: OverrideTrie<T>, k: InstanceKey, ghost p: KeyPath) returns (next: OverrideTrie?<T>)
      requires Valid() && p in nodes && nodes[p] == node
      ensures next == (if p + [k] in nodes then nodes[p + [k]] else null)
    {
      assert Mirrors(p) && LinkedAt(nodes, tries[p], p);
      next := if k in node.trie then node.trie[k] else null;
    }

    /** checkKey, which every node passes on to its root. */
    method CheckKeyFrom(node: OverrideTrie<T>, i: nat, key: InstanceKey, ghost p: KeyPath) returns (diag: Diag)
      requires Valid() && p in nodes && nodes[p] == node
      modifies this`refuse
      ensures var c := CheckKey(Model(), old(refuse), i, key); diag == c.0 && refuse == c.1
    {
      assert Mirrors(p);
      if node.root != null && node.root != node {
        diag := node.root.CheckKeyAtRoot(i, key);
      } else {
        diag := node.CheckKeyAtRoot(i, key);
      }
    }

    method CheckKeyAtRoot(i: nat, key: InstanceKey) returns (diag: Diag)
      modifies this`refuse
      ensures var c := CheckKey(Model(), old(refuse), i, key); diag == c.0 && refuse == c.1
    {
      if key.WildcardKey? {
        return WildcardQuery;
      }
      if noKeyEvidence == [] || !usesModernAddresses {
        return Clean;
      }
      diag := Clean;
      if key != NoKey {
        if i >= |noKeyEvidence| {
          return OutOfRange;
        }
        if |noKeyEvidence[i]| > 0 {
          var swapped := refuse;
          refuse := true;
          if !swapped {
            diag := MixedUsage(noKeyEvidence[i]);
          }
        }
      }
    }

    /** recursiveGet from the node at `p`, which is nil when the trie has no such node. */
    method RecursiveGet(node: OverrideTrie?<T>, i: nat, keys: KeyPath, ghost p: KeyPath, ghost m: TrieModel<T>)
      returns (val: Option<T>, diag: Diag)
      requires Valid() && m == Model() && |p| == i <= |keys|
      requires node == (if p in nodes then nodes[p] else null)
      modifies this`refuse
      ensures var r := Walk(m, old(refuse), p, keys); val == r.value && diag == r.diag && refuse == r.refuse
      decreases |keys| - i, 2
    {
      if node == null {
        return None, Clean;
      }
      if i == |keys| {
        assert Mirrors(p);
        return node.value, Clean;
      }
      val, diag := SearchChildren(node, i, keys, p, m);
    }

    /** The part of recursiveGet below an existing inner node: the exact key, then the wildcard. */
    method SearchChildren(node: OverrideTrie<T>, i: nat, keys: KeyPath, ghost p: KeyPath, ghost m: TrieModel<T>)
      returns (val: Option<T>, diag: Diag)
      requires Valid() && m == Model() && |p| == i < |keys|
      requires p in nodes && nodes[p] == node && NodeExists(m.stored, p)
      modifies this`refuse
      ensures var r := Walk(m, old(refuse), p, keys); val == r.value && diag == r.diag && refuse == r.refuse
      decreases |keys| - i, 1
    {
      WalkSplit(m, refuse, p, keys);
      val, diag := SearchExact(node, i, keys, p, m);
      if diag != Clean || val.Some? {
        return;
      }
      val, diag := Visit(node, WILD, i, keys, p, m);
    }

    /** checkKey, and the search below the exact key. */
    method SearchExact(node: OverrideTrie<T>, i: nat, keys: KeyPath, ghost p: KeyPath, ghost m: TrieModel<T>)
      returns (val: Option<T>, diag: Diag)
      requires Valid() && m == Model() && |p| == i < |keys|
      requires p in nodes && nodes[p] == node
      modifies this`refuse
      ensures var r := WalkExact(m, old(refuse), p, keys); val == r.value && diag == r.diag && refuse == r.refuse
      decreases |keys| - i, 0
    {
      diag := CheckKeyFrom(node, i, keys[i], p);
      if diag != Clean {
        return None, diag;
      }
      val, diag := Visit(node, keys[i], i, keys, p, m);
    }

    /** recursiveGet on the child of a node at `k`. */
    method Visit(node: OverrideTrie<T>, k: InstanceKey, i: nat, keys: KeyPath, ghost p: KeyPath, ghost m: TrieModel<T>)
      returns (val: Option<T>, diag: Diag)
      requires Valid() && m == Model() && |p| == i < |keys|
      requires p in nodes && nodes[p] == node
      modifies this`refuse
      ensures var r := Walk(m, old(refuse), p + [k], keys); val == r.value && diag == r.diag && refuse == r.refuse
      decreases |keys| - i - 1, 3
    {
      var next := ChildOf(node, k, p);
      val, diag := RecursiveGet(next, i + 1, keys, p + [k], m);
    }

    /** Get, for an address of any depth; a panic is the diagnostic OutOfRange. */
    method Get(addr: AbsResourceInstance) returns (val: Option<T>, diag: Diag)
      requires Valid()
      modifies this`refuse
      ensures Result(val, diag, refuse) == GetResult(Model(), old(refuse), KeyList(addr))
    {
      if refuse {
        return None, Clean;
      }
      var keys := KeyList(addr);
      val, diag := RecursiveGet(this, 0, keys, [], Model());
    }
  }

  /** What recording the key at position `i` makes of the evidence table. */
  function KeyRecorded(evidence: seq<seq<nat>>, keys: KeyPath, i: nat, src: nat): Option<seq<seq<nat>>>
    requires i < |keys|
  {
    if keys[i] == NoKey then AddEvidence(evidence, |keys|, i, src) else Some(evidence)
  }

  lemma EvidenceStep(was: seq<seq<nat>>, evidence: seq<seq<nat>>, keys: KeyPath, i: nat, src: nat)
    requires i < |keys| && EvidenceAfter(was, keys, i, src) == Some(evidence)
    ensures EvidenceAfter(was, keys, i + 1, src) == KeyRecorded(evidence, keys, i, src)
  {
  }

  /** A table that could not record one key records none after it. */
  lemma {:induction false} EvidenceFails(was: seq<seq<nat>>, keys: KeyPath, i: nat, n: nat, src: nat)
    requires i <= n <= |keys| && EvidenceAfter(was, keys, i, src).None?
    ensures EvidenceAfter(was, keys, n, src).None?
  {
    if i < n {
      EvidenceFails(was, keys, i, n - 1, src);
    }
  }

  predicate PrefixOf(p: KeyPath, s: KeyPath) {
    p <= s
  }

  lemma WildcardInLonger(keys: KeyPath, i: nat)
    requires i < |keys|
    ensures UsesWildcard(keys[..i + 1]) <==> UsesWildcard(keys[..i]) || keys[i].WildcardKey?
  {
    var s, t := keys[..i], keys[..i + 1];
    assert t[i] == keys[i] && forall j :: 0 <= j < i ==> t[j] == s[j];
  }

  lemma PrefixesOfLonger(s: KeyPath, i: nat)
    requires i < |s|
    ensures forall p :: PrefixOf(p, s[..i + 1]) <==> PrefixOf(p, s[..i]) || p == s[..i + 1]
  {
    forall p ensures PrefixOf(p, s[..i + 1]) <==> PrefixOf(p, s[..i]) || p == s[..i + 1] {
      if p <= s[..i + 1] && |p| <= i {
        assert p == s[..i + 1][..|p|] == s[..i][..|p|];
      }
      if p <= s[..i] {
        assert p == s[..i][..|p|] == s[..i + 1][..|p|];
      }
    }
  }

  /** The nodes are the old ones and those on the way to `q`. */
  ghost predicate NodesUpTo<N>(was: map<KeyPath, N>, nodes: map<KeyPath, N>, q: KeyPath) {
    forall p :: p in nodes <==> p in was || PrefixOf(p, q)
  }

  lemma NodesUpToNext<N>(
      was: map<KeyPath, N>, before: map<KeyPath, N>, after: map<KeyPath, N>, pattern: KeyPath, i: nat)
    requires i < |pattern| && NodesUpTo(was, before, pattern[..i]) && Grown(before, after, pattern[..i + 1])
    ensures NodesUpTo(was, after, pattern[..i + 1])
  {
    PrefixesOfLonger(pattern, i);
  }

  /** Storing one more pattern adds exactly the nodes on its way. */
  lemma PrefixesAfterStore<T>(stored: map<KeyPath, T>, pattern: KeyPath, val: T)
    ensures forall p :: NodeExists(stored[pattern := val], p) <==> NodeExists(stored, p) || PrefixOf(p, pattern)
  {
    forall p ensures NodeExists(stored[pattern := val], p) <==> NodeExists(stored, p) || PrefixOf(p, pattern) {
      var after := stored[pattern := val];
      if p <= pattern {
        assert pattern in after;
      }
      if NodeExists(stored, p) && p != [] {
        var s :| s in stored && p <= s;
        assert s in after;
      }
    }
  }
}
