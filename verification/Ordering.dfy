/** The sort order of absolute resource instances: InstanceKeyLess, ModuleInstance.Less,
    Resource.Less and AbsResourceInstance.Less. */
module Ordering {
  import opened Addresses

  /** Go's string order: lexicographic by byte, which for valid UTF-8 is by scalar value. */
  predicate StringLess(a: string, b: string) {
    b != "" && (a == "" || a[0] < b[0] || (a[0] == b[0] && StringLess(a[1..], b[1..])))
  }

  /** The result of a comparison; comparing can fail a type assertion. */
  datatype Answer = Yes | No | Panics

  function Verdict(less: bool): Answer {
    if less then Yes else No
  }

  /** One says yes and the other no. */
  predicate Opposite(a: Answer, b: Answer) {
    (a == Yes && b == No) || (a == No && b == Yes)
  }

  /** The rune values of InstanceKeyType. */
  function KeyTypeCode(t: KeyType): int {
    match t
    case NoKeyType => 0
    case IntKeyType => 'I' as int
    case StringKeyType => 'S' as int
    case UnknownKeyType => '?' as int
  }

  /** instanceKeyType; a placeholder has the type it stands for. */
  function TypeCode(k: InstanceKey): int {
    match k
    case StringKey(_) => KeyTypeCode(StringKeyType)
    case IntKey(_) => KeyTypeCode(IntKeyType)
    case WildcardKey(t) => KeyTypeCode(t)
    case NoKey => KeyTypeCode(NoKeyType)
    case AnyKey => KeyTypeCode(NoKeyType)
  }

  function InstanceKeyLess(i: InstanceKey, j: InstanceKey): Answer {
    if i == j then No
    else if i == NoKey then Yes
    else if j == NoKey then No
    else if TypeCode(i) != TypeCode(j) then Verdict(TypeCode(i) < TypeCode(j))
    else if TypeCode(i) == KeyTypeCode(IntKeyType) then
      if i.IntKey? && j.IntKey? then Verdict(i.index < j.index) else Panics
    else if TypeCode(i) == KeyTypeCode(StringKeyType) then
      if i.StringKey? && j.StringKey? then Verdict(StringLess(i.text, j.text)) else Panics
    else No
  }

  /** Two keys that cannot be compared: one is a placeholder for a known type, the other a key of
      that type. */
  predicate Clash(i: InstanceKey, j: InstanceKey) {
    || (i == WildcardKey(IntKeyType) && j.IntKey?) || (i.IntKey? && j == WildcardKey(IntKeyType))
    || (i == WildcardKey(StringKeyType) && j.StringKey?) || (i.StringKey? && j == WildcardKey(StringKeyType))
  }

  /** ResourceModeLess */
  predicate ResourceModeLess(a: Mode, b: Mode) {
    match a
    case Managed => false
    case Data => b == Managed
    case Ephemeral => b == Managed || b == Data
  }

  predicate ResourceLess(r: Resource, o: Resource) {
    if r.mode != o.mode then ResourceModeLess(r.mode, o.mode)
    else if r.typeName != o.typeName then StringLess(r.typeName, o.typeName)
    else if r.name != o.name then StringLess(r.name, o.name)
    else false
  }

  function StepLess(a: Step, b: Step): Answer {
    if a.name != b.name then Verdict(StringLess(a.name, b.name))
    else if a.key != b.key then InstanceKeyLess(a.key, b.key)
    else No
  }

  /** Decided at the first step that differs. */
  function StepwiseLess(m: ModuleInstance, o: ModuleInstance): Answer
    requires |m| == |o|
  {
    if m == [] then No else if m[0] != o[0] then StepLess(m[0], o[0]) else StepwiseLess(m[1..], o[1..])
  }

  function PathLess(m: ModuleInstance, o: ModuleInstance): Answer {
    if |m| != |o| then Verdict(|m| < |o|) else StepwiseLess(m, o)
  }

  method PathLessScan(m: ModuleInstance, o: ModuleInstance) returns (less: Answer)
    ensures less == PathLess(m, o)
  {
    if |m| != |o| {
      return Verdict(|m| < |o|);
    }
    for i := 0 to |m|
      invariant PathLess(m, o) == StepwiseLess(m[i..], o[i..])
    {
      assert m[i..][1..] == m[i + 1..] && o[i..][1..] == o[i + 1..];
      if m[i].name != o[i].name {
        return Verdict(StringLess(m[i].name, o[i].name));
      }
      if m[i].key != o[i].key {
        return InstanceKeyLess(m[i].key, o[i].key);
      }
    }
    return No;
  }

  /** AbsResourceInstance.Less, through ResourceInstance.Less. */
  function Less(r: AbsResourceInstance, o: AbsResourceInstance): Answer {
    if r.path != o.path then PathLess(r.path, o.path)
    else if r.instance.resource != o.instance.resource then
      Verdict(ResourceLess(r.instance.resource, o.instance.resource))
    else if r.instance.key != o.instance.key then InstanceKeyLess(r.instance.key, o.instance.key)
    else No
  }

  // ---------------------------------------------------------------- string order

  lemma {:induction false} StringLessTotal(a: string, b: string)
    ensures StringLess(a, b) || StringLess(b, a) || a == b
    ensures !(StringLess(a, b) && StringLess(b, a))
    decreases |a| + |b|
  {
    if a != "" && b != "" && a[0] == b[0] {
      StringLessTotal(a[1..], b[1..]);
      assert a == [a[0]] + a[1..] && b == [b[0]] + b[1..];
    }
  }

  lemma {:induction false} StringLessTransitive(a: string, b: string, c: string)
    requires StringLess(a, b) && StringLess(b, c)
    ensures StringLess(a, c)
  {
    if a != "" && a[0] == b[0] == c[0] {
      StringLessTransitive(a[1..], b[1..], c[1..]);
    }
  }

  // ---------------------------------------------------------------- parts of an address

  /** On the keys an address can have, comparing fails exactly on a clash, and is a strict total order
      elsewhere: what the comparisons it can make say is never contradicted. */
  lemma KeyOrder(i: InstanceKey, j: InstanceKey, k: InstanceKey)
    requires i != AnyKey && j != AnyKey && k != AnyKey
    ensures InstanceKeyLess(i, i) == No
    ensures InstanceKeyLess(i, j) == Panics <==> Clash(i, j)
    ensures !Clash(i, j) && i != j ==> Opposite(InstanceKeyLess(i, j), InstanceKeyLess(j, i))
    ensures InstanceKeyLess(i, j) == Yes && InstanceKeyLess(j, k) == Yes ==> InstanceKeyLess(i, k) == Yes
  {
    if i.StringKey? && j.StringKey? {
      StringLessTotal(i.text, j.text);
      if k.StringKey? && StringLess(i.text, j.text) && StringLess(j.text, k.text) {
        StringLessTransitive(i.text, j.text, k.text);
        StringLessTotal(i.text, k.text);
      }
    }
  }

  lemma ResourceOrder(r: Resource, s: Resource, t: Resource)
    ensures ResourceLess(r, s) || ResourceLess(s, r) || r == s
    ensures !(ResourceLess(r, s) && ResourceLess(s, r)) && !ResourceLess(r, r)
    ensures ResourceLess(r, s) && ResourceLess(s, t) ==> ResourceLess(r, t)
  {
    StringLessTotal(r.typeName, s.typeName);
    StringLessTotal(r.name, s.name);
    StringLessTotal(s.typeName, t.typeName);
    if StringLess(r.typeName, s.typeName) && StringLess(s.typeName, t.typeName) {
      StringLessTransitive(r.typeName, s.typeName, t.typeName);
    }
    if StringLess(r.name, s.name) && StringLess(s.name, t.name) {
      StringLessTransitive(r.name, s.name, t.name);
    }
    StringLessTotal(r.typeName, t.typeName);
    StringLessTotal(r.name, t.name);
  }

  predicate StepClash(a: Step, b: Step) {
    a.name == b.name && Clash(a.key, b.key)
  }

  lemma StepOrder(a: Step, b: Step, c: Step)
    requires a.key != AnyKey && b.key != AnyKey && c.key != AnyKey
    ensures StepLess(a, b) == Panics <==> StepClash(a, b)
    ensures !StepClash(a, b) && a != b ==> Opposite(StepLess(a, b), StepLess(b, a))
    ensures StepLess(a, b) == Yes && StepLess(b, c) == Yes ==> StepLess(a, c) == Yes && a != c
  {
    KeyOrder(a.key, b.key, c.key);
    StringLessTotal(a.name, b.name);
    StringLessTotal(a.name, c.name);
    if StringLess(a.name, b.name) && StringLess(b.name, c.name) {
      StringLessTransitive(a.name, b.name, c.name);
    }
  }

  /** The first step where two paths differ. */
  predicate DifferAt(m: ModuleInstance, o: ModuleInstance, i: nat) {
    i < |m| && i < |o| && m[..i] == o[..i] && m[i] != o[i]
  }

  /** The paths clash at the first step that differs. */
  predicate PathsClash(m: ModuleInstance, o: ModuleInstance) {
    |m| == |o| && exists i: nat :: i < |m| && DifferAt(m, o, i) && StepClash(m[i], o[i])
  }

  /** Paths of one length are compared by the first step that differs. */
  lemma {:induction false} StepwiseAt(m: ModuleInstance, o: ModuleInstance, i: nat)
    requires |m| == |o| && DifferAt(m, o, i)
    ensures StepwiseLess(m, o) == StepLess(m[i], o[i]) && m != o
  {
    if i > 0 {
      assert m[..i][0] == o[..i][0];
      assert m[1..][..i - 1] == m[..i][1..] && o[1..][..i - 1] == o[..i][1..];
      StepwiseAt(m[1..], o[1..], i - 1);
    }
  }

  lemma {:induction false} FirstDifference(m: ModuleInstance, o: ModuleInstance) returns (i: nat)
    requires |m| == |o| && m != o
    ensures DifferAt(m, o, i)
  {
    if m[0] != o[0] {
      i := 0;
    } else {
      assert m == [m[0]] + m[1..] && o == [o[0]] + o[1..];
      i := FirstDifference(m[1..], o[1..]);
      i := i + 1;
      assert m[..i] == [m[0]] + m[1..][..i - 1] && o[..i] == [o[0]] + o[1..][..i - 1];
    }
  }

  lemma EqualBefore(m: ModuleInstance, o: ModuleInstance, i: nat)
    requires DifferAt(m, o, i)
    ensures forall k :: 0 <= k < i ==> m[k] == o[k]
  {
    forall k | 0 <= k < i ensures m[k] == o[k] {
      assert m[..i][k] == o[..i][k];
    }
  }

  lemma EqualPathsNotLess(m: ModuleInstance)
    ensures StepwiseLess(m, m) == No
  {
  }

  /** Paths of one length: comparing fails exactly when they clash, and decides otherwise. */
  lemma StepwiseTotal(m: ModuleInstance, o: ModuleInstance)
    requires |m| == |o| && ConcretePath(m) && ConcretePath(o)
    ensures StepwiseLess(m, o) == Panics <==> PathsClash(m, o)
    ensures PathsClash(m, o) ==> m != o
    ensures !PathsClash(m, o) && m != o ==> Opposite(StepwiseLess(m, o), StepwiseLess(o, m))
    ensures m == o ==> StepwiseLess(m, o) == No
  {
    if m == o {
      EqualPathsNotLess(m);
    } else {
      var i := FirstDifference(m, o);
      StepwiseAt(m, o, i);
      StepwiseAt(o, m, i);
      StepOrder(m[i], o[i], o[i]);
      StepOrder(o[i], m[i], m[i]);
      if PathsClash(m, o) {
        var j: nat :| j < |m| && DifferAt(m, o, j) && StepClash(m[j], o[j]);
        EqualBefore(m, o, i);
        EqualBefore(m, o, j);
        assert i == j;
      }
    }
  }

  lemma {:induction false} StepwiseTransitive(m: ModuleInstance, n: ModuleInstance, o: ModuleInstance)
    requires |m| == |n| == |o| && ConcretePath(m) && ConcretePath(n) && ConcretePath(o)
    requires StepwiseLess(m, n) == Yes && StepwiseLess(n, o) == Yes
    ensures StepwiseLess(m, o) == Yes
  {
    StepOrder(m[0], n[0], o[0]);
    if m[0] == n[0] == o[0] {
      StepwiseTransitive(m[1..], n[1..], o[1..]);
    }
  }

  lemma PathOrder(m: ModuleInstance, n: ModuleInstance, o: ModuleInstance)
    requires ConcretePath(m) && ConcretePath(n) && ConcretePath(o)
    ensures PathLess(m, m) == No
    ensures PathLess(m, n) == Panics <==> PathsClash(m, n)
    ensures PathsClash(m, n) ==> m != n
    ensures !PathsClash(m, n) && m != n ==> Opposite(PathLess(m, n), PathLess(n, m))
    ensures PathLess(m, n) == Yes && PathLess(n, o) == Yes ==> PathLess(m, o) == Yes && m != o
  {
    EqualPathsNotLess(m);
    if |m| == |n| {
      StepwiseTotal(m, n);
      if |n| == |o| && PathLess(m, n) == Yes && PathLess(n, o) == Yes {
        StepwiseTransitive(m, n, o);
      }
    }
  }

  // ---------------------------------------------------------------- the whole order

  /** No key of the address is the pattern-only one. */
  predicate Concrete(r: AbsResourceInstance) {
    ConcretePath(r.path) && r.instance.key != AnyKey
  }

  /** Two instances that cannot be compared: they first differ in keys that clash. */
  predicate Incomparable(a: AbsResourceInstance, b: AbsResourceInstance) {
    PathsClash(a.path, b.path) ||
    (a.path == b.path && a.instance.resource == b.instance.resource && Clash(a.instance.key, b.instance.key))
  }

  /** Less is a strict total order consistent with equality on instances that can be compared, and
      fails exactly on those that cannot. */
  lemma LessIsStrictTotalOrder(a: AbsResourceInstance, b: AbsResourceInstance, c: AbsResourceInstance)
    requires Concrete(a) && Concrete(b) && Concrete(c)
    ensures Less(a, a) == No
    ensures Less(a, b) == Panics <==> Incomparable(a, b)
    ensures !Incomparable(a, b) && a != b ==> Opposite(Less(a, b), Less(b, a))
    ensures Less(a, b) == Yes && Less(b, c) == Yes ==> Less(a, c) == Yes
  {
    PathOrder(a.path, b.path, c.path);
    ResourceOrder(a.instance.resource, b.instance.resource, c.instance.resource);
    KeyOrder(a.instance.key, b.instance.key, c.instance.key);
  }

  /** Two keys a comparison fails on: the placeholder for indexes, and an index. */
  lemma PlaceholderCannotBeCompared(r: AbsResource)
    ensures Less(r.Instance(WildcardKey(IntKeyType)), r.Instance(IntKey(0))) == Panics
  {
  }

  // ---------------------------------------------------------------- the order as one comparison

  /** Lexicographic order. */
  predicate Below(a: seq<int>, b: seq<int>) {
    b != [] && (a == [] || a[0] < b[0] || (a[0] == b[0] && Below(a[1..], b[1..])))
  }

  /** The characters of a text, each counted from one, and a zero to end it. */
  function TextKey(t: string): seq<int> {
    if t == "" then [0] else [t[0] as int + 1] + TextKey(t[1..])
  }

  /** No key, a placeholder for no key, a placeholder for any, indexes, names. */
  function KeyKey(k: InstanceKey): seq<int> {
    match k
    case NoKey => [0]
    case AnyKey => [1, 0]
    case WildcardKey(NoKeyType) => [1, 0]
    case WildcardKey(UnknownKeyType) => [1, 1]
    case WildcardKey(IntKeyType) => [1, 2]
    case IntKey(i) => [1, 2, i]
    case WildcardKey(StringKeyType) => [1, 3]
    case StringKey(t) => [1, 3] + TextKey(t)
  }

  function ModeKey(m: Mode): seq<int> {
    match m
    case Ephemeral => [0]
    case Data => [1]
    case Managed => [2]
  }

  function StepsKey(m: ModuleInstance): seq<int> {
    if m == [] then [] else (TextKey(m[0].name) + KeyKey(m[0].key)) + StepsKey(m[1..])
  }

  function ResourceKey(r: Resource): seq<int> {
    ModeKey(r.mode) + (TextKey(r.typeName) + TextKey(r.name))
  }

  /** The number of modules, the modules from the outside in, and then mode, type, name and key. */
  function SortKey(a: AbsResourceInstance): seq<int> {
    ([|a.path|] + StepsKey(a.path)) + (ResourceKey(a.instance.resource) + KeyKey(a.instance.key))
  }

  /** The two differ before either ends. */
  predicate Apart(a: seq<int>, b: seq<int>) {
    a != [] && b != [] && (a[0] != b[0] || Apart(a[1..], b[1..]))
  }

  /** The sort keys `a` and `b` say what a comparison does: the same things have the same key, and
      others have keys of which neither is a prefix of the other. */
  predicate Says(a: seq<int>, b: seq<int>, less: bool, same: bool) {
    (if same then a == b else Apart(a, b)) && (less <==> Below(a, b))
  }

  lemma {:induction false} BelowItself(a: seq<int>)
    ensures !Below(a, a)
  {
    if a != [] {
      BelowItself(a[1..]);
    }
  }

  lemma {:induction false} BelowAfterSame(front: seq<int>, a: seq<int>, b: seq<int>)
    ensures Below(front + a, front + b) == Below(a, b) && (Apart(a, b) ==> Apart(front + a, front + b))
  {
    if front == [] {
      assert front + a == a && front + b == b;
    } else {
      BelowAfterSame(front[1..], a, b);
      assert (front + a)[1..] == front[1..] + a && (front + b)[1..] == front[1..] + b;
    }
  }

  lemma {:induction false} BelowWhenApart(a: seq<int>, b: seq<int>, a': seq<int>, b': seq<int>)
    requires Apart(a, b)
    ensures Below(a + a', b + b') == Below(a, b) && Apart(a + a', b + b')
  {
    if a[0] == b[0] {
      BelowWhenApart(a[1..], b[1..], a', b');
    }
    assert (a + a')[1..] == a[1..] + a' && (b + b')[1..] == b[1..] + b';
  }

  /** Keys one after the other say: decided by the first parts unless they are the same. */
  lemma SaysBoth(
      a: seq<int>, b: seq<int>, less: bool, same: bool, a': seq<int>, b': seq<int>, less': bool, same': bool)
    requires Says(a, b, less, same) && (same ==> Says(a', b', less', same'))
    ensures Says(a + a', b + b', less || (same && less'), same && same')
  {
    if same {
      BelowItself(a);
      BelowAfterSame(a, a', b');
    } else {
      BelowWhenApart(a, b, a', b');
    }
  }

  lemma {:induction false} TextSays(s: string, t: string)
    ensures Says(TextKey(s), TextKey(t), StringLess(s, t), s == t)
  {
    if s != "" && t != "" {
      TextSays(s[1..], t[1..]);
      assert s == [s[0]] + s[1..] && t == [t[0]] + t[1..];
      assert TextKey(s)[1..] == TextKey(s[1..]) && TextKey(t)[1..] == TextKey(t[1..]);
    }
  }

  lemma KeySays(i: InstanceKey, j: InstanceKey)
    requires i != AnyKey && j != AnyKey && InstanceKeyLess(i, j) != Panics
    ensures Says(KeyKey(i), KeyKey(j), InstanceKeyLess(i, j) == Yes, i == j)
  {
    var a, b := KeyKey(i), KeyKey(j);
    if i.StringKey? && j.StringKey? {
      TextSays(i.text, j.text);
      BelowAfterSame([1, 3], TextKey(i.text), TextKey(j.text));
    } else if i.IntKey? && j.IntKey? {
      BelowAfterSame([1, 2], [i.index], [j.index]);
      assert a == [1, 2] + [i.index] && b == [1, 2] + [j.index];
    } else if a[0] == b[0] == 1 {
      assert a[1..][0] == a[1] && b[1..][0] == b[1];
    }
    if i == j {
      BelowItself(a);
    }
  }

  lemma StepSays(s: Step, t: Step)
    requires s.key != AnyKey && t.key != AnyKey && StepLess(s, t) != Panics
    ensures Says(TextKey(s.name) + KeyKey(s.key), TextKey(t.name) + KeyKey(t.key), StepLess(s, t) == Yes, s == t)
  {
    var i, j := s.key, t.key;
    TextSays(s.name, t.name);
    StringLessTotal(s.name, t.name);
    if s.name == t.name {
      KeySays(i, j);
    }
    SaysBoth(TextKey(s.name), TextKey(t.name), StringLess(s.name, t.name), s.name == t.name,
             KeyKey(i), KeyKey(j), InstanceKeyLess(i, j) == Yes, i == j);
  }

  lemma {:induction false} StepsSay(m: ModuleInstance, o: ModuleInstance)
    requires |m| == |o| && ConcretePath(m) && ConcretePath(o) && StepwiseLess(m, o) != Panics
    ensures Says(StepsKey(m), StepsKey(o), StepwiseLess(m, o) == Yes, m == o)
  {
    if m != [] {
      var s, t := m[0], o[0];
      assert m == [s] + m[1..] && o == [t] + o[1..];
      StepOrder(s, t, t);
      if s == t {
        StepsSay(m[1..], o[1..]);
        BelowItself(TextKey(s.name) + KeyKey(s.key));
      } else {
        StepSays(s, t);
      }
      SaysBoth(TextKey(s.name) + KeyKey(s.key), TextKey(t.name) + KeyKey(t.key), StepLess(s, t) == Yes, s == t,
               StepsKey(m[1..]), StepsKey(o[1..]), StepwiseLess(m[1..], o[1..]) == Yes, m[1..] == o[1..]);
    }
  }

  lemma PathSays(m: ModuleInstance, o: ModuleInstance)
    requires ConcretePath(m) && ConcretePath(o) && PathLess(m, o) != Panics
    ensures Says([|m|] + StepsKey(m), [|o|] + StepsKey(o), PathLess(m, o) == Yes, m == o)
  {
    if |m| == |o| {
      StepsSay(m, o);
      SaysBoth([|m|], [|o|], false, true, StepsKey(m), StepsKey(o), StepwiseLess(m, o) == Yes, m == o);
    } else {
      BelowWhenApart([|m|], [|o|], StepsKey(m), StepsKey(o));
    }
  }

  lemma ResourceSays(r: Resource, o: Resource)
    ensures Says(ResourceKey(r), ResourceKey(o), ResourceLess(r, o), r == o)
  {
    TextSays(r.typeName, o.typeName);
    TextSays(r.name, o.name);
    StringLessTotal(r.typeName, o.typeName);
    StringLessTotal(r.name, o.name);
    SaysBoth(TextKey(r.typeName), TextKey(o.typeName), StringLess(r.typeName, o.typeName), r.typeName == o.typeName,
             TextKey(r.name), TextKey(o.name), StringLess(r.name, o.name), r.name == o.name);
    SaysBoth(ModeKey(r.mode), ModeKey(o.mode), ResourceModeLess(r.mode, o.mode), r.mode == o.mode,
             TextKey(r.typeName) + TextKey(r.name), TextKey(o.typeName) + TextKey(o.name),
             StringLess(r.typeName, o.typeName) || (r.typeName == o.typeName && StringLess(r.name, o.name)),
             r.typeName == o.typeName && r.name == o.name);
  }

  lemma InstanceSays(r: ResourceInstance, o: ResourceInstance)
    requires r.key != AnyKey && o.key != AnyKey
    requires r.resource == o.resource ==> InstanceKeyLess(r.key, o.key) != Panics
    ensures Says(ResourceKey(r.resource) + KeyKey(r.key), ResourceKey(o.resource) + KeyKey(o.key),
                 ResourceLess(r.resource, o.resource) ||
                 (r.resource == o.resource && InstanceKeyLess(r.key, o.key) == Yes),
                 r == o)
  {
    ResourceSays(r.resource, o.resource);
    if r.resource == o.resource {
      KeySays(r.key, o.key);
    }
    SaysBoth(ResourceKey(r.resource), ResourceKey(o.resource), ResourceLess(r.resource, o.resource),
             r.resource == o.resource,
             KeyKey(r.key), KeyKey(o.key), InstanceKeyLess(r.key, o.key) == Yes, r.key == o.key);
  }

  /** On instances that can be compared Less is lexicographic order of sort keys: fewer modules first,
      then module by module the name and the key, then mode, type, name and key. Names are ordered
      by characters and indexes as numbers; no key comes before indexes and those before names; ephemeral
      resources come before data resources and those before managed ones. */
  lemma LessIsBelow(a: AbsResourceInstance, b: AbsResourceInstance)
    requires Concrete(a) && Concrete(b) && !Incomparable(a, b)
    ensures Less(a, b) == Yes <==> Below(SortKey(a), SortKey(b))
    ensures SortKey(a) == SortKey(b) <==> a == b
  {
    LessIsStrictTotalOrder(a, b, b);
    var r, o := a.instance, b.instance;
    PathOrder(a.path, b.path, b.path);
    ResourceOrder(r.resource, o.resource, o.resource);
    PathSays(a.path, b.path);
    if a.path == b.path {
      InstanceSays(r, o);
    }
    SaysBoth([|a.path|] + StepsKey(a.path), [|b.path|] + StepsKey(b.path), PathLess(a.path, b.path) == Yes,
             a.path == b.path,
             ResourceKey(r.resource) + KeyKey(r.key), ResourceKey(o.resource) + KeyKey(o.key),
             ResourceLess(r.resource, o.resource) || (r.resource == o.resource && InstanceKeyLess(r.key, o.key) == Yes),
             r == o);
    if Apart(SortKey(a), SortKey(b)) {
      ApartDiffer(SortKey(a), SortKey(b));
    }
  }

  lemma {:induction false} ApartDiffer(a: seq<int>, b: seq<int>)
    requires Apart(a, b)
    ensures a != b
  {
    if a[0] == b[0] {
      ApartDiffer(a[1..], b[1..]);
    }
  }
}
