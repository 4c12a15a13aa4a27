/** Address text: the String methods, a reference lexer for the traversals they print, and the
    traversal parsers (module.go, module_instance.go, resource.go, parse_target.go). */
module AddressText {
  import opened Addresses
  import opened Quoting

  const MIN_INT: int := -0x8000_0000_0000_0000
  const MAX_INT: int := 0x7fff_ffff_ffff_ffff

  /** The character classes the text depends on: unicode.IsPrint and the identifier classes of
      the HCL Native Syntax Specification. */
  datatype Lexicon = Lexicon(isPrint: char -> bool, idStart: char -> bool, idPart: char -> bool) {
    ghost predicate Valid() {
      && isPrint('{')
      && (forall c :: idStart(c) ==> idPart(c))
      && (forall c :: 'a' <= c <= 'z' ==> idStart(c))
      && !idPart('.') && !idPart('[')
    }

    predicate Identifier(name: string) {
      name != "" && idStart(name[0]) && forall i :: 0 <= i < |name| ==> idPart(name[i])
    }
  }

  // ---------------------------------------------------------------- printing

  /** InstanceKey.String, with the empty string for NoKey. */
  function KeyText(lex: Lexicon, k: InstanceKey): string {
    match k
    case NoKey => ""
    case IntKey(i) => "[" + DecimalInt(i) + "]"
    case StringKey(s) => "[" + Quoted(lex.isPrint, s) + "]"
    case WildcardKey(_) => "[*]"
    case AnyKey => "[*]"
  }

  /** Every step of a module path, each one led by a dot. */
  function DottedPath(lex: Lexicon, m: ModuleInstance): string {
    if m == [] then "" else ".module." + m[0].name + KeyText(lex, m[0].key) + DottedPath(lex, m[1..])
  }

  function ModuleText(lex: Lexicon, m: ModuleInstance): string {
    if m == [] then "" else DottedPath(lex, m)[1..]
  }

  method ModuleInstanceString(lex: Lexicon, m: ModuleInstance) returns (out: string)
    ensures out == ModuleText(lex, m)
  {
    if |m| == 0 {
      return "";
    }
    out := "";
    var sep := "";
    ghost var all := DottedPath(lex, m);
    for i := 0 to |m|
      invariant if i == 0 then out == sep == "" else sep == "." && "." + out + DottedPath(lex, m[i..]) == all
    {
      assert m[i..][1..] == m[i + 1..];
      ghost var before, key, rest := out + sep, KeyText(lex, m[i].key), DottedPath(lex, m[i + 1..]);
      out := out + sep;
      out := out + "module.";
      out := out + m[i].name;
      if m[i].key != NoKey {
        out := out + KeyText(lex, m[i].key);
      }
      sep := ".";
      DotsMove(before, i == 0, m[i].name, key, rest);
      assert out == before + "module." + m[i].name + key;
    }
    assert m[|m|..] == [];
    DropDot(out, all);
  }

  lemma DropDot(out: string, all: string)
    requires "." + out + "" == all
    ensures out == all[1..]
  {
  }

  /** A leading dot may be written before or after what has been printed so far. */
  lemma DotsMove(before: string, first: bool, name: string, key: string, rest: string)
    requires if first then before == "" else before != "" && before[|before| - 1] == '.'
    ensures var out := before + "module." + name + key;
            var step := ".module." + name + key + rest;
            if first then "." + out + rest == step
            else "." + out + rest == "." + before[..|before| - 1] + step
  {
  }

  function ResourceText(r: Resource): string {
    match r.mode
    case Managed => r.typeName + "." + r.name
    case Data => "data." + r.typeName + "." + r.name
    case Ephemeral => "ephemeral." + r.typeName + "." + r.name
  }

  function InstanceText(lex: Lexicon, a: AbsResourceInstance): string {
    var rel := ResourceText(a.instance.resource) + KeyText(lex, a.instance.key);
    if a.path == [] then rel else ModuleText(lex, a.path) + "." + rel
  }

  function AbsResourceText(lex: Lexicon, r: AbsResource): string {
    if r.path == [] then ResourceText(r.resource) else ModuleText(lex, r.path) + "." + ResourceText(r.resource)
  }

  // ---------------------------------------------------------------- traversals

  datatype IndexValue = Text(s: string) | Number(n: int)

  datatype TraverseStep = Root(name: string) | Attr(name: string) | Index(key: IndexValue) | Splat {
    predicate IsName() {
      Root? || Attr?
    }
  }

  type Traversal = seq<TraverseStep>

  function IdentLength(lex: Lexicon, s: string): (n: nat)
    ensures n <= |s| && forall i :: 0 <= i < n ==> lex.idPart(s[i])
  {
    if s == "" || !lex.idPart(s[0]) then 0 else 1 + IdentLength(lex, s[1..])
  }

  function DigitsLength(s: string): (n: nat)
    ensures n <= |s| && forall i :: 0 <= i < n ==> IsDigit(s[i])
  {
    if s == "" || !IsDigit(s[0]) then 0 else 1 + DigitsLength(s[1..])
  }

  function LexNumber(s: string, sign: int): (r: Option<(TraverseStep, string)>)
    ensures r.Some? ==> |r.value.1| < |s|
  {
    var n := DigitsLength(s);
    if 0 < n < |s| && s[n] == ']' then Some((Index(Number(sign * FromDecimal(s[..n]))), s[n + 1..])) else None
  }

  /** An index that starts after its opening bracket. The HCL grammar has no negative index;
      `signed` adds one, because keys can print that way. */
  function LexIndex(signed: bool, s: string): (r: Option<(TraverseStep, string)>)
    ensures r.Some? ==> |r.value.1| < |s|
  {
    if s == "" then None
    else if s[0] == '"' then
      match Unquote(s[1..])
      case Some((text, rest)) => if rest != "" && rest[0] == ']' then Some((Index(Text(text)), rest[1..])) else None
      case None => None
    else if s[0] == '*' then
      if |s| > 1 && s[1] == ']' then Some((Splat, s[2..])) else None
    else if signed && s[0] == '-' then LexNumber(s[1..], -1)
    else LexNumber(s, 1)
  }

  /** Everything after the root name: dotted names and bracketed indexes. */
  function LexSteps(lex: Lexicon, signed: bool, s: string): Option<Traversal>
    decreases |s|
  {
    if s == "" then Some([])
    else if s[0] == '.' then
      var n := IdentLength(lex, s[1..]);
      if n == 0 || !lex.idStart(s[1]) then None
      else
        match LexSteps(lex, signed, s[1 + n..])
        case Some(steps) => Some([Attr(s[1..1 + n])] + steps)
        case None => None
    else if s[0] == '[' then
      match LexIndex(signed, s[1..])
      case None => None
      case Some((step, rest)) =>
        match LexSteps(lex, signed, rest)
        case Some(steps) => Some([step] + steps)
        case None => None
    else None
  }

  /** An absolute traversal: a root name, then steps. */
  function LexAddress(lex: Lexicon, s: string): Option<Traversal> {
    match LexSteps(lex, false, "." + s)
    case Some(steps) => Some(Rooted(steps))
    case None => None
  }

  /** Parsers normalise the first name of a traversal to a root. */
  function Rooted(t: Traversal): Traversal {
    if t != [] && t[0].Attr? then [Root(t[0].name)] + t[1..] else t
  }

  // ---------------------------------------------------------------- steps of an address

  function KeySteps(k: InstanceKey): Traversal {
    match k
    case NoKey => []
    case IntKey(i) => [Index(Number(i))]
    case StringKey(s) => [Index(Text(s))]
    case WildcardKey(_) => [Splat]
    case AnyKey => [Splat]
  }

  function PathSteps(m: ModuleInstance): Traversal {
    if m == [] then [] else [Attr("module"), Attr(m[0].name)] + KeySteps(m[0].key) + PathSteps(m[1..])
  }

  function ResourceSteps(r: Resource): Traversal {
    match r.mode
    case Managed => [Attr(r.typeName), Attr(r.name)]
    case Data => [Attr("data"), Attr(r.typeName), Attr(r.name)]
    case Ephemeral => [Attr("ephemeral"), Attr(r.typeName), Attr(r.name)]
  }

  function AddressSteps(a: AbsResourceInstance): Traversal {
    PathSteps(a.path) + (ResourceSteps(a.instance.resource) + KeySteps(a.instance.key))
  }

  function StepText(lex: Lexicon, t: TraverseStep): string {
    match t
    case Root(n) => n
    case Attr(n) => "." + n
    case Index(Text(s)) => "[" + Quoted(lex.isPrint, s) + "]"
    case Index(Number(n)) => "[" + DecimalInt(n) + "]"
    case Splat => "[*]"
  }

  function TraversalText(lex: Lexicon, t: Traversal): string {
    if t == [] then "" else StepText(lex, t[0]) + TraversalText(lex, t[1..])
  }

  lemma {:induction false} TraversalTextConcat(lex: Lexicon, a: Traversal, b: Traversal)
    ensures TraversalText(lex, a + b) == TraversalText(lex, a) + TraversalText(lex, b)
  {
    if a == [] {
      assert a + b == b;
    } else {
      assert (a + b)[1..] == a[1..] + b;
      TraversalTextConcat(lex, a[1..], b);
    }
  }

  lemma KeyStepsText(lex: Lexicon, k: InstanceKey)
    ensures TraversalText(lex, KeySteps(k)) == KeyText(lex, k)
  {
  }

  lemma TwoNamesText(lex: Lexicon, a: string, b: string)
    ensures TraversalText(lex, [Attr(a), Attr(b)]) == "." + (a + "." + b)
  {
    var t, u := [Attr(a), Attr(b)], [Attr(b)];
    assert t[1..] == u && u[1..] == [];
    assert TraversalText(lex, u) == "." + b + "";
    assert TraversalText(lex, t) == "." + a + TraversalText(lex, u);
    assert "." + a + ("." + b + "") == "." + (a + "." + b);
  }

  lemma {:induction false} PathStepsText(lex: Lexicon, m: ModuleInstance)
    ensures TraversalText(lex, PathSteps(m)) == DottedPath(lex, m)
  {
    if m != [] {
      var head, key := [Attr("module"), Attr(m[0].name)], KeySteps(m[0].key);
      TraversalTextConcat(lex, head + key, PathSteps(m[1..]));
      TraversalTextConcat(lex, head, key);
      TwoNamesText(lex, "module", m[0].name);
      assert "." + ("module" + "." + m[0].name) == ".module." + m[0].name;
      KeyStepsText(lex, m[0].key);
      PathStepsText(lex, m[1..]);
    }
  }

  lemma ResourceStepsText(lex: Lexicon, r: Resource)
    ensures TraversalText(lex, ResourceSteps(r)) == "." + ResourceText(r)
  {
    TwoNamesText(lex, r.typeName, r.name);
    if r.mode != Managed {
      var word := if r.mode == Data then "data" else "ephemeral";
      var t := ResourceSteps(r);
      assert t == [Attr(word)] + [Attr(r.typeName), Attr(r.name)];
      TraversalTextConcat(lex, [Attr(word)], [Attr(r.typeName), Attr(r.name)]);
      assert [Attr(word)][1..] == [];
      assert TraversalText(lex, [Attr(word)]) == "." + word + "" == "." + word;
      ThreeNames(word, r.typeName, r.name);
      assert r.mode == Data ==> "data" + "." == "data.";
      assert r.mode == Ephemeral ==> "ephemeral" + "." == "ephemeral.";
    }
  }

  lemma ThreeNames(a: string, b: string, c: string)
    ensures "." + a + ("." + (b + "." + c)) == "." + (a + "." + b + "." + c)
  {
  }

  lemma MoveDot(path: string, res: string, key: string)
    requires path != "" ==> path[0] == '.'
    ensures path + ("." + res + key) ==
            if path == "" then "." + (res + key) else "." + (path[1..] + "." + (res + key))
  {
  }

  /** The printed address is its traversal's text without the leading dot. */
  lemma AddressStepsText(lex: Lexicon, a: AbsResourceInstance)
    ensures "." + InstanceText(lex, a) == TraversalText(lex, AddressSteps(a))
  {
    var res, key := ResourceSteps(a.instance.resource), KeySteps(a.instance.key);
    TraversalTextConcat(lex, PathSteps(a.path), res + key);
    TraversalTextConcat(lex, res, key);
    PathStepsText(lex, a.path);
    ResourceStepsText(lex, a.instance.resource);
    KeyStepsText(lex, a.instance.key);
    DottedPathStart(lex, a.path);
    MoveDot(DottedPath(lex, a.path), ResourceText(a.instance.resource), KeyText(lex, a.instance.key));
  }

  lemma DottedPathStart(lex: Lexicon, m: ModuleInstance)
    ensures m == [] <==> DottedPath(lex, m) == ""
    ensures m != [] ==> DottedPath(lex, m)[0] == '.'
  {
  }

  // ---------------------------------------------------------------- lexing printed text

  predicate ReadableStep(lex: Lexicon, signed: bool, t: TraverseStep) {
    match t
    case Root(_) => false
    case Attr(n) => lex.Identifier(n)
    case Index(Number(n)) => signed || n >= 0
    case Index(Text(_)) => true
    case Splat => true
  }

  predicate ReadableTail(lex: Lexicon, signed: bool, t: Traversal) {
    forall i :: 0 <= i < |t| ==> ReadableStep(lex, signed, t[i])
  }

  lemma {:induction false} IdentLengthExact(lex: Lexicon, name: string, rest: string)
    requires forall i :: 0 <= i < |name| ==> lex.idPart(name[i])
    requires rest != "" ==> !lex.idPart(rest[0])
    ensures IdentLength(lex, name + rest) == |name|
  {
    if name == "" {
      assert name + rest == rest;
    } else {
      assert (name + rest)[1..] == name[1..] + rest;
      IdentLengthExact(lex, name[1..], rest);
    }
  }

  lemma {:induction false} DigitsLengthExact(digits: string, rest: string)
    requires forall i :: 0 <= i < |digits| ==> IsDigit(digits[i])
    requires rest != "" ==> !IsDigit(rest[0])
    ensures DigitsLength(digits + rest) == |digits|
  {
    if digits == "" {
      assert digits + rest == rest;
    } else {
      assert (digits + rest)[1..] == digits[1..] + rest;
      DigitsLengthExact(digits[1..], rest);
    }
  }

  lemma LexPrintedText(lex: Lexicon, signed: bool, v: string, rest: string)
    requires lex.Valid()
    ensures LexIndex(signed, Quoted(lex.isPrint, v) + "]" + rest) == Some((Index(Text(v)), rest))
  {
    var s := Quoted(lex.isPrint, v) + "]" + rest;
    var body := QuoteBody(lex.isPrint, v);
    QuoteRoundTrip(lex.isPrint, v, "]" + rest);
    TextIndexShape(body, rest);
    assert Unquote(s[1..]) == Some((v, "]" + rest));
    assert ("]" + rest)[1..] == rest;
  }

  lemma TextIndexShape(body: string, rest: string)
    ensures var s := ("\"" + body + "\"") + "]" + rest;
            s[0] == '"' && s[1..] == body + "\"" + ("]" + rest)
  {
  }

  lemma NumberShape(digits: string, rest: string)
    ensures var s := digits + "]" + rest;
            && s == digits + ("]" + rest)
            && s[..|digits|] == digits && s[|digits|] == ']' && s[|digits| + 1..] == rest
  {
  }

  lemma LexDigitText(digits: string, sign: int, rest: string)
    requires digits != "" && forall i :: 0 <= i < |digits| ==> IsDigit(digits[i])
    ensures LexNumber(digits + "]" + rest, sign) == Some((Index(Number(sign * FromDecimal(digits))), rest))
  {
    NumberShape(digits, rest);
    DigitsLengthExact(digits, "]" + rest);
  }

  lemma LexDigits(n: nat, sign: int, rest: string)
    ensures LexNumber(Decimal(n) + "]" + rest, sign) == Some((Index(Number(sign * n)), rest))
  {
    DecimalRoundTrip(n);
    LexDigitText(Decimal(n), sign, rest);
  }

  lemma LexPrintedNumber(signed: bool, n: int, rest: string)
    requires signed || n >= 0
    ensures LexIndex(signed, DecimalInt(n) + "]" + rest) == Some((Index(Number(n)), rest))
  {
    if n < 0 {
      LexDigits(-n, -1, rest);
      var s, body := "-" + Decimal(-n) + "]" + rest, Decimal(-n) + "]" + rest;
      assert s == "-" + body;
      assert s[1..] == body;
    } else {
      LexDigits(n, 1, rest);
      var s, digits := Decimal(n) + "]" + rest, Decimal(n);
      assert s[0] == digits[0] && IsDigit(digits[0]);
    }
  }

  lemma LexPrintedSplat(signed: bool, rest: string)
    ensures LexIndex(signed, "*]" + rest) == Some((Splat, rest))
  {
    var s := "*]" + rest;
    assert s[0] == '*' && s[1] == ']' && s[2..] == rest;
  }

  lemma BracketShape(inner: string, rest: string)
    ensures var s := ("[" + inner + "]") + rest; s[0] == '[' && s[1..] == inner + "]" + rest
  {
  }

  /** A printed index lexes back to itself and stops at its closing bracket. */
  lemma LexPrintedIndex(lex: Lexicon, signed: bool, t: TraverseStep, rest: string)
    requires lex.Valid() && !t.IsName() && ReadableStep(lex, signed, t)
    ensures var s := StepText(lex, t) + rest; s[0] == '[' && LexIndex(signed, s[1..]) == Some((t, rest))
  {
    match t
    case Splat => assert ("[*]" + rest)[1..] == "*]" + rest; LexPrintedSplat(signed, rest);
    case Index(Text(v)) => BracketShape(Quoted(lex.isPrint, v), rest); LexPrintedText(lex, signed, v, rest);
    case Index(Number(n)) => BracketShape(DecimalInt(n), rest); LexPrintedNumber(signed, n, rest);
  }

  lemma LexNameStep(lex: Lexicon, signed: bool, name: string, rest: string, steps: Traversal)
    requires lex.Identifier(name) && (rest != "" ==> !lex.idPart(rest[0]))
    requires LexSteps(lex, signed, rest) == Some(steps)
    ensures LexSteps(lex, signed, "." + name + rest) == Some([Attr(name)] + steps)
  {
    var s := "." + name + rest;
    assert s[1..] == name + rest && s[1] == name[0];
    IdentLengthExact(lex, name, rest);
    assert s[1..1 + |name|] == name && s[1 + |name|..] == rest;
  }

  lemma LexIndexStep(lex: Lexicon, signed: bool, s: string, t: TraverseStep, rest: string, steps: Traversal)
    requires s != "" && s[0] == '[' && LexIndex(signed, s[1..]) == Some((t, rest))
    requires LexSteps(lex, signed, rest) == Some(steps)
    ensures LexSteps(lex, signed, s) == Some([t] + steps)
  {
  }

  lemma TraversalTextStart(lex: Lexicon, t: Traversal)
    requires forall i :: 0 <= i < |t| ==> !t[i].Root?
    ensures var s := TraversalText(lex, t); s != "" ==> s[0] == '.' || s[0] == '['
  {
  }

  lemma ReadableTailHasNoRoot(lex: Lexicon, signed: bool, t: Traversal)
    requires ReadableTail(lex, signed, t)
    ensures forall i :: 0 <= i < |t| ==> !t[i].Root?
  {
    forall i | 0 <= i < |t| ensures !t[i].Root? {
      assert ReadableStep(lex, signed, t[i]);
    }
  }

  /** One printed step reads back as itself in front of a tail that reads back. */
  lemma LexPrintedStep(lex: Lexicon, signed: bool, s: TraverseStep, tail: Traversal)
    requires lex.Valid() && ReadableStep(lex, signed, s) && ReadableTail(lex, signed, tail)
    requires LexSteps(lex, signed, TraversalText(lex, tail)) == Some(tail)
    ensures LexSteps(lex, signed, StepText(lex, s) + TraversalText(lex, tail)) == Some([s] + tail)
  {
    var rest := TraversalText(lex, tail);
    if s.IsName() {
      ReadableTailHasNoRoot(lex, signed, tail);
      TraversalTextStart(lex, tail);
      LexNameStep(lex, signed, s.name, rest, tail);
    } else {
      LexPrintedIndex(lex, signed, s, rest);
      LexIndexStep(lex, signed, StepText(lex, s) + rest, s, rest, tail);
    }
  }

  lemma LexPrintedCons(lex: Lexicon, signed: bool, t: Traversal)
    requires lex.Valid() && t != [] && ReadableTail(lex, signed, t)
    requires LexSteps(lex, signed, TraversalText(lex, t[1..])) == Some(t[1..])
    ensures LexSteps(lex, signed, TraversalText(lex, t)) == Some(t)
  {
    LexPrintedStep(lex, signed, t[0], t[1..]);
    assert [t[0]] + t[1..] == t;
  }

  /** The lexer undoes the printer on every tail of names and indexes. */
  lemma {:induction false} LexPrintedSteps(lex: Lexicon, signed: bool, t: Traversal)
    requires lex.Valid() && ReadableTail(lex, signed, t)
    ensures LexSteps(lex, signed, TraversalText(lex, t)) == Some(t)
    decreases |t|
  {
    if t != [] {
      LexPrintedSteps(lex, signed, t[1..]);
      LexPrintedCons(lex, signed, t);
    }
  }

  // ---------------------------------------------------------------- parsing

  datatype ModuleName = NotModule | Named(name: string) | BadName

  /** getModuleName */
  function GetModuleName(remain: Traversal): ModuleName {
    if remain == [] then NotModule
    else if !remain[0].IsName() then BadName
    else if remain[0].name != "module" then NotModule
    else if |remain| < 2 || !remain[1].Attr? then BadName
    else Named(remain[1].name)
  }

  /** An index as an instance key; a number must fit a Go int. */
  function KeyOfIndex(v: IndexValue): Option<InstanceKey> {
    match v
    case Text(s) => Some(StringKey(s))
    case Number(n) => if MIN_INT <= n <= MAX_INT then Some(IntKey(n)) else None
  }

  datatype Prefix = Prefix(path: ModuleInstance, remain: Traversal) | PrefixError {
    function Prepend(front: ModuleInstance): Prefix {
      match this
      case PrefixError => PrefixError
      case Prefix(p, r) => Prefix(front + p, r)
    }
  }

  /** The module steps at the front of a traversal, before the remainder is normalised. */
  function PrefixOf(t: Traversal, allowRanges: bool): Prefix {
    match GetModuleName(t)
    case NotModule => Prefix([], t)
    case BadName => PrefixError
    case Named(name) =>
      var rest := t[2..];
      if rest != [] && rest[0].Index? then
        match KeyOfIndex(rest[0].key)
        case None => PrefixError
        case Some(k) => PrefixOf(rest[1..], allowRanges).Prepend([Step(name, k)])
      else if rest != [] && rest[0].Splat? && allowRanges then
        PrefixOf(rest[1..], allowRanges).Prepend([Step(name, WildcardKey(UnknownKeyType))])
      else PrefixOf(rest, allowRanges).Prepend([Step(name, NoKey)])
  }

  /** parseModuleInstancePrefixWithOptionalRanges */
  method ParseModuleInstancePrefix(t: Traversal, allowRanges: bool)
    returns (path: ModuleInstance, remain: Traversal, failed: bool)
    ensures failed <==> PrefixOf(t, allowRanges).PrefixError?
    ensures !failed ==> path == PrefixOf(t, allowRanges).path && remain == Rooted(PrefixOf(t, allowRanges).remain)
  {
    path, remain, failed := [], t, false;
    assert PrefixOf(t, allowRanges) == PrefixOf(remain, allowRanges).Prepend([]);
    while |remain| > 0
      invariant failed ==> PrefixOf(t, allowRanges).PrefixError?
      invariant !failed ==> PrefixOf(t, allowRanges) == PrefixOf(remain, allowRanges).Prepend(path)
      decreases |remain|
    {
      var name := GetModuleName(remain);
      if name.BadName? {
        failed := true;
      }
      if !name.Named? || failed {
        break;
      }
      ghost var here := PrefixOf(remain, allowRanges);
      remain := remain[2..];
      var key := NoKey;
      if |remain| > 0 {
        if remain[0].Index? {
          var k := KeyOfIndex(remain[0].key);
          remain := remain[1..];
          match k
          case Some(k') => key := k';
          case None => failed := true;
        } else if remain[0].Splat? && allowRanges {
          remain := remain[1..];
          key := WildcardKey(UnknownKeyType);
        }
      }
      if !failed {
        assert here == PrefixOf(remain, allowRanges).Prepend([Step(name.name, key)]);
        PrependTwice(PrefixOf(remain, allowRanges), path, [Step(name.name, key)]);
      }
      path := path + [Step(name.name, key)];
    }
    if |remain| > 0 {
      if remain[0].Attr? {
        remain := [Root(remain[0].name)] + remain[1..];
      }
    }
  }

  lemma PrependTwice(p: Prefix, a: ModuleInstance, b: ModuleInstance)
    ensures p.Prepend(b).Prepend(a) == p.Prepend(a + b)
  {
    if p.Prefix? {
      assert a + (b + p.path) == (a + b) + p.path;
    }
  }

  /** parseResourceTypeAndName */
  function TypeAndName(remain: Traversal): Option<(string, string)> {
    if |remain| >= 2 && remain[0].IsName() && remain[1].Attr? then Some((remain[0].name, remain[1].name)) else None
  }

  /** parseResourceInstanceUnderModule */
  function ResourceUnder(path: ModuleInstance, remain: Traversal, allowRanges: bool): Option<AbsResourceInstance>
    requires remain != [] && remain[0].Root?
  {
    var root := remain[0].name;
    var mode := if root == "data" then Data else if root == "ephemeral" then Ephemeral else Managed;
    var rel := if mode.Managed? then remain else remain[1..];
    match TypeAndName(rel)
    case None => None
    case Some((typeName, name)) =>
      var resource := Resource(mode, typeName, name);
      if |rel| == 2 then Some(AbsResource(path, resource).Instance(NoKey))
      else if |rel| == 3 && rel[2].Index? then
        match KeyOfIndex(rel[2].key)
        case Some(k) => Some(AbsResource(path, resource).Instance(k))
        case None => None
      else if |rel| == 3 && rel[2].Splat? && allowRanges then
        Some(AbsResource(path, resource).Instance(WildcardKey(UnknownKeyType)))
      else None
  }

  datatype ConfigResource = ConfigResource(path: Module, resource: Resource)

  /** The address types that can be a target. */
  datatype Targetable =
    | StaticModule(m: Module)
    | ModuleTarget(path: ModuleInstance)
    | ConfigTarget(config: ConfigResource)
    | ResourceTarget(resource: AbsResource)
    | InstanceTarget(instance: AbsResourceInstance)

  lemma {:induction false} PrefixRemainStartsWithName(t: Traversal, allowRanges: bool)
    ensures var p := PrefixOf(t, allowRanges); p.Prefix? && p.remain != [] ==> p.remain[0].IsName()
  {
    if GetModuleName(t).Named? {
      var rest := t[2..];
      PrefixRemainStartsWithName(rest, allowRanges);
      if rest != [] {
        PrefixRemainStartsWithName(rest[1..], allowRanges);
      }
    }
  }

  /** parseTarget */
  function ParseTarget(t: Traversal, allowRanges: bool): Option<Targetable> {
    match PrefixOf(t, allowRanges)
    case PrefixError => None
    case Prefix(path, rest) =>
      var remain := Rooted(rest);
      if remain == [] then Some(ModuleTarget(path))
      else
        PrefixRemainStartsWithName(t, allowRanges);
        match ResourceUnder(path, remain, allowRanges)
        case None => None
        case Some(ri) =>
          if ri.instance.key == NoKey then Some(ResourceTarget(ri.ContainingResource())) else Some(InstanceTarget(ri))
  }

  /** parseAbsResourceInstance */
  function ParseAbsResourceInstance(t: Traversal, allowRanges: bool): Option<AbsResourceInstance> {
    match ParseTarget(t, allowRanges)
    case Some(ResourceTarget(r)) => Some(r.Instance(NoKey))
    case Some(InstanceTarget(i)) => Some(i)
    case _ => None
  }

  function ParseInstanceText(lex: Lexicon, s: string, allowRanges: bool): Option<AbsResourceInstance> {
    match LexAddress(lex, s)
    case Some(t) => ParseAbsResourceInstance(t, allowRanges)
    case None => None
  }

  // ---------------------------------------------------------------- what the parser can produce

  /** A step as the lexer writes it: an identifier for a name, and a sign only where one is read. */
  predicate Lexical(lex: Lexicon, signed: bool, s: TraverseStep) {
    && (s.IsName() ==> lex.Identifier(s.name))
    && (s.Index? && s.key.Number? ==> signed || s.key.n >= 0)
  }

  predicate AllLexical(lex: Lexicon, signed: bool, t: Traversal) {
    forall s :: s in t ==> Lexical(lex, signed, s)
  }

  lemma LexicalCons(lex: Lexicon, signed: bool, s: TraverseStep, t: Traversal)
    requires AllLexical(lex, signed, t) && Lexical(lex, signed, s)
    ensures AllLexical(lex, signed, [s] + t)
  {
  }

  lemma {:induction false} LexedIsLexical(lex: Lexicon, signed: bool, s: string)
    requires LexSteps(lex, signed, s).Some?
    ensures AllLexical(lex, signed, LexSteps(lex, signed, s).value)
    decreases |s|
  {
    if s != "" {
      if s[0] == '.' {
        var n := IdentLength(lex, s[1..]);
        LexedIsLexical(lex, signed, s[1 + n..]);
        LexicalCons(lex, signed, Attr(s[1..1 + n]), LexSteps(lex, signed, s[1 + n..]).value);
      } else {
        var (step, rest) := LexIndex(signed, s[1..]).value;
        LexedIsLexical(lex, signed, rest);
        LexicalCons(lex, signed, step, LexSteps(lex, signed, rest).value);
      }
    }
  }

  /** A key the parser can produce. */
  predicate ParsedKey(signed: bool, k: InstanceKey) {
    DistinctKey(k) && (!signed ==> SyntaxKey(k))
  }

  lemma IndexIsParsedKey(lex: Lexicon, signed: bool, s: TraverseStep)
    requires s.Index? && Lexical(lex, signed, s) && KeyOfIndex(s.key).Some?
    ensures ParsedKey(signed, KeyOfIndex(s.key).value)
  {
  }

  /** The module steps read so far have identifier names, and what remains comes from `t`. */
  ghost predicate PrefixFrom(lex: Lexicon, signed: bool, p: Prefix, t: Traversal) {
    p.Prefix? ==>
      && (forall i :: 0 <= i < |p.path| ==> lex.Identifier(p.path[i].name) && ParsedKey(signed, p.path[i].key))
      && (forall s :: s in p.remain ==> s in t)
  }

  lemma PrependKeepsIdentifiers(lex: Lexicon, signed: bool, p: Prefix, t: Traversal, k: nat, s: Step)
    requires k <= |t| && PrefixFrom(lex, signed, p, t[k..]) && lex.Identifier(s.name) && ParsedKey(signed, s.key)
    ensures PrefixFrom(lex, signed, p.Prepend([s]), t)
  {
  }

  lemma {:induction false} PrefixHasIdentifiers(lex: Lexicon, signed: bool, t: Traversal, allowRanges: bool)
    requires AllLexical(lex, signed, t)
    ensures PrefixFrom(lex, signed, PrefixOf(t, allowRanges), t)
    decreases |t|
  {
    if GetModuleName(t).Named? {
      var rest := t[2..];
      assert t[1] in t;
      if rest != [] && rest[0].Index? {
        assert rest[1..] == t[3..];
        PrefixHasIdentifiers(lex, signed, t[3..], allowRanges);
        if KeyOfIndex(rest[0].key).Some? {
          IndexIsParsedKey(lex, signed, t[2]);
          PrependKeepsIdentifiers(lex, signed, PrefixOf(t[3..], allowRanges), t, 3,
                                  Step(t[1].name, KeyOfIndex(rest[0].key).value));
        }
      } else if rest != [] && rest[0].Splat? && allowRanges {
        assert rest[1..] == t[3..];
        PrefixHasIdentifiers(lex, signed, t[3..], allowRanges);
        PrependKeepsIdentifiers(lex, signed, PrefixOf(t[3..], allowRanges), t, 3,
                                Step(t[1].name, WildcardKey(UnknownKeyType)));
      } else {
        PrefixHasIdentifiers(lex, signed, rest, allowRanges);
        PrependKeepsIdentifiers(lex, signed, PrefixOf(rest, allowRanges), t, 2, Step(t[1].name, NoKey));
      }
    }
  }

  lemma ResourceUnderHasIdentifiers(
      lex: Lexicon, signed: bool, path: ModuleInstance, remain: Traversal, allowRanges: bool)
    requires remain != [] && remain[0].Root? && AllLexical(lex, signed, remain)
    ensures var r := ResourceUnder(path, remain, allowRanges);
            r.Some? ==>
              && r.value.path == path && ParsedKey(signed, r.value.instance.key)
              && lex.Identifier(r.value.instance.resource.typeName)
              && lex.Identifier(r.value.instance.resource.name)
  {
    forall i | 0 <= i < |remain| ensures Lexical(lex, signed, remain[i]) {
      assert remain[i] in remain;
    }
    var rel := if remain[0].name in ["data", "ephemeral"] then remain[1..] else remain;
    if |rel| == 3 && rel[2].Index? && KeyOfIndex(rel[2].key).Some? {
      IndexIsParsedKey(lex, signed, rel[2]);
    }
  }

  /** What a target the parser produces is made of: identifiers and keys that can be read. */
  predicate MadeOfParsed(lex: Lexicon, signed: bool, t: Targetable) {
    match t
    case ModuleTarget(m) =>
      forall i :: 0 <= i < |m| ==> lex.Identifier(m[i].name) && ParsedKey(signed, m[i].key)
    case ResourceTarget(r) => MadeOfParsedInstance(lex, signed, r.Instance(NoKey))
    case InstanceTarget(i) => MadeOfParsedInstance(lex, signed, i) && i.instance.key != NoKey
    case _ => false
  }

  predicate MadeOfParsedInstance(lex: Lexicon, signed: bool, a: AbsResourceInstance) {
    && HasIdentifiers(lex, a) && ParsedKey(signed, a.instance.key)
    && forall i :: 0 <= i < |a.path| ==> ParsedKey(signed, a.path[i].key)
  }

  lemma ParsedKeysOf(lex: Lexicon, signed: bool, t: Traversal, allowRanges: bool)
    requires AllLexical(lex, signed, t) && ParseTarget(t, allowRanges).Some?
    ensures MadeOfParsed(lex, signed, ParseTarget(t, allowRanges).value)
  {
    PrefixHasIdentifiers(lex, signed, t, allowRanges);
    var p := PrefixOf(t, allowRanges);
    var remain := Rooted(p.remain);
    if remain != [] {
      PrefixRemainStartsWithName(t, allowRanges);
      assert AllLexical(lex, signed, p.remain);
      forall i | 0 <= i < |remain| ensures Lexical(lex, signed, remain[i]) {
        assert p.remain[i] in p.remain;
      }
      ResourceUnderHasIdentifiers(lex, signed, p.path, remain, allowRanges);
    }
  }

  /** Whatever instance a text is read as, it is made of identifiers and keys the syntax can write. */
  lemma ParsedInSyntax(lex: Lexicon, text: string, allowRanges: bool)
    ensures var a := ParseInstanceText(lex, text, allowRanges);
            a.Some? ==> HasIdentifiers(lex, a.value) && InSyntax(a.value)
  {
    var steps := LexSteps(lex, false, "." + text);
    if steps.Some? {
      LexedIsLexical(lex, false, "." + text);
      RootedIsLexical(lex, false, steps.value);
      var t := Rooted(steps.value);
      if ParseTarget(t, allowRanges).Some? {
        ParsedKeysOf(lex, false, t, allowRanges);
      }
    }
  }

  lemma RootedIsLexical(lex: Lexicon, signed: bool, t: Traversal)
    requires AllLexical(lex, signed, t)
    ensures AllLexical(lex, signed, Rooted(t))
  {
    if t != [] && t[0].Attr? {
      assert t[0] in t;
      LexicalCons(lex, signed, Root(t[0].name), t[1..]);
    }
  }

  // ---------------------------------------------------------------- parse undoes print

  /** Keys that the address syntax can write and read back. */
  predicate SyntaxKey(k: InstanceKey) {
    match k
    case IntKey(i) => 0 <= i <= MAX_INT
    case WildcardKey(t) => t == UnknownKeyType
    case AnyKey => false
    case _ => true
  }

  predicate HasIdentifiers(lex: Lexicon, a: AbsResourceInstance) {
    && (forall i :: 0 <= i < |a.path| ==> lex.Identifier(a.path[i].name))
    && lex.Identifier(a.instance.resource.typeName)
    && lex.Identifier(a.instance.resource.name)
  }

  predicate InSyntax(a: AbsResourceInstance) {
    (forall i :: 0 <= i < |a.path| ==> SyntaxKey(a.path[i].key)) && SyntaxKey(a.instance.key)
  }

  /** IsPlaceholder */
  predicate IsPlaceholder(a: AbsResourceInstance) {
    a.instance.key.WildcardKey? || exists i :: 0 <= i < |a.path| && a.path[i].key.WildcardKey?
  }

  /** A managed resource whose type is one of the words the grammar reserves. */
  predicate ReservedType(a: AbsResourceInstance) {
    a.instance.resource.mode.Managed? && a.instance.resource.typeName in {"module", "data", "ephemeral"}
  }

  /** Keys that the steps of a traversal can stand for, negative indexes included. */
  predicate KeyParses(k: InstanceKey, allowRanges: bool) {
    match k
    case IntKey(i) => MIN_INT <= i <= MAX_INT
    case WildcardKey(t) => t == UnknownKeyType && allowRanges
    case AnyKey => false
    case _ => true
  }

  lemma ConcatAssociative(a: Traversal, b: Traversal, c: Traversal)
    ensures (a + b) + c == a + (b + c)
  {
  }

  /** Reading one printed module step. */
  lemma PrefixOfStep(name: string, key: InstanceKey, after: Traversal, allowRanges: bool)
    requires KeyParses(key, allowRanges)
    requires after != [] ==> after[0].Attr?
    ensures PrefixOf([Attr("module"), Attr(name)] + KeySteps(key) + after, allowRanges) ==
            PrefixOf(after, allowRanges).Prepend([Step(name, key)])
  {
    var t, k := [Attr("module"), Attr(name)] + KeySteps(key) + after, KeySteps(key);
    assert t[0] == Attr("module") && t[1] == Attr(name);
    assert t[2..] == k + after;
    if k != [] {
      assert (k + after)[1..] == after && (k + after)[0] == k[0];
    } else {
      assert k + after == after;
    }
  }

  /** The prefix parser undoes PathSteps, up to a first name other than `module`. */
  lemma {:induction false} PrefixOfPathSteps(m: ModuleInstance, tail: Traversal, allowRanges: bool)
    requires forall i :: 0 <= i < |m| ==> KeyParses(m[i].key, allowRanges)
    requires tail != [] ==> tail[0].Attr? && tail[0].name != "module"
    ensures PrefixOf(PathSteps(m) + tail, allowRanges) == Prefix(m, tail)
  {
    if m == [] {
      assert PathSteps(m) + tail == tail;
    } else {
      var rest, s := m[1..], m[0];
      var front, after := [Attr("module"), Attr(s.name)] + KeySteps(s.key), PathSteps(rest) + tail;
      PrefixOfPathSteps(rest, tail, allowRanges);
      assert after != [] ==> after[0].Attr? by {
        PathStepsStart(rest);
      }
      PrefixOfStep(s.name, s.key, after, allowRanges);
      assert PathSteps(m) + tail == front + after by {
        ConcatAssociative(front, PathSteps(rest), tail);
      }
      assert m == [Step(s.name, s.key)] + rest;
    }
  }

  /** A leading root name is read like a leading attribute name. */
  lemma PrefixOfRooted(t: Traversal, allowRanges: bool)
    ensures var p, q := PrefixOf(Rooted(t), allowRanges), PrefixOf(t, allowRanges);
            match (p, q)
            case (Prefix(a, r), Prefix(b, s)) => a == b && Rooted(r) == Rooted(s)
            case (PrefixError, PrefixError) => true
            case _ => false
  {
    if t != [] && t[0].Attr? {
      var u := Rooted(t);
      assert forall i :: 1 <= i < |t| ==> u[i] == t[i];
      if GetModuleName(t).Named? {
        assert u[2..] == t[2..];
      }
    }
  }

  lemma ParseTargetRooted(t: Traversal, allowRanges: bool)
    ensures ParseTarget(Rooted(t), allowRanges) == ParseTarget(t, allowRanges)
  {
    PrefixOfRooted(t, allowRanges);
  }

  lemma ParseRooted(t: Traversal, allowRanges: bool)
    ensures ParseAbsResourceInstance(Rooted(t), allowRanges) == ParseAbsResourceInstance(t, allowRanges)
  {
    ParseTargetRooted(t, allowRanges);
  }

  /** Without ranges allowed, no parsed address is a placeholder. */
  lemma {:induction false} NoRangesNoWildcards(t: Traversal)
    ensures var p := PrefixOf(t, false); p.Prefix? ==> forall s :: s in p.path ==> !s.key.WildcardKey?
  {
    if GetModuleName(t).Named? {
      var rest := t[2..];
      NoRangesNoWildcards(rest);
      if rest != [] {
        NoRangesNoWildcards(rest[1..]);
      }
    }
  }

  lemma PlaceholderNeedsRanges(t: Traversal)
    ensures var a := ParseAbsResourceInstance(t, false); a.Some? ==> !IsPlaceholder(a.value)
  {
    NoRangesNoWildcards(t);
  }

  /** Parsing what follows the module path. */
  lemma ResourceUnderSteps(path: ModuleInstance, i: ResourceInstance, allowRanges: bool)
    requires KeyParses(i.key, allowRanges)
    requires i.resource.mode.Managed? ==> i.resource.typeName !in {"data", "ephemeral"}
    ensures var t := ResourceSteps(i.resource) + KeySteps(i.key);
            ResourceUnder(path, Rooted(t), allowRanges) == Some(AbsResourceInstance(path, i))
  {
    var k := KeySteps(i.key);
    var remain := Rooted(ResourceSteps(i.resource) + k);
    if i.resource.mode.Managed? {
      assert remain == [Root(i.resource.typeName), Attr(i.resource.name)] + k;
    } else {
      assert remain[0].name == (if i.resource.mode == Data then "data" else "ephemeral");
      assert remain[1..] == [Attr(i.resource.typeName), Attr(i.resource.name)] + k;
    }
  }

  lemma ReservedWordUnderSteps(path: ModuleInstance, i: ResourceInstance, allowRanges: bool)
    requires i.resource.mode.Managed? && i.resource.typeName in {"data", "ephemeral"}
    ensures var t := ResourceSteps(i.resource) + KeySteps(i.key);
            ResourceUnder(path, Rooted(t), allowRanges) == None
  {
    var k := KeySteps(i.key);
    var remain := Rooted(ResourceSteps(i.resource) + k);
    assert remain[1..] == [Attr(i.resource.name)] + k;
    assert k != [] ==> remain[1..][1] == k[0];
  }

  lemma PrefixOfAddressSteps(a: AbsResourceInstance, allowRanges: bool)
    requires forall i :: 0 <= i < |a.path| ==> KeyParses(a.path[i].key, allowRanges)
    requires a.instance.resource.mode.Managed? ==> a.instance.resource.typeName != "module"
    ensures PrefixOf(AddressSteps(a), allowRanges) ==
            Prefix(a.path, ResourceSteps(a.instance.resource) + KeySteps(a.instance.key))
  {
    var tail := ResourceSteps(a.instance.resource) + KeySteps(a.instance.key);
    assert tail[0].Attr? && tail[0].name != "module";
    PrefixOfPathSteps(a.path, tail, allowRanges);
  }

  lemma ParsedFromPrefix(t: Traversal, path: ModuleInstance, tail: Traversal, allowRanges: bool)
    requires PrefixOf(t, allowRanges) == Prefix(path, tail) && tail != [] && tail[0].Attr?
    ensures ParseAbsResourceInstance(t, allowRanges) == ResourceUnder(path, Rooted(tail), allowRanges)
  {
    var r := ResourceUnder(path, Rooted(tail), allowRanges);
    if r.Some? && r.value.instance.key == NoKey {
      assert r.value.ContainingResource().Instance(NoKey) == r.value;
    }
  }

  /** Parsing the steps of an address, once the module path has been read. */
  lemma ParseAddressSteps(a: AbsResourceInstance, allowRanges: bool)
    requires InSyntax(a) && (IsPlaceholder(a) ==> allowRanges)
    requires a.instance.resource.mode.Managed? ==> a.instance.resource.typeName != "module"
    ensures ParseAbsResourceInstance(AddressSteps(a), allowRanges) == if ReservedType(a) then None else Some(a)
  {
    var tail := ResourceSteps(a.instance.resource) + KeySteps(a.instance.key);
    forall i | 0 <= i < |a.path| ensures KeyParses(a.path[i].key, allowRanges) {
    }
    PrefixOfAddressSteps(a, allowRanges);
    ParsedFromPrefix(AddressSteps(a), a.path, tail, allowRanges);
    if ReservedType(a) {
      ReservedWordUnderSteps(a.path, a.instance, allowRanges);
    } else {
      ResourceUnderSteps(a.path, a.instance, allowRanges);
    }
  }

  lemma {:induction false} PathStepsSnoc(m: ModuleInstance, s: Step)
    ensures PathSteps(m + [s]) == PathSteps(m) + [Attr("module"), Attr(s.name)] + KeySteps(s.key)
  {
    if m == [] {
      assert m + [s] == [s];
      assert [s][1..] == [];
    } else {
      assert (m + [s])[1..] == m[1..] + [s];
      PathStepsSnoc(m[1..], s);
    }
  }

  /** A managed resource of type `module` reads as a module path, so it is never an instance. */
  lemma ParseModuleTypedSteps(a: AbsResourceInstance, allowRanges: bool)
    requires InSyntax(a) && (IsPlaceholder(a) ==> allowRanges)
    requires a.instance.resource.mode.Managed? && a.instance.resource.typeName == "module"
    ensures ParseAbsResourceInstance(AddressSteps(a), allowRanges) == None
  {
    var m := a.path + [Step(a.instance.resource.name, a.instance.key)];
    PathStepsSnoc(a.path, Step(a.instance.resource.name, a.instance.key));
    assert AddressSteps(a) == PathSteps(m) + [];
    forall i | 0 <= i < |m|
      ensures KeyParses(m[i].key, allowRanges)
    {
    }
    PrefixOfPathSteps(m, [], allowRanges);
  }

  lemma KeyStepsReadable(lex: Lexicon, signed: bool, k: InstanceKey)
    requires k.IntKey? && k.index < 0 ==> signed
    ensures ReadableTail(lex, signed, KeySteps(k))
  {
  }

  lemma {:induction false} PathStepsReadable(lex: Lexicon, signed: bool, m: ModuleInstance)
    requires lex.Valid()
    requires forall i :: 0 <= i < |m| ==> lex.Identifier(m[i].name)
    requires forall i :: 0 <= i < |m| ==> m[i].key.IntKey? && m[i].key.index < 0 ==> signed
    ensures ReadableTail(lex, signed, PathSteps(m))
  {
    if m != [] {
      KeyStepsReadable(lex, signed, m[0].key);
      PathStepsReadable(lex, signed, m[1..]);
      assert lex.Identifier("module");
    }
  }

  lemma AddressStepsReadable(lex: Lexicon, signed: bool, a: AbsResourceInstance)
    requires lex.Valid() && HasIdentifiers(lex, a) && (signed || InSyntax(a))
    ensures ReadableTail(lex, signed, AddressSteps(a))
  {
    PathStepsReadable(lex, signed, a.path);
    KeyStepsReadable(lex, signed, a.instance.key);
    assert lex.Identifier("data") && lex.Identifier("ephemeral");
  }

  /** Printing then parsing an address the syntax can write. */
  lemma WrittenRoundTrip(lex: Lexicon, a: AbsResourceInstance, allowRanges: bool)
    requires lex.Valid() && HasIdentifiers(lex, a) && InSyntax(a)
    ensures ParseInstanceText(lex, InstanceText(lex, a), allowRanges) == Some(a) <==>
            !ReservedType(a) && (IsPlaceholder(a) ==> allowRanges)
  {
    var steps := AddressSteps(a);
    AddressStepsText(lex, a);
    AddressStepsReadable(lex, false, a);
    LexPrintedSteps(lex, false, steps);
    assert LexAddress(lex, InstanceText(lex, a)) == Some(Rooted(steps));
    ParseRooted(steps, allowRanges);
    if IsPlaceholder(a) && !allowRanges {
      PlaceholderNeedsRanges(steps);
    } else if a.instance.resource.mode.Managed? && a.instance.resource.typeName == "module" {
      ParseModuleTypedSteps(a, allowRanges);
    } else {
      ParseAddressSteps(a, allowRanges);
    }
  }

  /** For every address whatever, printing then parsing gives back the same address, at any module
      depth and for any string key content, exactly when its names are identifiers, its indexes are
      neither negative nor too large, its placeholder keys have no type, no managed type is a
      reserved word, and placeholders are only read where ranges are allowed. */
  lemma PrintParseRoundTrip(lex: Lexicon, a: AbsResourceInstance, allowRanges: bool)
    requires lex.Valid()
    ensures ParseInstanceText(lex, InstanceText(lex, a), allowRanges) == Some(a) <==>
            && HasIdentifiers(lex, a) && InSyntax(a)
            && !ReservedType(a) && (IsPlaceholder(a) ==> allowRanges)
  {
    ParsedInSyntax(lex, InstanceText(lex, a), allowRanges);
    if HasIdentifiers(lex, a) && InSyntax(a) {
      WrittenRoundTrip(lex, a, allowRanges);
    }
  }

  /** An address that prints and does not read back: its type is a word of the grammar. */
  lemma ReservedTypeDoesNotReadBack(lex: Lexicon, allowRanges: bool)
    requires lex.Valid()
    ensures var a := AbsResource([], Resource(Managed, "data", "a")).Instance(NoKey);
            && HasIdentifiers(lex, a) && InSyntax(a)
            && ParseInstanceText(lex, InstanceText(lex, a), allowRanges) != Some(a)
  {
    PrintParseRoundTrip(lex, AbsResource([], Resource(Managed, "data", "a")).Instance(NoKey), allowRanges);
  }

  // ---------------------------------------------------------------- injectivity

  /** Keys whose text is their own: everything but typed wildcards and the pattern-only key. */
  predicate DistinctKey(k: InstanceKey) {
    k != AnyKey && (k.WildcardKey? ==> k.expected == UnknownKeyType)
  }

  predicate DistinctKeys(a: AbsResourceInstance) {
    (forall i :: 0 <= i < |a.path| ==> DistinctKey(a.path[i].key)) && DistinctKey(a.instance.key)
  }

  lemma {:induction false} PathStepsStart(m: ModuleInstance)
    ensures m != [] ==> |PathSteps(m)| >= 2 && PathSteps(m)[0] == Attr("module") && PathSteps(m)[1].Attr?
  {
  }

  /** A resource end is too short to begin like a module path that has a resource end. */
  lemma EndIsNoModule(i: ResourceInstance, path: ModuleInstance, end: Traversal)
    requires |end| >= 2 && path != []
    ensures ResourceSteps(i.resource) + KeySteps(i.key) != PathSteps(path) + end
  {
    PathStepsStart(path);
    var s, p := ResourceSteps(i.resource) + KeySteps(i.key), PathSteps(path);
    assert (p + end)[0] == p[0] && |p + end| >= 4;
    assert s[0] == ResourceSteps(i.resource)[0];
  }

  /** The address seen from inside its outermost module step. */
  function Inner(a: AbsResourceInstance): AbsResourceInstance
    requires a.path != []
  {
    AbsResourceInstance(a.path[1..], a.instance)
  }

  lemma AddressStepsUnfold(a: AbsResourceInstance)
    requires a.path != []
    ensures AddressSteps(a) ==
            [Attr("module"), Attr(a.path[0].name)] + KeySteps(a.path[0].key) + AddressSteps(Inner(a))
  {
    ConcatAssociative(
      [Attr("module"), Attr(a.path[0].name)] + KeySteps(a.path[0].key), PathSteps(a.path[1..]),
      ResourceSteps(a.instance.resource) + KeySteps(a.instance.key));
  }

  lemma AddressStepsStart(a: AbsResourceInstance)
    ensures AddressSteps(a) != [] && AddressSteps(a)[0].IsName()
  {
    PathStepsStart(a.path);
  }

  /** An address in the root module is determined by its steps. */
  lemma RootStepsInjective(a: AbsResourceInstance, b: AbsResourceInstance)
    requires DistinctKeys(a) && DistinctKeys(b) && AddressSteps(a) == AddressSteps(b)
    requires a.path == []
    ensures a == b
  {
    var endA := ResourceSteps(a.instance.resource) + KeySteps(a.instance.key);
    var endB := ResourceSteps(b.instance.resource) + KeySteps(b.instance.key);
    assert [] + endA == endA && [] + endB == endB;
    if b.path != [] {
      EndIsNoModule(a.instance, b.path, endB);
    }
    EndInjective(a.instance, b.instance);
  }

  lemma {:induction false} DistinctStepsInjective(a: AbsResourceInstance, b: AbsResourceInstance)
    requires DistinctKeys(a) && DistinctKeys(b) && AddressSteps(a) == AddressSteps(b)
    ensures a == b
    decreases |a.path|
  {
    if a.path == [] {
      RootStepsInjective(a, b);
    } else if b.path == [] {
      RootStepsInjective(b, a);
    } else {
      AddressStepsUnfold(a);
      AddressStepsUnfold(b);
      AddressStepsStart(Inner(a));
      AddressStepsStart(Inner(b));
      SplitFirstStep(
        a.path[0].name, KeySteps(a.path[0].key), AddressSteps(Inner(a)),
        b.path[0].name, KeySteps(b.path[0].key), AddressSteps(Inner(b)));
      KeyStepsInjective(a.path[0].key, b.path[0].key);
      DistinctStepsInjective(Inner(a), Inner(b));
      assert a.path == [a.path[0]] + a.path[1..] && b.path == [b.path[0]] + b.path[1..];
    }
  }

  /** The first module step of a traversal and its optional key are determined by the whole. */
  lemma SplitFirstStep(nameA: string, ka: Traversal, restA: Traversal, nameB: string, kb: Traversal, restB: Traversal)
    requires [Attr("module"), Attr(nameA)] + ka + restA == [Attr("module"), Attr(nameB)] + kb + restB
    requires |ka| <= 1 && (ka != [] ==> !ka[0].IsName())
    requires |kb| <= 1 && (kb != [] ==> !kb[0].IsName())
    requires restA != [] && restA[0].IsName() && restB != [] && restB[0].IsName()
    ensures nameA == nameB && ka == kb && restA == restB
  {
    var s, t := [Attr("module"), Attr(nameA)] + ka + restA, [Attr("module"), Attr(nameB)] + kb + restB;
    assert s[1] == Attr(nameA) && t[1] == Attr(nameB);
    assert s[2] == (if ka == [] then restA[0] else ka[0]);
    assert t[2] == (if kb == [] then restB[0] else kb[0]);
    assert s[2 + |ka|..] == restA && t[2 + |kb|..] == restB;
  }

  lemma KeyStepsInjective(k: InstanceKey, l: InstanceKey)
    requires DistinctKey(k) && DistinctKey(l) && KeySteps(k) == KeySteps(l)
    ensures k == l
  {
    if k != NoKey {
      assert KeySteps(k)[0] == KeySteps(l)[0];
    }
  }

  lemma EndInjective(a: ResourceInstance, b: ResourceInstance)
    requires DistinctKey(a.key) && DistinctKey(b.key)
    requires ResourceSteps(a.resource) + KeySteps(a.key) == ResourceSteps(b.resource) + KeySteps(b.key)
    ensures a == b
  {
    var ra, rb := ResourceSteps(a.resource), ResourceSteps(b.resource);
    var s := ra + KeySteps(a.key);
    assert s == rb + KeySteps(b.key);
    assert |ra| > 2 ==> s[2] == ra[2];
    assert |rb| > 2 ==> s[2] == rb[2];
    assert |ra| == 2 && |s| > 2 ==> s[2] == KeySteps(a.key)[0];
    assert |rb| == 2 && |s| > 2 ==> s[2] == KeySteps(b.key)[0];
    assert |ra| == |rb|;
    assert ra == s[..|ra|] == rb;
    assert KeySteps(a.key) == s[|ra|..] == KeySteps(b.key);
    KeyStepsInjective(a.key, b.key);
    assert ra[0] == rb[0] && ra[1] == rb[1];
  }

  /** The address with every placeholder key replaced by the one placeholder that text can spell. */
  function EraseKey(k: InstanceKey): InstanceKey {
    if k.WildcardKey? || k.AnyKey? then WildcardKey(UnknownKeyType) else k
  }

  function ErasePath(m: ModuleInstance): (r: ModuleInstance)
    ensures |r| == |m|
  {
    seq(|m|, i requires 0 <= i < |m| => Step(m[i].name, EraseKey(m[i].key)))
  }

  function Erase(a: AbsResourceInstance): AbsResourceInstance {
    AbsResourceInstance(ErasePath(a.path), ResourceInstance(a.instance.resource, EraseKey(a.instance.key)))
  }

  lemma {:induction false} ErasedPathSteps(m: ModuleInstance)
    ensures PathSteps(ErasePath(m)) == PathSteps(m)
  {
    if m != [] {
      ErasedPathSteps(m[1..]);
      assert ErasePath(m)[1..] == ErasePath(m[1..]);
    }
  }

  lemma EraseDistinct(a: AbsResourceInstance)
    ensures DistinctKeys(Erase(a)) && AddressSteps(Erase(a)) == AddressSteps(a)
    ensures DistinctKeys(a) <==> Erase(a) == a
  {
    ErasedPathSteps(a.path);
    if DistinctKeys(a) {
      assert ErasePath(a.path) == a.path;
    }
  }

  /** The steps determine the address up to the kind of its placeholder keys, even when a resource
      type is called `module` or `data`. */
  lemma AddressStepsInjective(a: AbsResourceInstance, b: AbsResourceInstance)
    ensures AddressSteps(a) == AddressSteps(b) <==> Erase(a) == Erase(b)
  {
    EraseDistinct(a);
    EraseDistinct(b);
    if AddressSteps(a) == AddressSteps(b) {
      DistinctStepsInjective(Erase(a), Erase(b));
    }
  }

  /** Two addresses print alike exactly when they differ at most in the kind of placeholder keys. So
      without typed placeholders strings are injective, and UniqueKey and comparing
      strings in place of addresses are sound. */
  lemma InstanceTextInjective(lex: Lexicon, a: AbsResourceInstance, b: AbsResourceInstance)
    requires lex.Valid() && HasIdentifiers(lex, a) && HasIdentifiers(lex, b)
    ensures InstanceText(lex, a) == InstanceText(lex, b) <==> Erase(a) == Erase(b)
    ensures DistinctKeys(a) && DistinctKeys(b) ==> (InstanceText(lex, a) == InstanceText(lex, b) <==> a == b)
  {
    AddressStepsText(lex, a);
    AddressStepsText(lex, b);
    AddressStepsReadable(lex, true, a);
    AddressStepsReadable(lex, true, b);
    LexPrintedSteps(lex, true, AddressSteps(a));
    LexPrintedSteps(lex, true, AddressSteps(b));
    AddressStepsInjective(a, b);
    EraseDistinct(a);
    EraseDistinct(b);
  }

  /** A whole resource prints like its unkeyed instance. */
  lemma ResourceTextIsUnkeyed(lex: Lexicon, r: AbsResource)
    ensures AbsResourceText(lex, r) == InstanceText(lex, r.Instance(NoKey))
  {
    assert ResourceText(r.resource) + "" == ResourceText(r.resource);
  }

  lemma AbsResourceTextInjective(lex: Lexicon, r: AbsResource, s: AbsResource)
    requires lex.Valid() && HasIdentifiers(lex, r.Instance(NoKey)) && HasIdentifiers(lex, s.Instance(NoKey))
    ensures AbsResourceText(lex, r) == AbsResourceText(lex, s) <==>
            ErasePath(r.path) == ErasePath(s.path) && r.resource == s.resource
    ensures DistinctKeys(r.Instance(NoKey)) && DistinctKeys(s.Instance(NoKey)) ==>
              (AbsResourceText(lex, r) == AbsResourceText(lex, s) <==> r == s)
  {
    ResourceTextIsUnkeyed(lex, r);
    ResourceTextIsUnkeyed(lex, s);
    InstanceTextInjective(lex, r.Instance(NoKey), s.Instance(NoKey));
  }

  /** Module paths print alike exactly when they agree up to the kind of placeholder keys, so the
      string key of a module instance is unique too. */
  lemma ModuleTextInjective(lex: Lexicon, m: ModuleInstance, n: ModuleInstance)
    requires lex.Valid()
    requires forall i :: 0 <= i < |m| ==> lex.Identifier(m[i].name)
    requires forall i :: 0 <= i < |n| ==> lex.Identifier(n[i].name)
    ensures ModuleText(lex, m) == ModuleText(lex, n) <==> ErasePath(m) == ErasePath(n)
  {
    var r := Resource(Managed, "a", "a");
    var a, b := AbsResource(m, r), AbsResource(n, r);
    DottedPathStart(lex, m);
    DottedPathStart(lex, n);
    EmptyModuleText(lex, m);
    EmptyModuleText(lex, n);
    AbsResourceTextInjective(lex, a, b);
    ErasedText(lex, m);
    ErasedText(lex, n);
  }

  lemma EmptyModuleText(lex: Lexicon, m: ModuleInstance)
    ensures ModuleText(lex, m) == "" <==> m == []
  {
  }

  lemma ErasedText(lex: Lexicon, m: ModuleInstance)
    ensures ModuleText(lex, ErasePath(m)) == ModuleText(lex, m)
  {
    ErasedPathSteps(m);
    PathStepsText(lex, m);
    PathStepsText(lex, ErasePath(m));
  }

  /** Two addresses that differ and print alike. */
  lemma TypedWildcardsPrintAlike(lex: Lexicon, r: AbsResource)
    ensures InstanceText(lex, r.Instance(WildcardKey(IntKeyType))) ==
            InstanceText(lex, r.Instance(WildcardKey(StringKeyType)))
  {
  }
}
