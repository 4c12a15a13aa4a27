/** Relative module sources (module_source_resolve.go and the local part of module_source.go).
    `Clean` and `Join` follow the documentation of Go's `path` package, `ValidPath` that of
    `io/fs`. */
module ModuleSources {
  // ---------------------------------------------------------------- paths as strings

  function Split(s: string): (r: seq<string>)
    ensures |r| > 0
  {
    if s == "" then [""]
    else
      var rest := Split(s[1..]);
      if s[0] == '/' then [""] + rest else [[s[0]] + rest[0]] + rest[1..]
  }

  function JoinSegments(segs: seq<string>): string {
    if segs == [] then "" else if |segs| == 1 then segs[0] else segs[0] + "/" + JoinSegments(segs[1..])
  }

  /** A path with `.`, empty and cancelled `..` segments removed: what remains is some leading
      `..` segments and then names. */
  datatype Norm = Norm(ups: nat, names: seq<string>)

  const HERE: Norm := Norm(0, [])

  function Push(rooted: bool, n: Norm, seg: string): Norm {
    if seg == "" || seg == "." then n
    else if seg == ".." then
      if n.names != [] then Norm(n.ups, n.names[..|n.names| - 1])
      else if rooted then n
      else Norm(n.ups + 1, [])
    else Norm(n.ups, n.names + [seg])
  }

  function PushAll(rooted: bool, n: Norm, segs: seq<string>): Norm
    decreases |segs|
  {
    if segs == [] then n else PushAll(rooted, Push(rooted, n, segs[0]), segs[1..])
  }

  function Segments(n: Norm): seq<string> {
    seq(n.ups, _ => "..") + n.names
  }

  function Render(n: Norm): string {
    if n == HERE then "." else JoinSegments(Segments(n))
  }

  predicate Rooted(s: string) {
    s != "" && s[0] == '/'
  }

  /** path.Clean */
  function Clean(s: string): string {
    if Rooted(s) then "/" + JoinSegments(PushAll(true, HERE, Split(s)).names)
    else Render(PushAll(false, HERE, Split(s)))
  }

  /** path.Join of two elements; empty elements are ignored. */
  function Join(a: string, b: string): string {
    if a == "" && b == "" then ""
    else if a == "" then Clean(b)
    else if b == "" then Clean(a)
    else Clean(a + "/" + b)
  }

  /** fs.ValidPath, for a valid UTF-8 string. */
  predicate ValidPath(s: string) {
    s == "." || forall seg :: seg in Split(s) ==> seg !in {"", ".", ".."}
  }

  // ---------------------------------------------------------------- module sources

  datatype Source =
    | Local(path: string)
    | Registry(package: string, subdir: string)
    | Remote(package: string, subdir: string)

  datatype Resolved = Ok(source: Source) | Escape

  const LOCAL_PREFIXES: seq<string> := ["./", "../", ".\\", "..\\"]

  predicate IsModuleSourceLocal(raw: string) {
    "./" <= raw || "../" <= raw || ".\\" <= raw || "..\\" <= raw
  }

  method IsModuleSourceLocalScan(raw: string) returns (r: bool)
    ensures r == IsModuleSourceLocal(raw)
  {
    for i := 0 to |LOCAL_PREFIXES|
      invariant forall j :: 0 <= j < i ==> !(LOCAL_PREFIXES[j] <= raw)
    {
      if LOCAL_PREFIXES[i] <= raw {
        return true;
      }
    }
    assert !(LOCAL_PREFIXES[0] <= raw) && !(LOCAL_PREFIXES[1] <= raw);
    assert !(LOCAL_PREFIXES[2] <= raw) && !(LOCAL_PREFIXES[3] <= raw);
    return false;
  }

  /** strings.ReplaceAll(raw, `\`, "/") */
  function ForwardSlashes(raw: string): (r: string)
    ensures |r| == |raw|
  {
    seq(|raw|, i requires 0 <= i < |raw| => if raw[i] == '\\' then '/' else raw[i])
  }

  function ParseLocal(raw: string): string {
    var clean := Clean(ForwardSlashes(raw));
    if "../" <= clean then clean else "./" + clean
  }

  datatype SubPath = Sub(path: string) | TooManyUps

  /** joinModuleSourceSubPath */
  function JoinSubPath(sub: string, rel: string): SubPath {
    var joined := Join(sub, rel);
    if joined == "." then Sub("")
    else if !ValidPath(joined) then TooManyUps
    else Sub(joined)
  }

  /** ResolveRelativeModuleSource */
  function Resolve(a: Source, b: Source): Resolved {
    match b
    case Registry(_, _) => Ok(b)
    case Remote(_, _) => Ok(b)
    case Local(rel) =>
      match a
      case Local(base) =>
        var joined := Join(base, rel);
        Ok(Local(if IsModuleSourceLocal(joined) then joined else "./" + joined))
      case Registry(package, sub) =>
        (match JoinSubPath(sub, rel)
         case Sub(p) => Ok(Registry(package, p))
         case TooManyUps => Escape)
      case Remote(package, sub) =>
        (match JoinSubPath(sub, rel)
         case Sub(p) => Ok(Remote(package, p))
         case TooManyUps => Escape)
  }

  /** What the parsers guarantee: a local path has a local prefix. Sub-paths are taken as they come:
      a remote source keeps `.`, `..` and rooted ones. */
  predicate ValidSource(s: Source) {
    s.Local? ==> IsModuleSourceLocal(s.path)
  }

  /** A sub-path in normal form inside its package: empty for the package root, else proper segments. */
  predicate InPackage(sub: string) {
    sub == "" || (sub != "." && ValidPath(sub))
  }

  // ---------------------------------------------------------------- normal forms

  function NormOf(s: string): Norm {
    PushAll(false, HERE, Split(s))
  }

  /** Going `m.ups` levels up from `n`, then down the names of `m`. */
  function Compose(n: Norm, m: Norm): Norm {
    if m.ups <= |n.names| then Norm(n.ups, n.names[..|n.names| - m.ups] + m.names)
    else Norm(n.ups + (m.ups - |n.names|), m.names)
  }

  lemma ComposeAssociative(a: Norm, b: Norm, c: Norm)
    ensures Compose(Compose(a, b), c) == Compose(a, Compose(b, c))
  {
    if c.ups <= |b.names| && b.ups <= |a.names| {
      assert (a.names[..|a.names| - b.ups] + b.names)[..|a.names| - b.ups + |b.names| - c.ups] ==
        a.names[..|a.names| - b.ups] + b.names[..|b.names| - c.ups];
    } else if c.ups > |b.names| && b.ups <= |a.names| {
      var keep := a.names[..|a.names| - b.ups];
      var more := c.ups - |b.names|;
      if more <= |keep| {
        assert (keep + b.names)[..|keep| + |b.names| - c.ups] == keep[..|keep| - more];
        assert keep[..|keep| - more] == a.names[..|a.names| - b.ups - more];
      }
    }
  }

  lemma PushIsCompose(n: Norm, m: Norm, seg: string)
    ensures Push(false, Compose(n, m), seg) == Compose(n, Push(false, m, seg))
  {
    if seg == ".." && m.names != [] {
      if m.ups <= |n.names| {
        var keep := n.names[..|n.names| - m.ups];
        assert (keep + m.names)[..|keep| + |m.names| - 1] == keep + m.names[..|m.names| - 1];
      }
    } else if seg == ".." {
      if m.ups < |n.names| {
        var keep := n.names[..|n.names| - m.ups];
        assert keep + m.names == keep;
        assert keep[..|keep| - 1] == n.names[..|n.names| - m.ups - 1];
      } else if m.ups == |n.names| {
        assert n.names[..0] + m.names == [];
      }
    } else if seg != "" && seg != "." && m.ups <= |n.names| {
      var keep := n.names[..|n.names| - m.ups];
      assert (keep + m.names) + [seg] == keep + (m.names + [seg]);
    }
  }

  lemma {:induction false} PushAllIsCompose(n: Norm, m: Norm, segs: seq<string>)
    ensures PushAll(false, Compose(n, m), segs) == Compose(n, PushAll(false, m, segs))
    decreases |segs|
  {
    if segs != [] {
      PushIsCompose(n, m, segs[0]);
      PushAllIsCompose(n, Push(false, m, segs[0]), segs[1..]);
    }
  }

  lemma {:induction false} PushAllConcat(rooted: bool, n: Norm, a: seq<string>, b: seq<string>)
    ensures PushAll(rooted, n, a + b) == PushAll(rooted, PushAll(rooted, n, a), b)
    decreases |a|
  {
    if a == [] {
      assert a + b == b;
    } else {
      assert (a + b)[1..] == a[1..] + b;
      PushAllConcat(rooted, Push(rooted, n, a[0]), a[1..], b);
    }
  }

  lemma {:induction false} SplitConcat(a: string, b: string)
    ensures Split(a + "/" + b) == Split(a) + Split(b)
  {
    var s := a + "/" + b;
    if a == "" {
      assert s[1..] == b;
    } else {
      assert s[1..] == a[1..] + "/" + b;
      SplitConcat(a[1..], b);
    }
  }

  lemma SplitHead(s: string)
    ensures Rooted(s) ==> Split(s)[0] == ""
    ensures "./" <= s ==> Split(s)[0] == "."
  {
    if "./" <= s {
      assert s[1..][0] == '/';
      assert Split(s[1..])[0] == "";
    }
  }

  predicate NoSlash(seg: string) {
    forall i :: 0 <= i < |seg| ==> seg[i] != '/'
  }

  lemma {:induction false} SplitOne(seg: string)
    requires NoSlash(seg)
    ensures Split(seg) == [seg]
  {
    if seg != "" {
      SplitOne(seg[1..]);
      assert [seg[0]] + seg[1..] == seg;
    }
  }

  lemma {:induction false} SplitJoined(segs: seq<string>)
    requires segs != [] && forall i :: 0 <= i < |segs| ==> NoSlash(segs[i])
    ensures Split(JoinSegments(segs)) == segs
  {
    SplitOne(segs[0]);
    if |segs| > 1 {
      SplitConcat(segs[0], JoinSegments(segs[1..]));
      SplitJoined(segs[1..]);
      assert [segs[0]] + segs[1..] == segs;
    } else {
      assert segs == [segs[0]];
    }
  }

  lemma {:induction false} SplitHasNoSlash(s: string)
    ensures forall i :: 0 <= i < |Split(s)| ==> NoSlash(Split(s)[i])
  {
    if s != "" {
      SplitHasNoSlash(s[1..]);
    }
  }

  /** Names of a normal form are proper path segments. */
  predicate Proper(n: Norm) {
    forall i :: 0 <= i < |n.names| ==> NoSlash(n.names[i]) && n.names[i] !in {"", ".", ".."}
  }

  lemma {:induction false} PushAllProper(n: Norm, segs: seq<string>)
    requires Proper(n) && forall i :: 0 <= i < |segs| ==> NoSlash(segs[i])
    ensures Proper(PushAll(false, n, segs))
    decreases |segs|
  {
    if segs != [] {
      PushAllProper(Push(false, n, segs[0]), segs[1..]);
    }
  }

  lemma NormOfProper(s: string)
    ensures Proper(NormOf(s))
  {
    SplitHasNoSlash(s);
    PushAllProper(HERE, Split(s));
  }

  lemma {:induction false} PushNames(n: Norm, names: seq<string>)
    requires Proper(Norm(0, names))
    ensures PushAll(false, n, names) == Norm(n.ups, n.names + names)
    decreases |names|
  {
    if names == [] {
      assert n.names + names == n.names;
    } else {
      assert Proper(Norm(0, names[1..])) by {
        assert forall i :: 0 <= i < |names| - 1 ==> names[1..][i] == names[i + 1];
      }
      assert names[0] !in {"", ".", ".."};
      PushNames(Push(false, n, names[0]), names[1..]);
      assert n.names + [names[0]] + names[1..] == n.names + names;
    }
  }

  lemma {:induction false} PushUps(n: Norm, k: nat)
    requires n.names == []
    ensures PushAll(false, n, seq(k, _ => "..")) == Norm(n.ups + k, [])
    decreases k
  {
    if k > 0 {
      var segs := seq(k, _ => "..");
      assert segs[1..] == seq(k - 1, _ => "..");
      PushUps(Push(false, n, ".."), k - 1);
    }
  }

  /** Rendering a normal form and reading it back changes nothing. */
  lemma RenderRoundTrip(n: Norm)
    requires Proper(n)
    ensures NormOf(Render(n)) == n
  {
    if n == HERE {
      SplitOne(".");
      assert Split(".") == ["."];
      assert ["."][1..] == [];
      assert PushAll(false, HERE, ["."]) == HERE;
    } else {
      var ups := seq(n.ups, _ => "..");
      SplitJoined(Segments(n));
      PushAllConcat(false, HERE, ups, n.names);
      PushUps(HERE, n.ups);
      PushNames(Norm(n.ups, []), n.names);
    }
  }

  lemma JoinedHead(segs: seq<string>)
    requires segs != [] && segs[0] != ""
    ensures JoinSegments(segs) != "" && JoinSegments(segs)[0] == segs[0][0]
  {
  }

  lemma RenderNotRooted(n: Norm)
    requires Proper(n)
    ensures !Rooted(Render(n)) && Render(n) != ""
  {
    if n != HERE {
      var s := Segments(n);
      assert s[0] == if n.ups > 0 then ".." else n.names[0];
      JoinedHead(s);
    }
  }

  lemma NormOfConcat(a: string, b: string)
    ensures NormOf(a + "/" + b) == Compose(NormOf(a), NormOf(b))
  {
    SplitConcat(a, b);
    PushAllConcat(false, HERE, Split(a), Split(b));
    var n := NormOf(a);
    assert n.names + [] == n.names;
    assert Compose(n, HERE) == n;
    PushAllIsCompose(n, HERE, Split(b));
  }

  lemma NormOfDot()
    ensures NormOf(".") == HERE && NormOf("") == HERE
  {
    SplitOne(".");
    SplitOne("");
    assert ["."][1..] == [] && [""][1..] == [];
    assert PushAll(false, HERE, ["."]) == HERE && PushAll(false, HERE, [""]) == HERE;
  }

  lemma NormOfDotSlash(s: string)
    ensures NormOf("./" + s) == NormOf(s)
  {
    NormOfDot();
    NormOfConcat(".", s);
    assert "." + "/" + s == "./" + s;
    assert [] + NormOf(s).names == NormOf(s).names;
  }

  /** Joining two unrooted paths composes their normal forms. */
  lemma JoinIsCompose(a: string, b: string)
    requires !Rooted(a) && !Rooted(b) && b != ""
    ensures Join(a, b) == Render(Compose(NormOf(a), NormOf(b)))
  {
    NormOfDot();
    NormOfConcat(a, b);
    if a == "" {
      assert [] + NormOf(b).names == NormOf(b).names;
    } else {
      assert (a + "/" + b)[0] == a[0];
    }
  }

  lemma ComposeProper(n: Norm, m: Norm)
    requires Proper(n) && Proper(m)
    ensures Proper(Compose(n, m))
  {
  }

  // ---------------------------------------------------------------- resolving, on normal forms

  function LocalText(n: Norm): string {
    var text := Render(n);
    if IsModuleSourceLocal(text) then text else "./" + text
  }

  lemma LocalTextRoundTrip(n: Norm)
    requires Proper(n)
    ensures NormOf(LocalText(n)) == n && IsModuleSourceLocal(LocalText(n))
  {
    RenderRoundTrip(n);
    NormOfDotSlash(Render(n));
  }

  /** The text of a sub-path inside a package. */
  function SubText(n: Norm): SubPath {
    if n.ups > 0 then TooManyUps else Sub(JoinSegments(n.names))
  }

  lemma SubTextIsRender(n: Norm)
    requires Proper(n)
    ensures SubText(n) ==
            if Render(n) == "." then Sub("") else if !ValidPath(Render(n)) then TooManyUps else Sub(Render(n))
  {
    if n == HERE {
    } else {
      var segs := Segments(n);
      SplitJoined(segs);
      assert Split(Render(n)) == segs;
      if n.ups > 0 {
        assert segs[0] == "..";
        assert Render(n) == "." ==> Split(Render(n)) == ["."] by { SplitOne("."); }
        assert !ValidPath(Render(n)) by {
          assert segs[0] in Split(Render(n));
        }
      } else {
        assert segs == n.names;
        assert Render(n) == "." ==> Split(Render(n)) == ["."] by { SplitOne("."); }
        assert n.names[0] != ".";
      }
    }
  }

  /** A source's position: the normal form of its path. */
  function Position(s: Source): Norm {
    if s.Local? then NormOf(s.path) else NormOf(s.subdir)
  }

  /** The source like `s` at another position. */
  function At(s: Source, n: Norm): Resolved {
    match s
    case Local(_) => Ok(Local(LocalText(n)))
    case Registry(package, _) => if n.ups > 0 then Escape else Ok(Registry(package, JoinSegments(n.names)))
    case Remote(package, _) => if n.ups > 0 then Escape else Ok(Remote(package, JoinSegments(n.names)))
  }

  lemma SubdirPosition(sub: string)
    requires InPackage(sub)
    ensures NormOf(sub).ups == 0 && !Rooted(sub) && JoinSegments(NormOf(sub).names) == sub
  {
    NormOfDot();
    if sub != "" {
      var segs := Split(sub);
      SplitHasNoSlash(sub);
      forall i | 0 <= i < |segs| ensures segs[i] !in {"", ".", ".."} {
        assert segs[i] in segs;
      }
      assert Proper(Norm(0, segs));
      PushNames(HERE, segs);
      assert [] + segs == segs;
      JoinSplit(sub);
      SplitHead(sub);
    }
  }

  lemma {:induction false} JoinSplit(s: string)
    ensures JoinSegments(Split(s)) == s
  {
    if s != "" {
      JoinSplit(s[1..]);
      var rest, segs := Split(s[1..]), Split(s);
      if s[0] == '/' {
        assert segs[1..] == rest;
        assert "" + "/" + s[1..] == s;
      } else {
        assert segs[1..] == rest[1..];
        if |rest| == 1 {
          assert [s[0]] + s[1..] == s;
        } else {
          var tail := JoinSegments(rest[1..]);
          assert [s[0]] + rest[0] + "/" + tail == [s[0]] + (rest[0] + "/" + tail);
        }
      }
    }
  }

  /** Nothing joined to a rooted sub-path stays in the package. */
  lemma RootedSubPath(sub: string, rel: string)
    requires Rooted(sub)
    ensures JoinSubPath(sub, rel) == TooManyUps
  {
    var joined := Join(sub, rel);
    assert rel != "" ==> (sub + "/" + rel)[0] == '/';
    assert Rooted(joined);
    SplitHead(joined);
    assert Split(joined)[0] in Split(joined);
  }

  /** Where a local path leads from `a`, given the composed position; from a rooted sub-path nowhere. */
  function Settle(a: Source, n: Norm): Resolved {
    if !a.Local? && Rooted(a.subdir) then Escape else At(a, n)
  }

  /** Resolving a local source composes positions. */
  lemma ResolveIsCompose(a: Source, b: Source)
    requires ValidSource(a) && ValidSource(b) && b.Local?
    ensures Resolve(a, b) == Settle(a, Compose(Position(a), Position(b)))
  {
    var n := Compose(Position(a), Position(b));
    if !a.Local? && Rooted(a.subdir) {
      RootedSubPath(a.subdir, b.path);
    } else {
      NormOfProper(if a.Local? then a.path else a.subdir);
      NormOfProper(b.path);
      ComposeProper(Position(a), Position(b));
      JoinIsCompose(if a.Local? then a.path else a.subdir, b.path);
      SubTextIsRender(n);
    }
  }

  lemma InPackageText(n: Norm)
    requires Proper(n) && n.ups == 0
    ensures InPackage(JoinSegments(n.names)) && NormOf(JoinSegments(n.names)) == n
  {
    NormOfDot();
    if n.names != [] {
      RenderRoundTrip(n);
      assert Segments(n) == n.names;
      SubTextIsRender(n);
    }
  }

  /** The source leads into the same package, or both are local. */
  predicate SamePackage(a: Source, b: Source) {
    match a
    case Local(_) => b.Local?
    case Registry(package, _) => b.Registry? && b.package == package
    case Remote(package, _) => b.Remote? && b.package == package
  }

  /** An absolute source resolves to itself from anywhere. A local path stays in the package it starts
      from: the result is a valid source at the composed position, and inside a package it is a normal
      sub-path, without `..`, `.` or empty segments, whatever the sub-path it started from. */
  lemma ResolveValid(a: Source, b: Source)
    requires ValidSource(a) && ValidSource(b) && Resolve(a, b).Ok?
    ensures var r := Resolve(a, b).source;
            && ValidSource(r)
            && (if b.Local? then SamePackage(a, r) else r == b)
            && (b.Local? ==> Position(r) == Compose(Position(a), Position(b)))
            && (b.Local? && !a.Local? ==> !r.Local? && InPackage(r.subdir))
  {
    if b.Local? {
      ResolveIsCompose(a, b);
      var n := Compose(Position(a), Position(b));
      NormOfProper(if a.Local? then a.path else a.subdir);
      NormOfProper(b.path);
      ComposeProper(Position(a), Position(b));
      if a.Local? {
        LocalTextRoundTrip(n);
      } else {
        InPackageText(n);
      }
    }
  }

  /** From where `a` is, `b` leads out of the package, or `a` is not inside it to begin with. */
  predicate EscapesPackage(a: Source, b: Source) {
    !a.Local? && b.Local? && (Rooted(a.subdir) || Compose(NormOf(a.subdir), NormOf(b.path)).ups > 0)
  }

  lemma ResolveFailsIff(a: Source, b: Source)
    requires ValidSource(a) && ValidSource(b)
    ensures Resolve(a, b) == Escape <==> EscapesPackage(a, b)
    ensures !a.Local? && InPackage(a.subdir) ==>
              (EscapesPackage(a, b) <==> b.Local? && NormOf(b.path).ups > |NormOf(a.subdir).names|)
  {
    if b.Local? {
      ResolveIsCompose(a, b);
      if !a.Local? && InPackage(a.subdir) {
        SubdirPosition(a.subdir);
      }
    }
  }

  function Then(r: Resolved, c: Source): Resolved {
    match r
    case Ok(s) => Resolve(s, c)
    case Escape => Escape
  }

  function Against(a: Source, r: Resolved): Resolved {
    match r
    case Ok(s) => Resolve(a, s)
    case Escape => Escape
  }

  /** Going on from a composed position is composing once more; once outside a package there is no
      way back in. */
  lemma SettleThen(a: Source, n: Norm, c: Source)
    requires ValidSource(c) && c.Local? && Proper(n)
    ensures Then(Settle(a, n), c) == Settle(a, Compose(n, NormOf(c.path)))
  {
    var r := Settle(a, n);
    if r.Ok? {
      if a.Local? {
        LocalTextRoundTrip(n);
      } else {
        InPackageText(n);
        SubdirPosition(r.source.subdir);
      }
      ResolveIsCompose(r.source, c);
    }
  }

  lemma LocalsAssociate(a: Source, b: Source, c: Source)
    requires ValidSource(a) && ValidSource(b) && ValidSource(c) && b.Local? && c.Local?
    ensures Then(Resolve(a, b), c) == Against(a, Resolve(b, c))
  {
    var n, m := Compose(Position(a), Position(b)), Compose(Position(b), Position(c));
    NormOfProper(if a.Local? then a.path else a.subdir);
    NormOfProper(b.path);
    NormOfProper(c.path);
    ComposeProper(Position(a), Position(b));
    ComposeProper(Position(b), Position(c));
    ResolveIsCompose(a, b);
    SettleThen(a, n, c);
    ResolveIsCompose(b, c);
    LocalTextRoundTrip(m);
    ResolveIsCompose(a, Local(LocalText(m)));
    ComposeAssociative(Position(a), Position(b), Position(c));
  }

  /** Resolving is associative, errors included, for every three sources except when `b` leads out of
      `a`'s package and `c` is absolute: left to right fails, yet `c` alone is fine. */
  lemma ResolveAssociativeIff(a: Source, b: Source, c: Source)
    requires ValidSource(a) && ValidSource(b) && ValidSource(c)
    ensures Then(Resolve(a, b), c) == Against(a, Resolve(b, c)) <==> c.Local? || !EscapesPackage(a, b)
  {
    ResolveFailsIff(a, b);
    if c.Local? && b.Local? {
      LocalsAssociate(a, b, c);
    }
  }

  lemma NormOfClimb()
    ensures NormOf("..") == Norm(1, []) && NormOf("x") == Norm(0, ["x"])
    ensures NormOf("../x") == Norm(1, ["x"]) && NormOf("./x") == Norm(0, ["x"])
  {
    SplitOne("..");
    SplitOne("x");
    PushUps(HERE, 1);
    assert seq(1, _ => "..") == [".."];
    assert Proper(Norm(0, ["x"]));
    PushNames(HERE, ["x"]);
    assert [] + ["x"] == ["x"];
    NormOfConcat("..", "x");
    assert ".." + "/" + "x" == "../x";
    NormOfDotSlash("x");
    assert "./" + "x" == "./x";
  }

  /** Three sources where grouping matters: the middle one climbs out of the first one's package, and
      the last one is absolute. */
  lemma GroupingMatters(c: Source)
    requires !c.Local?
    ensures var a, b := Registry("p", ""), Local("../x");
            && ValidSource(a) && ValidSource(b) && ValidSource(c)
            && Then(Resolve(a, b), c) == Escape && Against(a, Resolve(b, c)) == Ok(c)
  {
    NormOfDot();
    NormOfClimb();
    ResolveFailsIff(Registry("p", ""), Local("../x"));
  }

  /** A remote source above its own package, as its parser lets through, and a relative path that does
      not climb: resolving fails all the same. */
  lemma FailsWithoutClimbing()
    ensures var a, b := Remote("p", ".."), Local("./x");
            ValidSource(a) && ValidSource(b) && NormOf(b.path).ups == 0 && Resolve(a, b) == Escape
  {
    NormOfClimb();
    ResolveFailsIff(Remote("p", ".."), Local("./x"));
  }

  /** The current directory is a right identity exactly on sources in normal form. */
  lemma ResolveIdentityIff(a: Source)
    requires ValidSource(a)
    ensures ValidSource(Local("./."))
    ensures Resolve(a, Local("./.")) == Ok(a) <==>
            if a.Local? then a.path == LocalText(NormOf(a.path)) else InPackage(a.subdir)
  {
    NormOfDot();
    NormOfDotSlash(".");
    assert "./" + "." == "./.";
    ResolveIsCompose(a, Local("./."));
    var n := Position(a);
    assert n.names + [] == n.names;
    if !a.Local? {
      if InPackage(a.subdir) {
        SubdirPosition(a.subdir);
      } else if Resolve(a, Local("./.")).Ok? {
        ResolveValid(a, Local("./."));
      }
    }
  }

  // ---------------------------------------------------------------- parsing local sources

  predicate NoBackslash(s: string) {
    forall i :: 0 <= i < |s| ==> s[i] != '\\'
  }

  predicate NoBackslashes(segs: seq<string>) {
    forall i :: 0 <= i < |segs| ==> NoBackslash(segs[i])
  }

  lemma {:induction false} SplitNoBackslash(s: string)
    requires NoBackslash(s)
    ensures NoBackslashes(Split(s))
  {
    if s != "" {
      SplitNoBackslash(s[1..]);
    }
  }

  lemma {:induction false} PushNoBackslash(n: Norm, segs: seq<string>)
    requires NoBackslashes(n.names) && NoBackslashes(segs)
    ensures NoBackslashes(PushAll(false, n, segs).names)
    decreases |segs|
  {
    if segs != [] {
      PushNoBackslash(Push(false, n, segs[0]), segs[1..]);
    }
  }

  lemma {:induction false} JoinNoBackslash(segs: seq<string>)
    requires NoBackslashes(segs)
    ensures NoBackslash(JoinSegments(segs))
  {
    if |segs| > 1 {
      JoinNoBackslash(segs[1..]);
    }
  }

  lemma ForwardSlashesIdentity(s: string)
    requires NoBackslash(s)
    ensures ForwardSlashes(s) == s
  {
  }

  /** Parsing a local source yields the normal form of its path with forward slashes; the result is
      local, and parsing it again changes nothing. */
  lemma ParseLocalNormalises(raw: string)
    requires IsModuleSourceLocal(raw)
    ensures var p := ParseLocal(raw);
            && IsModuleSourceLocal(p)
            && p == LocalText(NormOf(ForwardSlashes(raw)))
            && NormOf(p) == NormOf(ForwardSlashes(raw))
            && ParseLocal(p) == p
  {
    var s := ForwardSlashes(raw);
    var n := NormOf(s);
    assert !Rooted(s);
    NormOfProper(s);
    SplitNoBackslash(s);
    PushNoBackslash(HERE, Split(s));
    JoinNoBackslash(Segments(n));
    RenderRoundTrip(n);
    RenderNotRooted(n);
    NormOfDotSlash(Render(n));
    RenderNeverDotSlash(n);
    var p := ParseLocal(raw);
    assert NoBackslash(p);
    ForwardSlashesIdentity(p);
  }

  lemma RenderNeverDotSlash(n: Norm)
    requires Proper(n)
    ensures !("./" <= Render(n))
  {
    SplitHead(Render(n));
    if n != HERE {
      SplitJoined(Segments(n));
      assert Segments(n)[0] == if n.ups > 0 then ".." else n.names[0];
    }
  }

  // ---------------------------------------------------------------- shortest texts

  /** The length of the segments, each with a slash. */
  function Length(segs: seq<string>): nat {
    if segs == [] then 0 else |segs[0]| + 1 + Length(segs[1..])
  }

  lemma {:induction false} LengthSnoc(segs: seq<string>, seg: string)
    ensures Length(segs + [seg]) == Length(segs) + |seg| + 1
  {
    if segs == [] {
      assert segs + [seg] == [seg];
    } else {
      assert (segs + [seg])[1..] == segs[1..] + [seg];
      LengthSnoc(segs[1..], seg);
    }
  }

  lemma {:induction false} JoinedLength(segs: seq<string>)
    requires segs != []
    ensures |JoinSegments(segs)| + 1 == Length(segs)
  {
    if |segs| > 1 {
      JoinedLength(segs[1..]);
    }
  }

  /** A segment that does not simply add to a normal form leaves it shorter than adding it would. */
  lemma PushLength(n: Norm, seg: string)
    ensures var p := Segments(Push(false, n, seg));
            p == Segments(n) + [seg] || Length(p) < Length(Segments(n)) + |seg| + 1
  {
    var ups := seq(n.ups, _ => "..");
    if seg == ".." {
      if n.names == [] {
        assert seq(n.ups + 1, _ => "..") == ups + [".."];
      } else {
        var front, last := n.names[..|n.names| - 1], n.names[|n.names| - 1];
        assert Segments(n) == (ups + front) + [last];
        LengthSnoc(ups + front, last);
      }
    } else if seg != "" && seg != "." {
      assert ups + (n.names + [seg]) == (ups + n.names) + [seg];
    }
  }

  lemma {:induction false} PushAllLength(n: Norm, segs: seq<string>)
    ensures var p := Segments(PushAll(false, n, segs));
            p == Segments(n) + segs || Length(p) < Length(Segments(n)) + Length(segs)
    decreases |segs|
  {
    if segs == [] {
      assert Segments(n) + segs == Segments(n);
    } else {
      var m := Push(false, n, segs[0]);
      PushLength(n, segs[0]);
      PushAllLength(m, segs[1..]);
      LengthSnoc(Segments(n), segs[0]);
      assert (Segments(n) + [segs[0]]) + segs[1..] == Segments(n) + segs;
      if Segments(PushAll(false, m, segs[1..])) == Segments(m) + segs[1..] {
        LengthConcat(Segments(m), segs[1..]);
      }
    }
  }

  lemma {:induction false} LengthConcat(a: seq<string>, b: seq<string>)
    ensures Length(a + b) == Length(a) + Length(b)
  {
    if a == [] {
      assert a + b == b;
    } else {
      assert (a + b)[1..] == a[1..] + b;
      LengthConcat(a[1..], b);
    }
  }

  /** Cleaning gives the one shortest text among all that lead to the same place. */
  lemma CleanIsShortest(s: string, t: string)
    requires !Rooted(s) && !Rooted(t) && t != "" && NormOf(s) == NormOf(t)
    ensures Clean(s) != "" && NormOf(Clean(s)) == NormOf(t)
    ensures |Clean(s)| <= |t| && (|Clean(s)| == |t| ==> Clean(s) == t)
  {
    var n := NormOf(t);
    NormOfProper(t);
    RenderRoundTrip(n);
    RenderNotRooted(n);
    if n == HERE {
      if |t| == 1 {
        SplitOne(t);
        assert [t][1..] == [];
        assert PushAll(false, Push(false, HERE, t), []) == Push(false, HERE, t);
        assert t == ".";
      }
    } else {
      PushAllLength(HERE, Split(t));
      JoinSplit(t);
      JoinedLength(Split(t));
      JoinedLength(Segments(n));
      assert Segments(HERE) == [];
      assert Segments(HERE) + Split(t) == Split(t);
    }
  }

  /** A local path is written as it cleans when it climbs and goes on, or when its first name begins
      like a local prefix with a backslash; in all other cases `./` stands in front of it. */
  lemma LocalTextIs(n: Norm)
    requires Proper(n)
    ensures LocalText(n) ==
            if (n.ups > 0 && n.ups + |n.names| > 1) ||
               (n.ups == 0 && n.names != [] && (".\\" <= n.names[0] || "..\\" <= n.names[0]))
            then Render(n) else "./" + Render(n)
  {
    RenderNeverDotSlash(n);
    if n != HERE {
      RenderHead(n);
      LocalHead(Segments(n)[0], JoinSegments(Segments(n)[1..]));
    }
  }

  lemma LocalHead(seg: string, rest: string)
    requires NoSlash(seg) && seg !in {"", "."}
    ensures IsModuleSourceLocal(seg) <==> ".\\" <= seg || "..\\" <= seg
    ensures IsModuleSourceLocal(seg + "/" + rest) <==> seg == ".." || ".\\" <= seg || "..\\" <= seg
  {
    PrefixOfHead(".", seg, rest);
    PrefixOfHead("..", seg, rest);
    PrefixOfHead(".\\", seg, rest);
    PrefixOfHead("..\\", seg, rest);
    assert "." + "/" == "./" && ".." + "/" == "../";
    assert "./"[1] == '/' && "../"[2] == '/';
  }

  /** What a path begins with, when it begins with the segment `seg`. */
  lemma PrefixOfHead(p: string, seg: string, rest: string)
    requires NoSlash(p) && NoSlash(seg)
    ensures p <= seg + "/" + rest <==> p <= seg
    ensures p + "/" <= seg + "/" + rest <==> p == seg
  {
    var t := seg + "/" + rest;
    assert t[|seg|] == '/' && t[..|seg|] == seg;
    if p <= t && |p| <= |seg| {
      assert p == t[..|p|] == seg[..|p|];
    }
    if p + "/" <= t {
      assert t[..|p| + 1] == p + "/" && (p + "/")[|p|] == t[|p|];
      if |p| == |seg| {
        assert p == (p + "/")[..|p|] == t[..|p|];
      }
    }
    if p == seg {
      assert t[..|p| + 1] == p + "/";
    }
  }

  /** The first segment of a rendered path and the slash after it. */
  lemma RenderHead(n: Norm)
    requires Proper(n) && n != HERE
    ensures var seg := Segments(n)[0];
            Render(n) == if |Segments(n)| == 1 then seg else seg + "/" + JoinSegments(Segments(n)[1..])
    ensures var seg := Segments(n)[0];
            if n.ups > 0 then seg == ".." else seg == n.names[0] && NoSlash(seg) && seg !in {"", ".", ".."}
  {
  }

  predicate SameUpToSlashes(s: string, t: string) {
    |s| == |t| && forall i :: 0 <= i < |s| ==> s[i] == t[i] || (s[i] in "/\\" && t[i] in "/\\")
  }

  /** Which way slashes lean makes no difference, and a path with forward slashes only leads where it
      says. */
  lemma SlashKindIgnored(raw: string, other: string)
    requires SameUpToSlashes(raw, other)
    ensures ParseLocal(raw) == ParseLocal(other)
    ensures IsModuleSourceLocal(raw) && NoBackslash(raw) ==> NormOf(ParseLocal(raw)) == NormOf(raw)
  {
    assert ForwardSlashes(raw) == ForwardSlashes(other);
    if IsModuleSourceLocal(raw) && NoBackslash(raw) {
      ForwardSlashesIdentity(raw);
      ParseLocalNormalises(raw);
    }
  }
}
