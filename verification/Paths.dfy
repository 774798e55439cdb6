/** What a path means: a stack of components, and the canonical text of such a stack. */
module Paths {
  import opened CStrings

  const PATH_MAX := 127
  const NAME_MAX := 31
  const DEPTH_MAX := 16

  datatype Option<+T> = None | Some(value: T)

  /** A path as the list of its components, outermost first; the root is []. */
  type Path = seq<string>

  // ---------- the components of a text ----------

  /** The length of the slash-free text at the front of s. */
  function Span(s: string): (n: nat)
    ensures n <= |s|
    ensures forall i :: 0 <= i < n ==> s[i] != '/'
    ensures n < |s| ==> s[n] == '/'
  {
    if s == [] || s[0] == '/' then 0 else 1 + Span(s[1..])
  }

  /** The non-empty pieces between slashes. */
  function Components(s: string): (cs: seq<string>)
    ensures forall i :: 0 <= i < |cs| ==> IsComponent(cs[i])
    decreases |s|
  {
    if s == [] then []
    else if s[0] == '/' then Components(s[1..])
    else [s[..Span(s)]] + Components(s[Span(s)..])
  }

  predicate IsComponent(c: string) {
    c != [] && '/' !in c
  }

  /** A component that can stay in a canonical path. */
  predicate ValidName(c: string) {
    IsComponent(c) && |c| <= NAME_MAX && c != "." && c != ".."
  }

  predicate Canonical(p: Path) {
    |p| <= DEPTH_MAX && forall i :: 0 <= i < |p| ==> ValidName(p[i])
  }

  // ---------- the stack fold ----------

  /** One component applied to the stack; None when the path is refused. */
  function Push(stack: Path, c: string): Option<Path> {
    if c == "." then Some(stack)
    else if c == ".." then Some(if stack == [] then [] else stack[..|stack| - 1])
    else if |c| <= NAME_MAX && |stack| < DEPTH_MAX then Some(stack + [c])
    else None
  }

  function Fold(stack: Path, cs: seq<string>): Option<Path>
    decreases |cs|
  {
    if cs == [] then Some(stack)
    else
      match Push(stack, cs[0])
      case None => None
      case Some(next) => Fold(next, cs[1..])
  }

  predicate Absolute(path: string) {
    path != [] && path[0] == '/'
  }

  /**
   * What a path means from a working directory.  A relative path is refused when its text
   * and that of the working directory do not fit the path buffer together.
   */
  function Resolve(cwd: string, path: string): Option<Path>
    decreases if Absolute(path) then 0 else if Absolute(cwd) then 1 else 2
  {
    if path == [] then None
    else if Absolute(path) then Fold([], Components(path))
    else
      match Resolve("/", cwd)
      case None => None
      case Some(base) =>
        if |Render(base)| + 1 + |path| > PATH_MAX then None else Fold(base, Components(path))
  }

  // ---------- the canonical text ----------

  function Join(p: Path): (s: string)
    ensures p != [] ==> |s| > |p[|p| - 1]| && s[0] == '/'
  {
    if p == [] then [] else Join(p[..|p| - 1]) + ['/'] + p[|p| - 1]
  }

  function Render(p: Path): (s: string)
    ensures Absolute(s)
  {
    if p == [] then "/" else Join(p)
  }

  /** The length of the canonical text, had it no special case for the root. */
  function Weight(p: seq<string>): nat {
    if p == [] then 0 else Weight(p[..|p| - 1]) + 1 + |p[|p| - 1]|
  }

  // ---------- splitting ----------

  lemma {:induction false} SpanBound(s: string, n: nat)
    requires n <= |s| && (forall i :: 0 <= i < n ==> s[i] != '/') && (n < |s| ==> s[n] == '/')
    ensures Span(s) == n
  {
    if n > 0 {
      SpanBound(s[1..], n - 1);
    }
  }

  /** A slash separates the components on its two sides. */
  lemma {:induction false} ComponentsSplit(a: string, b: string)
    ensures Components(a + ['/'] + b) == Components(a) + Components(b)
    decreases |a|
  {
    var s := a + ['/'] + b;
    if a == [] {
      assert s[1..] == b;
    } else if a[0] == '/' {
      ComponentsSplit(a[1..], b);
      assert s[1..] == a[1..] + ['/'] + b;
    } else {
      var n := Span(a);
      SpanBound(s, n);
      assert s[..n] == a[..n];
      ComponentsSplit(a[n..], b);
      assert s[n..] == a[n..] + ['/'] + b;
    }
  }

  lemma ComponentsOfOne(c: string)
    requires IsComponent(c)
    ensures Components(c) == [c]
  {
    SpanBound(c, |c|);
    assert c[..|c|] == c && c[|c|..] == [];
  }

  /** Splitting inverts joining. */
  lemma {:induction false} ComponentsOfJoin(p: Path)
    requires forall i :: 0 <= i < |p| ==> IsComponent(p[i])
    ensures Components(Join(p)) == p
  {
    if p != [] {
      var front, last := p[..|p| - 1], p[|p| - 1];
      ComponentsOfJoin(front);
      ComponentsSplit(Join(front), last);
      ComponentsOfOne(last);
      assert p == front + [last];
    }
  }

  lemma ComponentsOfRender(p: Path)
    requires forall i :: 0 <= i < |p| ==> IsComponent(p[i])
    ensures Components(Render(p)) == p
  {
    ComponentsOfJoin(p);
    assert "/"[1..] == [];
  }

  /** Canonical texts name their components: no two canonical paths share a text. */
  lemma RenderInjective(p: Path, q: Path)
    requires Canonical(p) && Canonical(q)
    ensures Render(p) == Render(q) <==> p == q
  {
    ComponentsOfRender(p);
    ComponentsOfRender(q);
  }

  // ---------- folding ----------

  lemma {:induction false} FoldConcat(stack: Path, a: seq<string>, b: seq<string>)
    ensures Fold(stack, a + b) ==
            match Fold(stack, a) case None => None case Some(mid) => Fold(mid, b)
    decreases |a|
  {
    if a == [] {
      assert a + b == b;
    } else {
      assert (a + b)[0] == a[0] && (a + b)[1..] == a[1..] + b;
      match Push(stack, a[0]) {
        case None =>
        case Some(next) => FoldConcat(next, a[1..], b);
      }
    }
  }

  /** Components of a canonical path all stay on the stack. */
  lemma {:induction false} FoldKeeps(stack: Path, p: Path)
    requires Canonical(stack + p)
    ensures Fold(stack, p) == Some(stack + p)
    decreases |p|
  {
    if p == [] {
      assert stack + p == stack;
    } else {
      var c := (stack + p)[|stack|];
      assert c == p[0] && ValidName(c);
      assert stack + p == (stack + [c]) + p[1..];
      FoldKeeps(stack + [c], p[1..]);
    }
  }

  lemma {:induction false} FoldCanonical(stack: Path, cs: seq<string>)
    requires Canonical(stack)
    requires forall i :: 0 <= i < |cs| ==> IsComponent(cs[i])
    ensures Fold(stack, cs).Some? ==> Canonical(Fold(stack, cs).value)
    decreases |cs|
  {
    if cs != [] && Push(stack, cs[0]).Some? {
      FoldCanonical(Push(stack, cs[0]).value, cs[1..]);
    }
  }

  lemma {:induction false} FoldIsCString(stack: Path, cs: seq<string>)
    requires forall i :: 0 <= i < |stack| ==> IsCString(stack[i])
    requires forall i :: 0 <= i < |cs| ==> IsCString(cs[i])
    ensures Fold(stack, cs).Some? ==> forall i :: 0 <= i < |Fold(stack, cs).value| ==> IsCString(Fold(stack, cs).value[i])
    decreases |cs|
  {
    if cs != [] && Push(stack, cs[0]).Some? {
      FoldIsCString(Push(stack, cs[0]).value, cs[1..]);
    }
  }

  lemma {:induction false} ComponentsIsCString(s: string)
    requires IsCString(s)
    ensures forall i :: 0 <= i < |Components(s)| ==> IsCString(Components(s)[i])
    decreases |s|
  {
    if s != [] {
      if s[0] == '/' {
        ComponentsIsCString(s[1..]);
      } else {
        ComponentsIsCString(s[Span(s)..]);
      }
    }
  }

  // ---------- lengths ----------

  lemma {:induction false} WeightConcat(a: seq<string>, b: seq<string>)
    ensures Weight(a + b) == Weight(a) + Weight(b)
    decreases |b|
  {
    if b == [] {
      assert a + b == a;
    } else {
      assert (a + b)[..|a + b| - 1] == a + b[..|b| - 1];
      WeightConcat(a, b[..|b| - 1]);
    }
  }

  lemma {:induction false} JoinLength(p: Path)
    ensures |Join(p)| == Weight(p)
  {
    if p != [] {
      JoinLength(p[..|p| - 1]);
    }
  }

  /** Splitting never makes a text longer: each component is paid for by itself and one slash. */
  lemma {:induction false} ComponentsWeight(s: string)
    ensures Weight(Components(s)) <= |s| + (if Absolute(s) then 0 else 1)
    ensures s == [] ==> Weight(Components(s)) == 0
    decreases |s|
  {
    if s != [] {
      if s[0] == '/' {
        ComponentsWeight(s[1..]);
      } else {
        var n := Span(s);
        ComponentsWeight(s[n..]);
        WeightConcat([s[..n]], Components(s[n..]));
        assert Weight([s[..n]]) == 1 + n by { assert [s[..n]][..0] == []; }
      }
    }
  }

  lemma {:induction false} FoldWeight(stack: Path, cs: seq<string>)
    ensures Fold(stack, cs).Some? ==> Weight(Fold(stack, cs).value) <= Weight(stack) + Weight(cs)
    decreases |cs|
  {
    if cs != [] && Push(stack, cs[0]).Some? {
      var next := Push(stack, cs[0]).value;
      FoldWeight(next, cs[1..]);
      assert cs == [cs[0]] + cs[1..];
      WeightConcat([cs[0]], cs[1..]);
      assert Weight([cs[0]]) == 1 + |cs[0]| by { assert [cs[0]][..0] == []; }
      if next == stack + [cs[0]] {
        WeightConcat(stack, [cs[0]]);
      }
    }
  }

  // ---------- what resolution promises ----------

  /** Whatever the caller passes, an accepted path is canonical. */
  lemma {:induction false} ResolveCanonical(cwd: string, path: string)
    ensures Resolve(cwd, path).Some? ==> Canonical(Resolve(cwd, path).value)
    decreases if Absolute(path) then 0 else if Absolute(cwd) then 1 else 2
  {
    if path != [] && !Absolute(path) {
      ResolveCanonical("/", cwd);
      match Resolve("/", cwd) {
        case None =>
        case Some(base) => FoldCanonical(base, Components(path));
      }
    } else {
      FoldCanonical([], Components(path));
    }
  }

  lemma {:induction false} ResolveIsCString(cwd: string, path: string)
    requires IsCString(cwd) && IsCString(path)
    ensures Resolve(cwd, path).Some? ==> forall i :: 0 <= i < |Resolve(cwd, path).value| ==> IsCString(Resolve(cwd, path).value[i])
    decreases if Absolute(path) then 0 else if Absolute(cwd) then 1 else 2
  {
    ComponentsIsCString(path);
    if path != [] && !Absolute(path) {
      ResolveIsCString("/", cwd);
      match Resolve("/", cwd) {
        case None =>
        case Some(base) => FoldIsCString(base, Components(path));
      }
    } else {
      FoldIsCString([], Components(path));
    }
  }

  /** The canonical text is never longer than an absolute input, nor than the path buffer for a relative one. */
  lemma ResolveLength(cwd: string, path: string)
    requires Resolve(cwd, path).Some?
    ensures |Render(Resolve(cwd, path).value)| <= if Absolute(path) then |path| else PATH_MAX
  {
    var p := Resolve(cwd, path).value;
    JoinLength(p);
    ComponentsWeight(path);
    if Absolute(path) {
      FoldWeight([], Components(path));
    } else {
      var base := Resolve("/", cwd).value;
      JoinLength(base);
      FoldWeight(base, Components(path));
    }
  }

  /** A canonical text resolves to the path it was rendered from, from any working directory. */
  lemma ResolveRender(cwd: string, p: Path)
    requires Canonical(p)
    ensures Resolve(cwd, Render(p)) == Some(p)
  {
    ComponentsOfRender(p);
    assert [] + p == p;
    FoldKeeps([], p);
  }

  /** Normalization is idempotent: the canonical text of an accepted path is a fixed point. */
  lemma ResolveIdempotent(cwd: string, path: string, other: string)
    requires Resolve(cwd, path).Some?
    ensures Resolve(other, Render(Resolve(cwd, path).value)) == Resolve(cwd, path)
  {
    ResolveCanonical(cwd, path);
    ResolveRender(other, Resolve(cwd, path).value);
  }

  /** The text the code glues together for a relative path resolves as the fold onto the base does. */
  lemma ResolveGlued(base: Path, path: string)
    requires Canonical(base) && path != [] && !Absolute(path)
    ensures var text := Render(base) + (if base == [] then [] else ['/']) + path;
            Absolute(text) && Fold([], Components(text)) == Fold(base, Components(path))
  {
    var text := Render(base) + (if base == [] then [] else ['/']) + path;
    ComponentsOfRender(base);
    if base == [] {
      assert text == [] + ['/'] + path;
      ComponentsSplit([], path);
      assert [] + Components(path) == Components(path);
    } else {
      ComponentsSplit(Render(base), path);
      assert [] + base == base;
      FoldKeeps([], base);
      FoldConcat([], base, Components(path));
    }
  }

  // ---------- what each component does, told from texts ----------

  lemma TextAppended(a: string, b: string)
    requires Absolute(a)
    ensures Absolute(a + ['/'] + b) && Components(a + ['/'] + b) == Components(a) + Components(b)
  {
    ComponentsSplit(a, b);
    assert (a + ['/'] + b)[0] == a[0];
  }

  /** What follows a slash applies to what the text in front of it resolves to. */
  lemma ResolveFrom(cwd: string, a: string, b: string)
    requires Absolute(a)
    ensures Resolve(cwd, a + ['/'] + b) == match Resolve(cwd, a) case None => None case Some(q) => Fold(q, Components(b))
  {
    TextAppended(a, b);
    FoldConcat([], Components(a), Components(b));
  }

  /**
   * One more component: `.` stays, `..` goes up and stays at the root, and any other goes down,
   * unless it is longer than 31 characters or would be the seventeenth.
   */
  lemma ResolveLast(cwd: string, a: string, c: string)
    requires Absolute(a) && IsComponent(c)
    ensures Resolve(cwd, a + ['/'] + c) ==
            match Resolve(cwd, a)
            case None => None
            case Some(q) =>
              if c == "." then Some(q)
              else if c == ".." then Some(if q == [] then [] else q[..|q| - 1])
              else if |c| > NAME_MAX || |q| == DEPTH_MAX then None
              else Some(q + [c])
  {
    ResolveCanonical(cwd, a);
    ResolveFrom(cwd, a, c);
    ComponentsOfOne(c);
    if Resolve(cwd, a).Some? {
      FoldOne(Resolve(cwd, a).value, c);
    }
  }

  lemma FoldOne(stack: Path, c: string)
    ensures Fold(stack, [c]) == Push(stack, c)
  {
    assert [c][1..] == [];
  }

  /** Resolving what comes before decides: texts that resolve alike can be exchanged in front of a slash. */
  lemma SamePrefix(cwd: string, a: string, b: string, rest: string)
    requires Absolute(a) && Absolute(b) && Resolve(cwd, a) == Resolve(cwd, b)
    ensures Resolve(cwd, a + ['/'] + rest) == Resolve(cwd, b + ['/'] + rest)
  {
    ResolveFrom(cwd, a, rest);
    ResolveFrom(cwd, b, rest);
  }

  /** A dot can be deleted. */
  lemma DotDeleted(cwd: string, a: string, b: string)
    requires Absolute(a)
    ensures Resolve(cwd, a + "/.") == Resolve(cwd, a)
    ensures Resolve(cwd, a + "/./" + b) == Resolve(cwd, a + "/" + b)
  {
    ResolveLast(cwd, a, ".");
    assert a + "/." == a + ['/'] + ".";
    SamePrefix(cwd, a + "/.", a, b);
    assert a + "/./" + b == (a + "/.") + ['/'] + b && a + "/" + b == a + ['/'] + b;
  }

  /** A name and the two dots behind it can be deleted, unless the name would have been refused. */
  lemma UpDeleted(cwd: string, a: string, c: string, b: string)
    requires Absolute(a) && ValidName(c)
    ensures Resolve(cwd, a + "/" + c + "/../" + b) ==
            if Resolve(cwd, a).Some? && |Resolve(cwd, a).value| == DEPTH_MAX then None else Resolve(cwd, a + "/" + b)
  {
    ResolveCanonical(cwd, a);
    var down := a + ['/'] + c;
    var up := down + ['/'] + "..";
    TextAppended(a, c);
    TextAppended(down, "..");
    ResolveLast(cwd, a, c);
    ResolveLast(cwd, down, "..");
    UpAgain(cwd, a, c, up);
    ResolveFrom(cwd, up, b);
    ResolveFrom(cwd, a, b);
    assert a + "/" + c + "/../" + b == up + ['/'] + b && a + "/" + b == a + ['/'] + b;
  }

  lemma UpAgain(cwd: string, a: string, c: string, up: string)
    requires Absolute(a) && ValidName(c) && up == a + ['/'] + c + ['/'] + ".." && Absolute(a + ['/'] + c)
    requires Resolve(cwd, a).Some? ==> |Resolve(cwd, a).value| <= DEPTH_MAX
    ensures Resolve(cwd, up) == if Resolve(cwd, a).Some? && |Resolve(cwd, a).value| == DEPTH_MAX then None else Resolve(cwd, a)
  {
    ResolveLast(cwd, a, c);
    ResolveLast(cwd, a + ['/'] + c, "..");
    if Resolve(cwd, a).Some? {
      var q := Resolve(cwd, a).value;
      assert (q + [c])[..|q + [c]| - 1] == q;
    }
  }

  /** Below the root, two dots do nothing. */
  lemma UpAtRoot(cwd: string, b: string)
    ensures Resolve(cwd, "/..") == Some([]) && Resolve(cwd, "/../" + b) == Resolve(cwd, "/" + b)
  {
    var root: Path := [];
    ResolveRender(cwd, root);
    ResolveLast(cwd, "/", "..");
    assert "/" + ['/'] + ".." == "//..";
    assert "//.."[1..] == "/..";
    ResolveFrom(cwd, "/..", b);
    assert "/.." + ['/'] + b == "/../" + b;
    assert ("/" + b)[1..] == b;
  }

  /** From a directory, `..` names the directory above; from the root, the root. */
  lemma ParentOf(p: Path, c: string)
    requires Canonical(p) && ValidName(c) && |p| < DEPTH_MAX
    ensures forall cwd :: Resolve(cwd, Render(p) + "/" + c + "/..") == Some(p)
    ensures |Render(p + [c])| + 3 <= PATH_MAX ==> Resolve(Render(p + [c]), "..") == Some(p)
    ensures Resolve("/", "..") == Some([])
  {
    forall cwd
      ensures Resolve(cwd, Render(p) + "/" + c + "/..") == Some(p)
    {
      ResolveRender(cwd, p);
      TextAppended(Render(p), c);
      UpAgain(cwd, Render(p), c, Render(p) + ['/'] + c + ['/'] + "..");
      assert Render(p) + "/" + c + "/.." == Render(p) + ['/'] + c + ['/'] + "..";
    }
    ResolveRender("/", p + [c]);
    ComponentsOfOne("..");
    FoldOne(p + [c], "..");
    assert (p + [c])[..|p + [c]| - 1] == p;
    var root: Path := [];
    ResolveRender("/", root);
    FoldOne([], "..");
  }

  /** A relative path is the path glued behind its working directory, if both fit the buffer; an empty one is none. */
  lemma ResolveRelative(cwd: string, path: string)
    requires !Absolute(path)
    ensures Resolve(cwd, path) ==
            if path == [] || Resolve("/", cwd).None? then None
            else
              var base := Render(Resolve("/", cwd).value);
              if |base| + 1 + |path| > PATH_MAX then None else Resolve("/", base + "/" + path)
  {
    if path != [] && Resolve("/", cwd).Some? {
      var base := Resolve("/", cwd).value;
      ResolveCanonical("/", cwd);
      ResolveRender("/", base);
      ResolveFrom("/", Render(base), path);
      assert Render(base) + "/" + path == Render(base) + ['/'] + path;
    }
  }

  /** The component at position i is refused after those before it: too long, or one too many. */
  predicate RefusedAt(cs: seq<string>, i: nat)
    requires i < |cs|
  {
    && cs[i] != "." && cs[i] != ".."
    && Resolve("/", Render(cs[..i])).Some?
    && (|cs[i]| > NAME_MAX || |Resolve("/", Render(cs[..i])).value| == DEPTH_MAX)
  }

  /** An absolute path is refused exactly when one of its components is. */
  lemma RefusedExactly(cwd: string, path: string)
    requires Absolute(path)
    ensures Resolve(cwd, path).None? <==> exists i :: 0 <= i < |Components(path)| && RefusedAt(Components(path), i)
  {
    var cs := Components(path);
    assert Resolve(cwd, path) == Fold([], cs);
    forall i | 0 <= i < |cs| && RefusedAt(cs, i)
      ensures Resolve(cwd, path).None?
    {
      RefusedStops(cs, i);
    }
    if Resolve(cwd, path).None? {
      var i := FirstRefused(cs);
      assert RefusedAt(Components(path), i);
    }
  }

  lemma RefusedStops(cs: seq<string>, i: nat)
    requires (forall k :: 0 <= k < |cs| ==> IsComponent(cs[k])) && i < |cs| && RefusedAt(cs, i)
    ensures Fold([], cs).None?
  {
    var q := Resolve("/", Render(cs[..i])).value;
    PrefixFold(cs, i);
    FoldConcat([], cs[..i], cs[i..]);
    assert cs[..i] + cs[i..] == cs;
    FirstStops(q, cs[i..]);
  }

  lemma FirstStops(stack: Path, cs: seq<string>)
    requires cs != [] && cs[0] != "." && cs[0] != ".." && (|cs[0]| > NAME_MAX || |stack| >= DEPTH_MAX)
    ensures Fold(stack, cs).None?
  {
  }

  lemma PrefixFold(cs: seq<string>, i: nat)
    requires i <= |cs| && forall k :: 0 <= k < |cs| ==> IsComponent(cs[k])
    ensures Resolve("/", Render(cs[..i])) == Fold([], cs[..i])
  {
    ComponentsOfRender(cs[..i]);
  }

  lemma {:induction false} FirstRefused(cs: seq<string>) returns (i: nat)
    requires (forall k :: 0 <= k < |cs| ==> IsComponent(cs[k])) && Fold([], cs).None?
    ensures i < |cs| && RefusedAt(cs, i)
  {
    var front, last := cs[..|cs| - 1], cs[|cs| - 1];
    assert cs == front + [last];
    FoldConcat([], front, [last]);
    if Fold([], front).None? {
      i := FirstRefused(front);
      assert front[..i] == cs[..i];
    } else {
      i := |cs| - 1;
      PrefixFold(cs, i);
      FoldOne(Fold([], front).value, last);
      FoldCanonical([], front);
    }
  }

  // ---------- the last component ----------

  /** In the canonical text the last slash stands right before the last component. */
  lemma RenderLast(p: Path)
    requires Canonical(p) && p != []
    ensures var front, last := p[..|p| - 1], p[|p| - 1];
            var split := |Join(front)|;
            && |Render(p)| == split + 1 + |last|
            && Render(p)[split] == '/'
            && Render(p)[..split] == Join(front)
            && Render(p)[split + 1..] == last
            && (forall i :: split < i < |Render(p)| ==> Render(p)[i] != '/')
            && (split == 0 <==> front == [])
  {
    var last := p[|p| - 1];
    assert ValidName(last);
    assert Render(p)[|Join(p[..|p| - 1])| + 1..] == last;
  }

  lemma {:induction false} RenderIsCString(p: Path)
    requires forall i :: 0 <= i < |p| ==> IsCString(p[i])
    ensures IsCString(Render(p))
  {
    JoinIsCString(p);
  }

  lemma {:induction false} JoinIsCString(p: Path)
    requires forall i :: 0 <= i < |p| ==> IsCString(p[i])
    ensures IsCString(Join(p))
  {
    if p != [] {
      JoinIsCString(p[..|p| - 1]);
    }
  }

  // ---------- when the output buffer is large enough ----------

  /** The canonical text of an absolute path, if there is one, fits a path buffer. */
  predicate FitsBuffer(path: string) {
    Absolute(path) ==>
      match Fold([], Components(path))
      case None => true
      case Some(p) => |Render(p)| <= PATH_MAX
  }

  lemma ShortPathFits(path: string)
    requires |path| <= PATH_MAX
    ensures FitsBuffer(path)
  {
    if Absolute(path) && Resolve("/", path).Some? {
      ResolveLength("/", path);
    }
  }

  /** A path of names of thirty-one characters. */
  function LongNames(depth: nat): (p: Path)
    ensures |p| == depth && forall i :: 0 <= i < depth ==> ValidName(p[i]) && |p[i]| == NAME_MAX && IsCString(p[i])
  {
    seq(depth, _ => seq(NAME_MAX, _ => 'a'))
  }

  /** The deepest path with the longest names. */
  function LongestPath(): Path { LongNames(DEPTH_MAX) }

  /** Its text, with one slash before each name, resolves to it. */
  lemma LongNamesText(depth: nat)
    requires 0 < depth <= DEPTH_MAX
    ensures Resolve("/", Render(LongNames(depth))) == Some(LongNames(depth))
    ensures |Render(LongNames(depth))| == depth * (NAME_MAX + 1)
  {
    ResolveRender("/", LongNames(depth));
    JoinLength(LongNames(depth));
    WeightOfEqualNames(LongNames(depth));
  }

  /** A length bound on absolute paths keeps the buffer safe exactly up to 127: four long names already overflow it. */
  lemma SafeLength(n: nat)
    ensures (forall path: string :: |path| <= n ==> FitsBuffer(path)) <==> n <= PATH_MAX
  {
    if n <= PATH_MAX {
      forall path: string | |path| <= n
        ensures FitsBuffer(path)
      {
        ShortPathFits(path);
      }
    } else {
      LongNamesText(4);
      assert |Render(LongNames(4))| <= n && !FitsBuffer(Render(LongNames(4)));
    }
  }

  /**
   * Nothing bounds an absolute path: normalization accepts the text of sixteen names of
   * thirty-one characters, and its canonical form needs 512 characters of a 128-byte buffer.
   */
  lemma LongAbsolutePathOverflows()
    ensures Resolve("/", Render(LongestPath())) == Some(LongestPath())
    ensures |Render(LongestPath())| == 512
    ensures !FitsBuffer(Render(LongestPath()))
  {
    LongNamesText(DEPTH_MAX);
  }

  lemma {:induction false} WeightOfEqualNames(p: Path)
    requires forall i :: 0 <= i < |p| ==> |p[i]| == NAME_MAX
    ensures Weight(p) == |p| * (NAME_MAX + 1)
  {
    if p != [] {
      WeightOfEqualNames(p[..|p| - 1]);
    }
  }
}
