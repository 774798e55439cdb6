/** Path normalization as the kernel runs it, on character buffers. */
module Normalize {
  import opened CStrings
  import opened Paths

  const BUFFER := PATH_MAX + 1

  /** Collapses '.', '..' and repeated slashes; 0 and the canonical text in out, or -1. */
  method VfsNormalize(cwd: string, path: string, out: array<char>) returns (rc: int)
    requires IsCString(cwd) && IsCString(path)
    requires FitsBuffer(path) && (!Absolute(path) ==> FitsBuffer(cwd))
    requires out.Length == BUFFER
    modifies out
    ensures rc == if Resolve(cwd, path).Some? then 0 else -1
    ensures rc == 0 ==> CStr(out[..]) == Render(Resolve(cwd, path).value)
    decreases if Absolute(path) then 0 else if Absolute(cwd) then 1 else 2
  {
    if path == [] {
      return -1;
    }
    out[0] := '\0';
    if path[0] != '/' {
      rc := NormalizeRelative(cwd, path, out);
    } else {
      rc := NormalizeAbsolute(path, out);
    }
  }

  /** The branch for a relative path: glue it to the normalized working directory and start over. */
  method NormalizeRelative(cwd: string, path: string, out: array<char>) returns (rc: int)
    requires IsCString(cwd) && IsCString(path)
    requires path != [] && !Absolute(path) && FitsBuffer(cwd)
    requires out.Length == BUFFER
    modifies out
    ensures rc == if Resolve(cwd, path).Some? then 0 else -1
    ensures rc == 0 ==> CStr(out[..]) == Render(Resolve(cwd, path).value)
    decreases if Absolute(cwd) then 1 else 2, 0
  {
    var work := new char[BUFFER](_ => '\0');
    rc := VfsNormalize("/", cwd, work);
    if rc != 0 {
      return;
    }
    var text := ReadCString(work);
    WorkingDirectoryText(cwd);
    if |text| + 1 + |path| > PATH_MAX {
      return -1;
    }
    Glue(text, path, out);
    GluedResolves(cwd, path);
    var whole := ReadCString(out);
    rc := VfsNormalize("/", whole, work);
    if rc == 0 {
      var result := ReadCString(work);
      CopyInto(out, result, BUFFER);
    }
  }

  lemma WorkingDirectoryText(cwd: string)
    requires IsCString(cwd) && Resolve("/", cwd).Some?
    ensures IsCString(Render(Resolve("/", cwd).value))
  {
    ResolveIsCString("/", cwd);
    RenderIsCString(Resolve("/", cwd).value);
  }

  /** Normalizing the glued text from the root is resolving the relative path from cwd, failures included. */
  lemma GluedResolves(cwd: string, path: string)
    requires IsCString(cwd) && IsCString(path)
    requires path != [] && !Absolute(path) && Resolve("/", cwd).Some?
    requires |Render(Resolve("/", cwd).value)| + 1 + |path| <= PATH_MAX
    ensures var text := Glued(Render(Resolve("/", cwd).value), path);
            && Absolute(text) && FitsBuffer(text)
            && Resolve("/", text) == Resolve(cwd, path)
            && (Resolve(cwd, path).Some? ==>
                  && IsCString(Render(Resolve(cwd, path).value))
                  && |Render(Resolve(cwd, path).value)| <= PATH_MAX)
  {
    var base := Resolve("/", cwd).value;
    ResolveCanonical("/", cwd);
    JoinNotSlash(base);
    ResolveGlued(base, path);
    ShortPathFits(Glued(Render(base), path));
    if Resolve(cwd, path).Some? {
      ResolveLength(cwd, path);
      ResolveIsCString(cwd, path);
      RenderIsCString(Resolve(cwd, path).value);
    }
  }

  function Glued(text: string, path: string): string {
    text + (if |text| > 1 then ['/'] else []) + path
  }

  /** Writes the working directory, a slash unless it is the root, and the path. */
  method Glue(text: string, path: string, out: array<char>)
    requires IsCString(text) && IsCString(path)
    requires |text| + 1 + |path| <= PATH_MAX && out.Length == BUFFER
    modifies out
    ensures IsCString(Glued(text, path)) && CStr(out[..]) == Glued(text, path)
  {
    var length := AppendText(out, 0, text);
    if length > 1 {
      out[length] := '/';
      length := length + 1;
    }
    length := AppendText(out, length, path);
    assert out[..length] == Glued(text, path);
    Terminate(out, length);
  }

  /** Appends a text at position length, stopping at the last byte of a path buffer. */
  method AppendText(buffer: array<char>, length: nat, text: string) returns (end: nat)
    requires length <= PATH_MAX < buffer.Length
    modifies buffer
    ensures length <= end <= PATH_MAX
    ensures end == if length + |text| <= PATH_MAX then length + |text| else PATH_MAX
    ensures buffer[..end] == old(buffer[..length]) + text[..end - length]
  {
    var j := 0;
    end := length;
    while j < |text| && end < PATH_MAX
      invariant 0 <= j <= |text| && end == length + j <= PATH_MAX
      invariant buffer[..end] == old(buffer[..length]) + text[..j]
    {
      buffer[end] := text[j];
      end := end + 1;
      j := j + 1;
    }
  }

  /** The root is the only canonical path of length one. */
  lemma JoinNotSlash(p: Path)
    requires Canonical(p)
    ensures |Render(p)| > 1 <==> p != []
  {
    if p != [] {
      assert ValidName(p[|p| - 1]);
    }
  }

  /** A stack of components: short names, none of them special, all of them C strings. */
  ghost predicate Stack(p: Path) {
    Canonical(p) && forall d :: 0 <= d < |p| ==> IsCString(p[d])
  }

  /** The branch for an absolute path: keep a stack of components, then write it out. */
  method NormalizeAbsolute(path: string, out: array<char>) returns (rc: int)
    requires IsCString(path) && Absolute(path) && FitsBuffer(path)
    requires out.Length == BUFFER
    modifies out
    ensures rc == if Fold([], Components(path)).Some? then 0 else -1
    ensures rc == 0 ==> CStr(out[..]) == Render(Fold([], Components(path)).value)
  {
    var parts := new string[DEPTH_MAX](_ => []);
    var depth, i := 0, 1;
    ghost var whole := Fold([], Components(path));
    assert parts[..0] == [];
    while i < |path|
      invariant 1 <= i <= |path| && depth <= DEPTH_MAX
      invariant Stack(parts[..depth])
      invariant Fold(parts[..depth], Components(path[i..])) == whole
    {
      var start := i;
      i := SkipWhile(path, i, false);
      if i > start {
        FoldFirst(parts[..depth], path, start, i);
        var next := PushPart(parts, depth, path[start..i]);
        if next < 0 {
          return -1;
        }
        depth := next;
      }
      ghost var before := i;
      i := SkipWhile(path, i, true);
      SlashesSkipped(path, before, i);
    }
    assert whole == Some(parts[..depth]);
    WriteOut(parts, depth, out);
    rc := 0;
  }

  /** Folding what is left is pushing the first component and folding the rest. */
  lemma FoldFirst(stack: Path, path: string, start: nat, i: nat)
    requires IsCString(path) && start < i <= |path|
    requires (forall k :: start <= k < i ==> path[k] != '/') && (i < |path| ==> path[i] == '/')
    ensures IsComponent(path[start..i]) && IsCString(path[start..i])
    ensures Fold(stack, Components(path[start..])) == match Push(stack, path[start..i])
                                                      case None => None
                                                      case Some(next) => Fold(next, Components(path[i..]))
  {
    FirstComponent(path, start, i);
    assert ([path[start..i]] + Components(path[i..]))[1..] == Components(path[i..]);
  }

  /** The characters up to the next slash are the first component of what is left. */
  lemma FirstComponent(path: string, start: nat, i: nat)
    requires IsCString(path) && start < i <= |path|
    requires (forall k :: start <= k < i ==> path[k] != '/') && (i < |path| ==> path[i] == '/')
    ensures IsComponent(path[start..i]) && IsCString(path[start..i])
    ensures Components(path[start..]) == [path[start..i]] + Components(path[i..])
  {
    SpanBound(path[start..], i - start);
    assert path[start..i] == path[start..][..i - start] && path[start..][i - start..] == path[i..];
  }

  /** The end of the run of slashes, or of other characters, that starts at i. */
  method SkipWhile(path: string, i: nat, slashes: bool) returns (end: nat)
    requires i <= |path|
    ensures i <= end <= |path|
    ensures forall k :: i <= k < end ==> (path[k] == '/') == slashes
    ensures end < |path| ==> (path[end] == '/') != slashes
  {
    end := i;
    while end < |path| && (path[end] == '/') == slashes
      invariant i <= end <= |path|
      invariant forall k :: i <= k < end ==> (path[k] == '/') == slashes
    {
      end := end + 1;
    }
  }

  lemma {:induction false} SlashesSkipped(path: string, i: nat, end: nat)
    requires i <= end <= |path|
    requires forall k :: i <= k < end ==> path[k] == '/'
    ensures Components(path[i..]) == Components(path[end..])
    decreases end - i
  {
    if i < end {
      SlashesSkipped(path, i + 1, end);
      assert path[i..][1..] == path[i + 1..];
    }
  }

  /** One component against the stack; the new depth, or -1 when the path is refused. */
  method PushPart(parts: array<string>, depth: nat, c: string) returns (next: int)
    requires depth <= DEPTH_MAX == parts.Length
    requires IsComponent(c) && IsCString(c) && Stack(parts[..depth])
    modifies parts
    ensures next < 0 <==> Push(old(parts[..depth]), c) == None
    ensures next >= 0 ==> next <= DEPTH_MAX && Push(old(parts[..depth]), c) == Some(parts[..next])
    ensures next >= 0 ==> Stack(parts[..next])
  {
    var n := |c|;
    ghost var stack := parts[..depth];
    next := depth;
    if n == 1 && c[0] == '.' {
      assert c == ".";
    } else if n == 2 && c[0] == '.' && c[1] == '.' {
      assert c == "..";
      if depth > 0 {
        next := depth - 1;
      }
      assert parts[..next] == if stack == [] then [] else stack[..|stack| - 1];
    } else if n <= NAME_MAX && depth < DEPTH_MAX {
      var j := 0;
      parts[depth] := [];
      while j < n
        invariant 0 <= j <= n && parts[..depth] == stack
        invariant parts[depth] == c[..j]
      {
        parts[depth] := parts[depth] + [c[j]];
        j := j + 1;
      }
      next := depth + 1;
      assert c[..j] == c;
      assert parts[..next] == stack + [c];
    } else {
      next := -1;
    }
  }

  /** Writes the stack as text.  The bound keeps every store inside the buffer. */
  method WriteOut(parts: array<string>, depth: nat, out: array<char>)
    requires depth <= parts.Length && Stack(parts[..depth]) && |Render(parts[..depth])| <= PATH_MAX
    requires out.Length == BUFFER
    modifies out
    ensures CStr(out[..]) == Render(parts[..depth])
  {
    var length := 1;
    out[0] := '/';
    ghost var p := parts[..depth];
    var i := 0;
    while i < depth
      invariant 0 <= i <= depth && parts[..depth] == p
      invariant 0 <= length <= PATH_MAX && out[..length] == Render(p[..i])
    {
      length := WriteComponent(parts[i], length, out, p, i);
      i := i + 1;
    }
    assert p[..i] == p;
    RenderIsCString(p);
    Terminate(out, length);
  }

  /** Writes component i of a stack behind the components before it. */
  method WriteComponent(c: string, length: nat, out: array<char>, ghost p: Path, ghost i: nat) returns (end: nat)
    requires i < |p| && c == p[i] && Canonical(p) && |Render(p)| <= PATH_MAX
    requires out.Length == BUFFER && length <= PATH_MAX && out[..length] == Render(p[..i])
    modifies out
    ensures end <= PATH_MAX && out[..end] == Render(p[..i + 1])
  {
    RenderGrows(p, i);
    ghost var front := Render(p[..i]) + (if length > 1 then ['/'] else []);
    end := length;
    if end > 1 {
      out[end] := '/';
      end := end + 1;
    }
    assert out[..end] == front;
    end := AppendText(out, end, c);
  }

  method Terminate(out: array<char>, length: nat)
    requires length < out.Length && IsCString(out[..length])
    modifies out
    ensures CStr(out[..]) == old(out[..length])
  {
    out[length] := '\0';
    assert out[..length] == old(out[..length]);
    CStrCut(out[..], length);
  }

  lemma RenderAppend(front: Path, c: string)
    ensures Render(front + [c]) == (if front == [] then ['/'] else Render(front) + ['/']) + c
  {
    var p := front + [c];
    assert p[..|p| - 1] == front;
    assert Join(p) == Join(front) + ['/'] + c;
    assert [] + ['/'] == ['/'];
  }

  /** The text of a canonical path, one component at a time. */
  lemma RenderGrows(p: Path, i: nat)
    requires Canonical(p) && i < |p|
    ensures var front := Render(p[..i]) + (if |Render(p[..i])| > 1 then ['/'] else []);
            Render(p[..i + 1]) == front + p[i]
    ensures |Render(p[..i + 1])| <= |Render(p)|
  {
    JoinNotSlash(p[..i]);
    RenderAppend(p[..i], p[i]);
    assert p[..i + 1] == p[..i] + [p[i]];
    assert ['/'] + [] == ['/'];
    PrefixShorter(p, i + 1);
  }

  lemma PrefixShorter(p: Path, n: nat)
    requires 0 < n <= |p|
    ensures |Render(p[..n])| <= |Render(p)|
  {
    JoinLength(p);
    JoinLength(p[..n]);
    WeightConcat(p[..n], p[n..]);
    assert p == p[..n] + p[n..];
  }

  /** The C string in a buffer, read up to its terminator. */
  method ReadCString(buffer: array<char>) returns (s: string)
    ensures s == CStr(buffer[..])
  {
    var n := 0;
    while n < buffer.Length && buffer[n] != '\0'
      invariant n <= buffer.Length
      invariant CStr(buffer[..]) == buffer[..n] + CStr(buffer[n..])
    {
      assert buffer[n..][1..] == buffer[n + 1..];
      n := n + 1;
    }
    s := buffer[..n];
  }

  /** Bounded copy: as much of the source as fits with its terminator. */
  method CopyInto(target: array<char>, source: string, max: nat)
    requires IsCString(source) && 0 < max <= target.Length
    modifies target
    ensures CStr(target[..]) == if |source| < max then source else source[..max - 1]
  {
    var i := 0;
    while i < |source| && i + 1 < max
      invariant 0 <= i <= |source| && i < max
      invariant target[..i] == source[..i]
    {
      target[i] := source[i];
      i := i + 1;
    }
    Terminate(target, i);
  }
}
