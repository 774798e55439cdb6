/** What each call does to the tree of paths, spelled out. */
module Calls {
  import opened CStrings
  import opened Paths
  import opened Table
  import opened FileSystem
  import opened Refinement
  import opened Runs

  /** mkdir: a new path below a directory, with a node to spare, becomes a directory. */
  lemma MkdirDoes(s: State, path: string)
    requires Valid(s) && PathArg(path)
    ensures var m, r := Abs(s), Resolve("/", path);
            var (ok, s') := MkdirS(s, path);
            && (ok <==> r.Some? && r.value != [] && r.value !in m && |m| < FILE_MAX
                        && r.value[..|r.value| - 1] in m && m[r.value[..|r.value| - 1]].Dir?)
            && Abs(s') == if ok then m[r.value := Dir] else m
  {
    MkdirRefines(s, path);
  }

  /** touch: what exists stays as it is; otherwise such a path becomes an empty file. */
  lemma TouchDoes(s: State, path: string)
    requires Valid(s) && PathArg(path)
    ensures var m, r := Abs(s), Resolve("/", path);
            var (ok, s') := TouchS(s, path);
            && (ok <==> r.Some? && (r.value in m || (r.value != [] && |m| < FILE_MAX
                                                     && r.value[..|r.value| - 1] in m && m[r.value[..|r.value| - 1]].Dir?)))
            && Abs(s') == if ok && r.value !in m then m[r.value := File([])] else m
  {
    TouchRefines(s, path);
  }

  /** rmdir: a directory other than the root goes, if no path lies directly below it. */
  lemma RmdirDoes(s: State, path: string)
    requires Valid(s)
    ensures var m, r := Abs(s), Resolve("/", path);
            var (ok, s') := RmdirS(s, path);
            && (ok <==> r.Some? && r.value != [] && r.value in m && m[r.value].Dir?
                        && forall p :: p in m && |p| == |r.value| + 1 ==> p[..|r.value|] != r.value)
            && Abs(s') == if ok then m - {r.value} else m
  {
    RmdirRefines(s, path);
    var m, r := Abs(s), Resolve("/", path);
    if r.Some? && r.value != [] && r.value in m && m[r.value].Dir? {
      EmptyMeans(m, r.value);
    }
  }

  lemma EmptyMeans(m: Tree, q: Path)
    requires q in m && m[q].Dir?
    ensures IsEmptyDirectory(m, q) <==> forall p :: p in m && |p| == |q| + 1 ==> p[..|q|] != q
  {
    if IsEmptyDirectory(m, q) {
      forall p | p in m && |p| == |q| + 1
        ensures p[..|q|] != q
      {
        assert Parent(p) == p[..|q|];
      }
    } else {
      var p :| p in m && p != [] && Parent(p) == q;
      assert |p| == |q| + 1 && p[..|q|] == q;
    }
  }

  /** rm: a file goes. */
  lemma RemoveDoes(s: State, path: string)
    requires Valid(s)
    ensures var m, r := Abs(s), Resolve("/", path);
            var (ok, s') := RemoveS(s, path);
            && (ok <==> r.Some? && r.value in m && m[r.value].File?)
            && Abs(s') == if ok then m - {r.value} else m
  {
    RemoveRefines(s, path);
  }

  /** stat: a directory, or a file with the number of its bytes. */
  lemma StatDoes(s: State, path: string)
    requires Valid(s)
    ensures var m, r, info := Abs(s), Resolve("/", path), StatS(s, path);
            && (info.Some? <==> r.Some? && r.value in m)
            && (info.Some? ==> (info.value.0 <==> m[r.value].Dir?))
            && (info.Some? && m[r.value].File? ==> info.value.1 == |m[r.value].bytes|)
            && (info.Some? && m[r.value].Dir? ==> info.value.1 == 0)
  {
    StatRefines(s, path);
  }

  /** read: the first bytes of a file, as many as there are and fit; nothing changes. */
  lemma ReadDoes(s: State, path: string, capacity: nat)
    requires Valid(s) && !(s.backed && FileSlot(s.recs, path) == 63)
    ensures var m, r := Abs(s), Resolve("/", path);
            var (bytes, s') := ReadS(s, path, capacity);
            && Abs(s') == m
            && (bytes.Some? <==> r.Some? && r.value in m && m[r.value].File?)
            && (bytes.Some? ==> bytes.value <= m[r.value].bytes
                                && (|bytes.value| == capacity || (|bytes.value| < capacity && bytes.value == m[r.value].bytes)))
  {
    ReadEffect(s, path, capacity);
    ReadRefines(s, path, capacity);
    var m, r := Abs(s), Resolve("/", path);
    if r.Some? && r.value in m && m[r.value].File? {
      assert m[r.value].bytes[..|m[r.value].bytes|] == m[r.value].bytes;
    }
  }

  /** write: a file's bytes become the data, or the data behind what there was, as far as 4096 bytes go. */
  lemma WriteDoes(s: State, path: string, data: seq<Byte>, append: bool)
    requires Valid(s) && Faithful(s, Op.Write(path, data, append))
    ensures var m, r := Abs(s), Resolve("/", path);
            var (ok, s') := WriteS(s, path, data, append);
            && (ok <==> r.Some? && r.value in m && m[r.value].File?)
            && (!ok ==> Abs(s') == m)
            && (ok ==>
                  var whole := (if append then m[r.value].bytes else []) + data;
                  && r.value in Abs(s') && Abs(s')[r.value].File? && Abs(s') == m[r.value := Abs(s')[r.value]]
                  && var bytes := Abs(s')[r.value].bytes;
                     bytes <= whole && |bytes| <= CONTENT_MAX && (|bytes| < CONTENT_MAX ==> bytes == whole))
  {
    WriteStepExact(s, path, data, append);
  }

  /** cp: the target, which is a file or can be made, gets the source's bytes; everything else stays. */
  lemma CopyDoes(s: State, source: string, target: string)
    requires Valid(s) && PathArg(source) && PathArg(target) && Faithful(s, Op.Copy(source, target))
    ensures var m, from, to := Abs(s), Resolve("/", source), Resolve("/", target);
            var (ok, s') := CopyS(s, source, target);
            && (ok <==> && from.Some? && from.value in m && m[from.value].File? && to.Some?
                        && if to.value in m then m[to.value].File?
                           else && to.value != [] && |m| < FILE_MAX
                                && to.value[..|to.value| - 1] in m && m[to.value[..|to.value| - 1]].Dir?)
            && Abs(s') == if ok then m[to.value := m[from.value]] else m
  {
    CopyExact(s, source, target);
    CopyMeans(Abs(s), source, target);
  }

  lemma CopyMeans(m: Tree, source: string, target: string)
    ensures var from, to, (ok, m') := Resolve("/", source), Resolve("/", target), CopyTree(m, source, target);
            && (ok <==> && from.Some? && from.value in m && m[from.value].File? && to.Some?
                        && if to.value in m then m[to.value].File?
                           else && to.value != [] && |m| < FILE_MAX
                                && to.value[..|to.value| - 1] in m && m[to.value[..|to.value| - 1]].Dir?)
            && m' == if ok then m[to.value := m[from.value]] else m
  {
  }

  /** mv: the same without the source, also when it is its own target. */
  lemma MoveDoes(s: State, source: string, target: string)
    requires Valid(s) && PathArg(source) && PathArg(target) && Faithful(s, Op.Move(source, target))
    ensures var (copied, c) := CopyS(s, source, target);
            var (ok, s') := MoveS(s, source, target);
            && ok == copied
            && Abs(s') == if ok then Abs(c) - {Resolve("/", source).value} else Abs(s)
  {
    CopyExact(s, source, target);
    MoveExact(s, source, target);
  }
}
