/** Copying one path of an old installation, with everything inside it, into
    the staged tree of a new one. */
module MergePaths {
  import opened Common
  import opened OsPaths
  import opened FileTree

  datatype MergeError =
    | SourceMissing(path: Path)
    | SourceUnreadable(path: Path)
    | ParentNotADirectory(path: Path)
    | AlreadyExists(path: Path)
    | IsADirectory(path: Path)

  /** Opening a source path for reading and reading it to the end, following
      links, as `fs::copy` does: the content read, or nothing when that
      fails. */
  type Reader = Path -> Option<Content>

  /** The reader gives every regular file of the source its own content. */
  predicate ReadsFiles(src: Tree, read: Reader) {
    forall p | p in src && src[p].File? :: read(p) == Some(src[p].content)
  }

  /** What `symlink_metadata` says of a destination path. */
  datatype DestKind = DestDir | FileLike | Absent

  function KindAt(d: Tree, p: Path): (k: DestKind)
    ensures k == DestDir <==> Lookup(d, p) == Some(Dir)
    ensures k == Absent <==> Lookup(d, p).None?
  {
    match Lookup(d, p)
    case None => Absent
    case Some(Dir) => DestDir
    case Some(_) => FileLike
  }

  /** `create_dir`: the parent must be a directory and the name free. */
  function CreateDir(d: Tree, p: Path): (r: Result<Tree, MergeError>)
    ensures r.Ok? <==> ParentIsDir(d, p) && p !in d
    ensures r.Ok? ==> r.value == d[p := Dir]
  {
    if !ParentIsDir(d, p) then Err(ParentNotADirectory(p))
    else if p in d then Err(AlreadyExists(p))
    else Ok(d[p := Dir])
  }

  /** `fs::copy` of content already read: the parent must be a directory and
      the destination must not be one; the destination becomes a regular
      file holding the content. */
  function CopyInto(d: Tree, p: Path, c: Content): (r: Result<Tree, MergeError>)
    ensures r.Ok? <==> ParentIsDir(d, p) && KindAt(d, p) != DestDir
    ensures r.Ok? ==> r.value == d[p := File(c)]
  {
    if !ParentIsDir(d, p) then Err(ParentNotADirectory(p))
    else if KindAt(d, p) == DestDir then Err(IsADirectory(p))
    else Ok(d[p := File(c)])
  }

  /** Nothing outside `p` differs between two trees. */
  ghost predicate SameOutside(d: Tree, r: Tree, p: Path) {
    forall q | !AtOrUnder(q, p) :: Lookup(r, q) == Lookup(d, q)
  }

  /** The object a source object becomes at its destination: a directory
      stays a directory, anything else becomes a regular file with the
      content read from it. */
  function Mirror(srcPath: Path, srcNode: Node, read: Reader): Option<Node> {
    if srcNode.Dir? then Some(Dir)
    else match read(srcPath)
      case None => None
      case Some(c) => Some(File(c))
  }

  /** One step of `merge_paths`: make `to` mirror the source object. */
  function MergeEntry(d: Tree, srcPath: Path, srcNode: Node, to: Path, read: Reader): (r: Result<Tree, MergeError>)
    // What the destination becomes.
    ensures r.Ok? ==> Lookup(r.value, to) == Mirror(srcPath, srcNode, read)
    // Nothing outside the destination changes.
    ensures r.Ok? ==> SameOutside(d, r.value, to)
    // A directory onto a directory overlays it: nothing is removed.
    ensures srcNode.Dir? && KindAt(d, to) == DestDir ==> r == Ok(d)
    // A directory onto anything else, or nothing, needs a directory as parent.
    ensures srcNode.Dir? && KindAt(d, to) != DestDir ==> (r.Ok? <==> ParentIsDir(d, to))
    // A file needs a readable source and a directory as parent.
    ensures !srcNode.Dir? ==> (r.Ok? <==> read(srcPath).Some? && ParentIsDir(d, to))
    // A file onto a directory removes everything that was inside it.
    ensures !srcNode.Dir? && KindAt(d, to) == DestDir && r.Ok? ==> forall q | IsUnder(q, to) :: q !in r.value
    // A file onto a file-like object or nothing leaves what lies inside alone.
    ensures !srcNode.Dir? && KindAt(d, to) != DestDir && r.Ok? ==>
      forall q | IsUnder(q, to) :: Lookup(r.value, q) == Lookup(d, q)
  {
    match (srcNode.Dir?, KindAt(d, to))
    case (true, DestDir) => Ok(d)
    case (true, FileLike) => CreateDir(d - {to}, to)
    case (true, Absent) => CreateDir(d, to)
    case (false, kind) =>
      var cleared := if kind == DestDir then RemoveTree(d, to) else d;
      match read(srcPath)
      case None => Err(SourceUnreadable(srcPath))
      case Some(c) => CopyInto(cleared, to, c)
  }

  /** The steps of `merge_paths` for the source entries `from + rels[i]`,
      each merged onto `to + rels[i]`, in order; the first failure stops it. */
  function MergeAll(src: Tree, d: Tree, from: Path, to: Path, rels: seq<Path>, read: Reader): (r: Result<Tree, MergeError>)
    ensures r.Ok? ==> SameOutside(d, r.value, to)
    decreases |rels|
  {
    if rels == [] then Ok(d)
    else
      match Lookup(src, from + rels[0])
      case None => Err(SourceMissing(from + rels[0]))
      case Some(n) =>
        match MergeEntry(d, from + rels[0], n, to + rels[0], read)
        case Err(e) => Err(e)
        case Ok(d1) =>
          AtOrUnderAppend(to, rels[0]);
          var r := MergeAll(src, d1, from, to, rels[1..], read);
          if r.Ok? then
            assert forall q | !AtOrUnder(q, to) :: !AtOrUnder(q, to + rels[0]) by {
              forall q | AtOrUnder(q, to + rels[0])
                ensures AtOrUnder(q, to)
              {
                assert q[..|to|] == q[..|to + rels[0]|][..|to|];
              }
            }
            r
          else r
  }

  /** Appending to a common prefix keeps and reflects containment. */
  lemma AppendAtOrUnder(to: Path, a: Path, b: Path)
    ensures AtOrUnder(to + a, to + b) <==> AtOrUnder(a, b)
    ensures IsUnder(to + a, to + b) <==> IsUnder(a, b)
  {
    if AtOrUnder(a, b) {
      assert (to + a)[..|to + b|] == to + a[..|b|];
    }
    if AtOrUnder(to + a, to + b) {
      assert a[..|b|] == (to + a)[..|to + b|][|to|..];
    }
  }

  /** A destination none of whose merge steps is at or above it is left alone. */
  lemma {:induction false} MergeAllUntouched(src: Tree, d: Tree, from: Path, to: Path, rels: seq<Path>, read: Reader, q: Path)
    requires MergeAll(src, d, from, to, rels, read).Ok?
    requires forall j | 0 <= j < |rels| :: !AtOrUnder(q, to + rels[j])
    ensures Lookup(MergeAll(src, d, from, to, rels, read).value, q) == Lookup(d, q)
    decreases |rels|
  {
    if rels != [] {
      var n := Lookup(src, from + rels[0]).value;
      var d1 := MergeEntry(d, from + rels[0], n, to + rels[0], read).value;
      assert !AtOrUnder(q, to + rels[0]);
      assert forall j | 0 <= j < |rels[1..]| :: rels[1..][j] == rels[j + 1];
      MergeAllUntouched(src, d1, from, to, rels[1..], read, q);
    }
  }

  /** After a successful merge over an ancestors-first list, every
      destination mirrors its source object. */
  lemma {:induction false} MergeAllMirrors(src: Tree, d: Tree, from: Path, to: Path, rels: seq<Path>, read: Reader)
    requires AncestorsFirst(rels)
    requires MergeAll(src, d, from, to, rels, read).Ok?
    ensures forall i | 0 <= i < |rels| ::
      Lookup(src, from + rels[i]).Some? &&
      Lookup(MergeAll(src, d, from, to, rels, read).value, to + rels[i]) ==
        Mirror(from + rels[i], Lookup(src, from + rels[i]).value, read)
    decreases |rels|
  {
    if rels != [] {
      var n := Lookup(src, from + rels[0]).value;
      var d1 := MergeEntry(d, from + rels[0], n, to + rels[0], read).value;
      var tail := rels[1..];
      var res := MergeAll(src, d, from, to, rels, read).value;
      assert MergeAll(src, d1, from, to, tail, read) == Ok(res);
      assert AncestorsFirst(tail) by {
        forall i, j | 0 <= i <= j < |tail|
          ensures !IsUnder(tail[i], tail[j])
        {
          assert tail[i] == rels[i + 1] && tail[j] == rels[j + 1];
        }
      }
      MergeAllMirrors(src, d1, from, to, tail, read);
      if rels[0] !in tail {
        forall j | 0 <= j < |tail|
          ensures !AtOrUnder(to + rels[0], to + tail[j])
        {
          assert tail[j] == rels[j + 1] && rels[0] != tail[j];
          assert !IsUnder(rels[0], rels[j + 1]);
          AtOrUnderCases(rels[0], tail[j]);
          AppendAtOrUnder(to, rels[0], tail[j]);
        }
        MergeAllUntouched(src, d1, from, to, tail, read, to + rels[0]);
      }
      forall i | 0 <= i < |rels|
        ensures Lookup(src, from + rels[i]).Some? &&
          Lookup(res, to + rels[i]) == Mirror(from + rels[i], Lookup(src, from + rels[i]).value, read)
      {
        if i > 0 {
          assert rels[i] == tail[i - 1];
        } else if rels[0] in tail {
          var j :| 0 <= j < |tail| && tail[j] == rels[0];
        }
      }
    }
  }

  /** The entries a walk of `from` yields, relative to it: `from` itself
      first, then what lies inside it, in walk order. */
  function WalkFrom(w: seq<Path>, from: Path): (r: seq<Path>)
    ensures |r| == |WalkUnder(w, from)| + 1 && r[0] == []
    ensures forall i | 0 <= i < |r| :: from + r[i] == (if i == 0 then from else WalkUnder(w, from)[i - 1])
  {
    var under := WalkUnder(w, from);
    assert forall i | 0 <= i < |under| :: under[i] in under;
    assert forall i | 0 <= i < |under| :: from + under[i][|from|..] == under[i];
    [[]] + seq(|under|, i requires 0 <= i < |under| => under[i][|from|..])
  }

  /** Filtering keeps a walk ancestors-first. */
  lemma {:induction false} WalkUnderAncestorsFirst(w: seq<Path>, p: Path)
    requires AncestorsFirst(w)
    ensures AncestorsFirst(WalkUnder(w, p))
    decreases |w|
  {
    if w != [] {
      var tail := w[1..];
      assert AncestorsFirst(tail) by {
        forall i, j | 0 <= i <= j < |tail|
          ensures !IsUnder(tail[i], tail[j])
        {
          assert w[j + 1] == tail[j] && w[i + 1] == tail[i];
        }
      }
      WalkUnderAncestorsFirst(tail, p);
      var rt := WalkUnder(tail, p);
      var r := WalkUnder(w, p);
      if IsUnder(w[0], p) {
        assert r == [w[0]] + rt;
        forall i, j | 0 <= i <= j < |r|
          ensures !IsUnder(r[i], r[j])
        {
          if i == 0 {
            if j > 0 {
              assert r[j] in tail;
              var k :| 0 <= k < |tail| && tail[k] == r[j];
              assert w[k + 1] == r[j];
            }
          } else {
            assert r[j] == rt[j - 1] && r[i] == rt[i - 1];
          }
        }
      }
    }
  }

  /** A walk of `from` is ancestors-first when the whole walk is. */
  lemma WalkFromAncestorsFirst(w: seq<Path>, from: Path)
    requires AncestorsFirst(w)
    ensures AncestorsFirst(WalkFrom(w, from))
  {
    var r := WalkFrom(w, from);
    var under := WalkUnder(w, from);
    WalkUnderAncestorsFirst(w, from);
    forall i, j | 0 <= i <= j < |r|
      ensures !IsUnder(r[i], r[j])
    {
      if i > 0 {
        assert from + r[i] == under[i - 1] && from + r[j] == under[j - 1];
        AppendAtOrUnder(from, r[i], r[j]);
      }
    }
  }

  /** `merge_paths(from, to)`: walk the source from `from` and make each
      destination below `to` mirror it. */
  function Merge(src: Tree, d: Tree, from: Path, to: Path, w: seq<Path>, read: Reader): (r: Result<Tree, MergeError>)
    ensures r.Ok? ==> SameOutside(d, r.value, to)
  {
    MergeAll(src, d, from, to, WalkFrom(w, from), read)
  }

  /** After a successful merge, `to` mirrors `from` and every walked path
      inside `from` is mirrored at the same place inside `to`. */
  lemma MergeMirrors(src: Tree, d: Tree, from: Path, to: Path, w: seq<Path>, read: Reader)
    requires AncestorsFirst(w)
    requires Merge(src, d, from, to, w, read).Ok?
    ensures var r := Merge(src, d, from, to, w, read).value;
      Lookup(src, from).Some? && Lookup(r, to) == Mirror(from, Lookup(src, from).value, read)
    ensures var r := Merge(src, d, from, to, w, read).value;
      forall rel | from + rel in w && rel != [] ::
        Lookup(src, from + rel).Some? && Lookup(r, to + rel) == Mirror(from + rel, Lookup(src, from + rel).value, read)
  {
    var rels := WalkFrom(w, from);
    WalkFromAncestorsFirst(w, from);
    MergeAllMirrors(src, d, from, to, rels, read);
    assert from + rels[0] == from && to + rels[0] == to;
    forall rel | from + rel in w && rel != []
      ensures Lookup(src, from + rel).Some? &&
        Lookup(Merge(src, d, from, to, w, read).value, to + rel) == Mirror(from + rel, Lookup(src, from + rel).value, read)
    {
      AtOrUnderAppend(from, rel);
      var under := WalkUnder(w, from);
      var k :| 0 <= k < |under| && under[k] == from + rel;
      assert from + rels[k + 1] == from + rel;
      assert rels[k + 1] == (from + rels[k + 1])[|from|..] == rel;
    }
  }
}
