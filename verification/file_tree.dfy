/** A directory tree as an immutable map from relative paths to the kind of
    object found there, with the operations the installer performs on it. */
module FileTree {
  import opened Common
  import opened OsPaths
  import opened PackageIndex

  /** What a regular file holds. A file written by the indexer holds the
      archived index; any other bytes are opaque. */
  datatype Content = Bytes(data: seq<uint8>) | IndexImage(index: Index)

  /** What `symlink_metadata` reports for a path. `Special` covers FIFOs,
      sockets and device nodes. */
  datatype Node = File(content: Content) | Dir | Symlink(target: OsPath) | Special

  /** The objects below some directory, keyed by their path relative to it.
      The directory itself is not a key. */
  type Tree = map<Path, Node>

  /** The content hash, an opaque function of a file's content. */
  type Hasher = Content -> Digest

  /** `symlink_metadata` relative to the tree's directory, which is itself a
      directory. */
  function Lookup(t: Tree, p: Path): (r: Option<Node>)
    ensures p == [] ==> r == Some(Dir)
    ensures p != [] ==> (r.Some? <==> p in t) && (p in t ==> r == Some(t[p]))
  {
    if p == [] then Some(Dir) else if p in t then Some(t[p]) else None
  }

  /** A tree a real file system could hold: every key names a real entry and
      every entry's parent is a directory. */
  predicate WellFormed(t: Tree) {
    && (forall p | p in t :: p != [] && forall i | 0 <= i < |p| :: ValidName(p[i]))
    && (forall p | p in t && |p| > 1 :: Lookup(t, p[..|p| - 1]) == Some(Dir))
  }

  /** In a well-formed tree every proper ancestor of an entry is a directory. */
  lemma {:induction false} AncestorsAreDirs(t: Tree, p: Path, i: nat)
    requires WellFormed(t) && p in t && 0 < i < |p|
    ensures Lookup(t, p[..i]) == Some(Dir)
    decreases |p| - i
  {
    var parent := p[..|p| - 1];
    assert Lookup(t, parent) == Some(Dir);
    if i < |p| - 1 {
      AncestorsAreDirs(t, parent, i);
      assert parent[..i] == p[..i];
    }
  }

  /** Every path a walk yields is an entry of the tree. */
  predicate WalkWithin(t: Tree, w: seq<Path>) {
    forall i | 0 <= i < |w| :: w[i] in t
  }

  /** A walk yields each directory before anything inside it: no entry lies
      inside itself or inside an entry yielded after it. */
  predicate AncestorsFirst(w: seq<Path>) {
    forall i, j | 0 <= i <= j < |w| :: !IsUnder(w[i], w[j])
  }

  /** A complete `WalkDir` traversal below the root of `t`, in some directory
      order: it yields entries of the tree, all of them, ancestors first. */
  predicate IsWalk(t: Tree, w: seq<Path>) {
    && WalkWithin(t, w)
    && (forall p | p in t :: p in w)
    && AncestorsFirst(w)
  }

  /** The entries of a walk that lie strictly inside `p`. The contract states
      which entries are kept; the order they keep is stated only as far as
      the model needs it, by `WalkUnderAncestorsFirst`. */
  function WalkUnder(w: seq<Path>, p: Path): (r: seq<Path>)
    ensures forall x | x in r :: x in w && IsUnder(x, p)
    ensures forall x | x in w && IsUnder(x, p) :: x in r
    ensures |r| <= |w|
    decreases |w|
  {
    if w == [] then []
    else (if IsUnder(w[0], p) then [w[0]] else []) + WalkUnder(w[1..], p)
  }

  /** The entries of a walk outside `p`: what remains after
      `skip_current_dir` on the directory `p`. The contract states which
      entries are kept; `WalkOutsideAncestorsFirst` states that they stay
      ancestors-first. */
  function WalkOutside(w: seq<Path>, p: Path): (r: seq<Path>)
    ensures forall x | x in r :: x in w && !IsUnder(x, p)
    ensures forall x | x in w && !IsUnder(x, p) :: x in r
    ensures |r| <= |w|
    decreases |w|
  {
    if w == [] then []
    else (if IsUnder(w[0], p) then [] else [w[0]]) + WalkOutside(w[1..], p)
  }

  /** Filtering keeps a walk ancestors-first. */
  lemma {:induction false} WalkOutsideAncestorsFirst(w: seq<Path>, p: Path)
    requires AncestorsFirst(w)
    ensures AncestorsFirst(WalkOutside(w, p))
    decreases |w|
  {
    if w != [] {
      var tail := w[1..];
      assert AncestorsFirst(tail) by {
        forall i, j | 0 <= i <= j < |tail|
          ensures !IsUnder(tail[i], tail[j])
        {
          assert w[j + 1] == tail[j] && w[i + 1] == tail[i];
        }
      }
      WalkOutsideAncestorsFirst(tail, p);
      var rt := WalkOutside(tail, p);
      var r := WalkOutside(w, p);
      if !IsUnder(w[0], p) {
        assert r == [w[0]] + rt;
        forall i, j | 0 <= i <= j < |r|
          ensures !IsUnder(r[i], r[j])
        {
          if i == 0 {
            if j > 0 {
              assert r[j] in tail;
              var k :| 0 <= k < |tail| && tail[k] == r[j];
              assert w[k + 1] == r[j];
            }
          } else {
            assert r[j] == rt[j - 1] && r[i] == rt[i - 1];
          }
        }
      }
    }
  }

  /** `remove_dir_all` (or `remove_file` on a non-directory): `p` and
      everything inside it disappear; nothing else changes. */
  function RemoveTree(t: Tree, p: Path): (r: Tree)
    ensures forall q :: q in r <==> q in t && !AtOrUnder(q, p)
    ensures forall q | q in r :: r[q] == t[q]
  {
    map q | q in t && !AtOrUnder(q, p) :: t[q]
  }

  /** True when a new entry can be made at `p`: its parent is a directory. */
  predicate ParentIsDir(t: Tree, p: Path) {
    p != [] && Lookup(t, p[..|p| - 1]) == Some(Dir)
  }
}
