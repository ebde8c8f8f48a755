/** Paths as sequences of components, the way the standard library compares
    and manipulates them. */
module OsPaths {
  import opened Common

  /** One path component as the operating system stores it: either valid
      Unicode text, or a byte string that is not valid Unicode (such names are
      told apart only by equality, so an opaque number stands for the bytes). */
  datatype OsName = Text(text: string) | NonUnicode(raw: nat)

  /** A sequence of components; relative to some base unless said otherwise. */
  type Path = seq<OsName>

  /** A name a directory entry can have on a Unix file system. */
  predicate ValidName(n: OsName) {
    n.Text? ==> n.text != "" && n.text != "." && n.text != ".." && '/' !in n.text
  }

  /** `q` is `p` itself or lies inside it. */
  predicate AtOrUnder(q: Path, p: Path) {
    |p| <= |q| && q[..|p|] == p
  }

  /** `q` lies strictly inside `p`. */
  predicate IsUnder(q: Path, p: Path) {
    |p| < |q| && q[..|p|] == p
  }

  lemma UnderTransitive(a: Path, b: Path, c: Path)
    requires IsUnder(a, b) && IsUnder(b, c)
    ensures IsUnder(a, c)
  {
    assert a[..|c|] == a[..|b|][..|c|];
  }

  /** Being at or under a path is being it or lying strictly inside it. */
  lemma AtOrUnderCases(q: Path, p: Path)
    ensures AtOrUnder(q, p) <==> q == p || IsUnder(q, p)
  {
    if AtOrUnder(q, p) && |q| == |p| {
      assert q == q[..|p|];
    }
  }

  lemma AtOrUnderAppend(p: Path, q: Path)
    ensures AtOrUnder(p + q, p)
    ensures q != [] ==> IsUnder(p + q, p)
  {
    assert (p + q)[..|p|] == p;
  }

  /** A path as `read_link` returns it: absolute or relative. */
  datatype OsPath = OsPath(absolute: bool, comps: Path)

  /** `Path::strip_prefix` against an absolute base: it succeeds exactly when
      the path is absolute and its components begin with the base's, and the
      remainder is what follows them. */
  function StripPrefix(p: OsPath, base: Path): (r: Option<Path>)
    ensures r.Some? <==> p.absolute && AtOrUnder(p.comps, base)
    ensures r.Some? ==> base + r.value == p.comps
  {
    if p.absolute && AtOrUnder(p.comps, base) then
      assert p.comps == p.comps[..|base|] + p.comps[|base|..];
      Some(p.comps[|base|..])
    else None
  }

  /** `PathBuf::pop`: drop the last component; the root has none to drop. */
  function Pop(buf: Path): (r: Path)
    ensures buf != [] ==> r + [buf[|buf| - 1]] == buf
    ensures buf == [] ==> r == []
  {
    if buf == [] then [] else buf[..|buf| - 1]
  }
}
