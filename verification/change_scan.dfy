/** Comparing an installed package directory against the content index it was
    installed with, to find what the user changed. */
module ChangeScan {
  import opened Common
  import opened OsPaths
  import opened PackageIndex
  import opened FileTree
  import opened Indexing

  datatype Status =
    | ContentModified
    | Created
    | TypeChanged
    | LinkTargetChanged
    | Deleted
    | UntrackablePath

  datatype ScanError =
    | IndexNotFoundError
    | NotADirectory
    | ReadIndexError
    | InvalidIndexError
    // An I/O error from `try_exists` in the deletion pass.
    | IoError

  /** What stands at the scanned path (following links, as `metadata` does). */
  datatype Target = Missing | NotADir | PackageDir(tree: Tree)

  /** A reported change. The path is absolute: the scanned directory's
      components followed by the entry's relative path. */
  datatype Change = Change(path: Path, status: Status)

  // ---------------------------------------------------------------------------
  // Reading the index file

  /** Reading and validating the index file: absent is no index; a regular
      file holding an archived index is that index; a regular file holding
      anything else is an invalid index; any other object cannot be read. */
  function ReadIndex(t: Tree): (r: Result<Option<Index>, ScanError>)
    ensures r == Ok(None) <==> IndexFilePath !in t
    ensures r.Ok? && r.value.Some? ==> IndexFilePath in t && t[IndexFilePath] == File(IndexImage(r.value.value))
    ensures IndexFilePath in t && t[IndexFilePath].File? && t[IndexFilePath].content.IndexImage? ==> r.Ok? && r.value.Some?
    ensures r == Err(InvalidIndexError) <==> IndexFilePath in t && t[IndexFilePath].File? && t[IndexFilePath].content.Bytes?
    ensures r == Err(ReadIndexError) <==> IndexFilePath in t && !t[IndexFilePath].File?
  {
    if IndexFilePath !in t then Ok(None)
    else
      match t[IndexFilePath]
      case File(IndexImage(index)) => Ok(Some(index))
      case File(Bytes(_)) => Err(InvalidIndexError)
      case _ => Err(ReadIndexError)
  }

  // ---------------------------------------------------------------------------
  // One walk entry

  /** A stored link target as the path it parses to. */
  function StoredAsPath(st: StoredTarget): OsPath {
    OsPath(st.absolute, TextPath(st.comps))
  }

  /** The path a link's actual target is compared as: when the stored target
      is relative, the actual target relative to the package root if it lies
      under it; otherwise the actual target unchanged. */
  function ComparedTarget(root: Path, st: StoredTarget, actual: OsPath): OsPath {
    if !st.absolute then
      match StripPrefix(actual, root)
      case Some(rest) => OsPath(false, rest)
      case None => actual
    else actual
  }

  /** The link test as the scan performs it: the compared target equals the
      stored one. A link is reported `LinkTargetChanged` when this HOLDS. */
  function LinkTestAsWritten(root: Path, st: StoredTarget, actual: OsPath): (r: bool)
    // For a relative stored target, the test holds exactly when the indexer
    // would store the current target that same way.
    ensures !st.absolute ==> (r <==> StoreTarget(root, actual) == Some(st))
  {
    TryFromTextPath(st.comps);
    ComparedTarget(root, st, actual) == StoredAsPath(st)
  }

  /** The index entry recorded for a walked path, if any. */
  function IndexedEntry(index: Index, rel: Path): (r: Option<IndexEntry>)
    ensures TryFromPath(rel).None? ==> r.None?
    ensures TryFromPath(rel).Some? ==> r == Get(index, TryFromPath(rel).value)
  {
    match TryFromPath(rel)
    case None => None
    case Some(ip) => Get(index, ip)
  }

  /** What the scan does with one walked entry: the status it reports, if any,
      and whether it skips the entry's contents. */
  datatype Verdict = Verdict(status: Option<Status>, skip: bool)

  /** The per-entry decision of the scan. */
  function Classify(root: Path, index: Index, hash: Hasher, rel: Path, node: Node): (v: Verdict)
    // The index file itself is never reported.
    ensures rel == IndexFilePath ==> v == Verdict(None, false)
    // A path that is not valid Unicode is reported as untrackable.
    ensures rel != IndexFilePath && TryFromPath(rel).None? ==> v == Verdict(Some(UntrackablePath), false)
    // A path the index does not know is new.
    ensures rel != IndexFilePath && TryFromPath(rel).Some? && IndexedEntry(index, rel).None? ==>
      v.status == Some(Created)
    // An indexed regular file: kind change, content change, or nothing.
    ensures rel != IndexFilePath && IndexedEntry(index, rel).Some? && IndexedEntry(index, rel).value.FileEntry? ==>
      var h := IndexedEntry(index, rel).value.hash;
      && (v.status == Some(TypeChanged) <==> !node.File?)
      && (v.status == Some(ContentModified) <==> node.File? && hash(node.content) != h)
      && (v.status.None? <==> node.File? && hash(node.content) == h)
    // An indexed directory: reported only when it is no longer a directory.
    ensures rel != IndexFilePath && IndexedEntry(index, rel) == Some(DirectoryEntry) ==>
      v.status == (if node.Dir? then None else Some(TypeChanged))
    // An indexed link: a kind change, or the as-written target test.
    ensures rel != IndexFilePath && IndexedEntry(index, rel).Some? && IndexedEntry(index, rel).value.SymlinkEntry? ==>
      var st := IndexedEntry(index, rel).value.target;
      && (!node.Symlink? ==> v.status == Some(TypeChanged))
      && (node.Symlink? ==> v.status == (if LinkTestAsWritten(root, st, node.target) then Some(LinkTargetChanged) else None))
    // Only a new or replaced directory has its contents skipped.
    ensures v.skip <==> node.Dir? && v.status in {Some(Created), Some(TypeChanged)}
  {
    if rel == IndexFilePath then Verdict(None, false)
    else if TryFromPath(rel).None? then Verdict(Some(UntrackablePath), false)
    else
      match IndexedEntry(index, rel)
      case None => Verdict(Some(Created), node.Dir?)
      case Some(FileEntry(h)) =>
        if !node.File? then Verdict(Some(TypeChanged), node.Dir?)
        else if hash(node.content) != h then Verdict(Some(ContentModified), false)
        else Verdict(None, false)
      case Some(SymlinkEntry(st)) =>
        if node.Symlink? then
          if LinkTestAsWritten(root, st, node.target) then Verdict(Some(LinkTargetChanged), false)
          else Verdict(None, false)
        else Verdict(Some(TypeChanged), node.Dir?)
      case Some(DirectoryEntry) =>
        if node.Dir? then Verdict(None, false) else Verdict(Some(TypeChanged), false)
  }

  /** The change reported for one walked path, if any. */
  function ChangeAt(root: Path, index: Index, hash: Hasher, t: Tree, x: Path): Option<Change>
    requires x in t
  {
    match Classify(root, index, hash, x, t[x]).status
    case None => None
    case Some(s) => Some(Change(root + x, s))
  }

  predicate Skips(root: Path, index: Index, hash: Hasher, t: Tree, x: Path)
    requires x in t
  {
    Classify(root, index, hash, x, t[x]).skip
  }

  // ---------------------------------------------------------------------------
  // The walk

  lemma SubWalkWithin(t: Tree, w: seq<Path>, v: seq<Path>)
    requires WalkWithin(t, w)
    requires forall x | x in v :: x in w
    ensures WalkWithin(t, v)
  {
    forall i | 0 <= i < |v|
      ensures v[i] in t
    {
      assert v[i] in w;
    }
  }

  /** The walked entries the scan actually looks at: after each entry whose
      contents are skipped, the rest of the walk loses that entry's
      descendants. */
  function Processed(root: Path, index: Index, hash: Hasher, t: Tree, w: seq<Path>): (r: seq<Path>)
    requires WalkWithin(t, w)
    ensures forall x | x in r :: x in w
    ensures WalkWithin(t, r)
    decreases |w|
  {
    if w == [] then []
    else
      var rest := if Skips(root, index, hash, t, w[0]) then WalkOutside(w[1..], w[0]) else w[1..];
      SubWalkWithin(t, w, rest);
      var r := [w[0]] + Processed(root, index, hash, t, rest);
      SubWalkWithin(t, w, r);
      r
  }

  /** The changes reported for a sequence of looked-at entries, in order. */
  function Report(root: Path, index: Index, hash: Hasher, t: Tree, xs: seq<Path>): (r: seq<Change>)
    requires WalkWithin(t, xs)
    ensures forall i | 0 <= i < |xs| && ChangeAt(root, index, hash, t, xs[i]).Some? ::
      ChangeAt(root, index, hash, t, xs[i]).value in r
    ensures forall c | c in r :: exists i | 0 <= i < |xs| :: ChangeAt(root, index, hash, t, xs[i]) == Some(c)
    decreases |xs|
  {
    if xs == [] then []
    else
      var tail := Report(root, index, hash, t, xs[1..]);
      assert forall i | 1 <= i < |xs| :: xs[i] == xs[1..][i - 1];
      match ChangeAt(root, index, hash, t, xs[0])
      case None => tail
      case Some(c) => [c] + tail
  }

  /** The changes the walk phase reports. */
  function WalkChanges(root: Path, index: Index, hash: Hasher, t: Tree, w: seq<Path>): (r: seq<Change>)
    requires WalkWithin(t, w)
    ensures forall c | c in r :: exists j | 0 <= j < |w| :: ChangeAt(root, index, hash, t, w[j]) == Some(c)
  {
    var p := Processed(root, index, hash, t, w);
    var r := Report(root, index, hash, t, p);
    assert forall c | c in r :: exists j | 0 <= j < |w| :: ChangeAt(root, index, hash, t, w[j]) == Some(c) by {
      forall c | c in r
        ensures exists j | 0 <= j < |w| :: ChangeAt(root, index, hash, t, w[j]) == Some(c)
      {
        var i :| 0 <= i < |p| && ChangeAt(root, index, hash, t, p[i]) == Some(c);
        assert p[i] in w;
        var j :| 0 <= j < |w| && w[j] == p[i];
      }
    }
    r
  }

  lemma UnderTransitiveContra(a: Path, b: Path, c: Path)
    requires IsUnder(b, c) && !IsUnder(a, c)
    ensures !IsUnder(a, b)
  {
    if IsUnder(a, b) {
      UnderTransitive(a, b, c);
    }
  }

  lemma TailAncestorsFirst(w: seq<Path>)
    requires w != [] && AncestorsFirst(w)
    ensures AncestorsFirst(w[1..])
  {
    var tail := w[1..];
    forall i, j | 0 <= i <= j < |tail|
      ensures !IsUnder(tail[i], tail[j])
    {
      assert tail[i] == w[i + 1] && tail[j] == w[j + 1];
    }
  }

  /** A looked-at entry lies inside no walked entry whose contents are skipped. */
  lemma {:induction false} ProcessedNotShadowed(root: Path, index: Index, hash: Hasher, t: Tree, w: seq<Path>, x: Path)
    requires WalkWithin(t, w) && AncestorsFirst(w)
    requires x in Processed(root, index, hash, t, w)
    ensures forall y | y in w && Skips(root, index, hash, t, y) :: !IsUnder(x, y)
    decreases |w|
  {
    var h := w[0];
    var tail := w[1..];
    var skip := Skips(root, index, hash, t, h);
    var rest := if skip then WalkOutside(tail, h) else tail;
    SubWalkWithin(t, w, rest);
    TailAncestorsFirst(w);
    if skip {
      WalkOutsideAncestorsFirst(tail, h);
    }
    if x == h {
      forall y | y in w && Skips(root, index, hash, t, y)
        ensures !IsUnder(x, y)
      {
        var j :| 0 <= j < |w| && w[j] == y;
      }
    } else {
      assert x in Processed(root, index, hash, t, rest);
      ProcessedNotShadowed(root, index, hash, t, rest, x);
      forall y | y in w && Skips(root, index, hash, t, y)
        ensures !IsUnder(x, y)
      {
        if y in rest {
        } else if y == h {
          assert x in rest;
        } else {
          assert y in tail && skip && IsUnder(y, h);
          assert x in rest;
          UnderTransitiveContra(x, y, h);
        }
      }
    }
  }

  /** A walked entry inside no skipped entry is looked at. */
  lemma {:induction false} UnshadowedIsProcessed(root: Path, index: Index, hash: Hasher, t: Tree, w: seq<Path>, x: Path)
    requires WalkWithin(t, w)
    requires x in w
    requires forall y | y in w && Skips(root, index, hash, t, y) :: !IsUnder(x, y)
    ensures x in Processed(root, index, hash, t, w)
    decreases |w|
  {
    var h := w[0];
    var tail := w[1..];
    var skip := Skips(root, index, hash, t, h);
    var rest := if skip then WalkOutside(tail, h) else tail;
    SubWalkWithin(t, w, rest);
    if x != h {
      assert x in tail;
      assert x in rest;
      UnshadowedIsProcessed(root, index, hash, t, rest, x);
    }
  }

  /** Exactly the changes of the walked entries that lie inside no skipped
      entry are reported by the walk. */
  lemma WalkChangesExactly(root: Path, index: Index, hash: Hasher, t: Tree, w: seq<Path>, c: Change)
    requires WalkWithin(t, w) && AncestorsFirst(w)
    ensures c in WalkChanges(root, index, hash, t, w) <==>
      exists x | x in w && x in t ::
        && ChangeAt(root, index, hash, t, x) == Some(c)
        && forall y | y in w && Skips(root, index, hash, t, y) :: !IsUnder(x, y)
  {
    var ps := Processed(root, index, hash, t, w);
    if c in WalkChanges(root, index, hash, t, w) {
      var i :| 0 <= i < |ps| && ChangeAt(root, index, hash, t, ps[i]) == Some(c);
      ProcessedNotShadowed(root, index, hash, t, w, ps[i]);
    }
    forall x | x in w && x in t && ChangeAt(root, index, hash, t, x) == Some(c) &&
      (forall y | y in w && Skips(root, index, hash, t, y) :: !IsUnder(x, y))
      ensures c in WalkChanges(root, index, hash, t, w)
    {
      UnshadowedIsProcessed(root, index, hash, t, w, x);
      var i :| 0 <= i < |ps| && ps[i] == x;
    }
  }

  lemma AppendCancel(root: Path, x: Path, y: Path)
    ensures root + x == root + y <==> x == y
  {
    if root + x == root + y {
      assert x == (root + x)[|root|..];
    }
  }

  /** After a new or replaced directory is reported, nothing inside it is
      reported by the walk. */
  lemma SkippedDirectoryHidesContents(root: Path, index: Index, hash: Hasher, t: Tree, w: seq<Path>, d: Path, x: Path)
    requires WalkWithin(t, w) && AncestorsFirst(w)
    requires d in w && t[d].Dir?
    requires Classify(root, index, hash, d, t[d]).status in {Some(Created), Some(TypeChanged)}
    requires IsUnder(x, d)
    ensures forall c | c in WalkChanges(root, index, hash, t, w) :: c.path != root + x
  {
    assert d in t;
    forall c | c in WalkChanges(root, index, hash, t, w)
      ensures c.path != root + x
    {
      WalkChangesExactly(root, index, hash, t, w, c);
      var y :| y in w && y in t && ChangeAt(root, index, hash, t, y) == Some(c) &&
        forall z | z in w && Skips(root, index, hash, t, z) :: !IsUnder(y, z);
      assert !IsUnder(y, d);
      AppendCancel(root, x, y);
    }
  }

  // ---------------------------------------------------------------------------
  // The deletion pass

  /** What `to_str` gives for each component of an absolute path, the root
      directory's own component `/` first. */
  function AbsoluteComponentStrs(p: Path): (r: seq<Option<string>>)
    ensures |r| == |p| + 1 && r[0] == Some("/")
    ensures forall i | 0 <= i < |p| :: r[i + 1] == (if p[i].Text? then Some(p[i].text) else None)
  {
    [Some("/")] + seq(|p|, i requires 0 <= i < |p| => if p[i].Text? then Some(p[i].text) else None)
  }

  /** The parent-deleted test as written: some index key is at least as long
      as the ABSOLUTE path's component list and agrees with it position by
      position. It compares package-relative keys with absolute components. */
  function SuppressedAsWritten(index: Index, p: Path): (r: bool)
    ensures r ==> exists k | k in Keys(index) :: k != [] && k[0] == "/"
  {
    exists j | 0 <= j < |index.entries| ::
      var key := index.entries[j].0;
      var cs := AbsoluteComponentStrs(p);
      |key| >= |cs| && forall i | 0 <= i < |cs| :: cs[i] == Some(key[i])
  }

  /** The test can only succeed through a key whose first component is "/". */
  lemma SuppressionNeedsRootKey(index: Index, p: Path)
    requires forall k | k in Keys(index) && k != [] :: k[0] != "/"
    ensures !SuppressedAsWritten(index, p)
  {
    forall j | 0 <= j < |index.entries|
      ensures var key := index.entries[j].0;
              var cs := AbsoluteComponentStrs(p);
              !(|key| >= |cs| && forall i | 0 <= i < |cs| :: cs[i] == Some(key[i]))
    {
      var key := index.entries[j].0;
      assert key in Keys(index);
      if |key| > 0 {
        assert key[0] != "/";
      }
    }
  }

  /** An object `stat` cannot descend into: a regular or special file. A path
      continuing below one fails with `NotADirectory` rather than not being
      found. */
  predicate Blocks(t: Tree, p: Path) {
    p in t && (t[p].File? || t[p].Special?)
  }

  /** `try_exists` on a path below the scanned directory: an I/O error when
      one of its proper ancestors is a regular or special file, otherwise
      whether the path exists. */
  function TryExists(t: Tree, rel: Path): (r: Result<bool, ScanError>)
    ensures r.Err? ==> r.error == IoError
    // When the check does not fail, it agrees with the tree.
    ensures r.Ok? ==> (r.value <==> Lookup(t, rel).Some?)
    // An existing path never fails the check.
    ensures WellFormed(t) && Lookup(t, rel).Some? ==> r == Ok(true)
  {
    if exists i | 0 < i < |rel| :: Blocks(t, rel[..i]) then
      assert WellFormed(t) ==> Lookup(t, rel).None? by {
        if WellFormed(t) && rel in t {
          var i :| 0 < i < |rel| && Blocks(t, rel[..i]);
          AncestorsAreDirs(t, rel, i);
        }
      }
      Err(IoError)
    else Ok(Lookup(t, rel).Some?)
  }

  /** The deletions reported for the index entries `es` (walked in the
      archived order), against the tree `t` below `root`. The first failing
      existence check aborts the pass. */
  function Deletions(root: Path, index: Index, t: Tree, es: seq<(IndexPath, IndexEntry)>): (r: Result<seq<Change>, ScanError>)
    ensures r.Err? <==> exists e | e in es :: TryExists(t, TextPath(e.0)).Err?
    ensures r.Err? ==> r.error == IoError
    ensures r.Ok? ==> forall c | c in r.value :: c.status == Deleted
    ensures r.Ok? ==> forall c | c in r.value :: exists e | e in es :: c.path == root + TextPath(e.0) && Lookup(t, TextPath(e.0)).None?
    ensures r.Ok? ==> forall e | e in es && Lookup(t, TextPath(e.0)).None? && !SuppressedAsWritten(index, root + TextPath(e.0)) ::
      Change(root + TextPath(e.0), Deleted) in r.value
    decreases |es|
  {
    if es == [] then Ok([])
    else
      var rel := TextPath(es[0].0);
      match TryExists(t, rel)
      case Err(e) => Err(e)
      case Ok(present) =>
        var here := if present || SuppressedAsWritten(index, root + rel) then []
                    else [Change(root + rel, Deleted)];
        match Deletions(root, index, t, es[1..])
        case Err(e) => Err(e)
        case Ok(rest) =>
          assert forall e | e in es[1..] :: e in es;
          Ok(here + rest)
  }

  // ---------------------------------------------------------------------------
  // The scan

  /** `scan_installed_package_for_changes`: the walk's changes, then the
      deletions of indexed paths that no longer exist. */
  function Scan(target: Target, root: Path, hash: Hasher, w: seq<Path>): (r: Result<seq<Change>, ScanError>)
    requires target.PackageDir? ==> WalkWithin(target.tree, w)
    ensures target.Missing? ==> r == Err(IndexNotFoundError)
    ensures target.NotADir? ==> r == Err(NotADirectory)
    // In a package directory the scan fails exactly when reading the index
    // fails, or when the existence check of some indexed path fails.
    ensures target.PackageDir? ==>
      (r.Ok? <==> ReadIndex(target.tree).Ok? &&
                  (ReadIndex(target.tree).value.Some? ==>
                     forall e | e in ReadIndex(target.tree).value.value.entries :: TryExists(target.tree, TextPath(e.0)).Ok?))
    ensures r.Err? && target.PackageDir? ==>
      r.error == (if ReadIndex(target.tree).Err? then ReadIndex(target.tree).error else IoError)
  {
    match target
    case Missing => Err(IndexNotFoundError)
    case NotADir => Err(NotADirectory)
    case PackageDir(t) =>
      match ReadIndex(t)
      case Err(e) => Err(e)
      case Ok(None) => Ok(WalkChanges(root, V1([]), hash, t, w))
      case Ok(Some(index)) =>
        match Deletions(root, index, t, index.entries)
        case Err(e) => Err(e)
        case Ok(dels) => Ok(WalkChanges(root, index, hash, t, w) + dels)
  }

  /** A package directory without an index file is scanned as if its index
      were empty: every reported change is a creation or an untrackable path. */
  lemma NoIndexFileReportsOnlyNewPaths(t: Tree, root: Path, hash: Hasher, w: seq<Path>)
    requires WalkWithin(t, w) && AncestorsFirst(w)
    requires IndexFilePath !in t
    ensures Scan(PackageDir(t), root, hash, w).Ok?
    ensures forall c | c in Scan(PackageDir(t), root, hash, w).value :: c.status in {Created, UntrackablePath}
  {
    var empty := V1([]);
    forall c | c in Scan(PackageDir(t), root, hash, w).value
      ensures c.status in {Created, UntrackablePath}
    {
      WalkChangesExactly(root, empty, hash, t, w, c);
    }
  }

  /** The deletion pass never reports a path that exists in the tree, and it
      reports every missing indexed path unless the as-written suppression
      test fires. */
  lemma DeletionsExactly(t: Tree, root: Path, index: Index, c: Change)
    requires !exists j | 0 <= j < |index.entries| :: SuppressedAsWritten(index, root + TextPath(index.entries[j].0))
    ensures Deletions(root, index, t, index.entries).Ok? <==> forall k | k in Keys(index) :: TryExists(t, TextPath(k)).Ok?
    ensures Deletions(root, index, t, index.entries).Ok? ==>
      (c in Deletions(root, index, t, index.entries).value <==>
         c.status == Deleted && exists k | k in Keys(index) :: c.path == root + TextPath(k) && Lookup(t, TextPath(k)).None?)
  {
    if !forall k | k in Keys(index) :: TryExists(t, TextPath(k)).Ok? {
      var k :| k in Keys(index) && TryExists(t, TextPath(k)).Err?;
      var e :| e in index.entries && e.0 == k;
    }
    if Deletions(root, index, t, index.entries).Ok? && c.status == Deleted {
      forall k | k in Keys(index) && c.path == root + TextPath(k) && Lookup(t, TextPath(k)).None?
        ensures c in Deletions(root, index, t, index.entries).value
      {
        var e :| e in index.entries && e.0 == k;
        var j :| 0 <= j < |index.entries| && index.entries[j] == e;
      }
    }
  }

  /** The index file is never reported, neither by the walk nor as deleted. */
  lemma IndexFileNeverReported(t: Tree, root: Path, hash: Hasher, w: seq<Path>)
    requires WalkWithin(t, w) && AncestorsFirst(w)
    requires Scan(PackageDir(t), root, hash, w).Ok?
    ensures forall c | c in Scan(PackageDir(t), root, hash, w).value :: c.path != root + IndexFilePath
  {
    var index := match ReadIndex(t).value case None => V1([]) case Some(i) => i;
    forall c | c in Scan(PackageDir(t), root, hash, w).value
      ensures c.path != root + IndexFilePath
    {
      if c in WalkChanges(root, index, hash, t, w) {
        WalkChangesExactly(root, index, hash, t, w, c);
        var x :| x in w && x in t && ChangeAt(root, index, hash, t, x) == Some(c);
        AppendCancel(root, x, IndexFilePath);
      } else {
        var e :| e in index.entries && c.path == root + TextPath(e.0) && Lookup(t, TextPath(e.0)).None?;
        AppendCancel(root, TextPath(e.0), IndexFilePath);
      }
    }
  }

  // ---------------------------------------------------------------------------
  // Scanning a freshly indexed tree

  /** A target as the indexer stored it passes the scan's link test. */
  lemma StoredTargetPassesLinkTest(root: Path, target: OsPath)
    requires StoreTarget(root, target).Some?
    ensures LinkTestAsWritten(root, StoreTarget(root, target).value, target)
  {
  }

  /** A relative link retargeted to a different relative path is not
      reported: the as-written test only fires on an unchanged target. */
  lemma RetargetedLinkNotReported(root: Path, index: Index, hash: Hasher, rel: Path, st: StoredTarget, actual: OsPath)
    requires rel != IndexFilePath
    requires IndexedEntry(index, rel) == Some(SymlinkEntry(st))
    requires !st.absolute && !actual.absolute && actual.comps != TextPath(st.comps)
    ensures Classify(root, index, hash, rel, Symlink(actual)) == Verdict(None, false)
  {
  }

  /** The verdict on each entry of a freshly indexed tree. */
  lemma FreshVerdict(t: Tree, root: Path, hash: Hasher, w: seq<Path>, x: Path)
    requires IsWalk(t, w)
    requires GeneratePackageIndex(t, root, hash, w).Ok?
    requires x in GeneratePackageIndex(t, root, hash, w).value.0
    ensures var (t2, index) := GeneratePackageIndex(t, root, hash, w).value;
      Classify(root, index, hash, x, t2[x]) ==
        Verdict(if x != IndexFilePath && t2[x].Symlink? then Some(LinkTargetChanged) else None, false)
  {
    var (t2, index) := GeneratePackageIndex(t, root, hash, w).value;
    if x != IndexFilePath {
      assert x in t && t2[x] == t[x];
      var j :| 0 <= j < |w| && w[j] == x;
      BuildIndexRecordsEachEntry(t, root, hash, w);
      assert Indexable(t, root, hash, w[j]);
      var e := EntryFor(root, hash, x, t[x]).value;
      assert IndexedEntry(index, x) == Some(e);
      if t[x].Symlink? {
        StoredTargetPassesLinkTest(root, t[x].target);
      }
    }
  }

  lemma {:induction false} NothingMissingNoDeletions(root: Path, index: Index, t: Tree, es: seq<(IndexPath, IndexEntry)>)
    requires WellFormed(t)
    requires forall e | e in es :: Lookup(t, TextPath(e.0)).Some?
    ensures Deletions(root, index, t, es) == Ok([])
    decreases |es|
  {
    if es != [] {
      assert es[0] in es;
      assert TryExists(t, TextPath(es[0].0)) == Ok(true);
      NothingMissingNoDeletions(root, index, t, es[1..]);
      var none: seq<Change> := [];
      assert none + none == none;
    }
  }

  /** No path a fresh index records is missing from the tree it was written
      to, wherever that tree is later scanned. */
  lemma FreshDeletionsSilent(t: Tree, staging: Path, root: Path, hash: Hasher, w: seq<Path>)
    requires WellFormed(t) && IsWalk(t, w)
    requires GeneratePackageIndex(t, staging, hash, w).Ok?
    ensures var (t2, index) := GeneratePackageIndex(t, staging, hash, w).value;
      Deletions(root, index, t2, index.entries) == Ok([])
  {
    var (t2, index) := GeneratePackageIndex(t, staging, hash, w).value;
    GeneratedTreeWellFormed(t, staging, hash, w);
    forall e | e in index.entries
      ensures Lookup(t2, TextPath(e.0)).Some?
    {
      assert e.0 in Keys(index);
      assert TextPath(e.0) in w;
      var j :| 0 <= j < |w| && w[j] == TextPath(e.0);
    }
    NothingMissingNoDeletions(root, index, t2, index.entries);
  }

  /** On a freshly indexed tree no entry's contents are skipped. */
  lemma FreshNothingSkipped(t: Tree, root: Path, hash: Hasher, w: seq<Path>)
    requires IsWalk(t, w)
    requires GeneratePackageIndex(t, root, hash, w).Ok?
    ensures var (t2, index) := GeneratePackageIndex(t, root, hash, w).value;
      forall y | y in t2 :: !Skips(root, index, hash, t2, y)
  {
    var (t2, index) := GeneratePackageIndex(t, root, hash, w).value;
    forall y | y in t2
      ensures !Skips(root, index, hash, t2, y)
    {
      FreshVerdict(t, root, hash, w, y);
    }
  }

  /** Each change the walk reports on a freshly indexed tree is a link's. */
  lemma FreshWalkChangeIsLink(t: Tree, root: Path, hash: Hasher, w: seq<Path>, w2: seq<Path>, c: Change)
    requires IsWalk(t, w)
    requires GeneratePackageIndex(t, root, hash, w).Ok?
    requires IsWalk(GeneratePackageIndex(t, root, hash, w).value.0, w2)
    requires var (t2, index) := GeneratePackageIndex(t, root, hash, w).value;
      c in WalkChanges(root, index, hash, t2, w2)
    ensures c.status == LinkTargetChanged && exists x | x in t && x != IndexFilePath && t[x].Symlink? :: c.path == root + x
  {
    var (t2, index) := GeneratePackageIndex(t, root, hash, w).value;
    WalkChangesExactly(root, index, hash, t2, w2, c);
    var x :| x in w2 && x in t2 && ChangeAt(root, index, hash, t2, x) == Some(c);
    FreshVerdict(t, root, hash, w, x);
    assert x in t;
  }

  /** The walk reports every link of a freshly indexed tree. */
  lemma FreshLinkIsWalkChange(t: Tree, root: Path, hash: Hasher, w: seq<Path>, w2: seq<Path>, x: Path)
    requires IsWalk(t, w)
    requires GeneratePackageIndex(t, root, hash, w).Ok?
    requires IsWalk(GeneratePackageIndex(t, root, hash, w).value.0, w2)
    requires x in t && x != IndexFilePath && t[x].Symlink?
    ensures var (t2, index) := GeneratePackageIndex(t, root, hash, w).value;
      Change(root + x, LinkTargetChanged) in WalkChanges(root, index, hash, t2, w2)
  {
    var (t2, index) := GeneratePackageIndex(t, root, hash, w).value;
    assert x in t2;
    FreshNothingSkipped(t, root, hash, w);
    FreshVerdict(t, root, hash, w, x);
    WalkChangesExactly(root, index, hash, t2, w2, Change(root + x, LinkTargetChanged));
  }

  /** Scanning a tree right after indexing it reports no file and no
      directory, but reports every link as `LinkTargetChanged`: the link
      test fires exactly when the target is unchanged. */
  lemma ScanAfterIndexReportsExactlyTheLinks(t: Tree, root: Path, hash: Hasher, w: seq<Path>, w2: seq<Path>)
    requires WellFormed(t) && IsWalk(t, w)
    requires GeneratePackageIndex(t, root, hash, w).Ok?
    requires IsWalk(GeneratePackageIndex(t, root, hash, w).value.0, w2)
    ensures var t2 := GeneratePackageIndex(t, root, hash, w).value.0;
      Scan(PackageDir(t2), root, hash, w2).Ok?
    ensures var t2 := GeneratePackageIndex(t, root, hash, w).value.0;
      forall c | c in Scan(PackageDir(t2), root, hash, w2).value ::
        c.status == LinkTargetChanged && exists x | x in t && x != IndexFilePath && t[x].Symlink? :: c.path == root + x
    ensures var t2 := GeneratePackageIndex(t, root, hash, w).value.0;
      forall x | x in t && x != IndexFilePath && t[x].Symlink? ::
        Change(root + x, LinkTargetChanged) in Scan(PackageDir(t2), root, hash, w2).value
  {
    var (t2, index) := GeneratePackageIndex(t, root, hash, w).value;
    assert ReadIndex(t2) == Ok(Some(index));
    var walked := WalkChanges(root, index, hash, t2, w2);
    // No indexed path is missing, so the deletion pass is silent.
    FreshDeletionsSilent(t, root, root, hash, w);
    assert Scan(PackageDir(t2), root, hash, w2).value == walked;
    forall c | c in walked
      ensures c.status == LinkTargetChanged && exists x | x in t && x != IndexFilePath && t[x].Symlink? :: c.path == root + x
    {
      FreshWalkChangeIsLink(t, root, hash, w, w2, c);
    }
    forall x | x in t && x != IndexFilePath && t[x].Symlink?
      ensures Change(root + x, LinkTargetChanged) in walked
    {
      FreshLinkIsWalkChange(t, root, hash, w, w2, x);
    }
  }

  /** The verdict on each entry of a tree indexed in a staging directory and
      scanned at some other root, as after the staged tree is moved into
      place: contents are never skipped, and only a link can be reported,
      as `LinkTargetChanged`. */
  lemma FreshVerdictAnyRoot(t: Tree, staging: Path, root: Path, hash: Hasher, w: seq<Path>, x: Path)
    requires IsWalk(t, w)
    requires GeneratePackageIndex(t, staging, hash, w).Ok?
    requires x in GeneratePackageIndex(t, staging, hash, w).value.0
    ensures var (t2, index) := GeneratePackageIndex(t, staging, hash, w).value;
      var v := Classify(root, index, hash, x, t2[x]);
      && !v.skip
      && (v.status.Some? ==> x != IndexFilePath && t2[x].Symlink? && v.status == Some(LinkTargetChanged))
  {
    var (t2, index) := GeneratePackageIndex(t, staging, hash, w).value;
    if x != IndexFilePath {
      assert x in t && t2[x] == t[x];
      var j :| 0 <= j < |w| && w[j] == x;
      BuildIndexRecordsEachEntry(t, staging, hash, w);
      assert Indexable(t, staging, hash, w[j]);
      var e := EntryFor(staging, hash, x, t[x]).value;
      assert IndexedEntry(index, x) == Some(e);
    }
  }

  /** Scanning at `root` a tree indexed in `staging` reports nothing but
      links of the indexed tree, each as `LinkTargetChanged`: whatever
      directory the installer staged in, the installed package scans clean
      apart from its links. */
  lemma FreshScanAnyRoot(t: Tree, staging: Path, root: Path, hash: Hasher, w: seq<Path>, w2: seq<Path>)
    requires WellFormed(t) && IsWalk(t, w)
    requires GeneratePackageIndex(t, staging, hash, w).Ok?
    requires IsWalk(GeneratePackageIndex(t, staging, hash, w).value.0, w2)
    ensures var t2 := GeneratePackageIndex(t, staging, hash, w).value.0;
      Scan(PackageDir(t2), root, hash, w2).Ok?
    ensures var t2 := GeneratePackageIndex(t, staging, hash, w).value.0;
      forall c | c in Scan(PackageDir(t2), root, hash, w2).value ::
        c.status == LinkTargetChanged && exists x | x in t && x != IndexFilePath && t[x].Symlink? :: c.path == root + x
  {
    var (t2, index) := GeneratePackageIndex(t, staging, hash, w).value;
    assert ReadIndex(t2) == Ok(Some(index));
    var walked := WalkChanges(root, index, hash, t2, w2);
    FreshDeletionsSilent(t, staging, root, hash, w);
    assert Scan(PackageDir(t2), root, hash, w2).value == walked;
    forall c | c in walked
      ensures c.status == LinkTargetChanged && exists x | x in t && x != IndexFilePath && t[x].Symlink? :: c.path == root + x
    {
      var j :| 0 <= j < |w2| && ChangeAt(root, index, hash, t2, w2[j]) == Some(c);
      var x := w2[j];
      FreshVerdictAnyRoot(t, staging, root, hash, w, x);
      assert x in t;
    }
  }

  /** The walk never reports a deletion: `Deleted` comes only from the
      deletion pass. */
  lemma WalkNeverDeletes(root: Path, index: Index, hash: Hasher, t: Tree, w: seq<Path>)
    requires WalkWithin(t, w)
    ensures forall c | c in WalkChanges(root, index, hash, t, w) :: c.status != Deleted
  {
    forall c | c in WalkChanges(root, index, hash, t, w)
      ensures c.status != Deleted
    {
      var j :| 0 <= j < |w| && ChangeAt(root, index, hash, t, w[j]) == Some(c);
      assert w[j] in t;
    }
  }

  /** The scan reports its deletions after every other change, since the
      deletion pass runs after the walk. */
  lemma ScanDeletionsLast(t: Tree, root: Path, hash: Hasher, w: seq<Path>)
    requires WalkWithin(t, w)
    requires Scan(PackageDir(t), root, hash, w).Ok?
    ensures var cs := Scan(PackageDir(t), root, hash, w).value;
      forall i, j | 0 <= i < j < |cs| && cs[i].status == Deleted :: cs[j].status == Deleted
  {
    var cs := Scan(PackageDir(t), root, hash, w).value;
    var index := match ReadIndex(t).value case None => V1([]) case Some(i) => i;
    var walked := WalkChanges(root, index, hash, t, w);
    WalkNeverDeletes(root, index, hash, t, w);
    var dels := if ReadIndex(t).value.None? then [] else Deletions(root, index, t, index.entries).value;
    assert cs == walked + dels;
    assert forall k | 0 <= k < |walked| :: cs[k] == walked[k] && walked[k] in walked;
    forall i, j | 0 <= i < j < |cs| && cs[i].status == Deleted
      ensures cs[j].status == Deleted
    {
      assert cs[j] == dels[j - |walked|] && dels[j - |walked|] in dels;
    }
  }

  /** Every reported path lies below the scanned directory. */
  lemma ScanReportsBelowRoot(t: Tree, root: Path, hash: Hasher, w: seq<Path>)
    requires WalkWithin(t, w) && AncestorsFirst(w)
    requires Scan(PackageDir(t), root, hash, w).Ok?
    ensures forall c | c in Scan(PackageDir(t), root, hash, w).value :: AtOrUnder(c.path, root)
  {
    var index := match ReadIndex(t).value case None => V1([]) case Some(i) => i;
    forall c | c in Scan(PackageDir(t), root, hash, w).value
      ensures AtOrUnder(c.path, root)
    {
      if c in WalkChanges(root, index, hash, t, w) {
        WalkChangesExactly(root, index, hash, t, w, c);
        var x :| x in w && x in t && ChangeAt(root, index, hash, t, x) == Some(c);
        AtOrUnderAppend(root, x);
      } else {
        var e :| e in index.entries && c.path == root + TextPath(e.0) && Lookup(t, TextPath(e.0)).None?;
        AtOrUnderAppend(root, TextPath(e.0));
      }
    }
  }
}
