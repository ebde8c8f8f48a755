/** Generating the content index of a freshly extracted package directory. */
module Indexing {
  import opened Common
  import opened OsPaths
  import opened PackageIndex
  import opened FileTree

  datatype IndexError =
    | NonUnicodePath(path: Path)
    | UnsupportedTargetPath(path: Path)
    | UnsupportedFileType(path: Path)
    | IndexFileNotWritable

  /** How the indexer stores a link target: relative to the package root when
      the target lies under it, unchanged otherwise; it fails when the result
      is not valid Unicode. */
  function StoreTarget(root: Path, target: OsPath): (r: Option<StoredTarget>)
    ensures StripPrefix(target, root).Some? ==>
      (r.Some? <==> TryFromPath(target.comps[|root|..]).Some?) &&
      (r.Some? ==> !r.value.absolute && TextPath(r.value.comps) == target.comps[|root|..])
    ensures StripPrefix(target, root).None? ==>
      (r.Some? <==> TryFromPath(target.comps).Some?) &&
      (r.Some? ==> r.value.absolute == target.absolute && TextPath(r.value.comps) == target.comps)
  {
    var kept := match StripPrefix(target, root)
      case Some(rest) => OsPath(false, rest)
      case None => target;
    match TryFromPath(kept.comps)
    case None => None
    case Some(cs) => Some(StoredTarget(kept.absolute, cs))
  }

  /** The index entry for one object: regular files by content hash,
      directories as such, links by their stored target; any other kind of
      object is an error. */
  function EntryFor(root: Path, hash: Hasher, rel: Path, node: Node): (r: Result<IndexEntry, IndexError>)
    ensures node.File? ==> r == Ok(FileEntry(hash(node.content)))
    ensures node.Dir? ==> r == Ok(DirectoryEntry)
    ensures node.Symlink? ==>
      (r.Ok? <==> StoreTarget(root, node.target).Some?) &&
      (r.Ok? ==> r.value == SymlinkEntry(StoreTarget(root, node.target).value))
    ensures node.Special? ==> r == Err(UnsupportedFileType(rel))
  {
    match node
    case File(c) => Ok(FileEntry(hash(c)))
    case Dir => Ok(DirectoryEntry)
    case Symlink(target) =>
      (match StoreTarget(root, target)
       case None => Err(UnsupportedTargetPath(rel))
       case Some(st) => Ok(SymlinkEntry(st)))
    case Special => Err(UnsupportedFileType(rel))
  }

  /** True when the walk entry converts to an index path and its object can
      be indexed. */
  predicate Indexable(t: Tree, root: Path, hash: Hasher, rel: Path)
    requires rel in t
  {
    TryFromPath(rel).Some? && EntryFor(root, hash, rel, t[rel]).Ok?
  }

  /** Every walked path can be indexed. */
  predicate AllIndexable(t: Tree, root: Path, hash: Hasher, w: seq<Path>)
    requires WalkWithin(t, w)
  {
    forall i | 0 <= i < |w| :: Indexable(t, root, hash, w[i])
  }

  lemma AllIndexableSnoc(t: Tree, root: Path, hash: Hasher, w: seq<Path>)
    requires WalkWithin(t, w) && w != []
    ensures WalkWithin(t, w[..|w| - 1])
    ensures AllIndexable(t, root, hash, w) <==>
      AllIndexable(t, root, hash, w[..|w| - 1]) && Indexable(t, root, hash, w[|w| - 1])
  {
    var init := w[..|w| - 1];
    assert forall i | 0 <= i < |init| :: init[i] == w[i];
  }

  /** The key and entry one walked path contributes to the index. */
  function IndexRecord(t: Tree, root: Path, hash: Hasher, rel: Path): (r: Result<(IndexPath, IndexEntry), IndexError>)
    requires rel in t
    ensures r.Ok? <==> Indexable(t, root, hash, rel)
    ensures r.Ok? ==> r.value == (TryFromPath(rel).value, EntryFor(root, hash, rel, t[rel]).value)
  {
    match TryFromPath(rel)
    case None => Err(NonUnicodePath(rel))
    case Some(ip) =>
      var entry :- EntryFor(root, hash, rel, t[rel]);
      Ok((ip, entry))
  }

  /** The index built from a walk below the root: one entry per walked path,
      in walk order; the first path that cannot be indexed aborts it. */
  function BuildIndex(t: Tree, root: Path, hash: Hasher, w: seq<Path>): (r: Result<Index, IndexError>)
    requires WalkWithin(t, w)
    ensures r.Ok? <==> AllIndexable(t, root, hash, w)
    ensures r.Ok? ==> KeysUnique(r.value)
    ensures r.Ok? ==> forall k | k in Keys(r.value) :: TextPath(k) in w
    decreases |w|
  {
    if w == [] then Ok(V1([]))
    else
      var init := w[..|w| - 1];
      var rel := w[|w| - 1];
      AllIndexableSnoc(t, root, hash, w);
      assert forall x | x in init :: x in w;
      match BuildIndex(t, root, hash, init)
      case Err(e) => Err(e)
      case Ok(index) =>
        match IndexRecord(t, root, hash, rel)
        case Err(e) => Err(e)
        case Ok(record) =>
          InsertKeepsKeysUnique(index, record.0, record.1);
          Ok(Insert(index, record.0, record.1))
  }

  /** A built index records, for every walked path, the entry of the object
      found there. */
  lemma {:induction false} BuildIndexRecordsEachEntry(t: Tree, root: Path, hash: Hasher, w: seq<Path>)
    requires WalkWithin(t, w)
    requires BuildIndex(t, root, hash, w).Ok?
    ensures forall i | 0 <= i < |w| ::
      Get(BuildIndex(t, root, hash, w).value, TryFromPath(w[i]).value) == Some(EntryFor(root, hash, w[i], t[w[i]]).value)
    decreases |w|
  {
    if w == [] {
      return;
    }
    var init := w[..|w| - 1];
    var rel := w[|w| - 1];
    assert forall i | 0 <= i < |init| :: init[i] == w[i];
    BuildIndexRecordsEachEntry(t, root, hash, init);
    var index := BuildIndex(t, root, hash, init).value;
    var record := IndexRecord(t, root, hash, rel).value;
    var r := Insert(index, record.0, record.1);
    assert BuildIndex(t, root, hash, w) == Ok(r);
    forall i | 0 <= i < |w|
      ensures Get(r, TryFromPath(w[i]).value) == Some(EntryFor(root, hash, w[i], t[w[i]]).value)
    {
      var k := TryFromPath(w[i]).value;
      if i == |w| - 1 {
        assert w[i] == rel;
      } else if k == record.0 {
        TryFromPathInjective(w[i], rel);
        assert w[i] == rel;
      } else {
        assert w[i] == init[i];
        assert Get(r, k) == Get(index, k);
      }
    }
  }

  /** Writing the index file at the root of the tree; a directory already
      standing at that name cannot be overwritten. */
  function WriteIndexFile(t: Tree, index: Index): (r: Result<Tree, IndexError>)
    ensures r.Ok? <==> IndexFilePath !in t || t[IndexFilePath].File?
    ensures r.Ok? ==> r.value == t[IndexFilePath := File(IndexImage(index))]
  {
    if IndexFilePath in t && !t[IndexFilePath].File? then Err(IndexFileNotWritable)
    else Ok(t[IndexFilePath := File(IndexImage(index))])
  }

  /** `generate_package_index`: build the index of the walked tree and write
      it to the index file. */
  function GeneratePackageIndex(t: Tree, root: Path, hash: Hasher, w: seq<Path>): (r: Result<(Tree, Index), IndexError>)
    requires WalkWithin(t, w)
    ensures r.Ok? <==> BuildIndex(t, root, hash, w).Ok? && WriteIndexFile(t, BuildIndex(t, root, hash, w).value).Ok?
    ensures BuildIndex(t, root, hash, w).Err? ==> r == Err(BuildIndex(t, root, hash, w).error)
    ensures r.Ok? ==> BuildIndex(t, root, hash, w) == Ok(r.value.1)
    ensures r.Ok? ==> r.value.0 == t[IndexFilePath := File(IndexImage(r.value.1))]
  {
    var index :- BuildIndex(t, root, hash, w);
    var written :- WriteIndexFile(t, index);
    Ok((written, index))
  }

  /** The index file's name is one a directory entry can have. */
  lemma IndexFileNameValid()
    ensures ValidName(IndexFilePath[0])
  {
    assert IndexFileName[0] == '.' && |IndexFileName| > 2;
    assert forall i | 0 <= i < |IndexFileName| :: IndexFileName[i] != '/';
  }

  /** Writing the index file keeps a well-formed tree well formed: the file
      sits directly in the root, under a valid name, and replaces at most a
      regular file, never a directory some entry lies in. */
  lemma GeneratedTreeWellFormed(t: Tree, root: Path, hash: Hasher, w: seq<Path>)
    requires WellFormed(t) && WalkWithin(t, w)
    requires GeneratePackageIndex(t, root, hash, w).Ok?
    ensures WellFormed(GeneratePackageIndex(t, root, hash, w).value.0)
  {
    var t2 := GeneratePackageIndex(t, root, hash, w).value.0;
    assert IndexFilePath !in t || t[IndexFilePath].File?;
    assert forall p | p in t2 :: p == IndexFilePath || p in t;
    IndexFileNameValid();
    forall p | p in t2
      ensures p != [] && forall i | 0 <= i < |p| :: ValidName(p[i])
    {
      if p != IndexFilePath {
        assert p in t;
      }
    }
    forall p | p in t2 && |p| > 1
      ensures Lookup(t2, p[..|p| - 1]) == Some(Dir)
    {
      assert p in t;
      var parent := p[..|p| - 1];
      assert Lookup(t, parent) == Some(Dir);
      assert parent != IndexFilePath;
    }
  }

  /** The root itself is never indexed: every key names an object below it. */
  lemma IndexExcludesRoot(t: Tree, root: Path, hash: Hasher, w: seq<Path>)
    requires WellFormed(t) && WalkWithin(t, w)
    requires BuildIndex(t, root, hash, w).Ok?
    ensures [] !in Keys(BuildIndex(t, root, hash, w).value)
  {
    var index := BuildIndex(t, root, hash, w).value;
    forall k | k in Keys(index)
      ensures k != []
    {
      var j :| 0 <= j < |w| && w[j] == TextPath(k);
      assert TextPath(k) in t;
    }
  }

  /** Every key of a generated index is made of names a directory entry can
      have; in particular none of its components is "/". */
  lemma GeneratedKeysAreNames(t: Tree, root: Path, hash: Hasher, w: seq<Path>)
    requires WellFormed(t) && WalkWithin(t, w)
    requires BuildIndex(t, root, hash, w).Ok?
    ensures forall k, i | k in Keys(BuildIndex(t, root, hash, w).value) && 0 <= i < |k| :: k[i] != "/"
  {
    var index := BuildIndex(t, root, hash, w).value;
    forall k, i | k in Keys(index) && 0 <= i < |k|
      ensures k[i] != "/"
    {
      var p := TextPath(k);
      assert p in w;
      var j :| 0 <= j < |w| && w[j] == p;
      assert p in t;
      assert ValidName(p[i]);
      assert '/' in "/";
    }
  }
}
