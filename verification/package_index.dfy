/** The content index a package directory carries: which relative paths came
    with the package, and what each one was. */
module PackageIndex {
  import opened Common
  import opened OsPaths

  /** A content hash (a BLAKE3 digest in the program). */
  type Digest = seq<uint8>

  /** A relative path whose components are all valid Unicode. */
  type IndexPath = seq<string>

  /** The name of the index file at the root of an installed package. */
  const IndexFileName: string := ".manderrow_content_index"

  const IndexFilePath: Path := [Text(IndexFileName)]

  /** A symbolic link target in the string form the index stores; the string
      is kept as the path it parses back to. */
  datatype StoredTarget = StoredTarget(absolute: bool, comps: seq<string>)

  datatype IndexEntry =
    | FileEntry(hash: Digest)
    | SymlinkEntry(target: StoredTarget)
    | DirectoryEntry

  /** The archived index: a map whose entries come in a fixed order. */
  datatype Index = V1(entries: seq<(IndexPath, IndexEntry)>)

  /** The components of an index path as file-system names. */
  function TextPath(ip: IndexPath): (p: Path)
    ensures |p| == |ip|
    ensures forall i | 0 <= i < |ip| :: p[i] == Text(ip[i])
  {
    seq(|ip|, i requires 0 <= i < |ip| => Text(ip[i]))
  }

  /** `IndexPath::try_from`: one string per component, in order; it fails
      exactly when some component is not valid Unicode. */
  function TryFromPath(p: Path): (r: Option<IndexPath>)
    ensures r.Some? <==> forall i | 0 <= i < |p| :: p[i].Text?
    ensures r.Some? ==> |r.value| == |p| && forall i | 0 <= i < |p| :: r.value[i] == p[i].text
    ensures r.Some? ==> TextPath(r.value) == p
    decreases |p|
  {
    if p == [] then Some([])
    else if p[0].NonUnicode? then None
    else
      match TryFromPath(p[1..])
      case None => None
      case Some(rest) => Some([p[0].text] + rest)
  }

  /** Index paths read back unchanged through their file-system form. */
  lemma TryFromTextPath(ip: IndexPath)
    ensures TryFromPath(TextPath(ip)) == Some(ip)
  {
    var r := TryFromPath(TextPath(ip));
    assert r.Some?;
    assert r.value == ip;
  }

  /** Distinct paths that both convert give distinct index paths. */
  lemma TryFromPathInjective(p: Path, q: Path)
    requires TryFromPath(p).Some? && TryFromPath(p) == TryFromPath(q)
    ensures p == q
  {
  }

  function Keys(index: Index): set<IndexPath> {
    set e | e in index.entries :: e.0
  }

  predicate KeysUnique(index: Index) {
    forall i, j | 0 <= i < j < |index.entries| :: index.entries[i].0 != index.entries[j].0
  }

  /** `ArchivedIndex::get`: the entry recorded for `path`, if any. */
  function Get(index: Index, path: IndexPath): (r: Option<IndexEntry>)
    ensures r.Some? <==> path in Keys(index)
    ensures r.Some? ==> (path, r.value) in index.entries
    decreases |index.entries|
  {
    if index.entries == [] then None
    else if index.entries[0].0 == path then Some(index.entries[0].1)
    else
      var r := Get(V1(index.entries[1..]), path);
      assert Keys(index) == {index.entries[0].0} + Keys(V1(index.entries[1..]));
      r
  }

  /** With unique keys, the entry recorded for a path is the one `get` finds. */
  lemma {:induction false} GetFindsRecordedEntry(index: Index, path: IndexPath, e: IndexEntry)
    requires KeysUnique(index)
    requires (path, e) in index.entries
    ensures Get(index, path) == Some(e)
    decreases |index.entries|
  {
    if index.entries[0].0 != path {
      var tail := V1(index.entries[1..]);
      assert (path, e) in tail.entries;
      GetFindsRecordedEntry(tail, path, e);
    }
  }

  /** `HashMap::insert`: `path` now maps to `entry`; every other key keeps its
      entry; no key is duplicated. */
  function Insert(index: Index, path: IndexPath, entry: IndexEntry): (r: Index)
    ensures Get(r, path) == Some(entry)
    ensures forall k | k != path :: Get(r, k) == Get(index, k)
    ensures Keys(r) == Keys(index) + {path}
    decreases |index.entries|
  {
    if index.entries == [] then V1([(path, entry)])
    else if index.entries[0].0 == path then
      var r := V1([(path, entry)] + index.entries[1..]);
      assert Keys(index) == {path} + Keys(V1(index.entries[1..]));
      assert Keys(r) == {path} + Keys(V1(index.entries[1..]));
      r
    else
      var tail := Insert(V1(index.entries[1..]), path, entry);
      var r := V1([index.entries[0]] + tail.entries);
      assert r.entries[1..] == tail.entries;
      assert Keys(index) == {index.entries[0].0} + Keys(V1(index.entries[1..]));
      assert Keys(r) == {index.entries[0].0} + Keys(tail);
      r
  }

  /** Dropping the first entry keeps keys unique, and the dropped key is not
      among the rest. */
  lemma UniqueTail(index: Index)
    requires KeysUnique(index) && index.entries != []
    ensures KeysUnique(V1(index.entries[1..]))
    ensures index.entries[0].0 !in Keys(V1(index.entries[1..]))
  {
    var tail := index.entries[1..];
    forall i, j | 0 <= i < j < |tail|
      ensures tail[i].0 != tail[j].0
    {
      assert tail[i] == index.entries[i + 1] && tail[j] == index.entries[j + 1];
    }
    forall e | e in tail
      ensures e.0 != index.entries[0].0
    {
      var m :| 0 <= m < |tail| && tail[m] == e;
      assert index.entries[m + 1] == e;
    }
  }

  /** A new first entry whose key is not yet recorded keeps keys unique. */
  lemma UniqueCons(e: (IndexPath, IndexEntry), rest: Index)
    requires KeysUnique(rest) && e.0 !in Keys(rest)
    ensures KeysUnique(V1([e] + rest.entries))
  {
    var r := [e] + rest.entries;
    forall i, j | 0 <= i < j < |r|
      ensures r[i].0 != r[j].0
    {
      assert r[j] == rest.entries[j - 1];
      if i > 0 {
        assert r[i] == rest.entries[i - 1];
      } else {
        assert r[j] in rest.entries;
      }
    }
  }

  /** Inserting keeps keys unique. */
  lemma {:induction false} InsertKeepsKeysUnique(index: Index, path: IndexPath, entry: IndexEntry)
    requires KeysUnique(index)
    ensures KeysUnique(Insert(index, path, entry))
    decreases |index.entries|
  {
    if index.entries == [] {
      UniqueCons((path, entry), V1([]));
      assert Insert(index, path, entry).entries == [(path, entry)] + [];
    } else {
      var tail := V1(index.entries[1..]);
      UniqueTail(index);
      if index.entries[0].0 == path {
        UniqueCons((path, entry), tail);
      } else {
        InsertKeepsKeysUnique(tail, path, entry);
        UniqueCons(index.entries[0], Insert(tail, path, entry));
      }
    }
  }
}
