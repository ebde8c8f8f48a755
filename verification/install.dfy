/** Installing a package archive into a directory: the download cache, the
    carrying over of the user's changes, and moving the result into place. */
module Install {
  import opened Common
  import opened OsPaths
  import opened PackageIndex
  import opened FileTree
  import opened Indexing
  import opened ChangeScan
  import opened MergePaths

  // ---------------------------------------------------------------------------
  // Hexadecimal digests

  /** The value of one hexadecimal digit; both letter cases are accepted. */
  function HexValue(c: char): (r: Option<nat>)
    ensures r.Some? ==> r.value < 16
  {
    if '0' <= c <= '9' then Some(c as int - '0' as int)
    else if 'a' <= c <= 'f' then Some(c as int - 'a' as int + 10)
    else if 'A' <= c <= 'F' then Some(c as int - 'A' as int + 10)
    else None
  }

  const LowerDigits: string := "0123456789abcdef"
  const UpperDigits: string := "0123456789ABCDEF"

  /** A character has a value exactly when it is the lower- or upper-case
      spelling of that value. */
  lemma HexValueSpelling(c: char, n: nat)
    requires n < 16
    ensures HexValue(c) == Some(n) <==> c == LowerDigits[n] || c == UpperDigits[n]
  {
  }

  /** The lower-case digit for a value below 16. */
  function HexDigit(n: nat): (c: char)
    requires n < 16
    ensures HexValue(c) == Some(n)
  {
    LowerDigits[n]
  }

  /** Every character is a hexadecimal digit. */
  predicate AllHex(s: string) {
    forall i | 0 <= i < |s| :: HexValue(s[i]).Some?
  }

  /** The byte spelled by the `i`-th pair of digits, most significant first. */
  function PairByte(s: string, i: nat): nat
    requires AllHex(s) && 2 * i + 1 < |s|
  {
    HexValue(s[2 * i]).value * 16 + HexValue(s[2 * i + 1]).value
  }

  /** Pairs of hexadecimal digits as bytes. */
  function ParseHexBytes(s: string): (r: Option<seq<uint8>>)
    requires |s| % 2 == 0
    ensures r.Some? <==> AllHex(s)
    ensures r.Some? ==> 2 * |r.value| == |s|
    ensures r.Some? ==> forall i | 0 <= i < |r.value| :: r.value[i] == PairByte(s, i)
    decreases |s|
  {
    if s == [] then Some([])
    else
      var tail := s[2..];
      if HexValue(s[0]).None? || HexValue(s[1]).None? then None
      else
        AllHexTail(s);
        match ParseHexBytes(tail)
        case None => None
        case Some(rest) =>
          ConsPairs(s, rest);
          Some([PairByte(s, 0)] + rest)
  }

  /** Prepending the first pair's byte to the bytes of the remaining pairs
      gives the bytes of all pairs. */
  lemma ConsPairs(s: string, rest: seq<uint8>)
    requires |s| >= 2 && AllHex(s) && 2 * |rest| == |s| - 2
    requires forall i | 0 <= i < |rest| :: rest[i] == PairByte(s[2..], i)
    ensures PairByte(s, 0) < 256
    ensures forall i | 0 <= i < |rest| + 1 :: ([PairByte(s, 0)] + rest)[i] == PairByte(s, i)
  {
    var r := [PairByte(s, 0)] + rest;
    forall i | 1 <= i < |r|
      ensures r[i] == PairByte(s, i)
    {
      assert s[2..][2 * (i - 1)] == s[2 * i] && s[2..][2 * (i - 1) + 1] == s[2 * i + 1];
    }
  }

  lemma AllHexTail(s: string)
    requires |s| >= 2 && HexValue(s[0]).Some? && HexValue(s[1]).Some?
    ensures AllHex(s) <==> AllHex(s[2..])
  {
    assert forall i | 2 <= i < |s| :: s[i] == s[2..][i - 2];
  }

  /** The parse depends only on the digits' values, so the letter case of a
      digit does not matter. */
  lemma ParseHexBytesByValues(s: string, s': string)
    requires |s| == |s'| && |s| % 2 == 0
    requires forall i | 0 <= i < |s| :: HexValue(s[i]) == HexValue(s'[i])
    ensures ParseHexBytes(s) == ParseHexBytes(s')
  {
    AllHexByValues(s, s');
    if AllHex(s) {
      var r, r' := ParseHexBytes(s).value, ParseHexBytes(s').value;
      assert |r| == |r'|;
      forall i | 0 <= i < |r|
        ensures r[i] == r'[i]
      {
        assert PairByte(s, i) == PairByte(s', i) by {
          assert HexValue(s[2 * i]) == HexValue(s'[2 * i]);
          assert HexValue(s[2 * i + 1]) == HexValue(s'[2 * i + 1]);
        }
      }
      assert r == r';
    }
  }

  lemma AllHexByValues(s: string, s': string)
    requires |s| == |s'|
    requires forall i | 0 <= i < |s| :: HexValue(s[i]) == HexValue(s'[i])
    ensures AllHex(s) <==> AllHex(s')
  {
    if AllHex(s) {
      forall i | 0 <= i < |s'| ensures HexValue(s'[i]).Some? {
        assert HexValue(s[i]).Some?;
      }
    }
    if AllHex(s') {
      forall i | 0 <= i < |s| ensures HexValue(s[i]).Some? {
        assert HexValue(s'[i]).Some?;
      }
    }
  }

  /** `Hash::from_hex`: exactly 64 hexadecimal digits, giving 32 bytes. */
  function ParseHexDigest(s: string): (r: Option<Digest>)
    ensures r.Some? <==> |s| == 64 && AllHex(s)
    ensures r.Some? ==> |r.value| == 32
  {
    if |s| != 64 then None else ParseHexBytes(s)
  }

  /** `Hash::to_hex`: two lower-case digits per byte. */
  function ToHex(d: seq<uint8>): (s: string)
    ensures |s| == 2 * |d|
  {
    if d == [] then "" else [HexDigit(d[0] / 16), HexDigit(d[0] % 16)] + ToHex(d[1..])
  }

  /** Reading the hexadecimal form of a byte string gives the bytes back. */
  lemma {:induction false} HexRoundTrip(d: seq<uint8>)
    ensures ParseHexBytes(ToHex(d)) == Some(d)
    decreases |d|
  {
    if d != [] {
      HexRoundTrip(d[1..]);
      HexRoundTripStep(d);
    }
  }

  /** One pair of digits more: the round trip of a byte string extends to
      one more byte in front. */
  lemma HexRoundTripStep(d: seq<uint8>)
    requires d != [] && ParseHexBytes(ToHex(d[1..])) == Some(d[1..])
    ensures ParseHexBytes(ToHex(d)) == Some(d)
  {
    ToHexHead(d);
    ParseCons(ToHex(d), d[0], d[1..]);
    assert [d[0]] + d[1..] == d;
  }

  lemma ToHexHead(d: seq<uint8>)
    requires d != []
    ensures |ToHex(d)| >= 2 && |ToHex(d)| % 2 == 0
    ensures ToHex(d)[2..] == ToHex(d[1..]) && |ToHex(d)[2..]| % 2 == 0
    ensures HexValue(ToHex(d)[0]).Some? && HexValue(ToHex(d)[1]).Some?
    ensures HexValue(ToHex(d)[0]).value * 16 + HexValue(ToHex(d)[1]).value == d[0]
  {
    DoubleIsEven(|d|);
    DoubleIsEven(|d| - 1);
    assert HexValue(ToHex(d)[0]) == Some(d[0] / 16) && HexValue(ToHex(d)[1]) == Some(d[0] % 16);
  }

  lemma DoubleIsEven(n: nat)
    ensures (2 * n) % 2 == 0
  {
  }

  /** A parse that succeeds on the rest of the digits extends by one pair. */
  lemma ParseCons(s: string, b: uint8, rest: seq<uint8>)
    requires |s| >= 2 && |s| % 2 == 0 && HexValue(s[0]).Some? && HexValue(s[1]).Some?
    requires HexValue(s[0]).value * 16 + HexValue(s[1]).value == b
    requires ParseHexBytes(s[2..]) == Some(rest)
    ensures ParseHexBytes(s) == Some([b] + rest)
  {
    AllHexTail(s);
  }

  // ---------------------------------------------------------------------------
  // The download cache

  /** The cache entry's file name for a given hash string: the string as
      given, so two spellings of one digest name two different files. */
  function CacheFileName(hashStr: string): (name: string)
    ensures |name| == |hashStr| + 4 && name[..|hashStr|] == hashStr && name[|hashStr|..] == ".zip"
  {
    hashStr + ".zip"
  }

  /** A file of the download cache directory: content that can be hashed, or
      a file whose hashing fails for a reason other than its absence. */
  datatype CacheFile = Readable(content: Content) | Unreadable

  /** The download cache directory, by file name. */
  type CacheDir = map<string, CacheFile>

  datatype InstallError =
    | TargetIsRoot
    | ScanFailed(scan: ScanError)
    | InvalidHash
    | CacheReadFailed
    | IndexFailed(index: IndexError)
    | NotUnderTarget(path: Path)
    | DeletedPathMissing(path: Path)
    | MergeFailed(merge: MergeError)
    | TargetNotRemovable

  /** Whether the archive must be downloaded: the hash string must be a valid
      digest; then the cache file named by the hash string is hashed, and a
      download happens exactly when that file is missing or its hash differs
      from the digest. */
  function NeedsDownload(hashStr: string, cache: CacheDir, hash: Hasher): (r: Result<bool, InstallError>)
    ensures r == Err(InvalidHash) <==> ParseHexDigest(hashStr).None?
    ensures r == Err(CacheReadFailed) <==>
      ParseHexDigest(hashStr).Some? && CacheFileName(hashStr) in cache && cache[CacheFileName(hashStr)].Unreadable?
    ensures r == Ok(true) <==>
      ParseHexDigest(hashStr).Some? &&
      (CacheFileName(hashStr) !in cache ||
       (cache[CacheFileName(hashStr)].Readable? &&
        hash(cache[CacheFileName(hashStr)].content) != ParseHexDigest(hashStr).value))
    ensures r == Ok(false) <==>
      ParseHexDigest(hashStr).Some? && CacheFileName(hashStr) in cache && cache[CacheFileName(hashStr)].Readable? &&
      hash(cache[CacheFileName(hashStr)].content) == ParseHexDigest(hashStr).value
  {
    var name := CacheFileName(hashStr);
    match ParseHexDigest(hashStr)
    case None => Err(InvalidHash)
    case Some(digest) =>
      if name !in cache then Ok(true)
      else
        match cache[name]
        case Readable(c) => Ok(hash(c) != digest)
        case Unreadable => Err(CacheReadFailed)
  }

  /** The cache after the download decision: a fetched archive is written to
      the file named by the hash string, replacing whatever stood there. */
  function CacheAfter(hashStr: string, cache: CacheDir, downloaded: bool, fetched: Content): (r: CacheDir)
    ensures downloaded ==> CacheFileName(hashStr) in r && r[CacheFileName(hashStr)] == Readable(fetched)
    ensures forall name | name != CacheFileName(hashStr) :: (name in r <==> name in cache) && (name in r ==> r[name] == cache[name])
    ensures !downloaded ==> r == cache
  {
    if downloaded then cache[CacheFileName(hashStr) := Readable(fetched)] else cache
  }

  /** An archive cached under the hexadecimal form of its own hash is reused
      rather than downloaded again. */
  lemma CachedUnderOwnHashIsReused(c: Content, cache: CacheDir, hash: Hasher)
    requires |hash(c)| == 32
    requires CacheFileName(ToHex(hash(c))) in cache && cache[CacheFileName(ToHex(hash(c)))] == Readable(c)
    ensures NeedsDownload(ToHex(hash(c)), cache, hash) == Ok(false)
  {
    HexRoundTrip(hash(c));
  }

  /** Once an archive has been fetched, the next install with the same hash
      string reuses it exactly when its hash is the digest. The fetched bytes
      are never compared with the digest, so an archive with another hash is
      fetched again every time. */
  lemma FetchedArchiveIsReusedOnlyIfItMatches(hashStr: string, cache: CacheDir, hash: Hasher, fetched: Content)
    requires NeedsDownload(hashStr, cache, hash) == Ok(true)
    ensures NeedsDownload(hashStr, CacheAfter(hashStr, cache, true, fetched), hash) ==
      Ok(hash(fetched) != ParseHexDigest(hashStr).value)
  {
  }

  /** The cache is keyed by the hash string as written, not by the digest:
      the upper-case spelling of a digest cached under its lower-case
      spelling names another file, and the archive is fetched again. */
  lemma CacheKeyedBySpelling(c: Content, hash: Hasher)
    requires hash(c) == seq(32, _ => 0xaa)
    ensures var lower := seq(64, _ => 'a');
      var upper := seq(64, _ => 'A');
      var cache := map[CacheFileName(lower) := Readable(c)];
      && ParseHexDigest(lower) == ParseHexDigest(upper) == Some(hash(c))
      && NeedsDownload(lower, cache, hash) == Ok(false)
      && NeedsDownload(upper, cache, hash) == Ok(true)
  {
    var lower: string := seq(64, _ => 'a');
    var upper: string := seq(64, _ => 'A');
    assert HexValue('a') == HexValue('A') == Some(10);
    ParseHexBytesByValues(lower, upper);
    var d := ParseHexBytes(lower).value;
    forall i | 0 <= i < 32
      ensures d[i] == 0xaa
    {
      assert d[i] == PairByte(lower, i);
    }
    assert d == hash(c);
    assert CacheFileName(upper)[0] != CacheFileName(lower)[0];
  }

  // ---------------------------------------------------------------------------
  // Carrying the user's changes into the staged tree

  /** Removing a path reported deleted from the staged tree: a directory with
      everything inside it, anything else by itself. A path the staged tree
      does not have is left alone. */
  function RemoveDeleted(d: Tree, rel: Path): (r: Tree)
    ensures rel != [] ==> rel !in r
    ensures Lookup(d, rel) == Some(Dir) ==> forall q | AtOrUnder(q, rel) :: q !in r
    ensures forall q | q in r :: q in d && r[q] == d[q]
    ensures SameOutside(d, r, rel)
  {
    match Lookup(d, rel)
    case None => d
    case Some(Dir) => RemoveTree(d, rel)
    case Some(_) => d - {rel}
  }

  /** The removal as the program performs it: the path's metadata is read
      first, and a missing path is an error before the removal's own
      tolerance of a missing path is reached. */
  function RemoveDeletedAsWritten(d: Tree, rel: Path): (r: Result<Tree, InstallError>)
    ensures r.Err? <==> Lookup(d, rel).None?
    ensures r.Ok? ==> r.value == RemoveDeleted(d, rel)
  {
    if Lookup(d, rel).None? then Err(DeletedPathMissing(rel)) else Ok(RemoveDeleted(d, rel))
  }

  /** The user deleted a non-empty directory `a` of the package; the scan
      reports both `a` and `a/b` as deleted. Removing `a` first makes the
      removal of `a/b` fail, although the package is otherwise unchanged. */
  lemma DeletedDirectoryAbortsAsWritten()
    ensures var staged := map[[Text("a")] := Dir, [Text("a"), Text("b")] := File(Bytes([]))];
      var afterDir := RemoveDeletedAsWritten(staged, [Text("a")]);
      && afterDir.Ok?
      && RemoveDeletedAsWritten(afterDir.value, [Text("a"), Text("b")]).Err?
      && RemoveDeleted(RemoveDeleted(staged, [Text("a")]), [Text("a"), Text("b")]) == map[]
  {
    var staged := map[[Text("a")] := Dir, [Text("a"), Text("b")] := File(Bytes([]))];
    var once := RemoveDeleted(staged, [Text("a")]);
    assert AtOrUnder([Text("a"), Text("b")], [Text("a")]);
    assert once == map[];
  }

  /** Which removal a preserved deletion uses: the program's, which fails on
      a path the staged tree lacks, or the corrected one, which skips it. */
  datatype Removal = AsWritten | Corrected

  /** One preserved change: a deleted path is removed from the staged tree;
      anything else is merged over from the old installation. */
  function PreserveStep(mode: Removal, prev: Tree, d: Tree, rel: Path, status: Status, oldWalk: seq<Path>, read: Reader): (r: Result<Tree, InstallError>)
    ensures status == Deleted && mode == Corrected ==> r == Ok(RemoveDeleted(d, rel))
    ensures status == Deleted && mode == AsWritten ==> r == RemoveDeletedAsWritten(d, rel)
    ensures status != Deleted ==> (r.Ok? <==> Merge(prev, d, rel, rel, oldWalk, read).Ok?)
    ensures status != Deleted && r.Ok? ==> r.value == Merge(prev, d, rel, rel, oldWalk, read).value
    ensures r.Ok? ==> SameOutside(d, r.value, rel)
  {
    if status == Deleted then
      if mode == AsWritten then RemoveDeletedAsWritten(d, rel) else Ok(RemoveDeleted(d, rel))
    else
      match Merge(prev, d, rel, rel, oldWalk, read)
      case Err(e) => Err(MergeFailed(e))
      case Ok(d1) => Ok(d1)
  }

  /** The changes carried over, in order, as one function: each reported path
      is taken relative to the old installation and preserved. */
  function PreserveAll(mode: Removal, prev: Tree, d: Tree, target: Path, changes: seq<Change>, oldWalk: seq<Path>, read: Reader): (r: Result<Tree, InstallError>)
    ensures changes == [] ==> r == Ok(d)
    ensures r.Ok? ==> forall i | 0 <= i < |changes| :: StripPrefix(OsPath(true, changes[i].path), target).Some?
    ensures r.Err? && r.error.NotUnderTarget? ==>
      exists i | 0 <= i < |changes| :: changes[i].path == r.error.path && StripPrefix(OsPath(true, changes[i].path), target).None?
    decreases |changes|
  {
    if changes == [] then Ok(d)
    else
      match StripPrefix(OsPath(true, changes[0].path), target)
      case None => Err(NotUnderTarget(changes[0].path))
      case Some(rel) =>
        match PreserveStep(mode, prev, d, rel, changes[0].status, oldWalk, read)
        case Err(e) =>
          assert !e.NotUnderTarget?;
          Err(e)
        case Ok(d1) =>
          var r := PreserveAll(mode, prev, d1, target, changes[1..], oldWalk, read);
          assert forall i | 1 <= i < |changes| :: changes[i] == changes[1..][i - 1];
          r
  }

  /** Whenever the program's preservation succeeds, the corrected one gives
      the same tree: the two differ only by failing or not. */
  lemma {:induction false} AsWrittenAgreesWhenItSucceeds(prev: Tree, d: Tree, target: Path, changes: seq<Change>, oldWalk: seq<Path>, read: Reader)
    requires PreserveAll(AsWritten, prev, d, target, changes, oldWalk, read).Ok?
    ensures PreserveAll(Corrected, prev, d, target, changes, oldWalk, read) == PreserveAll(AsWritten, prev, d, target, changes, oldWalk, read)
    decreases |changes|
  {
    if changes != [] {
      var rel := StripPrefix(OsPath(true, changes[0].path), target).value;
      var d1 := PreserveStep(AsWritten, prev, d, rel, changes[0].status, oldWalk, read).value;
      assert PreserveStep(Corrected, prev, d, rel, changes[0].status, oldWalk, read) == Ok(d1);
      AsWrittenAgreesWhenItSucceeds(prev, d1, target, changes[1..], oldWalk, read);
    }
  }

  /** A path the user deleted that the new version no longer ships: the
      program's preservation fails on it, the corrected one leaves the staged
      tree as it is. */
  lemma DeletedPathAbsentFromNewVersion(prev: Tree, d: Tree, target: Path, rel: Path, oldWalk: seq<Path>, read: Reader)
    requires rel != [] && rel !in d
    ensures PreserveAll(AsWritten, prev, d, target, [Change(target + rel, Deleted)], oldWalk, read) == Err(DeletedPathMissing(rel))
    ensures PreserveAll(Corrected, prev, d, target, [Change(target + rel, Deleted)], oldWalk, read) == Ok(d)
  {
    var changes := [Change(target + rel, Deleted)];
    assert (target + rel)[..|target|] == target;
    assert StripPrefix(OsPath(true, target + rel), target) == Some(rel);
    assert changes[1..] == [];
  }

  /** The preservation loop of `install_zip`. A path buffer starts at the
      staging directory; each change's relative path is pushed onto it, the
      staged object at the buffer is removed or merged into, and one
      component is popped per component pushed. */
  method PreserveChanges(mode: Removal, prev: Tree, staged: Tree, target: Path, staging: Path, changes: seq<Change>, oldWalk: seq<Path>, read: Reader)
    returns (r: Result<Tree, InstallError>, buf: Path)
    ensures r == PreserveAll(mode, prev, staged, target, changes, oldWalk, read)
    ensures r.Ok? ==> buf == staging
  {
    buf := staging;
    var d := staged;
    var i := 0;
    while i < |changes|
      invariant 0 <= i <= |changes|
      invariant buf == staging
      invariant PreserveAll(mode, prev, d, target, changes[i..], oldWalk, read) == PreserveAll(mode, prev, staged, target, changes, oldWalk, read)
    {
      var c := changes[i];
      assert changes[i..][1..] == changes[i + 1..];
      var stripped := StripPrefix(OsPath(true, c.path), target);
      if stripped.None? {
        r := Err(NotUnderTarget(c.path));
        return;
      }
      var rel := stripped.value;
      buf := buf + rel;
      var at := buf[|staging|..];
      assert at == rel;
      var step := PreserveStep(mode, prev, d, at, c.status, oldWalk, read);
      if step.Err? {
        r := Err(step.error);
        return;
      }
      d := step.value;
      buf := PopComponents(buf, staging, rel);
      i := i + 1;
    }
    r := Ok(d);
  }

  /** Popping one component per component pushed brings the buffer back. */
  method PopComponents(pushed: Path, base: Path, rel: Path) returns (buf: Path)
    requires pushed == base + rel
    ensures buf == base
  {
    buf := pushed;
    var k := 0;
    while k < |rel|
      invariant 0 <= k <= |rel|
      invariant buf == base + rel[..|rel| - k]
    {
      assert buf[|buf| - 1] == rel[|rel| - k - 1];
      buf := Pop(buf);
      assert buf + [rel[|rel| - k - 1]] == base + rel[..|rel| - k];
      assert rel[..|rel| - k] == rel[..|rel| - k - 1] + [rel[|rel| - k - 1]];
      k := k + 1;
    }
  }

  /** Steps that only remove objects never add a path. */
  lemma {:induction false} DeletionsOnlyRemove(mode: Removal, prev: Tree, d: Tree, target: Path, changes: seq<Change>, oldWalk: seq<Path>, read: Reader)
    requires forall i | 0 <= i < |changes| :: changes[i].status == Deleted
    requires PreserveAll(mode, prev, d, target, changes, oldWalk, read).Ok?
    ensures forall q | q in PreserveAll(mode, prev, d, target, changes, oldWalk, read).value :: q in d
    decreases |changes|
  {
    if changes != [] {
      var rel := StripPrefix(OsPath(true, changes[0].path), target).value;
      var d1 := RemoveDeleted(d, rel);
      assert forall i | 0 <= i < |changes[1..]| :: changes[1..][i] == changes[i + 1];
      DeletionsOnlyRemove(mode, prev, d1, target, changes[1..], oldWalk, read);
    }
  }

  /** When deletions come after every other change, as the scan reports
      them, every path reported deleted is absent from the result. */
  lemma {:induction false} DeletedPathsStayDeleted(mode: Removal, prev: Tree, d: Tree, target: Path, changes: seq<Change>, oldWalk: seq<Path>, read: Reader)
    requires forall i, j | 0 <= i < j < |changes| && changes[i].status == Deleted :: changes[j].status == Deleted
    requires PreserveAll(mode, prev, d, target, changes, oldWalk, read).Ok?
    ensures forall i | 0 <= i < |changes| && changes[i].status == Deleted ::
      StripPrefix(OsPath(true, changes[i].path), target).Some? &&
      var rel := StripPrefix(OsPath(true, changes[i].path), target).value;
      rel != [] ==> rel !in PreserveAll(mode, prev, d, target, changes, oldWalk, read).value
    decreases |changes|
  {
    if changes != [] {
      var rel := StripPrefix(OsPath(true, changes[0].path), target).value;
      var d1 := PreserveStep(mode, prev, d, rel, changes[0].status, oldWalk, read).value;
      var tail := changes[1..];
      var res := PreserveAll(mode, prev, d, target, changes, oldWalk, read).value;
      assert PreserveAll(mode, prev, d1, target, tail, oldWalk, read) == Ok(res);
      assert forall i | 0 <= i < |tail| :: tail[i] == changes[i + 1];
      DeletedPathsStayDeleted(mode, prev, d1, target, tail, oldWalk, read);
      if changes[0].status == Deleted {
        DeletionsOnlyRemove(mode, prev, d1, target, tail, oldWalk, read);
      }
      forall i | 0 <= i < |changes| && changes[i].status == Deleted
        ensures StripPrefix(OsPath(true, changes[i].path), target).Some? &&
          var rel := StripPrefix(OsPath(true, changes[i].path), target).value;
          rel != [] ==> rel !in res
      {
        if i > 0 {
          assert changes[i] == tail[i - 1];
        }
      }
    }
  }

  // ---------------------------------------------------------------------------
  // Putting the staged tree in place

  /** `StagedPackage::finish`: the previous installation, if any, is removed
      and the staged tree takes its place; something other than a directory
      at the target cannot be removed this way. */
  function Finish(prior: Target, staged: Tree): (r: Result<Target, InstallError>)
    ensures r.Ok? <==> !prior.NotADir?
    ensures r.Ok? ==> r.value == PackageDir(staged)
  {
    if prior.NotADir? then Err(TargetNotRemovable) else Ok(PackageDir(staged))
  }

  // ---------------------------------------------------------------------------
  // The whole installation

  /** The outcome of `install_zip`: whether the archive is fetched from the
      network, the download cache afterwards, and the staged tree awaiting
      `finish`. */
  datatype Staged = Staged(downloaded: bool, cache: CacheDir, tree: Tree)

  /** The changes of an existing installation: none when there is no
      installation to scan; any other scan failure aborts the install. */
  function PriorChanges(prior: Target, target: Path, hash: Hasher, priorWalk: seq<Path>): (r: Result<Option<seq<Change>>, InstallError>)
    requires prior.PackageDir? ==> WalkWithin(prior.tree, priorWalk)
    ensures prior.Missing? ==> r == Ok(None)
    ensures prior.NotADir? ==> r == Err(ScanFailed(NotADirectory))
    ensures prior.PackageDir? ==> (r.Ok? <==> Scan(prior, target, hash, priorWalk).Ok?)
    ensures prior.PackageDir? && r.Ok? ==> r.value == Some(Scan(prior, target, hash, priorWalk).value)
  {
    match Scan(prior, target, hash, priorWalk)
    case Ok(cs) => Ok(Some(cs))
    case Err(IndexNotFoundError) => Ok(None)
    case Err(e) => Err(ScanFailed(e))
  }

  /** `install_zip` with the network, the archive and the extraction taken
      as given: `fetched` is what a download would write to the cache;
      `extracted` is the staged tree as extracted into the staging directory
      `staging`, walked by `newWalk`; the previous installation at `target`
      is walked by `priorWalk` and read through `read`. `mode` chooses the
      program's removal of deleted paths or the corrected one. */
  function InstallZip(mode: Removal, prior: Target, target: Path, staging: Path, hashStr: Option<string>, cache: CacheDir,
                      fetched: Content, hash: Hasher, extracted: Tree, newWalk: seq<Path>, priorWalk: seq<Path>,
                      read: Reader): (r: Result<Staged, InstallError>)
    requires prior.PackageDir? ==> WalkWithin(prior.tree, priorWalk)
    requires WalkWithin(extracted, newWalk)
    // A file-system root has no parent to stage next to.
    ensures target == [] ==> r == Err(TargetIsRoot)
    ensures target != [] && prior.NotADir? ==> r == Err(ScanFailed(NotADirectory))
    // With a hash, the cache decides whether to download, and a download is
    // written to the cache; without one, the archive is always fetched and
    // the cache is left alone.
    ensures r.Ok? && hashStr.Some? ==>
      NeedsDownload(hashStr.value, cache, hash) == Ok(r.value.downloaded) &&
      r.value.cache == CacheAfter(hashStr.value, cache, r.value.downloaded, fetched)
    ensures r.Ok? && hashStr.None? ==> r.value.downloaded && r.value.cache == cache
    // The extracted tree is indexed before anything is carried over.
    ensures r.Ok? ==> GeneratePackageIndex(extracted, staging, hash, newWalk).Ok?
    // A fresh install stages exactly the indexed extraction.
    ensures r.Ok? && prior.Missing? ==> r.value.tree == GeneratePackageIndex(extracted, staging, hash, newWalk).value.0
    // A reinstall carries over the changes found in the previous installation.
    ensures r.Ok? && prior.PackageDir? ==>
      Scan(prior, target, hash, priorWalk).Ok? &&
      PreserveAll(mode, prior.tree, GeneratePackageIndex(extracted, staging, hash, newWalk).value.0, target,
                  Scan(prior, target, hash, priorWalk).value, priorWalk, read) == Ok(r.value.tree)
  {
    if target == [] then Err(TargetIsRoot)
    else
      match PriorChanges(prior, target, hash, priorWalk)
      case Err(e) => Err(e)
      case Ok(changes) =>
        var downloaded := match hashStr
          case None => Ok(true)
          case Some(h) => NeedsDownload(h, cache, hash);
        if downloaded.Err? then Err(downloaded.error)
        else
          var cache' := match hashStr
            case None => cache
            case Some(h) => CacheAfter(h, cache, downloaded.value, fetched);
          match GeneratePackageIndex(extracted, staging, hash, newWalk)
          case Err(e) => Err(IndexFailed(e))
          case Ok((indexed, _)) =>
            match changes
            case None => Ok(Staged(downloaded.value, cache', indexed))
            case Some(cs) =>
              match PreserveAll(mode, prior.tree, indexed, target, cs, priorWalk, read)
              case Err(e) => Err(e)
              case Ok(tree) => Ok(Staged(downloaded.value, cache', tree))
  }

  /** Whenever the program's install succeeds, the corrected one stages the
      same tree with the same cache. */
  lemma InstallAsWrittenAgrees(prior: Target, target: Path, staging: Path, hashStr: Option<string>, cache: CacheDir,
                               fetched: Content, hash: Hasher, extracted: Tree, newWalk: seq<Path>, priorWalk: seq<Path>, read: Reader)
    requires prior.PackageDir? ==> WalkWithin(prior.tree, priorWalk)
    requires WalkWithin(extracted, newWalk)
    requires InstallZip(AsWritten, prior, target, staging, hashStr, cache, fetched, hash, extracted, newWalk, priorWalk, read).Ok?
    ensures InstallZip(Corrected, prior, target, staging, hashStr, cache, fetched, hash, extracted, newWalk, priorWalk, read) ==
      InstallZip(AsWritten, prior, target, staging, hashStr, cache, fetched, hash, extracted, newWalk, priorWalk, read)
  {
    if prior.PackageDir? {
      var indexed := GeneratePackageIndex(extracted, staging, hash, newWalk).value.0;
      AsWrittenAgreesWhenItSucceeds(prior.tree, indexed, target, Scan(prior, target, hash, priorWalk).value, priorWalk, read);
    }
  }

  /** A reinstall that succeeds leaves out every path the scan of the
      previous installation reported deleted: the scan lists its deletions
      after every other change, so no later change brings one back. */
  lemma ReinstallKeepsDeletionsDeleted(mode: Removal, prior: Target, target: Path, staging: Path, hashStr: Option<string>, cache: CacheDir,
                                       fetched: Content, hash: Hasher, extracted: Tree, newWalk: seq<Path>, priorWalk: seq<Path>, read: Reader)
    requires prior.PackageDir? && WalkWithin(prior.tree, priorWalk)
    requires WalkWithin(extracted, newWalk)
    requires InstallZip(mode, prior, target, staging, hashStr, cache, fetched, hash, extracted, newWalk, priorWalk, read).Ok?
    ensures Scan(prior, target, hash, priorWalk).Ok?
    ensures forall c | c in Scan(prior, target, hash, priorWalk).value && c.status == Deleted ::
      StripPrefix(OsPath(true, c.path), target).Some? &&
      var rel := StripPrefix(OsPath(true, c.path), target).value;
      rel != [] ==> rel !in InstallZip(mode, prior, target, staging, hashStr, cache, fetched, hash, extracted, newWalk, priorWalk, read).value.tree
  {
    var cs := Scan(prior, target, hash, priorWalk).value;
    var indexed := GeneratePackageIndex(extracted, staging, hash, newWalk).value.0;
    ScanDeletionsLast(prior.tree, target, hash, priorWalk);
    DeletedPathsStayDeleted(mode, prior.tree, indexed, target, cs, priorWalk, read);
    forall c | c in cs && c.status == Deleted
      ensures StripPrefix(OsPath(true, c.path), target).Some?
    {
      var i :| 0 <= i < |cs| && cs[i] == c;
    }
  }

  /** A reinstall after the user deleted the packaged file `x`, when the new
      version no longer ships `x`: the scan reports `x` deleted, the program's
      install then fails on it, and the corrected install stages the new
      version's indexed tree. */
  lemma ReinstallAfterDroppedFile(digest: Digest, hash: Hasher, read: Reader)
    ensures var target := [Text("pkg")];
      var x := [Text("x")];
      var prior := PackageDir(map[IndexFilePath := File(IndexImage(V1([(["x"], FileEntry(digest))])))]);
      var staging := [Text("tmp")];
      var args := (prior, target, staging);
      && Scan(prior, target, hash, [IndexFilePath]) == Ok([Change(target + x, Deleted)])
      && InstallZip(AsWritten, prior, target, staging, None, map[], Bytes([]), hash, map[], [], [IndexFilePath], read) ==
           Err(DeletedPathMissing(x))
      && InstallZip(Corrected, prior, target, staging, None, map[], Bytes([]), hash, map[], [], [IndexFilePath], read) ==
           Ok(Staged(true, map[], map[IndexFilePath := File(IndexImage(V1([])))]))
  {
    var target := [Text("pkg")];
    var x := [Text("x")];
    var index := V1([(["x"], FileEntry(digest))]);
    var t := map[IndexFilePath := File(IndexImage(index))];
    var prior := PackageDir(t);
    var staging := [Text("tmp")];
    assert ReadIndex(t) == Ok(Some(index));
    var walked := WalkChanges(target, index, hash, t, [IndexFilePath]);
    assert ChangeAt(target, index, hash, t, IndexFilePath).None?;
    assert [IndexFilePath][1..] == [];
    assert Processed(target, index, hash, t, [IndexFilePath]) == [IndexFilePath];
    assert Report(target, index, hash, t, [IndexFilePath][1..]) == [];
    assert Report(target, index, hash, t, [IndexFilePath]) == [];
    assert walked == [];
    assert TextPath(["x"]) == x;
    assert x != IndexFilePath;
    assert Lookup(t, x).None?;
    assert !SuppressedAsWritten(index, target + x) by {
      assert |AbsoluteComponentStrs(target + x)| == 3;
    }
    assert TryExists(t, x) == Ok(false);
    assert Deletions(target, index, t, index.entries[1..]) == Ok([]);
    assert [Change(target + x, Deleted)] + [] == [Change(target + x, Deleted)];
    assert Deletions(target, index, t, index.entries) == Ok([Change(target + x, Deleted)]);
    assert WalkWithin(t, [IndexFilePath]);
    assert Scan(prior, target, hash, [IndexFilePath]) == Ok(walked + Deletions(target, index, t, index.entries).value);
    assert walked + [Change(target + x, Deleted)] == [Change(target + x, Deleted)];
    assert BuildIndex(map[], staging, hash, []) == Ok(V1([]));
    var staged := map[IndexFilePath := File(IndexImage(V1([])))];
    assert GeneratePackageIndex(map[], staging, hash, []) == Ok((staged, V1([])));
    assert x !in staged;
    DeletedPathAbsentFromNewVersion(t, staged, target, x, [IndexFilePath], read);
  }

  /** A reinstall after the user replaced the packaged directory `a`, which
      held the file `a/b`, by a regular file: checking whether `a/b` still
      exists fails with `NotADirectory`, so the scan fails, and with it the
      install, in either removal mode. */
  lemma ReinstallOverReplacedDirectoryFails(mode: Removal, digest: Digest, hash: Hasher, read: Reader, c: Content)
    ensures var target := [Text("pkg")];
      var index := V1([(["a"], DirectoryEntry), (["a", "b"], FileEntry(digest))]);
      var prior := PackageDir(map[IndexFilePath := File(IndexImage(index)), [Text("a")] := File(c)]);
      var priorWalk := [IndexFilePath, [Text("a")]];
      && Scan(prior, target, hash, priorWalk) == Err(IoError)
      && InstallZip(mode, prior, target, [Text("tmp")], None, map[], Bytes([]), hash, map[], [], priorWalk, read) ==
           Err(ScanFailed(IoError))
  {
    var target := [Text("pkg")];
    var a := [Text("a")];
    var ab := [Text("a"), Text("b")];
    var index := V1([(["a"], DirectoryEntry), (["a", "b"], FileEntry(digest))]);
    var t := map[IndexFilePath := File(IndexImage(index)), a := File(c)];
    var priorWalk := [IndexFilePath, a];
    assert a != IndexFilePath;
    assert ReadIndex(t) == Ok(Some(index));
    assert TextPath(["a", "b"]) == ab;
    assert ab[..1] == a && Blocks(t, ab[..1]);
    assert TryExists(t, ab) == Err(IoError);
    assert index.entries[1] in index.entries;
    assert WalkWithin(t, priorWalk);
    assert Scan(PackageDir(t), target, hash, priorWalk) == Err(IoError);
  }

  /** A fresh install that succeeds, once finished and scanned at the target,
      reports nothing for its files and directories and nothing but
      `LinkTargetChanged` for its links, whichever staging directory the
      archive was extracted and indexed in. */
  lemma FreshInstallScansAsIndexed(mode: Removal, target: Path, staging: Path, hashStr: Option<string>, cache: CacheDir, fetched: Content, hash: Hasher,
                                   extracted: Tree, newWalk: seq<Path>, priorWalk: seq<Path>, read: Reader, w2: seq<Path>)
    requires WellFormed(extracted) && IsWalk(extracted, newWalk)
    requires InstallZip(mode, Missing, target, staging, hashStr, cache, fetched, hash, extracted, newWalk, priorWalk, read).Ok?
    requires IsWalk(InstallZip(mode, Missing, target, staging, hashStr, cache, fetched, hash, extracted, newWalk, priorWalk, read).value.tree, w2)
    ensures var staged := InstallZip(mode, Missing, target, staging, hashStr, cache, fetched, hash, extracted, newWalk, priorWalk, read).value.tree;
      Finish(Missing, staged).Ok? &&
      var installed := Finish(Missing, staged).value;
      Scan(installed, target, hash, w2).Ok? &&
      forall c | c in Scan(installed, target, hash, w2).value ::
        c.status == LinkTargetChanged && exists x | x in extracted && x != IndexFilePath && extracted[x].Symlink? :: c.path == target + x
  {
    FreshScanAnyRoot(extracted, staging, target, hash, newWalk, w2);
  }
}
