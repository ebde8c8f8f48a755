# Manderrow package tracking, Thunderstore names and game metadata, in Dafny

This project models three pure-logic parts of the Manderrow mod manager and
proves properties of them.

1. **Installed-package change tracking** (`src-tauri/src/installing/mod.rs`).
   - A freshly extracted package directory is indexed: every path below it maps
     to `File{hash}`, `Symlink{target}` or `Directory`, and the index is written
     to `.manderrow_content_index`.
   - A later scan compares the live directory against that index and lists
     `(path, Status)` changes.
   - A reinstall carries those changes into the newly staged tree. Deleted
     paths are removed; everything else is merged over with `merge_paths`. The
     staged tree then replaces the old installation.
2. **Thunderstore names, versions and the shared-profile header**
   (`src-tauri/src/importing/thunderstore.rs`).
3. **The game table** (`src-tauri/src/games.rs`): the id-keyed lookup,
   `steam_or_direct`, the store-platform tags with their aliases, and the
   package-loader names.

The file system is an immutable map from relative paths to node kinds
(`FileTree.Tree`). A path is a sequence of components, each either Unicode
text or a non-Unicode name. The package directory itself is the implicit
root.

The following are parameters:
- the content hash (`FileTree.Hasher`);
- the order in which `WalkDir` yields a directory's entries: any walk that
  yields each directory before its contents;
- reading a file's content through `fs::copy` (`MergePaths.Reader`);
- the base64 decoder.

`skip_current_dir` is modelled as dropping the skipped directory's
descendants from the rest of the walk. The archived index is an ordered
association list, looked up by first match.

Modules, in dependency order:
- `Common`
- `OsPaths`
- `PackageIndex`
- `FileTree`
- `Indexing`
- `ChangeScan`
- `MergePaths`
- `Install`
- `Thunderstore`
- `Games`

Two behaviours of the scan are modelled exactly as the code has them.

- **Link test.** A symbolic link recorded in the index is reported
  `LinkTargetChanged` when its target is *equal* to the recorded one
  (`installing/mod.rs:205`), although the `Status` documentation says the
  status means the target changed.
  - `ChangeScan.ScanAfterIndexReportsExactlyTheLinks` proves the
    consequence: scanning a tree right after indexing it reports every link,
    and nothing else. This holds with a path's existence decided on the tree
    itself. The program's `try_exists` (`installing/mod.rs:245`) follows
    links, so it also reports a dangling packaged link as `Deleted`.
  - `ChangeScan.RetargetedLinkNotReported` shows a retargeted relative link
    going unreported.
- **Parent-deleted suppression.** This test (`installing/mod.rs:247-255`) is
  kept as the explicit predicate `ChangeScan.SuppressedAsWritten`. It compares
  package-relative index keys with the components of an absolute path, whose
  first component is the root `/`.
  - `ChangeScan.SuppressionNeedsRootKey` proves that it cannot fire when no
    index key has `/` as its first component.
  - `Indexing.GeneratedKeysAreNames` proves that no generated key has such a
    component.
  - So for generated indexes every missing indexed path is reported
    `Deleted`, parents and children alike, as long as the existence check
    succeeds (next point).
- **Existence check.** `try_exists` (`installing/mod.rs:245`) answers "not
  there" only when the path is not found. When an ancestor of an indexed path
  is now a regular or special file, the check fails with `NotADirectory`, and
  the `?` aborts the whole scan. `ChangeScan.TryExists` models this, and
  `ChangeScan.Deletions` and `ChangeScan.Scan` fail with `IoError` on it.
  - `Install.ReinstallOverReplacedDirectoryFails` takes an installed
    directory `a` holding `a/b` that the user replaced by a file. The scan
    fails, and so does the reinstall, in either removal mode.
  - In a well-formed tree an existing path never fails the check
    (`FileTree.AncestorsAreDirs`). So a freshly indexed tree still scans
    without error.

The downloaded bytes are never checked against the hash
(`installing/mod.rs:379-388`). Only the hash of an already cached file decides
whether to download. `Install.FetchedArchiveIsReusedOnlyIfItMatches` shows
the consequence: an archive whose hash is not the digest is fetched again on
every install.

The removal of deleted paths at `installing/mod.rs:418-428` fails on a path
the staged tree lacks (see "## Findings"). The preservation functions and
`Install.InstallZip` take a `Removal` mode. `AsWritten` is the program's
removal and `Corrected` skips a missing path. Every property below holds for
both modes unless the row names one.
- `Install.InstallAsWrittenAgrees` proves that whenever the program's install
  succeeds, the corrected one stages the same tree.
- `Install.ReinstallAfterDroppedFile` exhibits a reinstall where the program's
  install fails and the corrected one succeeds.

## Model

| member | source | states |
|---|---|---|
| Games.ById | src-tauri/src/games.rs:6-7 | the lookup's keys are exactly the games' ids, and every key maps to a game of the list whose id is that key |
| Games.ByIdFindsEachGame | src-tauri/src/games.rs:6-7 | when ids are distinct, looking up any game's id returns that game |
| Games.ByIdLastWins | src-tauri/src/games.rs:6-7 | when an id repeats, the lookup holds the last game with that id, as collecting into a map keeps the later entry |
| Games.SteamOrDirect | src-tauri/src/games.rs:63-71 | yields a value exactly for `Steam` and `SteamDirect`, and that value is the variant's store identifier |
| Games.PlatformTag | src-tauri/src/games.rs:34-61 | the serialised tag is one the deserialiser accepts, and it is an identified variant's tag exactly when the variant carries an identifier |
| Games.DeserializeMetadata | src-tauri/src/games.rs:34-61 | only variant names and their aliases are accepted, and an unknown tag is an unknown-variant error; an identified variant needs its identifier field and a unit variant is accepted with or without one; the identifier is carried exactly by the variants that have one; a tag is either the variant's own name or its declared alias |
| Games.UnitVariantIgnoresIdentifier | src-tauri/src/games.rs:56-60 | a unit variant reads the same whether or not an identifier field comes with it |
| Games.AliasesAgreeWithNames | src-tauri/src/games.rs:46-59 | each alias ("Epic Games Store", "Xbox Game Pass", "Oculus Store", "Origin / EA Desktop") decodes to the same variant as the variant's own name |
| Games.MetadataRoundTrip | src-tauri/src/games.rs:34-61 | serialising a platform entry as tag plus identifier field and decoding it gives back the entry |
| Games.ParseLoader | src-tauri/src/games.rs:73-84 | a successful parse yields the loader whose name is the input; a failure means no loader has that name |
| Games.LoaderName | src-tauri/src/games.rs:86-107 | the name is the variant's identifier: non-empty ASCII letters starting with a capital |
| Games.LoaderNameInjective | src-tauri/src/games.rs:86-107 | distinct loaders have distinct names |
| Games.LoaderNameRoundTrip | src-tauri/src/games.rs:73-107 | parsing a loader's name gives back the loader |
| Thunderstore.FirstIndex | src-tauri/src/importing/thunderstore.rs:79 | no index exactly when the character does not occur; otherwise the index of its first occurrence |
| Thunderstore.FirstIndexAfter | src-tauri/src/importing/thunderstore.rs:79 | a text with no hyphen before a hyphen has its first hyphen right after that text |
| Thunderstore.Namespace | src-tauri/src/importing/thunderstore.rs:19-21 | the namespace contains no hyphen and, followed by a hyphen, is a prefix of the full name |
| Thunderstore.Name | src-tauri/src/importing/thunderstore.rs:23-25 | the name is a proper suffix of the full name |
| Thunderstore.Components | src-tauri/src/importing/thunderstore.rs:27-29 | namespace, a hyphen and name concatenate to the full name, and the namespace holds no hyphen |
| Thunderstore.Deserialize | src-tauri/src/importing/thunderstore.rs:75-99 | fails exactly when the text has no hyphen, reporting the text; otherwise keeps the text and splits at its first hyphen; `visit_str` and `visit_string` are this same function |
| Thunderstore.Serialize | src-tauri/src/importing/thunderstore.rs:40-50 | the serialised, displayed or converted text reads back as the same name with the same split |
| Thunderstore.TextRoundTrip | src-tauri/src/importing/thunderstore.rs:40-50 | the serialised, displayed or converted form of a parsed name is the original text |
| Thunderstore.DeserializeSplitsJoin | src-tauri/src/importing/thunderstore.rs:18-30 | a hyphen-free namespace joined to any name by a hyphen parses back into exactly that namespace and name |
| Thunderstore.Decimal | src-tauri/src/importing/thunderstore.rs:125 | a number prints as decimal digits denoting it, without leading zeros |
| Thunderstore.DecimalHasNoDot | src-tauri/src/importing/thunderstore.rs:125 | a printed number contains no dot |
| Thunderstore.DisplayVersion | src-tauri/src/importing/thunderstore.rs:123-127 | the displayed `major.minor.patch` reads back, through an independent reader, as the same version |
| Thunderstore.DottedDecimalsRead | src-tauri/src/importing/thunderstore.rs:115-127 | three numbers printed in decimal and joined by dots read back as those numbers |
| Thunderstore.PrefixBytesSpellHeader | src-tauri/src/importing/thunderstore.rs:151 | the checked byte prefix is the UTF-8 spelling of `#r2modman` and a newline |
| Thunderstore.ProfilePayload | src-tauri/src/importing/thunderstore.rs:162-170 | the payload is accepted exactly when it begins with the prefix, and what follows the prefix is kept; a body shorter than the prefix fails with an end-of-file error; a longer one with another start is invalid profile data |
| Thunderstore.DecodeProfile | src-tauri/src/importing/thunderstore.rs:161-175 | a body without the prefix fails with a header error and never a base64 error; with the prefix, the result is the base64 decoding of the rest |
| Thunderstore.HeaderCheckedBeforeDecoding | src-tauri/src/importing/thunderstore.rs:162-175 | a body without the prefix is rejected the same way whatever the base64 decoder would do |
| OsPaths.StripPrefix | src-tauri/src/installing/mod.rs:293-298 | succeeds exactly for absolute paths at or below the base, and the base followed by the remainder is the path |
| OsPaths.Pop | src-tauri/src/installing/mod.rs:432-434 | popping removes exactly the last component, and does nothing at the root |
| PackageIndex.TryFromPath | src-tauri/src/installing/mod.rs:61-76 | one string per component, in order; fails exactly when some component is not valid Unicode; the strings name the same path |
| PackageIndex.TryFromTextPath | src-tauri/src/installing/mod.rs:61-76 | an index path converts back to itself through its file-system form |
| PackageIndex.TryFromPathInjective | src-tauri/src/installing/mod.rs:61-76 | distinct paths never convert to the same index path |
| PackageIndex.Get | src-tauri/src/installing/mod.rs:24-32 | finds an entry exactly for recorded keys, and the entry found is recorded under that key |
| PackageIndex.GetFindsRecordedEntry | src-tauri/src/installing/mod.rs:24-32 | with unique keys, a lookup returns the entry recorded for the key |
| PackageIndex.Insert | src-tauri/src/installing/mod.rs:311 | after inserting, the key maps to the new entry, every other key keeps its entry, and the keys are the old ones plus the new key |
| PackageIndex.InsertKeepsKeysUnique | src-tauri/src/installing/mod.rs:311 | inserting into an index with unique keys keeps its keys unique, as a map insertion does |
| FileTree.Lookup | src-tauri/src/installing/mod.rs:419 | the package directory itself is a directory; any other path is found exactly when the tree holds it, with its node |
| FileTree.WalkOutside | src-tauri/src/installing/mod.rs:227-234 | after skipping a directory, the rest of the walk holds exactly the entries not inside it |
| FileTree.WalkUnder | src-tauri/src/installing/mod.rs:441-443 | a walk started at a path yields exactly the walked entries inside it |
| FileTree.WalkOutsideAncestorsFirst | src-tauri/src/installing/mod.rs:227-234 | skipping a directory keeps the walk's ancestors-first order |
| FileTree.RemoveTree | src-tauri/src/installing/mod.rs:483 | removal deletes the path and everything inside it, and leaves every other entry unchanged |
| Indexing.StoreTarget | src-tauri/src/installing/mod.rs:293-303 | a target under the package root is stored relative to it, any other unchanged; storing fails exactly when the kept path is not valid Unicode |
| Indexing.EntryFor | src-tauri/src/installing/mod.rs:285-310 | regular files map to their content hash, directories to `Directory`, links to their stored target, and any other file type is an error |
| Indexing.IndexRecord | src-tauri/src/installing/mod.rs:283-311 | a walked path yields a record exactly when it converts to an index path and its object can be indexed |
| Indexing.BuildIndex | src-tauri/src/installing/mod.rs:281-312 | succeeds exactly when every walked path can be indexed; keys are unique and each names a walked path |
| Indexing.BuildIndexRecordsEachEntry | src-tauri/src/installing/mod.rs:281-312 | the index maps every walked path to the entry of the object found there |
| Indexing.WriteIndexFile | src-tauri/src/installing/mod.rs:313-314 | the index file is written unless a non-file object stands at its name, and nothing else changes |
| Indexing.GeneratePackageIndex | src-tauri/src/installing/mod.rs:272-316 | fails exactly when building the index or writing the index file fails, passing a build error through; on success, the index built from the walk is what the written index file holds |
| Indexing.IndexExcludesRoot | src-tauri/src/installing/mod.rs:276-280 | the package root itself is never a key |
| Indexing.GeneratedTreeWellFormed | src-tauri/src/installing/mod.rs:313-314 | writing the index file into a well-formed tree leaves it well formed |
| Indexing.GeneratedKeysAreNames | src-tauri/src/installing/mod.rs:281-311 | no component of a generated key is "/" |
| ChangeScan.ReadIndex | src-tauri/src/installing/mod.rs:136-147 | no index file means no index; an archived index is read back; other bytes are an invalid index; a non-file is a read error |
| ChangeScan.IndexedEntry | src-tauri/src/installing/mod.rs:176 | a non-Unicode path has no entry; a Unicode path has exactly the index's entry for its converted key |
| ChangeScan.LinkTestAsWritten | src-tauri/src/installing/mod.rs:193-206 | for a relative stored target, the test holds exactly when the indexer would store the current target the same way |
| ChangeScan.Classify | src-tauri/src/installing/mod.rs:169-234 | the per-entry rules: the index file is ignored; a non-Unicode path is untrackable; an unindexed path is created; an indexed file is a type change when no longer a file, modified when its hash differs, and silent otherwise; a directory is a type change only when no longer one; a link is a type change when no longer a link and reported exactly when the as-written target test holds; contents are skipped exactly for a new or replaced directory |
| ChangeScan.Processed | src-tauri/src/installing/mod.rs:153-235 | every entry the scan looks at is a walked entry of the tree |
| ChangeScan.Report | src-tauri/src/installing/mod.rs:153-235 | every looked-at entry's change is reported, and every reported change belongs to a looked-at entry |
| ChangeScan.WalkChanges | src-tauri/src/installing/mod.rs:160-235 | every change the walk reports is the change of some walked entry |
| ChangeScan.ProcessedNotShadowed | src-tauri/src/installing/mod.rs:180-184 | a looked-at entry lies inside no walked entry whose contents are skipped |
| ChangeScan.UnshadowedIsProcessed | src-tauri/src/installing/mod.rs:227-232 | a walked entry inside no skipped entry is looked at |
| ChangeScan.WalkChangesExactly | src-tauri/src/installing/mod.rs:153-235 | a change is reported by the walk exactly when it is the change of a walked entry lying inside no skipped entry |
| ChangeScan.SkippedDirectoryHidesContents | src-tauri/src/installing/mod.rs:227-234 | after a new or replaced directory is reported, nothing inside it is reported by the walk |
| ChangeScan.AbsoluteComponentStrs | src-tauri/src/installing/mod.rs:248-253 | an absolute path's component strings are "/" followed by each component's text, or nothing for a non-Unicode component |
| ChangeScan.SuppressedAsWritten | src-tauri/src/installing/mod.rs:247-255 | the parent-deleted test fires only if some index key has "/" as its first component |
| ChangeScan.SuppressionNeedsRootKey | src-tauri/src/installing/mod.rs:247-255 | when no index key starts with "/", the parent-deleted test never fires |
| ChangeScan.TryExists | src-tauri/src/installing/mod.rs:245 | fails with `IoError` only, when an ancestor is a regular or special file; otherwise it agrees with the tree; in a well-formed tree an existing path always passes |
| ChangeScan.Deletions | src-tauri/src/installing/mod.rs:237-264 | fails with `IoError` exactly when the existence check of some indexed path fails; otherwise every deletion names an indexed path missing from the tree, and every missing indexed path is reported unless the as-written test fires |
| ChangeScan.DeletionsExactly | src-tauri/src/installing/mod.rs:240-259 | the pass succeeds exactly when every key's existence check succeeds; then, when the suppression never fires, a deletion is reported exactly for the indexed paths missing from the tree |
| ChangeScan.NothingMissingNoDeletions | src-tauri/src/installing/mod.rs:245 | in a well-formed tree where every indexed path exists, the deletion pass succeeds and reports nothing |
| ChangeScan.Scan | src-tauri/src/installing/mod.rs:121-269 | a missing target is `IndexNotFoundError`; a non-directory is a `NotADirectory` error; otherwise the scan fails exactly when reading the index fails, with that error, or when the existence check of an indexed path fails, with `IoError` |
| ChangeScan.NoIndexFileReportsOnlyNewPaths | src-tauri/src/installing/mod.rs:136-140 | a directory without an index file is scanned with an empty index: it succeeds, and every change is a creation or an untrackable path |
| ChangeScan.IndexFileNeverReported | src-tauri/src/installing/mod.rs:169-171 | the index file is never reported, neither by the walk nor as deleted |
| ChangeScan.ScanReportsBelowRoot | src-tauri/src/installing/mod.rs:241-258 | every reported path lies below the scanned directory |
| ChangeScan.StoredTargetPassesLinkTest | src-tauri/src/installing/mod.rs:193-206 | a link target as the indexer stored it passes the scan's link test |
| ChangeScan.RetargetedLinkNotReported | src-tauri/src/installing/mod.rs:193-206 | a relative link pointing somewhere other than its recorded relative target produces no change |
| ChangeScan.FreshVerdict | src-tauri/src/installing/mod.rs:169-225 | on a freshly indexed tree, no entry's contents are skipped and only links are reported |
| ChangeScan.FreshDeletionsSilent | src-tauri/src/installing/mod.rs:237-264 | a freshly written index of a well-formed tree records no path missing from it, so the deletion pass succeeds and reports nothing wherever the tree is scanned |
| ChangeScan.ScanAfterIndexReportsExactlyTheLinks | src-tauri/src/installing/mod.rs:121-264 | scanning a well-formed tree right after indexing it succeeds, reports no file or directory, and reports every link, as `LinkTargetChanged`; existence is decided on the tree |
| ChangeScan.FreshVerdictAnyRoot | src-tauri/src/installing/mod.rs:169-225 | on a tree indexed in one directory and scanned at another, no entry's contents are skipped and only a link can be reported, as `LinkTargetChanged` |
| ChangeScan.FreshScanAnyRoot | src-tauri/src/installing/mod.rs:121-264 | scanning at any root a well-formed tree indexed in a staging directory succeeds and reports only links of the tree, each as `LinkTargetChanged` |
| ChangeScan.WalkNeverDeletes | src-tauri/src/installing/mod.rs:163-235 | the walk phase never reports `Deleted` |
| ChangeScan.ScanDeletionsLast | src-tauri/src/installing/mod.rs:163-269 | in the scan's result every change after a `Deleted` one is `Deleted` too: the deletion pass runs after the walk |
| MergePaths.KindAt | src-tauri/src/installing/mod.rs:460-465 | a destination is a directory, absent, or file-like, as its metadata says |
| MergePaths.CreateDir | src-tauri/src/installing/mod.rs:491 | creating a directory needs a directory parent and a free name, and adds just that directory |
| MergePaths.CopyInto | src-tauri/src/installing/mod.rs:493 | copying needs a directory parent and a non-directory destination, and puts a regular file with the content there |
| MergePaths.MergeEntry | src-tauri/src/installing/mod.rs:466-494 | the per-entry merge rules: a directory onto a directory changes nothing; a directory onto anything else replaces it with a directory; a file onto a directory removes the directory and all its contents, then copies; a file onto anything else is copied over it; the destination ends up mirroring the source, and nothing outside it changes |
| MergePaths.MergeAll | src-tauri/src/installing/mod.rs:442-500 | a successful merge changes nothing outside the destination |
| MergePaths.MergeAllUntouched | src-tauri/src/installing/mod.rs:442-500 | a destination at or above which no merge step acts is left unchanged |
| MergePaths.MergeAllMirrors | src-tauri/src/installing/mod.rs:442-500 | after a merge in ancestors-first order, every destination mirrors its source object |
| MergePaths.WalkFrom | src-tauri/src/installing/mod.rs:442-450 | the source root comes first and maps to `to` itself, followed by each walked path inside the source, relative to it |
| MergePaths.WalkUnderAncestorsFirst | src-tauri/src/installing/mod.rs:442-443 | the walk of a subtree keeps the ancestors-first order |
| MergePaths.WalkFromAncestorsFirst | src-tauri/src/installing/mod.rs:442-450 | the relative walk of a subtree is ancestors-first |
| MergePaths.Merge | src-tauri/src/installing/mod.rs:441-501 | `merge_paths` changes nothing outside its destination |
| MergePaths.MergeMirrors | src-tauri/src/installing/mod.rs:441-501 | after `merge_paths`, the destination mirrors the source and every walked path inside the source is mirrored at the same relative place |
| Install.HexValue | src-tauri/src/installing/mod.rs:369 | a digit's value is below 16 |
| Install.HexValueSpelling | src-tauri/src/installing/mod.rs:369 | a character reads as a value exactly when it is that value's lower- or upper-case digit |
| Install.HexDigit | src-tauri/src/installing/mod.rs:369 | a digit reads back as the value it was made from |
| Install.ParseHexBytes | src-tauri/src/installing/mod.rs:369 | succeeds exactly when every character is a hexadecimal digit; byte `i` is the value of digits `2i` and `2i+1`, most significant first |
| Install.ParseHexBytesByValues | src-tauri/src/installing/mod.rs:369 | the parse depends only on the digits' values, so letter case does not matter |
| Install.ParseHexDigest | src-tauri/src/installing/mod.rs:369 | a digest is exactly 64 hexadecimal digits and gives 32 bytes |
| Install.HexRoundTrip | src-tauri/src/installing/mod.rs:369 | parsing the hexadecimal form of bytes gives the bytes back |
| Install.NeedsDownload | src-tauri/src/installing/mod.rs:367-388 | an invalid hash string is an error before the cache is consulted; then the cache file named `<hash string>.zip` decides: unreadable is an error, and a download happens exactly when that file is missing or its hash differs from the digest |
| Install.CacheAfter | src-tauri/src/installing/mod.rs:380-386 | a download writes the fetched archive to the file named by the hash string; every other cache file is unchanged; without a download the cache is unchanged |
| Install.CachedUnderOwnHashIsReused | src-tauri/src/installing/mod.rs:367-388 | an archive cached under the lower-case hexadecimal form of its own hash is not downloaded again |
| Install.FetchedArchiveIsReusedOnlyIfItMatches | src-tauri/src/installing/mod.rs:367-388 | after a download, the next install with the same hash string reuses the archive exactly when its hash is the digest |
| Install.CacheKeyedBySpelling | src-tauri/src/installing/mod.rs:368-378 | two spellings of one digest parse alike but name different cache files, so an archive cached under one spelling is fetched again under the other |
| Install.RemoveDeleted | src-tauri/src/installing/mod.rs:418-428 | the corrected removal: a deleted path is gone afterwards, with all its contents when it was a directory; an absent path is skipped; nothing outside it changes and nothing is added |
| Install.RemoveDeletedAsWritten | src-tauri/src/installing/mod.rs:418-428 | fails exactly when the path is already missing; otherwise removes as the corrected removal does |
| Install.DeletedDirectoryAbortsAsWritten | src-tauri/src/installing/mod.rs:418-428 | removing a deleted directory and then its deleted file fails as written, while the corrected removal empties the tree |
| Install.PreserveStep | src-tauri/src/installing/mod.rs:418-431 | a deleted path is removed: the program's removal fails when the path is missing, the corrected one skips it; any other change is merged over from the old installation at the same relative place; nothing outside that place changes |
| Install.PreserveAll | src-tauri/src/installing/mod.rs:412-436 | no changes leave the staged tree as it is; success means every change lies under the target; a not-under-target error names a change outside it |
| Install.AsWrittenAgreesWhenItSucceeds | src-tauri/src/installing/mod.rs:412-436 | whenever the program's preservation succeeds, the corrected one gives the same tree |
| Install.DeletedPathAbsentFromNewVersion | src-tauri/src/installing/mod.rs:418-428 | a deleted path the staged tree lacks makes the program's preservation fail and leaves the corrected one's tree unchanged |
| Install.PreserveChanges | src-tauri/src/installing/mod.rs:412-436 | the loop computes the functional preservation of all changes in either removal mode, and the path buffer is back at the staging directory when it finishes |
| Install.PopComponents | src-tauri/src/installing/mod.rs:432-434 | popping one component for each one pushed brings the path buffer back to where it was |
| Install.DeletionsOnlyRemove | src-tauri/src/installing/mod.rs:418-428 | a run of deletions never adds a path |
| Install.DeletedPathsStayDeleted | src-tauri/src/installing/mod.rs:412-436 | when deletions come after all other changes, as the scan reports them, no deleted path remains in the staged tree |
| Install.Finish | src-tauri/src/installing/mod.rs:329-340 | the staged tree replaces a missing or directory target; any other target makes it fail |
| Install.PriorChanges | src-tauri/src/installing/mod.rs:357-361 | no installation means no changes; a non-directory aborts; otherwise the changes are those the scan finds |
| Install.InstallZip | src-tauri/src/installing/mod.rs:346-439 | a root target is refused; with a hash the cache decides on downloading and a download is cached under the hash string, without one the archive is always fetched and the cache untouched; the extraction is indexed; a fresh install stages exactly the indexed extraction; a reinstall stages it with the old installation's changes carried over, in the chosen removal mode |
| Install.InstallAsWrittenAgrees | src-tauri/src/installing/mod.rs:346-439 | whenever the program's install succeeds, the corrected install stages the same tree and cache |
| Install.ReinstallOverReplacedDirectoryFails | src-tauri/src/installing/mod.rs:357-361 | after the user replaced a packaged directory holding a packaged file by a regular file, the existence check of that file (`installing/mod.rs:245`) fails, so the scan fails with `IoError` and the reinstall fails with it, in either removal mode |
| Install.ReinstallAfterDroppedFile | src-tauri/src/installing/mod.rs:357-436 | after the user deleted a packaged file the new version no longer ships, the scan reports it deleted, the program's install fails on it, and the corrected install stages the new indexed tree |
| Install.ReinstallKeepsDeletionsDeleted | src-tauri/src/installing/mod.rs:357-436 | after a successful reinstall, no path below the target that the scan of the old installation reported deleted is in the staged tree |
| Install.FreshInstallScansAsIndexed | src-tauri/src/installing/mod.rs:329-439 | a fresh install of a well-formed extraction, staged in any staging directory and then finished, scans at the target with only `LinkTargetChanged` changes, each at a packaged link |

## Left out

- Network access, meaning the download of packages and profiles, is left
  out. Whether a download happens is modelled; the bytes fetched are a
  parameter.
- Zip extraction is a parameter: the extracted tree and its walk are given.
- BLAKE3 hashing, rkyv archiving and base64 decoding are foreign library
  calls. The hash and the decoder are parameters. The archived index image
  is modelled as the index it holds.
- Parsing of the shared-profile archive after base64 decoding is left out:
  the zip, the `export.r2x` manifest and YAML.
- I/O errors other than those the code handles explicitly are left out: a
  failing `metadata`, `read`, `WalkDir` step or `write`, and a failing
  creation or write of the cache file. So are the `Internal` scan errors
  ("Expected root entry", "First entry was not root"), which cannot happen
  for a walk of the scanned directory.
- Following symbolic links is left out in several places:
  - `try_exists` (`installing/mod.rs:245`), whose check is described below;
  - `fs::copy`;
  - `metadata` on the scan target;
  - a link as the root of a `merge_paths` walk;
  - `tokio::fs::read` of the index file (`installing/mod.rs:136`);
  - `tokio::fs::write` of the index file (`installing/mod.rs:314`).

  A path's existence is decided on the tree itself.
- ChangeScan.TryExists: a link among the ancestors of an indexed path is not
  followed. The check fails only on a regular or special file, and a link
  to a file in that place is not treated as one. Other `try_exists` errors,
  such as a denied permission or a link loop, are left out with the other
  I/O errors.
- ChangeScan.AbsoluteComponentStrs: the scanned path is taken to be absolute,
  so its first component is the root `/`. The callers of `install_zip`, which
  choose the target, are not part of this model. `ChangeScan.ReadIndex`
  and `Indexing.WriteIndexFile` treat a link at the index file's name as an
  error, while the program reads or writes through it.
- `MergePaths.CopyInto`: copying onto an existing link replaces the link by
  a regular file. The real copy writes through the link to its target.
- MergePaths.MergeEntry: "nothing outside the destination changes" and
  "the destination mirrors its source" rest on the `CopyInto` abstraction.
  When the destination is a link, the program's `fs::copy`
  (`installing/mod.rs:485`, `installing/mod.rs:493`) writes into the link's
  target, outside the destination, and the link stays a link. The as-written
  link test (`installing/mod.rs:205`) reports every unchanged packaged link.
  So every reinstall copies the old link's target content over the file that
  the new link points to.
- MergePaths.MergeAll: the same link case is left out, as for `MergeEntry`.
- MergePaths.MergeAllUntouched: the same link case is left out, as for
  `MergeEntry`.
- MergePaths.MergeAllMirrors: the same link case is left out, as for
  `MergeEntry`.
- MergePaths.Merge: the same link case is left out, as for `MergeEntry`.
- MergePaths.MergeMirrors: the same link case is left out, as for
  `MergeEntry`.
- Classification of a link whose `read_link` fails with an error other than
  `InvalidInput` is left out; such a failure aborts the scan.
- The unused `seen` set in the scan is left out. Logging and tracing are too.
- tokio scheduling, `block_in_place` and temporary-directory creation are
  left out.
- `Install.Finish` replaces the target by the staged tree. It does not model
  `remove_dir_all` and `rename` failures, or a link at the target.
- `Thunderstore.Deserialize`: the split is a character index. The code's
  `find` returns a byte offset, and the two agree for ASCII namespaces.
- `Games`: loading `games.json` and the serde field aliases on `Game` are
  left out; they are data loading.
- `Games.DeserializeMetadata` accepts a unit variant's tag whatever other
  fields come with it. This follows the code serde generates for the unit
  variants of an internally tagged enum: it skips the remaining entries, and
  `deny_unknown_fields` reaches only the struct variants. That generated code
  is not part of this model. Extra fields other than the identifier are not
  modelled.
- Index paths are sequences of strings, and link targets are stored as
  component lists rather than as the raw target string.
- The archived index is an association list. `Indexing.BuildIndex` fixes
  its order to walk order, and the deletion pass visits entries in that
  order. In the program the archived map's iteration order is a hash order.

## Findings

| source | as written | input that shows it | evidently intended | confidence | as-written member | corrected member |
|---|---|---|---|---|---|---|
| src-tauri/src/installing/mod.rs:419 | `symlink_metadata(&buf).await?` propagates `NotFound` before the removal's own `NotFound` tolerance is reached, so preserving a deletion whose path the staged tree lacks aborts the install | the user deletes a packaged file `x`, and the new version no longer ships `x`; the scan reports `x` deleted, and preserving it fails; a deleted directory `a` holding `a/b` fails the same way when `a` is removed before `a/b` | a path already absent is skipped, as the `Err(e) if e.is_not_found()` arm intends | high, not executed | Install.RemoveDeletedAsWritten, Install.DeletedDirectoryAbortsAsWritten, Install.DeletedPathAbsentFromNewVersion, Install.ReinstallAfterDroppedFile | Install.RemoveDeleted |
