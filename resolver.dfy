/** The version resolver: `getInstalled`, which finds the versions of the
    older caches this client holds, and `getUpdated`, which downloads the
    diff files between the newest of them and the current version and
    collects the paths that changed (adapter/static/src/worker/index.ts). */
module Resolver {
  import opened Wrappers
  import opened JsNumber
  import opened JsString
  import opened Http
  import opened Settings
  import opened VersionFile

  /* ---------------------------------------------------------------------
     getInstalled
     --------------------------------------------------------------------- */

  /** What `getInstalled` returns. When some cache name does not parse as a
      number the array holds NaN, and then `getUpdated` can only throw (see
      GetUpdatedSpec), so the model only records that it happened. */
  datatype InstalledVersions = Installed(newestFirst: seq<int>) | HoldsNaN

  /** A cache of an older generation: it has the storage prefix and is not
      the current version's cache. */
  predicate IsOlderGeneration(c: Config, name: string) {
    StartsWith(name, c.storagePrefix) && name != CurrentStorageName(c)
  }

  /** `parseInt(cacheName.slice(STORAGE_PREFIX.length))` */
  function VersionOfName(c: Config, name: string): Number {
    ParseInt(SliceFrom(name, |c.storagePrefix|))
  }

  /** The current cache's own name reads back as the current version. */
  lemma VersionOfCurrentName(c: Config)
    ensures VersionOfName(c, CurrentStorageName(c)) == Num(c.version)
  {
    var name := CurrentStorageName(c);
    assert SliceFrom(name, |c.storagePrefix|) == IntToString(c.version);
    ParseIntOfIntToString(c.version);
  }

  /** The versions of the older generations, in the order of the names */
  function CandidateVersions(c: Config, names: seq<string>): seq<Number> {
    if names == [] then []
    else
      var last := names[|names| - 1];
      CandidateVersions(c, names[..|names| - 1])
      + (if IsOlderGeneration(c, last) then [VersionOfName(c, last)] else [])
  }

  function NumValues(ns: seq<Number>): (vs: seq<int>)
    requires NaN !in ns
    ensures |vs| == |ns| && forall k :: 0 <= k < |ns| ==> ns[k] == Num(vs[k])
  {
    forall k | 0 <= k < |ns| ensures ns[k].Num? {
      assert ns[k] in ns;
    }
    seq(|ns|, k requires 0 <= k < |ns| => ns[k].value)
  }

  ghost predicate SortedDesc(s: seq<int>) {
    forall i, j :: 0 <= i < j < |s| ==> s[i] >= s[j]
  }

  function InsertDesc(x: int, s: seq<int>): (r: seq<int>)
    requires SortedDesc(s)
    ensures SortedDesc(r) && multiset(r) == multiset(s) + multiset{x}
  {
    if s == [] then [x]
    else if x >= s[0] then [x] + s
    else
      var rest := InsertDesc(x, s[1..]);
      InsertBehind(x, s, rest);
      [s[0]] + rest
  }

  /** Putting the head of `s` before the insertion into its tail keeps the
      order and the elements. */
  lemma InsertBehind(x: int, s: seq<int>, rest: seq<int>)
    requires SortedDesc(s) && |s| > 0 && x < s[0]
    requires SortedDesc(rest) && multiset(rest) == multiset(s[1..]) + multiset{x}
    ensures SortedDesc([s[0]] + rest) && multiset([s[0]] + rest) == multiset(s) + multiset{x}
  {
    assert s == [s[0]] + s[1..];
    forall k | 0 <= k < |rest|
      ensures rest[k] <= s[0]
    {
      assert rest[k] in multiset(s[1..]) + multiset{x} by {
        assert rest[k] in multiset(rest);
      }
      if rest[k] != x {
        var i :| 0 <= i < |s[1..]| && s[1..][i] == rest[k];
        assert s[i + 1] == rest[k];
      }
    }
  }

  /** `sort((n1, n2) => n2 - n1)`: newest (highest) first */
  function SortDesc(s: seq<int>): (r: seq<int>)
    ensures SortedDesc(r) && multiset(r) == multiset(s)
  {
    if s == [] then []
    else
      assert s == [s[0]] + s[1..];
      InsertDesc(s[0], SortDesc(s[1..]))
  }

  /** `getInstalled`, over the names `caches.keys()` lists */
  method GetInstalled(c: Config, cacheNames: seq<string>) returns (r: InstalledVersions)
    ensures r.HoldsNaN? <==> NaN in CandidateVersions(c, cacheNames)
    ensures r.Installed? ==> SortedDesc(r.newestFirst)
    ensures r.Installed? ==>
      multiset(r.newestFirst) == multiset(NumValues(CandidateVersions(c, cacheNames)))
  {
    var installedVersions: seq<Number> := [];
    var i := 0;
    while i < |cacheNames|
      invariant 0 <= i <= |cacheNames|
      invariant installedVersions == CandidateVersions(c, cacheNames[..i])
    {
      var cacheName := cacheNames[i];
      assert cacheNames[..i + 1][..i] == cacheNames[..i];
      if StartsWith(cacheName, c.storagePrefix) && cacheName != CurrentStorageName(c) {
        installedVersions := installedVersions + [ParseInt(SliceFrom(cacheName, |c.storagePrefix|))];
      }
      i := i + 1;
    }
    assert cacheNames[..|cacheNames|] == cacheNames;
    if NaN in installedVersions {
      r := HoldsNaN;
    } else {
      r := Installed(SortDesc(NumValues(installedVersions)));
    }
  }

  /* ---------------------------------------------------------------------
     Batch arithmetic
     --------------------------------------------------------------------- */

  /** `Math.max(...installedVersions)` */
  function Max(vs: seq<int>): (m: int)
    requires |vs| > 0
    ensures m in vs && forall k :: 0 <= k < |vs| ==> vs[k] <= m
  {
    if |vs| == 1 then vs[0]
    else
      var rest := Max(vs[1..]);
      assert forall k :: 1 <= k < |vs| ==> vs[k] == vs[1..][k - 1];
      if vs[0] >= rest then vs[0] else rest
  }

  lemma CeilOfNext(a: int, b: int)
    requires b > 0
    ensures CeilDiv(a + 1, b) == FloorDiv(a, b) + 1
  {
    DivModOf(-a - 1, b, -(a / b) - 1, b - 1 - a % b);
  }

  /** `batchOffset`: never positive */
  function BatchOffset(c: Config): (r: int)
    ensures r <= 0
  {
    Min(c.maxVersionFiles - CeilDiv(c.version + 1, c.batchSize), 0)
  }

  /** The offset is zero exactly while the versions 0 to VERSION fit in
      MAX_VERSION_FILES files. */
  lemma BatchOffsetZero(c: Config)
    ensures BatchOffset(c) == 0 <==> c.version + 1 <= c.maxVersionFiles * c.batchSize
  {
    var b, m := c.batchSize, c.maxVersionFiles;
    var batches := CeilDiv(c.version + 1, b);
    CeilDivBounds(c.version + 1, b);
    if batches <= m {
      MulMonotone(b, batches, m);
    } else {
      MulMonotone(b, m + 1, batches);
    }
  }

  lemma MulMonotone(b: int, x: int, y: int)
    requires b > 0 && x <= y
    ensures b * x <= b * y
  {
  }

  /** `rangeToDownload[0]`: the file holding the version after the newest
      installed one */
  function RangeStart(c: Config, newest: int): int {
    FloorDiv(newest + 1, c.batchSize) + BatchOffset(c)
  }

  /** `rangeToDownload[1]`: the file holding the current version */
  function RangeEnd(c: Config): int {
    FloorDiv(c.version, c.batchSize) + BatchOffset(c)
  }

  lemma FloorDivMonotone(a1: int, a2: int, b: int)
    requires b > 0 && a1 <= a2
    ensures FloorDiv(a1, b) <= FloorDiv(a2, b)
  {
    FloorDivBounds(a1, b);
    FloorDivBounds(a2, b);
    if FloorDiv(a1, b) > FloorDiv(a2, b) {
      MulMonotone(b, FloorDiv(a2, b) + 1, FloorDiv(a1, b));
    }
  }

  /** Whenever the installed version is older than the current one, the
      range of files is not empty. */
  lemma RangeNonEmpty(c: Config, newest: int)
    requires newest < c.version
    ensures RangeStart(c, newest) <= RangeEnd(c)
  {
    FloorDivMonotone(newest + 1, c.version, c.batchSize);
  }

  /** The starting file exists exactly when the batch holding the version
      after the installed one is not negative and is among the last
      MAX_VERSION_FILES batches up to the current one. */
  lemma RangeStartInRange(c: Config, newest: int)
    ensures RangeStart(c, newest) >= 0 <==>
      FloorDiv(newest + 1, c.batchSize) >= 0
      && FloorDiv(newest + 1, c.batchSize) >= FloorDiv(c.version, c.batchSize) + 1 - c.maxVersionFiles
  {
    CeilOfNext(c.version, c.batchSize);
  }

  /* ---------------------------------------------------------------------
     getUpdated
     --------------------------------------------------------------------- */

  /** `null` (clean install) or the set of paths that changed */
  datatype Updated = CleanInstall | Changed(paths: set<string>)

  /** How the promise `getUpdated` returns settles */
  datatype Resolution = Resolved(updated: Updated) | Thrown

  /** `res.text()` */
  function TextOf(r: Response): string {
    match r.body
    case None => ""
    case Some(t) => t
  }

  /** Downloading and parsing one diff file: none when the fetch rejects or
      the response is not usable (both throw). */
  function FetchFile(fetch: int -> Option<Response>, id: int): Option<VersionFile> {
    var res := fetch(id);
    if res.None? || !IsResponseUsable(res.value) then None
    else Some(ParseUpdatedList(TextOf(res.value)))
  }

  /** The first block the loop reads in file `i`: `idInBatchOfOneAfterInstalled`
      in the first file when that is not zero, otherwise 0. */
  function StartIndex(first: nat, i: nat): nat {
    if first != 0 && i == 0 then first else 0
  }

  /** The paths of one block, as a set */
  function PathsOf(block: seq<string>): set<string> {
    set k | 0 <= k < |block| :: block[k]
  }

  /** The paths of blocks `lo` to `hi - 1` */
  function BlocksUnion(blocks: seq<seq<string>>, lo: nat, hi: nat): set<string>
    requires hi <= |blocks|
  {
    if hi <= lo then {} else BlocksUnion(blocks, lo, hi - 1) + PathsOf(blocks[hi - 1])
  }

  /** The paths of the first `n` files, from their start indices on */
  function FilesUnion(files: seq<VersionFile>, first: nat, n: nat): set<string>
    requires n <= |files|
  {
    if n == 0 then {}
    else
      FilesUnion(files, first, n - 1)
      + BlocksUnion(files[n - 1].updated, StartIndex(first, n - 1), |files[n - 1].updated|)
  }

  /** The parsed diff files, by id: none when the download fails */
  function Downloads(fetch: int -> Option<Response>): int -> Option<VersionFile> {
    id => FetchFile(fetch, id)
  }

  /** Every diff file with an id from `start` to `end` downloads and is usable */
  predicate AllDownloaded(files: int -> Option<VersionFile>, start: int, end: int) {
    forall id :: start <= id <= end ==> files(id).Some?
  }

  /** The parsed files with ids `start` to `end`, in order */
  function DownloadedFiles(files: int -> Option<VersionFile>, start: int, end: int): (batch: seq<VersionFile>)
    requires start <= end && AllDownloaded(files, start, end)
    ensures |batch| == end - start + 1
    ensures forall i :: 0 <= i < |batch| ==> files(start + i) == Some(batch[i])
  {
    seq(end - start + 1, i requires 0 <= i < end - start + 1 => files(start + i).value)
  }

  /** Some file has an unknown format */
  predicate SomeUnsupported(files: seq<VersionFile>) {
    exists i :: 0 <= i < |files| && files[i].formatVersion == -1
  }

  /** How `getUpdated` settles once it has chosen to download the files
      `start` to `end`, `first` being the block of the version after the
      installed one in the first file. */
  function ResolveRange(files: int -> Option<VersionFile>, start: int, end: int, first: nat): Resolution
    requires start <= end
  {
    if !AllDownloaded(files, start, end) then Thrown
    else
      var batch := DownloadedFiles(files, start, end);
      if SomeUnsupported(batch) then Resolved(CleanInstall)
      else Resolved(Changed(FilesUnion(batch, first, |batch|)))
  }

  /** The first half of `getUpdated`: either it settles without
      downloading anything, or it picks the files to download. */
  datatype RangeChoice = Settled(resolution: Resolution) | Download(start: int, end: int, first: nat)

  function ChooseRange(c: Config, installed: InstalledVersions): (choice: RangeChoice)
    ensures choice.Settled? ==> choice.resolution in {Thrown, Resolved(CleanInstall)}
    ensures choice.Download? ==>
      && installed.Installed? && |installed.newestFirst| > 0
      && Max(installed.newestFirst) < c.version
      && choice.start == RangeStart(c, Max(installed.newestFirst)) && 0 <= choice.start <= choice.end
      && choice.end == RangeEnd(c)
      && choice.first == JsRem(Max(installed.newestFirst) + 1, c.batchSize)
  {
    match installed
    case HoldsNaN => Settled(Thrown)  // new Array(NaN) throws a RangeError
    case Installed(vs) =>
      if |vs| == 0 then Settled(Resolved(CleanInstall))
      else
        var newest := Max(vs);
        if newest >= c.version then Settled(Resolved(CleanInstall))
        else if RangeStart(c, newest) < 0 then Settled(Resolved(CleanInstall))
        else
          RangeNonEmpty(c, newest);
          Download(RangeStart(c, newest), RangeEnd(c), JsRem(newest + 1, c.batchSize))
  }

  /** What `getUpdated` settles to, given the parsed diff file of each id
      (`None` when its download fails; see Downloads). */
  function GetUpdatedSpec(c: Config, installed: InstalledVersions, files: int -> Option<VersionFile>): (r: Resolution)
    ensures installed.HoldsNaN? ==> r == Thrown
    ensures installed.Installed? && (|installed.newestFirst| == 0 || Max(installed.newestFirst) >= c.version) ==>
      r == Resolved(CleanInstall)
    ensures r.Resolved? && r.updated.Changed? ==>
      installed.Installed? && |installed.newestFirst| > 0 && Max(installed.newestFirst) < c.version
  {
    match ChooseRange(c, installed)
    case Settled(r) => r
    case Download(start, end, first) => ResolveRange(files, start, end, first)
  }

  /** `getUpdated` */
  method GetUpdated(c: Config, installed: InstalledVersions, fetch: int -> Option<Response>)
    returns (r: Resolution)
    ensures r == GetUpdatedSpec(c, installed, Downloads(fetch))
  {
    if installed.HoldsNaN? {
      return Thrown;
    }
    var installedVersions := installed.newestFirst;
    if |installedVersions| == 0 {
      assert ChooseRange(c, installed) == Settled(Resolved(CleanInstall));
      return Resolved(CleanInstall);
    }
    var newestInstalled := Max(installedVersions);
    if newestInstalled >= c.version {
      assert ChooseRange(c, installed) == Settled(Resolved(CleanInstall));
      return Resolved(CleanInstall);
    }
    var batchOffset := BatchOffset(c);
    var rangeStart := FloorDiv(newestInstalled + 1, c.batchSize) + batchOffset;
    var rangeEnd := FloorDiv(c.version, c.batchSize) + batchOffset;
    assert rangeStart == RangeStart(c, newestInstalled) && rangeEnd == RangeEnd(c);
    if rangeStart < 0 {
      assert ChooseRange(c, installed) == Settled(Resolved(CleanInstall));
      return Resolved(CleanInstall);
    }
    RangeNonEmpty(c, newestInstalled);
    var idInBatchOfOneAfterInstalled := JsRem(newestInstalled + 1, c.batchSize);
    assert ChooseRange(c, installed) == Download(rangeStart, rangeEnd, idInBatchOfOneAfterInstalled);
    r := DownloadAndCollect(fetch, rangeStart, rangeEnd, idInBatchOfOneAfterInstalled);
  }

  /** The second half of `getUpdated`: download the files `rangeStart` to
      `rangeEnd`, give up on an unknown format, and collect the paths of
      every version after the installed one. */
  method DownloadAndCollect(fetch: int -> Option<Response>, rangeStart: int, rangeEnd: int,
                            idInBatchOfOneAfterInstalled: nat)
    returns (r: Resolution)
    requires rangeStart <= rangeEnd
    ensures r == ResolveRange(Downloads(fetch), rangeStart, rangeEnd, idInBatchOfOneAfterInstalled)
  {
    var numberToDownload := (rangeEnd - rangeStart) + 1;

    var versionFiles: seq<VersionFile> := [];
    var offset := 0;
    while offset < numberToDownload
      invariant 0 <= offset <= numberToDownload && |versionFiles| == offset
      invariant forall k :: 0 <= k < offset ==> FetchFile(fetch, rangeStart + k) == Some(versionFiles[k])
    {
      var res := fetch(offset + rangeStart);
      if res.None? || !IsResponseUsable(res.value) {
        assert Downloads(fetch)(rangeStart + offset).None?;
        return Thrown;
      }
      versionFiles := versionFiles + [ParseUpdatedList(TextOf(res.value))];
      offset := offset + 1;
    }
    assert AllDownloaded(Downloads(fetch), rangeStart, rangeEnd) by {
      forall id | rangeStart <= id <= rangeEnd ensures Downloads(fetch)(id).Some? {
        assert FetchFile(fetch, rangeStart + (id - rangeStart)) == Some(versionFiles[id - rangeStart]);
      }
    }
    assert versionFiles == DownloadedFiles(Downloads(fetch), rangeStart, rangeEnd);

    if exists k :: 0 <= k < |versionFiles| && versionFiles[k].formatVersion == -1 {
      return Resolved(CleanInstall);
    }

    var updated := CollectUpdated(versionFiles, idInBatchOfOneAfterInstalled);
    return Resolved(Changed(updated));
  }

  /** The union loop of `getUpdated` */
  method CollectUpdated(versionFiles: seq<VersionFile>, idInBatchOfOneAfterInstalled: nat)
    returns (updated: set<string>)
    ensures updated == FilesUnion(versionFiles, idInBatchOfOneAfterInstalled, |versionFiles|)
  {
    updated := {};
    var i := 0;
    while i < |versionFiles|
      invariant 0 <= i <= |versionFiles|
      invariant updated == FilesUnion(versionFiles, idInBatchOfOneAfterInstalled, i)
    {
      var versionFile := versionFiles[i];
      var startIndex: nat := if idInBatchOfOneAfterInstalled != 0 && i == 0 then idInBatchOfOneAfterInstalled else 0;
      var versionInFile := startIndex;
      while versionInFile < |versionFile.updated|
        invariant startIndex <= versionInFile
        invariant versionInFile > startIndex ==> versionInFile <= |versionFile.updated|
        invariant updated == FilesUnion(versionFiles, idInBatchOfOneAfterInstalled, i)
          + BlocksUnion(versionFile.updated, startIndex,
                        if versionInFile <= |versionFile.updated| then versionInFile else |versionFile.updated|)
      {
        updated := updated + PathsOf(versionFile.updated[versionInFile]);
        versionInFile := versionInFile + 1;
      }
      assert startIndex == StartIndex(idInBatchOfOneAfterInstalled, i);
      assert updated == FilesUnion(versionFiles, idInBatchOfOneAfterInstalled, i)
        + BlocksUnion(versionFile.updated, startIndex, |versionFile.updated|);
      i := i + 1;
    }
  }

  /* ---------------------------------------------------------------------
     Properties of getUpdated
     --------------------------------------------------------------------- */

  /** Once the range is chosen, the result is a clean install exactly when
      every file downloads and one of them has an unknown format. */
  lemma ResolveRangeClean(files: int -> Option<VersionFile>, start: int, end: int, first: nat)
    requires start <= end
    ensures ResolveRange(files, start, end, first) == Resolved(CleanInstall) <==>
      AllDownloaded(files, start, end)
      && exists id :: start <= id <= end && files(id).value.formatVersion == -1
  {
    if AllDownloaded(files, start, end) {
      var batch := DownloadedFiles(files, start, end);
      if exists id :: start <= id <= end && files(id).value.formatVersion == -1 {
        var id :| start <= id <= end && files(id).value.formatVersion == -1;
        assert files(start + (id - start)) == Some(batch[id - start]);
      }
      if SomeUnsupported(batch) {
        var i :| 0 <= i < |batch| && batch[i].formatVersion == -1;
        assert files(start + i).value.formatVersion == -1;
      }
    }
  }

  /** A clean install is chosen in exactly four cases: nothing is installed,
      the newest installed version is not older than the current one, the
      starting file id is negative, or every file downloaded but one of them
      has an unknown format. */
  lemma CleanInstallCases(c: Config, vs: seq<int>, files: int -> Option<VersionFile>)
    ensures GetUpdatedSpec(c, Installed(vs), files) == Resolved(CleanInstall) <==>
      || |vs| == 0
      || Max(vs) >= c.version
      || RangeStart(c, Max(vs)) < 0
      || (AllDownloaded(files, RangeStart(c, Max(vs)), RangeEnd(c))
          && exists id :: RangeStart(c, Max(vs)) <= id <= RangeEnd(c) && files(id).value.formatVersion == -1)
  {
    var choice := ChooseRange(c, Installed(vs));
    if choice.Download? {
      ResolveRangeClean(files, choice.start, choice.end, choice.first);
    }
  }

  /** Nothing installed, or a NaN among the installed versions, or a failed
      download of any file in the range: the result is never a set of
      changed paths in those cases, and a failed download makes the
      installation fail instead of falling back to a clean install. */
  lemma DownloadFailureThrows(c: Config, vs: seq<int>, files: int -> Option<VersionFile>, id: int)
    requires |vs| > 0 && Max(vs) < c.version && 0 <= RangeStart(c, Max(vs)) <= id <= RangeEnd(c)
    requires files(id).None?
    ensures GetUpdatedSpec(c, Installed(vs), files) == Thrown
  {
    var choice := ChooseRange(c, Installed(vs));
    assert choice.Download?;
    assert !AllDownloaded(files, choice.start, choice.end);
  }

  lemma NaNThrows(c: Config, files: int -> Option<VersionFile>)
    ensures GetUpdatedSpec(c, HoldsNaN, files) == Thrown
  {
  }

  lemma {:induction false} BlocksUnionMembers(blocks: seq<seq<string>>, lo: nat, hi: nat, p: string)
    requires hi <= |blocks|
    ensures p in BlocksUnion(blocks, lo, hi) <==> exists j :: lo <= j < hi && p in blocks[j]
    decreases hi
  {
    if hi > lo {
      BlocksUnionMembers(blocks, lo, hi - 1, p);
      assert p in PathsOf(blocks[hi - 1]) <==> p in blocks[hi - 1];
    }
  }

  /** The union holds exactly the paths of blocks `j` of files `i` with `j`
      at or after the file's start index. */
  lemma {:induction false} FilesUnionMembers(files: seq<VersionFile>, first: nat, n: nat, p: string)
    requires n <= |files|
    ensures p in FilesUnion(files, first, n) <==>
      exists i, j :: 0 <= i < n && StartIndex(first, i) <= j < |files[i].updated| && p in files[i].updated[j]
    decreases n
  {
    if n > 0 {
      FilesUnionMembers(files, first, n - 1, p);
      BlocksUnionMembers(files[n - 1].updated, StartIndex(first, n - 1), |files[n - 1].updated|, p);
    }
  }

  /** The changed paths, by file id: block `j` of file `id` counts when it
      is at or after the start index of that file. */
  lemma ChangedIsUnionOverFiles(files: int -> Option<VersionFile>, start: int, end: int, first: nat,
                                paths: set<string>, p: string)
    requires start <= end && ResolveRange(files, start, end, first) == Resolved(Changed(paths))
    ensures AllDownloaded(files, start, end)
    ensures p in paths <==>
      exists id, j :: start <= id <= end
        && StartIndex(first, id - start) <= j < |files(id).value.updated|
        && p in files(id).value.updated[j]
  {
    assert AllDownloaded(files, start, end);
    var batch := DownloadedFiles(files, start, end);
    assert paths == FilesUnion(batch, first, |batch|);
    UnionByIds(files, start, end, first, batch, paths, p);
  }

  /** The union over the parsed files, restated by file id */
  lemma UnionByIds(files: int -> Option<VersionFile>, start: int, end: int, first: nat,
                   batch: seq<VersionFile>, paths: set<string>, p: string)
    requires |batch| == end - start + 1 && AllDownloaded(files, start, end)
    requires forall i :: 0 <= i < |batch| ==> files(start + i) == Some(batch[i])
    requires paths == FilesUnion(batch, first, |batch|)
    ensures p in paths <==>
      exists id, j :: start <= id <= end
        && StartIndex(first, id - start) <= j < |files(id).value.updated|
        && p in files(id).value.updated[j]
  {
    FilesUnionMembers(batch, first, |batch|, p);
    if p in paths {
      var i, j :| 0 <= i < |batch| && StartIndex(first, i) <= j < |batch[i].updated| && p in batch[i].updated[j];
      assert files(start + i) == Some(batch[i]);
      var id := start + i;
      assert id - start == i;
    }
    if exists id, j ::
        start <= id <= end
        && StartIndex(first, id - start) <= j < |files(id).value.updated|
        && p in files(id).value.updated[j]
    {
      var id, j :| start <= id <= end
        && StartIndex(first, id - start) <= j < |files(id).value.updated|
        && p in files(id).value.updated[j];
      assert files(start + (id - start)) == Some(batch[id - start]);
    }
  }

  /** The id of the diff file that holds version `w` */
  function FileIdOfVersion(c: Config, w: int): int {
    FloorDiv(w, c.batchSize) + BatchOffset(c)
  }

  /** The paths the diff file of version `w` lists for `w`: block `w % B`
      of file `floor(w / B) + batchOffset`. */
  ghost function ChangedInVersion(c: Config, files: int -> Option<VersionFile>, w: int): set<string> {
    var f := files(FileIdOfVersion(c, w));
    var j := w % c.batchSize;
    if f.Some? && j < |f.value.updated| then PathsOf(f.value.updated[j]) else {}
  }

  /** `p` is listed for some version after `n`, up to the end of the
      current version's batch */
  ghost predicate ListedAfter(c: Config, files: int -> Option<VersionFile>, n: int, p: string) {
    exists w :: n < w < (FloorDiv(c.version, c.batchSize) + 1) * c.batchSize
                && p in ChangedInVersion(c, files, w)
  }

  lemma DivModOf(w: int, b: int, q: int, r: int)
    requires b > 0 && 0 <= r < b && w == q * b + r
    ensures w / b == q && w % b == r
  {
    var q', r' := w / b, w % b;
    assert w == q' * b + r';
    if q' > q {
      MulMonotone(b, q + 1, q');
    } else if q' < q {
      MulMonotone(b, q' + 1, q);
    }
  }

  /** Block `j` of the file `k` places after the one holding version `n + 1`
      is the block of a version after `n` and before the end of batch `last`. */
  lemma VersionOfBlock(b: int, n: int, last: int, k: int, j: int)
    requires b > 0 && n + 1 >= 0
    requires 0 <= k <= last - (n + 1) / b && StartIndex((n + 1) % b, k) <= j < b
    ensures n < ((n + 1) / b + k) * b + j < (last + 1) * b
    ensures (((n + 1) / b + k) * b + j) / b == (n + 1) / b + k
    ensures (((n + 1) / b + k) * b + j) % b == j
  {
    var s0, first := (n + 1) / b, (n + 1) % b;
    var w := (s0 + k) * b + j;
    DivModOf(w, b, s0 + k, j);
    assert n + 1 == s0 * b + first;
    if k > 0 {
      MulMonotone(b, s0 + 1, s0 + k);
    }
    MulMonotone(b, s0 + k, last);
  }

  /** Conversely, every version after `n` and before the end of batch
      `last` has its block in one of those files, at or after its start. */
  lemma BlockOfVersion(b: int, n: int, last: int, w: int)
    requires b > 0 && n + 1 >= 0 && n < w < (last + 1) * b
    ensures 0 <= w / b - (n + 1) / b <= last - (n + 1) / b
    ensures StartIndex((n + 1) % b, w / b - (n + 1) / b) <= w % b
  {
    FloorDivMonotone(n + 1, w, b);
    assert w == (w / b) * b + w % b;
    assert n + 1 == ((n + 1) / b) * b + (n + 1) % b;
    if w / b > last {
      MulMonotone(b, last + 1, w / b);
    }
  }

  /** Block `j` of a downloaded file, at or after its start index, is the
      block of a version after `n` and before the end of the current
      version's batch. */
  lemma VersionOfFileBlock(c: Config, n: int, id: int, j: int) returns (w: int)
    requires n < c.version && 0 <= RangeStart(c, n) <= id <= RangeEnd(c)
    requires StartIndex(JsRem(n + 1, c.batchSize), id - RangeStart(c, n)) <= j < c.batchSize
    ensures n < w < (FloorDiv(c.version, c.batchSize) + 1) * c.batchSize
    ensures FileIdOfVersion(c, w) == id && w % c.batchSize == j
  {
    var b := c.batchSize;
    FloorDivBounds(n + 1, b);
    MulMonotone(b, 0, (n + 1) / b);
    w := ((n + 1) / b + (id - RangeStart(c, n))) * b + j;
    VersionOfBlock(b, n, FloorDiv(c.version, b), id - RangeStart(c, n), j);
  }

  /** Every version after `n` and before the end of the current version's
      batch has its block in a downloaded file, at or after its start. */
  lemma FileBlockOfVersion(c: Config, n: int, w: int)
    requires n < c.version && 0 <= RangeStart(c, n)
    requires n < w < (FloorDiv(c.version, c.batchSize) + 1) * c.batchSize
    ensures RangeStart(c, n) <= FileIdOfVersion(c, w) <= RangeEnd(c)
    ensures StartIndex(JsRem(n + 1, c.batchSize), FileIdOfVersion(c, w) - RangeStart(c, n)) <= w % c.batchSize
  {
    var b := c.batchSize;
    FloorDivBounds(n + 1, b);
    MulMonotone(b, 0, (n + 1) / b);
    BlockOfVersion(b, n, FloorDiv(c.version, b), w);
  }

  /** The id-level membership of a path in the union gives the
      version-level one. */
  lemma VersionsCoverFiles(c: Config, files: int -> Option<VersionFile>, n: int,
                           start: int, end: int, first: nat, paths: set<string>, p: string)
    requires n < c.version && start == RangeStart(c, n) && 0 <= start <= end && end == RangeEnd(c)
    requires first == JsRem(n + 1, c.batchSize)
    requires forall id :: start <= id <= end ==> files(id).Some? && |files(id).value.updated| <= c.batchSize
    requires p in paths <==>
      exists id, j :: start <= id <= end
        && StartIndex(first, id - start) <= j < |files(id).value.updated|
        && p in files(id).value.updated[j]
    ensures p in paths <==> ListedAfter(c, files, n, p)
  {
    var b := c.batchSize;
    var last := FloorDiv(c.version, b);
    if p in paths {
      var id, j :| start <= id <= end
        && StartIndex(first, id - start) <= j < |files(id).value.updated|
        && p in files(id).value.updated[j];
      var w := VersionOfFileBlock(c, n, id, j);
      assert p in PathsOf(files(id).value.updated[j]);
      assert p in ChangedInVersion(c, files, w);
    }
    if exists w :: n < w < (last + 1) * b && p in ChangedInVersion(c, files, w) {
      var w :| n < w < (last + 1) * b && p in ChangedInVersion(c, files, w);
      FileBlockOfVersion(c, n, w);
      var id := FileIdOfVersion(c, w);
      var block := files(id).value.updated[w % b];
      assert p in PathsOf(block);
      assert p in block;
    }
  }

  /** When every downloaded file has at most one block per version of its
      batch, the changed paths are exactly those listed for the versions
      after the newest installed one, up to the end of the current
      version's batch: versions at or before the installed one are skipped
      even when they share its file. */
  lemma ChangedIsUnionOverVersions(c: Config, vs: seq<int>, files: int -> Option<VersionFile>, paths: set<string>)
    requires GetUpdatedSpec(c, Installed(vs), files) == Resolved(Changed(paths))
    requires forall id :: files(id).Some? ==> |files(id).value.updated| <= c.batchSize
    ensures |vs| > 0
    ensures forall p :: p in paths <==> ListedAfter(c, files, Max(vs), p)
  {
    assert ChooseRange(c, Installed(vs)).Download?;
    ChangedAfterNewest(c, Installed(vs), files, paths);
  }

  lemma ChangedAfterNewest(c: Config, installed: InstalledVersions, files: int -> Option<VersionFile>, paths: set<string>)
    requires ChooseRange(c, installed).Download?
    requires GetUpdatedSpec(c, installed, files) == Resolved(Changed(paths))
    requires forall id :: files(id).Some? ==> |files(id).value.updated| <= c.batchSize
    ensures installed.Installed? && |installed.newestFirst| > 0
    ensures forall p :: p in paths <==> ListedAfter(c, files, Max(installed.newestFirst), p)
  {
    var choice := ChooseRange(c, installed);
    var n := Max(installed.newestFirst);
    forall p
      ensures p in paths <==> ListedAfter(c, files, n, p)
    {
      ChangedAt(c, files, n, choice.start, choice.end, choice.first, paths, p);
    }
  }

  lemma ChangedAt(c: Config, files: int -> Option<VersionFile>, n: int,
                  start: int, end: int, first: nat, paths: set<string>, p: string)
    requires n < c.version && start == RangeStart(c, n) && 0 <= start <= end && end == RangeEnd(c)
    requires first == JsRem(n + 1, c.batchSize)
    requires forall id :: files(id).Some? ==> |files(id).value.updated| <= c.batchSize
    requires ResolveRange(files, start, end, first) == Resolved(Changed(paths))
    ensures p in paths <==> ListedAfter(c, files, n, p)
  {
    ChangedIsUnionOverFiles(files, start, end, first, paths, p);
    VersionsCoverFiles(c, files, n, start, end, first, paths, p);
  }
}
