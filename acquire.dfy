/**
 * `getRepoData` and its two acquisition paths (src/v2-core.ts): a GitHub URL
 * is parsed, its archive downloaded and extracted, and the default patterns
 * filtered out; a local directory is checked, its files listed by a glob
 * that keeps only dotted names, the ignored ones skipped and the rest
 * stat'ed and read one by one, a failing file only being skipped.
 */
module Acquire {
  import opened Wrappers
  import opened Strings
  import opened Seqs
  import opened Types
  import FileTypes
  import Gitignore
  import GitHub
  import Archive

  /** `shouldIgnoreFile(path, patterns)`: its definition is not part of this
      model, so it is a parameter about which nothing is assumed. */
  type IgnoreTest = (string, seq<string>) -> bool

  /** The test `.filter` applies to a file. */
  function KeepFile(ignore: IgnoreTest, patterns: seq<string>): FileData -> bool {
    (f: FileData) => !ignore(f.path, patterns)
  }

  /** The test the local loop applies to a relative path. */
  function KeepPath(ignore: IgnoreTest, patterns: seq<string>): string -> bool {
    (p: string) => !ignore(p, patterns)
  }

  // ---------------------------------------------------------------- GitHub

  /** The outside world of the GitHub path: `fetch`, the archive reader over
      a buffer, and UTF-8 decoding. */
  datatype Network = Network(
    fetch: string -> GitHub.HttpReply,
    unzip: seq<byte> -> Archive.ZipArchive,
    decode: Archive.Decoder)

  /** `getRepoDataFromGitHub`; `now` is the timestamp `new Date()` would
      give. Every error of the parser, the download and the extraction
      propagates unchanged. */
  function GetRepoDataFromGitHub(url: string, sourceRef: Option<string>, net: Network, ignore: IgnoreTest, now: string)
    : (r: Result<RepoData, FetchError>)
    ensures GitHub.ParseGitHubUrl(url).Failure? ==> r == Failure(GitHub.ParseGitHubUrl(url).error)
    ensures GitHub.ParseGitHubUrl(url).Success? ==>
      var p := GitHub.ParseGitHubUrl(url).value;
      var d := GitHub.DownloadArchive(net.fetch, p.owner, p.repo, GitHub.FinalRef(sourceRef, p.ref));
      && (d.Failure? ==> r == Failure(d.error))
      && (d.Success? && Archive.ExtractZipToFiles(net.unzip(d.value.buffer), net.decode).Failure? ==>
            r == Failure(Archive.ExtractZipToFiles(net.unzip(d.value.buffer), net.decode).error))
    ensures r.Success? ==> GitHub.ParseGitHubUrl(url).Success?
    ensures r.Success? ==>
      var p := GitHub.ParseGitHubUrl(url).value;
      var ref := GitHub.FinalRef(sourceRef, p.ref);
      var d := GitHub.DownloadArchive(net.fetch, p.owner, p.repo, ref);
      && d.Success?
      && r.value.meta == GitHubMeta(now, p.owner, p.repo, ref, d.value.commitSha)
      && Archive.ExtractZipToFiles(net.unzip(d.value.buffer), net.decode).Success?
      && r.value.files == Filter(Archive.ExtractZipToFiles(net.unzip(d.value.buffer), net.decode).value,
                                 KeepFile(ignore, Gitignore.DefaultIgnorePatterns))
  {
    var p :- GitHub.ParseGitHubUrl(url);
    var finalRef := GitHub.FinalRef(sourceRef, p.ref);
    var download :- GitHub.DownloadArchive(net.fetch, p.owner, p.repo, finalRef);
    var allFiles :- Archive.ExtractZipToFiles(net.unzip(download.buffer), net.decode);
    var files := Filter(allFiles, KeepFile(ignore, Gitignore.DefaultIgnorePatterns));
    Success(RepoData(GitHubMeta(now, p.owner, p.repo, finalRef, download.commitSha), files))
  }

  /** The files of a GitHub result are extracted files, in extraction order,
      none of them matched by the defaults; every extracted file the defaults
      do not match is there. The meta is of kind `github`, with the ref
      actually used. */
  lemma GitHubFilesFiltered(url: string, sourceRef: Option<string>, net: Network, ignore: IgnoreTest, now: string)
    requires GetRepoDataFromGitHub(url, sourceRef, net, ignore, now).Success?
    ensures var r := GetRepoDataFromGitHub(url, sourceRef, net, ignore, now).value;
      var p := GitHub.ParseGitHubUrl(url).value;
      var d := GitHub.DownloadArchive(net.fetch, p.owner, p.repo, GitHub.FinalRef(sourceRef, p.ref)).value;
      var all := Archive.ExtractZipToFiles(net.unzip(d.buffer), net.decode).value;
      && IsSubsequence(r.files, all)
      && (forall f | f in r.files :: !ignore(f.path, Gitignore.DefaultIgnorePatterns))
      && (forall f | f in all && !ignore(f.path, Gitignore.DefaultIgnorePatterns) :: f in r.files)
      && r.meta.Kind() == "github" && r.meta.ref == GitHub.FinalRef(sourceRef, p.ref)
  {
    var p := GitHub.ParseGitHubUrl(url).value;
    var d := GitHub.DownloadArchive(net.fetch, p.owner, p.repo, GitHub.FinalRef(sourceRef, p.ref)).value;
    var all := Archive.ExtractZipToFiles(net.unzip(d.buffer), net.decode).value;
    var keep := KeepFile(ignore, Gitignore.DefaultIgnorePatterns);
    assert forall f :: keep(f) == !ignore(f.path, Gitignore.DefaultIgnorePatterns);
  }

  /** The codes a GitHub acquisition can fail with. */
  lemma GitHubErrorCodes(url: string, sourceRef: Option<string>, net: Network, ignore: IgnoreTest, now: string)
    requires GetRepoDataFromGitHub(url, sourceRef, net, ignore, now).Failure?
    ensures GetRepoDataFromGitHub(url, sourceRef, net, ignore, now).error.code in
      {"INVALID_URL", "DOWNLOAD_ERROR", "REPOSITORY_NOT_FOUND", "GITHUB_API_ERROR", "ZIP_EXTRACTION_ERROR"}
  {
    var p := GitHub.ParseGitHubUrl(url);
    if p.Success? {
      var ref := GitHub.FinalRef(sourceRef, p.value.ref);
      GitHub.DownloadErrorCodes(net.fetch, p.value.owner, p.value.repo, ref);
    }
  }

  // ---------------------------------------------------------------- local filesystem

  /** What `fs.stat` says a path is. */
  datatype Stat = Directory | RegularFile | OtherKind

  /** The filesystem as the local path sees it:
      - `rootStat`: `fs.stat(dirPath)`, `None` when it throws;
      - `listing`: the non-directory entries below `dirPath` (dot files and
        dot directories included) as relative paths in the order `glob`
        yields them, or the message of a failing enumeration;
      - `fileStat`, `readBytes`, `readText`: per relative path, `None` when
        the call throws;
      - `cwdGitignore`: the `.gitignore` of the working directory, if
        readable;
      - `resolved`: `path.resolve(dirPath)`. */
  datatype LocalFs = LocalFs(
    rootStat: Option<Stat>,
    listing: Result<seq<string>, string>,
    fileStat: string -> Option<Stat>,
    readBytes: string -> Option<seq<byte>>,
    readText: string -> Option<string>,
    cwdGitignore: Option<string>,
    resolved: string)

  /** The glob `*.*` on the last segment: the name holds a dot somewhere
      (with `dot: true`, a leading dot counts). */
  predicate DottedName(p: string) {
    '.' in LastSegment(p)
  }

  // The relative paths that the glob `${dirPath}/**/*.*` yields.
  function GlobMatches(listing: seq<string>): (r: seq<string>)
    ensures forall p | p in r :: p in listing && DottedName(p)
    ensures forall p | p in listing && DottedName(p) :: p in r
    ensures IsSubsequence(r, listing)
  {
    Filter(listing, DottedName)
  }

  /** The local ignore list: the defaults, then the working directory's
      patterns, without repetitions. */
  function LocalIgnoreList(cwdGitignore: Option<string>): seq<string> {
    Dedup(Gitignore.DefaultIgnorePatterns + Gitignore.GetGitignorePatterns(cwdGitignore))
  }

  /** The defaults stay in front, in their order, and every pattern of
      either list is there exactly once. */
  lemma LocalIgnoreListShape(cwdGitignore: Option<string>)
    ensures var list := LocalIgnoreList(cwdGitignore);
      && |list| >= 5 && list[..5] == Gitignore.DefaultIgnorePatterns
      && NoDuplicates(list)
      && (forall p :: p in list <==> p in Gitignore.DefaultIgnorePatterns || p in Gitignore.GetGitignorePatterns(cwdGitignore))
  {
    Gitignore.DefaultsWellFormed();
    DedupDistinct(Gitignore.DefaultIgnorePatterns);
    DedupPrefix(Gitignore.DefaultIgnorePatterns, Gitignore.GetGitignorePatterns(cwdGitignore));
  }

  /** The record one match gives once it is past the ignore test: nothing
      when its stat or read throws (a warning) or when it is not a regular
      file; bytes for a binary extension and text otherwise. */
  function LocalFile(fs: LocalFs, rel: string): (r: Option<FileData>)
    ensures r.Some? ==> r.value.path == rel && Archive.WellClassified(r.value)
    ensures r.Some? ==> fs.fileStat(rel) == Some(RegularFile)
    ensures r.Some? && r.value.isBinary ==> fs.readBytes(rel) == Some(r.value.content.bytes)
    ensures r.Some? && !r.value.isBinary ==> fs.readText(rel) == Some(r.value.content.text)
    ensures r.None? <==>
      || fs.fileStat(rel) != Some(RegularFile)
      || (FileTypes.IsBinaryExtension(ToLower(Extname(rel))) && fs.readBytes(rel).None?)
      || (!FileTypes.IsBinaryExtension(ToLower(Extname(rel))) && fs.readText(rel).None?)
  {
    match fs.fileStat(rel)
    case None => None
    case Some(st) =>
      if st != RegularFile then None
      else
        var ext := ToLower(Extname(rel));
        if FileTypes.IsBinaryExtension(ext) then
          match fs.readBytes(rel)
          case None => None
          case Some(b) => Some(FileData(rel, Bytes(b), true, ext))
        else
          match fs.readText(rel)
          case None => None
          case Some(t) => Some(FileData(rel, Text(t), false, ext))
  }

  /** The files the loop pushes for `matches`, in match order. */
  function LocalFiles(fs: LocalFs, ignore: IgnoreTest, patterns: seq<string>, matches: seq<string>): (r: seq<FileData>)
    ensures |r| <= |matches|
    decreases |matches|
  {
    if |matches| == 0 then []
    else
      var m := matches[|matches| - 1];
      LocalFiles(fs, ignore, patterns, matches[..|matches| - 1])
        + (if ignore(m, patterns) then [] else OptionToSeq(LocalFile(fs, m)))
  }

  /** The matches are handled independently: the files of a concatenation
      are the files of each part, so a failing match costs only its own
      file. */
  lemma {:induction false} LocalFilesAppend(fs: LocalFs, ignore: IgnoreTest, patterns: seq<string>, a: seq<string>, b: seq<string>)
    ensures LocalFiles(fs, ignore, patterns, a + b) == LocalFiles(fs, ignore, patterns, a) + LocalFiles(fs, ignore, patterns, b)
    decreases |b|
  {
    if |b| == 0 {
      assert a + b == a;
    } else {
      var b', y := b[..|b| - 1], b[|b| - 1];
      assert (a + b)[..|a + b| - 1] == a + b' && (a + b)[|a + b| - 1] == y;
      LocalFilesAppend(fs, ignore, patterns, a, b');
    }
  }

  lemma LocalFilesSnoc(fs: LocalFs, ignore: IgnoreTest, patterns: seq<string>, ms: seq<string>, m: string)
    ensures LocalFiles(fs, ignore, patterns, ms + [m]) ==
      LocalFiles(fs, ignore, patterns, ms) + (if ignore(m, patterns) then [] else OptionToSeq(LocalFile(fs, m)))
  {
    assert (ms + [m])[..|ms|] == ms;
  }

  lemma LocalFilesStep(fs: LocalFs, ignore: IgnoreTest, patterns: seq<string>, ms: seq<string>, i: nat)
    requires i < |ms|
    ensures LocalFiles(fs, ignore, patterns, ms[..i + 1]) ==
      LocalFiles(fs, ignore, patterns, ms[..i]) + (if ignore(ms[i], patterns) then [] else OptionToSeq(LocalFile(fs, ms[i])))
  {
    assert ms[..i + 1] == ms[..i] + [ms[i]];
    LocalFilesSnoc(fs, ignore, patterns, ms[..i], ms[i]);
  }

  /** Every local file comes from a match that is not ignored, names a
      regular file, is classified by its extension, and is the record
      `LocalFile` makes for its path. */
  lemma {:induction false} LocalFilesSound(fs: LocalFs, ignore: IgnoreTest, patterns: seq<string>, matches: seq<string>)
    ensures forall f | f in LocalFiles(fs, ignore, patterns, matches) ::
      && f.path in matches && !ignore(f.path, patterns) && fs.fileStat(f.path) == Some(RegularFile)
      && Archive.WellClassified(f) && LocalFile(fs, f.path) == Some(f)
    decreases |matches|
  {
    if |matches| > 0 {
      var init := matches[..|matches| - 1];
      LocalFilesSound(fs, ignore, patterns, init);
      assert forall p | p in init :: p in matches;
    }
  }

  /** Every match the ignore test lets through and that stats as a regular
      file and reads without error is collected. */
  lemma LocalFilesComplete(fs: LocalFs, ignore: IgnoreTest, patterns: seq<string>, matches: seq<string>, k: nat)
    requires k < |matches| && !ignore(matches[k], patterns) && LocalFile(fs, matches[k]).Some?
    ensures LocalFile(fs, matches[k]).value in LocalFiles(fs, ignore, patterns, matches)
  {
    var a, m, b := matches[..k], matches[k], matches[k + 1..];
    SplitAt(matches, k);
    LocalFilesAppend(fs, ignore, patterns, a + [m], b);
    LocalFilesSnoc(fs, ignore, patterns, a, m);
    var f := LocalFile(fs, m).value;
    assert LocalFiles(fs, ignore, patterns, a + [m]) == LocalFiles(fs, ignore, patterns, a) + [f];
  }

  /** A match that is ignored, or whose stat throws, contributes nothing: the
      others are as if it were not there. */
  lemma SkippedMatch(fs: LocalFs, ignore: IgnoreTest, patterns: seq<string>, a: seq<string>, m: string, b: seq<string>)
    requires ignore(m, patterns) || fs.fileStat(m).None?
    ensures LocalFiles(fs, ignore, patterns, a + [m] + b) == LocalFiles(fs, ignore, patterns, a + b)
  {
    LocalFilesAppend(fs, ignore, patterns, a + [m], b);
    LocalFilesAppend(fs, ignore, patterns, a, [m]);
    LocalFilesAppend(fs, ignore, patterns, a, b);
    assert [m][..0] == [];
  }

  function FilesystemError(dirPath: string, message: string): (e: FetchError)
    ensures e.code == "FILESYSTEM_ERROR" && e.source == LocalSource(dirPath) && e.cause == Some(message)
  {
    FetchError("Error while finding files in " + dirPath + ": " + message, "FILESYSTEM_ERROR", LocalSource(dirPath), Some(message))
  }

  /** What `getRepoDataFromLocal` resolves or rejects with. */
  function LocalRepoData(dirPath: string, fs: LocalFs, ignore: IgnoreTest, now: string): (r: Result<RepoData, FetchError>)
    ensures fs.rootStat != Some(Directory) <==> r == Failure(PathNotFound(dirPath))
    ensures fs.rootStat == Some(Directory) && fs.listing.Failure? ==> r == Failure(FilesystemError(dirPath, fs.listing.error))
    ensures r.Success? <==> fs.rootStat == Some(Directory) && fs.listing.Success?
    ensures r.Success? ==> r.value.meta == LocalMeta(now, fs.resolved)
    ensures r.Success? ==>
      r.value.files == LocalFiles(fs, ignore, LocalIgnoreList(fs.cwdGitignore), GlobMatches(fs.listing.value))
  {
    if fs.rootStat != Some(Directory) then Failure(PathNotFound(dirPath))
    else
      match fs.listing
      case Failure(e) => Failure(FilesystemError(dirPath, e))
      case Success(listing) =>
        var files := LocalFiles(fs, ignore, LocalIgnoreList(fs.cwdGitignore), GlobMatches(listing));
        Success(RepoData(LocalMeta(now, fs.resolved), files))
  }

  /** The `for (const match of matches)` loop. `visited` records the
      relative paths handed to `fs.stat`: exactly the matches the ignore
      test lets through, in order, so an ignored path is never stat'ed or
      read. */
  method CollectFiles(fs: LocalFs, ignore: IgnoreTest, ignoreList: seq<string>, matches: seq<string>)
    returns (files: seq<FileData>, ghost visited: seq<string>)
    ensures files == LocalFiles(fs, ignore, ignoreList, matches)
    ensures visited == Filter(matches, KeepPath(ignore, ignoreList))
  {
    var keep := KeepPath(ignore, ignoreList);
    files, visited := [], [];
    var i := 0;
    while i < |matches|
      invariant 0 <= i <= |matches|
      invariant files == LocalFiles(fs, ignore, ignoreList, matches[..i])
      invariant visited == Filter(matches[..i], keep)
    {
      var relativePath := matches[i];
      assert keep(relativePath) == !ignore(relativePath, ignoreList);
      FilterPrefixStep(matches, i, keep);
      LocalFilesStep(fs, ignore, ignoreList, matches, i);
      if ignore(relativePath, ignoreList) {
        i := i + 1;
        continue;
      }
      visited := visited + [relativePath];
      var file := LocalFile(fs, relativePath);
      if file.Some? {
        files := files + [file.value];
      }
      i := i + 1;
    }
    assert matches[..i] == matches;
  }

  /** `getRepoDataFromLocal`: check the directory, build the ignore list,
      list the matches and collect their files. */
  method GetRepoDataFromLocal(dirPath: string, fs: LocalFs, ignore: IgnoreTest, now: string)
    returns (r: Result<RepoData, FetchError>, ghost visited: seq<string>)
    ensures r == LocalRepoData(dirPath, fs, ignore, now)
    ensures fs.rootStat == Some(Directory) && fs.listing.Success? ==>
      visited == Filter(GlobMatches(fs.listing.value), KeepPath(ignore, LocalIgnoreList(fs.cwdGitignore)))
    ensures forall p | p in visited :: !ignore(p, LocalIgnoreList(fs.cwdGitignore))
  {
    visited := [];
    if fs.rootStat != Some(Directory) {
      return Failure(PathNotFound(dirPath)), visited;
    }
    var ignoreList := LocalIgnoreList(fs.cwdGitignore);
    if fs.listing.Failure? {
      return Failure(FilesystemError(dirPath, fs.listing.error)), visited;
    }
    var files;
    files, visited := CollectFiles(fs, ignore, ignoreList, GlobMatches(fs.listing.value));
    assert forall p :: KeepPath(ignore, ignoreList)(p) == !ignore(p, ignoreList);
    return Success(RepoData(LocalMeta(now, fs.resolved), files)), visited;
  }

  // ---------------------------------------------------------------- dispatch

  /** `getRepoData`: the GitHub path exactly for a source with a URL. */
  method GetRepoData(source: RepoSource, net: Network, fs: LocalFs, ignore: IgnoreTest, now: string)
    returns (r: Result<RepoData, FetchError>)
    ensures source.RemoteSource? ==> r == GetRepoDataFromGitHub(source.url, source.ref, net, ignore, now)
    ensures source.LocalSource? ==> r == LocalRepoData(source.path, fs, ignore, now)
    ensures r.Success? ==> (r.value.meta.GitHubMeta? <==> source.RemoteSource?)
  {
    if source.RemoteSource? {
      r := GetRepoDataFromGitHub(source.url, source.ref, net, ignore, now);
    } else {
      ghost var visited;
      r, visited := GetRepoDataFromLocal(source.path, fs, ignore, now);
    }
  }
}
