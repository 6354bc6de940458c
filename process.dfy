/**
 * The processing stage `flatrepo` (src/v2-core.ts): custom ignore patterns,
 * the size, binary and emptiness checks, the statistics and the markdown.
 */
module Process {
  import opened Wrappers
  import opened Strings
  import opened Seqs
  import opened Types
  import FileTypes
  import Counts
  import Render
  import Acquire
  import Tree

  // ---------------------------------------------------------------- custom ignore patterns

  /** A pattern that matches from any depth or from the root. */
  predicate Anchored(p: string) {
    "**/" <= p || "/" <= p
  }

  /** What a file pattern is: not a directory (no final `/`), with a dot that
      is not its first character. */
  predicate FilePattern(p: string) {
    !EndsWith(p, "/") && '.' in p && !("." <= p)
  }

  // The normalisation of one trimmed custom pattern: `p/` becomes `**/p/**`
  // (the slash is the pattern's own, so `**/` + `p/` + `**`);
  // a name with no dot, or a dot name such as `.netlify`, is a directory and
  // becomes `**/p/**`; a file pattern is anchored at any depth with `**/`
  // unless it already starts with `/` or `**/`.
  function NormalizePattern(p: string): (r: string)
    ensures Anchored(r)
    ensures r == p <==> FilePattern(p) && Anchored(p)
    ensures FilePattern(p) ==> r == p || r == "**/" + p
    ensures !FilePattern(p) ==> EndsWith(r, "**")
    ensures !FilePattern(p) && EndsWith(p, "/") ==> r == "**/" + p + "**"
    ensures !FilePattern(p) && !EndsWith(p, "/") ==> r == "**/" + p + "/**"
    ensures FilePattern(p) && !Anchored(p) ==> r == "**/" + p
  {
    if EndsWith(p, "/") then
      var r := "**/" + p + "**";
      assert r == "**/" + p + "**" && r[|r| - 2..] == "**";
      r
    else if '.' !in p || "." <= p then
      var r := "**/" + p + "/**";
      assert r[|r| - 2..] == "**";
      r
    else if !("/" <= p) && !("**/" <= p) then
      "**/" + p
    else
      p
  }

  // The normalised pattern is the pattern with at most a double-star
  // prefix put in front and a double-star suffix put after.
  lemma NormalizePatternShape(p: string)
    ensures exists pre, post | pre in {"", "**/"} && post in {"", "**", "/**"} :: NormalizePattern(p) == pre + p + post
  {
    var r := NormalizePattern(p);
    if EndsWith(p, "/") {
      assert r == "**/" + p + "**";
    } else if '.' !in p || "." <= p {
      assert r == "**/" + p + "/**";
    } else if !("/" <= p) && !("**/" <= p) {
      assert r == "**/" + p + "";
    } else {
      assert r == "" + p + "";
    }
  }

  /** Normalising a file pattern twice is normalising it once. */
  lemma NormalizeFilePatternStable(p: string)
    requires FilePattern(p)
    ensures NormalizePattern(NormalizePattern(p)) == NormalizePattern(p)
  {
    var r := NormalizePattern(p);
    if r != p {
      assert r == "**/" + p;
      assert r[|r| - 1] == p[|p| - 1];
      assert !EndsWith(r, "/");
      assert '.' in r by {
        var k :| 0 <= k < |p| && p[k] == '.';
        assert r[k + 3] == '.';
      }
      assert !("." <= r);
    }
  }

  /** The pattern of one comma-separated piece: none when it trims to
      nothing, the normalised trimmed piece otherwise. */
  function PiecePattern(piece: string): (r: seq<string>)
    ensures |r| <= 1
    ensures forall q | q in r :: Anchored(q)
    ensures |r| == 1 <==> |Trim(piece)| > 0
  {
    var t := Trim(piece);
    if |t| > 0 then [NormalizePattern(t)] else []
  }

  /** The patterns of the comma-separated pieces, in order: trimmed, empty
      pieces dropped, each normalised. */
  function PiecePatterns(pieces: seq<string>): (r: seq<string>)
    ensures |r| <= |pieces|
    ensures forall q | q in r :: Anchored(q)
  {
    var r := FlatMap(PiecePattern, pieces);
    FlatMapAtMostOne(PiecePattern, pieces);
    assert forall q | q in r :: Anchored(q) by {
      forall q | q in r
        ensures Anchored(q)
      {
        FlatMapMember(PiecePattern, pieces, q);
      }
    }
    r
  }

  /** `ignorePatterns.split(',').map(trim).filter(nonEmpty).map(normalise)`. */
  function CustomPatterns(ignorePatterns: string): (r: seq<string>)
    ensures |r| <= Count(ignorePatterns, ',') + 1
    ensures forall q | q in r :: Anchored(q)
  {
    PiecePatterns(Split(ignorePatterns, ','))
  }

  /** The list is read piece by piece: the patterns of `a,b` are those of
      `a` followed by those of `b`. */
  lemma CustomPatternsAppend(a: string, b: string)
    ensures CustomPatterns(a + "," + b) == CustomPatterns(a) + CustomPatterns(b)
  {
    SplitAppend(a, ',', b);
    FlatMapAppend(PiecePattern, Split(a, ','), Split(b, ','));
  }

  /** The custom filter runs only for a non-empty option string; then every
      file the custom patterns match is dropped and the rest keep their
      order. */
  function CustomFiltered(files: seq<FileData>, ignorePatterns: string, ignore: Acquire.IgnoreTest): (r: seq<FileData>)
    ensures ignorePatterns == "" ==> r == files
    ensures IsSubsequence(r, files)
    ensures ignorePatterns != "" ==>
      (forall f | f in r :: !ignore(f.path, CustomPatterns(ignorePatterns)))
      && (forall f | f in files && !ignore(f.path, CustomPatterns(ignorePatterns)) :: f in r)
  {
    if ignorePatterns == "" then
      IsSubsequenceRefl(files);
      files
    else
      var keep := Acquire.KeepFile(ignore, CustomPatterns(ignorePatterns));
      assert forall f :: keep(f) == !ignore(f.path, CustomPatterns(ignorePatterns));
      Filter(files, keep)
  }

  // ---------------------------------------------------------------- size, binary and emptiness checks

  /** The default `maxBytesPerFile`, 100 MiB. */
  const DefaultMaxBytes: int := 100 * 1024 * 1024

  /** The size the limit is checked against. */
  function SizeOf(f: FileData): nat {
    f.content.Size()
  }

  /** The text a binary file is replaced by. */
  function BinaryDescription(extension: string): (r: string)
    ensures "(Binary file of " <= r
  {
    "(Binary file of " + FileTypes.GetBinaryFileType(extension) + ")"
  }

  /** What one checked file contributes: a text file itself, a binary file
      its description as text when binaries are included, else nothing. */
  function Contribution(f: FileData, includeBin: bool): (r: seq<FileData>)
    ensures |r| <= 1
    ensures !f.isBinary ==> r == [f]
    ensures f.isBinary ==> (|r| == 1 <==> includeBin)
    ensures |r| == 1 ==> r[0].path == f.path && r[0].extension == f.extension && !r[0].isBinary
  {
    if f.isBinary then
      if includeBin then [f.(content := Text(BinaryDescription(f.extension)), isBinary := false)] else []
    else [f]
  }

  /** The contributions of the files, in order. */
  function KeptFiles(files: seq<FileData>, includeBin: bool): (r: seq<FileData>)
    ensures |r| <= |files|
    decreases |files|
  {
    if |files| == 0 then []
    else KeptFiles(files[..|files| - 1], includeBin) + Contribution(files[|files| - 1], includeBin)
  }

  lemma KeptFilesStep(files: seq<FileData>, i: nat, includeBin: bool)
    requires i < |files|
    ensures KeptFiles(files[..i + 1], includeBin) == KeptFiles(files[..i], includeBin) + Contribution(files[i], includeBin)
  {
    assert files[..i + 1][..i] == files[..i];
  }

  predicate IsTextRecord(f: FileData) {
    !f.isBinary
  }

  /** The file with its binary content replaced by the description. */
  function Described(f: FileData): FileData {
    if f.isBinary then f.(content := Text(BinaryDescription(f.extension)), isBinary := false) else f
  }

  /** Without `includeBin` the checked files are exactly the text files, in
      order. */
  lemma {:induction false} KeptWithoutBinaries(files: seq<FileData>)
    ensures KeptFiles(files, false) == Filter(files, IsTextRecord)
    decreases |files|
  {
    if |files| > 0 {
      var init, last := files[..|files| - 1], files[|files| - 1];
      assert files == init + [last];
      KeptWithoutBinaries(init);
      FilterSnoc(init, last, IsTextRecord);
    }
  }

  /** With `includeBin` every file is kept, in order, binaries described. */
  lemma {:induction false} KeptWithBinaries(files: seq<FileData>)
    ensures |KeptFiles(files, true)| == |files|
    ensures forall i | 0 <= i < |files| :: KeptFiles(files, true)[i] == Described(files[i])
    decreases |files|
  {
    if |files| > 0 {
      KeptWithBinaries(files[..|files| - 1]);
    }
  }

  /** Every checked file is text. */
  lemma {:induction false} KeptFilesAreText(files: seq<FileData>, includeBin: bool)
    requires forall f | f in files :: !f.isBinary ==> f.content.Text?
    ensures forall f | f in KeptFiles(files, includeBin) :: !f.isBinary && f.content.Text?
    decreases |files|
  {
    if |files| > 0 {
      var init := files[..|files| - 1];
      assert forall f | f in init :: f in files;
      KeptFilesAreText(init, includeBin);
    }
  }

  /** The index of the first file over the limit, or the number of files. */
  function FirstOversized(files: seq<FileData>, maxBytes: int): (k: nat)
    ensures k <= |files|
    ensures forall j | 0 <= j < k :: SizeOf(files[j]) <= maxBytes
    ensures k < |files| ==> SizeOf(files[k]) > maxBytes
  {
    if |files| == 0 then 0
    else if SizeOf(files[0]) > maxBytes then 0
    else 1 + FirstOversized(files[1..], maxBytes)
  }

  /** The outcome of the processing loop: `FILE_TOO_BIG` for the first file
      strictly over the limit, checked before any binary handling; otherwise
      the kept files. */
  function ProcessedFiles(files: seq<FileData>, includeBin: bool, maxBytes: int): (r: Result<seq<FileData>, ProcessError>)
    ensures r.Success? <==> forall f | f in files :: SizeOf(f) <= maxBytes
    ensures r.Success? ==> r.value == KeptFiles(files, includeBin)
    ensures r.Failure? ==> exists k | 0 <= k < |files| ::
      && SizeOf(files[k]) > maxBytes
      && (forall j | 0 <= j < k :: SizeOf(files[j]) <= maxBytes)
      && r.error == FileTooBig(files[k].path, SizeOf(files[k]), maxBytes)
  {
    var k := FirstOversized(files, maxBytes);
    if k < |files| then Failure(FileTooBig(files[k].path, SizeOf(files[k]), maxBytes))
    else Success(KeptFiles(files, includeBin))
  }

  /** The first file over the limit is the first one the loop meets. */
  lemma FirstOversizedAt(files: seq<FileData>, maxBytes: int, i: nat)
    requires i < |files| && SizeOf(files[i]) > maxBytes
    requires forall j | 0 <= j < i :: SizeOf(files[j]) <= maxBytes
    ensures FirstOversized(files, maxBytes) == i
    ensures ProcessedFiles(files, false, maxBytes) == Failure(FileTooBig(files[i].path, SizeOf(files[i]), maxBytes))
    ensures ProcessedFiles(files, true, maxBytes) == Failure(FileTooBig(files[i].path, SizeOf(files[i]), maxBytes))
  {
  }

  /** The loop body after the size check: a binary file is described or
      skipped, a text file kept. */
  method CheckedFile(file: FileData, includeBin: bool) returns (kept: seq<FileData>)
    ensures kept == Contribution(file, includeBin)
  {
    kept := [];
    if file.isBinary {
      if includeBin {
        kept := [file.(content := Text(BinaryDescription(file.extension)), isBinary := false)];
      }
    } else {
      kept := [file];
    }
  }

  /** The `for (const file of filteredFiles)` loop. */
  method ProcessFiles(files: seq<FileData>, includeBin: bool, maxBytes: int) returns (r: Result<seq<FileData>, ProcessError>)
    ensures r == ProcessedFiles(files, includeBin, maxBytes)
  {
    var processed: seq<FileData> := [];
    var i := 0;
    while i < |files|
      invariant 0 <= i <= |files|
      invariant forall j | 0 <= j < i :: SizeOf(files[j]) <= maxBytes
      invariant processed == KeptFiles(files[..i], includeBin)
    {
      var file := files[i];
      var fileSize := SizeOf(file);
      if fileSize > maxBytes {
        FirstOversizedAt(files, maxBytes, i);
        return Failure(FileTooBig(file.path, fileSize, maxBytes));
      }
      KeptFilesStep(files, i, includeBin);
      var kept := CheckedFile(file, includeBin);
      processed := processed + kept;
      i := i + 1;
    }
    assert files[..i] == files;
    assert FirstOversized(files, maxBytes) == |files|;
    return Success(processed);
  }

  // ---------------------------------------------------------------- calculateStats

  predicate AllText(files: seq<FileData>) {
    forall f | f in files :: f.content.Text?
  }

  /** `file.content as string` on a text record; a byte record, which the
      model never renders, gives the empty text. */
  function TextOf(f: FileData): string {
    if f.content.Text? then f.content.text else ""
  }

  /** `content.split("\n").length`: one more than the newlines. */
  function LinesOf(f: FileData): (n: nat)
    ensures n == Count(TextOf(f), '\n') + 1
  {
    |Split(TextOf(f), '\n')|
  }

  /** The sum of `content.split("\n").length` over the files. */
  function LineTotal(files: seq<FileData>): (n: nat)
    ensures n >= |files|
    decreases |files|
  {
    if |files| == 0 then 0
    else
      var init := files[..|files| - 1];
      LineTotal(init) + LinesOf(files[|files| - 1])
  }

  /** The sum of the content lengths. */
  function ByteTotal(files: seq<FileData>): nat
    decreases |files|
  {
    if |files| == 0 then 0
    else
      var init := files[..|files| - 1];
      ByteTotal(init) + |TextOf(files[|files| - 1])|
  }

  /** The extensions of the files, in order. */
  function Extensions(files: seq<FileData>): (r: seq<string>)
    ensures |r| == |files|
    ensures forall i | 0 <= i < |files| :: r[i] == files[i].extension
  {
    seq(|files|, i requires 0 <= i < |files| => files[i].extension)
  }

  /** The languages of the files whose extension has one, in order. */
  function LanguageList(files: seq<FileData>): (r: seq<string>)
    ensures |r| <= |files|
    ensures forall l | l in r :: l != "" && l in FileTypes.ExtensionToLanguage.Values
    decreases |files|
  {
    if |files| == 0 then []
    else
      var l := FileTypes.LanguageOf(files[|files| - 1].extension);
      LanguageList(files[..|files| - 1]) + (if l != "" then [l] else [])
  }

  predicate IsBinaryRecord(f: FileData) {
    f.isBinary
  }

  /** What `calculateStats(processedFiles, allFiles)` returns. */
  function Stats(processed: seq<FileData>, all: seq<FileData>): RepoStats {
    RepoStats(
      |processed|,
      LineTotal(processed),
      Counts.Tally(LanguageList(processed)),
      Counts.Tally(Extensions(processed)),
      |Filter(all, IsBinaryRecord)|,
      ByteTotal(processed))
  }

  /** One more file for the statistics' running totals. */
  lemma LineTotalStep(files: seq<FileData>, i: nat)
    requires i < |files|
    ensures LineTotal(files[..i + 1]) == LineTotal(files[..i]) + LinesOf(files[i])
  {
    assert files[..i + 1][..i] == files[..i];
  }

  lemma ByteTotalStep(files: seq<FileData>, i: nat)
    requires i < |files|
    ensures ByteTotal(files[..i + 1]) == ByteTotal(files[..i]) + |TextOf(files[i])|
  {
    assert files[..i + 1][..i] == files[..i];
  }

  lemma FileTypesStep(files: seq<FileData>, i: nat)
    requires i < |files|
    ensures Counts.Tally(Extensions(files[..i + 1])) == Counts.Incr(Counts.Tally(Extensions(files[..i])), files[i].extension)
  {
    assert Extensions(files[..i + 1]) == Extensions(files[..i]) + [files[i].extension];
    Counts.TallySnoc(Extensions(files[..i]), files[i].extension);
  }

  lemma LanguageListStep(files: seq<FileData>, i: nat)
    requires i < |files|
    ensures var l := FileTypes.LanguageOf(files[i].extension);
      LanguageList(files[..i + 1]) == LanguageList(files[..i]) + (if l != "" then [l] else [])
  {
    assert files[..i + 1][..i] == files[..i];
  }

  lemma LanguagesStep(files: seq<FileData>, i: nat)
    requires i < |files|
    ensures var l := FileTypes.LanguageOf(files[i].extension);
      Counts.Tally(LanguageList(files[..i + 1])) ==
        if l != "" then Counts.Incr(Counts.Tally(LanguageList(files[..i])), l) else Counts.Tally(LanguageList(files[..i]))
  {
    LanguageListStep(files, i);
    var l := FileTypes.LanguageOf(files[i].extension);
    if l != "" {
      Counts.TallySnoc(LanguageList(files[..i]), l);
    } else {
      assert LanguageList(files[..i + 1]) == LanguageList(files[..i]);
    }
  }

  /** The loop of `calculateStats`, which adds each file to the running
      totals and counts of the `stats` record. */
  method CalculateStats(processed: seq<FileData>, all: seq<FileData>) returns (stats: RepoStats)
    requires AllText(processed)
    ensures stats == Stats(processed, all)
  {
    var totalLines, totalBytes := 0, 0;
    var fileTypes: map<string, nat>, languages: map<string, nat> := map[], map[];
    var i := 0;
    while i < |processed|
      invariant 0 <= i <= |processed|
      invariant totalLines == LineTotal(processed[..i]) && totalBytes == ByteTotal(processed[..i])
      invariant fileTypes == Counts.Tally(Extensions(processed[..i]))
      invariant languages == Counts.Tally(LanguageList(processed[..i]))
    {
      var file := processed[i];
      var content := TextOf(file);
      LineTotalStep(processed, i);
      totalLines := totalLines + LinesOf(file);
      ByteTotalStep(processed, i);
      totalBytes := totalBytes + |content|;
      FileTypesStep(processed, i);
      fileTypes := Counts.Incr(fileTypes, file.extension);
      var language := FileTypes.LanguageOf(file.extension);
      LanguagesStep(processed, i);
      if language != "" {
        languages := Counts.Incr(languages, language);
      }
      i := i + 1;
    }
    assert processed[..i] == processed;
    stats := RepoStats(|processed|, totalLines, languages, fileTypes, |Filter(all, IsBinaryRecord)|, totalBytes);
  }

  /** The counts add up: the file types of the processed files sum to their
      number, languages count only files of a mapped extension, and every
      file has at least one line. */
  lemma StatsTotals(processed: seq<FileData>, all: seq<FileData>)
    ensures var s := Stats(processed, all);
      && Counts.MapSum(s.fileTypes) == s.totalFiles
      && Counts.MapSum(s.languages) <= s.totalFiles
      && (forall l | l in s.languages :: l in FileTypes.ExtensionToLanguage.Values)
      && s.totalLines >= s.totalFiles
      && s.binaryFiles <= |all|
  {
    Counts.TallySum(Extensions(processed));
    Counts.TallySum(LanguageList(processed));
  }

  /** Each extension of a processed file is counted once per file with it,
      and only those extensions are counted. */
  lemma FileTypeCounts(processed: seq<FileData>, all: seq<FileData>, e: string)
    ensures var s := Stats(processed, all);
      && (e in s.fileTypes <==> exists f | f in processed :: f.extension == e)
      && (e in s.fileTypes ==> s.fileTypes[e] == Counts.Occurrences(Extensions(processed), e))
  {
    var exts := Extensions(processed);
    if e in exts {
      Counts.TallyCounts(exts, e);
      var i :| 0 <= i < |exts| && exts[i] == e;
      assert processed[i] in processed;
    }
  }

  // ---------------------------------------------------------------- generateHeader

  /** What `JSON.parse` gives for the text of `package.json`, as far as the
      header looks at it: `null`, or a value whose `name` member is the
      string `name` (`None` when it is missing or not a string). */
  datatype PackageJson = NullJson | PackageValue(name: Option<string>)

  /** `JSON.parse`: the parsed value, or the message of the SyntaxError it
      throws. */
  type JsonParser = string -> Result<PackageJson, string>

  /** `stringify(header)` of the YAML library, for the header object built
      from the repository name, the directory tree, the statistics and the
      repository data. */
  type YamlWriter = (string, string, RepoStats, RepoData) -> string

  /** What `generateHeader` takes from outside: the JSON parser, the YAML
      writer, the `localeCompare` order of the tree and `process.cwd()`. */
  datatype HeaderEnv = HeaderEnv(parse: JsonParser, yaml: YamlWriter, leq: (string, string) -> bool, cwd: string)

  const PackageFileName: string := "package.json"

  /** The message of the TypeError that reading `name` of `null` throws. */
  const NullNameError: string := "TypeError: Cannot read properties of null (reading 'name')"

  /** The message of the RangeError of an exhausted stack. */
  const StackOverflowError: string := "RangeError: Maximum call stack size exceeded"

  /** `files.find((f) => f.path === "package.json")`. */
  function FindPackageFile(files: seq<FileData>): (r: Option<FileData>)
    ensures r.None? <==> forall f | f in files :: f.path != PackageFileName
    ensures r.Some? ==> r.value in files && r.value.path == PackageFileName
    decreases |files|
  {
    if |files| == 0 then None
    else if files[0].path == PackageFileName then Some(files[0])
    else
      assert forall f | f in files[1..] :: f in files;
      FindPackageFile(files[1..])
  }

  /** `find` returns the first file named `package.json`. */
  lemma {:induction false} FindFirstPackageFile(files: seq<FileData>, i: nat)
    requires i < |files| && files[i].path == PackageFileName
    requires forall j | 0 <= j < i :: files[j].path != PackageFileName
    ensures FindPackageFile(files) == Some(files[i])
    decreases i
  {
    if i > 0 {
      FindFirstPackageFile(files[1..], i - 1);
    }
  }

  /** `pkgFile ? JSON.parse(pkgFile.content) : {}`. */
  function PackageData(files: seq<FileData>, parse: JsonParser): Result<PackageJson, string> {
    match FindPackageFile(files)
    case None => Success(PackageValue(None))
    case Some(f) => parse(TextOf(f))
  }

  /** The repository name of the header: for a local repository the package
      name when it is a non-empty string, else the base name of the path (of
      the working directory when the path is empty); for a GitHub one
      `owner/repo`. Only the local branch reads `name`, so only there does a
      `null` package throw. */
  function RepoName(meta: RepoMeta, pkg: PackageJson, cwd: string): (r: Result<string, string>)
    ensures meta.GitHubMeta? ==> r == Success(meta.owner + "/" + meta.repo)
    ensures meta.LocalMeta? ==> (r.Failure? <==> pkg.NullJson?)
    ensures r.Failure? ==> r.error == NullNameError
    ensures meta.LocalMeta? && pkg.PackageValue? && pkg.name.Some? && pkg.name.value != "" ==> r == Success(pkg.name.value)
    ensures meta.LocalMeta? && pkg.PackageValue? && (pkg.name.None? || pkg.name.value == "") ==>
      r == Success(Basename(if meta.path != "" then meta.path else cwd))
  {
    match meta
    case GitHubMeta(_, owner, repo, _, _) => Success(owner + "/" + repo)
    case LocalMeta(_, path) =>
      match pkg
      case NullJson => Failure(NullNameError)
      case PackageValue(name) =>
        if name.Some? && name.value != "" then Success(name.value)
        else Success(Basename(if path != "" then path else cwd))
  }

  /** `generateDirectoryTree(files)` with the RangeError it throws. */
  function HeaderTree(leq: (string, string) -> bool, files: seq<FileData>): Result<string, string> {
    match Tree.DirectoryTree(leq, Tree.Paths(files))
    case None => Failure(StackOverflowError)
    case Some(t) => Success(t)
  }

  /** `generateHeader`: parse `package.json`, choose the name, render the
      tree and wrap the YAML in `---` lines; any of the first three can
      throw, in that order. */
  function GenerateHeader(files: seq<FileData>, stats: RepoStats, repoData: RepoData, env: HeaderEnv): (r: Result<string, string>)
    ensures r.Success? ==> "---\n" <= r.value && EndsWith(r.value, "---\n\n")
  {
    var pkg :- PackageData(files, env.parse);
    var name :- RepoName(repoData.meta, pkg, env.cwd);
    var tree :- HeaderTree(env.leq, files);
    var yaml := env.yaml(name, tree, stats, repoData);
    var h := "---\n" + yaml + "---\n\n";
    assert h[|h| - 5..] == "---\n\n";
    Success(h)
  }

  /** The header fails exactly when `package.json` does not parse, when a
      local repository's `package.json` is `null`, or when a path starts
      with `/`; the parse error comes first, the stack overflow last. On
      success it holds the YAML of the name and the rendered tree. */
  lemma HeaderOutcome(files: seq<FileData>, stats: RepoStats, repoData: RepoData, env: HeaderEnv)
    ensures var r := GenerateHeader(files, stats, repoData, env);
      var pkg := PackageData(files, env.parse);
      var absolute := exists k | 0 <= k < |files| :: |files[k].path| > 0 && files[k].path[0] == '/';
      && (r.Failure? <==> pkg.Failure? || (repoData.meta.LocalMeta? && pkg.value.NullJson?) || absolute)
      && (pkg.Failure? ==> r == Failure(pkg.error))
      && (pkg.Success? && RepoName(repoData.meta, pkg.value, env.cwd).Success? && absolute ==> r == Failure(StackOverflowError))
      && (r.Success? ==>
           r.value == "---\n" + env.yaml(RepoName(repoData.meta, pkg.value, env.cwd).value,
                                          Tree.DirectoryTree(env.leq, Tree.Paths(files)).value, stats, repoData)
                     + "---\n\n")
  {
    var paths := Tree.Paths(files);
    Tree.DirectoryTreeOverflow(env.leq, paths);
    assert (exists k | 0 <= k < |paths| :: |paths[k]| > 0 && paths[k][0] == '/')
       <==> (exists k | 0 <= k < |files| :: |files[k].path| > 0 && files[k].path[0] == '/');
  }

  /** A header of a GitHub repository is named `owner/repo`, whatever
      `package.json` says, as long as it parses. */
  lemma GitHubHeaderName(files: seq<FileData>, stats: RepoStats, repoData: RepoData, env: HeaderEnv)
    requires repoData.meta.GitHubMeta? && PackageData(files, env.parse).Success?
    requires Tree.DirectoryTree(env.leq, Tree.Paths(files)).Some?
    ensures GenerateHeader(files, stats, repoData, env) ==
      Success("---\n" + env.yaml(repoData.meta.owner + "/" + repoData.meta.repo,
                                 Tree.DirectoryTree(env.leq, Tree.Paths(files)).value, stats, repoData) + "---\n\n")
  {
  }

  // ---------------------------------------------------------------- flatrepo

  /** A rejection of `flatrepo`: one of its own errors, or the message of an
      error `generateHeader` throws, which `flatrepo` does not catch. */
  datatype FlatrepoFailure = ProcessFailed(error: ProcessError) | HeaderFailed(message: string)

  /** The rendering of each processed file, in order. */
  function Blocks(files: seq<FileData>): (r: seq<string>)
    ensures |r| == |files|
  {
    seq(|files|, i requires 0 <= i < |files| => Render.FormatFileContent(files[i].path, files[i].extension, TextOf(files[i])))
  }

  /** Every file that claims to be text holds text (the casts of the source
      rely on it); both acquisition paths produce only such files. */
  predicate TextFlagged(files: seq<FileData>) {
    forall f | f in files :: !f.isBinary ==> f.content.Text?
  }

  /** The files `flatrepo` renders, or the process error it throws first. */
  function ProcessedOf(repoData: RepoData, options: FlatrepoOptions, ignore: Acquire.IgnoreTest): Result<seq<FileData>, ProcessError> {
    var filtered := CustomFiltered(repoData.files, options.ignorePatterns.GetOr(""), ignore);
    match ProcessedFiles(filtered, options.includeBin.GetOr(false), options.maxBytesPerFile.GetOr(DefaultMaxBytes))
    case Failure(e) => Failure(e)
    case Success(processed) => if |processed| == 0 then Failure(EmptyRepository()) else Success(processed)
  }

  /** What `flatrepo(repoData, options)` resolves or rejects with. */
  function FlatrepoResult(repoData: RepoData, options: FlatrepoOptions, ignore: Acquire.IgnoreTest, env: HeaderEnv)
    : (r: Result<string, FlatrepoFailure>)
  {
    match ProcessedOf(repoData, options, ignore)
    case Failure(e) => Failure(ProcessFailed(e))
    case Success(processed) =>
      var stats := Stats(processed, repoData.files);
      match GenerateHeader(processed, stats, repoData, env)
      case Failure(m) => Failure(HeaderFailed(m))
      case Success(h) => Success(Render.GenerateMarkdown(h, Blocks(processed)))
  }

  /** `flatrepo`: filter, check and convert, then count and render. */
  method Flatrepo(repoData: RepoData, options: FlatrepoOptions, ignore: Acquire.IgnoreTest, env: HeaderEnv)
    returns (r: Result<string, FlatrepoFailure>)
    requires TextFlagged(repoData.files)
    ensures r == FlatrepoResult(repoData, options, ignore, env)
    ensures r.Failure? && r.error.ProcessFailed? ==> r.error.error.code in {"FILE_TOO_BIG", "EMPTY_REPOSITORY"}
    ensures r.Failure? && r.error.HeaderFailed? ==>
      && ProcessedOf(repoData, options, ignore).Success?
      && GenerateHeader(ProcessedOf(repoData, options, ignore).value,
                        Stats(ProcessedOf(repoData, options, ignore).value, repoData.files), repoData, env)
         == Failure(r.error.message)
  {
    var includeBin := options.includeBin.GetOr(false);
    var ignorePatterns := options.ignorePatterns.GetOr("");
    var maxBytes := options.maxBytesPerFile.GetOr(DefaultMaxBytes);
    var filteredFiles := CustomFiltered(repoData.files, ignorePatterns, ignore);
    var checked := ProcessFiles(filteredFiles, includeBin, maxBytes);
    if checked.Failure? {
      return Failure(ProcessFailed(checked.error));
    }
    var processedFiles := checked.value;
    if |processedFiles| == 0 {
      return Failure(ProcessFailed(EmptyRepository()));
    }
    assert forall f | f in filteredFiles :: f in repoData.files;
    KeptFilesAreText(filteredFiles, includeBin);
    var stats := CalculateStats(processedFiles, repoData.files);
    var header := GenerateHeader(processedFiles, stats, repoData, env);
    if header.Failure? {
      return Failure(HeaderFailed(header.error));
    }
    return Success(Render.GenerateMarkdown(header.value, Blocks(processedFiles)));
  }

  /** The outcome, case by case: too big exactly when a file left by the
      custom filter is over the limit; empty exactly when none is, and no
      text file and (without `includeBin`) no binary file remains; a header
      error exactly when neither happened and `generateHeader` throws on
      the processed files; the markdown otherwise, starting with the
      header. */
  lemma FlatrepoOutcome(repoData: RepoData, options: FlatrepoOptions, ignore: Acquire.IgnoreTest, env: HeaderEnv)
    ensures var r := FlatrepoResult(repoData, options, ignore, env);
      var filtered := CustomFiltered(repoData.files, options.ignorePatterns.GetOr(""), ignore);
      var maxBytes := options.maxBytesPerFile.GetOr(DefaultMaxBytes);
      var processed := ProcessedOf(repoData, options, ignore);
      && (r.Failure? && r.error.ProcessFailed? && r.error.error.code == "FILE_TOO_BIG"
          <==> exists f | f in filtered :: SizeOf(f) > maxBytes)
      && (r.Failure? && r.error.ProcessFailed? && r.error.error.code == "EMPTY_REPOSITORY" <==>
           (forall f | f in filtered :: SizeOf(f) <= maxBytes)
           && (forall f | f in filtered :: f.isBinary && !options.includeBin.GetOr(false)))
      && (r.Failure? && r.error.HeaderFailed? <==>
           processed.Success? && GenerateHeader(processed.value, Stats(processed.value, repoData.files), repoData, env).Failure?)
      && (r.Success? ==>
           processed.Success? && GenerateHeader(processed.value, Stats(processed.value, repoData.files), repoData, env).value <= r.value)
  {
    var filtered := CustomFiltered(repoData.files, options.ignorePatterns.GetOr(""), ignore);
    var includeBin := options.includeBin.GetOr(false);
    KeptEmpty(filtered, includeBin);
  }

  /** Nothing is kept exactly when every file is a binary one left out. */
  lemma {:induction false} KeptEmpty(files: seq<FileData>, includeBin: bool)
    ensures |KeptFiles(files, includeBin)| == 0 <==> forall f | f in files :: f.isBinary && !includeBin
    decreases |files|
  {
    if |files| > 0 {
      var init, last := files[..|files| - 1], files[|files| - 1];
      assert files == init + [last];
      KeptEmpty(init, includeBin);
    }
  }
}
