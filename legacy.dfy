/**
 * The compiled first version of the tool (dist/index.js): `getProjectFiles`
 * walks the dotted file names the glob finds under `dir`, skipping the output file and
 * ignored paths, describing binary files instead of reading them and
 * reading the rest as text; `calculateStats` counts them; `generateDocs`
 * renders the markdown, writes it, and prefixes every error message.
 *
 * The records are those of the current version with text content: a binary
 * file is described by a text and keeps `isBinary: true`.
 */
module Legacy {
  import opened Wrappers
  import opened Strings
  import opened Seqs
  import opened Types
  import FileTypes
  import GitignoreDist
  import Counts
  import Render
  import Acquire
  import Archive
  import Process

  /** What `getProjectFiles` sees of the filesystem:
      - `listing`: the non-directory entries under `dir` as `glob` yields
        them, or the string form of the error it throws;
      - `fileStat`, `readText`: per match, `None` when the call throws;
      - `gitignore`, `cwd`: the `.gitignore` reader and the working
        directory that `getGitignorePatterns()` starts from. */
  datatype ProjectFs = ProjectFs(
    listing: Result<seq<string>, string>,
    fileStat: string -> Option<Acquire.Stat>,
    readText: string -> Option<string>,
    gitignore: GitignoreDist.GitignoreReader,
    cwd: string)

  /** The ignore list: the seven defaults, the `.gitignore` patterns, then
      the output path, with no deduplication. */
  function IgnoreList(gitignorePatterns: seq<string>, outputPath: string): (r: seq<string>)
    ensures |r| == |GitignoreDist.DefaultIgnorePatterns| + |gitignorePatterns| + 1
    ensures r[..7] == GitignoreDist.DefaultIgnorePatterns
    ensures r[7..|r| - 1] == gitignorePatterns
    ensures r[|r| - 1] == outputPath
  {
    var r := GitignoreDist.DefaultIgnorePatterns + gitignorePatterns + [outputPath];
    assert r[7..|r| - 1] == gitignorePatterns;
    r
  }

  /** A pattern among both the defaults and the `.gitignore` patterns is
      listed twice. */
  lemma IgnoreListKeepsRepeats(gitignorePatterns: seq<string>, outputPath: string, i: nat)
    requires i < |gitignorePatterns| && gitignorePatterns[i] in GitignoreDist.DefaultIgnorePatterns
    ensures Counts.Occurrences(IgnoreList(gitignorePatterns, outputPath), gitignorePatterns[i]) >= 2
  {
    var p := gitignorePatterns[i];
    var r := IgnoreList(gitignorePatterns, outputPath);
    var k :| 0 <= k < 7 && GitignoreDist.DefaultIgnorePatterns[k] == p;
    assert r[k] == p && r[7 + i] == p;
    OccurrencesOfTwo(r, k, 7 + i);
  }

  lemma {:induction false} OccurrencesOfTwo(xs: seq<string>, a: nat, b: nat)
    requires a < b < |xs| && xs[a] == xs[b]
    ensures Counts.Occurrences(xs, xs[a]) >= 2
    decreases |xs|
  {
    var init := xs[..|xs| - 1];
    assert xs == init + [xs[|xs| - 1]];
    if b < |xs| - 1 {
      OccurrencesOfTwo(init, a, b);
    } else {
      assert init[a] == xs[a];
      assert xs[a] in init;
    }
  }

  /** The match is skipped before any `fs.stat`: it is the output file, or it
      is matched by the ignore list. */
  predicate Skipped(ignore: Acquire.IgnoreTest, outputPath: string, patterns: seq<string>, m: string) {
    m == outputPath || ignore(m, patterns)
  }

  /** The record of a regular file whose lower-cased extension is `ext`:
      for a binary extension a description when `includeBin` and nothing
      otherwise, never reading it; else its text, or nothing when the read
      throws. */
  function FileRecord(fs: ProjectFs, includeBin: bool, m: string, ext: string): (r: Option<FileData>)
    ensures r.Some? ==> r.value.path == m && r.value.content.Text? && r.value.extension == ext
    ensures r.Some? ==> (r.value.isBinary <==> FileTypes.IsBinaryExtension(ext))
    ensures r.Some? && r.value.isBinary ==> includeBin && r.value.content.text == Process.BinaryDescription(ext)
    ensures r.Some? && !r.value.isBinary ==> fs.readText(m) == Some(r.value.content.text)
    ensures r.None? <==> (if FileTypes.IsBinaryExtension(ext) then !includeBin else fs.readText(m).None?)
  {
    if FileTypes.IsBinaryExtension(ext) then
      if includeBin then Some(FileData(m, Text(Process.BinaryDescription(ext)), true, ext)) else None
    else
      match fs.readText(m)
      case None => None
      case Some(t) => Some(FileData(m, Text(t), false, ext))
  }

  /** The record a match past the skip tests gives: nothing when its stat
      throws or when it is not a regular file, else its `FileRecord`. */
  function ProjectFile(fs: ProjectFs, includeBin: bool, m: string): (r: Option<FileData>)
    ensures r.Some? ==> fs.fileStat(m) == Some(Acquire.RegularFile)
  {
    if fs.fileStat(m) == Some(Acquire.RegularFile) then FileRecord(fs, includeBin, m, ToLower(Extname(m))) else None
  }

  /** What the loop pushes for one match: nothing when it is skipped, else
      its record if there is one. */
  function Pushed(fs: ProjectFs, ignore: Acquire.IgnoreTest, outputPath: string, includeBin: bool,
                  patterns: seq<string>, m: string): (r: seq<FileData>)
    ensures r == [] || (!Skipped(ignore, outputPath, patterns, m) && ProjectFile(fs, includeBin, m).Some? && r == [ProjectFile(fs, includeBin, m).value])
    ensures !Skipped(ignore, outputPath, patterns, m) && ProjectFile(fs, includeBin, m).Some? ==> r == [ProjectFile(fs, includeBin, m).value]
  {
    if Skipped(ignore, outputPath, patterns, m) then [] else OptionToSeq(ProjectFile(fs, includeBin, m))
  }

  /** The files a loop over `matches` pushes, in match order: the record of
      each match that is not skipped and has one. */
  function Collected(record: string -> Option<FileData>, skip: string -> bool, matches: seq<string>): (r: seq<FileData>)
    ensures |r| <= |matches|
  {
    if |matches| == 0 then []
    else
      var m := matches[|matches| - 1];
      Collected(record, skip, matches[..|matches| - 1]) + (if skip(m) then [] else OptionToSeq(record(m)))
  }

  /** Everything collected is the record of a match that is not skipped. */
  lemma {:induction false} CollectedSound(record: string -> Option<FileData>, skip: string -> bool, matches: seq<string>)
    ensures forall f | f in Collected(record, skip, matches) ::
      exists k | 0 <= k < |matches| :: !skip(matches[k]) && record(matches[k]) == Some(f)
  {
    if |matches| > 0 {
      var i := |matches| - 1;
      var init := matches[..i];
      CollectedSound(record, skip, init);
      forall f | f in Collected(record, skip, matches)
        ensures exists k | 0 <= k < |matches| :: !skip(matches[k]) && record(matches[k]) == Some(f)
      {
        if f in Collected(record, skip, init) {
          var k :| 0 <= k < |init| && !skip(init[k]) && record(init[k]) == Some(f);
          assert matches[k] == init[k];
        } else {
          assert !skip(matches[i]) && record(matches[i]) == Some(f);
        }
      }
    }
  }

  /** The record of every match that is not skipped is collected. */
  lemma {:induction false} CollectedComplete(record: string -> Option<FileData>, skip: string -> bool, matches: seq<string>, k: nat)
    requires k < |matches| && !skip(matches[k]) && record(matches[k]).Some?
    ensures record(matches[k]).value in Collected(record, skip, matches)
    decreases |matches|
  {
    var init := matches[..|matches| - 1];
    if k < |init| {
      assert init[k] == matches[k];
      CollectedComplete(record, skip, init, k);
    }
  }

  /** The files the `getProjectFiles` loop pushes for `matches`. */
  function ProjectFiles(fs: ProjectFs, ignore: Acquire.IgnoreTest, outputPath: string, includeBin: bool,
                        patterns: seq<string>, matches: seq<string>): seq<FileData>
  {
    Collected((m: string) => ProjectFile(fs, includeBin, m), (m: string) => Skipped(ignore, outputPath, patterns, m), matches)
  }

  lemma ProjectFilesStep(fs: ProjectFs, ignore: Acquire.IgnoreTest, outputPath: string, includeBin: bool,
                         patterns: seq<string>, ms: seq<string>, i: nat)
    requires i < |ms|
    ensures ProjectFiles(fs, ignore, outputPath, includeBin, patterns, ms[..i + 1])
         == ProjectFiles(fs, ignore, outputPath, includeBin, patterns, ms[..i])
            + Pushed(fs, ignore, outputPath, includeBin, patterns, ms[i])
  {
    assert ms[..i + 1][..i] == ms[..i];
  }

  /** What `getProjectFiles(outputPath, includeBin, dir)` resolves or
      rejects with (the message of the error). */
  function ProjectFilesResult(fs: ProjectFs, ignore: Acquire.IgnoreTest, outputPath: string, includeBin: bool)
    : (r: Result<seq<FileData>, string>)
    ensures fs.listing.Failure? <==> r.Failure?
    ensures r.Failure? ==> r.error == "Error while finding files: " + fs.listing.error
  {
    match fs.listing
    case Failure(e) => Failure("Error while finding files: " + e)
    case Success(listing) =>
      var patterns := IgnoreList(GitignoreDist.GitignorePatterns(fs.gitignore, fs.cwd), outputPath);
      Success(ProjectFiles(fs, ignore, outputPath, includeBin, patterns, Acquire.GlobMatches(listing)))
  }

  /** One match past the skip tests: `fs.stat`, then the description of a
      binary file or the read of a text file. */
  method VisitMatch(fs: ProjectFs, includeBin: bool, m: string) returns (file: Option<FileData>)
    ensures file == ProjectFile(fs, includeBin, m)
  {
    var stat := fs.fileStat(m);
    if stat != Some(Acquire.RegularFile) {
      return None;
    }
    var ext := ToLower(Extname(m));
    file := ReadRecord(fs, includeBin, m, ext);
  }

  /** The description of a binary file or the read of a text file. */
  method ReadRecord(fs: ProjectFs, includeBin: bool, m: string, ext: string) returns (file: Option<FileData>)
    ensures file == FileRecord(fs, includeBin, m, ext)
  {
    if FileTypes.IsBinaryExtension(ext) {
      if includeBin {
        return Some(FileData(m, Text(Process.BinaryDescription(ext)), true, ext));
      }
      return None;
    }
    var text := fs.readText(m);
    if text.None? {
      return None;
    }
    return Some(FileData(m, Text(text.value), false, ext));
  }

  /** One turn of the loop: a skipped match is not handed to `fs.stat`;
      any other is visited. */
  method VisitOrSkip(fs: ProjectFs, ignore: Acquire.IgnoreTest, outputPath: string, includeBin: bool,
                     patterns: seq<string>, m: string) returns (stated: bool, pushed: seq<FileData>)
    ensures stated <==> !Skipped(ignore, outputPath, patterns, m)
    ensures pushed == Pushed(fs, ignore, outputPath, includeBin, patterns, m)
  {
    if m == outputPath || ignore(m, patterns) {
      return false, [];
    }
    var file := VisitMatch(fs, includeBin, m);
    pushed := OptionToSeq(file);
    stated := true;
  }

  /** The `for (const match of matches)` loop. `visited` records the matches
      handed to `fs.stat`: exactly those the skip tests let through. */
  method CollectProjectFiles(fs: ProjectFs, ignore: Acquire.IgnoreTest, outputPath: string, includeBin: bool,
                             patterns: seq<string>, matches: seq<string>)
    returns (files: seq<FileData>, ghost visited: seq<string>)
    ensures files == ProjectFiles(fs, ignore, outputPath, includeBin, patterns, matches)
    ensures visited == Filter(matches, (m: string) => !Skipped(ignore, outputPath, patterns, m))
  {
    var keep := (m: string) => !Skipped(ignore, outputPath, patterns, m);
    files, visited := [], [];
    var i := 0;
    while i < |matches|
      invariant 0 <= i <= |matches|
      invariant files == ProjectFiles(fs, ignore, outputPath, includeBin, patterns, matches[..i])
      invariant visited == Filter(matches[..i], keep)
    {
      var stated, pushed := VisitOrSkip(fs, ignore, outputPath, includeBin, patterns, matches[i]);
      FilterPrefixStep(matches, i, keep);
      ProjectFilesStep(fs, ignore, outputPath, includeBin, patterns, matches, i);
      assert keep(matches[i]) == stated;
      if stated {
        visited := visited + [matches[i]];
      }
      files := files + pushed;
      i := i + 1;
    }
    assert matches[..i] == matches;
  }

  /** `getProjectFiles`: build the ignore list, list the matches, collect. */
  method GetProjectFiles(fs: ProjectFs, ignore: Acquire.IgnoreTest, outputPath: string, includeBin: bool)
    returns (r: Result<seq<FileData>, string>)
    ensures r == ProjectFilesResult(fs, ignore, outputPath, includeBin)
  {
    var gitignorePatterns := GitignoreDist.GetGitignorePatterns(fs.gitignore, fs.cwd);
    var ignorePatterns := IgnoreList(gitignorePatterns, outputPath);
    if fs.listing.Failure? {
      return Failure("Error while finding files: " + fs.listing.error);
    }
    var files, visited := CollectProjectFiles(fs, ignore, outputPath, includeBin, ignorePatterns, Acquire.GlobMatches(fs.listing.value));
    return Success(files);
  }

  /** Every collected file comes from a match that is neither the output
      file nor ignored and is a regular file; it is binary exactly when its
      extension is, a binary one only with `includeBin` and described rather
      than read, a text one with the text read. */
  lemma ProjectFilesSound(fs: ProjectFs, ignore: Acquire.IgnoreTest, outputPath: string, includeBin: bool,
                          patterns: seq<string>, matches: seq<string>)
    ensures forall f | f in ProjectFiles(fs, ignore, outputPath, includeBin, patterns, matches) ::
      && f.path in matches && f.path != outputPath && !ignore(f.path, patterns)
      && ProjectFile(fs, includeBin, f.path) == Some(f)
  {
    var record := (m: string) => ProjectFile(fs, includeBin, m);
    var skip := (m: string) => Skipped(ignore, outputPath, patterns, m);
    CollectedSound(record, skip, matches);
    forall f | f in ProjectFiles(fs, ignore, outputPath, includeBin, patterns, matches)
      ensures f.path in matches && !Skipped(ignore, outputPath, patterns, f.path) && ProjectFile(fs, includeBin, f.path) == Some(f)
    {
      var k :| 0 <= k < |matches| && !skip(matches[k]) && record(matches[k]) == Some(f);
    }
  }

  /** Every match past the skip tests whose record exists is collected. */
  lemma ProjectFilesComplete(fs: ProjectFs, ignore: Acquire.IgnoreTest, outputPath: string, includeBin: bool,
                             patterns: seq<string>, matches: seq<string>, m: string)
    requires m in matches && !Skipped(ignore, outputPath, patterns, m) && ProjectFile(fs, includeBin, m).Some?
    ensures ProjectFile(fs, includeBin, m).value in ProjectFiles(fs, ignore, outputPath, includeBin, patterns, matches)
  {
    var k :| 0 <= k < |matches| && matches[k] == m;
    CollectedComplete((m: string) => ProjectFile(fs, includeBin, m), (m: string) => Skipped(ignore, outputPath, patterns, m), matches, k);
  }

  /** Without `includeBin` no binary file is collected. */
  lemma NoBinariesUnlessIncluded(fs: ProjectFs, ignore: Acquire.IgnoreTest, outputPath: string, patterns: seq<string>, matches: seq<string>)
    ensures forall f | f in ProjectFiles(fs, ignore, outputPath, false, patterns, matches) :: !f.isBinary
  {
    ProjectFilesSound(fs, ignore, outputPath, false, patterns, matches);
  }

  // ---------------------------------------------------------------- calculateStats

  /** The statistics of the first version: no binary count and no bytes. */
  datatype Stats = Stats(totalFiles: nat, totalLines: nat, languages: map<string, nat>, fileTypes: map<string, nat>)

  /** What `calculateStats(files)` returns. */
  function StatsOf(files: seq<FileData>): Stats {
    Stats(|files|, Process.LineTotal(files), Counts.Tally(Process.LanguageList(files)), Counts.Tally(Process.Extensions(files)))
  }

  /** The loop of `calculateStats`. */
  method CalculateStats(files: seq<FileData>) returns (stats: Stats)
    ensures stats == StatsOf(files)
  {
    var totalLines := 0;
    var fileTypes: map<string, nat>, languages: map<string, nat> := map[], map[];
    var i := 0;
    while i < |files|
      invariant 0 <= i <= |files|
      invariant totalLines == Process.LineTotal(files[..i])
      invariant fileTypes == Counts.Tally(Process.Extensions(files[..i]))
      invariant languages == Counts.Tally(Process.LanguageList(files[..i]))
    {
      var file := files[i];
      Process.LineTotalStep(files, i);
      totalLines := totalLines + Process.LinesOf(file);
      Process.FileTypesStep(files, i);
      fileTypes := Counts.Incr(fileTypes, file.extension);
      var language := FileTypes.LanguageOf(file.extension);
      Process.LanguagesStep(files, i);
      if language != "" {
        languages := Counts.Incr(languages, language);
      }
      i := i + 1;
    }
    assert files[..i] == files;
    stats := Stats(|files|, totalLines, languages, fileTypes);
  }

  /** The file-type counts add up to the number of files, languages count
      only files of a mapped extension, and each file has at least one
      line. */
  lemma StatsTotals(files: seq<FileData>)
    ensures var s := StatsOf(files);
      && Counts.MapSum(s.fileTypes) == s.totalFiles == |files|
      && Counts.MapSum(s.languages) <= s.totalFiles
      && (forall l | l in s.languages :: l in FileTypes.ExtensionToLanguage.Values)
      && s.totalLines >= s.totalFiles
  {
    Counts.TallySum(Process.Extensions(files));
    Counts.TallySum(Process.LanguageList(files));
  }

  // ---------------------------------------------------------------- generateDocs

  /** `generateHeader(files, stats)`: the YAML front matter, a parameter of
      this model; it fails with the message of the error `JSON.parse`
      throws on a malformed `package.json`. */
  type HeaderWriter = (seq<FileData>, Stats) -> Result<string, string>

  /** `fs.writeFile(outputPath, markdown)`: `None` when it succeeds, else the
      error's message. */
  type FileWriter = string -> Option<string>

  const DocsErrorPrefix: string := "Failed to generate documentation: "

  /** What `generateDocs` does once the files are collected: count, render
      the header and the blocks, and write the markdown. */
  function WrittenDocs(files: seq<FileData>, header: HeaderWriter, write: FileWriter): (r: Result<string, string>)
    ensures r.Failure? ==> DocsErrorPrefix <= r.error
    ensures r.Success? ==>
      && header(files, StatsOf(files)).Success?
      && header(files, StatsOf(files)).value <= r.value
      && write(r.value).None?
  {
    match header(files, StatsOf(files))
    case Failure(e) => Failure(DocsErrorPrefix + e)
    case Success(h) =>
      var markdown := Render.GenerateMarkdown(h, Process.Blocks(files));
      match write(markdown)
      case Some(e) => Failure(DocsErrorPrefix + e)
      case None => Success(markdown)
  }

  /** What `generateDocs` resolves with (the markdown written) or rejects
      with (the message of its error). */
  function DocsResult(fs: ProjectFs, ignore: Acquire.IgnoreTest, outputPath: string, includeBin: bool,
                      header: HeaderWriter, write: FileWriter): (r: Result<string, string>)
    ensures r.Failure? ==> DocsErrorPrefix <= r.error
    ensures fs.listing.Failure? ==> r == Failure(DocsErrorPrefix + ("Error while finding files: " + fs.listing.error))
    ensures r.Success? ==>
      var files := ProjectFilesResult(fs, ignore, outputPath, includeBin);
      && files.Success? && header(files.value, StatsOf(files.value)).Success?
      && header(files.value, StatsOf(files.value)).value <= r.value
      && write(r.value).None?
  {
    match ProjectFilesResult(fs, ignore, outputPath, includeBin)
    case Failure(e) => Failure(DocsErrorPrefix + e)
    case Success(files) => WrittenDocs(files, header, write)
  }

  /** `generateDocs`: collect, count, render and write; any error is
      rethrown with the prefix. */
  method GenerateDocs(fs: ProjectFs, ignore: Acquire.IgnoreTest, outputPath: string, includeBin: bool,
                      header: HeaderWriter, write: FileWriter) returns (r: Result<string, string>)
    ensures r == DocsResult(fs, ignore, outputPath, includeBin, header, write)
  {
    var files := GetProjectFiles(fs, ignore, outputPath, includeBin);
    if files.Failure? {
      return Failure(DocsErrorPrefix + files.error);
    }
    r := WriteDocs(files.value, header, write);
  }

  /** The part of `generateDocs` after the collection. */
  method WriteDocs(files: seq<FileData>, header: HeaderWriter, write: FileWriter) returns (r: Result<string, string>)
    ensures r == WrittenDocs(files, header, write)
  {
    var stats := CalculateStats(files);
    var h := header(files, stats);
    if h.Failure? {
      return Failure(DocsErrorPrefix + h.error);
    }
    var markdown := Render.GenerateMarkdown(h.value, Process.Blocks(files));
    var written := write(markdown);
    if written.Some? {
      return Failure(DocsErrorPrefix + written.value);
    }
    return Success(markdown);
  }
}
