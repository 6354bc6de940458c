# flatrepo, modelled in Dafny

flatrepo turns a repository into one Markdown document: a YAML header with
statistics and a directory tree, then one fenced block per file. Version 2
runs in two stages:

- **Acquisition.** `getRepoData` builds a `RepoData` value (metadata plus
  one `FileData` per file). The files come either from a GitHub archive,
  through URL parsing, the zipball download and ZIP extraction, or from a
  local directory, through a glob of `*.*` names and the `.gitignore`
  patterns.
- **Processing.** `flatrepo` is a pure function over that value. It
  applies the custom ignore patterns, the per-file size limit, the rule
  that binaries are described or dropped, and the check for an empty
  result. It then computes the statistics and renders the Markdown,
  including the ASCII directory tree.

The compiled version 1 entry point (`generateDocs` in `dist/index.js`, with
`dist/utils/gitignore.js`) is modelled as well. It collects the files
itself, walks the parent directories for `.gitignore` files and writes the
document.

The model has one Dafny module per concern of the source:

| module | models |
|---|---|
| `Types` | the records and error classes of `src/types/v2.ts` |
| `FileTypes` | the extension tables and `getBinaryFileType` |
| `Gitignore`, `GitignoreDist` | the two `.gitignore` readers |
| `GitHub` | `parseGitHubURL`, ref precedence, `downloadGitHubArchive` and its SHA regex |
| `Archive` | `extractZipToFiles` |
| `Acquire` | `getRepoData` and its two paths |
| `Process` | `flatrepo`, `calculateStats` and `generateHeader` |
| `Render` | `formatFileContent` and `generateMarkdown` |
| `Tree` | `generateDirectoryTree` |
| `TreeRows` | what each line of the directory tree shows |
| `Legacy` | `generateDocs` of version 1 |
| `Strings`, `Seqs`, `Counts` | JavaScript `String` and `Array` operations, `path.extname`, `path.dirname`, and the counting idiom of the statistics loops |

Loops of the source are `method`s with loop invariants. Each is proved equal
to a function, and the properties are lemmas about that function. Everything
outside the process is a parameter:

- `fetch`, the ZIP reader, UTF-8 decoding;
- the filesystem calls (as datatypes of oracles);
- `shouldIgnoreFile`, `localeCompare`;
- `JSON.parse`, the YAML `stringify` and the clock.

Where the code and its written description disagree, the model follows the code:

- **ZIP error code.** Every ZIP failure has code `ZIP_EXTRACTION_ERROR`.
  `FlatrepoFetchError.corruptArchive` (`CORRUPT_ARCHIVE`) is never raised.
- **Root prefix.** The root directory prefix is removed by cutting
  `rootDirName.length + 1` characters from every later entry, not by
  checking that the entry starts with it (`Archive.FixedLengthCut`).
- **Missing SHA.** Without a SHA in `Content-Disposition`, `commitSha` is
  the literal `HEAD`, not the requested ref.
- **Which `.gitignore`.** Version 2 reads `.gitignore` of the working
  directory, not of the scanned directory.
- **The glob needs a dot.** The glob `**/*.*` only lists names that contain a dot.
- **URL error message.** An unrecognised URL raises "Invalid GitHub URL
  format: …" with code `INVALID_URL`.
- **Empty acquisition.** Acquisition succeeds with zero files; only
  `flatrepo` rejects an empty result.
- **Duplicate patterns.** `dist/utils/gitignore.js` removes duplicates
  before it strips a leading `/`. So `/a` and `a` come out as `a` twice
  (`GitignoreDist.StripAfterDedupRepeats`).
- **Size measure.** Size is `.length` of the content whatever its kind. A
  text file's length is counted in characters (`|text|`).

## Model

| member | source | states |
|---|---|---|
| Types.UrlSource | src/types/v2.ts:6-8 | a `{ url }` source has that URL and neither ref nor timeout |
| Types.InvalidUrl | src/types/v2.ts:90-97 | code `INVALID_URL`, source `{ url }`, the cause kept, the message ends with the URL |
| Types.NetworkError | src/types/v2.ts:99-106 | code `NETWORK_ERROR`, source `{ url }`, message ending with the status code |
| Types.Timeout | src/types/v2.ts:108-115 | code `TIMEOUT`, the source kept, message ending with the source's location |
| Types.TimeoutLocation | src/types/v2.ts:108-115 | the location is the path of a local source and the URL of a remote one |
| Types.CorruptArchive | src/types/v2.ts:117-124 | code `CORRUPT_ARCHIVE`, source `{ url }`, message ending with the URL |
| Types.PathNotFound | src/types/v2.ts:126-132 | code `PATH_NOT_FOUND`, source `{ path }`, no cause, message ending with the path |
| Types.FetchCodesDistinct | src/types/v2.ts:90-132 | the five fetch factories give five different codes |
| Types.FileTooBig | src/types/v2.ts:153-159 | code `FILE_TOO_BIG`, the file path kept, message ending with the limit |
| Types.BinaryAsText | src/types/v2.ts:161-167 | code `BINARY_AS_TEXT` with the file path |
| Types.EmptyRepository | src/types/v2.ts:169-174 | code `EMPTY_REPOSITORY`, no file path |
| Types.InvalidEncoding | src/types/v2.ts:176-183 | code `INVALID_ENCODING`, the file path kept, message ending with it |
| Types.ProcessCodesDistinct | src/types/v2.ts:153-183 | the four process factories give four different codes |
| FileTypes.GetBinaryFileType | src/utils/file-types.ts:52-53 | the result is one of the eleven descriptions, and it is the generic one exactly when the lower-cased extension is not one of the type table's own keys (inherited object names are treated as absent, see Left out) |
| FileTypes.GetBinaryFileTypeIgnoresCase | src/utils/file-types.ts:52-53 | spellings that lower-case alike get the same description |
| FileTypes.LanguageOf | src/utils/file-types.ts:18-27 | exact-case lookup among the table's own keys; empty exactly for extensions that are not such a key (inherited object names are treated as absent, see Left out) |
| FileTypes.TableKeysWellFormed | src/utils/file-types.ts:1-50 | every key of the three tables is a dot followed by lower-case text |
| FileTypes.TypeMapCoversBinaries | src/utils/file-types.ts:29-50 | only binary extensions have a description |
| FileTypes.LanguagesAreText | src/utils/file-types.ts:1-27 | no extension with a fence language is binary |
| FileTypes.UndescribedBinaries | src/utils/file-types.ts:52-53 | `.tiff`, `.exe`, `.dll`, `.so` and `.dylib` in any case are binary and get the generic description |
| Strings.Trim | src/utils/gitignore.ts:16 | `trim()`: the result is no longer than the input, has no whitespace at either end, empty exactly for an all-whitespace input, and unchanged for an already trimmed input |
| Strings.Split | src/utils/gitignore.ts:15 | `split(c)`: one more part than separators, no part holds the separator, and joining the parts gives the input back |
| Strings.SplitAppend | src/utils/gitignore.ts:15 | splitting `a + sep + b` gives the parts of `a`, then those of `b` |
| Strings.ToLowerIdempotent | src/v2-core.ts:188 | lower-casing twice equals lower-casing once, and the result is lower case |
| Strings.Extname | src/v2-core.ts:188 | `path.extname`: empty, or a dot followed by no dot and no slash |
| Strings.ExtnameOfName | src/v2-core.ts:188 | `path.extname(dir/base.x)` is `.x` |
| Strings.Dirname | dist/utils/gitignore.js:33 | `path.dirname` returns its argument or something strictly closer to the root, and an absolute path stays absolute |
| Strings.DirnameOfChild | dist/utils/gitignore.js:39 | the parent of `d/name` is `d`, and the parent of `/name` is `/` |
| Gitignore.Expand | src/utils/gitignore.ts:18 | a trailing `/` gets `**` appended; any other pattern is unchanged |
| Gitignore.LinePattern | src/utils/gitignore.ts:16-18 | a line gives a pattern exactly when, once trimmed, it is non-empty and not a `#` comment |
| Gitignore.ParsePatterns | src/utils/gitignore.ts:14-18 | at most one pattern per line, each a kept, trimmed, expanded line |
| Gitignore.ParsePatternsAppend | src/utils/gitignore.ts:14-18 | the patterns of `a\nb` are those of `a` followed by those of `b` |
| Gitignore.ParseOneLine | src/utils/gitignore.ts:14-18 | a single line parses to its expanded trimmed self or to nothing |
| Gitignore.ParseTwoPatternLines | src/utils/gitignore.ts:14-18 | two pattern lines parse to those two patterns, in order |
| Gitignore.GetGitignorePatterns | src/utils/gitignore.ts:11-21 | an unreadable `.gitignore` gives no patterns; a readable one gives the trimmed, expanded non-comment lines of its text, in order (`ParsePatterns`) |
| Gitignore.DefaultsWellFormed | src/utils/gitignore.ts:3-9 | five distinct defaults |
| GitignoreDist.ReadGitignoreFile | dist/utils/gitignore.js:12-24 | an unreadable file gives none, a readable one its parsed patterns |
| GitignoreDist.DefaultsExtendLibraryDefaults | dist/utils/gitignore.js:3-11 | the seven defaults are version 2's five with `package-lock.json` and `.DS_Store` after the first |
| GitignoreDist.Ancestors | dist/utils/gitignore.js:32-40 | the directories the loop visits: each the `dirname` of the previous one and different from it, ending at the fixed point |
| GitignoreDist.AncestorsOfTwoLevels | dist/utils/gitignore.js:32-40 | from `/a/b` the loop visits `/a` and then `/` |
| GitignoreDist.AncestorPatternsInVisitOrder | dist/utils/gitignore.js:31-40 | the parent patterns are the patterns of the visited directories, concatenated in visiting order |
| GitignoreDist.CollectParentPatterns | dist/utils/gitignore.js:31-40 | the `while (parentDir !== currentDir)` loop collects exactly the ancestor walk's patterns |
| GitignoreDist.GetGitignorePatterns | dist/utils/gitignore.js:25-50 | the method equals the specification: own patterns, then parent patterns, deduplicated, then a leading `/` stripped |
| GitignoreDist.ProjectPatternsFirst | dist/utils/gitignore.js:42 | the deduplicated list has no repeats and starts with the project's own deduplicated patterns |
| GitignoreDist.GitignorePatternsMembers | dist/utils/gitignore.js:42-49 | a pattern is in the result exactly when some collected pattern strips to it |
| GitignoreDist.StripAfterDedupRepeats | dist/utils/gitignore.js:42-49 | a `.gitignore` with lines `/a` and `a` yields `a` twice, because stripping comes after deduplication |
| GitHub.ParseGitHubUrl | src/v2-core.ts:39-64 | a failure is the `INVALID_URL` error for the URL; on success the owner is non-empty and slash-free, the repo and any ref are slash-free, and the SSH form has no ref |
| GitHub.ParsedUrlShape | src/v2-core.ts:39-64 | a URL parses only when it is one of the three prefixes, the owner, `/`, a slash-free repo segment and nothing or a rest starting with `/`; the repo is that segment minus `.git`; a ref is read only from a web URL's `/tree/` or `/blob/` rest, and a web URL with such a rest always gives one |
| GitHub.WebUrlWithRef | src/v2-core.ts:42-55 | `http(s)://github.com/o/r/tree/ref…` (or `/blob/`) parses to `o`, `r` minus one `.git`, and `ref` |
| GitHub.WebUrlWithoutRef | src/v2-core.ts:42-55 | `http(s)://github.com/o/r` parses to `o`, `r` minus `.git`, and no ref |
| GitHub.SshUrl | src/v2-core.ts:44-55 | `git@github.com:o/r…` parses to `o`, `r` minus `.git`, and never a ref |
| GitHub.ForeignUrlRejected | src/v2-core.ts:59-63 | a URL with none of the three prefixes is rejected with `INVALID_URL` |
| GitHub.StripGitSuffix | src/v2-core.ts:53 | exactly one trailing `.git` is removed |
| GitHub.FinalRef | src/v2-core.ts:250 | the source ref wins, then the parsed ref, then `HEAD`, an empty string counting as absent |
| GitHub.DownloadArchive | src/v2-core.ts:69-113 | 404 gives `REPOSITORY_NOT_FOUND`, another non-OK status `GITHUB_API_ERROR`, a thrown fetch or body read `DOWNLOAD_ERROR`, all with the archive URL; success carries the body and the header's SHA |
| GitHub.DownloadErrorCodes | src/v2-core.ts:79-111 | every download failure has one of those three codes |
| GitHub.CommitSha | src/v2-core.ts:97-99 | the SHA is `HEAD` or 7 to 40 lower-case hex digits |
| GitHub.CommitShaOfAttachment | src/v2-core.ts:97-99 | `attachment; filename=<name>-<sha>.zip` yields `<sha>` for any one-line name, even when the name holds dashes |
| Archive.ZipError | src/v2-core.ts:123-138 | ZIP failures have code `ZIP_EXTRACTION_ERROR` and source `{ url: 'buffer' }` |
| Archive.Classify | src/v2-core.ts:186-196 | a file is binary exactly when its lower-cased extension is; binaries keep their bytes, text is decoded |
| Archive.Step | src/v2-core.ts:146-210 | one entry: it fails exactly when the reader reports an error or a file entry that survives the cut cannot be opened or streamed, with the ZIP code; an emitted file has a non-empty path; a known root never changes |
| Archive.OnEntry | src/v2-core.ts:146-210 | the entry handler equals `Step` |
| Archive.ExtractZipToFiles | src/v2-core.ts:118-226 | a buffer that does not open as an archive fails; a failure is a ZIP error; every extracted file has a non-empty path and is classified by its extension |
| Archive.WalkFailsAt | src/v2-core.ts:146-217 | after entries the handler accepts (directories, cut-away names, files with data), the first entry it rejects makes the walk fail with that entry's error |
| Archive.ExtractFailsAt | src/v2-core.ts:118-217 | an archive's first rejected entry rejects the extraction with that entry's error |
| Archive.ExtractZip | src/v2-core.ts:118-226 | the entry loop equals `ExtractZipToFiles` |
| Archive.WrappedArchive | src/v2-core.ts:153-162 | for GitHub's `root/…` layout, every file is its name with `root/` removed, in archive order, directories skipped |
| Archive.FixedLengthCut | src/v2-core.ts:160-162 | after the first file fixes the root, every later name loses exactly `|root| + 1` characters, whatever its prefix |
| Acquire.GetRepoDataFromGitHub | src/v2-core.ts:245-295 | a parse error, a download error and an extraction error are each returned unchanged; on success the metadata is the GitHub kind with the final ref and SHA, and the files are the extracted files the defaults do not ignore |
| Acquire.GitHubFilesFiltered | src/v2-core.ts:271-275 | the kept files are an ordered subsequence of the extracted ones: none ignored, every non-ignored one present |
| Acquire.GitHubErrorCodes | src/v2-core.ts:245-295 | a failure has one of the five codes of the parser, the download and the extraction |
| Acquire.GlobMatches | src/v2-core.ts:333-336 | the glob keeps, in order, exactly the listed names whose last segment has a dot |
| Acquire.LocalIgnoreListShape | src/v2-core.ts:321-326 | the ignore list starts with the five defaults, has no repeats, and holds exactly the defaults and the `.gitignore` patterns |
| Acquire.LocalFile | src/v2-core.ts:344-372 | a record exists exactly when the path is a regular file that can be read, as bytes for a binary extension and as text otherwise; it has its relative path, is classified by its extension, and holds what was read |
| Acquire.LocalFilesSound | src/v2-core.ts:338-376 | every collected file comes from a listed, non-ignored, regular file and is the record made for its path |
| Acquire.LocalFilesComplete | src/v2-core.ts:338-376 | every non-ignored match that gives a record is collected |
| Acquire.SkippedMatch | src/v2-core.ts:341-375 | an ignored match, or one whose `stat` throws, contributes nothing |
| Acquire.LocalFilesAppend | src/v2-core.ts:338-376 | the files of `a + b` are those of `a` followed by those of `b` |
| Acquire.LocalRepoData | src/v2-core.ts:300-397 | `PATH_NOT_FOUND` exactly when the root is not a directory; `FILESYSTEM_ERROR` when the glob fails; otherwise local metadata with the resolved path, and the files collected from the glob's matches under the defaults and the `.gitignore` patterns |
| Acquire.CollectFiles | src/v2-core.ts:338-376 | the loop collects exactly the specified files and visits exactly the non-ignored matches |
| Acquire.GetRepoDataFromLocal | src/v2-core.ts:300-397 | the method equals `LocalRepoData`, and no ignored path is ever read |
| Acquire.GetRepoData | src/v2-core.ts:232-240 | a URL source takes the GitHub path and a path source the local one; the metadata kind matches the source |
| Process.NormalizePattern | src/v2-core.ts:422-436 | the result is anchored (`**/` or `/`); it equals the input exactly for an anchored file pattern; an unanchored file pattern gets `**/` in front; `p/` becomes `**/p/**` and any other directory name `p` becomes `**/p/**` |
| Process.NormalizePatternShape | src/v2-core.ts:422-436 | the result is the input with at most `**/` before it and `**` or `/**` after it |
| Process.NormalizeFilePatternStable | src/v2-core.ts:422-436 | normalising a file pattern twice is normalising it once |
| Process.PiecePattern | src/v2-core.ts:420-421 | a piece gives one anchored pattern exactly when it trims to something |
| Process.CustomPatterns | src/v2-core.ts:418-436 | at most one anchored pattern per comma-separated piece |
| Process.CustomPatternsAppend | src/v2-core.ts:418-436 | the patterns of `a,b` are those of `a` followed by those of `b` |
| Process.CustomFiltered | src/v2-core.ts:415-442 | an empty option string changes nothing; otherwise the result is an ordered subsequence in which no file matches and every non-matching file appears |
| Process.Contribution | src/v2-core.ts:457-470 | a text file is kept as is; a binary becomes one text record with the same path and extension when binaries are included, and nothing otherwise |
| Process.KeptWithoutBinaries | src/v2-core.ts:457-470 | without `includeBin` the result is exactly the text files, in order |
| Process.KeptWithBinaries | src/v2-core.ts:457-470 | with `includeBin` every file is kept in place, binaries described |
| Process.KeptFilesAreText | src/v2-core.ts:457-470 | every kept file is a text record |
| Process.KeptEmpty | src/v2-core.ts:473-475 | nothing is kept exactly when every file is binary and binaries are excluded |
| Process.ProcessedFiles | src/v2-core.ts:447-471 | success exactly when no file exceeds the limit; a failure names the first file strictly over it; success gives the kept files |
| Process.FirstOversizedAt | src/v2-core.ts:453-455 | the first file over the limit is the one the loop throws for |
| Process.ProcessFiles | src/v2-core.ts:447-471 | the loop equals `ProcessedFiles` |
| Process.CalculateStats | src/v2-core.ts:577-601 | the loop equals the statistics function |
| Process.StatsTotals | src/v2-core.ts:577-601 | file-type counts add up to the file count, language counts at most to it, every language is a table value, there are at least as many lines as files, and the binary count is bounded by all files |
| Process.FileTypeCounts | src/v2-core.ts:592 | an extension is counted exactly when some processed file has it, and its count is its number of occurrences |
| Process.FindPackageFile | src/v2-core.ts:617 | no file exactly when no path is `package.json`; otherwise a file with that path |
| Process.FindFirstPackageFile | src/v2-core.ts:617 | the file found is the first one named `package.json` |
| Process.RepoName | src/v2-core.ts:620-622 | `owner/repo` for GitHub; for a local repository a `null` package throws the TypeError, a non-empty string name is used, and otherwise the base name of the path, or of the working directory when the path is empty |
| Process.GenerateHeader | src/v2-core.ts:615-648 | a header starts with `---` and a newline and ends with `---` and a blank line |
| Process.HeaderOutcome | src/v2-core.ts:615-648 | the header fails exactly when `package.json` does not parse, a local repository's package is `null`, or a path starts with `/`; a parse error comes first and the stack overflow last; a success wraps the YAML of the name and the rendered tree |
| Process.GitHubHeaderName | src/v2-core.ts:620-625 | a GitHub repository's header is named `owner/repo` whatever `package.json` holds, once it parses |
| Process.Flatrepo | src/v2-core.ts:403-493 | the method equals the specification; its own errors are only `FILE_TOO_BIG` and `EMPTY_REPOSITORY`, and any other rejection is the error `generateHeader` throws on the processed files |
| Process.FlatrepoOutcome | src/v2-core.ts:403-493 | `FILE_TOO_BIG` exactly when a remaining file is over the limit; `EMPTY_REPOSITORY` exactly when all fit and all are binaries that are excluded; a header error exactly when neither happened and `generateHeader` throws; on success the markdown starts with the header |
| Render.FormatFileContent | src/v2-core.ts:653-661 | the block starts with the path line and the opening fence, holds the content unchanged, has a newline before the closing fence, and ends with the `EOF` line |
| Render.NewlineAdded | src/v2-core.ts:658 | a content without a final newline renders like the same content with one |
| Render.FormatInjective | src/v2-core.ts:653-661 | contents ending in a newline render differently when they differ |
| Render.GenerateMarkdown | src/v2-core.ts:606-610 | the header comes first; no block leaves only the header |
| Render.MarkdownAppend | src/v2-core.ts:606-610 | the blocks follow the header in order |
| Tree.BuildStructure | src/v2-core.ts:500-523 | the loops build the specified structure |
| Tree.AddPath | src/v2-core.ts:504-522 | one path adds its directory entries and its file entry |
| Tree.StructureMembers | src/v2-core.ts:500-523 | each directory's items have no repeats, and an item is under a parent exactly when some path contributes that entry |
| Tree.AddAllContents | src/v2-core.ts:511-522 | each directory's items are its entries' items, deduplicated in order of first insertion |
| Tree.SortStructure | src/v2-core.ts:525-536 | the loop sorts every directory's items and keeps the same directories |
| Tree.SortItemsSorted | src/v2-core.ts:527-534 | the sort gives directories first and `localeCompare` order within each kind |
| Tree.SortUnique | src/v2-core.ts:527-534 | two sorted permutations of the same items are equal |
| Tree.DirectoriesFirst | src/v2-core.ts:527-534 | after sorting, no directory follows a file, and items of the same kind are in order |
| Tree.SortedMembers | src/v2-core.ts:525-536 | sorting keeps exactly the same directories and items |
| Tree.BuildTree | src/v2-core.ts:539-567 | the recursion equals the tree-lines function |
| Tree.ItemBlockShape | src/v2-core.ts:547-563 | an item's block starts with its connector line; everything below it is indented one level |
| Tree.ChildConnectors | src/v2-core.ts:547-563 | a directory with `n` items has exactly one `└── ` and `n - 1` `├── ` lines at its own level |
| Tree.SubtreeEnds | src/v2-core.ts:539-567 | below the root, the recursion always ends |
| Tree.RootOverflow | src/v2-core.ts:559-563 | the recursion fails to end exactly when a root directory item names the root again, so descending into it never gets deeper |
| Tree.DirectoryTreeOverflow | src/v2-core.ts:498-572 | the tree is undefined (the recursion overflows the stack) exactly when some path starts with `/` |
| TreeRows.TreeLinesRows | src/v2-core.ts:539-567 | when the recursion ends, its lines are those of the rows: each the prefix, the connector and the display name of one entry |
| TreeRows.RowsVisit | src/v2-core.ts:539-567 | the rows show the entries the recursion visits, in visiting order, whatever the prefix |
| TreeRows.VisitedSound | src/v2-core.ts:539-567 | every shown entry is an item of its directory |
| TreeRows.VisitedOnce | src/v2-core.ts:539-567 | when no directory holds an item twice and each directory item names its sub-directory, no entry is shown twice |
| TreeRows.TidyStructure | src/v2-core.ts:500-536 | the map built from relative paths has both of those properties |
| TreeRows.EntryVisited | src/v2-core.ts:500-567 | every entry a relative path adds, each directory level and the file, is shown |
| TreeRows.TreeShowsEachEntryOnce | src/v2-core.ts:498-572 | for paths not starting with `/`, the tree is `.` and one line per distinct entry of the paths, each shown once with its prefix, connector and display name |
| Tree.GenerateDirectoryTree | src/v2-core.ts:498-572 | the method equals the specified tree |
| Tree.TreeStartsWithDot | src/v2-core.ts:570-571 | the tree starts with `.`, and for no files it is just `.` |
| Legacy.IgnoreList | dist/index.js:13-17 | the seven defaults, then the `.gitignore` patterns, then the output path, without deduplication |
| Legacy.IgnoreListKeepsRepeats | dist/index.js:13-17 | a `.gitignore` pattern that is also a default occurs at least twice |
| Legacy.FileRecord | dist/index.js:32-51 | a binary gives its description text only with `includeBin`, still flagged binary; a text file gives its content, or nothing when it cannot be read |
| Legacy.ProjectFile | dist/index.js:30-52 | only regular files give records |
| Legacy.ProjectFilesSound | dist/index.js:24-57 | every collected file comes from a listed match that is neither the output path nor ignored |
| Legacy.ProjectFilesComplete | dist/index.js:24-57 | every such match that gives a record is collected |
| Legacy.NoBinariesUnlessIncluded | dist/index.js:33-42 | without `includeBin` no binary is collected |
| Legacy.CollectProjectFiles | dist/index.js:24-57 | the loop collects exactly the specified files and only visits matches it does not skip |
| Legacy.GetProjectFiles | dist/index.js:10-63 | the method equals the specification; a failing glob gives "Error while finding files: …" |
| Legacy.CalculateStats | dist/index.js:64-80 | the loop equals the statistics function |
| Legacy.StatsTotals | dist/index.js:64-80 | file-type counts add up to the file count, language counts at most to it, and there are at least as many lines as files |
| Legacy.DocsResult | dist/index.js:115-130 | every failure carries the prefix; a glob failure gives the prefixed message; success means the header rendered, the markdown starts with it, and the write succeeded |
| Legacy.GenerateDocs | dist/index.js:115-130 | the method equals `DocsResult` |
| Counts.TallyCounts | src/v2-core.ts:592-597 | each key's count is its number of occurrences |
| Counts.TallySum | src/v2-core.ts:592-597 | the counts add up to the number of keys counted |
| Seqs.FilterAppend | src/v2-core.ts:273-275 | filtering distributes over concatenation |
| Seqs.FilterIdempotent | src/v2-core.ts:273-275 | filtering twice with the same test is filtering once |
| Seqs.DedupPrefix | src/v2-core.ts:322-326 | deduplicating `a + b` starts with the deduplication of `a` |

## Left out

- I/O is a parameter of the model. This covers `fetch`, `yauzl`, `fs.stat`,
  `fs.readFile`, `fs.writeFile`, `glob`, `process.cwd()` and `new Date()`.
  The model does not describe how these behave.
- Concurrency and the order in which asynchronous callbacks run are not
  modelled. The ZIP entries are processed one at a time, in archive order,
  as `lazyEntries` makes them.
- `shouldIgnoreFile` is not part of this model. It is a parameter, and no
  matching semantics are assumed for it.
- Legacy.HeaderWriter: the v1 `generateHeader` of dist/index.js:81-97 is
  wholly a parameter. Its `package.json` lookup, `JSON.parse`, fallback
  name, timestamp and `stringify` are not modelled; only its failure is
  passed on.
- Process.CalculateStats: the statistics' `fileTypes` and `languages` are
  maps. The source builds JavaScript objects, whose keys keep their first
  insertion order, and `stringify` prints them in that order. That key
  order is not modelled; the same holds for Legacy.CalculateStats.
- FileTypes.GetBinaryFileType: the source's type table is a plain
  JavaScript object, so a lower-cased extension that names an inherited
  member such as `constructor`, `toString` or `__proto__` finds that member
  instead of the generic description. The model looks up own keys only and
  gives the generic description there. Every key of the table starts with a
  dot (FileTypes.TableKeysWellFormed) and none of those inherited names
  does; both acquisition paths take extensions from Strings.Extname, which
  gives "" or a dot-led text, so only a hand-built file record or a direct
  call reaches the difference.
- FileTypes.LanguageOf: the same holds for `EXTENSION_TO_LANGUAGE` at
  src/v2-core.ts:594 and 654 and dist/index.js:8. An inherited name finds
  an object member instead of the empty string; the model gives "".
- Process.CalculateStats: the `fileTypes` and `languages` counters are
  plain objects too. For an extension such as `constructor` the source
  reads an inherited member as the old count and stores a text rather than
  a number; the model counts it from zero like any other key. The same
  holds for Legacy.CalculateStats. As above, no extension produced by the
  acquisition paths is such a name.
- The v2 `generateHeader` of src/v2-core.ts is modelled up to two parameters. `JSON.parse` is a
  parameter and so is the YAML `stringify`. The fields of the header
  object, such as the tool string "FlatRepo v2.1.1" and the timestamp, are
  left to `stringify`'s parameter.
- Process.RepoName: of the parsed `package.json` only `null` and a string
  `name` are told apart. A truthy `name` that is not a string (a number, an
  object) is used by the source; the model treats it as missing.
- Process.ProcessedFiles: `maxBytesPerFile` is modelled as an integer.
  JavaScript also accepts a fractional limit, `Infinity` and `NaN`. With
  `NaN` no comparison holds, so `FILE_TOO_BIG` is never raised. None of
  these is modelled.
- `localeCompare` is a parameter that is assumed to be a total order.
- `toLowerCase` is modelled for ASCII letters only.
- `.length` counts characters (Unicode scalar values), not UTF-16 code
  units.
- `path.relative`, `path.resolve` and `path.join` are left out. The local
  listing is given as relative paths. The resolved root is an input.
- Verbose logging and the warnings of the collection loops are left out.
  The unused `timeoutMs` and `encoding` options are not modelled.
- The CLI entry points (`src/cli.ts`, `dist/cli.js`, `src/index.ts`) are not
  part of this model.
- The "An unknown error occurred" branch of `generateDocs` is left out. It
  handles a thrown non-`Error` value, which the modelled code never throws.
- `dist/utils/file-types.js` is not part of this model. `src/utils/file-types.ts`
  stands in for it.
- Process.Flatrepo: requires that every file flagged as text holds text.
  The source casts the content to a string and would crash otherwise.
  Both acquisition paths guarantee this.
- TreeRows.TreeShowsEachEntryOnce: requires that no path starts with `/`.
  For such a path the source throws and there is no tree to describe
  (Tree.DirectoryTreeOverflow).
- Tree.DirectoryTreeOverflow: a path starting with `/` makes `buildTree`
  call itself on the root again and again, with a longer prefix each time,
  until the stack overflows. The RangeError leaves `generateDirectoryTree`
  before anything is returned. The model gives `None`, which the header and
  `flatrepo` pass on as that error. The depth at which the stack runs out is
  not modelled.
