/**
 * `extractZipToFiles`: the entry-by-entry walk over a GitHub zip archive that
 * drops directory entries, learns the name of the wrapper directory from the
 * first file, cuts that many characters (plus the slash) off every name, and
 * classifies each file as binary or text by its extension.
 */
module Archive {
  import opened Wrappers
  import opened Strings
  import opened Types
  import FileTypes

  /** What reading one entry's data gives: its bytes, or a failure to open
      the stream, or a failure while streaming. */
  datatype EntryData = Data(bytes: seq<byte>) | OpenFails(message: string) | StreamFails(message: string)

  /** One step of the archive reader: the next entry, or an error the reader
      itself reports. */
  datatype ZipItem = Entry(fileName: string, data: EntryData) | Broken(message: string)

  /** The outcome of opening the buffer as an archive. */
  datatype ZipArchive = Unreadable(message: string) | NoZipFile | Archive(items: seq<ZipItem>)

  /** UTF-8 decoding of a text file's bytes. */
  type Decoder = seq<byte> -> string

  function ZipError(message: string, cause: Option<string>): (e: FetchError)
    ensures e.code == "ZIP_EXTRACTION_ERROR" && e.source == UrlSource("buffer")
  {
    FetchError(message, "ZIP_EXTRACTION_ERROR", UrlSource("buffer"), cause)
  }

  predicate IsDirectoryEntry(name: string) {
    EndsWith(name, "/")
  }

  /** `rootDirName` after a file entry: kept once set, otherwise the text
      before the entry's first slash when that slash is not at index 0. */
  function NextRoot(root: string, name: string): (r: string)
    ensures root != "" ==> r == root
  {
    if root != "" then root
    else
      var i := IndexOf(name, '/');
      if i > 0 then name[..i] else ""
  }

  /** The entry name without its first `|root| + 1` characters, whatever they
      are; the whole name while no root is known. */
  function RelativePath(root: string, name: string): (r: string)
    ensures root != "" && |root| + 1 <= |name| ==> r == name[|root| + 1..]
    ensures root != "" && |root| + 1 > |name| ==> r == ""
    ensures root == "" ==> r == name
  {
    if root != "" then Substring(name, |root| + 1) else name
  }

  /** A file record as the walk builds it: lower-cased extension, binary
      exactly for a binary extension, bytes for binary and decoded text
      otherwise. */
  function Classify(path: string, bytes: seq<byte>, decode: Decoder): (f: FileData)
    ensures f.path == path && WellClassified(f)
    ensures f.isBinary ==> f.content == Bytes(bytes)
    ensures !f.isBinary ==> f.content == Text(decode(bytes))
  {
    var ext := ToLower(Extname(path));
    var isBinary := FileTypes.IsBinaryExtension(ext);
    FileData(path, if isBinary then Bytes(bytes) else Text(decode(bytes)), isBinary, ext)
  }

  predicate WellClassified(f: FileData) {
    && f.extension == ToLower(Extname(f.path))
    && (f.isBinary <==> FileTypes.IsBinaryExtension(f.extension))
    && (f.isBinary <==> f.content.Bytes?)
  }

  /** The handler of one archive entry: the new `rootDirName` and the file it
      emits, if any, or the error that rejects the extraction. */
  function Step(root: string, item: ZipItem, decode: Decoder): (r: Result<(string, Option<FileData>), FetchError>)
    ensures r.Failure? ==> r.error.code == "ZIP_EXTRACTION_ERROR" && r.error.source == UrlSource("buffer")
    ensures r.Success? && r.value.1.Some? ==> r.value.1.value.path != "" && WellClassified(r.value.1.value)
    ensures r.Success? && root != "" ==> r.value.0 == root
    ensures r.Success? ==> r.value.0 == RootAfterItem(root, item)
    ensures r.Failure? <==> Rejects(root, item)
  {
    match item
    case Broken(msg) => Failure(ZipError("ZIP extraction failed: " + msg, Some(msg)))
    case Entry(name, data) => EntryStep(root, name, data, decode)
  }

  /** The handler of an entry the reader delivered. */
  function EntryStep(root: string, name: string, data: EntryData, decode: Decoder)
    : (r: Result<(string, Option<FileData>), FetchError>)
    ensures r.Failure? ==> r.error.code == "ZIP_EXTRACTION_ERROR" && r.error.source == UrlSource("buffer")
    ensures r.Success? && r.value.1.Some? ==> r.value.1.value.path != "" && WellClassified(r.value.1.value)
    ensures r.Success? ==> r.value.0 == RootAfterItem(root, Entry(name, data))
    ensures r.Failure? <==> Rejects(root, Entry(name, data))
  {
    if IsDirectoryEntry(name) then Success((root, None))
    else
      var root' := NextRoot(root, name);
      var rel := RelativePath(root', name);
      if rel == "" then Success((root', None))
      else
        match data
        case OpenFails(m) => Failure(ZipError("Failed to read file " + name + ": " + m, Some(m)))
        case StreamFails(m) => Failure(ZipError("Failed to read file content " + name + ": " + m, Some(m)))
        case Data(b) => Success((root', Some(Classify(rel, b, decode))))
  }

  /** The item is a file entry that survives the cut, so its data is read. */
  predicate StepReads(root: string, item: ZipItem) {
    && item.Entry? && !IsDirectoryEntry(item.fileName)
    && RelativePath(NextRoot(root, item.fileName), item.fileName) != ""
  }

  /** The handler rejects `item`: the reader reported an error, or the entry's
      stream cannot be opened or fails. */
  predicate Rejects(root: string, item: ZipItem) {
    item.Broken? || (StepReads(root, item) && !item.data.Data?)
  }

  /** `rootDirName` after the handler has seen `item`. */
  function RootAfterItem(root: string, item: ZipItem): string {
    if item.Entry? && !IsDirectoryEntry(item.fileName) then NextRoot(root, item.fileName) else root
  }

  /** `rootDirName` after the handler has seen every item of `items`. */
  function RootAfter(items: seq<ZipItem>, root: string): string
    decreases |items|
  {
    if |items| == 0 then root else RootAfter(items[1..], RootAfterItem(root, items[0]))
  }

  /** The walk from the current entry on, with the current `rootDirName`: the
      files in entry order, or the first error. */
  function Walk(items: seq<ZipItem>, root: string, decode: Decoder): (r: Result<seq<FileData>, FetchError>)
    ensures r.Failure? ==> r.error.code == "ZIP_EXTRACTION_ERROR" && r.error.source == UrlSource("buffer")
    ensures r.Success? ==> |r.value| <= |items|
    ensures r.Success? ==> forall f | f in r.value :: f.path != "" && WellClassified(f)
    decreases |items|
  {
    if |items| == 0 then Success([])
    else
      match Step(root, items[0], decode)
      case Failure(e) => Failure(e)
      case Success((root', file)) =>
        match Walk(items[1..], root', decode)
        case Failure(e) => Failure(e)
        case Success(rest) => Success(OptionToSeq(file) + rest)
  }

  /** What `extractZipToFiles` resolves or rejects with. */
  function ExtractZipToFiles(archive: ZipArchive, decode: Decoder): (r: Result<seq<FileData>, FetchError>)
    ensures r.Failure? ==> r.error.code == "ZIP_EXTRACTION_ERROR" && r.error.source == UrlSource("buffer")
    ensures r.Success? ==> forall f | f in r.value :: f.path != "" && WellClassified(f)
    ensures !archive.Archive? ==> r.Failure?
  {
    match archive
    case Unreadable(m) => Failure(ZipError("Failed to read ZIP file: " + m, Some(m)))
    case NoZipFile => Failure(ZipError("ZIP file is empty or corrupted", None))
    case Archive(items) => Walk(items, "", decode)
  }

  function Prepend(files: seq<FileData>, r: Result<seq<FileData>, FetchError>): Result<seq<FileData>, FetchError> {
    match r
    case Success(rest) => Success(files + rest)
    case Failure(e) => Failure(e)
  }

  lemma WalkUnfold(items: seq<ZipItem>, i: nat, root: string, decode: Decoder)
    requires i < |items|
    ensures Walk(items[i..], root, decode) ==
      match Step(root, items[i], decode)
      case Failure(e) => Failure(e)
      case Success((root', file)) => Prepend(OptionToSeq(file), Walk(items[i + 1..], root', decode))
  {
    assert items[i..][0] == items[i];
    assert items[i..][1..] == items[i + 1..];
  }

  lemma PrependNothing(r: Result<seq<FileData>, FetchError>)
    ensures Prepend([], r) == r
  {
    if r.Success? {
      assert [] + r.value == r.value;
    }
  }

  lemma PrependAssoc(a: seq<FileData>, b: seq<FileData>, r: Result<seq<FileData>, FetchError>)
    ensures Prepend(a, Prepend(b, r)) == Prepend(a + b, r)
  {
    if r.Success? {
      assert a + (b + r.value) == (a + b) + r.value;
    }
  }

  /** The `entry` handler: skip a directory, learn the root from the first
      file, cut it off, skip an empty remainder, and read the entry's data. */
  method OnEntry(rootDirName: string, item: ZipItem, decode: Decoder)
    returns (r: Result<(string, Option<FileData>), FetchError>)
    ensures r == Step(rootDirName, item, decode)
  {
    if item.Broken? {
      return Failure(ZipError("ZIP extraction failed: " + item.message, Some(item.message)));
    }
    var name := item.fileName;
    if IsDirectoryEntry(name) {
      return Success((rootDirName, None));
    }
    var root := rootDirName;
    if root == "" {
      var firstSlash := IndexOf(name, '/');
      root := if firstSlash > 0 then name[..firstSlash] else "";
    }
    assert root == NextRoot(rootDirName, name);
    var relativePath := if root != "" then Substring(name, |root| + 1) else name;
    assert relativePath == RelativePath(root, name);
    if relativePath == "" {
      return Success((root, None));
    }
    match item.data {
      case OpenFails(m) =>
        return Failure(ZipError("Failed to read file " + name + ": " + m, Some(m)));
      case StreamFails(m) =>
        return Failure(ZipError("Failed to read file content " + name + ": " + m, Some(m)));
      case Data(b) =>
        return Success((root, Some(Classify(relativePath, b, decode))));
    }
  }

  /** The extraction as the handlers run it: entry after entry, a mutable
      `rootDirName`, and `files` pushed in entry order; the first error
      rejects. */
  method ExtractZip(archive: ZipArchive, decode: Decoder) returns (r: Result<seq<FileData>, FetchError>)
    ensures r == ExtractZipToFiles(archive, decode)
  {
    match archive {
      case Unreadable(m) =>
        return Failure(ZipError("Failed to read ZIP file: " + m, Some(m)));
      case NoZipFile =>
        return Failure(ZipError("ZIP file is empty or corrupted", None));
      case Archive(items) =>
        var files: seq<FileData> := [];
        var rootDirName := "";
        var i := 0;
        assert items[0..] == items;
        PrependNothing(Walk(items, "", decode));
        while i < |items|
          invariant 0 <= i <= |items|
          invariant Walk(items, "", decode) == Prepend(files, Walk(items[i..], rootDirName, decode))
        {
          WalkUnfold(items, i, rootDirName, decode);
          var step := OnEntry(rootDirName, items[i], decode);
          if step.Failure? {
            return Failure(step.error);
          }
          var file := OptionToSeq(step.value.1);
          PrependAssoc(files, file, Walk(items[i + 1..], step.value.0, decode));
          files := files + file;
          rootDirName := step.value.0;
          i := i + 1;
        }
        assert items[i..] == [];
        assert Walk(items[i..], rootDirName, decode) == Success([]);
        assert files + [] == files;
        return Success(files);
    }
  }

  // ---------------------------------------------------------------- properties

  /** Reference for a wrapped archive: every non-directory entry long enough
      to keep a name, with its first `cut` characters removed, in order. */
  function StrippedFiles(cut: nat, items: seq<ZipItem>, decode: Decoder): seq<FileData> {
    if |items| == 0 then []
    else
      var rest := StrippedFiles(cut, items[1..], decode);
      match items[0]
      case Entry(name, Data(b)) =>
        if !IsDirectoryEntry(name) && |name| > cut then [Classify(name[cut..], b, decode)] + rest else rest
      case _ => rest
  }

  /** Every item is an entry whose data can be read. */
  predicate Readable(items: seq<ZipItem>) {
    forall i | 0 <= i < |items| :: items[i].Entry? && items[i].data.Data?
  }

  /** Every file entry is longer than `cut`. */
  predicate LongFileNames(items: seq<ZipItem>, cut: nat)
    requires Readable(items)
  {
    forall i | 0 <= i < |items| :: !IsDirectoryEntry(items[i].fileName) ==> |items[i].fileName| > cut
  }

  lemma ReadableTail(items: seq<ZipItem>, cut: nat)
    requires |items| > 0 && Readable(items) && LongFileNames(items, cut)
    ensures Readable(items[1..]) && LongFileNames(items[1..], cut)
  {
    forall i | 0 <= i < |items[1..]| ensures items[1..][i] == items[i + 1] { }
  }

  /** With a known root, a readable entry keeps the root and emits its name
      minus `|root| + 1` characters, unless it is a directory. */
  lemma StepWithKnownRoot(root: string, name: string, b: seq<byte>, decode: Decoder)
    requires root != "" && (IsDirectoryEntry(name) || |name| > |root| + 1)
    ensures Step(root, Entry(name, Data(b)), decode) ==
      Success((root, if IsDirectoryEntry(name) then None else Some(Classify(name[|root| + 1..], b, decode))))
  {
    if !IsDirectoryEntry(name) {
      assert NextRoot(root, name) == root;
      var rel := RelativePath(root, name);
      assert rel == name[|root| + 1..] && rel != "";
    }
  }

  lemma StrippedFilesUnfold(cut: nat, items: seq<ZipItem>, decode: Decoder)
    requires |items| > 0 && items[0].Entry? && items[0].data.Data?
    requires IsDirectoryEntry(items[0].fileName) || |items[0].fileName| > cut
    ensures StrippedFiles(cut, items, decode) ==
      (if IsDirectoryEntry(items[0].fileName) then []
       else [Classify(items[0].fileName[cut..], items[0].data.bytes, decode)]) + StrippedFiles(cut, items[1..], decode)
  {
  }

  /** Once the root is known, each file keeps its name minus exactly
      `|root| + 1` characters, whether or not the name starts with the
      root. */
  lemma {:induction false} WalkWithKnownRoot(items: seq<ZipItem>, root: string, decode: Decoder)
    requires root != ""
    requires Readable(items) && LongFileNames(items, |root| + 1)
    ensures Walk(items, root, decode) == Success(StrippedFiles(|root| + 1, items, decode))
  {
    if |items| > 0 {
      ReadableTail(items, |root| + 1);
      WalkWithKnownRoot(items[1..], root, decode);
      var name, b := items[0].fileName, items[0].data.bytes;
      assert items[0] == Entry(name, Data(b));
      StepWithKnownRoot(root, name, b, decode);
      StrippedFilesUnfold(|root| + 1, items, decode);
      WalkUnfold(items, 0, root, decode);
      assert items[0..] == items && items[1..] == items[0 + 1..];
    }
  }

  /** A GitHub-shaped archive: a wrapper directory `root` with every entry
      below it. The files are the entries' names below the wrapper, in
      order, and no directory entry produces a file. */
  lemma WrappedArchive(root: string, items: seq<ZipItem>, decode: Decoder)
    requires root != "" && '/' !in root
    requires Readable(items) && LongFileNames(items, |root| + 1)
    requires forall i | 0 <= i < |items| :: root + "/" <= items[i].fileName
    ensures ExtractZipToFiles(Archive(items), decode) == Success(StrippedFiles(|root| + 1, items, decode))
  {
    LeadingDirectories(root, items, decode);
  }

  /** The walk skips leading directory entries with no root, learns the root
      from the first file, and then strips with it. */
  lemma {:induction false} LeadingDirectories(root: string, items: seq<ZipItem>, decode: Decoder)
    requires root != "" && '/' !in root
    requires Readable(items) && LongFileNames(items, |root| + 1)
    requires forall i | 0 <= i < |items| :: root + "/" <= items[i].fileName
    ensures Walk(items, "", decode) == Success(StrippedFiles(|root| + 1, items, decode))
  {
    if |items| > 0 {
      if IsDirectoryEntry(items[0].fileName) {
        LeadingDirectory(root, items, decode);
        assert forall i | 0 <= i < |items[1..]| :: items[1..][i] == items[i + 1];
        ReadableTail(items, |root| + 1);
        LeadingDirectories(root, items[1..], decode);
      } else {
        LeadingFile(root, items, decode);
      }
    }
  }

  /** A leading directory entry is skipped and leaves the root unknown. */
  lemma LeadingDirectory(root: string, items: seq<ZipItem>, decode: Decoder)
    requires |items| > 0 && Readable(items) && IsDirectoryEntry(items[0].fileName)
    ensures Walk(items, "", decode) == Walk(items[1..], "", decode)
    ensures StrippedFiles(|root| + 1, items, decode) == StrippedFiles(|root| + 1, items[1..], decode)
  {
    var name, b := items[0].fileName, items[0].data.bytes;
    assert items[0] == Entry(name, Data(b));
    StrippedFilesUnfold(|root| + 1, items, decode);
    WalkUnfold(items, 0, "", decode);
    assert items[0..] == items && items[1..] == items[0 + 1..];
    PrependNothing(Walk(items[1..], "", decode));
  }

  /** The first file entry fixes the root; the rest is cut by it. */
  lemma LeadingFile(root: string, items: seq<ZipItem>, decode: Decoder)
    requires root != "" && '/' !in root
    requires |items| > 0 && Readable(items) && LongFileNames(items, |root| + 1)
    requires !IsDirectoryEntry(items[0].fileName) && root + "/" <= items[0].fileName
    ensures Walk(items, "", decode) == Success(StrippedFiles(|root| + 1, items, decode))
  {
    var name, b := items[0].fileName, items[0].data.bytes;
    assert items[0] == Entry(name, Data(b));
    ReadableTail(items, |root| + 1);
    StrippedFilesUnfold(|root| + 1, items, decode);
    RootFromName(root, name);
    FirstFile(root, name, b, decode);
    WalkAfterRoot(items, root, Classify(name[|root| + 1..], b, decode), decode);
  }

  /** The first file entry sets the root and is cut by it. */
  lemma FirstFile(root: string, name: string, b: seq<byte>, decode: Decoder)
    requires root != "" && !IsDirectoryEntry(name) && |name| > |root| + 1
    requires NextRoot("", name) == root
    ensures Step("", Entry(name, Data(b)), decode) == Success((root, Some(Classify(name[|root| + 1..], b, decode))))
  {
  }

  /** The first slash of `root + "/" + ...` comes right after `root`. */
  lemma RootFromName(root: string, name: string)
    requires root != "" && '/' !in root
    requires root + "/" <= name
    ensures NextRoot("", name) == root
  {
    assert name[|root|] == '/';
    assert name[..|root|] == root;
    assert '/' !in name[..|root|];
  }

  /** The cut has a fixed length: after a first file `root/a`, a file of
      another top-level directory loses `|root| + 1` characters too (with
      root `r`, the entry `other/b.txt` gives `her/b.txt`). */
  lemma FixedLengthCut(root: string, a: string, b0: seq<byte>, more: seq<ZipItem>, decode: Decoder)
    requires root != "" && '/' !in root && a != "" && !IsDirectoryEntry(a)
    requires Readable(more) && LongFileNames(more, |root| + 1)
    ensures ExtractZipToFiles(Archive([Entry(root + "/" + a, Data(b0))] + more), decode)
      == Success([Classify(a, b0, decode)] + StrippedFiles(|root| + 1, more, decode))
  {
    var items := [Entry(root + "/" + a, Data(b0))] + more;
    assert items[0] == Entry(root + "/" + a, Data(b0)) && items[1..] == more;
    CutAfterFirst(root, a, b0, items, decode);
  }

  lemma CutAfterFirst(root: string, a: string, b0: seq<byte>, items: seq<ZipItem>, decode: Decoder)
    requires root != "" && '/' !in root && a != "" && !IsDirectoryEntry(a)
    requires |items| > 0 && items[0] == Entry(root + "/" + a, Data(b0))
    requires Readable(items[1..]) && LongFileNames(items[1..], |root| + 1)
    ensures ExtractZipToFiles(Archive(items), decode)
      == Success([Classify(a, b0, decode)] + StrippedFiles(|root| + 1, items[1..], decode))
  {
    FirstWrappedFile(root, a, b0, decode);
    WalkAfterRoot(items, root, Classify(a, b0, decode), decode);
    ExtractIsWalk(items, decode);
  }

  lemma ExtractIsWalk(items: seq<ZipItem>, decode: Decoder)
    ensures ExtractZipToFiles(Archive(items), decode) == Walk(items, "", decode)
  {
  }

  /** Once the first item has fixed the root and given file `f`, the rest is
      cut by the root's length. */
  lemma WalkAfterRoot(items: seq<ZipItem>, root: string, f: FileData, decode: Decoder)
    requires |items| > 0 && root != ""
    requires Step("", items[0], decode) == Success((root, Some(f)))
    requires Readable(items[1..]) && LongFileNames(items[1..], |root| + 1)
    ensures Walk(items, "", decode) == Success([f] + StrippedFiles(|root| + 1, items[1..], decode))
  {
    WalkWithKnownRoot(items[1..], root, decode);
  }

  lemma FirstWrappedFile(root: string, a: string, b0: seq<byte>, decode: Decoder)
    requires root != "" && '/' !in root && a != "" && !IsDirectoryEntry(a)
    ensures Step("", Entry(root + "/" + a, Data(b0)), decode) == Success((root, Some(Classify(a, b0, decode))))
  {
    var name := root + "/" + a;
    assert root + "/" <= name;
    assert name[|root| + 1..] == a;
    assert !IsDirectoryEntry(name) by {
      assert name[|name| - 1] == a[|a| - 1];
    }
    RootFromName(root, name);
    FirstFile(root, name, b0, decode);
  }
  /** The handler accepts every item of `items`, each under the root the
      items before it fixed. */
  predicate Accepts(items: seq<ZipItem>, root: string)
    decreases |items|
  {
    |items| == 0 || (!Rejects(root, items[0]) && Accepts(items[1..], RootAfterItem(root, items[0])))
  }

  /** The first entry the handler rejects rejects the extraction: after `k`
      accepted items (skipped directories, cut-away names or files with
      data), a `Broken` item, or a file entry that survives the cut but whose
      stream cannot be opened or fails, makes the walk fail with exactly that
      entry's error. */
  lemma {:induction false} WalkFailsAt(items: seq<ZipItem>, k: nat, root: string, decode: Decoder)
    requires k < |items| && Accepts(items[..k], root)
    requires Rejects(RootAfter(items[..k], root), items[k])
    ensures Step(RootAfter(items[..k], root), items[k], decode).Failure?
    ensures Walk(items, root, decode) == Failure(Step(RootAfter(items[..k], root), items[k], decode).error)
  {
    WalkUnfold(items, 0, root, decode);
    assert items[0..] == items && items[0 + 1..] == items[1..];
    if k > 0 {
      assert items[0] == items[..k][0];
      var step := Step(root, items[0], decode);
      assert step.Success?;
      assert items[..k][1..] == items[1..][..k - 1];
      assert items[1..][k - 1] == items[k];
      WalkFailsAt(items[1..], k - 1, step.value.0, decode);
    } else {
      assert items[..k] == [];
    }
  }

  lemma ExtractFailsAt(items: seq<ZipItem>, k: nat, decode: Decoder)
    requires k < |items| && Accepts(items[..k], "")
    requires Rejects(RootAfter(items[..k], ""), items[k])
    ensures ExtractZipToFiles(Archive(items), decode) == Failure(Step(RootAfter(items[..k], ""), items[k], decode).error)
  {
    WalkFailsAt(items, k, "", decode);
  }
}
