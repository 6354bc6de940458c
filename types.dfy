/**
 * The data flatrepo passes between its fetch and its processing stage, and
 * the two error kinds it throws, with their factories.
 */
module Types {
  import opened Wrappers
  import opened Strings

  newtype byte = x: int | 0 <= x < 256

  /** Where a repository comes from: a local directory, or a GitHub URL with
      an optional ref and an optional timeout (declared, never read). */
  datatype RepoSource =
    | LocalSource(path: string)
    | RemoteSource(url: string, ref: Option<string>, timeoutMs: Option<int>)

  /** A source that records only a URL, as the error factories build it. */
  function UrlSource(url: string): (s: RepoSource)
    ensures s.RemoteSource? && s.url == url && s.ref.None? && s.timeoutMs.None?
  {
    RemoteSource(url, None, None)
  }

  /** Metadata of a fetched repository; the kind is the constructor. */
  datatype RepoMeta =
    | LocalMeta(fetchedAt: string, path: string)
    | GitHubMeta(fetchedAt: string, owner: string, repo: string, ref: string, commitSha: string)
  {
    function Kind(): string {
      if LocalMeta? then "local" else "github"
    }
  }

  /** A file's content: text, or raw bytes for a binary file. */
  datatype Content = Text(text: string) | Bytes(bytes: seq<byte>)
  {
    /** The size the limit is checked against: the string length for text,
        the byte count for bytes. */
    function Size(): nat {
      match this
      case Text(t) => |t|
      case Bytes(b) => |b|
    }
  }

  datatype FileData = FileData(path: string, content: Content, isBinary: bool, extension: string)

  datatype RepoData = RepoData(meta: RepoMeta, files: seq<FileData>)

  /** Output encoding option; parsed but not acted upon. */
  datatype Encoding = Utf8 | Base64

  /** The options of `flatrepo`; an absent field takes its default. */
  datatype FlatrepoOptions = FlatrepoOptions(
    includeBin: Option<bool>,
    ignorePatterns: Option<string>,
    maxBytesPerFile: Option<int>,
    encoding: Option<Encoding>)

  datatype RepoStats = RepoStats(
    totalFiles: nat,
    totalLines: nat,
    languages: map<string, nat>,
    fileTypes: map<string, nat>,
    binaryFiles: nat,
    totalBytes: nat)

  // ---------------------------------------------------------------- FlatrepoFetchError

  /** A failure of the fetch stage; `cause` is the message of the wrapped error. */
  datatype FetchError = FetchError(message: string, code: string, source: RepoSource, cause: Option<string>)

  function InvalidUrl(url: string, cause: Option<string>): (e: FetchError)
    ensures e.code == "INVALID_URL" && e.source == UrlSource(url) && e.cause == cause
    ensures EndsWith(e.message, url)
  {
    FetchError("Invalid GitHub URL: " + url, "INVALID_URL", UrlSource(url), cause)
  }

  function NetworkError(url: string, statusCode: int, cause: Option<string>): (e: FetchError)
    ensures e.code == "NETWORK_ERROR" && e.source == UrlSource(url) && e.cause == cause
    ensures EndsWith(e.message, IntToString(statusCode))
  {
    FetchError("Network error fetching " + url + ": HTTP " + IntToString(statusCode),
      "NETWORK_ERROR", UrlSource(url), cause)
  }

  /** The place a timeout message names: the path of a local source, the URL
      of a remote one. */
  function Location(source: RepoSource): string {
    match source
    case LocalSource(p) => p
    case RemoteSource(u, _, _) => u
  }

  function Timeout(source: RepoSource, timeoutMs: int): (e: FetchError)
    ensures e.code == "TIMEOUT" && e.source == source && e.cause.None?
    ensures EndsWith(e.message, Location(source))
  {
    FetchError("Timeout after " + IntToString(timeoutMs) + "ms fetching " + Location(source),
      "TIMEOUT", source, None)
  }

  function CorruptArchive(url: string, cause: Option<string>): (e: FetchError)
    ensures e.code == "CORRUPT_ARCHIVE" && e.source == UrlSource(url) && e.cause == cause
    ensures EndsWith(e.message, url)
  {
    FetchError("Corrupt or invalid archive from " + url, "CORRUPT_ARCHIVE", UrlSource(url), cause)
  }

  function PathNotFound(path: string): (e: FetchError)
    ensures e.code == "PATH_NOT_FOUND" && e.source == LocalSource(path) && e.cause.None?
    ensures EndsWith(e.message, path)
  {
    FetchError("Path not found: " + path, "PATH_NOT_FOUND", LocalSource(path), None)
  }

  /** The timeout message names the local path or the URL, whichever the
      source has. */
  lemma {:induction false} TimeoutLocation(source: RepoSource, timeoutMs: int)
    ensures source.LocalSource? ==> EndsWith(Timeout(source, timeoutMs).message, source.path)
    ensures source.RemoteSource? ==> EndsWith(Timeout(source, timeoutMs).message, source.url)
  {
  }

  // ---------------------------------------------------------------- FlatrepoProcessError

  /** A failure of the processing stage. */
  datatype ProcessError = ProcessError(message: string, code: string, filePath: Option<string>, cause: Option<string>)

  function FileTooBig(filePath: string, sizeBytes: int, maxBytes: int): (e: ProcessError)
    ensures e.code == "FILE_TOO_BIG" && e.filePath == Some(filePath) && e.cause.None?
    ensures EndsWith(e.message, IntToString(maxBytes))
  {
    ProcessError("File " + filePath + " (" + IntToString(sizeBytes) + " bytes) exceeds maxBytesPerFile limit of "
      + IntToString(maxBytes), "FILE_TOO_BIG", Some(filePath), None)
  }

  function BinaryAsText(filePath: string): (e: ProcessError)
    ensures e.code == "BINARY_AS_TEXT" && e.filePath == Some(filePath) && e.cause.None?
  {
    ProcessError("Attempted to process binary file " + filePath + " as text", "BINARY_AS_TEXT", Some(filePath), None)
  }

  function EmptyRepository(): (e: ProcessError)
    ensures e.code == "EMPTY_REPOSITORY" && e.filePath.None? && e.cause.None?
  {
    ProcessError("Repository contains no processable files", "EMPTY_REPOSITORY", None, None)
  }

  function InvalidEncoding(filePath: string, cause: Option<string>): (e: ProcessError)
    ensures e.code == "INVALID_ENCODING" && e.filePath == Some(filePath) && e.cause == cause
    ensures EndsWith(e.message, filePath)
  {
    ProcessError("Invalid text encoding in file " + filePath, "INVALID_ENCODING", Some(filePath), cause)
  }

  /** The fetch factories can be told apart by their code alone. */
  lemma FetchCodesDistinct(url: string, path: string, source: RepoSource, n: int, c: Option<string>)
    ensures |{InvalidUrl(url, c).code, NetworkError(url, n, c).code, Timeout(source, n).code,
              CorruptArchive(url, c).code, PathNotFound(path).code}| == 5
  {
  }

  /** So can the process factories. */
  lemma ProcessCodesDistinct(path: string, n: int, m: int, c: Option<string>)
    ensures |{FileTooBig(path, n, m).code, BinaryAsText(path).code, EmptyRepository().code,
              InvalidEncoding(path, c).code}| == 4
  {
  }
}
