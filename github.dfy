/**
 * The GitHub side of the fetch stage: reading owner, repository and ref out
 * of a GitHub URL, choosing the ref to download, mapping the archive
 * download's outcome to a result or an error code, and reading the commit
 * SHA out of the `Content-Disposition` header.
 */
module GitHub {
  import opened Wrappers
  import opened Strings
  import opened Types
  import Seqs

  // ---------------------------------------------------------------- parseGitHubURL

  datatype ParsedUrl = ParsedUrl(owner: string, repo: string, ref: Option<string>)

  const HttpsPrefix := "https://github.com/"
  const HttpPrefix := "http://github.com/"
  const SshPrefix := "git@github.com:"

  /** End of the run of non-slash characters starting at `i`: the regular
      expression class `[^\/]+` taken greedily. */
  function RunEnd(s: string, i: nat): (j: nat)
    requires i <= |s|
    ensures i <= j <= |s|
    ensures forall k | i <= k < j :: s[k] != '/'
    ensures j == |s| || s[j] == '/'
    decreases |s| - i
  {
    if i == |s| || s[i] == '/' then i else RunEnd(s, i + 1)
  }

  /** `owner/repo` at the start of `rest`: two maximal non-empty runs of
      non-slash characters separated by a slash; also returns the text after
      the repository. */
  function OwnerRepo(rest: string): (r: Option<(string, string, string)>)
    ensures r.Some? ==> var (owner, repo, after) := r.value;
      && owner != "" && '/' !in owner && repo != "" && '/' !in repo
      && rest == owner + "/" + repo + after
      && (after == "" || after[0] == '/')
  {
    var j := RunEnd(rest, 0);
    if j == 0 || j == |rest| then None
    else
      var k := RunEnd(rest, j + 1);
      if k == j + 1 then None
      else
        assert rest == rest[..j] + "/" + rest[j + 1..k] + rest[k..];
        Some((rest[..j], rest[j + 1..k], rest[k..]))
  }

  /** The optional `/tree/<ref>` or `/blob/<ref>` after the repository: a
      maximal non-empty run of non-slash characters. */
  function RefAfter(after: string): (r: Option<string>)
    ensures r.Some? ==> r.value != "" && '/' !in r.value
    ensures r.Some? ==> exists kind | kind in {"/tree/", "/blob/"} :: kind + r.value <= after
  {
    if ("/tree/" <= after || "/blob/" <= after) && RunEnd(after, 6) > 6 then
      var ref := after[6..RunEnd(after, 6)];
      assert after[..6] + ref <= after;
      assert after[..6] == "/tree/" || after[..6] == "/blob/";
      Some(ref)
    else None
  }

  /** `repo.replace(/\.git$/, '')`: one trailing `.git` removed. */
  function StripGitSuffix(repo: string): (r: string)
    ensures EndsWith(repo, ".git") ==> r + ".git" == repo
    ensures !EndsWith(repo, ".git") ==> r == repo
    ensures '/' !in repo ==> '/' !in r
  {
    if EndsWith(repo, ".git") then repo[..|repo| - 4] else repo
  }

  /** The error an unrecognised URL raises. */
  function InvalidUrlFormat(url: string): (e: FetchError)
    ensures e.code == "INVALID_URL" && e.source == UrlSource(url) && e.cause.None?
  {
    FetchError("Invalid GitHub URL format: " + url, "INVALID_URL", UrlSource(url), None)
  }

  /** `parseGitHubURL`: the web form `http(s)://github.com/<owner>/<repo>`
      with an optional `/tree/<ref>` or `/blob/<ref>`, or the SSH form
      `git@github.com:<owner>/<repo>`, which has no ref. Anything may follow
      the part that matched. */
  function ParseGitHubUrl(url: string): (r: Result<ParsedUrl, FetchError>)
    ensures r.Failure? ==> r.error == InvalidUrlFormat(url)
    ensures r.Success? ==> r.value.owner != "" && '/' !in r.value.owner && '/' !in r.value.repo
    ensures r.Success? && r.value.ref.Some? ==> r.value.ref.value != "" && '/' !in r.value.ref.value
    ensures r.Success? ==> HttpsPrefix <= url || HttpPrefix <= url || SshPrefix <= url
    ensures SshPrefix <= url && r.Success? ==> r.value.ref.None?
  {
    if HttpsPrefix <= url then
      assert url[0] == HttpsPrefix[0] != SshPrefix[0];
      ParseWeb(url, url[|HttpsPrefix|..])
    else if HttpPrefix <= url then
      assert url[0] == HttpPrefix[0] != SshPrefix[0];
      ParseWeb(url, url[|HttpPrefix|..])
    else if SshPrefix <= url then ParseSsh(url, url[|SshPrefix|..])
    else Failure(InvalidUrlFormat(url))
  }

  /** The web form after its scheme and host. */
  function ParseWeb(url: string, rest: string): (r: Result<ParsedUrl, FetchError>)
    ensures r.Failure? ==> r.error == InvalidUrlFormat(url)
    ensures r.Success? ==> r.value.owner != "" && '/' !in r.value.owner && '/' !in r.value.repo
    ensures r.Success? && r.value.ref.Some? ==> r.value.ref.value != "" && '/' !in r.value.ref.value
  {
    match OwnerRepo(rest)
    case Some((owner, repo, after)) => Success(ParsedUrl(owner, StripGitSuffix(repo), RefAfter(after)))
    case None => Failure(InvalidUrlFormat(url))
  }

  /** The SSH form after `git@github.com:`. */
  function ParseSsh(url: string, rest: string): (r: Result<ParsedUrl, FetchError>)
    ensures r.Failure? ==> r.error == InvalidUrlFormat(url)
    ensures r.Success? ==> r.value.owner != "" && '/' !in r.value.owner && '/' !in r.value.repo
    ensures r.Success? ==> r.value.ref.None?
  {
    match OwnerRepo(rest)
    case Some((owner, repo, _)) => Success(ParsedUrl(owner, StripGitSuffix(repo), None))
    case None => Failure(InvalidUrlFormat(url))
  }

  /** Both web schemes lead to the same reading of the rest of the URL. */
  lemma WebScheme(scheme: string, rest: string)
    requires scheme in {HttpsPrefix, HttpPrefix}
    ensures ParseGitHubUrl(scheme + rest) == ParseWeb(scheme + rest, rest)
  {
    var url := scheme + rest;
    assert url[..|scheme|] == scheme;
    assert url[|scheme|..] == rest;
    if scheme == HttpPrefix {
      assert url[4] != HttpsPrefix[4];
    }
  }

  /** `owner/repo` followed by nothing or by a slash is read back as those two
      runs. */
  lemma {:induction false} OwnerRepoOf(owner: string, repo: string, after: string)
    requires owner != "" && '/' !in owner && repo != "" && '/' !in repo
    requires after == "" || after[0] == '/'
    ensures OwnerRepo(owner + "/" + repo + after) == Some((owner, repo, after))
  {
    var rest := owner + "/" + repo + after;
    RunEndOver(rest, 0, |owner|);
    RunEndOver(rest, |owner| + 1, |owner| + 1 + |repo|);
    assert rest[..|owner|] == owner;
    assert rest[|owner| + 1..|owner| + 1 + |repo|] == repo;
    assert rest[|owner| + 1 + |repo|..] == after;
  }

  lemma {:induction false} RunEndOver(s: string, i: nat, j: nat)
    requires i <= j <= |s|
    requires forall k | i <= k < j :: s[k] != '/'
    requires j == |s| || s[j] == '/'
    ensures RunEnd(s, i) == j
    decreases j - i
  {
    if i < j {
      RunEndOver(s, i + 1, j);
    }
  }

  /** Web URLs with a ref: the ref after `/tree/` or `/blob/` is read up to
      the next slash, and one `.git` is stripped from the repository. */
  lemma WebUrlWithRef(scheme: string, owner: string, repo: string, kind: string, ref: string, tail: string)
    requires scheme in {HttpsPrefix, HttpPrefix} && kind in {"/tree/", "/blob/"}
    requires owner != "" && '/' !in owner && repo != "" && '/' !in repo
    requires ref != "" && '/' !in ref && (tail == "" || tail[0] == '/')
    ensures ParseGitHubUrl(scheme + owner + "/" + repo + kind + ref + tail)
      == Success(ParsedUrl(owner, StripGitSuffix(repo), Some(ref)))
  {
    var after := kind + ref + tail;
    var rest := owner + "/" + repo + after;
    var url := scheme + owner + "/" + repo + kind + ref + tail;
    assert url == scheme + rest by {
      Seqs.AppendAssoc(owner + "/" + repo, kind + ref, tail);
      Seqs.AppendAssoc(owner + "/" + repo, kind, ref);
      Seqs.AppendAssoc(scheme, owner + "/" + repo, after);
    }
    WebScheme(scheme, rest);
    assert after[0] == '/';
    OwnerRepoOf(owner, repo, after);
    RefAfterOf(kind, ref, tail);
    assert ParseWeb(url, rest) == Success(ParsedUrl(owner, StripGitSuffix(repo), Some(ref)));
  }

  lemma RefAfterOf(kind: string, ref: string, tail: string)
    requires kind in {"/tree/", "/blob/"}
    requires ref != "" && '/' !in ref && (tail == "" || tail[0] == '/')
    ensures RefAfter(kind + ref + tail) == Some(ref)
  {
    var after := kind + ref + tail;
    assert after[..6] == kind;
    assert kind <= after;
    RunEndOver(after, 6, 6 + |ref|);
    assert after[6..6 + |ref|] == ref;
  }

  /** Web URLs with nothing after the repository have no ref. */
  lemma WebUrlWithoutRef(scheme: string, owner: string, repo: string)
    requires scheme in {HttpsPrefix, HttpPrefix}
    requires owner != "" && '/' !in owner && repo != "" && '/' !in repo
    ensures ParseGitHubUrl(scheme + owner + "/" + repo) == Success(ParsedUrl(owner, StripGitSuffix(repo), None))
  {
    var rest := owner + "/" + repo;
    assert scheme + owner + "/" + repo == scheme + rest;
    WebScheme(scheme, rest);
    assert rest == owner + "/" + repo + "";
    OwnerRepoOf(owner, repo, "");
    assert RefAfter("") == None;
  }

  /** SSH URLs: owner and repository, and never a ref, whatever follows. */
  lemma SshUrl(owner: string, repo: string, tail: string)
    requires owner != "" && '/' !in owner && repo != "" && '/' !in repo
    requires tail == "" || tail[0] == '/'
    ensures ParseGitHubUrl(SshPrefix + owner + "/" + repo + tail) == Success(ParsedUrl(owner, StripGitSuffix(repo), None))
  {
    var rest := owner + "/" + repo + tail;
    var url := SshPrefix + rest;
    assert SshPrefix + owner + "/" + repo + tail == url by {
      Seqs.AppendAssoc(SshPrefix, owner + "/" + repo, tail);
      Seqs.AppendAssoc(SshPrefix, owner + "/", repo);
      Seqs.AppendAssoc(SshPrefix, owner, "/");
    }
    assert url[..|SshPrefix|] == SshPrefix;
    assert url[|SshPrefix|..] == rest;
    OwnerRepoOf(owner, repo, tail);
    assert !(HttpsPrefix <= url) by { assert url[0] != HttpsPrefix[0]; }
    assert !(HttpPrefix <= url) by { assert url[0] != HttpPrefix[0]; }
    assert ParseGitHubUrl(url) == ParseSsh(url, rest);
  }

  /** Only the three forms are accepted: a parsed URL is a scheme, the owner,
      a slash and a non-empty slash-free repository name followed by nothing
      or by a slash; the repository is that name with one `.git` stripped,
      and a ref is read only in the web form, right after `/tree/` or
      `/blob/` and up to the next slash. */
  lemma ParsedUrlShape(url: string)
    requires ParseGitHubUrl(url).Success?
    ensures exists scheme, repo, after :: ShapedAs(url, ParseGitHubUrl(url).value, scheme, repo, after)
  {
    var scheme, owner, repo, after;
    if HttpsPrefix <= url {
      scheme := HttpsPrefix;
      owner, repo, after := WebShape(url, HttpsPrefix);
    } else if HttpPrefix <= url {
      scheme := HttpPrefix;
      owner, repo, after := WebShape(url, HttpPrefix);
    } else {
      scheme := SshPrefix;
      owner, repo, after := SshShape(url);
    }
    assert ShapedAs(url, ParseGitHubUrl(url).value, scheme, repo, after);
  }

  /** `url` is `scheme`, the owner of `p`, a slash, the non-empty slash-free
      segment `repo` and then nothing or a rest `after` starting with a slash;
      `p`'s repository is `repo` without `.git`, and a ref is read, only in
      the web form, exactly when `after` starts with one. */
  predicate ShapedAs(url: string, p: ParsedUrl, scheme: string, repo: string, after: string) {
    && scheme in {HttpsPrefix, HttpPrefix, SshPrefix}
    && repo != "" && '/' !in repo && (after == "" || after[0] == '/')
    && url == scheme + p.owner + "/" + repo + after
    && p.repo == StripGitSuffix(repo)
    && (p.ref.Some? ==> scheme != SshPrefix && RefRead(after, p.ref.value))
    && (scheme != SshPrefix && RefAfter(after).Some? ==> p.ref.Some?)
  }

  /** The web reading of a parsed URL with scheme `scheme`: its owner, the
      repository segment and what follows it. */
  lemma WebShape(url: string, scheme: string) returns (owner: string, repo: string, after: string)
    requires ParseGitHubUrl(url).Success? && scheme in {HttpsPrefix, HttpPrefix} && scheme <= url
    requires scheme == HttpPrefix ==> !(HttpsPrefix <= url)
    ensures var p := ParseGitHubUrl(url).value;
      && repo != "" && '/' !in repo && (after == "" || after[0] == '/')
      && url == scheme + p.owner + "/" + repo + after && owner == p.owner
      && p.repo == StripGitSuffix(repo)
      && (p.ref.Some? ==> RefRead(after, p.ref.value))
      && (RefAfter(after).Some? ==> p.ref.Some?)
  {
    var rest := url[|scheme|..];
    assert url == scheme + rest;
    WebScheme(scheme, rest);
    var p := ParseGitHubUrl(url).value;
    owner, repo, after := OwnerRepo(rest).value.0, OwnerRepo(rest).value.1, OwnerRepo(rest).value.2;
    JoinShape(scheme, owner, repo, after);
    if p.ref.Some? {
      RefAfterRead(after);
    }
  }

  /** The SSH reading of a parsed URL: its owner, the repository segment and
      what follows it, and no ref. */
  lemma SshShape(url: string) returns (owner: string, repo: string, after: string)
    requires ParseGitHubUrl(url).Success? && !(HttpsPrefix <= url) && !(HttpPrefix <= url)
    ensures var p := ParseGitHubUrl(url).value;
      && repo != "" && '/' !in repo && (after == "" || after[0] == '/')
      && url == SshPrefix + p.owner + "/" + repo + after && owner == p.owner
      && p.repo == StripGitSuffix(repo) && p.ref.None?
  {
    var rest := url[|SshPrefix|..];
    assert url == SshPrefix + rest;
    assert ParseGitHubUrl(url) == ParseSsh(url, rest);
    owner, repo, after := OwnerRepo(rest).value.0, OwnerRepo(rest).value.1, OwnerRepo(rest).value.2;
    JoinShape(SshPrefix, owner, repo, after);
  }

  lemma JoinShape(scheme: string, owner: string, repo: string, after: string)
    ensures scheme + (owner + "/" + repo + after) == scheme + owner + "/" + repo + after
  {
    Seqs.AppendAssoc(scheme, owner + "/" + repo, after);
    Seqs.AppendAssoc(scheme, owner + "/", repo);
    Seqs.AppendAssoc(scheme, owner, "/");
  }

  /** `ref` is what `(?:\/(?:tree|blob)\/([^\/]+))` captures at the start of
      `after`: `after` is `/tree/` or `/blob/`, then `ref`, then nothing or a
      slash. */
  predicate RefRead(after: string, ref: string) {
    && |after| >= 6 + |ref| && after[..6] in {"/tree/", "/blob/"}
    && after[6..6 + |ref|] == ref && ref != "" && '/' !in ref
    && (|after| == 6 + |ref| || after[6 + |ref|] == '/')
  }

  lemma RefAfterRead(after: string)
    requires RefAfter(after).Some?
    ensures RefRead(after, RefAfter(after).value)
  {
    var e := RunEnd(after, 6);
    assert RefAfter(after).value == after[6..e];
    assert after[..6] == "/tree/" || after[..6] == "/blob/";
  }

  /** A URL with none of the three prefixes is rejected as `INVALID_URL`. */
  lemma ForeignUrlRejected(url: string)
    requires !(HttpsPrefix <= url) && !(HttpPrefix <= url) && !(SshPrefix <= url)
    ensures ParseGitHubUrl(url) == Failure(InvalidUrlFormat(url))
  {
  }

  // ---------------------------------------------------------------- ref precedence

  /** `source.ref || parsedRef || 'HEAD'`: an empty string counts as absent. */
  function FinalRef(sourceRef: Option<string>, parsedRef: Option<string>): (r: string)
    ensures r != ""
    ensures sourceRef.Some? && sourceRef.value != "" ==> r == sourceRef.value
    ensures !(sourceRef.Some? && sourceRef.value != "") && parsedRef.Some? && parsedRef.value != "" ==> r == parsedRef.value
    ensures r == "HEAD" || (sourceRef.Some? && r == sourceRef.value) || (parsedRef.Some? && r == parsedRef.value)
  {
    if sourceRef.Some? && sourceRef.value != "" then sourceRef.value
    else if parsedRef.Some? && parsedRef.value != "" then parsedRef.value
    else "HEAD"
  }

  // ---------------------------------------------------------------- downloadGitHubArchive

  function ArchiveUrl(owner: string, repo: string, ref: string): string {
    "https://api.github.com/repos/" + owner + "/" + repo + "/zipball/" + ref
  }

  /** What `fetch` gives for a URL: a thrown error (its rendering), or a
      response with status, status text, `Content-Disposition` header and a
      body that is either read or fails to read. */
  datatype HttpReply =
    | NetworkFailure(cause: string)
    | Response(status: int, statusText: string, disposition: Option<string>, body: Result<seq<byte>, string>)
  {
    /** `response.ok`. */
    predicate Ok() requires Response? {
      200 <= status <= 299
    }
  }

  datatype Download = Download(buffer: seq<byte>, commitSha: string)

  /** `downloadGitHubArchive` with `fetch` as a parameter: a non-ok status is
      `REPOSITORY_NOT_FOUND` for 404 and `GITHUB_API_ERROR` otherwise; any
      other failure is wrapped as `DOWNLOAD_ERROR`. Every error records the
      archive URL. */
  function DownloadArchive(fetch: string -> HttpReply, owner: string, repo: string, ref: string): (r: Result<Download, FetchError>)
    ensures r.Failure? ==> r.error.source == UrlSource(ArchiveUrl(owner, repo, ref))
    ensures r.Success? <==> (fetch(ArchiveUrl(owner, repo, ref)).Response?
      && fetch(ArchiveUrl(owner, repo, ref)).Ok() && fetch(ArchiveUrl(owner, repo, ref)).body.Success?)
    ensures r.Success? ==> (r.value.buffer == fetch(ArchiveUrl(owner, repo, ref)).body.value
      && r.value.commitSha == CommitSha(fetch(ArchiveUrl(owner, repo, ref)).disposition))
  {
    var url := ArchiveUrl(owner, repo, ref);
    match fetch(url)
    case NetworkFailure(cause) =>
      Failure(FetchError("Failed to download repository: " + cause, "DOWNLOAD_ERROR", UrlSource(url), Some(cause)))
    case Response(status, statusText, disposition, body) =>
      if !(200 <= status <= 299) then
        if status == 404 then
          Failure(FetchError("Repository not found or not accessible: " + owner + "/" + repo,
            "REPOSITORY_NOT_FOUND", UrlSource(url), None))
        else
          Failure(FetchError("GitHub API error: " + IntToString(status) + " " + statusText,
            "GITHUB_API_ERROR", UrlSource(url), None))
      else
        match body
        case Failure(cause) =>
          Failure(FetchError("Failed to download repository: " + cause, "DOWNLOAD_ERROR", UrlSource(url), Some(cause)))
        case Success(bytes) => Success(Download(bytes, CommitSha(disposition)))
  }

  /** The error codes of a download, case by case. */
  lemma DownloadErrorCodes(fetch: string -> HttpReply, owner: string, repo: string, ref: string)
    ensures var reply := fetch(ArchiveUrl(owner, repo, ref));
      var r := DownloadArchive(fetch, owner, repo, ref);
      && (reply.NetworkFailure? ==> r.Failure? && r.error.code == "DOWNLOAD_ERROR")
      && (reply.Response? && reply.status == 404 ==> r.Failure? && r.error.code == "REPOSITORY_NOT_FOUND")
      && (reply.Response? && !reply.Ok() && reply.status != 404 ==> r.Failure? && r.error.code == "GITHUB_API_ERROR")
      && (reply.Response? && reply.Ok() && reply.body.Failure? ==> r.Failure? && r.error.code == "DOWNLOAD_ERROR")
  {
  }

  // ---------------------------------------------------------------- commit SHA

  /** The characters `.` does not match in a regular expression without the
      `s` flag. */
  predicate IsLineTerminator(c: char) {
    c == '\n' || c == '\r' || c == '\U{2028}' || c == '\U{2029}'
  }

  predicate IsHexDigit(c: char) {
    ('0' <= c <= '9') || ('a' <= c <= 'f')
  }

  /** A commit SHA as the pattern `[a-f0-9]{7,40}` accepts it. */
  predicate IsSha(s: string) {
    7 <= |s| <= 40 && forall k | 0 <= k < |s| :: IsHexDigit(s[k])
  }

  /** First line terminator at or after `p`, or the end. */
  function LineEnd(s: string, p: nat): (e: nat)
    requires p <= |s|
    ensures p <= e <= |s|
    ensures forall k | p <= k < e :: !IsLineTerminator(s[k])
    ensures e == |s| || IsLineTerminator(s[e])
    decreases |s| - p
  {
    if p == |s| || IsLineTerminator(s[p]) then p else LineEnd(s, p + 1)
  }

  /** End of the maximal run of hex digits starting at `p`. */
  function HexRunEnd(s: string, p: nat): (e: nat)
    requires p <= |s|
    ensures p <= e <= |s|
    ensures forall k | p <= k < e :: IsHexDigit(s[k])
    ensures e == |s| || !IsHexDigit(s[e])
    decreases |s| - p
  {
    if p == |s| || !IsHexDigit(s[p]) then p else HexRunEnd(s, p + 1)
  }

  /** `-([a-f0-9]{7,40})\.zip` matched at position `d`: since `.` is not a
      hex digit, the digits must be the whole run after the dash. */
  function ShaAt(s: string, d: nat): (r: Option<string>)
    requires d < |s|
    ensures r.Some? ==> IsSha(r.value)
  {
    if s[d] != '-' then None
    else
      var e := HexRunEnd(s, d + 1);
      if 7 <= e - (d + 1) <= 40 && ".zip" <= s[e..] then Some(s[d + 1..e]) else None
  }

  /** The greedy `.*` makes the match use the last suitable dash first:
      search from `q - 1` down to `p`. */
  function LastShaIn(s: string, p: nat, q: nat): (r: Option<string>)
    requires p <= q <= |s|
    ensures r.Some? ==> IsSha(r.value)
    decreases q - p
  {
    if q == p then None
    else
      match ShaAt(s, q - 1)
      case Some(sha) => Some(sha)
      case None => LastShaIn(s, p, q - 1)
  }

  const FilenameKey := "filename="

  /** The leftmost `filename=` from which the rest of the pattern matches
      within the same line decides the SHA. */
  function ShaFrom(s: string, i: nat): (r: Option<string>)
    requires i <= |s|
    ensures r.Some? ==> IsSha(r.value)
    decreases |s| - i
  {
    if i == |s| then None
    else if FilenameKey <= s[i..] then
      var p := i + |FilenameKey|;
      match LastShaIn(s, p, LineEnd(s, p))
      case Some(sha) => Some(sha)
      case None => ShaFrom(s, i + 1)
    else ShaFrom(s, i + 1)
  }

  /** The SHA read from the `Content-Disposition` header, or the literal
      `HEAD` (not the requested ref) when there is none. */
  function CommitSha(disposition: Option<string>): (r: string)
    ensures r == "HEAD" || IsSha(r)
  {
    match ShaFrom(disposition.GetOr(""), 0)
    case Some(sha) => sha
    case None => "HEAD"
  }

  /** GitHub's `attachment; filename=<name>-<sha>.zip` yields the SHA, for
      any one-line `name` (which may itself contain dashes). */
  lemma {:induction false} CommitShaOfAttachment(name: string, sha: string)
    requires IsSha(sha)
    requires forall k | 0 <= k < |name| :: !IsLineTerminator(name[k])
    ensures CommitSha(Some("attachment; filename=" + name + "-" + sha + ".zip")) == sha
  {
    var s := "attachment; filename=" + name + "-" + sha + ".zip";
    var p, d := 21, 21 + |name|;
    var e := d + 1 + |sha|;
    AttachmentLayout(name, sha);
    assert ShaAt(s, d) == Some(sha) by {
      HexRunOver(s, d + 1, e);
    }
    LineEndOver(s, p);
    LastShaSkips(s, p, d, |s|);
    assert LastShaIn(s, p, LineEnd(s, p)) == Some(sha);
    assert s[12..][..|FilenameKey|] == s[12..21];
    assert ShaFrom(s, 12) == Some(sha);
    ShaFromSkips(s, 12);
  }

  /** Where the parts of an attachment header sit. */
  lemma AttachmentLayout(name: string, sha: string)
    requires IsSha(sha)
    requires forall k | 0 <= k < |name| :: !IsLineTerminator(name[k])
    ensures var s := "attachment; filename=" + name + "-" + sha + ".zip";
      var d := 21 + |name|;
      var e := d + 1 + |sha|;
      && |s| == e + 4
      && (forall k | 0 <= k < 12 :: s[k] != 'f')
      && s[12..21] == FilenameKey
      && s[d] == '-'
      && s[d + 1..e] == sha
      && s[e..] == ".zip"
      && (forall k | d + 1 <= k < e :: IsHexDigit(s[k]))
      && !IsHexDigit(s[e])
      && (forall k | 21 <= k < |s| :: !IsLineTerminator(s[k]))
      && (forall k | d < k < |s| :: s[k] != '-')
  {
    var s := "attachment; filename=" + name + "-" + sha + ".zip";
    var p, d := 21, 21 + |name|;
    var e := d + 1 + |sha|;
    assert s[..12] == "attachment; ";
    assert 'f' !in "attachment; ";
    forall k | 0 <= k < 12 ensures s[k] != 'f' {
      assert s[k] in s[..12];
    }
    assert s[d + 1..e] == sha;
    assert s[e..] == ".zip";
    forall k | d + 1 <= k < e ensures IsHexDigit(s[k]) {
      assert s[k] == sha[k - d - 1];
    }
    forall k | p <= k < |s| ensures !IsLineTerminator(s[k]) {
      if k < d { assert s[k] == name[k - p]; }
      else if d < k < e { assert s[k] == sha[k - d - 1]; }
    }
    forall k | d < k < |s| ensures s[k] != '-' {
      if k < e { assert s[k] == sha[k - d - 1]; }
    }
  }

  lemma {:induction false} HexRunOver(s: string, p: nat, e: nat)
    requires p <= e <= |s|
    requires forall k | p <= k < e :: IsHexDigit(s[k])
    requires e == |s| || !IsHexDigit(s[e])
    ensures HexRunEnd(s, p) == e
    decreases e - p
  {
    if p < e {
      HexRunOver(s, p + 1, e);
    }
  }

  lemma {:induction false} LineEndOver(s: string, p: nat)
    requires p <= |s|
    requires forall k | p <= k < |s| :: !IsLineTerminator(s[k])
    ensures LineEnd(s, p) == |s|
    decreases |s| - p
  {
    if p < |s| {
      LineEndOver(s, p + 1);
    }
  }

  /** Dashes after the matching one are absent, so the backwards search
      stops at it. */
  lemma {:induction false} LastShaSkips(s: string, p: nat, d: nat, q: nat)
    requires p <= d < q <= |s|
    requires ShaAt(s, d).Some?
    requires forall k | d < k < q :: s[k] != '-'
    ensures LastShaIn(s, p, q) == ShaAt(s, d)
    decreases q - d
  {
    if q - 1 != d {
      assert s[q - 1] != '-';
      LastShaSkips(s, p, d, q - 1);
    }
  }

  /** No `filename=` starts where there is no `f`. */
  lemma {:induction false} ShaFromSkips(s: string, i: nat)
    requires i <= |s|
    requires forall k | 0 <= k < i :: s[k] != 'f'
    ensures ShaFrom(s, 0) == ShaFrom(s, i)
    decreases i
  {
    if i > 0 {
      ShaFromSkips(s, i - 1);
      ShaFromNoKey(s, i - 1);
    }
  }

  /** A position that does not hold an `f` starts no `filename=`. */
  lemma ShaFromNoKey(s: string, i: nat)
    requires i < |s| && s[i] != 'f'
    ensures ShaFrom(s, i) == ShaFrom(s, i + 1)
  {
    assert s[i..][0] == s[i] && FilenameKey[0] == 'f';
    assert !(FilenameKey <= s[i..]);
  }
}
