/**
 * The ignore list of the compiled command-line version
 * (dist/utils/gitignore.js): seven default patterns, and the patterns of the
 * `.gitignore` files in the working directory and in every directory above
 * it, deduplicated, with one leading slash removed from each.
 */
module GitignoreDist {
  import opened Wrappers
  import opened Strings
  import opened Seqs
  import Gitignore

  /** The seven default patterns of the compiled version. */
  const DefaultIgnorePatterns: seq<string> :=
    ["node_modules/**", "package-lock.json", ".DS_Store", ".gitignore", ".git/**", "dist/**", ".next/**"]

  /** A reader of `.gitignore` files, keyed by the directory that holds the
      file; `None` when the file is missing or cannot be read. */
  type GitignoreReader = string -> Option<string>

  /** `readGitignoreFile`: the same line pipeline as the library version; an
      unreadable file contributes nothing. */
  function ReadGitignoreFile(read: GitignoreReader, dir: string): (r: seq<string>)
    ensures read(dir).None? ==> r == []
    ensures read(dir).Some? ==> r == Gitignore.ParsePatterns(read(dir).value)
  {
    match read(dir)
    case None => []
    case Some(content) => Gitignore.ParsePatterns(content)
  }

  /** The directories the ancestor walk visits from `dir`: `dirname(dir)`,
      `dirname(dirname(dir))`, ..., up to the first fixed point of
      `dirname`. Each is the parent of the one before, none but the last is
      a fixed point, and the walk ends on one. */
  function Ancestors(dir: string): (r: seq<string>)
    ensures |r| == 0 <==> Dirname(dir) == dir
    ensures |r| > 0 ==> r[0] == Dirname(dir) && Dirname(r[|r| - 1]) == r[|r| - 1]
    ensures forall i | 0 <= i < |r| - 1 :: r[i + 1] == Dirname(r[i]) && r[i + 1] != r[i]
    decreases DirMeasure(dir)
  {
    var parent := Dirname(dir);
    if parent == dir then [] else [parent] + Ancestors(parent)
  }

  lemma AncestorsStep(dir: string)
    requires Dirname(dir) != dir
    ensures Ancestors(dir) == [Dirname(dir)] + Ancestors(Dirname(dir))
  {
  }

  /** From `/a/b` the walk visits `/a` and then `/`, where it stops. */
  lemma AncestorsOfTwoLevels(a: string, b: string)
    requires a != "" && '/' !in a && b != "" && '/' !in b
    ensures Ancestors("/" + a + "/" + b) == ["/" + a, "/"]
  {
    var d := "/" + a;
    DirnameOfChild(d, b);
    assert d[|d| - 1] == a[|a| - 1] != '/';
    AncestorsStep(d + "/" + b);
    AncestorsOfOneLevel(a);
  }

  /** From `/a` the walk visits `/` only. */
  lemma AncestorsOfOneLevel(a: string)
    requires a != "" && '/' !in a
    ensures Ancestors("/" + a) == ["/"]
  {
    DirnameOfChild("/" + a, a);
    AncestorsStep("/" + a);
    RootIsFixed();
  }

  lemma RootIsFixed()
    ensures Dirname("/") == "/" && Ancestors("/") == []
  {
  }

  /** `readGitignoreFile` as a function of the directory. */
  function FileReader(read: GitignoreReader): string -> seq<string> {
    (d: string) => ReadGitignoreFile(read, d)
  }

  /** The patterns `patternsOf` gives the directories the walk from `dir`
      visits, in visit order. */
  function WalkPatterns(patternsOf: string -> seq<string>, dir: string): seq<string>
    decreases DirMeasure(dir)
  {
    var parent := Dirname(dir);
    if parent == dir then [] else patternsOf(parent) + WalkPatterns(patternsOf, parent)
  }

  /** The patterns of the ancestors' files, in visit order. */
  function AncestorPatterns(read: GitignoreReader, dir: string): seq<string> {
    WalkPatterns(FileReader(read), dir)
  }

  /** The ancestor patterns are each visited directory's patterns, joined in
      visit order. */
  lemma {:induction false} AncestorPatternsInVisitOrder(read: GitignoreReader, dir: string)
    ensures AncestorPatterns(read, dir) == Concat(ReadAll(read, Ancestors(dir)))
    decreases DirMeasure(dir)
  {
    var parent := Dirname(dir);
    if parent != dir {
      AncestorPatternsInVisitOrder(read, parent);
      WalkStep(FileReader(read), dir);
      assert FileReader(read)(parent) == ReadGitignoreFile(read, parent);
      AncestorsStep(dir);
      var rs := ReadAll(read, Ancestors(dir));
      assert rs[0] == ReadGitignoreFile(read, parent);
      assert rs[1..] == ReadAll(read, Ancestors(parent));
    }
  }

  function ReadAll(read: GitignoreReader, dirs: seq<string>): (r: seq<seq<string>>)
    ensures |r| == |dirs|
    ensures forall i | 0 <= i < |dirs| :: r[i] == ReadGitignoreFile(read, dirs[i])
  {
    seq(|dirs|, i requires 0 <= i < |dirs| => ReadGitignoreFile(read, dirs[i]))
  }

  /** Exactly one leading slash is removed; any other pattern is unchanged. */
  function StripLeadingSlash(p: string): (r: string)
    ensures |p| > 0 && p[0] == '/' ==> "/" + r == p
    ensures !(|p| > 0 && p[0] == '/') ==> r == p
  {
    if |p| > 0 && p[0] == '/' then p[1..] else p
  }

  function StripAll(ps: seq<string>): (r: seq<string>)
    ensures |r| == |ps|
    ensures forall i | 0 <= i < |ps| :: r[i] == StripLeadingSlash(ps[i])
  {
    seq(|ps|, i requires 0 <= i < |ps| => StripLeadingSlash(ps[i]))
  }

  /** What `getGitignorePatterns` returns for working directory `cwd`. */
  function GitignorePatterns(read: GitignoreReader, cwd: string): seq<string> {
    StripAll(Dedup(ReadGitignoreFile(read, cwd) + AncestorPatterns(read, cwd)))
  }

  /** One step up the walk: the parent's patterns, then those above it. */
  lemma WalkStep(patternsOf: string -> seq<string>, dir: string)
    requires Dirname(dir) != dir
    ensures WalkPatterns(patternsOf, dir) == patternsOf(Dirname(dir)) + WalkPatterns(patternsOf, Dirname(dir))
  {
  }

  /** Moving the parent's patterns to the collected ones keeps the total. */
  lemma ClimbKeepsTotal(patternsOf: string -> seq<string>, cwd: string, before: seq<string>, dir: string)
    requires Dirname(dir) != dir
    requires before + WalkPatterns(patternsOf, dir) == WalkPatterns(patternsOf, cwd)
    ensures (before + patternsOf(Dirname(dir))) + WalkPatterns(patternsOf, Dirname(dir)) == WalkPatterns(patternsOf, cwd)
  {
    WalkStep(patternsOf, dir);
    AppendAssoc(before, patternsOf(Dirname(dir)), WalkPatterns(patternsOf, Dirname(dir)));
  }

  /** At a fixed point of `dirname` nothing is left to collect. */
  lemma WalkEnd(patternsOf: string -> seq<string>, dir: string, before: seq<string>)
    requires Dirname(dir) == dir
    ensures before + WalkPatterns(patternsOf, dir) == before
  {
  }

  /** `getGitignorePatterns`: read the working directory's file, walk up
      through the parents collecting theirs, deduplicate keeping first
      occurrences, then strip one leading slash from each pattern. */
  method GetGitignorePatterns(read: GitignoreReader, cwd: string) returns (patterns: seq<string>)
    ensures patterns == GitignorePatterns(read, cwd)
  {
    var projectPatterns := ReadGitignoreFile(read, cwd);
    var parentPatterns := CollectParentPatterns(FileReader(read), cwd);
    var allPatterns := Dedup(projectPatterns + parentPatterns);
    patterns := StripAll(allPatterns);
  }

  /** The `while (parentDir !== currentDir)` walk up from `cwd`, reading each
      parent's file with `patternsOf` (`readGitignoreFile`). */
  method CollectParentPatterns(patternsOf: string -> seq<string>, cwd: string) returns (parentPatterns: seq<string>)
    ensures parentPatterns == WalkPatterns(patternsOf, cwd)
  {
    parentPatterns := [];
    var currentDir := cwd;
    var parentDir := Dirname(currentDir);
    while parentDir != currentDir
      invariant parentDir == Dirname(currentDir)
      invariant parentPatterns + WalkPatterns(patternsOf, currentDir) == WalkPatterns(patternsOf, cwd)
      decreases DirMeasure(currentDir)
    {
      var ps := patternsOf(parentDir);
      ClimbKeepsTotal(patternsOf, cwd, parentPatterns, currentDir);
      parentPatterns := parentPatterns + ps;
      currentDir := parentDir;
      parentDir := Dirname(currentDir);
    }
    WalkEnd(patternsOf, currentDir, parentPatterns);
  }

  /** Before the strip the list has no repetition, and the working
      directory's own patterns come first, in their deduplicated order. */
  lemma ProjectPatternsFirst(read: GitignoreReader, cwd: string)
    ensures NoDuplicates(Dedup(ReadGitignoreFile(read, cwd) + AncestorPatterns(read, cwd)))
    ensures var own := Dedup(ReadGitignoreFile(read, cwd));
      var all := Dedup(ReadGitignoreFile(read, cwd) + AncestorPatterns(read, cwd));
      |own| <= |all| && all[..|own|] == own
  {
    DedupPrefix(ReadGitignoreFile(read, cwd), AncestorPatterns(read, cwd));
  }

  /** A pattern is in the result exactly when it is the stripped form of a
      pattern of some visited file. */
  lemma GitignorePatternsMembers(read: GitignoreReader, cwd: string, x: string)
    ensures x in GitignorePatterns(read, cwd) <==>
      exists y | y in ReadGitignoreFile(read, cwd) + AncestorPatterns(read, cwd) :: StripLeadingSlash(y) == x
  {
    var all := ReadGitignoreFile(read, cwd) + AncestorPatterns(read, cwd);
    var d := Dedup(all);
    if x in StripAll(d) {
      var i :| 0 <= i < |d| && StripAll(d)[i] == x;
      assert d[i] in all;
    }
    if y :| y in all && StripLeadingSlash(y) == x {
      assert y in d;
      var i :| 0 <= i < |d| && d[i] == y;
      assert StripAll(d)[i] == x;
    }
  }

  /** Because the strip runs after deduplication, `/a` and `a` in the files
      both survive deduplication and then produce `a` twice. */
  lemma StripAfterDedupRepeats(read: GitignoreReader, cwd: string, a: string)
    requires Gitignore.IsPattern(a) && a[0] != '/' && '\n' !in a
    requires read(cwd) == Some("/" + a + "\n" + a)
    requires Dirname(cwd) == cwd
    ensures GitignorePatterns(read, cwd) == [a, a]
  {
    SlashedAndPlain(a);
    assert ReadGitignoreFile(read, cwd) + AncestorPatterns(read, cwd) == ["/" + a, a];
    DedupStripTwo(a);
  }

  lemma DedupStripTwo(a: string)
    requires a != "" && a[0] != '/'
    ensures StripAll(Dedup(["/" + a, a])) == [a, a]
  {
    var ps := ["/" + a, a];
    assert ps[0][0] != ps[1][0];
    DedupDistinct(ps);
    assert ps[0][1..] == a;
  }

  lemma SlashedAndPlain(a: string)
    requires Gitignore.IsPattern(a) && a[0] != '/' && '\n' !in a
    ensures Gitignore.ParsePatterns("/" + a + "\n" + a) == ["/" + a, a]
  {
    var s := "/" + a;
    assert s[1..] == a && s[|s| - 1] == a[|a| - 1];
    Gitignore.ParseTwoPatternLines(s, a);
  }

  /** The compiled defaults are the library's defaults with two more files
      ignored after the first entry. */
  lemma DefaultsExtendLibraryDefaults()
    ensures DefaultIgnorePatterns ==
      Gitignore.DefaultIgnorePatterns[..1] + ["package-lock.json", ".DS_Store"] + Gitignore.DefaultIgnorePatterns[1..]
  {
  }
}
