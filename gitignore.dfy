/**
 * The ignore list of the library version (src/utils/gitignore.ts): five
 * default patterns, and the patterns read from the `.gitignore` of the
 * current working directory, one per meaningful line.
 */
module Gitignore {
  import opened Wrappers
  import opened Strings
  import opened Seqs

  /** The default ignore patterns, in their order. */
  const DefaultIgnorePatterns: seq<string> := ["node_modules/**", ".gitignore", ".git/**", "dist/**", ".next/**"]

  /** A trimmed line that yields a pattern: non-empty and not a comment. */
  predicate KeepLine(line: string) {
    line != "" && line[0] != '#'
  }

  /** A directory pattern, one ending in a slash, is widened to everything
      below it by appending two stars. */
  function Expand(pattern: string): (r: string)
    ensures r == pattern || r == pattern + "**"
    ensures r == pattern <==> !EndsWith(pattern, "/")
  {
    if EndsWith(pattern, "/") then pattern + "**" else pattern
  }

  /** What every produced pattern looks like: non-empty, not a comment, no
      surrounding whitespace, and not ending in `/`. */
  predicate IsPattern(p: string) {
    p != "" && p[0] != '#' && !IsWhitespace(p[0]) && !IsWhitespace(p[|p| - 1]) && p[|p| - 1] != '/'
  }

  /** The pattern a single line contributes, if any. */
  function LinePattern(line: string): (r: Option<string>)
    ensures r.Some? <==> KeepLine(Trim(line))
    ensures r.Some? ==> IsPattern(r.value)
  {
    var t := Trim(line);
    if KeepLine(t) then
      var p := Expand(t);
      assert p[0] == t[0];
      assert p[|p| - 1] == '*' || p == t;
      Some(p)
    else None
  }

  /** The lines' patterns, in line order. */
  function ParseLines(lines: seq<string>): (r: seq<string>)
    ensures |r| <= |lines|
    ensures forall p | p in r :: IsPattern(p)
  {
    if |lines| == 0 then []
    else
      var rest := ParseLines(lines[1..]);
      match LinePattern(lines[0])
      case Some(p) => [p] + rest
      case None => rest
  }

  /** `content.split('\n').map(trim).filter(keep).map(expand)`. */
  function ParsePatterns(content: string): (r: seq<string>)
    ensures |r| <= Count(content, '\n') + 1
    ensures forall p | p in r :: IsPattern(p)
  {
    ParseLines(Split(content, '\n'))
  }

  /** `getGitignorePatterns`: a `.gitignore` that could not be read, given as
      `None`, contributes no pattern rather than an error; a readable one
      gives the patterns of its lines. */
  function GetGitignorePatterns(cwdGitignore: Option<string>): (r: seq<string>)
    ensures cwdGitignore.None? ==> r == []
    ensures cwdGitignore.Some? ==> r == ParsePatterns(cwdGitignore.value)
    ensures forall p | p in r :: IsPattern(p)
  {
    match cwdGitignore
    case None => []
    case Some(content) => ParsePatterns(content)
  }

  lemma {:induction false} ParseLinesAppend(a: seq<string>, b: seq<string>)
    ensures ParseLines(a + b) == ParseLines(a) + ParseLines(b)
  {
    if |a| > 0 {
      assert (a + b)[1..] == a[1..] + b;
      ParseLinesAppend(a[1..], b);
    } else {
      assert a + b == b;
    }
  }

  /** The patterns of a text are those of its first line followed by those of
      the rest: output order is line order. */
  lemma ParsePatternsAppend(a: string, b: string)
    ensures ParsePatterns(a + "\n" + b) == ParsePatterns(a) + ParsePatterns(b)
  {
    SplitAppend(a, '\n', b);
    ParseLinesAppend(Split(a, '\n'), Split(b, '\n'));
  }

  /** A single line yields its trimmed, expanded form exactly when it is
      neither blank nor a comment. */
  lemma ParseOneLine(line: string)
    requires '\n' !in line
    ensures ParsePatterns(line) == (if KeepLine(Trim(line)) then [Expand(Trim(line))] else [])
  {
    SplitWithoutSeparator(line, '\n');
    assert [line][1..] == [];
  }

  /** A line that already is a pattern yields itself. */
  lemma ParsePatternLine(p: string)
    requires IsPattern(p) && '\n' !in p
    ensures ParsePatterns(p) == [p]
  {
    ParseOneLine(p);
    assert Trim(p) == p;
    assert !EndsWith(p, "/");
  }

  /** Two pattern lines yield the two patterns, in order. */
  lemma ParseTwoPatternLines(p: string, q: string)
    requires IsPattern(p) && '\n' !in p
    requires IsPattern(q) && '\n' !in q
    ensures ParsePatterns(p + "\n" + q) == [p, q]
  {
    ParsePatternLine(p);
    ParsePatternLine(q);
    ParsePatternsAppend(p, q);
  }

  /** The defaults are well-formed patterns without repetition. */
  lemma DefaultsWellFormed()
    ensures |DefaultIgnorePatterns| == 5
    ensures NoDuplicates(DefaultIgnorePatterns)
    ensures forall p | p in DefaultIgnorePatterns :: IsPattern(p)
  {
  }
}
