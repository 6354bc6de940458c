/**
 * The JavaScript string operations and the Node.js `path` helpers that the
 * modelled code relies on, written out over `seq<char>`.
 */
module Strings {

  /** The characters ECMAScript's `String.prototype.trim` removes:
      WhiteSpace (including every space separator) and LineTerminator. */
  predicate IsWhitespace(c: char) {
    || c == ' ' || c == '\t' || c == '\n' || c == '\r'
    || c == '\U{B}' || c == '\U{C}' || c == '\U{A0}' || c == '\U{1680}'
    || ('\U{2000}' <= c <= '\U{200A}')
    || c == '\U{2028}' || c == '\U{2029}' || c == '\U{202F}'
    || c == '\U{205F}' || c == '\U{3000}' || c == '\U{FEFF}'
  }

  predicate EndsWith(s: string, suffix: string) {
    |suffix| <= |s| && s[|s| - |suffix|..] == suffix
  }

  /** Number of occurrences of `c` in `s`. */
  function Count(s: string, c: char): (n: nat)
    ensures n <= |s|
    ensures n == 0 <==> c !in s
  {
    if |s| == 0 then 0
    else (if s[0] == c then 1 else 0) + Count(s[1..], c)
  }

  /** `s.indexOf(c)`: the first index of `c`, or -1. */
  function IndexOf(s: string, c: char): (i: int)
    ensures -1 <= i < |s|
    ensures i == -1 <==> c !in s
    ensures 0 <= i ==> s[i] == c && c !in s[..i]
  {
    if |s| == 0 then -1
    else if s[0] == c then 0
    else
      var j := IndexOf(s[1..], c);
      assert s[1..][..if j < 0 then 0 else j] == s[1..1 + if j < 0 then 0 else j];
      if j < 0 then -1 else j + 1
  }

  /** `s.lastIndexOf(c)`: the last index of `c`, or -1. */
  function LastIndexOf(s: string, c: char): (i: int)
    ensures -1 <= i < |s|
    ensures i == -1 <==> c !in s
    ensures 0 <= i ==> s[i] == c && c !in s[i + 1..]
  {
    if |s| == 0 then -1
    else if s[|s| - 1] == c then |s| - 1
    else
      var j := LastIndexOf(s[..|s| - 1], c);
      assert j >= 0 ==> s[j + 1..] == s[..|s| - 1][j + 1..] + [s[|s| - 1]];
      j
  }

  /** `s.substring(start)` for a non-negative start: clamped to the length. */
  function Substring(s: string, start: nat): (r: string)
    ensures start <= |s| ==> r == s[start..]
    ensures start > |s| ==> r == ""
  {
    if start <= |s| then s[start..] else ""
  }

  // ---------------------------------------------------------------- trim

  function TrimStart(s: string): (r: string)
    ensures |r| <= |s| && r == s[|s| - |r|..]
    ensures forall k | 0 <= k < |s| - |r| :: IsWhitespace(s[k])
    ensures r == "" || !IsWhitespace(r[0])
  {
    if |s| > 0 && IsWhitespace(s[0]) then TrimStart(s[1..]) else s
  }

  function TrimEnd(s: string): (r: string)
    ensures |r| <= |s| && r == s[..|r|]
    ensures forall k | |r| <= k < |s| :: IsWhitespace(s[k])
    ensures r == "" || !IsWhitespace(r[|r| - 1])
  {
    if |s| > 0 && IsWhitespace(s[|s| - 1]) then TrimEnd(s[..|s| - 1]) else s
  }

  /** `s.trim()`: `s` without its leading and trailing whitespace. */
  function Trim(s: string): (r: string)
    ensures |r| <= |s|
    ensures r == "" || (!IsWhitespace(r[0]) && !IsWhitespace(r[|r| - 1]))
    ensures r == "" <==> forall k | 0 <= k < |s| :: IsWhitespace(s[k])
    ensures (|s| == 0 || (!IsWhitespace(s[0]) && !IsWhitespace(s[|s| - 1]))) ==> r == s
  {
    var t := TrimStart(s);
    var r := TrimEnd(t);
    TrimmedBothEnds(s, t, r);
    r
  }

  /** What trimming the start and then the end guarantees about the result. */
  lemma TrimmedBothEnds(s: string, t: string, r: string)
    requires |t| <= |s| && t == s[|s| - |t|..]
    requires forall k | 0 <= k < |s| - |t| :: IsWhitespace(s[k])
    requires t == "" || !IsWhitespace(t[0])
    requires |r| <= |t| && r == t[..|r|]
    requires forall k | |r| <= k < |t| :: IsWhitespace(t[k])
    requires r == "" || !IsWhitespace(r[|r| - 1])
    ensures r == "" || (!IsWhitespace(r[0]) && !IsWhitespace(r[|r| - 1]))
    ensures r == "" <==> forall k | 0 <= k < |s| :: IsWhitespace(s[k])
    ensures (|s| == 0 || (!IsWhitespace(s[0]) && !IsWhitespace(s[|s| - 1]))) ==> r == s
  {
    if r == "" {
      // `t` is all whitespace but does not start with whitespace.
      assert |t| == 0;
    } else {
      assert r[0] == t[0] == s[|s| - |t|];
    }
  }

  // ---------------------------------------------------------------- split / join

  /** `parts.join(sep)`. */
  function Join(parts: seq<string>, sep: char): string {
    if |parts| == 0 then ""
    else if |parts| == 1 then parts[0]
    else parts[0] + [sep] + Join(parts[1..], sep)
  }

  /** `s.split(sep)` for a one-character separator: the pieces between the
      separators, so there is one more piece than there are separators and
      joining them back gives `s`. */
  function Split(s: string, sep: char): (parts: seq<string>)
    ensures |parts| == Count(s, sep) + 1
    ensures forall i | 0 <= i < |parts| :: sep !in parts[i]
    ensures Join(parts, sep) == s
  {
    if |s| == 0 then [""]
    else
      var rest := Split(s[1..], sep);
      assert s == [s[0]] + s[1..];
      JoinPush(s[0], rest, sep);
      Push(s[0], rest, sep)
  }

  /** The pieces of `[c] + t` from the pieces of `t`: a separator starts a
      new empty piece, any other character goes to the front of the first. */
  function Push(c: char, rest: seq<string>, sep: char): (parts: seq<string>)
    requires |rest| > 0
    ensures |parts| == |rest| + (if c == sep then 1 else 0)
    ensures (forall i | 0 <= i < |rest| :: sep !in rest[i]) ==> forall i | 0 <= i < |parts| :: sep !in parts[i]
  {
    if c == sep then [""] + rest else [[c] + rest[0]] + rest[1..]
  }

  lemma JoinPush(c: char, rest: seq<string>, sep: char)
    requires |rest| > 0
    ensures Join(Push(c, rest, sep), sep) == [c] + Join(rest, sep)
  {
    var parts := Push(c, rest, sep);
    if c != sep && |rest| > 1 {
      assert parts[1..] == rest[1..];
    }
  }

  /** Pushing onto the front commutes with appending more pieces. */
  lemma PushAppend(c: char, ra: seq<string>, rb: seq<string>, sep: char)
    requires |ra| > 0
    ensures Push(c, ra + rb, sep) == Push(c, ra, sep) + rb
  {
    assert (ra + rb)[1..] == ra[1..] + rb;
  }

  /** Splitting distributes over a separator: the pieces of `a + sep + b`
      are the pieces of `a` followed by the pieces of `b`. */
  lemma {:induction false} SplitAppend(a: string, sep: char, b: string)
    ensures Split(a + [sep] + b, sep) == Split(a, sep) + Split(b, sep)
  {
    var s := a + [sep] + b;
    if |a| == 0 {
      assert s[0] == sep && s[1..] == b;
    } else {
      assert s[0] == a[0] && s[1..] == a[1..] + [sep] + b;
      SplitAppend(a[1..], sep, b);
      PushAppend(a[0], Split(a[1..], sep), Split(b, sep), sep);
    }
  }

  /** A string without the separator is one piece. */
  lemma SplitWithoutSeparator(s: string, sep: char)
    requires sep !in s
    ensures Split(s, sep) == [s]
  {
    var parts := Split(s, sep);
    assert |parts| == 1;
  }

  // ---------------------------------------------------------------- case

  /** ASCII upper case to lower case; every other character is unchanged. */
  function LowerChar(c: char): char {
    if 'A' <= c <= 'Z' then (c as int + 32) as char else c
  }

  /** `s.toLowerCase()` restricted to ASCII letters. */
  function ToLower(s: string): (r: string)
    ensures |r| == |s|
    ensures forall i | 0 <= i < |s| :: r[i] == LowerChar(s[i])
  {
    seq(|s|, i requires 0 <= i < |s| => LowerChar(s[i]))
  }

  predicate IsLower(s: string) {
    forall i | 0 <= i < |s| :: !('A' <= s[i] <= 'Z')
  }

  /** Lowering twice is lowering once, and the result has no upper-case letter. */
  lemma ToLowerIdempotent(s: string)
    ensures ToLower(ToLower(s)) == ToLower(s)
    ensures IsLower(ToLower(s))
  {
  }

  // ---------------------------------------------------------------- node's path module (POSIX)

  function StripTrailingSlashes(s: string): (r: string)
    ensures r <= s
    ensures r == "" || r[|r| - 1] != '/'
    ensures forall k | |r| <= k < |s| :: s[k] == '/'
  {
    if |s| > 0 && s[|s| - 1] == '/' then StripTrailingSlashes(s[..|s| - 1]) else s
  }

  /** `s.split('/').pop()`: the text after the last `/`. */
  function LastSegment(s: string): (r: string)
    ensures '/' !in r
    ensures |r| <= |s| && r == s[|s| - |r|..]
    ensures |r| < |s| ==> s[|s| - |r| - 1] == '/'
  {
    var k := LastIndexOf(s, '/');
    if k < 0 then s else s[k + 1..]
  }

  /** `path.basename(p)`: the last segment once trailing slashes are
      dropped. */
  function Basename(p: string): (r: string)
    ensures '/' !in r && |r| <= |p|
  {
    LastSegment(StripTrailingSlashes(p))
  }

  /** `path.extname(p)`: from the last `.` of the last segment (trailing
      slashes ignored) to its end; empty when the segment has no dot, when
      its only dot-free prefix is empty (`.bashrc`), or when it is `..`. */
  function Extname(p: string): (r: string)
    ensures r == "" || (r[0] == '.' && '.' !in r[1..] && '/' !in r)
  {
    var seg := LastSegment(StripTrailingSlashes(p));
    var d := LastIndexOf(seg, '.');
    if d <= 0 || seg == ".." then "" else seg[d..]
  }

  /** The extension of a file name `dir + base + "." + x`, where `dir` is empty
      or ends in `/` and neither `base` nor `x` contains a `/`, is `"." + x`
      when `base` is non-empty and `x` has no dot. */
  lemma ExtnameOfName(dir: string, base: string, x: string)
    requires dir == "" || dir[|dir| - 1] == '/'
    requires '/' !in base && '/' !in x && '.' !in x
    requires base != "" && !(base == "." && x == "")
    ensures Extname(dir + base + "." + x) == "." + x
  {
    var name := base + "." + x;
    var p := dir + base + "." + x;
    assert p == dir + name;
    NameShape(base, x);
    NoTrailingSlash(dir, name);
    LastSegmentAfterSlash(dir, name);
    assert LastSegment(StripTrailingSlashes(p)) == name;
    LastIndexOfBefore(base, '.', x);
    ExtnameOf(p, name, |base|);
  }

  lemma NoTrailingSlash(dir: string, name: string)
    requires name != "" && '/' !in name
    ensures StripTrailingSlashes(dir + name) == dir + name
  {
    var p := dir + name;
    assert p[|p| - 1] == name[|name| - 1];
  }

  lemma NameShape(base: string, x: string)
    requires '/' !in base && '/' !in x
    requires base != "" && !(base == "." && x == "")
    ensures '/' !in base + "." + x
    ensures base + "." + x != ".."
    ensures (base + "." + x)[|base|..] == "." + x
  {
    var name := base + "." + x;
    assert name[..|base|] == base && name[|base| + 1..] == x;
  }

  lemma ExtnameOf(p: string, seg: string, d: int)
    requires LastSegment(StripTrailingSlashes(p)) == seg
    requires LastIndexOf(seg, '.') == d && d > 0 && seg != ".."
    ensures Extname(p) == seg[d..]
  {
  }

  /** The last segment of `dir + name` is `name` when `dir` is empty or ends
      in `/` and `name` has no `/`. */
  lemma LastSegmentAfterSlash(dir: string, name: string)
    requires dir == "" || dir[|dir| - 1] == '/'
    requires '/' !in name
    ensures LastSegment(dir + name) == name
  {
    var p := dir + name;
    if dir == "" {
      assert p == name;
    } else {
      LastIndexOfBefore(dir[..|dir| - 1], '/', name);
      assert dir[..|dir| - 1] + ['/'] + name == p;
    }
  }

  /** The last `c` of `a + [c] + b` is the one after `a` when `b` has none. */
  lemma {:induction false} LastIndexOfBefore(a: string, c: char, b: string)
    requires c !in b
    ensures LastIndexOf(a + [c] + b, c) == |a|
    decreases |b|
  {
    var s := a + [c] + b;
    if |b| > 0 {
      assert s[..|s| - 1] == a + [c] + b[..|b| - 1];
      assert s[|s| - 1] == b[|b| - 1];
      LastIndexOfBefore(a, c, b[..|b| - 1]);
    }
  }

  /** Scan used by `path.dirname`: from index `i` down to 1, the index of
      the first `/` met after a non-slash character, or -1. */
  function DirEnd(s: string, i: int, matchedSlash: bool): (e: int)
    requires i < |s|
    ensures e == -1 || 1 <= e <= i
    ensures e != -1 ==> s[e] == '/'
    decreases i
  {
    if i < 1 then -1
    else if s[i] == '/' then (if !matchedSlash then i else DirEnd(s, i - 1, matchedSlash))
    else DirEnd(s, i - 1, false)
  }

  /** The measure by which `path.dirname` approaches its fixed point. */
  function DirMeasure(s: string): nat {
    if s == "." || s == "/" then 0 else |s| + 1
  }

  /** `path.dirname(s)` (POSIX): the path without its last segment. Either its
      argument is a fixed point or the result is strictly closer to one. */
  function Dirname(s: string): (r: string)
    ensures r == s || DirMeasure(r) < DirMeasure(s)
    ensures |s| > 0 && s[0] == '/' ==> |r| > 0 && r[0] == '/'
  {
    if |s| == 0 then "."
    else
      var e := DirEnd(s, |s| - 1, true);
      if e == -1 then (if s[0] == '/' then "/" else ".")
      else if s[0] == '/' && e == 1 then
        assert s[2..] != [] by { DirEndFoundNonSlash(s, |s| - 1, true); }
        "//"
      else s[..e]
  }

  /** When the scan finds an end, a non-slash character follows it. */
  lemma {:induction false} DirEndFoundNonSlash(s: string, i: int, matchedSlash: bool)
    requires i < |s|
    requires DirEnd(s, i, matchedSlash) != -1
    ensures DirEnd(s, i, matchedSlash) < i || !matchedSlash
    ensures DirEnd(s, i, matchedSlash) + 1 < |s| || !matchedSlash
  {
    if i >= 1 && s[i] == '/' && matchedSlash {
      DirEndFoundNonSlash(s, i - 1, matchedSlash);
    }
  }

  /** Over a run of non-slash characters ending at `i`, the scan goes on to
      the slash just before the run. */
  lemma {:induction false} DirEndOverName(s: string, start: nat, i: int, matchedSlash: bool)
    requires 2 <= start <= i + 1 <= |s|
    requires s[start - 1] == '/'
    requires forall k | start <= k <= i :: s[k] != '/'
    requires start <= i || !matchedSlash
    ensures DirEnd(s, i, matchedSlash) == start - 1
    decreases i
  {
    if i >= start {
      DirEndOverName(s, start, i - 1, false);
    }
  }

  /** The parent of an absolute directory `d` plus one more segment is `d`
      itself; the parent of a segment directly under the root is `/`. */
  lemma DirnameOfChild(d: string, name: string)
    requires |d| > 0 && d[0] == '/'
    requires '/' !in name && name != ""
    ensures d[|d| - 1] != '/' ==> Dirname(d + "/" + name) == d
    ensures Dirname("/" + name) == "/"
  {
    var s := d + "/" + name;
    if d[|d| - 1] != '/' {
      DirEndOverName(s, |d| + 1, |s| - 1, true);
      assert s[..|d|] == d;
    }
    var t := "/" + name;
    if |t| - 1 >= 1 {
      assert DirEnd(t, |t| - 1, true) == -1 by {
        DirEndNoSlash(t, |t| - 1, true);
      }
    }
  }

  lemma {:induction false} DirEndNoSlash(s: string, i: int, matchedSlash: bool)
    requires i < |s|
    requires forall k | 1 <= k <= i :: s[k] != '/'
    ensures DirEnd(s, i, matchedSlash) == -1
    decreases i
  {
    if i >= 1 {
      DirEndNoSlash(s, i - 1, false);
    }
  }

  // ---------------------------------------------------------------- numbers

  function DigitChar(d: nat): char
    requires d < 10
  {
    "0123456789"[d]
  }

  /** The decimal rendering JavaScript gives a non-negative integer. */
  function NatToString(n: nat): (r: string)
    ensures |r| >= 1
    ensures forall k | 0 <= k < |r| :: '0' <= r[k] <= '9'
  {
    if n < 10 then [DigitChar(n)] else NatToString(n / 10) + [DigitChar(n % 10)]
  }

  function IntToString(i: int): (r: string)
    ensures |r| >= 1
  {
    if i < 0 then "-" + NatToString(-i) else NatToString(i)
  }
}
