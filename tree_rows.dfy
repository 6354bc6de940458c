/**
 * What the lines of `generateDirectoryTree` (src/v2-core.ts) stand for.
 * Every line shows one entry of the directory map: its prefix, its
 * connector and the entry's display name. For paths that do not start with
 * `/`, every entry the paths add (each file, and each directory prefix of
 * each path) is shown on exactly one line, so the tree has one line more
 * than there are distinct entries.
 */
module TreeRows {
  import opened Wrappers
  import opened Strings
  import opened Seqs
  import opened Tree

  // ---------------------------------------------------------------- rows

  /** One rendered line: the entry it shows, the prefix before its
      connector, and whether the entry is the last of its directory. */
  datatype Row = Row(parent: string, item: string, prefix: string, isLast: bool)

  /** `prefix + currentPrefix + displayName`. */
  function RowLine(r: Row): string {
    r.prefix + Connector(r.isLast) + DisplayName(r.item)
  }

  function Lines(rs: seq<Row>): (r: seq<string>)
    ensures |r| == |rs| && forall i | 0 <= i < |rs| :: r[i] == RowLine(rs[i])
  {
    seq(|rs|, i requires 0 <= i < |rs| => RowLine(rs[i]))
  }

  /** The entries the rows show, in order. */
  function RowEntries(rs: seq<Row>): (r: seq<Entry>)
    ensures |r| == |rs| && forall i | 0 <= i < |rs| :: r[i] == (rs[i].parent, rs[i].item)
  {
    seq(|rs|, i requires 0 <= i < |rs| => (rs[i].parent, rs[i].item))
  }

  lemma RowsAppend(a: seq<Row>, b: seq<Row>)
    ensures Lines(a + b) == Lines(a) + Lines(b)
    ensures RowEntries(a + b) == RowEntries(a) + RowEntries(b)
  {
    assert forall i | 0 <= i < |a + b| :: Lines(a + b)[i] == (Lines(a) + Lines(b))[i];
    assert forall i | 0 <= i < |a + b| :: RowEntries(a + b)[i] == (RowEntries(a) + RowEntries(b))[i];
  }

  /** The rows `buildTree(dir, prefix)` renders, in order; an entry whose
      descent would not end gets its own row only. */
  function Rows(s: Structure, dir: string, prefix: string): seq<Row>
    decreases Measure(s, dir), 1, 0, 0
  {
    if dir !in s then [] else ItemRows(s, dir, 0, prefix)
  }

  function ItemRows(s: Structure, dir: string, j: nat, prefix: string): seq<Row>
    requires dir in s
    decreases Measure(s, dir), 0, |s[dir]| - j, 1
  {
    if j >= |s[dir]| then [] else BlockRows(s, dir, j, prefix) + ItemRows(s, dir, j + 1, prefix)
  }

  function BlockRows(s: Structure, dir: string, j: nat, prefix: string): seq<Row>
    requires dir in s && j < |s[dir]|
    decreases Measure(s, dir), 0, |s[dir]| - j, 0
  {
    var item, isLast := s[dir][j], j == |s[dir]| - 1;
    var row := Row(dir, item, prefix, isLast);
    if IsDirItem(item) && !Overflows(dir, item) then
      MeasureDecreases(s, dir, SubPath(dir, item));
      [row] + Rows(s, SubPath(dir, item), prefix + Indent(isLast))
    else [row]
  }

  /** Wherever the rendering ends, its lines are the lines of its rows. */
  lemma {:induction false} TreeLinesRows(s: Structure, dir: string, prefix: string)
    ensures TreeLines(s, dir, prefix).Some? ==> TreeLines(s, dir, prefix).value == Lines(Rows(s, dir, prefix))
    decreases Measure(s, dir), 1, 0, 0
  {
    if dir in s {
      ItemLinesRows(s, dir, 0, prefix);
    }
  }

  lemma {:induction false} ItemLinesRows(s: Structure, dir: string, j: nat, prefix: string)
    requires dir in s
    ensures ItemLines(s, dir, j, prefix).Some? ==> ItemLines(s, dir, j, prefix).value == Lines(ItemRows(s, dir, j, prefix))
    decreases Measure(s, dir), 0, |s[dir]| - j, 1
  {
    if j < |s[dir]| && ItemLines(s, dir, j, prefix).Some? {
      ItemBlockRows(s, dir, j, prefix);
      ItemLinesRows(s, dir, j + 1, prefix);
      RowsAppend(BlockRows(s, dir, j, prefix), ItemRows(s, dir, j + 1, prefix));
    }
  }

  lemma {:induction false} ItemBlockRows(s: Structure, dir: string, j: nat, prefix: string)
    requires dir in s && j < |s[dir]|
    ensures ItemBlock(s, dir, j, prefix).Some? ==> ItemBlock(s, dir, j, prefix).value == Lines(BlockRows(s, dir, j, prefix))
    decreases Measure(s, dir), 0, |s[dir]| - j, 0
  {
    var item, isLast := s[dir][j], j == |s[dir]| - 1;
    var row := Row(dir, item, prefix, isLast);
    assert Lines([row]) == [RowLine(row)];
    if IsDirItem(item) && !Overflows(dir, item) {
      var sub := SubPath(dir, item);
      MeasureDecreases(s, dir, sub);
      assert BlockRows(s, dir, j, prefix) == [row] + Rows(s, sub, prefix + Indent(isLast));
      TreeLinesRows(s, sub, prefix + Indent(isLast));
      RowsAppend([row], Rows(s, sub, prefix + Indent(isLast)));
    } else {
      assert BlockRows(s, dir, j, prefix) == [row];
    }
  }

  // ---------------------------------------------------------------- the entries visited

  /** The entries the rendering of `dir` shows, in order, whatever the
      prefix. */
  function Visited(s: Structure, dir: string): seq<Entry>
    decreases Measure(s, dir), 1, 0, 0
  {
    if dir !in s then [] else ItemsVisited(s, dir, 0)
  }

  function ItemsVisited(s: Structure, dir: string, j: nat): seq<Entry>
    requires dir in s
    decreases Measure(s, dir), 0, |s[dir]| - j, 1
  {
    if j >= |s[dir]| then [] else BlockVisited(s, dir, j) + ItemsVisited(s, dir, j + 1)
  }

  function BlockVisited(s: Structure, dir: string, j: nat): seq<Entry>
    requires dir in s && j < |s[dir]|
    decreases Measure(s, dir), 0, |s[dir]| - j, 0
  {
    var item := s[dir][j];
    if IsDirItem(item) && !Overflows(dir, item) then
      MeasureDecreases(s, dir, SubPath(dir, item));
      [(dir, item)] + Visited(s, SubPath(dir, item))
    else [(dir, item)]
  }

  lemma {:induction false} RowsVisit(s: Structure, dir: string, prefix: string)
    ensures RowEntries(Rows(s, dir, prefix)) == Visited(s, dir)
    decreases Measure(s, dir), 1, 0, 0
  {
    if dir in s {
      ItemRowsVisit(s, dir, 0, prefix);
    }
  }

  lemma {:induction false} ItemRowsVisit(s: Structure, dir: string, j: nat, prefix: string)
    requires dir in s
    ensures RowEntries(ItemRows(s, dir, j, prefix)) == ItemsVisited(s, dir, j)
    decreases Measure(s, dir), 0, |s[dir]| - j, 1
  {
    if j < |s[dir]| {
      BlockRowsVisit(s, dir, j, prefix);
      ItemRowsVisit(s, dir, j + 1, prefix);
      RowsAppend(BlockRows(s, dir, j, prefix), ItemRows(s, dir, j + 1, prefix));
    }
  }

  lemma {:induction false} BlockRowsVisit(s: Structure, dir: string, j: nat, prefix: string)
    requires dir in s && j < |s[dir]|
    ensures RowEntries(BlockRows(s, dir, j, prefix)) == BlockVisited(s, dir, j)
    decreases Measure(s, dir), 0, |s[dir]| - j, 0
  {
    var item, isLast := s[dir][j], j == |s[dir]| - 1;
    var row := Row(dir, item, prefix, isLast);
    assert RowEntries([row]) == [(dir, item)];
    if IsDirItem(item) && !Overflows(dir, item) {
      var sub := SubPath(dir, item);
      MeasureDecreases(s, dir, sub);
      var below := Rows(s, sub, prefix + Indent(isLast));
      assert BlockRows(s, dir, j, prefix) == [row] + below;
      assert BlockVisited(s, dir, j) == [(dir, item)] + Visited(s, sub);
      RowsVisit(s, sub, prefix + Indent(isLast));
      RowsAppend([row], below);
    } else {
      assert BlockRows(s, dir, j, prefix) == [row];
    }
  }

  /** Every visited entry is an item of its directory in the map. */
  lemma {:induction false} VisitedSound(s: Structure, dir: string)
    ensures forall e | e in Visited(s, dir) :: e.0 in s && e.1 in s[e.0]
    decreases Measure(s, dir), 1, 0, 0
  {
    if dir in s {
      ItemsVisitedSound(s, dir, 0);
    }
  }

  lemma {:induction false} ItemsVisitedSound(s: Structure, dir: string, j: nat)
    requires dir in s
    ensures forall e | e in ItemsVisited(s, dir, j) :: e.0 in s && e.1 in s[e.0]
    decreases Measure(s, dir), 0, |s[dir]| - j, 1
  {
    if j < |s[dir]| {
      BlockVisitedSound(s, dir, j);
      ItemsVisitedSound(s, dir, j + 1);
    }
  }

  lemma {:induction false} BlockVisitedSound(s: Structure, dir: string, j: nat)
    requires dir in s && j < |s[dir]|
    ensures forall e | e in BlockVisited(s, dir, j) :: e.0 in s && e.1 in s[e.0]
    decreases Measure(s, dir), 0, |s[dir]| - j, 0
  {
    var item := s[dir][j];
    if IsDirItem(item) && !Overflows(dir, item) {
      MeasureDecreases(s, dir, SubPath(dir, item));
      VisitedSound(s, SubPath(dir, item));
    }
  }

  // ---------------------------------------------------------------- sub-directories are apart

  /** `k` is the directory `c` or lies below it. */
  predicate Within(c: string, k: string) {
    k == c || c + "/" <= k
  }

  lemma SubPathLonger(dir: string, item: string)
    requires IsDirItem(item) && !Overflows(dir, item)
    ensures |SubPath(dir, item)| > |dir|
  {
  }

  /** What lies below a sub-directory lies below its directory. */
  lemma WithinSubPath(c: string, item: string, k: string)
    requires c != "" && Within(SubPath(c, item), k)
    ensures Within(c, k)
  {
    var sub := SubPath(c, item);
    assert sub <= k;
    assert sub[..|c| + 1] == c + "/";
    assert k[..|c| + 1] == sub[..|c| + 1];
  }

  lemma WithinPrefix(c: string, k: string)
    requires Within(c, k)
    ensures |c| <= |k| && k[..|c|] == c && (|k| > |c| ==> k[|c|] == '/')
  {
    if k != c {
      assert (c + "/")[|c|] == '/';
    }
  }

  /** Nothing lies below two different `/`-free names after one prefix. */
  lemma NamesApart(pre: string, na: string, nb: string, k: string)
    requires '/' !in na && '/' !in nb
    requires Within(pre + na, k) && Within(pre + nb, k)
    ensures na == nb
  {
    var sa, sb := pre + na, pre + nb;
    WithinPrefix(sa, k);
    WithinPrefix(sb, k);
    assert |na| == |nb|;
    assert na == sa[|pre|..] && nb == sb[|pre|..];
  }

  /** Nothing lies below two different sub-directories of one directory:
      their names hold no `/`. */
  lemma SiblingsApart(dir: string, a: string, b: string, k: string)
    requires Within(SubPath(dir, a), k) && Within(SubPath(dir, b), k)
    ensures SubPath(dir, a) == SubPath(dir, b)
  {
    var na, nb := LastSegment(ItemName(a)), LastSegment(ItemName(b));
    if dir != "" {
      NamesApart(dir + "/", na, nb, k);
    } else {
      assert "" + na == na && "" + nb == nb;
      NamesApart("", na, nb, k);
    }
  }

  /** Below a directory other than the root, every visited entry belongs to
      the directory or to one below it. */
  lemma {:induction false} VisitedWithin(s: Structure, c: string)
    requires c != ""
    ensures forall e | e in Visited(s, c) :: Within(c, e.0)
    decreases Measure(s, c), 1, 0, 0
  {
    if c in s {
      ItemsVisitedWithin(s, c, 0);
    }
  }

  lemma {:induction false} ItemsVisitedWithin(s: Structure, c: string, j: nat)
    requires c != "" && c in s
    ensures forall e | e in ItemsVisited(s, c, j) :: Within(c, e.0)
    decreases Measure(s, c), 0, |s[c]| - j, 1
  {
    if j < |s[c]| {
      BlockVisitedWithin(s, c, j);
      ItemsVisitedWithin(s, c, j + 1);
    }
  }

  lemma {:induction false} BlockVisitedWithin(s: Structure, c: string, j: nat)
    requires c != "" && c in s && j < |s[c]|
    ensures forall e | e in BlockVisited(s, c, j) :: Within(c, e.0)
    decreases Measure(s, c), 0, |s[c]| - j, 0
  {
    var item := s[c][j];
    if IsDirItem(item) && !Overflows(c, item) {
      var sub := SubPath(c, item);
      MeasureDecreases(s, c, sub);
      VisitedWithin(s, sub);
      forall e | e in Visited(s, sub)
        ensures Within(c, e.0)
      {
        WithinSubPath(c, item, e.0);
      }
    }
  }

  /** The rendering descends into entry `m` of `dir`. */
  predicate Descends(s: Structure, dir: string, m: nat)
    requires dir in s && m < |s[dir]|
  {
    IsDirItem(s[dir][m]) && !Overflows(dir, s[dir][m])
  }

  /** An entry visited from entry `j` on is an entry `m >= j` of `dir`, or
      lies below the sub-directory of such an entry. */
  lemma {:induction false} ItemsVisitedFrom(s: Structure, dir: string, j: nat, e: Entry)
    requires dir in s && e in ItemsVisited(s, dir, j)
    ensures exists m | j <= m < |s[dir]| ::
      e == (dir, s[dir][m]) || (Descends(s, dir, m) && Within(SubPath(dir, s[dir][m]), e.0))
    decreases |s[dir]| - j
  {
    var item := s[dir][j];
    if e in BlockVisited(s, dir, j) {
      if e != (dir, item) {
        var sub := SubPath(dir, item);
        SubPathLonger(dir, item);
        VisitedWithin(s, sub);
        assert Descends(s, dir, j) && Within(sub, e.0);
      }
    } else {
      ItemsVisitedFrom(s, dir, j + 1, e);
      var m :| j + 1 <= m < |s[dir]| &&
        (e == (dir, s[dir][m]) || (Descends(s, dir, m) && Within(SubPath(dir, s[dir][m]), e.0)));
      assert j <= m;
    }
  }

  // ---------------------------------------------------------------- each entry once

  /** The map as the paths build it: no set holds an item twice, and a
      directory entry names the directory the rendering descends into. */
  ghost predicate Tidy(s: Structure) {
    && (forall d | d in s :: NoDuplicates(s[d]))
    && (forall d, item | d in s && item in s[d] && IsDirItem(item) :: ItemName(item) == SubPath(d, item))
  }

  lemma DirItemOfName(item: string)
    requires IsDirItem(item)
    ensures item == ItemName(item) + "/"
  {
    assert item == item[..|item| - 1] + [item[|item| - 1]];
  }

  lemma DistinctSubPaths(s: Structure, dir: string, j: nat, m: nat)
    requires Tidy(s) && dir in s && j < m < |s[dir]| && IsDirItem(s[dir][j]) && IsDirItem(s[dir][m])
    ensures SubPath(dir, s[dir][j]) != SubPath(dir, s[dir][m])
  {
    DirItemOfName(s[dir][j]);
    DirItemOfName(s[dir][m]);
    assert s[dir][j] in s[dir] && s[dir][m] in s[dir];
  }

  /** The rendering of a tidy map shows no entry twice. */
  lemma {:induction false} VisitedOnce(s: Structure, dir: string)
    requires Tidy(s)
    ensures NoDuplicates(Visited(s, dir))
    decreases Measure(s, dir), 1, 0, 0
  {
    if dir in s {
      ItemsVisitedOnce(s, dir, 0);
    }
  }

  lemma {:induction false} ItemsVisitedOnce(s: Structure, dir: string, j: nat)
    requires Tidy(s) && dir in s
    ensures NoDuplicates(ItemsVisited(s, dir, j))
    decreases Measure(s, dir), 0, |s[dir]| - j, 1
  {
    if j < |s[dir]| {
      var a, b := BlockVisited(s, dir, j), ItemsVisited(s, dir, j + 1);
      BlockVisitedOnce(s, dir, j);
      ItemsVisitedOnce(s, dir, j + 1);
      forall x | x in a
        ensures x !in b
      {
        BlockApart(s, dir, j, x);
      }
      NoDuplicatesAppend(a, b);
    }
  }

  lemma {:induction false} BlockVisitedOnce(s: Structure, dir: string, j: nat)
    requires Tidy(s) && dir in s && j < |s[dir]|
    ensures NoDuplicates(BlockVisited(s, dir, j))
    decreases Measure(s, dir), 0, |s[dir]| - j, 0
  {
    var item := s[dir][j];
    if IsDirItem(item) && !Overflows(dir, item) {
      var sub := SubPath(dir, item);
      MeasureDecreases(s, dir, sub);
      assert BlockVisited(s, dir, j) == [(dir, item)] + Visited(s, sub);
      SubPathLonger(dir, item);
      VisitedOnce(s, sub);
      VisitedWithin(s, sub);
      assert (dir, item) !in Visited(s, sub);
      NoDuplicatesAppend([(dir, item)], Visited(s, sub));
    }
  }

  /** What entry `j` shows is not shown again by the entries after it. */
  lemma BlockApart(s: Structure, dir: string, j: nat, x: Entry)
    requires Tidy(s) && dir in s && j < |s[dir]| && x in BlockVisited(s, dir, j)
    ensures x !in ItemsVisited(s, dir, j + 1)
  {
    var item := s[dir][j];
    if x == (dir, item) {
      HeadApart(s, dir, j);
    } else {
      assert Descends(s, dir, j) && x in Visited(s, SubPath(dir, item));
      BelowApart(s, dir, j, x);
    }
  }

  /** Below the sub-directory of entry `m`, no entry of `dir` itself. */
  lemma NotOfDir(s: Structure, dir: string, m: nat, x: Entry)
    requires dir in s && m < |s[dir]| && Descends(s, dir, m) && Within(SubPath(dir, s[dir][m]), x.0)
    ensures x.0 != dir
  {
    SubPathLonger(dir, s[dir][m]);
  }

  lemma HeadApart(s: Structure, dir: string, j: nat)
    requires Tidy(s) && dir in s && j < |s[dir]|
    ensures (dir, s[dir][j]) !in ItemsVisited(s, dir, j + 1)
  {
    var x := (dir, s[dir][j]);
    if x in ItemsVisited(s, dir, j + 1) {
      ItemsVisitedFrom(s, dir, j + 1, x);
      var m :| j + 1 <= m < |s[dir]| &&
        (x == (dir, s[dir][m]) || (Descends(s, dir, m) && Within(SubPath(dir, s[dir][m]), x.0)));
      if x != (dir, s[dir][m]) {
        NotOfDir(s, dir, m, x);
      }
    }
  }

  lemma BelowApart(s: Structure, dir: string, j: nat, x: Entry)
    requires Tidy(s) && dir in s && j < |s[dir]| && Descends(s, dir, j)
    requires x in Visited(s, SubPath(dir, s[dir][j]))
    ensures x !in ItemsVisited(s, dir, j + 1)
  {
    var sub := SubPath(dir, s[dir][j]);
    SubPathLonger(dir, s[dir][j]);
    VisitedWithin(s, sub);
    assert Within(sub, x.0);
    NotOfDir(s, dir, j, x);
    if x in ItemsVisited(s, dir, j + 1) {
      ItemsVisitedFrom(s, dir, j + 1, x);
      var m :| j + 1 <= m < |s[dir]| &&
        (x == (dir, s[dir][m]) || (Descends(s, dir, m) && Within(SubPath(dir, s[dir][m]), x.0)));
      if x != (dir, s[dir][m]) {
        SiblingsApart(dir, s[dir][j], s[dir][m], x.0);
        DistinctSubPaths(s, dir, j, m);
      }
    }
  }

  /** What entry `m` shows, and what lies below it, is visited from `dir`. */
  lemma {:induction false} BlockInItems(s: Structure, dir: string, j: nat, m: nat, e: Entry)
    requires dir in s && j <= m < |s[dir]| && e in BlockVisited(s, dir, m)
    ensures e in ItemsVisited(s, dir, j)
    decreases m - j
  {
    if j < m {
      BlockInItems(s, dir, j + 1, m, e);
    }
  }

  lemma ChildVisited(s: Structure, dir: string, m: nat, e: Entry)
    requires dir in s && m < |s[dir]|
    requires e == (dir, s[dir][m]) || (Descends(s, dir, m) && e in Visited(s, SubPath(dir, s[dir][m])))
    ensures e in Visited(s, dir)
  {
    BlockInItems(s, dir, 0, m, e);
  }

  // ---------------------------------------------------------------- the map of the paths

  /** No path starts with `/`. */
  predicate Relative(paths: seq<string>) {
    forall k | 0 <= k < |paths| :: !(|paths[k]| > 0 && paths[k][0] == '/')
  }

  /** The directory `parts[..i]`, with the root for `i == 0`. */
  function PathKey(parts: seq<string>, i: nat): string
    requires i <= |parts|
  {
    if i == 0 then "" else Join(parts[..i], '/')
  }

  /** A path that does not start with `/` has a non-empty first piece when
      it has more than one. */
  lemma RelativeFirstPiece(path: string)
    requires !(|path| > 0 && path[0] == '/')
    ensures |Split(path, '/')| >= 2 ==> Split(path, '/')[0] != ""
  {
  }

  /** A name with a `/` appended is a directory entry for that name. */
  lemma DirItemName(name: string)
    ensures IsDirItem(name + "/") && ItemName(name + "/") == name
  {
    var item := name + "/";
    assert item[|item| - 1..] == "/";
    assert item[..|item| - 1] == name;
  }

  /** Below the root the directories have non-empty names. */
  lemma KeyNonEmpty(parts: seq<string>, i: nat)
    requires 0 < i <= |parts| && parts[0] != ""
    ensures PathKey(parts, i) != ""
  {
    if i == 1 {
      assert Join(parts[..1], '/') == parts[0];
    } else {
      JoinOfSeveral(parts[..i], '/');
    }
  }

  /** The directory of the first `i + 1` pieces is that of the first `i`,
      a `/` and piece `i`. */
  lemma KeyJoin(parts: seq<string>, i: nat)
    requires i + 1 < |parts| && parts[0] != ""
    ensures PathKey(parts, i + 1) ==
      if PathKey(parts, i) != "" then PathKey(parts, i) + "/" + parts[i] else parts[i]
  {
    if i == 0 {
      assert Join(parts[..1], '/') == parts[0];
    } else {
      JoinSnoc(parts[..i + 1], '/');
      assert parts[..i + 1][..i] == parts[..i];
      KeyNonEmpty(parts, i);
    }
  }

  /** The directory entry of level `i` is filed under the directory of the
      first `i` pieces, and its sub-path is the directory of the first
      `i + 1`. */
  lemma KeyStep(parts: seq<string>, i: nat)
    requires i + 1 < |parts| && parts[0] != ""
    requires forall k | 0 <= k < |parts| :: '/' !in parts[k]
    ensures DirEntry(parts, i) == (PathKey(parts, i), PathKey(parts, i + 1) + "/")
    ensures ItemName(PathKey(parts, i + 1) + "/") == PathKey(parts, i + 1)
    ensures SubPath(PathKey(parts, i), PathKey(parts, i + 1) + "/") == PathKey(parts, i + 1)
  {
    var next := PathKey(parts, i + 1);
    DirItemName(next);
    JoinLastSegment(parts[..i + 1]);
    assert parts[..i + 1][i] == parts[i];
    assert next == Join(parts[..i + 1], '/');
    KeyJoin(parts, i);
  }

  /** Every entry of a path is in the sorted map. */
  lemma InStructure(leq: (string, string) -> bool, paths: seq<string>, k: nat, e: Entry)
    requires k < |paths| && e in PathEntries(paths[k])
    ensures var s := SortedStructure(leq, StructureOf(paths)); e.0 in s && e.1 in s[e.0]
  {
    StructureMembers(paths, e.0, e.1);
    SortedMembers(leq, StructureOf(paths), e.0, e.1);
  }

  /** Every item of the sorted map is an entry some path adds. */
  lemma OfStructure(leq: (string, string) -> bool, paths: seq<string>, e: Entry)
    requires var s := SortedStructure(leq, StructureOf(paths)); e.0 in s && e.1 in s[e.0]
    ensures e in Entries(paths)
  {
    SortedMembers(leq, StructureOf(paths), e.0, e.1);
    StructureMembers(paths, e.0, e.1);
    EntriesMembers(paths, e);
  }

  lemma {:induction false} InsertNoDup(leq: (string, string) -> bool, x: string, xs: seq<string>)
    requires NoDuplicates(xs) && x !in xs
    ensures NoDuplicates(InsertItem(leq, x, xs))
  {
    if |xs| > 0 && !ItemBefore(leq, x, xs[0]) {
      NoDuplicatesTail(xs);
      InsertNoDup(leq, x, xs[1..]);
      var r := InsertItem(leq, x, xs[1..]);
      assert xs[0] !in multiset(r);
      NoDuplicatesAppend([xs[0]], r);
    } else if |xs| > 0 {
      NoDuplicatesAppend([x], xs);
    }
  }

  lemma {:induction false} SortNoDup(leq: (string, string) -> bool, xs: seq<string>)
    requires NoDuplicates(xs)
    ensures NoDuplicates(SortItems(leq, xs))
  {
    if |xs| > 0 {
      NoDuplicatesTail(xs);
      SortNoDup(leq, xs[1..]);
      var st := SortItems(leq, xs[1..]);
      assert xs[0] !in multiset(st);
      InsertNoDup(leq, xs[0], st);
    }
  }

  /** A directory entry of relative paths names its own sub-directory. */
  lemma DirItemPath(leq: (string, string) -> bool, paths: seq<string>, d: string, item: string)
    requires Relative(paths)
    requires var s := SortedStructure(leq, StructureOf(paths)); d in s && item in s[d] && IsDirItem(item)
    ensures ItemName(item) == SubPath(d, item)
  {
    SortedMembers(leq, StructureOf(paths), d, item);
    StructureMembers(paths, d, item);
    var k :| 0 <= k < |paths| && (d, item) in PathEntries(paths[k]);
    var parts := Split(paths[k], '/');
    var es := PathEntries(paths[k]);
    var i :| 0 <= i < |es| && es[i] == (d, item);
    RelativeFirstPiece(paths[k]);
    if i < |parts| - 1 {
      assert es[i] == DirEntry(parts, i);
      KeyStep(parts, i);
    } else {
      FileEntryIsFile(parts);
    }
  }

  lemma TidyStructure(leq: (string, string) -> bool, paths: seq<string>)
    requires Relative(paths)
    ensures Tidy(SortedStructure(leq, StructureOf(paths)))
  {
    var base := StructureOf(paths);
    var s := SortedStructure(leq, base);
    forall d | d in s
      ensures NoDuplicates(s[d])
    {
      SortedMembers(leq, base, d, "");
      StructureMembers(paths, d, "");
      SortNoDup(leq, base[d]);
    }
    forall d, item | d in s && item in s[d] && IsDirItem(item)
      ensures ItemName(item) == SubPath(d, item)
    {
      DirItemPath(leq, paths, d, item);
    }
  }

  /** Each level's directory is longer than the one above it. */
  lemma KeyLonger(parts: seq<string>, i: nat)
    requires 0 < i < |parts| && parts[0] != ""
    ensures |PathKey(parts, i)| > |PathKey(parts, i - 1)|
  {
    if i == 1 {
      assert Join(parts[..1], '/') == parts[0];
    } else {
      JoinSnoc(parts[..i], '/');
      assert parts[..i][..i - 1] == parts[..i - 1];
    }
  }

  /** Every entry the path adds is an item of its directory in `s`. */
  ghost predicate Covers(s: Structure, path: string) {
    forall e | e in PathEntries(path) :: e.0 in s && e.1 in s[e.0]
  }

  /** The directory of the first `i` pieces of a path is the sub-directory
      of an entry of the directory of the first `i - 1`, and the rendering
      descends into it. */
  lemma KeyChild(s: Structure, path: string, i: nat) returns (m: nat)
    requires !(|path| > 0 && path[0] == '/') && Covers(s, path) && 0 < i < |Split(path, '/')|
    ensures var parts := Split(path, '/');
      var d := PathKey(parts, i - 1);
      && d in s && m < |s[d]|
      && Descends(s, d, m) && SubPath(d, s[d][m]) == PathKey(parts, i)
  {
    var parts := Split(path, '/');
    var d, item := PathKey(parts, i - 1), PathKey(parts, i) + "/";
    RelativeFirstPiece(path);
    KeyStep(parts, i - 1);
    KeyLonger(parts, i);
    assert DirEntries(parts)[i - 1] == (d, item);
    assert (d, item) in PathEntries(path);
    m :| 0 <= m < |s[d]| && s[d][m] == item;
    assert IsDirItem(item) by {
      assert item[|item| - 1..] == "/";
    }
    assert Descends(s, d, m);
  }

  /** Everything visited from the directory of the first `i` pieces of a
      path is visited from the root. */
  lemma {:induction false} KeyVisited(s: Structure, path: string, i: nat, e: Entry)
    requires !(|path| > 0 && path[0] == '/') && Covers(s, path)
    requires i < |Split(path, '/')| && e in Visited(s, PathKey(Split(path, '/'), i))
    ensures e in Visited(s, "")
    decreases i
  {
    if i > 0 {
      var parts := Split(path, '/');
      var d := PathKey(parts, i - 1);
      var m := KeyChild(s, path, i);
      ChildVisited(s, d, m, e);
      KeyVisited(s, path, i - 1, e);
    }
  }

  /** Every entry of a relative path the map covers is visited from the
      root. */
  lemma PathEntryVisited(s: Structure, path: string, e: Entry)
    requires !(|path| > 0 && path[0] == '/') && Covers(s, path) && e in PathEntries(path)
    ensures e in Visited(s, "")
  {
    var parts := Split(path, '/');
    var m :| 0 <= m < |s[e.0]| && s[e.0][m] == e.1;
    ChildVisited(s, e.0, m, e);
    var es := PathEntries(path);
    var i :| 0 <= i < |es| && es[i] == e;
    if i < |parts| - 1 {
      assert e == DirEntry(parts, i);
      KeyVisited(s, path, i, e);
    } else {
      assert e == FileEntry(parts);
      KeyVisited(s, path, |parts| - 1, e);
    }
  }

  /** Every entry of relative paths is visited from the root. */
  lemma EntryVisited(leq: (string, string) -> bool, paths: seq<string>, e: Entry)
    requires Relative(paths) && e in Entries(paths)
    ensures e in Visited(SortedStructure(leq, StructureOf(paths)), "")
  {
    var s := SortedStructure(leq, StructureOf(paths));
    EntriesMembers(paths, e);
    var k :| 0 <= k < |paths| && e in PathEntries(paths[k]);
    forall x | x in PathEntries(paths[k])
      ensures x.0 in s && x.1 in s[x.0]
    {
      InStructure(leq, paths, k, x);
    }
    PathEntryVisited(s, paths[k], e);
  }

  /** For paths that do not start with `/`, `generateDirectoryTree` is the
      `.` line and the lines of the rows; each row shows one entry of the
      paths with its prefix, its connector and its display name, no entry
      is shown twice, and every entry is shown. So the tree has exactly one
      line more than there are distinct entries: every file and every
      directory prefix of every path appears on exactly one line. */
  lemma TreeShowsEachEntryOnce(leq: (string, string) -> bool, paths: seq<string>)
    requires Relative(paths)
    ensures var rows := Rows(SortedStructure(leq, StructureOf(paths)), "", "");
      && DirectoryTree(leq, paths) == Some(Join(["."] + Lines(rows), '\n'))
      && NoDuplicates(RowEntries(rows))
      && (forall e :: e in RowEntries(rows) <==> e in Entries(paths))
      && |["."] + Lines(rows)| == 1 + |set e | e in Entries(paths)|
  {
    var s := SortedStructure(leq, StructureOf(paths));
    var rows := Rows(s, "", "");
    DirectoryTreeOverflow(leq, paths);
    TreeLinesRows(s, "", "");
    RowsVisit(s, "", "");
    TidyStructure(leq, paths);
    VisitedOnce(s, "");
    VisitedSound(s, "");
    var v := Visited(s, "");
    forall e
      ensures e in v <==> e in Entries(paths)
    {
      if e in v {
        OfStructure(leq, paths, e);
      }
      if e in Entries(paths) {
        EntryVisited(leq, paths, e);
      }
    }
    DistinctCard(v);
    assert (set e | e in v) == (set e | e in Entries(paths));
  }
}
