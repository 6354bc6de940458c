/**
 * `generateDirectoryTree` (src/v2-core.ts): the ASCII tree of the file
 * paths that goes into the header. It first records, for every directory,
 * the set of its entries (sub-directories as their full path plus `/`,
 * files as their bare name, each set in first-insertion order), then sorts
 * every set with directories first, and finally renders the sets
 * recursively from the root.
 *
 * `String.prototype.localeCompare` is not modelled: the tie-breaking order
 * is a parameter `leq`, assumed to be a total order where a property needs
 * it.
 */
module Tree {
  import opened Wrappers
  import opened Strings
  import opened Seqs
  import Types

  /** The directory map: each directory's entries in their set order. */
  type Structure = map<string, seq<string>>

  /** One `structure.get(parent).add(item)`: the directory and the entry. */
  type Entry = (string, string)

  /** Directory entries are recorded with a trailing `/`. */
  predicate IsDirItem(item: string) {
    EndsWith(item, "/")
  }

  // ---------------------------------------------------------------- the entries of the paths

  /** The entry for the directory `parts[..i + 1]`, filed under its parent. */
  function DirEntry(parts: seq<string>, i: nat): Entry
    requires i < |parts|
  {
    (if i == 0 then "" else Join(parts[..i], '/'), Join(parts[..i + 1], '/') + "/")
  }

  /** The entry for the file itself: its last segment under its directory. */
  function FileEntry(parts: seq<string>): Entry
    requires |parts| > 0
  {
    (if |parts| > 1 then Join(parts[..|parts| - 1], '/') else "", parts[|parts| - 1])
  }

  /** The entries one path adds: one per directory level, then the file. */
  function DirEntries(parts: seq<string>): (r: seq<Entry>)
    requires |parts| > 0
    ensures |r| == |parts| - 1
    ensures forall i | 0 <= i < |r| :: r[i] == DirEntry(parts, i)
  {
    seq(|parts| - 1, i requires 0 <= i < |parts| - 1 => DirEntry(parts, i))
  }

  function PathEntries(path: string): seq<Entry> {
    var parts := Split(path, '/');
    DirEntries(parts) + [FileEntry(parts)]
  }

  /** The entries of all paths, in the order the loops add them. */
  function Entries(paths: seq<string>): seq<Entry> {
    FlatMap(PathEntries, paths)
  }

  lemma EntriesStep(paths: seq<string>, k: nat)
    requires k < |paths|
    ensures Entries(paths[..k + 1]) == Entries(paths[..k]) + PathEntries(paths[k])
  {
    assert paths[..k + 1] == paths[..k] + [paths[k]];
    FlatMapSnoc(PathEntries, paths[..k], paths[k]);
  }

  /** An entry comes from one of the paths. */
  lemma EntriesMembers(paths: seq<string>, e: Entry)
    ensures e in Entries(paths) <==> exists k | 0 <= k < |paths| :: e in PathEntries(paths[k])
  {
    FlatMapMember(PathEntries, paths, e);
  }

  // ---------------------------------------------------------------- building the map

  /** `structure.get(parent).add(item)`, creating the set first when
      `parent` has none; adding an entry twice changes nothing. */
  function Add(s: Structure, e: Entry): Structure {
    var (parent, item) := e;
    if parent !in s then s[parent := [item]]
    else if item in s[parent] then s
    else s[parent := s[parent] + [item]]
  }

  function AddAll(s: Structure, es: seq<Entry>): Structure {
    if |es| == 0 then s else Add(AddAll(s, es[..|es| - 1]), es[|es| - 1])
  }

  lemma AddAllStep(s: Structure, es: seq<Entry>, i: nat)
    requires i < |es|
    ensures AddAll(s, es[..i + 1]) == Add(AddAll(s, es[..i]), es[i])
  {
    assert es[..i + 1][..i] == es[..i];
  }

  lemma {:induction false} AddAllAppend(s: Structure, a: seq<Entry>, b: seq<Entry>)
    ensures AddAll(s, a + b) == AddAll(AddAll(s, a), b)
    decreases |b|
  {
    if |b| == 0 {
      assert a + b == a;
    } else {
      assert (a + b)[..|a + b| - 1] == a + b[..|b| - 1];
      AddAllAppend(s, a, b[..|b| - 1]);
    }
  }

  /** The map the first loop builds. */
  function StructureOf(paths: seq<string>): Structure {
    AddAll(map[], Entries(paths))
  }

  /** The items filed under `parent`, in entry order, repetitions included. */
  function ItemsUnder(es: seq<Entry>, parent: string): seq<string> {
    if |es| == 0 then []
    else
      var e := es[|es| - 1];
      ItemsUnder(es[..|es| - 1], parent) + (if e.0 == parent then [e.1] else [])
  }

  /** The directories of the map are the parents of the entries. */
  lemma {:induction false} AddAllKeys(es: seq<Entry>)
    ensures AddAll(map[], es).Keys == set e | e in es :: e.0
  {
    if |es| > 0 {
      var init := es[..|es| - 1];
      assert es == init + [es[|es| - 1]];
      AddAllKeys(init);
    }
  }

  /** Each directory's set is its items without repetitions, in the order
      of their first insertion. */
  lemma {:induction false} AddAllContents(es: seq<Entry>)
    ensures forall p | p in AddAll(map[], es) :: AddAll(map[], es)[p] == Dedup(ItemsUnder(es, p))
  {
    if |es| > 0 {
      var init, e := es[..|es| - 1], es[|es| - 1];
      assert es == init + [e];
      AddAllKeys(init);
      AddAllContents(init);
      forall p | p in AddAll(map[], es)
        ensures AddAll(map[], es)[p] == Dedup(ItemsUnder(es, p))
      {
        AddContentsStep(AddAll(map[], init), init, e, p);
      }
    }
  }

  lemma AddContentsStep(m: Structure, init: seq<Entry>, e: Entry, p: string)
    requires m.Keys == set e | e in init :: e.0
    requires forall q | q in m :: m[q] == Dedup(ItemsUnder(init, q))
    requires p in Add(m, e)
    ensures Add(m, e)[p] == Dedup(ItemsUnder(init + [e], p))
  {
    var items := ItemsUnder(init, p);
    assert (init + [e])[..|init|] == init;
    assert ItemsUnder(init + [e], p) == items + (if e.0 == p then [e.1] else []);
    if p != e.0 {
      assert Add(m, e)[p] == m[p];
      assert items + [] == items;
    } else if p !in m {
      NoItemsUnder(init, p);
      DedupSnoc(items, e.1);
      assert Add(m, e)[p] == [e.1];
    } else {
      DedupSnoc(items, e.1);
    }
  }

  /** A directory that is no entry's parent has no items. */
  lemma {:induction false} NoItemsUnder(es: seq<Entry>, parent: string)
    requires forall e | e in es :: e.0 != parent
    ensures ItemsUnder(es, parent) == []
  {
    if |es| > 0 {
      var init := es[..|es| - 1];
      assert forall e | e in init :: e in es;
      NoItemsUnder(init, parent);
    }
  }

  /** `item` is in the set of `parent` exactly when some path adds that entry;
      no set holds an item twice. */
  lemma StructureMembers(paths: seq<string>, parent: string, item: string)
    ensures parent in StructureOf(paths) ==> NoDuplicates(StructureOf(paths)[parent])
    ensures (parent in StructureOf(paths) && item in StructureOf(paths)[parent])
        <==> exists k | 0 <= k < |paths| :: (parent, item) in PathEntries(paths[k])
  {
    var es := Entries(paths);
    AddAllKeys(es);
    AddAllContents(es);
    ItemsUnderMembers(es, parent, item);
    EntriesMembers(paths, (parent, item));
  }

  lemma {:induction false} ItemsUnderMembers(es: seq<Entry>, parent: string, item: string)
    ensures item in ItemsUnder(es, parent) <==> (parent, item) in es
  {
    if |es| > 0 {
      var init := es[..|es| - 1];
      assert es == init + [es[|es| - 1]];
      ItemsUnderMembers(init, parent, item);
    }
  }

  /** One `structure.get(parentPath)!.add(item)`, with the `has`/`set` before it. */
  method Insert(s: Structure, parent: string, item: string) returns (r: Structure)
    ensures r == Add(s, (parent, item))
  {
    r := s;
    if parent !in r {
      r := r[parent := []];
    }
    if item !in r[parent] {
      assert [] + [item] == [item];
      r := r[parent := r[parent] + [item]];
    } else {
      assert r == s;
    }
  }

  /** The body of the outer loop: every directory level of one path, then
      the file. */
  method AddPath(s0: Structure, path: string) returns (s: Structure)
    ensures s == AddAll(s0, PathEntries(path))
  {
    var parts := Split(path, '/');
    ghost var dirs := DirEntries(parts);
    s := s0;
    for i := 0 to |parts| - 1
      invariant s == AddAll(s0, dirs[..i])
    {
      var currentPath := Join(parts[..i + 1], '/');
      var parentPath := if i == 0 then "" else Join(parts[..i], '/');
      assert dirs[i] == DirEntry(parts, i) == (parentPath, currentPath + "/");
      s := Insert(s, parentPath, currentPath + "/");
      AddAllStep(s0, dirs, i);
    }
    var parentDir := if |parts| > 1 then Join(parts[..|parts| - 1], '/') else "";
    assert dirs[..|parts| - 1] == dirs;
    assert FileEntry(parts) == (parentDir, parts[|parts| - 1]);
    s := Insert(s, parentDir, parts[|parts| - 1]);
    AddAllAppend(s0, dirs, [FileEntry(parts)]);
    assert AddAll(s, []) == s;
  }

  /** The first loop of `generateDirectoryTree`. */
  method BuildStructure(paths: seq<string>) returns (structure: Structure)
    ensures structure == StructureOf(paths)
  {
    structure := map[];
    for k := 0 to |paths|
      invariant structure == AddAll(map[], Entries(paths[..k]))
    {
      structure := AddPath(structure, paths[k]);
      EntriesStep(paths, k);
      AddAllAppend(map[], Entries(paths[..k]), PathEntries(paths[k]));
    }
    assert paths[..|paths|] == paths;
  }

  // ---------------------------------------------------------------- sorting each set

  /** What `localeCompare` must be for the sort to be well defined. */
  ghost predicate TotalOrder(leq: (string, string) -> bool) {
    && (forall a, b :: leq(a, b) || leq(b, a))
    && (forall a, b | leq(a, b) && leq(b, a) :: a == b)
    && (forall a, b, c | leq(a, b) && leq(b, c) :: leq(a, c))
  }

  /** The comparator: a directory before a file, otherwise `leq`. */
  predicate ItemBefore(leq: (string, string) -> bool, a: string, b: string) {
    if IsDirItem(a) != IsDirItem(b) then IsDirItem(a) else leq(a, b)
  }

  predicate SortedItems(leq: (string, string) -> bool, xs: seq<string>) {
    forall i, j | 0 <= i < j < |xs| :: ItemBefore(leq, xs[i], xs[j])
  }

  function InsertItem(leq: (string, string) -> bool, x: string, xs: seq<string>): (r: seq<string>)
    ensures |r| == |xs| + 1
    ensures multiset(r) == multiset(xs) + multiset{x}
  {
    if |xs| == 0 then [x]
    else if ItemBefore(leq, x, xs[0]) then [x] + xs
    else
      assert xs == [xs[0]] + xs[1..];
      [xs[0]] + InsertItem(leq, x, xs[1..])
  }

  /** `Array.from(contents).sort(...)`, written as an insertion sort; by
      `SortUnique` any sort gives the same sequence. */
  function SortItems(leq: (string, string) -> bool, xs: seq<string>): (r: seq<string>)
    ensures |r| == |xs|
    ensures multiset(r) == multiset(xs)
  {
    if |xs| == 0 then []
    else
      assert xs == [xs[0]] + xs[1..];
      InsertItem(leq, xs[0], SortItems(leq, xs[1..]))
  }

  lemma ItemBeforeTotal(leq: (string, string) -> bool, a: string, b: string)
    requires TotalOrder(leq)
    ensures ItemBefore(leq, a, b) || ItemBefore(leq, b, a)
    ensures ItemBefore(leq, a, b) && ItemBefore(leq, b, a) ==> a == b
  {
  }

  lemma ItemBeforeTransitive(leq: (string, string) -> bool, a: string, b: string, c: string)
    requires TotalOrder(leq)
    requires ItemBefore(leq, a, b) && ItemBefore(leq, b, c)
    ensures ItemBefore(leq, a, c)
  {
  }

  lemma {:induction false} InsertSorted(leq: (string, string) -> bool, x: string, xs: seq<string>)
    requires TotalOrder(leq) && SortedItems(leq, xs)
    ensures SortedItems(leq, InsertItem(leq, x, xs))
  {
    if |xs| > 0 && !ItemBefore(leq, x, xs[0]) {
      ItemBeforeTotal(leq, x, xs[0]);
      var rest := InsertItem(leq, x, xs[1..]);
      InsertSorted(leq, x, xs[1..]);
      var r := [xs[0]] + rest;
      forall j | 0 < j < |r|
        ensures ItemBefore(leq, xs[0], r[j])
      {
        assert r[j] in multiset(rest);
        if r[j] != x {
          assert r[j] in xs[1..];
        }
      }
    } else if |xs| > 0 {
      forall j | 0 < j < |xs| + 1
        ensures ItemBefore(leq, x, ([x] + xs)[j])
      {
        if j > 1 {
          ItemBeforeTransitive(leq, x, xs[0], xs[j - 1]);
        }
      }
    }
  }

  /** The sort orders the set: directories first, then by `leq`. */
  lemma {:induction false} SortItemsSorted(leq: (string, string) -> bool, xs: seq<string>)
    requires TotalOrder(leq)
    ensures SortedItems(leq, SortItems(leq, xs))
  {
    if |xs| > 0 {
      SortItemsSorted(leq, xs[1..]);
      InsertSorted(leq, xs[0], SortItems(leq, xs[1..]));
    }
  }

  /** Two sorted arrangements of the same items are the same sequence, so the
      result does not depend on the sorting algorithm. */
  lemma {:induction false} SortUnique(leq: (string, string) -> bool, a: seq<string>, b: seq<string>)
    requires TotalOrder(leq)
    requires SortedItems(leq, a) && SortedItems(leq, b) && multiset(a) == multiset(b)
    ensures a == b
  {
    if |a| > 0 {
      SortedHeads(leq, a, b);
      MultisetTail(a);
      MultisetTail(b);
      SortedTail(leq, a);
      SortedTail(leq, b);
      SortUnique(leq, a[1..], b[1..]);
    } else {
      assert |b| == |multiset(b)| == 0;
    }
  }

  lemma MultisetTail(xs: seq<string>)
    requires |xs| > 0
    ensures multiset(xs[1..]) == multiset(xs) - multiset{xs[0]}
  {
    assert xs == [xs[0]] + xs[1..];
  }

  /** Two sorted orderings of the same items start with the same item. */
  lemma SortedHeads(leq: (string, string) -> bool, a: seq<string>, b: seq<string>)
    requires TotalOrder(leq) && |a| > 0
    requires SortedItems(leq, a) && SortedItems(leq, b) && multiset(a) == multiset(b)
    ensures |b| > 0 && a[0] == b[0]
  {
    assert a[0] in multiset(b);
    assert b[0] in multiset(a);
    SortedFirstIsLeast(leq, a, b[0]);
    SortedFirstIsLeast(leq, b, a[0]);
    ItemBeforeTotal(leq, a[0], b[0]);
  }

  /** The first of a sorted sequence comes before every element of it. */
  lemma SortedFirstIsLeast(leq: (string, string) -> bool, xs: seq<string>, x: string)
    requires TotalOrder(leq) && SortedItems(leq, xs) && x in xs
    ensures ItemBefore(leq, xs[0], x)
  {
    var m :| 0 <= m < |xs| && xs[m] == x;
    if m == 0 {
      ItemBeforeTotal(leq, x, x);
    }
  }

  lemma SortedTail(leq: (string, string) -> bool, xs: seq<string>)
    requires |xs| > 0 && SortedItems(leq, xs)
    ensures SortedItems(leq, xs[1..])
  {
    forall i, j | 0 <= i < j < |xs| - 1
      ensures ItemBefore(leq, xs[1..][i], xs[1..][j])
    {
      assert xs[1..][i] == xs[i + 1] && xs[1..][j] == xs[j + 1];
    }
  }

  /** The second loop: every directory's set replaced by its sorted form. */
  function SortedStructure(leq: (string, string) -> bool, s: Structure): Structure {
    map p | p in s :: SortItems(leq, s[p])
  }

  method SortStructure(leq: (string, string) -> bool, s: Structure) returns (r: Structure)
    ensures r == SortedStructure(leq, s)
  {
    r := s;
    var todo := s.Keys;
    while todo != {}
      invariant todo <= s.Keys && r.Keys == s.Keys
      invariant forall p | p in s && p !in todo :: r[p] == SortItems(leq, s[p])
      invariant forall p | p in todo :: r[p] == s[p]
      decreases todo
    {
      var dir :| dir in todo;
      r := r[dir := SortItems(leq, r[dir])];
      todo := todo - {dir};
    }
    SortedStructureOf(leq, s, r);
  }

  lemma SortedStructureOf(leq: (string, string) -> bool, s: Structure, r: Structure)
    requires r.Keys == s.Keys
    requires forall p | p in s :: r[p] == SortItems(leq, s[p])
    ensures r == SortedStructure(leq, s)
  {
  }

  /** In every sorted set, directories come before files, and entries of
      the same kind follow `leq`. */
  lemma DirectoriesFirst(leq: (string, string) -> bool, s: Structure, p: string, i: nat, j: nat)
    requires TotalOrder(leq)
    requires p in s && i < j < |s[p]|
    ensures var items := SortedStructure(leq, s)[p];
      && (IsDirItem(items[j]) ==> IsDirItem(items[i]))
      && (IsDirItem(items[i]) == IsDirItem(items[j]) ==> leq(items[i], items[j]))
  {
    SortItemsSorted(leq, s[p]);
  }

  // ---------------------------------------------------------------- rendering

  function Connector(isLast: bool): string {
    if isLast then "└── " else "├── "
  }

  function Indent(isLast: bool): string {
    if isLast then "    " else "│   "
  }

  /** The entry without the trailing `/` of a directory. */
  function ItemName(item: string): string {
    if IsDirItem(item) then item[..|item| - 1] else item
  }

  /** A directory shows its last segment and a `/`, a file its name. */
  function DisplayName(item: string): string {
    if IsDirItem(item) then LastSegment(ItemName(item)) + "/" else item
  }

  /** The directory `buildTree` descends into for a directory entry. */
  function SubPath(dir: string, item: string): string {
    var name := LastSegment(ItemName(item));
    if dir != "" then dir + "/" + name else name
  }

  /** A directory entry whose sub-path is the directory itself: an entry of
      the root whose last segment is empty. `buildTree` then calls itself on
      the same directory again and again, with a prefix one indentation
      longer each time, until the stack is exhausted. */
  predicate Overflows(dir: string, item: string) {
    IsDirItem(item) && SubPath(dir, item) == dir
  }

  /** The number of directories at least as long as `dir`: a descent into a
      longer directory lowers it. */
  ghost function Measure(s: Structure, dir: string): nat {
    var keys := set k | k in s && |k| >= |dir|;
    |keys|
  }

  lemma SubsetCard<T>(a: set<T>, b: set<T>)
    requires a <= b
    ensures |a| <= |b|
  {
    assert b == a + (b - a);
  }

  lemma MeasureDecreases(s: Structure, dir: string, sub: string)
    requires dir in s && |sub| > |dir|
    ensures Measure(s, sub) < Measure(s, dir)
  {
    var a := set k | k in s && |k| >= |sub|;
    var b := set k | k in s && |k| >= |dir|;
    assert dir in b;
    SubsetCard(a, b - {dir});
  }

  /** `buildTree(dir, prefix)`: the lines of the entries of `dir`, each
      followed by the lines of its sub-directory; `None` when the recursion
      does not end. */
  function TreeLines(s: Structure, dir: string, prefix: string): Option<seq<string>>
    decreases Measure(s, dir), 1, 0, 0
  {
    if dir !in s then Some([]) else ItemLines(s, dir, 0, prefix)
  }

  /** The lines of the entries `j..` of `dir`, the `forEach` from index `j`. */
  function ItemLines(s: Structure, dir: string, j: nat, prefix: string): Option<seq<string>>
    requires dir in s
    decreases Measure(s, dir), 0, |s[dir]| - j, 1
  {
    if j >= |s[dir]| then Some([])
    else
      var block :- ItemBlock(s, dir, j, prefix);
      var rest :- ItemLines(s, dir, j + 1, prefix);
      Some(block + rest)
  }

  /** The line of entry `j` of `dir`, then, for a directory, the lines of
      its sub-directory one indentation further in. */
  function ItemBlock(s: Structure, dir: string, j: nat, prefix: string): Option<seq<string>>
    requires dir in s && j < |s[dir]|
    decreases Measure(s, dir), 0, |s[dir]| - j, 0
  {
    var item, isLast := s[dir][j], j == |s[dir]| - 1;
    var line := prefix + Connector(isLast) + DisplayName(item);
    if !IsDirItem(item) then Some([line])
    else if Overflows(dir, item) then None
    else
      var sub := SubPath(dir, item);
      MeasureDecreases(s, dir, sub);
      var below :- TreeLines(s, sub, prefix + Indent(isLast));
      Some([line] + below)
  }

  /** `lines` in front of the lines of `o`, if it has any. */
  function Then(lines: seq<string>, o: Option<seq<string>>): Option<seq<string>> {
    match o
    case None => None
    case Some(more) => Some(lines + more)
  }

  lemma ThenNothing(o: Option<seq<string>>)
    ensures Then([], o) == o
  {
    if o.Some? {
      assert [] + o.value == o.value;
    }
  }

  lemma ItemLinesStep(s: Structure, dir: string, j: nat, prefix: string, acc: seq<string>)
    requires dir in s && j < |s[dir]|
    ensures Then(acc, ItemLines(s, dir, j, prefix))
         == match ItemBlock(s, dir, j, prefix)
            case None => None
            case Some(block) => Then(acc + block, ItemLines(s, dir, j + 1, prefix))
  {
    match ItemBlock(s, dir, j, prefix)
    case None =>
    case Some(block) =>
      match ItemLines(s, dir, j + 1, prefix)
      case None =>
      case Some(rest) =>
        assert acc + (block + rest) == (acc + block) + rest;
  }

  /** `buildTree`: the `forEach` pushes the lines of each entry in turn. */
  method BuildTree(s: Structure, dirPath: string, prefix: string) returns (lines: Option<seq<string>>)
    ensures lines == TreeLines(s, dirPath, prefix)
    decreases Measure(s, dirPath), 1
  {
    if dirPath !in s {
      return Some([]);
    }
    var items := s[dirPath];
    var acc: seq<string> := [];
    var j := 0;
    ThenNothing(ItemLines(s, dirPath, 0, prefix));
    while j < |items|
      invariant j <= |items|
      invariant TreeLines(s, dirPath, prefix) == Then(acc, ItemLines(s, dirPath, j, prefix))
      decreases |items| - j
    {
      var block := BuildItem(s, dirPath, j, prefix);
      ItemLinesStep(s, dirPath, j, prefix, acc);
      if block.None? {
        return None;
      }
      acc := acc + block.value;
      j := j + 1;
    }
    assert acc + [] == acc;
    return Some(acc);
  }

  /** One call of the `forEach` callback: push the entry's line, then the
      lines of its sub-directory. */
  method BuildItem(s: Structure, dirPath: string, j: nat, prefix: string) returns (block: Option<seq<string>>)
    requires dirPath in s && j < |s[dirPath]|
    ensures block == ItemBlock(s, dirPath, j, prefix)
    decreases Measure(s, dirPath), 0
  {
    var item := s[dirPath][j];
    var isLast := j == |s[dirPath]| - 1;
    var lines := [prefix + Connector(isLast) + DisplayName(item)];
    if IsDirItem(item) {
      var fullPath := SubPath(dirPath, item);
      if fullPath == dirPath {
        return None;
      }
      MeasureDecreases(s, dirPath, fullPath);
      var below := BuildTree(s, fullPath, prefix + Indent(isLast));
      if below.None? {
        return None;
      }
      lines := lines + below.value;
    }
    return Some(lines);
  }

  // ---------------------------------------------------------------- the whole tree

  function Paths(files: seq<Types.FileData>): (r: seq<string>)
    ensures |r| == |files| && forall i | 0 <= i < |files| :: r[i] == files[i].path
  {
    seq(|files|, i requires 0 <= i < |files| => files[i].path)
  }

  /** `generateDirectoryTree`: `.` and the lines of the root, joined by
      newlines; `None` where the source exhausts the stack. */
  function DirectoryTree(leq: (string, string) -> bool, paths: seq<string>): Option<string> {
    var lines :- TreeLines(SortedStructure(leq, StructureOf(paths)), "", "");
    Some(Join(["."] + lines, '\n'))
  }

  method GenerateDirectoryTree(leq: (string, string) -> bool, files: seq<Types.FileData>) returns (tree: Option<string>)
    ensures tree == DirectoryTree(leq, Paths(files))
  {
    var structure := BuildStructure(Paths(files));
    structure := SortStructure(leq, structure);
    var lines := BuildTree(structure, "", "");
    if lines.None? {
      return None;
    }
    return Some(Join(["."] + lines.value, '\n'));
  }

  // ---------------------------------------------------------------- properties of the rendering

  /** The tree starts with the `.` line; without files it is only that line. */
  lemma TreeStartsWithDot(leq: (string, string) -> bool, paths: seq<string>)
    ensures DirectoryTree(leq, paths).Some? ==> "." <= DirectoryTree(leq, paths).value
    ensures DirectoryTree(leq, []) == Some(".")
  {
    var s := SortedStructure(leq, StructureOf(paths));
    match TreeLines(s, "", "")
    case None =>
    case Some(lines) =>
      var all := ["."] + lines;
      if |lines| > 0 {
        assert all[1..] == lines;
        assert Join(all, '\n') == "." + ['\n'] + Join(lines, '\n');
      }
    assert StructureOf([]) == map[];
    assert SortedStructure(leq, map[]) == map[];
  }

  /** What follows the enclosing prefix on a rendered line: indentation
      units, then a connector. */
  predicate EntryLine(x: string)
    decreases |x|
  {
    && |x| >= 4
    && (|| x[..4] == Connector(true) || x[..4] == Connector(false)
        || ((x[..4] == Indent(true) || x[..4] == Indent(false)) && EntryLine(x[4..])))
  }

  predicate LinesUnder(lines: seq<string>, prefix: string) {
    forall l | l in lines :: prefix <= l && EntryLine(l[|prefix|..])
  }

  lemma IndentedLines(lines: seq<string>, prefix: string, isLast: bool)
    requires LinesUnder(lines, prefix + Indent(isLast))
    ensures LinesUnder(lines, prefix)
  {
    var p := prefix + Indent(isLast);
    forall l | l in lines
      ensures prefix <= l && EntryLine(l[|prefix|..])
    {
      var x := l[|prefix|..];
      assert l[..|p|] == p;
      assert x[..4] == Indent(isLast);
      assert x[4..] == l[|p|..];
    }
  }

  lemma LinesUnderAppend(a: seq<string>, b: seq<string>, prefix: string)
    requires LinesUnder(a, prefix) && LinesUnder(b, prefix)
    ensures LinesUnder(a + b, prefix)
  {
  }

  /** Every line below `dir` is the prefix, indentation units and a
      connector, followed by the entry's name. */
  lemma {:induction false} TreeLinesShape(s: Structure, dir: string, prefix: string)
    ensures TreeLines(s, dir, prefix).Some? ==> LinesUnder(TreeLines(s, dir, prefix).value, prefix)
    decreases Measure(s, dir), 1, 0, 0
  {
    if dir in s {
      ItemLinesShape(s, dir, 0, prefix);
    }
  }

  lemma {:induction false} ItemLinesShape(s: Structure, dir: string, j: nat, prefix: string)
    requires dir in s
    ensures ItemLines(s, dir, j, prefix).Some? ==> LinesUnder(ItemLines(s, dir, j, prefix).value, prefix)
    decreases Measure(s, dir), 0, |s[dir]| - j, 1
  {
    if j < |s[dir]| && ItemLines(s, dir, j, prefix).Some? {
      ItemBlockShape(s, dir, j, prefix);
      ItemLinesShape(s, dir, j + 1, prefix);
      LinesUnderAppend(ItemBlock(s, dir, j, prefix).value, ItemLines(s, dir, j + 1, prefix).value, prefix);
    }
  }

  /** The line of entry `j` has `└── ` exactly when the entry is the last of
      its directory, and the lines below it are indented by `    ` after a
      last entry and by `│   ` otherwise. */
  lemma {:induction false} ItemBlockShape(s: Structure, dir: string, j: nat, prefix: string)
    requires dir in s && j < |s[dir]|
    ensures ItemBlock(s, dir, j, prefix).Some? ==>
      var block, isLast := ItemBlock(s, dir, j, prefix).value, j == |s[dir]| - 1;
      && |block| > 0
      && block[0] == prefix + Connector(isLast) + DisplayName(s[dir][j])
      && (forall l | l in block[1..] :: prefix + Indent(isLast) <= l)
      && LinesUnder(block, prefix)
    decreases Measure(s, dir), 0, |s[dir]| - j, 0
  {
    var item, isLast := s[dir][j], j == |s[dir]| - 1;
    var line := prefix + Connector(isLast) + DisplayName(item);
    assert line[|prefix|..][..4] == Connector(isLast);
    assert LinesUnder([line], prefix);
    if IsDirItem(item) && !Overflows(dir, item) {
      var sub := SubPath(dir, item);
      MeasureDecreases(s, dir, sub);
      TreeLinesShape(s, sub, prefix + Indent(isLast));
      match TreeLines(s, sub, prefix + Indent(isLast))
      case None =>
      case Some(below) =>
        IndentedLines(below, prefix, isLast);
        assert ([line] + below)[1..] == below;
        LinesUnderAppend([line], below, prefix);
    }
  }

  /** How many of `lines` start with `p`. */
  function CountStarting(lines: seq<string>, p: string): (n: nat)
    ensures n <= |lines|
  {
    if |lines| == 0 then 0
    else (if p <= lines[0] then 1 else 0) + CountStarting(lines[1..], p)
  }

  lemma {:induction false} CountStartingAppend(a: seq<string>, b: seq<string>, p: string)
    ensures CountStarting(a + b, p) == CountStarting(a, p) + CountStarting(b, p)
  {
    if |a| > 0 {
      assert (a + b)[1..] == a[1..] + b;
      CountStartingAppend(a[1..], b, p);
    } else {
      assert a + b == b;
    }
  }

  /** Lines one indentation further in start with no connector of this level. */
  lemma {:induction false} NoConnectorBelow(lines: seq<string>, prefix: string, isLast: bool, c: bool)
    requires forall l | l in lines :: prefix + Indent(isLast) <= l
    ensures CountStarting(lines, prefix + Connector(c)) == 0
  {
    if |lines| > 0 {
      var l, p, q := lines[0], prefix + Indent(isLast), prefix + Connector(c);
      assert l in lines;
      assert l[|prefix|] == p[|prefix|] == Indent(isLast)[0];
      assert q[|prefix|] == Connector(c)[0] != Indent(isLast)[0];
      assert !(q <= l);
      assert forall l | l in lines[1..] :: l in lines;
      NoConnectorBelow(lines[1..], prefix, isLast, c);
    }
  }

  /** Each entry's block has one line at this level, with its own connector. */
  lemma ItemBlockConnectors(s: Structure, dir: string, j: nat, prefix: string, c: bool)
    requires dir in s && j < |s[dir]| && ItemBlock(s, dir, j, prefix).Some?
    ensures CountStarting(ItemBlock(s, dir, j, prefix).value, prefix + Connector(c))
         == if c == (j == |s[dir]| - 1) then 1 else 0
  {
    var block := ItemBlock(s, dir, j, prefix).value;
    var isLast := j == |s[dir]| - 1;
    ItemBlockShape(s, dir, j, prefix);
    NoConnectorBelow(block[1..], prefix, isLast, c);
    assert block == [block[0]] + block[1..];
    CountStartingAppend([block[0]], block[1..], prefix + Connector(c));
    if c != isLast {
      var q := prefix + Connector(c);
      assert block[0][|prefix|] == Connector(isLast)[0];
      assert q[|prefix|] == Connector(c)[0] != Connector(isLast)[0];
      assert !(q <= block[0]);
    }
  }

  lemma {:induction false} ItemLinesConnectors(s: Structure, dir: string, j: nat, prefix: string)
    requires dir in s && ItemLines(s, dir, j, prefix).Some?
    ensures CountStarting(ItemLines(s, dir, j, prefix).value, prefix + Connector(true))
         == if j < |s[dir]| then 1 else 0
    ensures CountStarting(ItemLines(s, dir, j, prefix).value, prefix + Connector(false))
         == if j < |s[dir]| then |s[dir]| - 1 - j else 0
    decreases |s[dir]| - j
  {
    if j < |s[dir]| {
      var block := ItemBlock(s, dir, j, prefix).value;
      var rest := ItemLines(s, dir, j + 1, prefix).value;
      ItemBlockConnectors(s, dir, j, prefix, true);
      ItemBlockConnectors(s, dir, j, prefix, false);
      ItemLinesConnectors(s, dir, j + 1, prefix);
      CountStartingAppend(block, rest, prefix + Connector(true));
      CountStartingAppend(block, rest, prefix + Connector(false));
    }
  }

  /** A directory of `n` entries renders exactly one `└── ` line at its own
      level, and `n - 1` lines with `├── `. */
  lemma ChildConnectors(s: Structure, dir: string, prefix: string)
    requires TreeLines(s, dir, prefix).Some?
    ensures var n := if dir in s then |s[dir]| else 0;
      && CountStarting(TreeLines(s, dir, prefix).value, prefix + Connector(true)) == (if n > 0 then 1 else 0)
      && CountStarting(TreeLines(s, dir, prefix).value, prefix + Connector(false)) == (if n > 0 then n - 1 else 0)
  {
    if dir in s {
      ItemLinesConnectors(s, dir, 0, prefix);
    }
  }

  // ---------------------------------------------------------------- when the recursion does not end

  /** Below the root every descent goes to a longer directory, so the
      rendering of a non-root directory always ends. */
  lemma {:induction false} SubtreeEnds(s: Structure, dir: string, prefix: string)
    requires dir != ""
    ensures TreeLines(s, dir, prefix).Some?
    decreases Measure(s, dir), 1, 0, 0
  {
    if dir in s {
      ItemLinesEnd(s, dir, 0, prefix);
    }
  }

  lemma {:induction false} ItemLinesEnd(s: Structure, dir: string, j: nat, prefix: string)
    requires dir != "" && dir in s
    ensures ItemLines(s, dir, j, prefix).Some?
    decreases Measure(s, dir), 0, |s[dir]| - j, 1
  {
    if j < |s[dir]| {
      ItemBlockEnds(s, dir, j, prefix);
      ItemLinesEnd(s, dir, j + 1, prefix);
    }
  }

  lemma {:induction false} ItemBlockEnds(s: Structure, dir: string, j: nat, prefix: string)
    requires dir != "" && dir in s && j < |s[dir]|
    ensures ItemBlock(s, dir, j, prefix).Some?
    decreases Measure(s, dir), 0, |s[dir]| - j, 0
  {
    var item, isLast := s[dir][j], j == |s[dir]| - 1;
    if IsDirItem(item) {
      var sub := SubPath(dir, item);
      assert |sub| > |dir|;
      MeasureDecreases(s, dir, sub);
      SubtreeEnds(s, sub, prefix + Indent(isLast));
    }
  }

  /** At the root the rendering fails exactly when one of the root's
      entries overflows. */
  lemma {:induction false} RootItemsOverflow(s: Structure, j: nat, prefix: string)
    requires "" in s
    ensures ItemLines(s, "", j, prefix).None? <==> exists k | j <= k < |s[""]| :: Overflows("", s[""][k])
    decreases |s[""]| - j
  {
    if j < |s[""]| {
      RootBlockOverflow(s, j, prefix);
      RootItemsOverflow(s, j + 1, prefix);
      ItemLinesFail(s, "", j, prefix);
      if Overflows("", s[""][j]) {
        assert j <= j < |s[""]|;
      } else if exists k | j <= k < |s[""]| :: Overflows("", s[""][k]) {
        var k :| j <= k < |s[""]| && Overflows("", s[""][k]);
        assert j + 1 <= k;
      }
    }
  }

  /** The lines of the entries from `j` on fail exactly when entry `j`'s
      block or the lines after it fail. */
  lemma ItemLinesFail(s: Structure, dir: string, j: nat, prefix: string)
    requires dir in s && j < |s[dir]|
    ensures ItemLines(s, dir, j, prefix).None? <==>
      ItemBlock(s, dir, j, prefix).None? || ItemLines(s, dir, j + 1, prefix).None?
  {
  }

  /** At the root, one entry's block fails exactly when the entry overflows. */
  lemma RootBlockOverflow(s: Structure, j: nat, prefix: string)
    requires "" in s && j < |s[""]|
    ensures ItemBlock(s, "", j, prefix).None? <==> Overflows("", s[""][j])
  {
    var item, isLast := s[""][j], j == |s[""]| - 1;
    if IsDirItem(item) && !Overflows("", item) {
      SubtreeEnds(s, SubPath("", item), prefix + Indent(isLast));
    }
  }

  lemma RootOverflow(s: Structure, prefix: string)
    ensures TreeLines(s, "", prefix).None? <==> "" in s && exists item | item in s[""] :: Overflows("", item)
  {
    if "" in s {
      RootItemsOverflow(s, 0, prefix);
    }
  }

  lemma {:induction false} JoinSnoc(ps: seq<string>, sep: char)
    requires |ps| >= 2
    ensures Join(ps, sep) == Join(ps[..|ps| - 1], sep) + [sep] + ps[|ps| - 1]
  {
    if |ps| > 2 {
      JoinSnoc(ps[1..], sep);
      assert ps[1..][..|ps| - 2] == ps[..|ps| - 1][1..];
    }
  }

  /** The last segment of joined `/`-free pieces is the last piece. */
  lemma JoinLastSegment(ps: seq<string>)
    requires |ps| > 0 && '/' !in ps[|ps| - 1]
    ensures LastSegment(Join(ps, '/')) == ps[|ps| - 1]
  {
    if |ps| == 1 {
      LastSegmentAfterSlash("", ps[0]);
      assert "" + ps[0] == ps[0];
    } else {
      JoinSnoc(ps, '/');
      LastSegmentAfterSlash(Join(ps[..|ps| - 1], '/') + "/", ps[|ps| - 1]);
    }
  }

  /** Joining two or more pieces gives a non-empty string. */
  lemma JoinOfSeveral(ps: seq<string>, sep: char)
    requires |ps| >= 2
    ensures Join(ps, sep) != ""
  {
    assert |Join(ps, sep)| >= |[sep]|;
  }

  /** A file entry never names a directory: its last piece has no `/`. */
  lemma FileEntryIsFile(parts: seq<string>)
    requires |parts| > 0 && '/' !in parts[|parts| - 1]
    ensures !IsDirItem(FileEntry(parts).1)
  {
    var x := parts[|parts| - 1];
    if |x| > 0 {
      assert x[|x| - 1..][0] == x[|x| - 1] != '/';
    }
  }

  /** The directory entry `i` of a path's pieces overflows at the root only
      when the first piece is empty. */
  lemma DirEntryOverflow(parts: seq<string>, i: nat)
    requires i < |parts| - 1
    requires forall k | 0 <= k < |parts| :: '/' !in parts[k]
    requires DirEntry(parts, i).0 == "" && Overflows("", DirEntry(parts, i).1)
    ensures parts[0] == ""
  {
    var joined := Join(parts[..i + 1], '/');
    var item := joined + "/";
    assert ItemName(item) == joined;
    JoinLastSegment(parts[..i + 1]);
    if i >= 2 {
      JoinOfSeveral(parts[..i], '/');
    } else if i == 1 {
      assert Join(parts[..1], '/') == parts[0];
    }
  }

  /** A path's own entries overflow at the root exactly when it starts with
      `/`. */
  lemma PathOverflow(path: string)
    ensures (exists item | ("", item) in PathEntries(path) :: Overflows("", item))
        <==> |path| > 0 && path[0] == '/'
  {
    if |path| > 0 && path[0] == '/' {
      AbsolutePathOverflows(path);
    }
    if item :| ("", item) in PathEntries(path) && Overflows("", item) {
      OverflowingPath(path, item);
    }
  }

  lemma AbsolutePathOverflows(path: string)
    requires |path| > 0 && path[0] == '/'
    ensures ("", "/") in PathEntries(path) && Overflows("", "/")
  {
    var parts := Split(path, '/');
    assert parts == [""] + Split(path[1..], '/');
    assert parts[..1] == [""];
    assert Join(parts[..1], '/') == "";
    assert Join(parts[..1], '/') + "/" == "/";
    assert DirEntry(parts, 0) == ("", "/");
    assert DirEntries(parts)[0] == ("", "/");
    assert ItemName("/") == "";
  }

  lemma OverflowingPath(path: string, item: string)
    requires ("", item) in PathEntries(path) && Overflows("", item)
    ensures |path| > 0 && path[0] == '/'
  {
    var parts := Split(path, '/');
    var es := PathEntries(path);
    var k :| 0 <= k < |es| && es[k] == ("", item);
    FileEntryIsFile(parts);
    if k < |parts| - 1 {
      assert es[k] == DirEntry(parts, k);
      DirEntryOverflow(parts, k);
      assert path == Join(parts, '/') == parts[0] + "/" + Join(parts[1..], '/');
    }
  }

  /** Sorting keeps each directory's items. */
  lemma SortedMembers(leq: (string, string) -> bool, s: Structure, p: string, item: string)
    ensures p in SortedStructure(leq, s) <==> p in s
    ensures p in s ==> (item in SortedStructure(leq, s)[p] <==> item in s[p])
  {
    if p in s {
      assert item in SortItems(leq, s[p]) <==> item in multiset(s[p]);
    }
  }

  /** `generateDirectoryTree` exhausts the stack exactly when some path
      starts with `/`: such a path files the entry `/` under the root, whose
      sub-directory is the root again. Acquisition does not rule this out:
      an archive entry `root//x` loses its first segment and becomes `/x`. */
  lemma DirectoryTreeOverflow(leq: (string, string) -> bool, paths: seq<string>)
    ensures DirectoryTree(leq, paths).None? <==> exists k | 0 <= k < |paths| :: |paths[k]| > 0 && paths[k][0] == '/'
  {
    var base := StructureOf(paths);
    var s := SortedStructure(leq, base);
    RootOverflow(s, "");
    if DirectoryTree(leq, paths).None? {
      var item :| item in s[""] && Overflows("", item);
      SortedMembers(leq, base, "", item);
      StructureMembers(paths, "", item);
      var k :| 0 <= k < |paths| && ("", item) in PathEntries(paths[k]);
      PathOverflow(paths[k]);
    }
    if k :| 0 <= k < |paths| && |paths[k]| > 0 && paths[k][0] == '/' {
      PathOverflow(paths[k]);
      var item :| ("", item) in PathEntries(paths[k]) && Overflows("", item);
      StructureMembers(paths, "", item);
      SortedMembers(leq, base, "", item);
    }
  }
}
