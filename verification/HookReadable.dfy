/** hookReadable (integrator/transfer.go): the push hook's bounds counted from
    flat paths, and when that count is the tree's own. */
module HookReadable {
  import opened Wrappers
  import opened Strings
  import opened Sums
  import opened NoteTree
  import opened NoteBounds
  import opened NoteTotals

  /** A directory's names, each true where it is itself a directory. */
  type Names = map<string, bool>

  /** Each directory's names, by its path. */
  type Table = map<string, Names>

  ghost function AsEntry(names: Names): string -> Entry {
    (n: string) => Entry(n, n in names && names[n])
  }

  /** The entries that a directory's names stand for. */
  ghost function EntriesKept(names: Names): set<Entry> {
    Image(names.Keys, AsEntry(names))
  }

  lemma EntriesCount(names: Names)
    ensures Injective(names.Keys, AsEntry(names)) && |EntriesKept(names)| == |names|
  {
    ImageCount(names.Keys, AsEntry(names));
    assert |names| == |names.Keys|;
  }

  lemma EntryKept(names: Names, e: Entry)
    ensures e in EntriesKept(names) <==> e.name in names && names[e.name] == e.isTree
  {
    if e.name in names && names[e.name] == e.isTree { assert AsEntry(names)(e.name) == e; }
  }

  /** strings.TrimPrefix of a slash. */
  function TrimSlash(s: string): string {
    if s != "" && s[0] == '/' then s[1..] else s
  }

  /** The key a directory's names are kept under. */
  function DirKey(p: Path): string {
    if p == [] then "" else TrimSlash(DirKey(p[..|p| - 1]) + "/" + p[|p| - 1])
  }

  /** The i-th segment of a path is kept under the directory it is in. */
  ghost predicate IsKept(table: Table, segs: Path, i: nat)
    requires i < |segs|
  {
    DirKey(segs[..i]) in table && segs[i] in table[DirKey(segs[..i])]
  }

  /** A name under a directory is some path's, a tree when that path goes on. */
  ghost predicate Says(segs: Path, i: nat, k: string, n: string, isTree: bool)
    requires i < |segs|
  {
    DirKey(segs[..i]) == k && segs[i] == n && (isTree <==> i < |segs| - 1)
  }

  ghost predicate SomeSays(blobs: Blobs, k: string, n: string, isTree: bool) {
    exists path, i :: path in blobs && 0 <= i < |Segments(path)| && Says(Segments(path), i, k, n, isTree)
  }

  ghost predicate AllSaid(blobs: Blobs, table: Table) {
    && (forall k, n :: k in table && n in table[k] ==> SomeSays(blobs, k, n, table[k][n]))
    && (forall k :: k in table ==> table[k] != map[])
  }

  ghost predicate IsTable(blobs: Blobs, table: Table) {
    && AllSaid(blobs, table)
    && forall path, i :: path in blobs && 0 <= i < |Segments(path)| ==> IsKept(table, Segments(path), i)
  }

  ghost predicate PathsFit(blobs: Blobs, sizes: Sizes) {
    DeepAtMost(blobs, DEPTH) && SmallNotes(blobs, sizes)
  }

  ghost function NameCount(table: Table): string -> int {
    (k: string) => if k in table then |table[k]| else 0
  }

  ghost function NameBytes(table: Table, hashSize: nat): string -> int {
    (k: string) => if k in table then TreeBytes(EntriesKept(table[k]), hashSize) else 0
  }

  ghost predicate TableFits(blobs: Blobs, table: Table, sizes: Sizes, hashSize: nat) {
    && (forall k :: k in table ==> Within(EntriesKept(table[k]), hashSize))
    && Sum(table.Keys, NameCount(table)) <= ENTRIES
    && Sum(blobs.Keys, NoteSizes(blobs, sizes)) + Sum(table.Keys, NameBytes(table, hashSize)) <= BYTES
  }

  // When no path opens with a slash, a directory and its key are one.

  /** The guard: no path opens with a slash. */
  predicate NoneLeads(blobs: Blobs) {
    forall path :: path in blobs ==> path == "" || path[0] != '/'
  }

  /** No path is a directory of another. */
  ghost predicate NoneAbove(blobs: Blobs) {
    forall a, b :: a in blobs && b in blobs ==> !(Segments(a) < Segments(b))
  }

  ghost predicate NoSlashes(p: Path) {
    forall i :: 0 <= i < |p| ==> '/' !in p[i]
  }

  lemma {:induction false} KeyIsJoined(p: Path)
    requires p != [] && p[0] != "" && NoSlashes(p)
    ensures DirKey(p) == Join(p, '/') && DirKey(p) != "" && DirKey(p)[0] != '/'
  {
    var front, last := p[..|p| - 1], p[|p| - 1];
    assert p == front + [last];
    JoinOneMore(front, last, '/');
    if front == [] {
      assert "" + "/" + last == "/" + last;
    } else {
      KeyIsJoined(front);
    }
    assert DirKey(p)[0] == p[0][0] || |p| > 1;
  }

  lemma KeysApart(p: Path, q: Path)
    requires NoSlashes(p) && NoSlashes(q) && (p != [] ==> p[0] != "") && (q != [] ==> q[0] != "")
    requires DirKey(p) == DirKey(q)
    ensures p == q
  {
    if p != [] { KeyIsJoined(p); SplitJoin(p, '/'); }
    if q != [] { KeyIsJoined(q); SplitJoin(q, '/'); }
  }

  lemma DirNames(blobs: Blobs, p: Path)
    requires p in Dirs(blobs) && NoneLeads(blobs)
    ensures NoSlashes(p) && (p != [] ==> p[0] != "")
  {
    hide Cut;
    var path, i :| path in blobs && 0 <= i < |Segments(path)| && p == Segments(path)[..i];
    if p != [] {
      CutSegments(path);
      assert p[0] == Segments(path)[0];
    }
  }

  ghost function KeyOf(): Path -> string {
    (p: Path) => DirKey(p)
  }

  lemma KeysOnto(blobs: Blobs, table: Table)
    requires IsTable(blobs, table)
    ensures table.Keys == Image(Dirs(blobs), KeyOf())
  {
    hide Segments, DirKey;
    forall k | k in table ensures k in Image(Dirs(blobs), KeyOf()) {
      var n :| n in table[k];
      var path, i :| path in blobs && 0 <= i < |Segments(path)| && Says(Segments(path), i, k, n, table[k][n]);
      assert Segments(path)[..i] in Dirs(blobs) && KeyOf()(Segments(path)[..i]) == k;
    }
    forall k | k in Image(Dirs(blobs), KeyOf()) ensures k in table {
      var p :| p in Dirs(blobs) && KeyOf()(p) == k;
      var path, i :| path in blobs && 0 <= i < |Segments(path)| && p == Segments(path)[..i];
      assert IsKept(table, Segments(path), i);
    }
  }

  lemma KeysOneToOne(blobs: Blobs)
    requires NoneLeads(blobs)
    ensures Injective(Dirs(blobs), KeyOf())
  {
    hide DirKey, Dirs;
    forall p, q | p in Dirs(blobs) && q in Dirs(blobs) && KeyOf()(p) == KeyOf()(q) ensures p == q {
      DirNames(blobs, p);
      DirNames(blobs, q);
      KeysApart(p, q);
    }
  }

  /** Each directory's table is the tree there. */
  lemma TableIsTree(blobs: Blobs, table: Table, t: Tree, p: Path)
    requires IsTable(blobs, table) && IsTreeOf(t, blobs) && NoneLeads(blobs) && NoneAbove(blobs)
    requires p in Dirs(blobs) && p in TreeDirs(t)
    ensures DirKey(p) in table && EntriesKept(table[DirKey(p)]) == EntriesOf(TreeAt(t, p))
  {
    hide Segments, DirKey, Dirs, TreeDirs, IsTreeOf, IsTable, NoneLeads, NoneAbove, Goes, Ends, EntriesOf, EntriesKept, TreeAt;
    KeyKept(blobs, table, p);
    forall e: Entry ensures e in EntriesKept(table[DirKey(p)]) <==> e in EntriesOf(TreeAt(t, p)) {
      EntriesAtTree(t, blobs, p, e.name);
      NamesKept(blobs, table, p, e.name);
      KindKept(blobs, table, p, e.name);
      EntryKept(table[DirKey(p)], e);
      assert e == Entry(e.name, true) || e == Entry(e.name, false);
    }
  }

  lemma KeyKept(blobs: Blobs, table: Table, p: Path)
    requires IsTable(blobs, table) && p in Dirs(blobs)
    ensures DirKey(p) in table
  {
    hide Segments, DirKey, Dirs, IsTable;
    KeysOnto(blobs, table);
    assert KeyOf()(p) == DirKey(p);
  }

  /** The names kept at a directory are the next segments of the paths through
      it. */
  lemma NamesKept(blobs: Blobs, table: Table, p: Path, n: string)
    requires IsTable(blobs, table) && NoneLeads(blobs) && p in Dirs(blobs) && DirKey(p) in table
    ensures n in table[DirKey(p)] <==> Ends(blobs, p + [n]) || Goes(blobs, p + [n])
  {
    hide Segments, DirKey, Dirs, NoneLeads;
    if n in table[DirKey(p)] {
      var path, i :| path in blobs && 0 <= i < |Segments(path)| && Says(Segments(path), i, DirKey(p), n, table[DirKey(p)][n]);
      SaidHere(blobs, p, path, i);
    }
    if Ends(blobs, p + [n]) || Goes(blobs, p + [n]) {
      var path :| path in blobs && p + [n] <= Segments(path);
      assert Segments(path)[|p|] == (p + [n])[|p|] == n && Segments(path)[..|p|] == p;
      assert IsKept(table, Segments(path), |p|);
    }
  }

  /** Where no path is a directory of another, a name is of one kind. */
  lemma KindKept(blobs: Blobs, table: Table, p: Path, n: string)
    requires IsTable(blobs, table) && NoneLeads(blobs) && NoneAbove(blobs) && p in Dirs(blobs) && DirKey(p) in table
    ensures !(Ends(blobs, p + [n]) && Goes(blobs, p + [n]))
    ensures n in table[DirKey(p)] ==> (table[DirKey(p)][n] <==> Goes(blobs, p + [n]))
  {
    hide Segments, DirKey, Dirs, NoneLeads;
    if n in table[DirKey(p)] {
      var path, i :| path in blobs && 0 <= i < |Segments(path)| && Says(Segments(path), i, DirKey(p), n, table[DirKey(p)][n]);
      SaidHere(blobs, p, path, i);
      GoesOn(blobs, p, n, path);
    }
  }

  lemma SaidHere(blobs: Blobs, p: Path, path: string, i: nat)
    requires NoneLeads(blobs) && p in Dirs(blobs) && path in blobs && i < |Segments(path)| && DirKey(Segments(path)[..i]) == DirKey(p)
    ensures Segments(path)[..i] == p && i == |p| && p + [Segments(path)[i]] <= Segments(path)
  {
    hide Segments, DirKey;
    var q := Segments(path)[..i];
    assert q in Dirs(blobs);
    DirNames(blobs, p);
    DirNames(blobs, q);
    KeysApart(p, q);
  }

  lemma GoesOn(blobs: Blobs, p: Path, n: string, path: string)
    requires NoneAbove(blobs) && path in blobs && p + [n] <= Segments(path)
    ensures |p| < |Segments(path)| - 1 <==> Goes(blobs, p + [n])
  {
    hide Segments;
    if |p| == |Segments(path)| - 1 {
      assert Segments(path) == p + [n];
    }
  }

  /** With no path opening with a slash and none a directory of another, the
      count from the paths is the count of the tree: accepted exactly when the
      tree meets all six bounds. */
  lemma CountsTheTree(blobs: Blobs, table: Table, t: Tree, sizes: Sizes, hashSize: nat)
    requires IsTable(blobs, table) && IsTreeOf(t, blobs) && NoneLeads(blobs) && NoneAbove(blobs)
    ensures PathsFit(blobs, sizes) && TableFits(blobs, table, sizes, hashSize) <==> TreeFits(t, sizes, hashSize)
  {
    hide Segments, DirKey, Dirs, TreeDirs, IsTreeOf, IsTable, NoneLeads, NoneAbove, AllTrees, Within, Sum, Total, Image, Injective;
    hide DeepAtMost, SmallNotes, DepthFits;
    SmallIs(t, blobs, sizes);
    NotesTotal(t, blobs, sizes);
    if blobs == map[] {
      NothingFits(blobs, table, t, sizes, hashSize);
    } else {
      DepthIs(t, blobs, DEPTH);
      SameTotals(blobs, table, t, hashSize);
    }
  }

  lemma NothingFits(blobs: Blobs, table: Table, t: Tree, sizes: Sizes, hashSize: nat)
    requires IsTable(blobs, table) && IsTreeOf(t, blobs) && blobs == map[]
    ensures PathsFit(blobs, sizes) && TableFits(blobs, table, sizes, hashSize) && TreeFits(t, sizes, hashSize)
  {
    hide Cut, Segments;
    assert t.dirs.Keys == {} && t.files.Keys == {};
    assert EntriesOf(t) == {};
    TableNeedsPaths(blobs, table);
    assert table.Keys == {};
  }

  lemma TableNeedsPaths(blobs: Blobs, table: Table)
    requires IsTable(blobs, table)
    ensures table != map[] ==> blobs != map[]
  {
    if table != map[] {
      var k :| k in table;
      var n :| n in table[k];
      assert SomeSays(blobs, k, n, table[k][n]);
    }
  }

  lemma SameTotals(blobs: Blobs, table: Table, t: Tree, hashSize: nat)
    requires IsTable(blobs, table) && IsTreeOf(t, blobs) && NoneLeads(blobs) && NoneAbove(blobs) && blobs != map[]
    ensures (forall k :: k in table ==> Within(EntriesKept(table[k]), hashSize)) <==> AllTrees(t, IsWithin(hashSize))
    ensures Sum(table.Keys, NameCount(table)) == Total(t, EntryCount())
    ensures Sum(table.Keys, NameBytes(table, hashSize)) == Total(t, OwnBytes(hashSize))
  {
    hide Segments, DirKey, Dirs, TreeDirs, IsTreeOf, IsTable, NoneLeads, NoneAbove, AllTrees, Within, Sum, Total, Injective, TreeBytes, EntriesKept, EntriesOf;
    TreeDirsAre(t, blobs);
    var dirs := Dirs(blobs);
    KeysOnto(blobs, table);
    KeysOneToOne(blobs);
    SumImage(dirs, KeyOf(), NameCount(table));
    SumImage(dirs, KeyOf(), NameBytes(table, hashSize));
    forall p | p in dirs
      ensures Named(KeyOf(), NameCount(table))(p) == CountAt(t, EntryCount())(p)
      ensures Named(KeyOf(), NameBytes(table, hashSize))(p) == CountAt(t, OwnBytes(hashSize))(p)
    {
      TableIsTree(blobs, table, t, p);
      EntriesCount(table[DirKey(p)]);
      assert KeyOf()(p) == DirKey(p);
    }
    SumSame(dirs, Named(KeyOf(), NameCount(table)), CountAt(t, EntryCount()));
    SumSame(dirs, Named(KeyOf(), NameBytes(table, hashSize)), CountAt(t, OwnBytes(hashSize)));
    TotalIsSum(t, EntryCount());
    TotalIsSum(t, OwnBytes(hashSize));
    AllTreesAt(t, IsWithin(hashSize));
    forall p | p in dirs ensures DirKey(p) in table && (Within(EntriesKept(table[DirKey(p)]), hashSize) <==> OkAt(t, IsWithin(hashSize), p)) {
      TableIsTree(blobs, table, t, p);
    }
    forall k | k in table ensures exists p :: p in dirs && DirKey(p) == k {
      var p :| p in dirs && KeyOf()(p) == k;
    }
  }

  /** There is one table for each tree exactly when no path opens with a slash:
      a path that does has its first directory counted as the top. */
  lemma TablesAreTrees(blobs: Blobs, table: Table, t: Tree)
    requires IsTable(blobs, table) && IsTreeOf(t, blobs) && blobs != map[]
    ensures |table.Keys| == |TreeDirs(t)| <==> NoneLeads(blobs)
  {
    hide Segments, DirKey, Dirs, TreeDirs, IsTreeOf, IsTable, Image, Injective;
    TreeDirsAre(t, blobs);
    KeysOnto(blobs, table);
    ImageCount(Dirs(blobs), KeyOf());
    if NoneLeads(blobs) {
      KeysOneToOne(blobs);
    } else {
      LeadingClashes(blobs);
    }
  }

  lemma LeadingClashes(blobs: Blobs)
    requires !NoneLeads(blobs)
    ensures !Injective(Dirs(blobs), KeyOf())
  {
    hide Cut, Segments;
    var path :| path in blobs && path != "" && path[0] == '/';
    CutSegments(path);
    FirstSlashCuts(path);
    var top: Path, empty: Path := [], [""];
    assert Segments(path)[..0] == top && Segments(path)[..1] == empty;
    assert top in Dirs(blobs) && empty in Dirs(blobs);
    assert empty[..0] == [];
    assert TrimSlash("" + "/" + "") == "";
    assert KeyOf()(top) == KeyOf()(empty);
  }

  lemma FirstSlashCuts(path: string)
    requires path != "" && path[0] == '/'
    ensures Cut(path) == Some(("", path[1..]))
  {
    assert path[..0] == "";
  }

  // A path that does open with a slash.

  /** A file name of ten thousand bytes. */
  predicate IsLong(name: string) {
    |name| == 10000 && '/' !in name
  }

  /** Two notes, the first under a directory with no name. */
  function Leading(a: string, b: string): Blobs {
    map["/" + a := "note", b := "note"]
  }

  lemma LeadingSegments(a: string, b: string)
    requires IsLong(a) && IsLong(b)
    ensures Segments("/" + a) == ["", a] && Segments(b) == [b]
    ensures Cut("/" + a) == Some(("", a)) && Cut(b).None? && Cut(a).None? && "/" + a != b
  {
    hide Split, Cut;
    SplitHead("", a, '/');
    SplitHead(a, "", '/');
    SplitHead(b, "", '/');
    assert "" + "/" + a == "/" + a;
    FirstSlashCuts("/" + a);
    assert ("/" + a)[1..] == a;
    CutSegments(a);
    CutSegments(b);
    CutNone(a);
    CutNone(b);
  }

  lemma CutNone(s: string)
    ensures '/' !in s ==> Cut(s).None?
  {
  }

  lemma TopTable(a: string, b: string, table: Table)
    requires IsLong(a) && IsLong(b) && IsTable(Leading(a, b), table)
    ensures "" in table && a in table[""] && b in table[""]
  {
    hide Segments, Cut, IsLong;
    LeadingSegments(a, b);
    assert IsKept(table, Segments("/" + a), 1) && IsKept(table, Segments(b), 0);
    var empty: Path := [""];
    assert Segments("/" + a)[..1] == empty && empty[..0] == [];
    assert TrimSlash("" + "/" + "") == "";
    assert DirKey(empty) == "";
    assert Segments(b)[..0] == [];
  }

  lemma TwoLongEntries(a: Entry, b: Entry, entries: set<Entry>)
    requires |a.name| == |b.name| == 10000 && a != b && a in entries && b in entries
    ensures TreeBytes(entries, 20) > TREE_BYTES
  {
    hide Sum;
    var f := EachBytes(20);
    SumWith(entries, f, a);
    SumWith(entries - {a}, f, b);
    SumAtLeast(entries - {a} - {b}, f);
  }

  /** The guard is needed: two such notes make a tree that meets every bound,
      yet counted from the paths its top is too big, so it is refused. */
  lemma RefusesAFittingTree(a: string, b: string, table: Table, t: Tree)
    requires IsLong(a) && IsLong(b) && a != b
    requires IsTable(Leading(a, b), table) && IsTreeOf(t, Leading(a, b))
    ensures !NoneLeads(Leading(a, b)) && NoneAbove(Leading(a, b))
    ensures TreeFits(t, map["note" := 0], 20) && !TableFits(Leading(a, b), table, map["note" := 0], 20)
  {
    hide Cut, Segments, Sum, IsTable, TreeBytes, AllTrees, Total, IsTreeOf, DepthFits, NoneLeads, NoneAbove, Leading, DeepAtMost, IsWithin, HoldsSmall;
    LeadingPaths(a, b);
    TopTable(a, b, table);
    TooLongTop(a, b, table[""]);
    var s := LeadingTree(a, b, t);
    LeadingFits(a, b, t, s);
    DepthIs(t, Leading(a, b), DEPTH);
  }

  lemma TooLongTop(a: string, b: string, names: Names)
    requires |a| == |b| == 10000 && a != b && a in names && b in names
    ensures !Within(EntriesKept(names), 20)
  {
    hide TreeBytes, EntriesKept;
    EntryKept(names, Entry(a, names[a]));
    EntryKept(names, Entry(b, names[b]));
    TwoLongEntries(Entry(a, names[a]), Entry(b, names[b]), EntriesKept(names));
  }

  lemma LeadingPaths(a: string, b: string)
    requires IsLong(a) && IsLong(b)
    ensures !NoneLeads(Leading(a, b)) && NoneAbove(Leading(a, b)) && DeepAtMost(Leading(a, b), DEPTH) && Leading(a, b) != map[]
  {
    hide Cut, Segments;
    LeadingSegments(a, b);
    var path := "/" + a;
    assert path in Leading(a, b) && path[0] == '/';
    assert [b][0] != ["", a][0];
  }

  lemma LongNamesExist() returns (a: string, b: string)
    ensures IsLong(a) && IsLong(b) && a != b
  {
    a, b := seq(10000, _ => 'a'), seq(10000, _ => 'b');
    assert a[0] == 'a' && b[0] == 'b';
  }

  lemma LeadingTree(a: string, b: string, t: Tree) returns (s: Tree)
    requires IsLong(a) && IsLong(b) && IsTreeOf(t, Leading(a, b))
    ensures t == Tree(map[b := "note"], map["" := s]) && s == Tree(map[a := "note"], map[])
  {
    hide Cut, Segments, IsLong, IsUnder, Here, Tops, Leading;
    LeadingTop(a, b);
    s := t.dirs[""];
    var sub :| IsUnder(Leading(a, b), "", sub) && IsTreeOf(s, sub);
    LeadingUnder(a, b, sub);
    LeadingHere(a, b);
    assert t.dirs == map["" := s];
  }

  lemma LeadingTop(a: string, b: string)
    requires IsLong(a) && IsLong(b)
    ensures Here(Leading(a, b)) == map[b := "note"] && Tops(Leading(a, b)) == {""}
  {
    hide Cut, Segments, IsLong;
    LeadingSegments(a, b);
    assert "/" + a in Leading(a, b);
  }

  lemma LeadingHere(a: string, b: string)
    requires IsLong(a) && IsLong(b)
    ensures Here(map[a := "note"]) == map[a := "note"] && Tops(map[a := "note"]) == {}
  {
    hide Cut, Segments, IsLong;
    LeadingSegments(a, b);
  }

  lemma LeadingUnder(a: string, b: string, sub: Blobs)
    requires IsLong(a) && IsLong(b) && IsUnder(Leading(a, b), "", sub)
    ensures sub == map[a := "note"]
  {
    hide Cut, Segments, IsLong;
    LeadingSegments(a, b);
    assert "/" + a in Leading(a, b) && a in sub;
    forall rest | rest in sub ensures rest == a {
      CutOfJoin("", rest);
      assert "" + "/" + rest in Leading(a, b);
    }
  }

  lemma SumOne<T(!new)>(x: T, f: T -> int)
    ensures Sum({x}, f) == f(x)
  {
    SumWith({x}, f, x);
    assert {x} - {x} == {};
  }

  lemma SumTwo<T(!new)>(x: T, y: T, f: T -> int)
    requires x != y
    ensures Sum({x, y}, f) == f(x) + f(y)
  {
    SumWith({x, y}, f, x);
    assert {x, y} - {x} == {y};
    SumOne(y, f);
  }

  lemma LeadingTotal(t: Tree, s: Tree, f: Tree -> int)
    requires t.dirs == map["" := s] && s.dirs == map[]
    ensures Total(t, f) == f(t) + f(s)
  {
    SumOne("", TotalBelow(t, f));
    assert t.dirs.Keys == {""};
    assert Total(s, f) == f(s);
  }

  lemma OneName(t: Tree, n: string)
    requires t.files.Keys == {n} && t.dirs.Keys == {}
    ensures |EntriesOf(t)| == 1 && TreeBytes(EntriesOf(t), 20) == 28 + |n|
  {
    hide Sum;
    assert EntriesOf(t) == {Entry(n, false)};
    SumOne(Entry(n, false), EachBytes(20));
  }

  lemma TwoNames(t: Tree, n: string, d: string)
    requires t.files.Keys == {n} && t.dirs.Keys == {d}
    ensures |EntriesOf(t)| == 2 && TreeBytes(EntriesOf(t), 20) == 55 + |n| + |d|
  {
    hide Sum;
    assert EntriesOf(t) == {Entry(n, false), Entry(d, true)};
    SumTwo(Entry(n, false), Entry(d, true), EachBytes(20));
  }

  lemma OneNote(t: Tree, n: string)
    requires t.files == map[n := "note"]
    ensures OwnNotes(map["note" := 0])(t) == 0 && HoldsSmall(map["note" := 0])(t)
  {
    hide Sum;
    assert t.files.Keys == {n};
    SumOne(n, NoteSizes(t.files, map["note" := 0]));
  }

  lemma LeadingFits(a: string, b: string, t: Tree, s: Tree)
    requires |a| == |b| == 10000 && a != b
    requires t == Tree(map[b := "note"], map["" := s]) && s == Tree(map[a := "note"], map[])
    ensures AllTrees(t, IsWithin(20)) && AllTrees(t, HoldsSmall(map["note" := 0]))
    ensures Total(t, EntryCount()) <= ENTRIES
    ensures Total(t, OwnNotes(map["note" := 0])) + Total(t, OwnBytes(20)) <= BYTES
  {
    hide Sum, Total, TreeBytes, EntriesOf, OwnNotes, HoldsSmall;
    assert t.files.Keys == {b} && t.dirs.Keys == {""} && s.files.Keys == {a} && s.dirs.Keys == {};
    OneName(s, a);
    TwoNames(t, b, "");
    OneNote(t, b);
    OneNote(s, a);
    LeadingTotal(t, s, EntryCount());
    LeadingTotal(t, s, OwnBytes(20));
    LeadingTotal(t, s, OwnNotes(map["note" := 0]));
    assert IsWithin(20)(t) && IsWithin(20)(s);
    assert t.dirs[""] == s;
    assert AllTrees(s, IsWithin(20)) && AllTrees(s, HoldsSmall(map["note" := 0]));
  }

  // hookReadable.

  /** Whether a note set's tree is one the push hook would read, by counting
      what its walk reads. */
  method HookReadable(blobs: Blobs, sizes: Sizes, hashSize: nat) returns (ok: bool, ghost table: Table)
    ensures NoneLeads(blobs) && NoneAbove(blobs) ==> forall t :: IsTreeOf(t, blobs) ==> (ok <==> TreeFits(t, sizes, hashSize))
    ensures ok ==> IsTable(blobs, table)
    ensures ok <==> PathsFit(blobs, sizes) && TableFits(blobs, table, sizes, hashSize)
    ensures PathsFit(blobs, sizes) ==> IsTable(blobs, table)
  {
    hide Segments, DirKey, IsKept, AllSaid, Sum, TableFits, PathsFit, StrictlySorted, KeptAll, IsTable, NoteSizes, Elements,
      NoneLeads, NoneAbove, IsTreeOf, TreeFits;
    var paths := Sorted(blobs.Keys);
    SortedApart(paths);
    var read: nat := 0;
    var entries: Table := map[];
    table := map[];
    NothingRead(blobs, sizes);
    assert paths[..0] == [];
    for i := 0 to |paths|
      invariant AllSaid(blobs, entries) && KeptAll(entries, paths[..i])
      invariant read == Sum(Elements(paths[..i]), NoteSizes(blobs, sizes))
      invariant forall j :: 0 <= j < i ==> |Segments(paths[j])| <= DEPTH && SizeOf(sizes, blobs[paths[j]]) <= NOTE_BYTES
    {
      var path := paths[i];
      assert path in blobs;
      var segments := Segments(path);
      if |segments| > DEPTH {
        TooDeep(blobs, sizes, path);
        CountsAnyTree(blobs, entries, sizes, hashSize, false);
        return false, entries;
      }
      var size := SizeOf(sizes, blobs[path]);
      if size > NOTE_BYTES {
        TooBig(blobs, sizes, path);
        CountsAnyTree(blobs, entries, sizes, hashSize, false);
        return false, entries;
      }
      read := read + size;
      OneMoreRead(blobs, sizes, paths, i);
      entries := Keep(blobs, paths[..i], entries, path);
      assert paths[..i + 1] == paths[..i] + [path];
    }
    assert paths[..|paths|] == paths;
    AllRead(blobs, sizes, paths, entries);
    table := entries;
    ok := TablesRead(blobs, entries, sizes, hashSize, read);
    CountsAnyTree(blobs, entries, sizes, hashSize, ok);
  }

  /** The count is that of any tree of the notes. */
  lemma CountsAnyTree(blobs: Blobs, table: Table, sizes: Sizes, hashSize: nat, ok: bool)
    requires ok <==> PathsFit(blobs, sizes) && TableFits(blobs, table, sizes, hashSize)
    requires PathsFit(blobs, sizes) ==> IsTable(blobs, table)
    ensures NoneLeads(blobs) && NoneAbove(blobs) ==> forall t :: IsTreeOf(t, blobs) ==> (ok <==> TreeFits(t, sizes, hashSize))
  {
    hide PathsFit, TableFits, IsTable, NoneLeads, NoneAbove, IsTreeOf, TreeFits;
    if NoneLeads(blobs) && NoneAbove(blobs) {
      forall t | IsTreeOf(t, blobs) ensures ok <==> TreeFits(t, sizes, hashSize) {
        if PathsFit(blobs, sizes) {
          CountsTheTree(blobs, table, t, sizes, hashSize);
        } else {
          TreeMissesToo(blobs, t, sizes, hashSize);
        }
      }
    }
  }

  /** Paths that are too deep or notes too big make a tree that is, or holds
      them. */
  lemma TreeMissesToo(blobs: Blobs, t: Tree, sizes: Sizes, hashSize: nat)
    requires IsTreeOf(t, blobs) && !PathsFit(blobs, sizes)
    ensures !TreeFits(t, sizes, hashSize)
  {
    hide IsTreeOf, AllTrees, DepthFits, Total, Segments;
    assert blobs != map[];
    DepthIs(t, blobs, DEPTH);
    SmallIs(t, blobs, sizes);
  }

  ghost function Elements(s: seq<string>): set<string> {
    set x | x in s
  }

  ghost predicate KeptAll(table: Table, paths: seq<string>) {
    forall j, i :: 0 <= j < |paths| && 0 <= i < |Segments(paths[j])| ==> IsKept(table, Segments(paths[j]), i)
  }

  lemma SortedApart(paths: seq<string>)
    requires StrictlySorted(paths)
    ensures forall i, j :: 0 <= i < j < |paths| ==> paths[i] != paths[j]
  {
    StrictlySortedDistinct(paths);
  }

  lemma NothingRead(blobs: Blobs, sizes: Sizes)
    ensures AllSaid(blobs, map[]) && KeptAll(map[], []) && Sum(Elements([]), NoteSizes(blobs, sizes)) == 0
  {
    assert Elements([]) == {};
  }

  lemma OneMoreRead(blobs: Blobs, sizes: Sizes, paths: seq<string>, i: nat)
    requires i < |paths| && paths[i] in blobs && forall j, k :: 0 <= j < k < |paths| ==> paths[j] != paths[k]
    ensures Sum(Elements(paths[..i + 1]), NoteSizes(blobs, sizes)) ==
            Sum(Elements(paths[..i]), NoteSizes(blobs, sizes)) + SizeOf(sizes, blobs[paths[i]])
  {
    hide Sum;
    assert paths[..i + 1] == paths[..i] + [paths[i]];
    SumWith(Elements(paths[..i + 1]), NoteSizes(blobs, sizes), paths[i]);
    assert Elements(paths[..i + 1]) - {paths[i]} == Elements(paths[..i]);
  }

  lemma TooDeep(blobs: Blobs, sizes: Sizes, path: string)
    requires path in blobs && |Segments(path)| > DEPTH
    ensures !PathsFit(blobs, sizes)
  {
    hide Segments;
  }

  lemma TooBig(blobs: Blobs, sizes: Sizes, path: string)
    requires path in blobs && SizeOf(sizes, blobs[path]) > NOTE_BYTES
    ensures !PathsFit(blobs, sizes)
  {
    hide Segments;
  }

  lemma AllRead(blobs: Blobs, sizes: Sizes, paths: seq<string>, table: Table)
    requires forall path :: path in paths <==> path in blobs
    requires AllSaid(blobs, table) && KeptAll(table, paths)
    requires forall j :: 0 <= j < |paths| ==> |Segments(paths[j])| <= DEPTH && SizeOf(sizes, blobs[paths[j]]) <= NOTE_BYTES
    ensures IsTable(blobs, table) && PathsFit(blobs, sizes) && Elements(paths) == blobs.Keys
  {
    hide Segments, IsKept, AllSaid;
    forall path | path in blobs ensures exists j :: 0 <= j < |paths| && paths[j] == path {
      assert path in paths;
    }
  }

  /** Keeps each segment of a path under the directory it is in. */
  method Keep(blobs: Blobs, ghost done: seq<string>, entries: Table, path: string) returns (table: Table)
    requires path in blobs && AllSaid(blobs, entries) && KeptAll(entries, done)
    ensures AllSaid(blobs, table) && KeptAll(table, done + [path])
  {
    hide Segments, DirKey, IsKept, AllSaid, KeptAll;
    table := entries;
    var segs := Segments(path);
    var dir := "";
    assert dir == DirKey(segs[..0]) by { KeyOfTop(segs); }
    for i := 0 to |segs|
      invariant dir == DirKey(segs[..i]) && AllSaid(blobs, table) && KeptAll(table, done)
      invariant forall j :: 0 <= j < i ==> IsKept(table, segs, j)
    {
      var names := if dir in table then table[dir] else map[];
      ghost var was := table;
      table := table[dir := names[segs[i] := i < |segs| - 1]];
      OneMoreKept(blobs, was, table, done, path, i);
      KeyStep(segs, i);
      dir := TrimSlash(dir + "/" + segs[i]);
    }
    KeptOneMore(table, blobs, done, path);
  }

  lemma KeyOfTop(segs: Path)
    ensures DirKey(segs[..0]) == ""
  {
  }

  lemma KeyStep(segs: Path, i: nat)
    requires i < |segs|
    ensures DirKey(segs[..i + 1]) == TrimSlash(DirKey(segs[..i]) + "/" + segs[i])
  {
    assert segs[..i + 1][..i] == segs[..i];
  }

  lemma OneMoreKept(blobs: Blobs, was: Table, table: Table, done: seq<string>, path: string, i: nat)
    requires path in blobs && i < |Segments(path)| && AllSaid(blobs, was) && KeptAll(was, done)
    requires var dir := DirKey(Segments(path)[..i]);
             table == was[dir := (if dir in was then was[dir] else map[])[Segments(path)[i] := i < |Segments(path)| - 1]]
    ensures AllSaid(blobs, table) && KeptAll(table, done) && IsKept(table, Segments(path), i)
    ensures forall j :: 0 <= j < |Segments(path)| && IsKept(was, Segments(path), j) ==> IsKept(table, Segments(path), j)
  {
    hide Segments, DirKey;
    var dir := DirKey(Segments(path)[..i]);
    assert Segments(path)[i] in table[dir];
    forall k, n | k in table && n in table[k] ensures SomeSays(blobs, k, n, table[k][n]) {
      if k == dir && n == Segments(path)[i] {
        assert Says(Segments(path), i, k, n, table[k][n]);
      } else {
        assert k in was && n in was[k] && was[k][n] == table[k][n];
      }
    }
    forall j, m | 0 <= j < |done| && 0 <= m < |Segments(done[j])| ensures IsKept(table, Segments(done[j]), m) {
      assert IsKept(was, Segments(done[j]), m);
    }
  }

  lemma KeptOneMore(table: Table, blobs: Blobs, done: seq<string>, path: string)
    requires KeptAll(table, done) && forall j :: 0 <= j < |Segments(path)| ==> IsKept(table, Segments(path), j)
    ensures KeptAll(table, done + [path])
  {
    hide Segments, IsKept;
  }

  /** Counts the tables. */
  method TablesRead(blobs: Blobs, entries: Table, sizes: Sizes, hashSize: nat, notes: nat) returns (ok: bool)
    requires notes == Sum(blobs.Keys, NoteSizes(blobs, sizes))
    ensures ok <==> TableFits(blobs, entries, sizes, hashSize)
  {
    hide Sum, TreeBytes, StrictlySorted, TableFits, Within, NameCount, NameBytes, NoteSizes, Counted, Elements;
    var dirs := Sorted(entries.Keys);
    SortedApart(dirs);
    var total: nat, bytes: nat := 0, 0;
    var read := notes;
    NothingCounted(entries, hashSize, dirs);
    for i := 0 to |dirs|
      invariant Counted(entries, hashSize, dirs, i, total, bytes) && read == notes + bytes
    {
      var names := entries[dirs[i]];
      if |names| > TREE_ENTRIES {
        NotWithin(blobs, entries, sizes, hashSize, dirs[i]);
        return false;
      }
      var size := BytesOf(names, hashSize);
      if size > TREE_BYTES {
        NotWithin(blobs, entries, sizes, hashSize, dirs[i]);
        return false;
      }
      OneMoreCounted(entries, hashSize, dirs, i, total, bytes);
      total := total + |names|;
      bytes := bytes + size;
      read := read + size;
    }
    AllCounted(blobs, entries, sizes, hashSize, dirs, total, bytes);
    ok := total <= ENTRIES && read <= BYTES;
  }

  /** The first tables are within their bounds, and come to so many entries and
      bytes. */
  ghost predicate Counted(entries: Table, hashSize: nat, dirs: seq<string>, i: nat, total: nat, bytes: int) {
    && i <= |dirs| && (forall j :: 0 <= j < |dirs| ==> dirs[j] in entries)
    && total == Sum(Elements(dirs[..i]), NameCount(entries))
    && bytes == Sum(Elements(dirs[..i]), NameBytes(entries, hashSize))
    && forall j :: 0 <= j < i ==> Within(EntriesKept(entries[dirs[j]]), hashSize)
  }

  /** One table past its bounds is too much. */
  lemma NotWithin(blobs: Blobs, entries: Table, sizes: Sizes, hashSize: nat, dir: string)
    requires dir in entries && (|entries[dir]| > TREE_ENTRIES || TreeBytes(EntriesKept(entries[dir]), hashSize) > TREE_BYTES)
    ensures !TableFits(blobs, entries, sizes, hashSize)
  {
    hide Sum, TreeBytes, NameCount, NameBytes, NoteSizes;
    EntriesCount(entries[dir]);
    assert !Within(EntriesKept(entries[dir]), hashSize);
  }

  /** Every table counted, the bounds are those of the three totals. */
  lemma AllCounted(blobs: Blobs, entries: Table, sizes: Sizes, hashSize: nat, dirs: seq<string>, total: nat, bytes: nat)
    requires Counted(entries, hashSize, dirs, |dirs|, total, bytes) && forall k :: k in dirs <==> k in entries.Keys
    ensures TableFits(blobs, entries, sizes, hashSize) <==>
            total <= ENTRIES && Sum(blobs.Keys, NoteSizes(blobs, sizes)) + bytes <= BYTES
  {
    hide Sum, TreeBytes, Within, NameCount, NameBytes, NoteSizes;
    assert dirs[..|dirs|] == dirs;
    assert Elements(dirs) == entries.Keys;
    forall k | k in entries ensures Within(EntriesKept(entries[k]), hashSize) { assert k in dirs; }
  }

  lemma NothingCounted(entries: Table, hashSize: nat, dirs: seq<string>)
    requires forall k :: k in dirs <==> k in entries.Keys
    ensures Counted(entries, hashSize, dirs, 0, 0, 0)
  {
    hide Within, NameCount, NameBytes;
    assert dirs[..0] == [] && Elements([]) == {};
    forall j | 0 <= j < |dirs| ensures dirs[j] in entries { assert dirs[j] in dirs; }
  }

  lemma OneMoreCounted(entries: Table, hashSize: nat, dirs: seq<string>, i: nat, total: nat, bytes: int)
    requires Counted(entries, hashSize, dirs, i, total, bytes) && i < |dirs|
    requires forall j, k :: 0 <= j < k < |dirs| ==> dirs[j] != dirs[k]
    requires |entries[dirs[i]]| <= TREE_ENTRIES && TreeBytes(EntriesKept(entries[dirs[i]]), hashSize) <= TREE_BYTES
    ensures Counted(entries, hashSize, dirs, i + 1, total + |entries[dirs[i]]|, bytes + TreeBytes(EntriesKept(entries[dirs[i]]), hashSize))
  {
    hide Sum, TreeBytes, EntriesKept;
    EntriesCount(entries[dirs[i]]);
    assert dirs[..i + 1] == dirs[..i] + [dirs[i]];
    SumWith(Elements(dirs[..i + 1]), NameCount(entries), dirs[i]);
    SumWith(Elements(dirs[..i + 1]), NameBytes(entries, hashSize), dirs[i]);
    assert Elements(dirs[..i + 1]) - {dirs[i]} == Elements(dirs[..i]);
  }

  method BytesOf(names: Names, hashSize: nat) returns (size: nat)
    ensures size == TreeBytes(EntriesKept(names), hashSize)
  {
    hide Sum, Injective;
    EntriesCount(names);
    SumImage(names.Keys, AsEntry(names), EachBytes(hashSize));
    size := 0;
    var todo := names.Keys;
    NoneOf(names, hashSize);
    while todo != {}
      invariant todo <= names.Keys && size == Sum(names.Keys - todo, Named(AsEntry(names), EachBytes(hashSize)))
    {
      var n :| n in todo;
      SumWith(names.Keys - (todo - {n}), Named(AsEntry(names), EachBytes(hashSize)), n);
      assert names.Keys - (todo - {n}) - {n} == names.Keys - todo;
      size := size + EntryBytes(Entry(n, names[n]), hashSize);
      todo := todo - {n};
    }
    assert names.Keys - todo == names.Keys;
  }

  lemma NoneOf(names: Names, hashSize: nat)
    ensures Sum(names.Keys - names.Keys, Named(AsEntry(names), EachBytes(hashSize))) == 0
  {
  }
}
