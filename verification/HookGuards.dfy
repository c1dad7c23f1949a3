/** What each guard on the paths is for, where hookReadable
    (integrator/transfer.go) counts a tree from them: with no path opening with a
    slash it refuses no tree that fits, and only where no path is a directory of
    another does it count every entry. */
module HookGuards {
  import opened Wrappers
  import opened Strings
  import opened Sums
  import opened NoteTree
  import opened NoteBounds
  import opened NoteTotals
  import opened HookReadable

  /** No note under a directory has the name of a directory there. */
  ghost predicate NoClash(blobs: Blobs, p: Path) {
    forall n :: !(Ends(blobs, p + [n]) && Goes(blobs, p + [n]))
  }

  lemma ClashesAre(blobs: Blobs)
    ensures NoneAbove(blobs) <==> forall p :: p in Dirs(blobs) ==> NoClash(blobs, p)
  {
    hide Segments, Dirs;
    if a, b :| a in blobs && b in blobs && Segments(a) < Segments(b) {
      var p, n := Segments(a)[..|Segments(a)| - 1], Segments(a)[|Segments(a)| - 1];
      assert p + [n] == Segments(a);
      assert p < Segments(a);
      GoesDirs(blobs, p);
      assert Ends(blobs, p + [n]) && Goes(blobs, p + [n]);
    }
  }

  /** A name kept as a tree's has a path that goes on, and one kept as a note's a
      path that ends. */
  lemma KindSaid(blobs: Blobs, table: Table, p: Path, n: string)
    requires IsTable(blobs, table) && NoneLeads(blobs) && p in Dirs(blobs) && DirKey(p) in table && n in table[DirKey(p)]
    ensures if table[DirKey(p)][n] then Goes(blobs, p + [n]) else Ends(blobs, p + [n])
  {
    hide Segments, DirKey, Dirs, NoneLeads;
    var path, i :| path in blobs && 0 <= i < |Segments(path)| && Says(Segments(path), i, DirKey(p), n, table[DirKey(p)][n]);
    SaidHere(blobs, p, path, i);
    if i == |Segments(path)| - 1 { assert Segments(path) == p + [n]; }
  }

  /** The names kept at a directory are entries of the tree there, and all of them
      exactly where no name is both a note's and a tree's. */
  lemma KeptAreEntries(blobs: Blobs, table: Table, t: Tree, p: Path)
    requires IsTable(blobs, table) && IsTreeOf(t, blobs) && NoneLeads(blobs)
    requires p in Dirs(blobs) && p in TreeDirs(t)
    ensures DirKey(p) in table && EntriesKept(table[DirKey(p)]) <= EntriesOf(TreeAt(t, p))
    ensures EntriesKept(table[DirKey(p)]) == EntriesOf(TreeAt(t, p)) <==> NoClash(blobs, p)
  {
    hide Segments, DirKey, Dirs, TreeDirs, IsTreeOf, IsTable, NoneLeads, Goes, Ends, EntriesOf, EntriesKept, TreeAt;
    KeyKept(blobs, table, p);
    var names, entries := table[DirKey(p)], EntriesOf(TreeAt(t, p));
    forall e: Entry
      ensures e in EntriesKept(names) ==> e in entries
      ensures e in entries && e !in EntriesKept(names) ==> Ends(blobs, p + [e.name]) && Goes(blobs, p + [e.name])
    {
      EntryIs(blobs, table, t, p, e);
    }
    forall n ensures Ends(blobs, p + [n]) && Goes(blobs, p + [n]) ==> EntriesKept(names) != entries {
      EntriesAtTree(t, blobs, p, n);
      EntryKept(names, Entry(n, true));
      EntryKept(names, Entry(n, false));
    }
  }

  lemma EntryIs(blobs: Blobs, table: Table, t: Tree, p: Path, e: Entry)
    requires IsTable(blobs, table) && IsTreeOf(t, blobs) && NoneLeads(blobs)
    requires p in Dirs(blobs) && p in TreeDirs(t) && DirKey(p) in table
    ensures e in EntriesKept(table[DirKey(p)]) ==> e in EntriesOf(TreeAt(t, p))
    ensures e in EntriesOf(TreeAt(t, p)) && e !in EntriesKept(table[DirKey(p)]) ==> Ends(blobs, p + [e.name]) && Goes(blobs, p + [e.name])
  {
    hide Segments, DirKey, Dirs, TreeDirs, IsTreeOf, IsTable, NoneLeads, Goes, Ends, EntriesOf, EntriesKept, TreeAt;
    EntriesAtTree(t, blobs, p, e.name);
    NamesKept(blobs, table, p, e.name);
    EntryKept(table[DirKey(p)], e);
    assert e == Entry(e.name, true) || e == Entry(e.name, false);
    if e.name in table[DirKey(p)] { KindSaid(blobs, table, p, e.name); }
  }

  // What comes of it in the counts.

  lemma Fewer<T(!new)>(a: set<T>, b: set<T>)
    requires a <= b
    ensures |a| <= |b| && (|a| == |b| <==> a == b)
  {
    assert b == a + (b - a);
    assert |b| == |a| + |b - a|;
  }

  lemma LessBytes(a: set<Entry>, b: set<Entry>, hashSize: nat)
    requires a <= b
    ensures TreeBytes(a, hashSize) <= TreeBytes(b, hashSize)
  {
    hide Sum;
    SumFewer(a, b, EachBytes(hashSize));
  }

  lemma {:induction false} SumAtMost<T(!new)>(s: set<T>, f: T -> int, g: T -> int)
    requires forall x :: x in s ==> f(x) <= g(x)
    ensures Sum(s, f) <= Sum(s, g)
    ensures Sum(s, f) == Sum(s, g) <==> forall x :: x in s ==> f(x) == g(x)
    decreases |s|
  {
    if s != {} {
      var x :| x in s;
      SumWith(s, f, x);
      SumWith(s, g, x);
      SumAtMost(s - {x}, f, g);
    }
  }

  /** The counts at one directory: from the names kept, and from the tree. */
  lemma CountsAt(blobs: Blobs, table: Table, t: Tree, p: Path, hashSize: nat)
    requires IsTable(blobs, table) && IsTreeOf(t, blobs) && NoneLeads(blobs)
    requires p in Dirs(blobs) && p in TreeDirs(t)
    ensures Named(KeyOf(), NameCount(table))(p) <= CountAt(t, EntryCount())(p)
    ensures Named(KeyOf(), NameCount(table))(p) == CountAt(t, EntryCount())(p) <==> NoClash(blobs, p)
    ensures Named(KeyOf(), NameBytes(table, hashSize))(p) <= CountAt(t, OwnBytes(hashSize))(p)
    ensures DirKey(p) in table && (OkAt(t, IsWithin(hashSize), p) ==> Within(EntriesKept(table[DirKey(p)]), hashSize))
  {
    hide Segments, DirKey, Dirs, TreeDirs, IsTreeOf, IsTable, NoneLeads, NoClash, EntriesOf, EntriesKept, TreeAt, TreeBytes;
    KeptAreEntries(blobs, table, t, p);
    var kept, entries := EntriesKept(table[DirKey(p)]), EntriesOf(TreeAt(t, p));
    EntriesCount(table[DirKey(p)]);
    Fewer(kept, entries);
    LessBytes(kept, entries, hashSize);
    assert KeyOf()(p) == DirKey(p);
  }

  lemma CountsOver(blobs: Blobs, table: Table, t: Tree, hashSize: nat)
    requires IsTable(blobs, table) && IsTreeOf(t, blobs) && NoneLeads(blobs) && blobs != map[]
    ensures Sum(table.Keys, NameCount(table)) <= Total(t, EntryCount())
    ensures Sum(table.Keys, NameCount(table)) == Total(t, EntryCount()) <==> NoneAbove(blobs)
    ensures Sum(table.Keys, NameBytes(table, hashSize)) <= Total(t, OwnBytes(hashSize))
    ensures AllTrees(t, IsWithin(hashSize)) ==> forall k :: k in table ==> Within(EntriesKept(table[k]), hashSize)
  {
    hide Segments, DirKey, Dirs, TreeDirs, IsTreeOf, IsTable, NoneLeads, NoneAbove, NoClash, AllTrees, Within, Sum, Total, Injective,
      EntriesKept, NameCount, NameBytes, CountAt, Named, OkAt;
    TreeDirsAre(t, blobs);
    var dirs := Dirs(blobs);
    KeysOnto(blobs, table);
    KeysOneToOne(blobs);
    SumImage(dirs, KeyOf(), NameCount(table));
    SumImage(dirs, KeyOf(), NameBytes(table, hashSize));
    TotalIsSum(t, EntryCount());
    TotalIsSum(t, OwnBytes(hashSize));
    AllTreesAt(t, IsWithin(hashSize));
    ClashesAre(blobs);
    forall p | p in dirs
      ensures Named(KeyOf(), NameCount(table))(p) <= CountAt(t, EntryCount())(p)
      ensures Named(KeyOf(), NameCount(table))(p) == CountAt(t, EntryCount())(p) <==> NoClash(blobs, p)
      ensures Named(KeyOf(), NameBytes(table, hashSize))(p) <= CountAt(t, OwnBytes(hashSize))(p)
      ensures DirKey(p) in table && (OkAt(t, IsWithin(hashSize), p) ==> Within(EntriesKept(table[DirKey(p)]), hashSize))
    {
      CountsAt(blobs, table, t, p, hashSize);
    }
    SumAtMost(dirs, Named(KeyOf(), NameCount(table)), CountAt(t, EntryCount()));
    SumAtMost(dirs, Named(KeyOf(), NameBytes(table, hashSize)), CountAt(t, OwnBytes(hashSize)));
    forall k | k in table ensures exists p :: p in dirs && DirKey(p) == k {
      var p :| p in dirs && KeyOf()(p) == k;
    }
  }

  /** With no path opening with a slash, the names kept come to the tree's entries
      exactly when no path is a directory of another, and else to fewer. */
  lemma EntriesAreCounted(blobs: Blobs, table: Table, t: Tree)
    requires IsTable(blobs, table) && IsTreeOf(t, blobs) && NoneLeads(blobs) && blobs != map[]
    ensures Sum(table.Keys, NameCount(table)) <= Total(t, EntryCount())
    ensures Sum(table.Keys, NameCount(table)) == Total(t, EntryCount()) <==> NoneAbove(blobs)
  {
    hide IsTable, IsTreeOf, NoneLeads, NoneAbove, Sum, Total, NameCount;
    CountsOver(blobs, table, t, 20);
  }

  /** With no path opening with a slash, no tree that fits is refused. */
  lemma RefusesOnlyUnfit(blobs: Blobs, table: Table, t: Tree, sizes: Sizes, hashSize: nat)
    requires IsTable(blobs, table) && IsTreeOf(t, blobs) && NoneLeads(blobs) && TreeFits(t, sizes, hashSize)
    ensures PathsFit(blobs, sizes) && TableFits(blobs, table, sizes, hashSize)
  {
    hide Segments, IsTreeOf, IsTable, NoneLeads, AllTrees, Within, Sum, Total, DeepAtMost, SmallNotes, DepthFits, EntriesKept;
    if blobs == map[] {
      NothingFits(blobs, table, t, sizes, hashSize);
    } else {
      SmallIs(t, blobs, sizes);
      NotesTotal(t, blobs, sizes);
      DepthIs(t, blobs, DEPTH);
      CountsOver(blobs, table, t, hashSize);
    }
  }

  // A path that is a directory of another.

  /** A note, and another beneath its own path. */
  function Beneath(a: string): Blobs {
    map[a := "note", a + "/b" := "note"]
  }

  lemma BeneathSegments(a: string)
    requires IsLong(a)
    ensures Segments(a) == [a] && Segments(a + "/b") == [a, "b"] && a != a + "/b"
    ensures Cut(a).None? && Cut(a + "/b") == Some((a, "b")) && Cut("b").None?
  {
    hide Split, Cut;
    CutNone(a);
    CutSegments(a);
    assert a + "/" + "b" == a + "/b";
    CutOfJoin(a, "b");
    CutSegments(a + "/b");
    CutNone("b");
    CutSegments("b");
  }

  lemma BeneathPaths(a: string)
    requires IsLong(a)
    ensures NoneLeads(Beneath(a)) && !NoneAbove(Beneath(a)) && PathsFit(Beneath(a), map["note" := 0])
    ensures Beneath(a) != map[]
  {
    hide Cut, Segments;
    BeneathSegments(a);
    assert a in Beneath(a) && a[0] in a;
    assert [a] < [a, "b"];
  }

  lemma BeneathTree(a: string, t: Tree) returns (s: Tree)
    requires IsLong(a) && IsTreeOf(t, Beneath(a))
    ensures t == Tree(map[a := "note"], map[a := s]) && s == Tree(map["b" := "note"], map[])
  {
    hide Cut, Segments, IsLong, IsUnder, Here, Tops, Beneath;
    BeneathTop(a);
    s := t.dirs[a];
    var sub :| IsUnder(Beneath(a), a, sub) && IsTreeOf(s, sub);
    BeneathUnder(a, sub);
    BeneathHere();
    assert t.dirs == map[a := s];
  }

  lemma BeneathTop(a: string)
    requires IsLong(a)
    ensures Here(Beneath(a)) == map[a := "note"] && Tops(Beneath(a)) == {a}
  {
    hide Cut, Segments, IsLong;
    BeneathSegments(a);
    assert a + "/b" in Beneath(a);
  }

  lemma BeneathHere()
    ensures Here(map["b" := "note"]) == map["b" := "note"] && Tops(map["b" := "note"]) == {}
  {
    hide Cut;
    CutNone("b");
  }

  lemma BeneathUnder(a: string, sub: Blobs)
    requires IsLong(a) && IsUnder(Beneath(a), a, sub)
    ensures sub == map["b" := "note"]
  {
    hide Cut, Segments, IsLong;
    BeneathSegments(a);
    assert a + "/b" in Beneath(a) && "b" in sub;
    forall rest | rest in sub ensures rest == "b" {
      CutOfJoin(a, rest);
      assert a + "/" + rest in Beneath(a);
    }
  }

  /** Every such table holds one name at the top and one below. */
  lemma BeneathTable(a: string, table: Table)
    requires IsLong(a) && IsTable(Beneath(a), table)
    ensures table.Keys == {"", a} && table[""].Keys == {a} && table[a].Keys == {"b"}
  {
    hide Cut, Segments, DirKey;
    BeneathSegments(a);
    BeneathKeys(a);
    assert IsKept(table, Segments(a), 0) && IsKept(table, Segments(a + "/b"), 0) && IsKept(table, Segments(a + "/b"), 1);
    forall k, n | k in table && n in table[k] ensures (k == "" && n == a) || (k == a && n == "b") {
      assert SomeSays(Beneath(a), k, n, table[k][n]);
    }
    forall k | k in table ensures k in {"", a} {
      var n :| n in table[k];
    }
  }

  lemma BeneathKeys(a: string)
    requires IsLong(a)
    ensures DirKey([a][..0]) == "" && DirKey([a, "b"][..0]) == "" && DirKey([a, "b"][..1]) == a
  {
    assert [a, "b"][..1] == [a] && [a][..0] == [];
    assert "" + "/" + a == "/" + a;
    assert DirKey([a]) == TrimSlash("/" + a);
  }

  lemma OneKept(names: Names, n: string)
    requires names.Keys == {n} && |n| <= 10000
    ensures |names| == 1 && Within(EntriesKept(names), 20) && TreeBytes(EntriesKept(names), 20) <= 28 + |n|
  {
    hide Sum;
    assert |names| == |names.Keys|;
    EntriesCount(names);
    assert EntriesKept(names) == {AsEntry(names)(n)};
    SumOne(AsEntry(names)(n), EachBytes(20));
  }

  lemma BeneathFits(a: string, table: Table)
    requires IsLong(a) && IsTable(Beneath(a), table)
    ensures TableFits(Beneath(a), table, map["note" := 0], 20)
  {
    hide Sum, IsTable, EntriesKept, TreeBytes, Within;
    BeneathTable(a, table);
    OneKept(table[""], a);
    OneKept(table[a], "b");
    SumTwo("", a, NameCount(table));
    SumTwo("", a, NameBytes(table, 20));
    BeneathSegments(a);
    var f := NoteSizes(Beneath(a), map["note" := 0]);
    assert Beneath(a).Keys == {a, a + "/b"};
    SumTwo(a, a + "/b", f);
  }

  /** The second guard is needed: two such notes make a tree whose top is too big,
      with one long name in it twice, and yet it is accepted. */
  lemma AcceptsAnUnfitTree(a: string, table: Table, t: Tree)
    requires IsLong(a) && IsTable(Beneath(a), table) && IsTreeOf(t, Beneath(a))
    ensures NoneLeads(Beneath(a)) && !NoneAbove(Beneath(a))
    ensures PathsFit(Beneath(a), map["note" := 0]) && TableFits(Beneath(a), table, map["note" := 0], 20)
    ensures !TreeFits(t, map["note" := 0], 20)
  {
    hide IsTable, TableFits, PathsFit, NoneLeads, NoneAbove, IsTreeOf, Beneath, TreeBytes;
    BeneathPaths(a);
    BeneathFits(a, table);
    var s := BeneathTree(a, t);
    TwoLongEntries(Entry(a, false), Entry(a, true), EntriesOf(t));
    assert !IsWithin(20)(t);
  }
}
