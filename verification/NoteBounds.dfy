/** The bounds within which the push hook reads an evidence tree, counted over
    the tree itself, and where each tree of it comes from in the flat paths. */
module NoteBounds {
  import opened Sums
  import opened NoteTree

  type Sizes = map<string, nat>

  /** An entry of a tree object: a tree or a note, under a name. */
  datatype Entry = Entry(name: string, isTree: bool)

  // What the hook's walk counts.

  /** A tree object's entries: a name is there twice when it is both a note's
      and a tree's. */
  ghost function EntriesOf(t: Tree): (entries: set<Entry>)
    ensures forall e :: e in entries <==> if e.isTree then e.name in t.dirs else e.name in t.files
  {
    (set n | n in t.files :: Entry(n, false)) + set d | d in t.dirs :: Entry(d, true)
  }

  function EntryBytes(e: Entry, hashSize: nat): nat {
    (if e.isTree then 5 else 6) + 1 + |e.name| + 1 + hashSize
  }

  ghost function EachBytes(hashSize: nat): Entry -> int {
    (e: Entry) => EntryBytes(e, hashSize)
  }

  /** A tree object's bytes, as git stores its entries. */
  ghost function TreeBytes(entries: set<Entry>, hashSize: nat): int {
    Sum(entries, EachBytes(hashSize))
  }

  function SizeOf(sizes: Sizes, blob: string): nat {
    if blob in sizes then sizes[blob] else 0
  }

  ghost function NoteSizes(notes: Blobs, sizes: Sizes): string -> int {
    (p: string) => if p in notes && notes[p] in sizes then sizes[notes[p]] else 0
  }

  ghost function EntryCount(): Tree -> int {
    (t: Tree) => |EntriesOf(t)|
  }

  ghost function OwnBytes(hashSize: nat): Tree -> int {
    (t: Tree) => TreeBytes(EntriesOf(t), hashSize)
  }

  ghost function OwnNotes(sizes: Sizes): Tree -> int {
    (t: Tree) => Sum(t.files.Keys, NoteSizes(t.files, sizes))
  }

  /** A count over a tree and every tree under it. */
  ghost function Total(t: Tree, f: Tree -> int): int
    decreases t, 1
  {
    f(t) + Sum(t.dirs.Keys, TotalBelow(t, f))
  }

  ghost function TotalBelow(t: Tree, f: Tree -> int): string -> int
    decreases t, 0
  {
    (d: string) => if d in t.dirs then Total(t.dirs[d], f) else 0
  }

  /** Something true of a tree and every tree under it. */
  ghost predicate AllTrees(t: Tree, ok: Tree -> bool) {
    ok(t) && forall d :: d in t.dirs ==> AllTrees(t.dirs[d], ok)
  }

  ghost predicate DepthFits(t: Tree, n: nat) {
    n > 0 && forall d :: d in t.dirs ==> DepthFits(t.dirs[d], n - 1)
  }

  ghost predicate Within(entries: set<Entry>, hashSize: nat) {
    |entries| <= TREE_ENTRIES && TreeBytes(entries, hashSize) <= TREE_BYTES
  }

  ghost function IsWithin(hashSize: nat): Tree -> bool {
    (t: Tree) => Within(EntriesOf(t), hashSize)
  }

  ghost function HoldsSmall(sizes: Sizes): Tree -> bool {
    (t: Tree) => forall n :: n in t.files && t.files[n] in sizes ==> sizes[t.files[n]] <= NOTE_BYTES
  }

  /** The six bounds: depth, entries in a tree and in all, bytes in a tree, in a
      note and in all. */
  ghost predicate TreeFits(t: Tree, sizes: Sizes, hashSize: nat) {
    && DepthFits(t, DEPTH) && AllTrees(t, IsWithin(hashSize)) && AllTrees(t, HoldsSmall(sizes))
    && Total(t, EntryCount()) <= ENTRIES
    && Total(t, OwnNotes(sizes)) + Total(t, OwnBytes(hashSize)) <= BYTES
  }

  // The trees by their paths.

  ghost function Below(d: string): Path -> Path {
    (p: Path) => [d] + p
  }

  ghost function DirsUnder(t: Tree): string -> set<Path> {
    (d: string) => if d in t.dirs then Image(TreeDirs(t.dirs[d]), Below(d)) else {}
  }

  ghost function Top(): set<Path> {
    {[]}
  }

  /** The path of each tree, from the top down. */
  ghost function TreeDirs(t: Tree): set<Path> {
    Top() + set d, p | d in t.dirs && p in TreeDirs(t.dirs[d]) :: [d] + p
  }

  ghost function TreeAt(t: Tree, p: Path): Tree
    decreases |p|
  {
    if p != [] && p[0] in t.dirs then TreeAt(t.dirs[p[0]], p[1..]) else t
  }

  ghost function CountAt(t: Tree, f: Tree -> int): Path -> int {
    (p: Path) => f(TreeAt(t, p))
  }

  lemma InDirsUnder(t: Tree, d: string, p: Path)
    requires d in t.dirs
    ensures p in DirsUnder(t)(d) <==> p != [] && p[0] == d && p[1..] in TreeDirs(t.dirs[d])
  {
    hide TreeDirs;
    if p in DirsUnder(t)(d) {
      var q :| q in TreeDirs(t.dirs[d]) && p == Below(d)(q);
      assert p == [d] + q && p[1..] == q;
    }
    if p != [] && p[0] == d && p[1..] in TreeDirs(t.dirs[d]) {
      assert p == [d] + p[1..] == Below(d)(p[1..]);
    }
  }

  lemma DirsAreParts(t: Tree)
    ensures TreeDirs(t) == Top() + All(t.dirs.Keys, DirsUnder(t))
    ensures Top() !! All(t.dirs.Keys, DirsUnder(t)) && Apart(t.dirs.Keys, DirsUnder(t))
  {
    hide TreeDirs, DirsUnder;
    TopIsDir(t);
    forall d, p | d in t.dirs ensures p in DirsUnder(t)(d) <==> p != [] && p[0] == d && p[1..] in TreeDirs(t.dirs[d]) {
      InDirsUnder(t, d, p);
    }
    forall p | p in TreeDirs(t) && p != [] ensures p in All(t.dirs.Keys, DirsUnder(t)) {
      DirsFirst(t, p);
      assert p in DirsUnder(t)(p[0]);
    }
    forall p | p in All(t.dirs.Keys, DirsUnder(t)) ensures p in TreeDirs(t) && p != [] {
      var d :| d in t.dirs && p in DirsUnder(t)(d);
      InDirsUnder(t, d, p);
      DirsAre(t, d, p[1..]);
      assert p == [d] + p[1..];
    }
    forall x, y | x in t.dirs && y in t.dirs && x != y ensures DirsUnder(t)(x) !! DirsUnder(t)(y) {
      assert forall p :: p in DirsUnder(t)(x) ==> p != [] && p[0] == x;
      assert forall p :: p in DirsUnder(t)(y) ==> p != [] && p[0] == y;
    }
  }

  lemma BelowInjective(s: set<Path>, d: string)
    ensures Injective(s, Below(d))
  {
    forall x, y | x in s && y in s && Below(d)(x) == Below(d)(y) ensures x == y {
      assert ([d] + x)[1..] == x && ([d] + y)[1..] == y;
    }
  }

  /** A count over a tree is the sum over its trees' paths. */
  lemma {:induction false} TotalIsSum(t: Tree, f: Tree -> int)
    ensures Total(t, f) == Sum(TreeDirs(t), CountAt(t, f))
    decreases t
  {
    hide TreeDirs, Image, Apart, All, Injective;
    var g := CountAt(t, f);
    DirsAreParts(t);
    SumBoth(Top(), All(t.dirs.Keys, DirsUnder(t)), g);
    TopCount(t, f);
    SumParts(t.dirs.Keys, DirsUnder(t), g);
    forall d | d in t.dirs ensures PartSum(DirsUnder(t), g)(d) == TotalBelow(t, f)(d) {
      TotalIsSum(t.dirs[d], f);
      CountBelow(t, d, f);
    }
    SumSame(t.dirs.Keys, PartSum(DirsUnder(t), g), TotalBelow(t, f));
  }

  lemma CountOf(t: Tree, f: Tree -> int, p: Path)
    ensures CountAt(t, f)(p) == f(TreeAt(t, p))
  {
  }

  lemma TopCount(t: Tree, f: Tree -> int)
    ensures Sum(Top(), CountAt(t, f)) == f(t)
  {
    var top: Path := [];
    CountOf(t, f, top);
    SumWith(Top(), CountAt(t, f), top);
    assert Top() - {top} == {};
  }

  lemma CountNamed(t: Tree, d: string, f: Tree -> int, p: Path)
    requires d in t.dirs
    ensures Named(Below(d), CountAt(t, f))(p) == CountAt(t.dirs[d], f)(p)
  {
    assert ([d] + p)[1..] == p;
    CountOf(t, f, [d] + p);
    CountOf(t.dirs[d], f, p);
    assert Below(d)(p) == [d] + p;
  }

  lemma DirsUnderAre(t: Tree, d: string)
    requires d in t.dirs
    ensures DirsUnder(t)(d) == Image(TreeDirs(t.dirs[d]), Below(d))
  {
  }

  lemma CountBelow(t: Tree, d: string, f: Tree -> int)
    requires d in t.dirs
    ensures Sum(DirsUnder(t)(d), CountAt(t, f)) == Sum(TreeDirs(t.dirs[d]), CountAt(t.dirs[d], f))
  {
    hide TreeDirs, Image, Injective, CountAt, DirsUnder, Named, Below, Sum;
    var dirs, g := TreeDirs(t.dirs[d]), CountAt(t, f);
    BelowInjective(dirs, d);
    SumImage(dirs, Below(d), g);
    DirsUnderAre(t, d);
    forall p | p in dirs ensures Named(Below(d), g)(p) == CountAt(t.dirs[d], f)(p) {
      CountNamed(t, d, f, p);
    }
    SumSame(dirs, Named(Below(d), g), CountAt(t.dirs[d], f));
  }

  ghost predicate OkAt(t: Tree, ok: Tree -> bool, p: Path) {
    ok(TreeAt(t, p))
  }

  lemma {:induction false} AllTreesAt(t: Tree, ok: Tree -> bool)
    ensures AllTrees(t, ok) <==> forall p :: p in TreeDirs(t) ==> OkAt(t, ok, p)
    decreases t
  {
    hide TreeDirs;
    TopIsDir(t);
    forall d | d in t.dirs
      ensures AllTrees(t.dirs[d], ok) <==> forall q :: q in TreeDirs(t.dirs[d]) ==> OkAt(t, ok, [d] + q)
    {
      AllTreesAt(t.dirs[d], ok);
      forall q ensures OkAt(t, ok, [d] + q) <==> OkAt(t.dirs[d], ok, q) {
        assert ([d] + q)[1..] == q;
      }
    }
    forall p | p in TreeDirs(t) && p != [] ensures p[0] in t.dirs && p[1..] in TreeDirs(t.dirs[p[0]]) && p == [p[0]] + p[1..] {
      DirsFirst(t, p);
    }
    forall d, q | d in t.dirs && q in TreeDirs(t.dirs[d]) ensures [d] + q in TreeDirs(t) {
      DirsAre(t, d, q);
    }
  }

  lemma TopIsDir(t: Tree)
    ensures [] in TreeDirs(t) && TreeAt(t, []) == t
  {
  }

  lemma DirsFirst(t: Tree, p: Path)
    requires p in TreeDirs(t) && p != []
    ensures p[0] in t.dirs && p[1..] in TreeDirs(t.dirs[p[0]]) && p == [p[0]] + p[1..]
  {
    var d, q :| d in t.dirs && q in TreeDirs(t.dirs[d]) && p == [d] + q;
    assert p[0] == d && p[1..] == q;
  }

  lemma DirsAre(t: Tree, d: string, q: Path)
    requires d in t.dirs && q in TreeDirs(t.dirs[d])
    ensures [d] + q in TreeDirs(t)
  {
  }

  // The paths.

  /** The directories some paths name, the top among them. */
  ghost function Dirs(blobs: Blobs): set<Path> {
    set path, i | path in blobs && 0 <= i < |Segments(path)| :: Segments(path)[..i]
  }

  /** Whether a path is some note's. */
  ghost predicate Ends(blobs: Blobs, p: Path) {
    exists path :: path in blobs && p == Segments(path)
  }

  /** A directory's notes are those whose paths open with it. */
  lemma UnderSegments(blobs: Blobs, d: string, sub: Blobs)
    requires IsUnder(blobs, d, sub) && d in Tops(blobs)
    ensures forall rest :: rest in sub ==> d + "/" + rest in blobs && Segments(d + "/" + rest) == [d] + Segments(rest)
    ensures forall path :: path in blobs && Segments(path)[0] == d && |Segments(path)| > 1 ==>
              exists rest :: rest in sub && path == d + "/" + rest
  {
    hide Cut, Segments;
    forall rest | rest in sub ensures d + "/" + rest in blobs && Segments(d + "/" + rest) == [d] + Segments(rest) {
      CutOfJoin(d, rest);
      CutSegments(d + "/" + rest);
    }
    forall path | path in blobs && Segments(path)[0] == d && |Segments(path)| > 1
      ensures exists rest :: rest in sub && path == d + "/" + rest
    {
      CutSegments(path);
    }
  }

  ghost predicate Goes(blobs: Blobs, p: Path) {
    exists path :: path in blobs && p < Segments(path)
  }

  lemma GoesDirs(blobs: Blobs, p: Path)
    ensures p in Dirs(blobs) <==> Goes(blobs, p)
  {
    hide Segments;
    if path :| path in blobs && p < Segments(path) {
      assert p == Segments(path)[..|p|];
    }
  }

  lemma UnderDirs(blobs: Blobs, d: string, sub: Blobs, q: Path)
    requires IsUnder(blobs, d, sub) && d in Tops(blobs)
    ensures [d] + q in Dirs(blobs) <==> q in Dirs(sub)
  {
    hide Cut, Segments, IsUnder, Dirs;
    UnderSegments(blobs, d, sub);
    GoesDirs(sub, q);
    GoesDirs(blobs, [d] + q);
    if Goes(sub, q) {
      var rest :| rest in sub && q < Segments(rest);
      assert [d] + q < Segments(d + "/" + rest);
    }
    if Goes(blobs, [d] + q) {
      var path :| path in blobs && [d] + q < Segments(path);
      assert ([d] + q)[0] == d;
      var rest :| rest in sub && path == d + "/" + rest;
      assert q < Segments(path)[1..];
    }
  }

  lemma UnderEnds(blobs: Blobs, d: string, sub: Blobs, q: Path)
    requires IsUnder(blobs, d, sub) && d in Tops(blobs) && q != []
    ensures Ends(blobs, [d] + q) <==> Ends(sub, q)
  {
    hide Cut, Segments, IsUnder;
    UnderSegments(blobs, d, sub);
    if Ends(sub, q) {
      var rest :| rest in sub && q == Segments(rest);
      assert [d] + q == Segments(d + "/" + rest);
    }
    if Ends(blobs, [d] + q) {
      var path :| path in blobs && [d] + q == Segments(path);
      assert ([d] + q)[0] == d;
      var rest :| rest in sub && path == d + "/" + rest;
      assert q == Segments(path)[1..];
    }
  }

  /** A tree has a tree for each directory of its paths. */
  lemma {:induction false} TreeDirsAre(t: Tree, blobs: Blobs)
    requires IsTreeOf(t, blobs) && blobs != map[]
    ensures TreeDirs(t) == Dirs(blobs)
    decreases t
  {
    hide Cut, Segments, IsUnder, TreeDirs, Dirs;
    TopDir(blobs);
    TopIsDir(t);
    forall p | p != [] ensures p in TreeDirs(t) <==> p in Dirs(blobs) {
      var d, q := p[0], p[1..];
      assert p == [d] + q;
      if p in Dirs(blobs) { DirTops(blobs, p); }
      if p in TreeDirs(t) { DirsFirst(t, p); }
      if d in t.dirs {
        var sub :| IsUnder(blobs, d, sub) && IsTreeOf(t.dirs[d], sub);
        UnderNotEmpty(blobs, d, sub);
        TreeDirsAre(t.dirs[d], sub);
        UnderDirs(blobs, d, sub, q);
        DirsStep(t, p);
      }
    }
  }

  lemma TopDir(blobs: Blobs)
    requires blobs != map[]
    ensures [] in Dirs(blobs)
  {
    var path :| path in blobs;
    assert Segments(path)[..0] == [];
  }

  lemma DirsStep(t: Tree, p: Path)
    requires p != [] && p[0] in t.dirs
    ensures p in TreeDirs(t) <==> p[1..] in TreeDirs(t.dirs[p[0]])
  {
    assert p == [p[0]] + p[1..];
    if p in TreeDirs(t) {
      var d, q :| d in t.dirs && q in TreeDirs(t.dirs[d]) && p == [d] + q;
      assert p[0] == d && p[1..] == q;
    }
  }

  lemma DirTops(blobs: Blobs, p: Path)
    requires p != [] && p in Dirs(blobs)
    ensures p[0] in Tops(blobs)
  {
    hide Segments, Cut;
    var path, i :| path in blobs && 0 <= i < |Segments(path)| && p == Segments(path)[..i];
    CutSegments(path);
  }

  lemma UnderNotEmpty(blobs: Blobs, d: string, sub: Blobs)
    requires IsUnder(blobs, d, sub) && d in Tops(blobs)
    ensures sub != map[]
  {
    hide Cut;
    var path :| path in blobs && Cut(path).Some? && Cut(path).value.0 == d;
    assert Cut(path).value.1 in sub;
  }
}
