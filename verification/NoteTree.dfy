/** The tree an evidence ref moves to (integrator/transfer.go): writeTree builds
    it from flat paths, and the push hook reads it within bounds. */
module NoteTree {
  import opened Wrappers
  import opened Strings

  const DEPTH: nat := 4
  const TREE_ENTRIES: nat := 64
  const ENTRIES: nat := 256
  const TREE_BYTES: nat := 16384
  const NOTE_BYTES: nat := 65536
  const BYTES: nat := 1048576

  type Blobs = map<string, string>
  type Path = seq<string>

  /** A tree: the notes in it, and the trees under it, by name. */
  datatype Tree = Tree(files: Blobs, dirs: map<string, Tree>)

  function Cut(path: string): Option<(string, string)> {
    var i := IndexOf(path, '/');
    if i == |path| then None else Some((path[..i], path[i + 1..]))
  }

  function Segments(path: string): (segs: Path)
    ensures segs != []
  {
    Split(path, '/')
  }

  lemma CutSegments(path: string)
    ensures Cut(path).None? ==> Segments(path) == [path] && '/' !in path
    ensures Cut(path).Some? ==> Segments(path) == [Cut(path).value.0] + Segments(Cut(path).value.1)
    ensures Cut(path).Some? ==> path == Cut(path).value.0 + "/" + Cut(path).value.1 && '/' !in Cut(path).value.0
  {
    hide Split;
    var i := IndexOf(path, '/');
    assert '/' !in path[..i];
    if i == |path| {
      assert path[..i] == path;
      SplitHead(path, "", '/');
    } else {
      SplitHead(path[..i], path[i + 1..], '/');
      assert path == path[..i] + "/" + path[i + 1..];
    }
  }

  lemma CutOfJoin(dir: string, rest: string)
    requires '/' !in dir
    ensures Cut(dir + "/" + rest) == Some((dir, rest))
  {
    var path := dir + "/" + rest;
    assert path[|dir|] == '/';
    assert forall k :: 0 <= k < |dir| ==> path[k] == dir[k] && dir[k] in dir;
    assert path[..|dir|] == dir && path[|dir| + 1..] == rest;
  }

  // writeTree.

  ghost function Here(blobs: Blobs): (here: Blobs)
  {
    map path | path in blobs && Cut(path).None? :: blobs[path]
  }

  ghost function Tops(blobs: Blobs): set<string> {
    set path | path in blobs && Cut(path).Some? :: Cut(path).value.0
  }

  /** The notes under a directory, by the rest of their paths. */
  ghost predicate IsUnder(blobs: Blobs, dir: string, sub: Blobs) {
    && (forall path :: path in blobs && Cut(path).Some? && Cut(path).value.0 == dir ==>
          Cut(path).value.1 in sub && sub[Cut(path).value.1] == blobs[path])
    && (forall rest :: rest in sub ==> '/' !in dir && dir + "/" + rest in blobs && sub[rest] == blobs[dir + "/" + rest])
  }

  /** A tree holds the notes with no slash in their paths, and a tree for each
      first segment of the others. */
  ghost predicate IsTreeOf(t: Tree, blobs: Blobs) {
    && t.files == Here(blobs) && t.dirs.Keys == Tops(blobs)
    && forall d :: d in t.dirs ==> exists sub :: IsUnder(blobs, d, sub) && IsTreeOf(t.dirs[d], sub)
  }

  ghost predicate ShorterThan(blobs: Blobs, n: nat) {
    forall path :: path in blobs ==> |path| < n
  }

  /** What is kept of the notes under a directory, once some paths are placed. */
  ghost predicate HoldsUnder(blobs: Blobs, dir: string, sub: Blobs, done: set<string>) {
    && (exists path :: path in done && path in blobs && Cut(path).Some? && Cut(path).value.0 == dir)
    && (forall path :: path in done && path in blobs && Cut(path).Some? && Cut(path).value.0 == dir ==>
          Cut(path).value.1 in sub && sub[Cut(path).value.1] == blobs[path])
    && (forall rest :: rest in sub ==> '/' !in dir && dir + "/" + rest in blobs && sub[rest] == blobs[dir + "/" + rest])
  }

  ghost predicate AllUnder(blobs: Blobs, under: map<string, Blobs>, done: set<string>) {
    && (forall p :: p in done && p in blobs && Cut(p).Some? ==> Cut(p).value.0 in under)
    && (forall d :: d in under ==> HoldsUnder(blobs, d, under[d], done))
  }

  ghost predicate AllHere(blobs: Blobs, here: Blobs, done: set<string>) {
    && (forall p :: p in here <==> p in done && p in blobs && Cut(p).None?)
    && (forall p :: p in here ==> here[p] == blobs[p])
  }

  /** Sorts notes into those here and those under each directory. */
  method Place(blobs: Blobs) returns (here: Blobs, under: map<string, Blobs>)
    ensures here == Here(blobs) && AllUnder(blobs, under, blobs.Keys)
  {
    hide Cut, AllUnder, AllHere;
    here := map[];
    under := map[];
    var todo := blobs.Keys;
    NothingPlaced(blobs);
    assert blobs.Keys - todo == {};
    while todo != {}
      invariant todo <= blobs.Keys
      invariant AllHere(blobs, here, blobs.Keys - todo) && AllUnder(blobs, under, blobs.Keys - todo)
    {
      var path :| path in todo;
      ghost var done := blobs.Keys - todo;
      OnePlaced(blobs, here, under, path, done);
      match Cut(path) {
        case None =>
          here := here[path := blobs[path]];
        case Some((dir, rest)) =>
          var sub := if dir in under then under[dir] else map[];
          under := under[dir := sub[rest := blobs[path]]];
      }
      assert done + {path} == blobs.Keys - (todo - {path});
      todo := todo - {path};
    }
    assert blobs.Keys - todo == blobs.Keys;
    AllAreHere(blobs, here);
  }

  lemma NothingPlaced(blobs: Blobs)
    ensures AllHere(blobs, map[], {}) && AllUnder(blobs, map[], {})
  {
  }

  lemma AllAreHere(blobs: Blobs, here: Blobs)
    requires AllHere(blobs, here, blobs.Keys)
    ensures here == Here(blobs)
  {
    hide Cut;
  }

  lemma OnePlaced(blobs: Blobs, here: Blobs, under: map<string, Blobs>, path: string, done: set<string>)
    requires path in blobs && AllHere(blobs, here, done) && AllUnder(blobs, under, done)
    ensures Cut(path).None? ==> AllHere(blobs, here[path := blobs[path]], done + {path}) && AllUnder(blobs, under, done + {path})
    ensures Cut(path).Some? ==>
              var (dir, rest) := Cut(path).value;
              var sub := if dir in under then under[dir] else map[];
              AllHere(blobs, here, done + {path}) && AllUnder(blobs, under[dir := sub[rest := blobs[path]]], done + {path})
  {
    hide Cut, AllUnder;
    if Cut(path).Some? {
      OneMoreUnder(blobs, under, path, done);
    } else {
      NoneMoreUnder(blobs, under, path, done);
    }
  }

  lemma NoneMoreUnder(blobs: Blobs, under: map<string, Blobs>, path: string, done: set<string>)
    requires Cut(path).None? && AllUnder(blobs, under, done)
    ensures AllUnder(blobs, under, done + {path})
  {
    hide Cut, HoldsUnder;
    forall d | d in under ensures HoldsUnder(blobs, d, under[d], done + {path}) {
      HoldsStill(blobs, d, under[d], path, done);
    }
  }

  lemma HoldsStill(blobs: Blobs, d: string, sub: Blobs, path: string, done: set<string>)
    requires HoldsUnder(blobs, d, sub, done) && (Cut(path).Some? ==> Cut(path).value.0 != d)
    ensures HoldsUnder(blobs, d, sub, done + {path})
  {
    hide Cut;
  }

  ghost predicate HoldsNone(blobs: Blobs, sub: Blobs, dir: string, done: set<string>) {
    sub == map[] && forall p :: p in done && p in blobs && Cut(p).Some? ==> Cut(p).value.0 != dir
  }

  lemma HoldsOneMore(blobs: Blobs, sub: Blobs, path: string, done: set<string>)
    requires path in blobs && Cut(path).Some? && (HoldsNone(blobs, sub, Cut(path).value.0, done) || HoldsUnder(blobs, Cut(path).value.0, sub, done))
    ensures HoldsUnder(blobs, Cut(path).value.0, sub[Cut(path).value.1 := blobs[path]], done + {path})
  {
    hide Cut;
    CutSegments(path);
    var (dir, rest) := Cut(path).value;
    var now := sub[rest := blobs[path]];
    forall p | p in done + {path} && p in blobs && Cut(p).Some? && Cut(p).value.0 == dir
      ensures Cut(p).value.1 in now && now[Cut(p).value.1] == blobs[p]
    {
      CutSegments(p);
    }
  }

  lemma OneMoreUnder(blobs: Blobs, under: map<string, Blobs>, path: string, done: set<string>)
    requires path in blobs && Cut(path).Some? && AllUnder(blobs, under, done)
    ensures var (dir, rest) := Cut(path).value;
            var sub := if dir in under then under[dir] else map[];
            AllUnder(blobs, under[dir := sub[rest := blobs[path]]], done + {path})
  {
    hide Cut, HoldsUnder;
    var (dir, rest) := Cut(path).value;
    var sub := if dir in under then under[dir] else map[];
    HoldsOneMore(blobs, sub, path, done);
    forall d | d in under && d != dir ensures HoldsUnder(blobs, d, under[d], done + {path}) {
      HoldsStill(blobs, d, under[d], path, done);
    }
  }

  lemma OneUnderIs(blobs: Blobs, dir: string, sub: Blobs, n: nat)
    requires HoldsUnder(blobs, dir, sub, blobs.Keys) && ShorterThan(blobs, n)
    ensures IsUnder(blobs, dir, sub) && dir in Tops(blobs) && n > 0 && ShorterThan(sub, n - 1)
  {
    hide Cut;
    forall rest | rest in sub ensures |rest| < n - 1 {
      assert |dir + "/" + rest| < n;
    }
  }

  lemma UnderIs(blobs: Blobs, under: map<string, Blobs>, n: nat)
    requires AllUnder(blobs, under, blobs.Keys) && ShorterThan(blobs, n)
    ensures under.Keys == Tops(blobs)
    ensures forall d :: d in under ==> IsUnder(blobs, d, under[d]) && n > 0 && ShorterThan(under[d], n - 1)
  {
    hide Cut, HoldsUnder, IsUnder, ShorterThan;
    forall d | d in under ensures IsUnder(blobs, d, under[d]) && d in Tops(blobs) && n > 0 && ShorterThan(under[d], n - 1) {
      OneUnderIs(blobs, d, under[d], n);
    }
  }

  lemma TreeIs(blobs: Blobs, under: map<string, Blobs>, dirs: map<string, Tree>)
    requires dirs.Keys == under.Keys == Tops(blobs)
    requires forall d :: d in under ==> IsUnder(blobs, d, under[d]) && IsTreeOf(dirs[d], under[d])
    ensures IsTreeOf(Tree(Here(blobs), dirs), blobs)
  {
    hide IsUnder, Here, Tops;
  }

  method WriteTree(blobs: Blobs, ghost n: nat) returns (t: Tree)
    requires ShorterThan(blobs, n)
    ensures IsTreeOf(t, blobs)
    decreases n
  {
    hide Cut, AllUnder, Here, Tops, IsUnder, ShorterThan, IsTreeOf;
    var here, under := Place(blobs);
    UnderIs(blobs, under, n);
    var dirs: map<string, Tree> := map[];
    var left := under.Keys;
    while left != {}
      invariant left <= under.Keys && dirs.Keys == under.Keys - left
      invariant forall d :: d in dirs ==> IsTreeOf(dirs[d], under[d])
    {
      var name :| name in left;
      var sub := WriteTree(under[name], n - 1);
      dirs := dirs[name := sub];
      left := left - {name};
    }
    TreeIs(blobs, under, dirs);
    t := Tree(here, dirs);
  }
}
