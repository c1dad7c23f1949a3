/** Reading a listing into a graph's index (knot/graph.go, layout). */
module KnotIndex {
  import opened Wrappers
  import opened Strings
  import opened KnotLayout

  /** What the first loop has made of the entries read so far. */
  ghost predicate ReadSoFar(entries: seq<Entry>, idx: Index, seen: set<string>, children: set<string>, dirs: set<string>) {
    && seen == (set e | e in entries :: e.path)
    && (forall i, j :: 0 <= i < j < |entries| ==> entries[i].path != entries[j].path)
    && children == (set e | e in entries :: DirOf(e.path))
    && dirs == (set e | e in entries && e.mode == MODE_DIRECTORY :: e.path)
    && (forall e :: e in entries ==> EntryFits(e))
    && idx.Valid()
    && idx.Describes(entries)
  }

  /** A valid index never holds one ID at two paths. */
  lemma OneIdOnePath(idx: Index, p: string, q: string)
    requires idx.Valid() && p in idx.knotAt && q in idx.knotAt
    requires FileOf(p, "").id == FileOf(q, "").id
    ensures p == q
  {
    hide IsFilePath, FileOf, IsKnotPath, IsLocalID;
    FileAtPath(p, ""); FileAtPath(q, "");
    FileAtPath(p, idx.files[p]); FileAtPath(q, idx.files[q]);
    assert idx.HoldsKnot(p) && idx.HoldsKnot(q);
    assert idx.knotAt[p] == idx.knotAt[q];
  }

  lemma KnotPathsOf(idx: Index, entries: seq<Entry>)
    requires idx.Valid() && idx.Describes(entries)
    ensures idx.knotAt.Keys == KnotPaths(entries)
    ensures idx.comments.Keys == FilePaths(entries) - KnotPaths(entries)
  {
    hide IsFilePath, IsKnotPath;
  }

  /** An index read without a refusal has no ID twice. */
  lemma UniqueIds(idx: Index, entries: seq<Entry>)
    requires idx.Valid() && idx.Describes(entries)
    ensures forall p, q :: p in KnotPaths(entries) && q in KnotPaths(entries) && FileOf(p, "").id == FileOf(q, "").id ==> p == q
  {
    hide IsFilePath, FileOf, IsKnotPath;
    KnotPathsOf(idx, entries);
    forall p, q | p in KnotPaths(entries) && q in KnotPaths(entries) && FileOf(p, "").id == FileOf(q, "").id
      ensures p == q
    {
      OneIdOnePath(idx, p, q);
    }
  }

  /** The index after one more file: a knot is kept under its ID and at its
      path, and a comment at its path. */
  function AddFile(idx: Index, f: File): Index {
    var next := idx.(files := idx.files[f.path := f.oid]);
    if f.KnotFile? then next.(knots := idx.knots[f.id := f], knotAt := idx.knotAt[f.path := f.id])
    else next.(comments := idx.comments[f.path := f])
  }

  lemma Describing(idx: Index, entries: seq<Entry>, e: Entry)
    requires idx.Describes(entries) && e.path !in (set x | x in entries :: x.path)
    ensures e.mode == MODE_DIRECTORY ==> idx.Describes(entries + [e])
    ensures e.mode != MODE_DIRECTORY ==>
              forall f: File :: f.path == e.path && f.oid == e.oid ==> AddFile(idx, f).Describes(entries + [e])
  {
    var es := entries + [e];
    assert e.path !in FilePaths(entries);
    if e.mode == MODE_DIRECTORY {
      assert FilePaths(es) == FilePaths(entries);
    } else {
      assert FilePaths(es) == FilePaths(entries) + {e.path} by {
        assert e in es;
        forall x | x in entries ensures x in es {}
      }
    }
  }

  /** One more directory, or one more file under an ID not used yet, is read. */
  lemma ReadOne(entries: seq<Entry>, e: Entry, idx: Index, next: Index, seen: set<string>, children: set<string>, dirs: set<string>)
    requires ReadSoFar(entries, idx, seen, children, dirs)
    requires e.path !in seen && EntryFits(e)
    requires e.mode == MODE_DIRECTORY ==> next == idx
    requires e.mode != MODE_DIRECTORY ==> next == AddFile(idx, FileOf(e.path, e.oid))
    requires e.mode != MODE_DIRECTORY && IsKnotPath(e.path) ==> FileOf(e.path, e.oid).id !in idx.knots
    ensures ReadSoFar(entries + [e], next, seen + {e.path}, children + {DirOf(e.path)},
                      if e.mode == MODE_DIRECTORY then dirs + {e.path} else dirs)
  {
    hide IsFilePath, FileOf, IsKnotPath, DirOf, LayoutDir;
    Describing(idx, entries, e);
    assert next.Valid() by {
      if e.mode != MODE_DIRECTORY {
        var f := FileOf(e.path, e.oid);
        FileAtPath(e.path, e.oid);
        assert e.path !in idx.files by {
          assert idx.files.Keys <= seen;
        }
        if IsKnotPath(e.path) { KeepsValidKnot(idx, next, e.path, e.oid, f); }
        else { KeepsValidComment(idx, next, e.path, e.oid, f); }
      }
    }
    assert next.Describes(entries + [e]) by {
      if e.mode != MODE_DIRECTORY { FileAtPath(e.path, e.oid); }
    }
    ReadOneSets(entries, e, seen, children, dirs);
  }

  lemma ReadOneSets(entries: seq<Entry>, e: Entry, seen: set<string>, children: set<string>, dirs: set<string>)
    requires seen == (set x | x in entries :: x.path)
    requires children == (set x | x in entries :: DirOf(x.path))
    requires dirs == (set x | x in entries && x.mode == MODE_DIRECTORY :: x.path)
    ensures seen + {e.path} == (set x | x in entries + [e] :: x.path)
    ensures children + {DirOf(e.path)} == (set x | x in entries + [e] :: DirOf(x.path))
    ensures (if e.mode == MODE_DIRECTORY then dirs + {e.path} else dirs) ==
            (set x | x in entries + [e] && x.mode == MODE_DIRECTORY :: x.path)
  {
    hide DirOf;
    assert forall x :: x in entries + [e] <==> x in entries || x == e;
  }

  /** An ID used twice is in no graph's listing. */
  lemma IdTwice(entries: seq<Entry>, n: nat, idx: Index)
    requires n < |entries| && idx.Valid() && idx.Describes(entries[..n])
    requires entries[n].path !in idx.files
    requires entries[n].mode != MODE_DIRECTORY && IsFilePath(entries[n].path) && IsKnotPath(entries[n].path)
    requires FileOf(entries[n].path, entries[n].oid).id in idx.knots
    ensures !IsLaidOut(entries)
  {
    hide IsFilePath, FileOf, IsKnotPath, EntryFits, DirOf;
    var q := entries[n].path;
    var id := FileOf(q, entries[n].oid).id;
    var p := idx.knots[id].path;
    assert idx.KnotPlaced(id) && idx.HoldsKnot(p);
    FileAtPath(p, idx.files[p]);
    FileAtPath(q, entries[n].oid);
    KnotPathsOf(idx, entries[..n]);
    assert p in FilePaths(entries) && q in FilePaths(entries) by {
      var e :| e in entries[..n] && e.mode != MODE_DIRECTORY && e.path == p;
      assert e in entries && entries[n] in entries;
    }
    assert p in KnotPaths(entries) && q in KnotPaths(entries);
  }

  /** A path named twice is in no graph's listing. */
  lemma PathTwice(entries: seq<Entry>, n: nat, idx: Index, seen: set<string>, children: set<string>, dirs: set<string>)
    requires n < |entries| && ReadSoFar(entries[..n], idx, seen, children, dirs) && entries[n].path in seen
    ensures !IsLaidOut(entries)
  {
    hide EntryFits, DirOf, Through, Index.Valid, Index.Describes, KnotPaths, FilePaths;
    var e :| e in entries[..n] && e.path == entries[n].path;
    var i :| 0 <= i < n && entries[..n][i] == e;
    assert entries[i].path == entries[n].path;
  }

  /** Nor is an entry the layout does not allow. */
  lemma NotAllowed(entries: seq<Entry>, n: nat)
    requires n < |entries| && !EntryFits(entries[n])
    ensures !IsLaidOut(entries)
  {
    hide EntryFits, DirOf, Through, KnotPaths, FilePaths;
    assert entries[n] in entries;
  }

  lemma NothingRead()
    ensures ReadSoFar([], Index(map[], map[], map[], map[]), {}, {}, {})
  {
    hide EntryFits, DirOf;
  }

  lemma ReadIsUnseen(entries: seq<Entry>, idx: Index, seen: set<string>, children: set<string>, dirs: set<string>, path: string)
    requires ReadSoFar(entries, idx, seen, children, dirs) && path !in seen
    ensures idx.Valid() && idx.Describes(entries) && path !in idx.files
  {
    hide EntryFits, DirOf, Index.Valid;
  }

  /** Reads every entry into the index, and refuses a path named twice, an
      entry the layout does not allow, and an ID used twice. */
  method ReadEntries(entries: seq<Entry>)
    returns (r: Result<Index, Refusal>, children: set<string>, dirs: set<string>)
    ensures r.Err? ==> !IsLaidOut(entries)
    ensures r.Ok? ==> exists seen :: ReadSoFar(entries, r.value, seen, children, dirs)
  {
    hide LayoutDir, LayoutFile, Split, Join, DirOf, IsLocalID, Through, ReadSoFar, IsGraphListing, IsLaidOut, Index.Valid, Index.Describes;
    var idx := Index(map[], map[], map[], map[]);
    var seen: set<string> := {};
    children, dirs := {}, {};
    NothingRead();
    assert entries[..0] == [];
    for n := 0 to |entries|
      invariant ReadSoFar(entries[..n], idx, seen, children, dirs)
    {
      var e := entries[n];
      assert entries[..n + 1] == entries[..n] + [e];
      if e.path in seen {
        PathTwice(entries, n, idx, seen, children, dirs);
        return Err(Refusal(RuleLayout, e.path)), children, dirs;
      }
      ghost var before := (idx, seen, children, dirs);
      ReadIsUnseen(entries[..n], idx, seen, children, dirs, e.path);
      seen := seen + {e.path};
      children := children + {DirOf(e.path)};
      if e.mode == MODE_DIRECTORY {
        dirs := dirs + {e.path};
        var bad := LayoutDir(Split(e.path, '/'));
        if bad.Some? {
          NotAllowed(entries, n);
          return Err(bad.value), children, dirs;
        }
        ReadOne(entries[..n], e, before.0, idx, before.1, before.2, before.3);
        continue;
      }
      if e.mode != MODE_FILE {
        NotAllowed(entries, n);
        return Err(Refusal(RuleLayout, e.path)), children, dirs;
      }
      var at := FileAt(e.path);
      if at.Err? {
        NotAllowed(entries, n);
        return Err(at.error), children, dirs;
      }
      var f := at.value.(oid := e.oid);
      FileAtPath(e.path, e.oid);
      if f.KnotFile? && f.id in idx.knots {
        IdTwice(entries, n, idx);
        return Err(Refusal(RuleUniqueID, e.path)), children, dirs;
      }
      idx := AddFile(idx, f);
      ReadOne(entries[..n], e, before.0, idx, before.1, before.2, before.3);
    }
    assert entries[..|entries|] == entries;
    r := Ok(idx);
  }

  /** The first entry that passes through a directory the listing does not
      hold, if any does. */
  method FindUnlisted(entries: seq<Entry>, dirs: set<string>) returns (bad: Option<string>)
    requires forall d :: d in dirs <==> IsDir(entries, d)
    ensures bad.None? <==> forall e, d :: e in entries && Through(e.path, d) ==> IsDir(entries, d)
  {
    hide EntryFits, Split, Join, IsDir;
    for n := 0 to |entries|
      invariant forall k, d :: 0 <= k < n && Through(entries[k].path, d) ==> IsDir(entries, d)
    {
      var parts := Split(entries[n].path, '/');
      for i := 1 to |parts|
        invariant forall k :: 1 <= k < i ==> IsDir(entries, Join(parts[..k], '/'))
      {
        var d := Join(parts[..i], '/');
        if d !in dirs {
          assert entries[n] in entries && Through(entries[n].path, d);
          return Some(entries[n].path);
        }
      }
    }
    bad := None;
  }

  ghost predicate NoDirEmpty(entries: seq<Entry>) {
    forall e :: e in entries && e.mode == MODE_DIRECTORY ==> exists c :: c in entries && DirOf(c.path) == e.path
  }

  lemma DirsAndChildren(entries: seq<Entry>, idx: Index, seen: set<string>, children: set<string>, dirs: set<string>)
    requires ReadSoFar(entries, idx, seen, children, dirs)
    ensures forall d :: d in dirs <==> IsDir(entries, d)
    ensures NoDirEmpty(entries) <==> dirs <= children
  {
    hide EntryFits, DirOf, Index.Valid, Index.Describes;
    assert forall e :: e in entries && e.mode == MODE_DIRECTORY ==> e.path in dirs;
    assert forall d :: d in children ==> exists c :: c in entries && DirOf(c.path) == d;
  }

  /** What is left to ask of a listing whose entries all read. */
  lemma WhatIsLeft(entries: seq<Entry>, idx: Index, seen: set<string>, children: set<string>, dirs: set<string>)
    requires ReadSoFar(entries, idx, seen, children, dirs)
    ensures IsLaidOut(entries) <==> dirs <= children && (forall e, d :: e in entries && Through(e.path, d) ==> IsDir(entries, d))
    ensures IsGraphListing(entries) <==> IsLaidOut(entries) && |idx.knots| <= MAX_KNOTS && |idx.comments| <= MAX_COMMENTS
    ensures forall d :: d in dirs <==> IsDir(entries, d)
  {
    hide EntryFits, DirOf, Through, IsFilePath, IsKnotPath, FileOf, Index.Valid, Index.Describes, KnotPaths, FilePaths, IsDir;
    UniqueIds(idx, entries);
    Counts(idx, entries);
    DirsAndChildren(entries, idx, seen, children, dirs);
    assert (forall e :: e in entries && e.mode == MODE_DIRECTORY ==> exists c :: c in entries && DirOf(c.path) == e.path)
      <==> NoDirEmpty(entries);
  }

  method Layout(entries: seq<Entry>) returns (r: Result<Index, Refusal>)
    ensures r.Ok? <==> IsGraphListing(entries)
    ensures IsLaidOut(entries) && !IsGraphListing(entries) ==> r == Err(Refusal(RuleLimit, ""))
    ensures r.Ok? ==> r.value.Valid() && r.value.Describes(entries)
  {
    hide IsLaidOut, KnotPaths, FilePaths, EntryFits, DirOf, Through, IsFilePath, IsKnotPath, FileOf, Index.Valid;
    var children, dirs;
    r, children, dirs := ReadEntries(entries);
    if r.Err? { return; }
    var idx := r.value;
    ghost var seen :| ReadSoFar(entries, idx, seen, children, dirs);
    WhatIsLeft(entries, idx, seen, children, dirs);
    if d :| d in dirs && d !in children {
      return Err(Refusal(RuleLayout, d));
    }
    var bad := FindUnlisted(entries, dirs);
    if bad.Some? {
      return Err(Refusal(RuleLayout, bad.value));
    }
    if |idx.knots| > MAX_KNOTS || |idx.comments| > MAX_COMMENTS {
      return Err(Refusal(RuleLimit, ""));
    }
  }

  /** Taking one more knot, under an ID not used yet, keeps the index valid. */
  lemma KeepsValidKnot(before: Index, idx: Index, path: string, oid: string, f: File)
    requires before.Valid() && path !in before.files && IsFilePath(path)
    requires IsKnotPath(path) && f == FileOf(path, oid) && f.id !in before.knots
    requires idx == Index(before.knots[f.id := f], before.comments, before.files[path := oid], before.knotAt[path := f.id])
    ensures idx.Valid()
  {
    hide IsFilePath, FileOf, IsKnotPath, IsLocalID, FileAt;
    FileAtPath(path, oid);
    forall p | p in idx.knotAt ensures idx.HoldsKnot(p) {
      assert p != path ==> before.HoldsKnot(p);
    }
    forall id | id in idx.knots ensures idx.KnotPlaced(id) {
      assert id != f.id ==> before.KnotPlaced(id);
    }
  }

  /** Taking one more comment keeps the index valid. */
  lemma KeepsValidComment(before: Index, idx: Index, path: string, oid: string, f: File)
    requires before.Valid() && path !in before.files && IsFilePath(path)
    requires !IsKnotPath(path) && f == FileOf(path, oid)
    requires idx == Index(before.knots, before.comments[path := f], before.files[path := oid], before.knotAt)
    ensures idx.Valid()
  {
    hide IsFilePath, FileOf, IsKnotPath, IsLocalID, FileAt;
    forall p | p in idx.knotAt ensures idx.HoldsKnot(p) {
      assert before.HoldsKnot(p);
    }
    forall id | id in idx.knots ensures idx.KnotPlaced(id) {
      assert before.KnotPlaced(id);
    }
  }

  lemma {:induction false} SameSize<A, B>(a: set<A>, b: set<B>, f: map<A, B>)
    requires f.Keys == a && f.Values == b
    requires forall x, y :: x in a && y in a && f[x] == f[y] ==> x == y
    ensures |a| == |b|
  {
    if a != {} {
      var x :| x in a;
      var g := map y | y in f && y != x :: f[y];
      assert g.Keys == a - {x};
      assert forall y :: y in g ==> g[y] in b - {f[x]};
      forall v | v in b - {f[x]} ensures v in g.Values {
        var y :| y in f && f[y] == v;
        assert g[y] == v;
      }
      SameSize(a - {x}, b - {f[x]}, g);
    }
  }

  /** An index holds as many knots and comments as its listing. */
  lemma Counts(idx: Index, entries: seq<Entry>)
    requires idx.Valid() && idx.Describes(entries)
    ensures |idx.knots| == |KnotPaths(entries)|
    ensures |idx.comments| == |FilePaths(entries) - KnotPaths(entries)|
  {
    hide IsFilePath, FileOf, IsKnotPath;
    KnotPathsOf(idx, entries);
    var path := map id | id in idx.knots :: idx.knots[id].path;
    assert path.Keys == idx.knots.Keys;
    assert forall id :: id in idx.knots ==> idx.KnotPlaced(id);
    assert path.Values == KnotPaths(entries) by {
      forall p | p in KnotPaths(entries) ensures p in path.Values {
        assert idx.HoldsKnot(p);
        assert path[idx.knotAt[p]] == p;
      }
    }
    SameSize(path.Keys, path.Values, path);
  }
}
