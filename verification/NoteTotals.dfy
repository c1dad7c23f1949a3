/** What an evidence tree holds, read off its flat paths: the entries of each
    tree, how deep it goes, and its notes' sizes. */
module NoteTotals {
  import opened Wrappers
  import opened Sums
  import opened NoteTree
  import opened NoteBounds

  /** The entries of the tree at a path are the next segments of the paths
      through it, a note where one ends and a tree where one goes on. */
  lemma {:induction false} EntriesAtTree(t: Tree, blobs: Blobs, p: Path, n: string)
    requires IsTreeOf(t, blobs) && p in TreeDirs(t)
    ensures Entry(n, false) in EntriesOf(TreeAt(t, p)) <==> Ends(blobs, p + [n])
    ensures Entry(n, true) in EntriesOf(TreeAt(t, p)) <==> Goes(blobs, p + [n])
    decreases |p|
  {
    hide Cut, Segments, IsUnder, TreeDirs, Dirs;
    if p == [] {
      EntriesAtTop(t, blobs, n);
      assert p + [n] == [n];
    } else {
      DirsFirst(t, p);
      var d, q := p[0], p[1..];
      var sub :| IsUnder(blobs, d, sub) && IsTreeOf(t.dirs[d], sub);
      EntriesAtTree(t.dirs[d], sub, q, n);
      assert p + [n] == [d] + (q + [n]);
      UnderEnds(blobs, d, sub, q + [n]);
      UnderDirs(blobs, d, sub, q + [n]);
      GoesDirs(blobs, p + [n]);
      GoesDirs(sub, q + [n]);
    }
  }

  lemma EntriesAtTop(t: Tree, blobs: Blobs, n: string)
    requires IsTreeOf(t, blobs)
    ensures n in t.files <==> Ends(blobs, [n])
    ensures n in t.dirs <==> Goes(blobs, [n])
  {
    hide Cut, Segments, IsUnder;
    forall path | path in blobs && [n] <= Segments(path)
      ensures if |Segments(path)| == 1 then path == n && path in Here(blobs) else n in Tops(blobs)
    {
      assert Segments(path)[0] == [n][0] == n;
      CutSegments(path);
    }
    if n in t.files {
      CutSegments(n);
      assert [n] == Segments(n);
    }
    if n in t.dirs {
      var path :| path in blobs && Cut(path).Some? && Cut(path).value.0 == n;
      CutSegments(path);
      assert [n] < Segments(path);
    }
  }

  ghost predicate DeepAtMost(blobs: Blobs, n: nat) {
    forall path :: path in blobs ==> |Segments(path)| <= n
  }

  lemma {:induction false} DepthIs(t: Tree, blobs: Blobs, n: nat)
    requires IsTreeOf(t, blobs) && blobs != map[]
    ensures DepthFits(t, n) <==> DeepAtMost(blobs, n)
    decreases t
  {
    hide Cut, Segments, IsUnder, Here;
    if n == 0 {
      var path :| path in blobs;
      assert |Segments(path)| > 0;
    } else {
      forall d | d in t.dirs ensures DepthFits(t.dirs[d], n - 1) <==> DeepUnder(blobs, d, n) {
        var sub :| IsUnder(blobs, d, sub) && IsTreeOf(t.dirs[d], sub);
        UnderNotEmpty(blobs, d, sub);
        DepthIs(t.dirs[d], sub, n - 1);
        UnderDeep(blobs, d, sub, n);
      }
      DeepEverywhere(blobs, n);
    }
  }

  ghost predicate DeepUnder(blobs: Blobs, d: string, n: nat) {
    forall path :: path in blobs && |Segments(path)| > 1 && Segments(path)[0] == d ==> |Segments(path)| <= n
  }

  lemma UnderDeep(blobs: Blobs, d: string, sub: Blobs, n: nat)
    requires IsUnder(blobs, d, sub) && d in Tops(blobs) && n > 0
    ensures DeepAtMost(sub, n - 1) <==> DeepUnder(blobs, d, n)
  {
    hide Segments, IsUnder;
    UnderSegments(blobs, d, sub);
    if DeepUnder(blobs, d, n) {
      forall rest | rest in sub ensures |Segments(rest)| <= n - 1 {
        var path := d + "/" + rest;
        assert path in blobs && Segments(path) == [d] + Segments(rest);
      }
    }
  }

  lemma DeepEverywhere(blobs: Blobs, n: nat)
    requires n > 0
    ensures DeepAtMost(blobs, n) <==> forall d :: d in Tops(blobs) ==> DeepUnder(blobs, d, n)
  {
    hide Segments, Cut;
    forall path | path in blobs && |Segments(path)| > 1 ensures Segments(path)[0] in Tops(blobs) {
      CutSegments(path);
    }
  }

  // Sizes.

  ghost predicate SmallNotes(blobs: Blobs, sizes: Sizes) {
    forall path :: path in blobs ==> SizeOf(sizes, blobs[path]) <= NOTE_BYTES
  }

  lemma {:induction false} SmallIs(t: Tree, blobs: Blobs, sizes: Sizes)
    requires IsTreeOf(t, blobs)
    ensures AllTrees(t, HoldsSmall(sizes)) <==> SmallNotes(blobs, sizes)
    decreases t
  {
    hide Cut, Segments;
    forall d | d in t.dirs
      ensures AllTrees(t.dirs[d], HoldsSmall(sizes)) <==>
              forall path :: path in blobs && Cut(path).Some? && Cut(path).value.0 == d ==> SizeOf(sizes, blobs[path]) <= NOTE_BYTES
    {
      var sub :| IsUnder(blobs, d, sub) && IsTreeOf(t.dirs[d], sub);
      SmallIs(t.dirs[d], sub, sizes);
      UnderSmall(blobs, d, sub, sizes);
    }
    HereSmall(t, blobs, sizes);
  }

  lemma HereSmall(t: Tree, blobs: Blobs, sizes: Sizes)
    requires t.files == Here(blobs) && t.dirs.Keys == Tops(blobs)
    ensures SmallNotes(blobs, sizes) <==>
            && HoldsSmall(sizes)(t)
            && forall d :: d in t.dirs ==>
                 forall path :: path in blobs && Cut(path).Some? && Cut(path).value.0 == d ==> SizeOf(sizes, blobs[path]) <= NOTE_BYTES
  {
    hide Cut;
    forall path | path in blobs ensures if Cut(path).None? then path in t.files && t.files[path] == blobs[path] else Cut(path).value.0 in t.dirs {}
  }

  lemma UnderSmall(blobs: Blobs, d: string, sub: Blobs, sizes: Sizes)
    requires IsUnder(blobs, d, sub)
    ensures SmallNotes(sub, sizes) <==>
            forall path :: path in blobs && Cut(path).Some? && Cut(path).value.0 == d ==> SizeOf(sizes, blobs[path]) <= NOTE_BYTES
  {
    hide Cut;
    forall rest | rest in sub ensures Cut(d + "/" + rest) == Some((d, rest)) { CutOfJoin(d, rest); }
    if forall path :: path in blobs && Cut(path).Some? && Cut(path).value.0 == d ==> SizeOf(sizes, blobs[path]) <= NOTE_BYTES {
      forall rest | rest in sub ensures SizeOf(sizes, sub[rest]) <= NOTE_BYTES {
        assert d + "/" + rest in blobs;
      }
    }
  }

  ghost function WithDir(d: string): string -> string {
    (rest: string) => d + "/" + rest
  }

  ghost function KeysUnder(blobs: Blobs): string -> set<string> {
    (d: string) => set path | path in blobs && Cut(path).Some? && Cut(path).value.0 == d
  }

  lemma KeysAreParts(blobs: Blobs)
    ensures blobs.Keys == Here(blobs).Keys + All(Tops(blobs), KeysUnder(blobs))
    ensures Here(blobs).Keys !! All(Tops(blobs), KeysUnder(blobs)) && Apart(Tops(blobs), KeysUnder(blobs))
  {
    hide Cut;
    forall path | path in blobs && Cut(path).Some? ensures path in All(Tops(blobs), KeysUnder(blobs)) {
      assert Cut(path).value.0 in Tops(blobs) && path in KeysUnder(blobs)(Cut(path).value.0);
    }
  }

  lemma UnderKeys(blobs: Blobs, d: string, sub: Blobs)
    requires IsUnder(blobs, d, sub)
    ensures KeysUnder(blobs)(d) == Image(sub.Keys, WithDir(d)) && Injective(sub.Keys, WithDir(d))
  {
    hide Cut;
    forall path | path in KeysUnder(blobs)(d) ensures path in Image(sub.Keys, WithDir(d)) {
      CutSegments(path);
      assert WithDir(d)(Cut(path).value.1) == path;
    }
    forall path | path in Image(sub.Keys, WithDir(d)) ensures path in KeysUnder(blobs)(d) {
      var rest :| rest in sub.Keys && WithDir(d)(rest) == path;
      CutOfJoin(d, rest);
    }
    forall x, y | x in sub.Keys && y in sub.Keys && WithDir(d)(x) == WithDir(d)(y) ensures x == y {
      assert x == (d + "/" + x)[|d| + 1..] && y == (d + "/" + y)[|d| + 1..];
    }
  }

  lemma UnderTotal(blobs: Blobs, d: string, sub: Blobs, sizes: Sizes)
    requires IsUnder(blobs, d, sub)
    ensures Sum(KeysUnder(blobs)(d), NoteSizes(blobs, sizes)) == Sum(sub.Keys, NoteSizes(sub, sizes))
  {
    hide Cut, Sum, Image, Injective, KeysUnder;
    UnderKeys(blobs, d, sub);
    SumImage(sub.Keys, WithDir(d), NoteSizes(blobs, sizes));
    forall rest | rest in sub.Keys ensures Named(WithDir(d), NoteSizes(blobs, sizes))(rest) == NoteSizes(sub, sizes)(rest) {
      assert d + "/" + rest in blobs;
    }
    SumSame(sub.Keys, Named(WithDir(d), NoteSizes(blobs, sizes)), NoteSizes(sub, sizes));
  }

  /** Counting a tree's notes, tree by tree, gives the sum over the flat paths. */
  lemma {:induction false} NotesTotal(t: Tree, blobs: Blobs, sizes: Sizes)
    requires IsTreeOf(t, blobs)
    ensures Total(t, OwnNotes(sizes)) == Sum(blobs.Keys, NoteSizes(blobs, sizes))
    decreases t
  {
    hide Cut, Sum, All, Apart, Here, Tops, IsUnder, KeysUnder;
    KeysAreParts(blobs);
    var g := NoteSizes(blobs, sizes);
    SumBoth(Here(blobs).Keys, All(Tops(blobs), KeysUnder(blobs)), g);
    SumParts(Tops(blobs), KeysUnder(blobs), g);
    HereIs(blobs);
    SumSame(t.files.Keys, g, NoteSizes(t.files, sizes));
    forall d | d in t.dirs ensures PartSum(KeysUnder(blobs), g)(d) == TotalBelow(t, OwnNotes(sizes))(d) {
      var sub :| IsUnder(blobs, d, sub) && IsTreeOf(t.dirs[d], sub);
      NotesTotal(t.dirs[d], sub, sizes);
      UnderTotal(blobs, d, sub, sizes);
    }
    SumSame(t.dirs.Keys, PartSum(KeysUnder(blobs), g), TotalBelow(t, OwnNotes(sizes)));
  }

  lemma HereIs(blobs: Blobs)
    ensures forall path :: path in Here(blobs) ==> path in blobs && Here(blobs)[path] == blobs[path]
  {
  }
}
