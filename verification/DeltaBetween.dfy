/** What a delta between two trees is good for: its encoding reads back, and
    applying it to one tree gives the other (delta/delta.go, delta/tree.go). */
module DeltaBetween {
  import opened Strings
  import opened Decimal
  import opened DeltaCodec
  import opened TreeObjects
  import opened TreeStore
  import opened TreeDelta

  lemma {:induction false} HeldImageFits(r: Repo, rank: map<string, nat>, tree: string, root: bool, at: seq<string>)
    requires r.Valid() && r.Acyclic(rank) && r.Holdable(rank, tree, root)
    ensures ImageFits(r.ImageAt(tree, at))
    decreases |at|
  {
    hide NameFits, Less, TargetFits, Repo.Acyclic;
    if at != [] && Named(r.EntriesOf(tree).value, at[0]).Some? {
      var e := Named(r.EntriesOf(tree).value, at[0]).value;
      assert EntryFits(e, r.size);
      if e.IsTree() {
        HeldImageFits(r, rank, e.oid, false, at[1..]);
      } else {
        LeafImageFits(r, e);
      }
    }
  }

  lemma LeafImageFits(r: Repo, e: TreeEntry)
    requires r.Valid() && EntryFits(e, r.size) && !e.IsTree() && r.LeafHolds(e)
    ensures ImageFits(r.LeafImage(e))
  {
    hide ModeFits, NameFits;
    if e.mode == MODE_SYMLINK {
      assert r.objects[e.oid].content != "";
    }
  }

  lemma {:induction false} JoinHasNoNul(at: seq<string>)
    requires NamesFit(at)
    ensures '\0' !in Join(at, '/')
  {
    hide NameFits;
    if |at| > 1 {
      assert forall name :: name in at[1..] ==> name in at;
      JoinHasNoNul(at[1..]);
    }
  }

  lemma JoinNotEmpty(at: seq<string>)
    requires at != [] && forall i :: 0 <= i < |at| ==> at[i] != ""
    ensures Join(at, '/') != ""
  {
  }

  lemma PathOfNamesFits(at: seq<string>)
    requires at != [] && NamesFit(at)
    ensures PathFits(Join(at, '/')) && Split(Join(at, '/'), '/') == at
  {
    hide IsDotGit;
    JoinHasNoNul(at);
    assert forall i :: 0 <= i < |at| ==> at[i] in at;
    SplitJoin(at, '/');
    JoinNotEmpty(at);
  }

  lemma {:induction false} SplitBoth(a: string, b: string, sep: char)
    ensures Split(a + ([sep] + b), sep) == Split(a, sep) + Split(b, sep)
  {
    hide Split;
    var s := a + ([sep] + b);
    SplitStep(s, sep);
    SplitStep(a, sep);
    if a == "" {
      assert s[1..] == b;
      assert s[0] == sep;
    } else {
      SplitBoth(a[1..], b, sep);
      assert s[0] == a[0] && s[1..] == a[1..] + ([sep] + b);
      var rest, more := Split(a[1..], sep), Split(b, sep);
      assert (rest + more)[0] == rest[0] && (rest + more)[1..] == rest[1..] + more;
      Associative([""], rest, more);
      Associative([[a[0]] + rest[0]], rest[1..], more);
    }
  }

  lemma Associative<T>(a: seq<T>, b: seq<T>, c: seq<T>)
    ensures a + (b + c) == (a + b) + c
  {
  }

  lemma SplitStep(s: string, sep: char)
    ensures Split(s, sep) ==
            if s == "" then [""]
            else var rest := Split(s[1..], sep);
                 if s[0] == sep then [""] + rest else [[s[0]] + rest[0]] + rest[1..]
  {
  }

  /** A path below another is made of its names and more. */
  lemma UnderMeans(at: seq<string>, under: seq<string>)
    requires at != [] && NamesFit(at) && under != [] && NamesFit(under)
    requires Under(Join(under, '/'), Join(at, '/'))
    ensures exists more :: more != [] && under == at + more
  {
    hide NameFits, NamesFit;
    PathOfNamesFits(at);
    PathOfNamesFits(under);
    var p, q := Join(at, '/'), Join(under, '/');
    var rest := q[|p| + 1..];
    assert q == p + (['/'] + rest);
    SplitBoth(p, rest, '/');
    assert under == at + Split(rest, '/');
  }

  lemma SidesOfTwoTrees(r: Repo, pre: string, post: string, a: Change, b: Change, at: seq<string>, under: seq<string>)
    requires ChangeAt(r, pre, post, a, at) && ChangeAt(r, pre, post, b, under) && Under(b.path, a.path)
    ensures (a.pre.Absent() || b.pre.Absent()) && (a.post.Absent() || b.post.Absent())
  {
    hide NamesFit, Repo.ImageAt, Under;
    UnderMeans(at, under);
    var more :| more != [] && under == at + more;
    if r.ImageAt(pre, at) != ABSENT { NothingUnderALeaf(r, pre, at, more); }
    if r.ImageAt(post, at) != ABSENT { NothingUnderALeaf(r, post, at, more); }
  }

  /** A delta between two trees is well-formed exactly when its paths' lengths
      are written in at most ten digits. So its encoding reads back to it then,
      and never otherwise. */
  lemma BetweenIsWellFormed(r: Repo, rank: map<string, nat>, pre: string, post: string, d: Delta)
    requires r.Valid() && r.Acyclic(rank) && r.Holdable(rank, pre, true) && r.Holdable(rank, post, true)
    requires IsDelta(r, pre, post, d)
    ensures WellFormed(d) <==> forall c :: c in d ==> |c.path| < Pow10(MAX_LEN_DIGITS)
  {
    hide Repo.Acyclic, Repo.Holdable, Repo.Valid, Repo.ImageAt, NamesFit, PathFits, ImageFits, Less, Under, Pow10;
    forall c | c in d
      ensures PathFits(c.path) && ImageFits(c.pre) && ImageFits(c.post) && c.pre != c.post
    {
      var at :| ChangeAt(r, pre, post, c, at);
      PathOfNamesFits(at);
      HeldImageFits(r, rank, pre, true, at);
      HeldImageFits(r, rank, post, true, at);
    }
    forall i, j | 0 <= i < |d| && 0 <= j < |d| && Under(d[j].path, d[i].path)
      ensures (d[i].pre.Absent() || d[j].pre.Absent()) && (d[i].post.Absent() || d[j].post.Absent())
    {
      assert d[i] in d && d[j] in d;
      var at :| ChangeAt(r, pre, post, d[i], at);
      var under :| ChangeAt(r, pre, post, d[j], under);
      SidesOfTwoTrees(r, pre, post, d[i], d[j], at, under);
    }
  }

  // Applying a delta.

  /** What a tree, given as what it holds at each path, holds after a delta. */
  ghost function Apply(d: Delta, held: seq<string> -> Image, at: seq<string>): Image {
    if at != [] && exists c :: c in d && c.path == Join(at, '/') then
      var c :| c in d && c.path == Join(at, '/');
      c.post
    else held(at)
  }

  /** The delta the other way. */
  function Reverse(d: Delta): Delta {
    seq(|d|, i requires 0 <= i < |d| => Change(d[i].path, d[i].post, d[i].pre))
  }

  /** Applying the delta to the first tree gives the second, at every path a
      checkout could hold. */
  lemma ApplyGivesPost(r: Repo, pre: string, post: string, d: Delta, at: seq<string>)
    requires IsDelta(r, pre, post, d) && NamesFit(at)
    ensures Apply(d, p => r.ImageAt(pre, p), at) == r.ImageAt(post, at)
  {
    hide NamesFit, Less;
    assert Differ(r, pre, post, at) ==> at != [] && exists c :: c in d && c.path == Join(at, '/') by {
      if Differ(r, pre, post, at) {
        var c :| c in d && ChangeAt(r, pre, post, c, at);
        assert c.path == Join(at, '/');
      }
    }
    if at != [] && exists c :: c in d && c.path == Join(at, '/') {
      var c :| c in d && c.path == Join(at, '/') && Apply(d, p => r.ImageAt(pre, p), at) == c.post;
      var on :| ChangeAt(r, pre, post, c, on);
      PathIsOne(at, on);
    }
  }

  /** The delta the other way is the delta from the second tree to the first,
      so applying it undoes the delta. */
  lemma ReverseIsDelta(r: Repo, pre: string, post: string, d: Delta)
    requires IsDelta(r, pre, post, d)
    ensures IsDelta(r, post, pre, Reverse(d))
  {
    hide NamesFit, Less, Repo.ImageAt;
    var back := Reverse(d);
    forall c | c in back ensures exists at :: ChangeAt(r, post, pre, c, at) {
      var i :| 0 <= i < |back| && back[i] == c;
      assert d[i] in d;
      var at :| ChangeAt(r, pre, post, d[i], at);
      assert ChangeAt(r, post, pre, c, at);
    }
    forall at | Differ(r, post, pre, at) ensures exists c :: c in back && ChangeAt(r, post, pre, c, at) {
      assert Differ(r, pre, post, at);
      var c :| c in d && ChangeAt(r, pre, post, c, at);
      var i :| 0 <= i < |d| && d[i] == c;
      assert back[i] in back && ChangeAt(r, post, pre, back[i], at);
    }
  }

  /** Two trees have one delta. */
  lemma DeltaIsOne(r: Repo, pre: string, post: string, d: Delta, e: Delta)
    requires IsDelta(r, pre, post, d) && IsDelta(r, pre, post, e)
    ensures d == e
  {
    hide NamesFit, Less, Repo.ImageAt;
    forall c ensures c in d <==> c in e {
      if c in d { SameChange(r, pre, post, d, e, c); }
      if c in e { SameChange(r, pre, post, e, d, c); }
    }
    SortedOnce(d, e);
  }

  lemma SameChange(r: Repo, pre: string, post: string, d: Delta, e: Delta, c: Change)
    requires IsDelta(r, pre, post, d) && IsDelta(r, pre, post, e) && c in d
    ensures c in e
  {
    hide NamesFit, Less, Repo.ImageAt;
    var at :| ChangeAt(r, pre, post, c, at);
    var f :| f in e && ChangeAt(r, pre, post, f, at);
    assert c == f;
  }

  lemma TailMembers(d: Delta)
    requires PathsSorted(d) && d != []
    ensures PathsSorted(d[1..]) && forall c :: c in d[1..] <==> c in d && c != d[0]
  {
    hide Less;
    forall c | c in d[1..] ensures c in d && c != d[0] {
      var i :| 0 <= i < |d[1..]| && d[1..][i] == c;
      assert d[i + 1] == c && Less(d[0].path, d[i + 1].path);
      LessIrreflexive(c.path);
    }
    forall c | c in d && c != d[0] ensures c in d[1..] {
      var i :| 0 <= i < |d| && d[i] == c;
      assert d[1..][i - 1] == c;
    }
    forall i, j | 0 <= i < j < |d[1..]| ensures Less(d[1..][i].path, d[1..][j].path) {
      assert Less(d[i + 1].path, d[j + 1].path);
    }
  }

  lemma HasMember(d: Delta)
    ensures d != [] ==> exists c :: c in d
  {
    if d != [] { assert d[0] in d; }
  }

  lemma {:induction false} SortedOnce(d: Delta, e: Delta)
    requires PathsSorted(d) && PathsSorted(e) && forall c :: c in d <==> c in e
    ensures d == e
  {
    hide Less;
    HasMember(e);
    if d != [] {
      assert d[0] in e && e != [];
      assert e[0] in d;
      TailMembers(d);
      TailMembers(e);
      if d[0] != e[0] {
        var i :| 0 <= i < |d| && d[i] == e[0];
        var j :| 0 <= j < |e| && e[j] == d[0];
        LessTransitive(d[0].path, e[0].path, d[0].path);
        LessIrreflexive(d[0].path);
        assert false;
      }
      SortedOnce(d[1..], e[1..]);
      assert d == [d[0]] + d[1..] && e == [e[0]] + e[1..];
    }
  }
}
