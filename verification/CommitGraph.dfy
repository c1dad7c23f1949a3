/** Commit graphs: each commit with its parents, and plain reachability. */
module CommitGraph {

  type Graph = map<string, seq<string>>

  /** Every parent is a commit of the graph. */
  ghost predicate Closed(g: Graph) {
    forall c, p :: c in g && p in g[c] ==> p in g
  }

  /** A line of commits, each a parent of the one before. */
  ghost predicate IsPath(g: Graph, path: seq<string>) {
    path != [] && forall i :: 0 <= i < |path| - 1 ==> IsStep(g, path[i], path[i + 1])
  }

  predicate IsStep(g: Graph, c: string, p: string) {
    c in g && p in g[c]
  }

  /** Whether a commit is another, or has it as an ancestor. */
  ghost predicate Reaches(g: Graph, from: string, to: string) {
    exists path :: IsPath(g, path) && path[0] == from && path[|path| - 1] == to
  }

  /** Whether a commit is an ancestor of another, and not that one itself. */
  ghost predicate IsStrictAncestor(g: Graph, a: string, b: string) {
    a != b && Reaches(g, b, a)
  }

  lemma ReachesItself(g: Graph, c: string)
    ensures Reaches(g, c, c)
  {
    assert IsPath(g, [c]);
  }

  lemma ReachesOn(g: Graph, from: string, mid: string, to: string)
    requires Reaches(g, from, mid) && Reaches(g, mid, to)
    ensures Reaches(g, from, to)
  {
    var upper :| IsPath(g, upper) && upper[0] == from && upper[|upper| - 1] == mid;
    var lower :| IsPath(g, lower) && lower[0] == mid && lower[|lower| - 1] == to;
    var path := upper + lower[1..];
    forall i | 0 <= i < |path| - 1 ensures IsStep(g, path[i], path[i + 1]) {
      if i < |upper| - 1 {
        assert IsStep(g, upper[i], upper[i + 1]);
      } else {
        assert IsStep(g, lower[i - |upper| + 1], lower[i - |upper| + 2]);
      }
    }
    assert IsPath(g, path);
    assert path[|path| - 1] == to;
  }

  lemma ReachesParent(g: Graph, from: string, c: string, p: string)
    requires Reaches(g, from, c) && IsStep(g, c, p)
    ensures Reaches(g, from, p)
  {
    assert IsPath(g, [c, p]) && [c, p][0] == c && [c, p][1] == p;
    assert Reaches(g, c, p);
    ReachesOn(g, from, c, p);
  }

  /** A commit set that holds a commit and every parent of its members holds
      all that the commit reaches. */
  lemma ClosedHoldsAll(g: Graph, set_: set<string>, from: string, to: string)
    requires from in set_ && Reaches(g, from, to)
    requires forall c, p :: c in set_ && IsStep(g, c, p) ==> p in set_
    ensures to in set_
  {
    var path :| IsPath(g, path) && path[0] == from && path[|path| - 1] == to;
    for i := 1 to |path|
      invariant path[i - 1] in set_
    {
      assert IsStep(g, path[i - 1], path[i]);
    }
  }
}
