/** A snapshot's ancestry (rebase/snapshot.go): whether main reaches a commit,
    what a commit reaches beside main, and whether one is above another,
    answered from main's history and kept. */
module Ancestry {
  import opened Wrappers
  import opened CommitGraph
  import opened History

  /** What a commit reaches: the commits main does not, and each commit main
      does reach that is a parent of one of those. */
  datatype Reached = Reached(commits: set<string>, below: seq<string>)

  /** Whether main, which a repository may not have, reaches a commit. */
  ghost predicate OnHistory(g: Graph, tip: string, c: string) {
    tip != "" && Reaches(g, tip, c)
  }

  /** git rev-list --parents of a commit, without what main reaches. */
  ghost predicate IsReachListing(g: Graph, tip: string, oid: string, lines: seq<Line>) {
    && (forall i :: 0 <= i < |lines| ==> lines[i].commit in g && lines[i].parents == g[lines[i].commit])
    && (forall c :: Reaches(g, oid, c) && !OnHistory(g, tip, c) <==> exists i :: 0 <= i < |lines| && lines[i].commit == c)
  }

  ghost predicate IsReached(g: Graph, tip: string, oid: string, r: Reached) {
    && (forall c :: c in r.commits <==> oid in g && Reaches(g, oid, c) && !OnHistory(g, tip, c))
    && (forall p :: p in r.below <==> p !in r.commits && exists c :: c in r.commits && IsStep(g, c, p))
    && (forall i, j :: 0 <= i < j < |r.below| ==> r.below[i] != r.below[j])
  }

  /** What a head beside main reaches on main, it reaches through a commit where
      its own history meets main's, and the other way round. */
  lemma MeetsMain(g: Graph, tip: string, b: string, r: Reached, a: string)
    requires IsReached(g, tip, b, r) && b in r.commits && OnHistory(g, tip, a)
    ensures Reaches(g, b, a) <==> exists c :: c in r.below && Reaches(g, c, a)
  {
    hide OnHistory, Reaches;
    if Reaches(g, b, a) {
      MeetingPoint(g, tip, b, r, a);
    }
    if c :| c in r.below && Reaches(g, c, a) {
      var d :| d in r.commits && IsStep(g, d, c);
      ReachesParent(g, b, d, c);
      ReachesOn(g, b, c, a);
    }
  }

  lemma MeetingPoint(g: Graph, tip: string, b: string, r: Reached, a: string)
    requires IsReached(g, tip, b, r) && b in r.commits && OnHistory(g, tip, a) && Reaches(g, b, a)
    ensures exists c :: c in r.below && Reaches(g, c, a)
  {
    hide OnHistory;
    var path :| IsPath(g, path) && path[0] == b && path[|path| - 1] == a;
    var i := FirstOnMain(g, tip, path);
    assert IsStep(g, path[i - 1], path[i]);
    PathReaches(g, path, i - 1);
    assert path[i - 1] in r.commits && path[i] in r.below;
    PathReaches(g, path, i);
  }

  lemma FirstOnMain(g: Graph, tip: string, path: seq<string>) returns (i: nat)
    requires path != [] && !OnHistory(g, tip, path[0]) && OnHistory(g, tip, path[|path| - 1])
    ensures 1 <= i < |path| && OnHistory(g, tip, path[i]) && !OnHistory(g, tip, path[i - 1])
  {
    i := 1;
    while !OnHistory(g, tip, path[i])
      decreases |path| - i
      invariant 1 <= i < |path| && !OnHistory(g, tip, path[i - 1])
    {
      i := i + 1;
    }
  }

  lemma PathReaches(g: Graph, path: seq<string>, i: nat)
    requires IsPath(g, path) && i < |path|
    ensures Reaches(g, path[0], path[i]) && Reaches(g, path[i], path[|path| - 1])
  {
    var front, back := path[..i + 1], path[i..];
    forall k | 0 <= k < |front| - 1 ensures IsStep(g, front[k], front[k + 1]) {
      assert IsStep(g, path[k], path[k + 1]);
    }
    forall k | 0 <= k < |back| - 1 ensures IsStep(g, back[k], back[k + 1]) {
      assert IsStep(g, path[i + k], path[i + k + 1]);
    }
    assert IsPath(g, front) && IsPath(g, back);
    assert back[|back| - 1] == path[|path| - 1];
  }

  ghost predicate ListsCommit(lines: seq<Line>, c: string) {
    exists i :: 0 <= i < |lines| && lines[i].commit == c
  }

  ghost predicate ListsParent(lines: seq<Line>, p: string) {
    exists i :: 0 <= i < |lines| && p in lines[i].parents
  }

  /** The commits listed, and their parents that are not among them, each once. */
  method ReachedIn(lines: seq<Line>) returns (r: Reached)
    ensures forall c :: c in r.commits <==> ListsCommit(lines, c)
    ensures forall p :: p in r.below <==> p !in r.commits && ListsParent(lines, p)
    ensures forall i, j :: 0 <= i < j < |r.below| ==> r.below[i] != r.below[j]
  {
    var commits: set<string>, parents: seq<string> := {}, [];
    for i := 0 to |lines|
      invariant forall c :: c in commits <==> exists j :: 0 <= j < i && lines[j].commit == c
      invariant forall p :: p in parents <==> exists j :: 0 <= j < i && p in lines[j].parents
    {
      commits := commits + {lines[i].commit};
      parents := parents + lines[i].parents;
    }
    var below: seq<string>, seen: set<string> := [], {};
    for i := 0 to |parents|
      invariant forall p :: p in below <==> p in parents[..i] && p !in commits
      invariant forall p :: p in seen <==> p in below
      invariant forall j, k :: 0 <= j < k < |below| ==> below[j] != below[k]
    {
      assert parents[..i + 1] == parents[..i] + [parents[i]];
      if parents[i] !in commits && parents[i] !in seen {
        seen := seen + {parents[i]};
        below := below + [parents[i]];
      }
    }
    assert parents[..|parents|] == parents;
    r := Reached(commits, below);
  }

  // What is kept.

  ghost predicate ReachKept(g: Graph, tip: string, reachOf: map<string, Reached>) {
    forall oid :: oid in reachOf ==> IsReached(g, tip, oid, reachOf[oid])
  }

  ghost predicate ReachesKept(tip: string, isAncestor: (string, string) -> bool, reachesOf: map<string, bool>) {
    forall oid :: oid in reachesOf ==> reachesOf[oid] == isAncestor(oid, tip)
  }

  ghost predicate AncestorKept(isAncestor: (string, string) -> bool, ancestorOf: map<(string, string), bool>) {
    forall k :: k in ancestorOf ==> ancestorOf[k] == isAncestor(k.0, k.1)
  }

  lemma KeepReaches(tip: string, isAncestor: (string, string) -> bool, reachesOf: map<string, bool>, oid: string)
    requires ReachesKept(tip, isAncestor, reachesOf)
    ensures ReachesKept(tip, isAncestor, reachesOf[oid := isAncestor(oid, tip)])
    ensures oid in reachesOf ==> reachesOf[oid] == isAncestor(oid, tip)
  {
  }

  lemma KeepAncestor(isAncestor: (string, string) -> bool, ancestorOf: map<(string, string), bool>, a: string, b: string)
    requires AncestorKept(isAncestor, ancestorOf)
    ensures AncestorKept(isAncestor, ancestorOf[(a, b) := isAncestor(a, b)])
    ensures (a, b) in ancestorOf ==> ancestorOf[(a, b)] == isAncestor(a, b)
  {
  }

  lemma KeepReach(g: Graph, tip: string, reachOf: map<string, Reached>, oid: string, r: Reached)
    requires ReachKept(g, tip, reachOf)
    ensures IsReached(g, tip, oid, r) ==> ReachKept(g, tip, reachOf[oid := r])
    ensures oid in reachOf ==> IsReached(g, tip, oid, reachOf[oid])
  {
    hide IsReached;
  }

  /** A snapshot of a repository, as far as its ancestry goes. git's answers are
      given: what a commit reaches beside main, main's history if that could be
      listed, and ancestry between two commits. */
  class Snapshot {
    const tip: string
    const reachListing: string -> seq<Line>
    const mainListing: Option<seq<Line>>
    const isAncestor: (string, string) -> bool
    ghost const g: Graph

    var reachOf: map<string, Reached>
    var reachesOf: map<string, bool>
    var ancestorOf: map<(string, string), bool>
    var history: MainHistory?
    var historyRead: bool

    /** git's answers are those of the graph, and a name it has no commit for
        lists nothing. */
    ghost predicate GitTells() {
      && Closed(g) && "" !in g && (tip != "" ==> tip in g)
      && (forall oid :: oid in g ==> IsReachListing(g, tip, oid, reachListing(oid)))
      && (forall oid :: oid !in g ==> reachListing(oid) == [])
      && (mainListing.Some? ==> IsListing(g, tip, mainListing.value))
      && (forall a, b :: isAncestor(a, b) <==> a in g && b in g && Reaches(g, b, a))
    }

    ghost predicate Kept()
      reads this`reachOf, this`reachesOf, this`ancestorOf
    {
      ReachKept(g, tip, reachOf) && ReachesKept(tip, isAncestor, reachesOf) && AncestorKept(isAncestor, ancestorOf)
    }

    ghost predicate HistoryKept()
      reads this`history, history
    {
      history != null ==>
        && tip != "" && history.Valid() && history.g == g
        && forall c :: c in history.index <==> Reaches(g, tip, c)
    }

    /** Main's history is kept once it was asked for, if main could be listed. */
    ghost predicate HistoryAsked()
      reads this`history, this`historyRead
    {
      && (history != null ==> historyRead)
      && (historyRead ==> tip != "" && (history != null <==> mainListing.Some?))
    }

    ghost predicate Valid()
      reads this, history
    {
      GitTells() && Kept() && HistoryKept() && HistoryAsked()
    }

    constructor (tip: string, reachListing: string -> seq<Line>, mainListing: Option<seq<Line>>,
                 isAncestor: (string, string) -> bool, ghost g: Graph)
      requires Closed(g) && "" !in g && (tip != "" ==> tip in g)
      requires forall oid :: oid in g ==> IsReachListing(g, tip, oid, reachListing(oid))
      requires forall oid :: oid !in g ==> reachListing(oid) == []
      requires mainListing.Some? ==> IsListing(g, tip, mainListing.value)
      requires forall a, b :: isAncestor(a, b) <==> a in g && b in g && Reaches(g, b, a)
      ensures Valid() && fresh(this) && this.g == g && this.tip == tip
    {
      this.tip, this.reachListing, this.mainListing, this.isAncestor, this.g := tip, reachListing, mainListing, isAncestor, g;
      reachOf, reachesOf, ancestorOf, history, historyRead := map[], map[], map[], null, false;
    }

    /** What a commit reaches, read once. */
    method Reach(oid: string) returns (r: Reached)
      requires Valid()
      modifies this`reachOf
      ensures Valid() && IsReached(g, tip, oid, r)
    {
      hide IsReached, HistoryKept, GitTells, ReachKept, ReachesKept, AncestorKept;
      if oid in reachOf {
        KeepReach(g, tip, reachOf, oid, reachOf[oid]);
        return reachOf[oid];
      }
      var lines := reachListing(oid);
      r := ReachedIn(lines);
      ReachedOf(oid, lines, r);
      KeepReach(g, tip, reachOf, oid, r);
      reachOf := reachOf[oid := r];
    }

    lemma ReachedOf(oid: string, lines: seq<Line>, r: Reached)
      requires GitTells() && lines == reachListing(oid)
      requires forall c :: c in r.commits <==> ListsCommit(lines, c)
      requires forall p :: p in r.below <==> p !in r.commits && ListsParent(lines, p)
      requires (forall i, j :: 0 <= i < j < |r.below| ==> r.below[i] != r.below[j])
      ensures IsReached(g, tip, oid, r)
    {
      hide Reaches, OnHistory;
      forall p ensures (exists c :: c in r.commits && IsStep(g, c, p)) <==> ListsParent(lines, p) {
        if c :| c in r.commits && IsStep(g, c, p) {
          var i :| 0 <= i < |lines| && lines[i].commit == c;
          assert p in lines[i].parents;
        }
        if i :| 0 <= i < |lines| && p in lines[i].parents {
          assert lines[i].commit in r.commits && IsStep(g, lines[i].commit, p);
        }
      }
    }

    /** Keeps main's history from the first call on, or null when main is missing
        or could not be listed. */
    method ReadMain()
      requires Valid()
      modifies this`history, this`historyRead
      ensures history != null <==> tip != "" && mainListing.Some?
      ensures Valid() && (history == null || history == old(history) || fresh(history))
    {
      hide Kept, IsListing, IsReachListing, Reaches, MainHistory.Valid;
      if !historyRead && tip != "" {
        historyRead := true;
        var h: MainHistory? := null;
        if mainListing.Some? {
          NoBadLine(mainListing.value);
          h := ReadHistory(mainListing.value, g, tip);
        }
        history := h;
      }
    }

    /** The listing of a graph's commits holds their parents too. */
    lemma NoBadLine(lines: seq<Line>)
      requires GitTells() && IsListing(g, tip, lines)
      ensures !exists i :: 0 <= i < |lines| && BadLine(lines, i)
    {
      hide Reaches, IsReachListing;
      forall i, p | 0 <= i < |lines| && p in lines[i].parents ensures exists j :: 0 <= j < |lines| && lines[j].commit == p {
        ReachesParent(g, tip, lines[i].commit, p);
      }
    }

    lemma ValidTells()
      requires Valid()
      ensures GitTells() && HistoryKept()
    {
    }

    /** What a commit beside main has just below it, main reaches. */
    lemma BelowIsMain(b: string, at: Reached, c: string)
      requires GitTells() && HistoryKept() && history != null && IsReached(g, tip, b, at) && c in at.below
      ensures c in history.index
    {
      hide Reaches, IsReachListing;
      var d :| d in at.commits && IsStep(g, d, c);
      ReachesParent(g, b, d, c);
      HistorySays(c);
    }

    /** Tells exactly the commits of main's history, from whatever is kept. */
    method ReachesMain(oid: string) returns (r: bool)
      requires Valid()
      modifies this
      ensures Valid() && (history == null || history == old(history) || fresh(history))
      ensures r <==> oid in g && OnHistory(g, tip, oid)
    {
      hide ReachKept, ReachesKept, AncestorKept, IsReached, HistoryKept, IsReachListing;
      if tip == "" || oid == "" { return false; }
      ReadMain();
      if history != null {
        HistorySays(oid);
        if oid in history.index { return true; }
        var at := Reach(oid);
        ReachedSays(oid, at, oid);
        if oid in at.commits { return false; }
      }
      KeepReaches(tip, isAncestor, reachesOf, oid);
      if oid !in reachesOf {
        reachesOf := reachesOf[oid := isAncestor(oid, tip)];
      }
      r := reachesOf[oid];
    }

    lemma HistorySays(c: string)
      requires HistoryKept() && GitTells() && history != null
      ensures c in history.index <==> c in g && OnHistory(g, tip, c)
    {
      hide Reaches;
      if c in history.index { assert history.Describes(); }
    }

    lemma ReachedSays(oid: string, r: Reached, c: string)
      requires IsReached(g, tip, oid, r)
      ensures c in r.commits <==> oid in g && Reaches(g, oid, c) && !OnHistory(g, tip, c)
    {
    }

    /** Reachability of a commit of main's from any commit, or None where what is kept
        does not settle it. */
    method MainAncestor(a: string, b: string) returns (r: Option<bool>)
      requires Valid() && a in g && OnHistory(g, tip, a)
      modifies this, history
      ensures Valid() && (history == null || history == old(history) || fresh(history))
      ensures r.Some? <==> tip != "" && mainListing.Some? && b in g
      ensures r.Some? ==> (r.value <==> Reaches(g, b, a))
    {
      hide ReachKept, ReachesKept, AncestorKept, IsReached, HistoryKept, HistoryAsked, IsReachListing, Reaches, MainHistory.Valid, OnHistory, Closed, IsListing;
      ReadMain();
      if history == null { return None; }
      HistorySays(a);
      HistorySays(b);
      if a !in history.index { return None; }
      if b in history.index {
        var above := Ask(b, a);
        return Some(above);
      }
      r := BesideMain(a, b);
    }

    /** The same for a commit that main does not reach, once main's history is kept. */
    method BesideMain(a: string, b: string) returns (r: Option<bool>)
      requires Valid() && history != null && a in history.index && b !in history.index
      modifies this`reachOf, history`below
      ensures Valid() && (r.Some? <==> b in g)
      ensures r.Some? ==> (r.value <==> Reaches(g, b, a))
    {
      hide Valid, GitTells, HistoryKept, IsReached, Reaches, OnHistory;
      ValidTells();
      HistorySays(a);
      HistorySays(b);
      var at := Reach(b);
      ReachedSays(b, at, b);
      ReachesItself(g, b);
      if b !in at.commits { return None; }
      MeetsMain(g, tip, b, at, a);
      for i := 0 to |at.below|
        invariant Valid() && forall j :: 0 <= j < i ==> at.below[j] in history.index
      {
        ValidTells();
        BelowIsMain(b, at, at.below[i]);
        if at.below[i] !in history.index { return None; }
      }
      var above := AnyReaches(at.below, a);
      r := Some(above);
    }

    /** Whether one of some commits of main's has another in its history. */
    method AnyReaches(from: seq<string>, a: string) returns (r: bool)
      requires Valid() && history != null && a in history.index
      requires forall i :: 0 <= i < |from| ==> from[i] in history.index
      modifies history`below
      ensures Valid() && (r <==> exists c :: c in from && Reaches(g, c, a))
    {
      hide ReachKept, ReachesKept, AncestorKept, GitTells, Reaches, MainHistory.Valid;
      for i := 0 to |from|
        invariant Valid() && forall j :: 0 <= j < i ==> !Reaches(g, from[j], a)
      {
        var above := Ask(from[i], a);
        if above {
          assert from[i] in from;
          return true;
        }
      }
      r := false;
    }

    /** Asks main's history. */
    method Ask(from: string, to: string) returns (r: bool)
      requires Valid() && history != null && from in history.index && to in history.index
      modifies history`below
      ensures Valid() && (r <==> Reaches(g, from, to))
    {
      hide ReachKept, ReachesKept, AncestorKept, GitTells, Reaches, MainHistory.IsBelow, MainHistory.Describes;
      r := history.ReachesIt(from, to);
    }

    /** Whether a commit is an ancestor of another, and not that one itself. */
    method StrictAncestor(a: string, b: string) returns (r: bool)
      requires Valid()
      modifies this, history
      ensures Valid() && (history == null || history == old(history) || fresh(history))
      ensures r <==> a in g && b in g && IsStrictAncestor(g, a, b)
    {
      hide ReachKept, ReachesKept, AncestorKept, IsReached, HistoryKept, IsReachListing, Reaches, IsListing;
      if a == b { return false; }
      var at := Reach(b);
      ReachedSays(b, at, a);
      if a in at.commits {
        StaysInGraph(b, a);
        return true;
      }
      var onMain := ReachesMain(a);
      if !onMain { return false; }
      var known := MainAncestor(a, b);
      if known.Some? { return known.value; }
      KeepAncestor(isAncestor, ancestorOf, a, b);
      if (a, b) !in ancestorOf {
        ancestorOf := ancestorOf[(a, b) := isAncestor(a, b)];
      }
      r := ancestorOf[(a, b)];
    }

    lemma StaysInGraph(from: string, to: string)
      requires GitTells() && from in g && Reaches(g, from, to)
      ensures to in g
    {
      hide Reaches;
      ClosedHoldsAll(g, g.Keys, from, to);
    }
  }
}
