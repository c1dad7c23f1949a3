/** Landings on main (rebase/snapshot.go): the line of only parents below the tip,
    and which of a change's versions counts as landed. */
module Mainline {
  import opened Wrappers
  import opened CommitGraph
  import opened History
  import opened Ancestry

  /** A line of first parents with no merge before its end. */
  ghost predicate IsFirstParents(g: Graph, path: seq<string>) {
    path != [] && forall i :: 0 <= i < |path| - 1 ==> IsOnlyParent(g, path[i], path[i + 1])
  }

  predicate IsOnlyParent(g: Graph, c: string, p: string) {
    c in g && g[c] == [p]
  }

  /** On main's first-parent history with no merge between it and the tip. */
  ghost predicate OnMainline(g: Graph, tip: string, oid: string) {
    exists path :: IsFirstParents(g, path) && path[0] == tip && path[|path| - 1] == oid
  }

  /** git rev-list --first-parent --parents: each commit from the tip down, the
      first parent of the one before, to the one that has none. */
  ghost predicate IsFirstParentListing(g: Graph, tip: string, lines: seq<Line>) {
    && lines != [] && lines[0].commit == tip
    && (forall i :: 0 <= i < |lines| ==> lines[i].commit in g && lines[i].parents == g[lines[i].commit])
    && (forall i :: 0 <= i < |lines| - 1 ==> lines[i].parents != [] && lines[i + 1].commit == lines[i].parents[0])
    && lines[|lines| - 1].parents == []
  }

  /** The lines down to place i have no merge before the last of them. */
  ghost predicate NoMergeBefore(lines: seq<Line>, i: nat) {
    i <= |lines| && forall j :: 0 <= j < i ==> |lines[j].parents| <= 1
  }

  /** Every commit on the line is one the listing names before or at its first
      merge. */
  lemma MainlineIsListed(g: Graph, tip: string, lines: seq<Line>, path: seq<string>)
    requires IsFirstParentListing(g, tip, lines) && IsFirstParents(g, path) && path[0] == tip
    ensures |path| <= |lines| && NoMergeBefore(lines, |path| - 1)
    ensures forall i :: 0 <= i < |path| ==> lines[i].commit == path[i]
  {
    for k := 1 to |path|
      invariant k <= |lines| && NoMergeBefore(lines, k - 1)
      invariant forall i :: 0 <= i < k ==> lines[i].commit == path[i]
    {
      assert IsOnlyParent(g, path[k - 1], path[k]);
      assert lines[k - 1].parents == [path[k]];
    }
  }

  lemma ListedIsMainline(g: Graph, tip: string, lines: seq<Line>, i: nat)
    requires IsFirstParentListing(g, tip, lines) && i < |lines| && NoMergeBefore(lines, i)
    ensures OnMainline(g, tip, lines[i].commit)
  {
    var path := seq(i + 1, k requires 0 <= k <= i => lines[k].commit);
    forall k | 0 <= k < |path| - 1 ensures IsOnlyParent(g, path[k], path[k + 1]) {
      assert lines[k + 1].commit == lines[k].parents[0];
    }
    assert IsFirstParents(g, path) && path[0] == tip && path[i] == lines[i].commit;
  }

  ghost predicate FirstParentKept(g: Graph, tip: string, firstParent: map<string, nat>) {
    && (forall c :: c in firstParent <==> OnMainline(g, tip, c))
    && (forall c :: c in firstParent ==> c in g && firstParent[c] == |g[c]|)
  }

  /** Main's first-parent history as a snapshot keeps it. What git lists is
      given, and what it says of one commit's parents; either may not read. */
  class FirstParents {
    const tip: string
    const listing: Option<seq<Line>>
    const parentsOf: string -> Option<seq<string>>
    ghost const g: Graph

    var firstParent: map<string, nat>
    var read: bool

    ghost predicate Valid()
      reads this
    {
      && (tip != "" && listing.Some? ==> IsFirstParentListing(g, tip, listing.value))
      && (forall oid :: parentsOf(oid).Some? ==> oid in g && parentsOf(oid).value == g[oid])
      && (!read ==> firstParent == map[])
      && (read ==> if tip != "" && listing.Some? then FirstParentKept(g, tip, firstParent) else firstParent == map[])
    }

    constructor (tip: string, listing: Option<seq<Line>>, parentsOf: string -> Option<seq<string>>, ghost g: Graph)
      requires tip != "" && listing.Some? ==> IsFirstParentListing(g, tip, listing.value)
      requires forall oid :: parentsOf(oid).Some? ==> oid in g && parentsOf(oid).value == g[oid]
      ensures Valid() && fresh(this) && this.g == g && this.tip == tip && this.listing == listing
    {
      this.tip, this.listing, this.parentsOf, this.g := tip, listing, parentsOf, g;
      firstParent, read := map[], false;
    }

    /** Tells exactly the commits of main's line, and none where there is no main or
        nothing was listed. */
    method OnMain(oid: string) returns (on: bool)
      requires Valid()
      modifies this
      ensures Valid()
      ensures on <==> tip != "" && oid != "" && listing.Some? && OnMainline(g, tip, oid)
    {
      hide OnMainline, IsFirstParentListing, FirstParentKept;
      if tip == "" || oid == "" { return false; }
      if !read {
        read := true;
        firstParent := map[];
        if listing.Some? {
          firstParent := ReadDown(listing.value, g, tip);
        }
      }
      on := oid in firstParent;
      if listing.Some? { KeptSays(firstParent, oid); }
    }

    lemma KeptSays(kept: map<string, nat>, oid: string)
      requires FirstParentKept(g, tip, kept)
      ensures oid in kept <==> OnMainline(g, tip, oid)
      ensures oid in kept ==> oid in g && kept[oid] == |g[oid]|
    {
      hide OnMainline;
    }

    /** Whether the one parent of a commit is its only one: as kept, for a
        commit of main's line, and as git says for any other. A commit nothing
        is known of has not. */
    method SingleParent(oid: string) returns (one: bool)
      requires Valid()
      ensures one ==> oid in g && |g[oid]| == 1
      ensures parentsOf(oid).Some? || (read && tip != "" && listing.Some? && OnMainline(g, tip, oid)) ==>
                oid in g && (one <==> |g[oid]| == 1)
    {
      hide OnMainline, IsFirstParentListing, FirstParentKept;
      if read && tip != "" && listing.Some? { KeptSays(firstParent, oid); }
      if oid in firstParent {
        one := firstParent[oid] == 1;
      } else {
        one := parentsOf(oid).Some? && |parentsOf(oid).value| == 1;
      }
    }
  }

  /** Keeps exactly the commits of main's line, each with how many parents it has. */
  method ReadDown(lines: seq<Line>, ghost g: Graph, tip: string) returns (kept: map<string, nat>)
    requires IsFirstParentListing(g, tip, lines)
    ensures FirstParentKept(g, tip, kept)
  {
    kept := map[];
    var i := 0;
    while i < |lines|
      invariant i <= |lines| && NoMergeBefore(lines, i)
      invariant forall c :: c in kept <==> Listed(lines, i, c)
      invariant forall c :: c in kept ==> c in g && kept[c] == |g[c]|
    {
      kept := kept[lines[i].commit := |lines[i].parents|];
      i := i + 1;
      if |lines[i - 1].parents| > 1 { break; }
    }
    ghost var last: nat := i;
    forall c ensures c in kept <==> OnMainline(g, tip, c) {
      if c in kept {
        var j :| 0 <= j < last && lines[j].commit == c;
        ListedIsMainline(g, tip, lines, j);
      }
      if OnMainline(g, tip, c) {
        var path :| IsFirstParents(g, path) && path[0] == tip && path[|path| - 1] == c;
        MainlineIsListed(g, tip, lines, path);
        assert last == |lines| || |lines[last - 1].parents| > 1;
        assert Listed(lines, last, c);
      }
    }
  }

  ghost predicate Listed(lines: seq<Line>, n: nat, c: string)
    requires n <= |lines|
  {
    exists j :: 0 <= j < n && lines[j].commit == c
  }

  // Which version a change landed as.

  datatype Version = Version(n: nat, head: string)

  /** A version's landing evidence: not landed, or the commit it landed as. */
  type Landing = Option<string>

  /** The newest version that landed is at place i. */
  predicate IsNewestLanded(landings: seq<Landing>, i: nat) {
    i < |landings| && landings[i].Some? && forall j :: i < j < |landings| ==> landings[j].None?
  }

  /** The newest landing is below the active version's head, and is another version's:
      the change has started over on a main that has it. */
  ghost predicate IsNextRound(g: Graph, versions: seq<Version>, landings: seq<Landing>, active: Version, i: nat)
    requires |landings| == |versions| && IsNewestLanded(landings, i)
  {
    && versions[i].n != active.n
    && landings[i].value in g && active.head in g && IsStrictAncestor(g, landings[i].value, active.head)
  }

  /** A change landed as its newest version that did, unless its active version
      is another whose head has that landing under it; and not at all where no
      version landed. The commit graph decides, whatever the snapshot kept. */
  method LandedAs(s: Snapshot, versions: seq<Version>, landings: seq<Landing>, active: Version) returns (version: Option<Version>)
    requires s.Valid() && |landings| == |versions|
    modifies s, s.history
    ensures s.Valid()
    ensures version.None? <==> forall i: nat :: IsNewestLanded(landings, i) ==> IsNextRound(s.g, versions, landings, active, i)
    ensures version.Some? ==> exists i: nat :: IsNewestLanded(landings, i) && version.value == versions[i]
  {
    hide Snapshot.GitTells, Snapshot.Kept, Snapshot.HistoryKept, IsStrictAncestor;
    var i := |versions|;
    while i > 0
      invariant s.Valid() && s.history == old(s.history)
      invariant 0 <= i <= |versions| && forall j :: i <= j < |versions| ==> landings[j].None?
    {
      i := i - 1;
      if landings[i].Some? {
        assert IsNewestLanded(landings, i);
        if versions[i].n != active.n {
          var under := s.StrictAncestor(landings[i].value, active.head);
          return if under then None else Some(versions[i]);
        }
        return Some(versions[i]);
      }
    }
    version := None;
  }
}
