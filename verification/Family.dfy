/** A family of layers (rebase/family.go): captured from how heads nest, as a
    tree on one bottom, and listed bottom first. */
module Family {
  import opened Wrappers
  import opened Strings
  import opened Nest

  type Bases = seq<Option<nat>>

  /** Each base is lower, by some count, than what sits on it. */
  ghost predicate Falls(base: Bases, heights: seq<nat>) {
    && |heights| == |base|
    && forall i :: 0 <= i < |base| && base[i].Some? ==> base[i].value < |base| && heights[base[i].value] < heights[i]
  }

  ghost function RootOf(base: Bases, heights: seq<nat>, i: nat): (r: nat)
    requires Falls(base, heights) && i < |base|
    ensures r < |base| && base[r].None?
    decreases heights[i]
  {
    if base[i].None? then i else RootOf(base, heights, base[i].value)
  }

  /** Whether a node is another, or under it by bases. */
  ghost predicate IsUnder(base: Bases, heights: seq<nat>, i: nat, j: nat)
    requires Falls(base, heights) && i < |base|
    decreases heights[i]
  {
    j == i || (base[i].Some? && IsUnder(base, heights, base[i].value, j))
  }

  method Root(base: Bases, ghost heights: seq<nat>, start: nat) returns (r: nat)
    requires Falls(base, heights) && start < |base|
    ensures r == RootOf(base, heights, start)
  {
    r := start;
    while base[r].Some?
      invariant r < |base| && RootOf(base, heights, r) == RootOf(base, heights, start)
      decreases heights[r]
    {
      r := base[r].value;
    }
  }

  ghost predicate NoRepeats<T(!new)>(s: seq<T>) {
    forall i, j :: 0 <= i < j < |s| ==> s[i] != s[j]
  }

  /** Each of some nodes has its base among them. */
  ghost predicate Closed(base: Bases, keep: set<nat>) {
    forall i :: i in keep ==> i < |base| && (base[i].Some? ==> base[i].value in keep)
  }

  /** Nodes that make one tree: with each its base, and with one bottom. */
  ghost predicate IsTree(base: Bases, keep: set<nat>, bottom: nat) {
    && Closed(base, keep) && bottom in keep && base[bottom].None?
    && forall i :: i in keep && base[i].None? ==> i == bottom
  }

  ghost function Members(s: seq<nat>): set<nat> {
    set i | i in s
  }

  /** Every node joined to the first through the bases. */
  method Connected(base: Bases, ghost heights: seq<nat>) returns (keep: seq<nat>)
    requires Falls(base, heights) && |base| > 0
    ensures NoRepeats(keep) && IsTree(base, Members(keep), RootOf(base, heights, 0))
    ensures forall i: nat :: i in keep <==> i < |base| && RootOf(base, heights, i) == RootOf(base, heights, 0)
  {
    hide Falls;
    Falling(base, heights);
    var r := Root(base, heights, 0);
    keep := [];
    for i := 0 to |base|
      invariant forall j: nat :: j in keep <==> j < i && RootOf(base, heights, j) == r
      invariant NoRepeats(keep)
    {
      var root := Root(base, heights, i);
      if root == r { keep := keep + [i]; }
    }
  }

  lemma Falling(base: Bases, heights: seq<nat>)
    requires Falls(base, heights)
    ensures |heights| == |base|
    ensures forall i :: 0 <= i < |base| && base[i].Some? ==> base[i].value < |base| && heights[base[i].value] < heights[i]
  {
  }

  /** The first and the chain of nodes under it, lowest first. */
  method Chain(base: Bases, ghost heights: seq<nat>) returns (keep: seq<nat>)
    requires Falls(base, heights) && |base| > 0
    ensures NoRepeats(keep) && IsTree(base, Members(keep), RootOf(base, heights, 0))
    ensures forall i: nat :: i in keep <==> IsUnder(base, heights, 0, i)
  {
    var i := 0;
    keep := [0];
    while base[i].Some?
      invariant i < |base| && keep != [] && keep[0] == i && NoRepeats(keep)
      invariant forall j: nat :: j in keep ==> j < |base| && IsUnder(base, heights, 0, j) && (j != i ==> base[j].Some? && base[j].value in keep && heights[j] > heights[i])
      invariant forall j: nat :: IsUnder(base, heights, 0, j) <==> j in keep || IsUnder(base, heights, i, j)
      invariant RootOf(base, heights, i) == RootOf(base, heights, 0)
      decreases heights[i]
    {
      ghost var was := keep;
      i := base[i].value;
      keep := [i] + keep;
      assert forall j: nat :: j in keep <==> j == i || j in was;
    }
  }

  /** One layer: what the capture links it by, its name, and its head. */
  class Layer {
    const name: string
    const head: string
    var below: Layer?
    var above: seq<Layer>

    constructor (name: string, head: string)
      ensures below == null && above == [] && this.name == name && this.head == head
    {
      this.name, this.head := name, head;
      below, above := null, [];
    }
  }

  ghost predicate AreLayers(all: seq<Layer>) {
    NoRepeatsOf(all)
  }

  ghost predicate NoRepeatsOf(s: seq<Layer>) {
    forall i, j :: 0 <= i < j < |s| ==> s[i] != s[j]
  }

  ghost function Belows(all: seq<Layer>): (belows: seq<Layer?>)
    reads all
    ensures |belows| == |all| && forall i :: 0 <= i < |all| ==> belows[i] == all[i].below
  {
    seq(|all|, i requires 0 <= i < |all| reads all => all[i].below)
  }

  ghost function Aboves(all: seq<Layer>): (aboves: seq<seq<Layer>>)
    reads all
    ensures |aboves| == |all| && forall i :: 0 <= i < |all| ==> aboves[i] == all[i].above
  {
    seq(|all|, i requires 0 <= i < |all| reads all => all[i].above)
  }

  /** Layers linked as their bases are: each kept layer to its base's, and back
      from there once. */
  ghost predicate Linked(all: seq<Layer>, base: Bases, keep: set<nat>, done: set<nat>)
    reads all
  {
    AreLinks(all, base, keep, done, Belows(all), Aboves(all))
  }

  ghost predicate AreLinks(all: seq<Layer>, base: Bases, keep: set<nat>, done: set<nat>, belows: seq<Layer?>, aboves: seq<seq<Layer>>) {
    && |belows| == |aboves| == |base| == |all| && Closed(base, keep)
    && (forall i :: i in keep ==> belows[i] == if i in done && base[i].Some? then all[base[i].value] else null)
    && (forall i :: i in keep ==> NoRepeatsOf(aboves[i]))
    && (forall i, l :: i in keep && l in aboves[i] ==> exists j :: j in done && j in keep && base[j] == Some(i) && l == all[j])
    && (forall j :: j in done && j in keep && base[j].Some? ==> all[j] in aboves[base[j].value])
  }

  method Link(all: seq<Layer>, base: Bases, keep: seq<nat>, ghost bottom: nat, ghost heights: seq<nat>)
    requires AreLayers(all) && Falls(base, heights) && |base| == |all| && NoRepeats(keep) && IsTree(base, Members(keep), bottom)
    requires forall l :: l in all ==> l.below == null && l.above == []
    modifies all
    ensures Linked(all, base, Members(keep), Members(keep))
  {
    hide Linked, Falls, Members, Closed;
    assert Members(keep[..0]) == {} by { NoMembers(); }
    NothingLinked(all, base, Members(keep));
    InMembers(keep);
    for n := 0 to |keep|
      invariant Linked(all, base, Members(keep), Members(keep[..n]))
    {
      var i := keep[n];
      OneMoreMember(keep, n);
      KeptBase(base, heights, Members(keep), i);
      if base[i].Some? {
        LinkOne(all, base, Members(keep), Members(keep[..n]), i);
      } else {
        NothingToLink(all, base, Members(keep), Members(keep[..n]), i);
      }
    }
    assert keep[..|keep|] == keep;
  }

  lemma NoMembers()
    ensures Members([]) == {}
  {
  }

  lemma InMembers(keep: seq<nat>)
    ensures forall n :: 0 <= n < |keep| ==> keep[n] in Members(keep)
  {
  }

  lemma OneMoreMember(keep: seq<nat>, n: nat)
    requires NoRepeats(keep) && n < |keep|
    ensures keep[n] in Members(keep) && keep[n] !in Members(keep[..n])
    ensures Members(keep[..n + 1]) == Members(keep[..n]) + {keep[n]}
  {
    assert keep[..n + 1] == keep[..n] + [keep[n]];
  }

  lemma KeptBase(base: Bases, heights: seq<nat>, keep: set<nat>, i: nat)
    requires Falls(base, heights) && Closed(base, keep) && i in keep
    ensures i < |base| && (base[i].Some? ==> base[i].value in keep && base[i].value != i && base[i].value < |base|)
  {
  }

  lemma NothingLinked(all: seq<Layer>, base: Bases, keep: set<nat>)
    requires |base| == |all| && Closed(base, keep) && forall l :: l in all ==> l.below == null && l.above == []
    ensures Linked(all, base, keep, {})
  {
  }

  lemma NothingToLink(all: seq<Layer>, base: Bases, keep: set<nat>, done: set<nat>, i: nat)
    requires |base| == |all| && Closed(base, keep)
    requires i in keep && i < |base| && base[i].None? && Linked(all, base, keep, done)
    ensures Linked(all, base, keep, done + {i})
  {
  }

  method LinkOne(all: seq<Layer>, base: Bases, ghost keep: set<nat>, ghost done: set<nat>, i: nat)
    requires AreLayers(all) && i in keep && i !in done && Linked(all, base, keep, done)
    requires i < |all| == |base| && base[i].Some? && base[i].value != i && base[i].value < |all|
    modifies all
    ensures Linked(all, base, keep, done + {i})
  {
    hide AreLinks;
    var b := base[i].value;
    ghost var belows, aboves := Belows(all), Aboves(all);
    OneMoreLink(all, base, keep, done, belows, aboves, i);
    all[i].below := all[b];
    all[b].above := all[b].above + [all[i]];
    assert Belows(all) == belows[i := all[b]];
    assert Aboves(all) == aboves[b := aboves[b] + [all[i]]];
  }

  lemma OneMoreLink(all: seq<Layer>, base: Bases, keep: set<nat>, done: set<nat>, belows: seq<Layer?>, aboves: seq<seq<Layer>>, i: nat)
    requires AreLayers(all) && AreLinks(all, base, keep, done, belows, aboves)
    requires i in keep && i !in done && i < |all| && base[i].Some? && base[i].value != i && base[i].value < |all|
    ensures var b := base[i].value;
            AreLinks(all, base, keep, done + {i}, belows[i := all[b]], aboves[b := aboves[b] + [all[i]]])
  {
    var b := base[i].value;
    assert all[i] !in aboves[b];
    assert NoRepeatsOf(aboves[b] + [all[i]]);
  }

  // order.

  ghost predicate ByName(list: seq<Layer>) {
    forall i, j :: 0 <= i < j < |list| ==> !Less(list[j].name, list[i].name)
  }

  /** sort.SliceStable by name. */
  method SortByName(list: seq<Layer>) returns (sorted: seq<Layer>)
    requires NoRepeatsOf(list)
    ensures ByName(sorted) && NoRepeatsOf(sorted) && forall l :: l in sorted <==> l in list
  {
    sorted := [];
    for i := 0 to |list|
      invariant ByName(sorted) && NoRepeatsOf(sorted) && forall l :: l in sorted <==> l in list[..i]
    {
      assert list[i] !in list[..i];
      sorted := InsertByName(sorted, list[i]);
      assert list[..i + 1] == list[..i] + [list[i]];
    }
    assert list[..|list|] == list;
  }

  method InsertByName(sorted: seq<Layer>, x: Layer) returns (more: seq<Layer>)
    requires ByName(sorted) && NoRepeatsOf(sorted) && x !in sorted
    ensures ByName(more) && NoRepeatsOf(more) && forall l :: l in more <==> l in sorted || l == x
  {
    hide Less;
    var at := |sorted|;
    while at > 0 && Less(x.name, sorted[at - 1].name)
      invariant 0 <= at <= |sorted|
      invariant forall i :: at <= i < |sorted| ==> Less(x.name, sorted[i].name)
    {
      at := at - 1;
    }
    more := sorted[..at] + [x] + sorted[at..];
    forall i | 0 <= i < at ensures !Less(x.name, sorted[i].name) {
      if i < at - 1 { NotLessThan(x.name, sorted[at - 1].name, sorted[i].name); }
    }
    forall i | at <= i < |sorted| ensures !Less(sorted[i].name, x.name) { NotBothLess(x.name, sorted[i].name); }
    InsertedByName(sorted, at, x);
  }

  lemma InsertedByName(sorted: seq<Layer>, at: nat, x: Layer)
    requires ByName(sorted) && NoRepeatsOf(sorted) && x !in sorted && at <= |sorted|
    requires forall i :: 0 <= i < at ==> !Less(x.name, sorted[i].name)
    requires forall i :: at <= i < |sorted| ==> !Less(sorted[i].name, x.name)
    ensures var more := sorted[..at] + [x] + sorted[at..];
            ByName(more) && NoRepeatsOf(more) && forall l :: l in more <==> l in sorted || l == x
  {
    hide Less;
    var more := sorted[..at] + [x] + sorted[at..];
    assert sorted == sorted[..at] + sorted[at..];
    forall i | 0 <= i < |more| ensures more[i] == if i < at then sorted[i] else if i == at then x else sorted[i - 1] {}
    forall i, j | 0 <= i < j < |more| ensures more[i] != more[j] && !Less(more[j].name, more[i].name) {
      if i == at || j == at { assert forall k :: 0 <= k < |sorted| ==> sorted[k] in sorted; }
    }
  }

  lemma NotLessThan(x: string, a: string, b: string)
    requires !Less(x, a) && !Less(a, b)
    ensures !Less(x, b)
  {
    LessTotal(x, a);
    if Less(x, b) && Less(a, x) { LessTransitive(a, x, b); }
  }

  lemma NotBothLess(a: string, b: string)
    requires Less(a, b)
    ensures !Less(b, a)
  {
    if Less(b, a) {
      LessTransitive(a, b, a);
      LessIrreflexive(a);
    }
  }

  /** Layers listed so that each comes after the one it sits on, those on one
      layer in the order of their names. */
  ghost predicate IsListed(all: seq<Layer>, base: Bases, bottom: nat, out: seq<nat>) {
    && |base| == |all| && NoRepeats(out) && out != [] && out[0] == bottom
    && (forall k :: 0 <= k < |out| ==> out[k] < |all|)
    && (forall k :: 0 < k < |out| ==> base[out[k]].Some? && base[out[k]].value in out[..k])
    && (forall j, k :: 0 <= j < k < |out| && base[out[j]].Some? && base[out[j]] == base[out[k]] ==>
          !Less(all[out[k]].name, all[out[j]].name))
  }

  /** What sits on the first of some layers is listed, and nothing else is. */
  ghost predicate ListsAbove(base: Bases, keep: set<nat>, out: seq<nat>, n: nat)
    requires n <= |out|
  {
    && (forall k :: 0 <= k < |out| ==> out[k] in keep && out[k] < |base|)
    && (forall k :: 0 < k < |out| ==> base[out[k]].Some? && base[out[k]].value in out[..n])
    && (forall j :: j in keep && j < |base| && base[j].Some? && base[j].value in out[..n] ==> j in out)
  }

  ghost predicate AreOn(all: seq<Layer>, base: Bases, keep: set<nat>, i: nat, on: seq<nat>) {
    && |base| == |all| && NoRepeats(on)
    && (forall j: nat :: j in on <==> j in keep && j < |base| && base[j] == Some(i))
    && (forall j, k :: 0 <= j < k < |on| ==> on[j] < |all| && on[k] < |all| && !Less(all[on[k]].name, all[on[j]].name))
  }

  lemma OnIsNew(base: Bases, keep: set<nat>, bottom: nat, out: seq<nat>, n: nat, on: seq<nat>)
    requires n < |out| && IsTree(base, keep, bottom) && ListsAbove(base, keep, out, n) && NoRepeats(out) && out[0] == bottom
    requires forall j: nat :: j in on <==> j in keep && j < |base| && base[j] == Some(out[n])
    ensures forall k :: 0 <= k < |out| ==> base[out[k]] != Some(out[n])
    ensures forall j :: j in on ==> j !in out
  {
    assert out[n] !in out[..n];
  }

  lemma ListAboveOn(base: Bases, keep: set<nat>, bottom: nat, out: seq<nat>, n: nat, on: seq<nat>)
    requires n < |out| && ListsAbove(base, keep, out, n) && out[0] == bottom
    requires forall j: nat :: j in on <==> j in keep && j < |base| && base[j] == Some(out[n])
    ensures ListsAbove(base, keep, out + on, n + 1)
  {
    var more := out + on;
    assert out[..n + 1] == out[..n] + [out[n]] && more[..n + 1] == out[..n + 1];
    forall k | 0 <= k < |more| ensures more[k] in keep && more[k] < |base| {
      if k < |out| { assert more[k] == out[k]; } else { assert more[k] in on; }
    }
    forall k | 0 < k < |more| ensures base[more[k]].Some? && base[more[k]].value in more[..n + 1] {
      if k < |out| { assert more[k] == out[k]; } else { assert more[k] in on; }
    }
  }

  lemma ListOn(all: seq<Layer>, base: Bases, keep: set<nat>, bottom: nat, out: seq<nat>, n: nat, on: seq<nat>)
    requires n < |out| && IsTree(base, keep, bottom) && IsListed(all, base, bottom, out) && ListsAbove(base, keep, out, n)
    requires AreOn(all, base, keep, out[n], on)
    ensures IsListed(all, base, bottom, out + on) && ListsAbove(base, keep, out + on, n + 1)
  {
    hide Less, IsTree, NoRepeats;
    OnIsNew(base, keep, bottom, out, n, on);
    ListAboveOn(base, keep, bottom, out, n, on);
    var more := out + on;
    forall k | 0 < k < |more| ensures base[more[k]].value in more[..k] {
      if k < |out| {
        assert more[..k] == out[..k];
      } else {
        assert more[k] in on && more[n] == out[n];
        assert more[..k][n] == out[n];
      }
    }
    NoRepeatsBoth(out, on);
    ListSiblings(all, base, keep, bottom, out, n, on);
  }

  lemma NoRepeatsBoth(a: seq<nat>, b: seq<nat>)
    requires NoRepeats(a) && NoRepeats(b) && forall x :: x in b ==> x !in a
    ensures NoRepeats(a + b)
  {
    forall i, j | 0 <= i < j < |a + b| ensures (a + b)[i] != (a + b)[j] {
      if j >= |a| { assert (a + b)[j] in b; }
      if i < |a| { assert (a + b)[i] in a; }
    }
  }

  lemma ListSiblings(all: seq<Layer>, base: Bases, keep: set<nat>, bottom: nat, out: seq<nat>, n: nat, on: seq<nat>)
    requires n < |out| && IsListed(all, base, bottom, out) && AreOn(all, base, keep, out[n], on)
    requires forall k :: 0 <= k < |out| ==> base[out[k]] != Some(out[n])
    requires forall k :: 0 <= k < |out + on| ==> (out + on)[k] < |base|
    ensures forall j, k :: 0 <= j < k < |out + on| && base[(out + on)[j]].Some? && base[(out + on)[j]] == base[(out + on)[k]] ==>
              !Less(all[(out + on)[k]].name, all[(out + on)[j]].name)
  {
    hide Less;
    var more := out + on;
    forall j, k | 0 <= j < |out| <= k < |more| ensures base[more[j]] != base[more[k]] {
      assert more[k] in on && more[j] == out[j];
    }
    forall j, k | 0 <= j < k < |more| && base[more[j]].Some? && base[more[j]] == base[more[k]]
      ensures !Less(all[more[k]].name, all[more[j]].name)
    {
      if j >= |out| {
        assert more[j] == on[j - |out|] && more[k] == on[k - |out|];
      } else {
        assert more[j] == out[j] && more[k] == out[k];
      }
    }
  }

  // Breadth first.

  /** How many bases are under a node. */
  ghost function DepthOf(base: Bases, heights: seq<nat>, i: nat): nat
    requires Falls(base, heights) && i < |base|
    decreases heights[i]
  {
    if base[i].None? then 0 else 1 + DepthOf(base, heights, base[i].value)
  }

  /** One listed node sits on another. */
  ghost predicate SitsOn(base: Bases, out: seq<nat>, k: nat, m: nat) {
    k < |out| && m < |out| && out[k] < |base| && base[out[k]] == Some(out[m])
  }

  ghost predicate InLevels(base: Bases, heights: seq<nat>, out: seq<nat>)
    requires Falls(base, heights)
  {
    && (forall k :: 0 <= k < |out| ==> out[k] < |base|)
    && (forall j, k :: 0 <= j <= k < |out| ==> DepthOf(base, heights, out[j]) <= DepthOf(base, heights, out[k]))
  }

  ghost predicate InBaseOrder(base: Bases, out: seq<nat>) {
    forall j: nat, k: nat, m: nat, n: nat :: j < k && SitsOn(base, out, j, m) && SitsOn(base, out, k, n) ==> m <= n
  }

  /** Nodes listed level by level, and on each level in the order of what they
      sit on. */
  ghost predicate BreadthFirst(base: Bases, heights: seq<nat>, out: seq<nat>)
    requires Falls(base, heights)
  {
    InLevels(base, heights, out) && InBaseOrder(base, out)
  }

  /** No listed node is more than one level above the n-th. */
  ghost predicate NotAbove(base: Bases, heights: seq<nat>, out: seq<nat>, n: nat)
    requires Falls(base, heights)
  {
    && (forall k :: 0 <= k < |out| ==> out[k] < |base|)
    && (n < |out| ==> forall k :: 0 <= k < |out| ==> DepthOf(base, heights, out[k]) <= DepthOf(base, heights, out[n]) + 1)
  }

  lemma DepthOn(base: Bases, heights: seq<nat>, i: nat, j: nat)
    requires Falls(base, heights) && j < |base| && base[j] == Some(i)
    ensures i < |base| && DepthOf(base, heights, j) == DepthOf(base, heights, i) + 1
  {
  }

  lemma OnBase(base: Bases, out: seq<nat>, n: nat, on: seq<nat>, k: nat)
    requires n < |out| && |out| <= k < |out + on| && forall j: nat :: j in on ==> j < |base| && base[j] == Some(out[n])
    ensures (out + on)[k] < |base| && base[(out + on)[k]] == Some(out[n])
  {
    assert (out + on)[k] in on;
  }

  /** Listing what sits on the n-th keeps the levels in order. */
  lemma LevelsOn(base: Bases, heights: seq<nat>, out: seq<nat>, n: nat, on: seq<nat>)
    requires Falls(base, heights) && n < |out| && InLevels(base, heights, out) && NotAbove(base, heights, out, n)
    requires forall j: nat :: j in on ==> j < |base| && base[j] == Some(out[n])
    ensures InLevels(base, heights, out + on) && NotAbove(base, heights, out + on, n + 1)
  {
    hide Falls, DepthOf;
    var more := out + on;
    forall k | |out| <= k < |more|
      ensures more[k] < |base| && DepthOf(base, heights, more[k]) == DepthOf(base, heights, out[n]) + 1
    {
      OnBase(base, out, n, on, k);
      DepthOn(base, heights, out[n], more[k]);
    }
    assert forall k :: 0 <= k < |out| ==> more[k] == out[k];
  }

  /** What it sat on before comes before the n-th, and of what is added, it is
      the n-th. */
  lemma SatBefore(base: Bases, keep: set<nat>, out: seq<nat>, n: nat, on: seq<nat>, k: nat, m: nat)
    requires n < |out| && ListsAbove(base, keep, out, n) && NoRepeats(out + on) && out[0] < |base| && base[out[0]].None?
    requires forall j: nat :: j in on ==> j < |base| && base[j] == Some(out[n])
    requires SitsOn(base, out + on, k, m)
    ensures if k < |out| then m < n && SitsOn(base, out, k, m) else m == n
  {
    var more := out + on;
    if k < |out| {
      assert more[k] == out[k] && more[m] in out[..n];
      var l :| 0 <= l < n && out[..n][l] == more[m];
      assert more[l] == out[l];
    } else {
      OnBase(base, out, n, on, k);
      assert more[n] == out[n];
    }
  }

  lemma BasesOn(base: Bases, keep: set<nat>, out: seq<nat>, n: nat, on: seq<nat>)
    requires n < |out| && ListsAbove(base, keep, out, n) && NoRepeats(out + on) && out[0] < |base| && base[out[0]].None?
    requires forall j: nat :: j in on ==> j < |base| && base[j] == Some(out[n])
    requires InBaseOrder(base, out)
    ensures InBaseOrder(base, out + on)
  {
    hide ListsAbove, NoRepeats, SitsOn;
    forall j: nat, k: nat, m: nat, l: nat | j < k && SitsOn(base, out + on, j, m) && SitsOn(base, out + on, k, l) ensures m <= l {
      SatBefore(base, keep, out, n, on, j, m);
      SatBefore(base, keep, out, n, on, k, l);
    }
  }

  lemma BreadthOn(base: Bases, heights: seq<nat>, keep: set<nat>, out: seq<nat>, n: nat, on: seq<nat>)
    requires Falls(base, heights) && n < |out| && BreadthFirst(base, heights, out) && NotAbove(base, heights, out, n)
    requires ListsAbove(base, keep, out, n) && NoRepeats(out + on) && out[0] < |base| && base[out[0]].None?
    requires forall j: nat :: j in on ==> j < |base| && base[j] == Some(out[n])
    ensures BreadthFirst(base, heights, out + on) && NotAbove(base, heights, out + on, n + 1)
  {
    hide Falls, ListsAbove, NoRepeats, NotAbove, InLevels, InBaseOrder;
    LevelsOn(base, heights, out, n, on);
    BasesOn(base, keep, out, n, on);
  }

  /** Once what sits on every listed layer is listed, every layer is. */
  lemma {:induction false} AllListed(base: Bases, heights: seq<nat>, keep: set<nat>, bottom: nat, out: seq<nat>, i: nat)
    requires Falls(base, heights) && IsTree(base, keep, bottom) && ListsAbove(base, keep, out, |out|) && bottom in out
    requires i in keep
    ensures i in out
    decreases heights[i]
  {
    assert out[..|out|] == out;
    if base[i].Some? {
      AllListed(base, heights, keep, bottom, out, base[i].value);
    }
  }

  ghost function PlaceOf(all: seq<Layer>, l: Layer): (i: nat)
    requires l in all
    ensures i < |all| && all[i] == l
  {
    var i :| 0 <= i < |all| && all[i] == l;
    i
  }

  ghost function PlacesOf(all: seq<Layer>, list: seq<Layer>): (places: seq<nat>)
    requires forall l :: l in list ==> l in all
    ensures |places| == |list| && forall k :: 0 <= k < |list| ==> places[k] < |all| && all[places[k]] == list[k]
  {
    seq(|list|, k requires 0 <= k < |list| => PlaceOf(all, list[k]))
  }

  /** Lists the tree of layers from its bottom, level by level: every kept layer
      once, those on one level in the order of what they sit on, and those on one
      layer by name. */
  method Order(all: seq<Layer>, base: Bases, layers: seq<Layer>, ghost keep: set<nat>, ghost bottom: nat, ghost heights: seq<nat>)
    returns (out: seq<Layer>, ghost places: seq<nat>)
    requires AreLayers(all) && |base| == |all| && Falls(base, heights) && IsTree(base, keep, bottom) && Linked(all, base, keep, keep)
    requires forall l :: l in layers <==> exists i :: i in keep && all[i] == l
    modifies all
    ensures Linked(all, base, keep, keep)
    ensures IsListed(all, base, bottom, places) && Members(places) == keep && BreadthFirst(base, heights, places)
    ensures |out| == |places| && forall k :: 0 <= k < |out| ==> places[k] < |all| && out[k] == all[places[k]]
  {
    hide Linked, IsListed, ListsAbove, Falls, AreOn, Less, NoRepeatsOf, BreadthFirst, NotAbove;
    var first := FindBottom(all, base, layers, keep, bottom);
    BottomListed(all, base, keep, bottom);
    BottomBreadth(base, heights, keep, bottom);
    out, places := [first], [bottom];
    var i := 0;
    while i < |out|
      invariant i <= |out| == |places| && forall k :: 0 <= k < |out| ==> places[k] < |all| && out[k] == all[places[k]]
      invariant Linked(all, base, keep, keep)
      invariant IsListed(all, base, bottom, places) && ListsAbove(base, keep, places, i)
      invariant BreadthFirst(base, heights, places) && NotAbove(base, heights, places, i)
      invariant |places| <= |keep|
      decreases |keep| - |places|, |out| - i
    {
      ListedFacts(all, base, keep, bottom, places, i);
      var above, on := SortAbove(all, base, keep, out[i], places[i]);
      ListOn(all, base, keep, bottom, places, i, on);
      ListedFacts(all, base, keep, bottom, places + on, i + 1);
      BreadthIsKept(all, base, heights, keep, bottom, places, i, on);
      out, places := out + above, places + on;
      i := i + 1;
    }
    ListedFacts(all, base, keep, bottom, places, i);
    forall j | j in keep ensures j in places {
      AllListed(base, heights, keep, bottom, places, j);
    }
  }

  lemma BottomBreadth(base: Bases, heights: seq<nat>, keep: set<nat>, bottom: nat)
    requires Falls(base, heights) && IsTree(base, keep, bottom)
    ensures BreadthFirst(base, heights, [bottom]) && NotAbove(base, heights, [bottom], 0)
  {
    hide DepthOf;
  }

  lemma BreadthIsKept(all: seq<Layer>, base: Bases, heights: seq<nat>, keep: set<nat>, bottom: nat, places: seq<nat>, n: nat, on: seq<nat>)
    requires Falls(base, heights) && IsTree(base, keep, bottom) && n < |places|
    requires IsListed(all, base, bottom, places) && ListsAbove(base, keep, places, n) && IsListed(all, base, bottom, places + on)
    requires AreOn(all, base, keep, places[n], on)
    requires BreadthFirst(base, heights, places) && NotAbove(base, heights, places, n)
    ensures BreadthFirst(base, heights, places + on) && NotAbove(base, heights, places + on, n + 1)
  {
    hide Falls, ListsAbove, NoRepeats, BreadthFirst, NotAbove, Less;
    BreadthOn(base, heights, keep, places, n, on);
  }

  lemma ListedFacts(all: seq<Layer>, base: Bases, keep: set<nat>, bottom: nat, places: seq<nat>, i: nat)
    requires i <= |places| && IsListed(all, base, bottom, places) && ListsAbove(base, keep, places, i)
    ensures |places| <= |keep| && bottom in places && forall k :: 0 <= k < |places| ==> places[k] in keep && places[k] < |all|
  {
    NoMore(places, keep);
    assert places[0] == bottom;
  }

  lemma BottomListed(all: seq<Layer>, base: Bases, keep: set<nat>, bottom: nat)
    requires |base| == |all| && IsTree(base, keep, bottom)
    ensures IsListed(all, base, bottom, [bottom]) && ListsAbove(base, keep, [bottom], 0)
    ensures |keep| >= 1
  {
    assert |keep - {bottom}| == |keep| - 1;
  }

  lemma BelowOf(all: seq<Layer>, base: Bases, keep: set<nat>, bottom: nat)
    requires |base| == |all| && IsTree(base, keep, bottom) && Linked(all, base, keep, keep)
    ensures forall i :: i in keep ==> i < |all| && (all[i].below == null <==> i == bottom)
    ensures bottom in keep
  {
  }

  /** The layer with none below it. */
  method FindBottom(all: seq<Layer>, base: Bases, layers: seq<Layer>, ghost keep: set<nat>, ghost bottom: nat) returns (first: Layer)
    requires AreLayers(all) && |base| == |all| && IsTree(base, keep, bottom) && Linked(all, base, keep, keep)
    requires forall l :: l in layers <==> exists i :: i in keep && all[i] == l
    ensures first == all[bottom]
  {
    hide Linked, NoRepeatsOf, Closed;
    BelowOf(all, base, keep, bottom);
    assert all[bottom] in layers;
    var found: Layer? := null;
    for k := 0 to |layers|
      invariant found != null ==> found == all[bottom]
      invariant found == null ==> forall m :: 0 <= m < k ==> layers[m].below != null
    {
      assert layers[k] in layers;
      if layers[k].below == null { found := layers[k]; }
    }
    first := found;
  }

  lemma NoMore(places: seq<nat>, keep: set<nat>)
    requires NoRepeats(places) && forall k :: 0 <= k < |places| ==> places[k] in keep
    ensures |places| <= |keep|
  {
    CountMembers(places);
    Fewer(Members(places), keep);
  }

  lemma {:induction false} CountMembers(places: seq<nat>)
    requires NoRepeats(places)
    ensures |Members(places)| == |places|
  {
    if places != [] {
      var front, last := places[..|places| - 1], places[|places| - 1];
      CountMembers(front);
      assert places == front + [last];
      assert Members(places) == Members(front) + {last} && last !in Members(front);
    }
  }

  /** Sorts what sits on one layer, in place. */
  method SortAbove(all: seq<Layer>, base: Bases, ghost keep: set<nat>, l: Layer, ghost i: nat) returns (above: seq<Layer>, ghost on: seq<nat>)
    requires AreLayers(all) && |base| == |all| && Closed(base, keep)
    requires Linked(all, base, keep, keep) && i in keep && l == all[i]
    modifies all
    ensures Linked(all, base, keep, keep) && AreOn(all, base, keep, i, on)
    ensures |above| == |on| && forall k :: 0 <= k < |on| ==> on[k] < |all| && above[k] == all[on[k]]
  {
    hide Less, AreLinks, ByName, Closed, NoRepeatsOf;
    ghost var belows, aboves := Belows(all), Aboves(all);
    Above(all, base, keep, belows, aboves, i);
    above := SortByName(l.above);
    StillLinked(all, base, keep, belows, aboves, i, above);
    l.above := above;
    Apart(all);
    assert Belows(all) == belows && Aboves(all) == aboves[i := above];
    on := PlacesOf(all, above);
    OnIs(all, base, keep, i, above, on);
  }

  lemma Apart(all: seq<Layer>)
    requires AreLayers(all)
    ensures forall i, j :: 0 <= i < |all| && 0 <= j < |all| && all[i] == all[j] ==> i == j
  {
  }

  lemma Above(all: seq<Layer>, base: Bases, keep: set<nat>, belows: seq<Layer?>, aboves: seq<seq<Layer>>, i: nat)
    requires AreLinks(all, base, keep, keep, belows, aboves) && i in keep
    ensures i < |all| && NoRepeatsOf(aboves[i]) && Closed(base, keep)
    ensures forall l :: l in aboves[i] ==> exists j :: j in keep && base[j] == Some(i) && l == all[j]
    ensures forall j :: j in keep && base[j] == Some(i) ==> all[j] in aboves[i]
    ensures forall l :: l in aboves[i] ==> l in all
  {
    hide NoRepeatsOf;
  }

  /** Sorting what sits on one layer leaves every link in place. */
  lemma StillLinked(all: seq<Layer>, base: Bases, keep: set<nat>, belows: seq<Layer?>, aboves: seq<seq<Layer>>, i: nat, above: seq<Layer>)
    requires AreLinks(all, base, keep, keep, belows, aboves) && i in keep && i < |all|
    requires NoRepeatsOf(above) && forall l :: l in above <==> l in aboves[i]
    ensures AreLinks(all, base, keep, keep, belows, aboves[i := above])
  {
    hide NoRepeatsOf;
  }

  lemma OnIs(all: seq<Layer>, base: Bases, keep: set<nat>, i: nat, above: seq<Layer>, on: seq<nat>)
    requires AreLayers(all) && |base| == |all| && Closed(base, keep) && ByName(above) && NoRepeatsOf(above)
    requires forall l :: l in above ==> exists j :: j in keep && base[j] == Some(i) && l == all[j]
    requires forall j :: j in keep && base[j] == Some(i) ==> all[j] in above
    requires |on| == |above| && forall k :: 0 <= k < |on| ==> on[k] < |all| && all[on[k]] == above[k]
    ensures AreOn(all, base, keep, i, on)
  {
    hide Less;
    forall j: nat | j in keep && base[j] == Some(i) ensures j in on {
      var k :| 0 <= k < |above| && above[k] == all[j];
      assert all[on[k]] == all[j];
    }
    forall j: nat | j in on ensures j in keep && base[j] == Some(i) {
      var k :| 0 <= k < |on| && on[k] == j;
      assert above[k] in above;
      var m :| m in keep && base[m] == Some(i) && above[k] == all[m];
      assert m == j;
    }
  }

  // Capture.

  /** The nodes a capture keeps: those joined to the first through the bases, or
      the first and what it is on. */
  ghost predicate IsKept(base: Bases, heights: seq<nat>, whole: bool, i: nat)
    requires Falls(base, heights) && |base| > 0
  {
    if whole then i < |base| && RootOf(base, heights, i) == RootOf(base, heights, 0) else IsUnder(base, heights, 0, i)
  }

  /** Reads the family of the first layer: one tree with one bottom, every kept
      layer once, level by level. */
  method Capture(all: seq<Layer>, whens: seq<int>, contains: Contains, whole: bool)
    returns (layers: seq<Layer>, ghost nest: Nesting, ghost places: seq<nat>)
    requires AreLayers(all) && |whens| == |all| > 0 && IsStrictOrder(contains)
    requires forall l :: l in all ==> l.below == null && l.above == []
    modifies all
    ensures |nest.parent| == |nest.base| == |all|
    ensures forall i :: 0 <= i < |all| ==> IsBase(NodesOf(all, whens), contains, nest.parent, i, nest.base[i])
    ensures Falls(nest.base, Heights(NodesOf(all, whens), contains))
    ensures forall i: nat :: i in places <==> IsKept(nest.base, Heights(NodesOf(all, whens), contains), whole, i)
    ensures IsListed(all, nest.base, RootOf(nest.base, Heights(NodesOf(all, whens), contains), 0), places)
    ensures BreadthFirst(nest.base, Heights(NodesOf(all, whens), contains), places)
    ensures |layers| == |places| && forall k :: 0 <= k < |layers| ==> places[k] < |all| && layers[k] == all[places[k]]
    ensures Linked(all, nest.base, Members(places), Members(places))
  {
    hide AreLinks, IsListed, Falls, IsBase, IsParent, Less, AreLayers, IsStrictOrder, Closed, BreadthFirst;
    var nodes := seq(|all|, i requires 0 <= i < |all| => Node(all[i].name, all[i].head, whens[i]));
    assert nodes == NodesOf(all, whens);
    var nested := NestNodes(nodes, contains);
    nest := nested;
    ghost var heights := Heights(nodes, contains);
    NestFalls(nodes, contains, nested);
    var base := nested.base;
    var keep: seq<nat>;
    if whole { keep := Connected(base, heights); } else { keep := Chain(base, heights); }
    ghost var bottom := RootOf(base, heights, 0);
    KeepFits(base, keep, bottom);
    Link(all, base, keep, bottom, heights);
    var kept := LayersAt(all, keep);
    KeptLayers(all, keep);
    layers, places := Order(all, base, kept, Members(keep), bottom, heights);
    assert forall i: nat :: i in places <==> i in Members(places);
  }

  function LayersAt(all: seq<Layer>, keep: seq<nat>): (layers: seq<Layer>)
    requires forall n :: 0 <= n < |keep| ==> keep[n] < |all|
    ensures |layers| == |keep| && forall n :: 0 <= n < |keep| ==> layers[n] == all[keep[n]]
  {
    seq(|keep|, n requires 0 <= n < |keep| => all[keep[n]])
  }

  ghost function NodesOf(all: seq<Layer>, whens: seq<int>): (nodes: seq<Node>)
    requires |whens| == |all|
    ensures |nodes| == |all|
  {
    seq(|all|, i requires 0 <= i < |all| => Node(all[i].name, all[i].head, whens[i]))
  }

  lemma NestFalls(nodes: seq<Node>, contains: Contains, nest: Nesting)
    requires IsStrictOrder(contains) && |nest.parent| == |nodes| == |nest.base|
    requires forall i :: 0 <= i < |nodes| ==> IsBase(nodes, contains, nest.parent, i, nest.base[i])
    ensures Falls(nest.base, Heights(nodes, contains))
  {
    hide IsBase, IsStrictOrder;
    forall i | 0 <= i < |nodes| && nest.base[i].Some?
      ensures nest.base[i].value < |nodes| && Heights(nodes, contains)[nest.base[i].value] < Heights(nodes, contains)[i]
    {
      BasesFall(nodes, contains, nest, i);
    }
  }

  lemma KeepFits(base: Bases, keep: seq<nat>, bottom: nat)
    requires IsTree(base, Members(keep), bottom)
    ensures forall n :: 0 <= n < |keep| ==> keep[n] < |base|
    ensures forall i: nat :: i in Members(keep) ==> i < |base|
  {
    forall n | 0 <= n < |keep| ensures keep[n] < |base| {
      assert keep[n] in Members(keep);
    }
  }

  lemma KeptLayers(all: seq<Layer>, keep: seq<nat>)
    requires forall n :: 0 <= n < |keep| ==> keep[n] < |all|
    ensures forall i: nat :: i in Members(keep) ==> i < |all|
    ensures forall l :: l in LayersAt(all, keep) <==> exists i: nat :: i in Members(keep) && all[i] == l
  {
    var kept := LayersAt(all, keep);
    forall i: nat | i in Members(keep) ensures i < |all| && all[i] in kept {
      var n :| 0 <= n < |keep| && keep[n] == i;
      assert kept[n] == all[i];
    }
    forall l | l in kept ensures exists i: nat :: i in Members(keep) && all[i] == l {
      var n :| 0 <= n < |kept| && kept[n] == l;
      assert keep[n] in Members(keep);
    }
  }
}
