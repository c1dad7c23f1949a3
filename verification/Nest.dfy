/** How heads stack (rebase/snapshot.go): each node under the nearest head that
    strictly contains its own, and on the nearest its own strictly contains. */
module Nest {
  import opened Wrappers
  import opened Strings
  import opened CommitGraph

  /** A head to be nested, its time, and a name to tell equals apart. */
  datatype Node = Node(name: string, head: string, when_: int)

  type Contains = (string, string) -> bool

  /** Containment is a strict partial order, as ancestry is. */
  ghost predicate IsStrictOrder(contains: Contains) {
    && (forall a :: !contains(a, a))
    && (forall a, b, c :: contains(a, b) && contains(b, c) ==> contains(a, c))
  }

  /** Ancestry in a graph whose commits come after their parents is one. */
  lemma AncestryIsStrictOrder(g: Graph, rank: map<string, nat>, contains: Contains)
    requires forall c, p :: IsStep(g, c, p) ==> c in rank && p in rank && rank[p] < rank[c]
    requires forall a, b :: contains(a, b) <==> IsStrictAncestor(g, b, a)
    ensures IsStrictOrder(contains)
  {
    hide Reaches;
    forall a, b, c | contains(a, b) && contains(b, c) ensures contains(a, c) {
      ReachesOn(g, a, b, c);
      RankFalls(g, rank, a, b);
      RankFalls(g, rank, b, c);
    }
  }

  lemma RankFalls(g: Graph, rank: map<string, nat>, from: string, to: string)
    requires forall c, p :: IsStep(g, c, p) ==> c in rank && p in rank && rank[p] < rank[c]
    requires from != to && Reaches(g, from, to)
    ensures from in rank && to in rank && rank[to] < rank[from]
  {
    var path :| IsPath(g, path) && path[0] == from && path[|path| - 1] == to;
    for i := 1 to |path|
      invariant i > 1 ==> path[0] in rank && path[i - 1] in rank && rank[path[i - 1]] < rank[path[0]]
    {
      assert IsStep(g, path[i - 1], path[i]);
    }
  }

  /** One of two different nodes has the other's head below its own. */
  predicate In(nodes: seq<Node>, contains: Contains, i: nat, j: nat)
    requires i < |nodes| && j < |nodes|
  {
    i != j && contains(nodes[i].head, nodes[j].head)
  }

  /** One node is on another with none between. */
  ghost predicate Covers(nodes: seq<Node>, contains: Contains, i: nat, j: nat)
    requires i < |nodes| && j < |nodes|
  {
    In(nodes, contains, i, j) && forall k :: 0 <= k < |nodes| ==> !(In(nodes, contains, i, k) && In(nodes, contains, k, j))
  }

  ghost predicate Near(nodes: seq<Node>, contains: Contains, i: nat, above: bool, j: nat)
    requires i < |nodes| && j < |nodes|
  {
    if above then Covers(nodes, contains, j, i) else Covers(nodes, contains, i, j)
  }

  /** The latest commit first, and names in order among those at one time. */
  predicate Before(a: Node, b: Node) {
    a.when_ > b.when_ || (a.when_ == b.when_ && Less(a.name, b.name))
  }

  /** sort.SliceStable: no node after one it should be before. */
  ghost predicate InOrder(nodes: seq<Node>, list: seq<nat>) {
    && (forall i :: 0 <= i < |list| ==> list[i] < |nodes|)
    && forall i, j :: 0 <= i < j < |list| ==> !Before(nodes[list[j]], nodes[list[i]])
  }

  /** So the latest commit is first, and at one time the lower name. */
  lemma LatestFirst(nodes: seq<Node>, list: seq<nat>, i: nat, j: nat)
    requires InOrder(nodes, list) && i < j < |list|
    ensures var a, b := nodes[list[i]], nodes[list[j]];
            a.when_ >= b.when_ && (a.when_ == b.when_ && a.name != b.name ==> Less(a.name, b.name))
  {
    LessTotal(nodes[list[i]].name, nodes[list[j]].name);
  }

  lemma BeforeTrans(a: Node, b: Node, c: Node)
    requires !Before(b, a) && !Before(c, b)
    ensures !Before(c, a)
  {
    LessTotal(a.name, b.name);
    LessTotal(b.name, c.name);
    if Less(a.name, b.name) && Less(b.name, c.name) { LessTransitive(a.name, b.name, c.name); }
    if Less(c.name, a.name) && Less(a.name, b.name) { LessTransitive(c.name, a.name, b.name); }
    if Less(c.name, a.name) && Less(b.name, c.name) { LessTransitive(b.name, c.name, a.name); }
  }

  method SortByTime(nodes: seq<Node>, list: seq<nat>) returns (sorted: seq<nat>)
    requires forall i :: 0 <= i < |list| ==> list[i] < |nodes|
    ensures InOrder(nodes, sorted) && forall x: nat :: x in sorted <==> x in list
  {
    hide Before;
    sorted := [];
    for i := 0 to |list|
      invariant InOrder(nodes, sorted) && forall x: nat :: x in sorted <==> x in list[..i]
    {
      sorted := Insert(nodes, sorted, list[i]);
      assert list[..i + 1] == list[..i] + [list[i]];
    }
    assert list[..|list|] == list;
  }

  method Insert(nodes: seq<Node>, sorted: seq<nat>, x: nat) returns (more: seq<nat>)
    requires InOrder(nodes, sorted) && x < |nodes|
    ensures InOrder(nodes, more) && forall y: nat :: y in more <==> y in sorted || y == x
  {
    var at := |sorted|;
    while at > 0 && Before(nodes[x], nodes[sorted[at - 1]])
      invariant 0 <= at <= |sorted|
      invariant forall i :: at <= i < |sorted| ==> Before(nodes[x], nodes[sorted[i]])
    {
      at := at - 1;
    }
    more := sorted[..at] + [x] + sorted[at..];
    forall i | 0 <= i < at ensures !Before(nodes[x], nodes[sorted[i]]) {
      if i < at - 1 { BeforeTrans(nodes[sorted[i]], nodes[sorted[at - 1]], nodes[x]); }
    }
    forall i | at <= i < |sorted| ensures !Before(nodes[sorted[i]], nodes[x]) {
      NotBoth(nodes[x], nodes[sorted[i]]);
    }
    InsertedInOrder(nodes, sorted, at, x);
    assert forall y: nat :: y in sorted <==> y in sorted[..at] || y in sorted[at..] by { assert sorted == sorted[..at] + sorted[at..]; }
  }

  lemma NotBoth(a: Node, b: Node)
    requires Before(a, b)
    ensures !Before(b, a)
  {
    if a.when_ == b.when_ && Less(b.name, a.name) {
      LessTransitive(a.name, b.name, a.name);
      LessIrreflexive(a.name);
    }
  }

  lemma InsertedInOrder(nodes: seq<Node>, sorted: seq<nat>, at: nat, x: nat)
    requires InOrder(nodes, sorted) && x < |nodes| && at <= |sorted|
    requires forall i :: 0 <= i < at ==> !Before(nodes[x], nodes[sorted[i]])
    requires forall i :: at <= i < |sorted| ==> !Before(nodes[sorted[i]], nodes[x])
    ensures InOrder(nodes, sorted[..at] + [x] + sorted[at..])
  {
    hide Before;
    var more := sorted[..at] + [x] + sorted[at..];
    assert forall i :: 0 <= i < at ==> more[i] == sorted[i];
    assert forall i :: at < i < |more| ==> more[i] == sorted[i - 1];
  }

  /** The nodes next above one, or next below it, newest first. */
  method Nearest(nodes: seq<Node>, contains: Contains, i: nat, above: bool) returns (near: seq<nat>)
    requires i < |nodes|
    ensures InOrder(nodes, near)
    ensures forall j: nat :: j in near <==> j < |nodes| && Near(nodes, contains, i, above, j)
  {
    hide Before, In;
    var found: seq<nat> := [];
    for j := 0 to |nodes|
      invariant forall x: nat :: x in found <==> x < j && Near(nodes, contains, i, above, x)
      invariant forall m :: 0 <= m < |found| ==> found[m] < |nodes|
    {
      var outer, inner := if above then j else i, if above then i else j;
      if In(nodes, contains, outer, inner) {
        var between := false;
        for k := 0 to |nodes|
          invariant between <==> exists m :: 0 <= m < k && In(nodes, contains, outer, m) && In(nodes, contains, m, inner)
        {
          between := between || (In(nodes, contains, outer, k) && In(nodes, contains, k, inner));
        }
        if !between { found := found + [j]; }
      }
    }
    near := SortByTime(nodes, found);
  }

  /** How nodes stack. Parent and base are None for a node none contains, or
      that contains none. */
  datatype Nesting = Nesting(parent: seq<Option<nat>>, base: seq<Option<nat>>, inside: seq<seq<nat>>)

  ghost predicate IsParent(nodes: seq<Node>, contains: Contains, i: nat, parent: Option<nat>)
    requires i < |nodes|
  {
    match parent
    case None => forall j :: 0 <= j < |nodes| ==> !In(nodes, contains, j, i)
    case Some(p) =>
      && p < |nodes| && Covers(nodes, contains, p, i)
      && forall j :: 0 <= j < |nodes| && Covers(nodes, contains, j, i) ==> !Before(nodes[j], nodes[p])
  }

  ghost predicate IsBase(nodes: seq<Node>, contains: Contains, parent: seq<Option<nat>>, i: nat, base: Option<nat>)
    requires i < |nodes| == |parent|
  {
    match base
    case None => forall j :: 0 <= j < |nodes| ==> !In(nodes, contains, i, j)
    case Some(b) =>
      && b < |nodes| && Covers(nodes, contains, i, b)
      && (parent[b] != Some(i) ==> forall j :: 0 <= j < |nodes| && Covers(nodes, contains, i, j) ==> parent[j] != Some(i))
      && forall j :: 0 <= j < |nodes| && Covers(nodes, contains, i, j) && (parent[b] == Some(i) ==> parent[j] == Some(i)) ==>
           !Before(nodes[j], nodes[b])
  }

  /** What a node contains, it contains something next to it. */
  lemma {:induction false} SomethingNext(nodes: seq<Node>, contains: Contains, i: nat, j: nat, left: set<nat>) returns (k: nat)
    requires IsStrictOrder(contains) && i < |nodes| && j < |nodes| && In(nodes, contains, i, j)
    requires forall m: nat :: m < |nodes| && In(nodes, contains, i, m) && In(nodes, contains, m, j) ==> m in left
    ensures k < |nodes| && Covers(nodes, contains, i, k) && (k == j || In(nodes, contains, k, j))
    decreases |left|
  {
    if m: nat :| m < |nodes| && In(nodes, contains, i, m) && In(nodes, contains, m, j) {
      assert forall x: nat :: x < |nodes| && In(nodes, contains, i, x) && In(nodes, contains, x, m) ==> x in left - {m};
      k := SomethingNext(nodes, contains, i, m, left - {m});
      assert contains(nodes[k].head, nodes[j].head);
    } else {
      k := j;
    }
  }

  lemma {:induction false} SomethingOver(nodes: seq<Node>, contains: Contains, i: nat, j: nat, left: set<nat>) returns (k: nat)
    requires IsStrictOrder(contains) && i < |nodes| && j < |nodes| && In(nodes, contains, j, i)
    requires forall m: nat :: m < |nodes| && In(nodes, contains, j, m) && In(nodes, contains, m, i) ==> m in left
    ensures k < |nodes| && Covers(nodes, contains, k, i)
    decreases |left|
  {
    if m: nat :| m < |nodes| && In(nodes, contains, j, m) && In(nodes, contains, m, i) {
      assert forall x: nat :: x < |nodes| && In(nodes, contains, m, x) && In(nodes, contains, x, i) ==> x in left - {m};
      k := SomethingOver(nodes, contains, i, m, left - {m});
    } else {
      k := j;
    }
  }

  ghost function Places(n: nat): (s: set<nat>)
    ensures forall i: nat :: i in s <==> i < n
  {
    if n == 0 then {} else Places(n - 1) + {n - 1}
  }

  /** The nodes a node is inside, in the order given. */
  ghost predicate IsInside(nodes: seq<Node>, contains: Contains, i: nat, outer: seq<nat>)
    requires i < |nodes|
  {
    && (forall j: nat :: j in outer <==> j < |nodes| && In(nodes, contains, j, i))
    && (forall a, b :: 0 <= a < b < |outer| ==> outer[a] < outer[b])
  }

  method Insides(nodes: seq<Node>, contains: Contains) returns (inside: seq<seq<nat>>)
    ensures |inside| == |nodes|
    ensures forall i :: 0 <= i < |nodes| ==> IsInside(nodes, contains, i, inside[i])
  {
    inside := [];
    for i := 0 to |nodes|
      invariant |inside| == i && forall j :: 0 <= j < i ==> IsInside(nodes, contains, j, inside[j])
    {
      var outer: seq<nat> := [];
      for j := 0 to |nodes|
        invariant forall k: nat :: k in outer <==> k < j && In(nodes, contains, k, i)
        invariant forall a, b :: 0 <= a < b < |outer| ==> outer[a] < outer[b]
      {
        if In(nodes, contains, j, i) {
          assert forall a :: 0 <= a < |outer| ==> outer[a] in outer;
          outer := outer + [j];
        }
      }
      inside := inside + [outer];
    }
  }

  method NestNodes(nodes: seq<Node>, contains: Contains) returns (nest: Nesting)
    requires IsStrictOrder(contains)
    ensures |nest.parent| == |nest.base| == |nest.inside| == |nodes|
    ensures forall i :: 0 <= i < |nodes| ==> IsInside(nodes, contains, i, nest.inside[i])
    ensures forall i :: 0 <= i < |nodes| ==> IsParent(nodes, contains, i, nest.parent[i])
    ensures forall i :: 0 <= i < |nodes| ==> IsBase(nodes, contains, nest.parent, i, nest.base[i])
  {
    hide IsStrictOrder, In, Before, Covers, IsParent, IsBase, IsInside;
    var inside := Insides(nodes, contains);
    var parent: seq<Option<nat>> := [];
    for i := 0 to |nodes|
      invariant |parent| == i && forall j :: 0 <= j < i ==> IsParent(nodes, contains, j, parent[j])
    {
      var above := Nearest(nodes, contains, i, true);
      var p := if above == [] then None else Some(above[0]);
      FirstIsParent(nodes, contains, i, above);
      parent := parent + [p];
    }
    var base: seq<Option<nat>> := [];
    for i := 0 to |nodes|
      invariant |base| == i && forall j :: 0 <= j < i ==> IsBase(nodes, contains, parent, j, base[j])
    {
      var below := Nearest(nodes, contains, i, false);
      var b: Option<nat> := None;
      for k := 0 to |below|
        invariant b.Some? ==> FirstUnder(below, parent, i, b.value)
        invariant b.None? ==> forall m :: 0 <= m < k ==> below[m] < |parent| && parent[below[m]] != Some(i)
      {
        assert below[k] in below;
        if b.None? && parent[below[k]] == Some(i) { b := Some(below[k]); }
      }
      if b.None? && below != [] { b := Some(below[0]); }
      FirstIsBase(nodes, contains, parent, i, below, b);
      base := base + [b];
    }
    nest := Nesting(parent, base, inside);
  }

  ghost predicate FirstUnder(below: seq<nat>, parent: seq<Option<nat>>, i: nat, b: nat) {
    exists k :: 0 <= k < |below| && below[k] == b && b < |parent| && parent[b] == Some(i)
                && forall m :: 0 <= m < k ==> below[m] < |parent| && parent[below[m]] != Some(i)
  }

  lemma FirstIsParent(nodes: seq<Node>, contains: Contains, i: nat, above: seq<nat>)
    requires IsStrictOrder(contains) && i < |nodes| && InOrder(nodes, above)
    requires forall j: nat :: j in above <==> j < |nodes| && Covers(nodes, contains, j, i)
    ensures IsParent(nodes, contains, i, if above == [] then None else Some(above[0]))
  {
    hide IsStrictOrder, In, Before, Covers;
    forall j | 0 <= j < |nodes| && In(nodes, contains, j, i) ensures above != [] {
      var k := SomethingOver(nodes, contains, i, j, Places(|nodes|));
      assert k in above;
    }
    if above != [] {
      assert above[0] in above;
      forall j | 0 <= j < |nodes| && Covers(nodes, contains, j, i) ensures !Before(nodes[j], nodes[above[0]]) {
        assert j in above;
        var m :| 0 <= m < |above| && above[m] == j;
        NotBeforeSelf(nodes[above[0]]);
      }
    }
  }

  lemma NotBeforeSelf(a: Node)
    ensures !Before(a, a)
  {
    LessIrreflexive(a.name);
  }

  lemma FirstIsBase(nodes: seq<Node>, contains: Contains, parent: seq<Option<nat>>, i: nat, below: seq<nat>, b: Option<nat>)
    requires IsStrictOrder(contains) && i < |nodes| == |parent| && InOrder(nodes, below)
    requires forall j: nat :: j in below <==> j < |nodes| && Covers(nodes, contains, i, j)
    requires b.None? <==> below == []
    requires b.Some? ==> FirstUnder(below, parent, i, b.value)
                         || (b.value == below[0] && forall m :: 0 <= m < |below| ==> parent[below[m]] != Some(i))
    ensures IsBase(nodes, contains, parent, i, b)
  {
    hide IsStrictOrder, In, Before, Covers;
    forall j | 0 <= j < |nodes| && In(nodes, contains, i, j) ensures below != [] {
      var k := SomethingNext(nodes, contains, i, j, Places(|nodes|));
      assert k in below;
    }
    if b.Some? {
      assert below[0] in below && b.value in below;
      forall j | 0 <= j < |nodes| && Covers(nodes, contains, i, j) && (parent[b.value] == Some(i) ==> parent[j] == Some(i))
        ensures !Before(nodes[j], nodes[b.value])
      {
        assert j in below;
        var m :| 0 <= m < |below| && below[m] == j;
        NotBeforeSelf(nodes[j]);
      }
      forall j | 0 <= j < |nodes| && Covers(nodes, contains, i, j) && parent[b.value] != Some(i) ensures parent[j] != Some(i) {
        assert j in below;
      }
    }
  }

  // The bases are a forest.

  ghost function Held(nodes: seq<Node>, contains: Contains, i: nat): (held: set<nat>)
    requires i < |nodes|
    ensures forall j: nat :: j in held <==> j < |nodes| && In(nodes, contains, i, j)
  {
    set j | j in Places(|nodes|) && In(nodes, contains, i, j)
  }

  /** How many nodes each contains, which falls from a node to its base. */
  ghost function Heights(nodes: seq<Node>, contains: Contains): (heights: seq<nat>)
    ensures |heights| == |nodes| && forall i :: 0 <= i < |nodes| ==> heights[i] == |Held(nodes, contains, i)|
  {
    seq(|nodes|, i requires 0 <= i < |nodes| => |Held(nodes, contains, i)|)
  }

  /** Following bases never comes back to a node: the bases make a forest. */
  lemma BasesFall(nodes: seq<Node>, contains: Contains, nest: Nesting, i: nat)
    requires IsStrictOrder(contains) && |nest.parent| == |nodes| == |nest.base| && i < |nodes|
    requires IsBase(nodes, contains, nest.parent, i, nest.base[i])
    ensures nest.base[i].Some? ==>
              nest.base[i].value < |nodes| && Heights(nodes, contains)[nest.base[i].value] < Heights(nodes, contains)[i]
  {
    if nest.base[i].Some? {
      var b := nest.base[i].value;
      assert Held(nodes, contains, b) <= Held(nodes, contains, i) - {b};
      Fewer(Held(nodes, contains, b), Held(nodes, contains, i) - {b});
    }
  }

  lemma Fewer(a: set<nat>, b: set<nat>)
    requires a <= b
    ensures |a| <= |b|
  {
    assert |b - a| == |b| - |a|;
  }
}
