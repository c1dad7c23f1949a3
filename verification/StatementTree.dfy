/** The document being rebuilt from keys and values (attest/text.go): treeNode
    and its two methods, and what they mean for leaves. */
module StatementTree {
  import opened Wrappers
  import opened Decimal
  import opened StatementDoc

  /** What a treeNode holds: a value, or what is beneath it. */
  datatype Node = Value(value: string) | Under(kids: map<string, Node>)

  ghost function NodeLeaf(n: Node, at: seq<string>): Option<string>
    decreases |at|
  {
    match n
    case Value(s) => if at == [] then Some(s) else None
    case Under(kids) => if at != [] && at[0] in kids then NodeLeaf(kids[at[0]], at[1..]) else None
  }

  ghost function KidOf(kids: map<string, Node>, head: string): Node {
    if head in kids then kids[head] else Under(map[])
  }

  /** The tree once a value is put at a path, if none is there, above or below. */
  ghost function Inserted(n: Node, at: seq<string>, value: string): Option<Node>
    requires at != []
    decreases |at|
  {
    if n.Value? then None
    else
      var child := KidOf(n.kids, at[0]);
      if |at| == 1 then
        if child == Under(map[]) then Some(Under(n.kids[at[0] := Value(value)])) else None
      else
        match Inserted(child, at[1..], value)
        case None => None
        case Some(grown) => Some(Under(n.kids[at[0] := grown]))
  }

  /** No node holds nothing. */
  ghost predicate Solid(n: Node) {
    n.Under? ==> n.kids != map[] && forall k :: k in n.kids ==> Solid(n.kids[k])
  }

  ghost predicate SolidOrEmpty(n: Node) {
    n == Under(map[]) || Solid(n)
  }

  /** Paths of which one is, or is above, the other. */
  ghost predicate Clash(p: seq<string>, q: seq<string>) {
    p <= q || q <= p
  }

  lemma {:induction false} SolidHasLeaf(n: Node)
    requires Solid(n)
    ensures exists at :: NodeLeaf(n, at).Some?
  {
    if n.Value? {
      assert NodeLeaf(n, []).Some?;
    } else {
      var k :| k in n.kids;
      SolidHasLeaf(n.kids[k]);
      var at :| NodeLeaf(n.kids[k], at).Some?;
      assert ([k] + at)[1..] == at;
      assert NodeLeaf(n, [k] + at).Some?;
    }
  }

  /** Putting a value in adds that leaf and changes no other. */
  lemma {:induction false} InsertedLeaf(n: Node, at: seq<string>, value: string, p: seq<string>)
    requires at != [] && Inserted(n, at, value).Some?
    ensures NodeLeaf(Inserted(n, at, value).value, p) == if p == at then Some(value) else NodeLeaf(n, p)
    decreases |at|
  {
    var child := KidOf(n.kids, at[0]);
    if p != [] && p[0] == at[0] {
      assert p == [p[0]] + p[1..] && at == [at[0]] + at[1..];
      assert at[0] !in n.kids ==> NodeLeaf(n, p) == NodeLeaf(child, p[1..]) == None;
      if |at| > 1 { InsertedLeaf(child, at[1..], value, p[1..]); }
    }
  }

  /** A refusal is for a leaf that is at, above or below the new one. */
  lemma {:induction false} RefusedByLeaf(n: Node, at: seq<string>, value: string) returns (p: seq<string>)
    requires at != [] && SolidOrEmpty(n) && Inserted(n, at, value).None?
    ensures NodeLeaf(n, p).Some? && Clash(p, at)
    decreases |at|
  {
    if n.Value? {
      p := [];
    } else {
      var child := KidOf(n.kids, at[0]);
      var below: seq<string>;
      if |at| == 1 {
        SolidHasLeaf(child);
        below :| NodeLeaf(child, below).Some?;
      } else {
        below := RefusedByLeaf(child, at[1..], value);
      }
      p := [at[0]] + below;
      assert p[1..] == below && at == [at[0]] + at[1..];
      assert at[0] in n.kids;
    }
  }

  lemma {:induction false} InsertedSolid(n: Node, at: seq<string>, value: string)
    requires at != [] && SolidOrEmpty(n) && Inserted(n, at, value).Some?
    ensures Solid(Inserted(n, at, value).value)
    decreases |at|
  {
    if |at| > 1 { InsertedSolid(KidOf(n.kids, at[0]), at[1..], value); }
    assert at[0] in Inserted(n, at, value).value.kids;
  }

  // What document makes of a tree.

  ghost predicate NamesFit(n: Node) {
    n.Under? ==> forall k :: k in n.kids ==> KeyOrIndexFits(k) && NamesFit(n.kids[k])
  }

  lemma {:induction false} InsertedNamesFit(n: Node, at: seq<string>, value: string)
    requires at != [] && NamesFit(n) && KeysFit(at) && Inserted(n, at, value).Some?
    ensures NamesFit(Inserted(n, at, value).value)
    decreases |at|
  {
    hide KeyOrIndexFits;
    assert at[0] in at;
    if |at| > 1 {
      assert forall s :: s in at[1..] ==> s in at;
      InsertedNamesFit(KidOf(n.kids, at[0]), at[1..], value);
    }
  }

  predicate IsIndex(s: string) {
    s != "" && IsDigit(s[0])
  }

  ghost predicate Dense(kids: map<string, Node>) {
    forall i :: 0 <= i < |kids| ==> Itoa(i) in kids
  }

  /** A value is a string, indices from 0 with no gaps an array, and names an
      object; a mixture or a gap is nothing. */
  ghost function DocOf(n: Node): Option<Doc>
    decreases n, 1
  {
    if n.Value? then Some(Str(n.value))
    else if exists k :: k in n.kids && DocOf(n.kids[k]).None? then None
    else if forall k :: k in n.kids ==> !IsIndex(k) then Some(Obj(FieldsOf(n)))
    else if (forall k :: k in n.kids ==> IsIndex(k)) && Dense(n.kids) then Some(Arr(ItemsOf(n)))
    else None
  }

  ghost function FieldsOf(n: Node): (fields: map<string, Doc>)
    requires n.Under? && forall k :: k in n.kids ==> DocOf(n.kids[k]).Some?
    ensures fields.Keys == n.kids.Keys && forall k :: k in fields ==> Some(fields[k]) == DocOf(n.kids[k])
    decreases n, 0
  {
    map k | k in n.kids :: DocOf(n.kids[k]).value
  }

  ghost function ItemsOf(n: Node): (items: seq<Doc>)
    requires n.Under? && Dense(n.kids) && forall k :: k in n.kids ==> DocOf(n.kids[k]).Some?
    ensures |items| == |n.kids| && forall i :: 0 <= i < |items| ==> Some(items[i]) == DocOf(n.kids[Itoa(i)])
    decreases n, 0
  {
    seq(|n.kids|, i requires 0 <= i < |n.kids| => DocOf(n.kids[Itoa(i)]).value)
  }

  lemma KidLeaf(n: Node, k: string, at: seq<string>)
    requires n.Under? && k in n.kids
    ensures NodeLeaf(n, [k] + at) == NodeLeaf(n.kids[k], at)
  {
    assert ([k] + at)[1..] == at;
  }

  lemma FieldLeaf(d: Doc, k: string, at: seq<string>)
    requires d.Obj? && k in d.fields
    ensures LeafAt(d, [k] + at) == LeafAt(d.fields[k], at)
  {
    assert ([k] + at)[1..] == at;
  }

  lemma ItemLeaf(d: Doc, i: nat, at: seq<string>)
    requires d.Arr? && i < |d.items|
    ensures LeafAt(d, [Itoa(i)] + at) == LeafAt(d.items[i], at)
  {
    hide Itoa, Atoi;
    ItoaCanonical(i);
    AtoiItoa(i);
    assert ([Itoa(i)] + at)[1..] == at;
  }

  ghost predicate SameLeaves(n: Node, d: Doc) {
    forall at :: NodeLeaf(n, at) == LeafAt(d, at)
  }

  /** A tree with a writable document's leaves is that document. */
  lemma {:induction false} Rebuilds(n: Node, d: Doc)
    requires Solid(n) && Writable(d) && SameLeaves(n, d)
    ensures DocOf(n) == Some(d)
    decreases d
  {
    hide SegmentFits, ValueFits, Canonical, SameLeaves, NodeLeaf, LeafAt, Writable, Solid, Itoa, DocOf;
    Parts(n, d);
    if d.Str? {
      StringRebuilds(n, d);
    } else if d.Obj? {
      FieldsAreKids(n, d);
      forall k | k in d.fields ensures DocOf(n.kids[k]) == Some(d.fields[k]) {
        FieldLeavesSame(n, d, k);
        Rebuilds(n.kids[k], d.fields[k]);
      }
      ObjectRebuilds(n, d);
    } else {
      ItemsAreKids(n, d);
      forall i | 0 <= i < |d.items| ensures Itoa(i) in n.kids && DocOf(n.kids[Itoa(i)]) == Some(d.items[i]) {
        assert Itoa(i) in Indices(|d.items|);
        ItemLeavesSame(n, d, i);
        Rebuilds(n.kids[Itoa(i)], d.items[i]);
      }
      ArrayRebuilds(n, d);
    }
  }

  lemma StringRebuilds(n: Node, d: Doc)
    requires d.Str? && SameLeaves(n, d)
    ensures DocOf(n) == Some(d)
  {
    assert NodeLeaf(n, []) == LeafAt(d, []);
  }

  lemma Parts(n: Node, d: Doc)
    ensures Solid(n) && n.Under? ==> forall k :: k in n.kids ==> Solid(n.kids[k])
    ensures Writable(d) && d.Obj? ==> forall k :: k in d.fields ==> SegmentFits(k) && Writable(d.fields[k])
    ensures Writable(d) && d.Arr? ==> d.items != [] && forall i :: 0 <= i < |d.items| ==> Writable(d.items[i])
    ensures Writable(d) ==> d.Str? || d.Obj? || d.Arr?
  {
  }

  lemma NotAValue(n: Node, d: Doc)
    requires !d.Str? && SameLeaves(n, d)
    ensures n.Under?
  {
    assert NodeLeaf(n, []) == LeafAt(d, []);
  }

  lemma FieldsAreKids(n: Node, d: Doc)
    requires d.Obj? && Solid(n) && Writable(d) && SameLeaves(n, d)
    ensures n.Under? && n.kids.Keys == d.fields.Keys
  {
    hide SegmentFits, ValueFits, Canonical;
    NotAValue(n, d);
    forall k | k in d.fields ensures k in n.kids {
      HasLeaf(d.fields[k]);
      var at :| LeafAt(d.fields[k], at).Some?;
      FieldLeaf(d, k, at);
      assert NodeLeaf(n, [k] + at).Some?;
    }
    forall k | k in n.kids ensures k in d.fields {
      SolidHasLeaf(n.kids[k]);
      var at :| NodeLeaf(n.kids[k], at).Some?;
      KidLeaf(n, k, at);
      assert LeafAt(d, [k] + at).Some?;
    }
  }

  lemma FieldLeavesSame(n: Node, d: Doc, k: string)
    requires d.Obj? && n.Under? && k in n.kids && k in d.fields && SameLeaves(n, d)
    ensures SameLeaves(n.kids[k], d.fields[k])
  {
    hide NodeLeaf, LeafAt;
    forall at ensures NodeLeaf(n.kids[k], at) == LeafAt(d.fields[k], at) {
      KidLeaf(n, k, at);
      FieldLeaf(d, k, at);
    }
  }

  lemma ObjectRebuilds(n: Node, d: Doc)
    requires d.Obj? && n.Under? && n.kids.Keys == d.fields.Keys
    requires forall k :: k in d.fields ==> SegmentFits(k) && DocOf(n.kids[k]) == Some(d.fields[k])
    ensures DocOf(n) == Some(d)
  {
    forall k | k in n.kids ensures DocOf(n.kids[k]).Some? && !IsIndex(k) {
      assert k in d.fields;
    }
    assert FieldsOf(n) == d.fields;
  }

  ghost function Indices(n: nat): (s: set<string>) {
    set i | 0 <= i < n :: Itoa(i)
  }

  lemma ItemsAreKids(n: Node, d: Doc)
    requires d.Arr? && Solid(n) && Writable(d) && SameLeaves(n, d)
    ensures n.Under? && n.kids.Keys == Indices(|d.items|)
  {
    hide SegmentFits, ValueFits, Canonical, Itoa, Indexes;
    NotAValue(n, d);
    forall i | 0 <= i < |d.items| ensures Itoa(i) in n.kids {
      HasLeaf(d.items[i]);
      var at :| LeafAt(d.items[i], at).Some?;
      ItemLeaf(d, i, at);
      assert NodeLeaf(n, [Itoa(i)] + at).Some?;
    }
    forall k | k in n.kids ensures exists i :: 0 <= i < |d.items| && Itoa(i) == k {
      SolidHasLeaf(n.kids[k]);
      var at :| NodeLeaf(n.kids[k], at).Some?;
      KidLeaf(n, k, at);
      assert LeafAt(d, [k] + at).Some?;
      IndexIsNumber(d.items, k);
    }
  }

  lemma IndexIsNumber(items: seq<Doc>, k: string)
    requires Indexes(items, k)
    ensures exists i :: 0 <= i < |items| && Itoa(i) == k
  {
    ItoaAtoi(k);
  }

  lemma ItemLeavesSame(n: Node, d: Doc, i: nat)
    requires d.Arr? && n.Under? && i < |d.items| && Itoa(i) in n.kids && SameLeaves(n, d)
    ensures SameLeaves(n.kids[Itoa(i)], d.items[i])
  {
    hide NodeLeaf, LeafAt, Itoa;
    forall at ensures NodeLeaf(n.kids[Itoa(i)], at) == LeafAt(d.items[i], at) {
      KidLeaf(n, Itoa(i), at);
      ItemLeaf(d, i, at);
    }
  }

  lemma {:induction false} CountIndices(n: nat)
    ensures |Indices(n)| == n
  {
    hide Itoa;
    if n > 0 {
      CountIndices(n - 1);
      assert Indices(n) == Indices(n - 1) + {Itoa(n - 1)};
      forall i | 0 <= i < n - 1 ensures Itoa(i) != Itoa(n - 1) {
        AtoiItoa(i);
        AtoiItoa(n - 1);
      }
    }
  }

  lemma ArrayRebuilds(n: Node, d: Doc)
    requires d.Arr? && d.items != [] && n.Under? && n.kids.Keys == Indices(|d.items|)
    requires forall i :: 0 <= i < |d.items| ==> Itoa(i) in n.kids && DocOf(n.kids[Itoa(i)]) == Some(d.items[i])
    ensures DocOf(n) == Some(d)
  {
    hide Itoa;
    CountIndices(|d.items|);
    assert |n.kids| == |n.kids.Keys|;
    forall k | k in n.kids ensures IsIndex(k) && DocOf(n.kids[k]).Some? {
      var i :| 0 <= i < |d.items| && k == Itoa(i);
      ItoaCanonical(i);
    }
    assert Itoa(0) in n.kids;
    assert ItemsOf(n) == d.items;
  }

  /** Distinct indices below their own count leave no gap. */
  lemma NoGaps(kids: map<string, Node>)
    requires forall k :: k in kids ==> Canonical(k) && Atoi(k) < |kids|
    ensures Dense(kids)
  {
    hide Itoa, Canonical;
    forall k | k in kids.Keys ensures k in Indices(|kids|) {
      ItoaBack(k);
    }
    CountIndices(|kids|);
    SubsetAll(kids.Keys, Indices(|kids|));
    forall i | 0 <= i < |kids| ensures Itoa(i) in kids {
      assert Itoa(i) in Indices(|kids|);
    }
  }

  lemma AGap(kids: map<string, Node>, k: string)
    requires k in kids && Canonical(k) && Atoi(k) >= |kids|
    ensures !Dense(kids)
  {
    hide Itoa, Canonical;
    if Dense(kids) {
      CountIndices(|kids|);
      assert Indices(|kids|) <= kids.Keys;
      SubsetAll(Indices(|kids|), kids.Keys);
      var i :| 0 <= i < |kids| && k == Itoa(i);
      AtoiItoa(i);
    }
  }

  ghost function Indexed(names: set<string>): set<string> {
    set k | k in names && IsIndex(k)
  }

  lemma CountedAll(names: set<string>)
    ensures |Indexed(names)| == 0 <==> forall k :: k in names ==> !IsIndex(k)
    ensures |Indexed(names)| == |names| <==> forall k :: k in names ==> IsIndex(k)
  {
    if |Indexed(names)| == |names| {
      SubsetAll(Indexed(names), names);
    }
    if forall k :: k in names ==> IsIndex(k) {
      assert Indexed(names) == names;
    }
    forall k | k in names && IsIndex(k) ensures k in Indexed(names) {}
  }

  lemma IndexFits(k: string)
    requires KeyOrIndexFits(k) && IsIndex(k)
    ensures Canonical(k)
  {
  }

  lemma ItoaBack(k: string)
    requires Canonical(k)
    ensures AllDigits(k) && Itoa(Atoi(k)) == k
  {
    ItoaAtoi(k);
  }

  lemma SubsetAll<T>(a: set<T>, b: set<T>)
    requires a <= b && |a| == |b|
    ensures a == b
  {
    assert |b - a| == |b| - |a|;
  }

  /** treeNode: the methods work in place on the nodes below one. */
  class TreeNode {
    var value: string
    var leaf: bool
    var children: map<string, TreeNode>
    ghost var repr: set<TreeNode>

    ghost predicate Valid()
      reads this, repr
      decreases repr
    {
      && this in repr
      && (leaf ==> children == map[])
      && (forall k :: k in children ==>
            children[k] in repr && children[k].repr <= repr - {this} && children[k].Valid())
      && (forall j, k :: j in children && k in children && j != k ==> children[j].repr !! children[k].repr)
    }

    ghost function Meaning(): Node
      requires Valid()
      reads this, repr
      decreases repr, 1
    {
      if leaf then Value(value) else Under(Kids())
    }

    ghost function Kids(): (kids: map<string, Node>)
      requires Valid()
      reads this, repr
      ensures kids.Keys == children.Keys && forall k :: k in kids ==> kids[k] == children[k].Meaning()
      decreases repr, 0
    {
      map k | k in children :: children[k].Meaning()
    }

    constructor ()
      ensures Valid() && fresh(repr) && Meaning() == Under(map[])
    {
      leaf, value, children := false, "", map[];
      new;
      repr := {this};
      assert Kids().Keys == {};
    }

    /** The node beneath this one at a segment, made if there is none. */
    method ChildAt(head: string) returns (child: TreeNode)
      requires Valid() && !leaf
      modifies this
      ensures Valid() && !leaf && fresh(repr - old(repr)) && old(repr) <= repr
      ensures head in children && children[head] == child
      ensures Kids() == old(Kids())[head := KidOf(old(Kids()), head)]
    {
      if head in children {
        child := children[head];
      } else {
        child := new TreeNode();
        children := children[head := child];
        repr := repr + child.repr;
        ChildAdded(head);
      }
    }

    /** A new child changes nothing of the others. */
    twostate lemma ChildAdded(head: string)
      requires old(Valid()) && !old(leaf) && !leaf && head !in old(children)
      requires children.Keys == old(children).Keys + {head} && forall k :: k in old(children) ==> children[k] == old(children[k])
      requires fresh(children[head]) && fresh(children[head].repr) && children[head].Valid() && children[head].Meaning() == Under(map[])
      requires repr == old(repr) + children[head].repr
      requires forall o :: o in old(repr) - {this} ==> unchanged(o)
      ensures Valid() && Kids() == old(Kids())[head := Under(map[])]
    {
      ChildFits(head);
      ghost var was, now := old(Kids()), Kids();
      forall k | k in was ensures now[k] == was[k] {
        ChildKept(k);
      }
      assert now.Keys == was.Keys + {head} && now[head] == Under(map[]);
      assert now == was[head := Under(map[])];
    }

    twostate lemma ChildFits(head: string)
      requires old(Valid()) && !leaf && head !in old(children)
      requires children.Keys == old(children).Keys + {head} && forall k :: k in old(children) ==> children[k] == old(children[k])
      requires fresh(children[head]) && fresh(children[head].repr) && children[head].Valid()
      requires repr == old(repr) + children[head].repr
      requires forall o :: o in old(repr) - {this} ==> unchanged(o)
      ensures Valid()
    {
      forall k | k in old(children)
        ensures children[k] in old(repr) && children[k].repr <= old(repr) - {this} && children[k].Valid()
        ensures children[k].repr == old(children[k].repr)
      {
        ChildKept(k);
      }
    }

    twostate lemma ChildKept(k: string)
      requires old(Valid()) && k in old(children)
      requires forall o :: o in old(repr) - {this} ==> unchanged(o)
      ensures var c := old(children[k]); c.repr == old(c.repr) && c.Valid() && c.Meaning() == old(c.Meaning())
    {
      assert old(children[k].repr <= repr - {this} && children[k].Valid());
      forall o | o in old(children[k].repr) ensures unchanged(o) {
        assert o in old(repr) - {this};
      }
    }

    /** A change to one child's part of the tree changes nothing of the others. */
    twostate lemma OthersKept(head: string)
      requires old(Valid()) && !old(leaf) && head in old(children)
      requires children == old(children) && leaf == old(leaf)
      requires forall o :: o in old(repr) - old(children[head].repr) - {this} ==> unchanged(o)
      requires children[head].Valid() && children[head].repr <= repr - {this} && old(repr) <= repr
      requires fresh(children[head].repr - old(children[head].repr))
      ensures Valid() && Kids() == old(Kids())[head := children[head].Meaning()]
    {
      forall k | k in children && k != head
        ensures children[k].repr == old(children[k].repr) && children[k].Valid() && children[k].Meaning() == old(children[k].Meaning())
      {
        assert old(children[k].repr !! children[head].repr && children[k].repr <= repr - {this});
        forall o | o in old(children[k].repr) ensures unchanged(o) {
          assert o in old(repr) - old(children[head].repr) - {this};
        }
      }
    }

    /** Makes the node beneath this one at a segment a value, if it holds nothing. */
    method PutAt(head: string, v: string) returns (ok: bool)
      requires Valid() && !leaf && head in children
      modifies repr
      ensures ok <==> old(Kids())[head] == Under(map[])
      ensures ok ==> Valid() && !leaf && repr == old(repr) && Kids() == old(Kids())[head := Value(v)]
    {
      var child := children[head];
      assert child.Meaning() == Under(map[]) <==> !child.leaf && child.children == map[] by {
        assert child.Kids() == map[] <==> child.children == map[];
      }
      if child.leaf || child.children != map[] { return false; }
      label Found:
      child.leaf, child.value := true, v;
      OthersKept@Found(head);
      ok := true;
    }

    /** Puts a value at a path below the node beneath this one at a segment. */
    method PutBelow(head: string, rest: seq<string>, v: string) returns (ok: bool)
      requires Valid() && !leaf && head in children && rest != []
      modifies repr
      ensures ok <==> Inserted(old(Kids())[head], rest, v).Some?
      ensures ok ==> Valid() && !leaf && fresh(repr - old(repr))
                     && Kids() == old(Kids())[head := Inserted(old(Kids())[head], rest, v).value]
      decreases |rest|, 1
    {
      hide Inserted;
      var child := children[head];
      ghost var kids := Kids();
      assert kids[head] == child.Meaning();
      label Found:
      ok := child.Insert(rest, v);
      if !ok { return; }
      ghost var grown := child.Meaning();
      repr := repr + child.repr;
      assert child.Meaning() == grown;
      OthersKept@Found(head);
      assert Kids() == kids[head := grown];
    }

    /** Puts a value at a path of segments, making the nodes on the way. */
    method Insert(segments: seq<string>, v: string) returns (ok: bool)
      requires Valid() && segments != []
      modifies repr
      ensures ok <==> Inserted(old(Meaning()), segments, v).Some?
      ensures ok ==> Valid() && fresh(repr - old(repr)) && Inserted(old(Meaning()), segments, v) == Some(Meaning())
      decreases |segments|, 0
    {
      hide Inserted, KidOf;
      ghost var before := Meaning();
      InsertedStep(before, segments, v);
      if leaf { return false; }
      var head := segments[0];
      var child := ChildAt(head);
      ghost var kids := Kids();
      if |segments| == 1 {
        ok := PutAt(head, v);
      } else {
        ok := PutBelow(head, segments[1..], v);
      }
      if !ok { return; }
      Overwritten(before.kids, head, kids[head], Kids()[head]);
    }

    lemma ChildOf(s: string)
      requires Valid() && s in children && NamesFit(Meaning())
      ensures children[s].Valid() && children[s].repr < repr
      ensures KeyOrIndexFits(s) && NamesFit(children[s].Meaning()) && s in Kids() && Kids()[s] == children[s].Meaning()
    {
      hide KeyOrIndexFits;
      assert s in Kids();
    }

    lemma Children()
      requires Valid()
      ensures Kids().Keys == children.Keys && |Kids()| == |children| == |children.Keys| && (!leaf ==> Meaning() == Under(Kids())) && (leaf ==> Meaning().Value?)
    {
      assert |Kids().Keys| == |children.Keys|;
    }

    /** The document the node is, if it is one. */
    method Document() returns (doc: Option<Doc>)
      requires Valid() && NamesFit(Meaning())
      ensures doc == DocOf(Meaning())
      decreases repr, 1
    {
      hide Kids, DocOf, Indexed, IsIndex;
      DocOfValue(Meaning());
      if leaf { return Some(Str(value)); }
      Children();
      var indexed := CountIndexed();
      CountedAll(children.Keys);
      if indexed > 0 && indexed != |children| {
        DocOfMixed(Meaning());
        return None;
      } else if indexed > 0 {
        doc := DocumentItems();
      } else {
        doc := DocumentFields();
      }
    }

    method CountIndexed() returns (indexed: nat)
      ensures indexed == |Indexed(children.Keys)|
    {
      indexed := 0;
      var todo := children.Keys;
      while todo != {}
        invariant todo <= children.Keys && indexed == |Indexed(children.Keys - todo)|
      {
        var s :| s in todo;
        assert Indexed(children.Keys - (todo - {s})) ==
               Indexed(children.Keys - todo) + if IsIndex(s) then {s} else {};
        if IsIndex(s) { indexed := indexed + 1; }
        todo := todo - {s};
      }
      assert children.Keys - todo == children.Keys;
    }

    method DocumentItems() returns (doc: Option<Doc>)
      requires Valid() && !leaf && NamesFit(Meaning()) && children != map[]
      requires forall k :: k in children ==> IsIndex(k)
      ensures doc == DocOf(Meaning())
      decreases repr, 0
    {
      hide DocOf, KeyOrIndexFits, IsIndex, Canonical, Itoa, Dense, Valid, Kids, Meaning, Filled;
      Children();
      ghost var kids := Kids();
      DocOfItems(kids);
      var out := seq(|children|, _ => Null);
      NothingFilled(kids, out);
      var todo := children.Keys;
      while todo != {}
        invariant todo <= children.Keys && |out| == |children|
        invariant Filled(kids, children.Keys - todo, out)
      {
        var s :| s in todo;
        ChildOf(s);
        IndexFits(s);
        var i := Atoi(s);
        if i >= |children| {
          AGap(kids, s);
          return None;
        }
        var v := children[s].Document();
        if v.None? { return None; }
        OneMoreFilled(kids, children.Keys - todo, out, s, v.value);
        out := out[i := v.value];
        assert children.Keys - todo + {s} == children.Keys - (todo - {s});
        todo := todo - {s};
      }
      assert children.Keys - todo == kids.Keys;
      AllFilled(kids, out);
      doc := Some(Arr(out));
    }

    method DocumentFields() returns (doc: Option<Doc>)
      requires Valid() && !leaf && NamesFit(Meaning())
      requires forall k :: k in children ==> !IsIndex(k)
      ensures doc == DocOf(Meaning())
      decreases repr, 0
    {
      hide DocOf, KeyOrIndexFits, IsIndex, Canonical, Itoa, Dense, Valid, Kids, Meaning;
      Children();
      ghost var kids := Kids();
      DocOfFields(kids);
      var out: map<string, Doc> := map[];
      var todo := children.Keys;
      while todo != {}
        invariant todo <= children.Keys && out.Keys == children.Keys - todo
        invariant forall k :: k in out ==> DocOf(kids[k]) == Some(out[k])
      {
        var s :| s in todo;
        ChildOf(s);
        var v := children[s].Document();
        if v.None? { return None; }
        out := out[s := v.value];
        todo := todo - {s};
      }
      assert FieldsOf(Under(kids)) == out;
      doc := Some(Obj(out));
    }
  }

  /** The elements at some indices are the documents the nodes there are. */
  ghost predicate Filled(kids: map<string, Node>, done: set<string>, out: seq<Doc>) {
    forall k :: k in done ==> k in kids && Canonical(k) && Atoi(k) < |out| && DocOf(kids[k]) == Some(out[Atoi(k)])
  }

  lemma NothingFilled(kids: map<string, Node>, out: seq<Doc>)
    ensures forall done :: done == {} ==> Filled(kids, done, out)
  {
  }

  lemma OneMoreFilled(kids: map<string, Node>, done: set<string>, out: seq<Doc>, s: string, v: Doc)
    requires Filled(kids, done, out) && s !in done && s in kids && Canonical(s) && Atoi(s) < |out| && DocOf(kids[s]) == Some(v)
    ensures Filled(kids, done + {s}, out[Atoi(s) := v])
  {
    hide DocOf;
    forall k | k in done ensures Atoi(k) != Atoi(s) {
      if Atoi(k) == Atoi(s) {
        ItoaAtoi(k);
        ItoaAtoi(s);
      }
    }
  }

  lemma AllFilled(kids: map<string, Node>, out: seq<Doc>)
    requires Filled(kids, kids.Keys, out) && |out| == |kids| && kids != map[] && forall k :: k in kids ==> IsIndex(k)
    ensures DocOf(Under(kids)) == Some(Arr(out))
  {
    hide DocOf, Itoa, Canonical, IsIndex, Dense;
    AllIndices(kids, out);
    NoGaps(kids);
    DocOfItems(kids);
    var items := ItemsOf(Under(kids));
    forall i | 0 <= i < |out| ensures items[i] == out[i] {
      AtFilled(kids, out, i);
    }
    assert items == out;
  }

  lemma AllIndices(kids: map<string, Node>, out: seq<Doc>)
    requires Filled(kids, kids.Keys, out)
    ensures forall k :: k in kids ==> Canonical(k) && Atoi(k) < |out| && DocOf(kids[k]).Some?
  {
    hide DocOf, Itoa;
    forall k | k in kids ensures Canonical(k) && Atoi(k) < |out| && DocOf(kids[k]).Some? {
      assert k in kids.Keys;
      ItoaBack(k);
    }
  }

  lemma AtFilled(kids: map<string, Node>, out: seq<Doc>, i: nat)
    requires Filled(kids, kids.Keys, out) && |out| == |kids| && i < |out| && Dense(kids)
    ensures DocOf(kids[Itoa(i)]) == Some(out[i])
  {
    hide DocOf, Itoa, Canonical;
    AtoiItoa(i);
    assert Itoa(i) in kids.Keys;
  }

  lemma DocOfItems(kids: map<string, Node>)
    requires kids != map[] && forall k :: k in kids ==> IsIndex(k)
    ensures (exists k :: k in kids && DocOf(kids[k]).None?) ==> DocOf(Under(kids)).None?
    ensures !Dense(kids) ==> DocOf(Under(kids)).None?
    ensures Dense(kids) && (forall k :: k in kids ==> DocOf(kids[k]).Some?) ==> DocOf(Under(kids)) == Some(Arr(ItemsOf(Under(kids))))
  {
  }

  lemma DocOfFields(kids: map<string, Node>)
    requires forall k :: k in kids ==> !IsIndex(k)
    ensures (exists k :: k in kids && DocOf(kids[k]).None?) ==> DocOf(Under(kids)).None?
    ensures (forall k :: k in kids ==> DocOf(kids[k]).Some?) ==> DocOf(Under(kids)) == Some(Obj(FieldsOf(Under(kids))))
  {
  }

  lemma DocOfValue(n: Node)
    ensures n.Value? ==> DocOf(n) == Some(Str(n.value))
  {
  }

  lemma DocOfMixed(n: Node)
    requires n.Under? && |Indexed(n.kids.Keys)| > 0 && |Indexed(n.kids.Keys)| != |n.kids.Keys|
    ensures DocOf(n).None?
  {
    CountedAll(n.kids.Keys);
  }

  lemma Overwritten(kids: map<string, Node>, head: string, a: Node, b: Node)
    ensures kids[head := a][head := b] == kids[head := b]
  {
  }

  lemma InsertedStep(n: Node, at: seq<string>, value: string)
    requires at != []
    ensures n.Value? ==> Inserted(n, at, value).None?
    ensures n.Under? && |at| == 1 ==>
              Inserted(n, at, value) ==
              if KidOf(n.kids, at[0]) == Under(map[]) then Some(Under(n.kids[at[0] := Value(value)])) else None
    ensures n.Under? && |at| > 1 ==>
              var grown := Inserted(KidOf(n.kids, at[0]), at[1..], value);
              Inserted(n, at, value) == if grown.None? then None else Some(Under(n.kids[at[0] := grown.value]))
  {
  }
}
