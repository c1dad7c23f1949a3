/** The object store two trees are read from, what a path holds in a tree,
    and which trees a checkout could hold (delta/tree.go, Between). */
module TreeStore {
  import opened Wrappers
  import opened Strings
  import opened DeltaCodec
  import opened TreeObjects

  const MAX_TARGET := 4095

  /** A tree's data, a blob's content, or the tree a commit names. */
  datatype Object = Tree(data: string) | Blob(content: string) | Commit(tree: string)

  /** A repository: its objects, the length of its raw IDs, and SHA-256, which
      gives no content but the empty one the hash of empty content. */
  datatype Repo = Repo(objects: map<string, Object>, size: nat, sha: string -> Sum) {
    ghost predicate Valid() {
      && size > 0
      && "" !in objects
      && (forall s: string :: sha(s) == EMPTY_SUM ==> s == "")
    }

    /** The entries of a tree, when the object is a tree whose entries fit. */
    ghost function EntriesOf(oid: string): (r: Option<seq<TreeEntry>>)
      ensures r.Some? ==> oid in objects && objects[oid].Tree? && Says(objects[oid].data, size, r.value)
    {
      if oid in objects && objects[oid].Tree? && exists es :: Says(objects[oid].data, size, es) then
        var es :| Says(objects[oid].data, size, es);
        Some(es)
      else None
    }

    lemma EntriesAre(oid: string, es: seq<TreeEntry>)
      requires oid in objects && objects[oid].Tree? && Says(objects[oid].data, size, es)
      ensures EntriesOf(oid) == Some(es)
    {
      hide Says;
      SaysOne(objects[oid].data, size, es, EntriesOf(oid).value);
    }

    /** Each subtree is ranked below the tree that names it, as it must be in
        a store whose IDs are hashes. */
    ghost predicate Acyclic(rank: map<string, nat>) {
      && objects.Keys <= rank.Keys
      && forall t, e :: t in objects && EntriesOf(t).Some? && e in EntriesOf(t).value && e.IsTree() && e.oid in objects ==> rank[e.oid] < rank[t]
    }

    /** What a tree holds at a path of names: an entry's image, or nothing. */
    ghost function ImageAt(tree: string, at: seq<string>): Image
      decreases |at|
    {
      if at == [] || EntriesOf(tree).None? then ABSENT
      else
        match Named(EntriesOf(tree).value, at[0])
        case None => ABSENT
        case Some(e) =>
          if e.IsTree() then ImageAt(e.oid, at[1..])
          else if |at| == 1 then LeafImage(e)
          else ABSENT
    }

    ghost function LeafImage(e: TreeEntry): Image {
      if e.oid in objects && objects[e.oid].Blob? then Image(e.mode, sha(objects[e.oid].content)) else ABSENT
    }

    ghost predicate LeafHolds(e: TreeEntry) {
      && e.oid in objects && objects[e.oid].Blob?
      && (e.mode == MODE_SYMLINK ==> TargetFits(objects[e.oid].content))
    }

    /** A tree a checkout could hold faithfully: its entries fit, every entry's
        object is what its mode says, no symlink's target is one that cannot
        be made, and no directory is empty. */
    ghost predicate Holdable(rank: map<string, nat>, tree: string, root: bool)
      requires Acyclic(rank)
      decreases if tree in rank then rank[tree] else 0
    {
      && EntriesOf(tree).Some?
      && (root || EntriesOf(tree).value != [])
      && forall e :: e in EntriesOf(tree).value ==>
           if e.IsTree() then e.oid in objects && Holdable(rank, e.oid, false) else LeafHolds(e)
    }

    /** The tree behind an ID, through the commit if it is one. */
    function TreeOf(oid: string): Option<string> {
      if oid !in objects then None
      else match objects[oid]
        case Tree(_) => Some(oid)
        case Commit(tree) => Some(tree)
        case Blob(_) => None
    }
  }

  /** A symlink's target symlink(2) on Linux would make. */
  predicate TargetFits(target: string) {
    target != "" && '\0' !in target && |target| <= MAX_TARGET
  }

  /** Two trees differ at a path. */
  ghost predicate Differ(r: Repo, pre: string, post: string, at: seq<string>) {
    r.ImageAt(pre, at) != r.ImageAt(post, at)
  }

  ghost predicate NamesFit(at: seq<string>) {
    forall name :: name in at ==> NameFits(name) && '\0' !in name
  }

  lemma HeldEntryFits(r: Repo, tree: string, e: TreeEntry)
    requires r.EntriesOf(tree).Some? && e in r.EntriesOf(tree).value
    ensures NameFits(e.name) && '\0' !in e.name
  {
    assert EntryFits(e, r.size);
  }

  /** A path that holds something is made of names that fit. */
  lemma {:induction false} HeldNamesFit(r: Repo, tree: string, at: seq<string>)
    requires r.ImageAt(tree, at) != ABSENT
    ensures at != [] && NamesFit(at)
    decreases |at|
  {
    hide NameFits, EntryFits, Says, Named, Repo.LeafImage, Repo.EntriesOf;
    var e := Named(r.EntriesOf(tree).value, at[0]).value;
    HeldEntryFits(r, tree, e);
    if e.IsTree() {
      HeldNamesFit(r, e.oid, at[1..]);
    }
    assert at == [at[0]] + at[1..];
  }

  /** A path that holds an entry is no directory of another that does. */
  lemma {:induction false} NothingUnderALeaf(r: Repo, tree: string, at: seq<string>, under: seq<string>)
    requires r.ImageAt(tree, at) != ABSENT && under != []
    ensures r.ImageAt(tree, at + under) == ABSENT
    decreases |at|
  {
    hide NameFits, EntriesFit, Says, Named, Repo.LeafImage, Repo.EntriesOf;
    var e := Named(r.EntriesOf(tree).value, at[0]).value;
    assert (at + under)[0] == at[0] && |at + under| > 1;
    assert (at + under)[1..] == at[1..] + under;
    if e.IsTree() {
      NothingUnderALeaf(r, e.oid, at[1..], under);
    }
  }

  // Paths as strings.

  /** Paths of names that fit are one string each. */
  lemma PathIsOne(a: seq<string>, b: seq<string>)
    requires a != [] && b != [] && NamesFit(a) && NamesFit(b) && Join(a, '/') == Join(b, '/')
    ensures a == b
  {
    assert forall i :: 0 <= i < |a| ==> a[i] in a;
    assert forall i :: 0 <= i < |b| ==> b[i] in b;
    SplitJoin(a, '/');
    SplitJoin(b, '/');
  }
}
