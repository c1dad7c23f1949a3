/** What reading two trees takes in (delta/tree.go), said of the trees alone: the
    objects that must be read, the entries visited and the paths built. */
module TreeCost {
  import opened Wrappers
  import opened Strings
  import S = Sums
  import opened DeltaCodec
  import opened TreeObjects
  import opened TreeStore

  function SizeOf(o: Object): nat {
    match o
    case Tree(data) => |data|
    case Blob(content) => |content|
    case Commit(tree) => |tree|
  }

  /** A tree, and from each the next it has an entry for. */
  ghost predicate Chain(r: Repo, p: seq<string>) {
    p != [] && forall i :: 0 <= i < |p| - 1 ==> Names(r, p[i], p[i + 1])
  }

  ghost predicate Names(r: Repo, tree: string, sub: string) {
    r.EntriesOf(tree).Some? && exists e :: e in r.EntriesOf(tree).value && e.IsTree() && e.oid == sub
  }

  ghost predicate Reaches(r: Repo, root: string, tree: string) {
    exists p :: Chain(r, p) && p[0] == root && p[|p| - 1] == tree
  }

  /** A symlink's target somewhere in a tree. */
  ghost predicate Links(r: Repo, root: string, oid: string) {
    exists tree, e :: Reaches(r, root, tree) && r.EntriesOf(tree).Some? && e in r.EntriesOf(tree).value
      && !e.IsTree() && e.mode == MODE_SYMLINK && e.oid == oid
  }

  /** The blob a tree has at a path of names. */
  ghost function BlobAt(r: Repo, tree: string, at: seq<string>): Option<string>
    decreases |at|
  {
    if at == [] || r.EntriesOf(tree).None? then None
    else
      match Named(r.EntriesOf(tree).value, at[0])
      case None => None
      case Some(e) =>
        if e.IsTree() then BlobAt(r, e.oid, at[1..])
        else if |at| == 1 then Some(e.oid)
        else None
  }

  /** A blob at a path where two trees differ. */
  ghost predicate Differs(r: Repo, pre: string, post: string, oid: string) {
    exists at :: Differ(r, pre, post, at) && (BlobAt(r, pre, at) == Some(oid) || BlobAt(r, post, at) == Some(oid))
  }

  /** The trees under either side, each once. */
  ghost function TreesOf(r: Repo, pre: string, post: string): set<string> {
    set oid | oid in r.objects && (Reaches(r, pre, oid) || Reaches(r, post, oid))
  }

  /** The objects that have to be read for the difference of two trees: each tree,
      each symlink's target, and both blobs wherever the trees differ. */
  ghost function Needed(r: Repo, pre: string, post: string): set<string> {
    set oid | oid in r.objects && (Reaches(r, pre, oid) || Reaches(r, post, oid) || Links(r, pre, oid) || Links(r, post, oid) || Differs(r, pre, post, oid))
  }

  ghost function Sizes(r: Repo): string -> int {
    (oid: string) => if oid in r.objects then SizeOf(r.objects[oid]) else 0
  }

  function NameBytes(es: seq<TreeEntry>): nat {
    if es == [] then 0 else NameBytes(es[..|es| - 1]) + |es[|es| - 1].name|
  }

  ghost function NamesIn(r: Repo): string -> int {
    (oid: string) => if r.EntriesOf(oid).Some? then NameBytes(r.EntriesOf(oid).value) else 0
  }

  ghost function CountIn(r: Repo): string -> int {
    (oid: string) => if r.EntriesOf(oid).Some? then |r.EntriesOf(oid).value| else 0
  }

  ghost function PathSize(): Change -> int {
    (c: Change) => |c.path|
  }

  ghost function Changes(d: Delta): set<Change> {
    set c | c in d
  }

  ghost function PathBytes(d: Delta): int {
    S.Sum(Changes(d), PathSize())
  }

  /** The bytes a reading takes in at least: what it must read, each entry's name
      when its tree is read and again when it is checked, and each change's path
      when the trees are compared. */
  ghost function BytesNeeded(r: Repo, pre: string, post: string, d: Delta): int {
    S.Sum(Needed(r, pre, post), Sizes(r)) + 2 * S.Sum(TreesOf(r, pre, post), NamesIn(r)) + PathBytes(d)
  }

  /** The entries it visits at least: each tree's, and each change's again. */
  ghost function EntriesNeeded(r: Repo, pre: string, post: string, d: Delta): int {
    S.Sum(TreesOf(r, pre, post), CountIn(r)) + |Changes(d)|
  }

  // Sums.

  lemma NoNameBytes()
    ensures NameBytes([]) == 0
  {
  }

  lemma EachNameBytes(es: seq<TreeEntry>, e: TreeEntry)
    ensures NameBytes(es + [e]) == NameBytes(es) + |e.name|
  {
    assert (es + [e])[..|es|] == es;
  }

  lemma PathsOneMore(d: Delta, c: Change)
    ensures PathBytes(d) <= PathBytes(d + [c]) <= PathBytes(d) + |c.path|
    ensures |Changes(d + [c])| <= |Changes(d)| + 1
  {
    hide S.Sum;
    assert Changes(d + [c]) == Changes(d) + {c};
    S.SumOneMore(Changes(d), PathSize(), c);
  }

  lemma PathWithin(d: Delta, c: Change)
    requires c in d
    ensures |c.path| <= PathBytes(d)
  {
    hide S.Sum;
    S.SumWith(Changes(d), PathSize(), c);
    S.SumAtLeast(Changes(d) - {c}, PathSize());
  }
}
