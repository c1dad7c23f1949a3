/** Reading two trees from the object store, each tree once, and the delta
    between them (delta/tree.go). */
module TreeDelta {
  import opened Wrappers
  import opened Strings
  import opened DeltaCodec
  import opened TreeObjects
  import opened TreeStore
  import S = Sums
  import C = TreeCost

  const MAX_INT64 := 0x7fff_ffff_ffff_ffff

  /** A sum as Go's int64 holds it. */
  function Wrap64(n: int): int {
    (n + 0x8000_0000_0000_0000) % 0x1_0000_0000_0000_0000 - 0x8000_0000_0000_0000
  }

  /** Why a reading stopped: the trees are refused, or a bound of the budget
      would be crossed. */
  datatype Failure = Refused | OverBudget

  /** What was asked for, and whether it fit and was in time. */
  datatype Asked = Asked(bytes: nat, entries: nat, ok: bool)

  /** What a bounded reading may take in, and how much of that is used up. The
      exact sums are what was spent in all, with nothing wrapped around. */
  class Limit {
    const maxBytes: int
    const maxEntries: int
    var bytes: int
    var entries: int
    ghost var exactBytes: nat
    ghost var exactEntries: nat
    // Whether something did not fit, or came too late; and what was asked for last.
    ghost var stopped: bool
    ghost var asked: Asked

    ghost predicate Within()
      reads this
    {
      0 <= bytes <= maxBytes <= MAX_INT64 && 0 <= entries <= maxEntries <= MAX_INT64
    }

    /** The counters are the exact sums as 64 bits hold them, and a sum that
        fits 64 bits never passed its bound. */
    ghost predicate Sound()
      reads this
    {
      && 0 < maxBytes <= MAX_INT64 && 0 < maxEntries <= MAX_INT64
      && bytes == Wrap64(exactBytes) && entries == Wrap64(exactEntries)
      && (exactBytes <= MAX_INT64 ==> exactBytes <= maxBytes)
      && (exactEntries <= MAX_INT64 ==> exactEntries <= maxEntries)
    }

    constructor (maxBytes: int, maxEntries: int)
      requires 0 < maxBytes <= MAX_INT64 && 0 < maxEntries <= MAX_INT64
      ensures Sound() && Within() && exactBytes == 0 && exactEntries == 0 && !stopped
      ensures this.maxBytes == maxBytes && this.maxEntries == maxEntries
    {
      this.maxBytes, this.maxEntries := maxBytes, maxEntries;
      bytes, entries, exactBytes, exactEntries, stopped, asked := 0, 0, 0, 0, false, Asked(0, 0, true);
    }

    /** Counts an amount, unless a counter would then read past its bound, or
        the deadline is over. */
    method Spend(b: nat, n: nat, late: bool) returns (ok: bool)
      requires Sound()
      modifies this
      ensures Sound()
      ensures ok <==> !late && Wrap64(old(bytes) + b) <= maxBytes && Wrap64(old(entries) + n) <= maxEntries
      ensures stopped == (old(stopped) || !ok) && asked == Asked(b, n, ok)
      ensures !ok ==> bytes == old(bytes) && entries == old(entries) && exactBytes == old(exactBytes) && exactEntries == old(exactEntries)
      ensures ok ==> bytes == Wrap64(old(bytes) + b) && entries == Wrap64(old(entries) + n)
      ensures ok ==> exactBytes == old(exactBytes) + b && exactEntries == old(exactEntries) + n
    {
      hide Wrap64;
      ok := !late && !(Wrap64(bytes + b) > maxBytes) && !(Wrap64(entries + n) > maxEntries);
      stopped, asked := stopped || !ok, Asked(b, n, ok);
      if ok {
        WrapTwice(exactBytes, b);
        WrapTwice(exactEntries, n);
        WrapFits(exactBytes + b);
        WrapFits(exactEntries + n);
        bytes, entries := Wrap64(bytes + b), Wrap64(entries + n);
        exactBytes, exactEntries := exactBytes + b, exactEntries + n;
      }
    }

    /** While the sums fit 64 bits, what was spent is what is counted, and no
        bound was passed. */
    lemma StaysWithin()
      requires Sound() && exactBytes <= MAX_INT64 && exactEntries <= MAX_INT64
      ensures Within() && bytes == exactBytes && entries == exactEntries
    {
      hide Wrap64;
      WrapFits(exactBytes);
      WrapFits(exactEntries);
    }
  }

  /** Wrapping a sum on the way changes nothing of what it wraps to. */
  lemma WrapTwice(a: int, b: int)
    ensures Wrap64(Wrap64(a) + b) == Wrap64(a + b)
  {
  }

  lemma WrapFits(n: nat)
    ensures n <= MAX_INT64 ==> Wrap64(n) == n
  {
  }

  /** The 64-bit test refuses exactly the sums past the bound when, and only
      when, the sum fits 64 bits. */
  lemma SpendIsExact(spent: int, more: int, bound: int)
    requires 0 <= spent <= bound <= MAX_INT64 && 0 <= more <= MAX_INT64
    ensures (Wrap64(spent + more) > bound <==> spent + more > bound) <==> spent + more <= MAX_INT64
  {
    if spent + more <= MAX_INT64 {
      assert Wrap64(spent + more) == spent + more;
    } else {
      assert Wrap64(spent + more) == spent + more - 0x1_0000_0000_0000_0000;
    }
  }

  /** The delta as it is gathered, with each change's path as names. */
  class Gathered {
    var changes: Delta
    ghost var keys: seq<seq<string>>

    constructor ()
      ensures changes == [] && keys == []
    {
      changes, keys := [], [];
    }
  }

  function JoinPath(at: string, name: string): string {
    if at == "" then name else at + "/" + name
  }

  /** The bytes of the paths of entries under a directory. */
  function PathsUnder(at: string, es: seq<TreeEntry>): nat {
    if es == [] then 0 else PathsUnder(at, es[..|es| - 1]) + |JoinPath(at, es[|es| - 1].name)|
  }

  lemma NoPaths(at: string)
    ensures PathsUnder(at, []) == 0
  {
  }

  lemma PathsOneMore(at: string, es: seq<TreeEntry>, e: TreeEntry)
    ensures PathsUnder(at, es + [e]) == PathsUnder(at, es) + |JoinPath(at, e.name)|
  {
    assert (es + [e])[..|es|] == es;
  }

  lemma {:induction false} PathsHoldNames(at: string, es: seq<TreeEntry>)
    ensures PathsUnder(at, es) >= C.NameBytes(es)
  {
    if es != [] { PathsHoldNames(at, es[..|es| - 1]); }
  }

  lemma PathIsLonger(at: string, name: string)
    ensures |JoinPath(at, name)| >= |name|
  {
  }

  lemma PathNotEmpty(at: string, name: string)
    requires name != ""
    ensures JoinPath(at, name) != "" && |JoinPath(at, name)| >= |name|
  {
  }

  /** A path as the source keeps it, of the names it is made of. */
  ghost predicate IsPath(at: string, where: seq<string>) {
    NamesFit(where) && at == Join(where, '/') && (at == "" <==> where == [])
  }

  lemma PathOn(at: string, where: seq<string>, name: string)
    requires IsPath(at, where) && NameFits(name) && '\0' !in name
    ensures IsPath(JoinPath(at, name), where + [name])
    ensures JoinPath(at, name) == Join(where + [name], '/')
  {
    hide NameFits;
    JoinOneMore(where, name, '/');
    assert name != "" by { NonEmptyName(name); }
  }

  lemma NonEmptyName(name: string)
    requires NameFits(name)
    ensures name != ""
  {
  }

  // What part of the difference of two trees has been gathered.

  /** One change, under the directory where, at a path the trees differ at. */
  ghost predicate IsChange(r: Repo, ch: Change, key: seq<string>, where: seq<string>, pre: string, post: string) {
    && |where| < |key| && where == key[..|where|]
    && Differ(r, pre, post, key[|where|..])
    && ch == Change(Join(key, '/'), r.ImageAt(pre, key[|where|..]), r.ImageAt(post, key[|where|..]))
  }

  /** From one place on, exactly the changes under where, each once. */
  ghost predicate Lists(r: Repo, d: Delta, keys: seq<seq<string>>, from: nat, where: seq<string>, pre: string, post: string) {
    && |keys| == |d| && from <= |d|
    && (forall i :: from <= i < |d| ==> IsChange(r, d[i], keys[i], where, pre, post))
    && (forall i, j :: from <= i < j < |d| ==> keys[i] != keys[j])
    && (forall c :: Differ(r, pre, post, c) ==> where + c in keys[from..])
  }

  /** The blobs two trees have at a path are among some. */
  ghost predicate BlobsIn(r: Repo, pre: string, post: string, at: seq<string>, have: set<string>) {
    forall o :: C.BlobAt(r, pre, at) == Some(o) || C.BlobAt(r, post, at) == Some(o) ==> o in have
  }

  /** So are those at every path where they differ, or every such path that starts
      with one of some names. */
  ghost predicate AllBlobsIn(r: Repo, pre: string, post: string, have: set<string>) {
    forall c :: Differ(r, pre, post, c) ==> BlobsIn(r, pre, post, c, have)
  }

  ghost predicate NamedBlobsIn(r: Repo, pre: string, post: string, names: set<string>, have: set<string>) {
    forall c :: DifferIn(r, pre, post, names, c) ==> BlobsIn(r, pre, post, c, have)
  }

  lemma MoreBlobsIn(r: Repo, pre: string, post: string, names: set<string>, have: set<string>, more: set<string>)
    requires NamedBlobsIn(r, pre, post, names, have) && have <= more
    ensures NamedBlobsIn(r, pre, post, names, more)
  {
    hide Repo.ImageAt;
    forall c | DifferIn(r, pre, post, names, c) ensures BlobsIn(r, pre, post, c, more) {
      assert BlobsIn(r, pre, post, c, have);
    }
  }

  /** The blobs under a name are the subtrees' there, and the entries' own. */
  lemma SubtreeBlobsIn(r: Repo, pre: string, post: string, name: string, sub0: string, sub1: string, have: set<string>)
    requires AllBlobsIn(r, sub0, sub1, have)
    requires Differ(r, pre, post, [name]) ==> BlobsIn(r, pre, post, [name], have)
    requires forall c :: c != [] ==> r.ImageAt(pre, [name] + c) == r.ImageAt(sub0, c) && r.ImageAt(post, [name] + c) == r.ImageAt(sub1, c)
    requires forall c :: c != [] ==> C.BlobAt(r, pre, [name] + c) == C.BlobAt(r, sub0, c) && C.BlobAt(r, post, [name] + c) == C.BlobAt(r, sub1, c)
    ensures NamedBlobsIn(r, pre, post, {name}, have)
  {
    hide Repo.ImageAt;
    forall c | DifferIn(r, pre, post, {name}, c) ensures BlobsIn(r, pre, post, c, have) {
      assert c == [name] + c[1..];
      if c[1..] == [] {
        assert c == [name];
      } else {
        assert Differ(r, sub0, sub1, c[1..]);
        assert BlobsIn(r, sub0, sub1, c[1..], have);
      }
    }
  }

  lemma NamesBlobsIn(r: Repo, pre: string, post: string, a: set<string>, b: set<string>, have: set<string>)
    requires NamedBlobsIn(r, pre, post, a, have) && NamedBlobsIn(r, pre, post, b, have)
    ensures NamedBlobsIn(r, pre, post, a + b, have)
  {
    hide Repo.ImageAt;
    forall c | DifferIn(r, pre, post, a + b, c) ensures BlobsIn(r, pre, post, c, have) {
      assert DifferIn(r, pre, post, a, c) || DifferIn(r, pre, post, b, c);
    }
  }

  lemma EveryBlobIn(r: Repo, pre: string, post: string, names: set<string>, have: set<string>)
    requires NamedBlobsIn(r, pre, post, names, have)
    requires forall c :: Differ(r, pre, post, c) ==> DifferIn(r, pre, post, names, c)
    ensures AllBlobsIn(r, pre, post, have)
  {
    hide Repo.ImageAt, BlobsIn;
  }

  /** Two trees differ at a path that starts with one of some names. */
  ghost predicate DifferIn(r: Repo, pre: string, post: string, names: set<string>, at: seq<string>) {
    Differ(r, pre, post, at) && at != [] && at[0] in names
  }

  /** The same, of the paths whose first name is one of some names. */
  ghost predicate ListsNamed(r: Repo, d: Delta, keys: seq<seq<string>>, from: nat, where: seq<string>, pre: string, post: string, names: set<string>) {
    && |keys| == |d| && from <= |d|
    && (forall i :: from <= i < |d| ==> IsChange(r, d[i], keys[i], where, pre, post) && keys[i][|where|] in names)
    && (forall i, j :: from <= i < j < |d| ==> keys[i] != keys[j])
    && (forall c :: DifferIn(r, pre, post, names, c) ==> where + c in keys[from..])
  }

  ghost predicate Grown(d0: Delta, keys0: seq<seq<string>>, d: Delta, keys: seq<seq<string>>) {
    |d0| == |keys0| && d0 <= d && keys0 <= keys
  }

  lemma GrownTrans(d0: Delta, k0: seq<seq<string>>, d1: Delta, k1: seq<seq<string>>, d2: Delta, k2: seq<seq<string>>)
    requires Grown(d0, k0, d1, k1) && Grown(d1, k1, d2, k2)
    ensures Grown(d0, k0, d2, k2)
  {
  }

  lemma GrownSelf(d: Delta, keys: seq<seq<string>>)
    requires |d| == |keys|
    ensures Grown(d, keys, d, keys)
  {
  }

  type Trees = map<string, seq<TreeEntry>>

  ghost predicate IsDone(trees: Trees, leaves: set<string>, links: set<string>, e: TreeEntry) {
    if e.IsTree() then e.oid in trees && trees[e.oid] != []
    else e.oid in leaves && (e.mode == MODE_SYMLINK ==> e.oid in links)
  }

  ghost predicate AllDone(trees: Trees, leaves: set<string>, links: set<string>, open: set<string>) {
    forall t, e :: t in trees && t !in open && e in trees[t] ==> IsDone(trees, leaves, links, e)
  }

  /** A tree newly read is open, and every other stays done. */
  lemma OpenOne(trees: Trees, leaves: set<string>, links: set<string>, open: set<string>, t: string, es: seq<TreeEntry>)
    requires AllDone(trees, leaves, links, open) && t !in trees
    ensures AllDone(trees[t := es], leaves, links, open + {t})
  {
    var next := trees[t := es];
    forall u, e | u in next && u !in open + {t} && e in next[u] ensures IsDone(next, leaves, links, e) {
      assert IsDone(trees, leaves, links, e);
    }
  }

  lemma KeepMore(trees: Trees, leaves: set<string>, links: set<string>, leaves': set<string>, links': set<string>, open: set<string>)
    requires AllDone(trees, leaves, links, open) && leaves <= leaves' && links <= links'
    ensures AllDone(trees, leaves', links', open)
  {
    forall u, e | u in trees && u !in open && e in trees[u] ensures IsDone(trees, leaves', links', e) {
      assert IsDone(trees, leaves, links, e);
    }
  }

  lemma CloseOne(trees: Trees, leaves: set<string>, links: set<string>, open: set<string>, t: string)
    requires AllDone(trees, leaves, links, open + {t}) && t in trees
    requires forall e :: e in trees[t] ==> IsDone(trees, leaves, links, e)
    ensures AllDone(trees, leaves, links, open)
  {
  }

  /** What a reading holds: its trees, and the IDs of the leaves and of the
      symlinks' targets it keeps. */
  datatype Held = Held(trees: Trees, leaves: set<string>, links: set<string>) {
    ghost predicate Within(next: Held) {
      && trees.Keys <= next.trees.Keys && (forall t :: t in trees ==> next.trees[t] == trees[t])
      && leaves <= next.leaves && links <= next.links
    }

    ghost predicate AllOf(es: seq<TreeEntry>) {
      forall e :: e in es ==> IsDone(trees, leaves, links, e)
    }
  }

  lemma StillDone(h: Held, next: Held, es: seq<TreeEntry>)
    requires h.Within(next) && h.AllOf(es)
    ensures next.AllOf(es)
  {
    forall e | e in es ensures IsDone(next.trees, next.leaves, next.links, e) {
      assert IsDone(h.trees, h.leaves, h.links, e);
    }
  }

  /** As ListsNamed, but for the path that is one of the names alone. */
  ghost predicate ListsBut(r: Repo, d: Delta, keys: seq<seq<string>>, from: nat, where: seq<string>, pre: string, post: string, names: set<string>, name: string) {
    && |keys| == |d| && from <= |d|
    && (forall i :: from <= i < |d| ==> IsChange(r, d[i], keys[i], where, pre, post) && keys[i][|where|] in names + {name} && keys[i] != where + [name])
    && (forall i, j :: from <= i < j < |d| ==> keys[i] != keys[j])
    && (forall c :: DifferIn(r, pre, post, names + {name}, c) && c != [name] ==> where + c in keys[from..])
  }

  lemma ListsLengths(r: Repo, d: Delta, keys: seq<seq<string>>, from: nat, where: seq<string>, pre: string, post: string, names: set<string>)
    requires ListsNamed(r, d, keys, from, where, pre, post, names)
    ensures |keys| == |d| && from <= |d|
  {
  }

  lemma NothingUnder(r: Repo, d: Delta, keys: seq<seq<string>>, where: seq<string>)
    requires |keys| == |d|
    ensures Lists(r, d, keys, |d|, where, "", "")
  {
  }

  lemma AllNames(r: Repo, d: Delta, keys: seq<seq<string>>, from: nat, where: seq<string>, pre: string, post: string, names: set<string>)
    requires ListsNamed(r, d, keys, from, where, pre, post, names)
    requires forall c :: Differ(r, pre, post, c) ==> DifferIn(r, pre, post, names, c)
    ensures Lists(r, d, keys, from, where, pre, post)
  {
  }

  /** The subtrees' changes are the changes below a name. */
  lemma SubtreesDone(r: Repo, d0: Delta, k0: seq<seq<string>>, d: Delta, keys: seq<seq<string>>, from: nat, where: seq<string>,
                     pre: string, post: string, names: set<string>, name: string, sub0: string, sub1: string)
    requires ListsNamed(r, d0, k0, from, where, pre, post, names) && name !in names
    requires Grown(d0, k0, d, keys) && Lists(r, d, keys, |d0|, where + [name], sub0, sub1)
    requires forall c :: c != [] ==> r.ImageAt(pre, [name] + c) == r.ImageAt(sub0, c) && r.ImageAt(post, [name] + c) == r.ImageAt(sub1, c)
    ensures |keys| == |d| && ListsBut(r, d, keys, from, where, pre, post, names, name)
  {
    hide Repo.ImageAt, IsChange;
    var n0, w := |d0|, where + [name];
    forall i | n0 <= i < |d|
      ensures IsChange(r, d[i], keys[i], where, pre, post) && |keys[i]| > |where| && keys[i][|where|] == name && keys[i] != w
    {
      SubtreeChange(r, d[i], keys[i], where, pre, post, name, sub0, sub1);
    }
    forall i | from <= i < n0
      ensures IsChange(r, d[i], keys[i], where, pre, post) && |keys[i]| > |where| && keys[i][|where|] in names && keys[i] != w
    {
      assert d[i] == d0[i] && keys[i] == k0[i];
      LongerKey(r, d[i], keys[i], where, pre, post);
      assert w[|where|] == name;
    }
    forall i, j | from <= i < j < |d| ensures keys[i] != keys[j] {
      if j < n0 { assert keys[i] == k0[i] && keys[j] == k0[j]; }
    }
    forall c | DifferIn(r, pre, post, names + {name}, c) && c != [name] ensures where + c in keys[from..] {
      if c[0] == name {
        assert c == [name] + c[1..] && c[1..] != [];
        assert Differ(r, sub0, sub1, c[1..]);
        assert w + c[1..] == where + c;
        InTail(keys, n0, from, where + c);
      } else {
        assert DifferIn(r, pre, post, names, c);
        InMore(k0, keys, from, where + c);
      }
    }
  }

  lemma LongerKey(r: Repo, ch: Change, key: seq<string>, where: seq<string>, pre: string, post: string)
    requires IsChange(r, ch, key, where, pre, post)
    ensures |key| > |where|
  {
  }

  lemma SubtreeChange(r: Repo, ch: Change, key: seq<string>, where: seq<string>, pre: string, post: string, name: string, sub0: string, sub1: string)
    requires IsChange(r, ch, key, where + [name], sub0, sub1)
    requires forall c :: c != [] ==> r.ImageAt(pre, [name] + c) == r.ImageAt(sub0, c) && r.ImageAt(post, [name] + c) == r.ImageAt(sub1, c)
    ensures IsChange(r, ch, key, where, pre, post) && |key| > |where| && key[|where|] == name && key != where + [name]
  {
    hide Repo.ImageAt;
    var w := where + [name];
    var c := key[|w|..];
    assert key[..|w|] == w;
    assert key[|where|] == key[..|w|][|where|] == name;
    assert key[|where|..] == [name] + c;
    assert key[..|where|] == key[..|w|][..|where|] == where;
    assert c != [];
  }

  lemma InTail<T>(s: seq<T>, n: nat, from: nat, x: T)
    requires from <= n <= |s| && x in s[n..]
    ensures x in s[from..]
  {
    var i :| 0 <= i < |s[n..]| && s[n..][i] == x;
    assert s[from..][n - from + i] == x;
  }

  lemma InMore<T>(s: seq<T>, more: seq<T>, from: nat, x: T)
    requires from <= |s| && s <= more && x in s[from..]
    ensures x in more[from..]
  {
    var i :| 0 <= i < |s[from..]| && s[from..][i] == x;
    assert more[from..][i] == x;
  }

  /** The entry at a name, when the trees differ there, completes the name. */
  lemma LeafDone(r: Repo, d: Delta, keys: seq<seq<string>>, from: nat, where: seq<string>, pre: string, post: string, names: set<string>, name: string)
    requires ListsBut(r, d, keys, from, where, pre, post, names, name)
    ensures !Differ(r, pre, post, [name]) ==> ListsNamed(r, d, keys, from, where, pre, post, names + {name})
    ensures Differ(r, pre, post, [name]) ==>
              ListsNamed(r, d + [Change(Join(where + [name], '/'), r.ImageAt(pre, [name]), r.ImageAt(post, [name]))],
                         keys + [where + [name]], from, where, pre, post, names + {name})
  {
    hide Repo.ImageAt;
    var key := where + [name];
    if Differ(r, pre, post, [name]) {
      var ch := Change(Join(key, '/'), r.ImageAt(pre, [name]), r.ImageAt(post, [name]));
      var d1, k1 := d + [ch], keys + [key];
      assert key[..|where|] == where && key[|where|..] == [name];
      assert IsChange(r, ch, key, where, pre, post);
      forall i | from <= i < |d1| ensures IsChange(r, d1[i], k1[i], where, pre, post) && k1[i][|where|] in names + {name} {
        if i < |d| { assert d1[i] == d[i] && k1[i] == keys[i]; }
      }
      forall c | DifferIn(r, pre, post, names + {name}, c) ensures where + c in k1[from..] {
        if c == [name] {
          assert k1[from..][|d| - from] == key;
        } else {
          InMore(keys, k1, from, where + c);
        }
      }
    }
  }

  class Reader {
    const repo: Repo
    const limit: Limit?
    // The acyclic order of the store, and whether a checkout could hold both
    // of the trees being read.
    ghost const rank: map<string, nat>
    ghost const hold: bool
    var trees: map<string, seq<TreeEntry>>
    var leaves: map<string, string>
    var links: map<string, string>
    var sums: map<string, Sum>
    // What was spent before, the objects read and the trees whose entries were,
    // and the bytes and entries spent as they were checked and compared.
    ghost const startBytes: nat
    ghost const startEntries: nat
    ghost var read: set<string>
    ghost var listed: set<string>
    ghost var checkedBytes: nat
    ghost var walkedBytes: nat
    ghost var walked: nat

    ghost predicate Valid()
      reads this`trees, this`leaves, this`links, this`sums, this`read, this`listed
    {
      && repo.Valid() && repo.Acyclic(rank)
      && (forall t :: t in trees ==> repo.EntriesOf(t) == Some(trees[t]))
      && (forall o :: o in sums ==> IsBlob(o) && sums[o] == repo.sha(repo.objects[o].content))
      && (hold ==> forall o :: o in leaves ==> IsBlob(o))
      && (hold ==> forall o :: o in links ==> IsBlob(o) && TargetFits(repo.objects[o].content))
      && links.Keys <= leaves.Keys
      && trees.Keys <= listed && trees.Keys <= read && sums.Keys <= read
    }

    ghost predicate IsBlob(o: string) {
      o in repo.objects && repo.objects[o].Blob?
    }

    /** An entry of a tree read is done when the tree it names is read, and
        not empty, or the leaf it names is kept. */
    ghost predicate EntryDone(e: TreeEntry)
      reads this`trees, this`leaves, this`links
    {
      IsDone(trees, leaves.Keys, links.Keys, e)
    }

    /** Every entry of every tree read, but those being read, is done. */
    ghost predicate Done(open: set<string>)
      reads this`trees, this`leaves, this`links
    {
      AllDone(trees, leaves.Keys, links.Keys, open)
    }

    constructor (repo: Repo, limit: Limit?, ghost rank: map<string, nat>, ghost hold: bool)
      requires repo.Valid() && repo.Acyclic(rank)
      ensures Valid() && Done({}) && trees == map[] && leaves == map[]
      ensures this.repo == repo && this.limit == limit && this.rank == rank && this.hold == hold
      ensures limit != null ==> startBytes == limit.exactBytes && startEntries == limit.exactEntries
      ensures (limit != null ==> limit.Sound()) ==> Paid()
      ensures read == {}
    {
      this.repo, this.limit, this.rank, this.hold := repo, limit, rank, hold;
      trees, leaves, links, sums := map[], map[], map[], map[];
      startBytes, startEntries := if limit == null then 0 else limit.exactBytes, if limit == null then 0 else limit.exactEntries;
      read, listed, checkedBytes, walkedBytes, walked := {}, {}, 0, 0, 0;
    }

    /** The bytes owed for what was read, listed, checked and compared. */
    ghost function OwedBytes(): int
      reads this`read, this`listed, this`checkedBytes, this`walkedBytes
    {
      S.Sum(read, C.Sizes(repo)) + S.Sum(listed, C.NamesIn(repo)) + checkedBytes + walkedBytes
    }

    ghost function OwedEntries(): int
      reads this`listed, this`walked
    {
      S.Sum(listed, C.CountIn(repo)) + walked
    }

    /** Where there is a budget, its counters are sound, and all that is owed has
        been spent. */
    ghost predicate Paid()
      reads this`read, this`listed, this`checkedBytes, this`walkedBytes, this`walked, limit
    {
      limit != null ==>
        && limit.Sound()
        && limit.exactBytes >= startBytes + OwedBytes()
        && limit.exactEntries >= startEntries + OwedEntries()
    }

    /** The bytes spent in all. */
    ghost function Spent(): nat
      reads limit
    {
      if limit == null then 0 else limit.exactBytes
    }

    /** How far the bytes spent comparing are past those of a delta's paths. */
    ghost function Slack(d: Delta): int
      reads this`walkedBytes
    {
      walkedBytes - C.PathBytes(d)
    }

    ghost function EntrySlack(d: Delta): int
      reads this`walked
    {
      walked - |C.Changes(d)|
    }

    method Spend(b: nat, n: nat) returns (err: Option<Failure>)
      requires Paid()
      modifies limit
      ensures Paid() && old(Spent()) <= Spent()
      ensures limit != null && err.None? ==> limit.exactBytes == old(limit.exactBytes) + b && limit.exactEntries == old(limit.exactEntries) + n
      ensures err == None || err == Some(OverBudget)
      ensures err.Some? ==> limit != null && limit.stopped
      ensures limit != null ==> limit.asked == Asked(b, n, err.None?)
    {
      err := None;
      if limit != null {
        var late := *;
        var ok := limit.Spend(b, n, late);
        if !ok { err := Some(OverBudget); }
      }
    }

    /** Spends a path as an entry is checked. */
    method SpendChecked(path: string) returns (err: Option<Failure>)
      requires Paid()
      modifies limit, this`checkedBytes
      ensures Paid() && old(Spent()) <= Spent() && old(checkedBytes) <= checkedBytes
      ensures err.None? ==> checkedBytes == old(checkedBytes) + |path|
      ensures err.None? && limit != null ==> limit.exactBytes == old(limit.exactBytes) + |path|
      ensures err == None || err == Some(OverBudget)
      ensures err.Some? ==> limit != null && limit.stopped
    {
      hide Limit.Sound, S.Sum;
      err := Spend(|path|, 0);
      if err.None? { checkedBytes := checkedBytes + |path|; }
    }

    /** Spends a path and an entry as two trees are compared. */
    method SpendWalked(path: string) returns (err: Option<Failure>)
      requires Paid()
      modifies limit, this`walked, this`walkedBytes
      ensures Paid() && old(Spent()) <= Spent()
      ensures err.None? ==> walked == old(walked) + 1 && walkedBytes == old(walkedBytes) + |path|
      ensures err.None? && limit != null ==> limit.exactBytes == old(limit.exactBytes) + |path| && limit.exactEntries == old(limit.exactEntries) + 1
      ensures err == None || err == Some(OverBudget)
      ensures err.Some? ==> limit != null && limit.stopped
    {
      hide Limit.Sound, S.Sum;
      err := Spend(|path|, 1);
      if err.None? { walked, walkedBytes := walked + 1, walkedBytes + |path|; }
    }

    /** Reads one object whole, once its size has been spent. */
    method Read(oid: string) returns (r: Result<Object, Failure>)
      requires Paid()
      modifies limit, this`read
      ensures Paid() && old(Spent()) <= Spent() && old(read) <= read
      ensures r.Ok? ==> oid in read
      ensures r.Ok? && limit != null ==> limit.exactBytes == old(limit.exactBytes) + C.SizeOf(r.value)
      ensures r.Ok? && limit != null ==> limit.exactEntries == old(limit.exactEntries)
      ensures r.Ok? ==> oid in repo.objects && r.value == repo.objects[oid]
      ensures r == Err(Refused) ==> oid !in repo.objects
      ensures r == Err(OverBudget) ==> limit != null && limit.stopped
    {
      hide Limit.Sound, S.Sum;
      if oid !in repo.objects { return Err(Refused); }
      var o := repo.objects[oid];
      var err := Spend(match o { case Tree(d) => |d| case Blob(c) => |c| case Commit(t) => |t| }, 0);
      if err.Some? { return Err(err.value); }
      S.SumOneMore(read, C.Sizes(repo), oid);
      read := read + {oid};
      return Ok(o);
    }

    /** Reads a tree object's entries. */
    method ParseTree(data: string, at: string) returns (r: Result<seq<TreeEntry>, Failure>)
      requires Paid()
      modifies limit
      ensures Paid() && old(Spent()) <= Spent()
      ensures r.Ok? ==> Says(data, repo.size, r.value)
      ensures r.Ok? && limit != null ==> limit.exactBytes == old(limit.exactBytes) + PathsUnder(at, r.value)
      ensures r.Ok? && limit != null ==> limit.exactEntries == old(limit.exactEntries) + |r.value|
      ensures r == Err(Refused) ==> !exists es :: Says(data, repo.size, es)
      ensures r == Err(OverBudget) ==> limit != null && limit.stopped
    {
      hide TakeEntry, NameFits, Less, TreeData, ModeFits, PathsUnder, OwedBytes, OwedEntries, Limit.Sound, JoinPath;
      NoPaths(at);
      var entries: seq<TreeEntry> := [];
      var names: set<string>, prev, rest := {}, "", data;
      TreeDataOfNone();
      while rest != ""
        invariant Paid() && old(Spent()) <= Spent()
        invariant limit != null ==> limit.exactBytes == old(limit.exactBytes) + PathsUnder(at, entries)
        invariant limit != null ==> limit.exactEntries == old(limit.exactEntries) + |entries|
        invariant data == TreeData(entries) + rest && EntriesFit(entries, repo.size)
        invariant forall name :: name in names <==> exists e :: e in entries && e.name == name
        invariant if entries == [] then prev == "" else prev == entries[|entries| - 1].Key()
        invariant forall w :: Says(data, repo.size, w) ==> entries <= w
        decreases |rest|
      {
        var taken := TakeEntry(rest, repo.size);
        forall w | Says(data, repo.size, w)
          ensures taken.Some? && entries + [taken.value.0] <= w
        {
          TakesOn(entries, w, repo.size, rest);
          assert w[..|entries| + 1] == entries + [w[|entries|]];
        }
        if taken.None? { return Err(Refused); }
        TakenEntry(rest, repo.size);
        var (e, after) := taken.value;
        var err := Spend(|JoinPath(at, e.name)|, 1);
        if err.Some? { return Err(err.value); }
        forall w | Says(data, repo.size, w)
          ensures NextFits(entries, names, prev, e, repo.size)
        {
          NextOf(entries, names, prev, e, repo.size, w);
        }
        if !NameFits(e.name) || !(ModeFits(e.mode) || e.IsTree()) || e.name in names || !Less(prev, e.Key()) {
          return Err(Refused);
        }
        TakeNext(entries, names, prev, e, repo.size);
        names := names + {e.name};
        prev := e.Key();
        TreeDataAppend(entries, e);
        PathsOneMore(at, entries, e);
        entries := entries + [e];
        rest := after;
      }
      forall w | Says(data, repo.size, w) ensures w == entries {
        TakesOn(entries, w, repo.size, "");
      }
      return Ok(entries);
    }

    /** The tree an ID names. */
    method TreeFor(oid: string) returns (r: Result<string, Failure>)
      requires Paid()
      modifies limit, this`read
      ensures Paid() && old(Spent()) <= Spent() && old(read) <= read
      ensures r.Ok? ==> oid in read
      ensures r.Ok? ==> repo.TreeOf(oid) == Some(r.value)
      ensures r == Err(Refused) ==> repo.TreeOf(oid).None?
      ensures r == Err(OverBudget) ==> limit != null && limit.stopped
    {
      var o := Read(oid);
      if o.Err? { return Err(o.error); }
      var tree := repo.TreeOf(oid);
      r := if tree.Some? then Ok(tree.value) else Err(Refused);
    }

    /** Reads a tree's entries, for the first time. */
    method ReadTree(oid: string, at: string) returns (r: Result<seq<TreeEntry>, Failure>)
      requires Paid()
      modifies limit, this`read, this`listed
      ensures Paid() && old(Spent()) <= Spent() && old(read) <= read && old(listed) <= listed
      ensures r.Ok? ==> oid in read && oid in listed
      ensures r.Ok? ==> repo.EntriesOf(oid) == Some(r.value)
      ensures r == Err(Refused) ==> repo.EntriesOf(oid).None?
      ensures r == Err(OverBudget) ==> limit != null && limit.stopped
    {
      hide Says, S.Sum, Limit.Sound, PathsUnder;
      var o := Read(oid);
      if o.Err? { return Err(o.error); }
      if !o.value.Tree? { return Err(Refused); }
      r := ParseTree(o.value.data, at);
      if r.Ok? {
        repo.EntriesAre(oid, r.value);
        PathsHoldNames(at, r.value);
        S.SumOneMore(listed, C.NamesIn(repo), oid);
        S.SumOneMore(listed, C.CountIn(repo), oid);
        listed := listed + {oid};
      }
    }

    /** A tree being held to what a checkout holds lies below every tree whose
        entries are still being read. */
    ghost predicate Below(oid: string, open: set<string>)
      reads this
    {
      && open <= trees.Keys
      && forall o :: o in open ==> o in rank && (oid in repo.objects ==> oid in rank && rank[oid] < rank[o])
    }

    ghost function Now(): Held
      reads this`trees, this`leaves, this`links
    {
      Held(trees, leaves.Keys, links.Keys)
    }

    ghost function Height(oid: string): nat {
      if oid in repo.objects && oid in rank then rank[oid] + 1 else 0
    }

    /** Holds a tree, and all below it, to what a checkout can hold, descending into
        each tree the first time it is met. */
    method Check(oid: string, at: string, ghost open: set<string>) returns (err: Option<Failure>)
      requires Valid() && Done(open) && Below(oid, open)
      requires hold ==> oid in repo.objects && repo.Holdable(rank, oid, at == "")
      requires Paid()
      modifies this, limit
      ensures Paid() && old(Spent()) <= Spent() && old(read) <= read
      ensures Valid() && sums == old(sums) && old(Now()).Within(Now())
      ensures err.None? ==> Done(open) && oid in trees && (at != "" ==> trees[oid] != [])
      ensures err.None? ==> checkedBytes >= old(checkedBytes) + S.Sum(trees.Keys - old(trees.Keys), C.NamesIn(repo))
      ensures err == Some(Refused) ==> !hold
      ensures err == Some(OverBudget) ==> limit != null && limit.stopped
      decreases Height(oid), 2
    {
      hide Says, AllDone, IsDone, Repo.Valid, Repo.LeafHolds, Repo.Acyclic, Paid, S.Sum, C.NameBytes;
      var done := oid in trees;
      var entries: seq<TreeEntry> := if done then trees[oid] else [];
      if !done {
        var read := ReadTree(oid, at);
        if read.Err? { return Some(read.error); }
        entries := read.value;
      }
      if entries == [] && at != "" {
        return Some(Refused);
      }
      if done {
        NothingNew(trees.Keys);
        return None;
      }
      OpenOne(trees, leaves.Keys, links.Keys, open, oid, entries);
      ghost var before := Now();
      trees := trees[oid := entries];
      assert before.Within(Now());
      assert trees.Keys == old(trees.Keys) + {oid};
      err := CheckEntries(oid, at, open);
      if err.None? {
        OneNew(old(trees.Keys), trees.Keys, oid);
      }
    }

    /** What was spent checking entries is at least the names of the trees read. */
    ghost predicate AllChecked()
      reads this`trees, this`checkedBytes
    {
      checkedBytes >= S.Sum(trees.Keys, C.NamesIn(repo))
    }

    lemma PaidIsSound()
      requires Paid()
      ensures limit != null ==> limit.Sound() && Spent() == limit.exactBytes
    {
    }

    lemma NoneToCheck()
      ensures trees == map[] ==> AllChecked()
    {
    }

    lemma NothingNew(keys: set<string>)
      ensures S.Sum(keys - keys, C.NamesIn(repo)) == 0
    {
      assert keys - keys == {};
    }

    /** What is new since a tree was read is the tree, and what is new since. */
    lemma OneNew(before: set<string>, now: set<string>, oid: string)
      requires oid !in before && before + {oid} <= now
      ensures S.Sum(now - before, C.NamesIn(repo)) == S.Sum(now - (before + {oid}), C.NamesIn(repo)) + C.NamesIn(repo)(oid)
    {
      hide S.Sum;
      assert now - before == (now - (before + {oid})) + {oid};
      S.SumOneMore(now - (before + {oid}), C.NamesIn(repo), oid);
    }

    /** What is new in two steps is what is new in each. */
    lemma NewInSteps(a: set<string>, b: set<string>, c: set<string>)
      requires a <= b <= c
      ensures S.Sum(c - a, C.NamesIn(repo)) == S.Sum(b - a, C.NamesIn(repo)) + S.Sum(c - b, C.NamesIn(repo))
    {
      hide S.Sum;
      assert c - a == (b - a) + (c - b);
      S.SumBoth(b - a, c - b, C.NamesIn(repo));
    }

    /** Each entry of a tree newly read, in order. */
    method CheckEntries(oid: string, at: string, ghost open: set<string>) returns (err: Option<Failure>)
      requires Valid() && Done(open + {oid}) && Below(oid, open) && oid in trees
      requires hold ==> oid in repo.objects && repo.Holdable(rank, oid, at == "")
      requires Paid()
      modifies this, limit
      ensures Paid() && old(Spent()) <= Spent() && old(read) <= read
      ensures Valid() && sums == old(sums) && old(Now()).Within(Now())
      ensures err.None? ==> Done(open)
      ensures err.None? ==> checkedBytes >= old(checkedBytes) + S.Sum(trees.Keys - old(trees.Keys), C.NamesIn(repo)) + C.NamesIn(repo)(oid)
      ensures err == Some(Refused) ==> !hold
      ensures err == Some(OverBudget) ==> limit != null && limit.stopped
      decreases Height(oid), 1
    {
      hide Says, AllDone, IsDone, Repo.Valid, Repo.LeafHolds, Repo.Acyclic, Paid, S.Sum, C.NameBytes;
      var entries := trees[oid];
      NothingNew(trees.Keys);
      assert entries[..0] == [] && C.NameBytes([]) == 0 by { C.NoNameBytes(); }
      for n := 0 to |entries|
        invariant Paid() && old(Spent()) <= Spent() && old(read) <= read && old(trees.Keys) <= trees.Keys
        invariant checkedBytes >= old(checkedBytes) + S.Sum(trees.Keys - old(trees.Keys), C.NamesIn(repo)) + C.NameBytes(entries[..n])
        invariant Valid() && sums == old(sums) && Done(open + {oid}) && old(Now()).Within(Now())
        invariant oid in trees && trees[oid] == entries && Now().AllOf(entries[..n])
      {
        var e := entries[n];
        assert entries[..n + 1] == entries[..n] + [e];
        assert e in entries;
        ghost var before := Now();
        err := CheckEntry(e, oid, at, open);
        if err.Some? { return; }
        StillDone(before, Now(), entries[..n]);
        NewInSteps(old(trees.Keys), before.trees.Keys, trees.Keys);
        C.EachNameBytes(entries[..n], e);
        PathIsLonger(at, e.name);
      }
      assert entries[..|entries|] == entries;
      CloseOne(trees, leaves.Keys, links.Keys, open, oid);
      err := None;
    }

    /** One entry of a tree being read. */
    method CheckEntry(e: TreeEntry, oid: string, at: string, ghost open: set<string>) returns (err: Option<Failure>)
      requires Valid() && Done(open + {oid}) && Below(oid, open) && oid in trees && e in trees[oid]
      requires hold && e.IsTree() ==> e.oid in repo.objects && repo.Holdable(rank, e.oid, false)
      requires hold && !e.IsTree() ==> repo.LeafHolds(e)
      requires Paid()
      modifies this, limit
      ensures Paid() && old(Spent()) <= Spent() && old(read) <= read
      ensures Valid() && sums == old(sums) && old(Now()).Within(Now())
      ensures err.None? ==> Done(open + {oid}) && EntryDone(e)
      ensures err.None? ==> checkedBytes >= old(checkedBytes) + S.Sum(trees.Keys - old(trees.Keys), C.NamesIn(repo)) + |JoinPath(at, e.name)|
      ensures err == Some(Refused) ==> !hold
      ensures err == Some(OverBudget) ==> limit != null && limit.stopped
      decreases Height(oid), 0
    {
      hide Says, AllDone, Repo.Valid, Repo.LeafHolds, Paid, S.Sum, JoinPath;
      var path := JoinPath(at, e.name);
      assert path != "" by {
        SaysNames(repo.objects[oid].data, repo.size, trees[oid], e);
        PathNotEmpty(at, e.name);
      }
      err := SpendChecked(path);
      if err.Some? { return; }
      if e.IsTree() {
        err := Check(e.oid, path, open + {oid});
      } else {
        NothingNew(trees.Keys);
        KeepLeaf(e, path, open + {oid});
      }
    }

    /** Keeps a leaf for CheckLeaves. */
    method KeepLeaf(e: TreeEntry, path: string, ghost open: set<string>)
      requires Valid() && !e.IsTree() && Done(open)
      requires hold ==> repo.LeafHolds(e)
      modifies this`leaves, this`links
      ensures Valid() && sums == old(sums) && trees == old(trees) && EntryDone(e)
      ensures Done(open)
      ensures old(leaves.Keys) <= leaves.Keys && old(links.Keys) <= links.Keys
    {
      hide AllDone;
      ghost var before := (leaves.Keys, links.Keys);
      if e.oid !in leaves { leaves := leaves[e.oid := e.mode]; }
      if e.mode == MODE_SYMLINK && e.oid !in links { links := links[e.oid := path]; }
      KeepMore(trees, before.0, before.1, leaves.Keys, links.Keys, open);
    }

    /** Refuses a leaf whose object is not a blob, and a symlink's target that
        could not be made. */
    method CheckLeaves() returns (err: Option<Failure>)
      requires Valid()
      requires Paid()
      modifies this`sums, this`read, limit
      ensures err.None? ==> links.Keys <= sums.Keys
      ensures Paid() && old(Spent()) <= Spent() && old(read) <= read
      ensures Valid() && trees == old(trees) && leaves == old(leaves) && links == old(links)
      ensures err.None? ==> LeavesHold()
      ensures err == Some(Refused) ==> !hold
      ensures err == Some(OverBudget) ==> limit != null && limit.stopped
    {
      hide Less, Repo.Acyclic, Repo.Valid, TargetFits, StrictlySorted;
      var oids := Sorted(leaves.Keys);
      for n := 0 to |oids|
        invariant Paid() && old(Spent()) <= Spent()
        invariant Valid() && trees == old(trees) && leaves == old(leaves) && links == old(links)
        invariant forall m :: 0 <= m < n ==> IsBlob(oids[m])
      {
        assert oids[n] in oids;
        if oids[n] !in repo.objects || !repo.objects[oids[n]].Blob? { return Some(Refused); }
      }
      err := CheckLinks(oids);
      if err.Some? { return; }
      forall o | o in leaves ensures IsBlob(o) && (o in links ==> o in sums && TargetFits(repo.objects[o].content)) {
        assert o in oids;
      }
    }

    /** Reads every blob a symlink names. */
    method CheckLinks(oids: seq<string>) returns (err: Option<Failure>)
      requires Valid() && forall m :: 0 <= m < |oids| ==> IsBlob(oids[m])
      requires Paid()
      modifies this`sums, this`read, limit
      ensures err.None? ==> forall m :: 0 <= m < |oids| && oids[m] in links ==> oids[m] in sums
      ensures Paid() && old(Spent()) <= Spent() && old(read) <= read
      ensures Valid() && trees == old(trees) && leaves == old(leaves) && links == old(links)
      ensures err.None? ==> forall m :: 0 <= m < |oids| && oids[m] in links ==> IsBlob(oids[m]) && TargetFits(repo.objects[oids[m]].content)
      ensures err == Some(Refused) ==> !hold
      ensures err == Some(OverBudget) ==> limit != null && limit.stopped
    {
      hide Repo.Acyclic, Repo.Valid, TargetFits, Paid;
      for n := 0 to |oids|
        invariant Paid() && old(Spent()) <= Spent()
        invariant Valid() && trees == old(trees) && leaves == old(leaves) && links == old(links)
        invariant old(read) <= read
        invariant forall m :: 0 <= m < n && oids[m] in links ==> oids[m] in sums && TargetFits(repo.objects[oids[m]].content)
      {
        if oids[n] !in links { continue; }
        assert IsBlob(oids[n]);
        var o := Read(oids[n]);
        if o.Err? { return Some(o.error); }
        if !TargetFits(o.value.content) { return Some(Refused); }
        sums := sums[oids[n] := repo.sha(o.value.content)];
      }
      err := None;
    }

    ghost predicate LeavesHold()
      reads this`leaves, this`links
    {
      forall o :: o in leaves ==> IsBlob(o) && (o in links ==> TargetFits(repo.objects[o].content))
    }

    /** A whole reading that refused nothing holds only trees a checkout could
        hold. */
    lemma ReadIsHoldable(tree: string)
      requires Valid() && Done({}) && LeavesHold() && tree in trees
      ensures tree in repo.objects && repo.Holdable(rank, tree, true)
      ensures trees[tree] != [] ==> repo.Holdable(rank, tree, false)
      decreases if tree in rank then rank[tree] else 0
    {
      hide Says, TargetFits;
      forall e | e in trees[tree]
        ensures if e.IsTree() then e.oid in repo.objects && repo.Holdable(rank, e.oid, false) else repo.LeafHolds(e)
      {
        assert EntryDone(e);
        if e.IsTree() {
          assert repo.EntriesOf(e.oid).Some?;
          ReadIsHoldable(e.oid);
        }
      }
    }

    /** Both trees read whole, with nothing refused. */
    ghost predicate Whole()
      reads this`trees, this`leaves, this`links, this`sums, this`read, this`listed
    {
      Valid() && Done({}) && LeavesHold()
    }

    /** A side of the comparison is a tree read, or none. */
    ghost predicate IsSide(tree: string)
      reads this`trees
    {
      tree == "" || tree in trees
    }

    function Side(tree: string, name: string): Option<TreeEntry>
      reads this`trees
    {
      if tree in trees then Named(trees[tree], name) else None
    }

    /** The image of an entry that is no subtree; a blob met again is not read again. */
    method ImageOf(e: Option<TreeEntry>) returns (r: Result<Image, Failure>)
      requires Whole()
      requires e.Some? ==> !e.value.IsTree() && EntryDone(e.value)
      requires Paid()
      modifies this`sums, this`read, limit
      ensures Paid() && old(Spent()) <= Spent()
      ensures Whole()
      ensures r.Ok? ==> r.value == if e.None? then ABSENT else repo.LeafImage(e.value)
      ensures old(sums.Keys) <= sums.Keys && old(read) <= read
      ensures r.Ok? && e.Some? ==> e.value.oid in sums
      ensures r.Err? ==> r.error == OverBudget && limit != null && limit.stopped
    {
      hide AllDone, Repo.Acyclic, Repo.Valid, TargetFits, Paid;
      if e.None? { return Ok(ABSENT); }
      var oid := e.value.oid;
      assert IsBlob(oid);
      if oid !in sums {
        var o := Read(oid);
        if o.Err? { return Err(o.error); }
        sums := sums[oid := repo.sha(o.value.content)];
      }
      return Ok(Image(e.value.mode, sums[oid]));
    }

    /** The entries of two trees by name, one on each side. */
    method ByName(pre: string, post: string) returns (m: map<string, (Option<TreeEntry>, Option<TreeEntry>)>)
      requires Valid() && IsSide(pre) && IsSide(post)
      ensures forall name :: name in m ==> m[name] == (Side(pre, name), Side(post, name)) && (m[name].0.Some? || m[name].1.Some?)
      ensures forall name :: name !in m ==> Side(pre, name).None? && Side(post, name).None?
    {
      hide Says, Repo.Acyclic;
      EmptyIsNoTree();
      m := map[];
      if pre != "" {
        DistinctNames(pre);
        m := AddSide(m, trees[pre], true);
      }
      if post != "" {
        DistinctNames(post);
        m := AddSide(m, trees[post], false);
      }
      forall name ensures PairAt(m, name) == (Side(pre, name), Side(post, name)) {}
      forall name | name in m ensures m[name].0.Some? || m[name].1.Some? {
        assert (pre != "" && name in Names(trees[pre])) || (post != "" && name in Names(trees[post]));
      }
    }

    /** The subtree an entry names, or none. */
    static function SubOf(e: Option<TreeEntry>): string {
      if e.Some? && e.value.IsTree() then e.value.oid else ""
    }

    static function LeafOf(e: Option<TreeEntry>): Option<TreeEntry> {
      if e.Some? && !e.value.IsTree() then e else None
    }

    /** What a tree holds below a name is what the subtree of that name holds. */
    lemma SubImage(tree: string, name: string, c: seq<string>)
      requires Valid() && IsSide(tree) && c != []
      ensures repo.ImageAt(tree, [name] + c) == repo.ImageAt(SubOf(Side(tree, name)), c)
    {
      hide Says, Repo.Acyclic;
      EmptyIsNoTree();
      assert ([name] + c)[1..] == c;
    }

    lemma SubImages(tree: string, name: string)
      requires Whole() && IsSide(tree)
      ensures forall c :: c != [] ==> repo.ImageAt(tree, [name] + c) == repo.ImageAt(SubOf(Side(tree, name)), c)
    {
      hide AllDone, Side, Repo.ImageAt, SubOf;
      forall c | c != [] ensures repo.ImageAt(tree, [name] + c) == repo.ImageAt(SubOf(Side(tree, name)), c) {
        SubImage(tree, name, c);
      }
    }

    lemma LeafImageAt(tree: string, name: string)
      requires Valid() && IsSide(tree)
      ensures var leaf := LeafOf(Side(tree, name));
              repo.ImageAt(tree, [name]) == if leaf.None? then ABSENT else repo.LeafImage(leaf.value)
    {
      hide Says, Repo.Acyclic;
      EmptyIsNoTree();
      assert [name][1..] == [];
    }

    lemma LeafBlobAt(tree: string, name: string)
      requires Valid() && IsSide(tree)
      ensures var leaf := LeafOf(Side(tree, name));
              C.BlobAt(repo, tree, [name]) == if leaf.None? then None else Some(leaf.value.oid)
    {
      hide Says, Repo.Acyclic;
      EmptyIsNoTree();
      assert [name][1..] == [];
    }

    lemma SubBlobs(tree: string, name: string)
      requires Whole() && IsSide(tree)
      ensures forall c :: c != [] ==> C.BlobAt(repo, tree, [name] + c) == C.BlobAt(repo, SubOf(Side(tree, name)), c)
    {
      hide AllDone, Side, C.BlobAt, SubOf;
      forall c | c != [] ensures C.BlobAt(repo, tree, [name] + c) == C.BlobAt(repo, SubOf(Side(tree, name)), c) {
        SubBlob(tree, name, c);
      }
    }

    lemma SubBlob(tree: string, name: string, c: seq<string>)
      requires Valid() && IsSide(tree) && c != []
      ensures C.BlobAt(repo, tree, [name] + c) == C.BlobAt(repo, SubOf(Side(tree, name)), c)
    {
      hide Says, Repo.Acyclic;
      EmptyIsNoTree();
      assert ([name] + c)[1..] == c;
    }

    lemma SideOf(tree: string, name: string)
      requires Whole() && IsSide(tree) && Side(tree, name).Some?
      ensures NameFits(name) && '\0' !in name
      ensures EntryDone(Side(tree, name).value)
      ensures IsSide(SubOf(Side(tree, name)))
      ensures Height(SubOf(Side(tree, name))) < Height(tree)
    {
      hide Says, NameFits, Less;
      var e := Side(tree, name).value;
      assert repo.EntriesOf(tree) == Some(trees[tree]);
      SaysNames(repo.objects[tree].data, repo.size, trees[tree], e);
      assert EntryDone(e);
    }

    /** Adds every path under a directory whose images differ between two
        trees, each once. Equal trees are not read again. */
    method Diff(pre: string, post: string, at: string, ghost where: seq<string>, d: Gathered) returns (err: Option<Failure>)
      requires Whole() && IsSide(pre) && IsSide(post) && IsPath(at, where) && |d.keys| == |d.changes|
      requires Paid()
      modifies this`sums, this`read, this`walked, this`walkedBytes, limit, d
      ensures Paid() && old(Spent()) <= Spent()
      ensures Whole() && Grown(old(d.changes), old(d.keys), d.changes, d.keys)
      ensures err.None? ==> Lists(repo, d.changes, d.keys, |old(d.changes)|, where, pre, post)
      ensures old(sums.Keys) <= sums.Keys && old(read) <= read
      ensures err.None? ==> AllBlobsIn(repo, pre, post, sums.Keys)
      ensures err.None? ==> Slack(d.changes) >= old(Slack(d.changes)) && EntrySlack(d.changes) >= old(EntrySlack(d.changes))
      ensures err.Some? ==> err == Some(OverBudget) && limit != null && limit.stopped
      decreases Height(pre) + Height(post), 2
    {
      hide BlobsIn, AllBlobsIn, NamedBlobsIn, Slack, EntrySlack, Paid, Whole, Side, IsChange, Repo.ImageAt, IsPath;
      if pre == post {
        SameBlobs(pre, sums.Keys);
        return None;
      }
      Meanings();
      var byName := ByName(pre, post);
      var todo := byName.Keys;
      NoBlobsNamed(pre, post, sums.Keys);
      assert byName.Keys - todo == {};
      while todo != {}
        invariant Paid() && old(Spent()) <= Spent()
        invariant todo <= byName.Keys && Whole()
        invariant old(sums.Keys) <= sums.Keys && old(read) <= read
        invariant NamedBlobsIn(repo, pre, post, byName.Keys - todo, sums.Keys)
        invariant Slack(d.changes) >= old(Slack(d.changes)) && EntrySlack(d.changes) >= old(EntrySlack(d.changes))
        invariant Grown(old(d.changes), old(d.keys), d.changes, d.keys)
        invariant ListsNamed(repo, d.changes, d.keys, |old(d.changes)|, where, pre, post, byName.Keys - todo)
        decreases todo
      {
        var name :| name in todo;
        ghost var had := sums.Keys;
        err := DiffName(name, byName[name], pre, post, at, where, d, |old(d.changes)|, byName.Keys - todo);
        if err.Some? { return; }
        MoreBlobsIn(repo, pre, post, byName.Keys - todo, had, sums.Keys);
        NamesBlobsIn(repo, pre, post, byName.Keys - todo, {name}, sums.Keys);
        assert byName.Keys - todo + {name} == byName.Keys - (todo - {name});
        todo := todo - {name};
      }
      OnlyTheirNames(pre, post, byName.Keys);
      assert byName.Keys - todo == byName.Keys;
      EveryBlobIn(repo, pre, post, byName.Keys, sums.Keys);
      AllNames(repo, d.changes, d.keys, |old(d.changes)|, where, pre, post, byName.Keys);
      err := None;
    }

    lemma NoBlobsNamed(pre: string, post: string, have: set<string>)
      ensures NamedBlobsIn(repo, pre, post, {}, have)
    {
    }

    /** Every tree reached from one read is read. */
    lemma {:induction false} ReachedIsRead(p: seq<string>)
      requires Whole() && C.Chain(repo, p) && p[0] in trees
      ensures p[|p| - 1] in trees
      decreases |p|
    {
      hide LeavesHold;
      if |p| > 1 {
        assert C.Names(repo, p[0], p[0 + 1]);
        var e :| e in trees[p[0]] && e.IsTree() && e.oid == p[1];
        assert EntryDone(e);
        var q := p[1..];
        forall i | 0 <= i < |q| - 1 ensures C.Names(repo, q[i], q[i + 1]) {
          assert C.Names(repo, p[i + 1], p[i + 1 + 1]);
        }
        ReachedIsRead(q);
      }
    }

    lemma TreesAreRead(root: string)
      requires Whole() && root in trees
      ensures forall tree :: C.Reaches(repo, root, tree) ==> tree in trees
    {
      hide Whole;
      forall tree | C.Reaches(repo, root, tree) ensures tree in trees {
        var p :| C.Chain(repo, p) && p[0] == root && p[|p| - 1] == tree;
        ReachedIsRead(p);
      }
    }

    /** Everything two trees need was read, once they are compared. */
    lemma AllNeeded(pre: string, post: string)
      requires Whole() && pre in trees && post in trees && links.Keys <= sums.Keys && AllBlobsIn(repo, pre, post, sums.Keys)
      ensures C.Needed(repo, pre, post) <= read && C.TreesOf(repo, pre, post) <= trees.Keys
      ensures trees.Keys <= listed
    {
      hide C.Reaches, Repo.ImageAt, C.BlobAt, LeavesHold;
      TreesAreRead(pre);
      TreesAreRead(post);
      forall oid | C.Links(repo, pre, oid) || C.Links(repo, post, oid) ensures oid in read {
        var tree, e :| (C.Reaches(repo, pre, tree) || C.Reaches(repo, post, tree)) && repo.EntriesOf(tree).Some?
          && e in repo.EntriesOf(tree).value && !e.IsTree() && e.mode == MODE_SYMLINK && e.oid == oid;
        assert EntryDone(e);
      }
      forall oid | C.Differs(repo, pre, post, oid) ensures oid in read {
        var at :| Differ(repo, pre, post, at) && (C.BlobAt(repo, pre, at) == Some(oid) || C.BlobAt(repo, post, at) == Some(oid));
        assert BlobsIn(repo, pre, post, at, sums.Keys);
      }
    }

    /** So what is needed has been spent. */
    lemma NeededIsPaid(pre: string, post: string, d: Delta)
      requires Paid() && AllChecked() && limit != null && Slack(d) >= 0 && EntrySlack(d) >= 0
      requires C.Needed(repo, pre, post) <= read && C.TreesOf(repo, pre, post) <= trees.Keys <= listed
      ensures limit.exactBytes >= startBytes + C.BytesNeeded(repo, pre, post, d)
      ensures limit.exactEntries >= startEntries + C.EntriesNeeded(repo, pre, post, d)
      ensures forall c :: c in d ==> |c.path| <= limit.exactBytes
    {
      hide S.Sum, C.Needed, C.TreesOf, Limit.Sound, C.Changes;
      S.SumFewer(C.Needed(repo, pre, post), read, C.Sizes(repo));
      S.SumFewer(C.TreesOf(repo, pre, post), listed, C.NamesIn(repo));
      S.SumFewer(C.TreesOf(repo, pre, post), trees.Keys, C.NamesIn(repo));
      S.SumFewer(C.TreesOf(repo, pre, post), listed, C.CountIn(repo));
      S.SumAtLeast(read, C.Sizes(repo));
      S.SumAtLeast(listed, C.NamesIn(repo));
      forall c | c in d ensures |c.path| <= limit.exactBytes { C.PathWithin(d, c); }
    }

    lemma SameBlobs(tree: string, have: set<string>)
      ensures AllBlobsIn(repo, tree, tree, have)
    {
    }

    lemma NoBlobsUnder(have: set<string>)
      ensures AllBlobsIn(repo, "", "", have)
    {
    }

    lemma MoreAllBlobsIn(r: Repo, pre: string, post: string, have: set<string>, more: set<string>)
      requires AllBlobsIn(r, pre, post, have) && have <= more
      ensures AllBlobsIn(r, pre, post, more)
    {
      hide Repo.ImageAt;
      forall c | Differ(r, pre, post, c) ensures BlobsIn(r, pre, post, c, more) {
        assert BlobsIn(r, pre, post, c, have);
      }
    }

    lemma Meanings()
      requires Whole()
      ensures Valid() && Height("") == 0
    {
    }

    /** Trees differ only at paths that start with a name one of them has. */
    lemma OnlyTheirNames(pre: string, post: string, names: set<string>)
      requires Whole() && IsSide(pre) && IsSide(post)
      requires forall name :: name !in names ==> Side(pre, name).None? && Side(post, name).None?
      ensures forall c :: Differ(repo, pre, post, c) ==> DifferIn(repo, pre, post, names, c)
    {
      hide Says, Repo.Acyclic;
      EmptyIsNoTree();
    }

    /** One name of two trees: the subtrees under it, and then the entry. */
    method DiffName(name: string, pair: (Option<TreeEntry>, Option<TreeEntry>), pre: string, post: string,
                    at: string, ghost where: seq<string>, d: Gathered, ghost from: nat, ghost names: set<string>)
      returns (err: Option<Failure>)
      requires Whole() && IsSide(pre) && IsSide(post) && IsPath(at, where)
      requires pair == (Side(pre, name), Side(post, name)) && (pair.0.Some? || pair.1.Some?)
      requires ListsNamed(repo, d.changes, d.keys, from, where, pre, post, names) && name !in names
      requires Paid()
      modifies this`sums, this`read, this`walked, this`walkedBytes, limit, d
      ensures Paid() && old(Spent()) <= Spent()
      ensures Whole() && Grown(old(d.changes), old(d.keys), d.changes, d.keys)
      ensures err.None? ==> ListsNamed(repo, d.changes, d.keys, from, where, pre, post, names + {name})
      ensures old(sums.Keys) <= sums.Keys && old(read) <= read
      ensures err.None? ==> NamedBlobsIn(repo, pre, post, {name}, sums.Keys)
      ensures err.None? ==> Slack(d.changes) >= old(Slack(d.changes)) && EntrySlack(d.changes) >= old(EntrySlack(d.changes))
      ensures err.Some? ==> err == Some(OverBudget) && limit != null && limit.stopped
      decreases Height(pre) + Height(post), 1
    {
      hide BlobsIn, AllBlobsIn, NamedBlobsIn, C.BlobAt, C.PathBytes, C.Changes, Paid, Whole, Side, Lists, ListsNamed, ListsBut, Repo.ImageAt, IsPath, NameFits, JoinPath, Join, IsDone, Grown;
      ListsLengths(repo, d.changes, d.keys, from, where, pre, post, names);
      Meanings();
      if pair.0.Some? { SideOf(pre, name); }
      if pair.1.Some? { SideOf(post, name); }
      GrownSelf(d.changes, d.keys);
      var path := JoinPath(at, name);
      PathOn(at, where, name);
      err := SpendWalked(path);
      if err.Some? { return; }
      ghost var before := (d.changes, d.keys);
      err := DiffSubtrees(name, pair, pre, post, path, where, d);
      if err.Some? { return; }
      ghost var had := sums.Keys;
      SubtreesAre(before.0, before.1, d.changes, d.keys, from, where, pre, post, names, name);
      ghost var between := (d.changes, d.keys);
      err := DiffLeaf(name, pair, pre, post, path, where, d, from, names);
      if err.None? {
        BlobsAtName(pre, post, name, had);
      }
      GrownTrans(before.0, before.1, between.0, between.1, d.changes, d.keys);
    }

    /** The subtrees under one name, if there are any. */
    method DiffSubtrees(name: string, pair: (Option<TreeEntry>, Option<TreeEntry>), pre: string, post: string,
                        path: string, ghost where: seq<string>, d: Gathered)
      returns (err: Option<Failure>)
      requires Whole() && IsSide(pre) && IsSide(post) && IsPath(path, where + [name]) && |d.keys| == |d.changes|
      requires pair == (Side(pre, name), Side(post, name)) && (pair.0.Some? || pair.1.Some?)
      requires Paid()
      modifies this`sums, this`read, this`walked, this`walkedBytes, limit, d
      ensures Paid() && old(Spent()) <= Spent()
      ensures Whole() && Grown(old(d.changes), old(d.keys), d.changes, d.keys)
      ensures err.None? ==>
                Lists(repo, d.changes, d.keys, |old(d.changes)|, where + [name], SubOf(Side(pre, name)), SubOf(Side(post, name)))
      ensures old(sums.Keys) <= sums.Keys && old(read) <= read
      ensures err.None? ==> AllBlobsIn(repo, SubOf(Side(pre, name)), SubOf(Side(post, name)), sums.Keys)
      ensures err.None? ==> Slack(d.changes) >= old(Slack(d.changes)) && EntrySlack(d.changes) >= old(EntrySlack(d.changes))
      ensures err.Some? ==> err == Some(OverBudget) && limit != null && limit.stopped
      decreases Height(pre) + Height(post), 0
    {
      hide AllBlobsIn, Slack, EntrySlack, Paid, Whole, Side, Lists, IsPath, Grown, IsDone;
      Meanings();
      if pair.0.Some? { SideOf(pre, name); }
      if pair.1.Some? { SideOf(post, name); }
      var sub := (SubOf(pair.0), SubOf(pair.1));
      if sub.0 != "" || sub.1 != "" {
        err := Diff(sub.0, sub.1, path, where + [name], d);
      } else {
        GrownSelf(d.changes, d.keys);
        NothingUnder(repo, d.changes, d.keys, where + [name]);
        NoBlobsUnder(sums.Keys);
        err := None;
      }
    }

    /** Once the subtrees are compared, only the name itself is left. */
    lemma SubtreesAre(d0: Delta, k0: seq<seq<string>>, d: Delta, keys: seq<seq<string>>, from: nat, where: seq<string>,
                      pre: string, post: string, names: set<string>, name: string)
      requires Whole() && IsSide(pre) && IsSide(post)
      requires ListsNamed(repo, d0, k0, from, where, pre, post, names) && name !in names
      requires Grown(d0, k0, d, keys) && Lists(repo, d, keys, |d0|, where + [name], SubOf(Side(pre, name)), SubOf(Side(post, name)))
      ensures |keys| == |d| && ListsBut(repo, d, keys, from, where, pre, post, names, name)
    {
      hide Whole, Side, SubOf, Lists, ListsNamed, ListsBut, Grown, Repo.ImageAt;
      SubImages(pre, name);
      SubImages(post, name);
      SubtreesDone(repo, d0, k0, d, keys, from, where, pre, post, names, name, SubOf(Side(pre, name)), SubOf(Side(post, name)));
    }

    lemma BlobsAtName(pre: string, post: string, name: string, had: set<string>)
      requires Whole() && IsSide(pre) && IsSide(post) && had <= sums.Keys
      requires AllBlobsIn(repo, SubOf(Side(pre, name)), SubOf(Side(post, name)), had)
      requires Differ(repo, pre, post, [name]) ==> BlobsIn(repo, pre, post, [name], sums.Keys)
      ensures NamedBlobsIn(repo, pre, post, {name}, sums.Keys)
    {
      hide Whole, Side, SubOf, Repo.ImageAt, C.BlobAt, BlobsIn, AllBlobsIn, NamedBlobsIn;
      SubImages(pre, name);
      SubImages(post, name);
      SubBlobs(pre, name);
      SubBlobs(post, name);
      MoreAllBlobsIn(repo, SubOf(Side(pre, name)), SubOf(Side(post, name)), had, sums.Keys);
      SubtreeBlobsIn(repo, pre, post, name, SubOf(Side(pre, name)), SubOf(Side(post, name)), sums.Keys);
    }

    /** The entry at one name, once the subtrees under it are compared. */
    method DiffLeaf(name: string, pair: (Option<TreeEntry>, Option<TreeEntry>), pre: string, post: string,
                    path: string, ghost where: seq<string>, d: Gathered, ghost from: nat, ghost names: set<string>)
      returns (err: Option<Failure>)
      requires |d.keys| == |d.changes|
      requires Whole() && IsSide(pre) && IsSide(post) && path == Join(where + [name], '/')
      requires pair == (Side(pre, name), Side(post, name))
      requires ListsBut(repo, d.changes, d.keys, from, where, pre, post, names, name)
      requires Paid()
      modifies this`sums, this`read, limit, d
      ensures Paid() && old(Spent()) <= Spent()
      ensures Whole() && Grown(old(d.changes), old(d.keys), d.changes, d.keys)
      ensures err.None? ==> ListsNamed(repo, d.changes, d.keys, from, where, pre, post, names + {name})
      ensures old(sums.Keys) <= sums.Keys && old(read) <= read
      ensures err.None? && Differ(repo, pre, post, [name]) ==> BlobsIn(repo, pre, post, [name], sums.Keys)
      ensures C.PathBytes(d.changes) <= C.PathBytes(old(d.changes)) + |path|
      ensures |C.Changes(d.changes)| <= |C.Changes(old(d.changes))| + 1
      ensures err.Some? ==> err == Some(OverBudget) && limit != null && limit.stopped
    {
      hide BlobsIn, C.PathBytes, C.Changes, Paid, Whole, Side, Lists, ListsNamed, ListsBut, IsChange, Repo.ImageAt, Repo.LeafImage, NameFits;
      var images := LeafImages(name, pair, pre, post);
      if images.Err? { return Some(images.error); }
      LeafDone(repo, d.changes, d.keys, from, where, pre, post, names, name);
      var (a, b) := images.value;
      if a != b {
        C.PathsOneMore(d.changes, Change(path, a, b));
        d.changes := d.changes + [Change(path, a, b)];
        d.keys := d.keys + [where + [name]];
      }
      err := None;
    }

    /** The images of the entries at one name, read unless the entries are the
        same or there are none. */
    method LeafImages(name: string, pair: (Option<TreeEntry>, Option<TreeEntry>), pre: string, post: string)
      returns (r: Result<(Image, Image), Failure>)
      requires Whole() && IsSide(pre) && IsSide(post)
      requires pair == (Side(pre, name), Side(post, name))
      requires Paid()
      modifies this`sums, this`read, limit
      ensures Paid() && old(Spent()) <= Spent()
      ensures Whole()
      ensures r.Ok? ==> (r.value.0 == r.value.1 <==> !Differ(repo, pre, post, [name]))
      ensures old(sums.Keys) <= sums.Keys && old(read) <= read
      ensures r.Ok? && Differ(repo, pre, post, [name]) ==> BlobsIn(repo, pre, post, [name], sums.Keys)
      ensures r.Ok? && r.value.0 != r.value.1 ==> r.value == (repo.ImageAt(pre, [name]), repo.ImageAt(post, [name]))
      ensures r.Err? ==> r.error == OverBudget && limit != null && limit.stopped
    {
      hide Whole, Side, Repo.ImageAt, Repo.LeafImage, NameFits, Paid, C.BlobAt;
      Meanings();
      LeafImageAt(pre, name);
      LeafImageAt(post, name);
      LeafBlobAt(pre, name);
      LeafBlobAt(post, name);
      if pair.0.Some? { SideOf(pre, name); }
      if pair.1.Some? { SideOf(post, name); }
      var leaf := (LeafOf(pair.0), LeafOf(pair.1));
      if leaf.0 == leaf.1 {
        return Ok((ABSENT, ABSENT));
      }
      var a := ImageOf(leaf.0);
      if a.Err? { return Err(a.error); }
      if pair.1.Some? { SideOf(post, name); }
      var b := ImageOf(leaf.1);
      if b.Err? { return Err(b.error); }
      return Ok((a.value, b.value));
    }

    lemma EmptyIsNoTree()
      requires Valid()
      ensures "" !in trees
    {
    }

    lemma DistinctNames(tree: string)
      requires Valid() && tree in trees
      ensures forall i, j :: 0 <= i < j < |trees[tree]| ==> trees[tree][i].name != trees[tree][j].name
    {
      hide Less;
      assert repo.EntriesOf(tree) == Some(trees[tree]);
    }
  }

  type Pairs = map<string, (Option<TreeEntry>, Option<TreeEntry>)>

  function PairAt(m: Pairs, name: string): (Option<TreeEntry>, Option<TreeEntry>) {
    if name in m then m[name] else (None, None)
  }

  lemma PairSet(m: Pairs, name: string, pair: (Option<TreeEntry>, Option<TreeEntry>))
    ensures forall x :: PairAt(m[name := pair], x) == if x == name then pair else PairAt(m, x)
  {
    var set1 := m[name := pair];
    forall x ensures PairAt(set1, x) == if x == name then pair else PairAt(m, x) {}
  }

  /** Sets one side of the pair at each entry's name. */
  method AddSide(m0: Pairs, es: seq<TreeEntry>, left: bool) returns (m: Pairs)
    requires forall i, j :: 0 <= i < j < |es| ==> es[i].name != es[j].name
    requires forall name :: (if left then PairAt(m0, name).0 else PairAt(m0, name).1).None?
    ensures forall name :: PairAt(m, name) == if left then (Named(es, name), PairAt(m0, name).1) else (PairAt(m0, name).0, Named(es, name))
    ensures m.Keys == m0.Keys + Names(es)
    ensures forall name :: name in Names(es) ==> Named(es, name).Some?
  {
    hide Named, PairAt;
    m := m0;
    for i := 0 to |es|
      invariant m.Keys == m0.Keys + Names(es[..i])
      invariant forall name :: name in Names(es[..i]) ==>
        PairAt(m, name) == if left then (Named(es, name), PairAt(m0, name).1) else (PairAt(m0, name).0, Named(es, name))
      invariant forall name :: name !in Names(es[..i]) ==> PairAt(m, name) == PairAt(m0, name)
    {
      var e := es[i];
      assert es[..i + 1] == es[..i] + [e];
      NamesOneMore(es[..i], e);
      NamedOnly(es, e);
      assert e.name !in Names(es[..i]);
      var pair := PairAt(m, e.name);
      pair := if left then (Some(e), pair.1) else (pair.0, Some(e));
      PairSet(m, e.name, pair);
      m := m[e.name := pair];
    }
    assert es[..|es|] == es;
    assert forall name :: name !in Names(es) ==> Named(es, name).None?;
  }

  function Names(es: seq<TreeEntry>): set<string> {
    set e | e in es :: e.name
  }

  lemma NamesOneMore(es: seq<TreeEntry>, e: TreeEntry)
    ensures Names(es + [e]) == Names(es) + {e.name}
  {
    assert e in es + [e];
    forall x | x in es ensures x.name in Names(es + [e]) { assert x in es + [e]; }
  }

  lemma SaysNames(data: string, size: nat, es: seq<TreeEntry>, e: TreeEntry)
    requires Says(data, size, es) && e in es
    ensures NameFits(e.name) && e.name != "" && '\0' !in e.name
  {
    hide Less;
    assert EntryFits(e, size);
  }

  ghost predicate NextFits(entries: seq<TreeEntry>, names: set<string>, prev: string, e: TreeEntry, size: nat) {
    EntryFits(e, size) && e.name !in names && Less(prev, e.Key())
  }

  lemma TreeDataOfNone()
    ensures TreeData([]) == ""
  {
  }

  lemma KeyNotEmpty(e: TreeEntry)
    requires NameFits(e.name)
    ensures Less("", e.Key())
  {
  }

  lemma NextOf(entries: seq<TreeEntry>, names: set<string>, prev: string, e: TreeEntry, size: nat, w: seq<TreeEntry>)
    requires EntriesFit(w, size) && entries + [e] <= w
    requires forall name :: name in names ==> exists x :: x in entries && x.name == name
    requires if entries == [] then prev == "" else prev == entries[|entries| - 1].Key()
    ensures NextFits(entries, names, prev, e, size)
  {
    hide Less, NameFits, ModeFits;
    var n := |entries|;
    assert w[n] == (entries + [e])[n] == e && e in w;
    forall x | x in entries ensures x.name != e.name {
      var i :| 0 <= i < n && entries[i] == x;
      assert w[i] == (entries + [e])[i] == x;
    }
    if n == 0 { KeyNotEmpty(e); }
    else { assert w[n - 1] == (entries + [e])[n - 1]; }
  }

  lemma TakeNext(entries: seq<TreeEntry>, names: set<string>, prev: string, e: TreeEntry, size: nat)
    requires EntriesFit(entries, size) && NextFits(entries, names, prev, e, size)
    requires forall name :: name in names <==> exists x :: x in entries && x.name == name
    requires entries != [] ==> prev == entries[|entries| - 1].Key()
    ensures EntriesFit(entries + [e], size)
  {
    hide Less, NameFits, ModeFits;
    var n := |entries|;
    forall i | 0 <= i < n ensures entries[i].name != e.name && Less(entries[i].Key(), e.Key()) {
      assert entries[i] in entries;
      if i < n - 1 { LessTransitive(entries[i].Key(), prev, e.Key()); }
    }
  }

  // The delta between two trees.

  function Insert(c: Change, d: Delta): (r: Delta)
    requires PathsSorted(d) && forall x :: x in d ==> x.path != c.path
    ensures PathsSorted(r) && (forall x :: x in r <==> x == c || x in d)
  {
    hide Less;
    if d == [] then [c]
    else
      LessTotal(c.path, d[0].path);
      assert forall x :: x in d <==> x == d[0] || x in d[1..];
      if Less(c.path, d[0].path) then
        InsertFirst(c, d);
        [c] + d
      else
        var rest := Insert(c, d[1..]);
        InsertLater(c, d, rest);
        [d[0]] + rest
  }

  lemma InsertFirst(c: Change, d: Delta)
    requires PathsSorted(d) && d != [] && Less(c.path, d[0].path)
    ensures PathsSorted([c] + d)
  {
    hide Less;
    forall j | 0 < j < |d| ensures Less(c.path, d[j].path) { LessTransitive(c.path, d[0].path, d[j].path); }
  }

  lemma InsertLater(c: Change, d: Delta, rest: Delta)
    requires PathsSorted(d) && d != [] && Less(d[0].path, c.path)
    requires PathsSorted(rest) && forall x :: x in rest <==> x == c || x in d[1..]
    ensures PathsSorted([d[0]] + rest)
  {
    hide Less;
    forall j | 0 <= j < |rest| ensures Less(d[0].path, rest[j].path) {
      assert rest[j] in rest;
      if rest[j] != c {
        var k :| 0 <= k < |d[1..]| && d[1..][k] == rest[j];
        assert d[k + 1] == rest[j];
      }
    }
  }

  /** A delta's changes in the order of their paths. */
  function ByPath(d: Delta): (r: Delta)
    requires forall i, j :: 0 <= i < j < |d| ==> d[i].path != d[j].path
    ensures PathsSorted(r) && forall x :: x in r <==> x in d
  {
    hide Less;
    if d == [] then []
    else
      assert forall x :: x in d <==> x == d[0] || x in d[1..];
      assert forall x :: x in d[1..] ==> x.path != d[0].path;
      Insert(d[0], ByPath(d[1..]))
  }

  /** A change between two trees at a path of names. */
  ghost predicate ChangeAt(r: Repo, pre: string, post: string, c: Change, at: seq<string>) {
    && at != [] && NamesFit(at)
    && c == Change(Join(at, '/'), r.ImageAt(pre, at), r.ImageAt(post, at))
    && Differ(r, pre, post, at)
  }

  /** Exactly the paths at which two trees differ, each once and in order,
      with what each tree holds there. */
  ghost predicate IsDelta(r: Repo, pre: string, post: string, d: Delta) {
    && PathsSorted(d)
    && (forall c :: c in d ==> exists at :: ChangeAt(r, pre, post, c, at))
    && (forall at :: Differ(r, pre, post, at) ==> exists c :: c in d && ChangeAt(r, pre, post, c, at))
  }

  /** The tree an ID stands for: its own, or the one its commit names. */
  ghost predicate RootIs(r: Repo, oid: string, tree: string) {
    oid in r.objects && ((r.objects[oid].Tree? && tree == oid) || r.objects[oid] == Object.Commit(tree))
  }

  lemma RootOf(r: Repo, oid: string)
    ensures forall tree :: RootIs(r, oid, tree) <==> r.TreeOf(oid) == Some(tree)
  {
  }

  ghost predicate Whole(r: Repo, rank: map<string, nat>, oid: string)
    requires r.Acyclic(rank)
  {
    exists tree :: RootIs(r, oid, tree) && tree in r.objects && r.Holdable(rank, tree, true)
  }

  lemma WholeRoot(r: Repo, rank: map<string, nat>, oid: string)
    requires r.Acyclic(rank)
    ensures Whole(r, rank, oid) <==> r.TreeOf(oid).Some? && r.TreeOf(oid).value in r.objects && r.Holdable(rank, r.TreeOf(oid).value, true)
  {
    hide Repo.TreeOf, Repo.Holdable, Repo.Acyclic, RootIs;
    RootOf(r, oid);
  }

  lemma ListedIsDelta(r: Repo, pre: string, post: string, d: Delta, keys: seq<seq<string>>)
    requires Lists(r, d, keys, 0, [], pre, post)
    ensures forall i, j :: 0 <= i < j < |d| ==> d[i].path != d[j].path
    ensures forall s: Delta :: PathsSorted(s) && (forall x :: x in s <==> x in d) ==> IsDelta(r, pre, post, s)
  {
    hide Repo.ImageAt, Less, NameFits;
    forall i | 0 <= i < |d| ensures ChangeAt(r, pre, post, d[i], keys[i]) {
      assert IsChange(r, d[i], keys[i], [], pre, post);
      assert keys[i][0..] == keys[i];
      DifferNames(r, pre, post, keys[i]);
    }
    forall i, j | 0 <= i < j < |d| ensures d[i].path != d[j].path {
      if d[i].path == d[j].path { PathIsOne(keys[i], keys[j]); }
    }
    forall at | Differ(r, pre, post, at) ensures exists c :: c in d && ChangeAt(r, pre, post, c, at) {
      assert [] + at in keys[0..];
      assert [] + at == at && keys[0..] == keys;
      var i :| 0 <= i < |keys| && keys[i] == at;
      assert d[i] in d && ChangeAt(r, pre, post, d[i], at);
    }
  }

  lemma DifferNames(r: Repo, pre: string, post: string, at: seq<string>)
    requires Differ(r, pre, post, at)
    ensures at != [] && NamesFit(at)
  {
    hide Repo.ImageAt, NameFits;
    if r.ImageAt(pre, at) != ABSENT { HeldNamesFit(r, pre, at); }
    else { HeldNamesFit(r, post, at); }
  }

  /** The delta from one tree to another, held to a budget or to none. A reading
      that comes to a delta has spent at least all the trees need read. */
  method Between(r: Repo, pre: string, post: string, limit: Limit?, ghost rank: map<string, nat>) returns (d: Result<Delta, Failure>)
    requires r.Valid() && r.Acyclic(rank)
    requires limit != null ==> limit.Sound()
    modifies limit
    ensures limit != null ==> limit.Sound() && old(limit.exactBytes) <= limit.exactBytes
    ensures limit != null && d.Ok? ==> forall c :: c in d.value ==> |c.path| <= limit.exactBytes
    ensures limit != null && d.Ok? ==> limit.asked == Asked(0, 0, true)
    ensures d.Ok? ==> Whole(r, rank, pre) && Whole(r, rank, post)
    ensures d.Ok? ==> forall a, b :: RootIs(r, pre, a) && RootIs(r, post, b) ==> IsDelta(r, a, b, d.value)
    ensures limit != null && d.Ok? ==> forall a, b :: RootIs(r, pre, a) && RootIs(r, post, b) ==>
              && limit.exactBytes >= old(limit.exactBytes) + C.BytesNeeded(r, a, b, d.value)
              && limit.exactEntries >= old(limit.exactEntries) + C.EntriesNeeded(r, a, b, d.value)
    ensures d == Err(Refused) ==> !(Whole(r, rank, pre) && Whole(r, rank, post))
    ensures d == Err(OverBudget) ==> limit != null && limit.stopped
  {
    hide Repo.Acyclic, Repo.Holdable, AllDone, IsDelta, Lists, PathsSorted, Repo.Valid, Whole, Reader.Whole, Reader.Paid, C.BytesNeeded, C.EntriesNeeded,
      AllBlobsIn, C.Needed, C.TreesOf, Limit.Sound, Repo.TreeOf, RootIs;
    var rd := new Reader(r, limit, rank, Whole(r, rank, pre) && Whole(r, rank, post));
    var read := ReadBoth(rd, pre, post);
    rd.PaidIsSound();
    if read.Err? { return Err(read.error); }
    var (a, b) := read.value;
    var g := new Gathered();
    NoChanges();
    var err := rd.Diff(a, b, "", [], g);
    rd.PaidIsSound();
    if err.Some? { return Err(err.value); }
    ListedIsDelta(r, a, b, g.changes, g.keys);
    var sorted := ByPath(g.changes);
    SameChanges(g.changes, sorted);
    err := rd.Spend(0, 0);
    rd.PaidIsSound();
    if err.Some? { return Err(err.value); }
    rd.AllNeeded(a, b);
    RootOf(r, pre);
    RootOf(r, post);
    if limit != null { rd.NeededIsPaid(a, b, sorted); }
    return Ok(sorted);
  }

  lemma NoChanges()
    ensures C.PathBytes([]) == 0 && |C.Changes([])| == 0
  {
    assert C.Changes([]) == {};
  }

  lemma SameChanges(d: Delta, s: Delta)
    requires forall c :: c in s <==> c in d
    ensures C.Changes(d) == C.Changes(s) && C.PathBytes(d) == C.PathBytes(s)
  {
  }

  /** Finds the tree an ID names, and reads and checks it whole. */
  method ReadSide(rd: Reader, oid: string) returns (r: Result<string, Failure>)
    requires rd.Valid() && rd.Done({}) && (rd.hold ==> Whole(rd.repo, rd.rank, oid))
    requires rd.Paid() && rd.AllChecked()
    modifies rd, rd.limit
    ensures rd.Paid() && old(rd.Spent()) <= rd.Spent()
    ensures rd.Valid() && old(rd.Now()).Within(rd.Now())
    ensures r.Ok? ==> rd.Done({}) && r.value in rd.trees && rd.repo.TreeOf(oid) == Some(r.value) && rd.AllChecked()
    ensures r == Err(Refused) ==> !rd.hold
    ensures r == Err(OverBudget) ==> rd.limit != null && rd.limit.stopped
  {
    hide Repo.Acyclic, Repo.Holdable, AllDone, Repo.Valid, Reader.Paid, S.Sum, Repo.TreeOf, Whole;
    WholeRoot(rd.repo, rd.rank, oid);
    var tree := rd.TreeFor(oid);
    if tree.Err? { return Err(tree.error); }
    ghost var had := rd.trees.Keys;
    var err := rd.Check(tree.value, "", {});
    if err.Some? { return Err(err.value); }
    rd.NewInSteps({}, had, rd.trees.Keys);
    assert had - {} == had && rd.trees.Keys - {} == rd.trees.Keys;
    r := Ok(tree.value);
  }

  /** Reads and checks both trees whole. */
  method ReadBoth(rd: Reader, pre: string, post: string) returns (r: Result<(string, string), Failure>)
    requires rd.Valid() && rd.Done({}) && rd.trees == map[]
    requires rd.hold <==> Whole(rd.repo, rd.rank, pre) && Whole(rd.repo, rd.rank, post)
    requires rd.Paid()
    modifies rd, rd.limit
    ensures rd.Paid() && old(rd.Spent()) <= rd.Spent()
    ensures r.Ok? ==> rd.links.Keys <= rd.sums.Keys && rd.AllChecked()
    ensures r.Ok? ==> rd.Whole() && r.value.0 in rd.trees && r.value.1 in rd.trees
    ensures r.Ok? ==> Whole(rd.repo, rd.rank, pre) && Whole(rd.repo, rd.rank, post)
    ensures r.Ok? ==> rd.repo.TreeOf(pre) == Some(r.value.0) && rd.repo.TreeOf(post) == Some(r.value.1)
    ensures r == Err(Refused) ==> !rd.hold
    ensures r == Err(OverBudget) ==> rd.limit != null && rd.limit.stopped
  {
    hide Repo.Acyclic, Repo.Holdable, AllDone, Repo.Valid, Reader.LeavesHold, Reader.Paid, S.Sum, Repo.TreeOf, Whole;
    rd.NoneToCheck();
    var a := ReadSide(rd, pre);
    if a.Err? { return Err(a.error); }
    var b := ReadSide(rd, post);
    if b.Err? { return Err(b.error); }
    var err := rd.CheckLeaves();
    if err.Some? { return Err(err.value); }
    rd.ReadIsHoldable(a.value);
    rd.ReadIsHoldable(b.value);
    WholeSide(rd, pre, a.value);
    WholeSide(rd, post, b.value);
    return Ok((a.value, b.value));
  }

  lemma WholeSide(rd: Reader, oid: string, tree: string)
    requires rd.repo.Acyclic(rd.rank) && rd.repo.TreeOf(oid) == Some(tree)
    requires tree in rd.repo.objects && rd.repo.Holdable(rd.rank, tree, true)
    ensures Whole(rd.repo, rd.rank, oid)
  {
    hide Repo.Holdable, Repo.Acyclic, Repo.TreeOf, Whole;
    WholeRoot(rd.repo, rd.rank, oid);
  }

  /** Trees that need more than the budget are never compared, while what was spent
      fits 64 bits. */
  lemma NeverPastTheBudget(limit: Limit, spent: nat, needed: int)
    requires limit.Sound() && limit.exactBytes >= spent + needed && spent + needed > limit.maxBytes
    ensures limit.exactBytes > MAX_INT64
  {
  }
}
