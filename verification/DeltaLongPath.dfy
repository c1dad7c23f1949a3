/** The one way a delta between two trees is not well-formed (delta/delta.go,
    delta/tree.go): a path too long for the digits its length is read back in.
    Trees nested deep enough hold one, and a reading with a smaller budget
    never gets to it. */
module DeltaLongPath {
  import opened Wrappers
  import opened Strings
  import opened Decimal
  import opened DeltaCodec
  import opened TreeObjects
  import opened TreeStore
  import opened TreeDelta
  import opened DeltaBetween

  /** A delta read under a budget below 10^10 bytes is well-formed, while the
      bytes spent fit 64 bits: each of its paths was spent. */
  lemma BudgetedIsWellFormed(r: Repo, rank: map<string, nat>, pre: string, post: string, d: Delta, limit: Limit)
    requires r.Valid() && r.Acyclic(rank) && r.Holdable(rank, pre, true) && r.Holdable(rank, post, true)
    requires IsDelta(r, pre, post, d)
    requires limit.Sound() && limit.exactBytes <= MAX_INT64 && limit.maxBytes < Pow10(MAX_LEN_DIGITS)
    requires forall c :: c in d ==> |c.path| <= limit.exactBytes
    ensures WellFormed(d)
  {
    hide Repo.Acyclic, Repo.Holdable, Repo.Valid, IsDelta, WellFormed, Pow10;
    BetweenIsWellFormed(r, rank, pre, post, d);
  }

  /** Any delta of two trees that differ at so long a path is not. */
  lemma LongPathFails(r: Repo, pre: string, post: string, d: Delta, at: seq<string>)
    requires IsDelta(r, pre, post, d) && Differ(r, pre, post, at) && |Join(at, '/')| >= Pow10(MAX_LEN_DIGITS)
    ensures !WellFormed(d)
  {
    hide Differ, Pow10, PathFits, ImageFits;
    var c :| c in d && ChangeAt(r, pre, post, c, at);
    assert !ChangeFits(c);
  }

  // Trees nested n deep.

  function Pow256(z: nat): nat {
    if z == 0 then 1 else 256 * Pow256(z - 1)
  }

  /** A number in so many bytes. */
  function Bytes(k: nat, z: nat): (b: string)
    ensures |b| == z
  {
    if z == 0 then "" else Bytes(k / 256, z - 1) + [(k % 256) as char]
  }

  lemma {:induction false} BytesApart(k: nat, j: nat, z: nat)
    requires k < Pow256(z) && j < Pow256(z) && k != j
    ensures Bytes(k, z) != Bytes(j, z)
  {
    if z > 0 && Bytes(k, z) == Bytes(j, z) {
      var a, b := Bytes(k / 256, z - 1), Bytes(j / 256, z - 1);
      assert a == Bytes(k, z)[..z - 1] && b == Bytes(j, z)[..z - 1];
      assert (k % 256) as char == Bytes(k, z)[z - 1] && (j % 256) as char == Bytes(j, z)[z - 1];
      BytesApart(k / 256, j / 256, z - 1);
    }
  }

  /** The raw ID of the tree k deep. None is git's null ID. */
  function Id(k: nat, z: nat): (id: string)
    ensures |id| == z
  {
    Bytes(k + 1, z)
  }

  lemma IdsApart(k: nat, j: nat, z: nat)
    requires k + 1 < Pow256(z) && j + 1 < Pow256(z) && k != j
    ensures Id(k, z) != Id(j, z)
  {
    BytesApart(k + 1, j + 1, z);
  }

  const NAME := "a"

  /** What the tree k deep holds: a directory, or a file in the last. */
  function EntryAt(k: nat, n: nat, z: nat): TreeEntry {
    TreeEntry(if k < n then MODE_TREE else MODE_FILE, NAME, Id(k + 1, z))
  }

  function ObjectAt(k: nat, n: nat, z: nat): Object {
    if k <= n then Tree(TreeData([EntryAt(k, n, z)])) else if k == n + 1 then Blob("") else Tree("")
  }

  function Sha(s: string): Sum {
    if s == "" then EMPTY_SUM else ZERO_SUM
  }

  /** A tree nested n deep around one file, and an empty tree. */
  ghost predicate IsNested(r: Repo, rank: map<string, nat>, n: nat) {
    && n + 3 < Pow256(r.size) && r.sha == Sha
    && (forall id :: id in r.objects <==> exists k: nat :: k <= n + 2 && id == Id(k, r.size))
    && (forall k: nat :: k <= n + 2 ==> Id(k, r.size) in r.objects && r.objects[Id(k, r.size)] == ObjectAt(k, n, r.size))
    && rank.Keys == r.objects.Keys && forall k: nat :: k <= n + 2 ==> Id(k, r.size) in rank && rank[Id(k, r.size)] == n + 2 - k
  }

  lemma {:induction false} NestedUpTo(n: nat, m: nat, z: nat) returns (objects: map<string, Object>, rank: map<string, nat>)
    requires m <= n + 2 && n + 3 < Pow256(z)
    ensures rank.Keys == objects.Keys
    ensures forall id :: id in objects <==> exists k: nat :: k <= m && id == Id(k, z)
    ensures forall k: nat :: k <= m ==> Id(k, z) in objects && objects[Id(k, z)] == ObjectAt(k, n, z) && rank[Id(k, z)] == n + 2 - k
  {
    hide Id, ObjectAt;
    if m == 0 {
      objects, rank := map[Id(0, z) := ObjectAt(0, n, z)], map[Id(0, z) := n + 2];
    } else {
      var o, r := NestedUpTo(n, m - 1, z);
      objects, rank := o[Id(m, z) := ObjectAt(m, n, z)], r[Id(m, z) := n + 2 - m];
      forall k: nat | k < m ensures Id(k, z) != Id(m, z) {
        IdsApart(k, m, z);
      }
    }
  }

  lemma NestedExists(n: nat, z: nat) returns (r: Repo, rank: map<string, nat>)
    requires n + 3 < Pow256(z)
    ensures r.size == z && IsNested(r, rank, n)
  {
    hide Id, ObjectAt, Sha;
    var objects;
    objects, rank := NestedUpTo(n, n + 2, z);
    r := Repo(objects, z, Sha);
  }

  lemma EntrySays(k: nat, n: nat, z: nat)
    requires k <= n
    ensures Says(TreeData([EntryAt(k, n, z)]), z, [EntryAt(k, n, z)]) && Says("", z, [])
  {
    hide Id;
    assert EntryFits(EntryAt(k, n, z), z);
  }

  lemma EntriesAt(r: Repo, rank: map<string, nat>, n: nat, k: nat)
    requires IsNested(r, rank, n) && k <= n + 2
    ensures r.EntriesOf(Id(k, r.size)) == if k <= n then Some([EntryAt(k, n, r.size)]) else if k == n + 1 then None else Some([])
  {
    hide Id, Says, TreeData;
    if k <= n {
      EntrySays(k, n, r.size);
      r.EntriesAre(Id(k, r.size), [EntryAt(k, n, r.size)]);
    } else if k == n + 2 {
      EntrySays(0, n, r.size);
      r.EntriesAre(Id(k, r.size), []);
    }
  }

  lemma NestedFits(r: Repo, rank: map<string, nat>, n: nat)
    requires IsNested(r, rank, n)
    ensures r.Valid() && r.Acyclic(rank)
  {
    hide Id, Says, Repo.EntriesOf;
    assert "" !in r.objects by { assert r.size > 0; }
    forall t, e | t in r.objects && r.EntriesOf(t).Some? && e in r.EntriesOf(t).value && e.IsTree() && e.oid in r.objects
      ensures rank[e.oid] < rank[t]
    {
      var k: nat :| k <= n + 2 && t == Id(k, r.size);
      EntriesAt(r, rank, n, k);
      assert e == EntryAt(k, n, r.size);
    }
    ShaFits();
  }

  lemma ShaFits()
    ensures forall s :: Sha(s) == EMPTY_SUM ==> s == ""
  {
    assert EMPTY_SUM[0] != ZERO_SUM[0];
  }

  lemma FileAt(r: Repo, rank: map<string, nat>, n: nat, k: nat)
    requires IsNested(r, rank, n) && k <= n
    ensures Id(k + 1, r.size) in r.objects && (k == n ==> r.LeafHolds(EntryAt(n, n, r.size)) && r.LeafImage(EntryAt(n, n, r.size)) == Image(MODE_FILE, EMPTY_SUM))
  {
    hide Id;
    assert ObjectAt(n + 1, n, r.size) == Blob("");
  }

  lemma {:induction false} NestedHolds(r: Repo, rank: map<string, nat>, n: nat, k: nat)
    requires IsNested(r, rank, n) && r.Acyclic(rank) && k <= n
    ensures r.Holdable(rank, Id(k, r.size), false) && r.Holdable(rank, Id(k, r.size), true)
    decreases n - k
  {
    hide Id, Says, Repo.EntriesOf, Repo.Acyclic, IsNested, Repo.LeafHolds, Repo.LeafImage;
    EntriesAt(r, rank, n, k);
    FileAt(r, rank, n, k);
    var e := EntryAt(k, n, r.size);
    if k < n {
      NestedHolds(r, rank, n, k + 1);
      assert e.IsTree();
    } else {
      assert !e.IsTree();
    }
    assert forall x :: x in [e] ==> x == e;
  }

  lemma EmptyHolds(r: Repo, rank: map<string, nat>, n: nat, at: seq<string>)
    requires IsNested(r, rank, n) && r.Acyclic(rank)
    ensures r.Holdable(rank, Id(n + 2, r.size), true) && r.ImageAt(Id(n + 2, r.size), at) == ABSENT
  {
    hide Id, Says, Repo.EntriesOf, Repo.Acyclic;
    EntriesAt(r, rank, n, n + 2);
  }

  function Names(m: nat): (at: seq<string>)
    ensures |at| == m
  {
    if m == 0 then [] else [NAME] + Names(m - 1)
  }

  lemma {:induction false} NamesLength(m: nat)
    requires m > 0
    ensures |Join(Names(m), '/')| == 2 * m - 1
  {
    assert Names(m)[1..] == Names(m - 1);
    if m > 1 { NamesLength(m - 1); }
  }

  lemma {:induction false} DeepImage(r: Repo, rank: map<string, nat>, n: nat, k: nat)
    requires IsNested(r, rank, n) && k <= n
    ensures r.ImageAt(Id(k, r.size), Names(n + 1 - k)) == Image(MODE_FILE, EMPTY_SUM)
    decreases n - k
  {
    hide Id, Says, Repo.EntriesOf, IsNested, Repo.LeafImage;
    EntriesAt(r, rank, n, k);
    FileAt(r, rank, n, k);
    var at := Names(n + 1 - k);
    assert at[0] == NAME && at[1..] == Names(n - k);
    assert Named([EntryAt(k, n, r.size)], NAME) == Some(EntryAt(k, n, r.size));
    if k < n { DeepImage(r, rank, n, k + 1); }
  }

  /** Two trees a checkout could hold that differ at a path of n bytes or more,
      in a store with IDs of either of git's lengths. */
  lemma LongPathsExist(n: nat, z: nat) returns (r: Repo, rank: map<string, nat>, pre: string, post: string, at: seq<string>)
    requires (z == 20 || z == 32) && n + 3 < Pow256(20)
    ensures r.size == z
    ensures r.Valid() && r.Acyclic(rank) && r.Holdable(rank, pre, true) && r.Holdable(rank, post, true)
    ensures Differ(r, pre, post, at) && |Join(at, '/')| >= n
  {
    hide Id, Repo.ImageAt, Repo.Valid, Repo.Acyclic, Repo.Holdable, IsNested, Join, Pow256;
    Pow256Grows(20, z);
    r, rank := NestedExists(n, z);
    NestedFits(r, rank, n);
    pre, post, at := Id(n + 2, z), Id(0, z), Names(n + 1);
    EmptyHolds(r, rank, n, at);
    NestedHolds(r, rank, n, 0);
    DeepImage(r, rank, n, 0);
    NamesLength(n + 1);
  }

  lemma {:induction false} Pow256Grows(y: nat, z: nat)
    requires y <= z
    ensures Pow256(y) <= Pow256(z)
  {
    if y < z { Pow256Grows(y, z - 1); }
  }

  /** So there are two such trees no delta of which is well-formed. */
  lemma NoDeltaFits(z: nat) returns (r: Repo, rank: map<string, nat>, pre: string, post: string)
    requires z == 20 || z == 32
    ensures r.size == z
    ensures r.Valid() && r.Acyclic(rank) && r.Holdable(rank, pre, true) && r.Holdable(rank, post, true)
    ensures forall d :: IsDelta(r, pre, post, d) ==> !WellFormed(d)
  {
    hide Repo.Valid, Repo.Acyclic, Repo.Holdable, IsDelta, WellFormed, Differ, Pow10, Pow256;
    var at;
    TenDigits();
    r, rank, pre, post, at := LongPathsExist(Pow10(MAX_LEN_DIGITS), z);
    forall d | IsDelta(r, pre, post, d) ensures !WellFormed(d) {
      LongPathFails(r, pre, post, d, at);
    }
  }

  lemma TenDigits()
    ensures Pow10(MAX_LEN_DIGITS) + 3 < Pow256(20)
  {
    Pow256Grows(5, 20);
    assert Pow256(5) == 256 * (256 * (256 * (256 * (256 * Pow256(0)))));
  }
}
