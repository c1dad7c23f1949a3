/** Git's tree objects as the delta reader takes them (delta/tree.go,
    parseTree): their entries, which ones a checkout could hold, and the one
    byte sequence each list of entries is stored as. */
module TreeObjects {
  import opened Wrappers
  import opened Strings
  import opened DeltaCodec

  const MODE_TREE := "40000"

  datatype TreeEntry = TreeEntry(mode: string, name: string, oid: string) {
    predicate IsTree() {
      mode == MODE_TREE
    }

    /** What git orders a tree's entries by: the name, a subtree's with a
        slash after it. */
    function Key(): string {
      if IsTree() then name + "/" else name
    }

    /** The entry as git stores it. */
    function Bytes(): string {
      mode + " " + name + "\0" + oid
    }
  }

  predicate EntryFits(e: TreeEntry, size: nat) {
    && (ModeFits(e.mode) || e.IsTree())
    && NameFits(e.name) && '\0' !in e.name
    && |e.oid| == size
  }

  /** Entries git writes and a checkout could hold: each fits, no name is
      given twice, and the keys are in git's order. */
  ghost predicate EntriesFit(es: seq<TreeEntry>, size: nat) {
    && (forall e :: e in es ==> EntryFits(e, size))
    && (forall i, j :: 0 <= i < j < |es| ==> es[i].name != es[j].name)
    && (forall i, j :: 0 <= i < j < |es| ==> Less(es[i].Key(), es[j].Key()))
  }

  function TreeData(es: seq<TreeEntry>): string {
    if es == [] then "" else es[0].Bytes() + TreeData(es[1..])
  }

  /** The first entry of some tree data, and what follows it. */
  function TakeEntry(data: string, size: nat): Option<(TreeEntry, string)> {
    var sp := IndexOf(data, ' ');
    var nul := IndexOf(data, '\0');
    if sp == 0 || sp == |data| || nul == |data| || nul < sp || nul + 1 + size > |data| then None
    else Some((TreeEntry(data[..sp], data[sp + 1..nul], data[nul + 1..nul + 1 + size]), data[nul + 1 + size..]))
  }

  lemma TakenEntry(data: string, size: nat)
    requires TakeEntry(data, size).Some?
    ensures var (e, rest) := TakeEntry(data, size).value;
            data == e.Bytes() + rest && |e.oid| == size && '\0' !in e.name && |rest| < |data|
  {
    var sp := IndexOf(data, ' ');
    var nul := IndexOf(data, '\0');
    var (e, rest) := TakeEntry(data, size).value;
    assert data == data[..sp] + " " + data[sp + 1..nul] + "\0" + data[nul + 1..nul + 1 + size] + rest;
    assert forall k :: 0 <= k < |e.name| ==> e.name[k] == data[sp + 1 + k];
  }

  lemma IndexIs(s: string, c: char, i: nat)
    requires i < |s| && s[i] == c && forall k :: 0 <= k < i ==> s[k] != c
    ensures IndexOf(s, c) == i
  {
  }

  lemma ModeHasNo(mode: string)
    requires ModeFits(mode) || mode == MODE_TREE
    ensures |mode| > 0 && forall k :: 0 <= k < |mode| ==> mode[k] != ' ' && mode[k] != '\0'
  {
  }

  lemma EntryTaken(e: TreeEntry, size: nat, rest: string)
    requires EntryFits(e, size)
    ensures TakeEntry(e.Bytes() + rest, size) == Some((e, rest))
  {
    hide IndexOf, NameFits, ModeFits;
    var m, n := |e.mode|, |e.name|;
    ModeHasNo(e.mode);
    var data := e.Bytes() + rest;
    assert data == e.mode + (" " + (e.name + ("\0" + (e.oid + rest))));
    assert forall k :: 0 <= k < m ==> data[k] == e.mode[k];
    assert data[m] == ' ';
    assert forall k :: 0 <= k < n ==> data[m + 1 + k] == e.name[k];
    assert data[m + 1 + n] == '\0';
    IndexIs(data, ' ', m);
    forall k | 0 <= k < m + 1 + n ensures data[k] != '\0' {
      if k > m { assert data[k] == e.name[k - m - 1]; }
    }
    IndexIs(data, '\0', m + 1 + n);
    assert data[..m] == e.mode && data[m + 1..m + 1 + n] == e.name;
    assert data[m + n + 2..m + n + 2 + size] == e.oid && data[m + n + 2 + size..] == rest;
  }

  lemma {:induction false} TreeDataAppend(es: seq<TreeEntry>, e: TreeEntry)
    ensures TreeData(es + [e]) == TreeData(es) + e.Bytes()
  {
    if es == [] {
      assert [e][1..] == [];
    } else {
      TreeDataAppend(es[1..], e);
      assert (es + [e])[1..] == es[1..] + [e];
    }
  }

  lemma {:induction false} TreeDataSplit(es: seq<TreeEntry>, n: nat)
    requires n <= |es|
    ensures TreeData(es) == TreeData(es[..n]) + TreeData(es[n..])
  {
    if n > 0 {
      TreeDataSplit(es[1..], n - 1);
      assert es[1..][..n - 1] == es[..n][1..] && es[1..][n - 1..] == es[n..];
    }
  }

  lemma TreeDataStep(es: seq<TreeEntry>)
    ensures TreeData(es) == if es == [] then "" else es[0].Bytes() + TreeData(es[1..])
  {
  }

  /** Data that is some fitting entries after those already taken opens with
      the next of them. */
  lemma TakesOn(es: seq<TreeEntry>, whole: seq<TreeEntry>, size: nat, rest: string)
    requires EntriesFit(whole, size) && es <= whole && TreeData(whole) == TreeData(es) + rest
    ensures rest == "" <==> es == whole
    ensures rest != "" ==> TakeEntry(rest, size) == Some((whole[|es|], TreeData(whole[|es| + 1..])))
  {
    hide EntryFits, TakeEntry, Less, TreeData;
    TreeDataSplit(whole, |es|);
    var tail := whole[|es|..];
    TreeDataStep(tail);
    assert whole[..|es|] == es;
    assert rest == TreeData(whole)[|TreeData(es)|..] == TreeData(tail);
    if tail != [] {
      assert tail[0] == whole[|es|] && tail[0] in whole && tail[1..] == whole[|es| + 1..];
      EntryTaken(tail[0], size, TreeData(tail[1..]));
    }
  }

  /** The entries a tree's data says, when they fit. */
  ghost predicate Says(data: string, size: nat, es: seq<TreeEntry>) {
    EntriesFit(es, size) && data == TreeData(es)
  }

  lemma {:induction false} SaysOne(data: string, size: nat, a: seq<TreeEntry>, b: seq<TreeEntry>)
    requires Says(data, size, a) && Says(data, size, b)
    ensures a == b
    decreases |a|
  {
    hide EntryFits, TakeEntry, Less;
    if a != [] { TakesOn([], a, size, data); }
    if b != [] { TakesOn([], b, size, data); }
    if a != [] && b != [] {
      SaysTail(a, size);
      SaysTail(b, size);
      SaysOne(TreeData(a[1..]), size, a[1..], b[1..]);
      assert a == [a[0]] + a[1..] && b == [b[0]] + b[1..];
    }
  }

  lemma SaysTail(es: seq<TreeEntry>, size: nat)
    requires EntriesFit(es, size) && es != []
    ensures EntriesFit(es[1..], size)
  {
    hide EntryFits, Less;
    var t := es[1..];
    forall i, j | 0 <= i < j < |t| ensures t[i].name != t[j].name && Less(t[i].Key(), t[j].Key()) {
      assert t[i] == es[i + 1] && t[j] == es[j + 1];
    }
  }

  /** The entry with a name, if a tree has one. */
  function Named(es: seq<TreeEntry>, name: string): (r: Option<TreeEntry>)
    ensures r.Some? ==> r.value in es && r.value.name == name
    ensures r.None? ==> forall e :: e in es ==> e.name != name
  {
    if es == [] then None
    else if es[0].name == name then Some(es[0])
    else
      assert forall e :: e in es <==> e == es[0] || e in es[1..];
      Named(es[1..], name)
  }

  lemma NamedOnly(es: seq<TreeEntry>, e: TreeEntry)
    requires e in es && forall i, j :: 0 <= i < j < |es| ==> es[i].name != es[j].name
    ensures Named(es, e.name) == Some(e)
  {
    var f := Named(es, e.name).value;
    var i :| 0 <= i < |es| && es[i] == e;
    var j :| 0 <= j < |es| && es[j] == f;
    assert i == j;
  }
}
