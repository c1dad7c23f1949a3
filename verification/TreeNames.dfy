/** Names in a tree (delta/delta.go, delta/tree.go): which a checkout could hold, and
    what the order of a tree's entries means for the paths below them. */
module TreeNames {
  import opened Strings
  import opened DeltaCodec
  import opened TreeObjects
  import opened TreeStore

  function Lowered(s: string): (r: string)
    ensures |r| == |s|
  {
    seq(|s|, i requires 0 <= i < |s| => if 'A' <= s[i] <= 'Z' then s[i] - 'A' + 'a' else s[i])
  }

  /** A name is no special directory, no .git in any case, no path, and not too
      long. */
  lemma NameExactly(name: string)
    ensures NameFits(name) <==>
            name !in {"", ".", ".."} && Lowered(name) != ".git" && (forall i :: 0 <= i < |name| ==> name[i] != '/') && |name| <= 255
  {
    var low := Lowered(name);
    if |name| == 4 {
      assert low == ".git" <==> low[0] == '.' && low[1] == 'g' && low[2] == 'i' && low[3] == 't';
    }
    if '/' in name { assert exists i :: 0 <= i < |name| && name[i] == '/'; }
  }

  /** A symlink's target is what its system call takes: neither empty nor too long, and
      with no NUL byte, which would end it. */
  lemma TargetExactly(target: string)
    ensures TargetFits(target) <==> 1 <= |target| < 4096 && forall i :: 0 <= i < |target| ==> target[i] as int != 0
  {
    if '\0' in target { assert exists i :: 0 <= i < |target| && target[i] == '\0'; }
    forall i | 0 <= i < |target| && target[i] as int == 0 ensures '\0' in target { assert target[i] == '\0'; }
  }

  /** A path through an entry: its name, and after a directory's more. */
  function PathOf(e: TreeEntry, rest: string): string {
    if e.mode == "40000" then e.name + "/" + rest else e.name
  }

  lemma {:induction false} LessOrPrefix(a: string, b: string)
    requires Less(a, b)
    ensures a <= b || exists i :: 0 <= i < |a| && i < |b| && a[..i] == b[..i] && a[i] < b[i]
  {
    if |a| > 0 && a[0] == b[0] {
      LessOrPrefix(a[1..], b[1..]);
      if a[1..] <= b[1..] {
        assert a == [a[0]] + a[1..] && b == [b[0]] + b[1..];
      } else {
        var i :| 0 <= i < |a[1..]| && i < |b[1..]| && a[1..][..i] == b[1..][..i] && a[1..][i] < b[1..][i];
        assert a[..i + 1] == [a[0]] + a[1..][..i] && b[..i + 1] == [b[0]] + b[1..][..i];
      }
    } else if |a| > 0 {
      assert a[..0] == b[..0];
    }
  }

  lemma {:induction false} LessAt(a: string, b: string, i: nat)
    requires i < |a| && i < |b| && a[..i] == b[..i] && a[i] < b[i]
    ensures Less(a, b)
  {
    if i > 0 {
      assert a[0] == a[..i][0] == b[..i][0] == b[0];
      assert a[1..][..i - 1] == a[..i][1..] && b[1..][..i - 1] == b[..i][1..];
      LessAt(a[1..], b[1..], i - 1);
    }
  }

  lemma {:induction false} LessLonger(a: string, b: string)
    requires a <= b && |a| < |b|
    ensures Less(a, b)
  {
    if |a| > 0 { LessLonger(a[1..], b[1..]); }
  }

  /** Git orders a tree's entries as the paths through them are ordered, so that a
      listing of the tree in its own order is one of sorted paths. */
  lemma OrderIsOfPaths(es: seq<TreeEntry>, size: nat, i: nat, j: nat, s: string, t: string)
    requires EntriesFit(es, size) && i < j < |es|
    ensures Less(PathOf(es[i], s), PathOf(es[j], t))
  {
    hide Less, EntriesFit;
    var a, b := es[i], es[j];
    EntryNames(es, size, i, j);
    LessOrPrefix(a.Key(), b.Key());
    var p, q := PathOf(a, s), PathOf(b, t);
    assert a.Key() <= p && b.Key() <= q;
    if a.Key() <= b.Key() {
      PrefixIsShorter(a, b);
      assert p == a.name;
      assert a.name <= q;
      LessLonger(p, q);
    } else {
      var k :| 0 <= k < |a.Key()| && k < |b.Key()| && a.Key()[..k] == b.Key()[..k] && a.Key()[k] < b.Key()[k];
      assert p[..k] == a.Key()[..k] && q[..k] == b.Key()[..k] && p[k] == a.Key()[k] && q[k] == b.Key()[k];
      LessAt(p, q, k);
    }
  }

  lemma EntryNames(es: seq<TreeEntry>, size: nat, i: nat, j: nat)
    requires EntriesFit(es, size) && i < j < |es|
    ensures es[i].name != es[j].name && '/' !in es[i].name && '/' !in es[j].name && Less(es[i].Key(), es[j].Key())
  {
    hide Less;
    assert es[i] in es && es[j] in es;
  }

  /** A directory's key opens no key but its own name's. */
  lemma TreeKeyOpens(a: TreeEntry, b: TreeEntry)
    requires a.IsTree() && '/' !in b.name && a.Key() <= b.Key()
    ensures a.name == b.name
  {
    var n := |a.name|;
    forall k | 0 <= k < |b.name| ensures b.name[k] != '/' { assert b.name[k] in b.name; }
    assert b.Key()[n] == a.Key()[n] == '/';
    assert b.name == b.Key()[..|b.name|] && a.name == a.Key()[..n] == b.Key()[..n];
  }

  /** A note's key opens another only with a name that its name opens. */
  lemma NoteKeyOpens(a: TreeEntry, b: TreeEntry)
    requires !a.IsTree() && a.name <= b.Key()
    ensures a.name <= b.name || '/' in a.name
  {
    if |a.name| <= |b.name| {
      assert a.name == b.Key()[..|a.name|] && b.name == b.Key()[..|b.name|];
    } else {
      assert a.name[|b.name|] == b.Key()[|b.name|] == '/';
    }
  }

  /** A key that opens another's is a note's, and of a shorter name. */
  lemma PrefixIsShorter(a: TreeEntry, b: TreeEntry)
    requires a.name != b.name && '/' !in a.name && '/' !in b.name && a.Key() <= b.Key()
    ensures !a.IsTree() && |a.name| < |b.name| && a.name <= b.name
  {
    if a.IsTree() { TreeKeyOpens(a, b); } else { NoteKeyOpens(a, b); }
  }
}
