/** Main's history (rebase/history.go): every commit main reaches, and which of
    them each reaches, as sets of bits found once and kept. */
module History {
  import opened Wrappers
  import opened CommitGraph

  // Sets of places, a bit each in 64-bit words.

  function Bit(k: nat): bv64
    requires k < 64
  {
    (1 as bv64) << k
  }

  predicate TestBit(w: bv64, bit: bv64) {
    w & bit != 0
  }

  function SetBit(w: bv64, bit: bv64): bv64 {
    w | bit
  }

  predicate Apart(m: bv64, n: bv64) {
    m & n == 0
  }

  predicate Has(words: seq<bv64>, j: nat)
    requires j / 64 < |words|
  {
    TestBit(words[j / 64], Bit(j % 64))
  }

  lemma NextBit(k: nat)
    requires k < 63
    ensures Bit(k + 1) == Bit(k) << 1
  {
  }

  lemma LastBit()
    ensures Bit(63) != 0 && Bit(0) == 1
  {
  }

  lemma {:induction false} BitNotZero(k: nat)
    requires k < 64
    ensures Bit(k) != 0
    decreases 63 - k
  {
    hide Bit;
    if k == 63 {
      LastBit();
    } else {
      BitNotZero(k + 1);
      NextBit(k);
      assert (0 as bv64) << 1 == 0;
    }
  }

  lemma {:induction false} BitsApart(a: nat, b: nat)
    requires a < 64 && b < 64 && a != b
    ensures Apart(Bit(a), Bit(b))
  {
    hide Bit, Apart;
    if a > b {
      BitsApart(b, a);
      ApartBoth(Bit(b), Bit(a));
    } else {
      NextBit(b - 1);
      if a == 0 {
        LastBit();
        OneApart(Bit(b - 1));
      } else {
        BitsApart(a - 1, b - 1);
        NextBit(a - 1);
        ShiftedApart(Bit(a - 1), Bit(b - 1));
      }
    }
  }

  lemma ShiftedApart(x: bv64, y: bv64)
    requires Apart(x, y)
    ensures Apart(x << 1, y << 1)
  {
  }

  lemma OneApart(x: bv64)
    ensures Apart(1, x << 1)
  {
  }

  lemma ApartBoth(m: bv64, n: bv64)
    requires Apart(m, n)
    ensures Apart(n, m)
  {
  }

  lemma SetKeepsOut(w: bv64, m: bv64, n: bv64)
    requires Apart(m, n) && !TestBit(w, n)
    ensures !TestBit(SetBit(w, m), n)
  {
  }

  lemma SetKeepsIn(w: bv64, m: bv64, n: bv64)
    requires TestBit(w, n)
    ensures TestBit(SetBit(w, m), n)
  {
  }

  lemma SetOwn(w: bv64, m: bv64)
    requires m != 0
    ensures TestBit(SetBit(w, m), m)
  {
  }

  function Added(words: seq<bv64>, p: nat): seq<bv64>
    requires p / 64 < |words|
  {
    words[p / 64 := SetBit(words[p / 64], Bit(p % 64))]
  }

  lemma AddedHas(words: seq<bv64>, p: nat, j: nat)
    requires p / 64 < |words| && j / 64 < |words|
    ensures Has(Added(words, p), j) <==> j == p || Has(words, j)
  {
    hide Bit, TestBit, SetBit, Apart;
    Parts(p, j);
    if j == p {
      BitNotZero(p % 64);
      SetOwn(words[p / 64], Bit(p % 64));
    } else if j / 64 == p / 64 {
      BitsApart(p % 64, j % 64);
      if TestBit(words[p / 64], Bit(j % 64)) {
        SetKeepsIn(words[p / 64], Bit(p % 64), Bit(j % 64));
      } else {
        SetKeepsOut(words[p / 64], Bit(p % 64), Bit(j % 64));
      }
    }
  }

  lemma Parts(p: nat, j: nat)
    ensures j == p <==> j / 64 == p / 64 && j % 64 == p % 64
  {
  }

  function WordsFor(n: nat): (w: nat)
    ensures forall j :: 0 <= j < n ==> j / 64 < w
  {
    (n + 63) / 64
  }

  ghost function Places(words: seq<bv64>, n: nat): (s: set<nat>)
    requires |words| == WordsFor(n)
    ensures forall j: nat :: j in s <==> j < n && Has(words, j)
  {
    set j | j in UpTo(n) && Has(words, j)
  }

  lemma AddedPlaces(words: seq<bv64>, p: nat, n: nat)
    requires |words| == WordsFor(n) && p < n
    ensures Places(Added(words, p), n) == Places(words, n) + {p}
  {
    hide Has, Added;
    AddedLength(words, p);
    forall j: nat | j < n ensures Has(Added(words, p), j) <==> j == p || Has(words, j) {
      AddedHas(words, p, j);
    }
  }

  lemma AddedLength(words: seq<bv64>, p: nat)
    requires p / 64 < |words|
    ensures |Added(words, p)| == |words|
  {
  }

  lemma ZeroHasNone(k: nat)
    requires k < 64
    ensures !TestBit(0, Bit(k))
  {
    hide Bit;
  }

  lemma NoPlaces(words: seq<bv64>, n: nat)
    requires |words| == WordsFor(n) && forall i :: 0 <= i < |words| ==> words[i] == 0
    ensures Places(words, n) == {}
  {
    forall j: nat | j < n ensures !Has(words, j) {
      assert words[j / 64] == 0;
      ZeroHasNone(j % 64);
    }
  }

  ghost function UpTo(n: nat): (s: set<nat>)
    ensures |s| == n && forall j: nat :: j in s <==> j < n
  {
    if n == 0 then {} else UpTo(n - 1) + {n - 1}
  }

  // A listing of a history.

  datatype Line = Line(commit: string, parents: seq<string>)

  /** git rev-list --parents: every commit some commit reaches, each once, with
      its parents. */
  ghost predicate IsListing(g: Graph, tip: string, lines: seq<Line>) {
    && (forall i :: 0 <= i < |lines| ==> lines[i].commit in g && lines[i].parents == g[lines[i].commit])
    && (forall i, j :: 0 <= i < j < |lines| ==> lines[i].commit != lines[j].commit)
    && (forall c :: Reaches(g, tip, c) <==> exists i :: 0 <= i < |lines| && lines[i].commit == c)
  }

  class MainHistory {
    var index: map<string, nat>
    var parents: seq<seq<nat>>
    var below: map<nat, seq<bv64>>
    ghost var g: Graph
    ghost var commits: seq<string>

    /** Some places are those of some commits. */
    ghost predicate ParentsAre(places: seq<nat>, names: seq<string>)
      reads this`index, this`commits
    {
      && (forall p :: p in places ==> p < |commits| && commits[p] in names)
      && (forall c :: c in names ==> c in index && index[c] in places)
    }

    /** The places are the commits', and each place's parents are its commit's. */
    ghost predicate Describes()
      reads this`index, this`parents, this`g, this`commits
    {
      && |commits| == |parents|
      && (forall c :: c in index ==> index[c] < |commits| && commits[index[c]] == c)
      && (forall i :: 0 <= i < |commits| ==> commits[i] in index && index[commits[i]] == i && commits[i] in g)
      && (forall i :: 0 <= i < |commits| ==> ParentsAre(parents[i], g[commits[i]]))
    }

    constructor (index: map<string, nat>, parents: seq<seq<nat>>, ghost g: Graph, ghost commits: seq<string>)
      ensures this.index == index && this.parents == parents && this.below == map[] && this.g == g && this.commits == commits
      ensures IsDescribed(g, index, parents, commits) ==> Valid()
    {
      this.index, this.parents, this.below, this.g, this.commits := index, parents, map[], g, commits;
      new;
      if IsDescribed(g, index, parents, commits) {
        forall i | 0 <= i < |commits| ensures ParentsAre(parents[i], g[commits[i]]) {
          IndexedAre(parents[i], g[commits[i]]);
        }
      }
    }

    lemma IndexedAre(places: seq<nat>, names: seq<string>)
      requires forall c :: c in index ==> index[c] < |commits| && commits[index[c]] == c
      requires Indexed(index, names, places)
      ensures ParentsAre(places, names)
    {
      forall c | c in names ensures c in index && index[c] in places {
        var m :| 0 <= m < |names| && names[m] == c;
        assert places[m] == index[c];
      }
    }

    ghost predicate IsBelow(words: seq<bv64>, i: nat)
      reads this`parents, this`g, this`commits
    {
      && |words| == WordsFor(|parents|) && i < |commits| == |parents|
      && forall j :: 0 <= j < |commits| ==> (j in Places(words, |parents|) <==> Reaches(g, commits[i], commits[j]))
    }

    ghost predicate Valid()
      reads this
    {
      Describes() && forall i :: i in below ==> IsBelow(below[i], i)
    }

    /** Whether one commit of main's is or has another as an ancestor. Every
        commit it reaches is found once, and kept. */
    method ReachesIt(from: string, to: string) returns (r: bool)
      requires Valid() && from in index && to in index
      modifies this`below
      ensures Valid() && below.Keys == old(below.Keys) + {index[from]}
      ensures r <==> Reaches(g, from, to)
    {
      hide Bit, Has, TestBit, Describes, IsBelow, Reaches;
      Placed(from);
      Placed(to);
      var i, j := index[from], index[to];
      if i !in below {
        var words := Walk(i);
        below := below[i := words];
      }
      AtPlace(below[i], i, j);
      r := TestBit(below[i][j / 64], Bit(j % 64));
      HasTest(below[i], j);
    }

    lemma Placed(c: string)
      requires Describes() && c in index
      ensures index[c] < |commits| == |parents| && commits[index[c]] == c
    {
    }

    lemma AtPlace(words: seq<bv64>, i: nat, j: nat)
      requires IsBelow(words, i) && j < |commits|
      ensures j / 64 < |words| && (Has(words, j) <==> Reaches(g, commits[i], commits[j]))
    {
      hide Has, Reaches;
      assert j in Places(words, |parents|) <==> Has(words, j);
    }

    ghost predicate AllReached(places: set<nat>, i: nat)
      requires i < |commits|
      reads this`commits, this`g
    {
      forall p: nat :: p in places ==> p < |commits| && Reaches(g, commits[i], commits[p])
    }

    /** Every place found has its parents found, but those still to look at. */
    ghost predicate ParentsFound(found: set<nat>, stack: seq<nat>)
      reads this`parents
    {
      forall k: nat, p: nat :: k in found && k !in stack && k < |parents| && p in parents[k] ==> p in found
    }

    /** The same, but for the place being looked at, of whose parents some are
        found. */
    ghost predicate SomeFound(found: set<nat>, stack: seq<nat>, k: nat, seen: seq<nat>)
      reads this`parents
    {
      && (forall q: nat, p: nat :: q in found && q !in stack && q != k && q < |parents| && p in parents[q] ==> p in found)
      && (forall p: nat :: p in seen ==> p in found)
    }

    lemma Popped(found: set<nat>, stack: seq<nat>, k: nat)
      requires ParentsFound(found, stack + [k])
      ensures SomeFound(found, stack, k, [])
    {
    }

    lemma OneMoreParent(found: set<nat>, stack: seq<nat>, k: nat, ps: seq<nat>, m: nat)
      requires m < |ps| && SomeFound(found, stack, k, ps[..m])
      ensures ps[m] in found ==> SomeFound(found, stack, k, ps[..m + 1])
      ensures SomeFound(found + {ps[m]}, stack + [ps[m]], k, ps[..m + 1])
    {
      assert ps[..m + 1] == ps[..m] + [ps[m]];
    }

    lemma AllParents(found: set<nat>, stack: seq<nat>, k: nat)
      requires k < |parents| && SomeFound(found, stack, k, parents[k])
      ensures ParentsFound(found, stack)
    {
    }

    lemma ParentReached(found: set<nat>, i: nat, k: nat, p: nat)
      requires Describes() && i < |commits| && k < |parents| && p in parents[k] && k in found && AllReached(found, i)
      ensures p < |commits| && AllReached(found + {p}, i)
    {
      hide Reaches;
      assert ParentsAre(parents[k], g[commits[k]]);
      assert IsStep(g, commits[k], commits[p]);
      ReachesParent(g, commits[i], commits[k], commits[p]);
    }

    lemma Starts(i: nat)
      requires i < |commits|
      ensures AllReached({i}, i) && ParentsFound({i}, [i])
    {
      ReachesItself(g, commits[i]);
    }

    /** Once nothing is left to look at, what is found is what is reached. */
    lemma Walked(words: seq<bv64>, i: nat)
      requires Describes() && |words| == WordsFor(|parents|) && i in Places(words, |parents|) && i < |commits|
      requires AllReached(Places(words, |parents|), i) && ParentsFound(Places(words, |parents|), [])
      ensures IsBelow(words, i)
    {
      hide Bit, Has, Reaches;
      var found := Places(words, |parents|);
      var reached := set k | k in found :: commits[k];
      forall c, p | c in reached && IsStep(g, c, p) ensures p in reached {
        var k :| k in found && commits[k] == c;
        assert ParentsAre(parents[k], g[commits[k]]);
        assert index[p] in parents[k] && index[p] in found;
      }
      forall j | 0 <= j < |commits| && Reaches(g, commits[i], commits[j]) ensures j in found {
        ClosedHoldsAll(g, reached, commits[i], commits[j]);
        var k :| k in found && commits[k] == commits[j];
        assert index[commits[k]] == k && index[commits[j]] == j;
      }
    }

    lemma Counted(i: nat)
      requires Describes() && i < |parents|
      ensures |commits| == |parents|
    {
    }

    /** The places one reaches: a walk down the parents. */
    method Walk(i: nat) returns (words: seq<bv64>)
      requires Describes() && i < |parents|
      ensures IsBelow(words, i)
    {
      hide Bit, Has, TestBit, SetBit, Describes, Reaches, ParentsFound, AllReached, SomeFound, IsBelow, Places;
      var n := |parents|;
      Counted(i);
      var bits := new bv64[WordsFor(n)](_ => 0);
      NoPlaces(bits[..], n);
      Set(bits, i, n);
      var stack: seq<nat> := [i];
      Starts(i);
      assert {} + {i} == {i};
      ghost var found := {i};
      while stack != []
        invariant bits.Length == WordsFor(n) && fresh(bits) && found == Places(bits[..], n)
        invariant i in found && (forall k :: k in stack ==> k in found)
        invariant AllReached(found, i) && ParentsFound(found, stack)
        decreases n - |found|, |stack|
      {
        var k := stack[|stack| - 1];
        ghost var whole, was := stack, found;
        NoMoreThan(bits[..], n);
        stack := stack[..|stack| - 1];
        assert whole == stack + [k] && k in whole;
        Popped(found, stack, k);
        var ps := parents[k];
        for m := 0 to |ps|
          invariant bits.Length == WordsFor(n) && fresh(bits) && found == Places(bits[..], n)
          invariant i in found && was <= found && (forall q :: q in stack ==> q in found)
          invariant AllReached(found, i) && SomeFound(found, stack, k, ps[..m])
          invariant (found == was && |stack| < |whole|) || |was| < |found|
        {
          var p := ps[m];
          assert p in ps;
          ParentReached(found, i, k, p);
          OneMoreParent(found, stack, k, ps, m);
          InPlaces(bits[..], p, n);
          if !TestBit(bits[p / 64], Bit(p % 64)) {
            Set(bits, p, n);
            stack := stack + [p];
            found := found + {p};
          }
        }
        assert ps[..|ps|] == ps;
        AllParents(found, stack, k);
        NoMoreThan(bits[..], n);
      }
      words := bits[..];
      Walked(words, i);
    }
  }

  lemma InPlaces(words: seq<bv64>, p: nat, n: nat)
    requires |words| == WordsFor(n) && p < n
    ensures p / 64 < |words| && (TestBit(words[p / 64], Bit(p % 64)) <==> p in Places(words, n))
  {
    hide TestBit, Bit;
  }

  lemma HasTest(words: seq<bv64>, j: nat)
    requires j / 64 < |words|
    ensures Has(words, j) <==> TestBit(words[j / 64], Bit(j % 64))
  {
    hide TestBit, Bit;
  }

  lemma NoMoreThan(words: seq<bv64>, n: nat)
    requires |words| == WordsFor(n)
    ensures |Places(words, n)| <= n && forall k :: k in Places(words, n) ==> k < n
  {
    hide Has;
    assert Places(words, n) <= UpTo(n);
    assert |UpTo(n) - Places(words, n)| == |UpTo(n)| - |Places(words, n)|;
  }

  method Set(bits: array<bv64>, p: nat, n: nat)
    requires bits.Length == WordsFor(n) && p < n
    modifies bits
    ensures Places(bits[..], n) == old(Places(bits[..], n)) + {p}
  {
    hide SetBit, Bit, Has, Places;
    AddedPlaces(bits[..], p, n);
    ghost var was := bits[..];
    bits[p / 64] := SetBit(bits[p / 64], Bit(p % 64));
    assert bits[..] == Added(was, p);
  }

  // Reading a history.

  /** Gives main's history from its listing, or null exactly when some line names no
      commit or a parent that no line is for. */
  method ReadHistory(lines: seq<Line>, ghost g: Graph, ghost tip: string) returns (h: MainHistory?)
    ensures h == null <==> exists i :: 0 <= i < |lines| && BadLine(lines, i)
    ensures h != null && IsListing(g, tip, lines) ==>
              fresh(h) && h.Valid() && h.g == g && forall c :: c in h.index <==> Reaches(g, tip, c)
  {
    hide Reaches;
    var index: map<string, nat> := map[];
    for i := 0 to |lines|
      invariant forall j :: 0 <= j < i ==> lines[j].commit != "" && lines[j].commit in index
      invariant forall c :: c in index ==> index[c] < i && lines[index[c]].commit == c
    {
      if lines[i].commit == "" {
        assert BadLine(lines, i);
        return null;
      }
      index := index[lines[i].commit := i];
    }
    var parents: seq<seq<nat>> := [];
    for i := 0 to |lines|
      invariant |parents| == i && forall j :: 0 <= j < i ==> Indexed(index, lines[j].parents, parents[j])
    {
      var places := PlacesOf(index, lines[i].parents);
      if places.None? {
        NotListed(lines, index, i);
        return null;
      }
      parents := parents + [places.value];
    }
    forall i | 0 <= i < |lines| ensures !BadLine(lines, i) { AllListed(lines, index, parents, i); }
    ghost var commits := seq(|lines|, i requires 0 <= i < |lines| => lines[i].commit);
    h := new MainHistory(index, parents, g, commits);
    if IsListing(g, tip, lines) {
      ListingDescribed(g, tip, lines, index, parents, commits);
    }
  }

  ghost predicate BadLine(lines: seq<Line>, i: nat)
    requires i < |lines|
  {
    lines[i].commit == "" || exists p :: p in lines[i].parents && forall j :: 0 <= j < |lines| ==> lines[j].commit != p
  }

  predicate Indexed(index: map<string, nat>, names: seq<string>, places: seq<nat>) {
    |places| == |names| && forall m :: 0 <= m < |names| ==> names[m] in index && places[m] == index[names[m]]
  }

  method PlacesOf(index: map<string, nat>, names: seq<string>) returns (places: Option<seq<nat>>)
    ensures places.Some? ==> Indexed(index, names, places.value)
    ensures places.None? ==> exists p :: p in names && p !in index
  {
    var out: seq<nat> := [];
    for m := 0 to |names|
      invariant Indexed(index, names[..m], out)
    {
      if names[m] !in index { return None; }
      out := out + [index[names[m]]];
    }
    assert names[..|names|] == names;
    places := Some(out);
  }

  lemma NotListed(lines: seq<Line>, index: map<string, nat>, i: nat)
    requires i < |lines| && (exists p :: p in lines[i].parents && p !in index)
    requires forall j :: 0 <= j < |lines| ==> lines[j].commit in index
    ensures BadLine(lines, i)
  {
  }

  lemma AllListed(lines: seq<Line>, index: map<string, nat>, parents: seq<seq<nat>>, i: nat)
    requires i < |lines| == |parents| && lines[i].commit != "" && Indexed(index, lines[i].parents, parents[i])
    requires forall c :: c in index ==> index[c] < |lines| && lines[index[c]].commit == c
    ensures !BadLine(lines, i)
  {
    forall p | p in lines[i].parents ensures exists j :: 0 <= j < |lines| && lines[j].commit == p {
      var m :| 0 <= m < |lines[i].parents| && lines[i].parents[m] == p;
      assert lines[index[p]].commit == p;
    }
  }

  ghost predicate IsDescribed(g: Graph, index: map<string, nat>, parents: seq<seq<nat>>, commits: seq<string>) {
    && |commits| == |parents|
    && (forall c :: c in index ==> index[c] < |commits| && commits[index[c]] == c)
    && (forall i :: 0 <= i < |commits| ==> commits[i] in index && index[commits[i]] == i && commits[i] in g)
    && (forall i :: 0 <= i < |commits| ==> Indexed(index, g[commits[i]], parents[i]))
  }

  lemma ListingDescribed(g: Graph, tip: string, lines: seq<Line>, index: map<string, nat>, parents: seq<seq<nat>>, commits: seq<string>)
    requires IsListing(g, tip, lines) && |parents| == |lines| == |commits|
    requires forall i :: 0 <= i < |lines| ==> commits[i] == lines[i].commit && lines[i].commit in index
    requires forall c :: c in index ==> index[c] < |lines| && lines[index[c]].commit == c
    requires forall j :: 0 <= j < |lines| ==> Indexed(index, lines[j].parents, parents[j])
    ensures IsDescribed(g, index, parents, commits)
    ensures forall c :: c in index <==> Reaches(g, tip, c)
  {
    hide Reaches, Indexed;
  }
}
