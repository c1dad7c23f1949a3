/** Reading a graph's knots on demand, and the depth-first search for cycles
    in one kind of edge (knot/graph.go, graph.knot and checkCycles). */
module KnotCycles {
  import opened Wrappers
  import opened KnotLayout

  const MAX_KNOT_SIZE := 65536

  /** What the graph's rules read of a knot's file. */
  datatype Knot = Knot(id: string, kind: Kind, created: string, createdBy: string,
                       parent: string, blockedBy: seq<string>, graduatedInto: string)

  datatype Comment = Comment(author: string, edited: string, editedBy: string)

  /** The store a graph is read from, as functions: an object if it is no larger than
      a bound, one file's knot or comment if it keeps the rules for a single file,
      where a knot's ID is never empty, and the ID that belongs to a slug. */
  datatype Content = Content(
    read: (string, nat) -> Option<string>,
    parseKnot: (string, string, string) -> Result<Knot, Rule>,
    parseComment: (string, string) -> Result<Comment, Rule>,
    deriveID: (Kind, string) -> string)

  /** The knot with an ID, held to its file's name. An ID the graph does not
      hold names the empty file, whose ID no knot has. */
  function Load(idx: Index, c: Content, id: string): Result<Knot, Refusal> {
    if id in idx.knots && idx.knots[id].KnotFile? then
      var f := idx.knots[id];
      match c.read(f.oid, MAX_KNOT_SIZE)
      case None => Err(Refusal(RuleLimit, f.path))
      case Some(data) =>
        match c.parseKnot(f.path, f.slug, data)
        case Err(rule) => Err(Refusal(rule, f.path))
        case Ok(k) =>
          if k.id != f.id then Err(Refusal(RuleFilename, f.path))
          else if k.kind != f.kind then Err(Refusal(RuleDirectory, f.path))
          else if c.deriveID(k.kind, f.slug) != k.id then Err(Refusal(RuleIDDerived, f.path))
          else Ok(k)
    else
      match c.read("", MAX_KNOT_SIZE)
      case None => Err(Refusal(RuleLimit, ""))
      case Some(data) =>
        match c.parseKnot("", "", data)
        case Err(rule) => Err(Refusal(rule, ""))
        case Ok(_) => Err(Refusal(RuleFilename, ""))
  }

  /** The entries of a list that name knots of the graph, in order. */
  function Held(idx: Index, refs: seq<string>): (r: seq<string>)
    ensures forall x :: x in r <==> x in refs && x in idx.knots
  {
    if refs == [] then []
    else if refs[0] in idx.knots then [refs[0]] + Held(idx, refs[1..])
    else Held(idx, refs[1..])
  }

  function Next(idx: Index, kind: EdgeKind, k: Knot): seq<string> {
    match kind
    case Parent => if k.parent != "" then [k.parent] else []
    case BlockedBy => Held(idx, k.blockedBy)
  }

  /** The knots that read, each with the knots its edges of one kind name. */
  type Edges = map<string, seq<string>>

  function EdgesOf(idx: Index, c: Content, kind: EdgeKind): Edges {
    map id | id in idx.knots && Load(idx, c, id).Ok? :: Next(idx, kind, Load(idx, c, id).value)
  }

  ghost predicate Walk(e: Edges, p: seq<string>) {
    && |p| > 0
    && forall i :: 0 <= i < |p| - 1 ==> p[i] in e && p[i + 1] in e[p[i]]
  }

  ghost predicate Distinct(p: seq<string>) {
    forall i, j :: 0 <= i < j < |p| ==> p[i] != p[j]
  }

  /** Every walk from a set of knots meets only knots that read, and meets
      none of them twice: no cycle can be reached from the set. */
  ghost predicate NoCycleFrom(e: Edges, from: set<string>) {
    forall p :: Walk(e, p) && p[0] in from ==> (forall x :: x in p ==> x in e) && Distinct(p)
  }

  /** A set closed under its edges, each of which goes down in rank. */
  ghost predicate Descends(e: Edges, rank: map<string, nat>) {
    forall d :: d in rank ==> d in e && forall n :: n in e[d] ==> n in rank && rank[n] < rank[d]
  }

  lemma {:induction false} WalkDescends(e: Edges, rank: map<string, nat>, p: seq<string>)
    requires Descends(e, rank) && Walk(e, p) && p[0] in rank
    ensures forall i :: 0 <= i < |p| ==> p[i] in rank
    ensures forall i, j :: 0 <= i < j < |p| ==> rank[p[j]] < rank[p[i]]
  {
    if |p| > 1 {
      var front := p[..|p| - 1];
      WalkDescends(e, rank, front);
      assert p[|p| - 2] == front[|p| - 2] && p[|p| - 1] in e[p[|p| - 2]];
      forall i, j | 0 <= i < j < |p| ensures rank[p[j]] < rank[p[i]] {
        if j == |p| - 1 && i < |p| - 2 { assert rank[front[|p| - 2]] < rank[front[i]]; }
        else if j < |p| - 1 { assert rank[front[j]] < rank[front[i]]; }
      }
    }
  }

  lemma DescentHasNoCycle(e: Edges, rank: map<string, nat>, from: set<string>)
    requires Descends(e, rank) && from <= rank.Keys
    ensures NoCycleFrom(e, from)
  {
    forall p | Walk(e, p) && p[0] in from ensures (forall x :: x in p ==> x in e) && Distinct(p) {
      WalkDescends(e, rank, p);
    }
  }

  /** An index with the knots of it read so far; one read twice is parsed once. */
  class Graph {
    const idx: Index
    const c: Content
    var knots: map<string, Knot>

    ghost predicate Valid() reads this {
      forall id :: id in knots ==> Load(idx, c, id) == Ok(knots[id])
    }

    constructor (idx: Index, c: Content)
      ensures Valid() && this.idx == idx && this.c == c
    {
      this.idx, this.c := idx, c;
      knots := map[];
    }

    method Knot(id: string) returns (r: Result<Knot, Refusal>)
      requires Valid()
      modifies this
      ensures Valid() && r == Load(idx, c, id)
      ensures r.Ok? ==> id in knots
    {
      if id in knots {
        return Ok(knots[id]);
      }
      r := Load(idx, c, id);
      if r.Ok? { knots := knots[id := r.value]; }
    }
  }

  datatype Colour = Visiting | Done

  /** The trail is a walk through the knots being visited, and the knots done
      are closed under their edges and go down in rank. */
  ghost predicate Consistent(e: Edges, state: map<string, Colour>, trail: seq<string>, rank: map<string, nat>) {
    && state.Keys <= e.Keys
    && (forall id :: id in trail <==> id in state && state[id] == Visiting)
    && (trail == [] || Walk(e, trail))
    && (forall id :: id in rank <==> id in state && state[id] == Done)
    && Descends(e, rank)
  }

  lemma Enter(e: Edges, state: map<string, Colour>, trail: seq<string>, rank: map<string, nat>, id: string)
    requires Consistent(e, state, trail, rank) && Walk(e, trail + [id])
    requires id in e && id !in state
    ensures Consistent(e, state[id := Visiting], trail + [id], rank)
  {
  }

  lemma Meaning(e: Edges, state: map<string, Colour>, trail: seq<string>, rank: map<string, nat>)
    requires Consistent(e, state, trail, rank)
    ensures state.Keys <= e.Keys && state.Keys == (set x | x in trail) + rank.Keys
    ensures forall id :: id in trail <==> id in state && state[id] == Visiting
    ensures forall id :: id in rank <==> id in state && state[id] == Done
    ensures trail == [] || Walk(e, trail)
    ensures Descends(e, rank)
  {
    forall id | id in state ensures id in trail || id in rank {
      if state[id] == Visiting { assert id in trail; } else { assert id in rank; }
    }
  }

  /** A knot all of whose edges name knots done is done, ranked above them. */
  lemma Leave(e: Edges, state: map<string, Colour>, trail: seq<string>, rank: map<string, nat>, id: string)
    requires Consistent(e, state, trail + [id], rank) && id !in trail
    requires forall n :: n in e[id] ==> n in rank
    ensures Consistent(e, state[id := Done], trail, rank[id := Above(rank)])
  {
    assert id in trail + [id];
    if trail != [] {
      assert Walk(e, trail) by {
        var longer := trail + [id];
        assert forall i :: 0 <= i < |trail| ==> longer[i] == trail[i];
      }
    }
    forall x | x in trail ensures x in trail + [id] {}
  }

  /** One depth-first search, over one kind of edge. */
  class Search {
    const g: Graph
    const kind: EdgeKind
    const e: Edges
    var state: map<string, Colour>
    var trail: seq<string>
    // The rank of each knot done: each is above every knot its edges name.
    ghost var rank: map<string, nat>

    ghost predicate Valid()
      reads this, g
    {
      g.Valid() && e == EdgesOf(g.idx, g.c, kind) && Consistent(e, state, trail, rank)
    }

    constructor (g: Graph, kind: EdgeKind)
      requires g.Valid()
      ensures Valid() && this.g == g && this.kind == kind && trail == [] && rank == map[]
    {
      this.g, this.kind := g, kind;
      e := EdgesOf(g.idx, g.c, kind);
      state, trail, rank := map[], [], map[];
    }

    /** A walk to a knot that does not read, or back to one already on it. */
    static ghost predicate Fails(e: Edges, p: seq<string>, id: string) {
      Walk(e, p + [id]) && (id !in e || id in p)
    }

    /** The trail from a knot being visited, back round to it. */
    method CutLoop(id: string) returns (loop: seq<string>)
      requires id in trail && Walk(e, trail + [id])
      ensures IsLoop(e, loop)
    {
      var at := 0;
      while trail[at] != id
        invariant 0 <= at < |trail| && id in trail[at..]
        decreases |trail| - at
      {
        at := at + 1;
      }
      loop := trail[at..] + [id];
      assert loop == (trail + [id])[at..];
    }

    method Visit(id: string) returns (r: Option<Refusal>)
      requires Valid()
      requires Walk(e, trail + [id])
      modifies this, g
      ensures g.Valid()
      ensures r.None? ==> Valid() && trail == old(trail) && id in rank && old(state.Keys) <= state.Keys && old(rank.Keys) <= rank.Keys
      ensures r.Some? ==> FailsFrom(e, (old(trail) + [id])[0])
      ensures r.Some? && r.value.CycleRefusal? ==> r.value.edge == kind && IsLoop(e, r.value.loop)
      decreases e.Keys - state.Keys
    {
      hide Load, Next, EdgesOf, Consistent, Descends, Distinct, Walk, Fails, IsLoop;
      Meaning(e, state, trail, rank);
      if id in state && state[id] == Visiting {
        FailureFrom(e, trail, id);
        var loop := CutLoop(id);
        return Some(CycleRefusal(kind, loop));
      } else if id in state {
        return None;
      }
      var k := g.Knot(id);
      EdgesAt(g.idx, g.c, kind, id);
      if k.Err? {
        FailureFrom(e, trail, id);
        return Some(k.error);
      }
      Enter(e, state, trail, rank, id);
      state := state[id := Visiting];
      trail := trail + [id];
      var next := Next(g.idx, kind, k.value);
      for n := 0 to |next|
        invariant Valid()
        invariant trail == old(trail) + [id] && old(rank.Keys) <= rank.Keys
        invariant old(state.Keys) <= state.Keys && id in state
        invariant forall m :: 0 <= m < n ==> next[m] in rank
      {
        WalkOn(e, old(trail), id, next[n]);
        r := Visit(next[n]);
        if r.Some? {
          return;
        }
      }
      Leave(e, state, old(trail), rank, id);
      trail := trail[..|trail| - 1];
      assert trail == old(trail);
      state := state[id := Done];
      rank := rank[id := Above(rank)];
      r := None;
    }
  }

  /** Some walk from a knot fails. */
  ghost predicate FailsFrom(e: Edges, start: string) {
    exists p, x :: Search.Fails(e, p, x) && (p + [x])[0] == start
  }

  lemma FailureFrom(e: Edges, trail: seq<string>, id: string)
    requires Walk(e, trail + [id]) && (id !in e || id in trail)
    ensures FailsFrom(e, (trail + [id])[0])
  {
    assert Search.Fails(e, trail, id);
  }

  lemma WalkOn(e: Edges, trail: seq<string>, id: string, n: string)
    requires Walk(e, trail + [id]) && id in e && n in e[id]
    ensures Walk(e, trail + [id] + [n])
    ensures (trail + [id] + [n])[0] == (trail + [id])[0]
  {
  }

  lemma EdgesAt(idx: Index, c: Content, kind: EdgeKind, id: string)
    ensures Load(idx, c, id).Ok? <==> id in EdgesOf(idx, c, kind)
    ensures Load(idx, c, id).Ok? ==> id in idx.knots
    ensures Load(idx, c, id).Ok? ==> EdgesOf(idx, c, kind)[id] == Next(idx, kind, Load(idx, c, id).value)
    ensures Load(idx, c, id).Err? ==> Load(idx, c, id).error.Refusal?
  {
  }

  /** A rank above all those given. */
  ghost function {:induction false} Above(rank: map<string, nat>): (top: nat)
    ensures forall x :: x in rank ==> rank[x] < top
  {
    if rank == map[] then 0
    else
      var x :| x in rank;
      var rest := map y | y in rank && y != x :: rank[y];
      assert rest.Keys == rank.Keys - {x};
      var top := Above(rest);
      assert forall y :: y in rank ==> y == x || y in rest;
      if rank[x] < top then top else rank[x] + 1
  }

  /** No walk from the changed knots meets a knot that does not read or one
      knot twice, along either kind of edge. */
  ghost predicate CyclesHold(idx: Index, c: Content, from: set<string>) {
    forall kind: EdgeKind :: NoCycleFrom(EdgesOf(idx, c, kind), from)
  }

  /** A loop of edges of one kind, back to the knot it starts at. */
  ghost predicate IsLoop(e: Edges, loop: seq<string>) {
    Walk(e, loop) && |loop| >= 2 && loop[0] == loop[|loop| - 1]
  }

  method CheckCycles(g: Graph, from: seq<string>) returns (r: Option<Refusal>)
    requires g.Valid()
    modifies g
    ensures r.None? <==> CyclesHold(g.idx, g.c, set id | id in from)
    ensures r.Some? && r.value.CycleRefusal? ==> IsLoop(EdgesOf(g.idx, g.c, r.value.edge), r.value.loop)
  {
    r := CheckKind(g, Parent, from);
    if r.None? {
      r := CheckKind(g, BlockedBy, from);
    }
  }

  method CheckKind(g: Graph, kind: EdgeKind, from: seq<string>) returns (r: Option<Refusal>)
    requires g.Valid()
    modifies g
    ensures g.Valid()
    ensures r.None? <==> NoCycleFrom(EdgesOf(g.idx, g.c, kind), set id | id in from)
    ensures r.Some? && r.value.CycleRefusal? ==> r.value.edge == kind && IsLoop(EdgesOf(g.idx, g.c, kind), r.value.loop)
  {
    hide Load, Next, EdgesOf, Descends, NoCycleFrom;
    var s := new Search(g, kind);
    for n := 0 to |from|
      invariant s.Valid() && s.g == g && s.kind == kind && s.trail == [] && fresh(s)
      invariant forall m :: 0 <= m < n ==> from[m] in s.rank
    {
      assert [] + [from[n]] == [from[n]];
      r := s.Visit(from[n]);
      if r.Some? {
        FailureRefutes(s.e, from[n], set id | id in from);
        return;
      }
    }
    DescentHasNoCycle(s.e, s.rank, set id | id in from);
    r := None;
  }

  lemma FailureRefutes(e: Edges, start: string, from: set<string>)
    requires FailsFrom(e, start) && start in from
    ensures !NoCycleFrom(e, from)
  {
    var p, x :| Search.Fails(e, p, x) && (p + [x])[0] == start;
    var walk := p + [x];
    assert x in walk && walk[|p|] == x;
    if x in p {
      var i :| 0 <= i < |p| && p[i] == x;
      assert walk[i] == walk[|p|];
    }
  }
}
