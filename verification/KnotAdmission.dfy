/** The admission of a push to the plan graph (knot/graph.go, Push.check):
    only the files a push changed are read, and the whole graph stays valid. */
module KnotAdmission {
  import opened Wrappers
  import opened Strings
  import opened KnotLayout
  import opened KnotCycles

  const MAX_COMMENT_SIZE := 16384
  const MAX_CHANGED_PATHS := 32

  /** A graph as it was, if there was one, and as it would be, with the store both are
      read from. An empty pusher is nobody; mayEdit names the authors whose comments
      the pusher may change. */
  datatype Push = Push(before: Option<Index>, after: Index, c: Content, pusher: string, mayEdit: string -> bool)

  /** A file's object in the graph before the push, or "" when it had none. */
  function Before(p: Push, path: string): string {
    if p.before.Some? && path in p.before.value.files then p.before.value.files[path] else ""
  }

  /** The files the push adds or changes. */
  function Changed(p: Push): (r: set<string>)
    ensures r <= p.after.files.Keys
  {
    set path | path in p.after.files && (p.before.None? || Before(p, path) != p.after.files[path])
  }

  /** The files the push deletes. */
  function Gone(p: Push): set<string> {
    if p.before.None? then {} else p.before.value.files.Keys - p.after.files.Keys
  }

  function ReadComment(c: Content, path: string, oid: string): Result<Comment, Rule> {
    match c.read(oid, MAX_COMMENT_SIZE)
    case None => Err(RuleLimit)
    case Some(data) => c.parseComment(path, data)
  }

  /** What is asked of a comment whatever the push: its knot exists and its content
      parses. */
  function CommentForm(p: Push, f: File): Result<Comment, Refusal> {
    if f.id !in p.after.knots then Err(Refusal(RuleEdgeResolves, DirOf(f.path)))
    else
      match ReadComment(p.c, f.path, f.oid)
      case Err(rule) => Err(Refusal(rule, f.path))
      case Ok(comment) => Ok(comment)
  }

  /** Who may write a comment: a new one names its pusher and no edit, and a
      changed one keeps its author and records an edit its pusher may make. */
  function CommentProvenance(p: Push, f: File, comment: Comment): Option<Refusal> {
    var before := Before(p, f.path);
    if before == "" then
      if comment.edited != "" then Some(Refusal(RuleProvenance, f.path))
      else if p.pusher != "" && comment.author != p.pusher then Some(Refusal(RuleProvenance, f.path))
      else None
    else
      match ReadComment(p.c, f.path, before)
      case Err(rule) => Some(Refusal(rule, f.path))
      case Ok(old_) =>
        if comment.author != old_.author then Some(Refusal(RuleTransition, f.path))
        else if comment.edited == "" then Some(Refusal(RuleProvenance, f.path))
        else if p.pusher == "" then None
        else if comment.editedBy != p.pusher then Some(Refusal(RuleProvenance, f.path))
        else if p.pusher == old_.author then None
        else if p.mayEdit(old_.author) then None
        else Some(Refusal(RuleTransition, f.path))
  }

  function CheckComment(p: Push, f: File, push: bool): (r: Option<Refusal>)
    ensures r.Some? ==> r.value.Refusal?
  {
    match CommentForm(p, f)
    case Err(e) => Some(e)
    case Ok(comment) => if push then CommentProvenance(p, f, comment) else None
  }

  /** Whether an ID is a knot's here, and one of the wanted types where any are wanted. */
  predicate Resolves(idx: Index, id: string, want: set<Kind>) {
    id in idx.knots && idx.knots[id].KnotFile? && (want == {} || idx.knots[id].kind in want)
  }

  function EdgeRefusal(idx: Index, id: string, path: string): Refusal {
    Refusal(if id in idx.knots then RuleParentOutcome else RuleEdgeResolves, path)
  }

  /** The first local entry of blocked_by that names no knot in the graph. */
  function FirstDangling(idx: Index, refs: seq<string>): (r: Option<string>)
    ensures r.None? <==> forall x :: x in refs && IsLocalID(x) ==> Resolves(idx, x, {})
  {
    if refs == [] then None
    else
      assert forall x :: x in refs <==> x == refs[0] || x in refs[1..];
      if IsLocalID(refs[0]) && !Resolves(idx, refs[0], {}) then Some(refs[0])
      else FirstDangling(idx, refs[1..])
  }

  function CheckEdges(idx: Index, k: Knot, path: string): Option<Refusal> {
    if k.parent != "" && !Resolves(idx, k.parent, {Outcome}) then Some(EdgeRefusal(idx, k.parent, path))
    else if k.graduatedInto != "" && !Resolves(idx, k.graduatedInto, {Outcome, Question}) then
      Some(EdgeRefusal(idx, k.graduatedInto, path))
    else
      match FirstDangling(idx, k.blockedBy)
      case Some(ref) => Some(EdgeRefusal(idx, ref, path))
      case None => None
  }

  /** The refusal, if any, for what became of one knot: who may create it, and what
      about it can never change. */
  function CheckTransition(p: Push, f: File, k: Knot): Option<Refusal> {
    if p.before.None? || f.id !in p.before.value.knots || !p.before.value.knots[f.id].KnotFile? then
      if p.pusher != "" && k.createdBy != p.pusher then Some(Refusal(RuleProvenance, f.path)) else None
    else
      var was := p.before.value.knots[f.id];
      if was.path != f.path then Some(Refusal(RuleTransition, f.path))
      else
        match p.c.read(was.oid, MAX_KNOT_SIZE)
        case None => Some(Refusal(RuleLimit, was.path))
        case Some(data) =>
          match p.c.parseKnot(was.path, was.slug, data)
          case Err(rule) => Some(Refusal(rule, was.path))
          case Ok(old_) =>
            if old_.id != k.id || old_.kind != k.kind || old_.created != k.created || old_.createdBy != k.createdBy then
              Some(Refusal(RuleTransition, f.path))
            else None
  }

  /** One changed knot: it reads, its edges resolve, and the push may make
      the change. */
  function CheckKnot(p: Push, f: File): (r: Option<Refusal>)
    ensures r.Some? ==> r.value.Refusal?
  {
    match Load(p.after, p.c, f.id)
    case Err(e) => Some(e)
    case Ok(k) =>
      match CheckEdges(p.after, k, f.path)
      case Some(e) => Some(e)
      case None => CheckTransition(p, f, k)
  }

  /** One changed file. */
  function CheckFile(p: Push, path: string, push: bool): (r: Option<Refusal>)
    requires p.after.Valid() && path in p.after.files
    ensures r.Some? ==> r.value.Refusal?
  {
    hide IsFilePath, IsKnotPath, FileOf, CheckComment, CheckKnot;
    if path in p.after.comments then CheckComment(p, p.after.comments[path], push)
    else
      assert p.after.HoldsKnot(path);
      CheckKnot(p, p.after.knots[p.after.knotAt[path]])
  }

  function KnotsAt(knotAt: map<string, string>, paths: set<string>): set<string> {
    set path | path in paths && path in knotAt :: knotAt[path]
  }

  lemma KnotsAtNone(knotAt: map<string, string>)
    ensures KnotsAt(knotAt, {}) == {}
  {
  }

  lemma KnotsAtOneMore(knotAt: map<string, string>, paths: set<string>, path: string)
    ensures KnotsAt(knotAt, paths + {path}) == KnotsAt(knotAt, paths) + if path in knotAt then {knotAt[path]} else {}
  {
    if path in knotAt {
      assert path in paths + {path};
      forall x | x in paths && x in knotAt ensures knotAt[x] in KnotsAt(knotAt, paths + {path}) { assert x in paths + {path}; }
    }
  }

  /** The knots among the changed files. */
  function Touched(p: Push): set<string>
    requires p.after.Valid()
  {
    KnotsAt(p.after.knotAt, Changed(p))
  }

  ghost predicate FilesHold(p: Push, push: bool)
    requires p.after.Valid()
  {
    forall path :: path in Changed(p) ==> CheckFile(p, path, push).None?
  }

  /** The first changed file, in the order of paths, that is refused, and what
      for. */
  ghost predicate FirstRefused(p: Push, push: bool, r: Option<Refusal>)
    requires p.after.Valid()
  {
    exists path :: path in Changed(p) && r.Some? && r == CheckFile(p, path, push)
      && forall q :: q in Changed(p) && Less(q, path) ==> CheckFile(p, q, push).None?
  }

  /** The rules of a push, each said on its own. */
  ghost predicate Accepts(p: Push, push: bool)
    requires p.after.Valid()
  {
    && Gone(p) == {}
    && (push ==> |Changed(p)| <= MAX_CHANGED_PATHS)
    && FilesHold(p, push)
    && CyclesHold(p.after, p.c, Touched(p))
  }

  /** Holds one changed file to its rules, reading each knot once. */
  method CheckPath(p: Push, g: Graph, path: string, push: bool) returns (r: Option<Refusal>)
    requires p.after.Valid() && path in p.after.files
    requires g.Valid() && g.idx == p.after && g.c == p.c
    modifies g
    ensures g.Valid()
    ensures r == CheckFile(p, path, push)
  {
    hide CheckComment, CheckEdges, CheckTransition, Load;
    if path in p.after.comments {
      r := CheckComment(p, p.after.comments[path], push);
    } else {
      var f := p.after.knots[p.after.knotAt[path]];
      var k := g.Knot(f.id);
      if k.Err? { return Some(k.error); }
      r := CheckEdges(p.after, k.value, f.path);
      if r.Some? { return; }
      r := CheckTransition(p, f, k.value);
    }
  }

  /** Holds each changed file to its rules, in order, and gathers the knots
      among them. */
  method CheckFiles(p: Push, g: Graph, changed: seq<string>, push: bool) returns (r: Option<Refusal>, touched: seq<string>)
    requires p.after.Valid() && StrictlySorted(changed) && forall path :: path in changed <==> path in Changed(p)
    requires g.Valid() && g.idx == p.after && g.c == p.c
    modifies g
    ensures g.Valid()
    ensures r.None? <==> FilesHold(p, push)
    ensures r.Some? ==> r.value.Refusal? && FirstRefused(p, push, r)
    ensures r.None? ==> (set id | id in touched) == Touched(p)
  {
    hide Changed, CheckFile, KnotsAt, Graph.Valid, Index.Valid, Less, StrictlySorted;
    r, touched := None, [];
    ghost var seen: set<string> := {};
    KnotsAtNone(p.after.knotAt);
    for n := 0 to |changed|
      invariant g.Valid() && g.idx == p.after && g.c == p.c
      invariant seen <= Changed(p) && forall m :: 0 <= m < n ==> changed[m] in seen
      invariant forall path :: path in seen ==> CheckFile(p, path, push).None?
      invariant forall id :: id in touched <==> id in KnotsAt(p.after.knotAt, seen)
    {
      var path := changed[n];
      assert path in changed;
      r := CheckPath(p, g, path, push);
      if r.Some? {
        SortedBefore(changed, n);
        return;
      }
      if path in p.after.knotAt {
        touched := touched + [p.after.knotAt[path]];
      }
      KnotsAtOneMore(p.after.knotAt, seen, path);
      seen := seen + {path};
    }
    assert seen == Changed(p) by {
      forall path | path in Changed(p) ensures path in seen { assert path in changed; }
    }
    r := None;
  }

  /** Of sorted strings, those below the n-th come before it. */
  lemma SortedBefore(s: seq<string>, n: nat)
    requires StrictlySorted(s) && n < |s|
    ensures forall q :: q in s && Less(q, s[n]) ==> exists m :: 0 <= m < n && s[m] == q
  {
    hide Less;
    forall q | q in s && Less(q, s[n]) ensures exists m :: 0 <= m < n && s[m] == q {
      var m :| 0 <= m < |s| && s[m] == q;
      if m == n { LessIrreflexive(q); }
      if m > n { LessTransitive(q, s[n], q); LessIrreflexive(q); }
    }
  }

  method Check(p: Push, push: bool) returns (r: Option<Refusal>)
    requires p.after.Valid()
    ensures r.None? <==> Accepts(p, push)
    ensures Gone(p) != {} ==> r == Some(Refusal(RuleTransition, Least(Gone(p))))
    ensures Gone(p) == {} && push && |Changed(p)| > MAX_CHANGED_PATHS ==> r == Some(Refusal(RuleLimit, ""))
    ensures Gone(p) == {} && (push ==> |Changed(p)| <= MAX_CHANGED_PATHS) && !FilesHold(p, push) ==> FirstRefused(p, push, r)
    ensures r.Some? && r.value.CycleRefusal? ==>
              FilesHold(p, push) && IsLoop(EdgesOf(p.after, p.c, r.value.edge), r.value.loop)
  {
    hide Changed, Gone, FilesHold, CyclesHold, Less, EdgesOf, IsLoop, Index.Valid, FirstRefused, StrictlySorted;
    var g := new Graph(p.after, p.c);
    var changed := Sorted(Changed(p));
    var gone := Sorted(Gone(p));
    if gone != [] {
      assert gone[0] in gone;
      return Some(Refusal(RuleTransition, gone[0]));
    }
    if push && |changed| > MAX_CHANGED_PATHS {
      return Some(Refusal(RuleLimit, ""));
    }
    var touched;
    r, touched := CheckFiles(p, g, changed, push);
    if r.Some? { return; }
    r := CheckCycles(g, touched);
  }

  // What a whole graph is held to, with no push, no order and no search.

  ghost predicate NamesKnot(idx: Index, id: string) {
    id in idx.knots && idx.knots[id].KnotFile?
  }

  /** A parent is an outcome of the graph, what an idea graduated into an outcome or
      a question, and each local entry of blocked_by any knot. */
  ghost predicate EdgesResolve(idx: Index, k: Knot) {
    && (k.parent != "" ==> NamesKnot(idx, k.parent) && idx.knots[k.parent].kind == Outcome)
    && (k.graduatedInto != "" ==>
          NamesKnot(idx, k.graduatedInto) && (idx.knots[k.graduatedInto].kind == Outcome || idx.knots[k.graduatedInto].kind == Question))
    && forall x :: x in k.blockedBy && IsLocalID(x) ==> NamesKnot(idx, x)
  }

  /** Whether a push may leave a knot as it is: one that was not there is the
      pusher's own, and one that was has its old path and parses as of old, with
      the four fields that never change the same. */
  ghost predicate MayChange(p: Push, f: File, k: Knot) {
    if p.before.None? || f.id !in p.before.value.knots || !p.before.value.knots[f.id].KnotFile? then
      p.pusher != "" ==> k.createdBy == p.pusher
    else
      var was := p.before.value.knots[f.id];
      was.path == f.path &&
      exists data, old_ :: p.c.read(was.oid, MAX_KNOT_SIZE) == Some(data) && p.c.parseKnot(was.path, was.slug, data) == Ok(old_)
        && (old_.id, old_.kind, old_.created, old_.createdBy) == (k.id, k.kind, k.created, k.createdBy)
  }

  /** A changed knot passes exactly when it reads, its local edges name knots of
      the types they take, and the push may leave it as it is. */
  lemma CheckKnotExactly(p: Push, f: File)
    ensures CheckKnot(p, f).None? <==>
              && Load(p.after, p.c, f.id).Ok?
              && EdgesResolve(p.after, Load(p.after, p.c, f.id).value)
              && MayChange(p, f, Load(p.after, p.c, f.id).value)
  {
    hide Load, IsLocalID;
  }

  /** An object is a comment's file, small enough to read, and says so much. */
  ghost predicate IsComment(c: Content, path: string, oid: string, comment: Comment) {
    c.read(oid, MAX_COMMENT_SIZE).Some? && c.parseComment(path, c.read(oid, MAX_COMMENT_SIZE).value) == Ok(comment)
  }

  ghost predicate CommentHolds(idx: Index, c: Content, f: File) {
    f.id in idx.knots && exists comment :: IsComment(c, f.path, f.oid, comment)
  }

  /** A file had an object in the graph before the push. */
  ghost predicate WasThere(p: Push, path: string) {
    p.before.Some? && path in p.before.value.files && p.before.value.files[path] != ""
  }

  /** Whether a push may leave a comment as it is: one that was not there has no
      edit and is the pusher's own, and one that was reads as of old, keeps its
      author and records an edit, by the pusher, who is its author or may edit
      that author's comments. With no pusher, nobody is asked for. */
  ghost predicate MayWrite(p: Push, path: string, comment: Comment) {
    if WasThere(p, path) then
      exists was :: IsComment(p.c, path, p.before.value.files[path], was) && MayEdit(p, was, comment)
    else
      comment.edited == "" && (p.pusher != "" ==> comment.author == p.pusher)
  }

  ghost predicate MayEdit(p: Push, was: Comment, comment: Comment) {
    && comment.author == was.author && comment.edited != ""
    && (p.pusher != "" ==> comment.editedBy == p.pusher && (p.pusher == was.author || p.mayEdit(was.author)))
  }

  /** A changed comment passes exactly when its knot is there, it reads, and the
      push may leave it as it is. */
  lemma CheckCommentExactly(p: Push, f: File)
    ensures CheckComment(p, f, true).None? <==>
              f.id in p.after.knots && exists comment :: IsComment(p.c, f.path, f.oid, comment) && MayWrite(p, f.path, comment)
    ensures CheckComment(p, f, false).None? <==> CommentHolds(p.after, p.c, f)
  {
    hide DirOf;
    ReadsAsComment(p.c, f.path, f.oid);
    ReadsAsComment(p.c, f.path, Before(p, f.path));
  }

  lemma ReadsAsComment(c: Content, path: string, oid: string)
    ensures forall comment :: IsComment(c, path, oid, comment) <==> ReadComment(c, path, oid) == Ok(comment)
  {
  }

  /** A comment that was there and still reads is refused as a change no push may
      make when its author would change, or when an edit the pusher owns to is not
      its to make; whatever else is wrong with the edit is about who made it. */
  lemma EditIsRefusedAs(p: Push, f: File, was: Comment, comment: Comment)
    requires f.id in p.after.knots && WasThere(p, f.path)
    requires IsComment(p.c, f.path, p.before.value.files[f.path], was) && IsComment(p.c, f.path, f.oid, comment)
    requires !MayWrite(p, f.path, comment)
    ensures var ownsTo := comment.edited != "" && p.pusher != "" && comment.editedBy == p.pusher;
            CheckComment(p, f, true) ==
            Some(Refusal(if comment.author != was.author || ownsTo then RuleTransition else RuleProvenance, f.path))
  {
    hide DirOf;
    ReadsAsComment(p.c, f.path, f.oid);
    ReadsAsComment(p.c, f.path, p.before.value.files[f.path]);
  }

  ghost predicate Acyclic(e: Edges) {
    forall loop :: !IsLoop(e, loop)
  }

  /** A graph with nothing wrong: all its knots and comments parse, each local edge
      and each comment leads to a knot, and there is no loop of either edge kind. */
  ghost predicate WholeGraph(idx: Index, c: Content) {
    && (forall id :: id in idx.knots ==> Load(idx, c, id).Ok? && EdgesResolve(idx, Load(idx, c, id).value))
    && (forall path :: path in idx.comments ==> CommentHolds(idx, c, idx.comments[path]))
    && forall kind: EdgeKind :: Acyclic(EdgesOf(idx, c, kind))
  }

  /** One knot waits on another: it names it as its parent, or among those it is
      blocked by, where the graph holds it. */
  ghost predicate IsEdge(idx: Index, c: Content, kind: EdgeKind, from: string, to: string) {
    && from in idx.knots && Load(idx, c, from).Ok?
    && var k := Load(idx, c, from).value;
       match kind
       case Parent => to != "" && to == k.parent
       case BlockedBy => to in k.blockedBy && to in idx.knots
  }

  /** A knot that in the end waits on itself, by the knots in between. */
  ghost predicate IsRing(idx: Index, c: Content, kind: EdgeKind, ring: seq<string>) {
    && |ring| >= 2 && ring[0] == ring[|ring| - 1]
    && forall i :: 0 <= i < |ring| - 1 ==> IsEdge(idx, c, kind, ring[i], ring[i + 1])
  }

  lemma EdgesAre(idx: Index, c: Content, kind: EdgeKind, from: string, to: string)
    ensures from in EdgesOf(idx, c, kind) && to in EdgesOf(idx, c, kind)[from] <==> IsEdge(idx, c, kind, from, to)
  {
    hide Load;
  }

  /** There is no loop among the edges the search walks exactly when no knot waits on
      itself. */
  lemma AcyclicExactly(idx: Index, c: Content, kind: EdgeKind)
    ensures Acyclic(EdgesOf(idx, c, kind)) <==> forall ring :: !IsRing(idx, c, kind, ring)
  {
    hide EdgesOf, IsLoop, IsRing;
    forall ring ensures IsLoop(EdgesOf(idx, c, kind), ring) <==> IsRing(idx, c, kind, ring) {
      LoopIsRing(idx, c, kind, ring);
    }
  }

  lemma LoopIsRing(idx: Index, c: Content, kind: EdgeKind, ring: seq<string>)
    ensures IsLoop(EdgesOf(idx, c, kind), ring) <==> IsRing(idx, c, kind, ring)
  {
    hide Load, EdgesOf, IsEdge;
    var e := EdgesOf(idx, c, kind);
    if IsLoop(e, ring) {
      forall i | 0 <= i < |ring| - 1 ensures IsEdge(idx, c, kind, ring[i], ring[i + 1]) {
        EdgesAre(idx, c, kind, ring[i], ring[i + 1]);
      }
    }
    if IsRing(idx, c, kind, ring) {
      forall i | 0 <= i < |ring| - 1 ensures ring[i] in e && ring[i + 1] in e[ring[i]] {
        EdgesAre(idx, c, kind, ring[i], ring[i + 1]);
      }
    }
  }

  /** A whole graph is one where every knot reads and its edges lead where they may,
      every comment reads and is on a knot of the graph, and no knot waits on
      itself by either kind of edge. */
  lemma WholeExactly(idx: Index, c: Content)
    ensures WholeGraph(idx, c) <==>
            && (forall id :: id in idx.knots ==> Load(idx, c, id).Ok? && EdgesResolve(idx, Load(idx, c, id).value))
            && (forall path :: path in idx.comments ==> CommentHolds(idx, c, idx.comments[path]))
            && forall kind: EdgeKind, ring :: !IsRing(idx, c, kind, ring)
  {
    hide Load, EdgesOf, Acyclic, IsRing, EdgesResolve, CommentHolds;
    AcyclicExactly(idx, c, Parent);
    AcyclicExactly(idx, c, BlockedBy);
    if forall kind: EdgeKind :: Acyclic(EdgesOf(idx, c, kind)) {
      forall kind: EdgeKind, ring ensures !IsRing(idx, c, kind, ring) {
        AcyclicExactly(idx, c, kind);
        assert Acyclic(EdgesOf(idx, c, kind));
      }
    } else {
      var kind: EdgeKind :| !Acyclic(EdgesOf(idx, c, kind));
      assert kind == Parent || kind == BlockedBy;
    }
  }

  /** Whether the push may make the change it makes to a file that reads. */
  ghost predicate FileRules(p: Push, path: string)
    requires p.after.Valid() && path in p.after.files
  {
    if path in p.after.comments then
      var f := p.after.comments[path];
      forall comment :: IsComment(p.c, f.path, f.oid, comment) ==> MayWrite(p, f.path, comment)
    else
      var f := p.after.knots[p.after.knotAt[path]];
      Load(p.after, p.c, f.id).Ok? ==> MayChange(p, f, Load(p.after, p.c, f.id).value)
  }

  /** A file is not as it was in the graph before, if there was one. */
  ghost predicate Differs(p: Push, path: string) {
    p.before.None? || path !in p.before.value.files || path !in p.after.files || p.before.value.files[path] != p.after.files[path]
  }

  /** The rules that are about the push and not the graph it leaves: no file is
      gone, few enough are changed, and each may change so. */
  ghost predicate PushRules(p: Push)
    requires p.after.Valid()
  {
    && (p.before.Some? ==> forall path :: path in p.before.value.files ==> path in p.after.files)
    && |set path | path in p.after.files && Differs(p, path)| <= MAX_CHANGED_PATHS
    && forall path :: path in p.after.files && Differs(p, path) ==> FileRules(p, path)
  }

  /** What the check takes for gone and for changed is so. */
  lemma ChangedDiffer(p: Push)
    requires NamesObjects(p.after)
    ensures Changed(p) == set path | path in p.after.files && Differs(p, path)
    ensures forall path :: path in p.after.files ==> (path in Changed(p) <==> Differs(p, path))
    ensures Gone(p) == {} <==> (p.before.Some? ==> forall path :: path in p.before.value.files ==> path in p.after.files)
  {
    if p.before.Some? && Gone(p) == {} {
      forall path | path in p.before.value.files ensures path in p.after.files { assert path !in Gone(p); }
    }
  }

  /** Every file of the graph names its object, as in any listing of a tree. */
  predicate NamesObjects(idx: Index) {
    forall path :: path in idx.files ==> idx.files[path] != ""
  }

  // Cycles.

  /** In a whole graph's knots, an edge names a knot that reads. */
  ghost predicate AllRead(idx: Index, c: Content) {
    forall id :: id in idx.knots ==> Load(idx, c, id).Ok? && EdgesResolve(idx, Load(idx, c, id).value)
  }

  lemma EdgesStayInside(idx: Index, c: Content, kind: EdgeKind)
    requires AllRead(idx, c)
    ensures EdgesOf(idx, c, kind).Keys == idx.knots.Keys
    ensures forall id, n :: id in EdgesOf(idx, c, kind) && n in EdgesOf(idx, c, kind)[id] ==> n in idx.knots
  {
    hide Load, EdgesOf;
    var e := EdgesOf(idx, c, kind);
    forall id ensures id in e <==> id in idx.knots && Load(idx, c, id).Ok? { EdgesAt(idx, c, kind, id); }
    forall id, n | id in e && n in e[id] ensures n in idx.knots { EdgesAt(idx, c, kind, id); }
  }

  lemma {:induction false} WalkInside(e: Edges, p: seq<string>)
    requires Walk(e, p) && p[0] in e
    requires forall id, n :: id in e && n in e[id] ==> n in e
    ensures forall i :: 0 <= i < |p| ==> p[i] in e
  {
    if |p| > 1 {
      assert Walk(e, p[1..]) by {
        var q := p[1..];
        forall k | 0 <= k < |q| - 1 ensures q[k] in e && q[k + 1] in e[q[k]] {
          assert q[k] == p[k + 1] && q[k + 1] == p[k + 2];
        }
      }
      assert p[0 + 1] in e[p[0]];
      WalkInside(e, p[1..]);
      forall i | 0 <= i < |p| ensures p[i] in e { if i > 0 { assert p[i] == p[1..][i - 1]; } }
    }
  }

  /** No walk from anywhere comes back, exactly when there is no loop. */
  lemma SearchSeesEveryLoop(e: Edges, from: set<string>)
    requires forall id, n :: id in e && n in e[id] ==> n in e
    requires from <= e.Keys
    ensures Acyclic(e) ==> NoCycleFrom(e, from)
    ensures NoCycleFrom(e, e.Keys) ==> Acyclic(e)
  {
    if Acyclic(e) {
      forall p | Walk(e, p) && p[0] in from ensures (forall x :: x in p ==> x in e) && Distinct(p) {
        WalkInside(e, p);
        LoopFree(e, p);
      }
    }
    forall loop | IsLoop(e, loop) ensures Walk(e, loop) && loop[0] in e && !Distinct(loop) {}
  }

  lemma LoopFree(e: Edges, p: seq<string>)
    requires Acyclic(e) && Walk(e, p)
    ensures Distinct(p)
  {
    forall i, j | 0 <= i < j < |p| ensures p[i] != p[j] {
      var loop := p[i..j + 1];
      assert Walk(e, loop) by {
        forall k | 0 <= k < |loop| - 1 ensures loop[k] in e && loop[k + 1] in e[loop[k]] {
          assert loop[k] == p[i + k] && loop[k + 1] == p[i + k + 1];
        }
      }
      assert !IsLoop(e, loop);
    }
  }

  /** A loop read from one of its knots round to that knot again. */
  function Rotated(loop: seq<string>, at: nat): seq<string>
    requires at < |loop|
  {
    loop[at..] + loop[1..at + 1]
  }

  lemma RotatedIsLoop(e: Edges, loop: seq<string>, at: nat)
    requires IsLoop(e, loop) && at < |loop|
    ensures IsLoop(e, Rotated(loop, at)) && Rotated(loop, at)[0] == loop[at]
  {
    var r := Rotated(loop, at);
    var turn := |loop| - at;
    forall k | 0 <= k < |r| - 1 ensures r[k] in e && r[k + 1] in e[r[k]] {
      if k + 1 < turn {
        assert r[k] == loop[at + k] && r[k + 1] == loop[at + k + 1];
      } else if k + 1 == turn {
        assert r[k] == loop[|loop| - 1] == loop[0] && r[k + 1] == loop[1];
        assert loop[0 + 1] in e[loop[0]];
      } else {
        assert r[k] == loop[k - turn + 1] && r[k + 1] == loop[k - turn + 2];
      }
    }
  }

  /** A walk from a touched knot that comes back to a knot already on it. */
  ghost predicate ComesBack(e: Edges, touched: set<string>, p: seq<string>) {
    Walk(e, p) && p[0] in touched && !Distinct(p)
  }

  /** When edges changed only at the touched knots, a loop was there before or
      runs through a touched knot. */
  lemma LoopIsOldOrTouched(old_: Edges, e: Edges, touched: set<string>, loop: seq<string>)
    requires IsLoop(e, loop)
    requires forall id :: id in e && id !in touched ==> id in old_ && old_[id] == e[id]
    ensures IsLoop(old_, loop) || exists p :: ComesBack(e, touched, p)
  {
    if i :| 0 <= i < |loop| - 1 && loop[i] in touched {
      RotatedIsLoop(e, loop, i);
      assert ComesBack(e, touched, Rotated(loop, i));
    } else {
      forall k | 0 <= k < |loop| - 1 ensures loop[k] in old_ && loop[k + 1] in old_[loop[k]] {
        assert loop[k] in e && loop[k + 1] in e[loop[k]];
      }
    }
  }

  lemma NoNewLoop(old_: Edges, e: Edges, touched: set<string>)
    requires Acyclic(old_) && NoCycleFrom(e, touched)
    requires forall id :: id in e && id !in touched ==> id in old_ && old_[id] == e[id]
    ensures Acyclic(e)
  {
    forall loop | IsLoop(e, loop) ensures IsLoop(old_, loop) || exists p :: ComesBack(e, touched, p) {
      LoopIsOldOrTouched(old_, e, touched, loop);
    }
  }

  // The knots a push leaves alone.

  lemma LeftAlone(p: Push, path: string)
    requires p.before.Some? && NamesObjects(p.after)
    requires path in p.after.files && path !in Changed(p)
    ensures path in p.before.value.files && p.before.value.files[path] == p.after.files[path]
  {
  }

  lemma KnotKept(p: Push, id: string)
    requires p.before.Some? && p.before.value.Valid() && p.after.Valid() && Gone(p) == {}
    requires id in p.before.value.knots
    ensures id in p.after.knots && p.after.knots[id].path == p.before.value.knots[id].path
    ensures p.after.knots[id].KnotFile? && p.before.value.knots[id].KnotFile? && p.after.knots[id].kind == p.before.value.knots[id].kind
  {
    hide IsFilePath, IsLocalID, FileAt;
    var old_ := p.before.value;
    var path := old_.knots[id].path;
    assert old_.KnotPlaced(id) && old_.HoldsKnot(path);
    assert path in old_.files;
    assert path !in Gone(p);
    FileAtPath(path, old_.files[path]);
    FileAtPath(path, p.after.files[path]);
    assert p.after.HoldsKnot(path);
  }

  lemma UntouchedKnot(p: Push, id: string)
    requires p.before.Some? && p.before.value.Valid() && p.after.Valid() && NamesObjects(p.after)
    requires id in p.after.knots && id !in Touched(p)
    ensures id in p.before.value.knots && p.before.value.knots[id] == p.after.knots[id]
    ensures Load(p.before.value, p.c, id) == Load(p.after, p.c, id)
  {
    hide IsFilePath, IsLocalID, FileAt, FileOf, IsKnotPath, Changed;
    var path := p.after.knots[id].path;
    assert p.after.KnotPlaced(id) && p.after.HoldsKnot(path);
    LeftAlone(p, path);
    FileAtPath(path, p.after.files[path]);
    assert path in p.before.value.knotAt;
    assert p.before.value.HoldsKnot(path);
  }

  lemma {:induction false} SameHeld(a: Index, b: Index, refs: seq<string>)
    requires forall x :: x in refs ==> (x in a.knots <==> x in b.knots)
    ensures Held(a, refs) == Held(b, refs)
  {
    if refs != [] {
      assert forall x :: x in refs[1..] ==> x in refs;
      SameHeld(a, b, refs[1..]);
    }
  }

  lemma UntouchedEdges(p: Push, kind: EdgeKind, id: string)
    requires p.before.Some? && p.before.value.Valid() && p.after.Valid() && NamesObjects(p.after) && Gone(p) == {}
    requires AllRead(p.before.value, p.c)
    requires id in p.after.knots && id !in Touched(p)
    ensures id in EdgesOf(p.before.value, p.c, kind) && id in EdgesOf(p.after, p.c, kind)
    ensures EdgesOf(p.before.value, p.c, kind)[id] == EdgesOf(p.after, p.c, kind)[id]
    ensures EdgesResolve(p.after, Load(p.after, p.c, id).value)
  {
    hide Load, EdgesOf, IsLocalID, Index.Valid, Touched, Changed;
    UntouchedKnot(p, id);
    EdgesAt(p.before.value, p.c, kind, id);
    EdgesAt(p.after, p.c, kind, id);
    var k := Load(p.after, p.c, id).value;
    forall x | x in p.before.value.knots
      ensures x in p.after.knots && p.after.knots[x].KnotFile? && p.before.value.knots[x].KnotFile? && p.after.knots[x].kind == p.before.value.knots[x].kind
    {
      KnotKept(p, x);
    }
    forall x | x in k.blockedBy ensures x in p.before.value.knots <==> x in p.after.knots {
      if x in p.after.knots { KnotsAreLocal(p.after, x); }
    }
    SameHeld(p.before.value, p.after, k.blockedBy);
  }

  // The theorems.

  /** What a file is held to beside the rules of a push. */
  ghost predicate FileForm(idx: Index, c: Content, path: string)
    requires idx.Valid() && path in idx.files
  {
    if path in idx.comments then CommentHolds(idx, c, idx.comments[path])
    else
      var id := idx.knots[idx.knotAt[path]].id;
      Load(idx, c, id).Ok? && EdgesResolve(idx, Load(idx, c, id).value)
  }

  lemma CheckFileForm(p: Push, path: string)
    requires p.after.Valid() && path in p.after.files
    ensures CheckFile(p, path, true).None? <==> FileForm(p.after, p.c, path) && FileRules(p, path)
    ensures p.before.None? && p.pusher == "" ==> (CheckFile(p, path, false).None? <==> FileForm(p.after, p.c, path))
  {
    hide Load, IsFilePath, IsKnotPath, FileOf, CheckComment, CheckKnot, EdgesResolve, MayWrite, MayChange;
    if path in p.after.comments {
      CommentAt(p, path);
      CheckCommentExactly(p, p.after.comments[path]);
      OneComment(p.c, path, p.after.comments[path].oid);
    } else {
      assert p.after.HoldsKnot(path);
      CheckKnotExactly(p, p.after.knots[p.after.knotAt[path]]);
      CheckedForm(p, p.after.knots[p.after.knotAt[path]]);
    }
  }

  lemma OneComment(c: Content, path: string, oid: string)
    ensures forall a, b :: IsComment(c, path, oid, a) && IsComment(c, path, oid, b) ==> a == b
  {
  }

  lemma CommentAt(p: Push, path: string)
    requires p.after.Valid() && path in p.after.comments
    ensures p.after.comments[path].path == path
  {
    FileAtPath(path, p.after.files[path]);
  }

  /** With no graph before and no pusher, a knot is held to its form alone. */
  lemma CheckedForm(p: Push, f: File)
    ensures p.before.None? && p.pusher == "" ==>
              (CheckKnot(p, f).None? <==> Load(p.after, p.c, f.id).Ok? && EdgesResolve(p.after, Load(p.after, p.c, f.id).value))
  {
    hide Load, EdgesResolve;
    CheckKnotExactly(p, f);
  }

  /** A whole graph, said file by file. */
  lemma WholeByFile(idx: Index, c: Content)
    requires idx.Valid()
    ensures WholeGraph(idx, c) <==>
              && (forall path :: path in idx.files ==> FileForm(idx, c, path))
              && forall kind: EdgeKind :: Acyclic(EdgesOf(idx, c, kind))
  {
    hide Load, IsFilePath, IsKnotPath, FileOf, EdgesResolve, CommentHolds, EdgesOf, Acyclic;
    forall path | path in idx.knotAt
      ensures idx.knots[idx.knotAt[path]].id == idx.knotAt[path]
    {
      KnotsAreLocal(idx, idx.knotAt[path]);
    }
    forall id | id in idx.knots ensures idx.knots[id].path in idx.knotAt && idx.knotAt[idx.knots[id].path] == id {
      assert idx.KnotPlaced(id);
    }
  }

  lemma CyclesOfAll(idx: Index, c: Content, from: set<string>)
    requires AllRead(idx, c) && from <= idx.knots.Keys
    ensures (forall kind: EdgeKind :: Acyclic(EdgesOf(idx, c, kind))) ==> CyclesHold(idx, c, from)
    ensures from == idx.knots.Keys && CyclesHold(idx, c, from) ==> forall kind: EdgeKind :: Acyclic(EdgesOf(idx, c, kind))
  {
    hide Load, EdgesOf, Acyclic, NoCycleFrom;
    forall kind: EdgeKind
      ensures EdgesOf(idx, c, kind).Keys == idx.knots.Keys
      ensures Acyclic(EdgesOf(idx, c, kind)) ==> NoCycleFrom(EdgesOf(idx, c, kind), from)
      ensures NoCycleFrom(EdgesOf(idx, c, kind), idx.knots.Keys) ==> Acyclic(EdgesOf(idx, c, kind))
    {
      EdgesStayInside(idx, c, kind);
      SearchSeesEveryLoop(EdgesOf(idx, c, kind), from);
    }
  }

  function TheWhole(idx: Index, c: Content): Push {
    Push(None, idx, c, "", _ => false)
  }

  /** Validating a graph accepts exactly a whole graph. */
  lemma ValidateIsWhole(idx: Index, c: Content)
    requires idx.Valid()
    ensures Accepts(TheWhole(idx, c), false) <==> WholeGraph(idx, c)
  {
    hide Load, CheckFile, FileForm, EdgesOf, Acyclic, CyclesHold, Index.Valid, KnotsAt;
    var p := TheWhole(idx, c);
    assert Changed(p) == idx.files.Keys;
    WholeByFile(idx, c);
    forall path | path in idx.files ensures CheckFile(p, path, false).None? <==> FileForm(idx, c, path) {
      CheckFileForm(p, path);
    }
    AllTouched(idx);
    if forall path :: path in idx.files ==> FileForm(idx, c, path) {
      FormsRead(idx, c);
      CyclesOfAll(idx, c, idx.knots.Keys);
    }
  }

  lemma AllTouched(idx: Index)
    requires idx.Valid()
    ensures KnotsAt(idx.knotAt, idx.files.Keys) == idx.knots.Keys
  {
    hide IsFilePath, IsKnotPath, FileOf;
    forall id | id in idx.knots ensures id in KnotsAt(idx.knotAt, idx.files.Keys) {
      assert idx.KnotPlaced(id);
    }
  }

  lemma FormsRead(idx: Index, c: Content)
    requires idx.Valid() && forall path :: path in idx.files ==> FileForm(idx, c, path)
    ensures AllRead(idx, c)
  {
    hide Load, IsFilePath, IsKnotPath, FileOf, EdgesResolve;
    forall id | id in idx.knots ensures Load(idx, c, id).Ok? && EdgesResolve(idx, Load(idx, c, id).value) {
      KnotsAreLocal(idx, id);
      assert idx.KnotPlaced(id);
      assert FileForm(idx, c, idx.knots[id].path);
    }
  }

  /** A file a push leaves alone keeps its form. */
  lemma UnchangedKeepsForm(p: Push, path: string)
    requires p.before.Some? && p.before.value.Valid() && p.after.Valid() && NamesObjects(p.after) && Gone(p) == {}
    requires WholeGraph(p.before.value, p.c)
    requires path in p.after.files && path !in Changed(p)
    ensures FileForm(p.after, p.c, path)
  {
    hide Load, IsFilePath, IsKnotPath, FileOf, IsLocalID, EdgesResolve, Changed, EdgesOf;
    LeftAlone(p, path);
    if path in p.after.comments {
      assert p.before.value.comments[path] == p.after.comments[path];
      KnotKept(p, p.after.comments[path].id);
    } else {
      var id := p.after.knotAt[path];
      KnotsAreLocal(p.after, id);
      assert p.after.HoldsKnot(path);
      assert forall q :: q in p.after.knotAt ==> p.after.HoldsKnot(q);
      assert id !in Touched(p);
      UntouchedEdges(p, Parent, id);
      EdgesAt(p.after, p.c, Parent, id);
    }
  }

  lemma IncrementalCycles(p: Push, kind: EdgeKind)
    requires p.before.Some? && p.before.value.Valid() && p.after.Valid() && NamesObjects(p.after) && Gone(p) == {}
    requires WholeGraph(p.before.value, p.c) && CyclesHold(p.after, p.c, Touched(p))
    ensures Acyclic(EdgesOf(p.after, p.c, kind))
  {
    hide Load, EdgesOf, EdgesResolve, Acyclic, NoCycleFrom, Changed, Gone, Index.Valid, Touched, CommentHolds;
    var old_, e := EdgesOf(p.before.value, p.c, kind), EdgesOf(p.after, p.c, kind);
    forall id | id in e && id !in Touched(p) ensures id in old_ && old_[id] == e[id] {
      EdgesAt(p.after, p.c, kind, id);
      UntouchedEdges(p, kind, id);
    }
    NoNewLoop(old_, e, Touched(p));
  }

  lemma TouchedHeld(p: Push)
    requires p.after.Valid()
    ensures Touched(p) <= p.after.knots.Keys
  {
    hide IsFilePath, IsKnotPath, FileOf;
    forall path | path in p.after.knotAt ensures p.after.knotAt[path] in p.after.knots {
      assert p.after.HoldsKnot(path);
    }
  }

  /** The incremental check refines full validation: on a graph that was
      whole, a push is accepted exactly when the graph it leaves is whole and
      the push keeps the rules about pushes. Only changed files are read. */
  lemma CheckRefinesValidate(p: Push)
    requires p.before.Some? && p.before.value.Valid() && p.after.Valid() && NamesObjects(p.after)
    requires WholeGraph(p.before.value, p.c)
    ensures Accepts(p, true) <==> WholeGraph(p.after, p.c) && PushRules(p)
  {
    hide Load, EdgesOf, EdgesResolve, CommentHolds, Acyclic, CheckFile, FileForm, FileRules, CyclesHold, Changed, Gone, Index.Valid, KnotsAt, Differs, NamesObjects;
    WholeByFile(p.after, p.c);
    ChangedDiffer(p);
    forall path | path in Changed(p)
      ensures CheckFile(p, path, true).None? <==> FileForm(p.after, p.c, path) && FileRules(p, path)
    {
      CheckFileForm(p, path);
    }
    if Accepts(p, true) {
      forall path | path in p.after.files ensures FileForm(p.after, p.c, path) {
        if path !in Changed(p) { UnchangedKeepsForm(p, path); }
      }
      forall kind: EdgeKind ensures Acyclic(EdgesOf(p.after, p.c, kind)) {
        IncrementalCycles(p, kind);
      }
    }
    if WholeGraph(p.after, p.c) {
      TouchedHeld(p);
      CyclesOfAll(p.after, p.c, Touched(p));
    }
  }

  /** The push that creates the graph leaves a whole graph. */
  lemma CreationIsWhole(p: Push)
    requires p.before.None? && p.after.Valid() && Accepts(p, true)
    ensures WholeGraph(p.after, p.c)
  {
    hide Load, EdgesOf, EdgesResolve, CommentHolds, Acyclic, CheckFile, FileForm, FileRules, CyclesHold, Index.Valid, KnotsAt;
    WholeByFile(p.after, p.c);
    assert Changed(p) == p.after.files.Keys;
    forall path | path in Changed(p) ensures FileForm(p.after, p.c, path) {
      CheckFileForm(p, path);
    }
    AllTouched(p.after);
    FormsRead(p.after, p.c);
    CyclesOfAll(p.after, p.c, p.after.knots.Keys);
  }

  /** A run of accepted pushes: the first creates the graph, and each later
      one starts from what the one before it left. */
  ghost predicate Run(ps: seq<Push>, c: Content) {
    && |ps| > 0 && ps[0].before.None?
    && (forall i :: 0 <= i < |ps| ==> ps[i].c == c && ps[i].after.Valid() && NamesObjects(ps[i].after) && Accepts(ps[i], true))
    && forall i :: 0 < i < |ps| ==> ps[i].before == Some(ps[i - 1].after)
  }

  /** Every graph accepted pushes reach is wholly valid. */
  lemma {:induction false} EveryGraphIsWhole(ps: seq<Push>, c: Content)
    requires Run(ps, c)
    ensures WholeGraph(ps[|ps| - 1].after, c)
  {
    hide Accepts, WholeGraph, Index.Valid, NamesObjects;
    var last := ps[|ps| - 1];
    if |ps| == 1 {
      CreationIsWhole(last);
    } else {
      var front := ps[..|ps| - 1];
      assert Run(front, c) by {
        forall i | 0 <= i < |front| ensures front[i] == ps[i] {}
      }
      EveryGraphIsWhole(front, c);
      assert last.before == Some(ps[|ps| - 2].after);
      CheckRefinesValidate(last);
    }
  }
}
