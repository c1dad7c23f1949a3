/** What no run of accepted pushes changes (knot/graph.go): who wrote a comment,
    and of a knot its path, type, date and creator. */
module KnotRuns {
  import opened Wrappers
  import opened KnotLayout
  import opened KnotCycles
  import opened KnotAdmission

  lemma RunUpTo(ps: seq<Push>, c: Content, i: nat)
    requires Run(ps, c) && i < |ps|
    ensures Run(ps[..i + 1], c)
  {
    hide Accepts, NamesObjects, Index.Valid;
    var front := ps[..i + 1];
    forall k | 0 <= k < |front| ensures front[k] == ps[k] {}
  }

  /** Every push of a run leaves a whole graph. */
  lemma EachIsWhole(ps: seq<Push>, c: Content, i: nat)
    requires Run(ps, c) && i < |ps|
    ensures ps[i].after.Valid() && NamesObjects(ps[i].after) && WholeGraph(ps[i].after, c)
  {
    hide Accepts, NamesObjects, Index.Valid, WholeGraph;
    RunUpTo(ps, c, i);
    EveryGraphIsWhole(ps[..i + 1], c);
    assert ps[..i + 1][i] == ps[i];
  }

  lemma StepOf(ps: seq<Push>, c: Content, i: nat)
    requires Run(ps, c) && 0 < i < |ps|
    ensures ps[i].c == c && ps[i].before == Some(ps[i - 1].after) && ps[i].after.Valid() && Accepts(ps[i], true) && PushRules(ps[i])
  {
    hide Accepts, NamesObjects, Index.Valid, WholeGraph, PushRules;
    EachIsWhole(ps, c, i - 1);
    CheckRefinesValidate(ps[i]);
  }

  /** The comment at a path, as two graphs have it, is by one author. */
  ghost predicate SameAuthor(c: Content, path: string, before: Index, after: Index)
    requires path in before.files && path in after.files
  {
    exists a, b :: IsComment(c, path, before.files[path], a) && IsComment(c, path, after.files[path], b) && a.author == b.author
  }

  lemma CommentsAre(idx: Index, c: Content, path: string)
    requires idx.Valid() && WholeGraph(idx, c)
    ensures path in idx.comments <==> path in idx.files && !IsKnotPath(path)
    ensures path in idx.comments ==> idx.comments[path].path == path && idx.comments[path].oid == idx.files[path]
    ensures path in idx.comments ==> exists comment :: IsComment(c, path, idx.files[path], comment)
  {
    hide IsKnotPath, FileOf, FileAt;
    if path in idx.comments {
      FileAtPath(path, idx.files[path]);
      assert CommentHolds(idx, c, idx.comments[path]);
    }
  }

  lemma OneStepKeepsAuthor(ps: seq<Push>, c: Content, i: nat, path: string)
    requires Run(ps, c) && 0 < i < |ps| && path in ps[i - 1].after.comments
    ensures path in ps[i - 1].after.files && path in ps[i].after.comments && path in ps[i].after.files
    ensures SameAuthor(c, path, ps[i - 1].after, ps[i].after)
  {
    hide Run, Accepts, WholeGraph, IsKnotPath, FileOf, FileAt, IsComment, IsFilePath, MayChange, Load;
    EachIsWhole(ps, c, i - 1);
    EachIsWhole(ps, c, i);
    StepOf(ps, c, i);
    var p := ps[i];
    CommentsAre(p.before.value, c, path);
    CommentsAre(p.after, c, path);
    var b :| IsComment(c, path, p.after.files[path], b);
    if Differs(p, path) {
      assert FileRules(p, path);
      assert MayWrite(p, path, b);
    }
  }

  /** A comment that is there stays there, and its author never changes. */
  lemma {:induction false} AuthorsStay(ps: seq<Push>, c: Content, i: nat, j: nat, path: string)
    requires Run(ps, c) && i <= j < |ps| && path in ps[i].after.comments
    ensures path in ps[i].after.files && path in ps[j].after.comments && path in ps[j].after.files
    ensures SameAuthor(c, path, ps[i].after, ps[j].after)
    decreases j
  {
    hide Run, IsComment, IsFilePath, WholeGraph;
    if i == j {
      EachIsWhole(ps, c, i);
      CommentsAre(ps[i].after, c, path);
    } else {
      AuthorsStay(ps, c, i, j - 1, path);
      OneStepKeepsAuthor(ps, c, j, path);
      OneComment(c, path, ps[j - 1].after.files[path]);
    }
  }

  /** What a push never changes of a knot. */
  ghost predicate SameKnot(c: Content, id: string, before: Index, after: Index)
    requires id in before.knots && id in after.knots
  {
    && before.knots[id].path == after.knots[id].path
    && Load(before, c, id).Ok? && Load(after, c, id).Ok?
    && var (a, b) := (Load(before, c, id).value, Load(after, c, id).value);
       (a.id, a.kind, a.created, a.createdBy) == (b.id, b.kind, b.created, b.createdBy)
  }

  lemma KnotsAre(idx: Index, c: Content, id: string)
    requires idx.Valid() && WholeGraph(idx, c) && id in idx.knots
    ensures var f := idx.knots[id];
            && f.KnotFile? && f.id == id && f.path in idx.files && f.oid == idx.files[f.path]
            && f.path in idx.knotAt && f.path !in idx.comments && idx.knotAt[f.path] == id
            && idx.files[f.path] == f.oid && f == FileOf(f.path, f.oid)
    ensures Load(idx, c, id).Ok?
  {
    hide IsKnotPath, FileOf, FileAt, Load, EdgesResolve;
    KnotsAreLocal(idx, id);
    assert idx.KnotPlaced(id);
    var path := idx.knots[id].path;
    assert idx.HoldsKnot(path);
    FileAtPath(path, idx.files[path]);
  }

  /** What loads is what the knot's file reads as. */
  lemma LoadReads(idx: Index, c: Content, id: string)
    requires id in idx.knots && idx.knots[id].KnotFile? && Load(idx, c, id).Ok?
    ensures var f := idx.knots[id];
            c.read(f.oid, MAX_KNOT_SIZE).Some? &&
            c.parseKnot(f.path, f.slug, c.read(f.oid, MAX_KNOT_SIZE).value) == Ok(Load(idx, c, id).value)
  {
  }

  lemma OneStepKeepsKnot(ps: seq<Push>, c: Content, i: nat, id: string)
    requires Run(ps, c) && 0 < i < |ps| && id in ps[i - 1].after.knots
    ensures id in ps[i].after.knots && SameKnot(c, id, ps[i - 1].after, ps[i].after)
  {
    hide Run, Accepts, WholeGraph, IsKnotPath, FileOf, FileAt, IsFilePath, Load, MayWrite, IsComment;
    EachIsWhole(ps, c, i - 1);
    EachIsWhole(ps, c, i);
    StepOf(ps, c, i);
    var p := ps[i];
    KnotsAre(p.before.value, c, id);
    var path := p.before.value.knots[id].path;
    KnotStays(p, id);
    KnotsAre(p.after, c, id);
    LoadReads(p.before.value, c, id);
    LoadReads(p.after, c, id);
    if Differs(p, path) {
      assert FileRules(p, path);
    } else {
      assert p.before.value.knots[id] == p.after.knots[id];
    }
  }

  /** No file is gone, so a knot's file is still there, and still says its ID. */
  lemma KnotStays(p: Push, id: string)
    requires p.before.Some? && p.before.value.Valid() && p.after.Valid() && PushRules(p) && id in p.before.value.knots
    ensures id in p.after.knots && p.after.knots[id].path == p.before.value.knots[id].path
  {
    hide IsKnotPath, FileOf, FileAt, FileRules;
    var path := p.before.value.knots[id].path;
    assert p.before.value.KnotPlaced(id);
    assert p.before.value.HoldsKnot(path) && p.after.HoldsKnot(path);
    FileAtPath(path, p.before.value.files[path]);
    FileAtPath(path, p.after.files[path]);
  }

  /** A knot that is there stays there, and keeps its path, type, date and
      creator. */
  lemma {:induction false} KnotsStay(ps: seq<Push>, c: Content, i: nat, j: nat, id: string)
    requires Run(ps, c) && i <= j < |ps| && id in ps[i].after.knots
    ensures id in ps[j].after.knots && SameKnot(c, id, ps[i].after, ps[j].after)
    decreases j
  {
    hide Run, Load, WholeGraph;
    if i == j {
      EachIsWhole(ps, c, i);
      KnotsAre(ps[i].after, c, id);
    } else {
      KnotsStay(ps, c, i, j - 1, id);
      OneStepKeepsKnot(ps, c, j, id);
    }
  }
}
