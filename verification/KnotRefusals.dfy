/** Which rule a changed file is refused under (knot/graph.go), from what is wrong
    with it: what comes first when several things are. */
module KnotRefusals {
  import opened Wrappers
  import opened Strings
  import opened KnotLayout
  import opened KnotCycles
  import opened KnotAdmission

  /** A comment on no knot is refused for its directory; one that cannot be read for
      its size, and one that is not a comment's text for what its reader says. */
  lemma UnfitCommentIsRefusedAs(p: Push, f: File, push: bool, dir: string, base: string)
    requires f.path == dir + "/" + base && '/' !in base
    ensures f.id !in p.after.knots ==> CheckComment(p, f, push) == Some(Refusal(RuleEdgeResolves, dir))
    ensures f.id in p.after.knots && p.c.read(f.oid, MAX_COMMENT_SIZE).None? ==>
              CheckComment(p, f, push) == Some(Refusal(RuleLimit, f.path))
    ensures f.id in p.after.knots && p.c.read(f.oid, MAX_COMMENT_SIZE).Some? ==>
              forall rule :: p.c.parseComment(f.path, p.c.read(f.oid, MAX_COMMENT_SIZE).value) == Err(rule) ==>
                CheckComment(p, f, push) == Some(Refusal(rule, f.path))
  {
    hide DirOf;
    DirIs(dir, base);
  }

  lemma DirIs(dir: string, base: string)
    requires '/' !in base
    ensures DirOf(dir + "/" + base) == dir
  {
    hide Split, Join;
    var names := Split(dir, '/');
    JoinSplit(dir, '/');
    JoinOneMore(names, base, '/');
    SplitJoin(names + [base], '/');
    assert (names + [base])[..|names|] == names;
  }

  /** A new comment that its pusher may not write is refused for its provenance. */
  lemma NewCommentIsRefusedAs(p: Push, f: File, comment: Comment)
    requires f.id in p.after.knots && !WasThere(p, f.path) && IsComment(p.c, f.path, f.oid, comment)
    requires !MayWrite(p, f.path, comment)
    ensures CheckComment(p, f, true) == Some(Refusal(RuleProvenance, f.path))
  {
    hide DirOf;
    ReadsAsComment(p.c, f.path, f.oid);
  }

  /** An edit of a comment that no longer reads is refused for why it does not. */
  lemma UnreadCommentIsRefusedAs(p: Push, f: File, comment: Comment)
    requires f.id in p.after.knots && WasThere(p, f.path) && IsComment(p.c, f.path, f.oid, comment)
    requires forall was :: !IsComment(p.c, f.path, p.before.value.files[f.path], was)
    ensures var read := p.c.read(p.before.value.files[f.path], MAX_COMMENT_SIZE);
            if read.None? then CheckComment(p, f, true) == Some(Refusal(RuleLimit, f.path))
            else
              var old_ := p.c.parseComment(f.path, read.value);
              old_.Err? && CheckComment(p, f, true) == Some(Refusal(old_.error, f.path))
  {
    hide DirOf;
    ReadsAsComment(p.c, f.path, f.oid);
    ReadsAsComment(p.c, f.path, p.before.value.files[f.path]);
    assert forall was :: ReadComment(p.c, f.path, p.before.value.files[f.path]) != Ok(was);
  }

  // Knots.

  /** What may be wrong with a knot that reads, each on its own. */
  ghost predicate IsUnder(c: Content, f: File, k: Knot, rule: Rule)
    requires f.KnotFile?
  {
    match rule
    case RuleFilename => k.id != f.id
    case RuleDirectory => k.kind != f.kind
    case RuleIDDerived => c.deriveID(k.kind, f.slug) != k.id
    case _ => false
  }

  /** A knot's file that cannot be read is refused for its size, and one that is no
      knot's text for what its reader says. */
  lemma UnfitFileIsRefusedAs(idx: Index, c: Content, id: string)
    requires id in idx.knots && idx.knots[id].KnotFile?
    ensures var f := idx.knots[id]; var read := c.read(f.oid, MAX_KNOT_SIZE);
            if read.None? then Load(idx, c, id) == Err(Refusal(RuleLimit, f.path))
            else
              var k := c.parseKnot(f.path, f.slug, read.value);
              k.Err? ==> Load(idx, c, id) == Err(Refusal(k.error, f.path))
  {
  }

  /** A knot that is not its file's is refused for its filename, then its directory,
      then an ID that its slug does not give. */
  lemma KnotIsRefusedAs(idx: Index, c: Content, id: string, data: string, k: Knot)
    requires id in idx.knots && idx.knots[id].KnotFile?
    requires var f := idx.knots[id]; c.read(f.oid, MAX_KNOT_SIZE) == Some(data) && c.parseKnot(f.path, f.slug, data) == Ok(k)
    ensures var f, r := idx.knots[id], Load(idx, c, id);
            && (r.Ok? <==> forall rule :: !IsUnder(c, f, k, rule))
            && (r.Ok? ==> r.value == k)
            && (r.Err? ==> r.error.Refusal? && r.error.path == f.path && IsUnder(c, f, k, r.error.rule)
                           && (IsUnder(c, f, k, RuleFilename) ==> r.error.rule == RuleFilename)
                           && (IsUnder(c, f, k, RuleDirectory) ==> r.error.rule != RuleIDDerived))
  {
    assert IsUnder(c, idx.knots[id], k, RuleFilename) <==> k.id != idx.knots[id].id;
    assert IsUnder(c, idx.knots[id], k, RuleDirectory) <==> k.kind != idx.knots[id].kind;
    assert IsUnder(c, idx.knots[id], k, RuleIDDerived) <==> c.deriveID(k.kind, idx.knots[id].slug) != k.id;
  }

  ghost predicate BadParent(idx: Index, k: Knot) {
    k.parent != "" && !(NamesKnot(idx, k.parent) && idx.knots[k.parent].kind == Outcome)
  }

  ghost predicate BadGraduate(idx: Index, k: Knot) {
    k.graduatedInto != "" && !(NamesKnot(idx, k.graduatedInto) && idx.knots[k.graduatedInto].kind in {Outcome, Question})
  }

  ghost predicate Dangles(idx: Index, k: Knot, i: int) {
    0 <= i < |k.blockedBy| && IsLocalID(k.blockedBy[i]) && !NamesKnot(idx, k.blockedBy[i])
  }

  /** The first edge that does not resolve names an ID: the parent's, then that of what
      an idea graduated into, then the entries of blocked_by in order. */
  ghost predicate FirstBad(idx: Index, k: Knot, id: string) {
    if BadParent(idx, k) then id == k.parent
    else if BadGraduate(idx, k) then id == k.graduatedInto
    else exists i :: Dangles(idx, k, i) && id == k.blockedBy[i] && forall j :: 0 <= j < i ==> !Dangles(idx, k, j)
  }

  /** A knot whose edges do not all resolve is refused for the first that does not: a
      knot of the wrong type, or none. */
  lemma EdgesAreRefusedAs(p: Push, f: File, id: string)
    requires Load(p.after, p.c, f.id).Ok? && FirstBad(p.after, Load(p.after, p.c, f.id).value, id)
    ensures CheckKnot(p, f) == Some(Refusal(if id in p.after.knots then RuleParentOutcome else RuleEdgeResolves, f.path))
  {
    hide Load, IsLocalID, CheckTransition, FirstDangling;
    var k := Load(p.after, p.c, f.id).value;
    if !BadParent(p.after, k) && !BadGraduate(p.after, k) {
      var i :| Dangles(p.after, k, i) && id == k.blockedBy[i] && forall j :: 0 <= j < i ==> !Dangles(p.after, k, j);
      assert forall j :: 0 <= j < i ==> !(IsLocalID(k.blockedBy[j]) && !Resolves(p.after, k.blockedBy[j], {})) by {
        forall j | 0 <= j < i ensures !(IsLocalID(k.blockedBy[j]) && !Resolves(p.after, k.blockedBy[j], {})) {
          assert !Dangles(p.after, k, j);
        }
      }
      FirstIs(p.after, k.blockedBy, i);
    }
  }

  lemma {:induction false} FirstIs(idx: Index, refs: seq<string>, i: nat)
    requires i < |refs| && IsLocalID(refs[i]) && !Resolves(idx, refs[i], {})
    requires forall j :: 0 <= j < i ==> !(IsLocalID(refs[j]) && !Resolves(idx, refs[j], {}))
    ensures FirstDangling(idx, refs) == Some(refs[i])
    decreases i
  {
    hide IsLocalID, Resolves;
    if i > 0 {
      assert refs[1..][i - 1] == refs[i];
      forall j | 0 <= j < i - 1 ensures !(IsLocalID(refs[1..][j]) && !Resolves(idx, refs[1..][j], {})) {
        assert refs[1..][j] == refs[j + 1];
      }
      FirstIs(idx, refs[1..], i - 1);
    }
  }

  /** A knot that reads and whose edges resolve is refused, when it is new, as not its
      pusher's; when it is not, for a move or a changed field, or for why what it was
      does not read. */
  lemma ChangeIsRefusedAs(p: Push, f: File, k: Knot)
    requires Load(p.after, p.c, f.id) == Ok(k) && EdgesResolve(p.after, k) && !MayChange(p, f, k)
    ensures var new_ := p.before.None? || f.id !in p.before.value.knots || !p.before.value.knots[f.id].KnotFile?;
            CheckKnot(p, f) == Some(
              if new_ then Refusal(RuleProvenance, f.path)
              else
                var was := p.before.value.knots[f.id];
                if was.path != f.path then Refusal(RuleTransition, f.path)
                else if p.c.read(was.oid, MAX_KNOT_SIZE).None? then Refusal(RuleLimit, f.path)
                else
                  var read := p.c.parseKnot(was.path, was.slug, p.c.read(was.oid, MAX_KNOT_SIZE).value);
                  Refusal(if read.Err? then read.error else RuleTransition, f.path))
  {
    hide Load, IsLocalID;
    CheckKnotExactly(p, f);
  }
}
