/** The plan graph read from its files' bytes: the admission of knot/graph.go with
    the reader of knot/canon.go. */
module KnotGraphText {
  import opened Wrappers
  import opened KnotLayout
  import opened KnotCycles
  import opened KnotAdmission
  import KnotFields
  import KnotCanon
  import KnotInverse

  function KindOf(typeName: string): Kind {
    if typeName == "outcome" then Outcome
    else if typeName == "bug" then Bug
    else if typeName == "idea" then Idea
    else Question
  }

  /** What the graph's rules read of a knot. */
  function Core(k: KnotFields.Knot): Knot {
    Knot(k.id, KindOf(k.typeName), k.created, k.createdBy, k.parent, KnotFields.BlockedItems(k), k.graduatedInto)
  }

  function ReadKnot(slug: string, data: string): Result<Knot, Rule> {
    match KnotCanon.ParseKnot(slug, data)
    case Ok(k) => Ok(Core(k))
    case Err(_) => Err(RuleForm)
  }

  /** A store whose knots are read as ParseKnot reads them. */
  ghost predicate ReadsText(c: Content) {
    forall path, slug, data :: c.parseKnot(path, slug, data) == ReadKnot(slug, data)
  }

  /** A knot as its file has it: every byte is what Render writes of it. */
  ghost predicate IsWritten(c: Content, f: File, k: KnotFields.Knot)
    requires f.KnotFile?
  {
    && c.read(f.oid, MAX_KNOT_SIZE) == Some(KnotCanon.Render(k))
    && KnotInverse.Admissible(k) && KnotInverse.Normal(k) == k
    && k.slug == f.slug && k.id == f.id && KindOf(k.typeName) == f.kind && c.deriveID(f.kind, f.slug) == f.id
  }

  /** A knot of the graph loads exactly when its file is the canonical text of one
      under the file's own name. */
  lemma LoadsExactly(idx: Index, c: Content, id: string, j: Knot)
    requires ReadsText(c) && id in idx.knots && idx.knots[id].KnotFile?
    ensures Load(idx, c, id) == Ok(j) <==> exists k :: IsWritten(c, idx.knots[id], k) && Core(k) == j
  {
    hide KnotCanon.ParseKnot, KnotCanon.Render, KnotInverse.Admissible, KnotInverse.Normal, KindOf, KnotFields.BlockedItems;
    var f := idx.knots[id];
    if Load(idx, c, id) == Ok(j) {
      var data := c.read(f.oid, MAX_KNOT_SIZE).value;
      assert c.parseKnot(f.path, f.slug, data) == ReadKnot(f.slug, data);
      var k := KnotCanon.ParseKnot(f.slug, data).value;
      KnotInverse.ParsesExactly(f.slug, data, k);
      assert IsWritten(c, f, k);
    }
    if k :| IsWritten(c, f, k) && Core(k) == j {
      var data := KnotCanon.Render(k);
      KnotInverse.ParsesExactly(f.slug, data, k);
      assert c.parseKnot(f.path, f.slug, data) == ReadKnot(f.slug, data);
    }
  }

  /** In every graph accepted pushes reach, each knot's file is canonical, and its
      edges resolve. */
  lemma EveryFileIsCanonical(ps: seq<Push>, c: Content, id: string) returns (k: KnotFields.Knot)
    requires Run(ps, c) && ReadsText(c) && id in ps[|ps| - 1].after.knots
    ensures var idx := ps[|ps| - 1].after;
            idx.knots[id].KnotFile? && IsWritten(c, idx.knots[id], k) && k.id == id && EdgesResolve(idx, Core(k))
  {
    hide Run, ReadsText, IsWritten, Load, EdgesResolve, Core, Acyclic, EdgesOf, CommentHolds;
    LastIsValid(ps, c);
    var idx := ps[|ps| - 1].after;
    EveryGraphIsWhole(ps, c);
    KnotIsFile(idx, id);
    LoadsExactly(idx, c, id, Load(idx, c, id).value);
    k :| IsWritten(c, idx.knots[id], k) && Core(k) == Load(idx, c, id).value;
    WrittenUnder(c, idx.knots[id], k);
  }

  lemma WrittenUnder(c: Content, f: File, k: KnotFields.Knot)
    requires f.KnotFile? && IsWritten(c, f, k)
    ensures k.id == f.id
  {
  }

  lemma LastIsValid(ps: seq<Push>, c: Content)
    requires Run(ps, c)
    ensures |ps| > 0 && ps[|ps| - 1].after.Valid()
  {
    hide Accepts;
  }

  lemma KnotIsFile(idx: Index, id: string)
    requires idx.Valid() && id in idx.knots
    ensures idx.knots[id].KnotFile? && idx.knots[id].id == id
  {
    KnotsAreLocal(idx, id);
    var path := idx.knots[id].path;
    assert idx.knots[id] == FileOf(path, idx.files[path]);
  }
}
