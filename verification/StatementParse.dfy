/** Reading a statement's written form back (attest/text.go): parseText, the
    inverse of renderText. */
module StatementParse {
  import opened Wrappers
  import opened Strings
  import opened StatementDoc
  import opened StatementOrder
  import opened StatementText
  import opened StatementTree
  import Utf8

  ghost predicate Renders(doc: Doc, raw: string) {
    Representable(doc) && TextOf(doc) == Some(raw)
  }

  // Lines.

  predicate EndsInNewline(raw: string) {
    raw != "" && raw[|raw| - 1] == '\n'
  }

  /** Splitting a text at its newlines gives its lines back. */
  lemma LinesOfText(doc: Doc)
    requires Renderable(doc)
    ensures var raw := Ended(TextLines(doc));
            EndsInNewline(raw) && Split(raw[..|raw| - 1], '\n') == TextLines(doc)
  {
    hide Join, Split, Ended, Renderable, LineAt, Placed;
    var lines := TextLines(doc);
    forall i | 0 <= i < |lines| ensures '\n' !in lines[i] {
      if i == 0 { TypeLine(); } else { LineHasNoNewline(doc, Listing(doc)[i - 1]); }
    }
    EndedSplits(lines);
  }

  lemma TypeLine()
    ensures '\n' !in STATEMENT_TYPE && ValueFits(STATEMENT_TYPE)
    ensures SegmentFits(STATEMENT_KEY) && KeysFit([STATEMENT_KEY])
  {
    hide Utf8.Valid;
    TypeIsPlain();
    PlainFits(STATEMENT_TYPE);
  }

  predicate IsPlain(s: string) {
    forall i :: 0 <= i < |s| ==> ' ' <= s[i] <= '~'
  }

  lemma TypeIsPlain()
    ensures IsPlain(STATEMENT_TYPE)
  {
  }

  lemma PlainFits(s: string)
    requires IsPlain(s) && s != ""
    ensures ValueFits(s) && '\n' !in s
  {
    PlainIsValid(s);
  }

  lemma {:induction false} PlainIsValid(s: string)
    requires IsPlain(s)
    ensures Utf8.Valid(s)
  {
    if s != "" {
      assert Utf8.RuneLength(s) == 1;
      PlainIsValid(s[1..]);
    }
  }

  lemma LineHasNoNewline(doc: Doc, at: seq<string>)
    requires Renderable(doc) && Placed(doc, at)
    ensures '\n' !in LineAt(doc, at)
  {
    hide Writable, TableFor, OrderedPaths, Key;
    LeafFits(doc, at);
    KeyHasNo(at);
  }

  /** A line as its key's path and its value, cut at the first space. */
  function CutLine(line: string): Option<(seq<string>, string)> {
    var space := IndexOf(line, ' ');
    if space == |line| || space + 1 == |line| then None
    else
      var key, value := line[..space], line[space + 1..];
      if !ValueFits(value) then None
      else
        var segments := Split(key, '.');
        if exists s :: s in segments && !KeyOrIndexFits(s) then None else Some((segments, value))
  }

  /** A rendered line is cut into its own path and value. */
  lemma LineIsCut(doc: Doc, at: seq<string>)
    requires Renderable(doc) && Representable(doc) && Placed(doc, at)
    ensures CutLine(LineAt(doc, at)) == Some((at, LeafAt(doc, at).value))
  {
    hide Writable, TableFor, OrderedPaths, Key, ValueFits, KeyOrIndexFits, SegmentsFit, Split;
    LeafFits(doc, at);
    assert at != [];
    KeyHasNo(at);
    KeySplits(at);
    var line, value := LineAt(doc, at), LeafAt(doc, at).value;
    FirstSpace(Key(at), value);
    assert line[..|Key(at)|] == Key(at) && line[|Key(at)| + 1..] == value;
    NotEmpty(value);
  }

  lemma NotEmpty(value: string)
    requires ValueFits(value)
    ensures value != ""
  {
  }

  lemma {:induction false} FirstSpace(key: string, rest: string)
    requires ' ' !in key
    ensures IndexOf(key + " " + rest, ' ') == |key|
  {
    var line := key + " " + rest;
    assert line[|key|] == ' ';
    assert forall i :: 0 <= i < |key| ==> line[i] == key[i] && key[i] in key;
  }

  // The tree after some lines.

  ghost function LeafAfter(doc: Doc, done: seq<seq<string>>, at: seq<string>): Option<string> {
    if at == [STATEMENT_KEY] then Some(STATEMENT_TYPE) else if at in done then LeafAt(doc, at) else None
  }

  /** A tree holding the type and the leaves of some of a statement's lines. */
  ghost predicate Holds(n: Node, doc: Doc, done: seq<seq<string>>) {
    Solid(n) && forall at :: NodeLeaf(n, at) == LeafAfter(doc, done, at)
  }

  lemma TypeHeld(doc: Doc)
    requires Renderable(doc)
    ensures Inserted(Under(map[]), [STATEMENT_KEY], STATEMENT_TYPE).Some?
    ensures Holds(Inserted(Under(map[]), [STATEMENT_KEY], STATEMENT_TYPE).value, doc, [])
  {
    hide Solid, Renderable;
    var empty := Under(map[]);
    assert KidOf(empty.kids, STATEMENT_KEY) == Under(map[]);
    InsertedSolid(empty, [STATEMENT_KEY], STATEMENT_TYPE);
    var n := Inserted(empty, [STATEMENT_KEY], STATEMENT_TYPE).value;
    forall at ensures NodeLeaf(n, at) == LeafAfter(doc, [], at) {
      InsertedLeaf(empty, [STATEMENT_KEY], STATEMENT_TYPE, at);
    }
  }

  lemma TypeLeaf(doc: Doc)
    requires Renderable(doc)
    ensures LeafAt(doc, [STATEMENT_KEY]) == Some(STATEMENT_TYPE)
  {
    hide Writable, TableFor, OrderedPaths;
    var at := [STATEMENT_KEY];
    assert at[1..] == [];
  }

  lemma NoClash(doc: Doc, p: seq<string>, q: seq<string>)
    requires LeafAt(doc, p).Some? && LeafAt(doc, q).Some? && p != q
    ensures !Clash(p, q)
  {
    hide LeafAt;
    if p <= q {
      assert q == p + q[|p|..];
      LeavesApart(doc, p, q[|p|..]);
    }
    if q <= p {
      assert p == q + p[|q|..];
      LeavesApart(doc, q, p[|q|..]);
    }
  }

  /** The next line's value goes into the tree. */
  lemma NextHeld(n: Node, doc: Doc, done: seq<seq<string>>, at: seq<string>)
    requires Renderable(doc) && Holds(n, doc, done) && Placed(doc, at) && at !in done && at != []
    requires forall p :: p in done ==> Placed(doc, p)
    ensures var value := LeafAt(doc, at).value;
            Inserted(n, at, value).Some? && Holds(Inserted(n, at, value).value, doc, done + [at])
  {
    hide LeafAt, Solid, Renderable, NodeLeaf;
    var value := LeafAt(doc, at).value;
    TypeLeaf(doc);
    if Inserted(n, at, value).None? {
      var p := RefusedByLeaf(n, at, value);
      assert LeafAfter(doc, done, p).Some?;
      NoClash(doc, p, at);
      assert false;
    }
    InsertedSolid(n, at, value);
    var grown := Inserted(n, at, value).value;
    forall p ensures NodeLeaf(grown, p) == LeafAfter(doc, done + [at], p) {
      InsertedLeaf(n, at, value, p);
      assert p in done + [at] <==> p in done || p == at;
    }
  }

  /** A tree with every line's value is the statement. */
  lemma AllHeld(n: Node, doc: Doc)
    requires Renderable(doc) && Holds(n, doc, Listing(doc))
    ensures DocOf(n) == Some(doc) && n.Under? && |n.kids| >= 2
  {
    hide LeafAt, NodeLeaf, Solid, Writable, TableFor, OrderedPaths, DocOf;
    TypeLeaf(doc);
    forall at ensures NodeLeaf(n, at) == LeafAt(doc, at) {
      assert at in Listing(doc) <==> Placed(doc, at);
    }
    Rebuilds(n, doc);
    TwoFields(n, doc);
  }

  lemma TwoFields(n: Node, doc: Doc)
    requires Renderable(doc) && Solid(n) && SameLeaves(n, doc)
    ensures n.Under? && |n.kids| >= 2
  {
    hide LeafAt, NodeLeaf, Solid, Writable, OrderedPaths, SameLeaves;
    FieldsAreKids(n, doc);
    TypeNamed(StringAt(doc.fields, "predicateType"));
    assert "predicateType"[0] != STATEMENT_KEY[0];
    assert {STATEMENT_KEY, "predicateType"} <= n.kids.Keys;
    SubsetCount({STATEMENT_KEY, "predicateType"}, n.kids.Keys);
    assert |n.kids| == |n.kids.Keys|;
  }

  lemma SubsetCount<T>(a: set<T>, b: set<T>)
    requires a <= b
    ensures |a| <= |b|
  {
    assert |b - a| == |b| - |a|;
  }

  // parseText.

  /** What reading a text has built after some lines, if a statement has that
      text. */
  ghost predicate ReadSoFar(raw: string, lines: seq<string>, n: Node, i: nat) {
    forall doc :: Renders(doc, raw) ==>
      TextLines(doc) == lines && 1 <= i <= |lines| && Holds(n, doc, Listing(doc)[..i - 1])
  }

  lemma StartsReading(raw: string)
    ensures !EndsInNewline(raw) ==> forall doc :: !Renders(doc, raw)
    ensures EndsInNewline(raw) ==>
              var lines := Split(raw[..|raw| - 1], '\n');
              forall doc :: Renders(doc, raw) ==> TextLines(doc) == lines && lines[0] == STATEMENT_TYPE
  {
    hide Renderable, Ended, Split;
    forall doc | Renders(doc, raw)
      ensures EndsInNewline(raw) && TextLines(doc) == Split(raw[..|raw| - 1], '\n') && TextLines(doc)[0] == STATEMENT_TYPE
    {
      LinesOfText(doc);
    }
  }

  lemma FirstLineRead(raw: string, lines: seq<string>)
    requires lines != [] && Inserted(Under(map[]), [STATEMENT_KEY], lines[0]).Some?
    requires forall doc :: Renders(doc, raw) ==> TextLines(doc) == lines && lines[0] == STATEMENT_TYPE
    ensures ReadSoFar(raw, lines, Inserted(Under(map[]), [STATEMENT_KEY], lines[0]).value, 1)
  {
    hide Renderable, Holds, Inserted, Listing;
    forall doc | Renders(doc, raw)
      ensures Holds(Inserted(Under(map[]), [STATEMENT_KEY], lines[0]).value, doc, Listing(doc)[..0])
    {
      TypeHeld(doc);
    }
  }

  /** If a statement has the text, its next line is cut and its value goes in. */
  lemma NextLineRead(raw: string, lines: seq<string>, n: Node, i: nat)
    requires ReadSoFar(raw, lines, n, i) && 1 <= i < |lines|
    ensures CutLine(lines[i]).None? ==> forall doc :: !Renders(doc, raw)
    ensures CutLine(lines[i]).Some? ==>
              var (at, value) := CutLine(lines[i]).value;
              && at != []
              && (Inserted(n, at, value).None? ==> forall doc :: !Renders(doc, raw))
              && (Inserted(n, at, value).Some? ==> ReadSoFar(raw, lines, Inserted(n, at, value).value, i + 1))
  {
    hide Renderable, Holds, Inserted, CutLine, LineAt, LeafAt, Distinct;
    CutIsSomewhere(lines[i]);
    forall doc | Renders(doc, raw)
      ensures var at := Listing(doc)[i - 1];
              && Placed(doc, at) && CutLine(lines[i]) == Some((at, LeafAt(doc, at).value))
              && Inserted(n, at, LeafAt(doc, at).value).Some?
              && Holds(Inserted(n, at, LeafAt(doc, at).value).value, doc, Listing(doc)[..i])
    {
      var listing := Listing(doc);
      var at := listing[i - 1];
      assert lines[i] == LineAt(doc, at) && at in listing;
      LineIsCut(doc, at);
      NotYet(doc, i);
      NextHeld(n, doc, listing[..i - 1], at);
      assert listing[..i - 1] + [at] == listing[..i];
    }
  }

  lemma CutIsSomewhere(line: string)
    ensures CutLine(line).Some? ==> CutLine(line).value.0 != []
  {
  }

  lemma NotYet(doc: Doc, i: nat)
    requires Renderable(doc) && 1 <= i <= |Listing(doc)|
    ensures Listing(doc)[i - 1] !in Listing(doc)[..i - 1]
    ensures forall p :: p in Listing(doc)[..i - 1] ==> Placed(doc, p)
  {
    hide Renderable, Placed, Ordered;
    TextLists(doc);
  }

  lemma AllRead(raw: string, lines: seq<string>, n: Node)
    requires ReadSoFar(raw, lines, n, |lines|)
    ensures forall doc :: Renders(doc, raw) ==> DocOf(n) == Some(doc) && TextOf(doc) == Some(raw) && n.Under? && |n.kids| >= 2
  {
    hide Renderable, Holds, DocOf, LineAt;
    forall doc | Renders(doc, raw)
      ensures DocOf(n) == Some(doc) && TextOf(doc) == Some(raw) && n.Under? && |n.kids| >= 2
    {
      assert Listing(doc)[..|lines| - 1] == Listing(doc);
      AllHeld(n, doc);
    }
  }

  /** Accepts exactly the texts of statements, and gives each its statement. */
  method ParseText(raw: string) returns (doc: Option<Doc>)
    ensures doc.Some? ==> TextOf(doc.value) == Some(raw)
    ensures forall d :: Renders(d, raw) ==> doc == Some(d)
  {
    hide Renders, Inserted, CutLine, ReadSoFar, DocOf, TextOf, NamesFit, ValueFits, KeysFit, TreeNode.Valid, TreeNode.Kids, TreeNode.Meaning;
    StartsReading(raw);
    if !EndsInNewline(raw) { return None; }
    var lines := Split(raw[..|raw| - 1], '\n');
    var root := new TreeNode();
    TypeLine();
    NoNames();
    var ok := root.Insert([STATEMENT_KEY], lines[0]);
    InsertedAtOnce(lines[0]);
    InsertedNamesFit(Under(map[]), [STATEMENT_KEY], lines[0]);
    FirstLineRead(raw, lines);
    if !ValueFits(lines[0]) { return None; }
    for i := 1 to |lines|
      invariant root.Valid() && fresh(root.repr) && NamesFit(root.Meaning())
      invariant ReadSoFar(raw, lines, root.Meaning(), i)
    {
      ghost var n := root.Meaning();
      NextLineRead(raw, lines, n, i);
      var cut := CutLine(lines[i]);
      if cut.None? { return None; }
      var (segments, value) := cut.value;
      ok := root.Insert(segments, value);
      if !ok { return None; }
      CutFits(lines[i]);
      InsertedNamesFit(n, segments, value);
    }
    AllRead(raw, lines, root.Meaning());
    root.Children();
    if |root.children| < 2 { return None; }
    var built := root.Document();
    if built.None? { return None; }
    var again := RenderText(built.value);
    if again != Some(raw) { return None; }
    doc := built;
  }

  lemma NoNames()
    ensures NamesFit(Under(map[]))
  {
  }

  lemma InsertedAtOnce(value: string)
    ensures Inserted(Under(map[]), [STATEMENT_KEY], value).Some?
  {
  }

  lemma CutFits(line: string)
    ensures CutLine(line).Some? ==> KeysFit(CutLine(line).value.0)
  {
  }

  /** No two documents have one text. */
  lemma TextIsOne(a: Doc, b: Doc)
    requires Representable(a) && Representable(b) && TextOf(a).Some? && TextOf(a) == TextOf(b)
    ensures a == b
  {
    hide TextOf, Holds, Renderable, ReadSoFar, CutLine, Inserted;
    var raw := TextOf(a).value;
    var n, lines := TreeOfText(raw, a);
    AllRead(raw, lines, n);
    assert Renders(a, raw) && Renders(b, raw);
  }

  /** The tree that reading a statement's text builds. */
  lemma TreeOfText(raw: string, doc: Doc) returns (n: Node, lines: seq<string>)
    requires Renders(doc, raw)
    ensures ReadSoFar(raw, lines, n, |lines|)
  {
    hide Renders, Inserted, ReadSoFar, CutLine;
    StartsReading(raw);
    lines := Split(raw[..|raw| - 1], '\n');
    InsertedAtOnce(lines[0]);
    FirstLineRead(raw, lines);
    n := Inserted(Under(map[]), [STATEMENT_KEY], lines[0]).value;
    for i := 1 to |lines|
      invariant ReadSoFar(raw, lines, n, i)
    {
      NextLineRead(raw, lines, n, i);
      var (at, value) := CutLine(lines[i]).value;
      n := Inserted(n, at, value).value;
    }
  }
}
