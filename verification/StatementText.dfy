/** The written form of a statement (attest/text.go): renderText. */
module StatementText {
  import opened Wrappers
  import opened Strings
  import opened Decimal
  import opened StatementDoc
  import opened StatementOrder

  const STATEMENT_KEY := "statementType"

  function StringAt(fields: map<string, Doc>, name: string): string {
    if name in fields && fields[name].Str? then fields[name].value else ""
  }

  /** A leaf with a line of its own: any but the type, which the first line is. */
  ghost predicate Placed(doc: Doc, at: seq<string>) {
    at != [STATEMENT_KEY] && LeafAt(doc, at).Some?
  }

  /** A field of the document that is text says so. */
  ghost predicate Says(doc: Doc, name: string, text: string) {
    doc.Obj? && name in doc.fields && doc.fields[name] == Str(text)
  }

  ghost function OrderOfDoc(doc: Doc): Option<Fields> {
    if exists kind :: Says(doc, "predicateType", kind) then TableFor(doc.fields["predicateType"].value) else None
  }

  lemma SaysAt(doc: Doc, name: string)
    requires doc.Obj?
    ensures var text := StringAt(doc.fields, name);
            (Says(doc, name, text) || (text == "" && forall t :: !Says(doc, name, t)))
  {
  }

  lemma NoTable()
    ensures TableFor("") == None && STATEMENT_TYPE != ""
  {
  }

  lemma OrderIs(doc: Doc)
    requires doc.Obj?
    ensures OrderOfDoc(doc) == TableFor(StringAt(doc.fields, "predicateType"))
    ensures Says(doc, STATEMENT_KEY, STATEMENT_TYPE) <==> StringAt(doc.fields, STATEMENT_KEY) == STATEMENT_TYPE
  {
    hide TableFor;
    NoTable();
    SaysAt(doc, "predicateType");
    SaysAt(doc, STATEMENT_KEY);
  }

  /** A statement of a known type and claim, with a position for each leaf. */
  ghost predicate Renderable(doc: Doc) {
    && Says(doc, STATEMENT_KEY, STATEMENT_TYPE) && OrderOfDoc(doc).Some?
    && Writable(doc)
    && forall at :: Placed(doc, at) ==> at in OrderedPaths(doc.fields, OrderOfDoc(doc).value)
  }

  /** Those of some paths that have lines. */
  ghost function Picked(doc: Doc, paths: seq<seq<string>>): (r: seq<seq<string>>)
    ensures forall at :: at in r <==> at in paths && Placed(doc, at)
  {
    if paths == [] then []
    else
      var last := paths[|paths| - 1];
      Picked(doc, paths[..|paths| - 1]) + if Placed(doc, last) then [last] else []
  }

  /** The paths of a statement's lines, in order. */
  ghost function Listing(doc: Doc): (r: seq<seq<string>>)
    requires Renderable(doc)
    ensures forall at :: at in r <==> Placed(doc, at)
  {
    Picked(doc, OrderedPaths(doc.fields, OrderOfDoc(doc).value))
  }

  ghost function LineAt(doc: Doc, at: seq<string>): string {
    Key(at) + " " + (if LeafAt(doc, at).Some? then LeafAt(doc, at).value else "")
  }

  ghost function LinesAt(doc: Doc, paths: seq<seq<string>>): (lines: seq<string>)
    ensures |lines| == |paths| && forall i :: 0 <= i < |paths| ==> lines[i] == LineAt(doc, paths[i])
  {
    seq(|paths|, i requires 0 <= i < |paths| => LineAt(doc, paths[i]))
  }

  ghost function TextLines(doc: Doc): seq<string>
    requires Renderable(doc)
  {
    [STATEMENT_TYPE] + LinesAt(doc, Listing(doc))
  }

  /** The written form: the type, then a line for each other leaf. */
  ghost function TextOf(doc: Doc): Option<string> {
    if Renderable(doc) then Some(Ended(TextLines(doc))) else None
  }

  /** The lines are exactly the leaves, each once, in the reading order. */
  lemma TextLists(doc: Doc)
    requires Renderable(doc)
    ensures Ordered(OrderOfDoc(doc).value, Listing(doc))
    ensures Distinct(Listing(doc))
    ensures forall at :: at in Listing(doc) <==> Placed(doc, at)
  {
    hide Writable, TableFor, OrderFits, Before;
    var order := OrderOfDoc(doc).value;
    OrderIs(doc);
    TableFits(StringAt(doc.fields, "predicateType"));
    PathsOrdered(doc.fields, order);
    PickedOrdered(doc, order, OrderedPaths(doc.fields, order));
    OrderedDistinct(order, Listing(doc));
  }

  lemma {:induction false} PickedOrdered(doc: Doc, order: Fields, paths: seq<seq<string>>)
    requires Ordered(order, paths)
    ensures Ordered(order, Picked(doc, paths))
  {
    hide Placed, Before;
    if paths != [] {
      var front, last := paths[..|paths| - 1], paths[|paths| - 1];
      PickedOrdered(doc, order, front);
      var before, all := Picked(doc, front), Picked(doc, paths);
      forall i, j | 0 <= i < j < |all| ensures Before(order, all[i], all[j]) {
        if j == |before| {
          assert before[i] in front;
          var k :| 0 <= k < |front| && front[k] == before[i];
          assert paths[k] == before[i];
        } else {
          assert all[i] == before[i] && all[j] == before[j];
        }
      }
    }
  }

  // flatten.

  /** Every value kept is a leaf's, under the leaf's key. */
  ghost predicate AllLeaves(root: Doc, lines: map<string, string>) {
    forall key :: key in lines ==> exists at :: key == Key(at) && LeafAt(root, at) == Some(lines[key])
  }

  /** Every leaf of the part of a document at a path is kept. */
  ghost predicate HasLeaves(v: Doc, at: seq<string>, lines: map<string, string>) {
    forall more :: LeafAt(v, more).Some? ==> Key(at + more) in lines
  }

  ghost predicate IsPart(root: Doc, at: seq<string>, v: Doc) {
    forall more :: LeafAt(root, at + more) == LeafAt(v, more)
  }

  lemma FieldIsPart(root: Doc, at: seq<string>, v: Doc, k: string)
    requires v.Obj? && k in v.fields && IsPart(root, at, v)
    ensures IsPart(root, at + [k], v.fields[k])
  {
    forall more ensures LeafAt(root, (at + [k]) + more) == LeafAt(v.fields[k], more) {
      assert (at + [k]) + more == at + ([k] + more);
      assert ([k] + more)[1..] == more;
    }
  }

  lemma ItemIsPart(root: Doc, at: seq<string>, v: Doc, i: nat)
    requires v.Arr? && i < |v.items| && IsPart(root, at, v)
    ensures IsPart(root, at + [Itoa(i)], v.items[i])
  {
    ItoaCanonical(i);
    AtoiItoa(i);
    forall more ensures LeafAt(root, (at + [Itoa(i)]) + more) == LeafAt(v.items[i], more) {
      assert (at + [Itoa(i)]) + more == at + ([Itoa(i)] + more);
      assert ([Itoa(i)] + more)[1..] == more;
    }
  }

  lemma FieldsHaveLeaves(v: Doc, at: seq<string>, lines: map<string, string>)
    requires v.Obj? && forall k :: k in v.fields ==> HasLeaves(v.fields[k], at + [k], lines)
    ensures HasLeaves(v, at, lines)
  {
    hide Key;
    forall more | LeafAt(v, more).Some? ensures Key(at + more) in lines {
      assert (at + [more[0]]) + more[1..] == at + more;
      assert HasLeaves(v.fields[more[0]], at + [more[0]], lines);
    }
  }

  lemma ItemsHaveLeaves(v: Doc, at: seq<string>, lines: map<string, string>)
    requires v.Arr? && forall i :: 0 <= i < |v.items| ==> HasLeaves(v.items[i], at + [Itoa(i)], lines)
    ensures HasLeaves(v, at, lines)
  {
    hide Key, Itoa, Canonical;
    forall more | LeafAt(v, more).Some? ensures Key(at + more) in lines {
      AtIndex(v.items, more[0]);
      var i := Atoi(more[0]);
      assert (at + [Itoa(i)]) + more[1..] == at + more;
      assert HasLeaves(v.items[i], at + [Itoa(i)], lines);
    }
  }

  lemma AtIndex(items: seq<Doc>, s: string)
    requires Indexes(items, s)
    ensures AllDigits(s) && Itoa(Atoi(s)) == s
  {
    ItoaAtoi(s);
  }

  lemma LeafKept(root: Doc, at: seq<string>, s: string, lines: map<string, string>)
    requires IsPart(root, at, Str(s)) && AllLeaves(root, lines)
    ensures AllLeaves(root, lines[Key(at) := s]) && HasLeaves(Str(s), at, lines[Key(at) := s])
  {
    hide Key;
    assert at + [] == at;
    assert LeafAt(root, at + []) == LeafAt(Str(s), []);
  }

  lemma MoreLines(v: Doc, at: seq<string>, lines: map<string, string>, more: map<string, string>)
    requires HasLeaves(v, at, lines) && lines.Keys <= more.Keys
    ensures HasLeaves(v, at, more)
  {
    hide Key;
  }

  /** Writes every leaf under a key to `out`; the document `v` is the part of
      `root` at a path, and `key` that path's key. */
  method Flatten(key: string, v: Doc, out: map<string, string>, ghost root: Doc, ghost at: seq<string>)
    returns (lines: Option<map<string, string>>)
    requires key == Key(at) && SegmentsFit(at) && IsPart(root, at, v) && AllLeaves(root, out)
    ensures lines.Some? <==> Writable(v)
    ensures lines.Some? ==> out.Keys <= lines.value.Keys && AllLeaves(root, lines.value) && HasLeaves(v, at, lines.value)
    decreases v
  {
    hide Key, SegmentFits, ValueFits, SegmentsFit, IsPart, AllLeaves, HasLeaves, Canonical, JoinKey;
    match v {
      case Str(s) =>
        LeafKept(root, at, s, out);
        lines := if ValueFits(s) then Some(out[key := s]) else None;
      case Obj(fields) =>
        lines := FlattenFields(key, v, out, root, at);
      case Arr(items) =>
        lines := FlattenItems(key, v, out, root, at);
      case _ =>
        lines := None;
    }
  }

  method FlattenFields(key: string, v: Doc, out: map<string, string>, ghost root: Doc, ghost at: seq<string>)
    returns (lines: Option<map<string, string>>)
    requires v.Obj? && key == Key(at) && SegmentsFit(at) && IsPart(root, at, v) && AllLeaves(root, out)
    ensures lines.Some? <==> Writable(v)
    ensures lines.Some? ==> out.Keys <= lines.value.Keys && AllLeaves(root, lines.value) && HasLeaves(v, at, lines.value)
    decreases v, 0
  {
    hide Key, SegmentFits, ValueFits, SegmentsFit, IsPart, AllLeaves, HasLeaves, Canonical, JoinKey;
    var fields := v.fields;
    if fields == map[] { return None; }
    var kept := out;
    var todo := fields.Keys;
    while todo != {}
      invariant todo <= fields.Keys && out.Keys <= kept.Keys && AllLeaves(root, kept)
      invariant forall k :: k in fields.Keys - todo ==> SegmentFits(k) && Writable(fields[k]) && HasLeaves(fields[k], at + [k], kept)
    {
      var k :| k in todo;
      if !SegmentFits(k) { return None; }
      KeyOneMore(at, k);
      SegmentsFitOneMore(at, k);
      FieldIsPart(root, at, v, k);
      var flat := Flatten(JoinKey(key, k), fields[k], kept, root, at + [k]);
      if flat.None? { return None; }
      forall x | x in fields.Keys - todo ensures HasLeaves(fields[x], at + [x], flat.value) {
        MoreLines(fields[x], at + [x], kept, flat.value);
      }
      kept := flat.value;
      todo := todo - {k};
    }
    FieldsHaveLeaves(v, at, kept);
    lines := Some(kept);
  }

  method FlattenItems(key: string, v: Doc, out: map<string, string>, ghost root: Doc, ghost at: seq<string>)
    returns (lines: Option<map<string, string>>)
    requires v.Arr? && key == Key(at) && SegmentsFit(at) && IsPart(root, at, v) && AllLeaves(root, out)
    ensures lines.Some? <==> Writable(v)
    ensures lines.Some? ==> out.Keys <= lines.value.Keys && AllLeaves(root, lines.value) && HasLeaves(v, at, lines.value)
    decreases v, 0
  {
    hide Key, SegmentFits, ValueFits, SegmentsFit, IsPart, AllLeaves, HasLeaves, Canonical, JoinKey, Itoa;
    var items := v.items;
    if items == [] { return None; }
    var kept := out;
    for i := 0 to |items|
      invariant out.Keys <= kept.Keys && AllLeaves(root, kept)
      invariant forall j :: 0 <= j < i ==> Writable(items[j]) && HasLeaves(items[j], at + [Itoa(j)], kept)
    {
      ItoaCanonical(i);
      KeyOneMore(at, Itoa(i));
      SegmentsFitOneMore(at, Itoa(i));
      ItemIsPart(root, at, v, i);
      var flat := Flatten(JoinKey(key, Itoa(i)), items[i], kept, root, at + [Itoa(i)]);
      if flat.None? { return None; }
      forall j | 0 <= j < i ensures HasLeaves(items[j], at + [Itoa(j)], flat.value) {
        MoreLines(items[j], at + [Itoa(j)], kept, flat.value);
      }
      kept := flat.value;
    }
    ItemsHaveLeaves(v, at, kept);
    lines := Some(kept);
  }

  // renderText.

  /** What is left of the lines once some paths are placed. */
  ghost predicate LeftOver(doc: Doc, done: seq<seq<string>>, lines: map<string, string>) {
    && (forall at :: Placed(doc, at) && at !in done ==> Key(at) in lines)
    && (forall key :: key in lines ==>
          exists at :: key == Key(at) && Placed(doc, at) && at !in done && LeafAt(doc, at) == Some(lines[key]))
  }

  lemma AllLeftOver(doc: Doc, lines: map<string, string>)
    requires Writable(doc) && doc.Obj?
    requires AllLeaves(doc, lines) && HasLeaves(doc, [], lines)
    ensures LeftOver(doc, [], lines - {STATEMENT_KEY})
  {
    hide Writable, SegmentFits, Canonical, ValueFits, Key, SegmentsFit;
    forall at | Placed(doc, at) ensures Key(at) in lines - {STATEMENT_KEY} {
      LeafFits(doc, at);
      assert [] + at == at;
      NotTheType(at);
    }
    assert Key([STATEMENT_KEY]) == STATEMENT_KEY by { KeyOfOne(STATEMENT_KEY); }
  }

  lemma KeyOfOne(s: string)
    ensures Key([s]) == s
  {
  }

  lemma NotTheType(at: seq<string>)
    requires SegmentsFit(at) && at != [STATEMENT_KEY]
    ensures at != [] ==> Key(at) != STATEMENT_KEY
  {
    hide SegmentFits, Canonical;
    KeyOfOne(STATEMENT_KEY);
    if at != [] && Key(at) == STATEMENT_KEY {
      KeySplits(at);
      TypeSplits();
    }
  }

  lemma TypeSplits()
    ensures Split(STATEMENT_KEY, '.') == [STATEMENT_KEY]
  {
    SplitHead(STATEMENT_KEY, "", '.');
  }

  /** A path's line is still there exactly when the path is a leaf not placed. */
  lemma Placeable(doc: Doc, done: seq<seq<string>>, lines: map<string, string>, at: seq<string>)
    requires Writable(doc) && doc.Obj? && LeftOver(doc, done, lines) && SegmentsFit(at) && at != []
    ensures Key(at) in lines <==> Placed(doc, at) && at !in done
    ensures Key(at) in lines ==> LeafAt(doc, at) == Some(lines[Key(at)])
    ensures LeftOver(doc, done + [at], lines - {Key(at)})
  {
    hide Writable, SegmentFits, Canonical, ValueFits, Key, SegmentsFit;
    forall b | Placed(doc, b) && Key(b) == Key(at) ensures b == at {
      LeafFits(doc, b);
      assert b != [];
      KeysAreOne(at, b);
    }
    var rest := lines - {Key(at)};
    forall key | key in rest
      ensures exists b :: key == Key(b) && Placed(doc, b) && b !in done + [at] && LeafAt(doc, b) == Some(rest[key])
    {
      var b :| key == Key(b) && Placed(doc, b) && b !in done && LeafAt(doc, b) == Some(lines[key]);
      assert b !in done + [at];
    }
  }

  method RenderText(doc: Doc) returns (text: Option<string>)
    ensures text == TextOf(doc)
  {
    hide Writable, Key, OrderedPaths, OrderedKeys, SegmentsFit, Ended, LeftOver, AllLeaves, HasLeaves, IsPart;
    hide TableFor, OrderFits, Placed, LeafAt, Distinct, JoinKey, Picked;
    if !doc.Obj? { return None; }
    OrderIs(doc);
    var kind := StringAt(doc.fields, STATEMENT_KEY);
    if kind != STATEMENT_TYPE { return None; }
    var predicateType := StringAt(doc.fields, "predicateType");
    var order := TableFor(predicateType);
    if order.None? { return None; }
    AtTheRoot(doc);
    var flat := Flatten("", doc, map[], doc, []);
    if flat.None? { return None; }
    AllLeftOver(doc, flat.value);
    var lines := flat.value - {STATEMENT_KEY};
    var keys := OrderedKeys(doc.fields, order.value, "");
    ghost var paths := OrderedPaths(doc.fields, order.value);
    KeysOfTable(doc, order.value);
    Started(doc);
    var b := kind + "\n";
    var placed := 0;
    for i := 0 to |keys|
      invariant LeftOver(doc, paths[..i], lines)
      invariant b == Ended([STATEMENT_TYPE] + LinesAt(doc, Picked(doc, paths[..i])))
      invariant placed == |Picked(doc, paths[..i])|
    {
      var key := keys[i];
      Placeable(doc, paths[..i], lines, paths[i]);
      PickedOneMore(doc, paths, i);
      ghost var all := lines;
      if key in lines {
        OneMoreLine(doc, Picked(doc, paths[..i]), paths[i]);
        b := b + key + " " + lines[key] + "\n";
        lines := lines - {key};
        placed := placed + 1;
      }
      assert lines == all - {key};
    }
    assert paths[..|keys|] == paths;
    NoneLeft(doc, paths, lines);
    if lines != map[] { return None; }
    TypeNamed(predicateType);
    SomePlaced(doc, paths);
    text := if placed == 0 then None else Some(b);
  }

  lemma AtTheRoot(doc: Doc)
    ensures IsPart(doc, [], doc) && SegmentsFit([]) && Key([]) == "" && AllLeaves(doc, map[])
  {
    forall more ensures LeafAt(doc, [] + more) == LeafAt(doc, more) {
      assert [] + more == more;
    }
  }

  lemma KeysOfTable(doc: Doc, order: Fields)
    requires doc.Obj? && Writable(doc) && OrderOfDoc(doc) == Some(order)
    ensures var keys, paths := OrderedKeys(doc.fields, order, ""), OrderedPaths(doc.fields, order);
            |keys| == |paths| && forall i :: 0 <= i < |keys| ==> SegmentsFit(paths[i]) && paths[i] != [] && keys[i] == Key(paths[i])
    ensures Distinct(OrderedPaths(doc.fields, order))
  {
    hide Writable, Key, OrderedPaths, OrderedKeys, SegmentsFit, TableFor, Before, OrderFits;
    TableFits(StringAt(doc.fields, "predicateType"));
    assert SegmentsFit([]) && Key([]) == "" by { AtTheRoot(doc); }
    OrderedKeysArePaths(doc.fields, order, []);
    PathsOrdered(doc.fields, order);
    var paths := OrderedPaths(doc.fields, order);
    forall i | 0 <= i < |paths| ensures [] + paths[i] == paths[i] {}
    OrderedDistinct(order, paths);
  }

  ghost predicate Distinct(paths: seq<seq<string>>) {
    forall i, j :: 0 <= i < j < |paths| ==> paths[i] != paths[j]
  }

  lemma OrderedDistinct(order: Fields, paths: seq<seq<string>>)
    requires Ordered(order, paths)
    ensures Distinct(paths)
  {
    hide Before;
    forall i, j | 0 <= i < j < |paths| ensures paths[i] != paths[j] {
      assert Before(order, paths[i], paths[j]);
      NotBeforeItself(order, paths[i]);
    }
  }

  lemma Started(doc: Doc)
    ensures Ended([STATEMENT_TYPE] + LinesAt(doc, Picked(doc, []))) == STATEMENT_TYPE + "\n" && Picked(doc, []) == []
  {
    assert [STATEMENT_TYPE] + LinesAt(doc, []) == [STATEMENT_TYPE];
    assert [STATEMENT_TYPE][..0] == [];
  }

  /** A path the table names later is not one it has named. */
  lemma PickedOneMore(doc: Doc, paths: seq<seq<string>>, i: nat)
    requires i < |paths| && Distinct(paths)
    ensures paths[i] !in paths[..i]
    ensures paths[..i + 1] == paths[..i] + [paths[i]]
    ensures var before := Picked(doc, paths[..i]);
            Picked(doc, paths[..i + 1]) == if Placed(doc, paths[i]) then before + [paths[i]] else before
  {
    assert paths[..i + 1][..i] == paths[..i];
  }

  lemma OneMoreLine(doc: Doc, paths: seq<seq<string>>, at: seq<string>)
    requires LeafAt(doc, at).Some?
    ensures Ended([STATEMENT_TYPE] + LinesAt(doc, paths + [at])) ==
            Ended([STATEMENT_TYPE] + LinesAt(doc, paths)) + Key(at) + " " + LeafAt(doc, at).value + "\n"
  {
    hide Key, LeafAt;
    var before, after := [STATEMENT_TYPE] + LinesAt(doc, paths), [STATEMENT_TYPE] + LinesAt(doc, paths + [at]);
    assert after == before + [LineAt(doc, at)];
    assert after[..|after| - 1] == before;
  }

  lemma NoneLeft(doc: Doc, paths: seq<seq<string>>, lines: map<string, string>)
    requires LeftOver(doc, paths, lines)
    ensures lines == map[] <==> forall at :: Placed(doc, at) ==> at in paths
  {
    hide Key, Placed;
    if lines != map[] {
      var key :| key in lines;
      var at :| key == Key(at) && Placed(doc, at) && at !in paths;
    }
  }

  lemma TypeNamed(predicateType: string)
    ensures TableFor(predicateType).Some? ==> predicateType != ""
  {
  }

  /** The claim's type is itself placed, so a statement has a line. */
  lemma SomePlaced(doc: Doc, paths: seq<seq<string>>)
    requires doc.Obj? && StringAt(doc.fields, "predicateType") != ""
    requires forall at :: Placed(doc, at) ==> at in paths
    ensures Picked(doc, paths) != []
  {
    var at := ["predicateType"];
    assert at[1..] == [];
    assert at[0] != STATEMENT_KEY;
    assert Placed(doc, at);
    assert at in Picked(doc, paths);
  }
}
