/** Render and ParseKnot undo each other: a knot that keeps the rules about one
    knot, with a body in normal form, is read back from what Render writes, up
    to the order and repeats of its lists; and nothing else is read. */
module KnotInverse {
  import opened Wrappers
  import opened Strings
  import opened KnotText
  import opened KnotBody
  import opened KnotList
  import opened KnotFields
  import opened KnotCanon
  import Utf8
  import KnotLayout

  // What a knot that keeps the rules holds.

  /** Lower-case letters, digits and hyphens. */
  predicate IsWord(s: string) {
    s != "" && forall i :: 0 <= i < |s| ==> 'a' <= s[i] <= 'z' || IsDigit(s[i]) || s[i] == '-'
  }

  lemma WordIsToken(s: string)
    requires IsWord(s)
    ensures IsToken(s) && IsInkText(s)
  {
  }

  lemma TypeIsWord(t: string)
    requires IsType(t)
    ensures IsWord(t)
  {
  }

  lemma StatusIsWord(t: string, status: string)
    requires IsType(t) && status in Statuses(t)
    ensures IsWord(status)
  {
    if t == "idea" { IdeaStatusIsWord(status); }
  }

  lemma IdeaStatusIsWord(status: string)
    requires status in Statuses("idea")
    ensures IsWord(status)
  {
    assert IsWord("raw") && IsWord("exploring") && IsWord("adopted");
    LastIdeasAreWords();
  }

  lemma LastIdeasAreWords()
    ensures IsWord("graduated") && IsWord("superseded") && IsWord("discarded")
  {
  }

  lemma DateIsWord(s: string)
    requires IsDate(s)
    ensures IsWord(s)
  {
    forall i | 0 <= i < |s| ensures IsDigit(s[i]) || s[i] == '-' {
      assert "0000-00-00"[i] == '0' || "0000-00-00"[i] == '-';
    }
  }

  lemma TimestampIsInk(s: string)
    requires IsTimestamp(s)
    ensures IsInkText(s)
  {
    forall i | 0 <= i < |s| ensures IsInk(s[i]) {
      assert IsInk("0000-00-00T00:00:00Z"[i]);
    }
  }

  /** The first rules: a type, an ID, a status, a title and a date. */
  lemma HeadPasses(k: Knot)
    requires Check(k).None?
    ensures IsType(k.typeName) && KnotLayout.IsLocalID(k.id) && k.status in Statuses(k.typeName) && IsDate(k.created)
    ensures CheckShapes(k).None? && CheckLive(k).None?
  {
    hide CheckShapes, CheckLive, KnotLayout.IsLocalID, IsDate, Statuses;
  }

  lemma ShapesPass(k: Knot)
    requires CheckShapes(k).None?
    ensures k.createdBy == "" || IsName(k.createdBy)
    ensures k.owner == "" || IsName(k.owner)
    ensures k.parent == "" || KnotLayout.IsLocalID(k.parent)
    ensures k.claimedBy == "" || IsName(k.claimedBy)
    ensures k.claimedAt == "" || IsTimestamp(k.claimedAt)
    ensures k.target == "" || IsName(k.target) || IsQualifiedID(k.target)
    ensures k.graduatedInto == "" || KnotLayout.IsLocalID(k.graduatedInto)
    ensures forall item :: item in BlockedItems(k) ==> IsReference(item)
    ensures forall item :: item in ChangeItems(k) ==> IsLink(item)
  {
    hide IsName, KnotLayout.IsLocalID, IsTimestamp, IsQualifiedID, IsReference, IsLink;
  }

  lemma LivePasses(k: Knot)
    requires CheckLive(k).None?
    ensures IsLine(k.title) && IsLine(k.source)
  {
    hide IsLine;
  }

  /** A field's value as its shape leaves it: a bare token, text that fits, or a
      list of such text. */
  ghost predicate Shaped(k: Knot, f: Field) {
    match Get(k, f)
    case Text(s) => if IsBare(f) then IsToken(s) && IsInkText(s) else TextFits(s)
    case List(_) => forall item :: item in Items(Get(k, f)) ==> TextFits(item)
  }

  lemma NameFits(s: string)
    requires s == "" || IsName(s) || IsQualifiedID(s) || IsTimestamp(s)
    ensures TextFits(s)
  {
    hide IsName, IsQualifiedID, IsTimestamp, TextFits, IsInkText;
    if s == "" {
      NoInk();
    } else if IsName(s) {
      NameIsInk(s);
    } else if IsQualifiedID(s) {
      QualifiedIsInk(s);
    } else {
      TimestampIsInk(s);
    }
    InkFits(s);
  }

  lemma ItemFits(item: string)
    requires IsReference(item) || IsLink(item)
    ensures TextFits(item)
  {
    hide KnotLayout.IsLocalID, IsQualifiedID, IsValleyChange, IsGithubPR, TextFits, IsInkText;
    if KnotLayout.IsLocalID(item) {
      IdIsInk(item);
    } else if IsQualifiedID(item) {
      QualifiedIsInk(item);
    } else if IsValleyChange(item) {
      ValleyIsInk(item);
    } else {
      GithubIsInk(item);
    }
    InkFits(item);
  }

  lemma BareIsShaped(k: Knot, f: Field)
    requires Check(k).None? && Writes(k, f) && IsBare(f)
    ensures Shaped(k, f)
  {
    hide Check, CheckShapes, CheckLive, IsWord, IsType, IsDate, Statuses, KnotLayout.IsLocalID, IsToken, IsInkText,
      IsName, IsTimestamp, IsQualifiedID, IsReference, IsLink;
    HeadPasses(k);
    ShapesPass(k);
    if f.Type? {
      TypeIsWord(k.typeName);
      WordIsToken(k.typeName);
    } else if f.Status? {
      StatusIsWord(k.typeName, k.status);
      WordIsToken(k.status);
    } else if f.Created? {
      DateIsWord(k.created);
      WordIsToken(k.created);
    } else {
      IdIsInk(Get(k, f).text);
    }
  }

  lemma QuotedIsShaped(k: Knot, f: Field)
    requires Check(k).None? && !IsBare(f)
    ensures Shaped(k, f)
  {
    hide Check, CheckShapes, CheckLive, IsType, IsDate, Statuses, KnotLayout.IsLocalID, TextFits,
      IsName, IsTimestamp, IsQualifiedID, IsReference, IsLink;
    HeadPasses(k);
    ShapesPass(k);
    LivePasses(k);
    if IsList(f) {
      forall item | item in Items(Get(k, f)) ensures TextFits(item) { ItemFits(item); }
    } else if !f.Title? && !f.Source? {
      NameFits(Get(k, f).text);
    }
  }

  lemma CheckedIsShaped(k: Knot, f: Field)
    requires Check(k).None? && Writes(k, f)
    ensures Shaped(k, f)
  {
    hide Check, Shaped;
    if IsBare(f) { BareIsShaped(k, f); } else { QuotedIsShaped(k, f); }
  }

  // One line.

  /** A knot as it is read back: its lists sorted with each entry once, a work
      item's blocked_by there, and no other empty list. */
  function NormalDatum(k: Knot, f: Field): (d: Datum)
    ensures d.List? <==> IsList(f)
  {
    match Get(k, f)
    case Text(s) => Text(s)
    case List(_) => List(if Writes(k, f) then Some(Sorted(SetOf(Items(Get(k, f))))) else None)
  }

  function Normal(k: Knot): Knot {
    k.(blockedBy := NormalDatum(k, BlockedBy).list, changes := NormalDatum(k, Changes).list)
  }

  lemma ValueReads(k: Knot, f: Field)
    requires Writes(k, f) && Shaped(k, f)
    ensures ReadValue(f, ValueText(k, f)) == Some(NormalDatum(k, f))
  {
    hide ReadList, ReadScalar, RenderList, Quote, IsToken, TextFits, IsInkText, Sorted, Writes, Utf8.Valid;
    var d := Get(k, f);
    if IsList(f) {
      forall item | item in Items(d) ensures Utf8.Valid(item) { TextIsValid(item); }
      ListReads(Items(d));
    } else if IsBare(f) {
      TokenReads(d.text);
    } else {
      TextIsValid(d.text);
      QuoteReads(d.text);
    }
  }

  lemma ValueOnOneLine(k: Knot, f: Field)
    requires Shaped(k, f)
    ensures OnOneLine(ValueText(k, f))
  {
    hide RenderList, Quote, IsToken, TextFits, OnOneLine;
    var d := Get(k, f);
    if IsList(f) {
      ListOnOneLine(Items(d));
    } else if IsBare(f) {
      PrintableOnOneLine(d.text);
    } else {
      QuoteOnOneLine(d.text);
    }
  }

  predicate IsKey(s: string) {
    s != "" && forall i :: 0 <= i < |s| ==> 'a' <= s[i] <= 'z' || s[i] == '_'
  }

  lemma NameIsKey(f: Field)
    ensures IsKey(Name(f))
  {
  }

  lemma NameIsNamed(f: Field)
    ensures FieldNamed(Name(f)) == Some(f)
  {
    hide Name, Place;
    NameFound(f, 0);
  }

  lemma {:induction false} NameFound(f: Field, i: nat)
    requires i <= Place(f)
    ensures FieldFrom(Name(f), i) == Some(f)
    decreases |FIELDS| - i
  {
    hide Name, Place;
    if i < Place(f) {
      PlaceOf(i);
      NamesDiffer(f, FIELDS[i]);
      NameFound(f, i + 1);
    }
  }

  lemma NamesDiffer(f: Field, g: Field)
    requires f != g
    ensures Name(f) != Name(g)
  {
  }

  lemma {:induction false} KeyCut(key: string, value: string)
    requires ':' !in key
    ensures IndexIn(key + ": " + value, ": ") == Some(|key|)
    decreases |key|
  {
    var s := key + ": " + value;
    if key == "" {
      assert ": " <= s;
    } else {
      assert s[0] == key[0] && !(": " <= s);
      KeyCut(key[1..], value);
      assert s[1..] == key[1..] + ": " + value;
    }
  }

  lemma LineCuts(k: Knot, f: Field)
    ensures CutLine(LineOf(k, f)) == (Name(f), ValueText(k, f))
  {
    hide Name, ValueText, IndexIn;
    var line := LineOf(k, f);
    NameIsKey(f);
    KeyCut(Name(f), ValueText(k, f));
    assert line[..|Name(f)|] == Name(f) && line[|Name(f)| + 2..] == ValueText(k, f);
  }

  /** A written line sets its field, and nothing else. */
  lemma LineReads(k: Knot, f: Field, j: Knot, seen: set<Field>)
    requires Writes(k, f) && Shaped(k, f) && f !in seen
    ensures ReadLine(j, seen, LineOf(k, f)) == Ok((Put(j, f, NormalDatum(k, f)), f))
  {
    hide Name, ValueText, CutLine, LineOf, FieldNamed, ReadValue, Put, NormalDatum, Writes, Shaped;
    LineCuts(k, f);
    NameIsNamed(f);
    ValueReads(k, f);
  }

  const KEY_OPENS := "abcdefghijklmnopqrstuvwxyz_"
  const KEY_GOES_ON := "0123456789"

  ghost predicate KeyShape(key: string) {
    && key != "" && key[0] in KEY_OPENS
    && forall c :: c in key ==> c in KEY_OPENS || c in KEY_GOES_ON
  }

  /** A line whose key no field has is refused as no field of a knot's where the key
      is written as one, and else as no line of a knot's; with or without a value. */
  lemma NoFieldOf(k: Knot, seen: set<Field>, key: string, value: string)
    requires FieldNamed(key).None? && ':' !in key
    ensures var rule := if KeyShape(key) then RuleFieldOnType else RuleCanonical;
            ReadLine(k, seen, key + ": " + value) == Err(rule) && ReadLine(k, seen, key + ":") == Err(rule)
  {
    hide FieldNamed, IndexIn, ReadValue, Put;
    KeyCut(key, value);
    NoneAlone(key);
    assert (key + ": " + value)[..|key|] == key;
    assert (key + ":")[..|key + ":"| - 1] == key;
    KeyShapeExactly(key);
  }

  lemma KeyShapeExactly(key: string)
    ensures IsKeyShape(key) <==> KeyShape(key)
  {
    OpensExactly();
    forall i | 0 <= i < |key| ensures key[i] in key {}
  }

  lemma OpensExactly()
    ensures forall c :: c in KEY_OPENS <==> 'a' <= c <= 'z' || c == '_'
    ensures forall c :: c in KEY_GOES_ON <==> '0' <= c <= '9'
  {
    forall c ensures c in KEY_OPENS <==> 'a' <= c <= 'z' || c == '_' {
      if 'a' <= c <= 'z' { assert KEY_OPENS[c as int - 'a' as int] == c; }
      if c == '_' { assert KEY_OPENS[26] == c; }
    }
    forall c ensures c in KEY_GOES_ON <==> '0' <= c <= '9' {
      if '0' <= c <= '9' { assert KEY_GOES_ON[c as int - '0' as int] == c; }
    }
  }

  lemma {:induction false} NoneAlone(key: string)
    requires ':' !in key
    ensures IndexIn(key + ":", ": ").None?
  {
    var s := key + ":";
    assert !(": " <= s) by { if |s| > 1 { assert s[0] == key[0]; } }
    if key == "" {
      assert IndexIn(s[1..], ": ").None?;
    } else {
      assert s[1..] == key[1..] + ":";
      NoneAlone(key[1..]);
    }
  }

  lemma LineIsOne(k: Knot, f: Field)
    requires Shaped(k, f)
    ensures OnOneLine(LineOf(k, f)) && LineOf(k, f) != "---"
  {
    hide Name, ValueText, OnOneLine, Shaped;
    NameIsKey(f);
    ValueOnOneLine(k, f);
    PrintableOnOneLine(Name(f) + ": ");
    LinesJoin(Name(f) + ": ", ValueText(k, f));
    assert LineOf(k, f)[0] == Name(f)[0];
    assert "---"[0] == '-';
  }

  // The lines of the frontmatter.

  /** A line that cannot close the frontmatter. */
  predicate IsInner(line: string) {
    '\n' !in line && line != "---"
  }

  lemma {:induction false} LinesAreInner(k: Knot, i: nat)
    requires i <= |FIELDS| && Check(k).None?
    ensures forall line :: line in LinesFrom(k, i) ==> IsInner(line)
    decreases |FIELDS| - i
  {
    hide Check, LineOf, Writes, Shaped, TextFits;
    if i < |FIELDS| {
      LinesAreInner(k, i + 1);
      if Writes(k, FIELDS[i]) {
        CheckedIsShaped(k, FIELDS[i]);
        LineIsOne(k, FIELDS[i]);
      }
    }
  }

  lemma {:induction false} FrontIsLines(k: Knot, i: nat)
    requires i <= |FIELDS|
    ensures FrontFrom(k, i) == if LinesFrom(k, i) == [] then "" else Join(LinesFrom(k, i), '\n') + "\n"
    decreases |FIELDS| - i
  {
    hide LineOf, Writes;
    if i < |FIELDS| {
      FrontIsLines(k, i + 1);
      var more := LinesFrom(k, i + 1);
      if Writes(k, FIELDS[i]) {
        JoinFirst(LineOf(k, FIELDS[i]), more);
      } else {
        assert [] + more == more;
        assert "" + FrontFrom(k, i + 1) == FrontFrom(k, i + 1);
      }
    }
  }

  lemma JoinFirst(line: string, more: seq<string>)
    ensures Join([line] + more, '\n') + "\n"
         == line + "\n" + if more == [] then "" else Join(more, '\n') + "\n"
  {
    if more != [] {
      assert ([line] + more)[1..] == more;
    }
  }

  lemma {:induction false} IndexSkips(line: string, more: string)
    requires '\n' !in line && more != "" && more[0] == '\n'
    ensures IndexIn(line + more, CLOSE) == match IndexIn(more, CLOSE) case None => None case Some(i) => Some(|line| + i)
  {
    if line == "" {
      assert line + more == more;
    } else {
      var s := line + more;
      IndexSkips(line[1..], more);
      assert s[1..] == line[1..] + more;
      assert s[0] == line[0] && line[0] in line && CLOSE[0] == '\n';
      assert !(CLOSE <= s);
    }
  }

  /** A line other than --- opens no fence. */
  lemma InnerIsNoFence(line: string, more: string)
    requires IsInner(line)
    ensures !(FENCE <= line + ("\n" + more))
  {
    var s := line + ("\n" + more);
    if FENCE <= s {
      FenceIsLine(line, s);
    }
  }

  lemma FenceIsLine(line: string, s: string)
    requires FENCE <= s && '\n' !in line && |line| < |s| && s[..|line|] == line && s[|line|] == '\n'
    ensures line == "---"
  {
    assert s[0] == '-' && s[1] == '-' && s[2] == '-' && s[3] == '\n';
    forall i | 0 <= i < |line| ensures s[i] != '\n' && s[i] == line[i] {
      assert s[i] == s[..|line|][i] && line[i] in line;
    }
    assert |line| == 3;
  }

  /** The first fence after the frontmatter's lines closes it. */
  lemma {:induction false} FenceFound(lines: seq<string>, tail: string)
    requires lines != [] && forall line :: line in lines ==> IsInner(line)
    ensures IndexIn(Join(lines, '\n') + (CLOSE + tail), CLOSE) == Some(|Join(lines, '\n')|)
    decreases |lines|
  {
    hide IndexIn, IsInner;
    var line := lines[0];
    InnerHasNoNewline(line);
    if |lines| == 1 {
      IndexSkips(line, CLOSE + tail);
      CloseIsFirst(tail);
    } else {
      var joined := Join(lines[1..], '\n');
      var rest := joined + (CLOSE + tail);
      assert Join(lines, '\n') + (CLOSE + tail) == line + ("\n" + rest);
      FenceFound(lines[1..], tail);
      IndexSkips(line, "\n" + rest);
      JoinOpens(lines[1..], tail);
      CloseIsLater(rest);
    }
  }

  lemma InnerHasNoNewline(line: string)
    requires IsInner(line)
    ensures '\n' !in line
  {
  }

  lemma CloseIsFirst(tail: string)
    ensures IndexIn(CLOSE + tail, CLOSE) == Some(0)
  {
  }

  lemma CloseIsLater(rest: string)
    requires !(FENCE <= rest)
    ensures IndexIn("\n" + rest, CLOSE) == match IndexIn(rest, CLOSE) case None => None case Some(i) => Some(1 + i)
  {
    assert ("\n" + rest)[1..] == rest;
    CloseIsFence(rest);
  }

  lemma CloseIsFence(rest: string)
    ensures CLOSE <= "\n" + rest <==> FENCE <= rest
  {
    var s := "\n" + rest;
    if |rest| >= 4 {
      assert s[..5] == [s[0]] + rest[..4];
      assert CLOSE == "\n" + FENCE;
      assert s[..5][1..] == rest[..4] && CLOSE[1..] == FENCE;
    }
  }

  /** Joined lines do not open with a fence. */
  lemma JoinOpens(lines: seq<string>, tail: string)
    requires lines != [] && forall line :: line in lines ==> IsInner(line)
    ensures !(FENCE <= Join(lines, '\n') + (CLOSE + tail))
  {
    hide IsInner;
    if |lines| == 1 {
      assert CLOSE + tail == "\n" + (FENCE + tail);
      InnerIsNoFence(lines[0], FENCE + tail);
    } else {
      var joined := Join(lines[1..], '\n');
      assert Join(lines, '\n') + (CLOSE + tail) == lines[0] + ("\n" + (joined + (CLOSE + tail)));
      InnerIsNoFence(lines[0], joined + (CLOSE + tail));
    }
  }

  /** The frontmatter's lines and what follows it, as they were written; what
      follows may hold fences of its own. */
  lemma FrontSplits(lines: seq<string>, tail: string)
    requires lines != [] && forall line :: line in lines ==> IsInner(line)
    ensures Frontmatter(FENCE + (Join(lines, '\n') + "\n" + (FENCE + tail))) == Some((lines, tail))
  {
    hide IndexIn, Split, Join, IsInner;
    var joined := Join(lines, '\n');
    var rest := joined + (CLOSE + tail);
    assert joined + "\n" + (FENCE + tail) == rest;
    assert (FENCE + rest)[|FENCE|..] == rest;
    JoinOpens(lines, tail);
    FenceFound(lines, tail);
    assert rest[..|joined|] == joined && rest[|joined| + |CLOSE|..] == tail;
    forall i | 0 <= i < |lines| ensures '\n' !in lines[i] { InnerHasNoNewline(lines[i]); }
    SplitJoin(lines, '\n');
  }

  lemma FrontIsRead(k: Knot)
    requires Check(k).None?
    ensures Frontmatter(Render(k)) == Some((LinesFrom(k, 0), BodyText(k.body)))
  {
    hide Check, FrontFrom, Frontmatter, IsInner, Join, LineOf;
    LinesAreInner(k, 0);
    FrontIsLines(k, 0);
    assert FIELDS[0] == Type && Writes(k, Type);
    assert LinesFrom(k, 0) != [];
    FrontSplits(LinesFrom(k, 0), BodyText(k.body));
  }

  // Reading the lines back.

  /** What a knot holds once the fields before place i are read. */
  ghost predicate ReadUpTo(j: Knot, k: Knot, i: nat) {
    && j.body == k.body && j.slug == k.slug
    && forall f :: Get(j, f) == if Place(f) < i then NormalDatum(k, f) else Get(Blank(k.slug, k.body), f)
  }

  lemma ReadsOn(j: Knot, k: Knot, f: Field)
    requires ReadUpTo(j, k, Place(f)) && Writes(k, f)
    ensures ReadUpTo(Put(j, f, NormalDatum(k, f)), k, Place(f) + 1)
  {
    hide Get, Put, NormalDatum, Writes, Place;
    PutSets(j, f, NormalDatum(k, f));
    forall g | Place(g) == Place(f) ensures g == f { SamePlace(f, g); }
  }

  lemma SamePlace(f: Field, g: Field)
    requires Place(f) == Place(g)
    ensures f == g
  {
    assert FIELDS[Place(f)] == FIELDS[Place(g)];
  }

  /** A field that is not written holds nothing. */
  lemma SkipsOn(j: Knot, k: Knot, f: Field)
    requires ReadUpTo(j, k, Place(f)) && !Writes(k, f)
    ensures ReadUpTo(j, k, Place(f) + 1)
  {
    hide Place;
    forall g | Place(g) == Place(f) ensures g == f { SamePlace(f, g); }
    assert NormalDatum(k, f) == Get(Blank(k.slug, k.body), f) by { UnwrittenIsBlank(k, f); }
  }

  lemma UnwrittenIsBlank(k: Knot, f: Field)
    requires !Writes(k, f)
    ensures NormalDatum(k, f) == Get(Blank(k.slug, k.body), f)
  {
  }

  /** The lines from a place on, read into a knot that has read those before
      it, give one that has read them all. */
  ghost predicate ReadsAll(k: Knot, i: nat, j: Knot, seen: set<Field>)
    requires i <= |FIELDS|
  {
    var r := ReadLines(j, seen, LinesFrom(k, i));
    r.Ok? && ReadUpTo(r.value, k, |FIELDS|)
  }

  lemma {:induction false} LinesRead(k: Knot, i: nat, j: Knot, seen: set<Field>)
    requires i <= |FIELDS| && Check(k).None? && ReadUpTo(j, k, i)
    requires forall f :: f in seen ==> Place(f) < i
    ensures ReadsAll(k, i, j, seen)
    decreases |FIELDS| - i
  {
    hide Check, Writes, ReadUpTo, Place, Put, NormalDatum, ReadsAll;
    if i == |FIELDS| {
      NoneLeftToRead(k, j, seen);
    } else {
      var f := FIELDS[i];
      PlaceOf(i);
      if Writes(k, f) {
        ReadsOn(j, k, f);
        LinesRead(k, i + 1, Put(j, f, NormalDatum(k, f)), seen + {f});
        WrittenReads(k, i, j, seen);
      } else {
        SkipsOn(j, k, f);
        LinesRead(k, i + 1, j, seen);
        SkippedReads(k, i, j, seen);
      }
    }
  }

  lemma NoneLeftToRead(k: Knot, j: Knot, seen: set<Field>)
    requires ReadUpTo(j, k, |FIELDS|)
    ensures ReadsAll(k, |FIELDS|, j, seen)
  {
    hide ReadUpTo;
  }

  lemma WrittenReads(k: Knot, i: nat, j: Knot, seen: set<Field>)
    requires i < |FIELDS| && Check(k).None? && Writes(k, FIELDS[i]) && FIELDS[i] !in seen
    requires ReadsAll(k, i + 1, Put(j, FIELDS[i], NormalDatum(k, FIELDS[i])), seen + {FIELDS[i]})
    ensures ReadsAll(k, i, j, seen)
  {
    hide Check, LineOf, Writes, Shaped, ReadLine, ReadUpTo, Put, NormalDatum;
    var f := FIELDS[i];
    CheckedIsShaped(k, f);
    LineReads(k, f, j, seen);
    assert LinesFrom(k, i) == [LineOf(k, f)] + LinesFrom(k, i + 1);
    assert LinesFrom(k, i)[1..] == LinesFrom(k, i + 1);
  }

  lemma SkippedReads(k: Knot, i: nat, j: Knot, seen: set<Field>)
    requires i < |FIELDS| && !Writes(k, FIELDS[i]) && ReadsAll(k, i + 1, j, seen)
    ensures ReadsAll(k, i, j, seen)
  {
    hide LineOf, Writes, ReadLine, ReadUpTo;
    assert LinesFrom(k, i) == LinesFrom(k, i + 1);
  }

  lemma AllReadIsNormal(j: Knot, k: Knot)
    requires ReadUpTo(j, k, |FIELDS|)
    ensures j == Normal(k)
  {
    hide NormalDatum, Place;
    forall f ensures Get(j, f) == Get(Normal(k), f) { NormalGets(k, f); }
    KnotIsItsFields(j, Normal(k));
  }

  lemma NormalGets(k: Knot, f: Field)
    ensures Get(Normal(k), f) == NormalDatum(k, f)
  {
  }

  lemma BlankIsUnread(k: Knot)
    ensures ReadUpTo(Blank(k.slug, k.body), k, 0)
  {
  }

  // The whole file.

  lemma {:induction false} FrontFits(k: Knot, i: nat)
    requires i <= |FIELDS| && Check(k).None?
    ensures TextFits(FrontFrom(k, i))
    decreases |FIELDS| - i
  {
    hide Check, LineOf, Writes, Shaped;
    if i < |FIELDS| {
      FrontFits(k, i + 1);
      var line := if Writes(k, FIELDS[i]) then LineOf(k, FIELDS[i]) + "\n" else "";
      if Writes(k, FIELDS[i]) {
        CheckedIsShaped(k, FIELDS[i]);
        LineIsOne(k, FIELDS[i]);
        NewlineFits();
        TextAppend(LineOf(k, FIELDS[i]), "\n");
      }
      TextAppend(line, FrontFrom(k, i + 1));
    }
  }

  lemma NewlineFits()
    ensures TextFits("\n") && TextFits("") && TextFits(FENCE)
  {
    assert FENCE[1..] == "--\n" && "--\n"[1..] == "-\n" && "-\n"[1..] == "\n";
    assert TextFits("\n");
    assert TextFits("-\n");
    assert TextFits("--\n");
  }

  /** A file's text fits exactly when its body's does. */
  lemma RenderFits(k: Knot)
    requires Check(k).None?
    ensures TextFits(Render(k)) <==> TextFits(k.body)
  {
    hide Check, FrontFrom, TextFits;
    FrontFits(k, 0);
    NewlineFits();
    TextAppend(FENCE, FrontFrom(k, 0) + (FENCE + BodyText(k.body)));
    TextAppend(FrontFrom(k, 0), FENCE + BodyText(k.body));
    TextAppend(FENCE, BodyText(k.body));
    TextAppend("\n", k.body);
  }

  // Reading a knot in normal form changes nothing a rule reads.

  lemma SortedIsSame(list: seq<string>)
    ensures var sorted := Sorted(SetOf(list));
            && (forall item :: item in sorted <==> item in list)
            && |sorted| <= |list| && (sorted == [] <==> list == [])
  {
    SetIsSmaller(list);
    if list != [] { assert list[0] in SetOf(list); }
  }

  lemma {:induction false} SetIsSmaller(list: seq<string>)
    ensures |SetOf(list)| <= |list|
  {
    if list == [] {
      assert SetOf(list) == {};
    } else {
      SetIsSmaller(list[1..]);
      assert SetOf(list) == {list[0]} + SetOf(list[1..]);
    }
  }

  /** The knot's lists hold the same entries, and no more of them. */
  lemma NormalHolds(k: Knot)
    requires forall f: Field :: Holds(k, f) ==> Carries(f, k.typeName)
    ensures var j := Normal(k);
            && (forall item :: item in BlockedItems(j) <==> item in BlockedItems(k))
            && (forall item :: item in ChangeItems(j) <==> item in ChangeItems(k))
            && |BlockedItems(j)| <= |BlockedItems(k)| && |ChangeItems(j)| <= |ChangeItems(k)|
            && (IsWork(k.typeName) ==> j.blockedBy.Some?)
            && forall f: Field :: Holds(j, f) ==> Carries(f, k.typeName)
  {
    hide Sorted;
    SortedIsSame(BlockedItems(k));
    SortedIsSame(ChangeItems(k));
    var j := Normal(k);
    forall f: Field | Holds(j, f) ensures Carries(f, k.typeName) {
      if !IsList(f) { assert Get(j, f) == Get(k, f); }
      if IsList(f) && Items(Get(k, f)) != [] { assert Holds(k, f); }
      assert Holds(k, f) || IsList(f);
    }
  }

  lemma FieldsPass(k: Knot)
    requires Check(k).None?
    ensures forall f: Field :: Holds(k, f) ==> Carries(f, k.typeName)
  {
    hide CheckShapes, CheckLive, KnotLayout.IsLocalID, IsDate, Statuses, Holds, Carries;
  }

  lemma NormalShapesPass(k: Knot, j: Knot)
    requires j == Normal(k) && CheckShapes(k).None?
    requires forall item :: item in BlockedItems(j) <==> item in BlockedItems(k)
    requires forall item :: item in ChangeItems(j) <==> item in ChangeItems(k)
    ensures CheckShapes(j).None?
  {
    hide IsName, KnotLayout.IsLocalID, IsTimestamp, IsQualifiedID, IsReference, IsLink, BlockedItems, ChangeItems, NormalDatum;
  }

  lemma NormalLivePasses(k: Knot, j: Knot)
    requires j == Normal(k) && CheckLive(k).None?
    requires forall item :: item in BlockedItems(j) <==> item in BlockedItems(k)
    requires forall item :: item in ChangeItems(j) <==> item in ChangeItems(k)
    requires |BlockedItems(j)| <= |BlockedItems(k)| && |ChangeItems(j)| <= |ChangeItems(k)|
    ensures CheckLive(j).None?
  {
    hide IsLine, Less, BlockedItems, ChangeItems, NormalDatum;
  }

  lemma NormalPasses(k: Knot)
    requires Check(k).None?
    ensures Check(Normal(k)).None?
  {
    hide CheckShapes, CheckLive, KnotLayout.IsLocalID, IsDate, Statuses, Holds, Carries, BlockedItems, ChangeItems, NormalDatum;
    var j := Normal(k);
    FieldsPass(k);
    NormalHolds(k);
    HeadPasses(k);
    NormalShapesPass(k, j);
    NormalLivePasses(k, j);
  }

  lemma SortedTwice(list: seq<string>)
    ensures SetOf(Sorted(SetOf(list))) == SetOf(list)
  {
    hide Sorted;
    var s := Sorted(SetOf(list));
    assert forall item :: item in SetOf(s) <==> item in s;
  }

  lemma NormalWritesSame(k: Knot, f: Field)
    ensures Writes(Normal(k), f) <==> Writes(k, f)
    ensures Writes(k, f) ==> LineOf(Normal(k), f) == LineOf(k, f)
  {
    hide Sorted, Quote, Joined;
    SortedIsSame(BlockedItems(k));
    SortedIsSame(ChangeItems(k));
    SortedTwice(Items(Get(k, BlockedBy)));
    SortedTwice(Items(Get(k, Changes)));
  }

  lemma {:induction false} NormalFrontSame(k: Knot, i: nat)
    requires i <= |FIELDS|
    ensures FrontFrom(Normal(k), i) == FrontFrom(k, i)
    decreases |FIELDS| - i
  {
    hide Writes, LineOf, Normal;
    if i < |FIELDS| {
      NormalWritesSame(k, FIELDS[i]);
      NormalFrontSame(k, i + 1);
    }
  }

  /** Sorting a knot's lists changes no byte of its file. */
  lemma NormalRendersSame(k: Knot)
    ensures Render(Normal(k)) == Render(k)
  {
    hide FrontFrom;
    NormalFrontSame(k, 0);
  }

  // The inverse.

  /** A knot a file can hold: it keeps the rules about one knot, its body is in
      normal form and is text, and its file is within its limit. */
  ghost predicate Admissible(k: Knot) {
    Check(k).None? && IsNormal(k.body) && TextFits(k.body) && |Render(k)| <= MAX_KNOT_SIZE
  }

  lemma BodyIsRead(body: string)
    ensures ReadBody(BodyText(body)) == body
  {
    if body != "" { assert ("\n" + body)[1..] == body; }
  }

  /** What Render writes of an admissible knot reads as that knot, its lists in
      order and each entry once. */
  lemma RenderedReads(k: Knot)
    requires Admissible(k)
    ensures ParseKnot(k.slug, Render(k)) == Ok(Normal(k))
  {
    hide Check, IsNormal, TextFits, Render, Frontmatter, ReadLines, LinesFrom, Normal, NormalBody, ReadBody, BodyText, ReadUpTo, Blank;
    RenderFits(k);
    FrontIsRead(k);
    BodyIsRead(k.body);
    BlankIsUnread(k);
    LinesRead(k, 0, Blank(k.slug, k.body), {});
    AllReadIsNormal(ReadLines(Blank(k.slug, k.body), {}, LinesFrom(k, 0)).value, k);
    NormalPasses(k);
    NormalExactly(k.body);
    SameBody(k);
    NormalRendersSame(k);
  }

  lemma SameBody(k: Knot)
    ensures Normal(k).body == k.body && Normal(k).slug == k.slug
  {
  }

  lemma ReadIsAdmissible(slug: string, data: string)
    requires ParseKnot(slug, data).Ok?
    ensures var k := ParseKnot(slug, data).value;
            Admissible(k) && Render(k) == data && k.slug == slug && Normal(k) == k
  {
    hide Check, IsNormal, TextFits, Render, Frontmatter, ReadLines, NormalBody, ReadBody, Normal;
    var k := ParseKnot(slug, data).value;
    var (lines, rest) := Frontmatter(data).value;
    SlugIsKept(Blank(slug, ReadBody(rest)), {}, lines);
    NormalExactly(k.body);
    RenderFits(k);
    RenderedReads(k);
  }

  lemma {:induction false} SlugIsKept(k: Knot, seen: set<Field>, lines: seq<string>)
    requires ReadLines(k, seen, lines).Ok?
    ensures ReadLines(k, seen, lines).value.slug == k.slug
    decreases |lines|
  {
    hide CutLine, FieldNamed, ReadValue, Put;
    if lines != [] {
      var (j, f) := ReadLine(k, seen, lines[0]).value;
      var (key, value) := CutLine(lines[0]);
      PutSets(k, f, ReadValue(f, value).value);
      SlugIsKept(j, seen + {f}, lines[1..]);
    }
  }

  /** A file is read as a knot exactly when it is what Render writes of it, and
      the knot is admissible with its lists in order. */
  lemma ParsesExactly(slug: string, data: string, k: Knot)
    ensures ParseKnot(slug, data) == Ok(k) <==>
            Admissible(k) && Normal(k) == k && k.slug == slug && data == Render(k)
  {
    hide Admissible, ParseKnot, Render, Normal;
    if ParseKnot(slug, data) == Ok(k) { ReadIsAdmissible(slug, data); }
    if Admissible(k) && Normal(k) == k && k.slug == slug && data == Render(k) { RenderedReads(k); }
  }

  /** There is one way to write each knot: two admissible knots with one slug
      have one file exactly when they are one knot, lists apart. */
  lemma WrittenOneWay(j: Knot, k: Knot)
    requires Admissible(j) && Admissible(k) && j.slug == k.slug
    ensures Render(j) == Render(k) <==> Normal(j) == Normal(k)
  {
    hide Admissible, ParseKnot, Render, Normal;
    RenderedReads(j);
    RenderedReads(k);
    NormalRendersSame(j);
    NormalRendersSame(k);
  }
}
