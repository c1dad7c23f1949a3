/** The reader and the texts of values are inverse: it reads each text, under
    any white space and any escapes, as the value it says, and reads nothing
    else. */
module JsonInverse {
  import opened Wrappers
  import opened Decimal
  import opened JsonText
  import opened JsonParse
  import Utf8

  // Every text is read as what it says.

  /** A value's first byte says which kind of value it is. */
  lemma ValueOpens(t: Text, rest: string)
    requires Fits(t)
    ensures Print(t, rest) != "" && !IsSpace(Print(t, rest)[0]) && Print(t, rest)[0] != ']'
    ensures t.TObject? ==> Print(t, rest)[0] == '{'
    ensures t.TArray? ==> Print(t, rest)[0] == '['
    ensures t.TString? ==> Print(t, rest)[0] == '"'
    ensures t.TNumber? ==> Print(t, rest)[0] == '-' || IsDigit(Print(t, rest)[0])
    ensures t.TLiteral? ==> Print(t, rest)[0] in "tfn"
  {
    hide PiecesText, PrintMembers, PrintElements, PiecesFit, MembersFit, ElementsFit, FractionFits, ExponentFits, IsBlank;
    if t.TNumber? { assert IsDigit(t.whole[0]); }
  }

  lemma NotSkipped(s: string)
    requires s != "" && !IsSpace(s[0])
    ensures Skip(s) == s
  {
  }

  lemma DeepIsPositive(t: Text, n: nat)
    requires DeepAtMost(t, n)
    ensures n > 0
  {
  }

  lemma StringReads(t: Text, depth: nat, rest: string)
    requires t.TString? && Fits(t) && depth <= MAX_DEPTH
    ensures ReadValue(Print(t, rest), depth) == Some((ValueOf(t), rest))
  {
    hide ReadPieces, PiecesText, PiecesMean, PiecesFit;
    var s := Print(t, rest);
    assert s[1..] == PiecesText(t.pieces) + "\"" + rest;
    PiecesRead(t.pieces, rest, "");
    assert "" + PiecesMean(t.pieces) == PiecesMean(t.pieces);
  }

  lemma NumberValueReads(t: Text, depth: nat, rest: string)
    requires t.TNumber? && Fits(t) && depth <= MAX_DEPTH && Follows(rest)
    ensures ReadValue(Print(t, rest), depth) == Some((ValueOf(t), rest))
  {
    hide NumberAt, NumberFits, Follows;
    ValueOpens(t, rest);
    NumberReads(t.sign, t.whole, t.part, t.exponent, rest);
    NumberParts(t.sign, t.whole, t.part, t.exponent, rest);
  }

  lemma LiteralValueReads(t: Text, depth: nat, rest: string)
    requires t.TLiteral? && Fits(t) && depth <= MAX_DEPTH
    ensures ReadValue(Print(t, rest), depth) == Some((ValueOf(t), rest))
  {
    hide LiteralAt;
    LiteralReads(t.word, rest);
    assert (t.word + rest)[|t.word|..] == rest;
  }

  lemma KeyReads(before: string, key: seq<Piece>, afterKey: string, beforeValue: string, w: string)
    requires IsBlank(before) && PiecesFit(key) && IsBlank(afterKey) && IsBlank(beforeValue)
    ensures ReadKey(before + ("\"" + (PiecesText(key) + "\"" + (afterKey + (":" + (beforeValue + w))))))
         == Some((PiecesMean(key), Skip(w)))
  {
    hide ReadPieces, PiecesText, PiecesMean, PiecesFit, IsBlank, ReadKey;
    var d := beforeValue + w;
    var c := afterKey + (":" + d);
    var b := PiecesText(key) + "\"" + c;
    SkipBlank(before, "\"" + b);
    PiecesRead(key, c, "");
    assert "" + PiecesMean(key) == PiecesMean(key);
    SkipBlank(afterKey, ":" + d);
    SkipBlank(beforeValue, w);
    KeyEnds(before + ("\"" + b), b, PiecesMean(key), c, d);
  }

  lemma KeyEnds(s: string, b: string, key: string, c: string, d: string)
    requires Skip(s) == Skip("\"" + b)
    requires ReadPieces(b, "") == Some((key, c)) && Skip(c) == Skip(":" + d)
    ensures ReadKey(s) == Some((key, Skip(d)))
  {
    hide ReadPieces;
    assert ("\"" + b)[1..] == b && (":" + d)[1..] == d;
  }

  /** What comes after a member: the closing brace, or a comma and more. */
  function AfterMember(more: Members, rest: string): string {
    if more.NoMembers? then rest else "," + PrintMembers(more, rest)
  }

  function AfterElement(more: Elements, rest: string): string {
    if more.NoElements? then rest else "," + PrintElements(more, rest)
  }

  lemma BlankFollows(b: string, rest: string)
    requires IsBlank(b) && Follows(rest)
    ensures Follows(b + rest)
  {
    if b == "" { assert b + rest == rest; }
  }

  lemma AfterFollows(after: string, tail: string)
    requires IsBlank(after) && tail != "" && tail[0] in ",]}"
    ensures Follows(after + tail) && Skip(after + tail) == tail
  {
    BlankFollows(after, tail);
    SkipBlank(after, tail);
  }

  /** One member is read, up to what comes after it. */
  lemma MemberReads(ms: Members, rest: string)
    requires ms.Member? && MembersFit(ms)
    ensures ReadKey(PrintMembers(ms, rest))
         == Some((PiecesMean(ms.key), Print(ms.value, ms.after + AfterMember(ms.more, rest))))
  {
    hide ReadKey, PiecesText, PiecesMean, PiecesFit, Print, Fits, KeysOf, IsBlank;
    var w := Print(ms.value, ms.after + AfterMember(ms.more, rest));
    KeyReads(ms.before, ms.key, ms.afterKey, ms.beforeValue, w);
    ValueOpens(ms.value, ms.after + AfterMember(ms.more, rest));
    NotSkipped(w);
  }

  lemma ElementReads(es: Elements, rest: string)
    requires es.Element? && ElementsFit(es)
    ensures Skip(PrintElements(es, rest)) == Print(es.value, es.after + AfterElement(es.more, rest))
  {
    hide Print, Fits, IsBlank;
    var w := Print(es.value, es.after + AfterElement(es.more, rest));
    SkipBlank(es.before, w);
    ValueOpens(es.value, es.after + AfterElement(es.more, rest));
    NotSkipped(w);
  }

  /** The reader reads a text as the value it says, and stops where it ends. */
  lemma {:induction false} ValueReads(t: Text, depth: nat, rest: string)
    requires Fits(t) && depth <= MAX_DEPTH && DeepAtMost(t, MAX_DEPTH + 1 - depth) && Follows(rest)
    ensures ReadValue(Print(t, rest), depth) == Some((ValueOf(t), rest))
    decreases t, 1
  {
    hide ReadValue, Print, ValueOf, Fits, Follows;
    if t.TString? {
      StringReads(t, depth, rest);
    } else if t.TNumber? {
      NumberValueReads(t, depth, rest);
    } else if t.TLiteral? {
      LiteralValueReads(t, depth, rest);
    } else if t.TObject? {
      ObjectReads(t, depth, rest);
    } else {
      ArrayReads(t, depth, rest);
    }
  }

  lemma ObjectReads(t: Text, depth: nat, rest: string)
    requires t.TObject? && Fits(t) && depth <= MAX_DEPTH && DeepAtMost(t, MAX_DEPTH + 1 - depth)
    ensures ReadValue(Print(t, rest), depth) == Some((ValueOf(t), rest))
    decreases t, 0
  {
    hide ReadMembers, ReadElements, ReadPieces, PrintMembers, MembersFit, MembersDeep, IsBlank, KeysOf, FieldsOf;
    var s := Print(t, rest);
    if t.members.NoMembers? {
      assert s[1..] == t.inside + ("}" + rest);
      SkipBlank(t.inside, "}" + rest);
      assert ("}" + rest)[1..] == rest;
      NoKeys();
    } else {
      var u := PrintMembers(t.members, "}" + rest);
      assert s[1..] == u;
      MembersOpen(t.members, "}" + rest, depth);
      MembersRead(t.members, depth, rest, [], map[]);
      assert [] + KeysOf(t.members) == KeysOf(t.members);
      assert map[] + FieldsOf(t.members) == FieldsOf(t.members);
    }
  }

  lemma NoKeys()
    ensures KeysOf(NoMembers) == [] && FieldsOf(NoMembers) == map[] && ItemsOf(NoElements) == []
  {
  }

  lemma SkippedKey(s: string)
    ensures ReadKey(Skip(s)) == ReadKey(s)
  {
    SkippedIsSkipped(s);
  }

  /** White space before a first member is read either way. */
  lemma MembersOpen(ms: Members, rest: string, depth: nat)
    requires ms.Member? && MembersFit(ms)
    ensures var t := Skip(PrintMembers(ms, rest));
            && t != "" && t[0] == '"'
            && ReadMembers(t, depth, [], map[]) == ReadMembers(PrintMembers(ms, rest), depth, [], map[])
  {
    hide PiecesText, Print, Fits, KeysOf, IsBlank, ReadKey, ReadValue;
    var w := ms.beforeValue + Print(ms.value, ms.after + AfterMember(ms.more, rest));
    SkipBlank(ms.before, "\"" + (PiecesText(ms.key) + "\"" + (ms.afterKey + (":" + w))));
    SkippedKey(PrintMembers(ms, rest));
  }

  lemma {:induction false} MembersRead(ms: Members, depth: nat, rest: string, keys: seq<string>, fields: map<string, Value>)
    requires ms.Member? && MembersFit(ms) && depth <= MAX_DEPTH && MembersDeep(ms, MAX_DEPTH - depth)
    requires forall k :: k in KeysOf(ms) ==> k !in fields
    ensures ReadMembers(PrintMembers(ms, "}" + rest), depth, keys, fields)
         == Some((Object(keys + KeysOf(ms), fields + FieldsOf(ms)), rest))
    decreases ms
  {
    hide ReadKey, ReadValue, Print, PrintMembers, Fits, Follows, PiecesMean, PiecesFit, IsBlank, ValueOf, DeepAtMost, KeysOf, FieldsOf;
    var key, v := PiecesMean(ms.key), ValueOf(ms.value);
    var tail := AfterMember(ms.more, "}" + rest);
    MemberReads(ms, "}" + rest);
    AfterFollows(ms.after, tail);
    DeepIsPositive(ms.value, MAX_DEPTH - depth);
    ValueReads(ms.value, depth + 1, ms.after + tail);
    MembersGrow(ms, keys, fields);
    if ms.more.NoMembers? {
      assert tail[1..] == rest;
    } else {
      assert tail[1..] == PrintMembers(ms.more, "}" + rest);
      MembersRead(ms.more, depth, rest, keys + [key], fields[key := v]);
    }
  }

  /** The keys and fields read so far and those to come are the members'. */
  lemma MembersGrow(ms: Members, keys: seq<string>, fields: map<string, Value>)
    requires ms.Member? && MembersFit(ms)
    ensures var key, v := PiecesMean(ms.key), ValueOf(ms.value);
            && key in KeysOf(ms)
            && (forall k :: k in KeysOf(ms.more) ==> k in KeysOf(ms) && k != key)
            && keys + [key] + KeysOf(ms.more) == keys + KeysOf(ms)
            && fields[key := v] + FieldsOf(ms.more) == fields + FieldsOf(ms)
            && (ms.more.NoMembers? ==> keys + [key] == keys + KeysOf(ms) && fields[key := v] == fields + FieldsOf(ms))
  {
    hide Fits, PiecesMean, PiecesFit, IsBlank, ValueOf;
    FieldsAreKeys(ms.more);
    NoKeys();
    assert KeysOf(ms) == [PiecesMean(ms.key)] + KeysOf(ms.more);
  }

  lemma {:induction false} FieldsAreKeys(ms: Members)
    requires MembersFit(ms)
    ensures forall k :: k in FieldsOf(ms) <==> k in KeysOf(ms)
  {
    hide Fits, PiecesMean, PiecesFit, IsBlank, ValueOf;
    if ms.Member? { FieldsAreKeys(ms.more); }
  }

  lemma ArrayReads(t: Text, depth: nat, rest: string)
    requires t.TArray? && Fits(t) && depth <= MAX_DEPTH && DeepAtMost(t, MAX_DEPTH + 1 - depth)
    ensures ReadValue(Print(t, rest), depth) == Some((ValueOf(t), rest))
    decreases t, 0
  {
    hide ReadMembers, ReadElements, ReadPieces, PrintElements, ElementsFit, ElementsDeep, IsBlank, ItemsOf;
    var s := Print(t, rest);
    if t.elements.NoElements? {
      assert s[1..] == t.inside + ("]" + rest);
      SkipBlank(t.inside, "]" + rest);
      assert ("]" + rest)[1..] == rest;
      NoKeys();
    } else {
      assert s[1..] == PrintElements(t.elements, "]" + rest);
      ElementsOpen(t.elements, "]" + rest, depth);
      ElementsRead(t.elements, depth, rest, []);
      assert [] + ItemsOf(t.elements) == ItemsOf(t.elements);
    }
  }

  lemma ElementsOpen(es: Elements, rest: string, depth: nat)
    requires es.Element? && ElementsFit(es)
    ensures var t := Skip(PrintElements(es, rest));
            && t != "" && t[0] != ']'
            && ReadElements(t, depth, []) == ReadElements(PrintElements(es, rest), depth, [])
  {
    hide PrintElements, Print, Fits, IsBlank, ReadValue;
    var w := Print(es.value, es.after + AfterElement(es.more, rest));
    ElementReads(es, rest);
    ValueOpens(es.value, es.after + AfterElement(es.more, rest));
    NotSkipped(w);
  }

  lemma {:induction false} ElementsRead(es: Elements, depth: nat, rest: string, items: seq<Value>)
    requires es.Element? && ElementsFit(es) && depth <= MAX_DEPTH && ElementsDeep(es, MAX_DEPTH - depth)
    ensures ReadElements(PrintElements(es, "]" + rest), depth, items) == Some((Array(items + ItemsOf(es)), rest))
    decreases es
  {
    hide ReadValue, Print, PrintElements, Fits, Follows, IsBlank, ValueOf, DeepAtMost;
    var tail := AfterElement(es.more, "]" + rest);
    ElementReads(es, "]" + rest);
    AfterFollows(es.after, tail);
    DeepIsPositive(es.value, MAX_DEPTH - depth);
    ValueReads(es.value, depth + 1, es.after + tail);
    assert items + [ValueOf(es.value)] + ItemsOf(es.more) == items + ItemsOf(es);
    if es.more.NoElements? {
      NoKeys();
      assert items + [ValueOf(es.value)] == items + ItemsOf(es);
      assert tail[1..] == rest;
    } else {
      assert tail[1..] == PrintElements(es.more, "]" + rest);
      ElementsRead(es.more, depth, rest, items + [ValueOf(es.value)]);
    }
  }

  // Nothing else is read.

  lemma KeyWritten(s: string) returns (before: string, key: seq<Piece>, afterKey: string, beforeValue: string)
    requires ReadKey(s).Some?
    ensures IsBlank(before) && PiecesFit(key) && IsBlank(afterKey) && IsBlank(beforeValue)
    ensures ReadKey(s).value.0 == PiecesMean(key)
    ensures s == before + ("\"" + (PiecesText(key) + "\"" + (afterKey + (":" + (beforeValue + ReadKey(s).value.1)))))
  {
    hide ReadPieces, PiecesText, PiecesMean, PiecesFit, IsBlank, Skip;
    before := SkipWritten(s);
    var t := Skip(s);
    key := PiecesWritten(t[1..], "");
    assert t == "\"" + t[1..] && "" + PiecesMean(key) == PiecesMean(key);
    var c := ReadPieces(t[1..], "").value.1;
    afterKey := SkipWritten(c);
    var u := Skip(c);
    assert u == ":" + u[1..];
    beforeValue := SkipWritten(u[1..]);
  }

  /** What the reader reads as a value is the text of that value. */
  lemma {:induction false} ValueWritten(s: string, depth: nat) returns (t: Text)
    requires ReadValue(s, depth).Some?
    ensures Fits(t) && depth <= MAX_DEPTH && DeepAtMost(t, MAX_DEPTH + 1 - depth)
    ensures ValueOf(t) == ReadValue(s, depth).value.0
    ensures s == Print(t, ReadValue(s, depth).value.1)
    decreases |s|, 1
  {
    hide ReadMembers, ReadElements, ReadPieces, PiecesText, PiecesMean, PiecesFit, NumberAt, LiteralAt, NumberFits,
      KeysOf, FieldsOf, ItemsOf, MembersFit, ElementsFit, PrintMembers, PrintElements, Skip;
    if s[0] == '{' {
      t := ObjectWritten(s, depth);
    } else if s[0] == '[' {
      t := ArrayWritten(s, depth);
    } else if s[0] == '"' {
      var ps := PiecesWritten(s[1..], "");
      t := TString(ps);
      assert "" + PiecesMean(ps) == PiecesMean(ps) && s == "\"" + s[1..];
    } else if s[0] == '-' || IsDigit(s[0]) {
      t := NumberWritten(s);
    } else {
      t := TLiteral(LiteralAt(s));
      assert s == LiteralAt(s) + s[|LiteralAt(s)|..];
    }
  }

  lemma ObjectWritten(s: string, depth: nat) returns (t: Text)
    requires ReadValue(s, depth).Some? && s[0] == '{'
    ensures Fits(t) && depth <= MAX_DEPTH && DeepAtMost(t, MAX_DEPTH + 1 - depth)
    ensures ValueOf(t) == ReadValue(s, depth).value.0
    ensures s == Print(t, ReadValue(s, depth).value.1)
    decreases |s|, 0
  {
    hide ReadMembers, ReadElements, KeysOf, FieldsOf, ItemsOf, MembersFit, PrintMembers, MembersDeep, Skip, IsBlank;
    var u := Skip(s[1..]);
    var b := SkipWritten(s[1..]);
    assert s == "{" + s[1..];
    if u != "" && u[0] == '}' {
      t := TObject(b, NoMembers);
      assert u == "}" + u[1..];
      NoKeys();
      EmptyFits();
    } else {
      var ms := MembersWritten(u, depth, [], map[]);
      assert [] + KeysOf(ms) == KeysOf(ms) && map[] + FieldsOf(ms) == FieldsOf(ms);
      var more := MembersIndented(b, ms, "}" + ReadValue(s, depth).value.1, MAX_DEPTH - depth);
      EmptyFits();
      t := TObject("", more);
    }
  }

  lemma EmptyFits()
    ensures MembersFit(NoMembers) && ElementsFit(NoElements) && IsBlank("")
    ensures forall n: nat :: MembersDeep(NoMembers, n) && ElementsDeep(NoElements, n)
  {
  }

  /** White space before a first member is that member's. */
  lemma MembersIndented(b: string, ms: Members, rest: string, n: nat) returns (more: Members)
    requires IsBlank(b) && ms.Member? && MembersFit(ms) && MembersDeep(ms, n)
    ensures more.Member? && MembersFit(more) && MembersDeep(more, n)
    ensures PrintMembers(more, rest) == b + PrintMembers(ms, rest)
    ensures KeysOf(more) == KeysOf(ms) && FieldsOf(more) == FieldsOf(ms)
  {
    hide Fits, PiecesFit, PiecesMean, PiecesText, Print, DeepAtMost, ValueOf;
    more := ms.(before := b + ms.before);
  }

  lemma ElementsIndented(b: string, es: Elements, rest: string, n: nat) returns (more: Elements)
    requires IsBlank(b) && es.Element? && ElementsFit(es) && ElementsDeep(es, n)
    ensures more.Element? && ElementsFit(more) && ElementsDeep(more, n)
    ensures PrintElements(more, rest) == b + PrintElements(es, rest)
    ensures ItemsOf(more) == ItemsOf(es)
  {
    hide Fits, Print, DeepAtMost, ValueOf;
    more := es.(before := b + es.before);
  }

  lemma {:induction false} MembersWritten(s: string, depth: nat, keys: seq<string>, fields: map<string, Value>) returns (ms: Members)
    requires ReadMembers(s, depth, keys, fields).Some? && depth <= MAX_DEPTH
    ensures ms.Member? && MembersFit(ms) && MembersDeep(ms, MAX_DEPTH - depth)
    ensures forall k :: k in KeysOf(ms) ==> k !in fields
    ensures var r := ReadMembers(s, depth, keys, fields).value;
            r.0 == Object(keys + KeysOf(ms), fields + FieldsOf(ms)) && s == PrintMembers(ms, "}" + r.1)
    decreases |s|, 2
  {
    hide ReadKey, ReadValue, Skip, PiecesText, PiecesMean, PiecesFit, Print, Fits, ValueOf, DeepAtMost, IsBlank, KeysOf, FieldsOf;
    var before, k, afterKey, beforeValue := KeyWritten(s);
    var (key, w) := ReadKey(s).value;
    var v := ValueWritten(w, depth + 1);
    var after := SkipWritten(ReadValue(w, depth + 1).value.1);
    var u := Skip(ReadValue(w, depth + 1).value.1);
    assert u == [u[0]] + u[1..];
    var more := NoMembers;
    if u[0] == ',' {
      more := MembersWritten(u[1..], depth, keys + [key], fields[key := ValueOf(v)]);
    } else {
      EmptyFits();
      NoKeys();
    }
    ms := Member(before, k, afterKey, beforeValue, v, after, more);
    assert MembersFit(ms);
    MembersGrow(ms, keys, fields);
    KeysAre(ms);
  }

  lemma KeysAre(ms: Members)
    requires ms.Member? && MembersFit(ms)
    ensures forall k :: k in KeysOf(ms) ==> k == PiecesMean(ms.key) || k in KeysOf(ms.more)
  {
    hide Fits, PiecesMean, PiecesFit;
  }

  lemma ArrayWritten(s: string, depth: nat) returns (t: Text)
    requires ReadValue(s, depth).Some? && s[0] == '['
    ensures Fits(t) && depth <= MAX_DEPTH && DeepAtMost(t, MAX_DEPTH + 1 - depth)
    ensures ValueOf(t) == ReadValue(s, depth).value.0
    ensures s == Print(t, ReadValue(s, depth).value.1)
    decreases |s|, 0
  {
    hide ReadMembers, ReadElements, KeysOf, FieldsOf, ItemsOf, ElementsFit, PrintElements, ElementsDeep, Skip, IsBlank;
    var u := Skip(s[1..]);
    var b := SkipWritten(s[1..]);
    assert s == "[" + s[1..];
    if u != "" && u[0] == ']' {
      t := TArray(b, NoElements);
      assert u == "]" + u[1..];
      NoKeys();
      EmptyFits();
    } else {
      var es := ElementsWritten(u, depth, []);
      assert [] + ItemsOf(es) == ItemsOf(es);
      var more := ElementsIndented(b, es, "]" + ReadValue(s, depth).value.1, MAX_DEPTH - depth);
      EmptyFits();
      t := TArray("", more);
    }
  }

  lemma {:induction false} ElementsWritten(s: string, depth: nat, items: seq<Value>) returns (es: Elements)
    requires ReadElements(s, depth, items).Some? && depth <= MAX_DEPTH
    ensures es.Element? && ElementsFit(es) && ElementsDeep(es, MAX_DEPTH - depth)
    ensures var r := ReadElements(s, depth, items).value;
            r.0 == Array(items + ItemsOf(es)) && s == PrintElements(es, "]" + r.1)
    decreases |s|, 2
  {
    hide ReadValue, Skip, Print, Fits, ValueOf, DeepAtMost, IsBlank;
    var before := SkipWritten(s);
    var w := Skip(s);
    var v := ValueWritten(w, depth + 1);
    var after := SkipWritten(ReadValue(w, depth + 1).value.1);
    var u := Skip(ReadValue(w, depth + 1).value.1);
    assert u == [u[0]] + u[1..];
    var more := NoElements;
    if u[0] == ',' {
      more := ElementsWritten(u[1..], depth, items + [ValueOf(v)]);
    } else {
      EmptyFits();
      NoKeys();
    }
    es := Element(before, v, after, more);
    assert items + [ValueOf(v)] + ItemsOf(more) == items + ItemsOf(es);
    assert items + [ValueOf(v)] == items + [ValueOf(v)] + [];
  }

  // The whole reader.

  /** A whole record's value: blanks, a value, blanks, and the end. */
  function ReadJSON(data: string): Option<Value> {
    if !Utf8.Valid(data) then None
    else match ReadValue(Skip(data), 1)
      case None => None
      case Some((v, rest)) => if Skip(rest) == "" then Some(v) else None
  }

  ghost predicate Writes(data: string, before: string, t: Text, after: string) {
    && IsBlank(before) && Fits(t) && DeepAtMost(t, MAX_DEPTH) && IsBlank(after)
    && data == before + Print(t, after)
  }

  /** A record is read as a value exactly when it is valid UTF-8 and a text of
      that value: with no key twice in an object, at most MAX_DEPTH deep, and
      under whatever white space and escapes. */
  lemma ReadsExactly(data: string, v: Value)
    ensures ReadJSON(data) == Some(v) <==>
            Utf8.Valid(data) && exists before, t, after :: Writes(data, before, t, after) && ValueOf(t) == v
  {
    if ReadJSON(data) == Some(v) {
      var before, t, after := RecordWritten(data);
      assert Writes(data, before, t, after);
    }
    if Utf8.Valid(data) && exists before, t, after :: Writes(data, before, t, after) && ValueOf(t) == v {
      var before, t, after :| Writes(data, before, t, after) && ValueOf(t) == v;
      RecordReads(data, before, t, after);
    }
  }

  lemma RecordReads(data: string, before: string, t: Text, after: string)
    requires Utf8.Valid(data) && Writes(data, before, t, after)
    ensures ReadJSON(data) == Some(ValueOf(t))
  {
    hide ReadValue, Print, Fits, DeepAtMost, ValueOf, Utf8.Valid;
    SkipBlank(before, Print(t, after));
    ValueOpens(t, after);
    NotSkipped(Print(t, after));
    ValueReads(t, 1, after);
    SkipBlank(after, "");
    assert after + "" == after;
  }

  lemma RecordWritten(data: string) returns (before: string, t: Text, after: string)
    requires ReadJSON(data).Some?
    ensures Writes(data, before, t, after) && ValueOf(t) == ReadJSON(data).value
  {
    hide ReadValue, Print, Fits, DeepAtMost, ValueOf, Utf8.Valid, Skip;
    before := SkipWritten(data);
    t := ValueWritten(Skip(data), 1);
    var rest := ReadValue(Skip(data), 1).value.1;
    after := SkipWritten(rest);
    assert after + "" == after;
  }
}
