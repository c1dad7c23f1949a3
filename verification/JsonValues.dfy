/** Which values a record can hold: exactly those the reader can return. */
module JsonValues {
  import opened Wrappers
  import opened Decimal
  import opened JsonText
  import opened JsonParse
  import opened JsonInverse
  import opened Utf8

  /** Names each key of an object once, at every depth, in valid UTF-8. */
  ghost predicate Sound(v: Value) {
    match v
    case Object(keys, fields) =>
      && (forall i, j :: 0 <= i < j < |keys| ==> keys[i] != keys[j])
      && (forall k :: k in keys <==> k in fields)
      && (forall k :: k in fields ==> Valid(k) && Sound(fields[k]))
    case Array(items) => forall i :: 0 <= i < |items| ==> Sound(items[i])
    case String(content) => Valid(content)
    case Number(text) => NumberAt(text) == Some(|text|)
    case Literal(text) => text == "true" || text == "false" || text == "null"
  }

  ghost predicate NestsWithin(v: Value, n: nat) {
    && n > 0
    && match v
       case Object(_, fields) => forall k :: k in fields ==> NestsWithin(fields[k], n - 1)
       case Array(items) => forall i :: 0 <= i < |items| ==> NestsWithin(items[i], n - 1)
       case _ => true
  }

  // What is read is sound.

  lemma AsciiBefore(a: string, rest: string)
    requires IsAscii(a)
    ensures Valid(a + rest) <==> Valid(rest)
  {
    AsciiIsValid(a);
    ValidAppend(a, rest);
  }

  lemma BlankBefore(b: string, rest: string)
    requires IsBlank(b)
    ensures Valid(b + rest) <==> Valid(rest)
  {
    AsciiBefore(b, rest);
  }

  lemma RuneBytesValid(n: nat)
    requires n < 0x110000 && !IsHigh(n) && !IsLow(n)
    ensures Valid(RuneBytes(n))
  {
    hide RuneBytes, RuneLength;
    var s := RuneBytes(n);
    RuneBytesLength(n);
    assert s[|s|..] == "";
  }

  lemma RuneBytesLength(n: nat)
    requires n < 0x110000 && !IsHigh(n) && !IsLow(n)
    ensures RuneLength(RuneBytes(n)) == |RuneBytes(n)|
  {
    var s := RuneBytes(n);
    if n < 0x80 {
    } else if n < 0x800 {
      assert In(s[0], 0xC2, 0xDF) && In(s[1], 0x80, 0xBF);
    } else if n < 0x10000 {
      ThreeBytes(n);
    } else {
      FourBytes(n);
    }
  }

  lemma ThreeBytes(n: nat)
    requires 0x800 <= n < 0x10000 && !IsHigh(n) && !IsLow(n)
    ensures RuneLength(RuneBytes(n)) == |RuneBytes(n)|
  {
    var s := RuneBytes(n);
    assert In(s[2], 0x80, 0xBF) && In(s[1], 0x80, 0xBF);
    assert s[0] as nat == 0xE0 ==> In(s[1], 0xA0, 0xBF);
    assert s[0] as nat == 0xED ==> In(s[1], 0x80, 0x9F);
  }

  lemma FourBytes(n: nat)
    requires 0x10000 <= n < 0x110000
    ensures RuneLength(RuneBytes(n)) == |RuneBytes(n)|
  {
    var s := RuneBytes(n);
    assert In(s[3], 0x80, 0xBF) && In(s[2], 0x80, 0xBF) && In(s[1], 0x80, 0xBF);
    assert s[0] as nat == 0xF0 ==> In(s[1], 0x90, 0xBF);
    assert s[0] as nat == 0xF4 ==> In(s[1], 0x80, 0x8F);
  }

  /** A piece that is no byte above ASCII is written in ASCII, and means a
      whole character. */
  lemma PieceIsAscii(p: Piece)
    requires PieceFits(p) && (p.Plain? ==> p.c as nat < 0x80)
    ensures IsAscii(PieceText(p)) && Valid(PieceMeans(p))
  {
    hide RuneBytes, Hex4, Pair;
    match p
    case Plain(c) => AsciiIsValid([c]);
    case Short(c) => AsciiIsValid([Escaped(c).value]);
    case Unit(hex) => RuneBytesValid(Hex4(hex));
    case Surrogates(high, low) => RuneBytesValid(Pair(Hex4(high), Hex4(low)));
  }

  lemma NoPieces(rest: string)
    ensures (PiecesText([]) + "\"" + rest)[0] == '"'
  {
  }

  lemma PlainFirst(ps: seq<Piece>, rest: string)
    requires PiecesFit(ps) && (PiecesText(ps) + "\"" + rest)[0] as nat >= 0x80
    ensures var s := PiecesText(ps) + "\"" + rest;
            && ps != [] && ps[0] == Plain(s[0])
            && s == [s[0]] + (PiecesText(ps[1..]) + "\"" + rest)
            && PiecesMean(ps) == [s[0]] + PiecesMean(ps[1..])
  {
    var s := PiecesText(ps) + "\"" + rest;
    NoPieces(rest);
    var t := PiecesText(ps[1..]) + "\"" + rest;
    assert s == PieceText(ps[0]) + t;
    assert s[0] == PieceText(ps[0])[0];
  }

  /** Bytes above ASCII in a string's text are pieces as they are. */
  lemma {:induction false} PlainRun(ps: seq<Piece>, rest: string, n: nat)
    requires PiecesFit(ps) && n <= |PiecesText(ps) + "\"" + rest|
    requires forall i :: 0 <= i < n ==> (PiecesText(ps) + "\"" + rest)[i] as nat >= 0x80
    ensures n <= |ps|
    ensures var s := PiecesText(ps) + "\"" + rest;
            && s[n..] == PiecesText(ps[n..]) + "\"" + rest
            && PiecesMean(ps) == s[..n] + PiecesMean(ps[n..])
  {
    hide PiecesText, PiecesMean, PieceFits;
    var s := PiecesText(ps) + "\"" + rest;
    if n == 0 {
      assert ps[0..] == ps && s[0..] == s && s[..0] + PiecesMean(ps) == PiecesMean(ps);
    } else {
      PlainFirst(ps, rest);
      var t := PiecesText(ps[1..]) + "\"" + rest;
      forall i | 0 <= i < n - 1 ensures t[i] as nat >= 0x80 { assert t[i] == s[i + 1]; }
      PlainRun(ps[1..], rest, n - 1);
      assert ps[1..][n - 1..] == ps[n..];
      assert s[n..] == t[n - 1..];
      assert s[..n] == [s[0]] + t[..n - 1];
    }
  }

  /** In valid text a string's bytes are whole characters, and so is what it
      says. */
  lemma {:induction false} PiecesAreValid(ps: seq<Piece>, rest: string)
    requires PiecesFit(ps) && Valid(PiecesText(ps) + "\"" + rest)
    ensures Valid(PiecesMean(ps)) && Valid(rest)
    decreases |ps|
  {
    hide RuneLength, PieceText, PieceMeans, PieceFits;
    var s := PiecesText(ps) + "\"" + rest;
    if ps == [] {
      assert s == "\"" + rest;
      AsciiBefore("\"", rest);
    } else if ps[0].Plain? && ps[0].c as nat >= 0x80 {
      CharacterIsValid(ps, rest);
      var n := RuneLength(s);
      PiecesAreValid(ps[n..], rest);
      ValidAppend(s[..n], PiecesMean(ps[n..]));
    } else {
      var t := PiecesText(ps[1..]) + "\"" + rest;
      assert s == PieceText(ps[0]) + t;
      PieceIsAscii(ps[0]);
      AsciiBefore(PieceText(ps[0]), t);
      PiecesAreValid(ps[1..], rest);
      ValidAppend(PieceMeans(ps[0]), PiecesMean(ps[1..]));
    }
  }

  lemma CharacterIsValid(ps: seq<Piece>, rest: string)
    requires PiecesFit(ps) && Valid(PiecesText(ps) + "\"" + rest)
    requires ps != [] && ps[0].Plain? && ps[0].c as nat >= 0x80
    ensures var s := PiecesText(ps) + "\"" + rest;
            var n := RuneLength(s);
            && 0 < n <= |ps| && Valid(s[..n])
            && Valid(PiecesText(ps[n..]) + "\"" + rest)
            && PiecesMean(ps) == s[..n] + PiecesMean(ps[n..])
  {
    hide RuneLength, PiecesFit;
    var s := PiecesText(ps) + "\"" + rest;
    assert s[0] == ps[0].c;
    RuneIsValid(s);
    PlainRun(ps, rest, RuneLength(s));
  }

  lemma StringIsSound(ps: seq<Piece>, rest: string)
    requires PiecesFit(ps) && Valid("\"" + (PiecesText(ps) + "\"" + rest))
    ensures Valid(PiecesMean(ps)) && Valid(rest)
  {
    AsciiBefore("\"", PiecesText(ps) + "\"" + rest);
    PiecesAreValid(ps, rest);
  }

  /** A text's value is sound where the text is valid UTF-8, and nests no deeper
      than the text. */
  lemma {:induction false} PrintedIsSound(t: Text, rest: string, n: nat)
    requires Fits(t) && DeepAtMost(t, n) && Valid(Print(t, rest))
    ensures Sound(ValueOf(t)) && NestsWithin(ValueOf(t), n) && Valid(rest)
    decreases t
  {
    hide Valid, PiecesFit, PiecesText, PiecesMean, NumberAt, NumberFits, PrintMembers, PrintElements, MembersFit, ElementsFit, IsBlank,
      MembersDeep, ElementsDeep;
    if t.TString? {
      StringIsSound(t.pieces, rest);
    } else if t.TNumber? {
      NumberIsSound(t, rest);
    } else if t.TLiteral? {
      AsciiBefore(t.word, rest);
    } else if t.TObject? {
      if t.members.NoMembers? {
        NoKeys();
        AsciiBefore("{", t.inside + ("}" + rest));
        BlankBefore(t.inside, "}" + rest);
      } else {
        AsciiBefore("{", PrintMembers(t.members, "}" + rest));
        MembersAreSound(t.members, "}" + rest, n - 1);
      }
      AsciiBefore("}", rest);
    } else {
      if t.elements.NoElements? {
        NoKeys();
        AsciiBefore("[", t.inside + ("]" + rest));
        BlankBefore(t.inside, "]" + rest);
      } else {
        AsciiBefore("[", PrintElements(t.elements, "]" + rest));
        ElementsAreSound(t.elements, "]" + rest, n - 1);
      }
      AsciiBefore("]", rest);
    }
  }

  lemma NumberIsSound(t: Text, rest: string)
    requires t.TNumber? && Fits(t)
    ensures Sound(ValueOf(t)) && (Valid(Print(t, rest)) <==> Valid(rest))
  {
    hide NumberAt, Valid;
    var n := t.sign + t.whole + t.part + t.exponent;
    NumberReads(t.sign, t.whole, t.part, t.exponent, "");
    NumberParts(t.sign, t.whole, t.part, t.exponent, "");
    NumberParts(t.sign, t.whole, t.part, t.exponent, rest);
    assert t.sign + (t.whole + (t.part + (t.exponent + ""))) == n;
    assert Print(t, rest) == n + rest;
    AsciiBefore(n, rest);
  }

  /** Fields that are sound, nest within n and are named in valid UTF-8. */
  ghost predicate FieldsSound(fields: map<string, Value>, n: nat) {
    forall k :: k in fields ==> Valid(k) && Sound(fields[k]) && NestsWithin(fields[k], n)
  }

  lemma {:induction false} MembersAreSound(ms: Members, rest: string, n: nat)
    requires MembersFit(ms) && MembersDeep(ms, n) && Valid(PrintMembers(ms, rest))
    ensures FieldsSound(FieldsOf(ms), n) && Valid(rest)
    ensures forall i, j :: 0 <= i < j < |KeysOf(ms)| ==> KeysOf(ms)[i] != KeysOf(ms)[j]
    ensures forall k :: k in KeysOf(ms) <==> k in FieldsOf(ms)
    decreases ms
  {
    hide Valid, PiecesFit, PiecesText, PiecesMean, Print, Fits, ValueOf, DeepAtMost, IsBlank, Sound, NestsWithin;
    FieldsAreKeys(ms);
    if ms.Member? {
      var tail := AfterMember(ms.more, rest);
      MemberIsSound(ms, rest);
      PrintedIsSound(ms.value, ms.after + tail, n);
      BlankBefore(ms.after, tail);
      if ms.more.Member? { AsciiBefore(",", PrintMembers(ms.more, rest)); }
      MembersAreSound(ms.more, rest, n);
    }
  }

  lemma MemberIsSound(ms: Members, rest: string)
    requires ms.Member? && MembersFit(ms) && Valid(PrintMembers(ms, rest))
    ensures Valid(PiecesMean(ms.key)) && Valid(Print(ms.value, ms.after + AfterMember(ms.more, rest)))
  {
    hide Valid, PiecesFit, PiecesText, PiecesMean, Print, Fits, IsBlank;
    var w := Print(ms.value, ms.after + AfterMember(ms.more, rest));
    var c := ms.afterKey + (":" + (ms.beforeValue + w));
    BlankBefore(ms.before, "\"" + (PiecesText(ms.key) + "\"" + c));
    StringIsSound(ms.key, c);
    BlankBefore(ms.afterKey, ":" + (ms.beforeValue + w));
    AsciiBefore(":", ms.beforeValue + w);
    BlankBefore(ms.beforeValue, w);
  }

  lemma {:induction false} ElementsAreSound(es: Elements, rest: string, n: nat)
    requires ElementsFit(es) && ElementsDeep(es, n) && Valid(PrintElements(es, rest))
    ensures forall i :: 0 <= i < |ItemsOf(es)| ==> Sound(ItemsOf(es)[i]) && NestsWithin(ItemsOf(es)[i], n)
    ensures Valid(rest)
    decreases es
  {
    hide Valid, Print, Fits, ValueOf, DeepAtMost, IsBlank, Sound, NestsWithin;
    if es.Element? {
      var tail := AfterElement(es.more, rest);
      BlankBefore(es.before, Print(es.value, es.after + tail));
      PrintedIsSound(es.value, es.after + tail, n);
      BlankBefore(es.after, tail);
      if es.more.Element? { AsciiBefore(",", PrintElements(es.more, rest)); }
      ElementsAreSound(es.more, rest, n);
    }
  }

  // What is sound can be written.

  /** A byte as a string holds it: escaped where it must be, and as it is
      otherwise. */
  function PieceOf(c: char): (p: Piece)
    ensures PieceFits(p) && PieceMeans(p) == [c]
    ensures if c as nat < 0x80 then IsAscii(PieceText(p)) else PieceText(p) == [c]
  {
    if c < ' ' then
      var n := c as nat;
      var p := Unit(['0', '0', HexDigit(n / 16), HexDigit(n % 16)]);
      assert Hex4(p.hex) == n;
      p
    else if c == '"' || c == '\\' then Short(c)
    else Plain(c)
  }

  function PiecesOf(s: string): (ps: seq<Piece>)
    ensures PiecesFit(ps) && PiecesMean(ps) == s
  {
    if s == "" then [] else [PieceOf(s[0])] + PiecesOf(s[1..])
  }

  lemma FirstPiece(s: string)
    requires s != ""
    ensures PiecesText(PiecesOf(s)) == PieceText(PieceOf(s[0])) + PiecesText(PiecesOf(s[1..]))
  {
    hide PieceOf, PieceText;
    assert PiecesOf(s)[1..] == PiecesOf(s[1..]);
  }

  lemma {:induction false} PlainPieces(s: string, n: nat)
    requires n <= |s| && forall i :: 0 <= i < n ==> s[i] as nat >= 0x80
    ensures PiecesText(PiecesOf(s)) == s[..n] + PiecesText(PiecesOf(s[n..]))
  {
    hide PieceOf, PieceText, PiecesOf, PiecesText;
    if n == 0 {
      assert s[0..] == s;
    } else {
      var rest := s[1..];
      FirstPiece(s);
      PlainPieces(rest, n - 1);
      TakeDrop(s, n);
      Regroup([s[0]], rest[..n - 1], PiecesText(PiecesOf(s[n..])));
    }
  }

  lemma TakeDrop(s: string, n: nat)
    requires 0 < n <= |s|
    ensures s[1..][n - 1..] == s[n..] && s[..n] == [s[0]] + s[1..][..n - 1]
  {
  }

  lemma Regroup(a: string, b: string, c: string)
    ensures a + (b + c) == (a + b) + c
  {
  }

  lemma {:induction false} StringIsPrinted(s: string, rest: string)
    requires Valid(s) && Valid(rest)
    ensures Valid(PiecesText(PiecesOf(s)) + "\"" + rest)
    decreases |s|
  {
    hide PieceOf, PieceText, PiecesText, RuneLength, PiecesFit, PiecesMean;
    var all := PiecesText(PiecesOf(s)) + "\"" + rest;
    if s == "" {
      NoText();
      assert all == "\"" + rest;
      AsciiBefore("\"", rest);
    } else {
      var n := RuneLength(s);
      var t := PiecesText(PiecesOf(s[n..])) + "\"" + rest;
      StringIsPrinted(s[n..], rest);
      RuneIsValid(s);
      if n == 1 {
        FirstPiece(s);
        assert all == PieceText(PieceOf(s[0])) + t;
        AsciiBefore(PieceText(PieceOf(s[0])), t);
      } else {
        PlainPieces(s, n);
        assert all == s[..n] + t;
        ValidAppend(s[..n], t);
      }
    }
  }

  lemma NoText()
    ensures PiecesText(PiecesOf("")) == ""
  {
  }

  /** A text of v, valid UTF-8 before any rest that is. */
  ghost predicate Says(t: Text, v: Value, n: nat) {
    && Fits(t) && DeepAtMost(t, n) && ValueOf(t) == v
    && forall rest :: Valid(rest) ==> Valid(Print(t, rest))
  }

  lemma {:induction false} SoundIsPrinted(v: Value, n: nat) returns (t: Text)
    requires Sound(v) && NestsWithin(v, n)
    ensures Says(t, v, n)
    decreases v, 2, 0
  {
    hide NumberAt, NumberFits, PiecesText, PiecesFit, PiecesMean, PiecesOf, Valid, IsBlank;
    if v.Object? {
      t := ObjectIsPrinted(v, n);
    } else if v.Array? {
      t := ArrayIsPrinted(v, n);
    } else if v.String? {
      t := TString(PiecesOf(v.content));
      forall rest | Valid(rest) ensures Valid(Print(t, rest)) {
        StringIsPrinted(v.content, rest);
        AsciiBefore("\"", PiecesText(t.pieces) + "\"" + rest);
      }
    } else if v.Number? {
      t := NumberWritten(v.text);
      assert v.text[..|v.text|] == v.text;
      forall rest | Valid(rest) ensures Valid(Print(t, rest)) { NumberIsSound(t, rest); }
    } else {
      t := TLiteral(v.text);
      forall rest | Valid(rest) ensures Valid(Print(t, rest)) { AsciiBefore(v.text, rest); }
    }
  }

  lemma ObjectIsPrinted(v: Value, n: nat) returns (t: Text)
    requires v.Object? && Sound(v) && NestsWithin(v, n)
    ensures Says(t, v, n)
    decreases v, 1, 0
  {
    hide Valid, IsBlank, Sound, NestsWithin, MembersFit, MembersDeep, KeysOf, FieldsOf, PrintMembers;
    var ms := MembersArePrinted(v, n, 0);
    t := TObject("", ms);
    EmptyFits();
    FieldsAreKeys(ms);
    KeysAreFields(v);
    assert v.keys[0..] == v.keys;
    assert FieldsOf(ms) == v.fields;
    WithinIsPositive(v, n);
    forall rest | Valid(rest) ensures Valid(Print(t, rest)) {
      AsciiBefore("}", rest);
      if ms.NoMembers? {
        assert "" + ("}" + rest) == "}" + rest;
        AsciiBefore("{", "}" + rest);
      } else {
        AsciiBefore("{", PrintMembers(ms, "}" + rest));
      }
    }
  }

  lemma WithinIsPositive(v: Value, n: nat)
    requires NestsWithin(v, n)
    ensures n > 0
  {
  }

  lemma KeysAreFields(v: Value)
    requires v.Object? && Sound(v)
    ensures forall k :: k in v.keys <==> k in v.fields
  {
  }

  ghost predicate SaysFrom(ms: Members, v: Value, n: nat, i: nat)
    requires v.Object? && i <= |v.keys|
  {
    && MembersFit(ms) && MembersDeep(ms, n) && (ms.Member? <==> i < |v.keys|)
    && KeysOf(ms) == v.keys[i..]
    && (forall k :: k in FieldsOf(ms) ==> k in v.fields && FieldsOf(ms)[k] == v.fields[k])
    && forall rest :: Valid(rest) ==> Valid(PrintMembers(ms, rest))
  }

  lemma {:induction false} MembersArePrinted(v: Value, n: nat, i: nat) returns (ms: Members)
    requires v.Object? && Sound(v) && NestsWithin(v, n) && i <= |v.keys|
    ensures SaysFrom(ms, v, n - 1, i)
    decreases v, 0, |v.keys| - i
  {
    hide Valid, IsBlank, Fits, ValueOf, PiecesFit, PiecesText, PiecesMean, PiecesOf, DeepAtMost, Print;
    if i == |v.keys| {
      ms := NoMembers;
    } else {
      var key := v.keys[i];
      var t := SoundIsPrinted(v.fields[key], n - 1);
      var more := MembersArePrinted(v, n, i + 1);
      ms := MemberIsPrinted(key, t, v.fields[key], more, n - 1);
      assert v.keys[i..] == [key] + v.keys[i + 1..];
    }
  }

  lemma MemberIsPrinted(key: string, t: Text, v: Value, more: Members, n: nat) returns (ms: Members)
    requires Valid(key) && Says(t, v, n) && MembersFit(more) && MembersDeep(more, n) && key !in KeysOf(more)
    requires forall rest :: Valid(rest) ==> Valid(PrintMembers(more, rest))
    ensures ms.Member? && MembersFit(ms) && MembersDeep(ms, n)
    ensures KeysOf(ms) == [key] + KeysOf(more) && FieldsOf(ms) == FieldsOf(more)[key := v]
    ensures forall rest :: Valid(rest) ==> Valid(PrintMembers(ms, rest))
  {
    hide Valid, Fits, ValueOf, PiecesFit, PiecesText, PiecesMean, PiecesOf, DeepAtMost, Print;
    ms := Member("", PiecesOf(key), "", "", t, "", more);
    forall rest | Valid(rest) ensures Valid(PrintMembers(ms, rest)) {
      var tail := AfterMember(more, rest);
      if more.Member? { AsciiBefore(",", PrintMembers(more, rest)); }
      var w := Print(t, tail);
      assert "" + tail == tail && "" + w == w;
      AsciiBefore(":", w);
      assert "" + (":" + w) == ":" + w;
      StringIsPrinted(key, ":" + w);
      var s := "\"" + (PiecesText(PiecesOf(key)) + "\"" + (":" + w));
      AsciiBefore("\"", PiecesText(PiecesOf(key)) + "\"" + (":" + w));
      assert "" + s == s;
    }
  }

  lemma ArrayIsPrinted(v: Value, n: nat) returns (t: Text)
    requires v.Array? && Sound(v) && NestsWithin(v, n)
    ensures Says(t, v, n)
    decreases v, 1, 0
  {
    hide Valid, IsBlank, Sound, NestsWithin, ElementsFit, ElementsDeep, ItemsOf, PrintElements;
    var es := ElementsArePrinted(v, n, 0);
    t := TArray("", es);
    EmptyFits();
    assert v.items[0..] == v.items;
    WithinIsPositive(v, n);
    forall rest | Valid(rest) ensures Valid(Print(t, rest)) {
      AsciiBefore("]", rest);
      if es.NoElements? {
        assert "" + ("]" + rest) == "]" + rest;
        AsciiBefore("[", "]" + rest);
      } else {
        AsciiBefore("[", PrintElements(es, "]" + rest));
      }
    }
  }

  lemma {:induction false} ElementsArePrinted(v: Value, n: nat, i: nat) returns (es: Elements)
    requires v.Array? && Sound(v) && NestsWithin(v, n) && i <= |v.items|
    ensures ElementsFit(es) && ElementsDeep(es, n - 1) && (es.Element? <==> i < |v.items|)
    ensures ItemsOf(es) == v.items[i..]
    ensures forall rest :: Valid(rest) ==> Valid(PrintElements(es, rest))
    decreases v, 0, |v.items| - i
  {
    hide Valid, Fits, ValueOf, DeepAtMost, Print;
    if i == |v.items| {
      es := NoElements;
    } else {
      var t := SoundIsPrinted(v.items[i], n - 1);
      var more := ElementsArePrinted(v, n, i + 1);
      es := Element("", t, "", more);
      assert v.items[i..] == [v.items[i]] + v.items[i + 1..];
      forall rest | Valid(rest) ensures Valid(PrintElements(es, rest)) {
        var tail := AfterElement(more, rest);
        if more.Element? { AsciiBefore(",", PrintElements(more, rest)); }
        assert "" + tail == tail && "" + Print(t, tail) == Print(t, tail);
      }
    }
  }

  /** The image of the reader: a value is read from some record exactly when it is
      sound and nests no deeper than MAX_DEPTH. */
  lemma ReadableExactly(v: Value)
    ensures (exists data :: ReadJSON(data) == Some(v)) <==> Sound(v) && NestsWithin(v, MAX_DEPTH)
  {
    hide ReadJSON;
    if exists data :: ReadJSON(data) == Some(v) {
      var data :| ReadJSON(data) == Some(v);
      ReadIsSound(data, v);
    }
    if Sound(v) && NestsWithin(v, MAX_DEPTH) {
      var t := SoundIsPrinted(v, MAX_DEPTH);
      SaidIsRead(t, v);
      assert ReadJSON(Print(t, "")) == Some(v);
    }
  }

  lemma ReadIsSound(data: string, v: Value)
    requires ReadJSON(data) == Some(v)
    ensures Sound(v) && NestsWithin(v, MAX_DEPTH)
  {
    hide Fits, Sound, NestsWithin, Print, ValueOf, ReadValue, DeepAtMost, IsBlank, Skip, Valid;
    var before, t, after := RecordWritten(data);
    BlankBefore(before, Print(t, after));
    PrintedIsSound(t, after, MAX_DEPTH);
  }

  lemma SaidIsRead(t: Text, v: Value)
    requires Says(t, v, MAX_DEPTH)
    ensures ReadJSON(Print(t, "")) == Some(v)
  {
    hide Fits, Print, ValueOf, DeepAtMost, ReadJSON;
    assert "" + Print(t, "") == Print(t, "");
    RecordReads(Print(t, ""), "", t, "");
  }
}
