/** The reader of change/json.go: one position moving over the bytes of a
    record, which reads what JsonParse says of the bytes from there on. */
module JsonReader {
  import opened Wrappers
  import opened Decimal
  import opened JsonText
  import opened JsonParse
  import opened JsonInverse
  import Utf8

  lemma LiteralIs(s: string, w: string)
    requires w <= s && w in ["true", "false", "null"]
    ensures LiteralAt(s) == w
  {
    assert s[0] == w[0];
  }

  class Reader {
    const data: string
    var pos: nat

    ghost predicate Valid()
      reads this
    {
      pos <= |data|
    }

    /** What is left to read. */
    ghost function Left(): string
      requires Valid()
      reads this
    {
      data[pos..]
    }

    constructor (data: string)
      ensures Valid() && this.data == data && pos == 0
    {
      this.data := data;
      pos := 0;
    }

    method Space()
      requires Valid()
      modifies this
      ensures Valid() && pos >= old(pos) && Left() == Skip(old(Left()))
    {
      while pos < |data| && IsSpace(data[pos])
        invariant pos <= |data| && pos >= old(pos)
        invariant Skip(Left()) == Skip(old(Left()))
      {
        pos := pos + 1;
      }
    }

    /** Moves over the byte c, if it is next. */
    method Over(c: char) returns (ok: bool)
      requires Valid()
      modifies this
      ensures Valid() && (ok <==> old(Left()) != "" && old(Left())[0] == c)
      ensures ok ==> pos > old(pos) && Left() == old(Left())[1..]
      ensures !ok ==> pos == old(pos)
    {
      ok := pos < |data| && data[pos] == c;
      if ok { pos := pos + 1; }
    }

    // Numbers.

    method Digits() returns (ok: bool)
      requires Valid()
      modifies this
      ensures Valid() && pos == old(pos) + DigitCount(old(Left()))
      ensures ok <==> DigitCount(old(Left())) > 0
    {
      var start := pos;
      while pos < |data| && IsDigit(data[pos])
        invariant start <= pos <= |data|
        invariant pos + DigitCount(Left()) == start + DigitCount(old(Left()))
      {
        pos := pos + 1;
      }
      ok := pos > start;
    }

    /** The part of a number before its fraction. */
    method Whole() returns (ok: bool)
      requires Valid()
      modifies this
      ensures Valid() && pos == old(pos) + WholeAt(old(Left()))
      ensures ok <==> WholeAt(old(Left())) > 0
    {
      if pos < |data| && data[pos] == '0' {
        pos := pos + 1;
        ok := true;
      } else if pos < |data| && '1' <= data[pos] <= '9' {
        ok := Digits();
      } else {
        ok := false;
      }
    }

    method Fraction() returns (ok: bool)
      requires Valid()
      modifies this
      ensures Valid() && (ok <==> FractionAt(old(Left())).Some?)
      ensures ok ==> pos == old(pos) + FractionAt(old(Left())).value
    {
      ok := true;
      if pos < |data| && data[pos] == '.' {
        pos := pos + 1;
        ok := Digits();
      }
    }

    method Exponent() returns (ok: bool)
      requires Valid()
      modifies this
      ensures Valid() && (ok <==> ExponentAt(old(Left())).Some?)
      ensures ok ==> pos == old(pos) + ExponentAt(old(Left())).value
    {
      ok := true;
      if pos < |data| && (data[pos] == 'e' || data[pos] == 'E') {
        pos := pos + 1;
        if pos < |data| && (data[pos] == '+' || data[pos] == '-') {
          pos := pos + 1;
        }
        ok := Digits();
      }
    }

    method ReadNumber() returns (v: Option<Value>)
      requires Valid() && pos < |data|
      modifies this
      ensures Valid() && (v.Some? <==> NumberAt(old(Left())).Some?)
      ensures v.Some? ==> pos == old(pos) + NumberAt(old(Left())).value
      ensures v.Some? ==> v.value == Number(old(Left())[..NumberAt(old(Left())).value])
    {
      hide WholeAt, FractionAt, ExponentAt;
      var start := pos;
      if data[pos] == '-' { pos := pos + 1; }
      var ok := Whole();
      if !ok { return None; }
      ok := Fraction();
      if !ok { return None; }
      ok := Exponent();
      if !ok { return None; }
      v := Some(Number(data[start..pos]));
    }

    // Strings.

    /** Four hex digits. */
    method ReadHex4() returns (n: Option<nat>)
      requires Valid()
      modifies this
      ensures Valid()
      ensures n.Some? <==> |old(Left())| >= 4 && IsHex4(old(Left())[..4])
      ensures n.Some? ==> pos == old(pos) + 4 && n.value == Hex4(old(Left())[..4])
    {
      if |data| - pos < 4 { return None; }
      if !IsHex4(data[pos..pos + 4]) { return None; }
      n := Some(Hex4(data[pos..pos + 4]));
      pos := pos + 4;
    }

    /** What follows a backslash, and for a first half of a pair what follows
        its second. */
    method Escape() returns (s: Option<string>)
      requires Valid() && pos < |data| && data[pos] == '\\'
      modifies this
      ensures Valid() && (s.Some? <==> PieceAt(old(Left())).Some?)
      ensures s.Some? ==> pos == old(pos) + |PieceText(PieceAt(old(Left())).value)|
      ensures s.Some? ==> s.value == PieceMeans(PieceAt(old(Left())).value)
    {
      hide Hex4, IsHex4, RuneBytes, Pair;
      ghost var all := Left();
      pos := pos + 1;
      if pos >= |data| { return None; }
      var e := data[pos];
      pos := pos + 1;
      if e != 'u' {
        return if Escaped(e).Some? then Some([Escaped(e).value]) else None;
      }
      assert |all| >= 6 ==> Left()[..4] == all[2..6];
      var n := ReadHex4();
      if n.None? { return None; }
      if !IsHigh(n.value) && !IsLow(n.value) { return Some(RuneBytes(n.value)); }
      if IsLow(n.value) || |data| - pos < 2 || data[pos] != '\\' || data[pos + 1] != 'u' { return None; }
      pos := pos + 2;
      assert |all| >= 12 ==> Left()[..4] == all[8..12];
      var low := ReadHex4();
      if low.None? || !IsLow(low.value) { return None; }
      s := Some(RuneBytes(Pair(n.value, low.value)));
    }

    method ReadString() returns (s: Option<string>)
      requires Valid() && pos < |data| && data[pos] == '"'
      modifies this
      ensures Valid() && (s.Some? <==> ReadPieces(old(Left())[1..], "").Some?)
      ensures s.Some? ==> pos > old(pos) && ReadPieces(old(Left())[1..], "").value == (s.value, Left())
    {
      hide PieceAt, PieceMeans, PieceText, PieceFits;
      pos := pos + 1;
      ghost var start := Left();
      var out := "";
      while pos < |data| && data[pos] != '"'
        invariant old(pos) < pos <= |data|
        invariant ReadPieces(start, "") == ReadPieces(Left(), out)
      {
        var piece := Next();
        if piece.None? { return None; }
        out := out + piece.value;
      }
      if pos >= |data| { return None; }
      pos := pos + 1;
      s := Some(out);
    }

    /** One piece of a string. */
    method Next() returns (s: Option<string>)
      requires Valid() && pos < |data| && data[pos] != '"'
      modifies this
      ensures Valid() && (s.Some? <==> PieceAt(old(Left())).Some?)
      ensures s.Some? ==> pos == old(pos) + |PieceText(PieceAt(old(Left())).value)| > old(pos)
      ensures s.Some? ==> s.value == PieceMeans(PieceAt(old(Left())).value)
    {
      if data[pos] < ' ' { return None; }
      if data[pos] == '\\' {
        s := Escape();
      } else {
        s := Some([data[pos]]);
        pos := pos + 1;
      }
    }

    // Values.

    method ReadLiteral() returns (v: Option<Value>)
      requires Valid()
      modifies this
      ensures Valid() && (v.Some? <==> LiteralAt(old(Left())) != "")
      ensures v.Some? ==> v.value == Literal(LiteralAt(old(Left()))) && pos == old(pos) + |LiteralAt(old(Left()))|
    {
      var words := ["true", "false", "null"];
      for i := 0 to |words|
        invariant pos == old(pos)
        invariant forall j :: 0 <= j < i ==> !(words[j] <= Left())
      {
        var w := words[i];
        assert |data| - pos >= |w| ==> data[pos..pos + |w|] == Left()[..|w|];
        if |data| - pos >= |w| && data[pos..pos + |w|] == w {
          assert w <= Left() && LiteralAt(Left()) == w by { LiteralIs(Left(), w); }
          pos := pos + |w|;
          return Some(Literal(w));
        }
      }
      v := None;
      assert !(words[0] <= Left()) && !(words[1] <= Left()) && !(words[2] <= Left());
    }

    ghost predicate Reads(v: Option<Value>, r: Option<(Value, string)>)
      requires Valid()
      reads this
    {
      && (v.Some? <==> r.Some?)
      && (v.Some? ==> r.value == (v.value, Left()))
    }

    method ReadOne(depth: nat) returns (v: Option<Value>)
      requires Valid()
      modifies this
      ensures Valid() && Reads(v, ReadValue(old(Left()), depth))
      ensures v.Some? ==> pos > old(pos)
      decreases |data| - pos, 1
    {
      if depth > MAX_DEPTH { return None; }
      if pos >= |data| { return None; }
      if data[pos] == '{' {
        v := ReadObject(depth);
      } else if data[pos] == '[' {
        v := ReadArray(depth);
      } else if data[pos] == '"' {
        var s := ReadString();
        v := if s.Some? then Some(String(s.value)) else None;
      } else if data[pos] == '-' || IsDigit(data[pos]) {
        v := ReadNumber();
      } else {
        v := ReadLiteral();
      }
    }

    method ReadMemberKey() returns (key: Option<string>)
      requires Valid()
      modifies this
      ensures Valid() && (key.Some? <==> ReadKey(old(Left())).Some?)
      ensures key.Some? ==> pos > old(pos) && ReadKey(old(Left())).value == (key.value, Left())
    {
      Space();
      if pos >= |data| || data[pos] != '"' { return None; }
      var s := ReadString();
      if s.None? { return None; }
      Space();
      var ok := Over(':');
      if !ok { return None; }
      Space();
      key := s;
    }

    method ReadObject(depth: nat) returns (v: Option<Value>)
      requires Valid() && pos < |data| && data[pos] == '{' && depth <= MAX_DEPTH
      modifies this
      ensures Valid() && Reads(v, ReadValue(old(Left()), depth))
      ensures v.Some? ==> pos > old(pos)
      decreases |data| - pos, 0
    {
      hide ReadKey, ReadElements, Skip;
      pos := pos + 1;
      Space();
      var ok := Over('}');
      if ok { return Some(Object([], map[])); }
      ghost var start := Left();
      var keys: seq<string>, fields: map<string, Value> := [], map[];
      while true
        invariant old(pos) < pos <= |data|
        invariant ReadMembers(start, depth, [], map[]) == ReadMembers(Left(), depth, keys, fields)
        decreases |data| - pos
      {
        var key := ReadMemberKey();
        if key.None? || key.value in fields { return None; }
        var field := ReadOne(depth + 1);
        if field.None? { return None; }
        keys, fields := keys + [key.value], fields[key.value := field.value];
        Space();
        ok := Over(',');
        if !ok {
          ok := Over('}');
          return if ok then Some(Object(keys, fields)) else None;
        }
      }
    }

    method ReadArray(depth: nat) returns (v: Option<Value>)
      requires Valid() && pos < |data| && data[pos] == '[' && depth <= MAX_DEPTH
      modifies this
      ensures Valid() && Reads(v, ReadValue(old(Left()), depth))
      ensures v.Some? ==> pos > old(pos)
      decreases |data| - pos, 0
    {
      hide ReadKey, ReadMembers, Skip;
      pos := pos + 1;
      Space();
      var ok := Over(']');
      if ok { return Some(Array([])); }
      ghost var start := Left();
      var items: seq<Value> := [];
      while true
        invariant old(pos) < pos <= |data|
        invariant ReadElements(start, depth, []) == ReadElements(Left(), depth, items)
        decreases |data| - pos
      {
        Space();
        var item := ReadOne(depth + 1);
        if item.None? { return None; }
        items := items + [item.value];
        Space();
        ok := Over(',');
        if !ok {
          ok := Over(']');
          return if ok then Some(Array(items)) else None;
        }
      }
    }
  }

  /** Reads a record as exactly one value. */
  method ReadRecord(data: string) returns (v: Option<Value>)
    ensures v == ReadJSON(data)
    ensures forall u :: v == Some(u) <==>
              Utf8.Valid(data) && exists before, t, after :: Writes(data, before, t, after) && ValueOf(t) == u
  {
    hide ReadValue, Fits, DeepAtMost, Print, ValueOf, IsBlank, Utf8.Valid, Skip;
    forall u
      ensures ReadJSON(data) == Some(u) <==>
              Utf8.Valid(data) && exists before, t, after :: Writes(data, before, t, after) && ValueOf(t) == u
    {
      ReadsExactly(data, u);
    }
    if !Utf8.Valid(data) { return None; }
    var r := new Reader(data);
    r.Space();
    v := r.ReadOne(1);
    if v.None? { return None; }
    r.Space();
    if r.pos != |data| { return None; }
  }
}
