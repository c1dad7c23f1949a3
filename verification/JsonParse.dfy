/** change/json.go as functions on what is left to read: each gives what it
    reads and what is left after it, or nothing where the reader fails. */
module JsonParse {
  import opened Wrappers
  import opened Decimal
  import opened JsonText

  // White space.

  function Skip(s: string): (r: string)
    ensures |r| <= |s|
  {
    if s != "" && IsSpace(s[0]) then Skip(s[1..]) else s
  }

  lemma {:induction false} SkipBlank(b: string, rest: string)
    requires IsBlank(b)
    ensures Skip(b + rest) == Skip(rest)
  {
    if b == "" {
      assert b + rest == rest;
    } else {
      SkipBlank(b[1..], rest);
      assert (b + rest)[0] == b[0];
      assert (b + rest)[1..] == b[1..] + rest;
    }
  }

  lemma {:induction false} SkippedIsSkipped(s: string)
    ensures Skip(s) == "" || !IsSpace(Skip(s)[0])
    ensures Skip(Skip(s)) == Skip(s)
  {
    if s != "" && IsSpace(s[0]) { SkippedIsSkipped(s[1..]); }
  }

  /** The white space a text opens with. */
  lemma {:induction false} SkipWritten(s: string) returns (b: string)
    ensures IsBlank(b) && s == b + Skip(s)
  {
    if s != "" && IsSpace(s[0]) {
      var c := SkipWritten(s[1..]);
      b := [s[0]] + c;
      assert s == [s[0]] + s[1..];
    } else {
      b := "";
    }
  }

  // Strings.

  function PieceAt(s: string): (p: Option<Piece>)
    requires s != "" && s[0] != '"'
    ensures p.Some? ==> PieceFits(p.value) && PieceText(p.value) <= s
  {
    if s[0] < ' ' then None
    else if s[0] != '\\' then Some(Plain(s[0]))
    else if |s| < 2 then None
    else if s[1] != 'u' then if Escaped(s[1]).Some? then Some(Short(s[1])) else None
    else if |s| < 6 || !IsHex4(s[2..6]) then None
    else if IsLow(Hex4(s[2..6])) then None
    else if !IsHigh(Hex4(s[2..6])) then Some(Unit(s[2..6]))
    else if |s| < 12 || s[6] != '\\' || s[7] != 'u' || !IsHex4(s[8..12]) || !IsLow(Hex4(s[8..12])) then None
    else Some(Surrogates(s[2..6], s[8..12]))
  }

  lemma PieceReads(p: Piece, rest: string)
    requires PieceFits(p)
    ensures PieceText(p)[0] != '"'
    ensures PieceAt(PieceText(p) + rest) == Some(p)
  {
    var s := PieceText(p) + rest;
    match p
    case Plain(c) =>
    case Short(c) =>
    case Unit(hex) => assert s[2..6] == hex;
    case Surrogates(high, low) => assert s[2..6] == high && s[8..12] == low;
  }

  /** A string's content, after its opening quote. */
  function ReadPieces(s: string, out: string): (r: Option<(string, string)>)
    ensures r.Some? ==> |r.value.1| < |s|
    decreases |s|
  {
    if s == "" then None
    else if s[0] == '"' then Some((out, s[1..]))
    else match PieceAt(s)
      case None => None
      case Some(p) => ReadPieces(s[|PieceText(p)|..], out + PieceMeans(p))
  }

  lemma {:induction false} PiecesRead(ps: seq<Piece>, rest: string, out: string)
    requires PiecesFit(ps)
    ensures ReadPieces(PiecesText(ps) + "\"" + rest, out) == Some((out + PiecesMean(ps), rest))
  {
    hide PieceAt, PieceText, PieceMeans, PieceFits;
    var s := PiecesText(ps) + "\"" + rest;
    if ps == [] {
      assert s == "\"" + rest && out + PiecesMean(ps) == out;
    } else {
      var t := PiecesText(ps[1..]) + "\"" + rest;
      assert s == PieceText(ps[0]) + t;
      PieceReads(ps[0], t);
      PiecesRead(ps[1..], rest, out + PieceMeans(ps[0]));
      assert s[|PieceText(ps[0])|..] == t;
      assert out + PieceMeans(ps[0]) + PiecesMean(ps[1..]) == out + PiecesMean(ps);
    }
  }

  lemma {:induction false} PiecesWritten(s: string, out: string) returns (ps: seq<Piece>)
    requires ReadPieces(s, out).Some?
    ensures PiecesFit(ps)
    ensures s == PiecesText(ps) + "\"" + ReadPieces(s, out).value.1
    ensures ReadPieces(s, out).value.0 == out + PiecesMean(ps)
    decreases |s|
  {
    hide PieceAt, PieceText, PieceMeans, PieceFits;
    if s[0] == '"' {
      ps := [];
      assert s == "\"" + s[1..];
    } else {
      var p := PieceAt(s).value;
      var rest := s[|PieceText(p)|..];
      var qs := PiecesWritten(rest, out + PieceMeans(p));
      ps := [p] + qs;
      assert ps[1..] == qs;
      assert s == PieceText(p) + rest;
    }
  }

  // Numbers.

  function WholeAt(s: string): (n: nat)
    ensures n <= |s|
  {
    if s != "" && s[0] == '0' then 1 else DigitCount(s)
  }

  function FractionAt(s: string): (n: Option<nat>)
    ensures n.Some? ==> n.value <= |s|
  {
    if s == "" || s[0] != '.' then Some(0)
    else if DigitCount(s[1..]) == 0 then None
    else Some(1 + DigitCount(s[1..]))
  }

  function ExponentAt(s: string): (n: Option<nat>)
    ensures n.Some? ==> n.value <= |s|
  {
    if s == "" || (s[0] != 'e' && s[0] != 'E') then Some(0)
    else
      var k := if |s| > 1 && (s[1] == '+' || s[1] == '-') then 2 else 1;
      if DigitCount(s[k..]) == 0 then None else Some(k + DigitCount(s[k..]))
  }

  function SignAt(s: string): (n: nat)
    ensures n <= |s|
  {
    if s != "" && s[0] == '-' then 1 else 0
  }

  /** How far the number a text opens with reaches. */
  function NumberAt(s: string): (n: Option<nat>)
    ensures n.Some? ==> 0 < n.value <= |s|
  {
    var a := SignAt(s);
    var b := a + WholeAt(s[a..]);
    if a == b then None
    else match FractionAt(s[b..])
      case None => None
      case Some(f) =>
        match ExponentAt(s[b + f..])
        case None => None
        case Some(e) => Some(b + f + e)
  }

  /** What may stand right after a value. */
  predicate Follows(rest: string) {
    rest == "" || IsSpace(rest[0]) || rest[0] == ',' || rest[0] == ']' || rest[0] == '}'
  }

  predicate NotDigit(s: string) {
    s == "" || !IsDigit(s[0])
  }

  lemma WholeReads(whole: string, rest: string)
    requires Canonical(whole) && NotDigit(rest)
    ensures WholeAt(whole + rest) == |whole|
  {
    DigitCountOf(whole, rest);
  }

  lemma FractionReads(part: string, rest: string)
    requires FractionFits(part)
    requires NotDigit(rest) && (part == "" ==> rest == "" || rest[0] != '.')
    ensures FractionAt(part + rest) == Some(|part|)
  {
    if part == "" {
      assert part + rest == rest;
    } else {
      DigitCountOf(part[1..], rest);
      assert (part + rest)[1..] == part[1..] + rest;
    }
  }

  lemma ExponentReads(s: string, rest: string)
    requires ExponentFits(s)
    requires Follows(rest)
    ensures ExponentAt(s + rest) == Some(|s|)
  {
    if s == "" {
      assert s + rest == rest;
    } else {
      var k := if s[1] == '+' || s[1] == '-' then 2 else 1;
      DigitCountOf(s[k..], rest);
      assert (s + rest)[k..] == s[k..] + rest;
    }
  }

  lemma NumberReads(sign: string, whole: string, part: string, exponent: string, rest: string)
    requires NumberFits(sign, whole, part, exponent) && Follows(rest)
    ensures NumberAt(sign + (whole + (part + (exponent + rest)))) == Some(|sign| + |whole| + |part| + |exponent|)
  {
    hide WholeAt, FractionAt, ExponentAt, SignAt, NumberFits, NumberAt, Follows, Canonical, FractionFits, ExponentFits, NotDigit,
      AllDigits, IsDigit, DigitCount;
    NumberFollows(sign, whole, part, exponent, rest);
    var s := sign + (whole + (part + (exponent + rest)));
    var tail := exponent + rest;
    NumberSplits(sign, whole, part, exponent, rest);
    SignReads(sign, whole, part + tail);
    WholeReads(whole, part + tail);
    FractionReads(part, tail);
    ExponentReads(exponent, rest);
    NumberEnds(s, |sign|, |sign| + |whole|, |part|, |exponent|);
  }

  lemma NumberEnds(s: string, a: nat, b: nat, f: nat, e: nat)
    requires a < b <= |s| && f <= |s| - b
    requires a == SignAt(s) && b == a + WholeAt(s[a..])
    requires FractionAt(s[b..]) == Some(f) && ExponentAt(s[b + f..]) == Some(e)
    ensures NumberAt(s) == Some(b + f + e)
  {
    hide WholeAt, FractionAt, ExponentAt, SignAt;
  }

  lemma NumberSplits(a: string, b: string, c: string, d: string, rest: string)
    ensures var s := a + (b + (c + (d + rest)));
            && s[|a|..] == b + (c + (d + rest))
            && s[|a| + |b|..] == c + (d + rest)
            && s[|a| + |b| + |c|..] == d + rest
  {
  }

  lemma NumberParts(a: string, b: string, c: string, d: string, rest: string)
    ensures var s, n := a + (b + (c + (d + rest))), a + b + c + d;
            |n| == |a| + |b| + |c| + |d| && s[..|n|] == n && s[|n|..] == rest
  {
  }

  lemma SignReads(sign: string, whole: string, rest: string)
    requires (sign == "" || sign == "-") && Canonical(whole)
    ensures SignAt(sign + (whole + rest)) == |sign|
  {
    assert IsDigit(whole[0]);
  }

  lemma NumberFollows(sign: string, whole: string, part: string, exponent: string, rest: string)
    requires NumberFits(sign, whole, part, exponent) && Follows(rest)
    ensures sign == "" || sign == "-"
    ensures Canonical(whole) && |whole| > 0
    ensures FractionFits(part) && ExponentFits(exponent)
    ensures NotDigit(exponent + rest) && NotDigit(part + (exponent + rest))
    ensures var tail := exponent + rest; tail == "" || tail[0] != '.'
  {
  }

  lemma SignWritten(s: string)
    ensures s[..SignAt(s)] == "" || s[..SignAt(s)] == "-"
  {
  }

  lemma WholeWritten(s: string)
    requires WholeAt(s) > 0
    ensures Canonical(s[..WholeAt(s)])
  {
  }

  lemma FractionWritten(s: string)
    requires FractionAt(s).Some?
    ensures FractionFits(s[..FractionAt(s).value])
  {
    var n := FractionAt(s).value;
    if n > 0 {
      assert s[..n][1..] == s[1..][..n - 1];
    }
  }

  lemma ExponentWritten(s: string)
    requires ExponentAt(s).Some?
    ensures ExponentFits(s[..ExponentAt(s).value])
  {
    var n := ExponentAt(s).value;
    if n > 0 {
      var k := if s[1] == '+' || s[1] == '-' then 2 else 1;
      assert s[..n][k..] == s[k..][..n - k];
    }
  }

  lemma NumberWritten(s: string) returns (t: Text)
    requires NumberAt(s).Some?
    ensures t.TNumber? && Fits(t) && ValueOf(t) == Number(s[..NumberAt(s).value])
    ensures Print(t, s[NumberAt(s).value..]) == s
  {
    hide WholeAt, FractionAt, ExponentAt, SignAt, Canonical, FractionFits, ExponentFits, AllDigits, IsDigit, DigitCount;
    var a := SignAt(s);
    var b := a + WholeAt(s[a..]);
    var c := b + FractionAt(s[b..]).value;
    var d := c + ExponentAt(s[c..]).value;
    SignWritten(s);
    WholeWritten(s[a..]);
    FractionWritten(s[b..]);
    ExponentWritten(s[c..]);
    t := NumberCut(s, a, b, c, d);
  }

  lemma NumberCut(s: string, a: nat, b: nat, c: nat, d: nat) returns (t: Text)
    requires a <= b <= c <= d <= |s|
    requires NumberFits(s[..a], s[a..][..b - a], s[b..][..c - b], s[c..][..d - c])
    ensures t.TNumber? && Fits(t) && ValueOf(t) == Number(s[..d]) && Print(t, s[d..]) == s
  {
    hide NumberFits;
    t := TNumber(s[..a], s[a..][..b - a], s[b..][..c - b], s[c..][..d - c]);
    NumberJoins(s, a, b, c, d);
  }

  lemma NumberJoins(s: string, a: nat, b: nat, c: nat, d: nat)
    requires a <= b <= c <= d <= |s|
    ensures s[..a] + s[a..][..b - a] + s[b..][..c - b] + s[c..][..d - c] == s[..d]
    ensures s[..a] + (s[a..][..b - a] + (s[b..][..c - b] + (s[c..][..d - c] + s[d..]))) == s
  {
  }

  // Literals.

  function LiteralAt(s: string): (w: string)
    ensures w <= s
    ensures w == "" || w == "true" || w == "false" || w == "null"
  {
    if "true" <= s then "true"
    else if "false" <= s then "false"
    else if "null" <= s then "null"
    else ""
  }

  lemma LiteralReads(w: string, rest: string)
    requires w == "true" || w == "false" || w == "null"
    ensures LiteralAt(w + rest) == w
  {
    assert w <= w + rest;
    assert (w + rest)[0] == w[0];
  }

  // Values.

  function ReadValue(s: string, depth: nat): (r: Option<(Value, string)>)
    ensures r.Some? ==> |r.value.1| < |s|
    decreases |s|, 0
  {
    if depth > MAX_DEPTH || s == "" then None
    else if s[0] == '{' then
      var t := Skip(s[1..]);
      if t != "" && t[0] == '}' then Some((Object([], map[]), t[1..]))
      else ReadMembers(t, depth, [], map[])
    else if s[0] == '[' then
      var t := Skip(s[1..]);
      if t != "" && t[0] == ']' then Some((Array([]), t[1..]))
      else ReadElements(t, depth, [])
    else if s[0] == '"' then
      match ReadPieces(s[1..], "")
      case None => None
      case Some((text, rest)) => Some((String(text), rest))
    else if s[0] == '-' || IsDigit(s[0]) then
      match NumberAt(s)
      case None => None
      case Some(n) => Some((Number(s[..n]), s[n..]))
    else
      var w := LiteralAt(s);
      if w == "" then None else Some((Literal(w), s[|w|..]))
  }

  /** A key, its colon, and the white space around both. */
  function ReadKey(s: string): (r: Option<(string, string)>)
    ensures r.Some? ==> |r.value.1| < |s|
  {
    var t := Skip(s);
    if t == "" || t[0] != '"' then None
    else match ReadPieces(t[1..], "")
      case None => None
      case Some((key, after)) =>
        var u := Skip(after);
        if u == "" || u[0] != ':' then None else Some((key, Skip(u[1..])))
  }

  /** An object's members from its next key on, after those already read. */
  function ReadMembers(s: string, depth: nat, keys: seq<string>, fields: map<string, Value>): (r: Option<(Value, string)>)
    ensures r.Some? ==> |r.value.1| < |s|
    decreases |s|, 1
  {
    match ReadKey(s)
    case None => None
    case Some((key, t)) =>
      if key in fields then None
      else match ReadValue(t, depth + 1)
        case None => None
        case Some((v, after)) =>
          var u := Skip(after);
          if u == "" then None
          else if u[0] == ',' then ReadMembers(u[1..], depth, keys + [key], fields[key := v])
          else if u[0] == '}' then Some((Object(keys + [key], fields[key := v]), u[1..]))
          else None
  }

  function ReadElements(s: string, depth: nat, items: seq<Value>): (r: Option<(Value, string)>)
    ensures r.Some? ==> |r.value.1| < |s|
    decreases |s|, 1
  {
    match ReadValue(Skip(s), depth + 1)
    case None => None
    case Some((v, after)) =>
      var u := Skip(after);
      if u == "" then None
      else if u[0] == ',' then ReadElements(u[1..], depth, items + [v])
      else if u[0] == ']' then Some((Array(items + [v]), u[1..]))
      else None
  }
}
