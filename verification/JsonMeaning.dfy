/** What a string in a record means (change/json.go), told in code points: UTF-8
    read back to the points it encodes, and escapes as the UTF-16 units they
    spell (section 7 of RFC 8259, section 3 of RFC 3629). */
module JsonMeaning {
  import opened Wrappers
  import opened JsonText
  import opened JsonParse
  import opened JsonInverse
  import opened JsonValues
  import opened Utf8

  // UTF-8 read back.

  /** The code point of the character at the front. */
  function PointAt(s: string): nat
    requires RuneLength(s) > 0
  {
    match RuneLength(s)
    case 1 => s[0] as nat
    case 2 => (s[0] as nat - 0xC0) * 0x40 + (s[1] as nat - 0x80)
    case 3 => (s[0] as nat - 0xE0) * 0x1000 + (s[1] as nat - 0x80) * 0x40 + (s[2] as nat - 0x80)
    case _ => (s[0] as nat - 0xF0) * 0x40000 + (s[1] as nat - 0x80) * 0x1000 + (s[2] as nat - 0x80) * 0x40 + (s[3] as nat - 0x80)
  }

  function Points(s: string): seq<nat>
    requires Valid(s)
  {
    if s == "" then [] else [PointAt(s)] + Points(s[RuneLength(s)..])
  }

  /** A code point that is a character: none of the halves of a pair. */
  predicate IsScalar(n: nat) {
    n < 0x110000 && !(0xD800 <= n < 0xE000)
  }

  predicate AreScalars(ns: seq<nat>) {
    forall i :: 0 <= i < |ns| ==> IsScalar(ns[i])
  }

  function Encoded(ns: seq<nat>): string
    requires AreScalars(ns)
  {
    if ns == [] then "" else RuneBytes(ns[0]) + Encoded(ns[1..])
  }

  lemma PointOfBytes(n: nat)
    requires IsScalar(n)
    ensures RuneLength(RuneBytes(n)) == |RuneBytes(n)| && PointAt(RuneBytes(n)) == n
  {
    RuneBytesLength(n);
    if n >= 0x800 {
      if n < 0x10000 { ThreeByteDigits(n); } else { FourByteDigits(n); }
    }
  }

  lemma ThreeByteDigits(n: nat)
    requires n < 0x10000
    ensures n / 0x1000 * 0x1000 + n / 0x40 % 0x40 * 0x40 + n % 0x40 == n
  {
    assert n / 0x40 / 0x40 == n / 0x1000;
  }

  lemma FourByteDigits(n: nat)
    requires n < 0x110000
    ensures n / 0x40000 * 0x40000 + n / 0x1000 % 0x40 * 0x1000 + n / 0x40 % 0x40 * 0x40 + n % 0x40 == n
  {
    assert n / 0x40 / 0x40 == n / 0x1000 && n / 0x1000 / 0x40 == n / 0x40000;
  }

  /** A character's bytes are those of its code point. */
  lemma BytesOfPoint(s: string)
    requires RuneLength(s) > 0
    ensures IsScalar(PointAt(s)) && s[..RuneLength(s)] == RuneBytes(PointAt(s))
  {
    var n := PointAt(s);
    match RuneLength(s)
    case 1 =>
    case 2 => assert n / 0x40 == s[0] as nat - 0xC0 && n % 0x40 == s[1] as nat - 0x80;
    case 3 => ThreeBytePoint(s);
    case _ => FourBytePoint(s);
  }

  lemma ThreeBytePoint(s: string)
    requires RuneLength(s) == 3
    ensures IsScalar(PointAt(s)) && s[..3] == RuneBytes(PointAt(s))
  {
    var n := PointAt(s);
    var (a, b, c) := (s[0] as nat - 0xE0, s[1] as nat - 0x80, s[2] as nat - 0x80);
    assert n == (a * 0x40 + b) * 0x40 + c;
    assert n / 0x40 == a * 0x40 + b && n % 0x40 == c;
    assert n / 0x1000 == a && n / 0x40 % 0x40 == b;
    assert 0x800 <= n < 0x10000;
  }

  lemma FourBytePoint(s: string)
    requires RuneLength(s) == 4
    ensures IsScalar(PointAt(s)) && s[..4] == RuneBytes(PointAt(s))
  {
    var n := PointAt(s);
    var (a, b, c, d) := (s[0] as nat - 0xF0, s[1] as nat - 0x80, s[2] as nat - 0x80, s[3] as nat - 0x80);
    assert n == ((a * 0x40 + b) * 0x40 + c) * 0x40 + d;
    assert n / 0x40 == (a * 0x40 + b) * 0x40 + c && n % 0x40 == d;
    assert n / 0x1000 == a * 0x40 + b && n / 0x40 % 0x40 == c;
    assert n / 0x40000 == a && n / 0x1000 % 0x40 == b;
    assert 0x10000 <= n < 0x110000;
  }

  lemma {:induction false} PointsEncoded(s: string)
    requires Valid(s)
    ensures AreScalars(Points(s)) && Encoded(Points(s)) == s
    decreases |s|
  {
    hide RuneLength, PointAt, RuneBytes;
    if s != "" {
      var more := s[RuneLength(s)..];
      PointsEncoded(more);
      BytesOfPoint(s);
      assert Points(s)[1..] == Points(more);
      assert s == s[..RuneLength(s)] + more;
    }
  }

  lemma {:induction false} EncodedPoints(ns: seq<nat>)
    requires AreScalars(ns)
    ensures Valid(Encoded(ns)) && Points(Encoded(ns)) == ns
  {
    hide RuneLength, PointAt, RuneBytes;
    if ns != [] {
      var first, more := RuneBytes(ns[0]), Encoded(ns[1..]);
      EncodedPoints(ns[1..]);
      PointOfBytes(ns[0]);
      FrontPoint(first, more);
      assert (first + more)[|first|..] == more;
    }
  }

  lemma FrontPoint(s: string, t: string)
    requires RuneLength(s) == |s| > 0
    ensures RuneLength(s + t) == |s| && PointAt(s + t) == PointAt(s)
  {
    RuneLengthAppend(s, t);
  }

  /** A string is valid exactly when it encodes some characters, and then those it
      is read back as, and no others. */
  lemma ValidExactly(s: string)
    ensures Valid(s) <==> exists ns :: AreScalars(ns) && Encoded(ns) == s
    ensures forall ns :: AreScalars(ns) && Encoded(ns) == s ==> Valid(s) && Points(s) == ns
  {
    hide Valid, Points, Encoded, IsScalar;
    if Valid(s) { PointsEncoded(s); }
    forall ns | AreScalars(ns) && Encoded(ns) == s ensures Valid(s) && Points(s) == ns {
      EncodedPoints(ns);
    }
  }

  lemma {:induction false} PointsAppend(s: string, t: string)
    requires Valid(s) && Valid(t)
    ensures Valid(s + t) && Points(s + t) == Points(s) + Points(t)
    decreases |s|
  {
    hide RuneLength, PointAt;
    ValidAppend(s, t);
    if s == "" {
      assert s + t == t;
    } else {
      var n := RuneLength(s);
      PointsAppend(s[n..], t);
      SameFront(s, t);
      assert (s + t)[n..] == s[n..] + t;
    }
  }

  lemma SameFront(s: string, t: string)
    requires RuneLength(s) > 0
    ensures RuneLength(s + t) == RuneLength(s) && PointAt(s + t) == PointAt(s)
  {
    RuneLengthAppend(s, t);
  }

  /** An ASCII character is among the bytes exactly when it is among the points. */
  lemma {:induction false} NoSuchPoint(s: string, c: char)
    requires Valid(s) && c as nat < 0x80
    ensures c in s <==> c as nat in Points(s)
    decreases |s|
  {
    hide RuneLength, PointAt;
    if s != "" {
      var n := RuneLength(s);
      NoSuchPoint(s[n..], c);
      FrontIs(s, c);
      assert s == s[..n] + s[n..];
    }
  }

  lemma FrontIs(s: string, c: char)
    requires RuneLength(s) > 0 && c as nat < 0x80
    ensures c in s[..RuneLength(s)] <==> PointAt(s) == c as nat
  {
    RuneIsValid(s);
    if RuneLength(s) == 1 { assert s[..1] == [s[0]]; } else { BytesOfPoint(s); }
  }

  // UTF-16.

  /** The units of a code point. */
  function UnitsOf(n: nat): (units: seq<nat>)
    ensures units != []
  {
    if n < 0x10000 then [n] else [0xD800 + (n - 0x10000) / 0x400, 0xDC00 + (n - 0x10000) % 0x400]
  }

  function Utf16(ns: seq<nat>): seq<nat> {
    if ns == [] then [] else UnitsOf(ns[0]) + Utf16(ns[1..])
  }

  lemma {:induction false} Utf16Append(a: seq<nat>, b: seq<nat>)
    ensures Utf16(a + b) == Utf16(a) + Utf16(b)
  {
    hide UnitsOf;
    if a == [] {
      assert a + b == b;
    } else {
      Utf16Append(a[1..], b);
      assert (a + b)[1..] == a[1..] + b;
    }
  }

  lemma PairIsItsUnits(high: nat, low: nat)
    requires IsHigh(high) && IsLow(low)
    ensures IsScalar(Pair(high, low)) && UnitsOf(Pair(high, low)) == [high, low]
  {
    var n := Pair(high, low) - 0x10000;
    assert n == (high - 0xD800) * 0x400 + (low - 0xDC00);
    assert n / 0x400 == high - 0xD800 && n % 0x400 == low - 0xDC00;
  }

  // How a string is spelled.

  const LOWER := "0123456789abcdef"
  const UPPER := "0123456789ABCDEF"

  predicate IsDigitOf(c: char, d: nat) {
    d < 16 && (c == LOWER[d] || c == UPPER[d])
  }

  /** Four hex digits, of either case, spell a number. */
  predicate Spells(hex: string, n: nat) {
    && |hex| == 4 && n < 0x10000
    && IsDigitOf(hex[0], n / 0x1000) && IsDigitOf(hex[1], n / 0x100 % 0x10)
    && IsDigitOf(hex[2], n / 0x10 % 0x10) && IsDigitOf(hex[3], n % 0x10)
  }

  lemma DigitIs(c: char, d: nat)
    requires IsDigitOf(c, d)
    ensures IsHex(c) && HexOf(c) == d
  {
  }

  lemma SpelledIs(hex: string, n: nat)
    requires Spells(hex, n)
    ensures IsHex4(hex) && Hex4(hex) == n
  {
    hide IsHex, HexOf, IsDigitOf;
    DigitIs(hex[0], n / 0x1000);
    DigitIs(hex[1], n / 0x100 % 0x10);
    DigitIs(hex[2], n / 0x10 % 0x10);
    DigitIs(hex[3], n % 0x10);
    assert n / 0x10 / 0x10 == n / 0x100 && n / 0x100 / 0x10 == n / 0x1000;
  }

  /** The two-byte escapes: what stands for what. */
  const SHORT: seq<(char, nat)> :=
    [('"', 0x22), ('\\', 0x5C), ('/', 0x2F), ('b', 0x08), ('f', 0x0C), ('n', 0x0A), ('r', 0x0D), ('t', 0x09)]

  /** Part of a string: characters as they are, an escape of two bytes, or one or
      two escapes of four hex digits that spell one character's units. */
  datatype Part =
    | Run(bytes: string)
    | Known(c: char, n: nat)
    | Code(hex: string, n: nat)
    | Codes(high: string, a: nat, low: string, b: nat)

  ghost predicate PartFits(p: Part) {
    match p
    case Run(bytes) => Valid(bytes) && forall i :: 0 <= i < |bytes| ==> bytes[i] >= ' ' && bytes[i] != '"' && bytes[i] != '\\'
    case Known(c, n) => (c, n) in SHORT
    case Code(hex, n) => Spells(hex, n) && IsScalar(n)
    case Codes(high, a, low, b) => Spells(high, a) && 0xD800 <= a < 0xDC00 && Spells(low, b) && 0xDC00 <= b < 0xE000
  }

  ghost predicate PartsFit(ps: seq<Part>) {
    forall i :: 0 <= i < |ps| ==> PartFits(ps[i])
  }

  function PartText(p: Part): string {
    match p
    case Run(bytes) => bytes
    case Known(c, _) => "\\" + [c]
    case Code(hex, _) => "\\u" + hex
    case Codes(high, _, low, _) => "\\u" + high + "\\u" + low
  }

  function PartsText(ps: seq<Part>): string {
    if ps == [] then "" else PartText(ps[0]) + PartsText(ps[1..])
  }

  /** The UTF-16 units it spells. */
  ghost function PartUnits(p: Part): seq<nat>
    requires PartFits(p)
  {
    match p
    case Run(bytes) => Utf16(Points(bytes))
    case Known(_, n) => [n]
    case Code(_, n) => [n]
    case Codes(_, a, _, b) => [a, b]
  }

  ghost function PartsUnits(ps: seq<Part>): seq<nat>
    requires PartsFit(ps)
  {
    if ps == [] then [] else PartUnits(ps[0]) + PartsUnits(ps[1..])
  }

  // Parts as the pieces the reader takes.

  function Plains(bytes: string): (ps: seq<Piece>)
    ensures |ps| == |bytes| && forall i :: 0 <= i < |ps| ==> ps[i] == Plain(bytes[i])
  {
    seq(|bytes|, i requires 0 <= i < |bytes| => Plain(bytes[i]))
  }

  function PiecesOf(p: Part): seq<Piece> {
    match p
    case Run(bytes) => Plains(bytes)
    case Known(c, _) => [Short(c)]
    case Code(hex, _) => [Unit(hex)]
    case Codes(high, _, low, _) => [Surrogates(high, low)]
  }

  lemma {:induction false} PlainText(bytes: string)
    requires forall i :: 0 <= i < |bytes| ==> bytes[i] >= ' ' && bytes[i] != '"' && bytes[i] != '\\'
    ensures PiecesFit(Plains(bytes)) && PiecesText(Plains(bytes)) == bytes && PiecesMean(Plains(bytes)) == bytes
  {
    if bytes != "" {
      PlainText(bytes[1..]);
      assert Plains(bytes)[1..] == Plains(bytes[1..]);
      assert bytes == [bytes[0]] + bytes[1..];
    }
  }

  lemma OnePiece(p: Piece)
    requires PieceFits(p)
    ensures PiecesFit([p]) && PiecesText([p]) == PieceText(p) && PiecesMean([p]) == PieceMeans(p)
  {
    hide PieceFits, PieceText, PieceMeans;
    assert [p][1..] == [];
  }

  lemma OnePoint(n: nat)
    requires IsScalar(n)
    ensures Valid(RuneBytes(n)) && Points(RuneBytes(n)) == [n]
  {
    hide RuneBytes, RuneLength, PointAt;
    PointOfBytes(n);
    var s := RuneBytes(n);
    assert s[|s|..] == "";
  }

  lemma OneByte(n: nat)
    requires n < 0x80
    ensures [n as char] == RuneBytes(n)
  {
  }

  lemma UnitsOfOne(n: nat)
    ensures Utf16([n]) == UnitsOf(n)
  {
    assert [n][1..] == [];
  }

  lemma ShortStands(c: char, n: nat)
    requires (c, n) in SHORT
    ensures n < 0x80 && Escaped(c) == Some(n as char)
  {
  }

  /** A part is read as characters with the units it spells, and is valid. */
  lemma PartReads(p: Part)
    requires PartFits(p)
    ensures var ps := PiecesOf(p);
            && PiecesFit(ps) && PiecesText(ps) == PartText(p) && Valid(PartText(p))
            && Valid(PiecesMean(ps)) && Utf16(Points(PiecesMean(ps))) == PartUnits(p)
  {
    hide RuneBytes, Hex4, IsHex4, Spells, Pair, UnitsOf, Points, Valid, Utf16, PiecesMean, PiecesText, PiecesFit, Escaped;
    match p
    case Run(bytes) =>
      PlainText(bytes);
    case Known(c, n) =>
      ShortStands(c, n);
      OneByte(n);
      OnePiece(Short(c));
      OnePoint(n);
      UnitsOfOne(n);
      OneUnit(n);
      PieceIsAscii(Short(c));
      AsciiIsValid(PartText(p));
    case Code(hex, n) =>
      SpelledIs(hex, n);
      OnePiece(Unit(hex));
      OnePoint(n);
      UnitsOfOne(n);
      OneUnit(n);
      PieceIsAscii(Unit(hex));
      AsciiIsValid(PartText(p));
    case Codes(high, a, low, b) =>
      SpelledIs(high, a);
      SpelledIs(low, b);
      PairIsItsUnits(a, b);
      OnePiece(Surrogates(high, low));
      OnePoint(Pair(a, b));
      UnitsOfOne(Pair(a, b));
      PieceIsAscii(Surrogates(high, low));
      AsciiIsValid(PartText(p));
  }

  lemma OneUnit(n: nat)
    requires IsScalar(n)
    ensures n < 0x10000 ==> UnitsOf(n) == [n]
  {
  }

  lemma {:induction false} PiecesJoin(a: seq<Piece>, b: seq<Piece>)
    requires PiecesFit(a) && PiecesFit(b)
    ensures PiecesFit(a + b) && PiecesText(a + b) == PiecesText(a) + PiecesText(b) && PiecesMean(a + b) == PiecesMean(a) + PiecesMean(b)
  {
    hide PieceFits, PieceText, PieceMeans;
    if a == [] {
      assert a + b == b;
    } else {
      PiecesJoin(a[1..], b);
      assert (a + b)[1..] == a[1..] + b;
    }
  }

  lemma {:induction false} PartsRead(ps: seq<Part>) returns (qs: seq<Piece>)
    requires PartsFit(ps)
    ensures PiecesFit(qs) && PiecesText(qs) == PartsText(ps) && Valid(PartsText(ps))
    ensures Valid(PiecesMean(qs)) && Utf16(Points(PiecesMean(qs))) == PartsUnits(ps)
  {
    hide PartFits, PartText, PartUnits, PiecesText, PiecesMean, PiecesFit, PiecesOf, Points, Valid, Utf16;
    if ps == [] {
      qs := [];
      NoParts();
    } else {
      var more := PartsRead(ps[1..]);
      var first := PiecesOf(ps[0]);
      PartReads(ps[0]);
      qs := first + more;
      PiecesJoin(first, more);
      ValidBoth(PartText(ps[0]), PartsText(ps[1..]));
      PointsAppend(PiecesMean(first), PiecesMean(more));
      Utf16Append(Points(PiecesMean(first)), Points(PiecesMean(more)));
    }
  }

  lemma ValidBoth(a: string, b: string)
    requires Valid(a) && Valid(b)
    ensures Valid(a + b)
  {
    ValidAppend(a, b);
  }

  lemma NoParts()
    ensures PiecesFit([]) && PiecesText([]) == "" && PiecesMean([]) == "" && Valid("") && Points("") == [] && Utf16([]) == []
  {
  }

  /** A record that is one string, however it is spelled, is read as the string
      whose code points have exactly the units that were spelled. */
  lemma StringMeans(ps: seq<Part>)
    requires PartsFit(ps)
    ensures var v := ReadJSON("\"" + PartsText(ps) + "\"");
            v.Some? && v.value.String? && Valid(v.value.content) && Utf16(Points(v.value.content)) == PartsUnits(ps)
  {
    hide PartsFit, PartsText, PartsUnits, PiecesText, PiecesMean, PiecesFit, Points, Valid, Utf16, ReadJSON;
    var qs := PartsRead(ps);
    var data := "\"" + PartsText(ps) + "\"";
    QuotedIsValid(PartsText(ps));
    StringIsText(qs);
    ReadsExactly(data, String(PiecesMean(qs)));
  }

  lemma QuotedIsValid(s: string)
    requires Valid(s)
    ensures Valid("\"" + s + "\"")
  {
    AsciiIsValid("\"");
    ValidBoth("\"", s);
    ValidBoth("\"" + s, "\"");
  }

  lemma StringIsText(qs: seq<Piece>)
    requires PiecesFit(qs)
    ensures Writes("\"" + PiecesText(qs) + "\"", "", TString(qs), "") && ValueOf(TString(qs)) == String(PiecesMean(qs))
  {
    var t := Print(TString(qs), "");
    assert t == "\"" + (PiecesText(qs) + "\"" + "");
    assert "" + t == t && PiecesText(qs) + "\"" + "" == PiecesText(qs) + "\"";
    assert "\"" + (PiecesText(qs) + "\"") == "\"" + PiecesText(qs) + "\"";
  }
}
