/** The characters of a knot's file (knot/canon.go): which it may hold, white
    space, bodies, and strings quoted as Go's encoding/json writes and reads
    them. */
module KnotText {
  import opened Wrappers
  import opened Utf8
  import JsonText
  import JsonParse
  import Decimal

  // Which characters a file may hold.

  /** Whether a text opens with a character that is kept out of files: any control
      but newline and tab, and the two noncharacters U+FFFE and U+FFFF. */
  predicate Refused(s: string)
    requires RuneLength(s) > 0
  {
    var n := RuneLength(s);
    if n == 1 then (s[0] < ' ' && s[0] != '\n' && s[0] != '\t') || s[0] as nat == 0x7F
    else if n == 2 then s[0] as nat == 0xC2 && s[1] as nat <= 0x9F
    else n == 3 && s[0] as nat == 0xEF && s[1] as nat == 0xBF && s[2] as nat >= 0xBE
  }

  /** checkText accepts it. */
  predicate TextFits(s: string) {
    s == "" || (RuneLength(s) > 0 && !Refused(s) && TextFits(s[RuneLength(s)..]))
  }

  lemma {:induction false} TextAppend(s: string, t: string)
    requires TextFits(s)
    ensures TextFits(s + t) <==> TextFits(t)
    decreases |s|
  {
    hide RuneLength, Refused;
    if s == "" {
      assert s + t == t;
    } else {
      var n := RuneLength(s);
      RuneLengthAppend(s, t);
      TextAppend(s[n..], t);
      assert (s + t)[n..] == s[n..] + t;
      assert s[..n] == (s + t)[..n];
      assert Refused(s + t) == Refused(s) by { SameFront(s, s + t); }
    }
  }

  lemma SameFront(s: string, t: string)
    requires RuneLength(s) > 0 && RuneLength(t) == RuneLength(s) && s[..RuneLength(s)] == t[..RuneLength(s)]
    ensures Refused(s) == Refused(t)
  {
    hide RuneLength;
    var n := RuneLength(s);
    assert forall i :: 0 <= i < n ==> s[i] == s[..n][i] && t[i] == t[..n][i];
  }

  predicate IsPrintable(s: string) {
    forall i :: 0 <= i < |s| ==> ' ' <= s[i] <= '~'
  }

  lemma {:induction false} PrintableFits(s: string)
    requires IsPrintable(s)
    ensures TextFits(s)
  {
    if s != "" {
      PrintableFits(s[1..]);
      assert RuneLength(s) == 1;
    }
  }

  lemma {:induction false} TextIsValid(s: string)
    requires TextFits(s)
    ensures Valid(s)
    decreases |s|
  {
    if s != "" { TextIsValid(s[RuneLength(s)..]); }
  }

  // White space, as Go's unicode.IsSpace has it.

  /** The bytes of the white space a text opens with, or 0 when it opens with
      none. */
  function SpaceLength(s: string): (n: nat)
    ensures n <= |s|
  {
    if s == "" then 0
    else if s[0] == ' ' || In(s[0], 9, 13) then 1
    else if |s| >= 2 && s[0] as nat == 0xC2 && (s[1] as nat == 0x85 || s[1] as nat == 0xA0) then 2
    else if |s| >= 3 && WideSpace(s[0] as nat, s[1] as nat, s[2] as nat) then 3
    else 0
  }

  predicate WideSpace(a: nat, b: nat, c: nat) {
    || (a == 0xE1 && b == 0x9A && c == 0x80)
    || (a == 0xE2 && b == 0x80 && (0x80 <= c <= 0x8A || c == 0xA8 || c == 0xA9 || c == 0xAF))
    || (a == 0xE2 && b == 0x81 && c == 0x9F)
    || (a == 0xE3 && b == 0x80 && c == 0x80)
  }

  predicate IsSpaces(s: string) {
    s == "" || (SpaceLength(s) > 0 && IsSpaces(s[SpaceLength(s)..]))
  }

  function TrimLeft(s: string): (r: string)
    ensures |r| <= |s|
  {
    if SpaceLength(s) > 0 then TrimLeft(s[SpaceLength(s)..]) else s
  }

  function TrimRight(s: string): (r: string)
    ensures |r| <= |s|
    decreases |s|
  {
    if IsSpaces(s) then ""
    else
      var n := if RuneLength(s) > 1 then RuneLength(s) else 1;
      s[..n] + TrimRight(s[n..])
  }

  /** strings.TrimSpace. */
  function Trim(s: string): (r: string)
    ensures |r| <= |s|
  {
    TrimRight(TrimLeft(s))
  }

  predicate IsInk(c: char) {
    '!' <= c <= '~'
  }

  /** Text that opens and ends with a visible ASCII character. */
  predicate IsInked(s: string) {
    s != "" && IsInk(s[0]) && IsInk(s[|s| - 1])
  }

  lemma {:induction false} InkIsNoSpace(s: string)
    requires s != "" && IsInk(s[|s| - 1])
    ensures !IsSpaces(s)
    decreases |s|
  {
    var n := SpaceLength(s);
    if 0 < n < |s| { InkIsNoSpace(s[n..]); }
  }

  lemma {:induction false} TrimRightKeeps(s: string)
    requires s != "" && IsInk(s[|s| - 1])
    ensures TrimRight(s) == s
    decreases |s|
  {
    hide SpaceLength;
    InkIsNoSpace(s);
    var n := if RuneLength(s) > 1 then RuneLength(s) else 1;
    if n < |s| {
      TrimRightKeeps(s[n..]);
    } else {
      NothingToTrim();
      assert s[n..] == "";
    }
    assert s == s[..n] + s[n..];
  }

  lemma NothingToTrim()
    ensures TrimRight("") == "" && TrimLeft("") == "" && Trim("") == ""
  {
  }

  /** Trimming leaves inked text as it is, and takes one space from its front. */
  lemma TrimKeeps(s: string)
    requires IsInked(s)
    ensures Trim(s) == s && Trim(" " + s) == s
  {
    TrimRightKeeps(s);
    assert (" " + s)[1..] == s;
    assert TrimLeft(s) == s;
    assert TrimLeft(" " + s) == TrimLeft((" " + s)[1..]);
  }

  // Quoted strings.

  /** The bytes of the character a text opens with, one byte where they are no
      character. */
  function CharLength(s: string): (n: nat)
    requires s != ""
    ensures 0 < n <= |s|
  {
    if RuneLength(s) > 0 then RuneLength(s) else 1
  }

  function QuoteAscii(c: char): string
    requires c as nat < 0x80
  {
    match c
    case '"' => "\\\""
    case '\\' => "\\\\"
    case '\n' => "\\n"
    case '\r' => "\\r"
    case '\t' => "\\t"
    case '\U{08}' => "\\b"
    case '\U{0C}' => "\\f"
    case _ =>
      if c < ' ' then ['\\', 'u', '0', '0', Decimal.HexDigit(c as nat / 16), Decimal.HexDigit(c as nat % 16)]
      else [c]
  }

  predicate IsLineSeparator(s: string) {
    |s| >= 3 && s[0] as nat == 0xE2 && s[1] as nat == 0x80 && (s[2] as nat == 0xA8 || s[2] as nat == 0xA9)
  }

  /** A character as Go's encoder writes it in a string, with <, > and & left as
      they are. */
  function QuoteChar(s: string): string
    requires s != ""
  {
    if RuneLength(s) == 0 then "\\ufffd"
    else if RuneLength(s) == 1 then QuoteAscii(s[0])
    else if IsLineSeparator(s) then if s[2] as nat == 0xA8 then "\\u2028" else "\\u2029"
    else s[..RuneLength(s)]
  }

  function QuoteInner(s: string): string
    decreases |s|
  {
    if s == "" then "" else QuoteChar(s) + QuoteInner(s[CharLength(s)..])
  }

  function Quote(s: string): string {
    "\"" + QuoteInner(s) + "\""
  }

  /** What Go's decoder reads next in a string: how many bytes, and what they
      say. A half of a surrogate pair alone says U+FFFD. */
  function QuotedAt(s: string): (r: Option<(nat, string)>)
    requires s != "" && s[0] != '"'
    ensures r.Some? ==> 0 < r.value.0 <= |s|
  {
    match JsonParse.PieceAt(s)
    case Some(p) => Some((|JsonText.PieceText(p)|, JsonText.PieceMeans(p)))
    case None =>
      if |s| >= 6 && s[0] == '\\' && s[1] == 'u' && JsonText.IsHex4(s[2..6]) then Some((6, JsonText.RuneBytes(0xFFFD)))
      else None
  }

  /** A string's content after its opening quote, and what is left after its
      closing one. */
  function Unquoted(s: string, out: string): (r: Option<(string, string)>)
    ensures r.Some? ==> |r.value.1| < |s|
    decreases |s|
  {
    if s == "" then None
    else if s[0] == '"' then Some((out, s[1..]))
    else match QuotedAt(s)
      case None => None
      case Some((n, said)) => Unquoted(s[n..], out + said)
  }

  /** json.Unmarshal of a value that opens with a quote into a string. */
  function Unmarshal(value: string): Option<string>
    requires value != ""
  {
    match Unquoted(value[1..], "")
    case None => None
    case Some((s, rest)) => if JsonText.IsBlank(rest) then Some(s) else None
  }

  /** The piece a character is quoted as, where it is quoted as one. */
  function PieceOf(c: char): (p: JsonText.Piece)
    requires c as nat < 0x80
    ensures JsonText.PieceFits(p) && JsonText.PieceText(p) == QuoteAscii(c) && JsonText.PieceMeans(p) == [c]
  {
    if QuoteAscii(c) == [c] then JsonText.Plain(c)
    else if |QuoteAscii(c)| == 2 then JsonText.Short(QuoteAscii(c)[1])
    else
      var p := JsonText.Unit(QuoteAscii(c)[2..]);
      assert JsonText.Hex4(p.hex) == c as nat;
      p
  }

  lemma PieceUnquoted(p: JsonText.Piece, t: string, out: string)
    requires JsonText.PieceFits(p)
    ensures Unquoted(JsonText.PieceText(p) + t, out) == Unquoted(t, out + JsonText.PieceMeans(p))
  {
    hide JsonParse.PieceAt, JsonText.PieceText, JsonText.PieceMeans, JsonText.PieceFits;
    JsonParse.PieceReads(p, t);
    assert (JsonText.PieceText(p) + t)[|JsonText.PieceText(p)|..] == t;
  }

  lemma {:induction false} BytesUnquoted(p: string, t: string, out: string)
    requires forall i :: 0 <= i < |p| ==> p[i] as nat >= 0x80
    ensures Unquoted(p + t, out) == Unquoted(t, out + p)
  {
    hide Unquoted, QuotedAt;
    if p == "" {
      assert p + t == t && out + p == out;
    } else {
      var q := JsonText.Plain(p[0]);
      PieceUnquoted(q, p[1..] + t, out);
      BytesUnquoted(p[1..], t, out + [p[0]]);
      assert p + t == [p[0]] + (p[1..] + t);
      assert out + [p[0]] + p[1..] == out + p;
    }
  }

  lemma SeparatorSays(s: string)
    requires RuneLength(s) > 1 && IsLineSeparator(s)
    ensures var p := JsonText.Unit(if s[2] as nat == 0xA8 then "2028" else "2029");
            && JsonText.PieceFits(p) && JsonText.PieceText(p) == QuoteChar(s)
            && JsonText.PieceMeans(p) == s[..RuneLength(s)]
  {
    var hex := if s[2] as nat == 0xA8 then "2028" else "2029";
    assert JsonText.Hex4(hex) == if s[2] as nat == 0xA8 then 0x2028 else 0x2029;
  }

  lemma CharUnquoted(s: string, t: string, out: string)
    requires RuneLength(s) > 0
    ensures Unquoted(QuoteChar(s) + t, out) == Unquoted(t, out + s[..RuneLength(s)])
  {
    hide Unquoted, QuotedAt, RuneLength, QuoteAscii, IsLineSeparator;
    RuneIsValid(s);
    if RuneLength(s) == 1 {
      PieceUnquoted(PieceOf(s[0]), t, out);
      assert s[..1] == [s[0]];
    } else if IsLineSeparator(s) {
      SeparatorSays(s);
      PieceUnquoted(JsonText.Unit(if s[2] as nat == 0xA8 then "2028" else "2029"), t, out);
    } else {
      BytesUnquoted(s[..RuneLength(s)], t, out);
    }
  }

  /** A quoted string is read back. */
  lemma {:induction false} QuoteUnquoted(s: string, rest: string, out: string)
    requires Valid(s)
    ensures Unquoted(QuoteInner(s) + "\"" + rest, out) == Some((out + s, rest))
    decreases |s|
  {
    hide QuoteChar, RuneLength, QuotedAt;
    if s == "" {
      assert QuoteInner(s) + "\"" + rest == "\"" + rest && out + s == out;
    } else {
      var n := RuneLength(s);
      var t := QuoteInner(s[n..]) + "\"" + rest;
      assert QuoteInner(s) + "\"" + rest == QuoteChar(s) + t;
      CharUnquoted(s, t, out);
      QuoteUnquoted(s[n..], rest, out + s[..n]);
      assert out + s[..n] + s[n..] == out + s;
    }
  }

  lemma Unquotes(s: string)
    requires Valid(s)
    ensures Unmarshal(Quote(s)) == Some(s)
  {
    hide Unquoted, QuoteInner;
    QuoteUnquoted(s, "", "");
    assert Quote(s)[1..] == QuoteInner(s) + "\"" + "";
    assert "" + s == s;
  }

  // Where a quoted string ends.

  /** The place of the quote that closes a string, skipping escaped bytes. */
  function StringEnd(s: string): nat {
    if s == "" || s[0] == '"' then 0
    else if s[0] != '\\' then 1 + StringEnd(s[1..])
    else if |s| == 1 then 2
    else 2 + StringEnd(s[2..])
  }

  predicate IsPlain(s: string) {
    forall i :: 0 <= i < |s| ==> s[i] != '"' && s[i] != '\\' && s[i] >= ' '
  }

  lemma {:induction false} PlainEnd(p: string, t: string)
    requires IsPlain(p)
    ensures StringEnd(p + t) == |p| + StringEnd(t)
  {
    if p == "" {
      assert p + t == t;
    } else {
      PlainEnd(p[1..], t);
      assert (p + t)[1..] == p[1..] + t;
    }
  }

  /** A quoted character is plain, or a backslash, a byte and plain ones. */
  predicate IsQuoted(q: string) {
    IsPlain(q) || (|q| >= 2 && q[0] == '\\' && q[1] >= ' ' && IsPlain(q[2..]))
  }

  lemma AsciiIsQuoted(c: char)
    requires c as nat < 0x80
    ensures IsQuoted(QuoteAscii(c)) && QuoteAscii(c) != ""
    ensures IsPrintable(QuoteAscii(c)) || QuoteAscii(c) == [0x7F as char]
  {
  }

  lemma SeparatorIsQuoted()
    ensures IsQuoted("\\u2028") && IsQuoted("\\u2029") && IsQuoted("\\ufffd")
    ensures IsPrintable("\\u2028") && IsPrintable("\\u2029") && IsPrintable("\\ufffd")
  {
  }

  lemma CharIsQuoted(s: string)
    requires s != ""
    ensures IsQuoted(QuoteChar(s)) && QuoteChar(s) != ""
    ensures RuneLength(s) <= 1 || IsLineSeparator(s) ==> IsPrintable(QuoteChar(s)) || QuoteChar(s) == [0x7F as char]
  {
    hide RuneLength, QuoteAscii, IsQuoted, IsPrintable, IsLineSeparator;
    SeparatorIsQuoted();
    if RuneLength(s) > 0 {
      RuneIsValid(s);
      if RuneLength(s) == 1 { AsciiIsQuoted(s[0]); } else { WideIsQuoted(s[..RuneLength(s)]); }
    }
  }

  lemma WideIsQuoted(s: string)
    requires forall i :: 0 <= i < |s| ==> s[i] as nat >= 0x80
    ensures IsQuoted(s)
  {
  }

  lemma QuotedEnd(q: string, t: string)
    requires IsQuoted(q)
    ensures StringEnd(q + t) == |q| + StringEnd(t)
  {
    hide IsPlain;
    if IsPlain(q) {
      PlainEnd(q, t);
    } else {
      PlainEnd(q[2..], t);
      assert (q + t)[2..] == q[2..] + t;
    }
  }

  predicate NoControls(s: string) {
    forall i :: 0 <= i < |s| ==> s[i] >= ' '
  }

  lemma QuotedHasNoControls(q: string)
    requires IsQuoted(q)
    ensures NoControls(q)
  {
    if !IsPlain(q) {
      assert forall i :: 2 <= i < |q| ==> q[i] == q[2..][i - 2];
    }
  }

  /** A quoted string holds no newline, and ends at its own closing quote. */
  lemma {:induction false} QuoteEnds(s: string, rest: string)
    ensures StringEnd(QuoteInner(s) + "\"" + rest) == |QuoteInner(s)|
    ensures NoControls(QuoteInner(s))
    decreases |s|
  {
    hide QuoteChar, IsQuoted, StringEnd;
    if s == "" {
      NoneToQuote(rest);
    } else {
      var q, more := QuoteChar(s), QuoteInner(s[CharLength(s)..]);
      CharIsQuoted(s);
      QuotedHasNoControls(q);
      QuoteEnds(s[CharLength(s)..], rest);
      QuotedEnd(q, more + "\"" + rest);
      Regrouped(q, more, "\"", rest);
    }
  }

  lemma NoneToQuote(rest: string)
    ensures StringEnd(QuoteInner("") + "\"" + rest) == 0
  {
    assert QuoteInner("") + "\"" + rest == "\"" + rest;
  }

  lemma Regrouped(a: string, b: string, c: string, d: string)
    ensures (a + b) + c + d == a + (b + c + d)
  {
  }

  // Quoted text fits.

  lemma CharFits(s: string)
    requires s != "" && TextFits(s)
    ensures TextFits(QuoteChar(s))
  {
    hide QuoteChar, RuneLength;
    var n := RuneLength(s);
    RuneIsValid(s);
    CharIsQuoted(s);
    if n == 1 || IsLineSeparator(s) {
      DeleteIsRefused(s);
      PrintableFits(QuoteChar(s));
    } else {
      RuneFits(s);
      assert QuoteChar(s) == s[..n] by { WideQuoted(s); }
    }
  }

  lemma WideQuoted(s: string)
    requires RuneLength(s) > 1 && !IsLineSeparator(s)
    ensures QuoteChar(s) == s[..RuneLength(s)]
  {
  }

  lemma DeleteIsRefused(s: string)
    requires s != "" && TextFits(s) && (RuneLength(s) == 1 || IsLineSeparator(s))
    ensures QuoteChar(s) != [0x7F as char]
  {
  }

  lemma RuneFits(s: string)
    requires s != "" && TextFits(s)
    ensures TextFits(s[..RuneLength(s)])
  {
    var n := RuneLength(s);
    var r := s[..n];
    assert RuneLength(r) == n;
    SameFront(s, r);
    assert r[n..] == "";
  }

  lemma {:induction false} InnerFits(s: string)
    requires TextFits(s)
    ensures TextFits(QuoteInner(s))
    decreases |s|
  {
    hide QuoteChar, RuneLength, Refused;
    if s != "" {
      CharFits(s);
      InnerFits(s[CharLength(s)..]);
      TextAppend(QuoteChar(s), QuoteInner(s[CharLength(s)..]));
    }
  }

  lemma QuoteFits(s: string)
    requires TextFits(s)
    ensures TextFits(Quote(s))
  {
    hide TextFits, QuoteInner;
    InnerFits(s);
    PrintableFits("\"");
    TextAppend(QuoteInner(s), "\"");
    TextAppend("\"", QuoteInner(s) + "\"");
    assert Quote(s) == "\"" + (QuoteInner(s) + "\"");
  }
}
