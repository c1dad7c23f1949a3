/** JSON as a record is written in it: values, and their texts with whatever
    white space and escapes section 2 and section 7 of RFC 8259 allow. */
module JsonText {
  import opened Wrappers
  import opened Decimal

  const MAX_DEPTH: nat := 8

  /** One JSON value as read: an object's keys in order beside its fields, and a
      number's or a literal's own text. */
  datatype Value =
    | Object(keys: seq<string>, fields: map<string, Value>)
    | Array(items: seq<Value>)
    | String(content: string)
    | Number(text: string)
    | Literal(text: string)

  // White space.

  predicate IsSpace(c: char) {
    c == ' ' || c == '\t' || c == '\n' || c == '\r'
  }

  predicate IsBlank(s: string) {
    forall i :: 0 <= i < |s| ==> IsSpace(s[i])
  }

  // Characters of a string.

  predicate IsHex(c: char) {
    '0' <= c <= '9' || 'a' <= c <= 'f' || 'A' <= c <= 'F'
  }

  function HexOf(c: char): (n: nat)
    requires IsHex(c)
    ensures n < 16
  {
    if c <= '9' then c as nat - '0' as nat
    else if c <= 'F' then c as nat - 'A' as nat + 10
    else c as nat - 'a' as nat + 10
  }

  predicate IsHex4(s: string) {
    |s| == 4 && IsHex(s[0]) && IsHex(s[1]) && IsHex(s[2]) && IsHex(s[3])
  }

  function Hex4(s: string): (n: nat)
    requires IsHex4(s)
    ensures n < 0x10000
  {
    4096 * HexOf(s[0]) + 256 * HexOf(s[1]) + 16 * HexOf(s[2]) + HexOf(s[3])
  }

  predicate IsHigh(n: nat) { 0xD800 <= n < 0xDC00 }
  predicate IsLow(n: nat) { 0xDC00 <= n < 0xE000 }

  function Pair(high: nat, low: nat): (n: nat)
    requires IsHigh(high) && IsLow(low)
    ensures 0x10000 <= n < 0x110000
  {
    0x10000 + (high - 0xD800) * 0x400 + (low - 0xDC00)
  }

  function Byte(n: nat): char
    requires n < 256
  {
    n as char
  }

  /** A character's UTF-8 bytes. */
  function RuneBytes(n: nat): (s: string)
    requires n < 0x110000
    ensures s != ""
  {
    if n < 0x80 then [Byte(n)]
    else if n < 0x800 then [Byte(0xC0 + n / 0x40), Byte(0x80 + n % 0x40)]
    else if n < 0x10000 then [Byte(0xE0 + n / 0x1000), Byte(0x80 + n / 0x40 % 0x40), Byte(0x80 + n % 0x40)]
    else [Byte(0xF0 + n / 0x40000), Byte(0x80 + n / 0x1000 % 0x40), Byte(0x80 + n / 0x40 % 0x40), Byte(0x80 + n % 0x40)]
  }

  /** What a two-byte escape stands for. */
  function Escaped(c: char): Option<char> {
    match c
    case '"' => Some('"')
    case '\\' => Some('\\')
    case '/' => Some('/')
    case 'b' => Some('\U{08}')
    case 'f' => Some('\U{0C}')
    case 'n' => Some('\n')
    case 'r' => Some('\r')
    case 't' => Some('\t')
    case _ => None
  }

  /** One piece of a string: a byte as it is, an escape of two bytes, a character
      by its four hex digits, or one by its surrogate pair. */
  datatype Piece = Plain(c: char) | Short(c: char) | Unit(hex: string) | Surrogates(high: string, low: string)

  predicate PieceFits(p: Piece) {
    match p
    case Plain(c) => c >= ' ' && c != '"' && c != '\\'
    case Short(c) => Escaped(c).Some?
    case Unit(hex) => IsHex4(hex) && !IsHigh(Hex4(hex)) && !IsLow(Hex4(hex))
    case Surrogates(high, low) => IsHex4(high) && IsHex4(low) && IsHigh(Hex4(high)) && IsLow(Hex4(low))
  }

  function PieceText(p: Piece): (s: string)
    ensures s != ""
  {
    match p
    case Plain(c) => [c]
    case Short(c) => ['\\', c]
    case Unit(hex) => "\\u" + hex
    case Surrogates(high, low) => "\\u" + high + "\\u" + low
  }

  function PieceMeans(p: Piece): string
    requires PieceFits(p)
  {
    match p
    case Plain(c) => [c]
    case Short(c) => [Escaped(c).value]
    case Unit(hex) => RuneBytes(Hex4(hex))
    case Surrogates(high, low) => RuneBytes(Pair(Hex4(high), Hex4(low)))
  }

  predicate PiecesFit(ps: seq<Piece>) {
    forall i :: 0 <= i < |ps| ==> PieceFits(ps[i])
  }

  function PiecesText(ps: seq<Piece>): string {
    if ps == [] then "" else PieceText(ps[0]) + PiecesText(ps[1..])
  }

  function PiecesMean(ps: seq<Piece>): string
    requires PiecesFit(ps)
  {
    if ps == [] then "" else PieceMeans(ps[0]) + PiecesMean(ps[1..])
  }

  // Texts of values, with the white space and escapes they are written with.

  datatype Text =
    | TString(pieces: seq<Piece>)
    | TNumber(sign: string, whole: string, part: string, exponent: string)
    | TLiteral(word: string)
    | TObject(inside: string, members: Members)
    | TArray(inside: string, elements: Elements)

  /** A member, with the white space before its key, after it, before its value
      and after that, and the members after it. */
  datatype Members =
    | NoMembers
    | Member(before: string, key: seq<Piece>, afterKey: string, beforeValue: string, value: Text, after: string, more: Members)

  datatype Elements = NoElements | Element(before: string, value: Text, after: string, more: Elements)

  /** A text, and after it the rest. */
  function Print(t: Text, rest: string): string {
    match t
    case TString(ps) => "\"" + (PiecesText(ps) + "\"" + rest)
    case TNumber(sign, whole, part, exponent) => sign + (whole + (part + (exponent + rest)))
    case TLiteral(word) => word + rest
    case TObject(inside, ms) => "{" + (if ms.NoMembers? then inside + ("}" + rest) else PrintMembers(ms, "}" + rest))
    case TArray(inside, es) => "[" + (if es.NoElements? then inside + ("]" + rest) else PrintElements(es, "]" + rest))
  }

  function PrintMembers(ms: Members, rest: string): string {
    match ms
    case NoMembers => rest
    case Member(before, key, afterKey, beforeValue, v, after, more) =>
      before + ("\"" + (PiecesText(key) + "\"" + (afterKey + (":" + (beforeValue
      + Print(v, after + if more.NoMembers? then rest else "," + PrintMembers(more, rest)))))))
  }

  function PrintElements(es: Elements, rest: string): string {
    match es
    case NoElements => rest
    case Element(before, v, after, more) =>
      before + Print(v, after + if more.NoElements? then rest else "," + PrintElements(more, rest))
  }

  // What a text says.

  function ValueOf(t: Text): Value
    requires Fits(t)
  {
    match t
    case TString(ps) => String(PiecesMean(ps))
    case TNumber(sign, whole, part, exponent) => Number(sign + whole + part + exponent)
    case TLiteral(word) => Literal(word)
    case TObject(_, ms) => Object(KeysOf(ms), FieldsOf(ms))
    case TArray(_, es) => Array(ItemsOf(es))
  }

  function KeysOf(ms: Members): seq<string>
    requires MembersFit(ms)
    decreases ms, 1
  {
    match ms
    case NoMembers => []
    case Member(_, key, _, _, _, _, more) => [PiecesMean(key)] + KeysOf(more)
  }

  function FieldsOf(ms: Members): map<string, Value>
    requires MembersFit(ms)
  {
    match ms
    case NoMembers => map[]
    case Member(_, key, _, _, v, _, more) => FieldsOf(more)[PiecesMean(key) := ValueOf(v)]
  }

  function ItemsOf(es: Elements): seq<Value>
    requires ElementsFit(es)
  {
    match es
    case NoElements => []
    case Element(_, v, _, more) => [ValueOf(v)] + ItemsOf(more)
  }

  predicate NumberFits(sign: string, whole: string, part: string, exponent: string) {
    && (sign == "" || sign == "-")
    && Canonical(whole)
    && FractionFits(part)
    && ExponentFits(exponent)
  }

  predicate FractionFits(s: string) {
    s == "" || (|s| > 1 && s[0] == '.' && AllDigits(s[1..]))
  }

  predicate ExponentFits(s: string) {
    s == "" ||
    (&& |s| > 1 && (s[0] == 'e' || s[0] == 'E')
     && (AllDigits(s[1..]) || (|s| > 2 && (s[1] == '+' || s[1] == '-') && AllDigits(s[2..]))))
  }

  /** A text's own parts fit, and no object names a key twice. */
  predicate Fits(t: Text) {
    match t
    case TString(ps) => PiecesFit(ps)
    case TNumber(sign, whole, part, exponent) => NumberFits(sign, whole, part, exponent)
    case TLiteral(word) => word == "true" || word == "false" || word == "null"
    case TObject(inside, ms) => IsBlank(inside) && MembersFit(ms)
    case TArray(inside, es) => IsBlank(inside) && ElementsFit(es)
  }

  predicate MembersFit(ms: Members)
    decreases ms, 0
  {
    match ms
    case NoMembers => true
    case Member(before, key, afterKey, beforeValue, v, after, more) =>
      && IsBlank(before) && PiecesFit(key) && IsBlank(afterKey) && IsBlank(beforeValue) && Fits(v) && IsBlank(after)
      && MembersFit(more) && PiecesMean(key) !in KeysOf(more)
  }

  predicate ElementsFit(es: Elements) {
    match es
    case NoElements => true
    case Element(before, v, after, more) => IsBlank(before) && Fits(v) && IsBlank(after) && ElementsFit(more)
  }

  /** How deep a text nests is at most n. */
  predicate DeepAtMost(t: Text, n: nat) {
    && n > 0
    && match t
       case TObject(_, ms) => MembersDeep(ms, n - 1)
       case TArray(_, es) => ElementsDeep(es, n - 1)
       case _ => true
  }

  predicate MembersDeep(ms: Members, n: nat) {
    ms.Member? ==> DeepAtMost(ms.value, n) && MembersDeep(ms.more, n)
  }

  predicate ElementsDeep(es: Elements, n: nat) {
    es.Element? ==> DeepAtMost(es.value, n) && ElementsDeep(es.more, n)
  }
}
