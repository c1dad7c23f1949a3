/** A knot's file as text (knot/canon.go): Render and ParseKnot as functions, and
    the loops that compute them. */
module KnotCanon {
  import opened Wrappers
  import opened Strings
  import opened KnotText
  import opened KnotBody
  import opened KnotList
  import opened KnotFields

  const FENCE := "---\n"
  const CLOSE := "\n---\n"

  // Render.

  predicate Writes(k: Knot, f: Field) {
    match f
    case Source => k.source != ""
    case Parent => k.parent != ""
    case Owner => k.owner != ""
    case BlockedBy => IsWork(k.typeName) || BlockedItems(k) != []
    case ClaimedBy => k.claimedBy != ""
    case ClaimedAt => k.claimedAt != ""
    case Changes => ChangeItems(k) != []
    case Target => k.target != ""
    case GraduatedInto => k.graduatedInto != ""
    case _ => true
  }

  function ValueText(k: Knot, f: Field): string {
    match Get(k, f)
    case List(_) => RenderList(Items(Get(k, f)))
    case Text(s) => if IsBare(f) then s else Quote(s)
  }

  function LineOf(k: Knot, f: Field): string {
    Name(f) + ": " + ValueText(k, f)
  }

  /** The frontmatter's lines from the field at place i on. */
  function LinesFrom(k: Knot, i: nat): seq<string>
    requires i <= |FIELDS|
    decreases |FIELDS| - i
  {
    if i == |FIELDS| then []
    else (if Writes(k, FIELDS[i]) then [LineOf(k, FIELDS[i])] else []) + LinesFrom(k, i + 1)
  }

  /** The same as text, each line with its newline. */
  function FrontFrom(k: Knot, i: nat): string
    requires i <= |FIELDS|
    decreases |FIELDS| - i
  {
    if i == |FIELDS| then ""
    else (if Writes(k, FIELDS[i]) then LineOf(k, FIELDS[i]) + "\n" else "") + FrontFrom(k, i + 1)
  }

  function BodyText(body: string): string {
    if body == "" then "" else "\n" + body
  }

  function Render(k: Knot): string {
    FENCE + (FrontFrom(k, 0) + (FENCE + BodyText(k.body)))
  }

  // ParseKnot.

  /** strings.Index. */
  function IndexIn(s: string, sub: string): (r: Option<nat>)
    ensures r.Some? ==> r.value + |sub| <= |s| && s[r.value..r.value + |sub|] == sub
  {
    if sub <= s then Some(0)
    else if s == "" then None
    else match IndexIn(s[1..], sub)
      case None => None
      case Some(i) => assert s[1..][i..i + |sub|] == s[1 + i..1 + i + |sub|]; Some(1 + i)
  }

  /** frontmatter: its lines, and what follows the line that closes it. */
  function Frontmatter(text: string): Option<(seq<string>, string)> {
    if !(FENCE <= text) then None
    else
      var rest := text[|FENCE|..];
      if FENCE <= rest then Some(([], rest[|FENCE|..]))
      else match IndexIn(rest, CLOSE)
        case None => None
        case Some(end) => Some((Split(rest[..end], '\n'), rest[end + |CLOSE|..]))
  }

  function ReadBody(rest: string): string {
    if "\n" <= rest then rest[1..] else rest
  }

  function FieldFrom(key: string, i: nat): Option<Field>
    requires i <= |FIELDS|
    decreases |FIELDS| - i
  {
    if i == |FIELDS| then None
    else if Name(FIELDS[i]) == key then Some(FIELDS[i])
    else FieldFrom(key, i + 1)
  }

  function FieldNamed(key: string): Option<Field> {
    FieldFrom(key, 0)
  }

  /** A key and its value. */
  function CutLine(line: string): (string, string) {
    match IndexIn(line, ": ")
    case Some(i) => (line[..i], line[i + 2..])
    case None => (if line != "" && line[|line| - 1] == ':' then line[..|line| - 1] else line, "")
  }

  predicate IsKeyShape(key: string) {
    && key != "" && ('a' <= key[0] <= 'z' || key[0] == '_')
    && forall i :: 0 <= i < |key| ==> 'a' <= key[i] <= 'z' || IsDigit(key[i]) || key[i] == '_'
  }

  /** A field's value as written. */
  function ReadValue(f: Field, value: string): (d: Option<Datum>)
    ensures d.Some? ==> (d.value.List? <==> IsList(f))
  {
    if IsList(f) then
      match ReadList(value)
      case None => None
      case Some(list) => Some(List(Some(list)))
    else
      match ReadScalar(value)
      case None => None
      case Some(s) => Some(Text(s))
  }

  /** One line, read into a knot that has read the fields in seen. */
  function ReadLine(k: Knot, seen: set<Field>, line: string): Result<(Knot, Field), FormRule> {
    var (key, value) := CutLine(line);
    match FieldNamed(key)
    case None => Err(if IsKeyShape(key) then RuleFieldOnType else RuleCanonical)
    case Some(f) =>
      if f in seen then Err(RuleCanonical)
      else match ReadValue(f, value)
        case None => Err(RuleCanonical)
        case Some(d) => Ok((Put(k, f, d), f))
  }

  function ReadLines(k: Knot, seen: set<Field>, lines: seq<string>): Result<Knot, FormRule>
    decreases |lines|
  {
    if lines == [] then Ok(k)
    else match ReadLine(k, seen, lines[0])
      case Err(e) => Err(e)
      case Ok((j, f)) => ReadLines(j, seen + {f}, lines[1..])
  }

  function ParseKnot(slug: string, data: string): Result<Knot, FormRule> {
    if |data| > MAX_KNOT_SIZE then Err(RuleLimit)
    else if !TextFits(data) then Err(RuleText)
    else match Frontmatter(data)
      case None => Err(RuleCanonical)
      case Some((lines, rest)) =>
        match ReadLines(Blank(slug, ReadBody(rest)), {}, lines)
        case Err(e) => Err(e)
        case Ok(k) =>
          if Check(k).Some? then Err(Check(k).value)
          else if k.body != NormalBody(k.body) then Err(RuleCanonical)
          else if Render(k) != data then Err(RuleCanonical)
          else Ok(k)
  }

  /** parseKnot as it reads its lines, setting a field at each. */
  method ParseFile(slug: string, data: string) returns (r: Result<Knot, FormRule>)
    ensures r == ParseKnot(slug, data)
  {
    hide ReadLine, Check, NormalBody, Render, TextFits, Frontmatter;
    if |data| > MAX_KNOT_SIZE { return Err(RuleLimit); }
    if !TextFits(data) { return Err(RuleText); }
    var front := Frontmatter(data);
    if front.None? { return Err(RuleCanonical); }
    var (lines, rest) := front.value;
    var k := Blank(slug, ReadBody(rest));
    var seen: set<Field> := {};
    var i := 0;
    while i < |lines|
      invariant 0 <= i <= |lines|
      invariant ReadLines(k, seen, lines[i..]) == ReadLines(Blank(slug, ReadBody(rest)), {}, lines)
    {
      var read := ReadLine(k, seen, lines[i]);
      assert lines[i..][1..] == lines[i + 1..];
      if read.Err? { return Err(read.error); }
      k, seen := read.value.0, seen + {read.value.1};
      i := i + 1;
    }
    var broken := Check(k);
    if broken.Some? { return Err(broken.value); }
    var body := Normalize(k.body);
    if k.body != body { return Err(RuleCanonical); }
    var want := Rendered(k);
    if want != data { return Err(RuleCanonical); }
    r := Ok(k);
  }

  /** Render as it writes its buffer. */
  method Rendered(k: Knot) returns (b: string)
    ensures b == Render(k)
  {
    hide FrontFrom, ValueText;
    var front := RenderedFront(k);
    b := FENCE + front + FENCE;
    assert FENCE + front + FENCE == FENCE + (front + FENCE);
    if k.body != "" { b := b + ("\n" + k.body); }
    assert b == FENCE + (front + (FENCE + BodyText(k.body)));
  }

  /** What is written and what is still to write are the whole frontmatter. */
  ghost predicate Written(k: Knot, front: string, i: nat)
    requires i <= |FIELDS|
  {
    front + FrontFrom(k, i) == FrontFrom(k, 0)
  }

  method RenderedFront(k: Knot) returns (front: string)
    ensures front == FrontFrom(k, 0)
  {
    hide Written, FrontFrom, ValueText;
    front := "";
    FrontStarts(k);
    front := WriteLine(k, front, Type, true);
    front := WriteLine(k, front, Id, true);
    front := WriteLine(k, front, Status, true);
    front := WriteLine(k, front, Title, true);
    front := WriteLine(k, front, Created, true);
    front := WriteLine(k, front, CreatedBy, true);
    front := WriteLine(k, front, Source, k.source != "");
    front := WriteLine(k, front, Parent, k.parent != "");
    front := WriteLine(k, front, Owner, k.owner != "");
    front := WriteLine(k, front, BlockedBy, IsWork(k.typeName) || BlockedItems(k) != []);
    front := WriteLine(k, front, ClaimedBy, k.claimedBy != "");
    front := WriteLine(k, front, ClaimedAt, k.claimedAt != "");
    front := WriteLine(k, front, Changes, ChangeItems(k) != []);
    front := WriteLine(k, front, Target, k.target != "");
    front := WriteLine(k, front, GraduatedInto, k.graduatedInto != "");
    FrontEnds(k, front);
  }

  /** A field's line, where it is written. */
  method WriteLine(k: Knot, front: string, f: Field, written: bool) returns (more: string)
    requires Written(k, front, Place(f)) && (written <==> Writes(k, f))
    ensures Written(k, more, Place(f) + 1)
  {
    hide FrontFrom, ValueText, Name, Place, Writes;
    more := front;
    if written { more := more + (Name(f) + ": " + ValueText(k, f) + "\n"); }
    FrontNext(k, f, front);
  }

  lemma FrontNext(k: Knot, f: Field, front: string)
    ensures front + (if Writes(k, f) then LineOf(k, f) + "\n" else "") + FrontFrom(k, Place(f) + 1) == front + FrontFrom(k, Place(f))
  {
    hide ValueText, Name, Place, Writes;
    var line := if Writes(k, f) then LineOf(k, f) + "\n" else "";
    assert FrontFrom(k, Place(f)) == line + FrontFrom(k, Place(f) + 1);
  }

  lemma FrontStarts(k: Knot)
    ensures Written(k, "", 0)
  {
    hide FrontFrom;
  }

  lemma FrontEnds(k: Knot, front: string)
    requires Written(k, front, 15)
    ensures front == FrontFrom(k, 0)
  {
  }
}
