/** A knot, the fields of its frontmatter (knot/model.go), and the rules about
    one knot alone (knot/validate.go). */
module KnotFields {
  import opened Wrappers
  import opened Strings
  import opened KnotText
  import opened KnotList
  import KnotLayout

  const MAX_KNOT_SIZE := 65536
  const MAX_TITLE := 200
  const MAX_NAME := 64
  const MAX_LIST_ITEMS := 64
  const MAX_LINK := 256
  const ID_RULE_CUTOFF := "2026-08-05"

  datatype FormRule =
    | RuleText | RuleCanonical | RuleLimit | RuleRequired | RuleType | RuleIDShape | RuleStatus | RuleFieldShape
    | RuleFieldOnType | RuleParentOutcome | RuleGraduated | RuleProvenance | RuleCutoff | RuleClaim

  datatype Field =
    | Type | Id | Status | Title | Created | CreatedBy | Source | Parent | Owner | BlockedBy
    | ClaimedBy | ClaimedAt | Changes | Target | GraduatedInto

  /** Every field, as Render takes them. */
  const FIELDS := [Type, Id, Status, Title, Created, CreatedBy, Source, Parent, Owner, BlockedBy,
                   ClaimedBy, ClaimedAt, Changes, Target, GraduatedInto]

  function Place(f: Field): (i: nat)
    ensures i < |FIELDS| && FIELDS[i] == f
  {
    match f
    case Type => 0
    case Id => 1
    case Status => 2
    case Title => 3
    case Created => 4
    case CreatedBy => 5
    case Source => 6
    case Parent => 7
    case Owner => 8
    case BlockedBy => 9
    case ClaimedBy => 10
    case ClaimedAt => 11
    case Changes => 12
    case Target => 13
    case GraduatedInto => 14
  }

  lemma PlaceOf(i: nat)
    requires i < |FIELDS|
    ensures Place(FIELDS[i]) == i
  {
  }

  function Name(f: Field): string {
    match f
    case Type => "type"
    case Id => "id"
    case Status => "status"
    case Title => "title"
    case Created => "created"
    case CreatedBy => "created_by"
    case Source => "source"
    case Parent => "parent"
    case Owner => "owner"
    case BlockedBy => "blocked_by"
    case ClaimedBy => "claimed_by"
    case ClaimedAt => "claimed_at"
    case Changes => "changes"
    case Target => "target"
    case GraduatedInto => "graduated_into"
  }

  predicate IsList(f: Field) {
    f.BlockedBy? || f.Changes?
  }

  /** Written as a bare token. */
  predicate IsBare(f: Field) {
    f.Type? || f.Id? || f.Status? || f.Created? || f.Parent? || f.GraduatedInto?
  }

  /** A knot; a list that is not there is none, which an empty one is not. */
  datatype Knot = Knot(
    typeName: string, id: string, status: string, title: string, created: string, createdBy: string,
    source: string, parent: string, owner: string, blockedBy: Option<seq<string>>, claimedBy: string,
    claimedAt: string, changes: Option<seq<string>>, target: string, graduatedInto: string,
    body: string, slug: string)

  /** What a field holds: text, "" where it is not there, or a list. */
  datatype Datum = Text(text: string) | List(list: Option<seq<string>>)

  function Get(k: Knot, f: Field): (d: Datum)
    ensures d.List? <==> IsList(f)
  {
    match f
    case Type => Text(k.typeName)
    case Id => Text(k.id)
    case Status => Text(k.status)
    case Title => Text(k.title)
    case Created => Text(k.created)
    case CreatedBy => Text(k.createdBy)
    case Source => Text(k.source)
    case Parent => Text(k.parent)
    case Owner => Text(k.owner)
    case BlockedBy => List(k.blockedBy)
    case ClaimedBy => Text(k.claimedBy)
    case ClaimedAt => Text(k.claimedAt)
    case Changes => List(k.changes)
    case Target => Text(k.target)
    case GraduatedInto => Text(k.graduatedInto)
  }

  function Put(k: Knot, f: Field, d: Datum): Knot
    requires d.List? <==> IsList(f)
  {
    match f
    case Type => k.(typeName := d.text)
    case Id => k.(id := d.text)
    case Status => k.(status := d.text)
    case Title => k.(title := d.text)
    case Created => k.(created := d.text)
    case CreatedBy => k.(createdBy := d.text)
    case Source => k.(source := d.text)
    case Parent => k.(parent := d.text)
    case Owner => k.(owner := d.text)
    case BlockedBy => k.(blockedBy := d.list)
    case ClaimedBy => k.(claimedBy := d.text)
    case ClaimedAt => k.(claimedAt := d.text)
    case Changes => k.(changes := d.list)
    case Target => k.(target := d.text)
    case GraduatedInto => k.(graduatedInto := d.text)
  }

  /** Setting a field sets it, and nothing else. */
  lemma PutSets(k: Knot, f: Field, d: Datum)
    requires d.List? <==> IsList(f)
    ensures var j := Put(k, f, d);
            && j.body == k.body && j.slug == k.slug
            && forall g :: Get(j, g) == if g == f then d else Get(k, g)
  {
  }

  /** A knot is its fields, its body and its slug. */
  lemma KnotIsItsFields(j: Knot, k: Knot)
    requires j.body == k.body && j.slug == k.slug
    requires forall f :: Get(j, f) == Get(k, f)
    ensures j == k
  {
    assert Get(j, Type) == Get(k, Type) && Get(j, Id) == Get(k, Id) && Get(j, Status) == Get(k, Status);
    assert Get(j, Title) == Get(k, Title) && Get(j, Created) == Get(k, Created) && Get(j, CreatedBy) == Get(k, CreatedBy);
    assert Get(j, Source) == Get(k, Source) && Get(j, Parent) == Get(k, Parent) && Get(j, Owner) == Get(k, Owner);
    assert Get(j, BlockedBy) == Get(k, BlockedBy) && Get(j, ClaimedBy) == Get(k, ClaimedBy);
    assert Get(j, ClaimedAt) == Get(k, ClaimedAt) && Get(j, Changes) == Get(k, Changes);
    assert Get(j, Target) == Get(k, Target) && Get(j, GraduatedInto) == Get(k, GraduatedInto);
  }

  function Blank(slug: string, body: string): Knot {
    Knot("", "", "", "", "", "", "", "", "", None, "", "", None, "", "", body, slug)
  }

  function Items(d: Datum): seq<string>
    requires d.List?
  {
    if d.list.Some? then d.list.value else []
  }

  // The types.

  predicate IsType(t: string) {
    t == "outcome" || t == "bug" || t == "idea" || t == "question"
  }

  function PrefixOf(t: string): string
    requires IsType(t)
  {
    if t == "outcome" then "oc" else if t == "bug" then "bd" else if t == "idea" then "ida" else "qn"
  }

  function Statuses(t: string): seq<string>
    requires IsType(t)
  {
    if t == "outcome" then ["open", "in-progress", "done", "abandoned"]
    else if t == "bug" then ["open", "closed"]
    else if t == "idea" then ["raw", "exploring", "adopted", "graduated", "superseded", "discarded"]
    else ["open", "answered", "dropped"]
  }

  predicate IsWork(t: string) {
    t == "outcome" || t == "bug"
  }

  /** The fields a type of knot has. */
  predicate Carries(f: Field, t: string) {
    match f
    case BlockedBy => IsWork(t)
    case ClaimedBy => IsWork(t)
    case ClaimedAt => IsWork(t)
    case Target => IsWork(t)
    case Changes => IsWork(t) || t == "question"
    case GraduatedInto => t == "idea"
    case _ => true
  }

  predicate Holds(k: Knot, f: Field) {
    match Get(k, f)
    case Text(s) => s != ""
    case List(list) => list.Some?
  }

  // The shapes of names, references, links, dates and times.

  predicate IsDigit(c: char) { '0' <= c <= '9' }

  predicate IsLetterOrDigit(c: char) {
    'a' <= c <= 'z' || 'A' <= c <= 'Z' || IsDigit(c)
  }

  predicate IsNameByte(c: char) {
    IsLetterOrDigit(c) || c == '.' || c == '_' || c == '-'
  }

  predicate IsName(s: string) {
    s != "" && IsLetterOrDigit(s[0]) && forall i :: 0 <= i < |s| ==> IsNameByte(s[i])
  }

  /** A knot in another project: its project's name, a colon and its ID. */
  predicate IsQualifiedID(s: string) {
    var i := IndexOf(s, ':');
    i < |s| && IsName(s[..i]) && KnotLayout.IsLocalID(s[i + 1..])
  }

  /** Digits where the shape has 0, and its own bytes elsewhere. */
  predicate HasShape(s: string, shape: string) {
    |s| == |shape| && forall i :: 0 <= i < |s| ==> if shape[i] == '0' then IsDigit(s[i]) else s[i] == shape[i]
  }

  predicate IsDate(s: string) { HasShape(s, "0000-00-00") }
  predicate IsTimestamp(s: string) { HasShape(s, "0000-00-00T00:00:00Z") }

  const VALLEY := "valley:"

  /** valley:<project>/<change ID>. */
  predicate IsValleyChange(s: string) {
    && VALLEY <= s
    && var rest := s[|VALLEY|..];
       var i := IndexOf(rest, '/');
       && i < |rest| && IsName(rest[..i])
       && |rest| - i - 1 == 32 && forall j :: i < j < |rest| ==> 'k' <= rest[j] <= 'z'
  }

  predicate IsRepoName(s: string) {
    s != "" && forall i :: 0 <= i < |s| ==> IsNameByte(s[i])
  }

  predicate IsCount(s: string) {
    s != "" && s[0] != '0' && forall i :: 0 <= i < |s| ==> IsDigit(s[i])
  }

  /** https://github.com/<owner>/<repo>/pull/<n>. */
  predicate IsGithubPR(s: string) {
    var parts := Split(s, '/');
    && |parts| == 7
    && parts[0] == "https:" && parts[1] == "" && parts[2] == "github.com"
    && IsRepoName(parts[3]) && IsRepoName(parts[4])
    && parts[5] == "pull" && IsCount(parts[6])
  }

  predicate IsReference(s: string) { KnotLayout.IsLocalID(s) || IsQualifiedID(s) }
  predicate IsLink(s: string) { IsValleyChange(s) || IsGithubPR(s) }

  // The rules about one knot.

  function BlockedItems(k: Knot): seq<string> { Items(Get(k, BlockedBy)) }
  function ChangeItems(k: Knot): seq<string> { Items(Get(k, Changes)) }

  /** check: the rule a knot breaks, in the order the source tries them. */
  function Check(k: Knot): Option<FormRule> {
    if k.typeName == "" then Some(RuleRequired)
    else if !IsType(k.typeName) then Some(RuleType)
    else if k.id == "" then Some(RuleRequired)
    else if !KnotLayout.IsLocalID(k.id) || !(PrefixOf(k.typeName) + "-" <= k.id) then Some(RuleIDShape)
    else if k.status == "" then Some(RuleRequired)
    else if k.status !in Statuses(k.typeName) then Some(RuleStatus)
    else if k.title == "" then Some(RuleRequired)
    else if k.created == "" then Some(RuleRequired)
    else if !IsDate(k.created) then Some(RuleFieldShape)
    else if exists f: Field :: Holds(k, f) && !Carries(f, k.typeName) then Some(RuleFieldOnType)
    else if CheckShapes(k).Some? then CheckShapes(k)
    else if k.typeName == "outcome" && k.blockedBy.None? then Some(RuleRequired)
    else if k.typeName == "idea" && k.status == "graduated" && k.graduatedInto == "" then Some(RuleGraduated)
    else if k.graduatedInto != "" && k.status != "graduated" then Some(RuleGraduated)
    else CheckLive(k)
  }

  function CheckShapes(k: Knot): Option<FormRule> {
    if k.createdBy != "" && !IsName(k.createdBy) then Some(RuleFieldShape)
    else if k.owner != "" && !IsName(k.owner) then Some(RuleFieldShape)
    else if k.parent != "" && !KnotLayout.IsLocalID(k.parent) then Some(RuleFieldShape)
    else if k.parent != "" && !("oc-" <= k.parent) then Some(RuleParentOutcome)
    else if k.claimedBy != "" && !IsName(k.claimedBy) then Some(RuleFieldShape)
    else if k.claimedAt != "" && !IsTimestamp(k.claimedAt) then Some(RuleFieldShape)
    else if k.target != "" && !IsName(k.target) && !IsQualifiedID(k.target) then Some(RuleFieldShape)
    else if k.graduatedInto != "" &&
            (!KnotLayout.IsLocalID(k.graduatedInto) || (!("oc-" <= k.graduatedInto) && !("qn-" <= k.graduatedInto)))
      then Some(RuleFieldShape)
    else if exists item :: item in BlockedItems(k) && !IsReference(item) then Some(RuleFieldShape)
    else if exists item :: item in ChangeItems(k) && !IsLink(item) then Some(RuleFieldShape)
    else None
  }

  /** One line of text, with no tab. */
  predicate IsLine(s: string) {
    '\n' !in s && '\t' !in s && TextFits(s)
  }

  function CheckLive(k: Knot): Option<FormRule> {
    if k.createdBy == "" then Some(RuleProvenance)
    else if !Less(ID_RULE_CUTOFF, k.created) then Some(RuleCutoff)
    else if (k.claimedBy == "") != (k.claimedAt == "") then Some(RuleClaim)
    else if !IsLine(k.title) || !IsLine(k.source) then Some(RuleText)
    else if |k.title| > MAX_TITLE || |k.source| > MAX_TITLE then Some(RuleLimit)
    else if |BlockedItems(k)| > MAX_LIST_ITEMS || |ChangeItems(k)| > MAX_LIST_ITEMS then Some(RuleLimit)
    else if |k.createdBy| > MAX_NAME || |k.owner| > MAX_NAME || |k.claimedBy| > MAX_NAME || |k.target| > MAX_NAME + 12
      then Some(RuleLimit)
    else if exists item :: item in BlockedItems(k) && |item| > MAX_NAME + 12 then Some(RuleLimit)
    else if exists item :: item in ChangeItems(k) && |item| > MAX_LINK then Some(RuleLimit)
    else None
  }

  // What the shapes say of the bytes.

  predicate IsInkText(s: string) {
    forall i :: 0 <= i < |s| ==> IsInk(s[i])
  }

  lemma InkFits(s: string)
    requires IsInkText(s)
    ensures TextFits(s)
  {
    hide TextFits;
    PrintableFits(s);
  }

  lemma NameIsInk(s: string)
    requires IsName(s) || IsRepoName(s)
    ensures IsInkText(s)
  {
  }

  lemma IdIsInk(s: string)
    requires KnotLayout.IsLocalID(s)
    ensures IsInkText(s) && IsToken(s)
  {
    hide KnotLayout.IsLocalID, IsToken;
    LocalIdIsToken(s);
  }

  lemma QualifiedIsInk(s: string)
    requires IsQualifiedID(s)
    ensures IsInkText(s)
  {
    hide KnotLayout.IsLocalID, IsName, IsToken;
    var i := IndexOf(s, ':');
    NameIsInk(s[..i]);
    IdIsInk(s[i + 1..]);
    InkJoins(s, i);
  }

  /** Text is ink where both its sides of a visible byte are. */
  lemma InkJoins(s: string, i: nat)
    requires i < |s| && IsInk(s[i]) && IsInkText(s[..i]) && IsInkText(s[i + 1..])
    ensures IsInkText(s)
  {
    forall j | 0 <= j < |s| ensures IsInk(s[j]) {
      if j < i { assert s[j] == s[..i][j]; } else if j > i { assert s[j] == s[i + 1..][j - i - 1]; }
    }
  }

  lemma ValleyIsInk(s: string)
    requires IsValleyChange(s)
    ensures IsInkText(s)
  {
    hide IsName;
    var rest := s[|VALLEY|..];
    var i := IndexOf(rest, '/');
    NameIsInk(rest[..i]);
    forall j | 0 <= j < |s| ensures IsInk(s[j]) {
      if j < |VALLEY| {
        assert s[j] == VALLEY[j];
      } else if j - |VALLEY| < i {
        assert rest[..i][j - |VALLEY|] == s[j];
      } else {
        assert rest[j - |VALLEY|] == s[j];
      }
    }
  }

  lemma {:induction false} JoinIsInk(parts: seq<string>)
    requires forall i :: 0 <= i < |parts| ==> IsInkText(parts[i])
    ensures IsInkText(Join(parts, '/'))
  {
    hide IsInkText;
    if |parts| == 0 {
      NoInk();
    } else if |parts| > 1 {
      JoinIsInk(parts[1..]);
      InkAround(parts[0], Join(parts[1..], '/'));
    }
  }

  lemma NoInk()
    ensures IsInkText("")
  {
  }

  lemma InkAround(a: string, b: string)
    requires IsInkText(a) && IsInkText(b)
    ensures IsInkText(a + ['/'] + b)
  {
  }

  lemma GithubIsInk(s: string)
    requires IsGithubPR(s)
    ensures IsInkText(s)
  {
    hide Split, Join, IsInkText, IsRepoName;
    var parts := Split(s, '/');
    JoinSplit(s, '/');
    NameIsInk(parts[3]);
    NameIsInk(parts[4]);
    FixedPartsAreInk(parts[6]);
    JoinIsInk(parts);
  }

  lemma FixedPartsAreInk(n: string)
    requires IsCount(n)
    ensures IsInkText("https:") && IsInkText("") && IsInkText("github.com") && IsInkText("pull") && IsInkText(n)
  {
  }
}
