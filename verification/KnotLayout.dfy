/** The layout of a plan graph's tree (knot/graph.go, knot/contract.go): which
    paths a listing may hold, and the index read from the listing alone. */
module KnotLayout {
  import opened Wrappers
  import opened Strings

  const MAX_KNOTS := 5000
  const MAX_COMMENTS := 20000
  const MAX_SLUG := 48
  const COMMENTS := "comments"
  const MODE_DIRECTORY := "40000"
  const MODE_FILE := "100644"

  /** The rule a refusal is under. RuleForm stands for every rule about one
      file's content alone. */
  datatype Rule =
    | RuleLayout | RuleUniqueID | RuleDirectory | RuleLimit | RuleFilename | RuleIDDerived
    | RuleEdgeResolves | RuleParentOutcome | RuleCycle | RuleTransition | RuleProvenance | RuleForm

  datatype Refusal =
    | Refusal(rule: Rule, path: string)
    | CycleRefusal(edge: EdgeKind, loop: seq<string>)

  datatype EdgeKind = Parent | BlockedBy

  /** The four types of knot. */
  datatype Kind = Outcome | Bug | Idea | Question {
    function Prefix(): string {
      match this
      case Outcome => "oc"
      case Bug => "bd"
      case Idea => "ida"
      case Question => "qn"
    }

    function Directory(): string {
      match this
      case Outcome => "outcomes"
      case Bug => "bugs"
      case Idea => "ideas"
      case Question => "questions"
    }
  }

  function KindOfDirectory(dir: string): Option<Kind> {
    if dir == Outcome.Directory() then Some(Outcome)
    else if dir == Bug.Directory() then Some(Bug)
    else if dir == Idea.Directory() then Some(Idea)
    else if dir == Question.Directory() then Some(Question)
    else None
  }

  predicate IsHex(s: string) {
    forall c :: c in s ==> '0' <= c <= '9' || 'a' <= c <= 'f'
  }

  predicate IsDigits(s: string) {
    forall c :: c in s ==> '0' <= c <= '9'
  }

  /** An ID under one prefix: the prefix, a hyphen and seven hex digits. */
  predicate IsIdUnder(s: string, prefix: string) {
    |s| == |prefix| + 8 && prefix <= s && s[|prefix|] == '-' && IsHex(s[|prefix| + 1..])
  }

  predicate IsLocalID(s: string) {
    exists k: Kind :: IsIdUnder(s, k.Prefix())
  }

  /** The ID a knot's file name opens with, by the type whose prefix it has. */
  function KindOfKnotFile(base: string): Option<Kind> {
    if IsKnotFileUnder(base, Outcome.Prefix()) then Some(Outcome)
    else if IsKnotFileUnder(base, Bug.Prefix()) then Some(Bug)
    else if IsKnotFileUnder(base, Idea.Prefix()) then Some(Idea)
    else if IsKnotFileUnder(base, Question.Prefix()) then Some(Question)
    else None
  }

  /** A knot's file name under one prefix: <id>-<slug>.md, the slug one or
      more of lowercase letters, digits and hyphens. */
  predicate IsKnotFileUnder(base: string, prefix: string) {
    && |base| > |prefix| + 8 + 1 + 3
    && IsIdUnder(base[..|prefix| + 8], prefix)
    && base[|prefix| + 8] == '-'
    && base[|base| - 3..] == ".md"
    && forall c :: c in base[|prefix| + 9..|base| - 3] ==> SlugByte(c) || c == '-'
  }

  predicate SlugByte(c: char) {
    'a' <= c <= 'z' || '0' <= c <= '9'
  }

  /** Words of slug bytes joined by single hyphens. */
  predicate IsSlug(s: string) {
    && |s| > 0
    && s[0] != '-' && s[|s| - 1] != '-'
    && (forall c :: c in s ==> SlugByte(c) || c == '-')
    && forall i :: 0 <= i < |s| - 1 ==> s[i] != '-' || s[i + 1] != '-'
  }

  function DigitValue(c: char): nat
    requires '0' <= c <= '9'
  {
    c as nat - '0' as nat
  }

  function TwoDigits(s: string, i: nat): nat
    requires i + 2 <= |s| && IsDigits(s[i..i + 2])
  {
    assert s[i] in s[i..i + 2] && s[i + 1] in s[i..i + 2];
    10 * DigitValue(s[i]) + DigitValue(s[i + 1])
  }

  function DaysIn(year: nat, month: nat): nat {
    if month == 2 then
      if year % 4 == 0 && (year % 100 != 0 || year % 400 == 0) then 29 else 28
    else if month in {4, 6, 9, 11} then 30
    else 31
  }

  /** YYYYMMDDTHHMMSSZ, naming a time that exists. */
  predicate IsStamp(s: string) {
    && |s| == 16
    && IsDigits(s[0..2]) && IsDigits(s[2..4]) && IsDigits(s[4..6]) && IsDigits(s[6..8])
    && s[8] == 'T'
    && IsDigits(s[9..11]) && IsDigits(s[11..13]) && IsDigits(s[13..15])
    && s[15] == 'Z'
    && 1 <= TwoDigits(s, 4) <= 12
    && 1 <= TwoDigits(s, 6) <= DaysIn(100 * TwoDigits(s, 0) + TwoDigits(s, 2), TwoDigits(s, 4))
    && TwoDigits(s, 9) < 24 && TwoDigits(s, 11) < 60 && TwoDigits(s, 13) < 60
  }

  predicate IsCommentFile(base: string) {
    && |base| == 36
    && IsStamp(base[..16])
    && base[16] == '-'
    && IsHex(base[17..33])
    && base[33..] == ".md"
  }

  datatype Entry = Entry(path: string, mode: string, oid: string)

  /** What a path and its object say of a file: a knot's own ID, or the ID of the
      knot a comment belongs to. */
  datatype File =
    | KnotFile(path: string, oid: string, id: string, kind: Kind, slug: string)
    | CommentFile(path: string, oid: string, id: string, stamp: string, op: string)

  function LayoutDir(parts: seq<string>): Option<Refusal> {
    if |parts| == 1 && (KindOfDirectory(parts[0]).Some? || parts[0] == COMMENTS) then None
    else if |parts| == 2 && parts[0] == COMMENTS && IsLocalID(parts[1]) then None
    else Some(Refusal(RuleLayout, Join(parts, '/')))
  }

  function LayoutFile(parts: seq<string>): Result<File, Refusal> {
    var path := Join(parts, '/');
    if |parts| == 2 && KindOfDirectory(parts[0]).Some? then
      var base := parts[1];
      match KindOfKnotFile(base)
      case None => Err(Refusal(RuleLayout, path))
      case Some(kind) =>
        var cut := |kind.Prefix()| + 8;
        var slug := base[cut + 1..|base| - 3];
        if !IsSlug(slug) || |slug| > MAX_SLUG then Err(Refusal(RuleLayout, path))
        else if Some(kind) != KindOfDirectory(parts[0]) then Err(Refusal(RuleDirectory, path))
        else Ok(KnotFile(path, "", base[..cut], kind, slug))
    else if |parts| == 3 && parts[0] == COMMENTS && IsCommentFile(parts[2]) then
      Ok(CommentFile(path, "", parts[1], parts[2][..16], parts[2][17..33]))
    else Err(Refusal(RuleLayout, path))
  }

  /** What a path alone says of the file at it. */
  function FileAt(path: string): Result<File, Refusal> {
    LayoutFile(Split(path, '/'))
  }

  predicate IsFilePath(path: string) {
    FileAt(path).Ok?
  }

  predicate IsKnotPath(path: string)
    requires IsFilePath(path)
  {
    FileAt(path).value.KnotFile?
  }

  /** The file at a path, holding an object. */
  function FileOf(path: string, oid: string): File
    requires IsFilePath(path)
  {
    FileAt(path).value.(oid := oid)
  }

  /** A file's place is its own path, and a knot's ID is a local ID. */
  lemma FileAtPath(path: string, oid: string)
    requires IsFilePath(path)
    ensures FileOf(path, oid).path == path && FileOf(path, oid).oid == oid
    ensures FileOf(path, oid).id == FileOf(path, "").id
    ensures IsKnotPath(path) <==> FileOf(path, oid).KnotFile?
    ensures IsKnotPath(path) ==> IsLocalID(FileOf(path, oid).id)
  {
    hide IsSlug, IsStamp, IsHex;
    JoinSplit(path, '/');
    if IsKnotPath(path) {
      hide Split, Join;
      assert IsIdUnder(FileOf(path, oid).id, FileAt(path).value.kind.Prefix());
    }
  }

  /** The directory a path is in, with no slash at its end. */
  function DirOf(path: string): string {
    var parts := Split(path, '/');
    Join(parts[..|parts| - 1], '/')
  }

  /** The directories a path passes through. */
  predicate Through(path: string, dir: string) {
    var parts := Split(path, '/');
    exists i :: 1 <= i < |parts| && dir == Join(parts[..i], '/')
  }

  predicate EntryFits(e: Entry) {
    if e.mode == MODE_DIRECTORY then LayoutDir(Split(e.path, '/')).None?
    else e.mode == MODE_FILE && IsFilePath(e.path)
  }

  predicate IsDir(entries: seq<Entry>, path: string) {
    exists e :: e in entries && e.mode == MODE_DIRECTORY && e.path == path
  }

  function FilePaths(entries: seq<Entry>): set<string> {
    set e | e in entries && e.mode != MODE_DIRECTORY :: e.path
  }

  function KnotPaths(entries: seq<Entry>): set<string> {
    set p | p in FilePaths(entries) && IsFilePath(p) && IsKnotPath(p)
  }

  /** A listing that is exactly a graph's layout, said with no order: each
      path once, each entry one the layout allows, no ID twice, no directory
      empty, every directory a path passes through listed, and both counts
      within their limits. */
  ghost predicate IsGraphListing(entries: seq<Entry>) {
    && IsLaidOut(entries)
    && |KnotPaths(entries)| <= MAX_KNOTS
    && |FilePaths(entries) - KnotPaths(entries)| <= MAX_COMMENTS
  }

  ghost predicate IsLaidOut(entries: seq<Entry>) {
    && (forall i, j :: 0 <= i < j < |entries| ==> entries[i].path != entries[j].path)
    && (forall e :: e in entries ==> EntryFits(e))
    && (forall p, q :: p in KnotPaths(entries) && q in KnotPaths(entries) && FileOf(p, "").id == FileOf(q, "").id ==> p == q)
    && (forall e :: e in entries && e.mode == MODE_DIRECTORY ==> exists c :: c in entries && DirOf(c.path) == e.path)
    && (forall e, d :: e in entries && Through(e.path, d) ==> IsDir(entries, d))
  }

  datatype Index = Index(knots: map<string, File>, comments: map<string, File>, files: map<string, string>, knotAt: map<string, string>) {

    /** Every file is a knot or a comment, and each is what its path says. */
    ghost predicate Valid() {
      && (forall p :: p in files ==> IsFilePath(p))
      && (forall p :: p in knotAt <==> p in files && IsKnotPath(p))
      && (forall p :: p in comments <==> p in files && !IsKnotPath(p))
      && (forall p :: p in comments ==> comments[p] == FileOf(p, files[p]))
      && (forall p :: p in knotAt ==> HoldsKnot(p))
      && (forall id :: id in knots ==> KnotPlaced(id))
    }

    /** The knot at a path is in the index under its ID. */
    ghost predicate HoldsKnot(p: string)
      requires p in files && IsFilePath(p) && p in knotAt
    {
      && knotAt[p] in knots
      && knots[knotAt[p]] == FileOf(p, files[p])
      && knots[knotAt[p]].path == p
      && knots[knotAt[p]].id == knotAt[p]
    }

    /** A knot under an ID is at its own path. */
    ghost predicate KnotPlaced(id: string)
      requires id in knots
    {
      knots[id].path in knotAt && knotAt[knots[id].path] == id
    }

    /** The index holds exactly the listing's files. */
    ghost predicate Describes(entries: seq<Entry>) {
      && files.Keys == FilePaths(entries)
      && forall e :: e in entries && e.mode != MODE_DIRECTORY ==> e.path in files && files[e.path] == e.oid
    }
  }

  lemma KnotsAreLocal(idx: Index, id: string)
    requires idx.Valid() && id in idx.knots
    ensures IsLocalID(id) && idx.knots[id].id == id
  {
    var p := idx.knots[id].path;
    FileAtPath(p, idx.files[p]);
  }
}
