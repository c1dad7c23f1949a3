/** The rules about one knot (knot/validate.go, knot/contract.go), told with no
    order and no code of theirs: characters as code points, and each field as what
    is written in it. */
module KnotRules {
  import opened Wrappers
  import opened Strings
  import opened Utf8
  import opened KnotText
  import opened KnotFields
  import opened JsonMeaning
  import opened KnotShapes
  import KnotLayout

  // Characters.

  /** A control character but newline and tab, or one of two noncharacters. */
  predicate IsKeptOut(n: nat) {
    (n < 0x20 && n != 0x0A && n != 0x09) || 0x7F <= n <= 0x9F || n == 0xFFFE || n == 0xFFFF
  }

  /** What unicode.IsSpace takes for white space. */
  predicate IsWhite(n: nat) {
    || 0x09 <= n <= 0x0D || n in {0x20, 0x85, 0xA0, 0x1680}
    || 0x2000 <= n <= 0x200A || n in {0x2028, 0x2029, 0x202F, 0x205F, 0x3000}
  }

  lemma RefusedExactly(s: string)
    requires RuneLength(s) > 0
    ensures Refused(s) <==> IsKeptOut(PointAt(s))
  {
  }

  /** A text may be in a file exactly when it is valid UTF-8 and holds no such
      character. */
  lemma {:induction false} TextExactly(s: string)
    ensures TextFits(s) <==> Valid(s) && forall i :: 0 <= i < |Points(s)| ==> !IsKeptOut(Points(s)[i])
    decreases |s|
  {
    hide RuneLength, PointAt, Refused, IsKeptOut;
    if s != "" && RuneLength(s) > 0 {
      var more := s[RuneLength(s)..];
      TextExactly(more);
      RefusedExactly(s);
      if Valid(s) {
        assert Points(s)[0] == PointAt(s) && Points(s)[1..] == Points(more);
        assert forall i :: 0 <= i < |Points(more)| ==> Points(more)[i] == Points(s)[i + 1];
      }
    }
  }

  /** White space at the front is one such character. */
  lemma SpaceExactly(s: string)
    ensures SpaceLength(s) > 0 <==> RuneLength(s) > 0 && IsWhite(PointAt(s))
    ensures SpaceLength(s) > 0 ==> SpaceLength(s) == RuneLength(s)
  {
  }

  // What is written in a field.

  predicate IsNameChar(c: char) {
    'a' <= c <= 'z' || 'A' <= c <= 'Z' || '0' <= c <= '9' || c in {'.', '_', '-'}
  }

  predicate OfNameChars(s: string) {
    s != "" && forall i :: 0 <= i < |s| ==> IsNameChar(s[i])
  }

  /** A name opens with a letter or a digit. */
  predicate NameShape(s: string) {
    OfNameChars(s) && s[0] !in {'.', '_', '-'}
  }

  predicate DigitRun(s: string, n: nat) {
    |s| == n && forall i :: 0 <= i < n ==> '0' <= s[i] <= '9'
  }

  ghost predicate DateShape(s: string) {
    exists y, m, d :: DigitRun(y, 4) && DigitRun(m, 2) && DigitRun(d, 2) && s == y + "-" + m + "-" + d
  }

  ghost predicate TimestampShape(s: string) {
    exists date, h, m, sec :: DateShape(date) && DigitRun(h, 2) && DigitRun(m, 2) && DigitRun(sec, 2)
      && s == date + "T" + h + ":" + m + ":" + sec + "Z"
  }

  ghost predicate IdShape(s: string) {
    exists k, hex :: IsId(s, k, hex)
  }

  ghost predicate IdOf(s: string, k: KnotLayout.Kind) {
    exists hex :: IsId(s, k, hex)
  }

  ghost predicate QualifiedShape(s: string) {
    exists project, id :: NameShape(project) && IdShape(id) && s == project + ":" + id
  }

  ghost predicate ValleyShape(s: string) {
    exists project, id :: NameShape(project) && |id| == 32 && (forall i :: 0 <= i < 32 ==> 'k' <= id[i] <= 'z')
      && s == "valley:" + project + "/" + id
  }

  predicate CountShape(n: string) {
    n != "" && '1' <= n[0] <= '9' && forall i :: 0 <= i < |n| ==> '0' <= n[i] <= '9'
  }

  ghost predicate PullShape(s: string) {
    exists owner, repo, n :: OfNameChars(owner) && OfNameChars(repo) && CountShape(n)
      && s == "https://github.com/" + owner + "/" + repo + "/pull/" + n
  }

  /** One line, with no control character and no tab. */
  ghost predicate LineShape(s: string) {
    Valid(s) && forall i :: 0 <= i < |Points(s)| ==> !IsKeptOut(Points(s)[i]) && Points(s)[i] !in {0x09, 0x0A}
  }

  // The lemmas that say so.

  lemma NameExactly(s: string)
    ensures IsName(s) <==> NameShape(s)
  {
  }

  lemma RepoExactly(s: string)
    ensures IsRepoName(s) <==> OfNameChars(s)
  {
  }

  lemma CountExactly(s: string)
    ensures IsCount(s) <==> CountShape(s)
  {
  }

  lemma DateExactly(s: string)
    ensures IsDate(s) <==> DateShape(s)
  {
    if IsDate(s) {
      assert s == s[..4] + "-" + s[5..7] + "-" + s[8..];
      assert forall i :: 0 <= i < 4 ==> "0000-00-00"[i] == '0';
      assert DigitRun(s[..4], 4) && DigitRun(s[5..7], 2) && DigitRun(s[8..], 2);
    }
  }

  lemma TimestampExactly(s: string)
    ensures IsTimestamp(s) <==> TimestampShape(s)
  {
    if IsTimestamp(s) { TimestampSays(s); }
    forall date, h, m, sec | DateShape(date) && DigitRun(h, 2) && DigitRun(m, 2) && DigitRun(sec, 2)
                             && s == date + "T" + h + ":" + m + ":" + sec + "Z"
      ensures IsTimestamp(s)
    {
      TimestampIs(s, date, h, m, sec);
    }
  }

  lemma TimestampSays(s: string)
    requires IsTimestamp(s)
    ensures TimestampShape(s)
  {
    hide DateShape;
    var shape := "0000-00-00T00:00:00Z";
    var date, time := s[..10], s[10..];
    forall i | 0 <= i < 10 ensures if "0000-00-00"[i] == '0' then IsDigit(date[i]) else date[i] == "0000-00-00"[i] {
      assert shape[i] == "0000-00-00"[i];
    }
    DateExactly(date);
    forall i | 0 <= i < 10 ensures if "T00:00:00Z"[i] == '0' then IsDigit(time[i]) else time[i] == "T00:00:00Z"[i] {
      assert shape[10 + i] == "T00:00:00Z"[i];
    }
    TimeSays(time);
    assert s == date + "T" + time[1..3] + ":" + time[4..6] + ":" + time[7..9] + "Z" by {
      assert s == date + time;
    }
  }

  lemma TimeSays(time: string)
    requires HasShape(time, "T00:00:00Z")
    ensures time == "T" + time[1..3] + ":" + time[4..6] + ":" + time[7..9] + "Z"
    ensures DigitRun(time[1..3], 2) && DigitRun(time[4..6], 2) && DigitRun(time[7..9], 2)
  {
  }

  lemma TimestampIs(s: string, date: string, h: string, m: string, sec: string)
    requires DateShape(date) && DigitRun(h, 2) && DigitRun(m, 2) && DigitRun(sec, 2)
    requires s == date + "T" + h + ":" + m + ":" + sec + "Z"
    ensures IsTimestamp(s)
  {
    hide DateShape;
    DateExactly(date);
    var shape := "0000-00-00T00:00:00Z";
    forall i | 0 <= i < |s| ensures if shape[i] == '0' then IsDigit(s[i]) else s[i] == shape[i] {
      if i < 10 { assert shape[i] == "0000-00-00"[i]; }
    }
  }

  lemma IdExactly(s: string)
    ensures KnotLayout.IsLocalID(s) <==> IdShape(s)
  {
    LocalIdExactly(s);
  }

  /** A local ID that opens with a type's prefix is that type's. */
  lemma PrefixExactly(s: string, k: KnotLayout.Kind)
    ensures KnotLayout.IsLocalID(s) && k.Prefix() + "-" <= s <==> IdOf(s, k)
  {
    LocalIdExactly(s);
    forall j, hex | IsId(s, j, hex) && k.Prefix() + "-" <= s ensures j == k {
      assert s[0] == j.Prefix()[0] && s[0] == (k.Prefix() + "-")[0] == k.Prefix()[0];
      assert "oc"[0] == 'o' && "bd"[0] == 'b' && "ida"[0] == 'i' && "qn"[0] == 'q';
    }
  }

  lemma CutAt(s: string, c: char)
    ensures var i := IndexOf(s, c); i < |s| ==> s == s[..i] + [c] + s[i + 1..] && c !in s[..i]
  {
  }

  lemma CutIs(a: string, b: string, c: char)
    requires c !in a
    ensures IndexOf(a + [c] + b, c) == |a| && (a + [c] + b)[..|a|] == a && (a + [c] + b)[|a| + 1..] == b
  {
    var s := a + [c] + b;
    assert s[|a|] == c;
    assert forall i :: 0 <= i < |a| ==> s[i] == a[i] && a[i] in a;
  }

  lemma NoneInName(s: string)
    requires OfNameChars(s)
    ensures ':' !in s && '/' !in s
  {
  }

  lemma QualifiedExactly(s: string)
    ensures IsQualifiedID(s) <==> QualifiedShape(s)
  {
    hide NameShape, IdShape, IsName;
    var i := IndexOf(s, ':');
    if IsQualifiedID(s) {
      CutAt(s, ':');
      NameExactly(s[..i]);
      IdExactly(s[i + 1..]);
      assert s == s[..i] + ":" + s[i + 1..];
    }
    forall project, id | NameShape(project) && IdShape(id) && s == project + ":" + id ensures IsQualifiedID(s) {
      NameHasChars(project);
      NoneInName(project);
      CutIs(project, id, ':');
      NameExactly(project);
      IdExactly(id);
    }
  }

  lemma NameHasChars(s: string)
    requires NameShape(s)
    ensures OfNameChars(s)
  {
  }

  lemma ValleyExactly(s: string)
    ensures IsValleyChange(s) <==> ValleyShape(s)
  {
    hide NameShape, IsName, IsValleyChange;
    if IsValleyChange(s) { ValleySays(s); }
    forall project, id | NameShape(project) && |id| == 32 && (forall i :: 0 <= i < 32 ==> 'k' <= id[i] <= 'z')
                         && s == "valley:" + project + "/" + id
      ensures IsValleyChange(s)
    {
      ValleyIs(s, project, id);
    }
  }

  lemma ValleySays(s: string)
    requires IsValleyChange(s)
    ensures ValleyShape(s)
  {
    hide NameShape, IsName;
    var rest := s[|VALLEY|..];
    var i := IndexOf(rest, '/');
    CutAt(rest, '/');
    NameExactly(rest[..i]);
    assert s == "valley:" + rest[..i] + "/" + rest[i + 1..];
    assert |rest[i + 1..]| == 32;
  }

  lemma ValleyIs(s: string, project: string, id: string)
    requires NameShape(project) && |id| == 32 && (forall i :: 0 <= i < 32 ==> 'k' <= id[i] <= 'z')
    requires s == "valley:" + project + "/" + id
    ensures IsValleyChange(s)
  {
    hide NameShape, IsName;
    NameHasChars(project);
    NoneInName(project);
    CutIs(project, id, '/');
    NameExactly(project);
    assert s[|VALLEY|..] == project + ['/'] + id && VALLEY <= s;
  }

  lemma PullExactly(s: string)
    ensures IsGithubPR(s) <==> PullShape(s)
  {
    hide Split, Join, IsRepoName, IsCount, OfNameChars, CountShape;
    if IsGithubPR(s) { PullSays(s); }
    forall owner, repo, n | OfNameChars(owner) && OfNameChars(repo) && CountShape(n)
                            && s == "https://github.com/" + owner + "/" + repo + "/pull/" + n
      ensures IsGithubPR(s)
    {
      PullIs(s, owner, repo, n);
    }
  }

  lemma JoinSeven(p: seq<string>)
    requires |p| == 7
    ensures Join(p, '/') == p[0] + "/" + (p[1] + "/" + (p[2] + "/" + (p[3] + "/" + (p[4] + "/" + (p[5] + "/" + p[6])))))
  {
    hide Join;
    JoinStep(p);
    JoinStep(p[1..]);
    JoinStep(p[2..]);
    JoinStep(p[3..]);
    JoinStep(p[4..]);
    JoinTwo(p[5..]);
    assert p[1..][1..] == p[2..] && p[2..][1..] == p[3..] && p[3..][1..] == p[4..] && p[4..][1..] == p[5..];
  }

  lemma JoinStep(p: seq<string>)
    requires |p| > 1
    ensures Join(p, '/') == p[0] + "/" + Join(p[1..], '/')
  {
  }

  lemma PullSays(s: string)
    requires IsGithubPR(s)
    ensures PullShape(s)
  {
    hide Split, Join, IsRepoName, IsCount, OfNameChars, CountShape;
    var p := Split(s, '/');
    JoinSplit(s, '/');
    JoinSeven(p);
    RepoExactly(p[3]);
    RepoExactly(p[4]);
    CountExactly(p[6]);
    assert s == "https:" + "/" + ("" + "/" + ("github.com" + "/" + (p[3] + "/" + (p[4] + "/" + ("pull" + "/" + p[6])))));
    assert s == "https://github.com/" + p[3] + "/" + p[4] + "/pull/" + p[6];
  }

  lemma PullIs(s: string, owner: string, repo: string, n: string)
    requires OfNameChars(owner) && OfNameChars(repo) && CountShape(n)
    requires s == "https://github.com/" + owner + "/" + repo + "/pull/" + n
    ensures IsGithubPR(s)
  {
    hide Split, Join, IsRepoName, IsCount, OfNameChars, CountShape;
    NoneInName(owner);
    NoneInName(repo);
    NoneInCount(n);
    var p := ["https:", "", "github.com", owner, repo, "pull", n];
    JoinSeven(p);
    assert "https:" + "/" + ("" + "/" + ("github.com" + "/" + (owner + "/" + (repo + "/" + ("pull" + "/" + n))))) == s;
    SplitJoin(p, '/');
    RepoExactly(owner);
    RepoExactly(repo);
    CountExactly(n);
  }

  lemma NoneInCount(n: string)
    requires CountShape(n)
    ensures '/' !in n
  {
  }

  lemma LineExactly(s: string)
    ensures IsLine(s) <==> LineShape(s)
  {
    hide TextFits, IsKeptOut, Points, Valid;
    TextExactly(s);
    if Valid(s) {
      NoSuchPoint(s, '\n');
      NoSuchPoint(s, '\t');
    }
  }

  // The rules.

  /** The types: each with its prefix and the statuses it may have. */
  const TYPES: map<string, (KnotLayout.Kind, set<string>)> :=
    map["outcome" := (KnotLayout.Outcome, {"open", "in-progress", "done", "abandoned"}),
        "bug" := (KnotLayout.Bug, {"open", "closed"}),
        "idea" := (KnotLayout.Idea, {"raw", "exploring", "adopted", "graduated", "superseded", "discarded"}),
        "question" := (KnotLayout.Question, {"open", "answered", "dropped"})]

  /** A type, an ID and a status of that type, a title and a date after the cutoff. */
  ghost predicate IsOfType(k: Knot) {
    && k.typeName in TYPES && IdOf(k.id, TYPES[k.typeName].0) && k.status in TYPES[k.typeName].1
    && k.title != "" && DateShape(k.created) && Less("2026-08-05", k.created)
  }

  /** Only outcomes and bugs are work, with a blocked_by, a claim or a target; work and
      questions have changes, and only an idea graduates. */
  ghost predicate HasItsFields(k: Knot) {
    && (k.typeName !in {"outcome", "bug"} ==> k.blockedBy.None? && k.claimedBy == "" && k.claimedAt == "" && k.target == "")
    && (k.typeName == "idea" ==> k.changes.None?)
    && (k.typeName != "idea" ==> k.graduatedInto == "")
    && (k.typeName == "outcome" ==> k.blockedBy.Some?)
    && (k.typeName == "idea" ==> (k.status == "graduated" <==> k.graduatedInto != ""))
    && (k.claimedBy == "" <==> k.claimedAt == "")
  }

  /** Each field that is there is written as it must be, within its limit. */
  ghost predicate HasShapes(k: Knot) {
    && NameShape(k.createdBy) && |k.createdBy| <= 64
    && (k.owner == "" || NameShape(k.owner)) && |k.owner| <= 64
    && (k.parent == "" || IdOf(k.parent, KnotLayout.Outcome))
    && (k.claimedBy == "" || NameShape(k.claimedBy)) && |k.claimedBy| <= 64
    && (k.claimedAt == "" || TimestampShape(k.claimedAt))
    && (k.target == "" || NameShape(k.target) || QualifiedShape(k.target)) && |k.target| <= 76
    && (k.graduatedInto == "" || IdOf(k.graduatedInto, KnotLayout.Outcome) || IdOf(k.graduatedInto, KnotLayout.Question))
    && LineShape(k.title) && LineShape(k.source) && |k.title| <= 200 && |k.source| <= 200
  }

  ghost predicate HasEntries(k: Knot) {
    && (k.blockedBy.Some? ==>
          |k.blockedBy.value| <= 64 && forall x :: x in k.blockedBy.value ==> (IdShape(x) || QualifiedShape(x)) && |x| <= 76)
    && (k.changes.Some? ==>
          |k.changes.value| <= 64 && forall x :: x in k.changes.value ==> (ValleyShape(x) || PullShape(x)) && |x| <= 256)
  }

  ghost predicate KeepsRules(k: Knot) {
    IsOfType(k) && HasItsFields(k) && HasShapes(k) && HasEntries(k)
  }

  // What each part of the code asks for.

  lemma TypeExactly(k: Knot)
    ensures IsType(k.typeName) <==> k.typeName in TYPES
    ensures IsType(k.typeName) ==>
              var (kind, statuses) := TYPES[k.typeName];
              && (KnotLayout.IsLocalID(k.id) && PrefixOf(k.typeName) + "-" <= k.id <==> IdOf(k.id, kind))
              && (k.status in Statuses(k.typeName) <==> k.status in statuses)
  {
    hide KnotLayout.IsLocalID, IdOf;
    if k.typeName in TYPES { PrefixExactly(k.id, TYPES[k.typeName].0); }
  }

  lemma FieldsExactly(k: Knot)
    requires IsType(k.typeName)
    ensures (forall f: Field :: Holds(k, f) ==> Carries(f, k.typeName)) <==>
            && (k.typeName !in {"outcome", "bug"} ==> k.blockedBy.None? && k.claimedBy == "" && k.claimedAt == "" && k.target == "")
            && (k.typeName == "idea" ==> k.changes.None?)
            && (k.typeName != "idea" ==> k.graduatedInto == "")
  {
    assert Holds(k, BlockedBy) == k.blockedBy.Some? && Holds(k, Changes) == k.changes.Some?;
    assert Holds(k, ClaimedBy) == (k.claimedBy != "") && Holds(k, ClaimedAt) == (k.claimedAt != "");
    assert Holds(k, Target) == (k.target != "") && Holds(k, GraduatedInto) == (k.graduatedInto != "");
  }

  lemma EntriesExactly(k: Knot)
    ensures (forall x :: x in BlockedItems(k) ==> IsReference(x)) && (forall x :: x in ChangeItems(k) ==> IsLink(x))
            && |BlockedItems(k)| <= 64 && |ChangeItems(k)| <= 64
            && (forall x :: x in BlockedItems(k) ==> |x| <= 76) && (forall x :: x in ChangeItems(k) ==> |x| <= 256)
            <==> HasEntries(k)
  {
    hide IsQualifiedID, IsValleyChange, IsGithubPR, KnotLayout.IsLocalID, IdShape, QualifiedShape, ValleyShape, PullShape;
    forall x ensures (IsReference(x) <==> IdShape(x) || QualifiedShape(x)) && (IsLink(x) <==> ValleyShape(x) || PullShape(x)) {
      IdExactly(x);
      QualifiedExactly(x);
      ValleyExactly(x);
      PullExactly(x);
    }
  }

  /** The shapes of fields that hold one text. */
  ghost predicate HasFieldShapes(k: Knot) {
    && (k.createdBy == "" || NameShape(k.createdBy))
    && (k.owner == "" || NameShape(k.owner))
    && (k.parent == "" || IdOf(k.parent, KnotLayout.Outcome))
    && (k.claimedBy == "" || NameShape(k.claimedBy))
    && (k.claimedAt == "" || TimestampShape(k.claimedAt))
    && (k.target == "" || NameShape(k.target) || QualifiedShape(k.target))
    && (k.graduatedInto == "" || IdOf(k.graduatedInto, KnotLayout.Outcome) || IdOf(k.graduatedInto, KnotLayout.Question))
  }

  lemma ShapesExactly(k: Knot)
    ensures CheckShapes(k).None? <==>
            && HasFieldShapes(k)
            && (forall x :: x in BlockedItems(k) ==> IsReference(x)) && (forall x :: x in ChangeItems(k) ==> IsLink(x))
  {
    hide IsName, IsQualifiedID, IsTimestamp, KnotLayout.IsLocalID, NameShape, QualifiedShape, TimestampShape, IdOf, IsReference, IsLink,
      BlockedItems, ChangeItems;
    NameExactly(k.createdBy);
    NameExactly(k.owner);
    NameExactly(k.claimedBy);
    NameExactly(k.target);
    QualifiedExactly(k.target);
    TimestampExactly(k.claimedAt);
    PrefixExactly(k.parent, KnotLayout.Outcome);
    PrefixExactly(k.graduatedInto, KnotLayout.Outcome);
    PrefixExactly(k.graduatedInto, KnotLayout.Question);
    assert KnotLayout.Kind.Outcome.Prefix() + "-" == "oc-" && KnotLayout.Kind.Question.Prefix() + "-" == "qn-";
  }

  lemma LiveExactly(k: Knot)
    ensures CheckLive(k).None? <==>
            && k.createdBy != "" && Less("2026-08-05", k.created) && (k.claimedBy == "" <==> k.claimedAt == "")
            && LineShape(k.title) && LineShape(k.source) && |k.title| <= 200 && |k.source| <= 200
            && |BlockedItems(k)| <= 64 && |ChangeItems(k)| <= 64
            && |k.createdBy| <= 64 && |k.owner| <= 64 && |k.claimedBy| <= 64 && |k.target| <= 76
            && (forall x :: x in BlockedItems(k) ==> |x| <= 76) && (forall x :: x in ChangeItems(k) ==> |x| <= 256)
  {
    hide Less, IsLine, LineShape, BlockedItems, ChangeItems;
    LineExactly(k.title);
    LineExactly(k.source);
  }

  /** The check, with its order left out. */
  lemma CheckAsks(k: Knot)
    ensures Check(k).None? <==>
            && IsType(k.typeName) && k.id != "" && KnotLayout.IsLocalID(k.id) && PrefixOf(k.typeName) + "-" <= k.id
            && k.status != "" && k.status in Statuses(k.typeName) && k.title != "" && IsDate(k.created) && k.created != ""
            && (forall f: Field :: Holds(k, f) ==> Carries(f, k.typeName))
            && CheckShapes(k).None? && CheckLive(k).None?
            && (k.typeName == "outcome" ==> k.blockedBy.Some?)
            && (k.typeName == "idea" && k.status == "graduated" ==> k.graduatedInto != "")
            && (k.graduatedInto != "" ==> k.status == "graduated")
  {
    hide CheckShapes, CheckLive, KnotLayout.IsLocalID, Statuses, PrefixOf, IsDate, Carries, Holds;
  }

  /** The check passes a knot exactly when it keeps the rules. */
  lemma RulesExactly(k: Knot)
    ensures Check(k).None? <==> KeepsRules(k)
  {
    hide Check, CheckShapes, CheckLive, IsType, KnotLayout.IsLocalID, IdOf, Statuses, PrefixOf, IsDate, DateShape, Less, LineShape, NameShape,
      QualifiedShape, TimestampShape, IsReference, IsLink, BlockedItems, ChangeItems, HasEntries, Carries, Holds;
    CheckAsks(k);
    TypeExactly(k);
    DateExactly(k.created);
    EntriesExactly(k);
    ShapesExactly(k);
    LiveExactly(k);
    NoneEmpty(k);
    if IsType(k.typeName) { FieldsExactly(k); }
  }

  /** What is empty is none of these. */
  lemma NoneEmpty(k: Knot)
    ensures !IsType("") && !DateShape("") && !NameShape("") && !KnotLayout.IsLocalID("")
    ensures IsType(k.typeName) ==> "" !in Statuses(k.typeName)
    ensures KnotLayout.IsLocalID(k.id) ==> k.id != ""
  {
    DateExactly("");
    assert forall j: KnotLayout.Kind :: |j.Prefix()| > 0;
  }
}
