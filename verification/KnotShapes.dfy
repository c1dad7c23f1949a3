/** Which paths a plan graph holds (knot/graph.go, knot/contract.go), told as what is
    written: a knot's path is its directory, ID and slug, a comment's its knot's
    ID, a moment that exists, and its operation. */
module KnotShapes {
  import opened Wrappers
  import opened Strings
  import opened KnotLayout

  ghost predicate IsHexRun(s: string, n: nat) {
    |s| == n && forall i :: 0 <= i < n ==> '0' <= s[i] <= '9' || 'a' <= s[i] <= 'f'
  }

  ghost predicate IsId(s: string, k: Kind, hex: string) {
    IsHexRun(hex, 7) && s == k.Prefix() + "-" + hex
  }

  /** A local ID is some type's prefix, a hyphen and seven hex digits. */
  lemma LocalIdExactly(s: string)
    ensures IsLocalID(s) <==> exists k, hex :: IsId(s, k, hex)
  {
    forall k: Kind | IsIdUnder(s, k.Prefix()) ensures exists j, hex :: IsId(s, j, hex) {
      IdIsWritten(s, k);
    }
    forall k: Kind, hex | IsId(s, k, hex) ensures IsIdUnder(s, k.Prefix()) {
      WrittenIsId(s, k, hex);
    }
  }

  lemma IdIsWritten(s: string, k: Kind)
    requires IsIdUnder(s, k.Prefix())
    ensures IsId(s, k, s[|k.Prefix()| + 1..])
  {
    var hex := s[|k.Prefix()| + 1..];
    assert s == k.Prefix() + "-" + hex;
    forall i | 0 <= i < |hex| ensures hex[i] in hex {}
  }

  lemma WrittenIsId(s: string, k: Kind, hex: string)
    requires IsId(s, k, hex)
    ensures IsIdUnder(s, k.Prefix())
  {
    assert s[|k.Prefix()| + 1..] == hex;
  }

  // Slugs.

  ghost predicate IsWord(w: string) {
    w != "" && forall i :: 0 <= i < |w| ==> 'a' <= w[i] <= 'z' || '0' <= w[i] <= '9'
  }

  ghost predicate AreWords(ws: seq<string>) {
    ws != [] && forall i :: 0 <= i < |ws| ==> IsWord(ws[i])
  }

  /** A slug is words of lowercase letters and digits, joined by single hyphens. */
  lemma SlugExactly(s: string)
    ensures IsSlug(s) <==> exists ws :: AreWords(ws) && s == Join(ws, '-')
  {
    if IsSlug(s) { var ws := SlugWords(s); }
    forall ws | AreWords(ws) && s == Join(ws, '-') ensures IsSlug(s) { WordsAreSlug(ws); }
  }

  /** A slug's first word, and after its hyphen another slug. */
  lemma SlugSplits(s: string, i: nat)
    requires IsSlug(s) && i <= |s| && '-' !in s[..i] && (i < |s| ==> s[i] == '-')
    ensures IsWord(s[..i]) && (i < |s| ==> IsSlug(s[i + 1..]))
  {
    forall j | 0 <= j < i ensures s[j] in s && s[j] != '-' { assert s[j] in s[..i]; }
    if i < |s| {
      var rest := s[i + 1..];
      forall j | 0 <= j < |rest| ensures rest[j] == s[i + 1 + j] && rest[j] in s {}
    }
  }

  lemma {:induction false} SlugWords(s: string) returns (ws: seq<string>)
    requires IsSlug(s)
    ensures AreWords(ws) && s == Join(ws, '-')
    decreases |s|
  {
    hide IsSlug, IsWord;
    var i := IndexOf(s, '-');
    var w := s[..i];
    SlugSplits(s, i);
    if i == |s| {
      ws := [w];
      assert w == s;
    } else {
      var rest := s[i + 1..];
      var more := SlugWords(rest);
      ws := [w] + more;
      assert ws[1..] == more;
      assert s == w + "-" + rest;
    }
  }

  lemma {:induction false} WordsAreSlug(ws: seq<string>)
    requires AreWords(ws)
    ensures IsSlug(Join(ws, '-'))
  {
    var s, w := Join(ws, '-'), ws[0];
    if |ws| == 1 {
      assert s == w;
    } else {
      WordsAreSlug(ws[1..]);
      var rest := Join(ws[1..], '-');
      assert s == w + "-" + rest;
      assert forall i :: 0 <= i < |s| ==> s[i] == if i < |w| then w[i] else if i == |w| then '-' else rest[i - |w| - 1];
      assert forall i :: 0 <= i < |rest| ==> rest[i] in rest;
    }
  }

  // Stamps.

  datatype Moment = Moment(year: nat, month: nat, day: nat, hour: nat, minute: nat, second: nat)

  const LENGTHS: seq<nat> := [31, 28, 31, 30, 31, 30, 31, 31, 30, 31, 30, 31]

  predicate IsLeap(year: nat) {
    year % 400 == 0 || (year % 4 == 0 && year % 100 != 0)
  }

  predicate Exists(m: Moment) {
    && m.year < 10000 && 1 <= m.month <= 12
    && 1 <= m.day <= LENGTHS[m.month - 1] + (if m.month == 2 && IsLeap(m.year) then 1 else 0)
    && m.hour <= 23 && m.minute <= 59 && m.second <= 59
  }

  function Digit(n: nat): char
    requires n < 10
  {
    ['0', '1', '2', '3', '4', '5', '6', '7', '8', '9'][n]
  }

  function Two(n: nat): string
    requires n < 100
  {
    [Digit(n / 10), Digit(n % 10)]
  }

  function Written(m: Moment): string
    requires Exists(m)
  {
    Two(m.year / 100) + Two(m.year % 100) + Two(m.month) + Two(m.day) + "T" + Two(m.hour) + Two(m.minute) + Two(m.second) + "Z"
  }

  /** A stamp is a moment that exists, as it is written. */
  lemma StampExactly(s: string)
    ensures IsStamp(s) <==> exists m :: Exists(m) && s == Written(m)
  {
    if IsStamp(s) { var m := StampSays(s); }
    forall m | Exists(m) && s == Written(m) ensures IsStamp(s) { WrittenIsStamp(m); }
  }

  lemma DigitIs(n: nat)
    requires n < 10
    ensures '0' <= Digit(n) <= '9' && DigitValue(Digit(n)) == n
  {
  }

  lemma DigitOf(c: char)
    requires '0' <= c <= '9'
    ensures DigitValue(c) < 10 && Digit(DigitValue(c)) == c
  {
  }

  lemma TwoOf(a: char, b: char)
    requires '0' <= a <= '9' && '0' <= b <= '9'
    ensures 10 * DigitValue(a) + DigitValue(b) < 100 && Two(10 * DigitValue(a) + DigitValue(b)) == [a, b]
  {
    hide Digit, DigitValue;
    DigitOf(a);
    DigitOf(b);
    var n := 10 * DigitValue(a) + DigitValue(b);
    assert n / 10 == DigitValue(a) && n % 10 == DigitValue(b);
  }

  lemma TwoAt(s: string, i: nat)
    requires i + 2 <= |s| && IsDigits(s[i..i + 2])
    ensures TwoDigits(s, i) < 100 && Two(TwoDigits(s, i)) == s[i..i + 2]
  {
    hide Two, DigitValue;
    assert s[i] in s[i..i + 2] && s[i + 1] in s[i..i + 2];
    TwoOf(s[i], s[i + 1]);
    assert s[i..i + 2] == [s[i], s[i + 1]];
  }

  lemma TwoIs(n: nat, s: string, i: nat)
    requires n < 100 && i + 2 <= |s| && s[i..i + 2] == Two(n)
    ensures IsDigits(s[i..i + 2]) && TwoDigits(s, i) == n
  {
    DigitIs(n / 10);
    DigitIs(n % 10);
    assert s[i] == s[i..i + 2][0] && s[i + 1] == s[i..i + 2][1];
  }

  lemma LengthOf(year: nat, month: nat)
    requires 1 <= month <= 12
    ensures DaysIn(year, month) == LENGTHS[month - 1] + (if month == 2 && IsLeap(year) then 1 else 0)
    ensures DaysIn(year, month) < 100
  {
  }

  lemma StampSays(s: string) returns (m: Moment)
    requires IsStamp(s)
    ensures Exists(m) && s == Written(m)
  {
    hide Two, TwoDigits, IsDigits, DaysIn;
    TwoAt(s, 0);
    TwoAt(s, 2);
    TwoAt(s, 4);
    TwoAt(s, 6);
    TwoAt(s, 9);
    TwoAt(s, 11);
    TwoAt(s, 13);
    var year := 100 * TwoDigits(s, 0) + TwoDigits(s, 2);
    m := Moment(year, TwoDigits(s, 4), TwoDigits(s, 6), TwoDigits(s, 9), TwoDigits(s, 11), TwoDigits(s, 13));
    LengthOf(year, m.month);
    assert year / 100 == TwoDigits(s, 0) && year % 100 == TwoDigits(s, 2);
    assert s == s[0..2] + s[2..4] + s[4..6] + s[6..8] + [s[8]] + s[9..11] + s[11..13] + s[13..15] + [s[15]];
  }

  lemma WrittenIsStamp(m: Moment)
    requires Exists(m)
    ensures IsStamp(Written(m))
  {
    hide Two, TwoDigits, IsDigits, DaysIn;
    LengthOf(m.year, m.month);
    var s := Written(m);
    TwoLength(m);
    assert s[0..2] == Two(m.year / 100) && s[2..4] == Two(m.year % 100) && s[4..6] == Two(m.month) && s[6..8] == Two(m.day);
    assert s[9..11] == Two(m.hour) && s[11..13] == Two(m.minute) && s[13..15] == Two(m.second);
    TwoIs(m.year / 100, s, 0);
    TwoIs(m.year % 100, s, 2);
    TwoIs(m.month, s, 4);
    TwoIs(m.day, s, 6);
    TwoIs(m.hour, s, 9);
    TwoIs(m.minute, s, 11);
    TwoIs(m.second, s, 13);
    assert 100 * (m.year / 100) + m.year % 100 == m.year;
  }

  lemma TwoLength(m: Moment)
    requires Exists(m)
    ensures m.day < 100 && m.year / 100 < 100
    ensures forall n: nat :: n < 100 ==> |Two(n)| == 2
  {
  }

  // Paths.

  function KnotPath(k: Kind, hex: string, slug: string): string {
    match k
    case Outcome => "outcomes" + "/" + ("oc" + "-" + hex + "-" + slug + ".md")
    case Bug => "bugs" + "/" + ("bd" + "-" + hex + "-" + slug + ".md")
    case Idea => "ideas" + "/" + ("ida" + "-" + hex + "-" + slug + ".md")
    case Question => "questions" + "/" + ("qn" + "-" + hex + "-" + slug + ".md")
  }

  function CommentPath(id: string, stamp: string, op: string): string {
    "comments" + "/" + (id + "/" + (stamp + "-" + op + ".md"))
  }

  ghost predicate IsKnotAt(path: string, f: File, k: Kind, hex: string, slug: string) {
    && IsHexRun(hex, 7) && |slug| <= 48 && (exists ws :: AreWords(ws) && slug == Join(ws, '-'))
    && path == KnotPath(k, hex, slug) && f == KnotFile(path, "", k.Prefix() + "-" + hex, k, slug)
  }

  ghost predicate IsCommentAt(path: string, f: File, id: string, m: Moment, op: string) {
    && '/' !in id && Exists(m) && IsHexRun(op, 16)
    && path == CommentPath(id, Written(m), op) && f == CommentFile(path, "", id, Written(m), op)
  }

  /** A path is a directory of the layout exactly when it is a type's, the comments', or
      that of a knot's comments. */
  lemma DirSays(path: string)
    ensures LayoutDir(Split(path, '/')).None? <==>
            || path in {"outcomes", "bugs", "ideas", "questions", "comments"}
            || exists k: Kind, hex :: IsHexRun(hex, 7) && path == "comments/" + (k.Prefix() + "-" + hex)
  {
    hide Split, Join, IsLocalID, IsId, KindOfDirectory;
    var parts := Split(path, '/');
    JoinSplit(path, '/');
    if path in {"outcomes", "bugs", "ideas", "questions", "comments"} {
      SplitHead(path, "", '/');
      RootDirs(path);
    }
    if |parts| == 1 {
      JoinOne(parts[0]);
      assert parts == [parts[0]] && parts[0] == path;
      RootDirs(path);
    }
    if |parts| == 2 && parts[0] == COMMENTS && IsLocalID(parts[1]) {
      LocalIdExactly(parts[1]);
      JoinTwo(parts);
      CommentDir(parts[1]);
      var k, hex :| IsId(parts[1], k, hex);
      IdIs(parts[1], k, hex);
    }
    forall k: Kind, hex | IsHexRun(hex, 7) && path == "comments/" + (k.Prefix() + "-" + hex) ensures LayoutDir(parts).None? {
      IdHasNoSlash(k, hex);
      CommentDirSplits(k.Prefix() + "-" + hex);
      LocalIdExactly(k.Prefix() + "-" + hex);
    }
  }

  lemma RootDirs(dir: string)
    ensures KindOfDirectory(dir).Some? || dir == COMMENTS <==> dir in {"outcomes", "bugs", "ideas", "questions", "comments"}
  {
  }

  lemma JoinOne(part: string)
    ensures Join([part], '/') == part
  {
  }

  lemma IdIs(id: string, k: Kind, hex: string)
    requires IsId(id, k, hex)
    ensures IsHexRun(hex, 7) && id == k.Prefix() + "-" + hex
  {
  }

  lemma CommentDir(id: string)
    ensures COMMENTS + "/" + id == "comments/" + id && COMMENTS + ['/'] + id == "comments/" + id
  {
  }

  lemma CommentDirSplits(id: string)
    requires '/' !in id
    ensures Split("comments/" + id, '/') == [COMMENTS, id]
  {
    hide Split;
    CommentDir(id);
    SplitHead(COMMENTS, id, '/');
    SplitHead(id, "", '/');
  }

  lemma IdHasNoSlash(k: Kind, hex: string)
    requires IsHexRun(hex, 7)
    ensures '/' !in k.Prefix() + "-" + hex && IsId(k.Prefix() + "-" + hex, k, hex)
  {
  }

  /** A path is a file of the layout exactly when it is written as a knot's or a
      comment's, and then it says just that. */
  lemma PathSays(path: string, f: File)
    ensures FileAt(path) == Ok(f) <==>
            (exists k, hex, slug :: IsKnotAt(path, f, k, hex, slug)) || (exists id, m, op :: IsCommentAt(path, f, id, m, op))
  {
    hide FileAt, IsKnotAt, IsCommentAt;
    if FileAt(path) == Ok(f) { FileIsWritten(path, f); }
    forall k, hex, slug | IsKnotAt(path, f, k, hex, slug) ensures FileAt(path) == Ok(f) { KnotIsFile(path, f, k, hex, slug); }
    forall id, m, op | IsCommentAt(path, f, id, m, op) ensures FileAt(path) == Ok(f) { CommentIsFile(path, f, id, m, op); }
  }

  lemma FileIsWritten(path: string, f: File)
    requires FileAt(path) == Ok(f)
    ensures (exists k, hex, slug :: IsKnotAt(path, f, k, hex, slug)) || (exists id, m, op :: IsCommentAt(path, f, id, m, op))
  {
    hide Split, Join, IsSlug, IsStamp, IsHex, IsKnotAt, IsCommentAt, IsKnotFileUnder;
    JoinSplit(path, '/');
    if |Split(path, '/')| == 2 { KnotIsWritten(path, f); } else { CommentIsWritten(path, f); }
  }

  lemma KnotIsWritten(path: string, f: File)
    requires FileAt(path) == Ok(f) && |Split(path, '/')| == 2
    ensures exists k, hex, slug :: IsKnotAt(path, f, k, hex, slug)
  {
    hide Split, Join, IsSlug, AreWords, IsIdUnder, KindOfDirectory;
    var parts := Split(path, '/');
    JoinSplit(path, '/');
    JoinTwo(parts);
    var k, slug := f.kind, f.slug;
    var id := KnotParts(parts, f);
    KindIs(parts[0], k);
    IdIsWritten(id, k);
    SlugExactly(slug);
    assert IsKnotAt(path, f, k, id[|k.Prefix()| + 1..], slug);
  }

  lemma KnotParts(parts: seq<string>, f: File) returns (id: string)
    requires |parts| == 2 && LayoutFile(parts) == Ok(f)
    ensures f.KnotFile? && KindOfDirectory(parts[0]) == Some(f.kind) && IsIdUnder(id, f.kind.Prefix())
    ensures IsSlug(f.slug) && |f.slug| <= 48 && parts[1] == id + "-" + f.slug + ".md"
    ensures f == KnotFile(Join(parts, '/'), "", id, f.kind, f.slug)
  {
    hide Join, IsSlug, IsIdUnder, KindOfDirectory;
    id := f.id;
    assert parts[1] == id + "-" + f.slug + ".md";
  }

  lemma CommentIsWritten(path: string, f: File)
    requires FileAt(path) == Ok(f) && |Split(path, '/')| != 2
    ensures exists id, m, op :: IsCommentAt(path, f, id, m, op)
  {
    hide Split, Join, IsStamp, IsHex, Written, Exists;
    var parts := Split(path, '/');
    JoinSplit(path, '/');
    JoinThree(parts);
    var base := parts[2];
    StampExactly(base[..16]);
    var m :| Exists(m) && base[..16] == Written(m);
    HexIsRun(base[17..33]);
    assert base == base[..16] + "-" + base[17..33] + ".md";
    SplitParts(path);
    assert IsCommentAt(path, f, parts[1], m, base[17..33]);
  }

  lemma HexIsRun(s: string)
    ensures IsHex(s) <==> IsHexRun(s, |s|)
  {
    forall i | 0 <= i < |s| ensures s[i] in s {}
  }

  lemma JoinTwo(parts: seq<string>)
    requires |parts| == 2
    ensures Join(parts, '/') == parts[0] + "/" + parts[1]
  {
    assert parts[1..] == [parts[1]];
  }

  lemma JoinThree(parts: seq<string>)
    requires |parts| == 3
    ensures Join(parts, '/') == parts[0] + "/" + (parts[1] + "/" + parts[2])
  {
    JoinTwo(parts[1..]);
  }

  lemma KindIs(dir: string, k: Kind)
    ensures KindOfDirectory(dir) == Some(k) <==> dir == k.Directory()
  {
    assert "outcomes"[0] == 'o' && "bugs"[0] == 'b' && "ideas"[0] == 'i' && "questions"[0] == 'q';
  }

  lemma {:induction false} SplitParts(s: string)
    ensures forall p :: p in Split(s, '/') ==> '/' !in p
    decreases |s|
  {
    if s != "" { SplitParts(s[1..]); }
  }

  lemma NoSlashInRun(s: string)
    requires forall i :: 0 <= i < |s| ==> s[i] != '/'
    ensures '/' !in s
  {
  }

  lemma SplitTwo(a: string, b: string)
    requires '/' !in a && '/' !in b
    ensures Split(a + "/" + b, '/') == [a, b]
  {
    hide Split, Join;
    SplitJoin([a, b], '/');
    JoinTwo([a, b]);
  }

  lemma SplitThree(a: string, b: string, c: string)
    requires '/' !in a && '/' !in b && '/' !in c
    ensures Split(a + "/" + (b + "/" + c), '/') == [a, b, c]
  {
    hide Split, Join;
    SplitJoin([a, b, c], '/');
    JoinThree([a, b, c]);
  }

  lemma SlugHasNoSlash(slug: string)
    requires IsSlug(slug)
    ensures '/' !in slug
  {
  }

  lemma KnotIsFile(path: string, f: File, k: Kind, hex: string, slug: string)
    requires IsKnotAt(path, f, k, hex, slug)
    ensures FileAt(path) == Ok(f)
  {
    hide Split, Join, IsSlug, IsStamp, AreWords;
    var id := k.Prefix() + "-" + hex;
    var base := id + "-" + slug + ".md";
    SlugExactly(slug);
    SlugHasNoSlash(slug);
    NoSlashInRun(hex);
    SplitTwo(k.Directory(), base);
    var parts := [k.Directory(), base];
    JoinTwo(parts);
    KindIs(parts[0], k);
    WrittenIsId(id, k, hex);
    assert base[..|id|] == id && base[|id|] == '-' && base[|id| + 1..|base| - 3] == slug;
    SlugParts(slug);
    FileUnder(base, k);
  }

  lemma SlugParts(slug: string)
    requires IsSlug(slug)
    ensures |slug| > 0 && forall c :: c in slug ==> SlugByte(c) || c == '-'
  {
  }

  /** Each prefix opens with a letter of its own. */
  lemma FileUnder(base: string, k: Kind)
    requires IsKnotFileUnder(base, k.Prefix())
    ensures KindOfKnotFile(base) == Some(k)
  {
    assert base[0] == k.Prefix()[0];
    assert forall j: Kind :: IsKnotFileUnder(base, j.Prefix()) ==> base[0] == j.Prefix()[0];
    assert "oc"[0] == 'o' && "bd"[0] == 'b' && "ida"[0] == 'i' && "qn"[0] == 'q';
  }

  lemma CommentIsFile(path: string, f: File, id: string, m: Moment, op: string)
    requires IsCommentAt(path, f, id, m, op)
    ensures FileAt(path) == Ok(f)
  {
    hide Split, Join, IsStamp, Written, Exists;
    var stamp := Written(m);
    var base := stamp + "-" + op + ".md";
    StampExactly(stamp);
    StampParts(stamp);
    NoSlashInRun(op);
    HexIsRun(op);
    SplitThree("comments", id, base);
    JoinThree(["comments", id, base]);
    assert base[..16] == stamp && base[16] == '-' && base[17..33] == op && base[33..] == ".md";
  }

  lemma StampParts(s: string)
    requires IsStamp(s)
    ensures |s| == 16 && '/' !in s
  {
    assert forall i :: 0 <= i < 2 ==> s[0..2][i] == s[i] && s[2..4][i] == s[2 + i] && s[4..6][i] == s[4 + i] && s[6..8][i] == s[6 + i];
    assert forall i :: 0 <= i < 2 ==> s[9..11][i] == s[9 + i] && s[11..13][i] == s[11 + i] && s[13..15][i] == s[13 + i];
    forall i | 0 <= i < |s| ensures s[i] != '/' {
      if i < 2 { assert s[i] in s[0..2]; }
      else if i < 4 { assert s[i] in s[2..4]; }
      else if i < 6 { assert s[i] in s[4..6]; }
      else if i < 8 { assert s[i] in s[6..8]; }
      else if 9 <= i < 11 { assert s[i] in s[9..11]; }
      else if 11 <= i < 13 { assert s[i] in s[11..13]; }
      else if 13 <= i < 15 { assert s[i] in s[13..15]; }
    }
  }
}
