/** The valley-delta-v1 encoding of a change between two trees, and its strict
    reading (delta/delta.go). */
module DeltaCodec {
  import opened Wrappers
  import opened Strings
  import opened Decimal

  const HEADER := "valley-delta-v1\n"
  const MODE_FILE := "100644"
  const MODE_EXEC := "100755"
  const MODE_SYMLINK := "120000"
  const MAX_LEN_DIGITS := 10
  const MAX_NAME := 255

  const ZEROS: seq<byte> := [
    0, 0, 0, 0, 0, 0, 0, 0, 0, 0, 0, 0, 0, 0, 0, 0, 0, 0, 0, 0, 0, 0, 0, 0, 0, 0, 0, 0, 0, 0, 0, 0]

  type Sum = s: seq<byte> | |s| == 32 witness ZEROS

  const ZERO_SUM: Sum := ZEROS

  /** The SHA-256 of empty content. */
  const EMPTY_SUM: Sum := [
    0xe3, 0xb0, 0xc4, 0x42, 0x98, 0xfc, 0x1c, 0x14, 0x9a, 0xfb, 0xf4, 0xc8, 0x99, 0x6f, 0xb9, 0x24,
    0x27, 0xae, 0x41, 0xe4, 0x64, 0x9b, 0x93, 0x4c, 0xa4, 0x95, 0x99, 0x1b, 0x78, 0x52, 0xb8, 0x55]

  /** A path's entry on one side: its mode and its content's hash. The mode of
      a path with no entry is "". */
  datatype Image = Image(mode: string, sum: Sum) {
    predicate Absent() {
      mode == ""
    }
  }

  const ABSENT := Image("", ZERO_SUM)

  datatype Change = Change(path: string, pre: Image, post: Image)

  type Delta = seq<Change>

  function ImageText(i: Image): string {
    if i.Absent() then "-" else i.mode + " " + Hex(i.sum)
  }

  /** One line of the encoding. */
  function Line(c: Change): string {
    Itoa(|c.path|) + " " + c.path + " " + ImageText(c.pre) + " " + ImageText(c.post) + "\n"
  }

  function Lines(d: Delta): string {
    if d == [] then "" else Line(d[0]) + Lines(d[1..])
  }

  function Text(d: Delta): string {
    HEADER + Lines(d)
  }

  lemma {:induction false} LinesAppend(d: Delta, c: Change)
    ensures Lines(d + [c]) == Lines(d) + Line(c)
  {
    hide Line;
    if d == [] {
      assert [c][1..] == [];
    } else {
      LinesAppend(d[1..], c);
      assert (d + [c])[1..] == d[1..] + [c];
    }
  }

  method Encode(d: Delta) returns (b: string)
    ensures b == Text(d)
  {
    hide Itoa, ImageText;
    b := HEADER;
    for n := 0 to |d|
      invariant b == HEADER + Lines(d[..n])
    {
      var c := d[n];
      assert d[..n + 1] == d[..n] + [c];
      LinesAppend(d[..n], c);
      b := b + (Itoa(|c.path|) + " " + c.path + " " + ImageText(c.pre) + " " + ImageText(c.post) + "\n");
    }
    assert d[..|d|] == d;
  }

  // What a delta between two trees can hold.

  predicate IsDotGit(name: string) {
    && |name| == 4 && name[0] == '.'
    && name[1] in {'g', 'G'} && name[2] in {'i', 'I'} && name[3] in {'t', 'T'}
  }

  predicate NameFits(name: string) {
    name != "" && name != "." && name != ".." && !IsDotGit(name) && '/' !in name && |name| <= MAX_NAME
  }

  predicate PathFits(path: string) {
    path != "" && '\0' !in path && forall name :: name in Split(path, '/') ==> NameFits(name)
  }

  predicate ModeFits(mode: string) {
    mode == MODE_FILE || mode == MODE_EXEC || mode == MODE_SYMLINK
  }

  /** An absent image, which is zero, or an entry a tree can hold: no symlink's
      target is empty. */
  predicate ImageFits(i: Image) {
    i == ABSENT || (ModeFits(i.mode) && !(i.mode == MODE_SYMLINK && i.sum == EMPTY_SUM))
  }

  predicate ChangeFits(c: Change) {
    && PathFits(c.path) && |c.path| < Pow10(MAX_LEN_DIGITS)
    && ImageFits(c.pre) && ImageFits(c.post) && c.pre != c.post
  }

  /** A path in the directory at another path, or below it. */
  predicate Under(path: string, dir: string) {
    |dir| < |path| && path[..|dir|] == dir && path[|dir|] == '/'
  }

  /** On neither side is one entry under another. */
  predicate SidesFit(d: Delta) {
    forall i, j :: 0 <= i < |d| && 0 <= j < |d| && Under(d[j].path, d[i].path) ==>
      (d[i].pre.Absent() || d[j].pre.Absent()) && (d[i].post.Absent() || d[j].post.Absent())
  }

  predicate PathsSorted(d: Delta) {
    forall i, j :: 0 <= i < j < |d| ==> Less(d[i].path, d[j].path)
  }

  predicate WellFormed(d: Delta) {
    (forall c :: c in d ==> ChangeFits(c)) && PathsSorted(d) && SidesFit(d)
  }

  // Reading one image.

  /** How far a mode runs: to a space, the end, or past six bytes. */
  function ModeLength(b: string, n: nat): (m: nat)
    requires n <= |b| && n <= 7
    ensures n <= m <= |b| && m <= 7
    decreases 7 - n
  {
    if n < |b| && n <= 6 && b[n] != ' ' then ModeLength(b, n + 1) else n
  }

  function ParseImage(b: string): Option<(Image, string)> {
    if |b| > 0 && b[0] == '-' then Some((ABSENT, b[1..]))
    else
      var m := ModeLength(b, 0);
      if !ModeFits(b[..m]) || m == |b| then None
      else
        var rest := b[m + 1..];
        if |rest| < 64 || !LowerHex(rest[..64]) || (|rest| > 64 && IsHexDigit(rest[64])) then None
        else
          var i := Image(b[..m], Unhex(rest[..64]));
          if i.mode == MODE_SYMLINK && i.sum == EMPTY_SUM then None
          else Some((i, rest[64..]))
  }

  /** What follows an image does not run on from it. */
  predicate Stops(rest: string) {
    rest == "" || !IsHexDigit(rest[0])
  }

  lemma {:induction false} ModeLengthOf(b: string, n: nat, m: nat)
    requires n <= m <= 6 && m < |b| && b[m] == ' '
    requires forall k :: n <= k < m ==> b[k] != ' '
    ensures ModeLength(b, n) == m
    decreases m - n
  {
    if n < m { ModeLengthOf(b, n + 1, m); }
  }

  lemma EmptyModeFits()
    ensures !ModeFits("")
  {
  }

  lemma ModeBytes(mode: string)
    requires ModeFits(mode)
    ensures |mode| == 6 && mode[0] != '-'
    ensures forall k :: 0 <= k < 6 ==> mode[k] != ' '
  {
  }

  lemma ImageReads(i: Image, rest: string)
    requires ImageFits(i) && Stops(rest)
    ensures ParseImage(ImageText(i) + rest) == Some((i, rest))
  {
    hide ModeFits, ModeLength, Hex, Unhex, ParseImage;
    var b := ImageText(i) + rest;
    if i.Absent() {
      EmptyModeFits();
      assert b == "-" + rest && b[1..] == rest;
      assert ParseImage(b) == Some((ABSENT, rest)) by { DashReads(b); }
    } else {
      ModeBytes(i.mode);
      var tail := Hex(i.sum) + rest;
      assert b == i.mode + (" " + tail);
      ModeThenHash(i, b, tail, rest);
    }
  }

  lemma DashReads(b: string)
    requires |b| > 0 && b[0] == '-'
    ensures ParseImage(b) == Some((ABSENT, b[1..]))
  {
  }

  lemma ModeThenHash(i: Image, b: string, tail: string, rest: string)
    requires ImageFits(i) && !i.Absent() && |i.mode| == 6 && i.mode[0] != '-' && Stops(rest)
    requires forall k :: 0 <= k < 6 ==> i.mode[k] != ' '
    requires b == i.mode + (" " + tail) && tail == Hex(i.sum) + rest
    ensures ParseImage(b) == Some((i, rest))
  {
    hide ModeFits, ModeLength, Hex, Unhex, ImageText;
    assert b[..6] == i.mode && b[6] == ' ' && b[7..] == tail;
    assert forall k :: 0 <= k < 6 ==> b[k] == i.mode[k];
    ModeLengthOf(b, 0, 6);
    assert tail[..64] == Hex(i.sum) && tail[64..] == rest;
    assert |tail| > 64 ==> tail[64] == rest[0];
    UnhexHex(i.sum);
  }

  lemma {:induction false} ModeStopsAtSpace(b: string, n: nat)
    requires n <= |b| && n <= 7 && ModeLength(b, n) <= 6
    ensures ModeLength(b, n) < |b| ==> b[ModeLength(b, n)] == ' '
    decreases 7 - n
  {
    if n < |b| && n <= 6 && b[n] != ' ' { ModeStopsAtSpace(b, n + 1); }
  }

  lemma ImageRead(b: string)
    requires ParseImage(b).Some?
    ensures ImageFits(ParseImage(b).value.0)
    ensures b == ImageText(ParseImage(b).value.0) + ParseImage(b).value.1
  {
    var (i, after) := ParseImage(b).value;
    if b[0] == '-' {
      assert b == "-" + b[1..];
    } else {
      var m := ModeLength(b, 0);
      assert |b[..m]| == 6;
      ModeStopsAtSpace(b, 0);
      HexUnhex(b[m + 1..][..64]);
      assert b == b[..m] + " " + b[m + 1..][..64] + b[m + 1..][64..];
    }
  }

  // Reading one line.

  function ParseLine(b: string): Option<(Change, string)> {
    var digits := DigitCount(b);
    if digits == 0 || digits > MAX_LEN_DIGITS || (b[0] == '0' && digits > 1) then None
    else if digits == |b| || b[digits] != ' ' then None
    else
      var n := Atoi(b[..digits]);
      var b1 := b[digits + 1..];
      if n > |b1| || !PathFits(b1[..n]) then None
      else
        var path, b2 := b1[..n], b1[n..];
        if b2 == "" || b2[0] != ' ' then None
        else
          match ParseImage(b2[1..])
          case None => None
          case Some((pre, b3)) =>
            if b3 == "" || b3[0] != ' ' then None
            else
              match ParseImage(b3[1..])
              case None => None
              case Some((post, b4)) =>
                if b4 == "" || b4[0] != '\n' || pre == post then None
                else Some((Change(path, pre, post), b4[1..]))
  }

  lemma LineReads(c: Change, rest: string)
    requires ChangeFits(c)
    ensures ParseLine(Line(c) + rest) == Some((c, rest))
  {
    hide PathFits, ImageFits, ParseImage, ImageText, Itoa, Atoi, Pow10;
    var size := Itoa(|c.path|);
    var b := Line(c) + rest;
    var b4 := "\n" + rest;
    var b3 := " " + (ImageText(c.post) + b4);
    var b2 := " " + (ImageText(c.pre) + b3);
    var b1 := c.path + b2;
    assert b == size + (" " + b1);
    ItoaCanonical(|c.path|);
    ItoaLength(|c.path|, MAX_LEN_DIGITS);
    AtoiItoa(|c.path|);
    DigitCountOf(size, " " + b1);
    assert b[..|size|] == size && b[|size|] == ' ' && b[|size| + 1..] == b1;
    assert b[0] == size[0];
    assert b1[..|c.path|] == c.path && b1[|c.path|..] == b2;
    assert b2[1..] == ImageText(c.pre) + b3;
    ImageReads(c.pre, b3);
    assert b3[1..] == ImageText(c.post) + b4;
    ImageReads(c.post, b4);
    assert b4[1..] == rest;
  }

  lemma Assemble(a: string, path: string, pre: string, post: string, rest: string)
    ensures a + " " + path + " " + pre + " " + post + "\n" + rest ==
            a + (" " + (path + (" " + (pre + (" " + (post + ("\n" + rest)))))))
  {
  }

  lemma LineRead(b: string)
    requires ParseLine(b).Some?
    ensures ChangeFits(ParseLine(b).value.0)
    ensures b == Line(ParseLine(b).value.0) + ParseLine(b).value.1
  {
    hide PathFits, ImageFits, ParseImage, ImageText, Itoa, Atoi, Pow10, DigitCount, Canonical, AllDigits;
    var digits := DigitCount(b);
    DigitsCounted(b);
    var size := b[..digits];
    var b1 := b[digits + 1..];
    var n := Atoi(size);
    var path, b2 := b1[..n], b1[n..];
    var (pre, b3) := ParseImage(b2[1..]).value;
    var (post, b4) := ParseImage(b3[1..]).value;
    ItoaAtoi(size);
    ItoaLength(n, MAX_LEN_DIGITS);
    ImageRead(b2[1..]);
    ImageRead(b3[1..]);
    Reassemble(b, digits, n, ImageText(pre), b3, ImageText(post), b4);
  }

  lemma DigitsCounted(b: string)
    ensures var digits := DigitCount(b);
            (digits == 0 || digits > MAX_LEN_DIGITS || (b[0] == '0' && digits > 1)) || Canonical(b[..digits])
  {
  }

  /** A line's bytes are its parts put back together. */
  lemma Reassemble(b: string, digits: nat, n: nat, pre: string, b3: string, post: string, b4: string)
    requires digits < |b| && b[digits] == ' ' && n < |b[digits + 1..]|
    requires b[digits + 1..][n] == ' ' && b[digits + 1..][n + 1..] == pre + b3
    requires b3 != "" && b3[0] == ' ' && b3[1..] == post + b4
    requires b4 != "" && b4[0] == '\n'
    ensures b == b[..digits] + " " + b[digits + 1..][..n] + " " + pre + " " + post + "\n" + b4[1..]
  {
    var b1 := b[digits + 1..];
    assert b4 == "\n" + b4[1..];
    assert b3 == " " + (post + b4);
    assert b1 == b1[..n] + (" " + (pre + b3));
    assert b == b[..digits] + (" " + b1);
    Assemble(b[..digits], b1[..n], pre, post, b4[1..]);
  }

  // Reading a whole encoding.

  /** Whether, on neither side, one entry is under another. */
  method CheckSides(d: Delta) returns (fits: bool)
    ensures fits <==> SidesFit(d)
  {
    hide Under, Entries, Clashes;
    var pre: set<string>, post: set<string> := {}, {};
    EntriesOfNone();
    for n := 0 to |d|
      invariant pre == Entries(d[..n], true) && post == Entries(d[..n], false)
    {
      EntriesOneMore(d, n);
      if !d[n].pre.Absent() { pre := pre + {d[n].path}; }
      if !d[n].post.Absent() { post := post + {d[n].path}; }
    }
    assert d[..|d|] == d;
    for n := 0 to |d|
      invariant forall j, dir :: 0 <= j < n && Under(d[j].path, dir) ==> !Clashes(d[j], dir, pre, post)
    {
      var clash := ClashAbove(d[n], pre, post);
      if clash.Some? {
        ClashRefutes(d, n, clash.value);
        return false;
      }
    }
    NoClash(d);
    return true;
  }

  /** The first directory above a path that is an entry on the path's own
      side, one slash at a time. */
  method ClashAbove(c: Change, pre: set<string>, post: set<string>) returns (clash: Option<string>)
    ensures clash.Some? ==> Under(c.path, clash.value) && Clashes(c, clash.value, pre, post)
    ensures clash.None? ==> forall dir :: Under(c.path, dir) ==> !Clashes(c, dir, pre, post)
  {
    hide Clashes, IndexOf, NextSlash;
    var i := IndexOf(c.path, '/');
    while i < |c.path|
      invariant i <= |c.path| && (i < |c.path| ==> c.path[i] == '/')
      invariant forall dir :: Under(c.path, dir) && |dir| < i ==> !Clashes(c, dir, pre, post)
      decreases |c.path| - i
    {
      var dir := c.path[..i];
      if Clashes(c, dir, pre, post) {
        return Some(dir);
      }
      i := NextSlash(c.path, i);
    }
    return None;
  }

  lemma EntriesOfNone()
    ensures Entries([], true) == {} && Entries([], false) == {}
  {
  }

  lemma EntriesOneMore(d: Delta, n: nat)
    requires n < |d|
    ensures Entries(d[..n + 1], true) == Entries(d[..n], true) + if d[n].pre.Absent() then {} else {d[n].path}
    ensures Entries(d[..n + 1], false) == Entries(d[..n], false) + if d[n].post.Absent() then {} else {d[n].path}
  {
    assert d[..n + 1] == d[..n] + [d[n]];
    assert forall c :: c in d[..n + 1] <==> c in d[..n] || c == d[n];
  }

  lemma NoClash(d: Delta)
    requires forall j, dir :: 0 <= j < |d| && Under(d[j].path, dir) ==> !Clashes(d[j], dir, Entries(d, true), Entries(d, false))
    ensures SidesFit(d)
  {
    hide Under;
    forall i, j | 0 <= i < |d| && 0 <= j < |d| && Under(d[j].path, d[i].path)
      ensures (d[i].pre.Absent() || d[j].pre.Absent()) && (d[i].post.Absent() || d[j].post.Absent())
    {
      assert !Clashes(d[j], d[i].path, Entries(d, true), Entries(d, false));
      assert d[i] in d;
    }
  }

  /** The paths with an entry on one side. */
  function Entries(d: Delta, pre: bool): set<string> {
    set c | c in d && !(if pre then c.pre else c.post).Absent() :: c.path
  }

  predicate Clashes(c: Change, dir: string, pre: set<string>, post: set<string>) {
    (!c.pre.Absent() && dir in pre) || (!c.post.Absent() && dir in post)
  }

  lemma ClashRefutes(d: Delta, n: nat, dir: string)
    requires n < |d| && Under(d[n].path, dir) && Clashes(d[n], dir, Entries(d, true), Entries(d, false))
    ensures !SidesFit(d)
  {
    if !d[n].pre.Absent() && dir in Entries(d, true) {
      var c :| c in d && !c.pre.Absent() && c.path == dir;
      var i :| 0 <= i < |d| && d[i] == c;
      assert Under(d[n].path, d[i].path);
    } else {
      var c :| c in d && !c.post.Absent() && c.path == dir;
      var i :| 0 <= i < |d| && d[i] == c;
      assert Under(d[n].path, d[i].path);
    }
  }

  /** The place of the next slash after one, or the path's end. */
  function NextSlash(p: string, i: nat): (j: nat)
    requires i < |p|
    ensures i < j <= |p| && (j < |p| ==> p[j] == '/')
    ensures forall k :: i < k < j ==> p[k] != '/'
  {
    var j := i + 1 + IndexOf(p[i + 1..], '/');
    assert forall k :: i < k < j ==> p[k] == p[i + 1..][k - i - 1];
    j
  }

  /** An encoding of a well-formed delta opens with the lines read so far. */
  lemma ReadsOn(d: Delta, whole: Delta, rest: string)
    requires Lines(whole) == Lines(d) + rest
    requires d <= whole && forall c :: c in whole ==> ChangeFits(c)
    ensures rest == Lines(whole[|d|..])
    ensures rest == "" <==> d == whole
    ensures rest != "" ==> ParseLine(rest) == Some((whole[|d|], Lines(whole[|d| + 1..])))
  {
    hide ChangeFits, ParseLine, Line;
    LinesSplit(whole, |d|);
    assert whole[..|d|] == d;
    var tail := whole[|d|..];
    assert rest == Lines(whole)[|Lines(d)|..] == Lines(tail);
    if tail != [] {
      assert tail[1..] == whole[|d| + 1..] && tail[0] == whole[|d|];
      LineReads(tail[0], Lines(tail[1..]));
      LineNotEmpty(tail[0]);
    }
  }

  lemma LineNotEmpty(c: Change)
    ensures |Line(c)| > 0
  {
  }

  lemma {:induction false} LinesSplit(d: Delta, n: nat)
    requires n <= |d|
    ensures Lines(d) == Lines(d[..n]) + Lines(d[n..])
  {
    if n > 0 {
      LinesSplit(d[1..], n - 1);
      assert d[1..][..n - 1] == d[..n][1..] && d[1..][n - 1..] == d[n..];
    }
  }

  /** Inverts the encoding: a well-formed delta from its text, and None from any text
      that is none's. */
  method Parse(data: string) returns (r: Option<Delta>)
    ensures r.Some? ==> WellFormed(r.value) && Text(r.value) == data
    ensures r.None? ==> forall d: Delta :: WellFormed(d) ==> Text(d) != data
  {
    hide ChangeFits, Line, ParseLine, Lines, SidesFit, Less;
    if !(HEADER <= data) {
      return None;
    }
    var rest := data[|HEADER|..];
    var d: Delta := [];
    LinesOfNone();
    while rest != ""
      invariant data == Text(d) + rest
      invariant (forall c :: c in d ==> ChangeFits(c)) && PathsSorted(d)
      invariant forall w: Delta :: WellFormed(w) && Text(w) == data ==> d <= w
      decreases |rest|
    {
      var line := ParseLine(rest);
      ghost var before := (d, rest);
      forall w: Delta | WellFormed(w) && Text(w) == data
        ensures line.Some? && d + [line.value.0] <= w
      {
        assert Lines(w) == Lines(d) + rest;
        ReadsOn(d, w, rest);
        assert w[..|d| + 1] == d + [w[|d|]];
      }
      if line.None? {
        return None;
      }
      LineRead(rest);
      var c, after := line.value.0, line.value.1;
      if d != [] && !Less(d[|d| - 1].path, c.path) {
        forall w: Delta | WellFormed(w) && Text(w) == data ensures Less(d[|d| - 1].path, c.path) {
          NextInOrder(d, c, w);
        }
        return None;
      }
      LinesAppend(d, c);
      LineNotEmpty(c);
      SortedAppend(d, c);
      d := d + [c];
      rest := after;
      assert data == Text(d) + rest;
    }
    assert data == Text(d);
    forall w: Delta | WellFormed(w) && Text(w) == data ensures w == d {
      ReadsOn(d, w, "");
    }
    var fits := CheckSides(d);
    if !fits { return None; }
    return Some(d);
  }

  lemma NextInOrder(d: Delta, c: Change, w: Delta)
    requires PathsSorted(w) && d != [] && d + [c] <= w
    ensures Less(d[|d| - 1].path, c.path)
  {
    hide Less;
    assert w[|d| - 1] == (d + [c])[|d| - 1] && w[|d|] == (d + [c])[|d|];
  }

  lemma LinesOfNone()
    ensures Lines([]) == ""
  {
  }

  lemma SortedAppend(d: Delta, c: Change)
    requires PathsSorted(d) && (d != [] ==> Less(d[|d| - 1].path, c.path))
    ensures PathsSorted(d + [c])
  {
    hide Less;
    forall i | 0 <= i < |d| ensures Less(d[i].path, c.path) {
      if i < |d| - 1 { LessTransitive(d[i].path, d[|d| - 1].path, c.path); }
    }
  }

  /** One encoding says one delta. */
  lemma EncodeInjective(a: Delta, b: Delta)
    requires WellFormed(a) && WellFormed(b) && Text(a) == Text(b)
    ensures a == b
  {
    hide ChangeFits, SidesFit, PathsSorted, Line;
    assert Lines(a) == Text(a)[|HEADER|..] && Lines(b) == Text(b)[|HEADER|..];
    SameLines(a, b);
  }

  lemma {:induction false} SameLines(a: Delta, b: Delta)
    requires (forall c :: c in a ==> ChangeFits(c)) && (forall c :: c in b ==> ChangeFits(c))
    requires Lines(a) == Lines(b)
    ensures a == b
  {
    hide ChangeFits, Line, ParseLine;
    if a != [] { LineNotEmpty(a[0]); LineReads(a[0], Lines(a[1..])); }
    if b != [] { LineNotEmpty(b[0]); LineReads(b[0], Lines(b[1..])); }
    if a != [] && b != [] {
      SameLines(a[1..], b[1..]);
      assert a == [a[0]] + a[1..] && b == [b[0]] + b[1..];
    }
  }
}
