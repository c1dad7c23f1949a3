/** A knot's body as NormalBody (knot/canon.go) writes it, and exactly which
    bodies it leaves as they are. */
module KnotBody {
  import opened Strings
  import opened KnotText

  predicate OpensCrlf(s: string) {
    |s| >= 2 && s[0] == '\r' && s[1] == '\n'
  }

  predicate HoldsCrlf(s: string) {
    s != "" && (OpensCrlf(s) || HoldsCrlf(s[1..]))
  }

  /** strings.ReplaceAll of \r\n by \n. */
  function Unix(s: string): string {
    if s == "" then ""
    else if OpensCrlf(s) then "\n" + Unix(s[2..])
    else [s[0]] + Unix(s[1..])
  }

  predicate IsBlankLine(line: string) {
    Trim(line) == ""
  }

  function DropFront(lines: seq<string>): (r: seq<string>)
    ensures |r| <= |lines|
  {
    if lines == [] || !IsBlankLine(lines[0]) then lines else DropFront(lines[1..])
  }

  function DropBack(lines: seq<string>): (r: seq<string>)
    ensures |r| <= |lines|
  {
    if lines == [] || !IsBlankLine(lines[|lines| - 1]) then lines else DropBack(lines[..|lines| - 1])
  }

  function BodyOf(lines: seq<string>): string {
    if lines == [] then "" else Join(lines, '\n') + "\n"
  }

  function NormalBody(text: string): string {
    BodyOf(DropBack(DropFront(Split(Unix(text), '\n'))))
  }

  /** NormalBody as it drops its lines one at a time. */
  method Normalize(text: string) returns (body: string)
    ensures body == NormalBody(text)
  {
    hide Trim, Split, Join, Unix;
    var lines := Split(Unix(text), '\n');
    ghost var front := DropFront(lines);
    while |lines| > 0 && Trim(lines[0]) == ""
      invariant DropFront(lines) == front
    {
      lines := lines[1..];
    }
    while |lines| > 0 && Trim(lines[|lines| - 1]) == ""
      invariant DropBack(lines) == DropBack(front)
    {
      lines := lines[..|lines| - 1];
    }
    body := if |lines| == 0 then "" else Join(lines, '\n') + "\n";
  }

  /** A body as a knot holds it: nothing, or lines that open and end with one
      that is not blank, each with its newline and no carriage return before
      it. */
  ghost predicate IsNormal(body: string) {
    || body == ""
    || (&& body[|body| - 1] == '\n' && !HoldsCrlf(body)
        && var lines := Split(body[..|body| - 1], '\n');
           !IsBlankLine(lines[0]) && !IsBlankLine(lines[|lines| - 1]))
  }

  lemma {:induction false} UnixShortens(s: string)
    ensures |Unix(s)| <= |s|
    ensures !HoldsCrlf(s) ==> Unix(s) == s
    ensures HoldsCrlf(s) ==> |Unix(s)| < |s|
    ensures s != "" && s[|s| - 1] == '\n' ==> Unix(s) != "" && Unix(s)[|Unix(s)| - 1] == '\n'
  {
    if s != "" {
      if OpensCrlf(s) {
        UnixShortens(s[2..]);
      } else {
        UnixShortens(s[1..]);
        assert s == [s[0]] + s[1..];
      }
    }
  }

  lemma {:induction false} FrontDropped(lines: seq<string>)
    ensures var r := DropFront(lines);
            r == lines[|lines| - |r|..] && (r == [] || !IsBlankLine(r[0]))
  {
    hide IsBlankLine;
    if lines != [] && IsBlankLine(lines[0]) { FrontDropped(lines[1..]); }
  }

  lemma {:induction false} BackDropped(lines: seq<string>)
    ensures var r := DropBack(lines);
            r == lines[..|r|] && (r == [] || !IsBlankLine(r[|r| - 1]))
  {
    hide IsBlankLine;
    if lines != [] && IsBlankLine(lines[|lines| - 1]) { BackDropped(lines[..|lines| - 1]); }
  }

  lemma {:induction false} SplitEndsEmpty(b: string)
    ensures Split(b + "\n", '\n') == Split(b, '\n') + [""]
  {
    if b == "" {
      assert "\n"[1..] == "" && b + "\n" == "\n";
    } else {
      SplitEndsEmpty(b[1..]);
      assert (b + "\n")[1..] == b[1..] + "\n";
    }
  }

  lemma {:induction false} JoinDrops(lines: seq<string>, i: nat)
    requires i <= |lines|
    ensures |Join(lines[i..], '\n')| <= |Join(lines, '\n')|
    ensures |Join(lines[..i], '\n')| <= |Join(lines, '\n')|
    ensures 0 < i < |lines| ==> |Join(lines[..i], '\n')| < |Join(lines, '\n')|
  {
    if i == 0 {
      assert lines[0..] == lines;
    } else if i == |lines| {
      assert lines[..i] == lines;
    } else {
      JoinDrops(lines[1..], i - 1);
      assert lines[1..][i - 1..] == lines[i..];
      assert lines[..i][1..] == lines[1..][..i - 1];
    }
  }

  lemma EmptyIsBlank()
    ensures IsBlankLine("")
  {
  }

  lemma NormalIsKept(body: string)
    requires IsNormal(body)
    ensures NormalBody(body) == body
  {
    hide Split, Join, IsBlankLine, Unix;
    EmptyIsBlank();
    UnixShortens(body);
    if body == "" {
      NoCrlf();
      SplitHead("", "", '\n');
      assert [""][1..] == [];
      assert DropFront([""]) == [];
    } else {
      var b := body[..|body| - 1];
      var lines := Split(b, '\n');
      assert body == b + "\n";
      SplitEndsEmpty(b);
      assert (lines + [""])[..|lines|] == lines;
      JoinSplit(b, '\n');
      assert DropFront(lines + [""]) == lines + [""];
      assert DropBack(lines + [""]) == DropBack(lines);
      assert DropBack(lines) == lines;
    }
  }

  lemma KeptIsNormal(body: string)
    requires NormalBody(body) == body
    ensures IsNormal(body)
  {
    hide Split, Join, IsBlankLine, Unix, HoldsCrlf;
    var all := Split(Unix(body), '\n');
    var front := DropFront(all);
    var lines := DropBack(front);
    FrontDropped(all);
    BackDropped(front);
    if body != "" {
      var b := body[..|body| - 1];
      assert b == Join(lines, '\n');
      SplitJoin(lines, '\n');
      UnixShortens(body);
      KeptIsShorter(Unix(body), front, lines);
      assert lines[0] == front[0];
    }
  }

  /** Text that ends in a newline is longer than its lines, less the blank one
      after it. */
  lemma KeptIsShorter(text: string, front: seq<string>, lines: seq<string>)
    requires text != "" && text[|text| - 1] == '\n'
    requires front == DropFront(Split(text, '\n')) && lines == DropBack(front) && lines != []
    ensures |BodyOf(lines)| <= |text|
  {
    hide Split, Join, DropFront, DropBack;
    var all := Split(text, '\n');
    FrontDropped(all);
    BackDropped(front);
    SplitEndsEmpty(text[..|text| - 1]);
    assert text == text[..|text| - 1] + "\n";
    EmptyIsBlank();
    JoinSplit(text, '\n');
    JoinDrops(all, |all| - |front|);
    assert front[|front| - 1] == "";
    JoinDrops(front, |lines|);
  }

  /** NormalBody leaves exactly the bodies in normal form as they are. */
  lemma NormalExactly(body: string)
    ensures NormalBody(body) == body <==> IsNormal(body)
  {
    hide NormalBody, IsNormal;
    if IsNormal(body) { NormalIsKept(body); }
    if NormalBody(body) == body { KeptIsNormal(body); }
  }

  /** What NormalBody writes is in normal form exactly when it leaves no
      carriage return before a newline. */
  lemma WrittenIsNormal(text: string)
    ensures IsNormal(NormalBody(text)) <==> !HoldsCrlf(NormalBody(text))
  {
    hide Split, Join, IsBlankLine, Unix, HoldsCrlf;
    var front := DropFront(Split(Unix(text), '\n'));
    var lines := DropBack(front);
    var body := BodyOf(lines);
    FrontDropped(Split(Unix(text), '\n'));
    BackDropped(front);
    if body != "" {
      assert body[..|body| - 1] == Join(lines, '\n');
      SplitJoin(lines, '\n');
      assert lines[0] == front[0];
    }
    NoCrlf();
  }

  lemma NoCrlf()
    ensures !HoldsCrlf("")
  {
  }

  /** It can leave one: \r\r\n becomes \r\n, which it would change again. */
  lemma NormalizingTwiceDiffers()
    ensures NormalBody("a\r\r\n") == "a\r\n" && NormalBody("a\r\n") == "a\n"
  {
    hide Trim, Split, Join, DropFront, DropBack, Unix;
    UnixTwice();
    assert "a" + "\r" == "a\r" && "a\r" + "\n" == "a\r\n" && "a" + "" == "a" && "a" + "\n" == "a\n";
    OneLine("a\r", "\r");
    OneLine("a", "");
  }

  lemma UnixTwice()
    ensures Unix("a\r\r\n") == "a\r\n" && Unix("a\r\n") == "a\n"
  {
    assert "\r\n"[2..] == "" && Unix("\r\n") == "\n";
    assert "\r\r\n"[1..] == "\r\n" && Unix("\r\r\n") == "\r\n";
    assert "a\r\r\n"[1..] == "\r\r\n" && "a\r\n"[1..] == "\r\n";
  }

  lemma OneLine(line: string, more: string)
    requires line == "a" + more && '\n' !in line && (more == "" || more == "\r")
    ensures BodyOf(DropBack(DropFront(Split(line + "\n", '\n')))) == line + "\n"
  {
    hide Split, Join;
    SplitHead(line, "", '\n');
    assert line + "\n" + "" == line + "\n";
    SplitHead("", "", '\n');
    SplitEndsEmpty(line);
    EmptyIsBlank();
    assert !IsBlankLine(line);
    assert [line, ""][..1] == [line];
    JoinSplit(line, '\n');
  }
}
