/** Which texts NormalBody (knot/canon.go) leaves settled: those it would not
    change a second time, told from the lines of the text itself. */
module KnotBodyTwice {
  import opened Strings
  import opened KnotText
  import opened KnotBody
  import Utf8

  predicate EndsInReturn(line: string) {
    line != "" && line[|line| - 1] == '\r'
  }

  /** A line as it stands once \r\n is \n: the newline after it takes one
      carriage return with it. */
  function Chomped(line: string): string {
    if EndsInReturn(line) then line[..|line| - 1] else line
  }

  /** Every line but the last, which no newline follows, chomped. */
  function UnixLines(lines: seq<string>): (r: seq<string>)
    ensures |r| == |lines|
  {
    if |lines| <= 1 then lines else [Chomped(lines[0])] + UnixLines(lines[1..])
  }

  /** Replacing \r\n chomps the lines. */
  lemma {:induction false} UnixSplits(text: string)
    ensures Split(Unix(text), '\n') == UnixLines(Split(text, '\n'))
    decreases |text|
  {
    hide UnixLines;
    if text == "" {
      OneLineIsLast([""]);
    } else if OpensCrlf(text) {
      UnixSplits(text[2..]);
      var more := Split(text[2..], '\n');
      assert text[1..][1..] == text[2..] && text[1..][0] == '\n';
      assert Split(text[1..], '\n') == [""] + more;
      assert ([""] + more)[1..] == more && ['\r'] + "" == "\r";
      FirstLine("\r", more);
      assert ("\n" + Unix(text[2..]))[1..] == Unix(text[2..]);
    } else {
      UnixSplits(text[1..]);
      var more := Split(text[1..], '\n');
      assert ([text[0]] + Unix(text[1..]))[1..] == Unix(text[1..]);
      if text[0] == '\n' {
        FirstLine("", more);
      } else {
        LinesOpen(text[1..]);
        assert [more[0]] + more[1..] == more;
        LongerFirst(text[0], more[0], more[1..]);
      }
    }
  }

  lemma OneLineIsLast(lines: seq<string>)
    requires |lines| == 1
    ensures UnixLines(lines) == lines
  {
  }

  lemma FirstLine(line: string, more: seq<string>)
    requires more != []
    ensures UnixLines([line] + more) == [Chomped(line)] + UnixLines(more)
  {
    assert ([line] + more)[1..] == more;
  }

  /** A text of more lines than one whose first is empty opens with a newline. */
  lemma LinesOpen(s: string)
    ensures var lines := Split(s, '\n'); |lines| > 1 && lines[0] == "" ==> s != "" && s[0] == '\n'
  {
  }

  lemma LongerFirst(c: char, first: string, more: seq<string>)
    requires more != [] && first == "" ==> c != '\r'
    ensures var r := UnixLines([first] + more);
            UnixLines([[c] + first] + more) == [[c] + r[0]] + r[1..]
  {
    hide UnixLines, Chomped;
    if more == [] {
      assert [first] + more == [first] && [[c] + first] + more == [[c] + first];
      OneLineIsLast([first]);
      OneLineIsLast([[c] + first]);
    } else {
      FirstLine([c] + first, more);
      FirstLine(first, more);
      LongerChomped(c, first);
      TailOf(Chomped(first), UnixLines(more));
    }
  }

  lemma TailOf(line: string, more: seq<string>)
    ensures ([line] + more)[0] == line && ([line] + more)[1..] == more
  {
  }

  lemma LongerChomped(c: char, line: string)
    requires line == "" ==> c != '\r'
    ensures Chomped([c] + line) == [c] + Chomped(line)
  {
  }

  lemma {:induction false} UnixLineAt(lines: seq<string>, i: nat)
    requires i < |lines|
    ensures UnixLines(lines)[i] == if i == |lines| - 1 then lines[i] else Chomped(lines[i])
  {
    if |lines| > 1 && i > 0 { UnixLineAt(lines[1..], i - 1); }
  }

  // A carriage return at a line's end is white space.

  lemma {:induction false} SpacesTrim(s: string)
    ensures IsBlankLine(s) <==> IsSpaces(s)
    decreases |s|
  {
    hide SpaceLength, Utf8.RuneLength;
    if SpaceLength(s) > 0 {
      SpacesTrim(s[SpaceLength(s)..]);
    } else if s == "" {
      NothingToTrim();
    } else {
      NoSpaceInNothing();
    }
  }

  lemma NoSpaceInNothing()
    ensures SpaceLength("") == 0
  {
  }

  lemma SpaceBefore(s: string)
    requires s != ""
    ensures SpaceLength(s + "\r") == SpaceLength(s)
  {
  }

  lemma {:induction false} ReturnIsSpace(s: string)
    ensures IsSpaces(s + "\r") <==> IsSpaces(s)
    decreases |s|
  {
    hide SpaceLength;
    if s == "" {
      OneReturn();
      assert s + "\r" == "\r";
    } else {
      var n := SpaceLength(s);
      SpaceBefore(s);
      if n > 0 {
        ReturnIsSpace(s[n..]);
        assert (s + "\r")[n..] == s[n..] + "\r";
      }
    }
  }

  lemma OneReturn()
    ensures IsSpaces("\r")
  {
    assert "\r"[1..] == "";
  }

  lemma ChompedIsBlank(line: string)
    ensures IsBlankLine(Chomped(line)) <==> IsBlankLine(line)
  {
    hide IsBlankLine, IsSpaces;
    SpacesTrim(line);
    SpacesTrim(Chomped(line));
    if EndsInReturn(line) {
      ReturnIsSpace(Chomped(line));
      assert Chomped(line) + "\r" == line;
    }
  }

  // The lines kept.

  /** A line that is kept: not blank, or between two that are not. */
  ghost predicate IsKept(lines: seq<string>, i: nat) {
    exists a: nat, b: nat :: a <= i <= b < |lines| && !IsBlankLine(lines[a]) && !IsBlankLine(lines[b])
  }

  lemma {:induction false} FrontWasBlank(lines: seq<string>)
    ensures forall i :: 0 <= i < |lines| - |DropFront(lines)| ==> IsBlankLine(lines[i])
  {
    hide IsBlankLine;
    if lines != [] && IsBlankLine(lines[0]) {
      FrontWasBlank(lines[1..]);
      assert forall i :: 1 <= i < |lines| ==> lines[i] == lines[1..][i - 1];
    }
  }

  lemma {:induction false} BackWasBlank(lines: seq<string>)
    ensures forall i :: |DropBack(lines)| <= i < |lines| ==> IsBlankLine(lines[i])
  {
    hide IsBlankLine;
    if lines != [] && IsBlankLine(lines[|lines| - 1]) {
      BackWasBlank(lines[..|lines| - 1]);
      assert forall i :: 0 <= i < |lines| - 1 ==> lines[i] == lines[..|lines| - 1][i];
    }
  }

  /** Dropping the blank lines at both ends leaves exactly the lines kept. */
  lemma DroppedAreKept(lines: seq<string>)
    ensures forall line :: line in DropBack(DropFront(lines)) <==> exists i: nat :: i < |lines| && IsKept(lines, i) && lines[i] == line
  {
    hide IsBlankLine, DropFront, DropBack;
    var front := DropFront(lines);
    var kept := DropBack(front);
    FrontDropped(lines);
    BackDropped(front);
    FrontWasBlank(lines);
    BackWasBlank(front);
    var a := |lines| - |front|;
    assert forall i :: 0 <= i < |kept| ==> kept[i] == lines[a + i];
    forall line ensures line in kept <==> exists i: nat :: i < |lines| && IsKept(lines, i) && lines[i] == line {
      if line in kept {
        var i :| 0 <= i < |kept| && kept[i] == line;
        assert lines[a] == kept[0] == front[0] && lines[a + |kept| - 1] == kept[|kept| - 1];
        assert IsKept(lines, a + i);
      }
      if i: nat :| i < |lines| && IsKept(lines, i) && lines[i] == line {
        InsideKept(lines, a, |kept|, i);
        assert kept[i - a] == line;
      }
    }
  }

  lemma InsideKept(lines: seq<string>, a: nat, n: nat, i: nat)
    requires a + n <= |lines| && IsKept(lines, i)
    requires forall j :: 0 <= j < a || a + n <= j < |lines| ==> IsBlankLine(lines[j])
    ensures a <= i < a + n
  {
    hide IsBlankLine;
  }

  // When the body written holds a carriage return before a newline.

  lemma {:induction false} CrlfAfterLine(line: string, rest: string)
    requires '\n' !in line
    ensures HoldsCrlf(line + "\n" + rest) <==> EndsInReturn(line) || HoldsCrlf(rest)
  {
    var s := line + "\n" + rest;
    if line == "" {
      assert s == "\n" + rest && s[1..] == rest;
    } else {
      CrlfAfterLine(line[1..], rest);
      assert s[1..] == line[1..] + "\n" + rest;
      assert s[0] == line[0] && s[1] == (if |line| > 1 then line[1] else '\n');
    }
  }

  lemma {:induction false} CrlfInBody(lines: seq<string>)
    requires forall line :: line in lines ==> '\n' !in line
    ensures HoldsCrlf(BodyOf(lines)) <==> exists line :: line in lines && EndsInReturn(line)
  {
    hide HoldsCrlf, EndsInReturn;
    if lines == [] {
      NoCrlf();
    } else {
      var line, more := lines[0], lines[1..];
      CrlfInBody(more);
      CrlfAfterLine(line, BodyOf(more));
      assert BodyOf(lines) == line + "\n" + BodyOf(more) by { BodyOpens(lines); }
      assert forall l :: l in lines <==> l == line || l in more;
    }
  }

  lemma BodyOpens(lines: seq<string>)
    requires lines != []
    ensures BodyOf(lines) == lines[0] + "\n" + BodyOf(lines[1..])
  {
    if |lines| > 1 {
      assert lines[0] + "\n" + (Join(lines[1..], '\n') + "\n") == (lines[0] + "\n" + Join(lines[1..], '\n')) + "\n";
    }
  }

  // The condition, on the text.

  /** A line whose carriage return outlives \r\n becoming \n: two at its end,
      or one at the end of the last line, which no newline follows. */
  predicate KeepsReturn(lines: seq<string>, i: nat)
    requires i < |lines|
  {
    if i == |lines| - 1 then EndsInReturn(lines[i]) else EndsInReturn(lines[i]) && EndsInReturn(lines[i][..|lines[i]| - 1])
  }

  /** No line of a text that NormalBody keeps ends in a carriage return that
      outlives \r\n becoming \n. */
  ghost predicate Settles(text: string) {
    var lines := Split(text, '\n');
    forall i: nat :: IsKept(lines, i) ==> i < |lines| && !KeepsReturn(lines, i)
  }

  lemma SameKept(lines: seq<string>, i: nat)
    ensures IsKept(UnixLines(lines), i) <==> IsKept(lines, i)
    ensures i < |lines| ==> (EndsInReturn(UnixLines(lines)[i]) <==> KeepsReturn(lines, i))
  {
    hide IsBlankLine, UnixLines;
    forall j: nat | j < |lines| ensures IsBlankLine(UnixLines(lines)[j]) <==> IsBlankLine(lines[j]) {
      UnixLineAt(lines, j);
      ChompedIsBlank(lines[j]);
    }
    if i < |lines| { UnixLineAt(lines, i); }
  }

  lemma CrlfExactly(text: string)
    ensures HoldsCrlf(NormalBody(text)) <==> !Settles(text)
  {
    hide Split, IsKept, KeepsReturn, EndsInReturn, HoldsCrlf, UnixLines, Unix, DropFront, DropBack, BodyOf;
    var raw := Split(text, '\n');
    var lines := Split(Unix(text), '\n');
    var kept := DropBack(DropFront(lines));
    UnixSplits(text);
    DroppedAreKept(lines);
    forall line | line in kept ensures '\n' !in line {
      var i: nat :| i < |lines| && IsKept(lines, i) && lines[i] == line;
    }
    CrlfInBody(kept);
    if !Settles(text) {
      var i: nat :| IsKept(raw, i) && !(i < |raw| && !KeepsReturn(raw, i));
      KeptIsALine(raw, i);
      SameKept(raw, i);
      assert lines[i] in kept;
    }
    if line :| line in kept && EndsInReturn(line) {
      var i: nat :| i < |lines| && IsKept(lines, i) && lines[i] == line;
      SameKept(raw, i);
    }
  }

  lemma KeptIsALine(lines: seq<string>, i: nat)
    requires IsKept(lines, i)
    ensures i < |lines|
  {
    hide IsBlankLine;
  }

  /** NormalBody changes nothing the second time exactly when no line it keeps
      ends in two carriage returns, and none in one where no newline follows. */
  lemma SettledExactly(text: string)
    ensures NormalBody(NormalBody(text)) == NormalBody(text) <==> Settles(text)
    ensures IsNormal(NormalBody(text)) <==> Settles(text)
  {
    hide NormalBody, IsNormal, Settles, HoldsCrlf;
    CrlfExactly(text);
    WrittenIsNormal(text);
    NormalExactly(NormalBody(text));
  }

  /** A lone carriage return at the end of a text is one before a newline once
      NormalBody has written it. */
  lemma LoneReturnDiffers()
    ensures NormalBody("a\r") == "a\r\n" && NormalBody("a\r\n") == "a\n"
  {
    hide Trim, Split, Join, DropFront, DropBack, Unix;
    LoneReturn();
    UnixTwice();
    assert "a" + "" == "a" && "a" + "\n" == "a\n";
    OneLine("a", "");
  }

  lemma LoneReturn()
    ensures NormalBody("a\r") == "a\r\n"
  {
    hide Split, Join, IsBlankLine;
    assert "a\r"[1..] == "\r" && "\r"[1..] == "";
    assert Unix("\r") == "\r" && Unix("a\r") == "a\r";
    SplitHead("a\r", "", '\n');
    JoinSplit("a\r", '\n');
    LetterIsNoBlank();
  }

  lemma LetterIsNoBlank()
    ensures !IsBlankLine("a\r")
  {
    SpacesTrim("a\r");
  }
}
