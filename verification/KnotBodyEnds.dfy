/** For which texts NormalBody (knot/canon.go) keeps all it is documented to: no
    blank line at either end, one newline after the last line, and no white
    space before that newline. */
module KnotBodyEnds {
  import opened Strings
  import opened KnotText
  import opened KnotBody
  import opened KnotBodyTwice

  /** Some whole white space character ends the string. */
  ghost predicate EndsInSpace(s: string) {
    exists k: nat :: SpaceFrom(s, k)
  }

  predicate SpaceFrom(s: string, k: nat) {
    k < |s| && SpaceLength(s[k..]) == |s| - k
  }

  ghost predicate IsAsPromised(body: string) {
    || body == ""
    || (&& body[|body| - 1] == '\n' && !EndsInSpace(body[..|body| - 1])
        && var lines := Split(body[..|body| - 1], '\n');
           !IsBlankLine(lines[0]) && !IsBlankLine(lines[|lines| - 1]))
  }

  // The condition, on the text.

  /** The last line of a text that is not blank. */
  predicate IsLastLine(lines: seq<string>, i: nat) {
    i < |lines| && !IsBlankLine(lines[i]) && forall j :: i < j < |lines| ==> IsBlankLine(lines[j])
  }

  /** A line less the carriage return that a newline after it takes. */
  function AsKept(lines: seq<string>, i: nat): string
    requires i < |lines|
  {
    if i == |lines| - 1 then lines[i] else Chomped(lines[i])
  }

  ghost predicate LastLineTrails(text: string) {
    var lines := Split(text, '\n');
    exists i: nat :: IsLastLine(lines, i) && EndsInSpace(AsKept(lines, i))
  }

  // The white space at the end is the last line's.

  /** White space of more than one byte holds no newline. */
  lemma SpaceHoldsNoNewline(s: string, i: nat)
    requires SpaceLength(s) == |s| && i < |s| && s[i] == '\n'
    ensures |s| == 1
  {
  }

  lemma EndsLikeLastLine(front: string, line: string)
    requires line != ""
    ensures EndsInSpace(front + "\n" + line) <==> EndsInSpace(line)
  {
    hide SpaceLength;
    var s, n := front + "\n" + line, |front| + 1;
    if k: nat :| SpaceFrom(s, k) {
      if k < n {
        SpaceHoldsNoNewline(s[k..], |front| - k);
      } else {
        assert s[k..] == line[k - n..];
        assert SpaceFrom(line, k - n);
      }
    }
    if k: nat :| SpaceFrom(line, k) {
      assert s[n + k..] == line[k..];
      assert SpaceFrom(s, n + k);
    }
  }

  lemma JoinedEnds(lines: seq<string>)
    requires lines != [] && lines[|lines| - 1] != ""
    ensures EndsInSpace(Join(lines, '\n')) <==> EndsInSpace(lines[|lines| - 1])
  {
    hide EndsInSpace, Join;
    var front, last := lines[..|lines| - 1], lines[|lines| - 1];
    assert lines == front + [last];
    JoinOneMore(front, last, '\n');
    if front != [] { EndsLikeLastLine(Join(front, '\n'), last); }
  }

  /** Of the lines kept, the last is the last that is not blank. */
  lemma LastKept(lines: seq<string>)
    ensures var kept := DropBack(DropFront(lines));
            if kept == [] then forall i: nat :: !IsLastLine(lines, i)
            else exists i: nat :: i < |lines| && IsLastLine(lines, i) && lines[i] == kept[|kept| - 1]
  {
    hide IsBlankLine, DropFront, DropBack;
    var front := DropFront(lines);
    var kept := DropBack(front);
    FrontDropped(lines);
    BackDropped(front);
    FrontWasBlank(lines);
    BackWasBlank(front);
    var a := |lines| - |front|;
    assert forall j :: a <= j < |lines| ==> lines[j] == front[j - a];
    if kept != [] {
      assert IsLastLine(lines, a + |kept| - 1);
    }
  }

  lemma OneLastLine(lines: seq<string>, i: nat, j: nat)
    requires IsLastLine(lines, i) && IsLastLine(lines, j)
    ensures i == j
  {
    hide IsBlankLine;
  }

  lemma SameLastLine(lines: seq<string>, i: nat)
    ensures IsLastLine(UnixLines(lines), i) <==> IsLastLine(lines, i)
    ensures i < |lines| ==> UnixLines(lines)[i] == AsKept(lines, i)
  {
    hide IsBlankLine, UnixLines, Chomped;
    forall j: nat | j < |lines|
      ensures UnixLines(lines)[j] == AsKept(lines, j) && (IsBlankLine(UnixLines(lines)[j]) <==> IsBlankLine(lines[j]))
    {
      UnixLineAt(lines, j);
      ChompedIsBlank(lines[j]);
    }
  }

  /** What NormalBody writes has no blank line at either end, and a newline after
      the last. */
  lemma WrittenEnds(text: string)
    ensures var body, lines := NormalBody(text), DropBack(DropFront(Split(Unix(text), '\n')));
            if lines == [] then body == ""
            else
              && body == Join(lines, '\n') + "\n" && Split(body[..|body| - 1], '\n') == lines
              && body[..|body| - 1] == Join(lines, '\n')
              && !IsBlankLine(lines[0]) && !IsBlankLine(lines[|lines| - 1])
  {
    hide Split, Join, IsBlankLine, Unix, DropFront, DropBack;
    var front := DropFront(Split(Unix(text), '\n'));
    var lines := DropBack(front);
    FrontDropped(Split(Unix(text), '\n'));
    BackDropped(front);
    if lines != [] {
      assert BodyOf(lines)[..|BodyOf(lines)| - 1] == Join(lines, '\n');
      SplitJoin(lines, '\n');
      assert lines[0] == front[0];
    }
  }

  lemma TrailsLikeText(text: string, kept: seq<string>)
    requires kept == DropBack(DropFront(Split(Unix(text), '\n')))
    ensures LastLineTrails(text) <==> kept != [] && EndsInSpace(kept[|kept| - 1])
  {
    hide Split, IsLastLine, AsKept, EndsInSpace, UnixLines, Unix, DropFront, DropBack;
    var raw, lines := Split(text, '\n'), Split(Unix(text), '\n');
    UnixSplits(text);
    LastKept(lines);
    if kept != [] {
      var i: nat :| i < |lines| && IsLastLine(lines, i) && lines[i] == kept[|kept| - 1];
      SameLastLine(raw, i);
      forall j: nat | IsLastLine(raw, j) ensures j == i { OneLastLine(raw, i, j); }
    } else {
      forall j: nat ensures !IsLastLine(raw, j) { SameLastLine(raw, j); }
    }
  }

  /** NormalBody keeps its promise exactly for the texts whose last line that is
      not blank, less a carriage return before a newline, ends in no white
      space. */
  lemma PromisedExactly(text: string)
    ensures IsAsPromised(NormalBody(text)) <==> !LastLineTrails(text)
  {
    hide NormalBody, LastLineTrails, EndsInSpace, IsBlankLine, Split, Join, Unix, DropFront, DropBack;
    var kept := DropBack(DropFront(Split(Unix(text), '\n')));
    WrittenEnds(text);
    TrailsLikeText(text, kept);
    EmptyIsBlank();
    if kept != [] { JoinedEnds(kept); }
  }

  /** A space at the end of the last line stays. */
  lemma SpaceStays()
    ensures NormalBody("a ") == "a \n" && !IsAsPromised("a \n")
  {
    hide Split, Join, IsBlankLine, EndsInSpace;
    OneSpace();
    assert "a "[1..] == " " && " "[1..] == "";
    assert Unix(" ") == " " && Unix("a ") == "a ";
    SplitHead("a ", "", '\n');
    JoinSplit("a ", '\n');
    LetterIsNoBlank();
    assert "a \n"[..2] == "a ";
  }

  lemma OneSpace()
    ensures EndsInSpace("a ")
  {
    assert "a "[1..] == " ";
    assert SpaceFrom("a ", 1);
  }

  lemma LetterIsNoBlank()
    ensures !IsBlankLine("a ")
  {
    SpacesTrim("a ");
  }
}
