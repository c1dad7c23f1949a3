/** The envelope of a signed note (note/note.go): text, a blank line, and
    signature lines by any number of parties. */
module Note {
  import opened Wrappers
  import opened Strings
  import opened Decimal
  import Utf8

  const SIGNATURE_SIZE: nat := 68

  /** An em-dash, three bytes of UTF-8, and a space: what a signature line opens
      with. */
  const MARK: string := ['\U{E2}', '\U{80}', '\U{94}', ' ']

  /** What the envelope takes on trust: base64, the key hash, signing and
      verifying, and which names hold a space or control character that is not
      ASCII. */
  datatype Scheme = Scheme(
    encode: seq<byte> -> string,
    decode: string -> Option<seq<byte>>,
    keyHash: (string, string) -> seq<byte>,
    publicOf: string -> string,
    sign: (string, string) -> seq<byte>,
    verify: (string, string, seq<byte>) -> bool,
    odd: string -> bool)

  predicate IsPrintable(s: string) {
    forall c :: c in s ==> '!' <= c <= '~'
  }

  /** Decoding undoes encoding, encoding is printable ASCII, and what a key signs
      its public key verifies. */
  ghost predicate IsScheme(sc: Scheme) {
    && (forall b :: sc.decode(sc.encode(b)) == Some(b) && IsPrintable(sc.encode(b)))
    && (forall n, p :: |sc.keyHash(n, p)| == 4)
    && (forall k, t :: |sc.sign(k, t)| == 64 && sc.verify(sc.publicOf(k), t, sc.sign(k, t)))
  }

  /** CheckName. */
  predicate NameFits(sc: Scheme, name: string) {
    && name != "" && Utf8.Valid(name) && !sc.odd(name)
    && forall c :: c in name ==> ' ' < c && c as nat != 0x7F && c != '+'
  }

  /** CheckBytes. */
  predicate BytesFit(s: string) {
    Utf8.Valid(s) && forall c :: c in s ==> (' ' <= c && c as nat != 0x7F) || c == '\n'
  }

  /** CheckText. */
  predicate TextFits(text: string) {
    text != "" && text[|text| - 1] == '\n' && BytesFit(text)
  }

  /** One signature line as read. */
  datatype Signature = Signature(name: string, hash: seq<byte>, sig: seq<byte>, line: string)

  function ParseSignature(sc: Scheme, line: string): Option<Signature> {
    if !(MARK <= line) then None
    else
      var rest := line[|MARK|..];
      var i := IndexOf(rest, ' ');
      if i == |rest| || !NameFits(sc, rest[..i]) then None
      else
        match sc.decode(rest[i + 1..])
        case None => None
        case Some(blob) =>
          if |blob| != SIGNATURE_SIZE then None else Some(Signature(rest[..i], blob[..4], blob[4..], line))
  }

  function LineOf(sc: Scheme, name: string, hash: seq<byte>, sig: seq<byte>): string {
    MARK + name + " " + sc.encode(hash + sig)
  }

  /** A signer, as a duplicate is told by: the name, a plus and the hash. */
  function IdOf(s: Signature): string {
    s.name + "+" + Hex(s.hash)
  }

  lemma IdIsOne(a: Signature, b: Signature)
    requires |a.hash| == |b.hash| && IdOf(a) == IdOf(b)
    ensures a.name == b.name && a.hash == b.hash
  {
    var x, y := IdOf(a), IdOf(b);
    assert x[..|a.name|] == a.name && y[..|b.name|] == b.name;
    assert x[|a.name| + 1..] == Hex(a.hash) && y[|b.name| + 1..] == Hex(b.hash);
    UnhexHex(a.hash);
    UnhexHex(b.hash);
  }

  // The written form.

  function LinesOf(sigs: seq<Signature>): (lines: seq<string>)
    ensures |lines| == |sigs| && forall i :: 0 <= i < |sigs| ==> lines[i] == sigs[i].line
  {
    seq(|sigs|, i requires 0 <= i < |sigs| => sigs[i].line)
  }

  ghost function Written(text: string, sigs: seq<Signature>): string {
    text + "\n" + Ended(LinesOf(sigs))
  }

  ghost predicate AreSignatures(sc: Scheme, sigs: seq<Signature>) {
    && (forall i :: 0 <= i < |sigs| ==> '\n' !in sigs[i].line && ParseSignature(sc, sigs[i].line) == Some(sigs[i]))
    && (forall i, j :: 0 <= i < j < |sigs| ==> IdOf(sigs[i]) != IdOf(sigs[j]))
  }

  /** A note is its text, a blank line, and at least one signature line, each of
      another signer. */
  ghost predicate IsSplit(sc: Scheme, note: string, text: string, sigs: seq<Signature>) {
    && BytesFit(note) && TextFits(text) && sigs != [] && AreSignatures(sc, sigs)
    && note == Written(text, sigs)
  }

  // Where the text ends.

  /** The place of the last two newlines together, or None. */
  function LastBlank(s: string): (i: Option<nat>)
    ensures i.Some? ==> i.value + 1 < |s| && s[i.value] == '\n' && s[i.value + 1] == '\n'
    ensures i.Some? ==> forall k :: i.value < k < |s| - 1 ==> !(s[k] == '\n' && s[k + 1] == '\n')
    ensures i.None? ==> forall k :: 0 <= k < |s| - 1 ==> !(s[k] == '\n' && s[k + 1] == '\n')
  {
    if |s| < 2 then None
    else if s[|s| - 2] == '\n' && s[|s| - 1] == '\n' then Some(|s| - 2)
    else
      var front := LastBlank(s[..|s| - 1]);
      assert forall k :: 0 <= k < |s| - 1 ==> s[..|s| - 1][k] == s[k];
      front
  }

  /** Lines that are not empty and hold no newline. */
  ghost predicate AreLines(lines: seq<string>) {
    forall i :: 0 <= i < |lines| ==> lines[i] != "" && '\n' !in lines[i]
  }

  /** A block of lines holds no blank one. */
  lemma {:induction false} NoBlankLine(lines: seq<string>)
    requires AreLines(lines) && lines != []
    ensures var s := Ended(lines);
            && s != "" && s[0] != '\n' && s[|s| - 1] == '\n'
            && forall k :: 0 <= k < |s| - 1 ==> !(s[k] == '\n' && s[k + 1] == '\n')
  {
    hide Ended;
    var front, last := lines[..|lines| - 1], lines[|lines| - 1];
    assert lines == front + [last];
    EndedOneMore(front, last);
    var s, f := Ended(lines), Ended(front);
    if front == [] {
      assert s == last + "\n";
    } else {
      NoBlankLine(front);
    }
    assert last[0] in last && last[|last| - 1] in last;
    forall k | 0 <= k < |s| - 1 ensures !(s[k] == '\n' && s[k + 1] == '\n') {
      if k < |f| {
        assert s[k] == f[k];
        assert s[k + 1] == if k + 1 < |f| then f[k + 1] else last[0];
      } else {
        assert s[k] == last[k - |f|] && last[k - |f|] in last;
      }
    }
  }

  /** No two newlines together from a place on. */
  ghost predicate NoBlankFrom(s: string, i: nat) {
    forall k :: i <= k < |s| - 1 ==> !(s[k] == '\n' && s[k + 1] == '\n')
  }

  lemma LastBlankIs(s: string, i: nat)
    requires i + 1 < |s| && s[i] == '\n' && s[i + 1] == '\n' && NoBlankFrom(s, i + 1)
    ensures LastBlank(s) == Some(i)
  {
    assert LastBlank(s).Some?;
  }

  lemma NoBlankAfter(text: string, block: string)
    requires block != "" && block[0] != '\n' && NoBlankFrom(block, 0)
    ensures NoBlankFrom(text + "\n" + block, |text|)
  {
    var note := text + "\n" + block;
    forall k | |text| <= k < |note| - 1 ensures !(note[k] == '\n' && note[k + 1] == '\n') {
      if k == |text| {
        assert note[k + 1] == block[0];
      } else {
        assert note[k] == block[k - |text| - 1] && note[k + 1] == block[k - |text|];
      }
    }
  }

  lemma TextAndBlock(text: string, block: string)
    requires text != "" && text[|text| - 1] == '\n'
    ensures var note := text + "\n" + block;
            && note[|text| - 1] == '\n' && note[|text|] == '\n'
            && note[..|text|] == text && note[|text| + 1..] == block
  {
  }

  /** The last blank line is the one after the text, whatever the text holds. */
  lemma TextEnds(text: string, lines: seq<string>)
    requires text != "" && text[|text| - 1] == '\n' && AreLines(lines) && lines != []
    ensures LastBlank(text + "\n" + Ended(lines)) == Some(|text| - 1)
    ensures var note := text + "\n" + Ended(lines); note[..|text|] == text && note[|text| + 1..] == Ended(lines)
  {
    hide Ended, LastBlank, AreLines;
    NoBlankLine(lines);
    NoBlankAfter(text, Ended(lines));
    TextAndBlock(text, Ended(lines));
    LastBlankIs(text + "\n" + Ended(lines), |text| - 1);
  }

  lemma SignatureLines(sc: Scheme, sigs: seq<Signature>)
    requires AreSignatures(sc, sigs)
    ensures AreLines(LinesOf(sigs))
  {
    hide NameFits, IdOf;
    forall i | 0 <= i < |sigs| ensures sigs[i].line != "" {
      assert ParseSignature(sc, sigs[i].line).Some?;
    }
  }

  /** A note is split in one way: its text may hold blank lines of its own. */
  lemma SplitIsOne(sc: Scheme, note: string, t0: string, s0: seq<Signature>, t1: string, s1: seq<Signature>)
    requires IsSplit(sc, note, t0, s0) && IsSplit(sc, note, t1, s1)
    ensures t0 == t1 && s0 == s1
  {
    hide BytesFit, Ended, ParseSignature, LastBlank;
    SignatureLines(sc, s0);
    SignatureLines(sc, s1);
    TextEnds(t0, LinesOf(s0));
    TextEnds(t1, LinesOf(s1));
    EndedSplits(LinesOf(s0));
    EndedSplits(LinesOf(s1));
    forall i | 0 <= i < |s0| ensures s0[i] == s1[i] {
      assert LinesOf(s0)[i] == LinesOf(s1)[i];
    }
  }

  // Split.

  method SplitNote(sc: Scheme, note: string) returns (r: Option<(string, seq<Signature>)>)
    ensures r.Some? ==> IsSplit(sc, note, r.value.0, r.value.1)
    ensures r.None? ==> forall text, sigs :: !IsSplit(sc, note, text, sigs)
  {
    hide BytesFit, IsSplit, LastBlank, AreSignatures, Split;
    SplitFits(sc, note);
    if !BytesFit(note) { return None; }
    SplitsAtLast(sc, note);
    var at := LastBlank(note);
    if at.None? { return None; }
    var text, block := note[..at.value + 1], note[at.value + 2..];
    if !TextFits(text) { return None; }
    if block == "" || block[|block| - 1] != '\n' { return None; }
    assert block[..|block| - 1] == block[..|note| - at.value - 3];
    var lines := Split(block[..|block| - 1], '\n');
    var sigs := ReadLines(sc, lines);
    if sigs.None? { return None; }
    Reassembles(sc, note, at.value, sigs.value);
    r := Some((text, sigs.value));
  }

  lemma SplitFits(sc: Scheme, note: string)
    ensures forall text, sigs :: IsSplit(sc, note, text, sigs) ==> BytesFit(note)
  {
    hide BytesFit;
  }

  lemma Reassembles(sc: Scheme, note: string, at: nat, sigs: seq<Signature>)
    requires BytesFit(note) && at + 2 < |note| && note[at] == '\n' && note[at + 1] == '\n' && note[|note| - 1] == '\n'
    requires TextFits(note[..at + 1]) && AreSignatures(sc, sigs)
    requires Split(note[at + 2..][..|note| - at - 3], '\n') == LinesOf(sigs)
    ensures IsSplit(sc, note, note[..at + 1], sigs)
  {
    hide BytesFit, Ended, ParseSignature, Split, AreSignatures;
    var block := note[at + 2..];
    SplitEnds(block);
    assert note == note[..at + 1] + "\n" + block;
  }

  /** Reads signature lines, each of another signer. */
  method ReadLines(sc: Scheme, lines: seq<string>) returns (r: Option<seq<Signature>>)
    requires forall k :: 0 <= k < |lines| ==> '\n' !in lines[k]
    ensures r.Some? ==> AreSignatures(sc, r.value) && LinesOf(r.value) == lines
    ensures r.None? ==> forall all: seq<Signature> :: !(AreSignatures(sc, all) && LinesOf(all) == lines)
  {
    hide ParseSignature, AreSignatures, IdOf, ReadSoFar;
    var seen: set<string>, sigs: seq<Signature> := {}, [];
    NoSignatures(sc, lines);
    for i := 0 to |lines|
      invariant ReadSoFar(sc, lines, sigs, i) && seen == Ids(sigs)
    {
      var sig := ParseSignature(sc, lines[i]);
      NextSignature(sc, lines, sigs, i);
      if sig.None? { return None; }
      if IdOf(sig.value) in seen { return None; }
      seen := seen + {IdOf(sig.value)};
      sigs := sigs + [sig.value];
    }
    AllSignatures(sc, lines, sigs);
    r := Some(sigs);
  }

  ghost function Ids(sigs: seq<Signature>): set<string> {
    set i | 0 <= i < |sigs| :: IdOf(sigs[i])
  }

  /** What a note splits into, if it does, is at its last blank line. */
  lemma SplitsAtLast(sc: Scheme, note: string)
    ensures forall text, sigs :: IsSplit(sc, note, text, sigs) ==>
              && LastBlank(note) == Some(|text| - 1) && note[..|text|] == text && TextFits(text)
              && |text| + 1 < |note| && note[|note| - 1] == '\n'
              && Split(note[|text| + 1..][..|note| - |text| - 2], '\n') == LinesOf(sigs)
              && AreSignatures(sc, sigs)
  {
    hide BytesFit, Ended, ParseSignature, LastBlank;
    forall text, sigs | IsSplit(sc, note, text, sigs)
      ensures LastBlank(note) == Some(|text| - 1) && note[..|text|] == text
      ensures |text| + 1 < |note| && note[|note| - 1] == '\n'
      ensures Split(note[|text| + 1..][..|note| - |text| - 2], '\n') == LinesOf(sigs)
    {
      SignatureLines(sc, sigs);
      TextEnds(text, LinesOf(sigs));
      NoBlankLine(LinesOf(sigs));
      EndedSplits(LinesOf(sigs));
      assert note[|note| - 1] == Ended(LinesOf(sigs))[|Ended(LinesOf(sigs))| - 1];
    }
  }

  /** The signatures of the first lines, if the lines are a note's. */
  ghost predicate ReadSoFar(sc: Scheme, lines: seq<string>, sigs: seq<Signature>, i: nat) {
    && |sigs| == i <= |lines| && AreSignatures(sc, sigs)
    && (forall k :: 0 <= k < i ==> sigs[k].line == lines[k])
    && (forall k :: 0 <= k < |lines| ==> '\n' !in lines[k])
    && (forall all: seq<Signature> :: AreSignatures(sc, all) && LinesOf(all) == lines ==> sigs == all[..i])
  }

  lemma NoSignatures(sc: Scheme, lines: seq<string>)
    requires forall k :: 0 <= k < |lines| ==> '\n' !in lines[k]
    ensures ReadSoFar(sc, lines, [], 0) && Ids([]) == {}
  {
  }

  lemma NextSignature(sc: Scheme, lines: seq<string>, sigs: seq<Signature>, i: nat)
    requires ReadSoFar(sc, lines, sigs, i) && i < |lines|
    ensures var sig := ParseSignature(sc, lines[i]);
            && (sig.None? ==> forall all: seq<Signature> :: !(AreSignatures(sc, all) && LinesOf(all) == lines))
            && (sig.Some? && IdOf(sig.value) in Ids(sigs) ==> forall all: seq<Signature> :: !(AreSignatures(sc, all) && LinesOf(all) == lines))
            && (sig.Some? && IdOf(sig.value) !in Ids(sigs) ==>
                  ReadSoFar(sc, lines, sigs + [sig.value], i + 1) && Ids(sigs + [sig.value]) == Ids(sigs) + {IdOf(sig.value)})
  {
    hide ParseSignature, IdOf, AreSignatures, Ids;
    LineKept(sc, lines[i]);
    var sig := ParseSignature(sc, lines[i]);
    forall all: seq<Signature> | AreSignatures(sc, all) && LinesOf(all) == lines
      ensures sig == Some(all[i]) && IdOf(all[i]) !in Ids(sigs) && all[..i + 1] == sigs + [all[i]]
    {
      NextOfAll(sc, lines, sigs, i, all);
    }
    if sig.Some? {
      OneMoreId(sigs, sig.value);
      if IdOf(sig.value) !in Ids(sigs) { OneMoreSignature(sc, sigs, sig.value, lines[i]); }
    }
  }

  lemma NextOfAll(sc: Scheme, lines: seq<string>, sigs: seq<Signature>, i: nat, all: seq<Signature>)
    requires ReadSoFar(sc, lines, sigs, i) && i < |lines| && AreSignatures(sc, all) && LinesOf(all) == lines
    ensures ParseSignature(sc, lines[i]) == Some(all[i]) && IdOf(all[i]) !in Ids(sigs) && all[..i + 1] == sigs + [all[i]]
  {
    hide ParseSignature, IdOf;
    assert LinesOf(all)[i] == all[i].line;
    assert all[..i + 1] == all[..i] + [all[i]];
    forall k | 0 <= k < i ensures IdOf(sigs[k]) != IdOf(all[i]) {
      assert sigs[k] == all[k];
    }
  }

  lemma OneMoreId(sigs: seq<Signature>, sig: Signature)
    ensures Ids(sigs + [sig]) == Ids(sigs) + {IdOf(sig)}
  {
    hide IdOf;
    var more := sigs + [sig];
    forall s | s in Ids(more) ensures s in Ids(sigs) + {IdOf(sig)} {
      var k :| 0 <= k < |more| && IdOf(more[k]) == s;
      if k < |sigs| { assert more[k] == sigs[k]; }
    }
    forall s | s in Ids(sigs) ensures s in Ids(more) {
      var k :| 0 <= k < |sigs| && IdOf(sigs[k]) == s;
      assert more[k] == sigs[k];
    }
    assert more[|sigs|] == sig && IdOf(more[|sigs|]) in Ids(more);
  }

  lemma OneMoreSignature(sc: Scheme, sigs: seq<Signature>, sig: Signature, line: string)
    requires AreSignatures(sc, sigs) && '\n' !in line && ParseSignature(sc, line) == Some(sig) && IdOf(sig) !in Ids(sigs)
    ensures AreSignatures(sc, sigs + [sig])
  {
    hide ParseSignature, IdOf;
    LineKept(sc, line);
    var more := sigs + [sig];
    forall k | 0 <= k < |sigs| ensures IdOf(more[k]) != IdOf(sig) {
      assert IdOf(sigs[k]) in Ids(sigs);
    }
  }

  lemma LineKept(sc: Scheme, line: string)
    ensures ParseSignature(sc, line).Some? ==> ParseSignature(sc, line).value.line == line
  {
    hide NameFits;
  }

  lemma AllSignatures(sc: Scheme, lines: seq<string>, sigs: seq<Signature>)
    requires ReadSoFar(sc, lines, sigs, |lines|)
    ensures AreSignatures(sc, sigs) && |sigs| == |lines| && forall k :: 0 <= k < |lines| ==> sigs[k].line == lines[k]
  {
  }

  // Signing.

  function HashOf(sc: Scheme, name: string, key: string): seq<byte> {
    sc.keyHash(name, sc.publicOf(key))
  }

  /** What a key signs a text with, and how that is written. */
  function SignatureOf(sc: Scheme, text: string, name: string, key: string): Signature {
    var hash, sig := HashOf(sc, name, key), sc.sign(key, text);
    Signature(name, hash, sig, LineOf(sc, name, hash, sig))
  }

  lemma MarkIsValid()
    ensures Utf8.Valid(MARK) && |MARK| == 4 && MARK[3] == ' ' && '\n' !in MARK
    ensures forall c :: c in MARK ==> ' ' <= c && c as nat != 0x7F
  {
    assert Utf8.RuneLength(MARK) == 3;
    assert MARK[3..] == " ";
    assert Utf8.RuneLength(" ") == 1;
    assert " "[1..] == "";
  }

  lemma {:induction false} PrintableIsValid(s: string)
    requires IsPrintable(s)
    ensures Utf8.Valid(s) && forall c :: c in s ==> ' ' < c && c as nat != 0x7F && c != '\n'
  {
    if s != "" {
      assert s[0] in s;
      assert Utf8.RuneLength(s) == 1;
      assert forall c :: c in s[1..] ==> c in s;
      PrintableIsValid(s[1..]);
    }
  }

  lemma SpaceIsValid()
    ensures Utf8.Valid(" ") && Utf8.Valid("\n") && Utf8.Valid("")
  {
    assert Utf8.RuneLength(" ") == 1 && " "[1..] == "";
    assert Utf8.RuneLength("\n") == 1 && "\n"[1..] == "";
  }

  /** The line a key adds is read as its signature, and fits a note. */
  lemma LineReads(sc: Scheme, text: string, name: string, key: string)
    requires IsScheme(sc) && NameFits(sc, name)
    ensures var s := SignatureOf(sc, text, name, key);
            ParseSignature(sc, s.line) == Some(s) && '\n' !in s.line && BytesFit(s.line)
  {
    hide Utf8.Valid, IndexOf;
    var s := SignatureOf(sc, text, name, key);
    var encoded := sc.encode(s.hash + s.sig);
    PrintableIsValid(encoded);
    LineFits(sc, name, encoded);
    var rest := name + " " + encoded;
    assert s.line == MARK + rest;
    assert s.line[|MARK|..] == rest;
    FirstSpaceOf(name, encoded);
    assert (s.hash + s.sig)[..4] == s.hash && (s.hash + s.sig)[4..] == s.sig;
  }

  lemma FirstSpaceOf(name: string, encoded: string)
    requires ' ' !in name
    ensures var rest := name + " " + encoded;
            IndexOf(rest, ' ') == |name| && rest[..|name|] == name && rest[|name| + 1..] == encoded
  {
    var rest := name + " " + encoded;
    assert rest[|name|] == ' ';
    assert forall k :: 0 <= k < |name| ==> rest[k] == name[k] && name[k] in name;
  }

  lemma LineFits(sc: Scheme, name: string, encoded: string)
    requires NameFits(sc, name) && Utf8.Valid(encoded) && forall c :: c in encoded ==> ' ' < c && c as nat != 0x7F && c != '\n'
    ensures BytesFit(MARK + name + " " + encoded) && '\n' !in MARK + name + " " + encoded
  {
    hide Utf8.Valid;
    MarkIsValid();
    SpaceIsValid();
    Utf8.ValidAppend(MARK, name);
    Utf8.ValidAppend(MARK + name, " ");
    Utf8.ValidAppend(MARK + name + " ", encoded);
  }

  /** Bytes after bytes that fit fit when they do. */
  lemma FitsTogether(a: string, b: string)
    requires BytesFit(a) && BytesFit(b)
    ensures BytesFit(a + b)
  {
    Utf8.ValidAppend(a, b);
  }

  lemma NewlineFits()
    ensures BytesFit("\n")
  {
    SpaceIsValid();
  }

  lemma WrittenOneMore(text: string, sigs: seq<Signature>, s: Signature)
    ensures Written(text, sigs + [s]) == Written(text, sigs) + s.line + "\n"
  {
    hide Ended;
    assert LinesOf(sigs + [s]) == LinesOf(sigs) + [s.line];
    EndedOneMore(LinesOf(sigs), s.line);
    assert (text + "\n") + (Ended(LinesOf(sigs)) + s.line + "\n") == (text + "\n" + Ended(LinesOf(sigs))) + s.line + "\n";
  }

  /** Makes a note of a text with one signature, which splits into just those two. */
  method Sign(sc: Scheme, text: string, name: string, key: string) returns (note: Option<string>)
    requires IsScheme(sc)
    ensures note.Some? <==> TextFits(text) && NameFits(sc, name)
    ensures note.Some? ==> IsSplit(sc, note.value, text, [SignatureOf(sc, text, name, key)])
  {
    hide BytesFit, NameFits, ParseSignature, Ended, IsScheme, SignatureOf;
    if !TextFits(text) { return None; }
    if !NameFits(sc, name) { return None; }
    var s := SignatureOf(sc, text, name, key);
    LineReads(sc, text, name, key);
    NewlineFits();
    FitsTogether(text, "\n");
    FitsTogether(text + "\n", s.line);
    FitsTogether(text + "\n" + s.line, "\n");
    WrittenOneMore(text, [], s);
    assert Written(text, []) == text + "\n" by { NoLines(text); }
    assert [] + [s] == [s];
    note := Some(text + "\n" + s.line + "\n");
  }

  lemma NoLines(text: string)
    ensures Written(text, []) == text + "\n"
  {
  }

  ghost predicate HasSigner(sigs: seq<Signature>, name: string, hash: seq<byte>) {
    exists i :: 0 <= i < |sigs| && sigs[i].name == name && sigs[i].hash == hash
  }

  /** What co-signing a note with a key makes of it: the note itself when the
      key has signed it, and otherwise the same text with one more signature
      after all it had. */
  ghost predicate Adds(sc: Scheme, note: string, name: string, key: string, added: string) {
    forall text, sigs :: IsSplit(sc, note, text, sigs) ==>
      if HasSigner(sigs, name, HashOf(sc, name, key)) then added == note
      else IsSplit(sc, added, text, sigs + [SignatureOf(sc, text, name, key)])
  }

  /** Co-signs a note, or refuses a name that does not fit or a note that does
      not split. */
  method AddSignature(sc: Scheme, note: string, name: string, key: string) returns (added: Option<string>)
    requires IsScheme(sc)
    ensures added.Some? <==> NameFits(sc, name) && exists text, sigs :: IsSplit(sc, note, text, sigs)
    ensures added.Some? ==> Adds(sc, note, name, key, added.value)
  {
    hide BytesFit, NameFits, ParseSignature, Ended, IsScheme, SignatureOf, IsSplit, HashOf;
    if !NameFits(sc, name) { return None; }
    var split := SplitNote(sc, note);
    if split.None? { return None; }
    var (text, sigs) := split.value;
    forall t, s | IsSplit(sc, note, t, s) ensures t == text && s == sigs { SplitIsOne(sc, note, t, s, text, sigs); }
    var s := SignatureOf(sc, text, name, key);
    for i := 0 to |sigs|
      invariant forall j :: 0 <= j < i ==> !(sigs[j].name == name && sigs[j].hash == HashOf(sc, name, key))
    {
      if sigs[i].name == name && sigs[i].hash == HashOf(sc, name, key) {
        return Some(note);
      }
    }
    CoSigned(sc, note, text, sigs, name, key);
    added := Some(note + s.line + "\n");
  }

  lemma CoSigned(sc: Scheme, note: string, text: string, sigs: seq<Signature>, name: string, key: string)
    requires IsScheme(sc) && IsSplit(sc, note, text, sigs) && NameFits(sc, name) && !HasSigner(sigs, name, HashOf(sc, name, key))
    ensures var s := SignatureOf(sc, text, name, key); IsSplit(sc, note + s.line + "\n", text, sigs + [s])
  {
    hide BytesFit, NameFits, ParseSignature, Ended, Written, IdOf;
    var s := SignatureOf(sc, text, name, key);
    LineReads(sc, text, name, key);
    NewlineFits();
    FitsTogether(note, s.line);
    FitsTogether(note + s.line, "\n");
    WrittenOneMore(text, sigs, s);
    forall i | 0 <= i < |sigs| ensures IdOf(sigs[i]) != IdOf(s) {
      SameHashSize(sc, sigs[i]);
      if IdOf(sigs[i]) == IdOf(s) { IdIsOne(sigs[i], s); }
    }
    NotInIds(sigs, s);
    OneMoreSignature(sc, sigs, s, s.line);
  }

  lemma SameHashSize(sc: Scheme, s: Signature)
    requires ParseSignature(sc, s.line) == Some(s)
    ensures |s.hash| == 4
  {
    hide NameFits;
  }

  lemma NotInIds(sigs: seq<Signature>, s: Signature)
    requires forall i :: 0 <= i < |sigs| ==> IdOf(sigs[i]) != IdOf(s)
    ensures IdOf(s) !in Ids(sigs)
  {
    hide IdOf;
  }

  lemma SignerIsListed(sc: Scheme, text: string, sigs: seq<Signature>, name: string, key: string)
    ensures HasSigner(sigs + [SignatureOf(sc, text, name, key)], name, HashOf(sc, name, key))
  {
    var all := sigs + [SignatureOf(sc, text, name, key)];
    assert all[|sigs|].name == name;
  }

  /** A second co-signing with one key gives the note the first gave. */
  lemma SigningTwice(sc: Scheme, note: string, name: string, key: string, added: string, again: string)
    requires exists text, sigs :: IsSplit(sc, note, text, sigs)
    requires Adds(sc, note, name, key, added) && Adds(sc, added, name, key, again)
    ensures again == added
  {
    hide IsSplit, HasSigner, HashOf, SignatureOf;
    var text, sigs :| IsSplit(sc, note, text, sigs);
    SignerIsListed(sc, text, sigs, name, key);
  }

  // Open.

  datatype VerifierKey = VerifierKey(name: string, hash: seq<byte>, pub: string)

  /** The first key held for a signature's name and hash. */
  function KeyFor(known: seq<VerifierKey>, s: Signature): Option<VerifierKey> {
    if known == [] then None
    else if known[0].name == s.name && known[0].hash == s.hash then Some(known[0])
    else KeyFor(known[1..], s)
  }

  ghost predicate ChecksOut(sc: Scheme, known: seq<VerifierKey>, text: string, s: Signature) {
    KeyFor(known, s).Some? ==> sc.verify(KeyFor(known, s).value.pub, text, s.sig)
  }

  /** Every signature by a key held verifies, and at least one is by such a key. */
  ghost predicate Accepted(sc: Scheme, known: seq<VerifierKey>, text: string, sigs: seq<Signature>) {
    && (forall i :: 0 <= i < |sigs| ==> ChecksOut(sc, known, text, sigs[i]))
    && (exists i :: 0 <= i < |sigs| && KeyFor(known, sigs[i]).Some?)
  }

  /** A note that opens as a text, for a reader who holds some keys. */
  ghost predicate Opens(sc: Scheme, known: seq<VerifierKey>, note: string, text: string) {
    exists sigs :: IsSplit(sc, note, text, sigs) && Accepted(sc, known, text, sigs)
  }

  method Open(sc: Scheme, note: string, known: seq<VerifierKey>) returns (r: Option<string>)
    ensures r.Some? ==> Opens(sc, known, note, r.value)
    ensures r.None? ==> forall text :: !Opens(sc, known, note, text)
    ensures forall text :: Opens(sc, known, note, text) ==> r == Some(text)
  {
    hide IsSplit;
    var split := SplitNote(sc, note);
    if split.None? { return None; }
    var (text, sigs) := split.value;
    forall t, s | IsSplit(sc, note, t, s) ensures t == text && s == sigs { SplitIsOne(sc, note, t, s, text, sigs); }
    var verified := 0;
    for i := 0 to |sigs|
      invariant forall j :: 0 <= j < i ==> ChecksOut(sc, known, text, sigs[j])
      invariant verified > 0 <==> exists j :: 0 <= j < i && KeyFor(known, sigs[j]).Some?
      invariant verified >= 0
    {
      var k := 0;
      while k < |known| && !(known[k].name == sigs[i].name && known[k].hash == sigs[i].hash)
        invariant k <= |known| && KeyFor(known, sigs[i]) == KeyFor(known[k..], sigs[i])
      {
        assert known[k..][1..] == known[k + 1..];
        k := k + 1;
      }
      if k < |known| {
        assert KeyFor(known, sigs[i]) == Some(known[k]);
        if !sc.verify(known[k].pub, text, sigs[i].sig) { return None; }
        verified := verified + 1;
      } else {
        assert known[k..] == [];
      }
    }
    if verified == 0 { return None; }
    r := Some(text);
  }

  /** One more signature leaves a list accepted, when its signer is one the
      reader knows rightly or not at all. */
  lemma StaysAccepted(sc: Scheme, known: seq<VerifierKey>, text: string, sigs: seq<Signature>, name: string, key: string)
    requires IsScheme(sc) && Accepted(sc, known, text, sigs)
    requires IsRightlyKnown(sc, known, text, name, key)
    ensures Accepted(sc, known, text, sigs + [SignatureOf(sc, text, name, key)])
  {
    var s := SignatureOf(sc, text, name, key);
    var all := sigs + [s];
    forall i | 0 <= i < |all| ensures ChecksOut(sc, known, text, all[i]) {
      if i < |sigs| { assert all[i] == sigs[i]; }
    }
    var i :| 0 <= i < |sigs| && KeyFor(known, sigs[i]).Some?;
    assert all[i] == sigs[i];
  }

  /** A signer no key is known for, or the right one. */
  ghost predicate IsRightlyKnown(sc: Scheme, known: seq<VerifierKey>, text: string, name: string, key: string) {
    var s := SignatureOf(sc, text, name, key);
    KeyFor(known, s).Some? ==> KeyFor(known, s).value.pub == sc.publicOf(key)
  }

  /** A note that opens still opens, as the same text, once such a signer has
      co-signed it. */
  lemma StaysOpen(sc: Scheme, known: seq<VerifierKey>, note: string, text: string, name: string, key: string, added: string)
    requires IsScheme(sc) && Opens(sc, known, note, text) && Adds(sc, note, name, key, added)
    requires IsRightlyKnown(sc, known, text, name, key)
    ensures Opens(sc, known, added, text)
  {
    hide IsSplit, HasSigner, HashOf, SignatureOf, Accepted, IsScheme, IsRightlyKnown;
    var sigs :| IsSplit(sc, note, text, sigs) && Accepted(sc, known, text, sigs);
    StaysAccepted(sc, known, text, sigs, name, key);
  }
}
