/** Which byte strings are valid UTF-8, as section 4 of RFC 3629 and Go's
    utf8.ValidString have it. */
module Utf8 {

  predicate In(c: char, lo: nat, hi: nat) {
    lo <= c as nat <= hi
  }

  /** The bytes the character at the front takes, or 0 when none is there. */
  function RuneLength(s: string): (n: nat)
    ensures n <= |s|
  {
    if s == "" then 0
    else if In(s[0], 0, 0x7F) then 1
    else if |s| < 2 then 0
    else if In(s[0], 0xC2, 0xDF) then if In(s[1], 0x80, 0xBF) then 2 else 0
    else if |s| < 3 || !In(s[2], 0x80, 0xBF) then 0
    else if s[0] as nat == 0xE0 then if In(s[1], 0xA0, 0xBF) then 3 else 0
    else if s[0] as nat == 0xED then if In(s[1], 0x80, 0x9F) then 3 else 0
    else if In(s[0], 0xE1, 0xEF) then if In(s[1], 0x80, 0xBF) then 3 else 0
    else if |s| < 4 || !In(s[3], 0x80, 0xBF) then 0
    else if s[0] as nat == 0xF0 then if In(s[1], 0x90, 0xBF) then 4 else 0
    else if In(s[0], 0xF1, 0xF3) then if In(s[1], 0x80, 0xBF) then 4 else 0
    else if s[0] as nat == 0xF4 then if In(s[1], 0x80, 0x8F) then 4 else 0
    else 0
  }

  predicate Valid(s: string) {
    s == "" || (RuneLength(s) > 0 && Valid(s[RuneLength(s)..]))
  }

  lemma RuneLengthAppend(s: string, t: string)
    requires RuneLength(s) > 0
    ensures RuneLength(s + t) == RuneLength(s)
  {
  }

  /** Text after valid text decides whether the whole is valid. */
  lemma {:induction false} ValidAppend(s: string, t: string)
    requires Valid(s)
    ensures Valid(s + t) <==> Valid(t)
  {
    if s == "" {
      assert s + t == t;
    } else {
      var n := RuneLength(s);
      RuneLengthAppend(s, t);
      ValidAppend(s[n..], t);
      assert (s + t)[n..] == s[n..] + t;
    }
  }

  /** The bytes of one character alone are valid, and after the first of
      several each is at least 0x80. */
  lemma RuneIsValid(s: string)
    requires RuneLength(s) > 0
    ensures Valid(s[..RuneLength(s)])
    ensures forall i :: 0 <= i < RuneLength(s) && RuneLength(s) > 1 ==> s[i] as nat >= 0x80
    ensures RuneLength(s) == 1 ==> s[0] as nat < 0x80
  {
    var r := s[..RuneLength(s)];
    assert RuneLength(r) == |r|;
    assert r[|r|..] == "";
  }

  predicate IsAscii(s: string) {
    forall i :: 0 <= i < |s| ==> s[i] as nat < 0x80
  }

  lemma {:induction false} AsciiIsValid(s: string)
    requires IsAscii(s)
    ensures Valid(s)
  {
    if s != "" {
      AsciiIsValid(s[1..]);
      assert RuneLength(s) == 1;
    }
  }
}
