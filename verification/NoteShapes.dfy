/** What a note and a signer's name may hold (note/note.go), told as code points. */
module NoteShapes {
  import opened Utf8
  import opened JsonMeaning
  import opened Note

  /** No space, no ASCII control character and no plus, which end a name where it is
      written. */
  ghost predicate EndsName(n: nat) {
    n <= 0x20 || n == 0x7F || n == 0x2B
  }

  lemma NameExactly(sc: Scheme, name: string)
    ensures NameFits(sc, name) <==>
            name != "" && Valid(name) && !sc.odd(name) && forall i :: 0 <= i < |Points(name)| ==> !EndsName(Points(name)[i])
  {
    hide Points, Valid;
    if NameFits(sc, name) {
      forall i | 0 <= i < |Points(name)| ensures !EndsName(Points(name)[i]) {
        var n := Points(name)[i];
        if n < 0x80 { NoSuchPoint(name, n as char); }
      }
    }
    if Valid(name) && forall i :: 0 <= i < |Points(name)| ==> !EndsName(Points(name)[i]) {
      forall c | c in name ensures ' ' < c && c as nat != 0x7F && c != '+' {
        if c as nat < 0x80 { NoSuchPoint(name, c); }
      }
    }
  }

  lemma BytesExactly(s: string)
    ensures BytesFit(s) <==>
            Valid(s) && forall i :: 0 <= i < |Points(s)| ==> Points(s)[i] == 0x0A || 0x20 <= Points(s)[i] != 0x7F
  {
    hide Points, Valid;
    if BytesFit(s) {
      forall i | 0 <= i < |Points(s)| ensures Points(s)[i] == 0x0A || 0x20 <= Points(s)[i] != 0x7F {
        var n := Points(s)[i];
        if n < 0x80 { NoSuchPoint(s, n as char); }
      }
    }
    if Valid(s) && forall i :: 0 <= i < |Points(s)| ==> Points(s)[i] == 0x0A || 0x20 <= Points(s)[i] != 0x7F {
      forall c | c in s ensures (' ' <= c && c as nat != 0x7F) || c == '\n' {
        if c as nat < 0x80 { NoSuchPoint(s, c); }
      }
    }
  }
}
