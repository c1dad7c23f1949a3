/** What a statement's line may be made of (attest/text.go), told as what is written:
    segments, indices as decimal numbers, and values as code points. */
module StatementShapes {
  import opened Utf8
  import opened Decimal
  import opened JsonMeaning
  import opened StatementDoc

  predicate SegmentShape(s: string) {
    && s != "" && !('0' <= s[0] <= '9')
    && forall i :: 0 <= i < |s| ==> 'a' <= s[i] <= 'z' || 'A' <= s[i] <= 'Z' || '0' <= s[i] <= '9' || s[i] == '-'
  }

  lemma SegmentExactly(s: string)
    ensures SegmentFits(s) <==> SegmentShape(s)
  {
    forall i | 0 <= i < |s| ensures s[i] in s {}
  }

  /** A part of a key is a segment, or an index as it is written in decimal. */
  lemma KeyOrIndexExactly(s: string)
    ensures KeyOrIndexFits(s) <==> SegmentShape(s) || exists n: nat :: n <= 0x7FFF_FFFF_FFFF_FFFF && s == Itoa(n)
  {
    hide SegmentFits, SegmentShape, Canonical, Atoi, Itoa;
    SegmentExactly(s);
    if s != "" && IsDigit(s[0]) {
      OpensWithDigit(s);
      if Canonical(s) { ItoaAtoi(s); }
    }
    forall n: nat | s == Itoa(n) ensures s != "" && IsDigit(s[0]) && Canonical(s) && Atoi(s) == n {
      ItoaCanonical(n);
      AtoiItoa(n);
    }
  }

  lemma OpensWithDigit(s: string)
    requires s != "" && IsDigit(s[0])
    ensures !SegmentShape(s)
  {
  }

  /** A value is text with no ASCII control character. */
  lemma ValueExactly(s: string)
    ensures ValueFits(s) <==> s != "" && Valid(s) && forall i :: 0 <= i < |Points(s)| ==> 0x20 <= Points(s)[i] != 0x7F
  {
    hide Points, Valid;
    if ValueFits(s) {
      forall i | 0 <= i < |Points(s)| ensures 0x20 <= Points(s)[i] != 0x7F {
        var n := Points(s)[i];
        if n < 0x80 { NoSuchPoint(s, n as char); }
      }
    }
    if s != "" && Valid(s) && forall i :: 0 <= i < |Points(s)| ==> 0x20 <= Points(s)[i] != 0x7F {
      forall c | c in s ensures ' ' <= c && c as nat != 0x7F {
        if c as nat < 0x80 { NoSuchPoint(s, c); }
      }
    }
  }
}
