/** Decimal numbers as Go's strconv writes and reads them, and hex. */
module Decimal {

  function Digit(n: nat): char
    requires n < 10
  {
    '0' + n as char
  }

  predicate IsDigit(c: char) {
    '0' <= c <= '9'
  }

  predicate AllDigits(s: string) {
    forall i :: 0 <= i < |s| ==> IsDigit(s[i])
  }

  /** strconv.Itoa of a number that is not negative. */
  function Itoa(n: nat): (s: string)
    ensures |s| > 0 && AllDigits(s)
  {
    if n < 10 then [Digit(n)] else Itoa(n / 10) + [Digit(n % 10)]
  }

  /** The number a run of digits names, leading zeros or not. */
  function Atoi(s: string): nat
    requires AllDigits(s)
  {
    if s == "" then 0
    else 10 * Atoi(s[..|s| - 1]) + (s[|s| - 1] as nat - '0' as nat)
  }

  /** Digits with no leading zero, as Itoa writes them. */
  predicate Canonical(s: string) {
    |s| > 0 && AllDigits(s) && (|s| > 1 ==> s[0] != '0')
  }

  lemma {:induction false} ItoaCanonical(n: nat)
    ensures Canonical(Itoa(n))
    ensures Itoa(n)[0] == '0' ==> n == 0
  {
    if n >= 10 { ItoaCanonical(n / 10); }
  }

  lemma {:induction false} AtoiItoa(n: nat)
    ensures Atoi(Itoa(n)) == n
  {
    if n >= 10 {
      AtoiItoa(n / 10);
      var s := Itoa(n);
      assert s[..|s| - 1] == Itoa(n / 10);
    } else {
      assert Itoa(n)[..0] == "";
    }
  }

  lemma {:induction false} AtoiPositive(s: string)
    requires AllDigits(s) && |s| > 0 && s[0] != '0'
    ensures Atoi(s) > 0
  {
    if |s| > 1 { AtoiPositive(s[..|s| - 1]); }
  }

  lemma {:induction false} ItoaAtoi(s: string)
    requires Canonical(s)
    ensures Itoa(Atoi(s)) == s
  {
    var front := s[..|s| - 1];
    var d := s[|s| - 1] as nat - '0' as nat;
    assert Digit(d) == s[|s| - 1];
    assert s == front + [s[|s| - 1]];
    if front == "" {
      assert Atoi(front) == 0;
    } else {
      AtoiPositive(front);
      ItoaAtoi(front);
      assert Atoi(s) / 10 == Atoi(front) && Atoi(s) % 10 == d;
    }
  }

  /** How many digits some text opens with. */
  function DigitCount(b: string): (n: nat)
    ensures n <= |b| && AllDigits(b[..n])
    ensures n < |b| ==> !IsDigit(b[n])
  {
    if b == "" || !IsDigit(b[0]) then 0 else 1 + DigitCount(b[1..])
  }

  lemma {:induction false} DigitCountOf(s: string, rest: string)
    requires AllDigits(s) && (rest == "" || !IsDigit(rest[0]))
    ensures DigitCount(s + rest) == |s|
  {
    if s == "" {
      assert s + rest == rest;
    } else {
      DigitCountOf(s[1..], rest);
      assert (s + rest)[1..] == s[1..] + rest;
    }
  }

  function Pow10(k: nat): nat {
    if k == 0 then 1 else 10 * Pow10(k - 1)
  }

  /** A number below 10^k is written in at most k digits, and no other. */
  lemma {:induction false} ItoaLength(n: nat, k: nat)
    requires k > 0
    ensures |Itoa(n)| <= k <==> n < Pow10(k)
  {
    if k == 1 {
      assert Pow10(1) == 10;
    } else if n >= 10 {
      ItoaLength(n / 10, k - 1);
    } else {
      assert Pow10(k) >= 10 by { Pow10Grows(k); }
    }
  }

  lemma {:induction false} Pow10Grows(k: nat)
    requires k > 0
    ensures Pow10(k) >= 10
  {
    if k > 1 { Pow10Grows(k - 1); }
  }

  // Hex.

  newtype byte = i: int | 0 <= i < 256

  predicate IsHexDigit(c: char) {
    '0' <= c <= '9' || 'a' <= c <= 'f'
  }

  predicate LowerHex(s: string) {
    forall i :: 0 <= i < |s| ==> IsHexDigit(s[i])
  }

  function HexDigit(n: nat): (c: char)
    requires n < 16
    ensures IsHexDigit(c)
  {
    if n < 10 then '0' + n as char else 'a' + (n - 10) as char
  }

  function HexValue(c: char): (n: nat)
    requires IsHexDigit(c)
    ensures n < 16 && HexDigit(n) == c
  {
    if c <= '9' then c as nat - '0' as nat else c as nat - 'a' as nat + 10
  }

  function Hex(s: seq<byte>): (h: string)
    ensures |h| == 2 * |s| && LowerHex(h)
  {
    if s == [] then ""
    else [HexDigit(s[0] as nat / 16), HexDigit(s[0] as nat % 16)] + Hex(s[1..])
  }

  function Unhex(h: string): (s: seq<byte>)
    requires LowerHex(h) && |h| % 2 == 0
    ensures 2 * |s| == |h|
  {
    if h == "" then []
    else [(16 * HexValue(h[0]) + HexValue(h[1])) as byte] + Unhex(h[2..])
  }

  lemma HexPair(a: char, b: char)
    requires IsHexDigit(a) && IsHexDigit(b)
    ensures var n := 16 * HexValue(a) + HexValue(b);
            n < 256 && HexDigit(n / 16) == a && HexDigit(n % 16) == b
  {
  }

  lemma {:induction false} HexUnhex(h: string)
    requires LowerHex(h) && |h| % 2 == 0
    ensures Hex(Unhex(h)) == h
  {
    hide HexDigit, HexValue, IsHexDigit;
    if h != "" {
      HexUnhex(h[2..]);
      var s := Unhex(h);
      HexPair(h[0], h[1]);
      assert s[1..] == Unhex(h[2..]);
      assert h == [h[0], h[1]] + h[2..];
    }
  }

  lemma {:induction false} UnhexHex(s: seq<byte>)
    ensures Unhex(Hex(s)) == s
  {
    if s != [] {
      UnhexHex(s[1..]);
      var h := Hex(s);
      assert h[2..] == Hex(s[1..]);
      var n := s[0] as nat;
      assert HexValue(h[0]) == n / 16 && HexValue(h[1]) == n % 16;
    }
  }
}
