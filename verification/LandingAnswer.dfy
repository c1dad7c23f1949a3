/** The memory between passes (integrator/refs.go): the memo a request's answer
    is written under, and when a pass may stand on it. */
module LandingAnswer {
  import opened Wrappers
  import opened Decimal
  import opened LandingStore

  const LAND := "land"
  const REFUSED_NOT_READY := "refused-not-ready"
  const REFUSED_MERGE := "refused-merge"
  const VOIDED_WITHDRAWN := "voided-withdrawn"
  const FAILED := "failed"
  const UNREAD_INPUTS := "unread"
  const RETRY_AFTER: nat := 600

  /** The head, the tip and the evidence, by a space between each two. */
  function Memo(j: Judged): string {
    j.head + " " + j.tip + " " + j.evidence
  }

  /** Text that no space divides. */
  predicate IsWord(s: string) {
    ' ' !in s
  }

  predicate IsRefusal(outcome: string) {
    outcome == REFUSED_NOT_READY || outcome == REFUSED_MERGE || outcome == VOIDED_WITHDRAWN
  }

  /** strings.CutPrefix. */
  function CutPrefix(s: string, prefix: string): Option<string> {
    if prefix <= s then Some(s[|prefix|..]) else None
  }

  /** The moment a text gives, here in seconds written in decimal. */
  function ReadTime(s: string): Option<nat> {
    if Canonical(s) then Some(Atoi(s)) else None
  }

  /** answered: whether this pass already has a request's answer. */
  predicate Answered(last: string, memo: string, lastInputs: string, inputs: string, now: int) {
    var rest := CutPrefix(last, memo + " ");
    if rest.None? || lastInputs != inputs then false
    else if IsRefusal(rest.value) then false
    else
      var when := CutPrefix(rest.value, FAILED + " ");
      if when.None? then inputs != UNREAD_INPUTS
      else
        var at := ReadTime(when.value);
        at.Some? && now - at.value < RETRY_AFTER
  }

  /** An answer as it is recorded: an outcome, or a failure and its time. */
  datatype Answer = Outcome(outcome: string) | Failure(at: nat) {
    function Text(): string {
      match this
      case Outcome(o) => o
      case Failure(at) => FAILED + " " + Itoa(at)
    }
  }

  function Answers(j: Judged, a: Answer): string {
    Memo(j) + " " + a.Text()
  }

  lemma WordsAreOne(a: string, x: string, b: string, y: string)
    requires IsWord(a) && IsWord(b) && a + " " + x == b + " " + y
    ensures a == b && x == y
  {
    var s, t := a + " " + x, b + " " + y;
    assert s[|a|] == ' ' && t[|b|] == ' ';
    assert forall k :: 0 <= k < |a| ==> s[k] == a[k] && a[k] in a;
    assert forall k :: 0 <= k < |b| ==> t[k] == b[k] && b[k] in b;
    assert a == s[..|a|] && b == t[..|b|];
    assert x == s[|a| + 1..] && y == t[|b| + 1..];
  }

  ghost predicate AreWords(j: Judged) {
    IsWord(j.head) && IsWord(j.tip) && IsWord(j.evidence)
  }

  /** A record that starts with one memo starts with no other. */
  lemma MemoIsOne(j: Judged, rest: string, k: Judged, more: string)
    requires AreWords(j) && AreWords(k) && Memo(j) + " " + rest == Memo(k) + " " + more
    ensures j.head == k.head && j.tip == k.tip && j.evidence == k.evidence && rest == more
  {
    assert Memo(j) + " " + rest == j.head + " " + (j.tip + " " + (j.evidence + " " + rest));
    assert Memo(k) + " " + more == k.head + " " + (k.tip + " " + (k.evidence + " " + more));
    WordsAreOne(j.head, j.tip + " " + (j.evidence + " " + rest), k.head, k.tip + " " + (k.evidence + " " + more));
    WordsAreOne(j.tip, j.evidence + " " + rest, k.tip, k.evidence + " " + more);
    WordsAreOne(j.evidence, rest, k.evidence, more);
  }

  /** A recorded answer stands exactly when none of the four it is a function
      of has moved, it is no refusal or voiding, and a failure is fresh. */
  lemma AnswerStands(j: Judged, a: Answer, k: Judged, now: int)
    requires AreWords(j) && AreWords(k)
    requires a.Outcome? ==> !(FAILED + " " <= a.outcome)
    ensures Answered(Answers(j, a), Memo(k), j.inputs, k.inputs, now) <==>
            j == k && match a case Outcome(o) => !IsRefusal(o) && k.inputs != UNREAD_INPUTS case Failure(at) => now - at < RETRY_AFTER
  {
    hide Itoa, Canonical, Atoi, Memo, AreWords;
    var last, prefix, text := Answers(j, a), Memo(k) + " ", a.Text();
    if prefix <= last {
      assert last == Memo(k) + " " + last[|prefix|..];
      MemoIsOne(j, text, k, last[|prefix|..]);
    }
    if j == k {
      assert last == prefix + text;
      assert last[|prefix|..] == text;
      if a.Failure? {
        ItoaCanonical(a.at);
        AtoiItoa(a.at);
        FailureText(a.at);
      }
    }
  }

  /** A record answers a judgement exactly when it was written under its inputs, it
      is the judgement's memo and an outcome, the outcome is no refusal, and it is
      no failure but one still fresh. With inputs that did not read, only a fresh
      failure answers. */
  lemma AnsweredExactly(last: string, memo: string, lastInputs: string, inputs: string, now: int)
    ensures Answered(last, memo, lastInputs, inputs, now) <==>
            lastInputs == inputs && exists outcome :: last == memo + " " + outcome && Stands(outcome, inputs, now)
  {
    hide Itoa, Canonical, Atoi, IsRefusal;
    var prefix := memo + " ";
    if prefix <= last {
      var rest := last[|prefix|..];
      assert last == memo + " " + rest;
      StandsExactly(rest, inputs, now);
    }
    forall outcome | last == memo + " " + outcome ensures prefix <= last && last[|prefix|..] == outcome {}
  }

  ghost predicate Stands(outcome: string, inputs: string, now: int) {
    && outcome !in {"refused-not-ready", "refused-merge", "voided-withdrawn"}
    && if FAILED + " " <= outcome then exists at :: outcome == Failure(at).Text() && now - at < RETRY_AFTER else inputs != UNREAD_INPUTS
  }

  lemma StandsExactly(outcome: string, inputs: string, now: int)
    ensures Stands(outcome, inputs, now) <==>
            !IsRefusal(outcome) &&
            match CutPrefix(outcome, FAILED + " ")
            case None => inputs != UNREAD_INPUTS
            case Some(text) => ReadTime(text).Some? && now - ReadTime(text).value < RETRY_AFTER
  {
    hide Itoa, Canonical, Atoi;
    if FAILED + " " <= outcome {
      var text := outcome[|FAILED + " "|..];
      assert outcome == FAILED + " " + text;
      forall at: nat | outcome == Failure(at).Text() ensures ReadTime(text) == Some(at) {
        assert text == Itoa(at);
        ItoaCanonical(at);
        AtoiItoa(at);
      }
      if Canonical(text) {
        ItoaAtoi(text);
        assert outcome == Failure(Atoi(text)).Text();
      }
    }
  }

  lemma FailureText(at: nat)
    ensures var text := Failure(at).Text();
            FAILED + " " <= text && text[|FAILED + " "|..] == Itoa(at) && !IsRefusal(text)
  {
    var text := Failure(at).Text();
    assert text[0] == 'f' && REFUSED_NOT_READY[0] == 'r' && REFUSED_MERGE[0] == 'r' && VOIDED_WITHDRAWN[0] == 'v';
    assert text[..|FAILED + " "|] == FAILED + " ";
  }
}
