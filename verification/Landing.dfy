/** The landing (integrator/refs.go): handle, act, land, prepareLanding and
    apply, with everyone else's steps between each two of the integrator's own. */
module Landing {
  import opened Wrappers
  import opened Strings
  import opened LandingStore
  import opened LandingAnswer

  const LANDING_TRIES: nat := 3

  // What a landing plans.

  /** Each evidence ref goes from the tree it was read at to that tree's notes
      with the landing's own over them. */
  ghost predicate PlansNotes(s: Store, updates: seq<Update>, notes: map<string, Notes>) {
    && (forall i :: 0 <= i < |updates| ==> PlansNote(s, updates[i], notes))
    && (forall ref :: ref in notes ==> exists i :: 0 <= i < |updates| && updates[i].ref == ref)
  }

  ghost predicate PlansNote(s: Store, u: Update, notes: map<string, Notes>) {
    && u.ref in notes && u.new_.Some? && u.new_.value in s.objects
    && (u.old_.Some? ==> u.old_.value in s.objects)
    && s.objects[u.new_.value] == NoteTree(NotesAt(s, u.old_) + notes[u.ref])
  }

  ghost predicate PlansObject(s: Store, u: Update, ref: string, o: Object) {
    u.ref == ref && u.new_.Some? && u.new_.value in s.objects && s.objects[u.new_.value] == o
  }

  ghost predicate IsPlan(s: Store, updates: seq<Update>, l: LandingStore.Landing) {
    var r, m := l.request, |updates| - 3;
    && r.head == l.judged.head && SoleParent(s, l.commit, l.judged.tip)
    && m >= 0 && updates[0] == Update(r.Target(), Some(l.commit), Some(l.judged.tip))
    && var n := if updates[m + 2] == Update(r.Ref(), None, Some(r.head)) then m else m + 1;
    && n >= 1
    && PlansNotes(s, updates[1..n], l.notes)
    && PlansObject(s, updates[n], r.LandingRef(), Record(l.commit, r.change, r.head))
    && PlansObject(s, updates[n + 1], r.MemoRef(), Blob(l.outcome))
  }

  lemma StillPlanned(s: Store, t: Store, updates: seq<Update>, l: LandingStore.Landing)
    requires IsPlan(s, updates, l) && Keeps(s.objects, t.objects)
    ensures IsPlan(t, updates, l)
  {
    hide Request.Target, Request.MemoRef, Request.Ref, Request.InputsRef, Request.LandingRef;
  }

  /** A plan whose transaction goes through is a landing. */
  lemma PlanLands(s: Store, updates: seq<Update>, l: LandingStore.Landing)
    requires IsPlan(s, updates, l) && Matches(s, updates) && IsLanding(l)
    ensures LandingMay(s, Store(Applied(s.refs, updates), s.objects), l)
  {
    hide Request.Target, Request.MemoRef, Request.Ref, Request.InputsRef, Request.LandingRef, Applied, PlansNotes, Starts;
    var t := Store(Applied(s.refs, updates), s.objects);
    var r, m := l.request, |updates| - 3;
    var n := if updates[m + 2] == Update(r.Ref(), None, Some(r.head)) then m else m + 1;
    forall k | 0 <= k < |updates| ensures At(t, updates[k].ref) == updates[k].new_ {
      AppliedAt(s.refs, updates, k);
    }
    forall ref | forall i :: 0 <= i < |updates| ==> updates[i].ref != ref ensures At(t, ref) == At(s, ref) {
      AppliedElsewhere(s.refs, updates, ref);
    }
    assert Names(t, r.LandingRef(), Record(l.commit, r.change, r.head)) by { assert At(t, updates[n].ref) == updates[n].new_; }
    assert Names(t, r.MemoRef(), Blob(l.outcome)) by { assert At(t, updates[n + 1].ref) == updates[n + 1].new_; }
    forall ref | ref in l.notes ensures Names(t, ref, NoteTree(NotesAt(s, At(s, ref)) + l.notes[ref])) {
      var k := NotePlanned(s, updates, n, l.notes, ref);
      assert At(t, updates[k].ref) == updates[k].new_;
    }
    OnlyPlanned(s, updates, n, l);
    RequestApart(r);
    forall i | 0 <= i < n + 2 ensures updates[i].ref != r.Ref() {
      if 1 <= i < n { assert Starts(updates[i].ref, ATTESTATIONS); }
    }
    RequestPlanned(s, t, updates, n, l);
  }

  lemma NotePlanned(s: Store, updates: seq<Update>, n: nat, notes: map<string, Notes>, ref: string) returns (k: nat)
    requires 1 <= n <= |updates| && PlansNotes(s, updates[1..n], notes) && ref in notes
    ensures 1 <= k < n && updates[k].ref == ref && PlansNote(s, updates[k], notes)
  {
    var i :| 0 <= i < |updates[1..n]| && updates[1..n][i].ref == ref;
    k := i + 1;
    assert PlansNote(s, updates[1..n][i], notes);
  }

  lemma RequestApart(r: Request)
    ensures r.Ref() !in {r.Target(), r.LandingRef(), r.MemoRef()} && !Starts(r.Ref(), ATTESTATIONS)
  {
    hide Starts;
    var rest := r.branch + "/" + r.change;
    Nests(r);
    PrefixOf(OUTCOMES, rest);
    PrefixOf(REQUESTS, rest);
    PrefixOf(HEADS, r.branch);
    PrefixOf(LANDINGS, r.branch + "/" + r.head);
    NamespacesApart(r.Ref());
  }

  lemma Nests(r: Request)
    ensures r.MemoRef() == OUTCOMES + (r.branch + "/" + r.change) && r.Ref() == REQUESTS + (r.branch + "/" + r.change)
    ensures r.LandingRef() == LANDINGS + (r.branch + "/" + r.head)
  {
  }

  lemma OnlyPlanned(s: Store, updates: seq<Update>, n: nat, l: LandingStore.Landing)
    requires 1 <= n && n + 1 < |updates| <= n + 3 && PlansNotes(s, updates[1..n], l.notes)
    requires updates[0].ref == l.request.Target() && updates[n].ref == l.request.LandingRef() && updates[n + 1].ref == l.request.MemoRef()
    requires |updates| == n + 3 ==> updates[n + 2].ref == l.request.Ref()
    ensures forall i :: 1 <= i < n ==> updates[i].ref in l.notes
    ensures forall i :: 0 <= i < |updates| ==>
              updates[i].ref in l.notes || updates[i].ref in {l.request.Target(), l.request.LandingRef(), l.request.MemoRef(), l.request.Ref()}
  {
    hide Request.Target, Request.MemoRef, Request.Ref, Request.InputsRef, Request.LandingRef;
    forall i | 1 <= i < n ensures updates[i].ref in l.notes {
      assert PlansNote(s, updates[1..n][i - 1], l.notes);
    }
  }

  lemma RequestPlanned(s: Store, t: Store, updates: seq<Update>, n: nat, l: LandingStore.Landing)
    requires 1 <= n && n + 1 < |updates| <= n + 3 && Matches(s, updates)
    requires |updates| == n + 3 ==> updates[n + 2] == Update(l.request.Ref(), None, Some(l.request.head))
    requires forall k :: 0 <= k < |updates| ==> At(t, updates[k].ref) == updates[k].new_
    requires |updates| == n + 2 ==> At(t, l.request.Ref()) == At(s, l.request.Ref())
    ensures At(t, l.request.Ref()) == At(s, l.request.Ref())
            || (At(s, l.request.Ref()) == Some(l.request.head) && At(t, l.request.Ref()) == None)
  {
    hide Request.Target, Request.MemoRef, Request.Ref, Request.InputsRef, Request.LandingRef;
    if |updates| == n + 3 {
      assert At(t, updates[n + 2].ref) == updates[n + 2].new_;
    }
  }

  /** A plan deletes the request it lands. */
  predicate Deletes(updates: seq<Update>, r: Request) {
    Update(r.Ref(), None, Some(r.head)) in updates
  }

  /** A plan that goes through takes the request with it when it deletes it, and
      otherwise leaves it as it is. */
  lemma RequestAfter(s: Store, updates: seq<Update>, l: LandingStore.Landing)
    requires IsPlan(s, updates, l) && Matches(s, updates) && IsLanding(l)
    ensures At(Store(Applied(s.refs, updates), s.objects), l.request.Ref()) ==
            if Deletes(updates, l.request) then None else At(s, l.request.Ref())
  {
    hide Request.Target, Request.MemoRef, Request.Ref, Request.InputsRef, Request.LandingRef, Applied, PlansNotes, PlansObject, SoleParent, Starts;
    var r, m := l.request, |updates| - 3;
    var n := if updates[m + 2] == Update(r.Ref(), None, Some(r.head)) then m else m + 1;
    RequestApart(r);
    PlannedRefs(s, updates, n, l);
    OnlyPlanned(s, updates, n, l);
    forall i | 0 <= i < n + 2 ensures updates[i].ref != r.Ref() {
      if 1 <= i < n { assert Starts(updates[i].ref, ATTESTATIONS); }
    }
    if n == m {
      assert updates[n + 2] in updates;
      AppliedAt(s.refs, updates, n + 2);
    } else {
      AppliedElsewhere(s.refs, updates, r.Ref());
    }
  }

  lemma PlannedRefs(s: Store, updates: seq<Update>, n: nat, l: LandingStore.Landing)
    requires 1 <= n && n + 1 < |updates|
    requires PlansObject(s, updates[n], l.request.LandingRef(), Record(l.commit, l.request.change, l.request.head))
    requires PlansObject(s, updates[n + 1], l.request.MemoRef(), Blob(l.outcome))
    ensures updates[n].ref == l.request.LandingRef() && updates[n + 1].ref == l.request.MemoRef()
  {
    hide Request.MemoRef, Request.LandingRef;
  }

  /** A landing took the request it landed, if that still named the landed head when it
      was last read, and else left it where it was, and tells where it had moved. */
  ghost predicate Consumed(r: Request, requestNow: Option<string>, trace0: seq<Moved>, s0: Store, trace: seq<Moved>)
    requires trace != []
  {
    exists s :: Through(trace0, s0, trace, s) && ConsumedAs(r, At(s, r.Ref()), requestNow, trace[|trace| - 1])
  }

  ghost predicate ConsumedAs(r: Request, named: Option<string>, requestNow: Option<string>, step: Moved) {
    && requestNow == (if named == Some(r.head) then None else named)
    && At(step.after, r.Ref()) == if named == Some(r.head) then None else At(step.before, r.Ref())
  }

  lemma ConsumedOn(r: Request, requestNow: Option<string>, trace0: seq<Moved>, s0: Store, trace1: seq<Moved>, s1: Store, trace: seq<Moved>)
    requires Waited(trace0, s0, trace1, s1) && trace != [] && trace1 <= trace && Consumed(r, requestNow, trace1, s1, trace)
    ensures Consumed(r, requestNow, trace0, s0, trace)
  {
    hide Waited, Through, ConsumedAs, Request.Ref;
    var s :| Through(trace1, s1, trace, s) && ConsumedAs(r, At(s, r.Ref()), requestNow, trace[|trace| - 1]);
    WaitedThrough(trace0, s0, trace1, s1, trace, s);
  }

  /** The target was seen at another commit than the one judged. */
  ghost predicate TipMoved(l: LandingStore.Landing, trace0: seq<Moved>, s0: Store, trace: seq<Moved>) {
    exists s :: Through(trace0, s0, trace, s) && At(s, l.request.Target()) != Some(l.judged.tip)
  }

  lemma MovedOn(l: LandingStore.Landing, trace0: seq<Moved>, s0: Store, trace1: seq<Moved>, s1: Store, trace: seq<Moved>)
    requires Waited(trace0, s0, trace1, s1) && trace1 <= trace
    ensures TipMoved(l, trace1, s1, trace) ==> TipMoved(l, trace0, s0, trace)
  {
    hide Waited, Through, Request.Target;
    if s :| Through(trace1, s1, trace, s) && At(s, l.request.Target()) != Some(l.judged.tip) {
      WaitedThrough(trace0, s0, trace1, s1, trace, s);
    }
  }

  // The integrator.

  datatype Error = Failed

  /** Ref updates to be made together, and where the request has moved to, if it no
      longer names the landed head. */
  datatype Transaction = Transaction(updates: seq<Update>, requestNow: Option<string>)

  /** What handling a request comes to: its answer stands; the same answer was
      reached again; nothing was recorded; an answer was; or it landed. */
  datatype Handled =
    | Standing
    | Repeated
    | Unrecorded
    | Wrote(answer: Answer)
    | LandedIt(landing: LandingStore.Landing)

  function EvidenceRefs(refs: map<string, string>): map<string, string> {
    map ref | ref in refs && Starts(ref, ATTESTATIONS) :: refs[ref]
  }

  function TextAt(s: Store, ref: string): string {
    if ref in s.refs && s.refs[ref] in s.objects && s.objects[s.refs[ref]].Blob? then s.objects[s.refs[ref]].text else ""
  }

  /** The digest an inputs record gives, if it was written with an outcome. */
  function InputsIn(text: string, outcome: string): string {
    var space := IndexOf(text, ' ');
    if space == |text| || text[space + 1..] != outcome then "" else text[..space]
  }

  datatype LandResult = DidLand(requestNow: Option<string>) | Refused | NotLanded

  /** What a pass read of a request, each in a store of its own: the target's tip,
      the evidence refs, the outcome record's text, and the digest of its inputs
      record, told by the outcome record as it was a moment before; unread when
      either could not be read. */
  datatype Seen = Seen(
    tipAt: Store, evidenceAt: Store, refs: map<string, string>,
    memoAt: Store, last: string, outcomeAt: Store, inputsAt: Store, unread: bool, digest: string)

  /** Exactly the refs that attest to something, each with its object. */
  ghost predicate IsEvidence(s: Store, refs: map<string, string>) {
    && (forall ref :: ref in refs <==> ref in s.refs && ATTESTATIONS <= ref)
    && forall ref :: ref in refs ==> refs[ref] == s.refs[ref]
  }

  /** What was judged is what was read. */
  ghost predicate TellsJudged(seen: Seen, r: Request, j: Judged, fingerprint: map<string, string> -> string) {
    && At(seen.tipAt, r.Target()) == Some(j.tip)
    && IsEvidence(seen.evidenceAt, seen.refs) && j.evidence == fingerprint(seen.refs)
  }

  ghost predicate Tells(seen: Seen, r: Request) {
    && seen.last == TextAt(seen.memoAt, r.MemoRef()) && (At(seen.memoAt, r.MemoRef()).None? ==> seen.last == "")
    && IsDigest(seen, r)
  }

  /** A digest is read exactly when both records are there, could be read, and the
      inputs record is a word and the ID of the outcome record. */
  ghost predicate IsDigest(seen: Seen, r: Request) {
    var outcome := At(seen.outcomeAt, r.MemoRef());
    if seen.unread || outcome.None? || At(seen.inputsAt, r.InputsRef()).None? then seen.digest == ""
    else Bound(TextAt(seen.inputsAt, r.InputsRef()), outcome.value, seen.digest)
  }

  /** What an inputs record gives, held against an outcome record. */
  ghost predicate Bound(text: string, outcome: string, digest: string) {
    && (digest != "" ==> IsWord(digest) && text == digest + " " + outcome)
    && forall d :: d != "" && IsWord(d) && text == d + " " + outcome ==> digest == d
  }

  lemma InputsAreBound(text: string, outcome: string)
    ensures Bound(text, outcome, InputsIn(text, outcome))
  {
    var space := IndexOf(text, ' ');
    if space < |text| {
      assert text == text[..space] + " " + text[space + 1..];
      assert IsWord(text[..space]);
    }
    forall d | d != "" && IsWord(d) && text == d + " " + outcome ensures InputsIn(text, outcome) == d {
      InputsReadBack(d, outcome);
    }
  }

  /** The digest a request's inputs record gives, "" when there is none, it was
      written with another outcome, or it could not be read. */
  function DigestAt(unread: bool, outcomeAt: Store, inputsAt: Store, r: Request): string {
    var outcome := At(outcomeAt, r.MemoRef());
    if unread || outcome.None? || At(inputsAt, r.InputsRef()).None? then ""
    else InputsIn(TextAt(inputsAt, r.InputsRef()), outcome.value)
  }

  /** A store the run passed through from one place on. */
  ghost predicate Through(trace0: seq<Moved>, s0: Store, trace: seq<Moved>, s: Store) {
    s == s0 || exists k :: |trace0| <= k < |trace| && trace[k].after == s
  }

  ghost predicate SeenThrough(trace0: seq<Moved>, s0: Store, trace: seq<Moved>, seen: Seen) {
    && Through(trace0, s0, trace, seen.memoAt) && Through(trace0, s0, trace, seen.outcomeAt)
    && Through(trace0, s0, trace, seen.inputsAt)
    && Through(trace0, s0, trace, seen.tipAt) && Through(trace0, s0, trace, seen.evidenceAt)
  }

  lemma ThroughNow(start: Store, trace0: seq<Moved>, s0: Store, trace: seq<Moved>, s: Store)
    requires IsRun(start, trace0, s0) && IsRun(start, trace, s) && trace0 <= trace
    ensures Through(trace0, s0, trace, s)
  {
    hide May;
    if |trace| > |trace0| { assert trace[|trace| - 1].after == s; }
  }

  lemma ThroughOn(trace0: seq<Moved>, s0: Store, trace1: seq<Moved>, trace: seq<Moved>, s: Store)
    requires Through(trace0, s0, trace1, s) && trace0 <= trace1 <= trace
    ensures Through(trace0, s0, trace, s)
  {
    if s != s0 {
      var k :| |trace0| <= k < |trace1| && trace1[k].after == s;
      assert trace[k].after == s;
    }
  }

  lemma ThroughLater(trace0: seq<Moved>, s0: Store, trace1: seq<Moved>, s1: Store, trace: seq<Moved>, s: Store)
    requires Through(trace1, s1, trace, s) && Through(trace0, s0, trace, s1) && trace0 <= trace1 <= trace
    ensures Through(trace0, s0, trace, s)
  {
  }

  lemma SeenOn(trace0: seq<Moved>, s0: Store, trace1: seq<Moved>, trace: seq<Moved>, seen: Seen)
    requires SeenThrough(trace0, s0, trace1, seen) && trace0 <= trace1 <= trace
    ensures SeenThrough(trace0, s0, trace, seen)
  {
    hide Through;
    ThroughOn(trace0, s0, trace1, trace, seen.memoAt);
    ThroughOn(trace0, s0, trace1, trace, seen.outcomeAt);
    ThroughOn(trace0, s0, trace1, trace, seen.inputsAt);
    ThroughOn(trace0, s0, trace1, trace, seen.tipAt);
    ThroughOn(trace0, s0, trace1, trace, seen.evidenceAt);
  }

  /** From some step on, nobody but others moved a ref. */
  ghost predicate Quiet(trace: seq<Moved>, from: nat) {
    forall i :: from <= i < |trace| ==> trace[i].step.ByOthers? || trace[i].step.ByWriting?
  }

  /** Every landing is one the verdict on what was judged calls for. */
  ghost predicate AllDecided(decide: Judged -> string, trace: seq<Moved>) {
    forall i :: 0 <= i < |trace| && trace[i].step.ByLanding? ==> IsDecided(decide, trace[i].step.landing)
  }

  ghost predicate IsDecided(decide: Judged -> string, l: LandingStore.Landing) {
    decide(l.judged) == LAND && l.outcome == Memo(l.judged) + " " + LAND
  }

  /** Time went by with only others moving refs. */
  ghost predicate Waited(trace0: seq<Moved>, s0: Store, trace: seq<Moved>, s: Store) {
    && trace0 <= trace && Quiet(trace, |trace0|) && Keeps(s0.objects, s.objects)
    && if |trace| == |trace0| then s == s0 else trace[|trace| - 1].after == s
  }

  /** What a run passed through after a wait it passed through from before it. */
  lemma WaitedThrough(trace0: seq<Moved>, s0: Store, trace1: seq<Moved>, s1: Store, trace: seq<Moved>, s: Store)
    requires Waited(trace0, s0, trace1, s1) && trace1 <= trace && Through(trace1, s1, trace, s)
    ensures Through(trace0, s0, trace, s)
  {
    hide Quiet, Keeps;
    if s == s1 && |trace1| > |trace0| { assert trace[|trace1| - 1].after == s; }
  }

  lemma WaitedEnds(trace0: seq<Moved>, s0: Store, trace: seq<Moved>, s: Store)
    requires Waited(trace0, s0, trace, s)
    ensures Through(trace0, s0, trace, s)
  {
    hide Quiet, Keeps;
  }

  lemma WaitedOn(trace0: seq<Moved>, s0: Store, trace1: seq<Moved>, s1: Store, trace2: seq<Moved>, s2: Store)
    requires Waited(trace0, s0, trace1, s1) && Waited(trace1, s1, trace2, s2)
    ensures Waited(trace0, s0, trace2, s2)
  {
    forall i | |trace0| <= i < |trace2| ensures trace2[i].step.ByOthers? || trace2[i].step.ByWriting? {
      if i < |trace1| { assert trace2[i] == trace1[i]; }
    }
  }

  lemma WaitedIsLonger(trace0: seq<Moved>, s0: Store, trace: seq<Moved>, s: Store)
    requires Waited(trace0, s0, trace, s)
    ensures trace0 <= trace
  {
  }

  /** What was read in two stores on the way was read on the way. */
  lemma SeenNow(start: Store, trace0: seq<Moved>, s0: Store, trace1: seq<Moved>, s1: Store, trace: seq<Moved>, s: Store,
                r: Request, seen: Seen)
    requires IsRun(start, trace0, s0) && IsRun(start, trace1, s1) && IsRun(start, trace, s) && trace0 <= trace1 <= trace
    requires seen.memoAt == s1 && seen.inputsAt == s && Through(trace1, s1, trace, seen.outcomeAt)
    requires seen.last == TextAt(s1, r.MemoRef()) && (At(s1, r.MemoRef()).None? ==> seen.last == "") && seen.digest == DigestAt(seen.unread, seen.outcomeAt, s, r)
    requires Through(trace0, s0, trace1, seen.tipAt) && Through(trace0, s0, trace1, seen.evidenceAt)
    ensures Tells(seen, r) && SeenThrough(trace0, s0, trace, seen)
  {
    hide IsRun, TextAt, Request.MemoRef, Request.InputsRef, InputsIn, Bound, Through;
    var outcome := At(seen.outcomeAt, r.MemoRef());
    if outcome.Some? { InputsAreBound(TextAt(s, r.InputsRef()), outcome.value); }
    ThroughOn(trace0, s0, trace1, trace, seen.tipAt);
    ThroughOn(trace0, s0, trace1, trace, seen.evidenceAt);
    ThroughNow(start, trace0, s0, trace1, s1);
    ThroughNow(start, trace0, s0, trace, s);
    ThroughOn(trace0, s0, trace1, trace, s1);
    ThroughLater(trace0, s0, trace1, s1, trace, seen.outcomeAt);
  }

  lemma NoWait(trace: seq<Moved>, s: Store)
    ensures Waited(trace, s, trace, s)
  {
  }

  ghost predicate PlansFirst(s: Store, updates: seq<Update>, refs: seq<string>, notes: map<string, Notes>) {
    |updates| == |refs| && forall k :: 0 <= k < |refs| ==> updates[k].ref == refs[k] && PlansNote(s, updates[k], notes)
  }

  lemma PlansNone(s: Store, refs: seq<string>, notes: map<string, Notes>)
    ensures PlansFirst(s, [], refs[..0], notes)
  {
  }

  lemma PlansOneMore(trace0: seq<Moved>, s: Store, trace1: seq<Moved>, t: Store,
                     updates: seq<Update>, refs: seq<string>, u: Update, notes: map<string, Notes>)
    requires PlansFirst(s, updates, refs, notes) && Waited(trace0, s, trace1, t) && PlansNote(t, u, notes)
    ensures PlansFirst(t, updates + [u], refs + [u.ref], notes)
  {
    hide Quiet;
    forall k | 0 <= k < |refs| ensures PlansNote(t, updates[k], notes) {
      assert PlansNote(s, updates[k], notes);
    }
  }

  lemma PlansAll(s: Store, updates: seq<Update>, refs: seq<string>, notes: map<string, Notes>)
    requires PlansFirst(s, updates, refs, notes) && forall ref :: ref in refs <==> ref in notes
    ensures PlansNotes(s, updates, notes)
  {
    hide PlansNote;
    forall ref | ref in notes ensures exists i :: 0 <= i < |updates| && updates[i].ref == ref {
      var i :| 0 <= i < |refs| && refs[i] == ref;
      assert updates[i].ref == ref;
    }
  }

  /** An integrator over a repository others also write to. What others do, what
      the verdict is, whether a delta conflicts, the evidence fingerprint, what the
      records say of a request, read with its own record, and whether it brings a
      merge are arbitrary functions. */
  class Integrator {
    const hash: Object -> string
    const others: (Store, nat) -> Store
    const decide: Judged -> string
    const conflicts: Judged -> bool
    const evidence: Judged -> map<string, Notes>
    const fingerprint: map<string, string> -> string
    const notReady: (Store, Store, Request, string) -> bool
    const merges: (Request, string) -> bool

    var store: Store
    var ticks: nat
    var landings: nat
    ghost var start: Store
    ghost var trace: seq<Moved>
    // How many calls to the system have failed, transactions refused for a ref
    // that had moved among them.
    ghost var failures: nat

    ghost predicate Fits() {
      && IsHash(hash)
      && (forall s, n :: IsStore(hash, s) ==> OthersMay(s, others(s, n)) && IsStore(hash, others(s, n)))
      && (forall j :: decide(j) == LAND ==> !conflicts(j))
      && (forall j, ref :: ref in evidence(j) ==> Starts(ref, ATTESTATIONS))
    }

    ghost predicate Valid()
      reads this`store, this`start, this`trace
    {
      Fits() && IsStore(hash, store) && IsRun(start, trace, store) && AllDecided(decide, trace)
    }

    constructor (hash: Object -> string, others: (Store, nat) -> Store, decide: Judged -> string, conflicts: Judged -> bool,
                 evidence: Judged -> map<string, Notes>, fingerprint: map<string, string> -> string,
                 notReady: (Store, Store, Request, string) -> bool, merges: (Request, string) -> bool, s: Store)
      requires IsHash(hash) && IsStore(hash, s)
      requires forall s, n :: IsStore(hash, s) ==> OthersMay(s, others(s, n)) && IsStore(hash, others(s, n))
      requires forall j :: decide(j) == LAND ==> !conflicts(j)
      requires forall j, ref :: ref in evidence(j) ==> Starts(ref, ATTESTATIONS)
      ensures Valid() && store == start == s && trace == [] && landings == 0
    {
      this.hash, this.others, this.decide, this.conflicts := hash, others, decide, conflicts;
      this.evidence, this.fingerprint, this.notReady, this.merges := evidence, fingerprint, notReady, merges;
      store, ticks, landings := s, 0, 0;
      start, trace, failures := s, [], 0;
    }

    /** The records as the pass read them, with a request's own record as it was later,
        do or do not refuse it. */
    ghost predicate PassRefuses(index: Store, r: Request, tip: string, trace0: seq<Moved>, s0: Store, trace: seq<Moved>, refused: bool) {
      exists s :: Through(trace0, s0, trace, s) && notReady(index, s, r, tip) == refused
    }

    /** And all of them read again. */
    ghost predicate RecordsRefuse(r: Request, tip: string, trace0: seq<Moved>, s0: Store, trace: seq<Moved>, refused: bool) {
      exists a, s :: Through(trace0, s0, trace, a) && Through(trace0, s0, trace, s) && notReady(a, s, r, tip) == refused
    }

    /** What a request not landed comes to: a refusal that was read, or the verdict,
        reached under inputs that were. */
    ghost predicate IsOutcome(index: Store, r: Request, j: Judged, trace0: seq<Moved>, s0: Store, trace: seq<Moved>, outcome: string) {
      || (outcome == REFUSED_NOT_READY
          && (PassRefuses(index, r, j.tip, trace0, s0, trace, true) || RecordsRefuse(r, j.tip, trace0, s0, trace, true)))
      || (outcome == REFUSED_MERGE && merges(r, j.tip))
      || (outcome == decide(j) && decide(j) != LAND && j.inputs != UNREAD_INPUTS)
    }

    /** Nothing refused what landed: not the records as the pass read them, not all of
        them read again, and it brings no merge. */
    ghost predicate NothingRefused(index: Store, r: Request, tip: string, trace0: seq<Moved>, s0: Store, trace: seq<Moved>) {
      && PassRefuses(index, r, tip, trace0, s0, trace, false) && RecordsRefuse(r, tip, trace0, s0, trace, false)
      && !merges(r, tip)
    }

    lemma RefusesOn(index: Store, r: Request, tip: string, trace0: seq<Moved>, s0: Store, trace1: seq<Moved>, s1: Store,
                    trace2: seq<Moved>, trace: seq<Moved>, refused: bool)
      requires Waited(trace0, s0, trace1, s1) && trace1 <= trace2 <= trace
      ensures PassRefuses(index, r, tip, trace1, s1, trace2, refused) ==> PassRefuses(index, r, tip, trace0, s0, trace, refused)
      ensures RecordsRefuse(r, tip, trace1, s1, trace2, refused) ==> RecordsRefuse(r, tip, trace0, s0, trace, refused)
    {
      hide Waited, Through;
      forall s | Through(trace1, s1, trace2, s) ensures Through(trace0, s0, trace, s) {
        ThroughOn(trace1, s1, trace2, trace, s);
        WaitedThrough(trace0, s0, trace1, s1, trace, s);
      }
    }

    lemma OutcomeOn(index: Store, r: Request, j: Judged, trace0: seq<Moved>, s0: Store, trace1: seq<Moved>, s1: Store,
                    trace2: seq<Moved>, trace: seq<Moved>, outcome: string)
      requires Waited(trace0, s0, trace1, s1) && trace1 <= trace2 <= trace
      ensures IsOutcome(index, r, j, trace1, s1, trace2, outcome) ==> IsOutcome(index, r, j, trace0, s0, trace, outcome)
      ensures NothingRefused(index, r, j.tip, trace1, s1, trace2) ==> NothingRefused(index, r, j.tip, trace0, s0, trace)
    {
      hide PassRefuses, RecordsRefuse, Waited;
      RefusesOn(index, r, j.tip, trace0, s0, trace1, s1, trace2, trace, true);
      RefusesOn(index, r, j.tip, trace0, s0, trace1, s1, trace2, trace, false);
    }

    /** Whether a call to the system fails, which the environment decides. */
    method Fails() returns (failed: bool)
      modifies this`failures
      ensures failures == old(failures) + if failed then 1 else 0
    {
      failed := *;
      if failed { failures := failures + 1; }
    }

    /** Whether a transaction is refused, which is when a ref has moved from where it was
        read. */
    method Loses(updates: seq<Update>) returns (lost: bool)
      modifies this`failures
      ensures lost <==> !Matches(store, updates)
      ensures failures == old(failures) + if lost then 1 else 0
    {
      hide Matches;
      lost := !Matches(store, updates);
      if lost { failures := failures + 1; }
    }

    /** Whether an evidence ref names something that is no tree of notes. */
    method IsNoNotes(o: Object) returns (unread: bool)
      modifies this`failures
      ensures unread <==> !o.NoteTree?
      ensures failures == old(failures) + if unread then 1 else 0
    {
      unread := !o.NoteTree?;
      if unread { failures := failures + 1; }
    }

    /** One step of the repository. */
    method Move(next: Store, ghost step: Step)
      requires Valid() && May(store, next, step) && IsStore(hash, next)
      requires step.ByLanding? ==> IsDecided(decide, step.landing)
      modifies this`store, this`trace
      ensures Valid() && store == next && trace == old(trace) + [Moved(old(store), step, next)]
    {
      hide Fits, IsStore, May, IsRun, IsDecided;
      OneMoreStep(start, trace, store, step, next);
      trace := trace + [Moved(store, step, next)];
      store := next;
    }

    /** Whatever others do meanwhile. */
    method Others()
      requires Valid()
      modifies this`store, this`trace, this`ticks
      ensures Valid() && Waited(old(trace), old(store), trace, store)
      ensures store == others(old(store), old(ticks)) && ticks == old(ticks) + 1
    {
      hide IsHash, IsRun, AllDecided, OthersMay, IsStore;
      var next := others(store, ticks);
      OthersKeep(store, next);
      Move(next, ByOthers);
      ticks := ticks + 1;
    }

    lemma OthersKeep(s: Store, t: Store)
      requires OthersMay(s, t)
      ensures Keeps(s.objects, t.objects)
    {
    }

    /** Writes one object. */
    method Write(o: Object) returns (id: string)
      requires Valid()
      modifies this`store, this`trace
      ensures Valid() && Waited(old(trace), old(store), trace, store)
      ensures id in store.objects && store.objects[id] == o && store.refs == old(store.refs) && id == hash(o)
    {
      hide IsRun, AllDecided, OthersMay;
      id := hash(o);
      var next := Store(store.refs, store.objects[id := o]);
      Move(next, ByWriting);
    }

    /** Reads a ref, if it can be read. */
    method Resolve(ref: string) returns (r: Result<Option<string>, Error>)
      requires Valid()
      modifies this`store, this`trace, this`ticks, this`failures
      ensures Valid() && Waited(old(trace), old(store), trace, store)
      ensures r.Ok? ==> r.value == At(store, ref) && (r.value.Some? ==> r.value.value in store.objects)
      ensures if r.Err? then old(failures) < failures else failures == old(failures)
    {
      hide Fits, IsRun, AllDecided;
      Others();
      var unread := Fails();
      r := if unread then Err(Failed) else Ok(At(store, ref));
    }

    /** The trees the evidence refs move to, from what each ref holds. */
    method EvidenceUpdates(notes: map<string, Notes>) returns (r: Result<seq<Update>, Error>)
      requires Valid()
      modifies this`store, this`trace, this`ticks, this`failures
      ensures if r.Err? then old(failures) < failures else failures == old(failures)
      ensures Valid() && Waited(old(trace), old(store), trace, store)
      ensures r.Ok? ==> PlansNotes(store, r.value, notes)
    {
      hide Valid, Waited, PlansFirst, PlansNotes;
      var refs := Sorted(notes.Keys);
      var updates: seq<Update> := [];
      NoWait(trace, store);
      PlansNone(store, refs, notes);
      for i := 0 to |refs|
        invariant Valid() && Waited(old(trace), old(store), trace, store)
        invariant PlansFirst(store, updates, refs[..i], notes) && failures == old(failures)
      {
        ghost var before := (trace, store);
        assert refs[i] in refs;
        var u := EvidenceUpdate(refs[i], notes[refs[i]]);
        WaitedOn(old(trace), old(store), before.0, before.1, trace, store);
        if u.Err? { return Err(u.error); }
        PlansOneMore(before.0, before.1, trace, store, updates, refs[..i], u.value, notes);
        assert refs[..i + 1] == refs[..i] + [refs[i]];
        updates := updates + [u.value];
      }
      assert refs[..|refs|] == refs;
      PlansAll(store, updates, refs, notes);
      r := Ok(updates);
    }

    /** Plans an evidence ref's move to a tree of the notes it holds now, overlaid with
        the landing's. A tree the hook's bounds shut out is a failure. */
    method EvidenceUpdate(ref: string, added: Notes) returns (r: Result<Update, Error>)
      requires Valid()
      modifies this`store, this`trace, this`ticks, this`failures
      ensures if r.Err? then old(failures) < failures else failures == old(failures)
      ensures Valid() && Waited(old(trace), old(store), trace, store)
      ensures r.Ok? ==>
                var u := r.value;
                && u.ref == ref && u.new_.Some? && u.new_.value in store.objects && (u.old_.Some? ==> u.old_.value in store.objects)
                && store.objects[u.new_.value] == NoteTree(NotesAt(store, u.old_) + added)
    {
      hide Valid;
      var old_ := Resolve(ref);
      if old_.Err? { return Err(old_.error); }
      var blobs: Notes := map[];
      if old_.value.Some? {
        var tree := store.objects[old_.value.value];
        var unread := IsNoNotes(tree);
        if unread { return Err(Failed); }
        blobs := tree.notes;
      }
      blobs := blobs + added;
      var unreadable := Fails();
      if unreadable { return Err(Failed); }
      ghost var before := (trace, store);
      var top := Write(NoteTree(blobs));
      WaitedOn(old(trace), old(store), before.0, before.1, trace, store);
      r := Ok(Update(ref, Some(top), old_.value));
    }

    /** Plans a landing against the refs as they are now, writing the objects it needs
        and moving nothing. */
    method PrepareLanding(l: LandingStore.Landing) returns (r: Result<Transaction, Error>)
      requires Valid() && SoleParent(store, l.commit, l.judged.tip) && l.request.head == l.judged.head
      modifies this`store, this`trace, this`ticks, this`failures
      ensures if r.Err? then old(failures) < failures else failures == old(failures)
      ensures Valid() && Waited(old(trace), old(store), trace, store)
      ensures r.Ok? ==> IsPlan(store, r.value.updates, l)
      ensures r.Ok? ==> var now := At(store, l.request.Ref());
                        && (Deletes(r.value.updates, l.request) <==> now == Some(l.request.head))
                        && r.value.requestNow == if now == Some(l.request.head) then None else now
    {
      hide Valid, Waited, PlansNotes, PlansObject, IsPlan, Names, Keeps, Deletes;
      hide Request.Target, Request.MemoRef, Request.Ref, Request.LandingRef;
      var q := l.request;
      var target := Update(q.Target(), Some(l.commit), Some(l.judged.tip));
      var evidence := EvidenceUpdates(l.notes);
      if evidence.Err? { return Err(evidence.error); }
      ghost var s1 := (trace, store);
      var record := PlanObject(q.LandingRef(), Record(l.commit, q.change, q.head));
      WaitedOn(old(trace), old(store), s1.0, s1.1, trace, store);
      if record.Err? { return Err(record.error); }
      ghost var s2 := (trace, store);
      var outcome := PlanObject(q.MemoRef(), Blob(l.outcome));
      WaitedOn(old(trace), old(store), s2.0, s2.1, trace, store);
      if outcome.Err? { return Err(outcome.error); }
      ghost var s3 := (trace, store);
      var now := Resolve(q.Ref());
      WaitedOn(old(trace), old(store), s3.0, s3.1, trace, store);
      if now.Err? { return Err(now.error); }
      WaitedOn(s2.0, s2.1, s3.0, s3.1, trace, store);
      WaitedOn(s1.0, s1.1, s2.0, s2.1, trace, store);
      var deleted := if now.value == Some(q.head) then [Update(q.Ref(), None, Some(q.head))] else [];
      var updates := [target] + evidence.value + [record.value, outcome.value] + deleted;
      PlanAfter(old(trace), old(store), s1.0, s1.1, s2.0, s2.1, s3.0, s3.1, trace, store, l, evidence.value, record.value, outcome.value);
      PlanOf(store, l, evidence.value, record.value, outcome.value, deleted);
      PlanDeletes(store, l, evidence.value, record.value, outcome.value, deleted);
      r := Ok(Transaction(updates, if now.value.Some? && now.value != Some(q.head) then now.value else None));
    }

    /** Writes an object and plans a ref's move to it from where it is. */
    method PlanObject(ref: string, o: Object) returns (r: Result<Update, Error>)
      requires Valid()
      modifies this`store, this`trace, this`ticks, this`failures
      ensures if r.Err? then old(failures) < failures else failures == old(failures)
      ensures Valid() && Waited(old(trace), old(store), trace, store)
      ensures r.Ok? ==> PlansObject(store, r.value, ref, o)
    {
      hide Valid;
      var id := Write(o);
      ghost var before := (trace, store);
      var old_ := Resolve(ref);
      WaitedOn(old(trace), old(store), before.0, before.1, trace, store);
      r := if old_.Err? then Err(old_.error) else Ok(Update(ref, Some(id), old_.value));
    }

    /** Moves every ref of a plan in one step, or leaves the repository to others. */
    method Apply(updates: seq<Update>, ghost l: LandingStore.Landing) returns (ok: bool)
      requires Valid() && IsPlan(store, updates, l) && IsLanding(l) && IsDecided(decide, l)
      modifies this`store, this`trace, this`ticks, this`failures
      ensures failures == old(failures) + if ok then 0 else 1
      ensures Valid() && old(trace) <= trace && Keeps(old(store.objects), store.objects)
      ensures !ok ==> Waited(old(trace), old(store), trace, store)
      ensures ok ==> Once(old(trace), trace, ByLanding(l)) && trace[|trace| - 1].after == store
      ensures ok ==> At(store, l.request.Ref()) ==
                     if Deletes(updates, l.request) then None else At(trace[|trace| - 1].before, l.request.Ref())
    {
      hide Deletes, Request.Ref, Applied, Fits, IsRun, AllDecided, IsPlan, LandingMay, IsLanding, IsDecided, Matches, IsStore;
      Others();
      var locked := Fails();
      if locked { return false; }
      var lost := Loses(updates);
      if lost { return false; }
      StillPlanned(old(store), store, updates, l);
      PlanLands(store, updates, l);
      var next := Store(Applied(store.refs, updates), store.objects);
      LandedStore(store, updates, l);
      RequestAfter(store, updates, l);
      Move(next, ByLanding(l));
      ok := true;
    }

    lemma LandedStore(s: Store, updates: seq<Update>, l: LandingStore.Landing)
      requires IsStore(hash, s) && IsPlan(s, updates, l) && Matches(s, updates)
      ensures IsStore(hash, Store(Applied(s.refs, updates), s.objects))
    {
      hide Applied, SoleParent, PlansObject, PlansNotes;
      var t := Store(Applied(s.refs, updates), s.objects);
      forall k | 0 <= k < |updates| && updates[k].new_.Some? ensures updates[k].new_.value in s.objects {
        PlannedObject(s, updates, l, k);
      }
      forall ref | ref in t.refs ensures t.refs[ref] in t.objects {
        if k: nat :| k < |updates| && updates[k].ref == ref {
          AppliedAt(s.refs, updates, k);
        } else {
          AppliedElsewhere(s.refs, updates, ref);
        }
      }
    }

    /** Lands a judged head in one ref transaction, tried again while a record
        ref it read has moved, three times in all. */
    method Land(l: LandingStore.Landing) returns (r: LandResult, ghost tries: nat)
      requires Valid() && SoleParent(store, l.commit, l.judged.tip) && l.request.head == l.judged.head
      requires IsLanding(l) && IsDecided(decide, l)
      modifies this`store, this`trace, this`ticks, this`failures, this`landings
      ensures old(failures) <= failures
      ensures Valid() && old(trace) <= trace && tries <= LANDING_TRIES
      ensures r.DidLand? ==> Once(old(trace), trace, ByLanding(l)) && landings == old(landings) + 1
      ensures r.DidLand? ==> Consumed(l.request, r.requestNow, old(trace), old(store), trace)
      ensures r.DidLand? ==> RecordsRefuse(l.request, l.judged.tip, old(trace), old(store), trace, false)
      ensures !r.DidLand? ==> Waited(old(trace), old(store), trace, store) && landings == old(landings)
      ensures r.Refused? ==> RecordsRefuse(l.request, l.judged.tip, old(trace), old(store), trace, true)
      ensures r.Refused? ==> failures == old(failures)
      ensures r.NotLanded? ==> old(failures) < failures
      ensures r.NotLanded? ==>
                tries == LANDING_TRIES || old(failures) + tries < failures || TipMoved(l, old(trace), old(store), trace)
    {
      hide Valid, Waited, Once, IsPlan, SoleParent, IsLanding, IsDecided, Keeps, RecordsRefuse, Request.Target, Consumed;
      tries := 0;
      NoWait(trace, store);
      var unsigned := Fails();
      if unsigned { return NotLanded, tries; }
      var refused := FinalRefusal(l.request, l.judged.tip);
      WaitedIsLonger(old(trace), old(store), trace, store);
      if refused.Err? { return NotLanded, tries; }
      if refused.value { return Refused, tries; }
      StillSoleParent(old(trace), old(store), trace, store, l.commit, l.judged.tip);
      ghost var s0 := (trace, store);
      r, tries := TryToLand(l);
      RefusesOn(store, l.request, l.judged.tip, old(trace), old(store), old(trace), old(store), s0.0, trace, false);
      if r.DidLand? {
        WaitedThenOnce(old(trace), old(store), s0.0, s0.1, trace, ByLanding(l));
        ConsumedOn(l.request, r.requestNow, old(trace), old(store), s0.0, s0.1, trace);
      } else {
        WaitedOn(old(trace), old(store), s0.0, s0.1, trace, store);
        MovedOn(l, old(trace), old(store), s0.0, s0.1, trace);
      }
    }

    /** The rules that read records, once more. */
    method FinalRefusal(r: Request, tip: string) returns (refused: Result<bool, Error>)
      requires Valid()
      modifies this`store, this`trace, this`ticks, this`failures
      ensures Valid() && Waited(old(trace), old(store), trace, store)
      ensures if refused.Err? then old(failures) < failures else failures == old(failures)
      ensures refused.Ok? ==> RecordsRefuse(r, tip, old(trace), old(store), trace, refused.value)
    {
      hide Valid, Waited, Through;
      Others();
      var index := store;
      ghost var s1 := (trace, store);
      Others();
      WaitedEnds(old(trace), old(store), s1.0, s1.1);
      WaitedOn(old(trace), old(store), s1.0, s1.1, trace, store);
      WaitedEnds(old(trace), old(store), trace, store);
      WaitedIsLonger(old(trace), old(store), s1.0, s1.1);
      WaitedIsLonger(s1.0, s1.1, trace, store);
      ThroughOn(old(trace), old(store), s1.0, trace, s1.1);
      var unread := Fails();
      refused := if unread then Err(Failed) else Ok(notReady(index, store, r, tip));
    }

    method TryToLand(l: LandingStore.Landing) returns (r: LandResult, ghost tries: nat)
      requires Valid() && SoleParent(store, l.commit, l.judged.tip) && l.request.head == l.judged.head
      requires IsLanding(l) && IsDecided(decide, l)
      modifies this`store, this`trace, this`ticks, this`failures, this`landings
      ensures old(failures) <= failures
      ensures Valid() && old(trace) <= trace && tries <= LANDING_TRIES && !r.Refused?
      ensures r.DidLand? ==> Once(old(trace), trace, ByLanding(l)) && landings == old(landings) + 1
      ensures r.DidLand? ==> Consumed(l.request, r.requestNow, old(trace), old(store), trace)
      ensures r.NotLanded? ==> Waited(old(trace), old(store), trace, store) && landings == old(landings)
      ensures r.NotLanded? ==> old(failures) < failures
      ensures r.NotLanded? ==>
                tries == LANDING_TRIES || old(failures) + tries < failures || TipMoved(l, old(trace), old(store), trace)
    {
      hide Valid, Waited, Once, IsPlan, SoleParent, IsLanding, IsDecided, Keeps, Request.Target, Request.Ref, Deletes, Through;
      tries := 0;
      NoWait(trace, store);
      for attempt := 1 to LANDING_TRIES + 1
        invariant tries == attempt - 1
        invariant Valid() && Waited(old(trace), old(store), trace, store) && SoleParent(store, l.commit, l.judged.tip)
        invariant landings == old(landings) && old(failures) + tries <= failures
      {
        ghost var s0 := (trace, store);
        var tx := PrepareLanding(l);
        WaitedOn(old(trace), old(store), s0.0, s0.1, trace, store);
        WaitedIsLonger(old(trace), old(store), trace, store);
        if tx.Err? { return NotLanded, tries; }
        ghost var s1 := (trace, store);
        WaitedEnds(old(trace), old(store), s1.0, s1.1);
        var ok := Apply(tx.value.updates, l);
        tries := tries + 1;
        if ok {
          WaitedThenOnce(old(trace), old(store), s1.0, s1.1, trace, ByLanding(l));
          OnceIsLonger(s1.0, trace, ByLanding(l));
          ThroughOn(old(trace), old(store), s1.0, trace, s1.1);
          assert ConsumedAs(l.request, At(s1.1, l.request.Ref()), tx.value.requestNow, trace[|trace| - 1]);
          landings := landings + 1;
          return LandResult.DidLand(tx.value.requestNow), tries;
        }
        WaitedOn(old(trace), old(store), s1.0, s1.1, trace, store);
        WaitedOn(s0.0, s0.1, s1.0, s1.1, trace, store);
        ghost var s2 := (trace, store);
        var now := Resolve(l.request.Target());
        WaitedOn(old(trace), old(store), s2.0, s2.1, trace, store);
        WaitedOn(s0.0, s0.1, s2.0, s2.1, trace, store);
        WaitedIsLonger(old(trace), old(store), trace, store);
        WaitedEnds(old(trace), old(store), trace, store);
        if now.Ok? && now.value != Some(l.judged.tip) { return NotLanded, tries; }
        StillSoleParent(s0.0, s0.1, trace, store, l.commit, l.judged.tip);
      }
      WaitedIsLonger(old(trace), old(store), trace, store);
      r := NotLanded;
    }

    /** Judges one head. A verdict to land makes at most one landing, of exactly what was
        judged; any other outcome moves no ref. */
    method Act(r: Request, j: Judged) returns (outcome: Result<string, Error>, landed: Option<LandingStore.Landing>)
      requires Valid() && r.head == j.head && '/' !in r.head
      modifies this`store, this`trace, this`ticks, this`failures, this`landings
      ensures old(failures) <= failures
      ensures Valid()
      ensures landed.None? ==> Waited(old(trace), old(store), trace, store)
      ensures landed.Some? ==> Once(old(trace), trace, ByLanding(landed.value)) && landed.value.request == r && landed.value.judged == j
      ensures outcome.Ok? ==>
                if landed.Some? then outcome.value == LAND
                else
                  || (outcome.value == REFUSED_NOT_READY && RecordsRefuse(r, j.tip, old(trace), old(store), trace, true))
                  || (outcome.value == decide(j) && decide(j) != LAND)
      ensures landed.Some? ==> decide(j) == LAND && RecordsRefuse(r, j.tip, old(trace), old(store), trace, false)
      ensures outcome.Err? ==> landed.None? && old(failures) < failures
      ensures outcome.Ok? && landed.None? ==> failures == old(failures)
    {
      hide Waited, Once, IsStore, IsRun, AllDecided, Keeps, Memo, IsHash, OthersMay, RecordsRefuse, Consumed;
      landed := None;
      NoWait(trace, store);
      NotLanding();
      var ungathered := Fails();
      if ungathered { return Err(Failed), None; }
      if conflicts(j) { return Ok(decide(j)), None; }
      var tree: string, about: string := *, *;
      var commit := Write(Commit([j.tip], tree, about));
      if decide(j) != LAND { return Ok(decide(j)), None; }
      var l := LandingStore.Landing(r, j, commit, evidence(j), Memo(j) + " " + LAND);
      ghost var before := (trace, store);
      ghost var tries;
      var result: LandResult;
      result, tries := Land(l);
      RefusesOn(store, r, j.tip, old(trace), old(store), before.0, before.1, trace, trace, result.DidLand? == false);
      match result {
        case DidLand(_) =>
          WaitedThenOnce(old(trace), old(store), before.0, before.1, trace, ByLanding(l));
          return Ok(LAND), Some(l);
        case Refused =>
          WaitedOn(old(trace), old(store), before.0, before.1, trace, store);
          return Ok(REFUSED_NOT_READY), None;
        case NotLanded =>
          WaitedOn(old(trace), old(store), before.0, before.1, trace, store);
          return Err(Failed), None;
      }
    }

    /** The text of the outcome record as it stands when the call returns. */
    method ReadMemo(r: Request) returns (last: Result<string, Error>)
      requires Valid()
      modifies this`store, this`trace, this`ticks, this`failures
      ensures Valid() && Waited(old(trace), old(store), trace, store)
      ensures last.Ok? ==> last.value == TextAt(store, r.MemoRef()) && (At(store, r.MemoRef()).None? ==> last.value == "")
      ensures if last.Err? then old(failures) < failures else failures == old(failures)
    {
      hide Valid, Waited;
      var oid := Resolve(r.MemoRef());
      if oid.Err? { return Err(oid.error); }
      last := Ok(TextAt(store, r.MemoRef()));
    }

    /** The digest the last answer was written under: that of the inputs record
        now, held against the outcome record as it was a moment before. */
    method ReadInputs(r: Request) returns (digest: string, ghost unread: bool, ghost outcomeAt: Store)
      requires Valid()
      modifies this`store, this`trace, this`ticks, this`failures
      ensures Valid() && Waited(old(trace), old(store), trace, store)
      ensures Through(old(trace), old(store), trace, outcomeAt)
      ensures digest == DigestAt(unread, outcomeAt, store, r)
      ensures if unread then old(failures) < failures else failures == old(failures)
    {
      hide Fits, AllDecided, Waited, InputsIn, IsStore, IsRun, Through, Request.MemoRef, Request.InputsRef;
      var outcome := Resolve(r.MemoRef());
      WaitedIsLonger(old(trace), old(store), trace, store);
      ThroughNow(start, old(trace), old(store), trace, store);
      unread, outcomeAt := outcome.Err?, store;
      if outcome.Err? || outcome.value.None? { return "", unread, outcomeAt; }
      ghost var before := (trace, store);
      var oid := Resolve(r.InputsRef());
      WaitedIsLonger(before.0, before.1, trace, store);
      WaitedOn(old(trace), old(store), before.0, before.1, trace, store);
      ThroughOn(old(trace), old(store), before.0, trace, outcomeAt);
      unread := oid.Err?;
      if oid.Err? || oid.value.None? { return "", unread, outcomeAt; }
      digest := InputsIn(TextAt(store, r.InputsRef()), outcome.value.value);
    }

    /** Records an answer in one step: the outcome, and the inputs it was reached under,
        bound to it. Failing, it leaves both as they were. */
    method WriteAnswer(r: Request, value: string, digest: string) returns (ok: bool)
      requires Valid()
      modifies this`store, this`trace, this`ticks, this`failures
      ensures Valid()
      ensures ok ==> Once(old(trace), trace, ByAnswer(r, value, digest))
      ensures !ok ==> Waited(old(trace), old(store), trace, store)
      ensures failures == old(failures) + if ok then 0 else 1
    {
      hide Fits, IsRun, AllDecided, Waited, Keeps, IsDecided, Request.MemoRef, Request.InputsRef, Once;
      var outcome := Write(Blob(value));
      ghost var s1 := (trace, store);
      var record := Write(Blob(digest + " " + outcome));
      WaitedOn(old(trace), old(store), s1.0, s1.1, trace, store);
      ghost var s2 := (trace, store);
      Others();
      WaitedOn(s1.0, s1.1, s2.0, s2.1, trace, store);
      WaitedOn(old(trace), old(store), s2.0, s2.1, trace, store);
      StillWritten(s1.0, s1.1, trace, store, outcome);
      StillWritten(s2.0, s2.1, trace, store, record);
      var failed := Fails();
      if failed { return false; }
      AnswerApart(r);
      var next := Store(store.refs[r.MemoRef() := outcome][r.InputsRef() := record], store.objects);
      AnswerIsMade(store, next, r, value, digest, outcome, record);
      ghost var before := (trace, store);
      Move(next, ByAnswer(r, value, digest));
      OneStep(before.0, trace, ByAnswer(r, value, digest));
      WaitedThenOnce(old(trace), old(store), before.0, before.1, trace, ByAnswer(r, value, digest));
      ok := true;
    }

    lemma AnswerIsMade(s: Store, t: Store, r: Request, value: string, digest: string, outcome: string, record: string)
      requires IsStore(hash, s) && r.MemoRef() != r.InputsRef()
      requires outcome in s.objects && s.objects[outcome] == Blob(value)
      requires record in s.objects && s.objects[record] == Blob(digest + " " + outcome)
      requires t == Store(s.refs[r.MemoRef() := outcome][r.InputsRef() := record], s.objects)
      ensures May(s, t, ByAnswer(r, value, digest)) && IsStore(hash, t)
    {
      hide Request.MemoRef, Request.InputsRef;
    }

    /** Takes one request through a pass. What is judged is the target's tip and the
        evidence as they were read. Its last answer stands exactly when the records,
        as they were read, answer that judgement; otherwise the request is judged
        once, and what that comes to is written, lands, or, when a call to the
        system fails or there is no target, is lost. */
    method Handle(r: Request, index: Store, inputs: string, now: nat) returns (h: Handled, j: Judged, ghost seen: Option<Seen>)
      requires Valid() && '/' !in r.head
      modifies this`store, this`trace, this`ticks, this`failures, this`landings
      ensures old(failures) <= failures
      ensures Valid() && j.head == r.head && j.inputs == inputs
      ensures seen.None? ==> h.Unrecorded?
      ensures h.Unrecorded? ==> old(failures) < failures || (exists s :: Through(old(trace), old(store), trace, s) && At(s, r.Target()).None?)
      ensures seen.Some? && seen.value.unread ==> old(failures) < failures
      ensures seen.Some? ==> TellsJudged(seen.value, r, j, fingerprint)
      ensures seen.Some? ==> Tells(seen.value, r) && SeenThrough(old(trace), old(store), trace, seen.value)
      ensures seen.Some? ==> (h.Standing? <==> Answered(seen.value.last, Memo(j), seen.value.digest, inputs, now))
      ensures h.Standing? || h.Repeated? || h.Unrecorded? ==> Waited(old(trace), old(store), trace, store)
      ensures h.Repeated? ==> seen.Some? && seen.value.digest == inputs && Repeats(index, r, j, old(trace), old(store), trace, seen.value.last)
      ensures h.Wrote? ==> Once(old(trace), trace, ByAnswer(r, Answers(j, h.answer), inputs))
      ensures h.Wrote? && h.answer.Outcome? ==> IsOutcome(index, r, j, old(trace), old(store), trace, h.answer.outcome)
      ensures h.Wrote? && h.answer.Outcome? && seen.value.digest == inputs ==> seen.value.last != Memo(j) + " " + h.answer.outcome
      ensures h.LandedIt? ==> NothingRefused(index, r, j.tip, old(trace), old(store), trace)
      ensures h.Wrote? && h.answer.Failure? ==> h.answer.at == now && (inputs == UNREAD_INPUTS || old(failures) < failures)
      ensures h.LandedIt? ==> Once(old(trace), trace, ByLanding(h.landing)) && h.landing.request == r && h.landing.judged == j
      ensures h.LandedIt? ==> inputs != UNREAD_INPUTS
    {
      hide Valid, Waited, Once, Answered, Memo, Answers, Request.Target, Through, SeenThrough, Tells, TellsJudged, IsOutcome, NothingRefused, Repeats;
      var known: bool, last: string, digest: string;
      known, j, last, digest, seen := Look(r, inputs);
      if !known { return Unrecorded, j, None; }
      ghost var s4 := (trace, store);
      if Answered(last, Memo(j), digest, inputs, now) { return Standing, j, seen; }
      h := Decide(r, index, j, last, digest, now);
      WaitedIsLonger(old(trace), old(store), s4.0, s4.1);
      SeenOn(old(trace), old(store), s4.0, trace, seen.value);
      RepeatsOn(index, r, j, old(trace), old(store), s4.0, s4.1, trace, last);
      OutcomeOn(index, r, j, old(trace), old(store), s4.0, s4.1, trace, trace, if h.Wrote? && h.answer.Outcome? then h.answer.outcome else "");
      if h.Wrote? {
        WaitedThenOnce(old(trace), old(store), s4.0, s4.1, trace, ByAnswer(r, Answers(j, h.answer), inputs));
      } else if h.LandedIt? {
        WaitedThenOnce(old(trace), old(store), s4.0, s4.1, trace, ByLanding(h.landing));
      } else {
        WaitedOn(old(trace), old(store), s4.0, s4.1, trace, store);
      }
    }

    /** Reads what a judgement stands on: the target's tip, the evidence refs, and the
        records of the last answer. */
    method Look(r: Request, inputs: string)
      returns (known: bool, j: Judged, last: string, digest: string, ghost seen: Option<Seen>)
      requires Valid()
      modifies this`store, this`trace, this`ticks, this`failures
      ensures old(failures) <= failures && j.head == r.head && j.inputs == inputs
      ensures Valid() && Waited(old(trace), old(store), trace, store)
      ensures known <==> seen.Some?
      ensures !known ==> old(failures) < failures || (exists s :: Through(old(trace), old(store), trace, s) && At(s, r.Target()).None?)
      ensures known ==> TellsJudged(seen.value, r, j, fingerprint) && Tells(seen.value, r)
      ensures known ==> SeenThrough(old(trace), old(store), trace, seen.value)
      ensures known ==> seen.value.last == last && seen.value.digest == digest
      ensures known ==> if seen.value.unread then old(failures) < failures else failures == old(failures)
    {
      hide Fits, AllDecided, IsStore, IsRun, Waited, Keeps, Request.Target, Through, SeenThrough, Tells;
      known, j, last, digest, seen := false, Judged(r.head, "", "", inputs), "", "", None;
      var tip := Resolve(r.Target());
      WaitedIsLonger(old(trace), old(store), trace, store);
      ThroughNow(start, old(trace), old(store), trace, store);
      if tip.Err? || tip.value.None? { return; }
      ghost var s1 := (trace, store);
      Others();
      WaitedOn(old(trace), old(store), s1.0, s1.1, trace, store);
      WaitedIsLonger(s1.0, s1.1, trace, store);
      WaitedIsLonger(old(trace), old(store), trace, store);
      ThroughNow(start, old(trace), old(store), trace, store);
      var untold := Fails();
      if untold { return; }
      var refs := EvidenceRefs(store.refs);
      j := Judged(r.head, tip.value.value, fingerprint(refs), inputs);
      ghost var s2 := (trace, store);
      var memo := ReadMemo(r);
      WaitedOn(old(trace), old(store), s2.0, s2.1, trace, store);
      if memo.Err? { return; }
      last := memo.value;
      ghost var s3 := (trace, store);
      ghost var unread, outcomeAt;
      digest, unread, outcomeAt := ReadInputs(r);
      WaitedIsLonger(old(trace), old(store), s3.0, s3.1);
      WaitedIsLonger(s3.0, s3.1, trace, store);
      WaitedIsLonger(s2.0, s2.1, s3.0, s3.1);
      ThroughOn(old(trace), old(store), s1.0, s3.0, s1.1);
      ThroughOn(old(trace), old(store), s2.0, s3.0, s2.1);
      WaitedOn(old(trace), old(store), s3.0, s3.1, trace, store);
      seen := Some(Seen(s1.1, s2.1, refs, s3.1, last, outcomeAt, store, unread, digest));
      SeenNow(start, old(trace), old(store), s3.0, s3.1, trace, store, r, seen.value);
      known := true;
    }

    /** Judges a request whose answer does not stand, and records what it comes
        to, unless that is what the records say already. */
    method Decide(r: Request, index: Store, j: Judged, last: string, digest: string, now: nat) returns (h: Handled)
      requires Valid() && '/' !in r.head && j.head == r.head
      modifies this`store, this`trace, this`ticks, this`failures, this`landings
      ensures Valid() && !h.Standing? && old(trace) <= trace
      ensures old(failures) <= failures && (h.Unrecorded? ==> old(failures) < failures)
      ensures h.Wrote? && h.answer.Failure? ==> h.answer.at == now && (j.inputs == UNREAD_INPUTS || old(failures) < failures)
      ensures h.Repeated? || h.Unrecorded? ==> Waited(old(trace), old(store), trace, store)
      ensures h.Repeated? ==> digest == j.inputs && Repeats(index, r, j, old(trace), old(store), trace, last)
      ensures h.Wrote? ==> Once(old(trace), trace, ByAnswer(r, Answers(j, h.answer), j.inputs))
      ensures h.Wrote? && h.answer.Outcome? ==> IsOutcome(index, r, j, old(trace), old(store), trace, h.answer.outcome)
      ensures h.Wrote? && h.answer.Outcome? && digest == j.inputs ==> last != Memo(j) + " " + h.answer.outcome
      ensures h.LandedIt? ==> NothingRefused(index, r, j.tip, old(trace), old(store), trace)
      ensures h.LandedIt? ==> Once(old(trace), trace, ByLanding(h.landing)) && h.landing.request == r && h.landing.judged == j
      ensures h.LandedIt? ==> j.inputs != UNREAD_INPUTS
    {
      hide Valid, Waited, Once, IsRefusal, Memo, Answers, Keeps, IsOutcome, NothingRefused;
      var outcome, landed := Reach(r, index, j);
      if outcome.Ok? && outcome.value == LAND { return LandedIt(landed.value); }
      WaitedIsLonger(old(trace), old(store), trace, store);
      if outcome.Ok? && last == Memo(j) + " " + outcome.value && digest == j.inputs { return Repeated; }
      var answer := if outcome.Ok? then Outcome(outcome.value) else Failure(now);
      ghost var before := (trace, store);
      var ok := WriteAnswer(r, Answers(j, answer), j.inputs);
      if !ok {
        WaitedOn(old(trace), old(store), before.0, before.1, trace, store);
        WaitedIsLonger(old(trace), old(store), trace, store);
        return Unrecorded;
      }
      WaitedThenOnce(old(trace), old(store), before.0, before.1, trace, ByAnswer(r, Answers(j, answer), j.inputs));
      OnceIsLonger(before.0, trace, ByAnswer(r, Answers(j, answer), j.inputs));
      OnceIsLonger(old(trace), trace, ByAnswer(r, Answers(j, answer), j.inputs));
      NoWait(old(trace), old(store));
      OutcomeOn(index, r, j, old(trace), old(store), old(trace), old(store), before.0, trace, if outcome.Ok? then outcome.value else "");
      h := Wrote(answer);
    }

    ghost predicate Repeats(index: Store, r: Request, j: Judged, trace0: seq<Moved>, s0: Store, trace: seq<Moved>, last: string) {
      exists outcome :: last == Memo(j) + " " + outcome && IsOutcome(index, r, j, trace0, s0, trace, outcome)
    }

    lemma RepeatsOn(index: Store, r: Request, j: Judged, trace0: seq<Moved>, s0: Store, trace1: seq<Moved>, s1: Store,
                    trace: seq<Moved>, last: string)
      requires Waited(trace0, s0, trace1, s1) && trace1 <= trace
      ensures Repeats(index, r, j, trace1, s1, trace, last) ==> Repeats(index, r, j, trace0, s0, trace, last)
    {
      hide Waited, IsOutcome, Memo;
      if outcome :| last == Memo(j) + " " + outcome && IsOutcome(index, r, j, trace1, s1, trace, outcome) {
        OutcomeOn(index, r, j, trace0, s0, trace1, s1, trace, trace, outcome);
      }
    }

    /** What a request comes to this time, with its landing when it lands. */
    method Reach(r: Request, index: Store, j: Judged) returns (outcome: Result<string, Error>, landed: Option<LandingStore.Landing>)
      requires Valid() && '/' !in r.head && j.head == r.head
      modifies this`store, this`trace, this`ticks, this`failures, this`landings
      ensures Valid() && old(trace) <= trace && old(failures) <= failures
      ensures outcome.Ok? ==> (outcome.value == LAND <==> landed.Some?)
      ensures landed.None? ==> Waited(old(trace), old(store), trace, store)
      ensures landed.Some? ==> outcome.Ok? && Once(old(trace), trace, ByLanding(landed.value)) && landed.value.request == r && landed.value.judged == j
      ensures landed.Some? ==> NothingRefused(index, r, j.tip, old(trace), old(store), trace) && j.inputs != UNREAD_INPUTS
      ensures outcome.Ok? && landed.None? ==> IsOutcome(index, r, j, old(trace), old(store), trace, outcome.value)
      ensures outcome.Err? ==> j.inputs == UNREAD_INPUTS || old(failures) < failures
    {
      hide Valid, Waited, Once, IsRefusal, Keeps, Through, RecordsRefuse;
      NotLanding();
      landed := None;
      outcome := Refuse(index, r, j.tip);
      WaitedIsLonger(old(trace), old(store), trace, store);
      WaitedEnds(old(trace), old(store), trace, store);
      if outcome != Ok("") { return; }
      if j.inputs == UNREAD_INPUTS { return Err(Failed), None; }
      ghost var before := (trace, store);
      outcome, landed := Act(r, j);
      if landed.Some? {
        OnceIsLonger(before.0, trace, ByLanding(landed.value));
        WaitedThenOnce(old(trace), old(store), before.0, before.1, trace, ByLanding(landed.value));
        ThroughOn(old(trace), old(store), before.0, trace, before.1);
      } else {
        WaitedIsLonger(before.0, before.1, trace, store);
        WaitedOn(old(trace), old(store), before.0, before.1, trace, store);
      }
      RefusesOn(index, r, j.tip, old(trace), old(store), before.0, before.1, trace, trace, landed.None?);
    }

    /** An outcome that needs no judging, "" when there is none: what the records refuse,
        the request's own read again, and else a merge. */
    method Refuse(index: Store, r: Request, tip: string) returns (outcome: Result<string, Error>)
      requires Valid()
      modifies this`store, this`trace, this`ticks, this`failures
      ensures Valid() && Waited(old(trace), old(store), trace, store)
      ensures if outcome.Err? then old(failures) < failures else failures == old(failures)
      ensures outcome.Ok? ==>
                outcome.value == if notReady(index, store, r, tip) then REFUSED_NOT_READY else if merges(r, tip) then REFUSED_MERGE else ""
    {
      hide Valid, Waited;
      Others();
      var unread := Fails();
      if unread { return Err(Failed); }
      if notReady(index, store, r, tip) { return Ok(REFUSED_NOT_READY); }
      var unlisted := Fails();
      if unlisted { return Err(Failed); }
      outcome := Ok(if merges(r, tip) then REFUSED_MERGE else "");
    }
  }

  /** Exactly one step of the integrator's own, with only others' before it. */
  ghost predicate Once(trace0: seq<Moved>, trace: seq<Moved>, step: Step) {
    && |trace| > |trace0| && trace0 <= trace
    && trace[|trace| - 1].step == step
    && forall i :: |trace0| <= i < |trace| - 1 ==> trace[i].step.ByOthers? || trace[i].step.ByWriting?
  }

  lemma OnceIsLonger(trace0: seq<Moved>, trace: seq<Moved>, step: Step)
    requires Once(trace0, trace, step)
    ensures trace0 <= trace
  {
  }

  lemma WaitedThenOnce(trace0: seq<Moved>, s0: Store, trace1: seq<Moved>, s1: Store, trace: seq<Moved>, step: Step)
    requires Waited(trace0, s0, trace1, s1) && Once(trace1, trace, step)
    ensures Once(trace0, trace, step)
  {
    forall i | |trace0| <= i < |trace| - 1 ensures trace[i].step.ByOthers? || trace[i].step.ByWriting? {
      if i < |trace1| { assert trace[i] == trace1[i]; }
    }
  }

  lemma StillSoleParent(trace0: seq<Moved>, s0: Store, trace: seq<Moved>, s: Store, commit: string, tip: string)
    requires Waited(trace0, s0, trace, s) && SoleParent(s0, commit, tip)
    ensures SoleParent(s, commit, tip)
  {
  }

  lemma StillWritten(trace0: seq<Moved>, s0: Store, trace: seq<Moved>, s: Store, id: string)
    requires Waited(trace0, s0, trace, s) && id in s0.objects
    ensures id in s.objects && s.objects[id] == s0.objects[id]
  {
  }

  lemma OneStep(trace0: seq<Moved>, trace: seq<Moved>, step: Step)
    requires |trace| == |trace0| + 1 && trace0 <= trace && trace[|trace0|].step == step
    ensures Once(trace0, trace, step)
  {
  }

  lemma AnswerApart(r: Request)
    ensures r.MemoRef() != r.InputsRef()
  {
    hide Starts;
    assert r.MemoRef() == OUTCOMES + (r.branch + "/" + r.change) && r.InputsRef() == INPUTS + (r.branch + "/" + r.change);
    PrefixOf(OUTCOMES, r.branch + "/" + r.change);
    PrefixOf(INPUTS, r.branch + "/" + r.change);
    NamespacesApart(r.MemoRef());
  }

  /** Once an answer is written, the next pass reads it back, and stands on it
      exactly when none of the four has moved and it is not one to decide again. */
  lemma WrittenAnswerStands(s: Store, t: Store, r: Request, j: Judged, a: Answer, k: Judged, now: int)
    requires AnswerMay(s, t, r, Answers(j, a), j.inputs)
    requires AreWords(j) && AreWords(k) && IsWord(j.inputs) && (a.Outcome? ==> !(FAILED + " " <= a.outcome))
    ensures var last, lastInputs := TextAt(t, r.MemoRef()), InputsIn(TextAt(t, r.InputsRef()), t.refs[r.MemoRef()]);
            Answered(last, Memo(k), lastInputs, k.inputs, now) <==>
            j == k && match a case Outcome(o) => !IsRefusal(o) && k.inputs != UNREAD_INPUTS case Failure(at) => now - at < RETRY_AFTER
  {
    hide Answered, Memo, AreWords, IsRefusal, Request.MemoRef, Request.InputsRef, Answers;
    InputsReadBack(j.inputs, t.refs[r.MemoRef()]);
    AnswerStands(j, a, k, now);
  }

  /** Evidence that arrives reopens a request: when a ref that attests to something
      has moved since the answer on record was reached, and the fingerprint tells
      the two apart, the answer does not stand. */
  lemma EvidenceReopens(fingerprint: map<string, string> -> string, r: Request, j: Judged, seen: Seen, now: int,
                        reached: Store, refs: map<string, string>, k: Judged, a: Answer, ref: string)
    requires TellsJudged(seen, r, j, fingerprint) && AreWords(j) && AreWords(k)
    requires IsEvidence(reached, refs) && k.evidence == fingerprint(refs) && seen.last == Answers(k, a)
    requires ATTESTATIONS <= ref && At(reached, ref) != At(seen.evidenceAt, ref)
    requires fingerprint(refs) == fingerprint(seen.refs) ==> refs == seen.refs
    ensures !Answered(seen.last, Memo(j), seen.digest, j.inputs, now)
  {
    hide Answered, Memo, AreWords, Request.Target;
    assert refs != seen.refs by {
      assert (ref in refs) == (ref in reached.refs) && (ref in seen.refs) == (ref in seen.evidenceAt.refs);
    }
    if Answered(seen.last, Memo(j), seen.digest, j.inputs, now) {
      AnsweredExactly(seen.last, Memo(j), seen.digest, j.inputs, now);
      var outcome :| seen.last == Memo(j) + " " + outcome;
      MemoIsOne(k, a.Text(), j, outcome);
    }
  }

  lemma InputsReadBack(digest: string, outcome: string)
    requires IsWord(digest)
    ensures InputsIn(digest + " " + outcome, outcome) == digest
  {
    var text := digest + " " + outcome;
    assert text[|digest|] == ' ';
    assert forall i :: 0 <= i < |digest| ==> text[i] == digest[i] && digest[i] in digest;
    assert text[..|digest|] == digest && text[|digest| + 1..] == outcome;
  }

  lemma NotLanding()
    ensures IsRefusal(REFUSED_MERGE) && IsRefusal(REFUSED_NOT_READY) && !IsRefusal(LAND) && !IsRefusal("")
  {
  }

  lemma PlannedObject(s: Store, updates: seq<Update>, l: LandingStore.Landing, k: nat)
    requires IsPlan(s, updates, l) && k < |updates| && updates[k].new_.Some?
    ensures updates[k].new_.value in s.objects
  {
    hide Request.Target, Request.MemoRef, Request.Ref, Request.LandingRef;
    var m := |updates| - 3;
    var n := if updates[m + 2] == Update(l.request.Ref(), None, Some(l.request.head)) then m else m + 1;
    if k == 0 {
      assert updates[0].new_ == Some(l.commit) && l.commit in s.objects;
    } else if k < n {
      assert updates[1..n][k - 1] == updates[k] && PlansNote(s, updates[k], l.notes);
    } else if k == n {
      assert PlansObject(s, updates[k], l.request.LandingRef(), Record(l.commit, l.request.change, l.request.head));
    } else {
      assert k == n + 1 && PlansObject(s, updates[k], l.request.MemoRef(), Blob(l.outcome));
    }
  }

  lemma PlanAfter(t0: seq<Moved>, s0: Store, t1: seq<Moved>, s1: Store, t2: seq<Moved>, s2: Store, t3: seq<Moved>, s3: Store,
                  trace: seq<Moved>, s: Store, l: LandingStore.Landing, evidence: seq<Update>, record: Update, outcome: Update)
    requires Waited(t0, s0, trace, s) && Waited(t1, s1, trace, s) && Waited(t2, s2, trace, s) && Waited(t3, s3, trace, s)
    requires SoleParent(s0, l.commit, l.judged.tip) && PlansNotes(s1, evidence, l.notes)
    requires PlansObject(s2, record, l.request.LandingRef(), Record(l.commit, l.request.change, l.request.head))
    requires PlansObject(s3, outcome, l.request.MemoRef(), Blob(l.outcome))
    ensures SoleParent(s, l.commit, l.judged.tip) && PlansNotes(s, evidence, l.notes)
    ensures PlansObject(s, record, l.request.LandingRef(), Record(l.commit, l.request.change, l.request.head))
    ensures PlansObject(s, outcome, l.request.MemoRef(), Blob(l.outcome))
  {
    hide Quiet, Request.MemoRef, Request.LandingRef;
    forall i | 0 <= i < |evidence| ensures PlansNote(s, evidence[i], l.notes) {
      assert PlansNote(s1, evidence[i], l.notes);
    }
  }

  lemma PlanOf(s: Store, l: LandingStore.Landing, evidence: seq<Update>, record: Update, outcome: Update, deleted: seq<Update>)
    requires l.request.head == l.judged.head && SoleParent(s, l.commit, l.judged.tip) && PlansNotes(s, evidence, l.notes)
    requires PlansObject(s, record, l.request.LandingRef(), Record(l.commit, l.request.change, l.request.head))
    requires PlansObject(s, outcome, l.request.MemoRef(), Blob(l.outcome))
    requires deleted == [] || deleted == [Update(l.request.Ref(), None, Some(l.request.head))]
    ensures IsPlan(s, [Update(l.request.Target(), Some(l.commit), Some(l.judged.tip))] + evidence + [record, outcome] + deleted, l)
  {
    hide PlansNotes, SoleParent, Request.Target, Request.MemoRef, Request.Ref, Request.LandingRef;
    var updates := [Update(l.request.Target(), Some(l.commit), Some(l.judged.tip))] + evidence + [record, outcome] + deleted;
    var n := 1 + |evidence|;
    assert updates[1..n] == evidence && updates[n] == record && updates[n + 1] == outcome;
    if deleted != [] { assert updates[n + 2] == deleted[0]; }
  }

  lemma PlanDeletes(s: Store, l: LandingStore.Landing, evidence: seq<Update>, record: Update, outcome: Update, deleted: seq<Update>)
    requires PlansNotes(s, evidence, l.notes)
    requires PlansObject(s, record, l.request.LandingRef(), Record(l.commit, l.request.change, l.request.head))
    requires PlansObject(s, outcome, l.request.MemoRef(), Blob(l.outcome))
    requires deleted == [] || deleted == [Update(l.request.Ref(), None, Some(l.request.head))]
    ensures Deletes([Update(l.request.Target(), Some(l.commit), Some(l.judged.tip))] + evidence + [record, outcome] + deleted, l.request)
            <==> deleted != []
  {
    hide Request.Target, Request.MemoRef, Request.Ref, Request.LandingRef;
    forall u | u in evidence ensures u.new_.Some? {
      var i :| 0 <= i < |evidence| && evidence[i] == u;
      assert PlansNote(s, evidence[i], l.notes);
    }
    if deleted != [] { assert deleted[0] in deleted; }
  }
}
