/** What a landing works on (integrator/refs.go): a repository's refs and
    objects, the steps they may take, and the invariant the records keep. */
module LandingStore {
  import opened Wrappers

  // Refs.

  const HEADS := "refs/heads/"
  const REQUESTS := "refs/the-valley/integration-requests/"
  const OUTCOMES := "refs/the-valley/integration-outcomes/"
  const INPUTS := "refs/the-valley/integration-inputs/"
  const LANDINGS := "refs/the-valley/integration-landings/"
  const ATTESTATIONS := "refs/the-valley/attestations/"

  /** A request to land a head on a branch, named for its change. */
  datatype Request = Request(branch: string, change: string, head: string) {
    function Ref(): string { REQUESTS + branch + "/" + change }
    function Target(): string { HEADS + branch }
    function MemoRef(): string { OUTCOMES + branch + "/" + change }
    function InputsRef(): string { INPUTS + branch + "/" + change }
    function LandingRef(): string { LandingRefOf(branch, head) }
  }

  function LandingRefOf(branch: string, head: string): string {
    LANDINGS + branch + "/" + head
  }

  predicate Starts(ref: string, prefix: string) {
    prefix <= ref
  }

  /** No ref opens two of the namespaces. */
  lemma NamespacesApart(ref: string)
    ensures Starts(ref, LANDINGS) ==> !Starts(ref, HEADS) && !Starts(ref, REQUESTS) && !Starts(ref, OUTCOMES)
                                      && !Starts(ref, INPUTS) && !Starts(ref, ATTESTATIONS)
    ensures Starts(ref, HEADS) ==> !Starts(ref, REQUESTS) && !Starts(ref, OUTCOMES) && !Starts(ref, INPUTS)
                                   && !Starts(ref, ATTESTATIONS)
    ensures Starts(ref, REQUESTS) ==> !Starts(ref, OUTCOMES) && !Starts(ref, INPUTS) && !Starts(ref, ATTESTATIONS)
    ensures Starts(ref, OUTCOMES) ==> !Starts(ref, INPUTS)
  {
    assert HEADS[5] == 'h' && LANDINGS[5] == REQUESTS[5] == OUTCOMES[5] == INPUTS[5] == ATTESTATIONS[5] == 't';
    assert LANDINGS[16] == REQUESTS[16] == OUTCOMES[16] == INPUTS[16] == 'i' && ATTESTATIONS[16] == 'a';
    assert LANDINGS[28] == 'l' && REQUESTS[28] == 'r' && OUTCOMES[28] == 'o' && INPUTS[28] == 'i';
  }

  /** A landing record's ref names its branch and its head. */
  lemma LandingRefIsOne(b0: string, h0: string, b1: string, h1: string)
    requires LandingRefOf(b0, h0) == LandingRefOf(b1, h1) && '/' !in h0 && '/' !in h1
    ensures b0 == b1 && h0 == h1
  {
    var a0, a1 := LandingRefOf(b0, h0), LandingRefOf(b1, h1);
    var n := |LANDINGS|;
    var s0, s1 := b0 + "/" + h0, b1 + "/" + h1;
    assert a0 == LANDINGS + s0 && a1 == LANDINGS + s1;
    assert s0 == a0[n..] == a1[n..] == s1;
    LastSlash(b0, h0, b1, h1);
  }

  lemma LastSlash(b0: string, h0: string, b1: string, h1: string)
    requires b0 + "/" + h0 == b1 + "/" + h1 && '/' !in h0 && '/' !in h1
    ensures b0 == b1 && h0 == h1
  {
    var s, t := b0 + "/" + h0, b1 + "/" + h1;
    assert s[|b0|] == '/' && t[|b1|] == '/';
    assert forall k :: |b0| < k < |s| ==> s[k] == h0[k - |b0| - 1];
    assert forall k :: |b1| < k < |t| ==> t[k] == h1[k - |b1| - 1];
    assert b0 == s[..|b0|] && b1 == t[..|b1|];
    assert h0 == s[|b0| + 1..] && h1 == t[|b1| + 1..];
  }

  // Objects.

  type Notes = map<string, string>

  /** A commit, a landing record's commit, a blob, or an evidence ref's tree. */
  datatype Object =
    | Commit(parents: seq<string>, tree: string, about: string)
    | Record(landed: string, request: string, head: string)
    | Blob(text: string)
    | NoteTree(notes: Notes)

  datatype Store = Store(refs: map<string, string>, objects: map<string, Object>)

  /** Every object is under its own ID, and every ref names an object. */
  ghost predicate IsStore(hash: Object -> string, s: Store) {
    && (forall id :: id in s.objects ==> id == hash(s.objects[id]))
    && (forall ref :: ref in s.refs ==> s.refs[ref] in s.objects)
  }

  /** IDs are names: no two objects share one, and none holds a slash. */
  ghost predicate IsHash(hash: Object -> string) {
    && (forall a, b :: hash(a) == hash(b) ==> a == b)
    && (forall a :: '/' !in hash(a))
  }

  // Chains.

  /** A line of commits from one down to another, each a parent of the last. */
  ghost predicate IsLine(objects: map<string, Object>, line: seq<string>) {
    && line != []
    && forall i :: 0 <= i < |line| - 1 ==> line[i] in objects && objects[line[i]].Commit? && line[i + 1] in objects[line[i]].parents
  }

  ghost predicate OnChain(objects: map<string, Object>, commit: string, tip: string) {
    exists line :: IsLine(objects, line) && line[0] == tip && line[|line| - 1] == commit
  }

  lemma OnOwnChain(objects: map<string, Object>, c: string)
    ensures OnChain(objects, c, c)
  {
    assert IsLine(objects, [c]);
  }

  lemma OnChildsChain(objects: map<string, Object>, c: string, tip: string, child: string)
    requires OnChain(objects, c, tip) && child in objects && objects[child].Commit? && tip in objects[child].parents
    ensures OnChain(objects, c, child)
  {
    var line :| IsLine(objects, line) && line[0] == tip && line[|line| - 1] == c;
    assert IsLine(objects, [child] + line);
  }

  lemma OnLongerChain(objects: map<string, Object>, c: string, mid: string, tip: string)
    requires OnChain(objects, c, mid) && OnChain(objects, mid, tip)
    ensures OnChain(objects, c, tip)
  {
    var lower :| IsLine(objects, lower) && lower[0] == mid && lower[|lower| - 1] == c;
    var upper :| IsLine(objects, upper) && upper[0] == tip && upper[|upper| - 1] == mid;
    var line := upper + lower[1..];
    forall i | 0 <= i < |line| - 1
      ensures line[i] in objects && objects[line[i]].Commit? && line[i + 1] in objects[line[i]].parents
    {
      if i < |upper| - 1 {
        assert line[i] == upper[i] && line[i + 1] == upper[i + 1];
      } else {
        assert line[i] == lower[i - (|upper| - 1)] && line[i + 1] == lower[i - (|upper| - 1) + 1];
      }
    }
    assert IsLine(objects, line);
    assert line[|line| - 1] == c;
  }

  ghost predicate Keeps(objects: map<string, Object>, more: map<string, Object>) {
    forall id :: id in objects ==> id in more && more[id] == objects[id]
  }

  lemma StillOnChain(objects: map<string, Object>, more: map<string, Object>, c: string, tip: string)
    requires OnChain(objects, c, tip) && Keeps(objects, more)
    ensures OnChain(more, c, tip)
  {
    var line :| IsLine(objects, line) && line[0] == tip && line[|line| - 1] == c;
    assert IsLine(more, line);
  }

  // Steps.

  /** Anyone else's step: it writes no landing record and only extends a
      branch; every other ref it may create, move or delete. */
  ghost predicate OthersMay(s: Store, t: Store) {
    && Keeps(s.objects, t.objects)
    && (forall ref :: Starts(ref, LANDINGS) ==> At(t, ref) == At(s, ref))
    && (forall ref :: ref in s.refs && Starts(ref, HEADS) ==> ref in t.refs && OnChain(t.objects, s.refs[ref], t.refs[ref]))
  }

  function At(s: Store, ref: string): Option<string> {
    if ref in s.refs then Some(s.refs[ref]) else None
  }

  /** The four things a judgement is about. */
  datatype Judged = Judged(head: string, tip: string, evidence: string, inputs: string)

  /** One landing: the request, what was judged, the commit the target moves
      to, the evidence it adds by ref, and the outcome it records. */
  datatype Landing = Landing(request: Request, judged: Judged, commit: string, notes: map<string, Notes>, outcome: string)

  ghost predicate SoleParent(s: Store, commit: string, tip: string) {
    commit in s.objects && s.objects[commit].Commit? && s.objects[commit].parents == [tip]
  }

  function NotesAt(s: Store, oid: Option<string>): Notes {
    if oid.Some? && oid.value in s.objects && s.objects[oid.value].NoteTree? then s.objects[oid.value].notes else map[]
  }

  ghost predicate Names(s: Store, ref: string, o: Object) {
    ref in s.refs && s.refs[ref] in s.objects && s.objects[s.refs[ref]] == o
  }

  /** A landing's step: the target goes from the judged tip to a commit whose
      only parent is that tip; each evidence ref keeps every note it held that
      the landing does not write; the head's landing record names the commit;
      the outcome is recorded; and the request, if it still names the head, may
      go. Nothing else moves. */
  ghost predicate LandingMay(s: Store, t: Store, l: Landing) {
    var r := l.request;
    && Keeps(s.objects, t.objects) && r.head == l.judged.head
    && At(s, r.Target()) == Some(l.judged.tip) && At(t, r.Target()) == Some(l.commit)
    && SoleParent(t, l.commit, l.judged.tip)
    && Names(t, r.LandingRef(), Record(l.commit, r.change, r.head))
    && Names(t, r.MemoRef(), Blob(l.outcome))
    && (forall ref :: ref in l.notes ==> Names(t, ref, NoteTree(NotesAt(s, At(s, ref)) + l.notes[ref])))
    && (At(t, r.Ref()) == At(s, r.Ref()) || (At(s, r.Ref()) == Some(r.head) && At(t, r.Ref()) == None))
    && forall ref :: ref !in l.notes && ref !in {r.Target(), r.LandingRef(), r.MemoRef(), r.Ref()} ==> At(t, ref) == At(s, ref)
  }

  /** The step that records an answer, the outcome and the inputs it was reached
      under together: the inputs record names the outcome record's own blob. */
  ghost predicate AnswerMay(s: Store, t: Store, r: Request, outcome: string, inputs: string) {
    && Keeps(s.objects, t.objects)
    && Names(t, r.MemoRef(), Blob(outcome))
    && Names(t, r.InputsRef(), Blob(inputs + " " + t.refs[r.MemoRef()]))
    && forall ref :: ref !in {r.MemoRef(), r.InputsRef()} ==> At(t, ref) == At(s, ref)
  }

  datatype Step =
    | ByOthers
    | ByWriting
    | ByLanding(landing: Landing)
    | ByAnswer(request: Request, outcome: string, inputs: string)

  /** The evidence a landing adds goes to attestation refs. */
  ghost predicate IsLanding(l: Landing) {
    && '/' !in l.request.head
    && forall ref :: ref in l.notes ==> Starts(ref, ATTESTATIONS)
  }

  ghost predicate May(s: Store, t: Store, step: Step) {
    match step
    case ByOthers => OthersMay(s, t)
    case ByWriting => Keeps(s.objects, t.objects) && t.refs == s.refs
    case ByLanding(l) => IsLanding(l) && LandingMay(s, t, l)
    case ByAnswer(r, outcome, inputs) => AnswerMay(s, t, r, outcome, inputs)
  }

  // The invariant.

  datatype Landed = Landed(branch: string, head: string)

  /** Every head landed has a landing record, naming a commit that is on its
      branch. */
  ghost predicate AllRecorded(s: Store, landed: set<Landed>) {
    forall x :: x in landed ==> Recorded(s, x)
  }

  ghost predicate Recorded(s: Store, x: Landed) {
    && '/' !in x.head
    && LandingRefOf(x.branch, x.head) in s.refs
    && s.refs[LandingRefOf(x.branch, x.head)] in s.objects
    && var record := s.objects[s.refs[LandingRefOf(x.branch, x.head)]];
    && record.Record? && record.head == x.head
    && HEADS + x.branch in s.refs && OnChain(s.objects, record.landed, s.refs[HEADS + x.branch])
  }

  ghost function LandedBy(landed: set<Landed>, step: Step): set<Landed> {
    if step.ByLanding? then landed + {Landed(step.landing.request.branch, step.landing.request.head)} else landed
  }

  lemma OthersKeepRecord(s: Store, t: Store, x: Landed)
    requires OthersMay(s, t) && Recorded(s, x)
    ensures Recorded(t, x)
  {
    hide OnChain;
    var ref, head := LandingRefOf(x.branch, x.head), HEADS + x.branch;
    PrefixOf(LANDINGS, x.branch + "/" + x.head);
    assert LandingRefOf(x.branch, x.head) == LANDINGS + (x.branch + "/" + x.head);
    PrefixOf(HEADS, x.branch);
    assert At(t, ref) == At(s, ref);
    StillOnChain(s.objects, t.objects, s.objects[s.refs[ref]].landed, s.refs[head]);
    OnLongerChain(t.objects, s.objects[s.refs[ref]].landed, s.refs[head], t.refs[head]);
  }

  lemma PrefixOf(prefix: string, rest: string)
    ensures Starts(prefix + rest, prefix)
  {
  }

  lemma RefsApart(r: Request, x: Landed)
    ensures var ref, head := LandingRefOf(x.branch, x.head), HEADS + x.branch;
            && ref !in {r.Target(), r.MemoRef(), r.Ref(), r.InputsRef()} && !Starts(ref, ATTESTATIONS)
            && head !in {r.LandingRef(), r.MemoRef(), r.Ref(), r.InputsRef()} && !Starts(head, ATTESTATIONS)
            && (head == r.Target() ==> x.branch == r.branch)
  {
    var rest := r.branch + "/" + r.change;
    assert r.MemoRef() == OUTCOMES + rest && r.Ref() == REQUESTS + rest && r.InputsRef() == INPUTS + rest;
    assert LandingRefOf(x.branch, x.head) == LANDINGS + (x.branch + "/" + x.head);
    assert r.LandingRef() == LANDINGS + (r.branch + "/" + r.head);
    NamespacesApart(LandingRefOf(x.branch, x.head));
    NamespacesApart(HEADS + x.branch);
    assert (HEADS + x.branch)[|HEADS|..] == x.branch && (HEADS + r.branch)[|HEADS|..] == r.branch;
  }

  /** A landing leaves every earlier record standing. */
  lemma LandingKeepsRecord(s: Store, t: Store, l: Landing, x: Landed)
    requires IsLanding(l) && LandingMay(s, t, l) && Recorded(s, x)
    ensures Recorded(t, x)
  {
    hide OnChain, Starts, Request.Target, Request.MemoRef, Request.Ref, Request.InputsRef, Request.LandingRef, LandingRefOf;
    var r := l.request;
    var ref, head := LandingRefOf(x.branch, x.head), HEADS + x.branch;
    RefsApart(r, x);
    LandingRecorded(s, t, l);
    var landed := s.objects[s.refs[ref]].landed;
    if head == r.Target() {
      OnChildsChain(s.objects + t.objects, landed, l.judged.tip, l.commit) by {
        StillOnChain(s.objects, s.objects + t.objects, landed, s.refs[head]);
      }
      assert s.objects + t.objects == t.objects;
    } else {
      assert At(t, head) == At(s, head);
      StillOnChain(s.objects, t.objects, landed, s.refs[head]);
    }
    if ref != r.LandingRef() {
      assert At(t, ref) == At(s, ref);
    } else {
      assert ref == LandingRefOf(r.branch, r.head) by { RequestLandingRef(r); }
      LandingRefIsOne(x.branch, x.head, r.branch, r.head);
    }
  }

  lemma RequestLandingRef(r: Request)
    ensures r.LandingRef() == LandingRefOf(r.branch, r.head)
  {
  }

  /** What has landed is recorded. */
  lemma LandingRecorded(s: Store, t: Store, l: Landing)
    requires IsLanding(l) && LandingMay(s, t, l)
    ensures Recorded(t, Landed(l.request.branch, l.request.head))
  {
    OnOwnChain(t.objects, l.commit);
  }

  lemma WritingKeepsRecord(s: Store, t: Store, x: Landed)
    requires Keeps(s.objects, t.objects) && t.refs == s.refs && Recorded(s, x)
    ensures Recorded(t, x)
  {
    hide OnChain;
    StillOnChain(s.objects, t.objects, s.objects[s.refs[LandingRefOf(x.branch, x.head)]].landed, s.refs[HEADS + x.branch]);
  }

  lemma AnswerKeepsRecord(s: Store, t: Store, r: Request, outcome: string, inputs: string, x: Landed)
    requires AnswerMay(s, t, r, outcome, inputs) && Recorded(s, x)
    ensures Recorded(t, x)
  {
    hide OnChain, Starts, Request.Target, Request.MemoRef, Request.Ref, Request.InputsRef, Request.LandingRef, LandingRefOf;
    var ref, head := LandingRefOf(x.branch, x.head), HEADS + x.branch;
    RefsApart(r, x);
    assert At(t, ref) == At(s, ref) && At(t, head) == At(s, head);
    StillOnChain(s.objects, t.objects, s.objects[s.refs[ref]].landed, s.refs[head]);
  }

  lemma StepKeepsRecords(s: Store, t: Store, step: Step, landed: set<Landed>)
    requires May(s, t, step) && AllRecorded(s, landed)
    ensures AllRecorded(t, LandedBy(landed, step))
  {
    hide OthersMay, LandingMay, AnswerMay, Recorded, IsLanding;
    forall x | x in LandedBy(landed, step) ensures Recorded(t, x) {
      match step {
        case ByOthers => OthersKeepRecord(s, t, x);
        case ByWriting => WritingKeepsRecord(s, t, x);
        case ByAnswer(r, outcome, inputs) => AnswerKeepsRecord(s, t, r, outcome, inputs, x);
        case ByLanding(l) =>
          if x in landed { LandingKeepsRecord(s, t, l, x); } else { LandingRecorded(s, t, l); }
      }
    }
  }

  // Runs.

  datatype Moved = Moved(before: Store, step: Step, after: Store)

  /** Steps one after another, each allowed, from one store to another. */
  ghost predicate IsRun(start: Store, trace: seq<Moved>, now: Store) {
    && (forall i :: 0 <= i < |trace| ==> May(trace[i].before, trace[i].after, trace[i].step))
    && (forall i :: 0 <= i < |trace| - 1 ==> trace[i].after == trace[i + 1].before)
    && (if trace == [] then now == start else trace[0].before == start && trace[|trace| - 1].after == now)
  }

  ghost function EverLanded(trace: seq<Moved>): set<Landed> {
    if trace == [] then {} else LandedBy(EverLanded(trace[..|trace| - 1]), trace[|trace| - 1].step)
  }

  /** In every run, every head ever landed has a landing record that names a
      commit on its branch. */
  lemma {:induction false} EveryLandingIsRecorded(start: Store, trace: seq<Moved>, now: Store)
    requires IsRun(start, trace, now)
    ensures AllRecorded(now, EverLanded(trace))
  {
    hide May, Recorded, LandedBy;
    if trace != [] {
      var front, last := trace[..|trace| - 1], trace[|trace| - 1];
      EveryLandingIsRecorded(start, front, last.before);
      StepKeepsRecords(last.before, now, last.step, EverLanded(front));
    }
  }

  /** In every run, a branch only grows: what was once its tip stays on it. */
  lemma StepExtends(s: Store, t: Store, step: Step, branch: string)
    requires May(s, t, step) && HEADS + branch in s.refs
    ensures HEADS + branch in t.refs && OnChain(t.objects, s.refs[HEADS + branch], t.refs[HEADS + branch])
  {
    hide Request.MemoRef, Request.Ref, Request.InputsRef, Request.LandingRef, OnChain, Starts;
    var head := HEADS + branch;
    assert Starts(head, HEADS) by { PrefixOf(HEADS, branch); }
    OnOwnChain(t.objects, s.refs[head]);
    match step {
      case ByOthers =>
      case ByWriting =>
      case ByAnswer(r, _, _) =>
        RefsApart(r, Landed(branch, ""));
        assert At(t, head) == At(s, head);
      case ByLanding(l) =>
        RefsApart(l.request, Landed(branch, ""));
        if head == l.request.Target() {
          OnChildsChain(t.objects, l.judged.tip, l.judged.tip, l.commit);
        } else {
          assert At(t, head) == At(s, head);
        }
    }
  }

  lemma {:induction false} BranchesOnlyGrow(start: Store, trace: seq<Moved>, now: Store, branch: string)
    requires IsRun(start, trace, now) && HEADS + branch in start.refs
    ensures Keeps(start.objects, now.objects)
    ensures HEADS + branch in now.refs && OnChain(now.objects, start.refs[HEADS + branch], now.refs[HEADS + branch])
  {
    hide May, OnChain;
    var head := HEADS + branch;
    if trace == [] {
      OnOwnChain(now.objects, now.refs[head]);
    } else {
      var front, last := trace[..|trace| - 1], trace[|trace| - 1];
      BranchesOnlyGrow(start, front, last.before, branch);
      StepExtends(last.before, now, last.step, branch);
      StepKeepsObjects(last.before, now, last.step);
      StillOnChain(last.before.objects, now.objects, start.refs[head], last.before.refs[head]);
      OnLongerChain(now.objects, start.refs[head], last.before.refs[head], now.refs[head]);
    }
  }

  lemma StepKeepsObjects(s: Store, t: Store, step: Step)
    requires May(s, t, step)
    ensures Keeps(s.objects, t.objects)
  {
  }

  lemma OneMoreStep(start: Store, trace: seq<Moved>, now: Store, step: Step, next: Store)
    requires IsRun(start, trace, now) && May(now, next, step)
    ensures IsRun(start, trace + [Moved(now, step, next)], next)
  {
    hide May;
  }

  // Ref transactions.

  /** A ref's move in a transaction, with what it must be before; None is no ref. */
  datatype Update = Update(ref: string, new_: Option<string>, old_: Option<string>)

  /** Every ref is updated once, and is where the transaction expects it. */
  predicate Matches(s: Store, updates: seq<Update>) {
    && (forall i, j :: 0 <= i < j < |updates| ==> updates[i].ref != updates[j].ref)
    && (forall i :: 0 <= i < |updates| ==> At(s, updates[i].ref) == updates[i].old_)
  }

  /** The refs once a transaction has moved them. */
  function Applied(refs: map<string, string>, updates: seq<Update>): map<string, string>
    decreases updates
  {
    if updates == [] then refs
    else
      var u := updates[0];
      Applied(if u.new_.Some? then refs[u.ref := u.new_.value] else refs - {u.ref}, updates[1..])
  }

  lemma {:induction false} AppliedElsewhere(refs: map<string, string>, updates: seq<Update>, ref: string)
    decreases updates
    requires forall i :: 0 <= i < |updates| ==> updates[i].ref != ref
    ensures At(Store(Applied(refs, updates), map[]), ref) == At(Store(refs, map[]), ref)
  {
    if updates != [] {
      var u := updates[0];
      AppliedElsewhere(if u.new_.Some? then refs[u.ref := u.new_.value] else refs - {u.ref}, updates[1..], ref);
    }
  }

  lemma {:induction false} AppliedAt(refs: map<string, string>, updates: seq<Update>, k: nat)
    decreases updates
    requires k < |updates| && forall i, j :: 0 <= i < j < |updates| ==> updates[i].ref != updates[j].ref
    ensures At(Store(Applied(refs, updates), map[]), updates[k].ref) == updates[k].new_
  {
    var u := updates[0];
    var next := if u.new_.Some? then refs[u.ref := u.new_.value] else refs - {u.ref};
    if k == 0 {
      AppliedElsewhere(next, updates[1..], u.ref);
    } else {
      AppliedAt(next, updates[1..], k - 1);
    }
  }
}
