/** The admission line (attest/admit.go): evaluations that share a memory
    budget, each with a reservation in one directory. */
module Admission {
  import opened Wrappers

  newtype int64 = x: int | -0x8000_0000_0000_0000 <= x < 0x8000_0000_0000_0000

  const MAX_INT64: int64 := 0x7FFF_FFFF_FFFF_FFFF

  /** What a reservation file holds: where in line a run stands, which run it is,
      and the bytes it asks for. */
  datatype Reservation = Reservation(order: int64, pid: nat, estimate: int64)

  /** A reservation file: what it holds, if that parses, and whether a run or
      its evaluation still holds its lock. */
  datatype File = File(data: Option<Reservation>, held: bool)

  type Line = map<nat, Reservation>

  /** Whether a file's contents are taken as the reservation of the run it is named
      after: a place that one more can follow, and a positive estimate. */
  predicate IsValid(r: Reservation, pid: nat) {
    r.pid == pid && 1 <= r.order < MAX_INT64 && r.estimate >= 1
  }

  /** A reservation that counts: it is held, and it is one for its pid. */
  predicate Counts(pid: nat, f: File) {
    pid > 0 && f.held && f.data.Some? && IsValid(f.data.value, pid)
  }

  ghost function LineOf(files: map<nat, File>): Line {
    map pid | pid in files && Counts(pid, files[pid]) :: files[pid].data.value
  }

  // Sums of estimates.

  ghost function Total(line: Line, pids: set<nat>): int
    requires pids <= line.Keys
    decreases |pids|
  {
    if pids == {} then 0
    else
      var pid :| pid in pids;
      line[pid].estimate as int + Total(line, pids - {pid})
  }

  lemma {:induction false} TotalWith(line: Line, pids: set<nat>, pid: nat)
    requires pids <= line.Keys && pid in pids
    ensures Total(line, pids) == line[pid].estimate as int + Total(line, pids - {pid})
    decreases |pids|
  {
    var first :| first in pids && Total(line, pids) == line[first].estimate as int + Total(line, pids - {first});
    if first != pid {
      TotalWith(line, pids - {first}, pid);
      TotalWith(line, pids - {pid}, first);
      assert pids - {first} - {pid} == pids - {pid} - {first};
    }
  }

  ghost predicate Positive(line: Line) {
    forall pid :: pid in line ==> line[pid].estimate >= 1
  }

  lemma {:induction false} TotalGrows(line: Line, some: set<nat>, all: set<nat>)
    requires some <= all <= line.Keys && Positive(line)
    ensures 0 <= Total(line, some) <= Total(line, all)
    decreases |all|
  {
    if all != {} {
      var pid :| pid in all;
      TotalWith(line, all, pid);
      if pid in some {
        TotalWith(line, some, pid);
        TotalGrows(line, some - {pid}, all - {pid});
      } else {
        TotalGrows(line, some, all - {pid});
      }
    }
  }

  lemma {:induction false} TotalElsewhere(a: Line, b: Line, pids: set<nat>)
    requires pids <= a.Keys && pids <= b.Keys && forall pid :: pid in pids ==> a[pid] == b[pid]
    ensures Total(a, pids) == Total(b, pids)
    decreases |pids|
  {
    if pids != {} {
      var pid :| pid in pids;
      TotalWith(a, pids, pid);
      TotalWith(b, pids, pid);
      TotalElsewhere(a, b, pids - {pid});
    }
  }

  // The rule.

  /** The reservations made before a place in line. */
  ghost function Before(line: Line, order: int64): set<nat> {
    set pid | pid in line && line[pid].order < order
  }

  /** The rule, in exact integers: a reservation may start when none of the line
      was made before it, or its estimate and all of theirs fit the budget. */
  ghost predicate MayStart(line: Line, mine: Reservation, budget: int64) {
    var before := Before(line, mine.order);
    before == {} || Total(line, before) + mine.estimate as int <= budget as int
  }

  /** A reservation of the line's that fits. */
  ghost predicate Fitting(line: Line, pid: nat, budget: int64)
    requires pid in line
  {
    MayStart(line, line[pid], budget)
  }

  ghost function SumBefore(others: seq<Reservation>, order: int64): int {
    if others == [] then 0
    else
      var last := others[|others| - 1];
      SumBefore(others[..|others| - 1], order) + if last.order < order then last.estimate as int else 0
  }

  lemma {:induction false} SumBeforeGrows(others: seq<Reservation>, order: int64, i: nat)
    requires i <= |others| && forall j :: 0 <= j < |others| ==> others[j].estimate >= 1
    ensures 0 <= SumBefore(others[..i], order) <= SumBefore(others, order)
    decreases |others|
  {
    if i < |others| {
      SumBeforeGrows(others[..|others| - 1], order, i);
      assert others[..|others| - 1][..i] == others[..i];
    } else {
      assert others[..i] == others;
      if others != [] { SumBeforeGrows(others[..i - 1], order, i - 1); assert others[..i - 1][..i - 1] == others[..i - 1]; }
    }
  }

  /** Every reservation but one run's, each once. */
  ghost predicate Lists(others: seq<Reservation>, line: Line, pid: nat) {
    ListsBut(others, line, pid, {})
  }

  /** Every reservation but those of some runs, each once. */
  ghost predicate ListsBut(others: seq<Reservation>, line: Line, pid: nat, todo: set<nat>) {
    && (forall i :: 0 <= i < |others| ==> IsListed(others[i], line, pid, todo))
    && (forall i, j :: 0 <= i < j < |others| ==> others[i].pid != others[j].pid)
    && (forall p :: p in line && p != pid && p !in todo ==> line[p] in others)
  }

  ghost predicate IsListed(r: Reservation, line: Line, pid: nat, todo: set<nat>) {
    r.pid in line && r.pid != pid && r.pid !in todo && line[r.pid] == r
  }

  lemma ListsOneMore(others: seq<Reservation>, line: Line, pid: nat, todo: set<nat>, p: nat)
    requires ListsBut(others, line, pid, todo) && p in todo && (p in line ==> line[p].pid == p)
    ensures p !in line || p == pid ==> ListsBut(others, line, pid, todo - {p})
    ensures p in line && p != pid ==> ListsBut(others + [line[p]], line, pid, todo - {p})
  {
    forall i | 0 <= i < |others| ensures IsListed(others[i], line, pid, todo - {p}) {
      assert IsListed(others[i], line, pid, todo);
    }
  }

  ghost function PidsBefore(others: seq<Reservation>, order: int64): set<nat> {
    set i | 0 <= i < |others| && others[i].order < order :: others[i].pid
  }

  lemma {:induction false} SumIsTotal(others: seq<Reservation>, line: Line, order: int64)
    requires forall i :: 0 <= i < |others| ==> others[i].pid in line && line[others[i].pid] == others[i]
    requires forall i, j :: 0 <= i < j < |others| ==> others[i].pid != others[j].pid
    ensures PidsBefore(others, order) <= line.Keys && SumBefore(others, order) == Total(line, PidsBefore(others, order))
  {
    if others != [] {
      var front, last := others[..|others| - 1], others[|others| - 1];
      SumIsTotal(front, line, order);
      assert forall i :: 0 <= i < |front| ==> front[i] == others[i];
      if last.order < order {
        assert others[|others| - 1].pid in PidsBefore(others, order);
        TotalWith(line, PidsBefore(others, order), last.pid);
        assert PidsBefore(others, order) - {last.pid} == PidsBefore(front, order);
      } else {
        assert PidsBefore(others, order) == PidsBefore(front, order);
      }
    }
  }

  lemma ListedBefore(others: seq<Reservation>, line: Line, pid: nat, order: int64)
    requires Lists(others, line, pid) && (pid in line ==> line[pid].order >= order)
    requires forall p :: p in line ==> line[p].pid == p
    ensures PidsBefore(others, order) == Before(line, order)
  {
    forall p | p in Before(line, order) ensures p in PidsBefore(others, order) {
      assert line[p] in others;
      var i :| 0 <= i < |others| && others[i] == line[p];
      assert IsListed(others[i], line, pid, {});
    }
    forall p | p in PidsBefore(others, order) ensures p in Before(line, order) {
      var i :| 0 <= i < |others| && others[i].order < order && others[i].pid == p;
      assert IsListed(others[i], line, pid, {});
    }
  }

  /** Whether a reservation may start, given the others: the exact rule, with
      nothing wrapped around, in whatever order they were read. */
  method Fits(others: seq<Reservation>, mine: Reservation, budget: int64) returns (fits: bool)
    requires forall i :: 0 <= i < |others| ==> others[i].estimate >= 1
    requires mine.estimate >= 1
    ensures fits <==> (forall i :: 0 <= i < |others| ==> others[i].order >= mine.order)
                      || SumBefore(others, mine.order) + mine.estimate as int <= budget as int
  {
    var ahead: int64, before: nat, over := 0, 0, false;
    for i := 0 to |others|
      invariant before == 0 <==> forall j :: 0 <= j < i ==> others[j].order >= mine.order
      invariant ahead == 0 || 0 < ahead <= budget
      invariant over ==> SumBefore(others[..i], mine.order) > budget as int
      invariant !over ==> ahead as int == SumBefore(others[..i], mine.order)
    {
      var r := others[i];
      assert others[..i + 1][..i] == others[..i];
      SumBeforeGrows(others[..i + 1], mine.order, i);
      if r.order < mine.order {
        before := before + 1;
        if r.estimate > budget - ahead {
          over := true;
        } else {
          ahead := ahead + r.estimate;
        }
      }
    }
    assert others[..|others|] == others;
    fits := before == 0 || (!over && mine.estimate <= budget - ahead);
  }

  /** Nobody later passes over a reservation: when a later one fits, so does
      every one before it. */
  lemma NoOvertaking(line: Line, first: nat, later: nat, budget: int64)
    requires Positive(line) && first in line && later in line && line[first].order < line[later].order
    requires Fitting(line, later, budget)
    ensures Fitting(line, first, budget)
  {
    var before, ahead := Before(line, line[first].order), Before(line, line[later].order);
    assert first in ahead && first !in before;
    assert before + {first} <= ahead;
    TotalGrows(line, before + {first}, ahead);
    TotalWith(line, before + {first}, first);
    assert before + {first} - {first} == before;
  }

  lemma {:induction false} SomeoneIsFirst(line: Line, pids: set<nat>) returns (head: nat)
    requires pids != {} && pids <= line.Keys
    ensures head in pids && forall p :: p in pids ==> line[head].order <= line[p].order
    decreases |pids|
  {
    var pid :| pid in pids;
    if pids == {pid} {
      head := pid;
    } else {
      var next := SomeoneIsFirst(line, pids - {pid});
      head := if line[pid].order <= line[next].order then pid else next;
    }
  }

  /** The head of the line fits, so the line never stands still. */
  lemma HeadFits(line: Line, budget: int64) returns (head: nat)
    requires line != map[]
    ensures head in line && Fitting(line, head, budget)
  {
    assert line.Keys != {};
    head := SomeoneIsFirst(line, line.Keys);
    assert Before(line, line[head].order) == {};
  }

  // The line as its runs change it.

  ghost predicate Distinct(line: Line) {
    forall p, q :: p in line && q in line && p != q ==> line[p].order != line[q].order
  }

  ghost predicate AllFit(line: Line, running: set<nat>, budget: int64) {
    running <= line.Keys && forall p :: p in running ==> Fitting(line, p, budget)
  }

  /** What the budget is for: the running evaluations' estimates fit it, or
      one evaluation runs alone. */
  lemma RunningFit(line: Line, running: set<nat>, budget: int64)
    requires Distinct(line) && Positive(line) && AllFit(line, running, budget) && running != {}
    ensures Total(line, running) <= budget as int || |running| == 1
  {
    var last := SomeoneIsLast(line, running);
    var before := Before(line, line[last].order);
    assert running - {last} <= before;
    if before == {} {
      assert running == {last};
    } else {
      TotalWith(line, running, last);
      TotalGrows(line, running - {last}, before);
    }
  }

  lemma {:induction false} SomeoneIsLast(line: Line, pids: set<nat>) returns (last: nat)
    requires pids != {} && pids <= line.Keys
    ensures last in pids && forall p :: p in pids ==> line[p].order <= line[last].order
    decreases |pids|
  {
    var pid :| pid in pids;
    if pids == {pid} {
      last := pid;
    } else {
      var next := SomeoneIsLast(line, pids - {pid});
      last := if line[pid].order >= line[next].order then pid else next;
    }
  }

  /** A reservation that leaves takes nobody's place. */
  lemma StillFits(line: Line, fewer: Line, p: nat, budget: int64)
    requires Positive(line) && fewer.Keys <= line.Keys && (forall q :: q in fewer ==> fewer[q] == line[q])
    requires p in fewer && Fitting(line, p, budget)
    ensures Fitting(fewer, p, budget)
  {
    var before, now := Before(line, line[p].order), Before(fewer, line[p].order);
    assert now <= before;
    TotalGrows(line, now, before);
    TotalElsewhere(fewer, line, now);
  }

  /** A reservation last in line is before none of the others. */
  lemma FitsBeforeTheLast(line: Line, more: Line, last: nat, p: nat, budget: int64)
    requires last !in line && more.Keys == line.Keys + {last} && (forall q :: q in line ==> more[q] == line[q])
    requires p in line && line[p].order < more[last].order && Fitting(line, p, budget)
    ensures Fitting(more, p, budget)
  {
    var before := Before(line, line[p].order);
    assert Before(more, line[p].order) == before;
    TotalElsewhere(more, line, before);
  }

  /** The reservations directory, and which evaluations run: those whose
      reservations count, by pid, and those whose do not. */
  class Directory {
    const budget: int64
    var files: map<nat, File>
    ghost var running: set<nat>
    ghost var outside: set<Reservation>

    /** Those that count fit, and only a place at the ceiling does not count. */
    ghost predicate Valid()
      reads this
    {
      && Distinct(LineOf(files)) && AllFit(LineOf(files), running, budget)
      && forall r :: r in outside ==> r.order == MAX_INT64
    }

    constructor (budget: int64)
      ensures Valid() && files == map[] && running == {} && outside == {} && this.budget == budget
    {
      this.budget := budget;
      files, running, outside := map[], {}, {};
    }

    /** Gives the line without one run's place, and drops from the directory exactly
        the other runs' files that do not count. */
    method Scan(pid: nat) returns (live: seq<Reservation>)
      requires Valid()
      modifies this`files
      ensures Valid() && LineOf(files) == LineOf(old(files)) && Lists(live, LineOf(files), pid)
      ensures forall p :: p in files ==> p in old(files) && files[p] == old(files)[p]
      ensures forall p :: p in old(files) ==> (p in files <==> p == 0 || p == pid || Counts(p, old(files)[p]))
    {
      hide Distinct, AllFit, ListsBut, LineOf;
      ghost var was, line := files, LineOf(files);
      live := [];
      var todo := files.Keys;
      NothingListed(files, pid);
      while todo != {}
        invariant LineOf(files) == line && todo <= files.Keys
        invariant forall p :: p in files ==> p in was && files[p] == was[p]
        invariant forall p :: p in was ==> (p in files <==> p in todo || p == 0 || p == pid || Counts(p, was[p]))
        invariant ListsBut(live, line, pid, todo)
        decreases |todo|
      {
        var n :| n in todo;
        var f := files[n];
        LineAt(files, n);
        ListsOneMore(live, line, pid, todo, n);
        todo := todo - {n};
        if n > 0 && n != pid {
          if Counts(n, f) {
            live := live + [f.data.value];
          } else {
            WithoutDead(files, n);
            files := files - {n};
          }
        }
      }
    }

    /** A run's reservation, made last in line, or nothing when a call to the
        system fails or the run's name is still held. */
    method Reserve(pid: nat, estimate: int64, fails: bool) returns (mine: Result<Reservation, ()>)
      requires Valid() && pid > 0
      modifies this`files
      ensures Valid()
      ensures mine.Err? <==> fails || (pid in old(files) && old(files)[pid].held)
      ensures forall p :: p in files && (p != pid || mine.Err?) ==> p in old(files) && files[p] == old(files)[p]
      ensures mine.Err? ==> LineOf(files) == LineOf(old(files))
      ensures mine.Ok? ==>
                var r := mine.value;
                && pid !in LineOf(old(files)) && r.pid == pid && r.estimate == estimate
                && pid in files && files[pid] == File(Some(r), true)
                && (forall p :: p in LineOf(old(files)) ==> LineOf(old(files))[p].order < r.order)
                && (r.order == 1 || exists p :: p in LineOf(old(files)) && LineOf(old(files))[p].order as int + 1 == r.order as int)
                && LineOf(files) == if r.order < MAX_INT64 && estimate >= 1 then LineOf(old(files))[pid := r] else LineOf(old(files))
    {
      hide LineOf, Distinct, AllFit, Fitting;
      var others := Scan(pid);
      ghost var line := LineOf(files);
      LineAt(files, pid);
      ghost var now := files;
      var order: int64 := 1;
      for i := 0 to |others|
        invariant files == now && 1 <= order && forall j :: 0 <= j < i ==> others[j].order < order
        invariant order == 1 || exists p :: p in line && line[p].order as int + 1 == order as int
      {
        assert IsListed(others[i], line, pid, {});
        LineAt(files, others[i].pid);
        if others[i].order + 1 > order { order := others[i].order + 1; }
      }
      if fails || (pid in files && files[pid].held) { return Err(()); }
      LastInLine(others, line, pid, order);
      var r := Reservation(order, pid, estimate);
      files := files[pid := File(Some(r), true)];
      Reserved(now, files, pid, r, running, budget);
      mine := Ok(r);
    }

    /** One look of a waiting run at the line: it starts exactly when the rule
        says it may. Its reservation counts unless its place is at the ceiling,
        and then nobody sees it run. A line that cannot be read releases it. */
    method Look(mine: Reservation, unread: bool) returns (admitted: Result<bool, ()>)
      requires Valid() && mine.pid > 0 && mine.estimate >= 1 && mine.pid !in running && mine !in outside
      requires mine.pid in LineOf(files) ==> LineOf(files)[mine.pid] == mine
      requires mine.order < MAX_INT64 ==> mine.pid in LineOf(files)
      modifies this`files, this`running, this`outside
      ensures Valid()
      ensures admitted.Err? <==> unread
      ensures forall p :: p in files ==> p in old(files) && files[p] == old(files)[p]
      ensures admitted.Ok? ==> LineOf(files) == LineOf(old(files)) && (admitted.value <==> MayStart(LineOf(files), mine, budget))
      ensures admitted.Err? ==> LineOf(files) == LineOf(old(files)) - {mine.pid}
      ensures running == if admitted == Ok(true) && mine.pid in LineOf(files) then old(running) + {mine.pid} else old(running)
      ensures outside == if admitted == Ok(true) && mine.pid !in LineOf(files) then old(outside) + {mine} else old(outside)
    {
      hide LineOf, Distinct, AllFit, MayStart, Lists;
      if unread {
        StillRunning(mine);
        Release(mine);
        return Err(());
      }
      var others := Scan(mine.pid);
      LineIsValid(files);
      ExactRule(others, LineOf(files), mine, budget);
      ListedEstimates(others, LineOf(files), mine.pid);
      var fits := Fits(others, mine, budget);
      if fits {
        if mine.pid in LineOf(files) {
          OneMoreRuns(LineOf(files), running, mine.pid, budget);
          running := running + {mine.pid};
        } else {
          outside := outside + {mine};
        }
      }
      admitted := Ok(fits);
    }

    lemma StillRunning(mine: Reservation)
      requires mine.pid !in running && mine !in outside
      ensures running - {mine.pid} == running && outside - {mine} == outside
    {
    }

    /** Removes a run's reservation, once its evaluation has ended. */
    method Release(mine: Reservation)
      requires Valid()
      modifies this`files, this`running, this`outside
      ensures Valid() && files == old(files) - {mine.pid} && LineOf(files) == LineOf(old(files)) - {mine.pid}
      ensures running == old(running) - {mine.pid} && outside == old(outside) - {mine}
    {
      hide Distinct, AllFit;
      Left(files, files - {mine.pid}, mine.pid, running, budget);
      files := files - {mine.pid};
      running := running - {mine.pid};
      outside := outside - {mine};
    }

    /** A run is killed, and its evaluation with it: the file is left, unheld. */
    method Killed(pid: nat)
      requires Valid() && pid in files
      modifies this`files, this`running, this`outside
      ensures Valid() && LineOf(files) == LineOf(old(files)) - {pid}
      ensures running == old(running) - {pid} && outside == set r | r in old(outside) && r.pid != pid
    {
      hide Distinct, AllFit;
      var dead := files[pid := files[pid].(held := false)];
      assert LineOf(dead) == LineOf(files) - {pid};
      Left(files, dead, pid, running, budget);
      files := dead;
      running := running - {pid};
      outside := set r | r in outside && r.pid != pid;
    }

    /** Anyone leaves a file that is no reservation. */
    method Littered(pid: nat, f: File)
      requires Valid() && pid !in LineOf(files) && !Counts(pid, f)
      modifies this`files
      ensures Valid() && LineOf(files) == LineOf(old(files))
    {
      hide Distinct, AllFit;
      assert LineOf(files[pid := f]) == LineOf(files);
      files := files[pid := f];
    }

    /** What holds whenever the lock is free: of the evaluations whose
        reservations count, which are all of them below the ceiling, those that
        run fit the budget, or one runs alone; and none passed over a
        reservation still waiting for room. */
    lemma Kept()
      requires Valid()
      ensures running != {} ==> Total(LineOf(files), running) <= budget as int || |running| == 1
      ensures forall first, later :: first in LineOf(files) && later in running && LineOf(files)[first].order < LineOf(files)[later].order
                                     ==> Fitting(LineOf(files), first, budget)
    {
      hide LineOf, Fitting, Distinct;
      LineIsValid(files);
      if running != {} { RunningFit(LineOf(files), running, budget); }
      forall first, later | first in LineOf(files) && later in running && LineOf(files)[first].order < LineOf(files)[later].order
        ensures Fitting(LineOf(files), first, budget)
      {
        NoOvertaking(LineOf(files), first, later, budget);
      }
    }
  }

  lemma OneMoreRuns(line: Line, running: set<nat>, pid: nat, budget: int64)
    requires AllFit(line, running, budget) && pid in line && Fitting(line, pid, budget)
    ensures AllFit(line, running + {pid}, budget)
  {
  }

  lemma ListedEstimates(others: seq<Reservation>, line: Line, pid: nat)
    requires Lists(others, line, pid) && Positive(line)
    ensures forall i :: 0 <= i < |others| ==> others[i].estimate >= 1
  {
    forall i | 0 <= i < |others| ensures others[i].estimate >= 1 {
      assert IsListed(others[i], line, pid, {});
    }
  }

  lemma NothingListed(files: map<nat, File>, pid: nat)
    ensures ListsBut([], LineOf(files), pid, files.Keys)
  {
  }

  lemma LineAt(files: map<nat, File>, p: nat)
    ensures p in LineOf(files) <==> p in files && Counts(p, files[p])
    ensures p in LineOf(files) ==> LineOf(files)[p] == files[p].data.value && IsValid(LineOf(files)[p], p)
  {
  }

  lemma WithoutDead(files: map<nat, File>, p: nat)
    requires p in files && !Counts(p, files[p])
    ensures LineOf(files - {p}) == LineOf(files)
  {
  }

  lemma LastInLine(others: seq<Reservation>, line: Line, pid: nat, order: int64)
    requires Lists(others, line, pid) && pid !in line && forall j :: 0 <= j < |others| ==> others[j].order < order
    ensures forall p :: p in line ==> line[p].order < order
  {
    forall p | p in line ensures line[p].order < order {
      assert line[p] in others;
    }
  }

  /** A reservation's place counts exactly when a later one could still follow
      it, and its estimate is at least one byte. */
  lemma Reserved(before: map<nat, File>, files: map<nat, File>, pid: nat, r: Reservation, running: set<nat>, budget: int64)
    requires pid > 0 && files == before[pid := File(Some(r), true)] && r.pid == pid && r.order >= 1
    requires pid !in LineOf(before) && forall p :: p in LineOf(before) ==> LineOf(before)[p].order < r.order
    requires Distinct(LineOf(before)) && AllFit(LineOf(before), running, budget)
    ensures LineOf(files) == if r.order < MAX_INT64 && r.estimate >= 1 then LineOf(before)[pid := r] else LineOf(before)
    ensures Distinct(LineOf(files)) && AllFit(LineOf(files), running, budget)
  {
    hide Fitting;
    var line, more := LineOf(before), LineOf(files);
    assert forall p :: p in more <==> p in line || (p == pid && r.order < MAX_INT64 && r.estimate >= 1);
    assert more == if r.order < MAX_INT64 && r.estimate >= 1 then line[pid := r] else line;
    forall p | p in running ensures Fitting(more, p, budget) {
      if pid in more { FitsBeforeTheLast(line, more, pid, p, budget); }
    }
  }

  /** At the ceiling the budget does not hold. After a place in line that only
      the ceiling can follow, two runs whose names nobody holds reserve and look,
      and both start: each fits beside the first, neither sees the other, and the
      three do not fit together. */
  method CeilingOverrunsBudget(d: Directory, first: Reservation, second: nat, third: nat, estimate: int64)
    requires d.Valid() && LineOf(d.files) == map[first.pid := first] && d.running == {first.pid} && d.outside == {}
    requires first.order == MAX_INT64 - 1 && second > 0 && third > 0
    requires first.pid != second && second != third && first.pid != third
    requires forall p :: p in {second, third} && p in d.files ==> !d.files[p].held
    requires first.estimate >= 1 && estimate >= 1
    requires first.estimate as int + estimate as int <= d.budget as int < first.estimate as int + 2 * estimate as int
    modifies d
    ensures d.running == {first.pid} && LineOf(d.files) == map[first.pid := first]
    ensures d.outside == {Reservation(MAX_INT64, second, estimate), Reservation(MAX_INT64, third, estimate)}
    ensures Total(LineOf(d.files), d.running) + 2 * estimate as int > d.budget as int
  {
    hide LineOf, Distinct, AllFit, MayStart, Directory.Valid;
    ghost var line := LineOf(d.files);
    assert first.pid in line && line[first.pid] == first;
    var a := d.Reserve(second, estimate, false);
    AtTheCeiling(line, first, a.value, d.budget);
    var started := d.Look(a.value, false);
    var b := d.Reserve(third, estimate, false);
    AtTheCeiling(line, first, b.value, d.budget);
    started := d.Look(b.value, false);
  }

  /** A reservation after the one place below the ceiling is at the ceiling,
      and may start when it fits beside that one. */
  lemma AtTheCeiling(line: Line, first: Reservation, r: Reservation, budget: int64)
    requires line == map[first.pid := first] && first.order == MAX_INT64 - 1 && first.order < r.order
    requires first.estimate as int + r.estimate as int <= budget as int
    ensures r.order == MAX_INT64 && MayStart(line, r, budget)
    ensures Total(line, {first.pid}) == first.estimate as int
  {
    assert Before(line, r.order) == {first.pid};
    TotalWith(line, {first.pid}, first.pid);
    assert {first.pid} - {first.pid} == {};
  }

  lemma LineIsValid(files: map<nat, File>)
    ensures Positive(LineOf(files)) && forall p :: p in LineOf(files) ==> LineOf(files)[p].pid == p
  {
  }

  lemma ExactRule(others: seq<Reservation>, line: Line, mine: Reservation, budget: int64)
    requires Lists(others, line, mine.pid) && (mine.pid in line ==> line[mine.pid] == mine)
    requires forall p :: p in line ==> line[p].pid == p
    ensures MayStart(line, mine, budget) <==>
            (forall i :: 0 <= i < |others| ==> others[i].order >= mine.order)
            || SumBefore(others, mine.order) + mine.estimate as int <= budget as int
  {
    forall i | 0 <= i < |others| ensures others[i].pid in line && line[others[i].pid] == others[i] {
      assert IsListed(others[i], line, mine.pid, {});
    }
    SumIsTotal(others, line, mine.order);
    ListedBefore(others, line, mine.pid, mine.order);
    forall i | 0 <= i < |others| && others[i].order < mine.order ensures others[i].pid in Before(line, mine.order) {}
    if p :| p in Before(line, mine.order) {
      assert p in PidsBefore(others, mine.order);
    }
  }

  /** What stays in line fits still, once one leaves. */
  lemma Left(before: map<nat, File>, files: map<nat, File>, pid: nat, running: set<nat>, budget: int64)
    requires Distinct(LineOf(before)) && AllFit(LineOf(before), running, budget)
    requires LineOf(files) == LineOf(before) - {pid}
    ensures Distinct(LineOf(files)) && AllFit(LineOf(files), running - {pid}, budget)
  {
    hide Fitting, LineOf;
    LineIsValid(before);
    forall p | p in running - {pid} ensures Fitting(LineOf(files), p, budget) {
      StillFits(LineOf(before), LineOf(files), p, budget);
    }
  }
}
