/** The wake loop (integrator/wake.go): passes started by marks, timers and a
    watch that can fail, beside writers that mark at any moment. */
module WakeLoop {
  import opened Wrappers

  const WATCH_RETRY: int := 5
  const FAILED_PASS_HOLD: int := 10

  /** What the loop shares with writers and the kernel: the clock, whether due is
      in the directory, whether a watch is held, whether a notification waits,
      whether the watch has failed, and how many marks were ever made. */
  datatype World = World(now: int, due: bool, watched: bool, buffered: bool, failed: bool, marks: nat)

  /** What may happen at any moment: time passes, writers mark, and the watch may
      fail. Nobody but the loop removes due; a watch that has not failed is sent
      a notification when due is created, and with no watch there is none to send. */
  ghost predicate Meanwhile(a: World, b: World) {
    && a.now <= b.now && a.watched == b.watched
    && a.marks <= b.marks && (a.marks < b.marks ==> b.due)
    && (a.due ==> b.due) && (a.buffered ==> b.buffered) && (a.failed ==> b.failed)
    && (!a.due && b.due && b.watched && !b.failed ==> b.buffered)
    && (!a.watched ==> b.buffered == a.buffered && b.failed == a.failed)
  }

  datatype Reason = Startup | Due | Timer | Watcher | FollowUp

  /** A pass: why it started, how many marks were made before it began reading,
      whether the mark before it was taken care of, when it started and ended, and
      how. */
  datatype Pass = Pass(reason: Reason, began: nat, claimed: bool, start: int, end: int, landed: bool, failed: bool)

  /** What ended a block: a notification, the watch's failure, or the timer. */
  datatype Wake = Notified | Broken | Timed

  /** A wait that blocks, after so many passes: what it waits for, the clock as it
      read it, what it blocks on and until when; and what ended the block. */
  datatype Block = Block(
    after: nat, next: int, earliest: Option<int>, holdDue: Option<int>, retryAt: int, restored: bool,
    read: int, world: World, until: int, wake: Wake, later: World)

  /** With its watch alive, a blocked loop with due on disk has a notification
      waiting or a timer set for when due may be acted on. */
  ghost predicate NotStuck(b: Block) {
    b.world.watched && !b.world.failed && b.world.due ==> b.world.buffered || b.until <= Later(b.earliest, b.holdDue)
  }

  /** A block is entered only with no reason for a pass: before the timer's time,
      and, once a pass may start, with no restored watch owed one and no due that
      may be acted on. It lasts until the first of the timer's time, the next try
      of a watch that is not there, and the end of a hold. */
  ghost predicate Waits(b: Block) {
    && b.read < b.next
    && (Reached(b.read, b.earliest) ==> !b.restored && !(Reached(b.read, b.holdDue) && b.world.watched && b.world.due))
    && (!b.world.watched ==> b.read < b.retryAt)
    && (b.until == b.next || (!b.world.watched && b.until == b.retryAt) || b.earliest == Some(b.until))
    && b.until <= b.next && (!b.world.watched ==> b.until <= b.retryAt)
    && (b.earliest.Some? && b.read < b.earliest.value ==> b.until <= b.earliest.value)
  }

  /** A block ends for a reason that came up in it: a notification, which is taken; a
      watch that failed, which is dropped; or, with neither of a watch, the timer. */
  ghost predicate Wakes(b: Block) {
    exists w :: Meanwhile(b.world, w) && Ends(b.wake, w, b.until, b.later)
  }

  ghost predicate Ends(wake: Wake, w: World, until: int, later: World) {
    match wake
    case Notified => w.watched && w.buffered && later == w.(buffered := false)
    case Broken => w.watched && w.failed && Meanwhile(w.(watched := false, buffered := false, failed := false), later)
    case Timed => !(w.watched && (w.buffered || w.failed)) && later == w.(now := Max(w.now, until))
  }

  ghost predicate AllWait(blocks: seq<Block>) {
    forall b :: b in blocks ==> NotStuck(b) && Waits(b) && Wakes(b)
  }

  /** A block entered with no reason for a pass, and what ended it. */
  lemma OneMoreWaits(blocks: seq<Block>, b: Block, ended: Wake, later: World)
    requires AllWait(blocks)
    requires b.read < b.next && (b.holdDue.Some? ==> b.holdDue.value == b.next)
    requires !b.world.watched ==> b.read < b.retryAt
    requires Reached(b.read, b.earliest) ==> !b.restored && !(Reached(b.read, b.holdDue) && b.world.watched && b.world.due)
    requires var wake := if !b.world.watched && b.retryAt < b.next then b.retryAt else b.next;
             b.until == if b.earliest.Some? && b.earliest.value > b.read && b.earliest.value < wake then b.earliest.value else wake
    requires exists w :: Meanwhile(b.world, w) && Ends(ended, w, b.until, later)
    ensures AllWait(blocks + [b.(wake := ended, later := later)])
  {
    var c := b.(wake := ended, later := later);
    assert NotStuck(c) && Waits(c) && Wakes(c);
  }

  /** A block waits for what the pass before it leaves: the next pass by the timer
      is an interval after its end; after a failure none starts before a hold, and
      a due it could not take starts none before the timer. */
  ghost predicate Scheduled(b: Block, p: Pass, interval: int) {
    && b.next == p.end + interval
    && b.earliest == (if p.failed then Some(p.end + Min(FAILED_PASS_HOLD, interval)) else None)
    && b.holdDue == if p.claimed then None else Some(b.next)
  }

  ghost predicate AllScheduled(blocks: seq<Block>, passes: seq<Pass>, interval: int) {
    forall b :: b in blocks ==> 0 < b.after <= |passes| && Scheduled(b, passes[b.after - 1], interval)
  }

  /** Why one pass follows another: at once exactly when the first landed and did
      not fail, and else by the timer no sooner than an interval after, and after a
      failure no sooner than the hold. */
  ghost predicate Follows(p: Pass, q: Pass, interval: int) {
    && q.reason != Startup && p.end <= q.start
    && (q.reason == FollowUp <==> p.landed && !p.failed)
    && (q.reason == Timer ==> p.end + interval <= q.start)
    && (q.reason == Due ==> p.claimed)
    && (p.failed ==> p.end + Min(FAILED_PASS_HOLD, interval) <= q.start)
  }

  ghost predicate AllFollow(passes: seq<Pass>, interval: int) {
    && (passes != [] ==> passes[0].reason == Startup)
    && forall i :: 0 <= i < |passes| - 1 ==> Follows(passes[i], passes[i + 1], interval)
  }

  /** And stays so whatever happens meanwhile. */
  lemma StaysNotStuck(b: Block, later: World)
    requires NotStuck(b) && Meanwhile(b.world, later)
    ensures NotStuck(b.(world := later))
  {
  }

  /** No two passes in a row where the first could not remove due and due is
      why the second started. */
  ghost predicate DueIsNew(passes: seq<Pass>) {
    forall i :: 0 <= i < |passes| - 1 && passes[i + 1].reason == Due ==> passes[i].claimed
  }

  /** Passes begin reading after ever more marks. */
  ghost predicate Forward(passes: seq<Pass>) {
    forall i, j :: 0 <= i < j < |passes| ==> passes[i].began <= passes[j].began
  }

  lemma OneMorePass(passes: seq<Pass>, p: Pass)
    requires DueIsNew(passes) && Forward(passes)
    requires passes != [] ==> passes[|passes| - 1].began <= p.began && (p.reason == Due ==> passes[|passes| - 1].claimed)
    ensures DueIsNew(passes + [p]) && Forward(passes + [p])
  {
  }

  /** What a reason for the next pass means, with the clock at some moment: what
      Follows asks of a pass that starts later. */
  ghost predicate MayFollow(p: Pass, reason: Reason, interval: int, now: int) {
    && reason != Startup && p.end <= now
    && (reason == FollowUp <==> p.landed && !p.failed)
    && (reason == Timer ==> p.end + interval <= now)
    && (reason == Due ==> p.claimed)
    && (p.failed ==> p.end + Min(FAILED_PASS_HOLD, interval) <= now)
  }

  lemma OneMoreFollows(passes: seq<Pass>, q: Pass, interval: int, reason: Reason)
    requires AllFollow(passes, interval) && q.reason == reason
    requires if passes == [] then reason == Startup else MayFollow(passes[|passes| - 1], reason, interval, q.start)
    ensures AllFollow(passes + [q], interval)
  {
  }

  /** How many passes a watch that was back started. */
  ghost function Restarts(passes: seq<Pass>): nat {
    if passes == [] then 0
    else Restarts(passes[..|passes| - 1]) + if passes[|passes| - 1].reason == Watcher then 1 else 0
  }

  lemma OneMoreRestart(passes: seq<Pass>, p: Pass)
    ensures Restarts(passes + [p]) == Restarts(passes) + if p.reason == Watcher then 1 else 0
  {
    assert (passes + [p])[..|passes|] == passes;
  }

  lemma NoRestarts()
    ensures Restarts([]) == 0
  {
  }

  lemma NoPasses(interval: int)
    ensures AllFollow([], interval) && AllScheduled([], [], interval)
  {
  }

  lemma StillScheduled(blocks: seq<Block>, passes: seq<Pass>, more: seq<Pass>, interval: int)
    requires AllScheduled(blocks, passes, interval) && passes <= more
    ensures AllScheduled(blocks, more, interval)
  {
    hide Scheduled;
  }

  function Max(a: int, b: int): (r: int)
    ensures r >= a && r >= b && (r == a || r == b)
  {
    if a < b then b else a
  }

  function Min(a: int, b: int): (r: int)
    ensures r <= a && r <= b && (r == a || r == b)
  {
    if a < b then a else b
  }

  /** Whether a moment has come, which with no moment set it has. */
  predicate Reached(now: int, at: Option<int>) {
    at.None? || at.value <= now
  }

  /** When both of two moments have come. */
  ghost function Later(a: Option<int>, b: Option<int>): int {
    if a.None? && b.None? then 0
    else if a.None? then b.value
    else if b.None? then a.value
    else Max(a.value, b.value)
  }

  class Loop {
    const interval: int
    const meanwhile: (World, nat) -> World
    var world: World
    var ticks: nat
    var retryAt: int
    var failureSaid: bool
    var restored: bool
    ghost var passes: seq<Pass>
    ghost var blocks: seq<Block>
    // How many calls to the system have failed, how many watches were lost, and how
    // many passes were started for one that was back.
    ghost var failures: nat
    ghost var lost: nat
    ghost var back: nat

    ghost predicate Fits() {
      forall w, n :: Meanwhile(w, meanwhile(w, n))
    }

    /** The marks the last pass could read. */
    ghost function Read(): nat
      reads this`passes
    {
      if passes == [] then 0 else passes[|passes| - 1].began
    }

    /** Every mark is still on disk, or the last pass began reading after it. */
    ghost predicate NoMarkLost()
      reads this`world, this`passes
    {
      world.marks > Read() ==> world.due
    }

    /** A watch that is back is owed one pass at most for each that was lost. */
    ghost predicate Owed()
      reads this`restored, this`failureSaid, this`lost, this`back
    {
      back + (if restored then 1 else 0) + (if failureSaid then 1 else 0) <= lost
    }

    ghost predicate Told()
      reads this`world, this`passes, this`blocks
    {
      && Fits() && world.now >= 0 && Read() <= world.marks
      && DueIsNew(passes) && Forward(passes)
      && AllWait(blocks)
    }

    constructor (interval: int, meanwhile: (World, nat) -> World, due: bool)
      requires interval >= 0 && forall w, n :: Meanwhile(w, meanwhile(w, n))
      ensures Told() && NoMarkLost() && passes == [] && blocks == [] && this.interval == interval
      ensures world == World(0, due, false, false, false, if due then 1 else 0) && !failureSaid && !restored && Owed() && back == 0
    {
      this.interval, this.meanwhile := interval, meanwhile;
      world := World(0, due, false, false, false, if due then 1 else 0);
      ticks, retryAt, failureSaid, restored := 0, 0, false, false;
      passes, blocks, failures, lost, back := [], [], 0, 0, 0;
    }

    /** Whether a call to the system fails, which the environment decides. */
    method Fails() returns (failed: bool)
      modifies this`failures
      ensures failures == old(failures) + if failed then 1 else 0
    {
      failed := *;
      if failed { failures := failures + 1; }
    }

    /** Time passes, and others act. */
    method Elapse()
      requires Told()
      modifies this`world, this`ticks
      ensures Told() && Meanwhile(old(world), world)
      ensures world == meanwhile(old(world), old(ticks)) && ticks == old(ticks) + 1
      ensures old(NoMarkLost()) ==> NoMarkLost()
    {
      world := meanwhile(world, ticks);
      ticks := ticks + 1;
    }

    /** Tries to watch. When it works after a failure, a pass is owed; when it does not,
        the next try is set. Marks made meanwhile stay on disk either way. */
    method Arm()
      requires Told() && Owed()
      modifies this`world, this`ticks, this`retryAt, this`failureSaid, this`restored, this`failures, this`lost
      ensures Owed() && Told() && (old(NoMarkLost()) ==> NoMarkLost()) && old(world.now) <= world.now
      ensures failures == old(failures) + if world.watched then 0 else 1
      ensures world.watched ==> exists w :: Meanwhile(old(world), w) && world == w.(watched := true, buffered := false, failed := false)
      ensures world.watched ==> !failureSaid && restored == (old(restored) || old(failureSaid))
      ensures !world.watched ==> failureSaid && restored == old(restored) && retryAt == world.now + WATCH_RETRY
    {
      Elapse();
      var cannot := Fails();
      if cannot {
        Fail();
        return;
      }
      world := world.(watched := true, buffered := false, failed := false);
      if failureSaid {
        failureSaid := false;
        restored := true;
      }
    }

    /** Gives up the watch until the next try. */
    method Fail()
      requires Told() && Owed()
      modifies this`world, this`ticks, this`retryAt, this`failureSaid, this`lost
      ensures Owed() && Told() && !world.watched && (old(NoMarkLost()) ==> NoMarkLost()) && old(world.now) <= world.now
      ensures failureSaid && retryAt == world.now + WATCH_RETRY
      ensures Meanwhile(old(world).(watched := false, buffered := false, failed := false), world)
      ensures lost == old(lost) + if old(failureSaid) then 0 else 1
    {
      world := world.(watched := false, buffered := false, failed := false);
      Elapse();
      retryAt := world.now + WATCH_RETRY;
      if !failureSaid { lost := lost + 1; }
      failureSaid := true;
    }

    /** With a watch, takes due off the disk, or says it could not. Without one there is
        nothing to take. */
    method Claim() returns (claimed: bool)
      requires Told()
      modifies this`world, this`ticks, this`failures
      ensures Told() && failures == old(failures) + if claimed then 0 else 1
      ensures claimed && old(world.watched) ==>
                (exists w :: Meanwhile(old(world), w) && world == w.(due := false)) && old(world.marks) <= world.marks && old(world.now) <= world.now
      ensures claimed && !old(world.watched) ==> world == old(world)
      ensures !claimed ==> Meanwhile(old(world), world)
    {
      if !world.watched { return true; }
      Elapse();
      var cannot := Fails();
      if cannot { return false; }
      world := world.(due := false);
      claimed := true;
    }

    /** One pass: it reads every ref after it begins. */
    method RunPass(reason: Reason, claimed: bool) returns (landed: bool, failed: bool)
      requires Told() && (passes != [] && reason == Due ==> passes[|passes| - 1].claimed)
      modifies this`world, this`ticks, this`passes
      ensures Told() && NoMarkLost()
      ensures |passes| == |old(passes)| + 1 && old(passes) <= passes
      ensures old(passes) == passes[..|passes| - 1]
      ensures var p := passes[|passes| - 1];
              && p.reason == reason && p.claimed == claimed && p.landed == landed && p.failed == failed
              && p.start == old(world.now) && p.end == world.now && p.start <= p.end
    {
      hide DueIsNew, Forward, AllWait, Fits;
      ghost var start := world.now;
      Elapse();
      ghost var began := world.marks;
      landed, failed := *, *;
      Elapse();
      OneMorePass(passes, Pass(reason, began, claimed, start, world.now, landed, failed));
      passes := passes + [Pass(reason, began, claimed, start, world.now, landed, failed)];
    }

    /** Blocks, never stuck and with no reason for a pass, until there is one, or
        gives None when it is stopped, after as many wakes as it is given. */
    method Wait(next: int, earliest: Option<int>, holdDue: Option<int>, patience: nat) returns (reason: Option<Reason>)
      requires Told() && NoMarkLost() && Owed() && (holdDue.Some? ==> holdDue.value == next)
      modifies this`world, this`ticks, this`retryAt, this`failureSaid, this`restored, this`blocks, this`failures, this`lost, this`back
      ensures Told() && NoMarkLost() && Owed() && old(blocks) <= blocks && old(world.now) <= world.now
      ensures back == old(back) + if reason == Some(Watcher) then 1 else 0
      ensures forall i :: |old(blocks)| <= i < |blocks| ==> AsAsked(blocks[i], next, earliest, holdDue)
      ensures reason.None? ==> |blocks| == |old(blocks)| + patience
      ensures reason == Some(Due) ==> holdDue.None? && world.watched && world.due && Reached(world.now, earliest)
      ensures reason == Some(Timer) ==> next <= world.now
      ensures reason == Some(Watcher) ==> !restored && Reached(world.now, earliest)
      ensures reason.Some? ==> reason.value in {Due, Timer, Watcher}
    {
      hide Told, Owed, NoMarkLost;
      reason := None;
      for i := 0 to patience
        invariant reason.None? && Told() && NoMarkLost() && Owed() && back == old(back)
        invariant old(blocks) <= blocks && |blocks| == |old(blocks)| + i && old(world.now) <= world.now
        invariant forall j :: |old(blocks)| <= j < |blocks| ==> AsAsked(blocks[j], next, earliest, holdDue)
      {
        reason := Turn(next, earliest, holdDue);
        if reason.Some? { return; }
      }
    }

    /** One turn of a wait: a reason for a pass, or one block. */
    method Turn(next: int, earliest: Option<int>, holdDue: Option<int>) returns (reason: Option<Reason>)
      requires Told() && NoMarkLost() && Owed() && (holdDue.Some? ==> holdDue.value == next)
      modifies this`world, this`ticks, this`retryAt, this`failureSaid, this`restored, this`blocks, this`failures, this`lost, this`back
      ensures Told() && NoMarkLost() && Owed() && old(world.now) <= world.now
      ensures back == old(back) + if reason == Some(Watcher) then 1 else 0
      ensures reason.Some? ==> blocks == old(blocks)
      ensures old(world.now) >= next ==> reason == Some(Timer)
      ensures reason.None? ==> |blocks| == |old(blocks)| + 1 && old(blocks) <= blocks && AsAsked(blocks[|blocks| - 1], next, earliest, holdDue)
      ensures reason == Some(Due) ==> holdDue.None? && world.watched && world.due && Reached(world.now, earliest)
      ensures reason == Some(Timer) ==> next <= world.now
      ensures reason == Some(Watcher) ==> !restored && Reached(world.now, earliest)
      ensures reason.Some? ==> reason.value in {Due, Timer, Watcher}
    {
      hide DueIsNew, Forward, Meanwhile, AllWait, Fits, Read, NoMarkLost, Owed, Ends;
      var now := world.now;
      reason := Ask(now, next, earliest, holdDue);
      if reason.Some? { return; }
      var wake := next;
      if !world.watched && retryAt < wake { wake := retryAt; }
      if earliest.Some? && earliest.value > now && earliest.value < wake { wake := earliest.value; }
      ghost var b := Block(|passes|, next, earliest, holdDue, retryAt, restored, now, world, wake, Timed, world);
      ghost var ended := Select(wake);
      OneMoreWaits(blocks, b, ended, world);
      blocks := blocks + [b.(wake := ended, later := world)];
    }

    /** Looks for a reason for a pass at a reading of the clock, after another try of
        a watch whose time has come. */
    method Ask(now: int, next: int, earliest: Option<int>, holdDue: Option<int>) returns (reason: Option<Reason>)
      requires Told() && NoMarkLost() && Owed() && now == world.now && (holdDue.Some? ==> holdDue.value == next)
      modifies this`world, this`ticks, this`retryAt, this`failureSaid, this`restored, this`failures, this`lost, this`back
      ensures Told() && NoMarkLost() && Owed() && now <= world.now
      ensures back == old(back) + if reason == Some(Watcher) then 1 else 0
      ensures now >= next ==> reason == Some(Timer)
      ensures old(world.watched) || now < old(retryAt) ==> failures == old(failures) && world.watched == old(world.watched)
      ensures reason.None? ==> !world.watched ==> now < retryAt
      ensures reason.None? && Reached(now, earliest) ==> !restored && !(Reached(now, holdDue) && world.watched && world.due)
      ensures reason == Some(Due) ==> holdDue.None? && world.watched && world.due && Reached(world.now, earliest)
      ensures reason == Some(Timer) ==> next <= now
      ensures reason == Some(Watcher) ==> !restored && Reached(world.now, earliest)
      ensures reason.Some? ==> reason.value in {Due, Timer, Watcher}
    {
      hide DueIsNew, Forward, AllWait, Fits, Read;
      Elapse();
      if now >= next { return Some(Timer); }
      if !world.watched && now >= retryAt { Arm(); }
      if Reached(now, earliest) {
        if restored {
          restored := false;
          back := back + 1;
          return Some(Watcher);
        }
        if Reached(now, holdDue) && world.watched && world.due { return Some(Due); }
      }
      reason := None;
    }

    ghost predicate AsAsked(b: Block, next: int, earliest: Option<int>, holdDue: Option<int>)
      reads this`passes
    {
      b.after == |passes| && b.next == next && b.earliest == earliest && b.holdDue == holdDue
    }

    /** Blocks until a notification, the watch's failure, or the timer. */
    method Select(wake: int) returns (ghost ended: Wake)
      requires Told() && NoMarkLost() && Owed()
      modifies this`world, this`ticks, this`retryAt, this`failureSaid, this`lost
      ensures Told() && NoMarkLost() && Owed() && old(world.now) <= world.now
      ensures exists w :: Meanwhile(old(world), w) && Ends(ended, w, wake, world)
      ensures ended.Broken? ==> failureSaid && retryAt == world.now + WATCH_RETRY
    {
      hide DueIsNew, Forward, AllWait, Fits;
      Elapse();
      ghost var w := world;
      var first: bool := *;
      if world.watched && world.buffered && (first || !world.failed) {
        world := world.(buffered := false);
        ended := Notified;
      } else if world.watched && world.failed {
        Fail();
        ended := Broken;
      } else {
        world := world.(now := Max(world.now, wake));
        ended := Timed;
      }
      assert Meanwhile(old(world), w) && Ends(ended, w, wake, world);
    }

    /** Passes and waits in turn, for as many passes as it is given, with no mark lost
        and no held due acted on, each pass after the one before it as it should be.
        It ends sooner only when the repository is no longer its own, or it is
        stopped while it waits. */
    method Run(passesLeft: nat, patience: nat, owned: nat -> bool) returns (stopped: bool)
      requires Told() && NoMarkLost() && Owed() && passes == [] && blocks == [] && back == 0 && interval >= 0
      modifies this
      ensures Told() && AllFollow(passes, interval) && AllScheduled(blocks, passes, interval)
      ensures passes != [] ==> NoMarkLost()
      ensures Restarts(passes) <= lost
      ensures forall n :: 0 <= n < |passes| ==> owned(n)
      ensures |passes| <= passesLeft && (|passes| < passesLeft ==> stopped || !owned(|passes|))
      ensures stopped ==> passes != [] && WaitedOut(patience)
    {
      hide Told, NoMarkLost, AllScheduled, AllFollow, Restarts, MayFollow;
      Arm();
      NoPasses(interval);
      NoRestarts();
      stopped := false;
      var reason := Startup;
      for n := 0 to passesLeft
        invariant |passes| == n && Goes(reason) && forall m :: 0 <= m < n ==> owned(m)
      {
        if !owned(n) { return; }
        var woken := PassAndWait(reason, patience);
        if woken.None? {
          stopped := true;
          return;
        }
        reason := woken.value;
      }
    }

    /** The loop between two passes: all is as it should be, and the next pass has its
        reason. */
    ghost predicate Goes(reason: Reason)
      reads this
    {
      && Told() && NoMarkLost() && Owed() && back == Restarts(passes) + (if reason == Watcher then 1 else 0)
      && AllFollow(passes, interval) && AllScheduled(blocks, passes, interval)
      && if passes == [] then reason == Startup else MayFollow(passes[|passes| - 1], reason, interval, world.now)
    }

    /** One pass, and the wait after it: the reason for the next pass, or None when
        stopped. */
    method PassAndWait(reason: Reason, patience: nat) returns (next: Option<Reason>)
      requires Goes(reason) && interval >= 0
      modifies this
      ensures |passes| == |old(passes)| + 1
      ensures next.Some? ==> Goes(next.value)
      ensures Told() && NoMarkLost() && AllFollow(passes, interval) && AllScheduled(blocks, passes, interval)
      ensures Owed() && Restarts(passes) <= back
      ensures next.None? ==> WaitedOut(patience)
    {
      hide Follows, Scheduled, AllScheduled, AllFollow, Restarts, Told, NoMarkLost, Owed;
      ghost var before := passes;
      var claimed := Claim();
      var landed, failed := RunPass(reason, claimed);
      ghost var p := passes[|passes| - 1];
      assert passes == before + [p];
      OneMoreFollows(before, p, interval, reason);
      OneMoreRestart(before, p);
      StillScheduled(blocks, before, passes, interval);
      var end := world.now;
      var timer := end + interval;
      var earliest: Option<int>, holdDue: Option<int> := None, None;
      if failed { earliest := Some(end + Min(FAILED_PASS_HOLD, interval)); }
      if !claimed { holdDue := Some(timer); }
      if landed && !failed { return Some(FollowUp); }
      ghost var were := blocks;
      next := Wait(timer, earliest, holdDue, patience);
      MoreScheduled(were, blocks, timer, earliest, holdDue);
    }

    /** As many blocks as a wait is given, with no pass after them. */
    ghost predicate WaitedOut(patience: nat)
      reads this`passes, this`blocks
    {
      |blocks| >= patience && forall i :: |blocks| - patience <= i < |blocks| ==> blocks[i].after == |passes|
    }

    lemma MoreScheduled(were: seq<Block>, now: seq<Block>, next: int, earliest: Option<int>, holdDue: Option<int>)
      requires passes != [] && AllScheduled(were, passes, interval) && were <= now
      requires forall i :: |were| <= i < |now| ==> AsAsked(now[i], next, earliest, holdDue)
      requires var p := passes[|passes| - 1];
               && next == p.end + interval && holdDue == (if p.claimed then None else Some(next))
               && earliest == if p.failed then Some(p.end + Min(FAILED_PASS_HOLD, interval)) else None
      ensures AllScheduled(now, passes, interval)
    {
      forall b | b in now ensures 0 < b.after <= |passes| && Scheduled(b, passes[b.after - 1], interval) {
        var i :| 0 <= i < |now| && now[i] == b;
        if i < |were| { assert were[i] in were && were[i] == now[i]; }
      }
    }
  }
}
