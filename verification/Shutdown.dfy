/** What the launcher can promise around the time limit: exactly which finished shards keep their verdict, exactly which
    children can outlive the sweep, and exactly which shards can still be launched after the monitor has ended. */
module Shutdown {
  import opened Sequences
  import opened Launcher

  // ---------------------------------------------------------------- the monitor and the worker it looks at

  /** The worker will not launch again once the flag is set. */
  predicate Past(pc: Pc) { !Committed(pc) && !pc.Started? }

  /** A waiting worker's live child is marked running, and whoever the monitor is about to kill or mark is past launching. */
  ghost predicate WatchOk(w: World) {
    && (forall i :: 0 <= i < |w.shards| ==> (w.shards[i].child.Alive? && w.shards[i].pc.Wait? ==> w.shards[i].state == RUNNING))
    && (w.monitor.Kill? && w.monitor.k < |w.shards| ==> Past(w.shards[w.monitor.k].pc))
    && (w.monitor.Mark? && w.monitor.k < |w.shards| ==>
          Past(w.shards[w.monitor.k].pc) && !w.shards[w.monitor.k].child.Alive?)
  }

  lemma LocalStaysPast(c: Config, sh: Shard, room: bool, clock: real, slot: Slot, launched: bool)
    requires Past(sh.pc)
    ensures
      var v := Local(c, sh, room, true, clock, slot, launched);
      Past(v.pc) && (v.child.Alive? ==> sh.child.Alive?)
  {
  }

  lemma LocalKeepsWatch(c: Config, sh: Shard, room: bool, shutdown: bool, clock: real, slot: Slot, launched: bool)
    requires sh.child.Alive? && sh.pc.Wait? ==> sh.state == RUNNING
    ensures
      var v := Local(c, sh, room, shutdown, clock, slot, launched);
      v.child.Alive? && v.pc.Wait? ==> v.state == RUNNING
  {
  }

  lemma StepKeepsWatch(c: Config, w: World, e: Event)
    requires AllOk(c, w) && WatchOk(w)
    ensures WatchOk(Step(c, w, e))
  {
    hide Local, Room, Count, Max;
    if e.Worker? && e.i < |w.shards| {
      var sh, room, slot := w.shards[e.i], Room(c, w.shards, e.i), NextSlot(w);
      LocalKeepsWatch(c, sh, room, w.shutdown, w.clock, slot, e.launched);
      if Past(sh.pc) && w.shutdown { LocalStaysPast(c, sh, room, w.clock, slot, e.launched); }
    } else if w.monitor.Look? && w.monitor.k < |w.shards| {
      assert Ok(c, w.shards[w.monitor.k], w.shutdown);
    }
  }

  lemma {:induction false} RunKeepsWatch(c: Config, start: World, events: seq<Event>)
    requires Initial(start)
    ensures WatchOk(Run(c, start, events))
  {
    if |events| > 0 {
      RunKeepsWatch(c, start, events[..|events| - 1]);
      RunKeepsOk(c, start, events[..|events| - 1]);
      StepKeepsWatch(c, Run(c, start, events[..|events| - 1]), events[|events| - 1]);
    }
  }

  // ---------------------------------------------------------------- sweeping

  lemma RunNothing(c: Config, w: World)
    ensures Run(c, w, []) == w
  {
  }

  /** The monitor's look at shard k and, if that is running, its kill and mark. */
  lemma LookNext(c: Config, w: World, events: seq<Event>) returns (more: seq<Event>)
    requires var v := Run(c, w, events); v.monitor.Look? && v.monitor.k < |v.shards|
    ensures
      var v, u := Run(c, w, events), Run(c, w, more);
      && u.monitor == Look(v.monitor.k + 1) && |u.shards| == |v.shards|
      && u == v.(monitor := u.monitor, shards := u.shards)
      && (forall j :: 0 <= j < |v.shards| && (j != v.monitor.k || v.shards[j].state != RUNNING) ==> u.shards[j] == v.shards[j])
  {
    hide Run;
    var v := Run(c, w, events);
    RunThen(c, w, events, Sweep);
    more := events + [Sweep];
    if v.shards[v.monitor.k].state == RUNNING {
      RunThen(c, w, more, Sweep);
      RunThen(c, w, more + [Sweep], Sweep);
      more := more + [Sweep] + [Sweep];
    }
  }

  lemma {:induction false} SweepTo(c: Config, w: World, events: seq<Event>, m: nat) returns (more: seq<Event>)
    requires var v := Run(c, w, events); v.monitor.Look? && v.monitor.k <= m <= |v.shards|
    ensures
      var v, u := Run(c, w, events), Run(c, w, more);
      && u.monitor == Look(m) && |u.shards| == |v.shards|
      && u == v.(monitor := u.monitor, shards := u.shards)
      && (forall j :: 0 <= j < |v.shards| && (j >= m || v.shards[j].state != RUNNING) ==> u.shards[j] == v.shards[j])
    decreases m - Run(c, w, events).monitor.k
  {
    hide Run;
    more := events;
    if Run(c, w, events).monitor.k < m {
      var next := LookNext(c, w, events);
      more := SweepTo(c, w, next, m);
    }
  }

  // ---------------------------------------------------------------- a finished shard's verdict

  ghost predicate ReportsDone(v: World, i: nat) {
    i < |v.shards| && (v.shards[i].pc.Returned? ==> v.shards[i].state == DONE)
  }

  /** A shard that is done, while the monitor is not in the middle of killing it. */
  ghost predicate SafelyDone(w: World, i: nat) {
    && i < |w.shards| && w.shards[i].pc.Returned? && w.shards[i].state == DONE
    && w.monitor != Kill(i) && w.monitor != Mark(i)
  }

  lemma StepKeepsDone(c: Config, w: World, e: Event, i: nat)
    requires SafelyDone(w, i)
    ensures SafelyDone(Step(c, w, e), i)
  {
    hide Room, Count, Max;
  }

  lemma {:induction false} RunKeepsDone(c: Config, w: World, events: seq<Event>, i: nat)
    requires SafelyDone(w, i)
    ensures SafelyDone(Run(c, w, events), i)
  {
    if |events| > 0 {
      RunKeepsDone(c, w, events[..|events| - 1], i);
      StepKeepsDone(c, Run(c, w, events[..|events| - 1]), events[|events| - 1], i);
    }
  }

  /** The shard's last child has exited with zero, whether or not its worker knows. */
  predicate Finished(sh: Shard) { sh.exit == Some(0) || sh.child == Exited(0) }

  /** A worker that has not returned can be reported killed, although its child exited with zero before the flag. */
  lemma CanBeKilled(c: Config, w: World, i: nat) returns (events: seq<Event>)
    requires w.shutdown && w.monitor == Look(0) && i < |w.shards| && Finished(w.shards[i])
    requires var sh := w.shards[i]; sh.pc.Started? || sh.pc.Wait? || sh.pc.Reaped? || (sh.pc.MarkDone? && sh.state == RUNNING)
    requires w.shards[i].pc.Started? || w.shards[i].pc.Wait? ==> w.shards[i].child.Exited?
    ensures !ReportsDone(Run(c, w, events), i)
  {
    hide Run, Room, Count, Max;
    var go := Worker(i, true);
    RunNothing(c, w);
    if !w.shards[i].pc.MarkDone? {
      events := ComesTooLate(c, w, i);
    } else {
      events := SweepTo(c, w, [], i);
      RunThen(c, w, events, Sweep);
      RunThen(c, w, events + [Sweep], go);
      RunThen(c, w, events + [Sweep] + [go], Sweep);
      RunThen(c, w, events + [Sweep] + [go] + [Sweep], Sweep);
      events := events + [Sweep] + [go] + [Sweep] + [Sweep];
    }
  }

  /** The worker finds the flag set when it looks after the exit. */
  lemma ComesTooLate(c: Config, w: World, i: nat) returns (events: seq<Event>)
    requires w.shutdown && i < |w.shards|
    requires var sh := w.shards[i]; sh.pc.Reaped? || ((sh.pc.Started? || sh.pc.Wait?) && sh.child.Exited?)
    ensures !ReportsDone(Run(c, w, events), i)
  {
    hide Run, Room, Count, Max;
    var go := Worker(i, true);
    RunNothing(c, w);
    events := [];
    if w.shards[i].pc.Started? {
      RunThen(c, w, events, go);
      events := events + [go];
    }
    if !w.shards[i].pc.Reaped? {
      RunThen(c, w, events, go);
      events := events + [go];
    }
    RunThen(c, w, events, go);
    RunThen(c, w, events + [go], go);
    events := events + [go] + [go];
  }

  /** Take any run up to the time limit, and a shard whose last child had exited with zero by then. Every continuation
      in which its worker returns reports it done, exactly when the worker had already returned. */
  lemma FinishedIsReportedIff(c: Config, start: World, history: seq<Event>, i: nat)
    requires Initial(start) && var u := Run(c, start, history); !u.shutdown && !u.monitor.Ended? && i < |u.shards| && Finished(u.shards[i])
    ensures
      var u := Run(c, start, history);
      (forall events :: ReportsDone(Run(c, Step(c, u, Limit), events), i)) <==> u.shards[i].pc.Returned?
  {
    hide Run, Initial;
    var u := Run(c, start, history);
    var w := Step(c, u, Limit);
    RunKeepsOk(c, start, history);
    assert Ok(c, u.shards[i], false);
    if u.shards[i].pc.Returned? {
      forall events ensures ReportsDone(Run(c, w, events), i) {
        RunKeepsDone(c, w, events, i);
      }
    } else {
      var events := CanBeKilled(c, w, i);
    }
  }

  ghost predicate DoneAtLast(v: World, i: nat) {
    i < |v.shards| && v.shards[i].pc.Returned? && v.shards[i].state == DONE
  }

  ghost predicate NeverDone(w: World, i: nat) {
    w.shutdown && i < |w.shards| && !w.shards[i].pc.MarkDone? && w.shards[i].state != DONE
  }

  lemma StepKeepsNeverDone(c: Config, w: World, e: Event, i: nat)
    requires NeverDone(w, i)
    ensures NeverDone(Step(c, w, e), i)
  {
    hide Room, Count, Max;
  }

  lemma {:induction false} RunKeepsNeverDone(c: Config, w: World, events: seq<Event>, i: nat)
    requires NeverDone(w, i)
    ensures NeverDone(Run(c, w, events), i)
  {
    if |events| > 0 {
      RunKeepsNeverDone(c, w, events[..|events| - 1], i);
      StepKeepsNeverDone(c, Run(c, w, events[..|events| - 1]), events[|events| - 1], i);
    }
  }

  /** Some continuation reports the shard done, exactly when by the time limit its worker had stored a zero exit and
      looked at the flag after it. */
  lemma DoneAfterLimitIff(c: Config, start: World, history: seq<Event>, i: nat)
    requires Initial(start) && var u := Run(c, start, history); !u.shutdown && !u.monitor.Ended? && i < |u.shards|
    ensures
      var u := Run(c, start, history);
      (exists events :: DoneAtLast(Run(c, Step(c, u, Limit), events), i))
      <==> u.shards[i].exit == Some(0) && !u.shards[i].pc.Reaped?
  {
    hide Run, Room, Count, Max, Initial;
    var u := Run(c, start, history);
    var w := Step(c, u, Limit);
    RunKeepsOk(c, start, history);
    assert Ok(c, u.shards[i], false);
    if u.shards[i].exit == Some(0) && !u.shards[i].pc.Reaped? {
      RunNothing(c, w);
      RunThen(c, w, [], Worker(i, true));
      assert DoneAtLast(Run(c, w, [] + [Worker(i, true)]), i);
    } else {
      forall events ensures !DoneAtLast(Run(c, w, events), i) { RunKeepsNeverDone(c, w, events, i); }
    }
  }

  // ---------------------------------------------------------------- children that outlive the sweep

  ghost predicate Outlives(v: World, i: nat) {
    v.monitor == Ended && i < |v.shards| && v.shards[i].child.Alive?
  }

  /** The worker is past launching, and while its child lives the monitor has not passed it. */
  ghost predicate Cleared(w: World, i: nat) {
    && w.shutdown && i < |w.shards| && Past(w.shards[i].pc)
    && (w.shards[i].child.Alive? ==>
          match w.monitor
          case Look(k) => k <= i
          case Kill(k) => k <= i
          case Mark(k) => k < i
          case _ => false)
  }

  lemma StepKeepsCleared(c: Config, w: World, e: Event, i: nat)
    requires AllOk(c, w) && WatchOk(w) && Cleared(w, i)
    ensures Cleared(Step(c, w, e), i)
  {
    hide Local, Room, Count, Max;
    assert Ok(c, w.shards[i], w.shutdown);
    if e.Worker? && e.i == i {
      LocalStaysPast(c, w.shards[i], Room(c, w.shards, i), w.clock, NextSlot(w), e.launched);
    }
  }

  lemma {:induction false} RunKeepsCleared(c: Config, w: World, events: seq<Event>, i: nat)
    requires AllOk(c, w) && WatchOk(w) && Cleared(w, i)
    ensures
      var v := Run(c, w, events);
      AllOk(c, v) && WatchOk(v) && Cleared(v, i)
  {
    if |events| > 0 {
      var v, e := Run(c, w, events[..|events| - 1]), events[|events| - 1];
      RunKeepsCleared(c, w, events[..|events| - 1], i);
      StepKeepsOk(c, v, e);
      StepKeepsWatch(c, v, e);
      StepKeepsCleared(c, v, e, i);
    }
  }

  /** A worker past the flag launches after the sweep has ended. */
  lemma CanOutlive(c: Config, w: World, i: nat) returns (events: seq<Event>)
    requires w.shutdown && w.monitor == Look(0) && i < |w.shards| && w.shards[i].state != RUNNING
    requires Committed(w.shards[i].pc) || (w.shards[i].pc.Started? && w.shards[i].child.Alive?)
    ensures Outlives(Run(c, w, events), i)
  {
    hide Run, Room, Count, Max;
    RunNothing(c, w);
    events := SweepTo(c, w, [], |w.shards|);
    RunThen(c, w, events, Sweep);
    events := events + [Sweep];
    assert Run(c, w, events).monitor == Ended && Run(c, w, events).shards[i] == w.shards[i];
    if Committed(w.shards[i].pc) {
      events := GoesOnToLaunch(c, w, events, i);
    }
  }

  /** From its reservation, sleep or launch a worker gets to a live child, whatever the monitor and the flag. */
  lemma GoesOnToLaunch(c: Config, w: World, events: seq<Event>, i: nat) returns (more: seq<Event>)
    requires var v := Run(c, w, events); i < |v.shards| && Committed(v.shards[i].pc)
    ensures
      var v, u := Run(c, w, events), Run(c, w, more);
      && u.monitor == v.monitor && u.shutdown == v.shutdown && i < |u.shards|
      && u.shards[i].child.Alive? && u.shards[i].launches == v.shards[i].launches + 1
  {
    hide Run, Room, Count;
    var go := Worker(i, true);
    more := events;
    if Run(c, w, more).shards[i].pc.Reserve? {
      RunThen(c, w, more, go);
      more := more + [go];
    }
    var v := Run(c, w, more);
    if v.shards[i].pc.Sleep? {
      var nap := Tick(if v.shards[i].pc.slot.time > v.clock then v.shards[i].pc.slot.time - v.clock else 0.0);
      RunThen(c, w, more, nap);
      more := more + [nap];
      RunThen(c, w, more, go);
      more := more + [go];
    }
    RunThen(c, w, more, go);
    more := more + [go];
  }

  /** Take any run up to the point where the flag is set and the sweep begins. Some continuation ends the sweep with the
      shard's child alive, exactly when its worker has passed the flag and not yet launched, or has launched and not yet
      marked the shard running. */
  lemma ChildOutlivesSweepIff(c: Config, start: World, history: seq<Event>, i: nat)
    requires Initial(start) && var w := Run(c, start, history); w.shutdown && w.monitor == Look(0) && i < |w.shards|
    ensures
      var w := Run(c, start, history);
      (exists events :: Outlives(Run(c, w, events), i))
      <==> Committed(w.shards[i].pc) || (w.shards[i].pc.Started? && w.shards[i].child.Alive?)
  {
    hide Run, Initial;
    var w := Run(c, start, history);
    RunKeepsOk(c, start, history);
    RunKeepsWatch(c, start, history);
    assert Ok(c, w.shards[i], true);
    if Committed(w.shards[i].pc) || (w.shards[i].pc.Started? && w.shards[i].child.Alive?) {
      var events := CanOutlive(c, w, i);
    } else if w.shards[i].pc.Started? {
      forall events ensures !Outlives(Run(c, w, events), i) { StartedIsOver(c, w, events, i); }
    } else {
      forall events ensures !Outlives(Run(c, w, events), i) { RunKeepsCleared(c, w, events, i); }
    }
  }

  /** A child that has exited before the shard was marked running does not come back. */
  ghost predicate Over(w: World, i: nat) {
    w.shutdown && i < |w.shards| && !Committed(w.shards[i].pc) && !w.shards[i].child.Alive?
  }

  lemma StepKeepsOver(c: Config, w: World, e: Event, i: nat)
    requires Over(w, i)
    ensures Over(Step(c, w, e), i)
  {
    hide Room, Count, Max;
  }

  lemma {:induction false} StartedIsOver(c: Config, w: World, events: seq<Event>, i: nat)
    requires Over(w, i)
    ensures Over(Run(c, w, events), i)
  {
    if |events| > 0 {
      StartedIsOver(c, w, events[..|events| - 1], i);
      StepKeepsOver(c, Run(c, w, events[..|events| - 1]), events[|events| - 1], i);
    }
  }

  // ---------------------------------------------------------------- a monitor that ends too early

  /** The worker can still come to a launch, when no flag stops it. */
  predicate MayLaunch(c: Config, sh: Shard) {
    match sh.pc
    case Submitted => c.concurrency > 0
    case Check | Reserve | Sleep(_) | Launch(_) | MarkQueued => true
    case Started | Wait => sh.child != Exited(0) && sh.attempts <= c.retries
    case Reaped => sh.exit != Some(0) && sh.attempts <= c.retries
    case MarkFailed | RetryTest => sh.attempts <= c.retries
    case _ => false
  }

  /** The monitor's loop is over and the flag is not set, so the time limit can no longer be enforced. */
  predicate Unwatched(w: World) { w.monitor.Ended? && !w.shutdown }

  lemma {:induction false} StaysUnwatched(c: Config, w: World, events: seq<Event>)
    requires Unwatched(w)
    ensures Unwatched(Run(c, w, events)) && |Run(c, w, events).shards| == |w.shards|
  {
    if |events| > 0 {
      hide Local, Room, Count, Max;
      StaysUnwatched(c, w, events[..|events| - 1]);
    }
  }

  /** The shard has been launched as often as it ever will. */
  ghost predicate Spent(c: Config, w: World, i: nat, launches: nat) {
    && Unwatched(w) && i < |w.shards| && !MayLaunch(c, w.shards[i])
    && w.shards[i].launches == launches && Ok(c, w.shards[i], false)
  }

  lemma LocalStaysSpent(c: Config, sh: Shard, room: bool, clock: real, slot: Slot, launched: bool)
    requires !MayLaunch(c, sh) && Ok(c, sh, false) && (room ==> c.concurrency > 0)
    ensures
      var v := Local(c, sh, room, false, clock, slot, launched);
      !MayLaunch(c, v) && v.launches == sh.launches
  {
  }

  lemma RoomNeedsThreads(c: Config, shards: seq<Shard>, i: nat)
    requires i < |shards|
    ensures Room(c, shards, i) ==> c.concurrency > 0
  {
  }

  lemma StepKeepsSpent(c: Config, w: World, e: Event, i: nat, launches: nat)
    requires Spent(c, w, i, launches)
    ensures Spent(c, Step(c, w, e), i, launches)
  {
    hide Local, Room, Count, Max, Ok;
    var sh := w.shards[i];
    OthersKeepOk(c, sh, false, if e.Exit? then e.code else 0);
    if e.Worker? && e.i == i {
      var room, slot := Room(c, w.shards, i), NextSlot(w);
      RoomNeedsThreads(c, w.shards, i);
      LocalStaysSpent(c, sh, room, w.clock, slot, e.launched);
      LocalKeepsOk(c, sh, room, false, w.clock, slot, e.launched);
    }
  }

  lemma {:induction false} RunKeepsSpent(c: Config, w: World, events: seq<Event>, i: nat, launches: nat)
    requires Spent(c, w, i, launches)
    ensures Spent(c, Run(c, w, events), i, launches)
  {
    if |events| > 0 {
      RunKeepsSpent(c, w, events[..|events| - 1], i, launches);
      StepKeepsSpent(c, Run(c, w, events[..|events| - 1]), events[|events| - 1], i, launches);
    }
  }

  /** Steps left before the worker stands at its reservation. */
  function Distance(sh: Shard): nat {
    match sh.pc
    case Check => 1
    case MarkQueued => 2
    case RetryTest => 3
    case MarkFailed => 4
    case Reaped => 5
    case Wait => if sh.child.Alive? then 7 else 6
    case Started => 8
    case _ => 0
  }

  /** The event that brings it nearer: its own step, or the failing exit of its child. */
  function Nearer(sh: Shard, i: nat): Event {
    if sh.pc.Wait? && sh.child.Alive? then Exit(i, 1) else Worker(i, true)
  }

  lemma StepsNearer(c: Config, w: World, i: nat)
    requires Unwatched(w) && i < |w.shards| && MayLaunch(c, w.shards[i]) && Ok(c, w.shards[i], false)
    requires !Committed(w.shards[i].pc) && !w.shards[i].pc.Submitted?
    ensures
      var v := Step(c, w, Nearer(w.shards[i], i));
      && i < |v.shards| && MayLaunch(c, v.shards[i]) && !v.shards[i].pc.Submitted? && v.shards[i].launches == w.shards[i].launches
      && Distance(v.shards[i]) < Distance(w.shards[i]) && Ok(c, v.shards[i], false)
  {
    hide Room, Count, Max;
    var sh := w.shards[i];
    OthersKeepOk(c, sh, false, 1);
    LocalKeepsOk(c, sh, Room(c, w.shards, i), false, w.clock, NextSlot(w), true);
  }

  lemma {:induction false} ReachesLaunch(c: Config, w: World, events: seq<Event>, i: nat) returns (more: seq<Event>)
    requires
      var v := Run(c, w, events);
      && Unwatched(v) && i < |v.shards| && MayLaunch(c, v.shards[i]) && !v.shards[i].pc.Submitted?
      && Ok(c, v.shards[i], false)
    ensures
      var v, u := Run(c, w, events), Run(c, w, more);
      i < |u.shards| && u.shards[i].launches == v.shards[i].launches + 1
    decreases Distance(Run(c, w, events).shards[i])
  {
    hide Run, Ok;
    var v := Run(c, w, events);
    if Committed(v.shards[i].pc) {
      more := GoesOnToLaunch(c, w, events, i);
    } else {
      var e := Nearer(v.shards[i], i);
      StepsNearer(c, v, i);
      RunThen(c, w, events, e);
      UnwatchedStep(c, v, e);
      more := ReachesLaunch(c, w, events + [e], i);
    }
  }

  lemma UnwatchedStep(c: Config, w: World, e: Event)
    requires Unwatched(w)
    ensures Unwatched(Step(c, w, e))
  {
    hide Local, Room, Count, Max;
  }

  // ---------------------------------------------------------------- emptying the pool

  /** Steps left before the worker returns, if its next launch fails. */
  function Remaining(sh: Shard, clock: real): nat {
    match sh.pc
    case Returned => 0
    case MarkDone | LaunchFailed => 1
    case Launch(_) => 2
    case Sleep(s) => if s.time <= clock then 3 else 4
    case Reserve => 5
    case Check => 6
    case MarkQueued => 7
    case RetryTest => 8
    case MarkFailed => 9
    case Reaped => 10
    case Wait => if sh.child.Alive? then 12 else 11
    case _ => 13
  }

  /** The event that brings the return nearer: time, the child's exit, or the worker's own step. */
  function Onward(sh: Shard, clock: real, j: nat): Event {
    if sh.pc.Sleep? && sh.pc.slot.time > clock then Tick(sh.pc.slot.time - clock)
    else if sh.pc.Wait? && sh.child.Alive? then Exit(j, 0)
    else Worker(j, false)
  }

  /** The monitor has ended without a shutdown, and every shard is in order. */
  ghost predicate Quiet(c: Config, w: World) { Unwatched(w) && AllOk(c, w) }

  lemma StepKeepsQuiet(c: Config, w: World, e: Event)
    requires Quiet(c, w)
    ensures Quiet(c, Step(c, w, e))
  {
    hide Step, AllOk;
    StepKeepsOk(c, w, e);
    UnwatchedStep(c, w, e);
  }

  lemma StepsOnward(c: Config, w: World, j: nat)
    requires Unwatched(w) && j < |w.shards| && Ok(c, w.shards[j], false) && Busy(w.shards[j])
    ensures
      var v := Step(c, w, Onward(w.shards[j], w.clock, j));
      && |v.shards| == |w.shards| && !v.shards[j].pc.Submitted?
      && Remaining(v.shards[j], v.clock) < Remaining(w.shards[j], w.clock)
      && (forall k :: 0 <= k < |w.shards| && k != j ==> v.shards[k] == w.shards[k])
  {
    hide Room, Count;
  }

  /** One busy worker can be brought to its return, and no other shard moves. */
  lemma {:induction false} FinishOne(c: Config, w: World, events: seq<Event>, j: nat) returns (more: seq<Event>)
    requires var v := Run(c, w, events); Quiet(c, v) && j < |v.shards| && !v.shards[j].pc.Submitted?
    ensures
      var v, u := Run(c, w, events), Run(c, w, more);
      && Quiet(c, u) && |u.shards| == |v.shards| && u.shards[j].pc.Returned?
      && (forall k :: 0 <= k < |v.shards| && k != j ==> u.shards[k] == v.shards[k])
    decreases var v := Run(c, w, events); Remaining(v.shards[j], v.clock)
  {
    hide Run, Ok, Step, Remaining;
    var v := Run(c, w, events);
    more := events;
    if Busy(v.shards[j]) {
      var e := Onward(v.shards[j], v.clock, j);
      StepsOnward(c, v, j);
      StepKeepsQuiet(c, v, e);
      RunThen(c, w, events, e);
      more := FinishOne(c, w, events + [e], j);
    }
  }

  /** So can those among the first m, one after the other. */
  lemma {:induction false} FinishAll(c: Config, w: World, events: seq<Event>, m: nat) returns (more: seq<Event>)
    requires var v := Run(c, w, events); Quiet(c, v) && m <= |v.shards|
    ensures
      var v, u := Run(c, w, events), Run(c, w, more);
      && Quiet(c, u) && |u.shards| == |v.shards|
      && (forall k :: 0 <= k < m ==> !Busy(u.shards[k]))
      && (forall k :: 0 <= k < |v.shards| && (k >= m || v.shards[k].pc.Submitted?) ==> u.shards[k] == v.shards[k])
  {
    hide Run, Quiet;
    more := events;
    if m > 0 {
      more := FinishAll(c, w, events, m - 1);
      if !Run(c, w, more).shards[m - 1].pc.Submitted? { more := FinishOne(c, w, more, m - 1); }
    }
  }

  /** With an empty pool, a waiting shard gets a worker after those before it. */
  lemma {:induction false} HandOut(c: Config, w: World, events: seq<Event>, i: nat) returns (more: seq<Event>)
    requires
      var v := Run(c, w, events);
      && Quiet(c, v) && i < |v.shards| && v.shards[i].pc.Submitted? && c.concurrency > 0
      && forall k :: 0 <= k < |v.shards| ==> !Busy(v.shards[k])
    ensures
      var v, u := Run(c, w, events), Run(c, w, more);
      && Quiet(c, u) && |u.shards| == |v.shards| && u.shards[i] == v.shards[i].(pc := Check)
      && (forall k :: 0 <= k < |v.shards| && k != i ==> !Busy(u.shards[k]))
      && (forall k :: i < k < |v.shards| ==> u.shards[k] == v.shards[k])
    decreases i
  {
    hide Run, Quiet, Step;
    more := events;
    if i > 0 && Run(c, w, events).shards[i - 1].pc.Submitted? {
      more := HandOut(c, w, events, i - 1);
      more := FinishOne(c, w, more, i - 1);
    }
    var v := Run(c, w, more);
    CountNone(v.shards, Busy);
    TakesWorker(c, v, i);
    StepKeepsQuiet(c, v, Worker(i, true));
    RunThen(c, w, more, Worker(i, true));
    more := more + [Worker(i, true)];
  }

  lemma TakesWorker(c: Config, w: World, i: nat)
    requires i < |w.shards| && w.shards[i].pc.Submitted? && Room(c, w.shards, i)
    ensures
      var v := Step(c, w, Worker(i, true));
      v.shards == w.shards[i := w.shards[i].(pc := Check)]
  {
    hide Room, Count, Max;
  }

  /** From wherever it stands, a shard that may be launched can be. */
  lemma ComesToLaunch(c: Config, w: World, i: nat) returns (events: seq<Event>)
    requires Quiet(c, w) && i < |w.shards| && MayLaunch(c, w.shards[i])
    ensures LaunchedAgain(Run(c, w, events), i, w.shards[i].launches)
  {
    hide Run, Ok;
    RunNothing(c, w);
    events := [];
    if w.shards[i].pc.Submitted? {
      events := FinishAll(c, w, [], |w.shards|);
      events := HandOut(c, w, events, i);
    }
    events := ReachesLaunch(c, w, events, i);
  }

  ghost predicate LaunchedAgain(v: World, i: nat, launches: nat) {
    i < |v.shards| && v.shards[i].launches > launches
  }

  /** The monitor ends as soon as no shard is queued or running, and a shard on its way from a failure to its retry is
      neither. Take any run in which the monitor has ended without a shutdown: a shard can be launched again, with no
      time limit left, exactly when its worker may still launch. */
  lemma LaunchAfterMonitorIff(c: Config, start: World, history: seq<Event>, i: nat)
    requires Initial(start) && var w := Run(c, start, history); Unwatched(w) && i < |w.shards|
    ensures
      var w := Run(c, start, history);
      (exists events :: LaunchedAgain(Run(c, w, events), i, w.shards[i].launches)) <==> MayLaunch(c, w.shards[i])
    ensures forall events :: Unwatched(Run(c, Run(c, start, history), events))
  {
    hide Run, Ok, Initial;
    var w := Run(c, start, history);
    RunKeepsOk(c, start, history);
    assert Ok(c, w.shards[i], false);
    if MayLaunch(c, w.shards[i]) {
      var events := ComesToLaunch(c, w, i);
    } else {
      forall events ensures !LaunchedAgain(Run(c, w, events), i, w.shards[i].launches) {
        RunKeepsSpent(c, w, events, i, w.shards[i].launches);
      }
    }
    forall events ensures Unwatched(Run(c, w, events)) { StaysUnwatched(c, w, events); }
  }

  /** After a shutdown some continuation launches a shard again, exactly when its worker has passed the flag. */
  lemma LaunchAfterShutdownIff(c: Config, w: World, i: nat)
    requires w.shutdown && i < |w.shards|
    ensures (exists events :: LaunchedAgain(Run(c, w, events), i, w.shards[i].launches)) <==> Committed(w.shards[i].pc)
  {
    hide Run;
    if Committed(w.shards[i].pc) {
      RunNothing(c, w);
      var events := GoesOnToLaunch(c, w, [], i);
      assert LaunchedAgain(Run(c, w, events), i, w.shards[i].launches);
    } else {
      forall events ensures !LaunchedAgain(Run(c, w, events), i, w.shards[i].launches) { ShutdownStopsLaunches(c, w, events, i); }
    }
  }

  /** Such a run: the only shard fails, the monitor finds nothing queued or running and ends, and the retry is still to come. */
  lemma RetryEscapesMonitor(c: Config) returns (events: seq<Event>)
    requires c.concurrency > 0 && c.retries >= 1
    ensures
      var v := Run(c, ONE_SHARD, events);
      Unwatched(v) && |v.shards| == 1 && MayLaunch(c, v.shards[0]) && v.shards[0].launches == 1
  {
    hide Run, One;
    events := OneReserves(c);
    events := OneLaunches(c, events, false, Polling);
    events := OneFails(c, events);
    events := OneIsOverlooked(c, events);
    OneEnds(c);
  }

  const FAILED_ONCE := Shard(RetryTest, FAILED, 1, 1, NoChild, Some(1))

  lemma OneFails(c: Config, before: seq<Event>) returns (events: seq<Event>)
    requires Run(c, ONE_SHARD, before) == One(Shard(Started, QUEUED, 1, 1, Alive, None), false, Polling, c)
    ensures Run(c, ONE_SHARD, events) == One(FAILED_ONCE, false, Polling, c)
  {
    hide Run;
    var go := Worker(0, true);
    var w0 := One(Shard(Started, QUEUED, 1, 1, Alive, None), false, Polling, c);
    var w1 := One(Shard(Wait, RUNNING, 1, 1, Alive, None), false, Polling, c);
    var w2 := One(Shard(Wait, RUNNING, 1, 1, Exited(1), None), false, Polling, c);
    var w3 := One(Shard(Reaped, RUNNING, 1, 1, NoChild, Some(1)), false, Polling, c);
    var w4 := One(Shard(MarkFailed, RUNNING, 1, 1, NoChild, Some(1)), false, Polling, c);
    events := RunSteps(c, ONE_SHARD, before, w0, go, w1);
    events := RunSteps(c, ONE_SHARD, events, w1, Exit(0, 1), w2);
    events := RunSteps(c, ONE_SHARD, events, w2, go, w3);
    events := RunSteps(c, ONE_SHARD, events, w3, go, w4);
    events := RunSteps(c, ONE_SHARD, events, w4, go, One(FAILED_ONCE, false, Polling, c));
  }

  lemma OneIsOverlooked(c: Config, before: seq<Event>) returns (events: seq<Event>)
    requires Run(c, ONE_SHARD, before) == One(FAILED_ONCE, false, Polling, c)
    ensures Run(c, ONE_SHARD, events) == One(FAILED_ONCE, false, Ended, c)
  {
    hide Run;
    events := RunSteps(c, ONE_SHARD, before, One(FAILED_ONCE, false, Polling, c), Poll, One(FAILED_ONCE, false, Test(0), c));
    events := RunSteps(c, ONE_SHARD, events, One(FAILED_ONCE, false, Test(0), c), Poll, One(FAILED_ONCE, false, Test(1), c));
    events := RunSteps(c, ONE_SHARD, events, One(FAILED_ONCE, false, Test(1), c), Poll, One(FAILED_ONCE, false, Ended, c));
  }

  lemma OneEnds(c: Config)
    requires c.retries >= 1
    ensures
      var v := One(FAILED_ONCE, false, Ended, c);
      Unwatched(v) && |v.shards| == 1 && MayLaunch(c, v.shards[0]) && v.shards[0].launches == 1
  {
  }

  // ---------------------------------------------------------------- what every verdict means

  /** What a shard's state tells about its tries, given the state it was submitted with. */
  predicate VerdictOk(c: Config, origin: State, sh: Shard) {
    && (sh.state == KILLED ==> Past(sh.pc) && 0 < sh.launches == sh.attempts)
    && (sh.state == DONE ==> 0 < sh.launches == sh.attempts)
    && (sh.state == SKIPPED ==> sh.pc.Returned? && sh.launches == sh.attempts < Tries(c) && sh.exit != Some(0))
    && (sh.pc.MarkFailed? || sh.pc.RetryTest? || sh.pc.MarkQueued? ==> sh.launches > 0 && sh.exit.Some? && sh.exit != Some(0))
    && (sh.attempts == 0 ==> sh.state == if sh.pc.Returned? && origin == QUEUED then SKIPPED else origin)
    && (sh.pc.Skip? && sh.attempts == 0 ==> origin == QUEUED)
    && (sh.state == FAILED && 0 < sh.launches == sh.attempts ==>
          || sh.pc.Started? || sh.pc.RetryTest? || sh.pc.MarkQueued?
          || (sh.pc.Returned? && sh.launches == Tries(c) && sh.exit.Some? && sh.exit != Some(0)))
  }

  ghost predicate VerdictsOk(c: Config, start: World, w: World) {
    && |w.shards| == |start.shards|
    && (forall i :: 0 <= i < |w.shards| ==> VerdictOk(c, start.shards[i].state, w.shards[i]))
    && Tried(w)
  }

  lemma LocalKeepsVerdict(c: Config, origin: State, sh: Shard, room: bool, shutdown: bool, clock: real, slot: Slot, launched: bool)
    requires Ok(c, sh, shutdown) && VerdictOk(c, origin, sh) && (origin == QUEUED || origin == FAILED)
    ensures VerdictOk(c, origin, Local(c, sh, room, shutdown, clock, slot, launched))
  {
  }

  lemma LocalKeepsTries(c: Config, sh: Shard, room: bool, clock: real, slot: Slot, launched: bool)
    requires Past(sh.pc) && 0 < sh.launches == sh.attempts
    ensures var v := Local(c, sh, room, true, clock, slot, launched); 0 < v.launches == v.attempts
  {
  }

  lemma StepKeepsVerdicts(c: Config, start: World, w: World, e: Event)
    requires Initial(start) && AllOk(c, w) && VerdictsOk(c, start, w)
    ensures VerdictsOk(c, start, Step(c, w, e))
  {
    hide Local, Room, Count, Max, VerdictOk;
    var v := Step(c, w, e);
    forall i | 0 <= i < |v.shards| ensures VerdictOk(c, start.shards[i].state, v.shards[i]) {
      OthersKeepVerdict(c, start.shards[i].state, w.shards[i], if e.Exit? then e.code else 0);
      if e.Worker? && e.i == i {
        LocalKeepsVerdict(c, start.shards[i].state, w.shards[i], Room(c, w.shards, i), w.shutdown, w.clock, NextSlot(w), e.launched);
      }
    }
    SweptIsTried(c, w, e);
  }

  lemma OthersKeepVerdict(c: Config, origin: State, sh: Shard, code: int)
    requires VerdictOk(c, origin, sh)
    ensures VerdictOk(c, origin, Killed(sh)) && VerdictOk(c, origin, sh.(child := Exited(code)))
    ensures Past(sh.pc) && 0 < sh.launches == sh.attempts ==> VerdictOk(c, origin, sh.(state := KILLED))
  {
  }

  /** A shard that the monitor is about to kill or mark. */
  ghost predicate Tried(w: World) {
    (w.monitor.Kill? || w.monitor.Mark?) && w.monitor.k < |w.shards| ==>
      var sh := w.shards[w.monitor.k]; w.shutdown && Past(sh.pc) && 0 < sh.launches == sh.attempts
  }

  lemma SweptIsTried(c: Config, w: World, e: Event)
    requires AllOk(c, w) && Tried(w)
    ensures Tried(Step(c, w, e))
  {
    hide Local, Room, Count, Max;
    if e.Worker? && e.i < |w.shards| {
      var sh, room := w.shards[e.i], Room(c, w.shards, e.i);
      if Past(sh.pc) && w.shutdown && 0 < sh.launches == sh.attempts {
        LocalStaysPast(c, sh, room, w.clock, NextSlot(w), e.launched);
        LocalKeepsTries(c, sh, room, w.clock, NextSlot(w), e.launched);
      }
    } else if w.monitor.Look? && w.monitor.k < |w.shards| {
      assert Ok(c, w.shards[w.monitor.k], w.shutdown);
    }
  }

  lemma {:induction false} RunKeepsVerdicts(c: Config, start: World, events: seq<Event>)
    requires Initial(start)
    ensures VerdictsOk(c, start, Run(c, start, events))
  {
    if |events| > 0 {
      RunKeepsVerdicts(c, start, events[..|events| - 1]);
      RunKeepsOk(c, start, events[..|events| - 1]);
      StepKeepsVerdicts(c, start, Run(c, start, events[..|events| - 1]), events[|events| - 1]);
    }
  }

  /** What the verdict on a shard whose worker has returned tells, with or without a shutdown. Done: its last child exited
      with zero. Killed: it was launched and the flag is set. Skipped: the flag is set, no child of it exited with zero,
      and it had tries left. Failed: a launch did not succeed, or its last try exited with another code, or it was
      submitted as failed and, the flag set, never tried; one submitted as queued and never tried is skipped. */
  lemma VerdictMeans(c: Config, start: World, events: seq<Event>, i: nat)
    requires Initial(start) && i < |start.shards|
    ensures
      var v := Run(c, start, events);
      && i < |v.shards|
      && var sh := v.shards[i];
      && (sh.pc.Returned? ==>
            match sh.state
            case DONE => sh.exit == Some(0) && 0 < sh.launches == sh.attempts
            case KILLED => v.shutdown && 0 < sh.launches == sh.attempts
            case SKIPPED => v.shutdown && sh.exit != Some(0) && sh.launches == sh.attempts < Tries(c)
            case FAILED =>
              || sh.launches < sh.attempts
              || (sh.launches == Tries(c) && sh.exit.Some? && sh.exit != Some(0))
              || (v.shutdown && sh.attempts == 0 && start.shards[i].state == FAILED)
            case _ => false)
      && (sh.pc.Returned? && sh.attempts == 0 ==> sh.state == if start.shards[i].state == QUEUED then SKIPPED else FAILED)
  {
    hide Run;
    RunKeepsVerdicts(c, start, events);
    RunKeepsOk(c, start, events);
    var v := Run(c, start, events);
    assert Ok(c, v.shards[i], v.shutdown) && VerdictOk(c, start.shards[i].state, v.shards[i]);
  }
}
