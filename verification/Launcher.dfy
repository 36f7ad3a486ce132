/** The shard launcher: a thread pool runs one worker per shard, each of which launches a child process, waits
    for it and retries it, while the monitor may set the shutdown flag and sweep over the shards, killing
    children and marking shards. Every read and write of the shared fields is a step of its own, and the steps
    of all threads, the children's exits and the clock interleave freely. */
module Launcher {
  import opened Sequences

  datatype Config = Config(concurrency: nat, retries: int, stagger: real)

  datatype State = QUEUED | RUNNING | DONE | FAILED | KILLED | SKIPPED

  /** A start slot by its number, in the order of reservation, and its time; also a launch, by the number of its slot and
      the time of the launch. */
  datatype Slot = Slot(n: nat, time: real)

  /** Where a worker stands in run_shard. */
  datatype Pc =
    | Submitted              // waiting for a pool thread
    | Check                  // top of the loop, about to look at the shutdown flag
    | SkipTest | Skip        // the flag was set: look at the state, then mark the shard skipped
    | Reserve                // about to take a start slot under the lock
    | Sleep(slot: Slot)
    | Launch(slot: Slot)
    | LaunchFailed
    | Started                // the child runs, the state does not say so yet
    | Wait
    | Reaped                 // the exit code is stored, about to look at the shutdown flag
    | MarkKilled | MarkDone | MarkFailed
    | RetryTest | MarkQueued
    | Returned

  datatype Child = NoChild | Alive | Exited(code: int)

  datatype Shard = Shard(pc: Pc, state: State, attempts: nat, launches: nat, child: Child, exit: Option<int>)

  /** The monitor: in its loop test at shard k, in the loop's body, sweeping at shard k (looking, killing, marking), or
      finished. */
  datatype Monitor = Test(k: nat) | Polling | Look(k: nat) | Kill(k: nat) | Mark(k: nat) | Ended

  /** `slots` and `starts` are history: the times of the slots reserved so far, and the launches. */
  datatype World = World(
    shards: seq<Shard>, shutdown: bool, monitor: Monitor, clock: real, nextStart: real, slots: seq<real>, starts: seq<Slot>)

  datatype Event =
    | Tick(seconds: real)
    | Worker(i: nat, launched: bool)
    | Exit(i: nat, code: int)
    | Limit                  // the time limit, or an interrupt at any point of the monitor
    | Sweep
    | Stall(i: nat)
    | Poll                   // the loop's body ends, or its test looks at one more shard

  function Max(a: real, b: real): real { if a < b then b else a }

  // ---------------------------------------------------------------- steps

  /** A worker's next step; only the pool's capacity, the flag, the clock and the slot it would get come from outside. */
  function Local(c: Config, sh: Shard, room: bool, shutdown: bool, clock: real, slot: Slot, launched: bool): Shard {
    match sh.pc
    case Submitted => if room then sh.(pc := Check) else sh
    case Check => sh.(pc := if shutdown then SkipTest else Reserve)
    case SkipTest => sh.(pc := if sh.state == QUEUED then Skip else Returned)
    case Skip => sh.(state := SKIPPED, pc := Returned)
    case Reserve => sh.(attempts := sh.attempts + 1, pc := Sleep(slot))
    case Sleep(s) => if s.time <= clock then sh.(pc := Launch(s)) else sh
    case Launch(_) => if launched then sh.(child := Alive, launches := sh.launches + 1, pc := Started) else sh.(pc := LaunchFailed)
    case LaunchFailed => sh.(state := FAILED, pc := Returned)
    case Started => sh.(state := RUNNING, pc := Wait)
    case Wait => if sh.child.Exited? then sh.(exit := Some(sh.child.code), child := NoChild, pc := Reaped) else sh
    case Reaped => sh.(pc := if shutdown then MarkKilled else if sh.exit == Some(0) then MarkDone else MarkFailed)
    case MarkKilled => sh.(state := KILLED, pc := Returned)
    case MarkDone => sh.(state := DONE, pc := Returned)
    case MarkFailed => sh.(state := FAILED, pc := RetryTest)
    case RetryTest => sh.(pc := if sh.attempts <= c.retries then MarkQueued else Returned)
    case MarkQueued => sh.(state := QUEUED, pc := Check)
    case Returned => sh
  }

  function Killed(sh: Shard): Shard {
    if sh.child.Alive? then sh.(child := Exited(-9)) else sh
  }

  predicate Busy(sh: Shard) { !sh.pc.Submitted? && !sh.pc.Returned? }

  /** The pool has a free thread and the shards before this one have been handed out. */
  predicate Room(c: Config, shards: seq<Shard>, i: nat)
    requires i < |shards|
  {
    Count(shards, Busy) < c.concurrency && (i == 0 || !shards[i - 1].pc.Submitted?)
  }

  function NextSlot(w: World): Slot { Slot(|w.slots|, Max(w.clock, w.nextStart)) }

  function WorkerStep(c: Config, w: World, i: nat, launched: bool): World
    requires i < |w.shards|
  {
    var sh, slot := w.shards[i], NextSlot(w);
    var next := w.(shards := w.shards[i := Local(c, sh, Room(c, w.shards, i), w.shutdown, w.clock, slot, launched)]);
    if sh.pc.Reserve? then next.(nextStart := slot.time + c.stagger, slots := w.slots + [slot.time])
    else if sh.pc.Launch? && launched then next.(starts := w.starts + [Slot(sh.pc.slot.n, w.clock)])
    else next
  }

  function SweepStep(w: World): World {
    match w.monitor
    case Look(k) =>
      w.(monitor := if k >= |w.shards| then Ended else if w.shards[k].state == RUNNING then Kill(k) else Look(k + 1))
    case Kill(k) => if k < |w.shards| then w.(shards := w.shards[k := Killed(w.shards[k])], monitor := Mark(k)) else w
    case Mark(k) => if k < |w.shards| then w.(shards := w.shards[k := w.shards[k].(state := KILLED)], monitor := Look(k + 1)) else w
    case _ => w
  }

  function PollStep(w: World): World {
    match w.monitor
    case Polling => w.(monitor := Test(0))
    case Test(k) => w.(monitor := if k >= |w.shards| then Ended else if Unfinished(w.shards[k]) then Polling else Test(k + 1))
    case _ => w
  }

  predicate Unfinished(sh: Shard) { sh.state == QUEUED || sh.state == RUNNING }

  /** An event that is not enabled leaves the world as it is. */
  function Step(c: Config, w: World, e: Event): World {
    match e
    case Tick(s) => if s >= 0.0 then w.(clock := w.clock + s) else w
    case Worker(i, launched) => if i < |w.shards| then WorkerStep(c, w, i, launched) else w
    case Exit(i, code) =>
      if i < |w.shards| && w.shards[i].child.Alive? then w.(shards := w.shards[i := w.shards[i].(child := Exited(code))]) else w
    case Limit => if w.monitor.Ended? then w else w.(shutdown := true, monitor := Look(0))
    case Sweep => SweepStep(w)
    case Stall(i) =>
      if w.monitor.Polling? && i < |w.shards| && w.shards[i].state == RUNNING then w.(shards := w.shards[i := Killed(w.shards[i])]) else w
    case Poll => PollStep(w)
  }

  function Run(c: Config, w: World, events: seq<Event>): World {
    if |events| == 0 then w else Step(c, Run(c, w, events[..|events| - 1]), events[|events| - 1])
  }

  /** Before the pool starts: shards with an unreadable manifest are marked failed but submitted all the same. */
  ghost predicate Initial(w: World) {
    && !w.shutdown && w.monitor == Test(0) && w.slots == [] && w.starts == []
    && forall i :: 0 <= i < |w.shards| ==>
         w.shards[i] == Shard(Submitted, QUEUED, 0, 0, NoChild, None) || w.shards[i] == Shard(Submitted, FAILED, 0, 0, NoChild, None)
  }

  // ---------------------------------------------------------------- one shard

  predicate Terminal(s: State) { s == DONE || s == FAILED || s == KILLED || s == SKIPPED }

  function Tries(c: Config): nat { if c.retries < 0 then 1 else c.retries + 1 }

  /** The worker has passed the flag and not yet launched. */
  predicate Committed(pc: Pc) { pc.Reserve? || pc.Sleep? || pc.Launch? }

  predicate Counters(c: Config, sh: Shard) {
    match sh.pc
    case Submitted => sh.attempts == sh.launches == 0
    case Check | SkipTest | Skip | Reserve | MarkQueued => sh.launches == sh.attempts < Tries(c)
    case Sleep(_) | Launch(_) | LaunchFailed => sh.launches + 1 == sh.attempts <= Tries(c)
    case Returned => sh.launches <= sh.attempts <= Tries(c)
    case _ => 0 < sh.launches == sh.attempts <= Tries(c)
  }

  predicate Outcome(sh: Shard, shutdown: bool) {
    && (sh.child != NoChild <==> sh.pc.Started? || sh.pc.Wait?)
    && (sh.state == DONE ==> sh.pc.Returned? && sh.exit == Some(0))
    && (sh.pc.Reaped? ==> sh.exit.Some?)
    && (sh.pc.MarkDone? ==> sh.exit == Some(0))
    && (sh.exit == Some(0) ==> sh.pc.Reaped? || sh.pc.MarkKilled? || sh.pc.MarkDone? || sh.pc.Returned?)
    && (sh.exit == Some(0) && sh.pc.Returned? ==> sh.state == DONE || (shutdown && sh.state == KILLED))
    && (sh.state == RUNNING ==> sh.pc.Wait? || sh.pc.Reaped? || sh.pc.MarkKilled? || sh.pc.MarkDone? || sh.pc.MarkFailed?)
    && (!shutdown && (sh.pc.Wait? || sh.pc.Reaped? || sh.pc.MarkDone? || sh.pc.MarkFailed?) ==> sh.state == RUNNING)
    && (sh.pc.RetryTest? ==> sh.state == FAILED || sh.state == KILLED)
    && (sh.pc.Returned? ==> Terminal(sh.state))
    && (sh.state == KILLED || sh.state == SKIPPED || sh.pc.SkipTest? || sh.pc.Skip? || sh.pc.MarkKilled? ==> shutdown)
  }

  /** Without a shutdown a shard is given up only after a failed launch or its last try. */
  predicate Exhausted(c: Config, sh: Shard, shutdown: bool) {
    !shutdown && sh.pc.Returned? && sh.state == FAILED ==> sh.launches < sh.attempts || sh.attempts == Tries(c)
  }

  predicate Ok(c: Config, sh: Shard, shutdown: bool) {
    Counters(c, sh) && Outcome(sh, shutdown) && Exhausted(c, sh, shutdown)
  }

  lemma LocalKeepsOk(c: Config, sh: Shard, room: bool, shutdown: bool, clock: real, slot: Slot, launched: bool)
    requires Ok(c, sh, shutdown)
    ensures Ok(c, Local(c, sh, room, shutdown, clock, slot, launched), shutdown)
  {
    LocalKeepsCounters(c, sh, room, shutdown, clock, slot, launched);
    LocalKeepsExhausted(c, sh, room, shutdown, clock, slot, launched);
    hide Counters, Exhausted;
  }

  lemma LocalKeepsCounters(c: Config, sh: Shard, room: bool, shutdown: bool, clock: real, slot: Slot, launched: bool)
    requires Counters(c, sh)
    ensures Counters(c, Local(c, sh, room, shutdown, clock, slot, launched))
  {
  }

  lemma LocalKeepsExhausted(c: Config, sh: Shard, room: bool, shutdown: bool, clock: real, slot: Slot, launched: bool)
    requires Ok(c, sh, shutdown)
    ensures Exhausted(c, Local(c, sh, room, shutdown, clock, slot, launched), shutdown)
  {
  }

  lemma OthersKeepOk(c: Config, sh: Shard, shutdown: bool, code: int)
    requires Ok(c, sh, shutdown)
    ensures Ok(c, sh, true)
    ensures Ok(c, Killed(sh), shutdown)
    ensures sh.child.Alive? ==> Ok(c, sh.(child := Exited(code)), shutdown)
    ensures shutdown ==> Ok(c, sh.(state := KILLED), shutdown)
  {
  }

  // ---------------------------------------------------------------- every interleaving

  ghost predicate AllOk(c: Config, w: World) {
    && (forall i :: 0 <= i < |w.shards| ==> Ok(c, w.shards[i], w.shutdown))
    && (!w.shutdown ==> w.monitor.Test? || w.monitor.Polling? || w.monitor.Ended?)
  }

  lemma StepKeepsOk(c: Config, w: World, e: Event)
    requires AllOk(c, w)
    ensures AllOk(c, Step(c, w, e))
  {
    hide Ok, Local, Room, Count, Max;
    var v := Step(c, w, e);
    forall i | 0 <= i < |v.shards| ensures Ok(c, v.shards[i], v.shutdown) {
      var sh := w.shards[i];
      OthersKeepOk(c, sh, w.shutdown, if e.Exit? then e.code else 0);
      if e.Worker? && e.i < |w.shards| {
        LocalKeepsOk(c, sh, Room(c, w.shards, e.i), w.shutdown, w.clock, NextSlot(w), e.launched);
      }
    }
  }

  lemma {:induction false} RunKeepsOk(c: Config, w: World, events: seq<Event>)
    requires Initial(w)
    ensures AllOk(c, Run(c, w, events)) && |Run(c, w, events).shards| == |w.shards|
  {
    if |events| > 0 {
      RunKeepsOk(c, w, events[..|events| - 1]);
      StepKeepsOk(c, Run(c, w, events[..|events| - 1]), events[|events| - 1]);
    }
  }

  /** No shard is launched more often than one first try and the retries allow. */
  lemma LaunchesAreBounded(c: Config, w: World, events: seq<Event>, i: nat)
    requires Initial(w) && i < |w.shards|
    ensures var v := Run(c, w, events); i < |v.shards| && v.shards[i].launches <= v.shards[i].attempts <= Tries(c)
  {
    RunKeepsOk(c, w, events);
    assert Ok(c, Run(c, w, events).shards[i], Run(c, w, events).shutdown);
  }

  /** Once every worker has returned, every shard is in a terminal state and no child is left, whatever the
      monitor is doing. */
  lemma ReturnedIsTerminal(c: Config, w: World, events: seq<Event>)
    requires Initial(w)
    ensures
      var v := Run(c, w, events);
      (forall i :: 0 <= i < |v.shards| ==> v.shards[i].pc.Returned?) ==>
        forall i :: 0 <= i < |v.shards| ==> Terminal(v.shards[i].state) && v.shards[i].child == NoChild
  {
    RunKeepsOk(c, w, events);
    var v := Run(c, w, events);
    forall i | 0 <= i < |v.shards| && v.shards[i].pc.Returned? ensures Terminal(v.shards[i].state) && v.shards[i].child == NoChild {
      assert Ok(c, v.shards[i], v.shutdown);
    }
  }

  /** Without a shutdown the verdict is exact: done if the last child exited with zero, failed otherwise, and then only
      after a launch that failed or after every try was used. With one,
      a shard reported done still exited with zero, and one that did can at worst be reported killed. */
  lemma VerdictIsExact(c: Config, w: World, events: seq<Event>, i: nat)
    requires Initial(w) && i < |w.shards|
    ensures
      var v := Run(c, w, events);
      && i < |v.shards|
      && (v.shards[i].pc.Returned? ==>
            && (v.shards[i].state == DONE ==> v.shards[i].exit == Some(0))
            && (v.shards[i].exit == Some(0) ==> v.shards[i].state == DONE || (v.shutdown && v.shards[i].state == KILLED))
            && (!v.shutdown ==> v.shards[i].state == if v.shards[i].exit == Some(0) then DONE else FAILED)
            && (!v.shutdown && v.shards[i].state == FAILED ==>
                  v.shards[i].launches < v.shards[i].attempts || v.shards[i].launches == Tries(c)))
  {
    RunKeepsOk(c, w, events);
    assert Ok(c, Run(c, w, events).shards[i], Run(c, w, events).shutdown);
  }

  // ---------------------------------------------------------------- children alive at once

  predicate HasChild(sh: Shard) { sh.child.Alive? }

  lemma LocalKeepsBusy(c: Config, sh: Shard, room: bool, shutdown: bool, clock: real, slot: Slot, launched: bool)
    ensures Busy(Local(c, sh, room, shutdown, clock, slot, launched)) ==> Busy(sh) || room
  {
  }

  lemma StepKeepsPool(c: Config, w: World, e: Event)
    requires Count(w.shards, Busy) <= c.concurrency
    ensures Count(Step(c, w, e).shards, Busy) <= c.concurrency
  {
    var v := Step(c, w, e);
    match e {
      case Worker(i, launched) =>
        if i < |w.shards| {
          var room, slot := Room(c, w.shards, i), NextSlot(w);
          LocalKeepsBusy(c, w.shards[i], room, w.shutdown, w.clock, slot, launched);
          CountUpdate(w.shards, Busy, i, Local(c, w.shards[i], room, w.shutdown, w.clock, slot, launched));
          hide Local, Count;
        }
      case Exit(i, code) =>
        if i < |w.shards| { CountUpdate(w.shards, Busy, i, w.shards[i].(child := Exited(code))); }
      case Stall(i) =>
        if i < |w.shards| { CountUpdate(w.shards, Busy, i, Killed(w.shards[i])); }
      case Sweep =>
        if w.monitor.Kill? && w.monitor.k < |w.shards| { CountUpdate(w.shards, Busy, w.monitor.k, Killed(w.shards[w.monitor.k])); }
        if w.monitor.Mark? && w.monitor.k < |w.shards| { CountUpdate(w.shards, Busy, w.monitor.k, w.shards[w.monitor.k].(state := KILLED)); }
      case _ =>
    }
  }

  /** At no moment are more children alive than the concurrency allows. */
  lemma {:induction false} PoolIsBounded(c: Config, w: World, events: seq<Event>)
    requires Initial(w)
    ensures Count(Run(c, w, events).shards, Busy) <= c.concurrency
    ensures Count(Run(c, w, events).shards, HasChild) <= c.concurrency
  {
    var v := Run(c, w, events);
    if |events| == 0 {
      CountNone(w.shards, Busy);
    } else {
      PoolIsBounded(c, w, events[..|events| - 1]);
      StepKeepsPool(c, Run(c, w, events[..|events| - 1]), events[|events| - 1]);
    }
    RunKeepsOk(c, w, events);
    forall i | 0 <= i < |v.shards| && HasChild(v.shards[i]) ensures Busy(v.shards[i]) {
      assert Ok(c, v.shards[i], v.shutdown);
    }
    CountImplied(v.shards, HasChild, Busy);
  }

  // ---------------------------------------------------------------- start slots

  ghost predicate Apart(slots: seq<real>, stagger: real) {
    forall k :: 0 < k < |slots| ==> slots[k] >= slots[k - 1] + stagger
  }

  ghost predicate Spaced(c: Config, w: World) {
    && Apart(w.slots, c.stagger)
    && (|w.slots| > 0 ==> w.nextStart == w.slots[|w.slots| - 1] + c.stagger)
  }

  lemma {:induction false} RunKeepsSpacing(c: Config, w: World, events: seq<Event>)
    requires Initial(w)
    ensures Spaced(c, Run(c, w, events))
  {
    if |events| > 0 {
      RunKeepsSpacing(c, w, events[..|events| - 1]);
      StepKeepsSpacing(c, Run(c, w, events[..|events| - 1]), events[|events| - 1]);
    }
  }

  lemma StepKeepsSpacing(c: Config, w: World, e: Event)
    requires Spaced(c, w)
    ensures Spaced(c, Step(c, w, e))
  {
    hide Local, Room, Count, Killed;
    var v := Step(c, w, e);
    assert (v.slots == w.slots && v.nextStart == w.nextStart)
      || (var s := Max(w.clock, w.nextStart); v.slots == w.slots + [s] && v.nextStart == s + c.stagger);
  }

  lemma {:induction false} SlotsChain(slots: seq<real>, stagger: real, i: nat, j: nat)
    requires i <= j < |slots| && Apart(slots, stagger)
    ensures slots[j] - slots[i] >= (j - i) as real * stagger
  {
    if i < j {
      SlotsChain(slots, stagger, i, j - 1);
      assert (j - i) as real * stagger == (j - 1 - i) as real * stagger + stagger;
    }
  }

  /** However the workers interleave, the start slots they are given are that many staggers apart. */
  lemma SlotsAreStaggered(c: Config, w: World, events: seq<Event>, i: nat, j: nat)
    requires Initial(w) && i <= j < |Run(c, w, events).slots|
    ensures var s := Run(c, w, events).slots; s[j] - s[i] >= (j - i) as real * c.stagger
  {
    hide Run, Step, Initial, Apart;
    RunKeepsSpacing(c, w, events);
    SlotsChain(Run(c, w, events).slots, c.stagger, i, j);
  }

  // ---------------------------------------------------------------- launches

  /** The number of a slot that its worker still holds. */
  predicate Holds(pc: Pc) { pc.Sleep? || pc.Launch? }

  /** A worker that holds a slot holds a reserved one, and stands at its launch no earlier than that slot. */
  predicate Punctual(w: World, pc: Pc) {
    && (Holds(pc) ==> pc.slot.n < |w.slots| && w.slots[pc.slot.n] == pc.slot.time)
    && (pc.Launch? ==> pc.slot.time <= w.clock)
  }

  predicate StartOk(w: World, start: Slot) {
    start.n < |w.slots| && w.slots[start.n] <= start.time <= w.clock
  }

  /** No slot is held or used twice. */
  ghost predicate OneLaunchPerSlot(w: World) {
    && (forall j, k :: 0 <= j < k < |w.starts| ==> w.starts[j].n != w.starts[k].n)
    && (forall i, k :: 0 <= i < |w.shards| && 0 <= k < |w.starts| && Holds(w.shards[i].pc) ==> w.shards[i].pc.slot.n != w.starts[k].n)
    && (forall i, j :: 0 <= i < j < |w.shards| && Holds(w.shards[i].pc) && Holds(w.shards[j].pc) ==>
          w.shards[i].pc.slot.n != w.shards[j].pc.slot.n)
  }

  ghost predicate OnTime(w: World) {
    && (forall i :: 0 <= i < |w.shards| ==> Punctual(w, w.shards[i].pc))
    && (forall k :: 0 <= k < |w.starts| ==> StartOk(w, w.starts[k]))
  }

  /** What a worker's step does to the slot it holds. */
  lemma LocalHolds(c: Config, sh: Shard, room: bool, shutdown: bool, clock: real, slot: Slot, launched: bool)
    ensures
      var q := Local(c, sh, room, shutdown, clock, slot, launched).pc;
      if sh.pc.Reserve? then q == Sleep(slot)
      else Holds(q) ==> sh.pc.Sleep? && q.slot == sh.pc.slot && (q.Launch? ==> sh.pc.slot.time <= clock)
  {
  }

  /** What a step does to slots and launches: at most one worker moves, and it may reserve the next slot or launch. */
  ghost predicate SlotStep(w: World, v: World) {
    && |v.shards| == |w.shards| && v.clock >= w.clock
    && exists i :: SlotStepOf(w, v, i)
  }

  ghost predicate SlotStepOf(w: World, v: World, i: nat) {
    && |v.shards| == |w.shards|
    && (forall j :: 0 <= j < |w.shards| && j != i ==> v.shards[j].pc == w.shards[j].pc)
    && (if i >= |w.shards| then v.slots == w.slots && v.starts == w.starts
        else
          var p, q := w.shards[i].pc, v.shards[i].pc;
          if p.Reserve? then v.slots == w.slots + [NextSlot(w).time] && v.starts == w.starts && q == Sleep(NextSlot(w))
          else
            && v.slots == w.slots
            && (v.starts == w.starts || (p.Launch? && v.starts == w.starts + [Slot(p.slot.n, w.clock)]))
            && (Holds(q) ==> p.Sleep? && q.slot == p.slot && (q.Launch? ==> p.slot.time <= w.clock)))
  }

  lemma StepIsSlotStep(c: Config, w: World, e: Event)
    ensures SlotStep(w, Step(c, w, e))
  {
    hide Local, Room, Count, Max;
    var v := Step(c, w, e);
    if e.Worker? && e.i < |w.shards| {
      var sh, room := w.shards[e.i], Room(c, w.shards, e.i);
      LocalHolds(c, sh, room, w.shutdown, w.clock, NextSlot(w), e.launched);
      assert SlotStepOf(w, v, e.i);
    } else {
      assert SlotStepOf(w, v, |w.shards|);
    }
  }

  lemma SlotStepKeepsOnTime(w: World, v: World)
    requires OnTime(w) && SlotStep(w, v)
    ensures OnTime(v)
  {
    hide Max;
    var i: nat :| SlotStepOf(w, v, i);
    forall j | 0 <= j < |v.shards| ensures Punctual(v, v.shards[j].pc) { assert Punctual(w, w.shards[j].pc); }
    forall k | 0 <= k < |v.starts| ensures StartOk(v, v.starts[k]) {
      if k < |w.starts| {
        assert StartOk(w, w.starts[k]);
      } else {
        assert Punctual(w, w.shards[i].pc);
      }
    }
  }

  lemma SlotStepKeepsOneLaunch(w: World, v: World)
    requires OnTime(w) && OneLaunchPerSlot(w) && SlotStep(w, v)
    ensures OneLaunchPerSlot(v)
  {
    hide Max;
    var i: nat :| SlotStepOf(w, v, i);
    if i < |w.shards| { assert Punctual(w, w.shards[i].pc); }
    assert forall j :: 0 <= j < |w.shards| ==> Punctual(w, w.shards[j].pc);
    assert forall k :: 0 <= k < |w.starts| ==> StartOk(w, w.starts[k]);
  }

  lemma {:induction false} RunKeepsOnTime(c: Config, w: World, events: seq<Event>)
    requires Initial(w)
    ensures OnTime(Run(c, w, events)) && OneLaunchPerSlot(Run(c, w, events))
  {
    if |events| > 0 {
      RunKeepsOnTime(c, w, events[..|events| - 1]);
      hide Step, OnTime, OneLaunchPerSlot;
      var u := Run(c, w, events[..|events| - 1]);
      StepIsSlotStep(c, u, events[|events| - 1]);
      SlotStepKeepsOnTime(u, Run(c, w, events));
      SlotStepKeepsOneLaunch(u, Run(c, w, events));
    }
  }

  function Launches(): Shard -> nat { (sh: Shard) => sh.launches }

  lemma LocalLaunches(c: Config, sh: Shard, room: bool, shutdown: bool, clock: real, slot: Slot, launched: bool)
    ensures
      Local(c, sh, room, shutdown, clock, slot, launched).launches == sh.launches + if sh.pc.Launch? && launched then 1 else 0
  {
  }

  lemma StepRecords(c: Config, w: World, e: Event)
    ensures SumBy(Step(c, w, e).shards, Launches()) - |Step(c, w, e).starts| == SumBy(w.shards, Launches()) - |w.starts|
  {
    hide Local, Room, Count, SumBy, Max;
    if e.Worker? && e.i < |w.shards| {
      var sh, room := w.shards[e.i], Room(c, w.shards, e.i);
      LocalLaunches(c, sh, room, w.shutdown, w.clock, NextSlot(w), e.launched);
      SumUpdate(w.shards, Launches(), e.i, Local(c, sh, room, w.shutdown, w.clock, NextSlot(w), e.launched));
    } else if e.Exit? && e.i < |w.shards| {
      SumUpdate(w.shards, Launches(), e.i, w.shards[e.i].(child := Exited(e.code)));
    } else if e.Stall? && e.i < |w.shards| {
      SumUpdate(w.shards, Launches(), e.i, Killed(w.shards[e.i]));
    } else if e.Sweep? && (w.monitor.Kill? || w.monitor.Mark?) && w.monitor.k < |w.shards| {
      SumUpdate(w.shards, Launches(), w.monitor.k, Killed(w.shards[w.monitor.k]));
      SumUpdate(w.shards, Launches(), w.monitor.k, w.shards[w.monitor.k].(state := KILLED));
    }
  }

  /** The launches recorded are all there are. */
  lemma {:induction false} LaunchesAreRecorded(c: Config, w: World, events: seq<Event>)
    requires Initial(w)
    ensures |Run(c, w, events).starts| == SumBy(Run(c, w, events).shards, Launches())
  {
    if |events| == 0 {
      NoLaunches(w.shards);
    } else {
      LaunchesAreRecorded(c, w, events[..|events| - 1]);
      StepRecords(c, Run(c, w, events[..|events| - 1]), events[|events| - 1]);
    }
  }

  lemma {:induction false} NoLaunches(shards: seq<Shard>)
    requires forall i :: 0 <= i < |shards| ==> shards[i].launches == 0
    ensures SumBy(shards, Launches()) == 0
  {
    if |shards| > 0 { NoLaunches(shards[1..]); }
  }

  /** Every launch happens at or after a slot of its own, so the child with the n-th slot starts at least n staggers after
      the first slot, however the workers interleave. */
  lemma LaunchesAreStaggered(c: Config, w: World, events: seq<Event>, k: nat)
    requires Initial(w) && k < |Run(c, w, events).starts|
    ensures
      var v := Run(c, w, events);
      var n, time := v.starts[k].n, v.starts[k].time;
      && n < |v.slots| && v.slots[0] + n as real * c.stagger <= v.slots[n] <= time <= v.clock
      && (forall j :: 0 <= j < |v.starts| && j != k ==> v.starts[j].n != n)
  {
    hide Run, Initial;
    RunKeepsOnTime(c, w, events);
    var v := Run(c, w, events);
    assert StartOk(v, v.starts[k]);
    SlotsAreStaggered(c, w, events, 0, v.starts[k].n);
  }

  /** The rate limit: m launches take at least m - 1 staggers, counted from the first slot. */
  lemma LaunchRateIsBounded(c: Config, w: World, events: seq<Event>)
    requires Initial(w) && |Run(c, w, events).starts| > 0
    ensures
      var v := Run(c, w, events);
      |v.slots| > 0 && (c.stagger >= 0.0 ==> v.slots[0] + (|v.starts| - 1) as real * c.stagger <= v.clock)
  {
    hide Run, Initial, OnTime, OneLaunchPerSlot;
    RunKeepsOnTime(c, w, events);
    var v := Run(c, w, events);
    var k := HighNumber(v);
    LaunchesAreStaggered(c, w, events, k);
    if c.stagger >= 0.0 { EarlierStill(v.slots[0], c.stagger, |v.starts| - 1, v.starts[k].n, v.clock); }
  }

  /** Of m launches, one has a slot with m - 1 slots before it. */
  lemma HighNumber(w: World) returns (k: nat)
    requires OneLaunchPerSlot(w) && |w.starts| > 0
    ensures k < |w.starts| && w.starts[k].n >= |w.starts| - 1
  {
    var numbers := seq(|w.starts|, i requires 0 <= i < |w.starts| => w.starts[i].n);
    assert numbers[0] in numbers;
    if forall x :: x in numbers ==> x < |w.starts| - 1 {
      DistinctBelow(numbers, |w.starts| - 1);
    }
    var x :| x in numbers && x >= |w.starts| - 1;
    k :| 0 <= k < |numbers| && numbers[k] == x;
  }

  lemma EarlierStill(first: real, stagger: real, m: nat, n: nat, clock: real)
    requires stagger >= 0.0 && m <= n && first + n as real * stagger <= clock
    ensures first + m as real * stagger <= clock
  {
    assert (n - m) as real * stagger >= 0.0;
    assert n as real * stagger == m as real * stagger + (n - m) as real * stagger;
  }

  // ---------------------------------------------------------------- after the flag is set

  /** Launches so far, and the one that a worker past the flag is still going to make. */
  function Due(sh: Shard): nat { sh.launches + if Committed(sh.pc) then 1 else 0 }

  lemma LocalKeepsDue(c: Config, sh: Shard, room: bool, clock: real, slot: Slot, launched: bool)
    ensures Due(Local(c, sh, room, true, clock, slot, launched)) <= Due(sh)
  {
  }

  lemma StepKeepsDue(c: Config, w: World, e: Event, i: nat)
    requires w.shutdown && i < |w.shards|
    ensures var v := Step(c, w, e); v.shutdown && i < |v.shards| && Due(v.shards[i]) <= Due(w.shards[i])
  {
    if e.Worker? && e.i < |w.shards| {
      LocalKeepsDue(c, w.shards[e.i], Room(c, w.shards, e.i), w.clock, NextSlot(w), e.launched);
      hide Local, Room, Due;
    }
  }

  /** After a shutdown a shard is launched at most once more, and only if its worker had already passed the flag. */
  lemma {:induction false} ShutdownStopsLaunches(c: Config, w: World, events: seq<Event>, i: nat)
    requires w.shutdown && i < |w.shards|
    ensures
      var v := Run(c, w, events);
      && v.shutdown && i < |v.shards| && Due(v.shards[i]) <= Due(w.shards[i])
      && v.shards[i].launches <= w.shards[i].launches + (if Committed(w.shards[i].pc) then 1 else 0)
  {
    if |events| > 0 {
      ShutdownStopsLaunches(c, w, events[..|events| - 1], i);
      StepKeepsDue(c, Run(c, w, events[..|events| - 1]), events[|events| - 1], i);
    }
  }

  // ---------------------------------------------------------------- what the sweep cannot promise

  lemma RunThen(c: Config, w: World, events: seq<Event>, e: Event)
    ensures Run(c, w, events + [e]) == Step(c, Run(c, w, events), e)
  {
    assert (events + [e])[..|events|] == events;
  }

  const ONE_SHARD := World([Shard(Submitted, QUEUED, 0, 0, NoChild, None)], false, Test(0), 0.0, 0.0, [], [])

  lemma RunSteps(c: Config, w: World, events: seq<Event>, v: World, e: Event, next: World) returns (more: seq<Event>)
    requires Run(c, w, events) == v && Step(c, v, e) == next
    ensures more == events + [e] && Run(c, w, more) == next
  {
    more := events + [e];
    RunThen(c, w, events, e);
  }

  function One(sh: Shard, shutdown: bool, monitor: Monitor, c: Config): World {
    World(
      [sh], shutdown, monitor, 0.0, if sh.attempts == 0 then 0.0 else c.stagger, if sh.attempts == 0 then [] else [0.0],
      if sh.launches == 0 then [] else [Slot(0, 0.0)])
  }

  lemma CountOne(sh: Shard)
    requires !Busy(sh)
    ensures Count([sh], Busy) == 0
  {
    SumOfCons(sh, [], Indicator(Busy));
    assert [sh] + [] == [sh];
  }

  lemma OneReserves(c: Config) returns (events: seq<Event>)
    requires c.concurrency > 0
    ensures Run(c, ONE_SHARD, events) == One(Shard(Reserve, QUEUED, 0, 0, NoChild, None), false, Polling, c)
  {
    var go := Worker(0, true);
    var w0 := One(Shard(Submitted, QUEUED, 0, 0, NoChild, None), false, Polling, c);
    var w1 := One(Shard(Check, QUEUED, 0, 0, NoChild, None), false, Polling, c);
    CountOne(w0.shards[0]);
    events := RunSteps(c, ONE_SHARD, [], ONE_SHARD, Poll, w0);
    events := RunSteps(c, ONE_SHARD, events, w0, go, w1);
    events := RunSteps(c, ONE_SHARD, events, w1, go, One(Shard(Reserve, QUEUED, 0, 0, NoChild, None), false, Polling, c));
  }

  /** From its reservation a worker gets to a running child in three steps, with or without the flag. */
  lemma OneLaunches(c: Config, before: seq<Event>, shutdown: bool, monitor: Monitor) returns (events: seq<Event>)
    requires Run(c, ONE_SHARD, before) == One(Shard(Reserve, QUEUED, 0, 0, NoChild, None), shutdown, monitor, c)
    ensures Run(c, ONE_SHARD, events) == One(Shard(Started, QUEUED, 1, 1, Alive, None), shutdown, monitor, c)
  {
    var go := Worker(0, true);
    var w0 := One(Shard(Reserve, QUEUED, 0, 0, NoChild, None), shutdown, monitor, c);
    var w1 := One(Shard(Sleep(Slot(0, 0.0)), QUEUED, 1, 0, NoChild, None), shutdown, monitor, c);
    var w2 := One(Shard(Launch(Slot(0, 0.0)), QUEUED, 1, 0, NoChild, None), shutdown, monitor, c);
    events := RunSteps(c, ONE_SHARD, before, w0, go, w1);
    events := RunSteps(c, ONE_SHARD, events, w1, go, w2);
    events := RunSteps(c, ONE_SHARD, events, w2, go, One(Shard(Started, QUEUED, 1, 1, Alive, None), shutdown, monitor, c));
  }

  /** The launcher can report as killed a shard whose child had finished, with code zero and its exit already
      stored by the worker, before the flag was set. */
  lemma FinishedShardReportedKilled(c: Config) returns (before: seq<Event>, events: seq<Event>)
    requires c.concurrency > 0
    ensures
      var u := Run(c, ONE_SHARD, before);
      !u.shutdown && |u.shards| == 1 && u.shards[0].exit == Some(0)
    ensures before <= events
    ensures
      var v := Run(c, ONE_SHARD, events);
      && v.monitor == Ended && |v.shards| == 1
      && v.shards[0].pc == Returned && v.shards[0].state == KILLED && v.shards[0].exit == Some(0)
  {
    hide Run;
    before := OneReserves(c);
    before := OneLaunches(c, before, false, Polling);
    var go := Worker(0, true);
    var w0 := One(Shard(Started, QUEUED, 1, 1, Alive, None), false, Polling, c);
    var w1 := One(Shard(Wait, RUNNING, 1, 1, Alive, None), false, Polling, c);
    var w2 := One(Shard(Wait, RUNNING, 1, 1, Exited(0), None), false, Polling, c);
    var w3 := One(Shard(Reaped, RUNNING, 1, 1, NoChild, Some(0)), false, Polling, c);
    var w4 := One(Shard(MarkDone, RUNNING, 1, 1, NoChild, Some(0)), false, Polling, c);
    before := RunSteps(c, ONE_SHARD, before, w0, go, w1);
    before := RunSteps(c, ONE_SHARD, before, w1, Exit(0, 0), w2);
    before := RunSteps(c, ONE_SHARD, before, w2, go, w3);
    before := RunSteps(c, ONE_SHARD, before, w3, go, w4);
    events := SweepMarksKilled(c, before, Shard(MarkDone, RUNNING, 1, 1, NoChild, Some(0)));
  }

  lemma SweepMarksKilled(c: Config, before: seq<Event>, sh: Shard) returns (events: seq<Event>)
    requires sh == Shard(MarkDone, RUNNING, 1, 1, NoChild, Some(0))
    requires Run(c, ONE_SHARD, before) == One(sh, false, Polling, c)
    ensures before <= events
    ensures Run(c, ONE_SHARD, events) == One(sh.(pc := Returned, state := KILLED), true, Ended, c)
  {
    var done := sh.(pc := Returned, state := DONE);
    var late := sh.(pc := Returned, state := KILLED);
    events := before;
    events := RunSteps(c, ONE_SHARD, events, One(sh, false, Polling, c), Limit, One(sh, true, Look(0), c));
    events := RunSteps(c, ONE_SHARD, events, One(sh, true, Look(0), c), Sweep, One(sh, true, Kill(0), c));
    events := RunSteps(c, ONE_SHARD, events, One(sh, true, Kill(0), c), Worker(0, true), One(done, true, Kill(0), c));
    events := RunSteps(c, ONE_SHARD, events, One(done, true, Kill(0), c), Sweep, One(done, true, Mark(0), c));
    events := RunSteps(c, ONE_SHARD, events, One(done, true, Mark(0), c), Sweep, One(late, true, Look(1), c));
    events := RunSteps(c, ONE_SHARD, events, One(late, true, Look(1), c), Sweep, One(late, true, Ended, c));
  }

  /** The time limit does not kill all children: one can start after the sweep has finished. */
  lemma ChildOutlivesSweep(c: Config) returns (events: seq<Event>)
    requires c.concurrency > 0
    ensures var v := Run(c, ONE_SHARD, events); v.shutdown && v.monitor == Ended && |v.shards| == 1 && v.shards[0].child == Alive
  {
    events := OneReserves(c);
    var sh := Shard(Reserve, QUEUED, 0, 0, NoChild, None);
    events := RunSteps(c, ONE_SHARD, events, One(sh, false, Polling, c), Limit, One(sh, true, Look(0), c));
    events := RunSteps(c, ONE_SHARD, events, One(sh, true, Look(0), c), Sweep, One(sh, true, Look(1), c));
    events := RunSteps(c, ONE_SHARD, events, One(sh, true, Look(1), c), Sweep, One(sh, true, Ended, c));
    events := OneLaunches(c, events, true, Ended);
  }
}
