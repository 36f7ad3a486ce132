/** The update discipline of the ledger file: take the sidecar lock, re-read, edit, write a temporary
    file, rename it over the original, release. Any number of calls run it side by side, and any of
    them may crash anywhere. The document and the edit each call makes are parameters. */
module LockedFile {
  import opened Sequences

  /** Where one call stands. */
  datatype Phase<D> =
    | Waiting          // polling for the lock
    | Locked
    | Loaded(doc: D)   // re-read under the lock
    | Edited(doc: D)
    | Writing(doc: D)  // temporary file open, contents incomplete
    | Written(doc: D)  // temporary file flushed and synced
    | Renamed
    | Failing          // an exception is unwinding, the lock still held
    | Returned
    | Raised
    | Crashed

  datatype Temp<D> = Partial | Complete(doc: D)

  /** `commits` and `observed` are history: the calls renamed so far, and every read by a bystander. */
  datatype World<D> = World(
    disk: D, lock: Option<nat>, phases: seq<Phase<D>>, temps: map<nat, Temp<D>>, commits: seq<nat>, observed: seq<D>)

  datatype Event =
    | Acquire(i: nat) | TimeOut(i: nat) | Load(i: nat) | Edit(i: nat) | Open(i: nat) | Flush(i: nat)
    | WriteError(i: nat) | Rename(i: nat) | Unlock(i: nat) | Crash(i: nat) | Observe

  predicate Finished<D>(p: Phase<D>) { p.Returned? || p.Raised? || p.Crashed? }

  predicate Holding<D>(p: Phase<D>) { !p.Waiting? && !Finished(p) }

  function Enter<D>(w: World<D>, i: nat, p: Phase<D>): World<D>
    requires i < |w.phases|
  {
    w.(phases := w.phases[i := p])
  }

  function Starting<D>(doc: D, calls: nat): World<D> {
    World(doc, None, seq(calls, _ => Waiting), map[], [], [])
  }

  /** One atomic step; an event that is not enabled changes nothing. A crash drops the lock, because
      the operating system closes the descriptor, and leaves the temporary file behind. */
  function Step<D>(edit: (nat, D) -> Option<D>, w: World<D>, ev: Event): World<D> {
    if ev.Observe? then w.(observed := w.observed + [w.disk])
    else if ev.i >= |w.phases| then w
    else
      var i := ev.i;
      var p := w.phases[i];
      match ev
      case Acquire(_) => if p.Waiting? && w.lock.None? then Enter(w, i, Locked).(lock := Some(i)) else w
      case TimeOut(_) => if p.Waiting? then Enter(w, i, Raised) else w
      case Load(_) => if p.Locked? then Enter(w, i, Loaded(w.disk)) else w
      case Edit(_) =>
        if !p.Loaded? then w
        else
          var r := edit(i, p.doc);
          Enter(w, i, if r.Some? then Edited(r.value) else Failing)
      case Open(_) => if p.Edited? then Enter(w, i, Writing(p.doc)).(temps := w.temps[i := Partial]) else w
      case Flush(_) => if p.Writing? then Enter(w, i, Written(p.doc)).(temps := w.temps[i := Complete(p.doc)]) else w
      case WriteError(_) => if p.Edited? || p.Writing? || p.Written? then Enter(w, i, Failing) else w
      case Rename(_) =>
        if p.Written? && i in w.temps && w.temps[i].Complete?
        then Enter(w, i, Renamed).(disk := w.temps[i].doc, temps := w.temps - {i}, commits := w.commits + [i])
        else w
      case Unlock(_) =>
        if p.Renamed? then Enter(w, i, Returned).(lock := None)
        else if p.Failing? then Enter(w, i, Raised).(lock := None)
        else w
      case Crash(_) =>
        if Finished(p) then w
        else Enter(w, i, Crashed).(lock := if w.lock == Some(i) then None else w.lock)
  }

  function Run<D>(edit: (nat, D) -> Option<D>, w: World<D>, events: seq<Event>): World<D> {
    if |events| == 0 then w
    else Step(edit, Run(edit, w, events[..|events| - 1]), events[|events| - 1])
  }

  /** The reference: the calls in `order` one after the other, each alone and each going through. */
  ghost function Replay<D>(edit: (nat, D) -> Option<D>, doc: D, order: seq<nat>): Option<D> {
    if |order| == 0 then Some(doc)
    else
      var before := Replay(edit, doc, order[..|order| - 1]);
      if before.None? then None else edit(order[|order| - 1], before.value)
  }

  /** What holds of one call, given the rest of the world. */
  ghost predicate CallInv<D>(edit: (nat, D) -> Option<D>, w: World<D>, i: nat)
    requires i < |w.phases|
  {
    var p := w.phases[i];
    && (Holding(p) <==> w.lock == Some(i))
    && (p.Loaded? ==> p.doc == w.disk)
    && (p.Edited? || p.Writing? || p.Written? ==> edit(i, w.disk) == Some(p.doc))
    && (p.Written? ==> i in w.temps && w.temps[i] == Complete(p.doc))
    && (p.Renamed? || p.Returned? ==> i in w.commits)
    && (i in w.commits ==> p.Renamed? || p.Returned? || p.Crashed?)
  }

  /** A bystander's read is the document after some prefix of the commits. */
  ghost predicate Generation<D>(edit: (nat, D) -> Option<D>, doc: D, commits: seq<nat>, read: D) {
    exists k :: 0 <= k <= |commits| && Replay(edit, doc, commits[..k]) == Some(read)
  }

  ghost predicate Inv<D>(edit: (nat, D) -> Option<D>, doc: D, calls: nat, w: World<D>) {
    && |w.phases| == calls
    && (forall k :: 0 <= k < |w.commits| ==> w.commits[k] < calls)
    && Distinct(w.commits) && (w.lock.Some? ==> w.lock.value < calls)
    && Replay(edit, doc, w.commits) == Some(w.disk)
    && (forall i :: 0 <= i < calls ==> CallInv(edit, w, i))
    && (forall n :: 0 <= n < |w.observed| ==> Generation(edit, doc, w.commits, w.observed[n]))
  }

  lemma StepKeepsCall<D>(edit: (nat, D) -> Option<D>, doc: D, calls: nat, w: World<D>, ev: Event, j: nat)
    requires Inv(edit, doc, calls, w) && j < calls
    ensures |Step(edit, w, ev).phases| == calls
    ensures CallInv(edit, Step(edit, w, ev), j)
  {
    assert CallInv(edit, w, j);
    if !ev.Observe? && ev.i < calls {
      assert CallInv(edit, w, ev.i);
    }
  }

  lemma StepKeepsInv<D>(edit: (nat, D) -> Option<D>, doc: D, calls: nat, w: World<D>, ev: Event)
    requires Inv(edit, doc, calls, w)
    ensures Inv(edit, doc, calls, Step(edit, w, ev))
  {
    var w' := Step(edit, w, ev);
    forall j | 0 <= j < calls ensures CallInv(edit, w', j) {
      StepKeepsCall(edit, doc, calls, w, ev, j);
    }
    assert w.commits[..|w.commits|] == w.commits;
    if w'.commits != w.commits {
      assert CallInv(edit, w, ev.i);
      assert w'.commits[..|w.commits|] == w.commits;
      forall n | 0 <= n < |w'.observed| ensures Generation(edit, doc, w'.commits, w'.observed[n]) {
        assert Generation(edit, doc, w.commits, w.observed[n]);
        var k :| 0 <= k <= |w.commits| && Replay(edit, doc, w.commits[..k]) == Some(w.observed[n]);
        assert w'.commits[..k] == w.commits[..k];
      }
    }
  }

  lemma {:induction false} RunKeepsInv<D>(edit: (nat, D) -> Option<D>, doc: D, calls: nat, events: seq<Event>)
    ensures Inv(edit, doc, calls, Run(edit, Starting(doc, calls), events))
  {
    if |events| > 0 {
      RunKeepsInv(edit, doc, calls, events[..|events| - 1]);
      StepKeepsInv(edit, doc, calls, Run(edit, Starting(doc, calls), events[..|events| - 1]), events[|events| - 1]);
    }
  }

  /** Every interleaving, with crashes anywhere, leaves on disk what the committed calls would have
      written one after the other; every bystander read is one such generation as a whole. */
  lemma Serializable<D>(edit: (nat, D) -> Option<D>, doc: D, calls: nat, events: seq<Event>)
    ensures
      var w := Run(edit, Starting(doc, calls), events);
      && (forall k :: 0 <= k < |w.commits| ==> w.commits[k] < calls)
      && Replay(edit, doc, w.commits) == Some(w.disk)
      && (forall n :: 0 <= n < |w.observed| ==> Generation(edit, doc, w.commits, w.observed[n]))
  {
    RunKeepsInv(edit, doc, calls, events);
  }

  /** A call that returned committed exactly once, one that raised never did, a crashed one at most once. */
  lemma CommittedOnce<D>(edit: (nat, D) -> Option<D>, doc: D, calls: nat, events: seq<Event>, i: nat)
    requires i < calls
    ensures
      var w := Run(edit, Starting(doc, calls), events);
      && |w.phases| == calls
      && multiset(w.commits)[i] <= 1
      && (w.phases[i].Returned? ==> multiset(w.commits)[i] == 1)
      && (w.phases[i].Raised? ==> multiset(w.commits)[i] == 0)
  {
    RunKeepsInv(edit, doc, calls, events);
    var w := Run(edit, Starting(doc, calls), events);
    assert CallInv(edit, w, i);
    DistinctOnce(w.commits, i);
  }

  /** Two calls are never inside the locked section together. */
  lemma MutualExclusion<D>(edit: (nat, D) -> Option<D>, doc: D, calls: nat, events: seq<Event>, i: nat, j: nat)
    requires i < calls && j < calls && i != j
    ensures
      var w := Run(edit, Starting(doc, calls), events);
      |w.phases| == calls && !(Holding(w.phases[i]) && Holding(w.phases[j]))
  {
    RunKeepsInv(edit, doc, calls, events);
    var w := Run(edit, Starting(doc, calls), events);
    assert CallInv(edit, w, i) && CallInv(edit, w, j);
  }

  // ---------------------------------------------------------------- calls get through

  lemma RunThen<D>(edit: (nat, D) -> Option<D>, w: World<D>, events: seq<Event>, ev: Event)
    ensures Run(edit, w, events + [ev]) == Step(edit, Run(edit, w, events), ev)
  {
    assert (events + [ev])[..|events|] == events;
  }

  /** The step the holder of the lock takes next, when nothing goes wrong. */
  function Onward<D>(p: Phase<D>, i: nat): Event {
    match p
    case Locked => Load(i)
    case Loaded(_) => Edit(i)
    case Edited(_) => Open(i)
    case Writing(_) => Flush(i)
    case Written(_) => Rename(i)
    case Renamed | Failing => Unlock(i)
    case _ => Acquire(i)
  }

  function StepsLeft<D>(p: Phase<D>): nat {
    match p
    case Waiting => 7
    case Locked => 6
    case Loaded(_) => 5
    case Edited(_) => 4
    case Writing(_) => 3
    case Written(_) => 2
    case Renamed | Failing => 1
    case _ => 0
  }

  /** Nothing goes wrong: no crash, no time-out, no write error. */
  predicate Smooth(events: seq<Event>) {
    forall k :: 0 <= k < |events| ==> !events[k].Crash? && !events[k].TimeOut? && !events[k].WriteError?
  }

  /** What a call makes of the file from where it stands, if left to itself. */
  ghost predicate Completes<D>(edit: (nat, D) -> Option<D>, w: World<D>, v: World<D>, i: nat)
    requires i < |w.phases|
  {
    var p := w.phases[i];
    var done := p.Renamed? || (!p.Failing? && edit(i, w.disk).Some?);
    && v.lock.None? && v.phases == w.phases[i := if done then Returned else Raised]
    && v.commits == (if done && !p.Renamed? then w.commits + [i] else w.commits)
    && (if done && !p.Renamed? then edit(i, w.disk) == Some(v.disk) else v.disk == w.disk)
  }

  /** The call can take its next step. */
  ghost predicate Able<D>(w: World<D>, i: nat) {
    i < |w.phases| && (Holding(w.phases[i]) || (w.phases[i].Waiting? && w.lock.None?))
  }

  lemma StepsOnward<D>(edit: (nat, D) -> Option<D>, w: World<D>, i: nat)
    requires Able(w, i) && CallInv(edit, w, i)
    ensures
      var v := Step(edit, w, Onward(w.phases[i], i));
      && i < |v.phases| && StepsLeft(v.phases[i]) < StepsLeft(w.phases[i])
      && (if Finished(v.phases[i]) then Completes(edit, w, v, i) else Able(v, i))
  {
  }

  lemma OneStepEarlier<D>(edit: (nat, D) -> Option<D>, w: World<D>, u: World<D>, i: nat)
    requires Able(w, i) && CallInv(edit, w, i)
    requires var v := Step(edit, w, Onward(w.phases[i], i)); Able(v, i) && CallInv(edit, v, i) && Completes(edit, v, u, i)
    ensures Completes(edit, w, u, i)
  {
    var v := Step(edit, w, Onward(w.phases[i], i));
    assert v.phases == w.phases[i := v.phases[i]];
  }

  /** The holder of the lock, or a call that finds it free, comes to its end in its own steps. */
  lemma {:induction false} RunsThrough<D>(edit: (nat, D) -> Option<D>, doc: D, calls: nat, events: seq<Event>, i: nat)
    returns (more: seq<Event>)
    requires i < calls && Able(Run(edit, Starting(doc, calls), events), i)
    ensures Smooth(more)
    ensures Completes(edit, Run(edit, Starting(doc, calls), events), Run(edit, Starting(doc, calls), events + more), i)
    decreases StepsLeft(Run(edit, Starting(doc, calls), events).phases[i])
  {
    hide Run, Step, CallInv, Completes, Able;
    var start := Starting(doc, calls);
    var w := Run(edit, start, events);
    RunKeepsInv(edit, doc, calls, events);
    var ev := Onward(w.phases[i], i);
    StepsOnward(edit, w, i);
    RunThen(edit, start, events, ev);
    more := [ev];
    if !Finished(Run(edit, start, events + more).phases[i]) {
      var rest := RunsThrough(edit, doc, calls, events + [ev], i);
      assert events + ([ev] + rest) == events + [ev] + rest;
      more := [ev] + rest;
      RunKeepsInv(edit, doc, calls, events + [ev]);
      OneStepEarlier(edit, w, Run(edit, start, events + more), i);
    }
  }

  /** No call is ever locked out: from every state of every run, one that waits can still end, nothing going wrong. The
      lock is free then, and the file it finds is what the others have committed. */
  lemma NeverLockedOut<D>(edit: (nat, D) -> Option<D>, doc: D, calls: nat, events: seq<Event>, i: nat)
    returns (before: seq<Event>, turn: seq<Event>)
    requires var w := Run(edit, Starting(doc, calls), events); i < calls && i < |w.phases| && w.phases[i].Waiting?
    ensures Smooth(before) && Smooth(turn) && (Run(edit, Starting(doc, calls), events).lock.None? ==> before == [])
    ensures
      var u := Run(edit, Starting(doc, calls), events + before);
      Able(u, i) && u.phases[i].Waiting? && Completes(edit, u, Run(edit, Starting(doc, calls), events + before + turn), i)
  {
    hide Run, Step;
    var w := Run(edit, Starting(doc, calls), events);
    RunKeepsInv(edit, doc, calls, events);
    before := [];
    assert events + before == events;
    if w.lock.Some? {
      assert CallInv(edit, w, w.lock.value);
      before := RunsThrough(edit, doc, calls, events, w.lock.value);
    }
    turn := RunsThrough(edit, doc, calls, events + before, i);
  }
}
