/** Installing a release: stage the bundle, replace the launchers, swap the pointer to the selected release, and undo
    the work of a failed attempt. Every operation on the disk may fail without effect, or take effect and be
    interrupted before the next statement; the same holds for the operations that undo and clean up. */
module Install {
  import opened Sequences

  datatype Fault = Fine | Fails | Interrupted

  /** A release by the parts copied so far, and whether it has been verified whole. */
  datatype Bundle = Partial(parts: seq<string>) | Complete(parts: seq<string>)

  /** The launchers in the bin directory, the selected release, the releases, and a pointer not yet swapped in. */
  datatype State = State(launchers: map<string, string>, current: Option<string>, releases: map<string, Bundle>, pointer: Option<string>)

  datatype Candidate = Candidate(destination: string, text: string)

  /** One launcher on POSIX, two on Windows. */
  datatype Job = Job(name: string, parts: seq<string>, candidates: seq<Candidate>)

  /** What the operations of a run are for. */
  datatype Stage =
    | Verify                 // sources and binary, before anything is written
    | Create                 // the release directory
    | Copy                   // a part of the bundle, or its verification
    | Smoke                  // the staged executable reports its version
    | Point                  // the pointer, written aside
    | Prepare                // the temporary directory, the candidates and the backups
    | Replace(k: nat)
    | Swap
    | Clean                  // removing the temporary directory, and what is left of the pointer, after the swap

  // ---------------------------------------------------------------- what a run leaves

  /** The launchers after the first k replacements. */
  function Replaced(launchers: map<string, string>, cs: seq<Candidate>, k: nat): map<string, string>
    requires k <= |cs|
  {
    if k == 0 then launchers else Replaced(launchers, cs, k - 1)[cs[k - 1].destination := cs[k - 1].text]
  }

  /** Undoing the replacement of one launcher: its backup, or nothing if there was none. */
  function Restored(launchers: map<string, string>, backups: map<string, string>, destination: string): map<string, string> {
    if destination in backups then launchers[destination := backups[destination]] else launchers - {destination}
  }

  /** Undoing the first k replacements, last first. */
  function Undone(launchers: map<string, string>, cs: seq<Candidate>, k: nat, backups: map<string, string>): map<string, string>
    requires k <= |cs|
    decreases k
  {
    if k == 0 then launchers else Undone(Restored(launchers, backups, cs[k - 1].destination), cs, k - 1, backups)
  }

  ghost predicate Separate(cs: seq<Candidate>) {
    forall i, j :: 0 <= i < j < |cs| ==> cs[i].destination != cs[j].destination
  }

  lemma {:induction false} ReplacedElsewhere(o: map<string, string>, cs: seq<Candidate>, k: nat, d: string)
    requires k <= |cs| && forall i :: 0 <= i < k ==> cs[i].destination != d
    ensures d in Replaced(o, cs, k) <==> d in o
    ensures d in o ==> Replaced(o, cs, k)[d] == o[d]
  {
    if k > 0 {
      ReplacedElsewhere(o, cs, k - 1, d);
    }
  }

  /** Undoing gives back the original launchers, and leaves alone one that was replaced but not recorded. */
  lemma {:induction false} UndoneRestores(o: map<string, string>, cs: seq<Candidate>, k: nat)
    requires k <= |cs| && Separate(cs)
    ensures Undone(Replaced(o, cs, k), cs, k, o) == o
    ensures
      k < |cs| ==>
        var c := cs[k]; Undone(Replaced(o, cs, k)[c.destination := c.text], cs, k, o) == o[c.destination := c.text]
  {
    UndoneExtra(o, cs, k, map[]);
    if k < |cs| {
      UndoneExtra(o, cs, k, map[cs[k].destination := cs[k].text]);
      assert Replaced(o, cs, k) + map[cs[k].destination := cs[k].text] == Replaced(o, cs, k)[cs[k].destination := cs[k].text];
    }
    assert Replaced(o, cs, k) + map[] == Replaced(o, cs, k);
  }

  lemma PutBack(l: map<string, string>, o: map<string, string>, extra: map<string, string>, d: string, text: string)
    requires d !in extra && (d in l <==> d in o) && (d in o ==> l[d] == o[d])
    ensures Restored(l[d := text] + extra, o, d) == l + extra
  {
  }

  lemma {:induction false} UndoneExtra(o: map<string, string>, cs: seq<Candidate>, k: nat, extra: map<string, string>)
    requires k <= |cs| && Separate(cs)
    requires forall i :: 0 <= i < k ==> cs[i].destination !in extra
    ensures Undone(Replaced(o, cs, k) + extra, cs, k, o) == o + extra
  {
    if k > 0 {
      var d := cs[k - 1].destination;
      ReplacedElsewhere(o, cs, k - 1, d);
      PutBack(Replaced(o, cs, k - 1), o, extra, d, cs[k - 1].text);
      UndoneExtra(o, cs, k - 1, extra);
    }
  }

  /** Only the backups of the launchers undone matter. */
  lemma {:induction false} UndoneSame(l: map<string, string>, cs: seq<Candidate>, k: nat, b: map<string, string>, o: map<string, string>)
    requires k <= |cs| && BackedUp(b, o, cs, k)
    ensures Undone(l, cs, k, b) == Undone(l, cs, k, o)
    decreases k
  {
    if k > 0 {
      UndoneSame(Restored(l, b, cs[k - 1].destination), cs, k - 1, b, o);
    }
  }

  /** The backups hold the first k launchers as they were, where they existed. */
  ghost predicate BackedUp(b: map<string, string>, o: map<string, string>, cs: seq<Candidate>, k: nat)
    requires k <= |cs|
  {
    forall i :: 0 <= i < k ==>
      && (cs[i].destination in b <==> cs[i].destination in o)
      && (cs[i].destination in o ==> b[cs[i].destination] == o[cs[i].destination])
  }

  function WithRelease(s: State, name: string, bundle: Bundle): State {
    s.(releases := s.releases[name := bundle])
  }

  function Staged(s: State, job: Job): State {
    WithRelease(s, job.name, Complete(job.parts))
  }

  function Selected(s: State, job: Job): State {
    s.(launchers := Replaced(s.launchers, job.candidates, |job.candidates|), current := Some(job.name))
  }

  function Installed(s: State, job: Job): State {
    Selected(Staged(s, job), job)
  }

  /** The state after a run whose only fault is at the given stage. */
  function Outcome(s: State, job: Job, at: Stage, fault: Fault): State {
    match at
    case Create => if fault.Interrupted? then WithRelease(s, job.name, Partial([])) else s
    case Replace(k) =>
      if fault.Interrupted? && k < |job.candidates|
      then s.(launchers := s.launchers[job.candidates[k].destination := job.candidates[k].text])
      else s
    case Swap => if fault.Interrupted? then s.(current := Some(job.name)) else s
    case Clean => Selected(s, job)
    case _ => s
  }

  // ---------------------------------------------------------------- the operations of a run

  /** How many of the first k launchers exist before the run. */
  function Existing(launchers: map<string, string>, cs: seq<Candidate>, k: nat): nat
    requires k <= |cs|
  {
    if k == 0 then 0 else Existing(launchers, cs, k - 1) + if cs[k - 1].destination in launchers then 1 else 0
  }

  /** The number of operations that stage a bundle. */
  function StagingLength(job: Job): nat { |job.parts| + 3 }

  /** The number of operations between the pointer, written aside, and the first replacement. */
  function PrepareLength(launchers: map<string, string>, job: Job): nat {
    1 + |job.candidates| + Existing(launchers, job.candidates, |job.candidates|)
  }

  /** The position of the first replacement, and that of the swap. */
  function ReplaceAt(s: State, job: Job): nat { StagingLength(job) + 2 + PrepareLength(s.launchers, job) }

  function SwapAt(s: State, job: Job): nat { ReplaceAt(s, job) + |job.candidates| }

  /** The number of operations of a run in which none goes wrong. */
  function Length(s: State, job: Job): nat { SwapAt(s, job) + 3 }

  /** What the operation at position n of the run is for. */
  function StageAt(s: State, job: Job, n: nat): Stage {
    if n == 0 then Verify
    else if n == 1 then Create
    else if n < StagingLength(job) then Copy
    else if n == StagingLength(job) then Smoke
    else if n == StagingLength(job) + 1 then Point
    else if n < ReplaceAt(s, job) then Prepare
    else if n < SwapAt(s, job) then Replace(n - ReplaceAt(s, job))
    else if n == SwapAt(s, job) then Swap
    else Clean
  }

  /** The state after a run whose only fault is at position n. */
  function Left(s: State, job: Job, n: nat, fault: Fault): State { Outcome(s, job, StageAt(s, job, n), fault) }

  // ---------------------------------------------------------------- the program

  class Disk {
    var state: State
    var clock: nat
    const fault: nat -> Fault
    const parted: bool       // an interrupt falls between the two halves of the program

    constructor (s: State, f: nat -> Fault, p: bool)
      ensures state == s && fault == f && parted == p && clock == 0
    {
      state, fault, parted, clock := s, f, p, 0;
    }

    /** One operation that would lead to the given state. */
    method Do(next: State) returns (ok: bool)
      modifies this
      ensures clock == old(clock) + 1
      ensures ok <==> fault(old(clock)).Fine?
      ensures state == if fault(old(clock)).Fails? then old(state) else next
    {
      var f := fault(clock);
      if !f.Fails? { state := next; }
      ok := f.Fine?;
      clock := clock + 1;
    }

    /** No operation in [from, to) goes wrong. */
    ghost predicate AllFine(from: nat, to: nat)
    {
      forall i :: from <= i < to ==> fault(i).Fine?
    }

    ghost predicate CalmAfter(at: nat)
    {
      forall i :: i > at ==> fault(i).Fine?
    }

    /** In [from, to), the operation at this time is the first to go wrong. */
    ghost predicate FirstFault(from: nat, to: nat, at: nat)
    {
      from <= at < to && AllFine(from, at) && !fault(at).Fine?
    }

    /** From this time on, the n-th operation is the only one to go wrong. */
    ghost predicate OnlyFault(from: nat, n: nat)
    {
      AllFine(from, from + n) && !fault(from + n).Fine? && CalmAfter(from + n)
    }

    /** Puts the first k launchers back, last first; an operation that fails ends the attempt. */
    method Restore(cs: seq<Candidate>, k: nat, backups: map<string, string>, ghost at: nat)
      requires k <= |cs| && at < clock
      modifies this
      ensures clock >= old(clock)
      ensures state == old(state).(launchers := state.launchers)
      ensures CalmAfter(at) ==> state.launchers == Undone(old(state.launchers), cs, k, backups)
    {
      var i := k;
      while i > 0
        invariant 0 <= i <= k && clock >= old(clock)
        invariant state == old(state).(launchers := state.launchers)
        invariant CalmAfter(at) ==> Undone(state.launchers, cs, i, backups) == Undone(old(state.launchers), cs, k, backups)
      {
        i := i - 1;
        var ok := Do(state.(launchers := Restored(state.launchers, backups, cs[i].destination)));
        if !ok { return; }
      }
    }

    /** Replaces the launchers one by one and then the pointer. */
    method ReplaceAll(job: Job, backups: map<string, string>) returns (ok: bool, ghost at: nat)
      requires Separate(job.candidates) && BackedUp(backups, state.launchers, job.candidates, |job.candidates|)
      requires state.pointer == Some(job.name)
      modifies this
      ensures
        var t, s, n := old(clock), old(state), |job.candidates|;
        && clock > t && state.releases == s.releases
        && (ok ==> clock == t + n + 1 && AllFine(t, clock) && state == Selected(s, job).(pointer := None))
        && (!ok ==> FirstFault(t, t + n + 1, at) && at < clock)
        && (!ok && CalmAfter(at) ==>
              var stage := if at < t + n then Replace(at - t) else Swap;
              state.(pointer := None) == Outcome(s, job, stage, fault(at)).(pointer := None))
    {
      hide Undone, Restored, Separate;
      ghost var t, s := clock, state;
      var cs := job.candidates;
      for k := 0 to |cs|
        invariant clock == t + k && AllFine(t, clock) && state == s.(launchers := Replaced(s.launchers, cs, k))
      {
        at := clock;
        ok := Do(state.(launchers := state.launchers[cs[k].destination := cs[k].text]));
        if !ok {
          UndoneRestores(s.launchers, cs, k);
          UndoneSame(state.launchers, cs, k, backups, s.launchers);
          Restore(cs, k, backups, at);
          return;
        }
      }
      at := clock;
      ok := Do(state.(current := state.pointer, pointer := None));
      if !ok {
        UndoneRestores(s.launchers, cs, |cs|);
        UndoneSame(state.launchers, cs, |cs|, backups, s.launchers);
        Restore(cs, |cs|, backups, at);
      }
    }

    /** Writes the candidates, and copies the launchers that exist, into the temporary directory. */
    method PrepareCandidates(job: Job) returns (ok: bool, backups: map<string, string>, ghost at: nat)
      modifies this
      ensures
        var t, cs := old(clock), job.candidates;
        var end := t + |cs| + Existing(state.launchers, cs, |cs|);
        && state == old(state) && clock >= t
        && (ok ==> clock == end && AllFine(t, clock) && BackedUp(backups, state.launchers, cs, |cs|))
        && (!ok ==> FirstFault(t, end, at) && at < clock)
    {
      ok, backups, at := true, map[], clock;
      var cs := job.candidates;
      for k := 0 to |cs|
        invariant state == old(state) && clock == old(clock) + k && AllFine(old(clock), clock) && ok
      {
        at := clock;
        ok := Do(state);
        if !ok { return; }
      }
      for k := 0 to |cs|
        invariant state == old(state) && clock == old(clock) + |cs| + Existing(state.launchers, cs, k)
        invariant AllFine(old(clock), clock) && ok && BackedUp(backups, state.launchers, cs, k)
        invariant forall d :: d in backups ==> d in state.launchers && backups[d] == state.launchers[d]
      {
        if cs[k].destination in state.launchers {
          ExistingGrows(state.launchers, cs, k + 1, |cs|);
          at := clock;
          ok := Do(state);
          if !ok { return; }
          backups := backups[cs[k].destination := state.launchers[cs[k].destination]];
        }
      }
    }

    /** The launchers and the pointer are replaced inside a temporary directory that is removed in any case. */
    method ReplaceInTemporary(job: Job) returns (ok: bool, ghost at: nat)
      requires Separate(job.candidates) && state.pointer == Some(job.name)
      modifies this
      ensures
        var t, s, first := old(clock), old(state), old(clock) + PrepareLength(old(state).launchers, job);
        var swap := first + |job.candidates|;
        && clock > t && state.releases == s.releases
        && (ok ==> clock == swap + 2 && AllFine(t, clock) && state == Selected(s, job).(pointer := None))
        && (!ok ==> FirstFault(t, swap + 2, at) && at < clock)
        && (!ok && CalmAfter(at) ==>
              var stage := if at < first then Prepare else if at < swap then Replace(at - first) else if at == swap then Swap else Clean;
              state.(pointer := None) == Outcome(s, job, stage, fault(at)).(pointer := None))
    {
      at := clock;
      ok := Do(state);                       // the temporary directory
      if !ok { return; }
      var backups;
      ok, backups, at := PrepareCandidates(job);
      if ok {
        ok, at := ReplaceAll(job, backups);
      }
      ghost var last := clock;
      var cleaned := Do(state);              // the directory removed
      if ok && !cleaned { at := last; }
      ok := ok && cleaned;
    }

    /** The pointer is written aside, swapped in, and whatever is left of it removed in any case. */
    method SelectRelease(job: Job) returns (ok: bool, ghost at: nat)
      requires Separate(job.candidates) && state.pointer.None?
      modifies this
      ensures
        var t, s, skip := old(clock), old(state), StagingLength(job) + 1;
        && clock > t && state.releases == s.releases
        && (ok ==> clock == t + Length(s, job) - skip && AllFine(t, clock) && state == Selected(s, job))
        && (!ok ==> FirstFault(t, t + Length(s, job) - skip, at) && at < clock)
        && (!ok && CalmAfter(at) ==> state == Left(s, job, at - t + skip, fault(at)))
    {
      at := clock;
      ok := Do(state.(pointer := Some(job.name)));
      if ok {
        ok, at := ReplaceInTemporary(job);
      }
      ghost var last := clock;
      var unlinked := Do(state.(pointer := None));
      if ok && !unlinked { at := last; }
      ok := ok && unlinked;
    }

    method Discard(name: string)
      modifies this
      ensures clock == old(clock) + 1
      ensures state == if fault(old(clock)).Fails? then old(state) else old(state).(releases := old(state).releases - {name})
    {
      var removed := Do(state.(releases := state.releases - {name}));
    }

    /** Stages the bundle part by part and verifies it; what cannot be completed is discarded. */
    method StageRelease(job: Job) returns (ok: bool, ghost at: nat)
      modifies this
      ensures
        var t, s, end := old(clock), old(state), old(clock) + StagingLength(job);
        && (forall x :: x in s.releases ==> x in state.releases && state.releases[x] == s.releases[x])
        && (job.name in s.releases ==> !ok && state == s)
        && (ok ==> clock == end && AllFine(t, clock) && state == Staged(s, job))
        && (!ok && job.name !in s.releases ==> FirstFault(t, end, at) && at < clock)
        && (!ok && job.name !in s.releases && CalmAfter(at) ==> state == Left(s, job, at - t, fault(at)))
    {
      hide Left, WithRelease;
      ghost var t, s := clock, state;
      at := clock;
      if job.name in state.releases { return false, at; }
      LeftStaging(s, job, 0, fault(at));
      ok := Do(state);                       // sources and binary verified
      if !ok { return; }
      at := clock;
      Added(s, job.name, Partial([]));
      LeftStaging(s, job, 1, fault(at));
      ok := Do(WithRelease(state, job.name, Partial([])));
      if !ok { return; }
      AddedAgain(s, job.name);
      for k := 0 to |job.parts|
        invariant clock == t + 2 + k && AllFine(t, clock)
        invariant state == WithRelease(s, job.name, Partial(job.parts[..k]))
      {
        at := clock;
        ok := Do(WithRelease(state, job.name, Partial(job.parts[..k + 1])));
        Added(s, job.name, Partial(job.parts[..k]));
        Added(s, job.name, Partial(job.parts[..k + 1]));
        if !ok {
          LeftStaging(s, job, 2 + k, fault(at));
          Discard(job.name);
          return;
        }
      }
      at := clock;
      ok := Do(WithRelease(state, job.name, Complete(job.parts)));
      Added(s, job.name, Partial(job.parts[..|job.parts|]));
      Added(s, job.name, Complete(job.parts));
      if !ok {
        LeftStaging(s, job, 2 + |job.parts|, fault(at));
        Discard(job.name);
      }
    }

    /** A release that cannot be completed and selected is discarded; but an interrupt between the two halves finds
        nobody to discard it. */
    method InstallRelease(job: Job) returns (ok: bool, ghost at: nat)
      requires Separate(job.candidates) && state.pointer.None?
      modifies this
      ensures
        var t, s := old(clock), old(state);
        var stranded := parted && AllFine(t, t + StagingLength(job));
        && (forall x :: x in s.releases ==> x in state.releases && state.releases[x] == s.releases[x])
        && (job.name in s.releases ==> !ok && state == s)
        && (ok ==> !parted && AllFine(t, t + Length(s, job)) && state == Installed(s, job))
        && (job.name !in s.releases && stranded ==> !ok && state == Staged(s, job))
        && (!ok && job.name !in s.releases && !stranded ==> FirstFault(t, t + Length(s, job), at))
        && (!ok && job.name !in s.releases && !stranded && CalmAfter(at) ==> state == Left(s, job, at - t, fault(at)))
    {
      hide Left, WithRelease, Length;
      ghost var s := state;
      SameLength(s, job);
      ok, at := StageRelease(job);
      if !ok { return; }
      if parted { return false, at; }
      Added(s, job.name, Complete(job.parts));
      at := clock;
      ok := Do(state);                       // the staged executable reports its version
      if ok {
        ok, at := SelectRelease(job);
      }
      if !ok {
        LeftDiscarded(s, job, at - old(clock), fault(at));
        Discard(job.name);
      }
    }

    /** A run in which exactly the n-th operation goes wrong fails. It leaves everything as it was, and the selected
        release usable, exactly under the conditions on that operation and its fault. */
    method InstallWithOneFault(job: Job, n: nat) returns (ok: bool)
      requires Separate(job.candidates) && state.pointer.None? && job.name !in state.releases && Usable(state)
      requires n < Length(state, job) && OnlyFault(clock, n) && !parted
      modifies this
      ensures !ok
      ensures state == old(state) <==> Traceless(old(state), job, n, fault(old(clock) + n))
      ensures Usable(state) <==> !Dangles(old(state), job, n, fault(old(clock) + n))
    {
      ghost var t, s := clock, state;
      ghost var at;
      ok, at := InstallRelease(job);
      assert at == t + n;
      FailureIsTracelessIff(s, job, n, fault(at));
      FailureDanglesIff(s, job, n, fault(at));
    }
  }

  lemma {:induction false} ExistingGrows(launchers: map<string, string>, cs: seq<Candidate>, j: nat, k: nat)
    requires j <= k <= |cs|
    ensures Existing(launchers, cs, j) <= Existing(launchers, cs, k)
  {
    if j < k { ExistingGrows(launchers, cs, j, k - 1); }
  }

  /** Adding the release touches nothing else, and discarding it gives back what was there. */
  lemma Added(s: State, name: string, bundle: Bundle)
    requires name !in s.releases
    ensures
      var v := WithRelease(s, name, bundle);
      && v == s.(releases := v.releases) && v.(releases := v.releases - {name}) == s
      && (forall x :: x in s.releases ==> x in v.releases && v.releases[x] == s.releases[x])
  {
    assert WithRelease(s, name, bundle).releases - {name} == s.releases;
  }

  /** A later bundle takes the place of an earlier one. */
  lemma AddedAgain(s: State, name: string)
    ensures forall b, c :: WithRelease(WithRelease(s, name, b), name, c) == WithRelease(s, name, c)
  {
  }

  /** Staging does not change how many operations there are. */
  lemma SameLength(s: State, job: Job)
    ensures StagingLength(job) + 1 < Length(s, job) == Length(Staged(s, job), job)
  {
  }

  /** What a fault leaves while the bundle is staged. */
  lemma LeftStaging(s: State, job: Job, n: nat, fault: Fault)
    requires n < StagingLength(job)
    ensures Left(s, job, n, fault) == if n == 1 && fault.Interrupted? then WithRelease(s, job.name, Partial([])) else s
  {
  }

  /** Discarding the release turns what a fault after its staging left into the outcome of the whole run. */
  lemma LeftDiscarded(s: State, job: Job, n: nat, fault: Fault)
    requires job.name !in s.releases && n >= StagingLength(job)
    ensures
      var left := Left(Staged(s, job), job, n, fault);
      left.(releases := left.releases - {job.name}) == Left(s, job, n, fault)
    ensures n == StagingLength(job) ==> Left(s, job, n, fault) == s
  {
    assert Staged(s, job).releases - {job.name} == s.releases;
  }

  // ---------------------------------------------------------------- when a failure leaves no trace

  /** The condition under which a run whose only fault is at position n changes nothing: the position is no later than
      the swap, and no interrupt falls between an effect and its record. */
  predicate Traceless(s: State, job: Job, n: nat, fault: Fault) {
    && n <= SwapAt(s, job)
    && (fault.Interrupted? ==>
          && n != 1 && n < SwapAt(s, job)
          && (n >= ReplaceAt(s, job) ==>
                var c := job.candidates[n - ReplaceAt(s, job)];
                c.destination in s.launchers && s.launchers[c.destination] == c.text))
  }

  /** The condition under which it leaves a pointer to a release that no longer exists: the position is after the swap,
      or the swap is interrupted. */
  predicate Dangles(s: State, job: Job, n: nat, fault: Fault) {
    n > SwapAt(s, job) || (n == SwapAt(s, job) && fault.Interrupted?)
  }

  /** A failed installation leaves everything as it was exactly under that condition. */
  lemma FailureIsTracelessIff(s: State, job: Job, n: nat, fault: Fault)
    requires job.name !in s.releases && Usable(s)
    ensures Left(s, job, n, fault) == s <==> Traceless(s, job, n, fault)
  {
    var o, at := Left(s, job, n, fault), StageAt(s, job, n);
    assert o == s ==> o.releases == s.releases && o.launchers == s.launchers && o.current == s.current;
    if at.Create? && fault.Interrupted? { assert job.name in o.releases; }
    if at.Replace? && fault.Interrupted? {
      var c := job.candidates[at.k];
      assert c.destination in o.launchers && o.launchers[c.destination] == c.text;
      if Traceless(s, job, n, fault) { assert o.launchers == s.launchers; }
    }
  }

  /** The selected release can be used. */
  predicate Usable(s: State) {
    s.current.Some? ==> s.current.value in s.releases && s.releases[s.current.value].Complete?
  }

  /** It leaves the selected release usable exactly unless it dangles. */
  lemma FailureDanglesIff(s: State, job: Job, n: nat, fault: Fault)
    requires job.name !in s.releases && Usable(s)
    ensures Usable(Left(s, job, n, fault)) <==> !Dangles(s, job, n, fault)
  {
    var o, at := Left(s, job, n, fault), StageAt(s, job, n);
    assert at.Clean? <==> n > SwapAt(s, job);
    assert at.Swap? <==> n == SwapAt(s, job);
  }

  lemma {:induction false} ReplacedHolds(launchers: map<string, string>, cs: seq<Candidate>, k: nat, i: nat)
    requires i < k <= |cs| && Separate(cs)
    ensures cs[i].destination in Replaced(launchers, cs, k) && Replaced(launchers, cs, k)[cs[i].destination] == cs[i].text
  {
    if i < k - 1 {
      ReplacedHolds(launchers, cs, k - 1, i);
    }
  }

  /** A run without a fault selects the staged release, installs every launcher, and touches nothing else. */
  lemma InstalledIs(s: State, job: Job)
    requires Separate(job.candidates) && job.name !in s.releases
    ensures
      var v := Installed(s, job);
      && Usable(v) && v.current == Some(job.name) && v.releases[job.name] == Complete(job.parts)
      && v.releases - {job.name} == s.releases
      && (forall c :: c in job.candidates ==> c.destination in v.launchers && v.launchers[c.destination] == c.text)
      && (forall d :: (forall i :: 0 <= i < |job.candidates| ==> job.candidates[i].destination != d) ==>
            (d in v.launchers <==> d in s.launchers) && (d in s.launchers ==> v.launchers[d] == s.launchers[d]))
  {
    var cs := job.candidates;
    forall c | c in cs ensures c.destination in Replaced(s.launchers, cs, |cs|) && Replaced(s.launchers, cs, |cs|)[c.destination] == c.text {
      var i :| 0 <= i < |cs| && cs[i] == c;
      ReplacedHolds(s.launchers, cs, |cs|, i);
    }
    forall d | forall i :: 0 <= i < |cs| ==> cs[i].destination != d
      ensures (d in Replaced(s.launchers, cs, |cs|) <==> d in s.launchers) && (d in s.launchers ==> Replaced(s.launchers, cs, |cs|)[d] == s.launchers[d])
    {
      ReplacedElsewhere(s.launchers, cs, |cs|, d);
    }
  }
}
