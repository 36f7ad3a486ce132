/** The question ledger: entries, the edit one append makes, canonical order and resume selection,
    and what every interleaving of concurrent appends leaves in the file. */
module Ledger {
  import opened Sequences
  import L = LockedFile

  // ---------------------------------------------------------------- entries

  /** One attempt record; `detail` stands for the fields the ledger never looks at. */
  datatype Attempt = Attempt(outcome: Option<string>, score: Option<real>, ts: Option<string>, detail: string)

  /** The `attempts` key: absent, null, or a list. */
  datatype AttemptsField = Missing | Null | Listed(items: seq<Attempt>)

  /** The additive fields attempts_count, latest_* and attempt_outcomes. */
  datatype Summary = Summary(
    count: nat, latestOutcome: Option<string>, latestScore: Option<real>, latestTs: Option<string>,
    outcomes: map<Option<string>, nat>)

  datatype Entry = Entry(
    qid: Option<string>, status: Option<string>, benchmark: Option<string>, queue: Option<string>,
    other: string, attempts: AttemptsField, summary: Option<Summary>)

  /** The part of an entry that no append may touch. */
  function Original(e: Entry): Entry {
    e.(attempts := Missing, summary := None)
  }

  /** The attempts list as readers take it (`entry.get("attempts") or []`). */
  function AttemptsOf(e: Entry): seq<Attempt> {
    if e.attempts.Listed? then e.attempts.items else []
  }

  function OutcomesOf(items: seq<Attempt>): seq<Option<string>> {
    MapSeq(items, (a: Attempt) => a.outcome)
  }

  /** The derived fields say of the attempts list what they should say. */
  ghost predicate Consistent(e: Entry) {
    var items := AttemptsOf(e);
    && e.attempts.Listed?
    && |items| > 0
    && e.summary.Some?
    && var s := e.summary.value;
    && var last := items[|items| - 1];
    && s.count == |items|
    && s.latestOutcome == last.outcome && s.latestScore == last.score && s.latestTs == last.ts
    && (forall o :: o in s.outcomes <==> o in OutcomesOf(items))
    && (forall o :: o in s.outcomes ==> s.outcomes[o] == multiset(OutcomesOf(items))[o])
  }

  function Bump(counts: map<Option<string>, nat>, o: Option<string>): map<Option<string>, nat> {
    counts[o := (if o in counts then counts[o] else 0) + 1]
  }

  function Tally(items: seq<Attempt>): (counts: map<Option<string>, nat>) {
    if |items| == 0 then map[] else Bump(Tally(items[..|items| - 1]), items[|items| - 1].outcome)
  }

  lemma {:induction false} TallyCounts(items: seq<Attempt>)
    ensures forall o :: o in Tally(items) <==> o in OutcomesOf(items)
    ensures forall o :: o in Tally(items) ==> Tally(items)[o] == multiset(OutcomesOf(items))[o]
  {
    if |items| > 0 {
      var front := items[..|items| - 1];
      TallyCounts(front);
      assert OutcomesOf(items) == OutcomesOf(front) + [items[|items| - 1].outcome];
      forall o ensures o in OutcomesOf(front) <==> multiset(OutcomesOf(front))[o] > 0 {
        assert o in OutcomesOf(front) <==> o in multiset(OutcomesOf(front));
      }
    }
  }

  method TallyOutcomes(items: seq<Attempt>) returns (counts: map<Option<string>, nat>)
    ensures counts == Tally(items)
  {
    counts := map[];
    for i := 0 to |items|
      invariant counts == Tally(items[..i])
    {
      var o := items[i].outcome;
      counts := counts[o := (if o in counts then counts[o] else 0) + 1];
      assert items[..i + 1][..i] == items[..i];
    }
    assert items[..|items|] == items;
  }

  /** What one append does to the entry; a null attempts list raises. */
  function Extended(e: Entry, a: Attempt): (r: Option<Entry>) {
    if e.attempts.Null? then None
    else
      var items := AttemptsOf(e) + [a];
      Some(e.(attempts := Listed(items),
              summary := Some(Summary(|items|, a.outcome, a.score, a.ts, Tally(items)))))
  }

  lemma ExtendedIsConsistent(e: Entry, a: Attempt)
    requires Extended(e, a).Some?
    ensures Consistent(Extended(e, a).value)
    ensures AttemptsOf(Extended(e, a).value) == AttemptsOf(e) + [a]
    ensures Original(Extended(e, a).value) == Original(e)
  {
    TallyCounts(AttemptsOf(e) + [a]);
  }

  // ---------------------------------------------------------------- the document

  /** Index of the first entry with this qid, or the length when there is none. */
  function Find(entries: seq<Entry>, qid: string): (i: nat)
    ensures i <= |entries|
    ensures i < |entries| ==> entries[i].qid == Some(qid)
    ensures forall j :: 0 <= j < i ==> entries[j].qid != Some(qid)
  {
    if |entries| == 0 || entries[0].qid == Some(qid) then 0 else 1 + Find(entries[1..], qid)
  }

  lemma FindIsFirst(entries: seq<Entry>, qid: string, i: nat)
    requires i <= |entries|
    requires i < |entries| ==> entries[i].qid == Some(qid)
    requires forall j :: 0 <= j < i ==> entries[j].qid != Some(qid)
    ensures Find(entries, qid) == i
  {
    assert !(Find(entries, qid) < i);
  }

  /** The document after one append, or None when the call raises. */
  function Appended(entries: seq<Entry>, qid: string, a: Attempt): (r: Option<seq<Entry>>)
    ensures r.Some? ==> |r.value| == |entries|
  {
    var i := Find(entries, qid);
    if i == |entries| || Extended(entries[i], a).None? then None
    else Some(entries[i := Extended(entries[i], a).value])
  }

  /** An append goes through exactly when some entry has the qid and the first one that has does not hold null for its
      attempts; whether it holds attempts already makes no difference. */
  lemma AppendedIff(entries: seq<Entry>, qid: string, a: Attempt)
    ensures Appended(entries, qid, a).Some? <==> exists i :: Receives(entries, qid, i)
  {
    var i := Find(entries, qid);
    if i < |entries| && entries[i].attempts != Null { assert Receives(entries, qid, i); }
    if k :| Receives(entries, qid, k) { FindIsFirst(entries, qid, k); }
  }

  ghost predicate Receives(entries: seq<Entry>, qid: string, i: nat) {
    && i < |entries| && entries[i].qid == Some(qid) && entries[i].attempts != Null
    && forall j :: 0 <= j < i ==> entries[j].qid != Some(qid)
  }

  /** The loaded ledger, edited in place by the controller that holds the lock. */
  class Document {
    var entries: seq<Entry>

    constructor (loaded: seq<Entry>)
      ensures entries == loaded
    {
      entries := loaded;
    }

    /** find_entry: a linear scan that stops at the first hit. */
    method FindEntry(qid: string) returns (i: nat)
      ensures i == Find(entries, qid)
    {
      i := 0;
      while i < |entries| && entries[i].qid != Some(qid)
        invariant i <= |entries|
        invariant forall j :: 0 <= j < i ==> entries[j].qid != Some(qid)
      {
        i := i + 1;
      }
      FindIsFirst(entries, qid, i);
    }

    /** The edit made under the lock; on an error nothing in the document has changed. */
    method Append(qid: string, a: Attempt) returns (ok: bool)
      modifies this
      ensures ok == Appended(old(entries), qid, a).Some?
      ensures entries == if ok then Appended(old(entries), qid, a).value else old(entries)
    {
      var i := FindEntry(qid);
      if i == |entries| || entries[i].attempts.Null? {
        return false;
      }
      var e := entries[i];
      var items := (if e.attempts.Listed? then e.attempts.items else []) + [a];
      var counts := TallyOutcomes(items);
      entries := entries[i := e.(attempts := Listed(items),
                                 summary := Some(Summary(|items|, a.outcome, a.score, a.ts, counts)))];
      return true;
    }
  }

  // ---------------------------------------------------------------- canonical order

  function StatusRank(s: Option<string>): int {
    match s
    case Some("FAILED") => 0
    case Some("EVAL_ERROR") => 1
    case Some("RESOLVED") => 2
    case Some("UNTESTED") => 3
    case _ => 99
  }

  function QueueRank(s: Option<string>): int {
    match s
    case Some("dev5") => 0
    case Some("regression") => 1
    case Some("evidence") => 2
    case Some("sequential") => 3
    case _ => 99
  }

  function TextOr(s: Option<string>): string {
    if s.Some? then s.value else ""
  }

  /** (status rank, benchmark, queue rank, qid). */
  predicate EntryLe(x: Entry, y: Entry) {
    var sx, sy := StatusRank(x.status), StatusRank(y.status);
    var bX, bY := CodePoints(TextOr(x.benchmark)), CodePoints(TextOr(y.benchmark));
    var qx, qy := QueueRank(x.queue), QueueRank(y.queue);
    if sx != sy then sx < sy
    else if bX != bY then LexLe(bX, bY)
    else if qx != qy then qx < qy
    else LexLe(CodePoints(TextOr(x.qid)), CodePoints(TextOr(y.qid)))
  }

  function SortedEntries(entries: seq<Entry>): seq<Entry> {
    SortBy(entries, EntryLe)
  }

  lemma EntryLeTransitive(x: Entry, y: Entry, z: Entry)
    requires EntryLe(x, y) && EntryLe(y, z)
    ensures EntryLe(x, z)
  {
    var b0, b1, b2 := CodePoints(TextOr(x.benchmark)), CodePoints(TextOr(y.benchmark)), CodePoints(TextOr(z.benchmark));
    var qx, qy, qz := CodePoints(TextOr(x.qid)), CodePoints(TextOr(y.qid)), CodePoints(TextOr(z.qid));
    LexTotal(b0, b1);
    LexTotal(b1, b2);
    LexTotal(b0, b2);
    if LexLe(b0, b1) && LexLe(b1, b2) { LexTransitive(b0, b1, b2); }
    if LexLe(qx, qy) && LexLe(qy, qz) { LexTransitive(qx, qy, qz); }
  }

  /** Entries that tie with the given one. */
  function Ties(x: Entry): Entry -> bool {
    (e: Entry) => EntryLe(e, x) && EntryLe(x, e)
  }

  /** The canonical order is sorted, holds the entries, and keeps those that tie in ledger order. */
  lemma SortedEntriesIsOrdered(entries: seq<Entry>)
    ensures Sorted(SortedEntries(entries), EntryLe)
    ensures multiset(SortedEntries(entries)) == multiset(entries)
    ensures forall x :: Having(SortedEntries(entries), Ties(x)) == Having(entries, Ties(x))
  {
    forall x ensures Having(SortedEntries(entries), Ties(x)) == Having(entries, Ties(x)) {
      forall y, z | Ties(x)(y) && Ties(x)(z) ensures EntryLe(y, z) { EntryLeTransitive(y, x, z); }
      hide EntryLe;
      SortStable(entries, EntryLe, Ties(x));
    }
    forall x, y ensures EntryLe(x, y) || EntryLe(y, x) {
      LexTotal(CodePoints(TextOr(x.benchmark)), CodePoints(TextOr(y.benchmark)));
      LexTotal(CodePoints(TextOr(x.qid)), CodePoints(TextOr(y.qid)));
    }
    forall x, y, z | EntryLe(x, y) && EntryLe(y, z) ensures EntryLe(x, z) {
      EntryLeTransitive(x, y, z);
    }
    SortSorted(entries, EntryLe);
    SortPermutes(entries, EntryLe);
  }

  const STATUSES: seq<string> := ["FAILED", "EVAL_ERROR", "RESOLVED", "UNTESTED"]
  const QUEUES: seq<string> := ["dev5", "regression", "evidence", "sequential"]

  /** Where a name stands in a list; after all of them if it is not there, or absent. */
  function Place(names: seq<string>, s: Option<string>): nat {
    if |names| == 0 || Some(names[0]) == s then 0 else 1 + Place(names[1..], s)
  }

  /** What the ranks are: positions in the two lists of names. */
  lemma RanksArePlaces(x: Option<string>, y: Option<string>)
    ensures StatusRank(x) <= StatusRank(y) <==> Place(STATUSES, x) <= Place(STATUSES, y)
    ensures QueueRank(x) <= QueueRank(y) <==> Place(QUEUES, x) <= Place(QUEUES, y)
  {
    PlaceOfStatus(x);
    PlaceOfStatus(y);
    PlaceOfQueue(x);
    PlaceOfQueue(y);
  }

  lemma PlaceOfStatus(s: Option<string>)
    ensures Place(STATUSES, s) == if StatusRank(s) == 99 then 4 else StatusRank(s)
  {
    assert STATUSES[1..] == ["EVAL_ERROR", "RESOLVED", "UNTESTED"] && STATUSES[1..][1..] == ["RESOLVED", "UNTESTED"];
    assert ["RESOLVED", "UNTESTED"][1..] == ["UNTESTED"] && ["UNTESTED"][1..] == [];
    assert Place(["UNTESTED"], s) == if s == Some("UNTESTED") then 0 else 1;
    assert Place(["RESOLVED", "UNTESTED"], s) == if s == Some("RESOLVED") then 0 else 1 + Place(["UNTESTED"], s);
  }

  lemma PlaceOfQueue(s: Option<string>)
    ensures Place(QUEUES, s) == if QueueRank(s) == 99 then 4 else QueueRank(s)
  {
    assert QUEUES[1..] == ["regression", "evidence", "sequential"] && QUEUES[1..][1..] == ["evidence", "sequential"];
    assert ["evidence", "sequential"][1..] == ["sequential"] && ["sequential"][1..] == [];
    assert Place(["sequential"], s) == if s == Some("sequential") then 0 else 1;
    assert Place(["evidence", "sequential"], s) == if s == Some("evidence") then 0 else 1 + Place(["sequential"], s);
  }

  /** No later status in the list of statuses; with statuses at the same place, no larger benchmark; then no later queue
      in the list of queues; and then no larger question id. */
  ghost predicate Precedes(x: Entry, y: Entry) {
    var s, q := Place(STATUSES, x.status) - Place(STATUSES, y.status), Place(QUEUES, x.queue) - Place(QUEUES, y.queue);
    var b, c := CodePoints(TextOr(x.benchmark)), CodePoints(TextOr(y.benchmark));
    && s <= 0
    && (s == 0 ==> LexLe(b, c))
    && (s == 0 && b == c ==> q <= 0)
    && (s == 0 && b == c && q == 0 ==> LexLe(CodePoints(TextOr(x.qid)), CodePoints(TextOr(y.qid))))
  }

  lemma EntryLeMeans(x: Entry, y: Entry)
    requires EntryLe(x, y)
    ensures Precedes(x, y)
  {
    hide Place, StatusRank, QueueRank, LexLe;
    RanksArePlaces(x.status, y.status);
    RanksArePlaces(y.status, x.status);
    RanksArePlaces(x.queue, y.queue);
    RanksArePlaces(y.queue, x.queue);
    LexRefl(CodePoints(TextOr(x.benchmark)));
  }

  lemma {:induction false} LexRefl(a: seq<int>)
    ensures LexLe(a, a)
  {
    if |a| > 0 { LexRefl(a[1..]); }
  }

  /** So stand any two entries in canonical order. */
  lemma CanonicalOrder(entries: seq<Entry>, i: nat, j: nat)
    requires i < j < |SortedEntries(entries)|
    ensures Precedes(SortedEntries(entries)[i], SortedEntries(entries)[j])
  {
    hide EntryLe, Precedes;
    SortedEntriesIsOrdered(entries);
    EntryLeMeans(SortedEntries(entries)[i], SortedEntries(entries)[j]);
  }

  /** Two ledgers with the same original fields list their entries in the same order. */
  lemma OrderDependsOnOriginals(a: seq<Entry>, b: seq<Entry>)
    requires MapSeq(a, Original) == MapSeq(b, Original)
    ensures MapSeq(SortedEntries(a), Original) == MapSeq(SortedEntries(b), Original)
  {
    SortMap(a, Original, EntryLe, EntryLe);
    SortMap(b, Original, EntryLe, EntryLe);
  }

  // ---------------------------------------------------------------- selection

  /** The filters of next_entry; an empty benchmark set means no filter. */
  datatype Filter = Filter(
    benchmarks: set<Option<string>>, queue: Option<string>, status: Option<string>,
    retryFailed: bool, includeAttempted: bool)

  predicate Matches(f: Filter, e: Entry) {
    && (f.benchmarks == {} || e.benchmark in f.benchmarks)
    && (f.queue.None? || f.queue.value == "" || e.queue == f.queue)
    && (f.status.None? || f.status.value == "" || e.status == f.status)
  }

  /** The entry has attempts and the last one did not pass. */
  predicate Failing(e: Entry) {
    var items := AttemptsOf(e);
    |items| > 0 && items[|items| - 1].outcome != Some("pass")
  }

  predicate Eligible(f: Filter, e: Entry) {
    Matches(f, e) && (|AttemptsOf(e)| == 0 || f.includeAttempted || (f.retryFailed && Failing(e)))
  }

  /** The eligible ones among the first n entries. */
  function Select(f: Filter, entries: seq<Entry>, n: nat): seq<Entry>
    requires n <= |entries|
  {
    if n == 0 then []
    else Select(f, entries, n - 1) + (if Eligible(f, entries[n - 1]) then [entries[n - 1]] else [])
  }

  lemma {:induction false} SelectGrows(f: Filter, entries: seq<Entry>, i: nat, n: nat)
    requires i <= n <= |entries|
    ensures Select(f, entries, i) <= Select(f, entries, n)
  {
    if i < n {
      SelectGrows(f, entries, i, n - 1);
    }
  }

  lemma TakeFront(front: seq<Entry>, all: seq<Entry>, n: nat)
    requires front <= all && (n == |front| || (front == all && |front| <= n))
    ensures Take(all, n) == front
  {
  }

  function Picked(entries: seq<Entry>, f: Filter, limit: int): seq<Entry> {
    var order := SortedEntries(entries);
    Take(Select(f, order, |order|), if limit < 1 then 1 else limit)
  }

  /** next_entry: the first eligible entries in canonical order. A limit below one still yields one entry. */
  method NextEntry(entries: seq<Entry>, f: Filter, limit: int) returns (picked: seq<Entry>)
    ensures picked == Picked(entries, f, limit)
  {
    hide Eligible, EntryLe, SortBy, Take;
    var order := SortBy(entries, EntryLe);
    picked := [];
    for i := 0 to |order|
      invariant picked == Select(f, order, i)
      invariant |picked| == 0 || |picked| < limit
    {
      if Eligible(f, order[i]) {
        picked := picked + [order[i]];
        if |picked| >= limit {
          SelectGrows(f, order, i + 1, |order|);
          TakeFront(picked, Select(f, order, |order|), |picked|);
          return;
        }
      }
    }
    TakeFront(picked, picked, if limit < 1 then 1 else limit);
  }

  // ---------------------------------------------------------------- what the selection promises

  lemma {:induction false} SelectCounts(f: Filter, order: seq<Entry>, n: nat, e: Entry)
    requires n <= |order|
    ensures multiset(Select(f, order, n))[e] == if Eligible(f, e) then multiset(order[..n])[e] else 0
  {
    hide Eligible;
    if n > 0 {
      SelectCounts(f, order, n - 1, e);
      assert order[..n] == order[..n - 1] + [order[n - 1]];
    }
  }

  lemma {:induction false} SelectSorted(f: Filter, order: seq<Entry>, n: nat)
    requires n <= |order| && Sorted(order, EntryLe)
    ensures Sorted(Select(f, order, n), EntryLe) && |Select(f, order, n)| <= n
    ensures forall e :: e in Select(f, order, n) ==> exists i :: 0 <= i < n && order[i] == e
  {
    hide Eligible, EntryLe;
    if n > 0 {
      SelectSorted(f, order, n - 1);
      var front := Select(f, order, n - 1);
      forall i | 0 <= i < |front| ensures EntryLe(front[i], order[n - 1]) {
        assert front[i] in front;
      }
    }
  }

  /** With no limit in the way, an entry is picked as often as it stands in the ledger, if it meets every filter that is
      given and has no attempts, or attempted ones are asked for, or failed ones are and its last attempt did not pass;
      and otherwise not at all. A limit cuts the list off. */
  lemma PickedMeaning(entries: seq<Entry>, f: Filter, limit: nat, e: Entry)
    ensures
      var items := AttemptsOf(e);
      var wanted :=
        && (f.benchmarks == {} || e.benchmark in f.benchmarks)
        && (f.queue == None || f.queue == Some("") || f.queue == e.queue)
        && (f.status == None || f.status == Some("") || f.status == e.status)
        && (items == [] || f.includeAttempted || (f.retryFailed && items[|items| - 1].outcome != Some("pass")));
      multiset(Picked(entries, f, |entries|))[e] == if wanted then multiset(entries)[e] else 0
  {
    hide Eligible, Picked;
    EligibleMeans(f, e);
    PickedCounts(entries, f, e);
  }

  lemma PickedCounts(entries: seq<Entry>, f: Filter, e: Entry)
    ensures multiset(Picked(entries, f, |entries|))[e] == if Eligible(f, e) then multiset(entries)[e] else 0
  {
    hide Eligible, EntryLe, SortBy, Select;
    var order := SortedEntries(entries);
    SortedEntriesIsOrdered(entries);
    SelectCounts(f, order, |order|, e);
    SelectSorted(f, order, |order|);
    var all := Select(f, order, |order|);
    assert order[..|order|] == order && all[..|all|] == all;
    assert |order| == |multiset(order)| == |entries|;
  }

  /** Whatever the limit, the entries picked stand in canonical order, and a limit only cuts the list off. */
  lemma PickedInOrder(entries: seq<Entry>, f: Filter, limit: nat)
    ensures Sorted(Picked(entries, f, limit), EntryLe)
    ensures limit >= 1 ==> Picked(entries, f, limit) == Take(Picked(entries, f, |entries|), limit)
  {
    hide Eligible, EntryLe, SortBy, Select;
    var order := SortedEntries(entries);
    SortedEntriesIsOrdered(entries);
    SelectSorted(f, order, |order|);
    assert |order| == |multiset(order)| == |entries|;
  }

  lemma EligibleMeans(f: Filter, e: Entry)
    ensures
      var items := AttemptsOf(e);
      Eligible(f, e) <==>
        && (f.benchmarks == {} || e.benchmark in f.benchmarks)
        && (f.queue == None || f.queue == Some("") || f.queue == e.queue)
        && (f.status == None || f.status == Some("") || f.status == e.status)
        && (items == [] || f.includeAttempted || (f.retryFailed && items[|items| - 1].outcome != Some("pass")))
  {
  }

  lemma {:induction false} SelectMembers(f: Filter, order: seq<Entry>, n: nat)
    requires n <= |order|
    ensures forall e :: e in Select(f, order, n) ==> e in order && Eligible(f, e)
    ensures Select(f, order, n) == [] <==> forall i :: 0 <= i < n ==> !Eligible(f, order[i])
  {
    hide Eligible;
    if n > 0 {
      SelectMembers(f, order, n - 1);
    }
  }

  /** The first selected entry is the first eligible one. */
  lemma {:induction false} SelectFirst(f: Filter, order: seq<Entry>, n: nat) returns (k: nat)
    requires n <= |order| && Select(f, order, n) != []
    ensures k < n && Select(f, order, n)[0] == order[k] && Eligible(f, order[k])
    ensures forall i :: 0 <= i < k ==> !Eligible(f, order[i])
  {
    hide Eligible;
    SelectMembers(f, order, n - 1);
    if Select(f, order, n - 1) != [] {
      k := SelectFirst(f, order, n - 1);
    } else {
      k := n - 1;
    }
  }

  /** No more entries than the limit, exactly when the limit is at least one or nothing is eligible. */
  lemma LimitHoldsIff(entries: seq<Entry>, f: Filter, limit: nat)
    ensures |Picked(entries, f, limit)| <= limit <==> limit >= 1 || forall e :: e in entries ==> !Eligible(f, e)
  {
    hide Eligible, EntryLe;
    var order := SortedEntries(entries);
    SortedEntriesIsOrdered(entries);
    SelectMembers(f, order, |order|);
    forall e ensures e in order <==> e in entries { assert e in multiset(order) <==> e in multiset(entries); }
    if Select(f, order, |order|) == [] && limit < 1 {
      forall e | e in entries ensures !Eligible(f, e) { var i :| 0 <= i < |order| && order[i] == e; }
    } else if limit < 1 {
      var k := SelectFirst(f, order, |order|);
      assert order[k] in entries;
    }
  }

  ghost predicate UnattemptedFirst(picked: seq<Entry>) {
    forall i, j :: 0 <= i < j < |picked| && AttemptsOf(picked[j]) == [] ==> AttemptsOf(picked[i]) == []
  }

  /** An entry that passes the filter, with the given question id and last outcome, if any. */
  function Sample(f: Filter, qid: string, benchmark: Option<string>, outcome: Option<string>): Entry {
    Entry(Some(qid), f.status, benchmark, f.queue, "", if outcome.Some? then Listed([Attempt(outcome, None, None, "")]) else Missing, None)
  }

  lemma SampleMatches(f: Filter) returns (benchmark: Option<string>)
    ensures forall qid, outcome :: Matches(f, Sample(f, qid, benchmark, outcome))
  {
    if f.benchmarks == {} { benchmark := None; } else { benchmark :| benchmark in f.benchmarks; }
  }

  /** Two samples are listed by question id. */
  lemma SamplesInOrder(f: Filter, benchmark: Option<string>, a: Option<string>, b: Option<string>)
    ensures
      var x, y := Sample(f, "a", benchmark, a), Sample(f, "b", benchmark, b);
      SortedEntries([x, y]) == [x, y]
  {
    var x, y := Sample(f, "a", benchmark, a), Sample(f, "b", benchmark, b);
    assert CodePoints("a")[0] < CodePoints("b")[0];
    assert EntryLe(x, y);
    assert [x, y][1..] == [y] && [y][1..] == [];
    assert SortBy([y], EntryLe) == [y] by { assert SortBy([], EntryLe) == []; }
  }

  lemma PickedOfTwo(f: Filter, x: Entry, y: Entry, limit: int)
    requires SortedEntries([x, y]) == [x, y] && Eligible(f, x) && Eligible(f, y) && limit >= 1
    ensures Picked([x, y], f, limit) == if limit == 1 then [x] else [x, y]
  {
    hide Eligible;
    assert Select(f, [x, y], 0) == [];
    assert Select(f, [x, y], 1) == [x];
    assert Select(f, [x, y], 2) == [x, y];
  }

  /** Entries without attempts come first, whatever the ledger and limit, exactly when attempted entries are not asked
      for at all; otherwise they come in canonical order with the others. */
  lemma UnattemptedFirstIff(f: Filter)
    ensures (forall entries, limit :: UnattemptedFirst(Picked(entries, f, limit))) <==> !f.retryFailed && !f.includeAttempted
  {
    if !f.retryFailed && !f.includeAttempted {
      forall entries, limit ensures UnattemptedFirst(Picked(entries, f, limit)) {
        var order := SortedEntries(entries);
        SelectMembers(f, order, |order|);
        var all := Select(f, order, |order|);
        assert forall e :: e in all ==> AttemptsOf(e) == [];
      }
    } else {
      var benchmark := SampleMatches(f);
      var x, y := Sample(f, "a", benchmark, Some("fail")), Sample(f, "b", benchmark, None);
      SamplesInOrder(f, benchmark, Some("fail"), None);
      assert Matches(f, x) && Matches(f, y);
      PickedOfTwo(f, x, y, 2);
      assert !UnattemptedFirst(Picked([x, y], f, 2));
    }
  }

  /** The single entry picked is the first in canonical order that passes the filter and failed last; none, if none did. */
  ghost predicate EarliestFailing(f: Filter, order: seq<Entry>, picked: seq<Entry>) {
    if picked == [] then forall i :: 0 <= i < |order| ==> !(Matches(f, order[i]) && Failing(order[i]))
    else exists k :: 0 <= k < |order| && FirstFailingAt(f, order, picked, k)
  }

  ghost predicate FirstFailingAt(f: Filter, order: seq<Entry>, picked: seq<Entry>, k: int)
    requires 0 <= k < |order|
  {
    && picked == [order[k]] && Matches(f, order[k]) && Failing(order[k])
    && forall i :: 0 <= i < k ==> !(Matches(f, order[i]) && Failing(order[i]))
  }

  ghost predicate AllAttempted(entries: seq<Entry>) {
    forall e :: e in entries ==> AttemptsOf(e) != []
  }

  /** Where every entry has attempts, the earliest failing one is picked, whatever the ledger, exactly when retries of
      failed entries are asked for and attempted entries in general are not. */
  lemma EarliestFailingIff(f: Filter)
    ensures
      (forall entries :: AllAttempted(entries) ==> EarliestFailing(f, SortedEntries(entries), Picked(entries, f, 1)))
      <==> f.retryFailed && !f.includeAttempted
  {
    if f.retryFailed && !f.includeAttempted {
      forall entries | AllAttempted(entries) ensures EarliestFailing(f, SortedEntries(entries), Picked(entries, f, 1)) {
        FailingPicked(f, entries);
      }
    } else {
      var benchmark := SampleMatches(f);
      var x, y := Sample(f, "a", benchmark, Some("pass")), Sample(f, "b", benchmark, Some("fail"));
      SamplesInOrder(f, benchmark, Some("pass"), Some("fail"));
      assert Matches(f, x) && Matches(f, y) && !Failing(x) && Failing(y);
      PassedPicked(f, x, y);
      assert AllAttempted([x, y]);
    }
  }

  lemma FailingPicked(f: Filter, entries: seq<Entry>)
    requires f.retryFailed && !f.includeAttempted && AllAttempted(entries)
    ensures EarliestFailing(f, SortedEntries(entries), Picked(entries, f, 1))
  {
    hide Matches, Failing, EntryLe;
    var order := SortedEntries(entries);
    var all := Select(f, order, |order|);
    SortedEntriesIsOrdered(entries);
    forall i | 0 <= i < |order| ensures Eligible(f, order[i]) <==> Matches(f, order[i]) && Failing(order[i]) {
      assert order[i] in multiset(order) && order[i] in multiset(entries);
    }
    SelectMembers(f, order, |order|);
    if all != [] {
      var k := SelectFirst(f, order, |order|);
      assert Picked(entries, f, 1) == [order[k]];
      assert FirstFailingAt(f, order, [order[k]], k);
    }
  }

  /** A passed entry before a failed one: the first is picked where attempted entries are included, and neither where
      nothing attempted is asked for. */
  lemma PassedPicked(f: Filter, x: Entry, y: Entry)
    requires SortedEntries([x, y]) == [x, y] && Matches(f, x) && Matches(f, y)
    requires AttemptsOf(x) != [] && !Failing(x) && Failing(y) && !(f.retryFailed && !f.includeAttempted)
    ensures !EarliestFailing(f, [x, y], Picked([x, y], f, 1))
  {
    hide Matches;
    if f.includeAttempted {
      PickedOfTwo(f, x, y, 1);
    } else {
      SelectMembers(f, [x, y], 2);
      assert !Eligible(f, x) && !Eligible(f, y);
      assert Picked([x, y], f, 1) == [];
      assert [x, y][1] == y;
    }
  }

  // ---------------------------------------------------------------- concurrent appends

  datatype Call = Call(qid: string, attempt: Attempt)

  /** The edit call i makes to the document it has loaded. */
  function EditOf(calls: seq<Call>): (nat, seq<Entry>) -> Option<seq<Entry>> {
    (i: nat, doc: seq<Entry>) => if i < |calls| then Appended(doc, calls[i].qid, calls[i].attempt) else None
  }

  function Outcome(entries: seq<Entry>, calls: seq<Call>, events: seq<L.Event>): L.World<seq<Entry>> {
    L.Run(EditOf(calls), L.Starting(entries, |calls|), events)
  }

  /** The attempts that the given calls add to entry n, in their order. */
  function Committed(entries: seq<Entry>, calls: seq<Call>, order: seq<nat>, n: nat): seq<Attempt> {
    if |order| == 0 then []
    else
      var i := order[|order| - 1];
      Committed(entries, calls, order[..|order| - 1], n)
      + (if i < |calls| && Find(entries, calls[i].qid) == n then [calls[i].attempt] else [])
  }

  lemma FindDependsOnOriginals(a: seq<Entry>, b: seq<Entry>, qid: string)
    requires MapSeq(a, Original) == MapSeq(b, Original)
    ensures |a| == |b| && Find(a, qid) == Find(b, qid)
  {
    assert |a| == |MapSeq(a, Original)| == |b|;
    forall j | 0 <= j < |a| ensures a[j].qid == b[j].qid {
      assert Original(a[j]) == MapSeq(a, Original)[j] == MapSeq(b, Original)[j] == Original(b[j]);
    }
    FindIsFirst(a, qid, Find(b, qid));
  }

  /** One append changes the first entry with that qid and nothing else. */
  lemma AppendedMeaning(entries: seq<Entry>, qid: string, a: Attempt)
    requires Appended(entries, qid, a).Some?
    ensures
      var after, hit := Appended(entries, qid, a).value, Find(entries, qid);
      && hit < |entries|
      && MapSeq(after, Original) == MapSeq(entries, Original)
      && AttemptsOf(after[hit]) == AttemptsOf(entries[hit]) + [a] && Consistent(after[hit])
      && forall n :: 0 <= n < |entries| && n != hit ==> after[n] == entries[n]
  {
    ExtendedIsConsistent(entries[Find(entries, qid)], a);
  }

  /** Entry n after the calls in `order`: its first attempts, then theirs, with the derived fields right. */
  ghost predicate ExactEntry(entries: seq<Entry>, calls: seq<Call>, order: seq<nat>, disk: seq<Entry>, n: nat)
    requires n < |entries| == |disk|
  {
    var added := Committed(entries, calls, order, n);
    && AttemptsOf(disk[n]) == AttemptsOf(entries[n]) + added
    && (if added == [] then disk[n] == entries[n] else Consistent(disk[n]))
  }

  lemma {:induction false} ReplayIsExact(entries: seq<Entry>, calls: seq<Call>, order: seq<nat>)
    requires L.Replay(EditOf(calls), entries, order).Some?
    ensures
      var disk := L.Replay(EditOf(calls), entries, order).value;
      && |disk| == |entries|
      && MapSeq(disk, Original) == MapSeq(entries, Original)
      && forall n :: 0 <= n < |entries| ==> ExactEntry(entries, calls, order, disk, n)
  {
    hide Appended, Find, Consistent, AttemptsOf, MapSeq, Committed;
    if |order| > 0 {
      var front, i := order[..|order| - 1], order[|order| - 1];
      ReplayIsExact(entries, calls, front);
      var before := L.Replay(EditOf(calls), entries, front).value;
      AppendedMeaning(before, calls[i].qid, calls[i].attempt);
      FindDependsOnOriginals(before, entries, calls[i].qid);
      var disk := L.Replay(EditOf(calls), entries, order).value;
      hide ExactEntry;
      forall n | 0 <= n < |entries| ensures ExactEntry(entries, calls, order, disk, n) {
        assert ExactEntry(entries, calls, front, before, n);
        ExactStep(entries, calls, order, before, disk, n);
      }
    } else {
      forall n | 0 <= n < |entries| ensures ExactEntry(entries, calls, order, entries, n) {
        NothingCommitted(entries, calls, order, n);
      }
    }
  }

  lemma NothingCommitted(entries: seq<Entry>, calls: seq<Call>, order: seq<nat>, n: nat)
    requires |order| == 0 && n < |entries|
    ensures ExactEntry(entries, calls, order, entries, n)
  {
    assert AttemptsOf(entries[n]) + [] == AttemptsOf(entries[n]);
  }

  /** One more committed call keeps every entry exact. */
  lemma ExactStep(entries: seq<Entry>, calls: seq<Call>, order: seq<nat>, before: seq<Entry>, disk: seq<Entry>, n: nat)
    requires |order| > 0 && order[|order| - 1] < |calls| && n < |entries| == |before| == |disk|
    requires ExactEntry(entries, calls, order[..|order| - 1], before, n)
    requires
      var call := calls[order[|order| - 1]];
      if n == Find(entries, call.qid)
      then AttemptsOf(disk[n]) == AttemptsOf(before[n]) + [call.attempt] && Consistent(disk[n])
      else disk[n] == before[n]
    ensures ExactEntry(entries, calls, order, disk, n)
  {
    hide Find, Consistent, AttemptsOf;
  }

  /** No attempt is lost, doubled or reordered, whatever the interleaving and wherever calls crash:
      each entry holds its first attempts followed by the committed ones in commit order, the derived
      fields agree with that list, and nothing else in any entry, nor the canonical order, has changed. */
  lemma LedgerIsExact(entries: seq<Entry>, calls: seq<Call>, events: seq<L.Event>)
    ensures
      var w := Outcome(entries, calls, events);
      && |w.disk| == |entries|
      && (forall n :: 0 <= n < |entries| ==> ExactEntry(entries, calls, w.commits, w.disk, n))
      && MapSeq(w.disk, Original) == MapSeq(entries, Original)
      && MapSeq(SortedEntries(w.disk), Original) == MapSeq(SortedEntries(entries), Original)
  {
    L.Serializable(EditOf(calls), entries, |calls|, events);
    var w := Outcome(entries, calls, events);
    ReplayIsExact(entries, calls, w.commits);
    OrderDependsOnOriginals(w.disk, entries);
  }

  lemma {:induction false} CommittedHasAttempt(entries: seq<Entry>, calls: seq<Call>, order: seq<nat>, i: nat)
    requires i in order && i < |calls| && L.Replay(EditOf(calls), entries, order).Some?
    ensures Find(entries, calls[i].qid) < |entries|
    ensures Committed(entries, calls, order, Find(entries, calls[i].qid)) != []
  {
    var front := order[..|order| - 1];
    if order[|order| - 1] == i {
      ReplayIsExact(entries, calls, front);
      var before := L.Replay(EditOf(calls), entries, front).value;
      FindDependsOnOriginals(before, entries, calls[i].qid);
    } else {
      CommittedHasAttempt(entries, calls, front, i);
    }
  }

  /** Once a call on an entry has returned, plain resume selection never offers that entry again,
      in this or any later state of the run. */
  lemma AttemptedIsNotReselected(entries: seq<Entry>, calls: seq<Call>, events: seq<L.Event>, i: nat, f: Filter)
    requires i < |calls|
    requires !f.retryFailed && !f.includeAttempted
    ensures
      var w := Outcome(entries, calls, events);
      && |w.phases| == |calls| && |w.disk| == |entries|
      && (w.phases[i].Returned? ==>
            && Find(entries, calls[i].qid) < |entries|
            && !Eligible(f, w.disk[Find(entries, calls[i].qid)]))
  {
    LedgerIsExact(entries, calls, events);
    L.Serializable(EditOf(calls), entries, |calls|, events);
    L.CommittedOnce(EditOf(calls), entries, |calls|, events, i);
    var w := Outcome(entries, calls, events);
    if w.phases[i].Returned? {
      CommittedHasAttempt(entries, calls, w.commits, i);
      assert ExactEntry(entries, calls, w.commits, w.disk, Find(entries, calls[i].qid));
    }
  }

  /** An entry that holds null for its attempts keeps it. */
  lemma {:induction false} NullStays(entries: seq<Entry>, calls: seq<Call>, order: seq<nat>, n: nat)
    requires L.Replay(EditOf(calls), entries, order).Some? && n < |entries|
    ensures
      var disk := L.Replay(EditOf(calls), entries, order).value;
      |disk| == |entries| && (disk[n].attempts.Null? <==> entries[n].attempts.Null?)
  {
    if |order| > 0 {
      hide Find;
      NullStays(entries, calls, order[..|order| - 1], n);
    }
  }

  /** Whether a call can go through is decided by the ledger as it was at first, whatever has been committed since. */
  lemma ReceivesStill(entries: seq<Entry>, calls: seq<Call>, events: seq<L.Event>, qid: string)
    ensures
      var disk := Outcome(entries, calls, events).disk;
      (exists n :: Receives(disk, qid, n)) <==> exists n :: Receives(entries, qid, n)
  {
    L.Serializable(EditOf(calls), entries, |calls|, events);
    LedgerIsExact(entries, calls, events);
    var w := Outcome(entries, calls, events);
    forall n | 0 <= n < |entries| ensures w.disk[n].qid == entries[n].qid && (w.disk[n].attempts.Null? <==> entries[n].attempts.Null?) {
      NullStays(entries, calls, w.commits, n);
      assert Original(w.disk[n]) == MapSeq(w.disk, Original)[n] == MapSeq(entries, Original)[n] == Original(entries[n]);
    }
    hide Outcome;
    forall n: nat ensures Receives(w.disk, qid, n) <==> Receives(entries, qid, n) {}
  }

  /** From every state of every run, a call that still waits can end without anything going wrong. Then it has committed
      its attempt, exactly when at first some entry had its qid and the first one did not hold null for its attempts;
      otherwise it has raised and changed nothing. */
  lemma AppendGetsThroughIff(entries: seq<Entry>, calls: seq<Call>, events: seq<L.Event>, i: nat)
    returns (before: seq<L.Event>, turn: seq<L.Event>)
    requires var w := Outcome(entries, calls, events); i < |calls| && i < |w.phases| && w.phases[i].Waiting?
    ensures L.Smooth(before) && L.Smooth(turn)
    ensures
      var u, v := Outcome(entries, calls, events + before), Outcome(entries, calls, events + before + turn);
      if exists n :: Receives(entries, calls[i].qid, n)
      then i < |v.phases| && v.phases[i].Returned? && v.commits == u.commits + [i] && Appended(u.disk, calls[i].qid, calls[i].attempt) == Some(v.disk)
      else i < |v.phases| && v.phases[i].Raised? && v.commits == u.commits && v.disk == u.disk
  {
    before, turn := L.NeverLockedOut(EditOf(calls), entries, |calls|, events, i);
    ReceivesStill(entries, calls, events + before, calls[i].qid);
    AppendedIff(Outcome(entries, calls, events + before).disk, calls[i].qid, calls[i].attempt);
  }
}
