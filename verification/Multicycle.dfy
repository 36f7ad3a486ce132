/** Compaction cycles: every cycle adds a work turn, compacts the transcript when it is over budget, looks for the
    evidence markers, asks the question and scores the answer. The compactor keeps the system message, a truncated
    text of what it drops, and the last messages. */
module Multicycle {
  import opened Sequences

  const PREFIX: string := "COMPACTION SUMMARY (deterministic truncation, no model)"

  datatype Message = Message(role: string, content: string)

  /** The token estimate is a parameter: no result depends on what it computes. */
  datatype Params = Params(keepTail: nat, summaryChars: nat, budget: int, tokens: seq<Message> -> int)

  /** What the outside world contributes to a cycle: the work turn, and the model's answer (None when it fails). */
  datatype Cycle = Cycle(turn: seq<Message>, answer: Option<string>)

  datatype Reason = AdapterError | LostEvidence

  datatype Record = Record(
    dropped: nat, tokensBefore: int, tokensAfter: int, missing: seq<string>, invalid: Option<Reason>, correct: Option<bool>)

  // ---------------------------------------------------------------- text

  /** sep.join(contents from message k on, up to n). */
  function Join(ms: seq<Message>, k: nat, n: nat, sep: string): string
    requires k <= n <= |ms|
    decreases n - k
  {
    if k == n then ""
    else if k + 1 == n then ms[k].content
    else ms[k].content + sep + Join(ms, k + 1, n, sep)
  }

  function PromptText(ms: seq<Message>): string {
    Join(ms, 0, |ms|, "\n")
  }

  function Truncated(s: string, n: nat): string {
    if n < |s| then s[..n] else s
  }

  // ---------------------------------------------------------------- the compactor

  function Summary(p: Params, ms: seq<Message>): string
    requires |ms| > p.keepTail + 1
  {
    PREFIX + "\n" + Truncated(Join(ms, 1, |ms| - p.keepTail, "\n\n"), p.summaryChars)
  }

  function Compacted(p: Params, ms: seq<Message>): seq<Message> {
    if |ms| <= p.keepTail + 1 then ms
    else [ms[0], Message("user", Summary(p, ms))] + ms[|ms| - p.keepTail..]
  }

  /** A compaction keeps the first message and the last keepTail ones as they are; in between stands one message, with the
      heading and the first summaryChars characters of all that was dropped. */
  lemma CompactionKeeps(p: Params, ms: seq<Message>)
    requires |ms| > p.keepTail + 1
    ensures
      var r, dropped := Compacted(p, ms), ms[1..|ms| - p.keepTail];
      && |r| == p.keepTail + 2 && r[0] == ms[0]
      && r[2..] == ms[|ms| - p.keepTail..]
      && r[1].role == "user" && "COMPACTION SUMMARY (deterministic truncation, no model)" + "\n" <= r[1].content
      && var body := r[1].content[|PREFIX| + 1..];
      && body <= Join(dropped, 0, |dropped|, "\n\n") && |body| <= p.summaryChars
      && (|body| < p.summaryChars ==> body == Join(dropped, 0, |dropped|, "\n\n"))
  {
    var dropped, n := ms[1..|ms| - p.keepTail], |ms| - p.keepTail;
    JoinDropped(ms, 1, n, "\n\n");
    var content := PREFIX + "\n" + Truncated(Join(ms, 1, n, "\n\n"), p.summaryChars);
    assert content[|PREFIX| + 1..] == Truncated(Join(ms, 1, n, "\n\n"), p.summaryChars);
  }

  lemma {:induction false} JoinDropped(ms: seq<Message>, k: nat, n: nat, sep: string)
    requires 1 <= k <= n <= |ms|
    ensures Join(ms, k, n, sep) == Join(ms[1..n], k - 1, n - 1, sep)
    decreases n - k
  {
    if k < n {
      JoinDropped(ms, k + 1, n, sep);
      assert ms[1..n][k - 1] == ms[k];
    }
  }

  function Dropped(p: Params, ms: seq<Message>): nat {
    if |ms| <= p.keepTail + 1 then 0 else |ms| - p.keepTail - 1
  }

  // ---------------------------------------------------------------- the loop

  function Turned(p: Params, ms: seq<Message>, turn: seq<Message>): seq<Message> {
    if p.tokens(ms + turn) > p.budget then Compacted(p, ms + turn) else ms + turn
  }

  /** The transcript at the top of cycle i. */
  function Before(p: Params, ask: Message, start: seq<Message>, cycles: seq<Cycle>, i: nat): seq<Message>
    requires i <= |cycles|
    decreases i, 0
  {
    if i == 0 then start else Prompt(p, ask, start, cycles, i - 1) + [ask]
  }

  /** The transcript in which cycle i looks for the markers. */
  function Prompt(p: Params, ask: Message, start: seq<Message>, cycles: seq<Cycle>, i: nat): seq<Message>
    requires i < |cycles|
    decreases i, 1
  {
    Turned(p, Before(p, ask, start, cycles, i), cycles[i].turn)
  }

  function Missing(markers: seq<string>, text: string): (r: seq<string>)
    ensures forall m :: m in r <==> m in markers && !Contains(text, m)
  {
    if |markers| == 0 then []
    else
      var last := markers[|markers| - 1];
      Missing(markers[..|markers| - 1], text) + (if ContainsFrom(text, last, 0) then [] else [last])
  }

  predicate ContainsFrom(text: string, needle: string, i: nat)
    ensures ContainsFrom(text, needle, i) <==> exists j :: i <= j <= |text| && OccursAt(needle, text, j)
    decreases |text| - i
  {
    i <= |text| && (OccursAt(needle, text, i) || ContainsFrom(text, needle, i + 1))
  }

  /** score_answer: an invalid cell is never scored. */
  function Scored(score: string -> bool, invalid: Option<Reason>, answer: string): Option<bool> {
    if invalid.Some? then None else Some(score(answer))
  }

  function RecordAt(
    p: Params, ask: Message, markers: seq<string>, score: string -> bool, start: seq<Message>, cycles: seq<Cycle>, i: nat): Record
    requires i < |cycles|
  {
    var extended := Before(p, ask, start, cycles, i) + cycles[i].turn;
    var prompt := Prompt(p, ask, start, cycles, i);
    var over := p.tokens(extended) > p.budget;
    var missing := Missing(markers, PromptText(prompt));
    var invalid := if cycles[i].answer.None? then Some(AdapterError) else if |missing| > 0 then Some(LostEvidence) else None;
    Record(
      if over then Dropped(p, extended) else 0, p.tokens(extended), if over then p.tokens(prompt) else p.tokens(extended),
      missing, invalid, Scored(score, invalid, if cycles[i].answer.Some? then cycles[i].answer.value else ""))
  }

  method RunCycles(
    p: Params, ask: Message, markers: seq<string>, score: string -> bool, start: seq<Message>, cycles: seq<Cycle>)
    returns (records: seq<Record>)
    ensures |records| == |cycles|
    ensures forall i :: 0 <= i < |records| ==> records[i] == RecordAt(p, ask, markers, score, start, cycles, i)
  {
    var messages := start;
    records := [];
    for cycle := 0 to |cycles|
      invariant |records| == cycle
      invariant messages == Before(p, ask, start, cycles, cycle)
      invariant forall i :: 0 <= i < cycle ==> records[i] == RecordAt(p, ask, markers, score, start, cycles, i)
    {
      messages := messages + cycles[cycle].turn;
      var dropped, tokensBefore := 0, p.tokens(messages);
      var tokensAfter := tokensBefore;
      if tokensBefore > p.budget {
        dropped := Dropped(p, messages);
        messages := Compacted(p, messages);
        tokensAfter := p.tokens(messages);
      }
      var missing := Missing(markers, PromptText(messages));
      var raw, invalid := "", None;
      if cycles[cycle].answer.Some? { raw := cycles[cycle].answer.value; } else { invalid := Some(AdapterError); }
      if invalid.None? && |missing| > 0 { invalid := Some(LostEvidence); }
      var record := Record(dropped, tokensBefore, tokensAfter, missing, invalid, Scored(score, invalid, raw));
      assert record == RecordAt(p, ask, markers, score, start, cycles, cycle);
      records := records + [record];
      messages := messages + [ask];
    }
  }

  /** Every prompt is within budget, or no longer than the compactor can make it. */
  lemma PromptIsBounded(p: Params, ask: Message, start: seq<Message>, cycles: seq<Cycle>, i: nat)
    requires i < |cycles|
    ensures var prompt := Prompt(p, ask, start, cycles, i); p.tokens(prompt) <= p.budget || |prompt| <= p.keepTail + 2
  {
  }

  // ---------------------------------------------------------------- where a marker stands

  /** The marker stands at position o of s and nowhere else; at none, when o is -1. */
  ghost predicate OnlyAt(m: string, s: string, o: int) {
    (o == -1 || OccursAt(m, s, o)) && forall j :: OccursAt(m, s, j) ==> j == o
  }

  lemma CoversNewline(m: string, s: string, j: nat, c: nat)
    requires '\n' !in m && j <= c < j + |m| && c < |s| && s[c] == '\n'
    ensures !OccursAt(m, s, j)
  {
    assert m[c - j] in m;
    assert s[j + (c - j)] != m[c - j];
  }

  lemma InFront(m: string, a: string, b: string, j: nat)
    requires j + |m| <= |a|
    ensures OccursAt(m, a + b, j) <==> OccursAt(m, a, j)
  {
    assert forall k :: 0 <= k < |m| ==> ((a + b)[j + k] == m[k] <==> a[j + k] == m[k]);
  }

  lemma InBack(m: string, a: string, b: string, j: nat)
    requires j >= |a|
    ensures OccursAt(m, a + b, j) <==> OccursAt(m, b, j - |a|)
  {
    if j + |m| <= |a + b| {
      assert forall k :: 0 <= k < |m| ==> ((a + b)[j + k] == m[k] <==> b[j - |a| + k] == m[k]);
    }
  }

  ghost predicate Newlines(sep: string) {
    |sep| > 0 && forall k :: 0 <= k < |sep| ==> sep[k] == '\n'
  }

  /** Newline-free text cannot straddle a separator made of newlines. */
  lemma NoStraddle(m: string, a: string, sep: string, b: string, j: nat)
    requires |m| > 0 && '\n' !in m && Newlines(sep)
    ensures OccursAt(m, a + sep + b, j) <==> OccursAt(m, a, j) || OccursAt(m, b, j - |a| - |sep|)
  {
    var s := a + sep + b;
    if j + |m| <= |a| {
      assert s == a + (sep + b);
      InFront(m, a, sep + b, j);
    } else if |a| + |sep| <= j {
      InBack(m, a + sep, b, j);
    } else {
      CoversNewline(m, s, j, if j <= |a| then |a| else j);
    }
  }

  lemma SeparatedOnlyAt(m: string, a: string, sep: string, b: string, oa: int, ob: int)
    requires |m| > 0 && '\n' !in m && Newlines(sep)
    requires OnlyAt(m, a, oa) && OnlyAt(m, b, ob) && (oa == -1 || ob == -1)
    ensures OnlyAt(m, a + sep + b, if ob == -1 then oa else |a| + |sep| + ob)
  {
    var s := a + sep + b;
    var o := if ob == -1 then oa else |a| + |sep| + ob;
    if o >= 0 { NoStraddle(m, a, sep, b, o); }
    forall j | OccursAt(m, s, j) ensures j == o {
      NoStraddle(m, a, sep, b, j);
    }
  }

  lemma TruncatedOnlyAt(m: string, s: string, o: int, n: nat)
    requires |m| > 0 && OnlyAt(m, s, o)
    ensures OnlyAt(m, Truncated(s, n), if o >= 0 && o + |m| <= n then o else -1)
  {
    if n < |s| {
      assert s == s[..n] + s[n..];
      if o >= 0 && o + |m| <= n { InFront(m, s[..n], s[n..], o); }
      forall j | OccursAt(m, s[..n], j) ensures j == o {
        InFront(m, s[..n], s[n..], j);
      }
    }
  }

  /** The marker stands in message k, at o and nowhere else, and in no other message. */
  ghost predicate Placed(m: string, ms: seq<Message>, k: nat, o: int) {
    && (forall i :: 0 <= i < |ms| && i != k ==> OnlyAt(m, ms[i].content, -1))
    && (k < |ms| ==> OnlyAt(m, ms[k].content, o))
  }

  lemma {:induction false} JoinOnlyAt(m: string, ms: seq<Message>, k: nat, n: nat, sep: string)
    requires |m| > 0 && '\n' !in m && Newlines(sep) && k <= n <= |ms|
    requires forall i :: k <= i < n ==> OnlyAt(m, ms[i].content, -1)
    ensures OnlyAt(m, Join(ms, k, n, sep), -1)
    decreases n - k
  {
    if k + 1 < n {
      JoinOnlyAt(m, ms, k + 1, n, sep);
      SeparatedOnlyAt(m, ms[k].content, sep, Join(ms, k + 1, n, sep), -1, -1);
    }
  }

  lemma JoinFirst(m: string, ms: seq<Message>, k: nat, n: nat, sep: string, o: int)
    requires |m| > 0 && '\n' !in m && Newlines(sep) && k < n <= |ms| && Placed(m, ms, k, o)
    ensures OnlyAt(m, Join(ms, k, n, sep), o)
  {
    JoinOnlyAt(m, ms, k + 1, n, sep);
    if k + 1 < n {
      SeparatedOnlyAt(m, ms[k].content, sep, Join(ms, k + 1, n, sep), o, -1);
    }
  }

  /** What the joined text does not show, no message shows. */
  lemma {:induction false} JoinHides(m: string, ms: seq<Message>, k: nat, i: nat, sep: string)
    requires |m| > 0 && '\n' !in m && Newlines(sep) && k <= i < |ms|
    requires OnlyAt(m, Join(ms, k, |ms|, sep), -1)
    ensures OnlyAt(m, ms[i].content, -1)
    decreases |ms| - k
  {
    if k + 1 < |ms| {
      var a, b := ms[k].content, Join(ms, k + 1, |ms|, sep);
      assert OnlyAt(m, a + sep + b, -1);
      forall j | 0 <= j ensures !OccursAt(m, a, j) && !OccursAt(m, b, j) {
        NoStraddle(m, a, sep, b, j);
        NoStraddle(m, a, sep, b, j + |a| + |sep|);
      }
      if k < i { JoinHides(m, ms, k + 1, i, sep); }
    }
  }

  // ---------------------------------------------------------------- one cycle

  /** A marker as the items define them, which neither the summary's heading nor any later message repeats. */
  ghost predicate Fresh(m: string, ask: Message, cycles: seq<Cycle>) {
    && |m| > 0 && '\n' !in m
    && OnlyAt(m, PREFIX, -1) && OnlyAt(m, ask.content, -1)
    && forall i, k :: 0 <= i < |cycles| && 0 <= k < |cycles[i].turn| ==> OnlyAt(m, cycles[i].turn[k].content, -1)
  }

  /** Where a compaction moves the marker: behind the heading, if it still fits. */
  function Moved(p: Params, m: string, o: int): int {
    if o >= 0 && o + |m| <= p.summaryChars then |PREFIX| + 1 + o else -1
  }

  lemma CompactionMoves(p: Params, m: string, ms: seq<Message>, o: int)
    requires |m| > 0 && '\n' !in m && OnlyAt(m, PREFIX, -1)
    requires Placed(m, ms, 1, o) && |ms| > p.keepTail + 1
    ensures Placed(m, Compacted(p, ms), 1, Moved(p, m, o)) && |Compacted(p, ms)| == p.keepTail + 2
  {
    var n := |ms| - p.keepTail;
    var body := Join(ms, 1, n, "\n\n");
    JoinFirst(m, ms, 1, n, "\n\n", o);
    TruncatedOnlyAt(m, body, o, p.summaryChars);
    SeparatedOnlyAt(m, PREFIX, "\n", Truncated(body, p.summaryChars), -1, if o >= 0 && o + |m| <= p.summaryChars then o else -1);
  }

  lemma ExtendedPlaced(m: string, ms: seq<Message>, more: seq<Message>, o: int)
    requires Placed(m, ms, 1, o) && (|ms| >= 2 || o == -1)
    requires forall k :: 0 <= k < |more| ==> OnlyAt(m, more[k].content, -1)
    ensures Placed(m, ms + more, 1, o)
  {
  }

  /** The cycle drops messages. */
  predicate Compacts(p: Params, ms: seq<Message>, turn: seq<Message>) {
    p.tokens(ms + turn) > p.budget && |ms + turn| > p.keepTail + 1
  }

  lemma TurnMoves(p: Params, m: string, ms: seq<Message>, turn: seq<Message>, o: int)
    requires |m| > 0 && '\n' !in m && OnlyAt(m, PREFIX, -1)
    requires Placed(m, ms, 1, o) && (|ms| >= 2 || o == -1)
    requires forall k :: 0 <= k < |turn| ==> OnlyAt(m, turn[k].content, -1)
    ensures Placed(m, Turned(p, ms, turn), 1, if Compacts(p, ms, turn) then Moved(p, m, o) else o)
    ensures |ms| >= 2 ==> |Turned(p, ms, turn)| >= 2
  {
    ExtendedPlaced(m, ms, turn, o);
    if Compacts(p, ms, turn) { CompactionMoves(p, m, ms + turn, o); }
  }

  // ---------------------------------------------------------------- every run

  /** Compactions in the first i cycles. */
  function Compactions(p: Params, ask: Message, start: seq<Message>, cycles: seq<Cycle>, i: nat): nat
    requires i <= |cycles|
  {
    if i == 0 then 0
    else
      Compactions(p, ask, start, cycles, i - 1)
      + (if Compacts(p, Before(p, ask, start, cycles, i - 1), cycles[i - 1].turn) then 1 else 0)
  }

  /** Where the marker stands after c compactions. */
  function Position(p: Params, m: string, o: int, c: nat): int {
    if c == 0 then o else Moved(p, m, Position(p, m, o, c - 1))
  }

  /** Each compaction costs the marker the room that one more heading takes. */
  lemma {:induction false} PositionIs(p: Params, m: string, o: int, c: nat)
    requires o >= 0
    ensures
      Position(p, m, o, c) ==
        if c == 0 || o + (c - 1) * (|PREFIX| + 1) + |m| <= p.summaryChars then o + c * (|PREFIX| + 1) else -1
  {
    if c > 0 {
      PositionIs(p, m, o, c - 1);
    }
  }

  lemma {:induction false} PromptPlaced(p: Params, m: string, ask: Message, start: seq<Message>, cycles: seq<Cycle>, i: nat, o: int)
    requires Fresh(m, ask, cycles) && |start| >= 2 && Placed(m, start, 1, o) && i < |cycles|
    ensures |Prompt(p, ask, start, cycles, i)| >= 2
    ensures Placed(m, Prompt(p, ask, start, cycles, i), 1, Position(p, m, o, Compactions(p, ask, start, cycles, i + 1)))
  {
    var ms, c := Before(p, ask, start, cycles, i), Compactions(p, ask, start, cycles, i);
    if i > 0 {
      PromptPlaced(p, m, ask, start, cycles, i - 1, o);
      ExtendedPlaced(m, Prompt(p, ask, start, cycles, i - 1), [ask], Position(p, m, o, c));
    }
    TurnMoves(p, m, ms, cycles[i].turn, Position(p, m, o, c));
  }

  lemma PlacedShows(m: string, ms: seq<Message>, o: int)
    requires |m| > 0 && '\n' !in m && |ms| >= 2 && Placed(m, ms, 1, o)
    ensures Contains(PromptText(ms), m) <==> o >= 0
  {
    var rest := Join(ms, 1, |ms|, "\n");
    JoinFirst(m, ms, 1, |ms|, "\n", o);
    SeparatedOnlyAt(m, ms[0].content, "\n", rest, -1, o);
  }

  /** The survival law: evidence that stands once, at offset o of the first user message, is visible in a cycle
      exactly while the headings piled up in front of it leave it room inside the summary. */
  lemma SurvivalHorizon(p: Params, m: string, ask: Message, start: seq<Message>, cycles: seq<Cycle>, i: nat, o: nat)
    requires Fresh(m, ask, cycles) && |start| >= 2 && Placed(m, start, 1, o) && i < |cycles|
    ensures
      var c := Compactions(p, ask, start, cycles, i + 1);
      Contains(PromptText(Prompt(p, ask, start, cycles, i)), m)
      <==> c == 0 || o + (c - 1) * (|PREFIX| + 1) + |m| <= p.summaryChars
  {
    var c := Compactions(p, ask, start, cycles, i + 1);
    PromptPlaced(p, m, ask, start, cycles, i, o);
    PositionIs(p, m, o, c);
    PlacedShows(m, Prompt(p, ask, start, cycles, i), Position(p, m, o, c));
  }

  lemma LostIsNowhere(m: string, ms: seq<Message>)
    requires |m| > 0 && '\n' !in m && !Contains(PromptText(ms), m)
    ensures Placed(m, ms, 1, -1)
  {
    assert OnlyAt(m, PromptText(ms), -1);
    forall i | 0 <= i < |ms| ensures OnlyAt(m, ms[i].content, -1) {
      JoinHides(m, ms, 0, i, "\n");
    }
  }

  lemma NowhereIsLost(m: string, ms: seq<Message>)
    requires |m| > 0 && '\n' !in m && Placed(m, ms, 1, -1)
    ensures !Contains(PromptText(ms), m)
  {
    JoinOnlyAt(m, ms, 0, |ms|, "\n");
  }

  lemma {:induction false} NowhereStays(p: Params, m: string, ask: Message, start: seq<Message>, cycles: seq<Cycle>, i: nat, j: nat)
    requires Fresh(m, ask, cycles) && i <= j < |cycles|
    requires Placed(m, Prompt(p, ask, start, cycles, i), 1, -1)
    ensures Placed(m, Prompt(p, ask, start, cycles, j), 1, -1)
  {
    if i < j {
      NowhereStays(p, m, ask, start, cycles, i, j - 1);
      ExtendedPlaced(m, Prompt(p, ask, start, cycles, j - 1), [ask], -1);
      TurnMoves(p, m, Before(p, ask, start, cycles, j), cycles[j].turn, -1);
    }
  }

  /** Evidence that one cycle misses, every later cycle misses, and none of them is scored. */
  lemma LostStaysLost(
    p: Params, ask: Message, markers: seq<string>, score: string -> bool, start: seq<Message>, cycles: seq<Cycle>,
    m: string, i: nat, j: nat)
    requires Fresh(m, ask, cycles) && i <= j < |cycles|
    requires m in RecordAt(p, ask, markers, score, start, cycles, i).missing
    ensures
      var r := RecordAt(p, ask, markers, score, start, cycles, j);
      m in r.missing && r.invalid.Some? && r.correct.None?
  {
    LostIsNowhere(m, Prompt(p, ask, start, cycles, i));
    NowhereStays(p, m, ask, start, cycles, i, j);
    NowhereIsLost(m, Prompt(p, ask, start, cycles, j));
    var missing := RecordAt(p, ask, markers, score, start, cycles, j).missing;
    assert m in missing;
  }

  /** A cell is scored exactly when the model answered and every marker was in view, and then with the verdict on that
      answer. Otherwise the record says which of the two it was, a failed model first; it lists the markers out of view
      in any case. */
  lemma ScoredIffInView(
    p: Params, ask: Message, markers: seq<string>, score: string -> bool, start: seq<Message>, cycles: seq<Cycle>, i: nat)
    requires i < |cycles|
    ensures
      var record, text := RecordAt(p, ask, markers, score, start, cycles, i), PromptText(Prompt(p, ask, start, cycles, i));
      var inView := forall m :: m in markers ==> Contains(text, m);
      && (cycles[i].answer.Some? && inView ==> record.correct == Some(score(cycles[i].answer.value)) && record.invalid == None)
      && (cycles[i].answer.None? ==> record.correct == None && record.invalid == Some(AdapterError))
      && (cycles[i].answer.Some? && !inView ==> record.correct == None && record.invalid == Some(LostEvidence))
      && (forall m :: m in record.missing <==> m in markers && !Contains(text, m))
  {
    var missing := RecordAt(p, ask, markers, score, start, cycles, i).missing;
    assert |missing| > 0 ==> missing[0] in missing;
  }

  /** What the record says of the compaction: the estimates before and after, and how many messages went. */
  lemma RecordCounts(
    p: Params, ask: Message, markers: seq<string>, score: string -> bool, start: seq<Message>, cycles: seq<Cycle>, i: nat)
    requires i < |cycles|
    ensures
      var record := RecordAt(p, ask, markers, score, start, cycles, i);
      var before, prompt := Before(p, ask, start, cycles, i) + cycles[i].turn, Prompt(p, ask, start, cycles, i);
      && record.tokensBefore == p.tokens(before) && record.tokensAfter == p.tokens(prompt)
      && record.dropped == (if record.tokensBefore > p.budget && |before| > p.keepTail + 1 then |before| - p.keepTail - 1 else 0)
      && (record.tokensBefore <= p.budget ==> prompt == before)
  {
  }
}
