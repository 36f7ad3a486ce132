/** Interrupted and resumed suite runs. results.jsonl is opened for appending, every finished cell adds one
    line, and a resumed run skips the cells whose lines can still be read. A process may stop between any two
    characters it writes, so a file can end in a torn line that the next run's first record runs into. */
module Resume {
  import opened Sequences

  /** json.dumps, json.loads on a stripped line (None for a blank or broken line), and record["instance_id"]. */
  datatype Codec<!R> = Codec(dumps: R -> string, loads: string -> Option<R>, id: R -> string)

  /** A line as the pieces that separate writes left in it. */
  type Line = seq<string>

  /** The lines that ended in a newline, and the unfinished one after the last newline. */
  datatype File = File(lines: seq<Line>, tail: Line)

  const EMPTY := File([], [])

  function Text(l: Line): string {
    if |l| == 0 then "" else Text(l[..|l| - 1]) + l[|l| - 1]
  }

  /** A nonempty beginning of some printed record. */
  ghost predicate Piece<R(!new)>(c: Codec<R>, p: string) {
    |p| > 0 && exists r :: p <= c.dumps(r)
  }

  ghost predicate Pieces<R(!new)>(c: Codec<R>, l: Line) {
    forall k :: 0 <= k < |l| ==> Piece(c, l[k])
  }

  /** What one-line JSON objects guarantee: no newline inside, a whole record reads back as itself, none begins
      another, and a line that holds a cut record, or more than one piece, does not parse. */
  ghost predicate Framed<R(!new)>(c: Codec<R>) {
    && (forall r :: |c.dumps(r)| > 0 && '\n' !in c.dumps(r))
    && (forall r :: c.loads(c.dumps(r)) == Some(r))
    && (forall q, r :: c.dumps(q) <= c.dumps(r) ==> q == r)
    && (forall l :: Pieces(c, l) && c.loads(Text(l)).Some? ==> |l| == 1 && l[0] == c.dumps(c.loads(Text(l)).value))
    && c.loads("").None?
  }

  // ---------------------------------------------------------------- characters

  function Joined(lines: seq<Line>): string {
    if |lines| == 0 then "" else Joined(lines[..|lines| - 1]) + Text(lines[|lines| - 1]) + "\n"
  }

  /** The characters of the file. */
  function Content(f: File): string {
    Joined(f.lines) + Text(f.tail)
  }

  function Emit<R>(c: Codec<R>, f: File, r: R): File {
    File(f.lines + [f.tail + [c.dumps(r)]], [])
  }

  function Tear<R>(c: Codec<R>, f: File, r: R, n: nat): File
    requires n <= |c.dumps(r)|
  {
    if n == 0 then f else File(f.lines, f.tail + [c.dumps(r)[..n]])
  }

  lemma TextGrows(l: Line, p: string)
    ensures Text(l + [p]) == Text(l) + p
  {
    assert (l + [p])[..|l|] == l;
  }

  /** Writing a record, whole or cut short, appends exactly those characters to the file. */
  lemma WritesAppend<R>(c: Codec<R>, f: File, r: R, n: nat)
    requires n <= |c.dumps(r)|
    ensures Content(Emit(c, f, r)) == Content(f) + c.dumps(r) + "\n"
    ensures Content(Tear(c, f, r, n)) == Content(f) + c.dumps(r)[..n]
  {
    TextGrows(f.tail, c.dumps(r));
    TextGrows(f.tail, c.dumps(r)[..n]);
    var g := Emit(c, f, r);
    assert g.lines[..|f.lines|] == f.lines;
    assert Content(g) == Joined(f.lines) + (Text(f.tail) + c.dumps(r)) + "\n" + "";
  }

  /** The file's lines as `for line in handle` yields them (with a last, possibly empty, unfinished one). */
  function Split(s: string, part: string): seq<string> {
    if |s| == 0 then [part]
    else if s[0] == '\n' then [part] + Split(s[1..], "")
    else Split(s[1..], part + [s[0]])
  }

  lemma {:induction false} SplitLine(l: string, rest: string, part: string)
    requires '\n' !in l
    ensures Split(l + "\n" + rest, part) == [part + l] + Split(rest, "")
    ensures Split(l, part) == [part + l]
  {
    var s := l + "\n" + rest;
    if |l| == 0 {
      assert s[1..] == rest && part + l == part;
    } else {
      SplitLine(l[1..], rest, part + [l[0]]);
      assert s[1..] == l[1..] + "\n" + rest;
      assert part + [l[0]] + l[1..] == part + l;
    }
  }

  function Texts(lines: seq<Line>): seq<string> {
    seq(|lines|, i requires 0 <= i < |lines| => Text(lines[i]))
  }

  lemma {:induction false} SplitJoined(lines: seq<Line>, rest: string)
    requires forall k :: 0 <= k < |lines| ==> '\n' !in Text(lines[k])
    ensures Split(Joined(lines) + rest, "") == Texts(lines) + Split(rest, "")
  {
    if |lines| == 0 {
      assert Joined(lines) + rest == rest && Texts(lines) + Split(rest, "") == Split(rest, "");
    } else {
      var front, l := lines[..|lines| - 1], lines[|lines| - 1];
      SplitJoined(front, Text(l) + "\n" + rest);
      assert Joined(lines) + rest == Joined(front) + (Text(l) + "\n" + rest);
      SplitLine(Text(l), rest, "");
      assert "" + Text(l) == Text(l);
      assert Texts(lines) == Texts(front) + [Text(l)];
    }
  }

  /** Splitting the file's characters at newlines gives back its lines. */
  lemma SplitContent(f: File)
    requires forall k :: 0 <= k < |f.lines| ==> '\n' !in Text(f.lines[k])
    requires '\n' !in Text(f.tail)
    ensures Split(Content(f), "") == Texts(f.lines) + [Text(f.tail)]
  {
    SplitJoined(f.lines, Text(f.tail));
    SplitLine(Text(f.tail), "", "");
    assert "" + Text(f.tail) == Text(f.tail);
  }

  // ---------------------------------------------------------------- reading

  function ReadLine<R>(c: Codec<R>, line: string): seq<R> {
    match c.loads(line)
    case Some(r) => [r]
    case None => []
  }

  function ReadLines<R>(c: Codec<R>, lines: seq<string>): seq<R> {
    if |lines| == 0 then [] else ReadLines(c, lines[..|lines| - 1]) + ReadLine(c, lines[|lines| - 1])
  }

  method ReadJsonl<R>(c: Codec<R>, content: string) returns (records: seq<R>)
    ensures records == ReadLines(c, Split(content, ""))
  {
    records := [];
    var lines := Split(content, "");
    for i := 0 to |lines|
      invariant records == ReadLines(c, lines[..i])
    {
      assert lines[..i + 1][..i] == lines[..i];
      var line := c.loads(lines[i]);
      if line.Some? {
        records := records + [line.value];
      }
    }
    assert lines[..|lines|] == lines;
  }

  /** The records on the file's finished lines. */
  function Settled<R>(c: Codec<R>, f: File): seq<R> {
    ReadLines(c, Texts(f.lines))
  }

  /** The records that can be read from the file. */
  function Readable<R>(c: Codec<R>, f: File): seq<R> {
    Settled(c, f) + ReadLine(c, Text(f.tail))
  }

  function Ids<R>(c: Codec<R>, records: seq<R>): seq<string> {
    seq(|records|, i requires 0 <= i < |records| => c.id(records[i]))
  }

  // ---------------------------------------------------------------- runs

  /** One run of the process: the records its workers finish, in completion order, the number it gets to write
      in full, and the characters of the next one that reach the file. */
  datatype Run<R> = Run(records: seq<R>, whole: nat, cut: nat)

  predicate Completed<R>(run: Run<R>) {
    run.whole == |run.records|
  }

  function EmitAll<R>(c: Codec<R>, f: File, records: seq<R>): File {
    if |records| == 0 then f else Emit(c, EmitAll(c, f, records[..|records| - 1]), records[|records| - 1])
  }

  function After<R>(c: Codec<R>, f: File, run: Run<R>): File
    requires run.whole <= |run.records| && (run.whole < |run.records| ==> run.cut <= |c.dumps(run.records[run.whole])|)
  {
    var g := EmitAll(c, f, run.records[..run.whole]);
    if run.whole < |run.records| then Tear(c, g, run.records[run.whole], run.cut) else g
  }

  function Pending(planned: seq<string>, done: seq<string>): seq<string> {
    if |planned| == 0 then []
    else
      var last := planned[|planned| - 1];
      Pending(planned[..|planned| - 1], done) + (if last in done then [] else [last])
  }

  /** The run computes the planned cells that it could not read back when it started, in any completion order. */
  ghost predicate Legal<R>(c: Codec<R>, planned: seq<string>, f: File, run: Run<R>) {
    && run.whole <= |run.records|
    && (run.whole < |run.records| ==> run.cut <= |c.dumps(run.records[run.whole])|)
    && multiset(Ids(c, run.records)) == multiset(Pending(planned, Ids(c, Readable(c, f))))
  }

  /** The file after a history of runs, most of which may have been cut short, from an empty directory. */
  ghost predicate History<R>(c: Codec<R>, planned: seq<string>, runs: seq<Run<R>>, f: File)
    decreases |runs|
  {
    if |runs| == 0 then f == EMPTY
    else
      var run := runs[|runs| - 1];
      exists before ::
        && History(c, planned, runs[..|runs| - 1], before)
        && Legal(c, planned, before, run) && f == After(c, before, run)
  }

  // ---------------------------------------------------------------- one write

  ghost predicate WellFormed<R(!new)>(c: Codec<R>, f: File) {
    && (forall k :: 0 <= k < |f.lines| ==> Pieces(c, f.lines[k]))
    && Pieces(c, f.tail)
  }

  lemma EmptyReads<R(!new)>(c: Codec<R>)
    requires Framed(c)
    ensures WellFormed(c, EMPTY) && Readable(c, EMPTY) == []
  {
    assert Texts(EMPTY.lines) == [];
  }

  /** A record written at the start of a line is read back; one written after a torn line is lost, and takes
      with it the torn line's own record, if that lacked only its newline. */
  lemma EmitReads<R(!new)>(c: Codec<R>, f: File, r: R)
    requires Framed(c) && WellFormed(c, f)
    ensures WellFormed(c, Emit(c, f, r))
    ensures Emit(c, f, r).tail == []
    ensures Readable(c, Emit(c, f, r)) == Settled(c, Emit(c, f, r))
    ensures Settled(c, Emit(c, f, r)) == Settled(c, f) + (if f.tail == [] then [r] else [])
  {
    assert Pieces(c, f.tail);
    hide *;
    var g := Emit(c, f, r);
    MergedLine(c, f.tail, r);
    EmitLines(c, f, r);
    BlankTail(c);
    assert Settled(c, f) + [] == Settled(c, f);
    assert Settled(c, g) + [] == Settled(c, g);
  }

  lemma EmitLines<R(!new)>(c: Codec<R>, f: File, r: R)
    ensures
      var g := Emit(c, f, r);
      && g.tail == [] && Settled(c, g) == Settled(c, f) + ReadLine(c, Text(f.tail + [c.dumps(r)]))
      && Readable(c, g) == Settled(c, g) + ReadLine(c, Text([]))
      && (WellFormed(c, f) && Pieces(c, f.tail + [c.dumps(r)]) ==> WellFormed(c, g))
  {
    var g, l := Emit(c, f, r), f.tail + [c.dumps(r)];
    assert Texts(g.lines) == Texts(f.lines) + [Text(l)];
    assert Texts(g.lines)[..|f.lines|] == Texts(f.lines);
  }

  lemma BlankTail<R(!new)>(c: Codec<R>)
    requires Framed(c)
    ensures ReadLine(c, Text([])) == []
  {
  }

  lemma MergedLine<R(!new)>(c: Codec<R>, tail: Line, r: R)
    requires Framed(c) && Pieces(c, tail)
    ensures Pieces(c, tail + [c.dumps(r)])
    ensures ReadLine(c, Text(tail + [c.dumps(r)])) == if tail == [] then [r] else []
  {
    var l := tail + [c.dumps(r)];
    assert Piece(c, c.dumps(r));
    TextGrows(tail, c.dumps(r));
    if tail == [] { assert Text(l) == c.dumps(r); }
  }

  /** A cut record is not read; the tail may have been readable before, and only then does that change. */
  lemma TearReads<R(!new)>(c: Codec<R>, f: File, r: R, n: nat)
    requires Framed(c) && WellFormed(c, f) && n <= |c.dumps(r)|
    ensures WellFormed(c, Tear(c, f, r, n))
    ensures
      var g := Readable(c, Tear(c, f, r, n));
      || g == Settled(c, f)
      || (n == 0 && g == Readable(c, f))
      || (g == Settled(c, f) + [r] && f.tail == [])
  {
    hide Framed, Settled, Pieces;
    if n > 0 {
      TornLine(c, f.tail, r, n);
      assert Settled(c, Tear(c, f, r, n)) == Settled(c, f) by { SettledSame(c, f, Tear(c, f, r, n)); }
      assert Settled(c, f) + [] == Settled(c, f);
    }
  }

  lemma SettledSame<R>(c: Codec<R>, f: File, g: File)
    requires f.lines == g.lines
    ensures Settled(c, f) == Settled(c, g)
  {
  }

  lemma TornLine<R(!new)>(c: Codec<R>, tail: Line, r: R, n: nat)
    requires Framed(c) && Pieces(c, tail) && 0 < n <= |c.dumps(r)|
    ensures
      var l := tail + [c.dumps(r)[..n]];
      Pieces(c, l) && (ReadLine(c, Text(l)) == [] || (ReadLine(c, Text(l)) == [r] && tail == []))
  {
    var p := c.dumps(r)[..n];
    var l := tail + [p];
    assert Piece(c, p);
    if c.loads(Text(l)).Some? {
      var q := c.loads(Text(l)).value;
      assert |l| == 1 && p == c.dumps(q);
      assert c.dumps(q) <= c.dumps(r);
    }
  }

  // ---------------------------------------------------------------- one run

  lemma EmitAllUnfolds<R>(c: Codec<R>, f: File, records: seq<R>)
    requires |records| > 0
    ensures EmitAll(c, f, records) == Emit(c, EmitAll(c, f, records[..|records| - 1]), records[|records| - 1])
    ensures EmitAll(c, f, []) == f
  {
  }

  lemma AfterUnfolds<R>(c: Codec<R>, f: File, run: Run<R>)
    requires run.whole <= |run.records| && (run.whole < |run.records| ==> run.cut <= |c.dumps(run.records[run.whole])|)
    ensures
      var g := EmitAll(c, f, run.records[..run.whole]);
      && After(c, f, run) == (if run.whole < |run.records| then Tear(c, g, run.records[run.whole], run.cut) else g)
      && (run.whole == 0 ==> g == f)
    ensures run.whole == 0 < |run.records| && run.cut == 0 ==> After(c, f, run) == f
  {
  }

  /** Only the first record a run writes can run into a torn line. */
  lemma {:induction false} EmitAllReads<R(!new)>(c: Codec<R>, f: File, records: seq<R>)
    requires Framed(c) && WellFormed(c, f) && |records| > 0
    ensures
      var g := EmitAll(c, f, records);
      && WellFormed(c, g) && g.tail == []
      && Readable(c, g) == Settled(c, g) == Settled(c, f) + (if f.tail == [] then records else records[1..])
  {
    hide *;
    var front, last := records[..|records| - 1], records[|records| - 1];
    var g := EmitAll(c, f, front);
    EmitAllUnfolds(c, f, records);
    if |front| > 0 {
      EmitAllReads(c, f, front);
      assert front + [last] == records && front[1..] + [last] == records[1..];
      EmitReads(c, g, last);
      if f.tail == [] { assert Settled(c, f) + front + [last] == Settled(c, f) + records; }
      else { assert Settled(c, f) + front[1..] + [last] == Settled(c, f) + records[1..]; }
    } else {
      EmitReads(c, g, last);
      assert records == [last] && records[1..] == [];
    }
  }

  /** What a run leaves readable: either everything as before, or the finished lines and a stretch of the
      run's own records. */
  lemma RunReads<R(!new)>(c: Codec<R>, f: File, run: Run<R>) returns (m: nat, n: nat)
    requires Framed(c) && WellFormed(c, f)
    requires run.whole <= |run.records| && (run.whole < |run.records| ==> run.cut <= |c.dumps(run.records[run.whole])|)
    ensures m <= n <= |run.records|
    ensures
      var g := After(c, f, run);
      WellFormed(c, g) && (Readable(c, g) == Settled(c, f) + run.records[m..n] || g == f)
  {
    hide *;
    AfterUnfolds(c, f, run);
    var written := run.records[..run.whole];
    var g, h := EmitAll(c, f, written), After(c, f, run);
    var cut := run.whole < |run.records|;
    if |written| == 0 && cut && run.cut > 0 {
      m, n := FirstIsCut(c, f, run.records, run.cut);
    } else if |written| == 0 {
      m, n := 0, 0;
    } else {
      m, n := (if f.tail == [] then 0 else 1), run.whole;
      EmitAllReads(c, f, written);
      assert written[m..] == run.records[m..n];
      if cut {
        TearReads(c, g, run.records[n], run.cut);
        assert run.records[m..n] + [run.records[n]] == run.records[m..n + 1];
        if Readable(c, h) == Settled(c, g) + [run.records[n]] {
          assert Readable(c, h) == Settled(c, f) + run.records[m..n + 1];
          n := n + 1;
        }
      }
    }
  }

  lemma FirstIsCut<R(!new)>(c: Codec<R>, f: File, records: seq<R>, n: nat) returns (l: nat, r: nat)
    requires Framed(c) && WellFormed(c, f) && |records| > 0 && 0 < n <= |c.dumps(records[0])|
    ensures l <= r <= |records|
    ensures
      var g := Tear(c, f, records[0], n);
      WellFormed(c, g) && Readable(c, g) == Settled(c, f) + records[l..r]
  {
    hide *;
    TearReads(c, f, records[0], n);
    var g := Tear(c, f, records[0], n);
    l, r := 0, if Readable(c, g) == Settled(c, f) then 0 else 1;
    assert records[0..1] == [records[0]] && Settled(c, f) + records[0..0] == Settled(c, f);
  }

  lemma LegalIsDisjoint<R>(c: Codec<R>, planned: seq<string>, f: File, run: Run<R>)
    requires Distinct(planned) && Legal(c, planned, f, run)
    ensures Distinct(Ids(c, run.records))
    ensures forall x :: x in Ids(c, run.records) <==> x in planned && x !in Ids(c, Readable(c, f))
  {
    var done := Ids(c, Readable(c, f));
    PendingMeaning(planned, done);
    DistinctPermuted(Pending(planned, done), Ids(c, run.records));
    forall x ensures x in Ids(c, run.records) <==> x in Pending(planned, done) {
      assert x in multiset(Ids(c, run.records)) <==> x in multiset(Pending(planned, done));
    }
  }

  lemma {:induction false} PendingMeaning(planned: seq<string>, done: seq<string>)
    requires Distinct(planned)
    ensures Distinct(Pending(planned, done))
    ensures forall x :: x in Pending(planned, done) <==> x in planned && x !in done
  {
    if |planned| > 0 {
      var front, last := planned[..|planned| - 1], planned[|planned| - 1];
      PendingMeaning(front, done);
      assert planned == front + [last];
    }
  }

  /** Each planned cell once, and nothing else. */
  ghost predicate Exact(planned: seq<string>, ids: seq<string>) {
    Distinct(ids) && forall x :: x in ids <==> x in planned
  }

  ghost predicate NoneTwice(planned: seq<string>, ids: seq<string>) {
    Distinct(ids) && forall x :: x in ids ==> x in planned
  }

  lemma JoinedIds<R>(c: Codec<R>, a: seq<R>, b: seq<R>)
    requires Distinct(Ids(c, a)) && Distinct(Ids(c, b))
    requires forall x :: x in Ids(c, a) ==> x !in Ids(c, b)
    ensures Distinct(Ids(c, a + b))
    ensures forall x :: x in Ids(c, a + b) <==> x in Ids(c, a) || x in Ids(c, b)
  {
    var ia, ib := Ids(c, a), Ids(c, b);
    assert Ids(c, a + b) == ia + ib;
    forall i, j | 0 <= i < j < |ia + ib| ensures (ia + ib)[i] != (ia + ib)[j] {
      if i < |ia| <= j {
        assert ia[i] in ia && ib[j - |ia|] in ib;
      }
    }
  }

  lemma StretchIds<R>(c: Codec<R>, a: seq<R>, m: nat, n: nat)
    requires m <= n <= |a| && Distinct(Ids(c, a))
    ensures Distinct(Ids(c, a[m..n])) && forall x :: x in Ids(c, a[m..n]) ==> x in Ids(c, a)
  {
    assert Ids(c, a[m..n]) == Ids(c, a)[m..n];
  }

  lemma SettledIds<R>(c: Codec<R>, f: File)
    requires Distinct(Ids(c, Readable(c, f)))
    ensures Distinct(Ids(c, Settled(c, f)))
    ensures forall x :: x in Ids(c, Settled(c, f)) ==> x in Ids(c, Readable(c, f))
  {
    assert Settled(c, f) == Readable(c, f)[0..|Settled(c, f)|];
    StretchIds(c, Readable(c, f), 0, |Settled(c, f)|);
  }

  lemma RunKeepsOnce<R(!new)>(c: Codec<R>, planned: seq<string>, f: File, run: Run<R>)
    requires Framed(c) && WellFormed(c, f) && Distinct(planned)
    requires NoneTwice(planned, Ids(c, Readable(c, f))) && Legal(c, planned, f, run)
    ensures WellFormed(c, After(c, f, run))
    ensures NoneTwice(planned, Ids(c, Readable(c, After(c, f, run))))
  {
    LegalIsDisjoint(c, planned, f, run);
    var m, n := RunReads(c, f, run);
    SettledIds(c, f);
    StretchIds(c, run.records, m, n);
    JoinedIds(c, Settled(c, f), run.records[m..n]);
  }

  // ---------------------------------------------------------------- every history

  /** However often runs are cut short, and wherever, no cell can ever be read back twice. */
  lemma {:induction false} NoCellTwice<R(!new)>(c: Codec<R>, planned: seq<string>, runs: seq<Run<R>>, f: File)
    requires Framed(c) && Distinct(planned) && History(c, planned, runs, f)
    ensures WellFormed(c, f) && NoneTwice(planned, Ids(c, Readable(c, f)))
    decreases |runs|
  {
    if |runs| == 0 {
      EmptyReads(c);
    } else {
      var run := runs[|runs| - 1];
      var before :|
        && History(c, planned, runs[..|runs| - 1], before)
        && Legal(c, planned, before, run) && f == After(c, before, run);
      NoCellTwice(c, planned, runs[..|runs| - 1], before);
      RunKeepsOnce(c, planned, before, run);
    }
  }

  /** After any history, a run that completes leaves every planned cell readable exactly once if and only if
      the file it opened ended in a newline (or was empty), or nothing was left to run. */
  lemma CompletionIsExact<R(!new)>(c: Codec<R>, planned: seq<string>, runs: seq<Run<R>>, f: File, run: Run<R>)
    requires Framed(c) && Distinct(planned) && History(c, planned, runs, f)
    requires Legal(c, planned, f, run) && Completed(run)
    ensures Exact(planned, Ids(c, Readable(c, After(c, f, run)))) <==> f.tail == [] || run.records == []
  {
    NoCellTwice(c, planned, runs, f);
    LegalIsDisjoint(c, planned, f, run);
    CompletedReads(c, f, run);
    var records := run.records;
    SettledIds(c, f);
    assert |records| > 0 ==> Ids(c, records)[0] in Ids(c, records);
    hide Readable, Settled, After, Framed, WellFormed, Legal, History, Ids, Distinct;
    if |records| > 0 {
      if f.tail == [] {
        JoinedIds(c, Settled(c, f), records);
      } else {
        FirstIsLost(c, f, records);
      }
    }
  }

  /** What a completed run leaves readable. */
  lemma CompletedReads<R(!new)>(c: Codec<R>, f: File, run: Run<R>)
    requires Framed(c) && WellFormed(c, f) && Completed(run)
    ensures run.records == [] ==> After(c, f, run) == f
    ensures run.records != [] ==> After(c, f, run).tail == []
    ensures f.tail == [] ==> Settled(c, f) == Readable(c, f)
    ensures
      run.records != [] ==>
        Readable(c, After(c, f, run)) == Settled(c, f) + (if f.tail == [] then run.records else run.records[1..])
  {
    assert run.records[..|run.records|] == run.records;
    assert ReadLine(c, Text([])) == [];
    if |run.records| > 0 { EmitAllReads(c, f, run.records); }
  }

  lemma FirstIsLost<R>(c: Codec<R>, f: File, records: seq<R>)
    requires |records| > 0 && Distinct(Ids(c, records))
    requires forall x :: x in Ids(c, records) ==> x !in Ids(c, Settled(c, f))
    ensures c.id(records[0]) in Ids(c, records)
    ensures c.id(records[0]) !in Ids(c, Settled(c, f) + records[1..])
  {
    var ids := Ids(c, records);
    assert ids[0] == c.id(records[0]);
    assert Ids(c, Settled(c, f) + records[1..]) == Ids(c, Settled(c, f)) + ids[1..];
  }

  /** Resuming once more always repairs the loss: two completed runs in a row leave every cell exactly once. */
  lemma TwoCompletionsSuffice<R(!new)>(c: Codec<R>, planned: seq<string>, runs: seq<Run<R>>, f: File, first: Run<R>, second: Run<R>)
    requires Framed(c) && Distinct(planned) && History(c, planned, runs, f)
    requires Legal(c, planned, f, first) && Completed(first)
    requires Legal(c, planned, After(c, f, first), second) && Completed(second)
    ensures Exact(planned, Ids(c, Readable(c, After(c, After(c, f, first), second))))
  {
    hide History, Readable, Framed, Settled, WellFormed, Distinct, After, Ids, Exact, NoneTwice, EmitAll;
    var g := After(c, f, first);
    NoCellTwice(c, planned, runs, f);
    HistoryGrows(c, planned, runs, f, first);
    CompletedReads(c, f, first);
    if |first.records| == 0 {
      LegalIsDisjoint(c, planned, f, first);
      LegalIsDisjoint(c, planned, f, second);
      SameIdsBothEmpty(c, first.records, second.records);
    }
    CompletionIsExact(c, planned, runs + [first], g, second);
  }

  lemma HistoryGrows<R>(c: Codec<R>, planned: seq<string>, runs: seq<Run<R>>, f: File, run: Run<R>)
    requires History(c, planned, runs, f) && Legal(c, planned, f, run)
    ensures History(c, planned, runs + [run], After(c, f, run))
  {
    var all := runs + [run];
    assert all[..|all| - 1] == runs && all[|all| - 1] == run;
    assert History(c, planned, all[..|all| - 1], f);
  }

  lemma FirstId<R>(c: Codec<R>, records: seq<R>)
    ensures |records| > 0 ==> c.id(records[0]) in Ids(c, records)
  {
    if |records| > 0 { assert Ids(c, records)[0] == c.id(records[0]); }
  }

  lemma SameIdsBothEmpty<R>(c: Codec<R>, a: seq<R>, b: seq<R>)
    requires |a| == 0 && forall x :: x in Ids(c, a) <==> x in Ids(c, b)
    ensures |b| == 0
  {
    FirstId(c, b);
  }

  // ---------------------------------------------------------------- a torn line

  /** A file that holds one record cut short holds nothing that can be read. */
  lemma CutIsUnreadable<R(!new)>(c: Codec<R>, r: R, n: nat)
    requires Framed(c) && 0 < n < |c.dumps(r)|
    ensures Readable(c, File([], [c.dumps(r)[..n]])) == []
  {
    var p := c.dumps(r)[..n];
    var l := [p];
    assert Piece(c, p) && Pieces(c, l);
    TextGrows([], p);
    assert [] + [p] == l && Text(l) == p;
    assert Texts([]) == [];
    if c.loads(p).Some? {
      WholeOnly(c, c.loads(p).value, r, n);
    }
  }

  lemma WholeOnly<R(!new)>(c: Codec<R>, q: R, r: R, n: nat)
    requires Framed(c) && n <= |c.dumps(r)| && c.dumps(q) == c.dumps(r)[..n]
    ensures n == |c.dumps(r)|
  {
    assert c.dumps(q) <= c.dumps(r);
  }

  /** Wherever inside its only record a first run stops, the run that resumes and completes loses the cell. */
  lemma TornLineLosesCell<R(!new)>(c: Codec<R>, r: R, n: nat) returns (torn: File)
    requires Framed(c) && 0 < n < |c.dumps(r)|
    ensures History(c, [c.id(r)], [Run([r], 0, n)], torn)
    ensures Legal(c, [c.id(r)], torn, Run([r], 1, 0)) && Completed(Run([r], 1, 0))
    ensures !Exact([c.id(r)], Ids(c, Readable(c, After(c, torn, Run([r], 1, 0)))))
  {
    hide Framed, Readable, Exact, Settled, WellFormed;
    torn := File([], [c.dumps(r)[..n]]);
    var planned, first, second := [c.id(r)], Run([r], 0, n), Run([r], 1, 0);
    EmptyReads(c);
    CutIsUnreadable(c, r, n);
    OnlyPending(c, r);
    FirstTear(c, r, n);
    assert Legal(c, planned, EMPTY, first) && Legal(c, planned, torn, second);
    assert History(c, planned, [], EMPTY);
    HistoryGrows(c, planned, [], EMPTY, first);
    assert [] + [first] == [first];
    CompletionIsExact(c, planned, [first], torn, second);
  }

  lemma FirstTear<R>(c: Codec<R>, r: R, n: nat)
    requires 0 < n <= |c.dumps(r)|
    ensures After(c, EMPTY, Run([r], 0, n)) == File([], [c.dumps(r)[..n]])
  {
    assert [r][..0] == [];
    assert [] + [c.dumps(r)[..n]] == [c.dumps(r)[..n]];
  }

  lemma OnlyPending<R>(c: Codec<R>, r: R)
    ensures Ids(c, [r]) == [c.id(r)] && Ids(c, []) == []
    ensures Pending([c.id(r)], []) == [c.id(r)]
  {
    assert [c.id(r)][..0] == [];
    assert Pending([], []) == [];
  }

  /** What is asked of the encoding can be met, by records of two cells. */
  const DIGITS := Codec(
    (r: bool) => if r then "{1}" else "{0}",
    (s: string) => if s == "{1}" then Some(true) else if s == "{0}" then Some(false) else None,
    (r: bool) => if r then "one" else "zero")

  lemma DigitsAreFramed()
    ensures Framed(DIGITS)
    ensures DIGITS.id(true) != DIGITS.id(false)
  {
    assert DIGITS.id(true)[0] != DIGITS.id(false)[0];
    forall q, r | DIGITS.dumps(q) <= DIGITS.dumps(r) ensures q == r {
      assert DIGITS.dumps(q)[1] == DIGITS.dumps(r)[1];
    }
    forall l | Pieces(DIGITS, l) && DIGITS.loads(Text(l)).Some? ensures |l| == 1 && l[0] == DIGITS.dumps(DIGITS.loads(Text(l)).value) {
      DigitsStart(l, DIGITS.loads(Text(l)).value);
    }
  }

  lemma DigitsStart(l: Line, r: bool)
    requires Pieces(DIGITS, l) && Text(l) == DIGITS.dumps(r)
    ensures |l| == 1 && l[0] == DIGITS.dumps(r)
  {
    var front, last := l[..|l| - 1], l[|l| - 1];
    assert Piece(DIGITS, last) && last[0] == '{';
    assert Text(l) == Text(front) + last;
    assert Text(l)[|Text(front)|] == '{';
    PiecesShow(DIGITS, front);
  }

  lemma PiecesShow<R(!new)>(c: Codec<R>, l: Line)
    requires Pieces(c, l)
    ensures |l| > 0 ==> |Text(l)| > 0
  {
    if |l| > 0 { assert Piece(c, l[|l| - 1]); }
  }
}
