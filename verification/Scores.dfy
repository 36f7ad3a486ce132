/** The score document itself: how the evaluator builds it, and how the validator checks it against the run, the
    questions and the evaluator. */
module Scores {
  import opened Sequences
  import opened Evidence

  type Bytes = seq<int>

  datatype Question = Question(
    qid: string, family: Json, questionProtocol: Json, evalProtocol: Json, evalType: Option<Json>, envId: Json,
    category: Json, visible: Json, rest: string)

  /** What scoring an answer can come to. */
  datatype Judgement = Score(score: real) | Failed | Unhandled

  /** Hashes, parsing, the evaluator's identity, the judges, and the text tests; `unknown` is that
      of the boxed answer. Both sides use the same ones. */
  datatype Tools = Tools(
    sha: Bytes -> string, rows: Bytes -> Option<seq<Record>>, questionHash: Question -> string,
    recordHash: Record -> string, setHash: seq<Question> -> string, identity: int -> string,
    questionProtocol: string -> string, scoringProtocol: string -> string, nativeFailure: Record -> string,
    blank: string -> bool, sameDigest: (string, string) -> bool, judge: (Question, Record) -> Judgement,
    unknown: string -> bool)

  datatype Input = Input(
    raw: Bytes, variant: Option<string>, dedup: Dedup, family: string, files: seq<(string, string)>, questions: seq<Question>)

  datatype Flag = MissingRecord | DriverError | EmptyAnswer | EvalError | UnknownType

  datatype Row = Row(
    qid: string, envId: Json, category: Json, evalType: Json, score: real, flag: Option<Flag>, questionSha: string,
    recordSha: Option<string>, protocol: Json, nativeFailure: Option<string>)

  datatype Meta = Meta(runId: Json, variant: Json, benchmark: Json)

  datatype Binding = Binding(variant: Json, sha: string)

  datatype Provenance = Provenance(
    questionSet: string, files: seq<(string, string)>, budget: int, identity: string, effective: Json,
    variant: Option<string>, dedup: Dedup, qids: seq<string>, bindings: map<string, Option<Binding>>)

  /** `meta` is None for the empty object that stands when no record was selected. */
  datatype Document = Document(family: string, runSha: string, meta: Option<Meta>, provenance: Provenance, rows: seq<Row>)

  const BINDING_SOURCE := "caller_declared_scoring_question"

  // ---------------------------------------------------------------- shared checks

  predicate ProtocolOk(t: Tools, q: Question, family: string) {
    && q.family == Text(family)
    && q.questionProtocol == Text(t.questionProtocol(family))
    && q.evalProtocol == Text(t.scoringProtocol(family))
  }

  predicate Filled(t: Tools, v: Json) { v.Text? && !t.blank(v.text) }

  predicate Declared(t: Tools, v: Json, expected: Json) { Filled(t, v) && |v.text| <= 256 && v == expected }

  /** validate_driver_question: the record was made for this question. */
  predicate DriverQuestionOk(t: Tools, found: Option<Record>, q: Question, family: string) {
    found.None? ||
    (var r := found.value;
     && Filled(t, r.runId) && Filled(t, Get(r.benchmark)) && Filled(t, r.variant) && Filled(t, r.envId)
     && ProtocolOk(t, q, family) && Filled(t, q.visible) && q.qid != "" && q.envId.Text? && q.envId.text != ""
     && r.benchmark == Some(Text(family)) && r.envId == q.envId
     && Declared(t, r.questionProtocol, q.questionProtocol) && Declared(t, r.scoringProtocol, q.evalProtocol)
     && r.questionSha.Text? && t.sameDigest(r.questionSha.text, t.questionHash(q))
     && r.bindingSource == Text(BINDING_SOURCE) && r.qid == Text(q.qid) && r.question == q.visible)
  }

  function Find(s: Selection, qid: string): Option<Record> {
    if qid in s.table then Some(s.table[qid]) else None
  }

  /** The first entry of the dictionary, which is sampled for the run's metadata. */
  function Sample(s: Selection): Option<Record> {
    if |s.order| == 0 then None else Find(s, s.order[0])
  }

  function MetaOf(s: Selection, family: string): Option<Meta> {
    if Sample(s).None? then None
    else
      var r := Sample(s).value;
      Some(Meta(r.runId, r.variant, if r.benchmark.Some? then r.benchmark.value else Text(family)))
  }

  /** effective_variant: None when the records disagree with each other or with the request. */
  function EffectiveVariant(s: Selection, variant: Option<string>): Option<Json> {
    var requested := if variant.Some? then Text(variant.value) else Null;
    if exists a, b :: a in s.table && b in s.table && s.table[a].variant != s.table[b].variant then None
    else
      var value := if Sample(s).Some? then Sample(s).value.variant else requested;
      if variant.Some? && value != requested then None else Some(value)
  }

  function Bindings(t: Tools, s: Selection, qids: seq<string>): map<string, Option<Binding>> {
    map id | id in qids :: if id in s.table then Some(Binding(s.table[id].variant, t.recordHash(s.table[id]))) else None
  }

  function ById(): (Question, Question) -> bool {
    (a: Question, b: Question) => LexLe(CodePoints(a.qid), CodePoints(b.qid))
  }

  function QuestionSet(t: Tools, questions: seq<Question>): string {
    t.setHash(SortBy(questions, ById()))
  }

  predicate Empty(t: Tools, r: Record) {
    !r.answer.Text? || t.blank(r.answer.text)
  }

  // ---------------------------------------------------------------- the evaluator

  /** One benchmark counts the answer UNKNOWN as wrong, whatever the judge says. */
  predicate ForcedZero(t: Tools, q: Question, r: Record) {
    q.family == Text("lme_v2") && r.answer.Text? && t.unknown(r.answer.text)
  }

  function Scored(t: Tools, q: Question, found: Option<Record>): (real, Option<Flag>) {
    if found.None? then (0.0, Some(MissingRecord))
    else if found.value.error then (0.0, Some(DriverError))
    else if Empty(t, found.value) then (0.0, Some(EmptyAnswer))
    else
      match t.judge(q, found.value)
      case Score(x) => (if ForcedZero(t, q, found.value) then 0.0 else x, None)
      case Failed => (0.0, Some(EvalError))
      case Unhandled => (0.0, Some(UnknownType))
  }

  /** evaluate_question; a question without a type is given the empty one. */
  function Work(t: Tools, q: Question, found: Option<Record>): Row {
    var result := Scored(t, q, found);
    Row(
      q.qid, q.envId, q.category, if q.evalType.Some? then q.evalType.value else Text(""), result.0, result.1,
      t.questionHash(q), if found.Some? then Some(t.recordHash(found.value)) else None, q.evalProtocol,
      if found.Some? then Some(t.nativeFailure(found.value)) else None)
  }

  function WorkAll(t: Tools, s: Selection, questions: seq<Question>): seq<Row> {
    seq(|questions|, i requires 0 <= i < |questions| => Work(t, questions[i], Find(s, questions[i].qid)))
  }

  function Ids(questions: seq<Question>): seq<string> {
    seq(|questions|, i requires 0 <= i < |questions| => questions[i].qid)
  }

  function RunRecords(t: Tools, inp: Input): Option<Selection> {
    if t.rows(inp.raw).None? then None else Selected(t.rows(inp.raw).value, inp.variant, inp.dedup)
  }

  /** The questions scored: the first `limit` of them, or all for a limit of 0. */
  function Evaluated(inp: Input, limit: nat): seq<Question> {
    if 0 < limit < |inp.questions| then inp.questions[..limit] else inp.questions
  }

  /** The run with the first `limit` questions; None where it stops with an error. */
  function Produce(t: Tools, inp: Input, limit: nat, budget: int): Option<Document> {
    var questions := Evaluated(inp, limit);
    var records := RunRecords(t, inp);
    if (exists q :: q in inp.questions && !ProtocolOk(t, q, inp.family)) || records.None? || budget < 1 then None
    else if exists q :: q in questions && !DriverQuestionOk(t, Find(records.value, q.qid), q, inp.family) then None
    else
      var s := records.value;
      var effective := EffectiveVariant(s, inp.variant);
      if effective.None? then None else Some(Made(t, inp, s, questions, budget, effective.value))
  }

  /** The document for the given questions and selected records. */
  function Made(t: Tools, inp: Input, s: Selection, questions: seq<Question>, budget: int, effective: Json): Document {
    Document(
      inp.family, t.sha(inp.raw), MetaOf(s, inp.family),
      Provenance(
        QuestionSet(t, inp.questions), inp.files, budget, t.identity(budget), effective, inp.variant, inp.dedup,
        Ids(questions), Bindings(t, s, Ids(questions))),
      WorkAll(t, s, questions))
  }

  ghost predicate DistinctIds(questions: seq<Question>) {
    forall i, j :: 0 <= i < j < |questions| ==> questions[i].qid != questions[j].qid
  }

  /** The workers finish in any order; a dictionary by question id restores the questions' order. */
  method RestoreOrder(questions: seq<Question>, results: seq<Row>, ghost expected: seq<Row>) returns (ordered: seq<Row>)
    requires DistinctIds(questions) && multiset(results) == multiset(expected)
    requires |expected| == |questions| && forall i :: 0 <= i < |questions| ==> expected[i].qid == questions[i].qid
    ensures ordered == expected
  {
    var table: map<string, Row> := map[];
    for i := 0 to |results|
      invariant forall k :: 0 <= k < i ==> results[k].qid in table
      invariant forall id :: id in table ==> table[id] in results && table[id].qid == id
    {
      table := table[results[i].qid := results[i]];
    }
    ordered := [];
    for i := 0 to |questions|
      invariant |ordered| == i && forall k :: 0 <= k < i ==> ordered[k] == expected[k]
    {
      ResultOf(questions, results, expected, table, i);
      ordered := ordered + [table[questions[i].qid]];
    }
  }

  lemma ResultOf(questions: seq<Question>, results: seq<Row>, expected: seq<Row>, table: map<string, Row>, i: nat)
    requires DistinctIds(questions) && multiset(results) == multiset(expected) && i < |questions|
    requires |expected| == |questions| && forall k :: 0 <= k < |questions| ==> expected[k].qid == questions[k].qid
    requires forall k :: 0 <= k < |results| ==> results[k].qid in table
    requires forall id :: id in table ==> table[id] in results && table[id].qid == id
    ensures questions[i].qid in table && table[questions[i].qid] == expected[i]
  {
    assert expected[i] in multiset(results);
    var k :| 0 <= k < |results| && results[k] == expected[i];
    var row := table[questions[i].qid];
    assert row in multiset(expected);
    var j :| 0 <= j < |expected| && expected[j] == row;
  }

  // ---------------------------------------------------------------- the validator

  function FindRow(rows: seq<Row>, qid: string): Option<Row> {
    if |rows| == 0 then None else if rows[0].qid == qid then Some(rows[0]) else FindRow(rows[1..], qid)
  }

  function FindQuestion(questions: seq<Question>, qid: string): Option<Question> {
    if |questions| == 0 then None else if questions[0].qid == qid then Some(questions[0]) else FindQuestion(questions[1..], qid)
  }

  function ExpectedFlag(t: Tools, found: Option<Record>): Option<Flag> {
    if found.None? then Some(MissingRecord)
    else if found.value.error then Some(DriverError)
    else if Empty(t, found.value) then Some(EmptyAnswer)
    else None
  }

  predicate RowOk(t: Tools, row: Row, q: Question, found: Option<Record>, family: string) {
    && ProtocolOk(t, q, family) && DriverQuestionOk(t, found, q, family)
    && row.questionSha == t.questionHash(q)
    && row.recordSha == (if found.Some? then Some(t.recordHash(found.value)) else None)
    && row.protocol == q.evalProtocol
    && row.envId == q.envId && row.category == q.category && row.evalType == Get(q.evalType)
    && (var expected := ExpectedFlag(t, found);
        if expected.Some? then row.flag == expected
        else row.flag != Some(MissingRecord) && row.flag != Some(DriverError) && row.flag != Some(EmptyAnswer))
    && (row.flag.Some? ==> row.score == 0.0)
    && (found.Some? ==> row.nativeFailure == Some(t.nativeFailure(found.value)))
  }

  ghost predicate RowsOk(rows: seq<Row>) {
    && (forall i, j :: 0 <= i < j < |rows| ==> rows[i].qid != rows[j].qid)
    && (forall i :: 0 <= i < |rows| ==> 0.0 <= rows[i].score <= 1.0)
  }

  ghost predicate BoundRow(t: Tools, doc: Document, inp: Input, s: Selection, qid: string) {
    && FindQuestion(inp.questions, qid).Some? && FindRow(doc.rows, qid).Some?
    && RowOk(t, FindRow(doc.rows, qid).value, FindQuestion(inp.questions, qid).value, Find(s, qid), inp.family)
  }

  function BenchmarkOf(meta: Option<Meta>): Json { if meta.Some? then meta.value.benchmark else Null }

  /** validate_scores on a document with provenance: strict acceptance. */
  ghost predicate Accepts(t: Tools, doc: Document, inp: Input) {
    var p := doc.provenance;
    && doc.family == inp.family
    && (BenchmarkOf(doc.meta) == Null || BenchmarkOf(doc.meta) == Text(inp.family))
    && RunRecords(t, inp).Some?
    && var s := RunRecords(t, inp).value;
    && (inp.variant.Some? && doc.meta.Some? ==> doc.meta.value.variant == Null || doc.meta.value.variant == Text(inp.variant.value))
    && doc.runSha == t.sha(inp.raw)
    && RowsOk(doc.rows)
    && doc.meta == MetaOf(s, inp.family)
    && p.questionSet == QuestionSet(t, inp.questions) && p.files == inp.files
    && p.budget >= 1 && p.identity == t.identity(p.budget)
    && EffectiveVariant(s, inp.variant) == Some(p.effective)
    && p.variant == inp.variant && p.dedup == inp.dedup
    && Distinct(p.qids) && (forall id :: id in p.qids <==> FindRow(doc.rows, id).Some?)
    && p.bindings == Bindings(t, s, p.qids)
    && (forall id :: id in p.qids ==> BoundRow(t, doc, inp, s, id))
  }

  // ---------------------------------------------------------------- what the evaluator writes is accepted, and when not

  predicate Typed(questions: seq<Question>) {
    forall i :: 0 <= i < |questions| ==> questions[i].evalType.Some?
  }

  /** Where the record has an answer that is judged and counts, the judge's score is in [0, 1]. */
  predicate InRange(t: Tools, s: Selection, questions: seq<Question>) {
    forall i :: 0 <= i < |questions| && questions[i].qid in s.table ==>
      var q := questions[i];
      var r := s.table[q.qid];
      !r.error && r.answer.Text? && !t.blank(r.answer.text) && t.judge(q, r).Score? && !(q.family == Text("lme_v2") && t.unknown(r.answer.text)) ==>
        0.0 <= t.judge(q, r).score <= 1.0
  }

  /** What the evaluator writes for a question with the given record, if any: zero and the reason where there is no record,
      where the driver failed, where the answer is missing or blank, and where judging fails or the type is unknown;
      otherwise the judge's score, or zero for an answer of UNKNOWN in the one benchmark that asks for it. */
  ghost predicate ScoreIs(t: Tools, q: Question, found: Option<Record>, score: real, flag: Option<Flag>) {
    if found == None then score == 0.0 && flag == Some(MissingRecord)
    else
      var r := found.value;
      var judged := t.judge(q, r);
      && (r.error ==> score == 0.0 && flag == Some(DriverError))
      && (!r.error && !r.answer.Text? ==> score == 0.0 && flag == Some(EmptyAnswer))
      && (!r.error && r.answer.Text? && t.blank(r.answer.text) ==> score == 0.0 && flag == Some(EmptyAnswer))
      && (!r.error && r.answer.Text? && !t.blank(r.answer.text) ==>
            && (judged == Failed ==> score == 0.0 && flag == Some(EvalError))
            && (judged == Unhandled ==> score == 0.0 && flag == Some(UnknownType))
            && (judged.Score? ==> flag == None && score == if q.family == Text("lme_v2") && t.unknown(r.answer.text) then 0.0 else judged.score))
  }

  /** Row i of the document is about question i, carries its data and hash and those of its record, and its score and flag
      are as that record and the judge make them. */
  lemma RowsAreScored(t: Tools, inp: Input, limit: nat, budget: int, i: nat)
    requires Produce(t, inp, limit, budget).Some? && i < |Evaluated(inp, limit)|
    ensures RunRecords(t, inp).Some? && |Produce(t, inp, limit, budget).value.rows| == |Evaluated(inp, limit)|
    ensures
      var row, q, table := Produce(t, inp, limit, budget).value.rows[i], Evaluated(inp, limit)[i], RunRecords(t, inp).value.table;
      var found := if q.qid in table then Some(table[q.qid]) else None;
      && row.qid == q.qid && row.envId == q.envId && row.category == q.category && row.protocol == q.evalProtocol
      && row.evalType == (if q.evalType.Some? then q.evalType.value else Text(""))
      && row.questionSha == t.questionHash(q)
      && row.recordSha == (if found.Some? then Some(t.recordHash(found.value)) else None)
      && row.nativeFailure == (if found.Some? then Some(t.nativeFailure(found.value)) else None)
      && ScoreIs(t, q, found, row.score, row.flag)
  {
    hide RunRecords, EffectiveVariant, ProtocolOk, DriverQuestionOk;
    Produced(t, inp, limit, budget);
  }

  /** Row k is the first that passes the filter. */
  ghost predicate FirstKept(rows: seq<Record>, variant: Option<string>, k: nat) {
    && k < |rows| && (variant == None || rows[k].variant == Text(variant.value))
    && forall j :: 0 <= j < k ==> variant.Some? && rows[j].variant != Text(variant.value)
  }

  /** The document as a whole: the run's hash; the identity of the run from the record of the question met first; the
      evaluator's identity, the selection as requested and the questions scored, in order; and for each of these the
      variant and hash of its record, if it has one. */
  lemma DocumentIs(t: Tools, inp: Input, limit: nat, budget: int, k: nat)
    requires Produce(t, inp, limit, budget).Some?
    ensures
      var doc, rows := Produce(t, inp, limit, budget).value, t.rows(inp.raw).value;
      var p, table := doc.provenance, RunRecords(t, inp).value.table;
      && doc.family == inp.family && doc.runSha == t.sha(inp.raw)
      && p.files == inp.files && p.budget == budget && p.identity == t.identity(budget) && p.variant == inp.variant && p.dedup == inp.dedup
      && |p.qids| == |Evaluated(inp, limit)| && (forall i :: 0 <= i < |p.qids| ==> p.qids[i] == inp.questions[i].qid)
      && (forall id :: id in p.bindings <==> id in p.qids)
      && (forall id :: id in p.qids ==>
            p.bindings[id] == if id in table then Some(Binding(table[id].variant, t.recordHash(table[id]))) else None)
      && (FirstKept(rows, inp.variant, k) ==>
            && rows[k].qid.Text? && rows[k].qid.text in table && doc.meta.Some?
            && var r := table[rows[k].qid.text];
            doc.meta.value == Meta(r.runId, r.variant, if r.benchmark == None then Text(inp.family) else r.benchmark.value))
      && (rows == [] ==> doc.meta == None)
  {
    hide EffectiveVariant, ProtocolOk, DriverQuestionOk, WorkAll, QuestionSet;
    Produced(t, inp, limit, budget);
    EvaluatedIs(inp, limit);
    var rows, s := t.rows(inp.raw).value, RunRecords(t, inp).value;
    SelectionIsTidy(rows, inp.variant, inp.dedup);
    if FirstKept(rows, inp.variant, k) { FirstKeyIs(rows, inp.variant, inp.dedup, k); }
  }

  lemma FirstKeyIs(rows: seq<Record>, variant: Option<string>, dedup: Dedup, k: nat)
    requires Selected(rows, variant, dedup).Some? && FirstKept(rows, variant, k)
    ensures
      var s := Selected(rows, variant, dedup).value;
      rows[k].qid.Text? && |s.order| > 0 && s.order[0] == rows[k].qid.text && s.order[0] in s.table
  {
    SelectionFailsIff(rows, variant, dedup);
    assert !RefusedAt(rows, variant, k);
    var s, id := Selected(rows, variant, dedup).value, rows[k].qid.text;
    SelectedFor(rows, variant, dedup, id);
    SelectionIsTidy(rows, variant, dedup);
    var j :| 0 <= j < |s.order| && s.order[j] == id;
    if j > 0 { var m := OrderIsFirstAppearance(rows, |rows|, variant, dedup, 0, j, k); }
  }

  /** The questions scored are the first ones up to the limit, all of them for a limit of zero. */
  lemma EvaluatedIs(inp: Input, limit: nat)
    ensures Evaluated(inp, limit) <= inp.questions
    ensures |Evaluated(inp, limit)| == if limit == 0 || limit > |inp.questions| then |inp.questions| else limit
  {
  }

  /** The records selected always agree on a variant: the one asked for, or else that of every row; null without rows. */
  lemma EffectiveVariantIs(t: Tools, inp: Input)
    requires RunRecords(t, inp).Some?
    ensures
      var s := RunRecords(t, inp).value;
      && EffectiveVariant(s, inp.variant).Some?
      && var v := EffectiveVariant(s, inp.variant).value;
      && (inp.variant.Some? ==> v == Text(inp.variant.value))
      && (forall id :: id in s.table ==> s.table[id].variant == v)
      && (inp.variant.None? ==> forall r :: r in t.rows(inp.raw).value ==> r.variant == v)
      && (inp.variant.None? && t.rows(inp.raw).value == [] ==> v == Null)
  {
    var rows, s := t.rows(inp.raw).value, RunRecords(t, inp).value;
    hide RunRecords;
    SelectionIsTidy(rows, inp.variant, inp.dedup);
    if |s.order| > 0 { assert s.order[0] in s.order; }
    forall a, b | a in s.table && b in s.table ensures s.table[a].variant == s.table[b].variant {
      OneVariant(rows, inp.variant, inp.dedup, a, b);
    }
    forall id | id in s.table ensures inp.variant == None || s.table[id].variant == Text(inp.variant.value) {
      SelectedFor(rows, inp.variant, inp.dedup, id);
      assert id in s.order;
    }
    if inp.variant.None? {
      forall r | r in rows ensures r.qid.Text? && r.qid.text in s.table && s.table[r.qid.text].variant == r.variant {
        RowIsCovered(rows, inp.dedup, r);
      }
    }
  }

  lemma SelectionIsTidy(rows: seq<Record>, variant: Option<string>, dedup: Dedup)
    requires Selected(rows, variant, dedup).Some?
    ensures Tidy(Selected(rows, variant, dedup).value)
    ensures rows == [] ==> Selected(rows, variant, dedup).value == NOTHING
  {
    var at := SelectionMeans(rows, |rows|, variant, dedup);
  }

  /** Without a variant asked for, every row has its question in the dictionary, and all variants are the same. */
  lemma RowIsCovered(rows: seq<Record>, dedup: Dedup, r: Record)
    requires Selected(rows, None, dedup).Some? && r in rows
    ensures
      var table := Selected(rows, None, dedup).value.table;
      r.qid.Text? && r.qid.text in table && table[r.qid.text].variant == r.variant
  {
    SelectionFailsIff(rows, None, dedup);
    var k: nat :| k < |rows| && rows[k] == r;
    assert !RefusedAt(rows, None, k);
    SelectedFor(rows, None, dedup, r.qid.text);
  }

  /** The record was made for the question: same id, text, environment, benchmark, protocols and hash, by a caller who
      declared them, in a named run and variant. */
  ghost predicate MadeFor(t: Tools, r: Record, q: Question, family: string) {
    && r.qid == Text(q.qid) && r.question == q.visible && r.envId == q.envId && r.benchmark == Some(Text(family))
    && r.questionProtocol == q.questionProtocol && r.scoringProtocol == q.evalProtocol
    && r.questionSha.Text? && t.sameDigest(r.questionSha.text, t.questionHash(q))
    && r.bindingSource == Text("caller_declared_scoring_question")
    && Filled(t, r.runId) && Filled(t, r.variant) && Filled(t, r.envId) && Filled(t, r.question) && !t.blank(family)
    && Filled(t, r.questionProtocol) && Filled(t, r.scoringProtocol)
    && q.qid != "" && q.envId != Text("") && |r.questionProtocol.text| <= 256 && |r.scoringProtocol.text| <= 256
  }

  lemma DriverQuestionMeans(t: Tools, r: Record, q: Question, family: string)
    ensures DriverQuestionOk(t, Some(r), q, family) <==> MadeFor(t, r, q, family) && ProtocolOk(t, q, family)
  {
  }

  /** The evaluator writes a document exactly when all questions conform, the run parses, its rows can be selected from,
      the budget is positive, and every record selected for a question to be scored was made for it. */
  lemma ProducedIff(t: Tools, inp: Input, limit: nat, budget: int)
    ensures
      Produce(t, inp, limit, budget).Some? <==>
        && budget >= 1 && (forall q :: q in inp.questions ==>
              && q.family == Text(inp.family) && q.questionProtocol == Text(t.questionProtocol(inp.family))
              && q.evalProtocol == Text(t.scoringProtocol(inp.family)))
        && t.rows(inp.raw).Some? && Selected(t.rows(inp.raw).value, inp.variant, inp.dedup).Some?
        && var table := Selected(t.rows(inp.raw).value, inp.variant, inp.dedup).value.table;
        && forall q :: q in Evaluated(inp, limit) && q.qid in table ==> MadeFor(t, table[q.qid], q, inp.family)
  {
    hide DriverQuestionOk, EffectiveVariant, Selected, MadeFor, Evaluated;
    EvaluatedIs(inp, limit);
    var qs := Evaluated(inp, limit);
    forall q | q in qs ensures q in inp.questions {
      var i :| 0 <= i < |qs| && qs[i] == q;
      assert inp.questions[i] == q;
    }
    if RunRecords(t, inp).Some? {
      EffectiveVariantIs(t, inp);
      var s := RunRecords(t, inp).value;
      forall q | q in qs && ProtocolOk(t, q, inp.family)
        ensures DriverQuestionOk(t, Find(s, q.qid), q, inp.family) <==> (q.qid in s.table ==> MadeFor(t, s.table[q.qid], q, inp.family))
      {
        if q.qid in s.table { DriverQuestionMeans(t, s.table[q.qid], q, inp.family); } else { NoRecordIsFine(t, q, inp.family); }
      }
    }
  }

  lemma NoRecordIsFine(t: Tools, q: Question, family: string)
    ensures DriverQuestionOk(t, None, q, family)
  {
  }

  predicate SampleOk(s: Selection, family: string) {
    Sample(s).Some? ==>
      var b := Sample(s).value.benchmark; b == None || b == Some(Null) || b == Some(Text(family))
  }

  lemma {:induction false} FindRowAt(rows: seq<Row>, id: string)
    ensures FindRow(rows, id).Some? ==> exists i :: 0 <= i < |rows| && rows[i].qid == id && FindRow(rows, id) == Some(rows[i])
    ensures FindRow(rows, id).None? ==> forall i :: 0 <= i < |rows| ==> rows[i].qid != id
  {
    if |rows| > 0 && rows[0].qid != id {
      FindRowAt(rows[1..], id);
      assert forall i :: 0 < i < |rows| ==> rows[i] == rows[1..][i - 1];
    }
  }

  lemma {:induction false} FindQuestionAt(questions: seq<Question>, i: nat)
    requires DistinctIds(questions) && i < |questions|
    ensures FindQuestion(questions, questions[i].qid) == Some(questions[i])
  {
    if i > 0 {
      FindQuestionAt(questions[1..], i - 1);
    }
  }

  /** A row as the evaluator writes it passes every check of its content, except that the validator reads a missing
      type as null where the evaluator wrote the empty one. */
  lemma WorkRowOk(t: Tools, q: Question, found: Option<Record>, family: string)
    requires ProtocolOk(t, q, family) && DriverQuestionOk(t, found, q, family)
    ensures RowOk(t, Work(t, q, found), q, found, family) <==> q.evalType.Some?
  {
    hide ProtocolOk, DriverQuestionOk, Empty;
  }

  lemma Produced(t: Tools, inp: Input, limit: nat, budget: int)
    requires Produce(t, inp, limit, budget).Some?
    ensures
      var doc, qs := Produce(t, inp, limit, budget).value, Evaluated(inp, limit);
      && RunRecords(t, inp).Some? && budget >= 1
      && var s := RunRecords(t, inp).value;
      && EffectiveVariant(s, inp.variant).Some?
      && doc == Made(t, inp, s, qs, budget, EffectiveVariant(s, inp.variant).value)
      && forall i :: 0 <= i < |qs| ==> ProtocolOk(t, qs[i], inp.family) && DriverQuestionOk(t, Find(s, qs[i].qid), qs[i], inp.family)
  {
    hide ProtocolOk, DriverQuestionOk, RunRecords, EffectiveVariant;
    var qs := Evaluated(inp, limit);
    assert forall i :: 0 <= i < |qs| ==> qs[i] in qs && qs[i] in inp.questions;
  }

  /** Row i is bound to question i. */
  lemma BoundRowIs(t: Tools, doc: Document, inp: Input, limit: nat, s: Selection, i: nat)
    requires DistinctIds(inp.questions) && i < |Evaluated(inp, limit)| && doc.rows == WorkAll(t, s, Evaluated(inp, limit))
    requires
      var q := Evaluated(inp, limit)[i];
      ProtocolOk(t, q, inp.family) && DriverQuestionOk(t, Find(s, q.qid), q, inp.family)
    ensures var q := Evaluated(inp, limit)[i]; BoundRow(t, doc, inp, s, q.qid) <==> q.evalType.Some?
  {
    hide ProtocolOk, DriverQuestionOk, RowOk, Work, Find;
    var qs := Evaluated(inp, limit);
    var q := qs[i];
    FindQuestionAt(inp.questions, i);
    FindRowAt(doc.rows, q.qid);
    assert doc.rows[i] == Work(t, q, Find(s, q.qid)) && doc.rows[i].qid == q.qid by { RowsHaveIds(t, s, qs); }
    RowsHaveIds(t, s, qs);
    WorkRowOk(t, q, Find(s, q.qid), inp.family);
  }

  lemma RowsHaveIds(t: Tools, s: Selection, qs: seq<Question>)
    ensures
      var rows := WorkAll(t, s, qs);
      |rows| == |qs| && forall i :: 0 <= i < |qs| ==> rows[i].qid == qs[i].qid && rows[i] == Work(t, qs[i], Find(s, qs[i].qid))
  {
  }

  /** The qids listed are the rows' own, once each. */
  lemma CoverageHolds(t: Tools, s: Selection, qs: seq<Question>)
    requires DistinctIds(qs)
    ensures Distinct(Ids(qs)) && forall id :: id in Ids(qs) <==> FindRow(WorkAll(t, s, qs), id).Some?
  {
    hide Work, Find;
    RowsHaveIds(t, s, qs);
    var rows := WorkAll(t, s, qs);
    forall id ensures id in Ids(qs) <==> FindRow(rows, id).Some? {
      FindRowAt(rows, id);
      if id in Ids(qs) {
        var i :| 0 <= i < |qs| && Ids(qs)[i] == id;
        assert rows[i].qid == id;
      }
      if FindRow(rows, id).Some? {
        var i :| 0 <= i < |rows| && rows[i].qid == id;
        assert Ids(qs)[i] == id;
      }
    }
  }

  lemma AllBoundIff(t: Tools, doc: Document, inp: Input, limit: nat, s: Selection)
    requires DistinctIds(inp.questions) && doc.rows == WorkAll(t, s, Evaluated(inp, limit))
    requires
      var qs := Evaluated(inp, limit);
      forall i :: 0 <= i < |qs| ==> ProtocolOk(t, qs[i], inp.family) && DriverQuestionOk(t, Find(s, qs[i].qid), qs[i], inp.family)
    ensures (forall id :: id in Ids(Evaluated(inp, limit)) ==> BoundRow(t, doc, inp, s, id)) <==> Typed(Evaluated(inp, limit))
  {
    hide BoundRow, WorkAll, Evaluated, ProtocolOk, DriverQuestionOk;
    var qs := Evaluated(inp, limit);
    forall i | 0 <= i < |qs| ensures BoundRow(t, doc, inp, s, qs[i].qid) <==> qs[i].evalType.Some? {
      BoundRowIs(t, doc, inp, limit, s, i);
    }
    if Typed(qs) {
      forall id | id in Ids(qs) ensures BoundRow(t, doc, inp, s, id) {
        var i :| 0 <= i < |qs| && Ids(qs)[i] == id;
      }
    }
    forall i | 0 <= i < |qs| ensures qs[i].qid in Ids(qs) {
      assert Ids(qs)[i] == qs[i].qid;
    }
  }

  lemma RowsOkIff(t: Tools, s: Selection, qs: seq<Question>)
    requires DistinctIds(qs)
    ensures RowsOk(WorkAll(t, s, qs)) <==> InRange(t, s, qs)
  {
    var rows := WorkAll(t, s, qs);
    assert forall i :: 0 <= i < |qs| ==> rows[i].qid == qs[i].qid && rows[i].score == Scored(t, qs[i], Find(s, qs[i].qid)).0;
  }

  lemma MetaOkIff(s: Selection, variant: Option<string>, family: string)
    requires EffectiveVariant(s, variant).Some?
    ensures BenchmarkOf(MetaOf(s, family)) == Null || BenchmarkOf(MetaOf(s, family)) == Text(family) <==> SampleOk(s, family)
    ensures variant.Some? && MetaOf(s, family).Some? ==> MetaOf(s, family).value.variant == Text(variant.value)
  {
    hide Sample;
  }

  lemma EvaluatedDistinct(inp: Input, limit: nat)
    requires DistinctIds(inp.questions)
    ensures DistinctIds(Evaluated(inp, limit))
  {
  }

  /** The evaluator's own document is accepted exactly when every scored question declares an evaluation type, every
      judge's score is within [0, 1], and the first selected record names no other benchmark. Nothing else can go
      wrong, whichever rows the run holds and whatever the deduplication policy, variant and limit. */
  lemma AcceptedIff(t: Tools, inp: Input, limit: nat, budget: int)
    requires DistinctIds(inp.questions) && Produce(t, inp, limit, budget).Some?
    ensures RunRecords(t, inp).Some?
    ensures
      var s, qs := RunRecords(t, inp).value, Evaluated(inp, limit);
      Accepts(t, Produce(t, inp, limit, budget).value, inp) <==> Typed(qs) && InRange(t, s, qs) && SampleOk(s, inp.family)
  {
    hide Produce, RunRecords, Evaluated, WorkAll, MetaOf, EffectiveVariant, BoundRow, Typed, InRange, SampleOk, RowsOk, Bindings,
      QuestionSet, Ids, FindRow, BenchmarkOf, DistinctIds, Distinct;
    Produced(t, inp, limit, budget);
    var doc, s, qs := Produce(t, inp, limit, budget).value, RunRecords(t, inp).value, Evaluated(inp, limit);
    EvaluatedDistinct(inp, limit);
    CoverageHolds(t, s, qs);
    AllBoundIff(t, doc, inp, limit, s);
    RowsOkIff(t, s, qs);
    MetaOkIff(s, inp.variant, inp.family);
  }

  // ---------------------------------------------------------------- one document, one set of inputs

  /** Where the hashes of the two inputs do not collide, one document is accepted for at most one run file, variant,
      policy, family, list of question files and set of questions. */
  lemma DocumentBindsInputs(t: Tools, doc: Document, a: Input, b: Input)
    requires Accepts(t, doc, a) && Accepts(t, doc, b)
    requires t.sha(a.raw) == t.sha(b.raw) ==> a.raw == b.raw
    requires
      t.setHash(SortBy(a.questions, ById())) == t.setHash(SortBy(b.questions, ById()))
      ==> SortBy(a.questions, ById()) == SortBy(b.questions, ById())
    ensures a.raw == b.raw && a.variant == b.variant && a.dedup == b.dedup && a.family == b.family && a.files == b.files
    ensures multiset(a.questions) == multiset(b.questions)
    ensures RunRecords(t, a) == RunRecords(t, b)
  {
    hide RunRecords, MetaOf, EffectiveVariant, BoundRow, RowsOk, Bindings, FindRow, ById;
    SortPermutes(a.questions, ById());
    SortPermutes(b.questions, ById());
    RecordsDepend(t, a, b);
  }

  lemma RecordsDepend(t: Tools, a: Input, b: Input)
    ensures a.raw == b.raw && a.variant == b.variant && a.dedup == b.dedup ==> RunRecords(t, a) == RunRecords(t, b)
  {
  }

  /** In an accepted document every row carries the hashes of its own question and of the record selected for it, and
      that question's environment, category, type and protocol; it is flagged as the record demands, zero where
      flagged, and repeats the record's own failure diagnostics. */
  lemma RowsAreBound(t: Tools, doc: Document, inp: Input, i: nat)
    requires Accepts(t, doc, inp) && i < |doc.rows|
    ensures
      var row, s := doc.rows[i], RunRecords(t, inp).value;
      var found := Find(s, row.qid);
      && FindQuestion(inp.questions, row.qid).Some?
      && var q := FindQuestion(inp.questions, row.qid).value;
      && row.questionSha == t.questionHash(q)
      && row.recordSha == (if found.Some? then Some(t.recordHash(found.value)) else None)
      && row.envId == q.envId && row.category == q.category && row.evalType == Get(q.evalType) && row.protocol == q.evalProtocol
      && (row.flag == Some(MissingRecord) <==> found.None?)
      && (row.flag == Some(DriverError) <==> found.Some? && found.value.error)
      && (row.flag == Some(EmptyAnswer) <==> found.Some? && !found.value.error && Empty(t, found.value))
      && (row.flag.Some? ==> row.score == 0.0)
      && (found.Some? ==> row.nativeFailure == Some(t.nativeFailure(found.value)))
  {
    hide RunRecords, MetaOf, EffectiveVariant, Bindings, QuestionSet, ProtocolOk, DriverQuestionOk, Empty;
    var row, s := doc.rows[i], RunRecords(t, inp).value;
    FindRowAt(doc.rows, row.qid);
    assert row.qid in doc.provenance.qids;
    assert BoundRow(t, doc, inp, s, row.qid);
  }

  /** And its record, if it has one, was made for its question. */
  lemma RecordsAreMadeForQuestions(t: Tools, doc: Document, inp: Input, i: nat)
    requires Accepts(t, doc, inp) && i < |doc.rows|
    ensures
      var id, table := doc.rows[i].qid, RunRecords(t, inp).value.table;
      && FindQuestion(inp.questions, id).Some?
      && var q := FindQuestion(inp.questions, id).value;
      && q.family == Text(inp.family) && q.questionProtocol == Text(t.questionProtocol(inp.family))
      && q.evalProtocol == Text(t.scoringProtocol(inp.family))
      && (id in table ==> MadeFor(t, table[id], q, inp.family))
  {
    hide RunRecords, MetaOf, EffectiveVariant, Bindings, QuestionSet, DriverQuestionOk, Empty, MadeFor;
    var id, s := doc.rows[i].qid, RunRecords(t, inp).value;
    FindRowAt(doc.rows, id);
    assert id in doc.provenance.qids;
    assert BoundRow(t, doc, inp, s, id);
    var q := FindQuestion(inp.questions, id).value;
    if id in s.table { DriverQuestionMeans(t, s.table[id], q, inp.family); }
  }

  // ---------------------------------------------------------------- which documents are accepted

  /** What the record alone decides; the judges decide nothing here. */
  predicate Decided(flag: Option<Flag>) {
    flag == Some(MissingRecord) || flag == Some(DriverError) || flag == Some(EmptyAnswer)
  }

  /** The row is the evaluator's, except for the judges' part of it: a score and a failure flag where the record does not
      decide them, and diagnostics where there is no record. */
  predicate Agrees(row: Row, made: Row) {
    && row.(score := made.score, flag := made.flag, nativeFailure := made.nativeFailure) == made
    && (Decided(made.flag) ==> row.flag == made.flag)
    && (Decided(row.flag) ==> Decided(made.flag))
    && (row.flag.Some? ==> row.score == 0.0)
    && (made.flag != Some(MissingRecord) ==> row.nativeFailure == made.nativeFailure)
  }

  /** The evaluator's row, with a missing type read as null. */
  function Expected(t: Tools, q: Question, found: Option<Record>): Row {
    Work(t, q, found).(evalType := Get(q.evalType))
  }

  lemma RowOkIffAgrees(t: Tools, row: Row, q: Question, found: Option<Record>, family: string)
    requires row.qid == q.qid
    ensures
      RowOk(t, row, q, found, family)
      <==> ProtocolOk(t, q, family) && DriverQuestionOk(t, found, q, family) && Agrees(row, Expected(t, q, found))
  {
    hide ProtocolOk, DriverQuestionOk, Empty;
  }

  /** The row for one listed question is there, once, and agrees with the evaluator's. */
  ghost predicate RowAgrees(t: Tools, doc: Document, inp: Input, s: Selection, id: string) {
    && FindQuestion(inp.questions, id).Some? && FindRow(doc.rows, id).Some?
    && var q := FindQuestion(inp.questions, id).value;
    && ProtocolOk(t, q, inp.family) && DriverQuestionOk(t, Find(s, id), q, inp.family)
    && Agrees(FindRow(doc.rows, id).value, Expected(t, q, Find(s, id)))
  }

  function QuestionsFor(questions: seq<Question>, ids: seq<string>): seq<Question> {
    seq(|ids|, i requires 0 <= i < |ids| =>
      if FindQuestion(questions, ids[i]).Some? then FindQuestion(questions, ids[i]).value
      else Question(ids[i], Null, Null, Null, None, Null, Null, Null, ""))
  }

  /** The document is the evaluator's own for the questions it lists, up to the order of its rows and the judges' part
      of each. */
  ghost predicate Accounted(t: Tools, doc: Document, inp: Input) {
    var p := doc.provenance;
    && RunRecords(t, inp).Some?
    && var s := RunRecords(t, inp).value;
    && SampleOk(s, inp.family) && EffectiveVariant(s, inp.variant).Some? && p.budget >= 1
    && Distinct(p.qids) && RowsOk(doc.rows) && (forall id :: id in p.qids <==> FindRow(doc.rows, id).Some?)
    && (forall id :: id in p.qids ==> RowAgrees(t, doc, inp, s, id))
    && var made := Made(t, inp, s, QuestionsFor(inp.questions, p.qids), p.budget, EffectiveVariant(s, inp.variant).value);
    && doc.(rows := made.rows) == made
  }

  lemma {:induction false} FoundHasId(questions: seq<Question>, id: string)
    ensures FindQuestion(questions, id).Some? ==> FindQuestion(questions, id).value.qid == id
  {
    if |questions| > 0 { FoundHasId(questions[1..], id); }
  }

  lemma ListedIds(questions: seq<Question>, ids: seq<string>)
    ensures Ids(QuestionsFor(questions, ids)) == ids
  {
    forall i | 0 <= i < |ids| ensures QuestionsFor(questions, ids)[i].qid == ids[i] {
      FoundHasId(questions, ids[i]);
    }
  }

  lemma BoundIffAgrees(t: Tools, doc: Document, inp: Input, s: Selection, id: string)
    ensures BoundRow(t, doc, inp, s, id) <==> RowAgrees(t, doc, inp, s, id)
  {
    hide RowOk, Agrees, ProtocolOk, DriverQuestionOk, Expected, FindRow, FindQuestion;
    if FindQuestion(inp.questions, id).Some? && FindRow(doc.rows, id).Some? {
      FindRowAt(doc.rows, id);
      FoundHasId(inp.questions, id);
      RowOkIffAgrees(t, FindRow(doc.rows, id).value, FindQuestion(inp.questions, id).value, Find(s, id), inp.family);
    }
  }

  /** Exactly which documents are strictly accepted for given inputs: the evaluator's own for any list of the questions,
      with its rows in any order, and with any scores in [0, 1] and any judge failures where the records leave these open. */
  lemma AcceptedDocuments(t: Tools, doc: Document, inp: Input)
    ensures Accepts(t, doc, inp) <==> Accounted(t, doc, inp)
  {
    hide RunRecords, WorkAll, MetaOf, EffectiveVariant, BoundRow, RowAgrees, SampleOk, RowsOk, Bindings,
      QuestionSet, QuestionsFor, Ids, FindRow, BenchmarkOf, Distinct;
    var p := doc.provenance;
    ListedIds(inp.questions, p.qids);
    if RunRecords(t, inp).Some? {
      var s := RunRecords(t, inp).value;
      forall id ensures BoundRow(t, doc, inp, s, id) <==> RowAgrees(t, doc, inp, s, id) {
        BoundIffAgrees(t, doc, inp, s, id);
      }
      if EffectiveVariant(s, inp.variant).Some? { MetaOkIff(s, inp.variant, inp.family); }
    }
  }
}
