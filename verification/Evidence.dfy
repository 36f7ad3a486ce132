/** Score documents. The evaluator selects one run record per question, scores the questions, possibly in several
    workers, and writes a document that is bound to its inputs by hashes; the validator recomputes every binding. */
module Evidence {
  import opened Sequences

  /** A JSON value: null, a string, or anything else by its canonical text. A missing field reads as null. */
  datatype Json = Null | Text(text: string) | Other(raw: string)

  function Get(field: Option<Json>): Json {
    if field.Some? then field.value else Null
  }

  // ---------------------------------------------------------------- selection

  /** A run row by the fields that selection and binding look at; `error` is the truth of its error field, `rest` is
      everything else that its hash covers. */
  datatype Record = Record(
    qid: Json, variant: Json, benchmark: Option<Json>, runId: Json, envId: Json, answer: Json, error: bool,
    question: Json, questionProtocol: Json, scoringProtocol: Json, questionSha: Json, bindingSource: Json, rest: string)

  datatype Dedup = Error | First | Last

  /** An insertion-ordered dictionary from question id to record, and what the loop counts beside it. */
  datatype Selection = Selection(order: seq<string>, table: map<string, Record>, duplicates: nat, variants: set<Json>)

  const NOTHING := Selection([], map[], 0, {})

  predicate WellTyped(r: Record) {
    && r.qid.Text? && r.qid.text != ""
    && !r.variant.Other?
    && !r.answer.Other?
  }

  predicate Kept(r: Record, variant: Option<string>) {
    variant.Some? ==> r.variant == Text(variant.value)
  }

  /** One turn of the loop on a row that passes the filter. */
  function Entered(s: Selection, r: Record, dedup: Dedup): Option<Selection> {
    if !WellTyped(r) then None
    else
      var id := r.qid.text;
      var seen := s.(variants := s.variants + {r.variant});
      if id !in s.table then Some(seen.(order := s.order + [id], table := s.table[id := r]))
      else
        match dedup
        case Error => None
        case First => Some(seen.(duplicates := s.duplicates + 1))
        case Last => Some(seen.(duplicates := s.duplicates + 1, table := s.table[id := r]))
  }

  function SelectedUpTo(rows: seq<Record>, n: nat, variant: Option<string>, dedup: Dedup): Option<Selection>
    requires n <= |rows|
  {
    if n == 0 then Some(NOTHING)
    else
      var before := SelectedUpTo(rows, n - 1, variant, dedup);
      if before.None? then None
      else if !Kept(rows[n - 1], variant) then before
      else Entered(before.value, rows[n - 1], dedup)
  }

  function Selected(rows: seq<Record>, variant: Option<string>, dedup: Dedup): Option<Selection> {
    var s := SelectedUpTo(rows, |rows|, variant, dedup);
    if s.None? || (variant.None? && |s.value.variants| > 1) then None else s
  }

  method SelectRunRecords(rows: seq<Record>, variant: Option<string>, dedup: Dedup) returns (result: Option<Selection>)
    ensures result == Selected(rows, variant, dedup)
  {
    hide SelectedUpTo;
    var order, table, duplicates, variants := [], map[], 0, {};
    var i := 0;
    SelectedNone(rows, variant, dedup);
    while i < |rows|
      invariant 0 <= i <= |rows|
      invariant SelectedUpTo(rows, i, variant, dedup) == Some(Selection(order, table, duplicates, variants))
    {
      var row := rows[i];
      i := i + 1;
      SelectedStep(rows, i, variant, dedup);
      if variant.Some? && row.variant != Text(variant.value) { continue; }
      if !WellTyped(row) { StaysNone(rows, i, |rows|, variant, dedup); return None; }
      variants := variants + {row.variant};
      if row.qid.text in table {
        duplicates := duplicates + 1;
        if dedup == Error { StaysNone(rows, i, |rows|, variant, dedup); return None; }
        if dedup == First { continue; }
      } else {
        order := order + [row.qid.text];
      }
      table := table[row.qid.text := row];
    }
    if variant.None? && |variants| > 1 { return None; }
    return Some(Selection(order, table, duplicates, variants));
  }

  lemma SelectedNone(rows: seq<Record>, variant: Option<string>, dedup: Dedup)
    ensures SelectedUpTo(rows, 0, variant, dedup) == Some(NOTHING)
  {
  }

  lemma SelectedStep(rows: seq<Record>, n: nat, variant: Option<string>, dedup: Dedup)
    requires 0 < n <= |rows| && SelectedUpTo(rows, n - 1, variant, dedup).Some?
    ensures
      var before := SelectedUpTo(rows, n - 1, variant, dedup);
      SelectedUpTo(rows, n, variant, dedup) == if Kept(rows[n - 1], variant) then Entered(before.value, rows[n - 1], dedup) else before
  {
  }

  lemma {:induction false} StaysNone(rows: seq<Record>, i: nat, n: nat, variant: Option<string>, dedup: Dedup)
    requires i <= n <= |rows| && SelectedUpTo(rows, i, variant, dedup).None?
    ensures SelectedUpTo(rows, n, variant, dedup).None?
  {
    if i < n {
      StaysNone(rows, i, n - 1, variant, dedup);
    }
  }

  /** Row k passes the filter and is about this question. */
  predicate About(rows: seq<Record>, k: nat, variant: Option<string>, id: string) {
    k < |rows| && Kept(rows[k], variant) && rows[k].qid == Text(id)
  }

  /** Row k is the one that the policy keeps of the first n rows: the first about its question, or the last; under the
      error policy, the only one. */
  ghost predicate Chosen(rows: seq<Record>, n: nat, variant: Option<string>, dedup: Dedup, id: string, k: nat) {
    && k < n && About(rows, k, variant, id)
    && forall j: nat :: j < n && About(rows, j, variant, id) ==>
         match dedup case Error => j == k case First => k <= j case Last => j <= k
  }

  /** What the loop has selected: an entry for each question met, once, holding the row that the policy keeps. */
  ghost predicate Means(rows: seq<Record>, n: nat, variant: Option<string>, dedup: Dedup, s: Selection, at: map<string, nat>) {
    && Tidy(s) && at.Keys == s.table.Keys
    && (forall id :: id in at ==> Chosen(rows, n, variant, dedup, id, at[id]))
    && (forall id :: id in at ==> at[id] < |rows| && s.table[id] == rows[at[id]])
    && (forall k: nat, id :: k < n && About(rows, k, variant, id) ==> id in at)
  }

  /** The keys are listed once each, and every record's variant has been noted. */
  ghost predicate Tidy(s: Selection) {
    && Distinct(s.order) && (forall id :: id in s.order <==> id in s.table)
    && (forall id :: id in s.table ==> s.table[id].variant in s.variants)
  }

  lemma {:induction false} SelectionMeans(rows: seq<Record>, n: nat, variant: Option<string>, dedup: Dedup) returns (at: map<string, nat>)
    requires n <= |rows| && SelectedUpTo(rows, n, variant, dedup).Some?
    ensures Means(rows, n, variant, dedup, SelectedUpTo(rows, n, variant, dedup).value, at)
  {
    if n == 0 {
      at := map[];
    } else {
      at := SelectionMeans(rows, n - 1, variant, dedup);
      var before := SelectedUpTo(rows, n - 1, variant, dedup).value;
      var r := rows[n - 1];
      if Kept(r, variant) {
        var id := r.qid.text;
        EnteredMeans(rows, n - 1, variant, dedup, before, at);
        at := if id !in at || dedup == Last then at[id := n - 1] else at;
      } else {
        OtherRow(rows, n - 1, variant, dedup, before, at);
      }
    }
  }

  lemma OtherRow(rows: seq<Record>, n: nat, variant: Option<string>, dedup: Dedup, s: Selection, at: map<string, nat>)
    requires n < |rows| && Means(rows, n, variant, dedup, s, at) && !Kept(rows[n], variant)
    ensures Means(rows, n + 1, variant, dedup, s, at)
  {
    forall id | id in at ensures Chosen(rows, n + 1, variant, dedup, id, at[id]) {
      assert Chosen(rows, n, variant, dedup, id, at[id]);
    }
  }

  lemma EnteredMeans(rows: seq<Record>, n: nat, variant: Option<string>, dedup: Dedup, s: Selection, at: map<string, nat>)
    requires n < |rows| && Means(rows, n, variant, dedup, s, at) && Kept(rows[n], variant)
    requires Entered(s, rows[n], dedup).Some?
    ensures
      var id := rows[n].qid.text;
      Means(rows, n + 1, variant, dedup, Entered(s, rows[n], dedup).value, if id !in at || dedup == Last then at[id := n] else at)
  {
    hide Entered, Chosen, Tidy, Kept;
    EnteredTable(s, rows[n], dedup);
    var id := rows[n].qid.text;
    var t, to := Entered(s, rows[n], dedup).value, if id !in at || dedup == Last then at[id := n] else at;
    forall other | other in to ensures Chosen(rows, n + 1, variant, dedup, other, to[other]) {
      ChosenStep(rows, n, variant, dedup, s, at, other);
    }
    EntersTidily(s, rows[n], dedup);
    assert t.table.Keys == to.Keys;
  }

  /** Which row the dictionary then holds for each question. */
  lemma EnteredTable(s: Selection, r: Record, dedup: Dedup)
    requires Entered(s, r, dedup).Some?
    ensures
      var t := Entered(s, r, dedup).value;
      && r.qid.Text?
      && var id := r.qid.text;
      && t.variants == s.variants + {r.variant}
      && t.table == if id !in s.table || dedup == Last then s.table[id := r] else s.table
  {
  }

  lemma ChosenStep(rows: seq<Record>, n: nat, variant: Option<string>, dedup: Dedup, s: Selection, at: map<string, nat>, other: string)
    requires n < |rows| && Means(rows, n, variant, dedup, s, at) && Kept(rows[n], variant)
    requires Entered(s, rows[n], dedup).Some?
    requires other in at || other == rows[n].qid.text
    ensures
      var id := rows[n].qid.text;
      Chosen(rows, n + 1, variant, dedup, other, if other == id && (id !in at || dedup == Last) then n else at[other])
  {
    if other in at { assert Chosen(rows, n, variant, dedup, other, at[other]); }
  }

  lemma EntersTidily(s: Selection, r: Record, dedup: Dedup)
    requires Tidy(s) && Entered(s, r, dedup).Some?
    ensures Tidy(Entered(s, r, dedup).value)
  {
    assert forall i :: 0 <= i < |s.order| ==> s.order[i] in s.order;
  }

  /** The dictionary keeps its keys in the order of first appearance, also where a later row replaces a value. */
  lemma {:induction false} OrderIsFirstAppearance(rows: seq<Record>, n: nat, variant: Option<string>, dedup: Dedup, i: nat, j: nat, k: nat)
    returns (m: nat)
    requires n <= |rows| && SelectedUpTo(rows, n, variant, dedup).Some?
    requires
      var order := SelectedUpTo(rows, n, variant, dedup).value.order;
      i < j < |order| && k < n && About(rows, k, variant, order[j])
    ensures m < k && About(rows, m, variant, SelectedUpTo(rows, n, variant, dedup).value.order[i])
  {
    hide *;
    OrderGrows(rows, n, variant, dedup);
    var before := SelectedUpTo(rows, n - 1, variant, dedup).value;
    var order := SelectedUpTo(rows, n, variant, dedup).value.order;
    assert before.order[i] == order[i];
    if j < |before.order| && k < n - 1 {
      m := OrderIsFirstAppearance(rows, n - 1, variant, dedup, i, j, k);
    } else {
      m := KeyHasRow(rows, n - 1, variant, dedup, i);
    }
  }

  lemma KeyHasRow(rows: seq<Record>, n: nat, variant: Option<string>, dedup: Dedup, i: nat) returns (m: nat)
    requires n <= |rows| && SelectedUpTo(rows, n, variant, dedup).Some?
    requires i < |SelectedUpTo(rows, n, variant, dedup).value.order|
    ensures m < n && About(rows, m, variant, SelectedUpTo(rows, n, variant, dedup).value.order[i])
  {
    var at := SelectionMeans(rows, n, variant, dedup);
    var order := SelectedUpTo(rows, n, variant, dedup).value.order;
    assert order[i] in order;
    m := at[order[i]];
    assert Chosen(rows, n, variant, dedup, order[i], m);
  }

  /** A row adds at most one key, at the end, and only the key of a question not met before. */
  lemma OrderGrows(rows: seq<Record>, n: nat, variant: Option<string>, dedup: Dedup)
    requires 0 < n <= |rows| && SelectedUpTo(rows, n, variant, dedup).Some?
    ensures
      var before, after := SelectedUpTo(rows, n - 1, variant, dedup), SelectedUpTo(rows, n, variant, dedup).value;
      && before.Some? && before.value.order <= after.order && |after.order| <= |before.value.order| + 1
      && (|before.value.order| < |after.order| ==>
            forall k: nat :: k < n - 1 ==> !About(rows, k, variant, after.order[|before.value.order|]))
  {
    var at := SelectionMeans(rows, n - 1, variant, dedup);
  }

  // ---------------------------------------------------------------- when the selection fails

  /** A row that the loop refuses: its question id is no non-empty text, or its variant or answer is neither text nor null. */
  predicate Refused(r: Record) {
    r.qid == Text("") || !r.qid.Text? || r.variant.Other? || r.answer.Other?
  }

  /** Row k passes the filter and is refused. */
  predicate RefusedAt(rows: seq<Record>, variant: Option<string>, k: nat) {
    k < |rows| && Kept(rows[k], variant) && Refused(rows[k])
  }

  /** Rows j and k pass the filter and are about the same question. */
  predicate RepeatAt(rows: seq<Record>, variant: Option<string>, j: nat, k: nat) {
    j < k < |rows| && Kept(rows[j], variant) && Kept(rows[k], variant) && rows[j].qid == rows[k].qid
  }

  /** The variants noted are those of the rows that passed. */
  lemma {:induction false} VariantsNoted(rows: seq<Record>, n: nat, variant: Option<string>, dedup: Dedup)
    requires n <= |rows| && SelectedUpTo(rows, n, variant, dedup).Some?
    ensures
      var s := SelectedUpTo(rows, n, variant, dedup).value;
      forall v :: v in s.variants <==> exists k: nat :: k < n && Kept(rows[k], variant) && rows[k].variant == v
  {
    hide Entered, Kept;
    if n > 0 {
      VariantsNoted(rows, n - 1, variant, dedup);
      var before := SelectedUpTo(rows, n - 1, variant, dedup).value;
      if Kept(rows[n - 1], variant) { EnteredTable(before, rows[n - 1], dedup); }
    }
  }

  lemma EnteredCounts(s: Selection, r: Record, dedup: Dedup)
    requires Entered(s, r, dedup).Some?
    ensures var t := Entered(s, r, dedup).value; |t.order| + t.duplicates == |s.order| + s.duplicates + 1
  {
  }

  function Passes(variant: Option<string>): Record -> bool { (r: Record) => Kept(r, variant) }

  /** Every row that passed has given a key or counts as a duplicate. */
  lemma {:induction false} DuplicatesCounted(rows: seq<Record>, n: nat, variant: Option<string>, dedup: Dedup)
    requires n <= |rows| && SelectedUpTo(rows, n, variant, dedup).Some?
    ensures
      var s := SelectedUpTo(rows, n, variant, dedup).value; |s.order| + s.duplicates == Count(rows[..n], Passes(variant))
  {
    if n > 0 {
      hide Entered, Kept, SumBy;
      DuplicatesCounted(rows, n - 1, variant, dedup);
      var before := SelectedUpTo(rows, n - 1, variant, dedup).value;
      if Kept(rows[n - 1], variant) { EnteredCounts(before, rows[n - 1], dedup); }
      assert rows[..n] == rows[..n - 1] + [rows[n - 1]];
      SumSplit(rows[..n - 1], [rows[n - 1]], Indicator(Passes(variant)));
      SumOfOne(rows[n - 1], Indicator(Passes(variant)));
    }
  }

  lemma SumOfOne<T>(x: T, f: T -> nat)
    ensures SumBy([x], f) == f(x)
  {
    assert [x][1..] == [];
  }

  lemma {:induction false} FailsUpToIff(rows: seq<Record>, n: nat, variant: Option<string>, dedup: Dedup)
    requires n <= |rows|
    ensures
      SelectedUpTo(rows, n, variant, dedup).None? <==>
        || (exists k: nat :: k < n && RefusedAt(rows, variant, k))
        || (dedup == Error && exists j: nat, k: nat :: k < n && RepeatAt(rows, variant, j, k))
  {
    if n > 0 {
      FailsUpToIff(rows, n - 1, variant, dedup);
      var before := SelectedUpTo(rows, n - 1, variant, dedup);
      var r := rows[n - 1];
      if before.Some? && Kept(r, variant) {
        if WellTyped(r) {
          RowRepeats(rows, n - 1, variant, dedup);
        } else {
          assert RefusedAt(rows, variant, n - 1);
        }
      }
    }
  }

  /** The next row finds its question in the dictionary exactly when it repeats an earlier row. */
  lemma RowRepeats(rows: seq<Record>, n: nat, variant: Option<string>, dedup: Dedup)
    requires n < |rows| && SelectedUpTo(rows, n, variant, dedup).Some? && Kept(rows[n], variant) && WellTyped(rows[n])
    ensures
      rows[n].qid.text in SelectedUpTo(rows, n, variant, dedup).value.table <==> exists j: nat :: RepeatAt(rows, variant, j, n)
  {
    var at := SelectionMeans(rows, n, variant, dedup);
    var id := rows[n].qid.text;
    if id in at {
      assert Chosen(rows, n, variant, dedup, id, at[id]);
      assert RepeatAt(rows, variant, at[id], n);
    }
    if j: nat :| RepeatAt(rows, variant, j, n) { assert About(rows, j, variant, id); }
  }

  /** The selection fails exactly when a row that passes the filter is refused, when two of them are about one question
      under the error policy, or when there are two variants and none was asked for. */
  lemma SelectionFailsIff(rows: seq<Record>, variant: Option<string>, dedup: Dedup)
    ensures
      Selected(rows, variant, dedup).None? <==>
        || (exists k: nat :: RefusedAt(rows, variant, k))
        || (dedup == Error && exists j: nat, k: nat :: RepeatAt(rows, variant, j, k))
        || (variant.None? && exists x, y :: x in rows && y in rows && x.variant != y.variant)
  {
    FailsUpToIff(rows, |rows|, variant, dedup);
    if SelectedUpTo(rows, |rows|, variant, dedup).Some? && variant.None? {
      VariantsNoted(rows, |rows|, variant, dedup);
      var vs := SelectedUpTo(rows, |rows|, variant, dedup).value.variants;
      hide SelectedUpTo;
      MoreThanOne(vs);
      forall x | x in rows ensures x.variant in vs {
        var k: nat :| k < |rows| && rows[k] == x;
        assert Kept(rows[k], variant);
      }
    }
  }

  lemma MoreThanOne(vs: set<Json>)
    ensures |vs| > 1 <==> exists a, b :: a in vs && b in vs && a != b
  {
    if |vs| > 1 {
      var a :| a in vs;
      assert |vs - {a}| > 0;
      var b :| b in vs - {a};
    }
    if a, b :| a in vs && b in vs && a != b { assert b in vs - {a} && vs == (vs - {a}) + {a}; }
  }

  /** A question has a record exactly when some row is about it and has the variant asked for, if one is; the record is
      such a row. */
  lemma SelectedFor(rows: seq<Record>, variant: Option<string>, dedup: Dedup, id: string)
    requires Selected(rows, variant, dedup).Some?
    ensures
      var table := Selected(rows, variant, dedup).value.table;
      && (id in table <==> exists r :: r in rows && r.qid == Text(id) && (variant == None || r.variant == Text(variant.value)))
      && (id in table ==> table[id] in rows && table[id].qid == Text(id) && (variant == None || table[id].variant == Text(variant.value)))
  {
    var at := SelectionMeans(rows, |rows|, variant, dedup);
    if id in at { assert Chosen(rows, |rows|, variant, dedup, id, at[id]); }
    if r :| r in rows && r.qid == Text(id) && (variant == None || r.variant == Text(variant.value)) {
      var k: nat :| k < |rows| && rows[k] == r;
      assert About(rows, k, variant, id);
    }
  }

  /** All records selected have one variant. */
  lemma OneVariant(rows: seq<Record>, variant: Option<string>, dedup: Dedup, a: string, b: string)
    requires Selected(rows, variant, dedup).Some?
    ensures
      var table := Selected(rows, variant, dedup).value.table;
      a in table && b in table ==> table[a].variant == table[b].variant
  {
    SelectedFor(rows, variant, dedup, a);
    SelectedFor(rows, variant, dedup, b);
    SelectionFailsIff(rows, variant, dedup);
  }
}
