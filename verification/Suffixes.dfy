/** The suffix lists of the stemmer as tables without an order. The stemmer searches its lists from the front; the published
    algorithm obeys, of the suffixes that a word ends in, the longest. For every word the two are the same. */
module Suffixes {
  import opened Sequences
  import opened Porter

  /** A word that ends in the later suffix ends in the earlier, shorter one too. */
  predicate Hides(earlier: string, later: string) {
    |earlier| < |later| && later[|later| - |earlier|..] == earlier
  }

  /** No rule is hidden behind one before it. */
  ghost predicate NoneHidden(rules: seq<Rule>) {
    forall j, i :: 0 <= j < i < |rules| ==> !Hides(rules[j].suffix, rules[i].suffix)
  }

  lemma BothEnd(word: string, a: string, b: string)
    requires EndsWith(word, a) && EndsWith(word, b) && |a| <= |b|
    ensures a == b || Hides(a, b)
  {
    assert word[|word| - |b|..][|b| - |a|..] == word[|word| - |a|..];
  }

  lemma FirstFitting(word: string, rules: seq<Rule>) returns (i: nat)
    ensures i <= |rules| && (forall j :: 0 <= j < i ==> Fits(word, rules[j]) == None)
    ensures i < |rules| ==> Fits(word, rules[i]).Some?
  {
    i := 0;
    while i < |rules| && Fits(word, rules[i]) == None
      invariant i <= |rules| && forall j :: 0 <= j < i ==> Fits(word, rules[j]) == None
    {
      i := i + 1;
    }
  }

  lemma SuffixFits(word: string, r: Rule)
    requires r.suffix != "*d"
    ensures Fits(word, r) == if EndsWith(word, r.suffix) then Some(|r.suffix|) else None
  {
  }

  lemma NothingFits(word: string, rules: seq<Rule>)
    requires forall i :: 0 <= i < |rules| ==> rules[i].suffix != "*d"
    ensures (forall i :: 0 <= i < |rules| ==> !EndsWith(word, rules[i].suffix)) ==> ApplyRules(word, rules) == word
  {
    hide ApplyRules, Fits, EndsWith;
    var i := FirstFitting(word, rules);
    FirstRuleDecides(word, rules, i);
    if i < |rules| { SuffixFits(word, rules[i]); }
  }

  /** Of the suffixes that a word ends in the longest decides, as the published algorithm has it, although the list is
      searched from the front. */
  lemma LongestDecides(word: string, rules: seq<Rule>, i: nat)
    requires NoneHidden(rules) && i < |rules| && EndsWith(word, rules[i].suffix)
    requires forall j :: 0 <= j < |rules| ==> rules[j].suffix != "*d" && (rules[j].suffix == rules[i].suffix ==> j == i)
    requires forall j :: 0 <= j < |rules| && EndsWith(word, rules[j].suffix) ==> |rules[j].suffix| <= |rules[i].suffix|
    ensures
      |rules[i].suffix| <= |word| && ApplyRules(word, rules) ==
        var stem := word[..|word| - |rules[i].suffix|]; if Holds(rules[i].condition, stem, word) then stem + rules[i].replacement else word
  {
    hide ApplyRules, Fits, EndsWith, Holds, Hides;
    var k := FirstFitting(word, rules);
    FirstRuleDecides(word, rules, k);
    SuffixFits(word, rules[i]);
    SuffixFits(word, rules[k]);
    BothEnd(word, rules[k].suffix, rules[i].suffix);
  }

  /** The word ends in this suffix of the table, and in no longer one. */
  ghost predicate Longest(word: string, table: string -> Option<string>, k: string) {
    table(k).Some? && EndsWith(word, k) && forall l :: table(l).Some? && EndsWith(word, l) ==> |l| <= |k|
  }

  /** The rules are those of the table, whose order does not matter; `place` finds them. */
  ghost predicate Tabulates(rules: seq<Rule>, table: string -> Option<string>, place: string -> nat) {
    && NoneHidden(rules)
    && (forall i :: 0 <= i < |rules| ==>
          table(rules[i].suffix) == Some(rules[i].replacement) && rules[i].suffix != "*d" && place(rules[i].suffix) == i)
    && (forall k :: table(k).Some? ==> place(k) < |rules| && rules[place(k)].suffix == k)
  }

  lemma TablePlace(word: string, rules: seq<Rule>, table: string -> Option<string>, place: string -> nat, k: string)
    requires Tabulates(rules, table, place) && Longest(word, table, k)
    ensures place(k) < |rules| && rules[place(k)].suffix == k && |k| <= |word|
  {
  }

  lemma TableDecides(word: string, rules: seq<Rule>, table: string -> Option<string>, place: string -> nat, k: string)
    requires Tabulates(rules, table, place)
    ensures (forall l :: table(l).Some? ==> !EndsWith(word, l)) ==> ApplyRules(word, rules) == word
    ensures
      Longest(word, table, k) ==>
        && place(k) < |rules| && |k| <= |word|
        && ApplyRules(word, rules) ==
             var stem := word[..|word| - |k|]; if Holds(rules[place(k)].condition, stem, word) then stem + table(k).value else word
  {
    hide ApplyRules, NoneHidden, Holds;
    NothingFits(word, rules);
    if Longest(word, table, k) { LongestDecides(word, rules, place(k)); }
  }

  lemma LastDiffers(a: string, b: string)
    requires |a| > 0 && |b| > 0 && a[|a| - 1] != b[|b| - 1]
    ensures !Hides(a, b)
  {
    var n := |b| - |a|;
    assert n >= 0 ==> b[n..][|a| - 1] == b[|b| - 1];
  }

  lemma MeasureNeedsLetters(stem: string)
    ensures Measure(stem) > 0 ==> |stem| > 0
  {
  }

  // ---------------------------------------------------------------- step 3

  function Table3(k: string): Option<string> {
    match k
    case "icate" => Some("ic")
    case "ative" => Some("")
    case "alize" => Some("al")
    case "iciti" => Some("ic")
    case "ical" => Some("ic")
    case "ful" => Some("")
    case "ness" => Some("")
    case _ => None
  }

  function Place3(k: string): nat {
    match k
    case "icate" => 0
    case "ative" => 1
    case "alize" => 2
    case "iciti" => 3
    case "ical" => 4
    case "ful" => 5
    case "ness" => 6
    case _ => 7
  }

  lemma NoneHidden3()
    ensures NoneHidden(STEP3)
  {
    forall j, i | 0 <= j < i < |STEP3| ensures !Hides(STEP3[j].suffix, STEP3[i].suffix) {
      var a, b := STEP3[j].suffix, STEP3[i].suffix;
      if |a| < |b| && a[|a| - 1] != b[|b| - 1] { LastDiffers(a, b); }
    }
  }

  lemma Rows3(i: nat)
    requires i < |STEP3|
    ensures Table3(STEP3[i].suffix) == Some(STEP3[i].replacement) && STEP3[i].suffix != "*d"
    ensures Place3(STEP3[i].suffix) == i
    ensures STEP3[i].condition == Positive
  {
  }

  lemma RowOf3(k: string)
    requires Table3(k).Some?
    ensures Place3(k) < |STEP3| && STEP3[Place3(k)].suffix == k
  {
  }

  lemma Tabulated3()
    ensures Tabulates(STEP3, Table3, Place3)
  {
    hide NoneHidden, Table3, Place3;
    NoneHidden3();
    forall i | 0 <= i < |STEP3|
      ensures Table3(STEP3[i].suffix) == Some(STEP3[i].replacement) && STEP3[i].suffix != "*d" && Place3(STEP3[i].suffix) == i
    {
      Rows3(i);
    }
    forall k | Table3(k).Some? ensures Place3(k) < |STEP3| && STEP3[Place3(k)].suffix == k { RowOf3(k); }
  }

  lemma Condition3(word: string, k: string)
    requires |k| <= |word|
    ensures var stem := word[..|word| - |k|]; Holds(Positive, stem, word) <==> Measure(stem) > 0
  {
    hide Measure;
  }

  /** Step 3: the longest suffix in the table goes, or is replaced, where the stem has a positive measure. */
  lemma Step3Is(word: string, k: string)
    ensures (forall l :: Table3(l).Some? ==> !EndsWith(word, l)) ==> ApplyRules(word, STEP3) == word
    ensures
      Longest(word, Table3, k) ==>
        ApplyRules(word, STEP3) == var stem := word[..|word| - |k|]; if Measure(stem) > 0 then stem + Table3(k).value else word
  {
    hide ApplyRules, Tabulates, Table3, Place3, Longest, EndsWith, Holds, Measure;
    Tabulated3();
    TableDecides(word, STEP3, Table3, Place3, k);
    if Longest(word, Table3, k) {
      TablePlace(word, STEP3, Table3, Place3, k);
      Rows3(Place3(k));
      Condition3(word, k);
    }
  }

  // ---------------------------------------------------------------- step 4

  function Table4(k: string): Option<string> {
    match k
    case "al" => Some("")
    case "ance" => Some("")
    case "ence" => Some("")
    case "er" => Some("")
    case "ic" => Some("")
    case "able" => Some("")
    case "ible" => Some("")
    case "ant" => Some("")
    case "ement" => Some("")
    case "ment" => Some("")
    case "ent" => Some("")
    case "ion" => Some("")
    case "ou" => Some("")
    case "ism" => Some("")
    case "ate" => Some("")
    case "iti" => Some("")
    case "ous" => Some("")
    case "ive" => Some("")
    case "ize" => Some("")
    case _ => None
  }

  function Place4(k: string): nat {
    match k
    case "al" => 0
    case "ance" => 1
    case "ence" => 2
    case "er" => 3
    case "ic" => 4
    case "able" => 5
    case "ible" => 6
    case "ant" => 7
    case "ement" => 8
    case "ment" => 9
    case "ent" => 10
    case "ion" => 11
    case "ou" => 12
    case "ism" => 13
    case "ate" => 14
    case "iti" => 15
    case "ous" => 16
    case "ive" => 17
    case "ize" => 18
    case _ => 19
  }

  lemma NoneHidden4Front(j: nat, i: nat)
    requires j < i < 12
    ensures !Hides(STEP4[j].suffix, STEP4[i].suffix)
  {
    var a, b := STEP4[j].suffix, STEP4[i].suffix;
    if |a| < |b| && a[|a| - 1] != b[|b| - 1] { LastDiffers(a, b); }
  }

  lemma NoneHidden4Back(j: nat, i: nat)
    requires j < i && 12 <= i < 19
    ensures !Hides(STEP4[j].suffix, STEP4[i].suffix)
  {
    var a, b := STEP4[j].suffix, STEP4[i].suffix;
    if |a| < |b| && a[|a| - 1] != b[|b| - 1] { LastDiffers(a, b); }
  }

  lemma NoneHidden4()
    ensures NoneHidden(STEP4)
  {
    hide Hides;
    forall j, i | 0 <= j < i < |STEP4| ensures !Hides(STEP4[j].suffix, STEP4[i].suffix) {
      if i < 12 { NoneHidden4Front(j, i); } else { NoneHidden4Back(j, i); }
    }
  }

  lemma Rows4(i: nat)
    requires i < |STEP4|
    ensures Table4(STEP4[i].suffix) == Some(STEP4[i].replacement) && STEP4[i].suffix != "*d"
    ensures Place4(STEP4[i].suffix) == i
    ensures STEP4[i].condition == if STEP4[i].suffix == "ion" then IonCondition else AboveOne
  {
  }

  lemma RowOf4(k: string)
    requires Table4(k).Some?
    ensures Place4(k) < |STEP4| && STEP4[Place4(k)].suffix == k
  {
  }

  lemma Tabulated4()
    ensures Tabulates(STEP4, Table4, Place4)
  {
    hide NoneHidden, Table4, Place4;
    NoneHidden4();
    forall i | 0 <= i < |STEP4|
      ensures Table4(STEP4[i].suffix) == Some(STEP4[i].replacement) && STEP4[i].suffix != "*d" && Place4(STEP4[i].suffix) == i
    {
      Rows4(i);
    }
    forall k | Table4(k).Some? ensures Place4(k) < |STEP4| && STEP4[Place4(k)].suffix == k { RowOf4(k); }
  }

  lemma Condition4(word: string, k: string)
    requires |k| <= |word|
    ensures
      var stem := word[..|word| - |k|];
      Holds(if k == "ion" then IonCondition else AboveOne, stem, word)
      <==> Measure(stem) > 1 && (k == "ion" ==> |stem| > 0 && stem[|stem| - 1] in "st")
  {
    hide Measure;
    MeasureNeedsLetters(word[..|word| - |k|]);
  }

  /** Step 4: the longest suffix in the table goes where the stem has a measure above one, and for ion ends in s or t. */
  lemma Step4Is(word: string, k: string)
    ensures (forall l :: Table4(l).Some? ==> !EndsWith(word, l)) ==> ApplyRules(word, STEP4) == word
    ensures
      Longest(word, Table4, k) ==>
        ApplyRules(word, STEP4) ==
          var stem := word[..|word| - |k|];
          if Measure(stem) > 1 && (k == "ion" ==> |stem| > 0 && stem[|stem| - 1] in "st") then stem + Table4(k).value else word
  {
    hide ApplyRules, Tabulates, Table4, Place4, Longest, EndsWith, Holds, Measure;
    Tabulated4();
    TableDecides(word, STEP4, Table4, Place4, k);
    if Longest(word, Table4, k) {
      TablePlace(word, STEP4, Table4, Place4, k);
      Rows4(Place4(k));
      Condition4(word, k);
    }
  }

  // ---------------------------------------------------------------- step 2

  function Table2(k: string): Option<string> {
    match k
    case "ational" => Some("ate")
    case "tional" => Some("tion")
    case "enci" => Some("ence")
    case "anci" => Some("ance")
    case "izer" => Some("ize")
    case "bli" => Some("ble")
    case "alli" => Some("al")
    case "entli" => Some("ent")
    case "eli" => Some("e")
    case "ousli" => Some("ous")
    case "ization" => Some("ize")
    case "ation" => Some("ate")
    case "ator" => Some("ate")
    case "alism" => Some("al")
    case "iveness" => Some("ive")
    case "fulness" => Some("ful")
    case "ousness" => Some("ous")
    case "aliti" => Some("al")
    case "iviti" => Some("ive")
    case "biliti" => Some("ble")
    case "fulli" => Some("ful")
    case "logi" => Some("log")
    case _ => None
  }

  function Place2(k: string): nat {
    match k
    case "ational" => 0
    case "tional" => 1
    case "enci" => 2
    case "anci" => 3
    case "izer" => 4
    case "bli" => 5
    case "alli" => 6
    case "entli" => 7
    case "eli" => 8
    case "ousli" => 9
    case "ization" => 10
    case "ation" => 11
    case "ator" => 12
    case "alism" => 13
    case "iveness" => 14
    case "fulness" => 15
    case "ousness" => 16
    case "aliti" => 17
    case "iviti" => 18
    case "biliti" => 19
    case "fulli" => 20
    case "logi" => 21
    case _ => 22
  }

  lemma EarlierHidesNone(j: nat, i: nat)
    requires j < i < 10
    ensures !Hides(STEP2_EARLIER[j].suffix, STEP2_EARLIER[i].suffix)
  {
    var a, b := STEP2_EARLIER[j].suffix, STEP2_EARLIER[i].suffix;
    if |a| < |b| && a[|a| - 1] != b[|b| - 1] { LastDiffers(a, b); }
  }

  lemma LaterHidesNone(j: nat, i: nat)
    requires j < i < 12
    ensures !Hides(STEP2_LATER[j].suffix, STEP2_LATER[i].suffix)
  {
    var a, b := STEP2_LATER[j].suffix, STEP2_LATER[i].suffix;
    if |a| < |b| && a[|a| - 1] != b[|b| - 1] { LastDiffers(a, b); }
  }

  lemma FrontHidesNoLater(j: nat, i: nat)
    requires j < 5 && i < 12
    ensures !Hides(STEP2_EARLIER[j].suffix, STEP2_LATER[i].suffix)
  {
    var a, b := STEP2_EARLIER[j].suffix, STEP2_LATER[i].suffix;
    if |a| < |b| && a[|a| - 1] != b[|b| - 1] { LastDiffers(a, b); }
  }

  lemma BackHidesNoLater(j: nat, i: nat)
    requires 5 <= j < 10 && i < 12
    ensures !Hides(STEP2_EARLIER[j].suffix, STEP2_LATER[i].suffix)
  {
    var a, b := STEP2_EARLIER[j].suffix, STEP2_LATER[i].suffix;
    if |a| < |b| && a[|a| - 1] != b[|b| - 1] { LastDiffers(a, b); }
  }

  lemma Step2At(i: nat)
    requires i < 22
    ensures |STEP2| == 22 && STEP2[i] == if i < 10 then STEP2_EARLIER[i] else STEP2_LATER[i - 10]
  {
  }

  lemma NoneHidden2()
    ensures NoneHidden(STEP2)
  {
    hide Hides;
    forall j, i | 0 <= j < i < |STEP2| ensures !Hides(STEP2[j].suffix, STEP2[i].suffix) {
      Step2At(j);
      Step2At(i);
      if i < 10 {
        EarlierHidesNone(j, i);
      } else if j < 5 {
        FrontHidesNoLater(j, i - 10);
      } else if j < 10 {
        BackHidesNoLater(j, i - 10);
      } else {
        LaterHidesNone(j - 10, i - 10);
      }
    }
  }

  lemma RowsEarlier(i: nat)
    requires i < 10
    ensures var r := STEP2_EARLIER[i]; Table2(r.suffix) == Some(r.replacement) && r.suffix != "*d" && Place2(r.suffix) == i
    ensures STEP2_EARLIER[i].condition == Positive && STEP2_EARLIER[i].suffix != "logi"
  {
  }

  lemma RowsLater(i: nat)
    requires i < 12
    ensures var r := STEP2_LATER[i]; Table2(r.suffix) == Some(r.replacement) && r.suffix != "*d" && Place2(r.suffix) == i + 10
    ensures STEP2_LATER[i].condition == if STEP2_LATER[i].suffix == "logi" then LogiCondition else Positive
  {
  }

  lemma Rows2(i: nat)
    requires i < |STEP2|
    ensures Table2(STEP2[i].suffix) == Some(STEP2[i].replacement) && STEP2[i].suffix != "*d"
    ensures Place2(STEP2[i].suffix) == i
    ensures STEP2[i].condition == if STEP2[i].suffix == "logi" then LogiCondition else Positive
  {
    hide Table2, Place2;
    Step2At(i);
    if i < 10 { RowsEarlier(i); } else { RowsLater(i - 10); }
  }

  lemma RowOf2(k: string)
    requires Table2(k).Some?
    ensures Place2(k) < |STEP2| && STEP2[Place2(k)].suffix == k
  {
  }

  lemma Tabulated2()
    ensures Tabulates(STEP2, Table2, Place2)
  {
    hide NoneHidden, Table2, Place2;
    NoneHidden2();
    forall i | 0 <= i < |STEP2|
      ensures Table2(STEP2[i].suffix) == Some(STEP2[i].replacement) && STEP2[i].suffix != "*d" && Place2(STEP2[i].suffix) == i
    {
      Rows2(i);
    }
    forall k | Table2(k).Some? ensures Place2(k) < |STEP2| && STEP2[Place2(k)].suffix == k { RowOf2(k); }
  }

  lemma Condition2(word: string, k: string)
    requires |k| <= |word|
    ensures
      var stem := word[..|word| - |k|];
      Holds(if k == "logi" then LogiCondition else Positive, stem, word)
      <==> Measure(if k == "logi" then word[..|word| - 3] else stem) > 0
  {
    hide Measure;
    if k == "logi" { assert |k| == 4; }
  }

  /** Step 2, once no more alli goes: the longest suffix in the table is replaced where the stem has a positive measure; for
      logi the stem counts with its l. */
  lemma Step2Is(word: string, k: string)
    ensures (forall l :: Table2(l).Some? ==> !EndsWith(word, l)) ==> ApplyRules(word, STEP2) == word
    ensures
      Longest(word, Table2, k) ==>
        ApplyRules(word, STEP2) ==
          var stem := word[..|word| - |k|];
          if Measure(if k == "logi" then word[..|word| - 3] else stem) > 0 then stem + Table2(k).value else word
  {
    hide ApplyRules, Tabulates, Table2, Place2, Longest, EndsWith, Holds, Measure;
    Tabulated2();
    TableDecides(word, STEP2, Table2, Place2, k);
    if Longest(word, Table2, k) {
      TablePlace(word, STEP2, Table2, Place2, k);
      Rows2(Place2(k));
      Condition2(word, k);
    }
  }
}
