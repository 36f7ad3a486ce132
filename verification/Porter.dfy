/** The Porter stemmer in its default (NLTK extensions) mode, on words already in lower case. */
module Porter {
  import opened Sequences

  // ---------------------------------------------------------------- consonants and measure

  predicate IsVowel(c: char) {
    c == 'a' || c == 'e' || c == 'i' || c == 'o' || c == 'u'
  }

  /** Whether the last letter of the word is a consonant: a y is one exactly when it does not follow one. */
  predicate LastIsConsonant(word: string)
    requires |word| > 0
  {
    var c := word[|word| - 1];
    if IsVowel(c) then false
    else if c == 'y' then |word| == 1 || !LastIsConsonant(word[..|word| - 1])
    else true
  }

  predicate Consonant(word: string, i: nat)
    requires i < |word|
  {
    LastIsConsonant(word[..i + 1])
  }

  /** The backward scan: a run of y's is crossed and its parity counted. */
  method IsConsonant(word: string, at: nat) returns (r: bool)
    requires at < |word|
    ensures r == Consonant(word, at)
  {
    if IsVowel(word[at]) {
      return false;
    }
    if word[at] == 'y' {
      var i, negate := at, false;
      while i > 0 && word[i] == 'y'
        invariant 0 <= i <= at
        invariant Consonant(word, at) == (Consonant(word, i) != negate)
      {
        assert word[..i + 1][..i] == word[..i];
        negate := !negate;
        i := i - 1;
      }
      return !IsVowel(word[i]) != negate;
    }
    return true;
  }

  /** The forward pass that builds one flag per letter. */
  method ConsonantFlags(word: string) returns (flags: seq<bool>)
    ensures |flags| == |word|
    ensures forall i :: 0 <= i < |word| ==> flags[i] == Consonant(word, i)
  {
    flags := [];
    for i := 0 to |word|
      invariant |flags| == i
      invariant forall j :: 0 <= j < i ==> flags[j] == Consonant(word, j)
    {
      assert word[..i + 1][..i] == word[..i];
      if IsVowel(word[i]) {
        flags := flags + [false];
      } else if word[i] == 'y' {
        flags := flags + [if i == 0 then true else !flags[i - 1]];
      } else {
        flags := flags + [true];
      }
    }
  }

  /** Number of vowel-consonant boundaries. */
  function Measure(word: string): nat {
    if |word| < 2 then 0
    else
      var front := word[..|word| - 1];
      Measure(front) + (if !LastIsConsonant(front) && LastIsConsonant(word) then 1 else 0)
  }

  /** The count over the flags: non-overlapping occurrences of a vowel followed by a consonant. */
  method CountMeasure(word: string) returns (m: nat)
    ensures m == Measure(word)
  {
    var flags := ConsonantFlags(word);
    m := 0;
    var i := 0;
    while i + 1 < |flags|
      invariant 0 <= i <= |flags|
      invariant i + 1 <= |flags| ==> m == Measure(word[..i + 1])
      invariant i == |flags| ==> m == Measure(word)
    {
      if !flags[i] && flags[i + 1] {
        m := m + 1;
        assert word[..i + 2][..i + 1] == word[..i + 1];
        if i + 2 < |flags| {
          assert word[..i + 3][..i + 2] == word[..i + 2];
        } else {
          assert word[..i + 2] == word;
        }
        i := i + 2;
      } else {
        assert word[..i + 2][..i + 1] == word[..i + 1];
        i := i + 1;
      }
    }
    assert word[..|word|] == word;
  }

  /** A prefix never measures more than the whole word. */
  lemma {:induction false} MeasureOfPrefix(word: string, k: nat)
    requires k <= |word|
    ensures Measure(word[..k]) <= Measure(word)
  {
    if k < |word| {
      MeasureOfPrefix(word[..|word| - 1], k);
      assert word[..|word| - 1][..k] == word[..k];
    } else {
      assert word[..k] == word;
    }
  }

  lemma MeasurePositive(word: string)
    requires Measure(word) > 0
    ensures |word| >= 2
  {
  }

  predicate ContainsVowel(word: string) {
    exists i :: 0 <= i < |word| && !Consonant(word, i)
  }

  predicate EndsDoubleConsonant(word: string) {
    |word| >= 2 && word[|word| - 1] == word[|word| - 2] && LastIsConsonant(word)
  }

  predicate EndsCvc(word: string) {
    var n := |word|;
    || (n >= 3 && Consonant(word, n - 3) && !Consonant(word, n - 2) && Consonant(word, n - 1)
        && word[n - 1] !in "wxy")
    || (n == 2 && !Consonant(word, 0) && Consonant(word, 1))
  }

  // ---------------------------------------------------------------- rules

  /** The conditions the rule lists use. `Always` is a rule without condition. */
  datatype Condition =
    | Always
    | Positive             // measure of the stem above zero
    | AboveOne             // measure of the stem above one
    | IonCondition         // measure above one and the stem ends in s or t
    | AfterConsonant       // stem longer than one letter and ending in a consonant
    | UndoubleCondition    // the doubled letter is not l, s or z
    | ShortStem            // measure one and consonant-vowel-consonant ending
    | LogiCondition        // judged on the word less three letters, not on the stem
    | LlCondition          // judged on the word less one letter

  datatype Rule = Rule(suffix: string, replacement: string, condition: Condition)

  function Chop(word: string, n: nat): string
    requires n <= |word|
  {
    word[..|word| - n]
  }

  predicate Holds(c: Condition, stem: string, word: string) {
    match c
    case Always => true
    case Positive => Measure(stem) > 0
    case AboveOne => Measure(stem) > 1
    case IonCondition => Measure(stem) > 1 && (MeasurePositive(stem); stem[|stem| - 1] in "st")
    case AfterConsonant => |stem| > 1 && Consonant(stem, |stem| - 1)
    case UndoubleCondition => |word| > 0 && word[|word| - 1] !in "lsz"
    case ShortStem => Measure(stem) == 1 && EndsCvc(stem)
    case LogiCondition => |word| >= 3 && Measure(Chop(word, 3)) > 0
    case LlCondition => |word| >= 1 && Measure(Chop(word, 1)) > 1
  }

  /** The number of letters that the rule would take off, if it fits. */
  function Fits(word: string, r: Rule): (n: Option<nat>)
    ensures n.Some? ==> n.value <= |word|
  {
    if r.suffix == "*d" && EndsDoubleConsonant(word) then Some(2)
    else if EndsWith(word, r.suffix) then Some(|r.suffix|)
    else None
  }

  /** The first rule whose suffix fits decides, whether or not its condition holds. The suffix "*d"
      means a double consonant, and otherwise stands for itself. */
  function ApplyRules(word: string, rules: seq<Rule>): string {
    if |rules| == 0 then word
    else if Fits(word, rules[0]).None? then ApplyRules(word, rules[1..])
    else
      var stem := Chop(word, Fits(word, rules[0]).value);
      if Holds(rules[0].condition, stem, word) then stem + rules[0].replacement else word
  }

  /** Of a list of rules the first one that fits is applied if its condition holds, and no other; if none fits, or that
      condition fails, the word stays. */
  lemma {:induction false} FirstRuleDecides(word: string, rules: seq<Rule>, i: nat)
    requires i <= |rules| && forall j :: 0 <= j < i ==> Fits(word, rules[j]) == None
    ensures i == |rules| ==> ApplyRules(word, rules) == word
    ensures
      i < |rules| && Fits(word, rules[i]).Some? ==>
        var n := Fits(word, rules[i]).value;
        && n <= |word|
        && ApplyRules(word, rules) == if Holds(rules[i].condition, word[..|word| - n], word) then word[..|word| - n] + rules[i].replacement else word
  {
    if i > 0 {
      assert Fits(word, rules[0]) == None;
      forall j | 0 <= j < i - 1 ensures Fits(word, rules[1..][j]) == None { assert rules[1..][j] == rules[j + 1]; }
      FirstRuleDecides(word, rules[1..], i - 1);
    }
  }

  const STEP1A: seq<Rule> :=
    [Rule("sses", "ss", Always), Rule("ies", "i", Always), Rule("ss", "ss", Always), Rule("s", "", Always)]

  function Step1a(word: string): string {
    if EndsWith(word, "ies") && |word| == 4 then Chop(word, 3) + "ie" else ApplyRules(word, STEP1A)
  }

  function Step1bRules(last: char): seq<Rule> {
    [Rule("at", "ate", Always), Rule("bl", "ble", Always), Rule("iz", "ize", Always),
     Rule("*d", [last], UndoubleCondition), Rule("", "e", ShortStem)]
  }

  /** The rules look at the last letter of the stem, so there has to be one. */
  function Tidy(stem: string): string
    requires |stem| > 0
  {
    ApplyRules(stem, Step1bRules(stem[|stem| - 1]))
  }

  function Step1b(word: string): string {
    if EndsWith(word, "ied") then Chop(word, 3) + (if |word| == 4 then "ie" else "i")
    else if EndsWith(word, "eed") then (if Measure(Chop(word, 3)) > 0 then Chop(word, 3) + "ee" else word)
    else if EndsWith(word, "ed") && ContainsVowel(Chop(word, 2)) then Tidy(Chop(word, 2))
    else if EndsWith(word, "ing") && ContainsVowel(Chop(word, 3)) then Tidy(Chop(word, 3))
    else word
  }

  function Step1c(word: string): string {
    ApplyRules(word, [Rule("y", "i", AfterConsonant)])
  }

  const STEP2_EARLIER: seq<Rule> :=
    [Rule("ational", "ate", Positive), Rule("tional", "tion", Positive), Rule("enci", "ence", Positive),
     Rule("anci", "ance", Positive), Rule("izer", "ize", Positive), Rule("bli", "ble", Positive),
     Rule("alli", "al", Positive), Rule("entli", "ent", Positive), Rule("eli", "e", Positive),
     Rule("ousli", "ous", Positive)]

  const STEP2_LATER: seq<Rule> :=
    [Rule("ization", "ize", Positive), Rule("ation", "ate", Positive),
     Rule("ator", "ate", Positive), Rule("alism", "al", Positive), Rule("iveness", "ive", Positive),
     Rule("fulness", "ful", Positive), Rule("ousness", "ous", Positive), Rule("aliti", "al", Positive),
     Rule("iviti", "ive", Positive), Rule("biliti", "ble", Positive), Rule("fulli", "ful", Positive),
     Rule("logi", "log", LogiCondition)]

  const STEP2: seq<Rule> := STEP2_EARLIER + STEP2_LATER

  /** The recursive call works on a shorter word. */
  function Step2(word: string): string
    decreases |word|
  {
    if EndsWith(word, "alli") && Measure(Chop(word, 4)) > 0 then Step2(Chop(word, 4) + "al")
    else ApplyRules(word, STEP2)
  }

  const STEP3: seq<Rule> :=
    [Rule("icate", "ic", Positive), Rule("ative", "", Positive), Rule("alize", "al", Positive),
     Rule("iciti", "ic", Positive), Rule("ical", "ic", Positive), Rule("ful", "", Positive),
     Rule("ness", "", Positive)]

  const STEP4: seq<Rule> :=
    [Rule("al", "", AboveOne), Rule("ance", "", AboveOne), Rule("ence", "", AboveOne), Rule("er", "", AboveOne),
     Rule("ic", "", AboveOne), Rule("able", "", AboveOne), Rule("ible", "", AboveOne), Rule("ant", "", AboveOne),
     Rule("ement", "", AboveOne), Rule("ment", "", AboveOne), Rule("ent", "", AboveOne),
     Rule("ion", "", IonCondition), Rule("ou", "", AboveOne), Rule("ism", "", AboveOne),
     Rule("ate", "", AboveOne), Rule("iti", "", AboveOne), Rule("ous", "", AboveOne), Rule("ive", "", AboveOne),
     Rule("ize", "", AboveOne)]

  function Step5a(word: string): string {
    if EndsWith(word, "e") &&
       (var stem := Chop(word, 1); Measure(stem) > 1 || (Measure(stem) == 1 && !EndsCvc(stem)))
    then Chop(word, 1) else word
  }

  const STEP5B: seq<Rule> := [Rule("ll", "l", LlCondition)]

  /** The irregular forms. */
  function Pool(word: string): Option<string> {
    match word
    case "sky" => Some("sky")
    case "skies" => Some("sky")
    case "dying" => Some("die")
    case "lying" => Some("lie")
    case "tying" => Some("tie")
    case "news" => Some("news")
    case "innings" => Some("inning")
    case "inning" => Some("inning")
    case "outings" => Some("outing")
    case "outing" => Some("outing")
    case "cannings" => Some("canning")
    case "canning" => Some("canning")
    case "howe" => Some("howe")
    case "proceed" => Some("proceed")
    case "exceed" => Some("exceed")
    case "succeed" => Some("succeed")
    case _ => None
  }

  function Stem(word: string): string {
    if Pool(word).Some? then Pool(word).value
    else if |word| <= 2 then word
    else
      var w := Step2(Step1c(Step1b(Step1a(word))));
      ApplyRules(Step5a(ApplyRules(ApplyRules(w, STEP3), STEP4)), STEP5B)
  }

  /** The first step takes the s of a plural off and does nothing else, exactly when the singular does not end in s or
      sse, nor in ie unless it has three letters. */
  lemma PluralUndoneIff(w: string)
    ensures Step1a(w + "s") == w <==> !EndsWith(w, "s") && !EndsWith(w, "sse") && (EndsWith(w, "ie") ==> |w| == 3)
  {
    hide Fits, EndsWith, ApplyRules, Step1a;
    EndLengths(w);
    PluralEndings(w);
    var word := w + "s";
    assert word[..|w|] == w;
    if EndsWith(w, "sse") {
      PluralBy(w, 0, 4);
    } else if EndsWith(w, "ie") {
      PluralBy(w, 1, 3);
      assert word[..|word| - 3] == w[..|w| - 2] && (|w| == 3 ==> word[..1] == w[..|w| - 2]);
    } else if EndsWith(w, "s") {
      PluralBy(w, 2, 2);
    } else {
      PluralBy(w, 3, 1);
      assert w + "" == w;
    }
  }

  /** Rule i of the first step, taking n letters off. */
  lemma PluralBy(w: string, i: nat, n: nat)
    requires i < 4 && n <= |w| + 1 && Fits(w + "s", STEP1A[i]) == Some(n) && forall j :: 0 <= j < i ==> Fits(w + "s", STEP1A[j]) == None
    ensures
      var word := w + "s";
      Step1a(word) == if EndsWith(word, "ies") && |word| == 4 then word[..1] + "ie" else word[..|word| - n] + STEP1A[i].replacement
  {
    hide Fits, EndsWith, ApplyRules;
    FirstRuleDecides(w + "s", STEP1A, i);
  }

  lemma PluralEndings(w: string)
    ensures Fits(w + "s", STEP1A[0]) == if EndsWith(w, "sse") then Some(4) else None
    ensures Fits(w + "s", STEP1A[1]) == if EndsWith(w, "ie") then Some(3) else None
    ensures Fits(w + "s", STEP1A[2]) == if EndsWith(w, "s") then Some(2) else None
    ensures Fits(w + "s", STEP1A[3]) == Some(1)
    ensures EndsWith(w + "s", "ies") <==> EndsWith(w, "ie")
  {
    assert EndsWith(w, "");
    hide Fits, EndsWith;
    assert "sse" + "s" == "sses" && "ie" + "s" == "ies" && "s" + "s" == "ss" && "" + "s" == "s";
    FitsPlural(w, "sse", STEP1A[0]);
    FitsPlural(w, "ie", STEP1A[1]);
    FitsPlural(w, "s", STEP1A[2]);
    FitsPlural(w, "", STEP1A[3]);
    EndsWithMore(w, "ie");
  }

  lemma FitsPlural(w: string, t: string, r: Rule)
    requires r.suffix == t + "s"
    ensures Fits(w + "s", r) == if EndsWith(w, t) then Some(|t| + 1) else None
  {
    hide EndsWith, EndsDoubleConsonant;
    EndsWithMore(w, t);
    assert r.suffix[|t|] == 's';
  }

  lemma EndLengths(w: string)
    ensures EndsWith(w, "sse") ==> |w| >= 3 && !EndsWith(w, "ie")
    ensures EndsWith(w, "ie") ==> |w| >= 2 && w[..|w| - 2] + "ie" == w && !EndsWith(w, "s")
  {
    if EndsWith(w, "s") { assert w[|w| - 1] == w[|w| - 1..][0] == 's'; }
    if EndsWith(w, "ie") { assert w[|w| - 1] == w[|w| - 2..][1] == 'e'; }
    if EndsWith(w, "ie") { assert w == w[..|w| - 2] + w[|w| - 2..]; }
    if EndsWith(w, "sse") { assert w[|w| - 2] == w[|w| - 3..][1] == 's'; }
    if EndsWith(w, "ie") { assert w[|w| - 2] == w[|w| - 2..][0] == 'i'; }
  }

  lemma EndsWithMore(w: string, t: string)
    ensures EndsWith(w + "s", t + "s") <==> EndsWith(w, t)
  {
    if |t| <= |w| {
      var x := w[|w| - |t|..];
      assert (w + "s")[|w| - |t|..] == x + "s";
      assert (x + "s")[..|x|] == x && (t + "s")[..|t|] == t;
    }
  }

  // ---------------------------------------------------------------- what stemming preserves

  /** All but the last d letters of s are the word's own. */
  ghost predicate Agrees(word: string, s: string, d: nat) {
    |s| - d <= |word| && forall i :: 0 <= i < |s| - d ==> s[i] == word[i]
  }

  /** s is what a step may make of a word: not longer, not empty, and new only in its last d letters. */
  ghost predicate Trimmed(word: string, s: string, d: nat) {
    1 <= |s| <= |word| && Agrees(word, s, d)
  }

  lemma TrimmedAgain(a: string, b: string, c: string, e: nat, d: nat)
    requires Trimmed(a, b, e) && Trimmed(b, c, d)
    ensures Trimmed(a, c, if d < e then e else d)
  {
  }

  /** A rule that never lengthens, never empties a word, and rewrites at most d letters. */
  predicate Mild(r: Rule, d: nat) {
    var n := |r.replacement| - d;
    && |r.replacement| <= |r.suffix|
    && (|r.replacement| > 0 || r.condition in {Positive, AboveOne, IonCondition})
    && (n > 0 ==> r.replacement[..n] == r.suffix[..n])
    && r.suffix != "*d"
  }

  lemma MildRule(word: string, r: Rule, d: nat)
    requires Mild(r, d) && EndsWith(word, r.suffix) && |word| > 0
    requires Holds(r.condition, Chop(word, |r.suffix|), word)
    ensures Trimmed(word, Chop(word, |r.suffix|) + r.replacement, d)
  {
    var stem := Chop(word, |r.suffix|);
    assert word == stem + r.suffix;
  }

  lemma {:induction false} MildRules(word: string, rules: seq<Rule>, d: nat)
    requires |word| > 0 && forall r :: r in rules ==> Mild(r, d)
    ensures Trimmed(word, ApplyRules(word, rules), d)
  {
    if |rules| > 0 {
      var r := rules[0];
      assert Mild(r, d);
      if !EndsWith(word, r.suffix) {
        forall q | q in rules[1..] ensures Mild(q, d) { assert q in rules; }
        MildRules(word, rules[1..], d);
      } else if Holds(r.condition, Chop(word, |r.suffix|), word) {
        MildRule(word, r, d);
      }
    }
  }

  lemma Step1aTrims(word: string)
    requires |word| >= 3
    ensures Trimmed(word, Step1a(word), 0)
  {
    var head := STEP1A[..3];
    if EndsWith(word, "ies") && |word| == 4 {
      assert word == Chop(word, 3) + "ies";
    } else {
      assert STEP1A == head + [Rule("s", "", Always)];
      ApplyMore(word, head, Rule("s", "", Always));
      MildRules(word, head, 0);
    }
  }

  /** A list with one rule more either does what the list does or leaves that to the last rule. */
  lemma {:induction false} ApplyMore(word: string, rules: seq<Rule>, last: Rule)
    ensures ApplyRules(word, rules + [last]) == ApplyRules(word, rules)
         || ApplyRules(word, rules + [last]) == ApplyRules(word, [last])
  {
    if |rules| == 0 {
      assert rules + [last] == [last];
    } else {
      ApplyMore(word, rules[1..], last);
      assert (rules + [last])[1..] == rules[1..] + [last] && (rules + [last])[0] == rules[0];
    }
  }

  /** The tidying rules add at most one letter, at the end. */
  lemma {:induction false} TidyRules(word: string, rules: seq<Rule>)
    requires |word| > 0
    requires forall r :: r in rules ==> (if r.suffix == "*d" then |r.replacement| == 1 else
                                           |r.replacement| == |r.suffix| + 1 && r.suffix == r.replacement[..|r.suffix|])
    ensures var s := ApplyRules(word, rules); 1 <= |s| <= |word| + 1 && Agrees(word, s, 1)
  {
    if |rules| > 0 {
      assert rules[0] in rules;
      forall q | q in rules[1..] ensures q in rules {}
      TidyRules(word, rules[1..]);
      assert EndsWith(word, rules[0].suffix) ==> word == Chop(word, |rules[0].suffix|) + rules[0].suffix;
    }
  }

  lemma TidyAfterChop(word: string, n: nat)
    requires 2 <= n && n < |word|
    ensures Trimmed(word, Tidy(Chop(word, n)), 1)
  {
    var stem := Chop(word, n);
    TidyRules(stem, Step1bRules(stem[|stem| - 1]));
  }

  lemma Step1bTrims(word: string)
    requires |word| >= 1
    ensures Trimmed(word, Step1b(word), 1)
  {
    assert EndsWith(word, "ied") ==> word == Chop(word, 3) + "ied";
    assert EndsWith(word, "eed") ==> word == Chop(word, 3) + "eed";
    if EndsWith(word, "ed") && ContainsVowel(Chop(word, 2)) { TidyAfterChop(word, 2); }
    if EndsWith(word, "ing") && ContainsVowel(Chop(word, 3)) { TidyAfterChop(word, 3); }
  }

  lemma EarlierRulesMild()
    ensures forall r :: r in STEP2_EARLIER ==> Mild(r, 2)
  {
  }

  lemma LaterRulesMild()
    ensures forall r :: r in STEP2_LATER ==> Mild(r, 2)
  {
  }

  lemma Step3RulesMild()
    ensures forall r :: r in STEP3 ==> Mild(r, 0)
  {
  }

  lemma Step3Trims(word: string)
    requires |word| >= 1
    ensures Trimmed(word, ApplyRules(word, STEP3), 0)
  {
    Step3RulesMild();
    MildRules(word, STEP3, 0);
  }

  lemma Step4RulesMild()
    ensures forall r :: r in STEP4 ==> Mild(r, 0)
  {
  }

  lemma Step4Trims(word: string)
    requires |word| >= 1
    ensures Trimmed(word, ApplyRules(word, STEP4), 0)
  {
    Step4RulesMild();
    MildRules(word, STEP4, 0);
  }

  lemma Step5Trims(word: string)
    requires |word| >= 1
    ensures Trimmed(word, Step5a(word), 0)
    ensures Trimmed(word, ApplyRules(word, STEP5B), 0)
  {
    MildRules(word, STEP5B, 0);
  }

  lemma {:induction false} Step2Trims(word: string)
    requires |word| >= 1
    ensures Trimmed(word, Step2(word), 2)
    decreases |word|
  {
    if EndsWith(word, "alli") && Measure(Chop(word, 4)) > 0 {
      var shorter := Chop(word, 4) + "al";
      assert word == Chop(word, 4) + "alli";
      Step2Trims(shorter);
      TrimmedAgain(word, shorter, Step2(shorter), 0, 2);
    } else {
      EarlierRulesMild();
      LaterRulesMild();
      MildRules(word, STEP2, 2);
    }
  }

  lemma LaterStepsTrim(word: string)
    requires |word| >= 1
    ensures Trimmed(word, ApplyRules(Step5a(ApplyRules(ApplyRules(word, STEP3), STEP4)), STEP5B), 0)
  {
    var a := ApplyRules(word, STEP3);
    Step3Trims(word);
    var b := ApplyRules(a, STEP4);
    Step4Trims(a);
    TrimmedAgain(word, a, b, 0, 0);
    var c := Step5a(b);
    Step5Trims(b);
    TrimmedAgain(word, b, c, 0, 0);
    Step5Trims(c);
    TrimmedAgain(word, c, ApplyRules(c, STEP5B), 0, 0);
  }

  lemma Step1cTrims(word: string)
    requires |word| >= 1
    ensures Trimmed(word, Step1c(word), 1)
  {
    MildRules(word, [Rule("y", "i", AfterConsonant)], 1);
  }

  lemma PoolBounds(word: string)
    requires Pool(word).Some?
    ensures 1 <= |Pool(word).value| <= |word|
  {
  }

  /** Stemming never lengthens a word and never turns a word into nothing; and for a regular word it
      rewrites nothing but the last two letters of what it keeps. */
  lemma StemTrims(word: string)
    requires |word| > 0
    ensures 1 <= |Stem(word)| <= |word|
    ensures Pool(word).None? ==> Agrees(word, Stem(word), 2)
  {
    if Pool(word).Some? {
      PoolBounds(word);
    } else if |word| > 2 {
      Step1aTrims(word);
      var a := Step1a(word);
      Step1bTrims(a);
      var b := Step1b(a);
      TrimmedAgain(word, a, b, 0, 1);
      Step1cTrims(b);
      var c := Step1c(b);
      TrimmedAgain(word, b, c, 1, 1);
      Step2Trims(c);
      var d := Step2(c);
      TrimmedAgain(word, c, d, 1, 2);
      LaterStepsTrim(d);
      TrimmedAgain(word, d, Stem(word), 2, 0);
    }
  }
}
