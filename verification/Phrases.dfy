/** Phrase metrics: normalisation, splitting, and the two matchers that look for every answer phrase in
    a prediction, anywhere or in order. Regular expressions become explicit word-boundary predicates. */
module Phrases {
  import opened Sequences

  /** The character classes \w and \s and Python's str.lower, which the source takes as given. */
  datatype Alphabet = Alphabet(word: char -> bool, space: char -> bool, lower: string -> string)

  ghost predicate Sound(a: Alphabet) {
    && a.space(' ')
    && (forall c :: a.space(c) ==> !a.word(c))
  }

  datatype Options = Options(lower: bool, hyphen: bool, stripPunct: bool)

  const DEFAULT := Options(true, true, true)

  // ---------------------------------------------------------------- normalisation

  function Replaced(s: string, hit: char -> bool): (r: string)
    ensures |r| == |s|
  {
    seq(|s|, i requires 0 <= i < |s| => if hit(s[i]) then ' ' else s[i])
  }

  function Filtered(s: string, keep: char -> bool): (r: string)
    ensures forall c :: c in r ==> keep(c)
  {
    if |s| == 0 then [] else (if keep(s[0]) then [s[0]] else []) + Filtered(s[1..], keep)
  }

  /** Every run of white space becomes one blank. */
  function Collapsed(a: Alphabet, s: string, inRun: bool): (r: string)
    ensures forall c :: c in r ==> c == ' ' || (c in s && !a.space(c))
  {
    if |s| == 0 then []
    else if a.space(s[0]) then (if inRun then [] else " ") + Collapsed(a, s[1..], true)
    else [s[0]] + Collapsed(a, s[1..], false)
  }

  function Stripped(s: string): (r: string)
    ensures forall c :: c in r ==> c in s
    ensures |r| > 0 ==> r[0] != ' ' && r[|r| - 1] != ' '
  {
    if |s| == 0 then []
    else if s[0] == ' ' then Stripped(s[1..])
    else if s[|s| - 1] == ' ' then Stripped(s[..|s| - 1])
    else s
  }

  /** The passes before white space is collapsed. */
  function Swept(a: Alphabet, o: Options, text: string): string {
    var t := if o.lower then a.lower(text) else text;
    var t := if o.hyphen then Replaced(t, c => c == '-' || c == '_') else t;
    var t := Replaced(t, c => c == ',' || c == ';');
    if o.stripPunct then Filtered(t, c => a.word(c) || a.space(c)) else t
  }

  function Normalize(a: Alphabet, o: Options, text: string): string {
    Stripped(Collapsed(a, Swept(a, o, text), false))
  }

  // ---------------------------------------------------------------- splitting

  /** Length of the first separator in the list that stands at the front of s; 0 when none does. */
  function Leading(seps: seq<string>, s: string): (n: nat)
    ensures n <= |s|
  {
    if |seps| == 0 then 0
    else if |seps[0]| > 0 && seps[0] <= s then |seps[0]|
    else Leading(seps[1..], s)
  }

  function Split(seps: seq<string>, s: string, part: string): seq<string>
    decreases |s|
  {
    if |s| == 0 then [part]
    else
      var n := Leading(seps, s);
      if n > 0 then [part] + Split(seps, s[n..], []) else Split(seps, s[1..], part + [s[0]])
  }

  function NonEmptyNormalized(a: Alphabet, o: Options, parts: seq<string>): (r: seq<string>)
    ensures forall p :: p in r ==> |p| > 0 && exists t :: p == Normalize(a, o, t)
  {
    if |parts| == 0 then []
    else
      var p := Normalize(a, o, parts[0]);
      (if |p| > 0 then [p] else []) + NonEmptyNormalized(a, o, parts[1..])
  }

  function SplitPhrases(a: Alphabet, o: Options, text: string, seps: seq<string>): seq<string> {
    NonEmptyNormalized(a, o, if |seps| == 0 then [text] else Split(seps, text, []))
  }

  // ---------------------------------------------------------------- matching

  /** The regular-expression boundary \b at position i of s[from..], written on s itself. */
  predicate Boundary(word: char -> bool, s: string, from: nat, i: int)
    requires from <= i <= |s|
  {
    (i > from && word(s[i - 1])) != (i < |s| && word(s[i]))
  }

  /** The phrase stands at position i, between boundaries of s[from..]. */
  predicate MatchAt(word: char -> bool, p: string, s: string, from: nat, i: int) {
    from <= i && OccursAt(p, s, i) && Boundary(word, s, from, i) && Boundary(word, s, from, i + |p|)
  }

  /** re.search for the phrase between boundaries: the leftmost match, or -1. */
  method Search(word: char -> bool, p: string, s: string) returns (i: int)
    ensures i == Leftmost(word, p, s, 0, 0)
  {
    i := 0;
    while i + |p| <= |s|
      invariant 0 <= i
      invariant Leftmost(word, p, s, 0, 0) == Leftmost(word, p, s, 0, i)
    {
      if MatchAt(word, p, s, 0, i) { return; }
      i := i + 1;
    }
    return -1;
  }

  /** The first match in s[from..] at or after position i of s, or -1. */
  function Leftmost(word: char -> bool, p: string, s: string, from: nat, i: nat): (j: int)
    requires from <= i
    ensures j == -1 || (i <= j && MatchAt(word, p, s, from, j))
    ensures forall k :: i <= k && MatchAt(word, p, s, from, k) ==> 0 <= j <= k
    decreases |s| - i
  {
    if i + |p| > |s| then -1
    else if MatchAt(word, p, s, from, i) then i
    else Leftmost(word, p, s, from, i + 1)
  }

  /** The ordered matcher from phrase k on, on what is left of the prediction. */
  predicate Greedy(word: char -> bool, phrases: seq<string>, k: nat, s: string, from: nat)
    requires k <= |phrases|
    decreases |phrases| - k
  {
    k == |phrases| ||
    var i := Leftmost(word, phrases[k], s, from, from);
    i >= 0 && Greedy(word, phrases, k + 1, s, i + |phrases[k]|)
  }

  lemma SliceMatch(word: char -> bool, p: string, s: string, from: nat, i: nat)
    requires from <= |s|
    ensures MatchAt(word, p, s[from..], 0, i) == MatchAt(word, p, s, from, from + i)
  {
    var t := s[from..];
    assert forall k :: 0 <= k < |t| ==> t[k] == s[from + k];
    assert OccursAt(p, t, i) == OccursAt(p, s, from + i) by {
      if i + |p| <= |t| {
        forall k | 0 <= k < |p| ensures (t[i + k] == p[k]) == (s[from + i + k] == p[k]) {
          assert t[i + k] == s[from + (i + k)];
        }
      }
    }
  }

  /** Searching a slice is searching the whole from there on. */
  lemma {:induction false} SliceSearch(word: char -> bool, p: string, s: string, from: nat, i: nat)
    requires from <= |s|
    ensures
      var j := Leftmost(word, p, s, from, from + i);
      Leftmost(word, p, s[from..], 0, i) == if j < 0 then -1 else j - from
    decreases |s| - i
  {
    SliceMatch(word, p, s, from, i);
    if from + i + |p| <= |s| {
      SliceSearch(word, p, s, from, i + 1);
    }
  }

  method OrderedLoop(word: char -> bool, phrases: seq<string>, pred: string) returns (ok: bool)
    ensures ok == Greedy(word, phrases, 0, pred, 0)
  {
    var start := 0;
    for k := 0 to |phrases|
      invariant 0 <= start <= |pred|
      invariant Greedy(word, phrases, 0, pred, 0) == Greedy(word, phrases, k, pred, start)
    {
      var i := Search(word, phrases[k], pred[start..]);
      SliceSearch(word, phrases[k], pred, start, 0);
      if i < 0 { return false; }
      start := start + i + |phrases[k]|;
    }
    return true;
  }

  predicate Somewhere(word: char -> bool, p: string, s: string) {
    Leftmost(word, p, s, 0, 0) >= 0
  }

  method NormPhraseSetMatchOrdered(a: Alphabet, o: Options, pred: string, answer: string, seps: seq<string>, needAny: bool)
    returns (ok: bool)
    ensures ok == OrderedMatch(a, o, pred, answer, seps, needAny)
  {
    var p := Normalize(a, o, pred);
    var phrases := SplitPhrases(a, o, answer, seps);
    if needAny && (|p| == 0 || |phrases| == 0) { return false; }
    ok := OrderedLoop(a.word, phrases, p);
  }

  predicate OrderedMatch(a: Alphabet, o: Options, pred: string, answer: string, seps: seq<string>, needAny: bool) {
    var p, phrases := Normalize(a, o, pred), SplitPhrases(a, o, answer, seps);
    !(needAny && (|p| == 0 || |phrases| == 0)) && Greedy(a.word, phrases, 0, p, 0)
  }

  predicate UnorderedMatch(a: Alphabet, o: Options, pred: string, answer: string, seps: seq<string>, needAny: bool) {
    var p, phrases := Normalize(a, o, pred), SplitPhrases(a, o, answer, seps);
    !(needAny && (|p| == 0 || |phrases| == 0)) && forall q :: q in phrases ==> Somewhere(a.word, q, p)
  }

  /** The loop over the set of phrases, in whatever order the set lists them. */
  method NormPhraseSetMatch(a: Alphabet, o: Options, pred: string, answer: string, seps: seq<string>, needAny: bool)
    returns (ok: bool)
    ensures ok == UnorderedMatch(a, o, pred, answer, seps, needAny)
  {
    hide Leftmost, Normalize, SplitPhrases;
    var p := Normalize(a, o, pred);
    var phrases := SplitPhrases(a, o, answer, seps);
    if needAny && (|p| == 0 || |phrases| == 0) { return false; }
    var left := set q | q in phrases;
    while left != {}
      invariant left <= set q | q in phrases
      invariant forall q :: q in phrases && q !in left ==> Somewhere(a.word, q, p)
      decreases |left|
    {
      var q :| q in left;
      var i := Search(a.word, q, p);
      if i < 0 { return false; }
      left := left - {q};
    }
    return true;
  }

  // ---------------------------------------------------------------- what the greedy matcher decides

  /** Positions, in order and without overlap, at which the phrases from k on stand between boundaries of
      the whole text, none before `from`. */
  ghost predicate Placement(word: char -> bool, phrases: seq<string>, k: nat, s: string, from: nat, at: seq<nat>) {
    && |at| == |phrases|
    && (forall j :: k <= j < |at| ==> MatchAt(word, phrases[j], s, 0, at[j]))
    && (k < |at| ==> from <= at[k])
    && (forall j :: k < j < |at| ==> at[j - 1] + |phrases[j - 1]| <= at[j])
  }

  ghost predicate Placeable(word: char -> bool, phrases: seq<string>, s: string) {
    exists at :: Placement(word, phrases, 0, s, 0, at)
  }

  /** A phrase ending in a word character followed by one that starts with none. */
  predicate Clash(word: char -> bool, p: string, q: string) {
    |p| > 0 && |q| > 0 && word(p[|p| - 1]) && !word(q[0])
  }

  ghost predicate NoClash(word: char -> bool, phrases: seq<string>) {
    && (forall p :: p in phrases ==> |p| > 0)
    && (forall j :: 0 < j < |phrases| ==> !Clash(word, phrases[j - 1], phrases[j]))
  }

  /** The search may resume at `from`: at the start, or at a boundary of the whole text. */
  predicate Resumes(word: char -> bool, s: string, from: nat) {
    from == 0 || (from <= |s| && Boundary(word, s, 0, from))
  }

  /** A match found in the rest of the text is a match of the whole text. */
  lemma SliceIsSound(word: char -> bool, p: string, s: string, from: nat, i: nat)
    requires |p| > 0 && Resumes(word, s, from) && MatchAt(word, p, s, from, i)
    ensures MatchAt(word, p, s, 0, i) && Resumes(word, s, i + |p|)
  {
  }

  /** A match of the whole text is one of the rest of it, unless it begins the rest with no word character. */
  lemma SliceIsComplete(word: char -> bool, p: string, s: string, from: nat, i: nat)
    requires |p| > 0 && from <= i && MatchAt(word, p, s, 0, i)
    requires i == from > 0 ==> word(p[0])
    ensures MatchAt(word, p, s, from, i)
  {
    assert s[i + 0] == p[0];
  }

  /** What the greedy matcher accepts really is placed, boundaries and all, in the whole text; and each phrase also
      stands between boundaries of the rest of the text after the one before it. */
  lemma {:induction false} GreedyPlaces(word: char -> bool, phrases: seq<string>, k: nat, s: string, from: nat) returns (at: seq<nat>)
    requires k <= |phrases| && Resumes(word, s, from)
    requires forall p :: p in phrases ==> |p| > 0
    requires Greedy(word, phrases, k, s, from)
    ensures Placement(word, phrases, k, s, from, at)
    ensures k < |phrases| ==> MatchAt(word, phrases[k], s, from, at[k])
    ensures forall j :: k < j < |phrases| ==> MatchAt(word, phrases[j], s, at[j - 1] + |phrases[j - 1]|, at[j])
    decreases |phrases| - k
  {
    hide MatchAt, Resumes, Leftmost;
    if k == |phrases| {
      at := seq(|phrases|, _ => 0);
    } else {
      assert phrases[k] in phrases;
      var i := Leftmost(word, phrases[k], s, from, from);
      SliceIsSound(word, phrases[k], s, from, i);
      at := GreedyPlaces(word, phrases, k + 1, s, i + |phrases[k]|);
      at := at[k := i];
    }
  }

  /** Taking the leftmost match never spoils a later phrase. */
  lemma {:induction false} PlacementFound(word: char -> bool, phrases: seq<string>, k: nat, s: string, from: nat, at: seq<nat>)
    requires k <= |phrases| && NoClash(word, phrases)
    requires Placement(word, phrases, k, s, from, at) && Resumes(word, s, from)
    requires 0 < k < |phrases| && from > 0 && word(s[from - 1]) ==> word(phrases[k - 1][|phrases[k - 1]| - 1])
    requires k == 0 ==> from == 0
    ensures Greedy(word, phrases, k, s, from)
    decreases |phrases| - k
  {
    if k < |phrases| {
      var p := phrases[k];
      assert p in phrases && (k > 0 ==> phrases[k - 1] in phrases);
      if at[k] == from > 0 { StartsWithWord(word, phrases, k, s, from); }
      SliceIsComplete(word, p, s, from, at[k]);
      var i := Leftmost(word, p, s, from, from);
      SliceIsSound(word, p, s, from, i);
      assert s[i + (|p| - 1)] == p[|p| - 1];
      PlacementFound(word, phrases, k + 1, s, i + |p|, at);
    }
  }

  /** Without a clash, a phrase that begins right where the last one ended begins with a word character. */
  lemma StartsWithWord(word: char -> bool, phrases: seq<string>, k: nat, s: string, from: nat)
    requires 0 < k < |phrases| && NoClash(word, phrases) && |phrases[k - 1]| > 0
    requires 0 < from && MatchAt(word, phrases[k], s, 0, from)
    requires word(s[from - 1]) ==> word(phrases[k - 1][|phrases[k - 1]| - 1])
    ensures word(phrases[k][0])
  {
    assert phrases[k] in phrases;
    assert s[from + 0] == phrases[k][0];
    assert !Clash(word, phrases[k - 1], phrases[k]);
  }

  /** For phrases without a clash, greedy search succeeds exactly when some placement exists. */
  lemma GreedyIsExact(word: char -> bool, phrases: seq<string>, s: string)
    requires NoClash(word, phrases)
    ensures Greedy(word, phrases, 0, s, 0) <==> Placeable(word, phrases, s)
  {
    if Greedy(word, phrases, 0, s, 0) {
      var at := GreedyPlaces(word, phrases, 0, s, 0);
    }
    if Placeable(word, phrases, s) {
      var at :| Placement(word, phrases, 0, s, 0, at);
      PlacementFound(word, phrases, 0, s, 0, at);
    }
  }

  // ---------------------------------------------------------------- lists with a clash

  predicate NonEmpty(phrases: seq<string>) {
    |phrases| > 0 && forall k :: 0 <= k < |phrases| ==> |phrases[k]| > 0
  }

  predicate Head(word: char -> bool, p: string) requires |p| > 0 { word(p[0]) }

  predicate Tail(word: char -> bool, p: string) requires |p| > 0 { word(p[|p| - 1]) }

  /** The least room a placement needs before the first phrase, between two, and after the last. */
  function Lead(word: char -> bool, phrases: seq<string>): nat
    requires NonEmpty(phrases)
  {
    if Head(word, phrases[0]) then 0 else 1
  }

  function Gap(word: char -> bool, phrases: seq<string>, k: nat): nat
    requires NonEmpty(phrases) && 0 < k < |phrases|
  {
    if Tail(word, phrases[k - 1]) == Head(word, phrases[k]) then 1 else 0
  }

  function Trail(word: char -> bool, phrases: seq<string>): nat
    requires NonEmpty(phrases)
  {
    if Tail(word, phrases[|phrases| - 1]) then 0 else 1
  }

  /** Where phrase k stands when the phrases are laid out with the least room. */
  function Start(word: char -> bool, phrases: seq<string>, k: nat): nat
    requires NonEmpty(phrases) && k < |phrases|
  {
    if k == 0 then Lead(word, phrases) else Start(word, phrases, k - 1) + |phrases[k - 1]| + Gap(word, phrases, k)
  }

  /** The text holds the first k + 1 phrases at their starts, and fills the room between them so as to make boundaries. */
  ghost predicate LaidOut(word: char -> bool, phrases: seq<string>, k: nat, s: string)
    requires NonEmpty(phrases) && k < |phrases|
  {
    && Start(word, phrases, k) + |phrases[k]| <= |s|
    && (forall j :: 0 <= j <= k ==> OccursAt(phrases[j], s, Start(word, phrases, j)))
    && (Lead(word, phrases) == 1 ==> word(s[0]))
    && (forall j :: 0 < j <= k ==> Separated(word, phrases, j, s))
  }

  ghost predicate Separated(word: char -> bool, phrases: seq<string>, j: nat, s: string)
    requires NonEmpty(phrases) && 0 < j < |phrases|
  {
    Gap(word, phrases, j) == 1 ==>
      var i := Start(word, phrases, j) - 1; i < |s| && word(s[i]) != Head(word, phrases[j])
  }

  ghost predicate Laid(word: char -> bool, phrases: seq<string>, s: string)
    requires NonEmpty(phrases)
  {
    var last := |phrases| - 1;
    && LaidOut(word, phrases, last, s)
    && |s| == Start(word, phrases, last) + |phrases[last]| + Trail(word, phrases)
    && (Trail(word, phrases) == 1 ==> word(s[|s| - 1]))
  }

  lemma OccursLonger(p: string, s: string, more: string, i: int)
    requires OccursAt(p, s, i)
    ensures OccursAt(p, s + more, i)
  {
    assert forall k :: 0 <= k < |p| ==> (s + more)[i + k] == p[k];
  }

  lemma OccursAtEnd(s: string, p: string)
    ensures OccursAt(p, s + p, |s|)
  {
    assert forall k :: 0 <= k < |p| ==> (s + p)[|s| + k] == p[k];
  }

  lemma LaidLonger(word: char -> bool, phrases: seq<string>, k: nat, s: string, more: string)
    requires NonEmpty(phrases) && k < |phrases| && LaidOut(word, phrases, k, s)
    ensures LaidOut(word, phrases, k, s + more)
  {
    hide OccursAt, Start, Lead;
    assert s[0] == (s + more)[0] by { assert |s| > 0; }
    forall j | 0 <= j <= k ensures OccursAt(phrases[j], s + more, Start(word, phrases, j)) {
      OccursLonger(phrases[j], s, more, Start(word, phrases, j));
    }
    forall j | 0 < j <= k ensures Separated(word, phrases, j, s + more) {
      assert Separated(word, phrases, j, s);
      assert Start(word, phrases, j) > 0 by { StartPositive(word, phrases, j); }
    }
  }

  lemma StartPositive(word: char -> bool, phrases: seq<string>, j: nat)
    requires NonEmpty(phrases) && 0 < j < |phrases|
    ensures Start(word, phrases, j) > 0
  {
  }

  lemma StartStep(word: char -> bool, phrases: seq<string>, k: nat)
    requires NonEmpty(phrases) && k < |phrases|
    ensures
      Start(word, phrases, k) ==
        if k == 0 then Lead(word, phrases) else Start(word, phrases, k - 1) + |phrases[k - 1]| + Gap(word, phrases, k)
  {
  }

  /** No two blanks next to each other. */
  ghost predicate Single(s: string) {
    forall i :: 0 <= i < |s| - 1 && s[i] == ' ' ==> s[i + 1] != ' '
  }

  /** Made of single blanks and characters of one kind, with no blank at an end. */
  ghost predicate Neat(keep: char -> bool, s: string) {
    && (forall c :: c in s ==> c == ' ' || keep(c))
    && Single(s) && (|s| > 0 ==> s[0] != ' ' && s[|s| - 1] != ' ')
  }

  ghost predicate AllNeat(keep: char -> bool, phrases: seq<string>, w: char, n: char) {
    Neat(keep, [w]) && Neat(keep, [n]) && forall k :: 0 <= k < |phrases| ==> Neat(keep, phrases[k])
  }

  lemma NeatJoin(keep: char -> bool, s: string, t: string)
    ensures Neat(keep, []) && (Neat(keep, s) && Neat(keep, t) ==> Neat(keep, s + t))
  {
  }

  /** A layout exists, given a character of either class. */
  lemma {:induction false} LayOut(word: char -> bool, phrases: seq<string>, k: nat, w: char, n: char)
    requires NonEmpty(phrases) && k < |phrases| && word(w) && !word(n)
    ensures var s := Layout(word, phrases, k, w, n); LaidOut(word, phrases, k, s) && |s| == Start(word, phrases, k) + |phrases[k]|
  {
    hide LaidOut, OccursAt, Start;
    var p := phrases[k];
    StartStep(word, phrases, k);
    if k == 0 {
      var lead := if Head(word, p) then [] else [w];
      OccursAtEnd(lead, p);
      FirstPhrase(word, phrases, lead + p);
    } else {
      var t := Layout(word, phrases, k - 1, w, n);
      LayOut(word, phrases, k - 1, w, n);
      var gap := Spacer(word, phrases, k, w, n);
      LaidLonger(word, phrases, k - 1, t, gap + p);
      assert t + gap + p == t + (gap + p);
      OccursAtEnd(t + gap, p);
      AddsPhrase(word, phrases, k, t + gap + p);
    }
  }

  /** A character of the other class, where two phrases cannot stand next to each other. */
  function Spacer(word: char -> bool, phrases: seq<string>, k: nat, w: char, n: char): string
    requires NonEmpty(phrases) && 0 < k < |phrases|
  {
    if Gap(word, phrases, k) == 0 then [] else if Head(word, phrases[k]) then [n] else [w]
  }

  function Layout(word: char -> bool, phrases: seq<string>, k: nat, w: char, n: char): string
    requires NonEmpty(phrases) && k < |phrases|
  {
    if k == 0 then (if Head(word, phrases[0]) then [] else [w]) + phrases[0]
    else Layout(word, phrases, k - 1, w, n) + Spacer(word, phrases, k, w, n) + phrases[k]
  }

  lemma {:induction false} LayoutIsNeat(word: char -> bool, phrases: seq<string>, k: nat, w: char, n: char, keep: char -> bool)
    requires NonEmpty(phrases) && k < |phrases| && AllNeat(keep, phrases, w, n)
    ensures Neat(keep, Layout(word, phrases, k, w, n))
  {
    hide Neat, Gap, Head;
    if k == 0 {
      NeatJoin(keep, if Head(word, phrases[0]) then [] else [w], phrases[0]);
    } else {
      var t, gap := Layout(word, phrases, k - 1, w, n), Spacer(word, phrases, k, w, n);
      LayoutIsNeat(word, phrases, k - 1, w, n, keep);
      NeatJoin(keep, t, gap);
      NeatJoin(keep, t + gap, phrases[k]);
    }
  }

  lemma FirstPhrase(word: char -> bool, phrases: seq<string>, s: string)
    requires NonEmpty(phrases) && Lead(word, phrases) + |phrases[0]| <= |s| && OccursAt(phrases[0], s, Lead(word, phrases))
    requires Lead(word, phrases) == 1 ==> word(s[0])
    ensures LaidOut(word, phrases, 0, s)
  {
    hide OccursAt;
  }

  lemma AddsPhrase(word: char -> bool, phrases: seq<string>, k: nat, s: string)
    requires NonEmpty(phrases) && 0 < k < |phrases| && LaidOut(word, phrases, k - 1, s)
    requires Start(word, phrases, k) + |phrases[k]| <= |s| && OccursAt(phrases[k], s, Start(word, phrases, k))
    requires Separated(word, phrases, k, s)
    ensures LaidOut(word, phrases, k, s)
  {
    hide OccursAt, Separated;
  }

  lemma Lay(word: char -> bool, phrases: seq<string>, w: char, n: char, keep: char -> bool) returns (s: string)
    requires NonEmpty(phrases) && word(w) && !word(n)
    ensures Laid(word, phrases, s)
    ensures AllNeat(keep, phrases, w, n) ==> Neat(keep, s)
  {
    hide LaidOut, Start, Neat, Layout;
    var last := |phrases| - 1;
    var t := Layout(word, phrases, last, w, n);
    LayOut(word, phrases, last, w, n);
    if AllNeat(keep, phrases, w, n) { LayoutIsNeat(word, phrases, last, w, n, keep); }
    var end := if Trail(word, phrases) == 1 then [w] else [];
    LaidLonger(word, phrases, last, t, end);
    s := t + end;
    NeatJoin(keep, t, end);
  }

  /** The characters at the two ends of phrase k in a text that holds it at i. */
  lemma Ends(word: char -> bool, p: string, s: string, i: nat)
    requires |p| > 0 && OccursAt(p, s, i)
    ensures word(s[i]) == Head(word, p) && word(s[i + |p| - 1]) == Tail(word, p)
  {
    assert s[i + 0] == p[0] && s[i + (|p| - 1)] == p[|p| - 1];
  }

  /** What a layout says of phrase k. */
  lemma PhraseLaid(word: char -> bool, phrases: seq<string>, s: string, k: nat)
    requires NonEmpty(phrases) && k < |phrases| && Laid(word, phrases, s)
    ensures OccursAt(phrases[k], s, Start(word, phrases, k))
    ensures k > 0 ==> Separated(word, phrases, k, s)
    ensures k == 0 && Lead(word, phrases) == 1 ==> |s| > 0 && word(s[0])
    ensures
      k == |phrases| - 1 ==>
        && |s| == Start(word, phrases, k) + |phrases[k]| + Trail(word, phrases)
        && (Trail(word, phrases) == 1 ==> word(s[|s| - 1]))
  {
    hide OccursAt, Separated;
  }

  lemma StartIsBoundary(word: char -> bool, phrases: seq<string>, s: string, k: nat)
    requires NonEmpty(phrases) && k < |phrases| && Laid(word, phrases, s)
    ensures Start(word, phrases, k) < |s| && Boundary(word, s, 0, Start(word, phrases, k))
  {
    hide Laid, Start, OccursAt;
    PhraseLaid(word, phrases, s, k);
    StartStep(word, phrases, k);
    OccursInside(phrases[k], s, Start(word, phrases, k));
    Ends(word, phrases[k], s, Start(word, phrases, k));
    if k > 0 {
      PhraseLaid(word, phrases, s, k - 1);
      OccursInside(phrases[k - 1], s, Start(word, phrases, k - 1));
      Ends(word, phrases[k - 1], s, Start(word, phrases, k - 1));
    }
  }

  lemma OccursInside(p: string, s: string, i: int)
    requires OccursAt(p, s, i)
    ensures 0 <= i && i + |p| <= |s|
  {
  }

  lemma EndIsBoundary(word: char -> bool, phrases: seq<string>, s: string, k: nat)
    requires NonEmpty(phrases) && k < |phrases| && Laid(word, phrases, s)
    ensures var e := Start(word, phrases, k) + |phrases[k]|; e <= |s| && Boundary(word, s, 0, e)
  {
    hide Laid, Start, OccursAt;
    PhraseLaid(word, phrases, s, k);
    OccursInside(phrases[k], s, Start(word, phrases, k));
    Ends(word, phrases[k], s, Start(word, phrases, k));
    if k + 1 < |phrases| {
      PhraseLaid(word, phrases, s, k + 1);
      StartStep(word, phrases, k + 1);
      OccursInside(phrases[k + 1], s, Start(word, phrases, k + 1));
      Ends(word, phrases[k + 1], s, Start(word, phrases, k + 1));
    }
  }

  lemma LaidIsPlaceable(word: char -> bool, phrases: seq<string>, s: string)
    requires NonEmpty(phrases) && Laid(word, phrases, s)
    ensures Placeable(word, phrases, s)
  {
    hide Laid, Start, OccursAt, Boundary;
    var at := seq(|phrases|, k requires 0 <= k < |phrases| => Start(word, phrases, k));
    forall k | 0 <= k < |phrases| ensures MatchAt(word, phrases[k], s, 0, at[k]) {
      StartIsBoundary(word, phrases, s, k);
      EndIsBoundary(word, phrases, s, k);
      PhraseLaid(word, phrases, s, k);
    }
    forall k | 0 < k < |phrases| ensures at[k - 1] + |phrases[k - 1]| <= at[k] {
      StartStep(word, phrases, k);
    }
    assert Placement(word, phrases, 0, s, 0, at);
  }

  /** Any placement leaves at least the least room between two phrases. */
  lemma Spread(word: char -> bool, phrases: seq<string>, s: string, at: seq<nat>, k: nat)
    requires NonEmpty(phrases) && 0 < k < |phrases| && Placement(word, phrases, 0, s, 0, at)
    ensures at[k - 1] + |phrases[k - 1]| + Gap(word, phrases, k) <= at[k]
  {
    assert MatchAt(word, phrases[k - 1], s, 0, at[k - 1]) && MatchAt(word, phrases[k], s, 0, at[k]);
    Ends(word, phrases[k - 1], s, at[k - 1]);
    Ends(word, phrases[k], s, at[k]);
  }

  lemma {:induction false} NotBefore(word: char -> bool, phrases: seq<string>, s: string, at: seq<nat>, k: nat)
    requires NonEmpty(phrases) && k < |phrases| && Placement(word, phrases, 0, s, 0, at)
    ensures at[k] >= Start(word, phrases, k)
  {
    if k == 0 {
      assert MatchAt(word, phrases[0], s, 0, at[0]);
      Ends(word, phrases[0], s, at[0]);
    } else {
      NotBefore(word, phrases, s, at, k - 1);
      Spread(word, phrases, s, at, k);
    }
  }

  lemma {:induction false} NotAfter(word: char -> bool, phrases: seq<string>, s: string, at: seq<nat>, k: nat)
    requires NonEmpty(phrases) && k < |phrases| && Placement(word, phrases, 0, s, 0, at)
    requires |s| == Start(word, phrases, |phrases| - 1) + |phrases[|phrases| - 1]| + Trail(word, phrases)
    ensures at[k] <= Start(word, phrases, k)
    decreases |phrases| - k
  {
    if k == |phrases| - 1 {
      assert MatchAt(word, phrases[k], s, 0, at[k]);
      Ends(word, phrases[k], s, at[k]);
    } else {
      NotAfter(word, phrases, s, at, k + 1);
      Spread(word, phrases, s, at, k + 1);
    }
  }

  /** In a text with the least room there is only one placement, and the test on the slice rejects it at a clash. */
  lemma ClashDefeatsGreedy(word: char -> bool, phrases: seq<string>, s: string, j: nat)
    requires NonEmpty(phrases) && Laid(word, phrases, s)
    requires 0 < j < |phrases| && Clash(word, phrases[j - 1], phrases[j])
    ensures !Greedy(word, phrases, 0, s, 0)
  {
    hide Greedy, Start, OccursAt, MatchAt, Boundary, Placement;
    NoSliceMatch(word, phrases[j], s, Start(word, phrases, j));
    StartStep(word, phrases, j);
    PhraseLaid(word, phrases, s, |phrases| - 1);
    hide Laid;
    if Greedy(word, phrases, 0, s, 0) {
      var at := GreedyPlaces(word, phrases, 0, s, 0);
      Forced(word, phrases, s, at, j - 1);
      Forced(word, phrases, s, at, j);
    }
  }

  lemma Forced(word: char -> bool, phrases: seq<string>, s: string, at: seq<nat>, k: nat)
    requires NonEmpty(phrases) && k < |phrases| && Placement(word, phrases, 0, s, 0, at)
    requires |s| == Start(word, phrases, |phrases| - 1) + |phrases[|phrases| - 1]| + Trail(word, phrases)
    ensures k < |at| && at[k] == Start(word, phrases, k)
  {
    hide Start;
    NotBefore(word, phrases, s, at, k);
    NotAfter(word, phrases, s, at, k);
  }

  lemma NoSliceMatch(word: char -> bool, p: string, s: string, i: nat)
    requires |p| > 0 && !Head(word, p)
    ensures !MatchAt(word, p, s, i, i)
  {
    if OccursAt(p, s, i) { Ends(word, p, s, i); }
  }

  /** At a clash, a text with a placement that the greedy matcher rejects; as neat as the phrases. */
  lemma Defeat(word: char -> bool, phrases: seq<string>, keep: char -> bool) returns (s: string)
    requires (forall p :: p in phrases ==> |p| > 0) && !NoClash(word, phrases)
    ensures |s| > 0 && Placeable(word, phrases, s) && !Greedy(word, phrases, 0, s, 0)
    ensures (forall p :: p in phrases ==> Neat(keep, p)) ==> Neat(keep, s)
  {
    hide Greedy, Placeable, Laid;
    var j :| 0 < j < |phrases| && Clash(word, phrases[j - 1], phrases[j]);
    assert forall k :: 0 <= k < |phrases| ==> phrases[k] in phrases;
    var w, n := phrases[j - 1][|phrases[j - 1]| - 1], phrases[j][0];
    s := Lay(word, phrases, w, n, keep);
    LaidIsPlaceable(word, phrases, s);
    ClashDefeatsGreedy(word, phrases, s, j);
    PhraseLaid(word, phrases, s, 0);
    OccursInside(phrases[0], s, Start(word, phrases, 0));
  }

  /** For every list of phrases, the greedy matcher is exact on every text exactly when no phrase that ends in a word
      character is followed by one that starts with none. */
  lemma GreedyExactIff(word: char -> bool, phrases: seq<string>)
    requires forall p :: p in phrases ==> |p| > 0
    ensures (forall s :: Greedy(word, phrases, 0, s, 0) <==> Placeable(word, phrases, s)) <==> NoClash(word, phrases)
  {
    if NoClash(word, phrases) {
      forall s ensures Greedy(word, phrases, 0, s, 0) <==> Placeable(word, phrases, s) {
        GreedyIsExact(word, phrases, s);
      }
    } else {
      var s := Defeat(word, phrases, _ => true);
    }
  }

  // ---------------------------------------------------------------- the metric under every setting of the options

  /** str.lower changes nothing in a text of blanks and characters that it has itself produced. */
  ghost predicate Settled(a: Alphabet) {
    forall s :: (forall c :: c in s ==> c == ' ' || Produced(a, c)) ==> a.lower(s) == s
  }

  ghost predicate Produced(a: Alphabet, c: char) { exists t :: c in a.lower(t) }

  /** The characters other than the blank that normalisation leaves. */
  ghost function Left(a: Alphabet, o: Options): char -> bool {
    c =>
      && !a.space(c) && c != ',' && c != ';' && (o.hyphen ==> c != '-' && c != '_')
      && (o.stripPunct ==> a.word(c)) && (o.lower ==> Produced(a, c))
  }

  lemma {:induction false} FilteredFrom(s: string, keep: char -> bool)
    ensures forall c :: c in Filtered(s, keep) ==> c in s
    ensures (forall c :: c in s ==> keep(c)) ==> Filtered(s, keep) == s
  {
    if |s| > 0 {
      FilteredFrom(s[1..], keep);
      assert s == [s[0]] + s[1..];
    }
  }

  lemma ReplacedFrom(s: string, hit: char -> bool)
    ensures forall c :: c in Replaced(s, hit) ==> c == ' ' || (c in s && !hit(c))
    ensures (forall c :: c in s ==> !hit(c)) ==> Replaced(s, hit) == s
  {
  }

  lemma SweptChars(a: Alphabet, o: Options, text: string)
    requires Sound(a)
    ensures forall c :: c in Swept(a, o, text) ==> c == ' ' || a.space(c) || Left(a, o)(c)
  {
    hide Filtered, Replaced;
    var t := if o.lower then a.lower(text) else text;
    ReplacedFrom(t, c => c == '-' || c == '_');
    var u := if o.hyphen then Replaced(t, c => c == '-' || c == '_') else t;
    ReplacedFrom(u, c => c == ',' || c == ';');
    var v := Replaced(u, c => c == ',' || c == ';');
    FilteredFrom(v, c => a.word(c) || a.space(c));
    assert o.lower ==> forall c :: c in t ==> Produced(a, c);
  }

  lemma SingleCons(c: char, s: string)
    requires Single(s) && (c == ' ' && |s| > 0 ==> s[0] != ' ')
    ensures Single([c] + s)
  {
    var t := [c] + s;
    forall i | 0 <= i < |t| - 1 && t[i] == ' ' ensures t[i + 1] != ' ' {
      if i > 0 { assert s[i - 1] == ' ' && s[i - 1 + 1] == t[i + 1]; }
    }
  }

  lemma SingleCut(s: string)
    requires Single(s) && |s| > 0
    ensures Single(s[1..]) && Single(s[..|s| - 1])
  {
    forall i | 0 <= i < |s| - 2 && s[1..][i] == ' ' ensures s[1..][i + 1] != ' ' { assert s[i + 1] == ' '; }
  }

  lemma {:induction false} CollapsedSingle(a: Alphabet, s: string, inRun: bool)
    requires a.space(' ')
    ensures
      var r := Collapsed(a, s, inRun);
      Single(r) && (inRun && |r| > 0 ==> r[0] != ' ')
  {
    if |s| > 0 {
      CollapsedSingle(a, s[1..], a.space(s[0]));
      SingleCons(if a.space(s[0]) then ' ' else s[0], Collapsed(a, s[1..], a.space(s[0])));
    }
  }

  lemma {:induction false} StrippedSingle(s: string)
    requires Single(s)
    ensures Single(Stripped(s))
  {
    if |s| > 0 {
      SingleCut(s);
      StrippedSingle(s[1..]);
      StrippedSingle(s[..|s| - 1]);
    }
  }

  lemma NormalizedIsNeat(a: Alphabet, o: Options, text: string)
    requires Sound(a)
    ensures Neat(Left(a, o), Normalize(a, o, text))
  {
    hide Collapsed, Stripped, Filtered, Replaced;
    var t := Swept(a, o, text);
    SweptChars(a, o, text);
    CollapsedSingle(a, t, false);
    StrippedSingle(Collapsed(a, t, false));
    hide Swept, Normalize, Left;
    LeftIsNoSpace(a, o);
    assert forall c :: c in Collapsed(a, t, false) ==> c == ' ' || (c in t && !a.space(c));
  }

  lemma LeftIsNoSpace(a: Alphabet, o: Options)
    requires Sound(a)
    ensures forall c :: Left(a, o)(c) ==> !a.space(c)
  {
  }

  lemma {:induction false} CollapsedFixed(a: Alphabet, s: string, inRun: bool)
    requires a.space(' ') && (forall c :: c in s ==> c == ' ' || !a.space(c))
    requires Single(s)
    requires inRun && |s| > 0 ==> s[0] != ' '
    ensures Collapsed(a, s, inRun) == s
  {
    if |s| > 0 {
      SingleCut(s);
      CollapsedFixed(a, s[1..], a.space(s[0]));
      assert s == [s[0]] + s[1..];
    }
  }

  lemma SweptFixed(a: Alphabet, o: Options, s: string)
    requires Sound(a) && (o.lower ==> Settled(a)) && forall c :: c in s ==> c == ' ' || Left(a, o)(c)
    ensures Swept(a, o, s) == s
  {
    hide Filtered, Replaced;
    ReplacedFrom(s, c => c == '-' || c == '_');
    ReplacedFrom(s, c => c == ',' || c == ';');
    FilteredFrom(s, c => a.word(c) || a.space(c));
    assert o.lower ==> a.lower(s) == s;
  }

  lemma NeatIsNormalized(a: Alphabet, o: Options, s: string)
    requires Sound(a) && (o.lower ==> Settled(a)) && Neat(Left(a, o), s)
    ensures Normalize(a, o, s) == s
  {
    SweptFixed(a, o, s);
    LeftIsNoSpace(a, o);
    CollapsedFixed(a, s, false);
  }

  /** Normalising twice is normalising once. */
  lemma NormalizeIsIdempotent(a: Alphabet, o: Options, text: string)
    requires Sound(a) && (o.lower ==> Settled(a))
    ensures Normalize(a, o, Normalize(a, o, text)) == Normalize(a, o, text)
  {
    NormalizedIsNeat(a, o, text);
    NeatIsNormalized(a, o, Normalize(a, o, text));
  }

  /** The metric says what it is for: both sides are there if they have to be, and the phrases can be placed. */
  ghost predicate MetricIsExact(a: Alphabet, o: Options, pred: string, answer: string, seps: seq<string>, needAny: bool) {
    var p, phrases := Normalize(a, o, pred), SplitPhrases(a, o, answer, seps);
    OrderedMatch(a, o, pred, answer, seps, needAny)
    <==> (needAny ==> |p| > 0 && |phrases| > 0) && Placeable(a.word, phrases, p)
  }

  /** For every setting of the options and every answer, the ordered metric is exact on all predictions exactly when no
      clash stands between two of the answer's phrases. */
  lemma MetricExactIff(a: Alphabet, o: Options, answer: string, seps: seq<string>, needAny: bool)
    requires Sound(a) && (o.lower ==> Settled(a))
    ensures
      (forall pred :: MetricIsExact(a, o, pred, answer, seps, needAny)) <==> NoClash(a.word, SplitPhrases(a, o, answer, seps))
  {
    hide Normalize, Greedy, Placeable, Neat;
    var phrases := SplitPhrases(a, o, answer, seps);
    if NoClash(a.word, phrases) {
      forall pred ensures MetricIsExact(a, o, pred, answer, seps, needAny) {
        GreedyIsExact(a.word, phrases, Normalize(a, o, pred));
      }
    } else {
      forall p | p in phrases ensures Neat(Left(a, o), p) {
        var t :| p == Normalize(a, o, t);
        NormalizedIsNeat(a, o, t);
      }
      var s := Defeat(a.word, phrases, Left(a, o));
      NeatIsNormalized(a, o, s);
      assert !MetricIsExact(a, o, s, answer, seps, needAny);
    }
  }

  lemma NormalizedPieces(a: Alphabet, o: Options)
    requires Sound(a) && (o.lower ==> Settled(a)) && Left(a, o)('a') && Left(a, o)('b') && Left(a, o)('+')
    ensures Normalize(a, o, "a") == "a" && Normalize(a, o, "+b") == "+b" && Normalize(a, o, "a+b") == "a+b"
  {
    hide Left, Normalize;
    NeatIsNormalized(a, o, "a");
    NeatIsNormalized(a, o, "+b");
    NeatIsNormalized(a, o, "a+b");
  }

  const SEPARATORS: seq<string> := [",", ";"]

  lemma LeadingDefault(s: string)
    ensures Leading(SEPARATORS, s) == if |s| > 0 && (s[0] == ',' || s[0] == ';') then 1 else 0
  {
    assert SEPARATORS[1..] == [";"] && [";"][1..] == [];
    assert Leading([";"], s) == if ";" <= s then 1 else 0;
  }

  lemma SplitAtComma()
    ensures Split(SEPARATORS, "a,+b", []) == ["a", "+b"]
  {
    hide Leading;
    LeadingDefault("a,+b");
    LeadingDefault(",+b");
    LeadingDefault("+b");
    LeadingDefault("b");
    assert "a,+b"[1..] == ",+b" && [] + ['a'] == "a" && ",+b"[1..] == "+b";
    assert "+b"[1..] == "b" && [] + ['+'] == "+" && "b"[1..] == [] && "+" + ['b'] == "+b";
    assert Split(SEPARATORS, "b", "+") == ["+b"];
    assert Split(SEPARATORS, "+b", []) == ["+b"];
  }

  /** Such a clash, where punctuation is kept: the answer "a,+b" has the phrases "a" and "+b", which stand in "a+b" one
      after the other, and the metric says no. */
  lemma PunctuationClash(a: Alphabet, o: Options, needAny: bool)
    requires Sound(a) && (o.lower ==> Settled(a)) && Left(a, o)('a') && Left(a, o)('b') && Left(a, o)('+')
    requires a.word('a') && a.word('b') && !a.word('+')
    ensures !MetricIsExact(a, o, "a+b", "a,+b", SEPARATORS, needAny)
  {
    hide Left, Normalize, Split;
    NormalizedPieces(a, o);
    SplitAtComma();
    var phrases := ["a", "+b"];
    assert NonEmptyNormalized(a, o, phrases[1..]) == ["+b"];
    assert SplitPhrases(a, o, "a,+b", SEPARATORS) == phrases;
    StandsTwice(a.word);
  }

  lemma StandsTwice(word: char -> bool)
    requires word('a') && word('b') && !word('+')
    ensures Placeable(word, ["a", "+b"], "a+b") && !Greedy(word, ["a", "+b"], 0, "a+b", 0)
  {
    var phrases, s := ["a", "+b"], "a+b";
    assert MatchAt(word, phrases[0], s, 0, 0) && MatchAt(word, phrases[1], s, 0, 1);
    assert Placement(word, phrases, 0, s, 0, [0, 1]);
    assert Leftmost(word, phrases[0], s, 0, 0) == 0;
    assert !MatchAt(word, phrases[1], s, 1, 1);
    assert Leftmost(word, phrases[1], s, 1, 1) == -1;
  }

  /** For every setting of the options, an ordered match is also an unordered match. */
  lemma OrderedImpliesUnordered(a: Alphabet, o: Options, pred: string, answer: string, seps: seq<string>, needAny: bool)
    requires OrderedMatch(a, o, pred, answer, seps, needAny)
    ensures UnorderedMatch(a, o, pred, answer, seps, needAny)
  {
    var s, phrases := Normalize(a, o, pred), SplitPhrases(a, o, answer, seps);
    var at := GreedyPlaces(a.word, phrases, 0, s, 0);
    forall q | q in phrases ensures Somewhere(a.word, q, s) {
      var k :| 0 <= k < |phrases| && phrases[k] == q;
      assert MatchAt(a.word, phrases[k], s, 0, at[k]);
    }
  }

  /** Under the default options a normalised phrase begins and ends with a word character. */
  lemma DefaultPhrase(a: Alphabet, t: string)
    requires Sound(a) && |Normalize(a, DEFAULT, t)| > 0
    ensures var p := Normalize(a, DEFAULT, t); a.word(p[0]) && a.word(p[|p| - 1])
  {
    var p := Normalize(a, DEFAULT, t);
    var u := Replaced(Replaced(a.lower(t), c => c == '-' || c == '_'), c => c == ',' || c == ';');
    var v := Filtered(u, c => a.word(c) || a.space(c));
    assert p == Stripped(Collapsed(a, v, false));
    assert p[0] in p && p[|p| - 1] in p;
    assert forall c :: c in p ==> c in Collapsed(a, v, false);
  }

  /** With default normalisation the ordered metric is true exactly when the answer's phrases can be
      placed in the prediction in order, without overlap and on word boundaries. */
  lemma DefaultOrderedIsExact(a: Alphabet, pred: string, answer: string, seps: seq<string>, needAny: bool)
    requires Sound(a)
    ensures MetricIsExact(a, DEFAULT, pred, answer, seps, needAny)
  {
    var phrases := SplitPhrases(a, DEFAULT, answer, seps);
    forall p | p in phrases ensures |p| > 0 && a.word(p[0]) {
      var t :| p == Normalize(a, DEFAULT, t);
      DefaultPhrase(a, t);
    }
    GreedyIsExact(a.word, phrases, Normalize(a, DEFAULT, pred));
  }
}
