/** The phrase metrics in terms of words. Normalisation turns a text into its words, joined by single blanks; and with the
    default options a phrase stands in a prediction, between word boundaries, exactly where its words stand among the
    prediction's words. */
module Words {
  import opened Sequences
  import opened Phrases

  // ---------------------------------------------------------------- the words of a text

  /** The pieces between the characters at which a text is cut, empty ones included. */
  function Pieces(s: string, cut: char -> bool): (r: seq<string>)
    ensures |r| > 0
  {
    if |s| == 0 then [[]]
    else
      var rest := Pieces(s[1..], cut);
      if cut(s[0]) then [[]] + rest else [[s[0]] + rest[0]] + rest[1..]
  }

  function NonEmptyOnes(pieces: seq<string>): seq<string> {
    if |pieces| == 0 then [] else (if |pieces[0]| > 0 then [pieces[0]] else []) + NonEmptyOnes(pieces[1..])
  }

  lemma {:induction false} NonEmptyMembers(pieces: seq<string>)
    ensures forall p :: p in NonEmptyOnes(pieces) <==> p in pieces && |p| > 0
  {
    if |pieces| > 0 {
      NonEmptyMembers(pieces[1..]);
      assert pieces == [pieces[0]] + pieces[1..];
    }
  }

  /** White space, commas and semicolons and, if asked for, hyphens and underscores separate words. */
  function Separates(a: Alphabet, o: Options): char -> bool {
    c => a.space(c) || c == ',' || c == ';' || (o.hyphen && (c == '-' || c == '_'))
  }

  /** A piece without its punctuation, if that is to go. */
  function Cleaned(a: Alphabet, o: Options): string -> string {
    p => if o.stripPunct then Filtered(p, a.word) else p
  }

  /** The words of a text: its pieces, cleaned, without those of which nothing is left. */
  function WordsOf(a: Alphabet, o: Options, text: string): seq<string> {
    NonEmptyOnes(MapSeq(Pieces(if o.lower then a.lower(text) else text, Separates(a, o)), Cleaned(a, o)))
  }

  /** Words joined by single blanks. */
  function Joined(words: seq<string>): string {
    if |words| == 0 then [] else if |words| == 1 then words[0] else words[0] + " " + Joined(words[1..])
  }

  // ---------------------------------------------------------------- collapsing white space

  lemma PiecesStep(s: string, cut: char -> bool)
    requires |s| > 0
    ensures
      var rest := Pieces(s[1..], cut);
      Pieces(s, cut) == if cut(s[0]) then [[]] + rest else [[s[0]] + rest[0]] + rest[1..]
  {
  }

  lemma NonEmptyStep(x: string, rest: seq<string>)
    ensures NonEmptyOnes([x] + rest) == (if |x| > 0 then [x] else []) + NonEmptyOnes(rest)
  {
    assert ([x] + rest)[1..] == rest;
  }

  lemma FirstPiece(s: string, cut: char -> bool)
    ensures Pieces(s, cut)[0] == [] <==> |s| == 0 || cut(s[0])
  {
  }

  /** The words between white space, by the first character. */
  lemma SpacedStep(a: Alphabet, s: string)
    requires |s| > 0
    ensures
      var words, rest := NonEmptyOnes(Pieces(s, a.space)), NonEmptyOnes(Pieces(s[1..], a.space));
      if a.space(s[0]) then words == rest
      else if |s| == 1 || a.space(s[1]) then words == [[s[0]]] + rest
      else |rest| > 0 && words == [[s[0]] + rest[0]] + rest[1..]
  {
    hide Pieces, NonEmptyOnes;
    var pieces := Pieces(s[1..], a.space);
    PiecesStep(s, a.space);
    FirstPiece(s[1..], a.space);
    if a.space(s[0]) {
      NonEmptyStep([], pieces);
    } else {
      NonEmptyLonger(s[0], pieces);
    }
  }

  lemma NonEmptyLonger(c: char, pieces: seq<string>)
    requires |pieces| > 0
    ensures
      var words, rest := NonEmptyOnes([[c] + pieces[0]] + pieces[1..]), NonEmptyOnes(pieces);
      if pieces[0] == [] then words == [[c]] + rest else |rest| > 0 && words == [[c] + rest[0]] + rest[1..]
  {
    hide NonEmptyOnes;
    var x, tail := pieces[0], pieces[1..];
    var t := NonEmptyOnes(tail);
    assert pieces == [x] + tail;
    NonEmptyStep(x, tail);
    NonEmptyStep([c] + x, tail);
    if x == [] {
      assert [c] + x == [c] && [] + t == t;
    } else {
      var rest := [x] + t;
      assert rest[0] == x && rest[1..] == t;
    }
  }

  lemma JoinedStep(x: string, words: seq<string>)
    ensures Joined([x] + words) == if |words| == 0 then x else x + " " + Joined(words)
  {
    assert ([x] + words)[1..] == words;
  }

  lemma Glue(c: char, x: string, y: string)
    ensures ([c] + x) + " " + y == [c] + (x + " " + y)
  {
  }

  lemma JoinedLonger(c: char, words: seq<string>)
    requires |words| > 0
    ensures Joined([[c] + words[0]] + words[1..]) == [c] + Joined(words)
  {
    hide Joined;
    var x, tail := words[0], words[1..];
    assert words == [x] + tail;
    JoinedStep(x, tail);
    JoinedStep([c] + x, tail);
    if |tail| > 0 { Glue(c, x, Joined(tail)); }
  }

  lemma CollapsedStep(a: Alphabet, s: string, inRun: bool)
    requires |s| > 0
    ensures
      Collapsed(a, s, inRun) ==
        if a.space(s[0]) then (if inRun then [] else " ") + Collapsed(a, s[1..], true) else [s[0]] + Collapsed(a, s[1..], false)
  {
  }

  /** A collapsed text is the words, joined, and perhaps a blank after the last. */
  ghost predicate JoinsTo(words: seq<string>, text: string) {
    text == Joined(words) || (|words| > 0 && text == Joined(words) + " ")
  }

  /** Collapsing inside a run of white space, and outside. */
  lemma {:induction false} CollapsedIs(a: Alphabet, s: string)
    requires a.space(' ')
    ensures
      var words, text := NonEmptyOnes(Pieces(s, a.space)), Collapsed(a, s, true);
      JoinsTo(words, text) && Collapsed(a, s, false) == if |s| > 0 && a.space(s[0]) then " " + text else text
  {
    if |s| > 0 {
      hide Pieces, NonEmptyOnes, Joined, Collapsed;
      var words, rest := NonEmptyOnes(Pieces(s, a.space)), NonEmptyOnes(Pieces(s[1..], a.space));
      var text := Collapsed(a, s[1..], true);
      CollapsedIs(a, s[1..]);
      SpacedStep(a, s);
      CollapsedStep(a, s, true);
      CollapsedStep(a, s, false);
      if a.space(s[0]) {
        assert [] + text == text;
      } else if |s| == 1 {
        NothingLeft(a, s);
        JoinedStep([s[0]], rest);
      } else if a.space(s[1]) {
        JoinsNew(s[0], rest, text);
      } else {
        JoinsLonger(s[0], rest, text);
      }
    } else {
      assert Pieces(s, a.space) == [[]] && Pieces(s, a.space)[1..] == [];
    }
  }

  lemma JoinsNew(c: char, rest: seq<string>, text: string)
    requires JoinsTo(rest, text) && (rest == [] ==> text == [])
    ensures JoinsTo([[c]] + rest, [c] + (" " + text))
  {
    hide Joined;
    JoinedStep([c], rest);
    assert |rest| > 0 ==> [c] + (" " + (Joined(rest) + " ")) == ([c] + " " + Joined(rest)) + " ";
    assert |rest| > 0 ==> [c] + (" " + Joined(rest)) == [c] + " " + Joined(rest);
    assert |rest| == 0 ==> [c] + (" " + text) == [c] + " ";
  }

  lemma JoinsLonger(c: char, rest: seq<string>, text: string)
    requires |rest| > 0 && JoinsTo(rest, text)
    ensures JoinsTo([[c] + rest[0]] + rest[1..], [c] + text)
  {
    hide Joined;
    JoinedLonger(c, rest);
    assert [c] + (Joined(rest) + " ") == [c] + Joined(rest) + " ";
  }

  lemma NothingLeft(a: Alphabet, s: string)
    requires |s| > 0
    ensures |s| == 1 ==> NonEmptyOnes(Pieces(s[1..], a.space)) == [] && Collapsed(a, s[1..], false) == []
  {
    if |s| == 1 {
      assert s[1..] == [];
      assert Pieces(s[1..], a.space) == [[]] && Pieces(s[1..], a.space)[1..] == [];
    }
  }

  // ---------------------------------------------------------------- stripping

  lemma StrippedIs(s: string)
    requires |s| > 0 ==> s[0] != ' ' && s[|s| - 1] != ' '
    ensures Stripped(s) == s && Stripped(" " + s) == s && Stripped(s + " ") == s && Stripped(" " + (s + " ")) == s
  {
    assert (" " + s)[1..] == s && (" " + (s + " "))[1..] == s + " ";
    assert (s + " ")[..|s|] == s;
    if |s| == 0 { assert s + " " == " " && " "[1..] == []; }
  }

  lemma {:induction false} JoinedEnds(words: seq<string>)
    requires forall w :: w in words ==> |w| > 0 && ' ' !in w
    ensures var s := Joined(words); |s| > 0 ==> s[0] != ' ' && s[|s| - 1] != ' '
    ensures |words| > 0 ==> |Joined(words)| > 0
  {
    if |words| > 0 {
      assert words[0] in words;
      assert words[0][0] in words[0] && words[0][|words[0]| - 1] in words[0];
      if |words| > 1 { JoinedEnds(words[1..]); }
    }
  }

  lemma {:induction false} PiecesLackCuts(s: string, cut: char -> bool)
    ensures forall p, c :: p in Pieces(s, cut) && c in p ==> !cut(c) && c in s
  {
    if |s| > 0 {
      var rest := Pieces(s[1..], cut);
      PiecesLackCuts(s[1..], cut);
      forall p, c | p in Pieces(s, cut) && c in p ensures !cut(c) && c in s {
        if p in rest { assert c in s[1..]; }
        else if !cut(s[0]) && c != s[0] { assert c in rest[0] && c in s[1..]; }
      }
    }
  }

  lemma TrimmedIs(a: Alphabet, s: string)
    requires a.space(' ')
    ensures Stripped(Collapsed(a, s, false)) == Joined(NonEmptyOnes(Pieces(s, a.space)))
  {
    hide Stripped, Collapsed, Pieces, NonEmptyOnes;
    var words := NonEmptyOnes(Pieces(s, a.space));
    CollapsedIs(a, s);
    PiecesLackCuts(s, a.space);
    NonEmptyMembers(Pieces(s, a.space));
    JoinedEnds(words);
    StrippedIs(Joined(words));
  }

  // ---------------------------------------------------------------- the passes before it

  lemma {:induction false} PiecesReplaced(s: string, cut: char -> bool, hit: char -> bool)
    requires cut(' ')
    ensures Pieces(Replaced(s, hit), cut) == Pieces(s, c => cut(c) || hit(c))
  {
    if |s| > 0 {
      PiecesReplaced(s[1..], cut, hit);
      assert Replaced(s, hit)[1..] == Replaced(s[1..], hit);
    }
  }

  lemma {:induction false} PiecesSame(s: string, cut: char -> bool, other: char -> bool)
    requires forall c :: cut(c) == other(c)
    ensures Pieces(s, cut) == Pieces(s, other)
  {
    if |s| > 0 { PiecesSame(s[1..], cut, other); }
  }

  lemma FilteredStep(c: char, s: string, keep: char -> bool)
    ensures Filtered([c] + s, keep) == (if keep(c) then [c] else []) + Filtered(s, keep)
  {
    assert ([c] + s)[1..] == s;
  }

  lemma MapStep(x: string, rest: seq<string>, f: string -> string)
    ensures MapSeq([x] + rest, f) == [f(x)] + MapSeq(rest, f)
  {
  }

  lemma {:induction false} PiecesFiltered(a: Alphabet, s: string)
    requires Sound(a)
    ensures Pieces(Filtered(s, c => a.word(c) || a.space(c)), a.space) == MapSeq(Pieces(s, a.space), p => Filtered(p, a.word))
  {
    var keep, clean := (c: char) => a.word(c) || a.space(c), (p: string) => Filtered(p, a.word);
    if |s| == 0 {
      MapStep([], [], clean);
    } else {
      PiecesFiltered(a, s[1..]);
      hide Pieces, MapSeq, Filtered;
      var pieces := Pieces(s[1..], a.space);
      var x, tail := pieces[0], pieces[1..];
      assert pieces == [x] + tail && s == [s[0]] + s[1..];
      PiecesStep(s, a.space);
      FilteredStep(s[0], s[1..], keep);
      FilteredStep(s[0], x, a.word);
      MapStep(x, tail, clean);
      MapStep([s[0]] + x, tail, clean);
      MapStep([], pieces, clean);
      NothingFiltered(a.word);
      var t := Filtered(s[1..], keep);
      if keep(s[0]) {
        PiecesStep([s[0]] + t, a.space);
        assert ([s[0]] + t)[1..] == t;
      } else {
        assert [] + t == t && [] + clean(x) == clean(x);
      }
    }
  }

  lemma NothingFiltered(keep: char -> bool)
    ensures Filtered([], keep) == []
  {
  }

  lemma MapNothing(s: seq<string>)
    ensures MapSeq(s, p => p) == s
  {
  }

  lemma SweptPieces(a: Alphabet, o: Options, text: string)
    requires Sound(a)
    ensures
      Pieces(Swept(a, o, text), a.space)
      == MapSeq(Pieces(if o.lower then a.lower(text) else text, Separates(a, o)), Cleaned(a, o))
  {
    hide Pieces, Replaced, Filtered;
    var hyphen, comma := (c: char) => c == '-' || c == '_', (c: char) => c == ',' || c == ';';
    var t := if o.lower then a.lower(text) else text;
    var u := if o.hyphen then Replaced(t, hyphen) else t;
    var v := Replaced(u, comma);
    PiecesReplaced(u, a.space, comma);
    var cut := (c: char) => a.space(c) || comma(c);
    if o.hyphen {
      PiecesReplaced(t, cut, hyphen);
      PiecesSame(t, c => cut(c) || hyphen(c), Separates(a, o));
    } else {
      PiecesSame(t, cut, Separates(a, o));
    }
    assert Pieces(v, a.space) == Pieces(t, Separates(a, o));
    PiecesFiltered(a, v);
    MapNothing(Pieces(v, a.space));
  }

  /** For every setting of the options, the normalised text is exactly the words of the text, in order, joined by one blank. */
  lemma NormalizeIs(a: Alphabet, o: Options, text: string)
    requires Sound(a)
    ensures Normalize(a, o, text) == Joined(WordsOf(a, o, text))
  {
    SweptPieces(a, o, text);
    TrimmedIs(a, Swept(a, o, text));
  }

  // ---------------------------------------------------------------- splitting

  /** No separator stands at the front; empty ones never do. */
  ghost predicate NoSeparator(seps: seq<string>, s: string) {
    forall k :: 0 <= k < |seps| && |seps[k]| > 0 ==> !(seps[k] <= s)
  }

  /** Separator k stands at the front, and none before it in the list does. */
  ghost predicate FirstSeparator(seps: seq<string>, s: string, k: nat) {
    k < |seps| && |seps[k]| > 0 && seps[k] <= s && forall j :: 0 <= j < k && |seps[j]| > 0 ==> !(seps[j] <= s)
  }

  /** The parts are the text between separators: no separator begins inside a part, and what is taken out after it is, of
      those that begin there, the first in the list. */
  ghost predicate SplitsAs(seps: seq<string>, s: string, parts: seq<string>)
    decreases |parts|
  {
    && |parts| > 0 && parts[0] <= s
    && (forall i :: 0 <= i < |parts[0]| ==> NoSeparator(seps, s[i..]))
    && var rest := s[|parts[0]|..];
    if |parts| == 1 then rest == [] else exists k: nat :: FirstSeparator(seps, rest, k) && SplitsAs(seps, rest[|seps[k]|..], parts[1..])
  }

  lemma {:induction false} LeadingIs(seps: seq<string>, s: string)
    ensures Leading(seps, s) == 0 ==> NoSeparator(seps, s)
    ensures Leading(seps, s) > 0 ==> exists k: nat :: FirstSeparator(seps, s, k) && |seps[k]| == Leading(seps, s)
  {
    if |seps| > 0 {
      if |seps[0]| > 0 && seps[0] <= s {
        assert FirstSeparator(seps, s, 0);
      } else {
        LeadingIs(seps[1..], s);
        if Leading(seps, s) > 0 {
          var k: nat :| FirstSeparator(seps[1..], s, k) && |seps[1..][k]| == Leading(seps, s);
          assert FirstSeparator(seps, s, k + 1);
        }
      }
    }
  }

  /** What has been read of a part stands in front of it. */
  lemma {:induction false} SplitFront(seps: seq<string>, s: string, part: string)
    ensures var r := Split(seps, s, []); |r| > 0 && Split(seps, s, part) == [part + r[0]] + r[1..]
    decreases |s|
  {
    if |s| == 0 {
      assert part + [] == part;
    } else if Leading(seps, s) > 0 {
      assert part + [] == part;
    } else {
      SplitFront(seps, s[1..], part + [s[0]]);
      SplitFront(seps, s[1..], [] + [s[0]]);
      var r := Split(seps, s[1..], []);
      assert part + [s[0]] + r[0] == part + ([s[0]] + r[0]) && [] + [s[0]] + r[0] == [s[0]] + r[0];
    }
  }

  /** Splitting a text, for any separators. */
  lemma {:induction false} SplitMeans(seps: seq<string>, s: string)
    ensures SplitsAs(seps, s, Split(seps, s, []))
    decreases |s|
  {
    if |s| > 0 {
      var n := Leading(seps, s);
      LeadingIs(seps, s);
      if n > 0 {
        SplitMeans(seps, s[n..]);
        SplitStep(seps, s);
        hide Split;
        NextPart(seps, s, n, Split(seps, s[n..], []));
      } else {
        SplitMeans(seps, s[1..]);
        SplitStep(seps, s);
        hide Split;
        OneMore(seps, s, Split(seps, s[1..], []));
      }
    }
  }

  lemma SplitStep(seps: seq<string>, s: string)
    requires |s| > 0
    ensures var n := Leading(seps, s); n > 0 ==> Split(seps, s, []) == [[]] + Split(seps, s[n..], [])
    ensures Leading(seps, s) == 0 ==> var r := Split(seps, s[1..], []); |r| > 0 && Split(seps, s, []) == [[s[0]] + r[0]] + r[1..]
  {
    if Leading(seps, s) == 0 {
      SplitFront(seps, s[1..], [] + [s[0]]);
      var r := Split(seps, s[1..], []);
      assert [] + [s[0]] + r[0] == [s[0]] + r[0];
    }
  }

  lemma NextPart(seps: seq<string>, s: string, n: nat, r: seq<string>)
    requires n <= |s| && SplitsAs(seps, s[n..], r) && exists k: nat :: FirstSeparator(seps, s, k) && |seps[k]| == n
    ensures SplitsAs(seps, s, [[]] + r)
  {
    var k: nat :| FirstSeparator(seps, s, k) && |seps[k]| == n;
    assert ([[]] + r)[1..] == r && s[0..] == s;
  }

  lemma OneMore(seps: seq<string>, s: string, r: seq<string>)
    requires |s| > 0 && NoSeparator(seps, s) && SplitsAs(seps, s[1..], r)
    ensures SplitsAs(seps, s, [[s[0]] + r[0]] + r[1..])
  {
    var x := [s[0]] + r[0];
    assert s == [s[0]] + s[1..];
    assert x <= s;
    forall i | 0 <= i < |x| ensures NoSeparator(seps, s[i..]) {
      if i > 0 { assert s[i..] == s[1..][i - 1..]; } else { assert s[0..] == s; }
    }
    assert s[|x|..] == s[1..][|r[0]|..];
    assert ([x] + r[1..])[1..] == r[1..];
  }

  /** With the default separators the parts are the pieces between commas and semicolons. */
  lemma {:induction false} SplitIsPieces(s: string)
    ensures Split(SEPARATORS, s, []) == Pieces(s, c => c == ',' || c == ';')
  {
    if |s| > 0 {
      hide Leading;
      LeadingDefault(s);
      SplitIsPieces(s[1..]);
      SplitFront(SEPARATORS, s[1..], [] + [s[0]]);
      var r := Split(SEPARATORS, s[1..], []);
      assert [] + [s[0]] + r[0] == [s[0]] + r[0];
    }
  }

  // ---------------------------------------------------------------- words joined, and where they stand

  /** Words of word characters only; the blank between them is none. */
  ghost predicate Proper(word: char -> bool, words: seq<string>) {
    !word(' ') && forall k :: 0 <= k < |words| ==> |words[k]| > 0 && forall c :: c in words[k] ==> word(c)
  }

  /** The list stands among the words from position m on. */
  ghost predicate StandsAt(q: seq<string>, words: seq<string>, m: nat) {
    m + |q| <= |words| && words[m..m + |q|] == q
  }

  /** Where word m begins in the joined text. */
  function Offset(words: seq<string>, m: nat): nat
    requires m <= |words|
  {
    if m == 0 then 0 else |words[0]| + 1 + Offset(words[1..], m - 1)
  }

  lemma {:induction false} OffsetNext(words: seq<string>, m: nat)
    requires m < |words|
    ensures Offset(words, m + 1) == Offset(words, m) + |words[m]| + 1
  {
    if m > 0 { OffsetNext(words[1..], m - 1); }
  }

  lemma {:induction false} OffsetGrows(words: seq<string>, m: nat, n: nat)
    requires m <= n <= |words| && forall k :: 0 <= k < |words| ==> |words[k]| > 0
    ensures Offset(words, n) >= Offset(words, m) + 2 * (n - m)
  {
    if m < n {
      OffsetGrows(words, m, n - 1);
      OffsetNext(words, n - 1);
    }
  }

  /** The joined text from word m on, and what stands before it. */
  lemma {:induction false} JoinedFrom(words: seq<string>, m: nat)
    requires m < |words|
    ensures
      var s := Joined(words);
      && Offset(words, m) <= |s| && s[Offset(words, m)..] == Joined(words[m..])
      && (m > 0 ==> Offset(words, m) > 0 && s[Offset(words, m) - 1] == ' ')
  {
    if m == 0 {
      assert words[0..] == words && Joined(words)[0..] == Joined(words);
    } else {
      var x, rest := words[0], words[1..];
      var n, t := Offset(rest, m - 1), Joined(rest);
      JoinedFrom(rest, m - 1);
      assert Joined(words) == (x + " ") + t && Offset(words, m) == |x + " "| + n;
      hide Joined, Offset;
      assert rest[m - 1..] == words[m..];
      TailOf(x + " ", t, n);
    }
  }

  lemma TailOf(x: string, t: string, n: nat)
    requires n <= |t|
    ensures (x + t)[|x| + n..] == t[n..]
    ensures n > 0 ==> (x + t)[|x| + n - 1] == t[n - 1]
  {
  }

  /** The text ends at n, or goes on with something that is no word character. */
  predicate Breaks(word: char -> bool, s: string, n: nat)
    requires n <= |s|
  {
    n == |s| || !word(s[n])
  }

  /** A joined text starts with its first word, and breaks after it. */
  lemma FirstWord(word: char -> bool, words: seq<string>)
    requires Proper(word, words) && |words| > 0
    ensures
      var s, w := Joined(words), words[0];
      && w <= s && (forall i :: 0 <= i < |w| ==> word(s[i]))
      && (if |words| > 1 then |s| > |w| && s[|w|] == ' ' else s == w)
  {
    var s, w := Joined(words), words[0];
    forall i | 0 <= i < |w| ensures word(w[i]) { assert w[i] in w; }
    assert |words| > 1 ==> s == w + " " + Joined(words[1..]);
  }

  lemma BehindFirst(words: seq<string>)
    requires |words| > 1
    ensures
      var s, t, n := Joined(words), Joined(words[1..]), |words[0]| + 1;
      |s| == n + |t| && forall i :: n <= i < |s| ==> s[i] == t[i - n]
  {
    assert Joined(words) == (words[0] + " ") + Joined(words[1..]);
  }

  /** A word character that follows none begins a word. */
  lemma {:induction false} WordStart(word: char -> bool, words: seq<string>, i: nat) returns (m: nat)
    requires Proper(word, words) && i < |Joined(words)| && word(Joined(words)[i]) && (i == 0 || !word(Joined(words)[i - 1]))
    ensures m < |words| && Offset(words, m) == i
  {
    NothingJoined(words);
    if i == 0 {
      m := 0;
    } else {
      hide Joined;
      FirstWord(word, words);
      BehindFirst(words);
      m := WordStart(word, words[1..], i - |words[0]| - 1);
      m := m + 1;
    }
  }

  lemma NothingJoined(words: seq<string>)
    ensures |words| == 0 ==> Joined(words) == []
  {
  }

  /** The first words are the same, if the joined texts start the same and break there. */
  lemma SameFirst(word: char -> bool, q: seq<string>, words: seq<string>)
    requires Proper(word, q) && Proper(word, words) && |q| > 0 && |words| > 0
    requires Joined(q) <= Joined(words) && Breaks(word, Joined(words), |Joined(q)|)
    ensures q[0] == words[0]
  {
    hide Joined;
    FirstWord(word, q);
    FirstWord(word, words);
    assert |q[0]| == |words[0]|;
    assert q[0] == Joined(words)[..|q[0]|] && words[0] == Joined(words)[..|words[0]|];
  }

  lemma {:induction false} PrefixIsWords(word: char -> bool, q: seq<string>, words: seq<string>)
    requires Proper(word, q) && Proper(word, words) && |q| > 0 && |words| > 0
    requires Joined(q) <= Joined(words) && Breaks(word, Joined(words), |Joined(q)|)
    ensures StandsAt(q, words, 0)
  {
    SameFirst(word, q, words);
    var x := q[0];
    if |q| > 1 {
      var s, t := Joined(words), Joined(q);
      assert t == x + " " + Joined(q[1..]);
      assert |words| > 1;
      assert s == x + " " + Joined(words[1..]);
      CutFront(x + " ", Joined(q[1..]), Joined(words[1..]));
      PrefixIsWords(word, q[1..], words[1..]);
      assert words[..|q|] == [x] + words[1..][..|q| - 1];
      assert q == [x] + q[1..];
    }
  }

  lemma CutFront(x: string, t: string, s: string)
    requires x + t <= x + s
    ensures t <= s && (|x + t| < |x + s| ==> (x + s)[|x + t|] == s[|t|])
  {
    assert (x + s)[..|x + t|] == x + t;
    assert t == (x + t)[|x|..] && s[..|t|] == (x + s)[|x|..|x + t|];
  }

  lemma {:induction false} JoinedSplit(p: seq<string>, q: seq<string>)
    requires |p| > 0 && |q| > 0
    ensures Joined(p + q) == Joined(p) + " " + Joined(q)
  {
    assert (p + q)[1..] == p[1..] + q;
    if |p| > 1 {
      JoinedSplit(p[1..], q);
      assert p[0] + " " + (Joined(p[1..]) + " " + Joined(q)) == (p[0] + " " + Joined(p[1..])) + " " + Joined(q);
    } else {
      assert p[1..] + q == q;
    }
  }

  lemma WordsArePrefix(word: char -> bool, q: seq<string>, words: seq<string>)
    requires Proper(word, words) && |q| > 0 && StandsAt(q, words, 0)
    ensures Joined(q) <= Joined(words) && Breaks(word, Joined(words), |Joined(q)|)
  {
    if |q| < |words| {
      assert words == q + words[|q|..];
      JoinedSplit(q, words[|q|..]);
    } else {
      assert words == q;
    }
  }

  lemma ProperFrom(word: char -> bool, words: seq<string>, m: nat)
    requires Proper(word, words) && m <= |words|
    ensures Proper(word, words[m..])
  {
  }

  lemma LastWord(word: char -> bool, words: seq<string>)
    requires Proper(word, words) && |words| > 0
    ensures var s := Joined(words); |s| > 0 && word(s[0]) && word(s[|s| - 1])
  {
    hide Joined, Offset;
    var n, s := |words| - 1, Joined(words);
    FirstWord(word, words);
    JoinedFrom(words, n);
    ProperFrom(word, words, n);
    FirstWord(word, words[n..]);
    var t := s[Offset(words, n)..];
    assert t[|t| - 1] == s[|s| - 1];
  }

  /** A phrase that begins and ends with a word character, with none before it and none behind. */
  lemma BoundedIs(word: char -> bool, p: string, s: string, i: int)
    requires |p| > 0 && word(p[0]) && word(p[|p| - 1])
    ensures
      MatchAt(word, p, s, 0, i)
      <==> 0 <= i && i + |p| <= |s| && p <= s[i..] && (i == 0 || !word(s[i - 1])) && Breaks(word, s[i..], |p|)
  {
    OccursIsPrefix(p, s, i);
    hide OccursAt;
    if 0 <= i && i + |p| <= |s| && p <= s[i..] {
      var t := s[i..];
      assert t[0] == s[i] && t[|p| - 1] == s[i + |p| - 1] && (|p| < |t| ==> t[|p|] == s[i + |p|]);
    }
  }

  /** A phrase of words stands in a text of words, between word boundaries, exactly where its words stand among the
      text's words. */
  lemma MatchIsStanding(word: char -> bool, q: seq<string>, words: seq<string>, i: int)
    requires Proper(word, q) && Proper(word, words) && |q| > 0
    ensures
      MatchAt(word, Joined(q), Joined(words), 0, i)
      <==> exists m: nat :: m < |words| && Offset(words, m) == i && StandsAt(q, words, m)
  {
    hide Joined, Offset, StandsAt;
    LastWord(word, q);
    if MatchAt(word, Joined(q), Joined(words), 0, i) {
      var m := MatchStands(word, q, words, i);
    }
    if m: nat :| m < |words| && Offset(words, m) == i && StandsAt(q, words, m) {
      StandingMatches(word, q, words, m);
    }
  }

  lemma OccursIsPrefix(p: string, s: string, i: int)
    ensures OccursAt(p, s, i) <==> 0 <= i <= |s| && p <= s[i..]
  {
  }

  lemma MatchStands(word: char -> bool, q: seq<string>, words: seq<string>, i: int) returns (m: nat)
    requires Proper(word, q) && Proper(word, words) && |q| > 0 && MatchAt(word, Joined(q), Joined(words), 0, i)
    ensures m < |words| && Offset(words, m) == i && StandsAt(q, words, m)
  {
    hide Joined, Offset, MatchAt, StandsAt;
    var s, t := Joined(words), Joined(q);
    LastWord(word, q);
    BoundedIs(word, t, s, i);
    assert s[i] == s[i..][0] == t[0];
    m := WordStart(word, words, i);
    JoinedFrom(words, m);
    ProperFrom(word, words, m);
    PrefixIsWords(word, q, words[m..]);
    StandsFrom(q, words, m);
  }

  lemma StandsFrom(q: seq<string>, words: seq<string>, m: nat)
    requires m <= |words|
    ensures StandsAt(q, words[m..], 0) <==> StandsAt(q, words, m)
  {
    if m + |q| <= |words| { assert words[m..][0..|q|] == words[m..m + |q|]; }
  }

  lemma StandingMatches(word: char -> bool, q: seq<string>, words: seq<string>, m: nat)
    requires Proper(word, q) && Proper(word, words) && |q| > 0 && m < |words| && StandsAt(q, words, m)
    ensures MatchAt(word, Joined(q), Joined(words), 0, Offset(words, m))
  {
    hide Joined, Offset, MatchAt, StandsAt;
    var s, t, i := Joined(words), Joined(q), Offset(words, m);
    LastWord(word, q);
    JoinedFrom(words, m);
    ProperFrom(word, words, m);
    StandsFrom(q, words, m);
    WordsArePrefix(word, q, words[m..]);
    BoundedIs(word, t, s, i);
    OffsetStart(words, m);
  }

  lemma OffsetStart(words: seq<string>, m: nat)
    requires m <= |words|
    ensures Offset(words, m) == 0 <==> m == 0
  {
  }

  // ---------------------------------------------------------------- phrases in order

  /** Positions among the words, in order and without overlap, at which the phrases stand. */
  ghost predicate InOrder(phrases: seq<seq<string>>, words: seq<string>, at: seq<nat>) {
    && |at| == |phrases|
    && (forall k :: 0 <= k < |at| ==> StandsAt(phrases[k], words, at[k]))
    && (forall k :: 0 < k < |at| ==> at[k - 1] + |phrases[k - 1]| <= at[k])
  }

  ghost predicate AllProper(word: char -> bool, phrases: seq<seq<string>>) {
    forall k :: 0 <= k < |phrases| ==> |phrases[k]| > 0 && Proper(word, phrases[k])
  }

  lemma {:induction false} JoinedLength(words: seq<string>)
    requires |words| > 0
    ensures |Joined(words)| + 1 == Offset(words, |words|)
  {
    if |words| > 1 { JoinedLength(words[1..]); }
  }

  lemma {:induction false} OffsetSplit(words: seq<string>, m: nat, n: nat)
    requires m + n <= |words|
    ensures Offset(words, m + n) == Offset(words, m) + Offset(words[m..m + n], n)
  {
    if n > 0 {
      OffsetSplit(words, m, n - 1);
      OffsetNext(words, m + n - 1);
      var part := words[m..m + n];
      OffsetNext(part, n - 1);
      OffsetSame(part, words[m..m + n - 1], n - 1);
    }
  }

  lemma {:induction false} OffsetSame(a: seq<string>, b: seq<string>, n: nat)
    requires n <= |a| && n <= |b| && a[..n] == b[..n]
    ensures Offset(a, n) == Offset(b, n)
  {
    if n > 0 {
      assert a[0] == a[..n][0] == b[..n][0] == b[0];
      assert a[1..][..n - 1] == a[..n][1..] == b[..n][1..] == b[1..][..n - 1];
      OffsetSame(a[1..], b[1..], n - 1);
    }
  }

  /** One phrase ends before the other begins, in characters exactly when in words. */
  lemma EndsBefore(q: seq<string>, words: seq<string>, m: nat, n: nat)
    requires |q| > 0 && StandsAt(q, words, m) && n <= |words| && forall k :: 0 <= k < |words| ==> |words[k]| > 0
    ensures Offset(words, m) + |Joined(q)| <= Offset(words, n) <==> m + |q| <= n
  {
    hide Offset, Joined;
    OffsetSplit(words, m, |q|);
    JoinedLength(q);
    if m + |q| <= n { OffsetGrows(words, m + |q|, n); } else { OffsetGrows(words, n, m + |q|); }
  }

  lemma PlacedInWords(word: char -> bool, phrases: seq<seq<string>>, words: seq<string>, at: seq<nat>) returns (to: seq<nat>)
    requires AllProper(word, phrases) && Proper(word, words)
    requires Placement(word, MapSeq(phrases, Joined), 0, Joined(words), 0, at)
    ensures InOrder(phrases, words, to)
  {
    hide Joined, Offset, MatchAt, StandsAt;
    to := [];
    while |to| < |phrases|
      invariant |to| <= |phrases|
      invariant forall k :: 0 <= k < |to| ==> to[k] < |words| && Offset(words, to[k]) == at[k] && StandsAt(phrases[k], words, to[k])
    {
      var k := |to|;
      assert MatchAt(word, MapSeq(phrases, Joined)[k], Joined(words), 0, at[k]);
      var m := MatchStands(word, phrases[k], words, at[k]);
      to := to + [m];
    }
    forall k | 0 < k < |to| ensures to[k - 1] + |phrases[k - 1]| <= to[k] {
      EndsBefore(phrases[k - 1], words, to[k - 1], to[k]);
    }
  }

  /** What a placement among the words says of phrase k. */
  lemma PhraseStands(word: char -> bool, phrases: seq<seq<string>>, words: seq<string>, at: seq<nat>, k: nat)
    requires AllProper(word, phrases) && InOrder(phrases, words, at) && k < |phrases|
    ensures |phrases[k]| > 0 && Proper(word, phrases[k]) && at[k] < |words| && StandsAt(phrases[k], words, at[k])
    ensures k > 0 ==> at[k - 1] + |phrases[k - 1]| <= at[k]
  {
    assert StandsAt(phrases[k], words, at[k]);
  }

  ghost function OffsetsOf(words: seq<string>, at: seq<nat>): seq<nat> {
    seq(|at|, k requires 0 <= k < |at| => if at[k] <= |words| then Offset(words, at[k]) else 0)
  }

  lemma WordsArePlaced(word: char -> bool, phrases: seq<seq<string>>, words: seq<string>, at: seq<nat>)
    requires AllProper(word, phrases) && Proper(word, words) && InOrder(phrases, words, at)
    ensures Placeable(word, MapSeq(phrases, Joined), Joined(words))
  {
    var joined, to := MapSeq(phrases, Joined), OffsetsOf(words, at);
    forall k | 0 <= k < |phrases| ensures joined[k] == Joined(phrases[k]) && at[k] <= |words| && to[k] == Offset(words, at[k]) {
      PhraseStands(word, phrases, words, at, k);
    }
    PlacedFrom(word, phrases, joined, words, at, to);
  }

  lemma HaveLetters(word: char -> bool, words: seq<string>)
    requires Proper(word, words)
    ensures forall k :: 0 <= k < |words| ==> |words[k]| > 0
  {
  }

  lemma PlacedFrom(
    word: char -> bool, phrases: seq<seq<string>>, joined: seq<string>, words: seq<string>, at: seq<nat>, to: seq<nat>)
    requires AllProper(word, phrases) && Proper(word, words) && InOrder(phrases, words, at) && |joined| == |phrases| == |to| == |at|
    requires forall k :: 0 <= k < |phrases| ==> joined[k] == Joined(phrases[k]) && at[k] <= |words| && to[k] == Offset(words, at[k])
    ensures Placement(word, joined, 0, Joined(words), 0, to)
  {
    hide Joined, Offset, MatchAt, StandsAt, InOrder, AllProper, Proper;
    HaveLetters(word, words);
    forall k | 0 <= k < |phrases| ensures MatchAt(word, joined[k], Joined(words), 0, to[k]) {
      PhraseStands(word, phrases, words, at, k);
      StandingMatches(word, phrases[k], words, at[k]);
    }
    forall k | 0 < k < |phrases| ensures to[k - 1] + |joined[k - 1]| <= to[k] {
      PhraseStands(word, phrases, words, at, k - 1);
      PhraseStands(word, phrases, words, at, k);
      EndsBefore(phrases[k - 1], words, at[k - 1], at[k]);
    }
  }

  // ---------------------------------------------------------------- the metrics

  /** The word lists of the parts, without those that have none. */
  function WordLists(a: Alphabet, o: Options, parts: seq<string>): (r: seq<seq<string>>)
    ensures forall k :: 0 <= k < |r| ==> |r[k]| > 0 && exists t :: r[k] == WordsOf(a, o, t)
  {
    if |parts| == 0 then []
    else
      var words := WordsOf(a, o, parts[0]);
      (if |words| > 0 then [words] else []) + WordLists(a, o, parts[1..])
  }

  /** The phrases of an answer, as lists of words. */
  function PhraseLists(a: Alphabet, o: Options, answer: string, seps: seq<string>): seq<seq<string>> {
    WordLists(a, o, if |seps| == 0 then [answer] else Split(seps, answer, []))
  }

  lemma WordsAreClean(a: Alphabet, o: Options, text: string)
    requires Sound(a)
    ensures forall w :: w in WordsOf(a, o, text) ==> |w| > 0 && forall c :: c in w ==> !a.space(c) && (o.stripPunct ==> a.word(c))
  {
    hide Pieces;
    var t := if o.lower then a.lower(text) else text;
    var pieces := Pieces(t, Separates(a, o));
    PiecesLackCuts(t, Separates(a, o));
    NonEmptyMembers(MapSeq(pieces, Cleaned(a, o)));
    forall w, c | w in MapSeq(pieces, Cleaned(a, o)) && c in w ensures !a.space(c) && (o.stripPunct ==> a.word(c)) {
      var k :| 0 <= k < |pieces| && w == Cleaned(a, o)(pieces[k]);
      FilteredFrom(pieces[k], a.word);
      assert pieces[k] in pieces && c in pieces[k];
    }
  }

  lemma NormalizedLength(a: Alphabet, o: Options, text: string)
    requires Sound(a)
    ensures |Normalize(a, o, text)| > 0 <==> |WordsOf(a, o, text)| > 0
  {
    hide WordsOf, Normalize;
    NormalizeIs(a, o, text);
    WordsAreClean(a, o, text);
    JoinedEnds(WordsOf(a, o, text));
  }

  lemma MapFront<A, B>(front: seq<A>, rest: seq<A>, f: A -> B)
    ensures MapSeq(front + rest, f) == MapSeq(front, f) + MapSeq(rest, f)
  {
  }

  lemma OneNormalized(a: Alphabet, o: Options, part: string)
    requires Sound(a)
    ensures
      var p, words := Normalize(a, o, part), WordsOf(a, o, part);
      (if |p| > 0 then [p] else []) == MapSeq(if |words| > 0 then [words] else [], Joined)
  {
    hide WordsOf, Normalize, Joined;
    NormalizeIs(a, o, part);
    NormalizedLength(a, o, part);
  }

  lemma {:induction false} NormalizedLists(a: Alphabet, o: Options, parts: seq<string>)
    requires Sound(a)
    ensures NonEmptyNormalized(a, o, parts) == MapSeq(WordLists(a, o, parts), Joined)
  {
    if |parts| > 0 {
      NormalizedLists(a, o, parts[1..]);
      OneNormalized(a, o, parts[0]);
      var words := WordsOf(a, o, parts[0]);
      MapFront(if |words| > 0 then [words] else [], WordLists(a, o, parts[1..]), Joined);
      hide WordsOf, Normalize, Joined, MapSeq;
    }
  }

  lemma DefaultIsProper(a: Alphabet, text: string)
    requires Sound(a)
    ensures Proper(a.word, WordsOf(a, DEFAULT, text))
  {
    WordsAreClean(a, DEFAULT, text);
    var words := WordsOf(a, DEFAULT, text);
    hide WordsOf;
    forall k | 0 <= k < |words| ensures |words[k]| > 0 && forall c :: c in words[k] ==> a.word(c) { assert words[k] in words; }
  }

  lemma DefaultLists(a: Alphabet, answer: string, seps: seq<string>)
    requires Sound(a)
    ensures AllProper(a.word, PhraseLists(a, DEFAULT, answer, seps))
    ensures SplitPhrases(a, DEFAULT, answer, seps) == MapSeq(PhraseLists(a, DEFAULT, answer, seps), Joined)
  {
    hide WordsOf, Split, Proper;
    NormalizedLists(a, DEFAULT, if |seps| == 0 then [answer] else Split(seps, answer, []));
    var lists := PhraseLists(a, DEFAULT, answer, seps);
    forall k | 0 <= k < |lists| ensures |lists[k]| > 0 && Proper(a.word, lists[k]) {
      var t :| lists[k] == WordsOf(a, DEFAULT, t);
      DefaultIsProper(a, t);
    }
  }

  /** With the default options the ordered metric holds exactly when the words of the answer's phrases stand among the
      words of the prediction, phrase after phrase, without overlap. */
  lemma OrderedInWords(a: Alphabet, pred: string, answer: string, seps: seq<string>, needAny: bool)
    requires Sound(a)
    ensures
      var words, phrases := WordsOf(a, DEFAULT, pred), PhraseLists(a, DEFAULT, answer, seps);
      OrderedMatch(a, DEFAULT, pred, answer, seps, needAny)
      <==> (needAny ==> |words| > 0 && |phrases| > 0) && exists at :: InOrder(phrases, words, at)
  {
    hide WordsOf, PhraseLists, SplitPhrases, Normalize, OrderedMatch, Joined, InOrder, Placement, AllProper, Proper;
    var words, phrases := WordsOf(a, DEFAULT, pred), PhraseLists(a, DEFAULT, answer, seps);
    DefaultOrderedIsExact(a, pred, answer, seps, needAny);
    DefaultLists(a, answer, seps);
    DefaultIsProper(a, pred);
    NormalizeIs(a, DEFAULT, pred);
    NormalizedLength(a, DEFAULT, pred);
    if at :| Placement(a.word, MapSeq(phrases, Joined), 0, Joined(words), 0, at) {
      var to := PlacedInWords(a.word, phrases, words, at);
    }
    if at :| InOrder(phrases, words, at) { WordsArePlaced(a.word, phrases, words, at); }
  }

  /** The phrase's words stand somewhere among the words. */
  ghost predicate Stands(q: seq<string>, words: seq<string>) {
    exists m: nat :: StandsAt(q, words, m)
  }

  lemma SomewhereIsStanding(word: char -> bool, q: seq<string>, words: seq<string>)
    requires Proper(word, q) && Proper(word, words) && |q| > 0
    ensures Somewhere(word, Joined(q), Joined(words)) <==> Stands(q, words)
  {
    hide Joined, MatchAt, Proper, Offset;
    var i := Leftmost(word, Joined(q), Joined(words), 0, 0);
    if i >= 0 { var m := MatchStands(word, q, words, i); }
    if m: nat :| StandsAt(q, words, m) {
      StandingMatches(word, q, words, m);
      assert MatchAt(word, Joined(q), Joined(words), 0, Offset(words, m));
    }
  }

  /** And the unordered metric exactly when the words of every phrase stand somewhere among them. */
  lemma UnorderedInWords(a: Alphabet, pred: string, answer: string, seps: seq<string>, needAny: bool)
    requires Sound(a)
    ensures
      var words, phrases := WordsOf(a, DEFAULT, pred), PhraseLists(a, DEFAULT, answer, seps);
      UnorderedMatch(a, DEFAULT, pred, answer, seps, needAny)
      <==> (needAny ==> |words| > 0 && |phrases| > 0) && forall k :: 0 <= k < |phrases| ==> Stands(phrases[k], words)
  {
    hide WordsOf, PhraseLists, SplitPhrases, Normalize, Joined, Proper, Somewhere, Stands;
    var words, phrases := WordsOf(a, DEFAULT, pred), PhraseLists(a, DEFAULT, answer, seps);
    DefaultLists(a, answer, seps);
    DefaultIsProper(a, pred);
    NormalizeIs(a, DEFAULT, pred);
    NormalizedLength(a, DEFAULT, pred);
    var joined := MapSeq(phrases, Joined);
    forall k | 0 <= k < |phrases| ensures Somewhere(a.word, joined[k], Joined(words)) <==> Stands(phrases[k], words) {
      SomewhereIsStanding(a.word, phrases[k], words);
    }
    assert forall k :: 0 <= k < |phrases| ==> joined[k] in joined;
    forall p | p in joined ensures exists k :: 0 <= k < |phrases| && joined[k] == p {}
  }
}
