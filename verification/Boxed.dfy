/** The balanced-brace parser for the last \boxed{...} of an answer. */
module Boxed {
  import opened Sequences

  const MARKER: string := "\\boxed{"

  /** str.strip, for a given class of white space. */
  function Trim(space: char -> bool, s: string): string {
    if |s| == 0 then []
    else if space(s[0]) then Trim(space, s[1..])
    else if space(s[|s| - 1]) then Trim(space, s[..|s| - 1])
    else s
  }

  /** Trimming removes white space only, at the ends only, and all of it. */
  lemma {:induction false} TrimMeaning(space: char -> bool, s: string) returns (l: nat, r: nat)
    ensures l <= r <= |s| && Trim(space, s) == s[l..r]
    ensures forall k :: 0 <= k < |s| && !(l <= k < r) ==> space(s[k])
    ensures l < r ==> !space(s[l]) && !space(s[r - 1])
  {
    if |s| == 0 {
      l, r := 0, 0;
    } else if space(s[0]) {
      var t := s[1..];
      l, r := TrimMeaning(space, t);
      assert t[l..r] == s[l + 1..r + 1];
      assert forall k :: 0 < k < |s| ==> s[k] == t[k - 1];
      l, r := l + 1, r + 1;
    } else if space(s[|s| - 1]) {
      var t := s[..|s| - 1];
      l, r := TrimMeaning(space, t);
      assert t[l..r] == s[l..r];
      assert forall k :: 0 <= k < |t| ==> s[k] == t[k];
    } else {
      l, r := 0, |s|;
    }
  }

  lemma TrimBlank(space: char -> bool, s: string)
    ensures |Trim(space, s)| == 0 <==> forall c :: c in s ==> space(c)
  {
    var l, r := TrimMeaning(space, s);
    if l < r { assert s[l] in s; }
  }

  /** str.rfind: the last place at which the needle occurs, or -1. */
  function LastIndex(text: string, needle: string, upTo: nat): (i: int)
    requires upTo <= |text|
    ensures i == -1 || (0 <= i <= upTo && OccursAt(needle, text, i))
    ensures forall j :: 0 <= j <= upTo && OccursAt(needle, text, j) ==> j <= i
    decreases upTo
  {
    if OccursAt(needle, text, upTo) then upTo
    else if upTo == 0 then -1
    else LastIndex(text, needle, upTo - 1)
  }

  function Turn(c: char): int {
    if c == '{' then 1 else if c == '}' then -1 else 0
  }

  /** Where the loop stops: at the brace that brings the depth to zero, or at the end of the text. */
  function Close(text: string, i: nat, depth: nat): (j: nat)
    requires i <= |text| && depth > 0
    ensures i <= j <= |text|
    decreases |text| - i
  {
    if i == |text| || depth + Turn(text[i]) == 0 then i
    else Close(text, i + 1, depth + Turn(text[i]))
  }

  function Answer(space: char -> bool, text: string): string {
    var at := LastIndex(text, MARKER, |text|);
    if at < 0 then Trim(space, text)
    else
      var open := at + |MARKER|;
      var parsed := Trim(space, text[open..Close(text, open, 1)]);
      if |parsed| > 0 then parsed else Trim(space, text)
  }

  method ExtractBoxedAnswer(space: char -> bool, text: string) returns (r: string)
    ensures r == Answer(space, text)
  {
    var at := LastIndex(text, MARKER, |text|);
    if at == -1 {
      return Trim(space, text);
    }
    var open := at + |MARKER|;
    var out := CollectBody(text, open);
    var parsed := Trim(space, out);
    return if |parsed| > 0 then parsed else Trim(space, text);
  }

  method CollectBody(text: string, open: nat) returns (out: string)
    requires open <= |text|
    ensures out == text[open..Close(text, open, 1)]
  {
    var i, depth := open, 1;
    out := [];
    while i < |text| && depth > 0
      invariant open <= i <= |text| && depth > 0
      invariant out == text[open..i]
      invariant Close(text, i, depth) == Close(text, open, 1)
      decreases |text| - i
    {
      var ch := text[i];
      assert text[open..i + 1] == text[open..i] + [ch];
      if ch == '{' {
        depth := depth + 1;
        out := out + [ch];
      } else if ch == '}' {
        depth := depth - 1;
        if depth == 0 { break; }
        out := out + [ch];
      } else {
        out := out + [ch];
      }
      i := i + 1;
    }
  }

  // ---------------------------------------------------------------- braces

  /** Opening braces less closing braces in s[i..j]. */
  function Depth(s: string, i: nat, j: nat): int
    requires i <= j <= |s|
    decreases j
  {
    if i == j then 0 else Depth(s, i, j - 1) + Turn(s[j - 1])
  }

  /** No stretch s[i..k] closes more than it opens. */
  ghost predicate NeverBelow(s: string, i: nat, j: nat)
    requires i <= j <= |s|
  {
    forall k :: i <= k <= j ==> Depth(s, i, k) >= 0
  }

  predicate Balanced(s: string) {
    Depth(s, 0, |s|) == 0 && forall k :: 0 <= k <= |s| ==> Depth(s, 0, k) >= 0
  }

  /** The loop stops exactly at the brace that closes the marker's, or at the end when none does. */
  lemma {:induction false} CloseMeaning(text: string, open: nat, i: nat)
    requires open <= i <= |text| && NeverBelow(text, open, i)
    ensures
      var j := Close(text, i, 1 + Depth(text, open, i));
      && NeverBelow(text, open, j)
      && (j < |text| ==> text[j] == '}' && Depth(text, open, j) == 0)
    decreases |text| - i
  {
    var depth := 1 + Depth(text, open, i);
    if i < |text| && depth + Turn(text[i]) != 0 {
      assert Depth(text, open, i + 1) == Depth(text, open, i) + Turn(text[i]);
      CloseMeaning(text, open, i + 1);
    }
  }

  /** The closing brace of a balanced stretch is where the loop stops. */
  lemma CloseFound(text: string, open: nat, close: nat)
    requires open <= close < |text| && text[close] == '}'
    requires NeverBelow(text, open, close) && Depth(text, open, close) == 0
    ensures Close(text, open, 1) == close
  {
    CloseMeaning(text, open, open);
    var j := Close(text, open, 1);
    assert Depth(text, open, close + 1) == Depth(text, open, close) + Turn(text[close]);
    if j < |text| {
      assert Depth(text, open, j + 1) == Depth(text, open, j) + Turn(text[j]);
    }
  }

  lemma {:induction false} DepthMoves(text: string, open: nat, body: string, k: nat)
    requires open + |body| <= |text| && k <= |body|
    requires forall i :: 0 <= i < |body| ==> body[i] == text[open + i]
    ensures Depth(text, open, open + k) == Depth(body, 0, k)
  {
    if k > 0 {
      DepthMoves(text, open, body, k - 1);
    }
  }

  lemma BalancedInPlace(text: string, open: nat, body: string)
    requires open + |body| <= |text| && Balanced(body)
    requires forall i :: 0 <= i < |body| ==> body[i] == text[open + i]
    ensures NeverBelow(text, open, open + |body|) && Depth(text, open, open + |body|) == 0
  {
    DepthMoves(text, open, body, |body|);
    forall k | open <= k <= open + |body| ensures Depth(text, open, k) >= 0 {
      DepthMoves(text, open, body, k - open);
    }
  }

  // ---------------------------------------------------------------- round trip

  /** A text that prints a body between the marker and a closing brace. */
  ghost predicate Prints(text: string, at: nat, body: string, post: string) {
    var open := at + |MARKER|;
    && |text| == open + |body| + 1 + |post|
    && OccursAt(MARKER, text, at)
    && (forall i :: 0 <= i < |body| ==> body[i] == text[open + i])
    && text[open + |body|] == '}'
    && (forall i :: 0 <= i < |post| ==> post[i] == text[open + |body| + 1 + i])
  }

  /** With no marker in the body or after it, there is none after the one before the body. */
  lemma NoLaterMarker(text: string, at: nat, body: string, post: string, j: nat)
    requires Prints(text, at, body, post) && at < j
    requires !Contains(body, MARKER) && !Contains(post, MARKER)
    ensures !OccursAt(MARKER, text, j)
  {
    var open, close := at + |MARKER|, at + |MARKER| + |body|;
    if j < open {
      MarkerStartsOnce(text, at, j);
    } else if j + |MARKER| <= close {
      InsideBody(text, at, body, post, j);
    } else if j <= close {
      NotAcrossBrace(text, j, close);
    } else {
      AfterBody(text, at, body, post, j);
    }
  }

  lemma NotAcrossBrace(text: string, j: nat, close: nat)
    requires j <= close < j + |MARKER| && close < |text| && text[close] == '}'
    ensures !OccursAt(MARKER, text, j)
  {
    assert text[j + (close - j)] != MARKER[close - j];
  }

  lemma MarkerStartsOnce(text: string, at: nat, j: nat)
    requires OccursAt(MARKER, text, at) && at < j < at + |MARKER|
    ensures !OccursAt(MARKER, text, j)
  {
    var k := j - at;
    assert text[at + k] == MARKER[k] != MARKER[0];
  }

  lemma InsideBody(text: string, at: nat, body: string, post: string, j: nat)
    requires Prints(text, at, body, post) && at + |MARKER| <= j && j + |MARKER| <= at + |MARKER| + |body|
    ensures OccursAt(MARKER, text, j) ==> OccursAt(MARKER, body, j - at - |MARKER|)
  {
    var o := j - at - |MARKER|;
    if OccursAt(MARKER, text, j) {
      assert forall k :: 0 <= k < |MARKER| ==> body[o + k] == MARKER[k];
    }
  }

  lemma AfterBody(text: string, at: nat, body: string, post: string, j: nat)
    requires Prints(text, at, body, post) && at + |MARKER| + |body| < j
    ensures OccursAt(MARKER, text, j) ==> OccursAt(MARKER, post, j - at - |MARKER| - |body| - 1)
  {
    var o := j - at - |MARKER| - |body| - 1;
    if OccursAt(MARKER, text, j) {
      assert forall k :: 0 <= k < |MARKER| ==> post[o + k] == MARKER[k];
    }
  }

  /** Printing a brace-balanced body as \boxed{body} inside any text is undone, up to outer white space,
      for any nesting depth; a blank body falls back to the whole text. */
  lemma BoxedRoundTrip(space: char -> bool, pre: string, body: string, post: string)
    requires Balanced(body) && !Contains(body, MARKER) && !Contains(post, MARKER)
    ensures
      var text := pre + "\\boxed{" + body + "}" + post;
      Answer(space, text) ==
        if exists c :: c in body && !space(c) then Trim(space, body) else Trim(space, text)
  {
    var text := pre + MARKER + body + "}" + post;
    assert Prints(text, |pre|, body, post);
    PrintedAnswer(space, text, |pre|, body, post);
  }

  lemma LastMarker(text: string, at: nat, body: string, post: string)
    requires Prints(text, at, body, post)
    requires !Contains(body, MARKER) && !Contains(post, MARKER)
    ensures LastIndex(text, MARKER, |text|) == at
  {
    forall j | at < j <= |text| ensures !OccursAt(MARKER, text, j) {
      NoLaterMarker(text, at, body, post, j);
    }
  }

  lemma PrintedBody(text: string, at: nat, body: string, post: string)
    requires Prints(text, at, body, post) && Balanced(body)
    ensures
      var open := at + |MARKER|;
      open <= |text| && text[open..Close(text, open, 1)] == body
  {
    var open := at + |MARKER|;
    var close := open + |body|;
    BalancedInPlace(text, open, body);
    assert text[open..close] == body;
    hide Prints, Balanced, NeverBelow, Depth, Close;
    CloseFound(text, open, close);
  }

  lemma PrintedAnswer(space: char -> bool, text: string, at: nat, body: string, post: string)
    requires Prints(text, at, body, post)
    requires Balanced(body) && !Contains(body, MARKER) && !Contains(post, MARKER)
    ensures
      Answer(space, text) ==
        if exists c :: c in body && !space(c) then Trim(space, body) else Trim(space, text)
  {
    LastMarker(text, at, body, post);
    PrintedBody(text, at, body, post);
    hide Prints, Trim, LastIndex, Close, Contains, Balanced;
    TrimBlank(space, body);
  }

  /** Without a marker the answer is the whole text, trimmed. */
  lemma UnboxedAnswer(space: char -> bool, text: string)
    requires !Contains(text, MARKER)
    ensures Answer(space, text) == Trim(space, text)
  {
    assert forall i :: 0 <= i <= |text| ==> !OccursAt(MARKER, text, i);
  }
}
