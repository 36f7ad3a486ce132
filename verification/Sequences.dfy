/** Sequence facts shared by the models: ordering, sorting and text search. */
module Sequences {

  datatype Option<+T> = None | Some(value: T)

  // ---------------------------------------------------------------- lexicographic order

  /** Lexicographic order; a proper prefix comes first. */
  predicate LexLe(a: seq<int>, b: seq<int>) {
    |a| == 0 || (|b| > 0 && (a[0] < b[0] || (a[0] == b[0] && LexLe(a[1..], b[1..]))))
  }

  lemma {:induction false} LexTotal(a: seq<int>, b: seq<int>)
    ensures LexLe(a, b) || LexLe(b, a)
    ensures LexLe(a, b) && LexLe(b, a) ==> a == b
  {
    if |a| > 0 && |b| > 0 && a[0] == b[0] {
      LexTotal(a[1..], b[1..]);
      assert a == [a[0]] + a[1..] && b == [b[0]] + b[1..];
    }
  }

  lemma {:induction false} LexTransitive(a: seq<int>, b: seq<int>, c: seq<int>)
    requires LexLe(a, b) && LexLe(b, c)
    ensures LexLe(a, c)
  {
    if |a| > 0 && a[0] == b[0] == c[0] {
      LexTransitive(a[1..], b[1..], c[1..]);
    }
  }

  /** The code points of a string: how Python compares strings. */
  function CodePoints(s: string): (r: seq<int>)
    ensures |r| == |s|
    ensures forall i :: 0 <= i < |s| ==> r[i] == s[i] as int
  {
    seq(|s|, i requires 0 <= i < |s| => s[i] as int)
  }

  lemma CodePointsInjective(a: string, b: string)
    requires CodePoints(a) == CodePoints(b)
    ensures a == b
  {
    assert forall i :: 0 <= i < |a| ==> CodePoints(a)[i] as char == CodePoints(b)[i] as char;
    assert forall i :: 0 <= i < |a| ==> a[i] == CodePoints(a)[i] as char && b[i] == CodePoints(b)[i] as char;
  }

  // ---------------------------------------------------------------- stable sort

  function Insert<T>(x: T, s: seq<T>, le: (T, T) -> bool): (r: seq<T>) {
    if |s| == 0 || le(x, s[0]) then [x] + s else [s[0]] + Insert(x, s[1..], le)
  }

  /** Stable insertion sort; equal keys keep their order. */
  function SortBy<T>(s: seq<T>, le: (T, T) -> bool): (r: seq<T>) {
    if |s| == 0 then [] else Insert(s[0], SortBy(s[1..], le), le)
  }

  ghost predicate TotalPreorder<T(!new)>(le: (T, T) -> bool) {
    && (forall x, y :: le(x, y) || le(y, x))
    && (forall x, y, z :: le(x, y) && le(y, z) ==> le(x, z))
  }

  ghost predicate Sorted<T>(s: seq<T>, le: (T, T) -> bool) {
    forall i, j :: 0 <= i < j < |s| ==> le(s[i], s[j])
  }

  lemma {:induction false} InsertPermutes<T>(x: T, s: seq<T>, le: (T, T) -> bool)
    ensures multiset(Insert(x, s, le)) == multiset(s) + multiset{x}
  {
    if |s| > 0 {
      assert s == [s[0]] + s[1..];
      if !le(x, s[0]) {
        InsertPermutes(x, s[1..], le);
      }
    }
  }

  lemma {:induction false} SortPermutes<T>(s: seq<T>, le: (T, T) -> bool)
    ensures multiset(SortBy(s, le)) == multiset(s)
    ensures |SortBy(s, le)| == |s|
  {
    if |s| > 0 {
      assert s == [s[0]] + s[1..];
      SortPermutes(s[1..], le);
      InsertPermutes(s[0], SortBy(s[1..], le), le);
    }
    assert |multiset(SortBy(s, le))| == |multiset(s)|;
  }

  lemma {:induction false} InsertSorted<T(!new)>(x: T, s: seq<T>, le: (T, T) -> bool)
    requires TotalPreorder(le) && Sorted(s, le)
    ensures Sorted(Insert(x, s, le), le)
  {
    if |s| > 0 && !le(x, s[0]) {
      InsertSorted(x, s[1..], le);
      InsertPermutes(x, s[1..], le);
      var tail := Insert(x, s[1..], le);
      forall j | 0 <= j < |tail| ensures le(s[0], tail[j]) {
        assert tail[j] in multiset(tail);
        assert tail[j] == x || tail[j] in multiset(s[1..]);
      }
    } else if |s| > 0 {
      forall j | 0 <= j < |s| ensures le(x, s[j]) {
        assert le(x, s[0]) && (j == 0 || le(s[0], s[j]));
      }
    }
  }

  lemma {:induction false} SortSorted<T(!new)>(s: seq<T>, le: (T, T) -> bool)
    requires TotalPreorder(le)
    ensures Sorted(SortBy(s, le), le)
  {
    if |s| > 0 {
      SortSorted(s[1..], le);
      InsertSorted(s[0], SortBy(s[1..], le), le);
    }
  }

  /** The elements with a property, in order. */
  function Having<T>(s: seq<T>, p: T -> bool): seq<T> {
    if |s| == 0 then [] else (if p(s[0]) then [s[0]] else []) + Having(s[1..], p)
  }

  lemma HavingCons<T>(x: T, s: seq<T>, p: T -> bool)
    ensures Having([x] + s, p) == (if p(x) then [x] else []) + Having(s, p)
  {
    assert ([x] + s)[1..] == s;
  }

  lemma {:induction false} InsertStable<T>(x: T, s: seq<T>, le: (T, T) -> bool, p: T -> bool)
    requires forall y :: y in s && p(x) && p(y) ==> le(x, y)
    ensures Having(Insert(x, s, le), p) == (if p(x) then [x] else []) + Having(s, p)
  {
    if |s| == 0 || le(x, s[0]) {
      HavingCons(x, s, p);
    } else {
      InsertStable(x, s[1..], le, p);
      HavingCons(s[0], Insert(x, s[1..], le), p);
      assert s == [s[0]] + s[1..];
      hide Insert, Having;
    }
  }

  /** Elements that tie with each other keep their order. */
  lemma {:induction false} SortStable<T(!new)>(s: seq<T>, le: (T, T) -> bool, p: T -> bool)
    requires forall x, y :: x in s && y in s && p(x) && p(y) ==> le(x, y)
    ensures Having(SortBy(s, le), p) == Having(s, p)
  {
    if |s| > 0 {
      var rest := SortBy(s[1..], le);
      SortStable(s[1..], le, p);
      SortMembers(s[1..], le, rest);
      forall y | y in rest && p(s[0]) && p(y) ensures le(s[0], y) { assert y in s[1..]; }
      InsertStable(s[0], rest, le, p);
    }
  }

  lemma SortMembers<T(!new)>(s: seq<T>, le: (T, T) -> bool, sorted: seq<T>)
    requires sorted == SortBy(s, le)
    ensures forall x :: x in sorted <==> x in s
  {
    SortPermutes(s, le);
    forall x ensures x in sorted <==> x in s { assert x in multiset(sorted) <==> x in multiset(s); }
  }

  function MapSeq<A, B>(s: seq<A>, f: A -> B): (r: seq<B>)
    ensures |r| == |s|
    ensures forall i :: 0 <= i < |s| ==> r[i] == f(s[i])
  {
    seq(|s|, i requires 0 <= i < |s| => f(s[i]))
  }

  lemma {:induction false} InsertMap<A, B>(x: A, s: seq<A>, f: A -> B, le: (A, A) -> bool, le2: (B, B) -> bool)
    requires forall y :: y in s ==> le(x, y) == le2(f(x), f(y))
    ensures MapSeq(Insert(x, s, le), f) == Insert(f(x), MapSeq(s, f), le2)
  {
    if |s| == 0 {
    } else if le(x, s[0]) {
      assert MapSeq([x] + s, f) == [f(x)] + MapSeq(s, f);
    } else {
      InsertMap(x, s[1..], f, le, le2);
      assert MapSeq(s, f)[1..] == MapSeq(s[1..], f);
      assert MapSeq([s[0]] + Insert(x, s[1..], le), f) == [f(s[0])] + MapSeq(Insert(x, s[1..], le), f);
    }
  }

  /** Sorting commutes with any map that keeps the sort key. */
  lemma {:induction false} SortMap<A, B>(s: seq<A>, f: A -> B, le: (A, A) -> bool, le2: (B, B) -> bool)
    requires forall x, y :: x in s && y in s ==> le(x, y) == le2(f(x), f(y))
    ensures MapSeq(SortBy(s, le), f) == SortBy(MapSeq(s, f), le2)
  {
    if |s| > 0 {
      SortMap(s[1..], f, le, le2);
      SortPermutes(s[1..], le);
      forall y | y in SortBy(s[1..], le) ensures le(s[0], y) == le2(f(s[0]), f(y)) {
        assert y in multiset(SortBy(s[1..], le));
      }
      InsertMap(s[0], SortBy(s[1..], le), f, le, le2);
      assert MapSeq(s, f)[1..] == MapSeq(s[1..], f);
    }
  }

  lemma TailMultiset<T>(s: seq<T>)
    requires |s| > 0
    ensures multiset(s[1..]) == multiset(s) - multiset{s[0]}
  {
    assert s == [s[0]] + s[1..];
  }

  lemma HeadIsLeast<T(!new)>(a: seq<T>, b: seq<T>, le: (T, T) -> bool)
    requires Sorted(a, le) && |a| > 0 && |b| > 0 && multiset(a) == multiset(b) && forall x, y :: le(x, y) || le(y, x)
    ensures le(a[0], b[0])
  {
    assert b[0] in multiset(a);
    var j :| 0 <= j < |a| && a[j] == b[0];
    assert j == 0 || le(a[0], a[j]);
  }

  /** Under a total order (no ties), a collection has one sorted listing. */
  lemma {:induction false} SortedUnique<T(!new)>(a: seq<T>, b: seq<T>, le: (T, T) -> bool)
    requires Sorted(a, le) && Sorted(b, le) && multiset(a) == multiset(b)
    requires TotalPreorder(le) && forall x, y :: le(x, y) && le(y, x) ==> x == y
    ensures a == b
  {
    assert |multiset(a)| == |a| && |multiset(b)| == |b|;
    if |a| > 0 {
      HeadIsLeast(a, b, le);
      HeadIsLeast(b, a, le);
      TailMultiset(a);
      TailMultiset(b);
      SortedTail(a, le);
      SortedTail(b, le);
      hide Sorted, TotalPreorder;
      SortedUnique(a[1..], b[1..], le);
      assert a == [a[0]] + a[1..] && b == [b[0]] + b[1..];
    }
  }

  lemma SortedTail<T>(s: seq<T>, le: (T, T) -> bool)
    requires |s| > 0 && Sorted(s, le)
    ensures Sorted(s[1..], le)
  {
  }

  /** The first n elements: all of them when there are fewer, none when n is not positive. */
  function Take<T>(s: seq<T>, n: int): seq<T> {
    if n <= 0 then [] else if n <= |s| then s[..n] else s
  }

  // ---------------------------------------------------------------- repetition-free sequences

  ghost predicate Distinct<T>(s: seq<T>) {
    forall i, j :: 0 <= i < j < |s| ==> s[i] != s[j]
  }

  lemma {:induction false} DistinctOnce<T>(s: seq<T>, x: T)
    requires Distinct(s)
    ensures multiset(s)[x] == if x in s then 1 else 0
  {
    if |s| > 0 {
      assert s == s[..|s| - 1] + [s[|s| - 1]];
      DistinctOnce(s[..|s| - 1], x);
    }
  }

  /** Distinct numbers below n are at most n many. */
  lemma {:induction false} DistinctBelow(s: seq<nat>, n: nat)
    requires Distinct(s) && forall x :: x in s ==> x < n
    ensures |s| <= n
  {
    if |s| > 0 {
      assert s[0] in s;
      if n - 1 in s {
        var i :| 0 <= i < |s| && s[i] == n - 1;
        var rest := s[..i] + s[i + 1..];
        forall x | x in rest ensures x < n - 1 { assert x in s; }
        DistinctBelow(rest, n - 1);
      } else {
        DistinctBelow(s, n - 1);
      }
    }
  }

  lemma TwiceCounted<T>(s: seq<T>, i: nat, j: nat)
    requires i < j < |s| && s[i] == s[j]
    ensures multiset(s)[s[i]] >= 2
  {
    assert s == s[..i] + [s[i]] + s[i + 1..j] + [s[j]] + s[j + 1..];
  }

  /** A rearrangement of a repetition-free sequence is repetition-free. */
  lemma DistinctPermuted<T>(a: seq<T>, b: seq<T>)
    requires Distinct(a) && multiset(b) <= multiset(a)
    ensures Distinct(b)
  {
    forall i, j | 0 <= i < j < |b| ensures b[i] != b[j] {
      DistinctOnce(a, b[i]);
      if b[i] == b[j] { TwiceCounted(b, i, j); }
    }
  }

  // ---------------------------------------------------------------- text search

  predicate OccursAt(needle: string, text: string, at: int) {
    0 <= at && at + |needle| <= |text| && forall k :: 0 <= k < |needle| ==> text[at + k] == needle[k]
  }

  /** Python's `needle in text`. */
  predicate Contains(text: string, needle: string) {
    exists i :: 0 <= i <= |text| && OccursAt(needle, text, i)
  }

  predicate EndsWith(s: string, tail: string) {
    |tail| <= |s| && s[|s| - |tail|..] == tail
  }

  // ---------------------------------------------------------------- sums and counts

  function SumBy<T>(s: seq<T>, f: T -> nat): nat {
    if |s| == 0 then 0 else f(s[0]) + SumBy(s[1..], f)
  }

  lemma {:induction false} SumSplit<T>(a: seq<T>, b: seq<T>, f: T -> nat)
    ensures SumBy(a + b, f) == SumBy(a, f) + SumBy(b, f)
  {
    if |a| == 0 {
      assert a + b == b;
    } else {
      SumSplit(a[1..], b, f);
      assert (a + b)[1..] == a[1..] + b;
    }
  }

  lemma {:induction false} SumPermuted<T>(a: seq<T>, b: seq<T>, f: T -> nat)
    requires multiset(a) == multiset(b)
    ensures SumBy(a, f) == SumBy(b, f)
  {
    if |a| == 0 {
      assert |multiset(b)| == 0;
    } else {
      var i := Partner(a, b);
      SumPermuted(a[1..], b[..i] + b[i + 1..], f);
      SumWithout(b, i, f);
    }
  }

  /** Where the other listing has the first element of this one. */
  lemma Partner<T>(a: seq<T>, b: seq<T>) returns (i: nat)
    requires |a| > 0 && multiset(a) == multiset(b)
    ensures i < |b| && b[i] == a[0] && multiset(a[1..]) == multiset(b[..i] + b[i + 1..])
  {
    assert a[0] in multiset(b);
    i :| 0 <= i < |b| && b[i] == a[0];
    TailMultiset(a);
    MultisetWithout(b, i);
  }

  lemma MultisetWithout<T>(s: seq<T>, i: nat)
    requires i < |s|
    ensures multiset(s[..i] + s[i + 1..]) == multiset(s) - multiset{s[i]}
  {
    assert s == s[..i] + [s[i]] + s[i + 1..];
  }

  lemma SumWithout<T>(s: seq<T>, i: nat, f: T -> nat)
    requires i < |s|
    ensures SumBy(s, f) == f(s[i]) + SumBy(s[..i] + s[i + 1..], f)
  {
    hide SumBy;
    var u, v := s[..i], s[i + 1..];
    assert s == u + ([s[i]] + v);
    SumSplit(u, [s[i]] + v, f);
    SumSplit(u, v, f);
    SumOfCons(s[i], v, f);
  }

  lemma SumOfCons<T>(x: T, s: seq<T>, f: T -> nat)
    ensures SumBy([x] + s, f) == f(x) + SumBy(s, f)
  {
    assert ([x] + s)[1..] == s;
  }

  function Indicator<T>(p: T -> bool): T -> nat {
    x => if p(x) then 1 else 0
  }

  function Count<T>(s: seq<T>, p: T -> bool): nat {
    SumBy(s, Indicator(p))
  }

  lemma SumUpdate<T>(s: seq<T>, f: T -> nat, i: nat, x: T)
    requires i < |s|
    ensures SumBy(s[i := x], f) == SumBy(s, f) - f(s[i]) + f(x)
  {
    hide SumBy;
    var t := s[i := x];
    SumWithout(s, i, f);
    SumWithout(t, i, f);
    assert t[..i] == s[..i] && t[i + 1..] == s[i + 1..];
  }

  lemma CountUpdate<T>(s: seq<T>, p: T -> bool, i: nat, x: T)
    requires i < |s|
    ensures Count(s[i := x], p) == Count(s, p) - (if p(s[i]) then 1 else 0) + (if p(x) then 1 else 0)
  {
    hide SumBy;
    SumUpdate(s, Indicator(p), i, x);
  }

  lemma {:induction false} CountImplied<T>(s: seq<T>, p: T -> bool, q: T -> bool)
    requires forall x :: x in s && p(x) ==> q(x)
    ensures Count(s, p) <= Count(s, q) <= |s|
  {
    if |s| > 0 {
      CountImplied(s[1..], p, q);
    }
  }

  lemma {:induction false} CountNone<T>(s: seq<T>, p: T -> bool)
    requires forall x :: x in s ==> !p(x)
    ensures Count(s, p) == 0
  {
    if |s| > 0 { CountNone(s[1..], p); }
  }

  lemma {:induction false} CountEvery<T>(s: seq<T>, p: T -> bool)
    requires forall x :: x in s ==> p(x)
    ensures Count(s, p) == |s|
  {
    if |s| > 0 { CountEvery(s[1..], p); }
  }
}
