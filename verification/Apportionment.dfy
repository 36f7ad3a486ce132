/** Largest-remainder apportionment over exact integers: key k is owed total * w(k) / W, where W is
    the sum of the weights. Floating-point shares are replaced by quotient and remainder. */
module Apportionment {
  import opened Sequences

  datatype Weight<K> = Weight(key: K, w: nat)

  function Heft<K>(): Weight<K> -> nat {
    (e: Weight<K>) => e.w
  }

  function Total<K>(ws: seq<Weight<K>>): nat {
    SumBy(ws, Heft())
  }

  /** Whole part of a key's share. */
  function Floor<K>(total: nat, sum: nat): Weight<K> -> nat
    requires sum > 0
  {
    (e: Weight<K>) => total * e.w / sum
  }

  /** Fractional part of a key's share, as a numerator over the sum. */
  function Fraction<K>(total: nat, sum: nat): Weight<K> -> nat
    requires sum > 0
  {
    (e: Weight<K>) => total * e.w % sum
  }

  /** Larger fractional part first, ties by key. */
  function ByFraction<K>(frac: Weight<K> -> nat, keyLe: (K, K) -> bool): (Weight<K>, Weight<K>) -> bool {
    (x: Weight<K>, y: Weight<K>) => frac(x) > frac(y) || (frac(x) == frac(y) && keyLe(x.key, y.key))
  }

  ghost predicate TotalOrder<K(!new)>(keyLe: (K, K) -> bool) {
    TotalPreorder(keyLe) && forall x, y :: keyLe(x, y) && keyLe(y, x) ==> x == y
  }

  ghost predicate DistinctKeys<K>(ws: seq<Weight<K>>) {
    forall i, j :: 0 <= i < j < |ws| ==> ws[i].key != ws[j].key
  }

  /** The keys that get one more than their whole part, when `rem` seats are left over. */
  function Winners<K>(ws: seq<Weight<K>>, frac: Weight<K> -> nat, rem: int, keyLe: (K, K) -> bool): seq<Weight<K>> {
    Take(SortBy(ws, ByFraction(frac, keyLe)), rem)
  }

  function WithBonus<K(==)>(base: Weight<K> -> nat, winners: seq<Weight<K>>): Weight<K> -> nat {
    (e: Weight<K>) => base(e) + (if e in winners then 1 else 0)
  }

  function Allocation<K(==)>(total: int, ws: seq<Weight<K>>, keyLe: (K, K) -> bool): Weight<K> -> nat {
    var sum := Total(ws);
    if total <= 0 || sum == 0 then (e: Weight<K>) => 0
    else
      var base := Floor(total, sum);
      WithBonus(base, Winners(ws, Fraction(total, sum), total - SumBy(ws, base), keyLe))
  }

  method WholeParts<K(==)>(ws: seq<Weight<K>>, base: Weight<K> -> nat) returns (alloc: map<K, nat>, placed: nat)
    requires DistinctKeys(ws)
    ensures forall e :: e in ws ==> e.key in alloc && alloc[e.key] == base(e)
    ensures placed == SumBy(ws, base)
  {
    alloc, placed := map[], 0;
    for i := 0 to |ws|
      invariant forall j :: 0 <= j < i ==> ws[j].key in alloc && alloc[ws[j].key] == base(ws[j])
      invariant placed + SumBy(ws[i..], base) == SumBy(ws, base)
    {
      assert ws[i..][1..] == ws[i + 1..];
      alloc := alloc[ws[i].key := base(ws[i])];
      placed := placed + base(ws[i]);
    }
  }

  method AddBonus<K(==)>(ws: seq<Weight<K>>, base: Weight<K> -> nat, winners: seq<Weight<K>>, whole: map<K, nat>)
    returns (alloc: map<K, nat>)
    requires DistinctKeys(ws) && Distinct(winners) && forall e :: e in winners ==> e in ws
    requires forall e :: e in ws ==> e.key in whole && whole[e.key] == base(e)
    ensures forall e :: e in ws ==> e.key in alloc && alloc[e.key] == WithBonus(base, winners)(e)
  {
    alloc := whole;
    for i := 0 to |winners|
      invariant forall e :: e in ws ==> e.key in alloc
      invariant forall e :: e in ws ==> alloc[e.key] == base(e) + (if e in winners[..i] then 1 else 0)
    {
      ghost var before := alloc;
      alloc := alloc[winners[i].key := alloc[winners[i].key] + 1];
      forall e | e in ws ensures alloc[e.key] == base(e) + (if e in winners[..i + 1] then 1 else 0) {
        KeyDecides(ws, e, winners[i]);
        assert winners[..i + 1] == winners[..i] + [winners[i]];
        assert before[e.key] == base(e) + (if e in winners[..i] then 1 else 0);
      }
    }
    assert winners[..|winners|] == winners;
  }

  method LargestRemainder<K(==)>(total: int, ws: seq<Weight<K>>, keyLe: (K, K) -> bool)
    returns (alloc: map<K, nat>)
    requires DistinctKeys(ws)
    ensures forall e :: e in ws ==> e.key in alloc && alloc[e.key] == Allocation(total, ws, keyLe)(e)
  {
    var none, sum := WholeParts(ws, Heft());
    if sum <= 0 || total <= 0 {
      alloc, sum := WholeParts(ws, (e: Weight<K>) => 0);
      return;
    }
    var base, frac := Floor<K>(total, sum), Fraction<K>(total, sum);
    var whole, placed := WholeParts(ws, base);
    var winners := Winners(ws, frac, total - placed, keyLe);
    WinnersDistinct(ws, frac, total - placed, keyLe);
    alloc := AddBonus(ws, base, winners, whole);
  }

  lemma KeyDecides<K>(ws: seq<Weight<K>>, x: Weight<K>, y: Weight<K>)
    requires DistinctKeys(ws) && x in ws && y in ws
    ensures x.key == y.key <==> x == y
  {
  }

  lemma WinnersDistinct<K>(ws: seq<Weight<K>>, frac: Weight<K> -> nat, rem: int, keyLe: (K, K) -> bool)
    requires DistinctKeys(ws)
    ensures Distinct(Winners(ws, frac, rem, keyLe))
    ensures Distinct(SortBy(ws, ByFraction(frac, keyLe)))
    ensures forall e :: e in Winners(ws, frac, rem, keyLe) ==> e in ws
  {
    var order := SortBy(ws, ByFraction(frac, keyLe));
    SortPermutes(ws, ByFraction(frac, keyLe));
    DistinctPermuted(ws, order);
    forall e | e in order ensures e in ws { assert e in multiset(order); }
  }

  // ---------------------------------------------------------------- sums

  lemma SharesAddUp(total: nat, w: nat, sum: nat, q: nat, r: nat, rest: nat)
    requires sum > 0 && q * sum + r == total * rest
    ensures (total * w / sum + q) * sum + (total * w % sum + r) == total * (w + rest)
  {
    var x := total * w;
    assert x == x / sum * sum + x % sum;
    assert (x / sum + q) * sum == x / sum * sum + q * sum;
  }

  /** The whole parts and the fractional parts together make the total. */
  lemma {:induction false} FloorsAndFractions<K>(ws: seq<Weight<K>>, total: nat, sum: nat)
    requires sum > 0
    ensures SumBy(ws, Floor(total, sum)) * sum + SumBy(ws, Fraction(total, sum)) == total * Total(ws)
  {
    if |ws| > 0 {
      FloorsAndFractions(ws[1..], total, sum);
      SharesAddUp(total, ws[0].w, sum, SumBy(ws[1..], Floor(total, sum)), SumBy(ws[1..], Fraction(total, sum)), Total(ws[1..]));
    }
  }

  lemma {:induction false} SumBelow<T>(s: seq<T>, f: T -> nat, bound: nat)
    requires forall x :: x in s ==> f(x) <= bound
    ensures SumBy(s, f) <= |s| * bound
  {
    if |s| > 0 {
      SumBelow(s[1..], f, bound);
      assert |s| * bound == (|s| - 1) * bound + bound;
    }
  }

  lemma {:induction false} ZeroSum<T>(s: seq<T>, f: T -> nat)
    requires forall x :: x in s ==> f(x) == 0
    ensures SumBy(s, f) == 0
  {
    if |s| > 0 { ZeroSum(s[1..], f); }
  }

  lemma CancelBounds(rem: int, sum: nat, r: nat, n: nat)
    requires sum > 0 && rem * sum == r && r <= n * (sum - 1)
    ensures 0 <= rem <= n
  {
    assert n * (sum - 1) <= n * sum;
    assert rem * sum <= n * sum;
  }

  // ---------------------------------------------------------------- the winners

  lemma ByFractionIsPreorder<K(!new)>(frac: Weight<K> -> nat, keyLe: (K, K) -> bool)
    requires TotalOrder(keyLe)
    ensures TotalPreorder(ByFraction(frac, keyLe))
  {
    var le := ByFraction(frac, keyLe);
    forall x, y ensures le(x, y) || le(y, x) {
      assert keyLe(x.key, y.key) || keyLe(y.key, x.key);
    }
    forall x, y, z | le(x, y) && le(y, z) ensures le(x, z) {
      assert keyLe(x.key, y.key) && keyLe(y.key, z.key) ==> keyLe(x.key, z.key);
    }
  }

  /** The keys in order of claim: a listing of all of them, and not fewer than the seats left over. */
  lemma OrderFacts<K(!new)>(ws: seq<Weight<K>>, frac: Weight<K> -> nat, keyLe: (K, K) -> bool, rem: int, sum: nat)
    requires TotalOrder(keyLe) && sum > 0 && SumBy(ws, frac) == rem * sum
    requires forall e :: e in ws ==> frac(e) < sum
    ensures
      var order := SortBy(ws, ByFraction(frac, keyLe));
      && multiset(order) == multiset(ws) && |order| == |ws|
      && Sorted(order, ByFraction(frac, keyLe))
      && SumBy(order, frac) == rem * sum
      && 0 <= rem <= |order|
  {
    var le := ByFraction(frac, keyLe);
    SortPermutes(ws, le);
    ByFractionIsPreorder(frac, keyLe);
    SortSorted(ws, le);
    SumPermuted(SortBy(ws, le), ws, frac);
    SumBelow(ws, frac, sum - 1);
    CancelBounds(rem, sum, SumBy(ws, frac), |ws|);
  }

  /** Once a key without fractional part is reached, all the fractions lie before it. */
  lemma FractionsEnd<K>(order: seq<Weight<K>>, frac: Weight<K> -> nat, keyLe: (K, K) -> bool, j: nat, sum: nat)
    requires sum > 0 && j < |order| && Sorted(order, ByFraction(frac, keyLe))
    requires forall e :: e in order ==> frac(e) < sum
    requires frac(order[j]) == 0
    ensures SumBy(order, frac) <= j * (sum - 1)
  {
    forall x | x in order[j..] ensures frac(x) == 0 {
      var i :| j <= i < |order| && order[i] == x;
      assert i == j || ByFraction(frac, keyLe)(order[j], order[i]);
    }
    ZeroSum(order[j..], frac);
    SumBelow(order[..j], frac, sum - 1);
    SumSplit(order[..j], order[j..], frac);
    assert order == order[..j] + order[j..];
  }

  /** Every winner really has a fractional part, so nobody gets more than the share rounded up. */
  lemma WinnersHaveFraction<K(!new)>(ws: seq<Weight<K>>, frac: Weight<K> -> nat, keyLe: (K, K) -> bool, rem: int, sum: nat)
    requires TotalOrder(keyLe) && sum > 0 && SumBy(ws, frac) == rem * sum
    requires forall e :: e in ws ==> frac(e) < sum
    ensures forall e :: e in Winners(ws, frac, rem, keyLe) ==> frac(e) > 0
  {
    OrderFacts(ws, frac, keyLe, rem, sum);
    var order := SortBy(ws, ByFraction(frac, keyLe));
    forall e | e in order ensures frac(e) < sum { assert e in multiset(order); }
    forall j | 0 <= j < rem ensures frac(order[j]) > 0 {
      if frac(order[j]) == 0 {
        FractionsEnd(order, frac, keyLe, j, sum);
        CancelBounds(rem, sum, SumBy(order, frac), j);
      }
    }
  }

  lemma {:induction false} SumWithBonus<T>(s: seq<T>, k: nat, base: T -> nat, got: T -> nat)
    requires k <= |s|
    requires forall i :: 0 <= i < |s| ==> got(s[i]) == base(s[i]) + (if i < k then 1 else 0)
    ensures SumBy(s, got) == SumBy(s, base) + k
  {
    if |s| > 0 {
      forall i | 0 <= i < |s| - 1
        ensures got(s[1..][i]) == base(s[1..][i]) + (if i < (if k == 0 then 0 else k - 1) then 1 else 0)
      {
        assert s[1..][i] == s[i + 1];
      }
      SumWithBonus(s[1..], if k == 0 then 0 else k - 1, base, got);
    }
  }

  lemma BonusSums<K(!new)>(ws: seq<Weight<K>>, base: Weight<K> -> nat, frac: Weight<K> -> nat, keyLe: (K, K) -> bool, rem: int, sum: nat)
    requires DistinctKeys(ws) && TotalOrder(keyLe) && sum > 0 && SumBy(ws, frac) == rem * sum
    requires forall e :: e in ws ==> frac(e) < sum
    ensures SumBy(ws, WithBonus(base, Winners(ws, frac, rem, keyLe))) == SumBy(ws, base) + rem
  {
    OrderFacts(ws, frac, keyLe, rem, sum);
    var order := SortBy(ws, ByFraction(frac, keyLe));
    var winners := Winners(ws, frac, rem, keyLe);
    var got := WithBonus(base, winners);
    WinnersDistinct(ws, frac, rem, keyLe);
    forall i | 0 <= i < |order| ensures got(order[i]) == base(order[i]) + (if i < rem then 1 else 0) {
      assert winners == order[..rem];
      assert i < rem ==> winners[i] == order[i];
    }
    SumWithBonus(order, rem, base, got);
    SumPermuted(order, ws, got);
    SumPermuted(order, ws, base);
  }

  /** The seats left over after the whole parts, and the fractions they pay for. */
  lemma LeftOver<K>(total: int, ws: seq<Weight<K>>)
    requires total > 0 && Total(ws) > 0
    ensures
      var sum := Total(ws);
      && SumBy(ws, Fraction(total, sum)) == (total - SumBy(ws, Floor(total, sum))) * sum
      && forall e :: e in ws ==> Fraction<K>(total, sum)(e) < sum
  {
    var sum := Total(ws);
    FloorsAndFractions(ws, total, sum);
    var q := SumBy(ws, Floor(total, sum));
    assert (total - q) * sum == total * sum - q * sum;
  }

  // ---------------------------------------------------------------- what the allocation guarantees

  /** Every seat is placed exactly once. */
  lemma AllocationSumsToTotal<K(!new)>(total: int, ws: seq<Weight<K>>, keyLe: (K, K) -> bool)
    requires DistinctKeys(ws) && TotalOrder(keyLe) && total > 0 && Total(ws) > 0
    ensures SumBy(ws, Allocation(total, ws, keyLe)) == total
  {
    var sum := Total(ws);
    LeftOver(total, ws);
    BonusSums(ws, Floor(total, sum), Fraction(total, sum), keyLe, total - SumBy(ws, Floor(total, sum)), sum);
  }

  lemma RoundedShare(x: nat, sum: nat, bonus: nat)
    requires sum > 0 && bonus <= 1 && (bonus == 1 ==> x % sum > 0)
    ensures
      var got := x / sum + bonus;
      && got * sum < x + sum && x < got * sum + sum
      && (x % sum == 0 ==> got * sum == x)
      && (x == 0 ==> got == 0)
  {
    assert x == x / sum * sum + x % sum;
    assert (x / sum + bonus) * sum == x / sum * sum + bonus * sum;
    if x == 0 { assert 0 / sum == 0 && 0 % sum == 0; }
  }

  /** The share of e times the sum lies within one sum of total * e.w, on either side. */
  ghost predicate Quota<K>(total: int, sum: nat, e: Weight<K>, got: nat)
    requires sum > 0
  {
    && got * sum < total * e.w + sum
    && total * e.w < got * sum + sum
    && (total * e.w % sum == 0 ==> got * sum == total * e.w)
    && (e.w == 0 ==> got == 0)
  }

  /** Each key gets its share rounded down or up, never up when the share is whole; no weight, no seat. */
  lemma AllocationIsQuota<K(!new)>(total: int, ws: seq<Weight<K>>, keyLe: (K, K) -> bool, e: Weight<K>)
    requires TotalOrder(keyLe) && total > 0 && e in ws && Total(ws) > 0
    ensures Quota(total, Total(ws), e, Allocation(total, ws, keyLe)(e))
  {
    hide *;
    var bonus := AllocationShape(total, ws, keyLe, e);
    QuotaOf(total, Total(ws), e, bonus);
  }

  lemma QuotaOf<K>(total: int, sum: nat, e: Weight<K>, bonus: nat)
    requires total > 0 && sum > 0 && bonus <= 1 && (bonus == 1 ==> total * e.w % sum > 0)
    ensures Quota(total, sum, e, total * e.w / sum + bonus)
  {
    RoundedShare(total * e.w, sum, bonus);
  }

  lemma AllocationShape<K(!new)>(total: int, ws: seq<Weight<K>>, keyLe: (K, K) -> bool, e: Weight<K>) returns (bonus: nat)
    requires TotalOrder(keyLe) && total > 0 && Total(ws) > 0
    ensures bonus <= 1 && (bonus == 1 ==> total * e.w % Total(ws) > 0)
    ensures Allocation(total, ws, keyLe)(e) == total * e.w / Total(ws) + bonus
  {
    var sum := Total(ws);
    LeftOver(total, ws);
    var frac, rem := Fraction<K>(total, sum), total - SumBy(ws, Floor(total, sum));
    WinnersHaveFraction(ws, frac, keyLe, rem, sum);
    bonus := if e in Winners(ws, frac, rem, keyLe) then 1 else 0;
  }

  lemma SmallShare(got: nat, w: nat, total: nat, sum: nat)
    requires sum > 0 && got * sum < total * w + sum && total <= sum
    ensures got <= w
  {
    assert total * w <= sum * w;
    assert got * sum < (w + 1) * sum;
  }

  lemma LargeShare(got: nat, w: nat, total: nat, sum: nat)
    requires sum > 0 && total * w < got * sum + sum && total >= sum
    ensures got >= w
  {
    assert total * w >= sum * w;
    assert w * sum < (got + 1) * sum;
  }

  /** With no more seats than weight, no key gets more than its own weight. */
  lemma AllocationFits<K(!new)>(total: int, ws: seq<Weight<K>>, keyLe: (K, K) -> bool, e: Weight<K>)
    requires TotalOrder(keyLe) && e in ws
    requires total <= Total(ws)
    ensures Allocation(total, ws, keyLe)(e) <= e.w
  {
    if total > 0 {
      AllocationIsQuota(total, ws, keyLe, e);
      SmallShare(Allocation(total, ws, keyLe)(e), e.w, total, Total(ws));
    }
  }

  /** With at least as many seats as weight, every key gets at least its own weight. */
  lemma AllocationCovers<K(!new)>(total: int, ws: seq<Weight<K>>, keyLe: (K, K) -> bool, e: Weight<K>)
    requires TotalOrder(keyLe) && e in ws
    requires total >= Total(ws)
    ensures Allocation(total, ws, keyLe)(e) >= e.w
  {
    WeightBelowTotal(ws, e);
    if e.w > 0 {
      AllocationIsQuota(total, ws, keyLe, e);
      LargeShare(Allocation(total, ws, keyLe)(e), e.w, total, Total(ws));
    }
  }

  lemma {:induction false} WeightBelowTotal<K>(ws: seq<Weight<K>>, e: Weight<K>)
    requires e in ws
    ensures e.w <= Total(ws)
  {
    if ws[0] != e { WeightBelowTotal(ws[1..], e); }
  }

  /** A key that is rounded up comes before every key that is not: larger fractional part, or an equal
      one and a smaller key. */
  lemma LargestFractionsWin<K(!new)>(total: int, ws: seq<Weight<K>>, keyLe: (K, K) -> bool, x: Weight<K>, y: Weight<K>)
    requires TotalOrder(keyLe) && total > 0 && Total(ws) > 0
    requires x in ws && y in ws && x != y
    requires Allocation(total, ws, keyLe)(x) > Floor<K>(total, Total(ws))(x)
    requires Allocation(total, ws, keyLe)(y) == Floor<K>(total, Total(ws))(y)
    ensures ByFraction(Fraction<K>(total, Total(ws)), keyLe)(x, y)
  {
    var sum := Total(ws);
    LeftOver(total, ws);
    var rem := total - SumBy(ws, Floor(total, sum));
    WinnerBeatsLoser(ws, Fraction(total, sum), keyLe, rem, sum, x, y);
  }

  lemma WinnerBeatsLoser<K(!new)>(ws: seq<Weight<K>>, frac: Weight<K> -> nat, keyLe: (K, K) -> bool, rem: int, sum: nat, x: Weight<K>, y: Weight<K>)
    requires TotalOrder(keyLe) && sum > 0 && SumBy(ws, frac) == rem * sum
    requires forall e :: e in ws ==> frac(e) < sum
    requires y in ws && x in Winners(ws, frac, rem, keyLe) && y !in Winners(ws, frac, rem, keyLe)
    ensures ByFraction(frac, keyLe)(x, y)
  {
    OrderFacts(ws, frac, keyLe, rem, sum);
    var order := SortBy(ws, ByFraction(frac, keyLe));
    assert y in multiset(order);
    FrontBeatsRest(order, ByFraction(frac, keyLe), rem, x, y);
  }

  lemma FrontBeatsRest<T>(order: seq<T>, le: (T, T) -> bool, n: nat, x: T, y: T)
    requires Sorted(order, le) && n <= |order| && x in order[..n] && y in order && y !in order[..n]
    ensures le(x, y)
  {
    var front := order[..n];
    assert forall k :: 0 <= k < n ==> front[k] == order[k] && order[k] in front;
    var i :| 0 <= i < n && front[i] == x;
    var j :| 0 <= j < |order| && order[j] == y;
  }

  // ---------------------------------------------------------------- which keys are seated at all

  function Beats<K(==)>(frac: Weight<K> -> nat, keyLe: (K, K) -> bool, e: Weight<K>): Weight<K> -> bool {
    (x: Weight<K>) => x != e && ByFraction(frac, keyLe)(x, e)
  }

  /** The number of keys that come before e for a seat left over. */
  function Ahead<K(==)>(ws: seq<Weight<K>>, frac: Weight<K> -> nat, keyLe: (K, K) -> bool, e: Weight<K>): nat {
    Count(ws, Beats(frac, keyLe, e))
  }

  /** The share is at least one seat, or fewer keys come before it than seats are left over. */
  predicate Seated<K(==)>(total: int, ws: seq<Weight<K>>, keyLe: (K, K) -> bool, e: Weight<K>) {
    var sum := Total(ws);
    total > 0 && sum > 0
    && (total * e.w >= sum || Ahead(ws, Fraction(total, sum), keyLe, e) < total - SumBy(ws, Floor(total, sum)))
  }

  /** In an order without ties, the elements before one are those that come before it. */
  lemma PlaceInOrder<T>(order: seq<T>, le: (T, T) -> bool, j: nat, before: T -> bool)
    requires j < |order| && Sorted(order, le) && Distinct(order)
    requires forall x, y :: x in order && y in order && le(x, y) && le(y, x) ==> x == y
    requires forall x :: x in order ==> (before(x) <==> x != order[j] && le(x, order[j]))
    ensures Count(order, before) == j
  {
    var u, v := order[..j], order[j..];
    assert forall x :: x in u ==> exists i :: 0 <= i < j && order[i] == x;
    CountEvery(u, before);
    assert forall x :: x in v ==> exists i :: j <= i < |order| && order[i] == x;
    CountNone(v, before);
    assert order == u + v;
    SumSplit(u, v, Indicator(before));
  }

  lemma WinsIffAhead<K(!new)>(ws: seq<Weight<K>>, frac: Weight<K> -> nat, keyLe: (K, K) -> bool, rem: int, sum: nat, e: Weight<K>)
    requires TotalOrder(keyLe) && DistinctKeys(ws) && e in ws
    requires sum > 0 && SumBy(ws, frac) == rem * sum && forall x :: x in ws ==> frac(x) < sum
    ensures e in Winners(ws, frac, rem, keyLe) <==> Ahead(ws, frac, keyLe, e) < rem
  {
    var le := ByFraction(frac, keyLe);
    var order := SortBy(ws, le);
    OrderFacts(ws, frac, keyLe, rem, sum);
    WinnersDistinct(ws, frac, rem, keyLe);
    forall x | x in order ensures x in ws { assert x in multiset(order); }
    assert e in multiset(order);
    var j :| 0 <= j < |order| && order[j] == e;
    forall x, y | x in order && y in order && le(x, y) && le(y, x) ensures x == y { KeyDecides(ws, x, y); }
    PlaceInOrder(order, le, j, Beats(frac, keyLe, e));
    SumPermuted(order, ws, Indicator(Beats(frac, keyLe, e)));
    InFrontIff(order, rem, j);
  }

  lemma InFrontIff<T>(order: seq<T>, n: nat, j: nat)
    requires n <= |order| && j < |order| && Distinct(order)
    ensures order[j] in order[..n] <==> j < n
  {
    if j < n { assert order[..n][j] == order[j]; }
  }

  /** Exactly when a key gets a seat. */
  lemma SeatedIff<K(!new)>(total: int, ws: seq<Weight<K>>, keyLe: (K, K) -> bool, e: Weight<K>)
    requires TotalOrder(keyLe) && DistinctKeys(ws) && e in ws
    ensures Allocation(total, ws, keyLe)(e) >= 1 <==> Seated(total, ws, keyLe, e)
  {
    var sum := Total(ws);
    if total > 0 && sum > 0 {
      LeftOver(total, ws);
      var rem := total - SumBy(ws, Floor(total, sum));
      WinsIffAhead(ws, Fraction(total, sum), keyLe, rem, sum, e);
      hide Winners, Ahead, TotalOrder, SumBy;
      OneSeat(total * e.w, sum);
    }
  }

  lemma OneSeat(x: nat, sum: nat)
    requires sum > 0
    ensures x / sum >= 1 <==> x >= sum
  {
  }

  lemma TwoSum<T>(a: T, b: T, f: T -> nat)
    ensures SumBy([a, b], f) == f(a) + f(b)
  {
    SumOfCons(a, [b], f);
    SumOfCons(b, [], f);
    assert [a] + [b] == [a, b] && [b] + [] == [b];
  }
}
