/** Stratified development subsets: questions are grouped, each group is given its apportioned number
    of places, and a deterministic sample fills them. LoCoMo nests this twice. */
module DevSelection {
  import opened Sequences
  import opened Apportionment

  // ---------------------------------------------------------------- grouping

  function Group<T, K(==)>(s: seq<T>, key: T -> K, k: K): seq<T> {
    if |s| == 0 then []
    else (if key(s[0]) == k then [s[0]] else []) + Group(s[1..], key, k)
  }

  function Differs<T, K(==)>(key: T -> K, k: K): T -> bool {
    (x: T) => key(x) != k
  }

  function Without<T, K(==)>(s: seq<T>, key: T -> K, k: K): seq<T> {
    Group(s, Differs(key, k), true)
  }

  lemma {:induction false} WithoutSize<T, K>(s: seq<T>, key: T -> K, k: K)
    ensures |Without(s, key, k)| + |Group(s, key, k)| == |s|
  {
    if |s| > 0 { WithoutSize(s[1..], key, k); }
  }

  /** The keys in order of first appearance: the iteration order of a Python dict. */
  function Keys<T, K(==)>(s: seq<T>, key: T -> K): seq<K>
    decreases |s|
  {
    if |s| == 0 then []
    else
      WithoutSize(s[1..], key, key(s[0]));
      [key(s[0])] + Keys(Without(s, key, key(s[0])), key)
  }

  function Weights<T, K(==)>(s: seq<T>, key: T -> K): seq<Weight<K>> {
    var ks := Keys(s, key);
    seq(|ks|, i requires 0 <= i < |ks| => Weight(ks[i], |Group(s, key, ks[i])|))
  }

  lemma {:induction false} GroupWithout<T, K>(s: seq<T>, key: T -> K, k: K, other: K)
    requires k != other
    ensures Group(Without(s, key, other), key, k) == Group(s, key, k)
    ensures Group(Without(s, key, other), key, other) == []
  {
    if |s| > 0 {
      GroupWithout(s[1..], key, k, other);
      var kept := if key(s[0]) == other then [] else [s[0]];
      GroupConcat(kept, Without(s[1..], key, other), key, k);
      GroupConcat(kept, Without(s[1..], key, other), key, other);
    }
  }

  lemma GroupStep<T, K>(x: T, s: seq<T>, key: T -> K, k: K)
    ensures Group([x] + s, key, k) == (if key(x) == k then [x] else []) + Group(s, key, k)
  {
    assert ([x] + s)[1..] == s;
  }

  lemma {:induction false} GroupConcat<T, K>(a: seq<T>, b: seq<T>, key: T -> K, k: K)
    ensures Group(a + b, key, k) == Group(a, key, k) + Group(b, key, k)
  {
    if |a| == 0 {
      assert a + b == b;
    } else {
      GroupConcat(a[1..], b, key, k);
      assert a + b == [a[0]] + (a[1..] + b);
      GroupStep(a[0], a[1..] + b, key, k);
      GroupStep(a[0], a[1..], key, k);
      assert a == [a[0]] + a[1..];
    }
  }

  /** A group keeps every copy of the elements that belong to it and nothing else. */
  lemma {:induction false} GroupCounts<T, K>(s: seq<T>, key: T -> K, k: K, x: T)
    ensures multiset(Group(s, key, k))[x] == if key(x) == k then multiset(s)[x] else 0
  {
    if |s| > 0 {
      assert s == [s[0]] + s[1..];
      GroupCounts(s[1..], key, k, x);
    }
  }

  lemma {:induction false} GroupMembers<T, K>(s: seq<T>, key: T -> K, k: K)
    ensures forall x :: x in Group(s, key, k) ==> key(x) == k && x in s
  {
    if |s| > 0 { GroupMembers(s[1..], key, k); }
  }

  lemma {:induction false} KeysAreKeys<T, K>(s: seq<T>, key: T -> K)
    ensures Distinct(Keys(s, key))
    ensures forall k :: k in Keys(s, key) <==> Group(s, key, k) != []
    decreases |s|
  {
    if |s| > 0 {
      var k0 := key(s[0]);
      WithoutSize(s[1..], key, k0);
      var rest := Without(s, key, k0);
      KeysAreKeys(rest, key);
      forall k ensures (k in Keys(rest, key)) == (k != k0 && Group(s, key, k) != []) {
        if k != k0 { GroupWithout(s, key, k, k0); } else { WithoutDropsGroup(s, key, k0); }
      }
      assert Keys(s, key) == [k0] + Keys(rest, key);
      assert k0 !in Keys(rest, key);
      forall i, j | 0 <= i < j < |Keys(s, key)| ensures Keys(s, key)[i] != Keys(s, key)[j] {
        assert Keys(s, key)[j] == Keys(rest, key)[j - 1];
      }
    }
  }

  lemma {:induction false} WithoutDropsGroup<T, K>(s: seq<T>, key: T -> K, k: K)
    ensures Group(Without(s, key, k), key, k) == []
  {
    if |s| > 0 {
      WithoutDropsGroup(s[1..], key, k);
      GroupConcat(if key(s[0]) == k then [] else [s[0]], Without(s[1..], key, k), key, k);
    }
  }

  lemma WeightsDistinct<T, K>(s: seq<T>, key: T -> K)
    ensures DistinctKeys(Weights(s, key))
  {
    KeysAreKeys(s, key);
  }

  /** Dropping the first key's group drops the first weight. */
  lemma WeightsTail<T, K>(s: seq<T>, key: T -> K)
    requires |s| > 0
    ensures
      var rest := Without(s, key, key(s[0]));
      && |rest| < |s|
      && Weights(s, key) == [Weight(key(s[0]), |s| - |rest|)] + Weights(rest, key)
  {
    var k0 := key(s[0]);
    WithoutSize(s[1..], key, k0);
    var rest := Without(s, key, k0);
    KeysAreKeys(rest, key);
    WithoutDropsGroup(s, key, k0);
    var ks := Keys(rest, key);
    assert Keys(s, key) == [k0] + ks;
    forall i | 0 <= i < |ks| ensures Group(s, key, ks[i]) == Group(rest, key, ks[i]) {
      assert ks[i] in ks;
      GroupWithout(s, key, ks[i], k0);
    }
  }

  /** The group sizes add up to the number of elements. */
  lemma {:induction false} WeightsTotal<T, K>(s: seq<T>, key: T -> K)
    ensures Total(Weights(s, key)) == |s|
    decreases |s|
  {
    if |s| > 0 {
      WeightsTail(s, key);
      WeightsTotal(Without(s, key, key(s[0])), key);
      assert Weights(s, key)[1..] == Weights(Without(s, key, key(s[0])), key);
    }
  }

  lemma {:induction false} KeysAppend<T, K>(s: seq<T>, key: T -> K, x: T)
    ensures Keys(s + [x], key) == Keys(s, key) + (if key(x) in Keys(s, key) then [] else [key(x)])
    decreases |s|
  {
    if |s| == 0 {
      assert s + [x] == [x] && [x][1..] == [];
      assert Group([x], Differs(key, key(x)), true) == [];
    } else {
      var k0 := key(s[0]);
      assert (s + [x])[0] == s[0];
      WithoutSize(s[1..], key, k0);
      GroupConcat(s, [x], Differs(key, k0), true);
      assert Keys(s, key) == [k0] + Keys(Without(s, key, k0), key);
      WithoutSize((s + [x])[1..], key, k0);
      assert Keys(s + [x], key) == [k0] + Keys(Without(s + [x], key, k0), key);
      if key(x) == k0 {
        assert Without([x], key, k0) == [];
        assert Without(s, key, k0) + [] == Without(s, key, k0);
      } else {
        assert Without([x], key, k0) == [x];
        KeysAppend(Without(s, key, k0), key, x);
      }
    }
  }

  /** The setdefault/append loop that splits a list by key. */
  method GroupBy<T, K(==)>(s: seq<T>, key: T -> K) returns (keys: seq<K>, groups: map<K, seq<T>>)
    ensures keys == Keys(s, key)
    ensures forall k :: k in keys ==> k in groups && groups[k] == Group(s, key, k)
  {
    keys, groups := [], map[];
    for i := 0 to |s|
      invariant keys == Keys(s[..i], key)
      invariant forall k :: k in keys <==> k in groups
      invariant forall k :: k in groups ==> groups[k] == Group(s[..i], key, k)
    {
      var k := key(s[i]);
      ghost var before := groups;
      assert s[..i + 1] == s[..i] + [s[i]];
      KeysAppend(s[..i], key, s[i]);
      KeysAreKeys(s[..i], key);
      if k !in groups {
        keys := keys + [k];
        groups := groups[k := []];
      }
      groups := groups[k := groups[k] + [s[i]]];
      forall l | l in groups ensures groups[l] == Group(s[..i + 1], key, l) {
        GroupConcat(s[..i], [s[i]], key, l);
        assert Group([s[i]], key, l) == if l == k then [s[i]] else [];
        assert l !in before ==> Group(s[..i], key, l) == [];
      }
    }
    assert s[..|s|] == s;
  }

  method SizesOf<T, K(==)>(s: seq<T>, key: T -> K, keys: seq<K>, groups: map<K, seq<T>>) returns (ws: seq<Weight<K>>)
    requires keys == Keys(s, key)
    requires forall k :: k in keys ==> k in groups && groups[k] == Group(s, key, k)
    ensures ws == Weights(s, key)
  {
    ws := [];
    for i := 0 to |keys|
      invariant ws == Weights(s, key)[..i]
    {
      ws := ws + [Weight(keys[i], |groups[keys[i]]|)];
    }
  }

  // ---------------------------------------------------------------- sampling

  /** All items when k covers them, else the first k in sampling order. */
  function StableSample<T>(items: seq<T>, k: nat, sampleLe: (T, T) -> bool): seq<T> {
    if k >= |items| then items else Take(SortBy(items, sampleLe), k)
  }

  /** A way of choosing n elements from a group. */
  type Pick<!T> = (seq<T>, nat) -> seq<T>

  function Least(a: int, b: int): int { if a <= b then a else b }

  /** Chooses exactly min(n, size) elements, each as often at most as the group has it. */
  ghost predicate ExactPick<T(!new)>(pick: Pick<T>) {
    forall g: seq<T>, n: nat :: |pick(g, n)| == Least(n, |g|) && multiset(pick(g, n)) <= multiset(g)
  }

  function Sampler<T>(listLe: (T, T) -> bool, sampleLe: (T, T) -> bool): Pick<T> {
    (g: seq<T>, n: nat) => StableSample(SortBy(g, listLe), n, sampleLe)
  }

  lemma TakeWithin<T>(s: seq<T>, n: nat)
    ensures multiset(Take(s, n)) <= multiset(s)
  {
    if n <= |s| { assert s == s[..n] + s[n..]; }
  }

  lemma SamplerIsExact<T(!new)>(listLe: (T, T) -> bool, sampleLe: (T, T) -> bool)
    ensures ExactPick(Sampler(listLe, sampleLe))
  {
    forall g: seq<T>, n: nat
      ensures |Sampler(listLe, sampleLe)(g, n)| == Least(n, |g|)
      ensures multiset(Sampler(listLe, sampleLe)(g, n)) <= multiset(g)
    {
      var items := SortBy(g, listLe);
      SortPermutes(g, listLe);
      SortPermutes(items, sampleLe);
      TakeWithin(SortBy(items, sampleLe), n);
    }
  }

  /** Everything as listed when k covers it; otherwise exactly k items, in sampling order. */
  lemma StableSampleIs<T(!new)>(items: seq<T>, k: nat, sampleLe: (T, T) -> bool)
    requires TotalPreorder(sampleLe)
    ensures k >= |items| ==> StableSample(items, k, sampleLe) == items
    ensures k < |items| ==> |StableSample(items, k, sampleLe)| == k && Sorted(StableSample(items, k, sampleLe), sampleLe)
  {
    SortPermutes(items, sampleLe);
    SortSorted(items, sampleLe);
    hide SortBy;
    var order := SortBy(items, sampleLe);
    assert |order| == |multiset(order)| == |items|;
  }

  /** An item taken precedes, in sampling order, every item of which a copy is left. */
  lemma SampledBefore<T(!new)>(items: seq<T>, k: nat, sampleLe: (T, T) -> bool, x: T, y: T)
    requires TotalPreorder(sampleLe) && x in StableSample(items, k, sampleLe)
    requires multiset(StableSample(items, k, sampleLe))[y] < multiset(items)[y]
    ensures sampleLe(x, y)
  {
    var order := SortBy(items, sampleLe);
    SortPermutes(items, sampleLe);
    SortSorted(items, sampleLe);
    hide SortBy;
    assert |order| == |multiset(order)| == |items|;
    assert order == order[..k] + order[k..];
    assert y in multiset(order[k..]);
    var i :| 0 <= i < k && order[i] == x;
    var j :| k <= j < |order| && order[j] == y;
  }

  // ---------------------------------------------------------------- stratified selection

  function ByKey<K>(keyLe: (K, K) -> bool): (Weight<K>, Weight<K>) -> bool {
    (x: Weight<K>, y: Weight<K>) => keyLe(x.key, y.key)
  }

  function Concat<T, K>(ws: seq<Weight<K>>, part: Weight<K> -> seq<T>): seq<T> {
    if |ws| == 0 then [] else part(ws[0]) + Concat(ws[1..], part)
  }

  function Part<T, K(==)>(s: seq<T>, key: T -> K, alloc: Weight<K> -> nat, pick: Pick<T>): Weight<K> -> seq<T> {
    (w: Weight<K>) => pick(Group(s, key, w.key), alloc(w))
  }

  /** Groups in key order, each filled by `pick` up to its allocation. */
  function Stratify<T, K(==)>(s: seq<T>, total: int, key: T -> K, keyLe: (K, K) -> bool, pick: Pick<T>): seq<T> {
    var ws := Weights(s, key);
    Concat(SortBy(ws, ByKey(keyLe)), Part(s, key, Allocation(total, ws, keyLe), pick))
  }

  function PartSize<T, K>(part: Weight<K> -> seq<T>): Weight<K> -> nat {
    (w: Weight<K>) => |part(w)|
  }

  lemma {:induction false} ConcatSize<T, K>(ws: seq<Weight<K>>, part: Weight<K> -> seq<T>)
    ensures |Concat(ws, part)| == SumBy(ws, PartSize(part))
  {
    if |ws| > 0 { ConcatSize(ws[1..], part); }
  }

  /** Parts that stay inside their own group can be read back from the concatenation. */
  lemma {:induction false} GroupOfConcat<T(!new), K>(ws: seq<Weight<K>>, part: Weight<K> -> seq<T>, key: T -> K, w: Weight<K>)
    requires DistinctKeys(ws)
    requires forall v, x :: v in ws && x in part(v) ==> key(x) == v.key
    ensures w in ws ==> Group(Concat(ws, part), key, w.key) == part(w)
    ensures (forall v :: v in ws ==> v.key != w.key) ==> Group(Concat(ws, part), key, w.key) == []
  {
    if |ws| > 0 {
      GroupOfConcat(ws[1..], part, key, w);
      GroupConcat(part(ws[0]), Concat(ws[1..], part), key, w.key);
      assert ws[0] in ws;
      WholeGroup(part(ws[0]), key, ws[0].key, w.key);
      if w == ws[0] {
        assert forall v :: v in ws[1..] ==> v.key != w.key;
      }
    }
  }

  lemma {:induction false} WholeGroup<T, K>(s: seq<T>, key: T -> K, k: K, other: K)
    requires forall x :: x in s ==> key(x) == k
    ensures Group(s, key, other) == if k == other then s else []
  {
    if |s| > 0 { WholeGroup(s[1..], key, k, other); }
  }

  lemma {:induction false} SumEqual<T>(s: seq<T>, f: T -> nat, g: T -> nat)
    requires forall x :: x in s ==> f(x) == g(x)
    ensures SumBy(s, f) == SumBy(s, g)
  {
    if |s| > 0 { SumEqual(s[1..], f, g); }
  }

  /** Keys in sort order: the same weights, still with distinct keys. */
  lemma SortedWeights<T, K(!new)>(s: seq<T>, key: T -> K, keyLe: (K, K) -> bool)
    ensures
      var ws := Weights(s, key);
      var order := SortBy(ws, ByKey(keyLe));
      && multiset(order) == multiset(ws) && DistinctKeys(ws) && DistinctKeys(order)
      && (forall w :: w in order <==> w in ws)
      && (forall w :: w in ws ==> w.w == |Group(s, key, w.key)|)
  {
    var ws := Weights(s, key);
    var order := SortBy(ws, ByKey(keyLe));
    WeightsDistinct(s, key);
    SortPermutes(ws, ByKey(keyLe));
    DistinctPermuted(ws, order);
    forall w ensures w in order <==> w in ws {
      assert w in order <==> w in multiset(order);
      assert w in ws <==> w in multiset(ws);
    }
    forall i, j | 0 <= i < j < |order| ensures order[i].key != order[j].key {
      assert order[i] in ws && order[j] in ws;
      KeyDecides(ws, order[i], order[j]);
    }
  }

  lemma PartsStayInside<T(!new), K(!new)>(s: seq<T>, key: T -> K, alloc: Weight<K> -> nat, pick: Pick<T>)
    requires ExactPick(pick)
    ensures forall v, x :: x in Part(s, key, alloc, pick)(v) ==> key(x) == v.key
  {
    forall v: Weight<K>, x: T | x in Part(s, key, alloc, pick)(v) ensures key(x) == v.key {
      var g, n := Group(s, key, v.key), alloc(v);
      assert multiset(pick(g, n)) <= multiset(g);
      assert x in multiset(pick(g, n));
      assert x in multiset(g);
      GroupMembers(s, key, v.key);
    }
  }

  /** The part of the selection that falls in a stratum is that stratum's own pick, no more and no less. */
  lemma StratumOf<T(!new), K(!new)>(s: seq<T>, total: int, key: T -> K, keyLe: (K, K) -> bool, pick: Pick<T>, w: Weight<K>)
    requires ExactPick(pick) && w in Weights(s, key)
    ensures Group(Stratify(s, total, key, keyLe, pick), key, w.key)
            == pick(Group(s, key, w.key), Allocation(total, Weights(s, key), keyLe)(w))
  {
    var ws := Weights(s, key);
    var part := Part(s, key, Allocation(total, ws, keyLe), pick);
    SortedWeights(s, key, keyLe);
    PartsStayInside(s, key, Allocation(total, ws, keyLe), pick);
    GroupOfConcat(SortBy(ws, ByKey(keyLe)), part, key, w);
  }

  lemma StratifySize<T(!new), K(!new)>(s: seq<T>, total: int, key: T -> K, keyLe: (K, K) -> bool, pick: Pick<T>)
    requires ExactPick(pick) && TotalOrder(keyLe)
    ensures |Stratify(s, total, key, keyLe, pick)| == Least(if total < 0 then 0 else total, |s|)
  {
    var ws := Weights(s, key);
    var alloc := Allocation(total, ws, keyLe);
    SortedWeights(s, key, keyLe);
    WeightsTotal(s, key);
    if total <= |s| {
      forall w | w in ws ensures alloc(w) <= w.w { AllocationFits(total, ws, keyLe, w); }
      if total > 0 { AllocationSumsToTotal(total, ws, keyLe); } else { ZeroSum(ws, alloc); }
      FillSize(s, key, keyLe, alloc, pick, alloc);
    } else {
      forall w | w in ws ensures alloc(w) >= w.w { AllocationCovers(total, ws, keyLe, w); }
      FillSize(s, key, keyLe, alloc, pick, Heft());
    }
  }

  /** The number filled, when `size` is what each stratum can and may take. */
  lemma FillSize<T(!new), K(!new)>(s: seq<T>, key: T -> K, keyLe: (K, K) -> bool, alloc: Weight<K> -> nat, pick: Pick<T>, size: Weight<K> -> nat)
    requires ExactPick(pick)
    requires forall w :: w in Weights(s, key) ==> size(w) == Least(alloc(w), w.w)
    ensures |Concat(SortBy(Weights(s, key), ByKey(keyLe)), Part(s, key, alloc, pick))| == SumBy(Weights(s, key), size)
  {
    var ws := Weights(s, key);
    var part := Part(s, key, alloc, pick);
    SortedWeights(s, key, keyLe);
    ConcatSize(SortBy(ws, ByKey(keyLe)), part);
    SumPermuted(SortBy(ws, ByKey(keyLe)), ws, PartSize(part));
    SumEqual(ws, PartSize(part), size);
  }

  lemma StratifyWithin<T(!new), K(!new)>(s: seq<T>, total: int, key: T -> K, keyLe: (K, K) -> bool, pick: Pick<T>)
    requires ExactPick(pick)
    ensures multiset(Stratify(s, total, key, keyLe, pick)) <= multiset(s)
  {
    var r := Stratify(s, total, key, keyLe, pick);
    var ws := Weights(s, key);
    var part := Part(s, key, Allocation(total, ws, keyLe), pick);
    forall x ensures multiset(r)[x] <= multiset(s)[x] {
      if x in multiset(r) {
        SortedWeights(s, key, keyLe);
        PartOfMember(SortBy(ws, ByKey(keyLe)), part, x);
        PartsStayInside(s, key, Allocation(total, ws, keyLe), pick);
        var w :| w in ws && x in part(w);
        assert key(x) == w.key;
        StratumOf(s, total, key, keyLe, pick, w);
        GroupCounts(r, key, w.key, x);
        GroupCounts(s, key, w.key, x);
        assert multiset(part(w)) <= multiset(Group(s, key, w.key));
      }
    }
  }

  lemma {:induction false} PartOfMember<T(!new), K>(ws: seq<Weight<K>>, part: Weight<K> -> seq<T>, x: T)
    requires x in Concat(ws, part)
    ensures exists w :: w in ws && x in part(w)
  {
    if x in part(ws[0]) {
      assert ws[0] in ws;
    } else {
      PartOfMember(ws[1..], part, x);
      var w :| w in ws[1..] && x in part(w);
      assert w in ws;
    }
  }

  function Stratifier<T, K(==)>(key: T -> K, keyLe: (K, K) -> bool, pick: Pick<T>): Pick<T> {
    (g: seq<T>, n: nat) => Stratify(g, n, key, keyLe, pick)
  }

  /** Stratifying with an exact pick is itself an exact pick, so strata can be nested. */
  lemma StratifierIsExact<T(!new), K(!new)>(key: T -> K, keyLe: (K, K) -> bool, pick: Pick<T>)
    requires ExactPick(pick) && TotalOrder(keyLe)
    ensures ExactPick(Stratifier(key, keyLe, pick))
  {
    forall g: seq<T>, n: nat
      ensures |Stratifier(key, keyLe, pick)(g, n)| == Least(n, |g|)
      ensures multiset(Stratifier(key, keyLe, pick)(g, n)) <= multiset(g)
    {
      StratifySize(g, n, key, keyLe, pick);
      StratifyWithin(g, n, key, keyLe, pick);
    }
  }

  lemma ConcatEnds<T, K>(order: seq<Weight<K>>, part: Weight<K> -> seq<T>)
    ensures order[0..] == order && Concat(order[|order|..], part) == []
  {
  }

  lemma ConcatAt<T, K>(order: seq<Weight<K>>, i: nat, part: Weight<K> -> seq<T>)
    requires i < |order|
    ensures Concat(order[i..], part) == part(order[i]) + Concat(order[i + 1..], part)
  {
    assert order[i..][1..] == order[i + 1..];
  }

  /** Walks the strata in key order and appends each stratum's sample. */
  method Fill<T, K(!new, ==)>(s: seq<T>, key: T -> K, keyLe: (K, K) -> bool, cells: map<K, seq<T>>, alloc: map<K, nat>,
                        quota: Weight<K> -> nat, listLe: (T, T) -> bool, sampleLe: (T, T) -> bool)
    returns (selected: seq<T>)
    requires forall w :: w in Weights(s, key) ==> w.key in cells && cells[w.key] == Group(s, key, w.key)
    requires forall w :: w in Weights(s, key) ==> w.key in alloc && alloc[w.key] == quota(w)
    ensures selected == Concat(SortBy(Weights(s, key), ByKey(keyLe)), Part(s, key, quota, Sampler(listLe, sampleLe)))
  {
    SortedWeights(s, key, keyLe);
    selected := Collect(SortBy(Weights(s, key), ByKey(keyLe)), cells, alloc, listLe, sampleLe,
                        Part(s, key, quota, Sampler(listLe, sampleLe)));
  }

  method Collect<T, K(==)>(order: seq<Weight<K>>, cells: map<K, seq<T>>, alloc: map<K, nat>,
                           listLe: (T, T) -> bool, sampleLe: (T, T) -> bool, ghost part: Weight<K> -> seq<T>)
    returns (selected: seq<T>)
    requires forall w :: w in order ==> w.key in cells && w.key in alloc
    requires forall w :: w in order ==> part(w) == StableSample(SortBy(cells[w.key], listLe), alloc[w.key], sampleLe)
    ensures selected == Concat(order, part)
  {
    hide Concat;
    selected := [];
    ConcatEnds(order, part);
    for i := 0 to |order|
      invariant selected + Concat(order[i..], part) == Concat(order, part)
    {
      ConcatAt(order, i, part);
      selected := selected + StableSample(SortBy(cells[order[i].key], listLe), alloc[order[i].key], sampleLe);
    }
  }

  /** So it is inside every stratum: what is taken precedes what is left. */
  lemma StratumSampledBefore<T(!new), K(!new)>(
    s: seq<T>, total: int, key: T -> K, keyLe: (K, K) -> bool, listLe: (T, T) -> bool, sampleLe: (T, T) -> bool, x: T, y: T)
    requires TotalPreorder(sampleLe) && key(x) == key(y)
    requires var chosen := Stratify(s, total, key, keyLe, Sampler(listLe, sampleLe)); x in chosen && multiset(chosen)[y] < multiset(s)[y]
    ensures sampleLe(x, y)
  {
    hide Stratify, StableSample, Weights, Allocation;
    var pick := Sampler(listLe, sampleLe);
    var chosen, cell := Stratify(s, total, key, keyLe, pick), Group(s, key, key(x));
    var w := WeightOf(s, key, key(x));
    SamplerIsExact(listLe, sampleLe);
    GroupCounts(s, key, key(x), y);
    GroupCounts(chosen, key, key(x), y);
    GroupCounts(chosen, key, key(x), x);
    assert y in multiset(cell);
    WeightOfIn(s, key, key(x));
    StratumOf(s, total, key, keyLe, pick, w);
    SortPermutes(cell, listLe);
    assert x in multiset(chosen) && x in multiset(Group(chosen, key, key(x)));
    SampledBefore(SortBy(cell, listLe), Allocation(total, Weights(s, key), keyLe)(w), sampleLe, x, y);
  }

  /** Every stratum that is there gets its share, or all it has. */
  lemma StratumQuota<T(!new), K(!new)>(s: seq<T>, total: int, key: T -> K, keyLe: (K, K) -> bool, pick: Pick<T>, k: K)
    requires ExactPick(pick) && Group(s, key, k) != []
    ensures
      var size := |Group(s, key, k)|;
      |Group(Stratify(s, total, key, keyLe, pick), key, k)| == Least(Allocation(total, Weights(s, key), keyLe)(Weight(k, size)), size)
  {
    hide Stratify, Allocation, Group, ExactPick;
    var w := WeightOf(s, key, k);
    WeightOfIn(s, key, k);
    StratumOf(s, total, key, keyLe, pick, w);
    PickSize(pick, Group(s, key, k), Allocation(total, Weights(s, key), keyLe)(w));
  }

  // ---------------------------------------------------------------- key orders

  predicate IntLe(a: int, b: int) { a <= b }

  predicate StringLe(a: string, b: string) { LexLe(CodePoints(a), CodePoints(b)) }

  predicate PairLe(a: (string, string), b: (string, string)) {
    if a.0 != b.0 then StringLe(a.0, b.0) else StringLe(a.1, b.1)
  }

  lemma StringLeFacts(a: string, b: string, c: string)
    ensures StringLe(a, b) || StringLe(b, a)
    ensures StringLe(a, b) && StringLe(b, a) ==> a == b
    ensures StringLe(a, b) && StringLe(b, c) ==> StringLe(a, c)
  {
    LexTotal(CodePoints(a), CodePoints(b));
    if CodePoints(a) == CodePoints(b) { CodePointsInjective(a, b); }
    if StringLe(a, b) && StringLe(b, c) { LexTransitive(CodePoints(a), CodePoints(b), CodePoints(c)); }
  }

  lemma KeyOrders()
    ensures TotalOrder(IntLe) && TotalOrder(StringLe) && TotalOrder(PairLe)
  {
    forall a, b, c
      ensures StringLe(a, b) || StringLe(b, a)
      ensures StringLe(a, b) && StringLe(b, a) ==> a == b
      ensures StringLe(a, b) && StringLe(b, c) ==> StringLe(a, c)
    {
      StringLeFacts(a, b, c);
    }
    forall a: (string, string), b: (string, string), c: (string, string)
      ensures PairLe(a, b) || PairLe(b, a)
      ensures PairLe(a, b) && PairLe(b, a) ==> a == b
      ensures PairLe(a, b) && PairLe(b, c) ==> PairLe(a, c)
    {
      StringLeFacts(a.0, b.0, c.0);
      StringLeFacts(a.1, b.1, c.1);
      StringLeFacts(a.0, c.0, b.0);
    }
  }

  // ---------------------------------------------------------------- LoCoMo

  const LOCOMO_DEV_N := 300

  datatype Qa = Qa(category: int, conv: string, qid: string)

  function Category(): Qa -> int { (q: Qa) => q.category }
  function Conversation(): Qa -> string { (q: Qa) => q.conv }
  function QidLe(): (Qa, Qa) -> bool { (x: Qa, y: Qa) => StringLe(x.qid, y.qid) }

  function ByConversation(sampleLe: (Qa, Qa) -> bool): Pick<Qa> {
    Stratifier(Conversation(), StringLe, Sampler(QidLe(), sampleLe))
  }

  function LocomoSelection(all: seq<Qa>, sampleLe: (Qa, Qa) -> bool): seq<Qa> {
    Stratify(all, LOCOMO_DEV_N, Category(), IntLe, ByConversation(sampleLe))
  }

  /** Exactly min(300, N) questions, none invented and none taken twice; inside every category exactly
      what the category's own apportionment by conversation yields. */
  lemma LocomoSelectionExact(all: seq<Qa>, sampleLe: (Qa, Qa) -> bool)
    ensures |LocomoSelection(all, sampleLe)| == Least(LOCOMO_DEV_N, |all|)
    ensures multiset(LocomoSelection(all, sampleLe)) <= multiset(all)
    ensures Distinct(all) ==> Distinct(LocomoSelection(all, sampleLe))
    ensures forall w :: w in Weights(all, Category()) ==>
              |Group(LocomoSelection(all, sampleLe), Category(), w.key)|
              == Least(Allocation(LOCOMO_DEV_N, Weights(all, Category()), IntLe)(w), w.w)
  {
    KeyOrders();
    SamplerIsExact(QidLe(), sampleLe);
    StratifierIsExact(Conversation(), StringLe, Sampler(QidLe(), sampleLe));
    var pick := ByConversation(sampleLe);
    StratifySize(all, LOCOMO_DEV_N, Category(), IntLe, pick);
    StratifyWithin(all, LOCOMO_DEV_N, Category(), IntLe, pick);
    if Distinct(all) { DistinctPermuted(all, LocomoSelection(all, sampleLe)); }
    SortedWeights(all, Category(), IntLe);
    forall w | w in Weights(all, Category())
      ensures |Group(LocomoSelection(all, sampleLe), Category(), w.key)|
              == Least(Allocation(LOCOMO_DEV_N, Weights(all, Category()), IntLe)(w), w.w)
    {
      StratumOf(all, LOCOMO_DEV_N, Category(), IntLe, pick, w);
    }
  }

  // ---------------------------------------------------------------- which conversations are covered

  function WeightOf<T, K(==)>(s: seq<T>, key: T -> K, k: K): Weight<K> {
    Weight(k, |Group(s, key, k)|)
  }

  /** The stratum exists and its apportionment seats it. */
  predicate StratumSeated<T, K(==)>(s: seq<T>, total: int, key: T -> K, keyLe: (K, K) -> bool, k: K) {
    Group(s, key, k) != [] && Seated(total, Weights(s, key), keyLe, WeightOf(s, key, k))
  }

  lemma {:induction false} GroupEmptyIff<T, K>(s: seq<T>, key: T -> K, k: K)
    ensures Group(s, key, k) != [] <==> exists x :: x in s && key(x) == k
  {
    if |s| > 0 {
      GroupEmptyIff(s[1..], key, k);
      assert s == [s[0]] + s[1..];
    }
  }

  /** A stratum has an element in the selection exactly when it is seated. */
  lemma StratumCoveredIff<T(!new), K(!new)>(s: seq<T>, total: int, key: T -> K, keyLe: (K, K) -> bool, pick: Pick<T>, k: K)
    requires ExactPick(pick) && TotalOrder(keyLe)
    ensures Group(Stratify(s, total, key, keyLe, pick), key, k) != [] <==> StratumSeated(s, total, key, keyLe, k)
  {
    hide Stratify, Allocation, Seated, Weights, Group, TotalOrder, ExactPick;
    var w := WeightOf(s, key, k);
    if Group(s, key, k) != [] {
      WeightOfIn(s, key, k);
      StratumOf(s, total, key, keyLe, pick, w);
      SeatedIff(total, Weights(s, key), keyLe, w);
      PickSize(pick, Group(s, key, k), Allocation(total, Weights(s, key), keyLe)(w));
    } else {
      StratifyWithin(s, total, key, keyLe, pick);
      NoStratum(s, Stratify(s, total, key, keyLe, pick), key, k);
    }
  }

  lemma WeightOfIn<T, K>(s: seq<T>, key: T -> K, k: K)
    requires Group(s, key, k) != []
    ensures WeightOf(s, key, k) in Weights(s, key) && DistinctKeys(Weights(s, key))
  {
    KeysAreKeys(s, key);
    var i :| 0 <= i < |Keys(s, key)| && Keys(s, key)[i] == k;
    assert Weights(s, key)[i] == WeightOf(s, key, k);
  }

  lemma PickSize<T(!new)>(pick: Pick<T>, g: seq<T>, n: nat)
    requires ExactPick(pick)
    ensures |pick(g, n)| == Least(n, |g|)
  {
  }

  lemma NoStratum<T, K>(s: seq<T>, chosen: seq<T>, key: T -> K, k: K)
    requires multiset(chosen) <= multiset(s) && Group(s, key, k) == []
    ensures Group(chosen, key, k) == []
  {
    GroupEmptyIff(s, key, k);
    GroupEmptyIff(chosen, key, k);
    forall x | x in chosen ensures x in s {
      assert x in multiset(chosen) && x in multiset(s);
    }
  }

  /** The places of one category. */
  function CategoryPlaces(all: seq<Qa>, category: int): nat {
    Allocation(LOCOMO_DEV_N, Weights(all, Category()), IntLe)(WeightOf(all, Category(), category))
  }

  /** In this category the places reach this conversation. */
  predicate ReachedIn(all: seq<Qa>, category: int, conv: string) {
    StratumSeated(Group(all, Category(), category), CategoryPlaces(all, category), Conversation(), StringLe, conv)
  }

  lemma CategoryPart(all: seq<Qa>, sampleLe: (Qa, Qa) -> bool, category: int)
    requires Group(all, Category(), category) != []
    ensures
      Group(LocomoSelection(all, sampleLe), Category(), category)
      == Stratify(Group(all, Category(), category), CategoryPlaces(all, category), Conversation(), StringLe, Sampler(QidLe(), sampleLe))
  {
    KeyOrders();
    SamplerIsExact(QidLe(), sampleLe);
    StratifierIsExact(Conversation(), StringLe, Sampler(QidLe(), sampleLe));
    WeightOfIn(all, Category(), category);
    var w := WeightOf(all, Category(), category);
    StratumOf(all, LOCOMO_DEV_N, Category(), IntLe, ByConversation(sampleLe), w);
  }

  /** In every category, each conversation gets what the category's places give it. */
  lemma LocomoCellQuota(all: seq<Qa>, sampleLe: (Qa, Qa) -> bool, category: int, conv: string)
    requires Group(Group(all, Category(), category), Conversation(), conv) != []
    ensures
      var qas := Group(all, Category(), category);
      var cell := Group(qas, Conversation(), conv);
      |Group(Group(LocomoSelection(all, sampleLe), Category(), category), Conversation(), conv)|
      == Least(Allocation(CategoryPlaces(all, category), Weights(qas, Conversation()), StringLe)(Weight(conv, |cell|)), |cell|)
  {
    var qas := Group(all, Category(), category);
    NotEmpty(qas, Conversation(), conv);
    hide LocomoSelection, Allocation, Stratify, CategoryPlaces, Group;
    CategoryPart(all, sampleLe, category);
    SamplerIsExact(QidLe(), sampleLe);
    StratumQuota(qas, CategoryPlaces(all, category), Conversation(), StringLe, Sampler(QidLe(), sampleLe), conv);
  }

  lemma NotEmpty<T, K>(s: seq<T>, key: T -> K, k: K)
    ensures Group(s, key, k) != [] ==> s != []
  {
  }

  /** Of one category and conversation, a question taken precedes every question left in sampling order. */
  lemma LocomoSampledBefore(all: seq<Qa>, sampleLe: (Qa, Qa) -> bool, x: Qa, y: Qa)
    requires TotalPreorder(sampleLe) && x.category == y.category && x.conv == y.conv
    requires var chosen := LocomoSelection(all, sampleLe); x in chosen && multiset(chosen)[y] < multiset(all)[y]
    ensures sampleLe(x, y)
  {
    hide LocomoSelection, Stratify, CategoryPlaces;
    var chosen, qas := LocomoSelection(all, sampleLe), Group(all, Category(), x.category);
    GroupCounts(all, Category(), x.category, y);
    GroupCounts(chosen, Category(), x.category, y);
    GroupCounts(chosen, Category(), x.category, x);
    assert y in multiset(qas);
    CategoryPart(all, sampleLe, x.category);
    assert x in multiset(chosen) && x in multiset(Group(chosen, Category(), x.category));
    StratumSampledBefore(qas, CategoryPlaces(all, x.category), Conversation(), StringLe, QidLe(), sampleLe, x, y);
  }

  /** A conversation has a question in the selection exactly when, in some category, the category's places reach it. */
  lemma ConversationCoveredIff(all: seq<Qa>, sampleLe: (Qa, Qa) -> bool, conv: string)
    ensures
      (exists q :: q in LocomoSelection(all, sampleLe) && q.conv == conv)
      <==> exists category :: ReachedIn(all, category, conv)
  {
    var chosen := LocomoSelection(all, sampleLe);
    KeyOrders();
    SamplerIsExact(QidLe(), sampleLe);
    forall category ensures ReachedIn(all, category, conv) <==> exists q :: q in chosen && q.conv == conv && q.category == category {
      CategoryCoveredIff(all, sampleLe, category, conv);
    }
    if q :| q in chosen && q.conv == conv {
      assert ReachedIn(all, q.category, conv);
    }
  }

  lemma CategoryCoveredIff(all: seq<Qa>, sampleLe: (Qa, Qa) -> bool, category: int, conv: string)
    ensures
      ReachedIn(all, category, conv)
      <==> exists q :: q in LocomoSelection(all, sampleLe) && q.conv == conv && q.category == category
  {
    hide LocomoSelection, Group, StratumSeated, CategoryPlaces, Stratify, Sampler, TotalOrder, ExactPick;
    var chosen, g := LocomoSelection(all, sampleLe), Group(all, Category(), category);
    var part := Group(chosen, Category(), category);
    KeyOrders();
    SamplerIsExact(QidLe(), sampleLe);
    InGroup(chosen, Category(), category);
    if g == [] {
      LocomoSelectionExact(all, sampleLe);
      NoStratum(all, chosen, Category(), category);
      EmptyUnseated(CategoryPlaces(all, category), conv);
    } else {
      CategoryPart(all, sampleLe, category);
      StratumCoveredIff(g, CategoryPlaces(all, category), Conversation(), StringLe, Sampler(QidLe(), sampleLe), conv);
      GroupEmptyIff(part, Conversation(), conv);
    }
  }

  lemma EmptyUnseated(places: int, conv: string)
    ensures !StratumSeated([], places, Conversation(), StringLe, conv)
  {
  }

  lemma {:induction false} InGroup<T, K>(s: seq<T>, key: T -> K, k: K)
    ensures forall x :: x in Group(s, key, k) <==> x in s && key(x) == k
  {
    if |s| > 0 {
      InGroup(s[1..], key, k);
      assert s == [s[0]] + s[1..];
    }
  }

  /** One question of a conversation of its own beside n questions of another, all in one category: it is covered
      exactly while n stays below 599, or is 599 and its conversation sorts first. Above that the selection holds
      no question of its conversation. */
  lemma LoneConversationIff(many: seq<Qa>, q: Qa, conv: string, sampleLe: (Qa, Qa) -> bool)
    requires |many| > 0 && q.conv != conv && forall x :: x in many ==> x.category == q.category && x.conv == conv
    ensures
      (exists x :: x in LocomoSelection(many + [q], sampleLe) && x.conv == q.conv)
      <==> |many| < 599 || (|many| == 599 && StringLe(q.conv, conv))
  {
    var all := many + [q];
    ConversationCoveredIff(all, sampleLe, q.conv);
    hide LocomoSelection, ReachedIn;
    OneCategory(all, q.category);
    LoneReached(many, q, conv);
    forall category | ReachedIn(all, category, q.conv) ensures category == q.category {
      OtherCategory(all, q.category, category, q.conv);
    }
  }

  lemma OtherCategory(all: seq<Qa>, category: int, other: int, conv: string)
    requires (forall x :: x in all ==> x.category == category) && ReachedIn(all, other, conv)
    ensures other == category
  {
    WholeGroup(all, Category(), category, other);
    if other != category { EmptyUnseated(CategoryPlaces(all, other), conv); }
  }

  /** With one category, the category takes every place. */
  lemma OneCategory(all: seq<Qa>, category: int)
    requires |all| > 0 && forall x :: x in all ==> x.category == category
    ensures Group(all, Category(), category) == all && CategoryPlaces(all, category) == LOCOMO_DEV_N
  {
    var key := Category();
    WholeGroup(all, key, category, category);
    OneKey(all, key, category);
    var w := Weight(category, |all|);
    KeyOrders();
    SumOfCons(w, [], Heft());
    assert [w] + [] == [w] && Total([w]) == |all|;
    AllocationSumsToTotal(LOCOMO_DEV_N, [w], IntLe);
    SumOfCons(w, [], Allocation(LOCOMO_DEV_N, [w], IntLe));
    assert [w] + [] == [w];
  }

  lemma OneKey<T, K>(s: seq<T>, key: T -> K, k: K)
    requires |s| > 0 && forall x :: x in s ==> key(x) == k
    ensures Weights(s, key) == [Weight(k, |s|)]
  {
    WholeGroup(s, key, k, k);
    WithoutSize(s, key, k);
    assert Without(s, key, k) == [];
    assert Keys(s, key) == [k];
  }

  lemma TwoGroups<T, K>(many: seq<T>, q: T, key: T -> K, k: K)
    requires key(q) != k && forall x :: x in many ==> key(x) == k
    ensures Group(many + [q], key, k) == many && Group(many + [q], key, key(q)) == [q] && Without(many + [q], key, k) == [q]
  {
    hide Group;
    WholeGroup(many, key, k, k);
    WholeGroup(many, key, k, key(q));
    WholeGroup([q], key, key(q), k);
    WholeGroup([q], key, key(q), key(q));
    GroupConcat(many, [q], key, k);
    GroupConcat(many, [q], key, key(q));
    WholeGroup(many, Differs(key, k), false, true);
    WholeGroup([q], Differs(key, k), true, true);
    GroupConcat(many, [q], Differs(key, k), true);
    assert many + [] == many && [] + [q] == [q];
  }

  lemma TwoKeys<T, K>(many: seq<T>, q: T, key: T -> K, k: K)
    requires |many| > 0 && key(q) != k && forall x :: x in many ==> key(x) == k
    ensures Weights(many + [q], key) == [Weight(k, |many|), Weight(key(q), 1)]
    ensures Group(many + [q], key, key(q)) == [q]
  {
    var s := many + [q];
    assert many[0] in many && s[0] == many[0];
    assert Without([q], key, key(q)) == [] by { WholeGroup([q], Differs(key, key(q)), false, true); }
    hide Group, Keys, Without;
    TwoGroups(many, q, key, k);
    KeysStep(s, key);
    KeysStep([q], key);
    KeysStep([], key);
    assert Keys(s, key) == [k, key(q)];
  }

  lemma KeysStep<T, K>(s: seq<T>, key: T -> K)
    ensures Keys(s, key) == if |s| == 0 then [] else [key(s[0])] + Keys(Without(s, key, key(s[0])), key)
  {
  }

  lemma Quotient(x: nat, m: nat, q: nat, r: nat)
    requires m > 0 && x == q * m + r && r < m
    ensures x / m == q && x % m == r
  {
    var d := x / m;
    assert x == d * m + x % m;
    if d > q { AtLeastOne(d, q, m); }
    if d < q { AtLeastOne(q, d, m); }
  }

  lemma AtLeastOne(d: nat, q: nat, m: nat)
    requires d > q
    ensures d * m >= q * m + m
  {
    assert d * m == (d - q - 1) * m + q * m + m;
  }

  lemma LoneReached(many: seq<Qa>, q: Qa, conv: string)
    requires |many| > 0 && q.conv != conv && forall x :: x in many ==> x.category == q.category && x.conv == conv
    ensures ReachedIn(many + [q], q.category, q.conv) <==> |many| < 599 || (|many| == 599 && StringLe(q.conv, conv))
  {
    var all, n := many + [q], |many|;
    OneCategory(all, q.category);
    TwoKeys(many, q, Conversation(), conv);
    hide StringLe;
    KeyOrders();
    LoneSeated(n, conv, q.conv, StringLe);
  }

  lemma LoneSeated(n: nat, a: string, b: string, keyLe: (string, string) -> bool)
    requires n > 0 && a != b && TotalOrder(keyLe)
    ensures
      Seated(LOCOMO_DEV_N, [Weight(a, n), Weight(b, 1)], keyLe, Weight(b, 1))
      <==> n < 599 || (n == 599 && keyLe(b, a))
  {
    hide SumBy;
    var x, y := Weight(a, n), Weight(b, 1);
    var ws, sum := [x, y], n + 1;
    TwoSum(x, y, Heft());
    assert Total(ws) == sum;
    if n >= 300 {
      Quotient(300 * n, sum, 299, n - 299);
      Quotient(300, sum, 0, 300);
      TwoSum(x, y, Floor(300, sum));
      var frac := Fraction<string>(300, sum);
      assert frac(x) == n - 299 && frac(y) == 300 && SumBy(ws, Floor(300, sum)) == 299;
      TwoSum(x, y, Indicator(Beats(frac, keyLe, y)));
      assert Ahead(ws, frac, keyLe, y) == if Beats(frac, keyLe, y)(x) then 1 else 0;
      assert Seated(300, ws, keyLe, y) <==> !Beats(frac, keyLe, y)(x);
      assert x.key == a && y.key == b && x != y;
      assert ByFraction(frac, keyLe)(x, y) <==> frac(x) > frac(y) || (frac(x) == frac(y) && keyLe(x.key, y.key));
      assert Beats(frac, keyLe, y)(x) <==> n > 599 || (n == 599 && keyLe(a, b));
      assert keyLe(a, b) <==> !keyLe(b, a);
      assert Seated(300, ws, keyLe, y) <==> n < 599 || (n == 599 && keyLe(b, a));
    } else {
      assert Seated(300, ws, keyLe, y);
    }
  }

  /** Inner loop of the LoCoMo selection: one category, apportioned over its conversations. */
  method SelectConversations(qas: seq<Qa>, places: nat, sampleLe: (Qa, Qa) -> bool) returns (selected: seq<Qa>)
    ensures selected == ByConversation(sampleLe)(qas, places)
  {
    var convs, cells := GroupBy(qas, Conversation());
    var ws := SizesOf(qas, Conversation(), convs, cells);
    WeightsDistinct(qas, Conversation());
    var alloc := LargestRemainder(places, ws, StringLe);
    selected := Fill(qas, Conversation(), StringLe, cells, alloc, Allocation(places, ws, StringLe), QidLe(), sampleLe);
  }

  method LocomoDevSelection(all: seq<Qa>, sampleLe: (Qa, Qa) -> bool) returns (selected: seq<Qa>)
    ensures selected == LocomoSelection(all, sampleLe)
  {
    var cats, byCat := GroupBy(all, Category());
    var ws := SizesOf(all, Category(), cats, byCat);
    WeightsDistinct(all, Category());
    var catAlloc := LargestRemainder(LOCOMO_DEV_N, ws, IntLe);
    SortedWeights(all, Category(), IntLe);
    selected := CollectCategories(SortBy(ws, ByKey(IntLe)), byCat, catAlloc, sampleLe,
                                  Part(all, Category(), Allocation(LOCOMO_DEV_N, ws, IntLe), ByConversation(sampleLe)));
  }

  method CollectCategories(order: seq<Weight<int>>, byCat: map<int, seq<Qa>>, catAlloc: map<int, nat>,
                           sampleLe: (Qa, Qa) -> bool, ghost part: Weight<int> -> seq<Qa>)
    returns (selected: seq<Qa>)
    requires forall w :: w in order ==> w.key in byCat && w.key in catAlloc
    requires forall w :: w in order ==> part(w) == ByConversation(sampleLe)(byCat[w.key], catAlloc[w.key])
    ensures selected == Concat(order, part)
  {
    hide Concat;
    selected := [];
    ConcatEnds(order, part);
    for i := 0 to |order|
      invariant selected + Concat(order[i..], part) == Concat(order, part)
    {
      ConcatAt(order, i, part);
      var chosen := SelectConversations(byCat[order[i].key], catAlloc[order[i].key], sampleLe);
      selected := selected + chosen;
    }
  }

  // ---------------------------------------------------------------- LongMemEval-V2

  const LME_DEV_N := 120

  datatype LmeQuestion = LmeQuestion(id: string, questionType: string, domain: string)

  function Forced(): LmeQuestion -> bool { (q: LmeQuestion) => q.questionType == "errors-gotchas" }
  function CellOf(): LmeQuestion -> (string, string) { (q: LmeQuestion) => (q.questionType, q.domain) }
  function IdLe(): (LmeQuestion, LmeQuestion) -> bool { (x: LmeQuestion, y: LmeQuestion) => StringLe(x.id, y.id) }

  function LmeSelection(questions: seq<LmeQuestion>, sampleLe: (LmeQuestion, LmeQuestion) -> bool): seq<LmeQuestion> {
    var forced := SortBy(Group(questions, Forced(), true), IdLe());
    forced + Stratify(Group(questions, Forced(), false), LME_DEV_N - |forced|, CellOf(), PairLe, Sampler(IdLe(), sampleLe))
  }

  /** Every forced question, and exactly min(max(120 - forced, 0), rest) of the others. */
  lemma LmeSelectionExact(questions: seq<LmeQuestion>, sampleLe: (LmeQuestion, LmeQuestion) -> bool)
    ensures
      var forced := Group(questions, Forced(), true);
      var rest := Group(questions, Forced(), false);
      var selected := LmeSelection(questions, sampleLe);
      var room := LME_DEV_N - |forced|;
      && |selected| == |forced| + Least(if room < 0 then 0 else room, |rest|)
      && multiset(Group(selected, Forced(), true)) == multiset(forced)
      && multiset(selected) <= multiset(questions)
  {
    var forced := Group(questions, Forced(), true);
    var rest := Group(questions, Forced(), false);
    var room := LME_DEV_N - |forced|;
    KeyOrders();
    SortPermutes(forced, IdLe());
    SamplerIsExact(IdLe(), sampleLe);
    StratifySize(rest, room, CellOf(), PairLe, Sampler(IdLe(), sampleLe));
    StratifyWithin(rest, room, CellOf(), PairLe, Sampler(IdLe(), sampleLe));
    ForcedThenOthers(questions, SortBy(forced, IdLe()), Stratify(rest, room, CellOf(), PairLe, Sampler(IdLe(), sampleLe)));
  }

  lemma ForcedThenOthers(questions: seq<LmeQuestion>, listed: seq<LmeQuestion>, others: seq<LmeQuestion>)
    requires multiset(listed) == multiset(Group(questions, Forced(), true))
    requires multiset(others) <= multiset(Group(questions, Forced(), false))
    ensures Group(listed + others, Forced(), true) == listed && Group(listed + others, Forced(), false) == others
    ensures multiset(listed + others) <= multiset(questions)
  {
    GroupMembers(questions, Forced(), true);
    GroupMembers(questions, Forced(), false);
    forall x | x in listed ensures Forced()(x) {
      assert x in multiset(listed);
      assert x in Group(questions, Forced(), true);
    }
    forall x | x in others ensures !Forced()(x) {
      assert x in multiset(others);
      assert x in Group(questions, Forced(), false);
    }
    SplitAgain(listed, others);
    forall x ensures multiset(listed + others)[x] <= multiset(questions)[x] {
      GroupCounts(questions, Forced(), true, x);
      GroupCounts(questions, Forced(), false, x);
    }
  }

  lemma SplitAgain(listed: seq<LmeQuestion>, others: seq<LmeQuestion>)
    requires (forall x :: x in listed ==> Forced()(x)) && forall x :: x in others ==> !Forced()(x)
    ensures Group(listed + others, Forced(), true) == listed && Group(listed + others, Forced(), false) == others
  {
    hide Group;
    GroupConcat(listed, others, Forced(), true);
    GroupConcat(listed, others, Forced(), false);
    WholeGroup(listed, Forced(), true, true);
    WholeGroup(listed, Forced(), true, false);
    WholeGroup(others, Forced(), false, true);
    WholeGroup(others, Forced(), false, false);
    assert listed + [] == listed && [] + others == others;
  }

  method LmeDevSelection(questions: seq<LmeQuestion>, sampleLe: (LmeQuestion, LmeQuestion) -> bool)
    returns (selected: seq<LmeQuestion>)
    ensures selected == LmeSelection(questions, sampleLe)
  {
    hide Group, SortBy, Concat, Allocation, StableSample;
    var gotchas := SortBy(Group(questions, Forced(), true), IdLe());
    var rest := Group(questions, Forced(), false);
    var keys, cells := GroupBy(rest, CellOf());
    var ws := SizesOf(rest, CellOf(), keys, cells);
    WeightsDistinct(rest, CellOf());
    var room := LME_DEV_N - |gotchas|;
    var alloc := LargestRemainder(room, ws, PairLe);
    var others := Fill(rest, CellOf(), PairLe, cells, alloc, Allocation(room, ws, PairLe), IdLe(), sampleLe);
    selected := gotchas + others;
  }

  /** The selection is the forced questions and then a stratified one of the rest. */
  lemma LmeParts(questions: seq<LmeQuestion>, sampleLe: (LmeQuestion, LmeQuestion) -> bool)
    ensures
      var rest := Group(questions, Forced(), false);
      var room := LME_DEV_N - |Group(questions, Forced(), true)|;
      Group(LmeSelection(questions, sampleLe), Forced(), false) == Stratify(rest, room, CellOf(), PairLe, Sampler(IdLe(), sampleLe))
  {
    hide Stratify, SortBy, Group;
    var forced, rest := SortBy(Group(questions, Forced(), true), IdLe()), Group(questions, Forced(), false);
    var room := LME_DEV_N - |forced|;
    KeyOrders();
    SortPermutes(Group(questions, Forced(), true), IdLe());
    assert |forced| == |multiset(forced)| == |Group(questions, Forced(), true)|;
    SamplerIsExact(IdLe(), sampleLe);
    StratifyWithin(rest, room, CellOf(), PairLe, Sampler(IdLe(), sampleLe));
    ForcedThenOthers(questions, forced, Stratify(rest, room, CellOf(), PairLe, Sampler(IdLe(), sampleLe)));
  }

  /** Of the questions that are not forced, each type and domain gets its share of the room left. */
  lemma LmeCellQuota(questions: seq<LmeQuestion>, sampleLe: (LmeQuestion, LmeQuestion) -> bool, cell: (string, string))
    requires Group(Group(questions, Forced(), false), CellOf(), cell) != []
    ensures
      var rest, chosen := Group(questions, Forced(), false), Group(LmeSelection(questions, sampleLe), Forced(), false);
      var room, size := LME_DEV_N - |Group(questions, Forced(), true)|, |Group(rest, CellOf(), cell)|;
      |Group(chosen, CellOf(), cell)| == Least(Allocation(room, Weights(rest, CellOf()), PairLe)(Weight(cell, size)), size)
  {
    hide *;
    LmeParts(questions, sampleLe);
    SamplerIsExact(IdLe(), sampleLe);
    StratumQuota(Group(questions, Forced(), false), LME_DEV_N - |Group(questions, Forced(), true)|, CellOf(), PairLe,
                 Sampler(IdLe(), sampleLe), cell);
  }

  /** Of one type and domain, a question taken precedes every question left in sampling order. */
  lemma LmeSampledBefore(questions: seq<LmeQuestion>, sampleLe: (LmeQuestion, LmeQuestion) -> bool, x: LmeQuestion, y: LmeQuestion)
    requires TotalPreorder(sampleLe) && x.questionType == y.questionType != "errors-gotchas" && x.domain == y.domain
    requires var chosen := LmeSelection(questions, sampleLe); x in chosen && multiset(chosen)[y] < multiset(questions)[y]
    ensures sampleLe(x, y)
  {
    hide LmeSelection, Stratify, Group, TotalPreorder;
    var chosen, rest := LmeSelection(questions, sampleLe), Group(questions, Forced(), false);
    LmeParts(questions, sampleLe);
    GroupCounts(questions, Forced(), false, y);
    GroupCounts(chosen, Forced(), false, y);
    GroupCounts(chosen, Forced(), false, x);
    assert x in multiset(chosen) && x in multiset(Group(chosen, Forced(), false));
    StratumSampledBefore(rest, LME_DEV_N - |Group(questions, Forced(), true)|, CellOf(), PairLe, IdLe(), sampleLe, x, y);
  }
}
