/** The offline compaction comparison: facts are kept, in the order the prompt suggests, while they fit the summary
    budget, and a configuration is judged by the share of critical facts it keeps. The legacy prompt gives no order,
    so its order is any shuffle; the v2 prompt keeps the critical tiers first. */
module CompactionQuality {
  import opened Sequences

  datatype Tier = Anchor | Decision | Constraint | Progress | Filler

  datatype Fact = Fact(tier: Tier, ident: string)

  datatype Prompt = LegacyPrompt | V2Prompt

  datatype BudgetMode = LegacyBudget | ScaledBudget

  datatype Config = Config(prompt: Prompt, mode: BudgetMode, reserve: real, modelMax: real)

  const FACT_TOKENS := 40.0
  const DEFAULT_RESERVE := 16384.0
  const DEFAULT_MODEL_MAX := 8192.0

  const LEGACY := Config(LegacyPrompt, LegacyBudget, DEFAULT_RESERVE, DEFAULT_MODEL_MAX)
  const V2 := Config(V2Prompt, LegacyBudget, DEFAULT_RESERVE, DEFAULT_MODEL_MAX)
  const V2_SCALED := Config(V2Prompt, ScaledBudget, DEFAULT_RESERVE, DEFAULT_MODEL_MAX)

  // ---------------------------------------------------------------- budgets

  function SummaryBudget(c: Config, tokensBefore: real): int {
    match c.mode
    case ScaledBudget =>
      var raw := if tokensBefore / 40.0 > 0.0 then tokensBefore / 40.0 else 0.0;
      var raised := if raw < 2000.0 then 2000.0 else raw;
      (if raised > 8000.0 then 8000.0 else raised).Floor
    case LegacyBudget => (0.8 * c.reserve).Floor
  }

  function EffectiveBudget(c: Config, tokensBefore: real): real {
    var wanted := SummaryBudget(c, tokensBefore) as real;
    if c.modelMax < wanted then c.modelMax else wanted
  }

  /** The scaled budget is a fortieth of the tokens, rounded down, but at least 2000 and at most 8000. The legacy one is
      eight tenths of the reserve, rounded down. The model's ceiling caps both. */
  lemma BudgetIs(c: Config, tokens: real)
    ensures
      var b := SummaryBudget(c, tokens);
      && (c.mode == ScaledBudget && tokens <= 80000.0 ==> b == 2000)
      && (c.mode == ScaledBudget && tokens >= 320000.0 ==> b == 8000)
      && (c.mode == ScaledBudget && 80000.0 <= tokens <= 320000.0 ==> 40.0 * b as real <= tokens < 40.0 * (b + 1) as real)
      && (c.mode == LegacyBudget ==> 10.0 * b as real <= 8.0 * c.reserve < 10.0 * (b + 1) as real)
      && EffectiveBudget(c, tokens) <= c.modelMax && EffectiveBudget(c, tokens) <= b as real
      && (EffectiveBudget(c, tokens) == c.modelMax || EffectiveBudget(c, tokens) == b as real)
  {
    var q := tokens / 40.0;
    assert tokens == 40.0 * q;
  }

  /** The number of facts that fit a budget. */
  function Room(budget: real): nat {
    if budget < 0.0 then 0 else (budget / FACT_TOKENS).Floor
  }

  lemma RoomFits(budget: real, n: nat)
    ensures (n + 1) as real * FACT_TOKENS <= budget <==> n < Room(budget)
  {
    if budget >= 0.0 {
      var q := budget / FACT_TOKENS;
      assert q * FACT_TOKENS == budget;
      assert (n + 1) as real * FACT_TOKENS <= q * FACT_TOKENS <==> (n + 1) as real <= q;
    }
  }

  // ---------------------------------------------------------------- the simulator

  function Rank(t: Tier): nat {
    match t
    case Anchor => 0
    case Decision => 1
    case Constraint => 2
    case Progress => 3
    case Filler => 4
  }

  function ByRank(): (Fact, Fact) -> bool {
    (a: Fact, b: Fact) => Rank(a.tier) <= Rank(b.tier)
  }

  function Prefix(order: seq<Fact>, n: nat): seq<Fact> {
    if n < |order| then order[..n] else order
  }

  const TIERS: seq<Tier> := [Anchor, Decision, Constraint, Progress, Filler]

  /** The v2 order lists anchors, decisions, constraints, progress and filler, in this order, and the facts of one tier as
      the transcript has them. */
  lemma V2OrderIs(facts: seq<Fact>, i: nat, j: nat)
    requires i < j < 5
    ensures
      var order := SortBy(facts, ByRank());
      && multiset(order) == multiset(facts)
      && (forall x, y :: 0 <= x < |order| && 0 <= y < |order| && order[x].tier == TIERS[i] && order[y].tier == TIERS[j] ==> x < y)
      && Having(order, OfTier(TIERS[i])) == Having(facts, OfTier(TIERS[i]))
  {
    hide SortBy, Having, Rank;
    TierRanks(i);
    TierRanks(j);
    RankOrders();
    SortSorted(facts, ByRank());
    SortPermutes(facts, ByRank());
    SortStable(facts, ByRank(), OfTier(TIERS[i]));
    RankedBefore(SortBy(facts, ByRank()), TIERS[i], TIERS[j]);
  }

  lemma TierRanks(i: nat)
    requires i < 5
    ensures Rank(TIERS[i]) == i
  {
  }

  lemma RankedBefore(order: seq<Fact>, a: Tier, b: Tier)
    requires Sorted(order, ByRank()) && Rank(a) < Rank(b)
    ensures forall x, y :: 0 <= x < |order| && 0 <= y < |order| && order[x].tier == a && order[y].tier == b ==> x < y
  {
    forall x, y | 0 <= x < |order| && 0 <= y < |order| && order[x].tier == a && order[y].tier == b ensures x < y {
      assert !ByRank()(order[y], order[x]);
    }
  }

  function OfTier(t: Tier): Fact -> bool { (f: Fact) => f.tier == t }

  /** What the greedy loop keeps: every fact costs the same, so once one does not fit, none does. */
  method KeepWithin(ordered: seq<Fact>, budget: real) returns (kept: seq<Fact>)
    ensures kept == Prefix(ordered, Room(budget))
  {
    kept := [];
    var used := 0.0;
    for i := 0 to |ordered|
      invariant |kept| <= i && kept == ordered[..|kept|]
      invariant used == |kept| as real * FACT_TOKENS
      invariant |kept| == i || |kept| == Room(budget)
      invariant |kept| <= Room(budget)
    {
      RoomFits(budget, |kept|);
      if used + FACT_TOKENS <= budget {
        kept := kept + [ordered[i]];
        used := used + FACT_TOKENS;
      }
    }
  }

  /** The order of the facts: by tier and position under the v2 prompt, as shuffled otherwise. */
  function Order(c: Config, facts: seq<Fact>, shuffled: seq<Fact>): seq<Fact> {
    if c.prompt == LegacyPrompt then shuffled else SortBy(facts, ByRank())
  }

  method SimulateSummary(c: Config, tokensBefore: real, facts: seq<Fact>, shuffled: seq<Fact>) returns (kept: seq<Fact>)
    requires multiset(shuffled) == multiset(facts)
    ensures kept == Kept(c, tokensBefore, facts, shuffled)
  {
    var budget := EffectiveBudget(c, tokensBefore);
    var ordered := if c.prompt == LegacyPrompt then shuffled else SortBy(facts, ByRank());
    kept := KeepWithin(ordered, budget);
  }

  function Kept(c: Config, tokensBefore: real, facts: seq<Fact>, shuffled: seq<Fact>): seq<Fact> {
    Prefix(Order(c, facts, shuffled), Room(EffectiveBudget(c, tokensBefore)))
  }

  /** Anchors, decisions and constraints. */
  function Critical(): Fact -> bool { UpTo(2) }

  lemma CriticalIs(f: Fact)
    ensures Critical()(f) <==> f.tier == Anchor || f.tier == Decision || f.tier == Constraint
  {
  }

  function UpTo(rank: nat): Fact -> bool {
    (f: Fact) => Rank(f.tier) <= rank
  }

  function Idents(facts: seq<Fact>): set<string> {
    set f | f in facts :: f.ident
  }

  function Survives(ids: set<string>): Fact -> bool {
    (f: Fact) => Rank(f.tier) <= 2 && f.ident in ids
  }

  /** survival_rate: the share of critical facts whose identity is among the kept ones. */
  function SurvivalRate(kept: seq<Fact>, facts: seq<Fact>): real {
    var critical := Count(facts, Critical());
    if critical == 0 then 1.0 else Count(facts, Survives(Idents(kept))) as real / critical as real
  }

  // ---------------------------------------------------------------- counting

  lemma {:induction false} CountAll<T>(s: seq<T>, p: T -> bool, q: T -> bool)
    requires forall x :: x in s ==> p(x) == q(x)
    ensures Count(s, p) == Count(s, q)
  {
    CountImplied(s, p, q);
    CountImplied(s, q, p);
  }

  lemma PrefixSplits(order: seq<Fact>, n: nat, p: Fact -> bool) returns (rest: seq<Fact>)
    ensures order == Prefix(order, n) + rest
    ensures Count(order, p) == Count(Prefix(order, n), p) + Count(rest, p)
  {
    rest := if n < |order| then order[n..] else [];
    SumSplit(Prefix(order, n), rest, Indicator(p));
  }

  /** No order keeps more facts of any kind than there are, or than fit. */
  lemma PrefixAtMost(order: seq<Fact>, n: nat, p: Fact -> bool)
    ensures Count(Prefix(order, n), p) <= n && Count(Prefix(order, n), p) <= Count(order, p)
  {
    var rest := PrefixSplits(order, n, p);
    CountImplied(Prefix(order, n), p, p);
  }

  /** In an order by tier, the front holds as many facts of the first tiers as can be. */
  lemma {:induction false} SortedPrefix(order: seq<Fact>, n: nat, rank: nat)
    requires Sorted(order, ByRank())
    ensures var all := Count(order, UpTo(rank)); Count(Prefix(order, n), UpTo(rank)) == if n < all then n else all
  {
    if n == 0 || |order| == 0 {
      PrefixAtMost(order, n, UpTo(rank));
    } else if Rank(order[0].tier) <= rank {
      SortedPrefix(order[1..], n - 1, rank);
      SumOfCons(order[0], order[1..], Indicator(UpTo(rank)));
      SumOfCons(order[0], Prefix(order[1..], n - 1), Indicator(UpTo(rank)));
      assert order == [order[0]] + order[1..];
      assert Prefix(order, n) == [order[0]] + Prefix(order[1..], n - 1);
    } else {
      forall f | f in order ensures !UpTo(rank)(f) {
        assert ByRank()(order[0], f);
      }
      CountNone(order, UpTo(rank));
      PrefixAtMost(order, n, UpTo(rank));
    }
  }

  lemma RankOrders()
    ensures TotalPreorder(ByRank())
  {
  }

  /** The v2 order keeps, of the tiers up to any rank, as many facts as there are or as fit. */
  lemma V2KeepsFirstTiers(facts: seq<Fact>, n: nat, rank: nat)
    ensures
      var all := Count(facts, UpTo(rank));
      Count(Prefix(SortBy(facts, ByRank()), n), UpTo(rank)) == if n < all then n else all
  {
    RankOrders();
    SortSorted(facts, ByRank());
    SortPermutes(facts, ByRank());
    SumPermuted(SortBy(facts, ByRank()), facts, Indicator(UpTo(rank)));
    SortedPrefix(SortBy(facts, ByRank()), n, rank);
  }

  ghost predicate DistinctIdents(facts: seq<Fact>) {
    forall i, j :: 0 <= i < j < |facts| ==> facts[i].ident != facts[j].ident
  }

  lemma PermutedIdents(facts: seq<Fact>, order: seq<Fact>)
    requires DistinctIdents(facts) && multiset(order) == multiset(facts)
    ensures DistinctIdents(order)
  {
    forall i, j | 0 <= i < j < |order| ensures order[i].ident != order[j].ident {
      assert order[i] in multiset(facts) && order[j] in multiset(facts);
      if order[i] == order[j] {
        TwiceCounted(order, i, j);
        assert Distinct(facts);
        DistinctOnce(facts, order[i]);
      }
    }
  }

  /** Judging by identities counts the critical facts that were kept. */
  lemma SurvivorsAreKept(facts: seq<Fact>, order: seq<Fact>, n: nat)
    requires DistinctIdents(facts) && multiset(order) == multiset(facts)
    ensures Count(facts, Survives(Idents(Prefix(order, n)))) == Count(Prefix(order, n), Critical())
  {
    var kept := Prefix(order, n);
    var p := Survives(Idents(kept));
    PermutedIdents(facts, order);
    SumPermuted(order, facts, Indicator(p));
    var rest := PrefixSplits(order, n, p);
    CountAll(kept, p, Critical());
    forall f | f in rest ensures !p(f) {
      LateIsNotKept(order, kept, rest, f);
    }
    CountNone(rest, p);
  }

  lemma LateIsNotKept(order: seq<Fact>, kept: seq<Fact>, rest: seq<Fact>, f: Fact)
    requires order == kept + rest && DistinctIdents(order) && f in rest
    ensures f.ident !in Idents(kept)
  {
    var j :| 0 <= j < |rest| && rest[j] == f;
    forall i | 0 <= i < |kept| ensures kept[i].ident != f.ident {
      assert order[i] == kept[i] && order[|kept| + j] == rest[j];
    }
  }

  // ---------------------------------------------------------------- which configuration keeps more

  lemma RatesCompare(a: nat, b: nat, n: nat)
    requires n > 0
    ensures a as real / n as real <= b as real / n as real <==> a <= b
  {
  }

  /** How one run's rate compares with another's on the same transcript. */
  lemma RateIs(c: Config, tokens: real, facts: seq<Fact>, shuffled: seq<Fact>)
    requires DistinctIdents(facts) && multiset(shuffled) == multiset(facts)
    ensures
      var all, kept := Count(facts, Critical()), Kept(c, tokens, facts, shuffled);
      SurvivalRate(kept, facts) == if all == 0 then 1.0 else Count(kept, Critical()) as real / all as real
  {
    SortPermutes(facts, ByRank());
    SurvivorsAreKept(facts, Order(c, facts, shuffled), Room(EffectiveBudget(c, tokens)));
  }

  /** The comparison in full. The v2 prompt keeps at least the share of critical facts that the legacy prompt keeps,
      whatever the shuffle, exactly when all critical facts fit its own budget or its budget holds no fewer facts. */
  lemma V2DominatesIff(v: Config, l: Config, tokens: real, facts: seq<Fact>)
    requires v.prompt == V2Prompt && l.prompt == LegacyPrompt && DistinctIdents(facts)
    ensures
      (forall shuffled :: multiset(shuffled) == multiset(facts) ==>
         SurvivalRate(Kept(l, tokens, facts, shuffled), facts) <= SurvivalRate(Kept(v, tokens, facts, facts), facts))
      <==>
      (var kv, kl := Room(EffectiveBudget(v, tokens)), Room(EffectiveBudget(l, tokens));
       Count(facts, Critical()) <= kv || kl <= kv)
  {
    var kv, kl := Room(EffectiveBudget(v, tokens)), Room(EffectiveBudget(l, tokens));
    var all := Count(facts, Critical());
    var ours := Kept(v, tokens, facts, facts);
    V2KeepsFirstTiers(facts, kv, 2);
    RateIs(v, tokens, facts, facts);
    if all <= kv || kl <= kv {
      forall shuffled | multiset(shuffled) == multiset(facts)
        ensures SurvivalRate(Kept(l, tokens, facts, shuffled), facts) <= SurvivalRate(ours, facts)
      {
        RateIs(l, tokens, facts, shuffled);
        PrefixAtMost(shuffled, kl, Critical());
        SumPermuted(shuffled, facts, Indicator(Critical()));
        if all > 0 { RatesCompare(Count(Kept(l, tokens, facts, shuffled), Critical()), Count(ours, Critical()), all); }
      }
    } else {
      var best := SortBy(facts, ByRank());
      SortPermutes(facts, ByRank());
      RateIs(l, tokens, facts, best);
      V2KeepsFirstTiers(facts, kl, 2);
      RatesCompare(Count(Kept(l, tokens, facts, best), Critical()), Count(ours, Critical()), all);
      assert !(SurvivalRate(Kept(l, tokens, facts, best), facts) <= SurvivalRate(ours, facts));
    }
  }

  /** With no smaller a budget the v2 prompt keeps, against any shuffle, at least as many facts of the tiers up to any
      rank: anchors, anchors and decisions, and so on. */
  lemma V2KeepsMoreOfEveryTier(facts: seq<Fact>, shuffled: seq<Fact>, kv: nat, kl: nat, rank: nat)
    requires multiset(shuffled) == multiset(facts) && kl <= kv
    ensures Count(Prefix(shuffled, kl), UpTo(rank)) <= Count(Prefix(SortBy(facts, ByRank()), kv), UpTo(rank))
  {
    V2KeepsFirstTiers(facts, kv, rank);
    PrefixAtMost(shuffled, kl, UpTo(rank));
    SumPermuted(shuffled, facts, Indicator(UpTo(rank)));
  }

  /** With the same budget the v2 prompt is never worse. */
  lemma V2PresetDominates(tokens: real, facts: seq<Fact>, shuffled: seq<Fact>)
    requires DistinctIdents(facts) && multiset(shuffled) == multiset(facts)
    ensures SurvivalRate(Kept(LEGACY, tokens, facts, shuffled), facts) <= SurvivalRate(Kept(V2, tokens, facts, facts), facts)
  {
    V2DominatesIff(V2, LEGACY, tokens, facts);
  }

  /** The scaled budget always holds fewer facts than the legacy one, so there the guarantee is lost for every
      transcript with more critical facts than the scaled budget holds: at most 200, whatever the episode's size. */
  lemma V2ScaledDominatesIff(tokens: real, facts: seq<Fact>)
    requires DistinctIdents(facts)
    ensures 50 <= Room(EffectiveBudget(V2_SCALED, tokens)) <= 200
    ensures
      (forall shuffled :: multiset(shuffled) == multiset(facts) ==>
         SurvivalRate(Kept(LEGACY, tokens, facts, shuffled), facts) <= SurvivalRate(Kept(V2_SCALED, tokens, facts, facts), facts))
      <==> Count(facts, Critical()) <= Room(EffectiveBudget(V2_SCALED, tokens))
  {
    V2DominatesIff(V2_SCALED, LEGACY, tokens, facts);
    PresetRooms(tokens);
  }

  /** One such transcript: 51 anchors in an episode of 2000 tokens, of which the scaled budget holds 50. */
  lemma V2ScaledLosesAnchors() returns (facts: seq<Fact>, shuffled: seq<Fact>)
    ensures |facts| == 51 && DistinctIdents(facts) && (forall f :: f in facts ==> f.tier == Anchor)
    ensures multiset(shuffled) == multiset(facts)
    ensures SurvivalRate(Kept(V2_SCALED, 2000.0, facts, facts), facts) < SurvivalRate(Kept(LEGACY, 2000.0, facts, shuffled), facts)
  {
    facts := seq(51, i requires 0 <= i < 51 => Fact(Anchor, seq(i, _ => 'a')));
    assert forall i :: 0 <= i < |facts| ==> |facts[i].ident| == i;
    V2ScaledDominatesIff(2000.0, facts);
    CountEvery(facts, Critical());
    shuffled :| multiset(shuffled) == multiset(facts)
      && !(SurvivalRate(Kept(LEGACY, 2000.0, facts, shuffled), facts) <= SurvivalRate(Kept(V2_SCALED, 2000.0, facts, facts), facts));
  }

  lemma PresetRooms(tokens: real)
    ensures Room(EffectiveBudget(LEGACY, tokens)) == 204
    ensures 50 <= Room(EffectiveBudget(V2_SCALED, tokens)) <= 200
  {
    assert EffectiveBudget(LEGACY, tokens) == 8192.0;
    var b := EffectiveBudget(V2_SCALED, tokens);
    assert 2000.0 <= b <= 8000.0;
    assert 50.0 <= b / FACT_TOKENS <= 200.0;
  }
}
