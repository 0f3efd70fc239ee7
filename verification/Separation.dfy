/** The rank-sum AUC of gold against random similarities. */
module Separation {
  import opened Counting
  import opened Ordering

  // ---- counting below and above in a strict order on indices ----

  /** How many of `0..t` are below `i`. */
  function Below(lt: Less<nat>, i: nat, t: nat): nat {
    if t == 0 then 0 else Below(lt, i, t - 1) + if lt(t - 1, i) then 1 else 0
  }

  function Above(lt: Less<nat>, i: nat, t: nat): nat {
    if t == 0 then 0 else Above(lt, i, t - 1) + if lt(i, t - 1) then 1 else 0
  }

  /** The sum of `Below(lt, i, t)` over `i < k`. */
  function BelowSum(lt: Less<nat>, k: nat, t: nat): nat {
    if k == 0 then 0 else BelowSum(lt, k - 1, t) + Below(lt, k - 1, t)
  }

  ghost function IndicesBelow(lt: Less<nat>, i: nat, t: nat): set<nat> {
    set x: nat | x < t && lt(x, i)
  }

  lemma {:induction false} BelowIsSetSize(lt: Less<nat>, i: nat, t: nat)
    ensures Below(lt, i, t) == |IndicesBelow(lt, i, t)|
  {
    var s := IndicesBelow(lt, i, t);
    if t > 0 {
      BelowIsSetSize(lt, i, t - 1);
      var s' := IndicesBelow(lt, i, t - 1);
      assert s == if lt(t - 1, i) then s' + {t - 1} else s';
    }
  }

  lemma {:induction false} OneSideOrTheOther(lt: Less<nat>, i: nat, t: nat)
    requires StrictTotal(lt) && t <= i
    ensures Below(lt, i, t) + Above(lt, i, t) == t
  {
    if t > 0 { OneSideOrTheOther(lt, i, t - 1); }
  }

  lemma {:induction false} NewcomerAddsAbove(lt: Less<nat>, k: nat, t: nat)
    ensures BelowSum(lt, k, t + 1) == BelowSum(lt, k, t) + Above(lt, t, k)
  {
    if k > 0 { NewcomerAddsAbove(lt, k - 1, t); }
  }

  lemma {:induction false} PairsClosedForm(t: nat)
    ensures 2 * Pairs(t) == t * (t - 1)
  {
    if t > 0 { PairsClosedForm(t - 1); }
  }

  /** Every pair is counted once, from whichever side: double counting. */
  lemma {:induction false} PairsCountedOnce(lt: Less<nat>, t: nat)
    requires StrictTotal(lt)
    ensures BelowSum(lt, t, t) == Pairs(t)
  {
    if t > 0 {
      PairsCountedOnce(lt, t - 1);
      NewcomerAddsAbove(lt, t - 1, t - 1);
      OneSideOrTheOther(lt, t - 1, t - 1);
    }
  }

  // ---- the stable argsort of the concatenation ----

  /** The order of a stable argsort of `s`, extended to all indices. */
  function StableLess(s: seq<real>): Less<nat> {
    (i: nat, j: nat) =>
      if i < |s| && j < |s| && s[i] != s[j] then s[i] < s[j]
      else if (i < |s|) != (j < |s|) then i < |s|
      else i < j
  }

  lemma StableLessStrictTotal(s: seq<real>)
    ensures StrictTotal(StableLess(s))
  {
  }

  /** How many random similarities are strictly below `g`. */
  function CountBelow(rand: seq<real>, g: real): nat {
    if rand == [] then 0
    else CountBelow(rand[..|rand| - 1], g) + if rand[|rand| - 1] < g then 1 else 0
  }

  /** The number of (gold, random) pairs in which gold is strictly greater. */
  function Wins(gold: seq<real>, rand: seq<real>): nat {
    if gold == [] then 0 else Wins(gold[..|gold| - 1], rand) + CountBelow(rand, gold[|gold| - 1])
  }

  ghost function WonBy(g: real, i: nat, rand: seq<real>): set<(nat, nat)> {
    set j: nat | j < |rand| && rand[j] < g :: (i, j)
  }

  lemma {:induction false} CountBelowIs(g: real, i: nat, rand: seq<real>)
    ensures CountBelow(rand, g) == |WonBy(g, i, rand)|
  {
    if rand != [] {
      var last := |rand| - 1;
      CountBelowIs(g, i, rand[..last]);
      var S := WonBy(g, i, rand[..last]);
      assert WonBy(g, i, rand) == if rand[last] < g then S + {(i, last)} else S;
    }
  }

  /** The pairs of a gold and a random similarity in which the gold one is strictly greater. */
  ghost function WonPairs(gold: seq<real>, rand: seq<real>): set<(nat, nat)> {
    set i: nat, j: nat | i < |gold| && j < |rand| && rand[j] < gold[i] :: (i, j)
  }

  lemma WonPairsNext(gold: seq<real>, g: real, rand: seq<real>)
    ensures WonPairs(gold + [g], rand) == WonPairs(gold, rand) + WonBy(g, |gold|, rand)
    ensures WonPairs(gold, rand) !! WonBy(g, |gold|, rand)
  {
  }

  lemma {:induction false} WinsIs(gold: seq<real>, rand: seq<real>)
    ensures Wins(gold, rand) == |WonPairs(gold, rand)|
  {
    if gold != [] {
      var last := |gold| - 1;
      WinsIs(gold[..last], rand);
      CountBelowIs(gold[last], last, rand);
      WonPairsNext(gold[..last], gold[last], rand);
      assert gold == gold[..last] + [gold[last]];
      hide WonPairs, WonBy;
    } else {
      assert WonPairs(gold, rand) == {};
    }
  }

  lemma {:induction false} CountBelowBound(rand: seq<real>, g: real)
    ensures CountBelow(rand, g) <= |rand|
  {
    if rand != [] { CountBelowBound(rand[..|rand| - 1], g); }
  }

  lemma {:induction false} WinsBound(gold: seq<real>, rand: seq<real>)
    ensures Wins(gold, rand) <= |gold| * |rand|
  {
    if gold != [] {
      WinsBound(gold[..|gold| - 1], rand);
      CountBelowBound(rand, gold[|gold| - 1]);
    }
  }

  /** Golds come first in the concatenation, so a random equal to a gold sorts after it: among the
      first `k` randoms exactly the strictly smaller ones are below gold `i`. */
  lemma {:induction false} TiesCountAgainstGold(gold: seq<real>, rand: seq<real>, i: nat, k: nat)
    requires i < |gold| && k <= |rand|
    ensures var lt := StableLess(gold + rand);
            Below(lt, i, |gold| + k) == Below(lt, i, |gold|) + CountBelow(rand[..k], gold[i])
  {
    if k > 0 {
      TiesCountAgainstGold(gold, rand, i, k - 1);
      assert rand[..k][..k - 1] == rand[..k - 1];
    }
  }

  lemma {:induction false} BelowSumSplits(gold: seq<real>, rand: seq<real>, k: nat)
    requires k <= |gold|
    ensures var lt := StableLess(gold + rand);
            BelowSum(lt, k, |gold| + |rand|) == BelowSum(lt, k, |gold|) + Wins(gold[..k], rand)
  {
    if k > 0 {
      BelowSumSplits(gold, rand, k - 1);
      TiesCountAgainstGold(gold, rand, k - 1, |rand|);
      assert rand[..|rand|] == rand;
      assert gold[..k][..k - 1] == gold[..k - 1];
    }
  }

  /** The position of index `order[k]` in the argsort is the number of indices below it. */
  lemma ArgsortRank(s: seq<real>, order: seq<nat>, k: nat)
    requires StrictlySorted(StableLess(s), order) && k < |order|
    requires forall i: nat :: i in order <==> i < |s|
    ensures Below(StableLess(s), order[k], |s|) == k
  {
    var lt := StableLess(s);
    StableLessStrictTotal(s);
    PositionIsCount(lt, order, k);
    BelowIsSetSize(lt, order[k], |s|);
    var a := LowerSet(lt, order, order[k]);
    var b := IndicesBelow(lt, order[k], |s|);
    assert a == b by {
      forall x: nat ensures x in a <==> x in b {}
    }
  }

  /** `argsort(kind="mergesort")` */
  function Argsort(s: seq<real>): seq<nat> {
    SortBy(StableLess(s), Range(|s|))
  }

  lemma ArgsortFacts(s: seq<real>)
    ensures var order := Argsort(s);
            |order| == |s| && StrictlySorted(StableLess(s), order) && forall i: nat :: i in order <==> i < |s|
  {
    StableLessStrictTotal(s);
    SortBySorts(StableLess(s), Range(|s|));
    var order := Argsort(s);
    assert |multiset(order)| == |s|;
    forall i: nat ensures i in order <==> i < |s| {
      assert i in order <==> i in multiset(order);
      assert i < |s| ==> Range(|s|)[i] == i;
    }
  }

  lemma RankSumIsWins(gold: seq<real>, rand: seq<real>)
    ensures BelowSum(StableLess(gold + rand), |gold|, |gold + rand|) == Pairs(|gold|) + Wins(gold, rand)
  {
    BelowSumSplits(gold, rand, |gold|);
    StableLessStrictTotal(gold + rand);
    hide StrictTotal, StableLess;
    PairsCountedOnce(StableLess(gold + rand), |gold|);
    assert gold[..|gold|] == gold;
  }

  lemma PairsOffset(n: nat, w: nat, rPos: nat)
    requires rPos == Pairs(n) + w + n
    ensures rPos as real - (n * (n + 1)) as real / 2.0 == w as real
  {
    PairsClosedForm(n);
    assert n * (n + 1) == n * (n - 1) + 2 * n;
  }

  lemma RatioInUnit(a: nat, b: nat)
    requires a <= b && b > 0
    ensures 0.0 <= a as real / b as real <= 1.0
  {
  }

  /** `ranks[order] = arange(1, n + 1)` */
  method RankByScatter(s: seq<real>, order: seq<nat>) returns (ranks: array<int>)
    requires |order| == |s| && StrictlySorted(StableLess(s), order)
    requires forall i: nat :: i in order <==> i < |s|
    ensures fresh(ranks) && ranks.Length == |s|
    ensures forall i | 0 <= i < |s| :: ranks[i] == Below(StableLess(s), i, |s|) + 1
  {
    ranks := new int[|s|];
    for k := 0 to |order|
      invariant forall j | 0 <= j < k :: order[j] < |s| && ranks[order[j]] == Below(StableLess(s), order[j], |s|) + 1
    {
      assert order[k] in order;
      ArgsortRank(s, order, k);
      ranks[order[k]] := k + 1;
    }
    forall i | 0 <= i < |s| ensures ranks[i] == Below(StableLess(s), i, |s|) + 1 {
      assert i in order;
    }
  }

  /** `gold_vs_random_auc` as computed: ranks scattered through the argsort, gold ranks summed. It is
      exactly the fraction of pairs in which gold is strictly greater, ties included. */
  method GoldVsRandomAuc(gold: seq<real>, rand: seq<real>) returns (auc: real)
    requires gold != [] && rand != []
    ensures auc == Wins(gold, rand) as real / (|gold| * |rand|) as real
    ensures Wins(gold, rand) == |WonPairs(gold, rand)|
    ensures 0.0 <= auc <= 1.0
  {
    var s := gold + rand;
    var order := Argsort(s);
    ArgsortFacts(s);
    var ranks := RankByScatter(s, order);
    var rPos := 0;
    for i := 0 to |gold|
      invariant rPos == BelowSum(StableLess(s), i, |s|) + i
    {
      rPos := rPos + ranks[i];
    }
    RankSumIsWins(gold, rand);
    var nPos, nNeg := |gold|, |rand|;
    auc := (rPos as real - (nPos * (nPos + 1)) as real / 2.0) / (nPos * nNeg) as real;
    PairsOffset(nPos, Wins(gold, rand), rPos);
    WinsBound(gold, rand);
    WinsIs(gold, rand);
    RatioInUnit(Wins(gold, rand), nPos * nNeg);
  }
}
