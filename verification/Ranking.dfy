/** Deterministic rankings: the rank of an item is a count of the items that beat it. */
module Ranking {
  import opened Counting
  import opened Text
  import opened Ordering

  /** The position of `x` in `s`, Python's `s.index(x)`. */
  method IndexOf<T(==)>(s: seq<T>, x: T) returns (k: nat)
    requires x in s
    ensures k < |s| && s[k] == x && forall i | 0 <= i < k :: s[i] != x
  {
    k := 0;
    while s[k] != x
      invariant k < |s| && forall i | 0 <= i < k :: s[i] != x
      decreases |s| - k
    {
      assert exists i :: k < i < |s| && s[i] == x by {
        var i :| 0 <= i < |s| && s[i] == x;
      }
      k := k + 1;
    }
  }

  // ---- the store's emitted order ----

  /** `sorted(scored, key=lambda g: (-scored[g], g))` over the pool's ids. */
  function EmittedOrder<Id>(score: Id -> real, idLess: Less<Id>, pool: seq<Id>): seq<Id> {
    SortBy(ByScore(score, idLess), pool)
  }

  lemma EmittedOrderFacts<Id(!new)>(score: Id -> real, idLess: Less<Id>, pool: seq<Id>)
    requires StrictTotal(idLess) && Distinct(pool)
    ensures var order := EmittedOrder(score, idLess, pool);
            StrictlySorted(ByScore(score, idLess), order) && multiset(order) == multiset(pool)
    ensures Elements(EmittedOrder(score, idLess, pool)) == Elements(pool)
    ensures var order := EmittedOrder(score, idLess, pool);
            forall i, j | 0 <= i < j < |order| ::
              score(order[i]) > score(order[j]) || (score(order[i]) == score(order[j]) && idLess(order[i], order[j]))
  {
    ByScoreStrictTotal(score, idLess);
    SortBySorts(ByScore(score, idLess), pool);
    var order := EmittedOrder(score, idLess, pool);
    forall x ensures x in order <==> x in pool {
      assert x in order <==> x in multiset(order);
      assert x in pool <==> x in multiset(pool);
    }
  }

  /** The emitted order does not depend on the order in which the score table lists its ids. */
  lemma EmittedOrderIsDeterministic<Id(!new)>(score: Id -> real, idLess: Less<Id>, pool: seq<Id>, pool': seq<Id>)
    requires StrictTotal(idLess) && Distinct(pool) && Distinct(pool') && Elements(pool) == Elements(pool')
    ensures EmittedOrder(score, idLess, pool) == EmittedOrder(score, idLess, pool')
  {
    EmittedOrderFacts(score, idLess, pool);
    EmittedOrderFacts(score, idLess, pool');
    ByScoreStrictTotal(score, idLess);
    SortedIsUnique(ByScore(score, idLess), EmittedOrder(score, idLess, pool), EmittedOrder(score, idLess, pool'));
  }

  /** `best_gold_rank`: the 1-based position of the first gold id. */
  method BestGoldRank<Id(==)>(order: seq<Id>, gold: set<Id>) returns (r: Option<nat>)
    ensures r.None? ==> forall i | 0 <= i < |order| :: order[i] !in gold
    ensures r.Some? ==> 1 <= r.value <= |order| && order[r.value - 1] in gold
    ensures r.Some? ==> forall i | 0 <= i < r.value - 1 :: order[i] !in gold
  {
    for i := 0 to |order|
      invariant forall j | 0 <= j < i :: order[j] !in gold
    {
      if order[i] in gold { return Some(i + 1); }
    }
    return None;
  }

  /** The ids that beat every gold id of the pool. */
  ghost function BeatsAllGold<Id(!new)>(score: Id -> real, idLess: Less<Id>, pool: seq<Id>, gold: set<Id>): set<Id> {
    set x | x in pool && forall g | g in gold && g in pool ::
              score(x) > score(g) || (score(x) == score(g) && idLess(x, g))
  }

  lemma ByScoreIs<Id>(score: Id -> real, idLess: Less<Id>, x: Id, y: Id)
    ensures ByScore(score, idLess)(x, y) <==> score(x) > score(y) || (score(x) == score(y) && idLess(x, y))
  {
  }

  /** The best gold rank is one more than the number of pool ids that beat every gold id, under
      descending score with ties by id. */
  lemma BestGoldRankIsCount<Id(!new)>(score: Id -> real, idLess: Less<Id>, pool: seq<Id>, gold: set<Id>, k: nat)
    requires StrictTotal(idLess) && Distinct(pool)
    requires var order := EmittedOrder(score, idLess, pool);
             k < |order| && order[k] in gold && forall i | 0 <= i < k :: order[i] !in gold
    ensures |BeatsAllGold(score, idLess, pool, gold)| == k
  {
    var lt, order := ByScore(score, idLess), EmittedOrder(score, idLess, pool);
    EmittedOrderFacts(score, idLess, pool);
    ByScoreStrictTotal(score, idLess);
    hide ByScore;
    PositionIsCount(lt, order, k);
    forall x ensures x in pool <==> x in order {
      assert x in Elements(order) <==> x in Elements(pool);
    }
    forall g | g in gold && g in pool ensures g == order[k] || lt(order[k], g) {
      var i :| 0 <= i < |order| && order[i] == g;
      assert i >= k;
    }
    forall x ensures x in BeatsAllGold(score, idLess, pool, gold) <==> x in LowerSet(lt, order, order[k]) {
      ByScoreIs(score, idLess, x, order[k]);
      forall g ensures lt(x, g) <==> score(x) > score(g) || (score(x) == score(g) && idLess(x, g)) {
        ByScoreIs(score, idLess, x, g);
      }
    }
    assert BeatsAllGold(score, idLess, pool, gold) == LowerSet(lt, order, order[k]);
  }

  // ---- ranking one document by score, ties by index ----

  function ScoreAt(sc: seq<real>): nat -> real {
    (i: nat) => if i < |sc| then sc[i] else 0.0
  }

  ghost function Beating(sc: seq<real>, gold: nat): set<nat>
    requires gold < |sc|
  {
    set j: nat | j < |sc| && (sc[j] > sc[gold] || (sc[j] == sc[gold] && j < gold))
  }

  /** `sorted(range(N), key=lambda i: (-sc[i], i)).index(gold)`: the number of documents with a higher
      score, or an equal score and a lower index. */
  method PositionByScore(sc: seq<real>, gold: nat) returns (pos: nat)
    requires gold < |sc|
    ensures pos == |Beating(sc, gold)|
  {
    var lt := ByScore(ScoreAt(sc), IndexLess());
    var order := SortBy(lt, Range(|sc|));
    EmittedOrderFacts(ScoreAt(sc), IndexLess(), Range(|sc|));
    ByScoreStrictTotal(ScoreAt(sc), IndexLess());
    forall i: nat ensures i in order <==> i < |sc| {
      assert i in Elements(order) <==> i in Elements(Range(|sc|));
      assert i < |sc| ==> Range(|sc|)[i] == i;
    }
    pos := IndexOf(order, gold);
    PositionIsCount(lt, order, pos);
    assert Beating(sc, gold) == LowerSet(lt, order, gold) by {
      forall j: nat ensures j in Beating(sc, gold) <==> j in LowerSet(lt, order, gold) {}
    }
  }

  /** The vectorised rank of the whitening bench: one more than the strictly higher similarities. */
  ghost function StrictlyHigher(sc: seq<real>, gold: nat): set<nat>
    requires gold < |sc|
  {
    set j: nat | j < |sc| && sc[j] > sc[gold]
  }

  /** That rank never exceeds the deterministic one, and equals it iff no earlier document ties. */
  lemma VectorisedRankIsOptimistic(sc: seq<real>, gold: nat)
    requires gold < |sc|
    ensures |StrictlyHigher(sc, gold)| <= |Beating(sc, gold)|
    ensures |StrictlyHigher(sc, gold)| == |Beating(sc, gold)| <==> forall j | 0 <= j < gold :: sc[j] != sc[gold]
  {
    var ties := set j: nat | j < gold && sc[j] == sc[gold];
    assert Beating(sc, gold) == StrictlyHigher(sc, gold) + ties;
    assert forall j: nat | j < gold && sc[j] == sc[gold] :: j in ties;
  }
}
