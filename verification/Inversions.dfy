/** Pair-counting diagnostics of an emitted order: inversions, forward asymmetry, dominance. */
module Inversions {
  import opened Counting
  import opened Text

  // ---- counting pairs that are in the wrong order ----

  function CountAfter<T>(bad: (T, T) -> bool, x: T, rest: seq<T>): nat {
    if rest == [] then 0 else (if bad(x, rest[0]) then 1 else 0) + CountAfter(bad, x, rest[1..])
  }

  /** The number of pairs, first element emitted earlier, that are `bad`. */
  function CountPairs<T>(bad: (T, T) -> bool, xs: seq<T>): nat {
    if xs == [] then 0 else CountAfter(bad, xs[0], xs[1..]) + CountPairs(bad, xs[1..])
  }

  function CountBefore<T>(bad: (T, T) -> bool, xs: seq<T>, y: T): nat {
    if xs == [] then 0 else (if bad(xs[0], y) then 1 else 0) + CountBefore(bad, xs[1..], y)
  }

  lemma {:induction false} CountAfterAppend<T>(bad: (T, T) -> bool, x: T, rest: seq<T>, y: T)
    ensures CountAfter(bad, x, rest + [y]) == CountAfter(bad, x, rest) + if bad(x, y) then 1 else 0
  {
    if rest == [] {
      assert rest + [y] == [y];
    } else {
      assert (rest + [y])[1..] == rest[1..] + [y];
      CountAfterAppend(bad, x, rest[1..], y);
    }
  }

  lemma {:induction false} CountPairsAppend<T>(bad: (T, T) -> bool, xs: seq<T>, y: T)
    ensures CountPairs(bad, xs + [y]) == CountPairs(bad, xs) + CountBefore(bad, xs, y)
  {
    if xs == [] {
      assert xs + [y] == [y];
    } else {
      assert (xs + [y])[1..] == xs[1..] + [y];
      CountPairsAppend(bad, xs[1..], y);
      CountAfterAppend(bad, xs[0], xs[1..], y);
    }
  }

  lemma {:induction false} NoBadAfterIff<T>(bad: (T, T) -> bool, x: T, rest: seq<T>)
    ensures CountAfter(bad, x, rest) == 0 <==> forall j | 0 <= j < |rest| :: !bad(x, rest[j])
  {
    if rest != [] {
      NoBadAfterIff(bad, x, rest[1..]);
      if forall j | 0 <= j < |rest[1..]| :: !bad(x, rest[1..][j]) {
        forall j | 0 < j < |rest| ensures !bad(x, rest[j]) { assert !bad(x, rest[1..][j - 1]); }
      }
    }
  }

  lemma {:induction false} NoBadPairsIff<T>(bad: (T, T) -> bool, xs: seq<T>)
    ensures CountPairs(bad, xs) == 0 <==> forall i, j | 0 <= i < j < |xs| :: !bad(xs[i], xs[j])
  {
    if xs != [] {
      NoBadPairsIff(bad, xs[1..]);
      NoBadAfterIff(bad, xs[0], xs[1..]);
      if forall i, j | 0 <= i < j < |xs[1..]| :: !bad(xs[1..][i], xs[1..][j]) {
        forall i, j | 0 < i < j < |xs| ensures !bad(xs[i], xs[j]) { assert !bad(xs[1..][i - 1], xs[1..][j - 1]); }
      }
    }
  }

  // ---- adjacent swaps ----

  function SwapAt<T>(xs: seq<T>, k: nat): seq<T>
    requires k + 1 < |xs|
  {
    xs[k := xs[k + 1]][k + 1 := xs[k]]
  }

  lemma {:induction false} CountAfterSwap<T>(bad: (T, T) -> bool, x: T, rest: seq<T>, k: nat)
    requires k + 1 < |rest|
    ensures CountAfter(bad, x, SwapAt(rest, k)) == CountAfter(bad, x, rest)
  {
    var s := SwapAt(rest, k);
    if k == 0 {
      assert rest[1..][1..] == s[1..][1..];
    } else {
      assert s[1..] == SwapAt(rest[1..], k - 1);
      CountAfterSwap(bad, x, rest[1..], k - 1);
    }
  }

  /** An adjacent swap changes the count only by the pair it swaps. */
  lemma {:induction false} SwapChangesOnePair<T>(bad: (T, T) -> bool, xs: seq<T>, k: nat)
    requires k + 1 < |xs|
    ensures CountPairs(bad, SwapAt(xs, k)) + (if bad(xs[k], xs[k + 1]) then 1 else 0)
            == CountPairs(bad, xs) + if bad(xs[k + 1], xs[k]) then 1 else 0
  {
    var s := SwapAt(xs, k);
    if k == 0 {
      assert xs[1..][1..] == s[1..][1..];
    } else {
      assert s[1..] == SwapAt(xs[1..], k - 1);
      SwapChangesOnePair(bad, xs[1..], k - 1);
      CountAfterSwap(bad, xs[0], xs[1..], k - 1);
    }
  }

  /** A later document with a strictly higher fused score. */
  function Inverted(): (real, real) -> bool {
    (earlier: real, later: real) => later > earlier
  }

  /** What `_exact_inversions` counts. */
  function Inv(f: seq<real>): nat {
    CountPairs(Inverted(), f)
  }

  ghost predicate NonIncreasing(f: seq<real>) {
    forall i, j | 0 <= i < j < |f| :: f[i] >= f[j]
  }

  lemma ZeroIffSorted(f: seq<real>)
    ensures Inv(f) == 0 <==> NonIncreasing(f)
  {
    NoBadPairsIff(Inverted(), f);
    if NonIncreasing(f) {
      assert forall i, j | 0 <= i < j < |f| :: !Inverted()(f[i], f[j]);
    } else {
      var i, j :| 0 <= i < j < |f| && f[i] < f[j];
      assert Inverted()(f[i], f[j]);
    }
  }

  ghost predicate ValidSwaps(n: nat, ks: seq<nat>) {
    forall i | 0 <= i < |ks| :: ks[i] + 1 < n
  }

  /** The result of adjacent swaps at the positions `ks`, in order. */
  ghost function Swapped(f: seq<real>, ks: seq<nat>): (r: seq<real>)
    requires ValidSwaps(|f|, ks)
    ensures |r| == |f|
  {
    if ks == [] then f else SwapAt(Swapped(f, ks[..|ks| - 1]), ks[|ks| - 1])
  }

  /** Every swap exchanges an inverted pair, as bubble sort does. */
  ghost predicate OnlyInvertedPairs(f: seq<real>, ks: seq<nat>)
    requires ValidSwaps(|f|, ks)
  {
    ks != [] ==>
      var prefix, k := ks[..|ks| - 1], ks[|ks| - 1];
      var g := Swapped(f, prefix);
      OnlyInvertedPairs(f, prefix) && g[k + 1] > g[k]
  }

  /** However the swaps are chosen, reaching non-increasing order takes at least `Inv(f)` of them. */
  lemma {:induction false} SwapsAtLeast(f: seq<real>, ks: seq<nat>)
    requires ValidSwaps(|f|, ks)
    ensures Inv(Swapped(f, ks)) + |ks| >= Inv(f)
  {
    if ks != [] {
      SwapsAtLeast(f, ks[..|ks| - 1]);
      SwapChangesOnePair(Inverted(), Swapped(f, ks[..|ks| - 1]), ks[|ks| - 1]);
    }
  }

  lemma {:induction false} BubbleSwapsLeave(f: seq<real>, ks: seq<nat>)
    requires ValidSwaps(|f|, ks) && OnlyInvertedPairs(f, ks)
    ensures Inv(Swapped(f, ks)) + |ks| == Inv(f)
  {
    if ks != [] {
      hide SwapAt;
      var prefix := ks[..|ks| - 1];
      BubbleSwapsLeave(f, prefix);
      SwapChangesOnePair(Inverted(), Swapped(f, prefix), ks[|ks| - 1]);
    }
  }

  /** Any adjacent-swap sort that exchanges only inverted pairs makes exactly `Inv(f)` swaps. */
  lemma BubbleSortMakesInvSwaps(f: seq<real>, ks: seq<nat>)
    requires ValidSwaps(|f|, ks) && OnlyInvertedPairs(f, ks) && NonIncreasing(Swapped(f, ks))
    ensures |ks| == Inv(f)
  {
    BubbleSwapsLeave(f, ks);
    ZeroIffSorted(Swapped(f, ks));
  }

  lemma OneMoreSwap(f: seq<real>, ks: seq<nat>, k: nat)
    requires ValidSwaps(|f|, ks) && OnlyInvertedPairs(f, ks)
    requires k + 1 < |f| && Swapped(f, ks)[k] < Swapped(f, ks)[k + 1]
    ensures ValidSwaps(|f|, ks + [k]) && OnlyInvertedPairs(f, ks + [k])
    ensures Inv(Swapped(f, ks + [k])) < Inv(Swapped(f, ks))
  {
    hide SwapAt;
    SwapChangesOnePair(Inverted(), Swapped(f, ks), k);
    assert (ks + [k])[..|ks + [k]| - 1] == ks;
  }

  lemma {:induction false} AdjacentSorted(g: seq<real>)
    requires forall k | 0 <= k < |g| - 1 :: g[k] >= g[k + 1]
    ensures NonIncreasing(g)
  {
    if g != [] {
      AdjacentSorted(g[1..]);
      forall j | 0 < j < |g| ensures g[0] >= g[j] {
        if j > 1 { assert g[1..][0] >= g[1..][j - 1]; }
      }
      forall i, j | 0 < i < j < |g| ensures g[i] >= g[j] { assert g[1..][i - 1] >= g[1..][j - 1]; }
    }
  }

  /** Such a sort exists from any start: swaps at `ks` can always be continued to the end. */
  lemma {:induction false} FinishSorting(f: seq<real>, ks: seq<nat>) returns (done: seq<nat>)
    requires ValidSwaps(|f|, ks) && OnlyInvertedPairs(f, ks)
    ensures ValidSwaps(|f|, done) && OnlyInvertedPairs(f, done) && NonIncreasing(Swapped(f, done))
    decreases Inv(Swapped(f, ks))
  {
    var g := Swapped(f, ks);
    if forall k | 0 <= k < |g| - 1 :: g[k] >= g[k + 1] {
      AdjacentSorted(g);
      done := ks;
    } else {
      var k: nat :| k + 1 < |g| && g[k] < g[k + 1];
      OneMoreSwap(f, ks, k);
      done := FinishSorting(f, ks + [k]);
    }
  }

  // ---- the source's loops ----

  type Id = string

  function FusedOf(fused: map<Id, real>, id: Id): real {
    if id in fused then fused[id] else 0.0
  }

  function Scores(fused: map<Id, real>, ids: seq<Id>): (r: seq<real>)
    ensures |r| == |ids| && forall i | 0 <= i < |ids| :: r[i] == FusedOf(fused, ids[i])
  {
    seq(|ids|, i requires 0 <= i < |ids| => FusedOf(fused, ids[i]))
  }

  /** A missing score counts as 0. */
  lemma MissingScoreIsZero(fused: map<Id, real>, ids: seq<Id>, id: Id)
    requires id !in fused
    ensures Scores(fused, ids) == Scores(fused[id := 0.0], ids)
  {
  }

  /** The pairs in which the later document has the strictly higher score. */
  ghost function LowerFirst(f: seq<real>): set<(nat, nat)> {
    set i: nat, j: nat | i < j < |f| && f[i] < f[j] :: (i, j)
  }

  /** The pairs of places, the first in front of the second, that `bad` relates. */
  ghost function BadPairs<T>(bad: (T, T) -> bool, xs: seq<T>): set<(nat, nat)> {
    set i: nat, j: nat | i < j < |xs| && bad(xs[i], xs[j]) :: (i, j)
  }

  /** The places from which `bad` leads to `y`, each paired with `n`. */
  ghost function BadPlaces<T>(bad: (T, T) -> bool, xs: seq<T>, y: T, n: nat): set<(nat, nat)> {
    set i: nat | i < |xs| && bad(xs[i], y) :: (i, n)
  }

  lemma {:induction false} CountBeforeAppend<T>(bad: (T, T) -> bool, xs: seq<T>, x: T, y: T)
    ensures CountBefore(bad, xs + [x], y) == CountBefore(bad, xs, y) + if bad(x, y) then 1 else 0
  {
    if xs == [] {
      assert xs + [x] == [x];
    } else {
      assert (xs + [x])[1..] == xs[1..] + [x];
      CountBeforeAppend(bad, xs[1..], x, y);
    }
  }

  lemma {:induction false} CountBeforeIs<T>(bad: (T, T) -> bool, xs: seq<T>, y: T, n: nat)
    ensures CountBefore(bad, xs, y) == |BadPlaces(bad, xs, y, n)|
  {
    if xs != [] {
      var last := |xs| - 1;
      var front, x := xs[..last], xs[last];
      CountBeforeIs(bad, front, y, n);
      CountBeforeAppend(bad, front, x, y);
      assert xs == front + [x];
      var S := BadPlaces(bad, front, y, n);
      assert BadPlaces(bad, xs, y, n) == if bad(x, y) then S + {(last, n)} else S;
    }
  }

  lemma BadPairsNext<T>(bad: (T, T) -> bool, xs: seq<T>, x: T)
    ensures BadPairs(bad, xs + [x]) == BadPairs(bad, xs) + BadPlaces(bad, xs, x, |xs|)
    ensures BadPairs(bad, xs) !! BadPlaces(bad, xs, x, |xs|)
  {
    var ys := xs + [x];
    forall i: nat, j: nat
      ensures (i, j) in BadPairs(bad, ys) <==> (i, j) in BadPairs(bad, xs) || (i, j) in BadPlaces(bad, xs, x, |xs|)
    {
      if i < j < |xs| { assert ys[i] == xs[i] && ys[j] == xs[j]; }
    }
  }

  lemma {:induction false} CountPairsIs<T>(bad: (T, T) -> bool, xs: seq<T>)
    ensures CountPairs(bad, xs) == |BadPairs(bad, xs)|
  {
    if xs == [] {
      assert BadPairs(bad, xs) == {};
    } else {
      var last := |xs| - 1;
      var front, x := xs[..last], xs[last];
      CountPairsIs(bad, front);
      CountPairsAppend(bad, front, x);
      CountBeforeIs(bad, front, x, last);
      BadPairsNext(bad, front, x);
      assert xs == front + [x];
      hide BadPairs, BadPlaces;
    }
  }

  lemma InvIs(f: seq<real>)
    ensures Inv(f) == |LowerFirst(f)|
  {
    CountPairsIs(Inverted(), f);
    assert BadPairs(Inverted(), f) == LowerFirst(f);
  }

  method ExactInversions(topk: seq<Id>, fused: map<Id, real>) returns (inv: nat)
    ensures inv == Inv(Scores(fused, topk)) == |LowerFirst(Scores(fused, topk))|
  {
    InvIs(Scores(fused, topk));
    ghost var f := Scores(fused, topk);
    inv := 0;
    for i := 0 to |topk|
      invariant inv + Inv(f[i..]) == Inv(f)
    {
      var fa := FusedOf(fused, topk[i]);
      assert f[i..][1..] == f[i + 1..];
      for j := i + 1 to |topk|
        invariant inv + CountAfter(Inverted(), fa, f[j..]) + Inv(f[i + 1..]) == Inv(f)
      {
        var fb := FusedOf(fused, topk[j]);
        assert f[j..][1..] == f[j + 1..];
        if fa == fb { continue; }
        if fb > fa { inv := inv + 1; }
      }
    }
  }

  /** The position of the first gold id. */
  function FirstGold(emitted: seq<Id>, gold: set<Id>): (p: nat)
    ensures p <= |emitted| && (p < |emitted| ==> emitted[p] in gold)
    ensures forall i | 0 <= i < p :: emitted[i] !in gold
  {
    if emitted == [] || emitted[0] in gold then 0 else 1 + FirstGold(emitted[1..], gold)
  }

  lemma {:induction false} CountBeforeSet(f: seq<real>, n: nat, y: real)
    requires n <= |f|
    ensures CountBefore(Inverted(), f[..n], y) == |set i: nat | i < n && f[i] < y|
  {
    if n > 0 {
      CountBeforeSet(f, n - 1, y);
      assert f[..n] == f[..n - 1] + [f[n - 1]];
      CountBeforeAppend(Inverted(), f[..n - 1], f[n - 1], y);
      var S := set i: nat | i < n - 1 && f[i] < y;
      assert (set i: nat | i < n && f[i] < y) == if f[n - 1] < y then S + {n - 1} else S;
    }
  }

  lemma GoldInversionsIs(f: seq<real>, p: nat, k: nat)
    requires k <= |f|
    ensures p < |f| ==> CountBefore(Inverted(), f[..if p < k then p else k], f[p])
                        == |set i: nat | i < p && i < k && f[i] < f[p]|
  {
    if p < |f| {
      var n := if p < k then p else k;
      CountBeforeSet(f, n, f[p]);
      assert (set i: nat | i < p && i < k && f[i] < f[p]) == (set i: nat | i < n && f[i] < f[p]);
    }
  }

  /** `_gold_inversions` on the top `k` of an emitted order. */
  method GoldInversions(emitted: seq<Id>, k: nat, fused: map<Id, real>, gold: set<Id>)
    returns (rank: Option<nat>, goldInv: nat)
    requires k <= |emitted|
    requires forall i, j | 0 <= i < j < |emitted| :: emitted[i] != emitted[j]
    ensures var p := FirstGold(emitted, gold); var f := Scores(fused, emitted);
            if p == |emitted| then rank == None && goldInv == 0
            else rank == Some(p + 1) && goldInv == CountBefore(Inverted(), f[..if p < k then p else k], f[p])
    ensures var p := FirstGold(emitted, gold); var f := Scores(fused, emitted);
            p < |emitted| ==> goldInv == |set i: nat | i < p && i < k && f[i] < f[p]|
  {
    GoldInversionsIs(Scores(fused, emitted), FirstGold(emitted, gold), k);
    var p := FirstGold(emitted, gold);
    if p == |emitted| { return None, 0; }
    var best := emitted[p];
    ghost var f := Scores(fused, emitted);
    goldInv := 0;
    for i := 0 to k
      invariant i <= p
      invariant goldInv == CountBefore(Inverted(), f[..i], f[p])
    {
      if emitted[i] == best { return Some(p + 1), goldInv; }
      CountBeforeAppend(Inverted(), f[..i], f[i], f[p]);
      assert f[..i + 1] == f[..i] + [f[i]];
      if emitted[i] !in gold && FusedOf(fused, emitted[i]) < FusedOf(fused, best) { goldInv := goldInv + 1; }
    }
    return Some(p + 1), goldInv;
  }

  lemma {:induction false} PrefixHasFewer(f: seq<real>, k: nat)
    requires k <= |f|
    ensures Inv(f[..k]) <= Inv(f)
    decreases |f| - k
  {
    if k < |f| {
      assert f[..k + 1] == f[..k] + [f[k]];
      CountPairsAppend(Inverted(), f[..k], f[k]);
      PrefixHasFewer(f, k + 1);
    } else {
      assert f[..k] == f;
    }
  }

  lemma {:induction false} PrefixCountsFewer(f: seq<real>, k: nat, p: nat, y: real)
    requires k <= p <= |f|
    ensures CountBefore(Inverted(), f[..k], y) <= CountBefore(Inverted(), f[..p], y)
    decreases p - k
  {
    if k < p {
      assert f[..k + 1] == f[..k] + [f[k]];
      CountBeforeAppend(Inverted(), f[..k], f[k], y);
      PrefixCountsFewer(f, k + 1, p, y);
    }
  }

  /** The gold inversions never exceed the inversions of the whole emitted order, nor those of the top
      `k` when the best gold is inside it. */
  lemma GoldInversionsBounded(f: seq<real>, p: nat, k: nat)
    requires p < |f| && k <= |f|
    ensures CountBefore(Inverted(), f[..if p < k then p else k], f[p]) <= Inv(f)
    ensures p < k ==> CountBefore(Inverted(), f[..p], f[p]) <= Inv(f[..k])
  {
    assert f[..p + 1] == f[..p] + [f[p]];
    CountPairsAppend(Inverted(), f[..p], f[p]);
    PrefixHasFewer(f, p + 1);
    PrefixCountsFewer(f, if p < k then p else k, p, f[p]);
    if p < k {
      PrefixHasFewer(f[..k], p + 1);
      assert f[..k][..p + 1] == f[..p + 1];
    }
  }

  /** Documents of score 0 before one of score 1: in order among themselves, yet all of them count. */
  lemma {:induction false} ZerosBeforeOne(zeros: seq<real>)
    requires forall i | 0 <= i < |zeros| :: zeros[i] == 0.0
    ensures CountBefore(Inverted(), zeros, 1.0) == |zeros| && Inv(zeros) == 0
  {
    ZeroIffSorted(zeros);
    if zeros != [] { ZerosBeforeOne(zeros[1..]); }
  }

  /** Exactly where the best gold must stand for the inversions of the top `k` to bound the gold inversions,
      whatever the scores: inside the top `k`, or anywhere when `k` is 0. */
  lemma GoldInversionsWithinTopKIff(p: nat, k: nat)
    ensures (forall f: seq<real> | p < |f| && k <= |f| ::
               CountBefore(Inverted(), f[..if p < k then p else k], f[p]) <= Inv(f[..k]))
            <==> p < k || k == 0
  {
    if p < k || k == 0 {
      forall f: seq<real> | p < |f| && k <= |f|
        ensures CountBefore(Inverted(), f[..if p < k then p else k], f[p]) <= Inv(f[..k])
      {
        if p < k { GoldInversionsBounded(f, p, k); }
      }
    } else {
      var f := seq(p, _ => 0.0) + [1.0];
      ZerosBeforeOne(f[..k]);
      assert f[p] == 1.0 && CountBefore(Inverted(), f[..if p < k then p else k], f[p]) > Inv(f[..k]);
    }
  }

  // ---- the forward-asymmetry index ----

  /** A missing rank loses to every present one and ties with the other missing ones. */
  function RankKey(r: Option<int>, low: real): real {
    if r.Some? then -(r.value as real) else low
  }

  function Keys(ranks: seq<Option<int>>, low: real): (r: seq<real>)
    ensures |r| == |ranks| && forall i | 0 <= i < |ranks| :: r[i] == RankKey(ranks[i], low)
  {
    seq(|ranks|, i requires 0 <= i < |ranks| => RankKey(ranks[i], low))
  }

  function Missing(ranks: seq<Option<int>>): nat {
    if ranks == [] then 0 else (if ranks[0].None? then 1 else 0) + Missing(ranks[1..])
  }

  /** One pass of the inner loop: gene `i` against the later ones. */
  method FaiRow(ranks: seq<Option<int>>, i: nat, ghost low: real) returns (count: nat, total: nat)
    requires i < |ranks|
    requires forall k | 0 <= k < |ranks| :: ranks[k].Some? ==> low < -(ranks[k].value as real)
    ensures count == CountAfter(Inverted(), Keys(ranks, low)[i], Keys(ranks, low)[i + 1..]) && count <= total
    ensures total == |ranks| - i - 1 - if ranks[i].None? then Missing(ranks[i + 1..]) else 0
  {
    ghost var f := Keys(ranks, low);
    count, total := 0, 0;
    for j := i + 1 to |ranks|
      invariant count + CountAfter(Inverted(), f[i], f[j..]) == CountAfter(Inverted(), f[i], f[i + 1..])
      invariant count <= total
      invariant ranks[i].Some? ==> total == j - i - 1
      invariant ranks[i].None? ==> total + Missing(ranks[i + 1..]) == j - i - 1 + Missing(ranks[j..])
    {
      assert f[j..][1..] == f[j + 1..] && ranks[j..][1..] == ranks[j + 1..];
      if ranks[i].Some? || ranks[j].Some? {
        total := total + 1;
        if ranks[j].Some? && (ranks[i].None? || ranks[j].value < ranks[i].value) { count := count + 1; }
      }
    }
  }

  lemma ShareOf(a: nat, b: nat)
    requires a <= b
    ensures b > 0 ==> 0.0 <= a as real / b as real <= 1.0
  {
  }

  /** The pairs in which the later gene has the better rank, a missing rank being worse than any. */
  ghost function BetterLater(ranks: seq<Option<int>>): set<(nat, nat)> {
    set i: nat, j: nat | i < j < |ranks| && ranks[j].Some? && (ranks[i].Some? ==> ranks[j].value < ranks[i].value) ::
      (i, j)
  }

  /** The pairs in which one gene at least has a rank. */
  ghost function Comparable(ranks: seq<Option<int>>): set<(nat, nat)> {
    set i: nat, j: nat | i < j < |ranks| && (ranks[i].Some? || ranks[j].Some?) :: (i, j)
  }

  lemma BetterLaterIs(ranks: seq<Option<int>>, low: real)
    requires forall k | 0 <= k < |ranks| :: ranks[k].Some? ==> low < -(ranks[k].value as real)
    ensures Inv(Keys(ranks, low)) == |BetterLater(ranks)|
  {
    InvIs(Keys(ranks, low));
    assert LowerFirst(Keys(ranks, low)) == BetterLater(ranks);
  }

  function EitherRanked(): (Option<int>, Option<int>) -> bool {
    (earlier: Option<int>, later: Option<int>) => earlier.Some? || later.Some?
  }

  lemma {:induction false} RankedAfter(r: Option<int>, rest: seq<Option<int>>)
    ensures CountAfter(EitherRanked(), r, rest) + (if r.None? then Missing(rest) else 0) == |rest|
  {
    if rest != [] { RankedAfter(r, rest[1..]); }
  }

  lemma {:induction false} ComparableIs(ranks: seq<Option<int>>)
    ensures CountPairs(EitherRanked(), ranks) + Pairs(Missing(ranks)) == Pairs(|ranks|)
    ensures CountPairs(EitherRanked(), ranks) == |Comparable(ranks)|
  {
    CountPairsIs(EitherRanked(), ranks);
    assert BadPairs(EitherRanked(), ranks) == Comparable(ranks);
    if ranks != [] {
      ComparableIs(ranks[1..]);
      RankedAfter(ranks[0], ranks[1..]);
    }
  }

  lemma FaiCounts(ranks: seq<Option<int>>, low: real, count: nat, total: nat)
    requires forall k | 0 <= k < |ranks| :: ranks[k].Some? ==> low < -(ranks[k].value as real)
    requires count == Inv(Keys(ranks, low)) && total + Pairs(Missing(ranks)) == Pairs(|ranks|)
    ensures count == |BetterLater(ranks)| && total == |Comparable(ranks)|
  {
    BetterLaterIs(ranks, low);
    ComparableIs(ranks);
    hide *;
  }

  /** `_fai`: its pair count is the inversion count of the negated ranks, taken over all pairs but those
      of two missing genes. `low` is any stand-in for minus infinity. */
  method Fai(ranks: seq<Option<int>>, ghost low: real) returns (index: real, count: nat, total: nat)
    requires forall k | 0 <= k < |ranks| :: ranks[k].Some? ==> low < -(ranks[k].value as real)
    ensures count == Inv(Keys(ranks, low)) == |BetterLater(ranks)| && total == |Comparable(ranks)|
    ensures total + Pairs(Missing(ranks)) == Pairs(|ranks|)
    ensures index == if total > 0 then count as real / total as real else 0.0
    ensures 0.0 <= index <= 1.0
  {
    hide Keys, CountAfter, Inverted, BetterLater, Comparable;
    ghost var f := Keys(ranks, low);
    count, total := 0, 0;
    for i := 0 to |ranks|
      invariant count + Inv(f[i..]) == Inv(f) && count <= total
      invariant total + Pairs(|ranks| - i) + Pairs(Missing(ranks)) == Pairs(|ranks|) + Pairs(Missing(ranks[i..]))
    {
      assert f[i..][1..] == f[i + 1..] && ranks[i..][1..] == ranks[i + 1..];
      var c, t := FaiRow(ranks, i, low);
      count, total := count + c, total + t;
    }
    assert f[0..] == f;
    if total > 0 {
      index := count as real / total as real;
    } else {
      index := 0.0;
    }
    ShareOf(count, total);
    FaiCounts(ranks, low, count, total);
  }

  // ---- strict dominance over fused tiers ----

  type Tiers = map<string, real>

  function At(v: Tiers, t: string): real {
    if t in v then v[t] else 0.0
  }

  predicate Dominates(va: Tiers, vb: Tiers) {
    && (forall t | t in va.Keys + vb.Keys :: At(va, t) >= At(vb, t))
    && (exists t | t in va.Keys + vb.Keys :: At(va, t) > At(vb, t))
  }

  lemma DominatesPointwise(va: Tiers, vb: Tiers)
    ensures Dominates(va, vb) <==> (forall t :: At(va, t) >= At(vb, t)) && exists t :: At(va, t) > At(vb, t)
  {
    if Dominates(va, vb) {
      forall t ensures At(va, t) >= At(vb, t) {
        assert t !in va.Keys + vb.Keys ==> At(va, t) == At(vb, t);
      }
    }
    if (forall t :: At(va, t) >= At(vb, t)) && exists t :: At(va, t) > At(vb, t) {
      var t :| At(va, t) > At(vb, t);
      assert t in va.Keys + vb.Keys;
    }
  }

  /** Dominance is a strict partial order on all tier maps, although each test looks only at the tiers
      its two maps mention. */
  lemma DominanceIsStrictPartialOrder(va: Tiers, vb: Tiers, vc: Tiers)
    ensures !Dominates(va, va)
    ensures Dominates(va, vb) ==> !Dominates(vb, va)
    ensures Dominates(va, vb) && Dominates(vb, vc) ==> Dominates(va, vc)
  {
    DominatesPointwise(va, vb);
    DominatesPointwise(vb, vc);
    DominatesPointwise(va, vc);
    if Dominates(va, vb) && Dominates(vb, vc) {
      var t :| At(va, t) > At(vb, t);
      assert At(va, t) > At(vc, t);
    }
  }

  ghost function SumOver(ts: set<string>, v: Tiers): real {
    if ts == {} then 0.0
    else
      var t :| t in ts;
      At(v, t) + SumOver(ts - {t}, v)
  }

  lemma {:induction false} SumPicks(ts: set<string>, v: Tiers, t: string)
    requires t in ts
    ensures SumOver(ts, v) == At(v, t) + SumOver(ts - {t}, v)
    decreases ts
  {
    var u :| u in ts && SumOver(ts, v) == At(v, u) + SumOver(ts - {u}, v);
    if u != t {
      SumPicks(ts - {u}, v, t);
      SumPicks(ts - {t}, v, u);
      assert ts - {u} - {t} == ts - {t} - {u};
    }
  }

  lemma {:induction false} SumMonotone(ts: set<string>, va: Tiers, vb: Tiers)
    requires forall t | t in ts :: At(va, t) >= At(vb, t)
    ensures SumOver(ts, va) >= SumOver(ts, vb)
    ensures (exists t | t in ts :: At(va, t) > At(vb, t)) ==> SumOver(ts, va) > SumOver(ts, vb)
    decreases ts
  {
    if exists t | t in ts :: At(va, t) > At(vb, t) {
      var t :| t in ts && At(va, t) > At(vb, t);
      SumPicks(ts, va, t);
      SumPicks(ts, vb, t);
      SumMonotone(ts - {t}, va, vb);
    } else if ts != {} {
      var t :| t in ts;
      SumPicks(ts, va, t);
      SumPicks(ts, vb, t);
      SumMonotone(ts - {t}, va, vb);
    }
  }

  lemma AddMember(ts: set<string>, more: set<string>, t: string)
    requires t in more && t !in ts
    ensures (ts + {t}) - {t} == ts
    ensures (ts + {t}) + more == ts + more
  {
  }

  lemma NothingToAdd(ts: set<string>, more: set<string>)
    requires more - ts == {}
    ensures ts + more == ts
  {
    forall x ensures x in ts + more <==> x in ts {
      assert x !in more - ts;
    }
  }

  lemma {:induction false} ZerosAddNothing(ts: set<string>, more: set<string>, v: Tiers)
    requires forall t | t in more :: At(v, t) == 0.0
    ensures SumOver(ts + more, v) == SumOver(ts, v)
    decreases more - ts
  {
    if more - ts != {} {
      var t :| t in more - ts;
      ZerosAddNothing(ts + {t}, more, v);
      SumPicks(ts + {t}, v, t);
      AddMember(ts, more, t);
    } else {
      NothingToAdd(ts, more);
    }
  }

  /** The total contribution of the tiers a map mentions. */
  ghost function TierSum(v: Tiers): real {
    SumOver(v.Keys, v)
  }

  lemma DominatingSumsHigher(va: Tiers, vb: Tiers)
    requires Dominates(va, vb)
    ensures TierSum(va) > TierSum(vb)
  {
    ZerosAddNothing(va.Keys, vb.Keys - va.Keys, va);
    ZerosAddNothing(vb.Keys, va.Keys - vb.Keys, vb);
    var all := va.Keys + vb.Keys;
    assert va.Keys + (vb.Keys - va.Keys) == all && vb.Keys + (va.Keys - vb.Keys) == all;
    SumMonotone(all, va, vb);
  }

  const RERANK_CLASSES: set<string> := {"authority", "sema_boost", "party_attr", "access_rate"}

  /** `_fused_tier_vec` */
  function FusedTiers(contribs: Tiers): Tiers {
    map t | t in contribs && t !in RERANK_CLASSES :: contribs[t]
  }

  /** Exactly the contributions of the four rerank classes make no difference. */
  lemma RerankClassesIgnored(a: Tiers, b: Tiers)
    ensures FusedTiers(a) == FusedTiers(b) <==>
            forall t | t !in ["authority", "sema_boost", "party_attr", "access_rate"] ::
              (t in a <==> t in b) && (t in a ==> a[t] == b[t])
  {
    assert forall t :: t in RERANK_CLASSES <==> t in ["authority", "sema_boost", "party_attr", "access_rate"];
    assert forall t :: t in FusedTiers(a) <==> t in a && t !in RERANK_CLASSES;
    assert forall t :: t in FusedTiers(b) <==> t in b && t !in RERANK_CLASSES;
    if FusedTiers(a) == FusedTiers(b) {
      forall t | t !in RERANK_CLASSES ensures (t in a <==> t in b) && (t in a ==> a[t] == b[t]) {
        assert t in FusedTiers(a) <==> t in FusedTiers(b);
        assert t in FusedTiers(a) ==> FusedTiers(a)[t] == FusedTiers(b)[t];
      }
    }
  }

  function Vectors(tiers: map<Id, Tiers>, ids: seq<Id>): (r: seq<Tiers>)
    ensures |r| == |ids|
    ensures forall i | 0 <= i < |ids| :: r[i] == FusedTiers(if ids[i] in tiers then tiers[ids[i]] else map[])
  {
    seq(|ids|, i requires 0 <= i < |ids| => FusedTiers(if ids[i] in tiers then tiers[ids[i]] else map[]))
  }

  /** The later document strictly dominates the earlier one. */
  function Dominated(): (Tiers, Tiers) -> bool {
    (earlier: Tiers, later: Tiers) => Dominates(later, earlier)
  }

  /** The pairs in which the later document dominates the earlier one. */
  ghost function DominatedFirst(vs: seq<Tiers>): set<(nat, nat)> {
    set i: nat, j: nat | i < j < |vs| && Dominates(vs[j], vs[i]) :: (i, j)
  }

  lemma DominatedFirstIs(vs: seq<Tiers>)
    ensures CountPairs(Dominated(), vs) == |DominatedFirst(vs)|
  {
    CountPairsIs(Dominated(), vs);
    assert BadPairs(Dominated(), vs) == DominatedFirst(vs);
  }

  method StrictDomInversions(topk: seq<Id>, tiers: map<Id, Tiers>) returns (inv: nat)
    ensures inv == CountPairs(Dominated(), Vectors(tiers, topk)) == |DominatedFirst(Vectors(tiers, topk))|
  {
    hide Dominates, FusedTiers, DominatedFirst;
    ghost var v := Vectors(tiers, topk);
    inv := 0;
    for i := 0 to |topk|
      invariant inv + CountPairs(Dominated(), v[i..]) == CountPairs(Dominated(), v)
    {
      var va := FusedTiers(if topk[i] in tiers then tiers[topk[i]] else map[]);
      assert v[i..][1..] == v[i + 1..];
      for j := i + 1 to |topk|
        invariant inv + CountAfter(Dominated(), va, v[j..]) + CountPairs(Dominated(), v[i + 1..])
                  == CountPairs(Dominated(), v)
      {
        assert v[j..][1..] == v[j + 1..];
        var vb := FusedTiers(if topk[j] in tiers then tiers[topk[j]] else map[]);
        if Dominates(vb, va) { inv := inv + 1; }
      }
    }
    DominatedFirstIs(v);
  }

  /** A list in descending order of its documents' tier sums has no strict-dominance inversion. */
  lemma SortedBySumHasNone(vs: seq<Tiers>)
    requires forall i, j | 0 <= i < j < |vs| :: TierSum(vs[i]) >= TierSum(vs[j])
    ensures CountPairs(Dominated(), vs) == 0
  {
    NoBadPairsIff(Dominated(), vs);
    forall i, j | 0 <= i < j < |vs| ensures !Dominated()(vs[i], vs[j]) {
      if Dominates(vs[j], vs[i]) { DominatingSumsHigher(vs[j], vs[i]); }
    }
  }
}
