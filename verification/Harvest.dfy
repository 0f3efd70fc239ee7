/** The stratified sample of globally unique key=value needles. */
module Harvest {
  import opened Counting
  import opened Shuffling

  /** A key=value pair that passed the quality filters; `key` is the lower-cased `key=value` text. */
  datatype Candidate = Candidate(gene: string, category: string, key: string)

  /** A stratum and its share in percent. */
  datatype Stratum = Stratum(category: string, percent: nat)

  const STRATA: seq<Stratum> := [
    Stratum("education_public", 30), Stratum("cymatix", 15), Stratum("cosmic", 12), Stratum("tally", 8),
    Stratum("scorerift", 5), Stratum("steam", 25), Stratum("other", 5)]

  const OTHER := "other"

  type Test = Candidate -> bool

  function HasKey(key: string): Test { (x: Candidate) => x.key == key }
  function InCategory(category: string): Test { (x: Candidate) => x.category == category }
  function NotOther(): Test { (x: Candidate) => x.category != OTHER }

  /** The members of `s` that pass `f`, in order. */
  function Keep(s: seq<Candidate>, f: Test): (r: seq<Candidate>)
    ensures |r| <= |s|
  {
    if s == [] then []
    else Keep(s[..|s| - 1], f) + if f(s[|s| - 1]) then [s[|s| - 1]] else []
  }

  function KeyCount(s: seq<Candidate>, key: string): nat {
    |Keep(s, HasKey(key))|
  }

  function OccursOnce(candidates: seq<Candidate>): Test {
    (x: Candidate) => KeyCount(candidates, x.key) == 1
  }

  /** The candidates whose pair occurs once among all of them. */
  function Unique(candidates: seq<Candidate>): seq<Candidate> {
    Keep(candidates, OccursOnce(candidates))
  }

  // ---- filters and multisets ----

  lemma {:induction false} KeepCounts(s: seq<Candidate>, f: Test, x: Candidate)
    ensures multiset(Keep(s, f))[x] == if f(x) then multiset(s)[x] else 0
  {
    if s != [] {
      KeepCounts(s[..|s| - 1], f, x);
      assert s == s[..|s| - 1] + [s[|s| - 1]];
    }
  }

  lemma {:induction false} KeepAppend(a: seq<Candidate>, b: seq<Candidate>, f: Test)
    ensures Keep(a + b, f) == Keep(a, f) + Keep(b, f)
  {
    if b == [] {
      assert a + b == a;
    } else {
      assert (a + b)[..|a + b| - 1] == a + b[..|b| - 1];
      KeepAppend(a, b[..|b| - 1], f);
    }
  }

  lemma Lengths(a: seq<Candidate>, b: seq<Candidate>)
    requires multiset(a) <= multiset(b)
    ensures |a| <= |b| && (multiset(a) == multiset(b) ==> |a| == |b|)
  {
    assert multiset(b) == multiset(a) + (multiset(b) - multiset(a));
    assert |multiset(a)| == |a| && |multiset(b)| == |b|;
  }

  /** Filtering respects inclusion. */
  lemma KeepIncluded(a: seq<Candidate>, b: seq<Candidate>, f: Test)
    requires multiset(a) <= multiset(b)
    ensures multiset(Keep(a, f)) <= multiset(Keep(b, f)) && |Keep(a, f)| <= |Keep(b, f)|
  {
    forall x: Candidate ensures multiset(Keep(a, f))[x] <= multiset(Keep(b, f))[x] {
      KeepCounts(a, f, x);
      KeepCounts(b, f, x);
    }
    Lengths(Keep(a, f), Keep(b, f));
  }

  lemma {:induction false} KeepAll(s: seq<Candidate>, f: Test)
    requires forall x | x in s :: f(x)
    ensures Keep(s, f) == s
  {
    if s != [] {
      assert s[|s| - 1] in s;
      KeepAll(s[..|s| - 1], f);
    }
  }

  lemma {:induction false} KeepNone(s: seq<Candidate>, f: Test)
    requires forall x | x in s :: !f(x)
    ensures Keep(s, f) == []
  {
    if s != [] {
      assert s[|s| - 1] in s;
      KeepNone(s[..|s| - 1], f);
    }
  }

  lemma {:induction false} OtherOrNot(s: seq<Candidate>)
    ensures |Keep(s, InCategory(OTHER))| + |Keep(s, NotOther())| == |s|
  {
    if s != [] { OtherOrNot(s[..|s| - 1]); }
  }

  // ---- uniqueness ----

  lemma UniqueOccurOnce(candidates: seq<Candidate>, x: Candidate)
    ensures multiset(Unique(candidates)) <= multiset(candidates)
    ensures x in Unique(candidates) <==> x in candidates && KeyCount(candidates, x.key) == 1
  {
    var f := OccursOnce(candidates);
    forall y: Candidate ensures multiset(Unique(candidates))[y] <= multiset(candidates)[y] {
      KeepCounts(candidates, f, y);
    }
    KeepCounts(candidates, f, x);
    assert x in Unique(candidates) <==> multiset(Unique(candidates))[x] > 0;
    assert x in candidates <==> multiset(candidates)[x] > 0;
  }

  lemma FirstKept(s: seq<Candidate>, f: Test)
    requires s != [] && f(s[0])
    ensures |Keep(s, f)| >= 1
  {
    assert s == [s[0]] + s[1..];
    KeepAppend([s[0]], s[1..], f);
    KeepAll([s[0]], f);
  }

  lemma {:induction false} SameKeyTwice(s: seq<Candidate>, i: nat, j: nat)
    requires i < j < |s| && s[i].key == s[j].key
    ensures KeyCount(s, s[i].key) >= 2
  {
    var f := HasKey(s[i].key);
    assert s == s[..j] + s[j..] && s[..j] == s[..i] + s[i..j];
    KeepAppend(s[..j], s[j..], f);
    KeepAppend(s[..i], s[i..j], f);
    FirstKept(s[i..j], f);
    FirstKept(s[j..], f);
  }

  /** Whatever is chosen from the unique candidates has pairwise distinct pairs, each occurring once among all. */
  lemma ChosenAreUnique(candidates: seq<Candidate>, chosen: seq<Candidate>)
    requires multiset(chosen) <= multiset(Unique(candidates))
    ensures forall x | x in chosen :: x in candidates && KeyCount(candidates, x.key) == 1
    ensures forall i, j | 0 <= i < j < |chosen| :: chosen[i].key != chosen[j].key
  {
    forall x | x in chosen ensures x in candidates && KeyCount(candidates, x.key) == 1 {
      assert x in multiset(chosen) && x in multiset(Unique(candidates));
      UniqueOccurOnce(candidates, x);
    }
    forall i, j | 0 <= i < j < |chosen| ensures chosen[i].key != chosen[j].key {
      assert chosen[i] in chosen;
      UniqueOccurOnce(candidates, chosen[i]);
      KeepIncluded(chosen, candidates, HasKey(chosen[i].key));
      if chosen[i].key == chosen[j].key { SameKeyTwice(chosen, i, j); }
    }
  }

  lemma MultiplicityBound(s: seq<Candidate>, x: Candidate)
    ensures multiset(s)[x] <= |s|
  {
    assert multiset(s)[x] <= |multiset(s)|;
  }

  lemma {:induction false} NoDoubles(candidates: seq<Candidate>, x: Candidate)
    ensures multiset(Unique(candidates))[x] <= 1
  {
    var u := Unique(candidates);
    if multiset(u)[x] > 0 {
      assert x in u;
      UniqueOccurOnce(candidates, x);
      KeepIncluded(u, candidates, HasKey(x.key));
      KeepCounts(u, HasKey(x.key), x);
      MultiplicityBound(Keep(u, HasKey(x.key)), x);
    }
  }

  // ---- counting and bucketing ----

  type Buckets = map<string, seq<Candidate>>

  lemma NextKept(s: seq<Candidate>, i: nat, f: Test)
    requires i < |s|
    ensures Keep(s[..i + 1], f) == Keep(s[..i], f) + if f(s[i]) then [s[i]] else []
  {
    assert s[..i + 1][..i] == s[..i];
  }

  /** The two passes that count the pairs and keep those counted once. */
  method UniqueCandidates(candidates: seq<Candidate>) returns (unique: seq<Candidate>)
    ensures unique == Unique(candidates)
  {
    var counts: map<string, nat> := map[];
    var i := 0;
    while i < |candidates|
      invariant i <= |candidates|
      invariant forall key: string :: (if key in counts then counts[key] else 0) == KeyCount(candidates[..i], key)
    {
      var key := candidates[i].key;
      forall k: string { NextKept(candidates, i, HasKey(k)); }
      counts := counts[key := (if key in counts then counts[key] else 0) + 1];
      i := i + 1;
    }
    assert candidates[..i] == candidates;
    unique, i := [], 0;
    while i < |candidates|
      invariant i <= |candidates| && unique == Keep(candidates[..i], OccursOnce(candidates))
    {
      NextKept(candidates, i, OccursOnce(candidates));
      var key := candidates[i].key;
      FirstKept(candidates[i..], HasKey(key));
      if key in counts && counts[key] == 1 { unique := unique + [candidates[i]]; }
      i := i + 1;
    }
    assert candidates[..i] == candidates;
  }

  /** Each non-empty category has a bucket, holding its candidates in some order. */
  predicate BucketsOf(u: seq<Candidate>, b: Buckets, c: string) {
    && (c in b <==> Keep(u, InCategory(c)) != [])
    && (c in b ==> multiset(b[c]) == multiset(Keep(u, InCategory(c))))
  }

  /** `order` lists the keys of the buckets, each once. */
  ghost predicate Orders(order: seq<string>, b: Buckets) {
    && (forall c :: c in order <==> c in b)
    && (forall i, j | 0 <= i < j < |order| :: order[i] != order[j])
  }

  lemma BucketsStart(b: Buckets, c: string)
    requires b == map[]
    ensures BucketsOf([], b, c) && Orders([], b)
  {
  }

  function Added(b: Buckets, x: Candidate): Buckets {
    b[x.category := (if x.category in b then b[x.category] else []) + [x]]
  }

  lemma BucketsNext(u: seq<Candidate>, i: nat, b: Buckets, d: string)
    requires i < |u| && BucketsOf(u[..i], b, d)
    ensures BucketsOf(u[..i + 1], Added(b, u[i]), d)
  {
    NextKept(u, i, InCategory(d));
    hide Keep;
  }

  lemma OrdersNext(order: seq<string>, b: Buckets, x: Candidate)
    requires Orders(order, b)
    ensures Orders(if x.category in b then order else order + [x.category], Added(b, x))
  {
  }

  method Bucket(u: seq<Candidate>) returns (b: Buckets, order: seq<string>)
    ensures forall c: string :: BucketsOf(u, b, c)
    ensures Orders(order, b)
  {
    hide BucketsOf, Orders;
    b, order := map[], [];
    ghost var w := u[..0];
    forall c: string ensures BucketsOf(w, b, c) { BucketsStart(b, c); }
    BucketsStart(b, "");
    var i := 0;
    while i < |u|
      invariant i <= |u| && w == u[..i]
      invariant forall c: string :: BucketsOf(w, b, c)
      invariant Orders(order, b)
    {
      var c := u[i].category;
      ghost var before, b' := w, Added(b, u[i]);
      w := u[..i + 1];
      forall d: string ensures BucketsOf(w, b', d) {
        assert BucketsOf(before, b, d);
        BucketsNext(u, i, b, d);
      }
      OrdersNext(order, b, u[i]);
      if c in b {
        b := b[c := b[c] + [u[i]]];
      } else {
        b := b[c := [u[i]]];
        order := order + [c];
      }
      assert [] + [u[i]] == [u[i]];
      assert b == b';
      i := i + 1;
    }
    assert u[..i] == u;
  }

  // ---- the strata ----

  function Quota(n: nat, percent: nat): nat { n * percent / 100 }

  /** The largest whole number that is not above the stratum's share of `n`. */
  lemma QuotaIs(n: nat, percent: nat)
    ensures 100 * Quota(n, percent) <= n * percent < 100 * (Quota(n, percent) + 1)
  {
  }

  function Percents(strata: seq<Stratum>): nat {
    if strata == [] then 0 else Percents(strata[..|strata| - 1]) + strata[|strata| - 1].percent
  }

  predicate DistinctStrata(strata: seq<Stratum>) {
    forall i, j | 0 <= i < j < |strata| :: strata[i].category != strata[j].category
  }

  function InStratum(s: seq<Candidate>, category: string): nat {
    |Keep(s, InCategory(category))|
  }

  /** What a stratum contributes: its quota, or all it has. */
  function Share(n: nat, u: seq<Candidate>, stratum: Stratum): nat {
    Min(Quota(n, stratum.percent), InStratum(u, stratum.category))
  }

  /** Adding the first `take` of a category's candidates to a selection that has none of them. */
  lemma TakeStratum(u: seq<Candidate>, selected: seq<Candidate>, pool: seq<Candidate>, take: nat, c: string)
    requires multiset(pool) == multiset(Keep(u, InCategory(c))) && take <= |pool|
    requires multiset(selected) <= multiset(u) && InStratum(selected, c) == 0
    ensures multiset(selected + pool[..take]) <= multiset(u)
    ensures InStratum(selected + pool[..take], c) == take
    ensures forall d | d != c :: InStratum(selected + pool[..take], d) == InStratum(selected, d)
  {
    hide Keep;
    var picked := pool[..take];
    assert pool == picked + pool[take..];
    forall x | x in picked ensures x.category == c {
      assert x in multiset(pool);
      KeepCounts(u, InCategory(c), x);
    }
    forall x: Candidate ensures multiset(selected + picked)[x] <= multiset(u)[x] {
      KeepCounts(u, InCategory(c), x);
      KeepCounts(selected, InCategory(c), x);
      assert multiset(picked)[x] <= multiset(pool)[x];
    }
    KeepAppend(selected, picked, InCategory(c));
    KeepAll(picked, InCategory(c));
    forall d | d != c ensures InStratum(selected + picked, d) == InStratum(selected, d) {
      KeepAppend(selected, picked, InCategory(d));
      KeepNone(picked, InCategory(d));
    }
  }

  /** The stratified sample over the first `k` strata. */
  predicate Stratified(strata: seq<Stratum>, k: nat, n: nat, u: seq<Candidate>, selected: seq<Candidate>) {
    && k <= |strata|
    && multiset(selected) <= multiset(u)
    && (forall j | 0 <= j < k :: InStratum(selected, strata[j].category) == Share(n, u, strata[j]))
    && (forall j | k <= j < |strata| :: InStratum(selected, strata[j].category) == 0)
    && 100 * |selected| <= n * Percents(strata[..k])
  }

  lemma QuotaFits(n: nat, percent: nat, sum: nat, length: nat, take: nat)
    requires 100 * length <= n * sum && take <= Quota(n, percent)
    ensures 100 * (length + take) <= n * (sum + percent)
  {
  }

  lemma PercentsNext(strata: seq<Stratum>, k: nat)
    requires k < |strata|
    ensures Percents(strata[..k + 1]) == Percents(strata[..k]) + strata[k].percent
  {
    assert strata[..k + 1][..k] == strata[..k];
  }

  lemma PoolSize(u: seq<Candidate>, pool: seq<Candidate>, c: string)
    requires multiset(pool) == multiset(Keep(u, InCategory(c)))
    ensures |pool| == InStratum(u, c)
  {
    Lengths(pool, Keep(u, InCategory(c)));
  }

  lemma StratumDone(strata: seq<Stratum>, k: nat, n: nat, u: seq<Candidate>, selected: seq<Candidate>,
                    pool: seq<Candidate>)
    requires DistinctStrata(strata) && k < |strata| && Stratified(strata, k, n, u, selected)
    requires multiset(pool) == multiset(Keep(u, InCategory(strata[k].category)))
    ensures Min(Quota(n, strata[k].percent), |pool|) <= |pool|
    ensures Stratified(strata, k + 1, n, u, selected + pool[..Min(Quota(n, strata[k].percent), |pool|)])
  {
    hide InStratum, Quota, Keep, Percents;
    var c, take := strata[k].category, Min(Quota(n, strata[k].percent), |pool|);
    PoolSize(u, pool, c);
    TakeStratum(u, selected, pool, take, c);
    PercentsNext(strata, k);
    QuotaFits(n, strata[k].percent, Percents(strata[..k]), |selected|, take);
  }

  lemma Rearranged(u: seq<Candidate>, b: Buckets, c: string, pool: seq<Candidate>, d: string)
    requires BucketsOf(u, b, c) && BucketsOf(u, b, d)
    requires c in b && multiset(pool) == multiset(b[c])
    ensures BucketsOf(u, b[c := pool], d)
  {
  }

  lemma PoolOf(u: seq<Candidate>, b: Buckets, c: string)
    requires BucketsOf(u, b, c)
    ensures multiset(if c in b then b[c] else []) == multiset(Keep(u, InCategory(c)))
  {
  }

  lemma NothingStratified(strata: seq<Stratum>, n: nat, u: seq<Candidate>)
    ensures Stratified(strata, 0, n, u, [])
  {
  }

  /** The first sampling loop. The pools it shuffles stay shuffled. */
  method Stratify(strata: seq<Stratum>, n: nat, u: seq<Candidate>, buckets: Buckets)
    returns (selected: seq<Candidate>, b: Buckets)
    requires DistinctStrata(strata)
    requires forall c: string :: BucketsOf(u, buckets, c)
    ensures b.Keys == buckets.Keys && forall c: string :: BucketsOf(u, b, c)
    ensures Stratified(strata, |strata|, n, u, selected)
  {
    hide Stratified, BucketsOf, Keep, InStratum, Quota, DistinctStrata;
    selected, b := [], buckets;
    NothingStratified(strata, n, u);
    var k := 0;
    while k < |strata|
      invariant k <= |strata|
      invariant b.Keys == buckets.Keys && forall c: string :: BucketsOf(u, b, c)
      invariant Stratified(strata, k, n, u, selected)
    {
      var c, target := strata[k].category, Quota(n, strata[k].percent);
      var pool := if c in b then b[c] else [];
      PoolOf(u, b, c);
      if pool != [] {
        var take := Min(target, |pool|);
        pool := Shuffle(pool);
        ghost var b' := b[c := pool];
        forall d: string ensures BucketsOf(u, b', d) { Rearranged(u, b, c, pool, d); }
        b := b[c := pool];
        StratumDone(strata, k, n, u, selected, pool);
        selected := selected + pool[..take];
      } else {
        StratumDone(strata, k, n, u, selected, pool);
        assert selected + pool[..Min(target, |pool|)] == selected;
      }
      k := k + 1;
    }
  }

  // ---- the top-up ----

  /** May still be picked: not selected, and not of category "other". */
  function Unpicked(selected: seq<Candidate>): Test {
    (x: Candidate) => x !in selected && x.category != OTHER
  }

  /** The unpicked candidates, bucket by bucket. */
  function Gather(order: seq<string>, b: Buckets, f: Test): seq<Candidate> {
    if order == [] then []
    else
      var c := order[|order| - 1];
      Gather(order[..|order| - 1], b, f) + if c in b then Keep(b[c], f) else []
  }

  lemma {:induction false} GatherCounts(u: seq<Candidate>, order: seq<string>, b: Buckets, f: Test, x: Candidate)
    requires forall c: string :: BucketsOf(u, b, c)
    requires forall i, j | 0 <= i < j < |order| :: order[i] != order[j]
    ensures multiset(Gather(order, b, f))[x] == if x.category in order && f(x) then multiset(u)[x] else 0
  {
    if order != [] {
      var c, front := order[|order| - 1], order[..|order| - 1];
      GatherCounts(u, front, b, f, x);
      assert order == front + [c];
      assert BucketsOf(u, b, c);
      if c in b { KeepCounts(b[c], f, x); }
      KeepCounts(u, InCategory(c), x);
      hide Keep;
    }
  }

  /** All buckets together hold exactly the unique candidates. */
  lemma GatherAll(u: seq<Candidate>, order: seq<string>, b: Buckets, f: Test)
    requires forall c: string :: BucketsOf(u, b, c)
    requires Orders(order, b)
    ensures multiset(Gather(order, b, f)) == multiset(Keep(u, f))
  {
    forall x: Candidate ensures multiset(Gather(order, b, f))[x] == multiset(Keep(u, f))[x] {
      GatherCounts(u, order, b, f, x);
      KeepCounts(u, f, x);
      KeepCounts(u, InCategory(x.category), x);
      assert BucketsOf(u, b, x.category);
    }
  }

  ghost predicate Sorted(b: Buckets) {
    forall c, x | c in b && x in b[c] :: x.category == c
  }

  lemma BucketsAreSorted(u: seq<Candidate>, b: Buckets)
    requires forall c: string :: BucketsOf(u, b, c)
    ensures Sorted(b)
  {
    forall c, x | c in b && x in b[c] ensures x.category == c {
      assert BucketsOf(u, b, c) && x in multiset(b[c]);
      KeepCounts(u, InCategory(c), x);
    }
  }

  lemma GatherNone(b: Buckets, f: Test)
    ensures Gather([], b, f) == [] && Keep([], f) == []
  {
  }

  lemma GatherNext(order: seq<string>, b: Buckets, f: Test, k: nat)
    requires k < |order|
    ensures Gather(order[..k + 1], b, f) ==
            Gather(order[..k], b, f) + if order[k] in b then Keep(b[order[k]], f) else []
  {
    assert order[..k + 1][..k] == order[..k];
  }

  method Remaining(selected: seq<Candidate>, b: Buckets, order: seq<string>) returns (r: seq<Candidate>)
    requires Orders(order, b) && Sorted(b)
    ensures r == Gather(order, b, Unpicked(selected))
  {
    hide Keep, Gather;
    r := [];
    ghost var f := Unpicked(selected);
    GatherNone(b, f);
    assert order[..0] == [];
    var k := 0;
    while k < |order|
      invariant k <= |order| && r == Gather(order[..k], b, f)
    {
      var c := order[k];
      GatherNext(order, b, f, k);
      assert c in order;
      ghost var front := r;
      assert b[c][..0] == [];
      var i := 0;
      while i < |b[c]|
        invariant i <= |b[c]| && r == front + Keep(b[c][..i], f)
      {
        NextKept(b[c], i, f);
        if b[c][i] !in selected && c != OTHER { r := r + [b[c][i]]; }
        i := i + 1;
      }
      assert b[c][..i] == b[c];
      k := k + 1;
    }
    assert order[..k] == order;
  }

  lemma UnpickedCount(candidates: seq<Candidate>, selected: seq<Candidate>)
    requires multiset(selected) <= multiset(Unique(candidates))
    ensures var u := Unique(candidates);
            && multiset(Keep(u, Unpicked(selected))) + multiset(Keep(selected, NotOther())) ==
               multiset(Keep(u, NotOther()))
            && |Keep(u, Unpicked(selected))| + |Keep(selected, NotOther())| == |Keep(u, NotOther())|
  {
    var u := Unique(candidates);
    var a, b := Keep(u, Unpicked(selected)), Keep(selected, NotOther());
    forall x: Candidate ensures (multiset(a) + multiset(b))[x] == multiset(Keep(u, NotOther()))[x] {
      KeepCounts(u, Unpicked(selected), x);
      KeepCounts(selected, NotOther(), x);
      KeepCounts(u, NotOther(), x);
      NoDoubles(candidates, x);
      assert multiset(selected)[x] <= multiset(u)[x];
    }
    assert multiset(a + b) == multiset(Keep(u, NotOther()));
    Lengths(a + b, Keep(u, NotOther()));
  }

  /** Topping up with unpicked candidates: still a part of the unique ones, no stratum shrinks, and "other" does
      not grow. */
  lemma TopUp(candidates: seq<Candidate>, selected: seq<Candidate>, rest: seq<Candidate>, take: nat)
    requires multiset(selected) <= multiset(Unique(candidates)) && take <= |rest|
    requires multiset(rest) == multiset(Keep(Unique(candidates), Unpicked(selected)))
    ensures multiset(selected + rest[..take]) <= multiset(Unique(candidates))
    ensures forall c :: InStratum(selected, c) <= InStratum(selected + rest[..take], c)
    ensures InStratum(selected + rest[..take], OTHER) == InStratum(selected, OTHER)
  {
    hide Unique, Keep;
    var u, more := Unique(candidates), rest[..take];
    assert rest == more + rest[take..];
    forall x: Candidate
      ensures multiset(selected + more)[x] <= multiset(u)[x]
      ensures x in more ==> x.category != OTHER
    {
      KeepCounts(u, Unpicked(selected), x);
      assert multiset(more)[x] <= multiset(rest)[x];
    }
    forall c ensures InStratum(selected, c) <= InStratum(selected + more, c) {
      KeepAppend(selected, more, InCategory(c));
    }
    KeepAppend(selected, more, InCategory(OTHER));
    KeepNone(more, InCategory(OTHER));
  }

  /** The promises of the harvest, for what was returned. */
  predicate Harvested(candidates: seq<Candidate>, n: nat, chosen: seq<Candidate>) {
    var u := Unique(candidates);
    && multiset(chosen) <= multiset(u)
    && (forall j | 0 <= j < |STRATA| :: InStratum(chosen, STRATA[j].category) >= Share(n, u, STRATA[j]))
    && InStratum(chosen, OTHER) == Min(Quota(n, 5), InStratum(u, OTHER))
    && |chosen| == Min(n, |Keep(u, NotOther())| + InStratum(chosen, OTHER))
  }

  lemma StrataFacts()
    ensures DistinctStrata(STRATA) && Percents(STRATA) == 100
    ensures STRATA[6] == Stratum(OTHER, 5) && |STRATA| == 7
  {
    assert forall i | 0 <= i < 6 :: STRATA[i].category != OTHER;
    PercentsNext(STRATA, 0);
    PercentsNext(STRATA, 1);
    PercentsNext(STRATA, 2);
    PercentsNext(STRATA, 3);
    PercentsNext(STRATA, 4);
    PercentsNext(STRATA, 5);
    PercentsNext(STRATA, 6);
    assert STRATA[..7] == STRATA;
  }

  lemma SampleFits(n: nat, u: seq<Candidate>, sample: seq<Candidate>)
    requires Stratified(STRATA, |STRATA|, n, u, sample)
    ensures |sample| <= n && multiset(sample) <= multiset(u)
    ensures forall j | 0 <= j < |STRATA| :: InStratum(sample, STRATA[j].category) == Share(n, u, STRATA[j])
    ensures InStratum(sample, OTHER) == Min(Quota(n, 5), InStratum(u, OTHER))
  {
    StrataFacts();
    hide STRATA, Percents, InStratum;
    assert STRATA[..|STRATA|] == STRATA;
    assert InStratum(sample, STRATA[6].category) == Share(n, u, STRATA[6]);
  }

  lemma SameMembers(a: seq<Candidate>, b: seq<Candidate>)
    requires multiset(a) == multiset(b)
    ensures |a| == |b| && forall c :: InStratum(a, c) == InStratum(b, c)
  {
    Lengths(a, b);
    forall c ensures InStratum(a, c) == InStratum(b, c) {
      KeepIncluded(a, b, InCategory(c));
      KeepIncluded(b, a, InCategory(c));
    }
  }

  /** How many the top-up leaves: everything not "other", plus the sample's share of "other", but at most `n`. */
  lemma TopUpCount(candidates: seq<Candidate>, n: nat, sample: seq<Candidate>, rest: seq<Candidate>)
    requires multiset(sample) <= multiset(Unique(candidates)) && |sample| <= n
    requires multiset(rest) == multiset(Keep(Unique(candidates), Unpicked(sample)))
    ensures |sample| + Min(n - |sample|, |rest|) ==
            Min(n, |Keep(Unique(candidates), NotOther())| + InStratum(sample, OTHER))
  {
    hide Keep, Unique;
    UnpickedCount(candidates, sample);
    Lengths(rest, Keep(Unique(candidates), Unpicked(sample)));
    OtherOrNot(sample);
  }

  lemma HarvestedSame(candidates: seq<Candidate>, n: nat, a: seq<Candidate>, b: seq<Candidate>)
    requires Harvested(candidates, n, a) && multiset(a) == multiset(b)
    ensures Harvested(candidates, n, b)
  {
    hide Unique, InStratum, Keep, STRATA, Share, Quota;
    SameMembers(a, b);
  }

  lemma HarvestDone(candidates: seq<Candidate>, n: nat, sample: seq<Candidate>, rest: seq<Candidate>,
                    chosen: seq<Candidate>)
    requires Stratified(STRATA, |STRATA|, n, Unique(candidates), sample) && |sample| <= n
    requires multiset(rest) == multiset(Keep(Unique(candidates), Unpicked(sample)))
    requires multiset(chosen) == multiset(sample + rest[..Min(n - |sample|, |rest|)])
    ensures Harvested(candidates, n, chosen) && |chosen| <= n
  {
    var take := Min(n - |sample|, |rest|);
    hide Unique, InStratum, Keep, Stratified, STRATA, Share, Quota;
    SampleFits(n, Unique(candidates), sample);
    TopUp(candidates, sample, rest, take);
    TopUpCount(candidates, n, sample, rest);
    HarvestedSame(candidates, n, sample + rest[..take], chosen);
  }

  lemma SameOrder(order: seq<string>, a: Buckets, b: Buckets)
    requires Orders(order, a) && a.Keys == b.Keys
    ensures Orders(order, b)
  {
    forall c ensures c in order <==> c in b { assert c in b <==> c in b.Keys; assert c in a <==> c in a.Keys; }
  }

  lemma ChosenFromUnique(candidates: seq<Candidate>, n: nat, chosen: seq<Candidate>)
    requires Harvested(candidates, n, chosen)
    ensures forall i, j | 0 <= i < j < |chosen| :: chosen[i].key != chosen[j].key
    ensures forall x | x in chosen :: x in candidates && KeyCount(candidates, x.key) == 1
  {
    ChosenAreUnique(candidates, chosen);
  }

  /** `harvest_needles` after parsing. Every shuffle is arbitrary, and the final slice drops nothing. */
  method HarvestNeedles(candidates: seq<Candidate>, n: nat) returns (chosen: seq<Candidate>)
    ensures Harvested(candidates, n, chosen)
    ensures forall i, j | 0 <= i < j < |chosen| :: chosen[i].key != chosen[j].key
    ensures forall x | x in chosen :: x in candidates && KeyCount(candidates, x.key) == 1
  {
    StrataFacts();
    var unique := UniqueCandidates(candidates);
    var buckets, order := Bucket(unique);
    ghost var buckets0 := buckets;
    var selected;
    hide STRATA, DistinctStrata, Percents, Stratified, Harvested;
    hide Orders, BucketsOf, Sorted, Keep, Unique, Gather, KeyCount;
    selected, buckets := Stratify(STRATA, n, unique, buckets);
    SampleFits(n, unique, selected);
    ghost var sample, rest := selected, Keep(unique, Unpicked(selected));
    var short := n - |selected|;
    if short > 0 {
      BucketsAreSorted(unique, buckets);
      SameOrder(order, buckets0, buckets);
      var remaining := Remaining(selected, buckets, order);
      GatherAll(unique, order, buckets, Unpicked(selected));
      remaining := Shuffle(remaining);
      rest := remaining;
      selected := selected + remaining[..Min(short, |remaining|)];
    }
    assert selected == sample + rest[..Min(n - |sample|, |rest|)];
    selected := Shuffle(selected);
    HarvestDone(candidates, n, sample, rest, selected);
    chosen := selected[..Min(n, |selected|)];
    assert chosen == selected;
    ChosenFromUnique(candidates, n, chosen);
  }
}
