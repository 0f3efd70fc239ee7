/** Round-robin selection of within-project needles for the cross-project questions. */
module CrossNeedles {
  import opened Counting
  import opened Shuffling

  datatype Needle = Needle(id: string, project: string, text: string)

  type Buckets = map<string, seq<Needle>>

  /** The needles of one project, in their original order: its bucket at the start. */
  function OfProject(needles: seq<Needle>, project: string): seq<Needle> {
    if needles == [] then []
    else
      var rest := OfProject(needles[..|needles| - 1], project);
      if needles[|needles| - 1].project == project then rest + [needles[|needles| - 1]] else rest
  }

  lemma AddNeedle(needles: seq<Needle>, x: Needle, project: string)
    ensures OfProject(needles + [x], project) ==
            OfProject(needles, project) + if x.project == project then [x] else []
  {
    assert (needles + [x])[..|needles|] == needles;
  }

  lemma {:induction false} OfProjectCounts(needles: seq<Needle>, project: string, x: Needle)
    ensures multiset(OfProject(needles, project))[x] == if x.project == project then multiset(needles)[x] else 0
  {
    if needles != [] {
      OfProjectCounts(needles[..|needles| - 1], project, x);
      assert needles == needles[..|needles| - 1] + [needles[|needles| - 1]];
    }
  }

  // ---- counting visits ----

  /** How often the first `v` visits of a round robin over `n` projects come to project `p`. */
  function Visits(v: nat, n: nat, p: nat): nat
    requires n > 0
  {
    if v == 0 then 0 else Visits(v - 1, n, p) + if (v - 1) % n == p then 1 else 0
  }

  lemma TimesGrows(a: nat, b: nat, n: nat)
    ensures a < b ==> (a + 1) * n <= b * n
  {
    if a < b { assert b * n == (a + 1) * n + (b - a - 1) * n; }
  }

  lemma DivUnique(v: nat, n: nat, q: nat, r: nat)
    requires r < n && v == q * n + r
    ensures v / n == q && v % n == r
  {
    assert v / n * n + v % n == v;
    TimesGrows(v / n, q, n);
    TimesGrows(q, v / n, n);
  }

  lemma NextRound(v: nat, n: nat)
    requires n > 0
    ensures if v % n + 1 < n then (v + 1) / n == v / n && (v + 1) % n == v % n + 1
            else (v + 1) / n == v / n + 1 && (v + 1) % n == 0
  {
    var q, r := v / n, v % n;
    assert v == q * n + r;
    if r + 1 < n {
      DivUnique(v + 1, n, q, r + 1);
    } else {
      assert v + 1 == (q + 1) * n;
      DivUnique(v + 1, n, q + 1, 0);
    }
  }

  /** Visits are even: every project has had one per full round, and those passed in this round one more. */
  lemma {:induction false} VisitsAreEven(v: nat, n: nat, p: nat)
    requires p < n
    ensures Visits(v, n, p) == v / n + if p < v % n then 1 else 0
  {
    if v > 0 {
      VisitsAreEven(v - 1, n, p);
      NextRound(v - 1, n);
    } else {
      DivUnique(0, n, 0, 0);
    }
  }

  /** A project with needles left has given at most one fewer than any other project. */
  lemma EvenUntilExhausted(v: nat, n: nat, p: nat, q: nat, sizeP: nat, sizeQ: nat)
    requires p < n && q < n
    requires Min(sizeP, Visits(v, n, p)) < sizeP
    ensures Min(sizeQ, Visits(v, n, q)) <= Min(sizeP, Visits(v, n, p)) + 1
  {
    VisitsAreEven(v, n, p);
    VisitsAreEven(v, n, q);
  }

  /** Visit `v` finds a needle left exactly when its project has more needles than rounds completed. */
  predicate Finds(sizes: seq<nat>, v: nat)
    requires sizes != []
  {
    sizes[v % |sizes|] > v / |sizes|
  }

  /** How many of the first `v` visits find a needle. */
  function Picks(sizes: seq<nat>, v: nat): nat
    requires sizes != []
  {
    if v == 0 then 0 else Picks(sizes, v - 1) + if Finds(sizes, v - 1) then 1 else 0
  }

  /** The most visits the genome builder's loop can make. */
  function Limit(n: nat): nat { n * 50 + 101 }

  /** The most visits the shard builder's loop can make. */
  function ShardLimit(n: nat): nat { n * 10 + 1 }

  function Sizes(within: seq<Needle>, names: seq<string>): seq<nat> {
    seq(|names|, p requires 0 <= p < |names| => |OfProject(within, names[p])|)
  }

  /** `names` lists the projects of `within`, each once. */
  predicate Lists(names: seq<string>, within: seq<Needle>) {
    && (forall p, q | 0 <= p < q < |names| :: names[p] != names[q])
    && (forall name | name in names :: OfProject(within, name) != [])
    && (forall x | x in within :: x.project in names)
  }

  // ---- the state of the loop ----

  /** After `visits` visits to one project: what was picked from it and what is left in its bucket are together
      what it had, and the bucket has lost one needle per visit until it ran out. */
  predicate FairTo(within: seq<Needle>, name: string, bucket: seq<Needle>, pool: seq<Needle>, visits: nat) {
    && multiset(OfProject(pool, name)) + multiset(bucket) == multiset(OfProject(within, name))
    && |OfProject(pool, name)| == Min(|OfProject(within, name)|, visits)
  }

  predicate Fair(within: seq<Needle>, names: seq<string>, buckets: Buckets, pool: seq<Needle>, v: nat) {
    && (forall x | x in pool :: x.project in names)
    && (forall p | 0 <= p < |names| ::
          names[p] in buckets && FairTo(within, names[p], buckets[names[p]], pool, Visits(v, |names|, p)))
  }

  lemma FairStart(within: seq<Needle>, names: seq<string>, buckets: Buckets)
    requires buckets == map name | name in names :: OfProject(within, name)
    ensures Fair(within, names, buckets, [], 0)
  {
  }

  /** What has been picked is part of what there was, and all of it once the buckets are empty. */
  lemma PickedIsPart(within: seq<Needle>, names: seq<string>, buckets: Buckets, pool: seq<Needle>, v: nat)
    requires Lists(names, within) && Fair(within, names, buckets, pool, v)
    ensures multiset(pool) <= multiset(within)
    ensures (forall name | name in names :: name in buckets && buckets[name] == []) ==>
              multiset(pool) == multiset(within)
  {
    forall x: Needle
      ensures multiset(pool)[x] <= multiset(within)[x]
      ensures (forall name | name in names :: name in buckets && buckets[name] == []) ==>
                multiset(pool)[x] == multiset(within)[x]
    {
      OfProjectCounts(pool, x.project, x);
      OfProjectCounts(within, x.project, x);
      if x.project in names {
        var p :| 0 <= p < |names| && names[p] == x.project;
        assert FairTo(within, names[p], buckets[names[p]], pool, Visits(v, |names|, p));
        assert multiset(OfProject(pool, x.project))[x] + multiset(buckets[x.project])[x]
            == (multiset(OfProject(pool, x.project)) + multiset(buckets[x.project]))[x];
      } else {
        assert x !in pool && x !in within;
      }
    }
  }

  lemma BucketIsOfProject(within: seq<Needle>, bucket: seq<Needle>, name: string, x: Needle)
    requires multiset(bucket) <= multiset(OfProject(within, name)) && x in bucket
    ensures x.project == name
  {
    OfProjectCounts(within, name, x);
    assert x in multiset(bucket);
  }

  lemma BucketLeft(within: seq<Needle>, name: string, bucket: seq<Needle>, pool: seq<Needle>, visits: nat)
    requires FairTo(within, name, bucket, pool, visits)
    ensures bucket == [] <==> |OfProject(within, name)| <= visits
  {
    assert |multiset(OfProject(pool, name)) + multiset(bucket)| == |multiset(OfProject(within, name))|;
    hide OfProject;
  }

  /** The bucket visited is non-empty exactly when the visit `Finds`. */
  lemma VisitFinds(within: seq<Needle>, names: seq<string>, buckets: Buckets, pool: seq<Needle>, v: nat)
    requires names != [] && Fair(within, names, buckets, pool, v)
    ensures v % |names| < |names| && names[v % |names|] in buckets
    ensures buckets[names[v % |names|]] != [] <==> Finds(Sizes(within, names), v)
  {
    var p := v % |names|;
    VisitsAreEven(v, |names|, p);
    hide FairTo, Visits;
    BucketLeft(within, names[p], buckets[names[p]], pool, v / |names|);
  }

  lemma EmptyVisitIsFair(within: seq<Needle>, names: seq<string>, buckets: Buckets, pool: seq<Needle>, v: nat)
    requires names != [] && Fair(within, names, buckets, pool, v)
    requires !Finds(Sizes(within, names), v)
    ensures Fair(within, names, buckets, pool, v + 1)
  {
    VisitsAreEven(v, |names|, v % |names|);
    hide OfProject;
  }

  lemma PickIsFairTo(within: seq<Needle>, name: string, b: seq<Needle>, pool: seq<Needle>, visits: nat, i: nat)
    requires FairTo(within, name, b, pool, visits) && i < |b|
    ensures b[i].project == name
    ensures FairTo(within, name, b[..i] + b[i + 1..], pool + [b[i]], visits + 1)
  {
    assert b == b[..i] + [b[i]] + b[i + 1..];
    BucketLeft(within, name, b, pool, visits);
    BucketIsOfProject(within, b, name, b[i]);
    AddNeedle(pool, b[i], name);
    hide OfProject;
  }

  lemma OthersStayFair(within: seq<Needle>, name: string, b: seq<Needle>, pool: seq<Needle>, visits: nat, x: Needle)
    requires FairTo(within, name, b, pool, visits) && x.project != name
    ensures FairTo(within, name, b, pool + [x], visits)
  {
    AddNeedle(pool, x, name);
    hide OfProject;
  }

  lemma NextVisit(v: nat, n: nat, p: nat)
    requires n > 0
    ensures Visits(v + 1, n, p) == Visits(v, n, p) + if v % n == p then 1 else 0
  {
  }

  lemma PickIsFair(within: seq<Needle>, names: seq<string>, buckets: Buckets, pool: seq<Needle>, v: nat, p: nat, i: nat)
    requires Lists(names, within) && Fair(within, names, buckets, pool, v)
    requires p < |names| && p == v % |names| && names[p] in buckets && i < |buckets[names[p]]|
    ensures var b := buckets[names[p]];
            Fair(within, names, buckets[names[p] := b[..i] + b[i + 1..]], pool + [b[i]], v + 1)
  {
    hide FairTo, Visits, OfProject;
    var b := buckets[names[p]];
    var left, pool' := b[..i] + b[i + 1..], pool + [b[i]];
    var buckets' := buckets[names[p] := left];
    PickIsFairTo(within, names[p], b, pool, Visits(v, |names|, p), i);
    forall q | 0 <= q < |names|
      ensures names[q] in buckets' && FairTo(within, names[q], buckets'[names[q]], pool', Visits(v + 1, |names|, q))
    {
      NextVisit(v, |names|, q);
      if q != p { OthersStayFair(within, names[q], buckets[names[q]], pool, Visits(v, |names|, q), b[i]); }
    }
  }

  // ---- how many picks ----

  lemma {:induction false} PicksMonotone(sizes: seq<nat>, v: nat, w: nat)
    requires sizes != [] && v <= w
    ensures Picks(sizes, v) <= Picks(sizes, w) <= Picks(sizes, v) + (w - v)
  {
    if v < w { PicksMonotone(sizes, v, w - 1); }
  }

  /** While a project has more needles than rounds completed, every round has picked one at least. */
  lemma {:induction false} PicksPerRound(sizes: seq<nat>, v: nat, p: nat)
    requires p < |sizes| && sizes[p] >= Visits(v, |sizes|, p)
    ensures Picks(sizes, v) >= Visits(v, |sizes|, p)
  {
    if v > 0 {
      VisitsAreEven(v - 1, |sizes|, p);
      PicksPerRound(sizes, v - 1, p);
    }
  }

  /** Once every project has had as many visits as it has needles, nothing more is found. */
  lemma {:induction false} PicksStop(sizes: seq<nat>, v: nat, w: nat)
    requires sizes != [] && v <= w
    requires forall p | 0 <= p < |sizes| :: sizes[p] <= Visits(v, |sizes|, p)
    ensures Picks(sizes, w) == Picks(sizes, v)
    ensures forall p | 0 <= p < |sizes| :: Visits(v, |sizes|, p) <= Visits(w, |sizes|, p)
  {
    if v < w {
      PicksStop(sizes, v, w - 1);
      VisitsAreEven(w - 1, |sizes|, (w - 1) % |sizes|);
    }
  }

  lemma AtLeastTimes(v: nat, n: nat, k: nat)
    requires k > 0 && n * k <= v
    ensures v / k >= n
  {
    assert v / k * k + v % k == v;
    TimesGrows(v / k, n, k);
    assert (v / k + 1) * k == v / k * k + k;
  }

  lemma RoundsAllowed(limit: nat, n: nat, k: nat, most: nat)
    requires 0 < k <= most && limit >= n * most
    ensures n <= limit / k
  {
    assert n * most == n * k + n * (most - k);
    AtLeastTimes(limit, n, k);
  }

  /** A project with needles left after `v` visits has been visited once a round. */
  lemma EnoughPicked(sizes: seq<nat>, v: nat, p: nat)
    requires p < |sizes| && sizes[p] >= Visits(v, |sizes|, p)
    ensures Picks(sizes, v) >= v / |sizes|
  {
    PicksPerRound(sizes, v, p);
    VisitsAreEven(v, |sizes|, p);
    hide *;
  }

  lemma SubsetLength(a: seq<Needle>, b: seq<Needle>)
    requires multiset(a) <= multiset(b)
    ensures |a| <= |b|
    ensures multiset(a) == multiset(b) ==> |a| == |b|
  {
    assert multiset(b) == multiset(a) + (multiset(b) - multiset(a));
    assert |multiset(a)| == |a| && |multiset(b)| == |b|;
  }

  /** How the loop ends: with `want` picked, nothing left, or at the limit. A round picks one needle at least as
      long as any are left, so `sure` needles are picked if there are as many and the limit allows as many rounds. */
  lemma AtExit(within: seq<Needle>, names: seq<string>, buckets: Buckets, pool: seq<Needle>, v: nat,
               want: nat, limit: nat, sure: nat)
    requires Lists(names, within) && names != [] && Fair(within, names, buckets, pool, v)
    requires |pool| == Picks(Sizes(within, names), v) <= want && v <= limit
    requires |pool| == want || v == limit || forall name | name in names :: name in buckets && buckets[name] == []
    requires sure <= want && sure <= limit / |names|
    ensures |pool| == Min(want, Picks(Sizes(within, names), limit))
    ensures Min(sure, |within|) <= |pool| <= |within|
  {
    var sizes := Sizes(within, names);
    PickedIsPart(within, names, buckets, pool, v);
    SubsetLength(pool, within);
    PicksMonotone(sizes, v, limit);
    if forall name | name in names :: name in buckets && buckets[name] == [] {
      forall p | 0 <= p < |sizes| ensures sizes[p] <= Visits(v, |sizes|, p) {
        BucketLeft(within, names[p], buckets[names[p]], pool, Visits(v, |names|, p));
      }
      PicksStop(sizes, v, limit);
    } else if |pool| < want {
      var p :| 0 <= p < |names| && buckets[names[p]] != [];
      BucketLeft(within, names[p], buckets[names[p]], pool, Visits(v, |names|, p));
      EnoughPicked(sizes, v, p);
    }
  }

  lemma HasMember(needles: seq<Needle>)
    ensures needles == [] || exists x :: x in needles
  {
    if needles != [] { assert needles[0] in needles; }
  }

  lemma NoNames(within: seq<Needle>)
    requires Lists([], within)
    ensures within == []
  {
    HasMember(within);
  }

  lemma NoPicks(within: seq<Needle>, names: seq<string>)
    ensures names != [] ==> Picks(Sizes(within, names), 0) == 0
  {
  }

  lemma NextPick(sizes: seq<nat>, v: nat)
    requires sizes != []
    ensures Picks(sizes, v + 1) == Picks(sizes, v) + if Finds(sizes, v) then 1 else 0
  {
  }

  lemma FairShares(within: seq<Needle>, names: seq<string>, buckets: Buckets, pool: seq<Needle>, v: nat)
    requires Fair(within, names, buckets, pool, v)
    ensures forall name | name in names :: name in buckets
    ensures forall p | 0 <= p < |names| ::
              |OfProject(pool, names[p])| == Min(|OfProject(within, names[p])|, Visits(v, |names|, p))
  {
    hide OfProject, Visits;
  }

  /** The round robin. `names` is the order of the visits, the picks inside a bucket are arbitrary, and the loop
      breaks once it has made `limit` visits. `visits` is its final `idx`. */
  method RoundRobin(within: seq<Needle>, names: seq<string>, want: nat, limit: nat, ghost sure: nat)
    returns (pool: seq<Needle>, visits: nat)
    requires Lists(names, within) && limit > 0
    requires sure <= want && (names != [] ==> sure <= limit / |names|)
    ensures multiset(pool) <= multiset(within)
    ensures names == [] ==> within == pool == []
    ensures forall p | 0 <= p < |names| ::
              |OfProject(pool, names[p])| == Min(|OfProject(within, names[p])|, Visits(visits, |names|, p))
    ensures names != [] ==> |pool| == Min(want, Picks(Sizes(within, names), limit))
    ensures Min(sure, |within|) <= |pool| <= |within|
  {
    hide Fair, Finds, Lists, Visits, OfProject, Picks;
    assert names != [] ==> Picks(Sizes(within, names), 0) == 0 by { NoPicks(within, names); }
    var buckets: Buckets := map name | name in names :: OfProject(within, name);
    pool := [];
    var idx, guard := 0, 0;
    FairStart(within, names, buckets);
    while |pool| < want && exists p | 0 <= p < |names| :: names[p] in buckets && buckets[names[p]] != []
      invariant Fair(within, names, buckets, pool, idx)
      invariant guard == idx < limit && |pool| <= want
      invariant names != [] ==> |pool| == Picks(Sizes(within, names), idx)
      decreases limit - guard
    {
      VisitFinds(within, names, buckets, pool, idx);
      NextPick(Sizes(within, names), idx);
      var pname := names[idx % |names|];
      if buckets[pname] != [] {
        var i :| 0 <= i < |buckets[pname]|;
        PickIsFair(within, names, buckets, pool, idx, idx % |names|, i);
        pool := pool + [buckets[pname][i]];
        buckets := buckets[pname := buckets[pname][..i] + buckets[pname][i + 1..]];
      } else {
        EmptyVisitIsFair(within, names, buckets, pool, idx);
      }
      idx := idx + 1;
      guard := guard + 1;
      if guard >= limit { break; }
    }
    visits := idx;
    PickedIsPart(within, names, buckets, pool, idx);
    FairShares(within, names, buckets, pool, idx);
    if names == [] {
      NoNames(within);
    } else {
      assert |pool| == want || idx == limit || forall name | name in names :: buckets[name] == [];
      AtExit(within, names, buckets, pool, idx, want, limit, sure);
    }
  }

  /** `make_cross_needles` of the genome builder, up to the re-tagging. */
  method MakeCrossNeedles(within: seq<Needle>, names: seq<string>, n: nat) returns (pool: seq<Needle>, visits: nat)
    requires Lists(names, within)
    ensures multiset(pool) <= multiset(within)
    ensures forall p | 0 <= p < |names| ::
              |OfProject(pool, names[p])| == Min(|OfProject(within, names[p])|, Visits(visits, |names|, p))
    ensures names != [] ==> |pool| == Min(n, Picks(Sizes(within, names), Limit(n)))
    ensures |names| <= 50 ==> |pool| == Min(n, |within|)
  {
    if 0 < |names| <= 50 { RoundsAllowed(Limit(n), n, |names|, 50); }
    hide Lists, Visits, OfProject, Picks, Sizes;
    pool, visits := RoundRobin(within, names, n, Limit(n), if |names| <= 50 then n else 0);
  }

  lemma ShardRounds(n: nat, k: nat)
    ensures ShardLimit(n) > 0 && (0 < k <= 10 ==> n <= ShardLimit(n) / k)
  {
    if 0 < k <= 10 { RoundsAllowed(ShardLimit(n), n, k, 10); }
  }

  lemma MinOfMin(n: nat, picks: nat, size: nat, total: nat)
    ensures size == Min(n * 3, picks) ==> Min(n, size) == Min(n, picks)
    ensures Min(n, total) <= size <= total ==> Min(n, size) == Min(n, total)
  {
  }

  lemma FrontIsPart(shuffled: seq<Needle>, pool: seq<Needle>, within: seq<Needle>, n: nat)
    requires multiset(shuffled) == multiset(pool) && multiset(pool) <= multiset(within)
    ensures |shuffled| == |pool| && Min(n, |shuffled|) <= |shuffled|
    ensures multiset(shuffled[..Min(n, |shuffled|)]) <= multiset(within)
  {
    SubsetLength(shuffled, pool);
    var k := Min(n, |shuffled|);
    assert shuffled == shuffled[..k] + shuffled[k..];
  }

  /** `make_cross_needles` of the shard builder: up to three times as many are picked as wanted, and a shuffle
      decides which of them are returned. */
  method MakeShardCrossNeedles(within: seq<Needle>, names: seq<string>, n: nat) returns (cross: seq<Needle>)
    requires Lists(names, within)
    ensures multiset(cross) <= multiset(within)
    ensures names != [] ==> |cross| == Min(n, Picks(Sizes(within, names), ShardLimit(n)))
    ensures |names| <= 10 ==> |cross| == Min(n, |within|)
  {
    hide Lists, Visits, OfProject, Picks, ShardLimit;
    ShardRounds(n, |names|);
    var pool, _ := RoundRobin(within, names, n * 3, ShardLimit(n), if |names| <= 10 then n else 0);
    var shuffled := Shuffle(pool);
    FrontIsPart(shuffled, pool, within, n);
    cross := shuffled[..Min(n, |shuffled|)];
    MinOfMin(n, if names == [] then 0 else Picks(Sizes(within, names), ShardLimit(n)), |pool|, |within|);
  }

  // ---- when the limit matters ----

  /** What the first `m` projects have given after `v` visits. */
  function Shares(sizes: seq<nat>, v: nat, m: nat): nat
    requires m <= |sizes|
  {
    if m == 0 then 0 else Shares(sizes, v, m - 1) + Min(sizes[m - 1], Visits(v, |sizes|, m - 1))
  }

  function Total(sizes: seq<nat>, m: nat): nat
    requires m <= |sizes|
  {
    if m == 0 then 0 else Total(sizes, m - 1) + sizes[m - 1]
  }

  lemma {:induction false} NextShares(sizes: seq<nat>, v: nat, m: nat)
    requires sizes != [] && m <= |sizes|
    ensures Shares(sizes, v + 1, m) ==
            Shares(sizes, v, m) + if v % |sizes| < m && Finds(sizes, v) then 1 else 0
  {
    if m > 0 {
      NextShares(sizes, v, m - 1);
      VisitsAreEven(v, |sizes|, m - 1);
    }
  }

  lemma {:induction false} NoShares(sizes: seq<nat>, m: nat)
    requires m <= |sizes|
    ensures Shares(sizes, 0, m) == 0
  {
    if m > 0 { NoShares(sizes, m - 1); }
  }

  /** The picks are the sum of what each project has given. */
  lemma {:induction false} PicksAreShares(sizes: seq<nat>, v: nat)
    requires sizes != []
    ensures Picks(sizes, v) == Shares(sizes, v, |sizes|)
  {
    if v == 0 {
      NoShares(sizes, |sizes|);
    } else {
      PicksAreShares(sizes, v - 1);
      NextShares(sizes, v - 1, |sizes|);
    }
  }

  lemma {:induction false} SharesWithinTotal(sizes: seq<nat>, v: nat, m: nat)
    requires m <= |sizes|
    ensures Shares(sizes, v, m) <= Total(sizes, m)
    ensures (forall p | 0 <= p < m :: sizes[p] <= Visits(v, |sizes|, p)) ==> Shares(sizes, v, m) == Total(sizes, m)
  {
    if m > 0 { SharesWithinTotal(sizes, v, m - 1); }
  }

  /** Whatever the sizes, one needle is picked a round until there are none. */
  lemma PicksReach(sizes: seq<nat>, v: nat)
    requires sizes != []
    ensures Min(v / |sizes|, Total(sizes, |sizes|)) <= Picks(sizes, v) <= Total(sizes, |sizes|)
  {
    PicksAreShares(sizes, v);
    SharesWithinTotal(sizes, v, |sizes|);
    if exists p | 0 <= p < |sizes| :: sizes[p] > Visits(v, |sizes|, p) {
      var p :| 0 <= p < |sizes| && sizes[p] > Visits(v, |sizes|, p);
      EnoughPicked(sizes, v, p);
    }
  }

  /** With one long project and one needle in each of the others, every round but the first picks one only. */
  lemma {:induction false} OneLongProject(sizes: seq<nat>, v: nat, m: nat)
    requires 0 < m <= |sizes| && forall p | 0 < p < |sizes| :: sizes[p] == 1
    ensures Shares(sizes, v, m) <= v / |sizes| + m
  {
    VisitsAreEven(v, |sizes|, 0);
    if m > 1 { OneLongProject(sizes, v, m - 1); } else { assert Shares(sizes, v, 0) == 0; }
  }

  lemma {:induction false} TotalOfLong(sizes: seq<nat>, m: nat)
    requires 0 < m <= |sizes|
    ensures Total(sizes, m) >= sizes[0]
  {
    if m > 1 { TotalOfLong(sizes, m - 1); } else { assert Total(sizes, 0) == 0; }
  }

  lemma LongProjectFallsShort(sizes: seq<nat>, v: nat, n: nat)
    requires sizes != [] && sizes[0] == n && forall p | 0 < p < |sizes| :: sizes[p] == 1
    requires v / |sizes| + |sizes| < n
    ensures Min(n, Picks(sizes, v)) < n == Min(n, Total(sizes, |sizes|))
  {
    PicksAreShares(sizes, v);
    OneLongProject(sizes, v, |sizes|);
    TotalOfLong(sizes, |sizes|);
  }

  lemma Distribute(a: nat, b: nat, k: nat)
    ensures (a + b) * k == a * k + b * k
  {
  }

  lemma TimesKeepsOrder(a: nat, b: nat, k: nat)
    requires a >= b
    ensures a * k >= b * k
  {
    Distribute(b, a - b, k);
  }

  lemma Regroup(k: nat, m: nat, c: nat)
    ensures k * m * c == k * (m * c)
  {
  }

  lemma RestOfDivision(k: nat, x: nat, d: nat)
    requires k > 0
    ensures (k * x + d) / k <= x + d
  {
    var q := (k * x + d) / k;
    assert q * k <= x * k + d;
    Distribute(x, d + 1, k);
    TimesKeepsOrder(k, 1, d + 1);
    if q > x + d { TimesKeepsOrder(q, x + d + 1, k); }
  }

  /** For `n = k * m` with a large `m`, `k > c` projects have too few rounds in `c` visits for each of `n` picks. */
  lemma TooFewRounds(k: nat, c: nat, d: nat, m: nat)
    requires c < k && m == k + d + 1
    ensures (k * m * c + d) / k + k < k * m
  {
    Regroup(k, m, c);
    RestOfDivision(k, m * c, d);
    Distribute(c, 1, m);
    TimesKeepsOrder(k, c + 1, m);
  }

  /** The limit on visits lets `k` projects give the smaller of `n` and their total, for all `n` and all sizes. */
  ghost predicate NeverShort(k: nat, limit: nat -> nat)
    requires k > 0
  {
    forall sizes: seq<nat>, n: nat | |sizes| == k && (forall p | 0 <= p < k :: sizes[p] > 0) ::
      Min(n, Picks(sizes, limit(n))) == Min(n, Total(sizes, k))
  }

  /** A limit of `c * n + d` visits does so exactly for at most `c` projects. */
  lemma NeverShortIff(k: nat, limit: nat -> nat, c: nat, d: nat)
    requires k > 0 && forall n: nat :: limit(n) == n * c + d
    ensures NeverShort(k, limit) <==> k <= c
  {
    if k <= c {
      forall sizes: seq<nat>, n: nat | |sizes| == k ensures Min(n, Picks(sizes, limit(n))) == Min(n, Total(sizes, k)) {
        RoundsAllowed(limit(n), n, k, c);
        PicksReach(sizes, limit(n));
      }
    } else {
      var m := k + d + 1;
      var n := k * m;
      var sizes: seq<nat> := [n] + seq(k - 1, _ => 1);
      TooFewRounds(k, c, d, m);
      assert limit(n) == k * m * c + d;
      LongProjectFallsShort(sizes, limit(n), n);
      assert Min(n, Picks(sizes, limit(n))) != Min(n, Total(sizes, k));
    }
  }

  /** The genome builder's limit never shortens the result for at most 50 projects, and can for every number
      above; the shard builder's for at most 10. */
  lemma LimitsMatterIff(k: nat)
    requires k > 0
    ensures NeverShort(k, Limit) <==> k <= 50
    ensures NeverShort(k, ShardLimit) <==> k <= 10
  {
    NeverShortIff(k, Limit, 50, 101);
    NeverShortIff(k, ShardLimit, 10, 1);
  }
}
