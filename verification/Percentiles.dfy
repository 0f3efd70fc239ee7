/** Linear-interpolation percentiles of a list of numbers. */
module Percentiles {
  import opened Ordering

  function RealLess(): Less<real> {
    (x: real, y: real) => x < y
  }

  /** Python's `sorted(values)`. */
  function Sorted(values: seq<real>): seq<real> {
    SortBy(RealLess(), values)
  }

  ghost predicate NonDecreasing(s: seq<real>) {
    forall i, j | 0 <= i <= j < |s| :: s[i] <= s[j]
  }

  lemma {:induction false} InsertInPlace(s: seq<real>, x: real)
    requires NonDecreasing(s)
    ensures NonDecreasing(Insert(RealLess(), s, x))
  {
    if s != [] && !(x < s[0]) {
      InsertInPlace(s[1..], x);
      InsertElements(RealLess(), s[1..], x);
      var r := Insert(RealLess(), s[1..], x);
      forall y | y in r ensures s[0] <= y {
        assert y in multiset(r);
        if y != x { assert y in s[1..]; }
      }
      var t := Insert(RealLess(), s, x);
      assert t == [s[0]] + r;
      forall i, j | 0 <= i <= j < |t| ensures t[i] <= t[j] {
        if i == 0 && j > 0 { assert r[j - 1] in r; }
        if i > 0 { assert r[i - 1] <= r[j - 1]; }
      }
    }
  }

  lemma {:induction false} SortedFacts(values: seq<real>)
    ensures NonDecreasing(Sorted(values)) && multiset(Sorted(values)) == multiset(values)
    ensures |Sorted(values)| == |values|
  {
    if values != [] {
      SortedFacts(values[1..]);
      assert values == [values[0]] + values[1..];
      InsertInPlace(Sorted(values[1..]), values[0]);
      InsertElements(RealLess(), Sorted(values[1..]), values[0]);
    }
    assert |multiset(Sorted(values))| == |multiset(values)|;
  }

  lemma FirstIsLeast(a: seq<real>, v: real)
    requires NonDecreasing(a) && v in multiset(a)
    ensures a[0] <= v
  {
    var i :| 0 <= i < |a| && a[i] == v;
  }

  lemma DropFirst(a: seq<real>)
    requires a != []
    ensures multiset(a[1..]) == multiset(a) - multiset{a[0]}
  {
    assert a == [a[0]] + a[1..];
  }

  lemma SameHead(a: seq<real>, b: seq<real>)
    requires NonDecreasing(a) && NonDecreasing(b) && multiset(a) == multiset(b) && a != [] && b != []
    ensures a[0] == b[0]
  {
    assert a[0] in multiset(a) && b[0] in multiset(b);
    FirstIsLeast(a, b[0]);
    FirstIsLeast(b, a[0]);
  }

  lemma {:induction false} SortedByMultiset(a: seq<real>, b: seq<real>)
    requires NonDecreasing(a) && NonDecreasing(b) && multiset(a) == multiset(b)
    ensures a == b
  {
    assert |multiset(a)| == |a| && |multiset(b)| == |b|;
    if a != [] {
      SameHead(a, b);
      DropFirst(a);
      DropFirst(b);
      SortedByMultiset(a[1..], b[1..]);
      assert a == [a[0]] + a[1..] && b == [b[0]] + b[1..];
    }
  }

  function Along(a: real, b: real, share: real): real {
    a + (b - a) * share
  }

  /** The value at the fractional position `k` of a sorted list. */
  function Interpolate(s: seq<real>, k: real): real
    requires s != [] && 0.0 <= k <= (|s| - 1) as real
  {
    var lo := k.Floor;
    var hi := if lo + 1 < |s| - 1 then lo + 1 else |s| - 1;
    Along(s[lo], s[hi], k - lo as real)
  }

  function PositionOf(n: nat, pct: real): (k: real)
    requires n > 0 && 0.0 <= pct <= 100.0
    ensures 0.0 <= k <= (n - 1) as real
  {
    assert 0.0 <= (n - 1) as real * pct <= (n - 1) as real * 100.0;
    (n - 1) as real * pct / 100.0
  }

  /** `_percentile` */
  function Percentile(values: seq<real>, pct: real): real
    requires 0.0 <= pct <= 100.0
  {
    if values == [] then 0.0
    else
      SortedFacts(values);
      Interpolate(Sorted(values), PositionOf(|values|, pct))
  }

  lemma Steeper(d: real, x: real, y: real)
    requires d >= 0.0 && x <= y
    ensures d * x <= d * y
  {
  }

  lemma Between(a: real, b: real, share: real)
    requires a <= b && 0.0 <= share <= 1.0
    ensures a <= Along(a, b, share) <= b
  {
    Steeper(b - a, 0.0, share);
    Steeper(b - a, share, 1.0);
  }

  lemma AlongMonotone(a: real, b: real, x: real, y: real)
    requires a <= b && x <= y
    ensures Along(a, b, x) <= Along(a, b, y)
  {
    Steeper(b - a, x, y);
  }

  /** The interpolated value lies between its two neighbours. */
  lemma InterpolateBetween(s: seq<real>, k: real)
    requires s != [] && 0.0 <= k <= (|s| - 1) as real && NonDecreasing(s)
    ensures var lo := k.Floor;
            && 0 <= lo < |s| && s[lo] <= Interpolate(s, k)
            && Interpolate(s, k) <= s[if lo + 1 < |s| - 1 then lo + 1 else |s| - 1]
  {
    var lo := k.Floor;
    var hi := if lo + 1 < |s| - 1 then lo + 1 else |s| - 1;
    hide Along;
    Between(s[lo], s[hi], k - lo as real);
  }

  /** Within one segment the value follows the slope, which is not negative. */
  lemma SameSegment(s: seq<real>, k: real, k': real)
    requires s != [] && 0.0 <= k <= k' <= (|s| - 1) as real && NonDecreasing(s) && k.Floor == k'.Floor
    ensures Interpolate(s, k) <= Interpolate(s, k')
  {
    var lo := k.Floor;
    var hi := if lo + 1 < |s| - 1 then lo + 1 else |s| - 1;
    hide Along;
    AlongMonotone(s[lo], s[hi], k - lo as real, k' - lo as real);
  }

  lemma LaterSegment(s: seq<real>, k: real, k': real)
    requires s != [] && 0.0 <= k <= k' <= (|s| - 1) as real && NonDecreasing(s) && k.Floor < k'.Floor
    ensures Interpolate(s, k) <= Interpolate(s, k')
  {
    InterpolateBetween(s, k);
    InterpolateBetween(s, k');
    hide Interpolate;
    var hi := if k.Floor + 1 < |s| - 1 then k.Floor + 1 else |s| - 1;
    assert hi <= k'.Floor < |s|;
    assert s[hi] <= s[k'.Floor];
  }

  lemma InterpolateMonotone(s: seq<real>, k: real, k': real)
    requires s != [] && 0.0 <= k <= k' <= (|s| - 1) as real && NonDecreasing(s)
    ensures Interpolate(s, k) <= Interpolate(s, k')
  {
    if k.Floor == k'.Floor { SameSegment(s, k, k'); } else { LaterSegment(s, k, k'); }
  }

  lemma PositionMonotone(n: nat, pct: real, pct': real)
    requires n > 0 && 0.0 <= pct <= pct' <= 100.0
    ensures PositionOf(n, pct) <= PositionOf(n, pct')
  {
    Steeper((n - 1) as real, pct, pct');
  }

  /** A percentile never decreases as `pct` grows. */
  lemma PercentileMonotone(values: seq<real>, pct: real, pct': real)
    requires 0.0 <= pct <= pct' <= 100.0
    ensures Percentile(values, pct) <= Percentile(values, pct')
  {
    if values != [] {
      SortedFacts(values);
      PositionMonotone(|values|, pct, pct');
      InterpolateMonotone(Sorted(values), PositionOf(|values|, pct), PositionOf(|values|, pct'));
    }
  }

  lemma PercentileEnds(values: seq<real>)
    requires values != []
    ensures |Sorted(values)| == |values|
    ensures Percentile(values, 0.0) == Sorted(values)[0]
    ensures Percentile(values, 100.0) == Sorted(values)[|values| - 1]
  {
    var n := |values|;
    SortedFacts(values);
    hide Sorted, NonDecreasing;
    assert PositionOf(n, 0.0) == 0.0;
    assert PositionOf(n, 100.0) == (n - 1) as real;
  }

  /** It is the minimum at 0, the maximum at 100, and always between the two. */
  lemma PercentileBounds(values: seq<real>, pct: real)
    requires values != [] && 0.0 <= pct <= 100.0
    ensures Percentile(values, 0.0) in values && Percentile(values, 100.0) in values
    ensures forall v | v in values :: Percentile(values, 0.0) <= v <= Percentile(values, 100.0)
    ensures Percentile(values, 0.0) <= Percentile(values, pct) <= Percentile(values, 100.0)
  {
    var s, n := Sorted(values), |values|;
    SortedFacts(values);
    PercentileEnds(values);
    hide Percentile, Sorted;
    assert s[0] in multiset(values) && s[n - 1] in multiset(values);
    forall v | v in values ensures s[0] <= v <= s[n - 1] {
      assert v in multiset(s);
      var i :| 0 <= i < |s| && s[i] == v;
    }
    PercentileMonotone(values, 0.0, pct);
    PercentileMonotone(values, pct, 100.0);
  }

  /** Only the multiset of the values matters. */
  lemma PercentileIgnoresOrder(values: seq<real>, values': seq<real>, pct: real)
    requires 0.0 <= pct <= 100.0 && multiset(values) == multiset(values')
    ensures Percentile(values, pct) == Percentile(values', pct)
  {
    assert |values| == |multiset(values)| == |multiset(values')| == |values'|;
    SortedFacts(values);
    SortedFacts(values');
    SortedByMultiset(Sorted(values), Sorted(values'));
  }

  lemma NothingGivesZero(pct: real)
    requires 0.0 <= pct <= 100.0
    ensures Percentile([], pct) == 0.0
  {
  }

  lemma AlongBlends(a: real, b: real, x: real, k: nat)
    ensures Along(a, b, x - k as real) == ((k + 1) as real - x) * a + (x - k as real) * b
  {
    var share := x - k as real;
    assert (b - a) * share == share * b - share * a;
    assert ((k + 1) as real - x) * a == a - share * a;
  }

  lemma BlendAtEnd(a: real, b: real, x: real, k: nat)
    requires x == (k + 1) as real
    ensures ((k + 1) as real - x) * a + (x - k as real) * b == b
  {
  }

  lemma InterpolateAt(s: seq<real>, x: real, k: nat)
    requires k + 1 < |s| && k as real <= x <= (k + 1) as real
    ensures Interpolate(s, x) == if x < (k + 1) as real then Along(s[k], s[k + 1], x - k as real) else s[k + 1]
  {
    if x == (k + 1) as real { assert x.Floor == k + 1; }
  }

  /** Between the `k`-th and the next value, both ends included, the two are blended by the distances of `x` to them. */
  lemma InterpolateBlends(s: seq<real>, x: real, k: nat)
    requires k + 1 < |s| && k as real <= x <= (k + 1) as real
    ensures Interpolate(s, x) == ((k + 1) as real - x) * s[k] + (x - k as real) * s[k + 1]
  {
    InterpolateAt(s, x, k);
    hide *;
    if x < (k + 1) as real { AlongBlends(s[k], s[k + 1], x, k); } else { BlendAtEnd(s[k], s[k + 1], x, k); }
  }

  lemma PositionScaled(n: nat, pct: real, k: nat)
    requires n > 0 && 0.0 <= pct <= 100.0
    ensures PositionOf(n, pct) * 100.0 == (n - 1) as real * pct
    ensures (100 * k) as real <= (n - 1) as real * pct <= (100 * k + 100) as real ==>
              k as real <= PositionOf(n, pct) <= (k + 1) as real
  {
  }

  lemma HundredTimes(x: real, way: real, k: nat, a: real, b: real)
    requires way == x * 100.0
    ensures 100.0 * (((k + 1) as real - x) * a + (x - k as real) * b) ==
            ((100 * k + 100) as real - way) * a + (way - (100 * k) as real) * b
  {
    assert (100 * k + 100) as real - way == 100.0 * ((k + 1) as real - x);
    assert way - (100 * k) as real == 100.0 * (x - k as real);
  }

  /** Where the share of the way, (n - 1) pct in hundredths, falls between two sorted values, the percentile divides
      the gap between them in the same ratio. */
  lemma PercentileBlends(values: seq<real>, pct: real, k: nat)
    requires 0.0 <= pct <= 100.0 && k + 1 < |values|
    requires (100 * k) as real <= (|values| - 1) as real * pct <= (100 * k + 100) as real
    ensures |Sorted(values)| == |values|
    ensures 100.0 * Percentile(values, pct) ==
            ((100 * k + 100) as real - (|values| - 1) as real * pct) * Sorted(values)[k]
            + ((|values| - 1) as real * pct - (100 * k) as real) * Sorted(values)[k + 1]
  {
    SortedFacts(values);
    var x, way := PositionOf(|values|, pct), (|values| - 1) as real * pct;
    PositionScaled(|values|, pct, k);
    InterpolateBlends(Sorted(values), x, k);
    HundredTimes(x, way, k, Sorted(values)[k], Sorted(values)[k + 1]);
    hide Sorted, PositionOf, Interpolate;
  }

  lemma EqualWeights(p: real, u: real, a: real, v: real, b: real)
    requires 100.0 * p == u * a + v * b
    ensures u == 0.0 && v == 100.0 ==> p == b
    ensures u == 50.0 && v == 50.0 ==> p == (a + b) / 2.0
  {
  }

  lemma MedianWay(n: nat)
    requires n > 1
    ensures var k, way := if n % 2 == 1 then (n - 3) / 2 else (n - 2) / 2, (n - 1) as real * 50.0;
            if n % 2 == 1 then k >= 0 && way == (100 * k + 100) as real && k + 1 == n / 2
            else way == (100 * k + 50) as real && k == n / 2 - 1
  {
    assert if n % 2 == 1 then (n - 1) * 50 == 100 * ((n - 3) / 2) + 100 else (n - 1) * 50 == 100 * ((n - 2) / 2) + 50;
  }

  /** The 50th percentile is the middle value of an odd number, and the mean of the two middle ones of an even. */
  lemma MedianIs(values: seq<real>)
    requires values != []
    ensures |Sorted(values)| == |values|
    ensures |values| % 2 == 1 ==> Percentile(values, 50.0) == Sorted(values)[|values| / 2]
    ensures |values| % 2 == 0 ==>
              Percentile(values, 50.0) == (Sorted(values)[|values| / 2 - 1] + Sorted(values)[|values| / 2]) / 2.0
  {
    SortedFacts(values);
    var n := |values|;
    if n == 1 {
      PercentileEnds(values);
      PercentileMonotone(values, 0.0, 50.0);
      PercentileMonotone(values, 50.0, 100.0);
    } else {
      var k, way := if n % 2 == 1 then (n - 3) / 2 else (n - 2) / 2, (n - 1) as real * 50.0;
      MedianWay(n);
      PercentileBlends(values, 50.0, k);
      EqualWeights(Percentile(values, 50.0), (100 * k + 100) as real - way, Sorted(values)[k],
                   way - (100 * k) as real, Sorted(values)[k + 1]);
      hide *;
    }
  }
}
