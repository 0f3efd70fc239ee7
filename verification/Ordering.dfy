/** Sorting by a strict total order: the result is unique, and a position in it is a count. */
module Ordering {

  type Less<!T> = (T, T) -> bool

  ghost predicate StrictTotal<T(!new)>(lt: Less<T>) {
    && (forall x :: !lt(x, x))
    && (forall x, y, z :: lt(x, y) && lt(y, z) ==> lt(x, z))
    && (forall x, y :: x != y ==> lt(x, y) || lt(y, x))
  }

  ghost predicate StrictlySorted<T>(lt: Less<T>, s: seq<T>) {
    forall i, j | 0 <= i < j < |s| :: lt(s[i], s[j])
  }

  ghost predicate Distinct<T>(s: seq<T>) {
    forall i, j | 0 <= i < j < |s| :: s[i] != s[j]
  }

  function Insert<T>(lt: Less<T>, s: seq<T>, x: T): seq<T> {
    if s == [] then [x]
    else if lt(x, s[0]) then [x] + s
    else [s[0]] + Insert(lt, s[1..], x)
  }

  /** The elements of `xs` in increasing order. */
  function SortBy<T>(lt: Less<T>, xs: seq<T>): seq<T> {
    if xs == [] then [] else Insert(lt, SortBy(lt, xs[1..]), xs[0])
  }

  lemma {:induction false} InsertElements<T>(lt: Less<T>, s: seq<T>, x: T)
    ensures multiset(Insert(lt, s, x)) == multiset(s) + multiset{x}
  {
    if s != [] {
      assert s == [s[0]] + s[1..];
      if !lt(x, s[0]) { InsertElements(lt, s[1..], x); }
    }
  }

  lemma {:induction false} InsertSorted<T(!new)>(lt: Less<T>, s: seq<T>, x: T)
    requires StrictTotal(lt) && StrictlySorted(lt, s) && x !in s
    ensures StrictlySorted(lt, Insert(lt, s, x))
  {
    if s != [] && !lt(x, s[0]) {
      InsertSorted(lt, s[1..], x);
      InsertElements(lt, s[1..], x);
      var r := Insert(lt, s[1..], x);
      forall y | y in r ensures lt(s[0], y) {
        assert y in multiset(r);
        if y != x { assert y in s[1..]; }
      }
    }
  }

  /** Sorting permutes, and puts distinct elements in strictly increasing order. */
  lemma {:induction false} SortBySorts<T(!new)>(lt: Less<T>, xs: seq<T>)
    requires StrictTotal(lt) && Distinct(xs)
    ensures multiset(SortBy(lt, xs)) == multiset(xs)
    ensures StrictlySorted(lt, SortBy(lt, xs))
  {
    if xs != [] {
      var rest := SortBy(lt, xs[1..]);
      SortBySorts(lt, xs[1..]);
      InsertElements(lt, rest, xs[0]);
      assert xs == [xs[0]] + xs[1..];
      assert xs[0] !in rest by {
        assert xs[0] !in xs[1..];
        assert xs[0] !in multiset(rest);
      }
      InsertSorted(lt, rest, xs[0]);
    }
  }

  function Elements<T>(s: seq<T>): set<T> {
    set x | x in s
  }

  lemma {:induction false} DistinctSize<T>(s: seq<T>)
    requires Distinct(s)
    ensures |Elements(s)| == |s|
  {
    if s != [] {
      var n := |s| - 1;
      DistinctSize(s[..n]);
      assert Elements(s) == Elements(s[..n]) + {s[n]};
      assert s[n] !in s[..n];
    }
  }

  /** The elements of `s` below `x`. */
  ghost function LowerSet<T>(lt: Less<T>, s: seq<T>, x: T): set<T> {
    set y | y in s && lt(y, x)
  }

  /** An element's position in a sorted list is the number of elements below it. */
  lemma PositionIsCount<T(!new)>(lt: Less<T>, order: seq<T>, k: nat)
    requires StrictTotal(lt) && StrictlySorted(lt, order) && k < |order|
    ensures |LowerSet(lt, order, order[k])| == k
  {
    var below := LowerSet(lt, order, order[k]);
    assert below == Elements(order[..k]) by {
      forall x | x in below ensures x in order[..k] {
        var i :| 0 <= i < |order| && order[i] == x;
        assert i < k;
        assert order[..k][i] == x;
      }
    }
    assert Distinct(order[..k]);
    DistinctSize(order[..k]);
  }

  /** Whatever algorithm sorts, the result is the same. */
  lemma {:induction false} SortedIsUnique<T(!new)>(lt: Less<T>, a: seq<T>, b: seq<T>)
    requires StrictTotal(lt) && StrictlySorted(lt, a) && StrictlySorted(lt, b) && Elements(a) == Elements(b)
    ensures a == b
  {
    assert Distinct(a) && Distinct(b);
    DistinctSize(a);
    DistinctSize(b);
    forall k | 0 <= k < |a| ensures a[k] == b[k] {
      assert b[k] in Elements(a) by { assert b[k] in Elements(b); }
      var i :| 0 <= i < |a| && a[i] == b[k];
      PositionIsCount(lt, a, i);
      PositionIsCount(lt, b, k);
      assert LowerSet(lt, a, b[k]) == LowerSet(lt, b, b[k]) by {
        forall x ensures x in a <==> x in b { assert x in Elements(a) <==> x in Elements(b); }
      }
    }
  }

  // ---- descending score, ties by a total order on ids ----

  /** The sort key `(-score, id)`. */
  function ByScore<T>(score: T -> real, idLess: Less<T>): Less<T> {
    (x: T, y: T) => score(x) > score(y) || (score(x) == score(y) && idLess(x, y))
  }

  lemma ByScoreStrictTotal<T(!new)>(score: T -> real, idLess: Less<T>)
    requires StrictTotal(idLess)
    ensures StrictTotal(ByScore(score, idLess))
  {
  }

  function IndexLess(): Less<nat> {
    (i: nat, j: nat) => i < j
  }
}
