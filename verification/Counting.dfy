/** Small counting helpers that several components share. */
module Counting {

  /** Python's `list(range(n))`. */
  function Range(n: nat): (r: seq<nat>)
    ensures |r| == n && forall i | 0 <= i < n :: r[i] == i
  {
    seq(n, i requires 0 <= i < n => i)
  }

  function Min(a: nat, b: nat): nat { if a <= b then a else b }

  /** The number of pairs among `n` things. */
  function Pairs(n: nat): nat {
    if n == 0 then 0 else Pairs(n - 1) + n - 1
  }

  /** Python's `m.get(k, 0)` on a table of counts. */
  function Tally<K>(m: map<K, nat>, k: K): nat {
    if k in m then m[k] else 0
  }

  predicate Increasing(s: seq<nat>) {
    forall i, j | 0 <= i < j < |s| :: s[i] < s[j]
  }
}
