/** Shuffling, with no assumption on the random source. */
module Shuffling {

  /** `rng.shuffle(s)`: any rearrangement. */
  method Shuffle<T>(s: seq<T>) returns (r: seq<T>)
    ensures multiset(r) == multiset(s)
  {
    r := s;
    var i := |s|;
    while i > 1
      invariant i <= |r| == |s| && multiset(r) == multiset(s)
    {
      i := i - 1;
      var j :| 0 <= j <= i;
      r := r[i := r[j]][j := r[i]];
    }
  }
}
