/**
 Greedy matching over an arbitrary relation: left elements are taken in order and each claims the
 first right element, in worklist order, that it is related to.
 */
module GreedyMatching {
  import opened Counting
  import opened Text

  type Relation = (nat, nat) -> bool

  datatype Claim = Claim(joined: map<nat, nat>, unclaimed: seq<nat>)

  /** The first position in `unclaimed`, from `k` on, of an element related to `l`. */
  function FirstRelated(rel: Relation, unclaimed: seq<nat>, l: nat, k: nat): (r: Option<nat>)
    requires k <= |unclaimed|
    ensures r.Some? ==> k <= r.value < |unclaimed| && rel(l, unclaimed[r.value])
    ensures forall j | k <= j < (if r.Some? then r.value else |unclaimed|) :: !rel(l, unclaimed[j])
    decreases |unclaimed| - k
  {
    if k == |unclaimed| then None
    else if rel(l, unclaimed[k]) then Some(k)
    else FirstRelated(rel, unclaimed, l, k + 1)
  }

  function Remove(s: seq<nat>, k: nat): seq<nat>
    requires k < |s|
  {
    s[..k] + s[k + 1..]
  }

  function Advance(rel: Relation, l: nat, c: Claim): Claim {
    match FirstRelated(rel, c.unclaimed, l, 0)
    case None => c
    case Some(k) => Claim(c.joined[l := c.unclaimed[k]], Remove(c.unclaimed, k))
  }

  /** The claims made by the left elements `0..n` among the right elements `0..m`. */
  function Greedy(rel: Relation, n: nat, m: nat): Claim {
    if n == 0 then Claim(map[], Range(m)) else Advance(rel, n - 1, Greedy(rel, n - 1, m))
  }

  predicate Claimed(m: map<nat, nat>, r: nat) {
    exists l | l in m :: m[l] == r
  }

  /** Every claim is in the relation, and no right element is claimed twice. */
  ghost predicate Matching(rel: Relation, n: nat, m: nat, joined: map<nat, nat>) {
    && (forall l | l in joined :: l < n && joined[l] < m && rel(l, joined[l]))
    && (forall l, l' | l in joined && l' in joined && l != l' :: joined[l] != joined[l'])
  }

  ghost predicate Worklist(m: nat, c: Claim) {
    && Increasing(c.unclaimed)
    && (forall k | 0 <= k < |c.unclaimed| :: c.unclaimed[k] < m)
    && (forall l, k | l in c.joined && 0 <= k < |c.unclaimed| :: c.joined[l] != c.unclaimed[k])
  }

  ghost predicate NoneLeft(rel: Relation, n: nat, c: Claim) {
    forall l, k | 0 <= l < n && l !in c.joined && 0 <= k < |c.unclaimed| :: !rel(l, c.unclaimed[k])
  }

  ghost predicate Sound(rel: Relation, n: nat, m: nat, c: Claim) {
    Matching(rel, n, m, c.joined) && Worklist(m, c) && NoneLeft(rel, n, c)
  }

  lemma RemoveKeepsWorklist(m: nat, c: Claim, l: nat, k: nat)
    requires Worklist(m, c) && k < |c.unclaimed|
    ensures Worklist(m, Claim(c.joined[l := c.unclaimed[k]], Remove(c.unclaimed, k)))
  {
    var r := Remove(c.unclaimed, k);
    forall j | 0 <= j < |r| ensures r[j] == c.unclaimed[if j < k then j else j + 1] {}
  }

  lemma AdvanceKeepsSound(rel: Relation, n: nat, m: nat, c: Claim)
    requires Sound(rel, n, m, c)
    ensures Sound(rel, n + 1, m, Advance(rel, n, c))
  {
    var first := FirstRelated(rel, c.unclaimed, n, 0);
    if first.Some? { RemoveKeepsWorklist(m, c, n, first.value); }
  }

  lemma SoundAtStart(rel: Relation, m: nat)
    ensures Sound(rel, 0, m, Claim(map[], Range(m)))
  {
  }

  lemma {:induction false} GreedySound(rel: Relation, n: nat, m: nat)
    ensures Sound(rel, n, m, Greedy(rel, n, m))
  {
    hide Advance, Sound;
    if n == 0 {
      SoundAtStart(rel, m);
    } else {
      GreedySound(rel, n - 1, m);
      AdvanceKeepsSound(rel, n - 1, m, Greedy(rel, n - 1, m));
    }
  }

  predicate Accounted(c: Claim, r: nat) {
    r in c.unclaimed || Claimed(c.joined, r)
  }

  lemma AdvanceKeepsAccounted(rel: Relation, n: nat, c: Claim, r: nat)
    requires Accounted(c, r) && n !in c.joined
    ensures Accounted(Advance(rel, n, c), r)
  {
    var c' := Advance(rel, n, c);
    match FirstRelated(rel, c.unclaimed, n, 0)
    case None =>
    case Some(k) =>
      if r == c.unclaimed[k] {
        assert c'.joined[n] == r;
      } else if r in c.unclaimed {
        var i :| 0 <= i < |c.unclaimed| && c.unclaimed[i] == r;
        assert c'.unclaimed[if i < k then i else i - 1] == r;
      } else {
        var l :| l in c.joined && c.joined[l] == r;
        assert c'.joined[l] == r;
      }
  }

  lemma NotYetJoined(rel: Relation, n: nat, m: nat)
    ensures n !in Greedy(rel, n, m).joined
  {
    GreedySound(rel, n, m);
    hide Greedy, Worklist, NoneLeft;
  }

  /** A right element leaves the worklist only by being claimed. */
  lemma {:induction false} GreedyComplete(rel: Relation, n: nat, m: nat, r: nat)
    requires r < m
    ensures Accounted(Greedy(rel, n, m), r)
  {
    if n == 0 {
      assert Range(m)[r] == r;
    } else {
      hide Advance, Accounted;
      GreedyComplete(rel, n - 1, m, r);
      NotYetJoined(rel, n - 1, m);
      AdvanceKeepsAccounted(rel, n - 1, Greedy(rel, n - 1, m), r);
    }
  }

  /** Greedy claiming is a maximal matching, for any relation. */
  lemma GreedyIsMaximalMatching(rel: Relation, n: nat, m: nat)
    ensures var joined := Greedy(rel, n, m).joined;
            && Matching(rel, n, m, joined)
            && forall l: nat, r: nat | l < n && r < m && l !in joined && !Claimed(joined, r) :: !rel(l, r)
  {
    var c := Greedy(rel, n, m);
    GreedySound(rel, n, m);
    forall l: nat, r: nat | l < n && r < m && l !in c.joined && !Claimed(c.joined, r) ensures !rel(l, r) {
      GreedyComplete(rel, n, m, r);
    }
  }

  /** If every left element is related to exactly one right element, its own, it claims it. */
  lemma {:induction false} GreedyFindsOwn(rel: Relation, n: nat, m: nat, own: nat -> nat)
    requires forall l: nat, r: nat | l < n && r < m :: rel(l, r) <==> r == own(l)
    requires forall l: nat | l < n :: own(l) < m
    requires forall l: nat, l': nat | l < l' < n :: own(l) != own(l')
    ensures var joined := Greedy(rel, n, m).joined;
            forall l: nat | l < n :: l in joined && joined[l] == own(l)
  {
    GreedyIsMaximalMatching(rel, n, m);
    var joined := Greedy(rel, n, m).joined;
    forall l: nat | l < n ensures l in joined && joined[l] == own(l) {
      assert l !in joined ==> Claimed(joined, own(l));
    }
  }
}
