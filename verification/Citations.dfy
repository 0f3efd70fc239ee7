/** Pairing delivered blocks with citations: an id join, then a count-guarded positional fallback. */
module Citations {
  import opened Counting
  import opened Text
  import opened GreedyMatching

  /** `short` is the id captured from a legibility header, absent on a headerless block. */
  datatype Block = Block(short: Option<string>, body: string)

  datatype Citation = Citation(source: string, geneId: string)

  datatype Paired = Paired(source: string, geneId: string, body: string)

  predicate Joins(b: Block, geneId: string) {
    geneId != "" && b.short.Some? && b.short.value != "" && b.short.value <= geneId
  }

  /** A block joins a citation if and only if its header's id is some beginning of the citation's gene id. */
  lemma JoinsIff(b: Block, geneId: string)
    ensures Joins(b, geneId) <==> exists k: nat | 0 < k <= |geneId| :: b.short == Some(geneId[..k])
  {
    if Joins(b, geneId) { assert geneId[..|b.short.value|] == b.short.value; }
  }

  function JoinRelation(cits: seq<Citation>, parsed: seq<Block>): Relation {
    (ci: nat, b: nat) => ci < |cits| && b < |parsed| && Joins(parsed[b], cits[ci].geneId)
  }

  /** The outcome of the id join. */
  function Pass1(cits: seq<Citation>, parsed: seq<Block>): Claim {
    Greedy(JoinRelation(cits, parsed), |cits|, |parsed|)
  }

  // ---- pass 2 ----

  /** The citations below `n` that pass 1 left unmatched, in order. */
  function Unmatched(joined: map<nat, nat>, n: nat): (r: seq<nat>)
    ensures |r| <= n && Increasing(r) && forall i | 0 <= i < |r| :: r[i] < n && r[i] !in joined
  {
    if n == 0 then []
    else if n - 1 in joined then Unmatched(joined, n - 1)
    else Unmatched(joined, n - 1) + [n - 1]
  }

  /** It lists every citation that pass 1 left, and nothing else. */
  lemma {:induction false} UnmatchedIff(joined: map<nat, nat>, n: nat, ci: nat)
    ensures ci in Unmatched(joined, n) <==> ci < n && ci !in joined
  {
    if n > 0 { UnmatchedIff(joined, n - 1, ci); }
  }

  function Headerless(parsed: seq<Block>, bs: seq<nat>): (r: seq<nat>)
    requires forall i | 0 <= i < |bs| :: bs[i] < |parsed|
    ensures forall i | 0 <= i < |r| :: r[i] in bs && r[i] < |parsed| && parsed[r[i]].short.None?
    ensures Increasing(bs) ==> Increasing(r)
  {
    if bs == [] then []
    else
      var last := bs[|bs| - 1];
      var r := Headerless(parsed, bs[..|bs| - 1]);
      if parsed[last].short.None? then r + [last] else r
  }

  /** It lists every headerless block among `bs`, and nothing else. */
  lemma {:induction false} HeaderlessIff(parsed: seq<Block>, bs: seq<nat>, b: nat)
    requires forall i | 0 <= i < |bs| :: bs[i] < |parsed|
    ensures b in Headerless(parsed, bs) <==> b in bs && b < |parsed| && parsed[b].short.None?
  {
    if bs != [] {
      var front := bs[..|bs| - 1];
      HeaderlessIff(parsed, front, b);
      assert bs == front + [bs[|bs| - 1]];
    }
  }

  /** The blocks pass 2 may hand out. */
  function Candidates(parsed: seq<Block>, c: Claim): seq<nat>
    requires forall i | 0 <= i < |c.unclaimed| :: c.unclaimed[i] < |parsed|
  {
    if c.joined != map[] then Headerless(parsed, c.unclaimed) else c.unclaimed
  }

  /** The blocks pass 2 does hand out: all candidates, or none when their number is not that of the
      unmatched citations. */
  function Fallback(cits: seq<Citation>, parsed: seq<Block>, c: Claim): seq<nat>
    requires forall i | 0 <= i < |c.unclaimed| :: c.unclaimed[i] < |parsed|
  {
    var candidates := Candidates(parsed, c);
    if |candidates| == |Unmatched(c.joined, |cits|)| then candidates else []
  }

  /** The block paired with citation `ci`. */
  ghost function BlockOf(cits: seq<Citation>, parsed: seq<Block>, ci: nat): (r: Option<nat>)
    requires ci < |cits|
    ensures r.Some? ==> r.value < |parsed|
  {
    var c := Pass1(cits, parsed);
    GreedySound(JoinRelation(cits, parsed), |cits|, |parsed|);
    var rank := |Unmatched(c.joined, ci)|;
    if ci in c.joined then Some(c.joined[ci])
    else if rank < |Fallback(cits, parsed, c)| then Some(Fallback(cits, parsed, c)[rank])
    else None
  }

  ghost function BodyOf(parsed: seq<Block>, b: Option<nat>): string
    requires b.Some? ==> b.value < |parsed|
  {
    if b.Some? then parsed[b.value].body else ""
  }

  ghost predicate PairedWith(cits: seq<Citation>, parsed: seq<Block>, ci: nat, p: Paired)
    requires ci < |cits|
  {
    p == Paired(cits[ci].source, cits[ci].geneId, BodyOf(parsed, BlockOf(cits, parsed, ci)))
  }

  // ---- the source's loops ----

  /** The inner scan of pass 1. */
  method ScanWorklist(cits: seq<Citation>, parsed: seq<Block>, ci: nat, unclaimed: seq<nat>) returns (k: Option<nat>)
    requires ci < |cits| && forall i | 0 <= i < |unclaimed| :: unclaimed[i] < |parsed|
    ensures k == FirstRelated(JoinRelation(cits, parsed), unclaimed, ci, 0)
  {
    for i := 0 to |unclaimed|
      invariant forall j | 0 <= j < i :: !Joins(parsed[unclaimed[j]], cits[ci].geneId)
    {
      if Joins(parsed[unclaimed[i]], cits[ci].geneId) { return Some(i); }
    }
    return None;
  }

  /** Pass 1: one scan of the worklist per citation that has a gene id. */
  method IdJoin(cits: seq<Citation>, parsed: seq<Block>) returns (c: Claim)
    ensures c == Pass1(cits, parsed)
  {
    ghost var rel := JoinRelation(cits, parsed);
    c := Claim(map[], Range(|parsed|));
    for ci := 0 to |cits|
      invariant c == Greedy(rel, ci, |parsed|)
    {
      GreedySound(rel, ci, |parsed|);
      if cits[ci].geneId != "" {
        var k := ScanWorklist(cits, parsed, ci, c.unclaimed);
        if k.Some? { c := Claim(c.joined[ci := c.unclaimed[k.value]], Remove(c.unclaimed, k.value)); }
      }
    }
  }

  lemma Pass1InRange(cits: seq<Citation>, parsed: seq<Block>)
    ensures var c := Pass1(cits, parsed);
            && (forall i | 0 <= i < |c.unclaimed| :: c.unclaimed[i] < |parsed|)
            && (forall ci | ci in c.joined :: c.joined[ci] < |parsed|)
  {
    GreedySound(JoinRelation(cits, parsed), |cits|, |parsed|);
    hide JoinRelation;
  }

  lemma FallbackInRange(cits: seq<Citation>, parsed: seq<Block>, c: Claim)
    requires forall i | 0 <= i < |c.unclaimed| :: c.unclaimed[i] < |parsed|
    ensures var f := Fallback(cits, parsed, c); forall i | 0 <= i < |f| :: f[i] < |parsed|
  {
    hide Unmatched;
  }

  /** The body of citation `ci` in terms of what pass 2 has at hand when it gets there. */
  lemma BodyAt(cits: seq<Citation>, parsed: seq<Block>, c: Claim, fallback: seq<nat>, ci: nat)
    requires ci < |cits| && c == Pass1(cits, parsed)
    requires forall i | 0 <= i < |c.unclaimed| :: c.unclaimed[i] < |parsed|
    requires fallback == Fallback(cits, parsed, c)
    ensures ci in c.joined ==> c.joined[ci] < |parsed|
    ensures forall i | 0 <= i < |fallback| :: fallback[i] < |parsed|
    ensures var rank := |Unmatched(c.joined, ci)|;
            BodyOf(parsed, BlockOf(cits, parsed, ci)) ==
            if ci in c.joined then parsed[c.joined[ci]].body
            else if rank < |fallback| then parsed[fallback[rank]].body
            else ""
  {
    Pass1InRange(cits, parsed);
    FallbackInRange(cits, parsed, c);
    hide Pass1, Fallback, Unmatched;
  }

  lemma UnmatchedNone(joined: map<nat, nat>)
    ensures Unmatched(joined, 0) == []
  {
  }

  lemma UnmatchedNext(joined: map<nat, nat>, ci: nat)
    ensures |Unmatched(joined, ci + 1)| == |Unmatched(joined, ci)| + if ci in joined then 0 else 1
  {
  }

  /** Both passes: the fallback blocks are consumed by an iterator as unmatched citations are met. */
  method PairBlocks(cits: seq<Citation>, parsed: seq<Block>) returns (paired: seq<Paired>)
    ensures |paired| == |cits|
    ensures forall ci | 0 <= ci < |cits| :: PairedWith(cits, parsed, ci, paired[ci])
  {
    hide Pass1, Fallback, BlockOf, BodyOf, Unmatched;
    var c := IdJoin(cits, parsed);
    Pass1InRange(cits, parsed);
    assert Unmatched(c.joined, 0) == [] by { UnmatchedNone(c.joined); }
    var fallback := Fallback(cits, parsed, c);
    var next := 0;
    paired := [];
    for ci := 0 to |cits|
      invariant |paired| == ci
      invariant next == if |Unmatched(c.joined, ci)| <= |fallback| then |Unmatched(c.joined, ci)| else |fallback|
      invariant forall i | 0 <= i < ci :: PairedWith(cits, parsed, i, paired[i])
    {
      BodyAt(cits, parsed, c, fallback, ci);
      UnmatchedNext(c.joined, ci);
      var body := "";
      if ci in c.joined {
        body := parsed[c.joined[ci]].body;
      } else if next < |fallback| {
        body := parsed[fallback[next]].body;
        next := next + 1;
      }
      paired := paired + [Paired(cits[ci].source, cits[ci].geneId, body)];
    }
  }
}
