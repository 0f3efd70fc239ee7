/** What the pairing guarantees for every list of blocks and every list of citations. */
module CitationsSafety {
  import opened Counting
  import opened Text
  import opened GreedyMatching
  import opened Citations

  lemma {:induction false} RankGrows(joined: map<nat, nat>, ci: nat, n: nat)
    requires ci < n && ci !in joined
    ensures |Unmatched(joined, ci)| < |Unmatched(joined, n)|
    decreases n
  {
    if ci < n - 1 { RankGrows(joined, ci, n - 1); }
  }

  /** The fallback list consists of distinct blocks, in order, that pass 1 left unclaimed. */
  lemma FallbackFacts(cits: seq<Citation>, parsed: seq<Block>)
    ensures var c := Pass1(cits, parsed);
            && Sound(JoinRelation(cits, parsed), |cits|, |parsed|, c)
            && var f := Fallback(cits, parsed, c);
               && Increasing(f)
               && forall i | 0 <= i < |f| :: f[i] < |parsed| && f[i] in c.unclaimed
  {
    GreedySound(JoinRelation(cits, parsed), |cits|, |parsed|);
  }

  /** What pass 1 joined, what pass 2 hands out and the ranks in pass 2 never coincide. */
  lemma BlocksApart(cits: seq<Citation>, parsed: seq<Block>, c: Claim, f: seq<nat>, ci: nat, cj: nat)
    requires ci < cj < |cits| && Sound(JoinRelation(cits, parsed), |cits|, |parsed|, c)
    requires Increasing(f) && forall i | 0 <= i < |f| :: f[i] in c.unclaimed
    ensures ci in c.joined && cj in c.joined ==> c.joined[ci] != c.joined[cj]
    ensures ci in c.joined ==> c.joined[ci] !in f
    ensures cj in c.joined ==> c.joined[cj] !in f
    ensures var i, j := |Unmatched(c.joined, ci)|, |Unmatched(c.joined, cj)|;
            ci !in c.joined && j < |f| ==> i < j && f[i] != f[j]
  {
    if ci !in c.joined { RankGrows(c.joined, ci, cj); }
  }

  /** No block is paired with two citations, over both passes. */
  lemma PairingInjective(cits: seq<Citation>, parsed: seq<Block>, ci: nat, cj: nat)
    requires ci < cj < |cits|
    requires BlockOf(cits, parsed, ci).Some? && BlockOf(cits, parsed, cj).Some?
    ensures BlockOf(cits, parsed, ci) != BlockOf(cits, parsed, cj)
  {
    FallbackFacts(cits, parsed);
    var c := Pass1(cits, parsed);
    BlocksApart(cits, parsed, c, Fallback(cits, parsed, c), ci, cj);
  }

  /** Citations that fall back are paired in order. */
  lemma FallbackKeepsOrder(cits: seq<Citation>, parsed: seq<Block>, ci: nat, cj: nat)
    requires ci < cj < |cits|
    requires ci !in Pass1(cits, parsed).joined && cj !in Pass1(cits, parsed).joined
    requires BlockOf(cits, parsed, ci).Some? && BlockOf(cits, parsed, cj).Some?
    ensures BlockOf(cits, parsed, ci).value < BlockOf(cits, parsed, cj).value
  {
    FallbackFacts(cits, parsed);
    RankGrows(Pass1(cits, parsed).joined, ci, cj);
  }

  /** A citation the id join missed gets a block iff as many candidate blocks as such citations are
      left; otherwise its body is empty. */
  lemma FailsClosed(cits: seq<Citation>, parsed: seq<Block>, ci: nat)
    requires ci < |cits| && ci !in Pass1(cits, parsed).joined
    ensures var c := Pass1(cits, parsed);
            && (forall i | 0 <= i < |c.unclaimed| :: c.unclaimed[i] < |parsed|)
            && (BlockOf(cits, parsed, ci).Some? <==>
                  |Candidates(parsed, c)| == |Unmatched(c.joined, |cits|)|)
            && (BlockOf(cits, parsed, ci).None? ==> BodyOf(parsed, BlockOf(cits, parsed, ci)) == "")
  {
    FallbackFacts(cits, parsed);
    RankGrows(Pass1(cits, parsed).joined, ci, |cits|);
  }

  // ---- headered blocks in the fallback ----

  lemma {:induction false} NothingJoined(rel: Relation, n: nat, m: nat)
    ensures Greedy(rel, n, m).joined == map[] ==> Greedy(rel, n, m) == Claim(map[], Range(m))
  {
    if n > 0 {
      var c := Greedy(rel, n - 1, m);
      match FirstRelated(rel, c.unclaimed, n - 1, 0)
      case None => NothingJoined(rel, n - 1, m);
      case Some(_) => assert n - 1 in Greedy(rel, n, m).joined;
    }
  }

  lemma {:induction false} AllUnmatched(n: nat)
    ensures |Unmatched(map[], n)| == n
  {
    if n > 0 { AllUnmatched(n - 1); }
  }

  ghost predicate MispairsHeaderAt(cits: seq<Citation>, parsed: seq<Block>, ci: nat)
    requires ci < |cits|
  {
    var b := BlockOf(cits, parsed, ci);
    b.Some? && parsed[b.value].short.Some? && !Joins(parsed[b.value], cits[ci].geneId)
  }

  /** A headered block goes to a citation whose id it does not begin. */
  ghost predicate MispairsHeader(cits: seq<Citation>, parsed: seq<Block>) {
    exists ci: nat | ci < |cits| :: MispairsHeaderAt(cits, parsed, ci)
  }

  /** Once any id join succeeded, no headered block goes to a citation it does not begin. */
  lemma JoinedRunsNeverMispair(cits: seq<Citation>, parsed: seq<Block>, ci: nat)
    requires ci < |cits| && Pass1(cits, parsed).joined != map[]
    ensures !MispairsHeaderAt(cits, parsed, ci)
  {
    FallbackFacts(cits, parsed);
    var c := Pass1(cits, parsed);
    if ci in c.joined { assert JoinRelation(cits, parsed)(ci, c.joined[ci]); }
  }

  /** When no id joined, blocks and citations are paired index by index, if there are as many. */
  lemma UnjoinedPairsByIndex(cits: seq<Citation>, parsed: seq<Block>, ci: nat)
    requires ci < |cits| && Pass1(cits, parsed).joined == map[]
    ensures BlockOf(cits, parsed, ci) == if |parsed| == |cits| then Some(ci) else None
    ensures ci < |parsed| ==> !Joins(parsed[ci], cits[ci].geneId)
  {
    var rel, c := JoinRelation(cits, parsed), Pass1(cits, parsed);
    FallbackFacts(cits, parsed);
    NothingJoined(rel, |cits|, |parsed|);
    AllUnmatched(|cits|);
    AllUnmatched(ci);
    if ci < |parsed| { assert ci !in c.joined && !rel(ci, c.unclaimed[ci]); }
  }

  /** No header begins any citation's id. */
  ghost predicate NoneJoins(cits: seq<Citation>, parsed: seq<Block>) {
    forall ci, b | 0 <= ci < |cits| && 0 <= b < |parsed| :: !Joins(parsed[b], cits[ci].geneId)
  }

  lemma NothingJoinedIff(cits: seq<Citation>, parsed: seq<Block>)
    ensures Pass1(cits, parsed).joined == map[] <==> NoneJoins(cits, parsed)
  {
    var rel, joined := JoinRelation(cits, parsed), Pass1(cits, parsed).joined;
    GreedyIsMaximalMatching(rel, |cits|, |parsed|);
    hide Pass1, Joins;
    if joined == map[] {
      forall ci, b | 0 <= ci < |cits| && 0 <= b < |parsed| ensures !Joins(parsed[b], cits[ci].geneId) {
        assert !rel(ci, b);
      }
    } else {
      var ci :| ci in joined;
      assert rel(ci, joined[ci]);
    }
  }

  /** A header is mispaired exactly when no header begins any citation's id, there are as many blocks as citations,
      and some block has a header. */
  lemma MispairsHeaderIff(cits: seq<Citation>, parsed: seq<Block>)
    ensures MispairsHeader(cits, parsed) <==>
            && NoneJoins(cits, parsed) && |parsed| == |cits|
            && exists b | 0 <= b < |parsed| :: parsed[b].short.Some?
  {
    NothingJoinedIff(cits, parsed);
    hide BlockOf, Pass1, Joins;
    if Pass1(cits, parsed).joined == map[] {
      forall ci: nat | ci < |cits|
        ensures MispairsHeaderAt(cits, parsed, ci) <==> |parsed| == |cits| && parsed[ci].short.Some?
      {
        UnjoinedPairsByIndex(cits, parsed, ci);
      }
      if |parsed| == |cits| && exists b | 0 <= b < |parsed| :: parsed[b].short.Some? {
        var b: nat :| b < |parsed| && parsed[b].short.Some?;
        assert MispairsHeaderAt(cits, parsed, b);
      }
    } else {
      forall ci: nat | ci < |cits| ensures !MispairsHeaderAt(cits, parsed, ci) {
        JoinedRunsNeverMispair(cits, parsed, ci);
      }
    }
  }

  lemma HeaderCanBeMispaired()
    ensures MispairsHeader([Citation("a.py", "aaaa1111")], [Block(Some("bbbb2222"), "text of b")])
  {
    var cits, parsed := [Citation("a.py", "aaaa1111")], [Block(Some("bbbb2222"), "text of b")];
    assert "bbbb2222"[0] != "aaaa1111"[0];
    assert parsed[0].short.Some?;
    MispairsHeaderIff(cits, parsed);
  }

  // ---- recovery of the true pairing ----

  /** `place[d]` is the block of document `d`. Each document's header begins its own gene id and no
      other document's; every other block is headerless. */
  ghost predicate Delivered(ids: seq<string>, place: seq<nat>, parsed: seq<Block>) {
    && |place| == |ids|
    && (forall d | 0 <= d < |ids| :: place[d] < |parsed| && parsed[place[d]].short.Some?)
    && (forall d, e | 0 <= d < |ids| && 0 <= e < |ids| :: Joins(parsed[place[d]], ids[e]) <==> d == e)
    && (forall b | 0 <= b < |parsed| && parsed[b].short.Some? :: b in place)
  }

  /** The citations name documents, none twice: any sub-selection of them in any order. */
  ghost predicate Cites(cits: seq<Citation>, ids: seq<string>, pick: seq<nat>) {
    && |pick| == |cits|
    && (forall ci | 0 <= ci < |cits| :: pick[ci] < |ids| && cits[ci].geneId == ids[pick[ci]])
    && (forall ci, cj | 0 <= ci < cj < |cits| :: pick[ci] != pick[cj])
  }

  /** Whatever citations were dropped and whatever headerless blocks were interleaved, every remaining
      citation is joined to exactly its own block. */
  lemma DroppedCitationsDoNotShift(cits: seq<Citation>, ids: seq<string>, pick: seq<nat>,
                                   place: seq<nat>, parsed: seq<Block>)
    requires Delivered(ids, place, parsed) && Cites(cits, ids, pick)
    ensures forall ci: nat | ci < |cits| :: BlockOf(cits, parsed, ci) == Some(place[pick[ci]])
  {
    var rel := JoinRelation(cits, parsed);
    var own := (ci: nat) => if ci < |cits| then place[pick[ci]] else 0;
    forall ci: nat, b: nat | ci < |cits| && b < |parsed| ensures rel(ci, b) <==> b == own(ci) {
      assert Joins(parsed[place[pick[ci]]], ids[pick[ci]]);
      if rel(ci, b) {
        var d :| 0 <= d < |ids| && place[d] == b;
        assert Joins(parsed[place[d]], ids[pick[ci]]);
      }
    }
    forall ci: nat, cj: nat | ci < cj < |cits| ensures own(ci) != own(cj) {
      assert Joins(parsed[place[pick[ci]]], ids[pick[ci]]) && !Joins(parsed[place[pick[cj]]], ids[pick[ci]]);
    }
    GreedyFindsOwn(rel, |cits|, |parsed|, own);
  }
}
