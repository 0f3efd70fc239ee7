/** Okapi BM25 with idf floored at zero. `ln` stands for the natural logarithm. */
module Bm25 {
  import opened Counting
  import opened Text
  import opened Ordering
  import opened Ranking

  type Token = string
  type Doc = seq<Token>

  ghost predicate LogLike(ln: real -> real) {
    ln(1.0) == 0.0 && forall x, y | 0.0 < x < y :: ln(x) < ln(y)
  }

  // ---- reference definitions ----

  function Occurrences(d: Doc, t: Token): nat {
    if d == [] then 0 else Occurrences(d[..|d| - 1], t) + if d[|d| - 1] == t then 1 else 0
  }

  /** The number of documents that contain `t`. */
  function DocFreq(corpus: seq<Doc>, t: Token): nat {
    if corpus == [] then 0
    else DocFreq(corpus[..|corpus| - 1], t) + if t in corpus[|corpus| - 1] then 1 else 0
  }

  function TotalLength(corpus: seq<Doc>): nat {
    if corpus == [] then 0 else TotalLength(corpus[..|corpus| - 1]) + |corpus[|corpus| - 1]|
  }

  function AvgLength(corpus: seq<Doc>): real {
    if corpus == [] then 0.0 else TotalLength(corpus) as real / |corpus| as real
  }

  /** The argument of the logarithm for a token found in `df` of `n` documents. */
  function OddsPlusOne(n: nat, df: nat): real {
    (n as real - df as real + 0.5) / (df as real + 0.5) + 1.0
  }

  function Max0(x: real): real { if x > 0.0 then x else 0.0 }

  lemma {:induction false} OccursIff(d: Doc, t: Token)
    ensures Occurrences(d, t) > 0 <==> t in d
    ensures Occurrences(d, t) <= |d|
  {
    if d != [] { OccursIff(d[..|d| - 1], t); }
  }

  /** Occurrences are the token's multiplicity in the document. */
  lemma {:induction false} OccurrencesIs(d: Doc, t: Token)
    ensures Occurrences(d, t) == multiset(d)[t]
  {
    if d != [] {
      OccurrencesIs(d[..|d| - 1], t);
      assert d == d[..|d| - 1] + [d[|d| - 1]];
    }
  }

  /** The document frequency counts the documents that contain the token. */
  lemma {:induction false} DocFreqIs(corpus: seq<Doc>, t: Token)
    ensures DocFreq(corpus, t) == |set i | 0 <= i < |corpus| && t in corpus[i]|
  {
    var S := set i | 0 <= i < |corpus| && t in corpus[i];
    if corpus != [] {
      var last := |corpus| - 1;
      DocFreqIs(corpus[..last], t);
      var T := set i | 0 <= i < |corpus[..last]| && t in corpus[..last][i];
      assert S == if t in corpus[last] then T + {last} else T;
    }
  }

  lemma {:induction false} DocFreqBounds(corpus: seq<Doc>, t: Token)
    ensures DocFreq(corpus, t) <= |corpus|
    ensures DocFreq(corpus, t) > 0 <==> exists i | 0 <= i < |corpus| :: t in corpus[i]
  {
    if corpus != [] {
      var n := |corpus| - 1;
      DocFreqBounds(corpus[..n], t);
      if exists i | 0 <= i < |corpus| :: t in corpus[i] {
        var i :| 0 <= i < |corpus| && t in corpus[i];
        assert i < n ==> t in corpus[..n][i];
      }
    }
  }

  lemma {:induction false} TotalLengthPositive(corpus: seq<Doc>, i: nat)
    requires i < |corpus| && corpus[i] != []
    ensures TotalLength(corpus) > 0
  {
    if i < |corpus| - 1 { TotalLengthPositive(corpus[..|corpus| - 1], i); }
  }

  // ---- scoring ----

  function Denom(k1: real, b: real, dl: nat, avgdl: real): real {
    if avgdl != 0.0 then k1 * (1.0 - b + b * dl as real / avgdl) else k1
  }

  /** What one matched token adds to a document's score. */
  function Term(k1: real, idf: real, ft: nat, denom: real): real
    requires ft as real + denom != 0.0
  {
    idf * (ft as real * (k1 + 1.0)) / (ft as real + denom)
  }

  lemma FractionInside(f: real, d: real)
    requires f > 0.0 && d > 0.0
    ensures 0.0 < f / (f + d) < 1.0
  {
  }

  lemma Scaled(share: real, c: real)
    requires 0.0 < share < 1.0 && c > 0.0
    ensures 0.0 < c * share < c
  {
  }

  lemma TermBounds(k1: real, idf: real, ft: nat, denom: real)
    requires k1 > 0.0 && idf > 0.0 && ft > 0 && denom > 0.0
    ensures 0.0 < Term(k1, idf, ft, denom) < (k1 + 1.0) * idf
  {
    var f, c := ft as real, (k1 + 1.0) * idf;
    var share := f / (f + denom);
    FractionInside(f, denom);
    assert idf * (f * (k1 + 1.0)) == c * f;
    assert c * f / (f + denom) == c * share;
    Scaled(share, c);
  }

  lemma Scale2(x: real, y: real)
    requires x > 0.0 && y > 0.0
    ensures x * y > 0.0
  {
  }

  lemma DenomPositive(k1: real, b: real, dl: nat, avgdl: real)
    requires k1 > 0.0 && 0.0 <= b <= 1.0 && dl > 0 && avgdl > 0.0
    ensures Denom(k1, b, dl, avgdl) > 0.0
  {
    var ratio := dl as real / avgdl;
    assert ratio > 0.0;
    assert b * dl as real / avgdl == b * ratio;
    assert b < 1.0 ==> b * ratio >= 0.0;
    Scale2(k1, 1.0 - b + b * ratio);
  }

  lemma RatioPositive(a: nat, c: nat)
    requires a > 0 && c > 0
    ensures a as real / c as real > 0.0
  {
  }

  lemma MeanBackAgain(b: real, avgdl: real)
    requires avgdl > 0.0
    ensures 1.0 - b + b * avgdl / avgdl == 1.0
  {
    assert b * avgdl / avgdl == b;
  }

  lemma Quotients(x: real, y: real, c: real)
    requires c > 0.0
    ensures x < y ==> x / c < y / c
    ensures x <= y ==> x / c <= y / c
  {
  }

  lemma Products(x: real, y: real, c: real)
    requires c > 0.0
    ensures x < y ==> c * x < c * y
    ensures x <= y ==> c * x <= c * y
  {
  }

  /** A longer document has the larger divisor unless lengths are not normalised at all. */
  lemma DenomGrows(k1: real, b: real, short: nat, long: nat, avgdl: real)
    requires k1 > 0.0 && 0.0 <= b <= 1.0 && avgdl > 0.0 && short <= long
    ensures Denom(k1, b, short, avgdl) <= Denom(k1, b, long, avgdl)
    ensures Denom(k1, b, short, avgdl) < Denom(k1, b, long, avgdl) <==> b > 0.0 && short < long
  {
    if b > 0.0 {
      Products(short as real, long as real, b);
      Quotients(b * short as real, b * long as real, avgdl);
      Products(1.0 - b + b * short as real / avgdl, 1.0 - b + b * long as real / avgdl, k1);
    }
  }

  lemma CrossDivided(f: real, d: real, g: real, e: real)
    requires f > 0.0 && d > 0.0 && g > 0.0 && e > 0.0
    ensures g * d < f * e ==> g / (g + e) < f / (f + d)
    ensures g * d == f * e ==> g / (g + e) == f / (f + d)
  {
    var u, v := g / (g + e), f / (f + d);
    assert u * (g + e) == g && v * (f + d) == f;
    var m := (g + e) * (f + d);
    assert u * m == g * f + g * d && v * m == f * g + f * e;
    assert m > 0.0;
    if u > v { Products(v, u, m); }
    if u < v { Products(u, v, m); }
  }

  lemma NoLoss(x: real, y: real)
    requires x >= 0.0 && y > 0.0
    ensures x * y >= 0.0 && (x * y > 0.0 <==> x > 0.0)
  {
  }

  lemma CrossGrows(f: real, d: real, g: real, e: real)
    requires f >= g > 0.0 && 0.0 < d <= e
    ensures g * d <= f * e && (g * d < f * e <==> f > g || d < e)
  {
    NoLoss(f - g, e);
    NoLoss(e - d, g);
    assert f * e - g * d == (f - g) * e + (e - d) * g;
  }

  lemma ShareGrows(f: real, d: real, g: real, e: real)
    requires f >= g > 0.0 && 0.0 < d <= e
    ensures g / (g + e) <= f / (f + d)
    ensures g / (g + e) < f / (f + d) <==> f > g || d < e
  {
    CrossGrows(f, d, g, e);
    CrossDivided(f, d, g, e);
  }

  lemma TermIsShare(k1: real, idf: real, ft: nat, denom: real)
    requires ft > 0 && denom > 0.0
    ensures Term(k1, idf, ft, denom) == (k1 + 1.0) * idf * (ft as real / (ft as real + denom))
  {
    var f, c := ft as real, (k1 + 1.0) * idf;
    assert idf * (f * (k1 + 1.0)) == c * f;
    assert c * f / (f + denom) == c * (f / (f + denom));
  }

  /** A token adds more the more often it occurs and the smaller the divisor's other part. */
  lemma TermGrows(k1: real, idf: real, ft: nat, denom: real, gt: nat, enom: real)
    requires k1 > 0.0 && idf > 0.0 && ft >= gt > 0 && 0.0 < denom <= enom
    ensures Term(k1, idf, gt, enom) <= Term(k1, idf, ft, denom)
    ensures Term(k1, idf, gt, enom) < Term(k1, idf, ft, denom) <==> ft > gt || denom < enom
  {
    TermIsShare(k1, idf, ft, denom);
    TermIsShare(k1, idf, gt, enom);
    hide Term;
    ShareGrows(ft as real, denom, gt as real, enom);
    Scale2(k1 + 1.0, idf);
    var u, v := gt as real / (gt as real + enom), ft as real / (ft as real + denom);
    Products(u, v, (k1 + 1.0) * idf);
    Products(v, u, (k1 + 1.0) * idf);
  }

  /** The gain that Okapi BM25 defines for a token of the query in document `d`, written out: the logarithmic
      rarity of the token times its saturated, length-normalised frequency. */
  ghost function Gain(corpus: seq<Doc>, k1: real, b: real, ln: real -> real, d: Doc, t: Token): real {
    var n, df, occ := |corpus| as real, DocFreq(corpus, t) as real, Occurrences(d, t) as real;
    if t !in d || AvgLength(corpus) == 0.0 then 0.0
    else
      var divisor := occ + k1 * (1.0 - b + b * |d| as real / AvgLength(corpus));
      if divisor == 0.0 then 0.0 else ln((n - df + 0.5) / (df + 0.5) + 1.0) * (occ * (k1 + 1.0)) / divisor
  }

  /** The sum of the gains over the query's tokens. */
  ghost function Okapi(corpus: seq<Doc>, k1: real, b: real, ln: real -> real, d: Doc, qs: seq<Token>): real {
    if qs == [] then 0.0
    else Okapi(corpus, k1, b, ln, d, qs[..|qs| - 1]) + Gain(corpus, k1, b, ln, d, qs[|qs| - 1])
  }

  lemma TermIsGain(corpus: seq<Doc>, k1: real, b: real, ln: real -> real, d: Doc, t: Token)
    requires t in d && AvgLength(corpus) > 0.0 && Occurrences(d, t) > 0
    requires Denom(k1, b, |d|, AvgLength(corpus)) > 0.0
    ensures Term(k1, ln(OddsPlusOne(|corpus|, DocFreq(corpus, t))), Occurrences(d, t),
                 Denom(k1, b, |d|, AvgLength(corpus))) == Gain(corpus, k1, b, ln, d, t)
  {
    hide AvgLength, DocFreq, Occurrences;
  }

  lemma OneLess(s: seq<Token>, k: nat)
    requires k < |s|
    ensures multiset(s[..k] + s[k + 1..]) == multiset(s) - multiset{s[k]}
  {
    assert s == s[..k] + [s[k]] + s[k + 1..];
  }

  /** Where the last token of one list is in the other, and that taking both out leaves the same tokens. */
  lemma LastElsewhere(qs: seq<Token>, rs: seq<Token>) returns (k: nat)
    requires qs != [] && multiset(qs) == multiset(rs)
    ensures k < |rs| && rs[k] == qs[|qs| - 1]
    ensures multiset(qs[..|qs| - 1]) == multiset(rs[..k] + rs[k + 1..])
  {
    var last := |qs| - 1;
    assert qs[last] in multiset(rs);
    k :| 0 <= k < |rs| && rs[k] == qs[last];
    OneLess(rs, k);
    OneLess(qs, last);
    assert qs[..last] + qs[last + 1..] == qs[..last];
  }

  method CountTokens(d: Doc) returns (f: map<Token, nat>)
    ensures forall t :: Tally(f, t) == Occurrences(d, t)
    ensures forall t | t in f :: f[t] > 0
  {
    f := map[];
    for i := 0 to |d|
      invariant forall t :: Tally(f, t) == Occurrences(d[..i], t)
      invariant forall t | t in f :: f[t] > 0
    {
      assert d[..i + 1][..i] == d[..i];
      f := f[d[i] := Tally(f, d[i]) + 1];
    }
    assert d[..|d|] == d;
  }

  /** `for t in f: df[t] += 1` */
  method AddDocument(df: map<Token, nat>, f: map<Token, nat>, ghost d: Doc) returns (df': map<Token, nat>)
    requires forall t :: Tally(f, t) == Occurrences(d, t)
    requires forall t | t in f :: f[t] > 0
    requires forall t | t in df :: df[t] > 0
    ensures forall t :: Tally(df', t) == Tally(df, t) + if t in d then 1 else 0
    ensures forall t | t in df' :: df'[t] > 0
  {
    forall t ensures t in f <==> t in d { OccursIff(d, t); }
    df' := df;
    var left := f.Keys;
    while left != {}
      invariant left <= f.Keys
      invariant forall t :: Tally(df', t) == Tally(df, t) + if t in f && t !in left then 1 else 0
      invariant forall t | t in df' :: df'[t] > 0
      decreases left
    {
      var t :| t in left;
      df' := df'[t := Tally(df', t) + 1];
      left := left - {t};
    }
  }

  method Enumerate(q: set<Token>) returns (s: seq<Token>)
    ensures Distinct(s) && forall t :: t in s <==> t in q
  {
    s := [];
    var left := q;
    while left != {}
      invariant left <= q && Distinct(s) && forall t :: t in s <==> t in q && t !in left
      decreases left
    {
      var t :| t in left;
      s, left := s + [t], left - {t};
    }
  }

  class BM25 {
    const k1: real
    const b: real
    const ln: real -> real
    ghost const corpus: seq<Doc>
    const n: nat
    const dl: seq<nat>
    const avgdl: real
    const tf: seq<map<Token, nat>>
    const idf: map<Token, real>

    /** The tables are exact: term and document frequencies, lengths, and the floored idf. */
    ghost predicate Valid() {
      && n == |corpus| == |dl| == |tf|
      && avgdl == AvgLength(corpus)
      && (forall i | 0 <= i < n :: dl[i] == |corpus[i]|)
      && (forall i, t | 0 <= i < n :: Tally(tf[i], t) == Occurrences(corpus[i], t))
      && (forall t :: t in idf <==> DocFreq(corpus, t) > 0)
      && (forall t | t in idf :: idf[t] == Max0(ln(OddsPlusOne(n, DocFreq(corpus, t)))))
    }

    constructor (corpus: seq<Doc>, k1: real, b: real, ln: real -> real)
      ensures Valid() && this.corpus == corpus && this.k1 == k1 && this.b == b && this.ln == ln
    {
      var tf, dl, df, total := [], [], map[], 0;
      for i := 0 to |corpus|
        invariant |tf| == |dl| == i && total == TotalLength(corpus[..i])
        invariant forall j | 0 <= j < i :: dl[j] == |corpus[j]|
        invariant forall j, t | 0 <= j < i :: Tally(tf[j], t) == Occurrences(corpus[j], t)
        invariant forall t :: Tally(df, t) == DocFreq(corpus[..i], t)
        invariant forall t | t in df :: df[t] > 0
      {
        assert corpus[..i + 1][..i] == corpus[..i];
        var f := CountTokens(corpus[i]);
        df := AddDocument(df, f, corpus[i]);
        tf, dl, total := tf + [f], dl + [|corpus[i]|], total + |corpus[i]|;
      }
      assert corpus[..|corpus|] == corpus;
      this.corpus, this.k1, this.b, this.ln := corpus, k1, b, ln;
      this.n, this.dl, this.tf := |corpus|, dl, tf;
      this.avgdl := if |corpus| > 0 then total as real / |corpus| as real else 0.0;
      this.idf := map t | t in df :: Max0(ln(OddsPlusOne(|corpus|, df[t])));
      assert forall t :: t in df <==> Tally(df, t) > 0;
    }

    /** The divisor for token `t` in document `i`. */
    ghost function Divisor(i: nat, t: Token): real
      requires Valid() && i < n
    {
      Tally(tf[i], t) as real + Denom(k1, b, dl[i], avgdl)
    }

    /** What token `t` adds to the score of document `i`. */
    ghost function Part(i: nat, t: Token): real
      requires Valid() && i < n
    {
      if Tally(tf[i], t) > 0 && t in idf && Divisor(i, t) != 0.0
      then Term(k1, idf[t], Tally(tf[i], t), Denom(k1, b, dl[i], avgdl)) else 0.0
    }

    /** The score of document `i`, accumulated over the query tokens in the order `qs`. */
    ghost function Score(i: nat, qs: seq<Token>): real
      requires Valid() && i < n
    {
      if qs == [] then 0.0 else Score(i, qs[..|qs| - 1]) + Part(i, qs[|qs| - 1])
    }

    lemma HasIdf(i: nat, t: Token)
      requires Valid() && i < n && Tally(tf[i], t) > 0
      ensures t in idf && t in corpus[i]
    {
      OccursIff(corpus[i], t);
      DocFreqBounds(corpus, t);
    }

    /** A token that occurs in a document has a table entry and a positive denominator. */
    lemma MatchedTerm(i: nat, t: Token)
      requires Valid() && i < n && k1 > 0.0 && 0.0 <= b <= 1.0 && Tally(tf[i], t) > 0
      ensures t in idf && Denom(k1, b, dl[i], avgdl) > 0.0
    {
      OccursIff(corpus[i], t);
      DocFreqBounds(corpus, t);
      TotalLengthPositive(corpus, i);
      assert avgdl > 0.0 by { RatioPositive(TotalLength(corpus), n); }
      DenomPositive(k1, b, dl[i], avgdl);
    }

    /** The floor never binds: every idf is the logarithm itself and is positive. */
    lemma FloorNeverBinds(t: Token)
      requires Valid() && LogLike(ln) && t in idf
      ensures idf[t] == ln(OddsPlusOne(n, DocFreq(corpus, t))) && idf[t] > 0.0
    {
      DocFreqBounds(corpus, t);
      var df := DocFreq(corpus, t);
      assert n as real - df as real + 0.5 > 0.0;
      assert (n as real - df as real + 0.5) / (df as real + 0.5) > 0.0;
      assert OddsPlusOne(n, df) > 1.0;
    }

    lemma PartByCorpus(i: nat, t: Token)
      requires Valid() && i < n && k1 > 0.0 && 0.0 <= b <= 1.0 && LogLike(ln)
      ensures t !in corpus[i] ==> Part(i, t) == 0.0
      ensures t in corpus[i] ==>
                var occ, denom := Occurrences(corpus[i], t), Denom(k1, b, |corpus[i]|, AvgLength(corpus));
                && AvgLength(corpus) > 0.0 && denom > 0.0 && occ > 0
                && Part(i, t) == Term(k1, ln(OddsPlusOne(|corpus|, DocFreq(corpus, t))), occ, denom)
    {
      hide Term, Denom, LogLike, OddsPlusOne;
      OccursIff(corpus[i], t);
      if t in corpus[i] {
        MatchedTerm(i, t);
        TotalLengthPositive(corpus, i);
        RatioPositive(TotalLength(corpus), n);
        FloorNeverBinds(t);
      }
    }

    lemma PartIsGain(i: nat, t: Token)
      requires Valid() && i < n && k1 > 0.0 && 0.0 <= b <= 1.0 && LogLike(ln)
      ensures Part(i, t) == Gain(corpus, k1, b, ln, corpus[i], t)
    {
      PartByCorpus(i, t);
      if t in corpus[i] {
        TermIsGain(corpus, k1, b, ln, corpus[i], t);
      }
      hide Part, LogLike, Term, Denom, OddsPlusOne, AvgLength, DocFreq, Occurrences;
    }

    /** The score is the sum of the gains, in terms of the corpus and the two parameters alone. */
    lemma {:induction false} ScoreIsOkapi(i: nat, qs: seq<Token>)
      requires Valid() && i < n && k1 > 0.0 && 0.0 <= b <= 1.0 && LogLike(ln)
      ensures Score(i, qs) == Okapi(corpus, k1, b, ln, corpus[i], qs)
    {
      if qs != [] {
        ScoreIsOkapi(i, qs[..|qs| - 1]);
        PartIsGain(i, qs[|qs| - 1]);
        hide Part, Gain, LogLike;
      }
    }

    /** `scores`: the accumulation visits the query's token set in some order `qs`. No result stands for
        the division by zero that Python would raise; with `k1` and `b` in range there is none. */
    method Scores(q: set<Token>) returns (out: Option<seq<real>>, ghost qs: seq<Token>)
      requires Valid()
      ensures Distinct(qs) && forall t :: t in qs <==> t in q
      ensures k1 > 0.0 && 0.0 <= b <= 1.0 ==> out.Some?
      ensures out.Some? ==> |out.value| == n && forall i | 0 <= i < n :: out.value[i] == Score(i, qs)
      ensures k1 > 0.0 && 0.0 <= b <= 1.0 && LogLike(ln) ==>
                forall i | 0 <= i < n :: out.value[i] == Okapi(corpus, k1, b, ln, corpus[i], qs)
      ensures out.None? <==> exists i, t | 0 <= i < n && t in q :: Tally(tf[i], t) > 0 && Divisor(i, t) == 0.0
    {
      hide LogLike, Okapi;
      var order := Enumerate(q);
      qs := order;
      var scores := [];
      for i := 0 to n
        invariant |scores| == i && forall j | 0 <= j < i :: scores[j] == Score(j, order)
        invariant forall k, t | 0 <= k < i && t in order :: Tally(tf[k], t) == 0 || Divisor(k, t) != 0.0
      {
        var denom := Denom(k1, b, dl[i], avgdl);
        var s := 0.0;
        for j := 0 to |order|
          invariant s == Score(i, order[..j])
          invariant forall k | 0 <= k < j :: Tally(tf[i], order[k]) == 0 || Divisor(i, order[k]) != 0.0
        {
          assert order[..j + 1][..j] == order[..j];
          var t := order[j];
          var ft := Tally(tf[i], t);
          if ft != 0 {
            HasIdf(i, t);
            if k1 > 0.0 && 0.0 <= b <= 1.0 { MatchedTerm(i, t); }
            if ft as real + denom == 0.0 {
              assert t in q && Divisor(i, t) == 0.0;
              return None, order;
            }
            s := s + Term(k1, idf[t], ft, denom);
          }
        }
        assert order[..|order|] == order;
        scores := scores + [s];
      }
      out := Some(scores);
      if k1 > 0.0 && 0.0 <= b <= 1.0 && LogLike(ln) {
        forall i: nat | i < n ensures scores[i] == Okapi(corpus, k1, b, ln, corpus[i], qs) { ScoreIsOkapi(i, qs); }
      }
    }

    /** (k1 + 1) times the idf of a token that occurs in document `i`. */
    ghost function Cap(i: nat, t: Token): real
      requires Valid() && i < n
    {
      if t in corpus[i] && t in idf then (k1 + 1.0) * idf[t] else 0.0
    }

    ghost function Ceiling(i: nat, qs: seq<Token>): real
      requires Valid() && i < n
    {
      if qs == [] then 0.0 else Ceiling(i, qs[..|qs| - 1]) + Cap(i, qs[|qs| - 1])
    }

    lemma PartBounds(i: nat, t: Token)
      requires Valid() && i < n && k1 > 0.0 && 0.0 <= b <= 1.0 && LogLike(ln)
      ensures if t in corpus[i] then 0.0 < Part(i, t) < Cap(i, t) else Part(i, t) == Cap(i, t) == 0.0
    {
      hide Term, Denom, LogLike, OddsPlusOne;
      OccursIff(corpus[i], t);
      if t in corpus[i] {
        MatchedTerm(i, t);
        FloorNeverBinds(t);
        TermBounds(k1, idf[t], Tally(tf[i], t), Denom(k1, b, dl[i], avgdl));
      }
    }

    /** A document scores above zero iff it shares a token with the query, and then stays strictly
        below (k1 + 1) times the idf sum of the shared tokens. */
    lemma {:induction false} ScoreBounds(i: nat, qs: seq<Token>)
      requires Valid() && i < n && k1 > 0.0 && 0.0 <= b <= 1.0 && LogLike(ln)
      ensures Score(i, qs) >= 0.0
      ensures Score(i, qs) > 0.0 <==> exists t | t in qs :: t in corpus[i]
      ensures if Score(i, qs) > 0.0 then Score(i, qs) < Ceiling(i, qs) else Ceiling(i, qs) == 0.0
    {
      if qs != [] {
        hide Part, Cap, LogLike;
        var t, rest := qs[|qs| - 1], qs[..|qs| - 1];
        ScoreBounds(i, rest);
        PartBounds(i, t);
        assert qs == rest + [t];
      }
    }

    /** In a document of average length the divisor is the number of occurrences plus k1. */
    lemma AverageLengthDivisor(i: nat, t: Token)
      requires Valid() && i < n && |corpus[i]| as real == AvgLength(corpus)
      ensures Divisor(i, t) == Occurrences(corpus[i], t) as real + k1
    {
      if avgdl > 0.0 { MeanBackAgain(b, avgdl); }
    }

    ghost predicate GainsMore(i: nat, j: nat, t: Token)
      requires i < |corpus| && j < |corpus|
    {
      || Occurrences(corpus[i], t) > Occurrences(corpus[j], t)
      || (t in corpus[j] && b > 0.0 && |corpus[i]| < |corpus[j]|)
    }

    /** Of two documents, `i` being no longer and containing the token no less often, `i` gains no less by it, and
        more iff it contains the token more often, or is shorter and length counts. */
    lemma PartGrows(i: nat, j: nat, t: Token)
      requires Valid() && i < n && j < n && k1 > 0.0 && 0.0 <= b <= 1.0 && LogLike(ln)
      requires |corpus[i]| <= |corpus[j]| && Occurrences(corpus[i], t) >= Occurrences(corpus[j], t)
      ensures Part(j, t) <= Part(i, t)
      ensures Part(j, t) < Part(i, t) <==> GainsMore(i, j, t)
    {
      hide LogLike, Denom, Term;
      PartBounds(i, t);
      PartBounds(j, t);
      OccursIff(corpus[i], t);
      OccursIff(corpus[j], t);
      if t in corpus[j] {
        MatchedTerm(i, t);
        MatchedTerm(j, t);
        TotalLengthPositive(corpus, i);
        RatioPositive(TotalLength(corpus), n);
        FloorNeverBinds(t);
        DenomGrows(k1, b, dl[i], dl[j], avgdl);
        TermGrows(k1, idf[t], Tally(tf[i], t), Denom(k1, b, dl[i], avgdl),
                  Tally(tf[j], t), Denom(k1, b, dl[j], avgdl));
      }
    }

    /** Of two documents, `i` being no longer and containing each query token no less often, `i` scores no less; it
        scores more iff it contains some query token more often, or it is shorter, length counts (b > 0) and
        some query token is shared. So with b = 0 length does not matter. */
    lemma {:induction false} ScoreGrows(i: nat, j: nat, qs: seq<Token>)
      requires Valid() && i < n && j < n && k1 > 0.0 && 0.0 <= b <= 1.0 && LogLike(ln)
      requires |corpus[i]| <= |corpus[j]|
      requires forall t | t in qs :: Occurrences(corpus[i], t) >= Occurrences(corpus[j], t)
      ensures Score(j, qs) <= Score(i, qs)
      ensures Score(j, qs) < Score(i, qs) <==>
              exists t | t in qs ::
                || Occurrences(corpus[i], t) > Occurrences(corpus[j], t)
                || (t in corpus[j] && b > 0.0 && |corpus[i]| < |corpus[j]|)
    {
      if qs != [] {
        var rest, t := qs[..|qs| - 1], qs[|qs| - 1];
        ScoreGrows(i, j, rest);
        PartGrows(i, j, t);
        assert forall x :: x in qs <==> x in rest || x == t by { assert qs == rest + [t]; }
        hide Part, LogLike, Occurrences;
      }
    }

    /** With b = 0 two documents with the same occurrences of every query token score the same, whatever their
        lengths. */
    lemma {:induction false} LengthIgnoredWithoutB(i: nat, j: nat, qs: seq<Token>)
      requires Valid() && i < n && j < n && k1 > 0.0 && b == 0.0 && LogLike(ln)
      requires forall t | t in qs :: Occurrences(corpus[i], t) == Occurrences(corpus[j], t)
      ensures Score(i, qs) == Score(j, qs)
    {
      if |corpus[i]| <= |corpus[j]| { ScoreGrows(i, j, qs); } else { ScoreGrows(j, i, qs); }
      hide Score, Occurrences, LogLike;
    }

    /** One token's part taken out of a score. */
    lemma {:induction false} ScoreWithout(i: nat, qs: seq<Token>, k: nat)
      requires Valid() && i < n && k < |qs|
      ensures Score(i, qs) == Score(i, qs[..k] + qs[k + 1..]) + Part(i, qs[k])
    {
      hide Part;
      var last := |qs| - 1;
      var without := qs[..k] + qs[k + 1..];
      if k == last {
        assert without == qs[..last];
      } else {
        ScoreWithout(i, qs[..last], k);
        assert without[..|without| - 1] == qs[..last][..k] + qs[..last][k + 1..];
      }
    }

    /** The order in which the query's tokens are visited makes no difference. */
    lemma {:induction false} ScoreIgnoresOrder(i: nat, qs: seq<Token>, rs: seq<Token>)
      requires Valid() && i < n && multiset(qs) == multiset(rs)
      ensures Score(i, qs) == Score(i, rs)
      decreases |qs|
    {
      if qs == [] {
        assert |multiset(rs)| == 0;
      } else {
        var last := |qs| - 1;
        var k := LastElsewhere(qs, rs);
        assert qs[..last] + qs[last + 1..] == qs[..last];
        ScoreWithout(i, qs, last);
        ScoreWithout(i, rs, k);
        ScoreIgnoresOrder(i, qs[..last], rs[..k] + rs[k + 1..]);
        hide *;
      }
    }

    /** `rank_gold_pos`: the number of documents that beat gold by score, then by index. */
    method RankGoldPos(q: set<Token>, gold: nat) returns (pos: Option<nat>, ghost sc: seq<real>, ghost qs: seq<Token>)
      requires Valid() && gold < n
      ensures Distinct(qs) && forall t :: t in qs <==> t in q
      ensures k1 > 0.0 && 0.0 <= b <= 1.0 ==> pos.Some?
      ensures pos.Some? ==> |sc| == n && forall i | 0 <= i < n :: sc[i] == Score(i, qs)
      ensures k1 > 0.0 && 0.0 <= b <= 1.0 && LogLike(ln) ==>
                forall i | 0 <= i < n :: sc[i] == Okapi(corpus, k1, b, ln, corpus[i], qs)
      ensures pos.Some? ==> pos.value == |Beating(sc, gold)|
    {
      var out;
      out, qs := Scores(q);
      sc := [];
      pos := None;
      if out.Some? {
        sc := out.value;
        var k := PositionByScore(out.value, gold);
        pos := Some(k);
      }
    }
  }
}
