/** The no-leak scrubber: whole-word, case-insensitive removal of forbidden tokens. */
module Scrub {
  import opened Text
  import opened Counting

  predicate IsWord(c: char) {
    'a' <= c <= 'z' || 'A' <= c <= 'Z' || '0' <= c <= '9' || c == '_'
  }

  function Fold(c: char): char {
    if 'A' <= c <= 'Z' then (c as int + 32) as char else c
  }

  predicate EqFold(a: string, b: string) {
    |a| == |b| && forall i | 0 <= i < |a| :: Fold(a[i]) == Fold(b[i])
  }

  predicate IsLetter(c: char) {
    'a' <= c <= 'z' || 'A' <= c <= 'Z'
  }

  /** The same character, or the two cases of one ASCII letter, whose codes are 32 apart. */
  predicate SameLetter(c: char, d: char) {
    c == d || (IsLetter(c) && IsLetter(d) && (c as int - d as int == 32 || d as int - c as int == 32))
  }

  /** The same text up to the case of letters. */
  predicate SameText(a: string, b: string) {
    |a| == |b| && forall i | 0 <= i < |a| :: SameLetter(a[i], b[i])
  }

  lemma FoldIff(c: char, d: char)
    ensures Fold(c) == Fold(d) <==> SameLetter(c, d)
  {
  }

  /** Two texts fold to the same if and only if they differ in the case of letters at most. */
  lemma EqFoldIff(a: string, b: string)
    ensures EqFold(a, b) <==> SameText(a, b)
  {
    if |a| == |b| {
      forall i | 0 <= i < |a| ensures Fold(a[i]) == Fold(b[i]) <==> SameLetter(a[i], b[i]) { FoldIff(a[i], b[i]); }
    }
  }

  /** The word characters are the ASCII letters, the digits and the underscore. */
  lemma WordCharacters(c: char)
    ensures IsWord(c) <==> IsLetter(c) || c in "0123456789_"
  {
    var others := "0123456789_";
    if IsWord(c) && !IsLetter(c) { assert others[if c == '_' then 10 else c as int - 48] == c; }
    assert forall i | 0 <= i < |others| :: IsWord(others[i]) && !IsLetter(others[i]);
  }

  predicate WordOnly(t: string) {
    t != "" && forall i | 0 <= i < |t| :: IsWord(t[i])
  }

  // ---- words ----

  function WordLen(s: string): (n: nat)
    ensures n <= |s| && (forall i | 0 <= i < n :: IsWord(s[i])) && (n < |s| ==> !IsWord(s[n]))
  {
    if s == "" || !IsWord(s[0]) then 0 else 1 + WordLen(s[1..])
  }

  /** The maximal runs of word characters, in order. */
  function Words(s: string): seq<string> {
    if s == "" then []
    else if !IsWord(s[0]) then Words(s[1..])
    else [s[..WordLen(s)]] + Words(s[WordLen(s)..])
  }

  /** No word character faces another across the seam. */
  predicate Seam(a: string, b: string) {
    a == "" || b == "" || !IsWord(a[|a| - 1]) || !IsWord(b[0])
  }

  lemma WordLenAppend(a: string, b: string)
    requires a != "" && IsWord(a[0]) && Seam(a, b)
    ensures WordLen(a + b) == WordLen(a)
    decreases |a|
  {
    assert (a + b)[1..] == a[1..] + b;
    if |a| == 1 {
      assert a[1..] == "" && a[1..] + b == b;
      assert WordLen(b) == 0;
    } else if IsWord(a[1]) {
      WordLenAppend(a[1..], b);
    } else {
      assert WordLen(a[1..]) == 0 && WordLen(a[1..] + b) == 0;
    }
  }

  /** The first word or non-word character of `a` is also that of `a + b`. */
  lemma FirstStep(a: string, b: string) returns (n: nat, head: seq<string>)
    requires a != "" && Seam(a, b)
    ensures 0 < n <= |a| && Seam(a[n..], b)
    ensures Words(a) == head + Words(a[n..]) && Words(a + b) == head + Words(a[n..] + b)
  {
    if !IsWord(a[0]) {
      n, head := 1, [];
      assert (a + b)[1..] == a[1..] + b;
    } else {
      n := WordLen(a);
      head := [a[..n]];
      WordLenAppend(a, b);
      assert (a + b)[..n] == a[..n] && (a + b)[n..] == a[n..] + b;
    }
  }

  /** Across a seam the words of a concatenation are the words of its parts. */
  lemma {:induction false} WordsAppend(a: string, b: string)
    requires Seam(a, b)
    ensures Words(a + b) == Words(a) + Words(b)
    decreases |a|
  {
    if a == "" {
      assert a + b == b && Words(a) == [];
    } else {
      var n, head := FirstStep(a, b);
      hide Words;
      WordsAppend(a[n..], b);
      assert head + (Words(a[n..]) + Words(b)) == (head + Words(a[n..])) + Words(b);
    }
  }

  lemma {:induction false} NoWords(s: string)
    requires forall i | 0 <= i < |s| :: !IsWord(s[i])
    ensures Words(s) == []
  {
    if s != "" { NoWords(s[1..]); }
  }

  /** `w` stands in `s` at `p` with no word character before or after it. */
  predicate StandsAt(s: string, w: string, p: nat) {
    && p + |w| <= |s| && s[p..p + |w|] == w
    && (p == 0 || !IsWord(s[p - 1]))
    && (p + |w| == |s| || !IsWord(s[p + |w|]))
  }

  lemma SliceOfSlice(s: string, i: nat, m: nat, p: nat, q: nat)
    requires i <= m <= |s| && p <= q <= m - i
    ensures s[i..m][p..q] == s[i + p..i + q]
  {
    var a, b := s[i..m][p..q], s[i + p..i + q];
    assert |a| == |b| && forall k | 0 <= k < |a| :: a[k] == b[k];
  }

  lemma StandsShifted(s: string, n: nat, w: string, q: nat)
    requires n <= |s| && StandsAt(s[n..], w, q) && (q == 0 ==> n == 0 || !IsWord(s[n - 1]))
    ensures StandsAt(s, w, n + q)
  {
    SliceOfSlice(s, n, |s|, q, q + |w|);
    assert s[n..|s|] == s[n..];
    assert q > 0 ==> s[n..][q - 1] == s[n + q - 1];
    assert q + |w| < |s[n..]| ==> s[n..][q + |w|] == s[n + q + |w|];
  }

  lemma FirstWordStands(s: string)
    ensures StandsAt(s, s[..WordLen(s)], 0)
  {
    assert s[0..WordLen(s)] == s[..WordLen(s)];
  }

  lemma NotAtStart(t: string, w: string, p: nat)
    requires StandsAt(t, w, p) && WordOnly(w) && (t == "" || !IsWord(t[0]))
    ensures p > 0
  {
    assert w[0] == t[p..p + |w|][0] == t[p];
  }

  /** Where the `k`-th word stands. */
  lemma {:induction false} WordAt(s: string, k: nat) returns (p: nat)
    requires k < |Words(s)|
    ensures StandsAt(s, Words(s)[k], p) && WordOnly(Words(s)[k])
    decreases |s|
  {
    hide StandsAt;
    if !IsWord(s[0]) {
      p := WordAt(s[1..], k);
      StandsShifted(s, 1, Words(s)[k], p);
      p := p + 1;
    } else {
      var n := WordLen(s);
      if k == 0 {
        p := 0;
        assert StandsAt(s, s[..n], 0) by { FirstWordStands(s); }
      } else {
        p := WordAt(s[n..], k - 1);
        NotAtStart(s[n..], Words(s)[k], p);
        StandsShifted(s, n, Words(s)[k], p);
        p := p + n;
      }
    }
  }

  lemma WholeWord(t: string)
    requires WordOnly(t)
    ensures Words(t) == [t]
  {
    assert WordLen(t) == |t|;
    assert t[..|t|] == t;
  }

  // ---- subsequences ----

  predicate Subseq(a: seq<string>, b: seq<string>) {
    a == [] || (b != [] && if a[0] == b[0] then Subseq(a[1..], b[1..]) else Subseq(a, b[1..]))
  }

  lemma {:induction false} SubseqSkip(a: seq<string>, b: seq<string>, x: string)
    requires Subseq(a, b)
    ensures Subseq(a, [x] + b)
    decreases |b|, 1
  {
    assert ([x] + b)[1..] == b;
    if a != [] && a[0] == x { SubseqTail(a, b); }
  }

  lemma {:induction false} SubseqTail(a: seq<string>, b: seq<string>)
    requires a != [] && Subseq(a, b)
    ensures Subseq(a[1..], b)
    decreases |b|, 0
  {
    if a[0] == b[0] {
      SubseqSkip(a[1..], b[1..], b[0]);
      assert b == [b[0]] + b[1..];
    } else {
      SubseqTail(a, b[1..]);
      SubseqSkip(a[1..], b[1..], b[0]);
      assert b == [b[0]] + b[1..];
    }
  }

  lemma {:induction false} SubseqSkipAll(a: seq<string>, y: seq<string>, b: seq<string>)
    requires Subseq(a, b)
    ensures Subseq(a, y + b)
  {
    if y == [] {
      assert y + b == b;
    } else {
      SubseqSkipAll(a, y[1..], b);
      SubseqSkip(a, y[1..] + b, y[0]);
      assert y + b == [y[0]] + (y[1..] + b);
    }
  }

  lemma {:induction false} SubseqPrefix(x: seq<string>, a: seq<string>, b: seq<string>)
    requires Subseq(a, b)
    ensures Subseq(x + a, x + b)
  {
    if x == [] {
      assert x + a == a && x + b == b;
    } else {
      SubseqPrefix(x[1..], a, b);
      assert (x + a)[1..] == x[1..] + a && (x + b)[1..] == x[1..] + b;
    }
  }

  lemma {:induction false} SubseqTransitive(a: seq<string>, b: seq<string>, c: seq<string>)
    requires Subseq(a, b) && Subseq(b, c)
    ensures Subseq(a, c)
    decreases |c|
  {
    if a != [] {
      if b[0] == c[0] {
        if a[0] == b[0] { SubseqTransitive(a[1..], b[1..], c[1..]); }
        else { SubseqTransitive(a, b[1..], c[1..]); }
      } else {
        SubseqTransitive(a, b, c[1..]);
        SubseqSkip(a, c[1..], c[0]);
        assert c == [c[0]] + c[1..];
      }
    }
  }

  lemma {:induction false} SubseqElements(a: seq<string>, b: seq<string>)
    requires Subseq(a, b)
    ensures forall w | w in a :: w in b
  {
    if a != [] {
      assert a == [a[0]] + a[1..] && b == [b[0]] + b[1..];
      if a[0] == b[0] { SubseqElements(a[1..], b[1..]); } else { SubseqElements(a, b[1..]); }
    }
  }

  lemma {:induction false} SubseqRefl(a: seq<string>)
    ensures Subseq(a, a)
  {
    if a != [] { SubseqRefl(a[1..]); }
  }

  /** A subsequence is found at increasing places. */
  lemma {:induction false} SubseqPlaces(a: seq<string>, b: seq<string>) returns (at: seq<nat>)
    requires Subseq(a, b)
    ensures |at| == |a| && Increasing(at) && forall i | 0 <= i < |a| :: at[i] < |b| && b[at[i]] == a[i]
  {
    at := [];
    if a != [] {
      var first := a[0] == b[0];
      var rest := SubseqPlaces(if first then a[1..] else a, b[1..]);
      var later := seq(|rest|, i requires 0 <= i < |rest| => rest[i] + 1);
      at := if first then [0] + later else later;
    }
  }

  // ---- removing one token ----

  /** A whole-word, case-insensitive occurrence of `tok` at `i`. */
  predicate Matches(s: string, tok: string, i: nat) {
    && i + |tok| <= |s| && EqFold(s[i..i + |tok|], tok)
    && (i == 0 || !IsWord(s[i - 1]))
    && (i + |tok| == |s| || !IsWord(s[i + |tok|]))
  }

  /** The first match from `i` on, or the end. */
  function NextMatch(s: string, tok: string, i: nat): (m: nat)
    requires i <= |s|
    ensures i <= m <= |s| && (m < |s| ==> Matches(s, tok, m))
    ensures forall k | i <= k < m :: !Matches(s, tok, k)
    decreases |s| - i
  {
    if i == |s| || Matches(s, tok, i) then i else NextMatch(s, tok, i + 1)
  }

  /** `re.sub` with the empty replacement, from `i` on: matches do not overlap. */
  function RemoveFrom(s: string, tok: string, i: nat): string
    requires tok != "" && i <= |s|
    decreases |s| - i
  {
    var m := NextMatch(s, tok, i);
    if m == |s| then s[i..] else s[i..m] + RemoveFrom(s, tok, m + |tok|)
  }

  function Remove(s: string, tok: string): string {
    if tok == "" then s else RemoveFrom(s, tok, 0)
  }

  ghost predicate Avoids(ws: seq<string>, tok: string) {
    forall k | 0 <= k < |ws| :: !SameText(ws[k], tok)
  }

  /** A word of a stretch without matches is not the token. The stretch begins and ends at the ends of
      the text, after or before a removed occurrence. */
  lemma StandingWordIsNotToken(s: string, tok: string, i: nat, m: nat, w: string, p: nat)
    requires i <= m <= |s| && (i == 0 || i == |s| || !IsWord(s[i]))
    requires m == |s| || m == 0 || !IsWord(s[m - 1])
    requires forall k | i <= k < m :: !Matches(s, tok, k)
    requires StandsAt(s[i..m], w, p) && WordOnly(w)
    ensures !SameText(w, tok)
  {
    var u := s[i..m];
    SliceOfSlice(s, i, m, p, p + |w|);
    assert w[0] == u[p..p + |w|][0] == s[i + p];
    assert w[|w| - 1] == u[p..p + |w|][|w| - 1] == s[i + p + |w| - 1];
    assert p > 0 ==> u[p - 1] == s[i + p - 1];
    assert p + |w| < |u| ==> u[p + |w|] == s[i + p + |w|];
    EqFoldIff(w, tok);
    assert EqFold(w, tok) ==> Matches(s, tok, i + p);
  }

  lemma PieceAvoids(s: string, tok: string, i: nat, m: nat)
    requires i <= m <= |s| && (i == 0 || i == |s| || !IsWord(s[i]))
    requires m == |s| || m == 0 || !IsWord(s[m - 1])
    requires forall k | i <= k < m :: !Matches(s, tok, k)
    ensures Avoids(Words(s[i..m]), tok)
  {
    hide StandsAt, Words, Matches;
    forall k | 0 <= k < |Words(s[i..m])| ensures !SameText(Words(s[i..m])[k], tok) {
      var p := WordAt(s[i..m], k);
      StandingWordIsNotToken(s, tok, i, m, Words(s[i..m])[k], p);
    }
  }

  /** Cutting a text at a match cuts no word. */
  lemma CutAtMatch(s: string, tok: string, i: nat, m: nat, rest: string)
    requires i <= m && tok != "" && Matches(s, tok, m)
    ensures var e := m + |tok|;
            && Words(s[i..]) == Words(s[i..m]) + (Words(s[m..e]) + Words(s[e..]))
            && Words(s[i..m] + rest) == Words(s[i..m]) + Words(rest)
  {
    hide Words;
    var e := m + |tok|;
    var piece, chunk, tail := s[i..m], s[m..e], s[e..];
    assert s[i..] == piece + (chunk + tail);
    assert piece == "" || piece[|piece| - 1] == s[m - 1];
    WordsAppend(piece, chunk + tail);
    WordsAppend(chunk, tail);
    WordsAppend(piece, rest);
  }

  lemma RemoveStep(s: string, tok: string, i: nat) returns (m: nat)
    requires tok != "" && i <= |s|
    ensures i <= m <= |s| && forall k | i <= k < m :: !Matches(s, tok, k)
    ensures m == |s| ==> RemoveFrom(s, tok, i) == s[i..m]
    ensures m < |s| ==> Matches(s, tok, m) && RemoveFrom(s, tok, i) == s[i..m] + RemoveFrom(s, tok, m + |tok|)
  {
    hide EqFold, IsWord, NextMatch;
    m := NextMatch(s, tok, i);
    assert s[i..|s|] == s[i..];
  }

  /** Removing one token deletes words, merges none and creates none; its own word is then gone. */
  lemma {:induction false} RemoveFromWords(s: string, tok: string, i: nat)
    requires tok != "" && i <= |s| && (i == 0 || i == |s| || !IsWord(s[i]))
    ensures Subseq(Words(RemoveFrom(s, tok, i)), Words(s[i..]))
    ensures Avoids(Words(RemoveFrom(s, tok, i)), tok)
    decreases |s| - i
  {
    hide Words, Subseq, EqFold, SameText, RemoveFrom, NextMatch;
    var m := RemoveStep(s, tok, i);
    PieceAvoids(s, tok, i, m);
    if m == |s| {
      assert s[i..m] == s[i..];
      SubseqRefl(Words(s[i..]));
    } else {
      var e := m + |tok|;
      var rest := RemoveFrom(s, tok, e);
      RemoveFromWords(s, tok, e);
      CutAtMatch(s, tok, i, m, rest);
      SubseqSkipAll(Words(rest), Words(s[m..e]), Words(s[e..]));
      SubseqPrefix(Words(s[i..m]), Words(rest), Words(s[m..e]) + Words(s[e..]));
    }
  }

  // ---- tidying ----

  function RunLen(s: string, run: char -> bool): (n: nat)
    ensures n <= |s| && (forall i | 0 <= i < n :: run(s[i])) && (n < |s| ==> !run(s[n]))
  {
    if s == "" || !run(s[0]) then 0 else 1 + RunLen(s[1..], run)
  }

  /** `re.sub(r"[run]{min,}", put, s)` */
  function Collapse(s: string, run: char -> bool, min: nat, put: string): string
    decreases |s|
  {
    if s == "" then ""
    else
      var n := RunLen(s, run);
      if n == 0 then [s[0]] + Collapse(s[1..], run, min, put)
      else (if n >= min then put else s[..n]) + Collapse(s[n..], run, min, put)
  }

  function IsBlankRun(): char -> bool {
    (c: char) => c == ' ' || c == '\t'
  }

  /** `re.sub(r"[ \t]{2,}", " ", s)` */
  function CollapseBlanks(s: string): string {
    Collapse(s, IsBlankRun(), 2, " ")
  }

  lemma FirstWordGrows(c: char, t: string)
    requires IsWord(c) && t != "" && IsWord(t[0])
    ensures Words(t) != [] && Words([c] + t) == [[c] + Words(t)[0]] + Words(t)[1..]
  {
    var n, u := WordLen(t), [c] + t;
    assert u[1..] == t;
    assert WordLen(u) == n + 1;
    hide WordLen;
    var w, rest := t[..n], t[n..];
    assert u[..n + 1] == [c] + w && u[n + 1..] == rest;
    assert Words(t) == [w] + Words(rest);
    assert Words(u) == [[c] + w] + Words(rest);
  }

  /** Prepending one character changes two texts' words alike when their words and the kind of their
      first characters agree. */
  lemma SameFirstWord(c: char, t: string, u: string)
    requires Words(t) == Words(u) && (t == "" <==> u == "")
    requires t != "" ==> (IsWord(t[0]) <==> IsWord(u[0]))
    ensures Words([c] + t) == Words([c] + u)
  {
    assert ([c] + t)[1..] == t && ([c] + u)[1..] == u;
    if IsWord(c) && t != "" && IsWord(t[0]) {
      FirstWordGrows(c, t);
      FirstWordGrows(c, u);
    } else if IsWord(c) {
      WordsAppend([c], t);
      WordsAppend([c], u);
    }
  }

  /** One step of the collapse, as the definition takes it. */
  lemma CollapseHead(s: string, run: char -> bool, min: nat, put: string) returns (k: nat, head: string)
    requires s != ""
    ensures 0 < k <= |s| && s == s[..k] + s[k..]
    ensures Collapse(s, run, min, put) == head + Collapse(s[k..], run, min, put)
    ensures k == if RunLen(s, run) == 0 then 1 else RunLen(s, run)
    ensures head == if RunLen(s, run) == 0 then [s[0]] else if RunLen(s, run) >= min then put else s[..k]
  {
    k := if RunLen(s, run) == 0 then 1 else RunLen(s, run);
    head := if RunLen(s, run) == 0 then [s[0]] else if RunLen(s, run) >= min then put else s[..k];
  }

  lemma {:induction false} CollapseKeepsWords(s: string, run: char -> bool, min: nat, put: string)
    requires forall c :: run(c) ==> !IsWord(c)
    requires put != "" && forall i | 0 <= i < |put| :: !IsWord(put[i])
    ensures Words(Collapse(s, run, min, put)) == Words(s)
    ensures s != "" ==> var t := Collapse(s, run, min, put); t != "" && (IsWord(t[0]) <==> IsWord(s[0]))
    decreases |s|
  {
    if s != "" {
      var k, head := CollapseHead(s, run, min, put);
      var t := Collapse(s[k..], run, min, put);
      assert RunLen(s, run) > 0 ==> forall i | 0 <= i < k :: run(s[..k][i]);
      CollapseKeepsWords(s[k..], run, min, put);
      hide Collapse, Words;
      if RunLen(s, run) == 0 {
        SameFirstWord(s[0], t, s[1..]);
        assert s == [s[0]] + s[1..];
      } else {
        NoWords(head);
        NoWords(s[..k]);
        WordsAppend(head, t);
        WordsAppend(s[..k], s[k..]);
      }
    }
  }

  lemma BlankHasNoWords(a: string)
    requires Blank(a)
    ensures Words(a) == [] && (a == "" || (!IsWord(a[0]) && !IsWord(a[|a| - 1])))
  {
    forall i | 0 <= i < |a| ensures !IsWord(a[i]) { assert a[i] in a; }
    NoWords(a);
  }

  lemma StripKeepsWords(s: string)
    ensures Words(Strip(s)) == Words(s)
  {
    hide Words;
    var a, z := StripPieces(s);
    BlankHasNoWords(a);
    BlankHasNoWords(z);
    WordsAppend(a, Strip(s) + z);
    WordsAppend(Strip(s), z);
  }

  function IsNewline(): char -> bool {
    (c: char) => c == '\n'
  }

  // ---- the scrubbers ----

  function RemoveAll(text: string, toks: seq<string>): string {
    if toks == [] then text else Remove(RemoveAll(text, toks[..|toks| - 1]), toks[|toks| - 1])
  }

  /** `_scrub` of the genome gold builder; `toks` lists the forbidden set in the order it is worked off. */
  function Scrubbed(text: string, toks: seq<string>): string {
    Strip(CollapseBlanks(RemoveAll(text, toks)))
  }

  /** `_scrub` of the shard gold builder, which also shortens runs of newlines. */
  function ScrubbedShard(text: string, toks: seq<string>): string {
    Strip(Collapse(CollapseBlanks(RemoveAll(text, toks)), IsNewline(), 3, "\n\n"))
  }

  /** `toks` is the forbidden set, each token once, longer tokens first. */
  ghost predicate LongestFirst(forbidden: set<string>, toks: seq<string>) {
    && (forall t :: t in toks <==> t in forbidden)
    && forall i, j | 0 <= i < j < |toks| :: toks[i] != toks[j] && |toks[i]| >= |toks[j]|
  }

  lemma LongestExists(ts: set<string>)
    requires ts != {}
    ensures exists t :: t in ts && forall u | u in ts :: |u| <= |t|
    decreases ts
  {
    var x :| x in ts;
    if ts != {x} {
      LongestExists(ts - {x});
      var t :| t in ts - {x} && forall u | u in ts - {x} :: |u| <= |t|;
      var best := if |x| > |t| then x else t;
      assert best in ts && forall u | u in ts :: u == x || u in ts - {x};
    } else {
      assert forall u | u in ts :: u == x;
    }
  }

  /** `sorted(forbidden, key=len, reverse=True)`: tokens of one length come in any order. */
  method ByLength(forbidden: set<string>) returns (toks: seq<string>)
    ensures LongestFirst(forbidden, toks)
  {
    toks := [];
    var rest := forbidden;
    while rest != {}
      invariant rest <= forbidden && forall t :: t in toks <==> t in forbidden && t !in rest
      invariant forall i, j | 0 <= i < j < |toks| :: toks[i] != toks[j] && |toks[i]| >= |toks[j]|
      invariant forall t, u | t in toks && u in rest :: |t| >= |u|
      decreases rest
    {
      LongestExists(rest);
      var t :| t in rest && forall u | u in rest :: |u| <= |t|;
      assert forall i | 0 <= i < |toks| :: toks[i] in toks;
      toks := toks + [t];
      rest := rest - {t};
    }
  }

  /** `r` is what scrubbing may return: for some way of ordering tokens of one length. */
  ghost predicate ScrubsTo(text: string, forbidden: set<string>, r: string) {
    exists toks :: LongestFirst(forbidden, toks) && r == Scrubbed(text, toks)
  }

  ghost predicate ScrubsToShard(text: string, forbidden: set<string>, r: string) {
    exists toks :: LongestFirst(forbidden, toks) && r == ScrubbedShard(text, toks)
  }

  lemma EmptyTokenRemovesNothing(s: string)
    ensures Remove(s, "") == s
  {
  }

  method Scrub(text: string, forbidden: set<string>) returns (r: string)
    ensures ScrubsTo(text, forbidden, r)
  {
    hide Remove, CollapseBlanks;
    r := text;
    var toks := ByLength(forbidden);
    for i := 0 to |toks|
      invariant r == RemoveAll(text, toks[..i])
    {
      assert toks[..i + 1][..i] == toks[..i];
      if toks[i] == "" {
        EmptyTokenRemovesNothing(r);
        continue;
      }
      r := Remove(r, toks[i]);
    }
    assert toks[..|toks|] == toks;
    r := Strip(CollapseBlanks(r));
  }

  lemma RemoveWords(s: string, tok: string)
    ensures Subseq(Words(Remove(s, tok)), Words(s))
    ensures tok != "" ==> Avoids(Words(Remove(s, tok)), tok)
  {
    if tok == "" { SubseqRefl(Words(s)); } else { RemoveFromWords(s, tok, 0); assert s[0..] == s; }
  }

  lemma AvoidsSub(a: seq<string>, b: seq<string>, tok: string)
    requires Avoids(b, tok) && forall w | w in a :: w in b
    ensures Avoids(a, tok)
  {
    forall k | 0 <= k < |a| ensures !SameText(a[k], tok) {
      assert a[k] in b;
    }
  }

  lemma {:induction false} RemoveAllWords(text: string, toks: seq<string>)
    ensures Subseq(Words(RemoveAll(text, toks)), Words(text))
    ensures forall i | 0 <= i < |toks| && toks[i] != "" :: Avoids(Words(RemoveAll(text, toks)), toks[i])
  {
    if toks == [] {
      SubseqRefl(Words(text));
    } else {
      var rest, tok := toks[..|toks| - 1], toks[|toks| - 1];
      var before := RemoveAll(text, rest);
      RemoveAllWords(text, rest);
      RemoveWords(before, tok);
      SubseqTransitive(Words(Remove(before, tok)), Words(before), Words(text));
      SubseqElements(Words(Remove(before, tok)), Words(before));
      forall i | 0 <= i < |toks| && toks[i] != "" ensures Avoids(Words(RemoveAll(text, toks)), toks[i]) {
        if i < |rest| { AvoidsSub(Words(Remove(before, tok)), Words(before), rest[i]); }
      }
    }
  }

  /** No leak: for any text and any forbidden tokens, in any order, both scrubbers only delete words,
      and no word of the result is a forbidden token in any casing. */
  lemma ScrubNeverLeaks(text: string, toks: seq<string>)
    ensures Subseq(Words(Scrubbed(text, toks)), Words(text))
    ensures Words(ScrubbedShard(text, toks)) == Words(Scrubbed(text, toks)) == Words(RemoveAll(text, toks))
    ensures forall i | 0 <= i < |toks| && toks[i] != "" :: Avoids(Words(Scrubbed(text, toks)), toks[i])
  {
    var r := RemoveAll(text, toks);
    RemoveAllWords(text, toks);
    var c := CollapseBlanks(r);
    CollapseKeepsWords(r, IsBlankRun(), 2, " ");
    CollapseKeepsWords(c, IsNewline(), 3, "\n\n");
    StripKeepsWords(c);
    StripKeepsWords(Collapse(c, IsNewline(), 3, "\n\n"));
  }

  /** The same for whatever `_scrub` returns. */
  lemma ScrubResultNeverLeaks(text: string, forbidden: set<string>, r: string)
    requires ScrubsTo(text, forbidden, r)
    ensures Subseq(Words(r), Words(text))
    ensures forall t | t in forbidden && t != "" :: Avoids(Words(r), t)
  {
    var toks :| LongestFirst(forbidden, toks) && r == Scrubbed(text, toks);
    ScrubNeverLeaks(text, toks);
    hide Scrubbed, Subseq, Words, Avoids;
    forall t | t in forbidden && t != "" ensures Avoids(Words(r), t) {
      assert t in toks;
      var i :| 0 <= i < |toks| && toks[i] == t;
    }
  }

  // ---- forbidden tokens that contain other characters ----

  predicate NoPair(t: string) {
    forall i | 0 <= i < |t| - 1 :: IsWord(t[i]) || IsWord(t[i + 1])
  }

  predicate TightTail(t: string) {
    t != "" && IsWord(t[|t| - 1]) && ' ' !in t && NoPair(t)
  }

  /** Tokens such as `pr-1.json`: word characters at both ends, never two other characters in a row,
      and no space. */
  predicate Tight(t: string) {
    t != "" && IsWord(t[0]) && TightTail(t)
  }

  /** `t` stands at `i` in some casing, with no word character before or after it. */
  predicate WholeAt(s: string, t: string, i: nat) {
    && i + |t| <= |s| && SameText(s[i..i + |t|], t)
    && (i == 0 || !IsWord(s[i - 1]))
    && (i + |t| == |s| || !IsWord(s[i + |t|]))
  }

  /** `t` occurs nowhere as a whole word, in any casing. */
  ghost predicate Clean(s: string, t: string) {
    forall i: nat :: !WholeAt(s, t, i)
  }

  lemma MatchesIff(s: string, t: string, i: nat)
    ensures Matches(s, t, i) <==> WholeAt(s, t, i)
  {
    if i + |t| <= |s| { EqFoldIff(s[i..i + |t|], t); }
    hide EqFold, SameText, IsWord;
  }

  lemma CleanIff(s: string, t: string)
    ensures Clean(s, t) <==> forall i: nat :: !Matches(s, t, i)
  {
    forall i: nat ensures Matches(s, t, i) <==> WholeAt(s, t, i) { MatchesIff(s, t, i); }
    hide Matches, WholeAt;
  }

  lemma FoldKeepsKind(c: char, d: char)
    requires Fold(c) == Fold(d)
    ensures IsWord(c) <==> IsWord(d)
    ensures !IsWord(c) ==> c == d
  {
  }

  lemma FoldedKinds(u: string, t: string)
    requires EqFold(u, t)
    ensures forall i | 0 <= i < |t| :: (IsWord(u[i]) <==> IsWord(t[i])) && (!IsWord(t[i]) ==> u[i] == t[i])
  {
    forall i | 0 <= i < |t| ensures (IsWord(u[i]) <==> IsWord(t[i])) && (!IsWord(t[i]) ==> u[i] == t[i]) {
      FoldKeepsKind(u[i], t[i]);
    }
  }

  lemma MatchEndsClear(s: string, tok: string, m: nat)
    requires Matches(s, tok, m)
    ensures m + |tok| <= |s| && (m + |tok| == |s| || !IsWord(s[m + |tok|])) && (m == 0 || !IsWord(s[m - 1]))
  {
  }

  lemma {:induction false} RestStartsClear(s: string, tok: string, i: nat)
    requires tok != "" && i <= |s| && (i == |s| || !IsWord(s[i]))
    ensures var r := RemoveFrom(s, tok, i); r == "" || !IsWord(r[0])
    decreases |s| - i
  {
    hide RemoveFrom, NextMatch, Matches, IsWord;
    var m := RemoveStep(s, tok, i);
    if m < |s| {
      var e := m + |tok|;
      MatchEndsClear(s, tok, m);
      RestStartsClear(s, tok, e);
      assert i < m ==> (s[i..m] + RemoveFrom(s, tok, e))[0] == s[i];
    }
  }

  lemma NoTwoInARow(t: string, k: nat)
    requires TightTail(t) && k < |t|
    ensures !IsWord(t[k]) ==> k + 1 < |t| && IsWord(t[k + 1])
  {
  }

  lemma SeamChars(a: string, b: string, p: nat, n: nat)
    requires p < |a| && p + n <= |a + b|
    ensures var k, u := |a| - 1 - p, (a + b)[p..p + n];
            (k < n ==> u[k] == a[|a| - 1]) && (k + 1 < n ==> b != "" && u[k + 1] == b[0])
  {
  }

  /** Nothing tight straddles a seam between two non-word characters. */
  lemma NoMatchAcrossSeam(a: string, b: string, t: string, p: nat)
    requires Tight(t) && a != "" && !IsWord(a[|a| - 1]) && (b == "" || !IsWord(b[0]))
    requires p < |a| && Matches(a + b, t, p)
    ensures p + |t| < |a|
  {
    FoldedKinds((a + b)[p..p + |t|], t);
    SeamChars(a, b, p, |t|);
    if |a| - 1 - p < |t| { NoTwoInARow(t, |a| - 1 - p); }
  }

  lemma MatchInFront(a: string, b: string, t: string, p: nat)
    requires Matches(a + b, t, p) && p + |t| < |a|
    ensures Matches(a, t, p)
  {
    assert (a + b)[p..p + |t|] == a[p..p + |t|];
  }

  lemma MatchBehind(a: string, b: string, t: string, p: nat)
    requires Matches(a + b, t, p) && p >= |a|
    ensures Matches(b, t, p - |a|)
  {
    assert (a + b)[p..p + |t|] == b[p - |a|..p - |a| + |t|];
  }

  lemma NoMatchInPiece(s: string, tok: string, t: string, i: nat, m: nat, p: nat)
    requires Tight(t) && i <= m <= |s| && (i == 0 || i == |s| || !IsWord(s[i]))
    requires m == |s| || m == 0 || !IsWord(s[m - 1])
    requires forall k | i <= k < m :: !Matches(s, tok, k)
    requires forall k: nat | Matches(s, t, k) :: Matches(s, tok, k)
    ensures !Matches(s[i..m], t, p)
  {
    var u := s[i..m];
    if Matches(u, t, p) {
      SliceOfSlice(s, i, m, p, p + |t|);
      FoldedKinds(u[p..p + |t|], t);
      assert u[p..p + |t|][0] == s[i + p];
      assert u[p..p + |t|][|t| - 1] == s[i + p + |t| - 1];
      assert p > 0 ==> u[p - 1] == s[i + p - 1];
      assert p + |t| < |u| ==> u[p + |t|] == s[i + p + |t|];
      assert Matches(s, t, i + p);
    }
  }

  /** A tight token none of whose matches survives the removal of `tok` is nowhere in the result. */
  lemma {:induction false} RemoveFromClean(s: string, tok: string, t: string, i: nat, p: nat)
    requires tok != "" && Tight(t) && i <= |s| && (i == 0 || i == |s| || !IsWord(s[i]))
    requires forall k: nat | Matches(s, t, k) :: Matches(s, tok, k)
    ensures !Matches(RemoveFrom(s, tok, i), t, p)
    decreases |s| - i
  {
    hide RemoveFrom, NextMatch, Matches;
    var m := RemoveStep(s, tok, i);
    var piece := s[i..m];
    if m == |s| {
      NoMatchInPiece(s, tok, t, i, m, p);
    } else {
      var e := m + |tok|;
      MatchEndsClear(s, tok, m);
      RestStartsClear(s, tok, e);
      var rest := RemoveFrom(s, tok, e);
      if Matches(piece + rest, t, p) {
        if p < |piece| {
          assert piece[|piece| - 1] == s[m - 1];
          NoMatchAcrossSeam(piece, rest, t, p);
          MatchInFront(piece, rest, t, p);
          NoMatchInPiece(s, tok, t, i, m, p);
        } else {
          MatchBehind(piece, rest, t, p);
          RemoveFromClean(s, tok, t, e, p - |piece|);
        }
      }
    }
  }

  lemma RemoveClean(s: string, tok: string, t: string)
    requires Tight(t) && (Clean(s, t) || tok == t)
    ensures Clean(Remove(s, tok), t)
  {
    CleanIff(s, t);
    CleanIff(Remove(s, tok), t);
    hide Clean, Matches;
    if tok != "" {
      forall p: nat ensures !Matches(Remove(s, tok), t, p) { RemoveFromClean(s, tok, t, 0, p); }
    }
  }

  lemma {:induction false} RemoveAllClean(text: string, toks: seq<string>, t: string)
    requires Tight(t) && t in toks
    ensures Clean(RemoveAll(text, toks), t)
  {
    var n := |toks| - 1;
    if t in toks[..n] { RemoveAllClean(text, toks[..n], t); }
    RemoveClean(RemoveAll(text, toks[..n]), toks[n], t);
  }

  /** `t` occurs at `p` and no word character follows. */
  predicate Occurs(s: string, t: string, p: nat) {
    && p + |t| <= |s| && EqFold(s[p..p + |t|], t)
    && (p + |t| == |s| || !IsWord(s[p + |t|]))
  }

  lemma OccursShift(a: string, b: string, t: string, q: nat)
    ensures Occurs(a + b, t, |a| + q) <==> Occurs(b, t, q)
  {
    if |a| + q + |t| <= |a + b| {
      assert (a + b)[|a| + q..|a| + q + |t|] == b[q..q + |t|];
    }
  }

  /** An occurrence of a longer token splits after its first character. */
  lemma OccursSplit(a: string, b: string, t: string)
    requires a != "" && |t| >= 2
    ensures Occurs(a + b, t, |a| - 1) <==> Fold(a[|a| - 1]) == Fold(t[0]) && Occurs(b, t[1..], 0)
  {
    var r, p := a + b, |a| - 1;
    if p + |t| <= |r| {
      var x, y := r[p..p + |t|], b[0..|t| - 1];
      assert x == [a[p]] + y;
      if EqFold(x, t) {
        forall i | 0 <= i < |y| ensures Fold(y[i]) == Fold(t[1..][i]) { assert y[i] == x[i + 1]; }
      }
    }
  }

  lemma TailOfTail(t: string)
    requires TightTail(t) && |t| >= 2
    ensures TightTail(t[1..])
  {
    forall i | 0 <= i < |t[1..]| - 1 ensures IsWord(t[1..][i]) || IsWord(t[1..][i + 1]) {
      assert IsWord(t[i + 1]) || IsWord(t[i + 2]);
    }
  }

  /** The collapse deals in non-word characters only, and a single one it puts in place is not in `t`. */
  ghost predicate Harmless(run: char -> bool, min: nat, put: string, t: string) {
    && (forall c :: run(c) ==> !IsWord(c))
    && put != "" && (forall i | 0 <= i < |put| :: !IsWord(put[i]))
    && min >= 2 && (|put| == 1 ==> put[0] !in t)
  }

  /** A tight token does not appear at the front of a run of two characters, nor of one it does not contain. */
  lemma NotInRun(head: string, rest: string, t: string)
    requires TightTail(t) && head != "" && forall i | 0 <= i < |head| :: !IsWord(head[i])
    requires |head| == 1 ==> head[0] !in t
    ensures !Occurs(head + rest, t, 0)
  {
    var r := head + rest;
    assert r[0] == head[0] && (|head| > 1 ==> r[1] == head[1]);
    assert t[0] in t;
    NoTwoInARow(t, 0);
    if Occurs(r, t, 0) { FoldedKinds(r[0..|t|], t); }
  }

  lemma OccursSomewhere(s: string, t: string, run: char -> bool, min: nat, put: string)
    requires t != "" && Occurs(Collapse(s, run, min, put), t, 0)
    ensures s != ""
  {
  }

  /** Where a tight token appears at the front of a collapsed text, the collapse did nothing to the first
      character. */
  lemma FrontIsPlain(s: string, t: string, run: char -> bool, min: nat, put: string)
    requires Harmless(run, min, put, t) && TightTail(t) && Occurs(Collapse(s, run, min, put), t, 0)
    ensures s != "" && Collapse(s, run, min, put) == [s[0]] + Collapse(s[1..], run, min, put)
  {
    OccursSomewhere(s, t, run, min, put);
    var k, head := CollapseHead(s, run, min, put);
    hide Occurs, TightTail, Collapse;
    if RunLen(s, run) >= 2 { NotInRun(head, Collapse(s[k..], run, min, put), t); }
  }

  lemma OneCharOccurs(s: string, r: string, t: string)
    requires |t| == 1 && s != "" && r != "" && r[0] == s[0] && Occurs(r, t, 0)
    requires |r| == 1 ==> |s| == 1
    requires |r| > 1 && |s| > 1 ==> (IsWord(r[1]) <==> IsWord(s[1]))
    ensures Occurs(s, t, 0)
  {
    assert r[0..1] == [r[0]] && s[0..1] == [s[0]];
  }

  /** Runs are shortened without making a tight token appear at the front ... */
  lemma {:induction false} CollapseFront(s: string, t: string, run: char -> bool, min: nat, put: string)
    requires Harmless(run, min, put, t) && TightTail(t) && Occurs(Collapse(s, run, min, put), t, 0)
    ensures Occurs(s, t, 0)
    decreases |s|
  {
    var r := Collapse(s, run, min, put);
    FrontIsPlain(s, t, run, min, put);
    CollapseKeepsWords(s, run, min, put);
    CollapseKeepsWords(s[1..], run, min, put);
    assert s == [s[0]] + s[1..];
    hide Collapse, RunLen;
    if |t| == 1 {
      OneCharOccurs(s, r, t);
    } else {
      OccursSplit([s[0]], Collapse(s[1..], run, min, put), t);
      TailOfTail(t);
      CollapseFront(s[1..], t[1..], run, min, put);
      OccursSplit([s[0]], s[1..], t);
    }
  }

  /** One step of the collapse replaces the first `k` characters by others, the last of the same kind. */
  lemma CollapseStep(s: string, t: string, run: char -> bool, min: nat, put: string) returns (k: nat, head: string)
    requires s != "" && Harmless(run, min, put, t)
    ensures 0 < k <= |s| && s == s[..k] + s[k..]
    ensures head != "" && (IsWord(head[|head| - 1]) <==> IsWord(s[k - 1]))
    ensures |head| > 1 ==> forall i | 0 <= i < |head| :: !IsWord(head[i])
    ensures Collapse(s, run, min, put) == head + Collapse(s[k..], run, min, put)
  {
    var n := RunLen(s, run);
    k := if n == 0 then 1 else n;
    head := if n == 0 then [s[0]] else if n >= min then put else s[..n];
  }

  lemma OccursLift(s: string, k: nat, t: string, q: nat)
    requires k <= |s| && Occurs(s[k..], t, q)
    ensures Occurs(s, t, k + q) && k + q <= |s| && (q > 0 ==> s[k + q - 1] == s[k..][q - 1])
  {
    assert s == s[..k] + s[k..];
    OccursShift(s[..k], s[k..], t, q);
  }

  /** A tight token further on begins behind the head. */
  lemma BehindHead(head: string, rest: string, t: string, p: nat)
    requires head != "" && (|head| > 1 ==> forall i | 0 <= i < |head| :: !IsWord(head[i]))
    requires Tight(t) && p > 0 && Occurs(head + rest, t, p)
    ensures p >= |head| && p <= |head + rest| && Occurs(rest, t, p - |head|)
    ensures (head + rest)[p - 1] == if p == |head| then head[p - 1] else rest[p - |head| - 1]
  {
    var r := head + rest;
    FoldedKinds(r[p..p + |t|], t);
    assert r[p..p + |t|][0] == r[p];
    hide IsWord, TightTail;
    assert p == |head| + (p - |head|);
    OccursShift(head, rest, t, p - |head|);
  }

  lemma NothingInEmpty(s: string, t: string, run: char -> bool, min: nat, put: string, p: nat)
    requires p > 0 && Occurs(Collapse(s, run, min, put), t, p)
    ensures s != "" && p <= |Collapse(s, run, min, put)|
  {
  }

  lemma TightIsTail(t: string)
    requires Tight(t)
    ensures TightTail(t)
  {
  }

  /** ... or further on. */
  lemma {:induction false} CollapseInside(s: string, t: string, run: char -> bool, min: nat, put: string, p: nat)
    returns (q: nat)
    requires Harmless(run, min, put, t) && Tight(t) && p > 0 && Occurs(Collapse(s, run, min, put), t, p)
    ensures 0 < q <= |s| && Occurs(s, t, q)
    ensures var r := Collapse(s, run, min, put); p <= |r| && (!IsWord(r[p - 1]) ==> !IsWord(s[q - 1]))
    decreases |s|
  {
    hide Tight, Occurs, IsWord, Collapse, RunLen, Harmless;
    TightIsTail(t);
    NothingInEmpty(s, t, run, min, put, p);
    var k, head := CollapseStep(s, t, run, min, put);
    var rest := Collapse(s[k..], run, min, put);
    BehindHead(head, rest, t, p);
    if p == |head| {
      CollapseFront(s[k..], t, run, min, put);
      OccursLift(s, k, t, 0);
      q := k;
    } else {
      var q' := CollapseInside(s[k..], t, run, min, put, p - |head|);
      OccursLift(s, k, t, q');
      q := k + q';
    }
  }

  /** So a match in the collapsed text comes from one in the text. */
  lemma CollapsedMatch(s: string, t: string, run: char -> bool, min: nat, put: string, p: nat) returns (q: nat)
    requires Harmless(run, min, put, t) && Tight(t) && Matches(Collapse(s, run, min, put), t, p)
    ensures Matches(s, t, q)
  {
    hide Collapse, RunLen, Harmless;
    if p == 0 {
      CollapseFront(s, t, run, min, put);
      q := 0;
    } else {
      q := CollapseInside(s, t, run, min, put, p);
    }
  }

  lemma CollapseClean(s: string, t: string, run: char -> bool, min: nat, put: string)
    requires Harmless(run, min, put, t) && Tight(t) && Clean(s, t)
    ensures Clean(Collapse(s, run, min, put), t)
  {
    hide Clean, Matches, Harmless, Tight, Collapse;
    CleanIff(s, t);
    CleanIff(Collapse(s, run, min, put), t);
    forall p: nat ensures !Matches(Collapse(s, run, min, put), t, p) {
      if Matches(Collapse(s, run, min, put), t, p) {
        var q := CollapsedMatch(s, t, run, min, put, p);
      }
    }
  }

  lemma MatchInMiddle(a: string, r: string, z: string, t: string, p: nat)
    requires (a == "" || !IsWord(a[|a| - 1])) && (z == "" || !IsWord(z[0])) && Matches(r, t, p)
    ensures Matches(a + (r + z), t, |a| + p)
  {
    var s := a + (r + z);
    assert s[|a| + p..|a| + p + |t|] == r[p..p + |t|];
  }

  lemma StripClean(s: string, t: string)
    requires Clean(s, t)
    ensures Clean(Strip(s), t)
  {
    hide Clean, Matches;
    CleanIff(s, t);
    CleanIff(Strip(s), t);
    var a, z := StripPieces(s);
    BlankHasNoWords(a);
    BlankHasNoWords(z);
    forall p: nat ensures !Matches(Strip(s), t, p) {
      if Matches(Strip(s), t, p) { MatchInMiddle(a, Strip(s), z, t, p); }
    }
  }

  lemma CollapsesAreHarmless(t: string)
    requires Tight(t)
    ensures Harmless(IsBlankRun(), 2, " ", t) && Harmless(IsNewline(), 3, "\n\n", t)
  {
  }

  /** A forbidden token with word characters at both ends, never two other characters in a row and no
      space never occurs as a whole word in the result of either scrubber: whatever else is forbidden, in
      any order. */
  lemma TightTokensNeverLeak(text: string, toks: seq<string>, t: string)
    requires t in toks && Tight(t)
    ensures Clean(Scrubbed(text, toks), t) && Clean(ScrubbedShard(text, toks), t)
  {
    hide Clean, Collapse, RemoveAll, Tight, Harmless;
    var r := RemoveAll(text, toks);
    var c := CollapseBlanks(r);
    RemoveAllClean(text, toks, t);
    CollapsesAreHarmless(t);
    CollapseClean(r, t, IsBlankRun(), 2, " ");
    CollapseClean(c, t, IsNewline(), 3, "\n\n");
    StripClean(c, t);
    StripClean(Collapse(c, IsNewline(), 3, "\n\n"), t);
  }

  // ---- and exactly these do not leak ----

  predicate RunAt(s: string, run: char -> bool, min: nat, i: nat) {
    i + min <= |s| && forall j | i <= j < i + min :: run(s[j])
  }

  /** `min` characters of the run stand in a row: the collapse would shorten them. */
  ghost predicate LongRun(s: string, run: char -> bool, min: nat) {
    exists i: nat :: RunAt(s, run, min, i)
  }

  ghost predicate RunFree(s: string, run: char -> bool, min: nat) {
    forall i: nat :: !RunAt(s, run, min, i)
  }

  lemma {:induction false} RunLenAt(s: string, run: char -> bool, k: nat)
    requires k <= |s| && forall j | 0 <= j < k :: run(s[j])
    ensures RunLen(s, run) >= k
  {
    if k > 0 { RunLenAt(s[1..], run, k - 1); }
  }

  lemma RunBehind(a: string, b: string, run: char -> bool, min: nat, i: nat)
    requires RunAt(a + b, run, min, i) && i >= |a|
    ensures RunAt(b, run, min, i - |a|)
  {
    forall j | i - |a| <= j < i - |a| + min ensures run(b[j]) { assert (a + b)[|a| + j] == b[j]; }
  }

  lemma RunInFront(a: string, b: string, run: char -> bool, min: nat, i: nat)
    requires RunAt(b, run, min, i)
    ensures RunAt(a + b, run, min, |a| + i)
  {
    forall j | |a| + i <= j < |a| + i + min ensures run((a + b)[j]) { assert (a + b)[j] == b[j - |a|]; }
  }

  /** The first character after a collapse is of the run iff it was before. */
  lemma CollapseStart(s: string, run: char -> bool, min: nat, put: string)
    requires put != "" && (forall i | 0 <= i < |put| :: run(put[i]))
    ensures var r := Collapse(s, run, min, put); (s == "" <==> r == "") && (s != "" ==> (run(r[0]) <==> run(s[0])))
  {
  }

  lemma RunStartsBehind(head: string, rest: string, run: char -> bool, min: nat, i: nat)
    requires RunAt(head + rest, run, min, i) && min > 0 && head != ""
    requires (|head| < min && (rest == "" || !run(rest[0]))) || (|head| == 1 && !run(head[0]))
    ensures i >= |head|
  {
    var r := head + rest;
    assert r[0] == head[0] && (rest != "" ==> r[|head|] == rest[0]);
  }

  /** No long run is left. */
  lemma {:induction false} NoLongRunLeft(s: string, run: char -> bool, min: nat, put: string, i: nat)
    requires put != "" && |put| < min && forall i | 0 <= i < |put| :: run(put[i])
    ensures !RunAt(Collapse(s, run, min, put), run, min, i)
    decreases |s|
  {
    if s != "" {
      var n := RunLen(s, run);
      var k := if n == 0 then 1 else n;
      var head := if n == 0 then [s[0]] else if n >= min then put else s[..n];
      var rest := Collapse(s[k..], run, min, put);
      var r := Collapse(s, run, min, put);
      assert r == head + rest;
      CollapseStart(s[k..], run, min, put);
      if RunAt(r, run, min, i) {
        RunStartsBehind(head, rest, run, min, i);
        RunBehind(head, rest, run, min, i);
        NoLongRunLeft(s[k..], run, min, put, i - |head|);
      }
    }
  }

  lemma RestIsRunFree(s: string, k: nat, run: char -> bool, min: nat)
    requires k <= |s| && RunFree(s, run, min)
    ensures RunFree(s[k..], run, min)
  {
    assert s == s[..k] + s[k..];
    forall i: nat ensures !RunAt(s[k..], run, min, i) {
      if RunAt(s[k..], run, min, i) { RunInFront(s[..k], s[k..], run, min, i); }
    }
  }

  lemma RunAtStart(s: string, run: char -> bool, min: nat)
    ensures RunLen(s, run) >= min ==> RunAt(s, run, min, 0)
  {
  }

  /** A text without long runs is left alone. */
  lemma {:induction false} NothingToCollapse(s: string, run: char -> bool, min: nat, put: string)
    requires min > 0 && RunFree(s, run, min)
    ensures Collapse(s, run, min, put) == s
    decreases |s|
  {
    if s != "" {
      var n := RunLen(s, run);
      RunAtStart(s, run, min);
      var k := if n == 0 then 1 else n;
      assert s == s[..k] + s[k..];
      RestIsRunFree(s, k, run, min);
      NothingToCollapse(s[k..], run, min, put);
      hide RunFree, RunAt, RunLen;
    }
  }

  /** Where a token with a run occurs, the text has that run. */
  lemma MatchHasRun(r: string, t: string, run: char -> bool, min: nat, i: nat, p: nat)
    requires (forall c :: run(c) ==> !IsWord(c)) && RunAt(t, run, min, i) && Matches(r, t, p)
    ensures RunAt(r, run, min, p + i)
  {
    FoldedKinds(r[p..p + |t|], t);
    forall j | p + i <= j < p + i + min ensures run(r[j]) {
      assert r[j] == r[p..p + |t|][j - p] == t[j - p];
    }
  }

  lemma KindsDiffer(s: string, t: string, p: nat, j: nat)
    requires j < |t| && p + j < |s| && IsWord(s[p + j]) != IsWord(t[j])
    ensures !Matches(s, t, p)
  {
    if Matches(s, t, p) { FoldedKinds(s[p..p + |t|], t); }
  }

  // ---- a text for every other token ----

  /** A word as long as the token. */
  function Filler(n: nat): (w: string)
    ensures |w| == n && forall i | 0 <= i < n :: w[i] == 'x'
  {
    seq(n, _ => 'x')
  }

  /** `t` stands at `a` in `text`, and a filler shields each end of `t` that is no word character: `a` and `b`
      are the lengths of what stands before and behind. */
  predicate Shielded(text: string, t: string, a: nat, b: nat) {
    var n := |t|;
    && n > 0 && |text| == a + n + b && a + b > 0
    && (if IsWord(t[0]) then a == 0 else a == n + 1) && (if IsWord(t[n - 1]) then b == 0 else b == n + 1)
    && (a > 0 ==> text[0] == '.') && (forall i | 1 <= i < a :: text[i] == 'x')
    && text[a..a + n] == t
    && (forall i | a + n <= i < a + n + b - 1 :: text[i] == 'x') && (b > 0 ==> text[a + n + b - 1] == '.')
  }

  lemma ShieldedAt(text: string, t: string, a: nat, b: nat, i: nat)
    requires Shielded(text, t, a, b) && i < |t|
    ensures text[a + i] == t[i]
  {
    assert text[a..a + |t|][i] == text[a + i];
  }

  lemma NextToWord(s: string, t: string, p: nat)
    requires (0 < p <= |s| && IsWord(s[p - 1])) || (p + |t| < |s| && IsWord(s[p + |t|]))
    ensures !Matches(s, t, p)
  {
  }

  lemma TooFar(s: string, t: string, p: nat)
    requires p + |t| > |s|
    ensures !Matches(s, t, p)
  {
  }

  /** The shielded token is nowhere a whole word. */
  lemma ShieldedStays(text: string, t: string, a: nat, b: nat, p: nat)
    requires Shielded(text, t, a, b)
    ensures !Matches(text, t, p)
  {
    var n := |t|;
    hide Matches;
    if p + n > |text| {
      TooFar(text, t, p);
    } else if p < a {
      if p == 0 { NextToWord(text, t, p); } else { KindsDiffer(text, t, p, 0); }
    } else if p == a {
      NextToWord(text, t, p);
    } else if p == a + n + 1 {
      NextToWord(text, t, p);
    } else {
      KindsDiffer(text, t, p, n - 1);
    }
  }

  lemma FillerHere(text: string, n: nat, p: nat)
    requires p + n <= |text| && forall i | p <= i < p + n :: text[i] == 'x'
    requires (p == 0 || !IsWord(text[p - 1])) && (p + n == |text| || !IsWord(text[p + n]))
    ensures Matches(text, Filler(n), p)
  {
    assert text[p..p + n] == Filler(n);
  }

  /** The fillers stand where they were put and nowhere else. */
  lemma FillersStand(text: string, t: string, a: nat, b: nat, p: nat)
    requires Shielded(text, t, a, b)
    ensures Matches(text, Filler(|t|), p) <==> (a > 0 && p == 1) || (b > 0 && p == a + |t|)
  {
    var n, w := |t|, Filler(|t|);
    ShieldedAt(text, t, a, b, 0);
    ShieldedAt(text, t, a, b, n - 1);
    if (a > 0 && p == 1) || (b > 0 && p == a + n) {
      FillerHere(text, n, p);
    } else {
      hide Matches;
      if p + n > |text| {
        TooFar(text, w, p);
      } else if p == 0 && a > 0 {
        KindsDiffer(text, w, p, 0);
      } else if p <= a && a > 0 {
        KindsDiffer(text, w, p, a - p);
      } else if p < a + n {
        KindsDiffer(text, w, p, a + n - 1 - p);
      } else {
        KindsDiffer(text, w, p, n - 1);
      }
    }
  }

  lemma NextMatchIs(s: string, tok: string, i: nat, m: nat)
    requires i <= m <= |s| && (m < |s| ==> Matches(s, tok, m))
    requires forall k: nat | i <= k < m :: !Matches(s, tok, k)
    ensures NextMatch(s, tok, i) == m
  {
  }

  /** One removal step when it is known where the token stands. */
  lemma RemoveAt(s: string, tok: string, i: nat, m: nat)
    requires tok != "" && i <= m && m + |tok| <= |s| && Matches(s, tok, m)
    requires forall k: nat | i <= k < m :: !Matches(s, tok, k)
    ensures RemoveFrom(s, tok, i) == s[i..m] + RemoveFrom(s, tok, m + |tok|)
  {
    hide Matches;
    NextMatchIs(s, tok, i, m);
  }

  lemma RemoveNoMore(s: string, tok: string, i: nat)
    requires tok != "" && i <= |s| && forall k: nat | i <= k < |s| :: !Matches(s, tok, k)
    ensures RemoveFrom(s, tok, i) == s[i..]
  {
    hide Matches;
    NextMatchIs(s, tok, i, |s|);
  }

  lemma FillerBehindGoes(text: string, t: string, a: nat, b: nat)
    requires Shielded(text, t, a, b)
    ensures RemoveFrom(text, Filler(|t|), a) == t + if b > 0 then "." else ""
  {
    var n, w := |t|, Filler(|t|);
    forall p: nat ensures Matches(text, w, p) <==> (a > 0 && p == 1) || (b > 0 && p == a + n) {
      FillersStand(text, t, a, b, p);
    }
    hide Matches, NextMatch, RemoveFrom;
    if b > 0 {
      RemoveAt(text, w, a, a + n);
      RemoveNoMore(text, w, a + n + n);
      assert text[a + n + n..] == ".";
    } else {
      RemoveNoMore(text, w, a);
      assert text[a..] == text[a..a + n];
    }
  }

  /** Removing the fillers lays the token bare. */
  lemma FillersGo(text: string, t: string, a: nat, b: nat)
    requires Shielded(text, t, a, b)
    ensures Remove(text, Filler(|t|)) == (if a > 0 then "." else "") + (t + if b > 0 then "." else "")
  {
    var n, w := |t|, Filler(|t|);
    FillerBehindGoes(text, t, a, b);
    FillersStand(text, t, a, b, 0);
    FillersStand(text, t, a, b, 1);
    assert a > 0 ==> text[0..1] == "." && a == n + 1;
    assert a + n <= |text|;
    hide Matches, RemoveFrom, Shielded;
    if a > 0 { RemoveAt(text, w, 0, 1); }
  }

  /** `w` stands inside `t`, at a place where two characters meet that are both no word characters. */
  predicate Parted(text: string, t: string, k: nat) {
    && 0 < k < |t| && !IsWord(t[k - 1]) && !IsWord(t[k])
    && text == t[..k] + Filler(|t|) + t[k..]
  }

  lemma PartedAt(text: string, t: string, k: nat)
    requires Parted(text, t, k)
    ensures |text| == 2 * |t| && text[k - 1] == t[k - 1] && text[k + |t|] == t[k]
    ensures forall i | k <= i < k + |t| :: text[i] == 'x'
    ensures text[..k] == t[..k] && text[k + |t|..] == t[k..]
  {
  }

  lemma PartedStays(text: string, t: string, k: nat, p: nat)
    requires Parted(text, t, k)
    ensures !Matches(text, t, p)
  {
    PartedAt(text, t, k);
    hide Matches, Parted;
    if p > |t| {
      TooFar(text, t, p);
    } else {
      KindsDiffer(text, t, p, if p < |t| then k else k - 1);
    }
  }

  lemma FillerStandsInside(text: string, t: string, k: nat, p: nat)
    requires Parted(text, t, k)
    ensures Matches(text, Filler(|t|), p) <==> p == k
  {
    PartedAt(text, t, k);
    var n, w := |t|, Filler(|t|);
    if p == k {
      FillerHere(text, n, p);
    } else {
      hide Matches, Parted;
      if p > n {
        TooFar(text, w, p);
      } else {
        KindsDiffer(text, w, p, if p < k then k - 1 - p else k + n - p);
      }
    }
  }

  lemma FillerGoes(text: string, t: string, k: nat)
    requires Parted(text, t, k)
    ensures Remove(text, Filler(|t|)) == t
  {
    var n, w := |t|, Filler(|t|);
    PartedAt(text, t, k);
    forall p: nat ensures Matches(text, w, p) <==> p == k { FillerStandsInside(text, t, k, p); }
    hide Matches, RemoveFrom;
    RemoveAt(text, w, 0, k);
    RemoveNoMore(text, w, k + n);
    assert t == t[..k] + t[k..];
    assert text[0..k] == text[..k];
  }

  /** What is left before tidying holds the token as a whole word. */
  predicate LaidBare(x: string, t: string) {
    && t != ""
    && x == (if IsWord(t[0]) then "" else ".") + (t + if IsWord(t[|t| - 1]) then "" else ".")
  }

  /** Removing a token that occurs nowhere changes nothing. */
  lemma NothingToRemove(s: string, tok: string)
    requires tok != "" && forall i: nat | i < |s| :: !Matches(s, tok, i)
    ensures Remove(s, tok) == s
  {
    assert NextMatch(s, tok, 0) == |s|;
  }

  lemma OneToken(text: string, tok: string)
    ensures RemoveAll(text, [tok]) == Remove(text, tok)
  {
    assert [tok][..0] == [];
  }

  lemma TwoTokens(text: string, a: string, b: string)
    requires a != "" && forall p: nat :: !Matches(text, a, p)
    ensures RemoveAll(text, [a, b]) == Remove(text, b)
  {
    OneToken(text, a);
    NothingToRemove(text, a);
    hide Matches, NextMatch, Remove;
    assert [a, b][..1] == [a];
  }

  lemma PairOutlives(t: string) returns (text: string)
    requires t != "" && IsWord(t[0]) && IsWord(t[|t| - 1]) && !NoPair(t)
    ensures RemoveAll(text, [t, Filler(|t|)]) == t
  {
    var n, w := |t|, Filler(|t|);
    var i :| 0 <= i < n - 1 && !IsWord(t[i]) && !IsWord(t[i + 1]);
    text := t[..i + 1] + w + t[i + 1..];
    assert Parted(text, t, i + 1);
    hide Parted, Matches, Remove, RemoveAll;
    forall p: nat ensures !Matches(text, t, p) { PartedStays(text, t, i + 1, p); }
    FillerGoes(text, t, i + 1);
    TwoTokens(text, t, w);
  }

  lemma ShieldedText(t: string) returns (text: string, a: nat, b: nat)
    requires t != "" && (!IsWord(t[0]) || !IsWord(t[|t| - 1]))
    ensures Shielded(text, t, a, b) && (a > 0 <==> !IsWord(t[0])) && (b > 0 <==> !IsWord(t[|t| - 1]))
  {
    var w := Filler(|t|);
    var before, behind := if IsWord(t[0]) then "" else "." + w, if IsWord(t[|t| - 1]) then "" else w + ".";
    text, a, b := before + t + behind, |before|, |behind|;
    assert text[a..a + |t|] == t;
  }

  lemma EndOutlives(t: string) returns (text: string, x: string)
    requires t != "" && (!IsWord(t[0]) || !IsWord(t[|t| - 1]))
    ensures RemoveAll(text, [t, Filler(|t|)]) == x && LaidBare(x, t)
  {
    var a, b;
    text, a, b := ShieldedText(t);
    hide Shielded, Matches, Remove, RemoveAll;
    forall p: nat ensures !Matches(text, t, p) { ShieldedStays(text, t, a, b, p); }
    FillersGo(text, t, a, b);
    TwoTokens(text, t, Filler(|t|));
    x := Remove(text, Filler(|t|));
  }

  // ---- what is kept ----

  /** The words that are none of the tokens. */
  function Kept(ws: seq<string>, tok: string): seq<string> {
    if ws == [] then []
    else (if SameText(ws[0], tok) then [] else [ws[0]]) + Kept(ws[1..], tok)
  }

  lemma {:induction false} KeptAppend(a: seq<string>, b: seq<string>, tok: string)
    ensures Kept(a + b, tok) == Kept(a, tok) + Kept(b, tok)
  {
    if a == [] {
      assert a + b == b;
    } else {
      assert (a + b)[1..] == a[1..] + b;
      KeptAppend(a[1..], b, tok);
    }
  }

  lemma {:induction false} KeptAll(ws: seq<string>, tok: string)
    requires Avoids(ws, tok)
    ensures Kept(ws, tok) == ws
  {
    if ws != [] {
      assert !SameText(ws[0], tok);
      forall k | 0 <= k < |ws[1..]| ensures !SameText(ws[1..][k], tok) { assert !SameText(ws[k + 1], tok); }
      KeptAll(ws[1..], tok);
    }
  }

  lemma FoldedIsWord(chunk: string, tok: string)
    requires WordOnly(tok) && EqFold(chunk, tok)
    ensures WordOnly(chunk)
  {
    forall i | 0 <= i < |chunk| ensures IsWord(chunk[i]) {
      assert IsWord(tok[i]) && Fold(chunk[i]) == Fold(tok[i]);
    }
  }

  /** A token made only of word characters removes exactly the words equal to it, nothing else. */
  lemma {:induction false} WordTokenRemovesExactly(s: string, tok: string, i: nat)
    requires WordOnly(tok) && i <= |s| && (i == 0 || i == |s| || !IsWord(s[i]))
    ensures Words(RemoveFrom(s, tok, i)) == Kept(Words(s[i..]), tok)
    decreases |s| - i
  {
    hide Words, Avoids, RemoveFrom, NextMatch;
    var m := RemoveStep(s, tok, i);
    PieceAvoids(s, tok, i, m);
    KeptAll(Words(s[i..m]), tok);
    if m == |s| {
      assert s[i..m] == s[i..];
    } else {
      var e := m + |tok|;
      var chunk, rest := s[m..e], RemoveFrom(s, tok, e);
      WordTokenRemovesExactly(s, tok, e);
      CutAtMatch(s, tok, i, m, rest);
      FoldedIsWord(chunk, tok);
      EqFoldIff(chunk, tok);
      WholeWord(chunk);
      assert Kept([chunk], tok) == [];
      KeptAppend(Words(s[i..m]), [chunk] + Words(s[e..]), tok);
      KeptAppend([chunk], Words(s[e..]), tok);
    }
  }

  /** A longer word is not caught by a token it contains. */
  lemma LongerWordSurvives(w: string, tok: string)
    requires WordOnly(w) && WordOnly(tok) && |w| != |tok|
    ensures Words(Remove(w, tok)) == [w]
  {
    WordTokenRemovesExactly(w, tok, 0);
    assert w[0..] == w;
    WholeWord(w);
    hide Words, RemoveFrom;
    assert Avoids([w], tok);
    KeptAll([w], tok);
  }

  // ---- a space alone ----

  lemma {:induction false} RunLenInFront(a: string, rest: string, run: char -> bool)
    requires a != "" && !run(a[|a| - 1])
    ensures RunLen(a + rest, run) == RunLen(a, run) < |a|
  {
    assert (a + rest)[0] == a[0];
    if run(a[0]) {
      assert (a + rest)[1..] == a[1..] + rest;
      RunLenInFront(a[1..], rest, run);
    }
  }

  lemma Regroup(a: string, b: string, z: string, k: nat)
    requires k <= |a|
    ensures (a + b)[..k] == a[..k] && (a + b)[k..] == a[k..] + b && a[..k] + (a[k..] + z) == a + z
    ensures k < |a| ==> a[k..][|a[k..]| - 1] == a[|a| - 1]
    ensures a != "" ==> (a + b)[0] == a[0] && (k == 1 ==> a[..k] == [a[0]])
  {
  }

  /** What ends outside a run and has no long one is left alone, whatever follows. */
  lemma {:induction false} CollapseBehind(a: string, rest: string, run: char -> bool, min: nat, put: string)
    requires min > 0 && (a == "" || !run(a[|a| - 1])) && RunFree(a, run, min)
    ensures Collapse(a + rest, run, min, put) == a + Collapse(rest, run, min, put)
    decreases |a|
  {
    if a == "" {
      assert a + rest == rest;
    } else {
      RunLenInFront(a, rest, run);
      assert !RunAt(a, run, min, 0);
      assert RunLen(a, run) < min;
      hide Collapse, RunLen, RunFree, RunAt;
      var k, head := CollapseHead(a + rest, run, min, put);
      RestIsRunFree(a, k, run, min);
      Regroup(a, rest, Collapse(rest, run, min, put), k);
      CollapseBehind(a[k..], rest, run, min, put);
    }
  }

  lemma TwoSpaces(b: string)
    requires b == "" || !IsBlankRun()(b[0])
    ensures CollapseBlanks("  " + b) == " " + CollapseBlanks(b)
  {
    var s, run := "  " + b, IsBlankRun();
    assert s[2..] == b && s[1..] == " " + b && s[1..][1..] == b;
    assert RunLen(b, run) == 0;
    assert RunLen(s[1..], run) == 1;
    assert RunLen(s, run) == 2;
  }

  lemma NoPairNoRun(t: string, run: char -> bool, min: nat)
    requires NoPair(t) && min >= 2 && forall c :: run(c) ==> !IsWord(c)
    ensures RunFree(t, run, min)
  {
    forall i: nat ensures !RunAt(t, run, min, i) {
      if i + min <= |t| { assert IsWord(t[i]) || IsWord(t[i + 1]); }
    }
  }

  lemma PartHasNoPair(t: string, i: nat, j: nat)
    requires NoPair(t) && i <= j <= |t|
    ensures NoPair(t[i..j])
  {
    forall k | 0 <= k < |t[i..j]| - 1 ensures IsWord(t[i..j][k]) || IsWord(t[i..j][k + 1]) {
      assert IsWord(t[i + k]) || IsWord(t[i + k + 1]);
    }
  }

  /** A token with a single space comes back where the text has two. */
  lemma SpaceComesBack(t: string) returns (text: string)
    requires t != "" && IsWord(t[0]) && IsWord(t[|t| - 1]) && NoPair(t) && ' ' in t
    ensures CollapseBlanks(RemoveAll(text, [t])) == t
  {
    var k :| 0 <= k < |t| && t[k] == ' ';
    var a, b, run := t[..k], t[k + 1..], IsBlankRun();
    assert 0 < k < |t| - 1;
    assert IsWord(t[k]) || IsWord(t[k + 1]);
    text := a + ("  " + b);
    assert t == a + (" " + b);
    assert text[0] == t[0] && text[k + 1] == ' ';
    forall p: nat ensures !Matches(text, t, p) {
      if p == 0 {
        KindsDiffer(text, t, 0, k + 1);
      } else if p == 1 {
        NextToWord(text, t, 1);
      } else {
        TooFar(text, t, p);
      }
    }
    NothingToRemove(text, t);
    OneToken(text, t);
    PartHasNoPair(t, 0, k);
    PartHasNoPair(t, k + 1, |t|);
    assert t[0..k] == a && t[k + 1..|t|] == b;
    hide Matches, Collapse, RunLen, RemoveAll, Remove, NoPair;
    NoPairNoRun(a, run, 2);
    NoPairNoRun(b, run, 2);
    CollapseBehind(a, "  " + b, run, 2, " ");
    TwoSpaces(b);
    NothingToCollapse(b, run, 2, " ");
  }

  // ---- the exact condition ----

  /** No text and no further tokens make the scrubber return `t` as a whole word. */
  ghost predicate Safe(t: string) {
    forall text, forbidden, r | t in forbidden && ScrubsTo(text, forbidden, r) :: Clean(r, t)
  }

  ghost predicate SafeInShards(t: string) {
    forall text, forbidden, r | t in forbidden && ScrubsToShard(text, forbidden, r) :: Clean(r, t)
  }

  lemma RunInMiddle(a: string, r: string, z: string, run: char -> bool, min: nat, i: nat)
    ensures RunAt(r, run, min, i) ==> RunAt(a + (r + z), run, min, |a| + i)
  {
    assert forall j | 0 <= j < |r| :: (a + (r + z))[|a| + j] == r[j];
    if RunAt(r, run, min, i) {
      forall j | |a| + i <= j < |a| + i + min ensures run((a + (r + z))[j]) { assert run(r[j - |a|]); }
    }
  }

  lemma StripIsRunFree(s: string, run: char -> bool, min: nat)
    requires RunFree(s, run, min)
    ensures RunFree(Strip(s), run, min)
  {
    var a, z := StripPieces(s);
    var r := Strip(s);
    forall i: nat ensures !RunAt(r, run, min, i) {
      RunInMiddle(a, r, z, run, min, i);
    }
  }

  lemma RunTokenIsClean(r: string, t: string, run: char -> bool, min: nat)
    requires (forall c :: run(c) ==> !IsWord(c)) && LongRun(t, run, min) && RunFree(r, run, min)
    ensures Clean(r, t)
  {
    var i: nat :| RunAt(t, run, min, i);
    hide Clean, Matches, RunAt;
    CleanIff(r, t);
    forall p: nat ensures !Matches(r, t, p) {
      if Matches(r, t, p) { MatchHasRun(r, t, run, min, i, p); }
    }
  }

  /** Two blanks do not begin in a head without blanks, nor in one blank not followed by another. */
  lemma NoBlanksInHead(head: string, rest: string, i: nat)
    requires i < |head|
    requires IsBlankRun()(head[i]) ==> |head| == 1 && (rest == "" || !IsBlankRun()(rest[0]))
    ensures !RunAt(head + rest, IsBlankRun(), 2, i)
  {
    var r := head + rest;
    assert r[i] == head[i];
    assert i + 1 == |head| && rest != "" ==> r[i + 1] == rest[0];
  }

  lemma NewlinesKeepFirst(s: string)
    ensures var r := Collapse(s, IsNewline(), 3, "\n\n"); (s == "" <==> r == "") && (s != "" ==> r[0] == s[0])
  {
  }

  /** Shortening runs of newlines brings no blanks together. */
  lemma {:induction false} NewlinesLeaveBlanks(s: string, i: nat)
    requires RunFree(s, IsBlankRun(), 2)
    ensures !RunAt(Collapse(s, IsNewline(), 3, "\n\n"), IsBlankRun(), 2, i)
    decreases |s|
  {
    if s != "" {
      var k, head := CollapseHead(s, IsNewline(), 3, "\n\n");
      var rest := Collapse(s[k..], IsNewline(), 3, "\n\n");
      RestIsRunFree(s, k, IsBlankRun(), 2);
      NewlinesKeepFirst(s[k..]);
      assert !RunAt(s, IsBlankRun(), 2, 0);
      assert forall j | 0 <= j < RunLen(s, IsNewline()) :: s[j] == '\n';
      hide Collapse, RunLen, RunFree;
      if i < |head| {
        NoBlanksInHead(head, rest, i);
      } else if RunAt(head + rest, IsBlankRun(), 2, i) {
        RunBehind(head, rest, IsBlankRun(), 2, i);
        NewlinesLeaveBlanks(s[k..], i - |head|);
      }
    }
  }

  lemma CollapsedIsRunFree(x: string)
    ensures var c := CollapseBlanks(x);
            var d := Collapse(c, IsNewline(), 3, "\n\n");
            RunFree(c, IsBlankRun(), 2) && RunFree(d, IsBlankRun(), 2) && RunFree(d, IsNewline(), 3)
  {
    hide RunAt, Collapse;
    var c := CollapseBlanks(x);
    var d := Collapse(c, IsNewline(), 3, "\n\n");
    forall i: nat ensures !RunAt(c, IsBlankRun(), 2, i) { NoLongRunLeft(x, IsBlankRun(), 2, " ", i); }
    forall i: nat ensures !RunAt(d, IsBlankRun(), 2, i) { NewlinesLeaveBlanks(c, i); }
    forall i: nat ensures !RunAt(d, IsNewline(), 3, i) { NoLongRunLeft(c, IsNewline(), 3, "\n\n", i); }
  }

  /** No scrubbed text has two blanks in a row, and none of the shard builder's three newlines. */
  lemma ResultsAreRunFree(text: string, toks: seq<string>)
    ensures RunFree(Scrubbed(text, toks), IsBlankRun(), 2)
    ensures RunFree(ScrubbedShard(text, toks), IsBlankRun(), 2) && RunFree(ScrubbedShard(text, toks), IsNewline(), 3)
  {
    hide RunFree, RemoveAll, Collapse, CollapseBlanks, IsBlankRun, IsNewline;
    var c := CollapseBlanks(RemoveAll(text, toks));
    var d := Collapse(c, IsNewline(), 3, "\n\n");
    CollapsedIsRunFree(RemoveAll(text, toks));
    StripIsRunFree(c, IsBlankRun(), 2);
    StripIsRunFree(d, IsBlankRun(), 2);
    StripIsRunFree(d, IsNewline(), 3);
  }

  lemma {:induction false} NothingRemoved(text: string, toks: seq<string>)
    requires forall t | t in toks && t != "" :: Clean(text, t)
    ensures RemoveAll(text, toks) == text
  {
    if toks != [] {
      var rest, t := toks[..|toks| - 1], toks[|toks| - 1];
      NothingRemoved(text, rest);
      if t == "" {
        EmptyTokenRemovesNothing(text);
      } else {
        CleanIff(text, t);
        hide Clean, Matches;
        NothingToRemove(text, t);
      }
    }
  }

  predicate TwoBlanksAt(r: string, i: nat) {
    i + 1 < |r| && r[i] in " \t" && r[i + 1] in " \t"
  }

  predicate ThreeNewlinesAt(r: string, i: nat) {
    i + 3 <= |r| && r[i..i + 3] == "\n\n\n"
  }

  /** No blanks at the ends, and no two spaces or tabs in a row. */
  ghost predicate Tidy(r: string) {
    && (r != "" ==> !IsSpace(r[0]) && !IsSpace(r[|r| - 1]))
    && forall i: nat :: !TwoBlanksAt(r, i)
  }

  lemma TwoBlanksIff(r: string, i: nat)
    ensures TwoBlanksAt(r, i) <==> RunAt(r, IsBlankRun(), 2, i)
  {
    assert forall c :: c in " \t" <==> IsBlankRun()(c);
    if TwoBlanksAt(r, i) {
      assert forall j | i <= j < i + 2 :: r[j] in " \t";
    }
  }

  lemma ThreeNewlinesIff(r: string, i: nat)
    ensures ThreeNewlinesAt(r, i) <==> RunAt(r, IsNewline(), 3, i)
  {
    if i + 3 <= |r| {
      var w := r[i..i + 3];
      assert w[0] == r[i] && w[1] == r[i + 1] && w[2] == r[i + 2];
      if RunAt(r, IsNewline(), 3, i) { assert IsNewline()(r[i]) && IsNewline()(r[i + 1]) && IsNewline()(r[i + 2]); }
      if w == "\n\n\n" {
        forall j | i <= j < i + 3 ensures IsNewline()(r[j]) { assert r[j] == w[j - i]; }
      }
    }
  }

  lemma StrippedIsTidy(s: string)
    requires RunFree(Strip(s), IsBlankRun(), 2)
    ensures Tidy(Strip(s))
  {
    var l := LStrip(s);
    var r := RStrip(l);
    if r != "" { assert l[..|r|][0] == l[0]; }
    forall i: nat ensures !TwoBlanksAt(r, i) { TwoBlanksIff(r, i); }
    hide LStrip, RStrip, IsSpace, RunAt, TwoBlanksAt;
  }

  /** What either scrubber returns is tidy, and what the shard builder's returns has no three newlines in a row. */
  lemma ResultsAreTidy(text: string, toks: seq<string>)
    ensures Tidy(Scrubbed(text, toks)) && Tidy(ScrubbedShard(text, toks))
    ensures forall i: nat :: !ThreeNewlinesAt(ScrubbedShard(text, toks), i)
  {
    ResultsAreRunFree(text, toks);
    var c := CollapseBlanks(RemoveAll(text, toks));
    var d := Collapse(c, IsNewline(), 3, "\n\n");
    StrippedIsTidy(c);
    StrippedIsTidy(d);
    forall i: nat ensures !ThreeNewlinesAt(ScrubbedShard(text, toks), i) {
      ThreeNewlinesIff(ScrubbedShard(text, toks), i);
    }
    hide RemoveAll, Collapse, CollapseBlanks, Tidy, RunAt, ThreeNewlinesAt;
  }

  lemma TidyIsRunFree(text: string)
    requires Tidy(text)
    ensures RunFree(text, IsBlankRun(), 2) && Strip(text) == text
  {
    forall i: nat ensures !RunAt(text, IsBlankRun(), 2, i) { TwoBlanksIff(text, i); }
    if text != "" { StripKeeps(text); } else { StripBlank(text); }
    hide RunAt, TwoBlanksAt;
  }

  /** A tidy text that contains none of the tokens as a whole word comes through unchanged. */
  lemma CleanTextUntouched(text: string, toks: seq<string>)
    requires Tidy(text) && forall t | t in toks && t != "" :: Clean(text, t)
    ensures Scrubbed(text, toks) == text
    ensures (forall i: nat :: !ThreeNewlinesAt(text, i)) ==> ScrubbedShard(text, toks) == text
  {
    NothingRemoved(text, toks);
    TidyIsRunFree(text);
    hide Clean, Tidy, RemoveAll, Collapse, RunAt;
    NothingToCollapse(text, IsBlankRun(), 2, " ");
    if forall i: nat :: !ThreeNewlinesAt(text, i) {
      forall i: nat ensures !RunAt(text, IsNewline(), 3, i) { ThreeNewlinesIff(text, i); }
      NothingToCollapse(text, IsNewline(), 3, "\n\n");
    }
  }

  lemma RunsAreNoWords()
    ensures (forall c :: IsBlankRun()(c) ==> !IsWord(c)) && (forall c :: IsNewline()(c) ==> !IsWord(c))
  {
  }

  lemma RunTokensNeverLeak(text: string, toks: seq<string>, t: string)
    ensures LongRun(t, IsBlankRun(), 2) ==> Clean(Scrubbed(text, toks), t) && Clean(ScrubbedShard(text, toks), t)
    ensures LongRun(t, IsNewline(), 3) ==> Clean(ScrubbedShard(text, toks), t)
  {
    hide *;
    ResultsAreRunFree(text, toks);
    RunsAreNoWords();
    if LongRun(t, IsBlankRun(), 2) {
      RunTokenIsClean(Scrubbed(text, toks), t, IsBlankRun(), 2);
      RunTokenIsClean(ScrubbedShard(text, toks), t, IsBlankRun(), 2);
    }
    if LongRun(t, IsNewline(), 3) { RunTokenIsClean(ScrubbedShard(text, toks), t, IsNewline(), 3); }
  }

  lemma PadIsRunFree(t: string, run: char -> bool, min: nat, i: nat)
    requires !run('.') && RunAt(t + ".", run, min, i) && min > 0
    ensures RunAt(t, run, min, i)
  {
    assert (t + ".")[|t|] == '.';
    forall j | i <= j < i + min ensures j < |t| && run(t[j]) { assert (t + ".")[j] == if j < |t| then t[j] else '.'; }
  }

  lemma PadInFrontIsRunFree(t: string, run: char -> bool, min: nat, i: nat)
    requires !run('.') && RunAt("." + t, run, min, i) && min > 0
    ensures i > 0 && RunAt(t, run, min, i - 1)
  {
    assert ("." + t)[0] == '.';
    RunBehind(".", t, run, min, i);
  }

  lemma LaidBareIsRunFree(x: string, t: string, run: char -> bool, min: nat)
    requires LaidBare(x, t) && !run('.') && min > 0 && RunFree(t, run, min)
    ensures RunFree(x, run, min)
  {
    var r := if IsWord(t[|t| - 1]) then t else t + ".";
    assert x == if IsWord(t[0]) then r else "." + r;
    forall i: nat ensures !RunAt(r, run, min, i) {
      if RunAt(r, run, min, i) && r != t { PadIsRunFree(t, run, min, i); }
    }
    forall i: nat ensures !RunAt(x, run, min, i) {
      if RunAt(x, run, min, i) && x != r { PadInFrontIsRunFree(r, run, min, i); }
    }
  }

  /** The bare token is a whole word, and there is nothing around it to strip. */
  lemma LaidBareLeaks(x: string, t: string)
    requires LaidBare(x, t)
    ensures x != "" && !IsSpace(x[0]) && !IsSpace(x[|x| - 1]) && !Clean(x, t)
  {
    var a := if IsWord(t[0]) then 0 else 1;
    assert x[a..a + |t|] == t;
    assert Matches(x, t, a);
    CleanIff(x, t);
    hide Clean, Matches;
  }

  ghost function AsSet(toks: seq<string>): set<string> {
    set t | t in toks
  }

  lemma FillerIsOther(t: string)
    requires t != "" && (!IsWord(t[0]) || !IsWord(t[|t| - 1]) || !NoPair(t))
    ensures t != Filler(|t|)
  {
  }

  /** A text and a forbidden set with which a token that is not tight comes through. */
  lemma ComesThrough(t: string) returns (text: string, toks: seq<string>, x: string)
    requires t != "" && !Tight(t) && RunFree(t, IsBlankRun(), 2)
    ensures LaidBare(x, t) && CollapseBlanks(RemoveAll(text, toks)) == x
    ensures t in toks && LongestFirst(AsSet(toks), toks)
  {
    hide RemoveAll, Collapse, RunFree;
    var w := Filler(|t|);
    if IsWord(t[0]) && IsWord(t[|t| - 1]) && NoPair(t) {
      text := SpaceComesBack(t);
      toks, x := [t], t;
    } else {
      if IsWord(t[0]) && IsWord(t[|t| - 1]) {
        text := PairOutlives(t);
        x := t;
      } else {
        text, x := EndOutlives(t);
      }
      toks := [t, w];
      FillerIsOther(t);
      LaidBareIsRunFree(x, t, IsBlankRun(), 2);
      NothingToCollapse(x, IsBlankRun(), 2, " ");
    }
  }

  lemma NotLongRun(t: string, run: char -> bool, min: nat)
    ensures LongRun(t, run, min) || RunFree(t, run, min)
  {
  }

  lemma TidyingChangesNothing(text: string, toks: seq<string>, x: string, t: string)
    requires LaidBare(x, t) && CollapseBlanks(RemoveAll(text, toks)) == x
    ensures Scrubbed(text, toks) == x && !Clean(x, t)
    ensures RunFree(t, IsNewline(), 3) ==> ScrubbedShard(text, toks) == x
  {
    hide Clean, RemoveAll, Collapse, RunFree, LaidBare;
    LaidBareLeaks(x, t);
    StripKeeps(x);
    if RunFree(t, IsNewline(), 3) {
      LaidBareIsRunFree(x, t, IsNewline(), 3);
      NothingToCollapse(x, IsNewline(), 3, "\n\n");
    }
  }

  lemma EmptyTokenLeaks()
    ensures Scrubbed("", [""]) == ScrubbedShard("", [""]) == "" && !Clean("", "")
    ensures LongestFirst(AsSet([""]), [""])
  {
    OneToken("", "");
    assert Matches("", "", 0);
    CleanIff("", "");
    assert CollapseBlanks("") == "" && Collapse("", IsNewline(), 3, "\n\n") == "";
    StripBlank("");
    hide Clean, RemoveAll, Collapse, Matches;
  }

  lemma LeakingText(t: string) returns (text: string, forbidden: set<string>, r: string)
    requires !Tight(t) && RunFree(t, IsBlankRun(), 2)
    ensures t in forbidden && ScrubsTo(text, forbidden, r) && !Clean(r, t)
    ensures RunFree(t, IsNewline(), 3) ==> ScrubsToShard(text, forbidden, r)
  {
    hide Clean, Tight, RunFree, Scrubbed, ScrubbedShard, LongestFirst, LaidBare, CollapseBlanks;
    var toks;
    if t == "" {
      text, toks, r := "", [""], "";
      EmptyTokenLeaks();
    } else {
      text, toks, r := ComesThrough(t);
      TidyingChangesNothing(text, toks, r, t);
    }
    forbidden := AsSet(toks);
  }

  /** Exactly which tokens never come through, whatever the text and whatever else is forbidden: the tight ones,
      and those with two blanks in a row, which no result contains. */
  lemma NeverLeaksIff(t: string)
    ensures Safe(t) <==> Tight(t) || LongRun(t, IsBlankRun(), 2)
  {
    hide Clean, Scrubbed, Tight, LongRun;
    if Tight(t) || LongRun(t, IsBlankRun(), 2) {
      forall text, forbidden, r | t in forbidden && ScrubsTo(text, forbidden, r) ensures Clean(r, t) {
        var toks :| LongestFirst(forbidden, toks) && r == Scrubbed(text, toks);
        RunTokensNeverLeak(text, toks, t);
        if Tight(t) { TightTokensNeverLeak(text, toks, t); }
      }
    } else {
      NotLongRun(t, IsBlankRun(), 2);
      var text, forbidden, r := LeakingText(t);
    }
  }

  /** The same for the shard builder's scrubber, which also leaves no three newlines in a row. */
  lemma NeverLeaksInShardsIff(t: string)
    ensures SafeInShards(t) <==> Tight(t) || LongRun(t, IsBlankRun(), 2) || LongRun(t, IsNewline(), 3)
  {
    hide Clean, ScrubbedShard, Tight, LongRun;
    if Tight(t) || LongRun(t, IsBlankRun(), 2) || LongRun(t, IsNewline(), 3) {
      forall text, forbidden, r | t in forbidden && ScrubsToShard(text, forbidden, r) ensures Clean(r, t) {
        var toks :| LongestFirst(forbidden, toks) && r == ScrubbedShard(text, toks);
        RunTokensNeverLeak(text, toks, t);
        if Tight(t) { TightTokensNeverLeak(text, toks, t); }
      }
    } else {
      NotLongRun(t, IsBlankRun(), 2);
      NotLongRun(t, IsNewline(), 3);
      var text, forbidden, r := LeakingText(t);
    }
  }

  // ---- why longer tokens come first ----

  lemma NothingFromNothing(u: string)
    ensures Remove("", u) == ""
  {
  }

  lemma MatchesItself(s: string)
    ensures Matches(s, s, 0)
  {
    assert s[0..|s|] == s;
  }

  /** A token no shorter than the text leaves it alone or removes all of it. */
  lemma RemoveNoShorter(s: string, u: string)
    requires u != "" && |u| >= |s|
    ensures Remove(s, u) in {s, ""} && (u == s ==> Remove(s, u) == "")
  {
    hide EqFold;
    var m := RemoveStep(s, u, 0);
    if m == |s| {
      assert s[0..m] == s;
      if u == s { MatchesItself(s); }
    } else {
      assert m == 0 && s[0..0] == "";
      var e := RemoveStep(s, u, |u|);
      assert s[|u|..] == "";
    }
  }

  lemma InPrefix(toks: seq<string>, n: nat, k: nat)
    requires n <= |toks| && k < |toks|
    ensures k < n ==> toks[k] in toks[..n]
  {
    if k < n { assert toks[..n][k] == toks[k]; }
  }

  lemma NothingLeftToTidy(text: string, toks: seq<string>)
    requires RemoveAll(text, toks) == ""
    ensures Scrubbed(text, toks) == ScrubbedShard(text, toks) == ""
  {
    assert CollapseBlanks("") == "" && Collapse("", IsNewline(), 3, "\n\n") == "";
    StripBlank("");
    hide RemoveAll, Collapse;
  }

  lemma {:induction false} AloneOrGone(t: string, forbidden: set<string>, toks: seq<string>, n: nat)
    requires t in forbidden && t != "" && LongestFirst(forbidden, toks) && n <= |toks|
    ensures RemoveAll(t, toks[..n]) == "" || (RemoveAll(t, toks[..n]) == t && t !in toks[..n])
  {
    hide Remove;
    if n > 0 {
      AloneOrGone(t, forbidden, toks, n - 1);
      assert toks[..n][..n - 1] == toks[..n - 1] && toks[..n] == toks[..n - 1] + [toks[n - 1]];
      if RemoveAll(t, toks[..n - 1]) == "" {
        NothingFromNothing(toks[n - 1]);
      } else {
        var k :| 0 <= k < |toks| && toks[k] == t;
        InPrefix(toks, n - 1, k);
        RemoveNoShorter(t, toks[n - 1]);
      }
    }
  }

  lemma AllGone(t: string, forbidden: set<string>, toks: seq<string>)
    requires t in forbidden && t != "" && LongestFirst(forbidden, toks)
    ensures Scrubbed(t, toks) == ScrubbedShard(t, toks) == ""
  {
    AloneOrGone(t, forbidden, toks, |toks|);
    assert toks[..|toks|] == toks;
    assert t in toks;
    NothingLeftToTidy(t, toks);
    hide RemoveAll;
  }

  /** Whatever else is forbidden, a text that is itself a forbidden token leaves nothing: no shorter token can take
      a part of it away before its own turn. */
  lemma TokenAloneVanishes(t: string, forbidden: set<string>, r: string)
    requires t in forbidden && t != "" && (ScrubsTo(t, forbidden, r) || ScrubsToShard(t, forbidden, r))
    ensures r == ""
  {
    hide LongestFirst, Scrubbed, ScrubbedShard;
    if ScrubsTo(t, forbidden, r) {
      var toks :| LongestFirst(forbidden, toks) && r == Scrubbed(t, toks);
      AllGone(t, forbidden, toks);
    } else {
      var toks :| LongestFirst(forbidden, toks) && r == ScrubbedShard(t, toks);
      AllGone(t, forbidden, toks);
    }
  }

  // ---- building a question ----

  /** The candidate is turned down: what is left of it is too short. */
  ghost predicate TooShort(text: string, forbidden: set<string>) {
    exists r :: ScrubsTo(text, forbidden, r) && |r| < 40
  }

  /** `build_question`: the first candidate that is still long enough after scrubbing. `clean` stands for
      the markup stripping and `symbols` for the symbol-like tokens of a candidate. */
  method BuildQuestion(cands: seq<string>, leak: set<string>, clean: string -> string, symbols: string -> set<string>)
    returns (q: Option<string>, first: nat)
    ensures first <= |cands| && forall j | 0 <= j < first :: TooShort(clean(cands[j]), leak + symbols(cands[j]))
    ensures q.None? <==> first == |cands|
    ensures q.Some? ==> |q.value| >= 40 && ScrubsTo(clean(cands[first]), leak + symbols(cands[first]), q.value)
    ensures q.Some? ==> Subseq(Words(q.value), Words(clean(cands[first])))
    ensures q.Some? ==> forall t | t in leak && t != "" :: Avoids(Words(q.value), t)
  {
    hide ScrubsTo, Words, Avoids, Subseq;
    first := 0;
    while first < |cands|
      invariant first <= |cands|
      invariant forall j | 0 <= j < first :: TooShort(clean(cands[j]), leak + symbols(cands[j]))
    {
      var text, forbidden := clean(cands[first]), leak + symbols(cands[first]);
      var scrubbed := Scrub(text, forbidden);
      if |scrubbed| >= 40 {
        ScrubResultNeverLeaks(text, forbidden, scrubbed);
        return Some(scrubbed), first;
      }
      first := first + 1;
    }
    return None, first;
  }

  // ---- the shard builder's query ----

  function SentenceEnd(s: string): (m: nat)
    ensures m <= |s| && (m < |s| ==> s[m] in ['.', '!', '?'])
  {
    if s == "" || s[0] in ['.', '!', '?'] then 0 else 1 + SentenceEnd(s[1..])
  }

  /** A text that does not open with a question word is cut after its first sentence if that is long enough. */
  function FirstSentence(s: string, opensQuestion: bool): string {
    var m := SentenceEnd(s);
    if !opensQuestion && m < |s| && m > 40 then s[..m + 1] else s
  }

  /** The end of `_build_query`, on scrubbed text: too short a text gives no query. */
  function FinishQuery(scrubbed: string, opensQuestion: bool): Option<string> {
    if |scrubbed| < 40 then None else Some(Strip(FirstSentence(scrubbed, opensQuestion)))
  }

  lemma {:induction false} SentenceEndIsFirst(s: string)
    ensures forall i | 0 <= i < SentenceEnd(s) :: s[i] !in ['.', '!', '?']
  {
    if s != "" && s[0] !in ['.', '!', '?'] {
      SentenceEndIsFirst(s[1..]);
      forall i | 0 <= i < SentenceEnd(s) ensures s[i] !in ['.', '!', '?'] {
        if i > 0 { assert s[i] == s[1..][i - 1]; }
      }
    }
  }

  /** There is a query if and only if 40 characters are left after scrubbing. It is the whole text, or its first
      sentence, which ends at `m`, if that is longer than 40 characters and the text opens with no question word. */
  lemma QueryIs(s: string, opensQuestion: bool) returns (m: nat)
    ensures m <= |s| && (m < |s| ==> s[m] in ".!?") && forall i | 0 <= i < m :: s[i] !in ".!?"
    ensures FinishQuery(s, opensQuestion) ==
            if |s| < 40 then None else Some(Strip(if !opensQuestion && 40 < m < |s| then s[..m + 1] else s))
  {
    m := SentenceEnd(s);
    SentenceEndIsFirst(s);
    assert forall c :: c in ".!?" <==> c in ['.', '!', '?'];
  }

  lemma {:induction false} SubseqExtend(a: seq<string>, b: seq<string>)
    ensures Subseq(a, a + b)
  {
    if a != [] {
      SubseqExtend(a[1..], b);
      assert (a + b)[1..] == a[1..] + b;
    }
  }

  lemma CutKeepsSubseq(s: string, m: nat, cut: string)
    requires cut == s || (m < |s| && !IsWord(s[m]) && cut == s[..m + 1])
    ensures Subseq(Words(cut), Words(s))
  {
    SubseqRefl(Words(s));
    if cut != s {
      var rest := s[m + 1..];
      assert s == cut + rest;
      WordsAppend(cut, rest);
      hide Words;
      SubseqExtend(Words(cut), Words(rest));
    }
  }

  lemma FirstSentenceOnlyDrops(s: string, opensQuestion: bool)
    ensures Subseq(Words(FirstSentence(s, opensQuestion)), Words(s))
  {
    hide Words, Subseq, SentenceEnd;
    CutKeepsSubseq(s, SentenceEnd(s), FirstSentence(s, opensQuestion));
  }

  lemma FinishOnlyDrops(s: string, opensQuestion: bool)
    ensures var q := FinishQuery(s, opensQuestion); q.Some? ==> Subseq(Words(q.value), Words(s))
  {
    hide Words, Subseq, FirstSentence;
    FirstSentenceOnlyDrops(s, opensQuestion);
    StripKeepsWords(FirstSentence(s, opensQuestion));
  }

  /** No leak through the trimming either: it cuts no word. */
  lemma QueryNeverLeaks(text: string, toks: seq<string>, opensQuestion: bool)
    ensures var q := FinishQuery(ScrubbedShard(text, toks), opensQuestion);
            q.Some? ==>
              && Subseq(Words(q.value), Words(text))
              && forall i | 0 <= i < |toks| && toks[i] != "" :: Avoids(Words(q.value), toks[i])
  {
    var s := ScrubbedShard(text, toks);
    ScrubNeverLeaks(text, toks);
    FinishOnlyDrops(s, opensQuestion);
    hide *;
    var q := FinishQuery(s, opensQuestion);
    if q.Some? {
      SubseqTransitive(Words(q.value), Words(s), Words(text));
      SubseqElements(Words(q.value), Words(s));
      forall i | 0 <= i < |toks| && toks[i] != "" ensures Avoids(Words(q.value), toks[i]) {
        AvoidsSub(Words(q.value), Words(s), toks[i]);
      }
    }
  }
}
