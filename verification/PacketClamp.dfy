/** Clamping a context packet to a token budget: the exact form, and the line-count preview. */
module PacketClamp {
  import opened Text
  import opened Counting
  import opened LineRecovery
  import opened BudgetClamp

  const COMPRESSED_PREFIX := "[COMPRESSED"

  /** A delivered packet item. An absent field reads as the empty string. */
  datatype Item = Item(source: string, content: string)

  datatype Verdict = Failed | Compressed | Usable

  type Entry = (string, Lines)

  type Spans = map<string, seq<Lines>>

  function Slashes(s: string): string {
    if s == "" then "" else [if s[0] == '\\' then '/' else s[0]] + Slashes(s[1..])
  }

  /** Each backslash becomes a slash; nothing else changes. */
  lemma {:induction false} SlashesIs(s: string)
    ensures |Slashes(s)| == |s|
    ensures forall i | 0 <= i < |s| :: Slashes(s)[i] == if s[i] == '\\' then '/' else s[i]
  {
    if s != "" { SlashesIs(s[1..]); }
  }

  function FileOf(it: Item, cache: map<string, string>): Option<string> {
    var src := Slashes(it.source);
    if src in cache then Some(cache[src]) else None
  }

  function RangeOf(it: Item, cache: map<string, string>): Option<Lines> {
    RecoverLines(it.content, FileOf(it, cache))
  }

  function Judge(it: Item, cache: map<string, string>): Verdict {
    if Slashes(it.source) == "" then Failed
    else if COMPRESSED_PREFIX <= it.content then Compressed
    else if RangeOf(it, cache).None? then Failed
    else Usable
  }

  /** The verdict on an item: compressed if it has a source and bears the mark; usable if it has a source, no mark
      and some text, and its file is at hand and contains that text, as it is or without the blanks around it. */
  lemma VerdictIs(it: Item, cache: map<string, string>)
    ensures Judge(it, cache) == Compressed <==> it.source != "" && "[COMPRESSED" <= it.content
    ensures Judge(it, cache) == Usable <==>
            && it.source != "" && !("[COMPRESSED" <= it.content) && !Blank(it.content)
            && Slashes(it.source) in cache
            && var file := cache[Slashes(it.source)];
               (exists i: nat :: MatchAt(file, it.content, i)) || (exists i: nat :: MatchAt(file, Strip(it.content), i))
  {
    SlashesIs(it.source);
    NothingRecoveredIff(it.content, FileOf(it, cache));
    hide RecoverLines, Slashes, Blank, Strip, MatchAt;
  }

  function Verdicts(items: seq<Item>, cache: map<string, string>): seq<Verdict> {
    seq(|items|, i requires 0 <= i < |items| => Judge(items[i], cache))
  }

  /** What keeping each item costs; `None` for the items that cannot be kept. */
  function Costs(items: seq<Item>, cache: map<string, string>, ntok: string -> nat): seq<Option<nat>> {
    seq(|items|, i requires 0 <= i < |items| =>
      if Judge(items[i], cache) == Usable then Some(ntok(items[i].content)) else None)
  }

  /** The span each item stands for. */
  function Placed(items: seq<Item>, cache: map<string, string>): seq<Entry> {
    seq(|items|, i requires 0 <= i < |items| =>
      match RangeOf(items[i], cache)
      case Some(lines) => (Slashes(items[i].source), lines)
      case None => ("", Lines(0, 0)))
  }

  // ---- spans by file ----

  function Put(spans: Spans, e: Entry): Spans {
    spans[e.0 := (if e.0 in spans then spans[e.0] else []) + [e.1]]
  }

  lemma PutKeys(spans: Spans, e: Entry)
    ensures Put(spans, e).Keys == spans.Keys + {e.0}
  {
  }

  /** The entries at the kept positions, gathered under their files. */
  function Gathered(entries: seq<Entry>, kept: seq<nat>): Spans {
    if kept == [] then map[]
    else
      var spans := Gathered(entries, kept[..|kept| - 1]);
      if kept[|kept| - 1] < |entries| then Put(spans, entries[kept[|kept| - 1]]) else spans
  }

  /** The spans kept for one file, in delivery order. */
  function Under(entries: seq<Entry>, kept: seq<nat>, file: string): seq<Lines> {
    if kept == [] then []
    else
      var front, k := Under(entries, kept[..|kept| - 1], file), kept[|kept| - 1];
      if k < |entries| && entries[k].0 == file then front + [entries[k].1] else front
  }

  /** The gathered map holds a file exactly when one of its spans was kept, and then exactly those, in order. */
  lemma {:induction false} GatheredByFile(entries: seq<Entry>, kept: seq<nat>, file: string)
    ensures file in Gathered(entries, kept) <==> Under(entries, kept, file) != []
    ensures file in Gathered(entries, kept) ==> Gathered(entries, kept)[file] == Under(entries, kept, file)
  {
    if kept != [] { GatheredByFile(entries, kept[..|kept| - 1], file); }
  }

  lemma GatherOne(entries: seq<Entry>, kept: seq<nat>, i: nat)
    requires i < |entries|
    ensures Gathered(entries, kept + [i]) == Put(Gathered(entries, kept), entries[i])
  {
    assert (kept + [i])[..|kept|] == kept;
  }

  lemma NextItem(costs: seq<Option<nat>>, i: nat, budget: nat)
    requires i < |costs|
    ensures Greedy(costs[..i + 1], budget) == Step(Greedy(costs[..i], budget), costs[i], budget)
  {
    assert costs[..i + 1][..i] == costs[..i];
  }

  /** How many of the verdicts are `v`. */
  function CountOf(verdicts: seq<Verdict>, v: Verdict): nat {
    if verdicts == [] then 0
    else CountOf(verdicts[..|verdicts| - 1], v) + if verdicts[|verdicts| - 1] == v then 1 else 0
  }

  lemma CountNext(verdicts: seq<Verdict>, i: nat, v: Verdict)
    requires i < |verdicts|
    ensures CountOf(verdicts[..i + 1], v) == CountOf(verdicts[..i], v) + if verdicts[i] == v then 1 else 0
  {
    assert verdicts[..i + 1][..i] == verdicts[..i];
  }

  lemma ItemAt(items: seq<Item>, cache: map<string, string>, ntok: string -> nat, i: nat)
    requires i < |items|
    ensures var it, v := items[i], Judge(items[i], cache);
            && |Costs(items, cache, ntok)| == |Verdicts(items, cache)| == |Placed(items, cache)| == |items|
            && Verdicts(items, cache)[i] == v
            && Costs(items, cache, ntok)[i] == (if v == Usable then Some(ntok(it.content)) else None)
            && (v == Usable ==>
                  && RangeOf(it, cache).Some?
                  && Placed(items, cache)[i] == (Slashes(it.source), RangeOf(it, cache).value))
  {
  }

  // ---- the exact clamp ----

  /** What `items_to_pred_clamped` returns: the spans by file and the five counters. */
  datatype Clamp = Clamp(spans: Spans, injected: nat, genes: nat, fail: nat, compressed: nat, clamped: nat)

  /** `r` is what the fill `f`, having consumed `f.consumed` of the items, amounts to. */
  predicate Reports(items: seq<Item>, cache: map<string, string>, f: Fill, r: Clamp) {
    && f.consumed <= |items| == |Verdicts(items, cache)|
    && r.spans == Gathered(Placed(items, cache), f.kept)
    && r.injected == f.total && r.genes == |f.kept| && r.clamped == |f.skipped|
    && r.fail == CountOf(Verdicts(items, cache)[..f.consumed], Failed)
    && r.compressed == CountOf(Verdicts(items, cache)[..f.consumed], Compressed)
    && r.genes + r.fail + r.compressed + r.clamped == f.consumed
  }

  lemma ReportsNothing(items: seq<Item>, cache: map<string, string>, budget: nat)
    ensures Reports(items, cache, Greedy([], budget), Clamp(map[], 0, 0, 0, 0, 0))
  {
  }

  lemma VerdictAt(items: seq<Item>, cache: map<string, string>, i: nat)
    requires i < |items|
    ensures |Verdicts(items, cache)| == |Placed(items, cache)| == |items|
    ensures var vs, v := Verdicts(items, cache), Judge(items[i], cache);
            && CountOf(vs[..i + 1], Failed) == CountOf(vs[..i], Failed) + (if v == Failed then 1 else 0)
            && CountOf(vs[..i + 1], Compressed) == CountOf(vs[..i], Compressed) + (if v == Compressed then 1 else 0)
  {
    CountNext(Verdicts(items, cache), i, Failed);
    CountNext(Verdicts(items, cache), i, Compressed);
  }

  lemma ReportsPassedOver(items: seq<Item>, cache: map<string, string>, budget: nat, f: Fill, r: Clamp)
    requires f.consumed < |items| && !f.full && Reports(items, cache, f, r)
    requires Judge(items[f.consumed], cache) != Usable
    ensures var failed := Judge(items[f.consumed], cache) == Failed;
            Reports(items, cache, Step(f, None, budget),
                    if failed then r.(fail := r.fail + 1) else r.(compressed := r.compressed + 1))
  {
    hide CountOf, Gathered, Placed, Verdicts, Judge;
    VerdictAt(items, cache, f.consumed);
  }

  lemma ReportsSkipped(items: seq<Item>, cache: map<string, string>, budget: nat, f: Fill, r: Clamp, cost: nat)
    requires f.consumed < |items| && !f.full && Reports(items, cache, f, r)
    requires Judge(items[f.consumed], cache) == Usable && r.genes >= 1 && r.injected + cost > budget
    ensures Reports(items, cache, Step(f, Some(cost), budget), r.(clamped := r.clamped + 1))
  {
    hide CountOf, Gathered, Placed, Verdicts, Judge;
    VerdictAt(items, cache, f.consumed);
  }

  lemma ReportsKept(items: seq<Item>, cache: map<string, string>, budget: nat, f: Fill, r: Clamp, cost: nat, at: Entry)
    requires f.consumed < |items| && !f.full && Reports(items, cache, f, r)
    requires Judge(items[f.consumed], cache) == Usable && !(r.genes >= 1 && r.injected + cost > budget)
    requires |Placed(items, cache)| == |items| && Placed(items, cache)[f.consumed] == at
    ensures Reports(items, cache, Step(f, Some(cost), budget),
                    r.(spans := Put(r.spans, at), injected := r.injected + cost, genes := r.genes + 1))
  {
    hide CountOf, Gathered, Placed, Verdicts, Judge, Put;
    VerdictAt(items, cache, f.consumed);
    GatherOne(Placed(items, cache), f.kept, f.consumed);
  }

  /** The report `r` is that of the greedy fill over the first `i` items, `full` or not. */
  ghost predicate ReportsTo(items: seq<Item>, cache: map<string, string>, ntok: string -> nat, budget: nat, i: nat,
                            r: Clamp, full: bool)
  {
    && i <= |items| == |Costs(items, cache, ntok)|
    && var f := Greedy(Costs(items, cache, ntok)[..i], budget);
       f.consumed == i && f.full == full && Reports(items, cache, f, r)
  }

  lemma ReportCounts(items: seq<Item>, cache: map<string, string>, f: Fill, r: Clamp)
    requires Reports(items, cache, f, r)
    ensures r.injected == f.total && r.genes == |f.kept|
  {
  }

  lemma ReportNext(items: seq<Item>, cache: map<string, string>, ntok: string -> nat, budget: nat, i: nat, r: Clamp)
    requires i < |items| && ReportsTo(items, cache, ntok, budget, i, r, false)
    ensures var it := items[i];
            match Judge(it, cache)
            case Failed => ReportsTo(items, cache, ntok, budget, i + 1, r.(fail := r.fail + 1), false)
            case Compressed => ReportsTo(items, cache, ntok, budget, i + 1, r.(compressed := r.compressed + 1), false)
            case Usable =>
              && RangeOf(it, cache).Some?
              && var at, sum := (Slashes(it.source), RangeOf(it, cache).value), r.injected + ntok(it.content);
                 if r.genes >= 1 && sum > budget then
                   ReportsTo(items, cache, ntok, budget, i + 1, r.(clamped := r.clamped + 1), false)
                 else
                   ReportsTo(items, cache, ntok, budget, i + 1,
                             r.(spans := Put(r.spans, at), injected := sum, genes := r.genes + 1), sum >= budget)
  {
    hide Costs, Verdicts, Placed, CountOf, Gathered, Slashes, FileOf, RangeOf, Reports, Put, Judge;
    var it, f := items[i], Greedy(Costs(items, cache, ntok)[..i], budget);
    NextItem(Costs(items, cache, ntok), i, budget);
    ItemAt(items, cache, ntok, i);
    ReportCounts(items, cache, f, r);
    if Judge(it, cache) != Usable {
      ReportsPassedOver(items, cache, budget, f, r);
    } else if r.genes >= 1 && r.injected + ntok(it.content) > budget {
      ReportsSkipped(items, cache, budget, f, r, ntok(it.content));
    } else {
      ReportsKept(items, cache, budget, f, r, ntok(it.content), Placed(items, cache)[i]);
    }
  }

  lemma ReportStarts(items: seq<Item>, cache: map<string, string>, ntok: string -> nat, budget: nat)
    ensures ReportsTo(items, cache, ntok, budget, 0, Clamp(map[], 0, 0, 0, 0, 0), false)
  {
    assert Costs(items, cache, ntok)[..0] == [];
    ReportsNothing(items, cache, budget);
    hide Reports;
  }

  lemma Finished(costs: seq<Option<nat>>, i: nat, budget: nat)
    requires i <= |costs| && (i == |costs| || Greedy(costs[..i], budget).full)
    ensures Greedy(costs, budget) == Greedy(costs[..i], budget)
  {
    if i == |costs| { assert costs[..i] == costs; } else { FullStays(costs, budget, i); }
  }

  lemma ReportEnds(items: seq<Item>, cache: map<string, string>, ntok: string -> nat, budget: nat, i: nat, r: Clamp)
    requires ReportsTo(items, cache, ntok, budget, i, r, true) ||
             ReportsTo(items, cache, ntok, budget, |items|, r, false)
    ensures Reports(items, cache, Greedy(Costs(items, cache, ntok), budget), r)
  {
    hide Reports, Costs;
    var at := if ReportsTo(items, cache, ntok, budget, i, r, true) then i else |items|;
    Finished(Costs(items, cache, ntok), at, budget);
  }

  /** `items_to_pred_clamped`: the greedy fill over the delivered items. `ntok` is the tokenizer. */
  method ItemsToPredClamped(items: seq<Item>, cache: map<string, string>, ntok: string -> nat, budget: nat)
    returns (r: Clamp, files: set<string>)
    ensures Reports(items, cache, Greedy(Costs(items, cache, ntok), budget), r)
    ensures files == r.spans.Keys
  {
    hide ReportsTo, Costs, Slashes, RangeOf, Put;
    r, files := Clamp(map[], 0, 0, 0, 0, 0), {};
    ReportStarts(items, cache, ntok, budget);
    var i := 0;
    while i < |items|
      invariant i <= |items| && ReportsTo(items, cache, ntok, budget, i, r, false)
      invariant files == r.spans.Keys
    {
      var it := items[i];
      ReportNext(items, cache, ntok, budget, i, r);
      i := i + 1;
      var src := Slashes(it.source);
      if src == "" {
        r := r.(fail := r.fail + 1);
        continue;
      }
      if COMPRESSED_PREFIX <= it.content {
        r := r.(compressed := r.compressed + 1);
        continue;
      }
      var rng := RangeOf(it, cache);
      if rng.None? {
        r := r.(fail := r.fail + 1);
        continue;
      }
      var tok := ntok(it.content);
      if r.genes >= 1 && r.injected + tok > budget {
        r := r.(clamped := r.clamped + 1);
        continue;
      }
      PutKeys(r.spans, (src, rng.value));
      files := files + {src};
      r := r.(spans := Put(r.spans, (src, rng.value)), injected := r.injected + tok, genes := r.genes + 1);
      if r.injected >= budget { break; }
    }
    ReportEnds(items, cache, ntok, budget, i, r);
  }

  /** With a tokenizer that gives every non-blank text a token, every usable item costs something, as
      `NothingMoreFits` and `NoEarlierChoice` ask. */
  lemma UsableItemsCost(items: seq<Item>, cache: map<string, string>, ntok: string -> nat)
    requires forall s: string :: Blank(s) || ntok(s) > 0
    ensures forall c | c in Costs(items, cache, ntok) && c.Some? :: c.value > 0
  {
    forall i | 0 <= i < |items| && Judge(items[i], cache) == Usable ensures ntok(items[i].content) > 0 {
      NothingRecoveredIff(items[i].content, FileOf(items[i], cache));
    }
  }

  // ---- the fingerprint arm's fill ----

  /** A ranked document: the file it came from, if known, and its text. */
  datatype Ranked = Ranked(file: Option<string>, content: string)

  predicate Eligible(d: Ranked) {
    d.file.Some? && Strip(d.content) != "" && !(COMPRESSED_PREFIX <= d.content)
  }

  function FillCosts(ranked: seq<Ranked>, ntok: string -> nat): seq<Option<nat>> {
    seq(|ranked|, i requires 0 <= i < |ranked| =>
      if Eligible(ranked[i]) then Some(ntok(ranked[i].content)) else None)
  }

  /** The file is known, there is text, and it is not marked as compressed. */
  predicate CanFill(d: Ranked) {
    d.file.Some? && !Blank(d.content) && !("[COMPRESSED" <= d.content)
  }

  /** What is selected can fill, and what is not selected cannot, or comes behind the item that reached the budget. */
  lemma EligibleSelected(ranked: seq<Ranked>, ntok: string -> nat, budget: nat)
    ensures var f := PrefixFill(FillCosts(ranked, ntok), budget);
            && Increasing(f.kept) && (forall k | k in f.kept :: k < |ranked| && CanFill(ranked[k]))
            && forall k: nat | k < |ranked| && k !in f.kept ::
                 !CanFill(ranked[k]) || (f.kept != [] && f.total >= budget && k > f.kept[|f.kept| - 1])
  {
    PrefixLeaves(FillCosts(ranked, ntok), budget);
    forall k | 0 <= k < |ranked| ensures Eligible(ranked[k]) <==> CanFill(ranked[k]) { StripBlank(ranked[k].content); }
    hide Eligible, CanFill;
  }

  lemma NextRanked(costs: seq<Option<nat>>, i: nat, budget: nat)
    requires i < |costs|
    ensures PrefixFill(costs[..i + 1], budget) == PrefixStep(PrefixFill(costs[..i], budget), costs[i], budget)
  {
    assert costs[..i + 1][..i] == costs[..i];
  }

  lemma {:induction false} PrefixFullStays(costs: seq<Option<nat>>, i: nat, budget: nat)
    requires i <= |costs| && (i == |costs| || PrefixFill(costs[..i], budget).full)
    ensures PrefixFill(costs, budget) == PrefixFill(costs[..i], budget)
  {
    if i == |costs| {
      assert costs[..i] == costs;
    } else {
      assert costs[..|costs| - 1][..i] == costs[..i];
      PrefixFullStays(costs[..|costs| - 1], i, budget);
    }
  }

  /** The selection loop of `process_task`; `sel` holds positions in the ranking. */
  method FingerprintFill(ranked: seq<Ranked>, ntok: string -> nat, budget: nat) returns (sel: seq<nat>, inj: nat)
    ensures var f := PrefixFill(FillCosts(ranked, ntok), budget); sel == f.kept && inj == f.total
    ensures Increasing(sel) && forall k | k in sel :: k < |ranked| && CanFill(ranked[k])
    ensures forall k: nat | k < |ranked| && k !in sel ::
              !CanFill(ranked[k]) || (sel != [] && inj >= budget && k > sel[|sel| - 1])
  {
    hide Eligible;
    sel, inj := [], 0;
    ghost var costs := FillCosts(ranked, ntok);
    assert costs[..0] == [];
    var i := 0;
    while i < |ranked|
      invariant i <= |ranked|
      invariant var f := PrefixFill(costs[..i], budget); f == Fill(sel, [], inj, i, false)
    {
      NextRanked(costs, i, budget);
      i := i + 1;
      if !Eligible(ranked[i - 1]) { continue; }
      sel := sel + [i - 1];
      inj := inj + ntok(ranked[i - 1].content);
      if inj >= budget { break; }
    }
    PrefixFullStays(costs, i, budget);
    EligibleSelected(ranked, ntok, budget);
  }

  // ---- the preview ----

  function Estimate(span: Lines): (tokens: nat)
    ensures tokens > 0
  {
    4 * (if span.end < span.start then 1 else span.end - span.start + 1)
  }

  /** Each line counts four tokens, so a span costs what its parts cost, and a span that ends before it starts
      counts as one line. */
  lemma EstimateByLine(start: nat, mid: nat, end: nat)
    ensures start <= mid < end ==>
              Estimate(Lines(start, end)) == Estimate(Lines(start, mid)) + Estimate(Lines(mid + 1, end))
    ensures Estimate(Lines(start, start)) == 4
    ensures end < start ==> Estimate(Lines(start, end)) == 4
  {
  }

  /** The spans of all files in one list, in the order the nested loops meet them. */
  function Flat(byFile: seq<(string, seq<Lines>)>): seq<Entry> {
    if byFile == [] then []
    else
      var (file, spans) := byFile[|byFile| - 1];
      Flat(byFile[..|byFile| - 1]) + seq(|spans|, j requires 0 <= j < |spans| => (file, spans[j]))
  }

  function Estimates(entries: seq<Entry>): seq<Option<nat>> {
    seq(|entries|, i requires 0 <= i < |entries| => Some(Estimate(entries[i].1)))
  }

  lemma {:induction false} FlatAt(byFile: seq<(string, seq<Lines>)>, i: nat)
    requires i < |byFile|
    ensures var flat, spans, before := Flat(byFile), byFile[i].1, |Flat(byFile[..i])|;
            && before + |spans| == |Flat(byFile[..i + 1])| <= |flat|
            && forall j | 0 <= j < |spans| :: flat[before + j] == (byFile[i].0, spans[j])
    decreases |byFile|
  {
    var n := |byFile|;
    if i < n - 1 {
      FlatAt(byFile[..n - 1], i);
      assert byFile[..n - 1][..i] == byFile[..i];
      assert byFile[..n - 1][..i + 1] == byFile[..i + 1];
    } else {
      assert byFile[..i + 1] == byFile;
    }
  }

  /** The two running values of the preview, for the fill `f`. */
  predicate Previewed(entries: seq<Entry>, f: Fill, spans: Spans, approx: nat) {
    spans == Gathered(entries, f.kept) && approx == f.total && (approx > 0 <==> |f.kept| > 0)
  }

  lemma PreviewStep(entries: seq<Entry>, budget: nat, f: Fill, spans: Spans, approx: nat)
    requires f.consumed < |entries| && !f.full && Previewed(entries, f, spans, approx)
    ensures |Estimates(entries)| == |entries|
    ensures var e := entries[f.consumed];
            var est := Estimate(e.1);
            var g := Step(f, Estimates(entries)[f.consumed], budget);
            && g.consumed == f.consumed + 1
            && if approx > 0 && approx + est > budget then Previewed(entries, g, spans, approx) && !g.full
               else Previewed(entries, g, Put(spans, e), approx + est) && (g.full <==> approx + est >= budget)
  {
    assert |Estimates(entries)| == |entries| && Estimates(entries)[f.consumed] == Some(Estimate(entries[f.consumed].1));
    hide Estimates, Estimate, Gathered, Put;
    GatherOne(entries, f.kept, f.consumed);
  }

  /** The spans the outer loop gets to: with a budget of 0 its test ends it after the first file, whatever that
      holds. */
  function Seen(byFile: seq<(string, seq<Lines>)>, budget: nat): seq<Entry> {
    Flat(if budget == 0 && byFile != [] then byFile[..1] else byFile)
  }

  lemma SeenAt(byFile: seq<(string, seq<Lines>)>, budget: nat, i: nat)
    requires i < |byFile| && (budget == 0 ==> i == 0)
    ensures var seen, spans, before := Seen(byFile, budget), byFile[i].1, |Flat(byFile[..i])|;
            && before + |spans| == |Flat(byFile[..i + 1])| <= |seen|
            && (budget == 0 ==> |Flat(byFile[..i + 1])| == |seen|)
            && forall j | 0 <= j < |spans| :: seen[before + j] == (byFile[i].0, spans[j])
  {
    var files := if budget == 0 then byFile[..1] else byFile;
    FlatAt(files, i);
    assert files[..i] == byFile[..i] && files[..i + 1] == byFile[..i + 1];
    hide Flat;
  }

  /** The greedy fill over the first `pos` spans, `full` or not, has led to these two running values. */
  ghost predicate FilledTo(seen: seq<Entry>, budget: nat, pos: nat, spans: Spans, approx: nat, full: bool) {
    && pos <= |seen| == |Estimates(seen)|
    && var f := Greedy(Estimates(seen)[..pos], budget);
       f.consumed == pos && f.full == full && Previewed(seen, f, spans, approx)
  }

  lemma FillNext(seen: seq<Entry>, budget: nat, pos: nat, spans: Spans, approx: nat)
    requires pos < |seen| && FilledTo(seen, budget, pos, spans, approx, false)
    ensures var sum := approx + Estimate(seen[pos].1);
            var skip := approx > 0 && sum > budget;
            FilledTo(seen, budget, pos + 1, if skip then spans else Put(spans, seen[pos]), if skip then approx else sum,
                     !skip && sum >= budget)
  {
    hide Estimates, Previewed, Gathered, Put, Estimate;
    NextItem(Estimates(seen), pos, budget);
    PreviewStep(seen, budget, Greedy(Estimates(seen)[..pos], budget), spans, approx);
  }

  /** The inner loop: the spans of one file, the next in `seen` after the first `from`, until it breaks after `j`
      of them. */
  method ClampFile(file: string, spans: seq<Lines>, budget: nat, newSpans0: Spans, approx0: nat,
                   ghost seen: seq<Entry>, ghost from: nat)
    returns (newSpans: Spans, approx: nat, j: nat)
    requires from + |spans| <= |seen| && forall j | 0 <= j < |spans| :: seen[from + j] == (file, spans[j])
    requires FilledTo(seen, budget, from, newSpans0, approx0, false) && (approx0 < budget || approx0 == budget == 0)
    ensures j <= |spans| && (approx < budget ==> j == |spans|) && (j == 0 ==> spans == [] && approx == approx0)
    ensures FilledTo(seen, budget, from + j, newSpans, approx, approx >= budget && j > 0)
  {
    hide FilledTo, Put, Estimate;
    newSpans, approx, j := newSpans0, approx0, 0;
    while j < |spans|
      invariant j <= |spans| && FilledTo(seen, budget, from + j, newSpans, approx, false)
      invariant (approx < budget || approx == budget == j == 0) && (j == 0 ==> approx == approx0)
    {
      var sp := spans[j];
      var est := Estimate(sp);
      assert seen[from + j] == (file, sp);
      FillNext(seen, budget, from + j, newSpans, approx);
      j := j + 1;
      if approx > 0 && approx + est > budget { continue; }
      newSpans := Put(newSpans, (file, sp));
      approx := approx + est;
      if approx >= budget { break; }
    }
  }

  lemma FillEnds(seen: seq<Entry>, budget: nat, pos: nat, spans: Spans, approx: nat)
    requires FilledTo(seen, budget, pos, spans, approx, true) || FilledTo(seen, budget, |seen|, spans, approx, false)
    ensures Previewed(seen, Greedy(Estimates(seen), budget), spans, approx)
  {
    hide Previewed, Estimates;
    if FilledTo(seen, budget, pos, spans, approx, true) {
      FullStays(Estimates(seen), budget, pos);
    } else {
      assert Estimates(seen)[..|seen|] == Estimates(seen);
    }
  }

  lemma PreviewStart(byFile: seq<(string, seq<Lines>)>, seen: seq<Entry>, budget: nat)
    ensures FilledTo(seen, budget, 0, map[], 0, false) && Flat([]) == []
  {
    assert Estimates(seen)[..0] == [];
  }

  /** The nested clamp over an existing prediction's spans is the greedy fill over all of them. */
  method PreviewClamp(byFile: seq<(string, seq<Lines>)>, budget: nat) returns (newSpans: Spans, approx: nat)
    ensures var seen := Seen(byFile, budget);
            Previewed(seen, Greedy(Estimates(seen), budget), newSpans, approx)
  {
    hide FilledTo, Flat, Previewed, Estimates;
    newSpans, approx := map[], 0;
    ghost var seen := Seen(byFile, budget);
    ghost var pos := 0;
    PreviewStart(byFile, seen, budget);
    assert byFile[..0] == [];
    var i := 0;
    while i < |byFile|
      invariant i <= |byFile| && (budget == 0 ==> i == 0)
      invariant pos == |Flat(byFile[..i])| <= |seen|
      invariant FilledTo(seen, budget, pos, newSpans, approx, false)
      invariant approx < budget || approx == budget == 0
    {
      var (file, spans) := byFile[i];
      SeenAt(byFile, budget, i);
      var j;
      newSpans, approx, j := ClampFile(file, spans, budget, newSpans, approx, seen, pos);
      pos := pos + j;
      if approx >= budget { break; }
      i := i + 1;
    }
    assert byFile[..|byFile|] == byFile;
    FillEnds(seen, budget, pos, newSpans, approx);
  }
}
