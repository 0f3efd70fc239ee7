/** Filling a token budget greedily, in delivery order, from items with known costs. */
module BudgetClamp {
  import opened Text
  import opened Counting

  /** `kept` and `skipped` are positions in the list of costs. `full` is the early exit. */
  datatype Fill = Fill(kept: seq<nat>, skipped: seq<nat>, total: nat, consumed: nat, full: bool)

  /** One item: an unusable one (`None`) is passed over, one that does not fit is skipped unless nothing has been
      kept yet, and reaching the budget ends the fill. */
  function Step(f: Fill, cost: Option<nat>, budget: nat): Fill {
    if f.full then f
    else
      var g := f.(consumed := f.consumed + 1);
      if cost.None? then g
      else if |f.kept| >= 1 && f.total + cost.value > budget then g.(skipped := f.skipped + [f.consumed])
      else
        g.(kept := f.kept + [f.consumed], total := f.total + cost.value, full := f.total + cost.value >= budget)
  }

  function Greedy(costs: seq<Option<nat>>, budget: nat): Fill {
    if costs == [] then Fill([], [], 0, 0, false)
    else Step(Greedy(costs[..|costs| - 1], budget), costs[|costs| - 1], budget)
  }

  function CostAt(costs: seq<Option<nat>>, i: nat): nat {
    if i < |costs| && costs[i].Some? then costs[i].value else 0
  }

  function Total(costs: seq<Option<nat>>, picks: seq<nat>): nat {
    if picks == [] then 0 else Total(costs, picks[..|picks| - 1]) + CostAt(costs, picks[|picks| - 1])
  }

  /** Only usable items, in delivery order. */
  predicate Picks(costs: seq<Option<nat>>, picks: seq<nat>) {
    Increasing(picks) && forall i | 0 <= i < |picks| :: picks[i] < |costs| && costs[picks[i]].Some?
  }

  // ---- what the fill keeps true after every item ----

  /** Every usable item before `n` is kept or skipped, not both, and nothing else is. */
  predicate Sorted(costs: seq<Option<nat>>, n: nat, kept: seq<nat>, skipped: seq<nat>) {
    && n <= |costs|
    && (forall j | 0 <= j < |kept| :: kept[j] < n)
    && (forall j | 0 <= j < |skipped| :: skipped[j] < n && skipped[j] !in kept)
    && (forall j | 0 <= j < n && costs[j].Some? :: j in kept || j in skipped)
  }

  predicate Shape(costs: seq<Option<nat>>, budget: nat, i: nat, f: Fill) {
    && f.consumed <= i <= |costs| && (!f.full ==> f.consumed == i)
    && Picks(costs, f.kept) && Picks(costs, f.skipped)
    && Sorted(costs, f.consumed, f.kept, f.skipped)
    && f.total == Total(costs, f.kept)
    && (f.full ==> |f.kept| > 0 && f.total >= budget && f.kept[|f.kept| - 1] + 1 == f.consumed)
    && (!f.full && |f.kept| > 0 ==> f.total < budget)
    && (|f.kept| > 1 ==> f.total <= budget)
  }

  /** Item `j` did not fit when it came up, after exactly the first `m` of the kept items. */
  ghost predicate DidNotFit(costs: seq<Option<nat>>, budget: nat, kept: seq<nat>, j: nat, m: nat) {
    1 <= m <= |kept| && kept[m - 1] < j && (m < |kept| ==> j < kept[m]) ==>
      Total(costs, kept[..m]) + CostAt(costs, j) > budget
  }

  ghost predicate Skips(costs: seq<Option<nat>>, budget: nat, f: Fill) {
    && (f.skipped != [] ==> f.kept != [] && f.kept[0] < f.skipped[0])
    && forall j, m: nat | 0 <= j < |f.skipped| :: DidNotFit(costs, budget, f.kept, f.skipped[j], m)
  }

  lemma KeepOne(costs: seq<Option<nat>>, picks: seq<nat>, i: nat)
    ensures Total(costs, picks + [i]) == Total(costs, picks) + CostAt(costs, i)
  {
    assert (picks + [i])[..|picks|] == picks;
  }

  lemma PickOne(costs: seq<Option<nat>>, picks: seq<nat>, i: nat)
    requires Picks(costs, picks) && i < |costs| && costs[i].Some?
    requires forall j | 0 <= j < |picks| :: picks[j] < i
    ensures Picks(costs, picks + [i])
  {
  }

  lemma SortOne(costs: seq<Option<nat>>, n: nat, kept: seq<nat>, skipped: seq<nat>)
    requires n < |costs| && Sorted(costs, n, kept, skipped)
    ensures costs[n].None? ==> Sorted(costs, n + 1, kept, skipped)
    ensures Sorted(costs, n + 1, kept + [n], skipped) && Sorted(costs, n + 1, kept, skipped + [n])
  {
    assert forall j | j in kept :: j in kept + [n];
    assert forall j | j in skipped :: j in skipped + [n];
  }

  lemma SortedBelow(costs: seq<Option<nat>>, n: nat, kept: seq<nat>, skipped: seq<nat>)
    requires Sorted(costs, n, kept, skipped)
    ensures forall j | 0 <= j < |kept| :: kept[j] < n
    ensures forall j | 0 <= j < |skipped| :: skipped[j] < n
  {
  }

  lemma CostAtIs(costs: seq<Option<nat>>, i: nat)
    requires i < |costs| && costs[i].Some?
    ensures CostAt(costs, i) == costs[i].value
  {
  }

  lemma StepShape(costs: seq<Option<nat>>, budget: nat, i: nat, f: Fill)
    requires i < |costs| && Shape(costs, budget, i, f)
    ensures Shape(costs, budget, i + 1, Step(f, costs[i], budget))
  {
    hide Total, Picks, CostAt, Sorted;
    if !f.full {
      SortOne(costs, i, f.kept, f.skipped);
      if costs[i].Some? {
        SortedBelow(costs, i, f.kept, f.skipped);
        PickOne(costs, f.kept, i);
        PickOne(costs, f.skipped, i);
        KeepOne(costs, f.kept, i);
        CostAtIs(costs, i);
      }
    }
  }

  /** Keeping a further item leaves what is known about the earlier skips. */
  lemma StillDidNotFit(costs: seq<Option<nat>>, budget: nat, kept: seq<nat>, x: nat, j: nat, m: nat)
    requires DidNotFit(costs, budget, kept, j, m) && j < x
    ensures DidNotFit(costs, budget, kept + [x], j, m)
  {
    if m <= |kept| { assert (kept + [x])[..m] == kept[..m]; }
  }

  lemma StepBounds(costs: seq<Option<nat>>, budget: nat, i: nat, f: Fill)
    requires Shape(costs, budget, i, f)
    ensures !f.full ==> f.consumed == i
    ensures forall j | 0 <= j < |f.kept| :: f.kept[j] < i
    ensures forall j | 0 <= j < |f.skipped| :: f.skipped[j] < i
    ensures f.total == Total(costs, f.kept)
  {
  }

  lemma StepSkips(costs: seq<Option<nat>>, budget: nat, i: nat, f: Fill)
    requires i < |costs| && Shape(costs, budget, i, f) && Skips(costs, budget, f)
    ensures Skips(costs, budget, Step(f, costs[i], budget))
  {
    var g := Step(f, costs[i], budget);
    hide Total, Shape;
    if !f.full && costs[i].Some? {
      assert f.consumed == i && (forall j | 0 <= j < |f.kept| :: f.kept[j] < i) by { StepBounds(costs, budget, i, f); }
      assert forall j | 0 <= j < |f.skipped| :: f.skipped[j] < i by { StepBounds(costs, budget, i, f); }
      assert f.total == Total(costs, f.kept) by { StepBounds(costs, budget, i, f); }
      forall j, m: nat | 0 <= j < |g.skipped| ensures DidNotFit(costs, budget, g.kept, g.skipped[j], m) {
        if j < |f.skipped| {
          assert DidNotFit(costs, budget, f.kept, f.skipped[j], m);
          StillDidNotFit(costs, budget, f.kept, i, f.skipped[j], m);
        } else {
          assert f.kept[..|f.kept|] == f.kept;
          assert 1 <= m < |f.kept| ==> f.kept[m] < i;
          assert DidNotFit(costs, budget, g.kept, i, m);
        }
      }
    }
  }

  lemma {:induction false} FillFacts(costs: seq<Option<nat>>, budget: nat, i: nat)
    requires i <= |costs|
    ensures Shape(costs, budget, i, Greedy(costs[..i], budget))
    ensures Skips(costs, budget, Greedy(costs[..i], budget))
  {
    if i > 0 {
      hide Shape, Skips, Step;
      assert costs[..i][..i - 1] == costs[..i - 1];
      FillFacts(costs, budget, i - 1);
      StepShape(costs, budget, i - 1, Greedy(costs[..i - 1], budget));
      StepSkips(costs, budget, i - 1, Greedy(costs[..i - 1], budget));
    }
  }

  lemma Facts(costs: seq<Option<nat>>, budget: nat)
    ensures Shape(costs, budget, |costs|, Greedy(costs, budget)) && Skips(costs, budget, Greedy(costs, budget))
  {
    assert costs[..|costs|] == costs;
    FillFacts(costs, budget, |costs|);
  }

  /** Once full, later items change nothing. */
  lemma {:induction false} FullStays(costs: seq<Option<nat>>, budget: nat, i: nat)
    requires i <= |costs| && Greedy(costs[..i], budget).full
    ensures Greedy(costs, budget) == Greedy(costs[..i], budget)
  {
    if i == |costs| {
      assert costs[..i] == costs;
    } else {
      assert costs[..|costs| - 1][..i] == costs[..i];
      FullStays(costs[..|costs| - 1], budget, i);
    }
  }

  lemma {:induction false} TotalGrows(costs: seq<Option<nat>>, picks: seq<nat>, m: nat)
    requires m <= |picks|
    ensures Total(costs, picks[..m]) <= Total(costs, picks)
  {
    if m == |picks| {
      assert picks[..m] == picks;
    } else {
      assert picks[..|picks| - 1][..m] == picks[..m];
      TotalGrows(costs, picks[..|picks| - 1], m);
    }
  }

  // ---- what the clamp promises ----

  /** The injected total is the sum over what was kept, and passes the budget only with a single kept item. */
  lemma WithinBudget(costs: seq<Option<nat>>, budget: nat)
    ensures var f := Greedy(costs, budget);
            && f.total == Total(costs, f.kept)
            && (f.total <= budget || (|f.kept| == 1 && f.total == CostAt(costs, f.kept[0])))
  {
    Facts(costs, budget);
    var f := Greedy(costs, budget);
    if |f.kept| == 1 {
      assert f.kept == [] + [f.kept[0]];
      KeepOne(costs, [], f.kept[0]);
    }
  }

  /** Every item the fill looked at is unusable, kept or skipped, and it looked at all of them unless the
      budget was reached by the last one it kept. */
  lemma EveryItemAccountedFor(costs: seq<Option<nat>>, budget: nat, j: nat)
    ensures var f := Greedy(costs, budget);
            && f.consumed <= |costs|
            && (f.consumed < |costs| ==> f.total >= budget && |f.kept| > 0 && f.kept[|f.kept| - 1] + 1 == f.consumed)
            && !(j in f.kept && j in f.skipped)
            && (j in f.kept || j in f.skipped <==> j < f.consumed && costs[j].Some?)
  {
    Facts(costs, budget);
    hide Total, Greedy;
  }

  /** The kept items before position `j`. */
  lemma {:induction false} Before(picks: seq<nat>, j: nat) returns (m: nat)
    requires Increasing(picks) && j !in picks
    ensures m <= |picks| && (m > 0 ==> picks[m - 1] < j) && (m < |picks| ==> j < picks[m])
  {
    m := 0;
    while m < |picks| && picks[m] < j
      invariant m <= |picks| && (m > 0 ==> picks[m - 1] < j)
    {
      m := m + 1;
    }
  }

  lemma SkippedDidNotFit(costs: seq<Option<nat>>, budget: nat, j: nat)
    requires j in Greedy(costs, budget).skipped
    ensures var f := Greedy(costs, budget); f.total + CostAt(costs, j) > budget
  {
    Facts(costs, budget);
    var f := Greedy(costs, budget);
    hide Greedy, Total;
    var i :| 0 <= i < |f.skipped| && f.skipped[i] == j;
    var m := Before(f.kept, j);
    assert m > 0 by { assert f.kept[0] < f.skipped[0] <= f.skipped[i]; }
    assert DidNotFit(costs, budget, f.kept, f.skipped[i], m);
    TotalGrows(costs, f.kept, m);
  }

  /** Maximal: a usable item that was not kept, whether skipped or never reached, would pass the budget. */
  lemma NothingMoreFits(costs: seq<Option<nat>>, budget: nat, j: nat)
    requires j < |costs| && costs[j].Some? && costs[j].value > 0
    requires j !in Greedy(costs, budget).kept
    ensures Greedy(costs, budget).total + costs[j].value > budget
  {
    Facts(costs, budget);
    var f := Greedy(costs, budget);
    if j < f.consumed {
      SkippedDidNotFit(costs, budget, j);
    }
  }

  lemma NextPick(costs: seq<Option<nat>>, picks: seq<nat>, p: nat)
    requires Picks(costs, picks) && p < |picks|
    ensures p > 0 ==> picks[p - 1] < picks[p]
    ensures picks[p] < |costs| && costs[picks[p]].Some?
    ensures Total(costs, picks[..p]) + CostAt(costs, picks[p]) <= Total(costs, picks)
  {
    TotalGrows(costs, picks, p + 1);
    assert picks[..p + 1] == picks[..p] + [picks[p]];
    KeepOne(costs, picks[..p], picks[p]);
  }

  lemma PicksIncrease(costs: seq<Option<nat>>, picks: seq<nat>)
    requires Picks(costs, picks)
    ensures Increasing(picks)
  {
  }

  lemma Between(picks: seq<nat>, p: nat, j: nat)
    requires Increasing(picks) && p <= |picks| && (p > 0 ==> picks[p - 1] < j) && (p < |picks| ==> j < picks[p])
    ensures j !in picks
  {
    forall i | 0 <= i < |picks| ensures picks[i] != j {
      if i < p { assert picks[i] <= picks[p - 1]; } else { assert picks[p] <= picks[i]; }
    }
  }

  lemma EarlierWouldNotFit(costs: seq<Option<nat>>, budget: nat, f: Fill, p: nat, j: nat)
    requires Shape(costs, budget, |costs|, f) && Skips(costs, budget, f)
    requires j < |costs| && costs[j].Some? && costs[j].value > 0
    requires p <= |f.kept| && (p > 0 ==> f.kept[p - 1] < j) && (p < |f.kept| ==> j < f.kept[p])
    ensures Total(costs, f.kept[..p]) + CostAt(costs, j) > budget
  {
    hide Total, Picks, CostAt;
    assert CostAt(costs, j) == costs[j].value by { CostAtIs(costs, j); }
    if j < f.consumed {
      PicksIncrease(costs, f.kept);
      PicksIncrease(costs, f.skipped);
      Between(f.kept, p, j);
      var i :| 0 <= i < |f.skipped| && f.skipped[i] == j;
      assert f.kept[0] < f.skipped[0] <= f.skipped[i];
      assert DidNotFit(costs, budget, f.kept, f.skipped[i], p);
    } else {
      assert f.kept[..p] == f.kept;
    }
  }

  lemma NotEarlier(costs: seq<Option<nat>>, budget: nat, f: Fill, picks: seq<nat>, p: nat)
    requires Shape(costs, budget, |costs|, f) && Skips(costs, budget, f)
    requires p < |picks| && p <= |f.kept| && picks[..p] == f.kept[..p]
    requires p > 0 ==> picks[p - 1] < picks[p]
    requires picks[p] < |costs| && costs[picks[p]].Some? && costs[picks[p]].value > 0
    requires Total(costs, picks[..p]) + CostAt(costs, picks[p]) <= budget
    ensures p < |f.kept| && f.kept[p] <= picks[p]
  {
    hide *;
    assert p > 0 ==> picks[..p][p - 1] == f.kept[..p][p - 1];
    if p == |f.kept| || picks[p] < f.kept[p] {
      EarlierWouldNotFit(costs, budget, f, p, picks[p]);
    }
  }

  /** Earliest choice wins: no selection within the budget departs from the kept list by taking an item
      before the one the fill took next. */
  lemma NoEarlierChoice(costs: seq<Option<nat>>, budget: nat, picks: seq<nat>, p: nat)
    requires forall c | c in costs && c.Some? :: c.value > 0
    requires Picks(costs, picks) && Total(costs, picks) <= budget
    requires p < |picks| && p <= |Greedy(costs, budget).kept|
    requires picks[..p] == Greedy(costs, budget).kept[..p]
    ensures p < |Greedy(costs, budget).kept| && Greedy(costs, budget).kept[p] <= picks[p]
  {
    Facts(costs, budget);
    NextPick(costs, picks, p);
    assert costs[picks[p]] in costs;
    hide *;
    NotEarlier(costs, budget, Greedy(costs, budget), picks, p);
  }

  // ---- the other arm's fill, which never skips ----

  /** Takes usable items in order until the budget is reached, the one that reaches it included. */
  function PrefixStep(f: Fill, cost: Option<nat>, budget: nat): Fill {
    if f.full then f
    else
      var g := f.(consumed := f.consumed + 1);
      if cost.None? then g
      else
        g.(kept := f.kept + [f.consumed], total := f.total + cost.value, full := f.total + cost.value >= budget)
  }

  function PrefixFill(costs: seq<Option<nat>>, budget: nat): Fill {
    if costs == [] then Fill([], [], 0, 0, false)
    else PrefixStep(PrefixFill(costs[..|costs| - 1], budget), costs[|costs| - 1], budget)
  }

  /** Such a fill takes every usable item that it looks at, in order. */
  ghost predicate TakesAll(costs: seq<Option<nat>>, f: Fill) {
    && f.consumed <= |costs| && (!f.full ==> f.consumed == |costs|)
    && Picks(costs, f.kept) && f.skipped == []
    && (forall j: nat :: j in f.kept <==> j < f.consumed && costs[j].Some?)
    && (f.full ==> f.kept != [] && f.kept[|f.kept| - 1] + 1 == f.consumed)
  }

  /** It is full as soon as the sum of what it has taken reaches the budget. */
  ghost predicate StopsAtBudget(costs: seq<Option<nat>>, budget: nat, f: Fill) {
    && f.total == Total(costs, f.kept)
    && (f.full <==> |f.kept| > 0 && f.total >= budget)
    && (forall m | 0 < m < |f.kept| :: Total(costs, f.kept[..m]) < budget)
  }

  lemma TotalNext(costs: seq<Option<nat>>, picks: seq<nat>)
    requires picks != []
    ensures Total(costs, picks) == Total(costs, picks[..|picks| - 1]) + CostAt(costs, picks[|picks| - 1])
  {
  }

  lemma {:induction false} SameTotal(front: seq<Option<nat>>, c: Option<nat>, picks: seq<nat>)
    requires Picks(front, picks)
    ensures Total(front + [c], picks) == Total(front, picks)
  {
    if picks != [] { SameTotal(front, c, picks[..|picks| - 1]); }
  }

  lemma SameTotals(front: seq<Option<nat>>, c: Option<nat>, picks: seq<nat>)
    requires Picks(front, picks)
    ensures Total(front + [c], picks) == Total(front, picks)
    ensures forall m | 0 <= m <= |picks| :: Total(front + [c], picks[..m]) == Total(front, picks[..m])
  {
    SameTotal(front, c, picks);
    forall m | 0 <= m <= |picks| ensures Total(front + [c], picks[..m]) == Total(front, picks[..m]) {
      SameTotal(front, c, picks[..m]);
    }
  }

  lemma PrefixStepTakes(front: seq<Option<nat>>, c: Option<nat>, budget: nat, f: Fill)
    requires TakesAll(front, f)
    ensures TakesAll(front + [c], PrefixStep(f, c, budget))
  {
  }

  lemma PrefixStepStops(front: seq<Option<nat>>, c: Option<nat>, budget: nat, f: Fill)
    requires TakesAll(front, f) && StopsAtBudget(front, budget, f)
    ensures StopsAtBudget(front + [c], budget, PrefixStep(f, c, budget))
  {
    var costs, g := front + [c], PrefixStep(f, c, budget);
    SameTotals(front, c, f.kept);
    hide Total, Picks;
    if g.kept != f.kept {
      assert g.kept[..|f.kept|] == f.kept;
      TotalNext(costs, g.kept);
      forall m | 0 < m < |g.kept| ensures Total(costs, g.kept[..m]) < budget {
        if m == |f.kept| { assert g.kept[..m] == f.kept; } else { assert g.kept[..m] == f.kept[..m]; }
      }
    }
  }

  lemma {:induction false} PrefixTakesAll(costs: seq<Option<nat>>, budget: nat)
    ensures TakesAll(costs, PrefixFill(costs, budget)) && StopsAtBudget(costs, budget, PrefixFill(costs, budget))
  {
    if costs != [] {
      var front, c := costs[..|costs| - 1], costs[|costs| - 1];
      PrefixTakesAll(front, budget);
      assert front + [c] == costs;
      PrefixStepTakes(front, c, budget, PrefixFill(front, budget));
      PrefixStepStops(front, c, budget, PrefixFill(front, budget));
      hide TakesAll, StopsAtBudget, PrefixStep;
    }
  }

  /** What it leaves is unusable or comes behind the item that reached the budget. */
  lemma PrefixLeaves(costs: seq<Option<nat>>, budget: nat)
    ensures var f := PrefixFill(costs, budget);
            && Increasing(f.kept) && (forall k | k in f.kept :: k < |costs| && costs[k].Some?)
            && forall k: nat | k < |costs| && k !in f.kept ::
                 costs[k].None? || (f.kept != [] && f.total >= budget && k > f.kept[|f.kept| - 1])
  {
    PrefixTakesAll(costs, budget);
    hide PrefixFill, Total;
  }

  /** The two fills agree up to the item that overshoots; from there the greedy one stays within the budget
      and never takes that item. */
  predicate Compared(p: Fill, g: Fill, budget: nat) {
    && (!p.full && |p.kept| > 0 ==> p.total < budget)
    && (forall j | 0 <= j < |g.kept| :: g.kept[j] < g.consumed)
    && if p.total <= budget || |p.kept| <= 1 then p == g
       else
         && p.full && |g.kept| > 0 && g.total <= budget
         && p.kept[|p.kept| - 1] < g.consumed && p.kept[|p.kept| - 1] !in g.kept
  }

  lemma ComparedStep(p: Fill, g: Fill, cost: Option<nat>, budget: nat)
    requires Compared(p, g, budget)
    ensures Compared(PrefixStep(p, cost, budget), Step(g, cost, budget), budget)
  {
  }

  lemma {:induction false} FillsCompared(costs: seq<Option<nat>>, budget: nat)
    ensures Compared(PrefixFill(costs, budget), Greedy(costs, budget), budget)
  {
    if costs != [] {
      FillsCompared(costs[..|costs| - 1], budget);
      var front, last := costs[..|costs| - 1], costs[|costs| - 1];
      ComparedStep(PrefixFill(front, budget), Greedy(front, budget), last, budget);
    }
  }

  // ---- the same on the costs ----

  function UsableTotal(costs: seq<Option<nat>>): nat {
    if costs == [] then 0 else UsableTotal(costs[..|costs| - 1]) + CostAt(costs, |costs| - 1)
  }

  function UsableCount(costs: seq<Option<nat>>): nat {
    if costs == [] then 0 else UsableCount(costs[..|costs| - 1]) + if costs[|costs| - 1].Some? then 1 else 0
  }

  /** Usable item `i`, not the first, comes up below the budget and oversteps it. */
  predicate Oversteps(costs: seq<Option<nat>>, budget: nat, i: nat) {
    && i < |costs| && costs[i].Some? && UsableCount(costs[..i]) >= 1
    && UsableTotal(costs[..i]) < budget < UsableTotal(costs[..i]) + costs[i].value
  }

  ghost predicate Tracks(costs: seq<Option<nat>>, budget: nat, p: Fill) {
    && (!p.full ==> p.total == UsableTotal(costs) && |p.kept| == UsableCount(costs))
    && (!p.full && UsableCount(costs) > 0 ==> UsableTotal(costs) < budget)
    && (p.full ==> UsableTotal(costs) >= budget && |p.kept| >= 1)
    && (p.total > budget && |p.kept| >= 2 <==> exists i: nat :: Oversteps(costs, budget, i))
  }

  lemma OverstepsBefore(costs: seq<Option<nat>>, budget: nat, i: nat)
    requires costs != []
    ensures var front := costs[..|costs| - 1];
            Oversteps(costs, budget, i) <==>
              Oversteps(front, budget, i) || (i == |front| && Oversteps(costs, budget, |front|))
  {
    if i < |costs| { assert costs[..|costs| - 1][..i] == costs[..i]; }
  }

  lemma TracksNext(costs: seq<Option<nat>>, front: seq<Option<nat>>, budget: nat, q: Fill)
    requires costs != [] && front == costs[..|costs| - 1] && Tracks(front, budget, q)
    requires forall i: nat :: Oversteps(costs, budget, i) <==>
               Oversteps(front, budget, i) || (i == |front| && Oversteps(costs, budget, |front|))
    requires Oversteps(costs, budget, |front|) <==>
             var c := costs[|front|]; !q.full && c.Some? && |q.kept| >= 1 && q.total + c.value > budget
    ensures Tracks(costs, budget, PrefixStep(q, costs[|front|], budget))
  {
    hide Oversteps;
    assert (exists i: nat :: Oversteps(costs, budget, i)) <==>
           (exists i: nat :: Oversteps(front, budget, i)) || Oversteps(costs, budget, |front|);
  }

  lemma {:induction false} PrefixTracks(costs: seq<Option<nat>>, budget: nat)
    ensures Tracks(costs, budget, PrefixFill(costs, budget))
  {
    if costs != [] {
      var front, c := costs[..|costs| - 1], costs[|costs| - 1];
      var q := PrefixFill(front, budget);
      PrefixTracks(front, budget);
      forall i: nat
        ensures Oversteps(costs, budget, i) <==>
                  Oversteps(front, budget, i) || (i == |front| && Oversteps(costs, budget, |front|))
      {
        OverstepsBefore(costs, budget, i);
      }
      assert PrefixFill(costs, budget) == PrefixStep(q, c, budget);
      assert Oversteps(costs, budget, |front|) <==>
             !q.full && c.Some? && |q.kept| >= 1 && q.total + c.value > budget;
      hide Oversteps;
      TracksNext(costs, front, budget, q);
    }
  }

  /** The fills are the same exactly when no usable item but the first oversteps the budget from below it. */
  lemma SameFillIff(costs: seq<Option<nat>>, budget: nat)
    ensures var p, g := PrefixFill(costs, budget), Greedy(costs, budget);
            && (g.kept == p.kept <==> forall i: nat :: !Oversteps(costs, budget, i))
            && (g.kept == p.kept <==> p.total <= budget || |p.kept| <= 1)
            && (g.kept != p.kept ==> g.total <= budget < p.total)
  {
    FillsCompared(costs, budget);
    PrefixTracks(costs, budget);
    hide Oversteps;
  }

  lemma FillsCanDiffer()
    ensures var costs := [Some(1), Some(5)]; Greedy(costs, 3).kept != PrefixFill(costs, 3).kept
  {
    var costs := [Some(1), Some(5)];
    assert costs[..1] == [Some(1)] && [Some(1)][..0] == [];
    assert Oversteps(costs, 3, 1);
    SameFillIff(costs, 3);
  }
}
