/**
 The benchmark monitor: a periodic check folds what it observes into counters, incidents and an
 abort flag. One `Obs` holds everything a single check reads; the completion count is read afresh at
 every gate, so it may grow within a check.
 */
module Monitor {
  import opened Counting
  import opened Text

  datatype Severity = Critical | High | Medium | Low
  datatype Kind = SnapshotTampered | BenchPidDead | BenchStalled | ServerDown | UnauthorizedModel
                | VramSaturated | VramPressureSustained
  datatype Response = Abort | RestartRequested | Warn

  /** `done` is the completion count the decision was based on. */
  datatype Incident = Incident(check: nat, severity: Severity, kind: Kind, action: Response, done: nat)

  datatype Config = Config(stallThreshold: real, budget: int, minPct: real, maxPct: real,
                           warnPct: real, abortPct: real, warnPasses: int)

  const DEFAULTS := Config(180.0, 150, 0.05, 0.30, 0.90, 0.95, 3)

  /** `fails`: reading the snapshot raised, which the loop swallows. */
  datatype Obs = Obs(fails: bool, snapshotChanged: bool, pidAlive: bool, completed: nat, now: real,
                     serverUp: bool, unauthorized: bool, vram: Option<real>,
                     atStall: nat, atServer: nat, atModel: nat, atVram: nat)

  datatype MonState = MonState(checkCount: nat, vramCounter: int, lastLines: nat, lastChange: real,
                               incidents: seq<Incident>, abort: bool)

  function MaxReal(a: real, b: real): real { if a >= b then a else b }
  function MinReal(a: real, b: real): real { if a <= b then a else b }

  /** `max(self.total_needles, 1)` */
  function Total(n: int): int { if n >= 1 then n else 1 }

  /** `_restart_threshold_pct` */
  function Threshold(cfg: Config, n: int): real {
    MaxReal(cfg.minPct, MinReal(cfg.maxPct, cfg.budget as real / Total(n) as real))
  }

  /** `_is_early_run`, on one reading of the completion count. */
  predicate Early(cfg: Config, n: int, done: nat) {
    done as real / Total(n) as real < Threshold(cfg, n)
  }

  function Log(s: MonState, sev: Severity, k: Kind, a: Response, done: nat): MonState {
    s.(incidents := s.incidents + [Incident(s.checkCount, sev, k, a, done)])
  }

  /** `_gated_incident` */
  function Gated(cfg: Config, n: int, s: MonState, k: Kind, done: nat): MonState {
    if Early(cfg, n, done) then Log(s, High, k, RestartRequested, done).(abort := true)
    else Log(s, High, k, Warn, done)
  }

  function CheckStall(cfg: Config, n: int, s: MonState, o: Obs): MonState {
    if o.completed > s.lastLines then s.(lastLines := o.completed, lastChange := o.now)
    else if o.now - s.lastChange > cfg.stallThreshold then Gated(cfg, n, s, BenchStalled, o.atStall)
    else s
  }

  function CheckVram(cfg: Config, n: int, s: MonState, o: Obs): MonState {
    match o.vram
    case None => s
    case Some(used) =>
      if used >= cfg.abortPct then Gated(cfg, n, s, VramSaturated, o.atVram)
      else if used >= cfg.warnPct then
        var s := s.(vramCounter := s.vramCounter + 1);
        if s.vramCounter >= cfg.warnPasses
        then Log(s, Medium, VramPressureSustained, Warn, o.completed).(vramCounter := 0)
        else s
      else s.(vramCounter := 0)
  }

  /** The gated part of a check, in the source's order. */
  function CheckGated(cfg: Config, n: int, s: MonState, o: Obs): MonState {
    var s := CheckStall(cfg, n, s, o);
    var s := if o.serverUp then s else Gated(cfg, n, s, ServerDown, o.atServer);
    var s := if o.unauthorized then Gated(cfg, n, s, UnauthorizedModel, o.atModel) else s;
    CheckVram(cfg, n, s, o)
  }

  /** `_run_check` */
  function Check(cfg: Config, n: int, s: MonState, o: Obs): MonState {
    var s := s.(checkCount := s.checkCount + 1);
    if o.fails then s
    else if o.snapshotChanged then Log(s, Critical, SnapshotTampered, Abort, o.completed).(abort := true)
    else if !o.pidAlive then Log(s, Critical, BenchPidDead, Abort, o.completed).(abort := true)
    else CheckGated(cfg, n, s, o)
  }

  /** All checks in turn, whatever they find. */
  function CheckAll(cfg: Config, n: int, s: MonState, obs: seq<Obs>): MonState {
    if obs == [] then s else Check(cfg, n, CheckAll(cfg, n, s, obs[..|obs| - 1]), obs[|obs| - 1])
  }

  /** How many of the observations the loop gets to before it stops for an abort. */
  function Taken(cfg: Config, n: int, s: MonState, obs: seq<Obs>): (k: nat)
    ensures k <= |obs|
  {
    if obs == [] then 0
    else
      var k := Taken(cfg, n, s, obs[..|obs| - 1]);
      if k < |obs| - 1 || CheckAll(cfg, n, s, obs[..|obs| - 1]).abort then k else |obs|
  }

  /** The loop gets exactly to the first observation before which the flag was set. */
  lemma {:induction false} TakenUntilAbort(cfg: Config, n: int, s: MonState, obs: seq<Obs>, j: nat)
    ensures j < Taken(cfg, n, s, obs) ==> !CheckAll(cfg, n, s, obs[..j]).abort
    ensures Taken(cfg, n, s, obs) < |obs| ==> CheckAll(cfg, n, s, obs[..Taken(cfg, n, s, obs)]).abort
  {
    if obs != [] {
      var front := obs[..|obs| - 1];
      var k := Taken(cfg, n, s, front);
      TakenUntilAbort(cfg, n, s, front, j);
      assert j <= |front| ==> front[..j] == obs[..j];
      assert front[..k] == obs[..k] && front[..|front|] == front;
    }
  }

  /** `_run_loop` over the observations made until the monitor is stopped. */
  function Run(cfg: Config, n: int, s: MonState, obs: seq<Obs>): MonState {
    CheckAll(cfg, n, s, obs[..Taken(cfg, n, s, obs)])
  }

  function Fresh(now: real): MonState {
    MonState(0, 0, 0, now, [], false)
  }

  datatype Status = Clean | CriticalStatus | Warnings | MinorWarnings

  datatype Report = Report(runClean: bool, status: Status, incidentCount: nat,
                           bySeverity: map<Severity, nat>, byType: map<Kind, nat>, checks: nat)

  function CountSeverity(incidents: seq<Incident>, sev: Severity): nat {
    if incidents == [] then 0
    else CountSeverity(incidents[..|incidents| - 1], sev) + if incidents[|incidents| - 1].severity == sev then 1 else 0
  }

  function CountKind(incidents: seq<Incident>, k: Kind): nat {
    if incidents == [] then 0
    else CountKind(incidents[..|incidents| - 1], k) + if incidents[|incidents| - 1].kind == k then 1 else 0
  }

  /** The loop stops at `k` if it got there and is then done or aborted. */
  lemma {:induction false} StopsAt(cfg: Config, n: int, s: MonState, obs: seq<Obs>, k: nat)
    requires k <= |obs| && Taken(cfg, n, s, obs[..k]) == k
    requires k < |obs| ==> CheckAll(cfg, n, s, obs[..k]).abort
    ensures Taken(cfg, n, s, obs) == k
    decreases |obs|
  {
    if k == |obs| {
      assert obs[..k] == obs;
    } else {
      var prefix := obs[..|obs| - 1];
      assert prefix[..k] == obs[..k];
      if k == |prefix| { assert prefix == obs[..k]; } else { StopsAt(cfg, n, s, prefix, k); }
    }
  }

  class BenchmarkMonitor {
    const cfg: Config
    const totalNeedles: int
    var checkCount: nat
    var vramCounter: int
    var lastJsonlLines: nat
    var lastJsonlChange: real
    var incidents: seq<Incident>
    var abortFlag: bool

    function State(): MonState
      reads this
    {
      MonState(checkCount, vramCounter, lastJsonlLines, lastJsonlChange, incidents, abortFlag)
    }

    constructor (cfg: Config, totalNeedles: int, now: real)
      ensures State() == Fresh(now) && this.cfg == cfg && this.totalNeedles == totalNeedles
    {
      this.cfg, this.totalNeedles := cfg, totalNeedles;
      checkCount, vramCounter, lastJsonlLines, lastJsonlChange := 0, 0, 0, now;
      incidents, abortFlag := [], false;
    }

    method LogIncident(sev: Severity, k: Kind, a: Response, done: nat)
      modifies this`incidents
      ensures State() == Log(old(State()), sev, k, a, done)
    {
      incidents := incidents + [Incident(checkCount, sev, k, a, done)];
    }

    method GatedIncident(k: Kind, done: nat)
      modifies this`incidents, this`abortFlag
      ensures State() == Gated(cfg, totalNeedles, old(State()), k, done)
    {
      if Early(cfg, totalNeedles, done) {
        LogIncident(High, k, RestartRequested, done);
        abortFlag := true;
      } else {
        LogIncident(High, k, Warn, done);
      }
    }

    /** The VRAM part of `_run_check`. */
    method TrackVram(o: Obs)
      modifies this`vramCounter, this`incidents, this`abortFlag
      ensures State() == CheckVram(cfg, totalNeedles, old(State()), o)
    {
      if o.vram.Some? {
        var used := o.vram.value;
        if used >= cfg.abortPct {
          GatedIncident(VramSaturated, o.atVram);
        } else if used >= cfg.warnPct {
          vramCounter := vramCounter + 1;
          if vramCounter >= cfg.warnPasses {
            LogIncident(Medium, VramPressureSustained, Warn, o.completed);
            vramCounter := 0;
          }
        } else {
          vramCounter := 0;
        }
      }
    }

    method RunCheck(o: Obs)
      modifies this
      ensures State() == Check(cfg, totalNeedles, old(State()), o)
    {
      hide Gated, CheckVram;
      checkCount := checkCount + 1;
      if o.fails { return; }
      if o.snapshotChanged {
        LogIncident(Critical, SnapshotTampered, Abort, o.completed);
        abortFlag := true;
        return;
      }
      if !o.pidAlive {
        LogIncident(Critical, BenchPidDead, Abort, o.completed);
        abortFlag := true;
        return;
      }
      if o.completed > lastJsonlLines {
        lastJsonlLines := o.completed;
        lastJsonlChange := o.now;
      } else if o.now - lastJsonlChange > cfg.stallThreshold {
        GatedIncident(BenchStalled, o.atStall);
      }
      if !o.serverUp { GatedIncident(ServerDown, o.atServer); }
      if o.unauthorized { GatedIncident(UnauthorizedModel, o.atModel); }
      TrackVram(o);
    }

    /** The monitor thread, given what it would observe until it is stopped. */
    method RunLoop(obs: seq<Obs>) returns (taken: nat)
      modifies this
      ensures taken == Taken(cfg, totalNeedles, old(State()), obs)
      ensures State() == Run(cfg, totalNeedles, old(State()), obs)
      ensures taken < |obs| ==> abortFlag
    {
      ghost var s0 := State();
      taken := 0;
      while taken < |obs| && !abortFlag
        invariant taken <= |obs| && taken == Taken(cfg, totalNeedles, s0, obs[..taken])
        invariant State() == CheckAll(cfg, totalNeedles, s0, obs[..taken])
      {
        assert obs[..taken + 1][..taken] == obs[..taken];
        RunCheck(obs[taken]);
        taken := taken + 1;
      }
      StopsAt(cfg, totalNeedles, s0, obs, taken);
    }

    method FinalReport() returns (r: Report)
      ensures r.incidentCount == |incidents| && r.checks == checkCount
      ensures forall sev :: Tally(r.bySeverity, sev) == CountSeverity(incidents, sev)
      ensures forall k :: Tally(r.byType, k) == CountKind(incidents, k)
      ensures r.runClean <==> forall i | 0 <= i < |incidents| :: incidents[i].severity !in {Critical, High}
      ensures r.status == if CountSeverity(incidents, Critical) > 0 then CriticalStatus
                          else if CountSeverity(incidents, High) > 0 then Warnings
                          else if incidents != [] then MinorWarnings else Clean
    {
      var bySeverity: map<Severity, nat>, byType: map<Kind, nat> := map[], map[];
      var hasCritical, hasHigh := false, false;
      for i := 0 to |incidents|
        invariant forall sev :: Tally(bySeverity, sev) == CountSeverity(incidents[..i], sev)
        invariant forall k :: Tally(byType, k) == CountKind(incidents[..i], k)
        invariant hasCritical <==> exists j | 0 <= j < i :: incidents[j].severity == Critical
        invariant hasHigh <==> exists j | 0 <= j < i :: incidents[j].severity == High
        invariant hasCritical <==> CountSeverity(incidents[..i], Critical) > 0
        invariant hasHigh <==> CountSeverity(incidents[..i], High) > 0
      {
        var inc := incidents[i];
        assert incidents[..i + 1][..i] == incidents[..i];
        bySeverity := bySeverity[inc.severity := Tally(bySeverity, inc.severity) + 1];
        byType := byType[inc.kind := Tally(byType, inc.kind) + 1];
        hasCritical := hasCritical || inc.severity == Critical;
        hasHigh := hasHigh || inc.severity == High;
      }
      assert incidents[..|incidents|] == incidents;
      var status := if hasCritical then CriticalStatus else if hasHigh then Warnings
                    else if incidents != [] then MinorWarnings else Clean;
      r := Report(!(hasCritical || hasHigh), status, |incidents|, bySeverity, byType, checkCount);
    }
  }

  // ---- aborts and the incidents behind them ----

  /** What the monitor ever logs: critical incidents abort, high ones are gated by the completion
      count they were decided on, medium ones only warn. */
  predicate WellGated(cfg: Config, n: int, i: Incident) {
    match i.severity
    case Critical => i.action == Abort && i.kind in {SnapshotTampered, BenchPidDead}
    case High => i.action == (if Early(cfg, n, i.done) then RestartRequested else Warn)
                 && i.kind in {BenchStalled, ServerDown, UnauthorizedModel, VramSaturated}
    case Medium => i.action == Warn && i.kind == VramPressureSustained
    case Low => false
  }

  predicate Aborts(i: Incident) {
    i.action != Warn
  }

  ghost predicate Explained(cfg: Config, n: int, s: MonState) {
    && (forall i | 0 <= i < |s.incidents| :: WellGated(cfg, n, s.incidents[i]))
    && (s.abort <==> exists i | 0 <= i < |s.incidents| :: Aborts(s.incidents[i]))
  }

  lemma GatedKeepsExplained(cfg: Config, n: int, s: MonState, k: Kind, done: nat)
    requires Explained(cfg, n, s) && k in {BenchStalled, ServerDown, UnauthorizedModel, VramSaturated}
    ensures Explained(cfg, n, Gated(cfg, n, s, k, done))
  {
    var s' := Gated(cfg, n, s, k, done);
    assert s'.incidents[|s.incidents|].kind == k;
    assert forall i | 0 <= i < |s.incidents| :: s'.incidents[i] == s.incidents[i];
  }

  lemma StallKeepsExplained(cfg: Config, n: int, s: MonState, o: Obs)
    requires Explained(cfg, n, s)
    ensures Explained(cfg, n, CheckStall(cfg, n, s, o))
  {
    GatedKeepsExplained(cfg, n, s, BenchStalled, o.atStall);
    hide Gated;
  }

  lemma VramKeepsExplained(cfg: Config, n: int, s: MonState, o: Obs)
    requires Explained(cfg, n, s)
    ensures Explained(cfg, n, CheckVram(cfg, n, s, o))
  {
    GatedKeepsExplained(cfg, n, s, VramSaturated, o.atVram);
    hide Gated;
    var s' := CheckVram(cfg, n, s, o);
    assert forall i | 0 <= i < |s.incidents| && |s.incidents| < |s'.incidents| :: s'.incidents[i] == s.incidents[i];
  }

  lemma CriticalKeepsExplained(cfg: Config, n: int, s: MonState, k: Kind, done: nat)
    requires Explained(cfg, n, s) && k in {SnapshotTampered, BenchPidDead}
    ensures Explained(cfg, n, Log(s, Critical, k, Abort, done).(abort := true))
  {
    var s' := Log(s, Critical, k, Abort, done);
    assert Aborts(s'.incidents[|s.incidents|]);
    assert forall i | 0 <= i < |s.incidents| :: s'.incidents[i] == s.incidents[i];
  }

  lemma GatedPartKeepsExplained(cfg: Config, n: int, s: MonState, o: Obs)
    requires Explained(cfg, n, s)
    ensures Explained(cfg, n, CheckGated(cfg, n, s, o))
  {
    hide Explained, Gated, CheckStall, CheckVram;
    StallKeepsExplained(cfg, n, s, o);
    var s1 := CheckStall(cfg, n, s, o);
    GatedKeepsExplained(cfg, n, s1, ServerDown, o.atServer);
    var s2 := if o.serverUp then s1 else Gated(cfg, n, s1, ServerDown, o.atServer);
    GatedKeepsExplained(cfg, n, s2, UnauthorizedModel, o.atModel);
    var s3 := if o.unauthorized then Gated(cfg, n, s2, UnauthorizedModel, o.atModel) else s2;
    VramKeepsExplained(cfg, n, s3, o);
  }

  lemma CheckKeepsExplained(cfg: Config, n: int, s: MonState, o: Obs)
    requires Explained(cfg, n, s)
    ensures Explained(cfg, n, Check(cfg, n, s, o))
  {
    var s0 := s.(checkCount := s.checkCount + 1);
    CriticalKeepsExplained(cfg, n, s0, SnapshotTampered, o.completed);
    CriticalKeepsExplained(cfg, n, s0, BenchPidDead, o.completed);
    GatedPartKeepsExplained(cfg, n, s0, o);
    hide CheckGated, Log;
  }

  lemma {:induction false} HistoryExplained(cfg: Config, n: int, now: real, obs: seq<Obs>)
    ensures Explained(cfg, n, CheckAll(cfg, n, Fresh(now), obs))
  {
    if obs != [] {
      var prefix := obs[..|obs| - 1];
      HistoryExplained(cfg, n, now, prefix);
      CheckKeepsExplained(cfg, n, CheckAll(cfg, n, Fresh(now), prefix), obs[|obs| - 1]);
    }
  }

  /** In every run the abort flag is set iff some logged incident asked for an abort or a restart. */
  lemma AbortIffIncident(cfg: Config, n: int, now: real, obs: seq<Obs>)
    ensures var s := Run(cfg, n, Fresh(now), obs);
            s.abort <==> exists i | 0 <= i < |s.incidents| :: s.incidents[i].action in {Abort, RestartRequested}
  {
    var taken := obs[..Taken(cfg, n, Fresh(now), obs)];
    HistoryExplained(cfg, n, now, taken);
    var s := Run(cfg, n, Fresh(now), obs);
    assert forall i | 0 <= i < |s.incidents| ::
      Aborts(s.incidents[i]) <==> s.incidents[i].action in {Abort, RestartRequested};
  }

  // ---- what a check logs, told from what it observes ----

  /** The check does not get to its gated part. */
  predicate EndsEarly(o: Obs) {
    o.fails || o.snapshotChanged || !o.pidAlive
  }

  /** The condition of each kind of incident, on an observation and on what was known before it: the highest
      completion count so far, when it was reached, and the pressure counter. */
  predicate Due(cfg: Config, lines: nat, since: real, pressure: int, o: Obs, k: Kind) {
    match k
    case SnapshotTampered => !o.fails && o.snapshotChanged
    case BenchPidDead => !o.fails && !o.snapshotChanged && !o.pidAlive
    case BenchStalled => !EndsEarly(o) && o.completed <= lines && o.now - since > cfg.stallThreshold
    case ServerDown => !EndsEarly(o) && !o.serverUp
    case UnauthorizedModel => !EndsEarly(o) && o.unauthorized
    case VramSaturated => !EndsEarly(o) && o.vram.Some? && o.vram.value >= cfg.abortPct
    case VramPressureSustained =>
      !EndsEarly(o) && o.vram.Some? && cfg.warnPct <= o.vram.value < cfg.abortPct && pressure + 1 >= cfg.warnPasses
  }

  /** The reading of the completion count that an incident of each kind is decided on. */
  function DoneAt(o: Obs, k: Kind): nat {
    match k
    case BenchStalled => o.atStall
    case ServerDown => o.atServer
    case UnauthorizedModel => o.atModel
    case VramSaturated => o.atVram
    case _ => o.completed
  }

  /** The incident of each kind, critical ones with an abort, gated ones with a restart while early. */
  function Entry(cfg: Config, n: int, check: nat, o: Obs, k: Kind): Incident {
    var done := DoneAt(o, k);
    match k
    case SnapshotTampered => Incident(check, Critical, k, Abort, done)
    case BenchPidDead => Incident(check, Critical, k, Abort, done)
    case VramPressureSustained => Incident(check, Medium, k, Warn, done)
    case _ => Incident(check, High, k, if Early(cfg, n, done) then RestartRequested else Warn, done)
  }

  predicate DueNow(cfg: Config, s: MonState, o: Obs, k: Kind) {
    Due(cfg, s.lastLines, s.lastChange, s.vramCounter, o, k)
  }

  function IfDue(cfg: Config, n: int, s: MonState, o: Obs, k: Kind): seq<Incident> {
    if DueNow(cfg, s, o, k) then [Entry(cfg, n, s.checkCount + 1, o, k)] else []
  }

  /** A due incident of kind `k` sets the flag: it is critical, or gated and decided while early. */
  predicate Decisive(cfg: Config, n: int, o: Obs, k: Kind) {
    match k
    case SnapshotTampered => true
    case BenchPidDead => true
    case VramPressureSustained => false
    case _ => Early(cfg, n, DoneAt(o, k))
  }

  lemma GatedLogs(cfg: Config, n: int, s: MonState, k: Kind, done: nat)
    ensures var s' := Gated(cfg, n, s, k, done);
            && s'.incidents == s.incidents + [Incident(s.checkCount, High, k,
                                                       if Early(cfg, n, done) then RestartRequested else Warn, done)]
            && s'.abort == (s.abort || Early(cfg, n, done))
            && s' == s.(incidents := s'.incidents, abort := s'.abort)
  {
    hide Early;
  }

  lemma StallLogs(cfg: Config, n: int, s: MonState, o: Obs)
    requires !EndsEarly(o) && s.checkCount > 0
    ensures var s' := CheckStall(cfg, n, s, o);
            && s'.incidents == s.incidents + IfDue(cfg, n, s.(checkCount := s.checkCount - 1), o, BenchStalled)
            && s'.abort == (s.abort || (DueNow(cfg, s, o, BenchStalled) && Early(cfg, n, o.atStall)))
            && s'.checkCount == s.checkCount && s'.vramCounter == s.vramCounter
  {
    GatedLogs(cfg, n, s, BenchStalled, o.atStall);
    hide Early, Gated;
  }

  lemma VramLogs(cfg: Config, n: int, s: MonState, o: Obs)
    requires !EndsEarly(o) && s.checkCount > 0
    ensures var s' := CheckVram(cfg, n, s, o);
            && s'.incidents == s.incidents + IfDue(cfg, n, s.(checkCount := s.checkCount - 1), o, VramSaturated)
                               + IfDue(cfg, n, s.(checkCount := s.checkCount - 1), o, VramPressureSustained)
            && s'.abort == (s.abort || (DueNow(cfg, s, o, VramSaturated) && Early(cfg, n, o.atVram)))
  {
    GatedLogs(cfg, n, s, VramSaturated, o.atVram);
    hide Early, Gated;
  }

  /** A check that gets to its gated part logs the gated incidents and the pressure warning that are due, in
      this order, and nothing else. */
  lemma GatedPartLogs(cfg: Config, n: int, s: MonState, o: Obs)
    requires !EndsEarly(o)
    ensures var s' := Check(cfg, n, s, o);
            && s'.incidents ==
               s.incidents + IfDue(cfg, n, s, o, BenchStalled) + IfDue(cfg, n, s, o, ServerDown)
               + IfDue(cfg, n, s, o, UnauthorizedModel) + IfDue(cfg, n, s, o, VramSaturated)
               + IfDue(cfg, n, s, o, VramPressureSustained)
            && (s'.abort <==>
                  || s.abort
                  || (DueNow(cfg, s, o, BenchStalled) && Early(cfg, n, o.atStall))
                  || (DueNow(cfg, s, o, ServerDown) && Early(cfg, n, o.atServer))
                  || (DueNow(cfg, s, o, UnauthorizedModel) && Early(cfg, n, o.atModel))
                  || (DueNow(cfg, s, o, VramSaturated) && Early(cfg, n, o.atVram)))
  {
    hide Early, Gated, CheckStall, CheckVram;
    var s0 := s.(checkCount := s.checkCount + 1);
    StallLogs(cfg, n, s0, o);
    var s1 := CheckStall(cfg, n, s0, o);
    GatedLogs(cfg, n, s1, ServerDown, o.atServer);
    var s2 := if o.serverUp then s1 else Gated(cfg, n, s1, ServerDown, o.atServer);
    GatedLogs(cfg, n, s2, UnauthorizedModel, o.atModel);
    var s3 := if o.unauthorized then Gated(cfg, n, s2, UnauthorizedModel, o.atModel) else s2;
    VramLogs(cfg, n, s3, o);
    assert Check(cfg, n, s, o) == CheckVram(cfg, n, s3, o);
    assert s2.incidents == s1.incidents + IfDue(cfg, n, s, o, ServerDown);
    assert s3.incidents == s2.incidents + IfDue(cfg, n, s, o, UnauthorizedModel);
    assert IfDue(cfg, n, s3.(checkCount := s3.checkCount - 1), o, VramSaturated) == IfDue(cfg, n, s, o, VramSaturated);
    assert IfDue(cfg, n, s3.(checkCount := s3.checkCount - 1), o, VramPressureSustained)
        == IfDue(cfg, n, s, o, VramPressureSustained);
  }

  /** One check logs exactly the incidents whose conditions hold, each once, in the order of the conditions. */
  lemma CheckLogs(cfg: Config, n: int, s: MonState, o: Obs)
    ensures Check(cfg, n, s, o).incidents ==
            s.incidents + IfDue(cfg, n, s, o, SnapshotTampered) + IfDue(cfg, n, s, o, BenchPidDead)
            + IfDue(cfg, n, s, o, BenchStalled) + IfDue(cfg, n, s, o, ServerDown)
            + IfDue(cfg, n, s, o, UnauthorizedModel) + IfDue(cfg, n, s, o, VramSaturated)
            + IfDue(cfg, n, s, o, VramPressureSustained)
  {
    hide Early;
    if !EndsEarly(o) { GatedPartLogs(cfg, n, s, o); }
    hide CheckGated;
  }

  /** The flag becomes set iff a critical condition holds, or a gated one on a count that is still early. */
  lemma CheckAborts(cfg: Config, n: int, s: MonState, o: Obs)
    ensures Check(cfg, n, s, o).abort <==>
            s.abort || exists k :: DueNow(cfg, s, o, k) && Decisive(cfg, n, o, k)
  {
    hide Early, CheckGated;
    if !EndsEarly(o) { GatedPartLogs(cfg, n, s, o); }
    hide IfDue;
    assert Decisive(cfg, n, o, SnapshotTampered) && Decisive(cfg, n, o, BenchPidDead);
    assert DueNow(cfg, s, o, BenchStalled) && Early(cfg, n, o.atStall) ==> Decisive(cfg, n, o, BenchStalled);
    assert DueNow(cfg, s, o, ServerDown) && Early(cfg, n, o.atServer) ==> Decisive(cfg, n, o, ServerDown);
    assert DueNow(cfg, s, o, UnauthorizedModel) && Early(cfg, n, o.atModel) ==> Decisive(cfg, n, o, UnauthorizedModel);
    assert DueNow(cfg, s, o, VramSaturated) && Early(cfg, n, o.atVram) ==> Decisive(cfg, n, o, VramSaturated);
  }

  lemma {:induction false} CountKindAppend(a: seq<Incident>, b: seq<Incident>, k: Kind)
    ensures CountKind(a + b, k) == CountKind(a, k) + CountKind(b, k)
  {
    if b == [] {
      assert a + b == a;
    } else {
      assert (a + b)[..|a + b| - 1] == a + b[..|b| - 1];
      CountKindAppend(a, b[..|b| - 1], k);
    }
  }

  lemma IfDueCounts(cfg: Config, n: int, s: MonState, o: Obs, k: Kind, incidents: seq<Incident>, of: Kind)
    ensures CountKind(incidents + IfDue(cfg, n, s, o, of), k) ==
            CountKind(incidents, k) + if k == of && DueNow(cfg, s, o, k) then 1 else 0
  {
    hide Early, DueNow;
    CountKindAppend(incidents, IfDue(cfg, n, s, o, of), k);
  }

  /** One check logs one incident of a kind if and only if that kind's condition holds. */
  lemma CheckCounts(cfg: Config, n: int, s: MonState, o: Obs, k: Kind)
    ensures CountKind(Check(cfg, n, s, o).incidents, k) ==
            CountKind(s.incidents, k) + if DueNow(cfg, s, o, k) then 1 else 0
  {
    hide *;
    CheckLogs(cfg, n, s, o);
    var i1 := s.incidents + IfDue(cfg, n, s, o, SnapshotTampered);
    var i2 := i1 + IfDue(cfg, n, s, o, BenchPidDead);
    var i3 := i2 + IfDue(cfg, n, s, o, BenchStalled);
    var i4 := i3 + IfDue(cfg, n, s, o, ServerDown);
    var i5 := i4 + IfDue(cfg, n, s, o, UnauthorizedModel);
    var i6 := i5 + IfDue(cfg, n, s, o, VramSaturated);
    IfDueCounts(cfg, n, s, o, k, s.incidents, SnapshotTampered);
    IfDueCounts(cfg, n, s, o, k, i1, BenchPidDead);
    IfDueCounts(cfg, n, s, o, k, i2, BenchStalled);
    IfDueCounts(cfg, n, s, o, k, i3, ServerDown);
    IfDueCounts(cfg, n, s, o, k, i4, UnauthorizedModel);
    IfDueCounts(cfg, n, s, o, k, i5, VramSaturated);
    IfDueCounts(cfg, n, s, o, k, i6, VramPressureSustained);
  }

  // ---- sustained VRAM pressure ----

  datatype Reading = NoReading | Healthy | Pressure | Saturated

  /** What a check learns about VRAM; a check that ends before the VRAM part learns nothing. */
  function ReadingOf(cfg: Config, o: Obs): Reading {
    if EndsEarly(o) || o.vram.None? then NoReading
    else if o.vram.value >= cfg.abortPct then Saturated
    else if o.vram.value >= cfg.warnPct then Pressure
    else Healthy
  }

  /** Pressure readings since the last healthy one. */
  function PressureRun(cfg: Config, obs: seq<Obs>): nat {
    if obs == [] then 0
    else
      var before := PressureRun(cfg, obs[..|obs| - 1]);
      match ReadingOf(cfg, obs[|obs| - 1])
      case Healthy => 0
      case Pressure => before + 1
      case _ => before
  }

  function Passes(cfg: Config): int {
    if cfg.warnPasses >= 1 then cfg.warnPasses else 1
  }

  function Sustained(s: MonState): nat {
    CountKind(s.incidents, VramPressureSustained)
  }

  /** The sustained-pressure incidents logged since the last healthy reading. */
  function FiredSinceHealthy(cfg: Config, n: int, s: MonState, obs: seq<Obs>): int {
    if obs == [] || ReadingOf(cfg, obs[|obs| - 1]).Healthy? then 0
    else
      var prefix := obs[..|obs| - 1];
      FiredSinceHealthy(cfg, n, s, prefix)
      + Sustained(CheckAll(cfg, n, s, obs)) - Sustained(CheckAll(cfg, n, s, prefix))
  }

  /** The counter and the number of sustained incidents move by the reading alone. */
  ghost predicate MovesBy(cfg: Config, s: MonState, s': MonState, r: Reading) {
    var fires := s.vramCounter + 1 >= cfg.warnPasses;
    match r
    case Healthy => s'.vramCounter == 0 && Sustained(s') == Sustained(s)
    case Pressure => s'.vramCounter == (if fires then 0 else s.vramCounter + 1) &&
                     Sustained(s') == Sustained(s) + if fires then 1 else 0
    case _ => s'.vramCounter == s.vramCounter && Sustained(s') == Sustained(s)
  }

  lemma LogCounts(s: MonState, sev: Severity, k: Kind, a: Response, done: nat)
    ensures Sustained(Log(s, sev, k, a, done)) == Sustained(s) + if k == VramPressureSustained then 1 else 0
  {
    assert (s.incidents + [Incident(s.checkCount, sev, k, a, done)])[..|s.incidents|] == s.incidents;
  }

  lemma GatedCounters(cfg: Config, n: int, s: MonState, k: Kind, done: nat)
    requires k != VramPressureSustained
    ensures var s' := Gated(cfg, n, s, k, done); Sustained(s') == Sustained(s) && s'.vramCounter == s.vramCounter
  {
    LogCounts(s, High, k, RestartRequested, done);
    LogCounts(s, High, k, Warn, done);
    hide CountKind, Early;
  }

  lemma VramCounters(cfg: Config, n: int, s: MonState, o: Obs)
    requires !EndsEarly(o)
    ensures MovesBy(cfg, s, CheckVram(cfg, n, s, o), ReadingOf(cfg, o))
  {
    GatedCounters(cfg, n, s, VramSaturated, o.atVram);
    LogCounts(s.(vramCounter := s.vramCounter + 1), Medium, VramPressureSustained, Warn, o.completed);
    hide Gated, CountKind, Early;
  }

  lemma StallCounters(cfg: Config, n: int, s: MonState, o: Obs)
    ensures Sustained(CheckStall(cfg, n, s, o)) == Sustained(s)
  {
    hide Gated, CountKind, Early;
    GatedCounters(cfg, n, s, BenchStalled, o.atStall);
  }

  lemma GatedPartCounters(cfg: Config, n: int, s: MonState, o: Obs)
    requires !EndsEarly(o)
    ensures MovesBy(cfg, s, CheckGated(cfg, n, s, o), ReadingOf(cfg, o))
  {
    hide Gated, CheckVram, Sustained, Early, ReadingOf;
    GatedCounters(cfg, n, s, BenchStalled, o.atStall);
    var s1 := CheckStall(cfg, n, s, o);
    assert Sustained(s1) == Sustained(s) by { StallCounters(cfg, n, s, o); }
    GatedCounters(cfg, n, s1, ServerDown, o.atServer);
    var s2 := if o.serverUp then s1 else Gated(cfg, n, s1, ServerDown, o.atServer);
    GatedCounters(cfg, n, s2, UnauthorizedModel, o.atModel);
    var s3 := if o.unauthorized then Gated(cfg, n, s2, UnauthorizedModel, o.atModel) else s2;
    VramCounters(cfg, n, s3, o);
  }

  lemma EarlyEndCounters(cfg: Config, n: int, s: MonState, o: Obs)
    requires EndsEarly(o)
    ensures var s' := Check(cfg, n, s, o); s'.vramCounter == s.vramCounter && Sustained(s') == Sustained(s)
  {
    hide CheckGated, CountKind;
    var s0 := s.(checkCount := s.checkCount + 1);
    LogCounts(s0, Critical, SnapshotTampered, Abort, o.completed);
    LogCounts(s0, Critical, BenchPidDead, Abort, o.completed);
  }

  lemma CheckCounters(cfg: Config, n: int, s: MonState, o: Obs)
    ensures MovesBy(cfg, s, Check(cfg, n, s, o), ReadingOf(cfg, o))
  {
    hide CheckGated, CountKind, Log;
    if EndsEarly(o) {
      EarlyEndCounters(cfg, n, s, o);
      assert ReadingOf(cfg, o).NoReading?;
    } else {
      var s0 := s.(checkCount := s.checkCount + 1);
      GatedPartCounters(cfg, n, s0, o);
      assert Check(cfg, n, s, o) == CheckGated(cfg, n, s0, o);
    }
  }

  /** `p` pressure readings since the last healthy one have left the counter at `counter` and logged
      `fired` sustained incidents. */
  ghost predicate Exact(cfg: Config, counter: int, fired: int, p: nat) {
    counter == p % Passes(cfg) && fired == p / Passes(cfg)
  }

  lemma MultipleIsFar(k: int, d: int)
    requires k >= 1
    ensures d >= 1 ==> k * d >= k
    ensures d <= -1 ==> k * d <= -k
  {
  }

  lemma DivModUnique(x: nat, k: int, q: int, r: int)
    requires k >= 1 && x == k * q + r && 0 <= r < k
    ensures x / k == q && x % k == r
  {
    MultipleIsFar(k, q - x / k);
    assert k * (q - x / k) == x % k - r;
  }

  lemma DivModStep(x: nat, k: int)
    requires k >= 1
    ensures (x + 1) % k == (if x % k + 1 >= k then 0 else x % k + 1)
    ensures (x + 1) / k == x / k + if x % k + 1 >= k then 1 else 0
  {
    var q, r := x / k, x % k;
    assert x == k * q + r;
    if r + 1 >= k {
      assert x + 1 == k * (q + 1);
      DivModUnique(x + 1, k, q + 1, 0);
    } else {
      DivModUnique(x + 1, k, q, r + 1);
    }
  }

  lemma MoveKeepsExact(cfg: Config, s: MonState, s': MonState, r: Reading, fired: int, p: nat)
    requires Exact(cfg, s.vramCounter, fired, p) && MovesBy(cfg, s, s', r)
    ensures match r
            case Healthy => Exact(cfg, s'.vramCounter, 0, 0)
            case Pressure => Exact(cfg, s'.vramCounter, fired + Sustained(s') - Sustained(s), p + 1)
            case _ => Exact(cfg, s'.vramCounter, fired + Sustained(s') - Sustained(s), p)
  {
    hide Sustained;
    DivModStep(p, Passes(cfg));
  }

  /** After any history of checks the counter is the number of pressure readings since the last
      healthy one, modulo the pass limit, and the sustained incidents logged since then are the
      quotient. Missing and saturated readings are neutral. */
  lemma {:induction false} PressureCounterExact(cfg: Config, n: int, now: real, obs: seq<Obs>)
    ensures Exact(cfg, CheckAll(cfg, n, Fresh(now), obs).vramCounter,
                  FiredSinceHealthy(cfg, n, Fresh(now), obs), PressureRun(cfg, obs))
  {
    if obs != [] {
      hide Exact, MovesBy, Check, Sustained;
      var prefix, o := obs[..|obs| - 1], obs[|obs| - 1];
      PressureCounterExact(cfg, n, now, prefix);
      var s := CheckAll(cfg, n, Fresh(now), prefix);
      CheckCounters(cfg, n, s, o);
      MoveKeepsExact(cfg, s, Check(cfg, n, s, o), ReadingOf(cfg, o),
                     FiredSinceHealthy(cfg, n, Fresh(now), prefix), PressureRun(cfg, prefix));
    }
  }

  // ---- the same over histories, told from the observations alone ----

  /** The highest completion count that a check got to compare. */
  function Best(obs: seq<Obs>): nat {
    if obs == [] then 0
    else
      var o := obs[|obs| - 1];
      if !EndsEarly(o) && o.completed > Best(obs[..|obs| - 1]) then o.completed else Best(obs[..|obs| - 1])
  }

  /** When that count was first reached; the monitor's own start as long as nothing was completed. */
  function Since(now: real, obs: seq<Obs>): real {
    if obs == [] then now
    else
      var o := obs[|obs| - 1];
      if !EndsEarly(o) && o.completed > Best(obs[..|obs| - 1]) then o.now else Since(now, obs[..|obs| - 1])
  }

  lemma {:induction false} BestIsHighest(obs: seq<Obs>, i: nat)
    requires i < |obs| && !EndsEarly(obs[i])
    ensures obs[i].completed <= Best(obs)
  {
    if i < |obs| - 1 { BestIsHighest(obs[..|obs| - 1], i); }
  }

  /** The check `i` that first compared the highest count gave the time, if any count was above 0. */
  lemma {:induction false} BestReached(now: real, obs: seq<Obs>) returns (i: nat)
    ensures Best(obs) == 0 ==> Since(now, obs) == now
    ensures Best(obs) > 0 ==>
              && i < |obs| && !EndsEarly(obs[i]) && obs[i].completed == Best(obs) && obs[i].now == Since(now, obs)
              && forall j | 0 <= j < i && !EndsEarly(obs[j]) :: obs[j].completed < Best(obs)
  {
    i := 0;
    if obs != [] {
      var front, o := obs[..|obs| - 1], obs[|obs| - 1];
      i := BestReached(now, front);
      if !EndsEarly(o) && o.completed > Best(front) {
        i := |obs| - 1;
        forall j | 0 <= j < i && !EndsEarly(obs[j]) ensures obs[j].completed < Best(obs) { BestIsHighest(front, j); }
      }
    }
  }

  lemma StallProgress(cfg: Config, n: int, s: MonState, o: Obs)
    ensures var s', better := CheckStall(cfg, n, s, o), o.completed > s.lastLines;
            && s'.lastLines == (if better then o.completed else s.lastLines)
            && s'.lastChange == (if better then o.now else s.lastChange)
  {
    GatedLogs(cfg, n, s, BenchStalled, o.atStall);
    hide Gated;
  }

  lemma CheckNumber(cfg: Config, n: int, s: MonState, o: Obs)
    ensures Check(cfg, n, s, o).checkCount == s.checkCount + 1
  {
    hide Early;
  }

  lemma CheckProgress(cfg: Config, n: int, s: MonState, o: Obs)
    ensures var s', better := Check(cfg, n, s, o), !EndsEarly(o) && o.completed > s.lastLines;
            && s'.lastLines == (if better then o.completed else s.lastLines)
            && s'.lastChange == (if better then o.now else s.lastChange)
  {
    hide Gated, CheckStall;
    var s0 := s.(checkCount := s.checkCount + 1);
    StallProgress(cfg, n, s0, o);
    var s1 := CheckStall(cfg, n, s0, o);
    GatedLogs(cfg, n, s1, ServerDown, o.atServer);
    var s2 := if o.serverUp then s1 else Gated(cfg, n, s1, ServerDown, o.atServer);
    GatedLogs(cfg, n, s2, UnauthorizedModel, o.atModel);
    var s3 := if o.unauthorized then Gated(cfg, n, s2, UnauthorizedModel, o.atModel) else s2;
    GatedLogs(cfg, n, s3, VramSaturated, o.atVram);
    assert EndsEarly(o) || Check(cfg, n, s, o) == CheckVram(cfg, n, s3, o);
  }

  lemma {:induction false} ProgressTracked(cfg: Config, n: int, now: real, obs: seq<Obs>)
    ensures CheckAll(cfg, n, Fresh(now), obs).lastLines == Best(obs)
    ensures CheckAll(cfg, n, Fresh(now), obs).lastChange == Since(now, obs)
  {
    if obs != [] {
      var before := obs[..|obs| - 1];
      ProgressTracked(cfg, n, now, before);
      CheckProgress(cfg, n, CheckAll(cfg, n, Fresh(now), before), obs[|obs| - 1]);
      hide Check;
    }
  }

  /** The condition of an incident of kind `k` holds of `o` after the observations `before`. */
  predicate DueAfter(cfg: Config, now: real, before: seq<Obs>, o: Obs, k: Kind) {
    Due(cfg, Best(before), Since(now, before), PressureRun(cfg, before) % Passes(cfg), o, k)
  }

  lemma DueAfterHistory(cfg: Config, n: int, now: real, before: seq<Obs>, o: Obs, k: Kind)
    ensures DueNow(cfg, CheckAll(cfg, n, Fresh(now), before), o, k) == DueAfter(cfg, now, before, o, k)
  {
    ProgressTracked(cfg, n, now, before);
    PressureCounterExact(cfg, n, now, before);
    hide CheckAll, Best, Since, PressureRun, FiredSinceHealthy;
  }

  /** How many of the observations meet the condition of kind `k`. */
  function Occasions(cfg: Config, now: real, obs: seq<Obs>, k: Kind): nat {
    if obs == [] then 0
    else
      var before := obs[..|obs| - 1];
      Occasions(cfg, now, before, k) + if DueAfter(cfg, now, before, obs[|obs| - 1], k) then 1 else 0
  }

  /** In every history each kind of incident is logged exactly as often as its condition held. */
  lemma {:induction false} HistoryCounts(cfg: Config, n: int, now: real, obs: seq<Obs>, k: Kind)
    ensures CountKind(CheckAll(cfg, n, Fresh(now), obs).incidents, k) == Occasions(cfg, now, obs, k)
  {
    if obs != [] {
      var before, o := obs[..|obs| - 1], obs[|obs| - 1];
      HistoryCounts(cfg, n, now, before, k);
      CheckCounts(cfg, n, CheckAll(cfg, n, Fresh(now), before), o, k);
      DueAfterHistory(cfg, n, now, before, o, k);
      hide Check, DueAfter, CountKind;
    }
  }

  function Places(obs: seq<Obs>, sees: Obs -> bool): set<int> {
    set i | 0 <= i < |obs| && sees(obs[i])
  }

  lemma PlacesNext(obs: seq<Obs>, sees: Obs -> bool)
    requires obs != []
    ensures |Places(obs, sees)| == |Places(obs[..|obs| - 1], sees)| + if sees(obs[|obs| - 1]) then 1 else 0
  {
    var last := |obs| - 1;
    var S := Places(obs[..last], sees);
    assert Places(obs, sees) == if sees(obs[last]) then S + {last} else S;
  }

  /** The kinds whose condition is on the observation alone are logged as often as they are seen. */
  lemma {:induction false} OccasionsSeen(cfg: Config, now: real, obs: seq<Obs>, k: Kind, sees: Obs -> bool)
    requires forall o, lines, since, pressure :: Due(cfg, lines, since, pressure, o, k) == sees(o)
    ensures Occasions(cfg, now, obs, k) == |Places(obs, sees)|
  {
    if obs != [] {
      OccasionsSeen(cfg, now, obs[..|obs| - 1], k, sees);
      PlacesNext(obs, sees);
      hide Due;
    }
  }

  /** Say, a server that is down is logged by exactly the checks that see it down and do not end early. */
  lemma ServerDownCounts(cfg: Config, n: int, now: real, obs: seq<Obs>)
    ensures CountKind(CheckAll(cfg, n, Fresh(now), obs).incidents, ServerDown) ==
            |set i | 0 <= i < |obs| && !EndsEarly(obs[i]) && !obs[i].serverUp|
  {
    HistoryCounts(cfg, n, now, obs, ServerDown);
    var sees := (o: Obs) => !EndsEarly(o) && !o.serverUp;
    OccasionsSeen(cfg, now, obs, ServerDown, sees);
    assert Places(obs, sees) ==
           (set i | 0 <= i < |obs| && !EndsEarly(obs[i]) && !obs[i].serverUp);
  }

  /** At the `i`-th observation a critical condition held, or a gated one on a count that was still early. */
  ghost predicate DecidedAt(cfg: Config, n: int, now: real, obs: seq<Obs>, i: nat)
    requires i < |obs|
  {
    exists k :: DueAfter(cfg, now, obs[..i], obs[i], k) && Decisive(cfg, n, obs[i], k)
  }

  lemma LastDecided(cfg: Config, n: int, now: real, obs: seq<Obs>)
    requires obs != []
    ensures var s, s' := CheckAll(cfg, n, Fresh(now), obs[..|obs| - 1]), CheckAll(cfg, n, Fresh(now), obs);
            s'.abort <==> s.abort || DecidedAt(cfg, n, now, obs, |obs| - 1)
  {
    var last := |obs| - 1;
    var s := CheckAll(cfg, n, Fresh(now), obs[..last]);
    CheckAborts(cfg, n, s, obs[last]);
    forall k ensures DueNow(cfg, s, obs[last], k) == DueAfter(cfg, now, obs[..last], obs[last], k) {
      DueAfterHistory(cfg, n, now, obs[..last], obs[last], k);
    }
    hide Check, DueNow, DueAfter, Decisive;
  }

  lemma {:induction false} HistoryAborts(cfg: Config, n: int, now: real, obs: seq<Obs>)
    ensures CheckAll(cfg, n, Fresh(now), obs).abort <==> exists i | 0 <= i < |obs| :: DecidedAt(cfg, n, now, obs, i)
  {
    if obs != [] {
      var last := |obs| - 1;
      HistoryAborts(cfg, n, now, obs[..last]);
      LastDecided(cfg, n, now, obs);
      forall i | 0 <= i < last ensures DecidedAt(cfg, n, now, obs[..last], i) == DecidedAt(cfg, n, now, obs, i) {
        assert obs[..last][..i] == obs[..i];
      }
      hide CheckAll, DecidedAt;
    }
  }

  lemma DecidedInFront(cfg: Config, n: int, now: real, obs: seq<Obs>, j: nat)
    requires j <= |obs|
    ensures CheckAll(cfg, n, Fresh(now), obs[..j]).abort <==> exists i | 0 <= i < j :: DecidedAt(cfg, n, now, obs, i)
  {
    HistoryAborts(cfg, n, now, obs[..j]);
    hide CheckAll, DueAfter, Decisive;
    assert forall i | 0 <= i < j :: obs[..j][..i] == obs[..i];
    assert forall i | 0 <= i < j :: DecidedAt(cfg, n, now, obs[..j], i) == DecidedAt(cfg, n, now, obs, i);
  }

  /** Every run ends aborted right after the first observation that decides it, or else sees all of them. */
  lemma RunStopsAtDecision(cfg: Config, n: int, now: real, obs: seq<Obs>)
    ensures var taken, aborted := Taken(cfg, n, Fresh(now), obs), Run(cfg, n, Fresh(now), obs).abort;
            && (aborted <==> taken > 0 && DecidedAt(cfg, n, now, obs, taken - 1))
            && (forall i | 0 <= i < taken - 1 :: !DecidedAt(cfg, n, now, obs, i))
            && (taken < |obs| ==> aborted)
  {
    var taken := Taken(cfg, n, Fresh(now), obs);
    TakenUntilAbort(cfg, n, Fresh(now), obs, if taken > 0 then taken - 1 else 0);
    DecidedInFront(cfg, n, now, obs, taken);
    DecidedInFront(cfg, n, now, obs, if taken > 0 then taken - 1 else 0);
    hide CheckAll, Taken, DecidedAt;
  }

  // ---- how much a non-critical abort can cost ----

  lemma DivideBack(x: real, t: real)
    requires t > 0.0
    ensures x / t * t == x
  {
  }

  lemma ScaledLess(a: real, b: real, t: real)
    requires t > 0.0
    ensures a < b <==> a * t < b * t
  {
  }

  lemma ScaledMin(a: real, b: real, t: real)
    requires t > 0.0
    ensures MinReal(a, b) * t == MinReal(a * t, b * t)
  {
    ScaledLess(b, a, t);
  }

  lemma ScaledMax(a: real, b: real, t: real)
    requires t > 0.0
    ensures MaxReal(a, b) * t == MaxReal(a * t, b * t)
  {
    ScaledLess(a, b, t);
  }

  lemma ClampTimes(lo: real, hi: real, q: real, p: real, t: real)
    requires t > 0.0
    ensures p < MaxReal(lo, MinReal(hi, q)) <==> p * t < MaxReal(lo * t, MinReal(hi * t, q * t))
  {
    ScaledMin(hi, q, t);
    ScaledMax(lo, MinReal(hi, q), t);
    ScaledLess(p, MaxReal(lo, MinReal(hi, q)), t);
    hide MaxReal, MinReal;
  }

  lemma ClampScales(lo: real, hi: real, b: real, d: real, t: real)
    requires t > 0.0
    ensures d / t < MaxReal(lo, MinReal(hi, b / t)) <==> d < MaxReal(lo * t, MinReal(hi * t, b))
  {
    hide MaxReal, MinReal;
    var q, p := b / t, d / t;
    DivideBack(b, t);
    DivideBack(d, t);
    assert q * t == b && p * t == d;
    ClampTimes(lo, hi, q, p, t);
  }

  /** Early means fewer completed needles than the protection budget allows, clamped to a share of
      the total: with the defaults, fewer than max(0.05 N, min(0.30 N, 150)). */
  lemma EarlyIffWithinBudget(cfg: Config, n: int, done: nat)
    ensures Early(cfg, n, done) <==>
            done as real <
            MaxReal(cfg.minPct * Total(n) as real, MinReal(cfg.maxPct * Total(n) as real, cfg.budget as real))
  {
    ClampScales(cfg.minPct, cfg.maxPct, cfg.budget as real, done as real, Total(n) as real);
  }

  lemma BelowClamp(x: real, lo: real, hi: real, b: real)
    ensures x < MaxReal(lo, MinReal(hi, b)) <==> x < lo || (x < hi && x < b)
  {
  }

  /** The same by comparisons alone: below the lower share of the total, or below both the upper one and the budget. */
  lemma EarlyByCount(cfg: Config, n: int, done: nat)
    ensures var total := if n >= 1 then n as real else 1.0;
            Early(cfg, n, done) <==>
              || done as real < cfg.minPct * total
              || (done as real < cfg.maxPct * total && done < cfg.budget)
  {
    EarlyIffWithinBudget(cfg, n, done);
    BelowClamp(done as real, cfg.minPct * Total(n) as real, cfg.maxPct * Total(n) as real, cfg.budget as real);
    hide Early, MaxReal, MinReal;
  }

  /** In every run, an abort that is not critical was decided on a completion count within the budget. */
  lemma NonCriticalAbortIsCheap(cfg: Config, n: int, now: real, obs: seq<Obs>, i: nat)
    requires i < |Run(cfg, n, Fresh(now), obs).incidents|
    requires var inc := Run(cfg, n, Fresh(now), obs).incidents[i]; Aborts(inc) && inc.severity != Critical
    ensures var inc := Run(cfg, n, Fresh(now), obs).incidents[i];
            inc.done as real <
            MaxReal(cfg.minPct * Total(n) as real, MinReal(cfg.maxPct * Total(n) as real, cfg.budget as real))
  {
    HistoryExplained(cfg, n, now, obs[..Taken(cfg, n, Fresh(now), obs)]);
    EarlyIffWithinBudget(cfg, n, Run(cfg, n, Fresh(now), obs).incidents[i].done);
  }

  /** With the default configuration: fewer than max(0.05 N, min(0.30 N, 150)) needles. */
  lemma DefaultAbortIsCheap(n: int, now: real, obs: seq<Obs>, i: nat)
    requires i < |Run(DEFAULTS, n, Fresh(now), obs).incidents|
    requires var inc := Run(DEFAULTS, n, Fresh(now), obs).incidents[i]; Aborts(inc) && inc.severity != Critical
    ensures var inc := Run(DEFAULTS, n, Fresh(now), obs).incidents[i];
            inc.done as real < MaxReal(0.05 * Total(n) as real, MinReal(0.30 * Total(n) as real, 150.0))
  {
    NonCriticalAbortIsCheap(DEFAULTS, n, now, obs, i);
    hide Run, MaxReal, MinReal;
  }

  /** No reading of this observation falls below `floor`. */
  predicate ReadsAtLeast(o: Obs, floor: nat) {
    o.completed >= floor && o.atStall >= floor && o.atServer >= floor && o.atModel >= floor && o.atVram >= floor
  }

  ghost predicate OnlyCriticalAborts(incidents: seq<Incident>, base: nat) {
    forall i | base <= i < |incidents| :: Aborts(incidents[i]) ==> incidents[i].severity == Critical
  }

  lemma EarlyIsMonotone(cfg: Config, n: int, done: nat, later: nat)
    requires later >= done && Early(cfg, n, later)
    ensures Early(cfg, n, done)
  {
    EarlyIffWithinBudget(cfg, n, done);
    EarlyIffWithinBudget(cfg, n, later);
  }

  lemma LateCheck(cfg: Config, n: int, s: MonState, o: Obs, floor: nat, base: nat)
    requires !Early(cfg, n, floor) && ReadsAtLeast(o, floor) && base <= |s.incidents|
    requires OnlyCriticalAborts(s.incidents, base)
    ensures var s' := Check(cfg, n, s, o); base <= |s'.incidents| && OnlyCriticalAborts(s'.incidents, base)
  {
    forall d: nat | d >= floor ensures !Early(cfg, n, d) {
      if Early(cfg, n, d) { EarlyIsMonotone(cfg, n, floor, d); }
    }
    hide Early;
  }

  /** Once progress has reached the threshold, and if the count never falls below what it was, only
      critical incidents abort. `s` is the state when the count was first seen there. */
  lemma {:induction false} LateRunsAbortOnlyCritically(cfg: Config, n: int, s: MonState, obs: seq<Obs>, floor: nat)
    requires !Early(cfg, n, floor)
    requires forall i | 0 <= i < |obs| :: ReadsAtLeast(obs[i], floor)
    ensures var s' := CheckAll(cfg, n, s, obs);
            |s.incidents| <= |s'.incidents| && OnlyCriticalAborts(s'.incidents, |s.incidents|)
  {
    if obs != [] {
      var prefix := obs[..|obs| - 1];
      LateRunsAbortOnlyCritically(cfg, n, s, prefix, floor);
      LateCheck(cfg, n, CheckAll(cfg, n, s, prefix), obs[|obs| - 1], floor, |s.incidents|);
    }
  }

  // ---- the report ----

  lemma {:induction false} CountsSum(incidents: seq<Incident>)
    ensures |incidents| == CountSeverity(incidents, Critical) + CountSeverity(incidents, High)
                           + CountSeverity(incidents, Medium) + CountSeverity(incidents, Low)
    ensures |incidents| == CountKind(incidents, SnapshotTampered) + CountKind(incidents, BenchPidDead)
                           + CountKind(incidents, BenchStalled) + CountKind(incidents, ServerDown)
                           + CountKind(incidents, UnauthorizedModel) + CountKind(incidents, VramSaturated)
                           + CountKind(incidents, VramPressureSustained)
  {
    if incidents != [] { CountsSum(incidents[..|incidents| - 1]); }
  }

  lemma {:induction false} NoSeverityNoIncident(incidents: seq<Incident>, sev: Severity)
    ensures CountSeverity(incidents, sev) == 0 <==> forall i | 0 <= i < |incidents| :: incidents[i].severity != sev
  {
    if incidents != [] { NoSeverityNoIncident(incidents[..|incidents| - 1], sev); }
  }

  lemma {:induction false} ChecksCounted(cfg: Config, n: int, now: real, obs: seq<Obs>)
    ensures CheckAll(cfg, n, Fresh(now), obs).checkCount == |obs|
  {
    if obs != [] {
      var before := obs[..|obs| - 1];
      ChecksCounted(cfg, n, now, before);
      CheckNumber(cfg, n, CheckAll(cfg, n, Fresh(now), before), obs[|obs| - 1]);
      hide Check;
    }
  }

  /** The report of a finished run, told from its observations: each kind is tallied as often as its condition
      held. Both tallies sum to the incident count, an aborted run is never clean, and a clean run has logged
      nothing but sustained-pressure warnings. */
  method ReportRun(cfg: Config, n: int, now: real, obs: seq<Obs>) returns (r: Report, aborted: bool, taken: nat)
    ensures aborted == Run(cfg, n, Fresh(now), obs).abort && r.checks == taken <= |obs|
    ensures aborted <==> exists i | 0 <= i < taken :: DecidedAt(cfg, n, now, obs, i)
    ensures taken < |obs| ==> aborted
    ensures forall k :: Tally(r.byType, k) == Occasions(cfg, now, obs[..taken], k)
    ensures r.incidentCount == Tally(r.bySeverity, Critical) + Tally(r.bySeverity, High)
                               + Tally(r.bySeverity, Medium) + Tally(r.bySeverity, Low)
    ensures r.incidentCount == Tally(r.byType, SnapshotTampered) + Tally(r.byType, BenchPidDead)
                               + Tally(r.byType, BenchStalled) + Tally(r.byType, ServerDown)
                               + Tally(r.byType, UnauthorizedModel) + Tally(r.byType, VramSaturated)
                               + Tally(r.byType, VramPressureSustained)
    ensures aborted ==> !r.runClean && r.status in {CriticalStatus, Warnings}
    ensures r.runClean <==> forall i | 0 <= i < |Run(cfg, n, Fresh(now), obs).incidents| ::
                              Run(cfg, n, Fresh(now), obs).incidents[i].kind == VramPressureSustained
  {
    var m := new BenchmarkMonitor(cfg, n, now);
    taken := m.RunLoop(obs);
    r := m.FinalReport();
    aborted := m.abortFlag;
    CountsSum(m.incidents);
    HistoryExplained(cfg, n, now, obs[..taken]);
    NoSeverityNoIncident(m.incidents, Critical);
    NoSeverityNoIncident(m.incidents, High);
    forall k ensures Tally(r.byType, k) == Occasions(cfg, now, obs[..taken], k) {
      HistoryCounts(cfg, n, now, obs[..taken], k);
    }
    DecidedInFront(cfg, n, now, obs, taken);
    ChecksCounted(cfg, n, now, obs[..taken]);
    hide *;
  }
}
