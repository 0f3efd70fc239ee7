/** What every run of the lifecycle machine keeps, and what a finished call may rely on. */
module LifecycleSafety {
  import opened Text
  import opened Lifecycle

  /** Facts about the process slot alone. */
  ghost predicate SlotInv(os: EnvVars, s: State) {
    && s.w.Valid()
    && (s.proc.Some? ==>
          && s.proc.value in s.w.procs && s.born.Some?
          && s.w.procs[s.proc.value].Sharded() == SpawnsSharded(os, s.born.value))
    && (s.token.Some? ==> s.token.value in s.w.minted)
    && (s.dirty ==> s.proc.Some?)
    && (s.InFlight() ==> s.proc.Some? && s.born == Some(s.pc.f) && !s.dirty && !s.pc.m.HotSwap?)
    && (s.pc.Stopping? && s.pc.next.Some? ==> s.proc.Some?)
    && (s.pc.Confirming? ==> s.pc.victim in s.w.procs && s.proc.None?)
    && (s.pc.Freeing? || s.pc.Spawning? ==>
          && !s.Live() && !s.pc.m.HotSwap?
          && (s.pc.m.Restart? ==>
                s.pc.m.replaced.Some? && s.pc.m.replaced.value in s.w.procs && s.pc.m.replaced.value !in s.w.alive))
  }

  /** Nobody but the server in the slot was handed the present token. */
  ghost predicate SoleBearer(s: State) {
    forall id | id in s.w.procs && TOKEN_VAR in s.w.procs[id].env ::
      Some(s.w.procs[id].env[TOKEN_VAR]) == s.token ==> Some(id) == s.proc
  }

  /** The server whose /health was accepted is the spawned one, unless it echoes no token. */
  ghost predicate AnsweredByOwn(s: State) {
    && s.answered.Some? && s.answered.value in s.w.procs
    && (s.w.procs[s.answered.value].Token().Some? ==> s.answered == s.proc)
  }

  ghost predicate IdentityInv(s: State) {
    && (s.pc.Healing? ==> s.token.Some? && SoleBearer(s))
    && (s.pc.Swapping? && !s.pc.m.HotSwap? ==> AnsweredByOwn(s))
    && (s.pc.Guarding? && !s.pc.m.HotSwap? ==> AnsweredByOwn(s))
    && (s.pc.Idle? && s.last.Returned? && !s.last.m.HotSwap? ==> AnsweredByOwn(s))
    && (s.Live() && !s.dirty && !s.pc.Healing? && s.w.AllEcho() ==> s.w.holder == s.proc)
  }

  ghost predicate Serves(s: State, f: Fixture) {
    && s.proc.Some? && s.current == Some(f)
    && (s.Live() && !s.dirty && s.w.AllEcho() ==>
          s.proc.value in s.w.serving && s.w.serving[s.proc.value] == f.db)
  }

  ghost predicate ModeInv(s: State) {
    && (s.pc.Swapping? && s.pc.m.HotSwap? ==>
          s.proc.Some? && (s.Live() && !s.dirty ==> s.born.Some? && s.born.value.sharded == s.pc.f.sharded))
    && (s.Live() && !s.dirty && !s.InFlight() ==>
          s.current.Some? && s.born.Some? && s.current.value.sharded == s.born.value.sharded)
    && (s.pc.Guarding? ==> Serves(s, s.pc.f))
    && (s.pc.Idle? && s.last.Returned? ==> Serves(s, s.last.f))
  }

  /** From the spawn of a start or restart until its return the slot holds the server that it spawned. */
  predicate Attaching(s: State) {
    || s.pc.Healing?
    || ((s.pc.Swapping? || s.pc.Guarding?) && !s.pc.m.HotSwap?)
    || (s.pc.Idle? && s.last.Returned? && !s.last.m.HotSwap?)
  }

  function Target(s: State): Fixture
    requires Attaching(s)
  {
    if s.pc.Idle? then s.last.f else s.pc.f
  }

  ghost predicate BornInv(s: State) {
    Attaching(s) ==> s.proc.Some? && s.born == Some(Target(s)) && !s.dirty
  }

  ghost predicate Inv(os: EnvVars, s: State) {
    SlotInv(os, s) && IdentityInv(s) && ModeInv(s) && BornInv(s)
  }

  lemma DriftKeepsInv(os: EnvVars, s: State, w': World)
    requires Inv(os, s) && Drifts(s.w, w')
    ensures Inv(os, s.(w := w'))
  {
    var s' := s.(w := w');
    assert s'.Live() ==> s.Live();
    assert w'.AllEcho() ==> s.w.AllEcho() by {
      if w'.AllEcho() {
        forall id | id in s.w.procs ensures s.w.procs[id].Token().Some? { assert id in w'.procs; }
      }
    }
    assert s'.pc.Healing? ==> SoleBearer(s');
  }

  lemma PollStartKeepsInv(os: EnvVars, s: State)
    requires Inv(os, s) && Enabled(s, PollStart)
    ensures Inv(os, After(os, s, PollStart))
  {
  }

  lemma PollSwitchKeepsInv(os: EnvVars, s: State)
    requires Inv(os, s) && Enabled(s, PollSwitch)
    ensures Inv(os, After(os, s, PollSwitch))
  {
    var f := s.pc.f;
    if !s.Live() {
      assert Inv(os, s.(pc := Starting(f)));
    } else if s.current.Some? && s.current.value.sharded != f.sharded {
      assert Inv(os, s.(pc := Stopping(Some(f))));
    } else {
      assert Inv(os, s.(pc := Swapping(f, HotSwap)));
    }
  }

  lemma CallKeepsInv(os: EnvVars, s: State, a: Action)
    requires Inv(os, s) && Enabled(s, a) && (a.CallStart? || a.CallSwitch? || a.CallStop?)
    ensures Inv(os, After(os, s, a))
  {
  }

  lemma StopKeepsInv(os: EnvVars, s: State, a: Action)
    requires Inv(os, s) && Enabled(s, a) && (a.BeginStop? || a.ConfirmStop?)
    ensures Inv(os, After(os, s, a))
  {
  }

  lemma PortAndGuardKeepInv(os: EnvVars, s: State, a: Action)
    requires Inv(os, s) && Enabled(s, a) && (a.PortFree? || a.PortTimeout? || a.Guard?)
    ensures Inv(os, After(os, s, a))
  {
  }

  lemma CrashKeepsInv(os: EnvVars, s: State)
    requires Inv(os, s) && Enabled(s, Crash)
    ensures Inv(os, After(os, s, Crash))
  {
  }

  lemma SpawnKeepsInv(os: EnvVars, s: State, a: Action)
    requires Inv(os, s) && Enabled(s, a) && (a.Spawn? || a.SpawnFails?)
    ensures Inv(os, After(os, s, a))
  {
    if a.Spawn? {
      SpawnedMode(os, s.pc.f, a.token, a.echoes, a.pid, a.reported);
    }
  }

  lemma HealthKeepsInv(os: EnvVars, s: State, a: Action)
    requires Inv(os, s) && Enabled(s, a) && (a.HealthAccept? || a.HealthReject? || a.HealthRaises?)
    ensures Inv(os, After(os, s, a))
  {
    if a.HealthAccept? {
      var h := s.w.holder.value;
      assert s.w.procs[h].Token().Some? ==> s.w.holder == s.proc;
      assert s.w.AllEcho() ==> s.w.procs[h].Token().Some?;
    }
  }

  lemma SwapKeepsInv(os: EnvVars, s: State, a: Action)
    requires Inv(os, s) && Enabled(s, a) && (a.SwapDone? || a.SwapRaises?)
    ensures Inv(os, After(os, s, a))
  {
  }

  lemma StepKeepsInv(os: EnvVars, s: State, a: Action)
    requires Inv(os, s) && Enabled(s, a)
    ensures Inv(os, After(os, s, a))
  {
    match a
    case Drift(w') => DriftKeepsInv(os, s, w');
    case Spawn(_, _, _, _, _) => SpawnKeepsInv(os, s, a);
    case SpawnFails(_) => SpawnKeepsInv(os, s, a);
    case HealthAccept => HealthKeepsInv(os, s, a);
    case HealthReject => HealthKeepsInv(os, s, a);
    case HealthRaises => HealthKeepsInv(os, s, a);
    case SwapDone(_) => SwapKeepsInv(os, s, a);
    case SwapRaises(_) => SwapKeepsInv(os, s, a);
    case BeginStop => StopKeepsInv(os, s, a);
    case ConfirmStop => StopKeepsInv(os, s, a);
    case PortFree => PortAndGuardKeepInv(os, s, a);
    case PortTimeout => PortAndGuardKeepInv(os, s, a);
    case Guard => PortAndGuardKeepInv(os, s, a);
    case Crash => CrashKeepsInv(os, s);
    case PollStart => PollStartKeepsInv(os, s);
    case PollSwitch => PollSwitchKeepsInv(os, s);
    case _ => CallKeepsInv(os, s, a);
  }

  lemma {:induction false} RunKeepsInv(os: EnvVars, s0: State, acts: seq<Action>)
    requires Legal(os, s0, acts)
    ensures Inv(os, Exec(os, s0, acts))
  {
    if acts != [] {
      var prefix, a := acts[..|acts| - 1], acts[|acts| - 1];
      RunKeepsInv(os, s0, prefix);
      StepKeepsInv(os, Exec(os, s0, prefix), a);
    }
  }

  // ---- what callers may rely on ----

  /** The fixture's own variables leave the server in the fixture's mode (see SpawnModeIff). */
  ghost predicate SpawnModeAgrees(os: EnvVars, f: Fixture) {
    SpawnsSharded(os, f) == f.sharded
  }

  /** Between calls, unless a call raised after the present server was spawned and before a fixture
      was recorded, a live server and the recorded fixture are in the same mode. */
  lemma LiveServerMatchesCurrent(os: EnvVars, s0: State, acts: seq<Action>)
    requires Legal(os, s0, acts)
    requires var s := Exec(os, s0, acts); s.pc.Idle? && s.Live() && !s.dirty
    ensures var s := Exec(os, s0, acts);
            && s.proc.value in s.w.procs && s.current.Some? && s.born.Some?
            && (SpawnModeAgrees(os, s.born.value) ==>
                  s.w.procs[s.proc.value].Sharded() == s.current.value.sharded)
  {
    RunKeepsInv(os, s0, acts);
  }

  /** What may be relied on after a call reached `f` by `m`, as long as the server lives, and for a hot-swap as
      long as no earlier call raised between the server's spawn and the recording of a fixture: `f` is recorded
      and served, in its mode, by the server in the slot, which is also the one that holds the port. */
  ghost predicate Benchable(os: EnvVars, s: State, f: Fixture, m: Mechanism) {
    s.Live() && (m.HotSwap? ==> !s.dirty) ==>
      && s.current == Some(f) && s.proc.value in s.w.procs && s.born.Some?
      && (!m.HotSwap? ==> s.born == Some(f))
      && (SpawnModeAgrees(os, s.born.value) ==> s.w.procs[s.proc.value].Sharded() == f.sharded)
      && (s.w.AllEcho() ==>
            s.w.holder == s.proc && s.proc.value in s.w.serving && s.w.serving[s.proc.value] == f.db)
  }

  lemma ReturnedCallServesItsFixture(os: EnvVars, s0: State, acts: seq<Action>)
    requires Legal(os, s0, acts)
    requires var s := Exec(os, s0, acts); s.pc.Idle? && s.last.Returned?
    ensures var s := Exec(os, s0, acts); Benchable(os, s, s.last.f, s.last.m)
  {
    RunKeepsInv(os, s0, acts);
  }

  predicate IsCall(a: Action) {
    a.CallStart? || a.CallSwitch? || a.CallStop?
  }

  predicate LeavesSlotAlone(a: Action) {
    !a.Spawn? && !a.BeginStop?
  }

  lemma AttachingStep(os: EnvVars, s: State, a: Action)
    requires Inv(os, s) && Enabled(s, a) && Attaching(After(os, s, a))
    ensures After(os, s, a).proc.Some?
    ensures if a.Spawn? then After(os, s, a).proc == Some(a.id)
            else Attaching(s) && !IsCall(a) && LeavesSlotAlone(a) && After(os, s, a).proc == s.proc
  {
  }

  /** The server in the slot was spawned in the present call, or since the last one began. */
  lemma {:induction false} SpawnedInThisCall(os: EnvVars, s0: State, acts: seq<Action>) returns (k: nat)
    requires Legal(os, s0, acts) && Attaching(Exec(os, s0, acts))
    ensures k < |acts| && acts[k].Spawn? && Exec(os, s0, acts).proc == Some(acts[k].id)
    ensures forall j | k < j < |acts| :: !IsCall(acts[j]) && LeavesSlotAlone(acts[j])
  {
    k := |acts| - 1;
    var prefix := acts[..k];
    RunKeepsInv(os, s0, prefix);
    AttachingStep(os, Exec(os, s0, prefix), acts[k]);
    if !acts[k].Spawn? { k := SpawnedInThisCall(os, s0, prefix); }
  }

  /** `start` and a restart return only after the server answered /health that they spawned themselves: `acts[k]`
      is its spawn, for the fixture they return, and no other call began since. The only other server that can
      have answered is one that echoes no token. */
  lemma ReturnedSpawnWasAnsweredByIt(os: EnvVars, s0: State, acts: seq<Action>) returns (k: nat)
    requires Legal(os, s0, acts)
    requires var s := Exec(os, s0, acts); s.pc.Idle? && s.last.Returned? && !s.last.m.HotSwap?
    ensures k < |acts| && acts[k].Spawn? && forall j | k < j < |acts| :: !IsCall(acts[j]) && LeavesSlotAlone(acts[j])
    ensures var s := Exec(os, s0, acts);
            && s.proc == Some(acts[k].id) && s.born == Some(s.last.f) && !s.dirty
            && s.answered.Some? && s.answered.value in s.w.procs
            && (s.answered == s.proc || s.w.procs[s.answered.value].Token().None?)
  {
    RunKeepsInv(os, s0, acts);
    k := SpawnedInThisCall(os, s0, acts);
  }

  // ---- how a call ends ----

  /** The fixture of the latest call in a run; a call to stop has none. */
  ghost function Request(acts: seq<Action>): Option<Fixture> {
    if acts == [] then None
    else match acts[|acts| - 1]
      case CallStart(f) => Some(f)
      case CallSwitch(f) => Some(f)
      case CallStop => None
      case _ => Request(acts[..|acts| - 1])
  }

  /** The gene count with which the latest call's swap was answered, if it was. */
  ghost function GenesSaid(acts: seq<Action>): Option<nat> {
    if acts == [] || IsCall(acts[|acts| - 1]) then None
    else if acts[|acts| - 1].SwapDone? then Some(acts[|acts| - 1].genes)
    else GenesSaid(acts[..|acts| - 1])
  }

  /** An exception other than `BenchServerError` was thrown in the latest call. */
  ghost predicate Broke(acts: seq<Action>) {
    && acts != [] && !IsCall(acts[|acts| - 1])
    && (acts[|acts| - 1].Crash? || acts[|acts| - 1].SpawnFails? || Broke(acts[..|acts| - 1]))
  }

  /** The swap was answered, and with genes if the fixture has to hold some. */
  ghost predicate Satisfied(acts: seq<Action>, f: Fixture) {
    GenesSaid(acts).Some? && (f.expectNonempty ==> GenesSaid(acts).value > 0)
  }

  /** The outcome of a call for `f`, told from the steps it took. */
  ghost predicate EndsAs(acts: seq<Action>, f: Fixture, last: Outcome) {
    && (last.Crashed? <==> Broke(acts))
    && (last.Returned? <==> !Broke(acts) && Satisfied(acts, f))
    && (last.Raised? <==> !Broke(acts) && !Satisfied(acts, f))
    && (last.Returned? ==> last.f == f)
  }

  /** What the call under way has been asked for and told. */
  ghost predicate CallInv(s: State, acts: seq<Action>) {
    match s.pc
    case Idle => Request(acts).Some? ==> EndsAs(acts, Request(acts).value, s.last)
    case Stopping(next) => Request(acts) == next && GenesSaid(acts).None? && !Broke(acts)
    case Confirming(_, next) => Request(acts) == next && GenesSaid(acts).None? && !Broke(acts)
    case Guarding(f, _, genes) => Request(acts) == Some(f) && GenesSaid(acts) == Some(genes) && !Broke(acts)
    case _ => Request(acts) == Some(s.pc.f) && GenesSaid(acts).None? && !Broke(acts)
  }

  lemma StepKeepsCallInv(os: EnvVars, s: State, acts: seq<Action>, a: Action)
    requires Enabled(s, a) && CallInv(s, acts)
    ensures CallInv(After(os, s, a), acts + [a])
  {
    hide Accepts, SpawnEnv, Drifts, FreshToken;
    assert (acts + [a])[..|acts|] == acts;
  }

  lemma {:induction false} RunKeepsCallInv(os: EnvVars, s0: State, acts: seq<Action>)
    requires Legal(os, s0, acts)
    ensures CallInv(Exec(os, s0, acts), acts)
  {
    if acts != [] {
      var prefix, a := acts[..|acts| - 1], acts[|acts| - 1];
      RunKeepsCallInv(os, s0, prefix);
      StepKeepsCallInv(os, Exec(os, s0, prefix), prefix, a);
      assert prefix + [a] == acts;
    }
  }

  /** A start or switch that is over returned for the fixture it was called with if and only if nothing broke and
      its swap was answered, with genes if the fixture has to hold some; it raised if and only if nothing broke
      and there was no such answer. */
  lemma CallEndsAs(os: EnvVars, s0: State, acts: seq<Action>)
    requires Legal(os, s0, acts) && Exec(os, s0, acts).pc.Idle? && Request(acts).Some?
    ensures EndsAs(acts, Request(acts).value, Exec(os, s0, acts).last)
  {
    RunKeepsCallInv(os, s0, acts);
  }

  /** The swap that answered `GenesSaid` was the latest call's: no call began and no swap was answered later. */
  lemma {:induction false} GenesSaidAt(acts: seq<Action>) returns (k: nat)
    requires GenesSaid(acts).Some?
    ensures k < |acts| && acts[k] == SwapDone(GenesSaid(acts).value)
    ensures forall j | k < j < |acts| :: !IsCall(acts[j]) && !acts[j].SwapDone?
  {
    k := |acts| - 1;
    if !acts[k].SwapDone? { k := GenesSaidAt(acts[..k]); }
  }

  lemma {:induction false} NothingRequested(os: EnvVars, s0: State, acts: seq<Action>)
    requires Legal(os, s0, acts)
    ensures var s := Exec(os, s0, acts); Request(acts).None? && s.pc.Idle? ==> !s.last.Returned?
    ensures var s := Exec(os, s0, acts); Request(acts).None? && !s.pc.Idle? ==> s.pc.Stopping? || s.pc.Confirming?
  {
    RunKeepsCallInv(os, s0, acts);
    if acts != [] {
      var prefix := acts[..|acts| - 1];
      RunKeepsCallInv(os, s0, prefix);
      NothingRequested(os, s0, prefix);
      hide Accepts, SpawnEnv, Drifts, FreshToken;
    }
  }

  /** A call that returned had its last swap, at `k`, answered, and with genes if its fixture has to hold some. */
  lemma ReturnedCallPassedGuard(os: EnvVars, s0: State, acts: seq<Action>) returns (k: nat)
    requires Legal(os, s0, acts)
    requires var s := Exec(os, s0, acts); s.pc.Idle? && s.last.Returned?
    ensures k < |acts| && acts[k].SwapDone? && forall j | k < j < |acts| :: !IsCall(acts[j]) && !acts[j].SwapDone?
    ensures Exec(os, s0, acts).last.f.expectNonempty ==> acts[k].genes > 0
  {
    NothingRequested(os, s0, acts);
    CallEndsAs(os, s0, acts);
    k := GenesSaidAt(acts);
  }

  /** A guard that runs to its end raises if and only if the fixture called for has to hold genes and the last
      swap, at `k`, was answered with none; otherwise the call returns. */
  lemma GuardVerdict(os: EnvVars, s0: State, acts: seq<Action>) returns (k: nat)
    requires Legal(os, s0, acts) && acts != [] && acts[|acts| - 1].Guard?
    ensures k < |acts| && acts[k].SwapDone? && forall j | k < j < |acts| :: !IsCall(acts[j]) && !acts[j].SwapDone?
    ensures var s := Exec(os, s0, acts);
            && Request(acts).Some? && s.pc.Idle?
            && var f := Request(acts).value;
               if f.expectNonempty && acts[k].genes == 0 then s.last.Raised? else s.last.Returned? && s.last.f == f
  {
    RunKeepsCallInv(os, s0, acts[..|acts| - 1]);
    CallEndsAs(os, s0, acts);
    k := GenesSaidAt(acts);
  }

  /** Exactly when `_wait_healthy` lets a stranger through. */
  lemma StrangerAcceptedIff(os: EnvVars, s0: State, acts: seq<Action>)
    requires Legal(os, s0, acts)
    requires var s := Exec(os, s0, acts); s.pc.Healing? && s.w.Listening() && s.w.holder != s.proc
    ensures var s := Exec(os, s0, acts);
            && s.proc.Some? && s.proc.value in s.w.procs && s.w.holder.value in s.w.procs
            && var stranger := s.w.procs[s.w.holder.value];
               Enabled(s, HealthAccept) <==>
               && stranger.Token().None?
               && (stranger.reportedPid.None? || stranger.reportedPid.value == s.w.procs[s.proc.value].pid)
  {
    RunKeepsInv(os, s0, acts);
  }

  /** While its /health is awaited, the spawned server has the environment and the token it was spawned with. */
  predicate AsSpawned(os: EnvVars, s: State) {
    s.pc.Healing? ==>
      && s.proc.Some? && s.proc.value in s.w.procs && s.token.Some?
      && s.w.procs[s.proc.value].env == SpawnEnv(os, s.pc.f, s.token.value)
  }

  lemma StepKeepsAsSpawned(os: EnvVars, s: State, a: Action)
    requires Enabled(s, a) && AsSpawned(os, s)
    ensures AsSpawned(os, After(os, s, a))
  {
    hide Accepts, SpawnEnv, FreshToken;
  }

  lemma {:induction false} AwaitedServerIsAsSpawned(os: EnvVars, s0: State, acts: seq<Action>)
    requires Legal(os, s0, acts)
    ensures AsSpawned(os, Exec(os, s0, acts))
  {
    if acts != [] {
      var prefix := acts[..|acts| - 1];
      AwaitedServerIsAsSpawned(os, s0, prefix);
      StepKeepsAsSpawned(os, Exec(os, s0, prefix), acts[|acts| - 1]);
    }
  }

  /** Exactly when `_wait_healthy` accepts the very server that was spawned: behind a launcher shim its pid differs
      from the one it reports, so what counts is the token, unless the fixture's own variables replace it. */
  lemma OwnServerAcceptedIff(os: EnvVars, s0: State, acts: seq<Action>)
    requires Legal(os, s0, acts)
    requires var s := Exec(os, s0, acts); s.pc.Healing? && s.w.Listening() && s.w.holder == s.proc
    ensures var s := Exec(os, s0, acts);
            && s.proc.Some? && s.proc.value in s.w.procs && s.token.Some?
            && var own := s.w.procs[s.proc.value];
               Enabled(s, HealthAccept) <==>
               if own.echoes then TOKEN_VAR in s.pc.f.extraEnv ==> s.pc.f.extraEnv[TOKEN_VAR] == s.token.value
               else own.reportedPid.None? || own.reportedPid.value == own.pid
  {
    AwaitedServerIsAsSpawned(os, s0, acts);
    VarsDiffer();
    hide Legal, Exec;
  }

  lemma SpawningStep(os: EnvVars, s: State, a: Action)
    requires Enabled(s, a) && After(os, s, a).pc.Spawning?
    ensures if a.PortFree? then !s.w.Listening() else a.Drift? && s.pc.Spawning?
  {
    hide Accepts, SpawnEnv, Drifts, FreshToken;
  }

  /** A server is spawned only when nothing but the environment acted since a connection to the port was refused,
      the slot holds no live server, and on a restart the replaced server is dead. */
  lemma {:induction false} SpawnFollowsPortFree(os: EnvVars, s0: State, acts: seq<Action>) returns (k: nat)
    requires Legal(os, s0, acts)
    requires Exec(os, s0, acts).pc.Spawning?
    ensures k < |acts| && acts[k].PortFree? && forall i | k < i < |acts| :: acts[i].Drift?
    ensures Legal(os, s0, acts[..k]) && !Exec(os, s0, acts[..k]).w.Listening()
    ensures var s := Exec(os, s0, acts);
            && !s.Live()
            && (s.pc.m.Restart? ==> s.pc.m.replaced.Some? && s.pc.m.replaced.value !in s.w.alive)
  {
    RunKeepsInv(os, s0, acts);
    var n := |acts| - 1;
    SpawningStep(os, Exec(os, s0, acts[..n]), acts[n]);
    if acts[n].PortFree? {
      k := n;
    } else {
      k := SpawnFollowsPortFree(os, s0, acts[..n]);
      assert acts[..n][..k] == acts[..k];
    }
  }

  /** Actions that end a call with an exception before a fresh server has its fixture recorded. */
  predicate RaisesInFlight(a: Action) {
    a.HealthRaises? || a.HealthReject? || a.SwapRaises? || a.Crash?
  }

  lemma InFlightStep(os: EnvVars, s: State, a: Action)
    requires Inv(os, s) && Enabled(s, a) && After(os, s, a).InFlight()
    ensures a.Spawn? || (s.InFlight() && LeavesSlotAlone(a) && !RaisesInFlight(a) && !a.SwapDone?)
  {
  }

  lemma DirtyStep(os: EnvVars, s: State, a: Action)
    requires Inv(os, s) && Enabled(s, a) && After(os, s, a).dirty
    ensures LeavesSlotAlone(a) && (s.dirty || (s.InFlight() && RaisesInFlight(a)))
  {
  }

  lemma {:induction false} InFlightSinceSpawn(os: EnvVars, s0: State, acts: seq<Action>) returns (i: nat)
    requires Legal(os, s0, acts) && Exec(os, s0, acts).InFlight()
    ensures i < |acts| && acts[i].Spawn?
    ensures forall j | i < j < |acts| :: LeavesSlotAlone(acts[j]) && !RaisesInFlight(acts[j]) && !acts[j].SwapDone?
  {
    i := |acts| - 1;
    var prefix := acts[..i];
    RunKeepsInv(os, s0, prefix);
    InFlightStep(os, Exec(os, s0, prefix), acts[i]);
    if !acts[i].Spawn? { i := InFlightSinceSpawn(os, s0, prefix); }
  }

  /** A run is dirty only if a call raised after the last spawn, before anything was recorded, and no
      `stop` came later. */
  lemma {:induction false} DirtyMeansUnrecordedSpawn(os: EnvVars, s0: State, acts: seq<Action>) returns (i: nat, k: nat)
    requires Legal(os, s0, acts) && Exec(os, s0, acts).dirty
    ensures i < k < |acts| && acts[i].Spawn? && RaisesInFlight(acts[k])
    ensures forall j | i < j < |acts| :: LeavesSlotAlone(acts[j])
    ensures forall j | i < j < k :: !acts[j].SwapDone?
  {
    k := |acts| - 1;
    var prefix := acts[..k];
    RunKeepsInv(os, s0, prefix);
    DirtyStep(os, Exec(os, s0, prefix), acts[k]);
    if Exec(os, s0, prefix).dirty {
      i, k := DirtyMeansUnrecordedSpawn(os, s0, prefix);
    } else {
      i := InFlightSinceSpawn(os, s0, prefix);
    }
  }

  // ---- when a switch picks the wrong mechanism ----

  /** `switch(f)`, called now, would hot-swap `f` into a live server of the other mode. */
  ghost predicate HotSwapsWrongMode(os: EnvVars, s: State, f: Fixture)
    requires s.pc.Idle? && s.Live() && s.proc.value in s.w.procs
  {
    && After(os, s.(pc := Switching(f)), PollSwitch).pc == Swapping(f, HotSwap)
    && s.w.procs[s.proc.value].Sharded() != f.sharded
  }

  /** Every next switch is safe iff the recorded fixture has the live server's mode. */
  lemma SwitchSafeIff(os: EnvVars, s: State)
    requires s.pc.Idle? && s.Live() && s.proc.value in s.w.procs
    ensures (forall f :: !HotSwapsWrongMode(os, s, f)) <==>
            s.current.Some? && s.current.value.sharded == s.w.procs[s.proc.value].Sharded()
  {
    var mode := s.w.procs[s.proc.value].Sharded();
    if s.current.None? || s.current.value.sharded != mode {
      assert HotSwapsWrongMode(os, s, Fixture("", "", !mode, map[], false));
    }
  }

  /** Extends a run that has reached `s` by one enabled action. */
  lemma Take(os: EnvVars, s0: State, acts: seq<Action>, s: State, a: Action)
    returns (acts': seq<Action>, s': State)
    requires Legal(os, s0, acts) && Exec(os, s0, acts) == s && Enabled(s, a)
    ensures Legal(os, s0, acts') && Exec(os, s0, acts') == s' == After(os, s, a) && acts < acts'
  {
    acts', s' := acts + [a], After(os, s, a);
    assert acts'[..|acts'| - 1] == acts;
  }

  ghost function EmptyState(): State {
    State(World(map[], {}, None, true, map[], {}), None, None, None, Idle, None, None, false, NoCall)
  }

  /** A finished call left a live, token-echoing server in the other mode than its fixture, although
      no fixture carries variables of its own. */
  ghost predicate ServesWrongMode(s: State) {
    && s.pc.Idle? && s.last.Returned? && s.Live() && s.w.AllEcho()
    && s.born.Some? && s.born.value.extraEnv == s.last.f.extraEnv == map[]
    && s.proc.value in s.w.procs && s.w.procs[s.proc.value].Sharded() != s.last.f.sharded
  }

  /** The pending swap succeeds and the call returns. */
  lemma FinishSwap(os: EnvVars, s0: State, acts: seq<Action>, s: State) returns (acts': seq<Action>, s': State)
    requires Legal(os, s0, acts) && Exec(os, s0, acts) == s && s.pc.Swapping? && s.w.holder.Some?
    ensures Legal(os, s0, acts') && Exec(os, s0, acts') == s' && acts < acts'
    ensures s' == s.(w := Open(s.w, s.pc.f.db), current := Some(s.pc.f), pc := Idle, last := Returned(s.pc.f, s.pc.m))
  {
    acts', s' := Take(os, s0, acts, s, SwapDone(1));
    acts', s' := Take(os, s0, acts', s', Action.Guard);
  }

  /** A server spawned for a fixture without variables of its own runs in that fixture's mode. */
  lemma PlainServerHasItsMode(os: EnvVars, s0: State, acts: seq<Action>)
    requires Legal(os, s0, acts)
    requires var s := Exec(os, s0, acts);
             s.proc.Some? && s.proc.value in s.w.procs && s.born.Some? && s.born.value.extraEnv == map[]
    ensures var s := Exec(os, s0, acts); s.w.procs[s.proc.value].Sharded() == s.born.value.sharded
  {
    RunKeepsInv(os, s0, acts);
    SpawnModeIff(os, Exec(os, s0, acts).born.value);
  }

  /** From a live server spawned for a sharded fixture, a blob fixture is hot-swapped in. */
  lemma HotSwapBlob(os: EnvVars, s0: State, acts: seq<Action>, s: State, blob: Fixture)
    returns (acts': seq<Action>, s': State)
    requires Legal(os, s0, acts) && Exec(os, s0, acts) == s
    requires s.pc.Idle? && s.Live() && s.w.AllEcho() && s.w.holder == s.proc && s.proc.value in s.w.procs
    requires s.born.Some? && s.born.value.sharded && s.born.value.extraEnv == map[]
    requires s.current.None? || !s.current.value.sharded
    requires !blob.sharded && blob.extraEnv == map[]
    ensures Legal(os, s0, acts') && Exec(os, s0, acts') == s' && ServesWrongMode(s') && acts < acts'
  {
    PlainServerHasItsMode(os, s0, acts);
    acts', s' := Take(os, s0, acts, s, CallSwitch(blob));
    acts', s' := Take(os, s0, acts', s', PollSwitch);
    acts', s' := FinishSwap(os, s0, acts', s');
  }

  /** The state once a server spawned for `f` has taken the port and answered /health. */
  ghost function Attached(os: EnvVars, s: State, f: Fixture, id: nat, t: string): State {
    var p := Process(SpawnEnv(os, f, t), true, 0, None);
    s.(w := World(s.w.procs[id := p], s.w.alive + {id}, Some(id), true, s.w.serving, s.w.minted + {t}),
       proc := Some(id), token := Some(t), pc := Swapping(f, ColdStart),
       born := Some(f), answered := Some(id), dirty := false)
  }

  lemma ReachSpawning(os: EnvVars, s0: State, acts: seq<Action>, s: State, f: Fixture) returns (acts': seq<Action>)
    requires Legal(os, s0, acts) && Exec(os, s0, acts) == s && s.pc.Idle? && !s.Live() && s.w.holder.None?
    ensures Legal(os, s0, acts') && Exec(os, s0, acts') == s.(pc := Spawning(f, ColdStart))
  {
    var s';
    acts', s' := Take(os, s0, acts, s, CallStart(f));
    acts', s' := Take(os, s0, acts', s', PollStart);
    acts', s' := Take(os, s0, acts', s', PortFree);
  }

  /** From an empty slot and a free port, a server is spawned for `f` and answers /health. */
  lemma SpawnHealthy(os: EnvVars, s0: State, acts: seq<Action>, s: State, f: Fixture, id: nat, t: string)
    returns (acts': seq<Action>)
    requires Legal(os, s0, acts) && Exec(os, s0, acts) == s
    requires s.w.Valid() && s.pc.Idle? && !s.Live() && s.w.holder.None? && id !in s.w.procs && FreshToken(s.w, t)
    requires f.extraEnv == map[]
    ensures Legal(os, s0, acts') && Exec(os, s0, acts') == Attached(os, s, f, id, t)
  {
    acts' := ReachSpawning(os, s0, acts, s, f);
    var s' := s.(pc := Spawning(f, ColdStart));
    acts', s' := Take(os, s0, acts', s', Spawn(id, t, true, 0, None));
    var goal := Attached(os, s, f, id, t);
    var w := goal.w.(holder := None, responsive := s.w.responsive);
    assert s' == goal.(w := w, pc := Healing(f, ColdStart), answered := None);
    assert Drifts(s'.w, goal.w);
    acts', s' := Take(os, s0, acts', s', Drift(goal.w));
    assert goal.w.procs[id].Token() == Some(t);
    acts', s' := Take(os, s0, acts', s', HealthAccept);
  }

  lemma AttachedEchoes(os: EnvVars, s: State, f: Fixture, id: nat, t: string)
    requires f.extraEnv == map[] && s.w.AllEcho()
    ensures Attached(os, s, f, id, t).w.AllEcho()
    ensures Attached(os, s, f, id, t).w.procs[id].env[TOKEN_VAR] == t
  {
  }

  /** The hypothesis is needed: when the first swap after a cold start fails, nothing is recorded,
      and the next switch hot-swaps a blob fixture into the sharded server. */
  lemma FailedFirstSwapLeadsToWrongMode(os: EnvVars) returns (acts: seq<Action>)
    ensures Legal(os, EmptyState(), acts) && ServesWrongMode(Exec(os, EmptyState(), acts))
  {
    var s0 := EmptyState();
    var sharded, blob := Fixture("a", "a.db", true, map[], true), Fixture("b", "b.db", false, map[], true);
    acts := SpawnHealthy(os, s0, [], s0, sharded, 0, "t");
    AttachedEchoes(os, s0, sharded, 0, "t");
    var s;
    acts, s := Take(os, s0, acts, Attached(os, s0, sharded, 0, "t"), SwapRaises(false));
    acts, s := HotSwapBlob(os, s0, acts, s, blob);
  }

  /** A first `start` returns and its server then dies. */
  lemma StartThenDie(os: EnvVars, f: Fixture) returns (acts: seq<Action>, s: State)
    requires f.extraEnv == map[] && f.expectNonempty
    ensures Legal(os, EmptyState(), acts) && Exec(os, EmptyState(), acts) == s
    ensures s.pc.Idle? && !s.Live() && s.current == Some(f)
    ensures s.w.AllEcho() && s.w.Valid() && s.w.holder.None? && 1 !in s.w.procs && FreshToken(s.w, "u")
  {
    var s0 := EmptyState();
    acts := SpawnHealthy(os, s0, [], s0, f, 0, "t");
    AttachedEchoes(os, s0, f, 0, "t");
    acts, s := FinishSwap(os, s0, acts, Attached(os, s0, f, 0, "t"));
    acts, s := Take(os, s0, acts, s, Drift(s.w.(alive := {}, holder := None)));
  }

  /** The same happens through a stale record: a blob server dies, the sharded server that replaces
      it fails its first swap (after the first `k` actions), and the record still names the blob. */
  lemma StaleRecordLeadsToWrongMode(os: EnvVars) returns (acts: seq<Action>, k: nat)
    ensures Legal(os, EmptyState(), acts) && ServesWrongMode(Exec(os, EmptyState(), acts))
    ensures k < |acts| && Legal(os, EmptyState(), acts[..k])
    ensures var s := Exec(os, EmptyState(), acts[..k]);
            s.pc.Idle? && s.Live() && s.current.Some? && s.born.Some? &&
            !s.current.value.sharded && s.born.value.sharded
  {
    var s0 := EmptyState();
    var sharded, blob := Fixture("a", "a.db", true, map[], true), Fixture("b", "b.db", false, map[], true);
    var s, before;
    acts, s := StartThenDie(os, blob);
    acts := SpawnHealthy(os, s0, acts, s, sharded, 1, "u");
    AttachedEchoes(os, s, sharded, 1, "u");
    before, s := Take(os, s0, acts, Attached(os, s, sharded, 1, "u"), SwapRaises(false));
    acts, s := HotSwapBlob(os, s0, before, s, blob);
    k := |before|;
    assert acts[..k] == before;
  }
}
