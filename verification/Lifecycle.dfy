/**
 The server lifecycle as a state machine over its observable steps.

 A state holds the operating system around the orchestrator (`World`), the three fields the
 orchestrator keeps (`proc`, `current`, `token`), the point it has reached inside a call (`pc`),
 and history that the properties talk about (`born`, `answered`, `dirty`, `last`).
 A run is the sequence of actions taken since construction; the environment may act between
 any two of them and every call may fail at each of its steps.
 */
module Lifecycle {
  import opened Text

  const SHARDS_VAR := "CYMATIX_USE_SHARDS"
  const TOKEN_VAR := "CYMATIX_BENCH_SPAWN_TOKEN"

  type EnvVars = map<string, string>

  datatype Fixture = Fixture(name: string, db: string, sharded: bool, extraEnv: EnvVars, expectNonempty: bool)

  predicate Truthy(v: string) {
    Strip(v) in ["1", "true", "yes", "on"]
  }

  /** A server process: everything fixed when it was spawned. `echoes` says whether its /health
      knows the spawn-token field; `reportedPid` is the pid that /health gives, which under a
      launcher shim differs from `pid`. */
  datatype Process = Process(env: EnvVars, echoes: bool, pid: int, reportedPid: Option<int>)
  {
    predicate Sharded() {
      SHARDS_VAR in env && Truthy(env[SHARDS_VAR])
    }

    function Token(): Option<string> {
      if echoes && TOKEN_VAR in env then Some(env[TOKEN_VAR]) else None
    }
  }

  /** The environment `_spawn` hands to a new server. The fixture's own variables are applied last. */
  function SpawnEnv(os: EnvVars, f: Fixture, token: string): EnvVars {
    var mode := if f.sharded then os[SHARDS_VAR := "1"] else os - {SHARDS_VAR};
    mode[TOKEN_VAR := token] + f.extraEnv
  }

  /** Does a server spawned for `f` run sharded? */
  predicate SpawnsSharded(os: EnvVars, f: Fixture) {
    Process(SpawnEnv(os, f, ""), true, 0, None).Sharded()
  }

  lemma VarsDiffer()
    ensures SHARDS_VAR != TOKEN_VAR
  {
    assert |SHARDS_VAR| != |TOKEN_VAR|;
  }

  /** Python's own variables aside, which are not modelled: the fixture's variables win, the token is set, and all
      but the mode is inherited as it is. */
  lemma SpawnEnvInherits(os: EnvVars, f: Fixture, token: string, v: string)
    requires v != "PYTHONHASHSEED" && v != "PYTHONPATH"
    ensures var env := SpawnEnv(os, f, token);
            if v in f.extraEnv then v in env && env[v] == f.extraEnv[v]
            else if v == TOKEN_VAR then v in env && env[v] == token
            else v != SHARDS_VAR ==> (v in env <==> v in os) && (v in env ==> env[v] == os[v])
  {
    VarsDiffer();
  }

  lemma OneIsTruthy()
    ensures Truthy("1")
  {
    assert LStrip("1") == "1";
    assert RStrip("1") == "1";
    assert Strip("1") == ["1", "true", "yes", "on"][0];
  }

  /** A spawned server gets its fixture's mode iff the fixture's own variables leave the mode
      variable alone or agree with it, whatever the inherited environment. */
  lemma SpawnModeIff(os: EnvVars, f: Fixture)
    ensures SpawnsSharded(os, f) == f.sharded <==>
            (SHARDS_VAR in f.extraEnv ==> Truthy(f.extraEnv[SHARDS_VAR]) == f.sharded)
  {
    VarsDiffer();
    OneIsTruthy();
    var env := SpawnEnv(os, f, "");
    if SHARDS_VAR in f.extraEnv {
      assert env[SHARDS_VAR] == f.extraEnv[SHARDS_VAR];
    } else if f.sharded {
      assert env[SHARDS_VAR] == "1";
    } else {
      assert SHARDS_VAR !in env;
    }
  }

  /** The mode depends neither on the token nor on anything the process reports. */
  lemma SpawnedMode(os: EnvVars, f: Fixture, t: string, echoes: bool, pid: int, reported: Option<int>)
    ensures Process(SpawnEnv(os, f, t), echoes, pid, reported).Sharded() == SpawnsSharded(os, f)
  {
    hide Truthy;
    VarsDiffer();
  }

  // ---- the operating system ----

  /** `procs` remembers every server ever seen, `holder` is the one whose socket is bound to the port,
      `responsive` says whether a connection to it would be accepted just now, `serving` maps a server to
      the database it was last told to open, and `minted` holds the tokens this orchestrator has drawn. */
  datatype World = World(procs: map<nat, Process>, alive: set<nat>, holder: Option<nat>, responsive: bool,
                         serving: map<nat, string>, minted: set<string>)
  {
    predicate Valid() {
      && alive <= procs.Keys
      && (holder.Some? ==> holder.value in alive)
    }

    /** `connect_ex(...) == 0` */
    predicate Listening() {
      holder.Some? && responsive
    }

    predicate AllEcho() {
      forall id | id in procs :: procs[id].Token().Some?
    }
  }

  /** What the environment may do by itself: servers die for good, strangers appear (none bearing a
      token drawn here), connections stall or recover, and a port whose holder died may be taken by any live server. */
  predicate Drifts(w: World, w': World) {
    && w'.Valid()
    && w'.minted == w.minted
    && (forall id | id in w.procs :: id in w'.procs && w'.procs[id] == w.procs[id])
    && (forall id | id in w.procs && id in w'.alive :: id in w.alive)
    && (forall id | id in w'.procs && id !in w.procs ::
          TOKEN_VAR in w'.procs[id].env ==> w'.procs[id].env[TOKEN_VAR] !in w.minted)
    && (w.holder.Some? && w.holder.value in w'.alive ==> w'.holder == w.holder)
    && (forall id | id in w.procs ::
          (id in w.serving <==> id in w'.serving) && (id in w.serving ==> w'.serving[id] == w.serving[id]))
  }

  predicate FreshToken(w: World, t: string) {
    && t !in w.minted
    && forall id | id in w.procs :: TOKEN_VAR in w.procs[id].env ==> w.procs[id].env[TOKEN_VAR] != t
  }

  // ---- states and actions ----

  /** How a fixture is reached; a restart remembers the server it replaced. */
  datatype Mechanism = ColdStart | HotSwap | Restart(replaced: Option<nat>)

  datatype Pc =
    | Idle
    | Starting(f: Fixture)
    | Switching(f: Fixture)
    | Stopping(next: Option<Fixture>)
    | Confirming(victim: nat, next: Option<Fixture>)
    | Freeing(f: Fixture, m: Mechanism)
    | Spawning(f: Fixture, m: Mechanism)
    | Healing(f: Fixture, m: Mechanism)
    | Swapping(f: Fixture, m: Mechanism)
    | Guarding(f: Fixture, m: Mechanism, genes: nat)

  /** `Raised` is a `BenchServerError`, `Crashed` any other exception. */
  datatype Outcome = NoCall | Stopped | Raised | Crashed | Returned(f: Fixture, m: Mechanism)

  /** `born` is the fixture the present server was spawned for, `answered` the server whose /health
      was last accepted, and `dirty` says that since the present server was spawned a call raised
      before it could record a fixture. */
  datatype State = State(w: World, proc: Option<nat>, current: Option<Fixture>, token: Option<string>,
                         pc: Pc, born: Option<Fixture>, answered: Option<nat>, dirty: bool, last: Outcome)
  {
    /** `_proc is not None and _proc.poll() is None` */
    predicate Live() {
      proc.Some? && proc.value in w.alive
    }

    /** Between `_spawn` and the assignment of `_current`. */
    predicate InFlight() {
      pc.Healing? || (pc.Swapping? && !pc.m.HotSwap?)
    }
  }

  /** `Crash` is an exception other than `BenchServerError`, such as one from a host name that does not
      resolve, from a reply of the wrong shape or from a fixture file that is no database. */
  datatype Action =
    | Drift(w': World)
    | CallStart(f: Fixture) | CallSwitch(f: Fixture) | CallStop
    | PollStart | PollSwitch
    | BeginStop | ConfirmStop
    | PortFree | PortTimeout
    | SpawnFails(token: string) | Spawn(id: nat, token: string, echoes: bool, pid: int, reported: Option<int>)
    | HealthRaises | HealthReject | HealthAccept
    | SwapRaises(tookEffect: bool) | SwapDone(genes: nat)
    | Guard
    | Crash

  /** The identity check of `_wait_healthy` on one answer: the token decides when both sides have
      one, otherwise a pid mismatch is fatal when both sides have a pid. */
  predicate Accepts(answer: Process, expectedToken: Option<string>, expectedPid: Option<int>) {
    if expectedToken.Some? && answer.Token().Some? then answer.Token() == expectedToken
    else expectedPid.Some? && answer.reportedPid.Some? ==> answer.reportedPid == expectedPid
  }

  predicate AcceptsHolder(s: State) {
    && s.w.holder.Some? && s.w.holder.value in s.w.procs
    && Accepts(s.w.procs[s.w.holder.value], s.token,
               if s.proc.Some? && s.proc.value in s.w.procs then Some(s.w.procs[s.proc.value].pid) else None)
  }

  predicate Enabled(s: State, a: Action) {
    match a
    case Drift(w') => Drifts(s.w, w')
    case CallStart(_) => s.pc.Idle?
    case CallSwitch(_) => s.pc.Idle?
    case CallStop => s.pc.Idle?
    case PollStart => s.pc.Starting?
    case PollSwitch => s.pc.Switching?
    case BeginStop => s.pc.Stopping?
    case ConfirmStop => s.pc.Confirming?
    case PortFree => s.pc.Freeing? && !s.w.Listening()
    case PortTimeout => s.pc.Freeing?
    case SpawnFails(t) => s.pc.Spawning? && FreshToken(s.w, t)
    case Spawn(id, t, _, _, _) => s.pc.Spawning? && id !in s.w.procs && FreshToken(s.w, t)
    case HealthRaises => s.pc.Healing?
    case HealthReject => s.pc.Healing? && s.w.Listening() && !AcceptsHolder(s)
    case HealthAccept => s.pc.Healing? && s.w.Listening() && AcceptsHolder(s)
    case SwapRaises(tookEffect) => s.pc.Swapping? && (tookEffect ==> s.w.holder.Some?)
    case SwapDone(_) => s.pc.Swapping? && s.w.holder.Some?
    case Guard => s.pc.Guarding?
    case Crash => s.pc.Stopping? || s.pc.Freeing? || s.pc.Healing? || s.pc.Swapping? || s.pc.Guarding?
  }

  function Raise(s: State): State {
    s.(pc := Idle, last := Raised, dirty := s.dirty || s.InFlight())
  }

  /** Where a completed `stop` leads: back to the caller, or on to the respawn of a restart. */
  function AfterStop(next: Option<Fixture>, replaced: Option<nat>): Pc {
    match next
    case None => Idle
    case Some(f) => Freeing(f, Restart(replaced))
  }

  function Open(w: World, db: string): World
    requires w.holder.Some?
  {
    w.(serving := w.serving[w.holder.value := db])
  }

  function After(os: EnvVars, s: State, a: Action): State
    requires Enabled(s, a)
  {
    match a
    case Drift(w') => s.(w := w')
    case CallStart(f) => s.(pc := Starting(f))
    case CallSwitch(f) => s.(pc := Switching(f))
    case CallStop => s.(pc := Stopping(None))
    case PollStart =>
      if s.Live() then s.(pc := Switching(s.pc.f)) else s.(pc := Freeing(s.pc.f, ColdStart))
    case PollSwitch =>
      if !s.Live() then s.(pc := Starting(s.pc.f))
      else if s.current.Some? && s.current.value.sharded != s.pc.f.sharded then s.(pc := Stopping(Some(s.pc.f)))
      else s.(pc := Swapping(s.pc.f, HotSwap))
    case BeginStop =>
      if s.proc.None? then s.(pc := AfterStop(s.pc.next, None), last := Stopped)
      else
        var t := s.(proc := None, current := None, born := None, dirty := false);
        if s.Live() then t.(pc := Confirming(s.proc.value, s.pc.next))
        else t.(pc := AfterStop(s.pc.next, s.proc), last := Stopped)
    case ConfirmStop =>
      if s.pc.victim in s.w.alive then Raise(s)
      else s.(pc := AfterStop(s.pc.next, Some(s.pc.victim)), last := Stopped)
    case PortFree => s.(pc := Spawning(s.pc.f, s.pc.m))
    case PortTimeout => Raise(s)
    case SpawnFails(t) => s.(pc := Idle, last := Crashed, token := Some(t), w := s.w.(minted := s.w.minted + {t}))
    case Spawn(id, t, echoes, pid, reported) =>
      var p := Process(SpawnEnv(os, s.pc.f, t), echoes, pid, reported);
      s.(w := s.w.(procs := s.w.procs[id := p], alive := s.w.alive + {id}, minted := s.w.minted + {t}),
         proc := Some(id), token := Some(t), pc := Healing(s.pc.f, s.pc.m),
         born := Some(s.pc.f), answered := None, dirty := false)
    case HealthRaises => Raise(s)
    case HealthReject => Raise(s)
    case HealthAccept => s.(pc := Swapping(s.pc.f, s.pc.m), answered := s.w.holder)
    case SwapRaises(tookEffect) => Raise(s).(w := if tookEffect then Open(s.w, s.pc.f.db) else s.w)
    case SwapDone(genes) =>
      s.(w := Open(s.w, s.pc.f.db), current := Some(s.pc.f), pc := Guarding(s.pc.f, s.pc.m, genes))
    case Guard =>
      if s.pc.f.expectNonempty && s.pc.genes == 0 then Raise(s)
      else s.(pc := Idle, last := Returned(s.pc.f, s.pc.m))
    case Crash => Raise(s).(last := Crashed)
  }

  ghost predicate Initial(s: State) {
    && s.w.Valid() && s.pc.Idle? && s.proc.None? && s.current.None? && s.token.None?
    && s.born.None? && s.answered.None? && !s.dirty && s.last.NoCall?
  }

  /** `acts` is a run from `s0`: each action is enabled where it is taken. */
  ghost predicate Legal(os: EnvVars, s0: State, acts: seq<Action>)
    decreases |acts|, 0
  {
    if acts == [] then Initial(s0)
    else
      var prefix := acts[..|acts| - 1];
      Legal(os, s0, prefix) && Enabled(Exec(os, s0, prefix), acts[|acts| - 1])
  }

  ghost function Exec(os: EnvVars, s0: State, acts: seq<Action>): State
    requires Legal(os, s0, acts)
    decreases |acts|, 1
  {
    if acts == [] then s0
    else After(os, Exec(os, s0, acts[..|acts| - 1]), acts[|acts| - 1])
  }
}
