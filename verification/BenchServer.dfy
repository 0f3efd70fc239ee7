/**
 The orchestrator itself. Every method below logs the steps it takes in the ghost run `acts`, and
 `Valid` says that this is a run of the lifecycle machine ending in the object's present state, so
 whatever holds of all runs of the machine holds of all histories of the object.
 */
module Orchestrator {
  import opened Text
  import opened Lifecycle
  import opened LifecycleSafety

  /** How a call or a step of one ends: normally, with a `BenchServerError`, or with any other exception. */
  datatype Status = Done | Raises | Crashes

  datatype Reply = Served(f: Fixture, m: Mechanism, genes: nat) | Failed(status: Status)

  /** The outcome of one /health round. */
  datatype Answer = Silent | Answered(status: Status)

  /** One line of the matrix summary: did the switch succeed, so that the bench was run? */
  datatype Row = Row(f: Fixture, benched: bool)

  /** How one pass of the matrix loop ends; `Broken` is what ends the loop. */
  datatype Ending = Benched | SwitchFailed | Broken

  /** A call's place in a run: called at `call`, over at `cut`. */
  datatype Span = Span(call: nat, cut: nat)

  /** How many calls began in a run. */
  ghost function Calls(acts: seq<Action>): nat {
    if acts == [] then 0 else Calls(acts[..|acts| - 1]) + if IsCall(acts[|acts| - 1]) then 1 else 0
  }

  /** The run went on from `a` to `b` without a further call. */
  ghost predicate Extends(a: seq<Action>, b: seq<Action>) {
    a <= b && Calls(a) == Calls(b)
  }

  /** A failed step leaves the machine idle, and its outcome says how it failed. */
  ghost predicate EndsBadly(s: State, status: Status) {
    s.pc.Idle? && (match status case Done => false case Raises => s.last.Raised? case Crashes => s.last.Crashed?)
  }

  /** What a call for `f` leaves when it is over, and what its swap was answered with. */
  ghost predicate Replies(s: State, acts: seq<Action>, f: Fixture, r: Reply) {
    match r
    case Served(g, m, genes) =>
      && s.pc.Idle? && g == f && s.last == Returned(f, m)
      && GenesSaid(acts) == Some(genes) && (f.expectNonempty ==> genes > 0)
    case Failed(status) => EndsBadly(s, status)
  }

  /** In the run `acts`, `switch(f)` was called at `span.call` and was over at `span.cut`, in a state that fits
      the ending: a row is benched only if the swap was answered with genes where the fixture has to hold some,
      and failed only without such an answer. A pass breaks off when the switch crashes, or the bench after a
      switch that returned. */
  ghost predicate PassEnds(os: EnvVars, s0: State, acts: seq<Action>, span: Span, f: Fixture, ending: Ending) {
    && span.call < span.cut <= |acts| && acts[span.call] == CallSwitch(f)
    && Extends(acts[..span.call + 1], acts[..span.cut])
    && Legal(os, s0, acts[..span.cut])
    && var s := Exec(os, s0, acts[..span.cut]);
       && s.pc.Idle?
       && var call := acts[..span.cut];
          var served := s.last.Returned? && s.last.f == f && Satisfied(call, f) && Benchable(os, s, f, s.last.m);
          match ending
          case Benched => served
          case SwitchFailed => s.last.Raised? && !Broke(call) && !Satisfied(call, f)
          case Broken => (s.last.Crashed? && Broke(call)) || served
  }

  /** `stop` was called at `call`, last of all calls, on the server `victim`. */
  ghost predicate StopsAt(os: EnvVars, s0: State, acts: seq<Action>, call: nat, victim: Option<nat>) {
    && call < |acts| && acts[call] == CallStop && Extends(acts[..call + 1], acts)
    && Legal(os, s0, acts[..call]) && Exec(os, s0, acts[..call]).proc == victim
  }

  /** Where the span before the `i`-th one ends. */
  ghost function EndBefore(spans: seq<Span>, from: nat, i: nat): nat
    requires i <= |spans|
  {
    if i == 0 then from else spans[i - 1].cut
  }

  /** The spans lie behind each other between `from` and `to`. */
  ghost predicate InOrder(spans: seq<Span>, from: nat, to: nat) {
    && from <= to
    && forall i | 0 <= i < |spans| :: EndBefore(spans, from, i) <= spans[i].call && spans[i].cut <= to
  }

  lemma OneMoreCall(acts: seq<Action>, a: Action)
    requires IsCall(a)
    ensures Calls(acts + [a]) == Calls(acts) + 1
  {
    assert (acts + [a])[..|acts|] == acts;
  }

  lemma CallsKept(a: seq<Action>, b: seq<Action>)
    requires Extends(a, b)
    ensures Calls(a) == Calls(b)
  {
  }

  lemma InOrderNext(spans: seq<Span>, from: nat, to: nat, span: Span, to': nat)
    requires InOrder(spans, from, to) && to <= span.call <= span.cut <= to'
    ensures InOrder(spans + [span], from, to')
  {
    var next := spans + [span];
    forall i | 0 <= i < |next| ensures EndBefore(next, from, i) <= next[i].call && next[i].cut <= to' {
      if i < |spans| {
        assert EndBefore(next, from, i) == EndBefore(spans, from, i) && next[i] == spans[i];
      } else {
        assert i > 0 ==> next[i - 1] == spans[i - 1] && EndBefore(spans, from, i - 1) <= spans[i - 1].call;
      }
    }
  }

  /** Every line of the summary says how the pass over its fixture ended. */
  ghost predicate RowsHold(os: EnvVars, s0: State, acts: seq<Action>, fixtures: seq<Fixture>,
                           rows: seq<Row>, spans: seq<Span>)
  {
    && |rows| <= |fixtures| && |rows| <= |spans|
    && forall i | 0 <= i < |rows| ::
         && rows[i].f == fixtures[i]
         && PassEnds(os, s0, acts, spans[i], fixtures[i], if rows[i].benched then Benched else SwitchFailed)
  }

  /** What happened to a run stays so when it goes on. */
  lemma PassStillEnds(os: EnvVars, s0: State, a: seq<Action>, b: seq<Action>, span: Span, f: Fixture, ending: Ending)
    requires PassEnds(os, s0, a, span, f, ending) && a <= b
    ensures PassEnds(os, s0, b, span, f, ending)
  {
    assert b[..span.cut] == a[..span.cut] && b[..span.call + 1] == a[..span.call + 1];
    hide Extends;
  }

  lemma RowsStillHold(os: EnvVars, s0: State, a: seq<Action>, b: seq<Action>, fixtures: seq<Fixture>,
                      rows: seq<Row>, spans: seq<Span>)
    requires RowsHold(os, s0, a, fixtures, rows, spans) && a <= b
    ensures RowsHold(os, s0, b, fixtures, rows, spans)
  {
    hide PassEnds;
    forall i | 0 <= i < |rows|
      ensures PassEnds(os, s0, b, spans[i], fixtures[i], if rows[i].benched then Benched else SwitchFailed)
    {
      PassStillEnds(os, s0, a, b, spans[i], fixtures[i], if rows[i].benched then Benched else SwitchFailed);
    }
  }

  lemma RowsHoldNext(os: EnvVars, s0: State, acts: seq<Action>, fixtures: seq<Fixture>, rows: seq<Row>,
                     spans: seq<Span>, span: Span, row: Row)
    requires RowsHold(os, s0, acts, fixtures, rows, spans) && |rows| == |spans| < |fixtures|
    ensures RowsHold(os, s0, acts, fixtures, rows, spans + [span])
    ensures row.f == fixtures[|rows|] &&
            PassEnds(os, s0, acts, span, fixtures[|rows|], if row.benched then Benched else SwitchFailed) ==>
              RowsHold(os, s0, acts, fixtures, rows + [row], spans + [span])
  {
    hide PassEnds;
  }

  lemma TokenBound(S: set<string>) returns (n: nat)
    ensures forall t | t in S :: |t| < n
    decreases S
  {
    n := 0;
    if S != {} {
      var x :| x in S;
      var m := TokenBound(S - {x});
      n := if m > |x| then m else |x| + 1;
    }
  }

  lemma FreshTokenExists(w: World)
    ensures exists t: string :: FreshToken(w, t)
  {
    var given := set id | id in w.procs && TOKEN_VAR in w.procs[id].env :: w.procs[id].env[TOKEN_VAR];
    var n := TokenBound(w.minted + given);
    var t := seq(n, _ => 'a');
    assert FreshToken(w, t);
  }

  lemma FreshIdExists(S: set<nat>) returns (n: nat)
    ensures forall i | i in S :: i < n
    decreases S
  {
    n := 0;
    if S != {} {
      var x :| x in S;
      var m := FreshIdExists(S - {x});
      n := if m > x then m else x + 1;
      assert forall i | i in S :: i == x || i in S - {x};
    }
  }

  lemma {:induction false} CallsGrow(a: seq<Action>, b: seq<Action>)
    requires a <= b
    ensures Calls(a) <= Calls(b)
  {
    if a < b { CallsGrow(a, b[..|b| - 1]); } else { assert a == b; }
  }

  lemma {:induction false} RequestKept(a: seq<Action>, b: seq<Action>)
    requires Extends(a, b)
    ensures Request(b) == Request(a)
  {
    if a < b {
      CallsGrow(a, b[..|b| - 1]);
      RequestKept(a, b[..|b| - 1]);
    } else {
      assert a == b;
    }
  }

  /** What is known of a finished start or switch from the run alone. */
  lemma EndedAs(os: EnvVars, s0: State, before: seq<Action>, acts: seq<Action>, call: Action)
    requires Extends(before + [call], acts) && (call.CallStart? || call.CallSwitch?)
    requires Legal(os, s0, acts) && Exec(os, s0, acts).pc.Idle?
    ensures EndsAs(acts, call.f, Exec(os, s0, acts).last)
  {
    RequestKept(before + [call], acts);
    CallEndsAs(os, s0, acts);
  }

  lemma Reached(a: seq<Action>, b: seq<Action>, call: Action)
    requires Extends(a + [call], b)
    ensures |a| < |b| && b[|a|] == call && b[..|a|] == a && b[..|a| + 1] == a + [call] && a <= b
  {
  }

  lemma StoppedThere(os: EnvVars, s0: State, before: seq<Action>, acts: seq<Action>, victim: Option<nat>)
    requires Extends(before + [CallStop], acts) && Legal(os, s0, before) && Exec(os, s0, before).proc == victim
    ensures before <= acts && StopsAt(os, s0, acts, |before|, victim)
  {
    Reached(before, acts, CallStop);
    hide Extends;
  }

  lemma MatrixStarts(os: EnvVars, s0: State, acts: seq<Action>, fixtures: seq<Fixture>)
    ensures InOrder([], |acts|, |acts|) && RowsHold(os, s0, acts, fixtures, [], [])
  {
  }

  lemma SpanInside(os: EnvVars, s0: State, acts: seq<Action>, span: Span, f: Fixture, ending: Ending)
    requires PassEnds(os, s0, acts, span, f, ending)
    ensures span.call < span.cut <= |acts|
  {
  }

  class BenchServer {
    const os: EnvVars
    var world: World
    var proc: Option<nat>
    var current: Option<Fixture>
    var token: Option<string>
    ghost const s0: State
    ghost var hist: State
    ghost var acts: seq<Action>

    ghost predicate Logged()
      reads this
    {
      Legal(os, s0, acts) && Exec(os, s0, acts) == hist
    }

    ghost predicate Valid()
      reads this
    {
      && Logged()
      && hist.w == world && hist.proc == proc && hist.current == current && hist.token == token
    }

    constructor (os: EnvVars, world: World)
      requires world.Valid()
      ensures Valid() && hist.pc.Idle? && acts == [] && this.os == os && this.world == world
    {
      this.os := os;
      this.world := world;
      proc, current, token := None, None, None;
      s0 := State(world, None, None, None, Idle, None, None, false, NoCall);
      hist := State(world, None, None, None, Idle, None, None, false, NoCall);
      acts := [];
    }

    /** Logs one step. */
    ghost method Note(a: Action)
      requires Logged() && Enabled(hist, a)
      modifies this`hist, this`acts
      ensures Logged() && hist == After(os, old(hist), a) && acts == old(acts) + [a]
      ensures !IsCall(a) ==> Extends(old(acts), acts)
    {
      assert (acts + [a])[..|acts + [a]| - 1] == acts;
      hist, acts := After(os, hist, a), acts + [a];
    }

    /** Time passes. */
    method Observe()
      requires Valid()
      modifies this
      ensures Valid() && Drifts(old(world), world) && hist == old(hist).(w := world)
      ensures proc == old(proc) && current == old(current) && token == old(token)
      ensures Extends(old(acts), acts)
    {
      RunKeepsInv(os, s0, acts);
      assert Drifts(world, world);
      var w :| Drifts(world, w);
      Note(Drift(w));
      world := w;
    }

    /** `_proc is not None and _proc.poll() is None`, read now. */
    method Poll() returns (alive: bool)
      requires Valid()
      modifies this
      ensures Valid() && hist == old(hist).(w := world) && alive == hist.Live()
      ensures proc == old(proc) && current == old(current) && token == old(token)
      ensures alive ==> old(hist.Live())
      ensures Extends(old(acts), acts)
    {
      Observe();
      alive := proc.Some? && proc.value in world.alive;
      RunKeepsInv(os, s0, old(acts));
    }

    /** `_wait_port_free`: polls until a connection is refused or the deadline passes; the attempt itself may fail. */
    method WaitPortFree() returns (status: Status)
      requires Valid() && hist.pc.Freeing?
      modifies this
      ensures Valid() && Extends(old(acts), acts)
      ensures proc == old(proc) && current == old(current) && token == old(token)
      ensures if status.Done? then hist == old(hist).(w := world, pc := Spawning(old(hist.pc.f), old(hist.pc.m)))
              else EndsBadly(hist, status)
      ensures status.Done? ==> !world.Listening()
    {
      var polls: nat := *;
      while polls > 0
        invariant Valid() && hist == old(hist).(w := world) && Extends(old(acts), acts)
        invariant proc == old(proc) && current == old(current) && token == old(token)
      {
        Observe();
        var fails: bool := *;
        if fails {
          Note(Crash);
          return Crashes;
        }
        if !world.Listening() {
          Note(PortFree);
          return Done;
        }
        polls := polls - 1;
      }
      Note(PortTimeout);
      return Raises;
    }

    /** `_spawn`: mints a token that nobody was ever given and starts a server with it, or fails before the server
        exists, with an exception that is no `BenchServerError`. */
    method SpawnServer(f: Fixture) returns (ok: bool)
      requires Valid() && hist.pc.Spawning? && hist.pc.f == f
      modifies this
      ensures Valid() && Extends(old(acts), acts)
      ensures current == old(current) && token.Some? && FreshToken(old(world), token.value)
      ensures if ok then
                && hist.pc == Healing(f, old(hist.pc.m))
                && proc.Some? && proc.value !in old(world).procs && proc.value in world.alive
                && proc.value in world.procs && world.procs[proc.value].env == SpawnEnv(os, f, token.value)
                && (forall id | id in old(world).procs :: id in world.procs && world.procs[id] == old(world).procs[id])
              else EndsBadly(hist, Crashes) && proc == old(proc) && world.procs == old(world).procs
    {
      FreshTokenExists(world);
      var t :| FreshToken(world, t);
      token := Some(t);
      var env := SpawnEnv(os, f, t);
      var fails: bool := *;
      if fails {
        world := world.(minted := world.minted + {t});
        Note(SpawnFails(t));
        return false;
      }
      ghost var bound := FreshIdExists(world.procs.Keys);
      assert bound !in world.procs;
      var id: nat :| id !in world.procs;
      var echoes: bool, pid: int, reported: Option<int> := *, *, *;
      Note(Spawn(id, t, echoes, pid, reported));
      world := world.(procs := world.procs[id := Process(env, echoes, pid, reported)],
                      alive := world.alive + {id}, minted := world.minted + {t});
      proc := Some(id);
      return true;
    }

    /** The identity check on an answer. */
    method JudgeAnswer() returns (status: Status)
      requires Valid() && hist.pc.Healing? && world.Listening()
      modifies this
      ensures Valid() && Extends(old(acts), acts)
      ensures proc == old(proc) && current == old(current) && token == old(token)
      ensures if status.Done? then hist.pc == Swapping(old(hist.pc.f), old(hist.pc.m)) else EndsBadly(hist, status)
      ensures !status.Crashes? && (status.Done? <==> AcceptsHolder(old(hist)))
    {
      RunKeepsInv(os, s0, acts);
      if Accepts(world.procs[world.holder.value], token, Some(world.procs[proc.value].pid)) {
        Note(HealthAccept);
        return Done;
      }
      Note(HealthReject);
      return Raises;
    }

    /** One round of `_wait_healthy`: liveness, then one /health request and its identity check. */
    method AskHealth() returns (answer: Answer)
      requires Valid() && hist.pc.Healing?
      modifies this
      ensures Valid() && Extends(old(acts), acts)
      ensures proc == old(proc) && current == old(current) && token == old(token)
      ensures match answer
              case Silent => hist == old(hist).(w := world)
              case Answered(Done) => hist.pc == Swapping(old(hist.pc.f), old(hist.pc.m))
              case Answered(status) => EndsBadly(hist, status)
    {
      var alive := Poll();
      if !alive {
        Note(HealthRaises);
        return Answered(Raises);
      }
      Observe();
      var unanswered: bool, malformed: bool := *, *;
      if !world.Listening() || unanswered { return Silent; }
      if malformed {
        Note(Crash);
        return Answered(Crashes);
      }
      var status := JudgeAnswer();
      return Answered(status);
    }

    /** `_wait_healthy`: polls /health until an answer passes the identity check. */
    method WaitHealthy() returns (status: Status)
      requires Valid() && hist.pc.Healing?
      modifies this
      ensures Valid() && Extends(old(acts), acts)
      ensures proc == old(proc) && current == old(current) && token == old(token)
      ensures if status.Done? then hist.pc == Swapping(old(hist.pc.f), old(hist.pc.m)) else EndsBadly(hist, status)
    {
      var polls: nat := *;
      while polls > 0
        invariant Valid() && hist == old(hist).(w := world) && Extends(old(acts), acts)
        invariant proc == old(proc) && current == old(current) && token == old(token)
      {
        var answer := AskHealth();
        if answer.Answered? { return answer.status; }
        polls := polls - 1;
      }
      Note(HealthRaises);
      return Raises;
    }

    /** The port's holder has opened `db`. */
    predicate HolderServes(db: string)
      reads this
    {
      world.holder.Some? && world.holder.value in world.serving && world.serving[world.holder.value] == db
    }

    /** The POST is answered by whoever holds the port; an error can be raised after the server already acted on
        it. */
    method Post(f: Fixture, m: Mechanism) returns (status: Status, genes: nat)
      requires Valid() && hist.pc == Swapping(f, m)
      modifies this
      ensures Valid() && Extends(old(acts), acts)
      ensures proc == old(proc) && token == old(token)
      ensures if status.Done? then hist.pc == Guarding(f, m, genes) && current == Some(f) && HolderServes(f.db)
              else EndsBadly(hist, status) && current == old(current)
    {
      var fails: bool, lost: bool, n: nat := *, *, *;
      if world.holder.None? || fails {
        Note(SwapRaises(false));
        return Raises, 0;
      }
      Note(if lost then SwapRaises(true) else SwapDone(n));
      world := Open(world, f.db);
      if lost { return Raises, 0; }
      current := Some(f);
      return Done, n;
    }

    /** `_post_swap`, and on success the assignment of `_current`. The probe of the fixture file may fail in any
        way. */
    method PostSwap(f: Fixture, m: Mechanism) returns (status: Status, genes: nat)
      requires Valid() && hist.pc == Swapping(f, m)
      modifies this
      ensures Valid() && Extends(old(acts), acts)
      ensures proc == old(proc) && token == old(token)
      ensures if status.Done? then hist.pc == Guarding(f, m, genes) && current == Some(f) && HolderServes(f.db)
              else EndsBadly(hist, status) && current == old(current)
    {
      Observe();
      var probe: Status := *;
      if probe.Crashes? {
        Note(Crash);
        return Crashes, 0;
      }
      if probe.Raises? {
        Note(SwapRaises(false));
        return Raises, 0;
      }
      status, genes := Post(f, m);
    }

    /** The tail that start, restart and hot-swap share: swap, record, `_guard_genes`. */
    method SwapRecordGuard(f: Fixture, m: Mechanism) returns (r: Reply)
      requires Valid() && hist.pc == Swapping(f, m)
      modifies this
      ensures Valid() && Extends(old(acts), acts)
      ensures proc == old(proc) && token == old(token)
      ensures Replies(hist, acts, f, r) && (r.Served? ==> r.m == m && current == Some(f))
    {
      var status, genes := PostSwap(f, m);
      if !status.Done? { return Failed(status); }
      var malformed: bool := *;
      if malformed {
        Note(Crash);
        return Failed(Crashes);
      }
      RunKeepsCallInv(os, s0, acts);
      assert (acts + [Action.Guard])[..|acts|] == acts;
      Note(Action.Guard);
      if f.expectNonempty && genes == 0 { return Failed(Raises); }
      return Served(f, m, genes);
    }

    /** From a slot without a live server: free port, spawn, identity check, swap. */
    method SpawnAndAttach(f: Fixture, m: Mechanism) returns (r: Reply)
      requires Valid() && hist.pc == Freeing(f, m)
      modifies this
      ensures Valid() && Extends(old(acts), acts)
      ensures Replies(hist, acts, f, r) && (r.Served? ==> r.m == m && current == Some(f))
    {
      var status := WaitPortFree();
      if !status.Done? { return Failed(status); }
      var spawned := SpawnServer(f);
      if !spawned { return Failed(Crashes); }
      status := WaitHealthy();
      if !status.Done? { return Failed(status); }
      r := SwapRecordGuard(f, m);
    }

    /** The end of `stop`: signals and waits, then the last look at the process. */
    method ConfirmDead(victim: nat) returns (ok: bool)
      requires Valid() && hist.pc.Confirming? && hist.pc.victim == victim && proc.None?
      modifies this
      ensures Valid() && Extends(old(acts), acts) && proc.None?
      ensures if ok then hist.pc == AfterStop(old(hist.pc.next), Some(victim)) && hist.last.Stopped?
              else EndsBadly(hist, Raises)
      ensures ok ==> victim !in world.alive
    {
      Observe();
      Note(ConfirmStop);
      return victim !in world.alive;
    }

    /** The body of `stop`: empties the slot, kills the server and confirms its death. */
    method StopBody() returns (ok: bool)
      requires Valid() && hist.pc.Stopping?
      modifies this
      ensures Valid() && Extends(old(acts), acts) && proc.None?
      ensures if ok then hist.pc == AfterStop(old(hist.pc.next), old(proc)) && hist.last.Stopped?
              else EndsBadly(hist, Raises)
      ensures ok && old(proc).Some? ==> old(proc).value !in world.alive
    {
      if proc.None? {
        Note(BeginStop);
        return true;
      }
      var victim := proc.value;
      var alive := Poll();
      Note(BeginStop);
      proc, current := None, None;
      if !alive { return true; }
      ok := ConfirmDead(victim);
    }

    /** The body of `start`. It calls `switch` only when the server was just seen alive, and `switch`
        calls back only when it was just seen dead; the dead stay dead. */
    method StartBody(f: Fixture) returns (r: Reply)
      requires Valid() && hist.pc == Starting(f)
      modifies this
      ensures Valid() && Extends(old(acts), acts) && Replies(hist, acts, f, r)
      decreases if hist.Live() then 3 else 0
    {
      var alive := Poll();
      Note(PollStart);
      if alive {
        r := SwitchBody(f);
      } else {
        r := SpawnAndAttach(f, ColdStart);
      }
    }

    /** The body of `switch`. */
    method SwitchBody(f: Fixture) returns (r: Reply)
      requires Valid() && hist.pc == Switching(f)
      modifies this
      ensures Valid() && Extends(old(acts), acts) && Replies(hist, acts, f, r)
      decreases if hist.Live() then 2 else 1
    {
      var alive := Poll();
      Note(PollSwitch);
      if !alive {
        r := StartBody(f);
        return;
      }
      if current.Some? && current.value.sharded != f.sharded {
        var replaced := proc;
        var stopped := StopBody();
        if !stopped { return Failed(Raises); }
        r := SpawnAndAttach(f, Restart(replaced));
      } else {
        r := SwapRecordGuard(f, HotSwap);
      }
    }

    /** `start`. */
    method Start(f: Fixture) returns (r: Reply)
      requires Valid() && hist.pc.Idle?
      modifies this
      ensures Valid() && Extends(old(acts) + [CallStart(f)], acts)
      ensures Replies(hist, acts, f, r) && (r.Served? ==> Benchable(os, hist, f, r.m))
      ensures EndsAs(acts, f, hist.last)
    {
      Note(CallStart(f));
      r := StartBody(f);
      if r.Served? { ReturnedCallServesItsFixture(os, s0, acts); }
      EndedAs(os, s0, old(acts), acts, CallStart(f));
    }

    /** `switch`. */
    method Switch(f: Fixture) returns (r: Reply)
      requires Valid() && hist.pc.Idle?
      modifies this
      ensures Valid() && Extends(old(acts) + [CallSwitch(f)], acts)
      ensures Replies(hist, acts, f, r) && (r.Served? ==> Benchable(os, hist, f, r.m))
      ensures EndsAs(acts, f, hist.last)
    {
      Note(CallSwitch(f));
      r := SwitchBody(f);
      if r.Served? { ReturnedCallServesItsFixture(os, s0, acts); }
      EndedAs(os, s0, old(acts), acts, CallSwitch(f));
    }

    /** `stop`: whatever happens the slot is empty afterwards, and a normal return means that the
        server that was in it is dead. */
    method Stop() returns (ok: bool)
      requires Valid() && hist.pc.Idle?
      modifies this
      ensures Valid() && Extends(old(acts) + [CallStop], acts) && hist.pc.Idle? && proc.None?
      ensures if ok then hist.last.Stopped? else hist.last.Raised?
      ensures ok && old(proc).Some? ==> old(proc).value !in world.alive
    {
      Note(CallStop);
      ok := StopBody();
    }

    /** One pass of the matrix loop. */
    method RunOne(f: Fixture) returns (ending: Ending, ghost span: Span)
      requires Valid() && hist.pc.Idle?
      modifies this
      ensures Valid() && hist.pc.Idle? && old(acts) <= acts
      ensures |old(acts)| <= span.call && PassEnds(os, s0, acts, span, f, ending)
      ensures ending.Benched? ==> Satisfied(acts[..span.cut], f)
      ensures Calls(acts) == Calls(old(acts)) + 1
    {
      var r := Switch(f);
      span := Span(|old(acts)|, |acts|);
      ending := if r.Served? then Benched else if r.status.Raises? then SwitchFailed else Broken;
      assert acts[..|acts|] == acts && acts[..span.call + 1] == old(acts) + [CallSwitch(f)];
      OneMoreCall(old(acts), CallSwitch(f));
      if r.Served? {
        var breaks: bool := *;
        if breaks { ending := Broken; }
      }
      assert PassEnds(os, s0, acts, span, f, ending);
      ghost var before := acts;
      Observe();
      PassStillEnds(os, s0, before, acts, span, f, ending);
    }

    /** The matrix loop: a `BenchServerError` of a switch is recorded and skipped, any other exception, of the switch
        or of the bench itself, ends the loop, and the server is stopped either way. `spans[i]` is the place of
        the `i`-th switch in the run, and `end` that of the call to stop the server `victim`. */
    method RunMatrix(fixtures: seq<Fixture>)
      returns (rows: seq<Row>, crashed: bool, stopped: bool,
               ghost spans: seq<Span>, ghost end: nat, ghost victim: Option<nat>)
      requires Valid() && hist.pc.Idle?
      modifies this
      ensures Valid() && hist.pc.Idle? && proc.None? && old(acts) <= acts
      ensures |spans| == |rows| + (if crashed then 1 else 0) <= |fixtures|
      ensures !crashed ==> |rows| == |fixtures|
      ensures InOrder(spans, |old(acts)|, end)
      ensures RowsHold(os, s0, acts, fixtures, rows, spans)
      ensures crashed ==> PassEnds(os, s0, acts, spans[|rows|], fixtures[|rows|], Broken)
      ensures StopsAt(os, s0, acts, end, victim)
      ensures Calls(acts) == Calls(old(acts)) + |spans| + 1
      ensures if stopped then hist.last.Stopped? else hist.last.Raised?
      ensures stopped && victim.Some? ==> victim.value !in world.alive
    {
      hide PassEnds, Extends, RowsHold, InOrder, Calls, StopsAt;
      rows, crashed, spans := [], false, [];
      MatrixStarts(os, s0, acts, fixtures);
      while |rows| < |fixtures| && !crashed
        invariant Valid() && hist.pc.Idle? && old(acts) <= acts
        invariant |spans| == |rows| + (if crashed then 1 else 0) <= |fixtures|
        invariant Calls(acts) == Calls(old(acts)) + |spans|
        invariant InOrder(spans, |old(acts)|, |acts|)
        invariant RowsHold(os, s0, acts, fixtures, rows, spans)
        invariant crashed ==> PassEnds(os, s0, acts, spans[|rows|], fixtures[|rows|], Broken)
        decreases |fixtures| - |spans|
      {
        var f := fixtures[|rows|];
        ghost var before := acts;
        var ending;
        ghost var span;
        ending, span := RunOne(f);
        SpanInside(os, s0, acts, span, f, ending);
        InOrderNext(spans, |old(acts)|, |before|, span, |acts|);
        RowsStillHold(os, s0, before, acts, fixtures, rows, spans);
        RowsHoldNext(os, s0, acts, fixtures, rows, spans, span, Row(f, ending.Benched?));
        spans := spans + [span];
        if ending.Broken? { crashed := true; } else { rows := rows + [Row(f, ending.Benched?)]; }
      }
      end, victim := |acts|, proc;
      ghost var before := acts;
      stopped := Stop();
      OneMoreCall(before, CallStop);
      CallsKept(before + [CallStop], acts);
      RowsStillHold(os, s0, before, acts, fixtures, rows, spans);
      if crashed { PassStillEnds(os, s0, before, acts, spans[|rows|], fixtures[|rows|], Broken); }
      StoppedThere(os, s0, before, acts, victim);
    }
  }
}
