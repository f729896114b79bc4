/** What the tasks that watch a server's container do when it exits. */
module CrashMonitor {
  import opened Common

  /** The timeout counts seconds. */
  datatype Config = Config(enabled: bool, detectCleanExit: bool, timeout: nat)

  datatype Exit = Exit(code: Option<int>, oomKilled: Option<bool>)

  /** What the tasks of a server share; times count nanoseconds of a clock that never runs back. */
  datatype Shared = Shared(restarting: bool, stopping: bool, crashHandled: bool, lastCrash: Option<nat>)

  datatype Outcome = PlannedRestart | PlannedStop | Ignored | CleanExit | TooSoon | CrashRestart

  /** How far a task is; each step makes one access to what is shared. */
  datatype Phase =
    | Watching
    | Exited(exit: Exit)
    | NotRestarting(exit: Exit)
    | Unplanned(exit: Exit)
    | Claiming(exit: Exit)
    | Crashed
    | Restarting
    | ClearRestarting
    | ClearStopping(restarts: bool)
    | Stopping
    | Done(outcome: Outcome)
    | Aborted

  const SECOND: nat := 1_000_000_000

  predicate IsClean(cfg: Config, exit: Exit) {
    exit.code == Some(0) && exit.oomKilled != Some(true) && !cfg.detectCleanExit
  }

  /** Fewer whole seconds than the timeout have passed since the last crash that restarted. */
  predicate IsTooSoon(cfg: Config, last: Option<nat>, now: nat) {
    last.Some? && (if now < last.value then 0 else now - last.value) / SECOND < cfg.timeout
  }

  /** One step of a task. The last crash is locked while its age is read at `now` and it is set at `stamp`. */
  function Next(cfg: Config, s: Shared, phase: Phase, now: nat, stamp: nat): (Shared, Phase) {
    match phase
    case Exited(exit) => (s, if s.restarting then Restarting else NotRestarting(exit))
    case NotRestarting(exit) => (s, if s.stopping then Stopping else Unplanned(exit))
    case Unplanned(exit) => (s, if cfg.enabled && !s.crashHandled then Claiming(exit) else Done(Ignored))
    case Claiming(exit) =>
      (s.(crashHandled := true), if IsClean(cfg, exit) then Done(CleanExit) else Crashed)
    case Crashed =>
      if IsTooSoon(cfg, s.lastCrash, now) then (s, Done(TooSoon))
      else (s.(lastCrash := Some(stamp)), Done(CrashRestart))
    case Restarting => (s.(crashHandled := true), ClearRestarting)
    case ClearRestarting => (s.(restarting := false), ClearStopping(true))
    case Stopping => (s.(crashHandled := true), ClearStopping(false))
    case ClearStopping(restarts) => (s.(stopping := false), Done(if restarts then PlannedRestart else PlannedStop))
    case Watching | Done(_) | Aborted => (s, phase)
  }

  predicate Moves(phase: Phase) {
    !phase.Watching? && !phase.Done? && !phase.Aborted?
  }

  function Rank(phase: Phase): nat {
    match phase
    case Exited(_) => 6
    case NotRestarting(_) => 5
    case Unplanned(_) => 4
    case Claiming(_) => 3
    case Crashed => 1
    case Restarting => 3
    case ClearRestarting => 2
    case Stopping => 2
    case ClearStopping(_) => 1
    case Watching | Done(_) | Aborted => 0
  }

  /** A task runs from a phase to its end with nobody else in between. */
  function Alone(cfg: Config, s: Shared, phase: Phase, now: nat, stamp: nat): (Shared, Phase)
    decreases Rank(phase)
  {
    if Moves(phase) then
      var (s', phase') := Next(cfg, s, phase, now, stamp);
      Alone(cfg, s', phase', now, stamp)
    else (s, phase)
  }

  /** What becomes of an exit handled alone. */
  function Handled(cfg: Config, s: Shared, exit: Exit, now: nat, stamp: nat): (Shared, Phase) {
    Alone(cfg, s, Exited(exit), now, stamp)
  }

  /** Whole seconds below the timeout are nanoseconds below it. */
  lemma TooSoonMeaning(cfg: Config, last: Option<nat>, now: nat)
    ensures IsTooSoon(cfg, last, now)
       <==> last.Some? && cfg.timeout > 0 && now < last.value + cfg.timeout * 1_000_000_000
  {
    if last.Some? {
      var elapsed := if now < last.value then 0 else now - last.value;
      WholeSeconds(elapsed, cfg.timeout);
    }
  }

  lemma WholeSeconds(nanos: nat, seconds: nat)
    ensures nanos / 1_000_000_000 < seconds <==> nanos < seconds * 1_000_000_000
  {
  }

  /** An exit while a restart or a stop is under way is planned and clears the flags of it. Any other one is a
      crash, once per container and with the detection on, unless the container left with code 0, was not
      killed for its memory, and clean exits are no crashes; and a crash restarts the server unless the last one
      that did lies less than the timeout back, in nanoseconds. A zero timeout holds nothing back. Only a
      restart is remembered. */
  lemma HandledMeaning(cfg: Config, s: Shared, exit: Exit, now: nat, stamp: nat)
    ensures var (s', phase) := Handled(cfg, s, exit, now, stamp);
            var unplanned := !s.restarting && !s.stopping;
            var caught := unplanned && cfg.enabled && !s.crashHandled;
            var crashed := exit.code != Some(0) || exit.oomKilled == Some(true) || cfg.detectCleanExit;
            var rested := s.lastCrash.None? || cfg.timeout == 0
                          || now >= s.lastCrash.value + cfg.timeout * 1_000_000_000;
            && phase.Done?
            && (phase.outcome == PlannedRestart <==> s.restarting)
            && (phase.outcome == PlannedStop <==> !s.restarting && s.stopping)
            && (phase.outcome == Ignored <==> unplanned && (!cfg.enabled || s.crashHandled))
            && (phase.outcome == CleanExit <==> caught && !crashed)
            && (phase.outcome == TooSoon <==> caught && crashed && !rested)
            && (phase.outcome == CrashRestart <==> caught && crashed && rested)
            && !s'.restarting && !s'.stopping
            && s'.crashHandled == (s.crashHandled || phase.outcome != Ignored)
            && s'.lastCrash == (if phase.outcome == CrashRestart then Some(stamp) else s.lastCrash)
  {
    TooSoonMeaning(cfg, s.lastCrash, now);
    AloneNext(cfg, s, Exited(exit), now, stamp);
    var (s1, p1) := Next(cfg, s, Exited(exit), now, stamp);
    AloneNext(cfg, s1, p1, now, stamp);
    var (s2, p2) := Next(cfg, s1, p1, now, stamp);
    AloneNext(cfg, s2, p2, now, stamp);
    var (s3, p3) := Next(cfg, s2, p2, now, stamp);
    AloneNext(cfg, s3, p3, now, stamp);
    var (s4, p4) := Next(cfg, s3, p3, now, stamp);
    AloneNext(cfg, s4, p4, now, stamp);
  }

  lemma AloneNext(cfg: Config, s: Shared, phase: Phase, now: nat, stamp: nat)
    ensures var (s', phase') := Next(cfg, s, phase, now, stamp);
            Alone(cfg, s, phase, now, stamp) == Alone(cfg, s', phase', now, stamp)
  {}

  class ServerFlags {
    var restarting: bool
    var stopping: bool
    var crashHandled: bool
    var lastCrash: Option<nat>

    constructor ()
      ensures State() == Shared(false, false, false, None)
    {
      restarting, stopping, crashHandled, lastCrash := false, false, false, None;
    }

    function State(): Shared
      reads this
    {
      Shared(restarting, stopping, crashHandled, lastCrash)
    }

    /** A new or reused container has no crash handled yet. */
    method SetupContainer()
      modifies this
      ensures State() == old(State()).(crashHandled := false)
    {
      crashHandled := false;
    }

    method HandleExit(cfg: Config, exit: Exit, now: nat, stamp: nat) returns (outcome: Outcome)
      modifies this
      ensures (State(), Done(outcome)) == Handled(cfg, old(State()), exit, now, stamp)
    {
      HandledMeaning(cfg, State(), exit, now, stamp);
      if restarting {
        crashHandled := true;
        restarting := false;
        stopping := false;
        return PlannedRestart;
      } else if stopping {
        crashHandled := true;
        stopping := false;
        return PlannedStop;
      } else if cfg.enabled && !crashHandled {
        crashHandled := true;
        if exit.code == Some(0) && exit.oomKilled != Some(true) && !cfg.detectCleanExit {
          return CleanExit;
        }
        if lastCrash.Some? {
          var elapsed := if now < lastCrash.value then 0 else now - lastCrash.value;
          if elapsed / SECOND < cfg.timeout {
            return TooSoon;
          }
          lastCrash := Some(stamp);
        } else {
          lastCrash := Some(stamp);
        }
        return CrashRestart;
      }
      return Ignored;
    }
  }

  // ----- runs of several tasks

  /** The tasks started so far, the times of the automatic restarts, and the outcomes in order. */
  datatype World = World(
    now: nat, shared: Shared, tasks: map<nat, Phase>, restarts: seq<nat>, outcomes: seq<(nat, Outcome)>)

  datatype Action =
    | Tick
    /** Anyone else stores to the flags; only the exit tasks set the last crash. */
    | Store
    | Start(id: nat)
    | Abort(id: nat)
    | See(id: nat, exit: Exit)
    | Move(id: nat)

  ghost predicate Step(cfg: Config, w: World, action: Action, w': World) {
    match action
    case Tick => w.now <= w'.now && w' == w.(now := w'.now)
    case Store => w' == w.(shared := w'.shared) && w'.shared.lastCrash == w.shared.lastCrash
    case Start(id) => id !in w.tasks && w' == w.(tasks := w.tasks[id := Watching])
    case Abort(id) =>
      id in w.tasks && !w.tasks[id].Done? && w' == w.(tasks := w.tasks[id := Aborted])
    case See(id, exit) =>
      id in w.tasks && w.tasks[id].Watching? && w' == w.(tasks := w.tasks[id := Exited(exit)])
    case Move(id) =>
      id in w.tasks && Moves(w.tasks[id]) && MoveStep(cfg, w, id, w')
  }

  /** A task's step. Between checking and setting the last crash the clock may advance. */
  ghost predicate MoveStep(cfg: Config, w: World, id: nat, w': World)
    requires id in w.tasks
  {
    var (s', phase') := Next(cfg, w.shared, w.tasks[id], w.now, w'.now);
    && w.now <= w'.now
    && w'.shared == s' && w'.tasks == w.tasks[id := phase']
    && w'.restarts == w.restarts + (if phase' == Done(CrashRestart) then [w'.now] else [])
    && w'.outcomes == w.outcomes + (if phase'.Done? then [(id, phase'.outcome)] else [])
  }

  const START := World(0, Shared(false, false, false, None), map[], [], [])

  ghost predicate Steps(cfg: Config, w: World, w': World) {
    exists action :: Step(cfg, w, action, w')
  }

  ghost predicate IsRun(cfg: Config, run: seq<World>) {
    && run != [] && run[0] == START
    && forall i :: 0 <= i < |run| - 1 ==> Steps(cfg, run[i], run[i + 1])
  }

  /** Automatic restarts are a timeout apart. */
  predicate Spaced(cfg: Config, times: seq<nat>) {
    forall i :: 0 <= i < |times| - 1 ==> times[i] + cfg.timeout * SECOND <= times[i + 1]
  }

  /** The last crash remembered is the last restart. */
  predicate TimesSound(cfg: Config, times: seq<nat>, last: Option<nat>, now: nat) {
    && Spaced(cfg, times)
    && last == (if times == [] then None else Some(times[|times| - 1]))
    && (times != [] ==> times[|times| - 1] <= now)
  }

  /** Each outcome is that of a task that is done, and no task has two. */
  predicate OutcomesSound(tasks: map<nat, Phase>, outcomes: seq<(nat, Outcome)>) {
    && (forall i :: 0 <= i < |outcomes| ==>
          outcomes[i].0 in tasks && tasks[outcomes[i].0] == Done(outcomes[i].1))
    && (forall i, j :: 0 <= i < j < |outcomes| ==> outcomes[i].0 != outcomes[j].0)
  }

  predicate Invariant(cfg: Config, w: World) {
    TimesSound(cfg, w.restarts, w.shared.lastCrash, w.now) && OutcomesSound(w.tasks, w.outcomes)
  }

  lemma NewTime(cfg: Config, times: seq<nat>, last: Option<nat>, now: nat, stamp: nat)
    requires TimesSound(cfg, times, last, now) && now <= stamp && !IsTooSoon(cfg, last, now)
    ensures TimesSound(cfg, times + [stamp], Some(stamp), stamp)
  {
    var times' := times + [stamp];
    if times != [] {
      Elapsed(now - last.value, cfg.timeout);
    }
    assert forall i :: 0 <= i < |times| ==> times'[i] == times[i];
  }

  lemma Elapsed(d: nat, seconds: nat)
    requires d / SECOND >= seconds
    ensures d >= seconds * SECOND
  {}

  lemma MoveKeepsInvariant(cfg: Config, w: World, id: nat, w': World)
    requires Invariant(cfg, w) && id in w.tasks && Moves(w.tasks[id]) && MoveStep(cfg, w, id, w')
    ensures Invariant(cfg, w')
  {
    var (s', phase') := Next(cfg, w.shared, w.tasks[id], w.now, w'.now);
    NewOutcome(w.tasks, w.outcomes, id, phase');
    if phase' == Done(CrashRestart) {
      NewTime(cfg, w.restarts, w.shared.lastCrash, w.now, w'.now);
    }
  }

  lemma NewOutcome(tasks: map<nat, Phase>, outcomes: seq<(nat, Outcome)>, id: nat, phase: Phase)
    requires OutcomesSound(tasks, outcomes) && id in tasks && !tasks[id].Done?
    ensures OutcomesSound(
              tasks[id := phase], outcomes + (if phase.Done? then [(id, phase.outcome)] else []))
  {}

  lemma StepKeepsInvariant(cfg: Config, w: World, w': World)
    requires Invariant(cfg, w) && Steps(cfg, w, w')
    ensures Invariant(cfg, w')
  {
    var action :| Step(cfg, w, action, w');
    if action.Move? {
      MoveKeepsInvariant(cfg, w, action.id, w');
    }
  }

  lemma {:induction false} RunKeepsInvariant(cfg: Config, run: seq<World>)
    requires IsRun(cfg, run)
    ensures Invariant(cfg, run[|run| - 1])
  {
    var n := |run| - 1;
    if n > 0 {
      assert forall i :: 0 <= i < n ==> run[..n][i] == run[i];
      RunKeepsInvariant(cfg, run[..n]);
      StepKeepsInvariant(cfg, run[n - 1], run[n]);
    }
  }

  lemma {:induction false} SpacedBound(cfg: Config, times: seq<nat>, i: nat, j: nat)
    requires Spaced(cfg, times) && i <= j < |times|
    ensures times[i] + (j - i) * (cfg.timeout * SECOND) <= times[j]
  {
    if i < j {
      SpacedBound(cfg, times, i, j - 1);
      assert (j - i) * (cfg.timeout * SECOND) == (j - 1 - i) * (cfg.timeout * SECOND) + cfg.timeout * SECOND;
    }
  }

  /** In every run, however the tasks interleave, the automatic restarts `i` and `j` are at least
      `j - i` timeouts apart, and no task reports two outcomes. */
  lemma RestartsAreSpaced(cfg: Config, run: seq<World>, i: nat, j: nat)
    requires IsRun(cfg, run)
    ensures var w := run[|run| - 1];
            && (i <= j < |w.restarts| ==> w.restarts[i] + (j - i) * (cfg.timeout * 1_000_000_000) <= w.restarts[j])
            && (i < j < |w.outcomes| ==> w.outcomes[i].0 != w.outcomes[j].0)
  {
    RunKeepsInvariant(cfg, run);
    var w := run[|run| - 1];
    if i <= j < |w.restarts| {
      SpacedBound(cfg, w.restarts, i, j);
    }
  }

  /** In any interleaving, a crash that comes to look at the last one restarts the server exactly when that one
      lies the timeout back. */
  lemma RestedCrashRestarts(cfg: Config, w: World, id: nat, w': World)
    requires id in w.tasks && w.tasks[id].Crashed? && MoveStep(cfg, w, id, w')
    ensures
      var rested := w.shared.lastCrash.None? || cfg.timeout == 0
                    || w.now >= w.shared.lastCrash.value + cfg.timeout * 1_000_000_000;
      && w'.tasks[id] == Done(if rested then CrashRestart else TooSoon)
      && w'.restarts == (if rested then w.restarts + [w'.now] else w.restarts)
      && w'.shared == (if rested then w.shared.(lastCrash := Some(w'.now)) else w.shared)
  {
    TooSoonMeaning(cfg, w.shared.lastCrash, w.now);
  }

  // ----- planned exits

  predicate OnCrashPath(phase: Phase) {
    || phase.Unplanned? || phase.Claiming? || phase.Crashed?
    || (phase.Done? && phase.outcome in {Ignored, CleanExit, TooSoon, CrashRestart})
  }

  predicate Crashing(w: World, id: nat) {
    id in w.tasks && OnCrashPath(w.tasks[id])
  }

  /** If the task looks in this step, the flag is set that makes its exit a planned one. */
  predicate LooksPlanned(w: World, w': World, id: nat, restart: bool) {
    id in w.tasks && id in w'.tasks && w'.tasks[id] != w.tasks[id] && !w'.tasks[id].Aborted? ==>
      if restart then w.tasks[id].Exited? ==> w.shared.restarting
      else w.tasks[id].NotRestarting? ==> w.shared.stopping
  }

  /** An exit is never treated as a crash by a task that, when it looks, finds a restart, or a stop, under
      way. */
  lemma {:induction false} PlannedExitIsNoCrash(cfg: Config, run: seq<World>, id: nat, restart: bool)
    requires IsRun(cfg, run)
    requires forall i :: 0 <= i < |run| - 1 ==> LooksPlanned(run[i], run[i + 1], id, restart)
    ensures !Crashing(run[|run| - 1], id)
    ensures var w := run[|run| - 1]; restart && id in w.tasks ==> !w.tasks[id].NotRestarting?
  {
    var n := |run| - 1;
    if n > 0 {
      assert forall i :: 0 <= i < n ==> run[..n][i] == run[i];
      PlannedExitIsNoCrash(cfg, run[..n], id, restart);
      assert LooksPlanned(run[n - 1], run[n], id, restart);
      StepOffCrashPath(cfg, run[n - 1], run[n], id, restart);
    }
  }

  lemma StepOffCrashPath(cfg: Config, w: World, w': World, id: nat, restart: bool)
    requires Steps(cfg, w, w') && LooksPlanned(w, w', id, restart) && !Crashing(w, id)
    requires restart && id in w.tasks ==> !w.tasks[id].NotRestarting?
    ensures !Crashing(w', id)
    ensures restart && id in w'.tasks ==> !w'.tasks[id].NotRestarting?
  {
    var action :| Step(cfg, w, action, w');
  }

  // ----- crashes and containers

  /** Where the crash flag is never cleared once set, a task that starts to look afterwards treats no
      exit as a crash: at most it ignores it. */
  predicate Uncleared(w: World, w': World) {
    w.shared.crashHandled ==> w'.shared.crashHandled
  }

  predicate Claims(w: World, id: nat) {
    id in w.tasks && (w.tasks[id].Claiming? || w.tasks[id].Crashed?
      || (w.tasks[id].Done? && w.tasks[id].outcome in {CleanExit, TooSoon, CrashRestart}))
  }

  lemma {:induction false} HandledCrashStaysHandled(cfg: Config, run: seq<World>, id: nat)
    requires run != [] && forall i :: 0 <= i < |run| - 1 ==> Steps(cfg, run[i], run[i + 1])
    requires forall i :: 0 <= i < |run| - 1 ==> Uncleared(run[i], run[i + 1])
    requires run[0].shared.crashHandled && !Claims(run[0], id)
    ensures run[|run| - 1].shared.crashHandled && !Claims(run[|run| - 1], id)
  {
    var n := |run| - 1;
    if n > 0 {
      assert forall i :: 0 <= i < n ==> run[..n][i] == run[i];
      HandledCrashStaysHandled(cfg, run[..n], id);
      assert Uncleared(run[n - 1], run[n]);
      StepClaimsNothing(cfg, run[n - 1], run[n], id);
    }
  }

  lemma StepClaimsNothing(cfg: Config, w: World, w': World, id: nat)
    requires Steps(cfg, w, w') && w.shared.crashHandled && !Claims(w, id)
    ensures !Claims(w', id)
  {
    var action :| Step(cfg, w, action, w');
  }
}
