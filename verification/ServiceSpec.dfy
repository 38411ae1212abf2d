/**
 One supervised service as a state machine: what each entry point of the service
 supervisor does to the service record, and what it does to the outside world.

 The operating system is an input. `Env` carries the answers that stat, fork, kill,
 the monotonic clock and the timer facility give during one event.
 */
module ServiceSpec {

  /** The attribute bits that the supervisor tests or changes. */
  datatype Attr = Attr(
    invalid: bool, once: bool, needRestart: bool, needStop: bool,
    critical: bool, onDemand: bool, timerStart: bool, period: bool)

  /** An argument vector. `ptr` is the heap block that holds it, 0 when there is none. */
  datatype Args = Args(ptr: nat, argv: seq<string>)

  const NoArgs := Args(0, [])

  datatype TimerKind = StartTimer | RestartTimer

  /** `Created` is a handle whose start failed: it never fires. */
  datatype Timer = NoTimer | Created | Armed(kind: TimerKind, deadline: nat)

  datatype Config = Config(crashCount: int, crashTime: int, periodMs: nat, pathArgs: seq<string>, sigterm: bool)

  datatype State = State(
    cfg: Config,
    pid: int,
    attr: Attr,
    crashCnt: int,
    firstCrashTime: nat,
    timer: Timer,
    onDemandArgs: Args)

  /** Answers of the operating system. `now` is in milliseconds; `forkPid <= 0` is a failed fork. */
  datatype Env = Env(
    now: nat, statOk: bool, forkPid: int, killOk: bool,
    timerCreateOk: bool, timerStartOk: bool, consoleWatchFails: bool)

  datatype Output =
    | Alloc(ptr: nat)
    | Free(ptr: nat)
    | Fork(pid: int, args: Args)
    | Kill(pid: int, sigterm: bool)
    | Restart(sec: nat)
    | Panic

  /** The new state of a service together with what became visible outside. */
  datatype Effect = Effect(s: State, out: seq<Output>)

  const SEC_TO_MSEC := 1000
  const U32_MOD := 0x1_0000_0000
  const DATA_PREFIX := "/data/"

  function Sec(now: nat): nat { now / SEC_TO_MSEC }

  function AllocOut(a: Args): seq<Output> { if a.ptr == 0 then [] else [Alloc(a.ptr)] }

  function FreeOut(a: Args): seq<Output> { if a.ptr == 0 then [] else [Free(a.ptr)] }

  function PathArgs(s: State): Args { Args(0, s.cfg.pathArgs) }

  // ---- Starting -------------------------------------------------------------------

  function StartStep(s: State, args: Args, env: Env): Effect {
    if s.pid > 0 || |args.argv| == 0 || s.attr.invalid then
      Effect(s, [])
    else
      var s1 := s.(attr := s.attr.(needRestart := false, needStop := false));
      if !env.statOk then
        Effect(if DATA_PREFIX <= args.argv[0] then s1 else s1.(attr := s1.attr.(invalid := true)), [])
      else if env.forkPid <= 0 then
        Effect(s1, [])
      else
        Effect(s1.(pid := env.forkPid), [Fork(env.forkPid, args)])
  }

  /** A start request by name. `extra` holds the arguments that followed the name, if any. */
  function StartByNameStep(s: State, extra: Args, env: Env): Effect {
    var e := StartStep(s, if extra.argv != [] then extra else PathArgs(s), env);
    Effect(e.s, AllocOut(extra) + e.out + FreeOut(extra))
  }

  function StartLaterStep(s: State, extra: Args, env: Env): Effect {
    var s1 := s.(attr := s.attr.(needRestart := true), onDemandArgs := extra);
    StartStep(s1, PathArgs(s1), env)
  }

  function StartNowStep(s: State, extra: Args, env: Env): Effect {
    var s1 := s.(attr := s.attr.(needRestart := false));
    StartStep(s1, if extra.argv != [] then extra else PathArgs(s1), env)
  }

  function OnDemandStep(s: State, extra: Args, env: Env): Effect {
    if !s.attr.onDemand then
      Effect(s, AllocOut(extra) + FreeOut(extra))
    else
      var s1 := s.(onDemandArgs := NoArgs);
      var cleared := AllocOut(extra) + FreeOut(s.onDemandArgs);
      if s.pid > 0 then
        var e := StartLaterStep(s1, extra, env);
        Effect(e.s, cleared + e.out)
      else
        var e := StartNowStep(s1, extra, env);
        Effect(e.s, cleared + e.out + FreeOut(extra))
  }

  // ---- Stopping -------------------------------------------------------------------

  function StopTimerStep(s: State): State {
    if s.attr.timerStart then s.(timer := NoTimer, attr := s.attr.(timerStart := false)) else s
  }

  /** Stop and term differ only in the signal they send. */
  function StopStep(s: State, sigterm: bool, env: Env): Effect {
    var s1 := s.(onDemandArgs := NoArgs, attr := s.attr.(needRestart := false, needStop := true));
    var out := FreeOut(s.onDemandArgs);
    if s.pid <= 0 then
      Effect(s1, out)
    else
      var s2 := StopTimerStep(s1);
      if !env.killOk then Effect(s2, out) else Effect(s2.(pid := -1), out + [Kill(s.pid, sigterm)])
  }

  // ---- Crash accounting -----------------------------------------------------------

  function IntervalTime(start: int, end: int): int {
    (if end > start then end - start else start - end) % U32_MOD
  }

  /** The crash record after one more crash, and whether the limit is still respected. */
  function CrashStep(s: State, env: Env): (r: (State, bool)) {
    var cur := Sec(env.now);
    if s.cfg.crashTime <= 0 || s.cfg.crashCount <= 0 then
      (s, false)
    else if s.crashCnt == 0 then
      (s.(firstCrashTime := cur % U32_MOD, crashCnt := 1), 1 != s.cfg.crashCount)
    else if IntervalTime(s.firstCrashTime, cur) > s.cfg.crashTime then
      (s.(firstCrashTime := cur % U32_MOD, crashCnt := 1), true)
    else
      (s.(crashCnt := s.crashCnt + 1), s.crashCnt + 1 < s.cfg.crashCount)
  }

  // ---- Timers ---------------------------------------------------------------------

  function ArmTimerStep(s: State, kind: TimerKind, timeoutMs: nat, env: Env): State {
    var s1 := StopTimerStep(s);
    if !env.timerCreateOk then s1
    else if !env.timerStartOk then s1.(timer := Created)
    else s1.(timer := Armed(kind, env.now + timeoutMs), attr := s1.attr.(timerStart := true))
  }

  function TimerFireStep(s: State, env: Env): Effect {
    var s1 := StopTimerStep(s);
    StartStep(s1, PathArgs(s1), env)
  }

  // ---- Reaping --------------------------------------------------------------------

  function RestartStep(s: State, onDemandArgs: Args, env: Env): Effect {
    var args := if s.attr.needRestart && onDemandArgs.argv != [] then onDemandArgs else PathArgs(s);
    var e := StartStep(s, args, env);
    Effect(e.s.(attr := e.s.attr.(needRestart := false)), [Restart(Sec(env.now))] + e.out)
  }

  function CrashTimeoutMs(s: State): nat {
    if s.cfg.crashTime > 0 then s.cfg.crashTime * SEC_TO_MSEC else 0
  }

  function HandleExitStep(s: State, onDemandArgs: Args, env: Env): Effect {
    if s.attr.invalid || s.attr.timerStart then
      Effect(s, [])
    else if s.attr.needStop then
      Effect(s.(attr := s.attr.(needStop := false), crashCnt := 0), [])
    else if s.attr.once && !s.attr.needRestart then
      Effect(s, [])
    else if s.attr.period then
      Effect(ArmTimerStep(s, StartTimer, s.cfg.periodMs, env), [])
    else if s.attr.onDemand && !s.attr.needRestart then
      Effect(if env.consoleWatchFails then s.(attr := s.attr.(invalid := true)) else s, [])
    else if s.attr.critical then
      var (s1, ok) := CrashStep(s, env);
      var e := RestartStep(s1, onDemandArgs, env);
      Effect(e.s, (if ok then [] else [Panic]) + e.out)
    else if !s.attr.needRestart then
      var (s1, ok) := CrashStep(s, env);
      if !ok then
        Effect(ArmTimerStep(s1.(crashCnt := 0), RestartTimer, CrashTimeoutMs(s1), env), [])
      else
        RestartStep(s1, onDemandArgs, env)
    else
      RestartStep(s, onDemandArgs, env)
  }

  function ReapStep(s: State, env: Env): Effect {
    var e := HandleExitStep(s.(onDemandArgs := NoArgs, pid := -1), s.onDemandArgs, env);
    var s1 := if e.s.attr.onDemand && e.s.pid <= 0 then e.s.(attr := e.s.attr.(needRestart := false)) else e.s;
    Effect(s1, e.out + FreeOut(s.onDemandArgs))
  }

  // ---- Events and runs ------------------------------------------------------------

  datatype Event =
    | StartByName(extra: Args, env: Env)
    | OnDemand(extra: Args, env: Env)
    | Stop(env: Env)
    | Term(env: Env)
    | StopAll(markInvalid: bool, env: Env)
    | Reap(env: Env)
    | TimerFire(env: Env)
    | TimerStart(timeoutMs: nat, env: Env)
    | TimerStop(env: Env)

  function Step(s: State, ev: Event): Effect {
    match ev
    case StartByName(extra, env) => StartByNameStep(s, extra, env)
    case OnDemand(extra, env) => OnDemandStep(s, extra, env)
    case Stop(env) => StopStep(s, s.cfg.sigterm, env)
    case Term(env) => StopStep(s, true, env)
    case StopAll(mark, env) =>
      StopStep(s.(attr := s.attr.(invalid := s.attr.invalid || mark)), s.cfg.sigterm, env)
    case Reap(env) => ReapStep(s, env)
    case TimerFire(env) => TimerFireStep(s, env)
    case TimerStart(timeoutMs, env) => Effect(ArmTimerStep(s, StartTimer, timeoutMs, env), [])
    case TimerStop(env) => Effect(StopTimerStep(s), [])
  }

  /**
   When the loop of init can deliver `ev`: a child is reaped for a recorded pid, a timer fires when due,
   and the arguments of a request sit in a block that the allocator did not hand out already.
   */
  predicate Enabled(s: State, ev: Event) {
    match ev
    case StartByName(extra, _) => FreshArgs(s, extra)
    case OnDemand(extra, _) => FreshArgs(s, extra)
    case Reap(_) => s.pid > 0
    case TimerFire(env) => s.timer.Armed? && s.timer.deadline <= env.now
    case _ => true
  }

  predicate FreshArgs(s: State, a: Args) {
    if a.ptr == 0 then a.argv == [] else a.ptr != s.onDemandArgs.ptr
  }

  function Run(s: State, evs: seq<Event>): Effect {
    if evs == [] then Effect(s, [])
    else
      var before := Run(s, evs[..|evs| - 1]);
      var e := Step(before.s, evs[|evs| - 1]);
      Effect(e.s, before.out + e.out)
  }

  /** The clock reading of the last event. */
  function Clock(evs: seq<Event>): nat { if evs == [] then 0 else evs[|evs| - 1].env.now }

  /** A run: every event is enabled where it happens and the monotonic clock does not go back. */
  predicate Legal(s: State, evs: seq<Event>) {
    evs == [] ||
    var before, ev := evs[..|evs| - 1], evs[|evs| - 1];
    Legal(s, before) && Enabled(Run(s, before).s, ev) && Clock(before) <= ev.env.now
  }
}
