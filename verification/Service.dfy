/**
 The service record itself and the supervisor operations that update it in place.
 Every operation is proved to take the step that `ServiceSpec` describes, so the runs
 proved there and in its companion modules are runs of these methods.
 */
module Services {
  import opened ServiceSpec

  const SERVICE_SUCCESS := 0
  const SERVICE_FAILURE := -1

  const SERVICE_ATTR_INVALID: bv32 := 0x001
  const SERVICE_ATTR_ONCE: bv32 := 0x002
  const SERVICE_ATTR_NEED_RESTART: bv32 := 0x004
  const SERVICE_ATTR_NEED_STOP: bv32 := 0x008
  const SERVICE_ATTR_CRITICAL: bv32 := 0x020
  const SERVICE_ATTR_ONDEMAND: bv32 := 0x100
  const SERVICE_ATTR_TIMERSTART: bv32 := 0x200
  const SERVICE_ATTR_PERIOD: bv32 := 0x8000

  predicate Has(attribute: bv32, mask: bv32) { attribute & mask != 0 }

  /** What the bits of the attribute word say. */
  function Flags(a: bv32): Attr {
    Attr(Has(a, SERVICE_ATTR_INVALID), Has(a, SERVICE_ATTR_ONCE), Has(a, SERVICE_ATTR_NEED_RESTART),
         Has(a, SERVICE_ATTR_NEED_STOP), Has(a, SERVICE_ATTR_CRITICAL), Has(a, SERVICE_ATTR_ONDEMAND),
         Has(a, SERVICE_ATTR_TIMERSTART), Has(a, SERVICE_ATTR_PERIOD))
  }

  /** The bits that come from the configuration and that no operation of the supervisor touches. */
  function Configured(a: bv32): bv32 { a & 0xFFFF_FDF2 }

  method SetInvalid(a: bv32) returns (b: bv32)
    ensures Flags(b) == Flags(a).(invalid := true) && Configured(b) == Configured(a)
  {
    b := a | SERVICE_ATTR_INVALID;
  }

  method SetNeedRestart(a: bv32) returns (b: bv32)
    ensures Flags(b) == Flags(a).(needRestart := true) && Configured(b) == Configured(a)
  {
    b := a | SERVICE_ATTR_NEED_RESTART;
  }

  method ClearNeedRestart(a: bv32) returns (b: bv32)
    ensures Flags(b) == Flags(a).(needRestart := false) && Configured(b) == Configured(a)
  {
    assert Flags(a & !SERVICE_ATTR_NEED_RESTART) == Flags(a).(needRestart := false);
    assert Configured(a & !SERVICE_ATTR_NEED_RESTART) == Configured(a);
    b := a & !SERVICE_ATTR_NEED_RESTART;
  }

  method SetNeedStop(a: bv32) returns (b: bv32)
    ensures Flags(b) == Flags(a).(needStop := true) && Configured(b) == Configured(a)
  {
    b := a | SERVICE_ATTR_NEED_STOP;
  }

  method ClearNeedStop(a: bv32) returns (b: bv32)
    ensures Flags(b) == Flags(a).(needStop := false) && Configured(b) == Configured(a)
  {
    assert Flags(a & !SERVICE_ATTR_NEED_STOP) == Flags(a).(needStop := false);
    assert Configured(a & !SERVICE_ATTR_NEED_STOP) == Configured(a);
    b := a & !SERVICE_ATTR_NEED_STOP;
  }

  method ClearBoth(a: bv32) returns (b: bv32)
    ensures Flags(b) == Flags(a).(needRestart := false, needStop := false) && Configured(b) == Configured(a)
  {
    assert Flags(a & !(SERVICE_ATTR_NEED_RESTART | SERVICE_ATTR_NEED_STOP)) == Flags(a).(needRestart := false, needStop := false);
    assert Configured(a & !(SERVICE_ATTR_NEED_RESTART | SERVICE_ATTR_NEED_STOP)) == Configured(a);
    b := a & !(SERVICE_ATTR_NEED_RESTART | SERVICE_ATTR_NEED_STOP);
  }

  method SetTimerStart(a: bv32) returns (b: bv32)
    ensures Flags(b) == Flags(a).(timerStart := true) && Configured(b) == Configured(a)
  {
    b := a | SERVICE_ATTR_TIMERSTART;
  }

  method ClearTimerStart(a: bv32) returns (b: bv32)
    ensures Flags(b) == Flags(a).(timerStart := false) && Configured(b) == Configured(a)
  {
    assert Flags(a & !SERVICE_ATTR_TIMERSTART) == Flags(a).(timerStart := false);
    assert Configured(a & !SERVICE_ATTR_TIMERSTART) == Configured(a);
    b := a & !SERVICE_ATTR_TIMERSTART;
  }

  lemma Joined(a: seq<Output>, b: seq<Output>, c: seq<Output>)
    ensures (a + b) + c == a + (b + c)
  {
  }

  class Service {
    const cfg: Config
    ghost const configured: bv32
    var pid: int
    var attribute: bv32
    ghost var attr: Attr
    var crashCnt: int
    var firstCrashTime: nat
    var timer: Timer
    var onDemandArgs: Args
    ghost var log: seq<Output>

    /** The attribute word holds the flags, and in its other bits what the configuration put there. */
    ghost predicate Valid()
      reads this`attribute, this`attr
    {
      Flags(attribute) == attr && Configured(attribute) == configured
    }

    ghost function View(): State
      reads this
    {
      State(cfg, pid, attr, crashCnt, firstCrashTime, timer, onDemandArgs)
    }

    /** The method took the step `e` from a state whose log was `before`. */
    ghost predicate Took(e: Effect, before: seq<Output>)
      reads this
    {
      Valid() && View() == e.s && log == before + e.out
    }

    constructor (cfg: Config, attribute: bv32)
      ensures Valid() && View() == State(cfg, -1, Flags(attribute), 0, 0, NoTimer, NoArgs) && log == []
      ensures this.attribute == attribute && configured == Configured(attribute)
    {
      this.cfg := cfg;
      this.attribute := attribute;
      attr := Flags(attribute);
      configured := Configured(attribute);
      pid := -1;
      crashCnt := 0;
      firstCrashTime := 0;
      timer := NoTimer;
      onDemandArgs := NoArgs;
      log := [];
    }

    // ---- The attribute word -----------------------------------------------------------

    predicate IsInvalid()
      requires Valid()
      reads this`attribute, this`attr
      ensures IsInvalid() == attr.invalid
    {
      Has(attribute, SERVICE_ATTR_INVALID)
    }

    predicate IsOnce()
      requires Valid()
      reads this`attribute, this`attr
      ensures IsOnce() == attr.once
    {
      Has(attribute, SERVICE_ATTR_ONCE)
    }

    predicate NeedsRestart()
      requires Valid()
      reads this`attribute, this`attr
      ensures NeedsRestart() == attr.needRestart
    {
      Has(attribute, SERVICE_ATTR_NEED_RESTART)
    }

    predicate NeedsStop()
      requires Valid()
      reads this`attribute, this`attr
      ensures NeedsStop() == attr.needStop
    {
      Has(attribute, SERVICE_ATTR_NEED_STOP)
    }

    predicate IsCritical()
      requires Valid()
      reads this`attribute, this`attr
      ensures IsCritical() == attr.critical
    {
      Has(attribute, SERVICE_ATTR_CRITICAL)
    }

    predicate IsOnDemand()
      requires Valid()
      reads this`attribute, this`attr
      ensures IsOnDemand() == attr.onDemand
    {
      Has(attribute, SERVICE_ATTR_ONDEMAND)
    }

    predicate IsTimerStarted()
      requires Valid()
      reads this`attribute, this`attr
      ensures IsTimerStarted() == attr.timerStart
    {
      Has(attribute, SERVICE_ATTR_TIMERSTART)
    }

    predicate IsPeriodic()
      requires Valid()
      reads this`attribute, this`attr
      ensures IsPeriodic() == attr.period
    {
      Has(attribute, SERVICE_ATTR_PERIOD)
    }

    method ServiceStart(pathArgs: Args, env: Env) returns (ret: int)
      requires Valid()
      modifies this
      ensures Took(StartStep(old(View()), pathArgs, env), old(log))
      ensures ret == (if pid > 0 then SERVICE_SUCCESS else SERVICE_FAILURE)
    {
      if pid > 0 {
        return SERVICE_SUCCESS;
      }
      if |pathArgs.argv| == 0 {
        return SERVICE_FAILURE;
      }
      var invalid := IsServiceInvalid(pathArgs, env);
      if invalid {
        return SERVICE_FAILURE;
      }
      if env.forkPid <= 0 {
        return SERVICE_FAILURE;
      }
      pid := env.forkPid;
      log := log + [Fork(pid, pathArgs)];
      return SERVICE_SUCCESS;
    }

    method IsServiceInvalid(pathArgs: Args, env: Env) returns (invalid: bool)
      requires Valid()
      requires |pathArgs.argv| > 0
      modifies this`attribute, this`attr
      ensures invalid <==> old(attr).invalid || !env.statOk
      ensures Valid() && attr ==
              if old(attr).invalid then old(attr)
              else old(attr).(needRestart := false, needStop := false,
                                     invalid := !env.statOk && !(DATA_PREFIX <= pathArgs.argv[0]))
    {
      if IsInvalid() {
        return true;
      }
      attribute := ClearBoth(attribute);
      attr := attr.(needRestart := false, needStop := false);
      if !env.statOk {
        if !(DATA_PREFIX <= pathArgs.argv[0]) {
          attribute := SetInvalid(attribute);
          attr := attr.(invalid := true);
        }
        return true;
      }
      return false;
    }

    method ServiceStopTimer()
      requires Valid()
      modifies this`timer, this`attribute, this`attr
      ensures Valid() && View() == StopTimerStep(old(View()))
    {
      if IsTimerStarted() {
        timer := NoTimer;
        attribute := ClearTimerStart(attribute);
        attr := attr.(timerStart := false);
      }
    }

    /** What a stop forgets, and the mark it leaves for the reap. */
    method ForgetRequests()
      requires Valid()
      modifies this`onDemandArgs, this`log, this`attribute, this`attr
      ensures Valid() && attr == old(attr).(needRestart := false, needStop := true)
      ensures onDemandArgs == NoArgs && log == old(log) + FreeOut(old(onDemandArgs))
    {
      ClearOnDemandServiceArgs();
      attribute := ClearNeedRestart(attribute);
      attr := attr.(needRestart := false);
      attribute := SetNeedStop(attribute);
      attr := attr.(needStop := true);
    }

    /** Stop sends the configured signal of the service, term sends SIGTERM. */
    method ServiceStop(sigterm: bool, env: Env) returns (ret: int)
      requires Valid()
      modifies this
      ensures Took(StopStep(old(View()), sigterm, env), old(log))
      ensures ret == (if pid <= 0 then SERVICE_SUCCESS else SERVICE_FAILURE)
    {
      ForgetRequests();
      if pid <= 0 {
        return SERVICE_SUCCESS;
      }
      if IsTimerStarted() {
        ServiceStopTimer();
      }
      if !env.killOk {
        return SERVICE_FAILURE;
      }
      Joined(old(log), FreeOut(old(onDemandArgs)), [Kill(pid, sigterm)]);
      log := log + [Kill(pid, sigterm)];
      pid := -1;
      return SERVICE_SUCCESS;
    }

    method ClearOnDemandServiceArgs()
      requires Valid()
      modifies this`onDemandArgs, this`log
      ensures onDemandArgs == NoArgs && log == old(log) + FreeOut(old(onDemandArgs))
    {
      log := log + FreeOut(onDemandArgs);
      onDemandArgs := NoArgs;
    }

    method CalculateCrashTime(env: Env) returns (withinLimit: bool)
      requires Valid()
      modifies this`crashCnt, this`firstCrashTime
      ensures Valid() && (View(), withinLimit) == CrashStep(old(View()), env)
    {
      if cfg.crashTime <= 0 || cfg.crashCount <= 0 {
        return false;
      }
      var cur := Sec(env.now);
      if crashCnt == 0 {
        firstCrashTime := cur % U32_MOD;
        crashCnt := crashCnt + 1;
        if crashCnt == cfg.crashCount {
          return false;
        }
      } else if IntervalTime(firstCrashTime, cur) > cfg.crashTime {
        firstCrashTime := cur % U32_MOD;
        crashCnt := 1;
      } else {
        crashCnt := crashCnt + 1;
        if crashCnt >= cfg.crashCount {
          return false;
        }
      }
      return true;
    }

    method ServiceArmTimer(kind: TimerKind, timeoutMs: nat, env: Env)
      requires Valid()
      modifies this`timer, this`attribute, this`attr
      ensures Valid() && View() == ArmTimerStep(old(View()), kind, timeoutMs, env)
    {
      if IsTimerStarted() {
        ServiceStopTimer();
      }
      if !env.timerCreateOk {
        return;
      }
      timer := Created;
      if !env.timerStartOk {
        return;
      }
      timer := Armed(kind, env.now + timeoutMs);
      attribute := SetTimerStart(attribute);
      attr := attr.(timerStart := true);
    }

    /** Both timer callbacks: cancel the timer, then start with the configured arguments. */
    method ServiceTimerProcess(env: Env)
      requires Valid()
      modifies this
      ensures Took(TimerFireStep(old(View()), env), old(log))
    {
      ServiceStopTimer();
      var _ := ServiceStart(Args(0, cfg.pathArgs), env);
    }

    method ExecuteServiceRestart(args: Args, env: Env)
      requires Valid()
      modifies this
      ensures Took(RestartStep(old(View()), args, env), old(log))
    {
      var pathArgs := Args(0, cfg.pathArgs);
      if NeedsRestart() && args.argv != [] {
        pathArgs := args;
      }
      log := log + [Restart(Sec(env.now))];
      var _ := ServiceStart(pathArgs, env);
      attribute := ClearNeedRestart(attribute);
      attr := attr.(needRestart := false);
    }

    method HandleServiceExit(args: Args, env: Env)
      requires Valid()
      modifies this
      ensures Took(HandleExitStep(old(View()), args, env), old(log))
    {
      if IsInvalid() {
        return;
      }
      if IsTimerStarted() {
        return;
      }
      if NeedsStop() {
        attribute := ClearNeedStop(attribute);
        attr := attr.(needStop := false);
        crashCnt := 0;
        return;
      }
      if IsOnce() && !NeedsRestart() {
        return;
      }
      if IsPeriodic() {
        ServiceArmTimer(StartTimer, cfg.periodMs, env);
        return;
      }
      if IsOnDemand() && !NeedsRestart() {
        if env.consoleWatchFails {
          attribute := SetInvalid(attribute);
          attr := attr.(invalid := true);
        }
        return;
      }
      if IsCritical() {
        var ok := CalculateCrashTime(env);
        if !ok {
          log := log + [Panic];
        }
      } else if !NeedsRestart() {
        var ok := CalculateCrashTime(env);
        if !ok {
          crashCnt := 0;
          ServiceArmTimer(RestartTimer, if cfg.crashTime > 0 then cfg.crashTime * SEC_TO_MSEC else 0, env);
          return;
        }
      }
      ExecuteServiceRestart(args, env);
    }

    method ServiceReap(env: Env)
      requires Valid()
      modifies this
      ensures Took(ReapStep(old(View()), env), old(log))
    {
      var args := onDemandArgs;
      onDemandArgs := NoArgs;
      pid := -1;
      HandleServiceExit(args, env);
      if IsOnDemand() && pid <= 0 {
        attribute := ClearNeedRestart(attribute);
        attr := attr.(needRestart := false);
      }
      log := log + FreeOut(args);
    }

    /** A start request whose arguments, if it brought any, were just allocated. */
    method StartServiceByName(extra: Args, env: Env)
      requires Valid()
      modifies this
      ensures Took(StartByNameStep(old(View()), extra, env), old(log))
    {
      log := log + AllocOut(extra);
      var pathArgs := Args(0, cfg.pathArgs);
      if extra.argv != [] {
        pathArgs := extra;
      }
      var _ := ServiceStart(pathArgs, env);
      log := log + FreeOut(extra);
    }

    method StartOnDemandServiceByName(extra: Args, env: Env)
      requires Valid()
      modifies this
      ensures Took(OnDemandStep(old(View()), extra, env), old(log))
    {
      log := log + AllocOut(extra);
      if !IsOnDemand() {
        log := log + FreeOut(extra);
        return;
      }
      ClearOnDemandServiceArgs();
      ghost var s1, cleared := View(), AllocOut(extra) + FreeOut(old(onDemandArgs));
      Joined(old(log), AllocOut(extra), FreeOut(old(onDemandArgs)));
      if pid > 0 {
        StartOnDemandServiceLater(extra, env);
        Joined(old(log), cleared, StartLaterStep(s1, extra, env).out);
      } else {
        StartOnDemandServiceNow(extra, env);
        log := log + FreeOut(extra);
        Joined(old(log), cleared, StartNowStep(s1, extra, env).out);
        Joined(old(log), cleared + StartNowStep(s1, extra, env).out, FreeOut(extra));
      }
    }

    method StartOnDemandServiceLater(extra: Args, env: Env)
      requires Valid()
      modifies this
      ensures Took(StartLaterStep(old(View()), extra, env), old(log))
    {
      attribute := SetNeedRestart(attribute);
      attr := attr.(needRestart := true);
      onDemandArgs := extra;
      var _ := ServiceStart(Args(0, cfg.pathArgs), env);
    }

    method StartOnDemandServiceNow(extra: Args, env: Env)
      requires Valid()
      modifies this
      ensures Took(StartNowStep(old(View()), extra, env), old(log))
    {
      attribute := ClearNeedRestart(attribute);
      attr := attr.(needRestart := false);
      var pathArgs := if extra.argv != [] then extra else Args(0, cfg.pathArgs);
      var _ := ServiceStart(pathArgs, env);
    }
  }
}
