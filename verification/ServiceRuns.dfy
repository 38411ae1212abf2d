/** What every run of supervisor events keeps of one service record. */
module ServiceRuns {
  import opened ServiceSpec

  /** The timer flag and the timer agree, and the first crash time fits its 32-bit field. */
  predicate Linked(s: State) {
    (s.attr.timerStart <==> s.timer.Armed?) && s.firstCrashTime < U32_MOD
  }

  /** Fixed configuration: what no supervisor event changes. */
  predicate SameConfig(s: State, t: State) {
    && t.cfg == s.cfg && t.attr.onDemand == s.attr.onDemand && t.attr.critical == s.attr.critical
    && t.attr.once == s.attr.once && t.attr.period == s.attr.period
    && (s.attr.invalid ==> t.attr.invalid)
  }

  predicate SameCrashes(s: State, t: State) {
    t.crashCnt == s.crashCnt && t.firstCrashTime == s.firstCrashTime
  }

  lemma StartFrame(s: State, args: Args, env: Env)
    ensures var t := StartStep(s, args, env).s;
            && SameConfig(s, t) && SameCrashes(s, t)
            && t.timer == s.timer && t.attr.timerStart == s.attr.timerStart && t.onDemandArgs == s.onDemandArgs
            && (t.attr.needRestart ==> s.attr.needRestart) && (s.pid > 0 ==> t == s)
    ensures s.attr.invalid ==> StartStep(s, args, env).out == []
  {
  }

  lemma RestartFrame(s: State, args: Args, env: Env)
    ensures var t := RestartStep(s, args, env).s;
            && SameConfig(s, t) && SameCrashes(s, t)
            && t.timer == s.timer && t.attr.timerStart == s.attr.timerStart && t.onDemandArgs == s.onDemandArgs
            && !t.attr.needRestart
  {
    StartFrame(s, if s.attr.needRestart && args.argv != [] then args else PathArgs(s), env);
  }

  lemma CrashFrame(s: State, env: Env)
    ensures var t := CrashStep(s, env).0;
            && t.cfg == s.cfg && t.attr == s.attr && t.pid == s.pid && t.timer == s.timer
            && t.onDemandArgs == s.onDemandArgs && (Linked(s) ==> Linked(t))
  {
  }

  /** The time between two readings of the clock, whichever is the later, in 32 bits. */
  lemma IntervalIsDistance(a: int, b: int)
    ensures IntervalTime(a, b) == IntervalTime(b, a) && 0 <= IntervalTime(a, b) < 0x1_0000_0000
    ensures a <= b < a + 0x1_0000_0000 ==> IntervalTime(a, b) == b - a
  {
  }

  lemma ExitFrame(s: State, args: Args, env: Env)
    requires s.pid <= 0
    ensures var t := HandleExitStep(s, args, env).s;
            && SameConfig(s, t) && t.onDemandArgs == s.onDemandArgs && (Linked(s) ==> Linked(t))
            && (t.attr.needRestart ==> s.attr.needRestart && t.pid <= 0)
  {
    CrashFrame(s, env);
    RestartFrame(s, args, env);
    RestartFrame(CrashStep(s, env).0, args, env);
  }

  predicate NoFork(out: seq<Output>) { forall o | o in out :: !o.Fork? }

  lemma OnDemandFrame(s: State, extra: Args, env: Env)
    ensures var e := OnDemandStep(s, extra, env);
            && SameConfig(s, e.s) && SameCrashes(s, e.s)
            && e.s.timer == s.timer && e.s.attr.timerStart == s.attr.timerStart
            && Panic !in e.out && (s.attr.invalid ==> NoFork(e.out))
  {
    var s1 := s.(onDemandArgs := NoArgs, attr := s.attr.(needRestart := false));
    StartFrame(s1, if extra.argv != [] then extra else PathArgs(s1), env);
  }

  lemma StopFrame(s: State, sigterm: bool, env: Env)
    ensures var e := StopStep(s, sigterm, env);
            SameConfig(s, e.s) && SameCrashes(s, e.s) && Panic !in e.out && NoFork(e.out)
  {
  }

  lemma StartByNameFrame(s: State, extra: Args, env: Env)
    ensures var e := StartByNameStep(s, extra, env);
            && SameConfig(s, e.s) && SameCrashes(s, e.s)
            && e.s.timer == s.timer && e.s.attr.timerStart == s.attr.timerStart && e.s.onDemandArgs == s.onDemandArgs
            && (e.s.attr.needRestart ==> s.attr.needRestart) && (s.pid > 0 ==> e.s == s)
            && Panic !in e.out && (s.attr.invalid ==> NoFork(e.out))
  {
    StartFrame(s, if extra.argv != [] then extra else PathArgs(s), env);
  }

  lemma TimerFireFrame(s: State, env: Env)
    ensures var e := TimerFireStep(s, env);
            && SameConfig(s, e.s) && SameCrashes(s, e.s) && e.s.onDemandArgs == s.onDemandArgs
            && e.s.attr.timerStart == false && (s.attr.timerStart ==> e.s.timer == NoTimer)
            && (!s.attr.timerStart ==> e.s.timer == s.timer)
            && (e.s.attr.needRestart ==> s.attr.needRestart) && (s.pid > 0 ==> e.s.pid == s.pid)
            && (s.pid > 0 ==> e.s.attr.needRestart == s.attr.needRestart)
            && Panic !in e.out && (s.attr.invalid ==> NoFork(e.out))
  {
    StartFrame(StopTimerStep(s), PathArgs(s), env);
  }

  // ---- The on-demand protocol -----------------------------------------------------

  /** The states differ at most in the timer. */
  predicate OnlyTimer(s: State, t: State) {
    && t.cfg == s.cfg && t.pid == s.pid && t.onDemandArgs == s.onDemandArgs && SameCrashes(s, t)
    && t.attr == s.attr.(timerStart := t.attr.timerStart) && (Linked(s) ==> Linked(t))
  }

  /** What the timer commands change. */
  lemma TimerCommandFrame(s: State, timeoutMs: nat, env: Env)
    ensures OnlyTimer(s, StopTimerStep(s)) && OnlyTimer(s, ArmTimerStep(s, StartTimer, timeoutMs, env))
  {
  }

  /** Between events: a deferred restart is pending only for a running on-demand service. */
  predicate Quiescent(s: State) {
    && (s.attr.needRestart ==> s.pid > 0 && s.attr.onDemand)
    && (s.onDemandArgs != NoArgs ==> s.attr.needRestart)
    && (s.onDemandArgs.ptr == 0 ==> s.onDemandArgs.argv == [])
    && Linked(s)
  }

  lemma ReapKeepsQuiescent(s: State, env: Env)
    requires Quiescent(s)
    ensures Quiescent(ReapStep(s, env).s) && SameConfig(s, ReapStep(s, env).s)
  {
    ExitFrame(s.(onDemandArgs := NoArgs, pid := -1), s.onDemandArgs, env);
  }

  lemma OnDemandKeepsQuiescent(s: State, extra: Args, env: Env)
    requires Quiescent(s) && FreshArgs(s, extra)
    ensures Quiescent(OnDemandStep(s, extra, env).s) && SameConfig(s, OnDemandStep(s, extra, env).s)
  {
    if s.attr.onDemand && s.pid <= 0 {
      var s1 := s.(onDemandArgs := NoArgs, attr := s.attr.(needRestart := false));
      StartFrame(s1, if extra.argv != [] then extra else PathArgs(s1), env);
    }
  }

  lemma StopKeepsQuiescent(s: State, sigterm: bool, env: Env)
    requires Quiescent(s)
    ensures Quiescent(StopStep(s, sigterm, env).s) && SameConfig(s, StopStep(s, sigterm, env).s)
  {
  }

  predicate StopEvent(ev: Event) { ev.Stop? || ev.Term? || ev.StopAll? }

  predicate TimerEvent(ev: Event) { ev.TimerFire? || ev.TimerStart? || ev.TimerStop? }

  lemma StopAllKeepsQuiescent(s: State, mark: bool, env: Env)
    requires Quiescent(s)
    ensures Quiescent(Step(s, StopAll(mark, env)).s) && SameConfig(s, Step(s, StopAll(mark, env)).s)
  {
    StopKeepsQuiescent(s.(attr := s.attr.(invalid := s.attr.invalid || mark)), s.cfg.sigterm, env);
  }

  lemma StopEventKeepsQuiescent(s: State, ev: Event)
    requires Quiescent(s) && StopEvent(ev)
    ensures Quiescent(Step(s, ev).s) && SameConfig(s, Step(s, ev).s)
  {
    if ev.StopAll? {
      StopAllKeepsQuiescent(s, ev.markInvalid, ev.env);
    } else {
      StopKeepsQuiescent(s, ev.Term? || s.cfg.sigterm, ev.env);
    }
  }

  lemma TimerEventKeepsQuiescent(s: State, ev: Event)
    requires Quiescent(s) && Enabled(s, ev) && TimerEvent(ev)
    ensures Quiescent(Step(s, ev).s) && SameConfig(s, Step(s, ev).s)
  {
    match ev
    case TimerFire(env) =>
      TimerFireFrame(s, env);
    case TimerStart(timeoutMs, env) =>
      TimerCommandFrame(s, timeoutMs, env);
    case TimerStop(env) =>
      TimerCommandFrame(s, 0, env);
  }

  lemma StepKeepsQuiescent(s: State, ev: Event)
    requires Quiescent(s) && Enabled(s, ev)
    ensures Quiescent(Step(s, ev).s)
    ensures SameConfig(s, Step(s, ev).s)
  {
    if StopEvent(ev) {
      StopEventKeepsQuiescent(s, ev);
    } else if TimerEvent(ev) {
      TimerEventKeepsQuiescent(s, ev);
    } else {
      match ev
      case StartByName(extra, env) =>
        StartByNameFrame(s, extra, env);
      case OnDemand(extra, env) =>
        OnDemandKeepsQuiescent(s, extra, env);
      case Reap(env) =>
        ReapKeepsQuiescent(s, env);
    }
  }

  lemma {:induction false} RunKeepsQuiescent(s: State, evs: seq<Event>)
    requires Quiescent(s) && Legal(s, evs)
    ensures Quiescent(Run(s, evs).s)
    ensures SameConfig(s, Run(s, evs).s)
  {
    if evs != [] {
      RunKeepsQuiescent(s, evs[..|evs| - 1]);
      StepKeepsQuiescent(Run(s, evs[..|evs| - 1]).s, evs[|evs| - 1]);
    }
  }

  /** While the child runs, only starts and on-demand requests arrive. */
  predicate Waiting(evs: seq<Event>) {
    forall ev | ev in evs :: ev.StartByName? || ev.OnDemand?
  }

  /** The arguments of the last on-demand request in `evs`, or `pending` without one. */
  function LastRequest(evs: seq<Event>, pending: Args): Args {
    if evs == [] then pending
    else if evs[|evs| - 1].OnDemand? then evs[|evs| - 1].extra
    else LastRequest(evs[..|evs| - 1], pending)
  }

  predicate Requested(evs: seq<Event>) { exists ev :: ev in evs && ev.OnDemand? }

  lemma WaitingStep(s: State, ev: Event)
    requires s.attr.onDemand && s.pid > 0 && (ev.StartByName? || ev.OnDemand?)
    ensures ev.StartByName? ==> Step(s, ev).s == s
    ensures ev.OnDemand? ==> Step(s, ev).s == s.(onDemandArgs := ev.extra, attr := s.attr.(needRestart := true))
    ensures forall o | o in Step(s, ev).out :: !o.Fork?
  {
  }

  lemma {:induction false} WaitingKeepsLastRequest(s: State, evs: seq<Event>)
    requires s.attr.onDemand && s.pid > 0 && Waiting(evs)
    ensures var r := Run(s, evs);
            && r.s == s.(onDemandArgs := LastRequest(evs, s.onDemandArgs),
                         attr := s.attr.(needRestart := s.attr.needRestart || Requested(evs)))
            && forall o | o in r.out :: !o.Fork?
  {
    if evs != [] {
      var before, ev := evs[..|evs| - 1], evs[|evs| - 1];
      WaitingKeepsLastRequest(s, before);
      WaitingStep(Run(s, before).s, ev);
      assert evs == before + [ev];
      assert Requested(evs) <==> Requested(before) || ev.OnDemand?;
    }
  }

  /** The arguments that serve a request: its own, or the configured ones when it brought none. */
  function ServingArgs(s: State, request: Args): Args {
    if request.argv != [] then request else PathArgs(s)
  }

  /** Nothing took the service away while it ran: not invalid, no timer pending, no stop, no period. */
  predicate Undisturbed(s: State) {
    !s.attr.invalid && !s.attr.timerStart && !s.attr.needStop && !s.attr.period
  }

  lemma RestartServes(s: State, args: Args, env: Env)
    requires !s.attr.invalid && s.pid <= 0 && s.attr.needRestart
    requires env.statOk && env.forkPid > 0 && s.cfg.pathArgs != []
    ensures var e := RestartStep(s, args, env);
            e.out == [Restart(Sec(env.now)), Fork(env.forkPid, ServingArgs(s, args))] && e.s.pid == env.forkPid
  {
  }

  lemma ReapServes(s: State, env: Env)
    requires s.attr.onDemand && s.attr.needRestart
    requires env.statOk && env.forkPid > 0 && s.cfg.pathArgs != []
    ensures var e, fork := ReapStep(s, env), Fork(env.forkPid, ServingArgs(s, s.onDemandArgs));
            && (fork in e.out <==> Undisturbed(s))
            && (Undisturbed(s) ==> e.s.pid == env.forkPid && forall o | o in e.out && o.Fork? :: o == fork)
  {
    var s1 := s.(onDemandArgs := NoArgs, pid := -1);
    var e, fork := HandleExitStep(s1, s.onDemandArgs, env), Fork(env.forkPid, ServingArgs(s, s.onDemandArgs));
    if Undisturbed(s) {
      RestartServes(s1, s.onDemandArgs, env);
      CrashFrame(s1, env);
      RestartServes(CrashStep(s1, env).0, s.onDemandArgs, env);
      assert e.out[|e.out| - 1] == fork;
    } else {
      assert e.out == [];
    }
  }

  lemma ReapLeavesCrashesExactlyWhen(s: State, env: Env)
    requires s.attr.onDemand && s.attr.needRestart && Undisturbed(s) && s.firstCrashTime < U32_MOD
    requires s.cfg.crashCount > 0 && s.cfg.crashTime > 0
    ensures SameCrashes(s, ReapStep(s, env).s) <==> !s.attr.critical
  {
    var s1 := s.(onDemandArgs := NoArgs, pid := -1);
    RestartFrame(s1, s.onDemandArgs, env);
    RestartFrame(CrashStep(s1, env).0, s.onDemandArgs, env);
  }

  /**
   The reap that follows a deferred request starts exactly the last request, if and only if nothing
   took the service away meanwhile. The crash record is left alone if and only if the service is not critical.
   */
  lemma {:induction false} DeferredRequestIsServed(s: State, evs: seq<Event>, env: Env)
    requires Quiescent(s) && s.attr.onDemand && s.pid > 0
    requires Waiting(evs) && Requested(evs)
    requires env.statOk && env.forkPid > 0
    requires s.cfg.crashCount > 0 && s.cfg.crashTime > 0 && s.cfg.pathArgs != []
    ensures var fork := Fork(env.forkPid, ServingArgs(s, LastRequest(evs, s.onDemandArgs)));
            var e := ReapStep(Run(s, evs).s, env);
            && (fork in e.out <==> Undisturbed(s))
            && (Undisturbed(s) ==> e.s.pid == env.forkPid && (forall o | o in e.out && o.Fork? :: o == fork))
            && (Undisturbed(s) ==> (SameCrashes(s, e.s) <==> !s.attr.critical))
  {
    WaitingKeepsLastRequest(s, evs);
    var s1 := Run(s, evs).s;
    ReapServes(s1, env);
    if Undisturbed(s) {
      ReapLeavesCrashesExactlyWhen(s1, env);
    }
  }

  // ---- Ownership of argument vectors ----------------------------------------------

  /** A heap audit: `ok` until a block is handed out twice, freed when not live, or used when not live. */
  datatype Heap = Heap(ok: bool, live: set<nat>)

  function Audit(h: Heap, o: Output): Heap {
    match o
    case Alloc(p) => Heap(h.ok && p !in h.live, h.live + {p})
    case Free(p) => Heap(h.ok && p in h.live, h.live - {p})
    case Fork(_, args) => Heap(h.ok && (args.ptr == 0 || args.ptr in h.live), h.live)
    case _ => h
  }

  function AuditAll(h: Heap, out: seq<Output>): Heap {
    if out == [] then h else Audit(AuditAll(h, out[..|out| - 1]), out[|out| - 1])
  }

  /** The blocks the service record owns. */
  function Owned(s: State): set<nat> {
    if s.onDemandArgs.ptr == 0 then {} else {s.onDemandArgs.ptr}
  }

  lemma {:induction false} AuditConcat(h: Heap, a: seq<Output>, b: seq<Output>)
    ensures AuditAll(h, a + b) == AuditAll(AuditAll(h, a), b)
  {
    if b == [] {
      assert a + b == a;
    } else {
      AuditConcat(h, a, b[..|b| - 1]);
      assert (a + b)[..|a + b| - 1] == a + b[..|b| - 1];
    }
  }

  lemma AuditAllocFree(h: Heap, a: Args)
    ensures a.ptr == 0 ==> AuditAll(h, AllocOut(a)) == h && AuditAll(h, FreeOut(a)) == h
    ensures a.ptr != 0 ==> AuditAll(h, AllocOut(a)) == Audit(h, Alloc(a.ptr))
    ensures a.ptr != 0 ==> AuditAll(h, FreeOut(a)) == Audit(h, Free(a.ptr))
  {
    assert AuditAll(h, []) == h;
  }

  lemma AuditStart(h: Heap, s: State, args: Args, env: Env)
    requires h.ok && (args.ptr == 0 || args.ptr in h.live)
    ensures AuditAll(h, StartStep(s, args, env).out) == h
  {
    assert AuditAll(h, []) == h;
  }

  lemma AuditRestart(h: Heap, s: State, args: Args, env: Env)
    requires h.ok && (args.ptr == 0 || args.ptr in h.live)
    ensures AuditAll(h, RestartStep(s, args, env).out) == h
    ensures AuditAll(h, [Panic] + RestartStep(s, args, env).out) == h
  {
    var used := if s.attr.needRestart && args.argv != [] then args else PathArgs(s);
    AuditStart(h, s, used, env);
    assert AuditAll(h, []) == h;
    assert AuditAll(h, [Restart(Sec(env.now))]) == h && AuditAll(h, [Panic]) == h;
    AuditConcat(h, [Restart(Sec(env.now))], StartStep(s, used, env).out);
    AuditConcat(h, [Panic], RestartStep(s, args, env).out);
  }

  lemma ExitOutputs(s: State, args: Args, env: Env)
    ensures var out := HandleExitStep(s, args, env).out;
            var counted := RestartStep(CrashStep(s, env).0, args, env).out;
            out == [] || out == RestartStep(s, args, env).out || out == counted || out == [Panic] + counted
  {
    var counted := RestartStep(CrashStep(s, env).0, args, env).out;
    assert [] + counted == counted;
  }

  lemma AuditReap(h: Heap, s: State, env: Env)
    requires h.ok && h.live == Owned(s)
    ensures AuditAll(h, ReapStep(s, env).out) == Heap(true, Owned(ReapStep(s, env).s))
  {
    ExitFrame(s.(onDemandArgs := NoArgs, pid := -1), s.onDemandArgs, env);
    var s1, pend := s.(onDemandArgs := NoArgs, pid := -1), s.onDemandArgs;
    ExitOutputs(s1, pend, env);
    AuditRestart(h, s1, pend, env);
    AuditRestart(h, CrashStep(s1, env).0, pend, env);
    assert AuditAll(h, []) == h;
    AuditAllocFree(h, pend);
    AuditConcat(h, HandleExitStep(s1, pend, env).out, FreeOut(pend));
  }

  lemma AuditStartByName(h: Heap, s: State, extra: Args, env: Env)
    requires h.ok && (extra.ptr == 0 || extra.ptr !in h.live)
    ensures AuditAll(h, StartByNameStep(s, extra, env).out) == h
    ensures Owned(StartByNameStep(s, extra, env).s) == Owned(s)
  {
    StartFrame(s, if extra.argv != [] then extra else PathArgs(s), env);
    AuditAllocFree(h, extra);
    var h1 := AuditAll(h, AllocOut(extra));
    var used := if extra.argv != [] then extra else PathArgs(s);
    AuditStart(h1, s, used, env);
    AuditAllocFree(h1, extra);
    AuditConcat(h, AllocOut(extra), StartStep(s, used, env).out);
    AuditConcat(h, AllocOut(extra) + StartStep(s, used, env).out, FreeOut(extra));
  }

  /** The old pending arguments are given back before the new ones are kept or used. */
  lemma AuditCleared(h: Heap, s: State, extra: Args) returns (h2: Heap)
    requires h.ok && h.live == Owned(s) && FreshArgs(s, extra)
    ensures h2 == AuditAll(h, AllocOut(extra) + FreeOut(s.onDemandArgs))
    ensures h2 == Heap(true, if extra.ptr == 0 then {} else {extra.ptr})
  {
    var h1 := AuditAll(h, AllocOut(extra));
    h2 := AuditAll(h1, FreeOut(s.onDemandArgs));
    AuditAllocFree(h, extra);
    AuditAllocFree(h1, s.onDemandArgs);
    AuditConcat(h, AllocOut(extra), FreeOut(s.onDemandArgs));
  }

  lemma AuditRequestNow(h: Heap, s: State, extra: Args, env: Env)
    requires h.ok && h.live == Owned(s) && FreshArgs(s, extra) && s.attr.onDemand && s.pid <= 0
    ensures AuditAll(h, OnDemandStep(s, extra, env).out) == Heap(true, {})
    ensures Owned(OnDemandStep(s, extra, env).s) == {}
  {
    var cleared := AllocOut(extra) + FreeOut(s.onDemandArgs);
    var h2 := AuditCleared(h, s, extra);
    var s2 := s.(onDemandArgs := NoArgs, attr := s.attr.(needRestart := false));
    var used := if extra.argv != [] then extra else PathArgs(s2);
    StartFrame(s2, used, env);
    AuditStart(h2, s2, used, env);
    AuditAllocFree(h2, extra);
    AuditConcat(h, cleared, StartStep(s2, used, env).out);
    AuditConcat(h, cleared + StartStep(s2, used, env).out, FreeOut(extra));
  }

  lemma AuditOnDemand(h: Heap, s: State, extra: Args, env: Env)
    requires h.ok && h.live == Owned(s) && FreshArgs(s, extra)
    ensures AuditAll(h, OnDemandStep(s, extra, env).out) == Heap(true, Owned(OnDemandStep(s, extra, env).s))
  {
    if !s.attr.onDemand {
      var h1 := AuditAll(h, AllocOut(extra));
      AuditAllocFree(h, extra);
      AuditAllocFree(h1, extra);
      AuditConcat(h, AllocOut(extra), FreeOut(extra));
    } else if s.pid > 0 {
      var h2 := AuditCleared(h, s, extra);
      var cleared := AllocOut(extra) + FreeOut(s.onDemandArgs);
      assert cleared + [] == cleared;
    } else {
      AuditRequestNow(h, s, extra, env);
    }
  }

  lemma AuditStop(h: Heap, s: State, sigterm: bool, env: Env)
    requires h.ok && h.live == Owned(s)
    ensures AuditAll(h, StopStep(s, sigterm, env).out) == Heap(true, Owned(StopStep(s, sigterm, env).s))
  {
    AuditAllocFree(h, s.onDemandArgs);
    var h1 := AuditAll(h, FreeOut(s.onDemandArgs));
    assert AuditAll(h1, []) == h1;
    assert AuditAll(h1, [Kill(s.pid, sigterm)]) == h1;
    AuditConcat(h, FreeOut(s.onDemandArgs), [Kill(s.pid, sigterm)]);
  }

  lemma AuditStep(s: State, ev: Event)
    requires Quiescent(s) && Enabled(s, ev)
    ensures AuditAll(Heap(true, Owned(s)), Step(s, ev).out) == Heap(true, Owned(Step(s, ev).s))
  {
    var h := Heap(true, Owned(s));
    match ev
    case StartByName(extra, env) =>
      AuditStartByName(h, s, extra, env);
    case OnDemand(extra, env) =>
      AuditOnDemand(h, s, extra, env);
    case Stop(env) =>
      AuditStop(h, s, s.cfg.sigterm, env);
    case Term(env) =>
      AuditStop(h, s, true, env);
    case StopAll(mark, env) =>
      AuditStop(h, s.(attr := s.attr.(invalid := s.attr.invalid || mark)), s.cfg.sigterm, env);
    case Reap(env) =>
      AuditReap(h, s, env);
    case TimerFire(env) =>
      AuditStart(h, StopTimerStep(s), PathArgs(s), env);
      StartFrame(StopTimerStep(s), PathArgs(s), env);
    case TimerStart(timeoutMs, env) =>
      TimerCommandFrame(s, timeoutMs, env);
    case TimerStop(env) =>
      TimerCommandFrame(s, 0, env);
  }

  /**
   Over every run no argument vector is freed twice, used after being freed, or leaked:
   after the run the live vectors are exactly the one the record still owns.
   */
  lemma {:induction false} EveryVectorHasOneOwner(s: State, evs: seq<Event>)
    requires Quiescent(s) && Legal(s, evs)
    ensures AuditAll(Heap(true, Owned(s)), Run(s, evs).out) == Heap(true, Owned(Run(s, evs).s))
  {
    if evs != [] {
      var before, ev := evs[..|evs| - 1], evs[|evs| - 1];
      EveryVectorHasOneOwner(s, before);
      RunKeepsQuiescent(s, before);
      AuditStep(Run(s, before).s, ev);
      AuditConcat(Heap(true, Owned(s)), Run(s, before).out, Step(Run(s, before).s, ev).out);
    }
  }
}
