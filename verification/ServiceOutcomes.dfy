/**
 What each event does to the outside and to the record, said by outcome: which events start a process and with
 which arguments, which signal one, arm a timer or mark the service invalid. Over whole runs an observer of the
 outputs alone knows the child.
 */
module ServiceOutcomes {
  import opened ServiceSpec
  import opened ServiceRuns

  // ---- Processes ------------------------------------------------------------------------

  /** The forks and signals of an event, in order. */
  function Processes(out: seq<Output>): seq<Output> {
    if out == [] then []
    else
      var o := out[|out| - 1];
      Processes(out[..|out| - 1]) + (if o.Fork? || o.Kill? then [o] else [])
  }

  lemma {:induction false} ProcessesConcat(a: seq<Output>, b: seq<Output>)
    ensures Processes(a + b) == Processes(a) + Processes(b)
  {
    if b == [] {
      assert a + b == a;
    } else {
      ProcessesConcat(a, b[..|b| - 1]);
      assert (a + b)[..|a + b| - 1] == a + b[..|b| - 1];
    }
  }

  lemma ProcessesOfOne(o: Output)
    ensures Processes([]) == [] && Processes([o]) == if o.Fork? || o.Kill? then [o] else []
  {
    assert [o][..0] == [];
  }

  lemma ProcessesOfArgs(a: Args)
    ensures Processes(AllocOut(a)) == [] && Processes(FreeOut(a)) == []
  {
    ProcessesOfOne(Alloc(a.ptr));
    ProcessesOfOne(Free(a.ptr));
  }

  /** The arguments with which a start in this event runs. */
  function StartArgs(s: State, ev: Event): Args {
    match ev
    case StartByName(extra, _) => if extra.argv != [] then extra else Args(0, s.cfg.pathArgs)
    case OnDemand(extra, _) => if extra.argv != [] then extra else Args(0, s.cfg.pathArgs)
    case Reap(_) =>
      if s.attr.needRestart && s.onDemandArgs.argv != [] then s.onDemandArgs else Args(0, s.cfg.pathArgs)
    case _ => Args(0, s.cfg.pathArgs)
  }

  /** Nothing keeps the reap from the branches that relaunch or pause. */
  predicate Restartable(s: State) {
    && !s.attr.invalid && !s.attr.timerStart && !s.attr.needStop && !s.attr.period
    && (s.attr.once || s.attr.onDemand ==> s.attr.needRestart)
  }

  /** The reap relaunches at once: asked to, critical, or within the crash limit. */
  predicate Relaunches(s: State, env: Env) {
    Restartable(s) && (s.attr.critical || s.attr.needRestart || CrashStep(s, env).1)
  }

  /** The event comes as far as looking for the executable. */
  predicate Attempts(s: State, ev: Event) {
    && !s.attr.invalid && StartArgs(s, ev).argv != []
    && match ev
       case StartByName(_, _) => s.pid <= 0
       case OnDemand(_, _) => s.pid <= 0 && s.attr.onDemand
       case TimerFire(_) => s.pid <= 0
       case Reap(env) => Relaunches(s, env)
       case _ => false
  }

  predicate Starts(s: State, ev: Event) {
    Attempts(s, ev) && ev.env.statOk && ev.env.forkPid > 0
  }

  predicate Signals(s: State, ev: Event) {
    (ev.Stop? || ev.Term? || ev.StopAll?) && s.pid > 0 && ev.env.killOk
  }

  function ProcessesOf(s: State, ev: Event): seq<Output> {
    if Starts(s, ev) then [Fork(ev.env.forkPid, StartArgs(s, ev))]
    else if Signals(s, ev) then [Kill(s.pid, ev.Term? || s.cfg.sigterm)]
    else []
  }

  function PidAfter(s: State, ev: Event): int {
    if Starts(s, ev) then ev.env.forkPid else if ev.Reap? || Signals(s, ev) then -1 else s.pid
  }

  /** The outcome of an event, as far as processes go. A start forgets that a stop or restart was asked for. */
  predicate Does(s: State, ev: Event, e: Effect) {
    && Processes(e.out) == ProcessesOf(s, ev) && e.s.pid == PidAfter(s, ev)
    && (Starts(s, ev) ==> !e.s.attr.needStop && !e.s.attr.needRestart)
  }

  /** One start: a fork exactly when nothing is in the way. */
  predicate Launched(s: State, args: Args, env: Env, e: Effect) {
    var up := s.pid <= 0 && args.argv != [] && !s.attr.invalid && env.statOk && env.forkPid > 0;
    && Processes(e.out) == (if up then [Fork(env.forkPid, args)] else [])
    && e.s.pid == (if up then env.forkPid else s.pid)
    && (up ==> !e.s.attr.needStop && !e.s.attr.needRestart)
  }

  lemma StartLaunches(s: State, args: Args, env: Env)
    ensures Launched(s, args, env, StartStep(s, args, env))
  {
    ProcessesOfOne(Fork(env.forkPid, args));
  }

  /** A start by name or by a timer does what its launch does. */
  lemma LaunchedDoes(s: State, ev: Event, s1: State, e: Effect)
    requires (ev.StartByName? || ev.TimerFire?) && s1.pid == s.pid && s1.attr.invalid == s.attr.invalid
    requires Launched(s1, StartArgs(s, ev), ev.env, e)
    ensures Does(s, ev, e)
  {
  }

  lemma StartByNameDoes(s: State, extra: Args, env: Env)
    ensures Does(s, StartByName(extra, env), StartByNameStep(s, extra, env))
  {
    var args := if extra.argv != [] then extra else PathArgs(s);
    var e := StartStep(s, args, env);
    StartLaunches(s, args, env);
    ProcessesOfArgs(extra);
    Wrapped(AllocOut(extra), e.out, FreeOut(extra));
    LaunchedDoes(s, StartByName(extra, env), s, Effect(e.s, AllocOut(extra) + e.out + FreeOut(extra)));
  }

  /** What surrounds a start does not touch processes. */
  lemma Wrapped(before: seq<Output>, out: seq<Output>, after: seq<Output>)
    requires Processes(before) == [] && Processes(after) == []
    ensures Processes(before + out + after) == Processes(out) && Processes(before + out) == Processes(out)
  {
    ProcessesConcat(before, out);
    ProcessesConcat(before + out, after);
  }

  lemma Cleared(s: State, extra: Args)
    ensures Processes(AllocOut(extra) + FreeOut(s.onDemandArgs)) == [] && Processes(AllocOut(extra) + FreeOut(extra)) == []
  {
    ProcessesOfArgs(extra);
    ProcessesOfArgs(s.onDemandArgs);
    ProcessesConcat(AllocOut(extra), FreeOut(extra));
    ProcessesConcat(AllocOut(extra), FreeOut(s.onDemandArgs));
  }

  lemma DeferredDoes(s: State, extra: Args, env: Env)
    requires s.attr.onDemand && s.pid > 0
    ensures Does(s, OnDemand(extra, env), OnDemandStep(s, extra, env))
  {
    Cleared(s, extra);
    Wrapped(AllocOut(extra) + FreeOut(s.onDemandArgs), [], []);
  }

  lemma StartedDoes(s: State, extra: Args, env: Env)
    requires s.attr.onDemand && s.pid <= 0
    ensures Does(s, OnDemand(extra, env), OnDemandStep(s, extra, env))
  {
    var s2 := s.(onDemandArgs := NoArgs, attr := s.attr.(needRestart := false));
    var args := if extra.argv != [] then extra else PathArgs(s2);
    StartLaunches(s2, args, env);
    Cleared(s, extra);
    ProcessesOfArgs(extra);
    Wrapped(AllocOut(extra) + FreeOut(s.onDemandArgs), StartStep(s2, args, env).out, FreeOut(extra));
  }

  lemma OnDemandDoes(s: State, extra: Args, env: Env)
    ensures Does(s, OnDemand(extra, env), OnDemandStep(s, extra, env))
  {
    if !s.attr.onDemand {
      Cleared(s, extra);
    } else if s.pid > 0 {
      DeferredDoes(s, extra, env);
    } else {
      StartedDoes(s, extra, env);
    }
  }

  lemma StopDoes(s: State, sigterm: bool, env: Env)
    ensures var e := StopStep(s, sigterm, env);
            && Processes(e.out) == (if s.pid > 0 && env.killOk then [Kill(s.pid, sigterm)] else [])
            && e.s.pid == (if s.pid > 0 && env.killOk then -1 else s.pid)
  {
    ProcessesOfArgs(s.onDemandArgs);
    ProcessesOfOne(Kill(s.pid, sigterm));
    ProcessesConcat(FreeOut(s.onDemandArgs), [Kill(s.pid, sigterm)]);
  }

  lemma TimerDoes(s: State, env: Env)
    ensures Does(s, TimerFire(env), TimerFireStep(s, env))
  {
    var s1 := StopTimerStep(s);
    StartLaunches(s1, PathArgs(s1), env);
    TimerCommandFrame(s, 0, env);
    LaunchedDoes(s, TimerFire(env), s1, StartStep(s1, PathArgs(s1), env));
  }

  lemma RestartLaunches(s: State, args: Args, env: Env)
    requires s.pid <= 0
    ensures var used := if s.attr.needRestart && args.argv != [] then args else PathArgs(s);
            Launched(s, used, env, RestartStep(s, args, env))
  {
    var used := if s.attr.needRestart && args.argv != [] then args else PathArgs(s);
    StartLaunches(s, used, env);
    ProcessesOfOne(Restart(Sec(env.now)));
    ProcessesConcat([Restart(Sec(env.now))], StartStep(s, used, env).out);
  }

  lemma ExitLaunches(s: State, args: Args, env: Env)
    requires s.pid <= 0
    ensures var e := HandleExitStep(s, args, env);
            var used := if s.attr.needRestart && args.argv != [] then args else PathArgs(s);
            if Relaunches(s, env) then Launched(s, used, env, e) else Processes(e.out) == [] && e.s.pid == s.pid
  {
    if Relaunches(s, env) {
      if s.attr.critical {
        var (s1, ok) := CrashStep(s, env);
        CrashFrame(s, env);
        RestartLaunches(s1, args, env);
        ProcessesOfOne(Panic);
        ProcessesConcat(if ok then [] else [Panic], RestartStep(s1, args, env).out);
      } else if s.attr.needRestart {
        RestartLaunches(s, args, env);
      } else {
        CrashFrame(s, env);
        RestartLaunches(CrashStep(s, env).0, args, env);
      }
    }
  }

  /** What the reap adds to the handling of the exit. */
  lemma ReapWraps(s: State, env: Env)
    ensures var e, r := HandleExitStep(s.(onDemandArgs := NoArgs, pid := -1), s.onDemandArgs, env), ReapStep(s, env);
            && r.out == e.out + FreeOut(s.onDemandArgs) && r.s.pid == e.s.pid && r.s.timer == e.s.timer
            && r.s.attr.needStop == e.s.attr.needStop && (r.s.attr.needRestart ==> e.s.attr.needRestart)
            && r.s.attr.invalid == e.s.attr.invalid
  {
  }

  lemma SameReap(s: State, env: Env)
    ensures Relaunches(s.(onDemandArgs := NoArgs, pid := -1), env) == Relaunches(s, env)
  {
  }

  lemma ReapDoes(s: State, env: Env)
    ensures Does(s, Reap(env), ReapStep(s, env))
  {
    var s1 := s.(onDemandArgs := NoArgs, pid := -1);
    ExitLaunches(s1, s.onDemandArgs, env);
    SameReap(s, env);
    ReapWraps(s, env);
    ReapFrom(s, s1, env, HandleExitStep(s1, s.onDemandArgs, env), ReapStep(s, env));
  }

  lemma ReapFrom(s: State, s1: State, env: Env, e: Effect, r: Effect)
    requires s1 == s.(onDemandArgs := NoArgs, pid := -1) && Relaunches(s1, env) == Relaunches(s, env)
    requires if Relaunches(s1, env) then Launched(s1, StartArgs(s, Reap(env)), env, e)
             else Processes(e.out) == [] && e.s.pid == s1.pid
    requires r.out == e.out + FreeOut(s.onDemandArgs) && r.s.pid == e.s.pid
    requires r.s.attr.needStop == e.s.attr.needStop && (r.s.attr.needRestart ==> e.s.attr.needRestart)
    ensures Does(s, Reap(env), r)
  {
    ProcessesOfArgs(s.onDemandArgs);
    ProcessesConcat(e.out, FreeOut(s.onDemandArgs));
  }

  /** The record as a stop finds it: shutting everything down marks it first. */
  function Marked(s: State, ev: Event): State {
    if ev.StopAll? && ev.markInvalid then s.(attr := s.attr.(invalid := true)) else s
  }

  lemma StopEventIs(s: State, ev: Event)
    requires StopEvent(ev)
    ensures Step(s, ev) == StopStep(Marked(s, ev), ev.Term? || s.cfg.sigterm, ev.env)
  {
    assert s.(attr := s.attr.(invalid := s.attr.invalid)) == s;
  }

  lemma StopEventDoes(s: State, ev: Event)
    requires StopEvent(ev)
    ensures Does(s, ev, Step(s, ev))
  {
    StopEventIs(s, ev);
    StopDoes(Marked(s, ev), ev.Term? || s.cfg.sigterm, ev.env);
  }

  lemma TimerEventDoes(s: State, ev: Event)
    requires TimerEvent(ev)
    ensures Does(s, ev, Step(s, ev))
  {
    if ev.TimerFire? {
      TimerDoes(s, ev.env);
    } else {
      TimerCommandFrame(s, if ev.TimerStart? then ev.timeoutMs else 0, ev.env);
    }
  }

  /**
   Which processes an event starts and signals, for every event and every state: it forks exactly when it is a
   start that nothing stands in the way of, with the arguments of the request or the configured ones, and
   signals exactly the recorded child, with the configured signal unless it is a term.
   */
  lemma EventDoes(s: State, ev: Event)
    ensures Does(s, ev, Step(s, ev))
  {
    if StopEvent(ev) {
      StopEventDoes(s, ev);
    } else if TimerEvent(ev) {
      TimerEventDoes(s, ev);
    } else {
      match ev
      case StartByName(extra, env) => StartByNameDoes(s, extra, env);
      case OnDemand(extra, env) => OnDemandDoes(s, extra, env);
      case Reap(env) => ReapDoes(s, env);
    }
  }

  // ---- An observer of the outputs -----------------------------------------------------------

  /** What an observer makes of the outputs: the child, 0 for none, and whether everything was in order. */
  datatype Watch = Watch(ok: bool, child: int)

  /** A fork needs that there is no child, a signal goes to the child and ends it. */
  function Observe(w: Watch, o: Output): Watch {
    match o
    case Fork(pid, args) => Watch(w.ok && w.child == 0 && pid > 0 && args.argv != [], pid)
    case Kill(pid, _) => Watch(w.ok && w.child == pid && pid > 0, 0)
    case _ => w
  }

  function ObserveAll(w: Watch, out: seq<Output>): Watch {
    if out == [] then w else Observe(ObserveAll(w, out[..|out| - 1]), out[|out| - 1])
  }

  lemma {:induction false} ObserveProcesses(w: Watch, out: seq<Output>)
    ensures ObserveAll(w, out) == ObserveAll(w, Processes(out))
  {
    if out != [] {
      ObserveProcesses(w, out[..|out| - 1]);
      var o, before := out[|out| - 1], Processes(out[..|out| - 1]);
      if o.Fork? || o.Kill? {
        assert (before + [o])[..|before|] == before;
      } else {
        assert before + [] == before;
      }
    }
  }

  /** The observer over a run; it sees reaps as well, which need a child. */
  function Watched(s: State, evs: seq<Event>): Watch {
    if evs == [] then Watch(true, if s.pid > 0 then s.pid else 0)
    else
      var before, ev := evs[..|evs| - 1], evs[|evs| - 1];
      var w := Watched(s, before);
      ObserveAll(if ev.Reap? then Watch(w.ok && w.child > 0, 0) else w, Step(Run(s, before).s, ev).out)
  }

  /**
   Over every run there is at most one child at a time, every fork has arguments, only the child is ever
   signalled, and the record holds exactly the child that the observer knows: a pid leaves it by a reap or by
   a signal and in no other way.
   */
  lemma {:induction false} ObserverKnowsChild(s: State, evs: seq<Event>)
    requires Legal(s, evs)
    ensures var pid := Run(s, evs).s.pid; Watched(s, evs) == Watch(true, if pid > 0 then pid else 0)
  {
    if evs != [] {
      var before, ev := evs[..|evs| - 1], evs[|evs| - 1];
      ObserverKnowsChild(s, before);
      var at := Run(s, before).s;
      EventDoes(at, ev);
      ObserveProcesses(if ev.Reap? then Watch(true, 0) else Watched(s, before), Step(at, ev).out);
      ObserveOne(if ev.Reap? then Watch(true, 0) else Watched(s, before), at, ev);
    }
  }

  lemma ObserveOne(w: Watch, s: State, ev: Event)
    requires w.ok && w.child == (if ev.Reap? || s.pid <= 0 then 0 else s.pid)
    ensures var pid := PidAfter(s, ev);
            ObserveAll(w, ProcessesOf(s, ev)) == Watch(true, if pid > 0 then pid else 0)
  {
    var fork, kill := Fork(ev.env.forkPid, StartArgs(s, ev)), Kill(s.pid, ev.Term? || s.cfg.sigterm);
    assert [fork][..0] == [] && [kill][..0] == [] && ObserveAll(w, []) == w;
  }

  // ---- Timers and the invalid mark -------------------------------------------------------------

  /** The reap of a periodic service that nothing else decides about. */
  predicate Periodic(s: State) {
    && !s.attr.invalid && !s.attr.timerStart && !s.attr.needStop && s.attr.period
    && (s.attr.once ==> s.attr.needRestart)
  }

  /** The reap that pauses a service that crashed too often. */
  predicate Pauses(s: State, env: Env) {
    Restartable(s) && !s.attr.critical && !s.attr.needRestart && !CrashStep(s, env).1
  }

  /** The timer that an event wants armed, or none. */
  function Wanted(s: State, ev: Event): Timer {
    match ev
    case TimerStart(timeoutMs, env) => Armed(StartTimer, env.now + timeoutMs)
    case Reap(env) =>
      if Periodic(s) then Armed(StartTimer, env.now + s.cfg.periodMs)
      else if Pauses(s, env) then
        Armed(RestartTimer, env.now + (if s.cfg.crashTime > 0 then s.cfg.crashTime * 1000 else 0))
      else NoTimer
    case _ => NoTimer
  }

  predicate Cancels(s: State, ev: Event) {
    ev.TimerFire? || ev.TimerStop? || ((ev.Stop? || ev.Term? || ev.StopAll?) && s.pid > 0)
  }

  /**
   What becomes of the timer: an event that wants one leaves exactly that one if the facility obliges and none
   armed otherwise, one that cancels leaves none armed, and every other event leaves the timer alone.
   */
  predicate TimerFollows(s: State, ev: Event, t: Timer) {
    if Wanted(s, ev).Armed? then
      if ev.env.timerCreateOk && ev.env.timerStartOk then t == Wanted(s, ev) else !t.Armed?
    else if Cancels(s, ev) then !t.Armed?
    else t == s.timer
  }

  lemma ExitTimer(s: State, args: Args, env: Env)
    requires Linked(s)
    ensures TimerFollows(s, Reap(env), HandleExitStep(s, args, env).s.timer)
  {
    if Relaunches(s, env) {
      RestartFrame(s, args, env);
      RestartFrame(CrashStep(s, env).0, args, env);
      CrashFrame(s, env);
    }
  }

  lemma ReapTimer(s: State, env: Env)
    requires Linked(s)
    ensures TimerFollows(s, Reap(env), ReapStep(s, env).s.timer)
  {
    var s1 := s.(onDemandArgs := NoArgs, pid := -1);
    ExitTimer(s1, s.onDemandArgs, env);
    assert Wanted(s1, Reap(env)) == Wanted(s, Reap(env));
    ReapWraps(s, env);
  }

  lemma RequestTimer(s: State, ev: Event)
    requires ev.StartByName? || ev.OnDemand?
    ensures TimerFollows(s, ev, Step(s, ev).s.timer)
  {
  }

  lemma StopTimer(s: State, ev: Event)
    requires Linked(s) && StopEvent(ev)
    ensures TimerFollows(s, ev, Step(s, ev).s.timer)
  {
  }

  lemma EventTimer(s: State, ev: Event)
    requires Linked(s)
    ensures TimerFollows(s, ev, Step(s, ev).s.timer)
  {
    if ev.Reap? {
      ReapTimer(s, ev.env);
    } else if StopEvent(ev) {
      StopTimer(s, ev);
    } else if !TimerEvent(ev) {
      RequestTimer(s, ev);
    }
  }

  /** A path below the data partition may appear later, so its absence is not held against the service. */
  predicate OnDataPartition(path: string) { "/data/" <= path }

  /** What marks a service invalid: shutdown, a missing executable, a console that cannot be watched. */
  predicate Condemns(s: State, ev: Event) {
    || (ev.StopAll? && ev.markInvalid)
    || (Attempts(s, ev) && !ev.env.statOk && !OnDataPartition(StartArgs(s, ev).argv[0]))
    || (ev.Reap? && Unwatched(s, ev.env))
  }

  /** An on-demand service went down and its console cannot be watched for the next request. */
  predicate Unwatched(s: State, env: Env) {
    && env.consoleWatchFails && s.attr.onDemand && !s.attr.needRestart && !s.attr.invalid
    && !s.attr.timerStart && !s.attr.needStop && !s.attr.period && !s.attr.once
  }

  lemma StartMarks(s: State, args: Args, env: Env)
    ensures StartStep(s, args, env).s.attr.invalid <==>
            s.attr.invalid || (s.pid <= 0 && args.argv != [] && !env.statOk && !OnDataPartition(args.argv[0]))
  {
  }

  lemma ReapMarks(s: State, env: Env)
    ensures ReapStep(s, env).s.attr.invalid <==> s.attr.invalid || Condemns(s, Reap(env))
  {
    var s1 := s.(onDemandArgs := NoArgs, pid := -1);
    ExitMarks(s1, s.onDemandArgs, env);
    SameReap(s, env);
    ReapWraps(s, env);
  }

  lemma ExitMarks(s: State, args: Args, env: Env)
    requires s.pid <= 0
    ensures var used := if s.attr.needRestart && args.argv != [] then args else PathArgs(s);
            HandleExitStep(s, args, env).s.attr.invalid <==>
            || s.attr.invalid
            || (Relaunches(s, env) && used.argv != [] && !env.statOk && !OnDataPartition(used.argv[0]))
            || Unwatched(s, env)
  {
    var used := if s.attr.needRestart && args.argv != [] then args else PathArgs(s);
    if Relaunches(s, env) {
      CrashFrame(s, env);
      StartMarks(s, used, env);
      StartMarks(CrashStep(s, env).0, used, env);
    }
  }

  lemma RequestMarks(s: State, ev: Event)
    requires ev.StartByName? || ev.OnDemand?
    ensures Step(s, ev).s.attr.invalid <==> s.attr.invalid || Condemns(s, ev)
  {
    StartMarks(s, StartArgs(s, ev), ev.env);
    if ev.OnDemand? && s.attr.onDemand {
      var s1 := s.(onDemandArgs := NoArgs);
      StartMarks(s1.(attr := s1.attr.(needRestart := false)), StartArgs(s, ev), ev.env);
    }
  }

  lemma StopMarks(s: State, ev: Event)
    requires StopEvent(ev)
    ensures Step(s, ev).s.attr.invalid <==> s.attr.invalid || (ev.StopAll? && ev.markInvalid)
  {
    StopEventIs(s, ev);
    StopKeepsMark(Marked(s, ev), ev.Term? || s.cfg.sigterm, ev.env);
  }

  lemma StopKeepsMark(s: State, sigterm: bool, env: Env)
    ensures StopStep(s, sigterm, env).s.attr.invalid == s.attr.invalid
  {
    StopTimerKeepsMark(s.(onDemandArgs := NoArgs, attr := s.attr.(needRestart := false, needStop := true)));
  }

  lemma StopTimerKeepsMark(s: State)
    ensures StopTimerStep(s).attr.invalid == s.attr.invalid
  {
  }

  lemma TimerMarks(s: State, ev: Event)
    requires TimerEvent(ev)
    ensures Step(s, ev).s.attr.invalid <==> s.attr.invalid || Condemns(s, ev)
  {
    if ev.TimerFire? {
      StartMarks(StopTimerStep(s), PathArgs(s), ev.env);
    } else {
      TimerCommandFrame(s, if ev.TimerStart? then ev.timeoutMs else 0, ev.env);
    }
  }

  /** A service becomes invalid in exactly these ways. */
  lemma EventMarks(s: State, ev: Event)
    ensures Step(s, ev).s.attr.invalid <==> s.attr.invalid || Condemns(s, ev)
  {
    if ev.Reap? {
      ReapMarks(s, ev.env);
    } else if StopEvent(ev) {
      StopMarks(s, ev);
    } else if TimerEvent(ev) {
      TimerMarks(s, ev);
    } else {
      RequestMarks(s, ev);
    }
  }

  // ---- One-shot and periodic services over runs ------------------------------------------------

  lemma NoForkExactly(out: seq<Output>)
    ensures NoFork(out) <==> forall o | o in Processes(out) :: !o.Fork?
  {
    ForksKept(out);
  }

  lemma {:induction false} ForksKept(out: seq<Output>)
    ensures forall o: Output | o.Fork? :: o in out <==> o in Processes(out)
  {
    if out != [] {
      ForksKept(out[..|out| - 1]);
      assert out == out[..|out| - 1] + [out[|out| - 1]];
    }
  }

  lemma Silent(s: State, ev: Event)
    requires !Starts(s, ev)
    ensures NoFork(Step(s, ev).out)
  {
    EventDoes(s, ev);
    NoForkExactly(Step(s, ev).out);
  }

  predicate ReapsAndStops(evs: seq<Event>) {
    forall ev | ev in evs :: ev.Reap? || StopEvent(ev)
  }

  /** A one-shot service that has run is not started again by its exit or by stops, and nothing is armed to do so. */
  lemma {:induction false} OneShotStaysDown(s: State, evs: seq<Event>)
    requires Quiescent(s) && s.attr.once && !s.attr.onDemand && !s.timer.Armed?
    requires Legal(s, evs) && ReapsAndStops(evs)
    ensures NoFork(Run(s, evs).out) && !Run(s, evs).s.timer.Armed?
  {
    if evs != [] {
      var before, ev := evs[..|evs| - 1], evs[|evs| - 1];
      assert ev in evs && forall x | x in before :: x in evs;
      OneShotStaysDown(s, before);
      RunKeepsQuiescent(s, before);
      var at := Run(s, before).s;
      Silent(at, ev);
      EventTimer(at, ev);
    }
  }

  /** A periodic service that exits undisturbed waits exactly its period. */
  lemma PeriodicWaits(s: State, env: Env)
    requires Quiescent(s) && Periodic(s) && env.timerCreateOk && env.timerStartOk
    ensures var e := ReapStep(s, env);
            e.s.timer == Armed(StartTimer, env.now + s.cfg.periodMs) && e.s.pid <= 0 && NoFork(e.out)
  {
    EventTimer(s, Reap(env));
    EventDoes(s, Reap(env));
    Silent(s, Reap(env));
  }

  /** Left alone, nothing starts it before its timer is due. */
  lemma {:induction false} NotBeforeDeadline(s: State, evs: seq<Event>, deadline: nat)
    requires Quiescent(s) && s.pid <= 0 && s.timer == Armed(StartTimer, deadline) && Legal(s, evs)
    requires (forall ev | ev in evs :: ev.Reap? || ev.TimerFire?) && Clock(evs) < deadline
    ensures NoFork(Run(s, evs).out) && Run(s, evs).s == s
  {
    if evs != [] {
      var before, ev := evs[..|evs| - 1], evs[|evs| - 1];
      assert ev in evs && forall x | x in before :: x in evs;
      NotBeforeDeadline(s, before, deadline);
    }
  }
}
