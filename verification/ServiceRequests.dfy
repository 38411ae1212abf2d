/** What becomes of a request to stop or to restart a service: the two marks that an event leaves for the reap. */
module ServiceRequests {
  import opened ServiceSpec
  import opened ServiceRuns
  import opened ServiceOutcomes

  // ---- Stop ---------------------------------------------------------------------------------

  /** A stop stays asked for until a start comes as far as the executable, or a reap that nothing shortens. */
  predicate StopAsked(s: State, ev: Event) {
    match ev
    case Reap(_) => s.attr.needStop && (s.attr.invalid || s.attr.timerStart)
    case _ => StopEvent(ev) || (s.attr.needStop && !Attempts(s, ev))
  }

  /** A restart stays asked for until a stop, a start, or the reap that serves it. */
  predicate RestartAsked(s: State, ev: Event) {
    match ev
    case OnDemand(_, _) => if s.attr.onDemand then s.pid > 0 else s.attr.needRestart
    case Reap(_) => s.attr.needRestart && !s.attr.onDemand && !Restartable(s)
    case _ => !StopEvent(ev) && s.attr.needRestart && !Attempts(s, ev)
  }

  predicate Asks(s: State, ev: Event, a: Attr) {
    (a.needStop <==> StopAsked(s, ev)) && (a.needRestart <==> RestartAsked(s, ev))
  }

  lemma StartClears(s: State, args: Args, env: Env)
    ensures var a := StartStep(s, args, env).s.attr;
            var tries := s.pid <= 0 && args.argv != [] && !s.attr.invalid;
            (a.needStop <==> s.attr.needStop && !tries) && (a.needRestart <==> s.attr.needRestart && !tries)
  {
  }

  lemma StopAsks(s: State, ev: Event)
    requires StopEvent(ev)
    ensures Asks(s, ev, Step(s, ev).s.attr)
  {
    StopEventIs(s, ev);
    StopLeaves(Marked(s, ev), ev.Term? || s.cfg.sigterm, ev.env);
  }

  lemma StopLeaves(s: State, sigterm: bool, env: Env)
    ensures var a := StopStep(s, sigterm, env).s.attr; a.needStop && !a.needRestart
  {
  }

  lemma RequestAsks(s: State, ev: Event)
    requires ev.StartByName? || ev.OnDemand?
    ensures Asks(s, ev, Step(s, ev).s.attr)
  {
    StartClears(s, StartArgs(s, ev), ev.env);
    if ev.OnDemand? && s.attr.onDemand {
      var s1 := s.(onDemandArgs := NoArgs);
      StartClears(s1.(attr := s1.attr.(needRestart := false)), StartArgs(s, ev), ev.env);
      StartClears(s1.(attr := s1.attr.(needRestart := true), onDemandArgs := ev.extra), PathArgs(s), ev.env);
    }
  }

  lemma TimerAsks(s: State, ev: Event)
    requires TimerEvent(ev)
    ensures Asks(s, ev, Step(s, ev).s.attr)
  {
    if ev.TimerFire? {
      StartClears(StopTimerStep(s), PathArgs(s), ev.env);
    } else {
      TimerCommandFrame(s, if ev.TimerStart? then ev.timeoutMs else 0, ev.env);
    }
  }

  lemma ExitAsks(s: State, args: Args, env: Env)
    requires s.pid <= 0
    ensures var a := HandleExitStep(s, args, env).s.attr;
            && (a.needStop <==> s.attr.needStop && (s.attr.invalid || s.attr.timerStart))
            && (a.needRestart <==> s.attr.needRestart && !Restartable(s))
  {
    if Relaunches(s, env) {
      CrashFrame(s, env);
      var used := if s.attr.needRestart && args.argv != [] then args else PathArgs(s);
      StartClears(s, used, env);
      StartClears(CrashStep(s, env).0, used, env);
    }
  }

  lemma ReapAsks(s: State, env: Env)
    ensures Asks(s, Reap(env), ReapStep(s, env).s.attr)
  {
    var s1 := s.(onDemandArgs := NoArgs, pid := -1);
    ExitAsks(s1, s.onDemandArgs, env);
    ExitFrame(s1, s.onDemandArgs, env);
    ReapLeaves(s, env, HandleExitStep(s1, s.onDemandArgs, env));
  }

  lemma ReapLeaves(s: State, env: Env, e: Effect)
    requires e == HandleExitStep(s.(onDemandArgs := NoArgs, pid := -1), s.onDemandArgs, env)
    requires e.s.attr.needRestart ==> e.s.pid <= 0
    ensures var a := ReapStep(s, env).s.attr;
            && a.needStop == e.s.attr.needStop
            && (a.needRestart <==> e.s.attr.needRestart && !e.s.attr.onDemand)
  {
  }

  /** Both marks after every event, in every state. */
  lemma EventAsks(s: State, ev: Event)
    ensures Asks(s, ev, Step(s, ev).s.attr)
  {
    if ev.Reap? {
      ReapAsks(s, ev.env);
    } else if StopEvent(ev) {
      StopAsks(s, ev);
    } else if TimerEvent(ev) {
      TimerAsks(s, ev);
    } else {
      RequestAsks(s, ev);
    }
  }
}
