/** What a stop guarantees about later runs. */
module StopRuns {
  import opened ServiceSpec
  import opened ServiceRuns

  /** Events that init produces on its own, without a new request. */
  predicate Autonomous(evs: seq<Event>) {
    forall ev | ev in evs :: ev.Reap? || ev.TimerFire?
  }

  lemma {:induction false} StoppedStaysStopped(s: State, evs: seq<Event>)
    requires Legal(s, evs) && Autonomous(evs)
    requires !s.timer.Armed? && !s.attr.timerStart && (s.pid <= 0 || s.attr.needStop)
    ensures var r := Run(s, evs);
            NoFork(r.out) && !r.s.timer.Armed? && !r.s.attr.timerStart && (r.s.pid <= 0 || r.s.attr.needStop)
  {
    if evs != [] {
      StoppedStaysStopped(s, evs[..|evs| - 1]);
      assert evs[|evs| - 1] in evs;
    }
  }

  lemma InvalidStep(s: State, ev: Event)
    requires s.attr.invalid
    ensures Step(s, ev).s.attr.invalid && NoFork(Step(s, ev).out)
  {
    match ev
    case StartByName(extra, env) =>
      StartByNameFrame(s, extra, env);
    case OnDemand(extra, env) =>
      OnDemandFrame(s, extra, env);
    case Stop(env) =>
      StopFrame(s, s.cfg.sigterm, env);
    case Term(env) =>
      StopFrame(s, true, env);
    case StopAll(mark, env) =>
      StopFrame(s.(attr := s.attr.(invalid := true)), s.cfg.sigterm, env);
    case Reap(env) =>
      InvalidReap(s, env);
    case TimerFire(env) =>
      TimerFireFrame(s, env);
    case TimerStart(timeoutMs, env) =>
      TimerCommandFrame(s, timeoutMs, env);
    case TimerStop(env) =>
      TimerCommandFrame(s, 0, env);
  }

  lemma InvalidReap(s: State, env: Env)
    requires s.attr.invalid
    ensures ReapStep(s, env).s.attr.invalid && NoFork(ReapStep(s, env).out)
  {
  }

  /** The shutdown latch of one service: once invalid, no run forks it again. */
  lemma {:induction false} InvalidStaysDown(s: State, evs: seq<Event>)
    requires s.attr.invalid
    ensures Run(s, evs).s.attr.invalid && NoFork(Run(s, evs).out)
  {
    if evs != [] {
      InvalidStaysDown(s, evs[..|evs| - 1]);
      InvalidStep(Run(s, evs[..|evs| - 1]).s, evs[|evs| - 1]);
    }
  }

  /**
   Whether a stop is final. After a stop, init starts the service again without being asked
   if and only if the stop found it not running with a start timer still armed.
   */
  lemma {:induction false} StopIsFinalExactlyWhen(s: State, env: Env)
    requires Quiescent(s)
    ensures var s1 := StopStep(s, s.cfg.sigterm, env).s;
            (forall evs | Legal(s1, evs) && Autonomous(evs) :: NoFork(Run(s1, evs).out))
            <==> !(s.pid <= 0 && s.timer.Armed? && !s.attr.invalid && s.cfg.pathArgs != [])
  {
    var s1 := StopStep(s, s.cfg.sigterm, env).s;
    if s.pid <= 0 && s.timer.Armed? && !s.attr.invalid && s.cfg.pathArgs != [] {
      var fire := TimerFire(Env(s.timer.deadline, true, 1, true, true, true, false));
      var evs := [fire];
      assert evs[..0] == [];
      assert Legal(s1, []) && Run(s1, []) == Effect(s1, []);
      assert Legal(s1, evs) && Autonomous(evs);
      assert Run(s1, evs).out == [] + Step(s1, fire).out;
      assert Fork(1, PathArgs(s1)) in Run(s1, evs).out;
    } else {
      forall evs | Legal(s1, evs) && Autonomous(evs)
        ensures NoFork(Run(s1, evs).out)
      {
        if s1.attr.invalid {
          InvalidStaysDown(s1, evs);
        } else if s1.timer.Armed? {
          NothingToRun(s1, evs);
        } else {
          StoppedStaysStopped(s1, evs);
        }
      }
    }
  }

  lemma {:induction false} NothingToRun(s: State, evs: seq<Event>)
    requires s.pid <= 0 && s.cfg.pathArgs == [] && Legal(s, evs) && Autonomous(evs)
    ensures var r := Run(s, evs); NoFork(r.out) && r.s.pid <= 0 && r.s.cfg == s.cfg
  {
    if evs != [] {
      NothingToRun(s, evs[..|evs| - 1]);
      assert evs[|evs| - 1] in evs;
    }
  }
}
