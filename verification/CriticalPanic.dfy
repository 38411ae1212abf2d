/** When a critical service makes init reboot with a panic. */
module CriticalPanic {
  import opened ServiceSpec
  import opened ServiceRuns
  import opened CrashWindow

  /** A reap that reaches the crash accounting of a critical service. */
  predicate CountsCrash(s: State) {
    && !s.attr.invalid && !s.attr.timerStart && !s.attr.needStop && !s.attr.period
    && !(s.attr.once && !s.attr.needRestart)
    && !(s.attr.onDemand && !s.attr.needRestart)
  }

  function HistoryStep(h: seq<nat>, s: State, ev: Event): seq<nat> {
    if !ev.Reap? then h
    else if CountsCrash(s) then h + [Sec(ev.env.now)]
    else if s.attr.needStop && !s.attr.invalid && !s.attr.timerStart then []
    else h
  }

  /** Crash times in seconds since the last requested stop was reaped. */
  function History(s: State, evs: seq<Event>): seq<nat> {
    if evs == [] then []
    else
      var before := evs[..|evs| - 1];
      HistoryStep(History(s, before), Run(s, before).s, evs[|evs| - 1])
  }

  /** The record of the service agrees with the crash windows of its history. */
  predicate Recorded(s: State, h: seq<nat>, clock: nat) {
    && s.attr.critical && s.cfg.crashTime > 0 && s.cfg.crashCount > 0
    && Sorted(h)
    && (forall i | 0 <= i < |h| :: h[i] <= Sec(clock))
    && s.crashCnt == WindowCount(h, s.cfg.crashTime)
    && (h != [] ==> s.firstCrashTime == h[WindowStart(h, s.cfg.crashTime)])
  }

  /** The last crash opened a window although the history already had one. */
  predicate Reopened(h: seq<nat>, limit: nat) {
    |h| > 1 && WindowStart(h, limit) == |h| - 1
  }

  /** `t` is `s` with one more crash at second `now`, and `ok` tells whether the limit is respected. */
  predicate Crashed(s: State, t: State, ok: bool, now: nat) {
    && SameConfig(s, t)
    && if s.crashCnt == 0 || now - s.firstCrashTime > s.cfg.crashTime
       then t.crashCnt == 1 && t.firstCrashTime == now && (ok <==> s.crashCnt != 0 || s.cfg.crashCount != 1)
       else t.crashCnt == s.crashCnt + 1 && t.firstCrashTime == s.firstCrashTime
            && (ok <==> t.crashCnt < s.cfg.crashCount)
  }

  lemma CrashStepCrashes(s: State, env: Env)
    requires s.cfg.crashTime > 0 && s.cfg.crashCount > 0 && Sec(env.now) < U32_MOD
    requires s.crashCnt >= 0 && (s.crashCnt > 0 ==> 0 <= s.firstCrashTime <= Sec(env.now))
    ensures Crashed(s, CrashStep(s, env).0, CrashStep(s, env).1, Sec(env.now))
  {
  }

  lemma CrashFollowsWindows(s: State, t: State, ok: bool, h: seq<nat>, clock: nat, now: nat)
    requires Recorded(s, h, clock) && clock <= now && Crashed(s, t, ok, Sec(now))
    ensures Recorded(t, h + [Sec(now)], now)
    ensures var h1 := h + [Sec(now)];
            !ok <==> !Reopened(h1, s.cfg.crashTime) && WindowCount(h1, s.cfg.crashTime) >= s.cfg.crashCount
  {
    WindowAppend(h, Sec(now), s.cfg.crashTime);
    SortedAppend(h, Sec(now));
  }

  /** The crash record is left alone and nothing asks for a panic. */
  predicate CountsNothing(s: State, e: Effect) {
    SameConfig(s, e.s) && SameCrashes(s, e.s) && Panic !in e.out
  }

  lemma StopAllCountsNothing(s: State, mark: bool, env: Env)
    ensures CountsNothing(s, Step(s, StopAll(mark, env)))
  {
    StopFrame(s.(attr := s.attr.(invalid := s.attr.invalid || mark)), s.cfg.sigterm, env);
  }

  lemma StopEventCountsNothing(s: State, ev: Event)
    requires StopEvent(ev)
    ensures CountsNothing(s, Step(s, ev))
  {
    if ev.StopAll? {
      StopAllCountsNothing(s, ev.markInvalid, ev.env);
    } else {
      StopFrame(s, ev.Term? || s.cfg.sigterm, ev.env);
    }
  }

  lemma TimerEventCountsNothing(s: State, ev: Event)
    requires TimerEvent(ev)
    ensures CountsNothing(s, Step(s, ev))
  {
    match ev
    case TimerFire(env) =>
      TimerFireFrame(s, env);
    case TimerStart(timeoutMs, env) =>
      TimerCommandFrame(s, timeoutMs, env);
    case TimerStop(env) =>
      TimerCommandFrame(s, 0, env);
  }

  lemma OnlyReapCounts(s: State, ev: Event)
    requires !ev.Reap?
    ensures CountsNothing(s, Step(s, ev))
  {
    if StopEvent(ev) {
      StopEventCountsNothing(s, ev);
    } else if TimerEvent(ev) {
      TimerEventCountsNothing(s, ev);
    } else {
      match ev
      case StartByName(extra, env) =>
        StartByNameFrame(s, extra, env);
      case OnDemand(extra, env) =>
        OnDemandFrame(s, extra, env);
    }
  }

  predicate StopReaped(s: State) {
    s.attr.needStop && !s.attr.invalid && !s.attr.timerStart
  }

  /** A reap counts the crash that led to `t`, forgets the crashes of a stopped service, or leaves them. */
  predicate Reaped(s: State, e: Effect, t: State, ok: bool) {
    && SameConfig(s, e.s)
    && (Panic in e.out <==> CountsCrash(s) && !ok)
    && (if CountsCrash(s) then SameCrashes(t, e.s)
        else if StopReaped(s) then e.s.crashCnt == 0
        else SameCrashes(s, e.s))
  }

  lemma ReapOutcome(s: State, env: Env)
    requires s.attr.critical
    ensures var crash := CrashStep(s.(onDemandArgs := NoArgs, pid := -1), env);
            Reaped(s, ReapStep(s, env), crash.0, crash.1)
  {
    var s1 := s.(onDemandArgs := NoArgs, pid := -1);
    var (s2, ok) := CrashStep(s1, env);
    var e := HandleExitStep(s1, s.onDemandArgs, env);
    ExitFrame(s1, s.onDemandArgs, env);
    if CountsCrash(s) {
      RestartFrame(s2, s.onDemandArgs, env);
      assert Panic !in RestartStep(s2, s.onDemandArgs, env).out;
      if !ok {
        assert e.out[0] == Panic;
      }
    }
  }

  /** A step that keeps the crash record keeps its agreement with the history. */
  lemma RecordedCarries(s: State, t: State, h: seq<nat>, clock: nat, now: nat)
    requires Recorded(s, h, clock) && clock <= now
    requires t.cfg == s.cfg && t.attr.critical == s.attr.critical && SameCrashes(s, t)
    ensures Recorded(t, h, now)
  {
    assert Sec(clock) <= Sec(now);
  }

  /** After the step the record agrees with the longer history, and it panicked at the limit only. */
  predicate StepRecorded(s: State, h: seq<nat>, ev: Event, e: Effect) {
    var h1 := HistoryStep(h, s, ev);
    && Recorded(e.s, h1, ev.env.now) && e.s.cfg == s.cfg
    && (Panic in e.out <==>
          && ev.Reap? && CountsCrash(s) && !Reopened(h1, s.cfg.crashTime)
          && WindowCount(h1, s.cfg.crashTime) >= s.cfg.crashCount)
  }

  lemma RecordReaped(s: State, h: seq<nat>, clock: nat, env: Env, e: Effect, t: State, ok: bool)
    requires Recorded(s, h, clock) && clock <= env.now
    requires Reaped(s, e, t, ok) && Crashed(s, t, ok, Sec(env.now))
    ensures StepRecorded(s, h, Reap(env), e)
  {
    if CountsCrash(s) {
      CrashFollowsWindows(s, t, ok, h, clock, env.now);
      RecordedCarries(t, e.s, h + [Sec(env.now)], env.now, env.now);
    } else if !StopReaped(s) {
      RecordedCarries(s, e.s, h, clock, env.now);
    }
  }

  lemma RecordStep(s: State, h: seq<nat>, clock: nat, ev: Event)
    requires Recorded(s, h, clock) && clock <= ev.env.now && Sec(ev.env.now) < U32_MOD
    ensures StepRecorded(s, h, ev, Step(s, ev))
  {
    if ev.Reap? {
      var s1 := s.(onDemandArgs := NoArgs, pid := -1);
      ReapOutcome(s, ev.env);
      CrashStepCrashes(s1, ev.env);
      RecordReaped(s, h, clock, ev.env, ReapStep(s, ev.env), CrashStep(s1, ev.env).0, CrashStep(s1, ev.env).1);
    } else {
      OnlyReapCounts(s, ev);
      RecordedCarries(s, Step(s, ev).s, h, clock, ev.env.now);
    }
  }

  /** A critical service in a state that a run can start from. */
  predicate Fresh(s: State) {
    s.attr.critical && s.crashCnt == 0 && s.cfg.crashTime > 0 && s.cfg.crashCount > 0
  }

  /** In every run the counter is the size of the current crash window and the first crash time opens it. */
  lemma {:induction false} CrashRecordFollowsHistory(s: State, evs: seq<Event>)
    requires Fresh(s) && Legal(s, evs) && Sec(Clock(evs)) < U32_MOD
    ensures Run(s, evs).s.cfg == s.cfg
    ensures Recorded(Run(s, evs).s, History(s, evs), Clock(evs))
  {
    if evs != [] {
      var before := evs[..|evs| - 1];
      CrashRecordFollowsHistory(s, before);
      RecordStep(Run(s, before).s, History(s, before), Clock(before), evs[|evs| - 1]);
    }
  }

  lemma {:induction false} NoPanicKeepsBelow(s: State, evs: seq<Event>)
    requires Fresh(s) && Legal(s, evs) && Sec(Clock(evs)) < U32_MOD
    requires Panic !in Run(s, evs).out
    ensures WindowCount(History(s, evs), s.cfg.crashTime) < s.cfg.crashCount
  {
    if evs != [] {
      var before := evs[..|evs| - 1];
      NoPanicKeepsBelow(s, before);
      CrashRecordFollowsHistory(s, before);
      RecordStep(Run(s, before).s, History(s, before), Clock(before), evs[|evs| - 1]);
      BelowStep(History(s, before), History(s, evs), s.cfg.crashTime, s.cfg.crashCount);
    }
  }

  /** A window that was below the limit and gains a crash: it passes the limit only by reaching it. */
  lemma BelowStep(h: seq<nat>, h1: seq<nat>, limit: nat, n: nat)
    requires WindowCount(h, limit) < n
    ensures h <= h1 && |h1| == |h| + 1 && Reopened(h1, limit) ==> WindowCount(h1, limit) == 1 < n
    ensures h <= h1 && |h1| == |h| + 1 ==> WindowCount(h1, limit) <= n
  {
    if h <= h1 && |h1| == |h| + 1 {
      assert h1[..|h1| - 1] == h;
    }
  }

  /**
   Panic exactness. An event of a run asks for a panic reboot exactly when it is a counted crash that
   brings the current window to the limit, and up to the first panic that is the limit-th crash.
   (With a limit of one crash, a crash that opens a later window does not ask again.)
   */
  lemma {:induction false} PanicExactly(s: State, evs: seq<Event>, ev: Event)
    requires Fresh(s) && Legal(s, evs + [ev]) && Sec(ev.env.now) < U32_MOD
    ensures var at, h := Run(s, evs).s, History(s, evs + [ev]);
            var counted := ev.Reap? && CountsCrash(at);
            && (Panic in Step(at, ev).out <==>
                  counted && !Reopened(h, s.cfg.crashTime) && WindowCount(h, s.cfg.crashTime) >= s.cfg.crashCount)
            && (Panic !in Run(s, evs).out ==>
                  (Panic in Step(at, ev).out <==> counted && WindowCount(h, s.cfg.crashTime) == s.cfg.crashCount))
  {
    assert (evs + [ev])[..|evs|] == evs;
    CrashRecordFollowsHistory(s, evs);
    RecordStep(Run(s, evs).s, History(s, evs), Clock(evs), ev);
    if Panic !in Run(s, evs).out {
      NoPanicKeepsBelow(s, evs);
      BelowStep(History(s, evs), History(s, evs + [ev]), s.cfg.crashTime, s.cfg.crashCount);
    }
  }

  /** A panic always means that many crashes within the configured seconds. */
  lemma {:induction false} PanicMeansBurst(s: State, evs: seq<Event>, ev: Event)
    requires Fresh(s) && Legal(s, evs + [ev]) && Sec(ev.env.now) < U32_MOD
    ensures var h, n := History(s, evs + [ev]), s.cfg.crashCount;
            Panic in Step(Run(s, evs).s, ev).out ==> n <= |h| && h[|h| - 1] - h[|h| - n] <= s.cfg.crashTime
  {
    PanicExactly(s, evs, ev);
    assert (evs + [ev])[..|evs|] == evs;
    CrashRecordFollowsHistory(s, evs + [ev]);
    if Panic in Step(Run(s, evs).s, ev).out {
      WindowIsBurst(History(s, evs + [ev]), s.cfg.crashTime, s.cfg.crashCount);
    }
  }

  lemma {:induction false} HistoryPrefix(s: State, evs: seq<Event>, k: nat) returns (j: nat)
    requires 0 < k <= |History(s, evs)|
    ensures j <= |evs| && History(s, evs[..j]) == History(s, evs)[..k]
  {
    var h := History(s, evs);
    var before := evs[..|evs| - 1];
    if |h| == k {
      j := |evs|;
      assert evs[..j] == evs && h[..k] == h;
    } else {
      assert h[..k] == History(s, before)[..k];
      j := HistoryPrefix(s, before, k);
      assert before[..j] == evs[..j];
    }
  }

  lemma {:induction false} PrefixOfRun(s: State, evs: seq<Event>, j: nat)
    requires j <= |evs| && Legal(s, evs)
    ensures Legal(s, evs[..j]) && Clock(evs[..j]) <= Clock(evs)
    ensures Run(s, evs[..j]).out <= Run(s, evs).out
  {
    if j < |evs| {
      PrefixOfRun(s, evs[..|evs| - 1], j);
      assert evs[..|evs| - 1][..j] == evs[..j];
    } else {
      assert evs[..j] == evs;
    }
  }

  /** Nor can a burst slip between windows: `2n - 2` crashes within the configured seconds force a panic. */
  lemma {:induction false} BurstMeansPanic(s: State, evs: seq<Event>)
    requires Fresh(s) && Legal(s, evs) && Sec(Clock(evs)) < U32_MOD
    requires s.cfg.crashCount >= 2 && |History(s, evs)| >= 2 * s.cfg.crashCount - 2
    requires var h := History(s, evs);
             h[|h| - 1] - h[|h| - (2 * s.cfg.crashCount - 2)] <= s.cfg.crashTime
    ensures Panic in Run(s, evs).out
  {
    if Panic !in Run(s, evs).out {
      var h := History(s, evs);
      CrashRecordFollowsHistory(s, evs);
      BurstFillsWindow(h, s.cfg.crashTime, s.cfg.crashCount);
      var k :| 0 < k <= |h| && WindowCount(h[..k], s.cfg.crashTime) >= s.cfg.crashCount;
      var j := HistoryPrefix(s, evs, k);
      PrefixOfRun(s, evs, j);
      NoPanicKeepsBelow(s, evs[..j]);
    }
  }
}
