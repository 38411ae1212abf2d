/**
 How fast init can relaunch a crashing service. A service that is neither critical, one-shot,
 periodic nor on-demand is relaunched at once until its crash window is full, and then
 only after a pause.
 */
module RestartRate {
  import opened ServiceSpec
  import opened ServiceRuns
  import opened CrashWindow

  /** The seconds at which a run relaunched the service straight from the reap. */
  function Restarts(out: seq<Output>): seq<nat> {
    if out == [] then []
    else
      var o := out[|out| - 1];
      Restarts(out[..|out| - 1]) + (if o.Restart? then [o.sec] else [])
  }

  lemma {:induction false} RestartsConcat(a: seq<Output>, b: seq<Output>)
    ensures Restarts(a + b) == Restarts(a) + Restarts(b)
  {
    if b == [] {
      assert a + b == a;
    } else {
      RestartsConcat(a, b[..|b| - 1]);
      assert (a + b)[..|a + b| - 1] == a + b[..|b| - 1];
    }
  }

  // ---- Blocks of relaunches -------------------------------------------------------

  function End(rs: seq<nat>, bs: seq<nat>, k: nat): nat
    requires k < |bs|
  {
    if k + 1 < |bs| then bs[k + 1] else |rs|
  }

  /**
   The relaunch times `rs` cut into blocks that start at the indices `bs`: a block has fewer than
   `n` relaunches within `limit` seconds of its first, and the next one starts more than `limit`
   after its first or at least `limit` after its last.
   */
  predicate Blocks(rs: seq<nat>, bs: seq<nat>, n: nat, limit: nat) {
    && Sorted(rs) && (rs == [] <==> bs == []) && (bs != [] ==> bs[0] == 0 && bs[|bs| - 1] < |rs|)
    && forall k | 0 <= k < |bs| :: IsBlock(rs, bs, k, n, limit)
  }

  predicate IsBlock(rs: seq<nat>, bs: seq<nat>, k: nat, n: nat, limit: nat)
    requires k < |bs|
  {
    var first, end := bs[k], End(rs, bs, k);
    && first < end <= |rs| && end - first < n && rs[end - 1] <= rs[first] + limit
    && (k > 0 ==> bs[k - 1] < first && (rs[first] > rs[bs[k - 1]] + limit || rs[first] >= rs[first - 1] + limit))
  }

  lemma {:induction false} BlockOf(rs: seq<nat>, bs: seq<nat>, n: nat, limit: nat, i: nat, top: nat) returns (k: nat)
    requires Blocks(rs, bs, n, limit) && top < |bs| && i < End(rs, bs, top)
    ensures k <= top && bs[k] <= i < End(rs, bs, k)
  {
    assert IsBlock(rs, bs, top, n, limit);
    if bs[top] <= i {
      k := top;
    } else {
      k := BlockOf(rs, bs, n, limit, i, top - 1);
    }
  }

  /** Any `2n - 2` relaunches in a row take at least `limit` seconds, and one more makes it strict. */
  lemma BlocksSpread(rs: seq<nat>, bs: seq<nat>, n: nat, limit: nat, i: nat)
    requires n >= 2 && limit > 0 && Blocks(rs, bs, n, limit)
    ensures i + 2 * n - 3 < |rs| ==> rs[i + 2 * n - 3] >= rs[i] + limit
    ensures i + 2 * n - 2 < |rs| ==> rs[i + 2 * n - 2] > rs[i] + limit
  {
    if i + 2 * n - 3 < |rs| {
      assert IsBlock(rs, bs, |bs| - 1, n, limit);
      var k := BlockOf(rs, bs, n, limit, i, |bs| - 1);
      assert IsBlock(rs, bs, k, n, limit);
      assert k + 1 < |bs|;
      assert IsBlock(rs, bs, k + 1, n, limit);
      var b1 := bs[k + 1];
      assert rs[i] <= rs[b1 - 1] && b1 <= i + n - 1;
      if k + 2 < |bs| {
        assert IsBlock(rs, bs, k + 2, n, limit);
        assert rs[bs[k + 2] - 1] >= rs[b1];
      }
    }
  }

  // ---- Counting -------------------------------------------------------------------

  function CountIn(rs: seq<nat>, lo: int, hi: int): nat {
    if rs == [] then 0
    else CountIn(rs[..|rs| - 1], lo, hi) + (if lo <= rs[|rs| - 1] < hi then 1 else 0)
  }

  lemma {:induction false} CountIsSuffix(rs: seq<nat>, lo: int, hi: int)
    requires Sorted(rs) && rs != [] && rs[|rs| - 1] < hi
    ensures CountIn(rs, lo, hi) <= |rs|
    ensures CountIn(rs, lo, hi) > 0 ==> rs[|rs| - CountIn(rs, lo, hi)] >= lo
  {
    var before := rs[..|rs| - 1];
    if before != [] {
      CountIsSuffix(before, lo, hi);
      assert CountIn(before, lo, hi) > 0 ==> before[|before| - CountIn(before, lo, hi)] <= rs[|rs| - 1];
    }
  }

  lemma {:induction false} CountedInARow(rs: seq<nat>, lo: int, hi: int, m: nat) returns (i: nat)
    requires Sorted(rs) && 0 < m <= CountIn(rs, lo, hi)
    ensures i + m <= |rs| && lo <= rs[i] && rs[i + m - 1] < hi
  {
    if rs[|rs| - 1] < hi {
      CountIsSuffix(rs, lo, hi);
      i := |rs| - CountIn(rs, lo, hi);
    } else {
      i := CountedInARow(rs[..|rs| - 1], lo, hi, m);
    }
  }

  /**
   At most `2 * n - 3` in any `limit` seconds (none when the limit is one crash), and at most
   `2 * n - 2` in one second more.
   */
  predicate WithinRate(rs: seq<nat>, n: nat, limit: nat, from: nat)
    requires n >= 1
  {
    && CountIn(rs, from, from + limit) <= (if n == 1 then 0 else 2 * n - 3)
    && CountIn(rs, from, from + limit + 1) <= 2 * n - 2
  }

  lemma BlocksBoundCount(rs: seq<nat>, bs: seq<nat>, n: nat, limit: nat, from: nat)
    requires n >= 1 && limit > 0 && Blocks(rs, bs, n, limit)
    ensures WithinRate(rs, n, limit, from)
  {
    if n == 1 {
      assert bs != [] ==> IsBlock(rs, bs, 0, n, limit);
    } else {
      if CountIn(rs, from, from + limit) > 2 * n - 3 {
        var i := CountedInARow(rs, from, from + limit, 2 * n - 2);
        BlocksSpread(rs, bs, n, limit, i);
      }
      if CountIn(rs, from, from + limit + 1) > 2 * n - 2 {
        var i := CountedInARow(rs, from, from + limit + 1, 2 * n - 1);
        BlocksSpread(rs, bs, n, limit, i);
      }
    }
  }

  // ---- The supervisor -------------------------------------------------------------

  /** No stop request arrives. Starts may arrive at any time. */
  predicate Unattended(evs: seq<Event>) {
    forall ev | ev in evs :: UnattendedEvent(ev)
  }

  predicate UnattendedEvent(ev: Event) {
    ev.StartByName? || ev.OnDemand? || ev.Reap? || ev.TimerFire?
  }

  /**
   A start request that finds the service down with its counter reset and no timer armed, as a failed arming
   leaves it, does not come before the pause is over.
   */
  predicate Patient(s: State, evs: seq<Event>) {
    evs == [] ||
    var before, ev := evs[..|evs| - 1], evs[|evs| - 1];
    Patient(s, before) && (ev.StartByName? && Unguarded(Run(s, before).s) ==> PauseOver(Run(s, before), ev.env.now))
  }

  /** After a failed arming nothing is left that could start the service but a request. */
  predicate Dormant(s: State) {
    s.pid <= 0 && !s.timer.Armed?
  }

  predicate Unguarded(s: State) {
    Dormant(s) && s.crashCnt == 0
  }

  /** The last window is over, or the pause after its last relaunch. */
  predicate PauseOver(e: Effect, now: nat) {
    var rs := Restarts(e.out);
    rs != [] ==> Sec(now) > e.s.firstCrashTime + e.s.cfg.crashTime || Sec(now) >= rs[|rs| - 1] + e.s.cfg.crashTime
  }

  /** An ordinary service: relaunched whenever it exits. */
  predicate Ordinary(s: State) {
    && Linked(s) && s.cfg.crashTime > 0 && s.cfg.crashCount > 0
    && !s.attr.critical && !s.attr.once && !s.attr.period && !s.attr.onDemand
    && !s.attr.needStop && !s.attr.needRestart
  }

  /** The pause after a full window: either still armed, or over. */
  predicate Paused(s: State, last: nat, clock: nat) {
    || (s.timer.Armed? && s.timer.deadline >= (last + s.cfg.crashTime) * SEC_TO_MSEC)
    || (!s.timer.Armed? &&
        (Sec(clock) > s.firstCrashTime + s.cfg.crashTime || Sec(clock) >= last + s.cfg.crashTime))
  }

  predicate Tracked(s: State, rs: seq<nat>, bs: seq<nat>, clock: nat, failed: bool) {
    && Ordinary(s)
    && Blocks(rs, bs, s.cfg.crashCount, s.cfg.crashTime)
    && (rs != [] ==> rs[|rs| - 1] <= Sec(clock) && s.firstCrashTime == rs[bs[|bs| - 1]])
    && 0 <= s.crashCnt < s.cfg.crashCount
    && (s.crashCnt > 0 ==> bs != [] && |rs| - bs[|bs| - 1] == s.crashCnt && !s.timer.Armed?)
    && (s.crashCnt == 0 && rs != [] ==> Paused(s, rs[|rs| - 1], clock) || (failed && Dormant(s)))
  }

  lemma {:induction false} NoRestarts(out: seq<Output>)
    requires forall o | o in out :: !o.Restart?
    ensures Restarts(out) == []
  {
    if out != [] {
      assert out[|out| - 1] in out;
      NoRestarts(out[..|out| - 1]);
    }
  }

  lemma QuietStep(s: State, ev: Event)
    requires Ordinary(s) && UnattendedEvent(ev) && !ev.Reap? && Enabled(s, ev)
    ensures var e := Step(s, ev);
            && Ordinary(e.s) && e.s.cfg == s.cfg && SameCrashes(s, e.s) && Restarts(e.out) == []
            && e.s.timer == (if ev.TimerFire? then NoTimer else s.timer)
            && e.s.onDemandArgs == s.onDemandArgs
  {
    match ev
    case StartByName(extra, env) =>
      var args := if extra.argv != [] then extra else PathArgs(s);
      StartFrame(s, args, env);
      StartedOrdinary(s, args, env);
      NoRestarts(Step(s, ev).out);
    case OnDemand(extra, env) =>
      NoRestarts(Step(s, ev).out);
    case TimerFire(env) =>
      var s1 := StopTimerStep(s);
      StartFrame(s1, PathArgs(s1), env);
      StartedOrdinary(s1, PathArgs(s1), env);
      NoRestarts(Step(s, ev).out);
  }

  lemma StartedOrdinary(s: State, args: Args, env: Env)
    requires Ordinary(s)
    ensures Ordinary(StartStep(s, args, env).s)
    ensures forall o | o in StartStep(s, args, env).out :: o.Fork?
  {
  }

  lemma RelaunchStep(s: State, args: Args, env: Env)
    requires Ordinary(s)
    ensures var e := RestartStep(s, args, env);
            && Ordinary(e.s) && e.s.cfg == s.cfg && SameCrashes(s, e.s) && e.s.timer == s.timer
            && Restarts(e.out) == [Sec(env.now)]
  {
    RestartFrame(s, args, env);
    var st := StartStep(s, PathArgs(s), env);
    RestartsConcat([Restart(Sec(env.now))], st.out);
    assert [Restart(Sec(env.now))][..0] == [];
  }

  /** What a reap of an ordinary service does, in terms of the crash accounting that led to `t`. */
  predicate OrdinaryReap(s: State, e: Effect, t: State, ok: bool, now: nat, timerOk: bool) {
    && Ordinary(e.s) && e.s.cfg == s.cfg && e.s.onDemandArgs == NoArgs
    && (if s.attr.invalid || s.timer.Armed? then
          Restarts(e.out) == [] && SameCrashes(s, e.s) && e.s.timer == s.timer
        else if ok then
          Restarts(e.out) == [Sec(now)] && SameCrashes(t, e.s) && e.s.timer == s.timer
        else
          && Restarts(e.out) == [] && e.s.crashCnt == 0 && e.s.firstCrashTime == t.firstCrashTime
          && if timerOk then e.s.timer == Armed(RestartTimer, now + s.cfg.crashTime * SEC_TO_MSEC) else Dormant(e.s))
  }

  lemma ReapStepOrdinary(s: State, env: Env)
    requires Ordinary(s) && s.onDemandArgs == NoArgs
    ensures var crash := CrashStep(s.(pid := -1), env);
            OrdinaryReap(s, ReapStep(s, env), crash.0, crash.1, env.now, env.timerCreateOk && env.timerStartOk)
  {
    var s1 := s.(pid := -1);
    assert s1 == s.(onDemandArgs := NoArgs, pid := -1);
    CrashFrame(s1, env);
    RelaunchStep(CrashStep(s1, env).0, NoArgs, env);
    var e := HandleExitStep(s1, NoArgs, env);
    assert e.out + [] == e.out;
  }

  /** `t` may open a block after `rs`. */
  predicate Opens(rs: seq<nat>, bs: seq<nat>, limit: nat, t: nat)
    requires bs != [] ==> bs[|bs| - 1] < |rs|
  {
    bs != [] ==> t >= rs[|rs| - 1] && (t > rs[bs[|bs| - 1]] + limit || t >= rs[|rs| - 1] + limit)
  }

  /** `t` may join the last block of `rs`. */
  predicate Grows(rs: seq<nat>, bs: seq<nat>, n: nat, limit: nat, t: nat)
    requires bs != [] ==> bs[|bs| - 1] < |rs|
  {
    bs != [] && t >= rs[|rs| - 1] && t <= rs[bs[|bs| - 1]] + limit && |rs| + 1 - bs[|bs| - 1] < n
  }

  /** The timer facility refuses something during a reap. */
  predicate TimerFailed(ev: Event) {
    ev.Reap? && !(ev.env.timerCreateOk && ev.env.timerStartOk)
  }

  predicate AnyTimerFailed(evs: seq<Event>) {
    exists ev | ev in evs :: TimerFailed(ev)
  }

  /** A counted crash opens a block of relaunches or joins the last one. */
  predicate OpensOrGrows(s: State, t: State, rs: seq<nat>, bs: seq<nat>, now: nat)
    requires s.cfg.crashTime > 0 && s.cfg.crashCount > 0
    requires bs != [] ==> bs[|bs| - 1] < |rs|
  {
    if t.crashCnt == 1 then
      t.firstCrashTime == now && s.cfg.crashCount >= 2 && Opens(rs, bs, s.cfg.crashTime, now)
    else
      && t.firstCrashTime == s.firstCrashTime && t.crashCnt == s.crashCnt + 1 && s.crashCnt > 0
      && Grows(rs, bs, s.cfg.crashCount, s.cfg.crashTime, now)
  }

  lemma CrashCases(s: State, rs: seq<nat>, bs: seq<nat>, clock: nat, failed: bool, env: Env)
    requires Tracked(s, rs, bs, clock, failed) && clock <= env.now && Sec(env.now) < U32_MOD
    requires !s.timer.Armed? && s.pid > 0
    ensures var (s1, ok) := CrashStep(s.(pid := -1), env);
            if ok then OpensOrGrows(s, s1, rs, bs, Sec(env.now))
            else rs != [] ==> s1.firstCrashTime == s.firstCrashTime
  {
    assert bs != [] ==> IsBlock(rs, bs, 0, s.cfg.crashCount, s.cfg.crashTime);
  }

  lemma TrackReaped(s: State, rs: seq<nat>, bs: seq<nat>, clock: nat, failed: bool, now: nat, e: Effect, t: State,
                    ok: bool, timerOk: bool)
    returns (bs1: seq<nat>)
    requires Tracked(s, rs, bs, clock, failed) && s.pid > 0 && clock <= now && OrdinaryReap(s, e, t, ok, now, timerOk)
    requires !s.timer.Armed? ==> if ok then OpensOrGrows(s, t, rs, bs, Sec(now))
                                 else rs != [] ==> t.firstCrashTime == s.firstCrashTime
    ensures Tracked(e.s, rs + Restarts(e.out), bs1, now, failed || !timerOk)
  {
    bs1 := bs;
    if s.attr.invalid || s.timer.Armed? || !ok {
      assert rs + [] == rs;
    } else if t.crashCnt == 1 {
      bs1 := bs + [|rs|];
      BlocksOpen(rs, bs, s.cfg.crashCount, s.cfg.crashTime, Sec(now));
    } else {
      BlocksGrow(rs, bs, s.cfg.crashCount, s.cfg.crashTime, Sec(now));
    }
  }

  lemma TrackReap(s: State, rs: seq<nat>, bs: seq<nat>, clock: nat, failed: bool, env: Env) returns (bs1: seq<nat>)
    requires Tracked(s, rs, bs, clock, failed) && clock <= env.now && Sec(env.now) < U32_MOD
    requires s.pid > 0 && s.onDemandArgs == NoArgs
    ensures Tracked(ReapStep(s, env).s, rs + Restarts(ReapStep(s, env).out), bs1, env.now, failed || TimerFailed(Reap(env)))
    ensures ReapStep(s, env).s.cfg == s.cfg && ReapStep(s, env).s.onDemandArgs == NoArgs
  {
    ReapStepOrdinary(s, env);
    var (t, ok) := CrashStep(s.(pid := -1), env);
    if !s.timer.Armed? {
      CrashCases(s, rs, bs, clock, failed, env);
    }
    bs1 := TrackReaped(s, rs, bs, clock, failed, env.now, ReapStep(s, env), t, ok, env.timerCreateOk && env.timerStartOk);
  }

  lemma BlocksOpen(rs: seq<nat>, bs: seq<nat>, n: nat, limit: nat, t: nat)
    requires Blocks(rs, bs, n, limit) && n >= 2 && Opens(rs, bs, limit, t)
    ensures Blocks(rs + [t], bs + [|rs|], n, limit)
  {
    var rs1, bs1 := rs + [t], bs + [|rs|];
    assert Sorted(rs1);
    forall k | 0 <= k < |bs1|
      ensures IsBlock(rs1, bs1, k, n, limit)
    {
      if k < |bs| {
        assert IsBlock(rs, bs, k, n, limit);
        assert End(rs1, bs1, k) == End(rs, bs, k);
      } else if k > 0 {
        assert IsBlock(rs, bs, k - 1, n, limit);
      }
    }
  }

  lemma BlocksGrow(rs: seq<nat>, bs: seq<nat>, n: nat, limit: nat, t: nat)
    requires Blocks(rs, bs, n, limit) && Grows(rs, bs, n, limit, t)
    ensures Blocks(rs + [t], bs, n, limit)
  {
    var rs1 := rs + [t];
    assert Sorted(rs1);
    forall k | 0 <= k < |bs|
      ensures IsBlock(rs1, bs, k, n, limit)
    {
      assert IsBlock(rs, bs, k, n, limit);
    }
  }

  lemma {:induction false} TrackRun(s: State, evs: seq<Event>) returns (bs: seq<nat>)
    requires Ordinary(s) && s.crashCnt == 0 && s.onDemandArgs == NoArgs
    requires Legal(s, evs) && Unattended(evs) && Patient(s, evs) && Sec(Clock(evs)) < U32_MOD
    ensures Run(s, evs).s.cfg == s.cfg && Run(s, evs).s.onDemandArgs == NoArgs
    ensures Tracked(Run(s, evs).s, Restarts(Run(s, evs).out), bs, Clock(evs), AnyTimerFailed(evs))
  {
    if evs == [] {
      bs := [];
    } else {
      var before, ev := evs[..|evs| - 1], evs[|evs| - 1];
      assert ev in evs && forall x | x in before :: x in evs;
      bs := TrackRun(s, before);
      RestartsConcat(Run(s, before).out, Step(Run(s, before).s, ev).out);
      FailedBefore(evs);
      bs := TrackStep(Run(s, before).s, Restarts(Run(s, before).out), bs, Clock(before), AnyTimerFailed(before), ev);
    }
  }

  lemma FailedBefore(evs: seq<Event>)
    requires evs != []
    ensures AnyTimerFailed(evs) <==> AnyTimerFailed(evs[..|evs| - 1]) || TimerFailed(evs[|evs| - 1])
  {
    assert evs == evs[..|evs| - 1] + [evs[|evs| - 1]];
  }

  lemma TrackStep(s: State, rs: seq<nat>, bs: seq<nat>, clock: nat, failed: bool, ev: Event) returns (bs1: seq<nat>)
    requires Tracked(s, rs, bs, clock, failed) && UnattendedEvent(ev) && Enabled(s, ev)
    requires clock <= ev.env.now && Sec(ev.env.now) < U32_MOD && s.onDemandArgs == NoArgs
    requires ev.StartByName? && Unguarded(s) && rs != [] ==>
               Sec(ev.env.now) > s.firstCrashTime + s.cfg.crashTime || Sec(ev.env.now) >= rs[|rs| - 1] + s.cfg.crashTime
    ensures var e := Step(s, ev);
            && Tracked(e.s, rs + Restarts(e.out), bs1, ev.env.now, failed || TimerFailed(ev))
            && e.s.cfg == s.cfg && e.s.onDemandArgs == NoArgs
  {
    if ev.Reap? {
      bs1 := TrackReap(s, rs, bs, clock, failed, ev.env);
    } else {
      bs1 := bs;
      TrackQuiet(s, rs, bs, clock, failed, ev);
      assert rs + [] == rs;
    }
  }

  lemma TrackQuiet(s: State, rs: seq<nat>, bs: seq<nat>, clock: nat, failed: bool, ev: Event)
    requires Tracked(s, rs, bs, clock, failed) && UnattendedEvent(ev) && !ev.Reap? && Enabled(s, ev)
    requires clock <= ev.env.now && s.onDemandArgs == NoArgs
    requires ev.StartByName? && Unguarded(s) && rs != [] ==>
               Sec(ev.env.now) > s.firstCrashTime + s.cfg.crashTime || Sec(ev.env.now) >= rs[|rs| - 1] + s.cfg.crashTime
    ensures var e := Step(s, ev);
            && Tracked(e.s, rs, bs, ev.env.now, failed) && Restarts(e.out) == []
            && e.s.cfg == s.cfg && e.s.onDemandArgs == NoArgs
  {
    QuietStep(s, ev);
  }

  lemma TrackedBound(s: State, rs: seq<nat>, bs: seq<nat>, clock: nat, failed: bool, from: nat)
    requires Tracked(s, rs, bs, clock, failed)
    ensures 0 <= s.crashCnt < s.cfg.crashCount && WithinRate(rs, s.cfg.crashCount, s.cfg.crashTime, from)
  {
    BlocksBoundCount(rs, bs, s.cfg.crashCount, s.cfg.crashTime, from);
  }

  /**
   The restart rate. In every run without stop requests, any `crashTime` seconds hold at most
   `2 * crashCount - 3` immediate relaunches (none when the limit is one crash), one second more holds at
   most `2 * crashCount - 2`, and between events the crash counter stays below the limit.
   */
  lemma {:induction false} RestartRateBound(s: State, evs: seq<Event>, from: nat)
    requires Ordinary(s) && s.crashCnt == 0 && s.onDemandArgs == NoArgs
    requires Legal(s, evs) && Unattended(evs) && Patient(s, evs) && Sec(Clock(evs)) < U32_MOD
    ensures 0 <= Run(s, evs).s.crashCnt < s.cfg.crashCount
    ensures WithinRate(Restarts(Run(s, evs).out), s.cfg.crashCount, s.cfg.crashTime, from)
  {
    var bs := TrackRun(s, evs);
    TrackedBound(Run(s, evs).s, Restarts(Run(s, evs).out), bs, Clock(evs), AnyTimerFailed(evs), from);
  }

  /** When the timer facility works, every run is patient. */
  lemma {:induction false} WorkingTimersArePatient(s: State, evs: seq<Event>)
    requires Ordinary(s) && s.crashCnt == 0 && s.onDemandArgs == NoArgs
    requires Legal(s, evs) && Unattended(evs) && !AnyTimerFailed(evs) && Sec(Clock(evs)) < U32_MOD
    ensures Patient(s, evs)
  {
    if evs != [] {
      var before, ev := evs[..|evs| - 1], evs[|evs| - 1];
      assert forall x | x in before :: x in evs;
      WorkingTimersArePatient(s, before);
      var bs := TrackRun(s, before);
    }
  }

  // ---- Why starts have to wait after a failed arming -----------------------------------

  function Answers(now: nat, timers: bool): Env { Env(now, true, 1, true, timers, timers, false) }

  /** Running and relaunchable. */
  predicate Up(s: State) {
    && Ordinary(s) && s.pid > 0 && !s.timer.Armed? && !s.attr.invalid && s.onDemandArgs == NoArgs
    && s.cfg.pathArgs != [] && s.crashCnt >= 0
  }

  /** Running, with a window that is empty or was opened this second. */
  predicate Running(s: State, now: nat) {
    Up(s) && (s.crashCnt > 0 ==> s.firstCrashTime == Sec(now))
  }

  lemma {:induction false} CountConcat(a: seq<nat>, b: seq<nat>, lo: int, hi: int)
    ensures CountIn(a + b, lo, hi) == CountIn(a, lo, hi) + CountIn(b, lo, hi)
  {
    if b == [] {
      assert a + b == a;
    } else {
      CountConcat(a, b[..|b| - 1], lo, hi);
      assert (a + b)[..|a + b| - 1] == a + b[..|b| - 1];
    }
  }

  /** A stretch of seconds. */
  datatype Span = Span(from: nat, to: nat)

  /** The relaunches within a stretch. */
  function Hits(out: seq<Output>, span: Span): nat {
    CountIn(Restarts(out), span.from, span.to)
  }

  /** A run without stop requests that has reached `at` with `count` relaunches in the stretch. */
  predicate Reaches(s: State, evs: seq<Event>, span: Span, at: State, count: nat) {
    && Legal(s, evs) && Unattended(evs) && Run(s, evs).s == at && Hits(Run(s, evs).out, span) == count
  }

  lemma OneMore(s: State, evs: seq<Event>, ev: Event)
    ensures Run(s, evs + [ev]).s == Step(Run(s, evs).s, ev).s
    ensures Run(s, evs + [ev]).out == Run(s, evs).out + Step(Run(s, evs).s, ev).out
    ensures Legal(s, evs + [ev]) <==> Legal(s, evs) && Enabled(Run(s, evs).s, ev) && Clock(evs) <= ev.env.now
  {
    assert (evs + [ev])[..|evs|] == evs;
  }

  lemma HitsConcat(a: seq<Output>, b: seq<Output>, span: Span)
    ensures Hits(a + b, span) == Hits(a, span) + Hits(b, span)
  {
    RestartsConcat(a, b);
    CountConcat(Restarts(a), Restarts(b), span.from, span.to);
  }

  lemma Extend(s: State, evs: seq<Event>, span: Span, at: State, count: nat, ev: Event, e: Effect)
    requires Reaches(s, evs, span, at, count) && UnattendedEvent(ev) && Clock(evs) <= ev.env.now
    requires Enabled(at, ev) && Step(at, ev) == e
    ensures Reaches(s, evs + [ev], span, e.s, count + Hits(e.out, span)) && Clock(evs + [ev]) == ev.env.now
  {
    OneMore(s, evs, ev);
    HitsConcat(Run(s, evs).out, e.out, span);
  }

  lemma CrashAndRelaunch(s: State, now: nat, span: Span)
    requires Running(s, now) && Sec(now) < U32_MOD && s.crashCnt + 1 < s.cfg.crashCount
    requires span.from <= Sec(now) < span.to
    ensures var e := ReapStep(s, Answers(now, true));
            Running(e.s, now) && e.s.crashCnt == s.crashCnt + 1 && e.s.cfg == s.cfg && Hits(e.out, span) == 1
  {
    var env := Answers(now, true);
    ReapStepOrdinary(s, env);
    assert CrashStep(s.(pid := -1), env) ==
           (s.(pid := -1, firstCrashTime := Sec(now), crashCnt := s.crashCnt + 1), true);
    assert Restarts(ReapStep(s, env).out) == [Sec(now)] && [Sec(now)][..0] == [];
    assert CountIn([], span.from, span.to) == 0;
  }

  /** `k` crashes in one second, each followed by a relaunch. */
  lemma {:induction false} Burst(s: State, evs: seq<Event>, now: nat, span: Span, at: State, count: nat, k: nat)
    returns (evs1: seq<Event>, end: State)
    requires Reaches(s, evs, span, at, count) && Clock(evs) <= now && Sec(now) < U32_MOD
    requires Running(at, now) && at.crashCnt + k < at.cfg.crashCount && span.from <= Sec(now) < span.to
    ensures Reaches(s, evs1, span, end, count + k) && Clock(evs1) <= now && evs <= evs1
    ensures forall ev | ev in evs1 :: ev in evs || ev.Reap?
    ensures Running(end, now) && end.crashCnt == at.crashCnt + k && end.cfg == at.cfg
    decreases k
  {
    if k == 0 {
      evs1, end := evs, at;
    } else {
      var ev, e := Reap(Answers(now, true)), ReapStep(at, Answers(now, true));
      CrashAndRelaunch(at, now, span);
      Extend(s, evs, span, at, count, ev, e);
      evs1, end := Burst(s, evs + [ev], now, span, e.s, count + 1, k - 1);
    }
  }

  /** The next crash fills the window. */
  predicate WindowFull(s: State, crash: nat) {
    Up(s) && 0 < s.crashCnt == s.cfg.crashCount - 1 && s.firstCrashTime <= Sec(crash) <= s.firstCrashTime + s.cfg.crashTime
  }

  /** The crash that fills the window, when the timer facility fails: the counter is reset and nothing is armed. */
  lemma CrashWithoutTimer(s: State, crash: nat, span: Span)
    requires WindowFull(s, crash) && Sec(crash) < U32_MOD
    ensures var e := ReapStep(s, Answers(crash, false));
            Down(e.s) && e.s.cfg == s.cfg && Hits(e.out, span) == 0
  {
    ReapStepOrdinary(s, Answers(crash, false));
  }

  lemma StartAgain(s: State, now: nat, span: Span)
    requires Down(s)
    ensures var e := StartByNameStep(s, NoArgs, Answers(now, true));
            Running(e.s, now) && e.s.crashCnt == 0 && e.s.cfg == s.cfg && Hits(e.out, span) == 0
  {
    QuietStep(s, StartByName(NoArgs, Answers(now, true)));
  }

  /** A failed arming and a start request. */
  function FailedStart(crash: nat, now: nat): seq<Event> {
    [Reap(Answers(crash, false)), StartByName(NoArgs, Answers(now, true))]
  }

  /** A service that a failed arming left down. */
  predicate Down(s: State) {
    Unguarded(s) && Ordinary(s) && !s.attr.invalid && s.onDemandArgs == NoArgs && s.cfg.pathArgs != []
  }

  lemma Fail(s: State, evs: seq<Event>, crash: nat, span: Span, at: State, count: nat) returns (down: State)
    requires Reaches(s, evs, span, at, count) && Clock(evs) <= crash && Sec(crash) < U32_MOD && WindowFull(at, crash)
    ensures var evs1 := evs + [Reap(Answers(crash, false))]; Reaches(s, evs1, span, down, count) && Clock(evs1) == crash
    ensures Down(down) && down.cfg == at.cfg
  {
    CrashWithoutTimer(at, crash, span);
    var e := ReapStep(at, Answers(crash, false));
    Extend(s, evs, span, at, count, Reap(Answers(crash, false)), e);
    down := e.s;
  }

  lemma Restarted(s: State, evs: seq<Event>, now: nat, span: Span, at: State, count: nat) returns (up: State)
    requires Reaches(s, evs, span, at, count) && Clock(evs) <= now && Down(at)
    ensures var evs1 := evs + [StartByName(NoArgs, Answers(now, true))]; Reaches(s, evs1, span, up, count) && Clock(evs1) == now
    ensures Running(up, now) && up.crashCnt == 0 && up.cfg == at.cfg
  {
    StartAgain(at, now, span);
    var e := StartByNameStep(at, NoArgs, Answers(now, true));
    Extend(s, evs, span, at, count, StartByName(NoArgs, Answers(now, true)), e);
    up := e.s;
  }

  lemma FailAndStart(s: State, evs: seq<Event>, crash: nat, now: nat, span: Span, at: State, count: nat)
    returns (evs1: seq<Event>, end: State)
    requires Reaches(s, evs, span, at, count) && Clock(evs) <= crash <= now && Sec(now) < U32_MOD
    requires WindowFull(at, crash)
    ensures evs1 == evs + FailedStart(crash, now)
    ensures Reaches(s, evs1, span, end, count) && Clock(evs1) == now
    ensures Running(end, now) && end.crashCnt == 0 && end.cfg == at.cfg
  {
    var fail, start := Reap(Answers(crash, false)), StartByName(NoArgs, Answers(now, true));
    var down := Fail(s, evs, crash, span, at, count);
    end := Restarted(s, evs + [fail], now, span, down, count);
    evs1 := evs + [fail] + [start];
    TwoMore(evs, fail, start);
  }

  lemma TwoMore(evs: seq<Event>, x: Event, y: Event)
    ensures evs + [x] + [y] == evs + [x, y]
  {
  }

  lemma {:induction false} CountOfSuffix(rs: seq<nat>, b: nat, lo: int, hi: int)
    requires Sorted(rs) && b < |rs| && lo <= rs[b] && rs[|rs| - 1] < hi
    ensures CountIn(rs, lo, hi) >= |rs| - b
  {
    if b < |rs| - 1 {
      CountOfSuffix(rs[..|rs| - 1], b, lo, hi);
    }
  }

  /** A full window has all but one of its crashes in relaunches. */
  lemma WindowHits(s: State, evs: seq<Event>, to: nat)
    requires Ordinary(s) && s.crashCnt == 0 && s.onDemandArgs == NoArgs
    requires Legal(s, evs) && Unattended(evs) && Patient(s, evs) && Sec(Clock(evs)) < U32_MOD
    requires Run(s, evs).s.crashCnt > 0 && Sec(Clock(evs)) < to
    ensures Hits(Run(s, evs).out, Span(Run(s, evs).s.firstCrashTime, to)) >= Run(s, evs).s.crashCnt
    ensures Run(s, evs).s.cfg == s.cfg
  {
    var bs := TrackRun(s, evs);
    var rs := Restarts(Run(s, evs).out);
    CountOfSuffix(rs, bs[|bs| - 1], Run(s, evs).s.firstCrashTime, to);
  }

  /**
   The waiting is needed after every failed arming: if any run has come to a full window, the timer for its
   pause cannot be had and the service is started before the window is over, then it can crash so that the
   rate is exceeded.
   */
  lemma {:induction false} EarlyStartBreaksRate(s: State, evs: seq<Event>, crash: nat, now: nat) returns (more: seq<Event>)
    requires Ordinary(s) && s.crashCnt == 0 && s.onDemandArgs == NoArgs
    requires Legal(s, evs) && Unattended(evs) && Patient(s, evs) && WindowFull(Run(s, evs).s, crash)
    requires Clock(evs) <= crash <= now && Sec(now) < U32_MOD
    requires Sec(now) < Run(s, evs).s.firstCrashTime + s.cfg.crashTime
    ensures FailedStart(crash, now) <= more
    ensures Legal(s, evs + more) && Unattended(evs + more)
    ensures !WithinRate(Restarts(Run(s, evs + more).out), s.cfg.crashCount, s.cfg.crashTime, Run(s, evs).s.firstCrashTime)
  {
    var at, out := Run(s, evs).s, Run(s, evs).out;
    var span := Span(at.firstCrashTime, at.firstCrashTime + s.cfg.crashTime);
    WindowHits(s, evs, span.to);
    more := FailStartBurst(s, evs, crash, now, span, at, Hits(out, span));
  }

  lemma TooMany(out: seq<Output>, span: Span, n: nat, limit: nat)
    requires n >= 2 && span.to == span.from + limit && Hits(out, span) > 2 * n - 3
    ensures !WithinRate(Restarts(out), n, limit, span.from)
  {
  }

  lemma FailStartBurst(s: State, evs: seq<Event>, crash: nat, now: nat, span: Span, at: State, count: nat)
    returns (more: seq<Event>)
    requires Reaches(s, evs, span, at, count) && Clock(evs) <= crash <= now && Sec(now) < U32_MOD
    requires WindowFull(at, crash) && count >= at.cfg.crashCount - 1
    requires span.from <= Sec(now) < span.to && span.to == span.from + at.cfg.crashTime
    ensures FailedStart(crash, now) <= more
    ensures Legal(s, evs + more) && Unattended(evs + more)
    ensures !WithinRate(Restarts(Run(s, evs + more).out), at.cfg.crashCount, at.cfg.crashTime, span.from)
  {
    var evs1, end := FailAndStart(s, evs, crash, now, span, at, count);
    var evs2, _ := Burst(s, evs1, now, span, end, count, at.cfg.crashCount - 1);
    more := evs2[|evs|..];
    PrefixParts(evs, FailedStart(crash, now), evs2);
    TooMany(Run(s, evs2).out, span, at.cfg.crashCount, at.cfg.crashTime);
  }

  lemma PrefixParts(a: seq<Event>, b: seq<Event>, whole: seq<Event>)
    requires a + b <= whole
    ensures whole == a + whole[|a|..] && b <= whole[|a|..]
  {
    assert whole[..|a + b|] == a + b;
  }

  /** Every ordinary service with a limit of at least two crashes can come to a full window. */
  lemma WindowCanFill(s: State, now: nat) returns (evs: seq<Event>)
    requires Running(s, now) && s.crashCnt == 0 && s.cfg.crashCount >= 2 && Sec(now) < U32_MOD
    ensures Legal(s, evs) && Unattended(evs) && Patient(s, evs) && Clock(evs) <= now && WindowFull(Run(s, evs).s, now)
  {
    var span, end := Span(Sec(now), Sec(now) + 1), s;
    evs, end := Burst(s, [], now, span, s, 0, s.cfg.crashCount - 1);
    ReapsArePatient(s, evs);
  }

  lemma {:induction false} ReapsArePatient(s: State, evs: seq<Event>)
    requires forall ev | ev in evs :: ev.Reap?
    ensures Patient(s, evs)
  {
    if evs != [] {
      ReapsArePatient(s, evs[..|evs| - 1]);
      assert evs[|evs| - 1] in evs;
    }
  }
}
