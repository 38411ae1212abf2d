/** What the published status of every key means, and which start requests fork. */
module ByUserStatus {
  import opened ByUserSpec
  import opened ByUserRuns

  // ---- Which starts fork ------------------------------------------------------------------

  /** Some instance of the key records a child. */
  predicate HasRecorded(insts: seq<Instance>, k: Key) {
    exists i | 0 <= i < |insts| :: insts[i].key == k && insts[i].pid > 0
  }

  /** Nothing is in the way of the start request. */
  predicate Launches(r: Registry, k: Key, env: StartEnv) {
    && env.templateFound && env.templateSupported && !env.templateInvalid
    && env.pathArgsOk && env.statOk && env.forkPid > 0
    && (env.allocOk || HasKey(r.insts, k)) && !HasRecorded(r.insts, k)
  }

  lemma FindsRecorded(insts: seq<Instance>, k: Key)
    requires KeysUnique(insts)
    ensures HasKey(insts, k) <==> Find(insts, k) < |insts|
    ensures HasRecorded(insts, k) <==> Find(insts, k) < |insts| && insts[Find(insts, k)].pid > 0
  {
  }

  /** A start request forks exactly when nothing is in the way, and then records and publishes the child as started. */
  lemma StartForksExactlyWhen(r: Registry, k: Key, env: StartEnv)
    requires Inv(r)
    ensures var r1 := StartStep(r, k, env);
            if Launches(r, k, env) then
              && r1.children == r.children[env.forkPid := k] && r1.params == r.params[k := Shown(Started, env.forkPid)]
              && Instance(k, env.forkPid, Started) in r1.insts
            else r1.children == r.children && r1.params == r.params
  {
    FindsRecorded(r.insts, k);
    CreateKeepsInv(r, k);
    var r1 := GetOrCreate(r, k);
    var i := Find(r1.insts, k);
    if Launches(r, k, env) {
      assert r1.insts[i].pid <= 0;
      assert LaunchStep(r1, i, env).insts[i] == Instance(k, env.forkPid, Started);
    }
  }

  // ---- Which instances there are ----------------------------------------------------------

  /** An instance without a recorded child has not had one yet. */
  predicate Waiting(insts: seq<Instance>) {
    forall i | 0 <= i < |insts| :: insts[i].pid > 0 || insts[i].status == Idle
  }

  lemma {:induction false} StopFromLeavesNone(r: Registry, i: nat, kills: map<int, Kill>)
    requires i <= |r.insts| && Waiting(r.insts[..i])
    ensures Waiting(StopFrom(r, i, kills).insts)
    decreases |r.insts| - i
  {
    if i == |r.insts| {
      assert r.insts[..i] == r.insts;
    } else {
      var r1 := StopInstance(r, i, KillOf(kills, r.insts[i].pid));
      assert r1.insts[..i] == r.insts[..i];
      if r1.insts[i].pid <= 0 {
        assert Remove(r1, i).insts[..i] == r.insts[..i];
        StopFromLeavesNone(Remove(r1, i), i, kills);
      } else {
        assert r1.insts[..i + 1] == r.insts[..i] + [r1.insts[i]];
        StopFromLeavesNone(r1, i + 1, kills);
      }
    }
  }

  lemma StartLeavesNone(r: Registry, k: Key, env: StartEnv)
    requires Waiting(r.insts)
    ensures Waiting(StartStep(r, k, env).insts)
  {
    assert Waiting(GetOrCreate(r, k).insts);
  }

  lemma StopLeavesNone(r: Registry, k: Key, kill: Kill)
    requires Waiting(r.insts)
    ensures Waiting(StopStep(r, k, kill).insts)
  {
    var i := Find(r.insts, k);
    if i < |r.insts| {
      RemoveLeavesNone(r.insts, StopInstance(r, i, kill).insts, i);
    }
  }

  lemma RemoveLeavesNone(insts: seq<Instance>, insts1: seq<Instance>, i: nat)
    requires Waiting(insts) && i < |insts| == |insts1| && insts1 == insts[i := insts1[i]]
    ensures Waiting(insts1[..i] + insts1[i + 1..]) && (insts1[i].pid > 0 ==> Waiting(insts1))
  {
  }

  lemma ReapLeavesNone(r: Registry, pid: int)
    requires Waiting(r.insts)
    ensures Waiting(ReapStep(r, pid).insts)
  {
    var i := FindPid(r.insts, pid);
    if pid > 0 && i < |r.insts| {
      RemoveLeavesNone(r.insts, WriteState(r, i, -1, Stopped).insts, i);
    }
  }

  lemma StepLeavesNone(r: Registry, ev: Event)
    requires Waiting(r.insts)
    ensures Waiting(Step(r, ev).insts)
  {
    match ev
    case Start(k, env) => StartLeavesNone(r, k, env);
    case Stop(k, kill) => StopLeavesNone(r, k, kill);
    case StopAll(kills) => StopFromLeavesNone(r, 0, kills);
    case Reap(pid) => ReapLeavesNone(r, pid);
    case ReapElsewhere(pid) =>
  }

  /** Over every run, an instance that was stopped or whose child was reaped is gone from the list. */
  lemma {:induction false} NobodyLingers(evs: seq<Event>)
    ensures forall inst | inst in Run(Empty, evs).insts :: inst.pid > 0 || inst.status == Idle
  {
    AllWaiting(evs);
  }

  lemma {:induction false} AllWaiting(evs: seq<Event>)
    ensures Waiting(Run(Empty, evs).insts)
  {
    if evs != [] {
      AllWaiting(evs[..|evs| - 1]);
      StepLeavesNone(Run(Empty, evs[..|evs| - 1]), evs[|evs| - 1]);
    }
  }

  // ---- What the status says --------------------------------------------------------------

  function KeysFrom(insts: seq<Instance>, i: nat): set<Key> {
    set j | i <= j < |insts| :: insts[j].key
  }

  function AskedStep(asked: set<Key>, r: Registry, ev: Event): set<Key> {
    match ev
    case Start(k, env) => if Launches(r, k, env) then asked - {k} else asked
    case Stop(k, _) => asked + {k}
    case StopAll(_) => asked + KeysFrom(r.insts, 0)
    case _ => asked
  }

  /** The keys that were told to stop after their last fork. */
  function Asked(evs: seq<Event>): set<Key> {
    if evs == [] then {}
    else AskedStep(Asked(evs[..|evs| - 1]), Run(Empty, evs[..|evs| - 1]), evs[|evs| - 1])
  }

  /** One published entry: stopped without a pid, and with one stopping if asked to and started otherwise. */
  predicate Meaningful(shown: Shown, asked: bool) {
    shown.pid >= 0 && shown.status == (if shown.pid == 0 then Stopped else if asked then Stopping else Started)
  }

  predicate StatusSays(r: Registry, asked: set<Key>) {
    forall k | k in r.params :: Meaningful(r.params[k], k in asked)
  }

  lemma StopInstanceSays(r: Registry, i: nat, kill: Kill, asked: set<Key>)
    requires StatusSays(r, asked) && i < |r.insts|
    ensures StatusSays(StopInstance(r, i, kill), asked + {r.insts[i].key})
  {
  }

  lemma KeysShrink(insts: seq<Instance>, i: nat, insts1: seq<Instance>)
    requires i < |insts| == |insts1| && forall j | 0 <= j < |insts| :: insts1[j].key == insts[j].key
    ensures KeysFrom(insts, i) == {insts[i].key} + KeysFrom(insts1, i + 1)
    ensures KeysFrom(insts1[..i] + insts1[i + 1..], i) == KeysFrom(insts1, i + 1)
  {
    var rest := insts1[..i] + insts1[i + 1..];
    assert forall j | i <= j < |rest| :: rest[j] == insts1[j + 1];
    forall k
      ensures k in KeysFrom(rest, i) <==> k in KeysFrom(insts1, i + 1)
    {
      if k in KeysFrom(insts1, i + 1) {
        var j :| i + 1 <= j < |insts1| && insts1[j].key == k;
        assert rest[j - 1].key == k;
      }
    }
  }

  lemma {:induction false} StopFromSays(r: Registry, i: nat, kills: map<int, Kill>, asked: set<Key>)
    requires StatusSays(r, asked) && i <= |r.insts|
    ensures StatusSays(StopFrom(r, i, kills), asked + KeysFrom(r.insts, i))
    decreases |r.insts| - i
  {
    if i == |r.insts| {
      assert asked + KeysFrom(r.insts, i) == asked;
    } else {
      var kill, k := KillOf(kills, r.insts[i].pid), r.insts[i].key;
      var r1 := StopInstance(r, i, kill);
      StopInstanceSays(r, i, kill, asked);
      KeysShrink(r.insts, i, r1.insts);
      assert asked + KeysFrom(r.insts, i) == (asked + {k}) + KeysFrom(r1.insts, i + 1);
      if r1.insts[i].pid <= 0 {
        StopFromSays(Remove(r1, i), i, kills, asked + {k});
      } else {
        StopFromSays(r1, i + 1, kills, asked + {k});
      }
    }
  }

  lemma StopSays(r: Registry, k: Key, kill: Kill, asked: set<Key>)
    requires Inv(r) && StatusSays(r, asked)
    ensures StatusSays(StopStep(r, k, kill), asked + {k})
  {
    var i := Find(r.insts, k);
    if i < |r.insts| {
      StopInstanceSays(r, i, kill, asked);
    } else {
      assert !HasKey(r.insts, k);
    }
  }

  lemma StepSays(r: Registry, ev: Event, asked: set<Key>)
    requires Inv(r) && StatusSays(r, asked)
    ensures StatusSays(Step(r, ev), AskedStep(asked, r, ev))
  {
    match ev
    case Start(k, env) => StartForksExactlyWhen(r, k, env);
    case Stop(k, kill) => StopSays(r, k, kill, asked);
    case StopAll(kills) => StopFromSays(r, 0, kills, asked);
    case Reap(pid) =>
    case ReapElsewhere(pid) =>
  }

  /**
   Over every run the status published for a key is stopped exactly when no pid is, and with a pid it is
   stopping if and only if the key was told to stop after its last fork, and started otherwise.
   */
  lemma {:induction false} StatusMeans(evs: seq<Event>, k: Key)
    requires Legal(Empty, evs)
    ensures var params := Run(Empty, evs).params;
            k in params ==>
              && (params[k].status == Stopped <==> params[k].pid == 0)
              && (params[k].pid != 0 ==> params[k].status == if k in Asked(evs) then Stopping else Started)
  {
    RunSays(evs);
  }

  lemma {:induction false} RunSays(evs: seq<Event>)
    requires Legal(Empty, evs)
    ensures StatusSays(Run(Empty, evs), Asked(evs))
  {
    if evs != [] {
      var before := evs[..|evs| - 1];
      RunSays(before);
      OneChildPerUser(before);
      StepSays(Run(Empty, before), evs[|evs| - 1], Asked(before));
    }
  }
}
